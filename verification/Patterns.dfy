/**
  The two regular expressions the client tries on a cleaned date string:
    day/month/year "," optional-space hour:minute:second
    day space word space year space hour:minute:second
  Each is written as a matcher at one position built from small steps, and
  `Find` tries the positions from the left, as String.prototype.match does
  for a pattern without the g flag. Neither pattern can backtrack: digits,
  word characters and whitespace follow each other only where they are
  disjoint, so the first way to match is the only one.
*/
module Patterns {
  import opened Wrappers
  import opened Text
  import opened Cleaning

  /** The six groups a match captures, as text. */
  datatype Groups = Groups(day: string, month: string, year: string, hour: string, minute: string, second: string)

  /** `\d{n}` at the start: the digits and the text after them. */
  function Digits(s: string, n: nat): Option<(string, string)> {
    if |s| >= n && AllDigits(s[..n]) then Some((s[..n], s[n..])) else None
  }

  /** `\w{3}` at the start: the word and the text after it. */
  function Word3(s: string): Option<(string, string)> {
    if |s| >= 3 && IsWordChar(s[0]) && IsWordChar(s[1]) && IsWordChar(s[2]) then Some((s[..3], s[3..])) else None
  }

  /** One literal character at the start. */
  function Char(s: string, c: char): Option<string> {
    if s != [] && s[0] == c then Some(s[1..]) else None
  }

  /** `\s+` at the start. */
  function Spaces1(s: string): Option<string> {
    if s != [] && IsSpace(s[0]) then Some(DropSpaces(s)) else None
  }

  /** `(\d{2}):(\d{2}):(\d{2})` at the start. */
  function Clock(s: string): Option<(string, string, string)> {
    var hour :- Digits(s, 2);
    var r1 :- Char(hour.1, ':');
    var minute :- Digits(r1, 2);
    var r2 :- Char(minute.1, ':');
    var second :- Digits(r2, 2);
    Some((hour.0, minute.0, second.0))
  }

  /** `(\d{2})\/(\d{2})\/(\d{4}),\s*(\d{2}):(\d{2}):(\d{2})` at the start. */
  function SlashAt(s: string): Option<Groups> {
    var day :- Digits(s, 2);
    var r1 :- Char(day.1, '/');
    var month :- Digits(r1, 2);
    var r2 :- Char(month.1, '/');
    var year :- Digits(r2, 4);
    var r3 :- Char(year.1, ',');
    var clock :- Clock(DropSpaces(r3));
    Some(Groups(day.0, month.0, year.0, clock.0, clock.1, clock.2))
  }

  /** `(\d{2})\s+(\w{3})\s+(\d{4})\s+(\d{2}):(\d{2}):(\d{2})` at the start; the word is the month group. */
  function WordAt(s: string): Option<Groups> {
    var day :- Digits(s, 2);
    var r1 :- Spaces1(day.1);
    var month :- Word3(r1);
    var r2 :- Spaces1(month.1);
    var year :- Digits(r2, 4);
    var r3 :- Spaces1(year.1);
    var clock :- Clock(r3);
    Some(Groups(day.0, month.0, year.0, clock.0, clock.1, clock.2))
  }

  /** The match at the leftmost position where `at` matches. */
  function Find(s: string, at: string -> Option<Groups>): Option<Groups> {
    match at(s)
    case Some(g) => Some(g)
    case None => if s == [] then None else Find(s[1..], at)
  }

  /** Find reports the match at the leftmost matching position, and None only when no position matches. */
  lemma {:induction false} FindLeftmost(s: string, at: string -> Option<Groups>)
    ensures Find(s, at).Some? ==>
      exists i :: 0 <= i <= |s| && at(s[i..]) == Find(s, at) && forall j :: 0 <= j < i ==> at(s[j..]).None?
    ensures Find(s, at).None? ==> forall i :: 0 <= i <= |s| ==> at(s[i..]).None?
  {
    if at(s).None? && s != [] {
      FindLeftmost(s[1..], at);
      forall i | 1 <= i <= |s|
        ensures s[i..] == s[1..][i - 1..]
      {
      }
      if Find(s, at).Some? {
        var i :| 0 <= i <= |s[1..]| && at(s[1..][i..]) == Find(s, at) && forall j :: 0 <= j < i ==> at(s[1..][j..]).None?;
        assert at(s[i + 1..]) == Find(s, at);
        forall j | 0 <= j < i + 1
          ensures at(s[j..]).None?
        {
          if j > 0 {
            assert at(s[1..][j - 1..]).None?;
          }
        }
      } else {
        forall i | 0 <= i <= |s|
          ensures at(s[i..]).None?
        {
          if i > 0 {
            assert at(s[1..][i - 1..]).None?;
          }
        }
      }
    } else if at(s).Some? {
      assert at(s[0..]) == Find(s, at);
    }
  }

  /** The first pattern needs a slash, so text without one never matches it. */
  lemma NoSlashNoMatch(s: string)
    requires '/' !in s
    ensures Find(s, SlashAt).None?
  {
    forall i | 0 <= i <= |s|
      ensures SlashAt(s[i..]).None?
    {
      if |s[i..]| > 2 {
        assert s[i..][2] == s[i + 2];
      }
    }
    if Find(s, SlashAt).Some? {
      FindLeftmost(s, SlashAt);
    }
  }

  // ---------------------------------------------------------------------------
  // The texts each pattern is written for, built from their groups.

  /** Day, year, hour, minute and second groups of the right width, all digits. */
  predicate NumericGroups(g: Groups) {
    && |g.day| == 2 && |g.year| == 4 && |g.hour| == 2 && |g.minute| == 2 && |g.second| == 2
    && AllDigits(g.day) && AllDigits(g.year) && AllDigits(g.hour) && AllDigits(g.minute) && AllDigits(g.second)
  }

  /** A three-letter word of word characters. */
  predicate MonthWord(w: string) {
    |w| == 3 && IsWordChar(w[0]) && IsWordChar(w[1]) && IsWordChar(w[2])
  }

  function ClockText(g: Groups): string {
    g.hour + (":" + (g.minute + (":" + g.second)))
  }

  function DateText(g: Groups): string {
    g.day + ("/" + (g.month + ("/" + g.year)))
  }

  /** `DD/MM/YYYY,` then a run of whitespace (possibly empty), then `HH:mm:ss`. */
  function SlashText(g: Groups, space: string): string {
    DateText(g) + ("," + (space + ClockText(g)))
  }

  /** `DD`, the month word, `YYYY` and `HH:mm:ss`, separated by three runs of whitespace. */
  function WordText(g: Groups, space1: string, space2: string, space3: string): string {
    g.day + (space1 + (g.month + (space2 + (g.year + (space3 + ClockText(g))))))
  }

  lemma DigitsOf(x: string, rest: string, n: nat)
    requires |x| == n && AllDigits(x)
    ensures Digits(x + rest, n) == Some((x, rest))
  {
    assert (x + rest)[..n] == x && (x + rest)[n..] == rest;
  }

  lemma ClockOf(g: Groups)
    requires NumericGroups(g)
    ensures Clock(ClockText(g)) == Some((g.hour, g.minute, g.second))
  {
    DigitsOf(g.hour, ":" + (g.minute + (":" + g.second)), 2);
    DigitsOf(g.minute, ":" + g.second, 2);
    assert g.second[..2] == g.second && g.second[2..] == [];
  }

  /** Text of the first shape matches at its start, with the groups it was built from. */
  lemma SlashMatches(g: Groups, space: string)
    requires NumericGroups(g) && |g.month| == 2 && AllDigits(g.month) && AllSpace(space)
    ensures SlashAt(SlashText(g, space)) == Some(g)
  {
    var clock := ClockText(g);
    var afterYear := "," + (space + clock);
    assert SlashText(g, space) == g.day + ("/" + (g.month + ("/" + (g.year + afterYear))));
    DigitsOf(g.day, "/" + (g.month + ("/" + (g.year + afterYear))), 2);
    DigitsOf(g.month, "/" + (g.year + afterYear), 2);
    DigitsOf(g.year, afterYear, 4);
    DropSpacesRun(space, clock);
    ClockOf(g);
  }

  /** Text of the second shape matches at its start, whatever the three word characters are. */
  lemma WordMatches(g: Groups, space1: string, space2: string, space3: string)
    requires NumericGroups(g) && MonthWord(g.month)
    requires space1 != [] && AllSpace(space1) && space2 != [] && AllSpace(space2) && space3 != [] && AllSpace(space3)
    ensures WordAt(WordText(g, space1, space2, space3)) == Some(g)
  {
    var clock := ClockText(g);
    var afterYear := space3 + clock;
    var afterWord := space2 + (g.year + afterYear);
    DigitsOf(g.day, space1 + (g.month + afterWord), 2);
    DropSpacesRun(space1, g.month + afterWord);
    assert (g.month + afterWord)[..3] == g.month && (g.month + afterWord)[3..] == afterWord;
    DropSpacesRun(space2, g.year + afterYear);
    DigitsOf(g.year, afterYear, 4);
    DropSpacesRun(space3, clock);
    ClockOf(g);
  }
}
