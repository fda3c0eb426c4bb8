/**
  The backend's record transforms (coding-contest-backend/server.js): the
  three platform adapters and the merge the `/contests` handler performs.
  Fetching and scraping are outside the model: each adapter receives what its
  request produced, already decoded — the Codeforces contest list, the
  CodeChef future contests, or the texts of each AtCoder table row — or the
  failure of that request, which the adapter turns into an empty list.
*/
module Server {
  import opened Wrappers
  import opened Text
  import opened Civil
  import opened JsDate
  import opened Sorting
  import opened Lists

  /** An element of the Codeforces `contest.list` result. */
  datatype CodeforcesEntry = CodeforcesEntry(id: int, name: string, phase: string, startTimeSeconds: int, durationSeconds: int)

  /** An element of CodeChef's `future_contests`. */
  datatype CodeChefEntry = CodeChefEntry(contestCode: string, contestName: string, startDateIso: string, endDateIso: string)

  /**
    One row of an AtCoder contest table: the text of the name cell's link, its
    `href` attribute (absent when the cell has no link), the text of the
    `<time>` element and the text of the duration cell, all untrimmed.
  */
  datatype Row = Row(nameText: string, href: Option<string>, timeText: string, durationText: string)

  /**
    A record the server sends. The constructor is the platform: Codeforces
    and CodeChef records also carry it as a `platform` field, AtCoder records
    do not. A duration of None is NaN, which JSON sends as null; a Codeforces
    duration is the number the contest list gave.
  */
  datatype Contest =
    | Codeforces(name: string, startTimeSeconds: int, durationSeconds: Option<int>, link: string)
    | CodeChef(name: string, startTime: string, endTime: string, durationSeconds: Option<int>, link: string)
    | AtCoder(name: string, link: string, contestStartDate: string, durationSeconds: Option<int>)

  // ---------------------------------------------------------------------------
  // Codeforces

  /** The contests whose phase is "BEFORE", in their order. */
  function Upcoming(entries: seq<CodeforcesEntry>): (r: seq<CodeforcesEntry>)
    ensures |r| <= |entries|
  {
    if entries == [] then []
    else (if entries[0].phase == "BEFORE" then [entries[0]] else []) + Upcoming(entries[1..])
  }

  function CodeforcesKey(e: CodeforcesEntry): Option<int> {
    Some(e.startTimeSeconds)
  }

  function CodeforcesRecord(e: CodeforcesEntry): Contest {
    Codeforces(e.name, e.startTimeSeconds, Some(e.durationSeconds), "https://codeforces.com/contest/" + IntText(e.id))
  }

  /** fetchCodeforcesContests: filter by phase, sort by start, map to records; a failed request is the empty list. */
  function CodeforcesContests(response: Result<seq<CodeforcesEntry>, string>): seq<Contest> {
    match response
    case Failure(_) => []
    case Success(entries) => Map(CodeforcesRecord, SortByKey(Upcoming(entries), CodeforcesKey))
  }

  lemma {:induction false} UpcomingMembers(entries: seq<CodeforcesEntry>)
    ensures forall e :: e in Upcoming(entries) <==> e in entries && e.phase == "BEFORE"
    ensures multiset(Upcoming(entries)) <= multiset(entries)
  {
    if entries != [] {
      UpcomingMembers(entries[1..]);
      assert entries == [entries[0]] + entries[1..];
    }
  }

  /** The Codeforces output holds the records of the contests in phase "BEFORE", each as often as it occurs. */
  lemma CodeforcesPermutation(entries: seq<CodeforcesEntry>)
    ensures multiset(CodeforcesContests(Success(entries))) == multiset(Map(CodeforcesRecord, Upcoming(entries)))
  {
    MapSortPermutes(CodeforcesRecord, Upcoming(entries), CodeforcesKey);
  }

  /** A record is in the Codeforces output exactly when it is the record of a contest in phase "BEFORE". */
  lemma CodeforcesMembers(entries: seq<CodeforcesEntry>)
    ensures forall e :: e in entries && e.phase == "BEFORE" ==> CodeforcesRecord(e) in CodeforcesContests(Success(entries))
    ensures forall c :: c in CodeforcesContests(Success(entries)) ==>
      exists e :: e in entries && e.phase == "BEFORE" && c == CodeforcesRecord(e)
  {
    var up := Upcoming(entries);
    var sorted := SortByKey(up, CodeforcesKey);
    var out := Map(CodeforcesRecord, sorted);
    assert forall e :: e in sorted <==> e in entries && e.phase == "BEFORE" by {
      UpcomingMembers(entries);
      SortPermutes(up, CodeforcesKey);
      forall e
        ensures e in sorted <==> e in up
      {
        assert e in sorted <==> e in multiset(sorted);
        assert e in up <==> e in multiset(up);
      }
    }
    forall e | e in entries && e.phase == "BEFORE"
      ensures CodeforcesRecord(e) in out
    {
      var k :| 0 <= k < |sorted| && sorted[k] == e;
      assert out[k] == CodeforcesRecord(e);
    }
    forall c | c in out
      ensures exists e :: e in entries && e.phase == "BEFORE" && c == CodeforcesRecord(e)
    {
      var k :| 0 <= k < |out| && out[k] == c;
      assert sorted[k] in sorted;
    }
  }

  /** The Codeforces output is ascending by start time. */
  lemma CodeforcesAscending(entries: seq<CodeforcesEntry>)
    ensures var out := CodeforcesContests(Success(entries));
      forall i, j :: 0 <= i < j < |out| ==> out[i].Codeforces? && out[i].startTimeSeconds <= out[j].startTimeSeconds
  {
    var up := Upcoming(entries);
    var sorted := SortByKey(up, CodeforcesKey);
    var out := Map(CodeforcesRecord, sorted);
    SortAscending(up, CodeforcesKey);
    forall i, j | 0 <= i < j < |out|
      ensures out[i].Codeforces? && out[i].startTimeSeconds <= out[j].startTimeSeconds
    {
      assert CodeforcesKey(sorted[i]).value <= CodeforcesKey(sorted[j]).value;
    }
  }

  /** A failed request yields no Codeforces contests rather than an error. */
  lemma CodeforcesFailure(error: string)
    ensures CodeforcesContests(Failure(error)) == []
  {
  }

  // ---------------------------------------------------------------------------
  // CodeChef

  /** `(new Date(end) - new Date(start)) / 1000`, None when either date is invalid (NaN). */
  function Duration(parse: EngineParse, startIso: string, endIso: string): Option<int> {
    var start := DateFromString(parse, startIso);
    var end := DateFromString(parse, endIso);
    if start.None? || end.None? then None else Some((end.value - start.value) / 1000)
  }

  function CodeChefRecord(parse: EngineParse, e: CodeChefEntry): Contest {
    CodeChef(e.contestName, e.startDateIso, e.endDateIso, Duration(parse, e.startDateIso, e.endDateIso),
             "https://www.codechef.com/" + e.contestCode)
  }

  /** fetchCodeChefContests: one record per future contest; a failed request is the empty list. */
  function CodeChefContests(response: Result<seq<CodeChefEntry>, string>, parse: EngineParse): seq<Contest> {
    match response
    case Failure(_) => []
    case Success(entries) => Map(e => CodeChefRecord(parse, e), entries)
  }

  /**
    The duration is exactly the time between the two dates in seconds: both
    fall on whole seconds, so the division leaves no fraction. It is NaN
    exactly when one of them is an Invalid Date.
  */
  lemma DurationExact(parse: EngineParse, startIso: string, endIso: string)
    ensures Duration(parse, startIso, endIso).Some?
        <==> DateFromString(parse, startIso).Some? && DateFromString(parse, endIso).Some?
    ensures Duration(parse, startIso, endIso).Some? ==>
      Duration(parse, startIso, endIso).value * 1000
        == DateFromString(parse, endIso).value - DateFromString(parse, startIso).value
  {
    var start := DateFromString(parse, startIso);
    var end := DateFromString(parse, endIso);
    DateFromStringWhole(parse, startIso);
    DateFromStringWhole(parse, endIso);
    if start.Some? && end.Some? {
      WholeDifference(start.value, end.value);
    }
  }

  lemma WholeDifference(s: int, e: int)
    requires s % 1000 == 0 && e % 1000 == 0
    ensures (e - s) / 1000 * 1000 == e - s
  {
    assert e - s == (e / 1000 - s / 1000) * 1000;
  }

  /** One record per entry, in the same order, carrying the entry's name, start and end and a link built from its code. */
  lemma CodeChefOutput(entries: seq<CodeChefEntry>, parse: EngineParse)
    ensures var out := CodeChefContests(Success(entries), parse);
      && |out| == |entries|
      && forall i :: 0 <= i < |entries| ==>
        && out[i].CodeChef? && out[i].name == entries[i].contestName
        && out[i].startTime == entries[i].startDateIso && out[i].endTime == entries[i].endDateIso
        && out[i].link == "https://www.codechef.com/" + entries[i].contestCode
        && (out[i].durationSeconds.Some? ==>
              out[i].durationSeconds.value * 1000
                == DateFromString(parse, entries[i].endDateIso).value - DateFromString(parse, entries[i].startDateIso).value)
  {
    forall i | 0 <= i < |entries|
      ensures Duration(parse, entries[i].startDateIso, entries[i].endDateIso).Some? ==>
        Duration(parse, entries[i].startDateIso, entries[i].endDateIso).value * 1000
          == DateFromString(parse, entries[i].endDateIso).value - DateFromString(parse, entries[i].startDateIso).value
    {
      DurationExact(parse, entries[i].startDateIso, entries[i].endDateIso);
    }
  }

  // ---------------------------------------------------------------------------
  // AtCoder

  /** `"https://atcoder.jp" + href`; an absent attribute is the text "undefined". */
  function RowLink(row: Row): string {
    "https://atcoder.jp" + (match row.href case Some(h) => h case None => "undefined")
  }

  /** The row's start: its time text trimmed, `+0900` rewritten to `+09:00`, then `new Date`. */
  function RowInstant(row: Row, parse: EngineParse): Option<int> {
    DateFromString(parse, ReplaceFirst(Trim(row.timeText), "+0900", "+09:00"))
  }

  /**
    `[hours, minutes] = text.split(":").map(Number)` and
    `hours * 60 * 60 + minutes * 60`; None is NaN, as when there is no colon
    and `minutes` is undefined.
  */
  function DurationSeconds(text: string): Option<int> {
    ClockDuration(Split(text, ':'))
  }

  /** `hours * 60 * 60 + minutes * 60` of the pieces' numbers. */
  function ClockDuration(parts: seq<string>): Option<int>
    requires |parts| >= 1
  {
    var hours := StringToNumber(parts[0]);
    var minutes := if |parts| > 1 then StringToNumber(parts[1]) else None;
    if hours.None? || minutes.None? then None else Some(hours.value * 60 * 60 + minutes.value * 60)
  }

  /**
    `toLocaleString("en-GB", …)` with two-digit day, month, hour, minute and
    second, a numeric year and a 24-hour clock: `DD/MM/YYYY, HH:mm:ss` of the
    given wall-clock fields.
  */
  function LocaleText(f: DateTime): string {
    LocaleParts(Padded(f.date.day, 2), Padded(f.date.month, 2), IntText(f.date.year),
                Padded(f.hour, 2), Padded(f.minute, 2), Padded(f.second, 2))
  }

  /** `DD/MM/YYYY, HH:mm:ss` put together from its parts, before the comma rewrite. */
  function LocaleParts(day: string, month: string, year: string, hour: string, minute: string, second: string): string {
    day + ("/" + (month + ("/" + (year + ("," + (" " + (hour + (":" + (minute + (":" + second))))))))))
  }

  /**
    The start the server sends: the instant's wall-clock time in Japan
    (UTC+09:00, 32 400 000 ms ahead), then `.replace(/,/, ', ')`, which
    turns the first comma into a comma and a space.
  */
  function JstText(t: int): string {
    ReplaceFirst(LocaleText(FieldsOf(t + 32400000)), ",", ", ")
  }

  /** A row is kept when its start is a valid date not before `now`. */
  predicate Kept(row: Row, now: int, parse: EngineParse) {
    RowInstant(row, parse).Some? && RowInstant(row, parse).value >= now
  }

  function AtCoderRecord(row: Row, t: int): Contest {
    AtCoder(Trim(row.nameText), RowLink(row), JstText(t), DurationSeconds(Trim(row.durationText)))
  }

  /** The record a row gives: one when it is kept, built with its start. */
  function Emitted(row: Row, now: int, parse: EngineParse): Option<Contest> {
    if Kept(row, now, parse) then Some(AtCoderRecord(row, RowInstant(row, parse).value)) else None
  }

  /** The records of the kept rows, in row order. */
  function AtCoderSpec(rows: seq<Row>, now: int, parse: EngineParse): seq<Contest> {
    FilterMap(row => Emitted(row, now, parse), rows)
  }

  /**
    The key of the adapter's own sort: `new Date(c.contest_start_date)`, the
    engine's reading of the JST text; records of the other platforms have no
    such field, and `new Date(undefined)` is an Invalid Date.
  */
  function AtCoderDateKey(parse: EngineParse, c: Contest): Option<int> {
    match c
    case AtCoder(_, _, contestStartDate, _) => DateFromString(parse, contestStartDate)
    case _ => None
  }

  /** `contests.sort((a, b) => new Date(a.contest_start_date) - new Date(b.contest_start_date))`. */
  function SortByStartDate(contests: seq<Contest>, parse: EngineParse): seq<Contest> {
    SortByKey(contests, c => AtCoderDateKey(parse, c))
  }

  /**
    fetchAtCoderContests: the row loop pushes a record for each row whose
    start is valid and not in the past, then the list is sorted by the
    engine's reading of each record's JST text; a failed request is the
    empty list.
  */
  method AtCoderContests(page: Result<seq<Row>, string>, now: int, parse: EngineParse) returns (contests: seq<Contest>)
    ensures page.Failure? ==> contests == []
    ensures page.Success? ==> contests == SortByStartDate(AtCoderSpec(page.value, now, parse), parse)
  {
    contests := [];
    if page.Failure? {
      return;
    }
    var rows := page.value;
    var i := 0;
    while i < |rows|
      invariant 0 <= i <= |rows|
      invariant contests == AtCoderSpec(rows[..i], now, parse)
    {
      var row := rows[i];
      var name := Trim(row.nameText);
      var link := RowLink(row);
      var rawTime := Trim(row.timeText);
      var formattedTime := ReplaceFirst(rawTime, "+0900", "+09:00");
      var dateObject := DateFromString(parse, formattedTime);
      var durationSeconds := DurationSeconds(Trim(row.durationText));
      AtCoderStep(rows, i, now, parse);
      if dateObject.Some? && dateObject.value >= now {
        var formattedStartTime := JstText(dateObject.value);
        contests := contests + [AtCoder(name, link, formattedStartTime, durationSeconds)];
      }
      i := i + 1;
    }
    assert rows[..i] == rows;
    contests := SortByStartDate(contests, parse);
  }

  /** Row i adds its record, when kept, after those of the rows before it. */
  lemma AtCoderStep(rows: seq<Row>, i: int, now: int, parse: EngineParse)
    requires 0 <= i < |rows|
    ensures AtCoderSpec(rows[..i + 1], now, parse) == AtCoderSpec(rows[..i], now, parse)
      + (if Kept(rows[i], now, parse) then [AtCoderRecord(rows[i], RowInstant(rows[i], parse).value)] else [])
  {
    FilterMapStep(row => Emitted(row, now, parse), rows, i);
  }

  /**
    The AtCoder list holds exactly the records of the kept rows: a record is
    in it iff some row has a valid start not before `now` and gives that record.
  */
  lemma AtCoderMembers(rows: seq<Row>, now: int, parse: EngineParse)
    ensures |AtCoderSpec(rows, now, parse)| <= |rows|
    ensures forall c :: c in AtCoderSpec(rows, now, parse) <==>
      exists row :: row in rows && Kept(row, now, parse) && c == AtCoderRecord(row, RowInstant(row, parse).value)
  {
    var f := row => Emitted(row, now, parse);
    FilterMapMembers(f, rows);
    forall c ensures c in AtCoderSpec(rows, now, parse) <==>
      exists row :: row in rows && Kept(row, now, parse) && c == AtCoderRecord(row, RowInstant(row, parse).value)
    {
      if c in AtCoderSpec(rows, now, parse) {
        var row :| row in rows && f(row) == Some(c);
        assert Kept(row, now, parse) && c == AtCoderRecord(row, RowInstant(row, parse).value);
      }
      if exists row :: row in rows && Kept(row, now, parse) && c == AtCoderRecord(row, RowInstant(row, parse).value) {
        var row :| row in rows && Kept(row, now, parse) && c == AtCoderRecord(row, RowInstant(row, parse).value);
        assert f(row) == Some(c);
      }
    }
  }

  /**
    The adapter's sort only reorders the pushed records; when the engine
    reads every record's JST text as a date, they come out ascending by it.
  */
  lemma SortByStartDateOutput(contests: seq<Contest>, parse: EngineParse)
    ensures multiset(SortByStartDate(contests, parse)) == multiset(contests)
    ensures (forall c :: c in contests ==> AtCoderDateKey(parse, c).Some?) ==>
      var out := SortByStartDate(contests, parse);
      forall i, j :: 0 <= i < j < |out| ==>
        AtCoderDateKey(parse, out[i]).Some? && AtCoderDateKey(parse, out[j]).Some?
        && AtCoderDateKey(parse, out[i]).value <= AtCoderDateKey(parse, out[j]).value
  {
    var key := c => AtCoderDateKey(parse, c);
    SortPermutes(contests, key);
    if forall c :: c in contests ==> AtCoderDateKey(parse, c).Some? {
      SortAscending(contests, key);
    }
  }

  /** Splitting `h:m` with digit-only `h` and `m` gives the two parts. */
  lemma {:induction false} SplitClock(h: string, m: string)
    requires ':' !in h && ':' !in m
    ensures Split(h + ":" + m, ':') == [h, m]
  {
    if h == [] {
      assert h + ":" + m == [':'] + m;
      SplitNone(m);
    } else {
      SplitClock(h[1..], m);
      assert (h + ":" + m)[1..] == h[1..] + ":" + m;
      assert [h[0]] + h[1..] == h;
    }
  }

  lemma {:induction false} SplitNone(s: string)
    requires ':' !in s
    ensures Split(s, ':') == [s]
  {
    if s != [] {
      SplitNone(s[1..]);
      assert [s[0]] + s[1..] == s;
    }
  }

  /** A run of digits is read by Number as its value. */
  lemma NumberOfDigits(s: string)
    requires s != [] && AllDigits(s)
    ensures StringToNumber(s) == Some(DigitsValue(s))
  {
    DigitsPlain(s);
    TrimUnchanged(s);
  }

  /** A duration `H:M` of digits is H hours and M minutes in seconds. */
  lemma DurationOfClock(h: string, m: string, hours: int, minutes: int)
    requires h != [] && m != [] && AllDigits(h) && AllDigits(m)
    requires hours == DigitsValue(h) && minutes == DigitsValue(m)
    ensures DurationSeconds(h + ":" + m) == Some(hours * 3600 + minutes * 60)
  {
    assert Split(h + ":" + m, ':') == [h, m] by {
      DigitsPlain(h);
      DigitsPlain(m);
      SplitClock(h, m);
    }
    assert StringToNumber(h) == Some(hours) by { NumberOfDigits(h); }
    assert StringToNumber(m) == Some(minutes) by { NumberOfDigits(m); }
    DurationOfNumbers(h + ":" + m, h, m, hours, minutes);
  }

  lemma DurationOfNumbers(text: string, h: string, m: string, hours: int, minutes: int)
    requires Split(text, ':') == [h, m]
    requires StringToNumber(h) == Some(hours) && StringToNumber(m) == Some(minutes)
    ensures DurationSeconds(text) == Some(hours * 3600 + minutes * 60)
  {
    TwoNumbers(Split(text, ':'), h, m, hours, minutes);
  }

  lemma TwoNumbers(parts: seq<string>, h: string, m: string, hours: int, minutes: int)
    requires parts == [h, m]
    requires StringToNumber(h) == Some(hours) && StringToNumber(m) == Some(minutes)
    ensures ClockDuration(parts) == Some(hours * 3600 + minutes * 60)
  {
    assert parts[0] == h && parts[1] == m && |parts| == 2;
  }

  /** The example of the scraper's own comment: "02:00" is two hours. */
  lemma DurationExample(text: string)
    requires text == "02:00"
    ensures DurationSeconds(text) == Some(7200)
  {
    var h, m := "02", "00";
    assert DigitsValue(h) == 2 && DigitsValue(m) == 0 by {
      TwoDigitsValue(h);
      TwoDigitsValue(m);
    }
    assert text == h + ":" + m;
    DurationOfClock(h, m, 2, 0);
  }

  /** Without a colon there are no minutes, and the duration is NaN. */
  lemma DurationWithoutColon(text: string)
    requires ':' !in text
    ensures DurationSeconds(text).None?
  {
    SplitNone(text);
  }

  // ---------------------------------------------------------------------------
  // The merge in the /contests handler

  /**
    The comparator's key: `a.startTime || a.startTimeSeconds * 1000` made a
    Date. A Codeforces record has only the number; a CodeChef record has the
    start string (an empty one falls through to `undefined * 1000`, NaN); an
    AtCoder record has neither, so its key is always NaN.
  */
  function MergeKey(parse: EngineParse, c: Contest): Option<int> {
    match c
    case Codeforces(_, startTimeSeconds, _, _) => TimeClip(startTimeSeconds * 1000)
    case CodeChef(_, startTime, _, _, _) => if startTime != [] then DateFromString(parse, startTime) else None
    case AtCoder(_, _, _, _) => None
  }

  /** `[...codeforces, ...codechef, ...atcoder].sort(byKey)`. */
  function Merge(codeforces: seq<Contest>, codechef: seq<Contest>, atcoder: seq<Contest>, parse: EngineParse): seq<Contest> {
    SortByKey(codeforces + codechef + atcoder, c => MergeKey(parse, c))
  }

  /**
    The merged list holds the three lists' records, each as often as before;
    when every record has a valid key it is ascending by that key.
  */
  lemma MergeOutput(codeforces: seq<Contest>, codechef: seq<Contest>, atcoder: seq<Contest>, parse: EngineParse)
    ensures multiset(Merge(codeforces, codechef, atcoder, parse)) == multiset(codeforces) + multiset(codechef) + multiset(atcoder)
    ensures (forall c :: c in codeforces + codechef + atcoder ==> MergeKey(parse, c).Some?) ==>
      var out := Merge(codeforces, codechef, atcoder, parse);
      forall i, j :: 0 <= i < j < |out| ==>
        MergeKey(parse, out[i]).Some? && MergeKey(parse, out[j]).Some?
        && MergeKey(parse, out[i]).value <= MergeKey(parse, out[j]).value
  {
    var all := codeforces + codechef + atcoder;
    var key := c => MergeKey(parse, c);
    SortPermutes(all, key);
    if forall c :: c in all ==> MergeKey(parse, c).Some? {
      SortAscending(all, key);
    }
  }

  /** AtCoder records never have a key, so the merge gives them no defined place. */
  lemma AtCoderUnkeyed(c: Contest, parse: EngineParse)
    requires c.AtCoder?
    ensures MergeKey(parse, c).None?
  {
  }
}
