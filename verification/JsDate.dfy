/**
  The JavaScript Date operations the contest code uses, over time values in
  milliseconds since the epoch. A Date is `Option<int>`: `None` is an
  Invalid Date (time value NaN).
*/
module JsDate {
  import opened Wrappers
  import opened Civil
  import opened Text

  /** The largest magnitude a Date's time value may have (ECMAScript TimeClip). */
  const MaxTimeValue := 8640000000000000

  /** TimeClip: a time value out of range makes an Invalid Date. */
  function TimeClip(t: int): Option<int> {
    if -MaxTimeValue <= t <= MaxTimeValue then Some(t) else None
  }

  /**
    The engine's own string parser, used where a string is not in the
    ECMAScript date-time format. It is a parameter of the model: it yields a
    whole number of seconds since the epoch, or None for Invalid Date.
  */
  type EngineParse = string -> Option<int>

  /** `new Date(s)` for a string the model does not interpret itself. */
  function DateFromEngine(parse: EngineParse, s: string): Option<int> {
    match parse(s)
    case None => None
    case Some(secs) => TimeClip(secs * 1000)
  }

  /** The year part of toISOString: four digits, or a sign and six digits outside 0..9999. */
  function YearText(y: int): string {
    if 0 <= y <= 9999 then Padded(y, 4)
    else (if y < 0 then "-" else "+") + Padded(if y < 0 then -y else y, 6)
  }

  /** Date.prototype.toISOString of a valid Date: `YYYY-MM-DDTHH:mm:ss.sssZ` in UTC. */
  function IsoString(t: int): string {
    IsoText(FieldsOf(t))
  }

  function IsoText(f: DateTime): string {
    YearText(f.date.year) + ("-" + (Padded(f.date.month, 2) + ("-" + (Padded(f.date.day, 2)
    + ("T" + (Padded(f.hour, 2) + (":" + (Padded(f.minute, 2) + (":" + (Padded(f.second, 2)
    + ("." + Padded(f.millis, 3) + "Z")))))))))))
  }

  /** The digits right after a decimal point, dropped (the `\d+` of `\.\d+`). */
  function DropDigits(s: string): (r: string)
    ensures |r| <= |s|
  {
    if s != [] && IsDigit(s[0]) then DropDigits(s[1..]) else s
  }

  /** `s.replace(/-|:|\.\d+/g, "")`: every `-`, every `:` and every fraction is removed. */
  function StripSeparators(s: string): string
    decreases |s|
  {
    if s == [] then []
    else if s[0] == '-' || s[0] == ':' then StripSeparators(s[1..])
    else if s[0] == '.' && |s| > 1 && IsDigit(s[1]) then StripSeparators(DropDigits(s[1..]))
    else [s[0]] + StripSeparators(s[1..])
  }

  /** Hours of a date-time string: 00..23, and 24 only as the end of the day `24:00:00`. */
  predicate IsoTimeOfDay(hour: int, minute: int, second: int) {
    ValidTimeOfDay(hour, minute, second) || (hour == 24 && minute == 0 && second == 0)
  }

  /** A numeric offset `±HH:MM` in minutes east of UTC; None when it is not one. */
  function OffsetMinutes(o: string): Option<int> {
    if && |o| == 6 && (o[0] == '+' || o[0] == '-') && o[3] == ':'
       && AllDigits(o[1..3]) && AllDigits(o[4..6])
       && DigitsValue(o[1..3]) < 24 && DigitsValue(o[4..6]) < 60
    then
      var minutes := DigitsValue(o[1..3]) * 60 + DigitsValue(o[4..6]);
      Some(if o[0] == '+' then minutes else -minutes)
    else None
  }

  /** The time value of a wall-clock date and time at `offset` minutes east of UTC. */
  function OffsetInstant(date: Date, hour: int, minute: int, second: int, offset: int): int
    requires 1 <= date.month <= 12
  {
    InstantOf(date, hour, minute, second) - offset * 60000
  }

  /** The shape `DDDD-DD-DDTDD:DD:DD` followed by a numeric offset. */
  predicate IsoOffsetForm(s: string) {
    && |s| == 25 && s[4] == '-' && s[7] == '-' && s[10] == 'T' && s[13] == ':' && s[16] == ':'
    && AllDigits(s[..4]) && AllDigits(s[5..7]) && AllDigits(s[8..10])
    && AllDigits(s[11..13]) && AllDigits(s[14..16]) && AllDigits(s[17..19])
    && OffsetMinutes(s[19..]).Some?
  }

  /**
    The ECMAScript date-time string form `YYYY-MM-DDTHH:mm:ss±HH:MM`. It
    yields the time value the string denotes, or None when the string is not
    of this form or one of its fields is out of range (month 13, a 30th of
    February, minute 60). Four-digit years keep every such value far inside
    the TimeClip range, so no clipping is needed.
  */
  function ParseIsoOffset(s: string): Option<int> {
    if !IsoOffsetForm(s) then None
    else
      var date := Date(DigitsValue(s[..4]), DigitsValue(s[5..7]), DigitsValue(s[8..10]));
      var hour, minute, second := DigitsValue(s[11..13]), DigitsValue(s[14..16]), DigitsValue(s[17..19]);
      var off :- OffsetMinutes(s[19..]);
      if ValidDate(date.year, date.month, date.day) && IsoTimeOfDay(hour, minute, second)
      then Some(OffsetInstant(date, hour, minute, second, off))
      else None
  }

  /**
    `new Date(s)` for a string: the `YYYY-MM-DDTHH:mm:ss±HH:MM` subset of
    the standard date-time format (the only one the program builds) is read
    as the standard defines it. Every other string goes to the engine's own
    parser, including the standard's forms with a fraction or a `Z` and a
    string of the subset with an illegal field.
  */
  function DateFromString(parse: EngineParse, s: string): Option<int> {
    match ParseIsoOffset(s)
    case Some(t) => Some(t)
    case None => DateFromEngine(parse, s)
  }

  lemma OffsetInstantWhole(date: Date, hour: int, minute: int, second: int, offset: int)
    requires 1 <= date.month <= 12
    ensures OffsetInstant(date, hour, minute, second, offset) % 1000 == 0
  {
    var secs := DaysFromCivil(date.year, date.month, date.day) * 86400 + hour * 3600 + minute * 60 + second - offset * 60;
    assert OffsetInstant(date, hour, minute, second, offset) == secs * 1000;
  }

  /** Every Date built from a string falls on a whole second. */
  lemma DateFromStringWhole(parse: EngineParse, s: string)
    ensures DateFromString(parse, s).Some? ==> DateFromString(parse, s).value % 1000 == 0
  {
    if IsoOffsetForm(s) && OffsetMinutes(s[19..]).Some? {
      var date := Date(DigitsValue(s[..4]), DigitsValue(s[5..7]), DigitsValue(s[8..10]));
      if 1 <= date.month <= 12 {
        OffsetInstantWhole(date, DigitsValue(s[11..13]), DigitsValue(s[14..16]), DigitsValue(s[17..19]),
                           OffsetMinutes(s[19..]).value);
      }
    }
    if parse(s).Some? {
      assert (parse(s).value * 1000) % 1000 == 0;
    }
  }

  /** The text `YYYY-MM-DDTHH:mm:ss` followed by an offset, built from its fields. */
  function IsoOffsetText(year: string, month: string, day: string, hour: string, minute: string,
                         second: string, offset: string): string
  {
    IsoLocalText(year, month, day, hour, minute, second) + offset
  }

  function IsoLocalText(year: string, month: string, day: string, hour: string, minute: string,
                        second: string): string
  {
    year + ("-" + (month + ("-" + (day + ("T" + (hour + (":" + (minute + (":" + second)))))))))
  }

  /** The two offsets the client writes: Japan and India standard time. */
  lemma KnownOffsets()
    ensures OffsetMinutes("+09:00") == Some(540)
    ensures OffsetMinutes("+05:30") == Some(330)
  {
    TwoDigitsValue("+09:00"[1..3]);
    TwoDigitsValue("+09:00"[4..6]);
    TwoDigitsValue("+05:30"[1..3]);
    TwoDigitsValue("+05:30"[4..6]);
  }

  lemma IsoOffsetTextSlices(year: string, month: string, day: string, hour: string, minute: string,
                            second: string, offset: string)
    requires |year| == 4 && |month| == 2 && |day| == 2 && |hour| == 2 && |minute| == 2 && |second| == 2
    requires AllDigits(year) && AllDigits(month) && AllDigits(day)
    requires AllDigits(hour) && AllDigits(minute) && AllDigits(second) && OffsetMinutes(offset).Some?
    ensures var s := IsoOffsetText(year, month, day, hour, minute, second, offset);
      && IsoOffsetForm(s)
      && s[..4] == year && s[5..7] == month && s[8..10] == day
      && s[11..13] == hour && s[14..16] == minute && s[17..19] == second && s[19..] == offset
  {
    IsoOffsetTextFields(year, month, day, hour, minute, second, offset);
  }

  /** Each field of the text, and each separator, at its place. */
  lemma IsoOffsetTextFields(year: string, month: string, day: string, hour: string, minute: string,
                            second: string, offset: string)
    requires |year| == 4 && |month| == 2 && |day| == 2 && |hour| == 2 && |minute| == 2 && |second| == 2
    ensures var s := IsoOffsetText(year, month, day, hour, minute, second, offset);
      && |s| == 19 + |offset|
      && s[4] == '-' && s[7] == '-' && s[10] == 'T' && s[13] == ':' && s[16] == ':'
      && s[..4] == year && s[5..7] == month && s[8..10] == day
      && s[11..13] == hour && s[14..16] == minute && s[17..19] == second && s[19..] == offset
  {
    var s := IsoOffsetText(year, month, day, hour, minute, second, offset);
    var t1 := ":" + (second + offset);
    var t2 := minute + t1;
    var t3 := ":" + t2;
    var t4 := hour + t3;
    var t5 := "T" + t4;
    var t6 := day + t5;
    var t7 := "-" + t6;
    var t8 := month + t7;
    var t9 := "-" + t8;
    assert s[0..] == year + t9;
    PeelPrefix(s, 0, year, t9);
    assert s[..4] == s[0..4];
    PeelPrefix(s, 4, "-", t8);
    PeelPrefix(s, 5, month, t7);
    PeelPrefix(s, 7, "-", t6);
    PeelPrefix(s, 8, day, t5);
    PeelPrefix(s, 10, "T", t4);
    PeelPrefix(s, 11, hour, t3);
    PeelPrefix(s, 13, ":", t2);
    PeelPrefix(s, 14, minute, t1);
    PeelPrefix(s, 16, ":", second + offset);
    PeelPrefix(s, 17, second, offset);
  }

  /** Where `s` continues with `x` then `rest` at `k`, `x` sits at `k` and `rest` follows it. */
  lemma PeelPrefix(s: string, k: nat, x: string, rest: string)
    requires k <= |s| && s[k..] == x + rest
    ensures |s| == k + |x| + |rest|
    ensures s[k..k + |x|] == x && s[k + |x|..] == rest
    ensures |x| > 0 ==> s[k] == x[0]
  {
    assert s[k..k + |x|] == (x + rest)[..|x|];
    assert s[k + |x|..] == (x + rest)[|x|..];
  }

  /**
    A date-time text built from digit fields in range and an offset reads
    back as the civil instant of those fields, moved back by the offset.
  */
  lemma ParseIsoOffsetText(year: string, month: string, day: string, hour: string, minute: string,
                           second: string, offset: string, off: int)
    requires |year| == 4 && |month| == 2 && |day| == 2 && |hour| == 2 && |minute| == 2 && |second| == 2
    requires AllDigits(year) && AllDigits(month) && AllDigits(day)
    requires AllDigits(hour) && AllDigits(minute) && AllDigits(second)
    requires OffsetMinutes(offset) == Some(off)
    requires ValidDate(DigitsValue(year), DigitsValue(month), DigitsValue(day))
    requires IsoTimeOfDay(DigitsValue(hour), DigitsValue(minute), DigitsValue(second))
    ensures ParseIsoOffset(IsoOffsetText(year, month, day, hour, minute, second, offset))
         == Some(OffsetInstant(Date(DigitsValue(year), DigitsValue(month), DigitsValue(day)),
                           DigitsValue(hour), DigitsValue(minute), DigitsValue(second), off))
  {
    IsoOffsetTextSlices(year, month, day, hour, minute, second, offset);
  }

  /** A date-time text with a field out of range is not a valid instance of the form. */
  lemma ParseIsoOffsetIllegal(year: string, month: string, day: string, hour: string, minute: string,
                              second: string, offset: string)
    requires |year| == 4 && |month| == 2 && |day| == 2 && |hour| == 2 && |minute| == 2 && |second| == 2
    requires AllDigits(year) && AllDigits(month) && AllDigits(day)
    requires AllDigits(hour) && AllDigits(minute) && AllDigits(second)
    requires OffsetMinutes(offset).Some?
    requires !ValidDate(DigitsValue(year), DigitsValue(month), DigitsValue(day))
          || !IsoTimeOfDay(DigitsValue(hour), DigitsValue(minute), DigitsValue(second))
    ensures ParseIsoOffset(IsoOffsetText(year, month, day, hour, minute, second, offset)) == None
  {
    IsoOffsetTextSlices(year, month, day, hour, minute, second, offset);
  }

  /** A calendar stamp: toISOString with its separators and fraction stripped. */
  function Stamp(t: int): string {
    StripSeparators(IsoString(t))
  }

  /**
    The complete representation in basic format of the UTC date and time
    (section 4.3.2 of ISO 8601:2004), `YYYYMMDDTHHMMSSZ`.
  */
  function BasicUtc(t: int): string {
    BasicText(FieldsOf(t))
  }

  function BasicText(f: DateTime): string {
    Padded(f.date.year, 4) + (Padded(f.date.month, 2) + (Padded(f.date.day, 2)
    + ("T" + (Padded(f.hour, 2) + (Padded(f.minute, 2) + (Padded(f.second, 2) + "Z"))))))
  }

  /** Reads a basic-format UTC stamp back into a time value; None when it is not one. */
  function ParseBasicUtc(s: string): Option<int> {
    if && |s| == 16 && s[8] == 'T' && s[15] == 'Z'
       && AllDigits(s[..4]) && AllDigits(s[4..6]) && AllDigits(s[6..8])
       && AllDigits(s[9..11]) && AllDigits(s[11..13]) && AllDigits(s[13..15])
    then
      var date := Date(DigitsValue(s[..4]), DigitsValue(s[4..6]), DigitsValue(s[6..8]));
      var hour, minute, second := DigitsValue(s[9..11]), DigitsValue(s[11..13]), DigitsValue(s[13..15]);
      if ValidDate(date.year, date.month, date.day) && ValidTimeOfDay(hour, minute, second)
      then Some(InstantOf(date, hour, minute, second))
      else None
    else None
  }

  lemma {:induction false} StripDigits(s: string)
    requires AllDigits(s)
    ensures StripSeparators(s) == s
  {
    if s != [] {
      StripDigits(s[1..]);
      assert [s[0]] + s[1..] == s;
    }
  }

  lemma {:induction false} StripConcat(a: string, b: string)
    requires '.' !in a
    ensures StripSeparators(a + b) == StripSeparators(a) + StripSeparators(b)
  {
    if a == [] {
      assert a + b == b;
    } else {
      assert (a + b)[0] == a[0];
      assert (a + b)[1..] == a[1..] + b;
      StripConcat(a[1..], b);
    }
  }

  lemma {:induction false} DropAllDigits(d: string, rest: string)
    requires AllDigits(d) && (rest == [] || !IsDigit(rest[0]))
    ensures DropDigits(d + rest) == rest
  {
    if d == [] {
      assert d + rest == rest;
    } else {
      assert (d + rest)[1..] == d[1..] + rest;
      DropAllDigits(d[1..], rest);
    }
  }

  lemma StripPiece(a: string, b: string, sb: string)
    requires '.' !in a && StripSeparators(b) == sb
    ensures StripSeparators(a + b) == StripSeparators(a) + sb
  {
    StripConcat(a, b);
  }

  lemma StripTimePart(h: string, mi: string, s: string, ms: string)
    requires AllDigits(h) && AllDigits(mi) && AllDigits(s) && AllDigits(ms) && ms != []
    ensures StripSeparators("T" + (h + (":" + (mi + (":" + (s + ("." + ms + "Z")))))))
         == "T" + (h + (mi + (s + "Z")))
  {
    var t0 := "." + ms + "Z";
    StripDigits(h); StripDigits(mi); StripDigits(s);
    assert StripSeparators(":") == [] && StripSeparators("T") == "T";
    assert StripSeparators(t0) == "Z" by {
      DropAllDigits(ms, "Z");
      assert t0[0] == '.' && t0[1] == ms[0] && t0[1..] == ms + "Z";
      assert StripSeparators("Z") == "Z";
    }
    var t1 := s + t0;    StripPiece(s, t0, "Z");
    var t2 := ":" + t1;  StripPiece(":", t1, s + "Z");
    var t3 := mi + t2;   StripPiece(mi, t2, s + "Z");
    var t4 := ":" + t3;  StripPiece(":", t3, mi + (s + "Z"));
    var t5 := h + t4;    StripPiece(h, t4, mi + (s + "Z"));
    StripPiece("T", t5, h + (mi + (s + "Z")));
  }

  lemma StripDatePart(y: string, mo: string, d: string, rest: string, srest: string)
    requires AllDigits(y) && AllDigits(mo) && AllDigits(d) && StripSeparators(rest) == srest
    ensures StripSeparators(y + ("-" + (mo + ("-" + (d + rest))))) == y + (mo + (d + srest))
  {
    StripDigits(y); StripDigits(mo); StripDigits(d);
    assert StripSeparators("-") == [];
    var t7 := d + rest;   StripPiece(d, rest, srest);
    var t8 := "-" + t7;   StripPiece("-", t7, d + srest);
    var t9 := mo + t8;    StripPiece(mo, t8, d + srest);
    var t10 := "-" + t9;  StripPiece("-", t9, mo + (d + srest));
    StripPiece(y, t10, mo + (d + srest));
  }

  lemma StripIsoText(f: DateTime)
    requires 0 <= f.date.year <= 9999
    ensures StripSeparators(IsoText(f)) == BasicText(f)
  {
    var h, mi, s := Padded(f.hour, 2), Padded(f.minute, 2), Padded(f.second, 2);
    var ms := Padded(f.millis, 3);
    StripTimePart(h, mi, s, ms);
    StripDatePart(Padded(f.date.year, 4), Padded(f.date.month, 2), Padded(f.date.day, 2),
      "T" + (h + (":" + (mi + (":" + (s + ("." + ms + "Z")))))), "T" + (h + (mi + (s + "Z"))));
  }

  /** The stamp of a year-0..9999 instant is exactly its 16-character basic-format UTC form. */
  lemma StampIsBasicUtc(t: int)
    requires 0 <= FieldsOf(t).date.year <= 9999
    ensures Stamp(t) == BasicUtc(t)
    ensures |Stamp(t)| == 16
  {
    StripIsoText(FieldsOf(t));
  }

  /** Where each field of a basic-format text sits. */
  lemma BasicTextSlices(f: DateTime)
    ensures var b := BasicText(f);
      && |b| == 16 && b[8] == 'T' && b[15] == 'Z'
      && b[..4] == Padded(f.date.year, 4) && b[4..6] == Padded(f.date.month, 2) && b[6..8] == Padded(f.date.day, 2)
      && b[9..11] == Padded(f.hour, 2) && b[11..13] == Padded(f.minute, 2) && b[13..15] == Padded(f.second, 2)
  {
    var y, mo, d := Padded(f.date.year, 4), Padded(f.date.month, 2), Padded(f.date.day, 2);
    var h, mi, s := Padded(f.hour, 2), Padded(f.minute, 2), Padded(f.second, 2);
    var t7 := "Z";
    var t6 := s + t7;
    var t5 := mi + t6;
    var t4 := h + t5;
    var t3 := "T" + t4;
    var t2 := d + t3;
    var t1 := mo + t2;
    var b := y + t1;
    assert b[0..] == b;
    PeelPrefix(b, 0, y, t1);
    PeelPrefix(b, 4, mo, t2);
    PeelPrefix(b, 6, d, t3);
    PeelPrefix(b, 8, "T", t4);
    PeelPrefix(b, 9, h, t5);
    PeelPrefix(b, 11, mi, t6);
    PeelPrefix(b, 13, s, t7);
    PeelPrefix(b, 15, "Z", []);
    assert b[..4] == b[0..4];
  }

  /** A basic-format text of valid fields in years 0..9999 reads back as the instant of those fields. */
  lemma ParseBasicText(f: DateTime)
    requires ValidDateTime(f) && 0 <= f.date.year <= 9999
    ensures ParseBasicUtc(BasicText(f)) == Some(InstantOf(f.date, f.hour, f.minute, f.second))
  {
    BasicTextSlices(f);
    PaddedValue(f.date.year, 4);
    PaddedValue(f.date.month, 2);
    PaddedValue(f.date.day, 2);
    PaddedValue(f.hour, 2);
    PaddedValue(f.minute, 2);
    PaddedValue(f.second, 2);
  }

  /** Reading the basic-format stamp back recovers the instant, truncated to the second. */
  lemma BasicUtcRoundTrip(t: int)
    requires 0 <= FieldsOf(t).date.year <= 9999
    ensures ParseBasicUtc(BasicUtc(t)) == Some(t - t % 1000)
  {
    var f := FieldsOf(t);
    assert ValidDateTime(f) && f.millis == t % 1000 by {
      FieldsOfInverse(t);
    }
    var i := InstantOf(f.date, f.hour, f.minute, f.second);
    assert i + f.millis == t by {
      FieldsOfInverse(t);
    }
    assert ParseBasicUtc(BasicUtc(t)) == Some(i) by {
      ParseBasicText(f);
    }
    SomeShifted(ParseBasicUtc(BasicUtc(t)), i, t % 1000, t);
  }

  lemma SomeShifted(o: Option<int>, i: int, m: int, t: int)
    requires o == Some(i) && i + m == t
    ensures o == Some(t - m)
  {
  }
}
