/**
  Where the backend's records meet the extension's date handling. The server
  writes an AtCoder start as Japan wall-clock text, `DD/MM/YYYY, HH:mm:ss`;
  the client's first pattern matches that text and reads it at +09:00, which
  is the Japan offset, so the client recovers the instant the server started
  from, less its milliseconds. A record crosses the wire as JSON: a field the
  record lacks is undefined on arrival, and a NaN duration arrives as null.
*/
module RoundTrip {
  import opened Wrappers
  import opened Text
  import opened Civil
  import opened JsDate
  import opened Patterns
  import opened Values
  import opened Server
  import opened Client

  /** A duration as JSON carries it: NaN becomes null. */
  function DurationValue(d: Option<int>): Value {
    match d
    case Some(n) => Num(n)
    case None => Null
  }

  /**
    A server record as the client reads it. Only the fields the client looks
    at are kept; the names the client asks for and the server never sends
    (`contest_name`, `id`, `contest_code`, `contest_start_date_iso`,
    `contest_end_date`, and `contest_start_date` for all but AtCoder) are
    undefined.
  */
  function AsSeenByClient(c: Contest): Record {
    match c
    case Codeforces(name, startTimeSeconds, durationSeconds, _) =>
      Record(Str(name), Undefined, Undefined, Undefined, Num(startTimeSeconds), DurationValue(durationSeconds),
             Undefined, Undefined, Undefined)
    case CodeChef(name, _, _, durationSeconds, _) =>
      Record(Str(name), Undefined, Undefined, Undefined, Undefined, DurationValue(durationSeconds),
             Undefined, Undefined, Undefined)
    case AtCoder(name, _, contestStartDate, durationSeconds) =>
      Record(Str(name), Undefined, Undefined, Undefined, Undefined, DurationValue(durationSeconds),
             Str(contestStartDate), Undefined, Undefined)
  }

  /** The six groups the first pattern captures from the locale text of `f`. */
  function LocaleGroups(f: DateTime): Groups {
    Groups(Padded(f.date.day, 2), Padded(f.date.month, 2), Padded(f.date.year, 4),
           Padded(f.hour, 2), Padded(f.minute, 2), Padded(f.second, 2))
  }

  /** The comma rewrite turns the server's parts into the first pattern's shape, two spaces after the comma. */
  lemma LocalePartsShape(g: Groups)
    requires NumericGroups(g) && |g.month| == 2 && AllDigits(g.month)
    ensures ReplaceFirst(LocaleParts(g.day, g.month, g.year, g.hour, g.minute, g.second), ",", ", ") == SlashText(g, "  ")
  {
    var clock := ClockText(g);
    assert LocaleParts(g.day, g.month, g.year, g.hour, g.minute, g.second) == DateText(g) + "," + (" " + clock);
    DatePlain(g);
    ReplaceFirstAfter(DateText(g), ",", ", ", " " + clock);
    assert DateText(g) + ", " + (" " + clock) == SlashText(g, "  ");
  }

  /** With a four-digit year, the server's locale text of `f` is the first pattern's shape. */
  lemma LocaleTextShape(f: DateTime)
    requires 1000 <= f.date.year <= 9999
    ensures ReplaceFirst(LocaleText(f), ",", ", ") == SlashText(LocaleGroups(f), "  ")
  {
    NatTextFourDigits(f.date.year);
    LocalePartsShape(LocaleGroups(f));
  }

  /** The groups of valid fields are digits of the right widths and read back as the fields. */
  lemma LocaleGroupValues(f: DateTime)
    requires ValidDateTime(f) && 1000 <= f.date.year <= 9999
    ensures NumericGroups(LocaleGroups(f))
    ensures |LocaleGroups(f).month| == 2 && AllDigits(LocaleGroups(f).month)
    ensures DigitsValue(LocaleGroups(f).day) == f.date.day && DigitsValue(LocaleGroups(f).month) == f.date.month
    ensures DigitsValue(LocaleGroups(f).year) == f.date.year && DigitsValue(LocaleGroups(f).hour) == f.hour
    ensures DigitsValue(LocaleGroups(f).minute) == f.minute && DigitsValue(LocaleGroups(f).second) == f.second
  {
    assert Pow10(2) == 100 && Pow10(4) == 10000;
    PaddedValue(f.date.day, 2);
    PaddedValue(f.date.month, 2);
    PaddedValue(f.date.year, 4);
    PaddedValue(f.hour, 2);
    PaddedValue(f.minute, 2);
    PaddedValue(f.second, 2);
  }

  /** The first pattern's text of a valid date and time is read at +09:00: nine hours before the same fields read as UTC. */
  lemma JstReading(g: Groups, space: string, date: Date, hour: int, minute: int, second: int, now: int, parse: EngineParse)
    requires NumericGroups(g) && |g.month| == 2 && AllDigits(g.month) && space == "  "
    requires DigitsValue(g.year) == date.year && DigitsValue(g.month) == date.month && DigitsValue(g.day) == date.day
    requires DigitsValue(g.hour) == hour && DigitsValue(g.minute) == minute && DigitsValue(g.second) == second
    requires ValidDate(date.year, date.month, date.day) && ValidTimeOfDay(hour, minute, second)
    ensures ParseDateIST(Str(SlashText(g, space)), now, parse) == Some(LocalInstant(g, DigitsValue(g.month), 540))
  {
    var local := LocalInstant(g, DigitsValue(g.month), 540);
    assert ParseDateIST(Str(SlashText(g, space)), now, parse) == Some(local) by {
      SlashReading(g, space, now, parse);
    }
  }

  /** The instant groups name at +09:00 is nine hours before the fields they spell read as UTC. */
  lemma LocalAtJst(g: Groups, date: Date, hour: int, minute: int, second: int)
    requires NumericGroups(g) && 1 <= date.month <= 12
    requires DigitsValue(g.year) == date.year && DigitsValue(g.day) == date.day
    requires DigitsValue(g.hour) == hour && DigitsValue(g.minute) == minute && DigitsValue(g.second) == second
    ensures LocalInstant(g, date.month, 540) == InstantOf(date, hour, minute, second) - 32400000
  {
    assert Date(DigitsValue(g.year), date.month, DigitsValue(g.day)) == date;
  }

  /**
    Japan's wall-clock fields of an instant of `seconds` whole seconds and
    `millis` milliseconds are valid and add up to the whole seconds, nine
    hours on.
  */
  lemma JapanFields(seconds: int, millis: int)
    requires 0 <= millis < 1000
    ensures ValidDateTime(FieldsOf(seconds * 1000 + millis + 32400000))
    ensures InstantOf(FieldsOf(seconds * 1000 + millis + 32400000).date, FieldsOf(seconds * 1000 + millis + 32400000).hour,
                      FieldsOf(seconds * 1000 + millis + 32400000).minute, FieldsOf(seconds * 1000 + millis + 32400000).second)
      == seconds * 1000 + 32400000
  {
    MillisOf(seconds + 32400, millis);
    FieldsOfInverse(seconds * 1000 + millis + 32400000);
  }

  lemma MillisOf(seconds: int, millis: int)
    requires 0 <= millis < 1000
    ensures (seconds * 1000 + millis) % 1000 == millis
  {
  }

  /**
    The client reads the server's JST text back as the instant it was made
    from, truncated to whole seconds, whenever the Japan date has a
    four-digit year.
  */
  lemma {:induction false} JstRoundTrip(seconds: int, millis: int, now: int, parse: EngineParse)
    requires 0 <= millis < 1000
    requires 1000 <= FieldsOf(seconds * 1000 + millis + 32400000).date.year <= 9999
    ensures ParseDateIST(Str(JstText(seconds * 1000 + millis)), now, parse) == Some(seconds * 1000)
  {
    JapanFields(seconds, millis);
    FieldsReadBack(FieldsOf(seconds * 1000 + millis + 32400000), now, parse);
  }

  /** The server's text of valid wall-clock fields is read back as the instant they name in Japan. */
  lemma FieldsReadBack(f: DateTime, now: int, parse: EngineParse)
    requires ValidDateTime(f) && 1000 <= f.date.year <= 9999
    ensures ParseDateIST(Str(ReplaceFirst(LocaleText(f), ",", ", ")), now, parse)
      == Some(InstantOf(f.date, f.hour, f.minute, f.second) - 32400000)
  {
    LocaleTextShape(f);
    LocaleReading(f, now, parse);
  }

  /** The first pattern's text of valid Japan wall-clock fields is read back as the instant they name. */
  lemma LocaleReading(f: DateTime, now: int, parse: EngineParse)
    requires ValidDateTime(f) && 1000 <= f.date.year <= 9999
    ensures ParseDateIST(Str(SlashText(LocaleGroups(f), "  ")), now, parse)
      == Some(InstantOf(f.date, f.hour, f.minute, f.second) - 32400000)
  {
    var g := LocaleGroups(f);
    assert ParseDateIST(Str(SlashText(g, "  ")), now, parse) == Some(LocalInstant(g, DigitsValue(g.month), 540)) by {
      LocaleGroupValues(f);
      JstReading(g, "  ", f.date, f.hour, f.minute, f.second, now, parse);
    }
    assert LocalInstant(g, DigitsValue(g.month), 540) == InstantOf(f.date, f.hour, f.minute, f.second) - 32400000 by {
      LocaleGroupValues(f);
      LocalAtJst(g, f.date, f.hour, f.minute, f.second);
    }
  }

  /**
    An AtCoder contest is listed, and put in the calendar, at the start the
    server read from the page, less its milliseconds.
  */
  lemma AtCoderStartSeen(c: Contest, seconds: int, millis: int, now: int, parse: EngineParse)
    requires 0 <= millis < 1000
    requires c.AtCoder? && c.contestStartDate == JstText(seconds * 1000 + millis)
    requires 1000 <= FieldsOf(seconds * 1000 + millis + 32400000).date.year <= 9999
    ensures DisplayedStart(AsSeenByClient(c), now, parse) == Some(seconds * 1000)
    ensures CalendarStart(AsSeenByClient(c), now, parse) == Some(seconds * 1000)
  {
    var r := AsSeenByClient(c);
    assert ParseDateIST(r.contestStartDate, now, parse) == Some(seconds * 1000) by {
      JstRoundTrip(seconds, millis, now, parse);
    }
    assert JstText(seconds * 1000 + millis) != [] by {
      JstNonEmpty(seconds * 1000 + millis);
    }
    StartsAgree(r, now, parse);
  }

  /** The comma rewrite never empties the locale text. */
  lemma JstNonEmpty(t: int)
    ensures JstText(t) != []
  {
    var f := FieldsOf(t + 32400000);
    var text := LocaleText(f);
    assert text[..2] == Padded(f.date.day, 2);
    assert text[2] == '/';
    assert ReplaceFirst(text, ",", ", ") != [];
  }

  /** A Codeforces contest with a non-zero start is listed and put in the calendar at that many seconds. */
  lemma CodeforcesStartSeen(c: Contest, now: int, parse: EngineParse)
    requires c.Codeforces? && c.startTimeSeconds != 0
    ensures DisplayedStart(AsSeenByClient(c), now, parse) == TimeClip(c.startTimeSeconds * 1000)
    ensures CalendarStart(AsSeenByClient(c), now, parse) == TimeClip(c.startTimeSeconds * 1000)
  {
    StartsAgree(AsSeenByClient(c), now, parse);
  }

  /**
    A CodeChef record carries its start as `startTime`, a field the client
    never reads, so the list and the calendar both use the current time.
  */
  lemma CodeChefStartSeen(c: Contest, now: int, parse: EngineParse)
    requires c.CodeChef?
    ensures DisplayedStart(AsSeenByClient(c), now, parse) == Some(now)
    ensures CalendarStart(AsSeenByClient(c), now, parse) == Some(now)
  {
    OrChain3(Undefined, Undefined, Undefined);
  }
}
