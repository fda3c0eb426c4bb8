/**
  The browser extension's date handling (coding-contest-extension/src/App.js):
  `parseDateIST`, the number-or-string dispatch of `formatDateTime`, and the
  title, start, end and URL that `addToGoogleCalendar` computes. The current
  time (`new Date()`), the engine's free-form date parser and
  encodeURIComponent are parameters.
*/
module Client {
  import opened Wrappers
  import opened Text
  import opened Civil
  import opened JsDate
  import opened Cleaning
  import opened Patterns
  import opened Values

  /** The month table of the second pattern. */
  const Months: map<string, string> := map[
    "Jan" := "01", "Feb" := "02", "Mar" := "03", "Apr" := "04", "May" := "05", "Jun" := "06",
    "Jul" := "07", "Aug" := "08", "Sep" := "09", "Oct" := "10", "Nov" := "11", "Dec" := "12"]

  const MonthNames := ["Jan", "Feb", "Mar", "Apr", "May", "Jun", "Jul", "Aug", "Sep", "Oct", "Nov", "Dec"]

  /** `${months[monthStr]}`: the table's entry, or the text "undefined" for a name it lacks. */
  function MonthText(name: string): string {
    if name in Months then Months[name] else "undefined"
  }

  /**
    parseDateIST. A missing, empty or non-string input is the current time.
    Otherwise the cleaned text is matched against the first pattern, read at
    +09:00; failing that against the second, read at +05:30; failing both, the
    original input is handed to `new Date`.
  */
  function ParseDateIST(input: Value, now: int, parse: EngineParse): (r: Option<int>)
    ensures !Truthy(input) || !input.Str? ==> r == Some(now)
  {
    if !Truthy(input) || !input.Str? then Some(now)
    else
      var cleaned := Clean(input.s);
      match Find(cleaned, SlashAt)
      case Some(g) =>
        DateFromString(parse, IsoOffsetText(g.year, g.month, g.day, g.hour, g.minute, g.second, "+09:00"))
      case None =>
        match Find(cleaned, WordAt)
        case Some(g) =>
          DateFromString(parse, IsoOffsetText(g.year, MonthText(g.month), g.day, g.hour, g.minute, g.second, "+05:30"))
        case None => DateFromString(parse, input.s)
  }

  /** The Date formatDateTime displays: a number is epoch seconds, anything else goes through parseDateIST. */
  function DisplayedInstant(input: Value, now: int, parse: EngineParse): Option<int> {
    if input.Num? then TimeClip(input.n * 1000) else ParseDateIST(input, now, parse)
  }

  /** A contest as the client receives it; a field the server did not send is Undefined. */
  datatype Record = Record(
    name: Value, contestName: Value, id: Value, contestCode: Value,
    startTimeSeconds: Value, durationSeconds: Value,
    contestStartDate: Value, contestStartDateIso: Value, contestEndDate: Value)

  /** The start the list shows (App.js lines 150-154). */
  function DisplayedStart(c: Record, now: int, parse: EngineParse): Option<int> {
    DisplayedInstant(OrChain([c.startTimeSeconds, c.contestStartDate, c.contestStartDateIso]), now, parse)
  }

  /** encodeURIComponent, a parameter of the model. */
  type Encoder = string -> string

  function CalendarTitle(c: Record, encode: Encoder): string {
    encode(ToText(OrChain([c.name, c.contestName, c.id, c.contestCode])))
  }

  /** `new Date(x * 1000)`: a value read as seconds. */
  function SecondsDate(x: Value): Option<int> {
    match ToNumber(x)
    case None => None
    case Some(n) => TimeClip(n * 1000)
  }

  /** `new Date(start.getTime() + seconds * 1000)`. */
  function Later(start: Option<int>, seconds: Option<int>): Option<int> {
    if start.None? || seconds.None? then None else TimeClip(start.value + seconds.value * 1000)
  }

  function CalendarStart(c: Record, now: int, parse: EngineParse): Option<int> {
    if Truthy(c.startTimeSeconds) then SecondsDate(c.startTimeSeconds)
    else ParseDateIST(c.contestStartDate, now, parse)
  }

  /** The end: start plus the duration, else the parsed end date, else start plus two hours. */
  function CalendarEnd(c: Record, start: Option<int>, now: int, parse: EngineParse): Option<int> {
    if Truthy(c.durationSeconds) then Later(start, ToNumber(c.durationSeconds))
    else if Truthy(c.contestEndDate) then ParseDateIST(c.contestEndDate, now, parse)
    else Later(start, Some(2 * 60 * 60))
  }

  const CalendarBase := "https://calendar.google.com/calendar/r/eventedit?text="

  /**
    The URL addToGoogleCalendar opens. toISOString throws on an Invalid
    Date, so an invalid start or end opens nothing (None).
  */
  function CalendarUrl(c: Record, now: int, parse: EngineParse, encode: Encoder): Option<string> {
    var start := CalendarStart(c, now, parse);
    var end := CalendarEnd(c, start, now, parse);
    if start.None? || end.None? then None
    else Some(CalendarBase + CalendarTitle(c, encode) + "&dates=" + Stamp(start.value) + "/" + Stamp(end.value))
  }

  // ---------------------------------------------------------------------------
  // The texts the two patterns are meant for.

  /** The instant a match names: the groups' civil date and time, less the offset in minutes. */
  function LocalInstant(g: Groups, month: int, offset: int): int
    requires NumericGroups(g) && 1 <= month <= 12
  {
    OffsetInstant(Date(DigitsValue(g.year), month, DigitsValue(g.day)),
                  DigitsValue(g.hour), DigitsValue(g.minute), DigitsValue(g.second), offset)
  }

  predicate ValidGroups(g: Groups, month: int)
    requires NumericGroups(g)
  {
    ValidDate(DigitsValue(g.year), month, DigitsValue(g.day))
    && IsoTimeOfDay(DigitsValue(g.hour), DigitsValue(g.minute), DigitsValue(g.second))
  }

  lemma ClockPlain(g: Groups)
    requires NumericGroups(g)
    ensures NoSpace(ClockText(g)) && ',' !in ClockText(g) && '/' !in ClockText(g)
    ensures ClockText(g) != [] && ClockText(g)[0] != ',' && !IsSpace(ClockText(g)[0])
  {
    DigitsPlain(g.hour);
    DigitsPlain(g.minute);
    DigitsPlain(g.second);
    NoSpaceConcat(":", g.second);
    NoSpaceConcat(g.minute, ":" + g.second);
    NoSpaceConcat(":", g.minute + (":" + g.second));
    NoSpaceConcat(g.hour, ":" + (g.minute + (":" + g.second)));
    assert ClockText(g)[0] == g.hour[0];
  }

  lemma DatePlain(g: Groups)
    requires NumericGroups(g) && |g.month| == 2 && AllDigits(g.month)
    ensures DateText(g) != [] && NoSpace(DateText(g)) && ',' !in DateText(g)
  {
    DigitsPlain(g.day);
    DigitsPlain(g.month);
    DigitsPlain(g.year);
    NoSpaceConcat("/", g.year);
    NoSpaceConcat(g.month, "/" + g.year);
    NoSpaceConcat("/", g.month + ("/" + g.year));
    NoSpaceConcat(g.day, "/" + (g.month + ("/" + g.year)));
  }

  /** Cleaning text of the first shape only narrows the whitespace after the comma to one space, or none. */
  lemma CleanSlashText(g: Groups, space: string)
    requires NumericGroups(g) && |g.month| == 2 && AllDigits(g.month) && AllSpace(space)
    ensures Clean(SlashText(g, space)) == SlashText(g, if space == [] then [] else " ")
  {
    ClockPlain(g);
    DatePlain(g);
    CleanCommaGap(DateText(g), space, ClockText(g));
  }

  lemma WordPlain(w: string)
    requires MonthWord(w)
    ensures NoSpace(w) && ',' !in w && '/' !in w && !IsSpace(w[0])
  {
    forall i | 0 <= i < 3
      ensures !IsSpace(w[i]) && w[i] != ',' && w[i] != '/'
    {
      assert IsWordChar(w[i]);
    }
  }

  /** Cleaning text of the second shape narrows each of its three runs of whitespace to one space. */
  lemma CleanWordText(g: Groups, space1: string, space2: string, space3: string)
    requires NumericGroups(g) && MonthWord(g.month)
    requires space1 != [] && space2 != [] && space3 != []
    requires AllSpace(space1) && AllSpace(space2) && AllSpace(space3)
    ensures Clean(WordText(g, space1, space2, space3)) == WordText(g, " ", " ", " ")
  {
    var clock := ClockText(g);
    var s := WordText(g, space1, space2, space3);
    var c := WordText(g, " ", " ", " ");
    ClockPlain(g);
    DigitsPlain(g.day);
    DigitsPlain(g.year);
    WordPlain(g.month);
    assert CollapseFirstCommas(s) == s by {
      assert ',' !in space1 && ',' !in space2 && ',' !in space3 by {
        assert !IsSpace(',');
      }
      CommaFree(s);
    }
    assert CollapseSpaces(s) == c by {
      var r4 := g.year + (space3 + clock);
      var r2 := g.month + (space2 + r4);
      CollapseGap(g.day, space1, r2);
      CollapseGap(g.month, space2, r4);
      assert r4[0] == g.year[0];
      CollapseGap(g.year, space3, clock);
      CollapseSpacesPlain(clock);
    }
    assert Trim(c) == c by {
      var x := " " + (g.month + (" " + (g.year + (" " + clock))));
      assert x[|x| - 1] == clock[|clock| - 1];
      TrimKeepsEnds(g.day, x);
    }
    CleanFromSteps(s, c);
  }

  // ---------------------------------------------------------------------------
  // What parseDateIST reads.

  /** Text of the first shape is matched by the first pattern, with the groups it was built from. */
  lemma SlashMatched(g: Groups, space: string)
    requires NumericGroups(g) && |g.month| == 2 && AllDigits(g.month) && AllSpace(space)
    ensures Find(Clean(SlashText(g, space)), SlashAt) == Some(g)
  {
    var narrowed: string := if space == [] then [] else " ";
    CleanSlashText(g, space);
    SlashMatches(g, narrowed);
  }

  /** A string whose cleaned form the first pattern matches is read as those groups at +09:00. */
  lemma SlashCase(s: string, g: Groups, now: int, parse: EngineParse)
    requires s != [] && Find(Clean(s), SlashAt) == Some(g)
    ensures ParseDateIST(Str(s), now, parse)
         == DateFromString(parse, IsoOffsetText(g.year, g.month, g.day, g.hour, g.minute, g.second, "+09:00"))
  {
  }

  /** A string whose cleaned form only the second pattern matches is read as those groups at +05:30. */
  lemma WordCase(s: string, g: Groups, now: int, parse: EngineParse)
    requires s != [] && Find(Clean(s), SlashAt).None? && Find(Clean(s), WordAt) == Some(g)
    ensures ParseDateIST(Str(s), now, parse)
         == DateFromString(parse, IsoOffsetText(g.year, MonthText(g.month), g.day, g.hour, g.minute, g.second, "+05:30"))
  {
  }

  /** The date-time text built from valid groups is read as their wall-clock time at the offset. */
  lemma GroupsReading(g: Groups, month: string, offset: string, off: int, parse: EngineParse)
    requires NumericGroups(g) && |month| == 2 && AllDigits(month) && 1 <= DigitsValue(month) <= 12
    requires ValidGroups(g, DigitsValue(month)) && OffsetMinutes(offset) == Some(off)
    ensures DateFromString(parse, IsoOffsetText(g.year, month, g.day, g.hour, g.minute, g.second, offset))
         == Some(LocalInstant(g, DigitsValue(month), off))
  {
    ParseIsoOffsetText(g.year, month, g.day, g.hour, g.minute, g.second, offset, off);
  }

  /**
    Text of the first shape, with any whitespace after the comma and valid
    fields, is read as that wall-clock time at UTC+09:00.
  */
  lemma SlashReading(g: Groups, space: string, now: int, parse: EngineParse)
    requires NumericGroups(g) && |g.month| == 2 && AllDigits(g.month) && AllSpace(space)
    requires ValidGroups(g, DigitsValue(g.month))
    ensures ParseDateIST(Str(SlashText(g, space)), now, parse) == Some(LocalInstant(g, DigitsValue(g.month), 540))
  {
    var s := SlashText(g, space);
    assert s[0] == g.day[0];
    SlashMatched(g, space);
    SlashCase(s, g, now, parse);
    KnownOffsets();
    GroupsReading(g, g.month, "+09:00", 540, parse);
  }

  /** Jan..Dec name the months 01..12, and the table names nothing else. */
  lemma MonthTable()
    ensures forall name :: name in Months <==> name in MonthNames
    ensures forall i :: 0 <= i < 12 ==>
      && MonthWord(MonthNames[i]) && MonthNames[i] in Months
      && Months[MonthNames[i]] == [DigitChar((i + 1) / 10), DigitChar((i + 1) % 10)]
  {
    forall i | 0 <= i < 12
      ensures MonthWord(MonthNames[i]) && MonthNames[i] in Months
      ensures Months[MonthNames[i]] == [DigitChar((i + 1) / 10), DigitChar((i + 1) % 10)]
    {
      if i == 0 {
        assert MonthNames[0] == "Jan";
      } else if i == 1 {
        assert MonthNames[1] == "Feb";
      } else if i == 2 {
        assert MonthNames[2] == "Mar";
      } else if i == 3 {
        assert MonthNames[3] == "Apr";
      } else if i == 4 {
        assert MonthNames[4] == "May";
      } else if i == 5 {
        assert MonthNames[5] == "Jun";
      } else if i == 6 {
        assert MonthNames[6] == "Jul";
      } else if i == 7 {
        assert MonthNames[7] == "Aug";
      } else if i == 8 {
        assert MonthNames[8] == "Sep";
      } else if i == 9 {
        assert MonthNames[9] == "Oct";
      } else if i == 10 {
        assert MonthNames[10] == "Nov";
      } else {
        assert MonthNames[11] == "Dec";
      }
    }
  }

  /** The table's entry for a month name has two digits whose value is the month's number. */
  lemma MonthEntry(m: int)
    requires 1 <= m <= 12
    ensures MonthWord(MonthNames[m - 1]) && MonthNames[m - 1] in Months
    ensures |Months[MonthNames[m - 1]]| == 2 && AllDigits(Months[MonthNames[m - 1]])
    ensures DigitsValue(Months[MonthNames[m - 1]]) == m
  {
    MonthTable();
    TwoDigitsValue(Months[MonthNames[m - 1]]);
  }

  /** Text of the second shape misses the first pattern and is caught by the second. */
  lemma WordMatched(g: Groups, space1: string, space2: string, space3: string)
    requires NumericGroups(g) && MonthWord(g.month)
    requires space1 != [] && space2 != [] && space3 != []
    requires AllSpace(space1) && AllSpace(space2) && AllSpace(space3)
    ensures Find(Clean(WordText(g, space1, space2, space3)), SlashAt).None?
    ensures Find(Clean(WordText(g, space1, space2, space3)), WordAt) == Some(g)
  {
    CleanWordText(g, space1, space2, space3);
    var cleaned := WordText(g, " ", " ", " ");
    ClockPlain(g);
    DigitsPlain(g.day);
    DigitsPlain(g.year);
    WordPlain(g.month);
    assert '/' !in cleaned;
    NoSlashNoMatch(cleaned);
    WordMatches(g, " ", " ", " ");
  }

  /**
    Text of the second shape naming month `m` of the table, with valid
    fields, is read as that wall-clock time at UTC+05:30; the first pattern
    cannot match it, since it holds no slash.
  */
  lemma WordReading(g: Groups, m: int, space1: string, space2: string, space3: string, now: int, parse: EngineParse)
    requires NumericGroups(g) && 1 <= m <= 12 && g.month == MonthNames[m - 1] && ValidGroups(g, m)
    requires space1 != [] && space2 != [] && space3 != []
    requires AllSpace(space1) && AllSpace(space2) && AllSpace(space3)
    ensures ParseDateIST(Str(WordText(g, space1, space2, space3)), now, parse) == Some(LocalInstant(g, m, 330))
  {
    var s := WordText(g, space1, space2, space3);
    assert s[0] == g.day[0];
    MonthEntry(m);
    WordMatched(g, space1, space2, space3);
    WordCase(s, g, now, parse);
    KnownOffsets();
    GroupsReading(g, Months[g.month], "+05:30", 330, parse);
  }

  /**
    A three-letter word the table lacks puts the text "undefined" where the
    month goes, which is not the date-time format; what it yields is the
    engine's own parse of that text.
  */
  lemma WordUnknownMonth(g: Groups, space1: string, space2: string, space3: string, now: int, parse: EngineParse)
    requires NumericGroups(g) && MonthWord(g.month) && g.month !in Months
    requires space1 != [] && space2 != [] && space3 != []
    requires AllSpace(space1) && AllSpace(space2) && AllSpace(space3)
    ensures ParseDateIST(Str(WordText(g, space1, space2, space3)), now, parse)
         == DateFromEngine(parse, IsoOffsetText(g.year, "undefined", g.day, g.hour, g.minute, g.second, "+05:30"))
  {
    WordMatched(g, space1, space2, space3);
    var text := IsoOffsetText(g.year, "undefined", g.day, g.hour, g.minute, g.second, "+05:30");
    assert |text| == 32;
  }

  /** The groups of the client's own examples, and their values. */
  lemma ExampleGroups()
    ensures NumericGroups(Groups("28", "03", "2025", "15", "30", "00"))
    ensures NumericGroups(Groups("09", "Apr", "2025", "20", "00", "00"))
    ensures DigitsValue("28") == 28 && DigitsValue("03") == 3 && DigitsValue("2025") == 2025
    ensures DigitsValue("15") == 15 && DigitsValue("30") == 30 && DigitsValue("00") == 0
    ensures DigitsValue("09") == 9 && DigitsValue("20") == 20
  {
    TwoDigitsValue("28");
    TwoDigitsValue("03");
    FourDigitsValue("2025");
    TwoDigitsValue("15");
    TwoDigitsValue("30");
    TwoDigitsValue("00");
    TwoDigitsValue("09");
    TwoDigitsValue("20");
  }

  /** The day numbers of the examples' dates. */
  lemma ExampleDays()
    ensures DaysFromCivil(2025, 3, 28) == 20175 && DaysFromCivil(2025, 4, 9) == 20187
  {
    assert 2025 / 400 == 5 && 2025 - 400 * 5 == 25;
    assert DaysBeforeYoe(25) == 9131;
    assert MarchIndex(3) == 0 && MarchIndex(4) == 1;
  }

  /** The example of the first shape in the client's own comment: 2025-03-28T06:30:00Z. */
  lemma SlashExample(now: int, parse: EngineParse)
    ensures ParseDateIST(Str("28/03/2025, 15:30:00"), now, parse) == Some(1743143400000)
  {
    var g := Groups("28", "03", "2025", "15", "30", "00");
    ExampleGroups();
    assert SlashText(g, " ") == "28/03/2025, 15:30:00";
    SlashReading(g, " ", now, parse);
    assert LocalInstant(g, 3, 540) == 1743143400000 by {
      ExampleDays();
    }
  }

  /** The example of the second shape in the client's own comment: 2025-04-09T14:30:00Z. */
  lemma WordExample(now: int, parse: EngineParse)
    ensures ParseDateIST(Str("09 Apr 2025 20:00:00"), now, parse) == Some(1744209000000)
  {
    var g := Groups("09", "Apr", "2025", "20", "00", "00");
    ExampleGroups();
    assert WordText(g, " ", " ", " ") == "09 Apr 2025 20:00:00";
    assert MonthNames[3] == "Apr";
    WordReading(g, 4, " ", " ", " ", now, parse);
    assert LocalInstant(g, 4, 330) == 1744209000000 by {
      ExampleDays();
    }
  }

  // ---------------------------------------------------------------------------
  // What addToGoogleCalendar builds.

  /** The event's title is the first truthy of name, contestName and id, or else the contest code. */
  lemma CalendarTitleChoice(c: Record, encode: Encoder)
    ensures CalendarTitle(c, encode) == encode(ToText(
      if Truthy(c.name) then c.name else if Truthy(c.contestName) then c.contestName
      else if Truthy(c.id) then c.id else c.contestCode))
  {
    OrChain4(c.name, c.contestName, c.id, c.contestCode);
  }

  /**
    formatDateTime's dispatch: a number is epoch seconds, zero included, and
    is shown at that many seconds when the instant is in range, as an Invalid
    Date otherwise; any other value goes through parseDateIST, so a missing,
    null or boolean value shows the current time.
  */
  lemma DisplayDispatch(input: Value, now: int, parse: EngineParse)
    ensures input.Num? && -MaxTimeValue <= input.n * 1000 <= MaxTimeValue ==>
      DisplayedInstant(input, now, parse) == Some(input.n * 1000)
    ensures input.Num? && !(-MaxTimeValue <= input.n * 1000 <= MaxTimeValue) ==>
      DisplayedInstant(input, now, parse).None?
    ensures input.Str? ==> DisplayedInstant(input, now, parse) == ParseDateIST(input, now, parse)
    ensures !input.Num? && !input.Str? ==> DisplayedInstant(input, now, parse) == Some(now)
  {
  }

  /** Text in the first shape is displayed at the instant it names in Japan. */
  lemma DisplaySlash(g: Groups, space: string, now: int, parse: EngineParse)
    requires NumericGroups(g) && |g.month| == 2 && AllDigits(g.month) && AllSpace(space)
    requires ValidGroups(g, DigitsValue(g.month))
    ensures DisplayedInstant(Str(SlashText(g, space)), now, parse) == Some(LocalInstant(g, DigitsValue(g.month), 540))
  {
    SlashReading(g, space, now, parse);
  }

  /** The list and the calendar agree on the start of a contest with a start in seconds, or with only a start-date string. */
  lemma StartsAgree(c: Record, now: int, parse: EngineParse)
    requires || (c.startTimeSeconds.Num? && c.startTimeSeconds.n != 0)
             || (!Truthy(c.startTimeSeconds) && c.contestStartDate.Str? && c.contestStartDate.s != [])
    ensures DisplayedStart(c, now, parse) == CalendarStart(c, now, parse)
    ensures Truthy(c.startTimeSeconds) ==> CalendarStart(c, now, parse) == TimeClip(c.startTimeSeconds.n * 1000)
  {
    OrChain3(c.startTimeSeconds, c.contestStartDate, c.contestStartDateIso);
    if c.startTimeSeconds.Num? && c.startTimeSeconds.n != 0 {
      assert DisplayedStart(c, now, parse) == TimeClip(c.startTimeSeconds.n * 1000);
    } else {
      assert DisplayedStart(c, now, parse) == ParseDateIST(c.contestStartDate, now, parse);
    }
  }

  /** Without a duration or an end date, the event lasts two hours from a valid start. */
  lemma DefaultSpan(c: Record, start: int, now: int, parse: EngineParse)
    requires !Truthy(c.durationSeconds) && !Truthy(c.contestEndDate)
    requires -MaxTimeValue <= start && start + 7200000 <= MaxTimeValue
    ensures CalendarEnd(c, Some(start), now, parse) == Some(start + 7200000)
  {
  }

  /** With no truthy duration, a truthy end date is parsed on its own; the start plays no part. */
  lemma EndDateSpan(c: Record, start: Option<int>, other: Option<int>, now: int, parse: EngineParse)
    requires !Truthy(c.durationSeconds) && Truthy(c.contestEndDate)
    ensures CalendarEnd(c, start, now, parse) == ParseDateIST(c.contestEndDate, now, parse)
    ensures CalendarEnd(c, start, now, parse) == CalendarEnd(c, other, now, parse)
  {
  }

  /** An end date in the first shape ends the event at the instant it names in Japan, whatever the start. */
  lemma EndDateSlash(c: Record, start: Option<int>, g: Groups, space: string, now: int, parse: EngineParse)
    requires !Truthy(c.durationSeconds) && c.contestEndDate == Str(SlashText(g, space))
    requires NumericGroups(g) && |g.month| == 2 && AllDigits(g.month) && AllSpace(space)
    requires ValidGroups(g, DigitsValue(g.month))
    ensures CalendarEnd(c, start, now, parse) == Some(LocalInstant(g, DigitsValue(g.month), 540))
  {
    assert SlashText(g, space)[0] == g.day[0];
    SlashReading(g, space, now, parse);
  }

  /** A numeric duration ends the event that many seconds after a valid start; a duration that is not a number leaves it invalid. */
  lemma DurationSpan(c: Record, start: int, now: int, parse: EngineParse)
    requires Truthy(c.durationSeconds)
    ensures ToNumber(c.durationSeconds).None? ==> CalendarEnd(c, Some(start), now, parse).None?
    ensures ToNumber(c.durationSeconds).Some? && -MaxTimeValue <= start + ToNumber(c.durationSeconds).value * 1000 <= MaxTimeValue
        ==> CalendarEnd(c, Some(start), now, parse) == Some(start + ToNumber(c.durationSeconds).value * 1000)
  {
  }

  /**
    The URL opens the event only when both start and end are valid dates;
    its `dates` parameter is then two 16-character UTC stamps in basic
    format joined by a slash, each read back as its instant truncated to the
    second (for years 0 to 9999, where toISOString writes four digits).
  */
  lemma CalendarDates(c: Record, now: int, parse: EngineParse, encode: Encoder)
    ensures CalendarUrl(c, now, parse, encode).Some?
        <==> CalendarStart(c, now, parse).Some? && CalendarEnd(c, CalendarStart(c, now, parse), now, parse).Some?
    ensures CalendarUrl(c, now, parse, encode).Some? ==>
      var s := CalendarStart(c, now, parse).value;
      var e := CalendarEnd(c, CalendarStart(c, now, parse), now, parse).value;
      var prefix := CalendarBase + CalendarTitle(c, encode) + "&dates=";
      0 <= FieldsOf(s).date.year <= 9999 && 0 <= FieldsOf(e).date.year <= 9999 ==>
        DatesReadBack(CalendarUrl(c, now, parse, encode).value, prefix, s, e)
  {
    var start := CalendarStart(c, now, parse);
    var end := CalendarEnd(c, start, now, parse);
    if start.Some? && end.Some? {
      var s, e := start.value, end.value;
      if 0 <= FieldsOf(s).date.year <= 9999 && 0 <= FieldsOf(e).date.year <= 9999 {
        StampedDates(CalendarBase + CalendarTitle(c, encode) + "&dates=", s, e);
      }
    }
  }

  /** After `prefix`, two 16-character stamps joined by a slash that read back as `s` and `e` truncated to the second. */
  predicate DatesReadBack(url: string, prefix: string, s: int, e: int) {
    && |url| == |prefix| + 33 && url[..|prefix|] == prefix && url[|prefix| + 16] == '/'
    && ParseBasicUtc(url[|prefix|..|prefix| + 16]) == Some(s - s % 1000)
    && ParseBasicUtc(url[|prefix| + 17..]) == Some(e - e % 1000)
  }

  lemma StampedDates(prefix: string, s: int, e: int)
    requires 0 <= FieldsOf(s).date.year <= 9999 && 0 <= FieldsOf(e).date.year <= 9999
    ensures DatesReadBack(prefix + Stamp(s) + "/" + Stamp(e), prefix, s, e)
  {
    StampIsBasicUtc(s);
    StampIsBasicUtc(e);
    BasicUtcRoundTrip(s);
    BasicUtcRoundTrip(e);
    StampsSlices(prefix, Stamp(s), Stamp(e));
  }

  /** Where the two stamps sit in the URL. */
  lemma StampsSlices(prefix: string, a: string, b: string)
    requires |a| == 16 && |b| == 16
    ensures var url := prefix + a + "/" + b;
      && |url| == |prefix| + 33 && url[..|prefix|] == prefix && url[|prefix| + 16] == '/'
      && url[|prefix|..|prefix| + 16] == a && url[|prefix| + 17..] == b
  {
    var url := prefix + a + "/" + b;
    assert url == prefix + (a + ("/" + b));
    assert url[|prefix|..] == a + ("/" + b);
  }
}
