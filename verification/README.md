# contestWatch date handling and contest aggregation, in Dafny

contestWatch is a contest aggregator with two halves.

- **The backend** (`coding-contest-backend/server.js`) collects upcoming contests from three platforms:
  - Codeforces, through its JSON contest list;
  - CodeChef, through its JSON future contests;
  - AtCoder, by scraping the rows of its contest tables.

  It normalises each platform's contests into records, merges the three lists, and sorts the result by start time. It serves the result on `GET /contests` behind a node-cache store with a 600-second TTL.
- **The browser extension** (`coding-contest-extension/src/App.js`) shows each record's start time and can open a Google Calendar event for it. It reconciles the records' different time fields:
  - `parseDateIST` reads the two wall-clock text shapes it expects;
  - `formatDateTime` treats a number as epoch seconds;
  - `addToGoogleCalendar` picks a title, a start and an end, and writes them as basic-format UTC stamps.

The model covers both halves and the place where they meet.

**Dates.** A JavaScript Date is an `Option<int>` of milliseconds since the epoch; `None` is an Invalid Date. The calendar is the proleptic Gregorian one: `Civil.DaysFromCivil` and `Civil.CivilFromDays`, proved inverse. Two pieces are parameters:
- `EngineParse`, the engine's free-form parser, which `new Date(string)` falls back to outside the ECMAScript date-time format;
- the current time `now`.

**Client.** Reading a date goes through five stages:
- `Cleaning.Clean` normalises the text;
- the `Patterns` module holds the two regular expressions as matchers, searched from the leftmost position;
- `JsDate.DateFromString` reads the resulting `YYYY-MM-DDTHH:mm:ss±HH:MM` text;
- `Client.ParseDateIST` ties them together;
- `Client.CalendarUrl` builds the URL the calendar button opens.

**Backend.** The adapters are functions of what each request produced: `Server.CodeforcesContests` and `Server.CodeChefContests`. The exception is the AtCoder row loop, `Server.AtCoderContests`, a method with a loop that pushes records, proved against `Server.AtCoderSpec`.

The cache is a class, `Cache.NodeCache`. `Route.HandleContests` is the handler, changing the cache's state.

**Where the halves meet.** The `RoundTrip` module proves that the backend's JST text, read by the extension's first pattern, gives back the instant the backend started from, truncated to whole seconds. It also proves what the extension shows for each platform's records.

Some of the program's behaviour is reproduced as it is in the code, not as the comments suggest:
- **CodeChef start times.** A CodeChef record carries its start as `startTime`. The client only reads `startTimeSeconds`, `contest_start_date` and `contest_start_date_iso`, so it shows and schedules such a contest at the current time (`RoundTrip.CodeChefStartSeen`).
- **Zero start times.** `startTimeSeconds` and `durationSeconds` are tested for truthiness, so a zero falls through to the next choice.
- **The TTL.** The cache's comments say "10 minutes", "500 seconds" and "5 min", but the value in the code is `stdTTL: 600`. The model uses 600 seconds (`Route.StdTtl`).

## Model

| member | source | states |
|---|---|---|
| Client.ParseDateIST | coding-contest-extension/src/App.js:14-15 | A falsy input (undefined, null, empty string, 0, false) or a non-string input yields the current time. |
| Cleaning.CleanIsClean | coding-contest-extension/src/App.js:18 | After cleaning:<br>- the first run of commas is one comma;<br>- every whitespace character is a plain space, with no whitespace after it;<br>- neither end is whitespace. |
| Cleaning.CleanShape | coding-contest-extension/src/App.js:18 | The same, stated by position: only single plain spaces, and none at either end. |
| Cleaning.CleanKeepsClean | coding-contest-extension/src/App.js:18 | Text already in the cleaned shape is left unchanged. |
| Cleaning.CleanIdempotent | coding-contest-extension/src/App.js:18 | Cleaning twice is the same as cleaning once. |
| Cleaning.CleanKeepsContent | coding-contest-extension/src/App.js:18 | Cleaning keeps every character that is neither whitespace nor a comma, in order. It changes the text only in its comma and whitespace runs and at its ends. |
| Text.TrimStartDrops | coding-contest-extension/src/App.js:18 | `trim` removes only whitespace at the start: the part it drops is all whitespace. Text.TrimStart's own contract adds that the result is a suffix not starting with whitespace. |
| Text.TrimEndDrops | coding-contest-extension/src/App.js:18 | `trim` removes only whitespace at the end: the part it drops is all whitespace. Text.TrimEnd's own contract adds that the result is a prefix not ending with whitespace. |
| Patterns.FindLeftmost | coding-contest-extension/src/App.js:21-24 | A match is the one at the leftmost position where the pattern matches. There is no match only when no position matches. |
| Patterns.NoSlashNoMatch | coding-contest-extension/src/App.js:21 | Text without a slash never matches the first pattern. |
| Patterns.SlashMatches | coding-contest-extension/src/App.js:21-24 | `DD/MM/YYYY,` then any whitespace, then `HH:mm:ss` matches the first pattern at its start, capturing the six fields it was built from. |
| Patterns.WordMatches | coding-contest-extension/src/App.js:32-35 | `DD`, a three-character word, `YYYY` and `HH:mm:ss`, separated by whitespace runs, match the second pattern, capturing those fields. |
| Client.CleanSlashText | coding-contest-extension/src/App.js:18-21 | Cleaning text of the first shape only narrows the whitespace after the comma, to one space or to none. |
| Client.SlashCase | coding-contest-extension/src/App.js:21-28 | The first pattern takes precedence: whenever it matches the cleaned text, the second is never tried. The result is `new Date` of the captured fields written as `YYYY-MM-DDTHH:mm:ss+09:00`. It is the step that Client.SlashReading builds on. |
| Client.WordCase | coding-contest-extension/src/App.js:32-51 | The second pattern is used only when the first fails on the cleaned text. The result is then `new Date` of its fields written with the table's month and `+05:30`. It is the step that Client.WordReading builds on. |
| Client.SlashReading | coding-contest-extension/src/App.js:21-28 | Text of the first shape, with valid fields and any whitespace after the comma, yields the civil instant of the fields minus 9 hours. |
| Client.WordReading | coding-contest-extension/src/App.js:32-51 | Text of the second shape naming month m by its table name, with valid fields, yields the civil instant minus 5 h 30 min. The first pattern cannot match it. |
| Client.WordUnknownMonth | coding-contest-extension/src/App.js:50-51 | A three-character word missing from the table puts `undefined` where the month goes. The result is then the engine's parse of that text, not the standard date-time reading. |
| Client.MonthTable | coding-contest-extension/src/App.js:36-49 | The table's keys are exactly `Jan`..`Dec`. The entry for the i-th name is the two digits of i. |
| Client.MonthEntry | coding-contest-extension/src/App.js:36-50 | The entry for month m's name is two digits whose value is m. |
| Client.SlashExample | coding-contest-extension/src/App.js:20-28 | `"28/03/2025, 15:30:00"` is 1743143400000 ms (2025-03-28T06:30:00Z). |
| Client.WordExample | coding-contest-extension/src/App.js:31-51 | `"09 Apr 2025 20:00:00"` is 1744209000000 ms (2025-04-09T14:30:00Z). |
| JsDate.ParseIsoOffsetText | coding-contest-extension/src/App.js:26 | `YYYY-MM-DDTHH:mm:ss±HH:MM` with in-range fields reads as the civil instant of the fields minus the offset. |
| JsDate.ParseIsoOffsetIllegal | coding-contest-extension/src/App.js:26 | The same text with a field out of range (month 13, 30 February, minute 60) is not read as that form. It goes to the engine. |
| JsDate.KnownOffsets | coding-contest-extension/src/App.js:26 | `+09:00` is 540 minutes east of UTC and `+05:30` is 330. |
| Civil.DaysFromCivilInverse | coding-contest-extension/src/App.js:26 | A valid date survives the trip to a day number and back. |
| Civil.CivilFromDaysInverse | coding-contest-extension/src/App.js:100 | Every day number names a valid date that counts back to the same day. |
| Civil.FieldsOfInverse | coding-contest-extension/src/App.js:100-101 | The UTC fields of an instant are valid, and they add back up to the instant, milliseconds included. |
| Civil.InstantOfInverse | coding-contest-backend/server.js:82-91 | Valid wall-clock fields are recovered from the instant they name. |
| Client.DisplayDispatch | coding-contest-extension/src/App.js:62-66 | `formatDateTime` reads a number, zero included, as epoch seconds: that instant when in range, an Invalid Date otherwise. A string goes through parseDateIST. Any other value (undefined, null, a boolean) shows the current time. |
| Client.DisplaySlash | coding-contest-extension/src/App.js:62-66 | Text of the first shape, with valid fields, is displayed at the instant those fields name in Japan. |
| Values.OrChainIsFirstTruthy | coding-contest-extension/src/App.js:82 | A chain of `\|\|` yields the first truthy operand, or the last operand when none is truthy. Its result is truthy iff some operand is. |
| Client.CalendarTitleChoice | coding-contest-extension/src/App.js:81-83 | The title is the encoded first truthy of `name`, `contest_name` and `id`, or else `contest_code`. |
| Client.StartsAgree | coding-contest-extension/src/App.js:85-87 | The list (lines 150-154) and the calendar agree on the start in two cases: a non-zero `startTimeSeconds`, which gives that many seconds; or, without a truthy `startTimeSeconds`, a non-empty `contest_start_date`. |
| Client.DurationSpan | coding-contest-extension/src/App.js:91-92 | With a truthy duration, the end is the start plus that many seconds when the duration is a number in range, and an Invalid Date when it is not a number. |
| Client.EndDateSpan | coding-contest-extension/src/App.js:92-93 | Without a truthy duration, a truthy `contest_end_date` gives the end as parseDateIST of that date, whatever the start is. |
| Client.EndDateSlash | coding-contest-extension/src/App.js:92-93 | An end date of the first shape, with valid fields, ends the event at the instant those fields name in Japan. |
| Client.DefaultSpan | coding-contest-extension/src/App.js:95-98 | With neither a duration nor an end date, the end is exactly the start plus 7 200 000 ms. |
| Client.CalendarDates | coding-contest-extension/src/App.js:100-103 | The URL exists iff start and end are both valid Dates. Its `dates` parameter is then 33 characters: two 16-character stamps joined by `/`, each reading back as its instant truncated to the second (years 0..9999). |
| JsDate.StampIsBasicUtc | coding-contest-extension/src/App.js:100-101 | Removing `-`, `:` and the fraction from `toISOString` leaves the 16-character `YYYYMMDDTHHMMSSZ` form of ISO 8601:2004 section 4.3.2. |
| JsDate.BasicUtcRoundTrip | coding-contest-extension/src/App.js:100-101 | That stamp reads back as the instant without its milliseconds. |
| JsDate.DateFromStringWhole | coding-contest-backend/server.js:45-47 | Under the model's assumption that the engine's parser yields whole seconds (see "## Left out"), every Date built from a string falls on a whole second. The `±HH:MM` form has no fraction, so it always does; real engines can return fractions for other forms. |
| Server.UpcomingMembers | coding-contest-backend/server.js:21 | The filter keeps exactly the contests in phase `"BEFORE"`, each no more often than before. |
| Server.CodeforcesPermutation | coding-contest-backend/server.js:20-29 | The Codeforces output is the records of the `"BEFORE"` contests, each as often as it occurs, reordered. |
| Server.CodeforcesMembers | coding-contest-backend/server.js:21-29 | A record is in the Codeforces output iff it is the record of a `"BEFORE"` contest. That record carries its name, start and duration, and the link `https://codeforces.com/contest/<id>`. |
| Server.CodeforcesAscending | coding-contest-backend/server.js:22 | The Codeforces output is ascending by `startTimeSeconds`. |
| Server.CodeforcesFailure | coding-contest-backend/server.js:30-33 | A failed request yields the empty list, not an error. |
| Server.CodeChefOutput | coding-contest-backend/server.js:41-50 | One record per future contest, in order. Each carries the contest's name, start and end texts, and the link `https://www.codechef.com/<code>`. A duration that is not NaN is the difference of the two dates in seconds. |
| Server.DurationExact | coding-contest-backend/server.js:45-47 | The CodeChef duration is NaN iff one of the dates is invalid. Otherwise it is exactly the difference of the dates, with no fraction. |
| Server.AtCoderContests | coding-contest-backend/server.js:63-102 | The row loop's list, once sorted, equals `SortByStartDate` of the kept rows' records in row order. A failed request yields the empty list. |
| Server.AtCoderMembers | coding-contest-backend/server.js:80-98 | A record is in the row loop's list iff some row's start is a valid date not before `now` and the row gives that record: trimmed name, `https://atcoder.jp` + href, JST start text, duration. |
| Server.SortByStartDateOutput | coding-contest-backend/server.js:102 | The adapter's own sort only reorders. It is ascending by the engine's reading of the JST texts when the engine reads every one of them. |
| Server.DurationOfClock | coding-contest-backend/server.js:75-77 | A duration `H:M` of digits is H·3600 + M·60 seconds. |
| Server.DurationExample | coding-contest-backend/server.js:75 | `"02:00"` is 7200 seconds. |
| Server.DurationWithoutColon | coding-contest-backend/server.js:76-77 | Without a colon the minutes are undefined, and the duration is NaN. |
| Text.SplitJoin | coding-contest-backend/server.js:76 | Joining the pieces of a split gives back the text, and no piece holds the separator. |
| Text.ReplaceFirstAfter | coding-contest-backend/server.js:91 | Replacing the first occurrence of a pattern affects only that occurrence. |
| Sorting.SortPermutes | coding-contest-backend/server.js:122 | The comparator sort only reorders: the same elements, each as often. |
| Sorting.SortAscending | coding-contest-backend/server.js:122-126 | When every key is present, the sort's result is ascending by key. |
| Server.MergeOutput | coding-contest-backend/server.js:122-126 | The merged list is a permutation of codeforces ++ codechef ++ atcoder. When every record has a key (`startTime`, else `startTimeSeconds`·1000), the list is ascending by it. |
| Server.AtCoderUnkeyed | coding-contest-backend/server.js:123-125 | An AtCoder record has neither key field, so its merge key is always NaN. |
| Cache.NodeCache.constructor | coding-contest-backend/server.js:15 | A new cache is empty and keeps the standard TTL it was given. |
| Cache.NodeCache.Get | coding-contest-backend/server.js:110 | `get` answers the stored value while its entry is live, and nothing otherwise. It deletes an expired entry and changes nothing else. |
| Cache.NodeCache.Set | coding-contest-backend/server.js:128 | `set` stores the value under the key with expiry `now + ttl·1000` (never, for a TTL of 0) and changes no other key. |
| Cache.ServedUntilExpiry | coding-contest-backend/server.js:15 | A value set at `now` with a positive TTL is served exactly until `now + ttl·1000`, the last millisecond included, and not after. |
| Cache.OtherKeysUnchanged | coding-contest-backend/server.js:128 | Setting one key leaves what every other key answers unchanged. |
| Cache.DeleteExpiredUnchanged | coding-contest-backend/server.js:110 | Deleting an expired entry changes no later answer. |
| Route.HandleContests | coding-contest-backend/server.js:109-134 | A live cached list, even an empty one, is the answer: nothing is fetched and the cache is unchanged. On a miss, the answer is the merge of the three adapters' lists. Exactly that list is stored under `"allContests"` with the standard TTL, counted from the clock `set` reads once the fetches are done, not from the request's arrival. |
| Route.TwoRequests | coding-contest-backend/server.js:110-128 | With the 600-second TTL, take a request that fetched and stored its list at time `setFirst`. Every request arriving after that and up to `setFirst` + 600 000 ms gets the same list without fetching. Any later request fetches again. |
| RoundTrip.LocalePartsShape | coding-contest-backend/server.js:91 | The comma rewrite turns the en-GB text into the first pattern's shape, with two spaces after the comma. |
| RoundTrip.LocaleReading | coding-contest-extension/src/App.js:21-26 | The first pattern's text of valid Japan wall-clock fields is read back as the instant those fields name in Japan. |
| RoundTrip.FieldsReadBack | coding-contest-backend/server.js:82-91 | The server's text of valid wall-clock fields (years 1000..9999) is parsed by the client as those fields' instant minus 9 hours. |
| RoundTrip.JstRoundTrip | coding-contest-backend/server.js:82-91 | The client parses the server's JST text of an instant back to that instant truncated to the second. |
| RoundTrip.AtCoderStartSeen | coding-contest-backend/server.js:96 | An AtCoder record is listed and put in the calendar at the start the server read from the page, less its milliseconds. |
| RoundTrip.CodeforcesStartSeen | coding-contest-backend/server.js:25 | A Codeforces record with a non-zero start is listed and put in the calendar at `startTimeSeconds`·1000. |
| RoundTrip.CodeChefStartSeen | coding-contest-backend/server.js:43 | A CodeChef record sends its start as `startTime`, which the client never reads. The list and the calendar therefore both show the current time. |

## Left out

- Transport and framework are outside the model: Express routing, CORS, environment loading, `app.listen`, `res.json` and the `/` route. The handler's result is the response body.
- Fetching and scraping are outside the model, because they are network I/O and HTML parsing. What each request produced is a parameter, already decoded: the Codeforces contest list, the CodeChef future contests, the texts of each AtCoder row, or a failure.
- The `Promise.all` fan-out and the duplicate fetches that concurrent cache misses can cause are left out; they are scheduling, not results. The three adapters are run in sequence, and all read the request's clock value `now`. In the source, the AtCoder adapter reads its own clock. The cache's `set` gets a separate, later reading `setNow`, taken once the fetches are done.
- Route.TwoRequests: requests that overlap are not covered, meaning a second request that arrives before the first has stored its list. Such a request misses the cache and fetches too, which falls under the concurrency line above.
- Route.HandleContests: the 500 answer (`server.js:130-133`) is not modelled. Every adapter turns its own failure into an empty list, so nothing reaches that `catch`.
- Client.ParseDateIST: the `catch` at `App.js:56-59` is not modelled. Nothing inside its `try` throws.
- The engine's free-form date parser (`new Date(string)` outside the ECMAScript date-time format) is left out, because it is implementation-defined. It is the parameter `EngineParse`, yielding whole seconds. This also covers `new Date` of CodeChef's ISO texts whenever they are not in the `±HH:MM` offset form. The standard's forms with a fraction of a second or a trailing `Z` also go to this parser, so the model does not capture their sub-second part. The program never builds such a text itself.
- Server.SortByStartDateOutput: no order is claimed when the engine cannot read some record's JST text. The AtCoder adapter's own sort parses `DD/MM/YYYY,  HH:mm:ss` with the engine's parser, so its order is engine-dependent.
- Server.MergeOutput: no position is claimed for records without a key. AtCoder records never have one, and with such keys the comparator returns NaN and the order is engine-defined. The model's sort is a stable insertion sort, but stability is not stated.
- `toLocaleString("en-IN", … "Asia/Kolkata")` in `formatDateTime` (`App.js:68-77`) is left out, because it is Intl library output. The model covers only the dispatch: a number is epoch seconds, anything else goes through `parseDateIST`.
- `toLocaleString("en-GB", … "Asia/Tokyo")` is modelled as UTC+09:00, `DD/MM/YYYY, HH:mm:ss`. Japan has kept that offset without daylight saving since 1952, and the time-zone database is not part of this model.
- RoundTrip.JstRoundTrip: proved only for Japan wall-clock years 1000..9999. Outside that range, the locale year is not four digits and the client's pattern cannot match it.
- Client.CalendarDates: proved only for UTC years 0..9999. Outside them, `toISOString` writes a six-digit signed year.
- Client.SlashReading and Client.WordReading: proved only for valid calendar fields. For fields such as `31/02`, the date-time reading is left to the engine.
- Number applied to a string reads only optionally signed runs of decimal digits. Fractions, exponents, hexadecimal and `Infinity` are NaN in the model.
- Server.DurationOfClock: malformed duration cells such as `"1:x"` are NaN in both source and model, but no lemma states their value.
- Parts of node-cache are left out: its periodic expiry check, its value cloning and its size limits. Only `get` with expired-entry deletion and `set` with the standard TTL are modelled.
- `encodeURIComponent` is the parameter `Encoder`. `window.open`, `console.*`, React state and the JSX markup are left out.
