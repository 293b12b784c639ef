# Timetable builder: a verified model of the text-to-schedule pipeline

The program turns two texts into a personal weekly schedule. One text is the
master timetable; the other is a student's course registration. Both were
extracted from PDFs, and the text pipeline in `script.js` then runs in four
steps:

- `processTimetable` reads the master timetable line by line. It keeps the
  day named by the latest day heading ("Unknown" before any). On each
  non-blank line it collects entries `{day, code, name, time, hall}`. It uses
  a detailed pattern (code, name, time range, optional location). Only when
  that pattern finds nothing on the line does it use a simple one (code,
  optional `Lec N`, time range), whose entries get the name "Details N/A"
  and the hall "N/A".
- `normalizeTime` rewrites every captured time range as
  `H:MM AM - H:MM PM`. When a marker is missing it infers the meridiem from
  a fixed rule table. The one exception is a clock with a lone `m` marker:
  the `m` stays behind the minute.
- `processCourses` extracts the registered course codes. The primary
  pattern takes codes that follow a row number. Only when that finds
  nothing does a bare-code fallback run over the whole text.
- `matchCourses` keeps the timetable entries whose code is registered and
  orders them by their time text. `groupCoursesByDay` then buckets them by
  day and orders each bucket by start minute, as `parseStartTimeForSorting`
  computes it.

The regular expressions are modelled as exact, deterministic scanners. Each
one says where a match at a given position ends and what it captures.
`Scan.Matches` is the sequence of matches that a global `exec` loop finds.
JavaScript's own behaviour is written out explicitly where the code relies
on it:

- `parseInt` gives `NaN` or a number;
- `trim` and `\s` use the ECMAScript white-space set;
- `split`, `padStart` and `startsWith` follow their JavaScript definitions;
- a number is truthy when it is neither `NaN` nor 0;
- `Array.prototype.sort` is stable. It is modelled by a stable insertion
  sort (`Sorting.Sort`), and `Sorting.SortUnique` shows that this sort gives
  the only sorted, stable permutation.

Behaviour of the code worth knowing:

- The day before any heading is "Unknown".
- The location field is named `hall`.
- `normalizeTime("2:00pm-4:00")` is "2:00 PM - 4:00 AM", because the end
  rule flips any bare end hour of at most 6 that lies below the start's
  24-hour hour.
- A 12 AM start flips only an end hour of 12; every other bare end stays AM,
  because the rule for hours of at most 6 needs a nonzero 24-hour start.
- A lone `m` marker is neither `a` nor `p`, so it is not removed:
  `normalizeTime("10:00m-12:00")` is "10:00m AM - 12:00 PM". The sort key
  of that text is 0, because `\s*(AM|PM)` cannot follow "10:00" when the
  next character is `m`.
- `localeCompare` puts `:` before the digits, so "1:00 PM - 3:00 PM"
  sorts before "10:00 AM - 12:00 PM".

Modules: `Text` (string primitives), `Time` and `TimeRanges` (normaliser
and sort key), `TimeExamples`, `Sorting`, `Scan` (match loop, code and
time-range scanners), `LineFold` (the line fold with a sticky day),
`Timetable`, `TimetableProps`, `TimetableExamples`, `Registration`,
`RegistrationExamples`, `Matching`, `Grouping` and `Pipeline`, one file
each. The character facts of the sample texts sit in `SampleLine` and
`SampleListings`, beside the examples that use them.

## Model

| member | source | states |
|---|---|---|
| Time.StartMeridiem | script.js:199-204 | With no marker and no start time, the result is AM exactly for the hours 7 to 11; 12, 0, 1 to 6, above 12 and `NaN` give PM |
| Time.EndMeridiem | script.js:186-195 | A bare end time takes the other meridiem from the start exactly when it is 12, or when it is at most 6, below the start's 24-hour hour, and that hour is truthy |
| Time.Hour24 | script.js:207-209 | `NaN` stays `NaN`; for hours 1 to 12 the 24-hour hour lies in 0..23, agrees with the hour modulo 12, and is at least 12 exactly for PM |
| Time.Resolve | script.js:186-205 | An explicit marker always wins; with no marker and no start, the start rule applies |
| Time.ParseComponent | script.js:162-212 | The result is null exactly for an empty component; an `a` anywhere gives AM, and `a` takes precedence over `p`; the 24-hour field agrees with the hour and meridiem |
| Time.NormalizeTime | script.js:152-224 | The call fails (the TypeError) exactly when the start component is empty |
| TimeRanges.NormalizeRange | script.js:152-224 | For every time range the timetable patterns can capture, the output is the canonical text of reference records: each clock is `H:MM AM/PM` with the parsed hour and the explicit or inferred meridiem, and the two are joined by ` - ` |
| TimeRanges.RecordCanonical | script.js:177-184 | A captured clock resolves to a non-negative parsed hour and a two-digit minute; a lone `m` marker stays behind the minute |
| TimeRanges.NormalizeCanonicalRange | script.js:214-220 | Normalising an output range again returns it unchanged |
| TimeRanges.NormalizeCanonicalClock | script.js:214-216 | Normalising a single output clock again returns it unchanged |
| TimeRanges.NormalizeIdempotent | script.js:152-224 | Normalising a captured range twice gives the same text as normalising it once |
| TimeRanges.StartMinutesOfRange | script.js:226-239 | The sort key of an output range whose start has a two-digit minute is the start's 24-hour hour times 60 plus its minute |
| TimeRanges.StartMinutesOfClock | script.js:226-239 | The same holds for a single output clock with a two-digit minute |
| TimeRanges.StartMinutesBound | script.js:226-239 | For a 12-hour start with minute at most 59, the sort key lies in 0..1439 |
| TimeRanges.StartMinutesOfCanonical | script.js:226-239 | The sort key of a normalised captured range whose start has no lone `m` marker is its start's minute of the day |
| TimeRanges.StartMinutesLoneM | script.js:226-230 | An output range whose start kept a lone `m` behind its minute has sort key 0 |
| TimeRanges.StartMinutesOfCapture | script.js:226-239 | The sort key of every normalised captured range: 0 when the start has a lone `m` marker, and the start's minute of the day otherwise |
| TimeExamples.NormalizeBothBare | script.js:197-204 | "10:00-12:00" becomes "10:00 AM - 12:00 PM" |
| TimeExamples.NormalizeBareEndAfterAfternoon | script.js:192-195 | "2:00pm-4:00" becomes "2:00 PM - 4:00 AM" |
| TimeExamples.NormalizeMarkedTo | script.js:155-158 | "9:30AM to 11:00AM" becomes "9:30 AM - 11:00 AM" |
| TimeExamples.NormalizeNoonStart | script.js:188-191 | "12:00-2:00" becomes "12:00 PM - 2:00 AM" |
| TimeExamples.NormalizeMidnightStart | script.js:188-191 | "12:00am-3:00" becomes "12:00 AM - 3:00 AM", because a 12 AM start's 24-hour hour is falsy |
| TimeExamples.SortKeyMidnight | script.js:235 | The sort key of 12 AM is 0 |
| TimeExamples.SortKeyNoon | script.js:234-235 | The sort key of 12 PM is 720 |
| TimeExamples.SortKeyHalfPastNoon | script.js:234-237 | The sort key of "12:30 PM" is 750 |
| TimeExamples.SortKeyUnparsable | script.js:229 | Text with no clock time has sort key 0 |
| TimeExamples.NormalizeLoneM | script.js:167-178 | "10:00m-12:00" becomes "10:00m AM - 12:00 PM" |
| TimeExamples.SortKeyLoneM | script.js:226-230 | The sort key of "10:00m AM - 12:00 PM" is 0 |
| Sorting.Sort | script.js:251 | The sort returns a permutation of its input |
| Sorting.SortSorted | script.js:251 | Under a total preorder, the result is sorted |
| Sorting.SortStable | script.js:251 | Elements that compare equal keep their input order |
| Sorting.SortUnique | script.js:251 | Any sorted, stable permutation of the input is the sort's result |
| Scan.SearchSpec | script.js:93 | `exec` finds the leftmost match at or after `lastIndex`, or reports that nothing matches from there on |
| Scan.MatchesFrom | script.js:93-102 | Every value that the `exec` loop yields was built by a match in the text |
| Scan.MatchesEmpty | script.js:93-104 | The `exec` loop yields nothing exactly when the pattern matches nowhere |
| Scan.SearchFinds | script.js:93 | A match at some position, with no match between `lastIndex` and it, is exactly what `exec` finds |
| Scan.MatchesNext | script.js:93-102 | The `exec` loop then yields that match's value first and resumes where it ended |
| Scan.MatchesWhole | script.js:93-102 | A single match that covers the whole line is all the loop yields |
| Scan.ExecAll | script.js:129-131 | The `while (exec)` loop collects the values of the successive matches, each search resuming where the last match ended |
| Scan.CodeAt | script.js:75 | A course code match starts with a letter, ends with a digit, is at least 7 characters long, and holds only letters, `/`, white space and digits |
| Scan.CodeAtExact | script.js:75 | Conversely, three or four letters, white space (one character for `\s`, the whole run for `\s+`) and three or four digits not followed by a digit form a code match that ends after the digits |
| Scan.CleanCodeCanonical | script.js:130 | A matched code with white space collapsed and trimmed is a department (one or two letter words joined by `/`), one space, and 3 to 4 digits |
| Scan.RangeAt | script.js:75 | A captured time range is the text of a well-formed range: two clocks `\d{1,2}:\d{2}[ap]?m?` around `-` or `to` with optional white space |
| Scan.ClockCaptureBare | script.js:75 | A two-digit `hh:mm` not followed by a marker letter is captured as a clock without a marker |
| Scan.RangeAtDash | script.js:75 | Two such clocks around a `-`, with no white space, are captured as a range ending after the second clock |
| Scan.NormalizeCapture | script.js:99 | `normalizeTime` of a trimmed capture is the canonical text of its reference records |
| Timetable.LazyName | script.js:75 | The lazy name ends at the first point from which white space and a time range follow; it holds only name characters |
| Timetable.LazyNameExact | script.js:75 | Conversely, the lazy name takes the first end over name characters from which white space and a time range follow |
| Timetable.NoTimeInWords | script.js:75 | Inside a run of letters and white space that ends in a letter, no time range follows any position, so the lazy name runs past it |
| Timetable.LazyNameOverWords | script.js:75 | A name of words ended by a letter, followed by white space and a time range, ends exactly there |
| Timetable.LocationExact | script.js:75 | One white-space character and then a run of location characters form the location group, captured up to the end of the run |
| Timetable.DetailedAtExact | script.js:75 | A code, one space, a name, a time range and a location, each matched where given, form a detailed match whose entry holds the cleaned code, the trimmed name, the canonical time and the trimmed hall |
| Timetable.DetailedRowFields | script.js:95-101 | A detailed entry's time is the canonical text of the captured range, which normalises to itself; the hall is "N/A" when the location group is absent |
| Timetable.DetailedAt | script.js:75 | A detailed match ends after it starts, its name is never "Details N/A", and its time is canonical |
| Timetable.SimpleAt | script.js:76 | A simple match gives name "Details N/A", hall "N/A" and a canonical time |
| Timetable.LecAt | script.js:76 | The optional `Lec\s\d+\s` group, when present, ends after it starts |
| Timetable.FirstDayFrom | script.js:83-88 | The result is a day name that the upper-cased line starts with; there is none exactly when no day name starts the line |
| Timetable.BlankNoHeading | script.js:79-80 | A blank line names no day |
| Timetable.ProcessTimetable | script.js:67-121 | The `forEach` loop returns the entries of the fold over the lines, starting from "Unknown" |
| Timetable.ProcessLine | script.js:78-117 | One line: the day in effect becomes the line's heading if it has one, and the line's entries under that day are appended |
| Timetable.FindDay | script.js:83-88 | The `for ... break` loop sets the day to the first day name the line starts with, or keeps the day |
| Timetable.ScanLine | script.js:90-116 | The detailed matches of the line, or the simple matches when there are none |
| LineFold.Step | script.js:78-117 | One more line: its heading takes effect, and its entries follow those of earlier lines |
| LineFold.Append | script.js:78-117 | Processing `a + b` is processing `a`, then `b` from the day in effect after `a` |
| LineFold.Inert | script.js:80 | A line with no heading and no entries changes nothing |
| LineFold.Sets | script.js:82-88 | A heading line and every later line are read under the new day; earlier entries are untouched |
| LineFold.LatestFrom | script.js:71-88 | The day in effect is the starting day or some line's heading |
| LineFold.CollectFrom | script.js:78-117 | Every entry comes from some line, under the day in effect after that line |
| TimetableProps.LineRowsExclusive | script.js:90-116 | If the detailed pattern matches anywhere on a line, its rows are nonempty and all detailed; otherwise they are all simple rows |
| TimetableProps.LineEntriesExclusive | script.js:93-116 | A line's entries all carry the day in effect, and they are all detailed or all simple, never a mix |
| TimetableProps.EntriesOfAppend | script.js:78-117 | Entries keep line order, and the day carries over from earlier lines to later ones |
| TimetableProps.BlankLineInert | script.js:79-80 | A blank line changes neither the entries nor the day in effect |
| TimetableProps.HeadingLine | script.js:82-88 | A day heading applies to its own line and to all later lines until the next heading |
| TimetableProps.LatestDayIs | script.js:71-88 | The day in effect is always "Unknown" or one of the seven day names |
| TimetableProps.DetailedCode | script.js:97 | A detailed match's code, with white space collapsed and trimmed, is letters, one space and three or four digits |
| TimetableProps.SimpleCode | script.js:110 | A simple match's code has the same canonical form |
| TimetableProps.LineRowCodes | script.js:93-116 | Every row a line yields has a canonical code |
| TimetableProps.LineEntryCodes | script.js:93-116 | Every entry a line adds has a canonical code |
| TimetableProps.EntriesWellFormed | script.js:95-114 | Every entry has a day name or the starting day, a canonical code, a canonical time, and is a detailed entry or a simple one with the sentinels |
| TimetableProps.TimetableWellFormed | script.js:67-121 | Every entry `processTimetable` returns is well formed, with "Unknown" as the day before any heading |
| TimetableExamples.DetailedLine | script.js:75-101 | The line "SOE 322 Software Quality Engineering 10:00-12:00 NHA1" yields one row: code "SOE 322", that name, time "10:00 AM - 12:00 PM" and hall "NHA1" |
| Registration.Dedup | script.js:133 | `[...new Set(xs)]` holds the same elements as `xs`, each once |
| Registration.DedupOrder | script.js:133 | The deduplicated list is in order of first occurrence |
| Registration.NumberedAt | script.js:126-130 | A numbered-row match yields a cleaned code in canonical form, with an upper-case department |
| Registration.NumberedAtExact | script.js:126 | Conversely, digits, white space, three or four upper-case letters, white space and three or four digits not followed by a digit form a match; its code is the letters, one space and the digits |
| Registration.NumberedNoGap | script.js:126 | A digit run not followed by white space starts no numbered row |
| Registration.NumberedNoDigits | script.js:126 | No numbered row starts where there is no digit |
| Registration.BareAt | script.js:138 | A bare-code match yields the raw matched text |
| Registration.BareAtExact | script.js:138 | Conversely, three or four upper-case letters, one white-space character and three or four digits not followed by a digit form a match, yielding that text |
| Registration.CleanAll | script.js:141 | Each code is cleaned, position by position |
| Registration.ProcessCourses | script.js:123-150 | The method returns the registered codes: the primary loop's codes, with the fallback run only when the primary finds none |
| Registration.PrimaryResult | script.js:126-149 | When some numbered row matches, the fallback does not run; the result is nonempty, free of duplicates, in first-occurrence order, canonical, and holds exactly the numbered codes |
| Registration.CleanAllCovers | script.js:141 | Cleaning a list with the same elements as the raw matches gives every raw match cleaned, and nothing else |
| Registration.FallbackResult | script.js:136-143 | With no numbered row, the result is the raw bare matches, deduplicated and then cleaned: every bare code appears cleaned, and nothing else does |
| Registration.EmptyResult | script.js:136-147 | The result is empty exactly when neither pattern matches anywhere |
| RegistrationExamples.FallbackKeepsDuplicates | script.js:139-141 | Fallback matches "CSC 201" and "CSC\n201" both survive deduplication, giving "CSC 201" twice |
| RegistrationExamples.CleanNewline | script.js:141 | Cleaning "CSC\n201" gives "CSC 201" |
| RegistrationExamples.MixedListing | script.js:123-147 | `processCourses("CSC 201, CSC\n201")` returns "CSC 201" twice |
| RegistrationExamples.NumberedListing | script.js:123-149 | `processCourses("1 CSC 201 Intro\n2 CSC 205 Data")` returns "CSC 201" and "CSC 205", in that order |
| Matching.WeightInjective | script.js:305 | Different characters have different collation weights |
| Matching.TextLeAt | script.js:305 | Texts that agree up to a position are ordered by the weights of their characters there |
| Matching.TextLePrefix | script.js:305 | A common prefix does not change the order of two texts |
| Matching.OneDigitHourFirst | script.js:305 | "1:00 PM - 3:00 PM" sorts strictly before "10:00 AM - 12:00 PM" |
| Matching.OneDigitEndFirst | script.js:305 | "10:00 AM - 1:00 PM" sorts strictly before "10:00 AM - 12:00 PM" |
| Matching.TextLeTotal | script.js:305 | Any two time texts are ordered one way or the other |
| Matching.TextLeTransitive | script.js:305 | The time-text order is transitive |
| Matching.TextLeAntisymmetric | script.js:305 | Time texts that tie are equal |
| Matching.ByTimeOrder | script.js:305 | The comparator is a total preorder on entries |
| Matching.RegisteredCount | script.js:303-304 | The filter keeps each entry with a registered code as often as it occurs, and drops every other entry |
| Matching.MatchSpec | script.js:295-308 | An entry is matched exactly when it is in the timetable and its code is registered (exact string equality), with its multiplicity; the result is ordered by time text, and entries with equal time texts keep timetable order |
| Matching.MatchUnique | script.js:303-305 | Any time-ordered, stable arrangement of the filtered entries is the result |
| Matching.TiesAreEqualTimes | script.js:305 | Entries tie only when their time texts are equal |
| Matching.MatchEmpty | script.js:295-308 | An empty timetable gives an empty result |
| Grouping.ByStartOrder | script.js:251 | The start-minute comparator is a total preorder |
| Grouping.OnDay | script.js:242-247 | A day's entries are exactly the input entries carrying that day |
| Grouping.OnDayCount | script.js:242-247 | A day's entries keep each entry's multiplicity |
| Grouping.OnDayAbsent | script.js:242-247 | A day no entry carries has no entries |
| Grouping.BucketsByDay | script.js:242-247 | After the `forEach` loop, there is a bucket for each day the entries carry, holding that day's entries in input order |
| Grouping.SortOne | script.js:250-252 | Sorting one pending bucket keeps the others as they were |
| Grouping.GroupCoursesByDay | script.js:241-255 | The method returns every day's bucket sorted by start minute |
| Grouping.GroupedKeys | script.js:242-247 | A day has a bucket exactly when some entry carries that day; no bucket is empty |
| Grouping.GroupedBucket | script.js:241-255 | A bucket holds exactly its day's entries, each as often as in the input; every entry is in its own day's bucket and no other |
| Grouping.GroupedSorted | script.js:250-252 | Each bucket is non-decreasing by start minute, and ties keep input order |
| Grouping.GroupedUnique | script.js:250-252 | Any start-ordered, stable arrangement of a day's entries is that day's bucket |
| Grouping.ListingCount | script.js:241-255 | Walking the buckets of distinct days gives each entry of those days as often as it occurs |
| Grouping.GroupedTotal | script.js:241-255 | Walking the buckets of all days gives back the input as a multiset, so the total count is preserved |
| Pipeline.ScheduleNone | script.js:16-31 | Nothing is stored exactly when no timetable entry has a registered code |
| Pipeline.ScheduleBuckets | script.js:16-31 | A stored schedule is non-empty. Each bucket holds exactly the timetable entries of its day whose code is registered, in start order. Every such entry is in the bucket of its day |
| Pipeline.ScheduleWellFormed | script.js:16-31 | Every entry of a schedule stored from two texts is well formed, with "Unknown" as the day before any heading |

## Left out

- PDF text extraction (`parsePDF`, `parsePDFArrayBuffer`) is left out. It makes asynchronous library calls; the model starts from the extracted texts.
- Orchestration (`processFiles`, `debugProcessPDFs`) is left out: the DOM, `alert`, `fetch` and `Promise.all`. Only the chain of the four steps is kept, as `Pipeline.Schedule`. There, an empty match clears the stored schedule.
- Rendering is left out: `displayTimetableAsHTML`, both `generatePDF` versions, `downloadPDF` and the page listener. They do DOM and PDF layout. `Grouping.Listing` walks the buckets in a given day order only to state the total count.
- The `console.log` and `console.warn` calls are left out. They have no effect on the results.
- Matching.TextLe: `localeCompare` is modelled as a single-level order on character weights that follow the primary order of the Unicode root collation: white space, then `-`, then `:`, then other punctuation and symbols by code point, then digits, then letters alphabetically with lower case before upper case. A real collator compares case only after the whole string's primary weights, and a locale may tailor the order. The two orders can disagree only when a difference in case comes before the first other difference. In the texts `normalizeTime` produces, `M` follows only `A` or `P`, and the only lower-case letter is a lone `m` right after a minute digit. The sort only needs a total preorder, which is proved for this order.
- Text.ParseInt: the result is an unbounded integer. JavaScript numbers lose precision above 2^53, and a digit run that long is not rounded here. Every digit run the timetable patterns capture has at most two digits.
- Text.Upper, Text.Lower: `toUpperCase` and `toLowerCase` are modelled on ASCII letters only. Other characters are left unchanged.
- Time.NormalizeTime: the TypeError for an empty start component is modelled as `None`. `NaN` hours are carried through as a value; no capture of the timetable patterns produces either.
- Registration.FallbackResult does not state that the fallback's result is free of duplicates. It is not: the raw matches are deduplicated before cleaning.
- Grouping.GroupCoursesByDay: the object's key order, which is insertion order in JavaScript, is not modelled. Buckets are kept in a map; the order of keys only matters to a display that walks the object.
