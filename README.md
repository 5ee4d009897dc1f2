# jitbug/helpers — a Dafny model of the pure helpers and the `Time` value

This project models the deterministic helpers of the `jitbug/helpers` TypeScript library and proves what
their code and tests promise. It covers:

- **`Time`**: a wall-clock minute count. It has four constructors, circular `add`/`subtract`, `valueOf`,
  `toJSON` and `HH:mm` printing.
- **Date helpers** built on `Time` and on day arithmetic: `minsToMs`, `getDuration`, `validateShiftDuration`,
  `getNextWorkingDay`, `getDatesOfNextWeeks` and `getCalendarMonthBoundaries`. Each is modelled in the current
  module and in its older copy.
- **Array helpers**: `createRange`, `getArraySum`, `removeFromArray`, `getLastElement`, the sibling lookups,
  `makeArrayUnique`, `getCountWithLimit`, `reduceObjectArrayToObject` and `flatten`.
- **String helpers**: `toTitleCase`, `pascalToCamelCase`, `getInitials`, `toOrdinal` and `filterAndJoin`.
- **Functional helpers**: `compose` and `pipe` as folds, `pluck`, `is`, `isNot`, `Bool`, the four flag predicate
  pairs and `getValueOrDefault`. The older copy (src/helpers/fp.ts) has only `compose`, `pipe`, `Bool`, the
  enabled, selected and visible pairs and `valueOrDefault`, and its module models exactly those.
- **Utilities**: `useRef` (a class whose `SetRef` method overwrites its `ref` field), `getByPath` over a
  JSON-like value, and `base64ImageToDataUrl`.

Modules follow the source files:

| module | source |
|---|---|
| `Time` | src/time/index.ts |
| `Dates` | src/dates/index.ts |
| `LegacyDates` | src/helpers/dates.ts |
| `Arrays` | src/arrays/index.ts |
| `Strings` | src/strings/index.ts |
| `Fp` | src/fp/index.ts |
| `LegacyFp` | src/helpers/fp.ts |
| `Utils` | src/utils/index.ts |

Four small modules hold what these share:

- `Wrappers` has `Option` and `Result`.
- `Numbers` has decimal text, two-digit padding and JavaScript's truncating `%`.
- `Text` has `split` on one character, `join` and ASCII case mapping.
- `Js` has a JSON-like value with `undefined`, JavaScript truthiness and a `T | null | undefined` slot.

Every exception of the source is an `Err` of a `Result`. The cases are:

- the `Time` constructor's RangeError, its format error and its invalid-moment error;
- `new Array(n)` with a negative `n`, which `createRange` passes on.

Dates are whole day numbers. Day 0 is a Monday (2018-01-01), so the ISO weekday of day `d` is `d % 7 + 1`.
`getNextWorkingDay` takes "today" as a parameter. A month is given by its first and last day numbers,
with `first <= last`.

## Model

| member | source | states |
|---|---|---|
| Time.OfNumber | src/time/index.ts:23-29 | a number is accepted exactly when 0 <= n < 1440, keeps its value; otherwise the RangeError |
| Time.OfString | src/time/index.ts:31-39 | accepted exactly when the text is two digits, ':', two digits; the value is HH*60+mm with no range check (at most 6039); otherwise the format error |
| Time.OfMoment | src/time/index.ts:44-50 | an invalid moment is an error; a valid one gives hours*60+minutes, inside the day when hour and minute are in range |
| Time.Construct | src/time/index.ts:21-57 | no argument is midnight, a Time is copied, and numbers, strings and moments go to their constructors |
| Time.Add | src/time/index.ts:65-73 | never fails; the result is inside the day and equals (value + mins) reduced Euclidean modulo 1440, for any starting value |
| Time.Subtract | src/time/index.ts:78-80 | inside the day and equal to (value - mins) modulo 1440 |
| Time.SubtractIsAddNegated | src/time/index.ts:78-80 | subtract(m) is add(-m) |
| Time.ValueOf | src/time/index.ts:82-84 | the stored minute count, for every time including those outside the day (6039 for "99:99"); for a time of the day the numeric constructor gives the same time back |
| Time.ToJson | src/time/index.ts:86-88 | toJSON() is valueOf() |
| Time.ToString | src/time/index.ts:90-95 | for values below 100 hours, two zero-padded digits of the hours, ':', two of the minutes |
| Time.DefaultIsMidnight | src/time/index.ts:54-55 | new Time() is 0 and prints "00:00" |
| Time.ToStringExample | src/time/time.spec.ts:8 | 1234 prints as "20:34" |
| Time.ParseOfToString | src/time/index.ts:31-95 | parsing the printed text of a time below 100 hours gives the time back |
| Time.ToStringOfParse | src/time/index.ts:31-95 | printing a parsed "HH:mm" with mm < 60 gives the text back, also for HH above 23 |
| Time.StringConstructorIsUnchecked | src/time/index.ts:31-39 | "99:99" is 6039 minutes, outside the day, and "1234" is rejected |
| Time.AddAdd | src/time/index.ts:65-73 | adding a and then b is adding a + b |
| Time.AddNothing | src/time/index.ts:65-73 | adding 0 or 1440 leaves a time of the day unchanged |
| Time.CrossMidnightBackwards | src/time/time.spec.ts:86-90 | 00:05 minus 10 minutes prints "23:55" |
| Time.CrossMidnightForwards | src/time/time.spec.ts:92-96 | 23:55 plus 10 minutes prints "00:05" |
| Time.MomentToString | src/time/index.ts:49 | a valid in-range moment becomes a time that prints as its "HH:mm" |
| Dates.IsoWeekday | src/dates/index.ts:90 | the ISO weekday is between 1 (Monday) and 7 (Sunday) |
| Dates.WeekdayPeriodic | src/dates/index.ts:90 | the weekday repeats every seven days |
| Dates.StartOfIsoWeek | src/dates/index.ts:128 | the Monday on or before the day, at most six days before |
| Dates.EndOfIsoWeek | src/dates/index.ts:129 | the Sunday on or after the day, at most six days after |
| Dates.MinsToMs | src/dates/index.ts:33 | the minute count times 60000, negative counts included |
| Dates.MinsToMsExamples | src/dates/dates.spec.ts:52-55 | 0, 1, 123 and -123 minutes are 0, 60000, 7380000 and -7380000 ms |
| Dates.GetDuration | src/dates/index.ts:105 | the end's constructor error first, then the start's; otherwise (end - start) modulo 1440, inside the day |
| Dates.DurationOfTimesOfDay | src/dates/index.ts:105 | for times of the day: end - start, plus 1440 when the end is earlier; adding it to the start gives the end |
| Dates.OvernightShift | src/dates/index.ts:105 | 22:00 to 06:00 lasts 480 minutes |
| Dates.ValidateShiftDuration | src/dates/index.ts:110-111 | true for a missing or zero minimum; else the duration's error, or the RangeError for a minimum outside the day, or duration >= minimum |
| Dates.ValidShiftIffLongEnough | src/dates/index.ts:110-111 | with times and a minimum inside the day, valid exactly when the wrapped duration reaches the minimum |
| Dates.GetNextWorkingDay | src/dates/index.ts:89-100 | strictly after today, not a Saturday or Sunday, and every day in between is a weekend day |
| Dates.NextWorkingDayOffsets | src/dates/index.ts:90-99 | three days on from a Friday, two from a Saturday, one from any other day |
| Dates.GetDatesOfNextWeeks | src/dates/index.ts:116-122 | fails exactly for a negative n; otherwise the weeks of five or seven days from start, flattened in order |
| Dates.DatesOfNextWeeksAt | src/dates/index.ts:116-122 | n*5 or n*7 dates; entry w*k+j is start + 7w + j |
| Dates.DatesOfNextWeeksAscending | src/dates/index.ts:116-122 | the dates are strictly ascending |
| Dates.DatesAscending | src/dates/index.ts:117-122 | the flattened weeks ascend strictly and lie in the n weeks from start |
| Dates.DatesOfNextWeeksAreWorkdays | src/dates/index.ts:114-122 | from a Monday, without weekends, day j of each week falls on ISO weekday j+1 (Monday to Friday) |
| Dates.SundayOnOrBefore | src/dates/index.ts:131-137 | a Sunday, at most six days before the day |
| Dates.SaturdayOnOrAfter | src/dates/index.ts:131-141 | a Saturday, at most six days after the day |
| Dates.SundayStartCorrection | src/dates/index.ts:132-137 | one day before the ISO start, moved on a week when that is exactly a week before the first day, is the Sunday on or before it |
| Dates.SundayEndCorrection | src/dates/index.ts:133-141 | one day before the ISO end, moved on a week when it falls before the last day, is the Saturday on or after it |
| Dates.CalendarMonthBoundaries | src/dates/index.ts:127-145 | ISO week boundaries for Monday-first; Sunday on or before and Saturday on or after for Sunday-first; start <= first, last <= end, both within six days; a whole number of weeks, at least one |
| Dates.December2019 | src/dates/dates.spec.ts:117-133 | December 2019 spans 2019-11-25 to 2020-01-05 Monday-first and 2019-12-01 to 2020-01-04 Sunday-first |
| LegacyDates.MinsToMs | src/helpers/dates.ts:21 | mins * 60000 |
| LegacyDates.GetDuration | src/helpers/dates.ts:92 | the end's error first, then the start's; otherwise (end - start) modulo 1440 |
| LegacyDates.ValidateShiftDuration | src/helpers/dates.ts:97-98 | true for a falsy minimum; else the duration's error, the RangeError for a minimum outside the day, or whether the duration reaches it |
| LegacyDates.GetNextWorkingDay | src/helpers/dates.ts:76-87 | strictly after today, not at a weekend, only weekend days in between |
| LegacyDates.GetDatesOfNextWeeks | src/helpers/dates.ts:103-107 | fails exactly for a negative n; otherwise the same dates as the newer helper without weekends |
| LegacyDates.CalendarMonthBoundaries | src/helpers/dates.ts:112-138 | the same boundaries as the newer helper: start <= first, last <= end, both within six days, a whole number of weeks, at least one |
| Arrays.CreateRange | src/arrays/index.ts:20-21 | fails exactly for a negative length; e == 0 gives 0..s-1, otherwise s..e with e-s+1 elements |
| Arrays.RangeMembers | src/arrays/index.ts:8-21 | createRange(n) holds exactly 0..n-1, ascending |
| Arrays.RangeFromToMembers | src/arrays/index.ts:14-21 | createRange(s, e) with e != 0 holds exactly s..e, ascending |
| Arrays.RangeEndingAtZeroIsLength | src/arrays/index.ts:20-21 | an end of 0 falls back to the one-argument form: (-2, 0) fails and (3, 0) is [0, 1, 2]; (-2, 2) is [-2..2] |
| Arrays.GetArraySum | src/arrays/index.ts:26 | the empty array sums to 0; with no negative element the sum is at least every element |
| Arrays.SumAppend | src/arrays/index.ts:26 | the sum of a concatenation is the sum of the sums |
| Arrays.SumOfRange | src/arrays/arrays.spec.ts:44 | createRange(1, n) sums to n(n+1)/2 |
| Arrays.IndexOf | src/arrays/index.ts:32 | -1 exactly when absent; otherwise the first index holding the item |
| Arrays.RemoveFromArray | src/arrays/index.ts:31-35 | unchanged when absent; one shorter when present; removes one occurrence (multiset); the rest before and after the first occurrence kept in order |
| Arrays.GetLastElement | src/arrays/index.ts:40 | undefined exactly for the empty array |
| Arrays.LastOfAppend | src/arrays/index.ts:40 | what was appended last is the last element |
| Arrays.GetSibling | src/arrays/index.ts:55 | the element n places after the first occurrence, undefined when that is outside the array; for an absent item, array[n - 1] |
| Arrays.GetPrevSibling | src/arrays/index.ts:45-55 | the element before the first occurrence; undefined for the first element and for an absent item |
| Arrays.GetNextSibling | src/arrays/index.ts:50-55 | the element after the first occurrence; undefined for the last element; the first element for an absent item |
| Arrays.SiblingsInverse | src/arrays/index.ts:45-55 | without duplicates, previous and next sibling undo each other |
| Arrays.MakeArrayUnique | src/arrays/index.ts:60 | no duplicates, exactly the input's values, in the order of their first occurrences |
| Arrays.Filter | src/arrays/index.ts:68 | only passing elements of the input, every passing element, and each as many times as in the input |
| Arrays.FilterAppend | src/arrays/index.ts:68 | filtering keeps the order: a concatenation is filtered part by part |
| Arrays.FilterCount | src/arrays/index.ts:63-68 | the count getCountWithLimit reports, the filtered length, is the number of positions whose element passes |
| Arrays.GetCountWithLimit | src/arrays/index.ts:67-79 | "<limit>+" when a non-zero limit is exceeded; otherwise the decimal count, or "" for none |
| Arrays.CountWithLimitReadsBack | src/arrays/index.ts:67-79 | with limit >= 0: empty exactly when nothing passes; else its digits read back as the count, or as the limit before '+' |
| Arrays.LastHolder | src/arrays/index.ts:88-89 | the last object holding a key: it holds it and no later one does |
| Arrays.ReduceObjectArrayToObject | src/arrays/index.ts:88-89 | a key is present exactly when some object holds it, with the value of the last such object; undefined entries add nothing |
| Arrays.MergeTwo | src/arrays/arrays.spec.ts:105-107 | {a: 'foo'} and {b: 'bar'} merge to {a: 'foo', b: 'bar'} |
| Arrays.MergeThree | src/arrays/arrays.spec.ts:109-111 | an undefined entry appended changes nothing |
| Arrays.MergeExample | src/arrays/arrays.spec.ts:113-115 | {a: 'foo'}, {b: 'bar'}, undefined, {a: 'foobar'} merge to {a: 'foobar', b: 'bar'} |
| Arrays.Flatten | src/arrays/index.ts:100 | the length is the sum of the inner lengths |
| Arrays.FlattenAppend | src/arrays/index.ts:100 | flatten distributes over concatenation; its length is the sum of the inner lengths |
| Arrays.FlattenMembers | src/arrays/index.ts:100 | an element is in the result exactly when it is in one of the inner arrays |
| Arrays.FlattenUniform | src/arrays/index.ts:100 | with inner arrays of length k, element j of block w is at index w*k+j |
| Strings.ToTitleCase | src/strings/index.ts:12-16 | split/map/join gives the same text as the character scan TitleFrom |
| Strings.PiecesScan | src/strings/index.ts:12-16 | the word pipeline and the character scan agree from any scan state |
| Strings.TitleKeepsShape | src/strings/index.ts:12-16 | the same length, and spaces in the same places |
| Strings.TitleCaseAt | src/strings/index.ts:12-16 | each character: a space stays, one after a space or at the start is upper-cased, any other is lower-cased |
| Strings.TitleIdempotent | src/strings/index.ts:12-16 | the scan applied twice equals it applied once |
| Strings.ToTitleCaseIdempotent | src/strings/index.ts:12-16 | toTitleCase twice is toTitleCase once |
| Strings.TitleCaseExamples | src/helpers/strings.spec.ts:38-41 | '' gives '', and 'string', 'String' and 'STRING' give 'String' |
| Strings.TitleCaseTwoWords | src/strings/index.ts:12-16 | 'foo bar' gives 'Foo Bar' |
| Strings.PascalToCamelCase | src/strings/index.ts:21-22 | same length; shorter than 3 lower-cased whole; otherwise only the first character lower-cased, the rest unchanged |
| Strings.PascalToCamelCaseIdempotent | src/strings/index.ts:21-22 | applying it twice is applying it once |
| Strings.PascalExamples | src/helpers/strings.spec.ts:48-53 | '' gives '', 'Foo' 'foo', 'FooBar' 'fooBar', and 'Id', 'ID' and 'CV' give 'id', 'id' and 'cv' |
| Strings.GetInitials | src/strings/index.ts:27-31 | split/map/join gives the upper case of each character that starts a word |
| Strings.InitialsShape | src/strings/index.ts:27-31 | no longer than the input, with no space and no lower-case letter |
| Strings.InitialsOfJoined | src/strings/index.ts:27-31 | the initials of "s t" are those of s followed by those of t |
| Strings.TwoWordInitials | src/strings/index.ts:27-31 | two space-free words separated by one space give the upper case of their first characters |
| Strings.InitialsExamples | src/helpers/strings.spec.ts:60-62 | '' gives '', and 'Donald Trump' and 'donald trump' give 'DT' |
| Strings.OrdinalSuffix | src/strings/index.ts:37-52 | "st", "nd", "rd" exactly when n%10 is 1, 2, 3 and n%100 is not 11, 12, 13 (n >= 0), "th" otherwise and for negative n |
| Strings.ToOrdinal | src/strings/index.ts:36-53 | the decimal of n followed by its suffix |
| Strings.SuffixPeriodic | src/strings/index.ts:37-52 | the suffix repeats every 100 numbers |
| Strings.OrdinalExamples | src/helpers/strings.spec.ts:68-77 | the suffixes of 1, 2, 3, 4, 11, 12, 21, 32, 43 and 55 are st, nd, rd, th, th, th, st, nd, rd, th; 13 and 111 take "th", and so does -1 |
| Strings.OrdinalText | src/helpers/strings.spec.ts:74 | 21 gives "21st" |
| Strings.FilterAndJoin | src/strings/index.ts:58-59 | '' when no part is kept, the one kept part alone, otherwise the first kept part, the separator and the join of the rest |
| Strings.KeptMembers | src/strings/index.ts:59 | every kept string is a non-empty string part, and every such part is kept |
| Strings.KeptAppend | src/strings/index.ts:59 | filtering a concatenation filters each part |
| Strings.FilterAndJoinSplits | src/strings/index.ts:58-59 | with a one-character separator no part contains, splitting the result gives exactly the kept parts |
| Strings.FalsyPartsVanish | src/strings/index.ts:58-59 | a false, null, undefined or empty part before or after changes nothing |
| Strings.FilterAndJoinExample | src/helpers/strings.spec.ts:85 | ['foo', false, undefined, '', 'bar'] gives 'foo, bar' with the default separator |
| Strings.FilterAndJoinSeparators | src/helpers/strings.spec.ts:83-87 | ['foo', 'bar'] gives 'foo, bar', 'foobar' with '' and 'foo-bar' with '-'; ['foobar'] gives 'foobar' |
| Text.SplitPiecesOmitSeparator | src/strings/index.ts:14 | no piece of a split contains the separator |
| Text.JoinOfSplit | src/strings/index.ts:14-16 | joining the pieces of a split with the separator gives the text back |
| Text.SplitOfJoin | src/strings/index.ts:14-16 | splitting a join of separator-free parts gives the parts back |
| Text.SplitAppend | src/utils/index.ts:117 | the split of a + separator + b is the split of a followed by the split of b |
| Fp.Compose | src/fp/index.ts:4 | the composed function applies the list from the right |
| Fp.Pipe | src/fp/index.ts:9 | the piped function applies the list from the left |
| Fp.ComposeAppend | src/fp/index.ts:4 | composing a concatenation runs the right part first |
| Fp.PipeAppend | src/fp/index.ts:9 | piping a concatenation runs the left part first |
| Fp.ComposeBasics | src/fp/fp.spec.ts:9-14 | compose() is the identity and compose(f, g)(x) is f(g(x)) |
| Fp.PipeBasics | src/fp/fp.spec.ts:20-25 | pipe() is the identity and pipe(f, g)(x) is g(f(x)) |
| Fp.PipeIsReversedCompose | src/fp/index.ts:4-9 | pipe(fs) is compose of the reversed list on every input |
| Fp.Pluck | src/fp/index.ts:14 | the property when the object has it, undefined otherwise |
| Fp.Is | src/fp/index.ts:19 | holds exactly when the object has the key set to the value, or lacks the key when the value is undefined |
| Fp.IsNot | src/fp/index.ts:24 | the negation of is |
| Fp.IsIsNotComplementary | src/fp/index.ts:19-24 | is and isNot are complementary; is holds exactly when the property is set to the value (or absent, for undefined) |
| Fp.Bool | src/fp/index.ts:32 | false exactly for undefined, null, false, 0 and '' |
| Fp.Set | src/fp/index.ts:39-49 | Boolean of an optional flag is true exactly when the flag is true |
| Fp.IsEnabled | src/fp/index.ts:39 | true exactly when enabled is true |
| Fp.IsDisabled | src/fp/index.ts:40 | true exactly when enabled is not true (false or absent) |
| Fp.IsSelected | src/fp/index.ts:42 | true exactly when selected is true |
| Fp.IsDeselected | src/fp/index.ts:43 | true exactly when selected is not true |
| Fp.IsChecked | src/fp/index.ts:45 | true exactly when checked is true |
| Fp.IsUnchecked | src/fp/index.ts:46 | true exactly when checked is not true |
| Fp.IsVisible | src/fp/index.ts:48 | true exactly when visible is true |
| Fp.IsInvisible | src/fp/index.ts:49 | true exactly when visible is not true |
| Fp.FlagPairsComplementary | src/fp/index.ts:39-49 | each positive predicate holds exactly when its flag is true, and its partner is its negation |
| Fp.GetValueOrDefault | src/fp/index.ts:54-55 | the default exactly for undefined and null, otherwise the value |
| Fp.FalsyValuesAreKept | src/fp/index.ts:54-55 | false, 0 and '' are returned, not replaced by the default |
| LegacyFp.Compose | src/helpers/fp.ts:4 | applies the list from the right |
| LegacyFp.Pipe | src/helpers/fp.ts:9 | applies the list from the left, and equals the composition of the reversed list |
| LegacyFp.Bool | src/helpers/fp.ts:17 | false exactly for undefined, null, false, 0 and '' |
| LegacyFp.IsEnabled | src/helpers/fp.ts:24 | true exactly when enabled is true |
| LegacyFp.IsDisabled | src/helpers/fp.ts:25 | the negation of isEnabled |
| LegacyFp.IsSelected | src/helpers/fp.ts:27 | true exactly when selected is true |
| LegacyFp.IsDeselected | src/helpers/fp.ts:28 | the negation of isSelected |
| LegacyFp.IsVisible | src/helpers/fp.ts:30 | true exactly when visible is true |
| LegacyFp.IsInvisible | src/helpers/fp.ts:31 | the negation of isVisible |
| LegacyFp.ValueOrDefault | src/helpers/fp.ts:36-37 | the default exactly for undefined and null, otherwise the value |
| Utils.NextRef | src/utils/index.ts:25 | with nullRefs the argument; otherwise the argument unless it is null or undefined, then the current value |
| Utils.Ref.constructor | src/utils/index.ts:19-24 | a fresh reference holds undefined and remembers its nullRefs option |
| Utils.Ref.SetRef | src/utils/index.ts:25 | the new ref is NextRef of the option, the old ref and the argument |
| Utils.ReplayKeepsLastPresent | src/utils/index.ts:25 | after a series of calls: the last non-nullish argument, or the last argument with nullRefs |
| Utils.LastPresent | src/utils/index.ts:25 | either the starting value or one of the arguments, and present unless it is the starting value |
| Utils.SetRefIdempotent | src/utils/index.ts:25 | setting the same value twice is setting it once |
| Utils.DefaultIgnoresNullish | src/utils/utils.spec.ts:141-154 | without nullRefs, null and undefined keep 'foo'; false and 0 are stored |
| Utils.NullRefsStoresNullish | src/utils/utils.spec.ts:157-167 | with nullRefs, 'foo', null and undefined are each stored |
| Utils.Step | src/utils/index.ts:117 | a falsy value is returned as it is; an object yields its property or undefined |
| Utils.GetByPath | src/utils/index.ts:116-117 | a path without '.' is one property lookup; a falsy object comes back unchanged |
| Utils.WalkAppend | src/utils/index.ts:117 | walking a concatenation of keys walks the first list, then the second |
| Utils.FalsyStays | src/utils/index.ts:117 | a falsy value, such as undefined from a missing key, stays through all remaining keys |
| Utils.PathComposes | src/utils/index.ts:116-117 | the lookup of "p.q" is the lookup of q in the result of p |
| Utils.MissingKeyYieldsUndefined | src/utils/index.ts:116-117 | a missing key gives undefined, whatever path follows it |
| Utils.PrefixPathExample | src/utils/index.ts:116-117 | 'bar' of { bar: { value: 'foobar' } } is the whole inner object |
| Utils.NestedPathExample | src/utils/utils.spec.ts:56 | 'bar.value' of { bar: { value: 'foobar' } } is 'foobar' |
| Utils.MissingPathExample | src/utils/utils.spec.ts:57-58 | 'foo.foo' and 'foo.foo.bar' of the same object are undefined |
| Utils.Base64ImageToDataUrl | src/utils/index.ts:106 | the length is that of the prefix, the type, the marker and the payload together |
| Utils.DataUrlRoundTrip | src/utils/index.ts:106 | for a type without ';', the data URL parses back into that type and payload |
| Utils.DataUrlExamples | src/utils/utils.spec.ts:46-48 | ('one', 'png'), ('one') and ('') give the data URLs of the tests; the type defaults to 'jpg' |

## Left out

- UI and DOM code (toasts, alerts, modals, progress bars, media queries, router polling, history) is not part
  of this model. It is made of calls into Ionic and the browser.
- Timers and asynchronous code (`wait`, `debounce`, `throttle`, `raf`, `readFile`, `downloadFile`,
  `convertDataUrlToBlob`) is left out. It depends on the clock, timers, FileReader and fetch.
- `getRandomInt` and `uuid` are left out. They depend on `Math.random`.
- Floating-point helpers (`msToDecimalHours`, `getWorkedHours`, `bytes`, `formatBytes`) are left out. They
  depend on `toFixed`, `parseFloat`, `log10` and fractional sizes.
- Locale-, timezone- and clock-dependent moment code is left out: `mergeDateAndTime`, `formatAsTimestamp`,
  `formatAsDayAndMonth`, `isInFuture`, `isInPast`, `sortByDate` and `setMomentReference`.
- The helpers that depend on the clock and the date library are modelled differently:
  - `getNextWorkingDay` receives today as a day number instead of reading the clock.
  - Dates are whole days, so times within a day, daylight saving changes and the 23:59:59.999 of `endOf` are
    not modelled. Because of that, `isSame(..., 'day')` is day equality and `isBefore` against the end of the
    month is a strict day comparison.
- Build and test tooling (environment plugins, build metadata, global Sentry and Ionic setup, Stencil and Jest
  configuration) and the re-export module are not part of this model. They hold no logic of their own.
- `removeDataUrlPrefix` is left out: it uses an unanchored, backtracking regular expression over the first
  50 characters.
- `toStringOrEmptyString` is left out: it uses dynamic `toString` dispatch.
- `clone` is left out: its point is reference identity, which value semantics do not have.
- `sortByKey` is left out: it relies on JavaScript `<` across mixed types.
- `noop` is left out: it has no behaviour.
- `Time.OfMoment` abstracts a moment to its validity, hours and minutes. Its clock reading and time zone
  are not modelled.
- Arrays.CreateRange: fails only for a negative length. `new Array(n)` also throws a RangeError for a length
  of 2^32 or more and for a fractional length; the model has unbounded integers and no array size limit.
- JavaScript numbers are unbounded integers here. NaN, Infinity, fractions and the 2^53 limit are not
  modelled, and neither are the numeric corner cases of `Bool`.
- Equality is value equality. Where the source compares references with `===`, `indexOf` or a `Set`
  (objects in `removeFromArray`, the siblings and `makeArrayUnique`), the model compares values.
- Utils.Step: reads only an object's own keys; any other key is `undefined`. The source's `a && a[key]` also
  finds inherited properties, so `getByPath({}, 'constructor')` gives a function there. The model has no
  prototype chain.
- `getByPath` reads a property of a non-object truthy value (a string, number or array) as `undefined`.
  JavaScript would give `length`, an index or a method there.
- Case mapping is ASCII only. `toUpperCase`/`toLowerCase` of other Unicode letters, and strings as UTF-16
  code units, are not modelled.
- `compose` and `pipe` take a list of functions of one type `T -> T`. Chains whose functions change types
  are not modelled.
- The flag predicates read flags of type `Option<bool>`: an absent flag or a boolean. Arbitrary property
  values under those names are not modelled.
- `filterAndJoin` takes parts of type `string | false | null | undefined`, as its signature declares.
- Utils.Base64ImageToDataUrl: its own contract states only the length. What the URL holds is stated through its
  inverse, `DataUrlRoundTrip`, which needs an image type without ';'.
- Time.ToString: stated for values from 0 to 5999 only. It prints exactly two digits of hours there. Larger
  values print three or more hour digits and negative values cannot arise from `add`; neither case is stated.
