# time_only in Dafny

The `time_only` Ruby library has two classes for a time of day with no date: `TimeOnly`
(`lib/time_only.rb`) and its older variant `TimeOfDay` (`lib/time_of_day.rb`). Both store a
count of seconds since midnight in `[0, 86400)`. Construction reduces any count onto that dial with
Ruby's flooring `%`, so `-10` is `23:59:50`. Both classes have:

- addition and subtraction of seconds, which wrap past midnight;
- `succ`;
- equality and `<=>` on the second count;
- the `hour`, `min` and `sec` accessors, and `to_a`, `to_i` and `to_s`.

The classes differ in three ways:

- **Validation.** `TimeOnly`'s three-argument constructor raises an `ArgumentError` for an hour,
  minute or second out of range. `TimeOfDay`'s carries them over, so `new(24, 0, 0)` is midnight.
- **`strftime`.** Only `TimeOnly` has it.
- **`to_s`.** `TimeOnly#to_s` is `strftime('%T')`. `TimeOfDay#to_s` is `'%0.2d:%0.2d:%0.2d' % to_a`.

`TimeOnly#strftime` is two rewrites of a copy of the format string:

1. Phase 1 replaces each combination directive by the primitive directives it stands for:
   - `%r` becomes `%I:%M:%S %p`;
   - `%R` becomes `%H:%M`;
   - `%T` and `%X` become `%H:%M:%S`.
2. Phase 2 scans once, left to right. It replaces each token `%-?[HkIlPpMSnt%]` by its value:
   zero-padded, blank-padded or, with the `-` flag, unpadded. It also applies the 12-hour
   rule of `twelve_hour` and the meridian rule of `am?`.

Neither phase looks again at text it produced. A `%` before any other character is copied.

Modules:

- **`Decimal`**: the decimal numerals Ruby prints.
  - `Integer#to_s`.
  - The two-digit form and the `%.Nd` conversion.
- **`Clock`**: what the two classes share.
  - The dial's constants and `mod_by_day`.
  - The `ArgumentError` result of a constructor and the arity message.
  - The arithmetic that splits a second count into fields.
- **`TimeOnly`**: the class as a value. The datatype holds its one field.
- **`TimeOnlyFormat`**: `strftime`, its private helpers and `to_s`.
  - Functions `ExpandCombinations` and `Substitute` define the two phases.
  - Methods `ExpandPass`, `SubstitutePass` and `Strftime` compute them with loops over the
    characters and are proved equal to those functions.
  - The lemmas state what the rewrite promises: the directive table, the combinations, no
    rescanning, idempotence of phase 1, concatenation, and the documented examples.
- **`TimeOfDay`**: the older class, with the scenarios of its test file.
- **`Variants`**: where the two classes agree and where they differ.

Behaviour of the code that its own comments describe differently. The model follows the code:

- The directive table at `lib/time_only.rb:140-141` gives `%I` as `01..12` and `%l` as `1..12`.
  `twelve_hour` keeps hour 0, so at midnight `%I` is `00` and `%l` is ` 0`
  (`TimeOnlyFormat.MidnightTwelveHour`).
- The example at `lib/time_only.rb:165-166` shows `pm` for 01:03:56. That time is before noon, so the
  code gives `am` (`TimeOnlyFormat.ExampleSentence`).
- The directive table at `lib/time_only.rb:145` gives `%S` as `00..60`. A `TimeOnly` never holds
  second 60, so `%S` is `00..59`.
- `%-P`, `%-p`, `%-n`, `%-t` and `%-%` are matched by the phase 2 pattern, but the block has no
  branch for them. The block returns nil, and `gsub` turns nil into the empty string, so each
  renders as nothing (`TimeOnlyFormat.FlaggedWithoutBranch`).

## Model

| member | source | states |
|---|---|---|
| Decimal.NatToString | lib/time_only.rb:253-259 | `Integer#to_s` of a non-negative number: all digits, denoting the number, one digit exactly below 10, two from 10 to 99, no leading zero |
| Decimal.Precision | lib/time_of_day.rb:74-76 | `%.Nd`: at least N characters, the numeral right-aligned, zeros before it |
| Decimal.PrecisionTwo | lib/time_of_day.rb:74-76 | `%.2d` of a number below 100 is its two-digit form |
| Decimal.TwoDigitsValue | lib/time_only.rb:253-255 | the two-digit form is two digits that read back as the number |
| Decimal.TwoDigitsInjective | lib/time_only.rb:253-255 | different numbers below 100 have different two-digit forms |
| Decimal.ColonFields | lib/time_of_day.rb:74-76 | three two-digit fields joined by colons are 8 characters, colons at 2 and 5, each field readable back |
| Clock.ModByDay | lib/time_only.rb:245-247 | the result lies in `[0, 86400)` and is congruent to the argument modulo a day |
| Clock.ModByDayUnique | lib/time_only.rb:245-247 | the result is the only second of the day congruent to the argument |
| Clock.ModByDayNear | lib/time_only.rb:245-247 | identity on the dial; within one day above or below, exactly one day is removed or added |
| Clock.ModByDayPeriodic | lib/time_only.rb:245-247 | shifting by whole days does not change the result |
| Clock.ModByDayAdd | lib/time_only.rb:245-247 | reducing before or after adding gives the same result |
| Clock.ArityMessage | lib/time_only.rb:54-54 | the definition of the message both constructors raise for a wrong argument count (also lib/time_of_day.rb:22); it has no contract of its own |
| Clock.Recombine | lib/time_only.rb:109-123 | hour, minute and second as the accessors derive them are in range and recombine to the count |
| Clock.Split | lib/time_only.rb:45-52 | in-range fields combine to a second of the day from which the accessors give them back |
| TimeOnly.New | lib/time_only.rb:41-58 | one argument: always a time congruent to it; three: a time iff each field is in range, then exactly `h*3600 + m*60 + s`, else the first failing field's exact message; otherwise the arity error |
| TimeOnly.At | lib/time_only.rb:16-18 | `at(s)` is `new(s)`, and is `s` itself on the dial |
| TimeOnly.Now | lib/time_only.rb:20-24 | from a clock reading: a time whose `to_a` is the reading, and an error exactly for a leap second |
| TimeOnly.ToI | lib/time_only.rb:231-233 | the stored count, in `[0, 86400)` |
| TimeOnly.Add | lib/time_only.rb:74-76 | the result is congruent to `to_i + n`; exactly `to_i + n`, or one day less or more, when within a day of the dial |
| TimeOnly.Sub | lib/time_only.rb:92-94 | the same for `to_i - n`, rolling backward below midnight |
| TimeOnly.Succ | lib/time_only.rb:219-221 | one second later; 23:59:59 is followed by midnight |
| TimeOnly.Equal | lib/time_only.rb:96-98 | `==` holds iff the two times are the same value |
| TimeOnly.Compare | lib/time_only.rb:101-103 | -1, 0 or 1 exactly as `to_i` is less, equal or greater |
| TimeOnly.Hour | lib/time_only.rb:109-111 | below 24, and the hour whose span holds `to_i` |
| TimeOnly.Min | lib/time_only.rb:113-115 | below 60, and the minute of that hour whose span holds `to_i` |
| TimeOnly.Sec | lib/time_only.rb:121-123 | below 60, and congruent to `to_i` modulo a minute |
| TimeOnly.IsAm | lib/time_only.rb:105-107 | true iff `to_i` is before noon |
| TimeOnly.IsPm | lib/time_only.rb:117-119 | true iff `to_i` is noon or later, and always the negation of `am?` |
| TimeOnly.ToA | lib/time_only.rb:223-225 | three fields in range that recombine to `to_i` |
| TimeOnly.NewToA | lib/time_only.rb:223-225 | `new(*to_a)` rebuilds the time |
| TimeOnly.ToANew | lib/time_only.rb:45-52 | valid fields are accepted and come back out of `to_a` unchanged |
| TimeOnly.AtPeriodic | lib/time_only.rb:16-18 | `at(s + 86400) == at(s)` |
| TimeOnly.AddAdd | lib/time_only.rb:74-76 | `(t + a) + b == t + (a + b)` |
| TimeOnly.AddDay | lib/time_only.rb:74-76 | adding a whole day or nothing is the identity |
| TimeOnly.SubAdd | lib/time_only.rb:92-94 | `(t + n) - n == t` and `(t - n) + n == t` |
| TimeOnly.SuccIsAddOne | lib/time_only.rb:219-221 | `succ == t + 1` and `succ - 1 == t` |
| TimeOnly.CompareTotalOrder | lib/time_only.rb:101-103 | `<=>` is antisymmetric, transitive and total, is 0 exactly on `==`, with midnight least and 23:59:59 greatest |
| TimeOnly.SuccWrapsBelow | lib/time_only.rb:219-221 | `succ` of 23:59:59 compares below it; every other `succ` compares above |
| TimeOnly.MeridianByHour | lib/time_only.rb:105-119 | `am?` iff hour below 12, `pm?` iff 12 or more |
| TimeOnly.Examples | lib/time_only.rb:60-94 | the documented `+` and `-` examples, `-10` wrapping to 86390, 12:34:56 as 45296, hour 24 refused, and two arguments refused with the exact arity message |
| TimeOnlyFormat.TwelveHour | lib/time_only.rb:249-251 | at most 12; `hour - 12` past noon, the hour itself from 0 to 12; 0 exactly at hour 0 |
| TimeOnlyFormat.ZeroPad | lib/time_only.rb:253-255 | the two-digit form below 100 |
| TimeOnlyFormat.BlankPad | lib/time_only.rb:257-259 | a space and the digit below 10; the two-digit form from 10 to 99 |
| TimeOnlyFormat.ReadingsOf | lib/time_only.rb:183-216 | what the block reads is in range: hour below 24, twelve-hour at most 12, minute and second below 60 |
| TimeOnlyFormat.TokenLength | lib/time_only.rb:183 | the pattern's match at the start is 0, 2 or 3 characters and fits in the string |
| TimeOnlyFormat.ToS | lib/time_only.rb:236-238 | `strftime('%T')` is the zero-padded hour, minute and second joined by colons |
| TimeOnlyFormat.Expansion | lib/time_only.rb:173-180 | the definition of phase 1's block: `%r`, `%R`, `%T`/`%X` to their primitive directives; it has no contract of its own |
| TimeOnlyFormat.ExpandCombinations | lib/time_only.rb:172-181 | the definition of phase 1, a left-to-right non-overlapping rewrite of `%[rRTX]`; it has no contract of its own, and `ExpandPass` and the phase 1 lemmas are proved against it |
| TimeOnlyFormat.Replacement | lib/time_only.rb:184-215 | the definition of phase 2's block, one branch per token and the empty string where no branch matches; it has no contract of its own |
| TimeOnlyFormat.Substitute | lib/time_only.rb:183-216 | the definition of phase 2, one scan that replaces each matched token and copies every other character; it has no contract of its own, and `SubstitutePass` and the phase 2 lemmas are proved against it |
| TimeOnlyFormat.Format | lib/time_only.rb:169-217 | the definition of what `strftime` returns, phase 2 of phase 1; it has no contract of its own, and `Strftime` and the `Format*` lemmas are proved against it |
| TimeOnlyFormat.ExpandPass | lib/time_only.rb:170-181 | the loop computes phase 1 exactly |
| TimeOnlyFormat.SubstitutePass | lib/time_only.rb:183-216 | the loop computes phase 2 exactly |
| TimeOnlyFormat.SubstituteStep | lib/time_only.rb:183-216 | at each position the scan either copies one character or replaces the token found there, and resumes after it |
| TimeOnlyFormat.Strftime | lib/time_only.rb:169-217 | `strftime` is phase 2 applied to phase 1 applied to the format |
| TimeOnlyFormat.ExpandFirst | lib/time_only.rb:172-181 | phase 1 keeps the first character |
| TimeOnlyFormat.ExpandCompletes | lib/time_only.rb:172-181 | phase 1 leaves no `%` followed by a combination letter |
| TimeOnlyFormat.ExpandIdentity | lib/time_only.rb:172-181 | a string without combination directives passes phase 1 unchanged |
| TimeOnlyFormat.ExpandIdempotent | lib/time_only.rb:172-181 | phase 1 applied twice is phase 1 applied once |
| TimeOnlyFormat.ExpandAppend | lib/time_only.rb:172-181 | phase 1 distributes over a concatenation whose left part does not end in `%` |
| TimeOnlyFormat.ExpandEachCombination | lib/time_only.rb:172-181 | the four combination directives expand to the documented primitive directives |
| TimeOnlyFormat.ExpandAfterPercent | lib/time_only.rb:172-172 | phase 1 does not treat `%%` as an escape: `%%T` becomes `%%H:%M:%S` |
| TimeOnlyFormat.TokenLengthAppend | lib/time_only.rb:183-183 | a match at the start does not depend on what follows a part that does not end inside a token |
| TimeOnlyFormat.SubstituteAppend | lib/time_only.rb:183-216 | phase 2 distributes over a concatenation whose left part does not end inside a token |
| TimeOnlyFormat.SubstituteLiteral | lib/time_only.rb:183-216 | text without `%` is copied verbatim by phase 2 |
| TimeOnlyFormat.SubstitutePercentNotRescanned | lib/time_only.rb:213-214 | the `%` produced by `%%` is never joined with what follows it |
| TimeOnlyFormat.SubstituteDirective | lib/time_only.rb:183-216 | an unflagged token is replaced by its value and the scan resumes after it |
| TimeOnlyFormat.SubstituteFlagged | lib/time_only.rb:183-216 | a flagged token is replaced by its value and the scan resumes after it |
| TimeOnlyFormat.SubstituteChar | lib/time_only.rb:183-216 | a character other than `%` is copied and the scan resumes after it |
| TimeOnlyFormat.SubstituteSpell | lib/time_only.rb:183-216 | on a format read as text and tokens, phase 2 keeps the text and replaces each token |
| TimeOnlyFormat.SpellNoCombination | lib/time_only.rb:172-181 | such a format without `%%` holds no combination directive |
| TimeOnlyFormat.FormatSpell | lib/time_only.rb:169-217 | hence `strftime` of such a format renders it piece by piece |
| TimeOnlyFormat.FormatLiteral | lib/time_only.rb:169-217 | text without `%` comes out of `strftime` unchanged |
| TimeOnlyFormat.FormatDirective | lib/time_only.rb:183-216 | a primitive directive alone, flagged or not, becomes the block's value for it |
| TimeOnlyFormat.ReplacementValues | lib/time_only.rb:184-215 | the block's value for every letter, in terms of the accessors and the two-digit form |
| TimeOnlyFormat.FormatHour | lib/time_only.rb:185-190 | `%H` zero-padded, `%k` blank-padded, `%-H` and `%-k` unpadded 24-hour hour |
| TimeOnlyFormat.FormatTwelveHour | lib/time_only.rb:191-196 | `%I`, `%l`, `%-I`, `%-l`: the same paddings of the 12-hour hour |
| TimeOnlyFormat.FormatMeridian | lib/time_only.rb:197-200 | `%P` is `am` and `%p` is `AM` exactly before noon, `pm`/`PM` from noon |
| TimeOnlyFormat.FormatMinSec | lib/time_only.rb:201-208 | `%M` and `%S` zero-padded, `%-M` and `%-S` unpadded |
| TimeOnlyFormat.FormatLiterals | lib/time_only.rb:209-214 | `%n` is a newline, `%t` a tab, `%%` a percent sign |
| TimeOnlyFormat.PaddedWidth | lib/time_only.rb:253-259 | every padded directive gives exactly two characters |
| TimeOnlyFormat.FlaggedWithoutBranch | lib/time_only.rb:183-216 | `%-P`, `%-p`, `%-n`, `%-t`, `%-%` render as the empty string |
| TimeOnlyFormat.UnmatchedPassThrough | lib/time_only.rb:183-183 | `%` or `%-` before a letter neither phase knows is copied verbatim |
| TimeOnlyFormat.FormatExpands | lib/time_only.rb:172-181 | each combination directive reaches phase 2 as its expansion |
| TimeOnlyFormat.SubstituteClock24 | lib/time_only.rb:185-208 | phase 2 of `%H:%M:%S` is the three two-digit fields with colons |
| TimeOnlyFormat.SubstituteClock24Short | lib/time_only.rb:185-204 | phase 2 of `%H:%M` is hour and minute in two digits with a colon |
| TimeOnlyFormat.SubstituteClock12 | lib/time_only.rb:191-206 | phase 2 of `%I:%M:%S %p` is the 12-hour clock with `AM`/`PM` |
| TimeOnlyFormat.FormatClock24 | lib/time_only.rb:178-179 | `%T` is `HH:MM:SS` in two-digit fields, and `%X` is the same |
| TimeOnlyFormat.FormatClock24Short | lib/time_only.rb:176-177 | `%R` is `HH:MM` |
| TimeOnlyFormat.FormatClock12 | lib/time_only.rb:174-175 | `%r` is the 12-hour `HH:MM:SS` followed by a space and `AM` before noon, `PM` from noon |
| TimeOnlyFormat.ToSShape | lib/time_only.rb:236-238 | `to_s` is 8 characters with colons at 2 and 5, whose fields read back as hour, minute and second |
| TimeOnlyFormat.ToSInjective | lib/time_only.rb:236-238 | distinct times print differently |
| TimeOnlyFormat.MidnightTwelveHour | lib/time_only.rb:249-251 | at hour 0, `%I` is `00`, `%l` is ` 0` and `%-I` is `0` |
| TimeOnlyFormat.NoRescan | lib/time_only.rb:169-217 | neither phase rescans its output: `%%T` renders as `%H:` then minutes and seconds |
| TimeOnlyFormat.ExampleReadings | lib/time_only.rb:105-123 | the hour, 12-hour hour, minute, second and meridian at the example times |
| TimeOnlyFormat.ExampleTwelveHourClock | lib/time_only.rb:162-163 | `strftime('%r')` at 12:34:56 is `12:34:56 PM`, and at 01:00:12 it is `01:00:12 AM` |
| TimeOnlyFormat.ExampleSentence | lib/time_only.rb:165-166 | the documented sentence at 01:03:56 is `The time is 1:03:56 am.` |
| TimeOnlyFormat.ExampleDirectives | lib/time_only.rb:191-200 | at 13:00 `%I` is `01` and `%p` is `PM`; at 08:00 `%k` is ` 8` |
| TimeOnlyFormat.ExamplePrinted | lib/time_only.rb:67-89 | the documented `+` and `-` results print as `00:00:07` and `23:59:57` |
| TimeOfDay.New | lib/time_of_day.rb:15-26 | a time iff one or three arguments, congruent to the count or to `h*3600 + m*60 + s` with no range check; otherwise the arity error |
| TimeOfDay.At | lib/time_of_day.rb:8-10 | `at(s)` is `new(s)`, and is `s` itself on the dial |
| TimeOfDay.ToI | lib/time_of_day.rb:69-71 | the stored count, in `[0, 86400)` |
| TimeOfDay.Add | lib/time_of_day.rb:28-30 | the result is congruent to `to_i + n`; exact within a day of the dial |
| TimeOfDay.Sub | lib/time_of_day.rb:32-34 | the same for `to_i - n` |
| TimeOfDay.Succ | lib/time_of_day.rb:57-59 | one second later; 23:59:59 is followed by midnight |
| TimeOfDay.Equal | lib/time_of_day.rb:36-38 | `==` holds iff the two times are the same value |
| TimeOfDay.Compare | lib/time_of_day.rb:41-43 | -1, 0 or 1 exactly as `to_i` is less, equal or greater |
| TimeOfDay.Hour | lib/time_of_day.rb:45-47 | below 24, and the hour whose span holds `to_i` |
| TimeOfDay.Min | lib/time_of_day.rb:49-51 | below 60, and the minute of that hour whose span holds `to_i` |
| TimeOfDay.Sec | lib/time_of_day.rb:53-55 | below 60, and congruent to `to_i` modulo a minute |
| TimeOfDay.ToA | lib/time_of_day.rb:61-63 | three fields in range that recombine to `to_i` |
| TimeOfDay.ToS | lib/time_of_day.rb:74-76 | `'%0.2d:%0.2d:%0.2d' % to_a` is the two-digit hour, minute and second joined by colons |
| TimeOfDay.NewNeverRejects | lib/time_of_day.rb:19-20 | three arguments of any value are accepted, as their combined count |
| TimeOfDay.NewWraps | lib/time_of_day.rb:19-25 | hour 24 is midnight, minute 60 the next hour, second -1 the previous day's last second |
| TimeOfDay.NewToA | lib/time_of_day.rb:61-63 | `new(*to_a)` rebuilds the time |
| TimeOfDay.ToANew | lib/time_of_day.rb:19-25 | in-range fields come back out of `to_a` unchanged |
| TimeOfDay.AddAdd | lib/time_of_day.rb:28-30 | `(t + a) + b == t + (a + b)` |
| TimeOfDay.SubAdd | lib/time_of_day.rb:32-34 | `(t + n) - n == t` and `(t - n) + n == t` |
| TimeOfDay.ToSShape | lib/time_of_day.rb:74-76 | `to_s` is 8 characters with colons at 2 and 5, whose fields read back as hour, minute and second |
| TimeOfDay.ToSInjective | lib/time_of_day.rb:74-76 | distinct times print differently |
| TimeOfDay.ScenarioConstruction | spec/time_of_day_spec.rb:4-22 | `new(45296)` and `new(12, 34, 56)` are 45296, `new(1, 2)` raises the arity error, `at(300)` is 300 |
| TimeOfDay.ScenarioArithmetic | spec/time_of_day_spec.rb:27-45 | `new(0) + 1 == new(1)`, `new(1) - 1 == new(0)`, and `new(0).succ == new(1)` |
| TimeOfDay.ScenarioComparison | spec/time_of_day_spec.rb:47-75 | `==` on equal and different times, and `<=>` giving 0, -1 and 1 |
| TimeOfDay.ScenarioFields | spec/time_of_day_spec.rb:77-130 | `new(2, 4, 6)` has fields 2, 4, 6 and prints `02:04:06`; `new(2, 3, 4).to_a` is `[2, 3, 4]` |
| Variants.SecondCountsAgree | lib/time_of_day.rb:15-26 | both classes build the same second from one count |
| Variants.FieldsAgree | lib/time_only.rb:45-52 | `TimeOfDay` always accepts three fields; `TimeOnly` accepts them iff they are in range, and then both build the same second |
| Variants.ArityErrorsAgree | lib/time_only.rb:53-54 | both classes raise the same error for a wrong argument count |
| Variants.HourTwentyFour | lib/time_only.rb:48-48 | `TimeOnly` refuses hour 24 with the hours message; `TimeOfDay` reads it as midnight |
| Variants.PrintingAgrees | lib/time_only.rb:236-238 | the same second prints the same through `strftime('%T')` and through `String#%` |
| Variants.ArithmeticAgrees | lib/time_of_day.rb:28-34 | adding or subtracting the same count from the same second gives the same second in both classes |

## Left out

- A format string is a sequence of valid characters. The encoding errors of `gsub!` and `gsub` are
  not modelled: `ArgumentError` on invalid bytes such as `"\xFF%H"`, and
  `Encoding::CompatibilityError` on a format in an encoding that is not ASCII-compatible.
- `TimeOnly.now` reads the wall clock with `Time.now`. `TimeOnly.Now` takes the clock's hour,
  minute and second as parameters instead.
- `TimeOfDay.now` is an empty method returning nil, so it has nothing to model.
- `to_f` is a floating-point widening of `to_i`, and floating point is not modelled.
- `VERSION` is not modelled. The aliases `eql?`, `tv_sec`, `asctime`, `ctime` and `inspect` behave as
  their targets and are not modelled separately.
- Ruby's duck typing is not modelled. `==` and `<=>` accept any object with `to_i`, and `+` accepts
  a Float. The model takes a time of its own class and integer arguments.
- The operators `Comparable` derives from `<=>`, such as `<` and `between?`, are not modelled.
- The `||=` caches of `hour`, `min` and `sec` are not modelled. The accessors are functions of
  the stored count.
- The times are values, so object identity is not modelled. The test file's "returns a new object"
  checks are outside the model.
- `TimeOnlyFormat.Replacement` does not model the block's calls to the accessors. It reads a
  `Readings` record built from them by `ReadingsOf`; the accessors have no side effects, so this
  is the same value.
- `TimeOnlyFormat.ExpandPass` and `TimeOnlyFormat.SubstitutePass` do not model the regular-expression
  engine of `gsub!` and `gsub`. Matching starts at each position and the match is found from the
  first character. For the two patterns this is a check of two or three characters.
- `Decimal.NatToString` and `Decimal.Precision` cover non-negative numbers only. Every number this
  library prints is in range.
- TimeOnly.Now: requires a reading in the ranges `Time.now` gives (hour 0..23, minute 0..59,
  second 0..60), because the reading comes from the clock and not from a caller. The leap second
  60 is allowed in, and the result for it is the constructor's error.
