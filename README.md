# Duration formatter model

A Dafny model of `DurationFormatter`, the class that the LuckPerms placeholder
expansion uses to turn a time span into one Russian phrase, such as "5 минут" in
long mode or "5м" in concise mode.

The formatter takes a whole number of seconds. It walks the ordering of units it
is given. Both built-in orderings run from longest to shortest: years, months,
weeks, days, hours, minutes, seconds, or days down to seconds.
It divides the seconds by each unit's length and reports only the first unit
whose quotient is positive. If no quotient is positive, it reports zero
seconds. It then picks a form for the unit's name: `short` in concise mode,
otherwise `singular` when the count is 1 and `plural` for any other count. The
count is substituted into the template found in a fixed 7 × 3 table.

The model has two modules:

- `DurationFormatting` (`DurationFormatter.dfy`) holds the class. It has the unit
  lengths, the two orderings `FULL_UNITS` and `DAY_UNITS`, the formatter's two
  final fields as the datatype `Formatter` with the presets `LONG`, `CONCISE` and
  `CONCISE_LOW_ACCURACY`, the translation table, `formatPart` and both
  overloads of `format`. `Format(fmt, seconds)` is `format(duration)`, and
  `FormatUnits(fmt, units, seconds)` is `format(units, duration)`. Each returns a
  `Phrase`: the structured result `Part(amount, unit, form)` together with the
  rendered string.
- `Decimal` (`Decimal.dfy`) holds the decimal text that `String.format("%s", amount)`
  writes for a non-negative count. It has the inverse that reads the digits back,
  and the fact that a run of digits followed by a unit name splits in only one way.

The class is pure, so the model is pure too. Its fields are final and its table
is immutable. The `for` loop in `format` is a first-match search with an early
return, so the model writes it as the recursive function `FirstPositive` over a
sequence of units.

Three facts about the Java code shape the model:

- `seconds / unit.getDuration().getSeconds()` is Java `long` division, which
  truncates toward zero. The model writes it out as `TruncDiv`.
- Every quotient of a duration of 0 seconds or less is at most zero, so any such
  duration, negative ones included, formats as the zero-seconds phrase
  (`NonPositiveDurationIsZeroSeconds`). The code neither rejects nor clamps
  negative durations, and neither does the model.
- The translation table is Russian: the zero-seconds phrase is "0 секунд" in
  long mode and "0с" in concise mode.

## Model

| member | source | states |
|---|---|---|
| `DurationFormatting.Length` | common/src/main/java/me/lucko/luckperms/placeholders/DurationFormatter.java:96 | Every unit is at least one second long, so the division never divides by zero. Only SECONDS is exactly one second long. |
| `DurationFormatting.NewFormatter` | common/src/main/java/me/lucko/luckperms/placeholders/DurationFormatter.java:66-68 | The one-argument constructor keeps the given mode and stores `Integer.MAX_VALUE` as the accuracy. This is how `LONG` and `CONCISE` get theirs. |
| `DurationFormatting.TruncDiv` | common/src/main/java/me/lucko/luckperms/placeholders/DurationFormatter.java:96 | Java's `long` quotient by a positive divisor, which truncates toward zero. For a non-negative dividend it is the floor quotient (q·b ≤ a < q·b + b). For a negative dividend it is at most 0 and rounds up (q·b − b < a ≤ q·b). It is positive exactly when the dividend is at least the divisor. |
| `DurationFormatting.Quotient` | common/src/main/java/me/lucko/luckperms/placeholders/DurationFormatter.java:96 | `seconds / unit.getDuration().getSeconds()` is positive exactly when the unit's length fits into the duration (seconds ≥ length). So the loop skips exactly the units longer than the duration. |
| `DurationFormatting.FirstPositive` | common/src/main/java/me/lucko/luckperms/placeholders/DurationFormatter.java:95-103 | The loop's search. It returns the first index whose quotient is positive, and every earlier quotient is at most 0. It returns nothing only when no quotient in the ordering is positive. |
| `DurationFormatting.Template` | common/src/main/java/me/lucko/luckperms/placeholders/DurationFormatter.java:109-131 | The table is defined for all 7 units × 3 forms, so every key `formatPart` can build is present. Each entry has a single `%s` at its start, and its unit name does not start with a digit. |
| `DurationFormatting.TemplateInjective` | common/src/main/java/me/lucko/luckperms/placeholders/DurationFormatter.java:109-131 | No two (unit, form) keys share a template. |
| `DurationFormatting.Substitute` | common/src/main/java/me/lucko/luckperms/placeholders/DurationFormatter.java:136 | `String.format` loses nothing: the text opens with a run of digits exactly as long as the count's decimal form, that run reads back as the count, and what follows it is the template after its placeholder. |
| `DurationFormatting.Render` | common/src/main/java/me/lucko/luckperms/placeholders/DurationFormatter.java:136 | `String.format(TRANSLATIONS.get(key), amount)`: the phrase opens with digits that read back as the count, followed by the name of the part's unit in the part's form. |
| `DurationFormatting.FormOf` | common/src/main/java/me/lucko/luckperms/placeholders/DurationFormatter.java:134 | The form is `short` exactly in concise mode. It is `singular` exactly in verbose mode with amount 1, and `plural` exactly in verbose mode with any other amount. |
| `DurationFormatting.FormatPart` | common/src/main/java/me/lucko/luckperms/placeholders/DurationFormatter.java:133-137 | The phrase reports the given amount and unit. Its form is short exactly in concise mode and singular exactly in verbose mode with amount 1. Its text reads back as the amount followed by the unit's name in that form. |
| `DurationFormatting.RenderInjective` | common/src/main/java/me/lucko/luckperms/placeholders/DurationFormatter.java:133-137 | A rendered phrase holds one count and one unit name, and it determines them: two parts that render to the same string are equal. |
| `DurationFormatting.FormatUnits` | common/src/main/java/me/lucko/luckperms/placeholders/DurationFormatter.java:92-106 | The returned text is the rendering of the returned part, in the form the mode picks. A positive count names a unit of the supplied ordering. |
| `DurationFormatting.Format` | common/src/main/java/me/lucko/luckperms/placeholders/DurationFormatter.java:81-83 | `format(duration)` over years down to seconds. The text is the rendering of the part, in the form the mode picks. From one second up, the count is at least 1, it is the number of whole units in the duration, and the unit is the longest of all seven that fits. At 0 seconds or less it is 0 SECONDS. |
| `DurationFormatting.FirstPositiveFindsIt` | common/src/main/java/me/lucko/luckperms/placeholders/DurationFormatter.java:95-102 | The search returns exactly the first position whose quotient is positive. |
| `DurationFormatting.SelectsFirstPositive` | common/src/main/java/me/lucko/luckperms/placeholders/DurationFormatter.java:95-102 | When position i is the first with a positive quotient, the result names `units[i]`, and its count is that quotient. |
| `DurationFormatting.SelectedIsFirstPositive` | common/src/main/java/me/lucko/luckperms/placeholders/DurationFormatter.java:95-102 | Conversely, a positive count always comes from the first position with a positive quotient, and it equals that quotient. |
| `DurationFormatting.EarlierUnitsAreLonger` | common/src/main/java/me/lucko/luckperms/placeholders/DurationFormatter.java:96-100 | The selected unit fits into the duration. Every unit skipped before it is longer than the whole duration. |
| `DurationFormatting.NoPositiveQuotientFallsBack` | common/src/main/java/me/lucko/luckperms/placeholders/DurationFormatter.java:98-105 | When no quotient is positive, the result is amount 0 of SECONDS. |
| `DurationFormatting.NonPositiveDurationIsZeroSeconds` | common/src/main/java/me/lucko/luckperms/placeholders/DurationFormatter.java:93-105 | For 0 or negative seconds, over any ordering, the result is 0 SECONDS. The text is "0 секунд" in verbose mode and "0с" in concise mode. |
| `DurationFormatting.LongestFittingUnit` | common/src/main/java/me/lucko/luckperms/placeholders/DurationFormatter.java:95-102 | Over an ordering of strictly shrinking units, if any unit of the ordering fits, a unit is selected, and it is the longest unit of the ordering that fits. |
| `DurationFormatting.FullUnitsDescending` | common/src/main/java/me/lucko/luckperms/placeholders/DurationFormatter.java:46-61 | `FULL_UNITS` and `DAY_UNITS` both list units from longest to shortest. |
| `DurationFormatting.CompleteOrderingAlwaysSelects` | common/src/main/java/me/lucko/luckperms/placeholders/DurationFormatter.java:95-102 | Over a descending ordering that holds all seven units, at least one second always gives a count of at least 1. The count is the number of whole units in the duration, and the unit is the longest of all seven that fits. |
| `DurationFormatting.FullUnitsAlwaysSelect` | common/src/main/java/me/lucko/luckperms/placeholders/DurationFormatter.java:46-54 | `FULL_UNITS` with at least one second reports a count of at least 1. The count is the number of whole units in the duration, and the unit is the longest of all seven that fits. |
| `DurationFormatting.DayUnitsNeverLongerThanDays` | common/src/main/java/me/lucko/luckperms/placeholders/DurationFormatter.java:56-61 | With `DAY_UNITS` the reported unit is always days, hours, minutes or seconds, never years, months or weeks. |
| `DurationFormatting.DayUnitsCountDays` | common/src/main/java/me/lucko/luckperms/placeholders/DurationFormatter.java:56-61 | With `DAY_UNITS` and a duration of at least a day, the result reports whole days, even when that is several weeks. |
| `DurationFormatting.AccuracyIsIgnored` | common/src/main/java/me/lucko/luckperms/placeholders/DurationFormatter.java:63-73 | Two formatters with the same `concise` flag give the same result on every input, whatever their `accuracy`. |
| `DurationFormatting.ConciseLowAccuracyIsConcise` | common/src/main/java/me/lucko/luckperms/placeholders/DurationFormatter.java:42-44 | The `CONCISE_LOW_ACCURACY` and `CONCISE` presets agree on every duration. |
| `DurationFormatting.UnderAMinute` | common/src/main/java/me/lucko/luckperms/placeholders/DurationFormatter.java:95-105 | From 1 to 59 seconds, the count is the seconds themselves in SECONDS. In verbose mode the form is singular only for 1. |
| `DurationFormatting.ZeroExamples` | common/src/main/java/me/lucko/luckperms/placeholders/DurationFormatter.java:105 | Zero seconds formats as "0 секунд" in long mode and "0с" in concise mode. |
| `DurationFormatting.OneSecondExample` | common/src/main/java/me/lucko/luckperms/placeholders/DurationFormatter.java:134 | 1 second formats as "1 секунда" in long mode. |
| `DurationFormatting.TwoSecondsExample` | common/src/main/java/me/lucko/luckperms/placeholders/DurationFormatter.java:134 | 2 seconds formats as "2 секунд" in long mode. |
| `DurationFormatting.MinutesRange` | common/src/main/java/me/lucko/luckperms/placeholders/DurationFormatter.java:95-102 | From 60 up to 3599 seconds, `format(duration)` reports whole minutes, in the form the mode picks. |
| `DurationFormatting.HoursRange` | common/src/main/java/me/lucko/luckperms/placeholders/DurationFormatter.java:95-102 | From 3600 up to 86399 seconds, `format(duration)` reports whole hours, in the form the mode picks. |
| `DurationFormatting.SecondsPhrases` | common/src/main/java/me/lucko/luckperms/placeholders/DurationFormatter.java:128-129 | Table entries as rendered: 1 SECONDS singular is "1 секунда", and 2 SECONDS plural is "2 секунд". |
| `DurationFormatting.MinutesPhrases` | common/src/main/java/me/lucko/luckperms/placeholders/DurationFormatter.java:126-127 | Table entries as rendered: 1 MINUTES is "1 минута" singular and "1м" short, and 5 MINUTES short is "5м". |
| `DurationFormatting.HoursPhrases` | common/src/main/java/me/lucko/luckperms/placeholders/DurationFormatter.java:123-124 | Table entries as rendered: 1 HOURS is "1 час" singular and "1ч" short. |
| `DurationFormatting.OneMinuteLongExample` | common/src/main/java/me/lucko/luckperms/placeholders/DurationFormatter.java:95-102 | 60 seconds formats as "1 минута" in long mode: the minute takes over from the seconds. |
| `DurationFormatting.OneMinuteConciseExample` | common/src/main/java/me/lucko/luckperms/placeholders/DurationFormatter.java:95-102 | 60 seconds formats as "1м" in concise mode. |
| `DurationFormatting.FiveMinutesExample` | common/src/main/java/me/lucko/luckperms/placeholders/DurationFormatter.java:134 | 300 seconds formats as "5м": in concise mode the template does not change with the count, only the number does. |
| `DurationFormatting.OneHourLongExample` | common/src/main/java/me/lucko/luckperms/placeholders/DurationFormatter.java:95-102 | 3661 seconds formats as "1 час" in long mode. The lower minute and second are dropped. |
| `DurationFormatting.OneHourConciseExample` | common/src/main/java/me/lucko/luckperms/placeholders/DurationFormatter.java:95-102 | 3661 seconds formats as "1ч" in concise mode. |
| `Decimal.ToDecimal` | common/src/main/java/me/lucko/luckperms/placeholders/DurationFormatter.java:136 | A count is written as at least one decimal digit. Zero is "0", and no other count has a leading zero. |
| `Decimal.FromToDecimal` | common/src/main/java/me/lucko/luckperms/placeholders/DurationFormatter.java:136 | Reading the digits back gives the count: the rendering loses nothing. |
| `Decimal.ToDecimalInjective` | common/src/main/java/me/lucko/luckperms/placeholders/DurationFormatter.java:136 | Different counts render to different digits. |

## Left out

- `java.time.Duration`: the input is its whole seconds (`getSeconds()`). The nanosecond part is never read by the formatter and is not modelled.
- The range of `long`: seconds are an unbounded integer. The only arithmetic is division by a positive constant, which cannot overflow, so nothing depends on the 64-bit width.
- `ChronoUnit.getDuration()`: its library code is not part of this model. The seven lengths it gives are written as constants in `Length`.
- Units outside the seven in the table: the Java overload accepts any `ChronoUnit[]`. A sub-second unit would divide by zero, and a unit missing from the table would make `String.format` receive `null`. The model's `Unit` type has only the seven units the table covers, which is all that `FULL_UNITS` and `DAY_UNITS` use.
- The string keys of `TRANSLATIONS` (`"luckperms.duration.unit." + name + "." + form`), Guava's `ImmutableMap` and `toLowerCase(Locale.ROOT)`: the table is the total function `Template` over unit and form, so a lookup that misses cannot be expressed.
- `String.format` beyond the single `%s` of these templates: no locale handling, no other conversions and no Unicode processing. Substitution is the count's decimal digits followed by the rest of the template.
