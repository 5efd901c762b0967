# Schedule overlap viewer: the pattern-to-grid compiler

The overlap viewer turns each person's availability, written as text, into a weekly
occupancy grid of 7 weekdays by 24 hours, and renders that grid as an HTML table. The text
has two parts:

- a time pattern such as `"2pm-5pm, 9pm-1am"`: comma-separated ranges, each a start and an
  end in 12-hour clock notation;
- a day string such as `"M,Tu,W,Th,F"`: weekday codes.

A range whose end is not after its start runs through midnight into the next weekday, and
Sunday wraps round to Monday.

This project models that compiler and proves properties of it. The modules follow the
source's functions:

- `Clock`: `parse_time`, the strip/lower-case step and `strptime`'s 12-hour grammar.
- `Pattern`: `parse_time_range` and `parse_pattern`.
- `DayCodes`: `expand_days` and `DAY_IDX`.
- `Blocks`: `add_block`.
- `Grid`: the 7×24 grid and `DAYS`.
- `Schedules`: `build_schedule_grids`.
- `Html`: `grid_to_html`.
- `Strings` and `Errors`: the pieces of Python's `str` and the failure values these rely on.
- `SampleTimes` and `Samples`: the demo schedules of `overlap_visualizer.py`, taken through
  the whole pipeline.

The compiler appears twice in the source: `schedule_logic.py:5-39` and
`overlap_visualizer.py:5-41`. The two copies are identical apart from comments, so they are
modelled once and cited by their `schedule_logic.py` lines.

Each operation has a partner definition and a proof that connects the two:

- `parse_time` is checked against an explicit grammar of spellings (`Clock.Spelling`). It
  accepts a token exactly when the token's normal form is the text of a valid spelling. Every
  valid time is reached.
- `add_block`'s hour rule is checked against a minute-level reading of the same range
  ("a cell is busy exactly when one of the range's minutes falls in it").
- `expand_days`, which consumes each match, is checked against a reading that looks at every
  position. It is also checked as the inverse of writing a list of codes.
- `parse_pattern` is described cell by cell. A comma is proved to give the union of the grids.
- `build_schedule_grids` is described by its keys, its values and its first failure.
- `grid_to_html` has a reader that recovers the grid from the fragment, so no cell is lost.

Three behaviours of the code are easy to expect otherwise; the model follows the code:

- No time-zone conversion happens. `build_schedule_grids` (`schedule_logic.py:41`) takes the
  schedules alone and reads no `timezone` key, while `viewer.py:23` calls it with a display
  time zone as a second argument. No conversion is modelled.
- An empty, blank or "nan" pattern is refused: such a pattern splits into one piece with no
  '-', and the unpacking fails. This is `Pattern.ParsePatternRefusesBlank`.
- One failing entry aborts the whole build; the entries after it are not compiled. This is
  `Schedules.BuildFailsOnAnyBadEntry`.

Failures are values. `Errors.ParseError` has two cases:

- `BadTime(token)` is `strptime`'s `ValueError`. It carries the stripped, lower-cased token.
- `RangePieces(n)` is the unpacking `ValueError` of `start_str, end_str = rng.split('-')`. It
  carries the number of pieces.

## Model

| member | source | states |
|---|---|---|
| Strings.StripLeft | schedule_logic.py:9 | `strip()`'s leading half removes exactly a maximal run of Python whitespace from the front; what remains starts with non-whitespace |
| Strings.StripRight | schedule_logic.py:9 | `strip()`'s trailing half removes exactly a maximal run of whitespace from the end |
| Strings.StripOfPadded | schedule_logic.py:9 | whitespace around a core that starts and ends with non-whitespace is stripped back to that core |
| Strings.StripLower | schedule_logic.py:9 | stripping and lower-casing commute, so `strip().lower()` is the same in either order |
| Strings.Split | schedule_logic.py:14 | `split(sep)` yields one more piece than there are separators, and no piece contains the separator |
| Strings.JoinSplit | schedule_logic.py:14 | joining the pieces of a split with the separator gives the string back |
| Strings.SplitJoin | schedule_logic.py:14 | splitting a join of separator-free pieces gives exactly those pieces back |
| Strings.SplitAround | schedule_logic.py:35 | the pieces of `a + "," + b` are the pieces of `a` followed by the pieces of `b` |
| Strings.SplitTrailing | schedule_logic.py:35 | a trailing separator adds an empty last piece |
| Strings.DecimalRoundTrip | overlap_visualizer.py:47 | the decimal text an f-string gives a number reads back as that number |
| Strings.NatToStringInjective | overlap_visualizer.py:47 | distinct hours have distinct header texts |
| Clock.HourField | schedule_logic.py:10-11 | whatever the `%I` field accepts is the text of an hour 1..12, with a leading zero only below 10, and the hour given back is the one written |
| Clock.MinuteField | schedule_logic.py:10-11 | whatever the `%M` field accepts is the text of a minute 0..59 in one or two digits, and the minute given back is the one written |
| Clock.ReadSpelling | schedule_logic.py:10-11 | the format is chosen by the presence of ':'; a token that is read is the text of a valid spelling |
| Clock.ReadSpellingComplete | schedule_logic.py:10-11 | every valid spelling's text is read back as that very spelling, so the whole grammar is accepted (both fields included) and a reading is unique |
| Clock.ParseTime | schedule_logic.py:8-11 | a parsed time is a valid time of day; a refused token fails with its stripped, lower-cased form |
| Clock.ParseTimeGrammar | schedule_logic.py:8-11 | a token is accepted exactly when its normal form is the text of some valid spelling, and then it denotes that spelling's time |
| Clock.ParseTimeNormalises | schedule_logic.py:9 | surrounding whitespace and upper case around a valid spelling do not change the time read |
| Clock.ParseTimeIgnoresCase | schedule_logic.py:9 | tokens that are equal after lower-casing parse alike |
| Clock.ParseRenderRoundTrip | schedule_logic.py:8-11 | every valid time of day is the result of parsing its 12-hour rendering |
| Clock.ParseTimeBareHour | schedule_logic.py:10-11 | without minutes, "Ham" is hour H and "Hpm" is H+12 for H in 1..11; "12am" is 0 and "12pm" is 12; the minute is 0 |
| Clock.HourOutOfRangeRejected | schedule_logic.py:10-11 | an hour of 0 or above 12 is refused in the form without minutes (`%I%p`) |
| Clock.HourOutOfRangeWithMinutesRejected | schedule_logic.py:10-11 | an hour of 0 or above 12 is refused in the form with minutes (`%I:%M%p`), whatever lower-case, colon-free text follows the colon |
| Clock.MinuteOutOfRangeRejected | schedule_logic.py:10-11 | a minute of 60 or more is refused |
| Clock.MissingSuffixRejected | schedule_logic.py:10-11 | a token whose normal form does not end in "am" or "pm" is refused |
| Clock.Midnight | schedule_logic.py:10-11 | "12am" is 00:00 |
| Clock.Noon | schedule_logic.py:10-11 | "12pm" is 12:00 |
| Clock.TwoPm | overlap_visualizer.py:8 | "2pm", a sample token of the comment on `parse_time`, is 14:00 |
| Clock.HalfPastNoon | overlap_visualizer.py:8 | "12:30pm", the comment's sample token with minutes, is 12:30 |
| Clock.ParseTimePaddedUpper | schedule_logic.py:9 | " 9PM\t" is 21:00 |
| Pattern.ParseTimeRange | schedule_logic.py:13-17 | a range is refused with its piece count unless it has exactly one '-'; a time error can only come after a successful split; a result is a pair of valid times |
| Pattern.ParseTimeRangeOfPair | schedule_logic.py:13-17 | two hyphen-free texts joined by '-' give the pair of their times; the start's error is reported before the end's |
| Pattern.ParseRenderRangeRoundTrip | schedule_logic.py:13-17 | every pair of valid times is the result of parsing its rendering |
| Pattern.ParseTimeRangeNoHyphen | schedule_logic.py:14 | a range without '-' is refused as one piece |
| Pattern.ParseTimeRangeThreePieces | schedule_logic.py:14 | "1pm-2pm-3pm" is refused as three pieces |
| Pattern.AddBlockDays | schedule_logic.py:37-38 | adding a range on each listed weekday keeps the old cells and adds exactly the cells of the range's block on some listed weekday |
| Pattern.Fill | schedule_logic.py:35-38 | the range loop succeeds exactly when every range parses; it then adds exactly the cells of every (range, weekday) block; otherwise it fails with the error of the first failing range |
| Pattern.ParsePattern | schedule_logic.py:33-39 | a pattern compiles exactly when all its ranges parse; a cell is then busy exactly when some range's block on some named weekday covers it; otherwise the error is that of the first failing range |
| Pattern.ParsePatternAnyFailure | schedule_logic.py:35-36 | any one failing range makes the pattern fail |
| Pattern.ParsePatternFirstFailure | schedule_logic.py:35-36 | when the first range fails, the pattern fails with that range's error |
| Pattern.ParsePatternTrailingComma | schedule_logic.py:35-36 | a trailing comma leaves an empty range, so the pattern is refused |
| Pattern.ParsePatternNoDays | schedule_logic.py:34-38 | with no weekday named, a pattern whose ranges parse gives the empty grid |
| Pattern.ParsePatternComma | schedule_logic.py:35-38 | a comma joins two patterns: the first one's error, else the second one's, else the cell-wise union of their grids |
| Pattern.SingleRangePattern | schedule_logic.py:35-38 | a one-range pattern places that range's block on exactly the named weekdays |
| Pattern.ParsePatternWithoutHyphen | schedule_logic.py:35-36 | a pattern with neither ',' nor '-' is refused as one piece, whatever the days |
| Pattern.ParsePatternRefusesBlank | schedule_logic.py:35-36 | the empty pattern, blanks, "nan" and "2pm5pm" are refused as one piece |
| DayCodes.DayIdxNumbersCodes | schedule_logic.py:6 | `DAY_IDX` numbers the alternatives of the day pattern by their position, and has no other key |
| DayCodes.MatchAt | schedule_logic.py:20 | the alternation at one position finds a weekday in 0..6 whose code fits in the rest of the string |
| DayCodes.MatchAtIsPrefix | schedule_logic.py:20 | the alternation finds weekday i exactly when weekday i's code begins the string |
| DayCodes.ExpandDays | schedule_logic.py:19-20 | every weekday found is in 0..6 |
| DayCodes.ExpandDaysByPosition | schedule_logic.py:20 | scanning with matches consumed whole finds the same weekdays as looking for a code at every position |
| DayCodes.ExpandDaysSeparated | schedule_logic.py:20 | a character that is no code letter splits the day string: the weekdays of each side are found independently |
| DayCodes.ExpandDaysNoInitials | schedule_logic.py:20 | a string with none of the letters M, T, W, F, S names no weekday |
| DayCodes.ExpandDaysSingle | schedule_logic.py:6 | each code on its own names its weekday |
| DayCodes.ExpandCodeList | schedule_logic.py:19-20 | a comma-separated list of codes expands to its weekdays in order, with repeats |
| DayCodes.ExpandDaysWorkweek | overlap_visualizer.py:76 | "M,Tu,W,Th,F" names Monday to Friday |
| DayCodes.ExpandDaysRepeated | schedule_logic.py:20 | "M,M" names Monday twice |
| DayCodes.ExpandDaysWeekend | schedule_logic.py:20 | "Sa Su" names Saturday and Sunday |
| DayCodes.ExpandDaysIgnored | schedule_logic.py:20 | a lone "T" and lower-case codes name no weekday |
| Grid.Empty | schedule_logic.py:34 | the new grid is 7×24 with every cell clear |
| Grid.MarkHours | schedule_logic.py:25-26 | the loop sets exactly the cells of the weekday in the hour interval and leaves every other cell as it was |
| Blocks.AddBlock | schedule_logic.py:22-31 | `add_block` keeps every set cell and adds exactly the cells of the block; every hour written is within 0..23 |
| Blocks.BeforeIsMinuteOrder | schedule_logic.py:24 | Python's comparison of times is the order of minutes since midnight |
| Blocks.CoversImpliesOverlaps | schedule_logic.py:22-31 | every cell the block sets holds a minute of the range on the week's clock |
| Blocks.OverlapsImpliesCovers | schedule_logic.py:22-31 | every cell holding a minute of the range is set by the block |
| Blocks.CoversIffOverlaps | schedule_logic.py:22-31 | the hour rule is exactly "some minute of the range falls in this hour", with midnight crossing and the Sunday wrap |
| Blocks.AddBlockIdempotent | schedule_logic.py:22-31 | adding a block twice is the same as adding it once |
| Blocks.AddBlockCommutes | schedule_logic.py:22-31 | the order in which two blocks are added does not matter |
| Blocks.MidnightEndStaysOnDay | schedule_logic.py:27-31 | a range ending at 12am adds nothing to the next weekday |
| Schedules.Collect | schedule_logic.py:42 | the comprehension only stores 7×24 grids |
| Schedules.CollectOutcome | schedule_logic.py:42 | the comprehension succeeds exactly when every entry compiles; otherwise it fails with the first failing entry's error |
| Schedules.CollectKeys | schedule_logic.py:42 | on success the keys are exactly the entries' names |
| Schedules.CollectValues | schedule_logic.py:42 | on success each name holds the grid of the last entry with that name |
| Schedules.BuildScheduleGrids | schedule_logic.py:41-42 | the build fails with the first failing entry's error; otherwise it maps exactly the names, each to the grid of its last entry |
| Schedules.BuildFailsOnAnyBadEntry | schedule_logic.py:42 | one failing entry makes the whole build fail; no entry is skipped |
| Schedules.BuildDistinctNames | schedule_logic.py:42 | with distinct names, each name maps to its own entry's grid |
| Schedules.BuildLaterEntryWins | schedule_logic.py:42 | of two entries with the same name, the later one's grid is kept |
| Html.GridToHtml | overlap_visualizer.py:43-56 | the fragment begins with the heading for the name and ends with the table's closing tag |
| Html.ReadGridOfGridToHtml | overlap_visualizer.py:43-56 | reading the fragment back gives the grid it was written from |
| Html.GridToHtmlInjective | overlap_visualizer.py:49-54 | different grids give different fragments, so every cell is visible |
| SampleTimes.NinePm | overlap_visualizer.py:76 | "9pm" is 21:00 |
| SampleTimes.OneAm | overlap_visualizer.py:76 | "1am" is 01:00 |
| SampleTimes.FiveAm | overlap_visualizer.py:77 | "5am" is 05:00 |
| SampleTimes.SevenPmPadded | overlap_visualizer.py:78 | " 7pm", with the blank that follows the comma, is 19:00 |
| Samples.LateNightRange | overlap_visualizer.py:76 | "9pm-1am" is 21:00 to 01:00 |
| Samples.LateNightMonday | overlap_visualizer.py:76 | on Mondays that range sets Monday from 21:00 and Tuesday's first hour, and nothing else |
| Samples.EarlyMorningRange | overlap_visualizer.py:77 | "12am-5am" is 00:00 to 05:00 |
| Samples.EarlyMorningWorkweek | overlap_visualizer.py:77 | on Monday to Friday that range sets exactly the first five hours of those days |
| Samples.EveningRange | overlap_visualizer.py:78 | " 7pm-12am" is 19:00 to 00:00 |
| Samples.EveningMonday | overlap_visualizer.py:78 | a range ending at 12am on Mondays sets Monday from 19:00 and nothing on Tuesday |
| Samples.TwoRangesMonday | overlap_visualizer.py:78 | "12am-5am, 7pm-12am" on Mondays sets Monday's hours before 5 and from 19 |
| Samples.LateNightGrid | overlap_visualizer.py:76 | a single range read as 21:00 to 01:00, on Mondays alone, compiles to exactly the empty grid with Monday's hours 21 to 23 and Tuesday's hour 0 marked |
| Samples.LateNightText | overlap_visualizer.py:76 | the text "9pm-1am", on a day string naming Monday alone, compiles to that grid |
| Samples.LateNightSample | overlap_visualizer.py:76 | `parse_pattern("9pm-1am", "M")` is that grid |
| Samples.EarlyMorningGrid | overlap_visualizer.py:77 | a single range read as 00:00 to 05:00, on Monday to Friday, compiles to exactly the grid of hours 0 to 4 of those five days |
| Samples.EarlyMorningText | overlap_visualizer.py:77 | the text "12am-5am", on a day string naming Monday to Friday, compiles to that grid |
| Samples.EarlyMorningSample | overlap_visualizer.py:77 | Kai's entry, `parse_pattern("12am-5am", "M,Tu,W,Th,F")`, is that grid |
| Samples.TwoRangesGrid | overlap_visualizer.py:78 | two ranges read as 00:00 to 05:00 and 19:00 to 00:00, joined by a comma, on Mondays, compile to exactly the grid with Monday's hours 0 to 4 and 19 to 23 marked |
| Samples.TwoRangesFirst | overlap_visualizer.py:78 | the text before the comma of "12am-5am, 7pm-12am" reads as 00:00 to 05:00 |
| Samples.TwoRangesSecond | overlap_visualizer.py:78 | the text after the comma, with its blank, reads as 19:00 to 00:00 |
| Samples.TwoRangesText | overlap_visualizer.py:78 | the text "12am-5am, 7pm-12am", on a day string naming Monday alone, compiles to that grid |
| Samples.TwoRangesSample | overlap_visualizer.py:78 | `parse_pattern("12am-5am, 7pm-12am", "M")` is that grid |

## Left out

- `write_html` (`overlap_visualizer.py:58-71`) is left out. It builds the page around the fragments and writes it to a file. The file output is I/O, and the page text adds nothing beyond `grid_to_html`.
- The `__main__` block (`overlap_visualizer.py:74-82`) is left out. Its sample patterns appear as the `Samples` lemmas.
- `viewer.py` and `test.py` are not part of this model. They are the interactive viewer and ad-hoc checks around the compiler.
- The `timezone` key of an entry is left out because the code never reads it. No conversion exists to model.
- Exception types and message texts are left out. A failure is a `ParseError` value carrying what decides it: the normalised token, or the piece count.
- An entry missing its `name`, `pattern` or `days` key (a `KeyError` in the source) is not modelled, because `Schedules.Entry` always has all three fields.
- Dictionary order is left out. A schedule is a `map`, which has no order; only its keys and values are stated.
- Numpy is left out. The grid's `float` zeros and ones are booleans, since the code only writes 1 and tests truthiness.
- Clock.MinuteField: the regex `\d` also matches non-ASCII decimal digits, but only ASCII digits are modelled.
- Strings.Lower: only ASCII letters are lower-cased. A non-ASCII character that Python would lower-case into the grammar's alphabet does not exist, so acceptance is unaffected. The error text of a token with other non-ASCII capitals would differ.
- Clock.ReadSpelling: `%p` is matched as "am"/"pm", the C/English locale's spelling. Other locales are not modelled.
- Clock.ParseTime: `%I` in some Python versions also accepts a blank followed by a digit. That alternative cannot match a stripped token at the position of `%I`, so it is left out.
- Html.GridToHtml: the name is written without HTML escaping, as in the source. The reader recovers the grid for any name, but the model does not claim the page is well-formed HTML.
