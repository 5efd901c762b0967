/**
  The clock times of the sample patterns, each a text fixed by the precondition.
 */
module SampleTimes {
  import opened Strings
  import opened Errors
  import opened Clock

  lemma NinePm(t: string)
    requires t == "9pm"
    ensures ParseTime(t) == Ok(ClockTime(21, 0))
  {
    BareExample(9, true, t);
  }

  lemma OneAm(t: string)
    requires t == "1am"
    ensures ParseTime(t) == Ok(ClockTime(1, 0))
  {
    BareExample(1, false, t);
  }

  lemma FiveAm(t: string)
    requires t == "5am"
    ensures ParseTime(t) == Ok(ClockTime(5, 0))
  {
    BareExample(5, false, t);
  }

  /** A leading blank, as after the comma in "12am-5am, 7pm-12am", is stripped. */
  lemma SevenPmPadded(t: string)
    requires t == " 7pm"
    ensures ParseTime(t) == Ok(ClockTime(19, 0))
  {
    var sp := Spelling(7, 0, true, false, NoMinutes);
    SevenPmText(sp);
    BlankThenSevenPm(t);
    LeadingBlanks(t[..1], sp);
  }

  lemma BlankThenSevenPm(t: string)
    requires t == " 7pm"
    ensures t == t[..1] + "7pm" && AllSpace(t[..1])
  {
  }

  /** Whitespace before a spelling the parser accepts changes nothing. */
  lemma LeadingBlanks(ws: string, sp: Spelling)
    requires sp.Valid() && AllSpace(ws)
    ensures ParseTime(ws + sp.Text()) == Ok(sp.Value())
  {
    LowerOfText(sp);
    assert ws + sp.Text() + "" == ws + sp.Text();
    ParseTimeNormalises(ws, sp.Text(), "", sp);
  }

  lemma SevenPmText(sp: Spelling)
    requires sp == Spelling(7, 0, true, false, NoMinutes)
    ensures sp.Valid() && sp.Text() == "7pm" && sp.Value() == ClockTime(19, 0)
  {
  }
}

/**
  Whole-pipeline examples: sample patterns of the source's demo data, compiled to grids.
  Each range text is written as its start, "-" and its end joined with `+`; the string is
  the same.
 */
module Samples {
  import opened Errors
  import opened Clock
  import opened Grid
  import opened Blocks
  import opened DayCodes
  import opened Pattern
  import opened SampleTimes

  /** "9pm-1am" reads as 21:00 to 01:00. The text is a parameter fixed by the precondition. */
  lemma LateNightRange(rng: string)
    requires rng == "9pm-1am"
    ensures ParseTimeRange(rng) == Ok(TimeRange(ClockTime(21, 0), ClockTime(1, 0)))
  {
    var start, end := rng[..3], rng[4..];
    assert rng == start + "-" + end && '-' !in start && '-' !in end;
    NinePm(start);
    OneAm(end);
    ParseTimeRangeOfPair(start, end);
  }

  /** That range on Mondays (a day string such as "M"): Monday from 21:00 to midnight and
      Tuesday's first hour, nothing else. */
  lemma LateNightMonday(rng: string, days: string)
    requires ',' !in rng && ParseTimeRange(rng) == Ok(TimeRange(ClockTime(21, 0), ClockTime(1, 0)))
    requires ExpandDays(days) == [0]
    ensures ParsePattern(rng, days).Ok?
    ensures forall d, h :: 0 <= d < Days && 0 <= h < Hours ==>
              (ParsePattern(rng, days).value[d][h] <==> (d == 0 && h >= 21) || (d == 1 && h == 0))
  {
    SingleRangePattern(rng, days, TimeRange(ClockTime(21, 0), ClockTime(1, 0)));
  }

  /** "12am-5am" reads as 00:00 to 05:00. */
  lemma EarlyMorningRange(rng: string)
    requires rng == "12am-5am"
    ensures ParseTimeRange(rng) == Ok(TimeRange(ClockTime(0, 0), ClockTime(5, 0)))
  {
    var start, end := rng[..4], rng[5..];
    assert rng == start + "-" + end && '-' !in start && '-' !in end;
    Midnight(start);
    FiveAm(end);
    ParseTimeRangeOfPair(start, end);
  }

  /** A block from 00:00 to 05:00 on each of the weekdays 0..4 covers the first five hours
      of those days. */
  lemma EarlyMorningCells(ds: seq<nat>, r: TimeRange, d: nat, h: nat)
    requires ds == [0, 1, 2, 3, 4] && r == TimeRange(ClockTime(0, 0), ClockTime(5, 0))
    requires d < Days && h < Hours
    ensures OnSomeDay(ds, r, d, h) <==> d < 5 && h < 5
  {
    if d < 5 && h < 5 {
      assert ds[d] == d && Covers(ds[d], r, d, h);
    }
  }

  /** That range on the weekdays Monday to Friday (a day string such as "M,Tu,W,Th,F"): the
      first five hours of each of those days. */
  lemma EarlyMorningWorkweek(rng: string, days: string)
    requires ',' !in rng && ParseTimeRange(rng) == Ok(TimeRange(ClockTime(0, 0), ClockTime(5, 0)))
    requires ExpandDays(days) == [0, 1, 2, 3, 4]
    ensures ParsePattern(rng, days).Ok?
    ensures forall d, h :: 0 <= d < Days && 0 <= h < Hours ==>
              (ParsePattern(rng, days).value[d][h] <==> d < 5 && h < 5)
  {
    var r := TimeRange(ClockTime(0, 0), ClockTime(5, 0));
    SingleRangePattern(rng, days, r);
    var g := ParsePattern(rng, days).value;
    forall d, h | 0 <= d < Days && 0 <= h < Hours
      ensures g[d][h] <==> d < 5 && h < 5
    {
      EarlyMorningCells(ExpandDays(days), r, d, h);
    }
  }

  /** " 7pm-12am" (with its blank) reads as 19:00 to 00:00. */
  lemma EveningRange(rng: string)
    requires rng == " 7pm-12am"
    ensures ParseTimeRange(rng) == Ok(TimeRange(ClockTime(19, 0), ClockTime(0, 0)))
  {
    var start, end := rng[..4], rng[5..];
    assert rng == start + "-" + end && '-' !in start && '-' !in end;
    SevenPmPadded(start);
    Midnight(end);
    ParseTimeRangeOfPair(start, end);
  }

  /** A range ending at 12am stops at midnight: on Mondays it adds nothing to Tuesday. */
  lemma EveningMonday(rng: string, days: string)
    requires ',' !in rng && ParseTimeRange(rng) == Ok(TimeRange(ClockTime(19, 0), ClockTime(0, 0)))
    requires ExpandDays(days) == [0]
    ensures ParsePattern(rng, days).Ok?
    ensures forall d, h :: 0 <= d < Days && 0 <= h < Hours ==>
              (ParsePattern(rng, days).value[d][h] <==> d == 0 && h >= 19)
  {
    SingleRangePattern(rng, days, TimeRange(ClockTime(19, 0), ClockTime(0, 0)));
  }

  /** "12am-5am, 7pm-12am" on Mondays: a comma gives the union of the two ranges' blocks. */
  lemma TwoRangesMonday(first: string, second: string, days: string)
    requires ',' !in first && ParseTimeRange(first) == Ok(TimeRange(ClockTime(0, 0), ClockTime(5, 0)))
    requires ',' !in second && ParseTimeRange(second) == Ok(TimeRange(ClockTime(19, 0), ClockTime(0, 0)))
    requires ExpandDays(days) == [0]
    ensures ParsePattern(first + "," + second, days).Ok?
    ensures forall d, h :: 0 <= d < Days && 0 <= h < Hours ==>
              (ParsePattern(first + "," + second, days).value[d][h] <==> d == 0 && (h < 5 || h >= 19))
  {
    SingleRangePattern(first, days, TimeRange(ClockTime(0, 0), ClockTime(5, 0)));
    EveningMonday(second, days);
    ParsePatternComma(first, second, days);
    var a, b := ParsePattern(first, days).value, ParsePattern(second, days).value;
    var g := ParsePattern(first + "," + second, days);
    assert g == Ok(Union(a, b));
    forall d, h | 0 <= d < Days && 0 <= h < Hours
      ensures g.value[d][h] <==> d == 0 && (h < 5 || h >= 19)
    {
      assert g.value[d][h] <==> a[d][h] || b[d][h];
    }
  }

  // ---- the demo patterns, composed end to end ----

  /** A compiled pattern with exactly the cells of `g` is `g`. */
  lemma SameGrid(res: Result<seq<seq<bool>>>, g: seq<seq<bool>>)
    requires res.Ok? && IsGrid(res.value) && IsGrid(g)
    requires forall d, h :: 0 <= d < Days && 0 <= h < Hours ==> (res.value[d][h] <==> g[d][h])
    ensures res == Ok(g)
  {
    Extensionality(res.value, g);
  }

  /** "9pm-1am" on Mondays is the grid with Monday's hours from 21 and Tuesday's first hour. */
  lemma LateNightGrid(rng: string, days: string)
    requires ',' !in rng && ParseTimeRange(rng) == Ok(TimeRange(ClockTime(21, 0), ClockTime(1, 0)))
    requires ExpandDays(days) == [0]
    ensures ParsePattern(rng, days) == Ok(MarkHours(MarkHours(Empty(), 0, 21, Hours), 1, 0, 1))
  {
    LateNightMonday(rng, days);
    SameGrid(ParsePattern(rng, days), MarkHours(MarkHours(Empty(), 0, 21, Hours), 1, 0, 1));
  }

  /** The text "9pm-1am" on Mondays compiles to that grid. */
  lemma LateNightText(rng: string, days: string)
    requires rng == "9pm-1am" && ExpandDays(days) == [0]
    ensures ParsePattern(rng, days) == Ok(MarkHours(MarkHours(Empty(), 0, 21, Hours), 1, 0, 1))
  {
    assert ',' !in rng;
    LateNightRange(rng);
    LateNightGrid(rng, days);
  }

  /** The demo's "9pm-1am", here on "M", compiles to that grid. */
  lemma LateNightSample(pattern: string, days: string)
    requires pattern == "9pm-1am" && days == "M"
    ensures ParsePattern(pattern, days) == Ok(MarkHours(MarkHours(Empty(), 0, 21, Hours), 1, 0, 1))
  {
    ExpandDaysSingle(0);
    LateNightText(pattern, days);
  }

  /** The first five hours of Monday to Friday. */
  function WorkweekMornings(): (g: seq<seq<bool>>)
    ensures IsGrid(g)
  {
    MarkHours(MarkHours(MarkHours(MarkHours(MarkHours(Empty(), 0, 0, 5), 1, 0, 5), 2, 0, 5), 3, 0, 5), 4, 0, 5)
  }

  /** "12am-5am" on Monday to Friday is the grid of the first five hours of those days. */
  lemma EarlyMorningGrid(rng: string, days: string)
    requires ',' !in rng && ParseTimeRange(rng) == Ok(TimeRange(ClockTime(0, 0), ClockTime(5, 0)))
    requires ExpandDays(days) == [0, 1, 2, 3, 4]
    ensures ParsePattern(rng, days) == Ok(WorkweekMornings())
  {
    EarlyMorningWorkweek(rng, days);
    SameGrid(ParsePattern(rng, days), WorkweekMornings());
  }

  /** The text "12am-5am" on Monday to Friday compiles to that grid. */
  lemma EarlyMorningText(rng: string, days: string)
    requires rng == "12am-5am" && ExpandDays(days) == [0, 1, 2, 3, 4]
    ensures ParsePattern(rng, days) == Ok(WorkweekMornings())
  {
    assert ',' !in rng;
    EarlyMorningRange(rng);
    EarlyMorningGrid(rng, days);
  }

  /** Kai's schedule in the demo, "12am-5am" on "M,Tu,W,Th,F", compiles to that grid. */
  lemma EarlyMorningSample(pattern: string, days: string)
    requires pattern == "12am-5am" && days == "M,Tu,W,Th,F"
    ensures ParsePattern(pattern, days) == Ok(WorkweekMornings())
  {
    ExpandDaysWorkweek(days);
    EarlyMorningText(pattern, days);
  }

  /** "12am-5am" and "7pm-12am" on Mondays is the grid of Monday's hours before 5 and from 19. */
  lemma TwoRangesGrid(first: string, second: string, days: string)
    requires ',' !in first && ParseTimeRange(first) == Ok(TimeRange(ClockTime(0, 0), ClockTime(5, 0)))
    requires ',' !in second && ParseTimeRange(second) == Ok(TimeRange(ClockTime(19, 0), ClockTime(0, 0)))
    requires ExpandDays(days) == [0]
    ensures ParsePattern(first + "," + second, days) == Ok(MarkHours(MarkHours(Empty(), 0, 0, 5), 0, 19, Hours))
  {
    TwoRangesMonday(first, second, days);
    var res := ParsePattern(first + "," + second, days);
    var g := MarkHours(MarkHours(Empty(), 0, 0, 5), 0, 19, Hours);
    forall d, h | 0 <= d < Days && 0 <= h < Hours
      ensures res.value[d][h] <==> g[d][h]
    {
      assert res.value[d][h] <==> d == 0 && (h < 5 || h >= 19);
    }
    SameGrid(res, g);
  }

  /** The first range text of Lucca's pattern reads as 00:00 to 05:00. */
  lemma TwoRangesFirst(pattern: string)
    requires pattern == "12am-5am, 7pm-12am"
    ensures ',' !in pattern[..8] && ParseTimeRange(pattern[..8]) == Ok(TimeRange(ClockTime(0, 0), ClockTime(5, 0)))
  {
    var first := pattern[..8];
    assert first == "12am-5am";
    assert ',' !in first;
    EarlyMorningRange(first);
  }

  /** The second range text of Lucca's pattern reads as 19:00 to 00:00. */
  lemma TwoRangesSecond(pattern: string)
    requires pattern == "12am-5am, 7pm-12am"
    ensures ',' !in pattern[9..] && ParseTimeRange(pattern[9..]) == Ok(TimeRange(ClockTime(19, 0), ClockTime(0, 0)))
  {
    var second := pattern[9..];
    assert second == " 7pm-12am";
    assert ',' !in second;
    EveningRange(second);
  }

  /** The text "12am-5am, 7pm-12am" on Mondays compiles to that grid. */
  lemma TwoRangesText(pattern: string, days: string)
    requires pattern == "12am-5am, 7pm-12am" && ExpandDays(days) == [0]
    ensures ParsePattern(pattern, days) == Ok(MarkHours(MarkHours(Empty(), 0, 0, 5), 0, 19, Hours))
  {
    assert pattern == pattern[..8] + "," + pattern[9..];
    TwoRangesFirst(pattern);
    TwoRangesSecond(pattern);
    TwoRangesGrid(pattern[..8], pattern[9..], days);
  }

  /** Lucca's pattern in the demo, "12am-5am, 7pm-12am", here on "M", compiles to that grid. */
  lemma TwoRangesSample(pattern: string, days: string)
    requires pattern == "12am-5am, 7pm-12am" && days == "M"
    ensures ParsePattern(pattern, days) == Ok(MarkHours(MarkHours(Empty(), 0, 0, 5), 0, 19, Hours))
  {
    ExpandDaysSingle(0);
    TwoRangesText(pattern, days);
  }
}
