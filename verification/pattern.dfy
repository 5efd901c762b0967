/**
  `parse_time_range`, `parse_pattern` and `build_schedule_grids`: a pattern such as
  "2pm-5pm, 9pm-1am" is split at every ',', each piece is split at '-' into exactly a start
  and an end, both are parsed, and the block is added for every weekday the day string
  names. Any failure aborts the whole pattern with the first error met, left to right.
 */
module Pattern {
  import opened Strings
  import opened Errors
  import opened Clock
  import opened Grid
  import opened Blocks
  import opened DayCodes

  /** `parse_time_range`: exactly one '-' is required (otherwise the unpacking fails with
      the number of pieces), then the start and the end are parsed in that order. */
  function ParseTimeRange(rng: string): (r: Result<TimeRange>)
    ensures r.Ok? ==> r.value.Valid()
    ensures Count(rng, '-') != 1 ==> r == Err(RangePieces(Count(rng, '-') + 1))
    ensures r.Err? && r.error.BadTime? ==> Count(rng, '-') == 1
  {
    var pieces := Split(rng, '-');
    if |pieces| != 2 then Err(RangePieces(|pieces|))
    else
      var start :- ParseTime(pieces[0]);
      var end :- ParseTime(pieces[1]);
      Ok(TimeRange(start, end))
  }

  /** Hyphen-free start and end texts joined by '-' parse as the pair of their times; the
      start's error wins over the end's. */
  lemma ParseTimeRangeOfPair(a: string, b: string)
    requires '-' !in a && '-' !in b
    ensures ParseTimeRange(a + "-" + b) ==
      if ParseTime(a).Err? then Err(ParseTime(a).error)
      else if ParseTime(b).Err? then Err(ParseTime(b).error)
      else Ok(TimeRange(ParseTime(a).value, ParseTime(b).value))
  {
    SplitJoin([a, b], '-');
    assert Join([a, b], '-') == a + "-" + b;
  }

  /** The text of a range, written with the canonical spelling of each end. */
  function RenderRange(r: TimeRange): (s: string)
    requires r.Valid()
    ensures Count(s, '-') == 1
  {
    var a, b := RenderSpelling(r.start).Text(), RenderSpelling(r.end).Text();
    SpellingHasNoHyphen(RenderSpelling(r.start));
    SpellingHasNoHyphen(RenderSpelling(r.end));
    SplitJoin([a, b], '-');
    assert Join([a, b], '-') == a + "-" + b;
    a + "-" + b
  }

  lemma SpellingHasNoHyphen(sp: Spelling)
    requires sp.Valid()
    ensures '-' !in sp.Text()
  {
    TextShape(sp);
  }

  /** Every valid range is read back from its rendering. */
  lemma ParseRenderRangeRoundTrip(r: TimeRange)
    requires r.Valid()
    ensures ParseTimeRange(RenderRange(r)) == Ok(r)
  {
    SpellingHasNoHyphen(RenderSpelling(r.start));
    SpellingHasNoHyphen(RenderSpelling(r.end));
    ParseRenderRoundTrip(r.start);
    ParseRenderRoundTrip(r.end);
    ParseTimeRangeOfPair(RenderSpelling(r.start).Text(), RenderSpelling(r.end).Text());
  }

  /** A range with no hyphen is refused as one piece. */
  lemma ParseTimeRangeNoHyphen(rng: string)
    requires '-' !in rng
    ensures ParseTimeRange(rng) == Err(RangePieces(1))
  {
    CountAbsent(rng, '-');
  }

  /** A range with two hyphens is refused as three pieces. The text is fixed by the
      precondition. */
  lemma ParseTimeRangeThreePieces(rng: string)
    requires rng == "1pm-2pm-3pm"
    ensures ParseTimeRange(rng) == Err(RangePieces(3))
  {
    var pieces := ["1pm", "2pm", "3pm"];
    assert Join(pieces, '-') == rng;
    SplitJoin(pieces, '-');
  }

  predicate AllDays(days: seq<nat>) {
    forall j :: 0 <= j < |days| ==> days[j] < Days
  }

  /** The block of `r` on one of the listed weekdays covers the cell (d, h). */
  predicate OnSomeDay(days: seq<nat>, r: TimeRange, d: nat, h: nat) {
    exists j :: 0 <= j < |days| && Covers(days[j], r, d, h)
  }

  /** `for day in expand_days(days): add_block(grid, day, start, end)`: the cells already
      set, plus the block's cells on each listed weekday. */
  function AddBlockDays(g: seq<seq<bool>>, days: seq<nat>, r: TimeRange): (g': seq<seq<bool>>)
    requires IsGrid(g) && AllDays(days) && r.Valid()
    ensures IsGrid(g')
    ensures forall d, h :: 0 <= d < Days && 0 <= h < Hours ==>
              (g'[d][h] <==> g[d][h] || OnSomeDay(days, r, d, h))
    decreases |days|
  {
    if days == [] then g
    else AddBlockDays(AddBlock(g, days[0], r), days[1..], r)
  }

  /** `f` applied to each element, in order. */
  function Map<A, B>(f: A -> B, xs: seq<A>): (ys: seq<B>)
    ensures |ys| == |xs|
    ensures forall i :: 0 <= i < |xs| ==> ys[i] == f(xs[i])
  {
    seq(|xs|, i requires 0 <= i < |xs| => f(xs[i]))
  }

  lemma MapCons<A, B>(f: A -> B, xs: seq<A>)
    requires xs != []
    ensures Map(f, xs) == [f(xs[0])] + Map(f, xs[1..])
  {
    assert forall i :: 0 < i < |xs| ==> xs[1..][i - 1] == xs[i];
  }

  lemma MapConcat<A, B>(f: A -> B, xs: seq<A>, ys: seq<A>)
    ensures Map(f, xs + ys) == Map(f, xs) + Map(f, ys)
  {
    assert forall i :: |xs| <= i < |xs + ys| ==> (xs + ys)[i] == ys[i - |xs|];
  }

  /** The outcome of parsing each range, in order. */
  function ParseEach(ranges: seq<string>): (rs: seq<Result<TimeRange>>)
    ensures |rs| == |ranges|
  {
    Map(ParseTimeRange, ranges)
  }

  lemma ParseEachAt(ranges: seq<string>, i: nat)
    requires i < |ranges|
    ensures ParseEach(ranges)[i] == ParseTimeRange(ranges[i])
  {
  }

  /** The outcomes of a non-empty list: the first range's, then the rest's. */
  lemma ParseEachCons(ranges: seq<string>)
    requires ranges != []
    ensures ParseEach(ranges) == [ParseTimeRange(ranges[0])] + ParseEach(ranges[1..])
  {
    MapCons(ParseTimeRange, ranges);
  }

  /** Some listed weekday's block of some of the ranges covers the cell (d, h). */
  predicate SomeBlockCovers(rs: seq<Result<TimeRange>>, days: seq<nat>, d: nat, h: nat)
    requires AllOk(rs)
  {
    exists i, j :: 0 <= i < |rs| && 0 <= j < |days| && Covers(days[j], rs[i].value, d, h)
  }

  /** The loop of `parse_pattern`: each range is parsed and at once added for every listed
      weekday. The result succeeds exactly when every range parses; it then holds the cells
      of `g` plus every (range, weekday) block; otherwise it is the error of the first range
      that fails. */
  function Fill(g: seq<seq<bool>>, ranges: seq<string>, days: seq<nat>): (r: Result<seq<seq<bool>>>)
    requires IsGrid(g) && AllDays(days)
    ensures r.Ok? <==> AllOk(ParseEach(ranges))
    ensures r.Err? ==> exists i :: FirstFailure(ParseEach(ranges), i, r.error)
    ensures r.Ok? ==> IsGrid(r.value)
    ensures r.Ok? ==> forall d, h :: 0 <= d < Days && 0 <= h < Hours ==>
              (r.value[d][h] <==> g[d][h] || SomeBlockCovers(ParseEach(ranges), days, d, h))
    decreases |ranges|
  {
    if ranges == [] then Ok(g)
    else
      ParseEachCons(ranges);
      match ParseTimeRange(ranges[0])
      case Err(e) =>
        assert FirstFailure(ParseEach(ranges), 0, e);
        Err(e)
      case Ok(r) =>
        OkShift(r, ParseEach(ranges[1..]), days);
        Fill(AddBlockDays(g, days, r), ranges[1..], days)
  }

  /** Lifts the contract of the recursive call of `Fill` over one range that parsed. */
  lemma {:induction false} OkShift(r: TimeRange, rs: seq<Result<TimeRange>>, days: seq<nat>)
    ensures AllOk([Ok(r)] + rs) <==> AllOk(rs)
    ensures forall i: nat, e :: FirstFailure(rs, i, e) ==> FirstFailure([Ok(r)] + rs, i + 1, e)
    ensures AllOk(rs) ==>
              forall d, h ::
                SomeBlockCovers([Ok(r)] + rs, days, d, h) <==>
                  OnSomeDay(days, r, d, h) || SomeBlockCovers(rs, days, d, h)
  {
    var rs' := [Ok(r)] + rs;
    assert forall i :: 0 <= i < |rs| ==> rs'[i + 1] == rs[i];
    forall i: nat, e | FirstFailure(rs, i, e)
      ensures FirstFailure(rs', i + 1, e)
    {
      assert rs'[..i + 1] == [Ok(r)] + rs[..i];
    }
    if AllOk(rs) {
      forall d: nat, h: nat
        ensures SomeBlockCovers(rs', days, d, h) <==>
                  OnSomeDay(days, r, d, h) || SomeBlockCovers(rs, days, d, h)
      {
        if SomeBlockCovers(rs', days, d, h) {
          var i, j :| 0 <= i < |rs'| && 0 <= j < |days| && Covers(days[j], rs'[i].value, d, h);
          if i > 0 {
            assert rs'[i] == rs[i - 1];
          }
        }
        if OnSomeDay(days, r, d, h) {
          var j :| 0 <= j < |days| && Covers(days[j], r, d, h);
          assert Covers(days[j], rs'[0].value, d, h);
        }
        if SomeBlockCovers(rs, days, d, h) {
          var i, j :| 0 <= i < |rs| && 0 <= j < |days| && Covers(days[j], rs[i].value, d, h);
          assert Covers(days[j], rs'[i + 1].value, d, h);
        }
      }
    }
  }

  /** `parse_pattern(pattern, days)`: succeeds exactly when every comma-separated range
      parses, and then a cell is busy exactly when the block of some range on some weekday
      the day string names covers it; otherwise the error is that of the first range that
      fails. */
  function ParsePattern(pattern: string, days: string): (r: Result<seq<seq<bool>>>)
    ensures r.Ok? <==> AllOk(ParseEach(Split(pattern, ',')))
    ensures r.Err? ==> exists i :: FirstFailure(ParseEach(Split(pattern, ',')), i, r.error)
    ensures r.Ok? ==> IsGrid(r.value)
    ensures r.Ok? ==> forall d, h :: 0 <= d < Days && 0 <= h < Hours ==>
              (r.value[d][h] <==> SomeBlockCovers(ParseEach(Split(pattern, ',')), ExpandDays(days), d, h))
  {
    Fill(Empty(), Split(pattern, ','), ExpandDays(days))
  }

  /** A pattern fails as soon as any one of its ranges fails. */
  lemma ParsePatternAnyFailure(pattern: string, days: string, i: nat)
    requires i < |Split(pattern, ',')| && ParseTimeRange(Split(pattern, ',')[i]).Err?
    ensures ParsePattern(pattern, days).Err?
  {
    ParseEachAt(Split(pattern, ','), i);
  }

  /** When the first range fails, its error is the pattern's error. */
  lemma ParsePatternFirstFailure(pattern: string, days: string)
    requires ParseTimeRange(Split(pattern, ',')[0]).Err?
    ensures ParsePattern(pattern, days) == Err(ParseTimeRange(Split(pattern, ',')[0]).error)
  {
    var rs := ParseEach(Split(pattern, ','));
    ParseEachAt(Split(pattern, ','), 0);
    var e := ParsePattern(pattern, days).error;
    var i :| FirstFailure(rs, i, e);
    FirstFailureUnique(rs, i, e, 0, rs[0].error);
  }

  /** A trailing comma leaves an empty last range, so the pattern is refused. */
  lemma ParsePatternTrailingComma(pattern: string, days: string)
    ensures ParsePattern(pattern + ",", days).Err?
  {
    SplitTrailing(pattern, ',');
    var pieces := Split(pattern + ",", ',');
    assert pieces[|pieces| - 1] == [];
    ParsePatternAnyFailure(pattern + ",", days, |pieces| - 1);
  }

  /** With no weekday named, a pattern whose ranges all parse gives an all-free grid. */
  lemma ParsePatternNoDays(pattern: string, days: string)
    requires ExpandDays(days) == []
    requires ParsePattern(pattern, days).Ok?
    ensures ParsePattern(pattern, days).value == Empty()
  {
    Extensionality(ParsePattern(pattern, days).value, Empty());
  }

  lemma ParseEachConcat(xs: seq<string>, ys: seq<string>)
    ensures ParseEach(xs + ys) == ParseEach(xs) + ParseEach(ys)
  {
    MapConcat(ParseTimeRange, xs, ys);
  }

  lemma SomeBlockCoversConcat(r1: seq<Result<TimeRange>>, r2: seq<Result<TimeRange>>, days: seq<nat>, d: nat, h: nat)
    requires AllOk(r1) && AllOk(r2)
    ensures AllOk(r1 + r2)
    ensures SomeBlockCovers(r1 + r2, days, d, h) <==> SomeBlockCovers(r1, days, d, h) || SomeBlockCovers(r2, days, d, h)
  {
    AllOkConcat(r1, r2);
    var rs := r1 + r2;
    if SomeBlockCovers(rs, days, d, h) {
      var i, j :| 0 <= i < |rs| && 0 <= j < |days| && Covers(days[j], rs[i].value, d, h);
      if i >= |r1| {
        assert rs[i] == r2[i - |r1|];
      } else {
        assert rs[i] == r1[i];
      }
    }
    if SomeBlockCovers(r1, days, d, h) {
      var i, j :| 0 <= i < |r1| && 0 <= j < |days| && Covers(days[j], r1[i].value, d, h);
      assert rs[i] == r1[i];
    }
    if SomeBlockCovers(r2, days, d, h) {
      var i, j :| 0 <= i < |r2| && 0 <= j < |days| && Covers(days[j], r2[i].value, d, h);
      assert rs[|r1| + i] == r2[i];
    }
  }

  /** `res` is what `Fill` gives from an empty grid for the parse outcomes `rs`. */
  ghost predicate Describes(res: Result<seq<seq<bool>>>, rs: seq<Result<TimeRange>>, days: seq<nat>) {
    && (res.Ok? <==> AllOk(rs))
    && (res.Err? ==> exists i :: FirstFailure(rs, i, res.error))
    && (res.Ok? ==>
          && IsGrid(res.value)
          && AllOk(rs)
          && forall d, h :: 0 <= d < Days && 0 <= h < Hours ==>
               (res.value[d][h] <==> SomeBlockCovers(rs, days, d, h)))
  }

  lemma DescribesConcat(ra: Result<seq<seq<bool>>>, rb: Result<seq<seq<bool>>>, rw: Result<seq<seq<bool>>>,
                        r1: seq<Result<TimeRange>>, r2: seq<Result<TimeRange>>, days: seq<nat>)
    requires Describes(ra, r1, days) && Describes(rb, r2, days) && Describes(rw, r1 + r2, days)
    ensures rw == if ra.Err? then ra else if rb.Err? then rb else Ok(Union(ra.value, rb.value))
  {
    AllOkConcat(r1, r2);
    if ra.Err? {
      var i :| FirstFailure(r1, i, ra.error);
      FirstFailureConcat(r1, r2, i, ra.error);
      var i' :| FirstFailure(r1 + r2, i', rw.error);
      FirstFailureUnique(r1 + r2, i, ra.error, i', rw.error);
    } else if rb.Err? {
      var i :| FirstFailure(r2, i, rb.error);
      FirstFailureConcat(r1, r2, i, rb.error);
      var i' :| FirstFailure(r1 + r2, i', rw.error);
      FirstFailureUnique(r1 + r2, |r1| + i, rb.error, i', rw.error);
    } else {
      var u := Union(ra.value, rb.value);
      forall d, h | 0 <= d < Days && 0 <= h < Hours
        ensures rw.value[d][h] == u[d][h]
      {
        SomeBlockCoversConcat(r1, r2, days, d, h);
      }
      Extensionality(rw.value, u);
    }
  }

  lemma PatternDescribes(pattern: string, days: string)
    ensures Describes(ParsePattern(pattern, days), ParseEach(Split(pattern, ',')), ExpandDays(days))
  {
  }

  lemma SplitPatternAround(a: string, b: string)
    ensures ParseEach(Split(a + "," + b, ',')) == ParseEach(Split(a, ',')) + ParseEach(Split(b, ','))
  {
    SplitAround(a, b, ',');
    ParseEachConcat(Split(a, ','), Split(b, ','));
  }

  /** A comma joins two patterns: the result fails with the first one's error, else with
      the second one's, and otherwise is the union of their grids. */
  lemma ParsePatternComma(a: string, b: string, days: string)
    ensures ParsePattern(a + "," + b, days) ==
      if ParsePattern(a, days).Err? then ParsePattern(a, days)
      else if ParsePattern(b, days).Err? then ParsePattern(b, days)
      else Ok(Union(ParsePattern(a, days).value, ParsePattern(b, days).value))
  {
    PatternDescribes(a, days);
    PatternDescribes(b, days);
    PatternDescribes(a + "," + b, days);
    SplitPatternAround(a, b);
    DescribesConcat(ParsePattern(a, days), ParsePattern(b, days), ParsePattern(a + "," + b, days),
                    ParseEach(Split(a, ',')), ParseEach(Split(b, ',')), ExpandDays(days));
  }

  /** With a single outcome, the blocks are those of its range. */
  lemma SingleOutcomeCovers(r: TimeRange, days: seq<nat>, d: nat, h: nat)
    ensures SomeBlockCovers([Ok(r)], days, d, h) <==> OnSomeDay(days, r, d, h)
  {
    if OnSomeDay(days, r, d, h) {
      var j :| 0 <= j < |days| && Covers(days[j], r, d, h);
      assert Covers(days[j], [Ok(r)][0].value, d, h);
    }
  }

  /** A pattern of one range (no comma) places that range's block on every weekday named. */
  lemma SingleRangePattern(rng: string, days: string, r: TimeRange)
    requires ',' !in rng && ParseTimeRange(rng) == Ok(r)
    ensures ParsePattern(rng, days).Ok?
    ensures forall d, h :: 0 <= d < Days && 0 <= h < Hours ==>
              (ParsePattern(rng, days).value[d][h] <==> OnSomeDay(ExpandDays(days), r, d, h))
  {
    SplitWithout(rng, ',');
    assert ParseEach([rng]) == [Ok(r)];
    forall d: nat, h: nat {
      SingleOutcomeCovers(r, ExpandDays(days), d, h);
    }
  }

  /** A pattern with neither ',' nor '-' is refused as one piece, whatever the days. */
  lemma ParsePatternWithoutHyphen(pattern: string, days: string)
    requires ',' !in pattern && '-' !in pattern
    ensures ParsePattern(pattern, days) == Err(RangePieces(1))
  {
    SplitWithout(pattern, ',');
    ParseTimeRangeNoHyphen(pattern);
    ParsePatternFirstFailure(pattern, days);
  }

  /** Patterns the source refuses although they hold no range at all: the empty pattern,
      blanks and the spreadsheet's "nan" each give one piece without a '-', as does a range
      missing its hyphen. */
  lemma ParsePatternRefusesBlank(pattern: string, days: string)
    requires pattern in {"", "   ", "nan", "2pm5pm"}
    ensures ParsePattern(pattern, days) == Err(RangePieces(1))
  {
    ParsePatternWithoutHyphen(pattern, days);
  }
}
