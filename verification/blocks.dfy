/**
  `add_block`: ORs one time range into the grid for one weekday. A range whose start is
  before its end occupies hours [start.hour, ceil(end)) of that weekday; any other range
  (equal times included) runs from start.hour to the end of the day and continues on the
  next weekday (Sunday wraps to Monday) up to ceil(end). ceil(end) is end.hour, plus one
  when end has non-zero minutes: a part-hour end occupies its whole hour, while the start's
  minutes are dropped.

  The hour-level rule is `Covers`; `Overlaps` says the same thing in minutes of the week
  (a cell is occupied exactly when the range's minutes meet that hour), and
  `CoversIffOverlaps` proves the two agree.
 */
module Blocks {
  import opened Clock
  import opened Grid

  /** The (start, end) pair `parse_time_range` returns. */
  datatype TimeRange = TimeRange(start: ClockTime, end: ClockTime) {
    predicate Valid() {
      start.Valid() && end.Valid()
    }
  }

  /** `e if end.minute == 0 else e+1`. */
  function CeilHour(t: ClockTime): nat {
    if t.minute == 0 then t.hour else t.hour + 1
  }

  /** The weekday after `day`: Sunday is followed by Monday. */
  function NextDay(day: nat): nat {
    (day + 1) % Days
  }

  /** The cell (d, h) belongs to the block `add_block(grid, day, start, end)` writes. */
  predicate Covers(day: nat, r: TimeRange, d: nat, h: nat) {
    if Before(r.start, r.end) then
      d == day && r.start.hour <= h < CeilHour(r.end)
    else
      || (d == day && r.start.hour <= h < Hours)
      || (d == NextDay(day) && h < CeilHour(r.end))
  }

  /** `add_block`: the result holds exactly the cells already set plus the block's cells.
      In particular no cell is ever cleared, and every hour written is within 0..23. */
  function AddBlock(g: seq<seq<bool>>, day: nat, r: TimeRange): (g': seq<seq<bool>>)
    requires IsGrid(g) && day < Days && r.Valid()
    ensures IsGrid(g')
    ensures forall d, h :: 0 <= d < Days && 0 <= h < Hours ==>
              (g'[d][h] <==> g[d][h] || Covers(day, r, d, h))
  {
    if Before(r.start, r.end) then
      MarkHours(g, day, r.start.hour, CeilHour(r.end))
    else
      MarkHours(MarkHours(g, day, r.start.hour, Hours), NextDay(day), 0, CeilHour(r.end))
  }

  /** Adding the same block twice is the same as adding it once. */
  lemma AddBlockIdempotent(g: seq<seq<bool>>, day: nat, r: TimeRange)
    requires IsGrid(g) && day < Days && r.Valid()
    ensures AddBlock(AddBlock(g, day, r), day, r) == AddBlock(g, day, r)
  {
    Extensionality(AddBlock(AddBlock(g, day, r), day, r), AddBlock(g, day, r));
  }

  /** The order in which blocks are added does not matter. */
  lemma AddBlockCommutes(g: seq<seq<bool>>, day1: nat, r1: TimeRange, day2: nat, r2: TimeRange)
    requires IsGrid(g) && day1 < Days && day2 < Days && r1.Valid() && r2.Valid()
    ensures AddBlock(AddBlock(g, day1, r1), day2, r2) == AddBlock(AddBlock(g, day2, r2), day1, r1)
  {
    Extensionality(AddBlock(AddBlock(g, day1, r1), day2, r2), AddBlock(AddBlock(g, day2, r2), day1, r1));
  }

  /** A range ending at 12am adds nothing to the next weekday. */
  lemma MidnightEndStaysOnDay(g: seq<seq<bool>>, day: nat, r: TimeRange)
    requires IsGrid(g) && day < Days && r.Valid()
    requires r.end == ClockTime(0, 0)
    ensures forall h :: 0 <= h < Hours ==> AddBlock(g, day, r)[NextDay(day)][h] == g[NextDay(day)][h]
  {
  }

  // ---- the same rule in minutes ----

  const MinutesPerDay: nat := 1440
  const MinutesPerWeek: nat := 10080

  function Minutes(t: ClockTime): nat {
    t.hour * 60 + t.minute
  }

  /** Python compares times by (hour, minute), which is comparing minutes since midnight. */
  lemma BeforeIsMinuteOrder(a: ClockTime, b: ClockTime)
    requires a.Valid() && b.Valid()
    ensures Before(a, b) <==> Minutes(a) < Minutes(b)
  {
  }

  /** How many minutes the range lasts: up to its end the same day, or, when it does not
      end after it starts, through midnight to its end the next day. */
  function Duration(r: TimeRange): nat
    requires r.Valid()
  {
    if Before(r.start, r.end) then Minutes(r.end) - Minutes(r.start)
    else MinutesPerDay - Minutes(r.start) + Minutes(r.end)
  }

  /** The hour of the week (0..167) that the k-th minute of the block falls in. */
  function HourOfWeek(day: nat, r: TimeRange, k: nat): nat {
    ((day * MinutesPerDay + Minutes(r.start) + k) % MinutesPerWeek) / 60
  }

  /** Some minute of the block placed on `day` lies in hour h of weekday d. */
  predicate Overlaps(day: nat, r: TimeRange, d: nat, h: nat)
    requires r.Valid()
  {
    exists k :: 0 <= k < Duration(r) && HourOfWeek(day, r, k) == d * Hours + h
  }

  lemma HourOfMinute(day: nat, x: nat)
    requires day < Days && x < MinutesPerDay
    ensures ((day * MinutesPerDay + x) % MinutesPerWeek) / 60 == day * Hours + x / 60
  {
    assert day * MinutesPerDay + x < MinutesPerWeek;
    assert (day * MinutesPerDay + x) / 60 == day * Hours + x / 60;
  }

  lemma HourOfNextDayMinute(day: nat, x: nat)
    requires day < Days && x < MinutesPerDay
    ensures ((day * MinutesPerDay + MinutesPerDay + x) % MinutesPerWeek) / 60
            == NextDay(day) * Hours + x / 60
  {
    if day + 1 < Days {
      HourOfMinute(day + 1, x);
    } else {
      assert day * MinutesPerDay + MinutesPerDay + x == MinutesPerWeek + x;
      HourOfMinute(0, x);
    }
  }

  lemma SlotUnique(d: nat, h: nat, d': nat, h': nat)
    requires h < Hours && h' < Hours
    requires d * Hours + h == d' * Hours + h'
    ensures d == d' && h == h'
  {
  }

  /** A minute of the day x lies before ceil(end) hours exactly when x is before end. */
  lemma CeilHourBound(e: ClockTime, h: nat)
    requires e.Valid()
    ensures h < CeilHour(e) <==> h * 60 < Minutes(e)
  {
  }

  /** A minute x lies in an hour from h onwards: where a block starting at minute s meets hour h. */
  lemma StartHourBound(s: nat, x: nat)
    requires s <= x
    ensures s / 60 <= x / 60
  {
  }

  /** Covering in hours implies overlapping in minutes. */
  lemma CoversImpliesOverlaps(day: nat, r: TimeRange, d: nat, h: nat)
    requires day < Days && r.Valid() && d < Days && h < Hours
    requires Covers(day, r, d, h)
    ensures Overlaps(day, r, d, h)
  {
    var s, e := Minutes(r.start), Minutes(r.end);
    BeforeIsMinuteOrder(r.start, r.end);
    CeilHourBound(r.end, h);
    if d == day && r.start.hour <= h && (!Before(r.start, r.end) || h < CeilHour(r.end)) {
      // the block's first minute in hour h of its own day
      var x := if h * 60 <= s then s else h * 60;
      assert x / 60 == h;
      var k := x - s;
      HourOfMinute(day, x);
      assert HourOfWeek(day, r, k) == d * Hours + h;
    } else {
      // hour h of the next day, reached after midnight
      assert !Before(r.start, r.end) && d == NextDay(day) && h * 60 < e;
      var k := MinutesPerDay - s + h * 60;
      HourOfNextDayMinute(day, h * 60);
      assert day * MinutesPerDay + s + k == day * MinutesPerDay + MinutesPerDay + h * 60;
      assert HourOfWeek(day, r, k) == d * Hours + h;
    }
  }

  /** Overlapping in minutes implies covering in hours. */
  lemma OverlapsImpliesCovers(day: nat, r: TimeRange, d: nat, h: nat)
    requires day < Days && r.Valid() && d < Days && h < Hours
    requires Overlaps(day, r, d, h)
    ensures Covers(day, r, d, h)
  {
    var k :| 0 <= k < Duration(r) && HourOfWeek(day, r, k) == d * Hours + h;
    if Minutes(r.start) + k < MinutesPerDay {
      SameDayMinuteCovers(day, r, d, h, k);
    } else {
      NextDayMinuteCovers(day, r, d, h, k);
    }
  }

  /** A minute of the block before midnight lies in an hour the block covers on its day. */
  lemma SameDayMinuteCovers(day: nat, r: TimeRange, d: nat, h: nat, k: nat)
    requires day < Days && r.Valid() && d < Days && h < Hours
    requires k < Duration(r) && HourOfWeek(day, r, k) == d * Hours + h
    requires Minutes(r.start) + k < MinutesPerDay
    ensures Covers(day, r, d, h)
  {
    var s := Minutes(r.start);
    BeforeIsMinuteOrder(r.start, r.end);
    CeilHourBound(r.end, h);
    HourOfMinute(day, s + k);
    SlotUnique(d, h, day, (s + k) / 60);
    StartHourBound(s, s + k);
  }

  /** A minute of the block after midnight lies in an hour the block covers on the next day. */
  lemma NextDayMinuteCovers(day: nat, r: TimeRange, d: nat, h: nat, k: nat)
    requires day < Days && r.Valid() && d < Days && h < Hours
    requires k < Duration(r) && HourOfWeek(day, r, k) == d * Hours + h
    requires Minutes(r.start) + k >= MinutesPerDay
    ensures Covers(day, r, d, h)
  {
    var s := Minutes(r.start);
    BeforeIsMinuteOrder(r.start, r.end);
    CeilHourBound(r.end, h);
    var x := s + k - MinutesPerDay;
    assert day * MinutesPerDay + s + k == day * MinutesPerDay + MinutesPerDay + x;
    HourOfNextDayMinute(day, x);
    SlotUnique(d, h, NextDay(day), x / 60);
  }

  /** The hour rule of `add_block` is exactly "the block's minutes meet this hour": a
      part-hour end occupies its hour and a part-hour start occupies its hour. */
  lemma CoversIffOverlaps(day: nat, r: TimeRange, d: nat, h: nat)
    requires day < Days && r.Valid() && d < Days && h < Hours
    ensures Covers(day, r, d, h) <==> Overlaps(day, r, d, h)
  {
    if Covers(day, r, d, h) {
      CoversImpliesOverlaps(day, r, d, h);
    }
    if Overlaps(day, r, d, h) {
      OverlapsImpliesCovers(day, r, d, h);
    }
  }
}
