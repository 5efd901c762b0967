/**
  The occupancy grid: 7 weekdays (0 = Mon … 6 = Sun) by 24 hours. The source keeps it in a
  7×24 numpy array of zeros and ones; here a cell is a `bool`.
 */
module Grid {

  const Days: nat := 7
  const Hours: nat := 24

  /** The weekday labels `DAYS`, in index order. */
  const DayNames: seq<string> := ["Mon", "Tue", "Wed", "Thu", "Fri", "Sat", "Sun"]

  predicate IsGrid(g: seq<seq<bool>>) {
    |g| == Days && forall d :: 0 <= d < Days ==> |g[d]| == Hours
  }

  /** `np.zeros((7, 24))`. */
  function Empty(): (g: seq<seq<bool>>)
    ensures IsGrid(g)
    ensures forall d, h :: 0 <= d < Days && 0 <= h < Hours ==> !g[d][h]
  {
    seq(Days, d => seq(Hours, h => false))
  }

  /** `for h in range(lo, hi): grid[day, h] = 1`: sets exactly the cells of `day` whose hour
      lies in [lo, hi) and leaves every other cell as it was. */
  function MarkHours(g: seq<seq<bool>>, day: nat, lo: nat, hi: nat): (r: seq<seq<bool>>)
    requires IsGrid(g) && day < Days && hi <= Hours
    ensures IsGrid(r)
    ensures forall d, h :: 0 <= d < Days && 0 <= h < Hours ==>
              (r[d][h] <==> g[d][h] || (d == day && lo <= h < hi))
    decreases hi - lo
  {
    if lo >= hi then g
    else MarkHours(g[day := g[day][lo := true]], day, lo + 1, hi)
  }

  /** Cell-wise OR of two grids: a cell is busy in the union when it is busy in either. */
  function Union(a: seq<seq<bool>>, b: seq<seq<bool>>): (u: seq<seq<bool>>)
    requires IsGrid(a) && IsGrid(b)
    ensures IsGrid(u)
    ensures forall d, h :: 0 <= d < Days && 0 <= h < Hours ==> (u[d][h] <==> a[d][h] || b[d][h])
  {
    seq(Days, d requires 0 <= d < Days => seq(Hours, h requires 0 <= h < Hours => a[d][h] || b[d][h]))
  }

  /** Two grids with the same cells are the same grid. */
  lemma Extensionality(a: seq<seq<bool>>, b: seq<seq<bool>>)
    requires IsGrid(a) && IsGrid(b)
    requires forall d, h :: 0 <= d < Days && 0 <= h < Hours ==> a[d][h] == b[d][h]
    ensures a == b
  {
    forall d | 0 <= d < Days
      ensures a[d] == b[d]
    {
      assert forall h :: 0 <= h < Hours ==> a[d][h] == b[d][h];
    }
  }
}
