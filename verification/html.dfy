/**
  `grid_to_html`: one schedule as an HTML fragment. A heading with the name, then a table
  whose header row is an empty corner cell followed by the hours 0..23, then one row per
  weekday: the weekday label and 24 cells, each with class "busy" when the grid cell is set
  and an empty class otherwise.

  The partner is a reader, `ReadGrid`, that takes such a fragment apart again; reading back
  what `GridToHtml` writes gives the grid back, so the fragment loses no cell. The rows are
  written and read with their texts as parameters (`RowTexts`), so that the read-back
  proof holds for any texts in which the two cell texts differ.
 */
module Html {
  import opened Errors
  import opened Strings
  import opened Grid

  /** The table cell written for a set grid cell, and for a clear one. */
  const BusyCell: string := "<td class=\"busy\"></td>"
  const FreeCell: string := "<td class=\"\"></td>"

  /** The texts one after another. */
  function Concat(parts: seq<string>): string {
    if parts == [] then "" else parts[0] + Concat(parts[1..])
  }

  /** The header cells `<th>0</th>` … `<th>23</th>`. */
  function HourHeaders(): string {
    Concat(seq(Hours, h requires 0 <= h < Hours => "<th>" + NatToString(h) + "</th>"))
  }

  /** The heading with the schedule's name. */
  function Heading(name: string): string {
    "<h2>" + name + "</h2>"
  }

  /** The table's opening tag and its header row. */
  function TableHead(): string {
    "<table class=\"sched\"><tr><th></th>" + HourHeaders() + "</tr>"
  }

  /** Everything before the weekday rows. */
  function Head(name: string): string {
    Heading(name) + TableHead()
  }

  /** The start of weekday d's row: the row tag and the weekday's label cell. */
  function RowOpening(d: nat): string
    requires d < Days
  {
    "<tr><td>" + DayNames[d] + "</td>"
  }

  /** The row openings of the seven weekdays, Monday first. */
  function RowOpenings(): (openings: seq<string>)
    ensures |openings| == Days
  {
    seq(Days, d requires 0 <= d < Days => RowOpening(d))
  }

  /** The texts a row is made of besides its opening: the cell texts for a set and for a
      clear cell, and the row's closing tag. */
  datatype RowTexts = RowTexts(busy: string, free: string, close: string)

  /** The texts `grid_to_html` writes. */
  const TableTexts: RowTexts := RowTexts(BusyCell, FreeCell, "</tr>")

  /** The cells of a row, with `busy` written for a set cell and `free` for a clear one. */
  function CellsOf(row: seq<bool>, busy: string, free: string): string {
    if row == [] then "" else (if row[0] then busy else free) + CellsOf(row[1..], busy, free)
  }

  /** One row: its opening, its cells, its closing tag. */
  function RowOf(opening: string, row: seq<bool>, rt: RowTexts): string {
    opening + CellsOf(row, rt.busy, rt.free) + rt.close
  }

  /** The rows, the k-th opened with the k-th opening. */
  function RowsOf(rows: seq<seq<bool>>, openings: seq<string>, rt: RowTexts): string
    requires |rows| == |openings|
  {
    if rows == [] then "" else RowOf(openings[0], rows[0], rt) + RowsOf(rows[1..], openings[1..], rt)
  }

  /** The seven weekday rows of the table. */
  function Rows(g: seq<seq<bool>>): string
    requires IsGrid(g)
  {
    RowsOf(g, RowOpenings(), TableTexts)
  }

  /** `grid_to_html(name, grid)`. The name is written as it is, without escaping. */
  function GridToHtml(name: string, g: seq<seq<bool>>): (html: string)
    requires IsGrid(g)
    ensures IsPrefix(Heading(name), html)
    ensures |html| >= 8 && html[|html| - 8..] == "</table>"
  {
    Framed(Heading(name), TableHead(), Rows(g), "</table>");
    Head(name) + Rows(g) + "</table>"
  }

  /** `a + b + m + c` begins with `a` and ends with `c`. */
  lemma Framed(a: string, b: string, m: string, c: string)
    ensures IsPrefix(a, (a + b) + m + c)
    ensures var x := (a + b) + m + c; x[|x| - |c|..] == c
  {
    var x := (a + b) + m + c;
    assert x == a + (b + m + c);
  }

  // ---- reading a fragment back ----

  /** What follows `p` in `s`, if `s` begins with `p`. */
  function After(p: string, s: string): (r: Option<string>)
    ensures r.Some? <==> IsPrefix(p, s)
    ensures r.Some? ==> s == p + r.value
  {
    if IsPrefix(p, s) then Some(s[|p|..]) else None
  }

  lemma AfterPrefix(p: string, t: string)
    ensures After(p, p + t) == Some(t)
  {
    assert (p + t)[..|p|] == p;
    assert (p + t)[|p|..] == t;
  }

  /** Reads `n` cells written as `busy` or `free` from the front of `s`. */
  function ReadCellsOf(s: string, n: nat, busy: string, free: string): (r: Option<(seq<bool>, string)>)
    ensures r.Some? ==> |r.value.0| == n
    decreases n
  {
    if n == 0 then Some(([], s))
    else if After(busy, s).Some? then
      var rest :- ReadCellsOf(After(busy, s).value, n - 1, busy, free);
      Some(([true] + rest.0, rest.1))
    else if After(free, s).Some? then
      var rest :- ReadCellsOf(After(free, s).value, n - 1, busy, free);
      Some(([false] + rest.0, rest.1))
    else None
  }

  /** Two cell texts that part at position k: neither begins the other. */
  predicate PartAt(busy: string, free: string, k: nat) {
    k < |busy| && k < |free| && busy[k] != free[k]
  }

  /** A row whose first cell is set reads back, given that the rest of it does. */
  lemma ReadBusyFirst(row: seq<bool>, t: string, busy: string, free: string)
    requires row != [] && row[0]
    requires ReadCellsOf(CellsOf(row[1..], busy, free) + t, |row| - 1, busy, free) == Some((row[1..], t))
    ensures ReadCellsOf(CellsOf(row, busy, free) + t, |row|, busy, free) == Some((row, t))
  {
    var rest := CellsOf(row[1..], busy, free) + t;
    assert CellsOf(row, busy, free) + t == busy + rest;
    AfterPrefix(busy, rest);
    assert [row[0]] + row[1..] == row;
  }

  /** A row whose first cell is clear reads back, given that the rest of it does. */
  lemma ReadFreeFirst(row: seq<bool>, t: string, busy: string, free: string, k: nat)
    requires row != [] && !row[0] && PartAt(busy, free, k)
    requires ReadCellsOf(CellsOf(row[1..], busy, free) + t, |row| - 1, busy, free) == Some((row[1..], t))
    ensures ReadCellsOf(CellsOf(row, busy, free) + t, |row|, busy, free) == Some((row, t))
  {
    var rest := CellsOf(row[1..], busy, free) + t;
    assert CellsOf(row, busy, free) + t == free + rest;
    assert (free + rest)[k] == free[k];
    AfterPrefix(free, rest);
    assert [row[0]] + row[1..] == row;
  }

  /** The cells of a row read back as the row, whatever follows them. */
  lemma {:induction false} ReadCellsOfCells(row: seq<bool>, t: string, busy: string, free: string, k: nat)
    requires PartAt(busy, free, k)
    ensures ReadCellsOf(CellsOf(row, busy, free) + t, |row|, busy, free) == Some((row, t))
    decreases |row|
  {
    if row != [] {
      ReadCellsOfCells(row[1..], t, busy, free, k);
      if row[0] {
        ReadBusyFirst(row, t, busy, free);
      } else {
        ReadFreeFirst(row, t, busy, free, k);
      }
    } else {
      assert CellsOf(row, busy, free) + t == t;
    }
  }

  /** Every row has one cell per hour. */
  predicate AllRows(rows: seq<seq<bool>>) {
    forall k :: 0 <= k < |rows| ==> |rows[k]| == Hours
  }

  /** Reads one row per opening, each of 24 cells, giving the rows and what follows. */
  function ReadRowsOf(s: string, openings: seq<string>, rt: RowTexts): Option<(seq<seq<bool>>, string)>
    decreases |openings|
  {
    if openings == [] then Some(([], s))
    else
      var afterOpening :- After(openings[0], s);
      var cells :- ReadCellsOf(afterOpening, Hours, rt.busy, rt.free);
      var afterRow :- After(rt.close, cells.1);
      var rest :- ReadRowsOf(afterRow, openings[1..], rt);
      Some(([cells.0] + rest.0, rest.1))
  }

  /** A row followed by more text reads back as the row, then whatever that text reads as. */
  lemma ReadRowOfRow(opening: string, openings: seq<string>, row: seq<bool>, rest: string, rt: RowTexts, k: nat)
    requires |row| == Hours && PartAt(rt.busy, rt.free, k)
    ensures ReadRowsOf(RowOf(opening, row, rt) + rest, [opening] + openings, rt) ==
            (var r :- ReadRowsOf(rest, openings, rt); Some(([row] + r.0, r.1)))
  {
    var cells := CellsOf(row, rt.busy, rt.free);
    assert RowOf(opening, row, rt) + rest == opening + (cells + (rt.close + rest));
    AfterPrefix(opening, cells + (rt.close + rest));
    ReadCellsOfCells(row, rt.close + rest, rt.busy, rt.free, k);
    AfterPrefix(rt.close, rest);
    assert ([opening] + openings)[1..] == openings;
  }

  /** The rows read back, given that those after the first do. */
  lemma ReadRowsStep(rows: seq<seq<bool>>, openings: seq<string>, t: string, rt: RowTexts, k: nat)
    requires |rows| == |openings| && rows != [] && |rows[0]| == Hours && PartAt(rt.busy, rt.free, k)
    requires ReadRowsOf(RowsOf(rows[1..], openings[1..], rt) + t, openings[1..], rt) == Some((rows[1..], t))
    ensures ReadRowsOf(RowsOf(rows, openings, rt) + t, openings, rt) == Some((rows, t))
  {
    var later := RowsOf(rows[1..], openings[1..], rt) + t;
    assert RowsOf(rows, openings, rt) + t == RowOf(openings[0], rows[0], rt) + later;
    ReadRowOfRow(openings[0], openings[1..], rows[0], later, rt, k);
    assert [openings[0]] + openings[1..] == openings;
    assert [rows[0]] + rows[1..] == rows;
  }

  /** Rows of 24 cells read back as they were written, whatever follows them. */
  lemma {:induction false} ReadRowsOfRows(rows: seq<seq<bool>>, openings: seq<string>, t: string, rt: RowTexts, k: nat)
    requires |rows| == |openings| && AllRows(rows) && PartAt(rt.busy, rt.free, k)
    ensures ReadRowsOf(RowsOf(rows, openings, rt) + t, openings, rt) == Some((rows, t))
    decreases |rows|
  {
    if rows != [] {
      assert AllRows(rows[1..]) by {
        forall j | 0 <= j < |rows| - 1
          ensures |rows[1..][j]| == Hours
        {
          assert rows[1..][j] == rows[j + 1];
        }
      }
      ReadRowsOfRows(rows[1..], openings[1..], t, rt, k);
      assert |rows[0]| == Hours;
      ReadRowsStep(rows, openings, t, rt, k);
    } else {
      assert RowsOf(rows, openings, rt) + t == t;
    }
  }

  /** Reads a fragment written for the schedule `name`: its head, seven weekday rows and the
      closing tag, with nothing after it. */
  function ReadGrid(name: string, html: string): Option<seq<seq<bool>>> {
    var body :- After(Head(name), html);
    var rows :- ReadRowsOf(body, RowOpenings(), TableTexts);
    if rows.1 == "</table>" then Some(rows.0) else None
  }

  /** The two cell texts part at the first letter of the class name. */
  lemma CellTextsPart()
    ensures PartAt(TableTexts.busy, TableTexts.free, 11)
  {
    assert BusyCell[11] == 'b' && FreeCell[11] == '"';
  }

  /** The rows of a grid read back as the grid. */
  lemma ReadRowsOfGrid(g: seq<seq<bool>>)
    requires IsGrid(g)
    ensures ReadRowsOf(Rows(g) + "</table>", RowOpenings(), TableTexts) == Some((g, "</table>"))
  {
    CellTextsPart();
    assert AllRows(g);
    ReadRowsOfRows(g, RowOpenings(), "</table>", TableTexts, 11);
  }

  /** Reading back the fragment `grid_to_html` writes gives the grid it was written from. */
  lemma ReadGridOfGridToHtml(name: string, g: seq<seq<bool>>)
    requires IsGrid(g)
    ensures ReadGrid(name, GridToHtml(name, g)) == Some(g)
  {
    assert GridToHtml(name, g) == Head(name) + (Rows(g) + "</table>");
    AfterPrefix(Head(name), Rows(g) + "</table>");
    ReadRowsOfGrid(g);
  }

  /** Different grids give different fragments: every cell of the grid is visible in it. */
  lemma GridToHtmlInjective(name: string, g1: seq<seq<bool>>, g2: seq<seq<bool>>)
    requires IsGrid(g1) && IsGrid(g2)
    requires GridToHtml(name, g1) == GridToHtml(name, g2)
    ensures g1 == g2
  {
    ReadGridOfGridToHtml(name, g1);
    ReadGridOfGridToHtml(name, g2);
  }
}
