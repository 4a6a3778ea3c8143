/** One group of completion candidates laid out in rows, and its selector
    (internal/completion/group.go). Groups of aliased candidates are left out. */
module Grids {
  import opened Basics

  datatype Candidate = Candidate(value: string, displayLen: nat, descLen: nat)

  /** The rows, the position of the selector (-1, -1 before the first use), and the
      extent kept with the rows. */
  datatype Grid = Grid(rows: seq<seq<Candidate>>, posX: int, posY: int, maxX: int, maxY: int)

  // Layout ---------------------------------------------------------------------

  function LongestValue(comps: seq<Candidate>): (n: nat)
    ensures forall c :: c in comps ==> c.displayLen <= n
    ensures if comps == [] then n == 0 else exists c :: c in comps && c.displayLen == n
  {
    if comps == [] then 0 else Max(LongestValue(comps[..|comps| - 1]), comps[|comps| - 1].displayLen)
  }

  function LongestDesc(comps: seq<Candidate>): (n: nat)
    ensures forall c :: c in comps ==> c.descLen <= n
    ensures if comps == [] then n == 0 else exists c :: c in comps && c.descLen == n
  {
    if comps == [] then 0 else Max(LongestDesc(comps[..|comps| - 1]), comps[|comps| - 1].descLen)
  }

  /** Room for a value and its description; the separator is counted twice. */
  function PairLength(comps: seq<Candidate>, separator: nat): int {
    var desc := LongestDesc(comps);
    LongestValue(comps) + (if desc > 0 then desc + 2 * (separator + 2) else 0) + 2
  }

  function Columns(comps: seq<Candidate>, separator: nat, termWidth: int, list: bool): (n: int)
    requires termWidth > 0
    ensures n >= 1
  {
    var columns := termWidth / Min(termWidth, PairLength(comps, separator));
    if list || columns < 0 then 1 else columns
  }

  /** The value of one candidate next to the description of another. */
  function PairOf(c: Candidate, d: Candidate, separator: nat): nat {
    c.displayLen + (if d.descLen == 0 then 0 else d.descLen + separator + 2 + separator + 2) + 2
  }

  /** A column has room for any value next to any description, with the separator twice, and
      two spaces more; the widest of these fills it. */
  lemma {:induction false} PairIsWidest(comps: seq<Candidate>, separator: nat)
    requires comps != []
    ensures forall c, d :: c in comps && d in comps ==> PairOf(c, d, separator) <= PairLength(comps, separator)
    ensures exists c, d :: c in comps && d in comps && PairOf(c, d, separator) == PairLength(comps, separator)
  {
    var v, w := LongestValue(comps), LongestDesc(comps);
    assert exists c :: c in comps && c.displayLen == v;
    assert exists d :: d in comps && d.descLen == w;
    var c :| c in comps && c.displayLen == v;
    var d :| d in comps && d.descLen == w;
    assert PairOf(c, d, separator) == PairLength(comps, separator);
  }

  /** As many columns as fit side by side, but at least one, and one only for a list. */
  lemma {:induction false} ColumnsFit(comps: seq<Candidate>, separator: nat, termWidth: int, list: bool)
    requires termWidth > 0
    ensures var n, w := Columns(comps, separator, termWidth, list), PairLength(comps, separator);
      && w >= 2
      && (list ==> n == 1)
      && (!list && w <= termWidth ==> n * w <= termWidth < (n + 1) * w)
      && (w > termWidth ==> n == 1)
  {
    var w := PairLength(comps, separator);
    assert w >= 2;
    hide PairLength;
    if w <= termWidth { Fitting(termWidth, w); } else { Fitting(termWidth, termWidth); }
  }

  lemma {:induction false} Fitting(room: int, w: int)
    requires 0 < w <= room
    ensures var n := room / w; n >= 1 && n * w <= room < (n + 1) * w
    ensures room == w ==> room / w == 1
  {
    var n := room / w;
    assert n * w <= room < n * w + w;
    assert (n + 1) * w == n * w + w;
    if n < 1 { Times(n, 0, w); }
  }

  function RowCount(n: nat, columns: int): nat
    requires columns >= 1
  {
    (n + columns - 1) / columns
  }

  function Row(comps: seq<Candidate>, columns: int, i: nat): seq<Candidate>
    requires columns >= 1 && i * columns <= |comps|
  {
    comps[i * columns..Min(|comps|, (i + 1) * columns)]
  }

  function Flatten(rows: seq<seq<Candidate>>): seq<Candidate> {
    if rows == [] then [] else Flatten(rows[..|rows| - 1]) + rows[|rows| - 1]
  }

  /** The rows of a group are what the selector relies on: none empty, none wider
      than maxX, as many as maxY says. */
  predicate WellFormed(g: Grid) {
    && g.maxY == |g.rows|
    && forall y :: 0 <= y < |g.rows| ==> 0 < |g.rows[y]| <= g.maxX
  }

  predicate Unused(g: Grid) { g.posX == -1 && g.posY == -1 }

  predicate OnCell(g: Grid) { 0 <= g.posY < |g.rows| && 0 <= g.posX < |g.rows[g.posY]| }

  lemma {:induction false} RowBounds(n: nat, columns: int, i: nat)
    requires columns >= 1 && i < RowCount(n, columns)
    ensures i * columns < n
    ensures i + 1 < RowCount(n, columns) ==> (i + 1) * columns < n
    ensures i + 1 == RowCount(n, columns) ==> (i + 1) * columns >= n
  {
    var c := RowCount(n, columns);
    assert c * columns <= n + columns - 1 < c * columns + columns;
    assert (i + 1) * columns <= c * columns by { Times(i + 1, c, columns); }
    assert (i + 1) * columns == i * columns + columns;
    if i + 1 < c { Times(i + 2, c, columns); assert (i + 2) * columns == (i + 1) * columns + columns; }
  }

  lemma {:induction false} Times(a: int, b: int, c: int)
    requires a <= b && c >= 0
    ensures a * c <= b * c
  {
  }

  /** createGrid: rows of the same length but for the last, none empty, holding the
      candidates in order. */
  method CreateGrid(comps: seq<Candidate>, rowCount: nat, columns: int) returns (rows: seq<seq<Candidate>>)
    requires columns >= 1 && rowCount == RowCount(|comps|, columns)
    ensures |rows| == rowCount && Flatten(rows) == comps
    ensures forall y :: 0 <= y < |rows| ==> 0 < |rows[y]| <= columns
    ensures forall y :: 0 <= y < |rows| - 1 ==> |rows[y]| == columns
  {
    rows := [];
    for i := 0 to rowCount
      invariant |rows| == i && i * columns <= |comps| + columns && (i < rowCount ==> i * columns <= |comps|)
      invariant Flatten(rows) == comps[..Min(|comps|, i * columns)]
      invariant forall y :: 0 <= y < i ==> 0 < |rows[y]| <= columns
      invariant forall y :: 0 <= y < i && y < rowCount - 1 ==> |rows[y]| == columns
    {
      RowBounds(|comps|, columns, i);
      var row := Row(comps, columns, i);
      assert (i + 1) * columns == i * columns + columns;
      assert comps[..Min(|comps|, (i + 1) * columns)] == comps[..i * columns] + row;
      assert (rows + [row])[..i] == rows;
      rows := rows + [row];
    }
    if rowCount > 0 { RowBounds(|comps|, columns, rowCount - 1); }
  }

  // The selector ------------------------------------------------------------------

  datatype Moved = Moved(g: Grid, done: bool, next: bool)

  /** One step of the selector: x or y is 1 or -1, the other 0. */
  predicate UnitStep(x: int, y: int) {
    (x == 0 && (y == 1 || y == -1)) || (y == 0 && (x == 1 || x == -1))
  }

  function At(g: Grid, x: int, y: int): Grid { g.(posX := x, posY := y) }

  predicate Usable(g: Grid) { WellFormed(g) && |g.rows| > 0 && (Unused(g) || OnCell(g)) }

  /** The steps of moveSelector after the position has been changed to (x, y). */
  function Settle(g: Grid, x: int, y: int, reverse: bool): Moved
    requires WellFormed(g) && |g.rows| > 0
    requires x < 0 ==> reverse && 0 <= y < |g.rows|
    requires -2 <= y <= |g.rows|
  {
    if x < 0 && y == 0 then Moved(At(g, 0, 0), true, false)
    else
      var y1 := if x < 0 then y - 1 else y;
      var x1 := if x < 0 then |g.rows[y1]| - 1 else x;
      if y1 < 0 && x1 == 0 then Moved(At(g, 0, 0), true, false)
      else
        var y2 := if y1 < 0 then |g.rows| - 1 else y1;
        var x2 := if y1 < 0 then x1 - 1 else x1;
        if y2 > g.maxY - 1 && x2 >= g.maxX - 1 then Moved(At(g, x2, 0), true, true)
        else
          var y3 := if y2 > g.maxY - 1 then 0 else y2;
          var x3 := if y2 > g.maxY - 1 then x2 + 1 else x2;
          if x3 <= |g.rows[y3]| - 1 then Moved(At(g, x3, y3), false, false)
          else if y3 < g.maxY - 1 then Moved(At(g, 0, y3 + 1), false, false)
          else Moved(At(g, 0, y3), true, true)
  }

  /** The position a grid is kept with does not matter to Settle. */
  lemma {:induction false} SettleAnywhere(g: Grid, x: int, y: int, reverse: bool)
    requires WellFormed(g) && |g.rows| > 0
    requires (x < 0 ==> reverse && 0 <= y < |g.rows|) && -2 <= y <= |g.rows|
    ensures Settle(At(g, x, y), x, y, reverse) == Settle(g, x, y, reverse)
  {
  }

  function Move(g: Grid, x: int, y: int): Moved
    requires Usable(g) && UnitStep(x, y)
  {
    var x0 := if Unused(g) && x == 0 then 0 else g.posX;
    var y0 := if Unused(g) && x != 0 then 0 else g.posY;
    Settle(g, x0 + x, y0 + y, x < 0 || y < 0)
  }

  function FirstCell(g: Grid): Grid { At(g, 0, 0) }

  function LastCell(g: Grid): Grid
    requires |g.rows| > 0
  {
    At(g, |g.rows[|g.rows| - 1]| - 1, |g.rows| - 1)
  }

  // Row-major order -----------------------------------------------------------------

  function RowStart(rows: seq<seq<Candidate>>, y: int): nat
    requires 0 <= y <= |rows|
  {
    if y == 0 then 0 else RowStart(rows, y - 1) + |rows[y - 1]|
  }

  function Count(g: Grid): nat { RowStart(g.rows, |g.rows|) }

  function CellIndex(g: Grid): nat
    requires OnCell(g)
  {
    RowStart(g.rows, g.posY) + g.posX
  }

  lemma {:induction false} RowStartMonotone(rows: seq<seq<Candidate>>, i: int, j: int)
    requires 0 <= i <= j <= |rows|
    ensures RowStart(rows, i) <= RowStart(rows, j)
    decreases j
  {
    if i < j { RowStartMonotone(rows, i, j - 1); }
  }

  lemma {:induction false} CellInGroup(g: Grid)
    requires OnCell(g)
    ensures CellIndex(g) < Count(g)
  {
    RowStartMonotone(g.rows, g.posY + 1, |g.rows|);
  }

  /** No two cells have the same index. */
  lemma {:induction false} CellIndexInjective(g: Grid, h: Grid)
    requires OnCell(g) && OnCell(h) && g.rows == h.rows && CellIndex(g) == CellIndex(h)
    ensures g.posX == h.posX && g.posY == h.posY
  {
    if g.posY < h.posY { RowStartMonotone(g.rows, g.posY + 1, h.posY); }
    if h.posY < g.posY { RowStartMonotone(g.rows, h.posY + 1, g.posY); }
  }

  /** The cell at an index holds the candidate listed there. */
  lemma {:induction false} CellHolds(rows: seq<seq<Candidate>>, x: int, y: int)
    requires 0 <= y < |rows| && 0 <= x < |rows[y]|
    ensures |Flatten(rows)| == RowStart(rows, |rows|)
    ensures RowStart(rows, y) + x < |Flatten(rows)|
    ensures Flatten(rows)[RowStart(rows, y) + x] == rows[y][x]
    decreases |rows|
  {
    var r := rows[..|rows| - 1];
    FlattenSize(r);
    RowStartPrefix(rows, |r|);
    if y < |r| {
      CellHolds(r, x, y);
      RowStartPrefix(rows, y);
    }
  }

  lemma {:induction false} FlattenSize(rows: seq<seq<Candidate>>)
    ensures |Flatten(rows)| == RowStart(rows, |rows|)
    decreases |rows|
  {
    if rows != [] {
      FlattenSize(rows[..|rows| - 1]);
      RowStartPrefix(rows, |rows| - 1);
    }
  }

  lemma {:induction false} RowStartPrefix(rows: seq<seq<Candidate>>, y: int)
    requires 0 <= y < |rows|
    ensures RowStart(rows[..|rows| - 1], y) == RowStart(rows, y)
    decreases y
  {
    if y > 0 { RowStartPrefix(rows, y - 1); }
  }

  /** Along a row the selector steps through the cells in order, and reports done
      at either end of the group. From an unused group the first step is the first
      cell. */
  lemma {:induction false} MoveByCells(g: Grid, x: int)
    requires Usable(g) && (x == 1 || x == -1)
    ensures var m := Move(g, x, 0);
      && m.g.rows == g.rows && m.g.maxX == g.maxX && m.g.maxY == g.maxY && OnCell(m.g)
      && (m.done ==> m.next == (x == 1))
      && (Unused(g) ==> m.done == (x == -1) && m.g == FirstCell(g))
      && (OnCell(g) ==> m.done == (if x == 1 then CellIndex(g) == Count(g) - 1 else CellIndex(g) == 0))
      && (OnCell(g) && !m.done ==> CellIndex(m.g) == CellIndex(g) + x)
  {
    if OnCell(g) {
      if x == 1 { MoveForward(g); } else { MoveBackward(g); }
    }
  }

  lemma {:induction false} MoveForward(g: Grid)
    requires WellFormed(g) && OnCell(g)
    ensures var m := Move(g, 1, 0);
      && m.g.rows == g.rows && m.g.maxX == g.maxX && m.g.maxY == g.maxY && OnCell(m.g) && (m.done ==> m.next)
      && m.done == (CellIndex(g) == Count(g) - 1)
      && (!m.done ==> CellIndex(m.g) == CellIndex(g) + 1)
  {
    CellInGroup(g);
    if g.posY < |g.rows| - 1 { RowStartMonotone(g.rows, g.posY + 2, |g.rows|); }
  }

  lemma {:induction false} MoveBackward(g: Grid)
    requires WellFormed(g) && OnCell(g)
    ensures var m := Move(g, -1, 0);
      && m.g.rows == g.rows && m.g.maxX == g.maxX && m.g.maxY == g.maxY && OnCell(m.g) && (m.done ==> !m.next)
      && m.done == (CellIndex(g) == 0)
      && (!m.done ==> CellIndex(m.g) == CellIndex(g) - 1)
  {
    if g.posY > 0 { RowStartMonotone(g.rows, 1, g.posY); }
  }

  /** A step that does not leave the group lands on a cell. */
  lemma {:induction false} MoveOnCell(g: Grid, x: int, y: int)
    requires Usable(g) && UnitStep(x, y)
    ensures var m := Move(g, x, y);
      && m.g.rows == g.rows && m.g.maxX == g.maxX && m.g.maxY == g.maxY
      && (!m.done ==> OnCell(m.g))
  {
  }

  /** Rows as they are laid out: all full but perhaps the last. */
  predicate Laid(g: Grid) {
    && WellFormed(g) && |g.rows| > 0
    && (forall y :: 0 <= y < |g.rows| - 1 ==> |g.rows[y]| == g.maxX)
    && (|g.rows| == 1 ==> |g.rows[0]| == g.maxX)
  }

  /** Down the columns, one after another: from the bottom of a column to the top of the
      next. A column that ends short of the last row is not left for the next one: the
      step from its last cell leaves the group. */
  lemma {:induction false} MoveDown(g: Grid)
    requires Laid(g) && OnCell(g)
    ensures var m, x, y, last := Move(g, 0, 1), g.posX, g.posY, |g.rows| - 1;
      && (m.done ==> m.next)
      && (y < last && x < |g.rows[y + 1]| ==> !m.done && m.g == At(g, x, y + 1))
      && (y < last && x >= |g.rows[y + 1]| ==> m.done && y + 1 == last)
      && (y == last && x + 1 < g.maxX ==> !m.done && m.g == At(g, x + 1, 0))
      && (y == last && x + 1 == g.maxX ==> m.done)
  {
  }

  /** Up the columns the same way back; from the top of a column whose predecessor ends
      short of the last row the step leaves the group, and forwards. */
  lemma {:induction false} MoveUp(g: Grid)
    requires Laid(g) && OnCell(g)
    ensures var m, x, y, last := Move(g, 0, -1), g.posX, g.posY, |g.rows| - 1;
      && (y > 0 ==> !m.done && m.g == At(g, x, y - 1))
      && (y == 0 && x > 0 && x <= |g.rows[last]| ==> !m.done && m.g == At(g, x - 1, last))
      && (y == 0 && x > |g.rows[last]| ==> m.done && m.next)
      && (y == 0 && x == 0 ==> m.done && !m.next)
  {
  }

  /** In a group never used a step down is to its first cell; a step up leaves it. */
  lemma {:induction false} FirstStep(g: Grid)
    requires WellFormed(g) && |g.rows| > 0 && Unused(g)
    ensures Move(g, 0, 1) == Moved(FirstCell(g), false, false)
    ensures Move(g, 0, -1).done && !Move(g, 0, -1).next
  {
  }

  /** On full rows a step down and a step up undo each other wherever they stay in the
      group, which they leave from its last and its first cell only. */
  lemma {:induction false} UpUndoesDown(g: Grid)
    requires Laid(g) && OnCell(g) && |g.rows[|g.rows| - 1]| == g.maxX
    ensures var d, u := Move(g, 0, 1), Move(g, 0, -1);
      && (d.done <==> g.posX == g.maxX - 1 && g.posY == |g.rows| - 1)
      && (u.done <==> g.posX == 0 && g.posY == 0)
      && (!d.done ==> Usable(d.g) && !Move(d.g, 0, -1).done && Move(d.g, 0, -1).g == g)
      && (!u.done ==> Usable(u.g) && !Move(u.g, 0, 1).done && Move(u.g, 0, 1).g == g)
  {
    hide Move;
    MoveDown(g);
    MoveUp(g);
    var d, u := Move(g, 0, 1), Move(g, 0, -1);
    if !d.done { MoveUp(d.g); }
    if !u.done { MoveDown(u.g); }
  }

  lemma {:induction false} EndCells(g: Grid)
    requires WellFormed(g) && |g.rows| > 0
    ensures OnCell(FirstCell(g)) && CellIndex(FirstCell(g)) == 0
    ensures OnCell(LastCell(g)) && CellIndex(LastCell(g)) == Count(g) - 1
  {
  }

  // The group as the program keeps it --------------------------------------------------

  class Group {
    var rows: seq<seq<Candidate>>
    var posX: int
    var posY: int
    var maxX: int
    var maxY: int
    var isCurrent: bool
    const preserveEscapes: bool

    constructor (preserveEscapes: bool)
      ensures this.preserveEscapes == preserveEscapes && !isCurrent
      ensures View() == Grid([], -1, -1, 0, 0)
    {
      this.preserveEscapes := preserveEscapes;
      rows, posX, posY, maxX, maxY, isCurrent := [], -1, -1, 0, 0, false;
    }

    function View(): Grid
      reads this
    {
      Grid(rows, posX, posY, maxX, maxY)
    }

    /** initCompletionsGrid, with the part of calculateMaxColumnWidths that the
        selector uses. */
    method InitGrid(comps: seq<Candidate>, separator: nat, termWidth: int, list: bool)
      requires termWidth > 0
      modifies this`rows, this`maxX, this`maxY
      ensures comps == [] ==> View() == old(View())
      ensures comps != [] ==> WellFormed(View()) && |rows| > 0 && Flatten(rows) == comps
      ensures comps != [] ==>
        var columns := Columns(comps, separator, termWidth, list);
        && |rows| == RowCount(|comps|, columns) && |rows[|rows| - 1]| <= columns
        && (forall y :: 0 <= y < |rows| - 1 ==> |rows[y]| == columns)
        && (exists y :: 0 <= y < |rows| && |rows[y]| == maxX)
    {
      if comps == [] { return; }
      var columns := Columns(comps, separator, termWidth, list);
      var rowCount := RowCount(|comps|, columns);
      rows := CreateGrid(comps, rowCount, columns);
      var width := 0;
      ghost var widest, laid := 0, rows;
      for i := 0 to |rows|
        invariant rows == laid && forall y :: 0 <= y < i ==> |rows[y]| <= width
        invariant if i == 0 then width == 0 else 0 <= widest < i && |rows[widest]| == width
      {
        if |rows[i]| > width {
          width := |rows[i]|;
          widest := i;
        }
      }
      maxX, maxY := width, |rows|;
    }

    method MoveSelector(x: int, y: int) returns (done: bool, next: bool)
      requires Usable(View()) && UnitStep(x, y)
      modifies this`posX, this`posY
      ensures Moved(View(), done, next) == old(Move(View(), x, y))
    {
      ghost var g := View();
      hide Settle;
      if posX == -1 && posY == -1 {
        if x != 0 {
          posY := posY + 1;
        } else {
          posX := posX + 1;
        }
      }
      posX := posX + x;
      posY := posY + y;
      SettleAnywhere(g, posX, posY, x < 0 || y < 0);
      done, next := SettleAt(x < 0 || y < 0);
    }

    /** The rest of moveSelector: what lies outside of the rows is brought back in. */
    method SettleAt(reverse: bool) returns (done: bool, next: bool)
      requires WellFormed(View()) && |rows| > 0
      requires (posX < 0 ==> reverse && 0 <= posY < |rows|) && -2 <= posY <= |rows|
      modifies this`posX, this`posY
      ensures Moved(View(), done, next) == old(Settle(View(), posX, posY, reverse))
    {
      if posX < 0 {
        if posY == 0 && reverse {
          posX, posY := 0, 0;
          return true, false;
        }
        posY := posY - 1;
        posX := |rows[posY]| - 1;
      }
      if posY < 0 {
        if posX == 0 {
          posX, posY := 0, 0;
          return true, false;
        }
        posY := |rows| - 1;
        posX := posX - 1;
      }
      if posY > maxY - 1 {
        posY := 0;
        if posX < maxX - 1 {
          posX := posX + 1;
        } else {
          return true, true;
        }
      }
      if posX > |rows[posY]| - 1 {
        posX := 0;
        if posY < maxY - 1 {
          posY := posY + 1;
        } else {
          return true, true;
        }
      }
      return false, false;
    }

    method ToFirstCell()
      modifies this`posX, this`posY
      ensures View() == old(FirstCell(View()))
    {
      posX, posY := 0, 0;
    }

    method ToLastCell()
      requires |rows| > 0
      modifies this`posX, this`posY
      ensures View() == old(LastCell(View()))
    {
      posY := |rows| - 1;
      posX := |rows[posY]| - 1;
    }
  }
}
