/** Where moving the cursor up and down by lines lands. */
module VerticalMotion {
  import opened Basics
  import opened Text

  /** 1-based column of pos on its line. */
  function Column(t: string, pos: int): int
    requires 0 <= pos <= |t|
  {
    pos - EndOf(Newlines(t), LinePos(t, pos) - 1)
  }

  function LineLength(t: string, k: int): int
    requires 0 <= k < |Newlines(t)|
  {
    Newlines(t)[k] - EndOf(Newlines(t), k - 1) - 1
  }

  function LastLine(t: string): nat { |Newlines(t)| - 1 }

  lemma {:induction false} OnLine(t: string, pos: int, k: int)
    requires 0 <= pos <= |t| && 0 <= k < |Newlines(t)|
    requires EndOf(Newlines(t), k - 1) < pos <= Newlines(t)[k]
    ensures LinePos(t, pos) == k
  {
  }

  lemma {:induction false} LineBounds(t: string, pos: int)
    requires 0 <= pos <= |t|
    ensures 0 <= LinePos(t, pos) < |Newlines(t)|
    ensures EndOf(Newlines(t), LinePos(t, pos) - 1) < pos <= Newlines(t)[LinePos(t, pos)]
  {
  }

  /** CheckCommand keeps the line and brings the column within it. */
  lemma {:induction false} CommandOnLine(t: string, pos: int)
    requires 0 <= pos <= |t|
    ensures var k := LinePos(t, pos);
      && LinePos(t, CommandPos(t, pos)) == k
      && Column(t, CommandPos(t, pos)) == Min(Column(t, pos), Max(1, LineLength(t, k)))
  {
    var nl, k := Newlines(t), LinePos(t, pos);
    LineBounds(t, pos);
    CommandWithin(t, pos, k);
    OnLine(t, CommandPos(t, pos), k);
  }

  lemma {:induction false} CommandWithin(t: string, pos: int, k: int)
    requires 0 <= pos <= |t| && 0 <= k < |Newlines(t)|
    requires EndOf(Newlines(t), k - 1) < pos <= Newlines(t)[k]
    ensures CommandPos(t, pos) == if pos == Newlines(t)[k] && LineLength(t, k) > 0 then pos - 1 else pos
  {
    var nl, begin := Newlines(t), EndOf(Newlines(t), k - 1);
    hide Newlines;
    if pos < nl[k] {
      NoNewlineWithin(t, k, pos);
    } else if begin + 1 < nl[k] {
      NoNewlineWithin(t, k, pos - 1);
    }
  }

  /** The position a step computes, before CheckCommand: on the target line, at
      the old column or at the end. On an empty first line it is -1. */
  lemma {:induction false} StepPosition(t: string, pos: int, down: bool)
    requires 0 <= pos <= |t|
    ensures var k := LinePos(t, pos);
      var target := Clamp(k + (if down then 1 else -1), LastLine(t));
      var begin, limit := EndOf(Newlines(t), target - 1), Max(1, LineLength(t, target));
      var q := if down then Down(t, pos) else Up(t, pos);
      || (q == -1 && target == 0 && Newlines(t)[0] == 0 && Column(t, pos) >= 1)
      || (begin < q <= Newlines(t)[target] && 0 <= q <= |t| && Min(q - begin, limit) == Min(Column(t, pos), limit))
  {
    hide Newlines, LineOf;
    LineBounds(t, pos);
  }

  lemma {:induction false} LandsOn(t: string, q: int, target: int)
    requires 0 <= target < |Newlines(t)| && 0 <= q <= |t|
    requires EndOf(Newlines(t), target - 1) < q <= Newlines(t)[target]
    ensures var p := CommandPos(t, q);
      && LinePos(t, p) == target
      && Column(t, p) == Min(q - EndOf(Newlines(t), target - 1), Max(1, LineLength(t, target)))
  {
    OnLine(t, q, target);
    CommandOnLine(t, q);
  }

  /** One step down or up: the next line if there is one, and the column kept as
      far as the line allows. */
  lemma {:induction false} StepColumn(t: string, pos: int, down: bool)
    requires 0 <= pos <= |t|
    ensures var target := Clamp(LinePos(t, pos) + (if down then 1 else -1), LastLine(t));
      var p := CommandPos(t, if down then Down(t, pos) else Up(t, pos));
      && LinePos(t, p) == target
      && Column(t, p) == Min(Column(t, pos), Max(1, LineLength(t, target)))
  {
    hide Down, Up, LinePos, CommandPos;
    StepPosition(t, pos, down);
    var q := if down then Down(t, pos) else Up(t, pos);
    if q == -1 {
      CommandAtMinusOne(t);
      OnLine(t, 0, 0);
    } else {
      LandsOn(t, q, Clamp(LinePos(t, pos) + (if down then 1 else -1), LastLine(t)));
    }
  }

  lemma {:induction false} CommandAtMinusOne(t: string)
    requires Newlines(t)[0] == 0
    ensures CommandPos(t, -1) == 0
  {
  }

  /** The lines a motion from line k to line target stops on. */
  predicate Visited(k: int, target: int, j: int) {
    if target > k then k < j <= target else if target < k then target <= j < k else j == k
  }

  /** The widest column a command may be at on a line. */
  function Limit(t: string, k: int): int
    requires 0 <= k < |Newlines(t)|
  {
    Max(1, LineLength(t, k))
  }

  /** c is a column as far as the lines visited allow it. */
  ghost predicate KeptColumn(t: string, column: int, c: int, k: int, target: int)
    requires 0 <= k < |Newlines(t)| && 0 <= target < |Newlines(t)|
  {
    && c <= column
    && (forall j :: Visited(k, target, j) ==> c <= Limit(t, j))
    && (c == column || exists j :: Visited(k, target, j) && c == Limit(t, j))
  }

  lemma {:induction false} MoveLinesColumn(t: string, pos: int, lines: int)
    requires 0 <= pos <= |t| && lines != 0
    ensures var k := LinePos(t, pos);
      var target := Clamp(k + lines, LastLine(t));
      k < |Newlines(t)| && KeptColumn(t, Column(t, pos), Column(t, MoveLines(t, pos, lines)), k, target)
    decreases if lines < 0 then -lines else lines
  {
    hide LinePos, CommandPos, Down, Up, Newlines, Column, LineLength;
    LineBounds(t, pos);
    StepColumn(t, pos, lines > 0);
    var k, next := LinePos(t, pos), if lines > 0 then lines - 1 else lines + 1;
    var p := CommandPos(t, if lines > 0 then Down(t, pos) else Up(t, pos));
    assert MoveLines(t, pos, lines) == MoveLines(t, p, next);
    var k1 := LinePos(t, p);
    assert Visited(k, k1, k1);
    if next != 0 {
      MoveLinesColumn(t, p, next);
      var c := Column(t, MoveLines(t, p, next));
      ColumnsKept(t, Column(t, pos), Column(t, p), c, k, k1, Clamp(k + lines, LastLine(t)));
    }
  }

  /** A step, then the rest of the way. */
  lemma {:induction false} ColumnsKept(t: string, a: int, b: int, c: int, k: int, k1: int, target: int)
    requires 0 <= k < |Newlines(t)| && 0 <= k1 < |Newlines(t)| && 0 <= target < |Newlines(t)|
    requires k1 == (if target > k then k + 1 else if target < k then k - 1 else k)
    requires KeptColumn(t, a, b, k, k1) && KeptColumn(t, b, c, k1, target)
    ensures KeptColumn(t, a, c, k, target)
  {
    hide Newlines, Limit;
    assert Visited(k, k1, k1) && Visited(k, target, k1);
    forall j | Visited(k, target, j) ensures c <= Limit(t, j) {
      assert j == k1 || Visited(k1, target, j);
    }
    if c != b {
      var j :| Visited(k1, target, j) && c == Limit(t, j);
      assert Visited(k, target, j);
    }
  }

  /** LineMove keeps the column as far as each line on the way, the last included, is long
      enough; on a buffer of one line, or asked for no line, it does not move. */
  lemma {:induction false} LineMoveColumn(t: string, pos: int, lines: int)
    ensures var p, q := Clamp(pos, |t|), LineMoved(t, pos, lines);
      var k := LinePos(t, p);
      && k < |Newlines(t)|
      && (lines == 0 || LastLine(t) == 0 ==> q == p)
      && (lines != 0 && LastLine(t) > 0 ==>
            KeptColumn(t, Column(t, p), Column(t, q), k, Clamp(k + lines, LastLine(t))))
  {
    hide Newlines, LinePos, Column;
    var p := Clamp(pos, |t|);
    LineBounds(t, p);
    if lines != 0 { MoveLinesColumn(t, p, lines); }
  }

  /** LineMove lands on the line it was asked for, or on the first or last. */
  lemma {:induction false} MoveLinesLands(t: string, pos: int, lines: int)
    requires 0 <= pos <= |t|
    ensures LinePos(t, MoveLines(t, pos, lines)) == Clamp(LinePos(t, pos) + lines, LastLine(t))
    decreases if lines < 0 then -lines else lines
  {
    hide LinePos, CommandPos, Down, Up, Newlines;
    LineBounds(t, pos);
    if lines != 0 {
      StepColumn(t, pos, lines > 0);
      var p := CommandPos(t, if lines > 0 then Down(t, pos) else Up(t, pos));
      MoveLinesLands(t, p, if lines > 0 then lines - 1 else lines + 1);
    }
  }

  lemma {:induction false} LineMoveLands(t: string, pos: int, lines: int)
    ensures LinePos(t, LineMoved(t, pos, lines)) == Clamp(LinePos(t, Clamp(pos, |t|)) + lines, LastLine(t))
  {
    var p := Clamp(pos, |t|);
    LineBounds(t, p);
    MoveLinesLands(t, p, lines);
  }
}
