/** Terminal coordinates of the line and of the cursor (internal/core/line.go,
    internal/core/cursor.go, internal/strutil/len.go). */
module Coordinates {
  import opened Text
  import opened Core

  /** Terminal width, and the display width of a string: the Unicode tables
      behind it are a parameter. */
  datatype Terminal = Terminal(columns: int, width: string -> nat)

  datatype Span = Span(x: int, y: int)

  function LineSpan(term: Terminal, line: string, idx: nat, indent: nat): Span
    requires term.columns > 0
  {
    var len := term.width(line) + indent;
    Span(len % term.columns, len / term.columns + (if idx != 0 then 1 else 0))
  }

  /** The column and the full rows before it make up the width and the indent; every line
      but the first begins on a row of its own. */
  lemma {:induction false} SpanIsWidth(term: Terminal, line: string, idx: nat, indent: nat)
    requires term.columns > 0
    ensures var s := LineSpan(term, line, idx, indent);
      var full := if idx == 0 then s.y else s.y - 1;
      0 <= s.x < term.columns && full >= 0 && full * term.columns + s.x == term.width(line) + indent
  {
    var n := term.width(line) + indent;
    assert n == (n / term.columns) * term.columns + n % term.columns;
    DivMonotone(0, n, term.columns);
  }

  /** Line k of the buffer, without its newline. */
  function LineText(t: string, k: nat): string
    requires k < |Newlines(t)|
  {
    t[EndOf(Newlines(t), k - 1) + 1..Newlines(t)[k]]
  }

  function LinesBefore(t: string, k: nat): string
    requires k <= |Newlines(t)|
  {
    if k == 0 then "" else LinesBefore(t, k - 1) + LineText(t, k - 1) + "\n"
  }

  /** The lines of the buffer, joined by newlines, are the buffer, and none holds one. */
  lemma {:induction false} LinesJoin(t: string)
    ensures var last := |Newlines(t)| - 1; t == LinesBefore(t, last) + LineText(t, last)
    ensures forall k :: 0 <= k < |Newlines(t)| ==> '\n' !in LineText(t, k)
  {
    hide Newlines, LinesBefore;
    var nl := Newlines(t);
    LinesBeforeIs(t, |nl| - 1);
    forall k | 0 <= k < |nl| ensures '\n' !in LineText(t, k) {
      var b := EndOf(nl, k - 1) + 1;
      forall i | 0 <= i < |LineText(t, k)| ensures LineText(t, k)[i] != '\n' {
        assert LineText(t, k)[i] == t[b + i];
        NoNewlineWithin(t, k, b + i);
      }
    }
  }

  lemma {:induction false} LinesBeforeIs(t: string, k: nat)
    requires k < |Newlines(t)|
    ensures LinesBefore(t, k) == t[..EndOf(Newlines(t), k - 1) + 1]
  {
    hide Newlines, AreNewlines, LineText;
    if k > 0 {
      LinesBeforeIs(t, k - 1);
      LineEndsAt(t, k - 1);
      NextLine(t, EndOf(Newlines(t), k - 2) + 1, Newlines(t)[k - 1]);
    }
  }

  lemma {:induction false} LineEndsAt(t: string, k: nat)
    requires k + 1 < |Newlines(t)|
    ensures -1 <= EndOf(Newlines(t), k - 1) < Newlines(t)[k] < |t| && t[Newlines(t)[k]] == '\n'
    ensures LineText(t, k) == t[EndOf(Newlines(t), k - 1) + 1..Newlines(t)[k]]
  {
    hide Newlines;
  }

  lemma {:induction false} NextLine(t: string, b: int, e: int)
    requires 0 <= b <= e < |t| && t[e] == '\n'
    ensures t[..e + 1] == t[..b] + t[b..e] + "\n"
  {
  }

  /** Rows taken by the first k lines. */
  function RowsAbove(term: Terminal, t: string, k: nat, indent: nat): int
    requires term.columns > 0 && k <= |Newlines(t)|
  {
    if k == 0 then 0
    else RowsAbove(term, t, k - 1, indent) + LineSpan(term, LineText(t, k - 1), k - 1, indent).y
  }

  function OfLine(term: Terminal, t: string, indent: nat): Span
    requires term.columns > 0
  {
    var last := |Newlines(t)| - 1;
    Span(LineSpan(term, LineText(t, last), last, indent).x, RowsAbove(term, t, last + 1, indent))
  }

  function OfCursor(term: Terminal, t: string, pos: int, indent: nat): Span
    requires term.columns > 0 && 0 <= pos <= |t|
  {
    var k := LinePos(t, pos);
    assert Newlines(t)[|Newlines(t)| - 1] >= pos;
    var span := LineSpan(term, t[EndOf(Newlines(t), k - 1) + 1..pos], k, indent);
    Span(span.x, RowsAbove(term, t, k, indent) + span.y)
  }

  method CoordinatesLine(term: Terminal, l: Line, indent: nat) returns (x: int, y: int)
    requires term.columns > 0
    ensures Span(x, y) == OfLine(term, l.runes, indent)
  {
    hide Newlines, LineSpan;
    var t := l.runes;
    ghost var nl := Newlines(t);
    var usedY, lineStart, lineIdx := 0, 0, 0;
    for i := 0 to |t|
      invariant 0 <= lineIdx < |nl| && lineStart == EndOf(nl, lineIdx - 1) + 1 <= i <= nl[lineIdx]
      invariant usedY == RowsAbove(term, t, lineIdx, indent)
    {
      if t[i] == '\n' {
        assert i in nl;
        var span := LineSpan(term, t[lineStart..i], lineIdx, indent);
        usedY := usedY + span.y;
        lineStart := i + 1;
        lineIdx := lineIdx + 1;
      }
    }
    var span := LineSpan(term, t[lineStart..], lineIdx, indent);
    assert t[lineStart..] == t[lineStart..|t|];
    return span.x, usedY + span.y;
  }

  method CoordinatesCursor(term: Terminal, cur: Cursor, indent: nat) returns (x: int, y: int)
    requires term.columns > 0
    modifies cur
    ensures cur.pos == Clamp(old(cur.pos), |cur.line.runes|)
    ensures Span(x, y) == OfCursor(term, cur.line.runes, cur.pos, indent)
  {
    hide Newlines, LineSpan, LineOf;
    cur.CheckAppend();
    var t := cur.line.runes;
    var nl := cur.line.LineEnds();
    assert nl[|nl| - 1] >= cur.pos;
    var bpos, usedY := 0, 0;
    var k := 0;
    while k < |nl|
      invariant k <= LineOf(nl, cur.pos) < |nl| && bpos == EndOf(nl, k - 1) + 1 && cur.pos == Clamp(old(cur.pos), |t|)
      invariant usedY == RowsAbove(term, t, k, indent)
    {
      if nl[k] < cur.pos {
        var span := LineSpan(term, t[bpos..nl[k]], k, indent);
        bpos := nl[k] + 1;
        usedY := usedY + span.y;
      } else {
        var span := LineSpan(term, t[bpos..cur.pos], k, indent);
        return span.x, usedY + span.y;
      }
      k := k + 1;
    }
    x, y := 0, 0;
  }

  /** With the cursor at the end, both agree. */
  lemma {:induction false} EndOfBufferAgrees(term: Terminal, t: string, indent: nat)
    requires term.columns > 0
    ensures OfCursor(term, t, |t|, indent) == OfLine(term, t, indent)
  {
    var nl := Newlines(t);
    assert nl[|nl| - 1] >= |t|;
  }

  ghost predicate PrefixMonotone(width: string -> nat) {
    forall a: string, b: string :: a <= b ==> width(a) <= width(b)
  }

  lemma {:induction false} SpanMonotone(term: Terminal, a: string, b: string, idx: nat, indent: nat)
    requires term.columns > 0 && PrefixMonotone(term.width) && a <= b
    ensures 0 <= LineSpan(term, a, idx, indent).y <= LineSpan(term, b, idx, indent).y
  {
    DivMonotone(term.width(a) + indent, term.width(b) + indent, term.columns);
  }

  lemma {:induction false} DivMonotone(a: nat, b: nat, d: int)
    requires d > 0 && a <= b
    ensures 0 <= a / d <= b / d
  {
    var x := a / d - b / d - 1;
    assert x * d == (a / d) * d - (b / d) * d - d;
    assert x * d < 0;
    NegativeFactor(x, d);
  }

  lemma {:induction false} NegativeFactor(x: int, d: int)
    requires d > 0 && x * d < 0
    ensures x < 0
  {
  }

  lemma {:induction false} RowsAboveMonotone(term: Terminal, t: string, j: nat, k: nat, indent: nat)
    requires term.columns > 0 && PrefixMonotone(term.width) && j <= k <= |Newlines(t)|
    ensures RowsAbove(term, t, j, indent) <= RowsAbove(term, t, k, indent)
    decreases k
  {
    hide LineSpan, LineText, Newlines;
    if j < k {
      SpanMonotone(term, LineText(t, k - 1), LineText(t, k - 1), k - 1, indent);
      RowsAboveMonotone(term, t, j, k - 1, indent);
    }
  }

  /** Moving the cursor right never moves it up, so its row is never below the
      rows of the line. */
  lemma {:induction false} RowMonotone(term: Terminal, t: string, p: int, q: int, indent: nat)
    requires term.columns > 0 && PrefixMonotone(term.width) && 0 <= p <= q <= |t|
    ensures OfCursor(term, t, p, indent).y <= OfCursor(term, t, q, indent).y
    ensures OfCursor(term, t, p, indent).y <= OfLine(term, t, indent).y
  {
    RowStep(term, t, p, q, indent);
    RowStep(term, t, p, |t|, indent);
    EndOfBufferAgrees(term, t, indent);
  }

  /** The part of line k before pos, which the row of the cursor is computed from. */
  function LinePart(t: string, k: int, pos: int): string
    requires 0 <= k < |Newlines(t)| && EndOf(Newlines(t), k - 1) < pos <= Newlines(t)[k]
  {
    t[EndOf(Newlines(t), k - 1) + 1..pos]
  }

  lemma {:induction false} CursorLine(term: Terminal, t: string, pos: int, indent: nat) returns (k: int)
    requires term.columns > 0 && 0 <= pos <= |t|
    ensures k == LinePos(t, pos) < |Newlines(t)| && EndOf(Newlines(t), k - 1) < pos <= Newlines(t)[k]
    ensures OfCursor(term, t, pos, indent).y
      == RowsAbove(term, t, k, indent) + LineSpan(term, LinePart(t, k, pos), k, indent).y
    ensures OfCursor(term, t, pos, indent).x == LineSpan(term, LinePart(t, k, pos), k, indent).x
  {
    k := LinePos(t, pos);
    assert Newlines(t)[|Newlines(t)| - 1] >= pos;
  }

  lemma {:induction false} PartIsPrefix(t: string, k: int, p: int, q: int)
    requires 0 <= k < |Newlines(t)| && EndOf(Newlines(t), k - 1) < p <= q <= Newlines(t)[k]
    ensures LinePart(t, k, p) <= LinePart(t, k, q) && LinePart(t, k, Newlines(t)[k]) == LineText(t, k)
  {
  }

  lemma {:induction false} LinesInOrder(t: string, p: int, q: int)
    requires 0 <= p <= q <= |t|
    ensures LinePos(t, p) <= LinePos(t, q)
  {
    assert Newlines(t)[|Newlines(t)| - 1] >= q;
  }

  /** When each line with its indent is narrower than the terminal, the cursor is on the
      row of its line, as far right as what is before it on the line. */
  lemma {:induction false} CursorOnItsRow(term: Terminal, t: string, pos: int, indent: nat)
    requires 0 <= pos <= |t| && PrefixMonotone(term.width)
    requires forall k :: 0 <= k < |Newlines(t)| ==> term.width(LineText(t, k)) + indent < term.columns
    ensures term.columns > 0
    ensures var k := LinePos(t, pos);
      && k < |Newlines(t)| && EndOf(Newlines(t), k - 1) < pos <= Newlines(t)[k]
      && OfCursor(term, t, pos, indent) == Span(term.width(LinePart(t, k, pos)) + indent, k)
  {
    hide Newlines, LinePos, LineText, LinePart, OfCursor, RowsAbove, LineSpan;
    assert 0 < |Newlines(t)| && term.width(LineText(t, 0)) + indent < term.columns;
    var k := CursorLine(term, t, pos, indent);
    PartIsPrefix(t, k, pos, Newlines(t)[k]);
    assert term.width(LinePart(t, k, pos)) <= term.width(LineText(t, k));
    RowsOfNarrow(term, t, k, indent);
    NarrowSpan(term, LinePart(t, k, pos), k, indent);
  }

  lemma {:induction false} RowsOfNarrow(term: Terminal, t: string, k: nat, indent: nat)
    requires term.columns > 0 && k < |Newlines(t)|
    requires forall j :: 0 <= j < |Newlines(t)| ==> term.width(LineText(t, j)) + indent < term.columns
    ensures RowsAbove(term, t, k, indent) == if k == 0 then 0 else k - 1
  {
    hide Newlines, LineText, LineSpan;
    if k > 0 {
      RowsOfNarrow(term, t, k - 1, indent);
      NarrowSpan(term, LineText(t, k - 1), k - 1, indent);
    }
  }

  lemma {:induction false} NarrowSpan(term: Terminal, line: string, idx: nat, indent: nat)
    requires term.width(line) + indent < term.columns
    ensures LineSpan(term, line, idx, indent) == Span(term.width(line) + indent, if idx == 0 then 0 else 1)
  {
  }

  lemma {:induction false} RowStep(term: Terminal, t: string, p: int, q: int, indent: nat)
    requires term.columns > 0 && PrefixMonotone(term.width) && 0 <= p <= q <= |t|
    ensures OfCursor(term, t, p, indent).y <= OfCursor(term, t, q, indent).y
  {
    hide OfCursor, LineSpan, Newlines, AreNewlines, LinePos;
    var j := CursorLine(term, t, p, indent);
    var k := CursorLine(term, t, q, indent);
    assert j <= k by { LinesInOrder(t, p, q); }
    var a, b := LinePart(t, j, p), LinePart(t, k, q);
    SpanMonotone(term, b, b, k, indent);
    if j == k {
      PartIsPrefix(t, j, p, q);
      SpanMonotone(term, a, b, k, indent);
    } else {
      PartIsPrefix(t, j, p, Newlines(t)[j]);
      SpanMonotone(term, a, LineText(t, j), j, indent);
      RowsAboveMonotone(term, t, j + 1, k, indent);
    }
  }
}
