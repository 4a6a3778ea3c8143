/** Selections of the line (internal/core/selection.go). */
module Selections {
  import opened Basics
  import opened Text
  import opened Core

  /** Selection.checkRange: an end of -1 is a pending selection. */
  function SelectionRange(t: string, bpos: int, epos: int): (r: Range)
    ensures r.Range? ==> 0 <= r.b <= |t| && (r.e == -1 || r.b <= r.e <= |t|)
  {
    if |t| == 0 || (bpos < 0 && epos < 0) || (bpos > |t| && epos > |t|) then Invalid
    else
      var b0, e0 := Min(bpos, |t|), Min(epos, |t|);
      var b := if b0 < 0 then e0 else b0;
      var e := if b0 < 0 || e0 < 0 then -1 else e0;
      if b > e && e != -1 then Range(e, b) else Range(b, e)
  }

  /** The first newline at or after pos, or the end. */
  function NextNewline(t: string, pos: int): (n: int)
    requires 0 <= pos <= |t|
    ensures pos <= n <= |t| && (n < |t| ==> t[n] == '\n')
    ensures forall j :: pos <= j < n ==> t[j] != '\n'
    decreases |t| - pos
  {
    if pos == |t| || t[pos] == '\n' then pos else NextNewline(t, pos + 1)
  }

  datatype Mode = Mode(active: bool, visual: bool, visualLine: bool)

  function ToCursor(t: string, bpos: int, cpos: int, visualLine: bool): (r: Range)
    requires 0 <= bpos <= |t| && 0 <= cpos <= |t|
    ensures r.Range? && 0 <= r.b <= r.e <= |t|
  {
    var b, e := Min(bpos, cpos), Max(bpos, cpos);
    if visualLine then Range(LineBegin(t, b), NextNewline(t, e)) else Range(b, e)
  }

  /** A pending selection runs to the cursor. */
  function Ends(t: string, r: Range, cursor: int, visualLine: bool): Range
    requires r.Range? && 0 <= r.b <= |t|
  {
    if r.e == -1 then ToCursor(t, r.b, Clamp(cursor, |t|), visualLine) else r
  }

  /** The pair of positions Pos returns. */
  function Ordered(r: Range): (int, int) {
    if r.Range? then (r.b, r.e) else (-1, -1)
  }

  /** What Selection.Pos computes for stored positions and a cursor position. */
  function SelectionPos(t: string, m: Mode, bpos: int, epos: int, cursor: int): Range {
    var r := SelectionRange(t, bpos, epos);
    if !m.active || r.Invalid? then Invalid
    else
      var s := Ends(t, r, cursor, m.visualLine);
      SelectionRange(t, s.b, if m.visual then s.e + 1 else s.e)
  }

  /** Pos gives up, or gives a proper range of the line. */
  lemma {:induction false} PosIsProper(t: string, m: Mode, bpos: int, epos: int, cursor: int)
    ensures var r := SelectionPos(t, m, bpos, epos, cursor);
      r.Invalid? || 0 <= r.b <= r.e <= |t|
    ensures SelectionPos(t, m, bpos, epos, cursor).Invalid? <==>
      !m.active || |t| == 0 || (bpos < 0 && epos < 0) || (bpos > |t| && epos > |t|)
  {
  }

  /** Whole lines of the buffer. */
  predicate WholeLines(t: string, b: int, e: int) {
    && 0 <= b <= e <= |t|
    && (b == 0 || t[b - 1] == '\n')
    && (e == |t| || (e > 0 && t[e - 1] == '\n'))
  }

  predicate Covers(t: string, b: int, e: int, lo: int, hi: int) {
    b <= lo && (hi < e || e == |t|)
  }

  /** A pending visual-line selection is the smallest run of whole lines that
      covers the mark and the cursor. */
  lemma {:induction false} VisualLineIsSmallest(t: string, mark: int, cursor: int, b: int, e: int)
    requires t != "" && mark >= 0
    ensures var r := SelectionPos(t, Mode(true, true, true), mark, -1, cursor);
      var m, c := Clamp(mark, |t|), Clamp(cursor, |t|);
      var lo, hi := Min(m, c), Max(m, c);
      && r.Range? && WholeLines(t, r.b, r.e) && Covers(t, r.b, r.e, lo, hi)
      && (WholeLines(t, b, e) && Covers(t, b, e, lo, hi) ==> b <= r.b && r.e <= e)
      && (forall j :: r.b <= j < lo ==> t[j] != '\n')
      && (forall j :: hi <= j < r.e - 1 ==> t[j] != '\n')
  {
    var m, c := Clamp(mark, |t|), Clamp(cursor, |t|);
    var lo, hi := Min(m, c), Max(m, c);
    VisualLinePos(t, mark, cursor, lo, hi);
    hide SelectionPos, FindBackward, NextNewline, Clamp;
  }

  lemma {:induction false} VisualLinePos(t: string, mark: int, cursor: int, lo: int, hi: int)
    requires t != "" && mark >= 0
    requires lo == Min(Clamp(mark, |t|), Clamp(cursor, |t|)) && hi == Max(Clamp(mark, |t|), Clamp(cursor, |t|))
    ensures SelectionPos(t, Mode(true, true, true), mark, -1, cursor)
      == Range(LineBegin(t, lo), Min(NextNewline(t, hi) + 1, |t|))
  {
    hide FindBackward, NextNewline;
  }

  lemma {:induction false} RangeIsStable(t: string, bpos: int, epos: int)
    requires SelectionRange(t, bpos, epos).Range?
    ensures var r := SelectionRange(t, bpos, epos); SelectionRange(t, r.b, r.e) == r
  {
  }

  /** A second call of Pos, on the positions the first one stored, agrees. */
  lemma {:induction false} PosIsStable(t: string, m: Mode, bpos: int, epos: int, cursor: int)
    requires SelectionRange(t, bpos, epos).Range?
    ensures var r := SelectionRange(t, bpos, epos);
      && SelectionPos(t, m, r.b, r.e, cursor) == SelectionPos(t, m, bpos, epos, cursor)
      && SelectionPos(t, m, r.b, r.e, Clamp(cursor, |t|)) == SelectionPos(t, m, bpos, epos, cursor)
  {
    RangeIsStable(t, bpos, epos);
    hide SelectionRange, ToCursor;
  }

  /** The range between two positions, with the rune at its far end or without. */
  function Between(t: string, visual: bool, a: int, b: int): Range {
    var lo, hi := Min(Clamp(a, |t|), Clamp(b, |t|)), Max(Clamp(a, |t|), Clamp(b, |t|));
    Range(lo, if visual then Min(hi + 1, |t|) else hi)
  }

  /** Without whole lines, a pending selection lies between the mark and the cursor; in
      visual mode the rune at the far end belongs to it. */
  lemma {:induction false} PendingBetween(t: string, visual: bool, mark: int, cursor: int)
    requires t != "" && mark >= 0
    ensures SelectionPos(t, Mode(true, visual, false), mark, -1, cursor) == Between(t, visual, mark, cursor)
  {
  }

  /** A marked range lies between its two ends, whole lines or not. */
  lemma {:induction false} MarkedBetween(t: string, visual: bool, visualLine: bool, a: int, b: int, cursor: int)
    requires t != "" && a >= 0 && b >= 0 && (a <= |t| || b <= |t|)
    ensures SelectionPos(t, Mode(true, visual, visualLine), a, b, cursor) == Between(t, visual, a, b)
  {
    hide ToCursor;
  }

  /** A range with one end before the line is pending from the other. */
  lemma {:induction false} OneEndOnly(t: string, m: Mode, a: int, b: int, cursor: int)
    requires t != "" && a >= 0 && b < 0
    ensures SelectionPos(t, m, a, b, cursor) == SelectionPos(t, m, b, a, cursor) == SelectionPos(t, m, a, -1, cursor)
  {
    hide Ends, ToCursor;
  }

  /** A surround region; matchers survive a reset. */
  datatype Surround = Surround(bpos: int, matcher: bool)

  function Matchers(surrounds: seq<Surround>): seq<Surround> {
    if surrounds == [] then []
    else (if surrounds[0].matcher then [surrounds[0]] else []) + Matchers(surrounds[1..])
  }

  /** The matchers, all of them, in order. */
  lemma {:induction false} MatchersKept(a: seq<Surround>, b: seq<Surround>, s: Surround)
    ensures Matchers(a + b) == Matchers(a) + Matchers(b)
    ensures Matchers([s]) == if s.matcher then [s] else []
    ensures forall m :: m in Matchers(a) <==> m in a && m.matcher
    decreases |a|
  {
    assert [s][1..] == [];
    if a == [] {
      assert a + b == b;
    } else {
      assert (a + b)[1..] == a[1..] + b;
      MatchersKept(a[1..], b, s);
      assert forall m :: m in a <==> m == a[0] || m in a[1..];
    }
  }

  function CutRune(t: string, pos: int): string {
    if pos < 0 || pos > |t| || |t| == 0 then t
    else if pos == |t| then t[..pos - 1]
    else t[..pos] + t[pos + 1..]
  }

  function CutSurrounds(t: string, surrounds: seq<Surround>, n: nat): string
    requires n <= |surrounds|
  {
    if n == 0 then t else CutRune(CutSurrounds(t, surrounds, n - 1), surrounds[n - 1].bpos - (n - 1))
  }

  /** Surrounding runes are cut and what they surround is left, though each cut moves what
      comes after it. */
  lemma {:induction false} SurroundsCut(a: string, x: char, b: string, y: char, c: string)
    ensures var t := a + [x] + b + [y] + c;
      var pair := [Surround(|a|, false), Surround(|a| + 1 + |b|, false)];
      CutSelection(t, pair, Invalid) == Removal(a + b + c, "")
  {
    var t, t1 := a + [x] + b + [y] + c, a + b + [y] + c;
    var pair := [Surround(|a|, false), Surround(|a| + 1 + |b|, false)];
    assert t[..|a|] + t[|a| + 1..] == t1;
    assert CutSurrounds(t, pair, 1) == CutRune(CutSurrounds(t, pair, 0), |a|) == t1;
    assert t1[..|a + b|] + t1[|a + b| + 1..] == a + b + c;
    assert CutSurrounds(t, pair, 2) == CutRune(t1, |a + b|);
  }

  /** The text left by a cut, and the text cut out. */
  datatype Removal = Removal(text: string, buf: string)

  function CutSelection(t: string, surrounds: seq<Surround>, r: Range): Removal {
    if |t| == 0 then Removal(t, "")
    else if surrounds != [] then Removal(CutSurrounds(t, surrounds, |surrounds|), "")
    else if r.Range? && 0 <= r.b <= r.e <= |t| then Removal(t[..r.b] + t[r.e..], t[r.b..r.e])
    else Removal(t, "")
  }

  class Selection {
    var active: bool
    var visual: bool
    var visualLine: bool
    var bpos: int
    var epos: int
    var surrounds: seq<Surround>
    const line: Line
    const cursor: Cursor

    constructor (line: Line, cursor: Cursor)
      ensures this.line == line && this.cursor == cursor
      ensures !active && !visual && !visualLine && bpos == epos == -1 && surrounds == []
    {
      this.line, this.cursor := line, cursor;
      active, visual, visualLine := false, false, false;
      bpos, epos, surrounds := -1, -1, [];
    }

    predicate Valid()
      reads this, cursor
    {
      cursor.line == line
    }

    function CurrentMode(): Mode
      reads this
    {
      Mode(active, visual, visualLine)
    }

    function Current(): Range
      reads this, line, cursor
    {
      SelectionPos(line.runes, CurrentMode(), bpos, epos, cursor.pos)
    }

    method MarkRange(b: int, e: int)
      modifies this
      ensures unchanged(`visual) && unchanged(`visualLine) && unchanged(`surrounds)
      ensures var r := SelectionRange(line.runes, b, e);
        if r.Range? then active && bpos == r.b && epos == r.e
        else unchanged(`active) && unchanged(`bpos) && unchanged(`epos)
    {
      var r := SelectionRange(line.runes, b, e);
      if r.Invalid? { return; }
      active, bpos, epos := true, r.b, r.e;
    }

    method Mark(pos: int)
      modifies this
      ensures unchanged(`visual) && unchanged(`visualLine) && unchanged(`surrounds)
      ensures var r := SelectionRange(line.runes, pos, -1);
        if 0 <= pos <= |line.runes| && r.Range? then active && bpos == pos && epos == -1
        else unchanged(`active) && unchanged(`bpos) && unchanged(`epos)
    {
      if pos < 0 || pos > |line.runes| { return; }
      MarkRange(pos, -1);
    }

    method ToBeginningOfLine(from: int) returns (b: int)
      requires 0 <= from <= |line.runes|
      ensures b == LineBegin(line.runes, from)
    {
      b := from - 1;
      while b >= 0
        invariant -1 <= b < from
        invariant FindBackward(line.runes, '\n', b + 1) == FindBackward(line.runes, '\n', from)
      {
        if line.runes[b] == '\n' { return b + 1; }
        b := b - 1;
      }
      b := 0;
    }

    method ToEndOfLine(from: int) returns (e: int)
      requires 0 <= from <= |line.runes|
      ensures e == NextNewline(line.runes, from)
    {
      e := from;
      while e < |line.runes|
        invariant from <= e <= |line.runes|
        invariant NextNewline(line.runes, e) == NextNewline(line.runes, from)
      {
        if line.runes[e] == '\n' { break; }
        e := e + 1;
      }
    }

    method SelectToCursor(from: int) returns (b: int, e: int)
      requires Valid() && 0 <= from <= |line.runes|
      modifies cursor
      ensures cursor.pos == Clamp(old(cursor.pos), |line.runes|)
      ensures Range(b, e) == ToCursor(line.runes, from, cursor.pos, visualLine)
    {
      b := from;
      var c := cursor.Pos();
      if c < b {
        b, e := c, b;
      } else {
        e := c;
      }
      if visualLine {
        b := ToBeginningOfLine(b);
        e := ToEndOfLine(e);
      }
      if b > e { b, e := e, b; }
    }

    /** The second half of Pos: the checked range r, run to the cursor when pending. */
    method PosFrom(r: Range) returns (found: Range)
      requires Valid() && active && r.Range? && SelectionRange(line.runes, r.b, r.e) == r
      modifies cursor
      ensures cursor.pos == old(cursor.pos) || cursor.pos == Clamp(old(cursor.pos), |line.runes|)
      ensures found == SelectionPos(line.runes, CurrentMode(), r.b, r.e, old(cursor.pos))
    {
      hide SelectionRange, ToCursor;
      var b, e := r.b, r.e;
      if e == -1 {
        b, e := SelectToCursor(b);
      }
      if visual { e := e + 1; }
      found := SelectionRange(line.runes, b, e);
    }

    /** Pos returns (-1, -1) where Current is invalid; it keeps what it checked. */
    method Pos() returns (b: int, e: int)
      requires Valid()
      modifies this`bpos, this`epos, cursor
      ensures (b, e) == Ordered(old(Current()))
      ensures Current() == old(Current())
      ensures cursor.pos == old(cursor.pos) || cursor.pos == Clamp(old(cursor.pos), |line.runes|)
    {
      hide Ends, ToCursor, LineBegin, FindBackward, NextNewline;
      if |line.runes| == 0 || !active { return -1, -1; }
      var r := SelectionRange(line.runes, bpos, epos);
      if r.Invalid? { return -1, -1; }
      RangeIsStable(line.runes, bpos, epos);
      PosIsStable(line.runes, CurrentMode(), bpos, epos, cursor.pos);
      hide SelectionPos, SelectionRange;
      bpos, epos := r.b, r.e;
      var found := PosFrom(r);
      if found.Invalid? { return -1, -1; }
      b, e := found.b, found.e;
    }

    method Text() returns (buf: string)
      requires Valid()
      modifies this`bpos, this`epos, cursor
      ensures var r := old(Current());
        buf == if r.Range? && 0 <= r.b <= r.e <= |line.runes| then line.runes[r.b..r.e] else ""
      ensures Current() == old(Current())
      ensures cursor.pos == old(cursor.pos) || cursor.pos == Clamp(old(cursor.pos), |line.runes|)
    {
      if |line.runes| == 0 { return ""; }
      PosIsProper(line.runes, CurrentMode(), bpos, epos, cursor.pos);
      var b, e := Pos();
      if b == -1 || e == -1 { return ""; }
      buf := line.runes[b..e];
    }

    method Reset()
      modifies this
      ensures CurrentMode() == Mode(false, false, false) && bpos == epos == -1
      ensures surrounds == Matchers(old(surrounds))
    {
      active, visual, visualLine := false, false, false;
      bpos, epos := -1, -1;
      var kept: seq<Surround> := [];
      for i := 0 to |surrounds|
        invariant kept + Matchers(surrounds[i..]) == Matchers(surrounds)
      {
        assert surrounds[i..][1..] == surrounds[i + 1..];
        if surrounds[i].matcher {
          var rest := Matchers(surrounds[i + 1..]);
          assert kept + ([surrounds[i]] + rest) == kept + [surrounds[i]] + rest;
          kept := kept + [surrounds[i]];
        }
      }
      surrounds := kept;
    }

    /** Cut removes the selection from the line and returns it. */
    method Cut() returns (buf: string)
      requires Valid()
      modifies this, line, cursor
      ensures cursor.pos == old(cursor.pos) || cursor.pos == Clamp(old(cursor.pos), |old(line.runes)|)
      ensures Removal(line.runes, buf) == CutSelection(old(line.runes), old(surrounds), old(Current()))
      ensures |old(line.runes)| > 0 ==>
        CurrentMode() == Mode(false, false, false) && surrounds == Matchers(old(surrounds))
      ensures |old(line.runes)| == 0 ==> unchanged(this)
    {
      buf := "";
      if |line.runes| == 0 { return; }
      if |surrounds| > 0 {
        for i := 0 to |surrounds|
          invariant unchanged(this) && cursor.pos == old(cursor.pos)
          invariant line.runes == CutSurrounds(old(line.runes), surrounds, i)
        {
          line.runes := CutRune(line.runes, surrounds[i].bpos - i);
        }
        Reset();
        return;
      }
      PosIsProper(line.runes, CurrentMode(), bpos, epos, cursor.pos);
      var b, e := Pos();
      if b == -1 || e == -1 {
        Reset();
        return;
      }
      buf := Text();
      line.Cut(b, e);
      Reset();
    }
  }
}
