/** Positions in a line of text: what the methods of Line and Cursor compute
    (internal/core/line.go, internal/core/cursor.go). */
module Text {
  import opened Basics

  // Edits ---------------------------------------------------------------------

  /** Insertion drops the NULs at the end of what is inserted. */
  function StripNul(chars: string): (s: string)
    ensures s <= chars
    ensures chars == "" || chars[|chars| - 1] != NUL ==> s == chars
    ensures s == "" || s[|s| - 1] != NUL
    ensures forall i :: |s| <= i < |chars| ==> chars[i] == NUL
  {
    if chars != "" && chars[|chars| - 1] == NUL then StripNul(chars[..|chars| - 1]) else chars
  }

  function Inserted(t: string, pos: int, chars: string): string {
    if 0 <= pos <= |t| then t[..pos] + StripNul(chars) + t[pos..] else t
  }

  datatype Range = Invalid | Range(b: int, e: int)

  /** Line.checkRange: an end of -1 is left for the caller to interpret. */
  function LineRange(t: string, bpos: int, epos: int): Range {
    if bpos == -1 && epos == -1 then Invalid
    else
      var e := if epos > |t| then |t| else epos;
      var b := if bpos < 0 then 0 else bpos;
      if e > -1 && e < b then Range(e, b) else Range(b, e)
  }

  function CutOut(t: string, bpos: int, epos: int): string
    requires bpos <= |t| && epos >= -1
  {
    match LineRange(t, bpos, epos)
    case Invalid => t
    case Range(b, e) => t[..b] + (if e == -1 then "" else t[e..])
  }

  /** A cut takes out what lies between two positions, in either order, up to the end if
      one is past it or is -1. */
  lemma {:induction false} CutOutBetween(t: string, a: int, b: int, n: nat)
    requires 0 <= a <= b <= |t|
    ensures CutOut(t, a, b) == CutOut(t, b, a) == t[..a] + t[b..]
    ensures CutOut(t, a, -1) == CutOut(t, a, |t| + n) == t[..a]
    ensures CutOut(t, -1, b) == t[b..]
    ensures CutOut(t, -1, -1) == t
  {
    assert t[|t|..] == "" && t[..a] + "" == t[..a] && t[..0] + t[b..] == t[b..];
  }

  // Cursor positions ------------------------------------------------------------

  function Clamp(pos: int, len: nat): (p: int)
    ensures 0 <= p <= len
    ensures 0 <= pos <= len ==> p == pos
  {
    if pos < 0 then 0 else if pos > len then len else pos
  }

  predicate OnEmptyLine(t: string, pos: int)
    requires 0 <= pos <= |t|
  {
    if |t| == 0 then true
    else if pos == 0 then t[0] == '\n'
    else if pos == |t| then t[pos - 1] == '\n'
    else t[pos] == '\n' && t[pos - 1] == '\n'
  }

  /** CheckCommand: on a character, and on a newline only if its line is empty. */
  function CommandPos(t: string, pos: int): (p: int)
    ensures 0 <= p <= |t|
  {
    var p := Clamp(pos, |t|);
    var q := if p == |t| && !OnEmptyLine(t, p) then p - 1 else p;
    if q < |t| && t[q] == '\n' && !OnEmptyLine(t, q) && q > 0 then q - 1 else q
  }

  /** Index of the first c after pos, or the last before it; -1 if none. */
  function FindForward(t: string, c: char, pos: int): (i: int)
    requires pos >= 0
    ensures i == -1 || (pos < i < |t| && t[i] == c)
    ensures forall j :: pos < j < (if i == -1 then |t| else i) ==> t[j] != c
    decreases |t| - pos
  {
    if pos + 1 >= |t| then -1 else if t[pos + 1] == c then pos + 1 else FindForward(t, c, pos + 1)
  }

  function FindBackward(t: string, c: char, pos: int): (i: int)
    requires 0 <= pos <= |t|
    ensures -1 <= i < pos && (i >= 0 ==> t[i] == c)
    ensures forall j :: i < j < pos ==> t[j] != c
    decreases pos
  {
    if pos == 0 then -1 else if t[pos - 1] == c then pos - 1 else FindBackward(t, c, pos - 1)
  }

  function LineBegin(t: string, pos: int): int
    requires 0 <= pos <= |t|
  {
    FindBackward(t, '\n', pos) + 1
  }

  /** Where EndOfLineAppend leaves the cursor. */
  function LineEndAppend(t: string, pos: int): (p: int)
    requires 0 <= pos <= |t|
    ensures pos <= p <= |t|
  {
    if OnEmptyLine(t, pos) then pos
    else
      var i := FindForward(t, '\n', Clamp(pos - 1, |t|));
      if i == -1 then |t| else i
  }

  // Lines of the buffer -----------------------------------------------------------

  function NewlinesFrom(t: string, i: nat): (nl: seq<int>)
    requires i <= |t|
    ensures |nl| > 0
    decreases |t| - i
  {
    if i == |t| then [i]
    else if t[i] == '\n' then [i] + NewlinesFrom(t, i + 1)
    else NewlinesFrom(t, i + 1)
  }

  /** nl lists, in order, the newlines of t from i on, and then the length of t. */
  predicate AreNewlines(t: string, i: int, nl: seq<int>) {
    && |nl| > 0 && nl[|nl| - 1] == |t|
    && (forall k :: 0 <= k < |nl| ==> i <= nl[k] <= |t|)
    && (forall k :: 0 <= k < |nl| - 1 ==> 0 <= nl[k] < |t| && t[nl[k]] == '\n')
    && (forall j, k :: 0 <= j < k < |nl| ==> nl[j] < nl[k])
    && (forall p :: 0 <= p < |t| && i <= p && t[p] == '\n' ==> p in nl)
  }

  lemma {:induction false} NewlinesFromFacts(t: string, i: nat)
    requires i <= |t|
    ensures AreNewlines(t, i, NewlinesFrom(t, i))
    decreases |t| - i
  {
    if i < |t| {
      NewlinesFromFacts(t, i + 1);
      var nl := NewlinesFrom(t, i + 1);
      if t[i] == '\n' { NewlineBefore(t, i, nl); }
    }
  }

  lemma {:induction false} NewlineBefore(t: string, i: nat, nl: seq<int>)
    requires i < |t| && t[i] == '\n' && AreNewlines(t, i + 1, nl)
    ensures AreNewlines(t, i, [i] + nl)
  {
    var all := [i] + nl;
    assert forall k :: 0 < k < |all| ==> all[k] == nl[k - 1];
    forall j, k | 0 <= j < k < |all| ensures all[j] < all[k] {
      if j > 0 { assert nl[j - 1] < nl[k - 1]; } else { assert nl[k - 1] > i; }
    }
    forall p | i <= p < |t| && t[p] == '\n' ensures p in all {
      assert p == i || p in nl;
    }
  }

  /** Where each line ends: at its newline, the last at the end of the buffer. */
  function Newlines(t: string): (nl: seq<int>)
    ensures AreNewlines(t, 0, nl)
  {
    NewlinesFromFacts(t, 0);
    NewlinesFrom(t, 0)
  }

  /** No newline lies strictly between the ends of two consecutive lines. */
  lemma {:induction false} NoNewlineWithin(t: string, k: nat, p: int)
    requires k < |Newlines(t)|
    requires EndOf(Newlines(t), k - 1) < p < Newlines(t)[k]
    ensures t[p] != '\n'
  {
  }

  /** The first line that does not end before pos. */
  function LineOf(nl: seq<int>, pos: int): (k: nat)
    ensures k <= |nl|
    ensures forall j :: 0 <= j < k ==> nl[j] < pos
    ensures k < |nl| ==> nl[k] >= pos
  {
    if nl == [] || nl[0] >= pos then 0 else 1 + LineOf(nl[1..], pos)
  }

  function LinePos(t: string, pos: int): nat { LineOf(Newlines(t), pos) }

  /** End of line k, -1 for the line before the first. */
  function EndOf(nl: seq<int>, k: int): int
    requires -1 <= k < |nl|
  {
    if k == -1 then -1 else nl[k]
  }

  function Down(t: string, pos: int): int
    requires 0 <= pos <= |t|
  {
    var nl := Newlines(t);
    var k := LineOf(nl, pos);
    if k + 1 >= |nl| then pos
    else
      var column := pos - EndOf(nl, k - 1);
      if nl[k + 1] - nl[k] > column then nl[k] + column else nl[k + 1]
  }

  function Up(t: string, pos: int): int
    requires 0 <= pos <= |t|
  {
    var nl := Newlines(t);
    var k := LineOf(nl, pos);
    if k == 0 || k >= |nl| then pos
    else
      var column := pos - nl[k - 1];
      var begin := EndOf(nl, k - 2);
      var end := if k == 1 then nl[0] - 1 else nl[k - 1];
      if end - begin > column then begin + column else end
  }

  function MoveLines(t: string, pos: int, lines: int): (p: int)
    requires 0 <= pos <= |t|
    ensures 0 <= p <= |t|
    decreases if lines < 0 then -lines else lines
  {
    if lines == 0 then pos
    else if lines < 0 then MoveLines(t, CommandPos(t, Up(t, pos)), lines + 1)
    else MoveLines(t, CommandPos(t, Down(t, pos)), lines - 1)
  }

  /** LineMove does nothing at all on a buffer of one line. */
  function LineMoved(t: string, pos: int, lines: int): (p: int)
    ensures 0 <= p <= |t|
  {
    var p := Clamp(pos, |t|);
    if |Newlines(t)| == 1 then p else MoveLines(t, p, lines)
  }
}
