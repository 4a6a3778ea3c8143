/** The line buffer and its cursor (internal/core/line.go, internal/core/cursor.go).
    Each method is proved against the functions of Text and Tokens. */
module Core {
  import opened Basics
  import opened Unicode
  import opened Text
  import T = Tokens

  class Line {
    var runes: string

    constructor (runes: string)
      ensures this.runes == runes
    {
      this.runes := runes;
    }

    method Set(chars: string)
      modifies this
      ensures runes == chars
    {
      runes := chars;
    }

    method Insert(pos: int, chars: string)
      modifies this
      ensures runes == Inserted(old(runes), pos, chars)
    {
      var end := |chars|;
      assert chars[..|chars|] == chars;
      while end > 0 && chars[end - 1] == NUL
        invariant 0 <= end <= |chars|
        invariant StripNul(chars[..end]) == StripNul(chars)
      {
        assert chars[..end][..end - 1] == chars[..end - 1];
        end := end - 1;
      }
      if pos < 0 || pos > |runes| { return; }
      runes := runes[..pos] + chars[..end] + runes[pos..];
    }

    method Cut(bpos: int, epos: int)
      requires bpos <= |runes| && epos >= -1
      modifies this
      ensures runes == CutOut(old(runes), bpos, epos)
    {
      var range := LineRange(runes, bpos, epos);
      if range.Invalid? { return; }
      if range.e == -1 {
        runes := runes[..range.b];
      } else {
        runes := runes[..range.b] + runes[range.e..];
      }
    }

    method Find(c: char, from: int, forward: bool) returns (i: int)
      ensures i == if forward then FindForward(runes, c, Clamp(from, |runes|))
        else FindBackward(runes, c, Clamp(from, |runes|))
    {
      if runes == "" { return -1; }
      var pos := Clamp(from, |runes|);
      while true
        invariant 0 <= pos <= |runes|
        invariant forward ==>
          FindForward(runes, c, pos) == FindForward(runes, c, Clamp(from, |runes|))
        invariant !forward ==>
          FindBackward(runes, c, pos) == FindBackward(runes, c, Clamp(from, |runes|))
        decreases if forward then |runes| - pos else pos
      {
        if forward {
          pos := pos + 1;
          if pos > |runes| - 1 { break; }
        } else {
          pos := pos - 1;
          if pos < 0 { break; }
        }
        if runes[pos] == c { return pos; }
      }
      i := -1;
    }

    /** newlines: where each line of the buffer ends. */
    method LineEnds() returns (nl: seq<int>)
      ensures nl == Newlines(runes)
    {
      hide AreNewlines;
      nl := [];
      for i := 0 to |runes|
        invariant nl + NewlinesFrom(runes, i) == Newlines(runes)
      {
        if runes[i] == '\n' {
          assert nl + ([i] + NewlinesFrom(runes, i + 1)) == nl + [i] + NewlinesFrom(runes, i + 1);
          nl := nl + [i];
        }
      }
      nl := nl + [|runes|];
    }

    method Tokenize(u: Tables, cpos: int) returns (tok: T.Tokenized)
      ensures tok == T.Tokenize(T.Words(u), runes, cpos)
    {
      hide T.ByteLen;
      if runes == "" { return T.Tokenized([], 0, 0); }
      var c := Clamp(cpos, |runes|);
      var index, pos := 0, 0;
      var punc := false;
      var split := [""];
      for i := 0 to |runes|
        invariant split == T.TokensTo(T.Words(u), runes, i)
        invariant punc == (i > 0 && T.IsSeparator(u, runes[i - 1]))
        invariant i > c ==> var before := T.TokensTo(T.Words(u), runes, c + 1);
          index == |before| - 1 && pos == T.ByteLen(T.Last(before)) - 1
      {
        var r := runes[i];
        if u.IsPunct(r) {
          if i > 0 && runes[i - 1] != r { split := split + [""]; }
          split := T.Extend(split, r);
          punc := true;
        } else if r == ' ' || r == '\t' {
          split := T.Extend(split, r);
          punc := true;
        } else if r == '\n' {
          if i > 0 && runes[i - 1] == r { split := split + [""]; }
          split := T.Extend(split, r);
          punc := true;
        } else {
          if punc { split := split + [""]; }
          split := T.Extend(split, r);
          punc := false;
        }
        if i == c {
          index := |split| - 1;
          pos := T.ByteLen(split[index]) - 1;
        }
      }
      if c == |runes| {
        index := |split| - 1;
        pos := T.ByteLen(split[index]);
      }
      tok := T.Tokenized(split, index, pos);
    }

    method TokenizeSpace(cpos: int) returns (tok: T.Tokenized)
      ensures tok == T.Tokenize(T.Blanks, runes, cpos)
    {
      hide T.ByteLen;
      if runes == "" { return T.Tokenized([], 0, 0); }
      var c := Clamp(cpos, |runes|);
      var index, pos := 0, 0;
      var newline := false;
      var split := [""];
      for i := 0 to |runes|
        invariant split == T.TokensTo(T.Blanks, runes, i)
        invariant newline == (i > 0 && runes[i - 1] == '\n')
        invariant i > c ==> var before := T.TokensTo(T.Blanks, runes, c + 1);
          index == |before| - 1 && pos == T.ByteLen(T.Last(before)) - 1
      {
        var r := runes[i];
        if r == ' ' || r == '\t' {
          split := T.Extend(split, r);
          newline := false;
        } else if r == '\n' {
          if i > 0 && runes[i - 1] == r { split := split + [""]; }
          split := T.Extend(split, r);
          newline := true;
        } else {
          if (i > 0 && (runes[i - 1] == ' ' || runes[i - 1] == '\t')) || newline { split := split + [""]; }
          newline := false;
          split := T.Extend(split, r);
        }
        if i == c {
          index := |split| - 1;
          pos := T.ByteLen(split[index]) - 1;
        }
      }
      if c == |runes| {
        index := |split| - 1;
        pos := T.ByteLen(split[index]);
      }
      tok := T.Tokenized(split, index, pos);
    }
  }

  /** The mark after a position check: -1 when it is out of the line. */
  function MarkAfter(mark: int, len: nat): (m: int)
    ensures m == -1 || 0 <= m < len
    ensures 0 <= mark < len ==> m == mark
  {
    if mark < -1 || mark > len - 1 then -1 else mark
  }

  class Cursor {
    var pos: int
    var mark: int
    const line: Line

    constructor (line: Line)
      ensures this.line == line && pos == 0 && mark == -1
    {
      this.line, pos, mark := line, 0, -1;
    }

    predicate InLine()
      reads this, line
    {
      0 <= pos <= |line.runes|
    }

    method CheckAppend()
      modifies this
      ensures pos == Clamp(old(pos), |line.runes|) && mark == MarkAfter(old(mark), |line.runes|)
    {
      if pos < 0 { pos := 0; }
      if pos > |line.runes| { pos := |line.runes|; }
      if mark < -1 { mark := -1; }
      if mark > |line.runes| - 1 { mark := -1; }
    }

    method CheckCommand()
      modifies this
      ensures pos == CommandPos(line.runes, old(pos)) && mark == MarkAfter(old(mark), |line.runes|)
    {
      CheckAppend();
      if pos == |line.runes| && !OnEmptyLine(line.runes, pos) {
        pos := pos - 1;
      }
      if |line.runes| > 0 && pos < |line.runes| && line.runes[pos] == '\n' && !OnEmptyLine(line.runes, pos) {
        Dec();
      }
    }

    method Dec()
      modifies this`pos
      ensures pos == if old(pos) > 0 then old(pos) - 1 else old(pos)
    {
      if pos > 0 { pos := pos - 1; }
    }

    method Set(to: int)
      modifies this
      ensures pos == Clamp(to, |line.runes|) && mark == MarkAfter(old(mark), |line.runes|)
    {
      pos := Clamp(to, |line.runes|);
      CheckAppend();
    }

    /** Pos also brings the cursor back into the line. */
    method Pos() returns (p: int)
      modifies this
      ensures p == pos == Clamp(old(pos), |line.runes|) && mark == MarkAfter(old(mark), |line.runes|)
    {
      CheckAppend();
      p := pos;
    }

    method Move(offset: int)
      modifies this
      ensures pos == Clamp(old(pos) + offset, |line.runes|) && mark == MarkAfter(old(mark), |line.runes|)
    {
      pos := pos + offset;
      CheckAppend();
    }

    method InsertAt(r: string)
      modifies this, line
      ensures var p := Clamp(old(pos), |old(line.runes)|);
        line.runes == Inserted(old(line.runes), p, r) && pos == p + |r|
      ensures mark == MarkAfter(old(mark), |old(line.runes)|)
    {
      CheckAppend();
      line.Insert(pos, r);
      pos := pos + |r|;
    }

    method BeginningOfLine()
      modifies this
      ensures pos == CommandPos(line.runes, LineBegin(line.runes, Clamp(old(pos), |line.runes|)))
      ensures mark == MarkAfter(old(mark), |line.runes|)
    {
      var i := line.Find('\n', pos, false);
      if i != -1 {
        pos := i + 1;
      } else {
        pos := 0;
      }
      CheckCommand();
    }

    method EndOfLineAppend()
      requires line.runes != "" ==> InLine()
      modifies this
      ensures pos == LineEndAppend(line.runes, Clamp(old(pos), |line.runes|))
      ensures mark == MarkAfter(old(mark), |line.runes|)
    {
      if line.runes == "" || OnEmptyLine(line.runes, pos) {
        CheckAppend();
        return;
      }
      var i := line.Find('\n', pos - 1, true);
      if i != -1 {
        pos := i;
      } else {
        pos := |line.runes|;
      }
      CheckAppend();
    }

    /** LinePos: the index of the cursor's line. */
    method LineIndex() returns (k: nat)
      modifies this
      ensures pos == Clamp(old(pos), |line.runes|) && mark == MarkAfter(old(mark), |line.runes|)
      ensures k == LinePos(line.runes, pos)
    {
      CheckAppend();
      var nl := line.LineEnds();
      k := 0;
      while k < |nl|
        invariant k <= LineOf(nl, pos) && k <= |nl|
      {
        if nl[k] >= pos { return; }
        k := k + 1;
      }
    }

    /** The line index is asked for on every pass, and already the first time brings
        the cursor into the line. */
    method MoveLineDown()
      modifies this
      ensures pos == Down(line.runes, Clamp(old(pos), |line.runes|)) && mark == MarkAfter(old(mark), |line.runes|)
    {
      hide Newlines, LineOf;
      CheckAppend();
      ghost var p := pos;
      var cpos, begin := 0, -1;
      var nl := line.LineEnds();
      ghost var k0 := LineOf(nl, p);
      hide AreNewlines;
      for i := 0 to |nl|
        invariant pos == p && mark == MarkAfter(old(mark), |line.runes|)
        invariant i <= k0 + 1
        invariant begin == EndOf(nl, i - 1)
        invariant i == k0 + 1 ==> cpos == p - EndOf(nl, i - 2)
      {
        var end := nl[i];
        var k := LineIndex();
        if i < k {
          begin := end;
        } else if i == k {
          cpos := pos - begin;
          begin := end;
        } else {
          if end - begin > cpos {
            pos := begin + cpos;
          } else {
            pos := end;
          }
          return;
        }
      }
    }

    method MoveLineUp()
      modifies this
      ensures pos == Up(line.runes, Clamp(old(pos), |line.runes|)) && mark == MarkAfter(old(mark), |line.runes|)
    {
      hide Newlines, LineOf;
      CheckAppend();
      ghost var p := pos;
      var cpos, begin := 0, 0;
      var nl := line.LineEnds();
      ghost var k0 := LineOf(nl, p);
      assert nl[|nl| - 1] >= p;
      hide AreNewlines;
      var i := |nl| - 1;
      while i >= 0
        invariant k0 - 1 <= i < |nl| && pos == p && mark == MarkAfter(old(mark), |line.runes|)
        invariant i == k0 - 1 ==> cpos == p - EndOf(nl, i)
      {
        var end := nl[i];
        var k := LineIndex();
        if i > k {
          i := i - 1;
          continue;
        }
        if i > 0 {
          begin := nl[i - 1];
        } else {
          begin := -1;
          end := end - 1;
        }
        if i == k {
          cpos := pos - begin;
          i := i - 1;
          continue;
        }
        assert i == k0 - 1;
        if end - begin > cpos {
          pos := begin + cpos;
        } else {
          pos := end;
        }
        return;
      }
    }

    method LineMove(lines: int)
      modifies this
      ensures pos == LineMoved(line.runes, old(pos), lines) && mark == MarkAfter(old(mark), |line.runes|)
    {
      hide Newlines, Up, Down, CommandPos;
      CheckAppend();
      var nl := line.LineEnds();
      if |nl| == 1 || lines == 0 { return; }
      ghost var start := pos;
      if lines < 0 {
        for i := 0 to -lines
          invariant InLine() && mark == MarkAfter(old(mark), |line.runes|)
          invariant MoveLines(line.runes, pos, lines + i) == MoveLines(line.runes, start, lines)
        {
          MoveLineUp();
          CheckCommand();
        }
      } else {
        for i := 0 to lines
          invariant InLine() && mark == MarkAfter(old(mark), |line.runes|)
          invariant MoveLines(line.runes, pos, lines - i) == MoveLines(line.runes, start, lines)
        {
          MoveLineDown();
          CheckCommand();
        }
      }
      CheckAppend();
    }
  }
}
