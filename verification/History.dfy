/** Undo lists and history walking (internal/history/undo.go and
    internal/history/sources.go), with one fixed history source. */
module History {
  import opened Basics
  import opened Text
  import opened Core

  datatype Item = Item(line: string, pos: int)

  /** The saved states of one line; pos counts undo steps back from the last. */
  datatype LineHistory = LineHistory(pos: int, items: seq<Item>)

  const EMPTY := LineHistory(0, [])

  datatype State = State(
    line: string,
    cursor: int,
    skip: bool,
    undoing: bool,
    hpos: int,
    cpos: int,
    lines: map<int, LineHistory>)

  /** The history lines, oldest first, and the history-preserve-point option. */
  datatype Source = Source(entries: seq<string>, preservePoint: bool)

  // What the operations compute --------------------------------------------------

  /** Line histories are kept by position in the source; -1 is the input buffer. */
  function Key(src: Source, s: State): int {
    if s.hpos > -1 then |src.entries| - s.hpos else -1
  }

  function HistoryAt(lines: map<int, LineHistory>, k: int): LineHistory {
    if k in lines then lines[k] else EMPTY
  }

  function Current(src: Source, s: State): LineHistory { HistoryAt(s.lines, Key(src, s)) }

  function SetCurrent(src: Source, s: State, lh: LineHistory): State {
    s.(lines := s.lines[Key(src, s) := lh])
  }

  function Last(items: seq<Item>): Item
    requires items != []
  {
    items[|items| - 1]
  }

  function Reset(src: Source, s: State): State {
    var lh := Current(src, s);
    SetCurrent(src, s, if s.undoing then lh else lh.(pos := 0)).(skip := false, undoing := false)
  }

  /** What Save does to the saved states: refresh the last one if the text is the
      same, or drop those undone, and those before pos, and add the text. */
  function Saved(lh: LineHistory, line: string, cursor: int): LineHistory
    requires lh.pos >= 0
  {
    var items := lh.items;
    var c := Clamp(cursor, |line|);
    if items != [] && Last(items).line == line then
      lh.(items := items[|items| - 1 := Item(line, c)])
    else
      var p := Min(lh.pos, |items|);
      LineHistory(p, items[..|items| - p] + [Item(line, CommandPos(line, c))])
  }

  function Save(src: Source, s: State): State
    requires Current(src, s).pos >= 0
  {
    if s.skip then Reset(src, s)
    else
      var saved := SetCurrent(src, s, Saved(Current(src, s), s.line, s.cursor));
      Reset(src, saved.(cursor := Clamp(s.cursor, |s.line|)))
  }

  /** The next step back from pos whose text differs from line; past the end if
      there is none. */
  function NextUndo(items: seq<Item>, pos: int, line: string): (q: int)
    requires pos >= 0
    ensures pos < q
    ensures q <= |items| ==> items[|items| - q].line != line
    ensures q > |items| ==> forall i :: 0 <= i < |items| - pos ==> items[i].line == line
    decreases |items| - pos
  {
    if pos + 1 > |items| || items[|items| - pos - 1].line != line then pos + 1
    else NextUndo(items, pos + 1, line)
  }

  lemma {:induction false} NextUndoStep(items: seq<Item>, pos: int, line: string)
    requires pos >= 0
    ensures NextUndo(items, pos, line) ==
      if pos + 1 > |items| || items[|items| - pos - 1].line != line then pos + 1 else NextUndo(items, pos + 1, line)
  {
  }

  function Undo(src: Source, s: State): State
    requires Current(src, s).pos >= 0
  {
    var lh := Current(src, s);
    var s1 := SetCurrent(src, s, lh).(skip := true, undoing := true);
    if lh.items == [] then s1
    else
      var q := NextUndo(lh.items, lh.pos, s.line);
      if q > |lh.items| then SetCurrent(src, s1, lh.(pos := |lh.items|))
      else
        var item := lh.items[|lh.items| - q];
        SetCurrent(src, s1, lh.(pos := q)).(line := item.line, cursor := Clamp(item.pos, |item.line|))
  }

  /** An undo writes the states of the current line, and the line when one is found. */
  lemma {:induction false} UndoIs(src: Source, s: State)
    requires Current(src, s).pos >= 0 && Current(src, s).items != []
    ensures var k, lh := Key(src, s), Current(src, s);
      var q := NextUndo(lh.items, lh.pos, s.line);
      Undo(src, s) ==
        if q > |lh.items| then s.(skip := true, undoing := true, lines := s.lines[k := lh.(pos := |lh.items|)])
        else
          var item := lh.items[|lh.items| - q];
          s.(skip := true, undoing := true, lines := s.lines[k := lh.(pos := q)],
             line := item.line, cursor := Clamp(item.pos, |item.line|))
  {
    hide NextUndo;
    var k, lh := Key(src, s), Current(src, s);
    var q := NextUndo(lh.items, lh.pos, s.line);
    var l := lh.(pos := if q > |lh.items| then |lh.items| else q);
    assert s.lines[k := lh][k := l] == s.lines[k := l];
  }

  function Redo(src: Source, s: State): State
    requires Current(src, s).pos - 1 <= |Current(src, s).items|
  {
    var lh := Current(src, s);
    var s1 := SetCurrent(src, s, lh).(skip := true, undoing := true);
    if lh.items == [] then s1
    else
      var q := lh.pos - 1;
      var s2 := SetCurrent(src, s1, lh.(pos := q));
      if q < 1 then s2
      else
        var item := lh.items[|lh.items| - q];
        s2.(line := item.line, cursor := Clamp(item.pos, |item.line|))
  }

  function Revert(src: Source, s: State): State {
    var lh := Current(src, s);
    if lh.items == [] then SetCurrent(src, s, lh)
    else
      var item := lh.items[0];
      Reset(src, SetCurrent(src, s, lh.(items := [])).(line := item.line, cursor := Clamp(item.pos, |item.line|)))
  }

  /** Back to the input buffer, as it was last saved. */
  function Restore(s: State): State {
    var lh := HistoryAt(s.lines, -1);
    if lh.items == [] then s.(hpos := -1)
    else
      var item := Last(lh.items);
      s.(hpos := -1, line := item.line, cursor := Clamp(item.pos, |item.line|))
  }

  function ShowLine(src: Source, s: State, next: string): State {
    var c := if s.cpos == -1 && |s.line| > 0 then Clamp(s.cursor, |s.line|) else s.cpos;
    s.(line := next, cpos := c,
       cursor := if src.preservePoint && |next| > c && c != -1 then Clamp(c, |next|) else |next|)
  }

  /** The line at hpos: as last saved, else as the source has it. */
  function ShowCurrent(src: Source, s: State): State {
    var len := |src.entries|;
    var lh := Current(src, s);
    var s1 := SetCurrent(src, s, lh);
    if lh.items != [] then ShowLine(src, s1, Last(lh.items).line)
    else if 0 <= len - s.hpos < len then ShowLine(src, s1, src.entries[len - s.hpos])
    else s1  // the source reports an error
  }

  function Walk(src: Source, s: State, n: int): State
    requires Current(src, s).pos >= 0
  {
    var len := |src.entries|;
    if len == 0 || (s.hpos == len && n == 1) then s
    else
      var s0 := if s.hpos == -1 && n > 0 then Save(src, s.(skip := false)).(cpos := -1, hpos := 0) else s;
      var s1 := s0.(hpos := s0.hpos + n);
      if s1.hpos < -1 then s1.(hpos := -1)
      else if s1.hpos == 0 then Restore(s1)
      else ShowCurrent(src, s1.(hpos := Min(s1.hpos, len)))
  }

  class Sources {
    const line: Line
    const cursor: Cursor
    const src: Source
    var skip: bool
    var undoing: bool
    var hpos: int
    var cpos: int
    var lines: map<int, LineHistory>

    constructor (line: Line, cursor: Cursor, src: Source)
      requires cursor.line == line
      ensures this.line == line && this.cursor == cursor && this.src == src
      ensures Now() == State(line.runes, cursor.pos, false, false, -1, -1, map[])
    {
      this.line, this.cursor, this.src := line, cursor, src;
      skip, undoing, hpos, cpos, lines := false, false, -1, -1, map[];
    }

    predicate Valid()
      reads this
    {
      cursor.line == line
    }

    function Now(): State
      reads this, line, cursor
    {
      State(line.runes, cursor.pos, skip, undoing, hpos, cpos, lines)
    }

    /** getLineHistory: the current line's states, made on the first use. */
    method GetLineHistory() returns (k: int)
      modifies this`lines
      ensures k == Key(src, Now()) && k in lines && lines[k] == old(Current(src, Now()))
      ensures Now() == old(SetCurrent(src, Now(), Current(src, Now())))
      ensures lines == old(lines)[k := lines[k]]
    {
      k := if hpos > -1 then |src.entries| - hpos else -1;
      if k !in lines { lines := lines[k := EMPTY]; }
      assert lines == old(lines)[k := lines[k]];
    }

    method ResetPosition()
      modifies this
      ensures Now() == old(Reset(src, Now()))
    {
      skip := false;
      var k := GetLineHistory();
      if !undoing { lines := lines[k := lines[k].(pos := 0)]; }
      undoing := false;
    }

    method SaveLine()
      requires Valid() && Current(src, Now()).pos >= 0
      modifies this, cursor
      ensures Now() == old(Save(src, Now()))
    {
      hide Reset, CommandPos;
      if skip {
        ResetPosition();
        return;
      }
      var k := GetLineHistory();
      var lh := lines[k];
      var c := cursor.Pos();
      if |lh.items| > 0 && Last(lh.items).line == line.runes {
        lh := lh.(items := lh.items[|lh.items| - 1 := Item(line.runes, c)]);
        assert lines[k := lh] == old(lines)[k := lh];
        lines := lines[k := lh];
        ResetPosition();
        return;
      }
      if lh.pos > |lh.items| { lh := lh.(pos := |lh.items|); }
      lh := lh.(items := lh.items[..|lh.items| - lh.pos]);
      var cur := new Cursor(line);
      cur.Set(c);
      cur.CheckCommand();
      lh := lh.(items := lh.items + [Item(line.runes, cur.pos)]);
      assert lines[k := lh] == old(lines)[k := lh];
      lines := lines[k := lh];
      ResetPosition();
    }

    method UndoLast()
      requires Valid() && Current(src, Now()).pos >= 0
      modifies this, line, cursor
      ensures Now() == old(Undo(src, Now()))
    {
      ghost var before := Now();
      if Current(src, before).items != [] { UndoIs(src, before); }
      skip, undoing := true, true;
      var k := GetLineHistory();
      var lh := lines[k];
      if lh.items == [] { return; }
      assert k == Key(src, before) && lh == Current(src, before);
      hide Undo, Current, Key;
      var pos := FindUndo(lh);
      if pos > |lh.items| {
        lines := lines[k := lh.(pos := |lh.items|)];
        assert lines == before.lines[k := lh.(pos := |lh.items|)];
        return;
      }
      var item := lh.items[|lh.items| - pos];
      lines := lines[k := lh.(pos := pos)];
      assert lines == before.lines[k := lh.(pos := pos)];
      line.Set(item.line);
      cursor.Set(item.pos);
    }

    /** The loop of Undo: the first step back that shows another text, or one past the
        oldest state. */
    method FindUndo(lh: LineHistory) returns (pos: int)
      requires lh.pos >= 0
      ensures pos == NextUndo(lh.items, lh.pos, line.runes)
    {
      pos := lh.pos;
      hide NextUndo;
      while true
        invariant lh.pos <= pos && (pos <= |lh.items| || pos == lh.pos)
        invariant NextUndo(lh.items, pos, line.runes) == NextUndo(lh.items, lh.pos, line.runes)
        decreases |lh.items| - pos
      {
        NextUndoStep(lh.items, pos, line.runes);
        pos := pos + 1;
        if pos > |lh.items| { return; }
        var item := lh.items[|lh.items| - pos];
        if item.line != line.runes { return; }
      }
    }

    method RedoLast()
      requires Valid() && Current(src, Now()).pos - 1 <= |Current(src, Now()).items|
      modifies this, line, cursor
      ensures Now() == old(Redo(src, Now()))
    {
      skip, undoing := true, true;
      var k := GetLineHistory();
      var lh := lines[k];
      if lh.items == [] { return; }
      lh := lh.(pos := lh.pos - 1);
      lines := lines[k := lh];
      if lh.pos < 1 { return; }
      var item := lh.items[|lh.items| - lh.pos];
      line.Set(item.line);
      cursor.Set(item.pos);
    }

    method RevertLine()
      requires Valid()
      modifies this, line, cursor
      ensures Now() == old(Revert(src, Now()))
    {
      var k := GetLineHistory();
      var lh := lines[k];
      if lh.items == [] { return; }
      var item := lh.items[0];
      line.Set(item.line);
      cursor.Set(item.pos);
      lines := lines[k := lh.(items := [])];
      hide Reset;
      ResetPosition();
    }

    method RestoreLineBuffer()
      requires Valid()
      modifies this`hpos, line, cursor
      ensures Now() == old(Restore(Now()))
    {
      hpos := -1;
      if -1 !in lines || lines[-1].items == [] { return; }
      var item := Last(lines[-1].items);
      line.Set(item.line);
      cursor.Set(item.pos);
    }

    method SetLineCursorMatch(next: string)
      requires Valid()
      modifies this`cpos, line, cursor
      ensures Now() == old(ShowLine(src, Now(), next))
    {
      if cpos == -1 && |line.runes| > 0 {
        cpos := cursor.Pos();
      }
      line.Set(next);
      if src.preservePoint && |line.runes| > cpos && cpos != -1 {
        cursor.Set(cpos);
      } else {
        cursor.Set(|line.runes|);
      }
    }

    method ShowCurrentLine()
      requires Valid()
      modifies this`cpos, this`lines, line, cursor
      ensures Now() == old(ShowCurrent(src, Now()))
    {
      hide ShowLine;
      var len := |src.entries|;
      var k := GetLineHistory();
      if |lines[k].items| > 0 {
        SetLineCursorMatch(Last(lines[k].items).line);
      } else if 0 <= len - hpos < len {
        SetLineCursorMatch(src.entries[len - hpos]);
      }
    }

    method WalkLines(n: int)
      requires Valid() && Current(src, Now()).pos >= 0
      modifies this, line, cursor
      ensures Now() == old(Walk(src, Now(), n))
    {
      hide Save, Restore, ShowCurrent;
      var len := |src.entries|;
      if len == 0 || (hpos == len && n == 1) { return; }
      if hpos == -1 && n > 0 {
        skip := false;
        SaveLine();
        cpos := -1;
        hpos := 0;
      }
      hpos := hpos + n;
      if hpos < -1 {
        hpos := -1;
        return;
      } else if hpos == 0 {
        RestoreLineBuffer();
        return;
      } else if hpos > len {
        hpos := len;
      }
      ShowCurrentLine();
    }
  }
}
