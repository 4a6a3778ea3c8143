/** Killing and yanking (emacs.go): commands over the line, its cursor, the
    selection, the kill ring and the undo history. */
module KillYank {
  import opened Basics
  import opened Unicode
  import opened Text
  import opened Core
  import opened Selections
  import opened Registers
  import H = History
  import T = Tokens
  import U = UndoLists
  import W = WordShapes

  const PLAIN := Mode(true, false, false)

  /** What a kill of the range b..e takes out, given the selection's modes. */
  function Killed(t: string, visual: bool, visualLine: bool, surrounds: seq<Surround>,
      b: int, e: int, cursor: int): Removal
  {
    CutSelection(t, surrounds, SelectionPos(t, Mode(true, visual, visualLine), b, e, cursor))
  }

  function YankTimes(t: string, pos: int, buf: string, n: int): string
    decreases if n > 0 then n else 0
  {
    if n <= 0 then t
    else
      var p := Clamp(pos, |t|);
      YankTimes(Inserted(t, p, buf), p + |buf|, buf, n - 1)
  }

  function YankPos(t: string, pos: int, buf: string, n: int): int
    decreases if n > 0 then n else 0
  {
    if n <= 0 then pos
    else
      var p := Clamp(pos, |t|);
      YankPos(Inserted(t, p, buf), p + |buf|, buf, n - 1)
  }

  /** The start of what backwardKillWord kills: the cursor moved back a word. */
  function WordBegin(u: Tables, t: string, pos: int): int {
    T.BackwardFrom(T.Words(u), t, pos)
  }

  class Shell {
    const u: Tables
    const line: Line
    const cursor: Cursor
    const selection: Selection
    const buffers: Buffers
    const history: H.Sources

    constructor (u: Tables, line: Line, cursor: Cursor, selection: Selection, buffers: Buffers, history: H.Sources)
      ensures this.u == u && this.line == line && this.cursor == cursor
      ensures this.selection == selection && this.buffers == buffers && this.history == history
    {
      this.u, this.line, this.cursor, this.selection := u, line, cursor, selection;
      this.buffers, this.history := buffers, history;
    }

    ghost predicate Valid()
      reads buffers
    {
      && cursor.line == line && selection.line == line && selection.cursor == cursor
      && history.line == line && history.cursor == cursor && buffers.Valid()
    }

    /** No visual or surround selection and no register chosen. */
    predicate Plain()
      reads selection, buffers
    {
      && !selection.visual && !selection.visualLine && selection.surrounds == []
      && !buffers.waiting && !buffers.selected
    }

    /** The undo position is not negative, as a save needs it. */
    predicate CanSave()
      reads history, history.line, history.cursor, line, cursor
    {
      H.Current(history.src, history.Now()).pos >= 0
    }

    /** The cut text has gone from the line to the register that a write goes to. */
    twostate predicate Took(k: Removal)
      reads line, buffers
    {
      && line.runes == k.text
      && buffers.ring == RingAfter(old(buffers.ring), old(buffers.selected), old(buffers.active), k.buf)
      && buffers.alpha == AlphaAfter(buffers.u, old(buffers.alpha), old(buffers.selected), old(buffers.active), k.buf)
      && !buffers.waiting && !buffers.selected
    }

    /** The line was saved for undo, and the save after the command is skipped or not. */
    twostate predicate SavedFirst(skipping: bool)
      requires old(CanSave())
      reads history, history.line, history.cursor, line, cursor
    {
      history.Now() ==
        old(H.Save(history.src, history.Now())).(line := line.runes, cursor := cursor.pos, skip := skipping)
    }

    /** What every kill ends with: the selection goes from the line to the registers. */
    method CutToBuffers()
      requires Valid()
      modifies line, cursor, selection, buffers
      ensures Valid() && Took(old(CutSelection(line.runes, selection.surrounds, selection.Current())))
      ensures cursor.pos == old(cursor.pos) || cursor.pos == Clamp(old(cursor.pos), |old(line.runes)|)
    {
      hide RingAfter, AlphaAfter, CutSelection, SelectionPos;
      var text := selection.Cut();
      buffers.Write(text);
    }

    method MarkBetween(b: int, e: int)
      requires Valid() && 0 <= b <= e <= |line.runes| && line.runes != ""
      modifies selection
      ensures Valid() && selection.surrounds == old(selection.surrounds)
      ensures selection.Current() ==
        SelectionPos(line.runes, Mode(true, old(selection.visual), old(selection.visualLine)), b, e, cursor.pos)
    {
      hide Ends;
      selection.MarkRange(b, e);
    }

    method KillLine()
      requires Valid() && CanSave()
      modifies line, cursor, selection, buffers, history
      ensures Valid() && SavedFirst(false)
      ensures old(line.runes) == "" ==> unchanged(line, selection, buffers)
      ensures old(line.runes) != "" ==>
        var t := old(line.runes);
        var c := Clamp(old(cursor.pos), |t|);
        var e := LineEndAppend(t, c);
        && Took(Killed(t, old(selection.visual), old(selection.visualLine), old(selection.surrounds), c, e, e))
        && cursor.pos == Clamp(c, |line.runes|)
    {
      history.SaveLine();
      KillToEnd();
    }

    method KillToEnd()
      requires Valid()
      modifies line, cursor, selection, buffers
      ensures Valid()
      ensures old(line.runes) == "" ==> unchanged(line, cursor, selection, buffers)
      ensures old(line.runes) != "" ==>
        var t := old(line.runes);
        var c := Clamp(old(cursor.pos), |t|);
        var e := LineEndAppend(t, c);
        && Took(Killed(t, old(selection.visual), old(selection.visualLine), old(selection.surrounds), c, e, e))
        && cursor.pos == Clamp(c, |line.runes|)
    {
      hide LineEndAppend, RingAfter, AlphaAfter, CutSelection, SelectionPos;
      if |line.runes| == 0 { return; }
      var cpos := cursor.Pos();
      cursor.EndOfLineAppend();
      var e := cursor.Pos();
      MarkBetween(cpos, e);
      CutToBuffers();
      cursor.Set(cpos);
    }

    method BackwardKillLine()
      requires Valid() && CanSave()
      modifies line, cursor, selection, buffers, history
      ensures Valid() && SavedFirst(false)
      ensures old(line.runes) == "" ==> unchanged(line, selection, buffers)
      ensures old(line.runes) != "" ==>
        var t := old(line.runes);
        var c := Clamp(old(cursor.pos), |t|);
        var b := LineBegin(t, c);
        && Took(Killed(t, old(selection.visual), old(selection.visualLine), old(selection.surrounds), b, c, b))
        && cursor.pos == b
    {
      history.SaveLine();
      KillToBeginning();
    }

    method KillToBeginning()
      requires Valid()
      modifies line, cursor, selection, buffers
      ensures Valid()
      ensures old(line.runes) == "" ==> unchanged(line, cursor, selection, buffers)
      ensures old(line.runes) != "" ==>
        var t := old(line.runes);
        var c := Clamp(old(cursor.pos), |t|);
        var b := LineBegin(t, c);
        && Took(Killed(t, old(selection.visual), old(selection.visualLine), old(selection.surrounds), b, c, b))
        && cursor.pos == b
    {
      hide LineBegin, CommandPos, RingAfter, AlphaAfter, CutSelection, SelectionPos;
      if |line.runes| == 0 { return; }
      var cpos := cursor.Pos();
      LineBeginIsCommandPos(line.runes, cpos);
      cursor.BeginningOfLine();
      var b := cursor.Pos();
      MarkBetween(b, cpos);
      CutToBuffers();
    }

    method BackwardKillWord()
      requires Valid() && CanSave()
      modifies line, cursor, selection, buffers, history
      ensures Valid() && SavedFirst(true) && !buffers.waiting && !buffers.selected
      ensures old(line.runes) == "" ==>
        line.runes == "" && buffers.ring == old(buffers.ring) && buffers.alpha == old(buffers.alpha)
      ensures old(line.runes) != "" ==>
        var t := old(line.runes);
        var c := Clamp(old(cursor.pos), |t|);
        var b := WordBegin(u, t, c);
        && Took(Killed(t, old(selection.visual), old(selection.visualLine), old(selection.surrounds), c, -1, b))
        && cursor.pos == b
    {
      history.SaveLine();
      history.skip := true;  // SkipSave
      KillWordBefore();
    }

    method KillWordBefore()
      requires Valid()
      modifies line, cursor, selection, buffers
      ensures Valid() && !buffers.waiting && !buffers.selected
      ensures old(line.runes) == "" ==>
        line.runes == "" && buffers.ring == old(buffers.ring) && buffers.alpha == old(buffers.alpha)
      ensures old(line.runes) != "" ==>
        var t := old(line.runes);
        var c := Clamp(old(cursor.pos), |t|);
        var b := WordBegin(u, t, c);
        && Took(Killed(t, old(selection.visual), old(selection.visualLine), old(selection.surrounds), c, -1, b))
        && cursor.pos == b
    {
      hide SelectionPos, T.Tokenize, T.BackwardOffset;
      var c := cursor.Pos();
      selection.Mark(c);
      c := cursor.Pos();
      var tok := line.Tokenize(u, c);
      T.TokenizeInRange(T.Words(u), line.runes, c);
      cursor.Move(T.BackwardOffset(tok));
      CutToBuffers();
    }

    /** The number of repetitions comes from the numeric argument. */
    method Yank(iterations: int)
      requires Valid()
      modifies line, cursor, buffers
      ensures Valid() && buffers.ring == old(buffers.ring) && buffers.alpha == old(buffers.alpha)
      ensures buffers.active == '\0' && !buffers.waiting && !buffers.selected
      ensures var buf := if !old(buffers.waiting) && !old(buffers.selected) then old(buffers.GetKill())
          else old(buffers.Get(buffers.active));
        && line.runes == YankTimes(old(line.runes), old(cursor.pos), buf, iterations)
        && cursor.pos == YankPos(old(line.runes), old(cursor.pos), buf, iterations)
    {
      hide Buffers.GetKill, Buffers.Get, Inserted;
      var buf := buffers.Active();
      var i := 1;
      while i <= iterations
        invariant Valid() && buffers.ring == old(buffers.ring) && buffers.alpha == old(buffers.alpha)
        invariant buffers.active == '\0' && !buffers.waiting && !buffers.selected
        invariant YankTimes(line.runes, cursor.pos, buf, iterations - i + 1)
          == YankTimes(old(line.runes), old(cursor.pos), buf, iterations)
        invariant YankPos(line.runes, cursor.pos, buf, iterations - i + 1)
          == YankPos(old(line.runes), old(cursor.pos), buf, iterations)
      {
        cursor.InsertAt(buf);
        i := i + 1;
      }
    }

    // A kill followed by a yank or an undo, as typed one after the other.

    /** Between commands: undo positions in range, no save skipped, no undo going on. */
    predicate Fresh()
      reads history, history.line, history.cursor, line, cursor
    {
      !history.skip && !history.undoing && U.Ready(history.src, history.Now())
    }

    /** The yank after a kill of t[b..e]. */
    method YankBack(ghost t: string, ghost b: int, ghost e: int, ghost head: string)
      requires Valid() && !buffers.waiting && !buffers.selected && 0 <= b <= e <= |t|
      requires line.runes == t[..b] + t[e..] && Clamp(cursor.pos, |line.runes|) == b
      requires buffers.GetKill() == if b < e then t[b..e] else head
      modifies line, cursor, buffers
      ensures line.runes == t <==> Restores(t[b..e], head)
    {
      ReinsertedText(t, b, e, head, cursor.pos);
      hide YankTimes, YankPos, Restores, Buffers.GetKill;
      Yank(1);
    }

    /** The save after a command, then the undo command with its own. */
    method UndoAfterCommand()
      requires Valid() && CanSave()
      requires U.Ready(history.src, H.Save(history.src, history.Now()))
      modifies line, cursor, history
      ensures history.Now() == old(U.UndoCommand(history.src, H.Save(history.src, history.Now())))
    {
      hide H.Save, H.Undo;
      history.SaveLine();
      UndoCanSave(history.src, history.Now());
      history.UndoLast();
      history.SaveLine();
    }

    method KillLineThenYank()
      requires Valid() && Plain() && CanSave()
      modifies line, cursor, selection, buffers, history
      ensures var t := old(line.runes);
        var c := Clamp(old(cursor.pos), |t|);
        (line.runes == t <==> Restores(t[c..LineEndAppend(t, c)], old(buffers.GetKill())))
    {
      hide LineBegin, LineEndAppend, WordBegin, Killed, AlphaAfter, H.Save, H.Current, Restores, StripNul;
      ghost var t, c, head := line.runes, Clamp(cursor.pos, |line.runes|), buffers.GetKill();
      ghost var b, e := c, LineEndAppend(t, c);
      KilledRange(t, b, e, e);
      KillLine();
      YankBack(t, b, e, head);
    }

    /** That kill and the save after it, then an undo: the text is back exactly when
        something was killed, or nothing else was ever saved for the line. */
    method KillLineThenUndo()
      requires Valid() && Plain() && Fresh()
      modifies line, cursor, selection, buffers, history
      ensures var t := old(line.runes);
        var c := Clamp(old(cursor.pos), |t|);
        (line.runes == t <==>
          t[c..LineEndAppend(t, c)] != "" || old(OnlySaved(history.src, history.Now())))
    {
      ghost var t, c, s := line.runes, Clamp(cursor.pos, |line.runes|), history.Now();
      ghost var b, e := c, LineEndAppend(t, c);
      KilledRange(t, b, e, e);
      SomethingKilled(t, b, e);
      hide LineBegin, LineEndAppend, WordBegin, Killed, AlphaAfter, RingAfter, OnlySaved, H.Save, H.Undo;
      KillLine();
      EditUndone(history.src, s, line.runes, cursor.pos, false);
      UndoAfterCommand();
    }

    method BackwardKillLineThenYank()
      requires Valid() && Plain() && CanSave()
      modifies line, cursor, selection, buffers, history
      ensures var t := old(line.runes);
        var c := Clamp(old(cursor.pos), |t|);
        (line.runes == t <==> Restores(t[LineBegin(t, c)..c], old(buffers.GetKill())))
    {
      hide LineBegin, LineEndAppend, WordBegin, Killed, AlphaAfter, H.Save, H.Current, Restores, StripNul;
      ghost var t, c, head := line.runes, Clamp(cursor.pos, |line.runes|), buffers.GetKill();
      ghost var b, e := LineBegin(t, c), c;
      LineBeginIsCommandPos(t, c);
      KilledRange(t, b, e, b);
      BackwardKillLine();
      YankBack(t, b, e, head);
    }

    /** That kill and the save after it, then an undo: the text is back exactly when
        something was killed, or nothing else was ever saved for the line. */
    method BackwardKillLineThenUndo()
      requires Valid() && Plain() && Fresh()
      modifies line, cursor, selection, buffers, history
      ensures var t := old(line.runes);
        var c := Clamp(old(cursor.pos), |t|);
        (line.runes == t <==>
          t[LineBegin(t, c)..c] != "" || old(OnlySaved(history.src, history.Now())))
    {
      ghost var t, c, s := line.runes, Clamp(cursor.pos, |line.runes|), history.Now();
      ghost var b, e := LineBegin(t, c), c;
      LineBeginIsCommandPos(t, c);
      KilledRange(t, b, e, b);
      SomethingKilled(t, b, e);
      hide LineBegin, LineEndAppend, WordBegin, Killed, AlphaAfter, RingAfter, OnlySaved, H.Save, H.Undo;
      BackwardKillLine();
      EditUndone(history.src, s, line.runes, cursor.pos, false);
      UndoAfterCommand();
    }

    /** The kill takes the longest end of the text before the cursor that has the shape of
        a word. */
    method KillLastWord() returns (ghost b: int)
      requires Valid() && Plain() && CanSave() && Clamp(cursor.pos, |line.runes|) > 0
      requires T.NarrowAfterFirst(T.Words(u), line.runes)
      modifies line, cursor, selection, buffers, history
      ensures Valid()
      ensures var t := old(line.runes);
        var c := Clamp(old(cursor.pos), |t|);
        && 0 <= b < c && W.IsWord(u, t[b..c]) && (forall a :: 0 <= a < b ==> !W.IsWord(u, t[a..c]))
        && line.runes == t[..b] + t[c..] && cursor.pos == b && buffers.GetKill() == t[b..c]
    {
      hide LineBegin, LineEndAppend, Killed, AlphaAfter, H.Save, H.Current, W.IsWord;
      hide T.BackwardFrom, T.NarrowAfterFirst;
      ghost var t, c := line.runes, Clamp(cursor.pos, |line.runes|);
      b := WordBegin(u, t, c);
      W.BackwardIsLastToken(T.Words(u), t, c);
      assert forall a :: 0 <= a < b ==> W.IsToken(T.Words(u), t[a..c]) == W.IsWord(u, t[a..c]);
      KilledWord(t, b, c);
      BackwardKillWord();
    }

    method BackwardKillWordThenYank()
      requires Valid() && Plain() && CanSave()
      modifies line, cursor, selection, buffers, history
      ensures var t := old(line.runes);
        var c := Clamp(old(cursor.pos), |t|);
        && 0 <= WordBegin(u, t, c) <= c
        && (line.runes == t <==> Restores(t[WordBegin(u, t, c)..c], old(buffers.GetKill())))
    {
      hide LineBegin, LineEndAppend, WordBegin, Killed, AlphaAfter, H.Save, H.Current, Restores, StripNul;
      ghost var t, c, head := line.runes, Clamp(cursor.pos, |line.runes|), buffers.GetKill();
      ghost var b, e := WordBegin(u, t, c), c;
      WordBeginBefore(u, t, c);
      KilledWord(t, b, e);
      BackwardKillWord();
      YankBack(t, b, e, head);
    }

    /** That kill and the save after it, then an undo: the text is back exactly when
        something was killed, or nothing else was ever saved for the line. */
    method BackwardKillWordThenUndo()
      requires Valid() && Plain() && Fresh()
      modifies line, cursor, selection, buffers, history
      ensures var t := old(line.runes);
        var c := Clamp(old(cursor.pos), |t|);
        0 <= WordBegin(u, t, c) <= c && (line.runes == t <==>
          t[WordBegin(u, t, c)..c] != "" || old(OnlySaved(history.src, history.Now())))
    {
      ghost var t, c, s := line.runes, Clamp(cursor.pos, |line.runes|), history.Now();
      ghost var b, e := WordBegin(u, t, c), c;
      WordBeginBefore(u, t, c);
      KilledWord(t, b, e);
      SomethingKilled(t, b, e);
      hide LineBegin, LineEndAppend, WordBegin, Killed, AlphaAfter, RingAfter, OnlySaved, H.Save, H.Undo;
      BackwardKillWord();
      EditUndone(history.src, s, line.runes, cursor.pos, true);
      UndoAfterCommand();
    }

  }

  // Undoing an edit --------------------------------------------------------------------

  /** Every state saved for the line, with the present one, has the present text. */
  predicate OnlySaved(src: H.Source, s: H.State)
    requires H.Current(src, s).pos >= 0
  {
    var items := H.Saved(H.Current(src, s), s.line, s.cursor).items;
    forall i :: 0 <= i < |items| ==> items[i].line == s.line
  }

  lemma {:induction false} UndoCanSave(src: H.Source, s: H.State)
    requires U.Ready(src, s)
    ensures H.Current(src, H.Undo(src, s)).pos >= 0
  {
    assert H.Key(src, H.Undo(src, s)) == H.Key(src, s);
  }

  lemma {:induction false} SomethingKilled(t: string, b: int, e: int)
    requires 0 <= b <= e <= |t|
    ensures t[..b] + t[e..] == t <==> t[b..e] == ""
    ensures t == "" ==> t[..b] + t[e..] == ""
  {
    assert b == e ==> t[..b] + t[e..] == t;
    assert |t[..b] + t[e..]| == |t| - (e - b);
  }

  /** A command that starts with a save and sets the text, the save after it, and an
      undo: the old text is back exactly when the text was changed, or no other text was
      saved. */
  lemma {:induction false} EditUndone(src: H.Source, s: H.State, text: string, cursor: int, skipping: bool)
    requires U.Ready(src, s) && !s.skip && !s.undoing
    ensures var s1 := H.Save(src, s).(line := text, cursor := cursor, skip := skipping);
      && U.Ready(src, s1) && U.Ready(src, H.Save(src, s1))
      && (U.UndoCommand(src, H.Save(src, s1)).line == s.line <==> text != s.line || OnlySaved(src, s))
  {
    hide CommandPos, Clamp;
    U.SaveLeaves(src, s);
    var s1 := H.Save(src, s).(line := text, cursor := cursor, skip := skipping);
    var items := H.Saved(H.Current(src, s), s.line, s.cursor).items;
    assert H.Current(src, s1) == H.LineHistory(0, items) && H.Last(items).line == s.line;
    hide H.Save, H.Undo, H.Saved, H.NextUndo, H.Last;
    U.SaveLeaves(src, s1);
    U.UndoCommandEffect(src, H.Save(src, s1));
    var after := if skipping then items else H.Saved(H.LineHistory(0, items), text, cursor).items;
    SavedAfter(items, text, cursor);
    UndoneText(items, after, text, s.line);
  }

  lemma {:induction false} SavedAfter(items: seq<H.Item>, text: string, cursor: int)
    requires items != []
    ensures var after := H.Saved(H.LineHistory(0, items), text, cursor).items;
      && |items| <= |after| <= |items| + 1
      && (forall i :: 0 <= i < |items| ==> after[i].line == items[i].line)
      && (|after| > |items| <==> text != H.Last(items).line)
      && (|after| > |items| ==> after[|items|].line == text)
  {
  }

  lemma {:induction false} UndoneText(items: seq<H.Item>, after: seq<H.Item>, text: string, line: string)
    requires items != [] && H.Last(items).line == line && after != []
    requires |items| <= |after| <= |items| + 1
    requires forall i :: 0 <= i < |items| ==> after[i].line == items[i].line
    requires |after| > |items| ==> after[|items|].line == text != line
    ensures var q := H.NextUndo(after, 0, text);
      (if q <= |after| then after[|after| - q].line else text) == line
      <==> text != line || forall i :: 0 <= i < |items| ==> items[i].line == line
  {
    var q := H.NextUndo(after, 0, text);
    if text != line {
      H.NextUndoStep(after, 0, text);
      if |after| > |items| { H.NextUndoStep(after, 1, text); }
    }
  }

  /** When yanking after a kill gives the text back: something was killed and does
      not end in NUL, or nothing was killed and there is nothing to yank. */
  predicate Restores(killed: string, head: string) {
    if killed != "" then killed[|killed| - 1] != NUL else StripNul(head) == ""
  }

  /** Killing to the end of the line stops before the next newline, and on a newline
      or at the end of the buffer kills nothing. */
  lemma {:induction false} KillLineStops(t: string, c: int)
    requires 0 <= c <= |t|
    ensures var e := LineEndAppend(t, c);
      && '\n' !in t[c..e] && (e == |t| || t[e] == '\n')
      && (e == c <==> c == |t| || t[c] == '\n')
      && Killed(t, false, false, [], c, e, e) == Removal(t[..c] + t[e..], t[c..e])
  {
    var e := LineEndAppend(t, c);
    KilledRange(t, c, e, e);
    hide Killed;
    assert t == "" ==> t[..c] + t[e..] == "";
    forall i | 0 <= i < |t[c..e]| ensures t[c..e][i] != '\n' { assert t[c..e][i] == t[c + i]; }
  }

  /** Killing back to the start of the line stops after the newline before. */
  lemma {:induction false} BackwardKillStops(t: string, c: int)
    requires 0 <= c <= |t|
    ensures var b := LineBegin(t, c);
      && 0 <= b <= c && '\n' !in t[b..c] && (b == 0 || t[b - 1] == '\n')
      && Killed(t, false, false, [], b, c, b) == Removal(t[..b] + t[c..], t[b..c])
  {
    var b := LineBegin(t, c);
    KilledRange(t, b, c, b);
    hide Killed;
    assert t == "" ==> t[..b] + t[c..] == "";
    forall i | 0 <= i < |t[b..c]| ensures t[b..c][i] != '\n' { assert t[b..c][i] == t[b + i]; }
  }

  /** On a newline the line is left as it is. */
  lemma {:induction false} NewlineNotKilled()
    ensures LineEndAppend("a\nb", 1) == 1 && Killed("a\nb", false, false, [], 1, 1, 1) == Removal("a\nb", "")
  {
    KillLineStops("a\nb", 1);
    assert "a\nb"[..1] + "a\nb"[1..] == "a\nb";
  }

  lemma {:induction false} KilledRange(t: string, b: int, e: int, cursor: int)
    requires 0 <= b <= e <= |t|
    ensures Killed(t, false, false, [], b, e, cursor) ==
      if t == "" then Removal("", "") else Removal(t[..b] + t[e..], t[b..e])
  {
  }

  lemma {:induction false} KilledWord(t: string, b: int, c: int)
    requires 0 <= b <= c <= |t|
    ensures Killed(t, false, false, [], c, -1, b) ==
      if t == "" then Removal("", "") else Removal(t[..b] + t[c..], t[b..c])
  {
  }

  lemma {:induction false} LineBeginIsCommandPos(t: string, c: int)
    requires 0 <= c <= |t|
    ensures 0 <= LineBegin(t, c) <= c
    ensures CommandPos(t, LineBegin(t, c)) == LineBegin(t, c)
  {
  }

  lemma {:induction false} WordBeginBefore(u: Tables, t: string, c: int)
    requires 0 <= c <= |t|
    ensures 0 <= WordBegin(u, t, c) <= c
  {
    hide T.TokensTo, T.ByteLen, T.Begin;
    var tok := T.Tokenize(T.Words(u), t, c);
    T.TokenizeInRange(T.Words(u), t, c);
    if t != "" {
      T.LocateRunes(T.Words(u), t, if c < |t| then c else c - 1);
      assert tok.pos >= 0;
    }
  }

  /** Text cut out of t and yanked at the cut, or a yank of head when nothing was
      cut out. */
  lemma {:induction false} ReinsertedText(t: string, b: int, e: int, head: string, pos: int)
    requires 0 <= b <= e <= |t| && Clamp(pos, |t| - (e - b)) == b
    ensures var left := t[..b] + t[e..];
      YankTimes(left, pos, if b < e then t[b..e] else head, 1) == t <==> Restores(t[b..e], head)
  {
    var left, killed := t[..b] + t[e..], t[b..e];
    var buf := if b < e then killed else head;
    CutParts(t, b, e);
    YankOnce(left, pos, buf);
    hide YankTimes, StripNul, Clamp;
    SameMiddle(t[..b], StripNul(buf), killed, t[e..]);
    if b < e { StripNulShortens(killed); }
  }

  lemma {:induction false} CutParts(t: string, b: int, e: int)
    requires 0 <= b <= e <= |t|
    ensures var left := t[..b] + t[e..];
      |left| == |t| - (e - b) && left[..b] == t[..b] && left[b..] == t[e..]
    ensures t == t[..b] + t[b..e] + t[e..]
  {
  }

  lemma {:induction false} YankOnce(t: string, pos: int, buf: string)
    ensures var p := Clamp(pos, |t|); YankTimes(t, pos, buf, 1) == t[..p] + StripNul(buf) + t[p..]
  {
  }

  /** The text put down again and again. */
  function Repeated(buf: string, n: int): string
    decreases if n > 0 then n else 0
  {
    if n <= 0 then "" else buf + Repeated(buf, n - 1)
  }

  /** Copies of a text put into another, each but the last followed by up to gap characters
      of it. */
  function Spread(copy: string, gap: nat, rest: string, n: nat): string {
    if n == 0 then rest
    else if n == 1 then copy + rest
    else
      var m := Min(gap, |rest|);
      copy + rest[..m] + Spread(copy, gap, rest[m..], n - 1)
  }

  /** Where the last of the copies ends, and gap characters on. */
  function SpreadEnd(copy: string, gap: nat, rest: string, n: nat): nat {
    if n == 0 then 0
    else if n == 1 then |copy| + gap
    else
      var m := Min(gap, |rest|);
      |copy| + m + SpreadEnd(copy, gap, rest[m..], n - 1)
  }

  /** What n yanks do: the copies are put down at the cursor without the NULs at their end,
      but the cursor goes on as if they were there, so that as many characters of the line
      come between the copies. */
  lemma {:induction false} YanksSpread(t: string, pos: int, buf: string, n: nat)
    requires n > 0
    ensures var p, copy := Clamp(pos, |t|), StripNul(buf);
      && YankTimes(t, pos, buf, n) == t[..p] + Spread(copy, |buf| - |copy|, t[p..], n)
      && YankPos(t, pos, buf, n) == p + SpreadEnd(copy, |buf| - |copy|, t[p..], n)
    decreases n
  {
    var p := Clamp(pos, |t|);
    assert t[..p] + t[p..] == t;
    YanksSpreadFrom(t[..p], t[p..], pos, buf, n);
  }

  lemma {:induction false} YanksSpreadFrom(a: string, rest: string, pos: int, buf: string, n: nat)
    requires n > 0 && Clamp(pos, |a| + |rest|) == |a|
    ensures var copy := StripNul(buf);
      && YankTimes(a + rest, pos, buf, n) == a + Spread(copy, |buf| - |copy|, rest, n)
      && YankPos(a + rest, pos, buf, n) == |a| + SpreadEnd(copy, |buf| - |copy|, rest, n)
    decreases n
  {
    hide StripNul, Spread, SpreadEnd, YankTimes, YankPos;
    var copy := StripNul(buf);
    var gap := |buf| - |copy|;
    YankStep(a, rest, pos, buf, n);
    SpreadStep(copy, gap, rest, n);
    if n == 1 {
      Regrouped(a, copy, rest);
    } else {
      var m := Min(gap, |rest|);
      SplitAfter(a, copy, rest, m, Spread(copy, gap, rest[m..], n - 1));
      YanksSpreadFrom(a + copy + rest[..m], rest[m..], |a| + |buf|, buf, n - 1);
    }
  }

  lemma {:induction false} YankStep(a: string, rest: string, pos: int, buf: string, n: nat)
    requires n > 0 && Clamp(pos, |a| + |rest|) == |a|
    ensures var t := a + StripNul(buf) + rest;
      && YankTimes(a + rest, pos, buf, n) == (if n == 1 then t else YankTimes(t, |a| + |buf|, buf, n - 1))
      && YankPos(a + rest, pos, buf, n) == (if n == 1 then |a| + |buf| else YankPos(t, |a| + |buf|, buf, n - 1))
  {
    hide StripNul, Inserted;
    InsertedBetween(a, rest, buf);
  }

  lemma {:induction false} InsertedBetween(a: string, rest: string, buf: string)
    ensures Inserted(a + rest, |a|, buf) == a + StripNul(buf) + rest
  {
    hide StripNul;
    assert (a + rest)[..|a|] == a && (a + rest)[|a|..] == rest;
  }

  lemma {:induction false} SpreadStep(copy: string, gap: nat, rest: string, n: nat)
    requires n > 0
    ensures n == 1 ==> Spread(copy, gap, rest, n) == copy + rest && SpreadEnd(copy, gap, rest, n) == |copy| + gap
    ensures n > 1 ==>
      var m := Min(gap, |rest|);
      && Spread(copy, gap, rest, n) == copy + rest[..m] + Spread(copy, gap, rest[m..], n - 1)
      && SpreadEnd(copy, gap, rest, n) == |copy| + m + SpreadEnd(copy, gap, rest[m..], n - 1)
  {
  }

  lemma {:induction false} SplitAfter(a: string, copy: string, rest: string, m: nat, more: string)
    requires m <= |rest|
    ensures a + copy + rest[..m] + rest[m..] == a + copy + rest
    ensures a + copy + rest[..m] + more == a + (copy + rest[..m] + more)
  {
  }

  /** A text that does not end in NUL is put down n times in a row, and the cursor left
      after the last copy. */
  lemma {:induction false} YanksRepeat(t: string, pos: int, buf: string, n: nat)
    requires n > 0 && (buf == "" || buf[|buf| - 1] != NUL)
    ensures var p := Clamp(pos, |t|);
      && YankTimes(t, pos, buf, n) == t[..p] + Repeated(buf, n) + t[p..]
      && YankPos(t, pos, buf, n) == p + |Repeated(buf, n)|
  {
    hide YankTimes, YankPos, Spread, SpreadEnd, Repeated;
    var p := Clamp(pos, |t|);
    YanksSpread(t, pos, buf, n);
    SpreadInRow(buf, t[p..], n);
    Regrouped(t[..p], Repeated(buf, n), t[p..]);
  }

  lemma {:induction false} Regrouped(a: string, b: string, c: string)
    ensures a + (b + c) == a + b + c
  {
  }

  lemma {:induction false} SpreadInRow(copy: string, rest: string, n: nat)
    requires n > 0
    ensures Spread(copy, 0, rest, n) == Repeated(copy, n) + rest && SpreadEnd(copy, 0, rest, n) == |Repeated(copy, n)|
    decreases n
  {
    if n == 1 {
      assert Repeated(copy, 0) == "" && copy + "" == copy;
    } else {
      assert rest[..0] == "" && rest[0..] == rest;
      SpreadInRow(copy, rest, n - 1);
      assert copy + "" + (Repeated(copy, n - 1) + rest) == copy + Repeated(copy, n - 1) + rest;
    }
  }

  lemma {:induction false} SameMiddle(a: string, x: string, y: string, z: string)
    ensures a + x + z == a + y + z <==> x == y
  {
    if a + x + z == a + y + z {
      assert |x| == |y|;
      assert (a + x + z)[|a|..|a| + |x|] == x;
      assert (a + y + z)[|a|..|a| + |x|] == y;
    }
  }

  lemma {:induction false} StripNulShortens(s: string)
    requires s != ""
    ensures StripNul(s) == s <==> s[|s| - 1] != NUL
  {
  }
}
