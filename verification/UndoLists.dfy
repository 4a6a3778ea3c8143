/** What undo, redo, revert and save promise over runs of commands. Each command
    is followed by a save, as in the main loop of the shell. */
module UndoLists {
  import opened Basics
  import opened Text
  import opened History

  function UndoCommand(src: Source, s: State): State
    requires Current(src, s).pos >= 0
  {
    Save(src, Undo(src, s))
  }

  /** The command bound to redo asks for a positive undo position first. */
  function RedoCommand(src: Source, s: State): State
    requires 0 <= Current(src, s).pos <= |Current(src, s).items|
  {
    Save(src, if Current(src, s).pos > 0 then Redo(src, s) else s)
  }

  function RevertCommand(src: Source, s: State): State
    requires Current(src, s).pos >= 0
  {
    Save(src, Revert(src, s))
  }

  predicate Ready(src: Source, s: State) {
    0 <= Current(src, s).pos <= |Current(src, s).items|
  }

  /** What a save leaves. */
  lemma {:induction false} SaveLeaves(src: Source, s: State)
    requires Ready(src, s) && !s.undoing
    ensures var k, lh, r := Key(src, s), Current(src, s), Save(src, s);
      && Key(src, r) == k && !r.skip && !r.undoing && r.line == s.line
      && Current(src, r) == LineHistory(0, if s.skip then lh.items else Saved(lh, s.line, s.cursor).items)
  {
  }

  /** The undo position after an undo. */
  function UndoPos(items: seq<Item>, pos: int, line: string): int
    requires pos >= 0
  {
    Min(NextUndo(items, pos, line), |items|)
  }

  /** An undo command moves the position and shows the state found, if any. The
      saved states and every other line are left alone. */
  lemma {:induction false} UndoCommandEffect(src: Source, s: State)
    requires Ready(src, s)
    ensures var lh, u := Current(src, s), UndoCommand(src, s);
      var found := lh.items != [] && NextUndo(lh.items, lh.pos, s.line) <= |lh.items|;
      && !u.skip && !u.undoing && u.hpos == s.hpos && u.cpos == s.cpos
      && Current(src, u) == (if lh.items == [] then lh else lh.(pos := UndoPos(lh.items, lh.pos, s.line)))
      && u.lines == s.lines[Key(src, s) := Current(src, u)]
      && u.line == (if found then lh.items[|lh.items| - Current(src, u).pos].line else s.line)
      && (!found ==> u.cursor == s.cursor)
      && (found ==> u.cursor == Clamp(lh.items[|lh.items| - Current(src, u).pos].pos, |u.line|))
  {
    var lh, k, v := Current(src, s), Key(src, s), Undo(src, s);
    hide NextUndo;
    assert v.skip && v.undoing && Key(src, v) == k;
    var u := UndoCommand(src, s);
    assert u.lines == s.lines[k := Current(src, u)];
  }

  function UndoTimes(src: Source, s: State, n: nat): (r: State)
    requires Ready(src, s)
    ensures Ready(src, r)
    decreases n
  {
    if n == 0 then s
    else
      UndoCommandEffect(src, s);
      UndoTimes(src, UndoCommand(src, s), n - 1)
  }

  function RedoTimes(src: Source, s: State, n: nat): State
    requires Ready(src, s)
    decreases n
  {
    if n == 0 then s
    else
      RedoCommandReady(src, s);
      RedoTimes(src, RedoCommand(src, s), n - 1)
  }

  // Undo converges to revert ------------------------------------------------------

  /** As far back as undo goes: an undo now changes nothing at all, and the text is
      the one revert gives. */
  predicate AtOldest(src: Source, s: State)
    requires Ready(src, s)
  {
    && Current(src, s).items != []
    && s.line == Current(src, s).items[0].line
    && s.line == Revert(src, s).line
    && Current(src, s).pos == |Current(src, s).items|
    && UndoCommand(src, s) == s
  }

  lemma {:induction false} UndoPastOldest(src: Source, s: State)
    requires Ready(src, s) && Current(src, s).items != []
    requires Current(src, s).pos == |Current(src, s).items|
    ensures UndoCommand(src, s).line == s.line
    ensures Current(src, UndoCommand(src, s)) == Current(src, s)
    ensures !s.skip && !s.undoing && Key(src, s) in s.lines ==> UndoCommand(src, s) == s
  {
    UndoCommandEffect(src, s);
    assert Key(src, s) in s.lines ==> s.lines[Key(src, s) := Current(src, s)] == s.lines;
  }

  /** From a position not yet at the oldest state, as many undos as there are
      states left reach the text that revert gives, and there they stay. */
  lemma {:induction false} UndoConverges(src: Source, s: State, n: nat)
    requires 0 <= Current(src, s).pos < |Current(src, s).items|
    requires n >= |Current(src, s).items| - Current(src, s).pos
    ensures AtOldest(src, UndoTimes(src, s, n))
    ensures UndoTimes(src, s, n).line == Revert(src, s).line
    decreases n
  {
    hide Undo, Save, NextUndo;
    UndoCommandEffect(src, s);
    var lh, u := Current(src, s), UndoCommand(src, s);
    assert Revert(src, s).line == lh.items[0].line == Revert(src, u).line;
    if Current(src, u).pos < |lh.items| {
      UndoConverges(src, u, n - 1);
    } else {
      FirstAtOldest(src, s);
      UndoStays(src, u, n - 1);
    }
  }

  lemma {:induction false} FirstAtOldest(src: Source, s: State)
    requires 0 <= Current(src, s).pos < |Current(src, s).items|
    requires Current(src, UndoCommand(src, s)).pos == |Current(src, s).items|
    ensures Ready(src, UndoCommand(src, s)) && AtOldest(src, UndoCommand(src, s))
  {
    hide Undo, Save, NextUndo;
    UndoCommandEffect(src, s);
    var u := UndoCommand(src, s);
    UndoPastOldest(src, u);
  }

  lemma {:induction false} UndoStays(src: Source, s: State, n: nat)
    requires Ready(src, s) && AtOldest(src, s)
    ensures UndoTimes(src, s, n) == s
    decreases n
  {
    hide UndoCommand, Revert;
    if n > 0 { UndoStays(src, s, n - 1); }
  }

  /** Exactly when n undos, as many as there are states, reach revert's text. */
  lemma {:induction false} UndoReachesRevert(src: Source, s: State, n: nat)
    requires Ready(src, s) && Current(src, s).items != [] && n >= |Current(src, s).items|
    ensures UndoTimes(src, s, n).line == Revert(src, s).line
      <==> Current(src, s).pos < |Current(src, s).items| || s.line == Current(src, s).items[0].line
  {
    if Current(src, s).pos < |Current(src, s).items| {
      UndoConverges(src, s, n);
    } else {
      UndoKeepsText(src, s, n);
    }
  }

  lemma {:induction false} UndoKeepsText(src: Source, s: State, n: nat)
    requires Ready(src, s) && Current(src, s).items != []
    requires Current(src, s).pos == |Current(src, s).items|
    ensures UndoTimes(src, s, n).line == s.line
    decreases n
  {
    hide UndoCommand;
    if n > 0 {
      UndoPastOldest(src, s);
      UndoKeepsText(src, UndoCommand(src, s), n - 1);
    }
  }

  // Redo inverts undo --------------------------------------------------------------

  lemma {:induction false} RedoCommandEffect(src: Source, s: State)
    requires Ready(src, s) && Current(src, s).pos > 0
    ensures var lh, r := Current(src, s), RedoCommand(src, s);
      && !r.skip && !r.undoing
      && Current(src, r) == lh.(pos := lh.pos - 1)
      && (lh.pos > 1 ==> r.line == lh.items[|lh.items| - (lh.pos - 1)].line)
      && (lh.pos > 1 ==> r.cursor == Clamp(lh.items[|lh.items| - (lh.pos - 1)].pos, |r.line|))
      && (lh.pos == 1 ==> r.line == s.line)
  {
    var k, v := Key(src, s), Redo(src, s);
    assert v.skip && v.undoing && Key(src, v) == k;
  }

  lemma {:induction false} RedoCommandReady(src: Source, s: State)
    requires Ready(src, s)
    ensures Ready(src, RedoCommand(src, s))
  {
    if Current(src, s).pos > 0 { RedoCommandEffect(src, s); }
  }

  /** Unguarded, redo leaves the undo position in range exactly when there is something
      to redo, or nothing at all was saved. */
  lemma {:induction false} RedoStaysInRange(src: Source, s: State)
    requires Ready(src, s)
    ensures Current(src, Redo(src, s)).pos >= 0 <==> Current(src, s).pos >= 1 || Current(src, s).items == []
    ensures Current(src, s).pos >= 1 ==> Ready(src, Redo(src, s))
  {
    assert Key(src, Redo(src, s)) == Key(src, s);
  }

  /** One saved state and no undo: redo makes the position -1. */
  lemma {:induction false} RedoGoesNegative(src: Source, item: Item)
    ensures var s := State(item.line, 0, false, false, -1, -1, map[-1 := LineHistory(0, [item])]);
      Ready(src, s) && Current(src, Redo(src, s)).pos == -1
  {
  }

  predicate AdjacentDistinct(items: seq<Item>) {
    forall i :: 0 < i < |items| ==> items[i - 1].line != items[i].line
  }

  /** k undos from the last saved state. */
  lemma {:induction false} UndosReach(src: Source, s: State, k: nat)
    requires Ready(src, s) && Current(src, s).pos == 0
    requires var items := Current(src, s).items;
      k < |items| && AdjacentDistinct(items) && s.line == Last(items).line
    ensures var items, u := Current(src, s).items, UndoTimes(src, s, k);
      && u.line == items[|items| - 1 - k].line
      && Current(src, u) == LineHistory(if k == 0 then 0 else k + 1, items)
      && (k > 0 ==> !u.skip && !u.undoing)
    decreases k
  {
    hide Undo, Save;
    if k > 0 {
      UndoTimesLast(src, s, k);
      UndosReach(src, s, k - 1);
      var items, u := Current(src, s).items, UndoTimes(src, s, k - 1);
      UndoCommandEffect(src, u);
      assert items[|items| - 1 - (k - 1)].line != items[|items| - 1 - k].line;
      assert NextUndo(items, k, u.line) == k + 1;
      if k == 1 {
        assert NextUndo(items, 0, u.line) == NextUndo(items, 1, u.line);
      }
    }
  }

  lemma {:induction false} UndoTimesLast(src: Source, s: State, k: nat)
    requires Ready(src, s) && k > 0
    ensures UndoTimes(src, s, k) == UndoCommand(src, UndoTimes(src, s, k - 1))
    decreases k
  {
    hide Undo, Save;
    if k > 1 {
      UndoCommandEffect(src, s);
      UndoTimesLast(src, UndoCommand(src, s), k - 1);
    }
  }

  /** Where k undos stop, by the saved states alone: each goes back to the next text
      that differs, or to the oldest state. */
  function UndoneTo(items: seq<Item>, pos: int, line: string, k: nat): (p: int)
    requires 0 <= pos <= |items|
    ensures pos <= p <= |items|
    decreases k
  {
    if k == 0 || items == [] then pos
    else
      var q := NextUndo(items, pos, line);
      if q > |items| then |items| else UndoneTo(items, q, items[|items| - q].line, k - 1)
  }

  /** k undos show the state that UndoneTo says, whatever was saved. */
  lemma {:induction false} UndosStop(src: Source, s: State, k: nat)
    requires 0 <= Current(src, s).pos < |Current(src, s).items|
    ensures var lh, u := Current(src, s), UndoTimes(src, s, k);
      var p := UndoneTo(lh.items, lh.pos, s.line, k);
      && Current(src, u) == lh.(pos := p)
      && (k > 0 ==> p >= 1 && u.line == lh.items[|lh.items| - p].line && !u.skip && !u.undoing)
    decreases k
  {
    hide Undo, Save, NextUndo;
    if k > 0 {
      UndoCommandEffect(src, s);
      var lh, u := Current(src, s), UndoCommand(src, s);
      var q := NextUndo(lh.items, lh.pos, s.line);
      if q >= |lh.items| {
        FirstAtOldest(src, s);
        UndoStays(src, u, k - 1);
      } else {
        UndosStop(src, u, k - 1);
      }
    }
  }

  /** j redos from undo position p show the state p - j steps back, or the last one. */
  lemma {:induction false} RedosShow(src: Source, u: State, j: nat)
    requires Ready(src, u)
    requires var lh := Current(src, u); lh.pos >= 1 && u.line == lh.items[|lh.items| - lh.pos].line
    ensures var lh := Current(src, u);
      RedoTimes(src, u, j).line == lh.items[|lh.items| - Max(1, lh.pos - j)].line
    decreases j
  {
    hide Redo, Save;
    if j > 0 {
      RedoCommandEffect(src, u);
      var r := RedoCommand(src, u);
      if Current(src, r).pos >= 1 {
        RedosShow(src, r, j - 1);
      } else {
        RedosIdle(src, r, j - 1);
      }
    }
  }

  lemma {:induction false} RedosIdle(src: Source, s: State, j: nat)
    requires Ready(src, s) && Current(src, s).pos == 0 && !s.skip && !s.undoing
    ensures RedoTimes(src, s, j).line == s.line
    decreases j
  {
    if j > 0 {
      var r := RedoCommand(src, s);
      IdleRedo(src, s);
      hide RedoCommand;
      RedosIdle(src, r, j - 1);
    }
  }

  lemma {:induction false} IdleRedo(src: Source, s: State)
    requires Ready(src, s) && Current(src, s).pos == 0 && !s.skip && !s.undoing
    ensures var r := RedoCommand(src, s);
      Ready(src, r) && Current(src, r).pos == 0 && !r.skip && !r.undoing && r.line == s.line
  {
  }

  /** Over any saved states and from any text, what k undos followed by k redos show. */
  lemma {:induction false} RedoAfterUndo(src: Source, s: State, k: nat)
    requires 0 <= Current(src, s).pos < |Current(src, s).items| && k > 0
    ensures var lh := Current(src, s);
      RedoTimes(src, UndoTimes(src, s, k), k).line
        == lh.items[|lh.items| - Max(1, UndoneTo(lh.items, lh.pos, s.line, k) - k)].line
  {
    hide Undo, Save, Redo, UndoTimes, RedoTimes, UndoneTo, NextUndo;
    UndosStop(src, s, k);
    RedosShow(src, UndoTimes(src, s, k), k);
  }

  /** How often the text changes among the newest p saved states. */
  function Changes(items: seq<Item>, p: nat): nat
    requires p <= |items|
  {
    if p <= 1 then 0
    else Changes(items, p - 1) + (if items[|items| - p].line != items[|items| - p + 1].line then 1 else 0)
  }

  /** The newest state from p on, counted back, with k changes after it; the oldest
      state if there are not that many. */
  function StateAfter(items: seq<Item>, k: nat, p: nat): (q: nat)
    requires 1 <= p <= |items|
    ensures p <= q <= |items|
    ensures q == |items| || Changes(items, q) >= k
    ensures forall r :: p <= r < q ==> Changes(items, r) < k
    decreases |items| - p
  {
    if p == |items| || Changes(items, p) >= k then p else StateAfter(items, k, p + 1)
  }

  /** An undo from state p, q steps tried, goes back just over the next change. */
  lemma {:induction false} NextUndoChanges(items: seq<Item>, p: nat, q: nat)
    requires 1 <= p <= q <= |items| && items[|items| - q].line == items[|items| - p].line
    requires Changes(items, q) == Changes(items, p)
    ensures var r, change := NextUndo(items, q, items[|items| - p].line), StateAfter(items, Changes(items, p) + 1, q);
      if r <= |items| then r == change && Changes(items, r) == Changes(items, p) + 1
      else change == |items| && Changes(items, |items|) == Changes(items, p)
    decreases |items| - q
  {
    if q < |items| && items[|items| - q - 1].line == items[|items| - p].line {
      NextUndoChanges(items, p, q + 1);
    }
  }

  lemma {:induction false} StateAfterFrom(items: seq<Item>, k: nat, p: nat, q: nat)
    requires 1 <= p <= q <= |items| && forall r :: p <= r < q ==> Changes(items, r) < k
    ensures StateAfter(items, k, p) == StateAfter(items, k, q)
    decreases q - p
  {
    if p < q { StateAfterFrom(items, k, p + 1, q); }
  }

  lemma {:induction false} UndoneToStep(items: seq<Item>, pos: int, line: string, k: nat)
    requires 0 <= pos <= |items| && k > 0 && items != []
    ensures var q := NextUndo(items, pos, line);
      UndoneTo(items, pos, line, k) ==
        if q > |items| then |items| else UndoneTo(items, q, items[|items| - q].line, k - 1)
  {
  }

  lemma {:induction false} UndoneToChanges(items: seq<Item>, p: nat, k: nat)
    requires 1 <= p <= |items|
    ensures UndoneTo(items, p, items[|items| - p].line, k)
      == (if k == 0 then p else StateAfter(items, Changes(items, p) + k, p))
    decreases k
  {
    hide NextUndo, UndoneTo, Changes, StateAfter;
    var line := items[|items| - p].line;
    if k == 0 {
      NoneUndone(items, p, line);
    } else {
      NextUndoChanges(items, p, p);
      UndoneToStep(items, p, line, k);
      var q := NextUndo(items, p, line);
      if q > |items| {
        NoSuchState(items, Changes(items, p) + k, p);
      } else if k == 1 {
        NoneUndone(items, q, items[|items| - q].line);
      } else {
        UndoneToChanges(items, q, k - 1);
        StateAfterFrom(items, Changes(items, p) + k, p, q);
      }
    }
  }

  lemma {:induction false} NoneUndone(items: seq<Item>, pos: int, line: string)
    requires 0 <= pos <= |items|
    ensures UndoneTo(items, pos, line, 0) == pos
  {
  }

  lemma {:induction false} ChangesMonotone(items: seq<Item>, p: nat, q: nat)
    requires p <= q <= |items|
    ensures Changes(items, p) <= Changes(items, q)
    decreases q
  {
    if p < q { ChangesMonotone(items, p, q - 1); }
  }

  lemma {:induction false} NoSuchState(items: seq<Item>, k: nat, p: nat)
    requires 1 <= p <= |items| && Changes(items, |items|) < k
    ensures StateAfter(items, k, p) == |items|
  {
    ChangesMonotone(items, StateAfter(items, k, p), |items|);
  }

  lemma {:induction false} UndoneFromLast(items: seq<Item>, k: nat)
    requires items != [] && k > 0
    ensures UndoneTo(items, 0, Last(items).line, k) == StateAfter(items, k, 1)
  {
    hide NextUndo, UndoneTo, StateAfter;
    var line := Last(items).line;
    NextUndoStep(items, 0, line);
    UndoneToStep(items, 0, line, k);
    UndoneToStep(items, 1, line, k);
    UndoneToChanges(items, 1, k);
  }

  /** From the last saved text, k undos go back over k changes of text, and k redos come
      on by k states: what they show is the state as many steps before the last as there
      are equal neighbours among those passed. */
  lemma {:induction false} RedoInvertsUndo(src: Source, s: State, k: nat)
    requires Current(src, s).pos == 0 && Current(src, s).items != [] && k > 0
    requires s.line == Last(Current(src, s).items).line
    ensures var items := Current(src, s).items;
      var p := StateAfter(items, k, 1);
      && UndoTimes(src, s, k).line == items[|items| - p].line
      && RedoTimes(src, UndoTimes(src, s, k), k).line == items[|items| - Max(1, p - k)].line
  {
    hide Undo, Save, Redo, UndoTimes, RedoTimes, UndoneTo, StateAfter, NextUndo;
    var items := Current(src, s).items;
    UndoneFromLast(items, k);
    UndosStop(src, s, k);
    RedoAfterUndo(src, s, k);
  }

  lemma {:induction false} NoTimes(src: Source, s: State)
    requires Ready(src, s)
    ensures UndoTimes(src, s, 0) == RedoTimes(src, s, 0) == s
  {
  }

  /** With all neighbours distinct it always does, as long as there is a state for
      every undo. */
  lemma {:induction false} RedoInvertsDistinct(src: Source, s: State, k: nat)
    requires Ready(src, s) && Current(src, s).pos == 0
    requires var items := Current(src, s).items;
      k < |items| && AdjacentDistinct(items) && s.line == Last(items).line
    ensures RedoTimes(src, UndoTimes(src, s, k), k).line == s.line
  {
    hide UndoTimes, RedoTimes, UndoneTo, AdjacentDistinct;
    if k > 0 {
      RedoAfterUndo(src, s, k);
      UndosStop(src, s, k);
      UndosReach(src, s, k);
    } else {
      NoTimes(src, s);
    }
  }

  /** Saving can make two neighbours alike: undo, type the text of the state before,
      save. */
  lemma {:induction false} SaveMakesNeighboursAlike()
    ensures var lh := LineHistory(2, [Item("a", 0), Item("b", 0), Item("c", 0)]);
      AdjacentDistinct(lh.items) && !AdjacentDistinct(Saved(lh, "a", 0).items)
  {
    var lh := LineHistory(2, [Item("a", 0), Item("b", 0), Item("c", 0)]);
    var items := Saved(lh, "a", 0).items;
    assert |items| == 2 && items[0].line == items[1].line;
  }

  function Lines(items: seq<Item>): seq<string> {
    seq(|items|, i requires 0 <= i < |items| => items[i].line)
  }

  // The cursor ------------------------------------------------------------------------

  /** Where the cursor is when a state saved comes back: where it was, if the save only
      refreshed the state, else on a character. */
  function KeptCursor(items: seq<Item>, line: string, cursor: int): int {
    if items != [] && Last(items).line == line then Clamp(cursor, |line|) else CommandPos(line, Clamp(cursor, |line|))
  }

  /** A command that changes the text, an undo and a redo: the cursor comes back with
      each text. */
  lemma {:induction false} CursorComesBack(src: Source, s: State, text: string, cursor: int)
    requires Ready(src, s) && !s.skip && !s.undoing && text != s.line
    ensures var s1 := Save(src, s).(line := text, cursor := cursor);
      Ready(src, s1) && Ready(src, Save(src, s1)) && Ready(src, UndoCommand(src, Save(src, s1)))
    ensures var u := UndoCommand(src, Save(src, Save(src, s).(line := text, cursor := cursor)));
      var r := RedoCommand(src, u);
      && u.line == s.line && u.cursor == KeptCursor(Current(src, s).items, s.line, s.cursor)
      && r.line == text && r.cursor == CommandPos(text, Clamp(cursor, |text|))
  {
    hide CommandPos, Save, Undo, Redo, NextUndo, Current, UndoCommand, RedoCommand;
    SaveLeaves(src, s);
    var s1 := Save(src, s).(line := text, cursor := cursor);
    var items := Saved(Current(src, s), s.line, s.cursor).items;
    SameHistory(src, Save(src, s), text, cursor);
    assert Current(src, s1) == LineHistory(0, items);
    assert Last(items) == Item(s.line, KeptCursor(Current(src, s).items, s.line, s.cursor));
    SaveLeaves(src, s1);
    var s2 := Save(src, s1);
    var all := items + [Item(text, CommandPos(text, Clamp(cursor, |text|)))];
    assert Current(src, s2) == LineHistory(0, all);
    NextUndoStep(all, 0, text);
    NextUndoStep(all, 1, text);
    assert all[|all| - 2] == Last(items);
    UndoCommandEffect(src, s2);
    RedoCommandEffect(src, UndoCommand(src, s2));
  }

  lemma {:induction false} SameHistory(src: Source, s: State, text: string, cursor: int)
    ensures Current(src, s.(line := text, cursor := cursor)) == Current(src, s)
  {
  }

  /** Showing history lines one after another. */
  function ShowAll(src: Source, s: State, shown: seq<string>): State
    decreases |shown|
  {
    if shown == [] then s else ShowAll(src, ShowLine(src, s, shown[0]), shown[1..])
  }

  /** The cursor kept while lines are shown: the one of the line that was there first. */
  function KeptPoint(s: State): int {
    if s.cpos == -1 then Clamp(s.cursor, |s.line|) else s.cpos
  }

  /** With history-preserve-point each line is shown with the cursor at the point kept, if
      the line goes that far, however short the lines before it; without, at its end. */
  lemma {:induction false} PointPreserved(src: Source, s: State, shown: seq<string>)
    requires shown != [] && s.cpos >= -1 && (s.cpos == -1 ==> s.line != "")
    ensures var r, last := ShowAll(src, s, shown), shown[|shown| - 1];
      && r.line == last && r.cpos == KeptPoint(s)
      && r.cursor == (if src.preservePoint && |last| > KeptPoint(s) then KeptPoint(s) else |last|)
    decreases |shown|
  {
    var v := ShowLine(src, s, shown[0]);
    if |shown| > 1 { PointPreserved(src, v, shown[1..]); } else { assert ShowAll(src, v, shown[1..]) == v; }
  }

  // Reverting -------------------------------------------------------------------------

  /** The text that revert goes back to. */
  function OldestText(src: Source, s: State): string {
    var items := Current(src, s).items;
    if items == [] then s.line else items[0].line
  }

  /** A revert forgets what was saved: with the save after it, the text gone back to is
      the only saved state. */
  lemma {:induction false} RevertLeavesOne(src: Source, s: State)
    requires Ready(src, s) && !s.skip && !s.undoing
    ensures var r := RevertCommand(src, s);
      && r.line == OldestText(src, s) && !r.skip && !r.undoing
      && Current(src, r).pos == 0 && Lines(Current(src, r).items) == [r.line]
  {
    var v := Revert(src, s);
    assert Key(src, v) == Key(src, s) && Current(src, v).items == [] && !v.skip && !v.undoing && Ready(src, v);
    hide Save, Revert;
    SaveLeaves(src, v);
  }

  /** So undoing after a revert changes nothing, however often. */
  lemma {:induction false} UndosAfterRevert(src: Source, s: State, n: nat)
    requires Ready(src, s) && !s.skip && !s.undoing
    ensures var r := RevertCommand(src, s);
      Ready(src, r) && UndoTimes(src, r, n).line == OldestText(src, s)
  {
    hide Save, Revert, Undo, UndoTimes, UndoneTo;
    RevertLeavesOne(src, s);
    var r := RevertCommand(src, s);
    assert |Current(src, r).items| == |Lines(Current(src, r).items)| == 1;
    assert Current(src, r).items[0].line == Lines(Current(src, r).items)[0];
    if n > 0 { UndosStop(src, r, n); } else { NoTimes(src, r); }
  }

  // Saving after undos ----------------------------------------------------------------

  /** Saving the text shown after k undos drops exactly the states undone, unless that
      text is also the last one saved: then nothing is dropped. */
  lemma {:induction false} SaveDropsUndone(src: Source, s: State, k: nat)
    requires 0 <= Current(src, s).pos < |Current(src, s).items| && k > 0
    ensures var lh, u := Current(src, s), UndoTimes(src, s, k);
      var p := UndoneTo(lh.items, lh.pos, s.line, k);
      && Ready(src, u) && 1 <= p <= |lh.items|
      && (Lines(Current(src, Save(src, u)).items) == Lines(lh.items)[..|lh.items| - (p - 1)]
          <==> p == 1 || u.line != Last(lh.items).line)
      && (u.line == Last(lh.items).line ==> Lines(Current(src, Save(src, u)).items) == Lines(lh.items))
  {
    hide UndoTimes, UndoneTo, Saved;
    UndosStop(src, s, k);
    var lh, u := Current(src, s), UndoTimes(src, s, k);
    CurrentAfterSave(src, u);
    hide Save;
    SavedLines(Current(src, u), u.line, u.cursor);
    var p := Current(src, u).pos;
    if u.line != Last(lh.items).line {
      assert Lines(lh.items)[..|lh.items| - p] + [u.line] == Lines(lh.items)[..|lh.items| - (p - 1)];
    } else {
      assert |Lines(lh.items)[..|lh.items| - (p - 1)]| == |lh.items| - (p - 1);
    }
  }

  lemma {:induction false} CurrentAfterSave(src: Source, s: State)
    requires Ready(src, s) && !s.skip
    ensures Current(src, Save(src, s)).items == Saved(Current(src, s), s.line, s.cursor).items
  {
  }

  lemma {:induction false} SavedLines(lh: LineHistory, line: string, cursor: int)
    requires 0 <= lh.pos <= |lh.items| && lh.items != []
    ensures Lines(Saved(lh, line, cursor).items) ==
      if line == Last(lh.items).line then Lines(lh.items) else Lines(lh.items)[..|lh.items| - lh.pos] + [line]
  {
  }

  /** Saving another text instead drops one state more, the one that was shown. */
  lemma {:induction false} SaveOfNewText(src: Source, s: State, k: nat, text: string, cursor: int)
    requires 0 <= Current(src, s).pos < |Current(src, s).items| && k > 0
    ensures var lh, u := Current(src, s), UndoTimes(src, s, k).(line := text, cursor := cursor);
      var p := UndoneTo(lh.items, lh.pos, s.line, k);
      && Ready(src, u)
      && Lines(Current(src, Save(src, u)).items) ==
           if text == Last(lh.items).line then Lines(lh.items) else Lines(lh.items)[..|lh.items| - p] + [text]
  {
    UndosStop(src, s, k);
    var lh, u := Current(src, s), UndoTimes(src, s, k).(line := text, cursor := cursor);
    assert Current(src, u) == Current(src, UndoTimes(src, s, k));
    hide UndoTimes, UndoneTo;
    CurrentAfterSave(src, u);
    hide Save;
    SavedLines(Current(src, u), u.line, u.cursor);
  }
}
