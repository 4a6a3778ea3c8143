/** Walking up and down the history while editing, against the simplest thing it
    could mean: one independent text per history line, and one for the input. */
module Navigation {
  import opened Basics
  import opened Text
  import opened History
  import opened UndoLists

  // The reference: an array of texts -------------------------------------------

  /** texts[0] is the input buffer, texts[i] the i-th latest history line. */
  datatype Texts = Texts(texts: seq<string>, cur: nat)

  datatype Event =
    | Edit(text: string, cursor: int, skip: bool)  // any command that sets the text
    | Up
    | Down
    | UndoEvent
    | RedoEvent
    | RevertEvent

  predicate IsMove(e: Event) { e.Up? || e.Down? }

  /** A move changes the line shown; any other command changes its text. */
  function Next(m: Texts, e: Event, shown: string): (r: Texts)
    requires m.cur < |m.texts|
    ensures r.cur < |r.texts| == |m.texts|
  {
    match e
    case Up => m.(cur := Min(m.cur + 1, |m.texts| - 1))
    case Down => m.(cur := Max(m.cur - 1, 0))
    case _ => m.(texts := m.texts[m.cur := shown])
  }

  // The commands -----------------------------------------------------------------

  predicate AllReady(s: State) {
    forall k :: k in s.lines ==> 0 <= s.lines[k].pos <= |s.lines[k].items|
  }

  /** Between commands: nothing pending, a position in the history or in the input
      buffer, and the input buffer saved before it was left. */
  predicate Inv(src: Source, s: State) {
    && !s.skip && !s.undoing && AllReady(s)
    && (s.hpos == -1 || 1 <= s.hpos <= |src.entries|)
    && (s.hpos != -1 ==> HistoryAt(s.lines, -1).items != [])
  }

  function MoveCommand(src: Source, s: State, n: int): State
    requires Inv(src, s) && (n == 1 || n == -1)
  {
    SaveKeeps(src, s);
    WalkKeeps(src, Save(src, s), n);
    Save(src, Walk(src, Save(src, s), n))
  }

  function Exec(src: Source, s: State, e: Event): State
    requires Inv(src, s)
  {
    match e
    case Edit(text, cursor, skip) => Save(src, s.(line := text, cursor := cursor, skip := skip))
    case Up => MoveCommand(src, s, 1)
    case Down => MoveCommand(src, s, -1)
    case UndoEvent => UndoCommand(src, s)
    case RedoEvent => RedoCommand(src, s)
    case RevertEvent => RevertCommand(src, s)
  }

  /** The text line i would show: the current one as it is, another as last saved,
      or as the source has it. */
  function TextOf(src: Source, s: State, i: nat): string
    requires i <= |src.entries|
  {
    var items := HistoryAt(s.lines, if i == 0 then -1 else |src.entries| - i).items;
    if i == CurrentIndex(s) then s.line
    else if items != [] then Last(items).line
    else if i > 0 then src.entries[|src.entries| - i]
    else ""
  }

  function CurrentIndex(s: State): nat { if s.hpos > 0 then s.hpos else 0 }

  function Abstract(src: Source, s: State): Texts {
    Texts(seq(|src.entries| + 1, i requires 0 <= i <= |src.entries| => TextOf(src, s, i)), CurrentIndex(s))
  }

  /** The state the program starts from: the input buffer, then the source's lines, the
      latest first. */
  lemma {:induction false} StartsAbstract(src: Source, line: string, cursor: int)
    ensures var s, m := State(line, cursor, false, false, -1, -1, map[]), Texts([line] + Latest(src.entries), 0);
      Inv(src, s) && Abstract(src, s) == m
  {
    var s := State(line, cursor, false, false, -1, -1, map[]);
    assert forall k :: HistoryAt(s.lines, k) == EMPTY;
    LatestAt(src.entries);
    assert Abstract(src, s).texts == [line] + Latest(src.entries);
  }

  function Latest(entries: seq<string>): seq<string> {
    if entries == [] then [] else [entries[|entries| - 1]] + Latest(entries[..|entries| - 1])
  }

  lemma {:induction false} LatestAt(entries: seq<string>)
    ensures |Latest(entries)| == |entries|
    ensures forall i :: 0 <= i < |entries| ==> Latest(entries)[i] == entries[|entries| - 1 - i]
    decreases |entries|
  {
    if entries != [] { LatestAt(entries[..|entries| - 1]); }
  }

  // One command ---------------------------------------------------------------------

  /** After a save the current text is the last one saved, unless saving is off;
      every other line is left alone. */
  lemma {:induction false} SaveKeeps(src: Source, s: State)
    requires AllReady(s) && (s.skip || !s.undoing)
    ensures var r := Save(src, s);
      && AllReady(r) && !r.skip && !r.undoing && r.line == s.line && r.hpos == s.hpos && r.cpos == s.cpos
      && r.lines == s.lines[Key(src, s) := Current(src, r)]
      && (!s.skip ==> Current(src, r).items != [] && Last(Current(src, r).items).line == s.line)
      && (s.skip ==> Current(src, r).items == Current(src, s).items)
  {
    var r, k := Save(src, s), Key(src, s);
    assert r.lines == s.lines[k := Current(src, r)];
  }

  lemma {:induction false} TextsAfterSave(src: Source, s: State)
    requires AllReady(s) && (s.skip || !s.undoing) && -1 <= s.hpos <= |src.entries| && s.hpos != 0
    ensures Abstract(src, Save(src, s)) == Abstract(src, s)
  {
    SaveKeeps(src, s);
    var r := Save(src, s);
    hide Save;
    forall i | 0 <= i <= |src.entries| ensures TextOf(src, r, i) == TextOf(src, s, i) {}
  }

  /** What a step of the walk from s to w keeps. */
  ghost predicate Walked(src: Source, s: State, w: State, n: int) {
    && AllReady(w) && !w.skip && !w.undoing
    && (w.hpos == -1 || 1 <= w.hpos <= |src.entries|)
    && CurrentIndex(w) == (if n == 1 then Min(CurrentIndex(s) + 1, |src.entries|) else Max(CurrentIndex(s) - 1, 0))
    && (w.hpos != -1 ==> HistoryAt(w.lines, -1).items != [])
    && w.line == TextOf(src, s, CurrentIndex(w))
    && (forall k :: k != -1 ==> HistoryAt(w.lines, k).items == HistoryAt(s.lines, k).items)
    && (HistoryAt(w.lines, -1).items == HistoryAt(s.lines, -1).items ||
        (s.hpos == -1 && HistoryAt(w.lines, -1).items != [] && Last(HistoryAt(w.lines, -1).items).line == s.line))
  }

  /** A step of the walk from a saved line. */
  lemma {:induction false} WalkKeeps(src: Source, s: State, n: int)
    requires Inv(src, s) && (n == 1 || n == -1)
    requires Current(src, s).items != [] && Last(Current(src, s).items).line == s.line
    ensures Walked(src, s, Walk(src, s, n), n)
  {
    if s.hpos == -1 && n == 1 {
      WalkOffInput(src, s);
    } else if s.hpos == -1 || (s.hpos == |src.entries| && n == 1) {
      assert Walk(src, s, n) == s;
    } else if s.hpos + n == 0 {
      assert Walk(src, s, n) == Restore(s.(hpos := 0));
    } else {
      assert Walk(src, s, n) == ShowCurrent(src, s.(hpos := s.hpos + n));
      hide Walk, ShowLine;
      ShownLine(src, s.(hpos := s.hpos + n));
    }
  }

  lemma {:induction false} ShownLine(src: Source, s: State)
    requires 1 <= s.hpos <= |src.entries|
    ensures var w, lh := ShowCurrent(src, s), Current(src, s);
      w == s.(line := if lh.items != [] then Last(lh.items).line else src.entries[|src.entries| - s.hpos],
              cursor := w.cursor, cpos := w.cpos, lines := s.lines[Key(src, s) := lh])
  {
  }

  lemma {:induction false} WalkOffInput(src: Source, s: State)
    requires Inv(src, s) && s.hpos == -1
    requires Current(src, s).items != [] && Last(Current(src, s).items).line == s.line
    ensures Walked(src, s, Walk(src, s, 1), 1)
  {
    if |src.entries| > 0 {
      SaveKeeps(src, s);
      assert s.(skip := false) == s;
      var s1 := Save(src, s).(cpos := -1, hpos := 1);
      assert Walk(src, s, 1) == ShowCurrent(src, s1);
      hide Save, Walk, ShowLine;
      ShownLine(src, s1);
    }
  }

  lemma {:induction false} MoveRefines(src: Source, s: State, n: int)
    requires Inv(src, s) && (n == 1 || n == -1)
    ensures var r := MoveCommand(src, s, n);
      && Inv(src, r)
      && Abstract(src, r) == Next(Abstract(src, s), if n == 1 then Up else Down, r.line)
  {
    hide Save, Walk, Abstract, TextOf;
    SaveKeeps(src, s);
    TextsAfterSave(src, s);
    var s1 := Save(src, s);
    WalkKeeps(src, s1, n);
    var w := Walk(src, s1, n);
    SaveKeeps(src, w);
    TextsAfterSave(src, w);
    TextsAfterWalk(src, s1, w, n);
  }

  /** The texts after a step: the index moved, nothing else. */
  lemma {:induction false} TextsAfterWalk(src: Source, s: State, w: State, n: int)
    requires Inv(src, s) && (n == 1 || n == -1) && w == Walk(src, s, n)
    requires Current(src, s).items != [] && Last(Current(src, s).items).line == s.line
    ensures Abstract(src, w) == Next(Abstract(src, s), if n == 1 then Up else Down, w.line)
  {
    hide Save, Walk;
    WalkKeeps(src, s, n);
    forall i | 0 <= i <= |src.entries| ensures TextOf(src, w, i) == TextOf(src, s, i) {}
  }

  lemma {:induction false} EditRefines(src: Source, s: State, r: State)
    requires Inv(src, s)
    requires AllReady(r) && !r.skip && !r.undoing && r.hpos == s.hpos
    requires forall k :: k != Key(src, s) ==> HistoryAt(r.lines, k) == HistoryAt(s.lines, k)
    ensures Inv(src, r)
    ensures Abstract(src, r) == Abstract(src, s).(texts := Abstract(src, s).texts[CurrentIndex(s) := r.line])
  {
    forall i | 0 <= i <= |src.entries| && i != CurrentIndex(s) ensures TextOf(src, r, i) == TextOf(src, s, i) {}
  }

  /** Every command does to the array of texts what the reference does. */
  lemma {:induction false} ExecRefines(src: Source, s: State, e: Event)
    requires Inv(src, s)
    ensures var r := Exec(src, s, e);
      Inv(src, r) && Abstract(src, r) == Next(Abstract(src, s), e, r.line)
    ensures e.Edit? ==> Exec(src, s, e).line == e.text
  {
    var r := Exec(src, s, e);
    match e {
      case Edit(text, cursor, skip) =>
        SaveKeeps(src, s.(line := text, cursor := cursor, skip := skip));
        EditRefines(src, s, r);
      case Up => MoveRefines(src, s, 1);
      case Down => MoveRefines(src, s, -1);
      case UndoEvent =>
        UndoCommandEffect(src, s);
        EditRefines(src, s, r);
      case RedoEvent =>
        RedoKeeps(src, s);
        EditRefines(src, s, r);
      case RevertEvent =>
        RevertKeeps(src, s);
        EditRefines(src, s, r);
    }
  }

  lemma {:induction false} RedoKeeps(src: Source, s: State)
    requires Inv(src, s)
    ensures var r := RedoCommand(src, s);
      && AllReady(r) && !r.skip && !r.undoing && r.hpos == s.hpos
      && forall k :: k != Key(src, s) ==> HistoryAt(r.lines, k) == HistoryAt(s.lines, k)
  {
    var v := if Current(src, s).pos > 0 then Redo(src, s) else s;
    assert AllReady(v);
    SaveKeeps(src, v);
  }

  lemma {:induction false} RevertKeeps(src: Source, s: State)
    requires Inv(src, s)
    ensures var r := RevertCommand(src, s);
      && AllReady(r) && !r.skip && !r.undoing && r.hpos == s.hpos
      && forall k :: k != Key(src, s) ==> HistoryAt(r.lines, k) == HistoryAt(s.lines, k)
  {
    var v := Revert(src, s);
    assert AllReady(v);
    SaveKeeps(src, v);
  }

  // Runs ------------------------------------------------------------------------------

  function Run(src: Source, s: State, es: seq<Event>): (r: State)
    requires Inv(src, s)
    ensures Inv(src, r)
    decreases |es|
  {
    if es == [] then s
    else
      ExecRefines(src, s, es[0]);
      Run(src, Exec(src, s, es[0]), es[1..])
  }

  /** The reference run. For undo, redo and revert it takes the text the command
      showed; edits and moves are its own. */
  function RunTexts(src: Source, s: State, m: Texts, es: seq<Event>): Texts
    requires Inv(src, s) && m.cur < |m.texts|
    decreases |es|
  {
    if es == [] then m
    else
      ExecRefines(src, s, es[0]);
      var r := Exec(src, s, es[0]);
      RunTexts(src, r, Next(m, es[0], if es[0].Edit? then es[0].text else r.line), es[1..])
  }

  /** Over any run the text shown is the one the array holds at its index, and the
      history position is that index. */
  lemma {:induction false} RunRefines(src: Source, s: State, es: seq<Event>)
    requires Inv(src, s)
    ensures var r, m := Run(src, s, es), RunTexts(src, s, Abstract(src, s), es);
      && m == Abstract(src, r)
      && m.cur < |m.texts| == |src.entries| + 1
      && r.line == m.texts[m.cur]
      && r.hpos == (if m.cur == 0 then -1 else m.cur)
    decreases |es|
  {
    hide Exec, Inv;
    if es == [] {
      assert Inv(src, s);
      AbstractShows(src, s);
    } else {
      ExecRefines(src, s, es[0]);
      RunRefines(src, Exec(src, s, es[0]), es[1..]);
    }
  }

  lemma {:induction false} AbstractShows(src: Source, s: State)
    requires Inv(src, s)
    ensures var m := Abstract(src, s);
      m.cur < |m.texts| && s.line == m.texts[m.cur] && s.hpos == (if m.cur == 0 then -1 else m.cur)
  {
  }

  /** Away from the end of the undo list, the text shown is the state it is at. */
  predicate ShowsState(src: Source, s: State) {
    var lh := Current(src, s);
    lh.pos > 0 ==> lh.items != [] && lh.pos <= |lh.items| && s.line == lh.items[|lh.items| - lh.pos].line
  }

  lemma {:induction false} UndoShows(src: Source, s: State)
    requires Ready(src, s) && ShowsState(src, s)
    ensures ShowsState(src, UndoCommand(src, s))
  {
    hide Undo, Save;
    UndoCommandEffect(src, s);
  }

  lemma {:induction false} RedoShows(src: Source, s: State)
    requires Ready(src, s) && ShowsState(src, s) && !s.skip && !s.undoing
    ensures ShowsState(src, RedoCommand(src, s))
  {
    hide Redo, Save;
    if Current(src, s).pos > 0 { RedoCommandEffect(src, s); } else { SaveLeaves(src, s); }
  }

  /** Every command keeps it: an edit, a move and a revert end where nothing is undone. */
  lemma {:induction false} ExecShows(src: Source, s: State, e: Event)
    requires Inv(src, s) && ShowsState(src, s)
    ensures ShowsState(src, Exec(src, s, e))
  {
    hide Undo, Redo, Save, Walk;
    match e {
      case Edit(text, cursor, skip) => SaveLeaves(src, s.(line := text, cursor := cursor, skip := skip));
      case Up => MoveShows(src, s, 1);
      case Down => MoveShows(src, s, -1);
      case UndoEvent => UndoShows(src, s);
      case RedoEvent => RedoShows(src, s);
      case RevertEvent => SaveLeaves(src, Revert(src, s));
    }
  }

  lemma {:induction false} MoveShows(src: Source, s: State, n: int)
    requires Inv(src, s) && (n == 1 || n == -1)
    ensures ShowsState(src, MoveCommand(src, s, n))
  {
    hide Save, Walk;
    SaveKeeps(src, s);
    WalkKeeps(src, Save(src, s), n);
    SaveLeaves(src, Walk(src, Save(src, s), n));
  }

  lemma {:induction false} RunShows(src: Source, s: State, es: seq<Event>)
    requires Inv(src, s) && ShowsState(src, s)
    ensures ShowsState(src, Run(src, s, es))
    decreases |es|
  {
    hide Exec, Inv, ShowsState;
    if es != [] {
      ExecRefines(src, s, es[0]);
      ExecShows(src, s, es[0]);
      RunShows(src, Exec(src, s, es[0]), es[1..]);
    }
  }

  /** After any run from the start, as many undos as there are saved states bring back
      the text that revert gives. */
  lemma {:induction false} UndoReachesOldest(src: Source, line: string, cursor: int, es: seq<Event>, n: nat)
    ensures var s := State(line, cursor, false, false, -1, -1, map[]);
      && Inv(src, s)
      && (var r := Run(src, s, es);
          && Ready(src, r)
          && (n >= |Current(src, r).items| > 0 ==> UndoTimes(src, r, n).line == Revert(src, r).line))
  {
    var s := State(line, cursor, false, false, -1, -1, map[]);
    StartsAbstract(src, line, cursor);
    assert Current(src, s) == EMPTY;
    RunShows(src, s, es);
    var r := Run(src, s, es);
    hide Run, Revert, UndoTimes;
    if n >= |Current(src, r).items| > 0 { UndoReachesRevert(src, r, n); }
  }

  function Edits(texts: seq<string>): seq<Event> {
    seq(|texts|, i requires 0 <= i < |texts| => Edit(texts[i], 0, false))
  }

  predicate AllChange(texts: seq<string>) { forall i :: 0 < i < |texts| ==> texts[i - 1] != texts[i] }

  /** Typing texts, each other than the one before, saves them in order behind the states
      that are not undone. */
  lemma {:induction false} TypedAreSaved(src: Source, s: State, texts: seq<string>)
    requires Inv(src, s) && texts != [] && AllChange(texts)
    requires var l := Lines(Current(src, s).items); l != [] ==> l[|l| - 1] != texts[0]
    ensures var r, lh := Run(src, s, Edits(texts)), Current(src, s);
      && r.line == texts[|texts| - 1] && Current(src, r).pos == 0
      && Lines(Current(src, r).items) == Lines(lh.items)[..|lh.items| - lh.pos] + texts
    decreases |texts|
  {
    hide Exec, Inv;
    var es := Edits(texts);
    var r := TypeText(src, s, texts[0], es);
    var kept := Lines(Current(src, s).items)[..|Current(src, s).items| - Current(src, s).pos];
    assert es[1..] == Edits(texts[1..]);
    hide Run, Current;
    if |texts| > 1 {
      assert forall i :: 0 <= i < |texts| - 1 ==> texts[1..][i] == texts[i + 1];
      var l := Lines(Current(src, r).items);
      assert l[|l| - 1] == texts[0];
      TypedAreSaved(src, r, texts[1..]);
      assert l[..|l|] == l && kept + [texts[0]] + texts[1..] == kept + texts;
    } else {
      RunNone(src, r, es[1..]);
      assert texts == [texts[0]];
    }
  }

  lemma {:induction false} RunNone(src: Source, s: State, es: seq<Event>)
    requires Inv(src, s) && es == []
    ensures Run(src, s, es) == s && Ready(src, s)
  {
  }

  /** One typed text at the head of a run. */
  lemma {:induction false} TypeText(src: Source, s: State, text: string, es: seq<Event>) returns (r: State)
    requires Inv(src, s) && es != [] && es[0] == Edit(text, 0, false)
    requires var texts := Lines(Current(src, s).items); texts != [] ==> texts[|texts| - 1] != text
    ensures r == Exec(src, s, es[0]) && Inv(src, r) && r.line == text
    ensures Run(src, s, es) == Run(src, r, es[1..])
    ensures var lh := Current(src, s);
      && Current(src, r).pos == 0 && 0 <= lh.pos <= |lh.items|
      && Lines(Current(src, r).items) == Lines(lh.items)[..|lh.items| - lh.pos] + [text]
  {
    hide Save;
    r := Exec(src, s, es[0]);
    ExecRefines(src, s, es[0]);
    var v := s.(line := text, cursor := 0, skip := false);
    assert Current(src, v) == Current(src, s);
    SaveLeaves(src, v);
    if Current(src, s).items != [] { SavedLines(Current(src, s), text, 0); }
  }

  /** Seven commands that end with the middle two of four saved states alike, and after
      which two undos and two redos end one state short of the text. */
  lemma {:induction false} RedoEndsShort(src: Source)
    ensures var s0 := State("", 0, false, false, -1, -1, map[]);
      && Inv(src, s0)
      && (var s := Run(src, s0, Edits(["a", "b", "x", "y"]) + [UndoEvent] + Edits(["b", "c"]));
          && s.line == "c" && Ready(src, s)
          && RedoTimes(src, UndoTimes(src, s, 2), 2).line == "b")
  {
    hide Exec, Run, Current, Inv, Ready, UndoTimes, RedoTimes, Edits, Lines;
    var s0 := State("", 0, false, false, -1, -1, map[]);
    var s5 := TypedAndUndone(src);
    RunAppend(src, s0, Edits(["a", "b", "x", "y"]) + [UndoEvent], Edits(["b", "c"]));
    TypedAgain(src, s5);
  }

  lemma {:induction false} TypedAndUndone(src: Source) returns (s5: State)
    ensures var s0 := State("", 0, false, false, -1, -1, map[]);
      && Inv(src, s0) && Inv(src, s5) && s5 == Run(src, s0, Edits(["a", "b", "x", "y"]) + [UndoEvent])
    ensures Current(src, s5).pos == 2 && Lines(Current(src, s5).items) == ["a", "b", "x", "y"]
  {
    hide Exec, Run, Current, Inv, Edits, Lines;
    var s0 := State("", 0, false, false, -1, -1, map[]);
    var first := Edits(["a", "b", "x", "y"]);
    FirstTyped(src, s0);
    RunAppend(src, s0, first, [UndoEvent]);
    s5 := UndoOnce(src, Run(src, s0, first), [UndoEvent]);
    RunNone(src, s5, [UndoEvent][1..]);
  }

  lemma {:induction false} FirstTyped(src: Source, s0: State)
    requires s0 == State("", 0, false, false, -1, -1, map[])
    ensures Inv(src, s0)
    ensures var s4 := Run(src, s0, Edits(["a", "b", "x", "y"]));
      s4.line == "y" && Current(src, s4).pos == 0 && Lines(Current(src, s4).items) == ["a", "b", "x", "y"]
  {
    StartsAbstract(src, "", 0);
    assert Current(src, s0) == EMPTY && Lines(EMPTY.items) == [];
    hide Exec, Run, Current, Inv, Edits, Lines;
    TypedAreSaved(src, s0, ["a", "b", "x", "y"]);
  }

  lemma {:induction false} TypedAgain(src: Source, s5: State)
    requires Inv(src, s5)
    requires Current(src, s5).pos == 2 && Lines(Current(src, s5).items) == ["a", "b", "x", "y"]
    ensures var s := Run(src, s5, Edits(["b", "c"]));
      s.line == "c" && Ready(src, s) && RedoTimes(src, UndoTimes(src, s, 2), 2).line == "b"
  {
    assert |Current(src, s5).items| == |Lines(Current(src, s5).items)| == 4;
    hide Exec, Run, Current, Inv, Ready, UndoTimes, RedoTimes, Edits;
    TypedAreSaved(src, s5, ["b", "c"]);
    assert ["a", "b", "x", "y"][..2] + ["b", "c"] == ["a", "b", "b", "c"];
    var s7 := Run(src, s5, Edits(["b", "c"]));
    RunNone(src, s7, []);
    FourStates(src, s7);
  }

  lemma {:induction false} UndoOnce(src: Source, s: State, es: seq<Event>) returns (r: State)
    requires Inv(src, s) && es != [] && es[0] == UndoEvent && Current(src, s).pos == 0
    requires Lines(Current(src, s).items) == ["a", "b", "x", "y"] && s.line == "y"
    ensures r == Exec(src, s, es[0]) && Inv(src, r) && Run(src, s, es) == Run(src, r, es[1..])
    ensures Current(src, r) == Current(src, s).(pos := 2)
  {
    hide Save, Undo, NextUndo;
    r := Exec(src, s, es[0]);
    ExecRefines(src, s, es[0]);
    var items := Current(src, s).items;
    assert forall i :: 0 <= i < 4 ==> items[i].line == Lines(items)[i];
    NextUndoStep(items, 0, "y");
    NextUndoStep(items, 1, "y");
    UndoCommandEffect(src, s);
  }

  lemma {:induction false} FourStates(src: Source, s: State)
    requires Ready(src, s) && Current(src, s).pos == 0 && s.line == "c"
    requires Lines(Current(src, s).items) == ["a", "b", "b", "c"]
    ensures RedoTimes(src, UndoTimes(src, s, 2), 2).line == "b"
  {
    hide UndoTimes, RedoTimes;
    var items := Current(src, s).items;
    assert forall i :: 0 <= i < |items| ==> items[i].line == Lines(items)[i];
    assert |items| == 4;
    assert Changes(items, 1) == 0 && Changes(items, 2) == 1 && Changes(items, 3) == 1 && Changes(items, 4) == 2;
    assert StateAfter(items, 2, 3) == 4 && StateAfter(items, 2, 1) == 4;
    RedoInvertsUndo(src, s, 2);
  }

  lemma {:induction false} RunUndos(src: Source, s: State, n: nat)
    requires Inv(src, s)
    ensures Run(src, s, Times(UndoEvent, n)) == UndoTimes(src, s, n)
    decreases n
  {
    hide Save, Undo;
    if n > 0 {
      assert Times(UndoEvent, n)[1..] == Times(UndoEvent, n - 1);
      ExecRefines(src, s, UndoEvent);
      RunUndos(src, UndoCommand(src, s), n - 1);
    }
  }

  /** In any run, a revert shows the oldest text that was saved for the line, and leaves
      nothing to undo: undos after it change nothing. */
  lemma {:induction false} RevertIsFinal(src: Source, s: State, es: seq<Event>, n: nat)
    requires Inv(src, s)
    ensures Run(src, s, es + [RevertEvent] + Times(UndoEvent, n)).line == OldestText(src, Run(src, s, es))
    ensures var r := Run(src, s, es + [RevertEvent]);
      Lines(Current(src, r).items) == [r.line] && Current(src, r).pos == 0
  {
    hide Run, RevertCommand, UndoTimes, Times;
    var s1 := Run(src, s, es);
    RunAppend(src, s, es + [RevertEvent], Times(UndoEvent, n));
    RunAppend(src, s, es, [RevertEvent]);
    RunOne(src, s1, RevertEvent);
    UndosAfterRevert(src, s1, n);
    RevertLeavesOne(src, s1);
    RunUndos(src, Exec(src, s1, RevertEvent), n);
  }

  lemma {:induction false} RunOne(src: Source, s: State, e: Event)
    requires Inv(src, s)
    ensures Inv(src, Exec(src, s, e)) && Run(src, s, [e]) == Exec(src, s, e)
  {
    hide Exec, Inv;
    ExecRefines(src, s, e);
    assert [e][1..] == [];
  }

  // Walking by any number of lines --------------------------------------------------------

  /** From a saved line, a walk by n lines lands n lines on, or on the first or the last,
      and shows its text, unless it overshoots the input buffer. */
  lemma {:induction false} WalkLands(src: Source, s: State, n: int)
    requires Inv(src, s) && src.entries != []
    requires Current(src, s).items != [] && Last(Current(src, s).items).line == s.line
    requires s.hpos == -1 || s.hpos + n >= -1
    ensures var w, i := Walk(src, s, n), Clamp(CurrentIndex(s) + n, |src.entries|);
      CurrentIndex(w) == i && w.line == TextOf(src, s, i) && (w.hpos == -1 || w.hpos == i)
  {
    var len := |src.entries|;
    if s.hpos == -1 && n > 0 {
      SaveKeeps(src, s);
      assert s.(skip := false) == s;
      var s1 := Save(src, s).(cpos := -1, hpos := Min(n, len));
      assert Walk(src, s, n) == ShowCurrent(src, s1);
      hide Save, Walk, ShowLine;
      ShownLine(src, s1);
    } else if (s.hpos == len && n == 1) || s.hpos + n < -1 {
    } else if s.hpos + n == 0 {
      assert Walk(src, s, n) == Restore(s.(hpos := 0));
    } else {
      var s1 := s.(hpos := Min(s.hpos + n, len));
      assert Walk(src, s, n) == ShowCurrent(src, s1);
      hide Walk, ShowLine;
      if s1.hpos == -1 { ShownInput(src, s1); } else { ShownLine(src, s1); }
    }
  }

  lemma {:induction false} ShownInput(src: Source, s: State)
    requires s.hpos == -1 && Current(src, s).items != []
    ensures var w := ShowCurrent(src, s); w.hpos == -1 && w.line == Last(Current(src, s).items).line
  {
  }

  /** A walk that overshoots the input buffer stays on the history line but takes it for
      the input: the next save stores that text as the input buffer's. */
  lemma {:induction false} WalkOvershoots(src: Source, s: State, n: int)
    requires Inv(src, s) && src.entries != [] && s.hpos != -1 && s.hpos + n < -1
    ensures Walk(src, s, n) == s.(hpos := -1)
    ensures var r := Save(src, Walk(src, s, n));
      HistoryAt(r.lines, -1).items != [] && Last(HistoryAt(r.lines, -1).items).line == s.line
  {
    var w := s.(hpos := -1);
    assert Walk(src, s, n) == w;
    hide Walk, Save;
    SaveKeeps(src, w);
  }

  /** The command for the end of the history walks by minus the number of lines, plus
      one: with four lines, from the latest of them, it overshoots. */
  lemma {:induction false} EndOfHistoryOvershoots(input: string, a: string, b: string, c: string, d: string)
    ensures var src := Source([a, b, c, d], false);
      var s := Exec(src, State(input, 0, false, false, -1, -1, map[]), Up);
      && Inv(src, State(input, 0, false, false, -1, -1, map[]))
      && s.hpos == 1 && s.line == d
      && Walk(src, s, -|src.entries| + 1) == s.(hpos := -1)
  {
    var src, s0 := Source([a, b, c, d], false), State(input, 0, false, false, -1, -1, map[]);
    StartsAbstract(src, input, 0);
    var s := Exec(src, s0, Up);
    ExecRefines(src, s0, Up);
    assert Abstract(src, s).cur == 1 && Abstract(src, s).texts == Abstract(src, s0).texts;
    hide Exec;
    AbstractShows(src, s);
    assert s.hpos == 1;
    WalkOvershoots(src, s, -3);
  }

  /** Moves alone change no text: coming back to a line, or to the input buffer,
      shows it as it was left. */
  lemma {:induction false} MovesKeepTexts(src: Source, s: State, es: seq<Event>)
    requires Inv(src, s) && forall i :: 0 <= i < |es| ==> IsMove(es[i])
    ensures Abstract(src, Run(src, s, es)).texts == Abstract(src, s).texts
    ensures Run(src, s, es).hpos == s.hpos ==> Run(src, s, es).line == s.line
    decreases |es|
  {
    hide Exec, Inv;
    if es != [] {
      ExecRefines(src, s, es[0]);
      MovesKeepTexts(src, Exec(src, s, es[0]), es[1..]);
    }
    assert Inv(src, s);
    AbstractShows(src, s);
    AbstractShows(src, Run(src, s, es));
  }

  function Times(e: Event, n: nat): seq<Event> { seq(n, _ => e) }

  /** k lines up and k lines down is where one started. */
  lemma {:induction false} UpThenDown(src: Source, s: State, k: nat)
    requires Inv(src, s) && CurrentIndex(s) + k <= |src.entries|
    ensures var r := Run(src, s, Times(Up, k) + Times(Down, k)); r.line == s.line && r.hpos == s.hpos
  {
    var es := Times(Up, k) + Times(Down, k);
    UpThenDownIndex(src, s, k);
    assert forall i :: 0 <= i < |es| ==> IsMove(es[i]);
    MovesKeepTexts(src, s, es);
  }

  /** The input buffer as it was last saved. */
  predicate InputIs(s: State, item: Item) {
    HistoryAt(s.lines, -1).items != [] && Last(HistoryAt(s.lines, -1).items) == item
  }

  lemma {:induction false} InputLeft(src: Source, s: State)
    requires Inv(src, s) && s.hpos == -1 && |src.entries| > 0
    ensures var r := Exec(src, s, Up); r.hpos == 1 && InputIs(r, Item(s.line, Clamp(s.cursor, |s.line|)))
  {
    hide CommandPos;
    SaveKeeps(src, s);
    var s1 := Save(src, s);
    assert s1.cursor == Clamp(s.cursor, |s.line|);
    assert s1.(skip := false) == s1;
    SaveKeeps(src, s1);
    var s2 := Save(src, s1).(cpos := -1, hpos := 1);
    assert InputIs(s2, Item(s.line, Clamp(s.cursor, |s.line|)));
    assert Walk(src, s1, 1) == ShowCurrent(src, s2);
    WalkKeeps(src, s1, 1);
    hide Save, Walk, ShowLine;
    ShownLine(src, s2);
    SaveKeeps(src, Walk(src, s1, 1));
  }

  /** A move within the history keeps the input buffer, and one out of it shows it again
      with its cursor. */
  lemma {:induction false} InputKept(src: Source, s: State, e: Event, item: Item)
    requires Inv(src, s) && s.hpos >= 1 && IsMove(e) && InputIs(s, item) && 0 <= item.pos <= |item.line|
    ensures var r := Exec(src, s, e);
      if r.hpos >= 1 then InputIs(r, item) else r.hpos == -1 && r.line == item.line && r.cursor == item.pos
  {
    hide CommandPos, ShowLine;
    var n := if e.Up? then 1 else -1;
    SaveKeeps(src, s);
    var s1 := Save(src, s);
    WalkKeeps(src, s1, n);
    var w := Walk(src, s1, n);
    SaveKeeps(src, w);
    if s1.hpos + n == 0 {
      assert w == Restore(s1.(hpos := 0));
      InputRefreshed(src, w, item);
    } else {
      hide Save, Walk;
      assert InputIs(w, item);
    }
  }

  lemma {:induction false} InputRefreshed(src: Source, w: State, item: Item)
    requires AllReady(w) && !w.skip && w.hpos == -1 && InputIs(w, item) && 0 <= item.pos <= |item.line|
    requires w.line == item.line && w.cursor == item.pos
    ensures var r := Save(src, w); r.hpos == -1 && r.line == item.line && r.cursor == item.pos
  {
  }

  lemma {:induction false} MovesKeepInput(src: Source, s: State, e: Event, k: nat, item: Item)
    requires Inv(src, s) && s.hpos >= 1 && IsMove(e) && InputIs(s, item) && 0 <= item.pos <= |item.line|
    requires if e.Up? then CurrentIndex(s) + k <= |src.entries| else k <= CurrentIndex(s)
    ensures var r := Run(src, s, Times(e, k));
      if r.hpos >= 1 then InputIs(r, item) else r.hpos == -1 && r.line == item.line && r.cursor == item.pos
    decreases k
  {
    hide Exec, Inv, InputIs;
    if k > 0 {
      ExecRefines(src, s, e);
      InputKept(src, s, e, item);
      var r := Exec(src, s, e);
      AbstractShows(src, s);
      AbstractShows(src, r);
      assert Times(e, k)[1..] == Times(e, k - 1);
      if r.hpos >= 1 { MovesKeepInput(src, r, e, k - 1, item); } else { assert k == 1 && Times(e, 0) == []; }
    }
  }

  /** From the input buffer, k lines up and k lines down also bring the cursor back, into
      the line if it was out of it. */
  lemma {:induction false} UpThenDownCursor(src: Source, s: State, k: nat)
    requires Inv(src, s) && s.hpos == -1 && 1 <= k <= |src.entries|
    ensures var r := Run(src, s, Times(Up, k) + Times(Down, k));
      r.line == s.line && r.hpos == -1 && r.cursor == Clamp(s.cursor, |s.line|)
  {
    hide Exec, Inv, InputIs;
    var item := Item(s.line, Clamp(s.cursor, |s.line|));
    UpThenDown(src, s, k);
    RunAppend(src, s, Times(Up, k), Times(Down, k));
    ExecRefines(src, s, Up);
    InputLeft(src, s);
    var r := Exec(src, s, Up);
    assert Times(Up, k)[1..] == Times(Up, k - 1);
    MovesKeepInput(src, r, Up, k - 1, item);
    MoveIndex(src, r, Up, k - 1);
    var top := Run(src, r, Times(Up, k - 1));
    assert top == Run(src, s, Times(Up, k));
    AbstractShows(src, top);
    MovesKeepInput(src, top, Down, k, item);
  }

  lemma {:induction false} RunAppend(src: Source, s: State, a: seq<Event>, b: seq<Event>)
    requires Inv(src, s)
    ensures Run(src, s, a + b) == Run(src, Run(src, s, a), b)
    decreases |a|
  {
    hide Exec, Inv;
    if a == [] {
      assert a + b == b;
    } else {
      assert (a + b)[1..] == a[1..] + b && (a + b)[0] == a[0];
      ExecRefines(src, s, a[0]);
      RunAppend(src, Exec(src, s, a[0]), a[1..], b);
    }
  }

  lemma {:induction false} MoveIndex(src: Source, s: State, e: Event, k: nat)
    requires Inv(src, s) && IsMove(e)
    requires if e.Up? then CurrentIndex(s) + k <= |src.entries| else k <= CurrentIndex(s)
    ensures CurrentIndex(Run(src, s, Times(e, k))) == if e.Up? then CurrentIndex(s) + k else CurrentIndex(s) - k
    decreases k
  {
    hide Exec, Inv;
    if k > 0 {
      ExecRefines(src, s, e);
      assert Times(e, k)[1..] == Times(e, k - 1);
      MoveIndex(src, Exec(src, s, e), e, k - 1);
    }
  }

  lemma {:induction false} UpThenDownIndex(src: Source, s: State, k: nat)
    requires Inv(src, s) && CurrentIndex(s) + k <= |src.entries|
    ensures Run(src, s, Times(Up, k) + Times(Down, k)).hpos == s.hpos
  {
    RunAppend(src, s, Times(Up, k), Times(Down, k));
    MoveIndex(src, s, Up, k);
    var top := Run(src, s, Times(Up, k));
    MoveIndex(src, top, Down, k);
    AbstractShows(src, s);
    AbstractShows(src, Run(src, top, Times(Down, k)));
  }
}
