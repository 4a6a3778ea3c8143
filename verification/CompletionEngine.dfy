/** The completion engine: selecting a candidate, showing it in a copy of the line,
    then accepting or cancelling it (internal/completion/engine.go,
    internal/completion/insert.go). */
module CompletionEngine {
  import opened Basics
  import opened Unicode
  import opened Core
  import opened Grids
  import opened Menus
  import opened Insertions
  import Text
  import T = Tokens

  /** The key that called the command, as far as it matters here. */
  datatype Key = ArrowUp | ArrowDown | OtherKey

  datatype Offset = Offset(row: int, column: int)

  /** adjustCycleKeys: up and down arrows move by rows. */
  function AdjustKeys(key: Key, row: int, column: int): Offset {
    if (row > 0 && key == ArrowDown) || (row <= 0 && key == ArrowUp) then Offset(0, row) else Offset(row, column)
  }

  /** With the arrows a step forwards or backwards goes down or up a row; any other key
      steps as it was told. */
  lemma {:induction false} ArrowsStepByRows(key: Key, row: int, column: int)
    ensures AdjustKeys(ArrowDown, 1, 0) == Offset(0, 1) && AdjustKeys(ArrowUp, -1, 0) == Offset(0, -1)
    ensures AdjustKeys(OtherKey, row, column) == Offset(row, column)
    ensures row > 0 ==> AdjustKeys(ArrowUp, row, column) == Offset(row, column)
    ensures row <= 0 ==> AdjustKeys(ArrowDown, row, column) == Offset(row, column)
    ensures key == ArrowUp ==> AdjustKeys(key, 0, column) == Offset(0, 0)
  {
  }

  /** The candidate a group gives: the first one if it was never used. */
  function SelectedIn(g: Grid): Candidate
    requires WellFormed(g) && |g.rows| > 0 && (g.posX == -1 || g.posY == -1 || OnCell(g))
  {
    if g.posY == -1 || g.posX == -1 then g.rows[0][0] else g.rows[g.posY][g.posX]
  }

  /** The line with its cursor brought into it. */
  function Settled(e: Edited): Edited {
    Edited(e.text, Text.Clamp(e.cursor, |e.text|))
  }

  /** The line as prepareSuffix leaves it. */
  function Prepared(e: Edited, prefix: string, value: string): Edited {
    if T.ByteLen(value) > 0 && T.ByteLen(value) - T.ByteLen(prefix) <= 1 then e else Settled(e)
  }

  predicate HasCandidate(m: Menu) {
    Menus.Valid(m) && m.cur >= 0 && HasRows(m.grids, m.cur)
  }

  lemma {:induction false} CurrentUsable(m: Menu)
    requires HasCandidate(m)
    ensures Usable(m.grids[m.cur])
  {
  }

  function GridsOf(groups: seq<Group>): seq<Grid>
    reads groups
  {
    seq(|groups|, i requires 0 <= i < |groups| reads groups => groups[i].View())
  }

  /** Takes a prefix away before the cursor and puts a candidate there. */
  method PutCandidate(cursor: Cursor, prefix: string, value: string)
    modifies cursor, cursor.line
    ensures Edited(cursor.line.runes, cursor.pos) == old(Replaced(Edited(cursor.line.runes, cursor.pos), prefix, value))
  {
    hide T.ByteLen, Text.Inserted, Text.CutOut, MarkAfter;
    var n: int := T.ByteLen(prefix);
    cursor.Move(-n);
    var pos := cursor.Pos();
    cursor.line.Cut(pos, pos + n);
    cursor.InsertAt(value);
  }

  class Engine {
    const u: Tables
    const strip: string -> string  // removes terminal escapes from a value
    const line: Line
    const cursor: Cursor
    var compLine: Line
    var compCursor: Cursor
    var groups: seq<Group>
    var selected: string  // the value of the selected candidate, empty if none
    var prefix: string
    var autoForce: bool  // completions are generated on every key, as for a history search
    var isearching: bool  // the incremental search keymap is on
    ghost var current: int  // index of the group flagged as current, -1 if none

    constructor (u: Tables, strip: string -> string, line: Line, cursor: Cursor)
      requires cursor.line == line
      ensures Valid() && groups == [] && selected == prefix == ""
      ensures this.u == u && this.strip == strip && this.line == line && this.cursor == cursor
      ensures compLine == line && compCursor == cursor && !autoForce && !isearching
    {
      this.u, this.strip, this.line, this.cursor := u, strip, line, cursor;
      compLine, compCursor := line, cursor;
      groups, selected, prefix, current := [], "", "", -1;
      autoForce, isearching := false, false;
    }

    function Grids(): seq<Grid>
      reads this`groups, groups
    {
      GridsOf(groups)
    }

    ghost function MenuOf(): Menu
      reads this`groups, this`current, groups
    {
      Menu(Grids(), current)
    }

    function Real(): Edited
      reads line, cursor
    {
      Edited(line.runes, cursor.pos)
    }

    function Completed(): Edited
      reads this`compLine, this`compCursor, compLine, compCursor
    {
      Edited(compLine.runes, compCursor.pos)
    }

    /** At most one group is flagged, and groups are distinct objects. */
    ghost predicate Flagged()
      reads this`groups, this`current, groups
    {
      && -1 <= current < |groups|
      && (forall i, j :: 0 <= i < j < |groups| ==> groups[i] != groups[j])
      && (forall i :: 0 <= i < |groups| ==> (groups[i].isCurrent <==> i == current))
    }

    /** Until a candidate has been shown, the completed line is the line itself. */
    ghost predicate Valid()
      reads this`compLine, this`compCursor, this`groups, this`current, groups
    {
      && cursor.line == line && compCursor.line == compLine
      && (compLine == line <==> compCursor == cursor)
      && Flagged() && Menus.Valid(MenuOf())
    }

    method CurrentGroup() returns (k: int)
      requires Valid()
      modifies groups, this`current
      ensures Valid() && MenuOf() == old(WithCurrent(MenuOf())) && k == current && -1 <= k < |groups|
    {
      hide Usable, AllWellFormed;
      for i := 0 to |groups|
        invariant forall j :: 0 <= j < i ==> !groups[j].isCurrent
      {
        if groups[i].isCurrent { return i; }
      }
      ghost var m := MenuOf();
      for i := 0 to |groups|
        invariant MenuOf() == m && Valid()
        invariant i <= FirstWithRows(m, 0)
      {
        assert m.grids[i] == groups[i].View();
        if |groups[i].rows| > 0 {
          assert HasRows(m.grids, i) && FirstWithRows(m, 0) == i;
          groups[i].isCurrent := true;
          current := i;
          assert Grids() == m.grids;
          return i;
        }
      }
      k := -1;
    }

    /** cycleNextGroup; k is a group with candidates, which bounds the search. */
    method CycleNextGroup(ghost k: int)
      requires Flagged() && 0 <= current && 0 <= k < |groups| && |groups[k].rows| > 0
      modifies groups, this`current
      ensures Flagged() && MenuOf() == old(Cycle(MenuOf(), k, true))
      decreases Distance(|groups|, Succ(|groups|, current), k, true)
    {
      ghost var m := MenuOf();
      assert m.grids[k] == groups[k].View();
      FlagNext(true);
      assert m.grids[current] == Grids()[current] == groups[current].View();
      assert |groups[current].rows| > 0 <==> HasRows(m.grids, current);
      assert groups[k].View() == Grids()[k];
      if |groups[FlaggedIndex()].rows| == 0 {
        CycleNextGroup(k);
      }
    }

    method CyclePreviousGroup(ghost k: int)
      requires Flagged() && 0 <= current && 0 <= k < |groups| && |groups[k].rows| > 0
      modifies groups, this`current
      ensures Flagged() && MenuOf() == old(Cycle(MenuOf(), k, false))
      decreases Distance(|groups|, Pred(|groups|, current), k, false)
    {
      ghost var m := MenuOf();
      assert m.grids[k] == groups[k].View();
      FlagNext(false);
      assert m.grids[current] == Grids()[current] == groups[current].View();
      assert |groups[current].rows| > 0 <==> HasRows(m.grids, current);
      assert groups[k].View() == Grids()[k];
      if |groups[FlaggedIndex()].rows| == 0 {
        CyclePreviousGroup(k);
      }
    }

    function FlaggedIndex(): (i: int)
      requires Flagged() && current >= 0
      reads this, groups
      ensures i == current
    {
      FlagFrom(0)
    }

    function FlagFrom(i: int): (k: int)
      requires Flagged() && 0 <= i <= current
      reads this, groups
      ensures k == current
      decreases |groups| - i
    {
      if groups[i].isCurrent then i else FlagFrom(i + 1)
    }

    /** Moves the flag to the neighbouring group, going round. */
    method FlagNext(forward: bool)
      requires Flagged() && current >= 0
      modifies groups, this`current
      ensures Flagged()
      ensures current == old(if forward then Succ(|groups|, current) else Pred(|groups|, current))
      ensures Grids() == old(Grids())
    {
      var pos := FlaggedIndex();
      groups[pos].isCurrent := false;
      var to := if forward then Succ(|groups|, pos) else Pred(|groups|, pos);
      groups[to].isCurrent := true;
      current := to;
      assert forall i :: 0 <= i < |groups| ==> Grids()[i] == old(Grids())[i];
    }

    method StepGroup(k: int, g: Group, x: int, y: int) returns (done: bool, next: bool)
      requires Flagged() && 0 <= k < |groups| && g == groups[k] && Usable(g.View()) && UnitStep(x, y)
      modifies g`posX, g`posY
      ensures var moved := old(Move(g.View(), x, y));
        Flagged() && Grids() == old(Grids())[k := moved.g] && done == moved.done && next == moved.next
    {
      done, next := g.MoveSelector(x, y);
    }

    method FirstOfGroup(k: int, g: Group)
      requires Flagged() && 0 <= k < |groups| && g == groups[k]
      modifies g`posX, g`posY
      ensures Flagged() && Grids() == old(Grids())[k := old(FirstCell(g.View()))]
    {
      g.ToFirstCell();
    }

    method LastOfGroup(k: int, g: Group)
      requires Flagged() && 0 <= k < |groups| && g == groups[k] && |g.rows| > 0
      modifies g`posX, g`posY
      ensures Flagged() && Grids() == old(Grids())[k := old(LastCell(g.View()))]
    {
      g.ToLastCell();
    }

    method CrossGroup(k: int, next: bool)
      requires Flagged() && 0 <= k == current && |groups[k].rows| > 0
      modifies groups, this`current
      ensures Flagged() && HasRows(old(Grids()), k) && MenuOf() == old(Cross(MenuOf(), k, next))
    {
      assert Grids()[k] == groups[k].View();
      hide Seek;
      if next {
        CycleNextGroup(k);
        var j := FlaggedIndex();
        assert Grids()[j] == groups[j].View();
        FirstOfGroup(j, groups[j]);
      } else {
        CyclePreviousGroup(k);
        var j := FlaggedIndex();
        assert Grids()[j] == groups[j].View();
        LastOfGroup(j, groups[j]);
      }
    }

    /** The selector's part of Select. */
    method MoveSelection(x: int, y: int)
      requires Valid() && HasCandidate(MenuOf()) && UnitStep(x, y)
      modifies groups, this`current
      ensures Valid() && MenuOf() == old(Advance(MenuOf(), x, y)) && HasCandidate(MenuOf())
    {
      AdvanceKeeps(MenuOf(), x, y);
      assert HasCandidate(Advance(MenuOf(), x, y));
      hide Advance, Engine.Flagged, AllWellFormed, Usable, SameRows, OnCandidate, UnitStep;
      MoveFlagged(x, y);
    }

    method MoveFlagged(x: int, y: int)
      requires Flagged() && HasCandidate(MenuOf()) && UnitStep(x, y)
      modifies groups, this`current
      ensures Flagged() && MenuOf() == old(Advance(MenuOf(), x, y))
    {
      ghost var m := MenuOf();
      CurrentUsable(m);
      hide HasCandidate, Menus.Valid, Move, Cross, AllWellFormed, SameRows, OnCandidate, OnCell;
      var k := FlaggedIndex();
      assert m.grids[k] == groups[k].View();
      MoveOnCell(m.grids[k], x, y);
      var done, next := StepGroup(k, groups[k], x, y);
      assert Grids()[k] == groups[k].View();
      if done { CrossGroup(k, next); }
    }

    // The candidate in the line ---------------------------------------------------

    /** The value the current group's candidate is inserted as. */
    function ValueOf(g: Group): string
      requires WellFormed(g.View()) && |g.rows| > 0 && (g.posX == -1 || g.posY == -1 || OnCell(g.View()))
      reads this, g
    {
      var value := SelectedIn(g.View()).value;
      if g.preserveEscapes then value else strip(value)
    }

    /** The value that the current group of a menu gives. */
    ghost function ValueIn(m: Menu): string
      requires HasCandidate(m) && |m.grids| == |groups|
      reads this`groups
    {
      var value := SelectedIn(m.grids[m.cur]).value;
      if groups[m.cur].preserveEscapes then value else strip(value)
    }

    /** The real line with the current group's candidate accepted. */
    ghost function Accepted(): Edited
      requires Valid() && HasCandidate(WithCurrent(MenuOf()))
      reads this, groups, cursor, line
    {
      var value := ValueIn(WithCurrent(MenuOf()));
      Replaced(Prepared(Real(), prefix, value), prefix, value)
    }

    /** The line with the candidate that the next step selects accepted. */
    ghost function NextAccepted(x: int, y: int): Edited
      requires Valid() && HasCandidate(WithCurrent(MenuOf())) && UnitStep(x, y)
      reads this, groups, cursor, line
    {
      var value := NextValue(x, y);
      Replaced(Prepared(BeforeNext(), prefix, value), prefix, value)
    }

    /** The real line once a candidate shown has been taken away. */
    function BeforeNext(): Edited
      reads this`selected, line, cursor
    {
      if selected != "" then Settled(Real()) else Real()
    }

    ghost function NextValue(x: int, y: int): string
      requires Valid() && HasCandidate(WithCurrent(MenuOf())) && UnitStep(x, y)
      reads this, groups
    {
      var m := WithCurrent(MenuOf());
      AdvanceKeeps(m, x, y);
      ValueIn(Advance(m, x, y))
    }

    /** A value shorter than the prefix cannot be accepted: the program would slice it
        past its end. */
    predicate Fits(value: string)
      reads this`prefix
    {
      value == "" || T.ByteLen(value) >= T.ByteLen(prefix)
    }

    /** setPrefix: a prefix given with the completions, else the one at the cursor. */
    method SetPrefix(given: string)
      requires cursor.line == line
      modifies this`prefix, cursor
      ensures prefix == if given == "" then PrefixAt(u, line.runes, old(cursor.pos)) else given
      ensures cursor.pos == old(cursor.pos) || cursor.pos == Text.Clamp(old(cursor.pos), |line.runes|)
    {
      if given != "" {
        prefix := given;
        return;
      }
      var t := line.runes;
      if t == "" {
        prefix := "";
        return;
      }
      var cpos := cursor.Pos();
      cpos := if cpos > 0 then cpos - 1 else 0;
      var bpos := cpos;
      while bpos > 0 && u.IsSpace(t[bpos - 1]) == u.IsSpace(t[cpos])
        invariant 0 <= bpos <= cpos
        invariant u.IsSpace(t[bpos]) == u.IsSpace(t[cpos])
        invariant RunBegin(u, t, bpos) == RunBegin(u, t, cpos)
      {
        bpos := bpos - 1;
      }
      prefix := TrimSpace(u, t[bpos..cpos + 1]);
    }

    method CancelCompletedLine()
      requires Valid()
      modifies this`selected, compLine, compCursor, cursor
      ensures Valid() && selected == "" && line.runes == old(line.runes)
      ensures cursor.pos == Text.Clamp(old(cursor.pos), |line.runes|)
      ensures Completed() == Real()
    {
      hide Engine.Flagged, Menus.Valid, MarkAfter, Engine.MenuOf;
      compLine.Set(line.runes);
      var c := cursor.Pos();
      compCursor.Set(c);
      selected := "";
    }

    /** prepareSuffix, for a group with no suffix matcher. The cursor is brought into
        the line, but not when the value adds at most one byte to the prefix. */
    method PrepareSuffix() returns (comp: string)
      requires cursor.line == line && (selected == "" || T.ByteLen(selected) >= T.ByteLen(prefix))
      modifies cursor
      ensures comp == selected && cursor.pos == old(Prepared(Real(), prefix, selected).cursor)
    {
      comp := selected;
      var n := T.ByteLen(prefix);
      if T.ByteLen(comp) > 0 && T.ByteLen(comp) - n <= 1 { return; }
      cursor.CheckAppend();
    }

    /** acceptCandidate puts the current candidate in the real line, also one of a group
        never used: its first. */
    method AcceptCandidate()
      requires Valid()
      requires var m := WithCurrent(MenuOf()); m.cur >= 0 ==> HasRows(m.grids, m.cur) && Fits(ValueIn(m))
      modifies this`selected, this`prefix, this`current, groups, line, cursor
      ensures Valid() && MenuOf() == old(WithCurrent(MenuOf()))
      ensures current == -1 ==> selected == old(selected) && prefix == old(prefix) && Real() == old(Real())
      ensures current >= 0 ==>
        prefix == "" && selected == ValueIn(MenuOf()) && Real() == old(Accepted())
    {
      hide Menus.Valid, T.ByteLen, Replaced, Prepared, FirstWithRows, Usable, AllWellFormed, SelectedIn;
      var k := CurrentGroup();
      hide Engine.Valid;
      if k == -1 { return; }
      SelectCurrent();
      AcceptSelected();
    }

    /** The rest of acceptCandidate, once the candidate is known. */
    method AcceptSelected()
      requires cursor.line == line && Fits(selected)
      modifies this`prefix, line, cursor
      ensures prefix == ""
      ensures Real() == old(Replaced(Prepared(Real(), prefix, selected), prefix, selected))
    {
      hide T.ByteLen, Replaced;
      var comp := PrepareSuffix();
      PutCandidate(cursor, prefix, comp);
      prefix := "";
    }

    method SelectCurrent()
      requires Valid() && HasCandidate(MenuOf())
      modifies this`selected
      ensures selected == ValueIn(MenuOf())
    {
      var k := FlaggedIndex();
      assert MenuOf().grids[k] == groups[k].View();
      selected := ValueOf(groups[k]);
    }

    /** Makes the completed line a copy of the line. */
    method CopyLine()
      requires Valid()
      modifies this`compLine, this`compCursor, cursor
      ensures Valid() && fresh(compLine) && fresh(compCursor) && Completed() == old(Settled(Real()))
      ensures cursor.pos == Text.Clamp(old(cursor.pos), |line.runes|)
    {
      hide Menus.Valid, MarkAfter;
      var completed := new Line(line.runes);
      compLine := completed;
      compCursor := new Cursor(completed);
      var c := cursor.Pos();
      compCursor.Set(c);
    }

    /** insertCandidate shows the current candidate in a copy of the line. A value
        shorter than the prefix is selected but not shown. */
    method InsertCandidate()
      requires Valid()
      requires var m := WithCurrent(MenuOf()); m.cur >= 0 ==> HasRows(m.grids, m.cur)
      modifies this`selected, this`compLine, this`compCursor, this`current, groups, cursor
      ensures Valid() && MenuOf() == old(WithCurrent(MenuOf())) && line.runes == old(line.runes)
      ensures cursor.pos == old(cursor.pos) || cursor.pos == Text.Clamp(old(cursor.pos), |line.runes|)
      ensures current == -1 ==> selected == old(selected)
      ensures current >= 0 ==> selected == ValueIn(MenuOf())
      ensures current == -1 || T.ByteLen(selected) < T.ByteLen(prefix) ==>
        unchanged(`compLine) && unchanged(`compCursor)
      ensures current >= 0 && T.ByteLen(selected) >= T.ByteLen(prefix) ==>
        && fresh(compLine) && fresh(compCursor)
        && Completed() == Replaced(old(Settled(Real())), prefix, selected)
    {
      hide Menus.Valid, T.ByteLen, Replaced, FirstWithRows;
      var k := CurrentGroup();
      if k == -1 { return; }
      SelectCurrent();
      ShowSelected();
    }

    /** The rest of insertCandidate, once the candidate is known. */
    method ShowSelected()
      requires Valid()
      modifies this`compLine, this`compCursor, cursor
      ensures Valid() && line.runes == old(line.runes)
      ensures cursor.pos == old(cursor.pos) || cursor.pos == Text.Clamp(old(cursor.pos), |line.runes|)
      ensures T.ByteLen(selected) < T.ByteLen(prefix) ==> unchanged(`compLine) && unchanged(`compCursor)
      ensures T.ByteLen(selected) >= T.ByteLen(prefix) ==>
        && fresh(compLine) && fresh(compCursor)
        && Completed() == Replaced(old(Settled(Real())), prefix, selected)
    {
      hide Menus.Valid, T.ByteLen, Replaced;
      if T.ByteLen(selected) < T.ByteLen(prefix) { return; }
      var comp := PrepareSuffix();
      CopyLine();
      PutCandidate(compCursor, prefix, comp);
    }

    /** hasUniqueCandidate. */
    method HasUniqueCandidate() returns (unique: bool)
      requires Valid()
      modifies groups, this`current
      ensures Valid() && MenuOf() == old(if |groups| == 1 then WithCurrent(MenuOf()) else MenuOf())
      ensures unique == HasUnique(MenuOf())
    {
      hide FirstWithRows, Usable;
      if |groups| == 0 { return false; }
      if |groups| == 1 {
        var k := CurrentGroup();
        if k == -1 { return false; }
        assert MenuOf().grids[k] == groups[k].View();
        return |groups[k].rows| == 1 && |groups[k].rows[0]| == 1;
      }
      unique := CountIsOne();
    }

    method CountIsOne() returns (one: bool)
      requires Valid()
      ensures one == (RowsAndCells(Grids()) == 1)
    {
      NeverOne(Grids());
      hide WellFormed, Menus.Valid;
      var count := 0;
      for i := 0 to |groups|
        invariant count <= 1 && count == RowsAndCells(Grids()[..i])
      {
        var rows := groups[i].rows;
        assert Grids()[..i + 1][..i] == Grids()[..i] && Grids()[i] == groups[i].View();
        for y := 0 to |rows|
          invariant count <= 1 && count == RowsAndCells(Grids()[..i]) + y + RowStart(rows, y)
        {
          count := count + 1;
          count := count + |rows[y]|;
          if count > 1 { return false; }
        }
      }
      assert Grids()[..|groups|] == Grids();
      one := count == 1;
    }

    /** ResetForce, out of the incremental search: the candidate goes, or stays when
        completion was forced, and the menu is closed. */
    method ResetForce()
      requires Valid() && !isearching
      modifies this`selected, this`groups, this`current, this`autoForce, line, cursor, compLine, compCursor
      ensures Valid() && groups == [] && current == -1 && selected == "" && !autoForce
      ensures Real() == old(
        if !autoForce then Settled(Real()) else if selected == "" then Real() else Settled(Completed()))
    {
      Cancel(!autoForce);
      groups, current, selected := [], -1, "";
      autoForce := false;
    }

    /** refreshLine, once a group with candidates is current: a candidate that is the
        only one is accepted and the menu closed; else it is shown. */
    method RefreshLine()
      requires Valid() && HasCandidate(MenuOf())
      requires HasUnique(MenuOf()) && !isearching ==> Fits(ValueIn(MenuOf()))
      modifies this, groups, line, cursor, compLine, compCursor
      ensures Valid() && isearching == old(isearching)
      ensures fresh(compLine) || compLine == old(compLine)
      ensures fresh(compCursor) || compCursor == old(compCursor)
      ensures old(!HasUnique(MenuOf()) || isearching) ==>
        && groups == old(groups) && MenuOf() == old(MenuOf()) && prefix == old(prefix) && autoForce == old(autoForce)
        && line.runes == old(line.runes) && selected == ValueIn(MenuOf())
        && (cursor.pos == old(cursor.pos) || cursor.pos == Text.Clamp(old(cursor.pos), |line.runes|))
        && (T.ByteLen(selected) >= T.ByteLen(prefix) ==>
              Completed() == Replaced(old(Settled(Real())), prefix, selected))
      ensures old(HasUnique(MenuOf()) && !isearching) ==>
        && groups == [] && current == -1 && selected == prefix == "" && !autoForce
        && Real() == old(
             if !autoForce || compLine == line || ValueIn(MenuOf()) == "" then Settled(Accepted())
             else Settled(Completed()))
    {
      hide Menus.Valid, T.ByteLen, Replaced, HasUnique, FirstWithRows, SelectedIn, MarkAfter, Usable, AllWellFormed;
      hide Engine.Valid;
      ghost var m := MenuOf();
      if ValueIn(m) == "" { ReplacedKeepsCursor(Prepared(Real(), prefix, ""), prefix, ""); }
      var unique := HasUniqueCandidate();
      assert MenuOf() == m;
      if unique && !isearching {
        AcceptCandidate();
        ResetForce();
      } else {
        InsertCandidate();
      }
    }

    /** Select's work up to the refresh: a candidate shown is taken away, the selector
        moves. */
    method MoveOn(x: int, y: int)
      requires Valid() && HasCandidate(MenuOf()) && UnitStep(x, y)
      modifies this`selected, this`current, groups, compLine, compCursor, cursor
      ensures Valid() && MenuOf() == old(Advance(MenuOf(), x, y)) && HasCandidate(MenuOf())
      ensures Real() == old(BeforeNext())
      ensures Completed() == old(if selected != "" then Settled(Real()) else Completed())
    {
      hide Advance, Menus.Valid, HasCandidate, MarkAfter, Engine.Valid, Engine.MenuOf;
      if selected != "" { CancelCompletedLine(); }
      MoveSelection(x, y);
    }

    /** Select moves the selector, and shows or accepts the new candidate. */
    method Select(key: Key, row: int, column: int)
      requires var step := AdjustKeys(key, row, column); Valid() && UnitStep(step.row, step.column)
      requires var step := AdjustKeys(key, row, column);
        HasCandidate(WithCurrent(MenuOf())) && HasUnique(MenuOf()) && !isearching ==>
          Fits(NextValue(step.row, step.column))
      modifies this, groups, line, cursor, compLine, compCursor
      ensures Valid() && isearching == old(isearching)
      ensures fresh(compLine) || compLine == old(compLine)
      ensures fresh(compCursor) || compCursor == old(compCursor)
      ensures !old(HasCandidate(WithCurrent(MenuOf()))) ==>
        && groups == old(groups) && MenuOf() == old(WithCurrent(MenuOf())) && Real() == old(Real())
        && selected == old(selected) && prefix == old(prefix)
      ensures old(HasCandidate(WithCurrent(MenuOf())) && !(HasUnique(MenuOf()) && !isearching)) ==>
        var step := AdjustKeys(key, row, column);
        && groups == old(groups) && prefix == old(prefix) && line.runes == old(line.runes)
        && (cursor.pos == old(cursor.pos) || cursor.pos == Text.Clamp(old(cursor.pos), |line.runes|))
        && MenuOf() == old(SelectMenu(MenuOf(), step.row, step.column))
        && selected == old(NextValue(step.row, step.column))
        && (T.ByteLen(selected) >= T.ByteLen(prefix) ==>
              Completed() == Replaced(old(Settled(Real())), prefix, selected))
      ensures old(HasCandidate(WithCurrent(MenuOf())) && HasUnique(MenuOf()) && !isearching) ==>
        var step := AdjustKeys(key, row, column);
        && groups == [] && selected == prefix == "" && !autoForce
        && Real() == old(
             if !autoForce || compLine == line || NextValue(step.row, step.column) == "" then
               Settled(NextAccepted(step.row, step.column))
             else if selected != "" then BeforeNext()
             else Settled(Completed()))
    {
      hide Advance, Replaced, Prepared, Menus.Valid, T.ByteLen, FirstWithRows, SelectedIn;
      UniqueWithCurrent(MenuOf());
      hide HasUnique;
      var k := CurrentGroup();
      if k == -1 { return; }
      assert MenuOf().grids[k] == groups[k].View();
      if |groups[k].rows| == 0 { return; }
      var step := AdjustKeys(key, row, column);
      hide Usable, AllWellFormed, AdjustKeys, UnitStep;
      Proceed(step.row, step.column);
    }

    /** Select once a group with candidates is current. */
    method Proceed(x: int, y: int)
      requires Valid() && HasCandidate(MenuOf()) && UnitStep(x, y)
      requires HasUnique(MenuOf()) && !isearching ==> Fits(NextValue(x, y))
      modifies this, groups, line, cursor, compLine, compCursor
      ensures Valid() && isearching == old(isearching)
      ensures fresh(compLine) || compLine == old(compLine)
      ensures fresh(compCursor) || compCursor == old(compCursor)
      ensures old(!(HasUnique(MenuOf()) && !isearching)) ==>
        && groups == old(groups) && prefix == old(prefix) && line.runes == old(line.runes)
        && (cursor.pos == old(cursor.pos) || cursor.pos == Text.Clamp(old(cursor.pos), |line.runes|))
        && MenuOf() == old(Advance(MenuOf(), x, y)) && selected == old(NextValue(x, y))
        && (T.ByteLen(selected) >= T.ByteLen(prefix) ==>
              Completed() == Replaced(old(Settled(Real())), prefix, selected))
      ensures old(HasUnique(MenuOf()) && !isearching) ==>
        && groups == [] && selected == prefix == "" && !autoForce
        && Real() == old(
             if !autoForce || compLine == line || NextValue(x, y) == "" then Settled(NextAccepted(x, y))
             else if selected != "" then BeforeNext()
             else Settled(Completed()))
    {
      ghost var m := MenuOf();
      UniqueKept(m, x, y);
      assert WithCurrent(m) == m && WithCurrent(Advance(m, x, y)) == Advance(m, x, y);
      hide Advance, Replaced, Prepared, Menus.Valid, T.ByteLen, HasUnique, SelectedIn, HasCandidate, WithCurrent;
      hide Engine.Valid, Engine.MenuOf, MarkAfter;
      MoveOn(x, y);
      RefreshLine();
    }

    /** Cancel drops the candidate shown, or makes it part of the real line. */
    method Cancel(inserted: bool)
      requires Valid()
      modifies this`selected, line, cursor, compLine, compCursor
      ensures Valid()
      ensures var skipped := old(selected) == "" && !inserted;
        && selected == (if skipped then old(selected) else "")
        && (skipped || inserted ==> line.runes == old(line.runes))
        && (skipped ==> cursor.pos == old(cursor.pos))
        && (inserted ==> cursor.pos == Text.Clamp(old(cursor.pos), |line.runes|))
        && (!skipped && !inserted ==>
              line.runes == old(compLine.runes) && cursor.pos == Text.Clamp(old(compCursor.pos), |line.runes|))
    {
      hide Engine.Flagged, Menus.Valid, MarkAfter, Engine.MenuOf;
      if selected == "" && !inserted { return; }
      if inserted {
        compLine.Set(line.runes);
        var c := cursor.Pos();
        compCursor.Set(c);
      } else {
        line.Set(compLine.runes);
        var c := compCursor.Pos();
        cursor.Set(c);
      }
      CancelCompletedLine();
    }

    // Several commands in a row ------------------------------------------------------

    /** Any number of selections and then a cancel leave the line and its cursor as
        they were. */
    method SelectThenCancel(steps: seq<(Key, int, int)>)
      requires forall s :: s in steps ==> var step := AdjustKeys(s.0, s.1, s.2); UnitStep(step.row, step.column)
      requires Valid() && cursor.InLine() && (isearching || !HasUnique(MenuOf()))
      modifies this, groups, line, cursor, compLine, compCursor
      ensures Valid() && Real() == old(Real()) && selected == ""
    {
      hide Replaced, T.ByteLen, SelectMenu, HasUnique;
      for i := 0 to |steps|
        invariant Valid() && Real() == old(Real()) && (isearching || !HasUnique(MenuOf()))
        invariant groups == old(groups) && isearching == old(isearching)
        invariant fresh(compLine) || compLine == old(compLine)
        invariant fresh(compCursor) || compCursor == old(compCursor)
      {
        ghost var m := MenuOf();
        var s := steps[i];
        assert s in steps;
        UniqueSelected(m, AdjustKeys(s.0, s.1, s.2));
        UniqueWithCurrent(m);
        Select(s.0, s.1, s.2);
      }
      Cancel(true);
    }

    /** From candidate number p in the order listed, n selections show number p + n modulo
        the total: its value as it is when its group preserves escapes, else stripped of
        them. The real line stays, and the completed line is that line with the prefix
        replaced by the value. */
    method SelectMany(n: nat)
      requires Valid() && OnCandidate(MenuOf()) && (isearching || !HasUnique(MenuOf()))
      modifies this, groups, line, cursor, compLine, compCursor
      ensures Valid() && OnCandidate(MenuOf()) && line.runes == old(line.runes) && prefix == old(prefix)
      ensures groups == old(groups) && SameRows(old(Grids()), Grids())
      ensures n > 0 ==>
        var all := AllCandidates(old(Grids()));
        && |all| > 0
        && var i := (old(Linear(MenuOf())) + n) % |all|;
        && GroupStart(Grids(), current) <= i < GroupStart(Grids(), current + 1)
        && selected == (if groups[current].preserveEscapes then all[i].value else strip(all[i].value))
        && (T.ByteLen(selected) >= T.ByteLen(prefix) ==>
              Completed() == Replaced(old(Settled(Real())), prefix, selected))
    {
      hide Replaced, T.ByteLen, SelectMenu, HasUnique, SelectedIn, Menus.Valid, AllCandidates, GroupStart, OnCell;
      hide SelectTimes, SelectStep, CellIndex, Advance;
      ghost var m := MenuOf();
      TimesKeep(m, 0);
      OnCandidateUsable(m);
      for i := 0 to n
        invariant Valid() && OnCandidate(MenuOf()) && (isearching || !HasUnique(MenuOf()))
        invariant groups == old(groups) && isearching == old(isearching) && prefix == old(prefix)
        invariant line.runes == old(line.runes) && Settled(Real()) == old(Settled(Real()))
        invariant fresh(compLine) || compLine == old(compLine)
        invariant fresh(compCursor) || compCursor == old(compCursor)
        invariant MenuOf() == SelectTimes(m, 1, i)
        invariant HasCandidate(MenuOf()) && (i > 0 ==> selected == ValueIn(MenuOf()))
        invariant i > 0 && T.ByteLen(selected) >= T.ByteLen(prefix) ==>
          Completed() == Replaced(old(Settled(Real())), prefix, selected)
      {
        SelectNext(m, i);
      }
      SelectVisitsAll(m, n);
      TimesKeep(m, n);
      ListedValue(MenuOf());
      AllCandidatesSame(m.grids, Grids());
    }

    /** With the down arrow, the cell below in the same column is selected, when there is
        one. */
    method SelectBelow()
      requires Valid() && OnCandidate(MenuOf()) && (isearching || !HasUnique(MenuOf()))
      requires Laid(groups[current].View()) && groups[current].posY + 1 < |groups[current].rows|
      requires groups[current].posX < |groups[current].rows[groups[current].posY + 1]|
      modifies this, groups, line, cursor, compLine, compCursor
      ensures Valid() && groups == old(groups) && current == old(current)
      ensures var g, x, y := groups[current], old(groups[current].posX), old(groups[current].posY);
        && g.rows == old(g.rows) && g.posX == x && g.posY == y + 1 < |g.rows| && x < |g.rows[y + 1]|
        && selected == if g.preserveEscapes then g.rows[y + 1][x].value else strip(g.rows[y + 1][x].value)
    {
      hide Replaced, T.ByteLen, HasUnique, Menus.Valid, Move;
      ghost var m := MenuOf();
      assert m.grids[current] == groups[current].View();
      MoveDown(m.grids[m.cur]);
      OnCandidateUsable(m);
      assert WithCurrent(m) == m && SelectMenu(m, 0, 1) == Advance(m, 0, 1);
      UniqueSelected(m, Offset(0, 1));
      Select(ArrowDown, 1, 0);
      assert MenuOf().grids[current] == groups[current].View();
    }

    /** One more of a run of selections. */
    method SelectNext(ghost m: Menu, ghost i: nat)
      requires Valid() && OnCandidate(MenuOf()) && (isearching || !HasUnique(MenuOf()))
      requires Menus.Valid(m) && OnCandidate(m) && MenuOf() == SelectTimes(m, 1, i)
      modifies this, groups, line, cursor, compLine, compCursor
      ensures Valid() && OnCandidate(MenuOf()) && (isearching || !HasUnique(MenuOf()))
      ensures groups == old(groups) && isearching == old(isearching) && prefix == old(prefix)
      ensures line.runes == old(line.runes) && Settled(Real()) == old(Settled(Real()))
      ensures fresh(compLine) || compLine == old(compLine)
      ensures fresh(compCursor) || compCursor == old(compCursor)
      ensures MenuOf() == SelectTimes(m, 1, i + 1) && HasCandidate(MenuOf()) && selected == ValueIn(MenuOf())
      ensures T.ByteLen(selected) >= T.ByteLen(prefix) ==>
        Completed() == Replaced(old(Settled(Real())), prefix, selected)
    {
      hide Replaced, T.ByteLen, HasUnique, SelectedIn, SelectTimes, Menus.Valid, Advance, OnCell;
      TimesOneMore(m, i);
      OnCandidateUsable(MenuOf());
      UniqueSelected(MenuOf(), Offset(1, 0));
      UniqueWithCurrent(MenuOf());
      Select(OtherKey, 1, 0);
    }

    /** Showing a candidate and then confirming it ends as accepting it outright, but
        that an empty candidate takes no prefix away. */
    method InsertThenConfirm()
      requires Valid() && cursor.InLine()
      requires var m := WithCurrent(MenuOf()); HasCandidate(m) && Fits(ValueIn(m))
      modifies this, groups, line, cursor, compLine, compCursor
      ensures Valid()
      ensures var value := old(ValueIn(WithCurrent(MenuOf())));
        && (value != "" || old(prefix) == "" ==> Real() == old(Settled(Accepted())))
        && (value != "" && value[|value| - 1] != NUL ==> Real() == old(Accepted()))
        && (value == "" ==> Real() == old(Real()))
    {
      ghost var e, value, p := Real(), ValueIn(WithCurrent(MenuOf())), prefix;
      assert Prepared(e, p, value) == e == Settled(e);
      if value != "" {
        if value[|value| - 1] != NUL { ReplacedKeepsCursor(e, p, value); }
      } else if p == "" {
        NothingReplaced(e);
      }
      assert Accepted() == Replaced(e, p, value);
      hide Replaced, WithCurrent, HasCandidate, Prepared, MarkAfter, Engine.Valid, Engine.ValueIn, Engine.Accepted;
      InsertCandidate();
      Cancel(false);
    }
  }

  /** The candidate a group gives is the one listed at its selector, or the first of the
      group if it was never used. */
  lemma {:induction false} ListedCandidate(g: Grid)
    requires Usable(g)
    ensures var i := if Unused(g) then 0 else CellIndex(g);
      i < |Flatten(g.rows)| && SelectedIn(g) == Flatten(g.rows)[i]
  {
    hide Flatten;
    if Unused(g) { CellHolds(g.rows, 0, 0); } else { CellHolds(g.rows, g.posX, g.posY); }
  }

  /** The same over the whole menu. */
  lemma {:induction false} ListedValue(m: Menu)
    requires Menus.Valid(m) && OnCandidate(m)
    ensures GroupStart(m.grids, m.cur) <= Linear(m) < GroupStart(m.grids, m.cur + 1)
    ensures |AllCandidates(m.grids)| == Total(m) > Linear(m)
    ensures SelectedIn(m.grids[m.cur]) == AllCandidates(m.grids)[Linear(m)]
  {
    CellInGroup(m.grids[m.cur]);
    SelectedIsListed(m);
  }

  lemma {:induction false} OnCandidateUsable(m: Menu)
    requires Menus.Valid(m) && OnCandidate(m)
    ensures HasCandidate(m) && WithCurrent(m) == m && SelectMenu(m, 1, 0) == Advance(m, 1, 0)
    ensures var r := SelectMenu(m, 1, 0); HasCandidate(r) && OnCandidate(r)
  {
    AdvanceKeeps(m, 1, 0);
  }

  lemma {:induction false} TimesKeep(m: Menu, n: nat)
    requires Menus.Valid(m) && OnCandidate(m)
    ensures SelectTimes(m, 1, 0) == m && SameRows(m.grids, SelectTimes(m, 1, n).grids)
  {
    SelectIndex(m, n);
  }

  lemma {:induction false} TimesOneMore(m: Menu, n: nat)
    requires Menus.Valid(m) && OnCandidate(m)
    ensures SelectTimes(m, 1, n + 1) == SelectMenu(SelectTimes(m, 1, n), 1, 0)
    decreases n
  {
    hide SelectMenu;
    if n > 0 { TimesOneMore(SelectStep(m, 1), n - 1); }
  }

  lemma {:induction false} NothingReplaced(e: Edited)
    requires 0 <= e.cursor <= |e.text|
    ensures Replaced(e, "", "") == e
  {
    assert e.text[..e.cursor] + e.text[e.cursor..] == e.text;
    assert e.text[..e.cursor] + "" + e.text[e.cursor..] == e.text;
  }

  lemma {:induction false} ReplacedKeepsCursor(e: Edited, prefix: string, value: string)
    requires value == "" || value[|value| - 1] != NUL
    ensures Settled(Replaced(e, prefix, value)) == Replaced(e, prefix, value)
  {
  }

  /** Whether a candidate is the only one does not depend on what is selected. */
  lemma {:induction false} UniqueKept(m: Menu, x: int, y: int)
    requires HasCandidate(m) && UnitStep(x, y)
    ensures var r := Advance(m, x, y); HasCandidate(r) && HasUnique(r) == HasUnique(m)
  {
    hide Advance, HasUnique;
    AdvanceKeeps(m, x, y);
    var r := Advance(m, x, y);
    GroupStartSame(m.grids, r.grids, |m.grids|);
    UniqueExactly(m);
    UniqueExactly(r);
  }

  lemma {:induction false} UniqueWithCurrent(m: Menu)
    requires Menus.Valid(m)
    ensures Menus.Valid(WithCurrent(m)) && HasUnique(WithCurrent(m)) == HasUnique(m)
  {
    hide HasUnique, FirstWithRows;
    UniqueExactly(m);
    UniqueExactly(WithCurrent(m));
  }

  lemma {:induction false} UniqueSelected(m: Menu, step: Offset)
    requires Menus.Valid(m) && UnitStep(step.row, step.column)
    ensures var r := SelectMenu(m, step.row, step.column); Menus.Valid(r) && HasUnique(r) == HasUnique(m)
  {
    hide HasUnique, Advance, FirstWithRows;
    UniqueWithCurrent(m);
    var m1 := WithCurrent(m);
    if m1.cur >= 0 && HasRows(m1.grids, m1.cur) { UniqueKept(m1, step.row, step.column); }
  }
}
