/** Cycling through the candidates of several groups (internal/completion/engine.go
    and internal/completion/utils.go). */
module Menus {
  import opened Grids

  /** cur is the group flagged as current, -1 if none is. */
  datatype Menu = Menu(grids: seq<Grid>, cur: int)

  predicate HasRows(grids: seq<Grid>, i: int)
    requires 0 <= i < |grids|
  {
    |grids[i].rows| > 0
  }

  predicate AllWellFormed(grids: seq<Grid>) {
    forall i :: 0 <= i < |grids| ==> WellFormed(grids[i])
  }

  predicate Valid(m: Menu) {
    && -1 <= m.cur < |m.grids|
    && AllWellFormed(m.grids)
    && (m.cur >= 0 && HasRows(m.grids, m.cur) ==> Usable(m.grids[m.cur]))
    && (m.cur == -1 ==> forall i :: 0 <= i < |m.grids| && HasRows(m.grids, i) ==> Usable(m.grids[i]))
  }

  /** The first group from i on that has candidates; the number of groups if none. */
  function FirstWithRows(m: Menu, i: nat): (k: nat)
    requires i <= |m.grids|
    ensures i <= k <= |m.grids| && (k < |m.grids| ==> HasRows(m.grids, k))
    ensures forall j :: i <= j < k ==> !HasRows(m.grids, j)
    decreases |m.grids| - i
  {
    if i < |m.grids| && !HasRows(m.grids, i) then FirstWithRows(m, i + 1) else i
  }

  /** currentGroup flags the first group with candidates when no group is flagged. */
  function WithCurrent(m: Menu): Menu
    requires Valid(m)
  {
    var k := FirstWithRows(m, 0);
    if m.cur >= 0 || k == |m.grids| then m else m.(cur := k)
  }

  function Succ(n: nat, i: int): (j: int)
    requires 0 <= i < n
    ensures 0 <= j < n
  {
    if i == n - 1 then 0 else i + 1
  }

  function Pred(n: nat, i: int): (j: int)
    requires 0 <= i < n
    ensures 0 <= j < n
  {
    if i == 0 then n - 1 else i - 1
  }

  /** Steps from i to k going round. */
  function Distance(n: nat, i: int, k: int, forward: bool): nat
    requires 0 <= i < n && 0 <= k < n
  {
    if forward then (if k >= i then k - i else n - i + k)
    else (if i >= k then i - k else i + n - k)
  }

  /** The first group with candidates from i on, going round; there is one, k. */
  function Seek(grids: seq<Grid>, i: int, k: int, forward: bool): (r: int)
    requires 0 <= i < |grids| && 0 <= k < |grids| && HasRows(grids, k)
    ensures 0 <= r < |grids| && HasRows(grids, r)
    decreases Distance(|grids|, i, k, forward)
  {
    if HasRows(grids, i) then i
    else Seek(grids, if forward then Succ(|grids|, i) else Pred(|grids|, i), k, forward)
  }

  /** cycleNextGroup and cyclePreviousGroup. */
  function Cycle(m: Menu, k: int, forward: bool): Menu
    requires 0 <= m.cur < |m.grids| && 0 <= k < |m.grids| && HasRows(m.grids, k)
  {
    var n := |m.grids|;
    m.(cur := Seek(m.grids, if forward then Succ(n, m.cur) else Pred(n, m.cur), k, forward))
  }

  function SetGrid(m: Menu, i: int, g: Grid): Menu
    requires 0 <= i < |m.grids|
  {
    m.(grids := m.grids[i := g])
  }

  /** On to the first cell of the next group with candidates, or to the last cell of
      the previous one. */
  function Cross(m: Menu, k: int, next: bool): Menu
    requires 0 <= m.cur < |m.grids| && 0 <= k < |m.grids| && HasRows(m.grids, k)
  {
    var m1 := Cycle(m, k, next);
    var g := m1.grids[m1.cur];
    SetGrid(m1, m1.cur, if next then FirstCell(g) else LastCell(g))
  }

  /** The selector's part of Select, once the current group is known to have rows. */
  function Advance(m: Menu, x: int, y: int): Menu
    requires Valid(m) && m.cur >= 0 && HasRows(m.grids, m.cur) && UnitStep(x, y)
  {
    var moved := Move(m.grids[m.cur], x, y);
    var m1 := SetGrid(m, m.cur, moved.g);
    if !moved.done then m1
    else
      assert HasRows(m1.grids, m.cur);
      Cross(m1, m.cur, moved.next)
  }

  function SelectMenu(m: Menu, x: int, y: int): Menu
    requires Valid(m) && UnitStep(x, y)
  {
    var m1 := WithCurrent(m);
    if m1.cur == -1 || !HasRows(m1.grids, m1.cur) then m1 else Advance(m1, x, y)
  }

  // A linear order of all cells -----------------------------------------------------

  function GroupStart(grids: seq<Grid>, i: int): nat
    requires 0 <= i <= |grids|
  {
    if i == 0 then 0 else GroupStart(grids, i - 1) + Count(grids[i - 1])
  }

  function Total(m: Menu): nat { GroupStart(m.grids, |m.grids|) }

  predicate OnCandidate(m: Menu) {
    0 <= m.cur < |m.grids| && OnCell(m.grids[m.cur])
  }

  function Linear(m: Menu): nat
    requires OnCandidate(m)
  {
    GroupStart(m.grids, m.cur) + CellIndex(m.grids[m.cur])
  }

  function AllCandidates(grids: seq<Grid>): seq<Candidate> {
    if grids == [] then [] else AllCandidates(grids[..|grids| - 1]) + Flatten(grids[|grids| - 1].rows)
  }

  function Selected(m: Menu): Candidate
    requires OnCandidate(m)
  {
    m.grids[m.cur].rows[m.grids[m.cur].posY][m.grids[m.cur].posX]
  }

  predicate SameRows(a: seq<Grid>, b: seq<Grid>) {
    |a| == |b| && forall i :: 0 <= i < |a| ==> a[i].rows == b[i].rows
  }

  lemma {:induction false} GroupStartSame(a: seq<Grid>, b: seq<Grid>, i: int)
    requires SameRows(a, b) && 0 <= i <= |a|
    ensures GroupStart(a, i) == GroupStart(b, i)
    decreases i
  {
    if i > 0 { GroupStartSame(a, b, i - 1); }
  }

  lemma {:induction false} GroupStartMonotone(grids: seq<Grid>, i: int, j: int)
    requires 0 <= i <= j <= |grids|
    ensures GroupStart(grids, i) <= GroupStart(grids, j)
    decreases j
  {
    if i < j { GroupStartMonotone(grids, i, j - 1); }
  }

  lemma {:induction false} LinearInRange(m: Menu)
    requires OnCandidate(m)
    ensures Linear(m) < Total(m)
  {
    CellInGroup(m.grids[m.cur]);
    GroupStartMonotone(m.grids, m.cur + 1, |m.grids|);
  }

  /** No two candidates have the same number. */
  lemma {:induction false} LinearInjective(a: Menu, b: Menu)
    requires OnCandidate(a) && OnCandidate(b) && SameRows(a.grids, b.grids) && Linear(a) == Linear(b)
    ensures a.cur == b.cur
    ensures a.grids[a.cur].posX == b.grids[b.cur].posX && a.grids[a.cur].posY == b.grids[b.cur].posY
  {
    CellInGroup(a.grids[a.cur]);
    CellInGroup(b.grids[b.cur]);
    GroupStartSame(a.grids, b.grids, a.cur);
    GroupStartSame(a.grids, b.grids, b.cur);
    if a.cur < b.cur {
      GroupStartSame(a.grids, b.grids, a.cur + 1);
      GroupStartMonotone(b.grids, a.cur + 1, b.cur);
    } else if b.cur < a.cur {
      GroupStartSame(a.grids, b.grids, b.cur + 1);
      GroupStartMonotone(a.grids, b.cur + 1, a.cur);
    } else {
      CellIndexInjective(a.grids[a.cur], b.grids[b.cur]);
    }
  }

  /** The selected candidate is the one listed at the selector's number. */
  lemma {:induction false} SelectedIsListed(m: Menu)
    requires OnCandidate(m)
    ensures |AllCandidates(m.grids)| == Total(m)
    ensures Linear(m) < |AllCandidates(m.grids)| && AllCandidates(m.grids)[Linear(m)] == Selected(m)
  {
    var g := m.grids[m.cur];
    CellHolds(g.rows, g.posX, g.posY);
    AllCandidatesAt(m.grids, m.cur, CellIndex(g));
  }

  lemma {:induction false} AllCandidatesAt(grids: seq<Grid>, i: int, c: nat)
    requires 0 <= i < |grids| && c < Count(grids[i])
    ensures |AllCandidates(grids)| == GroupStart(grids, |grids|)
    ensures GroupStart(grids, i) + c < |AllCandidates(grids)|
    ensures c < |Flatten(grids[i].rows)| && AllCandidates(grids)[GroupStart(grids, i) + c] == Flatten(grids[i].rows)[c]
    decreases |grids|
  {
    var r := grids[..|grids| - 1];
    AllCandidatesSize(r);
    GroupStartPrefix(grids, |r|);
    FlattenSize(grids[|r|].rows);
    FlattenSize(grids[i].rows);
    if i < |r| {
      GroupStartPrefix(grids, i);
      AllCandidatesAt(r, i, c);
    }
  }

  lemma {:induction false} AllCandidatesSize(grids: seq<Grid>)
    ensures |AllCandidates(grids)| == GroupStart(grids, |grids|)
    decreases |grids|
  {
    if grids != [] {
      AllCandidatesSize(grids[..|grids| - 1]);
      GroupStartPrefix(grids, |grids| - 1);
      FlattenSize(grids[|grids| - 1].rows);
    }
  }

  lemma {:induction false} GroupStartPrefix(grids: seq<Grid>, i: int)
    requires 0 <= i < |grids|
    ensures GroupStart(grids[..|grids| - 1], i) == GroupStart(grids, i)
    decreases i
  {
    if i > 0 { GroupStartPrefix(grids, i - 1); }
  }

  // One step ------------------------------------------------------------------------

  /** Going on from group i, no candidate is skipped before the group reached. */
  lemma {:induction false} SeekForward(m: Menu, i: int, k: int)
    requires 0 <= i < |m.grids| && 0 <= k < |m.grids| && HasRows(m.grids, k)
    ensures var r := Seek(m.grids, i, k, true);
      || (i <= r && GroupStart(m.grids, r) == GroupStart(m.grids, i))
      || (r < i && GroupStart(m.grids, i) == Total(m) && GroupStart(m.grids, r) == 0)
    decreases Distance(|m.grids|, i, k, true)
  {
    if !HasRows(m.grids, i) {
      assert Count(m.grids[i]) == 0;
      assert GroupStart(m.grids, i + 1) == GroupStart(m.grids, i);
      assert GroupStart(m.grids, 0) == 0 && GroupStart(m.grids, |m.grids|) == Total(m);
      var r := Seek(m.grids, i, k, true);
      assert r == Seek(m.grids, Succ(|m.grids|, i), k, true);
      hide GroupStart, Seek, Count;
      SeekForward(m, Succ(|m.grids|, i), k);
    }
  }

  lemma {:induction false} SeekBackward(m: Menu, i: int, k: int)
    requires 0 <= i < |m.grids| && 0 <= k < |m.grids| && HasRows(m.grids, k)
    ensures var r := Seek(m.grids, i, k, false);
      || (r <= i && GroupStart(m.grids, r + 1) == GroupStart(m.grids, i + 1))
      || (i < r && GroupStart(m.grids, i + 1) == 0 && GroupStart(m.grids, r + 1) == Total(m))
    decreases Distance(|m.grids|, i, k, false)
  {
    if !HasRows(m.grids, i) {
      assert Count(m.grids[i]) == 0;
      assert GroupStart(m.grids, i + 1) == GroupStart(m.grids, i);
      assert i == 0 ==> GroupStart(m.grids, i) == 0;
      var r := Seek(m.grids, i, k, false);
      assert r == Seek(m.grids, Pred(|m.grids|, i), k, false);
      hide GroupStart, Seek, Count;
      SeekBackward(m, Pred(|m.grids|, i), k);
    }
  }

  /** Any step of the menu, along a row or across rows, keeps the rows and lands on a
      candidate. */
  lemma {:induction false} AdvanceKeeps(m: Menu, x: int, y: int)
    requires Valid(m) && m.cur >= 0 && HasRows(m.grids, m.cur) && UnitStep(x, y)
    ensures var r := Advance(m, x, y);
      Valid(r) && r.cur >= 0 && HasRows(r.grids, r.cur) && OnCandidate(r) && SameRows(m.grids, r.grids)
  {
    MoveOnCell(m.grids[m.cur], x, y);
    var moved := Move(m.grids[m.cur], x, y);
    hide Move;
    var m1 := SetGrid(m, m.cur, moved.g);
    SetGridKeeps(m, m.cur, moved.g);
    if moved.done {
      var m2 := Cycle(m1, m.cur, moved.next);
      var g := m2.grids[m2.cur];
      EndCells(g);
      SetGridKeeps(m2, m2.cur, if moved.next then FirstCell(g) else LastCell(g));
    }
  }

  lemma {:induction false} SetGridKeeps(m: Menu, i: int, g: Grid)
    requires AllWellFormed(m.grids) && 0 <= i < |m.grids|
    requires g.rows == m.grids[i].rows && g.maxX == m.grids[i].maxX && g.maxY == m.grids[i].maxY
    ensures AllWellFormed(SetGrid(m, i, g).grids) && SameRows(m.grids, SetGrid(m, i, g).grids)
  {
  }

  lemma {:induction false} AdvanceWithin(m: Menu, x: int)
    requires Valid(m) && OnCandidate(m) && (x == 1 || x == -1)
    requires !Move(m.grids[m.cur], x, 0).done
    ensures var r := Advance(m, x, 0);
      OnCandidate(r) && Linear(r) == Linear(m) + x && Linear(r) < Total(m)
  {
    var g := m.grids[m.cur];
    MoveByCells(g, x);
    var r := SetGrid(m, m.cur, Move(g, x, 0).g);
    hide Move;
    assert Advance(m, x, 0) == r && SameRows(m.grids, r.grids);
    GroupStartSame(m.grids, r.grids, m.cur);
    GroupStartSame(m.grids, r.grids, |m.grids|);
    LinearInRange(r);
  }

  lemma {:induction false} AdvanceAcross(m: Menu, x: int)
    requires Valid(m) && OnCandidate(m) && (x == 1 || x == -1)
    requires Move(m.grids[m.cur], x, 0).done
    ensures var r := Advance(m, x, 0);
      OnCandidate(r) && Linear(r) ==
        if x == 1 then (if Linear(m) == Total(m) - 1 then 0 else Linear(m) + 1)
        else (if Linear(m) == 0 then Total(m) - 1 else Linear(m) - 1)
  {
    var g, r := m.grids[m.cur], Advance(m, x, 0);
    MoveByCells(g, x);
    AdvanceKeeps(m, x, 0);
    var moved := Move(g, x, 0);
    hide Move;
    var m1 := SetGrid(m, m.cur, moved.g);
    GroupStartSame(m.grids, r.grids, r.cur);
    EndCells(m1.grids[r.cur]);
    assert AllWellFormed(m.grids) && SameRows(m.grids, m1.grids);
    if x == 1 { AdvanceToNext(m, m1, r.cur); } else { AdvanceToPrevious(m, m1, r.cur); }
  }

  /** From candidate number p, Select(1, 0) goes to number p + 1 and Select(-1, 0)
      to p - 1, round and round. */
  lemma {:induction false} AdvanceByOne(m: Menu, x: int)
    requires Valid(m) && OnCandidate(m) && (x == 1 || x == -1)
    ensures var r, p, n := SelectMenu(m, x, 0), Linear(m), Total(m);
      && Valid(r) && OnCandidate(r) && SameRows(m.grids, r.grids) && Total(r) == n
      && p < n
      && Linear(r) == (if x == 1 then (if p == n - 1 then 0 else p + 1) else (if p == 0 then n - 1 else p - 1))
  {
    assert SelectMenu(m, x, 0) == Advance(m, x, 0);
    hide Advance, SelectMenu;
    AdvanceKeeps(m, x, 0);
    LinearInRange(m);
    GroupStartSame(m.grids, Advance(m, x, 0).grids, |m.grids|);
    if Move(m.grids[m.cur], x, 0).done {
      AdvanceAcross(m, x);
    } else {
      AdvanceWithin(m, x);
    }
  }

  lemma {:induction false} AdvanceToNext(m: Menu, m1: Menu, r: int)
    requires 0 <= m.cur < |m.grids| && SameRows(m.grids, m1.grids) && AllWellFormed(m.grids) && HasRows(m1.grids, m.cur)
    requires r == Seek(m1.grids, Succ(|m.grids|, m.cur), m.cur, true)
    ensures GroupStart(m.grids, r) ==
      if GroupStart(m.grids, m.cur + 1) == Total(m) then 0 else GroupStart(m.grids, m.cur + 1)
  {
    var n := |m.grids|;
    SeekForward(m1, Succ(n, m.cur), m.cur);
    GroupStartSame(m.grids, m1.grids, r);
    GroupStartSame(m.grids, m1.grids, Succ(n, m.cur));
    GroupStartSame(m.grids, m1.grids, n);
    CountPositive(m.grids[r]);
    GroupStartMonotone(m.grids, r + 1, n);
  }

  lemma {:induction false} AdvanceToPrevious(m: Menu, m1: Menu, r: int)
    requires 0 <= m.cur < |m.grids| && SameRows(m.grids, m1.grids) && AllWellFormed(m.grids) && HasRows(m1.grids, m.cur)
    requires r == Seek(m1.grids, Pred(|m.grids|, m.cur), m.cur, false)
    ensures GroupStart(m.grids, r + 1) ==
      if GroupStart(m.grids, m.cur) == 0 then Total(m) else GroupStart(m.grids, m.cur)
  {
    var n := |m.grids|;
    SeekBackward(m1, Pred(n, m.cur), m.cur);
    GroupStartSame(m.grids, m1.grids, r + 1);
    GroupStartSame(m.grids, m1.grids, Pred(n, m.cur) + 1);
    GroupStartSame(m.grids, m1.grids, n);
    CountPositive(m.grids[r]);
  }

  lemma {:induction false} CountPositive(g: Grid)
    requires WellFormed(g) && |g.rows| > 0
    ensures Count(g) > 0
  {
    RowStartMonotone(g.rows, 1, |g.rows|);
  }

  // Runs ----------------------------------------------------------------------------------

  /** Select(x, 0) in a menu that is on a candidate. */
  function SelectStep(m: Menu, x: int): (r: Menu)
    requires Valid(m) && OnCandidate(m) && (x == 1 || x == -1)
    ensures Valid(r) && OnCandidate(r)
  {
    AdvanceByOne(m, x);
    SelectMenu(m, x, 0)
  }

  function SelectTimes(m: Menu, x: int, n: nat): (r: Menu)
    requires Valid(m) && OnCandidate(m) && (x == 1 || x == -1)
    ensures Valid(r) && OnCandidate(r)
    decreases n
  {
    if n == 0 then m else SelectTimes(SelectStep(m, x), x, n - 1)
  }

  /** From candidate number p, the n-th selection is number p + n, modulo the total:
      every candidate of every group once a round, in the order listed. */
  lemma {:induction false} SelectVisitsAll(m: Menu, n: nat)
    requires Valid(m) && OnCandidate(m)
    ensures var r, total := SelectTimes(m, 1, n), |AllCandidates(m.grids)|;
      && total == Total(m) > 0
      && Linear(r) == (Linear(m) + n) % total
      && Selected(r) == AllCandidates(m.grids)[(Linear(m) + n) % total]
      && (n % total == 0 ==> r.cur == m.cur && r.grids[r.cur].posX == m.grids[m.cur].posX
                             && r.grids[r.cur].posY == m.grids[m.cur].posY)
    decreases n
  {
    hide SelectStep;
    var r := SelectTimes(m, 1, n);
    SelectedIsListed(m);
    SelectIndex(m, n);
    SelectedIsListed(r);
    AllCandidatesSame(m.grids, r.grids);
    LinearInRange(m);
    if n % Total(m) == 0 {
      AddMultiple(Linear(m), n, Total(m));
      LinearInjective(r, m);
    }
  }

  lemma {:induction false} AddMultiple(p: nat, n: nat, total: nat)
    requires p < total && n % total == 0
    ensures (p + n) % total == p
  {
    var q := n / total;
    assert p + n == p + q * total;
    ModUnique(p + n, q, p, total);
  }

  lemma {:induction false} ModUnique(a: int, q: int, r: int, d: int)
    requires d > 0 && 0 <= r < d && a == q * d + r
    ensures a % d == r
  {
    var x := a / d - q;
    assert x * d == (a / d) * d - q * d;
    assert -d < x * d < d;
    assert x == 0 by { SmallMultiple(x, d); }
  }

  lemma {:induction false} SmallMultiple(x: int, d: int)
    requires d > 0 && -d < x * d < d
    ensures x == 0
  {
  }

  lemma {:induction false} SelectIndex(m: Menu, n: nat)
    requires Valid(m) && OnCandidate(m)
    ensures var r := SelectTimes(m, 1, n);
      && Total(m) > 0 && SameRows(m.grids, r.grids)
      && Linear(r) == (Linear(m) + n) % Total(m)
    decreases n
  {
    hide SelectMenu;
    LinearInRange(m);
    if n == 0 {
      ModUnique(Linear(m), 0, Linear(m), Total(m));
    } else {
      AdvanceByOne(m, 1);
      var next := SelectStep(m, 1);
      SelectIndex(next, n - 1);
      WrapAdd(Linear(m), n - 1, Total(m));
    }
  }

  lemma {:induction false} WrapAdd(p: nat, n: nat, total: nat)
    requires p < total
    ensures ((if p == total - 1 then 0 else p + 1) + n) % total == (p + n + 1) % total
  {
    if p == total - 1 {
      var q, r := n / total, n % total;
      ModUnique(n, q, r, total);
      assert p + n + 1 == (q + 1) * total + r;
      ModUnique(p + n + 1, q + 1, r, total);
    }
  }

  lemma {:induction false} AllCandidatesSame(a: seq<Grid>, b: seq<Grid>)
    requires SameRows(a, b)
    ensures AllCandidates(a) == AllCandidates(b)
    decreases |a|
  {
    if a != [] { AllCandidatesSame(a[..|a| - 1], b[..|b| - 1]); }
  }

  /** Selecting back undoes selecting on, and the other way round. */
  lemma {:induction false} SelectBackUndoes(m: Menu, x: int)
    requires Valid(m) && OnCandidate(m) && (x == 1 || x == -1)
    ensures var r := SelectStep(SelectStep(m, x), -x);
      && r.cur == m.cur
      && r.grids[r.cur].posX == m.grids[m.cur].posX && r.grids[r.cur].posY == m.grids[m.cur].posY
  {
    hide SelectMenu;
    AdvanceByOne(m, x);
    var a := SelectStep(m, x);
    AdvanceByOne(a, -x);
    LinearInjective(SelectStep(a, -x), m);
  }

  /** A first selection in a fresh menu takes the first candidate of all. */
  lemma {:induction false} FirstSelection(m: Menu)
    requires Valid(m) && m.cur == -1 && Total(m) > 0
    requires forall i :: 0 <= i < |m.grids| ==> Unused(m.grids[i])
    ensures var r := SelectMenu(m, 1, 0); Valid(r) && OnCandidate(r) && Linear(r) == 0
  {
    var k := FirstWithRows(m, 0);
    forall i | 0 <= i < k ensures |m.grids[i].rows| == 0 { assert !HasRows(m.grids, i); }
    EmptyStart(m.grids, k);
    if k < |m.grids| {
      var m1 := WithCurrent(m);
      MoveByCells(m1.grids[k], 1);
      EndCells(m1.grids[k]);
      AdvanceKeeps(m1, 1, 0);
      var r := Advance(m1, 1, 0);
      GroupStartSame(m.grids, r.grids, k);
    }
  }

  lemma {:induction false} EmptyStart(grids: seq<Grid>, k: int)
    requires 0 <= k <= |grids| && forall i :: 0 <= i < k ==> |grids[i].rows| == 0
    ensures GroupStart(grids, k) == 0
    decreases k
  {
    if k > 0 { EmptyStart(grids, k - 1); }
  }

  // One candidate only ------------------------------------------------------------------------

  /** hasUniqueCandidate: with several groups it counts a row as one more. */
  function RowsAndCells(grids: seq<Grid>): nat {
    if grids == [] then 0
    else
      var last := grids[|grids| - 1];
      RowsAndCells(grids[..|grids| - 1]) + |last.rows| + Count(last)
  }

  predicate HasUnique(m: Menu)
    requires Valid(m)
  {
    if |m.grids| == 0 then false
    else if |m.grids| == 1 then
      var c := WithCurrent(m).cur;
      c >= 0 && |m.grids[c].rows| == 1 && |m.grids[c].rows[0]| == 1
    else RowsAndCells(m.grids) == 1
  }

  /** A candidate is taken for the only one just when it is, and its group too is the
      only one. */
  lemma {:induction false} UniqueExactly(m: Menu)
    requires Valid(m)
    ensures HasUnique(m) <==> |m.grids| == 1 && Total(m) == 1
  {
    if |m.grids| == 1 {
      var g := m.grids[0];
      assert Total(m) == GroupStart(m.grids, 0) + Count(g);
      CellsAtLeastRows(g);
      assert |g.rows| == 1 ==> Count(g) == RowStart(g.rows, 0) + |g.rows[0]|;
    } else {
      NeverOne(m.grids);
    }
  }

  lemma {:induction false} CellsAtLeastRows(g: Grid)
    requires WellFormed(g)
    ensures Count(g) >= |g.rows|
  {
    RowStartAtLeast(g, |g.rows|);
  }

  lemma {:induction false} RowStartAtLeast(g: Grid, y: int)
    requires WellFormed(g) && 0 <= y <= |g.rows|
    ensures RowStart(g.rows, y) >= y
    decreases y
  {
    if y > 0 { RowStartAtLeast(g, y - 1); }
  }

  lemma {:induction false} NeverOne(grids: seq<Grid>)
    requires AllWellFormed(grids)
    ensures RowsAndCells(grids) != 1
    decreases |grids|
  {
    if grids != [] {
      NeverOne(grids[..|grids| - 1]);
      CellsAtLeastRows(grids[|grids| - 1]);
    }
  }
}
