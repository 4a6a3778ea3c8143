/** The registers and the kill ring (internal/editor/buffers.go). */
module Registers {
  import opened Basics
  import opened Unicode

  const NUM_REGISTERS := 10

  // The ring as a stack ---------------------------------------------------------

  /** Push on the front, keep the first ten. */
  function Push(s: seq<string>, x: string): (r: seq<string>)
    ensures |s| <= NUM_REGISTERS ==> |r| <= NUM_REGISTERS
  {
    [x] + (if |s| < NUM_REGISTERS then s else s[..NUM_REGISTERS - 1])
  }

  /** What is done to the ring: an unselected write, a write to a register, a pop. */
  datatype Step = WriteStep(content: string) | WriteToStep(register: char, content: string) | PopStep

  /** The bounded stack that the ring is, and what it pops over a run. */
  datatype Stack = Stack(ring: seq<string>, popped: seq<string>)

  function StackStep(s: Stack, step: Step): Stack {
    match step
    case WriteStep(content) => if content != "" then s.(ring := Push(s.ring, content)) else s
    case WriteToStep(register, content) =>
      if content != "" && register == '\0' then s.(ring := Push(s.ring, content)) else s
    case PopStep => if s.ring == [] then s.(popped := s.popped + [""]) else Stack(s.ring[1..], s.popped + [s.ring[0]])
  }

  function StackRun(s: Stack, steps: seq<Step>): Stack
    decreases |steps|
  {
    if steps == [] then s else StackRun(StackStep(s, steps[0]), steps[1..])
  }

  function Writes(xs: seq<string>): seq<Step> { seq(|xs|, i requires 0 <= i < |xs| => WriteStep(xs[i])) }

  function Pops(n: nat): seq<Step> { seq(n, _ => PopStep) }

  function Reversed(xs: seq<string>): (r: seq<string>)
    ensures |r| == |xs| && forall i :: 0 <= i < |xs| ==> r[i] == xs[|xs| - 1 - i]
  {
    if xs == [] then [] else [xs[|xs| - 1]] + Reversed(xs[..|xs| - 1])
  }

  lemma {:induction false} StackRunAppend(s: Stack, a: seq<Step>, b: seq<Step>)
    ensures StackRun(s, a + b) == StackRun(StackRun(s, a), b)
    decreases |a|
  {
    hide StackStep;
    if a == [] {
      assert a + b == b;
    } else {
      assert (a + b)[1..] == a[1..] + b && (a + b)[0] == a[0];
      StackRunAppend(StackStep(s, a[0]), a[1..], b);
    }
  }

  lemma {:induction false} StackRunLast(s: Stack, a: seq<Step>, step: Step)
    ensures StackRun(s, a + [step]) == StackStep(StackRun(s, a), step)
  {
    hide StackStep;
    StackRunAppend(s, a, [step]);
    var r := StackRun(s, a);
    assert [step][1..] == [];
    assert StackRun(r, [step]) == StackRun(StackStep(r, step), []);
  }

  /** Up to ten writes leave themselves on the ring, the last first, and below them what
      there is room for. */
  lemma {:induction false} WritesStack(ring: seq<string>, xs: seq<string>, popped: seq<string>)
    requires |ring| <= NUM_REGISTERS && |xs| <= NUM_REGISTERS && forall i :: 0 <= i < |xs| ==> xs[i] != ""
    ensures StackRun(Stack(ring, popped), Writes(xs))
      == Stack(Reversed(xs) + ring[..Min(|ring|, NUM_REGISTERS - |xs|)], popped)
    decreases |xs|
  {
    if xs == [] {
      assert ring[..|ring|] == ring;
    } else {
      var before, x := xs[..|xs| - 1], xs[|xs| - 1];
      assert Writes(xs) == Writes(before) + [WriteStep(x)];
      WritesStack(ring, before, popped);
      StackRunLast(Stack(ring, popped), Writes(before), WriteStep(x));
      hide StackRun, Reversed;
      PushOnto(Reversed(before), ring, x);
      assert Reversed(xs) == [x] + Reversed(before);
    }
  }

  lemma {:induction false} PushOnto(top: seq<string>, ring: seq<string>, x: string)
    requires |top| < NUM_REGISTERS && |ring| <= NUM_REGISTERS
    ensures Push(top + ring[..Min(|ring|, NUM_REGISTERS - |top|)], x)
      == [x] + top + ring[..Min(|ring|, NUM_REGISTERS - |top| - 1)]
  {
  }

  lemma {:induction false} PopsStack(top: seq<string>, rest: seq<string>, popped: seq<string>)
    ensures StackRun(Stack(top + rest, popped), Pops(|top|)) == Stack(rest, popped + top)
    decreases |top|
  {
    if top == [] {
      assert top + rest == rest && popped + top == popped;
    } else {
      assert Pops(|top|)[1..] == Pops(|top| - 1);
      assert (top + rest)[1..] == top[1..] + rest;
      PopsStack(top[1..], rest, popped + [top[0]]);
      assert popped + [top[0]] + top[1..] == popped + top;
    }
  }

  /** Up to ten writes pop back last in, first out; what was on the ring before is still
      below, but for what there was no room for. */
  lemma {:induction false} PopsReverse(ring: seq<string>, xs: seq<string>)
    requires |ring| <= NUM_REGISTERS && |xs| <= NUM_REGISTERS && forall i :: 0 <= i < |xs| ==> xs[i] != ""
    ensures StackRun(Stack(ring, []), Writes(xs) + Pops(|xs|))
      == Stack(ring[..Min(|ring|, NUM_REGISTERS - |xs|)], Reversed(xs))
  {
    hide StackRun;
    var rest := ring[..Min(|ring|, NUM_REGISTERS - |xs|)];
    WritesStack(ring, xs, []);
    StackRunAppend(Stack(ring, []), Writes(xs), Pops(|xs|));
    PopsStack(Reversed(xs), rest, []);
    assert [] + Reversed(xs) == Reversed(xs);
  }

  lemma {:induction false} KeyCount(m: map<int, string>, n: nat)
    requires forall i :: i in m <==> 0 <= i < n
    ensures |m| == n
    decreases n
  {
    if n == 0 {
      assert forall i :: i !in m;
      assert m == map[];
    } else {
      var r := m - {n - 1};
      KeyCount(r, n - 1);
      assert m == r[n - 1 := m[n - 1]];
    }
  }

  /** Pop in progress: registers below i moved down, number i missing. */
  ghost predicate Shifted(num: map<int, string>, ring: seq<string>, i: int) {
    && 0 <= i < |ring|
    && (forall j :: j in num <==> 0 <= j < |ring| && j != i)
    && (forall j :: 0 <= j < i ==> num[j] == ring[j + 1])
    && (forall j :: i < j < |ring| ==> num[j] == ring[j])
  }

  lemma {:induction false} ShiftedSize(num: map<int, string>, ring: seq<string>, i: int)
    requires Shifted(num, ring, i)
    ensures |num| == |ring| - 1
  {
    var full := num[i := ""];
    KeyCount(full, |ring|);
    assert num.Keys == full.Keys - {i};
  }

  lemma {:induction false} ShiftStart(num: map<int, string>, ring: seq<string>)
    requires ring != [] && forall j :: j in num <==> 0 <= j < |ring|
    requires forall j :: 0 <= j < |ring| ==> num[j] == ring[j]
    ensures Shifted(num - {0}, ring, 0)
  {
  }

  lemma {:induction false} ShiftStep(num: map<int, string>, ring: seq<string>, i: int)
    requires Shifted(num, ring, i) && i + 1 < |ring|
    ensures i + 1 in num && Shifted(num[i := num[i + 1]] - {i + 1}, ring, i + 1)
  {
  }

  lemma {:induction false} ShiftDone(num: map<int, string>, ring: seq<string>)
    requires ring != [] && Shifted(num, ring, |ring| - 1)
    ensures forall j :: j in num <==> 0 <= j < |ring| - 1
    ensures forall j :: 0 <= j < |ring| - 1 ==> num[j] == ring[1..][j]
  {
  }

  /** A push in progress: registers above i moved up. */
  ghost predicate Raised(num: map<int, string>, ring: seq<string>, i: int) {
    && 0 <= i <= |ring| <= NUM_REGISTERS
    && (forall j :: j in num <==> 0 <= j < |ring| || (j == |ring| && i < |ring| < NUM_REGISTERS))
    && (forall j :: 0 <= j <= i && j < |ring| ==> num[j] == ring[j])
    && (forall j :: i < j <= |ring| && j < NUM_REGISTERS && j in num ==> num[j] == ring[j - 1])
  }

  lemma {:induction false} RaiseStart(num: map<int, string>, ring: seq<string>)
    requires |ring| <= NUM_REGISTERS
    requires forall j :: j in num <==> 0 <= j < |ring|
    requires forall j :: 0 <= j < |ring| ==> num[j] == ring[j]
    ensures Raised(num, ring, |ring|)
    ensures |ring| == NUM_REGISTERS ==> Raised(num, ring, |ring| - 1)
  {
  }

  lemma {:induction false} RaiseStep(num: map<int, string>, ring: seq<string>, i: int)
    requires 0 < i < NUM_REGISTERS && Raised(num, ring, i)
    ensures i - 1 in num && Raised(num[i := num[i - 1]], ring, i - 1)
  {
  }

  lemma {:induction false} RaiseDone(num: map<int, string>, ring: seq<string>, buf: string)
    requires Raised(num, ring, 0)
    ensures var after, pushed := num[0 := buf], Push(ring, buf);
      && |pushed| <= NUM_REGISTERS
      && (forall j :: j in after <==> 0 <= j < |pushed|)
      && (forall j :: 0 <= j < |pushed| ==> after[j] == pushed[j])
  {
  }

  datatype Atoi = Atoi(num: int, err: bool)

  /** strconv.Atoi on a string of one rune. */
  function ParseRegister(register: char): Atoi {
    if '0' <= register <= '9' then Atoi(register as int - '0' as int, false) else Atoi(0, true)
  }

  function Lookup<K>(m: map<K, string>, k: K): string {
    if k in m then m[k] else ""
  }

  /** Lettered registers after a write; a capital appends to the register named
      by the active one in lower case. */
  function AlphaWritten(u: Tables, alpha: map<char, string>, register: char, active: char, buf: string)
    : map<char, string>
  {
    if 'A' <= register <= 'Z' then
      var r := u.ToLower(active);
      alpha[r := Lookup(alpha, r) + buf]
    else alpha[register := buf]
  }

  /** The ring after a write, with a register selected or not. */
  function RingAfter(ring: seq<string>, selected: bool, active: char, content: string): seq<string> {
    if content != "" && (!selected || active == '\0') then Push(ring, content) else ring
  }

  /** The lettered registers after a write. */
  function AlphaAfter(u: Tables, alpha: map<char, string>, selected: bool, active: char, content: string)
    : map<char, string>
  {
    if content != "" && selected && active != '\0' && u.IsLetter(active)
    then AlphaWritten(u, alpha, active, active, content) else alpha
  }

  class Buffers {
    const u: Tables
    var num: map<int, string>
    var alpha: map<char, string>
    var ro: map<char, string>
    var waiting: bool
    var selected: bool
    var active: char
    ghost var ring: seq<string>  // the numbered registers, as a stack

    constructor (u: Tables)
      ensures this.u == u && Valid() && ring == [] && alpha == map[] && ro == map[]
      ensures !waiting && !selected && active == '\0'
    {
      this.u := u;
      num, alpha, ro, ring := map[], map[], map[], [];
      waiting, selected, active := false, false, '\0';
    }

    /** The numbered registers are exactly 0..n-1, n at most ten. */
    ghost predicate Valid()
      reads this
    {
      && |ring| <= NUM_REGISTERS
      && (forall i :: i in num <==> 0 <= i < |ring|)
      && (forall i :: 0 <= i < |ring| ==> num[i] == ring[i])
    }

    method SetActive(register: char)
      requires Valid()
      modifies this`active, this`waiting, this`selected
      ensures Valid() && active == register && !waiting && selected
    {
      active, waiting, selected := register, false, true;
    }

    method Reset()
      modifies this`active, this`waiting, this`selected
      ensures active == '\0' && !waiting && !selected
    {
      active, waiting, selected := '\0', false, false;
    }

    function GetKill(): (s: string)
      requires Valid()
      reads this
      ensures s == if ring == [] then "" else ring[0]
    {
      KeyCount(num, |ring|);
      if |num| == 0 then "" else num[0]
    }

    /** The digits read the ring from the newest on, and what is in no register of any kind
        reads as nothing. */
    function Get(register: char): (s: string)
      requires Valid()
      reads this
      ensures forall i :: 0 <= i < |ring| && register as int == 0x30 + i ==> s == ring[i]
      ensures '0' <= register <= '9' && register as int >= 0x30 + |ring| ==> s == ""
      ensures register == '\0' && ring != [] ==> s == ring[0]
      ensures register != '\0' && !('0' <= register <= '9') ==>
        && (register in alpha ==> s == alpha[register])
        && (register !in alpha && register in ro ==> s == ro[register])
        && (register !in alpha && register !in ro ==> s == "")
    {
      var parsed := ParseRegister(register);
      if register == '\0' then GetKill()
      else if !parsed.err then Lookup(num, parsed.num)
      else if register in alpha then alpha[register]
      else Lookup(ro, register)
    }

    method Active() returns (buf: string)
      requires Valid()
      modifies this`active, this`waiting, this`selected
      ensures Valid() && active == '\0' && !waiting && !selected
      ensures buf == if !old(waiting) && !old(selected) then old(GetKill()) else old(Get(active))
    {
      buf := if !waiting && !selected then GetKill() else Get(active);
      Reset();
    }

    /** Pop removes the head and moves every register down by one. */
    method Pop() returns (buf: string)
      requires Valid()
      modifies this`num, this`ring
      ensures Valid()
      ensures if old(ring) == [] then ring == [] && buf == ""
        else ring == old(ring)[1..] && buf == old(ring)[0]
    {
      hide Shifted;
      KeyCount(num, |ring|);
      if |num| == 0 { return ""; }
      buf := num[0];
      ShiftStart(num, ring);
      num := num - {0};
      ShiftedSize(num, ring, 0);
      var i := 0;
      while i < |num|
        invariant 0 <= i < |ring| && ring == old(ring)
        invariant Shifted(num, ring, i) && |num| == |ring| - 1
      {
        ShiftStep(num, ring, i);
        num := num[i := num[i + 1]];
        num := num - {i + 1};
        i := i + 1;
        ShiftedSize(num, ring, i);
      }
      ShiftDone(num, ring);
      ring := ring[1..];
    }

    method WriteNum(register: int, buf: string)
      requires Valid()
      modifies this`num, this`ring
      ensures register <= 0 ==> Valid() && ring == Push(old(ring), buf)
      ensures register > NUM_REGISTERS - 1 ==> num == old(num) && ring == old(ring)
      ensures 0 < register < NUM_REGISTERS ==> num == old(num)[register := buf] && ring == old(ring)
    {
      hide Raised, Push;
      if register > NUM_REGISTERS - 1 { return; }
      if register > 0 {
        num := num[register := buf];
        return;
      }
      KeyCount(num, |ring|);
      var i := |num|;
      RaiseStart(num, ring);
      while i > 0
        invariant 0 <= i <= |ring| && ring == old(ring)
        invariant Raised(num, ring, if i == NUM_REGISTERS then i - 1 else i)
      {
        if i == NUM_REGISTERS { i := i - 1; }
        RaiseStep(num, ring, i);
        num := num[i := num[i - 1]];
        i := i - 1;
      }
      RaiseDone(num, ring, buf);
      num := num[0 := buf];
      ring := Push(ring, buf);
    }

    method WriteAlpha(register: char, buf: string)
      requires Valid()
      modifies this`alpha
      ensures Valid() && alpha == AlphaWritten(u, old(alpha), register, active, buf)
    {
      if 'A' <= register <= 'Z' {
        var r := u.ToLower(active);
        if r in alpha {
          alpha := alpha[r := alpha[r] + buf];
        } else {
          assert "" + buf == buf;
          alpha := alpha[r := buf];
        }
      } else {
        alpha := alpha[register := buf];
      }
    }

    /** A write to a digit's register goes nowhere: the test on the parsed number
        asks for a parse error as well. */
    method WriteTo(register: char, content: string)
      requires Valid()
      modifies this`num, this`ring, this`alpha
      ensures Valid()
      ensures ring == if content != "" && register == '\0' then Push(old(ring), content) else old(ring)
      ensures alpha == if content != "" && register != '\0' && u.IsLetter(register)
        then AlphaWritten(u, old(alpha), register, active, content) else old(alpha)
    {
      if content == "" { return; }
      if register == '\0' {
        WriteNum(0, content);
        return;
      }
      var parsed := ParseRegister(register);
      if 0 < parsed.num < 10 && parsed.err {
        assert false;  // so writeNum is never reached with a digit's register
      }
      if u.IsLetter(register) {
        WriteAlpha(register, content);
      }
    }

    /** An unselected write pushes on the ring; a selected one goes to the active
        register. Either way no register is active afterwards. */
    method Write(content: string)
      requires Valid()
      modifies this
      ensures Valid() && active == '\0' && !waiting && !selected && ro == old(ro)
      ensures ring == RingAfter(old(ring), old(selected), old(active), content)
      ensures alpha == AlphaAfter(u, old(alpha), old(selected), old(active), content)
    {
      if content != "" {
        if selected {
          WriteTo(active, content);
        } else {
          WriteNum(-1, content);
        }
      }
      Reset();
    }

    /** Over any run of writes and pops with no register selected, the ring is the bounded
        stack. */
    method Perform(steps: seq<Step>) returns (popped: seq<string>)
      requires Valid() && !selected
      modifies this
      ensures Valid() && !selected && Stack(ring, popped) == StackRun(Stack(old(ring), []), steps)
    {
      hide StackRun, AlphaAfter, AlphaWritten;
      popped := [];
      StackRunNone(Stack(ring, []));
      for i := 0 to |steps|
        invariant Valid() && !selected && Stack(ring, popped) == StackRun(Stack(old(ring), []), steps[..i])
      {
        assert steps[..i + 1] == steps[..i] + [steps[i]];
        StackRunLast(Stack(old(ring), []), steps[..i], steps[i]);
        match steps[i]
        case WriteStep(content) => Write(content);
        case WriteToStep(register, content) => WriteTo(register, content);
        case PopStep =>
          var buf := Pop();
          popped := popped + [buf];
      }
      assert steps[..|steps|] == steps;
    }

    /** After some writes with no register selected, the register of digit i holds the one
        i writes back. */
    method WriteAllThenRead(xs: seq<string>, i: nat) returns (got: string)
      requires Valid() && !selected && i < |xs| <= NUM_REGISTERS && forall j :: 0 <= j < |xs| ==> xs[j] != ""
      modifies this
      ensures Valid() && got == Get((0x30 + i) as char) == xs[|xs| - 1 - i]
    {
      hide StackRun, Writes;
      WritesStack(ring, xs, []);
      var _ := Perform(Writes(xs));
      got := Get((0x30 + i) as char);
    }

    /** What is written to a selected register is read from it again exactly when that is
        the ring, or a letter outside of A to Z. Any other register reads as before. */
    method WriteThenRead(register: char, content: string) returns (got: string)
      requires Valid() && content != ""
      modifies this
      ensures Valid()
      ensures got == Get(register) == (
        if register == '\0' || (u.IsLetter(register) && !('A' <= register <= 'Z')) then content
        else old(Get(register)))
      ensures 'A' <= register <= 'Z' ==>
        Get(u.ToLower(register)) == old(Lookup(alpha, u.ToLower(register))) + content
    {
      SetActive(register);
      Write(content);
      got := Get(register);
    }
  }

  lemma {:induction false} StackRunNone(s: Stack)
    ensures StackRun(s, []) == s
  {
  }

  /** Text written to the register 1 is lost. */
  method DigitLost(u: Tables) returns (got: string)
    ensures got == ""
  {
    var buffers := new Buffers(u);
    got := buffers.WriteThenRead('1', "x");
  }
}
