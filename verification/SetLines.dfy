/** What the line reader makes of set directives and of key names: the lines that
    dump-variables prints, a directive without a value, modifiers in any order
    (inputrc/parse.go, emacs.go). */
module SetLines {
  import opened Basics
  import opened Unicode
  import opened Inputrc
  import opened BindLines

  // Dumped variables -----------------------------------------------------------------

  function SetLine(name: string, value: string): string { "set " + name + " " + value }

  predicate IsSymbol(u: Tables, s: string) {
    |s| >= 2 && forall i :: 1 <= i < |s| ==> !Stops(u, s[i], false)
  }

  predicate ReadableName(u: Tables, name: string) {
    IsSymbol(u, name) && !u.IsSpace(name[0])
  }

  /** The first rune of a value is taken for a quote, whatever it is: if it occurs again
      unescaped the value ends there. */
  predicate ReadableValue(u: Tables, value: string) {
    && value != "" && !u.IsSpace(value[0])
    && match CloseAt(value, value[0], 1)
       case Some(k) => k + 1 == |value|
       case None => IsSymbol(u, value)
  }

  /** Up to where a value is read. */
  function ValueEnd(u: Tables, value: string): (n: nat)
    requires value != ""
    ensures n <= |value|
  {
    match CloseAt(value, value[0], 1)
    case Some(k) => k + 1
    case None => SymbolEnd(u, value, 0, false)
  }

  lemma {:induction false} ReadableValueEnds(u: Tables, value: string)
    requires value != "" && !u.IsSpace(value[0])
    ensures ReadableValue(u, value) <==> ValueEnd(u, value) == |value|
  {
    hide CloseAt;
  }

  /** How a printed variable with a readable name is read. */
  lemma {:induction false} SetLineReads(u: Tables, name: string, value: string)
    requires ReadableName(u, name) && value != "" && !u.IsSpace(value[0])
    ensures Read(u, SetLine(name, value), 0) == Statement(name, value[..ValueEnd(u, value)], TokenSet)
  {
    assert name != "";
    hide CloseAt, SymbolEnd, ReadableName, SetLine, Read;
    var line := SetLine(name, value);
    SetLineParts(u, name, value);
    NameReadsBack(u, line, name);
    ValueReads(u, line, 4 + |name| + 1, name, value);
  }

  lemma {:induction false} ValueReads(u: Tables, line: string, b: nat, name: string, value: string)
    requires value != "" && !u.IsSpace(value[0])
    requires 5 <= b < |line| && line[b - 1] == ' ' && line[b..] == value && line[4..b - 1] == name
    requires NonSpace(u, line, 4) == 4 && SymbolEnd(u, line, 4, false) == b - 1
    ensures ReadSymbols(u, line, 4, TokenSet, true) == Statement(name, value[..ValueEnd(u, value)], TokenSet)
  {
    hide CloseAt, SymbolEnd;
    assert line[b] == value[0];
    NonSpaceAfter(u, line, b - 1);
    NonSpaceAfter(u, line, b);
    CloseAtShift(line, b, value, value[0], 1);
    SymbolShift(u, line, b, value);
    hide NonSpace;
    var n := ValueEnd(u, value);
    assert line[b..b + n] == value[..n];
  }

  lemma {:induction false} SetLineParts(u: Tables, name: string, value: string)
    ensures var line, e := SetLine(name, value), 4 + |name|;
      && |line| == e + 1 + |value| && line[4..e] == name && line[e] == ' ' && line[e + 1..] == value
      && (value != "" ==> line[e + 1] == value[0])
      && NonSpace(u, line, 0) == 0 && Read(u, line, 0) == ReadSymbols(u, line, 4, TokenSet, true)
  {
    hide ReadSymbols;
    var line := SetLine(name, value);
    NonSpaceAfter(u, line, 0);
    assert IsSetDirective(u, line, 0);
  }

  /** A name that is read back from before this value. An empty name is read where the
      value begins, and comes out empty before a value that is no symbol. */
  predicate NameFits(u: Tables, name: string, value: string) {
    if name == "" then value != "" && SymbolEnd(u, value, 0, false) == 0 else ReadableName(u, name)
  }

  /** The printed variable is read back as the same name and value exactly when both
      are readable. */
  lemma {:induction false} SetLineRoundTrip(u: Tables, name: string, value: string)
    ensures var line := SetLine(name, value);
      && NonSpace(u, line, 0) == 0
      && (Read(u, line, 0) == Statement(name, value, TokenSet)
          <==> NameFits(u, name, value) && ReadableValue(u, value))
  {
    var line := SetLine(name, value);
    SetLineParts(u, name, value);
    if name == "" {
      EmptyName(u, line, value);
    } else {
      NameReadsBack(u, line, name);
      if ReadableName(u, name) && value != "" && !u.IsSpace(value[0]) {
        SetLineReads(u, name, value);
        ReadableValueEnds(u, value);
      } else if ReadableName(u, name) {
        BlankValue(u, line, name, value);
      }
    }
  }

  lemma {:induction false} EmptyName(u: Tables, line: string, value: string)
    requires |line| == 5 + |value| && line[4] == ' ' && line[5..] == value
    ensures ReadSymbols(u, line, 4, TokenSet, true) == Statement("", value, TokenSet)
      <==> NameFits(u, "", value) && ReadableValue(u, value)
  {
    hide CloseAt, SymbolEnd, ReadableValue;
    NonSpaceAfter(u, line, 4);
    var start := NonSpace(u, line, 5);
    if value != "" && !u.IsSpace(value[0]) {
      assert line[5] == value[0];
      NonSpaceAfter(u, line, 5);
      SymbolShift(u, line, 5, value);
      CloseAtShift(line, 5, value, value[0], 1);
      ReadableValueEnds(u, value);
      var n := ValueEnd(u, value);
      assert line[5..5 + n] == value[..n];
      assert SymbolEnd(u, value, 0, false) > 0 ==> |line[5..SymbolEnd(u, line, 5, false)]| > 0;
    } else {
      NotReadable(u, value);
      if start < |line| {
        assert value[0] == line[5];
        assert forall finish :: start < finish <= |line| ==> line[start..finish][0] == line[start];
      }
    }
  }

  lemma {:induction false} NotReadable(u: Tables, value: string)
    requires value == "" || u.IsSpace(value[0])
    ensures !ReadableValue(u, value)
  {
  }

  lemma {:induction false} BlankValue(u: Tables, line: string, name: string, value: string)
    requires 4 + |name| < |line| && line[4 + |name|] == ' ' && line[4 + |name| + 1..] == value
    requires NonSpace(u, line, 4) == 4 && SymbolEnd(u, line, 4, false) == 4 + |name|
    requires value == "" || u.IsSpace(value[0])
    ensures ReadSymbols(u, line, 4, TokenSet, true) != Statement(name, value, TokenSet)
  {
    hide CloseAt, SymbolEnd;
    NonSpaceAfter(u, line, 4 + |name|);
    var begin := NonSpace(u, line, 4 + |name|);
    if begin < |line| {
      assert value[0] == line[4 + |name| + 1];
      assert forall finish :: begin < finish <= |line| ==> line[begin..finish][0] == line[begin];
    }
  }

  lemma {:induction false} SymbolShift(u: Tables, line: string, b: nat, r: string)
    requires b <= |line| && line[b..] == r
    ensures SymbolEnd(u, line, b, false) == b + SymbolEnd(u, r, 0, false)
  {
    if |r| > 1 {
      assert line[b + 1] == r[1];
      NextStopShift(u, line, b, r, 1);
    }
  }

  lemma {:induction false} NextStopShift(u: Tables, line: string, b: nat, r: string, i: nat)
    requires b <= |line| && line[b..] == r && i <= |r|
    ensures NextStop(u, line, b + i, false) == b + NextStop(u, r, i, false)
    decreases |r| - i
  {
    if i < |r| {
      assert line[b + i] == r[i];
      NextStopShift(u, line, b, r, i + 1);
    }
  }

  lemma {:induction false} NameReadsBack(u: Tables, line: string, name: string)
    requires name != "" && 4 + |name| < |line| && line[4..4 + |name|] == name && line[4 + |name|] == ' '
    ensures var start := NonSpace(u, line, 4);
      var stop := SymbolEnd(u, line, start, false);
      if ReadableName(u, name) then start == 4 && stop == 4 + |name| else line[start..stop] != name
  {
    var e := 4 + |name|;
    var start := NonSpace(u, line, 4);
    var stop := SymbolEnd(u, line, start, false);
    NonSpaceAfter(u, line, 4);
    assert forall i :: 0 <= i < |name| ==> name[i] == line[4 + i];
    if u.IsSpace(name[0]) {
      assert start <= e + 1 || u.IsSpace(line[e]);
      assert start < |line| && start < stop ==> line[start..stop][0] == line[start];
    } else if IsSymbol(u, name) {
      assert stop == e;
    } else {
      assert line[4..stop] == name ==> stop == e;
    }
  }

  lemma {:induction false} CloseAtShift(line: string, b: nat, r: string, quote: char, i: nat)
    requires b <= |line| && line[b..] == r
    ensures CloseAt(line, quote, b + i) ==
      match CloseAt(r, quote, i) case None => None case Some(k) => Some(b + k)
    decreases if i < |r| then |r| - i else 0
  {
    if i < |r| {
      assert line[b + i] == r[i];
      CloseAtShift(line, b, r, quote, if r[i] == '\\' then i + 2 else i + 1);
    }
  }

  /** Two values that do not survive the dump: one with its first letter in it again,
      and a single digit. */
  lemma {:induction false} ValuesLost(u: Tables, name: string)
    requires ReadableName(u, name)
    ensures Read(u, SetLine(name, "none"), 0) == Statement(name, "non", TokenSet)
    ensures Read(u, SetLine(name, "0"), 0) == Statement(name, "", TokenSet)
  {
    hide SetLine, Read, ReadableName;
    assert CloseAt("none", 'n', 2) == Some(2);
    assert CloseAt("none", 'n', 1) == Some(2);
    SetLineReads(u, name, "none");
    assert "none"[..3] == "non";
    assert CloseAt("0", '0', 1) == None;
    SetLineReads(u, name, "0");
  }

  // Constructs --------------------------------------------------------------------------

  /** A construct is read as its keyword, with the dollar sign, and one symbol, if any;
      quotes count for nothing there. */
  lemma {:induction false} ConstructReads(u: Tables, keyword: string, value: string)
    requires IsSymbol(u, keyword) && keyword[0] == '$' && IsSymbol(u, value) && !u.IsSpace(value[0])
    ensures Read(u, keyword + " " + value, 0) == Statement(keyword, value, TokenConstruct)
    ensures Read(u, keyword, 0) == Statement(keyword, "", TokenConstruct)
  {
    hide NonSpace, SymbolEnd, CloseAt, Decode, DecodeKey;
    var line, k := keyword + " " + value, |keyword|;
    NonSpaceAfter(u, line, 0);
    NonSpaceAfter(u, keyword, 0);
    assert line[0] == '$' && line[..k] == keyword && line[k] == ' ';
    assert line[k + 1] == value[0] && line[k + 1..] == value;
    NonSpaceAfter(u, line, k);
    NonSpaceAfter(u, line, k + 1);
    forall i | 0 < i < k ensures !Stops(u, line[i], false) { assert line[i] == keyword[i]; }
    SymbolStopsAt(u, line, 0, k);
    SymbolStopsAt(u, keyword, 0, k);
    forall i | k + 1 < i < |line| ensures !Stops(u, line[i], false) { assert line[i] == value[i - k - 1]; }
    SymbolStopsAt(u, line, k + 1, |line|);
    assert SymbolEnd(u, keyword, k, false) == k;
    assert keyword[0..k] == keyword && line[0..k] == keyword;
  }

  // A directive without a value ----------------------------------------------------------

  /** The reader runs past the end of the line exactly on a set directive with nothing
      but spaces after its name. */
  lemma {:induction false} OutOfRangeExactly(u: Tables, line: string, from: nat)
    requires from <= |line| && NonSpace(u, line, from) < |line|
    ensures var pos := NonSpace(u, line, from);
      Read(u, line, from).OutOfRange? <==>
        IsSetDirective(u, line, pos)
        && NonSpace(u, line, SymbolEnd(u, line, NonSpace(u, line, pos + 4), false)) == |line|
  {
    hide NonSpace, SymbolEnd, CloseAt, Decode, DecodeKey;
  }

  lemma {:induction false} SetWithoutValue(u: Tables)
    ensures NonSpace(u, "set ab", 0) == 0 && Read(u, "set ab", 0) == OutOfRange
  {
    var line := "set ab";
    NonSpaceAfter(u, line, 0);
    NonSpaceAfter(u, line, 4);
    assert SymbolEnd(u, line, 4, false) == 6 by { assert NextStop(u, line, 6, false) == 6; }
  }

  // Key names --------------------------------------------------------------------------

  /** Modifiers, in order, and the name of the key. */
  function Spell(modifiers: seq<string>, key: string): string {
    if modifiers == [] then key else modifiers[0] + "-" + Spell(modifiers[1..], key)
  }

  predicate HasControl(modifiers: seq<string>) { exists m :: m in modifiers && m in CONTROL_NAMES }

  predicate HasMeta(modifiers: seq<string>) { exists m :: m in modifiers && m in META_NAMES }

  lemma {:induction false} HyphenAt(m: string, rest: string, i: nat)
    requires '-' !in m && i <= |m|
    ensures IndexOf(m + "-" + rest, '-', i) == |m|
    decreases |m| - i
  {
    var s := m + "-" + rest;
    if i < |m| {
      assert s[i] == m[i] && m[i] in m;
      HyphenAt(m, rest, i + 1);
    }
  }

  lemma {:induction false} NoHyphen(key: string, i: nat)
    requires '-' !in key && i <= |key|
    ensures IndexOf(key, '-', i) == |key|
    decreases |key| - i
  {
    if i < |key| { NoHyphen(key, i + 1); }
  }

  /** Modifiers count once each, in any order and number; one unknown name spoils all. */
  lemma {:induction false} ModifiersAreASet(modifiers: seq<string>, key: string, control: bool, meta: bool)
    requires '-' !in key && forall m :: m in modifiers ==> '-' !in m
    ensures Modifiers(Spell(modifiers, key), control, meta) ==
      if forall m :: m in modifiers ==> m in CONTROL_NAMES || m in META_NAMES
      then Some(Modified(control || HasControl(modifiers), meta || HasMeta(modifiers), key))
      else None
    decreases |modifiers|
  {
    if modifiers == [] {
      NoHyphen(key, 0);
    } else {
      var m, rest := modifiers[0], modifiers[1..];
      var s := Spell(modifiers, key);
      HyphenAt(m, Spell(rest, key), 0);
      assert s[..|m|] == m && s[|m| + 1..] == Spell(rest, key);
      assert modifiers == [m] + rest;
      assert m in modifiers && forall v :: v in modifiers <==> v == m || v in rest;
      OneModifier(s, m, Spell(rest, key), control, meta);
      if m in CONTROL_NAMES { ModifiersAreASet(rest, key, true, meta); }
      if m in META_NAMES { ModifiersAreASet(rest, key, control, true); }
    }
  }

  lemma {:induction false} OneModifier(s: string, m: string, rest: string, control: bool, meta: bool)
    requires IndexOf(s, '-', 0) == |m| < |s| && s[..|m|] == m && s[|m| + 1..] == rest
    ensures Modifiers(s, control, meta) ==
      if m in CONTROL_NAMES then Modifiers(rest, true, meta)
      else if m in META_NAMES then Modifiers(rest, control, true)
      else None
  {
  }

  function Lowered(u: Tables, names: seq<string>): seq<string> {
    seq(|names|, i requires 0 <= i < |names| => LowerCase(u, names[i]))
  }

  lemma {:induction false} LowerSpell(u: Tables, modifiers: seq<string>, key: string)
    ensures LowerCase(u, Spell(modifiers, key)) == Spell(Lowered(u, modifiers), LowerCase(u, key))
    decreases |modifiers|
  {
    if modifiers != [] {
      var m, rest := modifiers[0], Spell(modifiers[1..], key);
      LowerSpell(u, modifiers[1..], key);
      assert Lowered(u, modifiers)[1..] == Lowered(u, modifiers[1..]);
      assert LowerCase(u, m + "-" + rest) == LowerCase(u, m) + "-" + LowerCase(u, rest);
    }
  }

  /** So the case, the order and the number of modifiers do not change the key, nor does
      the case of its name. */
  lemma {:induction false} ModifierOrder(u: Tables, a: seq<string>, b: seq<string>, key: string, name: string)
    requires LowerCase(u, key) == LowerCase(u, name) && '-' !in LowerCase(u, key)
    requires forall m :: m in Lowered(u, a) <==> m in Lowered(u, b)
    requires forall m :: m in Lowered(u, a) ==> '-' !in m
    ensures DecodeKey(u, Spell(a, key)) == DecodeKey(u, Spell(b, name))
  {
    LowerSpell(u, a, key);
    LowerSpell(u, b, name);
    ModifiersAreASet(Lowered(u, a), LowerCase(u, key), false, false);
    ModifiersAreASet(Lowered(u, b), LowerCase(u, key), false, false);
    hide Modifiers, Spell, NamedKey, LowerCase, Lowered;
    assert HasControl(Lowered(u, a)) == HasControl(Lowered(u, b));
    assert HasMeta(Lowered(u, a)) == HasMeta(Lowered(u, b));
  }
}
