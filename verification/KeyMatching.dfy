/** Matching the keys read so far against the bound sequences
    (internal/keymap/dispatch.go and internal/strutil/key.go). */
module KeyMatching {
  import opened Inputrc
  import T = Tokens

  type Byte = b: int | 0 <= b < 256

  /** The zero value stands for no bind. */
  datatype Bind = Bind(action: string, macro: bool)

  const NO_BIND := Bind("", false)

  // Bound sequences as the bytes a terminal sends ---------------------------------

  function Utf8(c: char): (bytes: seq<Byte>)
    ensures |bytes| == T.Utf8Len(c)
  {
    var n := c as int;
    if n < 0x80 then [n]
    else if n < 0x800 then [0xc0 + n / 0x40, 0x80 + n % 0x40]
    else if n < 0x10000 then [0xe0 + n / 0x1000, 0x80 + n / 0x40 % 0x40, 0x80 + n % 0x40]
    else [0xf0 + n / 0x40000, 0x80 + n / 0x1000 % 0x40, 0x80 + n / 0x40 % 0x40, 0x80 + n % 0x40]
  }

  function Encode(s: string): seq<Byte> {
    if s == "" then [] else Encode(s[..|s| - 1]) + Utf8(s[|s| - 1])
  }

  /** Meta codes become an escape and the plain code. */
  function Converted(keys: string): string {
    if keys == "" then ""
    else
      var c := keys[|keys| - 1];
      Converted(keys[..|keys| - 1]) + (if IsMeta(c) then [ESC, Demeta(c)] else [c])
  }

  method ConvertMeta(keys: string) returns (converted: string)
    ensures converted == Converted(keys)
  {
    if |keys| == 0 { return keys; }
    converted := "";
    for i := 0 to |keys|
      invariant converted == Converted(keys[..i])
    {
      assert keys[..i + 1][..i] == keys[..i];
      var c := keys[i];
      if !IsMeta(c) {
        converted := converted + [c];
        continue;
      }
      converted := converted + [ESC];
      converted := converted + [Demeta(c)];
    }
    assert keys[..|keys|] == keys;
  }

  function Sequence(bound: string): seq<Byte> { Encode(Converted(bound)) }

  // What a bound sequence comes to ---------------------------------------------------

  /** The bytes a terminal sends for a bound rune: a 7-bit code is itself, an 8-bit one
      is an escape byte and the code without its top bit, the others are UTF-8. */
  function KeyBytes(c: char): (bytes: seq<Byte>)
    ensures |bytes| == T.Utf8Len(c)
  {
    var n := c as int;
    if n < 0x80 then [n] else if n <= 0xff then [0x1b, n - 0x80] else Utf8(c)
  }

  function Spelled(bound: string): seq<Byte> {
    if bound == "" then [] else KeyBytes(bound[0]) + Spelled(bound[1..])
  }

  /** The code that the bytes of one UTF-8 character carry, six bits a byte after the
      first. */
  function CodePoint(b: seq<int>): int
    requires 1 <= |b| <= 4
  {
    if |b| == 1 then b[0]
    else if |b| == 2 then (b[0] - 0xc0) * 0x40 + b[1] - 0x80
    else if |b| == 3 then (b[0] - 0xe0) * 0x1000 + (b[1] - 0x80) * 0x40 + b[2] - 0x80
    else (b[0] - 0xf0) * 0x40000 + (b[1] - 0x80) * 0x1000 + (b[2] - 0x80) * 0x40 + b[3] - 0x80
  }

  /** The first byte tells the length, the others are marked as continuing, and together
      they carry the code. */
  predicate Carries(b: seq<Byte>, code: int) {
    && 1 <= |b| <= 4
    && |b| == (if b[0] < 0x80 then 1 else if b[0] < 0xe0 then 2 else if b[0] < 0xf0 then 3 else 4)
    && (|b| > 1 ==> b[0] >= 0xc0)
    && (forall i :: 1 <= i < |b| ==> 0x80 <= b[i] < 0xc0)
    && CodePoint(b) == code
  }

  lemma {:induction false} Utf8Carries(c: char)
    ensures Carries(Utf8(c), c as int)
  {
    hide Carries;
    var n := c as int;
    if n < 0x80 {
      OneByte(c);
    } else if n < 0x800 {
      TwoBytes(c);
    } else if n < 0x10000 {
      ThreeBytes(c);
    } else {
      FourBytes(c);
    }
  }

  lemma {:induction false} OneByte(c: char)
    requires c as int < 0x80
    ensures Carries(Utf8(c), c as int)
  {
  }

  lemma {:induction false} TwoBytes(c: char)
    requires 0x80 <= c as int < 0x800
    ensures Carries(Utf8(c), c as int)
  {
    assert Utf8(c) == [0xc0 + c as int / 0x40, 0x80 + c as int % 0x40];
  }

  lemma {:induction false} ThreeBytes(c: char)
    requires 0x800 <= c as int < 0x10000
    ensures Carries(Utf8(c), c as int)
  {
    var n := c as int;
    BySixBits(n);
    var x, y, z := n / 0x1000, n / 0x40 % 0x40, n % 0x40;
    assert Utf8(c) == [0xe0 + x, 0x80 + y, 0x80 + z];
    assert 0 <= x < 0x10 && 0 <= y < 0x40 && 0 <= z < 0x40 && n == x * 0x1000 + y * 0x40 + z;
  }

  lemma {:induction false} FourBytes(c: char)
    requires 0x10000 <= c as int
    ensures Carries(Utf8(c), c as int)
  {
    var n := c as int;
    BySixBits(n);
    var w, x, y, z := n / 0x40000, n / 0x1000 % 0x40, n / 0x40 % 0x40, n % 0x40;
    assert Utf8(c) == [0xf0 + w, 0x80 + x, 0x80 + y, 0x80 + z];
    assert 0 <= w < 8 && 0 <= x < 0x40 && 0 <= y < 0x40 && 0 <= z < 0x40;
    assert n == w * 0x40000 + x * 0x1000 + y * 0x40 + z;
  }

  lemma {:induction false} BySixBits(n: nat)
    ensures n == n / 0x40 * 0x40 + n % 0x40 && n / 0x40 == n / 0x1000 * 0x40 + n / 0x40 % 0x40
    ensures n / 0x1000 == n / 0x40000 * 0x40 + n / 0x1000 % 0x40
  {
  }

  lemma {:induction false} ConvertedConcat(a: string, b: string)
    ensures Converted(a + b) == Converted(a) + Converted(b)
    decreases |b|
  {
    if b == "" {
      assert a + b == a;
    } else {
      var r := b[..|b| - 1];
      assert (a + b)[..|a + b| - 1] == a + r;
      ConvertedConcat(a, r);
    }
  }

  lemma {:induction false} EncodeConcat(a: string, b: string)
    ensures Encode(a + b) == Encode(a) + Encode(b)
    decreases |b|
  {
    hide Utf8;
    if b == "" {
      assert a + b == a;
    } else {
      var r := b[..|b| - 1];
      assert (a + b)[..|a + b| - 1] == a + r;
      EncodeConcat(a, r);
    }
  }

  lemma {:induction false} RuneSequence(c: char)
    ensures Sequence([c]) == KeyBytes(c)
  {
    OneRune(c);
    if IsMeta(c) {
      assert [ESC, Demeta(c)] == [ESC] + [Demeta(c)];
      EncodeConcat([ESC], [Demeta(c)]);
      OneRune(ESC);
      OneRune(Demeta(c));
    }
  }

  lemma {:induction false} OneRune(c: char)
    ensures Encode([c]) == Utf8(c)
    ensures Converted([c]) == if IsMeta(c) then [ESC, Demeta(c)] else [c]
  {
    hide Utf8;
    var s := [c];
    assert s[..0] == "" && Encode("") == [] && Converted("") == "";
  }

  /** The bytes of a bound sequence are those of its runes in order. */
  lemma {:induction false} SequenceIsSpelled(bound: string)
    ensures Sequence(bound) == Spelled(bound)
    decreases |bound|
  {
    hide KeyBytes, Encode, Converted;
    if bound == "" {
      EmptySequence();
    } else {
      assert bound == [bound[0]] + bound[1..];
      ConvertedConcat([bound[0]], bound[1..]);
      EncodeConcat(Converted([bound[0]]), Converted(bound[1..]));
      RuneSequence(bound[0]);
      SequenceIsSpelled(bound[1..]);
    }
  }

  lemma {:induction false} EmptySequence()
    ensures Sequence("") == []
  {
  }

  lemma {:induction false} SpelledSize(bound: string)
    ensures |Spelled(bound)| == T.ByteLen(bound)
    decreases |bound|
  {
    hide KeyBytes, T.Utf8Len;
    if bound != "" {
      assert bound == [bound[0]] + bound[1..] && [bound[0]][..0] == "";
      T.ByteLenAppend([bound[0]], bound[1..]);
      SpelledSize(bound[1..]);
    }
  }

  /** s and t are alike up to a rune that s has in its 8-bit form and t as an escape. */
  predicate MetaFirst(s: string, t: string) {
    exists i :: 0 <= i < |s| && i < |t| && s[..i] == t[..i] && 0x80 <= s[i] as int <= 0xff && t[i] as int == 0x1b
  }

  lemma {:induction false} MetaFirstLess(s: string, t: string)
    ensures MetaFirst(s, t) ==> LexLess(t, s)
    decreases |s|
  {
    if MetaFirst(s, t) {
      var i :| 0 <= i < |s| && i < |t| && s[..i] == t[..i] && 0x80 <= s[i] as int <= 0xff && t[i] as int == 0x1b;
      if i > 0 {
        assert s[0] == s[..i][0] == t[..i][0] == t[0];
        assert s[1..][..i - 1] == s[..i][1..] == t[..i][1..] == t[1..][..i - 1];
        assert s[1..][i - 1] == s[i] && t[1..][i - 1] == t[i];
        assert MetaFirst(s[1..], t[1..]);
        MetaFirstLess(s[1..], t[1..]);
      }
    }
  }

  lemma {:induction false} KeyBytesDiffer(c: char, d: char, x: seq<Byte>, y: seq<Byte>)
    requires c != d && KeyBytes(c) + x == KeyBytes(d) + y
    ensures (0x80 <= c as int <= 0xff && d as int == 0x1b) || (0x80 <= d as int <= 0xff && c as int == 0x1b)
  {
    hide Utf8, CodePoint;
    Utf8Carries(c);
    Utf8Carries(d);
    var b, e := KeyBytes(c), KeyBytes(d);
    assert b[0] == (b + x)[0] == (e + y)[0] == e[0];
    if |b| == |e| { SameHead(b, x, e, y); }
  }

  lemma {:induction false} SameHead(b: seq<Byte>, x: seq<Byte>, e: seq<Byte>, y: seq<Byte>)
    requires b + x == e + y && |b| == |e|
    ensures b == e
  {
    assert b == (b + x)[..|b|];
    assert e == (e + y)[..|e|];
  }

  /** Two sequences come to the same bytes only by the two forms of a meta key. */
  lemma {:induction false} SameSpelling(s: string, t: string)
    requires s != t && Spelled(s) == Spelled(t)
    ensures MetaFirst(s, t) || MetaFirst(t, s)
    decreases |s|
  {
    hide KeyBytes;
    assert s != "" && t != "";
    if s[0] == t[0] {
      assert Spelled(s[1..]) == Spelled(s)[|KeyBytes(s[0])|..] == Spelled(t[1..]);
      assert s == [s[0]] + s[1..] && t == [t[0]] + t[1..];
      SameSpelling(s[1..], t[1..]);
      Prepended(s, t);
      Prepended(t, s);
    } else {
      KeyBytesDiffer(s[0], t[0], Spelled(s[1..]), Spelled(t[1..]));
      assert s[..0] == t[..0];
    }
  }

  lemma {:induction false} Prepended(s: string, t: string)
    requires s != "" && t != "" && s[0] == t[0]
    ensures MetaFirst(s[1..], t[1..]) ==> MetaFirst(s, t)
  {
    if MetaFirst(s[1..], t[1..]) {
      var a, b := s[1..], t[1..];
      var i :| 0 <= i < |a| && i < |b| && a[..i] == b[..i] && 0x80 <= a[i] as int <= 0xff && b[i] as int == 0x1b;
      assert s[..i + 1] == [s[0]] + a[..i] && t[..i + 1] == [t[0]] + b[..i];
      assert s[i + 1] == a[i] && t[i + 1] == b[i];
    }
  }

  // The order in which bound sequences are tried -------------------------------------

  /** Strings of one length compared as Go does: the order of UTF-8 bytes is the order
      of code points. */
  predicate LexLess(s: string, t: string) {
    t != "" && (s == "" || s[0] < t[0] || (s[0] == t[0] && LexLess(s[1..], t[1..])))
  }

  predicate Before(s: string, t: string) {
    T.ByteLen(s) < T.ByteLen(t) || (T.ByteLen(s) == T.ByteLen(t) && LexLess(s, t))
  }

  lemma {:induction false} LexIrreflexive(s: string)
    ensures !LexLess(s, s)
  {
    if s != "" { LexIrreflexive(s[1..]); }
  }

  lemma {:induction false} LexTotal(s: string, t: string)
    ensures LexLess(s, t) || LexLess(t, s) || s == t
    ensures !(LexLess(s, t) && LexLess(t, s)) && !LexLess(s, s)
    decreases |s| + |t|
  {
    if s != "" {
      LexIrreflexive(s[1..]);
      if t != "" && s[0] == t[0] {
        LexTotal(s[1..], t[1..]);
        assert s == [s[0]] + s[1..] && t == [t[0]] + t[1..];
      }
    }
  }

  lemma {:induction false} LexTransitive(s: string, t: string, v: string)
    requires LexLess(s, t) && LexLess(t, v)
    ensures LexLess(s, v)
    decreases |s|
  {
    if s != "" && s[0] == t[0] == v[0] { LexTransitive(s[1..], t[1..], v[1..]); }
  }

  lemma {:induction false} BeforeTotal(s: string, t: string)
    ensures Before(s, t) || Before(t, s) || s == t
    ensures !(Before(s, t) && Before(t, s)) && !Before(s, s)
  {
    hide T.ByteLen;
    LexTotal(s, t);
    LexTotal(s, s);
  }

  lemma {:induction false} BeforeTransitive(s: string, t: string, v: string)
    requires Before(s, t) && Before(t, v)
    ensures Before(s, v)
  {
    hide T.ByteLen;
    if LexLess(s, t) && LexLess(t, v) { LexTransitive(s, t, v); }
  }

  predicate Sorted(r: seq<string>) {
    forall i, j :: 0 <= i < j < |r| ==> Before(r[i], r[j])
  }

  method SortedSequences(binds: map<string, Bind>) returns (r: seq<string>)
    ensures Sorted(r) && forall s :: s in r <==> s in binds
  {
    hide Before;
    r := [];
    var todo := binds.Keys;
    while todo != {}
      invariant Sorted(r) && todo <= binds.Keys
      invariant forall s :: s in r <==> s in binds.Keys - todo
      decreases |todo|
    {
      var s :| s in todo;
      var i := 0;
      while i < |r| && Before(r[i], s)
        invariant 0 <= i <= |r| && forall j :: 0 <= j < i ==> Before(r[j], s)
      {
        i := i + 1;
      }
      InsertSorted(r, i, s);
      r := r[..i] + [s] + r[i..];
      todo := todo - {s};
    }
  }

  lemma {:induction false} InsertSorted(r: seq<string>, i: nat, s: string)
    requires Sorted(r) && i <= |r| && s !in r
    requires forall j :: 0 <= j < i ==> Before(r[j], s)
    requires i < |r| ==> !Before(r[i], s)
    ensures var r1 := r[..i] + [s] + r[i..];
      Sorted(r1) && forall v :: v in r1 <==> v in r || v == s
  {
    hide Before;
    forall j | i <= j < |r| ensures Before(s, r[j]) {
      BeforeTotal(r[i], s);
      if i < j { BeforeTransitive(s, r[i], r[j]); }
    }
    var r1 := r[..i] + [s] + r[i..];
    assert r == r[..i] + r[i..];
    forall j, k | 0 <= j < k < |r1| ensures Before(r1[j], r1[k]) {
      var a, b := if j < i then j else j - 1, if k < i then k else k - 1;
      assert j != i ==> r1[j] == r[a];
      assert k != i ==> r1[k] == r[b];
    }
  }

  /** The last of some sequences in the order they are tried. */
  ghost function Latest(from: set<string>): (s: string)
    requires from != {}
    ensures s in from && forall t :: t in from ==> t == s || Before(t, s)
    decreases |from|
  {
    var t :| t in from;
    if from == {t} then t
    else
      var rest := from - {t};
      assert from == rest + {t};
      var l := Latest(rest);
      BeforeTotal(t, l);
      assert Before(l, t) ==> forall v :: v in rest ==> v == l || (Before(v, l) && Before(v, t)) by {
        AllBefore(rest, l, t);
      }
      if Before(l, t) then t else l
  }

  lemma {:induction false} AllBefore(from: set<string>, l: string, t: string)
    requires forall v :: v in from ==> v == l || Before(v, l)
    ensures Before(l, t) ==> forall v :: v in from ==> v == l || (Before(v, l) && Before(v, t))
  {
    hide Before;
    if Before(l, t) {
      forall v | v in from && v != l ensures Before(v, t) { BeforeTransitive(v, l, t); }
    }
  }

  lemma {:induction false} LatestIs(from: set<string>, s: string)
    requires s in from && forall t :: t in from ==> t == s || Before(t, s)
    ensures Latest(from) == s
  {
    hide Before;
    BeforeTotal(Latest(from), s);
  }

  // Exact and longer matches ------------------------------------------------------------

  function Matching(among: set<string>, keys: seq<Byte>): set<string> {
    set s | s in among && Sequence(s) == keys
  }

  /** The bind of exactly these keys. Of several sequences that come to the same bytes,
      the last tried counts. */
  ghost function ExactAmong(binds: map<string, Bind>, among: set<string>, keys: seq<Byte>): Bind
    requires among <= binds.Keys
  {
    var found := Matching(among, keys);
    if found == {} then NO_BIND else binds[Latest(found)]
  }

  ghost function Exact(binds: map<string, Bind>, keys: seq<Byte>): Bind {
    ExactAmong(binds, binds.Keys, keys)
  }

  /** Some bound sequence is longer and starts with these keys. */
  ghost predicate Extended(binds: map<string, Bind>, keys: seq<Byte>) {
    exists s :: s in binds && keys < Sequence(s)
  }

  /** A sequence that no other one comes to the same bytes as is matched by its bytes. */
  lemma {:induction false} ExactOfDistinct(binds: map<string, Bind>, s: string)
    requires s in binds && forall t :: t in binds && Sequence(t) == Sequence(s) ==> t == s
    ensures Exact(binds, Sequence(s)) == binds[s]
  {
    hide Sequence, Before;
    assert s in Matching(binds.Keys, Sequence(s));
    LatestIs(Matching(binds.Keys, Sequence(s)), s);
  }

  /** s comes to these bytes, and has a meta key in its 8-bit form where any other one
      that comes to them first differs from it. */
  ghost predicate IsPreferred(binds: map<string, Bind>, keys: seq<Byte>, s: string) {
    && Spelled(s) == keys
    && forall t :: t in binds && Spelled(t) == keys && t != s ==> MetaFirst(s, t)
  }

  /** Of the sequences that come to the same bytes, that one counts. */
  lemma {:induction false} Preferred(binds: map<string, Bind>, keys: seq<Byte>, s: string)
    requires s in binds && IsPreferred(binds, keys, s)
    ensures Exact(binds, keys) == binds[s]
  {
    hide Sequence, Before, Spelled, MetaFirst;
    var found := Matching(binds.Keys, keys);
    SequenceIsSpelled(s);
    assert s in found;
    forall t | t in found && t != s ensures Before(t, s) {
      SequenceIsSpelled(t);
      SameLength(s, t);
      MetaFirstLess(s, t);
      assert Before(t, s) by { LessIsBefore(t, s); }
    }
    LatestIs(found, s);
  }

  lemma {:induction false} SameLength(s: string, t: string)
    requires Spelled(s) == Spelled(t)
    ensures T.ByteLen(s) == T.ByteLen(t)
  {
    SpelledSize(s);
    SpelledSize(t);
  }

  lemma {:induction false} LessIsBefore(s: string, t: string)
    requires T.ByteLen(s) == T.ByteLen(t) && LexLess(s, t)
    ensures Before(s, t)
  {
  }

  /** The bind of one rune is found by its code, if that is 7-bit, and by an escape and
      the code without its top bit, if it is 8-bit, unless the same bytes are bound in
      another way. */
  lemma {:induction false} OneKey(binds: map<string, Bind>, c: char)
    requires [c] in binds && forall t :: t in binds && Spelled(t) == Spelled([c]) ==> t == [c]
    ensures c as int < 0x80 ==> Exact(binds, [c as int]) == binds[[c]]
    ensures 0x80 <= c as int <= 0xff ==> Exact(binds, [0x1b, c as int - 0x80]) == binds[[c]]
  {
    hide Exact, Utf8, MetaFirst;
    assert [c][1..] == "" && Spelled([c]) == KeyBytes(c) + Spelled("") == KeyBytes(c);
    hide Spelled;
    Preferred(binds, KeyBytes(c), [c]);
  }

  /** There always is such a sequence, if any comes to these bytes. */
  lemma {:induction false} PreferredExists(binds: map<string, Bind>, keys: seq<Byte>, v: string) returns (s: string)
    requires v in binds && Spelled(v) == keys
    ensures s in binds && IsPreferred(binds, keys, s)
  {
    hide Sequence, Spelled, MetaFirst, Before;
    var found := Matching(binds.Keys, keys);
    SequenceIsSpelled(v);
    assert v in found;
    s := Latest(found);
    SequenceIsSpelled(s);
    forall t | t in binds && Spelled(t) == keys && t != s ensures MetaFirst(s, t) {
      SequenceIsSpelled(t);
      assert t in found && Before(t, s);
      SameSpelling(s, t);
      if MetaFirst(t, s) {
        MetaFirstLess(t, s);
        SameLength(s, t);
        LessIsBefore(s, t);
        BeforeTotal(s, t);
      }
    }
  }

  lemma {:induction false} NoneSpelled(binds: map<string, Bind>, keys: seq<Byte>)
    requires forall s :: s in binds ==> Spelled(s) != keys
    ensures Exact(binds, keys) == NO_BIND
  {
    hide Sequence, Spelled;
    forall s | s in binds ensures Sequence(s) != keys { SequenceIsSpelled(s); }
    assert Matching(binds.Keys, keys) == {};
  }

  lemma {:induction false} ExtendedSpelled(binds: map<string, Bind>, keys: seq<Byte>)
    ensures Extended(binds, keys) <==> exists s :: s in binds && keys < Spelled(s)
  {
    hide Sequence, Spelled;
    if Extended(binds, keys) {
      var s :| s in binds && keys < Sequence(s);
      SequenceIsSpelled(s);
    }
    if s :| s in binds && keys < Spelled(s) { SequenceIsSpelled(s); }
  }

  lemma {:induction false} NextTried(binds: map<string, Bind>, among: set<string>, s: string, keys: seq<Byte>)
    requires among <= binds.Keys && s in binds && forall t :: t in among ==> Before(t, s)
    ensures ExactAmong(binds, among + {s}, keys) ==
      if Sequence(s) == keys then binds[s] else ExactAmong(binds, among, keys)
  {
    hide Sequence, Before;
    var found := Matching(among + {s}, keys);
    if Sequence(s) == keys {
      assert s in found;
      LatestIs(found, s);
    } else {
      assert found == Matching(among, keys);
    }
  }

  method MatchBind(keys: seq<Byte>, binds: map<string, Bind>) returns (found: Bind, prefixed: seq<Bind>)
    ensures found == Exact(binds, keys)
    ensures prefixed != [] <==> Extended(binds, keys)
    ensures (forall s :: s in binds ==> Spelled(s) != keys) ==> found == NO_BIND
    ensures forall s :: s in binds && IsPreferred(binds, keys, s) ==> found == binds[s]
    ensures prefixed != [] <==> exists s :: s in binds && keys < Spelled(s)
  {
    found, prefixed := MatchInOrder(keys, binds);
    hide Spelled, Extended, Exact, IsPreferred;
    if forall s :: s in binds ==> Spelled(s) != keys { NoneSpelled(binds, keys); }
    forall s | s in binds && IsPreferred(binds, keys, s) ensures found == binds[s] { Preferred(binds, keys, s); }
    ExtendedSpelled(binds, keys);
  }

  method MatchInOrder(keys: seq<Byte>, binds: map<string, Bind>) returns (found: Bind, prefixed: seq<Bind>)
    ensures found == Exact(binds, keys)
    ensures prefixed != [] <==> Extended(binds, keys)
  {
    hide Before, Encode, Converted, ExactAmong;
    found, prefixed := NO_BIND, [];
    var sequences := SortedSequences(binds);
    ghost var among: set<string> := {};
    assert ExactAmong(binds, {}, keys) == NO_BIND by { NoneAmong(binds, keys); }
    for i := 0 to |sequences|
      invariant among == (set s | s in sequences[..i]) && among <= binds.Keys
      invariant found == ExactAmong(binds, among, keys)
      invariant prefixed != [] <==> exists s :: s in among && keys < Sequence(s)
    {
      var bound := sequences[i];
      assert sequences[..i + 1] == sequences[..i] + [bound];
      NextTried(binds, among, bound, keys);
      var converted := ConvertMeta(bound);
      var sequence := Encode(converted);
      assert sequence == Sequence(bound);
      if |keys| < |sequence| && keys <= sequence {
        prefixed := prefixed + [binds[bound]];
      }
      if keys == sequence {
        found := binds[bound];
      }
      among := among + {bound};
    }
    assert sequences[..|sequences|] == sequences;
    assert among == binds.Keys;
  }

  lemma {:induction false} NoneAmong(binds: map<string, Bind>, keys: seq<Byte>)
    ensures ExactAmong(binds, {}, keys) == NO_BIND
  {
    assert Matching({}, keys) == {};
  }

  // Longest match --------------------------------------------------------------------------

  /** Keys are read one by one as long as they start a longer sequence: the number of
      keys read in the end, one more than there are if all of them do. */
  ghost function Stop(binds: map<string, Bind>, s: seq<Byte>, from: nat): (n: nat)
    requires 1 <= from <= |s| + 1
    ensures from <= n <= |s| + 1
    ensures forall k :: from <= k < n ==> Extended(binds, s[..k])
    ensures n <= |s| ==> !Extended(binds, s[..n])
    decreases |s| + 1 - from
  {
    if from <= |s| && Extended(binds, s[..from]) then Stop(binds, s, from + 1) else from
  }

  /** The first k keys of s are bound to something. */
  ghost predicate Bound(binds: map<string, Bind>, s: seq<Byte>, k: nat)
    requires k <= |s|
  {
    Exact(binds, s[..k]).action != ""
  }

  /** The bind of the longest bound prefix of the first k keys. */
  ghost function LongestBound(binds: map<string, Bind>, s: seq<Byte>, k: nat, stale: Bind): Bind
    requires k <= |s|
  {
    if k == 0 then stale
    else if Bound(binds, s, k) then Exact(binds, s[..k])
    else LongestBound(binds, s, k - 1, stale)
  }

  /** What a dispatch leaves: the bind to run, the bind kept for later, whether more
      keys are needed, the keys read and those that matched. */
  datatype Outcome = Outcome(active: Bind, prefixed: Bind, pending: bool, read: seq<Byte>, matched: seq<Byte>)

  ghost function Dispatched(binds: map<string, Bind>, s: seq<Byte>, active: Bind, stale: Bind): Outcome
    requires s != []
  {
    var n := Stop(binds, s, 1);
    if n > |s| then Outcome(active, LongestBound(binds, s, |s|, stale), true, s, s)
    else if Bound(binds, s, n) then Outcome(Exact(binds, s[..n]), NO_BIND, false, s[..n], s[..n])
    else Outcome(LongestBound(binds, s, n - 1, stale), NO_BIND, false, s[..n], s[..n - 1])
  }

  lemma {:induction false} LongestBoundIs(binds: map<string, Bind>, s: seq<Byte>, k: nat, j: nat, stale: Bind)
    requires j <= k <= |s| && forall i :: j < i <= k ==> !Bound(binds, s, i)
    ensures LongestBound(binds, s, k, stale) == LongestBound(binds, s, j, stale)
    decreases k
  {
    hide Bound;
    if j < k { LongestBoundIs(binds, s, k - 1, j, stale); }
  }

  /** A sequence bound to the first k keys is longer than any fewer of them. */
  lemma {:induction false} BoundExtends(binds: map<string, Bind>, s: seq<Byte>, n: nat, k: nat)
    requires n < k <= |s| && Bound(binds, s, k)
    ensures Extended(binds, s[..n])
  {
    hide Sequence, Before;
    var t := Latest(Matching(binds.Keys, s[..k]));
    assert s[..n] == s[..k][..n];
    assert s[..n] < Sequence(t);
  }

  /** Dispatching runs the bind of the longest bound prefix of all the keys there are,
      or else the one kept from before; it waits for more keys as long as all those
      there are start some longer sequence. */
  lemma {:induction false} LongestMatch(binds: map<string, Bind>, s: seq<Byte>, active: Bind, stale: Bind)
    requires s != []
    ensures var o := Dispatched(binds, s, active, stale);
      && (o.pending <==> forall k :: 1 <= k <= |s| ==> Extended(binds, s[..k]))
      && (o.pending ==> o.active == active)
      && (var chosen := if o.pending then o.prefixed else o.active;
          && (forall j :: 1 <= j <= |s| && Bound(binds, s, j) && (forall i :: j < i <= |s| ==> !Bound(binds, s, i))
                ==> chosen == Exact(binds, s[..j]))
          && ((forall j :: 1 <= j <= |s| ==> !Bound(binds, s, j)) ==> chosen == stale))
  {
    hide Extended, Exact;
    var o := Dispatched(binds, s, active, stale);
    var chosen := if o.pending then o.prefixed else o.active;
    var n := Stop(binds, s, 1);
    if n <= |s| {
      forall k | n < k <= |s| ensures !Bound(binds, s, k) {
        if Bound(binds, s, k) { BoundExtends(binds, s, n, k); }
      }
      LongestBoundIs(binds, s, |s|, n, stale);
    }
    assert chosen == LongestBound(binds, s, |s|, stale);
    forall j | 1 <= j <= |s| && Bound(binds, s, j) && (forall i :: j < i <= |s| ==> !Bound(binds, s, i))
      ensures chosen == Exact(binds, s[..j])
    {
      LongestBoundIs(binds, s, |s|, j, stale);
    }
    if forall j :: 1 <= j <= |s| ==> !Bound(binds, s, j) { LongestBoundIs(binds, s, |s|, 0, stale); }
  }

  /** Keys are read as long as some longer sequence starts with them; what is not matched
      of those read is at most the last, and only if they are bound to nothing. */
  lemma {:induction false} KeysConsumed(binds: map<string, Bind>, s: seq<Byte>, active: Bind, stale: Bind)
    requires s != []
    ensures var o := Dispatched(binds, s, active, stale);
      && o.read != [] && o.read <= s
      && (forall k :: 1 <= k < |o.read| ==> Extended(binds, s[..k]))
      && (if o.pending then o.read == s && Extended(binds, s) else !Extended(binds, o.read) && o.prefixed == NO_BIND)
      && o.matched == (
           if o.pending || Exact(binds, o.read).action != "" then o.read else o.read[..|o.read| - 1])
  {
    hide Extended, Exact, LongestBound;
    var n := Stop(binds, s, 1);
    if n <= |s| {
      assert s[..n][..n - 1] == s[..n - 1];
    } else {
      assert s[..|s|] == s;
    }
  }

  /** Typing a bound sequence that no longer one starts with runs its bind, and what is
      typed after it is left. */
  lemma {:induction false} TypedRuns(binds: map<string, Bind>, s: string, rest: seq<Byte>, active: Bind, stale: Bind)
    requires s != "" && s in binds && IsPreferred(binds, Spelled(s), s) && binds[s].action != ""
    requires forall t :: t in binds ==> !(Spelled(s) < Spelled(t))
    ensures Spelled(s) != []
    ensures Dispatched(binds, Spelled(s) + rest, active, stale)
         == Outcome(binds[s], NO_BIND, false, Spelled(s), Spelled(s))
  {
    hide Exact, Extended, LongestBound, IsPreferred;
    assert Spelled(s) != [] by { SpelledSize(s); }
    hide Spelled;
    var keys := Spelled(s) + rest;
    var k := |Spelled(s)|;
    assert keys[..k] == Spelled(s);
    Preferred(binds, Spelled(s), s);
    ExtendedSpelled(binds, Spelled(s));
    forall j | 1 <= j < k ensures Extended(binds, keys[..j]) {
      ExtendedSpelled(binds, keys[..j]);
      assert keys[..j] < Spelled(s);
    }
    StopsAt(binds, keys, 1, k);
  }

  lemma {:induction false} StopsAt(binds: map<string, Bind>, s: seq<Byte>, from: nat, k: nat)
    requires 1 <= from <= k <= |s| && !Extended(binds, s[..k])
    requires forall j :: from <= j < k ==> Extended(binds, s[..j])
    ensures Stop(binds, s, from) == k
    decreases k - from
  {
    hide Extended;
    if from < k { StopsAt(binds, s, from + 1, k); }
  }

  // Keys arriving in pieces ------------------------------------------------------------------

  lemma {:induction false} LongestBoundOfPrefix(binds: map<string, Bind>, s: seq<Byte>, t: seq<Byte>,
      k: nat, stale: Bind)
    requires k <= |s|
    ensures LongestBound(binds, s + t, k, stale) == LongestBound(binds, s, k, stale)
    decreases k
  {
    hide Exact;
    if k > 0 {
      assert (s + t)[..k] == s[..k];
      LongestBoundOfPrefix(binds, s, t, k - 1, stale);
    }
  }

  lemma {:induction false} StopOfPrefix(binds: map<string, Bind>, s: seq<Byte>, t: seq<Byte>)
    ensures var n := Stop(binds, s, 1);
      if n <= |s| then Stop(binds, s + t, 1) == n else Stop(binds, s + t, 1) > |s|
  {
    hide Extended;
    var n := Stop(binds, s, 1);
    var m := Stop(binds, s + t, 1);
    if m <= |s| { assert (s + t)[..m] == s[..m]; }
    if n <= |s| { assert (s + t)[..n] == s[..n]; }
  }

  /** What was kept while waiting changes nothing: the keys it came from are matched
      again. */
  lemma {:induction false} KeptAgain(binds: map<string, Bind>, s: seq<Byte>, t: seq<Byte>, k: nat, stale: Bind)
    requires |s| <= k <= |s + t|
    ensures LongestBound(binds, s + t, k, LongestBound(binds, s, |s|, stale)) == LongestBound(binds, s + t, k, stale)
    decreases k
  {
    hide Exact;
    if k == |s| {
      LongestBoundOfPrefix(binds, s, t, k, LongestBound(binds, s, |s|, stale));
      LongestBoundOfPrefix(binds, s, t, k, stale);
      KeptTwice(binds, s, k, stale);
    } else {
      KeptAgain(binds, s, t, k - 1, stale);
    }
  }

  lemma {:induction false} KeptTwice(binds: map<string, Bind>, s: seq<Byte>, k: nat, stale: Bind)
    requires k <= |s|
    ensures LongestBound(binds, s, k, LongestBound(binds, s, k, stale)) == LongestBound(binds, s, k, stale)
    decreases k
  {
    hide Exact;
    if k > 0 && !Bound(binds, s, k) { KeptTwice(binds, s, k - 1, stale); }
  }

  function Joined(chunks: seq<seq<Byte>>): seq<Byte> {
    if chunks == [] then [] else chunks[0] + Joined(chunks[1..])
  }

  /** Dispatching after each piece of input, until no more keys are needed. */
  ghost function Fed(binds: map<string, Bind>, s: seq<Byte>, chunks: seq<seq<Byte>>, active: Bind, stale: Bind): Outcome
    requires s != []
    decreases |chunks|
  {
    var o := Dispatched(binds, s, active, stale);
    if !o.pending || chunks == [] then o
    else Fed(binds, s + chunks[0], chunks[1..], o.active, o.prefixed)
  }

  /** However the keys arrive, the outcome is that of all of them at once. */
  lemma {:induction false} PiecesDoNotMatter(binds: map<string, Bind>, s: seq<Byte>, chunks: seq<seq<Byte>>,
      active: Bind, stale: Bind)
    requires s != []
    ensures Fed(binds, s, chunks, active, stale) == Dispatched(binds, s + Joined(chunks), active, stale)
    decreases |chunks|
  {
    hide Dispatched;
    var o := Dispatched(binds, s, active, stale);
    if !o.pending {
      EarlyDecision(binds, s, Joined(chunks), active, stale);
    } else if chunks == [] {
      assert s + Joined(chunks) == s;
    } else {
      var rest := Joined(chunks[1..]);
      PiecesDoNotMatter(binds, s + chunks[0], chunks[1..], o.active, o.prefixed);
      assert s + Joined(chunks) == s + (chunks[0] + rest) == (s + chunks[0]) + rest;
      Resumed(binds, s, chunks[0] + rest, active, stale);
    }
  }

  lemma {:induction false} EarlyDecision(binds: map<string, Bind>, s: seq<Byte>, t: seq<Byte>,
      active: Bind, stale: Bind)
    requires s != [] && !Dispatched(binds, s, active, stale).pending
    ensures Dispatched(binds, s + t, active, stale) == Dispatched(binds, s, active, stale)
  {
    hide Extended, Exact, Stop, LongestBound;
    var n := Stop(binds, s, 1);
    StopOfPrefix(binds, s, t);
    assert (s + t)[..n] == s[..n] && (s + t)[..n - 1] == s[..n - 1];
    LongestBoundOfPrefix(binds, s, t, n - 1, stale);
  }

  lemma {:induction false} Resumed(binds: map<string, Bind>, s: seq<Byte>, t: seq<Byte>, active: Bind, stale: Bind)
    requires s != [] && Dispatched(binds, s, active, stale).pending
    ensures var o := Dispatched(binds, s, active, stale);
      Dispatched(binds, s + t, o.active, o.prefixed) == Dispatched(binds, s + t, active, stale)
  {
    hide Extended, Exact, Stop, LongestBound;
    StopOfPrefix(binds, s, t);
    var n := Stop(binds, s + t, 1);
    KeptAgain(binds, s, t, n - 1, stale);
  }
}
