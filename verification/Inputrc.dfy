/** Escaping and unescaping of key sequences (inputrc/inputrc.go and the decoder
    of inputrc/parse.go). */
module Inputrc {
  import opened Basics
  import opened Unicode

  const ALERT := '\U{7}'
  const BACKSPACE := '\U{8}'
  const TAB := '\t'
  const NEWLINE := '\n'
  const VERTICAL := '\U{b}'
  const FORMFEED := '\U{c}'
  const RETURN := '\r'
  const ESC := '\U{1b}'
  const SPACE := ' '
  const DELETE := '\U{7f}'

  /** The two spellings of DEL and CR that the printers choose between. */
  const KEY_NAMES := map[DELETE := "\\C-?", RETURN := "\\C-M"]
  const MACRO_NAMES := map[DELETE := "\\d", RETURN := "\\r"]

  // Control and meta codes ------------------------------------------------

  function Encontrol(u: Tables, c: char): char {
    ((u.ToUpper(c) as int) % 0x20) as char
  }

  function Decontrol(u: Tables, c: char): char
    requires IsControl(c)
  {
    u.ToUpper((c as int + 0x40) as char)
  }

  predicate IsControl(c: char) { c < SPACE }

  predicate IsMeta(c: char) { DELETE < c <= '\U{ff}' }

  function Enmeta(c: char): char {
    if c as int / 0x80 % 2 == 1 then c else (c as int + 0x80) as char
  }

  function Demeta(c: char): char
    requires IsMeta(c)
  {
    (c as int - 0x80) as char
  }

  /** On the codes the printer writes, coding and decoding are inverse. */
  lemma {:induction false} ControlAndMetaCodes(u: Tables, c: char)
    ensures IsControl(c) ==> Encontrol(u, Decontrol(u, c)) == c
    ensures IsMeta(c) ==> Enmeta(Demeta(c)) == c
  {
  }

  // The printer -------------------------------------------------------------

  function HexDigit(n: nat): char
    requires n < 16
  {
    "0123456789abcdef"[n]
  }

  function Hex(n: nat): (s: string)
    ensures |s| > 0
    ensures n >= 0x100 ==> |s| >= 3
    ensures n >= 0x10 ==> |s| >= 2
    ensures forall i :: 0 <= i < |s| ==> IsHexDigit(s[i])
  {
    if n < 16 then [HexDigit(n)] else Hex(n / 16) + [HexDigit(n % 16)]
  }

  /** Go's verb %2x: lower case, padded on the left with a space. */
  function PaddedHex(n: nat): string {
    if n < 16 then " " + Hex(n) else Hex(n)
  }

  function Lookup(names: map<char, string>, c: char): string {
    if c in names then names[c] else ""
  }

  /** The runes with a spelling of their own. */
  predicate IsNamed(c: char) {
    ALERT <= c <= RETURN || c == ESC || c == DELETE || c == '\\' || c == '"' || c == '\''
  }

  function EscapeNamed(names: map<char, string>, c: char): string
    requires IsNamed(c)
  {
    if c == ALERT then "\\a"
    else if c == BACKSPACE then "\\b"
    else if c == DELETE then Lookup(names, c)
    else if c == ESC then "\\e"
    else if c == FORMFEED then "\\f"
    else if c == NEWLINE then "\\n"
    else if c == RETURN then Lookup(names, c)
    else if c == TAB then "\\t"
    else if c == VERTICAL then "\\v"
    else ['\\', c]
  }

  function PrintableOrHex(u: Tables, c: char): string {
    if u.IsPrint(c) then [c] else ['\\', 'x'] + PaddedHex(c as int)
  }

  function EscapeMeta(u: Tables, c: char): string {
    if IsMeta(c) then ['\\', 'M', '-'] + PrintableOrHex(u, Demeta(c)) else PrintableOrHex(u, c)
  }

  function EscapeRune(u: Tables, names: map<char, string>, c: char): string {
    if IsNamed(c) then EscapeNamed(names, c)
    else if IsControl(c) then ['\\', 'C', '-'] + EscapeMeta(u, Decontrol(u, c))
    else EscapeMeta(u, c)
  }

  function EscapeWith(u: Tables, names: map<char, string>, s: string): string {
    if s == "" then "" else EscapeRune(u, names, s[0]) + EscapeWith(u, names, s[1..])
  }

  lemma {:induction false} EscapeWithAppend(u: Tables, names: map<char, string>, s: string, c: char)
    ensures EscapeWith(u, names, s + [c]) == EscapeWith(u, names, s) + EscapeRune(u, names, c)
  {
    hide EscapeRune;
    if s == "" {
      assert s + [c] == [c];
      assert EscapeWith(u, names, [c]) == EscapeRune(u, names, c) + "";
    } else {
      EscapeWithAppend(u, names, s[1..], c);
      assert (s + [c])[1..] == s[1..] + [c];
    }
  }

  method EscapeLoop(u: Tables, names: map<char, string>, s: string) returns (v: string)
    ensures v == EscapeWith(u, names, s)
  {
    hide EscapeRune;
    v := "";
    for i := 0 to |s|
      invariant v == EscapeWith(u, names, s[..i])
    {
      EscapeWithAppend(u, names, s[..i], s[i]);
      assert s[..i + 1] == s[..i] + [s[i]];
      v := v + EscapeRune(u, names, s[i]);
    }
    assert s[..|s|] == s;
  }

  function Escape(u: Tables, s: string): string { EscapeWith(u, KEY_NAMES, s) }

  function EscapeMacro(u: Tables, s: string): string { EscapeWith(u, MACRO_NAMES, s) }

  // The decoder -------------------------------------------------------------

  predicate IsOctDigit(c: char) { '0' <= c <= '7' }

  predicate IsHexDigit(c: char) { '0' <= c <= '9' || 'A' <= c <= 'F' || 'a' <= c <= 'f' }

  function HexVal(c: char): (n: nat)
    requires IsHexDigit(c)
    ensures n < 16
  {
    if 'a' <= c <= 'f' then c as int - 'a' as int + 10
    else if 'A' <= c <= 'F' then c as int - 'A' as int + 10
    else c as int - '0' as int
  }

  function OctVal(c: char): (n: nat)
    requires IsOctDigit(c)
    ensures n < 8
  {
    c as int - '0' as int
  }

  /** Lookahead: r[i], or NUL at or past the end. */
  function Grab(r: string, i: nat): char {
    if i < |r| then r[i] else NUL
  }

  predicate IsControlMetaPrefix(r: string) {
    && ((Grab(r, 1) == 'C' && Grab(r, 4) == 'M') || (Grab(r, 1) == 'M' && Grab(r, 4) == 'C'))
    && Grab(r, 2) == '-' && Grab(r, 3) == '\\' && Grab(r, 5) == '-'
  }

  /** The runes one backslash escape at the head of r stands for, and how many
      runes of r it uses up. The two \x forms use up one rune too few. */
  function DecodeEscape(u: Tables, r: string): (p: (string, nat))
    ensures p.1 >= 2
  {
    var c1, c2, c3 := Grab(r, 1), Grab(r, 2), Grab(r, 3);
    if c1 == 'a' then ([ALERT], 2)
    else if c1 == 'b' then ([BACKSPACE], 2)
    else if c1 == 'd' then ([DELETE], 2)
    else if c1 == 'e' then ([ESC], 2)
    else if c1 == 'f' then ([FORMFEED], 2)
    else if c1 == 'n' then ([NEWLINE], 2)
    else if c1 == 'r' then ([RETURN], 2)
    else if c1 == 't' then ([TAB], 2)
    else if c1 == 'v' then ([VERTICAL], 2)
    else if c1 == '\\' || c1 == '"' || c1 == '\'' then ([c1], 2)
    else if c1 == 'x' && IsHexDigit(c2) && IsHexDigit(c3) then
      ([(HexVal(c2) * 16 + HexVal(c3)) as char], 3)
    else if c1 == 'x' && IsHexDigit(c2) then ([HexVal(c2) as char], 2)
    else if IsOctDigit(c1) && IsOctDigit(c2) && IsOctDigit(c3) then
      ([(OctVal(c1) * 64 + OctVal(c2) * 8 + OctVal(c3)) as char], 4)
    else if IsOctDigit(c1) && IsOctDigit(c2) then ([(OctVal(c1) * 8 + OctVal(c2)) as char], 3)
    else if IsOctDigit(c1) then ([OctVal(c1) as char], 2)
    else if IsControlMetaPrefix(r) then
      (if Grab(r, 6) != NUL then [ESC, Encontrol(u, Grab(r, 6))] else [], 7)
    else if c1 == 'C' && c2 == '-' then
      ([if c3 == '?' then DELETE else Encontrol(u, c3)], 4)
    else if c1 == 'M' && c2 == '-' then
      if c3 == NUL then ([ESC], 3) else ([Enmeta(c3)], 4)
    else ([c1], 2)
  }

  function Decode(u: Tables, r: string): string
    decreases |r|
  {
    if r == "" then ""
    else if r[0] != '\\' then [r[0]] + Decode(u, r[1..])
    else
      var (out, used) := DecodeEscape(u, r);
      out + (if used < |r| then Decode(u, r[used..]) else "")
  }

  function DecodeRest(u: Tables, r: string, pos: nat): string {
    if pos < |r| then Decode(u, r[pos..]) else ""
  }

  lemma {:induction false} DecodeStep(u: Tables, r: string, pos: nat)
    requires pos < |r|
    ensures r[pos] != '\\' ==> DecodeRest(u, r, pos) == [r[pos]] + DecodeRest(u, r, pos + 1)
    ensures r[pos] == '\\' ==>
      var (out, used) := DecodeEscape(u, r[pos..]);
      DecodeRest(u, r, pos) == out + DecodeRest(u, r, pos + used)
  {
    var rest := r[pos..];
    if rest[0] != '\\' {
      assert rest[1..] == r[pos + 1..];
    } else {
      var used := DecodeEscape(u, rest).1;
      assert used < |rest| ==> rest[used..] == r[pos + used..];
    }
  }

  lemma {:induction false} RestOfSlice(u: Tables, r: string, i: nat, end: nat)
    requires i <= end <= |r|
    ensures DecodeRest(u, r[..end], i) == Decode(u, r[i..end])
    ensures forall pos :: pos >= end ==> DecodeRest(u, r[..end], pos) == ""
    ensures forall pos :: i <= pos < end ==> r[..end][pos..] == r[pos..end]
  {
    assert r[..end][i..] == r[i..end];
  }

  /** unescapeRunes: the runes of r[i..end], except that a slice of one rune is
      returned whole whatever the bounds. */
  method UnescapeRunes(u: Tables, r: string, i: nat, end: nat) returns (s: string)
    requires i <= end <= |r|
    ensures s == if |r| == 1 then r else Decode(u, r[i..end])
  {
    hide DecodeEscape, Decode;
    if |r| == 1 { return r; }
    s := "";
    var pos := i;
    RestOfSlice(u, r, i, end);
    while pos < end
      invariant i <= pos
      invariant s + DecodeRest(u, r[..end], pos) == Decode(u, r[i..end])
    {
      DecodeStep(u, r[..end], pos);
      if r[pos] == '\\' {
        var (out, used) := DecodeEscape(u, r[pos..end]);
        s := s + out;
        pos := pos + used;
      } else {
        s := s + [r[pos]];
        pos := pos + 1;
      }
    }
  }

  function Unescape(u: Tables, s: string): string {
    if |s| == 1 then s else Decode(u, s)
  }

  // Which runes survive, and next to what ------------------------------------

  predicate IsNames(names: map<char, string>) { names == KEY_NAMES || names == MACRO_NAMES }

  /** A rune whose printed form, alone, is read back as the rune. */
  predicate Faithful(u: Tables, c: char) {
    c <= '\U{7f}' || '\U{a0}' <= c <= '\U{fe}' || (c > '\U{ff}' && u.IsPrint(c))
  }

  /** c prints as `\C-\` or `\M-\` and the text after it completes that to the
      prefix of a control-meta key. */
  predicate Clashes(c: char, next: string) {
    || (c == '\U{1c}' && "M-" <= next)
    || (c == '\U{dc}' && "C-" <= next)
  }

  /** Every rune faithful, no clash with the two runes that follow. */
  predicate Decodable(u: Tables, s: string) {
    forall i :: 0 <= i < |s| ==> Faithful(u, s[i]) && !Clashes(s[i], s[i + 1..])
  }

  lemma {:induction false} DecodeHead(u: Tables, e: string, out: string, used: nat, tail: string)
    requires 2 <= used <= |e| && e[0] == '\\'
    requires DecodeEscape(u, e + tail) == (out, used)
    ensures Decode(u, e + tail) == out + Decode(u, e[used..] + tail)
  {
    assert (e + tail)[used..] == e[used..] + tail;
  }

  /** The printer's form of c, whatever follows it, decodes to c when c is
      faithful and does not clash. Otherwise the first rune decoded is wrong. */
  lemma {:induction false} DecodePrinted(u: Tables, names: map<char, string>, c: char, tail: string)
    requires IsNames(names)
    requires Clashes(c, tail) && |tail| > 2 ==> tail[2] != NUL
    ensures Faithful(u, c) && !Clashes(c, tail) ==>
      Decode(u, EscapeRune(u, names, c) + tail) == [c] + Decode(u, tail)
    ensures !Faithful(u, c) || Clashes(c, tail) ==>
      var d := Decode(u, EscapeRune(u, names, c) + tail);
      d == "" || d[0] != c
  {
    if IsNamed(c) {
      DecodeNamed(u, names, c, tail);
    } else if IsControl(c) {
      DecodeControl(u, names, c, tail);
    } else if IsMeta(c) {
      DecodeMeta(u, names, c, tail);
    } else {
      DecodePlain(u, names, c, tail);
    }
  }

  lemma {:induction false} DecodeNamed(u: Tables, names: map<char, string>, c: char, tail: string)
    requires IsNames(names)
    requires IsNamed(c)
    ensures Decode(u, EscapeRune(u, names, c) + tail) == [c] + Decode(u, tail)
  {
    var e := EscapeRune(u, names, c);
    var t := e + tail;
    assert |e| == 4 ==> t[..4] == e && t[1] == 'C' && t[2] == '-';
    DecodeHead(u, e, [c], |e|, tail);
    assert e[|e|..] + tail == tail;
  }

  lemma {:induction false} ControlMetaPrefixAt(e: string, tail: string)
    requires |e| == 4 && (e[..3] == "\\C-" || e[..3] == "\\M-")
    ensures IsControlMetaPrefix(e + tail) <==>
      e[3] == '\\' && (if e[1] == 'C' then "M-" else "C-") <= tail
  {
    var t := e + tail;
    assert e[1] == e[..3][1] && e[2] == e[..3][2];
    assert |tail| > 0 ==> t[4] == tail[0];
    assert |tail| > 1 ==> t[5] == tail[1];
  }

  /** A four-rune escape: control, meta, or the prefix of a control-meta key. */
  lemma {:induction false} DecodeFour(u: Tables, e: string, tail: string)
    requires |e| == 4 && (e[..3] == "\\C-" || e[..3] == "\\M-") && e[3] != NUL
    requires e[3] == '\\' && (if e[1] == 'C' then "M-" else "C-") <= tail && |tail| > 2 ==> tail[2] != NUL
    ensures var d := Decode(u, e + tail);
      if e[3] == '\\' && (if e[1] == 'C' then "M-" else "C-") <= tail then d == "" || d[0] == ESC
      else d == [if e[1] == 'M' then Enmeta(e[3]) else if e[3] == '?' then DELETE else Encontrol(u, e[3])]
                + Decode(u, tail)
  {
    var t := e + tail;
    assert e == e[..3] + [e[3]];
    ControlMetaPrefixAt(e, tail);
    assert |tail| > 2 ==> t[6] == tail[2];
    assert t[4..] == tail;
    assert t[0] == '\\' && t[1] == e[1] && t[2] == '-' && t[3] == e[3];
  }

  lemma {:induction false} DecodeControl(u: Tables, names: map<char, string>, c: char, tail: string)
    requires IsControl(c) && !IsNamed(c)
    requires Clashes(c, tail) && |tail| > 2 ==> tail[2] != NUL
    ensures Faithful(u, c)
    ensures var d := Decode(u, EscapeRune(u, names, c) + tail);
      if Clashes(c, tail) then d == "" || d[0] == ESC else d == [c] + Decode(u, tail)
  {
    hide DecodeEscape;
    var e := ['\\', 'C', '-', Decontrol(u, c)];
    assert EscapeRune(u, names, c) == e;
    DecodeFour(u, e, tail);
  }

  lemma {:induction false} DecodeMeta(u: Tables, names: map<char, string>, c: char, tail: string)
    requires IsMeta(c)
    requires Clashes(c, tail) && |tail| > 2 ==> tail[2] != NUL
    ensures var d := Decode(u, EscapeRune(u, names, c) + tail);
      if !Faithful(u, c) then d != "" && d[0] == '\U{dc}' && c != '\U{dc}'
      else if Clashes(c, tail) then d == "" || d[0] == ESC
      else d == [c] + Decode(u, tail)
  {
    hide DecodeEscape, Decode;
    var low := Demeta(c);
    if u.IsPrint(low) {
      var e := ['\\', 'M', '-', low];
      assert EscapeRune(u, names, c) == e;
      DecodeFour(u, e, tail);
    } else {
      DecodeMetaHex(u, names, c, tail);
    }
  }

  lemma {:induction false} DecodeMetaHex(u: Tables, names: map<char, string>, c: char, tail: string)
    requires IsMeta(c) && !u.IsPrint(Demeta(c))
    ensures var d := Decode(u, EscapeRune(u, names, c) + tail); d != "" && d[0] == '\U{dc}'
  {
    hide DecodeEscape, Decode;
    var h := PaddedHex(Demeta(c) as int);
    var e, rest := ['\\', 'M', '-', '\\'], ['x'] + h + tail;
    assert EscapeRune(u, names, c) + tail == e + rest;
    assert rest[2] == h[1] && rest[0] != 'C';
    DecodeFour(u, e, rest);
  }

  lemma {:induction false} DecodePlain(u: Tables, names: map<char, string>, c: char, tail: string)
    requires !IsControl(c) && !IsMeta(c) && !IsNamed(c)
    ensures var d := Decode(u, EscapeRune(u, names, c) + tail);
      if Faithful(u, c) then d == [c] + Decode(u, tail) else d != "" && d[0] != c
  {
    var e := EscapeRune(u, names, c);
    var t := e + tail;
    if u.IsPrint(c) {
      assert t[0] == c && t[1..] == tail;
    } else {
      DecodeHexForm(u, c as int, tail);
    }
  }

  lemma {:induction false} DecodeHexForm(u: Tables, n: nat, tail: string)
    requires n > 0xff
    ensures var d := Decode(u, ['\\', 'x'] + PaddedHex(n) + tail); d != "" && d[0] as int < 0x100
  {
    var h := Hex(n);
    var t := ['\\', 'x'] + h + tail;
    assert t[1] == 'x' && t[2] == h[0] && t[3] == h[1];
    assert DecodeEscape(u, t) == ([(HexVal(h[0]) * 16 + HexVal(h[1])) as char], 3);
  }

  lemma {:induction false} RuneHasNoNul(u: Tables, names: map<char, string>, c: char)
    requires IsNames(names)
    ensures NUL !in EscapeRune(u, names, c)
  {
    hide IsNamed;
    if IsNamed(c) { NameHasNoNul(names, c); }
  }

  lemma {:induction false} NameHasNoNul(names: map<char, string>, c: char)
    requires IsNames(names) && IsNamed(c)
    ensures NUL !in EscapeNamed(names, c)
  {
  }

  lemma {:induction false} PrintedHasNoNul(u: Tables, names: map<char, string>, s: string)
    requires IsNames(names)
    ensures NUL !in EscapeWith(u, names, s)
  {
    if s != "" {
      hide EscapeRune;
      RuneHasNoNul(u, names, s[0]);
      PrintedHasNoNul(u, names, s[1..]);
    }
  }

  // Round trips ---------------------------------------------------------------

  /** The printed form of s reads back as s exactly when s is decodable. */
  lemma {:induction false} DecodeInvertsEscape(u: Tables, names: map<char, string>, s: string)
    requires IsNames(names)
    ensures Decode(u, EscapeWith(u, names, s)) == s <==> Decodable(u, s)
  {
    if s == "" {
      assert EscapeWith(u, names, s) == "";
    } else {
      hide EscapeRune, DecodeEscape, Faithful, Clashes, Decodable;
      var e := EscapeWith(u, names, s[1..]);
      PrintedHasNoNul(u, names, s[1..]);
      DecodePrinted(u, names, s[0], e);
      DecodeInvertsEscape(u, names, s[1..]);
      ClashesInPrinted(u, names, s[0], s[1..]);
      DecodableCons(u, s);
      assert s == [s[0]] + s[1..];
    }
  }

  lemma {:induction false} DecodableCons(u: Tables, s: string)
    requires s != ""
    ensures Decodable(u, s) <==> Faithful(u, s[0]) && !Clashes(s[0], s[1..]) && Decodable(u, s[1..])
  {
    var t := s[1..];
    forall i | 0 <= i < |t| ensures t[i] == s[i + 1] && t[i + 1..] == s[i + 2..] {}
    if Faithful(u, s[0]) && !Clashes(s[0], t) && Decodable(u, t) {
      forall i | 0 <= i < |s| ensures Faithful(u, s[i]) && !Clashes(s[i], s[i + 1..]) {
        if i > 0 { assert t[i - 1] == s[i] && t[i - 1 + 1..] == s[i + 1..]; }
      }
    }
  }

  /** A clash with the printed text is a clash with the runes themselves. */
  lemma {:induction false} ClashesInPrinted(u: Tables, names: map<char, string>, c: char, s: string)
    requires IsNames(names)
    ensures Clashes(c, EscapeWith(u, names, s)) <==> Clashes(c, s)
  {
    PrintedStart(u, names, s, 'M');
    PrintedStart(u, names, s, 'C');
  }

  lemma {:induction false} PrintedStart(u: Tables, names: map<char, string>, s: string, a: char)
    requires IsNames(names) && (a == 'M' || a == 'C')
    ensures [a, '-'] <= EscapeWith(u, names, s) <==> [a, '-'] <= s
  {
    hide EscapeRune;
    PrintedHead(u, names, s, a);
    if s != "" && s[0] == a {
      PrintedHead(u, names, s[1..], '-');
    }
  }

  lemma {:induction false} PrintedHead(u: Tables, names: map<char, string>, s: string, a: char)
    requires IsNames(names)
    requires a == 'M' || a == 'C' || a == '-'
    ensures var e := EscapeWith(u, names, s);
      if s == "" then e == ""
      else if s[0] == a then e == [a] + EscapeWith(u, names, s[1..])
      else e != "" && e[0] != a
  {
    hide EscapeRune;
    if s != "" { RuneHead(u, names, s[0]); }
  }

  /** A rune prints as itself, or as two runes or more from a backslash on. */
  lemma {:induction false} RuneHead(u: Tables, names: map<char, string>, c: char)
    requires IsNames(names)
    ensures var e := EscapeRune(u, names, c);
      || (e == [c] && c != '\\')
      || (|e| >= 2 && e[0] == '\\' && c != 'M' && c != 'C' && c != '-')
  {
  }

  lemma {:induction false} UnescapeInvertsEscape(u: Tables, names: map<char, string>, s: string)
    requires IsNames(names)
    ensures Unescape(u, EscapeWith(u, names, s)) == s <==> Decodable(u, s)
  {
    hide EscapeRune, Decodable;
    DecodeInvertsEscape(u, names, s);
    var e := EscapeWith(u, names, s);
    if |e| == 1 {
      RuneHead(u, names, s[0]);
      assert Decode(u, e) == [e[0]] + Decode(u, e[1..]);
      assert Decode(u, e) == e;
    }
  }

  /** The keys control-backslash, M, hyphen are not read back. */
  lemma {:induction false} ClashLost(u: Tables)
    ensures Unescape(u, Escape(u, "\U{1c}M-")) != "\U{1c}M-"
  {
    var s := "\U{1c}M-";
    UnescapeInvertsEscape(u, KEY_NAMES, s);
    assert "M-" <= s[1..] && Clashes(s[0], s[0 + 1..]);
  }

  /** Two decodable key sequences never print alike. */
  lemma {:induction false} EscapeInjective(u: Tables, names: map<char, string>, s: string, t: string)
    requires IsNames(names) && Decodable(u, s) && Decodable(u, t)
    requires EscapeWith(u, names, s) == EscapeWith(u, names, t)
    ensures s == t
  {
    DecodeInvertsEscape(u, names, s);
    DecodeInvertsEscape(u, names, t);
  }

  /** A quote in the printed text sits at the end of a printed rune. */
  lemma {:induction false} QuoteInPrinted(u: Tables, names: map<char, string>, c: char, n: nat)
    requires IsNames(names)
    requires n < |EscapeRune(u, names, c)| && EscapeRune(u, names, c)[n] == '"'
    ensures (c == '"' && n == 1) || (c == '\U{a2}' && n == 3)
  {
  }

  /** Text cut short at a quote never decodes to the runes it was printed from. */
  lemma {:induction false} CutNeverDecodes(u: Tables, names: map<char, string>, s: string, n: nat)
    requires IsNames(names)
    requires n < |EscapeWith(u, names, s)| && EscapeWith(u, names, s)[n] == '"'
    ensures Decode(u, EscapeWith(u, names, s)[..n]) != s
  {
    hide EscapeRune, DecodeEscape, Faithful, Clashes;
    var c, e, rest := s[0], EscapeRune(u, names, s[0]), EscapeWith(u, names, s[1..]);
    var t := EscapeWith(u, names, s);
    if n < |e| {
      QuoteInPrinted(u, names, c, n);
      CutInsideRune(u, names, c, n);
      assert t[..n] == e[..n];
    } else {
      var tail := rest[..n - |e|];
      assert t[..n] == e + tail;
      PrintedHasNoNul(u, names, s[1..]);
      DecodePrinted(u, names, c, tail);
      assert rest[n - |e|] == t[n];
      CutNeverDecodes(u, names, s[1..], n - |e|);
      assert s == [c] + s[1..];
    }
  }

  lemma {:induction false} CutInsideRune(u: Tables, names: map<char, string>, c: char, n: nat)
    requires (c == '"' && n == 1) || (c == '\U{a2}' && n == 3)
    ensures n < |EscapeRune(u, names, c)|
    ensures var d := Decode(u, EscapeRune(u, names, c)[..n]); d != "" && d[0] != c
  {
    var t := EscapeRune(u, names, c)[..n];
    if c == '"' {
      assert t == ['\\'];
      assert DecodeEscape(u, t) == ([NUL], 2);
    } else {
      assert t == ['\\', 'M', '-'];
      assert DecodeEscape(u, t) == ([ESC], 3);
    }
  }

  /** Nor does text that runs on past the closing quote. */
  lemma {:induction false} OverrunNeverDecodes(u: Tables, names: map<char, string>, s: string, more: string)
    requires IsNames(names)
    ensures Decode(u, EscapeWith(u, names, s) + ['"'] + more) != s
  {
    hide EscapeRune, DecodeEscape, Faithful;
    var t := EscapeWith(u, names, s) + ['"'] + more;
    if s == "" {
      assert Decode(u, t) == ['"'] + Decode(u, t[1..]);
    } else {
      var rest := EscapeWith(u, names, s[1..]);
      var tail := rest + ['"'] + more;
      assert t == EscapeRune(u, names, s[0]) + tail;
      PrintedHasNoNul(u, names, s[1..]);
      if Clashes(s[0], tail) && |tail| > 2 {
        assert tail[1] == '-' && tail[0] != '"';
        assert |rest| >= 2;
        assert tail[2] == if |rest| == 2 then '"' else rest[2];
      }
      DecodePrinted(u, names, s[0], tail);
      OverrunNeverDecodes(u, names, s[1..], more);
      assert s == [s[0]] + s[1..];
    }
  }
}
