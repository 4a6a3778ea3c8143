/** What each escape of the quoted notation stands for, and how each 8-bit code is
    printed, by numbers (inputrc/parse.go, inputrc/inputrc.go). */
module Escapes {
  import opened Basics
  import opened Unicode
  import opened Inputrc

  // Decoding ---------------------------------------------------------------------

  /** The codes of the escapes that are a backslash and one rune. */
  const LETTER_CODES := map[
    'a' := '\U{7}', 'b' := '\U{8}', 't' := '\U{9}', 'n' := '\U{a}', 'v' := '\U{b}', 'f' := '\U{c}', 'r' := '\U{d}',
    'e' := '\U{1b}', 'd' := '\U{7f}', '\\' := '\U{5c}', '"' := '\U{22}', '\'' := '\U{27}']

  lemma {:induction false} LetterEscape(u: Tables, c: char, tail: string)
    requires c in LETTER_CODES
    ensures Decode(u, ['\\', c] + tail) == [LETTER_CODES[c]] + Decode(u, tail)
  {
    var e := ['\\', c];
    assert DecodeEscape(u, e + tail) == ([LETTER_CODES[c]], 2);
    DecodeHead(u, e, [LETTER_CODES[c]], 2, tail);
    assert e[2..] + tail == tail;
  }

  /** A backslash before any other rune is dropped; one at the end is read as NUL. */
  lemma {:induction false} OtherEscape(u: Tables, c: char, tail: string)
    requires c !in LETTER_CODES && !('0' <= c <= '7')
    requires c == 'x' ==> tail == "" || !IsHexDigit(tail[0])
    requires c == 'C' || c == 'M' ==> tail == "" || tail[0] != '-'
    ensures Decode(u, ['\\', c] + tail) == [c] + Decode(u, tail)
    ensures Decode(u, "\\") == "\0"
  {
    var e := ['\\', c];
    assert Grab(e + tail, 2) == if tail == "" then NUL else tail[0];
    assert DecodeEscape(u, e + tail) == ([c], 2);
    DecodeHead(u, e, [c], 2, tail);
    assert e[2..] + tail == tail;
    assert DecodeEscape(u, "\\") == ([NUL], 2);
  }

  /** The value of a digit, whatever its case. */
  function DigitValue(c: char): nat
    requires IsHexDigit(c)
  {
    if c <= '9' then c as int - 0x30 else if c <= 'F' then c as int - 0x37 else c as int - 0x57
  }

  /** Digits in a base, the highest first. */
  function Number(base: nat, digits: string): nat
    requires forall i :: 0 <= i < |digits| ==> IsHexDigit(digits[i])
  {
    if digits == "" then 0 else Number(base, digits[..|digits| - 1]) * base + DigitValue(digits[|digits| - 1])
  }

  lemma {:induction false} NumberOfThree(base: nat, d: string)
    requires |d| <= 3 && forall i :: 0 <= i < |d| ==> IsHexDigit(d[i])
    ensures Number(base, d) ==
      if |d| == 0 then 0
      else if |d| == 1 then DigitValue(d[0])
      else if |d| == 2 then DigitValue(d[0]) * base + DigitValue(d[1])
      else (DigitValue(d[0]) * base + DigitValue(d[1])) * base + DigitValue(d[2])
  {
    if |d| > 0 {
      var a := d[..|d| - 1];
      NumberOfTwo(base, a);
    }
  }

  lemma {:induction false} NumberOfTwo(base: nat, d: string)
    requires |d| <= 2 && forall i :: 0 <= i < |d| ==> IsHexDigit(d[i])
    ensures Number(base, d) ==
      if |d| == 0 then 0
      else if |d| == 1 then DigitValue(d[0])
      else DigitValue(d[0]) * base + DigitValue(d[1])
  {
    if |d| == 1 {
      assert d[..0] == "" && Number(base, "") == 0;
    } else if |d| == 2 {
      var a := d[..1];
      assert a[..0] == "" && Number(base, "") == 0 && Number(base, a) == DigitValue(d[0]);
    }
  }

  /** Up to three octal digits after a backslash are a code. */
  lemma {:induction false} OctalEscape(u: Tables, digits: string, tail: string)
    requires 1 <= |digits| <= 3 && forall i :: 0 <= i < |digits| ==> '0' <= digits[i] <= '7'
    requires |digits| < 3 && tail != "" ==> !('0' <= tail[0] <= '7')
    ensures Number(8, digits) < 0x200
    ensures Decode(u, ['\\'] + digits + tail) == [Number(8, digits) as char] + Decode(u, tail)
  {
    hide Decode, Number;
    NumberOfThree(8, digits);
    var e := ['\\'] + digits;
    var r := e + tail;
    OctalHead(u, digits, tail, r);
    DecodeHead(u, e, [Number(8, digits) as char], |e|, tail);
    assert e[|e|..] + tail == tail;
  }

  lemma {:induction false} OctalHead(u: Tables, d: string, tail: string, r: string)
    requires 1 <= |d| <= 3 && forall i :: 0 <= i < |d| ==> '0' <= d[i] <= '7'
    requires |d| < 3 && tail != "" ==> !('0' <= tail[0] <= '7')
    requires r == ['\\'] + d + tail
    ensures var a, b := DigitValue(d[0]), if |d| > 1 then DigitValue(d[1]) else 0;
      var c := if |d| > 2 then DigitValue(d[2]) else 0;
      && a < 8 && b < 8 && c < 8
      && DecodeEscape(u, r) ==
           ([(if |d| == 1 then a else if |d| == 2 then a * 8 + b else (a * 8 + b) * 8 + c) as char], |d| + 1)
  {
    assert Grab(r, 1) == d[0];
    assert Grab(r, 2) == if |d| > 1 then d[1] else if tail == "" then NUL else tail[0];
    assert |d| > 1 ==> Grab(r, 3) == if |d| > 2 then d[2] else if tail == "" then NUL else tail[0];
  }

  /** One or two hexadecimal digits after `\x` are a code too, but the last of them is
      read once more, as itself. */
  lemma {:induction false} HexEscape(u: Tables, digits: string, tail: string)
    requires 1 <= |digits| <= 2 && forall i :: 0 <= i < |digits| ==> IsHexDigit(digits[i])
    requires |digits| < 2 && tail != "" ==> !IsHexDigit(tail[0])
    ensures Number(16, digits) < 0x100
    ensures Decode(u, "\\x" + digits + tail)
      == [Number(16, digits) as char, digits[|digits| - 1]] + Decode(u, tail)
  {
    hide Number, Decode;
    NumberOfTwo(16, digits);
    var e := "\\x" + digits;
    var last := digits[|digits| - 1];
    HexHead(u, digits, tail, e + tail);
    DecodeHead(u, e, [Number(16, digits) as char], |e| - 1, tail);
    assert e[|e| - 1..] == [last];
    DecodePlain(u, last, tail);
  }

  lemma {:induction false} DecodePlain(u: Tables, c: char, tail: string)
    requires c != '\\'
    ensures Decode(u, [c] + tail) == [c] + Decode(u, tail)
  {
    assert ([c] + tail)[1..] == tail;
  }

  lemma {:induction false} HexHead(u: Tables, d: string, tail: string, r: string)
    requires 1 <= |d| <= 2 && forall i :: 0 <= i < |d| ==> IsHexDigit(d[i])
    requires |d| < 2 && tail != "" ==> !IsHexDigit(tail[0])
    requires r == "\\x" + d + tail
    ensures var a, b := DigitValue(d[0]), if |d| > 1 then DigitValue(d[1]) else 0;
      a < 16 && b < 16 && DecodeEscape(u, r) == ([(if |d| == 1 then a else a * 16 + b) as char], |d| + 1)
  {
    assert Grab(r, 1) == 'x' && Grab(r, 2) == d[0];
    assert Grab(r, 3) == if |d| > 1 then d[1] else if tail == "" then NUL else tail[0];
  }

  /** The five low bits of the upper-case code. */
  function ControlCode(c: char): char
    requires c < '\U{80}'
  {
    if 'a' <= c <= 'z' then (c as int - 0x60) as char else (c as int % 0x20) as char
  }

  lemma {:induction false} ControlEscape(u: Tables, c: char, tail: string)
    requires c < '\U{80}' && !(c == '\\' && "M-" <= tail)
    ensures Decode(u, "\\C-" + [c] + tail) == [if c == '?' then '\U{7f}' else ControlCode(c)] + Decode(u, tail)
  {
    var e := "\\C-" + [c];
    var out := [if c == '?' then '\U{7f}' else ControlCode(c)];
    assert !IsControlMetaPrefix(e + tail) by { NotBothPrefixes(c, tail, 'C', 'M'); }
    assert DecodeEscape(u, e + tail) == (out, 4);
    DecodeHead(u, e, out, 4, tail);
    assert e[4..] + tail == tail;
  }

  lemma {:induction false} NotBothPrefixes(c: char, tail: string, a: char, b: char)
    requires !(c == '\\' && [b, '-'] <= tail) && ((a == 'C' && b == 'M') || (a == 'M' && b == 'C'))
    ensures !IsControlMetaPrefix(['\\', a, '-', c] + tail)
  {
    var r := ['\\', a, '-', c] + tail;
    assert Grab(r, 3) == c;
    assert Grab(r, 4) == if tail == "" then NUL else tail[0];
    assert Grab(r, 5) == if |tail| < 2 then NUL else tail[1];
    assert |tail| >= 2 && tail[0] == b && tail[1] == '-' ==> [b, '-'] <= tail;
  }

  lemma {:induction false} MetaEscape(u: Tables, c: char, tail: string)
    requires '\0' < c < '\U{80}' && !(c == '\\' && "C-" <= tail)
    ensures Decode(u, "\\M-" + [c] + tail) == [(c as int + 0x80) as char] + Decode(u, tail)
    ensures Decode(u, "\\M-") == "\U{1b}"
  {
    var e := "\\M-" + [c];
    var out := [(c as int + 0x80) as char];
    assert !IsControlMetaPrefix(e + tail) by { NotBothPrefixes(c, tail, 'M', 'C'); }
    assert DecodeEscape(u, e + tail) == (out, 4);
    DecodeHead(u, e, out, 4, tail);
    assert e[4..] + tail == tail;
    assert DecodeEscape(u, "\\M-") == (['\U{1b}'], 3);
  }

  /** Both prefixes, in either order, are an escape and the control code. */
  lemma {:induction false} ControlMetaEscape(u: Tables, c: char, tail: string, controlFirst: bool)
    requires '\0' < c < '\U{80}'
    ensures Decode(u, (if controlFirst then "\\C-\\M-" else "\\M-\\C-") + [c] + tail)
      == ['\U{1b}', ControlCode(c)] + Decode(u, tail)
    ensures Decode(u, if controlFirst then "\\C-\\M-" else "\\M-\\C-") == ""
  {
    var p := if controlFirst then "\\C-\\M-" else "\\M-\\C-";
    var e := p + [c];
    var out := ['\U{1b}', ControlCode(c)];
    assert Grab(e + tail, 6) == c;
    assert DecodeEscape(u, e + tail) == (out, 7);
    DecodeHead(u, e, out, 7, tail);
    assert e[7..] + tail == tail;
    assert DecodeEscape(u, p) == ([], 7);
  }

  // Printing ---------------------------------------------------------------------

  const DIGITS := "0123456789abcdef"

  /** A 7-bit code with no spelling of its own: itself if printable, else `\x` and two
      hexadecimal digits, the first a space if it would be zero. */
  function PlainForm(n: nat): string
    requires n < 0x80
  {
    if 0x20 <= n < 0x7f then [n as char]
    else if n < 0x10 then ['\\', 'x', ' ', DIGITS[n]]
    else ['\\', 'x', DIGITS[n / 0x10], DIGITS[n % 0x10]]
  }

  /** How a code is printed, with the two spellings that the printers differ in. */
  function PrintedForm(n: nat, del: string, cr: string): string
    requires n < 0x100
  {
    if n == 0x7 then "\\a" else if n == 0x8 then "\\b" else if n == 0x9 then "\\t" else if n == 0xa then "\\n"
    else if n == 0xb then "\\v" else if n == 0xc then "\\f" else if n == 0xd then cr
    else if n == 0x1b then "\\e" else if n == 0x7f then del
    else if n == 0x22 || n == 0x27 || n == 0x5c then ['\\', n as char]
    else if n < 0x20 then ['\\', 'C', '-', (n + 0x40) as char]
    else if n < 0x80 then [n as char]
    else "\\M-" + PlainForm(n - 0x80)
  }

  lemma {:induction false} HexForm(n: nat)
    requires n < 0x100
    ensures PaddedHex(n) == if n < 0x10 then [' ', DIGITS[n]] else [DIGITS[n / 0x10], DIGITS[n % 0x10]]
  {
    if n >= 0x10 { assert Hex(n) == Hex(n / 16) + [HexDigit(n % 16)] && Hex(n / 16) == [HexDigit(n / 16)]; }
  }

  /** Every 8-bit code is printed as the table says. */
  lemma {:induction false} PrintedAs(u: Tables, c: char)
    requires c <= '\U{ff}'
    ensures EscapeRune(u, KEY_NAMES, c) == PrintedForm(c as int, "\\C-?", "\\C-M")
    ensures EscapeRune(u, MACRO_NAMES, c) == PrintedForm(c as int, "\\d", "\\r")
  {
    if IsMeta(c) { HexForm(c as int - 0x80); }
  }
}
