/** One line of an inputrc file: the statement reader (inputrc/parse.go), and the
    dump lines that are meant to be read back. */
module BindLines {
  import opened Basics
  import opened Unicode
  import opened Inputrc

  datatype Token = TokenNone | TokenBind | TokenBindMacro | TokenSet | TokenConstruct

  datatype ReadError =
    | BindMissingClosingQuote
    | MissingColon
    | MacroMissingClosingQuote
    | UnknownModifier

  /** OutOfRange stands for the runtime panic of an index past the end. */
  datatype Outcome =
    | Statement(name: string, value: string, token: Token)
    | Malformed(error: ReadError, text: string)
    | OutOfRange

  // Scanning helpers ----------------------------------------------------------

  function NonSpace(u: Tables, r: string, i: nat): (n: nat)
    requires i <= |r|
    ensures i <= n <= |r|
    ensures forall j :: i <= j < n ==> u.IsSpace(r[j])
    ensures n < |r| ==> !u.IsSpace(r[n])
    decreases |r| - i
  {
    if i < |r| && u.IsSpace(r[i]) then NonSpace(u, r, i + 1) else i
  }

  method FindNonSpace(u: Tables, r: string, i: nat) returns (n: nat)
    requires i <= |r|
    ensures n == NonSpace(u, r, i)
  {
    n := i;
    while n < |r| && u.IsSpace(r[n])
      invariant i <= n <= |r|
      invariant NonSpace(u, r, n) == NonSpace(u, r, i)
    {
      n := n + 1;
    }
  }

  /** A rune that ends a symbol; colons end only key names. */
  predicate Stops(u: Tables, c: char, key: bool) {
    c == '#' || u.IsSpace(c) || u.IsControl(c) || (key && c == ':')
  }

  function NextStop(u: Tables, r: string, i: nat, key: bool): (n: nat)
    requires i <= |r|
    ensures i <= n <= |r|
    ensures forall j :: i <= j < n ==> !Stops(u, r[j], key)
    ensures n < |r| ==> Stops(u, r[n], key)
    decreases |r| - i
  {
    if i < |r| && !Stops(u, r[i], key) then NextStop(u, r, i + 1, key) else i
  }

  /** Where the symbol at i ends. Its first rune is never looked at, and a symbol
      of one rune comes out empty. */
  function SymbolEnd(u: Tables, r: string, i: nat, key: bool): (n: nat)
    requires i <= |r|
    ensures i <= n <= |r|
  {
    if i + 1 < |r| && !Stops(u, r[i + 1], key) then NextStop(u, r, i + 1, key) else i
  }

  method FindEnd(u: Tables, r: string, i: nat, key: bool) returns (n: nat)
    requires i <= |r|
    ensures n == SymbolEnd(u, r, i, key)
  {
    n := i;
    var c := Grab(r, n + 1);
    while n < |r| && !Stops(u, c, key)
      invariant i <= n <= |r|
      invariant c == Grab(r, if n == i then i + 1 else n)
      invariant n > i ==> i + 1 < |r| && !Stops(u, r[i + 1], key)
      invariant n > i ==> NextStop(u, r, n, key) == SymbolEnd(u, r, i, key)
    {
      c := Grab(r, n + 1);
      n := n + 1;
    }
  }

  /** Position of the first unescaped quote at or after i. */
  function CloseAt(r: string, quote: char, i: nat): (o: Option<nat>)
    ensures o.Some? ==> i <= o.value < |r| && r[o.value] == quote
    decreases if i < |r| then |r| - i else 0
  {
    if i >= |r| then None
    else if r[i] == '\\' then CloseAt(r, quote, i + 2)
    else if r[i] == quote then Some(i)
    else CloseAt(r, quote, i + 1)
  }

  method FindStringEnd(r: string, start: nat) returns (pos: nat, ok: bool)
    requires start < |r|
    ensures ok == CloseAt(r, r[start], start + 1).Some?
    ensures if ok then pos == CloseAt(r, r[start], start + 1).value + 1 else |r| <= pos
  {
    var quote := r[start];
    pos := start + 1;
    while pos < |r|
      invariant start < pos
      invariant CloseAt(r, quote, pos) == CloseAt(r, quote, start + 1)
    {
      if r[pos] == '\\' {
        pos := pos + 1;
      } else if r[pos] == quote {
        return pos + 1, true;
      }
      pos := pos + 1;
    }
    ok := false;
  }

  // Named keys ------------------------------------------------------------------

  function IndexOf(s: string, c: char, i: nat): (n: nat)
    requires i <= |s|
    ensures i <= n <= |s| && (n < |s| ==> s[n] == c)
    decreases |s| - i
  {
    if i < |s| && s[i] != c then IndexOf(s, c, i + 1) else i
  }

  const CONTROL_NAMES := ["control", "ctrl", "c"]
  const META_NAMES := ["meta", "m"]

  datatype Modified = Modified(control: bool, meta: bool, key: string)

  function Modifiers(val: string, control: bool, meta: bool): Option<Modified>
    decreases |val|
  {
    var idx := IndexOf(val, '-', 0);
    if idx == |val| then Some(Modified(control, meta, val))
    else if val[..idx] in CONTROL_NAMES then Modifiers(val[idx + 1..], true, meta)
    else if val[..idx] in META_NAMES then Modifiers(val[idx + 1..], control, true)
    else None
  }

  function NamedKey(val: string): char
    requires val != ""
  {
    if val in ["delete", "del", "rubout"] then DELETE
    else if val in ["escape", "esc"] then ESC
    else if val in ["newline", "linefeed", "lfd"] then NEWLINE
    else if val in ["return", "ret"] then RETURN
    else if val == "tab" then TAB
    else if val in ["space", "spc"] then SPACE
    else if val in ["formfeed", "ffd"] then FORMFEED
    else if val in ["vertical", "vrt"] then VERTICAL
    else val[0]
  }

  function LowerCase(u: Tables, s: string): string {
    seq(|s|, i requires 0 <= i < |s| => u.ToLower(s[i]))
  }

  /** decodeKey on the symbol already cut out of the line. */
  function DecodeKey(u: Tables, symbol: string): Option<string> {
    match Modifiers(LowerCase(u, symbol), false, false)
    case None => None
    case Some(Modified(control, meta, key)) =>
      if key == "" then Some("")
      else
        var c := NamedKey(key);
        Some(if control && meta then [ESC, Encontrol(u, c)]
             else if control then [Encontrol(u, c)]
             else if meta then [Enmeta(c)]
             else [c])
  }

  // The statement reader -----------------------------------------------------------

  function ReadSymbols(u: Tables, line: string, pos: nat, token: Token, allowStrings: bool): Outcome
    requires pos <= |line|
  {
    var start := NonSpace(u, line, pos);
    var stop := SymbolEnd(u, line, start, false);
    var begin := NonSpace(u, line, stop);
    if allowStrings && begin == |line| then OutOfRange
    else
      var close := if allowStrings then CloseAt(line, line[begin], begin + 1) else None;
      var finish := if close.Some? then close.value + 1 else SymbolEnd(u, line, begin, false);
      Statement(line[start..stop], line[begin..finish], token)
  }

  /** What is left of the line once the key sequence has been read up to pos. */
  function ReadAction(u: Tables, line: string, keys: string, pos: nat): Outcome
    requires pos <= |line|
  {
    var colon := IndexOf(line, ':', pos);
    if colon == |line| then Malformed(MissingColon, line)
    else
      var start := NonSpace(u, line, colon + 1);
      if start == |line| || line[start] == '#' then Statement(keys, "", TokenNone)
      else if line[start] == '"' || line[start] == '\'' then
        match CloseAt(line, line[start], start + 1)
        case None => Malformed(MacroMissingClosingQuote, line[start..])
        case Some(k) => Statement(keys, Decode(u, line[start + 1..k]), TokenBindMacro)
      else Statement(keys, line[start..SymbolEnd(u, line, start, false)], TokenBind)
  }

  predicate IsSetDirective(u: Tables, line: string, pos: nat)
    requires pos < |line|
  {
    line[pos] == 's' && Grab(line, pos + 1) == 'e' && Grab(line, pos + 2) == 't' && u.IsSpace(Grab(line, pos + 3))
  }

  function Read(u: Tables, line: string, from: nat): Outcome
    requires from <= |line| && NonSpace(u, line, from) < |line|
  {
    var pos := NonSpace(u, line, from);
    if IsSetDirective(u, line, pos) then ReadSymbols(u, line, pos + 4, TokenSet, true)
    else if line[pos] == '$' then ReadSymbols(u, line, pos, TokenConstruct, false)
    else if line[pos] == '"' || line[pos] == '\'' then
      match CloseAt(line, line[pos], pos + 1)
      case None => Malformed(BindMissingClosingQuote, line[pos..])
      case Some(k) => ReadAction(u, line, Decode(u, line[pos + 1..k]), k + 1)
    else
      var stop := SymbolEnd(u, line, pos, true);
      match DecodeKey(u, line[pos..stop])
      case None => Malformed(UnknownModifier, line)
      case Some(keys) => ReadAction(u, line, keys, stop)
  }

  method DecodeKeyName(u: Tables, line: string, start: nat) returns (keys: Option<string>, pos: nat)
    requires start <= |line|
    ensures pos == SymbolEnd(u, line, start, true)
    ensures keys == DecodeKey(u, line[start..pos])
  {
    pos := FindEnd(u, line, start, true);
    var val := LowerCase(u, line[start..pos]);
    var control, meta := false, false;
    var idx := IndexOf(val, '-', 0);
    while idx < |val|
      invariant idx == IndexOf(val, '-', 0)
      invariant Modifiers(val, control, meta) == Modifiers(LowerCase(u, line[start..pos]), false, false)
      decreases |val|
    {
      if val[..idx] in CONTROL_NAMES {
        control := true;
      } else if val[..idx] in META_NAMES {
        meta := true;
      } else {
        return None, pos;
      }
      val := val[idx + 1..];
      idx := IndexOf(val, '-', 0);
    }
    if val == "" { return Some(""), pos; }
    var c := NamedKey(val);
    if control && meta { return Some([ESC, Encontrol(u, c)]), pos; }
    if control {
      c := Encontrol(u, c);
    } else if meta {
      c := Enmeta(c);
    }
    keys := Some([c]);
  }

  method ReadSymbolsAt(u: Tables, line: string, from: nat, token: Token, allowStrings: bool) returns (o: Outcome)
    requires from <= |line|
    ensures o == ReadSymbols(u, line, from, token, allowStrings)
  {
    hide NonSpace, SymbolEnd, CloseAt;
    var start := FindNonSpace(u, line, from);
    var pos := FindEnd(u, line, start, false);
    var val := line[start..pos];
    start := FindNonSpace(u, line, pos);
    var ok := false;
    var c := Grab(line, start);
    if allowStrings || c == '"' || c == '\'' {
      if start == |line| { return OutOfRange; }
      var epos;
      epos, ok := FindStringEnd(line, start);
      if ok { pos := epos; }
    }
    if !allowStrings || !ok {
      pos := FindEnd(u, line, start, false);
    }
    o := Statement(val, line[start..pos], token);
  }

  method FindColon(line: string, from: nat) returns (pos: nat)
    requires from <= |line|
    ensures pos == IndexOf(line, ':', from)
  {
    pos := from;
    while pos < |line| && line[pos] != ':'
      invariant from <= pos <= |line|
      invariant IndexOf(line, ':', pos) == IndexOf(line, ':', from)
    {
      pos := pos + 1;
    }
  }

  method ReadActionAt(u: Tables, line: string, keys: string, from: nat) returns (o: Outcome)
    requires from <= |line|
    ensures o == ReadAction(u, line, keys, from)
  {
    hide Decode, SymbolEnd, CloseAt, NonSpace, IndexOf;
    var pos := FindColon(line, from);
    if pos == |line| { return Malformed(MissingColon, line); }
    pos := FindNonSpace(u, line, pos + 1);
    if pos == |line| || line[pos] == '#' { return Statement(keys, "", TokenNone); }
    if line[pos] == '"' || line[pos] == '\'' {
      var start := pos;
      var ok;
      pos, ok := FindStringEnd(line, pos);
      if !ok { return Malformed(MacroMissingClosingQuote, line[start..]); }
      var action := UnescapeRunes(u, line, start + 1, pos - 1);
      return Statement(keys, action, TokenBindMacro);
    }
    var stop := FindEnd(u, line, pos, false);
    o := Statement(keys, line[pos..stop], TokenBind);
  }

  /** readNext on a line that is not blank. */
  method ReadNext(u: Tables, line: string, from: nat) returns (o: Outcome)
    requires from <= |line| && NonSpace(u, line, from) < |line|
    ensures o == Read(u, line, from)
  {
    hide Decode, DecodeKey, ReadAction, ReadSymbols, SymbolEnd, CloseAt, NonSpace;
    var pos := FindNonSpace(u, line, from);
    if IsSetDirective(u, line, pos) {
      o := ReadSymbolsAt(u, line, pos + 4, TokenSet, true);
      return;
    }
    if line[pos] == '$' {
      o := ReadSymbolsAt(u, line, pos, TokenConstruct, false);
      return;
    }
    var keys: string;
    if line[pos] == '"' || line[pos] == '\'' {
      var ok;
      var start := pos;
      pos, ok := FindStringEnd(line, pos);
      if !ok { return Malformed(BindMissingClosingQuote, line[start..]); }
      keys := UnescapeRunes(u, line, start + 1, pos - 1);
    } else {
      var decoded;
      decoded, pos := DecodeKeyName(u, line, pos);
      if decoded.None? { return Malformed(UnknownModifier, line); }
      keys := decoded.value;
    }
    o := ReadActionAt(u, line, keys, pos);
  }

  // Dump lines -------------------------------------------------------------------

  function BindLine(u: Tables, keys: string, command: string): string {
    ['"'] + Escape(u, keys) + ['"', ':', ' '] + command
  }

  function MacroLine(u: Tables, keys: string, action: string): string {
    ['"'] + Escape(u, keys) + ['"', ':', ' ', '"'] + Escape(u, action) + ['"']
  }

  /** Where the string scanner stands after the printed form of a rune: in the
      string, about to swallow the next rune, or past a quote it took for the end. */
  datatype Scan = Inside | Swallowing | Closed

  function ScanRune(c: char, scan: Scan): Scan {
    if c == '\U{a2}' || (scan.Swallowing? && c == '"') then Closed
    else if c == '\U{1c}' || c == '\U{dc}' || (scan.Swallowing? && c == '\\') then Swallowing
    else Inside
  }

  /** The scanner is inside the string when the printed runes end. */
  predicate Quotable(s: string, scan: Scan) {
    if scan.Closed? then false
    else if s == "" then scan.Inside?
    else Quotable(s[1..], ScanRune(s[0], scan))
  }

  predicate Readable(u: Tables, s: string) {
    Decodable(u, s) && Quotable(s, Inside)
  }

  predicate ReadableCommand(u: Tables, command: string) {
    && |command| >= 2
    && !u.IsSpace(command[0]) && command[0] != '#' && command[0] != '"' && command[0] != '\''
    && forall i :: 1 <= i < |command| ==> !Stops(u, command[i], false)
  }

  function Offset(scan: Scan): nat { if scan.Swallowing? then 1 else 0 }

  lemma {:induction false} CloseAtSkip(r: string, i: nat, n: nat)
    requires i + n <= |r|
    requires forall j :: i <= j < i + n ==> r[j] != '\\' && r[j] != '"'
    ensures CloseAt(r, '"', i) == CloseAt(r, '"', i + n)
    decreases n
  {
    if n > 0 { CloseAtSkip(r, i + 1, n - 1); }
  }

  lemma {:induction false} CloseAtPrefix(r: string, i: nat)
    requires i + 3 <= |r| && r[i] == '\\' && r[i + 1] in {'C', 'M'} && r[i + 2] == '-'
    ensures CloseAt(r, '"', i) == CloseAt(r, '"', i + 1) == CloseAt(r, '"', i + 3)
  {
    assert CloseAt(r, '"', i) == CloseAt(r, '"', i + 2);
    assert CloseAt(r, '"', i + 1) == CloseAt(r, '"', i + 2);
  }

  /** Scanning the n runes of r at i, the printed form of c, moves the scanner
      as ScanRune says. */
  predicate Moves(r: string, i: nat, n: nat, c: char, scan: Scan) {
    var o := CloseAt(r, '"', i + Offset(scan));
    var next := ScanRune(c, scan);
    if next.Closed? then o.Some? && o.value < i + n
    else o == CloseAt(r, '"', i + n + Offset(next))
  }

  lemma {:induction false} CloseAtNamed(r: string, i: nat, e: string, c: char, scan: Scan)
    requires !scan.Closed? && i + |e| <= |r| && IsNamed(c) && e == EscapeNamed(KEY_NAMES, c)
    requires forall j :: 0 <= j < |e| ==> r[i + j] == e[j]
    ensures Moves(r, i, |e|, c, scan)
  {
    assert r[i] == r[i + 0] == e[0] && r[i + 1] == e[1];
    if c == DELETE || c == RETURN {
      assert r[i + 2] == e[2] && r[i + 3] == e[3];
      CloseAtPrefix(r, i);
    }
  }

  lemma {:induction false} CloseAtCoded(u: Tables, r: string, i: nat, e: string, c: char, scan: Scan)
    requires !scan.Closed? && i + |e| <= |r| && !IsNamed(c)
    requires forall j :: 0 <= j < |e| ==> r[i + j] == e[j]
    requires
      || (IsControl(c) && e == ['\\', 'C', '-', Decontrol(u, c)])
      || (IsMeta(c) && SPACE <= Demeta(c) < DELETE && e == ['\\', 'M', '-', Demeta(c)])
    ensures Moves(r, i, |e|, c, scan)
  {
    assert r[i] == r[i + 0] == e[0] && r[i + 1] == e[1] && r[i + 2] == e[2] && r[i + 3] == e[3];
    CloseAtPrefix(r, i);
    assert CloseAt(r, '"', i + Offset(scan)) == CloseAt(r, '"', i + 3);
  }

  lemma {:induction false} CloseAtHex(r: string, i: nat, n: nat, c: char, scan: Scan)
    requires !scan.Closed? && n >= 2 && i + n <= |r| && c > '~' && c !in {'\U{a2}', '\U{dc}'}
    requires r[i] == '\\' && r[i + 1] == 'x'
    requires forall j :: i + 2 <= j < i + n ==> r[j] != '\\' && r[j] != '"'
    ensures Moves(r, i, n, c, scan)
  {
    CloseAtSkip(r, i + 2, n - 2);
    assert CloseAt(r, '"', i) == CloseAt(r, '"', i + 2);
    assert CloseAt(r, '"', i + 1) == CloseAt(r, '"', i + 2);
  }

  lemma {:induction false} CloseAtMetaHex(r: string, i: nat, n: nat, c: char, scan: Scan)
    requires !scan.Closed? && n >= 5 && i + n <= |r| && c > '~' && c !in {'\U{a2}', '\U{dc}'}
    requires r[i] == '\\' && r[i + 1] == 'M' && r[i + 2] == '-' && r[i + 3] == '\\'
    requires forall j :: i + 5 <= j < i + n ==> r[j] != '\\' && r[j] != '"'
    ensures Moves(r, i, n, c, scan)
  {
    CloseAtPrefix(r, i);
    CloseAtSkip(r, i + 5, n - 5);
    assert CloseAt(r, '"', i + 3) == CloseAt(r, '"', i + 5);
  }

  lemma {:induction false} CloseAtUnprintable(u: Tables, r: string, i: nat, e: string, c: char, scan: Scan)
    requires !scan.Closed? && i + |e| <= |r| && !IsNamed(c) && !IsControl(c)
    requires !u.IsPrint(if IsMeta(c) then Demeta(c) else c)
    requires e == EscapeRune(u, KEY_NAMES, c)
    requires forall j :: 0 <= j < |e| ==> r[i + j] == e[j]
    ensures Moves(r, i, |e|, c, scan)
  {
    hide Moves;
    var h := PaddedHex((if IsMeta(c) then Demeta(c) else c) as int);
    var k := if IsMeta(c) then 5 else 2;
    assert e == (if IsMeta(c) then ['\\', 'M', '-', '\\', 'x'] else ['\\', 'x']) + h;
    forall j | i + k <= j < i + |e| ensures r[j] != '\\' && r[j] != '"' {
      assert r[j] == r[i + (j - i)] == e[j - i] == h[j - i - k];
    }
    assert r[i] == r[i + 0] == e[0] && r[i + 1] == e[1];
    if IsMeta(c) {
      assert r[i + 2] == e[2] && r[i + 3] == e[3];
      CloseAtMetaHex(r, i, |e|, c, scan);
    } else {
      CloseAtHex(r, i, |e|, c, scan);
    }
  }

  lemma {:induction false} CloseAtRune(u: Tables, r: string, i: nat, c: char, scan: Scan)
    requires !scan.Closed? && i <= |r|
    requires EscapeRune(u, KEY_NAMES, c) <= r[i..]
    ensures Moves(r, i, |EscapeRune(u, KEY_NAMES, c)|, c, scan)
  {
    hide Moves;
    var e := EscapeRune(u, KEY_NAMES, c);
    forall j | 0 <= j < |e| ensures r[i + j] == e[j] { assert r[i..][j] == r[i + j]; }
    if IsNamed(c) {
      CloseAtNamed(r, i, e, c, scan);
    } else if IsControl(c) || (IsMeta(c) && u.IsPrint(Demeta(c))) {
      CloseAtCoded(u, r, i, e, c, scan);
    } else if !u.IsPrint(if IsMeta(c) then Demeta(c) else c) {
      CloseAtUnprintable(u, r, i, e, c, scan);
    } else {
      CloseAtPlain(r, i, c, scan);
    }
  }

  lemma {:induction false} CloseAtPlain(r: string, i: nat, c: char, scan: Scan)
    requires !scan.Closed? && i < |r| && r[i] == c
    requires !IsNamed(c) && !IsControl(c) && !IsMeta(c)
    ensures Moves(r, i, 1, c, scan)
  {
  }

  /** The scanner closes exactly at the end of the printed runes when they are
      quotable, and elsewhere or nowhere when they are not. */
  lemma {:induction false} CloseAtPrinted(u: Tables, r: string, i: nat, s: string, scan: Scan)
    requires !scan.Closed? && i <= |r|
    requires EscapeWith(u, KEY_NAMES, s) + ['"'] <= r[i..]
    ensures var n := i + |EscapeWith(u, KEY_NAMES, s)|;
      var o := CloseAt(r, '"', i + Offset(scan));
      if Quotable(s, scan) then o == Some(n) else o.None? || o.value != n
    decreases |s|
  {
    hide EscapeRune, CloseAt, ScanRune;
    if s == "" {
      assert r[i] == r[i..][0] == '"';
      CloseAtQuote(r, i);
    } else {
      var e, rest := EscapeRune(u, KEY_NAMES, s[0]), EscapeWith(u, KEY_NAMES, s[1..]);
      assert EscapeWith(u, KEY_NAMES, s) == e + rest;
      PrefixSplit(e, rest + ['"'], r, i);
      CloseAtRune(u, r, i, s[0], scan);
      var next := ScanRune(s[0], scan);
      assert Quotable(s, scan) == Quotable(s[1..], next);
      hide EscapeWith, Quotable;
      if next.Closed? {
        assert !Quotable(s[1..], next) by { ClosedIsNotQuotable(s[1..]); }
      } else {
        CloseAtPrinted(u, r, i + |e|, s[1..], next);
      }
    }
  }

  lemma {:induction false} CloseAtQuote(r: string, i: nat)
    requires i < |r| && r[i] == '"'
    ensures CloseAt(r, '"', i) == Some(i)
  {
  }

  lemma {:induction false} ClosedIsNotQuotable(s: string)
    ensures !Quotable(s, Closed)
  {
  }

  lemma {:induction false} PrefixSplit(a: string, b: string, r: string, i: nat)
    requires i <= |r| && a + b <= r[i..]
    ensures a <= r[i..] && i + |a| <= |r| && b <= r[i + |a|..]
  {
    assert r[i + |a|..] == r[i..][|a|..];
    assert (a + b)[|a|..] == b;
  }

  /** A quoted string is cut out and decoded to the runes printed in it exactly
      when these are readable. */
  lemma {:induction false} QuotedReadsBack(u: Tables, r: string, i: nat, s: string)
    requires 0 < i <= |r| && r[i - 1] == '"'
    requires EscapeWith(u, KEY_NAMES, s) + ['"'] <= r[i..]
    ensures var o := CloseAt(r, '"', i);
      var n := i + |EscapeWith(u, KEY_NAMES, s)|;
      if Readable(u, s) then o == Some(n) && Decode(u, r[i..n]) == s
      else o.None? || Decode(u, r[i..o.value]) != s
  {
    hide EscapeWith, Decode, CloseAt;
    var e := EscapeWith(u, KEY_NAMES, s);
    var o := CloseAt(r, '"', i);
    CloseAtPrinted(u, r, i, s, Inside);
    DecodeInvertsEscape(u, KEY_NAMES, s);
    assert r[i..i + |e|] == e by { assert r[i..][..|e|] == e; }
    if o.Some? && o.value < i + |e| {
      var n := o.value - i;
      assert r[i..o.value] == r[i..i + |e|][..n];
      assert r[o.value] == r[i..i + |e|][n];
      CutNeverDecodes(u, KEY_NAMES, s, n);
    } else if o.Some? && o.value > i + |e| {
      assert r[i + |e|] == r[i..][|e|] == '"';
      assert r[i..o.value] == e + ['"'] + r[i + |e| + 1..o.value];
      OverrunNeverDecodes(u, KEY_NAMES, s, r[i + |e| + 1..o.value]);
    }
  }

  lemma {:induction false} ReadActionName(u: Tables, line: string, keys: string, pos: nat)
    requires pos <= |line|
    ensures var o := ReadAction(u, line, keys, pos); o.Statement? ==> o.name == keys
  {
  }

  lemma {:induction false} NonSpaceAfter(u: Tables, r: string, i: nat)
    requires i < |r|
    ensures u.IsSpace(r[i]) ==> NonSpace(u, r, i) == NonSpace(u, r, i + 1)
    ensures !u.IsSpace(r[i]) ==> NonSpace(u, r, i) == i
  {
  }

  lemma {:induction false} SymbolReadsBack(u: Tables, line: string, start: nat, symbol: string)
    requires start < |line| && line[start..] == symbol
    ensures line[start..SymbolEnd(u, line, start, false)] == symbol <==>
      |symbol| >= 2 && forall i :: 1 <= i < |symbol| ==> !Stops(u, symbol[i], false)
  {
    var stop := SymbolEnd(u, line, start, false);
    assert line[start..stop] == symbol <==> stop == |line|;
    forall i | 0 <= i < |symbol| ensures symbol[i] == line[start + i] {}
    if stop == |line| && |symbol| >= 2 {
      forall i | 1 <= i < |symbol| ensures !Stops(u, symbol[i], false) {
        assert symbol[i] == line[start + i];
      }
    } else if |symbol| >= 2 && stop > start {
      assert symbol[stop - start] == line[stop];
    } else if |symbol| >= 2 {
      assert symbol[1] == line[start + 1];
    }
  }

  /** A command name after the colon is read back exactly when it is readable. */
  lemma {:induction false} CommandReadsBack(u: Tables, line: string, keys: string, pos: nat, command: string)
    requires pos + 2 <= |line| && line[pos] == ':' && line[pos + 1] == ' ' && line[pos + 2..] == command
    ensures ReadAction(u, line, keys, pos) == Statement(keys, command, TokenBind)
      <==> ReadableCommand(u, command)
  {
    hide Decode, CloseAt, SymbolEnd, NonSpace;
    NonSpaceAfter(u, line, pos + 1);
    var start := NonSpace(u, line, pos + 2);
    if command != "" {
      assert command[0] == line[pos + 2];
      NonSpaceAfter(u, line, pos + 2);
      if u.IsSpace(command[0]) {
        assert start < |line| ==> |line[start..SymbolEnd(u, line, start, false)]| < |command|;
      } else {
        SymbolReadsBack(u, line, start, command);
      }
    }
  }

  lemma {:induction false} MacroActionAt(u: Tables, line: string, keys: string, pos: nat)
    requires pos + 2 < |line| && line[pos] == ':' && line[pos + 1] == ' ' && line[pos + 2] == '"'
    ensures ReadAction(u, line, keys, pos) ==
      match CloseAt(line, '"', pos + 3)
      case None => Malformed(MacroMissingClosingQuote, line[pos + 2..])
      case Some(k) => Statement(keys, Decode(u, line[pos + 3..k]), TokenBindMacro)
  {
    hide Decode, CloseAt;
    NonSpaceAfter(u, line, pos + 1);
    NonSpaceAfter(u, line, pos + 2);
  }

  lemma {:induction false} MacroReadsBack(u: Tables, line: string, keys: string, pos: nat, action: string)
    requires pos + 2 <= |line| && line[pos] == ':' && line[pos + 1] == ' '
    requires line[pos + 2..] == ['"'] + Escape(u, action) + ['"']
    ensures ReadAction(u, line, keys, pos) == Statement(keys, action, TokenBindMacro)
      <==> Readable(u, action)
  {
    hide EscapeWith, Decode, CloseAt, Readable, ReadAction;
    assert line[pos + 2] == line[pos + 2..][0];
    MacroActionAt(u, line, keys, pos);
    assert line[pos + 3..] == line[pos + 2..][1..] == Escape(u, action) + ['"'];
    QuotedReadsBack(u, line, pos + 3, action);
  }

  /** Dumping a binding and reading the line back gives the binding exactly when
      its keys and its command name are readable. */
  lemma {:induction false} BindLineRoundTrip(u: Tables, keys: string, command: string)
    ensures var line := BindLine(u, keys, command);
      && NonSpace(u, line, 0) == 0
      && (Read(u, line, 0) == Statement(keys, command, TokenBind)
          <==> Readable(u, keys) && ReadableCommand(u, command))
  {
    hide EscapeWith, Decode, CloseAt, ReadAction, Readable, ReadableCommand;
    var line, e := BindLine(u, keys, command), Escape(u, keys);
    NonSpaceAfter(u, line, 0);
    assert line[1..] == (e + ['"']) + ([':', ' '] + command);
    QuotedReadsBack(u, line, 1, keys);
    var o := CloseAt(line, '"', 1);
    if o.Some? {
      var decoded := Decode(u, line[1..o.value]);
      ReadActionName(u, line, decoded, o.value + 1);
      var pos := |e| + 2;
      assert line[pos] == ':' && line[pos + 1] == ' ' && line[pos + 2..] == command;
      CommandReadsBack(u, line, keys, pos, command);
    }
  }

  lemma {:induction false} SymbolStopsAt(u: Tables, line: string, start: nat, stop: nat)
    requires start + 2 <= stop <= |line|
    requires forall i :: start < i < stop ==> !Stops(u, line[i], false)
    requires stop < |line| ==> Stops(u, line[stop], false)
    ensures SymbolEnd(u, line, start, false) == stop
  {
    var n := NextStop(u, line, start + 1, false);
    assert n >= stop;
  }

  /** What comes after the command, a comment or more after a blank, makes no difference. */
  lemma {:induction false} CommentIgnored(u: Tables, keys: string, command: string, rest: string)
    requires Readable(u, keys) && ReadableCommand(u, command)
    requires rest != "" && (rest[0] == '#' || u.IsSpace(rest[0]) || u.IsControl(rest[0]))
    ensures Read(u, BindLine(u, keys, command) + rest, 0) == Statement(keys, command, TokenBind)
  {
    hide EscapeWith, Decode, CloseAt, Readable, NonSpace, ReadAction, ReadableCommand;
    var line, e := BindLine(u, keys, command) + rest, Escape(u, keys);
    NonSpaceAfter(u, line, 0);
    assert line[1..] == (e + ['"']) + ([':', ' '] + command + rest);
    QuotedReadsBack(u, line, 1, keys);
    var pos := |e| + 2;
    assert line[pos..] == [':', ' '] + command + rest;
    assert line[1..pos - 1] == e;
    CommandThenRest(u, line, keys, pos, command, rest);
  }

  lemma {:induction false} CommandThenRest(u: Tables, line: string, keys: string, pos: nat,
      command: string, rest: string)
    requires pos <= |line| && line[pos..] == [':', ' '] + command + rest && ReadableCommand(u, command)
    requires rest != "" && Stops(u, rest[0], false)
    ensures ReadAction(u, line, keys, pos) == Statement(keys, command, TokenBind)
  {
    hide Decode, CloseAt, NonSpace, SymbolEnd, Stops;
    var tail := line[pos..];
    var stop := pos + 2 + |command|;
    assert forall i :: 0 <= i < |tail| ==> tail[i] == line[pos + i];
    assert tail[0] == ':' && tail[1] == ' ' && tail[2 + |command|] == rest[0];
    assert forall i :: 0 <= i < |command| ==> command[i] == tail[i + 2];
    assert line[pos] == ':' && line[pos + 1] == ' ' && line[stop] == rest[0] && line[pos + 2] == command[0];
    assert line[pos + 2..stop] == command;
    forall i | pos + 2 < i < stop ensures !Stops(u, line[i], false) { assert line[i] == command[i - pos - 2]; }
    SymbolStopsAt(u, line, pos + 2, stop);
    NonSpaceAfter(u, line, pos + 1);
    NonSpaceAfter(u, line, pos + 2);
  }

  /** The names that commands have, and more: two or more printable 7-bit characters that
      are no blank and no number sign, no quote in front. */
  lemma {:induction false} OrdinaryCommandReadable(u: Tables, command: string)
    requires |command| >= 2 && command[0] != '"' && command[0] != '\''
    requires forall i :: 0 <= i < |command| ==> '!' <= command[i] <= '~' && command[i] != '#'
    ensures ReadableCommand(u, command)
  {
  }

  /** A command name of one rune is read as no name at all. */
  lemma {:induction false} OneRuneCommandLost(u: Tables, keys: string, c: char)
    requires Readable(u, keys) && !u.IsSpace(c) && c != '#' && c != '"' && c != '\''
    ensures Read(u, BindLine(u, keys, [c]), 0) == Statement(keys, "", TokenBind)
  {
    hide EscapeWith, Decode, CloseAt, Readable;
    var line, e := BindLine(u, keys, [c]), Escape(u, keys);
    NonSpaceAfter(u, line, 0);
    assert line[1..] == (e + ['"']) + ([':', ' '] + [c]);
    QuotedReadsBack(u, line, 1, keys);
    var pos := |e| + 2;
    assert line[pos] == ':' && line[pos + 1] == ' ' && line[pos + 2] == c && |line| == pos + 3;
    NonSpaceAfter(u, line, pos + 1);
    NonSpaceAfter(u, line, pos + 2);
  }

  /** The same for a macro, whose action is printed and quoted like the keys. */
  lemma {:induction false} MacroLineRoundTrip(u: Tables, keys: string, action: string)
    ensures var line := MacroLine(u, keys, action);
      && NonSpace(u, line, 0) == 0
      && (Read(u, line, 0) == Statement(keys, action, TokenBindMacro)
          <==> Readable(u, keys) && Readable(u, action))
  {
    hide EscapeWith, Decode, CloseAt, ReadAction, Readable;
    var line, e, a := MacroLine(u, keys, action), Escape(u, keys), Escape(u, action);
    NonSpaceAfter(u, line, 0);
    assert line[1..] == (e + ['"']) + ([':', ' ', '"'] + a + ['"']);
    QuotedReadsBack(u, line, 1, keys);
    var o := CloseAt(line, '"', 1);
    if o.Some? {
      var decoded := Decode(u, line[1..o.value]);
      ReadActionName(u, line, decoded, o.value + 1);
      var pos := |e| + 2;
      assert line[pos] == ':' && line[pos + 1] == ' ' && line[pos + 2..] == ['"'] + a + ['"'];
      MacroReadsBack(u, line, keys, pos, action);
    }
  }

  /** Leaving out three runes is enough. */
  lemma {:induction false} OrdinaryKeysReadable(u: Tables, s: string)
    requires forall i :: 0 <= i < |s| ==> Faithful(u, s[i]) && s[i] != '\U{1c}' && s[i] != '\U{dc}' && s[i] != '\U{a2}'
    ensures Readable(u, s)
  {
    OrdinaryKeysQuotable(s);
  }

  lemma {:induction false} OrdinaryKeysQuotable(s: string)
    requires forall i :: 0 <= i < |s| ==> s[i] != '\U{1c}' && s[i] != '\U{dc}' && s[i] != '\U{a2}'
    ensures Quotable(s, Inside)
  {
    if s != "" { OrdinaryKeysQuotable(s[1..]); }
  }
}
