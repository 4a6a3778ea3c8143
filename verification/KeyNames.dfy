/** A bind line with a key name means what the line with that key in quoted notation
    means (inputrc/parse.go). */
module KeyNames {
  import opened Basics
  import opened Unicode
  import opened Inputrc
  import opened Escapes
  import opened BindLines
  import opened SetLines

  // The quoted notation of a key name ----------------------------------------------

  /** The named keys in quoted notation. */
  const NAMED_ESCAPES := map[
    "delete" := "\\C-?", "del" := "\\C-?", "rubout" := "\\C-?",
    "escape" := "\\e", "esc" := "\\e",
    "newline" := "\\n", "linefeed" := "\\n", "lfd" := "\\n",
    "return" := "\\r", "ret" := "\\r",
    "tab" := "\\t",
    "space" := " ", "spc" := " ",
    "formfeed" := "\\f", "ffd" := "\\f",
    "vertical" := "\\v", "vrt" := "\\v"]

  /** A key name in quoted notation: one that is not known stands for its first rune. */
  function Notation(name: string): string
    requires name != ""
  {
    if name in NAMED_ESCAPES then NAMED_ESCAPES[name] else [name[0]]
  }

  function Prefix(control: bool, meta: bool): string {
    if control && meta then "\\C-\\M-" else if control then "\\C-" else if meta then "\\M-" else ""
  }

  /** What to write between quotes for a key with these modifiers. After a modifier the
      key itself is written: an escape there would be read as a backslash. */
  function Quoted(u: Tables, control: bool, meta: bool, name: string): string
    requires name != ""
  {
    Prefix(control, meta) + if control || meta then Decode(u, Notation(name)) else Notation(name)
  }

  /** A key name as the reader cuts it out before a colon. */
  predicate IsKeySymbol(u: Tables, s: string) {
    && |s| >= 2 && !u.IsSpace(s[0]) && s[0] !in {'$', '"', '\''}
    && forall i :: 1 <= i < |s| ==> !Stops(u, s[i], true)
  }

  /** Modifiers that are all known, and a key name after them. */
  predicate IsModifiedKey(u: Tables, modifiers: seq<string>, key: string) {
    && IsKeySymbol(u, Spell(modifiers, key)) && key != "" && '-' !in LowerCase(u, key)
    && forall m :: m in Lowered(u, modifiers) ==> m in CONTROL_NAMES || m in META_NAMES
  }

  /** The key can be written between these quotes. */
  predicate CanQuote(c: char, quote: char) {
    c != NUL && c != '\\' && c != quote && quote in {'"', '\''}
  }

  lemma {:induction false} DecodeOne(u: Tables, c: char)
    requires c != '\\'
    ensures Decode(u, [c]) == [c]
  {
    assert [c][1..] == "" && Decode(u, "") == "";
  }

  /** The notation of a named key decodes to the key. */
  lemma {:induction false} NotationDecodes(u: Tables, name: string)
    requires name != "" && name[0] != '\\'
    ensures Decode(u, Notation(name)) == [NamedKey(name)]
  {
    hide Decode, Notation, NamedKey;
    NotationForms(name);
    var e := Notation(name);
    assert Decode(u, "") == "" by { DecodeNothing(u); }
    if e == [NamedKey(name)] {
      DecodeOne(u, NamedKey(name));
    } else if |e| == 2 {
      LetterEscape(u, e[1], "");
      assert ['\\', e[1]] + "" == e;
    } else {
      ControlEscape(u, '?', "");
      assert "\\C-" + ['?'] + "" == e;
    }
  }

  lemma {:induction false} DecodeNothing(u: Tables)
    ensures Decode(u, "") == ""
  {
  }

  lemma {:induction false} NotationForms(name: string)
    requires name != "" && name[0] != '\\'
    ensures var e, c := Notation(name), NamedKey(name);
      || (e == [c] && c != '\\')
      || (|e| == 2 && e[0] == '\\' && e[1] in LETTER_CODES && LETTER_CODES[e[1]] == c)
      || (e == "\\C-?" && c == DELETE)
  {
  }

  /** Modified keys decode to the codes the reader of key names gives. */
  lemma {:induction false} QuotedDecodes(u: Tables, control: bool, meta: bool, name: string)
    requires name != "" && NamedKey(name) != NUL && NamedKey(name) != '\\' && name[0] != '\\'
    ensures var c := NamedKey(name);
      Decode(u, Quoted(u, control, meta, name)) ==
        if control && meta then [ESC, Encontrol(u, c)]
        else if control then [if c == '?' then DELETE else Encontrol(u, c)]
        else if meta then [Enmeta(c)]
        else [c]
  {
    hide NamedKey, Notation, Decode, Encontrol, Enmeta;
    NotationDecodes(u, name);
    var c := NamedKey(name);
    if control && meta {
      DecodeControlMeta(u, c);
    } else if control {
      DecodeControlKey(u, c);
    } else if meta {
      DecodeMetaKey(u, c);
    } else {
      assert "" + Notation(name) == Notation(name);
    }
  }

  lemma {:induction false} DecodeControlMeta(u: Tables, c: char)
    requires c != NUL
    ensures Decode(u, "\\C-\\M-" + [c]) == [ESC, Encontrol(u, c)]
  {
    var r := "\\C-\\M-" + [c];
    assert DecodeEscape(u, r) == ([ESC, Encontrol(u, c)], 7);
  }

  lemma {:induction false} DecodeControlKey(u: Tables, c: char)
    requires c != '\\'
    ensures Decode(u, "\\C-" + [c]) == [if c == '?' then DELETE else Encontrol(u, c)]
  {
    var r := "\\C-" + [c];
    assert DecodeEscape(u, r) == ([if c == '?' then DELETE else Encontrol(u, c)], 4);
  }

  lemma {:induction false} DecodeMetaKey(u: Tables, c: char)
    requires c != NUL && c != '\\'
    ensures Decode(u, "\\M-" + [c]) == [Enmeta(c)]
  {
    var r := "\\M-" + [c];
    assert DecodeEscape(u, r) == ([Enmeta(c)], 4);
  }

  // Where the reader is ----------------------------------------------------------------

  lemma {:induction false} NonSpaceShift(u: Tables, line: string, b: nat, r: string, i: nat)
    requires b <= |line| && line[b..] == r && i <= |r|
    ensures NonSpace(u, line, b + i) == b + NonSpace(u, r, i)
    decreases |r| - i
  {
    if i < |r| {
      assert line[b + i] == r[i];
      NonSpaceShift(u, line, b, r, i + 1);
    }
  }

  lemma {:induction false} SliceShift(line: string, b: nat, r: string, i: nat, j: nat)
    requires b <= |line| && line[b..] == r && i <= j <= |r|
    ensures line[b + i..b + j] == r[i..j] && line[b + i..] == r[i..]
    ensures i < |r| ==> line[b + i] == r[i]
  {
    forall k | i <= k < |r| ensures line[b + k] == r[k] {}
  }

  /** What follows a colon, by its first rune that is no blank. */
  lemma {:induction false} ActionAt(u: Tables, r: string, keys: string, i: nat)
    requires i < |r| && r[i] == ':'
    ensures var o, start := ReadAction(u, r, keys, i), NonSpace(u, r, i + 1);
      if start == |r| || r[start] == '#' then o == Statement(keys, "", TokenNone)
      else if r[start] == '"' || r[start] == '\'' then
        match CloseAt(r, r[start], start + 1)
        case None => o == Malformed(MacroMissingClosingQuote, r[start..])
        case Some(k) => o == Statement(keys, Decode(u, r[start + 1..k]), TokenBindMacro)
      else o == Statement(keys, r[start..SymbolEnd(u, r, start, false)], TokenBind)
  {
    hide Decode, NonSpace, CloseAt, SymbolEnd;
    assert IndexOf(r, ':', i) == i;
  }

  /** What follows the keys is read the same wherever it stands. */
  lemma {:induction false} ActionShift(u: Tables, line: string, b: nat, r: string, keys: string)
    requires b <= |line| && line[b..] == r && r != "" && r[0] == ':'
    ensures ReadAction(u, line, keys, b) == ReadAction(u, r, keys, 0)
  {
    hide Decode, NonSpace, CloseAt, SymbolEnd, ReadAction;
    NonSpaceShift(u, line, b, r, 1);
    SliceShift(line, b, r, 0, |r|);
    var start := NonSpace(u, r, 1);
    if start == |r| {
      ActionAt(u, line, keys, b);
      ActionAt(u, r, keys, 0);
    } else if r[start] == '"' || r[start] == '\'' {
      MacroActionShift(u, line, b, r, keys, start);
    } else {
      CommandActionShift(u, line, b, r, keys, start);
    }
  }

  lemma {:induction false} MacroActionShift(u: Tables, line: string, b: nat, r: string, keys: string, start: nat)
    requires b < |line| && line[b..] == r && line[b] == r[0] == ':'
    requires start == NonSpace(u, r, 1) < |r| && NonSpace(u, line, b + 1) == b + start
    requires r[start] == '"' || r[start] == '\''
    ensures ReadAction(u, line, keys, b) == ReadAction(u, r, keys, 0)
  {
    hide Decode, NonSpace, CloseAt, SymbolEnd, ReadAction;
    SliceShift(line, b, r, start, |r|);
    MacroShift(line, b, r, start);
    SameMacro(u, line, b, b + start, r, 0, start, keys);
  }

  lemma {:induction false} SameMacro(u: Tables, line: string, i: nat, start: nat, r: string, j: nat, at: nat,
      keys: string)
    requires i < |line| && j < |r| && line[i] == r[j] == ':'
    requires start == NonSpace(u, line, i + 1) < |line| && at == NonSpace(u, r, j + 1) < |r|
    requires (r[at] == '"' || r[at] == '\'') && line[start] == r[at] && line[start..] == r[at..]
    requires match CloseAt(r, r[at], at + 1)
      case None => CloseAt(line, r[at], start + 1).None?
      case Some(k) =>
        && var o := CloseAt(line, r[at], start + 1);
        && o.Some? && line[start + 1..o.value] == r[at + 1..k]
    ensures ReadAction(u, line, keys, i) == ReadAction(u, r, keys, j)
  {
    hide Decode, NonSpace, CloseAt, SymbolEnd, ReadAction;
    ActionAt(u, line, keys, i);
    ActionAt(u, r, keys, j);
  }

  lemma {:induction false} CommandActionShift(u: Tables, line: string, b: nat, r: string, keys: string, start: nat)
    requires b < |line| && line[b..] == r && line[b] == r[0] == ':'
    requires start == NonSpace(u, r, 1) < |r| && NonSpace(u, line, b + 1) == b + start
    requires r[start] != '"' && r[start] != '\''
    ensures ReadAction(u, line, keys, b) == ReadAction(u, r, keys, 0)
  {
    hide Decode, NonSpace, CloseAt, SymbolEnd, ReadAction;
    SliceShift(line, b, r, start, |r|);
    CommandShift(u, line, b, r, start);
    ActionAt(u, line, keys, b);
    ActionAt(u, r, keys, 0);
  }

  lemma {:induction false} MacroShift(line: string, b: nat, r: string, start: nat)
    requires b <= |line| && line[b..] == r && start < |r|
    ensures match CloseAt(r, r[start], start + 1)
      case None => CloseAt(line, r[start], b + start + 1).None?
      case Some(k) =>
        && CloseAt(line, r[start], b + start + 1) == Some(b + k)
        && start + 1 <= k < |r| && line[b + start + 1..b + k] == r[start + 1..k]
  {
    hide CloseAt;
    CloseAtShift(line, b, r, r[start], start + 1);
    var o := CloseAt(r, r[start], start + 1);
    if o.Some? { SliceShift(line, b, r, start + 1, o.value); }
  }

  lemma {:induction false} CommandShift(u: Tables, line: string, b: nat, r: string, start: nat)
    requires b <= |line| && line[b..] == r && start < |r|
    ensures var n := SymbolEnd(u, r, start, false);
      SymbolEnd(u, line, b + start, false) == b + n && line[b + start..b + n] == r[start..n]
  {
    hide SymbolEnd;
    SliceShift(line, b, r, start, |r|);
    SymbolShift(u, line, b + start, r[start..]);
    SymbolShift(u, r, start, r[start..]);
    SliceShift(line, b, r, start, SymbolEnd(u, r, start, false));
  }

  lemma {:induction false} KeySymbolEnds(u: Tables, symbol: string, rest: string)
    requires IsKeySymbol(u, symbol) && rest != "" && rest[0] == ':'
    ensures var line := symbol + rest;
      NonSpace(u, line, 0) == 0 && SymbolEnd(u, line, 0, true) == |symbol| && line[..|symbol|] == symbol
      && !IsSetDirective(u, line, 0)
  {
    var line := symbol + rest;
    NonSpaceAfter(u, line, 0);
    assert line[0] == symbol[0] && line[1] == symbol[1] && line[|symbol|] == ':';
    hide NonSpace;
    assert forall i :: 0 <= i < |symbol| ==> line[i] == symbol[i];
    assert |symbol| > 3 ==> line[3] == symbol[3] && !Stops(u, symbol[3], true);
    assert |symbol| <= 2 ==> line[2] == ':';
    var n := NextStop(u, line, 1, true);
    assert n >= |symbol|;
    assert Stops(u, line[|symbol|], true);
  }

  /** The reader's result on a line that begins with a key name. */
  lemma {:induction false} NamedLineReads(u: Tables, symbol: string, rest: string)
    requires IsKeySymbol(u, symbol) && rest != "" && rest[0] == ':'
    ensures Read(u, symbol + rest, 0) ==
      match DecodeKey(u, symbol)
      case None => Malformed(UnknownModifier, symbol + rest)
      case Some(keys) => ReadAction(u, rest, keys, 0)
  {
    hide DecodeKey, SymbolEnd, NonSpace, ReadAction;
    var line := symbol + rest;
    KeySymbolEnds(u, symbol, rest);
    assert line[0..|symbol|] == symbol && line[0] == symbol[0];
    var d := DecodeKey(u, symbol);
    if d.Some? { ActionShift(u, line, |symbol|, rest, d.value); }
  }

  /** The reader's result on a line that begins with quoted keys. */
  lemma {:induction false} QuotedLineReads(u: Tables, quote: char, body: string, rest: string)
    requires quote in {'"', '\''} && rest != "" && rest[0] == ':'
    requires CloseAt(body + [quote], quote, 0) == Some(|body|)
    ensures Read(u, [quote] + body + [quote] + rest, 0) == ReadAction(u, rest, Decode(u, body), 0)
  {
    hide CloseAt, NonSpace, Decode, ReadAction;
    var line := [quote] + body + [quote] + rest;
    NonSpaceAfter(u, line, 0);
    CloseAtEarly(body + [quote], rest, quote, 0);
    assert line[1..] == body + [quote] + rest;
    CloseAtShift(line, 1, body + [quote] + rest, quote, 0);
    assert line[1..1 + |body|] == body && line[2 + |body|..] == rest;
    ActionShift(u, line, 2 + |body|, rest, Decode(u, body));
  }

  lemma {:induction false} CloseAtEarly(r: string, rest: string, quote: char, i: nat)
    requires CloseAt(r, quote, i).Some?
    ensures CloseAt(r + rest, quote, i) == CloseAt(r, quote, i)
    decreases if i < |r| then |r| - i else 0
  {
    if i < |r| {
      assert (r + rest)[i] == r[i];
      if r[i] == '\\' {
        CloseAtEarly(r, rest, quote, i + 2);
      } else if r[i] != quote {
        CloseAtEarly(r, rest, quote, i + 1);
      }
    }
  }

  lemma {:induction false} PlainCloses(r: string, quote: char, i: nat)
    requires i < |r| && r[|r| - 1] == quote && quote != '\\'
    requires forall j :: i <= j < |r| - 1 ==> r[j] != '\\' && r[j] != quote
    ensures CloseAt(r, quote, i) == Some(|r| - 1)
    decreases |r| - i
  {
    if i < |r| - 1 { PlainCloses(r, quote, i + 1); }
  }

  /** The closing quote of a key in quoted notation is where it was put. */
  lemma {:induction false} QuotedCloses(u: Tables, control: bool, meta: bool, name: string, quote: char)
    requires name != "" && name[0] != '\\' && CanQuote(NamedKey(name), quote)
    ensures var body := Quoted(u, control, meta, name); CloseAt(body + [quote], quote, 0) == Some(|body|)
  {
    NotationDecodes(u, name);
    hide Decode, NamedKey, CloseAt;
    var body := Quoted(u, control, meta, name);
    var r := body + [quote];
    if control && meta {
      assert r == "\\C-\\M-" + [NamedKey(name), quote];
      PlainCloses(r, quote, 5);
      TwoSkipped(r, quote, 3);
      PlainStep(r, quote, 2);
      TwoSkipped(r, quote, 0);
    } else if control || meta {
      assert r == ['\\', if control then 'C' else 'M', '-', NamedKey(name), quote];
      PlainCloses(r, quote, 2);
      TwoSkipped(r, quote, 0);
    } else {
      NotationCloses(name, quote);
      assert "" + Notation(name) == Notation(name);
    }
  }

  lemma {:induction false} NotationCloses(name: string, quote: char)
    requires name != "" && name[0] != '\\' && CanQuote(NamedKey(name), quote)
    ensures CloseAt(Notation(name) + [quote], quote, 0) == Some(|Notation(name)|)
  {
    var e := Notation(name);
    var r := e + [quote];
    hide CloseAt;
    if e[0] == '\\' {
      PlainCloses(r, quote, 2);
      TwoSkipped(r, quote, 0);
    } else {
      PlainCloses(r, quote, 0);
    }
  }

  lemma {:induction false} TwoSkipped(r: string, quote: char, i: nat)
    requires i < |r| && r[i] == '\\'
    ensures CloseAt(r, quote, i) == CloseAt(r, quote, i + 2)
  {
  }

  lemma {:induction false} PlainStep(r: string, quote: char, i: nat)
    requires i < |r| && r[i] != '\\' && r[i] != quote
    ensures CloseAt(r, quote, i) == CloseAt(r, quote, i + 1)
  {
  }

  // The theorem --------------------------------------------------------------------------

  /** A line with a key name reads as the line with that key between quotes, whatever the
      case, the order and the number of its modifiers, exactly when the key is not the
      question mark with control alone, or both are refused for what follows the colon. */
  lemma {:induction false} NameReadsAsQuoted(u: Tables, modifiers: seq<string>, key: string, rest: string, quote: char)
    requires IsModifiedKey(u, modifiers, key) && rest != "" && rest[0] == ':'
    requires CanQuote(NamedKey(LowerCase(u, key)), quote)
    ensures var m, name := Lowered(u, modifiers), LowerCase(u, key);
      Read(u, Spell(modifiers, key) + rest, 0)
      == Read(u, [quote] + Quoted(u, HasControl(m), HasMeta(m), name) + [quote] + rest, 0)
      <==> (name[0] == '?' && HasControl(m) ==> HasMeta(m)) || ReadAction(u, rest, "", 0).Malformed?
  {
    hide Read, ReadAction, Decode, CloseAt, NamedKey, Encontrol, Enmeta, Spell, Modifiers, Quoted, IsKeySymbol;
    hide Notation, Lowered, HasControl, HasMeta;
    var m, name := Lowered(u, modifiers), LowerCase(u, key);
    NamedLineReads(u, Spell(modifiers, key), rest);
    LowerSpell(u, modifiers, key);
    KnownHaveNoHyphen(m);
    ModifiersAreASet(m, name, false, false);
    OnlyItself(name);
    QuotedDecodes(u, HasControl(m), HasMeta(m), name);
    QuotedCloses(u, HasControl(m), HasMeta(m), name, quote);
    QuotedLineReads(u, quote, Quoted(u, HasControl(m), HasMeta(m), name), rest);
    QuestionCode(u);
    OneName("\U{1f}", "\U{7f}");
    ActionOfKeys(u, rest, "\U{1f}", "\U{7f}");
  }

  lemma {:induction false} QuestionCode(u: Tables)
    ensures [Encontrol(u, '?')] == "\U{1f}" && [DELETE] == "\U{7f}"
  {
  }

  lemma {:induction false} OneName(a: string, b: string)
    requires |a| == |b| == 1 && a[0] != b[0]
    ensures a != b
  {
  }

  /** Only the keys of what is read depend on the keys. */
  lemma {:induction false} ActionOfKeys(u: Tables, rest: string, a: string, b: string)
    requires a != b
    ensures ReadAction(u, rest, a, 0) == ReadAction(u, rest, b, 0) <==> ReadAction(u, rest, "", 0).Malformed?
  {
    hide Decode, NonSpace, CloseAt, SymbolEnd, IndexOf;
  }

  lemma {:induction false} KnownHaveNoHyphen(modifiers: seq<string>)
    requires forall m :: m in modifiers ==> m in CONTROL_NAMES || m in META_NAMES
    ensures forall m :: m in modifiers ==> '-' !in m
  {
  }

  lemma {:induction false} OnlyItself(name: string)
    requires name != ""
    ensures NamedKey(name) == '?' <==> name[0] == '?'
    ensures NamedKey(name) == '\\' <==> name[0] == '\\'
  {
  }

  /** The one key for which that fails: `Control-?` is code 0x1f, but "\C-?" is DEL. */
  lemma {:induction false} ControlQuestionMark(u: Tables, rest: string)
    requires rest != "" && rest[0] == ':'
    ensures Read(u, "Control-?" + rest, 0) == ReadAction(u, rest, "\U{1f}", 0)
    ensures Read(u, "\"\\C-?\"" + rest, 0) == ReadAction(u, rest, "\U{7f}", 0)
  {
    hide Read, ReadAction, Decode, CloseAt, Modifiers, IndexOf, LowerCase, DecodeKey;
    NamedLineReads(u, "Control-?", rest);
    ControlQuestionKey(u);
    DecodeControlKey(u, '?');
    assert "\\C-" + ['?'] == "\\C-?";
    var r := "\\C-?" + ['"'];
    PlainCloses(r, '"', 2);
    TwoSkipped(r, '"', 0);
    QuotedLineReads(u, '"', "\\C-?", rest);
    assert ['"'] + "\\C-?" + ['"'] + rest == "\"\\C-?\"" + rest;
  }

  lemma {:induction false} ControlQuestionKey(u: Tables)
    ensures DecodeKey(u, "Control-?") == Some("\U{1f}")
  {
    hide Modifiers, IndexOf;
    var m := ["control"];
    assert LowerCase(u, "Control-?") == "control-?";
    assert m[1..] == [] && Spell(m, "?") == "control" + "-" + "?" == "control-?";
    ModifiersAreASet(m, "?", false, false);
    assert "control" in m;
  }

  /** One modifier that is not known and the line is refused. */
  lemma {:induction false} UnknownModifierRefused(u: Tables, modifiers: seq<string>, key: string, rest: string)
    requires IsKeySymbol(u, Spell(modifiers, key)) && '-' !in LowerCase(u, key) && rest != "" && rest[0] == ':'
    requires forall m :: m in Lowered(u, modifiers) ==> '-' !in m
    requires exists m :: m in Lowered(u, modifiers) && m !in CONTROL_NAMES && m !in META_NAMES
    ensures Read(u, Spell(modifiers, key) + rest, 0) == Malformed(UnknownModifier, Spell(modifiers, key) + rest)
  {
    hide Read, ReadAction, Spell, Modifiers, IsKeySymbol, Lowered, LowerCase, NamedKey;
    NamedLineReads(u, Spell(modifiers, key), rest);
    LowerSpell(u, modifiers, key);
    ModifiersAreASet(Lowered(u, modifiers), LowerCase(u, key), false, false);
  }

  /** The codes of a letter or of another 7-bit key with modifiers: control keeps the five
      low bits of the upper-case code, meta sets the eighth bit, both give an escape and
      the control code. */
  lemma {:induction false} ModifiedCodes(u: Tables, modifiers: seq<string>, c: char, rest: string)
    requires ' ' < c < '\U{7f}' && c != '-' && modifiers != [] && IsModifiedKey(u, modifiers, [c])
    requires rest != "" && rest[0] == ':'
    ensures var m := Lowered(u, modifiers);
      var upper := if 'a' <= c <= 'z' then c as int - 0x20 else c as int;
      var lower := if 'A' <= c <= 'Z' then c as int + 0x20 else c as int;
      var code := (if upper < 0x40 then upper - 0x20 else if upper < 0x60 then upper - 0x40 else upper - 0x60) as char;
      Read(u, Spell(modifiers, [c]) + rest, 0) == ReadAction(u, rest,
        if HasControl(m) && HasMeta(m) then ['\U{1b}', code]
        else if HasControl(m) then [code]
        else [(lower + 0x80) as char], 0)
  {
    hide Read, ReadAction, Spell, Modifiers, IsKeySymbol, NamedKey, LowerCase, Encontrol, Enmeta;
    var m, name := Lowered(u, modifiers), LowerCase(u, [c]);
    NamedLineReads(u, Spell(modifiers, [c]), rest);
    LowerSpell(u, modifiers, [c]);
    KnownHaveNoHyphen(m);
    ModifiersAreASet(m, name, false, false);
    assert m[0] in m;
    KeyCodes(u, c);
  }

  lemma {:induction false} KeyCodes(u: Tables, c: char)
    requires ' ' < c < '\U{7f}' && c != '-'
    ensures var name := LowerCase(u, [c]);
      var upper := if 'a' <= c <= 'z' then c as int - 0x20 else c as int;
      var lower := if 'A' <= c <= 'Z' then c as int + 0x20 else c as int;
      var code := (if upper < 0x40 then upper - 0x20 else if upper < 0x60 then upper - 0x40 else upper - 0x60) as char;
      && name != "" && '-' !in name
      && Encontrol(u, NamedKey(name)) == code && Enmeta(NamedKey(name)) == (lower + 0x80) as char
  {
    var name := LowerCase(u, [c]);
    assert |name| == 1 && NamedKey(name) == name[0];
  }

  /** A key name of one rune is read as no key at all. */
  lemma {:induction false} OneRuneKeyLost(u: Tables, c: char, rest: string)
    requires !u.IsSpace(c) && c !in {'$', '"', '\'', ':'} && rest != "" && rest[0] == ':'
    ensures var o := Read(u, [c] + rest, 0); o.Statement? ==> o.name == ""
  {
    hide ReadAction;
    var line := [c] + rest;
    NonSpaceAfter(u, line, 0);
    assert line[0] == c && line[1] == ':';
    assert SymbolEnd(u, line, 0, true) == 0 && line[0..0] == "";
    assert LowerCase(u, "") == "" && IndexOf("", '-', 0) == 0;
    assert DecodeKey(u, "") == Some("");
    ReadActionName(u, line, "", 0);
  }
}
