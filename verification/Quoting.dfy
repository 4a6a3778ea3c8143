/** Every way of writing a word for the shell splitter: bare, with backslashes, between
    single or double quotes, or in pieces of these (internal/strutil/split.go, and section
    2.2 of the POSIX.1-2017 Shell Command Language). */
module Quoting {
  import opened Basics
  import opened ShellWords

  /** A continuation is a backslash and a newline, and stands for nothing. */
  datatype Style = Bare | Backslashed | SingleQuote | DoubleQuote | Continuation

  datatype Piece = Piece(style: Style, text: string)

  /** Between double quotes a backslash goes before these only. */
  predicate NeedsBackslash(c: char) { c in {'$', '`', '"', '\\'} }

  function DoubleBody(text: string): string {
    if text == "" then ""
    else (if NeedsBackslash(text[0]) then ['\\', text[0]] else [text[0]]) + DoubleBody(text[1..])
  }

  function BackslashBody(text: string): string {
    if text == "" then "" else ['\\', text[0]] + BackslashBody(text[1..])
  }

  /** The texts that can be written in a style. */
  predicate Writable(p: Piece) {
    match p.style
    case Bare => forall i :: 0 <= i < |p.text| ==> p.text[i] !in {' ', '\t', '\n', '\'', '"', '\\'}
    case Backslashed => '\n' !in p.text
    case SingleQuote => '\'' !in p.text
    case DoubleQuote => true
    case Continuation => p.text == ""
  }

  function PieceForm(p: Piece): string {
    match p.style
    case Bare => p.text
    case Backslashed => BackslashBody(p.text)
    case SingleQuote => "'" + p.text + "'"
    case DoubleQuote => "\"" + DoubleBody(p.text) + "\""
    case Continuation => "\\\n"
  }

  function Form(pieces: seq<Piece>): string {
    if pieces == [] then "" else PieceForm(pieces[0]) + Form(pieces[1..])
  }

  function Value(pieces: seq<Piece>): string {
    if pieces == [] then "" else pieces[0].text + Value(pieces[1..])
  }

  /** A word in pieces: the first is written with something, and is no continuation. */
  predicate IsWordForm(pieces: seq<Piece>) {
    && pieces != [] && PieceForm(pieces[0]) != "" && !pieces[0].style.Continuation?
    && forall p :: p in pieces ==> Writable(p)
  }

  /** Words and the blanks before, between and after them. */
  function Written(words: seq<seq<Piece>>, gaps: seq<string>): string
    requires |gaps| == |words| + 1
  {
    gaps[0] + if words == [] then "" else Form(words[0]) + Written(words[1..], gaps[1..])
  }

  predicate AllBlank(s: string) { forall i :: 0 <= i < |s| ==> s[i] in {' ', '\t', '\n'} }

  predicate Spaced(words: seq<seq<Piece>>, gaps: seq<string>) {
    && |gaps| == |words| + 1
    && (forall w :: w in words ==> IsWordForm(w))
    && (forall g :: g in gaps ==> AllBlank(g))
    && (forall i :: 0 < i < |words| ==> gaps[i] != "")
  }

  function Values(words: seq<seq<Piece>>): seq<string> {
    seq(|words|, i requires 0 <= i < |words| => Value(words[i]))
  }

  // One piece -----------------------------------------------------------------------

  lemma {:induction false} RunBare(words: seq<string>, word: string, s: string, rest: string)
    requires Writable(Piece(Bare, s))
    ensures Run(State(Word, words, word), s + rest) == Run(State(Word, words, word + s), rest)
    decreases |s|
  {
    hide Run;
    if s == "" {
      assert s + rest == rest && word + s == word;
    } else {
      assert (s + rest)[1..] == s[1..] + rest;
      RunOne(State(Word, words, word), s + rest);
      RunBare(words, word + [s[0]], s[1..], rest);
      assert word + [s[0]] + s[1..] == word + s;
    }
  }

  lemma {:induction false} RunEscaped(words: seq<string>, word: string, c: char, tail: string)
    requires c != '\n'
    ensures Run(State(Word, words, word), ['\\', c] + tail) == Run(State(Word, words, word + [c]), tail)
  {
    hide Run;
    var t := ['\\', c] + tail;
    assert t[1..] == [c] + tail && ([c] + tail)[1..] == tail;
    RunOne(State(Word, words, word), t);
    RunOne(State(WordEscape, words, word), [c] + tail);
  }

  lemma {:induction false} RunBackslashed(words: seq<string>, word: string, s: string, rest: string)
    requires '\n' !in s
    ensures Run(State(Word, words, word), BackslashBody(s) + rest) == Run(State(Word, words, word + s), rest)
    decreases |s|
  {
    hide Run;
    if s == "" {
      assert BackslashBody(s) + rest == rest && word + s == word;
    } else {
      var tail := BackslashBody(s[1..]) + rest;
      assert BackslashBody(s) + rest == ['\\', s[0]] + tail;
      RunEscaped(words, word, s[0], tail);
      RunBackslashed(words, word + [s[0]], s[1..], rest);
      assert word + [s[0]] + s[1..] == word + s;
    }
  }

  lemma {:induction false} RunDoubleHead(words: seq<string>, word: string, c: char, tail: string)
    ensures var head := if NeedsBackslash(c) then ['\\', c] else [c];
      Run(State(Double, words, word), head + tail) == Run(State(Double, words, word + [c]), tail)
  {
    hide Run;
    var t := (if NeedsBackslash(c) then ['\\', c] else [c]) + tail;
    RunDouble(words, word, t);
    if NeedsBackslash(c) { assert t[2..] == tail; } else { assert t[1..] == tail; }
  }

  lemma {:induction false} RunDoubleBody(words: seq<string>, word: string, s: string, rest: string)
    ensures Run(State(Double, words, word), DoubleBody(s) + rest) == Run(State(Double, words, word + s), rest)
    decreases |s|
  {
    hide Run;
    if s == "" {
      assert DoubleBody(s) + rest == rest && word + s == word;
    } else {
      var tail := DoubleBody(s[1..]) + rest;
      var head := if NeedsBackslash(s[0]) then ['\\', s[0]] else [s[0]];
      assert DoubleBody(s) + rest == head + tail;
      RunDoubleHead(words, word, s[0], tail);
      RunDoubleBody(words, word + [s[0]], s[1..], rest);
      assert word + [s[0]] + s[1..] == word + s;
    }
  }

  lemma {:induction false} RunDoubleQuoted(words: seq<string>, word: string, s: string, rest: string)
    ensures Run(State(Word, words, word), "\"" + DoubleBody(s) + "\"" + rest) == Run(State(Word, words, word + s), rest)
  {
    hide Run, DoubleBody;
    var t := "\"" + DoubleBody(s) + "\"" + rest;
    assert t[1..] == DoubleBody(s) + ("\"" + rest);
    RunOne(State(Word, words, word), t);
    RunDoubleBody(words, word, s, "\"" + rest);
    RunDouble(words, word + s, "\"" + rest);
    assert ("\"" + rest)[1..] == rest;
  }

  lemma {:induction false} RunSingleQuoted(words: seq<string>, word: string, s: string, rest: string)
    requires '\'' !in s
    ensures Run(State(Word, words, word), "'" + s + "'" + rest) == Run(State(Word, words, word + s), rest)
  {
    hide Run;
    var t := "'" + s + "'" + rest;
    assert t[1..] == s + ("'" + rest);
    RunOne(State(Word, words, word), t);
    RunSingle(words, word, s, "'" + rest);
    RunOne(State(Single, words, word + s), "'" + rest);
    assert ("'" + rest)[1..] == rest;
  }

  lemma {:induction false} RunContinuation(words: seq<string>, word: string, rest: string)
    ensures Run(State(Word, words, word), "\\\n" + rest) == Run(State(Word, words, word), rest)
  {
    hide Run;
    var t := "\\\n" + rest;
    assert t[1..][1..] == rest;
    RunOne(State(Word, words, word), t);
    RunOne(State(WordEscape, words, word), t[1..]);
  }

  /** A piece adds its text to the word. */
  lemma {:induction false} RunPiece(words: seq<string>, word: string, p: Piece, rest: string)
    requires Writable(p)
    ensures Run(State(Word, words, word), PieceForm(p) + rest) == Run(State(Word, words, word + p.text), rest)
  {
    hide Run, DoubleBody, BackslashBody;
    match p.style
    case Bare => RunBare(words, word, p.text, rest);
    case Backslashed => RunBackslashed(words, word, p.text, rest);
    case SingleQuote =>
      RunSingleQuoted(words, word, p.text, rest);
    case DoubleQuote =>
      RunDoubleQuoted(words, word, p.text, rest);
    case Continuation =>
      assert word + p.text == word;
      RunContinuation(words, word, rest);
  }

  lemma {:induction false} RunPieces(words: seq<string>, word: string, pieces: seq<Piece>, rest: string)
    requires forall p :: p in pieces ==> Writable(p)
    ensures Run(State(Word, words, word), Form(pieces) + rest) == Run(State(Word, words, word + Value(pieces)), rest)
    decreases |pieces|
  {
    hide Run, PieceForm, Writable;
    if pieces == [] {
      assert Form(pieces) + rest == rest && word + Value(pieces) == word;
    } else {
      assert Form(pieces) + rest == PieceForm(pieces[0]) + (Form(pieces[1..]) + rest);
      RunPiece(words, word, pieces[0], Form(pieces[1..]) + rest);
      RunPieces(words, word + pieces[0].text, pieces[1..], rest);
      assert word + pieces[0].text + Value(pieces[1..]) == word + Value(pieces);
    }
  }

  lemma {:induction false} PieceBegins(p: Piece)
    requires Writable(p) && PieceForm(p) != "" && !p.style.Continuation?
    ensures var f := PieceForm(p);
      && !IsBlank(f[0]) && (f[0] == '\\' ==> |f| > 1 && f[1] != '\n')
  {
  }

  /** Where a word begins, its pieces are read as inside a word. */
  lemma {:induction false} RunWordForm(done: seq<string>, pieces: seq<Piece>, rest: string)
    requires IsWordForm(pieces)
    ensures Run(Start(done), Form(pieces) + rest) == Run(State(Word, done, Value(pieces)), rest)
  {
    hide Run, PieceForm, Writable;
    var t := Form(pieces) + rest;
    assert t == PieceForm(pieces[0]) + (Form(pieces[1..]) + rest);
    PieceBegins(pieces[0]);
    BeginWord(done, t);
    RunPieces(done, "", pieces, rest);
    assert "" + Value(pieces) == Value(pieces);
  }

  // Whole lines ------------------------------------------------------------------------

  lemma {:induction false} RunBlanks(done: seq<string>, gap: string, rest: string)
    requires AllBlank(gap)
    ensures Run(Start(done), gap + rest) == Run(Start(done), rest)
    decreases |gap|
  {
    hide Run;
    if gap == "" {
      assert gap + rest == rest;
    } else {
      assert (gap + rest)[1..] == gap[1..] + rest;
      RunOne(Start(done), gap + rest);
      RunBlanks(done, gap[1..], rest);
    }
  }

  lemma {:induction false} RunWordEnd(done: seq<string>, word: string, rest: string)
    requires rest != "" && rest[0] in {' ', '\t', '\n'}
    ensures Run(State(Word, done, word), rest) == Run(Start(done + [word]), rest)
  {
    RunOne(State(Word, done, word), rest);
    RunOne(Start(done + [word]), rest);
  }

  /** The words read, one of them unfinished if no blank follows it. */
  function Reached(done: seq<string>, last: bool): State
    requires last ==> done != []
  {
    if last then State(Word, done[..|done| - 1], done[|done| - 1]) else Start(done)
  }

  lemma {:induction false} RunWritten(done: seq<string>, words: seq<seq<Piece>>, gaps: seq<string>)
    requires Spaced(words, gaps)
    ensures Run(Start(done), Written(words, gaps))
      == Reached(done + Values(words), words != [] && gaps[|words|] == "")
    decreases |words|
  {
    hide Run, Form, Value, IsWordForm;
    if words == [] {
      assert Written(words, gaps) == gaps[0] + "";
      RunBlanks(done, gaps[0], "");
      RunNone(Start(done));
      assert done + Values(words) == done;
    } else {
      var w, rest := Value(words[0]), Written(words[1..], gaps[1..]);
      SpacedTail(words, gaps);
      RunBlanks(done, gaps[0], Form(words[0]) + rest);
      RunWordForm(done, words[0], rest);
      assert Values(words) == [w] + Values(words[1..]);
      assert done + Values(words) == done + [w] + Values(words[1..]);
      RunWritten(done + [w], words[1..], gaps[1..]);
      if gaps[1] != "" {
        assert rest[0] == gaps[1][0];
        RunWordEnd(done, w, rest);
      } else {
        assert words[1..] == [] && rest == "";
        RunNone(State(Word, done, w));
        assert done + Values(words) == done + [w];
        assert (done + [w])[..|done|] == done;
      }
    }
  }

  lemma {:induction false} SpacedTail(words: seq<seq<Piece>>, gaps: seq<string>)
    requires Spaced(words, gaps) && words != []
    ensures Spaced(words[1..], gaps[1..]) && IsWordForm(words[0]) && AllBlank(gaps[0]) && AllBlank(gaps[1])
    ensures gaps[1] == "" ==> |words| == 1
  {
    hide IsWordForm, AllBlank;
    assert words[0] in words && gaps[0] in gaps && gaps[1] in gaps;
    assert forall g :: g in gaps[1..] ==> g in gaps;
  }

  /** Words written in pieces of any styles, with any blanks around and between them,
      split into the words. */
  lemma {:induction false} SplitInvertsWriting(words: seq<seq<Piece>>, gaps: seq<string>)
    requires Spaced(words, gaps)
    ensures ShellSplit(Written(words, gaps)) == Complete(Values(words))
  {
    hide Run, Written, Spaced;
    RunWritten([], words, gaps);
    assert [] + Values(words) == Values(words);
  }

  /** Between double quotes a backslash before any other character stays. */
  lemma {:induction false} BackslashStays(words: seq<string>, word: string, c: char, rest: string)
    requires !NeedsBackslash(c)
    ensures Run(State(Double, words, word), ['\\', c] + rest)
      == Run(State(Double, words, word + if c == '\n' then "" else ['\\', c]), rest)
  {
    hide Run;
    var t := ['\\', c] + rest;
    assert t[2..] == rest && word + "" == word;
    RunDouble(words, word, t);
  }

  // Lines left open ----------------------------------------------------------------------

  /** A line that breaks off in quotes, or after a backslash: the words before it are
      kept, and the error tells which it was. */
  lemma {:induction false} BrokenOff(words: seq<seq<Piece>>, gaps: seq<string>, s: string)
    requires Spaced(words, gaps) && (words == [] || gaps[|words|] != "")
    ensures var t := Written(words, gaps);
      && ('\'' !in s ==> ShellSplit(t + ("'" + s)) == Failed(Values(words), UnterminatedSingleQuote))
      && ShellSplit(t + ("\"" + DoubleBody(s))) == Failed(Values(words), UnterminatedDoubleQuote)
      && ShellSplit(t + ("\"" + DoubleBody(s) + "\\")) == Failed(Values(words), UnterminatedDoubleQuote)
      && ShellSplit(t + "\\") == Failed(Values(words), UnterminatedEscape)
  {
    hide Run, Written, IsWordForm, AllBlank, DoubleBody;
    var t, done := Written(words, gaps), Values(words);
    RunWritten([], words, gaps);
    assert [] + done == done;
    RunAppend(Start([]), t, "'" + s);
    RunAppend(Start([]), t, "\"" + DoubleBody(s));
    RunAppend(Start([]), t, "\"" + DoubleBody(s) + "\\");
    RunAppend(Start([]), t, "\\");
    if '\'' !in s {
      RunOpenQuote(done, s);
      SingleOpen(done, "", s);
    }
    OpenDouble(done, s);
    RunOne(Start(done), "\\");
    assert "\\"[1..] == "";
    RunNone(State(BetweenEscape, done, ""));
  }

  lemma {:induction false} OpenDouble(done: seq<string>, s: string)
    ensures Run(Start(done), "\"" + DoubleBody(s)) == State(Double, done, s)
    ensures Run(Start(done), "\"" + DoubleBody(s) + "\\") == State(DoubleEscape, done, s)
  {
    hide Run, DoubleBody;
    var a, b := "\"" + DoubleBody(s), "\"" + DoubleBody(s) + "\\";
    assert a[1..] == DoubleBody(s) + "" && b[1..] == DoubleBody(s) + "\\";
    RunOne(Start(done), a);
    RunOne(Start(done), b);
    RunDoubleBody(done, "", s, "");
    RunDoubleBody(done, "", s, "\\");
    assert "" + s == s;
    RunNone(State(Double, done, s));
    RunDouble(done, s, "\\");
  }
}
