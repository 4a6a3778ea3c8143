/** Splitting a line into shell words (internal/strutil/split.go), against the
    quoting rules of section 2.2 of the POSIX.1-2017 Shell Command Language read
    as an automaton that takes one character at a time. */
module ShellWords {
  import opened Basics

  datatype SplitError =
    | UnterminatedSingleQuote
    | UnterminatedDoubleQuote
    | UnterminatedEscape

  /** The words gathered before the failure are returned with it. */
  datatype Words =
    | Complete(words: seq<string>)
    | Failed(words: seq<string>, error: SplitError)

  predicate IsBlank(c: char) { c == ' ' || c == '\n' || c == '\t' }

  /** What a backslash escapes between double quotes. */
  predicate IsDoubleEscape(c: char) { c == '$' || c == '`' || c == '"' || c == '\n' || c == '\\' }

  // The automaton -------------------------------------------------------------

  datatype Mode =
    | Between        // no word begun
    | BetweenEscape  // a backslash where a word could begin
    | Word
    | WordEscape
    | Single
    | Double
    | DoubleEscape

  datatype State = State(mode: Mode, words: seq<string>, word: string)

  function StepWord(s: State, c: char): State {
    if c == '\'' then s.(mode := Single)
    else if c == '"' then s.(mode := Double)
    else if c == '\\' then s.(mode := WordEscape)
    else if IsBlank(c) then State(Between, s.words + [s.word], "")
    else s.(word := s.word + [c])
  }

  function Step(s: State, c: char): State {
    match s.mode
    case Between =>
      if IsBlank(c) then s
      else if c == '\\' then s.(mode := BetweenEscape)
      else StepWord(s.(mode := Word, word := ""), c)
    case BetweenEscape =>
      if c == '\n' then s.(mode := Between) else s.(mode := Word, word := [c])
    case Word => StepWord(s, c)
    case WordEscape =>
      s.(mode := Word, word := if c == '\n' then s.word else s.word + [c])
    case Single =>
      if c == '\'' then s.(mode := Word) else s.(word := s.word + [c])
    case Double =>
      if c == '"' then s.(mode := Word)
      else if c == '\\' then s.(mode := DoubleEscape)
      else s.(word := s.word + [c])
    case DoubleEscape =>
      s.(mode := Double,
         word := if c == '\n' then s.word
                 else if IsDoubleEscape(c) then s.word + [c]
                 else s.word + ['\\', c])
  }

  function Run(s: State, input: string): State
    decreases |input|
  {
    if input == "" then s else Run(Step(s, input[0]), input[1..])
  }

  function Finish(s: State): Words {
    match s.mode
    case Between => Complete(s.words)
    case Word => Complete(s.words + [s.word])
    case BetweenEscape => Failed(s.words, UnterminatedEscape)
    case WordEscape => Failed(s.words, UnterminatedEscape)
    case Single => Failed(s.words, UnterminatedSingleQuote)
    case Double => Failed(s.words, UnterminatedDoubleQuote)
    case DoubleEscape => Failed(s.words, UnterminatedDoubleQuote)
  }

  function Start(words: seq<string>): State { State(Between, words, "") }

  function ShellSplit(input: string): Words { Finish(Run(Start([]), input)) }

  lemma {:induction false} RunAppend(s: State, a: string, b: string)
    ensures Run(s, a + b) == Run(Run(s, a), b)
    decreases |a|
  {
    if a == "" {
      assert a + b == b;
    } else {
      assert (a + b)[1..] == a[1..] + b;
      RunAppend(Step(s, a[0]), a[1..], b);
    }
  }

  lemma {:induction false} RunOne(s: State, input: string)
    requires input != ""
    ensures Run(s, input) == Run(Step(s, input[0]), input[1..])
  {
  }

  lemma {:induction false} RunNone(s: State)
    ensures Run(s, "") == s
  {
  }

  // The splitter ----------------------------------------------------------------

  class Buffer {
    var text: string

    constructor ()
      ensures text == ""
    {
      text := "";
    }

    method Reset()
      modifies this
      ensures text == ""
    {
      text := "";
    }

    method Write(s: string)
      modifies this
      ensures text == old(text) + s
    {
      text := text + s;
    }
  }

  /** The automaton state at a label of splitWord. */
  function AtLabel(mode: Mode, words: seq<string>, buf: Buffer): State
    reads buf
  {
    State(mode, words, buf.text)
  }

  /** Where control goes when the block at raw is left. */
  datatype Exit = Goto(block: Mode) | Return

  /** The block at raw: copies up to a quote, a backslash, a blank or the end. */
  method Raw(input: string, buf: Buffer, ghost words: seq<string>) returns (rest: string, exit: Exit)
    modifies buf
    ensures |rest| <= |input| && (rest == "" || |rest| < |input|)
    ensures exit.Goto? ==> exit.block in {WordEscape, Single, Double} && |rest| < |input|
    ensures exit.Goto? ==>
      Run(old(AtLabel(Word, words, buf)), input) == Run(AtLabel(exit.block, words, buf), rest)
    ensures exit.Return? ==>
      Finish(Run(old(AtLabel(Word, words, buf)), input)) == Finish(Run(Start(words + [buf.text]), rest))
  {
    hide Run;
    ghost var before := AtLabel(Word, words, buf);
    var cur := input;
    assert buf.text + input[..0] == buf.text;
    while cur != ""
      decreases |cur|
      invariant |cur| <= |input| && cur == input[|input| - |cur|..]
      invariant buf.text == old(buf.text)
      invariant Run(before, input) == Run(State(Word, words, buf.text + input[..|input| - |cur|]), cur)
    {
      var c := cur[0];
      ghost var state := State(Word, words, buf.text + input[..|input| - |cur|]);
      RunOne(state, cur);
      cur := cur[1..];
      var done := input[..|input| - |cur| - 1];
      if c == '\'' || c == '"' || c == '\\' {
        buf.Write(done);
        return cur, Goto(if c == '\'' then Single else if c == '"' then Double else WordEscape);
      } else if IsBlank(c) {
        buf.Write(done);
        return cur, Return;
      }
      assert input[..|input| - |cur|] == done + [c];
      assert buf.text + (done + [c]) == buf.text + done + [c];
    }
    assert input[..|input|] == input;
    buf.Write(input);
    RunNone(AtLabel(Word, words, buf));
    RunNone(Start(words + [buf.text]));
    rest, exit := "", Return;
  }

  lemma {:induction false} RunSingle(words: seq<string>, word: string, a: string, rest: string)
    requires '\'' !in a
    ensures Run(State(Single, words, word), a + rest) == Run(State(Single, words, word + a), rest)
    decreases |a|
  {
    if a == "" {
      assert a + rest == rest && word + a == word;
    } else {
      assert (a + rest)[1..] == a[1..] + rest;
      RunOne(State(Single, words, word), a + rest);
      RunSingle(words, word + [a[0]], a[1..], rest);
      assert word + [a[0]] + a[1..] == word + a;
    }
  }

  lemma {:induction false} SingleClosed(words: seq<string>, word: string, input: string, i: nat)
    requires i < |input| && input[i] == '\'' && '\'' !in input[..i]
    ensures Run(State(Single, words, word), input) == Run(State(Word, words, word + input[..i]), input[i + 1..])
  {
    assert input == input[..i] + input[i..];
    RunSingle(words, word, input[..i], input[i..]);
    RunOne(State(Single, words, word + input[..i]), input[i..]);
    assert input[i..][1..] == input[i + 1..];
  }

  lemma {:induction false} SingleOpen(words: seq<string>, word: string, input: string)
    requires '\'' !in input
    ensures Finish(Run(State(Single, words, word), input)) == Failed(words, UnterminatedSingleQuote)
  {
    RunSingle(words, word, input, "");
    assert input + "" == input;
  }

  method IndexRune(s: string, c: char) returns (i: int)
    ensures -1 <= i < |s|
    ensures i == -1 ==> c !in s
    ensures i >= 0 ==> s[i] == c && c !in s[..i]
  {
    i := 0;
    while i < |s|
      invariant 0 <= i <= |s| && c !in s[..i]
    {
      if s[i] == c { return; }
      i := i + 1;
    }
    i := -1;
  }

  /** The block at single. */
  method SingleQuoted(input: string, buf: Buffer, ghost words: seq<string>) returns (rest: string, ok: bool)
    modifies buf
    ensures |rest| <= |input|
    ensures ok ==>
      Run(old(AtLabel(Single, words, buf)), input) == Run(AtLabel(Word, words, buf), rest)
    ensures !ok ==>
      Finish(Run(old(AtLabel(Single, words, buf)), input)) == Failed(words, UnterminatedSingleQuote)
  {
    hide Run, Finish;
    var i := IndexRune(input, '\'');
    if i == -1 {
      SingleOpen(words, buf.text, input);
      return "", false;
    }
    SingleClosed(words, buf.text, input, i);
    buf.Write(input[..i]);
    rest, ok := input[i + 1..], true;
  }

  lemma {:induction false} RunDouble(words: seq<string>, word: string, cur: string)
    requires cur != ""
    ensures var r := Run(State(Double, words, word), cur);
      var c := cur[0];
      if c == '"' then r == Run(State(Word, words, word), cur[1..])
      else if c != '\\' then r == Run(State(Double, words, word + [c]), cur[1..])
      else if |cur| == 1 then r == State(DoubleEscape, words, word)
      else if cur[1] == '\n' then r == Run(State(Double, words, word), cur[2..])
      else if IsDoubleEscape(cur[1]) then r == Run(State(Double, words, word + [cur[1]]), cur[2..])
      else r == Run(State(Double, words, word + ['\\', cur[1]]), cur[2..])
  {
    RunOne(State(Double, words, word), cur);
    if cur[0] == '\\' && |cur| > 1 {
      RunOne(State(DoubleEscape, words, word), cur[1..]);
      assert cur[1..][1..] == cur[2..];
      assert word + ['\\', cur[1]] == word + ['\\'] + [cur[1]];
    } else if cur[0] == '\\' {
      RunNone(State(DoubleEscape, words, word));
    }
  }

  /** The block at double. */
  method DoubleQuoted(input0: string, buf: Buffer, ghost words: seq<string>) returns (rest: string, ok: bool)
    modifies buf
    ensures |rest| <= |input0|
    ensures ok ==>
      Run(old(AtLabel(Double, words, buf)), input0) == Run(AtLabel(Word, words, buf), rest)
    ensures !ok ==>
      Finish(Run(old(AtLabel(Double, words, buf)), input0)) == Failed(words, UnterminatedDoubleQuote)
  {
    hide Run;
    var input := input0;
    var i := 0;  // what has been read of input: cur is input[i..]
    assert buf.text + input[..0] == buf.text && input[0..] == input;
    while i < |input|
      invariant 0 <= i <= |input| <= |input0|
      invariant Run(old(AtLabel(Double, words, buf)), input0)
        == Run(State(Double, words, buf.text + input[..i]), input[i..])
      decreases |input| - i
    {
      var c := input[i];
      RunDouble(words, buf.text + input[..i], input[i..]);
      assert input[i..][1..] == input[i + 1..];
      if c == '"' {
        buf.Write(input[..i]);
        return input[i + 1..], true;
      } else if c == '\\' {
        if i + 1 == |input| { return "", false; }
        var c2 := input[i + 1];
        assert input[i..][1] == c2 && input[i..][2..] == input[i + 2..];
        if IsDoubleEscape(c2) {
          buf.Write(input[..i]);
          if c2 != '\n' { buf.Write([c2]); }
          input := input[i + 2..];
          i := 0;
          assert buf.text + input[..0] == buf.text && input[0..] == input;
        } else {
          assert buf.text + input[..i + 2] == buf.text + input[..i] + [c, c2];
          i := i + 2;
        }
      } else {
        assert buf.text + input[..i + 1] == buf.text + input[..i] + [c];
        i := i + 1;
      }
    }
    assert input[i..] == "";
    RunNone(State(Double, words, buf.text + input[..i]));
    rest, ok := "", false;
  }

  method SplitWord(input0: string, buf: Buffer, ghost words: seq<string>)
    returns (word: string, remainder: string, error: Option<SplitError>)
    requires input0 != ""
    modifies buf
    ensures error.None? ==> |remainder| < |input0|
    ensures Finish(Run(State(Word, words, ""), input0)) ==
      if error.None? then Finish(Run(Start(words + [word]), remainder)) else Failed(words, error.value)
  {
    buf.Reset();
    var input := input0;
    var block := Word;
    while true
      invariant |input| <= |input0| && ((block == Word && input != "") || |input| < |input0|)
      invariant block in {Word, WordEscape, Single, Double}
      invariant Finish(Run(State(Word, words, ""), input0)) == Finish(Run(AtLabel(block, words, buf), input))
      decreases |input|, if block == Word then 0 else 1
    {
      match block
      case Word =>
        var exit;
        input, exit := Raw(input, buf, words);
        if exit.Return? { return buf.text, input, None; }
        block := exit.block;
      case WordEscape =>
        if input == "" { return "", "", Some(UnterminatedEscape); }
        RunOne(AtLabel(WordEscape, words, buf), input);
        assert input[..1] == [input[0]];
        if input[0] != '\n' { buf.Write(input[..1]); }
        input := input[1..];
        block := Word;
      case Single =>
        var ok;
        input, ok := SingleQuoted(input, buf, words);
        if !ok { return "", "", Some(UnterminatedSingleQuote); }
        block := Word;
      case Double =>
        var ok;
        input, ok := DoubleQuoted(input, buf, words);
        if !ok { return "", "", Some(UnterminatedDoubleQuote); }
        block := Word;
    }
  }

  /** A word begun at a character that is no blank runs as if inside a word. */
  lemma {:induction false} BeginWord(words: seq<string>, input: string)
    requires input != "" && !IsBlank(input[0])
    requires input[0] == '\\' ==> |input| > 1 && input[1] != '\n'
    ensures Run(Start(words), input) == Run(State(Word, words, ""), input)
  {
    RunOne(Start(words), input);
    RunOne(State(Word, words, ""), input);
    if input[0] == '\\' {
      RunOne(State(BetweenEscape, words, ""), input[1..]);
      RunOne(State(WordEscape, words, ""), input[1..]);
      assert "" + [input[1]] == [input[1]];
    }
  }

  /** Split computes what the automaton accepts: same words, same error. */
  method Split(input0: string) returns (result: Words)
    ensures result == ShellSplit(input0)
  {
    var buf := new Buffer();
    var words: seq<string> := [];
    var input := input0;
    while input != ""
      invariant ShellSplit(input0) == Finish(Run(Start(words), input))
      decreases |input|
    {
      RunOne(Start(words), input);
      var c := input[0];
      if IsBlank(c) {
        input := input[1..];
        continue;
      } else if c == '\\' {
        var next := input[1..];
        if next == "" { return Failed(words, UnterminatedEscape); }
        RunOne(State(BetweenEscape, words, ""), next);
        if next[0] == '\n' {
          input := next[1..];
          continue;
        }
      }
      BeginWord(words, input);
      var word, error;
      word, input, error := SplitWord(input, buf, words);
      if error.Some? { return Failed(words, error.value); }
      words := words + [word];
    }
    result := Complete(words);
  }

  // Quoting -----------------------------------------------------------------------

  /** Inside single quotes a single quote is written '\'' */
  function QuoteBody(word: string): string {
    if word == "" then ""
    else (if word[0] == '\'' then "'\\''" else [word[0]]) + QuoteBody(word[1..])
  }

  function QuoteWords(words: seq<string>): string {
    if words == [] then "" else "'" + QuoteBody(words[0]) + "' " + QuoteWords(words[1..])
  }

  lemma {:induction false} RunQuotedQuote(words: seq<string>, word: string, tail: string)
    ensures Run(State(Single, words, word), "'\\''" + tail) == Run(State(Single, words, word + ['\'']), tail)
  {
    hide Run;
    var t0 := "'\\''" + tail;
    var t1, t2, t3 := t0[1..], t0[2..], t0[3..];
    assert t1[1..] == t2 && t2[1..] == t3 && t3[1..] == tail;
    RunOne(State(Single, words, word), t0);
    RunOne(State(Word, words, word), t1);
    RunOne(State(WordEscape, words, word), t2);
    RunOne(State(Word, words, word + ['\'']), t3);
  }

  lemma {:induction false} RunQuoteBody(words: seq<string>, word: string, s: string, rest: string)
    ensures Run(State(Single, words, word), QuoteBody(s) + rest) == Run(State(Single, words, word + s), rest)
    decreases |s|
  {
    hide Run;
    if s == "" {
      assert QuoteBody(s) + rest == rest && word + s == word;
    } else {
      var c, tail := s[0], QuoteBody(s[1..]) + rest;
      if c == '\'' {
        assert QuoteBody(s) + rest == "'\\''" + tail;
        RunQuotedQuote(words, word, tail);
      } else {
        var t := QuoteBody(s) + rest;
        assert t == [c] + tail && t[1..] == tail;
        RunOne(State(Single, words, word), t);
      }
      RunQuoteBody(words, word + [c], s[1..], rest);
      assert word + [c] + s[1..] == word + s;
    }
  }

  lemma {:induction false} RunOpenQuote(words: seq<string>, tail: string)
    ensures Run(Start(words), "'" + tail) == Run(State(Single, words, ""), tail)
  {
    assert ("'" + tail)[1..] == tail;
    RunOne(Start(words), "'" + tail);
  }

  lemma {:induction false} RunCloseQuote(words: seq<string>, word: string, tail: string)
    ensures Run(State(Single, words, word), "' " + tail) == Run(Start(words + [word]), tail)
  {
    hide Run;
    var t := "' " + tail;
    assert t[1..][1..] == tail && t[1..][0] == ' ';
    RunOne(State(Single, words, word), t);
    RunOne(State(Word, words, word), t[1..]);
  }

  lemma {:induction false} RunQuoteWords(done: seq<string>, words: seq<string>)
    ensures Run(Start(done), QuoteWords(words)) == Start(done + words)
    decreases |words|
  {
    hide Run, QuoteBody;
    if words == [] {
      RunNone(Start(done));
      assert done + words == done;
    } else {
      var word, tail := words[0], QuoteWords(words[1..]);
      assert QuoteWords(words) == "'" + (QuoteBody(word) + ("' " + tail));
      RunOpenQuote(done, QuoteBody(word) + ("' " + tail));
      RunQuoteBody(done, "", word, "' " + tail);
      assert "" + word == word;
      RunCloseQuote(done, word, tail);
      RunQuoteWords(done + [word], words[1..]);
      assert done + [word] + words[1..] == done + words;
    }
  }

  /** Any list of words, single-quoted and joined, splits back into itself. */
  lemma {:induction false} SplitInvertsQuoting(words: seq<string>)
    ensures ShellSplit(QuoteWords(words)) == Complete(words)
  {
    RunQuoteWords([], words);
    assert [] + words == words;
  }
}
