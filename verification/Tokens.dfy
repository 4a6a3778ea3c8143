/** Words of a line and the motions over them (internal/core/line.go). Token
    lengths are counted in bytes of UTF-8, as the code counts them. */
module Tokens {
  import opened Basics
  import opened Unicode
  import opened Text

  /** Tokenize splits on punctuation and space, TokenizeSpace on space alone. */
  datatype Tokenizer = Words(u: Tables) | Blanks

  predicate IsSeparator(u: Tables, c: char) { u.IsPunct(c) || c == ' ' || c == '\t' || c == '\n' }

  /** A token starts at i > 0. */
  predicate Starts(k: Tokenizer, t: string, i: int)
    requires 0 < i < |t|
  {
    match k
    case Words(u) =>
      if u.IsPunct(t[i]) then t[i - 1] != t[i]
      else if t[i] == ' ' || t[i] == '\t' then false
      else if t[i] == '\n' then t[i - 1] == '\n'
      else IsSeparator(u, t[i - 1])
    case Blanks =>
      if t[i] == ' ' || t[i] == '\t' then false
      else if t[i] == '\n' then t[i - 1] == '\n'
      else t[i - 1] == ' ' || t[i - 1] == '\t' || t[i - 1] == '\n'
  }

  function Extend(split: seq<string>, c: char): seq<string>
    requires split != []
  {
    split[|split| - 1 := split[|split| - 1] + [c]]
  }

  function TokensTo(k: Tokenizer, t: string, n: nat): (split: seq<string>)
    requires n <= |t|
    ensures split != []
  {
    if n == 0 then [""]
    else if n > 1 && Starts(k, t, n - 1) then Extend(TokensTo(k, t, n - 1) + [""], t[n - 1])
    else Extend(TokensTo(k, t, n - 1), t[n - 1])
  }

  function Utf8Len(c: char): nat {
    if c < '\U{80}' then 1 else if c < '\U{800}' then 2 else if c as int < 0x10000 then 3 else 4
  }

  function ByteLen(s: string): (n: nat)
    ensures n >= |s|
  {
    if s == "" then 0 else ByteLen(s[..|s| - 1]) + Utf8Len(s[|s| - 1])
  }

  function Last(split: seq<string>): string
    requires split != []
  {
    split[|split| - 1]
  }

  /** What the tokenizers return: the tokens, the one the cursor is in, and the
      cursor's offset in it. */
  datatype Tokenized = Tokenized(split: seq<string>, index: nat, pos: int)

  function Tokenize(k: Tokenizer, t: string, cpos: int): Tokenized {
    if t == "" then Tokenized([], 0, 0)
    else
      var c := Clamp(cpos, |t|);
      var split := TokensTo(k, t, |t|);
      if c == |t| then Tokenized(split, |split| - 1, ByteLen(Last(split)))
      else
        var before := TokensTo(k, t, c + 1);
        Tokenized(split, |before| - 1, ByteLen(Last(before)) - 1)
  }

  // The tokens partition the line ---------------------------------------------

  function Concat(split: seq<string>): string {
    if split == [] then "" else Concat(split[..|split| - 1]) + Last(split)
  }

  lemma {:induction false} ConcatExtend(split: seq<string>, c: char)
    requires split != []
    ensures Concat(Extend(split, c)) == Concat(split) + [c]
  {
    var s := Extend(split, c);
    assert s[..|s| - 1] == split[..|split| - 1];
  }

  lemma {:induction false} TokensPartition(k: Tokenizer, t: string, n: nat)
    requires 0 < n <= |t|
    ensures var split := TokensTo(k, t, n);
      && Concat(split) == t[..n]
      && forall j :: 0 <= j < |split| ==> split[j] != ""
  {
    hide Starts, Concat;
    var before := TokensTo(k, t, n - 1);
    assert t[..n] == t[..n - 1] + [t[n - 1]];
    if n == 1 {
      assert "" + [t[0]] == [t[0]];
      assert Extend(before, t[0]) == [[t[0]]];
      ConcatOne(t[..1]);
    } else {
      TokensPartition(k, t, n - 1);
      var more := before + [""];
      assert more[..|before|] == before;
      assert Concat(more) == Concat(before) by { ConcatEmpty(before); }
      ConcatExtend(before, t[n - 1]);
      ConcatExtend(more, t[n - 1]);
    }
  }

  lemma {:induction false} ConcatOne(s: string)
    ensures Concat([s]) == s
  {
    assert [s][..0] == [];
  }

  lemma {:induction false} ConcatEmpty(split: seq<string>)
    ensures Concat(split + [""]) == Concat(split)
  {
    assert (split + [""])[..|split|] == split;
  }

  /** Reading on only lengthens the last token or adds tokens after it. */
  lemma {:induction false} TokensGrow(k: Tokenizer, t: string, m: nat, n: nat)
    requires 0 < m <= n <= |t|
    ensures var a, b := TokensTo(k, t, m), TokensTo(k, t, n);
      && |a| <= |b| && a[..|a| - 1] == b[..|a| - 1] && Last(a) <= b[|a| - 1]
    decreases n - m
  {
    hide Starts;
    if m < n {
      TokensGrow(k, t, m, n - 1);
    }
  }

  /** Where token j begins. */
  function Begin(split: seq<string>, j: int): nat
    requires 0 <= j <= |split|
  {
    |Concat(split[..j])|
  }

  lemma {:induction false} BeginNext(split: seq<string>, j: int)
    requires 0 <= j < |split|
    ensures Begin(split, j + 1) == Begin(split, j) + |split[j]|
  {
    assert split[..j + 1][..j] == split[..j];
  }

  lemma {:induction false} BeginMonotone(split: seq<string>, i: int, j: int)
    requires 0 <= i <= j <= |split|
    requires forall l :: 0 <= l < |split| ==> split[l] != ""
    ensures Begin(split, i) + (j - i) <= Begin(split, j)
    decreases j
  {
    if i < j {
      BeginNext(split, j - 1);
      BeginMonotone(split, i, j - 1);
    }
  }

  predicate OneByte(t: string) { forall i :: 0 <= i < |t| ==> t[i] < '\U{80}' }

  lemma {:induction false} OneByteLen(s: string)
    ensures ByteLen(s) == |s| <==> OneByte(s)
  {
    if s != "" {
      var r := s[..|s| - 1];
      OneByteLen(r);
      assert forall i :: 0 <= i < |r| ==> r[i] == s[i];
    }
  }

  /** (index, pos) is the cursor position c. */
  predicate Locates(tok: Tokenized, c: int) {
    0 <= tok.index < |tok.split| && Begin(tok.split, tok.index) + tok.pos == c
  }

  /** The token part read when the cursor is reached, in runes. */
  lemma {:induction false} LocateRunes(k: Tokenizer, t: string, c: nat)
    requires c < |t|
    ensures var before, split := TokensTo(k, t, c + 1), TokensTo(k, t, |t|);
      && |before| <= |split| && Last(before) <= split[|before| - 1]
      && Begin(split, |before| - 1) + |Last(before)| == c + 1
      && Last(before) != "" && t[c + 1 - |Last(before)|..c + 1] == Last(before)
  {
    var before, split := TokensTo(k, t, c + 1), TokensTo(k, t, |t|);
    TokensGrow(k, t, c + 1, |t|);
    TokensPartition(k, t, c + 1);
    hide TokensTo;
    var head, last := Concat(before[..|before| - 1]), Last(before);
    assert split[..|before| - 1] == before[..|before| - 1];
    assert t[..c + 1] == head + last;
    assert last == (head + last)[|head|..];
  }

  /** The returned pair locates every cursor position exactly when the text has
      one-byte characters only. */
  lemma {:induction false} LocationIsExact(k: Tokenizer, t: string)
    requires t != ""
    ensures (forall c :: 0 <= c <= |t| ==> Locates(Tokenize(k, t, c), c)) <==> OneByte(t)
  {
    if OneByte(t) {
      hide Tokenize, Locates, OneByte;
      forall c | 0 <= c <= |t| ensures Locates(Tokenize(k, t, c), c) {
        LocationOfOneByte(k, t, c);
      }
    } else {
      var c :| 0 <= c < |t| && t[c] >= '\U{80}';
      WideRuneMislocates(k, t, c);
    }
  }

  lemma {:induction false} WideRuneMislocates(k: Tokenizer, t: string, c: nat)
    requires c < |t| && t[c] >= '\U{80}'
    ensures !Locates(Tokenize(k, t, c), c)
  {
    hide TokensTo, Begin, ByteLen;
    LocateRunes(k, t, c);
    var last := Last(TokensTo(k, t, c + 1));
    assert last[|last| - 1] == t[c + 1 - |last|..c + 1][|last| - 1] == t[c];
    OneByteLen(last);
  }

  lemma {:induction false} LocationOfOneByte(k: Tokenizer, t: string, c: nat)
    requires t != "" && OneByte(t) && c <= |t|
    ensures var tok := Tokenize(k, t, c);
      && tok.split == TokensTo(k, t, |t|) && Locates(tok, c)
      && 0 <= tok.pos && (c < |t| ==> tok.pos < |tok.split[tok.index]|)
      && (c == |t| ==> tok.index == |tok.split| - 1 && tok.pos == |tok.split[tok.index]|)
  {
    hide TokensTo, Begin, OneByte, ByteLen;
    if c < |t| {
      LocateRunes(k, t, c);
      ReadOneByte(k, t, c + 1);
    } else {
      LocateRunes(k, t, |t| - 1);
      ReadOneByte(k, t, |t|);
    }
  }

  lemma {:induction false} ReadOneByte(k: Tokenizer, t: string, n: nat)
    requires OneByte(t) && 0 < n <= |t|
    ensures var last := Last(TokensTo(k, t, n)); ByteLen(last) == |last|
  {
    hide TokensTo, Begin, ByteLen;
    LocateRunes(k, t, n - 1);
    var last := Last(TokensTo(k, t, n));
    forall i | 0 <= i < |last| ensures last[i] < '\U{80}' {
      assert t[n - |last|..n][i] == t[n - |last| + i];
    }
    OneByteLen(last);
  }

  // Word motions -----------------------------------------------------------------

  function ForwardOffset(t: string, tok: Tokenized): int
    requires tok.split != [] ==> tok.index < |tok.split|
  {
    if tok.split == [] then 0
    else if tok.index + 1 == |tok.split| then |t| - tok.pos
    else ByteLen(tok.split[tok.index]) - tok.pos
  }

  function BackwardOffset(tok: Tokenized): int
    requires tok.split != [] ==> tok.index < |tok.split|
  {
    if tok.split == [] then 0
    else if tok.index == 0 && tok.pos == 0 then 0
    else if tok.pos == 0 then 0 - ByteLen(tok.split[tok.index - 1])
    else -tok.pos
  }

  lemma {:induction false} TokenizeInRange(k: Tokenizer, t: string, c: int)
    ensures var tok := Tokenize(k, t, c); tok.split != [] ==> tok.index < |tok.split|
  {
    hide TokensTo, ByteLen;
    var p := Clamp(c, |t|);
    if p < |t| { TokensGrow(k, t, p + 1, |t|); }
  }

  /** The cursor after moving by the offset, as Cursor.Move clamps it. */
  function ForwardFrom(k: Tokenizer, t: string, c: int): int {
    TokenizeInRange(k, t, c);
    Clamp(c + ForwardOffset(t, Tokenize(k, t, c)), |t|)
  }

  function BackwardFrom(k: Tokenizer, t: string, c: int): int {
    TokenizeInRange(k, t, c);
    Clamp(c + BackwardOffset(Tokenize(k, t, c)), |t|)
  }

  function TokenCount(k: Tokenizer, t: string): nat { |TokensTo(k, t, |t|)| }

  function TokenBegin(k: Tokenizer, t: string, j: int): nat
    requires 0 <= j <= TokenCount(k, t)
  {
    Begin(TokensTo(k, t, |t|), j)
  }

  lemma {:induction false} TokenEnds(k: Tokenizer, t: string)
    requires t != ""
    ensures TokenBegin(k, t, 0) == 0 && TokenBegin(k, t, TokenCount(k, t)) == |t|
  {
    var split := TokensTo(k, t, |t|);
    TokensPartition(k, t, |t|);
    assert split[..|split|] == split && t[..|t|] == t && split[..0] == [];
  }

  lemma {:induction false} TokenGap(k: Tokenizer, t: string, j: int)
    requires t != "" && 0 <= j < TokenCount(k, t)
    ensures j <= TokenBegin(k, t, j) < TokenBegin(k, t, j + 1) <= |t|
    ensures j + 1 < TokenCount(k, t) ==> TokenBegin(k, t, j + 1) < |t|
  {
    var split := TokensTo(k, t, |t|);
    TokensPartition(k, t, |t|);
    TokenEnds(k, t);
    BeginMonotone(split, 0, j);
    BeginMonotone(split, j, j + 1);
    BeginMonotone(split, j + 1, |split|);
  }

  lemma {:induction false} ConcatPrefix(split: seq<string>, j: int)
    requires 0 <= j < |split|
    ensures |Concat(split[..j])| + |split[j]| <= |Concat(split)|
    ensures Concat(split)[|Concat(split[..j])|..|Concat(split[..j])| + |split[j]|] == split[j]
    decreases |split|
  {
    var r := split[..|split| - 1];
    assert Concat(split) == Concat(r) + Last(split);
    if j < |r| {
      ConcatPrefix(r, j);
      assert r[..j] == split[..j];
    }
  }

  /** Token j is the part of the line from its start to the next. */
  lemma {:induction false} TokenText(k: Tokenizer, t: string, j: int)
    requires t != "" && 0 <= j < TokenCount(k, t)
    ensures TokenBegin(k, t, j) < TokenBegin(k, t, j + 1) <= |t|
    ensures TokensTo(k, t, |t|)[j] == t[TokenBegin(k, t, j)..TokenBegin(k, t, j + 1)]
  {
    var split := TokensTo(k, t, |t|);
    TokenGap(k, t, j);
    TokensPartition(k, t, |t|);
    ConcatPrefix(split, j);
    BeginNext(split, j);
    assert t[..|t|] == t;
  }

  /** What the tokenizers return at a position of token j. */
  lemma {:induction false} TokenOf(k: Tokenizer, t: string, c: int, j: int)
    requires t != "" && 0 <= j < TokenCount(k, t)
    requires TokenBegin(k, t, j) <= c < TokenBegin(k, t, j + 1)
    ensures c < |t| && Tokenize(k, t, c).split == TokensTo(k, t, |t|) && Tokenize(k, t, c).index == j
    ensures Tokenize(k, t, c).pos == ByteLen(t[TokenBegin(k, t, j)..c + 1]) - 1
  {
    hide TokensTo, Begin, ByteLen;
    var split := TokensTo(k, t, |t|);
    TokenGap(k, t, j);
    LocateRunes(k, t, c);
    TokensPartition(k, t, |t|);
    var i := |TokensTo(k, t, c + 1)| - 1;
    BeginNext(split, i);
    if i < j { BeginMonotone(split, i + 1, j); }
    if j < i { BeginMonotone(split, j + 1, i); }
  }

  lemma {:induction false} TokenAtEnd(k: Tokenizer, t: string)
    requires t != ""
    ensures TokenCount(k, t) > 0 && TokenBegin(k, t, TokenCount(k, t) - 1) <= |t|
    ensures Tokenize(k, t, |t|).split == TokensTo(k, t, |t|) && Tokenize(k, t, |t|).index == TokenCount(k, t) - 1
    ensures Tokenize(k, t, |t|).pos == ByteLen(t[TokenBegin(k, t, TokenCount(k, t) - 1)..])
  {
    TokenEnds(k, t);
    TokenText(k, t, TokenCount(k, t) - 1);
    assert t[TokenBegin(k, t, TokenCount(k, t) - 1)..|t|] == t[TokenBegin(k, t, TokenCount(k, t) - 1)..];
  }

  lemma {:induction false} ByteLenAppend(a: string, b: string)
    ensures ByteLen(a + b) == ByteLen(a) + ByteLen(b)
    decreases |b|
  {
    if b == "" {
      assert a + b == a;
    } else {
      assert (a + b)[..|a + b| - 1] == a + b[..|b| - 1];
      ByteLenAppend(a, b[..|b| - 1]);
    }
  }

  /** Where forward goes from a position of token j. */
  lemma {:induction false} ForwardValue(k: Tokenizer, t: string, c: int, j: int)
    requires t != "" && 0 <= j < TokenCount(k, t)
    requires TokenBegin(k, t, j) <= c < TokenBegin(k, t, j + 1)
    ensures TokenBegin(k, t, j + 1) <= |t|
    ensures ForwardFrom(k, t, c) == Clamp(
      if j + 1 < TokenCount(k, t) then c + 1 + ByteLen(t[c + 1..TokenBegin(k, t, j + 1)])
      else c + |t| - (ByteLen(t[TokenBegin(k, t, j)..c + 1]) - 1), |t|)
  {
    hide TokensTo, TokenBegin, Tokenize, ByteLen;
    TokenText(k, t, j);
    TokenOf(k, t, c, j);
    var b, e := TokenBegin(k, t, j), TokenBegin(k, t, j + 1);
    assert t[b..e] == t[b..c + 1] + t[c + 1..e];
    ByteLenAppend(t[b..c + 1], t[c + 1..e]);
  }

  /** From a position of token j, forward reaches the next token exactly when the
      rest of the token is one-byte; in the last token it reaches the end exactly
      when the bytes read so far in the token do not outnumber the runes of the
      line up to the cursor. */
  lemma {:induction false} ForwardLands(k: Tokenizer, t: string, c: int, j: int)
    requires t != "" && 0 <= j < TokenCount(k, t)
    requires TokenBegin(k, t, j) <= c < TokenBegin(k, t, j + 1)
    ensures TokenBegin(k, t, j + 1) <= |t|
    ensures ForwardFrom(k, t, c) == TokenBegin(k, t, j + 1) <==>
      if j + 1 < TokenCount(k, t) then OneByte(t[c + 1..TokenBegin(k, t, j + 1)])
      else ByteLen(t[TokenBegin(k, t, j)..c + 1]) <= c + 1
  {
    hide TokensTo, TokenBegin, ForwardFrom, ByteLen, OneByte;
    ForwardValue(k, t, c, j);
    TokenGap(k, t, j);
    TokenEnds(k, t);
    OneByteLen(t[c + 1..TokenBegin(k, t, j + 1)]);
  }

  /** Where backward goes from the positions that belong to token j: those after its
      start, and the start of the next. */
  lemma {:induction false} BackwardValue(k: Tokenizer, t: string, c: int, j: int)
    requires t != "" && 0 <= j < TokenCount(k, t)
    requires TokenBegin(k, t, j) < c <= TokenBegin(k, t, j + 1)
    ensures TokenBegin(k, t, j + 1) <= |t|
    ensures BackwardFrom(k, t, c) == Clamp(
      if c < TokenBegin(k, t, j + 1) then c - (ByteLen(t[TokenBegin(k, t, j)..c + 1]) - 1)
      else if c == |t| || t[c] < '\U{80}' then c - ByteLen(t[TokenBegin(k, t, j)..c])
      else c - (Utf8Len(t[c]) - 1), |t|)
  {
    hide TokensTo, TokenBegin, Tokenize, ByteLen;
    TokenGap(k, t, j);
    TokenEnds(k, t);
    if c < TokenBegin(k, t, j + 1) {
      TokenOf(k, t, c, j);
    } else if c == |t| {
      TokenAtEnd(k, t);
      TokenGap(k, t, TokenCount(k, t) - 1);
      if j + 1 < TokenCount(k, t) { TokenGap(k, t, j + 1); }
      assert t[TokenBegin(k, t, j)..c] == t[TokenBegin(k, t, j)..];
    } else {
      TokenGap(k, t, j + 1);
      TokenOf(k, t, c, j + 1);
      TokenText(k, t, j);
      OneRune(t, c);
    }
  }

  lemma {:induction false} OneRune(t: string, c: int)
    requires 0 <= c < |t|
    ensures ByteLen(t[c..c + 1]) == Utf8Len(t[c])
  {
    assert t[c..c + 1][..0] == "";
  }

  /** When backward reaches the start of token j, the first token apart: what it read
      of the token is one-byte. At the start of a next token that begins with a wide
      rune it goes back by the bytes of that rune instead. */
  lemma {:induction false} BackwardLands(k: Tokenizer, t: string, c: int, j: int)
    requires t != "" && 0 <= j < TokenCount(k, t)
    requires TokenBegin(k, t, j) < c <= TokenBegin(k, t, j + 1)
    ensures TokenBegin(k, t, j + 1) <= |t|
    ensures BackwardFrom(k, t, c) == TokenBegin(k, t, j) <==>
      if c < TokenBegin(k, t, j + 1) then j == 0 || OneByte(t[TokenBegin(k, t, j)..c + 1])
      else if c == |t| || t[c] < '\U{80}' then j == 0 || OneByte(t[TokenBegin(k, t, j)..c])
      else c - TokenBegin(k, t, j) == Utf8Len(t[c]) - 1 || (j == 0 && c < Utf8Len(t[c]))
  {
    hide TokensTo, TokenBegin, BackwardFrom, ByteLen, OneByte;
    BackwardValue(k, t, c, j);
    TokenGap(k, t, j);
    TokenEnds(k, t);
    OneByteLen(t[TokenBegin(k, t, j)..c]);
    if c < |t| { OneByteLen(t[TokenBegin(k, t, j)..c + 1]); }
  }

  // Over the whole line -------------------------------------------------------------

  ghost predicate ForwardEverywhere(k: Tokenizer, t: string) {
    && (forall c, j :: 0 <= j < TokenCount(k, t) && TokenBegin(k, t, j) <= c < TokenBegin(k, t, j + 1) ==>
          ForwardFrom(k, t, c) == TokenBegin(k, t, j + 1))
    && ForwardFrom(k, t, |t|) == |t|
  }

  ghost predicate BackwardEverywhere(k: Tokenizer, t: string) {
    && (forall c, j :: 0 <= j < TokenCount(k, t) && TokenBegin(k, t, j) < c <= TokenBegin(k, t, j + 1) ==>
          BackwardFrom(k, t, c) == TokenBegin(k, t, j))
    && BackwardFrom(k, t, 0) == 0
  }

  /** In every token but the last the runes after the first are one-byte. */
  ghost predicate NarrowTails(k: Tokenizer, t: string) {
    forall j, i :: 0 <= j < TokenCount(k, t) - 1 && TokenBegin(k, t, j) < i < TokenBegin(k, t, j + 1) && i < |t| ==>
      t[i] < '\U{80}'
  }

  /** The bytes of the last token up to the rune at c, none if c is before it. */
  function BytesOfLast(k: Tokenizer, t: string, c: int): nat
    requires 0 <= c < |t|
  {
    var n := TokenCount(k, t);
    var b := if n == 0 then 0 else TokenBegin(k, t, n - 1);
    if b <= c then ByteLen(t[b..c + 1]) else 0
  }

  /** No prefix of the last token has more bytes than the line has runes up to its
      end. */
  ghost predicate LastNotTooWide(k: Tokenizer, t: string) {
    forall c :: 0 <= c < |t| ==> BytesOfLast(k, t, c) <= c + 1
  }

  lemma {:induction false} ForwardNeeds(k: Tokenizer, t: string)
    requires t != "" && ForwardEverywhere(k, t)
    ensures NarrowTails(k, t) && LastNotTooWide(k, t)
  {
    hide TokensTo, TokenBegin, ForwardFrom, ByteLen;
    var n := TokenCount(k, t);
    TokenEnds(k, t);
    TokenAtEnd(k, t);
    forall j, i | 0 <= j < n - 1 && TokenBegin(k, t, j) < i < TokenBegin(k, t, j + 1) && i < |t|
      ensures t[i] < '\U{80}'
    {
      ForwardLands(k, t, TokenBegin(k, t, j), j);
      assert t[i] == t[TokenBegin(k, t, j) + 1..TokenBegin(k, t, j + 1)][i - TokenBegin(k, t, j) - 1];
    }
    forall c | 0 <= c < |t| ensures BytesOfLast(k, t, c) <= c + 1 {
      if TokenBegin(k, t, n - 1) <= c { ForwardLands(k, t, c, n - 1); }
    }
  }

  /** Forward reaches the next token from every position, and the end from the last,
      exactly under these two conditions. */
  lemma {:induction false} ForwardIsExact(k: Tokenizer, t: string)
    requires t != ""
    ensures ForwardEverywhere(k, t) <==> NarrowTails(k, t) && LastNotTooWide(k, t)
  {
    hide TokensTo, TokenBegin, ForwardFrom, ByteLen, NarrowTails, LastNotTooWide;
    if ForwardEverywhere(k, t) { ForwardNeeds(k, t); }
    if NarrowTails(k, t) && LastNotTooWide(k, t) {
      forall c, j | 0 <= j < TokenCount(k, t) && TokenBegin(k, t, j) <= c < TokenBegin(k, t, j + 1)
        ensures ForwardFrom(k, t, c) == TokenBegin(k, t, j + 1)
      {
        ForwardWhenNarrow(k, t, c, j);
      }
      ForwardAtEnd(k, t);
    }
  }

  lemma {:induction false} ForwardWhenNarrow(k: Tokenizer, t: string, c: int, j: int)
    requires t != "" && NarrowTails(k, t) && LastNotTooWide(k, t) && 0 <= j < TokenCount(k, t)
    requires TokenBegin(k, t, j) <= c < TokenBegin(k, t, j + 1)
    ensures ForwardFrom(k, t, c) == TokenBegin(k, t, j + 1)
  {
    hide TokensTo, TokenBegin, ForwardFrom, ByteLen;
    TokenGap(k, t, j);
    ForwardLands(k, t, c, j);
    assert j == TokenCount(k, t) - 1 ==> BytesOfLast(k, t, c) <= c + 1;
  }

  lemma {:induction false} ForwardAtEnd(k: Tokenizer, t: string)
    requires t != "" && LastNotTooWide(k, t)
    ensures ForwardFrom(k, t, |t|) == |t|
  {
    hide TokensTo, TokenBegin, Tokenize, ByteLen;
    var n := TokenCount(k, t);
    TokenAtEnd(k, t);
    TokenEnds(k, t);
    TokenGap(k, t, n - 1);
    assert t[TokenBegin(k, t, n - 1)..|t| - 1 + 1] == t[TokenBegin(k, t, n - 1)..];
    assert BytesOfLast(k, t, |t| - 1) <= |t|;
  }

  /** All of the line from the second token on is one-byte. */
  predicate NarrowAfterFirst(k: Tokenizer, t: string) {
    t != "" ==> TokenEndOfFirst(k, t) <= |t| && OneByte(t[TokenEndOfFirst(k, t)..])
  }

  function TokenEndOfFirst(k: Tokenizer, t: string): nat {
    if TokenCount(k, t) == 0 then 0 else TokenBegin(k, t, 1)
  }

  lemma {:induction false} NarrowFrom(k: Tokenizer, t: string, j: int)
    requires t != "" && NarrowAfterFirst(k, t) && 1 <= j <= TokenCount(k, t)
    ensures TokenBegin(k, t, 1) <= TokenBegin(k, t, j) <= |t| && OneByte(t[TokenBegin(k, t, j)..])
    decreases j
  {
    hide TokensTo, TokenBegin;
    if j > 1 {
      NarrowFrom(k, t, j - 1);
      TokenGap(k, t, j - 1);
    }
  }

  lemma {:induction false} BackwardWhenNarrow(k: Tokenizer, t: string, c: int, j: int)
    requires t != "" && NarrowAfterFirst(k, t) && 0 <= j < TokenCount(k, t)
    requires TokenBegin(k, t, j) < c <= TokenBegin(k, t, j + 1)
    ensures BackwardFrom(k, t, c) == TokenBegin(k, t, j)
  {
    hide TokensTo, TokenBegin, BackwardFrom, ByteLen, NarrowAfterFirst;
    TokenGap(k, t, j);
    BackwardLands(k, t, c, j);
    NarrowFrom(k, t, j + 1);
    if j > 0 { NarrowFrom(k, t, j); }
  }

  lemma {:induction false} BackwardAtStart(k: Tokenizer, t: string)
    requires t != ""
    ensures BackwardFrom(k, t, 0) == 0
  {
    hide TokensTo, TokenBegin, Tokenize, ByteLen;
    TokenEnds(k, t);
    TokenAtEnd(k, t);
    TokenGap(k, t, 0);
    TokenOf(k, t, 0, 0);
  }

  /** Backward steps from the end through all the starts of tokens. */
  ghost predicate BackwardByStarts(k: Tokenizer, t: string) {
    forall j :: 0 <= j < TokenCount(k, t) ==> BackwardFrom(k, t, TokenBegin(k, t, j + 1)) == TokenBegin(k, t, j)
  }

  lemma {:induction false} StartsNeedNarrow(k: Tokenizer, t: string, j: int)
    requires t != "" && BackwardByStarts(k, t) && 1 <= j <= TokenCount(k, t)
    ensures TokenBegin(k, t, j) <= |t| && OneByte(t[TokenBegin(k, t, j)..])
    decreases TokenCount(k, t) - j
  {
    hide TokensTo, TokenBegin, BackwardFrom, ByteLen;
    TokenEnds(k, t);
    if j < TokenCount(k, t) {
      StartsNeedNarrow(k, t, j + 1);
      TokenGap(k, t, j);
      var b, e := TokenBegin(k, t, j), TokenBegin(k, t, j + 1);
      assert e < |t| ==> t[e] == t[e..][0];
      BackwardLands(k, t, e, j);
      JoinOneByte(t, b, e);
    }
  }

  lemma {:induction false} JoinOneByte(t: string, b: int, e: int)
    requires 0 <= b <= e <= |t| && OneByte(t[b..e]) && OneByte(t[e..])
    ensures OneByte(t[b..])
  {
    forall i | 0 <= i < |t[b..]| ensures t[b..][i] < '\U{80}' {
      if i < e - b { assert t[b..][i] == t[b..e][i]; } else { assert t[b..][i] == t[e..][i - (e - b)]; }
    }
  }

  lemma {:induction false} StartsAreExact(k: Tokenizer, t: string)
    requires t != ""
    ensures BackwardByStarts(k, t) <==> NarrowAfterFirst(k, t)
  {
    hide TokensTo, TokenBegin, BackwardFrom, ByteLen, NarrowAfterFirst;
    TokenAtEnd(k, t);
    if NarrowAfterFirst(k, t) {
      forall j | 0 <= j < TokenCount(k, t)
        ensures BackwardFrom(k, t, TokenBegin(k, t, j + 1)) == TokenBegin(k, t, j)
      {
        TokenGap(k, t, j);
        BackwardWhenNarrow(k, t, TokenBegin(k, t, j + 1), j);
      }
    }
    if BackwardByStarts(k, t) {
      StartsNeedNarrow(k, t, 1);
      NarrowMeans(k, t);
    }
  }

  lemma {:induction false} NarrowMeans(k: Tokenizer, t: string)
    requires t != "" && TokenCount(k, t) > 0
    ensures NarrowAfterFirst(k, t) <==> TokenBegin(k, t, 1) <= |t| && OneByte(t[TokenBegin(k, t, 1)..])
  {
  }

  /** Backward reaches the start of its token from every position exactly when the
      line is one-byte from its second token on. */
  lemma {:induction false} BackwardIsExact(k: Tokenizer, t: string)
    requires t != ""
    ensures BackwardEverywhere(k, t) <==> NarrowAfterFirst(k, t)
  {
    hide TokensTo, TokenBegin, BackwardFrom, ByteLen, NarrowAfterFirst;
    StartsAreExact(k, t);
    if NarrowAfterFirst(k, t) {
      BackwardAtStart(k, t);
      forall c, j | 0 <= j < TokenCount(k, t) && TokenBegin(k, t, j) < c <= TokenBegin(k, t, j + 1)
        ensures BackwardFrom(k, t, c) == TokenBegin(k, t, j)
      {
        BackwardWhenNarrow(k, t, c, j);
      }
    }
    if BackwardEverywhere(k, t) {
      forall j | 0 <= j < TokenCount(k, t)
        ensures BackwardFrom(k, t, TokenBegin(k, t, j + 1)) == TokenBegin(k, t, j)
      {
        TokenGap(k, t, j);
      }
    }
  }

  function BackwardTimes(k: Tokenizer, t: string, c: int, n: nat): int
    decreases n
  {
    if n == 0 then c else BackwardTimes(k, t, BackwardFrom(k, t, c), n - 1)
  }

  ghost predicate VisitsStarts(k: Tokenizer, t: string, j: int, n: nat) {
    0 <= j <= TokenCount(k, t) ==> BackwardTimes(k, t, TokenBegin(k, t, j), n) == TokenBegin(k, t, Max(0, j - n))
  }

  /** From the start of token j, n motions back reach the start of token j - n, for
      all j and n, exactly when the line is one-byte from its second token on: every
      start is visited, from the end of the line down to 0. */
  lemma {:induction false} BackwardVisitsStarts(k: Tokenizer, t: string)
    requires t != ""
    ensures TokenBegin(k, t, 0) == 0 && TokenBegin(k, t, TokenCount(k, t)) == |t|
    ensures (forall j: int, n: nat :: VisitsStarts(k, t, j, n)) <==> NarrowAfterFirst(k, t)
  {
    hide TokensTo, TokenBegin, BackwardFrom, ByteLen, NarrowAfterFirst;
    TokenEnds(k, t);
    StartsAreExact(k, t);
    if NarrowAfterFirst(k, t) {
      forall j: int, n: nat ensures VisitsStarts(k, t, j, n) {
        if 0 <= j <= TokenCount(k, t) { StartsVisited(k, t, j, n); }
      }
    }
    if forall j: int, n: nat :: VisitsStarts(k, t, j, n) {
      forall j | 0 <= j < TokenCount(k, t)
        ensures BackwardFrom(k, t, TokenBegin(k, t, j + 1)) == TokenBegin(k, t, j)
      {
        assert VisitsStarts(k, t, j + 1, 1);
        assert BackwardTimes(k, t, TokenBegin(k, t, j + 1), 1) == BackwardFrom(k, t, TokenBegin(k, t, j + 1));
      }
    }
  }

  lemma {:induction false} StartsVisited(k: Tokenizer, t: string, j: int, n: nat)
    requires t != "" && BackwardByStarts(k, t) && 0 <= j <= TokenCount(k, t)
    ensures BackwardTimes(k, t, TokenBegin(k, t, j), n) == TokenBegin(k, t, Max(0, j - n))
    decreases n
  {
    hide TokensTo, TokenBegin, BackwardFrom;
    if n > 0 {
      var next := Max(0, j - 1);
      TokenEnds(k, t);
      BackwardAtStart(k, t);
      assert BackwardFrom(k, t, TokenBegin(k, t, j)) == TokenBegin(k, t, next);
      StartsVisited(k, t, next, n - 1);
    }
  }

  // There and back --------------------------------------------------------------------

  ghost predicate ComesBack(k: Tokenizer, t: string, j: int) {
    0 <= j < TokenCount(k, t) ==> BackwardFrom(k, t, ForwardFrom(k, t, TokenBegin(k, t, j))) == TokenBegin(k, t, j)
  }

  /** Forward then backward comes back to every start of a token exactly when the
      line is a single token, or one-byte but perhaps for its first rune. */
  lemma {:induction false} ForwardThenBackward(k: Tokenizer, t: string)
    requires t != ""
    ensures (forall j :: ComesBack(k, t, j)) <==> TokenCount(k, t) == 1 || OneByte(t[1..])
  {
    hide TokensTo, TokenBegin, BackwardFrom, ForwardFrom, ByteLen, OneByte;
    var n := TokenCount(k, t);
    TokenAtEnd(k, t);
    if n == 1 {
      forall j ensures ComesBack(k, t, j) { if 0 <= j < n { OnlyTokenComesBack(k, t); } }
    } else {
      TokenGap(k, t, 0);
      if OneByte(t[1..]) {
        forall j ensures ComesBack(k, t, j) { if 0 <= j < n { NarrowComesBack(k, t, j); } }
      }
      if forall j :: ComesBack(k, t, j) {
        ComesBackNeedsNarrow(k, t, 0);
        TokenEnds(k, t);
      }
    }
  }

  /** With a single token backward always reaches the start. */
  lemma {:induction false} OnlyTokenComesBack(k: Tokenizer, t: string)
    requires t != "" && TokenCount(k, t) == 1
    ensures ComesBack(k, t, 0)
  {
    hide TokensTo, TokenBegin, BackwardFrom, ByteLen, Tokenize;
    TokenEnds(k, t);
    var f := ForwardFrom(k, t, 0);
    if f == 0 { BackwardAtStart(k, t); } else { BackwardLands(k, t, f, 0); }
  }

  lemma {:induction false} NarrowComesBack(k: Tokenizer, t: string, j: int)
    requires t != "" && OneByte(t[1..]) && TokenCount(k, t) > 1 && 0 <= j < TokenCount(k, t)
    ensures ComesBack(k, t, j)
  {
    hide TokensTo, TokenBegin, BackwardFrom, ForwardFrom, ByteLen;
    TokenEnds(k, t);
    TokenGap(k, t, j);
    TokenGap(k, t, 0);
    var b, e := TokenBegin(k, t, j), TokenBegin(k, t, j + 1);
    assert forall i :: 1 <= i < |t| ==> t[1..][i - 1] == t[i] < '\U{80}';
    ForwardLands(k, t, b, j);
    OneRune(t, b);
    BackwardLands(k, t, e, j);
  }

  /** From the last token back: each must be one-byte, the first after its first rune. */
  lemma {:induction false} ComesBackNeedsNarrow(k: Tokenizer, t: string, j: int)
    requires t != "" && TokenCount(k, t) > 1 && 0 <= j < TokenCount(k, t)
    requires forall i :: ComesBack(k, t, i)
    ensures var b := TokenBegin(k, t, j); b < |t| && OneByte(t[if j == 0 then b + 1 else b..])
    decreases TokenCount(k, t) - j
  {
    hide TokensTo, TokenBegin, BackwardFrom, ForwardFrom, ByteLen, OneByte;
    TokenGap(k, t, j);
    assert ComesBack(k, t, j);
    if j + 1 == TokenCount(k, t) {
      LastComesBack(k, t);
    } else {
      ComesBackNeedsNarrow(k, t, j + 1);
      InnerComesBack(k, t, j);
      JoinOneByte(t, if j == 0 then TokenBegin(k, t, j) + 1 else TokenBegin(k, t, j), TokenBegin(k, t, j + 1));
    }
  }

  lemma {:induction false} TokenBefore(k: Tokenizer, t: string, c: int, n: int) returns (j: int)
    requires t != "" && 0 <= n <= TokenCount(k, t) && 0 < c <= TokenBegin(k, t, n)
    ensures 0 <= j < n && TokenBegin(k, t, j) < c <= TokenBegin(k, t, j + 1)
    decreases n
  {
    hide TokensTo, TokenBegin;
    TokenEnds(k, t);
    if TokenBegin(k, t, n - 1) < c { j := n - 1; } else { j := TokenBefore(k, t, c, n - 1); }
  }

  lemma {:induction false} BackwardGoesBack(k: Tokenizer, t: string, c: int)
    requires t != "" && 0 < c <= |t|
    ensures BackwardFrom(k, t, c) < c
  {
    hide TokensTo, TokenBegin, BackwardFrom, ByteLen;
    TokenEnds(k, t);
    var j := TokenBefore(k, t, c, TokenCount(k, t));
    BackwardValue(k, t, c, j);
  }

  /** Backward does not leave a one-byte end of the line. */
  lemma {:induction false} BackwardStays(k: Tokenizer, t: string, f: int, j: int)
    requires t != "" && 0 <= j <= TokenCount(k, t) && TokenBegin(k, t, j) < f <= |t|
    requires OneByte(t[TokenBegin(k, t, j)..])
    ensures BackwardFrom(k, t, f) >= TokenBegin(k, t, j)
  {
    hide TokensTo, TokenBegin, BackwardFrom, ByteLen;
    TokenEnds(k, t);
    var e := TokenBegin(k, t, j);
    var m := TokenBefore(k, t, f, TokenCount(k, t));
    BackwardLands(k, t, f, m);
    StartsOrdered(k, t, m + 1, j);
    StartsOrdered(k, t, j, m);
    assert forall i :: e <= i < |t| ==> t[e..][i - e] == t[i] < '\U{80}';
  }

  lemma {:induction false} StartsOrdered(k: Tokenizer, t: string, i: int, j: int)
    requires t != "" && 0 <= i <= TokenCount(k, t) && 0 <= j <= TokenCount(k, t)
    ensures i <= j ==> TokenBegin(k, t, i) <= TokenBegin(k, t, j)
  {
    if i <= j {
      TokensPartition(k, t, |t|);
      BeginMonotone(TokensTo(k, t, |t|), i, j);
    }
  }

  lemma {:induction false} LastComesBack(k: Tokenizer, t: string)
    requires t != "" && TokenCount(k, t) > 1 && ComesBack(k, t, TokenCount(k, t) - 1)
    ensures var b := TokenBegin(k, t, TokenCount(k, t) - 1); b <= |t| && OneByte(t[b..])
  {
    hide TokensTo, TokenBegin, BackwardFrom, ForwardFrom, ByteLen;
    var j := TokenCount(k, t) - 1;
    TokenEnds(k, t);
    TokenGap(k, t, j);
    var b := TokenBegin(k, t, j);
    var f := ForwardFrom(k, t, b);
    ForwardValue(k, t, b, j);
    if f > b {
      BackwardLands(k, t, f, j);
      OneRune(t, b);
      if f < |t| { WideHead(t, b, f + 1); }
      assert t[b..|t|] == t[b..];
    } else if f > 0 {
      BackwardGoesBack(k, t, f);
    } else {
      BackwardAtStart(k, t);
    }
  }

  lemma {:induction false} WideHead(t: string, b: int, e: int)
    requires 0 <= b < e <= |t| && t[b] >= '\U{80}'
    ensures !OneByte(t[b..e])
  {
    assert t[b..e][0] == t[b];
  }

  lemma {:induction false} InnerComesBack(k: Tokenizer, t: string, j: int)
    requires t != "" && 0 <= j < TokenCount(k, t) - 1
    ensures var b, e := TokenBegin(k, t, j), TokenBegin(k, t, j + 1);
      && b < e < |t|
      && (ComesBack(k, t, j) && OneByte(t[e..]) ==> OneByte(t[if j == 0 then b + 1 else b..e]))
  {
    hide TokensTo, TokenBegin, BackwardFrom, ForwardFrom, ByteLen;
    TokenGap(k, t, j);
    var b, e := TokenBegin(k, t, j), TokenBegin(k, t, j + 1);
    if ComesBack(k, t, j) && OneByte(t[e..]) {
      var f := ForwardFrom(k, t, b);
      ForwardValue(k, t, b, j);
      OneByteLen(t[b + 1..e]);
      if f > e {
        BackwardStays(k, t, f, j + 1);
      } else {
        assert t[e] == t[e..][0];
        BackwardLands(k, t, e, j);
      }
    }
  }

  /** With a two-byte letter in the word, going back one word overshoots it. */
  lemma {:induction false} BackwardOvershoots()
    ensures var t := "a \U{e9}\U{e9}";
      && TokensTo(Blanks, t, |t|) == ["a ", "\U{e9}\U{e9}"]
      && BackwardFrom(Blanks, t, 4) == 0 != TokenBegin(Blanks, t, 1)
  {
    var t := "a \U{e9}\U{e9}";
    var w := "\U{e9}\U{e9}";
    ReadOne(Blanks, t, 0, "", "a");
    ReadOne(Blanks, t, 1, "a", "a ");
    assert TokensTo(Blanks, t, 2) == ["a "];
    assert "" + ['\U{e9}'] == "\U{e9}";
    assert TokensTo(Blanks, t, 3) == ["a ", "\U{e9}"];
    assert "\U{e9}" + ['\U{e9}'] == w;
    assert TokensTo(Blanks, t, 4) == ["a ", w];
    assert w[..1] == "\U{e9}" && w[..1][..0] == "";
    assert ByteLen(w) == 4;
    assert ["a ", w][..1] == ["a "] && ["a "][..0] == [];
    assert Concat(["a "]) == "a ";
  }

  /** With two-byte letters in the first word, going forward overshoots the second, and
      going back from there does not return. */
  lemma {:induction false} ForwardOvershoots()
    ensures var t := "\U{e9}\U{e9} a";
      && TokensTo(Blanks, t, |t|) == ["\U{e9}\U{e9} ", "a"]
      && TokenBegin(Blanks, t, 1) == 3
      && ForwardFrom(Blanks, t, 0) == 4 && BackwardFrom(Blanks, t, 4) == 3
  {
    hide TokensTo, Begin, ForwardFrom, BackwardFrom, ByteLen;
    var t := "\U{e9}\U{e9} a";
    WideThenNarrow();
    TokenEnds(Blanks, t);
    BeginNext(["\U{e9}\U{e9} ", "a"], 0);
    ForwardValue(Blanks, t, 0, 0);
    assert t[1..3] == "\U{e9} ";
    WideLetter();
    BackwardLands(Blanks, t, 4, 1);
  }

  lemma {:induction false} WideLetter()
    ensures ByteLen("\U{e9} ") == 3
  {
    assert "\U{e9} "[..1] == "\U{e9}" && "\U{e9}"[..0] == "";
  }

  lemma {:induction false} WideThenNarrow()
    ensures TokensTo(Blanks, "\U{e9}\U{e9} a", 4) == ["\U{e9}\U{e9} ", "a"]
  {
    var t := "\U{e9}\U{e9} a";
    var w, v := "\U{e9}\U{e9}", "\U{e9}\U{e9} ";
    assert "" + ['\U{e9}'] == "\U{e9}" && "\U{e9}" + ['\U{e9}'] == w && w + [' '] == v;
    ReadOne(Blanks, t, 0, "", "\U{e9}");
    ReadOne(Blanks, t, 1, "\U{e9}", w);
    ReadOne(Blanks, t, 2, w, v);
    assert "" + ['a'] == "a" && Extend([v] + [""], 'a') == [v, "a"];
  }

  lemma {:induction false} ReadOne(k: Tokenizer, t: string, n: nat, word: string, next: string)
    requires n < |t| && TokensTo(k, t, n) == [word] && word + [t[n]] == next
    requires n == 0 || !Starts(k, t, n)
    ensures TokensTo(k, t, n + 1) == [next]
  {
    assert Extend([word], t[n]) == [next];
  }
}
