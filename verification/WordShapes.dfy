/** What a token is, by its text alone, and what going back a word takes
    (internal/core/line.go). */
module WordShapes {
  import opened Basics
  import opened Unicode
  import opened Text
  import opened Tokens

  predicate IsBlank(c: char) { c in {' ', '\t', '\n'} }

  /** Neither a blank nor punctuation. */
  predicate IsOrdinary(u: Tables, c: char) { !IsBlank(c) && !u.IsPunct(c) }

  predicate NoBlankLine(s: string) { forall i :: 0 < i < |s| ==> !(s[i - 1] == '\n' && s[i] == '\n') }

  /** A word: punctuation only in a run of one mark at its head, ordinary runes only in a
      run at its head, blanks otherwise, and no two newlines next to each other. */
  predicate IsWord(u: Tables, s: string) {
    && s != "" && NoBlankLine(s)
    && (forall i, j :: 0 <= j < i < |s| && u.IsPunct(s[i]) ==> s[j] == s[i])
    && (forall i, j :: 0 <= j < i < |s| && IsOrdinary(u, s[i]) ==> IsOrdinary(u, s[j]))
  }

  /** A blank word: other runes only in a run at its head, then blanks. */
  predicate IsBlankWord(s: string) {
    && s != "" && NoBlankLine(s)
    && (forall i, j :: 0 <= j < i < |s| && !IsBlank(s[i]) ==> !IsBlank(s[j]))
  }

  predicate IsToken(k: Tokenizer, s: string) {
    match k
    case Words(u) => IsWord(u, s)
    case Blanks => IsBlankWord(s)
  }

  // A token by its neighbouring runes --------------------------------------------------

  predicate StartsNowhere(k: Tokenizer, s: string) {
    s != "" && forall i :: 0 < i < |s| ==> !Starts(k, s, i)
  }

  lemma {:induction false} HeadRun(u: Tables, s: string, i: int, j: int)
    requires StartsNowhere(Words(u), s) && 0 <= j < i < |s|
    ensures u.IsPunct(s[i]) ==> s[j] == s[i]
    ensures IsOrdinary(u, s[i]) ==> IsOrdinary(u, s[j])
    decreases i
  {
    assert !Starts(Words(u), s, i);
    if j < i - 1 { HeadRun(u, s, i - 1, j); }
  }

  lemma {:induction false} BlankHeadRun(s: string, i: int, j: int)
    requires StartsNowhere(Blanks, s) && 0 <= j < i < |s|
    ensures !IsBlank(s[i]) ==> !IsBlank(s[j])
    decreases i
  {
    assert !Starts(Blanks, s, i);
    if j < i - 1 { BlankHeadRun(s, i - 1, j); }
  }

  /** Having the shape of a token is having no start of one inside. */
  lemma {:induction false} ShapeIsLocal(k: Tokenizer, s: string)
    ensures IsToken(k, s) <==> StartsNowhere(k, s)
  {
    if StartsNowhere(k, s) {
      forall i | 0 < i < |s| ensures !(s[i - 1] == '\n' && s[i] == '\n') { assert !Starts(k, s, i); }
      forall i, j | 0 <= j < i < |s|
        ensures k.Words? && k.u.IsPunct(s[i]) ==> s[j] == s[i]
        ensures k.Words? && IsOrdinary(k.u, s[i]) ==> IsOrdinary(k.u, s[j])
        ensures k.Blanks? && !IsBlank(s[i]) ==> !IsBlank(s[j])
      {
        match k
        case Words(u) => HeadRun(u, s, i, j);
        case Blanks => BlankHeadRun(s, i, j);
      }
    }
    if IsToken(k, s) {
      forall i | 0 < i < |s| ensures !Starts(k, s, i) {
        assert s[i] == s[i] && s[i - 1] == s[i - 1];
      }
    }
  }

  /** Whether a token starts depends on two runes only. */
  lemma {:induction false} StartsInside(k: Tokenizer, t: string, b: int, e: int, i: int)
    requires 0 <= b <= e <= |t| && 0 < i < e - b
    ensures Starts(k, t[b..e], i) == Starts(k, t, b + i)
  {
    assert t[b..e][i] == t[b + i] && t[b..e][i - 1] == t[b + i - 1];
  }

  lemma {:induction false} SliceShape(k: Tokenizer, t: string, b: int, e: int)
    requires 0 <= b < e <= |t|
    ensures IsToken(k, t[b..e]) <==> forall i :: b < i < e ==> !Starts(k, t, i)
  {
    hide Starts, IsToken;
    ShapeIsLocal(k, t[b..e]);
    forall i | 0 < i < e - b ensures Starts(k, t[b..e], i) == Starts(k, t, b + i) { StartsInside(k, t, b, e, i); }
    if !forall i :: b < i < e ==> !Starts(k, t, i) {
      var i :| b < i < e && Starts(k, t, i);
      assert Starts(k, t[b..e], i - b);
    }
  }

  // Where tokens begin ------------------------------------------------------------------

  ghost predicate BeginsAtStarts(k: Tokenizer, t: string, n: nat, split: seq<string>)
    requires n <= |t|
  {
    && Begin(split, |split|) == n
    && (forall j :: 0 < j < |split| ==> 0 < Begin(split, j) < n && Starts(k, t, Begin(split, j)))
    && (forall i :: 0 < i < n && Starts(k, t, i) ==> exists j :: 0 < j < |split| && Begin(split, j) == i)
  }

  lemma {:induction false} BeginExtend(split: seq<string>, c: char, j: int)
    requires split != [] && 0 <= j <= |split|
    ensures Begin(Extend(split, c), j) == Begin(split, j) + if j == |split| then 1 else 0
  {
    var s := Extend(split, c);
    if j == |split| {
      assert s[..j] == s && split[..j] == split;
      ConcatExtend(split, c);
    } else {
      assert s[..j] == split[..j];
    }
  }

  lemma {:induction false} BeginAppend(split: seq<string>, j: int)
    requires 0 <= j <= |split|
    ensures Begin(split + [""], j) == Begin(split, j) && Begin(split + [""], |split| + 1) == Begin(split, |split|)
  {
    assert (split + [""])[..j] == split[..j];
    assert (split + [""])[..|split| + 1] == split + [""] && split[..|split|] == split;
    ConcatEmpty(split);
  }

  /** Tokens begin just where one starts. */
  lemma {:induction false} BeginsAreStarts(k: Tokenizer, t: string, n: nat)
    requires 0 < n <= |t|
    ensures BeginsAtStarts(k, t, n, TokensTo(k, t, n))
    decreases n
  {
    hide Starts, Begin, Concat;
    var split := TokensTo(k, t, n);
    if n == 1 {
      TokensPartition(k, t, 1);
      OneToken(k, t);
    } else {
      BeginsAreStarts(k, t, n - 1);
      var before := TokensTo(k, t, n - 1);
      hide TokensTo;
      if Starts(k, t, n - 1) {
        NewToken(k, t, n, before, split);
      } else {
        forall j | 0 <= j <= |before| ensures Begin(split, j) == Begin(before, j) + if j == |before| then 1 else 0 {
          BeginExtend(before, t[n - 1], j);
        }
      }
    }
  }

  lemma {:induction false} OneToken(k: Tokenizer, t: string)
    requires t != ""
    ensures |TokensTo(k, t, 1)| == 1 && Begin(TokensTo(k, t, 1), 1) == 1
  {
    TokensPartition(k, t, 1);
    var split := TokensTo(k, t, 1);
    assert TokensTo(k, t, 0) == [""];
    assert split[..1] == split;
  }

  lemma {:induction false} NewToken(k: Tokenizer, t: string, n: nat, before: seq<string>, split: seq<string>)
    requires 1 < n <= |t| && Starts(k, t, n - 1) && before != []
    requires BeginsAtStarts(k, t, n - 1, before) && split == Extend(before + [""], t[n - 1])
    ensures BeginsAtStarts(k, t, n, split)
  {
    hide Starts, Begin, Concat;
    forall j | 0 <= j <= |before| ensures Begin(split, j) == Begin(before, j) {
      BeginExtend(before + [""], t[n - 1], j);
      BeginAppend(before, j);
    }
    BeginExtend(before + [""], t[n - 1], |before| + 1);
    BeginAppend(before, |before|);
    assert Begin(split, |before|) == n - 1;
    forall i | 0 < i < n && Starts(k, t, i) ensures exists j :: 0 < j < |split| && Begin(split, j) == i {
      if i < n - 1 {
        var j :| 0 < j < |before| && Begin(before, j) == i;
        assert Begin(split, j) == i;
      }
    }
  }

  lemma {:induction false} BeginStarts(k: Tokenizer, t: string, j: int)
    requires t != "" && 0 < j < TokenCount(k, t)
    ensures 0 < TokenBegin(k, t, j) < |t| && Starts(k, t, TokenBegin(k, t, j))
  {
    hide TokensTo, Begin, Starts;
    BeginsAreStarts(k, t, |t|);
  }

  lemma {:induction false} NoStartInside(k: Tokenizer, t: string, j: int, i: int)
    requires t != "" && 0 <= j < TokenCount(k, t) && TokenBegin(k, t, j) < i < TokenBegin(k, t, j + 1)
    ensures i < |t| && !Starts(k, t, i)
  {
    hide TokensTo, Begin, Starts;
    BeginsAreStarts(k, t, |t|);
    TokenGap(k, t, j);
    if Starts(k, t, i) {
      var split := TokensTo(k, t, |t|);
      var m :| 0 < m < |split| && Begin(split, m) == i;
      StartsOrdered(k, t, m, j);
      StartsOrdered(k, t, j + 1, m);
    }
  }

  // The shape of tokens -----------------------------------------------------------------------

  /** Every token has the shape of one, and no longer part of the line from its start has. */
  lemma {:induction false} TokenIsMaximal(k: Tokenizer, t: string, j: int)
    requires t != "" && 0 <= j < TokenCount(k, t)
    ensures var b, e := TokenBegin(k, t, j), TokenBegin(k, t, j + 1);
      && b < e <= |t| && IsToken(k, t[b..e])
      && forall n :: e < n <= |t| ==> !IsToken(k, t[b..n])
  {
    hide TokensTo, TokenBegin, Starts, IsToken;
    TokenGap(k, t, j);
    TokenEnds(k, t);
    var b, e := TokenBegin(k, t, j), TokenBegin(k, t, j + 1);
    forall i | b < i < e ensures !Starts(k, t, i) { NoStartInside(k, t, j, i); }
    SliceShape(k, t, b, e);
    forall n | e < n <= |t| ensures !IsToken(k, t[b..n]) {
      BeginStarts(k, t, j + 1);
      SliceShape(k, t, b, n);
    }
  }

  /** Some parts of a line, put together, are the line; each has the shape of a token, and
      loses it with the first rune of the next part added. */
  ghost predicate CutsIntoTokens(k: Tokenizer, t: string, split: seq<string>) {
    && Concat(split) == t
    && (forall j :: 0 <= j < |split| ==> IsToken(k, split[j]))
    && (forall j :: 0 <= j < |split| - 1 && split[j + 1] != "" ==> !IsToken(k, split[j] + [split[j + 1][0]]))
  }

  /** The tokens of a line are the only parts it can be cut into like that. */
  lemma {:induction false} TokensAreTheCut(k: Tokenizer, t: string, split: seq<string>)
    requires t != ""
    ensures CutsIntoTokens(k, t, split) <==> split == TokensTo(k, t, |t|)
  {
    hide IsToken, TokensTo, Concat;
    if split == TokensTo(k, t, |t|) { TokensCut(k, t); }
    if CutsIntoTokens(k, t, split) {
      hide CutsIntoTokens;
      SameParts(k, t, split);
    }
  }

  lemma {:induction false} TokensCut(k: Tokenizer, t: string)
    requires t != ""
    ensures CutsIntoTokens(k, t, TokensTo(k, t, |t|))
  {
    hide IsToken, TokensTo, Concat, TokenBegin;
    var split := TokensTo(k, t, |t|);
    TokensPartition(k, t, |t|);
    assert t[..|t|] == t;
    forall j | 0 <= j < |split| ensures IsToken(k, split[j]) {
      TokenText(k, t, j);
      TokenIsMaximal(k, t, j);
    }
    forall j | 0 <= j < |split| - 1 && split[j + 1] != "" ensures !IsToken(k, split[j] + [split[j + 1][0]]) {
      TokenText(k, t, j);
      TokenText(k, t, j + 1);
      TokenIsMaximal(k, t, j);
      var b, e := TokenBegin(k, t, j), TokenBegin(k, t, j + 1);
      assert split[j] + [split[j + 1][0]] == t[b..e + 1];
    }
  }

  /** Part j of a cut is where its begin says. */
  lemma {:induction false} PartText(t: string, split: seq<string>, j: int)
    requires Concat(split) == t && 0 <= j < |split|
    ensures Begin(split, j + 1) == Begin(split, j) + |split[j]| <= |t|
    ensures split[j] == t[Begin(split, j)..Begin(split, j + 1)]
  {
    ConcatPrefix(split, j);
    BeginNext(split, j);
  }

  lemma {:induction false} SameEnd(k: Tokenizer, t: string, split: seq<string>, j: int)
    requires t != "" && CutsIntoTokens(k, t, split) && 0 <= j < |split| && j < TokenCount(k, t)
    requires Begin(split, j) == TokenBegin(k, t, j)
    ensures Begin(split, j + 1) == TokenBegin(k, t, j + 1)
  {
    hide TokensTo, TokenBegin, Concat, Begin, IsToken, IsWord, IsBlankWord;
    PartText(t, split, j);
    TokenIsMaximal(k, t, j);
    var b, e, n := TokenBegin(k, t, j), TokenBegin(k, t, j + 1), Begin(split, j + 1);
    assert IsToken(k, split[j]);
    NotEmpty(k, split[j]);
    if n < e {
      if j + 1 < |split| {
        PartText(t, split, j + 1);
        NotEmpty(k, split[j + 1]);
        assert split[j] + [split[j + 1][0]] == t[b..n + 1];
        PrefixShape(k, t, b, n + 1, e);
      } else {
        WholeBegin(split);
      }
    }
  }

  lemma {:induction false} WholeBegin(split: seq<string>)
    ensures Begin(split, |split|) == |Concat(split)|
  {
    assert split[..|split|] == split;
  }

  lemma {:induction false} NotEmpty(k: Tokenizer, s: string)
    requires IsToken(k, s)
    ensures s != ""
  {
  }

  lemma {:induction false} PrefixShape(k: Tokenizer, t: string, b: int, m: int, e: int)
    requires 0 <= b < m <= e <= |t| && IsToken(k, t[b..e])
    ensures IsToken(k, t[b..m])
  {
    hide IsToken, Starts;
    SliceShape(k, t, b, e);
    SliceShape(k, t, b, m);
  }

  lemma {:induction false} SameBegins(k: Tokenizer, t: string, split: seq<string>, j: int)
    requires t != "" && CutsIntoTokens(k, t, split) && 0 <= j <= |split|
    ensures j <= TokenCount(k, t) && Begin(split, j) == TokenBegin(k, t, j)
    decreases j
  {
    hide TokensTo, IsToken;
    if j == 0 {
      TokenEnds(k, t);
    } else {
      SameBegins(k, t, split, j - 1);
      hide TokenBegin, Begin, Concat;
      TokenEnds(k, t);
      PartText(t, split, j - 1);
      NotEmpty(k, split[j - 1]);
      SameEnd(k, t, split, j - 1);
    }
  }

  lemma {:induction false} SameParts(k: Tokenizer, t: string, split: seq<string>)
    requires t != "" && CutsIntoTokens(k, t, split)
    ensures split == TokensTo(k, t, |t|)
  {
    hide TokensTo, IsToken, TokenBegin, Begin, Concat;
    var n := TokenCount(k, t);
    SameBegins(k, t, split, |split|);
    WholeBegin(split);
    TokenEnds(k, t);
    if |split| < n { TokenGap(k, t, |split|); }
    forall j | 0 <= j < n ensures split[j] == TokensTo(k, t, |t|)[j] {
      SameBegins(k, t, split, j);
      SameBegins(k, t, split, j + 1);
      PartText(t, split, j);
      TokenText(k, t, j);
    }
  }

  // Going back a word ----------------------------------------------------------------------

  /** t[b..c] is the longest end of t[..c] that has the shape of a token. */
  ghost predicate IsLastToken(k: Tokenizer, t: string, b: int, c: int) {
    && 0 <= b < c <= |t| && IsToken(k, t[b..c])
    && forall a :: 0 <= a < b ==> !IsToken(k, t[a..c])
  }

  /** Back from c goes over the last token before c, when the line is one-byte from its
      second token on. */
  lemma {:induction false} BackwardIsLastToken(k: Tokenizer, t: string, c: int)
    requires 0 < c <= |t| && NarrowAfterFirst(k, t)
    ensures IsLastToken(k, t, BackwardFrom(k, t, c), c)
  {
    hide TokensTo, TokenBegin, BackwardFrom, IsToken, NarrowAfterFirst, Starts;
    TokenEnds(k, t);
    var j := TokenBefore(k, t, c, TokenCount(k, t));
    BackwardWhenNarrow(k, t, c, j);
    TokenIsMaximal(k, t, j);
    var b, e := TokenBegin(k, t, j), TokenBegin(k, t, j + 1);
    PrefixShape(k, t, b, c, e);
    forall a | 0 <= a < b ensures !IsToken(k, t[a..c]) {
      BeginStarts(k, t, j);
      SliceShape(k, t, a, c);
    }
  }
}
