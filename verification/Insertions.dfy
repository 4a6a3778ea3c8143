/** The candidate in the line: its prefix, and what replaces it
    (internal/completion/insert.go and internal/completion/utils.go). */
module Insertions {
  import opened Basics
  import opened Unicode
  import opened Text
  import T = Tokens

  /** A line and its cursor. */
  datatype Edited = Edited(text: string, cursor: int)

  // Blank words ---------------------------------------------------------------

  /** First position of the run, of spaces or of non-spaces, that pos is in. */
  function RunBegin(u: Tables, t: string, pos: int): (b: int)
    requires 0 <= pos < |t|
    ensures 0 <= b <= pos
    ensures forall j :: b <= j <= pos ==> u.IsSpace(t[j]) == u.IsSpace(t[pos])
    ensures b > 0 ==> u.IsSpace(t[b - 1]) != u.IsSpace(t[pos])
    decreases pos
  {
    if pos > 0 && u.IsSpace(t[pos - 1]) == u.IsSpace(t[pos]) then RunBegin(u, t, pos - 1) else pos
  }

  function TrimLeft(u: Tables, s: string): string {
    if s != "" && u.IsSpace(s[0]) then TrimLeft(u, s[1..]) else s
  }

  function TrimRight(u: Tables, s: string): string {
    if s != "" && u.IsSpace(s[|s| - 1]) then TrimRight(u, s[..|s| - 1]) else s
  }

  function TrimSpace(u: Tables, s: string): string { TrimRight(u, TrimLeft(u, s)) }

  /** The blank word before the cursor, and the character under it when the cursor
      is at 0. */
  function PrefixAt(u: Tables, t: string, cursor: int): string {
    if t == "" then ""
    else
      var c := Clamp(Clamp(cursor, |t|) - 1, |t|);
      TrimSpace(u, t[RunBegin(u, t, c)..c + 1])
  }

  // Replacing the prefix ---------------------------------------------------------

  /** Moving back over the prefix, cutting it and inserting the candidate. */
  function Replaced(e: Edited, prefix: string, value: string): Edited {
    var n := T.ByteLen(prefix);
    var p := Clamp(e.cursor - n, |e.text|);
    var cut := CutOut(e.text, p, p + n);
    var q := Clamp(p, |cut|);
    Edited(Inserted(cut, q, value), q + |value|)
  }

  lemma {:induction false} TrimNothing(u: Tables, s: string)
    requires s != "" && !u.IsSpace(s[0]) && !u.IsSpace(s[|s| - 1])
    ensures TrimSpace(u, s) == s
  {
  }

  lemma {:induction false} TrimBlank(u: Tables, s: string)
    requires forall i :: 0 <= i < |s| ==> u.IsSpace(s[i])
    ensures TrimSpace(u, s) == ""
    decreases |s|
  {
    if s != "" { TrimBlank(u, s[1..]); }
  }

  /** Where the blank word that ends at the cursor begins; the cursor itself when
      none does. */
  function WordBefore(u: Tables, t: string, cursor: int): (b: int)
    requires 0 <= cursor <= |t|
    ensures 0 <= b <= cursor
    ensures forall j :: b <= j < cursor ==> !u.IsSpace(t[j])
    ensures b > 0 ==> u.IsSpace(t[b - 1])
  {
    if cursor == 0 || u.IsSpace(t[cursor - 1]) then cursor else RunBegin(u, t, cursor - 1)
  }

  /** The prefix is the blank word that ends at the cursor, but at the start of the
      line it is the character after the cursor, unless that is a blank. */
  lemma {:induction false} PrefixIs(u: Tables, t: string, cursor: int)
    requires 0 <= cursor <= |t|
    ensures PrefixAt(u, t, cursor) ==
      if cursor == 0 then (if t == "" || u.IsSpace(t[0]) then "" else [t[0]])
      else t[WordBefore(u, t, cursor)..cursor]
  {
    if t != "" {
      var c := if cursor > 0 then cursor - 1 else 0;
      var run := t[RunBegin(u, t, c)..c + 1];
      assert forall i :: 0 <= i < |run| ==> u.IsSpace(run[i]) == u.IsSpace(t[c]);
      if u.IsSpace(t[c]) { TrimBlank(u, run); } else { TrimNothing(u, run); }
      if cursor == 0 { assert t[0..1] == [t[0]]; }
    }
  }

  /** Completing puts the candidate in place of the blank word before the cursor, and
      the cursor after it, exactly when: at the start of the line no word follows;
      elsewhere no word ends at the cursor, or its characters are one-byte, or it is
      the whole line. */
  lemma {:induction false} BlankWordReplaced(u: Tables, t: string, cursor: int, value: string)
    requires 0 <= cursor <= |t|
    ensures var b := WordBefore(u, t, cursor);
      Replaced(Edited(t, cursor), PrefixAt(u, t, cursor), value)
        == Edited(t[..b] + StripNul(value) + t[cursor..], b + |value|)
      <==>
      if cursor == 0 then t == "" || u.IsSpace(t[0])
      else u.IsSpace(t[cursor - 1]) || T.OneByte(t[b..cursor]) || (b == 0 && cursor == |t|)
  {
    hide T.ByteLen;
    var b, prefix := WordBefore(u, t, cursor), PrefixAt(u, t, cursor);
    PrefixIs(u, t, cursor);
    T.OneByteLen(prefix);
    hide WordBefore, PrefixAt;
    if prefix == "" || (cursor > 0 && T.OneByte(prefix)) {
      WordReplaced(t, b, cursor, prefix, value);
    } else {
      TooMuchReplaced(t, b, cursor, prefix, value);
    }
  }

  /** A prefix of more bytes than it has characters before the cursor. */
  lemma {:induction false} TooMuchReplaced(t: string, b: int, cursor: int, prefix: string, value: string)
    requires 0 <= b <= cursor <= |t| && T.ByteLen(prefix) > cursor - b
    requires cursor == b ==> b == 0 && t != ""
    ensures Replaced(Edited(t, cursor), prefix, value) == Edited(t[..b] + StripNul(value) + t[cursor..], b + |value|)
      <==> b == 0 && cursor == |t|
  {
    hide T.ByteLen;
    var n: int := T.ByteLen(prefix);
    var p := Clamp(cursor - n, |t|);
    if b == 0 {
      CutFromStart(t, cursor, n, prefix, value);
      hide Replaced;
      var e := Min(n, |t|);
      assert t[..0] + StripNul(value) + t[cursor..] == StripNul(value) + t[cursor..];
      assert cursor == |t| ==> t[e..] == t[cursor..];
    } else {
      hide StripNul, CutOut;
      assert p < b;
    }
  }

  lemma {:induction false} CutFromStart(t: string, cursor: int, n: int, prefix: string, value: string)
    requires 0 <= cursor <= |t| && n == T.ByteLen(prefix) && n >= cursor && n > 0
    ensures Replaced(Edited(t, cursor), prefix, value) == Edited(StripNul(value) + t[Min(n, |t|)..], |value|)
  {
    hide T.ByteLen, StripNul;
    var cut := t[Min(n, |t|)..];
    assert CutOut(t, 0, n) == cut by { assert t[..0] + cut == cut; }
    assert cut[..0] + StripNul(value) + cut[0..] == StripNul(value) + cut;
  }

  lemma {:induction false} WordReplaced(t: string, b: int, cursor: int, prefix: string, value: string)
    requires 0 <= b <= cursor <= |t| && T.ByteLen(prefix) == cursor - b
    ensures Replaced(Edited(t, cursor), prefix, value) == Edited(t[..b] + StripNul(value) + t[cursor..], b + |value|)
  {
    var cut := t[..b] + t[cursor..];
    assert b < cursor ==> CutOut(t, b, cursor) == cut;
    assert b == cursor ==> CutOut(t, b, cursor) == cut == t;
    assert cut[..b] == t[..b] && cut[b..] == t[cursor..];
  }

  /** At the start of the line the prefix is the character after the cursor, and
      completing takes that away. */
  lemma {:induction false} CompletingAtStart(u: Tables, t: string, value: string)
    requires t != "" && !u.IsSpace(t[0]) && t[0] < '\U{80}'
    ensures PrefixAt(u, t, 0) == [t[0]]
    ensures Replaced(Edited(t, 0), PrefixAt(u, t, 0), value) == Edited(StripNul(value) + t[1..], |value|)
    ensures PrefixAt(u, "ab", 0) == "a" && Replaced(Edited("ab", 0), "a", "ax") == Edited("axb", 2)
  {
    FirstReplaced(u, t, value);
    FirstReplaced(u, "ab", "ax");
    assert "ab"[1..] == "b" && ['a'] == "a" && "ax" + "b" == "axb" && "ax"[1] != NUL;
  }

  lemma {:induction false} FirstReplaced(u: Tables, t: string, value: string)
    requires t != "" && !u.IsSpace(t[0]) && t[0] < '\U{80}'
    ensures PrefixAt(u, t, 0) == [t[0]]
    ensures Replaced(Edited(t, 0), PrefixAt(u, t, 0), value) == Edited(StripNul(value) + t[1..], |value|)
  {
    hide T.ByteLen;
    PrefixIs(u, t, 0);
    T.OneByteLen([t[0]]);
    hide PrefixAt;
    assert CutOut(t, 0, 1) == t[1..];
    assert t[1..][..0] + StripNul(value) + t[1..][0..] == StripNul(value) + t[1..];
  }
}
