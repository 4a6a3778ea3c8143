/** The key stack and the dispatch of its keys to binds (internal/core/keys.go,
    internal/keymap/dispatch.go). */
module Dispatch {
  import opened KeyMatching
  import T = Tokens

  const SELF_INSERT := Bind("self-insert", false)

  /** Keys fed by a macro are runes, read as single bytes. */
  function Truncated(keys: string): seq<Byte> {
    seq(|keys|, i requires 0 <= i < |keys| => keys[i] as int % 256)
  }

  /** A macro's keys are fed as its UTF-8 bytes just when they are all 7-bit. */
  lemma {:induction false} TruncatedExactly(keys: string)
    ensures Truncated(keys) == Encode(keys) <==> forall i :: 0 <= i < |keys| ==> keys[i] as int < 0x80
    ensures |Truncated(keys)| <= |Encode(keys)|
    ensures |Truncated(keys)| == |Encode(keys)| <==> Truncated(keys) == Encode(keys)
    decreases |keys|
  {
    if keys == "" {
      assert Truncated(keys) == Encode(keys) == [];
    } else {
      var k, c := keys[..|keys| - 1], keys[|keys| - 1];
      TruncatedExactly(k);
      assert Truncated(keys) == Truncated(k) + [c as int % 256];
      assert Encode(keys) == Encode(k) + Utf8(c);
      assert |Utf8(c)| == 1 <==> c as int < 0x80;
      assert c as int < 0x80 ==> Utf8(c) == [c as int % 256];
      if c as int < 0x80 && Truncated(k) == Encode(k) {
        assert forall i :: 0 <= i < |keys| ==> keys[i] == if i < |k| then k[i] else c;
      } else {
        assert keys[|k|] == c && forall i :: 0 <= i < |k| ==> k[i] == keys[i];
      }
    }
  }

  class Keys {
    const cluster: seq<Byte> -> nat  // length of the first grapheme cluster
    const decode: seq<Byte> -> string  // the runes of a byte string
    var buf: seq<Byte>
    var macroKeys: string
    var matched: string
    var mustWait: bool

    constructor (cluster: seq<Byte> -> nat, decode: seq<Byte> -> string)
      ensures this.cluster == cluster && this.decode == decode
      ensures Stream() == [] && matched == "" && !mustWait
    {
      this.cluster, this.decode := cluster, decode;
      buf, macroKeys, matched, mustWait := [], "", "", false;
    }

    /** The keys still to be read, in the order they will be. */
    function Stream(): seq<Byte>
      reads this`buf, this`macroKeys
    {
      buf + Truncated(macroKeys)
    }

    /** A cluster is not empty and lies within the buffer. */
    function ClusterLen(): (n: nat)
      requires buf != []
      reads this`buf
      ensures 1 <= n <= |buf|
    {
      var n := cluster(buf);
      if 1 <= n <= |buf| then n else 1
    }

    function FirstChar(): seq<Byte>
      requires Stream() != []
      reads this`buf, this`macroKeys
    {
      if buf != [] then buf[..ClusterLen()] else Utf8(macroKeys[0])
    }

    method PeekKey() returns (key: Byte, empty: bool)
      ensures empty <==> Stream() == []
      ensures !empty ==> key == Stream()[0]
    {
      if |buf| > 0 { return buf[0], false; }
      if |macroKeys| > 0 { return macroKeys[0] as int % 256, false; }
      return 0, true;
    }

    method PopKey() returns (key: Byte, empty: bool)
      modifies this`buf, this`macroKeys
      ensures empty <==> old(Stream()) == []
      ensures if empty then Stream() == [] else old(Stream()) == [key] + Stream()
    {
      if |buf| > 0 {
        key := buf[0];
        buf := buf[1..];
        return key, false;
      }
      if |macroKeys| > 0 {
        key := macroKeys[0] as int % 256;
        macroKeys := macroKeys[1..];
        return key, false;
      }
      return 0, true;
    }

    method PeekChar() returns (c: seq<Byte>, empty: bool)
      ensures empty <==> Stream() == []
      ensures !empty ==> c == FirstChar()
    {
      if |buf| > 0 { return buf[..ClusterLen()], false; }
      if |macroKeys| > 0 { return Utf8(macroKeys[0]), false; }
      return [], true;
    }

    method PopChar() returns (c: seq<Byte>, empty: bool)
      modifies this`buf, this`macroKeys
      ensures empty <==> old(Stream()) == []
      ensures empty ==> Stream() == []
      ensures !empty ==> c == old(FirstChar())
      ensures old(buf) != [] ==> old(buf) == c + buf && macroKeys == old(macroKeys)
      ensures !empty && old(buf) == [] ==> buf == [] && macroKeys == old(macroKeys)[1..]
    {
      if |buf| > 0 {
        var n := ClusterLen();
        c := buf[..n];
        buf := buf[n..];
        return c, false;
      }
      if |macroKeys| > 0 {
        c := Utf8(macroKeys[0]);
        macroKeys := macroKeys[1..];
        return c, false;
      }
      return [], true;
    }

    method MatchedKeys(keys: seq<Byte>, args: seq<Byte>)
      modifies this`matched, this`buf, this`mustWait
      ensures matched == if keys != [] then decode(keys) else old(matched)
      ensures buf == args + old(buf) && !mustWait && Stream() == args + old(Stream())
    {
      hide Truncated;
      if |keys| > 0 { matched := decode(keys); }
      if |args| > 0 { buf := args + buf; }
      mustWait := false;
    }

    method MatchedPrefix(prefix: seq<Byte>)
      modifies this`matched, this`buf, this`mustWait
      ensures buf == prefix + old(buf) && Stream() == prefix + old(Stream())
      ensures if prefix == [] then matched == old(matched) && mustWait == old(mustWait)
        else matched == decode(prefix) && mustWait == (old(buf) == [])
      ensures prefix != [] && old(Stream()) == [] ==> mustWait
    {
      hide Truncated;
      if |prefix| == 0 { return; }
      mustWait := |buf| == 0;
      buf := prefix + buf;
      matched := decode(prefix);
    }
  }

  class Engine {
    const keys: Keys
    var active: Bind
    var prefixed: Bind

    constructor (keys: Keys)
      ensures this.keys == keys && active == prefixed == NO_BIND
    {
      this.keys, active, prefixed := keys, NO_BIND, NO_BIND;
    }

    method MakeMatch(active: Bind, prefixed: Bind) returns (prefix: bool)
      modifies this`active, this`prefixed
      ensures this.active == active && this.prefixed == prefixed && prefix == (prefixed.action != "")
    {
      this.active, this.prefixed := active, prefixed;
      prefix := prefixed.action != "";
    }

    /** Several bytes that make one character insert themselves, whatever is bound.
        A single byte is the first of the keys looked up in the binds. */
    method DispatchKeys(binds: map<string, Bind>)
      returns (bind: Bind, prefix: bool, read: seq<Byte>, matched: seq<Byte>)
      modifies this`active, this`prefixed, keys`buf, keys`macroKeys
      ensures bind == active && matched <= read
      ensures old(keys.Stream()) == [] ==>
        !prefix && read == matched == [] && active == old(active) && prefixed == old(prefixed) && keys.Stream() == []
      ensures old(keys.buf) != [] && |old(keys.FirstChar())| > 1 ==>
        && !prefix && active == SELF_INSERT && prefixed == NO_BIND
        && read == matched == old(keys.FirstChar()) && read + keys.Stream() == old(keys.Stream())
      ensures old(keys.buf) == [] && old(keys.macroKeys) != "" && |old(keys.FirstChar())| > 1 ==>
        && !prefix && active == SELF_INSERT && prefixed == NO_BIND
        && read == matched == old(keys.FirstChar())
        && keys.buf == [] && keys.macroKeys == old(keys.macroKeys)[1..]
      ensures old(keys.Stream()) != [] && |old(keys.FirstChar())| <= 1 ==>
        && Outcome(active, prefixed, prefix, read, matched) ==
             Dispatched(binds, old(keys.Stream()), old(active), old(prefixed))
        && read + keys.Stream() == old(keys.Stream())
    {
      hide Stop, Extended, Exact;
      var c, empty := keys.PeekChar();
      if empty { return active, false, [], []; }
      if |c| > 1 {
        prefix := MakeMatch(SELF_INSERT, NO_BIND);
        var _, _ := keys.PopChar();
        return active, prefix, c, c;
      }
      bind, prefix, read, matched := ReadKeys(binds);
    }

    /** The byte loop of dispatchKeys. */
    method ReadKeys(binds: map<string, Bind>) returns (bind: Bind, prefix: bool, read: seq<Byte>, matched: seq<Byte>)
      requires keys.Stream() != []
      modifies this`active, this`prefixed, keys`buf, keys`macroKeys
      ensures bind == active && matched <= read
      ensures Outcome(active, prefixed, prefix, read, matched) ==
        Dispatched(binds, old(keys.Stream()), old(active), old(prefixed))
      ensures read + keys.Stream() == old(keys.Stream())
    {
      hide Stop, Extended, Exact, LongestBound, Keys.Stream, Dispatched, Spelled, IsPreferred;
      read, matched, prefix := [], [], false;
      ghost var s := keys.Stream();
      StartReading(binds, s, prefixed);
      while true
        invariant read == matched && read + keys.Stream() == s && prefix == (read != [])
        invariant Reading(binds, s, |read|, prefixed, old(prefixed))
        invariant active == old(active)
        decreases |keys.Stream()|
      {
        var key, none := keys.PeekKey();
        if none {
          assert read == s;
          OutOfKeys(binds, s, active, prefixed, old(prefixed));
          break;
        }
        ghost var k := |read|;
        read := read + [key];
        NextKey(s, matched, key, keys.Stream());
        var found, longer := MatchBind(read, binds);
        KeyRead(binds, s, k, active, prefixed, old(prefixed));
        var _, _ := keys.PopKey();
        if found.action == "" && |longer| == 0 {
          prefix := MakeMatch(prefixed, NO_BIND);
          break;
        }
        matched := matched + [key];
        if |longer| > 0 {
          prefix := true;
          if found.action != "" { prefixed := found; }
          continue;
        }
        prefix := MakeMatch(found, NO_BIND);
        break;
      }
      bind := active;
    }

    /** In the local keymap, the keys read beyond those that matched are put back. */
    method MatchLocal(binds: map<string, Bind>) returns (bind: Bind, prefix: bool, ghost matched: seq<Byte>)
      modifies this, keys
      ensures binds == map[] ==>
        bind == NO_BIND && !prefix && matched == [] && unchanged(this) && unchanged(keys)
      ensures binds != map[] ==> bind == active
      ensures binds != map[] && old(keys.Stream()) == [] ==>
        !prefix && matched == [] && active == old(active) && prefixed == old(prefixed) && keys.Stream() == []
      ensures binds != map[] && old(keys.Stream()) != [] && |old(keys.FirstChar())| <= 1 ==>
        var o := Dispatched(binds, old(keys.Stream()), old(active), old(prefixed));
        && active == o.active && prefixed == o.prefixed && prefix == o.pending && matched == o.matched
        && keys.matched == (if matched == [] then old(keys.matched) else keys.decode(matched))
        && keys.mustWait == prefix
        && (if prefix then keys.Stream() == old(keys.Stream()) else matched + keys.Stream() == old(keys.Stream()))
      ensures binds != map[] && old(keys.buf) != [] && |old(keys.FirstChar())| > 1 ==>
        && active == SELF_INSERT && !prefix && matched == old(keys.FirstChar())
        && matched + keys.Stream() == old(keys.Stream())
      ensures binds != map[] && old(keys.buf) == [] && old(keys.macroKeys) != "" && |old(keys.FirstChar())| > 1 ==>
        && active == SELF_INSERT && !prefix && matched == old(keys.FirstChar())
        && keys.buf == [] && keys.macroKeys == old(keys.macroKeys)[1..]
    {
      hide Stop, Extended, Exact, LongestBound, Keys.Stream, Keys.FirstChar;
      matched := [];
      if |binds| == 0 { return NO_BIND, false, []; }
      ghost var s := keys.Stream();
      var read, hits;
      bind, prefix, read, hits := DispatchKeys(binds);
      matched := hits;
      assert read == hits + read[|hits|..];
      hide Dispatched;
      if prefix {
        keys.MatchedPrefix(read);
      } else {
        keys.MatchedKeys(hits, read[|hits|..]);
      }
    }

    /** A bound sequence typed byte by byte runs its bind, and what is typed after it stays
        to be read. */
    method TypeSequence(binds: map<string, Bind>, ghost s: string, ghost rest: seq<Byte>)
      returns (bind: Bind, prefix: bool)
      requires s != "" && s in binds && IsPreferred(binds, Spelled(s), s) && binds[s].action != ""
      requires forall t :: t in binds ==> !(Spelled(s) < Spelled(t))
      requires keys.Stream() == Spelled(s) + rest && (keys.Stream() != [] ==> |keys.FirstChar()| <= 1)
      modifies this, keys
      ensures bind == active == binds[s] && prefixed == NO_BIND && !prefix
      ensures keys.Stream() == rest && !keys.mustWait && keys.matched == keys.decode(Spelled(s))
    {
      hide Dispatched, Spelled, IsPreferred, Keys.Stream, Keys.FirstChar;
      TypedRuns(binds, s, rest, active, prefixed);
      ghost var matched;
      bind, prefix, matched := MatchLocal(binds);
      assert Spelled(s) + keys.Stream() == Spelled(s) + rest;
      assert keys.Stream() == (Spelled(s) + rest)[|Spelled(s)|..] == rest;
    }

    /** A key bound by one rune: its code alone runs the bind if it is 7-bit, an escape and
        the code without its top bit if it is 8-bit. */
    method TypeKey(binds: map<string, Bind>, c: char) returns (bind: Bind, prefix: bool)
      requires [c] in binds && binds[[c]].action != "" && c as int <= 0xff
      requires forall t :: t in binds && Spelled([c]) <= Spelled(t) ==> t == [c]
      requires keys.Stream() == if c as int < 0x80 then [c as int] else [0x1b, c as int - 0x80]
      requires |keys.FirstChar()| <= 1
      modifies this, keys
      ensures bind == active == binds[[c]] && prefixed == NO_BIND && !prefix && keys.Stream() == []
    {
      assert [c][1..] == "" && Spelled([c]) == KeyBytes(c) + Spelled("") == KeyBytes(c) == KeyBytes(c) + [];
      hide Spelled, MetaFirst, Keys.FirstChar, Keys.Stream;
      assert Spelled([c]) + [] == Spelled([c]);
      bind, prefix := TypeSequence(binds, [c], []);
    }

    /** In the main keymap, all the keys read are dropped. */
    method MatchMain(binds: map<string, Bind>) returns (bind: Bind, prefix: bool)
      modifies this, keys
      ensures binds == map[] ==> bind == NO_BIND && !prefix && unchanged(this) && unchanged(keys)
      ensures binds != map[] ==> bind == active
      ensures binds != map[] && old(keys.Stream()) != [] && |old(keys.FirstChar())| <= 1 ==>
        var s := old(keys.Stream());
        var o := Dispatched(binds, s, old(active), old(prefixed));
        && active == o.active && prefixed == o.prefixed && prefix == o.pending
        && keys.matched == keys.decode(o.read) && keys.mustWait == prefix
        && (if prefix then keys.Stream() == s else o.read + keys.Stream() == s)
      ensures binds != map[] && old(keys.Stream()) == [] ==>
        !prefix && active == old(active) && prefixed == old(prefixed) && keys.Stream() == []
      ensures binds != map[] && old(keys.buf) != [] && |old(keys.FirstChar())| > 1 ==>
        && active == SELF_INSERT && !prefix && keys.matched == keys.decode(old(keys.FirstChar()))
        && old(keys.FirstChar()) + keys.Stream() == old(keys.Stream())
      ensures binds != map[] && old(keys.buf) == [] && old(keys.macroKeys) != "" && |old(keys.FirstChar())| > 1 ==>
        && active == SELF_INSERT && !prefix && keys.matched == keys.decode(old(keys.FirstChar()))
        && keys.buf == [] && keys.macroKeys == old(keys.macroKeys)[1..]
    {
      hide Stop, Extended, Exact, LongestBound, Keys.Stream, Keys.FirstChar;
      if |binds| == 0 { return NO_BIND, false; }
      var read, matched;
      bind, prefix, read, matched := DispatchKeys(binds);
      hide Dispatched;
      if prefix {
        keys.MatchedPrefix(read);
      } else {
        keys.MatchedKeys(read, []);
      }
    }
  }

  lemma {:induction false} NextKey(s: seq<Byte>, matched: seq<Byte>, key: Byte, rest: seq<Byte>)
    requires rest != [] && matched + rest == s && key == rest[0]
    ensures |matched| < |s| && matched == s[..|matched|] && matched + [key] == s[..|matched| + 1]
    ensures matched + [key] + rest[1..] == s
  {
  }

  /** After k keys that all start something longer. */
  ghost predicate Reading(binds: map<string, Bind>, s: seq<Byte>, k: nat, prefixed: Bind, stale: Bind) {
    k <= |s| && Stop(binds, s, k + 1) == Stop(binds, s, 1) && prefixed == LongestBound(binds, s, k, stale)
  }

  lemma {:induction false} StartReading(binds: map<string, Bind>, s: seq<Byte>, stale: Bind)
    ensures Reading(binds, s, 0, stale, stale)
  {
  }

  lemma {:induction false} OutOfKeys(binds: map<string, Bind>, s: seq<Byte>, active: Bind, prefixed: Bind, stale: Bind)
    requires s != [] && Reading(binds, s, |s|, prefixed, stale)
    ensures Dispatched(binds, s, active, stale) == Outcome(active, prefixed, true, s, s)
  {
  }

  /** What the next key leads to. */
  lemma {:induction false} KeyRead(binds: map<string, Bind>, s: seq<Byte>, k: nat,
      active: Bind, prefixed: Bind, stale: Bind)
    requires k < |s| && Reading(binds, s, k, prefixed, stale)
    ensures var read, found := s[..k + 1], Exact(binds, s[..k + 1]);
      if Extended(binds, read) then
        Reading(binds, s, k + 1, if found.action != "" then found else prefixed, stale)
      else
        Dispatched(binds, s, active, stale) ==
          if found.action != "" then Outcome(found, NO_BIND, false, read, read)
          else Outcome(prefixed, NO_BIND, false, read, s[..k])
  {
    hide Extended, Exact;
  }
}
