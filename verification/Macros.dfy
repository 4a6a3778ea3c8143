/** Recording and replaying keyboard macros (internal/macro/engine.go). */
module Macros {
  import opened Basics
  import opened Unicode
  import opened Inputrc

  /** What RunLastMacro feeds once a macro made of keys has been recorded. */
  function Replayed(u: Tables, keys: string): string {
    Unescape(u, EscapeMacro(u, keys))
  }

  /** Replaying feeds the recorded keys exactly when these are decodable. */
  lemma {:induction false} ReplayIsFaithful(u: Tables, keys: string)
    ensures Replayed(u, keys) == keys <==> Decodable(u, keys)
  {
    UnescapeInvertsEscape(u, MACRO_NAMES, keys);
  }

  class Engine {
    const u: Tables
    var recording: bool
    var current: string
    var currentKey: char
    var macros: map<char, string>
    var fed: string  // the keys at the end of the shell's key stack

    constructor (u: Tables)
      ensures this.u == u && !recording && current == "" && macros == map[] && fed == ""
    {
      this.u := u;
      recording, current, currentKey, macros, fed := false, "", NUL, map[], "";
    }

    method StopRecord(keys: string)
      modifies this
      ensures !recording && current == "" && currentKey == old(currentKey) && fed == old(fed)
      ensures if old(current) == "" then macros == old(macros)
        else var macro := EscapeMacro(u, old(current) + keys);
          macros == old(macros)[currentKey := macro][NUL := macro]
    {
      recording := false;
      if current == "" { return; }
      current := current + keys;
      var macro := EscapeLoop(u, MACRO_NAMES, current);
      macros := macros[currentKey := macro];
      macros := macros[NUL := macro];
      current := "";
    }

    method RunLastMacro()
      modifies this`fed
      ensures fed == old(fed) + (if NUL in macros then Unescape(u, macros[NUL]) else "")
    {
      if |macros| == 0 { return; }
      var macro := Unescape(u, if NUL in macros then macros[NUL] else "");
      if macro == "" { return; }
      fed := fed + macro;
    }

    /** Recording stops, then the macro runs: the recorded keys are fed. */
    method StopThenReplay(keys: string)
      requires current != ""
      modifies this
      ensures fed == old(fed) + Replayed(u, old(current) + keys)
    {
      StopRecord(keys);
      RunLastMacro();
    }
  }
}
