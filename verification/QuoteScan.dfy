/** The one-pass search for an unclosed quote (internal/strutil/surround.go), and
    its agreement with the word splitter. */
module QuoteScan {
  import opened ShellWords

  /** The mode of the splitting automaton after the first i characters. */
  function ModeAt(line: string, i: nat): Mode
    requires i <= |line|
  {
    Run(Start([]), line[..i]).mode
  }

  predicate InDouble(m: Mode) { m.Double? || m.DoubleEscape? }

  predicate Escaping(m: Mode) { m.BetweenEscape? || m.WordEscape? || m.DoubleEscape? }

  lemma {:induction false} ModeStep(line: string, i: nat)
    requires i < |line|
    ensures Run(Start([]), line[..i + 1]) == Step(Run(Start([]), line[..i]), line[i])
  {
    assert line[..i + 1] == line[..i] + [line[i]];
    RunAppend(Start([]), line[..i], [line[i]]);
    RunOne(Run(Start([]), line[..i]), [line[i]]);
    assert [line[i]][1..] == "";
  }

  /** pos opens a quote of the given kind that the rest of line[..n] never leaves. */
  predicate OpenSince(line: string, pos: int, n: nat, double: bool)
    requires n <= |line|
  {
    && 0 <= pos < n
    && line[pos] == (if double then '"' else '\'')
    && (ModeAt(line, pos).Between? || ModeAt(line, pos).Word?)
    && forall j :: pos < j <= n ==> if double then InDouble(ModeAt(line, j)) else ModeAt(line, j).Single?
  }

  method GetQuotedWordStart(line: string) returns (unclosed: bool, pos: int)
    ensures unclosed <==> ShellSplit(line).Failed? && ShellSplit(line).error != UnterminatedEscape
    ensures unclosed ==> OpenSince(line, pos, |line|, ShellSplit(line).error == UnterminatedDoubleQuote)
    ensures !unclosed ==> pos == -1
  {
    var inSingle, inDouble, escape := false, false, false;
    var spos, dpos := -1, -1;
    assert line[..0] == "";
    for i := 0 to |line|
      invariant inDouble == InDouble(ModeAt(line, i))
      invariant inSingle == ModeAt(line, i).Single?
      invariant escape == Escaping(ModeAt(line, i))
      invariant inDouble ==> OpenSince(line, dpos, i, true)
      invariant inSingle ==> OpenSince(line, spos, i, false)
    {
      ModeStep(line, i);
      var r := line[i];
      if escape {
        escape := false;
        continue;
      }
      if r == '\\' && !inSingle {
        escape := true;
        continue;
      }
      if r == '"' && !inSingle {
        inDouble := !inDouble;
        if inDouble { dpos := i; }
      } else if r == '\'' && !inDouble {
        inSingle := !inSingle;
        if inSingle { spos := i; }
      }
    }
    assert line[..|line|] == line;
    if inDouble { return true, dpos; }
    if inSingle { return true, spos; }
    return false, -1;
  }

  /** Before the reported position no quote is open, and no other position
      answers the description. */
  lemma {:induction false} OpenSinceUnique(line: string, pos: int, other: int, double: bool, otherDouble: bool)
    requires OpenSince(line, pos, |line|, double) && OpenSince(line, other, |line|, otherDouble)
    ensures pos == other && double == otherDouble
    ensures ShellSplit(line[..pos]).Complete?
  {
  }
}
