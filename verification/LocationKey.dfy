/** The key under which the debugger groups breakpoints (dbg_breakpoint.h). */
module LocationKeys {
  import Decimal

  /** std::tolower in the "C" locale. */
  function ToLower(c: char): char {
    if 'A' <= c <= 'Z' then c + ('a' - 'A') else c
  }

  function Lower(path: string): (r: string)
    ensures |r| == |path|
    ensures forall i :: 0 <= i < |r| ==>
              r[i] as int == if 'A' <= path[i] <= 'Z' then path[i] as int + 32 else path[i] as int
  {
    seq(|path|, i requires 0 <= i < |path| => ToLower(path[i]))
  }

  /** The characters are the same, or the two cases of one letter. */
  predicate SameLetter(c: char, d: char) {
    || c == d
    || ('A' <= c <= 'Z' && d as int == c as int + 32)
    || ('A' <= d <= 'Z' && c as int == d as int + 32)
  }

  predicate SamePath(a: string, b: string) {
    |a| == |b| && forall i :: 0 <= i < |a| ==> SameLetter(a[i], b[i])
  }

  /** Lower-casing confuses paths that differ in the case of letters, and no others. */
  lemma LowerExactly(a: string, b: string)
    ensures Lower(a) == Lower(b) <==> SamePath(a, b)
  {
    var x, y := Lower(a), Lower(b);
    if |a| == |b| {
      forall i | 0 <= i < |a| ensures x[i] == y[i] <==> SameLetter(a[i], b[i]) {
        assert x[i] == y[i] <==> x[i] as int == y[i] as int;
      }
    }
  }

  /** GetBreakpointLocation, of a path Initialize has lower-cased already. */
  function Key(filePath: string, line: nat): string {
    filePath + "##" + Decimal.Print(line)
  }

  /** Grouping by key is grouping by location, whatever '#' the paths contain or end in. */
  lemma KeyFaithful(path1: string, line1: nat, path2: string, line2: nat)
    ensures Key(path1, line1) == Key(path2, line2) <==> path1 == path2 && line1 == line2
  {
    if Key(path1, line1) == Key(path2, line2) {
      Decimal.NumeralSuffix(path1 + "##", path2 + "##", line1, line2);
      assert path1 == (path1 + "##")[..|path1|] && path2 == (path2 + "##")[..|path2|];
    }
  }
}
