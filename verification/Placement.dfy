/** Where a breakpoint is set: choosing a document, a method and a sequence point (dbg_breakpoint.cc). */
module Placement {
  import opened Wrappers
  import LocationKeys

  // ---------------------------------------------------------------- documents

  function IndexOfSlash(path: string): (i: nat)
    ensures i <= |path|
  {
    if path == [] || path[0] == '/' then 0 else 1 + IndexOfSlash(path[1..])
  }

  lemma {:induction false} FirstSlash(path: string)
    ensures var i := IndexOfSlash(path);
            '/' !in path[..i] && (i < |path| ==> path[i] == '/')
  {
    if path != [] && path[0] != '/' {
      FirstSlash(path[1..]);
      assert path[..IndexOfSlash(path)] == [path[0]] + path[1..][..IndexOfSlash(path[1..])];
    }
  }

  /** The segments of a path, root first. */
  function Split(path: string): seq<string>
    decreases |path|
  {
    var i := IndexOfSlash(path);
    if i == |path| then [path] else [path[..i]] + Split(path[i + 1..])
  }

  function Join(segments: seq<string>): string {
    if segments == [] then "" else if |segments| == 1 then segments[0]
    else segments[0] + "/" + Join(segments[1..])
  }

  /** Splitting loses nothing, and its segments hold no separator. */
  lemma {:induction false} SplitJoin(path: string)
    ensures Split(path) != [] && Join(Split(path)) == path
    ensures forall s :: s in Split(path) ==> '/' !in s
    decreases |path|
  {
    var i := IndexOfSlash(path);
    FirstSlash(path);
    if i == |path| {
      assert path[..i] == path;
    } else {
      SplitJoin(path[i + 1..]);
      var segments := Split(path);
      assert segments[0] == path[..i] && segments[1..] == Split(path[i + 1..]);
      assert path == path[..i] + "/" + path[i + 1..];
    }
  }

  function Reverse<T>(s: seq<T>): (r: seq<T>)
    ensures |r| == |s|
    ensures forall i :: 0 <= i < |s| ==> r[i] == s[|s| - 1 - i]
  {
    seq(|s|, i requires 0 <= i < |s| => s[|s| - 1 - i])
  }

  lemma {:induction false} SplitUnfolds(path: string)
    requires IndexOfSlash(path) < |path|
    ensures var i := IndexOfSlash(path);
            Split(path) == [path[..i]] + Split(path[i + 1..])
  {
  }

  lemma SplitStep(path: string, start: nat, i: nat, segments: seq<string>)
    requires start <= i < |path| && i == start + IndexOfSlash(path[start..])
    ensures segments + Split(path[start..]) == segments + [path[start..i]] + Split(path[i + 1..])
  {
    SplitUnfolds(path[start..]);
    assert path[start..][..i - start] == path[start..i] && path[start..][i - start + 1..] == path[i + 1..];
    Assoc(segments, [path[start..i]], Split(path[i + 1..]));
  }

  /** The file name comes first. */
  method SplitFilePath(path: string) returns (result: seq<string>)
    ensures result == Reverse(Split(path))
  {
    var segments: seq<string> := [];
    var startOffset := 0;
    var delimiter := IndexOfSlash(path);
    assert path[0..] == path;
    while startOffset + delimiter < |path|
      invariant startOffset <= |path| && delimiter == IndexOfSlash(path[startOffset..])
      invariant segments + Split(path[startOffset..]) == Split(path)
      decreases |path| - startOffset
    {
      SplitStep(path, startOffset, startOffset + delimiter, segments);
      segments := segments + [path[startOffset..startOffset + delimiter]];
      startOffset := startOffset + delimiter + 1;
      delimiter := IndexOfSlash(path[startOffset..]);
    }
    segments := segments + [path[startOffset..]];
    result := Reverse(segments);
  }

  /** The positions at which two lists have the same segment. */
  function Agreeing(a: seq<string>, b: seq<string>): set<nat> {
    set i: nat | i < |a| && i < |b| && a[i] == b[i]
  }

  /** A path as the compiler recorded it, in lower case and with '/' for its separators. */
  function Normalized(document: string): (r: string)
    ensures |r| == |document|
    ensures forall i :: 0 <= i < |r| ==>
              var c := document[i];
              r[i] as int == if c == '\\' then '/' as int else if 'A' <= c <= 'Z' then c as int + 32 else c as int
  {
    LocationKeys.Lower(
      seq(|document|, i requires 0 <= i < |document| => if document[i] == '\\' then '/' else document[i]))
  }

  lemma AgreeingNext(a: seq<string>, b: seq<string>, n: nat)
    requires n < |a| && n < |b|
    ensures Agreeing(a[..n + 1], b) == Agreeing(a[..n], b) + (if a[n] == b[n] then {n} else {})
    ensures n !in Agreeing(a[..n], b)
  {
  }

  method CountMatches(segments: seq<string>, documentSegments: seq<string>) returns (matches: nat)
    ensures matches == |Agreeing(segments, documentSegments)|
  {
    matches := 0;
    for i := 0 to |segments|
      invariant i <= |documentSegments|
      invariant matches == |Agreeing(segments[..i], documentSegments)|
    {
      if i == |documentSegments| {
        assert Agreeing(segments[..i], documentSegments) == Agreeing(segments, documentSegments);
        return;
      }
      AgreeingNext(segments, documentSegments, i);
      if segments[i] == documentSegments[i] {
        matches := matches + 1;
      }
    }
    assert segments[..|segments|] == segments;
  }

  function MatchesOf(segments: seq<string>, document: string): nat {
    |Agreeing(segments, Reverse(Split(Normalized(document))))|
  }

  /** A document is matched, segment by segment from the file name up, ignoring case and kind of slash. */
  lemma MatchesOfExactly(segments: seq<string>, document: string, path: string)
    requires |path| == |document|
    requires forall i :: 0 <= i < |path| ==>
               var c := document[i];
               path[i] as int == if c == '\\' then '/' as int else if 'A' <= c <= 'Z' then c as int + 32 else c as int
    ensures var parts := Split(path);
            MatchesOf(segments, document) ==
            |set i: nat | i < |segments| && i < |parts| && segments[i] == parts[|parts| - 1 - i]|
  {
    var parts := Split(path);
    assert path == Normalized(document);
    assert Agreeing(segments, Reverse(parts)) ==
           set i: nat | i < |segments| && i < |parts| && segments[i] == parts[|parts| - 1 - i];
  }

  /** The first of the documents with the most matching segments. */
  ghost predicate IsBestDocument(segments: seq<string>, documents: seq<string>, best: int) {
    && 0 <= best < |documents|
    && var most := MatchesOf(segments, documents[best]);
       && (forall j :: 0 <= j < |documents| ==> MatchesOf(segments, documents[j]) <= most)
       && (forall j :: 0 <= j < best ==> MatchesOf(segments, documents[j]) < most)
  }

  /** The first of the documents that match best; none when no document matches at all. */
  method BestDocument(segments: seq<string>, documents: seq<string>) returns (best: int)
    ensures best == -1 || IsBestDocument(segments, documents, best)
    ensures best == -1 <==> forall d :: d in documents ==> MatchesOf(segments, d) == 0
  {
    best := -1;
    var longestMatch := -1;
    for i := 0 to |documents|
      invariant -1 <= best < i
      invariant best == -1 ==> longestMatch == -1 && forall j :: 0 <= j < i ==> MatchesOf(segments, documents[j]) == 0
      invariant best != -1 ==> longestMatch == MatchesOf(segments, documents[best]) > 0
      invariant best != -1 ==> forall j :: 0 <= j < i ==> MatchesOf(segments, documents[j]) <= longestMatch
      invariant best != -1 ==> forall j :: 0 <= j < best ==> MatchesOf(segments, documents[j]) < longestMatch
    {
      var documentSegments := SplitFilePath(Normalized(documents[i]));
      var matches := CountMatches(segments, documentSegments);
      if matches > 0 && matches > longestMatch {
        best := i;
        longestMatch := matches;
      }
    }
  }

  // ---------------------------------------------------------------- methods

  datatype SequencePoint = SequencePoint(ilOffset: nat, startLine: nat, isHidden: bool)

  datatype Method = Method(firstLine: nat, lastLine: nat, methodDef: nat, points: seq<SequencePoint>)

  /** The first visible point at or after a line, or the number of points. */
  function FirstVisible(points: seq<SequencePoint>, line: nat): (k: nat)
    ensures k <= |points|
    ensures k < |points| ==> !points[k].isHidden && points[k].startLine >= line
    ensures forall j :: 0 <= j < k ==> points[j].isHidden || points[j].startLine < line
  {
    if points == [] || (!points[0].isHidden && points[0].startLine >= line) then 0
    else 1 + FirstVisible(points[1..], line)
  }

  /** The point is not hidden and at or after the line; all before it are hidden or before the line. */
  ghost predicate IsFirstPoint(points: seq<SequencePoint>, k: int, line: nat) {
    && 0 <= k < |points| && !points[k].isHidden && points[k].startLine >= line
    && forall j :: 0 <= j < k ==> points[j].isHidden || points[j].startLine < line
  }

  /** The fields the search updates, with the methods accepted so far, by index. */
  datatype Search = Search(line: nat, ilOffset: nat, methodDef: nat, bestFirstLine: nat, accepted: seq<nat>)

  function Consider(s: Search, m: Method, index: nat): Search {
    if m.firstLine > s.line || m.lastLine < s.line then s
    else if m.firstLine <= s.bestFirstLine then s
    else
      var k := FirstVisible(m.points, s.line);
      if k == |m.points| then s
      else Search(m.points[k].startLine, m.points[k].ilOffset, m.methodDef, m.firstLine, s.accepted + [index])
  }

  /** The search after the first n methods. */
  function After(s: Search, ms: seq<Method>, n: nat): Search
    requires n <= |ms|
  {
    if n == 0 then s else Consider(After(s, ms, n - 1), ms[n - 1], n - 1)
  }

  /** A document of a PDB file: its path as the compiler recorded it, and its methods. */
  datatype Document = Document(path: string, methods: seq<Method>)

  function Paths(documents: seq<Document>): seq<string> {
    seq(|documents|, i requires 0 <= i < |documents| => documents[i].path)
  }

  class DbgBreakpoint {
    const filePathSegments: seq<string>
    var line: nat
    var ilOffset: nat
    var methodDef: nat

    constructor (filePathSegments: seq<string>, line: nat)
      ensures this.filePathSegments == filePathSegments && this.line == line
    {
      this.filePathSegments := filePathSegments;
      this.line := line;
      ilOffset, methodDef := 0, 0;
    }

    method TrySetBreakpointInMethod(m: Method) returns (found: bool)
      modifies this
      ensures !found <==> forall p :: p in m.points ==> p.isHidden || p.startLine < old(line)
      ensures found ==> exists k :: IsFirstPoint(m.points, k, old(line)) && line == m.points[k].startLine
                                    && ilOffset == m.points[k].ilOffset && methodDef == m.methodDef
      ensures !found ==> unchanged(this)
      ensures var k := FirstVisible(m.points, old(line));
              && (found <==> k < |m.points|)
              && (found ==> line == m.points[k].startLine && ilOffset == m.points[k].ilOffset
                            && methodDef == m.methodDef)
    {
      var k := FirstVisible(m.points, line);
      if k == |m.points| {
        return false;
      }
      assert IsFirstPoint(m.points, k, line) && m.points[k] in m.points;
      ilOffset := m.points[k].ilOffset;
      line := m.points[k].startLine;
      methodDef := m.methodDef;
      return true;
    }

    /** Searches the methods of the best matching document; without a match nothing changes. */
    method TrySetBreakpoint(documents: seq<Document>) returns (found: bool)
      modifies this
      ensures (forall d :: d in Paths(documents) ==> MatchesOf(filePathSegments, d) == 0) ==>
                !found && unchanged(this)
      ensures (exists d :: d in Paths(documents) && MatchesOf(filePathSegments, d) != 0) ==>
                exists best :: && IsBestDocument(filePathSegments, Paths(documents), best)
                               && var methods := documents[best].methods;
                                  var start := Search(old(line), old(ilOffset), old(methodDef), 0, []);
                                  var s := After(start, methods, |methods|);
                                  && line == s.line && ilOffset == s.ilOffset && methodDef == s.methodDef
                                  && (found <==> s.accepted != [])
    {
      var best := BestDocument(filePathSegments, Paths(documents));
      if best == -1 {
        return false;
      }
      found := TrySetBreakpointInDocument(documents[best].methods);
    }

    /** The loop over the methods of the chosen document. */
    method TrySetBreakpointInDocument(methods: seq<Method>) returns (found: bool)
      modifies this
      ensures var s := After(Search(old(line), old(ilOffset), old(methodDef), 0, []), methods, |methods|);
              && line == s.line && ilOffset == s.ilOffset && methodDef == s.methodDef
              && (found <==> s.accepted != [])
    {
      found := false;
      var bestMatchedMethodFirstLine := 0;
      for i := 0 to |methods|
        invariant var s := After(Search(old(line), old(ilOffset), old(methodDef), 0, []), methods, i);
                  && line == s.line && ilOffset == s.ilOffset && methodDef == s.methodDef
                  && bestMatchedMethodFirstLine == s.bestFirstLine && (found <==> s.accepted != [])
      {
        var m := methods[i];
        if m.firstLine > line || m.lastLine < line {
          continue;
        }
        if m.firstLine > bestMatchedMethodFirstLine {
          var set_ := TrySetBreakpointInMethod(m);
          if set_ {
            bestMatchedMethodFirstLine := m.firstLine;
            found := true;
          }
        }
      }
    }
  }

  // ---------------------------------------------------------------- what is accepted

  /** A method the breakpoint of the given line could be set in. */
  ghost predicate Usable(m: Method, line: nat) {
    0 < m.firstLine <= line <= m.lastLine && exists p :: p in m.points && !p.isHidden && p.startLine >= line
  }

  lemma UsableExactly(m: Method, line: nat)
    ensures Usable(m, line) <==> 0 < m.firstLine <= line <= m.lastLine && FirstVisible(m.points, line) < |m.points|
  {
    var k := FirstVisible(m.points, line);
    if k < |m.points| {
      assert m.points[k] in m.points;
    }
  }

  ghost predicate Fresh(s: Search) {
    s.bestFirstLine == 0 && s.accepted == []
  }

  /**
   * The fields are those of the first point of m that is not hidden and at or after some line the
   * search stood at, which m contains and which is not before the requested one.
   */
  ghost predicate TakenFrom(r: Search, m: Method, requested: nat) {
    && r.bestFirstLine == m.firstLine && r.methodDef == m.methodDef
    && exists k, line :: requested <= line && m.firstLine <= line <= m.lastLine && IsFirstPoint(m.points, k, line)
                         && r.line == m.points[k].startLine && r.ilOffset == m.points[k].ilOffset
  }

  /**
   * In any order: every accepted method starts after the one accepted before it, the line never
   * drops below the requested one, and line, IL offset and method come from one visible point of
   * the last method accepted.
   */
  lemma {:induction false} SearchInvariant(s: Search, ms: seq<Method>, n: nat)
    requires Fresh(s) && n <= |ms|
    ensures var r := After(s, ms, n);
            && s.line <= r.line
            && (forall i :: 0 <= i < |r.accepted| ==> r.accepted[i] < n)
            && (forall i, j :: 0 <= i < j < |r.accepted| ==> ms[r.accepted[i]].firstLine < ms[r.accepted[j]].firstLine)
            && (r.accepted == [] ==> r == s)
            && (r.accepted != [] ==> TakenFrom(r, ms[r.accepted[|r.accepted| - 1]], s.line))
  {
    if n != 0 {
      SearchInvariant(s, ms, n - 1);
      var before, m := After(s, ms, n - 1), ms[n - 1];
      var r := After(s, ms, n);
      if r != before {
        var k := FirstVisible(m.points, before.line);
        assert IsFirstPoint(m.points, k, before.line);
        assert TakenFrom(r, m, s.line);
      }
    }
  }

  /** In any order, a place is found exactly when some method is usable for the requested line. */
  lemma {:induction false} FoundExactly(s: Search, ms: seq<Method>, n: nat)
    requires Fresh(s) && n <= |ms|
    ensures After(s, ms, n).accepted == [] <==> forall i :: 0 <= i < n ==> !Usable(ms[i], s.line)
  {
    if n != 0 {
      FoundExactly(s, ms, n - 1);
      SearchInvariant(s, ms, n - 1);
      UsableExactly(ms[n - 1], s.line);
    }
  }

  // ---------------------------------------------------------------- the innermost method

  /** Index i is the innermost usable method, the first such if several start on one line. */
  ghost predicate IsInnermost(ms: seq<Method>, line: nat, i: nat) {
    && i < |ms| && Usable(ms[i], line)
    && forall j :: 0 <= j < |ms| && Usable(ms[j], line) ==>
         ms[j].firstLine < ms[i].firstLine || (ms[j].firstLine == ms[i].firstLine && i <= j)
  }

  ghost predicate Descending(ms: seq<Method>) {
    forall i, j :: 0 <= i < j < |ms| ==> ms[j].firstLine <= ms[i].firstLine
  }

  /** Inner methods listed before outer ones: exactly one method is accepted, the innermost. */
  lemma {:induction false} DescendingFindsInnermost(s: Search, ms: seq<Method>, n: nat, i: nat)
    requires Fresh(s) && Descending(ms) && IsInnermost(ms, s.line, i) && n <= |ms|
    ensures After(s, ms, n).accepted == if n <= i then [] else [i]
    ensures n <= i ==> After(s, ms, n) == s
  {
    if n != 0 {
      DescendingFindsInnermost(s, ms, n - 1, i);
      SearchInvariant(s, ms, n - 1);
      UsableExactly(ms[n - 1], s.line);
    }
  }

  /** The search has not left the requested line, and its last accepted method is the innermost. */
  ghost predicate EndsInnermost(s: Search, ms: seq<Method>, r: Search) {
    && r.line == s.line
    && (r.accepted != [] ==>
          var i := r.accepted[|r.accepted| - 1];
          IsInnermost(ms, s.line, i) && r.bestFirstLine == ms[i].firstLine)
  }

  /** One more method, and the innermost of one method more. */
  lemma InnermostExtends(s: Search, ms: seq<Method>, m: Method, before: Search)
    requires EndsInnermost(s, ms, before)
    requires ExactPoints([m], s.line)
    requires before.accepted == [] ==> before.bestFirstLine == 0 && forall i :: 0 <= i < |ms| ==> !Usable(ms[i], s.line)
    ensures EndsInnermost(s, ms + [m], Consider(before, m, |ms|))
  {
    assert (ms + [m])[|ms|] == m;
    assert forall j :: 0 <= j < |ms| ==> (ms + [m])[j] == ms[j];
    UsableExactly(m, s.line);
  }

  /** Where a usable method can be entered from the line on, it can be on the line itself. */
  ghost predicate ExactPoints(ms: seq<Method>, line: nat) {
    forall m :: m in ms && Usable(m, line) ==>
      FirstVisible(m.points, line) < |m.points| && m.points[FirstVisible(m.points, line)].startLine == line
  }

  /** In any order, when every usable method has a point on the requested line itself. */
  lemma {:induction false} ExactLineFindsInnermost(s: Search, ms: seq<Method>, n: nat)
    requires Fresh(s) && n <= |ms|
    requires ExactPoints(ms, s.line)
    ensures EndsInnermost(s, ms[..n], After(s, ms, n))
  {
    if n != 0 {
      ExactLineFindsInnermost(s, ms, n - 1);
      if After(s, ms, n - 1).accepted == [] {
        NothingAccepted(s, ms, n - 1);
      }
      InnermostExtends(s, ms[..n - 1], ms[n - 1], After(s, ms, n - 1));
      assert ms[..n - 1] + [ms[n - 1]] == ms[..n];
    }
  }

  lemma NothingAccepted(s: Search, ms: seq<Method>, n: nat)
    requires Fresh(s) && n <= |ms| && After(s, ms, n).accepted == []
    ensures After(s, ms, n) == s
    ensures forall i :: 0 <= i < n ==> !Usable(ms[..n][i], s.line)
  {
    SearchInvariant(s, ms, n);
    FoundExactly(s, ms, n);
  }

  /** A method that the search accepts when it stands at this line, in a method starting at first. */
  predicate TakesOver(m: Method, first: nat, line: nat) {
    first < m.firstLine <= line <= m.lastLine && exists p :: p in m.points && !p.isHidden && p.startLine >= line
  }

  /** From method i on, nothing changes exactly when no method from there to n takes over. */
  lemma {:induction false} KeptExactly(s: Search, ms: seq<Method>, i: nat, n: nat)
    requires i <= n <= |ms|
    ensures var b, r := After(s, ms, i), After(s, ms, n);
            && (r == b <==> forall j :: i <= j < n ==> !TakesOver(ms[j], b.bestFirstLine, b.line))
            && (r != b ==> r.accepted != [] && r.accepted[|r.accepted| - 1] >= i)
    decreases n
  {
    if i < n {
      KeptExactly(s, ms, i, n - 1);
      ConsiderExactly(After(s, ms, n - 1), ms[n - 1], n - 1);
      var b, before, r := After(s, ms, i), After(s, ms, n - 1), After(s, ms, n);
      if before != b {
        AcceptedGrows(s, ms, i, n - 1);
        AcceptedGrows(s, ms, n - 1, n);
      }
    }
  }

  lemma ConsiderExactly(s: Search, m: Method, index: nat)
    ensures Consider(s, m, index) ==
            if TakesOver(m, s.bestFirstLine, s.line) then
              var p := m.points[FirstVisible(m.points, s.line)];
              Search(p.startLine, p.ilOffset, m.methodDef, m.firstLine, s.accepted + [index])
            else s
    ensures Consider(s, m, index) == s <==> !TakesOver(m, s.bestFirstLine, s.line)
  {
  }

  lemma {:induction false} AcceptedGrows(s: Search, ms: seq<Method>, i: nat, n: nat)
    requires i <= n <= |ms|
    ensures After(s, ms, i).accepted <= After(s, ms, n).accepted
    ensures After(s, ms, n) == After(s, ms, i) || |After(s, ms, i).accepted| < |After(s, ms, n).accepted|
    decreases n
  {
    if i < n {
      AcceptedGrows(s, ms, i, n - 1);
    }
  }

  /**
   * In any order, the search ends in the innermost method exactly when that takes over from the
   * methods listed before it, and no method listed after it takes over from it.
   */
  lemma InnermostChosenExactly(s: Search, ms: seq<Method>, i: nat)
    requires Fresh(s) && IsInnermost(ms, s.line, i)
    ensures var b, r := After(s, ms, i), After(s, ms, |ms|);
            && r.accepted != []
            && (r.accepted[|r.accepted| - 1] == i <==>
                && TakesOver(ms[i], b.bestFirstLine, b.line)
                && var line := ms[i].points[FirstVisible(ms[i].points, b.line)].startLine;
                   forall j :: i < j < |ms| ==> !TakesOver(ms[j], ms[i].firstLine, line))
  {
    FoundExactly(s, ms, |ms|);
    ConsiderExactly(After(s, ms, i), ms[i], i);
    KeptExactly(s, ms, i + 1, |ms|);
    LastAccepted(s, ms, i);
  }

  /** Method i is the last accepted so far exactly when it took over. */
  lemma LastAccepted(s: Search, ms: seq<Method>, i: nat)
    requires Fresh(s) && i < |ms|
    ensures var b, r := After(s, ms, i), After(s, ms, i + 1);
            r.accepted != [] && r.accepted[|r.accepted| - 1] == i <==> TakesOver(ms[i], b.bestFirstLine, b.line)
  {
    SearchInvariant(s, ms, i);
    ConsiderExactly(After(s, ms, i), ms[i], i);
  }

  /**
   * An outer method listed first can move the line past the end of the inner one, which is then
   * never considered.
   */
  lemma OuterFirstCanMissInner()
    ensures var outer := Method(1, 20, 1, [SequencePoint(0, 10, false)]);
            var inner := Method(7, 9, 2, [SequencePoint(0, 8, false)]);
            && IsInnermost([outer, inner], 8, 1)
            && After(Search(8, 0, 0, 0, []), [outer, inner], 2).accepted == [0]
  {
    var outer := Method(1, 20, 1, [SequencePoint(0, 10, false)]);
    var inner := Method(7, 9, 2, [SequencePoint(0, 8, false)]);
    assert After(Search(8, 0, 0, 0, []), [outer, inner], 1).line == 10;
  }

  /** It can also move the line into a method that does not contain the requested one. */
  lemma OuterFirstCanLeaveLine()
    ensures var outer := Method(1, 20, 1, [SequencePoint(0, 10, false)]);
            var later := Method(8, 12, 2, [SequencePoint(0, 11, false)]);
            && IsInnermost([outer, later], 5, 0) && !Usable(later, 5)
            && After(Search(5, 0, 0, 0, []), [outer, later], 2).accepted == [0, 1]
  {
    var outer := Method(1, 20, 1, [SequencePoint(0, 10, false)]);
    var later := Method(8, 12, 2, [SequencePoint(0, 11, false)]);
    assert After(Search(5, 0, 0, 0, []), [outer, later], 1).line == 10;
  }
}
