/**
 * The START/END framing of breakpoint messages (Constants.cs, BreakpointServer.cs and
 * breakpoint_client.cc): searching for a marker, the exact condition under which a payload
 * survives framing, and the two readers that reassemble frames from arbitrary reads.
 */
module Framing {
  import opened Wrappers

  /** "START_DEBUG_MESSAGE" and "END_DEBUG_MESSAGE" in ASCII. */
  const START: Bytes := [83, 84, 65, 82, 84, 95, 68, 69, 66, 85, 71, 95, 77, 69, 83, 83, 65, 71, 69]
  const END: Bytes := [69, 78, 68, 95, 68, 69, 66, 85, 71, 95, 77, 69, 83, 83, 65, 71, 69]

  // ---------------------------------------------------------------- searching

  predicate OccursAt(a: Bytes, s: Bytes, i: int) {
    0 <= i <= |a| - |s| && a[i..i + |s|] == s
  }

  /** i is the index of the first occurrence of s in a, or -1 when there is none. */
  ghost predicate IsFirstIndex(a: Bytes, s: Bytes, i: int) {
    && (i == -1 || OccursAt(a, s, i))
    && forall j :: OccursAt(a, s, j) ==> 0 <= i <= j
  }

  /** The first occurrence of s in a at or after position from, or -1. */
  function FindFrom(a: Bytes, s: Bytes, from: nat): (i: int)
    ensures i == -1 || (from <= i && OccursAt(a, s, i))
    ensures forall j :: from <= j && OccursAt(a, s, j) ==> 0 <= i <= j
    decreases |a| - from
  {
    if from + |s| > |a| then -1
    else if OccursAt(a, s, from) then from
    else if from == |a| then -1
    else FindFrom(a, s, from + 1)
  }

  function FirstIndex(a: Bytes, s: Bytes): (i: int)
    ensures IsFirstIndex(a, s, i)
  {
    FindFrom(a, s, 0)
  }

  lemma FirstIndexUnique(a: Bytes, s: Bytes, i: int)
    requires IsFirstIndex(a, s, i)
    ensures FirstIndex(a, s) == i
  {
  }

  method Match(bytes: Bytes, index: nat, sequence: Bytes) returns (matched: bool)
    requires index + |sequence| <= |bytes|
    ensures matched <==> OccursAt(bytes, sequence, index)
  {
    var i := 0;
    while i < |sequence|
      invariant 0 <= i <= |sequence|
      invariant bytes[index..index + i] == sequence[..i]
    {
      if bytes[i + index] != sequence[i] {
        assert bytes[index..index + |sequence|][i] != sequence[i];
        return false;
      }
      assert bytes[index..index + i + 1] == bytes[index..index + i] + [bytes[index + i]];
      i := i + 1;
    }
    return true;
  }

  /** The search of BreakpointServer.cs; it reads sequence[0], so the sequence is not empty. */
  method IndexOfSequence(bytes: Bytes, sequence: Bytes) returns (index: int)
    requires sequence != []
    ensures IsFirstIndex(bytes, sequence, index)
  {
    var i := 0;
    while i < |bytes| - |sequence| + 1
      invariant 0 <= i
      invariant forall j :: 0 <= j < i ==> !OccursAt(bytes, sequence, j)
    {
      if bytes[i] == sequence[0] {
        var matched := Match(bytes, i, sequence);
        if matched {
          return i;
        }
      } else {
        assert OccursAt(bytes, sequence, i) ==> bytes[i..i + |sequence|][0] == sequence[0];
      }
      i := i + 1;
    }
    return -1;
  }

  // ---------------------------------------------------------------- frame safety

  function Frame(payload: Bytes): Bytes {
    START + payload + END
  }

  /** Where the closing END of a frame begins. */
  function Closing(payload: Bytes): nat {
    |START| + |payload|
  }

  /**
   * A payload no reader can cut short: it does not contain END, and no END can be pieced
   * together from the last letter of START, the payload and the first letter of the closing END.
   */
  ghost predicate FrameSafe(payload: Bytes) {
    && FirstIndex(payload, END) == -1
    && !(END[1..] <= payload)
    && !EndsWith(payload, END[..|END| - 1])
    && payload != END[1..|END| - 1]
  }

  predicate EndsWith(a: Bytes, suffix: Bytes) {
    |suffix| <= |a| && a[|a| - |suffix|..] == suffix
  }

  /** s read at position i agrees with a, as far as a goes. */
  ghost predicate OverlapsAt(a: Bytes, s: Bytes, i: int) {
    0 <= i < |a| && forall k :: 0 <= k < |s| && i + k < |a| ==> a[i + k] == s[k]
  }

  /** The one suffix of a, short of a itself, that begins e is its last letter. */
  ghost predicate OverlapsInOneLetter(a: Bytes, e: Bytes) {
    forall i :: 0 < i ==> (OverlapsAt(a, e, i) <==> i == |a| - 1)
  }

  /** The last letter of START begins END, no other suffix does; and END's own border is one letter. */
  lemma MarkerOverlaps()
    ensures !OverlapsAt(START, END, 0)
    ensures OverlapsInOneLetter(START, END) && OverlapsInOneLetter(END, END)
  {
    forall i | 0 <= i < |START| - 1 ensures !OverlapsAt(START, END, i) {
      assert START[i] != END[0] || START[i + 1] != END[1];
    }
    forall i | 0 < i < |END| - 1 ensures !OverlapsAt(END, END, i) {
      assert END[i] != END[0] || END[i + 1] != END[1];
    }
  }

  lemma OccursLetters(a: Bytes, s: Bytes, i: int)
    requires 0 <= i <= |a| - |s|
    ensures OccursAt(a, s, i) <==> forall k :: 0 <= k < |s| ==> a[i + k] == s[k]
  {
    var window := a[i..i + |s|];
    assert forall k :: 0 <= k < |s| ==> window[k] == a[i + k];
  }

  /** An occurrence of e in s + p + e that begins inside s, when e overlaps s in one letter only. */
  lemma OccursFromStart(s: Bytes, p: Bytes, e: Bytes, i: int)
    requires |s| > 0 && |e| > 1
    requires !OverlapsAt(s, e, 0) && OverlapsInOneLetter(s, e) && OverlapsInOneLetter(e, e)
    requires OccursAt(s + p + e, e, i) && i < |s|
    ensures e[1..] <= p || p == e[1..|e| - 1]
  {
    var f := s + p + e;
    OccursLetters(f, e, i);
    assert OverlapsAt(s, e, i) by {
      assert forall k :: 0 <= k < |s| ==> f[k] == s[k];
    }
    forall k | 0 <= k < |p| && k + 1 < |e| ensures p[k] == e[k + 1] {
      assert f[|s| + k] == f[i + (k + 1)];
    }
    if |p| >= |e| - 1 {
      assert p[..|e| - 1] == e[1..];
    } else {
      assert OverlapsAt(e, e, |p| + 1) by {
        forall k | 0 <= k < |e| && |p| + 1 + k < |e| ensures e[|p| + 1 + k] == e[k] {
          assert f[i + (|p| + 1 + k)] == f[|s| + |p| + k];
        }
      }
      assert p == e[1..|e| - 1];
    }
  }

  /** An occurrence of e in p + e that begins inside p, when e overlaps itself in one letter only. */
  lemma OccursFromPayload(p: Bytes, e: Bytes, j: int)
    requires |e| > 1
    requires OverlapsInOneLetter(e, e)
    requires OccursAt(p + e, e, j) && j < |p|
    ensures OccursAt(p, e, j) || EndsWith(p, e[..|e| - 1])
  {
    var f := p + e;
    OccursLetters(f, e, j);
    if j + |e| <= |p| {
      assert p[j..j + |e|] == f[j..j + |e|];
    } else {
      var m := |p| - j;
      assert OverlapsAt(e, e, m) by {
        forall k | 0 <= k < |e| && m + k < |e| ensures e[m + k] == e[k] {
          assert f[j + (m + k)] == f[|p| + k];
        }
      }
      assert p[j..] == e[..|e| - 1] by {
        assert forall k :: 0 <= k < m ==> f[j + k] == p[j..][k];
      }
    }
  }

  /** An e that begins before the last one in s + p + e. */
  lemma EarlyOccurs(s: Bytes, p: Bytes, e: Bytes, i: int)
    requires |s| > 0 && |e| > 1
    requires !OverlapsAt(s, e, 0) && OverlapsInOneLetter(s, e) && OverlapsInOneLetter(e, e)
    requires OccursAt(s + p + e, e, i) && i < |s| + |p|
    ensures FirstIndex(p, e) != -1 || e[1..] <= p || EndsWith(p, e[..|e| - 1]) || p == e[1..|e| - 1]
  {
    if i < |s| {
      OccursFromStart(s, p, e, i);
    } else {
      var j := i - |s|;
      assert (p + e)[j..j + |e|] == (s + p + e)[i..i + |e|];
      OccursFromPayload(p, e, j);
    }
  }

  /** A payload that completes the last letter of s to an e, alone or with the first letter of e. */
  lemma OverlapOccurs(s: Bytes, p: Bytes, e: Bytes)
    requires |s| > 0 && |e| > 1 && s[|s| - 1] == e[0] == e[|e| - 1]
    requires e[1..] <= p || p == e[1..|e| - 1]
    ensures OccursAt(s + p + e, e, |s| - 1)
  {
    var f := s + p + e;
    var i := |s| - 1;
    if e[1..] <= p {
      assert f[i..i + |e|] == [e[0]] + e[1..];
    } else {
      assert e == [e[0]] + e[1..|e| - 1] + [e[|e| - 1]];
      assert f[i..i + |e|] == [e[0]] + p + [e[0]];
    }
  }

  /** A payload that ends with all of e but its last letter, which the next e supplies. */
  lemma TailOccurs(s: Bytes, p: Bytes, e: Bytes)
    requires |e| > 1 && e[0] == e[|e| - 1] && EndsWith(p, e[..|e| - 1])
    ensures OccursAt(s + p + e, e, |s| + |p| - (|e| - 1))
  {
    var f := s + p + e;
    var i := |s| + |p| - (|e| - 1);
    OccursLetters(f, e, i);
    forall k | 0 <= k < |e| ensures f[i + k] == e[k] {
      if k < |e| - 1 {
        assert f[i + k] == p[|p| - (|e| - 1)..][k];
      }
    }
  }

  /** Each violated clause makes an occurrence of e in s + p + e before the last one. */
  lemma UnsafeOccurs(s: Bytes, p: Bytes, e: Bytes) returns (i: int)
    requires |s| > 0 && |e| > 1 && s[|s| - 1] == e[0] == e[|e| - 1]
    requires FirstIndex(p, e) != -1 || e[1..] <= p || EndsWith(p, e[..|e| - 1]) || p == e[1..|e| - 1]
    ensures OccursAt(s + p + e, e, i) && |s| - 1 <= i < |s| + |p|
  {
    if FirstIndex(p, e) != -1 {
      var j := FirstIndex(p, e);
      i := |s| + j;
      assert (s + p + e)[i..i + |e|] == p[j..j + |e|];
    } else if EndsWith(p, e[..|e| - 1]) {
      i := |s| + |p| - (|e| - 1);
      TailOccurs(s, p, e);
    } else {
      i := |s| - 1;
      OverlapOccurs(s, p, e);
    }
  }

  /** The first END of a frame is the closing one if and only if the payload is frame-safe. */
  lemma FrameSafetyExact(p: Bytes)
    ensures FirstIndex(Frame(p), END) == Closing(p) <==> FrameSafe(p)
  {
    assert Frame(p)[Closing(p)..Closing(p) + |END|] == END;
    assert OccursAt(Frame(p), END, Closing(p));
    var i := FirstIndex(Frame(p), END);
    if i < Closing(p) {
      MarkerOverlaps();
      EarlyOccurs(START, p, END, i);
    }
    if !FrameSafe(p) {
      var j := UnsafeOccurs(START, p, END);
    }
  }

  // ---------------------------------------------------------------- the readers

  /**
   * The pipe, as the reads it will deliver. A read that finds nothing left stands for a failed
   * or cancelled read.
   */
  class Pipe {
    var chunks: seq<Bytes>

    constructor (chunks: seq<Bytes>)
      ensures this.chunks == chunks
    {
      this.chunks := chunks;
    }

    method Read() returns (r: Option<Bytes>)
      modifies this
      ensures old(chunks) == [] ==> r == None && chunks == []
      ensures old(chunks) != [] ==> r == Some(old(chunks)[0]) && chunks == old(chunks)[1..]
    {
      if chunks == [] {
        return None;
      }
      r := Some(chunks[0]);
      chunks := chunks[1..];
    }
  }

  /** What reading one breakpoint yields. */
  datatype ReadResult = Message(payload: Bytes) | ReadFailed | Invalid

  /** A reader between two calls: the bytes it kept and the reads still to come. */
  datatype Reader = Reader(buffer: Bytes, chunks: seq<Bytes>) {
    /** Everything not yet delivered. */
    function Unread(): Bytes {
      buffer + Flatten(chunks)
    }
  }

  /** Reads until the bytes gathered contain END; None when a read fails first. */
  function Fill(buffer: Bytes, chunks: seq<Bytes>): (r: (Option<Bytes>, seq<Bytes>))
    ensures r.0.Some? ==> FirstIndex(r.0.value, END) != -1
    ensures r.0.Some? ==> r.0.value + Flatten(r.1) == buffer + Flatten(chunks)
    decreases |chunks|
  {
    if FirstIndex(buffer, END) != -1 then (Some(buffer), chunks)
    else if chunks == [] then (None, [])
    else
      assert buffer + Flatten(chunks) == (buffer + chunks[0]) + Flatten(chunks[1..]);
      Fill(buffer + chunks[0], chunks[1..])
  }

  function After(b: Bytes, end: nat): Bytes
    requires OccursAt(b, END, end)
  {
    b[end + |END|..]
  }

  /** BreakpointServer.cs: a missing START or a negative length throws, dropping the buffer. */
  function AgentCut(b: Bytes): (ReadResult, Bytes)
    requires FirstIndex(b, END) != -1
  {
    var end, start := FirstIndex(b, END), FirstIndex(b, START);
    if start == -1 || end < start + |START| then (Invalid, [])
    else (Message(b[start + |START|..end]), After(b, end))
  }

  /**
   * std::string::substr. A length that went below zero wrapped to one no string reaches, and so
   * means "to the end"; a position beyond the end throws.
   */
  function Substr(b: Bytes, pos: nat, length: int): Option<Bytes> {
    if pos > |b| then None
    else if length < 0 || pos + length > |b| then Some(b[pos..])
    else Some(b[pos..pos + length])
  }

  /**
   * breakpoint_client.cc: the check for START tests the position of END, which is known to be
   * there, so a missing START is not noticed: npos + |START| wraps to |START| - 1.
   */
  function DebuggerCut(b: Bytes): (ReadResult, Bytes)
    requires FirstIndex(b, END) != -1
  {
    var end, start := FirstIndex(b, END), FirstIndex(b, START);
    match Substr(b, start + |START|, end - start - |START|)
    case None => (Invalid, [])
    case Some(payload) => (Message(payload), After(b, end))
  }

  function AgentRead(r: Reader): (ReadResult, Reader) {
    match Fill(r.buffer, r.chunks)
    case (None, chunks) => (ReadFailed, Reader([], chunks))
    case (Some(b), chunks) => var (result, rest) := AgentCut(b); (result, Reader(rest, chunks))
  }

  function DebuggerRead(r: Reader): (ReadResult, Reader) {
    match Fill(r.buffer, r.chunks)
    case (None, chunks) => (ReadFailed, Reader([], chunks))
    case (Some(b), chunks) => var (result, rest) := DebuggerCut(b); (result, Reader(rest, chunks))
  }

  /** The loop both readers begin with: read until END has arrived. */
  method ReadUntilEnd(pipe: Pipe, buffer: Bytes) returns (r: Option<Bytes>)
    modifies pipe
    ensures (r, pipe.chunks) == Fill(buffer, old(pipe.chunks))
  {
    var gathered := buffer;
    var endIndex := IndexOfSequence(gathered, END);
    FirstIndexUnique(gathered, END, endIndex);
    while endIndex == -1
      invariant endIndex == FirstIndex(gathered, END)
      invariant Fill(gathered, pipe.chunks) == Fill(buffer, old(pipe.chunks))
      decreases |pipe.chunks|, endIndex == -1
    {
      var bytes := pipe.Read();
      if bytes.None? {
        return None;
      }
      gathered := gathered + bytes.value;
      endIndex := IndexOfSequence(gathered, END);
      FirstIndexUnique(gathered, END, endIndex);
    }
    return Some(gathered);
  }

  /** The agent's end of the pipe. */
  class BreakpointServer {
    var buffer: Bytes

    constructor ()
      ensures buffer == []
    {
      buffer := [];
    }

    method ReadBreakpoint(pipe: Pipe) returns (r: ReadResult)
      modifies this, pipe
      ensures (r, Reader(buffer, pipe.chunks)) == AgentRead(old(Reader(buffer, pipe.chunks)))
      ensures !r.Message? ==> buffer == []
    {
      var previousBuffer := buffer;
      buffer := [];
      var filled := ReadUntilEnd(pipe, previousBuffer);
      if filled.None? {
        return ReadFailed;
      }
      var bytes := filled.value;
      var endIndex, startIndex := FirstIndex(bytes, END), FirstIndex(bytes, START);
      if startIndex == -1 || endIndex < startIndex + |START| {
        return Invalid;
      }
      buffer := bytes[endIndex + |END|..];
      return Message(bytes[startIndex + |START|..endIndex]);
    }
  }

  /** The debugger's end of the pipe. */
  class BreakpointClient {
    var buffer: Bytes

    constructor ()
      ensures buffer == []
    {
      buffer := [];
    }

    method ReadBreakpoint(pipe: Pipe) returns (r: ReadResult)
      modifies this, pipe
      ensures (r, Reader(buffer, pipe.chunks)) == DebuggerRead(old(Reader(buffer, pipe.chunks)))
      ensures !r.Message? ==> buffer == []
    {
      var previousBuffer := buffer;
      buffer := [];
      var filled := ReadUntilEnd(pipe, previousBuffer);
      if filled.None? {
        return ReadFailed;
      }
      var bytes := filled.value;
      var foundEnd, foundStart := FirstIndex(bytes, END), FirstIndex(bytes, START);
      var newStr := Substr(bytes, foundStart + |START|, foundEnd - foundStart - |START|);
      if newStr.None? {
        return Invalid;
      }
      buffer := bytes[foundEnd + |END|..];
      return Message(newStr.value);
    }
  }

  /**
   * The two ends agree on a buffer exactly when START precedes END, or is missing from a buffer
   * too short for substr; otherwise the debugger delivers bytes the agent would reject.
   */
  lemma ReadersAgreeExactly(b: Bytes)
    requires FirstIndex(b, END) != -1
    ensures AgentCut(b) == DebuggerCut(b) <==>
            var start := FirstIndex(b, START);
            if start == -1 then |b| < |START| - 1 else start + |START| <= FirstIndex(b, END)
  {
  }

  /** The first k reads, with what was kept, contain END. */
  ghost predicate Arrived(buffer: Bytes, chunks: seq<Bytes>, k: nat)
    requires k <= |chunks|
  {
    FirstIndex(buffer + Flatten(chunks[..k]), END) != -1
  }

  /** The loop stops after the first read with which END has arrived, or fails after all of them. */
  lemma {:induction false} FillExactly(buffer: Bytes, chunks: seq<Bytes>) returns (k: nat)
    ensures k <= |chunks| && forall j :: 0 <= j < k ==> !Arrived(buffer, chunks, j)
    ensures Fill(buffer, chunks) ==
            if Arrived(buffer, chunks, k) then (Some(buffer + Flatten(chunks[..k])), chunks[k..]) else (None, [])
    ensures !Arrived(buffer, chunks, k) ==> k == |chunks|
    decreases |chunks|
  {
    assert buffer + Flatten(chunks[..0]) == buffer && chunks[0..] == chunks;
    if Arrived(buffer, chunks, 0) || chunks == [] {
      k := 0;
    } else {
      var longer := buffer + chunks[0];
      forall j | 0 <= j < |chunks|
        ensures longer + Flatten(chunks[1..][..j]) == buffer + Flatten(chunks[..j + 1])
      {
        assert chunks[..j + 1][0] == chunks[0] && chunks[..j + 1][1..] == chunks[1..][..j];
        Assoc(buffer, chunks[0], Flatten(chunks[1..][..j]));
      }
      var k' := FillExactly(longer, chunks[1..]);
      k := k' + 1;
      assert chunks[1..][k'..] == chunks[k..];
      forall j | 0 <= j < k ensures !Arrived(buffer, chunks, j) {
        assert j > 0 ==> !Arrived(longer, chunks[1..], j - 1);
      }
    }
  }

  /** b consists of a frame of p, by its first START and first END, between junk and rest. */
  ghost predicate Framed(b: Bytes, junk: Bytes, p: Bytes, rest: Bytes) {
    && b == junk + Frame(p) + rest
    && FirstIndex(b, START) == |junk| && FirstIndex(b, END) == |junk| + Closing(p)
  }

  /** The agent accepts exactly a frame after junk, and otherwise keeps nothing. */
  lemma AgentCutExactly(b: Bytes, p: Bytes, rest: Bytes)
    requires FirstIndex(b, END) != -1
    ensures AgentCut(b) == (Message(p), rest) <==> exists junk :: Framed(b, junk, p, rest)
    ensures !AgentCut(b).0.Message? ==> AgentCut(b) == (Invalid, [])
  {
    if AgentCut(b) == (Message(p), rest) {
      AcceptedIsFramed(b);
    }
    if junk :| Framed(b, junk, p, rest) {
      FramedIsAccepted(b, junk, p, rest);
    }
  }

  lemma AcceptedIsFramed(b: Bytes)
    requires FirstIndex(b, END) != -1 && AgentCut(b).0.Message?
    ensures Framed(b, b[..FirstIndex(b, START)], AgentCut(b).0.payload, AgentCut(b).1)
  {
    Reassembled(b, FirstIndex(b, START), FirstIndex(b, END));
  }

  lemma FramedIsAccepted(b: Bytes, junk: Bytes, p: Bytes, rest: Bytes)
    requires Framed(b, junk, p, rest)
    ensures AgentCut(b) == (Message(p), rest)
  {
    FramedParts(b, junk, p, rest);
  }

  lemma Reassembled(b: Bytes, start: nat, end: nat)
    requires OccursAt(b, START, start) && OccursAt(b, END, end) && start + |START| <= end
    ensures b == b[..start] + Frame(b[start + |START|..end]) + b[end + |END|..]
  {
    var p := b[start + |START|..end];
    assert b[start..end + |END|] == b[start..start + |START|] + p + b[end..end + |END|];
    assert b == b[..start] + b[start..end + |END|] + b[end + |END|..];
  }

  lemma FramedParts(b: Bytes, junk: Bytes, p: Bytes, rest: Bytes)
    requires b == junk + Frame(p) + rest
    ensures b[|junk| + |START|..|junk| + Closing(p)] == p
    ensures b[|junk| + Closing(p) + |END|..] == rest
  {
  }

  /** The debugger accepts the same frames, and delivers what it finds when START is late or missing. */
  lemma DebuggerCutExactly(b: Bytes)
    requires FirstIndex(b, END) != -1
    ensures var end, start := FirstIndex(b, END), FirstIndex(b, START);
            && (0 <= start && start + |START| <= end ==> DebuggerCut(b) == AgentCut(b))
            && (0 <= start && end < start + |START| ==>
                  DebuggerCut(b) == (Message(b[start + |START|..]), b[end + |END|..]))
            && (start == -1 ==>
                  DebuggerCut(b) ==
                  if |b| < 18 then (Invalid, [])
                  else (Message(if end < 18 then b[18..] else b[18..end]), b[end + |END|..]))
  {
  }

  // ---------------------------------------------------------------- round trip

  /** The bytes written for a list of payloads. */
  function Frames(payloads: seq<Bytes>): Bytes {
    if payloads == [] then [] else Frame(payloads[0]) + Frames(payloads[1..])
  }

  lemma {:induction false} FramesAppend(ps: seq<Bytes>, qs: seq<Bytes>)
    ensures Frames(ps + qs) == Frames(ps) + Frames(qs)
  {
    if ps == [] {
      assert ps + qs == qs;
    } else {
      assert (ps + qs)[1..] == ps[1..] + qs;
      FramesAppend(ps[1..], qs);
    }
  }

  lemma OccursInPrefix(b: Bytes, whole: Bytes, s: Bytes, i: int)
    requires b <= whole && i + |s| <= |b|
    ensures OccursAt(b, s, i) <==> OccursAt(whole, s, i)
  {
    if 0 <= i {
      assert b[i..i + |s|] == whole[i..i + |s|];
    }
  }

  /** However much of a stream has arrived, its first END closes the first safe frame. */
  lemma FirstEndOfStream(p: Bytes, tail: Bytes, b: Bytes)
    requires FrameSafe(p) && b <= Frame(p) + tail
    ensures FirstIndex(b, END) == if |b| < |Frame(p)| then -1 else Closing(p)
  {
    var stream := Frame(p) + tail;
    FrameSafetyExact(p);
    forall i | 0 <= i < Closing(p) ensures !OccursAt(b, END, i) {
      if OccursAt(b, END, i) {
        OccursInPrefix(b, stream, END, i);
        OccursInPrefix(Frame(p), stream, END, i);
      }
    }
    if |Frame(p)| <= |b| {
      OccursInPrefix(b, stream, END, Closing(p));
      OccursInPrefix(Frame(p), stream, END, Closing(p));
    }
  }

  lemma StartIsFirst(b: Bytes)
    requires START <= b
    ensures FirstIndex(b, START) == 0
  {
    assert OccursAt(b, START, 0);
  }

  /** Once a whole safe frame is there, both readers cut exactly that frame off. */
  lemma CutFrame(p: Bytes, b: Bytes, tail: Bytes)
    requires FrameSafe(p) && b == Frame(p) + tail
    ensures FirstIndex(b, END) != -1
    ensures AgentCut(b) == DebuggerCut(b) == (Message(p), tail)
  {
    FirstEndOfStream(p, tail, b);
    assert b[..|START|] == START;
    StartIsFirst(b);
    assert b[|START|..Closing(p)] == p;
    assert b[Closing(p) + |END|..] == tail;
  }

  lemma {:induction false} FillReachesFrame(p: Bytes, tail: Bytes, buffer: Bytes, chunks: seq<Bytes>)
    requires FrameSafe(p) && buffer + Flatten(chunks) == Frame(p) + tail
    ensures var (b, rest) := Fill(buffer, chunks);
            b.Some? && Frame(p) <= b.value && b.value + Flatten(rest) == Frame(p) + tail
    decreases |chunks|
  {
    var stream := Frame(p) + tail;
    assert buffer == stream[..|buffer|];
    FirstEndOfStream(p, tail, buffer);
    if FirstIndex(buffer, END) == -1 {
      assert chunks == [] ==> buffer + Flatten(chunks) == buffer;
      assert buffer + Flatten(chunks) == (buffer + chunks[0]) + Flatten(chunks[1..]);
      FillReachesFrame(p, tail, buffer + chunks[0], chunks[1..]);
    } else {
      assert Frame(p) == stream[..|Frame(p)|];
    }
  }

  lemma DropPrefix(a: Bytes, b: Bytes, c: Bytes, d: Bytes)
    requires a + b + c == a + d
    ensures b + c == d
  {
    assert a + b + c == a + (b + c);
    assert b + c == (a + (b + c))[|a|..] && d == (a + d)[|a|..];
  }

  /**
   * Whatever the reads, the next read delivers the first payload, and what is delivered, kept
   * and unread still make up the stream.
   */
  lemma ReadDeliversFirst(p: Bytes, tail: Bytes, r: Reader)
    requires FrameSafe(p) && r.Unread() == Frame(p) + tail
    ensures AgentRead(r) == DebuggerRead(r)
    ensures DebuggerRead(r).0 == Message(p)
    ensures DebuggerRead(r).1.Unread() == tail
  {
    FillReachesFrame(p, tail, r.buffer, r.chunks);
    var (b, rest) := Fill(r.buffer, r.chunks);
    var kept := b.value[|Frame(p)|..];
    assert b.value == Frame(p) + kept;
    CutFrame(p, b.value, kept);
    DropPrefix(Frame(p), kept, Flatten(rest), tail);
  }

  /** With an unsafe payload the first END, wherever it is found, leaves more than the other frames. */
  lemma UnsafeLeavesBytes(p: Bytes, tail: Bytes, b: Bytes, rest: Bytes)
    requires !FrameSafe(p) && b + rest == Frame(p) + tail && FirstIndex(b, END) != -1
    ensures After(b, FirstIndex(b, END)) + rest != tail
  {
    var early := UnsafeOccurs(START, p, END);
    var end, stream := FirstIndex(b, END), Frame(p) + tail;
    assert b == stream[..|b|];
    if Closing(p) <= end {
      OccursInPrefix(Frame(p), stream, END, early);
      OccursInPrefix(b, stream, END, early);
    }
    assert |After(b, end) + rest| == |stream| - end - |END|;
  }

  /**
   * Under a given chunking the first of the frames in a stream is read back whole, leaving the
   * others, exactly when its payload is frame-safe; this holds at both ends.
   */
  lemma FirstFrameExact(p: Bytes, tail: Bytes, r: Reader)
    requires r.Unread() == Frame(p) + tail
    ensures FrameSafe(p) <==> AgentRead(r).0 == Message(p) && AgentRead(r).1.Unread() == tail
    ensures FrameSafe(p) <==> DebuggerRead(r).0 == Message(p) && DebuggerRead(r).1.Unread() == tail
  {
    if FrameSafe(p) {
      ReadDeliversFirst(p, tail, r);
    } else {
      var (b, rest) := Fill(r.buffer, r.chunks);
      if b.Some? {
        UnsafeLeavesBytes(p, tail, b.value, Flatten(rest));
      }
    }
  }

  /** What n reads at one end of the pipe yield, and the reader after them. */
  function ReadMany(read: Reader -> (ReadResult, Reader), n: nat, r: Reader): (seq<ReadResult>, Reader) {
    if n == 0 then ([], r)
    else
      var (first, r1) := read(r);
      var (others, r2) := ReadMany(read, n - 1, r1);
      ([first] + others, r2)
  }

  function Messages(ps: seq<Bytes>): seq<ReadResult> {
    seq(|ps|, i requires 0 <= i < |ps| => Message(ps[i]))
  }

  /** The first n reads deliver the first n payloads, and what is kept and unread are the other frames. */
  ghost predicate Delivers(read: Reader -> (ReadResult, Reader), ps: seq<Bytes>, r: Reader, n: nat)
    requires n <= |ps|
  {
    && ReadMany(read, n, r).0 == Messages(ps[..n])
    && ReadMany(read, n, r).1.Unread() == Frames(ps[n..])
  }

  lemma DeliversFirst(read: Reader -> (ReadResult, Reader), ps: seq<Bytes>, r: Reader, n: nat)
    requires 0 < n <= |ps| && read(r).0 == Message(ps[0])
    ensures Delivers(read, ps, r, n) <==> Delivers(read, ps[1..], read(r).1, n - 1)
  {
    var others := ReadMany(read, n - 1, read(r).1).0;
    assert Messages(ps[..n]) == [Message(ps[0])] + Messages(ps[1..][..n - 1]);
    assert ([Message(ps[0])] + others)[1..] == others;
    assert ([Message(ps[0])] + Messages(ps[1..][..n - 1]))[1..] == Messages(ps[1..][..n - 1]);
    assert ps[1..][n - 1..] == ps[n..];
  }

  /** Framing round trip under any chunking, at both ends, for any number of reads. */
  lemma {:induction false} FramingRoundTrip(ps: seq<Bytes>, r: Reader, n: nat)
    requires forall p :: p in ps ==> FrameSafe(p)
    requires r.Unread() == Frames(ps) && n <= |ps|
    ensures Delivers(AgentRead, ps, r, n) && Delivers(DebuggerRead, ps, r, n)
    ensures ReadMany(AgentRead, n, r) == ReadMany(DebuggerRead, n, r)
    decreases n
  {
    if n == 0 {
      assert ps[0..] == ps;
    } else {
      ReadDeliversFirst(ps[0], Frames(ps[1..]), r);
      FramingRoundTrip(ps[1..], DebuggerRead(r).1, n - 1);
      DeliversFirst(AgentRead, ps, r, n);
      DeliversFirst(DebuggerRead, ps, r, n);
    }
  }

  ghost predicate DeliversAll(read: Reader -> (ReadResult, Reader), ps: seq<Bytes>, r: Reader) {
    forall n :: 0 <= n <= |ps| ==> Delivers(read, ps, r, n)
  }

  lemma {:induction false} OnlySafeDelivered(read: Reader -> (ReadResult, Reader), ps: seq<Bytes>, r: Reader)
    requires read == AgentRead || read == DebuggerRead
    requires r.Unread() == Frames(ps) && DeliversAll(read, ps, r)
    ensures forall p :: p in ps ==> FrameSafe(p)
    decreases |ps|
  {
    if ps != [] {
      assert Delivers(read, ps, r, 1);
      FirstDelivered(read, ps, r);
      FirstFrameExact(ps[0], Frames(ps[1..]), r);
      forall n | 0 <= n <= |ps[1..]| ensures Delivers(read, ps[1..], read(r).1, n) {
        assert Delivers(read, ps, r, n + 1);
        DeliversFirst(read, ps, r, n + 1);
      }
      OnlySafeDelivered(read, ps[1..], read(r).1);
    }
  }

  lemma FirstDelivered(read: Reader -> (ReadResult, Reader), ps: seq<Bytes>, r: Reader)
    requires ps != [] && Delivers(read, ps, r, 1)
    ensures read(r).0 == Message(ps[0]) && read(r).1.Unread() == Frames(ps[1..])
  {
    assert ReadMany(read, 1, r).0[0] == read(r).0;
    assert Messages(ps[..1])[0] == Message(ps[0]);
    assert ReadMany(read, 0, read(r).1).1 == read(r).1;
  }

  /**
   * Exact framing: under a given chunking every number of reads delivers its payloads and
   * conserves the stream, at either end, if and only if every payload is frame-safe.
   */
  lemma FramingExact(read: Reader -> (ReadResult, Reader), ps: seq<Bytes>, r: Reader)
    requires read == AgentRead || read == DebuggerRead
    requires r.Unread() == Frames(ps)
    ensures DeliversAll(read, ps, r) <==> forall p :: p in ps ==> FrameSafe(p)
  {
    if DeliversAll(read, ps, r) {
      OnlySafeDelivered(read, ps, r);
    }
    if forall p :: p in ps ==> FrameSafe(p) {
      forall n | 0 <= n <= |ps| ensures Delivers(read, ps, r, n) {
        FramingRoundTrip(ps, r, n);
      }
    }
  }
}
