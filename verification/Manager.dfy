/**
 * The agent's side of breakpoint synchronisation: diffing server snapshots
 * (BreakpointManager.cs) and sending the difference (BreakpointWriteActionServer.cs).
 */
module Agent {
  import opened Wrappers
  import Framing
  import NamedPipes

  type int32 = n: int | -0x8000_0000 <= n < 0x8000_0000

  /** A breakpoint as the debugger API lists it. */
  datatype ServerBreakpoint = ServerBreakpoint(id: string, path: string, line: int32)

  /** A breakpoint as it travels between agent and debugger. */
  datatype Message = Message(id: string, path: string, line: int32, activated: bool, killServer: bool)

  type Dictionary = map<string, ServerBreakpoint>

  function Convert(b: ServerBreakpoint): Message {
    Message(b.id, b.path, b.line, true, false)
  }

  function Deactivation(b: ServerBreakpoint): Message {
    Convert(b).(activated := false)
  }

  // ---------------------------------------------------------------- the diff

  function Ids(bs: seq<ServerBreakpoint>): set<string> {
    set b | b in bs :: b.id
  }

  ghost predicate WellKeyed(d: Dictionary) {
    forall id :: id in d ==> d[id].id == id
  }

  /** bs lists the values of d, each once, in some order. */
  ghost predicate Lists(bs: seq<ServerBreakpoint>, d: Dictionary) {
    && DistinctIds(bs)
    && (forall b :: b in bs ==> b.id in d && d[b.id] == b)
    && Ids(bs) == d.Keys
  }

  ghost predicate DistinctIds(bs: seq<ServerBreakpoint>) {
    forall i, j :: 0 <= i < j < |bs| ==> bs[i].id != bs[j].id
  }

  /** The first breakpoint of each id in a snapshot. */
  function FirstById(active: seq<ServerBreakpoint>): (d: Dictionary)
    ensures WellKeyed(d) && d.Keys == Ids(active)
  {
    if active == [] then map[]
    else
      var last := active[|active| - 1];
      var d := FirstById(active[..|active| - 1]);
      assert active == active[..|active| - 1] + [last];
      if last.id in d then d else d[last.id := last]
  }

  /** The dictionary after a snapshot: its ids, each with the breakpoint first stored for it. */
  function Updated(d: Dictionary, active: seq<ServerBreakpoint>): Dictionary {
    var first := FirstById(active);
    map id | id in first :: if id in d then d[id] else first[id]
  }

  function New(d: Dictionary, active: seq<ServerBreakpoint>): Dictionary {
    FirstById(active) - d.Keys
  }

  function Removed(d: Dictionary, active: seq<ServerBreakpoint>): Dictionary {
    d - Ids(active)
  }

  function Only(d: Dictionary, ids: set<string>): Dictionary {
    map id | id in d && id in ids :: d[id]
  }

  lemma IdsAppend(bs: seq<ServerBreakpoint>, i: nat)
    requires i < |bs|
    ensures bs[..i + 1] == bs[..i] + [bs[i]]
    ensures Ids(bs[..i + 1]) == Ids(bs[..i]) + {bs[i].id}
  {
    assert bs[..i + 1] == bs[..i] + [bs[i]];
    assert forall b :: b in bs[..i + 1] <==> b in bs[..i] || b == bs[i];
  }

  lemma ListsAppend(bs: seq<ServerBreakpoint>, d: Dictionary, b: ServerBreakpoint)
    requires Lists(bs, d) && b.id !in d
    ensures Lists(bs + [b], d[b.id := b])
  {
    IdsAppend(bs + [b], |bs|);
    assert (bs + [b])[..|bs|] == bs && (bs + [b])[..|bs| + 1] == bs + [b];
  }

  lemma StoreFirst(d: Dictionary, new_: Dictionary, ids: set<string>, b: ServerBreakpoint)
    requires b.id in new_ && new_[b.id] == b
    ensures d[b.id := b] + Only(new_, ids) == d + Only(new_, {b.id} + ids)
  {
  }

  /** Storing one more listed breakpoint. */
  lemma StoreNext(d: Dictionary, new_: Dictionary, bs: seq<ServerBreakpoint>, i: nat)
    requires i < |bs| && Lists(bs, new_)
    ensures d + Only(new_, Ids(bs[..i + 1])) == (d + Only(new_, Ids(bs[..i])))[bs[i].id := bs[i]]
  {
    IdsAppend(bs, i);
    assert bs[i] in bs;
  }

  lemma StoredAll(d: Dictionary, new_: Dictionary, bs: seq<ServerBreakpoint>)
    requires Lists(bs, new_)
    ensures d + Only(new_, Ids(bs[..|bs|])) == d + new_
  {
    assert bs[..|bs|] == bs;
    assert Only(new_, Ids(bs)) == new_;
  }

  /** Storing what only the second map has and dropping what only the first has, in either order. */
  lemma MergeByParts(d: Dictionary, first: Dictionary, merged: Dictionary)
    requires merged == map id | id in first :: if id in d then d[id] else first[id]
    ensures (d + (first - d.Keys)) - first.Keys == d - first.Keys
    ensures (d + (first - d.Keys)) - (d.Keys - first.Keys) == merged
    ensures (d - (d.Keys - first.Keys)) + (first - d.Keys) == merged
  {
  }

  /** An enumeration of a Dictionary's values; its order is unspecified. */
  method Enumerate(d: Dictionary) returns (bs: seq<ServerBreakpoint>)
    requires WellKeyed(d)
    ensures Lists(bs, d)
  {
    bs := [];
    var rest := d.Keys;
    while rest != {}
      invariant rest <= d.Keys
      invariant Lists(bs, d - rest)
      decreases rest
    {
      var id :| id in rest;
      ListsAppend(bs, d - rest, d[id]);
      assert (d - rest)[id := d[id]] == d - (rest - {id});
      bs := bs + [d[id]];
      rest := rest - {id};
    }
    assert d - rest == d;
  }

  class BreakpointManager {
    var breakpointDictionary: Dictionary

    constructor ()
      ensures breakpointDictionary == map[]
    {
      breakpointDictionary := map[];
    }

    method UpdateBreakpoints(active: seq<ServerBreakpoint>)
      returns (added: seq<ServerBreakpoint>, removed: seq<ServerBreakpoint>)
      requires WellKeyed(breakpointDictionary)
      modifies this
      ensures WellKeyed(breakpointDictionary)
      ensures breakpointDictionary == Updated(old(breakpointDictionary), active)
      ensures Lists(added, New(old(breakpointDictionary), active))
      ensures Lists(removed, Removed(old(breakpointDictionary), active))
    {
      ghost var d := breakpointDictionary;
      var identifiersToBreakpoint := IndexById(active);
      added := Enumerate(identifiersToBreakpoint - breakpointDictionary.Keys);
      StoreAll(added, New(d, active));
      MergeByParts(d, FirstById(active), Updated(d, active));
      removed := Enumerate(breakpointDictionary - identifiersToBreakpoint.Keys);
      DropAll(removed);
    }

    method StoreAll(bs: seq<ServerBreakpoint>, ghost new_: Dictionary)
      requires Lists(bs, new_)
      modifies this
      ensures breakpointDictionary == old(breakpointDictionary) + new_
    {
      ghost var d := breakpointDictionary;
      for i := 0 to |bs|
        invariant breakpointDictionary == d + Only(new_, Ids(bs[..i]))
      {
        StoreNext(d, new_, bs, i);
        breakpointDictionary := breakpointDictionary[bs[i].id := bs[i]];
      }
      StoredAll(d, new_, bs);
    }

    method DropAll(bs: seq<ServerBreakpoint>)
      modifies this
      ensures breakpointDictionary == old(breakpointDictionary) - Ids(bs)
    {
      ghost var d := breakpointDictionary;
      for i := 0 to |bs|
        invariant breakpointDictionary == d - Ids(bs[..i])
      {
        IdsAppend(bs, i);
        breakpointDictionary := breakpointDictionary - {bs[i].id};
      }
      assert bs[..|bs|] == bs;
    }
  }

  /** Indexes a snapshot by id; a repeated id keeps its first breakpoint. */
  method IndexById(active: seq<ServerBreakpoint>) returns (d: Dictionary)
    ensures d == FirstById(active)
  {
    d := map[];
    for i := 0 to |active|
      invariant d == FirstById(active[..i])
    {
      assert active[..i + 1][..i] == active[..i];
      if active[i].id !in d {
        d := d[active[i].id := active[i]];
      }
    }
    assert active[..|active|] == active;
  }

  // ---------------------------------------------------------------- what the diff means

  /** The entry FirstById keeps for an id is the first one listed with it. */
  lemma {:induction false} FirstByIdIsFirst(active: seq<ServerBreakpoint>, i: nat)
    requires i < |active| && forall j :: 0 <= j < i ==> active[j].id != active[i].id
    ensures active[i].id in FirstById(active) && FirstById(active)[active[i].id] == active[i]
  {
    var n := |active| - 1;
    if i < n {
      FirstByIdIsFirst(active[..n], i);
    } else {
      assert active[i].id !in Ids(active[..n]);
    }
  }

  /** An id that was not stored before is stored with the first breakpoint listed for it. */
  lemma NewIdStored(d: Dictionary, active: seq<ServerBreakpoint>, i: nat)
    requires i < |active| && active[i].id !in d
    requires forall j :: 0 <= j < i ==> active[j].id != active[i].id
    ensures active[i].id in Updated(d, active) && Updated(d, active)[active[i].id] == active[i]
  {
    FirstByIdIsFirst(active, i);
  }

  /** A snapshot diff, replayed over the old ids, gives the new ones. */
  lemma SnapshotDiff(d: Dictionary, active: seq<ServerBreakpoint>,
                     added: seq<ServerBreakpoint>, removed: seq<ServerBreakpoint>)
    requires Lists(added, New(d, active)) && Lists(removed, Removed(d, active))
    ensures Updated(d, active).Keys == Ids(active)
    ensures Ids(added) !! Ids(removed) && Ids(added) !! d.Keys && Ids(removed) <= d.Keys
    ensures (d.Keys - Ids(removed)) + Ids(added) == Updated(d, active).Keys
    ensures forall id :: id in d && id in Ids(active) ==> Updated(d, active)[id] == d[id]
  {
  }

  // ---------------------------------------------------------------- the messages

  /** Removals first, then additions. */
  function MessagesFor(removed: seq<ServerBreakpoint>, added: seq<ServerBreakpoint>): seq<Message> {
    Deactivations(removed) + Additions(added)
  }

  function Deactivations(bs: seq<ServerBreakpoint>): seq<Message> {
    seq(|bs|, i requires 0 <= i < |bs| => Deactivation(bs[i]))
  }

  function Additions(bs: seq<ServerBreakpoint>): seq<Message> {
    seq(|bs|, i requires 0 <= i < |bs| => Convert(bs[i]))
  }

  /** Every removal, deactivated, in the order listed, comes before every addition, activated. */
  lemma MessagesInOrder(removed: seq<ServerBreakpoint>, added: seq<ServerBreakpoint>)
    ensures var ms := MessagesFor(removed, added);
            && |ms| == |removed| + |added|
            && (forall i :: 0 <= i < |removed| ==>
                  ms[i] == Message(removed[i].id, removed[i].path, removed[i].line, false, false))
            && (forall i :: 0 <= i < |added| ==>
                  ms[|removed| + i] == Message(added[i].id, added[i].path, added[i].line, true, false))
  {
  }

  function Payloads(encode: Message -> Bytes, ms: seq<Message>): seq<Bytes> {
    seq(|ms|, i requires 0 <= i < |ms| => encode(ms[i]))
  }

  lemma PayloadsAppend(encode: Message -> Bytes, xs: seq<Message>, ys: seq<Message>)
    ensures Payloads(encode, xs + ys) == Payloads(encode, xs) + Payloads(encode, ys)
  {
  }

  /** The bytes of a list of messages, after what was sent before. */
  function Sent(encode: Message -> Bytes, before: Bytes, ms: seq<Message>): Bytes {
    before + Framing.Frames(Payloads(encode, ms))
  }

  lemma SentAppend(encode: Message -> Bytes, before: Bytes, xs: seq<Message>, ys: seq<Message>)
    ensures Sent(encode, before, xs + ys) == Sent(encode, Sent(encode, before, xs), ys)
  {
    PayloadsAppend(encode, xs, ys);
    Framing.FramesAppend(Payloads(encode, xs), Payloads(encode, ys));
  }

  lemma FrameOfMessage(encode: Message -> Bytes, m: Message)
    ensures Framing.Frames(Payloads(encode, [m])) == Framing.Frame(encode(m))
  {
    assert Payloads(encode, [m]) == [encode(m)];
  }

  class BreakpointWriteActionServer {
    const manager: BreakpointManager
    const pipe: NamedPipes.PipeStream

    constructor (manager: BreakpointManager, pipe: NamedPipes.PipeStream)
      ensures this.manager == manager && this.pipe == pipe
    {
      this.manager := manager;
      this.pipe := pipe;
    }

    /** One turn of the action loop; None is the API reporting no change. */
    method MainAction(serverBreakpoints: Option<seq<ServerBreakpoint>>, encode: Message -> Bytes)
      returns (ghost added: seq<ServerBreakpoint>, ghost removed: seq<ServerBreakpoint>)
      requires WellKeyed(manager.breakpointDictionary)
      modifies manager, pipe
      ensures WellKeyed(manager.breakpointDictionary)
      ensures serverBreakpoints.None? ==>
                unchanged(manager) && unchanged(pipe) && added == removed == []
      ensures serverBreakpoints.Some? ==>
                && manager.breakpointDictionary == Updated(old(manager.breakpointDictionary), serverBreakpoints.value)
                && Lists(added, New(old(manager.breakpointDictionary), serverBreakpoints.value))
                && Lists(removed, Removed(old(manager.breakpointDictionary), serverBreakpoints.value))
      ensures Flatten(pipe.written) == Sent(encode, old(Flatten(pipe.written)), MessagesFor(removed, added))
    {
      added, removed := [], [];
      if serverBreakpoints.None? {
        assert MessagesFor([], []) == [];
        return;
      }
      var new_, gone := manager.UpdateBreakpoints(serverBreakpoints.value);
      added, removed := new_, gone;
      WriteDifference(gone, new_, encode);
    }

    method WriteDifference(gone: seq<ServerBreakpoint>, new_: seq<ServerBreakpoint>, encode: Message -> Bytes)
      modifies pipe
      ensures Flatten(pipe.written) == Sent(encode, old(Flatten(pipe.written)), MessagesFor(gone, new_))
    {
      ghost var before := Flatten(pipe.written);
      WriteRemoved(gone, encode);
      WriteNew(new_, encode);
      SentAppend(encode, before, Deactivations(gone), Additions(new_));
    }

    method WriteRemoved(gone: seq<ServerBreakpoint>, encode: Message -> Bytes)
      modifies pipe
      ensures Flatten(pipe.written) == Sent(encode, old(Flatten(pipe.written)), Deactivations(gone))
    {
      ghost var before := Flatten(pipe.written);
      for i := 0 to |gone|
        invariant Flatten(pipe.written) == Sent(encode, before, Deactivations(gone[..i]))
      {
        assert Deactivations(gone[..i + 1]) == Deactivations(gone[..i]) + [Deactivation(gone[i])];
        WriteNext(encode, Deactivations(gone[..i]), Deactivation(gone[i]), before);
      }
      assert gone[..|gone|] == gone;
    }

    method WriteNew(new_: seq<ServerBreakpoint>, encode: Message -> Bytes)
      modifies pipe
      ensures Flatten(pipe.written) == Sent(encode, old(Flatten(pipe.written)), Additions(new_))
    {
      ghost var before := Flatten(pipe.written);
      for i := 0 to |new_|
        invariant Flatten(pipe.written) == Sent(encode, before, Additions(new_[..i]))
      {
        assert Additions(new_[..i + 1]) == Additions(new_[..i]) + [Convert(new_[i])];
        WriteNext(encode, Additions(new_[..i]), Convert(new_[i]), before);
      }
      assert new_[..|new_|] == new_;
    }

    method WriteNext(encode: Message -> Bytes, ghost sent: seq<Message>, m: Message, ghost before: Bytes)
      requires Flatten(pipe.written) == Sent(encode, before, sent)
      modifies pipe
      ensures Flatten(pipe.written) == Sent(encode, before, sent + [m])
    {
      NamedPipes.WriteBreakpointAsync(pipe, encode(m));
      SentAppend(encode, before, sent, [m]);
      FrameOfMessage(encode, m);
    }
  }

  // ---------------------------------------------------------------- replaying messages

  function Stored(m: Message): ServerBreakpoint {
    ServerBreakpoint(m.id, m.path, m.line)
  }

  /** What one message says about the breakpoints that are set. */
  function Effect(d: Dictionary, m: Message): Dictionary {
    if m.activated then d[m.id := Stored(m)] else d - {m.id}
  }

  function Replay(d: Dictionary, ms: seq<Message>): Dictionary
    decreases |ms|
  {
    if ms == [] then d else Replay(Effect(d, ms[0]), ms[1..])
  }

  /** An addition is of a new id; a removal names the very breakpoint that was added. */
  ghost predicate Fits(d: Dictionary, m: Message) {
    && !m.killServer
    && (if m.activated then m.id !in d else m.id in d && d[m.id] == Stored(m))
  }

  ghost predicate AllFit(d: Dictionary, ms: seq<Message>)
    decreases |ms|
  {
    ms == [] || (Fits(d, ms[0]) && AllFit(Effect(d, ms[0]), ms[1..]))
  }

  lemma {:induction false} ReplayAppend(d: Dictionary, xs: seq<Message>, ys: seq<Message>)
    ensures Replay(d, xs + ys) == Replay(Replay(d, xs), ys)
    ensures AllFit(d, xs + ys) <==> AllFit(d, xs) && AllFit(Replay(d, xs), ys)
    decreases |xs|
  {
    if xs == [] {
      assert xs + ys == ys;
    } else {
      assert (xs + ys)[1..] == xs[1..] + ys;
      ReplayAppend(Effect(d, xs[0]), xs[1..], ys);
    }
  }

  lemma IdsHead(bs: seq<ServerBreakpoint>)
    requires bs != [] && DistinctIds(bs)
    ensures Ids(bs) == {bs[0].id} + Ids(bs[1..]) && bs[0].id !in Ids(bs[1..])
    ensures DistinctIds(bs[1..]) && forall b :: b in bs[1..] ==> b in bs && b.id != bs[0].id
  {
    assert bs == [bs[0]] + bs[1..];
  }

  lemma {:induction false} ReplayRemovals(d: Dictionary, bs: seq<ServerBreakpoint>)
    requires DistinctIds(bs) && forall b :: b in bs ==> b.id in d && d[b.id] == b
    ensures Replay(d, Deactivations(bs)) == d - Ids(bs)
    ensures AllFit(d, Deactivations(bs))
    decreases |bs|
  {
    if bs == [] {
      assert Deactivations(bs) == [];
    } else {
      IdsHead(bs);
      var m := Deactivation(bs[0]);
      assert bs[0] in bs && Stored(m) == bs[0];
      ReplayRemovals(Effect(d, m), bs[1..]);
      assert Deactivations(bs)[0] == m && Deactivations(bs)[1..] == Deactivations(bs[1..]);
    }
  }

  lemma {:induction false} ReplayAdditions(d: Dictionary, bs: seq<ServerBreakpoint>, new_: Dictionary)
    requires DistinctIds(bs) && forall b :: b in bs ==> b.id !in d && b.id in new_ && new_[b.id] == b
    ensures Replay(d, Additions(bs)) == d + Only(new_, Ids(bs))
    ensures AllFit(d, Additions(bs))
    decreases |bs|
  {
    if bs == [] {
      assert Additions(bs) == [];
    } else {
      IdsHead(bs);
      var m := Convert(bs[0]);
      assert bs[0] in bs && Stored(m) == bs[0];
      ReplayAdditions(Effect(d, m), bs[1..], new_);
      StoreFirst(d, new_, Ids(bs[1..]), bs[0]);
      assert Additions(bs)[0] == m && Additions(bs)[1..] == Additions(bs[1..]);
    }
  }

  /** The messages sent for a snapshot carry the old dictionary to the new one. */
  lemma MessagesReplayDiff(d: Dictionary, active: seq<ServerBreakpoint>,
                           added: seq<ServerBreakpoint>, removed: seq<ServerBreakpoint>)
    requires Lists(added, New(d, active)) && Lists(removed, Removed(d, active))
    ensures AllFit(d, MessagesFor(removed, added))
    ensures Replay(d, MessagesFor(removed, added)) == Updated(d, active)
  {
    ReplayRemovals(d, removed);
    var kept := d - Ids(removed);
    MergeByParts(d, FirstById(active), Updated(d, active));
    assert Only(New(d, active), Ids(added)) == New(d, active);
    ReplayAdditions(kept, added, New(d, active));
    ReplayAppend(d, Deactivations(removed), Additions(added));
  }
}
