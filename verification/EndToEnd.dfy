/**
 * The whole synchronisation protocol: an agent that polls the debugger API, a byte pipe, and a
 * debugger that reads the pipe in pieces of any size.
 */
module EndToEnd {
  import opened Wrappers
  import Framing
  import Locations
  import opened Agent
  import opened Debugger

  // ---------------------------------------------------------------- what the messages say

  lemma LeftSetNext(d: Dictionary, before: seq<Message>, m: Message, k: string, id: string)
    requires Fits(d, m)
    requires forall j :: j in LeftSet(before, k) <==> j in d && KeyOf(d[j]) == k
    ensures id in LeftSet(before + [m], k) <==> id in Effect(d, m) && KeyOf(Effect(d, m)[id]) == k
  {
    LeftSetAppend(before, [m], k);
    OneMessage(LeftSet(before, k), m);
    assert KeyOf(Stored(m)) == RequestOf(m).Key();
    assert RequestOf(m).Key() != k ==> Concerning([m], k) == [];
  }

  /** The ids the messages leave set at a location are those the agent stores for it. */
  lemma {:induction false} LeftSetIsStored(ms: seq<Message>, k: string)
    requires AllFit(map[], ms)
    ensures var d := Replay(map[], ms);
            forall id :: id in LeftSet(ms, k) <==> id in d && KeyOf(d[id]) == k
  {
    if ms != [] {
      var before, m := ms[..|ms| - 1], ms[|ms| - 1];
      assert ms == before + [m];
      ReplayAppend(map[], before, [m]);
      LeftSetIsStored(before, k);
      forall id {
        LeftSetNext(Replay(map[], before), before, m, k, id);
      }
    }
  }

  /** The debuggee's PDB files always answer the same, and native calls work. */
  ghost predicate Unchanging(env: (nat, string) -> Env, pdbs: string -> seq<PdbOutcome>) {
    forall n, k :: env(n, k) == Env(pdbs(k), Locations.ALL_WORK)
  }

  predicate Resolves(pdbs: string -> seq<PdbOutcome>, k: string) {
    Search(pdbs(k)) == Placed
  }

  lemma {:induction false} NoneConcerns(ms: seq<Message>, k: string)
    requires forall m :: m in ms ==> RequestOf(m).Key() != k
    ensures LeftSet(ms, k) == {}
  {
    if ms != [] {
      NoneConcerns(ms[1..], k);
      assert Concerning(ms, k) == Concerning(ms[1..], k);
    }
  }

  /** With PDB files that always answer the same, only locations that never resolve go astray. */
  lemma UnchangingAstray(ms: seq<Message>, env: (nat, string) -> Env, pdbs: string -> seq<PdbOutcome>,
                         k: string, id: string)
    requires AllFit(map[], ms) && Unchanging(env, pdbs)
    ensures Astray(ms, env, k, id) <==> id in LeftSet(ms, k) && !Resolves(pdbs, k)
  {
    var i := Founder(ms, 0, env, k);
    FounderIsFirst(ms, 0, env, k);
    if Resolves(pdbs, k) {
      assert forall j :: 0 <= j < i ==> !Places(ms[j], j, env, k);
      NoneConcerns(ms[..i], k);
      if i == |ms| {
        assert ms[..i] == ms;
      } else {
        FounderIsAddition(ms, i);
      }
    }
  }

  /** With PDB files that always answer the same: installed is what is stored and resolves. */
  lemma InstalledWhenUnchanging(ms: seq<Message>, env: (nat, string) -> Env, pdbs: string -> seq<PdbOutcome>,
                                k: string, id: string)
    requires AllFit(map[], ms) && Unchanging(env, pdbs)
    ensures var d := Replay(map[], ms);
            Installed(Run(map[], ms, 0, env), k, id) <==> id in d && KeyOf(d[id]) == k && Resolves(pdbs, k)
  {
    LeftSetIsStored(ms, k);
    InstalledDiffersExactly(ms, env, k, id);
    UnchangingAstray(ms, env, pdbs, k, id);
    InstalledExactly(ms, env, k, id);
  }

  lemma FitsAt(ms: seq<Message>, i: nat)
    requires AllFit(map[], ms) && i < |ms|
    ensures AllFit(map[], ms[..i]) && Fits(Replay(map[], ms[..i]), ms[i])
  {
    var before, rest := ms[..i], ms[i..];
    assert ms == before + rest;
    ReplayAppend(map[], before, rest);
  }

  /** The first message about a location cannot be a removal. */
  lemma FounderIsAddition(ms: seq<Message>, i: nat)
    requires AllFit(map[], ms) && i < |ms| && LeftSet(ms[..i], RequestOf(ms[i]).Key()) == {}
    ensures ms[i].activated
  {
    FitsAt(ms, i);
    LeftSetIsStored(ms[..i], RequestOf(ms[i]).Key());
    assert ms[i].id !in LeftSet(ms[..i], RequestOf(ms[i]).Key());
    assert KeyOf(Stored(ms[i])) == RequestOf(ms[i]).Key();
  }

  // ---------------------------------------------------------------- the protocol as a state machine

  /** The serialisation of messages, and what the n-th message applied meets at a location. */
  datatype Setting = Setting(encode: Message -> Bytes, decode: Bytes -> Option<Message>,
                             env: (nat, string) -> Env)

  /**
   * manager is the agent's dictionary, wire the bytes in the pipe, buffer what the debugger's
   * reader kept, world its breakpoints. The history of messages sent, and how many of them have
   * been applied, is recorded to state the invariant.
   */
  datatype System = System(manager: Dictionary, wire: Bytes, buffer: Bytes, world: World,
                           sent: seq<Message>, applied: nat)

  const INITIAL := System(map[], [], [], map[], [], 0)

  /**
   * The agent polls the API (None: no change) and sends the difference, enumerated in any order;
   * or the debugger reads one message, the pipe handing its bytes over in the given pieces, and
   * applies it.
   */
  datatype Action =
    | Poll(snapshot: Option<seq<ServerBreakpoint>>, added: seq<ServerBreakpoint>, removed: seq<ServerBreakpoint>)
    | Deliver(chunks: seq<Bytes>)

  ghost predicate PollStep(g: Setting, s: System, a: Action, s': System)
    requires a.Poll?
  {
    match a.snapshot
    case None => s' == s
    case Some(active) =>
      var ms := MessagesFor(a.removed, a.added);
      && Lists(a.added, New(s.manager, active))
      && Lists(a.removed, Removed(s.manager, active))
      && s' == s.(manager := Updated(s.manager, active), wire := Sent(g.encode, s.wire, ms), sent := s.sent + ms)
  }

  ghost predicate DeliverStep(g: Setting, s: System, a: Action, s': System)
    requires a.Deliver?
  {
    var (result, reader) := Framing.DebuggerRead(Framing.Reader(s.buffer, a.chunks));
    && Flatten(a.chunks) <= s.wire
    && result.Message? && g.decode(result.payload).Some?
    && var r := RequestOf(g.decode(result.payload).value);
       s' == s.(wire := Flatten(reader.chunks) + s.wire[|Flatten(a.chunks)|..],
                buffer := reader.buffer,
                world := Apply(s.world, r, g.env(s.applied, r.Key())).0,
                applied := s.applied + 1)
  }

  ghost predicate Step(g: Setting, s: System, a: Action, s': System) {
    if a.Poll? then PollStep(g, s, a, s') else DeliverStep(g, s, a, s')
  }

  /** states[i + 1] comes from states[i] by actions[i]. */
  ghost predicate Execution(g: Setting, states: seq<System>, actions: seq<Action>) {
    && |states| == |actions| + 1
    && states[0] == INITIAL
    && forall i :: 0 <= i < |actions| ==> Step(g, states[i], actions[i], states[i + 1])
  }

  /** Every message about this breakpoint survives serialisation and framing. */
  ghost predicate Sendable(g: Setting, b: ServerBreakpoint) {
    Carried(g.encode, g.decode, Convert(b)) && Carried(g.encode, g.decode, Deactivation(b))
  }

  ghost predicate PollsSendable(g: Setting, a: Action) {
    a.Poll? && a.snapshot.Some? ==> forall b :: b in a.snapshot.value ==> Sendable(g, b)
  }

  /** The agent's dictionary is what all messages sent say, and each of them can be carried. */
  ghost predicate AgentOk(g: Setting, s: System) {
    && AllFit(map[], s.sent)
    && s.manager == Replay(map[], s.sent)
    && (forall m :: m in s.sent ==> Carried(g.encode, g.decode, m))
    && (forall id :: id in s.manager ==> Sendable(g, s.manager[id]))
  }

  /** The bytes on their way are the frames of the messages not yet applied. */
  ghost predicate PipeOk(g: Setting, s: System) {
    s.applied <= |s.sent| && s.buffer + s.wire == Framing.Frames(Payloads(g.encode, s.sent[s.applied..]))
  }

  /** The debugger is where the messages applied, in the order they were sent, have led it. */
  ghost predicate DebuggerOk(g: Setting, s: System) {
    s.applied <= |s.sent| && s.world == Run(map[], s.sent[..s.applied], 0, g.env)
  }

  ghost predicate Invariant(g: Setting, s: System) {
    AgentOk(g, s) && PipeOk(g, s) && DebuggerOk(g, s)
  }

  lemma MessagesCarried(g: Setting, d: Dictionary, active: seq<ServerBreakpoint>,
                        added: seq<ServerBreakpoint>, removed: seq<ServerBreakpoint>)
    requires Lists(added, New(d, active)) && Lists(removed, Removed(d, active))
    requires forall id :: id in d ==> Sendable(g, d[id])
    requires forall b :: b in active ==> Sendable(g, b)
    ensures forall m :: m in MessagesFor(removed, added) ==> Carried(g.encode, g.decode, m)
    ensures forall id :: id in Updated(d, active) ==> Sendable(g, Updated(d, active)[id])
  {
    FirstByIdListed(active);
    DeactivationsCarried(g, removed);
    AdditionsCarried(g, added);
  }

  lemma DeactivationsCarried(g: Setting, bs: seq<ServerBreakpoint>)
    requires forall b :: b in bs ==> Sendable(g, b)
    ensures forall m :: m in Deactivations(bs) ==> Carried(g.encode, g.decode, m)
  {
    forall i | 0 <= i < |bs| ensures Carried(g.encode, g.decode, Deactivations(bs)[i]) {
      assert bs[i] in bs;
    }
  }

  lemma AdditionsCarried(g: Setting, bs: seq<ServerBreakpoint>)
    requires forall b :: b in bs ==> Sendable(g, b)
    ensures forall m :: m in Additions(bs) ==> Carried(g.encode, g.decode, m)
  {
    forall i | 0 <= i < |bs| ensures Carried(g.encode, g.decode, Additions(bs)[i]) {
      assert bs[i] in bs;
    }
  }

  lemma {:induction false} FirstByIdListed(active: seq<ServerBreakpoint>)
    ensures forall id :: id in FirstById(active) ==> FirstById(active)[id] in active
  {
    if active != [] {
      FirstByIdListed(active[..|active| - 1]);
    }
  }

  lemma PollKeepsAgent(g: Setting, s: System, a: Action, s': System)
    requires AgentOk(g, s) && a.Poll? && PollStep(g, s, a, s') && PollsSendable(g, a)
    ensures AgentOk(g, s')
  {
    if a.snapshot.Some? {
      MessagesReplayDiff(s.manager, a.snapshot.value, a.added, a.removed);
      ReplayAppend(map[], s.sent, MessagesFor(a.removed, a.added));
      MessagesCarried(g, s.manager, a.snapshot.value, a.added, a.removed);
    }
  }

  lemma PollKeepsPipe(g: Setting, s: System, a: Action, s': System)
    requires PipeOk(g, s) && a.Poll? && PollStep(g, s, a, s')
    ensures PipeOk(g, s') && s'.applied == s.applied && s'.sent[..s.applied] == s.sent[..s.applied]
    ensures s'.world == s.world
  {
    if a.snapshot.Some? {
      var ms := MessagesFor(a.removed, a.added);
      assert s'.sent[..s.applied] == s.sent[..s.applied];
      assert s'.sent[s.applied..] == s.sent[s.applied..] + ms;
      PendingAppend(g, s.buffer, s.wire, s.sent[s.applied..], ms);
    }
  }

  lemma PendingAppend(g: Setting, buffer: Bytes, wire: Bytes, pending: seq<Message>, ms: seq<Message>)
    requires buffer + wire == Framing.Frames(Payloads(g.encode, pending))
    ensures buffer + Sent(g.encode, wire, ms) == Framing.Frames(Payloads(g.encode, pending + ms))
  {
    PayloadsAppend(g.encode, pending, ms);
    Framing.FramesAppend(Payloads(g.encode, pending), Payloads(g.encode, ms));
    Assoc(buffer, wire, Framing.Frames(Payloads(g.encode, ms)));
  }

  /** What is left to read once the next pieces have been handed over. */
  lemma Regroup(buffer: Bytes, chunks: seq<Bytes>, wire: Bytes)
    requires Flatten(chunks) <= wire
    ensures Framing.Reader(buffer, chunks).Unread() + wire[|Flatten(chunks)|..] == buffer + wire
  {
    assert wire == Flatten(chunks) + wire[|Flatten(chunks)|..];
  }

  /** Bytes that contain END hold the first frame, and cutting it off leaves the others. */
  lemma GatheredHoldsFrame(p: Bytes, tail: Bytes, b: Bytes, beyond: Bytes) returns (kept: Bytes)
    requires Framing.FrameSafe(p) && b + beyond == Framing.Frame(p) + tail
    requires Framing.FirstIndex(b, Framing.END) != -1
    ensures b == Framing.Frame(p) + kept && kept + beyond == tail
  {
    var frame := Framing.Frame(p);
    var stream := frame + tail;
    assert b == stream[..|b|];
    Framing.FirstEndOfStream(p, tail, b);
    kept := b[|frame|..];
    assert frame == stream[..|frame|];
    assert b == frame + kept;
    Framing.DropPrefix(frame, kept, beyond, tail);
  }

  /**
   * A read that yields a message yields the first one pending, and leaves the others, even when
   * the pieces handed over stop short of the bytes on their way.
   */
  lemma ReadYieldsFirstPending(p: Bytes, tail: Bytes, r: Framing.Reader, beyond: Bytes)
    requires Framing.FrameSafe(p) && r.Unread() + beyond == Framing.Frame(p) + tail
    requires Framing.DebuggerRead(r).0.Message?
    ensures Framing.DebuggerRead(r).0 == Framing.Message(p)
    ensures Framing.DebuggerRead(r).1.Unread() + beyond == tail
  {
    var (b, rest) := Framing.Fill(r.buffer, r.chunks);
    Assoc(b.value, Flatten(rest), beyond);
    var kept := GatheredHoldsFrame(p, tail, b.value, Flatten(rest) + beyond);
    Framing.CutFrame(p, b.value, kept);
    Assoc(kept, Flatten(rest), beyond);
  }

  lemma NextPending(g: Setting, s: System)
    requires PipeOk(g, s) && s.buffer + s.wire != []
    ensures s.applied < |s.sent| && s.sent[s.applied] in s.sent
    ensures s.buffer + s.wire == Framing.Frame(g.encode(s.sent[s.applied])) +
                                 Framing.Frames(Payloads(g.encode, s.sent[s.applied + 1..]))
  {
    var pending := s.sent[s.applied..];
    assert pending != [];
    assert Payloads(g.encode, pending)[1..] == Payloads(g.encode, pending[1..]);
    assert pending[1..] == s.sent[s.applied + 1..];
  }

  /** A delivery takes the next message sent off the pipe, and nothing else. */
  lemma DeliverKeepsPipe(g: Setting, s: System, a: Action, s': System)
    requires AgentOk(g, s) && PipeOk(g, s) && a.Deliver? && DeliverStep(g, s, a, s')
    ensures PipeOk(g, s') && s.applied < |s.sent|
    ensures var r := RequestOf(s.sent[s.applied]);
            s'.world == Apply(s.world, r, g.env(s.applied, r.Key())).0
  {
    var reader := Framing.Reader(s.buffer, a.chunks);
    var beyond := s.wire[|Flatten(a.chunks)|..];
    Regroup(s.buffer, a.chunks, s.wire);
    ReadConsumes(reader);
    NextPending(g, s);
    var p := g.encode(s.sent[s.applied]);
    var tail := Framing.Frames(Payloads(g.encode, s.sent[s.applied + 1..]));
    ReadYieldsFirstPending(p, tail, reader, beyond);
    var left := Framing.DebuggerRead(reader).1;
    Assoc(left.buffer, Flatten(left.chunks), beyond);
  }

  lemma InitialInvariant(g: Setting)
    ensures Invariant(g, INITIAL)
  {
    assert Payloads(g.encode, []) == [];
  }

  lemma AppliedNext(g: Setting, s: System, s': System)
    requires DebuggerOk(g, s) && s.applied < |s.sent| && s'.sent == s.sent && s'.applied == s.applied + 1
    requires var r := RequestOf(s.sent[s.applied]);
             s'.world == Apply(s.world, r, g.env(s.applied, r.Key())).0
    ensures DebuggerOk(g, s')
  {
    var done, m := s.sent[..s.applied], s.sent[s.applied];
    assert s.sent[..s.applied + 1] == done + [m];
    RunAppend(map[], done, m, 0, g.env);
  }

  lemma StepKeepsInvariant(g: Setting, s: System, a: Action, s': System)
    requires Invariant(g, s) && Step(g, s, a, s') && PollsSendable(g, a)
    ensures Invariant(g, s')
  {
    if a.Poll? {
      PollKeepsAgent(g, s, a, s');
      PollKeepsPipe(g, s, a, s');
    } else {
      DeliverKeepsPipe(g, s, a, s');
      AppliedNext(g, s, s');
    }
  }

  /** The invariant holds in every reachable state, whatever the interleaving and the pieces. */
  lemma {:induction false} Reachable(g: Setting, states: seq<System>, actions: seq<Action>, n: nat)
    requires Execution(g, states, actions) && n < |states|
    requires forall a :: a in actions ==> PollsSendable(g, a)
    ensures Invariant(g, states[n])
  {
    if n == 0 {
      InitialInvariant(g);
    } else {
      Reachable(g, states, actions, n - 1);
      StepKeepsInvariant(g, states[n - 1], actions[n - 1], states[n]);
    }
  }

  // ---------------------------------------------------------------- the main result

  /** The last snapshot that reported anything. */
  function LastSnapshot(actions: seq<Action>): seq<ServerBreakpoint> {
    if actions == [] then []
    else
      var last := actions[|actions| - 1];
      if last.Poll? && last.snapshot.Some? then last.snapshot.value
      else LastSnapshot(actions[..|actions| - 1])
  }

  lemma {:induction false} ManagerHoldsLastSnapshot(g: Setting, states: seq<System>, actions: seq<Action>, n: nat)
    requires Execution(g, states, actions) && n < |states|
    ensures states[n].manager.Keys == Ids(LastSnapshot(actions[..n]))
  {
    if n != 0 {
      ManagerHoldsLastSnapshot(g, states, actions, n - 1);
      assert actions[..n][..n - 1] == actions[..n - 1];
      assert Step(g, states[n - 1], actions[n - 1], states[n]);
    }
  }

  /** While an id stays listed, the agent keeps the breakpoint it first stored for it. */
  lemma {:induction false} StoredBreakpointKept(g: Setting, states: seq<System>, actions: seq<Action>,
                                                i: nat, j: nat, id: string)
    requires Execution(g, states, actions) && i <= j < |states|
    requires forall n :: i <= n <= j ==> id in states[n].manager
    ensures states[j].manager[id] == states[i].manager[id]
    decreases j - i
  {
    if i < j {
      StoredBreakpointKept(g, states, actions, i, j - 1, id);
      assert Step(g, states[j - 1], actions[j - 1], states[j]);
    }
  }

  lemma NothingPending(g: Setting, pending: seq<Message>)
    ensures Framing.Frames(Payloads(g.encode, pending)) == [] ==> pending == []
  {
    assert pending != [] ==> Payloads(g.encode, pending) != [];
  }

  /** Once all is read, the debugger has applied all messages, which say what the agent stores. */
  lemma Drained(g: Setting, states: seq<System>, actions: seq<Action>)
    requires Execution(g, states, actions)
    requires forall a :: a in actions ==> PollsSendable(g, a)
    requires states[|actions|].buffer + states[|actions|].wire == []
    ensures var s := states[|actions|];
            && AllFit(map[], s.sent) && s.manager == Replay(map[], s.sent)
            && s.world == Run(map[], s.sent, 0, g.env)
            && s.manager.Keys == Ids(LastSnapshot(actions))
  {
    var s := states[|actions|];
    Reachable(g, states, actions, |actions|);
    ManagerHoldsLastSnapshot(g, states, actions, |actions|);
    assert actions[..|actions|] == actions;
    NothingPending(g, s.sent[s.applied..]);
    assert s.sent[..s.applied] == s.sent;
  }

  /**
   * End to end, however the PDB files' answers change: after any interleaving of polls and reads,
   * once the debugger has read everything, it has an id installed at a location just when the
   * agent stores it there, except exactly for the ids that went astray.
   */
  lemma EndToEndExactly(g: Setting, states: seq<System>, actions: seq<Action>, k: string, id: string)
    requires Execution(g, states, actions) && CallsWork(g.env)
    requires forall a :: a in actions ==> PollsSendable(g, a)
    requires states[|actions|].buffer + states[|actions|].wire == []
    ensures var s := states[|actions|];
            && s.manager.Keys == Ids(LastSnapshot(actions))
            && ((Installed(s.world, k, id) <==> id in s.manager && KeyOf(s.manager[id]) == k) <==>
                !Astray(s.sent, g.env, k, id))
  {
    var s := states[|actions|];
    Drained(g, states, actions);
    InstalledDiffersExactly(s.sent, g.env, k, id);
    LeftSetIsStored(s.sent, k);
  }

  /**
   * End-to-end agreement: with PDB files that always answer the same, the installed ids are those
   * of the last snapshot whose stored location resolves, each at that location and no other.
   */
  lemma EndToEndAgreement(g: Setting, states: seq<System>, actions: seq<Action>, pdbs: string -> seq<PdbOutcome>)
    requires Execution(g, states, actions) && Unchanging(g.env, pdbs)
    requires forall a :: a in actions ==> PollsSendable(g, a)
    requires states[|actions|].buffer + states[|actions|].wire == []
    ensures var s := states[|actions|];
            && s.manager.Keys == Ids(LastSnapshot(actions))
            && forall k, id :: Installed(s.world, k, id) <==>
                 id in s.manager && KeyOf(s.manager[id]) == k && Resolves(pdbs, k)
  {
    var s := states[|actions|];
    Drained(g, states, actions);
    forall k, id ensures Installed(s.world, k, id) <==>
                         id in s.manager && KeyOf(s.manager[id]) == k && Resolves(pdbs, k)
    {
      InstalledWhenUnchanging(s.sent, g.env, pdbs, k, id);
    }
  }

  /** Whatever native calls fail, every reachable state is safe at every location. */
  lemma ReachableIsSafe(g: Setting, states: seq<System>, actions: seq<Action>, n: nat)
    requires Execution(g, states, actions) && n < |states|
    requires forall a :: a in actions ==> PollsSendable(g, a)
    ensures AllSafe(states[n].world)
  {
    Reachable(g, states, actions, n);
    RunIsSafe(map[], states[n].sent[..states[n].applied], 0, g.env);
  }

  // ---------------------------------------------------------------- progress

  /** The debugger is never stuck: while bytes are on their way, reading them all delivers one. */
  lemma DeliveryIsEnabled(g: Setting, s: System, chunks: seq<Bytes>) returns (s': System)
    requires Invariant(g, s) && s.buffer + s.wire != [] && Flatten(chunks) == s.wire
    ensures DeliverStep(g, s, Deliver(chunks), s') && s'.applied == s.applied + 1 && s'.sent == s.sent
  {
    NextPending(g, s);
    var m := s.sent[s.applied];
    var tail := Framing.Frames(Payloads(g.encode, s.sent[s.applied + 1..]));
    var reader := Framing.Reader(s.buffer, chunks);
    Framing.ReadDeliversFirst(g.encode(m), tail, reader);
    var next := Framing.DebuggerRead(reader).1;
    var r := RequestOf(m);
    s' := s.(wire := Flatten(next.chunks) + s.wire[|Flatten(chunks)|..], buffer := next.buffer,
             world := Apply(s.world, r, g.env(s.applied, r.Key())).0, applied := s.applied + 1);
  }

  lemma ExecutionStep(g: Setting, states: seq<System>, actions: seq<Action>, a: Action, s': System)
    requires Execution(g, states, actions) && Step(g, states[|actions|], a, s')
    ensures Execution(g, states + [s'], actions + [a])
  {
    var states', actions' := states + [s'], actions + [a];
    forall i | 0 <= i < |actions'| ensures Step(g, states'[i], actions'[i], states'[i + 1]) {
      if i < |actions| {
        assert Step(g, states[i], actions[i], states[i + 1]);
      }
    }
  }

  /** From every reachable state deliveries alone lead to one in which everything has been read. */
  lemma {:induction false} CanDrain(g: Setting, states: seq<System>, actions: seq<Action>)
    returns (states': seq<System>, actions': seq<Action>)
    requires Execution(g, states, actions)
    requires forall a :: a in actions ==> PollsSendable(g, a)
    ensures Execution(g, states', actions') && states <= states' && actions <= actions'
    ensures forall i :: |actions| <= i < |actions'| ==> actions'[i].Deliver?
    ensures states'[|actions'|].buffer + states'[|actions'|].wire == []
    decreases |states[|actions|].sent| - states[|actions|].applied
  {
    var s := states[|actions|];
    states', actions' := states, actions;
    if s.buffer + s.wire != [] {
      Reachable(g, states, actions, |actions|);
      NextPending(g, s);
      assert Flatten([s.wire]) == s.wire;
      var s' := DeliveryIsEnabled(g, s, [s.wire]);
      ExecutionStep(g, states, actions, Deliver([s.wire]), s');
      states', actions' := CanDrain(g, states + [s'], actions + [Deliver([s.wire])]);
    }
  }

  // ---------------------------------------------------------------- agreement can fail

  /**
   * Agreement rests on the PDB files answering the same each time. If the module is loaded only
   * after the breakpoint was sent, the message that removes it installs it.
   */
  lemma RemovalCanInstall(b: ServerBreakpoint)
    ensures var env := (n: nat, k: string) => Env([if n == 0 then NotPlaced else Placed], Locations.ALL_WORK);
            var ms := [Convert(b), Deactivation(b)];
            && Replay(map[], ms) == map[]
            && Installed(Run(map[], ms, 0, env), KeyOf(b), b.id)
  {
    var env := (n: nat, k: string) => Env([if n == 0 then NotPlaced else Placed], Locations.ALL_WORK);
    var ms, k := [Convert(b), Deactivation(b)], KeyOf(b);
    assert RequestOf(ms[0]).Key() == k && RequestOf(ms[1]).Key() == k;
    assert Search([NotPlaced]) == NotPlaced && Search([Placed]) == Placed;
    assert Replay(map[], ms) == Replay(Effect(map[], ms[0]), ms[1..]) == Replay(map[], ms[2..]);
    assert !Places(ms[0], 0, env, k) && Places(ms[1], 1, env, k);
    assert Founder(ms, 0, env, k) == 1;
    assert Since(ms, 1, k) == [];
    InstalledExactly(ms, env, k, b.id);
  }
}
