/**
 * The debugger's breakpoints, grouped by location, and the loop that applies the agent's
 * messages to them (breakpoint_collection.cc).
 */
module Debugger {
  import opened Wrappers
  import Framing
  import LocationKeys
  import opened Locations
  import opened Agent

  /** A message as DbgBreakpoint::Initialize stores it: path in lower case, line as a uint32. */
  datatype Request = Request(id: string, filePath: string, line: nat, activated: bool, killServer: bool) {
    function Key(): string {
      LocationKeys.Key(filePath, line)
    }
  }

  /** A line number as the uint32 the debugger keeps. */
  function LineOf(n: int32): (r: nat)
    ensures r < 0x1_0000_0000 && (r == n || r == n + 0x1_0000_0000)
  {
    if n < 0 then n + 0x1_0000_0000 else n
  }

  function RequestOf(m: Message): Request {
    Request(m.id, LocationKeys.Lower(m.path), LineOf(m.line), m.activated, m.killServer)
  }

  /** The key under which the debugger files a breakpoint of the agent. */
  function KeyOf(b: ServerBreakpoint): string {
    LocationKeys.Key(LocationKeys.Lower(b.path), LineOf(b.line))
  }

  /** Two breakpoints share a key exactly when they name the same line of the same file, in any case. */
  lemma SameKeySameLocation(b: ServerBreakpoint, c: ServerBreakpoint)
    ensures KeyOf(b) == KeyOf(c) <==> LocationKeys.SamePath(b.path, c.path) && b.line == c.line
  {
    LocationKeys.KeyFaithful(LocationKeys.Lower(b.path), LineOf(b.line),
                             LocationKeys.Lower(c.path), LineOf(c.line));
    LocationKeys.LowerExactly(b.path, c.path);
  }

  /** What one PDB file says to a new breakpoint. */
  datatype PdbOutcome = Skipped | NotPlaced | ActivationFailed | Placed

  /** The world outside one update. */
  datatype Env = Env(pdbs: seq<PdbOutcome>, calls: NativeCalls)

  /** File i places the breakpoint, or fails to activate it, and those before it do neither. */
  ghost predicate Decides(pdbs: seq<PdbOutcome>, i: int, outcome: PdbOutcome) {
    && 0 <= i < |pdbs| && pdbs[i] == outcome && (outcome == Placed || outcome == ActivationFailed)
    && forall j :: 0 <= j < i ==> pdbs[j] == Skipped || pdbs[j] == NotPlaced
  }

  /** The first PDB file that places the breakpoint, or fails to activate it, decides. */
  function Search(pdbs: seq<PdbOutcome>): PdbOutcome {
    if pdbs == [] then NotPlaced
    else if pdbs[0].Placed? || pdbs[0].ActivationFailed? then pdbs[0]
    else Search(pdbs[1..])
  }

  lemma {:induction false} SearchExactly(pdbs: seq<PdbOutcome>)
    ensures Search(pdbs) == Placed <==> exists i :: Decides(pdbs, i, Placed)
    ensures Search(pdbs) == ActivationFailed <==> exists i :: Decides(pdbs, i, ActivationFailed)
    ensures Search(pdbs) == NotPlaced <==> forall p :: p in pdbs ==> p == Skipped || p == NotPlaced
    ensures Search(pdbs) != Skipped
  {
    if pdbs != [] {
      SearchExactly(pdbs[1..]);
      DecidesTail(pdbs, Placed);
      DecidesTail(pdbs, ActivationFailed);
      assert pdbs[0] in pdbs && forall p :: p in pdbs <==> p == pdbs[0] || p in pdbs[1..];
    }
  }

  lemma DecidesTail(pdbs: seq<PdbOutcome>, o: PdbOutcome)
    requires pdbs != [] && (o == Placed || o == ActivationFailed)
    ensures (exists i :: Decides(pdbs, i, o)) <==>
            pdbs[0] == o || ((pdbs[0] == Skipped || pdbs[0] == NotPlaced) && exists i :: Decides(pdbs[1..], i, o))
  {
    if pdbs[0] == o {
      assert Decides(pdbs, 0, o);
    }
    if i :| Decides(pdbs, i, o) && i > 0 {
      assert Decides(pdbs[1..], i - 1, o);
    }
    if i :| Decides(pdbs[1..], i, o) && (pdbs[0] == Skipped || pdbs[0] == NotPlaced) {
      forall j | 0 <= j < i + 1 ensures pdbs[j] == Skipped || pdbs[j] == NotPlaced {
        assert j > 0 ==> pdbs[j] == pdbs[1..][j - 1];
      }
      assert Decides(pdbs, i + 1, o);
    }
  }

  type World = map<string, Location>

  /** UpdateBreakpoint. A request for an unknown location sets it, even when it is a removal. */
  function Apply(w: World, r: Request, env: Env): (World, HResult) {
    var k := r.Key();
    if k in w then
      var (l, hr) := Update(w[k], r.id, r.activated, env.calls);
      (w[k := l], hr)
    else
      match Search(env.pdbs)
      case Placed => (w[k := Founded(r.id)], S_OK)
      case ActivationFailed => (w, E_FAIL)
      case _ => (w, S_FALSE)
  }

  class BreakpointCollection {
    var locations: map<string, BreakpointLocationCollection>

    ghost predicate Valid()
      reads this
    {
      forall j, k :: j in locations && k in locations && j != k ==> locations[j] != locations[k]
    }

    ghost function View(): World
      reads this, locations.Values
    {
      map k | k in locations :: locations[k].View()
    }

    constructor ()
      ensures Valid() && View() == map[] && locations == map[]
    {
      locations := map[];
    }

    method UpdateBreakpoint(r: Request, env: Env) returns (hr: HResult)
      requires Valid()
      modifies this, locations.Values
      ensures Valid() && fresh(locations.Values - old(locations.Values))
      ensures (View(), hr) == Apply(old(View()), r, env)
    {
      var key := r.Key();
      ghost var before := View();
      if key in locations {
        // UpdateBreakpoints answers S_OK or fails, so the search below is for new locations only.
        assert locations[key] in locations.Values;
        hr := locations[key].UpdateBreakpoints(r.id, r.activated, env.calls);
        assert View() == before[key := locations[key].View()];
        return;
      }
      var found := SearchPdbFiles(env.pdbs);
      if found == ActivationFailed {
        return E_FAIL;
      }
      if found != Placed {
        return S_FALSE;
      }
      var location := new BreakpointLocationCollection(r.id);
      locations := locations[key := location];
      assert View() == before[key := Founded(r.id)];
      return S_OK;
    }

    method SearchPdbFiles(pdbs: seq<PdbOutcome>) returns (outcome: PdbOutcome)
      ensures outcome == Search(pdbs) != Skipped
      ensures outcome == Placed || outcome == ActivationFailed ==> exists i :: Decides(pdbs, i, outcome)
      ensures outcome == NotPlaced <==> forall p :: p in pdbs ==> p == Skipped || p == NotPlaced
    {
      SearchExactly(pdbs);
      for i := 0 to |pdbs|
        invariant Search(pdbs) == Search(pdbs[i..])
      {
        if pdbs[i] == Skipped || pdbs[i] == NotPlaced {
          continue;
        }
        return pdbs[i];
      }
      return NotPlaced;
    }

    /** SyncBreakpoints: apply messages until one kills the server or a read fails. */
    method SyncBreakpoints(client: Framing.BreakpointClient, pipe: Framing.Pipe,
                           decode: Bytes -> Option<Message>, env: (nat, string) -> Env)
      returns (hr: HResult)
      requires Valid()
      modifies this, locations.Values, client, pipe
      ensures Valid()
      ensures (View(), hr) == Sync(old(Framing.Reader(client.buffer, pipe.chunks)), old(View()), 0, decode, env)
    {
      var n := 0;
      while true
        invariant Valid() && fresh(locations.Values - old(locations.Values))
        invariant Sync(Framing.Reader(client.buffer, pipe.chunks), View(), n, decode, env) ==
                  Sync(old(Framing.Reader(client.buffer, pipe.chunks)), old(View()), 0, decode, env)
        decreases |Framing.Reader(client.buffer, pipe.chunks).Unread()|
      {
        ghost var reader := Framing.Reader(client.buffer, pipe.chunks);
        ReadConsumes(reader);
        var bytes := client.ReadBreakpoint(pipe);
        if !bytes.Message? {
          return E_FAIL;
        }
        var message := decode(bytes.payload);
        if message.None? {
          return E_FAIL;
        }
        var request := RequestOf(message.value);
        if request.killServer {
          return S_OK;
        }
        var _ := UpdateBreakpoint(request, env(n, request.Key()));
        n := n + 1;
      }
    }
  }

  lemma ReadConsumes(r: Framing.Reader)
    ensures Framing.DebuggerRead(r).0.Message? ==>
              |Framing.DebuggerRead(r).1.Unread()| < |r.Unread()|
  {
    var (b, rest) := Framing.Fill(r.buffer, r.chunks);
    if b.Some? {
      assert |Framing.After(b.value, Framing.FirstIndex(b.value, Framing.END))| < |b.value|;
    }
  }

  /**
   * A request for an unknown location, by what the PDB files say: one that places it creates the
   * location with this breakpoint, unactivated, and the native one on; otherwise nothing changes.
   */
  lemma ApplyNewExactly(w: World, r: Request, env: Env)
    requires r.Key() !in w
    ensures (exists i :: Decides(env.pdbs, i, Placed)) ==>
              Apply(w, r, env) == (w[r.Key() := Location([Entry(r.id, false)], true)], S_OK)
    ensures (exists i :: Decides(env.pdbs, i, ActivationFailed)) ==> Apply(w, r, env) == (w, E_FAIL)
    ensures (forall p :: p in env.pdbs ==> p == Skipped || p == NotPlaced) ==> Apply(w, r, env) == (w, S_FALSE)
  {
    SearchExactly(env.pdbs);
  }

  /** A request for a known location updates that one and no other. */
  lemma ApplyKnownExactly(w: World, r: Request, env: Env)
    requires r.Key() in w
    ensures var (w', hr) := Apply(w, r, env);
            && w'.Keys == w.Keys && (forall k :: k in w && k != r.Key() ==> w'[k] == w[k])
            && (w'[r.Key()], hr) == Update(w[r.Key()], r.id, r.activated, env.calls)
  {
  }

  /** The loop of SyncBreakpoints from its n-th message on. */
  function Sync(r: Framing.Reader, w: World, n: nat, decode: Bytes -> Option<Message>,
                env: (nat, string) -> Env): (World, HResult)
    decreases |r.Unread()|
  {
    ReadConsumes(r);
    var (result, r') := Framing.DebuggerRead(r);
    if !result.Message? || decode(result.payload).None? then (w, E_FAIL)
    else
      var request := RequestOf(decode(result.payload).value);
      if request.killServer then (w, S_OK)
      else Sync(r', Apply(w, request, env(n, request.Key())).0, n + 1, decode, env)
  }

  // ---------------------------------------------------------------- whole runs

  /** The world after messages ms, where message i from here on meets env(n + i, key). */
  function Run(w: World, ms: seq<Message>, n: nat, env: (nat, string) -> Env): World
    decreases |ms|
  {
    if ms == [] then w
    else
      var r := RequestOf(ms[0]);
      Run(Apply(w, r, env(n, r.Key())).0, ms[1..], n + 1, env)
  }

  ghost predicate AllSafe(w: World) {
    forall k :: k in w ==> Safe(w[k])
  }

  lemma {:induction false} RunAppend(w: World, ms: seq<Message>, m: Message, n: nat, env: (nat, string) -> Env)
    ensures Run(w, ms + [m], n, env) ==
            Apply(Run(w, ms, n, env), RequestOf(m), env(n + |ms|, RequestOf(m).Key())).0
    decreases |ms|
  {
    if ms == [] {
      assert [] + [m] == [m] && [m][1..] == [];
    } else {
      var r := RequestOf(ms[0]);
      assert (ms + [m])[1..] == ms[1..] + [m];
      RunAppend(Apply(w, r, env(n, r.Key())).0, ms[1..], m, n + 1, env);
    }
  }

  lemma ApplyKeepsSafe(w: World, r: Request, env: Env)
    requires AllSafe(w)
    ensures AllSafe(Apply(w, r, env).0)
  {
    if r.Key() in w {
      UpdateKeepsSafe(w[r.Key()], r.id, r.activated, env.calls);
    }
  }

  /** Whatever arrives and whatever native call fails, every location stays safe. */
  lemma {:induction false} RunIsSafe(w: World, ms: seq<Message>, n: nat, env: (nat, string) -> Env)
    requires AllSafe(w)
    ensures AllSafe(Run(w, ms, n, env))
    decreases |ms|
  {
    if ms != [] {
      var r := RequestOf(ms[0]);
      ApplyKeepsSafe(w, r, env(n, r.Key()));
      RunIsSafe(Apply(w, r, env(n, r.Key())).0, ms[1..], n + 1, env);
    }
  }

  /** A message that survives encoding and framing, and does not stop the loop. */
  ghost predicate Carried(encode: Message -> Bytes, decode: Bytes -> Option<Message>, m: Message) {
    decode(encode(m)) == Some(m) && Framing.FrameSafe(encode(m)) && !m.killServer
  }

  /** However a stream of messages is cut into reads, the loop applies each of them, in order. */
  lemma {:induction false} SyncAppliesAll(ms: seq<Message>, r: Framing.Reader, w: World, n: nat,
                                          encode: Message -> Bytes, decode: Bytes -> Option<Message>,
                                          env: (nat, string) -> Env)
    requires forall m :: m in ms ==> Carried(encode, decode, m)
    requires r.Unread() == Framing.Frames(Payloads(encode, ms))
    ensures Sync(r, w, n, decode, env) == (Run(w, ms, n, env), E_FAIL)
    decreases |ms|
  {
    if ms == [] {
      NothingToRead(r);
    } else {
      assert Carried(encode, decode, ms[0]) by { assert ms[0] in ms; }
      var tail := Framing.Frames(Payloads(encode, ms[1..]));
      assert Payloads(encode, ms)[0] == encode(ms[0]);
      assert Payloads(encode, ms)[1..] == Payloads(encode, ms[1..]);
      Framing.ReadDeliversFirst(encode(ms[0]), tail, r);
      var request := RequestOf(ms[0]);
      SyncAppliesAll(ms[1..], Framing.DebuggerRead(r).1, Apply(w, request, env(n, request.Key())).0, n + 1,
                     encode, decode, env);
    }
  }

  /** The loop stops for a message that kills the server; those before it are applied, those after not. */
  lemma {:induction false} SyncStopsAtKill(ms: seq<Message>, kill: Message, later: Bytes, r: Framing.Reader,
                                           w: World, n: nat, encode: Message -> Bytes,
                                           decode: Bytes -> Option<Message>, env: (nat, string) -> Env)
    requires forall m :: m in ms ==> Carried(encode, decode, m)
    requires kill.killServer && decode(encode(kill)) == Some(kill) && Framing.FrameSafe(encode(kill))
    requires r.Unread() == Framing.Frames(Payloads(encode, ms)) + (Framing.Frame(encode(kill)) + later)
    ensures Sync(r, w, n, decode, env) == (Run(w, ms, n, env), S_OK)
    decreases |ms|
  {
    var rest := Framing.Frame(encode(kill)) + later;
    if ms == [] {
      assert [] + rest == rest;
      Framing.ReadDeliversFirst(encode(kill), later, r);
    } else {
      assert Carried(encode, decode, ms[0]) by { assert ms[0] in ms; }
      var tail := Framing.Frames(Payloads(encode, ms[1..]));
      assert Payloads(encode, ms)[0] == encode(ms[0]);
      assert Payloads(encode, ms)[1..] == Payloads(encode, ms[1..]);
      Assoc(Framing.Frame(encode(ms[0])), tail, rest);
      Framing.ReadDeliversFirst(encode(ms[0]), tail + rest, r);
      var request := RequestOf(ms[0]);
      SyncStopsAtKill(ms[1..], kill, later, Framing.DebuggerRead(r).1, Apply(w, request, env(n, request.Key())).0,
                      n + 1, encode, decode, env);
    }
  }

  /** It also stops, with an error, for a payload that is no message. */
  lemma {:induction false} SyncStopsAtGarbage(ms: seq<Message>, garbage: Bytes, later: Bytes, r: Framing.Reader,
                                              w: World, n: nat, encode: Message -> Bytes,
                                              decode: Bytes -> Option<Message>, env: (nat, string) -> Env)
    requires forall m :: m in ms ==> Carried(encode, decode, m)
    requires decode(garbage) == None && Framing.FrameSafe(garbage)
    requires r.Unread() == Framing.Frames(Payloads(encode, ms)) + (Framing.Frame(garbage) + later)
    ensures Sync(r, w, n, decode, env) == (Run(w, ms, n, env), E_FAIL)
    decreases |ms|
  {
    var rest := Framing.Frame(garbage) + later;
    if ms == [] {
      assert [] + rest == rest;
      Framing.ReadDeliversFirst(garbage, later, r);
    } else {
      assert Carried(encode, decode, ms[0]) by { assert ms[0] in ms; }
      var tail := Framing.Frames(Payloads(encode, ms[1..]));
      assert Payloads(encode, ms)[0] == encode(ms[0]);
      assert Payloads(encode, ms)[1..] == Payloads(encode, ms[1..]);
      Assoc(Framing.Frame(encode(ms[0])), tail, rest);
      Framing.ReadDeliversFirst(encode(ms[0]), tail + rest, r);
      var request := RequestOf(ms[0]);
      SyncStopsAtGarbage(ms[1..], garbage, later, Framing.DebuggerRead(r).1,
                         Apply(w, request, env(n, request.Key())).0, n + 1, encode, decode, env);
    }
  }

  lemma NothingToRead(r: Framing.Reader)
    requires r.Unread() == []
    ensures Framing.DebuggerRead(r).0 == Framing.ReadFailed
  {
  }

  // ---------------------------------------------------------------- locations over whole runs

  /** No native call fails; what the PDB files answer is free to change, as when modules load. */
  ghost predicate CallsWork(env: (nat, string) -> Env) {
    forall n, k :: env(n, k).calls == ALL_WORK
  }

  /** The messages that concern one location. */
  function Concerning(ms: seq<Message>, k: string): seq<Message> {
    if ms == [] then []
    else if RequestOf(ms[0]).Key() == k then [ms[0]] + Concerning(ms[1..], k)
    else Concerning(ms[1..], k)
  }

  function EventsOf(ms: seq<Message>): seq<Event> {
    seq(|ms|, i requires 0 <= i < |ms| => (ms[i].id, ms[i].activated))
  }

  /** The messages for location k, with the native calls each of them meets there. */
  function AttemptsAt(ms: seq<Message>, n: nat, env: (nat, string) -> Env, k: string): seq<Attempt>
    decreases |ms|
  {
    if ms == [] then []
    else if RequestOf(ms[0]).Key() == k then
      [((ms[0].id, ms[0].activated), env(n, k).calls)] + AttemptsAt(ms[1..], n + 1, env, k)
    else AttemptsAt(ms[1..], n + 1, env, k)
  }

  lemma {:induction false} AttemptsAreEvents(ms: seq<Message>, n: nat, env: (nat, string) -> Env, k: string)
    ensures Events(AttemptsAt(ms, n, env, k)) == EventsOf(Concerning(ms, k))
    ensures CallsWork(env) ==> forall a :: a in AttemptsAt(ms, n, env, k) ==> a.1 == ALL_WORK
    decreases |ms|
  {
    if ms != [] {
      AttemptsAreEvents(ms[1..], n + 1, env, k);
      if RequestOf(ms[0]).Key() == k {
        var rest := AttemptsAt(ms[1..], n + 1, env, k);
        var e := (ms[0].id, ms[0].activated);
        assert Events([(e, env(n, k).calls)] + rest) == [e] + Events(rest);
        assert EventsOf([ms[0]] + Concerning(ms[1..], k)) == [e] + EventsOf(Concerning(ms[1..], k));
      }
    }
  }

  /** What happens at location k after message i. */
  function Since(ms: seq<Message>, i: nat, k: string): seq<Event>
    requires i < |ms|
  {
    EventsOf(Concerning(ms[i + 1..], k))
  }

  function AttemptsSince(ms: seq<Message>, i: nat, n: nat, env: (nat, string) -> Env, k: string): seq<Attempt>
    requires i < |ms|
  {
    AttemptsAt(ms[i + 1..], n + i + 1, env, k)
  }

  lemma AttemptAppend(founder: string, attempts: seq<Attempt>, a: Attempt)
    ensures AfterAttempts(founder, attempts + [a]) ==
            Update(AfterAttempts(founder, attempts), a.0.0, a.0.1, a.1).0
  {
    assert (attempts + [a])[..|attempts|] == attempts;
  }

  /** At a location its founder has created, every further message is one update. */
  lemma {:induction false} RunAtKnown(w: World, ms: seq<Message>, n: nat, env: (nat, string) -> Env,
                                      k: string, founder: string, before: seq<Attempt>)
    requires k in w && w[k] == AfterAttempts(founder, before)
    ensures k in Run(w, ms, n, env)
    ensures Run(w, ms, n, env)[k] == AfterAttempts(founder, before + AttemptsAt(ms, n, env, k))
    decreases |ms|
  {
    if ms == [] {
      assert before + AttemptsAt(ms, n, env, k) == before;
    } else {
      var r := RequestOf(ms[0]);
      var w' := Apply(w, r, env(n, r.Key())).0;
      if r.Key() == k {
        var a := ((ms[0].id, ms[0].activated), env(n, k).calls);
        AttemptAppend(founder, before, a);
        RunAtKnown(w', ms[1..], n + 1, env, k, founder, before + [a]);
        Assoc(before, [a], AttemptsAt(ms[1..], n + 1, env, k));
      } else {
        RunAtKnown(w', ms[1..], n + 1, env, k, founder, before);
      }
    }
  }

  /** Message m, the n-th, is for location k, and a PDB file places it. */
  predicate Places(m: Message, n: nat, env: (nat, string) -> Env, k: string) {
    RequestOf(m).Key() == k && Search(env(n, k).pdbs) == Placed
  }

  /** The first message that is placed at k, or the number of messages. */
  function Founder(ms: seq<Message>, n: nat, env: (nat, string) -> Env, k: string): (i: nat)
    ensures i <= |ms|
    decreases |ms|
  {
    if ms == [] || Places(ms[0], n, env, k) then 0 else 1 + Founder(ms[1..], n + 1, env, k)
  }

  lemma {:induction false} FounderPlaces(ms: seq<Message>, n: nat, env: (nat, string) -> Env, k: string)
    requires Founder(ms, n, env, k) < |ms|
    ensures var i := Founder(ms, n, env, k);
            Places(ms[i], n + i, env, k)
    decreases |ms|
  {
    if !Places(ms[0], n, env, k) {
      FounderPlaces(ms[1..], n + 1, env, k);
    }
  }

  lemma {:induction false} NothingPlacedBefore(ms: seq<Message>, n: nat, env: (nat, string) -> Env, k: string, j: nat)
    requires j < Founder(ms, n, env, k)
    ensures !Places(ms[j], n + j, env, k)
    decreases |ms|
  {
    if j != 0 {
      NothingPlacedBefore(ms[1..], n + 1, env, k, j - 1);
    }
  }

  lemma FounderIsFirst(ms: seq<Message>, n: nat, env: (nat, string) -> Env, k: string)
    ensures var i := Founder(ms, n, env, k);
            && (i < |ms| ==> Places(ms[i], n + i, env, k))
            && forall j :: 0 <= j < i ==> !Places(ms[j], n + j, env, k)
  {
    if Founder(ms, n, env, k) < |ms| {
      FounderPlaces(ms, n, env, k);
    }
    forall j | 0 <= j < Founder(ms, n, env, k) ensures !Places(ms[j], n + j, env, k) {
      NothingPlacedBefore(ms, n, env, k, j);
    }
  }

  /** A message creates a location exactly when it is placed there. */
  lemma CreatesExactly(w: World, m: Message, n: nat, env: (nat, string) -> Env, k: string)
    requires k !in w
    ensures var r := RequestOf(m);
            var w' := Apply(w, r, env(n, r.Key())).0;
            && (k in w' <==> Places(m, n, env, k))
            && (k in w' ==> w'[k] == AfterAttempts(m.id, []))
  {
  }

  /**
   * Over any run a location exists once a message for it, be it a removal, has been placed. The
   * first such message founds it; those before it are lost, and it lives through those after it.
   */
  lemma {:induction false} RunAtNew(w: World, ms: seq<Message>, n: nat, env: (nat, string) -> Env, k: string)
    requires k !in w
    ensures var i, w' := Founder(ms, n, env, k), Run(w, ms, n, env);
            && (k in w' <==> i < |ms|)
            && (i < |ms| ==> w'[k] == AfterAttempts(ms[i].id, AttemptsSince(ms, i, n, env, k)))
    decreases |ms|
  {
    if ms != [] {
      var r := RequestOf(ms[0]);
      var w' := Apply(w, r, env(n, r.Key())).0;
      CreatesExactly(w, ms[0], n, env, k);
      assert Run(w, ms, n, env) == Run(w', ms[1..], n + 1, env);
      if Places(ms[0], n, env, k) {
        assert Founder(ms, n, env, k) == 0;
        RunAtKnown(w', ms[1..], n + 1, env, k, ms[0].id, []);
        assert [] + AttemptsSince(ms, 0, n, env, k) == AttemptsSince(ms, 0, n, env, k);
      } else {
        RunAtNew(w', ms[1..], n + 1, env, k);
        var i := Founder(ms[1..], n + 1, env, k);
        assert Founder(ms, n, env, k) == i + 1;
        if i < |ms[1..]| {
          SinceTail(ms, i, n, env, k);
        }
      }
    }
  }

  lemma SinceTail(ms: seq<Message>, i: nat, n: nat, env: (nat, string) -> Env, k: string)
    requires i + 1 < |ms|
    ensures AttemptsSince(ms[1..], i, n + 1, env, k) == AttemptsSince(ms, i + 1, n, env, k)
  {
    assert ms[1..][i + 1..] == ms[i + 2..];
  }

  /** Without native failures the founder's location lives through the messages alone. */
  lemma RunWorking(ms: seq<Message>, env: (nat, string) -> Env, k: string)
    requires CallsWork(env)
    ensures var i, w := Founder(ms, 0, env, k), Run(map[], ms, 0, env);
            && (k in w <==> i < |ms|)
            && (i < |ms| ==> w[k] == After(ms[i].id, Since(ms, i, k)))
  {
    RunAtNew(map[], ms, 0, env, k);
    var i := Founder(ms, 0, env, k);
    if i < |ms| {
      AttemptsAreEvents(ms[i + 1..], i + 1, env, k);
      WorkingAttempts(ms[i].id, AttemptsSince(ms, i, 0, env, k));
    }
  }

  /**
   * Over any run without native failures, the native breakpoint of an existing location is off if
   * and only if its founder was removed while alone and nothing has been activated there since.
   */
  lemma NativeOffExactly(ms: seq<Message>, env: (nat, string) -> Env, k: string)
    requires CallsWork(env) && k in Run(map[], ms, 0, env)
    ensures var i := Founder(ms, 0, env, k);
            && i < |ms|
            && (!Run(map[], ms, 0, env)[k].nativeOn <==>
                IsOffSinceRemoval(ms[i].id, Since(ms, i, k)))
  {
    RunWorking(ms, env, k);
    var i := Founder(ms, 0, env, k);
    OffExactly(ms[i].id, Since(ms, i, k));
  }

  // ---------------------------------------------------------------- what is installed

  ghost predicate Installed(w: World, k: string, id: string) {
    k in w && id in EntryIds(w[k].breakpoints)
  }

  /** The ids the messages alone leave set at a location. */
  function LeftSet(ms: seq<Message>, k: string): set<string> {
    Live({}, EventsOf(Concerning(ms, k)))
  }

  /**
   * A removal leaves its id installed exactly when it is itself what sets the location, or when
   * it fails to take the id out.
   */
  lemma RemovalInstallsExactly(w: World, r: Request, env: Env)
    requires AllSafe(w) && !r.activated
    ensures var k := r.Key();
            Installed(Apply(w, r, env).0, k, r.id) <==>
            if k !in w then Search(env.pdbs) == Placed
            else Installed(w, k, r.id)
                 && (!env.calls.isActiveWorks || (!env.calls.activateWorks && !AnyActivated(w[k].breakpoints)))
  {
    var k := r.Key();
    if k in w {
      UpdateIds(w[k], r.id, false, env.calls);
    } else {
      assert Entry(r.id, false) in Founded(r.id).breakpoints;
    }
  }

  lemma {:induction false} ConcerningAppend(xs: seq<Message>, ys: seq<Message>, k: string)
    ensures Concerning(xs + ys, k) == Concerning(xs, k) + Concerning(ys, k)
    ensures EventsOf(Concerning(xs + ys, k)) == EventsOf(Concerning(xs, k)) + EventsOf(Concerning(ys, k))
    decreases |xs|
  {
    if xs == [] {
      assert xs + ys == ys;
    } else {
      assert (xs + ys)[1..] == xs[1..] + ys;
      ConcerningAppend(xs[1..], ys, k);
    }
  }

  lemma LeftSetAppend(xs: seq<Message>, ys: seq<Message>, k: string)
    ensures LeftSet(xs + ys, k) == Live(LeftSet(xs, k), EventsOf(Concerning(ys, k)))
  {
    ConcerningAppend(xs, ys, k);
    LiveAppend({}, EventsOf(Concerning(xs, k)), EventsOf(Concerning(ys, k)));
  }

  /**
   * Over any run, whatever native calls fail, what is installed at a location follows from its
   * founder and those messages since whose update did not fail.
   */
  lemma InstalledEffectively(ms: seq<Message>, env: (nat, string) -> Env, k: string, id: string)
    ensures var i := Founder(ms, 0, env, k);
            Installed(Run(map[], ms, 0, env), k, id) <==>
            i < |ms| && id in Live({ms[i].id}, Effective(ms[i].id, AttemptsSince(ms, i, 0, env, k)))
  {
    RunAtNew(map[], ms, 0, env, k);
    var i := Founder(ms, 0, env, k);
    if i < |ms| {
      AttemptsExactly(ms[i].id, AttemptsSince(ms, i, 0, env, k));
    }
  }

  /** Without native failures, from its founder and all messages since. */
  lemma InstalledExactly(ms: seq<Message>, env: (nat, string) -> Env, k: string, id: string)
    requires CallsWork(env)
    ensures var i := Founder(ms, 0, env, k);
            Installed(Run(map[], ms, 0, env), k, id) <==> i < |ms| && id in Live({ms[i].id}, Since(ms, i, k))
  {
    RunWorking(ms, env, k);
    var i := Founder(ms, 0, env, k);
    if i < |ms| {
      AfterSafe(ms[i].id, Since(ms, i, k));
    }
  }

  /** Starting a location at message i, as if it were an activation, against applying all messages. */
  lemma StartingAtDiffers(ms: seq<Message>, i: nat, k: string, id: string)
    requires i < |ms| && RequestOf(ms[i]).Key() == k
    ensures !(id in Live({ms[i].id}, Since(ms, i, k)) <==> id in LeftSet(ms, k)) <==>
            !Names(Since(ms, i, k), id) &&
            if id == ms[i].id then !ms[i].activated else id in LeftSet(ms[..i], k)
  {
    var since := Since(ms, i, k);
    assert ms == ms[..i + 1] + ms[i + 1..] && ms[..i + 1] == ms[..i] + [ms[i]];
    LeftSetAppend(ms[..i + 1], ms[i + 1..], k);
    LeftSetAppend(ms[..i], [ms[i]], k);
    LiveDiffers({ms[i].id}, LeftSet(ms[..i + 1], k), since, id);
    OneMessage(LeftSet(ms[..i], k), ms[i]);
  }

  /**
   * The messages sent lead location k astray about an id: no message was placed there, but the id
   * is left set; or the id is not named since the founder, and either is the founder's, though a
   * removal founded the location, or was set by messages that came before the founder.
   */
  predicate Astray(ms: seq<Message>, env: (nat, string) -> Env, k: string, id: string) {
    var i := Founder(ms, 0, env, k);
    if i == |ms| then id in LeftSet(ms, k)
    else !Names(Since(ms, i, k), id) && if id == ms[i].id then !ms[i].activated else id in LeftSet(ms[..i], k)
  }

  /** Over any run without native failures, what is installed differs from what is left set exactly so. */
  lemma InstalledDiffersExactly(ms: seq<Message>, env: (nat, string) -> Env, k: string, id: string)
    requires CallsWork(env)
    ensures !(Installed(Run(map[], ms, 0, env), k, id) <==> id in LeftSet(ms, k)) <==> Astray(ms, env, k, id)
  {
    InstalledExactly(ms, env, k, id);
    FounderIsFirst(ms, 0, env, k);
    var i := Founder(ms, 0, env, k);
    if i < |ms| {
      StartingAtDiffers(ms, i, k, id);
    }
  }

  lemma OneMessage(before: set<string>, m: Message)
    ensures Live(before, EventsOf(Concerning([m], RequestOf(m).Key()))) ==
            if m.activated then before + {m.id} else before - {m.id}
  {
    var k := RequestOf(m).Key();
    assert Concerning([m], k) == [m];
    var events := EventsOf([m]);
    assert events == [(m.id, m.activated)] && events[..0] == [];
    assert Live(before, events[..0]) == before;
  }
}
