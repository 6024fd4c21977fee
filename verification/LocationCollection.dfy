/**
 * All breakpoints at one location, sharing one native on/off breakpoint
 * (breakpoint_location_collection.cc).
 */
module Locations {
  datatype HResult = S_OK | S_FALSE | E_FAIL

  /** Whether the native calls one update may make succeed; a failing Activate changes nothing. */
  datatype NativeCalls = NativeCalls(isActiveWorks: bool, activateWorks: bool)

  const ALL_WORK := NativeCalls(true, true)

  /** A breakpoint in the list. The founder keeps the default activated flag, false. */
  datatype Entry = Entry(id: string, activated: bool)

  datatype Location = Location(breakpoints: seq<Entry>, nativeOn: bool)

  function Founded(id: string): Location {
    Location([Entry(id, false)], true)
  }

  function IndexOf(es: seq<Entry>, id: string): (i: int)
    ensures -1 <= i < |es|
    ensures i == -1 ==> forall e :: e in es ==> e.id != id
    ensures 0 <= i ==> es[i].id == id && forall j :: 0 <= j < i ==> es[j].id != id
  {
    if es == [] then -1
    else if es[0].id == id then 0
    else
      var i := IndexOf(es[1..], id);
      if i == -1 then -1 else i + 1
  }

  predicate AnyActivated(es: seq<Entry>) {
    exists e :: e in es && e.activated
  }

  /** ActivateCorDebugBreakpointHelper. */
  function Toggle(l: Location, want: bool, calls: NativeCalls): (Location, HResult) {
    if !calls.isActiveWorks then (l, E_FAIL)
    else if l.nativeOn == want then (l, S_OK)
    else if !want && AnyActivated(l.breakpoints) then (l, S_OK)
    else if !calls.activateWorks then (l, E_FAIL)
    else (l.(nativeOn := want), S_OK)
  }

  function Erase(es: seq<Entry>, i: nat): seq<Entry>
    requires i < |es|
  {
    es[..i] + es[i + 1..]
  }

  /** UpdateExistingBreakpoint; S_FALSE means that no breakpoint has this id. */
  function UpdateExisting(l: Location, id: string, activated: bool, calls: NativeCalls): (Location, HResult) {
    var i := IndexOf(l.breakpoints, id);
    if i == -1 then (l, S_FALSE)
    else
      var (toggled, hr) := Toggle(l, activated, calls);
      if hr == E_FAIL || activated then (toggled, hr)
      else (toggled.(breakpoints := Erase(l.breakpoints, i)), hr)
  }

  /** UpdateBreakpoints. */
  function Update(l: Location, id: string, activated: bool, calls: NativeCalls): (Location, HResult) {
    var (existing, hr) := UpdateExisting(l, id, activated, calls);
    if hr != S_FALSE then (existing, hr)
    else if !activated then (l, S_OK)
    else
      var (toggled, hr) := Toggle(l, true, calls);
      if hr == E_FAIL then (toggled, hr)
      else (toggled.(breakpoints := l.breakpoints + [Entry(id, true)]), hr)
  }

  class BreakpointLocationCollection {
    var breakpoints: seq<Entry>
    var nativeOn: bool

    function View(): Location
      reads this
    {
      Location(breakpoints, nativeOn)
    }

    /** A new collection; AddFirstBreakpoint puts the founder in, its native breakpoint set and on. */
    constructor (founder: string)
      ensures View() == Founded(founder)
    {
      breakpoints := [Entry(founder, false)];
      nativeOn := true;
    }

    method ActivateCorDebugBreakpointHelper(activationState: bool, calls: NativeCalls) returns (hr: HResult)
      modifies this`nativeOn
      ensures (View(), hr) == Toggle(old(View()), activationState, calls)
    {
      if !calls.isActiveWorks {
        return E_FAIL;
      }
      if nativeOn != activationState {
        if !activationState {
          // The entry about to be erased is still in the list here.
          if AnyActivated(breakpoints) {
            return S_OK;
          }
        }
        if !calls.activateWorks {
          return E_FAIL;
        }
        nativeOn := activationState;
      }
      return S_OK;
    }

    method UpdateExistingBreakpoint(id: string, activated: bool, calls: NativeCalls) returns (hr: HResult)
      modifies this
      ensures (View(), hr) == UpdateExisting(old(View()), id, activated, calls)
    {
      var existing := IndexOf(breakpoints, id);
      if existing == -1 {
        return S_FALSE;
      }
      hr := ActivateCorDebugBreakpointHelper(activated, calls);
      if hr == E_FAIL {
        return;
      }
      if !activated {
        breakpoints := Erase(breakpoints, existing);
      }
    }

    method UpdateBreakpoints(id: string, activated: bool, calls: NativeCalls) returns (hr: HResult)
      modifies this
      ensures (View(), hr) == Update(old(View()), id, activated, calls)
    {
      hr := UpdateExistingBreakpoint(id, activated, calls);
      if hr == E_FAIL || hr == S_OK {
        return;
      }
      if !activated {
        return S_OK;
      }
      hr := ActivateCorDebugBreakpointHelper(activated, calls);
      if hr == E_FAIL {
        return;
      }
      breakpoints := breakpoints + [Entry(id, true)];
    }
  }

  // ---------------------------------------------------------------- safety

  function EntryIds(es: seq<Entry>): set<string> {
    set e | e in es :: e.id
  }

  /** Ids do not repeat, and only index 0 can hold a false activated flag. */
  ghost predicate Ordered(es: seq<Entry>) {
    && (forall i, j :: 0 <= i < j < |es| ==> es[i].id != es[j].id)
    && (forall i :: 0 < i < |es| ==> es[i].activated)
  }

  /**
   * Installed breakpoints can be hit: with any in the list the native breakpoint is on; ids do
   * not repeat; and only the founder, at index 0, can have a false activated flag.
   */
  ghost predicate Safe(l: Location) {
    Ordered(l.breakpoints) && (l.breakpoints != [] ==> l.nativeOn)
  }

  lemma EraseOrdered(es: seq<Entry>, i: nat)
    requires i < |es| && Ordered(es)
    ensures Ordered(Erase(es, i))
    ensures EntryIds(Erase(es, i)) == EntryIds(es) - {es[i].id}
  {
    var rest := Erase(es, i);
    assert forall e :: e in rest ==> e in es && e.id != es[i].id;
    assert forall k :: 0 <= k < |es| && k != i ==> es[k] in rest;
  }

  lemma AppendOrdered(es: seq<Entry>, id: string)
    requires Ordered(es) && IndexOf(es, id) == -1
    ensures Ordered(es + [Entry(id, true)])
    ensures EntryIds(es + [Entry(id, true)]) == EntryIds(es) + {id}
  {
    var longer := es + [Entry(id, true)];
    assert forall e :: e in longer <==> e in es || e == Entry(id, true);
  }

  /** The entries after an update are the old ones, or those with one erased, or one appended. */
  lemma UpdateEntries(l: Location, id: string, activated: bool, calls: NativeCalls)
    ensures var (l', hr) := Update(l, id, activated, calls);
            var i := IndexOf(l.breakpoints, id);
            && (calls == ALL_WORK ==> hr == S_OK)
            && l'.breakpoints ==
              if hr == E_FAIL || (i != -1 && activated) || (i == -1 && !activated) then l.breakpoints
              else if activated then l.breakpoints + [Entry(id, true)]
              else Erase(l.breakpoints, i)
  {
  }

  lemma UpdateOrdered(l: Location, id: string, activated: bool, calls: NativeCalls)
    requires Ordered(l.breakpoints)
    ensures Ordered(Update(l, id, activated, calls).0.breakpoints)
  {
    UpdateEntries(l, id, activated, calls);
    var i := IndexOf(l.breakpoints, id);
    if i != -1 {
      EraseOrdered(l.breakpoints, i);
    } else {
      AppendOrdered(l.breakpoints, id);
    }
  }

  /** Every update keeps a location safe, whichever native calls fail. */
  lemma UpdateKeepsSafe(l: Location, id: string, activated: bool, calls: NativeCalls)
    requires Safe(l)
    ensures Safe(Update(l, id, activated, calls).0)
  {
    UpdateOrdered(l, id, activated, calls);
    SecondIsActivated(l);
  }

  lemma SecondIsActivated(l: Location)
    requires Safe(l)
    ensures !AnyActivated(l.breakpoints) ==> |l.breakpoints| <= 1
  {
    assert |l.breakpoints| > 1 ==> l.breakpoints[1] in l.breakpoints;
  }

  /** A working update turns the native breakpoint off exactly when it removes a lone founder. */
  lemma UpdateTurnsOff(l: Location, id: string, activated: bool)
    requires Safe(l)
    ensures l.nativeOn && !Update(l, id, activated, ALL_WORK).0.nativeOn
            <==> l.breakpoints == [Entry(id, false)] && l.nativeOn && !activated
  {
    SecondIsActivated(l);
  }

  /** What an update does to the set of installed ids; a failed one changes nothing there. */
  lemma UpdateIds(l: Location, id: string, activated: bool, calls: NativeCalls)
    requires Safe(l)
    ensures var (l', hr) := Update(l, id, activated, calls);
            && hr != S_FALSE
            && EntryIds(l'.breakpoints) ==
               (if hr == E_FAIL then EntryIds(l.breakpoints)
                else if activated then EntryIds(l.breakpoints) + {id}
                else EntryIds(l.breakpoints) - {id})
    ensures calls == ALL_WORK ==> Update(l, id, activated, calls).1 == S_OK
  {
    UpdateEntries(l, id, activated, calls);
    var i := IndexOf(l.breakpoints, id);
    if i != -1 {
      EraseOrdered(l.breakpoints, i);
      assert l.breakpoints[i] in l.breakpoints;
    } else {
      AppendOrdered(l.breakpoints, id);
    }
  }

  /** An update fails exactly when it must ask or switch the native breakpoint and that call fails. */
  lemma UpdateFailsExactly(l: Location, id: string, activated: bool, calls: NativeCalls)
    ensures Update(l, id, activated, calls).1 == E_FAIL <==>
            && (activated || IndexOf(l.breakpoints, id) != -1)
            && (!calls.isActiveWorks ||
                (!calls.activateWorks && l.nativeOn != activated && (activated || !AnyActivated(l.breakpoints))))
  {
  }

  /** The native breakpoint after an update; a failed update changes nothing. */
  lemma UpdateNativeExactly(l: Location, id: string, activated: bool, calls: NativeCalls)
    ensures var (l', hr) := Update(l, id, activated, calls);
            && (hr == S_OK || hr == E_FAIL)
            && (hr == E_FAIL ==> l' == l)
            && (hr == S_OK && activated ==> l'.nativeOn)
            && (hr == S_OK && !activated && (exists e :: e in l.breakpoints && e.id == id) ==>
                  (l'.nativeOn <==> l.nativeOn && exists e :: e in l.breakpoints && e.activated))
            && (!activated && (forall e :: e in l.breakpoints ==> e.id != id) ==> l' == l && hr == S_OK)
  {
    if i: nat :| i < |l.breakpoints| && l.breakpoints[i].id == id {
      assert IndexOf(l.breakpoints, id) != -1;
    }
    ToggleExactly(l, activated, calls);
  }

  lemma ToggleExactly(l: Location, want: bool, calls: NativeCalls)
    ensures var (l', hr) := Toggle(l, want, calls);
            && l'.breakpoints == l.breakpoints && (hr == S_OK || hr == E_FAIL)
            && (hr == E_FAIL ==> l' == l)
            && (hr == S_OK ==> (l'.nativeOn <==> want || (l.nativeOn && AnyActivated(l.breakpoints))))
  {
  }

  // ---------------------------------------------------------------- when the native breakpoint is off

  /** A message for this location: an id, and whether it is being activated. */
  type Event = (string, bool)

  /** The location its founder created, after further messages, with no native failures. */
  function After(founder: string, events: seq<Event>): Location {
    if events == [] then Founded(founder)
    else
      var (id, activated) := events[|events| - 1];
      Update(After(founder, events[..|events| - 1]), id, activated, ALL_WORK).0
  }

  /** The ids that are set according to the messages alone, given those set before. */
  function Live(start: set<string>, events: seq<Event>): set<string> {
    if events == [] then start
    else
      var (id, activated) := events[|events| - 1];
      var live := Live(start, events[..|events| - 1]);
      if activated then live + {id} else live - {id}
  }

  /** A message, and whether the native calls it makes would work. */
  type Attempt = (Event, NativeCalls)

  /** The location its founder created, after messages whose native calls may fail. */
  function AfterAttempts(founder: string, attempts: seq<Attempt>): Location {
    if attempts == [] then Founded(founder)
    else
      var ((id, activated), calls) := attempts[|attempts| - 1];
      Update(AfterAttempts(founder, attempts[..|attempts| - 1]), id, activated, calls).0
  }

  /** The messages whose update did not fail. */
  function Effective(founder: string, attempts: seq<Attempt>): seq<Event> {
    if attempts == [] then []
    else
      var front := attempts[..|attempts| - 1];
      var ((id, activated), calls) := attempts[|attempts| - 1];
      if Update(AfterAttempts(founder, front), id, activated, calls).1 == E_FAIL then Effective(founder, front)
      else Effective(founder, front) + [(id, activated)]
  }

  /** Whatever native calls fail, the list holds what the messages say whose update did not fail. */
  lemma {:induction false} AttemptsExactly(founder: string, attempts: seq<Attempt>)
    ensures Safe(AfterAttempts(founder, attempts))
    ensures EntryIds(AfterAttempts(founder, attempts).breakpoints) == Live({founder}, Effective(founder, attempts))
  {
    if attempts == [] {
      assert EntryIds([Entry(founder, false)]) == {founder};
    } else {
      var front := attempts[..|attempts| - 1];
      var ((id, activated), calls) := attempts[|attempts| - 1];
      AttemptsExactly(founder, front);
      UpdateKeepsSafe(AfterAttempts(founder, front), id, activated, calls);
      UpdateIds(AfterAttempts(founder, front), id, activated, calls);
      LiveNext({founder}, Effective(founder, front), (id, activated));
    }
  }

  lemma LiveNext(start: set<string>, events: seq<Event>, e: Event)
    ensures Live(start, events + [e]) ==
            if e.1 then Live(start, events) + {e.0} else Live(start, events) - {e.0}
  {
    assert (events + [e])[..|events|] == events;
  }

  function Events(attempts: seq<Attempt>): seq<Event> {
    seq(|attempts|, i requires 0 <= i < |attempts| => attempts[i].0)
  }

  lemma {:induction false} WorkingAttempts(founder: string, attempts: seq<Attempt>)
    requires forall a :: a in attempts ==> a.1 == ALL_WORK
    ensures AfterAttempts(founder, attempts) == After(founder, Events(attempts))
  {
    if attempts != [] {
      var n := |attempts| - 1;
      WorkingAttempts(founder, attempts[..n]);
      assert attempts[n] in attempts;
      assert Events(attempts)[..n] == Events(attempts[..n]);
    }
  }

  predicate Names(events: seq<Event>, id: string) {
    exists e :: e in events && e.0 == id
  }

  lemma {:induction false} LiveAppend(start: set<string>, xs: seq<Event>, ys: seq<Event>)
    ensures Live(start, xs + ys) == Live(Live(start, xs), ys)
  {
    if ys == [] {
      assert xs + ys == xs;
    } else {
      assert (xs + ys)[..|xs + ys| - 1] == xs + ys[..|ys| - 1];
      LiveAppend(start, xs, ys[..|ys| - 1]);
    }
  }

  /** Messages agree on an id whatever was set before, if and only if they name it or it was set alike. */
  lemma {:induction false} LiveDiffers(a: set<string>, b: set<string>, events: seq<Event>, id: string)
    ensures (id in Live(a, events) <==> id in Live(b, events)) <==>
            Names(events, id) || (id in a <==> id in b)
  {
    if events != [] {
      var n := |events| - 1;
      LiveDiffers(a, b, events[..n], id);
      assert events == events[..n] + [events[n]];
    }
  }

  /** Message i removes the founder, for the first time, while nothing else is set. */
  ghost predicate FounderRemovedAlone(founder: string, events: seq<Event>, i: int) {
    && 0 <= i < |events|
    && events[i] == (founder, false)
    && (founder, false) !in events[..i]
    && Live({founder}, events[..i]) == {founder}
  }

  /** The unactivated founder heads the list until it is removed. */
  ghost predicate Headed(founder: string, removed: bool, es: seq<Entry>) {
    if removed then forall e :: e in es ==> e.activated
    else es != [] && es[0] == Entry(founder, false)
  }

  lemma UpdateHeaded(founder: string, removed: bool, l: Location, id: string, activated: bool)
    requires Ordered(l.breakpoints) && Headed(founder, removed, l.breakpoints)
    ensures Headed(founder, removed || (id == founder && !activated),
                   Update(l, id, activated, ALL_WORK).0.breakpoints)
  {
    var es, i := l.breakpoints, IndexOf(l.breakpoints, id);
    UpdateEntries(l, id, activated, ALL_WORK);
    if i != -1 && !activated {
      assert forall e :: e in Erase(es, i) ==> e in es;
      if !removed && i != 0 {
        assert Erase(es, i)[0] == es[0];
      }
    }
  }

  /** The list holds what the messages say. */
  lemma {:induction false} AfterSafe(founder: string, events: seq<Event>)
    ensures Safe(After(founder, events))
    ensures EntryIds(After(founder, events).breakpoints) == Live({founder}, events)
  {
    if events == [] {
      assert EntryIds([Entry(founder, false)]) == {founder};
    } else {
      var n := |events| - 1;
      AfterSafe(founder, events[..n]);
      UpdateKeepsSafe(After(founder, events[..n]), events[n].0, events[n].1, ALL_WORK);
      UpdateIds(After(founder, events[..n]), events[n].0, events[n].1, ALL_WORK);
    }
  }

  lemma {:induction false} AfterHeaded(founder: string, events: seq<Event>)
    ensures Headed(founder, (founder, false) in events, After(founder, events).breakpoints)
  {
    if events != [] {
      var front, last := events[..|events| - 1], events[|events| - 1];
      AfterSafe(founder, front);
      AfterHeaded(founder, front);
      InLonger(front, last, (founder, false));
      assert events == front + [last];
      UpdateHeaded(founder, (founder, false) in front, After(founder, front), last.0, last.1);
    }
  }

  lemma InLonger(front: seq<Event>, last: Event, e: Event)
    ensures e in front + [last] <==> e in front || e == last
  {
  }

  lemma LoneFounder(founder: string, events: seq<Event>)
    ensures After(founder, events).breakpoints == [Entry(founder, false)] <==>
            (founder, false) !in events && Live({founder}, events) == {founder}
  {
    AfterSafe(founder, events);
    AfterHeaded(founder, events);
    var es := After(founder, events).breakpoints;
    if |es| > 1 {
      assert es[1] in es && es[1].id in EntryIds(es) && es[0].id != es[1].id;
    } else if |es| == 1 {
      assert es[0] in es && EntryIds(es) == {es[0].id};
    }
  }

  /** The native breakpoint goes from on to off exactly when the founder is removed while alone. */
  lemma TurnsOffExactly(founder: string, events: seq<Event>, i: nat)
    requires i < |events|
    ensures After(founder, events[..i]).nativeOn && !After(founder, events[..i + 1]).nativeOn
            <==> FounderRemovedAlone(founder, events, i)
  {
    var l := After(founder, events[..i]);
    AfterSafe(founder, events[..i]);
    LoneFounder(founder, events[..i]);
    UpdateTurnsOff(l, events[i].0, events[i].1);
    AfterHeaded(founder, events[..i]);
    assert events[..i + 1][..i] == events[..i];
    assert l.breakpoints != [] ==> l.breakpoints[0] in l.breakpoints;
  }

  /** It goes off at most once. */
  lemma TurnsOffOnce(founder: string, events: seq<Event>, i: nat)
    requires FounderRemovedAlone(founder, events, i)
    ensures forall j :: FounderRemovedAlone(founder, events, j) ==> j == i
  {
    forall j | 0 <= j < |events| && j != i ensures !FounderRemovedAlone(founder, events, j) {
      if j < i {
        assert events[..i][j] == events[j];
      } else {
        assert events[..j][i] == events[i];
      }
    }
  }

  /** The founder was removed alone at message i, and no later message activates anything. */
  ghost predicate OffSince(founder: string, events: seq<Event>, i: int) {
    FounderRemovedAlone(founder, events, i) && forall j :: i < j < |events| ==> !events[j].1
  }

  lemma OffSinceStep(founder: string, before: seq<Event>, event: Event, i: int)
    ensures OffSince(founder, before + [event], i) <==>
            if i == |before| then FounderRemovedAlone(founder, before + [event], i)
            else OffSince(founder, before, i) && !event.1
  {
    var events := before + [event];
    if 0 <= i < |before| {
      assert events[..i] == before[..i];
      assert forall j :: 0 <= j < |before| ==> before[j] == events[j];
      assert events[|before|] == event;
    }
  }

  ghost predicate IsOffSinceRemoval(founder: string, events: seq<Event>) {
    exists i :: OffSince(founder, events, i)
  }

  lemma IsOffStep(founder: string, before: seq<Event>, event: Event)
    ensures IsOffSinceRemoval(founder, before + [event]) <==>
            FounderRemovedAlone(founder, before + [event], |before|)
            || (IsOffSinceRemoval(founder, before) && !event.1)
  {
    forall i ensures OffSince(founder, before + [event], i) <==>
                     if i == |before| then FounderRemovedAlone(founder, before + [event], i)
                     else OffSince(founder, before, i) && !event.1
    {
      OffSinceStep(founder, before, event, i);
    }
  }

  /** It is off if and only if that has happened and nothing has been activated since. */
  lemma {:induction false} OffExactly(founder: string, events: seq<Event>)
    ensures !After(founder, events).nativeOn <==> IsOffSinceRemoval(founder, events)
  {
    if events != [] {
      var n := |events| - 1;
      OffExactly(founder, events[..n]);
      TurnsOffNow(founder, events);
      assert events == events[..n] + [events[n]];
      IsOffStep(founder, events[..n], events[n]);
      if !After(founder, events[..n]).nativeOn {
        TurnsOnExactly(founder, events);
      }
    }
  }

  /** What the last message of a run does to a native breakpoint that is on. */
  lemma TurnsOffNow(founder: string, events: seq<Event>)
    requires events != []
    ensures var n := |events| - 1;
            && (FounderRemovedAlone(founder, events, n) ==> After(founder, events[..n]).nativeOn)
            && (After(founder, events[..n]).nativeOn ==>
                  (!After(founder, events).nativeOn <==> FounderRemovedAlone(founder, events, n)))
  {
    var n := |events| - 1;
    TurnsOffExactly(founder, events, n);
    assert events[..n + 1] == events;
  }

  /** With the native breakpoint off the list is empty, and only an activation turns it on. */
  lemma TurnsOnExactly(founder: string, events: seq<Event>)
    requires events != [] && !After(founder, events[..|events| - 1]).nativeOn
    ensures After(founder, events).nativeOn <==> events[|events| - 1].1
  {
    var n := |events| - 1;
    AfterSafe(founder, events[..n]);
    var l, e := After(founder, events[..n]), events[n];
    assert IndexOf(l.breakpoints, e.0) == -1;
    assert After(founder, events) == Update(l, e.0, e.1, ALL_WORK).0;
  }

  /** The header promises that an empty list leaves the native breakpoint off; here it stays on. */
  lemma EmptyListCanStayOn()
    ensures After("f", [("b", true), ("f", false), ("b", false)]) == Location([], true)
  {
    var e0, e1, e2 := [], [("b", true)], [("b", true), ("f", false)];
    var e3 := [("b", true), ("f", false), ("b", false)];
    assert e1[..0] == e0 && e2[..1] == e1 && e3[..2] == e2;
    assert After("f", e1) == Location([Entry("f", false), Entry("b", true)], true);
    assert After("f", e2) == Location([Entry("b", true)], true);
  }

  /**
   * The header's promise, that a location left empty is switched off, holds exactly when some id
   * is set, or the founder was removed alone and nothing has been activated since.
   */
  lemma HeaderHoldsExactly(founder: string, events: seq<Event>)
    ensures (After(founder, events).breakpoints == [] ==> !After(founder, events).nativeOn) <==>
            Live({founder}, events) != {} || IsOffSinceRemoval(founder, events)
  {
    AfterSafe(founder, events);
    OffExactly(founder, events);
    var es := After(founder, events).breakpoints;
    assert es != [] ==> es[0].id in EntryIds(es);
  }
}
