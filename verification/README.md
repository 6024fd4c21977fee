# A Dafny model of the Google Cloud .NET debugger

The debugger consists of an agent, written in C#, that polls the debugger API for breakpoints, and
a native debugger, written in C++, that sets them in the debuggee. They talk over a named pipe.
This project models the logic of both in Dafny and proves properties of it. `dafny verify
dfyconfig.toml` checks everything.

**Breakpoint synchronisation.** `Framing` holds the START/END framing of messages, the two readers
that reassemble frames from arbitrary reads, and the exact condition on payloads under which
framing is safe; `NamedPipes` the chunked write. `Agent` holds the snapshot diff and the messages
it sends, `Locations` the breakpoints of one location and the native on/off breakpoint they share,
`Debugger` the map of locations (keyed as in `LocationKeys`) and the read/apply loop. `EndToEnd`
joins them into one state machine over bytes, in which polls, reads, chunk boundaries and the
answers of PDB files vary freely; its main results are `EndToEndExactly`, which says of any run for
which ids agent and debugger end up apart, and `EndToEndAgreement`, that with PDB files that always
answer the same only ids whose location does not resolve are missing.

**Metadata decoding.** `CompressedInts` and `TypeSignatures` hold the encodings that sections
II.23.2 and II.23.2.12 of ECMA-335 define, the decoders of the code, and the round trips between
them; `TypeTags` says what each element type means on the bytes alone, and `TruncatedSignatures`
what becomes of encodings that are cut short. `BinaryStreams` holds the bounded stream and its
chunked string reader.

**Rendering and the rest.** `Arrays` (the odometer that names array elements), `Enums` (flag
decomposition, a 64-bit value being the set of its one bits, since only bitwise operations are
applied), `LogTemplates` (logpoint formats), `Placement` (choosing document, method and sequence
point) and `Backoff`.

Objects whose methods change fields are classes here, loops are loops, and each method is proved
equal to a function of its old state; the lemmas then say what that function means. Things the code
cannot see into are parameters: serialisation (`encode`, `decode`), what each PDB file answers,
whether a native call works, the metadata's names, the outcomes of RPCs. A pipe is the list of reads
it will deliver; a read beyond them fails, which makes both readers drop the bytes gathered so far.

Where the code and what is said about it differ, the code is modelled and the difference is a lemma:

- `breakpoint_location_collection.h:46-48` says a location without active breakpoints has its
  native breakpoint switched off. The founder of a location is stored unactivated and the
  deactivation check runs before the entry is erased, so this fails (`EmptyListCanStayOn`);
  `OffExactly` and `NativeOffExactly` say when it does happen, `HeaderHoldsExactly` when the promise
  is kept.
- `breakpoint_collection.cc:197-248` forgets an addition that no PDB file places, and creates an
  unknown location for any request, even a removal. Modules are loaded, and their PDB files added,
  while messages arrive (`debugger_callback.cc:201`), so a removal can install its breakpoint
  (`RemovalCanInstall`). `RemovalInstallsExactly` says when one message does,
  `InstalledDiffersExactly` when whole runs leave something else installed than was asked for.
- `breakpoint_client.cc:57` tests the position of END where that of START is meant
  (`ReadersAgreeExactly`).
- `custom_binary_reader.h:81-83` promises the string up to NUL or the end of the stream; without a
  NUL the rest of a reused buffer can follow it (`StringReadExactly`). From an offset past the
  relative end the count of bytes left wraps around and reading goes on (`ReadFromBeyond`).
- `cor_debug_helper.cc:662-676` accepts any first number that shares a bit with the convention it
  expects (`ConventionCheckExactly`).
- `cor_debug_helper.cc:492-493` takes an element type without looking at the length, which wraps
  around at the end of a truncated signature; the source then reads on, the model reports `Overrun`
  (`CutElementOverruns`). `CutExactly` says at which cuts: exactly where a type begins. Complete
  encodings never get there (`CompleteNeverOverruns`), and no truncated one is taken for a type
  (`TruncatedNeverParses`).
- `LoggingClient.cs:121-125` takes every digit after a reference into its number
  (`ReferenceCanRunOn`); `TemplateRoundTripExact` says which templates show as meant.
- `dbg_breakpoint.cc:144-148` means to choose the innermost method. This depends on the order in
  which methods are listed, as an accepted method moves the line that later ones are compared with
  (`OuterFirstCanMissInner`, `OuterFirstCanLeaveLine`); `InnermostChosenExactly` says when it is
  chosen, `DescendingFindsInnermost` and `ExactLineFindsInnermost` give two cases in which it is.
- `BreakpointActionServer.cs:89-94` bounds the wait by the maximum (`NeverAboveMaxExactly`).

## Model

| member | source | states |
|---|---|---|
| `Framing.Match` | src/Google.Cloud.Diagnostics.Debug/Google.Cloud.Diagnostics.Debug/BreakpointServer.cs:124-134 | true exactly when the sequence stands at the index |
| `Framing.IndexOfSequence` | src/Google.Cloud.Diagnostics.Debug/Google.Cloud.Diagnostics.Debug/BreakpointServer.cs:104-118 | the index of the first occurrence, or -1 exactly when there is none |
| `Framing.MarkerOverlaps` | src/Google.Cloud.Diagnostics.Debug/Google.Cloud.Diagnostics.Debug/Constants.cs:28-31 | the last letter of START begins END, and the last letter of END does; no other proper suffix of either begins END |
| `Framing.FrameSafetyExact` | src/Google.Cloud.Diagnostics.Debug/Google.Cloud.Diagnostics.Debug/BreakpointServer.cs:59-79 | for every payload: the first END of its frame is the closing one if and only if the payload meets the four clauses of FrameSafe |
| `Framing.EarlyOccurs` | src/Google.Cloud.Diagnostics.Debug/Google.Cloud.Diagnostics.Debug/BreakpointServer.cs:104-118 | an END found before the closing one forces one of four shapes on the payload |
| `Framing.UnsafeOccurs` | src/Google.Cloud.Diagnostics.Debug/Google.Cloud.Diagnostics.Debug/BreakpointServer.cs:104-118 | conversely, each of the four shapes makes an END that is found too early |
| `Framing.Pipe.Read` | src/Google.Cloud.Diagnostics.Debug/Google.Cloud.Diagnostics.Debug/NamedPipe.cs:36-41 | a read hands over the next piece, or fails when none is left |
| `Framing.ReadUntilEnd` | src/Google.Cloud.Diagnostics.Debug/Google.Cloud.Diagnostics.Debug/BreakpointServer.cs:56-67 | the gathering loop: reads until END has arrived, or a read fails |
| `Framing.BreakpointServer.ReadBreakpoint` | src/Google.Cloud.Diagnostics.Debug/Google.Cloud.Diagnostics.Debug/BreakpointServer.cs:48-86 | the agent's read in place: result, kept buffer and reads consumed; a missing START or a negative length is an error that drops the buffer |
| `Framing.BreakpointClient.ReadBreakpoint` | src/google_cloud_debugger/google_cloud_debugger_lib/breakpoint_client.cc:36-72 | the debugger's read in place, with its ineffective START check and std::string::substr's clamping |
| `Framing.ReadersAgreeExactly` | src/google_cloud_debugger/google_cloud_debugger_lib/breakpoint_client.cc:55-65 | the two readers treat a buffer alike if and only if START precedes END (or is missing from a buffer too short for substr) |
| `Framing.FillExactly` | src/Google.Cloud.Diagnostics.Debug/Google.Cloud.Diagnostics.Debug/BreakpointServer.cs:56-67 | the gathering stops after the first read with which END has arrived, keeping the reads to come, or fails after all of them |
| `Framing.AgentCutExactly` | src/Google.Cloud.Diagnostics.Debug/Google.Cloud.Diagnostics.Debug/BreakpointServer.cs:69-85 | the agent accepts exactly a frame found by the first START and the first END, leaving what follows it, and otherwise keeps nothing |
| `Framing.DebuggerCutExactly` | src/google_cloud_debugger/google_cloud_debugger_lib/breakpoint_client.cc:55-71 | the debugger accepts the same frames; with START behind END or missing it delivers the bytes stated |
| `Framing.FirstEndOfStream` | src/google_cloud_debugger/google_cloud_debugger_lib/breakpoint_client.cc:44-53 | however much of a stream has arrived, its first END is the one closing the first frame, if that is there yet |
| `Framing.ReadDeliversFirst` | src/google_cloud_debugger/google_cloud_debugger_lib/breakpoint_client.cc:36-72 | under any cutting into reads both ends deliver the first payload, and bytes kept and unread are the rest of the stream |
| `Framing.FramingRoundTrip` | src/google_cloud_debugger/google_cloud_debugger_lib/breakpoint_client.cc:36-83 | for every list of frame-safe payloads, any chunking and any n: at either end the first n reads deliver the first n payloads, and the bytes kept and unread are the frames of the others |
| `Framing.FramingExact` | src/google_cloud_debugger/google_cloud_debugger_lib/breakpoint_client.cc:36-83 | for every list of payloads and any chunking: all reads deliver their payloads and conserve the stream, at either end, if and only if every payload is frame-safe |
| `Framing.FirstFrameExact` | src/Google.Cloud.Diagnostics.Debug/Google.Cloud.Diagnostics.Debug/BreakpointServer.cs:48-96 | under a given chunking the first of the frames in a stream is read back whole and the others are left, at either end, if and only if its payload is frame-safe |
| `NamedPipes.WriteAsync` | src/Google.Cloud.Diagnostics.Debug/Google.Cloud.Diagnostics.Debug/NamedPipe.cs:44-56 | the pieces written concatenate to the bytes; all but the last hold 1024 bytes, the last 1 to 1024 |
| `NamedPipes.WriteBreakpointAsync` | src/Google.Cloud.Diagnostics.Debug/Google.Cloud.Diagnostics.Debug/BreakpointServer.cs:89-96 | the bytes in the pipe grow by exactly one frame of the payload |
| `Agent.IndexById` | src/Google.Cloud.Diagnostics.Debug/Google.Cloud.Diagnostics.Debug/BreakpointManager.cs:59-66 | indexes a snapshot by id, a repeated id keeping its first breakpoint |
| `Agent.FirstByIdIsFirst` | src/Google.Cloud.Diagnostics.Debug/Google.Cloud.Diagnostics.Debug/BreakpointManager.cs:60-66 | the breakpoint kept for an id is the first one listed with it |
| `Agent.BreakpointManager.UpdateBreakpoints` | src/Google.Cloud.Diagnostics.Debug/Google.Cloud.Diagnostics.Debug/BreakpointManager.cs:55-90 | the new dictionary, and New and Removed as enumerations, in any order, of what was added and dropped |
| `Agent.NewIdStored` | src/Google.Cloud.Diagnostics.Debug/Google.Cloud.Diagnostics.Debug/BreakpointManager.cs:68-73 | an id not stored before is stored with its first listed breakpoint |
| `Agent.SnapshotDiff` | src/Google.Cloud.Diagnostics.Debug/Google.Cloud.Diagnostics.Debug/BreakpointManager.cs:59-83 | keys become the snapshot's ids; New and Removed are disjoint; replaying them over the old ids gives the new ones; a persisting id keeps its breakpoint |
| `Agent.BreakpointWriteActionServer.MainAction` | src/Google.Cloud.Diagnostics.Debug/Google.Cloud.Diagnostics.Debug/BreakpointWriteActionServer.cs:49-69 | null changes nothing; otherwise the pipe gains the frames of the removals, deactivated, then of the additions |
| `Agent.ReplayRemovals` | src/Google.Cloud.Diagnostics.Debug/Google.Cloud.Diagnostics.Debug/BreakpointWriteActionServer.cs:58-63 | the removal messages take exactly the removed ids out, each naming the stored breakpoint |
| `Agent.ReplayAdditions` | src/Google.Cloud.Diagnostics.Debug/Google.Cloud.Diagnostics.Debug/BreakpointWriteActionServer.cs:65-68 | the addition messages put exactly the new breakpoints in |
| `Agent.MessagesReplayDiff` | src/Google.Cloud.Diagnostics.Debug/Google.Cloud.Diagnostics.Debug/BreakpointWriteActionServer.cs:56-68 | the messages for a snapshot, replayed, carry the old dictionary to the new one; each addition is of a new id and each removal names the breakpoint that was added |
| `Agent.MessagesInOrder` | src/Google.Cloud.Diagnostics.Debug/Google.Cloud.Diagnostics.Debug/BreakpointWriteActionServer.cs:56-68 | every removal, deactivated and in the order listed, comes before every addition, activated |
| `LocationKeys.KeyFaithful` | src/google_cloud_debugger/google_cloud_debugger_lib/dbg_breakpoint.h:159-161 | keys are equal if and only if path and line are, whatever '#' the paths contain |
| `LocationKeys.LowerExactly` | src/google_cloud_debugger/google_cloud_debugger_lib/dbg_breakpoint.cc:62-65 | two paths are the same in lower case if and only if they differ in the case of letters only |
| `Debugger.SameKeySameLocation` | src/google_cloud_debugger/google_cloud_debugger_lib/dbg_breakpoint.cc:62-65 | two breakpoints share a key if and only if their paths differ in the case of letters only and their lines agree |
| `Decimal.ParsePrint` | src/google_cloud_debugger/google_cloud_debugger_lib/dbg_breakpoint.h:159-161 | reading a printed number gives the number |
| `Decimal.NumeralSuffix` | src/google_cloud_debugger/google_cloud_debugger_lib/dbg_breakpoint.h:159-161 | a text that ends in a numeral splits in only one way |
| `Locations.BreakpointLocationCollection.ActivateCorDebugBreakpointHelper` | src/google_cloud_debugger/google_cloud_debugger_lib/breakpoint_location_collection.cc:121-161 | the native toggle in place, with failing native calls |
| `Locations.BreakpointLocationCollection.UpdateExistingBreakpoint` | src/google_cloud_debugger/google_cloud_debugger_lib/breakpoint_location_collection.cc:95-119 | update of a known id: toggle first, with the entry still listed, then erase |
| `Locations.BreakpointLocationCollection.UpdateBreakpoints` | src/google_cloud_debugger/google_cloud_debugger_lib/breakpoint_location_collection.cc:45-93 | the whole update of a location in place |
| `Locations.UpdateEntries` | src/google_cloud_debugger/google_cloud_debugger_lib/breakpoint_location_collection.cc:45-119 | which entries an update leaves: the old ones, one appended, or one erased |
| `Locations.UpdateIds` | src/google_cloud_debugger/google_cloud_debugger_lib/breakpoint_location_collection.cc:45-119 | an activation adds the id and a deactivation takes it out; a failed update leaves the ids alone |
| `Locations.UpdateFailsExactly` | src/google_cloud_debugger/google_cloud_debugger_lib/breakpoint_location_collection.cc:121-161 | an update fails if and only if it has to ask or switch the native breakpoint and that call fails |
| `Locations.UpdateNativeExactly` | src/google_cloud_debugger/google_cloud_debugger_lib/breakpoint_location_collection.cc:45-161 | the native breakpoint after an update: on after an activation, after a removal on if and only if it was on and an activated entry was listed; a failed update changes nothing |
| `Locations.UpdateKeepsSafe` | src/google_cloud_debugger/google_cloud_debugger_lib/breakpoint_location_collection.cc:28-161 | whichever native calls fail: a non-empty list has its native breakpoint on, ids are distinct, and only index 0 can be unactivated |
| `Locations.UpdateTurnsOff` | src/google_cloud_debugger/google_cloud_debugger_lib/breakpoint_location_collection.cc:136-158 | a working update turns the native breakpoint off if and only if it removes a lone unactivated founder |
| `Locations.AfterSafe` | src/google_cloud_debugger/google_cloud_debugger_lib/breakpoint_location_collection.cc:45-161 | over any run at a location the list holds exactly the ids the messages leave set |
| `Locations.AttemptsExactly` | src/google_cloud_debugger/google_cloud_debugger_lib/breakpoint_location_collection.cc:45-161 | over any run with failing native calls the list holds exactly the ids left set by the messages whose update did not fail |
| `Locations.AfterHeaded` | src/google_cloud_debugger/google_cloud_debugger_lib/dbg_breakpoint.cc:49-53 | the founder, its activated flag not copied, heads the list until it is removed; everything else is activated |
| `Locations.TurnsOffExactly` | src/google_cloud_debugger/google_cloud_debugger_lib/breakpoint_location_collection.cc:136-158 | in any run the native breakpoint goes off at a message if and only if that removes the founder, for the first time, while nothing else is set |
| `Locations.TurnsOffOnce` | src/google_cloud_debugger/google_cloud_debugger_lib/breakpoint_location_collection.cc:136-158 | that happens at most once in a run |
| `Locations.OffExactly` | src/google_cloud_debugger/google_cloud_debugger_lib/breakpoint_location_collection.cc:121-161 | after any run it is off if and only if that happened and nothing has been activated since |
| `Locations.EmptyListCanStayOn` | src/google_cloud_debugger/google_cloud_debugger_lib/breakpoint_location_collection.h:46-48 | the promise that an inactive location is switched off fails: a run that ends with an empty list and the native breakpoint on |
| `Locations.HeaderHoldsExactly` | src/google_cloud_debugger/google_cloud_debugger_lib/breakpoint_location_collection.h:46-48 | after any run the promise holds if and only if some id is set, or the founder was removed alone and nothing has been activated since |
| `Debugger.BreakpointCollection.SearchPdbFiles` | src/google_cloud_debugger/google_cloud_debugger_lib/breakpoint_collection.cc:209-234 | placed, or failed to activate, if and only if some PDB file says so and all before it did not parse or did not place it; not placed if and only if all are such |
| `Debugger.SearchExactly` | src/google_cloud_debugger/google_cloud_debugger_lib/breakpoint_collection.cc:209-234 | the same of the search as every other result uses it |
| `Debugger.BreakpointCollection.UpdateBreakpoint` | src/google_cloud_debugger/google_cloud_debugger_lib/breakpoint_collection.cc:175-249 | one request applied to the map of locations in place; an unknown location is created even by a removal |
| `Debugger.ApplyNewExactly` | src/google_cloud_debugger/google_cloud_debugger_lib/breakpoint_collection.cc:197-248 | a request for an unknown location, by what the PDB files say: it creates the location with its breakpoint unactivated and the native one on, or changes nothing, with the result code |
| `Debugger.ApplyKnownExactly` | src/google_cloud_debugger/google_cloud_debugger_lib/breakpoint_collection.cc:181-195 | a request for a known location updates that one and no other |
| `Debugger.BreakpointCollection.SyncBreakpoints` | src/google_cloud_debugger/google_cloud_debugger_lib/breakpoint_collection.cc:251-272 | the read/apply loop in place, until a kill message or a failed read |
| `Debugger.SyncAppliesAll` | src/google_cloud_debugger/google_cloud_debugger_lib/breakpoint_collection.cc:251-272 | for every stream of carried messages and any chunking the loop applies each message, in order, and ends when the pipe does |
| `Debugger.SyncStopsAtKill` | src/google_cloud_debugger/google_cloud_debugger_lib/breakpoint_collection.cc:260-262 | the loop ends with S_OK at a message that kills the server: all before it are applied, none after |
| `Debugger.SyncStopsAtGarbage` | src/google_cloud_debugger/google_cloud_debugger_lib/breakpoint_collection.cc:255-258 | the loop ends with an error at a payload that is no message: all before it are applied |
| `Debugger.RunIsSafe` | src/google_cloud_debugger/google_cloud_debugger_lib/breakpoint_collection.cc:197-248 | every location is safe after any messages in any environment, failing native calls included |
| `Debugger.RunAtKnown` | src/google_cloud_debugger/google_cloud_debugger_lib/breakpoint_collection.cc:181-195 | whatever PDB files answer and native calls fail, a whole run is, at an existing location, the run of the messages with its key |
| `Debugger.RunAtNew` | src/google_cloud_debugger/google_cloud_debugger_lib/breakpoint_collection.cc:197-248 | whatever PDB files answer and native calls fail, a location exists after a run if and only if some message for it was placed; the first such message, be it a removal, founds it, and it lives through the messages after that one |
| `Debugger.FounderIsFirst` | src/google_cloud_debugger/google_cloud_debugger_lib/breakpoint_collection.cc:197-248 | the founding message is placed, and no message for the location before it is |
| `Debugger.NativeOffExactly` | src/google_cloud_debugger/google_cloud_debugger_lib/breakpoint_location_collection.cc:95-161 | over any whole run without native failures, however PDB files answer, a location's native breakpoint is off if and only if its founder was removed alone and nothing was activated there since |
| `Debugger.RemovalInstallsExactly` | src/google_cloud_debugger/google_cloud_debugger_lib/breakpoint_collection.cc:181-248 | for every safe world, removal and environment: afterwards the id is installed if and only if the location was unknown and is placed, or the id was installed and the native calls needed fail |
| `Debugger.InstalledEffectively` | src/google_cloud_debugger/google_cloud_debugger_lib/breakpoint_collection.cc:175-249 | over any run, whatever fails, what is installed at a location is the founder's id as changed by those messages since whose update did not fail |
| `Debugger.InstalledExactly` | src/google_cloud_debugger/google_cloud_debugger_lib/breakpoint_collection.cc:175-249 | without native failures it is the founder's id as changed by all messages since |
| `Debugger.InstalledDiffersExactly` | src/google_cloud_debugger/google_cloud_debugger_lib/breakpoint_collection.cc:175-249 | over any run without native failures an id is installed against what the messages say if and only if it is set and nothing was placed, or it was not named since the founder and is that of a founding removal or was set before the founder |
| `EndToEnd.LeftSetIsStored` | src/Google.Cloud.Diagnostics.Debug/Google.Cloud.Diagnostics.Debug/BreakpointWriteActionServer.cs:49-69 | the ids the messages leave set at a location are exactly those the agent stores for it |
| `EndToEnd.InstalledWhenUnchanging` | src/google_cloud_debugger/google_cloud_debugger_lib/breakpoint_collection.cc:175-249 | with PDB files that always answer the same, every run of fitting messages leaves installed exactly what they leave stored and what resolves |
| `EndToEnd.ReadYieldsFirstPending` | src/google_cloud_debugger/google_cloud_debugger_lib/breakpoint_client.cc:36-72 | a read that yields a message, on however few of the bytes under way, yields the first pending one |
| `EndToEnd.PollKeepsAgent` | src/Google.Cloud.Diagnostics.Debug/Google.Cloud.Diagnostics.Debug/BreakpointWriteActionServer.cs:49-69 | a poll keeps the dictionary equal to the replay of everything sent |
| `EndToEnd.DeliverKeepsPipe` | src/google_cloud_debugger/google_cloud_debugger_lib/breakpoint_collection.cc:251-272 | a delivery takes the next message sent off the pipe, and nothing else |
| `EndToEnd.StepKeepsInvariant` | src/google_cloud_debugger/google_cloud_debugger_lib/breakpoint_collection.cc:251-272 | every step of agent or debugger keeps the protocol's invariant |
| `EndToEnd.Reachable` | src/Google.Cloud.Diagnostics.Debug/Google.Cloud.Diagnostics.Debug/BreakpointWriteActionServer.cs:49-69 | the invariant holds in every reachable state, for any interleaving of polls and reads, any chunking, any answers of PDB files and any native failures |
| `EndToEnd.ReachableIsSafe` | src/google_cloud_debugger/google_cloud_debugger_lib/breakpoint_location_collection.cc:28-161 | every location is safe in every reachable state, whatever native calls fail |
| `EndToEnd.ManagerHoldsLastSnapshot` | src/Google.Cloud.Diagnostics.Debug/Google.Cloud.Diagnostics.Debug/BreakpointManager.cs:55-90 | after any run the agent's ids are those of the last non-null snapshot |
| `EndToEnd.StoredBreakpointKept` | src/Google.Cloud.Diagnostics.Debug/Google.Cloud.Diagnostics.Debug/BreakpointManager.cs:68-73 | while an id stays listed the agent keeps the breakpoint it first stored for it |
| `EndToEnd.EndToEndExactly` | src/Google.Cloud.Diagnostics.Debug/Google.Cloud.Diagnostics.Debug/BreakpointWriteActionServer.cs:49-69 | once the debugger has read everything, without native failures but however PDB files answer, an id is installed at a location just when the agent, whose ids are those of the last snapshot, stores it there, except exactly for the ids that went astray |
| `EndToEnd.EndToEndAgreement` | src/Google.Cloud.Diagnostics.Debug/Google.Cloud.Diagnostics.Debug/BreakpointWriteActionServer.cs:49-69 | once the debugger has read everything, with PDB files that always answer the same, the installed ids are exactly those of the last snapshot whose stored location resolves, each at that location only |
| `EndToEnd.DeliveryIsEnabled` | src/google_cloud_debugger/google_cloud_debugger_lib/breakpoint_client.cc:36-72 | while bytes are under way, reading them delivers a message, so the debugger never gets stuck |
| `EndToEnd.CanDrain` | src/google_cloud_debugger/google_cloud_debugger_lib/breakpoint_collection.cc:251-272 | every run can be continued by deliveries alone to a state in which everything has been read |
| `EndToEnd.RemovalCanInstall` | src/google_cloud_debugger/google_cloud_debugger_lib/breakpoint_collection.cc:197-248 | a module loaded between the two messages: the addition is not placed, and the removal installs the breakpoint that the agent no longer stores |
| `CompressedInts.UnsignedRoundTrip` | src/google_cloud_debugger/google_cloud_debugger_lib/custom_binary_reader.cc:292-335 | every n up to 0x1FFFFFFF is decoded from its standard encoding, whatever follows, in exactly 1, 2 or 4 bytes |
| `CompressedInts.CanonicalExactly` | src/google_cloud_debugger/google_cloud_debugger_lib/custom_binary_reader.cc:292-335 | what is decoded is in range, and its bytes are the standard's encoding if and only if their number is |
| `CompressedInts.DecodesExactly` | src/google_cloud_debugger/google_cloud_debugger_lib/custom_binary_reader.cc:292-335 | the value of the bytes in each of the three forms, by masks and shifts as JoinedBits has them |
| `CompressedInts.StandardsExamples` | src/google_cloud_debugger/google_cloud_debugger_lib/custom_binary_reader.cc:292-379 | the fifteen examples section II.23.2 of ECMA-335 gives |
| `CompressedInts.SignedRoundTrip` | src/google_cloud_debugger/google_cloud_debugger_lib/custom_binary_reader.cc:337-379 | every i in [-2^28, 2^28) is decoded from its rotated two's complement in 7, 14 or 29 bits |
| `CompressedInts.SignedExactly` | src/google_cloud_debugger/google_cloud_debugger_lib/custom_binary_reader.cc:337-379 | what is decoded as signed is the two's complement of 7, 14 or 29 bits rotated back |
| `CompressedInts.SkipSigned` | src/google_cloud_debugger/google_cloud_debugger_lib/cor_debug_helper.cc:650-657 | reading a signed value as an unsigned one passes over the same bytes |
| `CompressedInts.LeadBits` | src/google_cloud_debugger/google_cloud_debugger_lib/custom_binary_reader.cc:43-45 | the three mask tests on the first byte are the three ranges the model compares with |
| `CompressedInts.JoinedBits` | src/google_cloud_debugger/google_cloud_debugger_lib/custom_binary_reader.cc:312-331 | shifting, or-ing and masking bytes is the arithmetic of the model |
| `CompressedInts.MaskBits` | src/google_cloud_debugger/google_cloud_debugger_lib/custom_binary_reader.cc:50-52 | merging a sign mask into a value below it is adding the mask |
| `BinaryStreams.CustomBinaryStream.ReadBytes` | src/google_cloud_debugger/google_cloud_debugger_lib/custom_binary_reader.cc:88-99 | succeeds exactly when enough bytes lie before the relative end, and then returns and passes those |
| `BinaryStreams.CustomBinaryStream.Peek` | src/google_cloud_debugger/google_cloud_debugger_lib/custom_binary_reader.cc:106-115 | the next byte before the relative end, without moving |
| `BinaryStreams.CustomBinaryStream.SetStreamLength` | src/google_cloud_debugger/google_cloud_debugger_lib/custom_binary_reader.cc:148-174 | narrows the stream if and only if the new end is not past the relative end; otherwise nothing changes |
| `BinaryStreams.CustomBinaryStream.ReadCompressedUInt32` | src/google_cloud_debugger/google_cloud_debugger_lib/custom_binary_reader.cc:292-335 | the decoded value and its width passed, or failure with at most four bytes passed |
| `BinaryStreams.CustomBinaryStream.ReadCompressSignedInt32` | src/google_cloud_debugger/google_cloud_debugger_lib/custom_binary_reader.cc:337-379 | the decoded signed value and its width passed |
| `BinaryStreams.CustomBinaryStream.GetBlobBytes` | src/google_cloud_debugger/google_cloud_debugger_lib/custom_binary_reader.cc:231-263 | the blob at an offset, bounded by the relative end, with the position restored |
| `BinaryStreams.BlobRoundTrip` | src/google_cloud_debugger/google_cloud_debugger_lib/custom_binary_reader.cc:246-260 | a printed blob followed by anything is read back whole |
| `BinaryStreams.CustomBinaryStream.GetString` | src/google_cloud_debugger/google_cloud_debugger_lib/custom_binary_reader.cc:182-229 | what the loop reads in every case: for an offset before the relative end the exact bytes for any text, past it whole buffers up to a NUL or failure; the position is restored |
| `BinaryStreams.ReadLoopIs` | src/google_cloud_debugger/google_cloud_debugger_lib/custom_binary_reader.cc:202-225 | a buffer without NUL never ends the text early; its stale tail shows only when no NUL comes |
| `BinaryStreams.ReadLoopFromStart` | src/google_cloud_debugger/google_cloud_debugger_lib/custom_binary_reader.cc:196-225 | the chunked loop returns the bytes up to the first NUL for any length, or all bytes and the stale tail |
| `BinaryStreams.StringReadExactly` | src/google_cloud_debugger/google_cloud_debugger_lib/custom_binary_reader.h:81-83 | the documented string (to NUL or end) is returned if and only if there is a NUL or the text fills whole 100-byte buffers or less than one |
| `BinaryStreams.ReadFromBeyond` | src/google_cloud_debugger/google_cloud_debugger_lib/custom_binary_reader.cc:196-225 | from past the relative end, the text up to a NUL that lies in a whole 100-byte buffer before the stream's end, and failure if there is none |
| `TypeSignatures.TypeRoundTrip` | src/google_cloud_debugger/google_cloud_debugger_lib/cor_debug_helper.cc:486-638 | for every nested type and any following bytes: parsing its standard encoding takes exactly those bytes and yields its resolved signature, or the error that keeps it from resolving |
| `TypeSignatures.PrintEncodes` | src/google_cloud_debugger/google_cloud_debugger_lib/cor_debug_helper.cc:486-638 | what the printer writes is an encoding of the type by the standard's grammar |
| `TypeSignatures.EncodingParses` | src/google_cloud_debugger/google_cloud_debugger_lib/cor_debug_helper.cc:486-638 | the round trip for every encoding, also one whose numbers take more bytes than they need |
| `TypeSignatures.ParsesExactly` | src/google_cloud_debugger/google_cloud_debugger_lib/cor_debug_helper.cc:486-638 | for all bytes: the parser yields a signature and a rest if and only if the bytes are an encoding of some type, followed by the rest, that resolves to the signature |
| `TypeSignatures.TypesRoundTrip` | src/google_cloud_debugger/google_cloud_debugger_lib/cor_debug_helper.cc:578-586 | the same for a list of generic arguments |
| `TypeSignatures.ShapeRoundTrip` | src/google_cloud_debugger/google_cloud_debugger_lib/cor_debug_helper.cc:531-557 | the rank of an array shape is read and its sizes and lower bounds are passed over |
| `TypeSignatures.TopBytes` | src/google_cloud_debugger/google_cloud_debugger_lib/cor_debug_helper.cc:598-603 | which row numbers of more than 24 bits leave a TypeDef or TypeRef token what it is |
| `TypeTags.TokensExactly` | src/google_cloud_debugger/google_cloud_debugger_lib/cor_debug_helper.cc:588-615 | for every token: tag 0 names a row of the TypeDef table and tag 1 one of the TypeRef table, if the row number's high bits leave the top byte as it is; NameNotFound without a name, NotImplemented otherwise |
| `TypeTags.TableTokens` | src/google_cloud_debugger/google_cloud_debugger_lib/cor_debug_helper.cc:588-615 | the same for row numbers of at most 24 bits |
| `TypeTags.NumbersExactly` | src/google_cloud_debugger/google_cloud_debugger_lib/compiler_helpers.cc:320-349 | the bytes of the numeric types and their names |
| `TypeTags.OtherSimpleExactly` | src/google_cloud_debugger/google_cloud_debugger_lib/compiler_helpers.cc:320-349 | the bytes of the Boolean, character, string and object types and their names |
| `TypeTags.SzArrayExactly` | src/google_cloud_debugger/google_cloud_debugger_lib/cor_debug_helper.cc:509-521 | 0x1D and a type is an array of it |
| `TypeTags.ArrayExactly` | src/google_cloud_debugger/google_cloud_debugger_lib/cor_debug_helper.cc:522-557 | 0x14, a type, a rank, sizes and lower bounds is an array of that type and rank |
| `TypeTags.GenericInstExactly` | src/google_cloud_debugger/google_cloud_debugger_lib/cor_debug_helper.cc:559-588 | 0x15, a type, a count and so many types takes its name from the first and has the others as arguments |
| `TypeTags.TypesInOrder` | src/google_cloud_debugger/google_cloud_debugger_lib/cor_debug_helper.cc:577-586 | a list of types is read in order |
| `TypeTags.VariableExactly` | src/google_cloud_debugger/google_cloud_debugger_lib/cor_debug_helper.cc:616-634 | 0x13 and a number is the type argument with that number, or an error when there are not so many |
| `TypeTags.OthersNotImplemented` | src/google_cloud_debugger/google_cloud_debugger_lib/cor_debug_helper.cc:635-637 | every other first byte is not supported |
| `TypeSignatures.FieldRoundTrip` | src/google_cloud_debugger/google_cloud_debugger_lib/cor_debug_helper.cc:438-456 | 0x06 and a type is a field signature and yields the type |
| `TypeSignatures.PropertyRoundTrip` | src/google_cloud_debugger/google_cloud_debugger_lib/cor_debug_helper.cc:458-484 | 0x08, or 0x28 with HASTHIS, a count and a type is a property signature and yields the type, leaving the parameters |
| `TypeSignatures.ConventionCheckExactly` | src/google_cloud_debugger/google_cloud_debugger_lib/cor_debug_helper.cc:662-676 | the FIELD check passes if and only if the first number shares a bit with 0x06, as 7 does, and the PROPERTY check if and only if it shares 0x08 |
| `TypeTags.ConventionBits` | src/google_cloud_debugger/google_cloud_debugger_lib/cor_debug_helper.cc:671 | the bits of 0x06 and 0x08 in a number |
| `TruncatedSignatures.CompleteNeverOverruns` | src/google_cloud_debugger/google_cloud_debugger_lib/cor_debug_helper.cc:486-638 | no complete type makes the parser read past its end or find a cut number |
| `TruncatedSignatures.TypeExtends` | src/google_cloud_debugger/google_cloud_debugger_lib/cor_debug_helper.cc:486-638 | a parse that succeeds, or fails for another reason than missing bytes, stays the same when bytes follow |
| `TruncatedSignatures.TruncatedNeverParses` | src/google_cloud_debugger/google_cloud_debugger_lib/cor_debug_helper.cc:486-638 | no proper prefix of a printed type parses: it runs past the end or finds a cut number, unless a part before the cut already fails to resolve |
| `TruncatedSignatures.CutExactly` | src/google_cloud_debugger/google_cloud_debugger_lib/cor_debug_helper.cc:486-638 | for every nested type that resolves and every cut of its encoding: the parser runs past the end if and only if the cut falls where the type or one it is made of begins, and reports a bad signature otherwise |
| `TruncatedSignatures.CutElementOverruns` | src/google_cloud_debugger/google_cloud_debugger_lib/cor_debug_helper.cc:492-493 | the field signature 06 1D makes the parser take a byte past the end |
| `TypeSignatures.SignatureReader.ParseCompressedBytes` | src/google_cloud_debugger/google_cloud_debugger_lib/cor_debug_helper.cc:425-436 | pointer and length move together over the decoded bytes |
| `TypeSignatures.SignatureReader.ParseAndSkipBasedOnFirstByteSignature` | src/google_cloud_debugger/google_cloud_debugger_lib/cor_debug_helper.cc:640-660 | passes over a count and as many compressed integers |
| `TypeSignatures.SignatureReader.ParseTypeFromSig` | src/google_cloud_debugger/google_cloud_debugger_lib/cor_debug_helper.cc:486-638 | the recursive parser in place is the parsing function and terminates on the length left; an element type past the signature's end, which the source would read, is the error Overrun |
| `TypeSignatures.SignatureReader.ParseTypesInPlace` | src/google_cloud_debugger/google_cloud_debugger_lib/cor_debug_helper.cc:578-586 | the loop over generic arguments in place |
| `TypeSignatures.SignatureReader.ParseFieldSig` | src/google_cloud_debugger/google_cloud_debugger_lib/cor_debug_helper.cc:438-456 | the field parser in place |
| `TypeSignatures.SignatureReader.ParsePropertySig` | src/google_cloud_debugger/google_cloud_debugger_lib/cor_debug_helper.cc:458-484 | the property parser in place |
| `Arrays.IncrementValue` | src/google_cloud_debugger/google_cloud_debugger_lib/dbg_array.cc:200-217 | one turn of the odometer keeps every digit below its dimension and adds one to the mixed-radix value |
| `Arrays.ValueDetermines` | src/google_cloud_debugger/google_cloud_debugger_lib/dbg_array.cc:176-187 | digits with value k are the row-major indices of element k, in closed form |
| `Arrays.OdometerExact` | src/google_cloud_debugger/google_cloud_debugger_lib/dbg_array.cc:176-217 | after k turns the tracker shows the row-major indices of element k, and no other digits do |
| `Arrays.NamesDistinct` | src/google_cloud_debugger/google_cloud_debugger_lib/dbg_array.cc:190-198 | elements have the same name if and only if they are the same |
| `Arrays.Advance` | src/google_cloud_debugger/google_cloud_debugger_lib/dbg_array.cc:205-216 | the inner loop in place is one turn of the odometer |
| `Arrays.PrintName` | src/google_cloud_debugger/google_cloud_debugger_lib/dbg_array.cc:190-198 | the name loop prints the indices, separated, in brackets |
| `Arrays.GetArraySize` | src/google_cloud_debugger/google_cloud_debugger_lib/dbg_array.cc:279-285 | the product of the dimensions, wrapped to 32 bits |
| `Integers.WrapsExactly` | src/google_cloud_debugger/google_cloud_debugger_lib/dbg_array.cc:279-285 | wrapping to 32 bits changes a number by multiples of 2^32 only |
| `Arrays.PopulateMembers` | src/google_cloud_debugger/google_cloud_debugger_lib/dbg_array.cc:159-247 | emits the members up to the limit, the k-th named after and fetched from element k |
| `Arrays.MemberExactly` | src/google_cloud_debugger/google_cloud_debugger_lib/dbg_array.cc:190-198 | the k-th member is named by its row-major indices, first dimension first, separated and in brackets |
| `Arrays.ShownExactly` | src/google_cloud_debugger/google_cloud_debugger_lib/dbg_array.cc:159-189 | min(product, limit) members are shown if and only if the 32-bit product did not wrap below both |
| `Enums.DbgEnum.PopulateValue` | src/google_cloud_debugger/google_cloud_debugger_lib/dbg_enum.cc:34-97 | without a cached text: the name of the first constant equal to the value, or without one the names of the chosen constants in table order, " | " before each once something has been shown; a cached text stays |
| `Enums.DecompositionExact` | src/google_cloud_debugger/google_cloud_debugger_lib/dbg_enum.cc:62-93 | named constants are pairwise disjoint subsets of the value that make it up together with the disjoint residual |
| `Enums.ChosenExactly` | src/google_cloud_debugger/google_cloud_debugger_lib/dbg_enum.cc:76-86 | a constant other than 0 is named if and only if it lies within the value and shares no bit with those named before it, and 0 if and only if those make up the value |
| `Enums.LeftOverExactly` | src/google_cloud_debugger/google_cloud_debugger_lib/dbg_enum.cc:76-86 | a bit of the value is left over if and only if every constant holding it lies outside the value or shares a bit with a constant named before it |
| `Enums.NothingLeftOver` | src/google_cloud_debugger/google_cloud_debugger_lib/dbg_enum.cc:76-86 | the residual is zero when each set bit has a constant of its own |
| `Enums.ZeroNamedExactly` | src/google_cloud_debugger/google_cloud_debugger_lib/dbg_enum.cc:76-83 | a constant 0 is named if and only if the constants named before it make up the whole value |
| `Enums.GreedyCanLeaveBits` | src/google_cloud_debugger/google_cloud_debugger_lib/dbg_enum.cc:64-93 | a value covered by two constants of which the greedy loop leaves a bit over |
| `LogTemplates.SubstituteLogMessageFormat` | src/Google.Cloud.Diagnostics.Debug/Google.Cloud.Diagnostics.Debug/LoggingClient.cs:85-145 | the scanning loop in place is the prefix and the character-wise substitution, or its exception |
| `LogTemplates.SubstituteThrowsExactly` | src/Google.Cloud.Diagnostics.Debug/Google.Cloud.Diagnostics.Debug/LoggingClient.cs:100-127 | for every format and any arguments: an exception is raised if and only if a dollar that is not the second of a pair ends the format or stands before digits that are no int; the first such dollar decides which |
| `LogTemplates.ReadNumber` | src/Google.Cloud.Diagnostics.Debug/Google.Cloud.Diagnostics.Debug/LoggingClient.cs:119-125 | the digit loop reads exactly the digits at the position |
| `LogTemplates.DigitRuns` | src/Google.Cloud.Diagnostics.Debug/Google.Cloud.Diagnostics.Debug/LoggingClient.cs:111-125 | what counts as a digit besides the ASCII ones comes in runs of ten, with none just before or after |
| `LogTemplates.SubstituteEscaped` | src/Google.Cloud.Diagnostics.Debug/Google.Cloud.Diagnostics.Debug/LoggingClient.cs:102-109 | text with its dollars doubled is shown verbatim |
| `LogTemplates.SubstituteReference` | src/Google.Cloud.Diagnostics.Debug/Google.Cloud.Diagnostics.Debug/LoggingClient.cs:118-136 | $n not followed by a digit shows argument n, counted from 0, or "{n cannot be evaluated}" |
| `LogTemplates.SubstituteLoneDollar` | src/Google.Cloud.Diagnostics.Debug/Google.Cloud.Diagnostics.Debug/LoggingClient.cs:111-116 | a dollar before anything but a dollar or a digit is shown as it is |
| `LogTemplates.TemplateRoundTrip` | src/Google.Cloud.Diagnostics.Debug/Google.Cloud.Diagnostics.Debug/LoggingClient.cs:85-145 | for every readable template, substituting into its printed form shows each literal verbatim and each argument formatted |
| `LogTemplates.NeverLonger` | src/Google.Cloud.Diagnostics.Debug/Google.Cloud.Diagnostics.Debug/LoggingClient.cs:118-136 | with nothing evaluated, the message of a printed template is never longer than the meant one |
| `LogTemplates.TemplateRoundTripExact` | src/Google.Cloud.Diagnostics.Debug/Google.Cloud.Diagnostics.Debug/LoggingClient.cs:85-145 | a template shows as meant for all arguments if and only if its references are in range and none runs into a digit printed after it |
| `LogTemplates.ReferenceCanRunOn` | src/Google.Cloud.Diagnostics.Debug/Google.Cloud.Diagnostics.Debug/LoggingClient.cs:121-125 | an unreadable template: "$1" before "2" prints like "$12" |
| `LogTemplates.FormatVariable` | src/Google.Cloud.Diagnostics.Debug/Google.Cloud.Diagnostics.Debug/LoggingClient.cs:152-173 | the recursive formatter with its member loop |
| `LogTemplates.FormatExactly` | src/Google.Cloud.Diagnostics.Debug/Google.Cloud.Diagnostics.Debug/LoggingClient.cs:152-173 | the text of an error, of a value and of members, name before type and separated, cut after the last character that is no comma or blank |
| `LogTemplates.MembersListedExactly` | src/Google.Cloud.Diagnostics.Debug/Google.Cloud.Diagnostics.Debug/LoggingClient.cs:164-170 | members are shown as a bracketed list if and only if the last one does not show a value ending in a comma or a blank |
| `LogTemplates.NoMembers` | src/Google.Cloud.Diagnostics.Debug/Google.Cloud.Diagnostics.Debug/LoggingClient.cs:164-172 | neither value nor members shows as [] |
| `Placement.SplitFilePath` | src/google_cloud_debugger/google_cloud_debugger_lib/dbg_breakpoint.cc:368-384 | the segments of the path, file name first |
| `Placement.SplitJoin` | src/google_cloud_debugger/google_cloud_debugger_lib/dbg_breakpoint.cc:368-384 | joining the segments gives the path back, and none holds a slash |
| `Placement.CountMatches` | src/google_cloud_debugger/google_cloud_debugger_lib/dbg_breakpoint.cc:118-130 | the number of positions, from the file name up, at which the segments are equal |
| `Placement.MatchesOfExactly` | src/google_cloud_debugger/google_cloud_debugger_lib/dbg_breakpoint.cc:103-130 | a document counts the segments, from the file name up, that equal those of its path in lower case with backslashes for slashes |
| `Placement.BestDocument` | src/google_cloud_debugger/google_cloud_debugger_lib/dbg_breakpoint.cc:99-140 | the first document with the most matches; none if and only if none matches at all |
| `Placement.DbgBreakpoint.TrySetBreakpointInMethod` | src/google_cloud_debugger/google_cloud_debugger_lib/dbg_breakpoint.cc:350-366 | set from the first point that is not hidden and at or after the line; nothing changes if and only if all are hidden or before it |
| `Placement.DbgBreakpoint.TrySetBreakpoint` | src/google_cloud_debugger/google_cloud_debugger_lib/dbg_breakpoint.cc:93-169 | nothing changes without a matching document; otherwise the fields are those the search of the best document's methods ends with |
| `Placement.DbgBreakpoint.TrySetBreakpointInDocument` | src/google_cloud_debugger/google_cloud_debugger_lib/dbg_breakpoint.cc:149-168 | the loop over methods in place is the search |
| `Placement.SearchInvariant` | src/google_cloud_debugger/google_cloud_debugger_lib/dbg_breakpoint.cc:149-168 | in any order: accepted methods start ever later, the line never drops below the requested one, and line, offset and method come from the first point of the last accepted method that is not hidden and at or after a line the method contains |
| `Placement.FoundExactly` | src/google_cloud_debugger/google_cloud_debugger_lib/dbg_breakpoint.cc:149-168 | in any order a place is found if and only if some method is usable for the requested line |
| `Placement.DescendingFindsInnermost` | src/google_cloud_debugger/google_cloud_debugger_lib/dbg_breakpoint.cc:144-168 | with inner methods listed first exactly one method is accepted, the innermost usable one |
| `Placement.ExactLineFindsInnermost` | src/google_cloud_debugger/google_cloud_debugger_lib/dbg_breakpoint.cc:144-168 | in any order the innermost is chosen when every usable method has a point on the requested line |
| `Placement.InnermostChosenExactly` | src/google_cloud_debugger/google_cloud_debugger_lib/dbg_breakpoint.cc:144-168 | in any order the search ends in the innermost usable method if and only if that takes over from the methods listed before it and no method listed after it takes over from it |
| `Placement.OuterFirstCanMissInner` | src/google_cloud_debugger/google_cloud_debugger_lib/dbg_breakpoint.cc:144-168 | an order in which an outer method moves the line past the innermost one, which is not chosen |
| `Placement.OuterFirstCanLeaveLine` | src/google_cloud_debugger/google_cloud_debugger_lib/dbg_breakpoint.cc:144-168 | an order in which the search ends in a method that does not contain the requested line |
| `Backoff.StartActionLoop` | src/Google.Cloud.Diagnostics.Debug/Google.Cloud.Diagnostics.Debug/BreakpointActionServer.cs:97-120 | the sleeps of the loop are the waits after each prefix of outcomes |
| `Backoff.WaitIsClosedForm` | src/Google.Cloud.Diagnostics.Debug/Google.Cloud.Diagnostics.Debug/BreakpointActionServer.cs:97-120 | for any settings and any run the wait is the closed form in the number of failures since the last success |
| `Backoff.NeverAboveMaxExactly` | src/Google.Cloud.Diagnostics.Debug/Google.Cloud.Diagnostics.Debug/BreakpointActionServer.cs:89-94 | no run exceeds the maximum if and only if the base wait does not, and neither does the minimum when the base is zero |

## Left out

- EndToEnd.EndToEndAgreement: assumes every message about a listed breakpoint survives serialisation and is frame-safe (`Sendable`), PDB files that always answer the same and native calls that work; `FramingExact` and `EndToEndExactly` say what fails without the first two, and with failing calls `ReachableIsSafe` and `InstalledEffectively` hold.
- BinaryStreams.CustomBinaryStream.GetString: for a relative end 4 GiB or more after the offset, and for streams of nearly 4 GiB read past it, what the loop reads is stated by its own function `ReadFrom` only.
- TypeSignatures.SignatureReader.ParseTypeFromSig: what the source makes of the bytes past the end of a truncated signature; running out there is the error `Overrun` here.
- Backoff.StartActionLoop: ticks do not overflow when doubled; exceptions other than RpcException end the loop and are not modelled.
- Locations.BreakpointLocationCollection.UpdateBreakpoints: a failing native Activate leaves the native breakpoint as it was.
- Framing.BreakpointClient.ReadBreakpoint: the exception substr throws on a START-less buffer of fewer than 18 bytes is a failed read here.
- Conditions, expressions, log levels and other message fields that synchronisation only passes along; a listed breakpoint without a location, whose conversion throws in generated code.
- Protobuf serialisation (generated code): payloads are byte strings, and `encode` and `decode` are parameters.
- Locks and semaphores: each call on a manager, collection or reader is one atomic step.
- ICorDebug, IMetaDataImport, reference counting and HRESULT values: native calls succeed or fail, and metadata lookups are functions.
- `CorSigUncompressData` and `CorSigUncompressElementType` are not part of the repository; section II.23.2 of ECMA-335 is followed.
- Files as streams: a seek past the end fails, as it does for a stream held in memory.
- `ExtractEnumValue`: constants come widened to 64 bits; widening them has no effect on how flags are chosen.
- Evaluating expressions, stack frames, object graphs and the compiler helpers, which mostly forward to native interfaces.
- The gRPC clients, process launching, options, and the zero-byte read of `NamedPipe.ReadAsync`, which only pads.
