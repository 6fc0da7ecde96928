# Verified model of the vkrelay2 core

vkrelay2 lets a Linux guest's applications draw on a Windows host. A worker on the host owns the host
windows, a sidecar in the guest reports the X toplevels, and the application's Vulkan calls arrive on a
second connection. This project models the parts that decide what the user sees and what crosses the
wire, and proves what they promise for every input and every run:

- **Window registry** (`RegistryModel`, `WindowRegistry`, `RegistryInvariant`). One entry for each
  toplevel, changed under one lock by two planes: the app plane binds and unbinds surfaces, the sidecar
  plane registers, updates, hides, paints and unregisters. Eight theories are built on runs of it:
  `Confluence` (the planes commute), `RegistrationReplay` (every entry and every effect against a replay
  of the operations alone), `PlaceholderConservation` (host windows are created and destroyed later, off
  the lock, and still end up exactly the wanted ones), `GeometryConvergence` (reordered placements end at
  the replayed geometry, in each new host window, and which restacking is carried out),
  `VisibilityConvergence` (when a window is told the visibility that the registry has), `PaintGate` (a
  committed paint is never for another window), `EpochGate` (input is let through exactly while its window
  is the same), `PopupOwnership`.
- **Input** (`InputQueue`, `InputRuns`, `InputDelivery`, `MotionDelivery`). The ring: coalesced motion,
  protected events, two caps, a cursor. Then end to end: ring, worker's gate and sidecar in one state
  machine, and exactly which captured events reach the guest.
- **Text and framing** (`Json`, `JsonRoundTrip`, `JsonGrammar`, `JsonLanguage`, `JsonMachine`,
  `JsonObjects`, `Utf8`, `CommandLine`, `LaunchDescriptor`, `DescriptorRoundTrip`, `Environment`, `Wire`,
  `RpcChannel`). Each printer with the parser that has to undo it, and for JSON a grammar of everything
  that may be written, which the parser accepts exactly.
- **Display geometry** (`Grid`, `DisplayLayout`, `MonitorChoice`, `Mirrors`, `Placement`). 32-bit
  rectangles, validation, choosing a monitor, mirrored monitors, first placement of a window.
- **Buffers** (`ShapeMask`, `RpcProfile`, `ProfileRuns`, `ProfileDump`, `ProfileFormat`,
  `ProfileReading`). Masking a frame in place, and dumping a profile into a fixed buffer so that it can be
  read.

Where the program changes things in place, the model is a class or a method on an array, and its
postcondition equates the new state with a function of the old one; the theorems are about those
functions and their runs. `Basics`, `Bytes` and `Sequences` hold what several modules share.
`dafny verify dfyconfig.toml` checks the whole project.

## Where the code says less, or other, than its comments

The model follows the code. Eight statements one would expect hold only under a condition. Each is proved
with the condition that is necessary and sufficient.

- *The two planes commute.* True of everything but the generation and visibility that an unregistered
  toplevel leaves behind under a live surface. `Confluence.LeftoversSettledExactlyWhen` is the exact
  condition.
- *An event that passed the worker's gate is not dropped as stale by the sidecar.* The sidecar may itself
  send an update between two events of one poll, and the answer may carry an epoch newer than the next
  event's. `EpochGate.DroppedExactlyWhenOvertaken`: it is dropped if and only if the last answer about its
  toplevel since the poll was given when the worker still had an entry for it, but no longer the
  representation of the poll. `EpochGate.ResponseMidPollDrops` is a run from the start that does so. (An
  event whose toplevel the sidecar has stopped tracking is dropped as well, at lines 1423-1427 of
  `sidecar_main.cpp`; `InputDelivery` accounts for that.)
- *Input is dropped after its surface is destroyed* (lines 756-761 of `window_registry.hpp`). Unbinding a
  surface ends the epoch exactly when no toplevel is registered over it
  (`EpochGate.DestroyedSurfaceKeepsEpochExactly`); after register, bind and unbind the surface's pending
  input still passes (`EpochGate.DestroyedSurfaceInputPasses`).
- *A window's visibility is the registry's.* Registering a toplevel again makes it visible without an
  effect, and a new surface window starts out visible. `VisibilityConvergence.VisibilityAgreesExactly` is
  the exact condition on the history, `VisibilityConvergence.HiddenIsForgotten` a run for each way to fail.
- *A raise or lower is carried out.* The window thread restacks only in a drain that also applies a
  placement. `GeometryConvergence.StackingConvergesExactly`: once the newest request is the last to arrive,
  a drain carries it out if and only if a placement newer than those applied before it is there;
  `GeometryConvergence.RaiseBehindPromotionWaits` is a run that leaves a raise waiting.
- *Every popup has a live owner.* `PopupOwnership.OwnershipKeptExactlyUnlessStranded`: exactly as long as
  no live owner is registered again as a popup. `PopupOwnership.StrandingIsReachable` is a run that does.
- *A recovered window intersects a concrete monitor* (lines 132-134 of `display_layout.hpp`).
  `Placement.OffMonitorExactlyWhen`: it misses the monitor it is given if and only if, along an axis, it is
  larger than the work area and starts beside the monitor with room for it before the desktop's end.
  `Placement.InAHoleExactlyWhen` is the condition for missing every monitor,
  `Placement.RecoveredIntoAHole` a valid layout where that happens.
- *A descriptor reads back as itself* exactly when no environment name repeats
  (`DescriptorRoundTrip.ReadsBackExactly`); what it means for the launched process is kept regardless.

The registry relies on surface handles being minted from 1 (line 964 of `real_vulkan_backend.hpp`).
`RegistryInvariant.InvKeptExactlyUnlessNullMisused` says exactly what it relies on, and
`PlaceholderConservation.NullUnbindLeaks` what a null handle would do.

## Model

| member | source | states |
|---|---|---|
| `WindowRegistry.WindowRegistry.StampGeometryPlacement` | vkrelay2/common/sidecar/window_registry.hpp:834-842 | every placement takes the next host-apply number and carries the entry's geometry and extent authority |
| `WindowRegistry.WindowRegistry.BindSurface` | vkrelay2/common/sidecar/window_registry.hpp:254-311 | in place, the whole new registry and the effect: a new or promoted representation gets a new epoch, a placeholder is promoted |
| `WindowRegistry.WindowRegistry.UnbindSurface` | vkrelay2/common/sidecar/window_registry.hpp:323-341 | in place, the whole new registry: the entry goes unless a toplevel is registered |
| `WindowRegistry.WindowRegistry.RegisterToplevel` | vkrelay2/common/sidecar/window_registry.hpp:358-439 | in place, the whole new registry and the effect for every mix of earlier surface, placeholder and registration |
| `WindowRegistry.WindowRegistry.UpdateToplevel` | vkrelay2/common/sidecar/window_registry.hpp:462-506 | in place: merge of the update, extent authority taken by a resize, a numbered placement exactly when something moved |
| `WindowRegistry.WindowRegistry.SetVisibility` | vkrelay2/common/sidecar/window_registry.hpp:520-542 | in place: visibility recorded, host work only on a change |
| `WindowRegistry.WindowRegistry.UnregisterToplevel` | vkrelay2/common/sidecar/window_registry.hpp:552-585 | in place: placeholder destroyed, bare entry erased, bound surface kept without its toplevel |
| `WindowRegistry.WindowRegistry.TakeOrphanedPopups` | vkrelay2/common/sidecar/window_registry.hpp:596-620 | the erasing walk over the map removes and reports exactly the owner's popups in key order |
| `WindowRegistry.WindowRegistry.AcceptPlaceholderPaint` | vkrelay2/common/sidecar/window_registry.hpp:632-648 | the paint decision, without a change |
| `WindowRegistry.WindowRegistry.CommitPlaceholderPaint` | vkrelay2/common/sidecar/window_registry.hpp:656-669 | in place: the commit and whether it counted |
| `RegistryInvariant.StepKeepsInv` | vkrelay2/common/sidecar/window_registry.hpp:254-669 | every transition keeps the invariant: distinct live epochs and placeholder ids, none beyond the counters, representation as the entry's surface and registration say; and counters only grow |
| `RegistryInvariant.RunKeepsInv` | vkrelay2/common/sidecar/window_registry.hpp:254-669 | so does every run |
| `RegistryInvariant.InvKeptExactlyUnlessNullMisused` | vkrelay2/common/sidecar/window_registry.hpp:254-341 | a transition keeps the invariant if and only if it does not bind the null handle or unbind it from a placeholder |
| `RegistrationReplay.RegistryRecordsReplay` | vkrelay2/common/sidecar/window_registry.hpp:254-620 | over every run, popups included, role, title, geometry, extent authority, last z-order, owner and popup kind of every entry are those of its last admitted registration with the later admitted updates folded in, as a replay of the operations that never looks at the registry |
| `RegistrationReplay.HostIsAskedWhatIsSaid` | vkrelay2/common/sidecar/window_registry.hpp:358-585 | over every run, the effect of an admitted operation names its toplevel and carries the replayed geometry and extent authority, for a creation the replayed popup fields, and a z-order exactly if the operation has one; an operation that is not admitted changes nothing and asks nothing |
| `Confluence.RunIsJoin` | vkrelay2/common/sidecar/window_registry.hpp:254-341 | after every interleaving the registry is the join of the two planes' separate replays |
| `Confluence.InterleavingsAgree` | vkrelay2/common/sidecar/window_registry.hpp:358-585 | two interleavings of the same planes agree on surfaces, registrations and all authored fields of registered toplevels |
| `Confluence.JoinOfPlanes` | vkrelay2/common/sidecar/window_registry.hpp:254-585 | an entry exists exactly for a bound surface or a registered toplevel, and is a surface exactly when one is bound |
| `Confluence.LeftoversSettledExactlyWhen` | vkrelay2/common/sidecar/window_registry.hpp:552-585 | generation and visibility are independent of the interleaving if and only if the toplevel ends registered, or without a surface, or the sidecar left nothing behind |
| `PlaceholderConservation.TransitionCreatesFresh` | vkrelay2/common/sidecar/window_registry.hpp:422-439 | a transition asks for at most one window, with an id never used before |
| `PlaceholderConservation.TransitionDestroysUnwanted` | vkrelay2/common/sidecar/window_registry.hpp:274-289 | a transition asks to destroy exactly the windows it stops wanting |
| `PlaceholderConservation.ExecuteIsGood` | vkrelay2/common/sidecar/window_registry.hpp:778-782 | every interleaving of transitions with late creations and destructions keeps the executor's invariant |
| `PlaceholderConservation.QuiescentWindowsAreTheWantedOnes` | vkrelay2/common/sidecar/window_registry.hpp:778-782 | with nothing in flight the live windows are exactly the placeholder ids, but for creations the host failed or refused |
| `PlaceholderConservation.NullUnbindLeaks` | vkrelay2/common/sidecar/window_registry.hpp:323-341 | after every execution, unbinding the null handle from a toplevel with a live placeholder window leaves that window unwanted, with no destruction under way |
| `PlaceholderConservation.NullUnbindLeaksFromStart` | vkrelay2/common/sidecar/window_registry.hpp:323-341 | a run from the start that ends with all work done and a window that no entry wants |
| `PlaceholderConservation.SequentialConservation` | vkrelay2/common/sidecar/window_registry.hpp:422-439 | with a sequential sidecar plane none is refused, so they are exactly the placeholder ids |
| `PlaceholderConservation.NoDoubleOwner` | vkrelay2/common/sidecar/window_registry.hpp:422-439 | no window is wanted by two toplevels |
| `PlaceholderConservation.NoReuse` | vkrelay2/common/sidecar/window_registry.hpp:422-439 | an id the system knows is never issued again |
| `GeometryConvergence.NewestIsAuthored` | vkrelay2/common/sidecar/window_registry.hpp:254-506 | after every run the highest-numbered placement of a registered toplevel carries its entry's geometry and extent authority, and was numbered since the current epoch was minted |
| `GeometryConvergence.HostConverges` | vkrelay2/windows/worker/windowing/window_thread.hpp:162-201 | a host window, new or kept, that is given what was placed since the current epoch, in any order, repeated and coalesced, ends at the position, and size where the sidecar has authority, that the replay of the operations gives |
| `GeometryConvergence.PromotionStartsAfresh` | vkrelay2/windows/worker/real_vulkan_backend.cpp:5316-5330 | a promotion starts such a count afresh, so the new surface window converges on what is placed from then on |
| `GeometryConvergence.ResizeSticks` | vkrelay2/common/sidecar/window_registry.hpp:462-506 | while a toplevel stays registered its extent authority is never taken back |
| `GeometryConvergence.OnlyUpdatesRestack` | vkrelay2/common/sidecar/window_registry.hpp:462-506 | an effect restacks only if its operation is an admitted update that asks for it, with the z-order asked for |
| `GeometryConvergence.NewestRestackIsAuthored` | vkrelay2/common/sidecar/window_registry.hpp:462-506 | over every run the newest restacking effect carries the z-order of the last admitted update that asked for one, which is the one its entry records (`RegistrationReplay.RegistryRecordsReplay`) |
| `GeometryConvergence.StackingConvergesExactly` | vkrelay2/windows/worker/windowing/window_thread.hpp:162-201 | after any deliveries and drains that end with the newest request, one more drain stacks the window as the last admitted update asked if and only if a placement newer than those applied before the request is there to carry it; else the request keeps waiting |
| `GeometryConvergence.RaiseBehindPromotionWaits` | vkrelay2/windows/worker/windowing/window_thread.hpp:162-201 | for every toplevel, surface and geometry: registered, raised and promoted, the placement delivered before the raise, and the raise is not carried out |
| `VisibilityConvergence.AnnouncedIsNewest` | vkrelay2/common/sidecar/window_registry.hpp:520-542 | after every run, what the newest visibility effect since the window was opened says is the last state announced to it, or the default |
| `VisibilityConvergence.CellConverges` | vkrelay2/windows/worker/windowing/window_thread.hpp:222-238 | whatever the order and repetition, the window's cell is left with that state |
| `VisibilityConvergence.VisibilityAgreesExactly` | vkrelay2/common/sidecar/window_registry.hpp:386-386 | over every run and delivery, that is the registry's visibility if and only if the toplevel was neither registered again after its window was hidden nor bound to a surface while not visible, with no visibility effect since |
| `VisibilityConvergence.HiddenIsForgotten` | vkrelay2/common/sidecar/window_registry.hpp:386-386 | runs from the empty registry for both ways |
| `PaintGate.CommitFindsAcceptedPlaceholder` | vkrelay2/common/sidecar/window_registry.hpp:632-669 | a commit that succeeds after any transitions finds the placeholder that was accepted, if the generation does not repeat |
| `PaintGate.RepeatedGenerationIsABA` | vkrelay2/common/sidecar/window_registry.hpp:632-669 | the hypothesis is needed: from every accepting state one repeated generation lets the commit hit another placeholder |
| `PaintGate.CommittedPaintsIncrease` | vkrelay2/common/sidecar/window_registry.hpp:656-669 | within one placeholder committed numbers strictly increase, and it counts as shown exactly if one was committed |
| `PaintGate.PaintAcceptedExactly` | vkrelay2/common/sidecar/window_registry.hpp:632-648 | over every run, exactly which paints are accepted, for which placeholder, and that one is the first paint exactly if none was committed for that placeholder |
| `EpochGate.DisturbanceEndsEpoch` | vkrelay2/common/sidecar/window_registry.hpp:264-296 | a transition ends a toplevel's epoch for good exactly when it erases the entry or establishes a new representation |
| `EpochGate.GatePassesExactlyUndisturbed` | vkrelay2/common/sidecar/window_registry.hpp:762-765 | over every run, input stamped before passes the exact-epoch gate if and only if nothing in between did so |
| `EpochGate.EpochNeverReturns` | vkrelay2/common/sidecar/window_registry.hpp:254-439 | over every run, an epoch that is not current any more does not become current again |
| `EpochGate.DestroyedSurfaceKeepsEpochExactly` | vkrelay2/common/sidecar/window_registry.hpp:323-341 | unbinding a toplevel's surface keeps its epoch if and only if the toplevel is registered |
| `EpochGate.DestroyedSurfaceInputPasses` | vkrelay2/common/sidecar/window_registry.hpp:756-765 | a run from the empty registry after which input of the destroyed surface passes the gate |
| `EpochGate.OnlyStaleInputIsDropped` | vkrelay2/common/sidecar/input_queue.hpp:52-60 | what the sidecar drops as stale is stale, over every run of worker and sidecar |
| `EpochGate.DroppedExactlyWhenOvertaken` | vkrelay2/linux/sidecar/sidecar_main.cpp:1420-1450 | over every run of worker and sidecar, the next polled event is dropped as stale if and only if the last answer about its toplevel since the poll was given after its representation had been replaced |
| `EpochGate.UnansweredPollDropsNothing` | vkrelay2/linux/sidecar/sidecar_main.cpp:1420-1450 | so none is dropped as stale while the worker does not answer, whatever else it does |
| `EpochGate.ResponseMidPollDrops` | vkrelay2/linux/sidecar/sidecar_main.cpp:343-361 | a run from the start in which the second of two polled events is dropped: consume, bind, raise, answer |
| `PopupOwnership.OwnershipKeptExactlyUnlessStranded` | vkrelay2/common/sidecar/window_registry.hpp:374-376 | a transition keeps all popups owned if and only if it does not register a live owner as a popup |
| `PopupOwnership.PopupsAreOwned` | vkrelay2/common/sidecar/window_registry.hpp:552-620 | so they are over every run without one |
| `PopupOwnership.StrandingIsReachable` | vkrelay2/common/sidecar/window_registry.hpp:358-439 | a run from the empty registry that strands a popup |
| `PopupOwnership.CascadeReportsEachOrphanOnce` | vkrelay2/common/sidecar/window_registry.hpp:596-620 | the cascade removes exactly the owner's popups and reports each once, ascending, destroying exactly the placeholders |
| `InputQueue.InputQueue.Enqueue` | vkrelay2/common/sidecar/input_queue.hpp:72-116 | in place: coalescing, eviction, soft cap and hard ceiling give exactly the specified ring |
| `InputQueue.InputQueue.DropPendingMotion` | vkrelay2/common/sidecar/input_queue.hpp:83-96 | the backward scan removes the last motion of that toplevel, if any |
| `InputQueue.InputQueue.DropOldestMotion` | vkrelay2/common/sidecar/input_queue.hpp:152-161 | the first motion goes, or nothing changes |
| `InputQueue.InputQueue.DiscardStragglers` | vkrelay2/common/sidecar/input_queue.hpp:127-129 | exactly the events up to the cursor go |
| `InputQueue.InputQueue.TakeBatch` | vkrelay2/common/sidecar/input_queue.hpp:130-134 | the oldest events up to the cap, in order, with the cursor of the last |
| `InputQueue.InputQueue.Poll` | vkrelay2/common/sidecar/input_queue.hpp:122-138 | in place: what is handed out, what stays, the cursor and the cleared overflow flag |
| `InputRuns.SessionsAreOk` | vkrelay2/common/sidecar/input_queue.hpp:72-138 | over every run: ascending numbers, one motion for each toplevel, never above the ceiling, no motion above the soft cap, and the history adds up |
| `InputRuns.ProtectedEventsAreConserved` | vkrelay2/common/sidecar/input_queue.hpp:72-138 | protected events drained and pending are those admitted, in order and once each, but for those given up at the ceiling, which the next poll reports |
| `InputRuns.UncrowdedRunsKeepAll` | vkrelay2/common/sidecar/input_queue.hpp:107-114 | a run that never meets the hard ceiling delivers or still holds every protected event, in order |
| `InputRuns.PushConserves` | vkrelay2/common/sidecar/input_queue.hpp:97-116 | a push keeps all protected events and appends its own, and gives up the oldest exactly at the ceiling |
| `InputRuns.PollHandsOutNewer` | vkrelay2/common/sidecar/input_queue.hpp:122-138 | from any cursor a poll hands out the oldest events beyond it, at most 256, moves the cursor to the last of them and keeps the others |
| `InputRuns.DroppedExactly` | vkrelay2/common/sidecar/input_queue.hpp:97-138 | over every run a poll reports an overflow if and only if an input since the poll before found the ring at its soft cap |
| `InputRuns.MotionOutlastsExactly` | vkrelay2/common/sidecar/input_queue.hpp:83-116 | a pending motion outlasts an arrival if and only if it is neither superseded by a motion of its toplevel nor evicted as the oldest motion at the soft cap |
| `InputDelivery.InputReachesGuestExactlyWhen` | vkrelay2/linux/sidecar/sidecar_main.cpp:1420-1475 | over every run, with anything between the two halves of a poll, a captured event reaches the guest if and only if its epoch was current, a poll drains it and gates it before its toplevel is disturbed, and at its turn the toplevel is tracked and not overtaken |
| `InputDelivery.DrainedExactlyWhenKept` | vkrelay2/windows/worker/real_vulkan_backend.cpp:1511-1530 | over every run, a captured protected event is drained by some poll if and only if it was not given up at the ceiling and is not still waiting |
| `InputDelivery.DrainedOnce` | vkrelay2/windows/worker/real_vulkan_backend.cpp:1511-1530 | no two polls drain the same event |
| `InputDelivery.GatedOnce` | vkrelay2/windows/worker/real_vulkan_backend.cpp:1511-1530 | and none is put to the gate twice |
| `MotionDelivery.MotionDrainedExactlyWhen` | vkrelay2/common/sidecar/input_queue.hpp:72-138 | over every run, a captured motion is drained by some poll if and only if it was let into the ring, no arrival has superseded or evicted it there, and it is not still waiting |
| `JsonRoundTrip.DocumentRoundTrip` | vkrelay2/common/util/json.cpp:479-488 | parsing a dump returns the tree: all byte strings, member order, repeated keys, compact or at any indent |
| `JsonRoundTrip.ValueReads` | vkrelay2/common/util/json.cpp:410-477 | the same for every nested value at every depth, with the text after it left over |
| `JsonRoundTrip.QuotedReads` | vkrelay2/common/util/json.cpp:369-408 | every byte string survives escaping and reading |
| `JsonRoundTrip.NumberReads` | vkrelay2/common/util/json.cpp:253-281 | a printed number is scanned to its end and read back |
| `JsonRoundTrip.DumpIsInjective` | vkrelay2/common/util/json.cpp:410-477 | different trees have different texts |
| `JsonGrammar.SurrogatesRead` | vkrelay2/common/util/json.cpp:207-222 | every code point from U+10000 on, as two surrogates in hexadecimal of either case, reads as its UTF-8 encoding with the rest left over |
| `JsonGrammar.UnitReads` | vkrelay2/common/util/json.cpp:207-222 | every other code point but the high surrogates, as one unit, likewise |
| `JsonGrammar.LoneHighSurrogateFails` | vkrelay2/common/util/json.cpp:207-222 | a high surrogate fails if and only if no low surrogate follows |
| `JsonGrammar.CharsRead` | vkrelay2/common/util/json.cpp:172-231 | every string of plain, lettered and numbered characters reads as what they stand for |
| `JsonGrammar.CharsOf` | vkrelay2/common/util/json.cpp:172-231 | and nothing else is read as a string |
| `JsonGrammar.NumberOf` | vkrelay2/common/util/json.cpp:253-281 | what is read as a number is a sign, digits, fraction and exponent, not a sign alone |
| `JsonLanguage.SpellingReads` | vkrelay2/common/util/json.cpp:43-281 | every spelling of a value, with white space wherever it may stand, reads as its meaning whatever follows |
| `JsonLanguage.ParsesExactly` | vkrelay2/common/util/json.cpp:33-281 | a document is accepted with a value if and only if it is a spelling of that value between white space |
| `JsonLanguage.RefusesExactly` | vkrelay2/common/util/json.cpp:33-281 | a document is refused if and only if it spells nothing |
| `JsonMachine.Parser.SkipWhitespace` | vkrelay2/common/util/json.cpp:60-69 | the position moves past exactly the white space |
| `JsonMachine.Parser.ReadHex4` | vkrelay2/common/util/json.cpp:154-170 | four hex digits or failure |
| `JsonMachine.Parser.ReadUnicode` | vkrelay2/common/util/json.cpp:207-222 | code points and surrogate pairs as UTF-8, or failure |
| `JsonMachine.Parser.ReadString` | vkrelay2/common/util/json.cpp:172-231 | the string literal, or failure, and where reading goes on |
| `JsonMachine.Parser.ReadWord` | vkrelay2/common/util/json.cpp:233-251 | the literal names |
| `JsonMachine.Parser.ReadNumber` | vkrelay2/common/util/json.cpp:253-281 | the numeral's extent and value |
| `JsonMachine.Parser.ReadArray` | vkrelay2/common/util/json.cpp:131-152 | the array, or failure, by the loop over items |
| `JsonMachine.Parser.ReadObject` | vkrelay2/common/util/json.cpp:100-129 | the object with its members in order, or failure |
| `JsonMachine.Parser.ReadValue` | vkrelay2/common/util/json.cpp:77-98 | the recursive descent: the same values and failures as the parsing function, terminating on every input |
| `JsonMachine.Parser.ReadDocument` | vkrelay2/common/util/json.cpp:33-41 | one value and nothing after it |
| `JsonMachine.EscapeString` | vkrelay2/common/util/json.cpp:369-408 | the loop appends the quoted string |
| `JsonMachine.DumpTo` | vkrelay2/common/util/json.cpp:410-477 | the loops append exactly the printed tree |
| `JsonObjects.Cell.Set` | vkrelay2/common/util/json.cpp:355-367 | in place: the first member with the key gets the value, or a new member goes last |
| `JsonObjects.Cell.Get` | vkrelay2/common/util/json.cpp:343-353 | the first member with the key |
| `JsonObjects.SetThenLookup` | vkrelay2/common/util/json.cpp:343-367 | a set key is found with its value and every other lookup is unchanged |
| `JsonObjects.SetKeepsOrder` | vkrelay2/common/util/json.cpp:355-367 | setting keeps the order of keys |
| `Utf8.IsCleanUtf8` | vkrelay2/common/protocol/launch_descriptor.cpp:26-77 | the index loop decides the validity predicate |
| `Utf8.CleanExactlyWhenEncoded` | vkrelay2/common/protocol/launch_descriptor.cpp:26-77 | accepted if and only if an encoding of nonzero scalar values, and of only one list of them (sections 3 and 4 of RFC 3629) |
| `Utf8.EncodingIsInjective` | vkrelay2/common/util/json.cpp:11-27 | encodings of different lists differ |
| `CommandLine.QuoteArgument` | vkrelay2/common/argv/command_line.cpp:13-44 | the loops over backslash runs produce the quoted argument |
| `CommandLine.BuildCommandLine` | vkrelay2/common/argv/command_line.cpp:46-55 | the quoted arguments with single blanks between |
| `CommandLine.UnquotedExactly` | vkrelay2/common/argv/command_line.cpp:13-18 | an argument stands unquoted if and only if it is not empty and has no space, tab, newline, vertical tab or quote |
| `CommandLine.SplitUndoesBuild` | vkrelay2/common/argv/command_line.cpp:13-55 | splitting by the Windows backslash and quote rules, in both readings of a doubled quote, returns the arguments |
| `CommandLine.RoundTripExactlyWithoutNul` | vkrelay2/common/argv/command_line.cpp:13-55 | if and only if none contains a NUL |
| `LaunchDescriptor.Validate` | vkrelay2/common/protocol/launch_descriptor.cpp:79-109 | the loops decide validity |
| `LaunchDescriptor.ValidExactly` | vkrelay2/common/protocol/launch_descriptor.cpp:79-109 | valid if and only if of this version, with an argument, variable names nonempty and without an equals sign, and every text the encoding of nonzero scalar values |
| `LaunchDescriptor.WriteJson` | vkrelay2/common/protocol/launch_descriptor.cpp:111-136 | the text built by setting members, repeated environment names collapsing on the way |
| `LaunchDescriptor.ReadJson` | vkrelay2/common/protocol/launch_descriptor.cpp:138-205 | size bound, parsing, field types, fallbacks and final validation as one function of the text |
| `DescriptorRoundTrip.DescriptorReadsBack` | vkrelay2/common/protocol/launch_descriptor.cpp:111-205 | for every descriptor, exactly when its text is accepted and what is read |
| `DescriptorRoundTrip.RoundTripKeepsMeaning` | vkrelay2/common/protocol/launch_descriptor.cpp:79-205 | version, session, working directory and arguments are kept, and the environment over every parent environment is the same |
| `DescriptorRoundTrip.ReadsBackExactly` | vkrelay2/common/protocol/launch_descriptor.cpp:111-205 | a valid descriptor reads back as itself if and only if no environment name repeats |
| `DescriptorRoundTrip.CollapsedOverlaysAlike` | vkrelay2/common/util/json.cpp:355-367 | collapsing repeated names changes no resulting environment |
| `DescriptorRoundTrip.AbsentOptionsMeanAuto` | vkrelay2/common/protocol/launch_descriptor.cpp:165-175 | a descriptor without options is read as one whose three options say auto |
| `DescriptorRoundTrip.AbsentOptionMeansAuto` | vkrelay2/common/protocol/launch_descriptor.cpp:165-175 | likewise each option by itself, absent or null |
| `DescriptorRoundTrip.AbsentPartsMeanEmpty` | vkrelay2/common/protocol/launch_descriptor.cpp:177-205 | no working directory is read as the empty one, no overrides as none |
| `DescriptorRoundTrip.RestIsRequired` | vkrelay2/common/protocol/launch_descriptor.cpp:138-205 | version, process and arguments may not be left out |
| `Environment.BuildEnvironment` | vkrelay2/common/process/process_posix.cpp:29-48 | the loops list the parent's entries with the overrides in order on top, one for each name, in the order of names |
| `Environment.ChildSeesOverlayExactly` | vkrelay2/common/process/process_posix.cpp:29-177 | a child that is given that list as C strings and reads it the same way gets that environment if and only if no override has an equals sign or a NUL in its name, and no override that counts a NUL in its value |
| `Environment.LaunchedSeesOverlay` | vkrelay2/common/protocol/launch_descriptor.cpp:79-109 | validation makes sure of it |
| `Wire.StoreLe32` | vkrelay2/common/protocol/wire.cpp:10-15 | in place: four bytes written, the rest kept |
| `Wire.WordsAreLowFirst` | vkrelay2/common/protocol/wire.cpp:5-8 | a word is the number whose digits to base 256 are its bytes, the least significant first |
| `Wire.TryDecodeFrame` | vkrelay2/common/protocol/wire.cpp:29-46 | total; a complete frame lies within the buffer |
| `Wire.FrameDecodes` | vkrelay2/common/protocol/wire.cpp:17-46 | a frame decodes to its payload whatever follows |
| `Wire.CutFrameNeedsMore` | vkrelay2/common/protocol/wire.cpp:29-46 | every proper prefix of a frame asks for more |
| `Wire.CompleteExactly` | vkrelay2/common/protocol/wire.cpp:29-46 | a buffer decodes to a payload if and only if it starts with the frame of that payload |
| `Wire.NeedsMoreExactly` | vkrelay2/common/protocol/wire.cpp:29-46 | more is asked for if and only if the buffer is a proper prefix of some frame |
| `Wire.OversizedExactly` | vkrelay2/common/protocol/wire.cpp:29-46 | a buffer is refused if and only if it starts with no frame and no frame starts with it |
| `Wire.RpcRoundTrip` | vkrelay2/common/vkrpc/rpc.cpp:21-42 | decoding a message undoes encoding it |
| `Wire.RpcDecodesExactly` | vkrelay2/common/vkrpc/rpc.cpp:31-42 | a payload decodes to a message if and only if it is that message's encoding |
| `Wire.HeaderIsLaidOut` | vkrelay2/common/vkrpc/rpc.cpp:21-29 | operation, request id and status as little-endian words at 0, 4 and 8, the body from 12 on |
| `Wire.EncodeRpcMessage` | vkrelay2/common/vkrpc/rpc.cpp:21-29 | the header stored in place, then the body |
| `RpcChannel.RpcChannel.Recv` | vkrelay2/common/vkrpc/rpc.cpp:49-77 | what is received and what is left depend on the byte stream alone, not on how it was cut into reads |
| `RpcChannel.RpcChannel.Send` | vkrelay2/common/vkrpc/rpc.cpp:44-47 | a message within the cap is framed and written, one beyond it is refused and nothing written |
| `RpcChannel.ReceivesExactly` | vkrelay2/common/vkrpc/rpc.cpp:49-77 | a message is received if and only if the stream starts with it as it is sent, and the rest is left |
| `RpcChannel.EndsExactly` | vkrelay2/common/vkrpc/rpc.cpp:68-74 | a clean end if and only if nothing is left, an end inside a frame if and only if what is left starts one |
| `RpcChannel.FramingErrorExactly` | vkrelay2/common/vkrpc/rpc.cpp:62-64 | a framing error if and only if no stream of frames starts like this |
| `RpcChannel.MalformedExactly` | vkrelay2/common/vkrpc/rpc.cpp:55-61 | malformed if and only if the frame is too short for a header |
| `RpcChannel.StreamRoundTrip` | vkrelay2/common/vkrpc/rpc.cpp:21-77 | what was sent is received, then a clean end |
| `RpcChannel.CutStreamIsNoticed` | vkrelay2/common/vkrpc/rpc.cpp:68-74 | a stream cut inside a frame yields every earlier message, then an error |
| `RpcChannel.CutAnywhere` | vkrelay2/common/vkrpc/rpc.cpp:49-77 | for every cut, the whole messages before it, and a clean end if and only if it falls between frames |
| `RpcChannel.DrainChannel` | vkrelay2/common/vkrpc/rpc.cpp:49-77 | receiving until the end returns exactly the messages sent, for every chunking |
| `DisplayLayout.CheckMonitors` | vkrelay2/common/display/display_layout.cpp:243-297 | the loop with its sets, counter and running union decides the monitors' validity |
| `DisplayLayout.Validate` | vkrelay2/common/display/display_layout.cpp:212-315 | accepted exactly when valid: caps, distinct ids and bounds, work areas inside, one primary, desktop the exact union |
| `DisplayLayout.UnionDecided` | vkrelay2/common/display/display_layout.cpp:301-313 | comparing with the running edges decides whether the desktop is the smallest rectangle around the monitors |
| `DisplayLayout.AtMostOnePrimary` | vkrelay2/common/display/display_layout.cpp:287-300 | the count of primaries is at most one and decides whether there is one |
| `DisplayLayout.OverlapIsSharedPoint` | vkrelay2/common/display/display_layout.cpp:47-66 | the intersection area is positive exactly when the rectangles share a point |
| `DisplayLayout.AreaCountsPixels` | vkrelay2/common/display/display_layout.cpp:47-66 | the intersection area of two rectangles is the number of pixels they share |
| `DisplayLayout.GapIsDistance` | vkrelay2/common/display/display_layout.cpp:68-81 | the gap is the distance along the axes of the nearest points of the two rectangles |
| `MonitorChoice.FindContaining` | vkrelay2/common/display/display_layout.cpp:572-581 | the preferred monitor containing the point, or none |
| `MonitorChoice.FindLargestIntersection` | vkrelay2/common/display/display_layout.cpp:583-596 | the monitor with the largest overlap, ties to the preferred, or none |
| `MonitorChoice.FindWorkLargestIntersection` | vkrelay2/common/display/display_layout.cpp:598-611 | the same for work areas |
| `MonitorChoice.FindNearest` | vkrelay2/common/display/display_layout.cpp:613-626 | the monitor with the smallest gap, ties to the preferred; none only without monitors |
| `MonitorChoice.FindById` | vkrelay2/common/display/display_layout.cpp:563-570 | the monitor with the id, or none |
| `MonitorChoice.BestIsOptimal` | vkrelay2/common/display/display_layout.cpp:83-88 | every scan ends with an eligible monitor that no other beats, on any list |
| `MonitorChoice.OptimalIsUnique` | vkrelay2/common/display/display_layout.cpp:83-88 | with distinct ids there is only one such monitor |
| `MonitorChoice.MostPixelsWins` | vkrelay2/common/display/display_layout.cpp:583-596 | the search by overlap returns a monitor that shows most pixels of the rectangle, or none if no monitor shows any |
| `MonitorChoice.MostWorkPixelsWins` | vkrelay2/common/display/display_layout.cpp:598-611 | likewise for work areas |
| `MonitorChoice.NearestIsNearest` | vkrelay2/common/display/display_layout.cpp:613-626 | the search by distance returns a monitor that no other is nearer than |
| `MonitorChoice.TiesGoToPrimary` | vkrelay2/common/display/display_layout.cpp:83-88 | among monitors that answer equally well a primary one is returned if there is one, else the smallest id |
| `MonitorChoice.ChoiceIgnoresOrder` | vkrelay2/common/display/display_layout.cpp:572-626 | every search returns the same monitor for every permutation of the list |
| `MonitorChoice.Deduplicate` | vkrelay2/common/display/display_layout.cpp:761-776 | the merging loop followed by the sort by id |
| `Mirrors.DeduplicatedIsExact` | vkrelay2/common/display/display_layout.cpp:761-776 | exactly the preferred monitor of each bounds is kept, in the order of ids |
| `Mirrors.DeduplicatedCoversBounds` | vkrelay2/common/display/display_layout.cpp:761-776 | each bounds is kept, once |
| `Mirrors.DeduplicationIgnoresOrder` | vkrelay2/common/display/display_layout.cpp:761-776 | the result is the same for every permutation |
| `Mirrors.DeduplicationIsIdempotent` | vkrelay2/common/display/display_layout.cpp:761-776 | doing it twice is doing it once |
| `Placement.PlaceGuestWindow` | vkrelay2/common/display/display_layout.cpp:676-754 | the placement, computed with the searches; what it is worth is in the rows below |
| `Placement.PlacedExactlyWhen` | vkrelay2/common/display/display_layout.cpp:676-754 | on every valid layout, exactly when a window is placed |
| `Placement.PreserveAlwaysPlaces` | vkrelay2/common/display/display_layout.cpp:676-754 | without owner and centring, whenever it maps to the host |
| `Placement.ReachableStays` | vkrelay2/common/display/display_layout.cpp:693-711 | a window whose top row touches a work area is unchanged, on the monitor it touches most |
| `Placement.FittingLandsInside` | vkrelay2/common/display/display_layout.cpp:647-674 | a window that fits the chosen work area ends inside it |
| `Placement.PlacedNearest` | vkrelay2/common/display/display_layout.cpp:647-754 | on every valid layout a recovered window is placed, on the monitor chosen for it, at the one position inside the interval of each axis that is nearest to where it starts: where it was, or centred with margins that differ by at most one pixel |
| `Placement.CentredInWorkIsPlacedThere` | vkrelay2/common/display/display_layout.cpp:713-747 | a window that fits the work area when centred on its owner is placed exactly there |
| `Placement.FittingIsCentredOnPrimary` | vkrelay2/common/display/display_layout.cpp:733-736 | a window that fits the primary work area is placed in its middle |
| `Placement.ReachableExactly` | vkrelay2/common/display/display_layout.cpp:693-711 | a preserved window is left where it is if and only if some pixel of its top row is in a work area |
| `Placement.OffMonitorExactlyWhen` | vkrelay2/common/display/display_layout.cpp:676-754 | on every valid layout and in every mode, a placed window misses the monitor it is given if and only if along an axis it is too large for the chosen work area and starts beside the monitor with room to stay there |
| `Placement.InAHoleExactlyWhen` | vkrelay2/common/display/display_layout.cpp:676-754 | it misses every monitor if and only if, besides, it is clear of each other monitor along an axis |
| `Placement.PreservedOffMonitorExactlyWhen` | vkrelay2/common/display/display_layout.cpp:693-747 | preserving: exactly when it overlaps no monitor and stays beside the nearest |
| `Placement.CentredOnOwnerOffMonitorExactlyWhen` | vkrelay2/common/display/display_layout.cpp:713-747 | centring on an owner: exactly when the centred window stays beside the owner's monitor |
| `Placement.CentredOverOwnerMeets` | vkrelay2/common/display/display_layout.cpp:713-747 | so never for a window at least as large as an owner that is on a monitor |
| `Placement.PreservedStaysOnMonitor` | vkrelay2/common/display/display_layout.cpp:693-747 | preserving a window that overlaps a monitor leaves it on the monitor it is given, however large |
| `Placement.CentredMeetsPrimary` | vkrelay2/common/display/display_layout.cpp:713-747 | a window centred on the primary overlaps it, however large |
| `Placement.StrayStaysInGap` | vkrelay2/common/display/display_layout.cpp:647-674 | every window beside a small monitor, wider than it and off the other one is recovered to where it was, over no monitor |
| `Placement.RecoveredIntoAHole` | vkrelay2/common/display/display_layout.cpp:647-674 | a valid layout and a window that is recovered over no monitor at all |
| `ShapeMask.MaskOutsideShape` | vkrelay2/common/sidecar/chrome_recapture.hpp:70-125 | in place: accepted exactly when well formed and the areas fit; then masked, else untouched; never more cells marked than a frame has |
| `ShapeMask.PixelsAre` | vkrelay2/common/sidecar/chrome_recapture.hpp:116-123 | pixel by pixel, by coordinates: unchanged inside the shape, opaque black outside |
| `ShapeMask.CoverAll` | vkrelay2/common/sidecar/chrome_recapture.hpp:91-115 | the running account refuses exactly when the areas add up to more than the frame, else every covered cell is marked |
| `ShapeMask.FillBox` | vkrelay2/common/sidecar/chrome_recapture.hpp:108-114 | exactly the box's cells are marked, each once |
| `ShapeMask.BlackOut` | vkrelay2/common/sidecar/chrome_recapture.hpp:116-123 | in place: pixels in the shape unchanged, all others opaque black |
| `ShapeMask.DisjointIsAccepted` | vkrelay2/common/sidecar/chrome_recapture.hpp:64-69 | rectangles that do not overlap within the frame are never refused |
| `RpcProfile.FindBucket` | vkrelay2/common/vkrpc/rpc_profile.h:243-252 | the one bucket whose edges enclose the duration |
| `RpcProfile.Profile.Record` | vkrelay2/common/vkrpc/rpc_profile.h:374-380 | in place: the counters of the operation's slot and of the open frame, 64 bits wide |
| `RpcProfile.Profile.FrameMark` | vkrelay2/common/vkrpc/rpc_profile.h:384-407 | in place: the open frame closed, its time wrapped and saturated into the ring |
| `ProfileRuns.FramesConserveCalls` | vkrelay2/common/vkrpc/rpc_profile.h:374-407 | over every run, calls and bytes in closed and open frames are those since the first present |
| `ProfileRuns.RingListsLastFrames` | vkrelay2/common/vkrpc/rpc_profile.h:397-401 | over every run, the ring gives the last frame times, at most 512, in order |
| `ProfileRuns.SlotsSummarize` | vkrelay2/common/vkrpc/rpc_profile.h:302-314 | over every run, each slot counts its operations' calls: how many, bytes out, bytes in and time modulo 2^64, in which bucket, shortest and longest |
| `ProfileRuns.FramesTellPresents` | vkrelay2/common/vkrpc/rpc_profile.h:384-407 | over every run, the frame counters are the number, total modulo 2^64, shortest and longest of the times between presents |
| `ProfileDump.EmitsLongestPrefix` | vkrelay2/common/vkrpc/rpc_profile.h:489-492 | emitting with rollback ends with the first lines that fit |
| `ProfileDump.PrefixIsLongest` | vkrelay2/common/vkrpc/rpc_profile.h:489-492 | no longer prefix of whole lines fits |
| `ProfileReading.OpLineTells` | vkrelay2/common/vkrpc/rpc_profile.h:496-539 | an operation's line, split at its spaces and equals signs, has exactly its keys in order, each with the counter that the key names |
| `ProfileReading.FramesLineTells` | vkrelay2/common/vkrpc/rpc_profile.h:582-602 | likewise the frame line |
| `ProfileReading.PhasesLineTells` | vkrelay2/common/vkrpc/rpc_profile.h:540-581 | likewise the phases of the worker |
| `ProfileReading.SweepLineTells` | vkrelay2/common/vkrpc/rpc_profile.h:540-581 | likewise the upload sweep of the client |
| `ProfileReading.RingLineTells` | vkrelay2/common/vkrpc/rpc_profile.h:603-620 | over every run that shows it, the ring line lists the last frame times |
| `ProfileReading.CommaListReads` | vkrelay2/common/vkrpc/rpc_profile.h:603-620 | a printed list of numbers reads back as that list |
| `ProfileReading.TextReads` | vkrelay2/common/vkrpc/rpc_profile.h:489-492 | a dump splits into its lines at the line breaks |
| `ProfileFormat.Cursor.Put` | vkrelay2/common/vkrpc/rpc_profile.h:267-274 | never past the end; the overflow flag is up exactly when the line so far does not fit |
| `ProfileFormat.Cursor.PutNumber` | vkrelay2/common/vkrpc/rpc_profile.h:276-290 | the decimal digits, written backwards from twenty characters |
| `ProfileFormat.Cursor.Finish` | vkrelay2/common/vkrpc/rpc_profile.h:531-534 | a line that does not fit is taken back |
| `ProfileFormat.EmitOp` | vkrelay2/common/vkrpc/rpc_profile.h:496-539 | the operation's line as the plain dump has it, or nothing |
| `ProfileFormat.EmitFrames` | vkrelay2/common/vkrpc/rpc_profile.h:582-602 | the frame line as the plain dump has it |
| `ProfileFormat.EmitRing` | vkrelay2/common/vkrpc/rpc_profile.h:603-620 | the ring line as the plain dump has it |
| `ProfileFormat.FormatDump` | vkrelay2/common/vkrpc/rpc_profile.h:493-622 | in place: within capacity, exactly the longest prefix of the plain dump's whole lines |
| `ProfileFormat.Dump` | vkrelay2/common/vkrpc/rpc_profile.h:411-487 | the plain dump, line by line |

## Left out

- Counters of the registry and the input ring (epochs, placeholder ids, host-apply and event numbers) are unbounded naturals; the program's wrap around after 2^64 steps.
- Locks: each registry and queue operation is one atomic step; a poll is two, as it takes two locks. An applied unregistration and its popup cascade are one step, as both backends run them.
- GeometryConvergence.HostConverges: is about the client geometry asked of the host; frame insets, the clamp of a window's first placement to the work area, and the adoption of a geometry that the host realized differently are not modelled.
- VisibilityConvergence.VisibilityAgreesExactly: is about the visibility effects of the toplevel itself. When an owner is hidden or shown the worker also re-asserts its popups' windows, and a window is first revealed by its first paint or present; neither is modelled.
- The host's window calls: the executor is modelled as creations and destructions that finish later, in any order, and may fail.
- `read_some` is any nonempty piece of the stream, at most 4096 bytes, or its end. Sockets, processes, threads, logging and clocks are not modelled.
- Error texts: a failure is modelled as a failure, without its message. Allocation failure is not modelled.
- JSON numbers are reals. The C library's `stod` and `%.17g` printing are parameters; the round trip relies on `stod` being exact on decimal integers below 1e15, and for other numbers on their printed form reading back. NaN, infinities and stack depth are not modelled.
- LaunchDescriptor.ReadJson: a version number of 2^63 or more in the text is taken as out of range; the program rounds it with `llround`, whose result is then unspecified. Written versions are 32-bit and not concerned.
- Sorting in deduplication is insertion sort; for monitors with equal ids, which validation refuses, the library's order is unspecified.
- Rotations that are none of the four enumerators, guest display state, and the JSON form of display layouts are not modelled.
- The names of the remote operations are a parameter of the profile dump.
- ProfileReading.OpLineTells: for operation names without a space; a name with one would end at it.
- ProfileRuns.RingListsLastFrames: for a profile whose ring was enabled from the start, as the program does.
- The Vulkan backends, recording and validation of command streams, and field-by-field message mappings.
- The chrome recapture schedule and content hash, window classification and the smoke-test matrix.
- What the sidecar does with an event that it takes (injection or an authored move) is one step of `InputDelivery`: it reaches the guest.
