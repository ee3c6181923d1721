# ADBControl: verified models of the hard components

ADBControl lets people operate Android devices from a web server (Go) and from a remote client through a
Core process (Rust), with a Companion app on the phone.  This project models, in Dafny, the parts of it
whose correctness is not visible from one function body, and proves what they keep over all inputs, all
interleavings and all histories.

- **Device directory** (`DeviceIdentity`, `AliasLists`, `Devices`, `DeviceDedupe`, `DeviceCatalog`,
  `CatalogLaws`, `ListingLaws`, `RemoteDirectory`).  Unstable ADB rows become a persistent directory: one row per
  handset, a greedy merge of remembered and live rows, the migration of account assignments, and the
  directory and request authorization of remote users.
- **Automation runs** (`AutomationRun`, `AutomationEngine`, `AutomationLaws`, `AutomationExecutor`,
  `AutomationService`).  One executor races any number of pause, resume and stop callers.  The control block
  is a class with one method per critical section; the race is a step machine at that granularity, so a
  statement about all event sequences covers every interleaving; the executor's loops and the calls are
  methods proved to be runs of that machine whatever the others do in between.
- **Companion transport** (`CompanionRegistry`, `CompanionRouting`, `CommandCorrelation`,
  `CompanionSessions`, `CompanionSessionLaws`, `CompanionIngress`, `CompanionTransport`,
  `CompanionPresence`).  Ownership of devices by connections, request and response correlation, sessions
  over all message sequences, and which devices the rest of the Core sees.
- **Accounts and trust** (`RemoteAccounts`, `RemoteAccountLaws`, `CompanionTrust`, `CompanionTrustLaws`).
  Stateful maps with lazy expiry, revocation, attempt counters and time limits, each proved equal to a
  reading of its history.
- **Codecs and arithmetic** (`ControlFraming`, `ShellCommand`, `DiagnosticLines`, `CoordinateScaling`).

Objects that update fields are classes, loops are loops; each method is proved against a function of the
old state, and the laws are proved about those functions.  `dafny verify dfyconfig.toml` checks the project.

## Assumptions

Random tokens and run identifiers are fresh where a precondition says so, authentication times do not run
backwards, and times do not overflow 64 bits.  Saving to disk succeeds or fails as a parameter decides.
Password hashing is ideal: a hash is verified by exactly the password it was made from.

## Where the code does not keep what it seems to promise

- A collision marker in an mDNS serial is removed once; a service name that already looks marked loses its
  identity (`DeviceIdentity.CollisionKeepsIdentity`).
- Merging the same live rows twice is not always silent: related rows can trade places, and a nameless row
  can cost a slot its name (`CatalogLaws.MergeIdempotentIff`, `ListingLaws.ListingTwiceIff`,
  `ListingLaws.ListingSwaps`).  Unclean aliases of a new row would be cleaned only the second time, but the
  rows of a listing have none (`DeviceDedupe.DedupePartitions`).
- A display name goes lost when a handset shows up under a serial spelt like it and then under another one;
  otherwise a proper name is never replaced by a bare serial (`CatalogLaws.ProperNameIff`,
  `CatalogLaws.NameMeetsSerial`).
- A refused pause can leave the executor blocked with nobody to wake it, because the rollback clears the flag
  without closing the channel; so can a stop that could not be saved.  No resume call alone ends that wait
  (`AutomationLaws.WakeupLostIff`, `AutomationLaws.QueuedPauseLosesWakeup`,
  `AutomationLaws.FailedStopLosesWakeup`, `AutomationLaws.LostEndsIff`).
- A stop that could not be saved leaves the run Stopped and its executor running
  (`AutomationLaws.StoppedRunGoesOnIff`, `AutomationLaws.UnsavedStopGoesOn`).
- A pause during the last action leaves the finished run paused (`AutomationLaws.FinishEndsIff`,
  `AutomationLaws.PauseDuringLastActionStrands`).
- A run stopped before its executor's first transition keeps its control registered, and then every later
  skip start of its task is refused (`AutomationLaws.LeaksIff`, `AutomationLaws.StopBeforeStartLeaks`,
  `AutomationService.UnreleasedBlocksSkip`).
- The skip policy does not hold for task identifiers that contain a colon (`AutomationService.SkipEnforcedIff`),
  and a start that is still being saved refuses others even if its save then fails
  (`AutomationService.FailedStartRefuses`).
- A refused hello still takes over the routing of the device its envelope names
  (`CompanionPresence.HelloRefusedIff`, `CompanionPresence.HelloTakesOver`,
  `CompanionPresence.RefusedHelloTakesOver`).
- A device whose connection has ended is listed as present again by the next message of any other device
  (`CompanionPresence.GoneDeviceReappears`, `CompanionPresence.ListedWithoutHandle`).
- A failed save of the account database reports an error and keeps the change in memory
  (`RemoteAccountLaws.SavingDecidesOnlyTheAnswer`, `RemoteAccountLaws.UnsavedAccountSignsIn`).
- The phone's writer would send an empty message, at which the Core closes the stream; its one caller passes
  encoded envelopes, which are not empty (`ControlFraming.PhoneToCore`).  A heartbeat that fires while a frame
  is being read loses the bytes read so far (`ControlFraming.HeartbeatsKeepFraming`).
- A diagnostic line over 64 KiB is cut, and its remainder imported as a line, only if a chunk boundary falls
  into it late enough (`DiagnosticLines.ImportIsExact`).

## Model

| member | source | states |
|---|---|---|
| DeviceIdentity.NormalizedMDNSServiceIdentity | server/internal/device/service.go:388-410 | the scan returns the service name behind an mDNS serial, one numeric collision marker removed, and nothing for other serials |
| DeviceIdentity.EquivalentIsEquivalence | server/internal/device/service.go:415-421 | naming the same device is reflexive, symmetric and transitive |
| Text.DigitsIff | server/internal/device/service.go:398-404 | the digits of a marker, by code point |
| Text.SpaceIff | core/crates/adbcontrol-core/src/companion/session.rs:374-379 | the white space that trimming removes, by code point; a blank text has nothing else |
| Text.ContainsIff | server/internal/device/service.go:382-386 | containment: some text before and some after |
| DeviceIdentity.HasMarkerMeaning | server/internal/device/service.go:394-407 | the marker test holds exactly for names of the form base, space, parenthesised non-empty digits |
| DeviceIdentity.StripRemovesOneMarker | server/internal/device/service.go:394-407 | whatever the name in front looks like, exactly the last marker is removed |
| DeviceIdentity.CollisionKeepsIdentity | server/internal/device/service.go:412-421 | a collision marker keeps a serial equivalent to itself if and only if its service name is non-empty and not itself marked; the comment in the source promises it for every serial |
| DeviceIdentity.OnlyServicesAreShared | server/internal/device/service.go:388-421 | only serials of the mDNS service name anything but themselves |
| DeviceIdentity.SameRemoteIsEquivalence | core/crates/adbcontrol-core/src/remote/service.rs:715-720 | the Core's own relation is an equivalence too |
| DeviceIdentity.RemoteCollisionKeepsIdentity | core/crates/adbcontrol-core/src/remote/service.rs:715-732 | the Core's law: the same condition, and the name must not hold an unclosed space-parenthesis |
| AliasLists.AppendUnique | server/internal/device/service.go:309-323 | the loop keeps the first occurrence of every non-empty value |
| AliasLists.AliasesWithoutPrimary | server/internal/device/service.go:325-333 | the loop drops exactly the primary, in order |
| AliasLists.MergedAliasesNames | server/internal/device/catalog.go:71-73 | primary and aliases after a merge are the names of the two rows, no more and no fewer |
| AliasLists.MergedAliasesStable | server/internal/device/catalog.go:71-73 | merging the merged row again leaves the alias list as it is |
| AliasLists.MergedAliasesSelf | server/internal/device/catalog.go:71-73 | a row merged with itself keeps its aliases if and only if they are distinct, non-empty and without the primary |
| Devices.SameCatalogSymmetric | server/internal/device/catalog.go:167-181 | recognising a row is symmetric |
| Devices.SameCatalogNotTransitive | server/internal/device/catalog.go:167-181 | it is not transitive: three concrete rows |
| DeviceDedupe.MergeRows | server/internal/device/service.go:275-287 | one loop step: the preferred of two rows absorbs the other one's names |
| DeviceDedupe.DedupeDevicesByHardwareID | server/internal/device/service.go:266-294 | the loop with its index map computes one row per key, each key's rows absorbed left to right; result keys and index map agree at every step |
| DeviceDedupe.DedupeKeys | server/internal/device/service.go:266-294 | output keys are pairwise distinct and are exactly the input's keys, in order of first occurrence |
| DeviceDedupe.KeysGrow | server/internal/device/service.go:266-294 | later rows add keys at the end only, so cards stand in the order of their first rows |
| DeviceDedupe.SameKeyIff | server/internal/device/service.go:266-275 | two rows share a card if and only if they have one hardware key, or none and one serial, or one's key is spelt like the other's fallback |
| DeviceDedupe.DedupePartitions | server/internal/device/service.go:266-294 | each output row's names are exactly those of the input rows of its key, its other fields those of one undominated input row; a merged row's aliases are clean, a lone row is untouched |
| DeviceDedupe.MergeKeepsNames | server/internal/device/service.go:275-286 | absorbing keeps the key and unites the names, over any number of rows |
| DeviceDedupe.MergeCarriesPrimary | server/internal/device/service.go:279-287 | the surviving fields are those of the chosen row of the key |
| DeviceDedupe.PrimaryUndominated | server/internal/device/service.go:296-307 | no row of the key is preferred over the chosen one, for arbitrary states and transports |
| DeviceDedupe.PrimaryIsFirstOfBest | server/internal/device/service.go:296-307 | with the two transports the row parser produces, the chosen row is the first of maximal rank: online first, then usb |
| DeviceDedupe.FirstUndominatedNeedsParsedRows | server/internal/device/service.go:296-307 | with a third transport the first undominated row can lose: three concrete rows |
| DeviceDedupe.DedupeIdempotent | server/internal/device/service.go:266-294 | deduplicating twice is deduplicating once |
| DeviceCatalog.Catalog.constructor | server/internal/device/catalog.go:23-41 | the loop leaves every row read back offline and otherwise exactly as it was written |
| CatalogLaws.ReopenedIsSame | server/internal/device/catalog.go:23-134 | whatever merges, annotations and removals an opened catalog went through, with saves failing or not, the file it wrote reads back as the catalog it is |
| DeviceCatalog.Catalog.Merge | server/internal/device/catalog.go:43-96 | the nested loops return the merged list; the catalog stores it offline, or stays as it was when a needed save fails; MergedDetails says what that list is field by field |
| DeviceCatalog.Catalog.SetRemark | server/internal/device/catalog.go:98-116 | the first row that answers to the serial gets the remark; nothing changes if there is none or the save fails |
| DeviceCatalog.Catalog.Remove | server/internal/device/catalog.go:118-134 | exactly that row disappears, under the same conditions |
| DeviceCatalog.Catalog.RememberAssignments | server/internal/device/service.go:159-185 | unknown assigned serials become offline rows, and the result is merged |
| DeviceCatalog.FindRow | server/internal/device/catalog.go:51-54 | the inner loop finds the least free live row the slot recognises |
| DeviceCatalog.MatchSlots | server/internal/device/catalog.go:47-78 | the outer loop produces a matching in which every live row is taken at most once, and only by a slot that recognises it |
| DeviceCatalog.MergeInto | server/internal/device/catalog.go:55-73 | a live row wins over memory field by field, and gaps are filled from memory, the name's too when the serial changed (MergedDetails) |
| DeviceCatalog.AppendUnmatched | server/internal/device/catalog.go:79-83 | the live rows nobody took follow in order |
| DeviceCatalog.PickMeaning | server/internal/device/catalog.go:51-54 | what greedy picking means: free, recognised, and least |
| DeviceCatalog.MatchIsGood | server/internal/device/catalog.go:48-78 | the greedy matching is injective on taken rows and respects recognition |
| CatalogLaws.OriginMeaning | server/internal/device/catalog.go:47-83 | where each position of the merged list comes from, and its connection state |
| CatalogLaws.MergedDetails | server/internal/device/catalog.go:47-83 | every field of every slot after a merge: a slot that took a row has its serial, state and transport, the live details with gaps filled from memory, its own remark, and the live name if that is a proper one, else its own if that is |
| CatalogLaws.LiveRowsUsedOnce | server/internal/device/catalog.go:48-83 | every live row is the primary of exactly one position |
| CatalogLaws.SlotsKeepNames | server/internal/device/catalog.go:70-74 | slot i keeps its remark and all its names and gains exactly those of the row it took |
| CatalogLaws.MergeConservesNames | server/internal/device/catalog.go:43-96 | the names of the merged list are the remembered and the live names together |
| CatalogLaws.NothingForgotten | server/internal/device/catalog.go:43-134 | over any sequence of merges, annotations and removals, with saves failing or not, a remembered row that was not itself removed is still there, answers to all its names and has lost no identifying detail |
| CatalogLaws.GoneIff | server/internal/device/catalog.go:43-134 | a row is gone after such a sequence if and only if some successful removal in it met that row first |
| CatalogLaws.TrackKeepsOrder | server/internal/device/catalog.go:43-134 | rows that are still there are in their old order, so no two ended up in one place |
| CatalogLaws.ProperNameIff | server/internal/device/catalog.go:43-134 | after any sequence of merges, annotations and removals a row shows a proper name if and only if that is the latest one it was given and no serial it had since is spelt like it: a proper name is never replaced by a bare serial otherwise |
| CatalogLaws.NameMeetsSerial | server/internal/device/catalog.go:56-59 | with a serial spelt like the name it is: three serials of one handset |
| CatalogLaws.FindIff | server/internal/device/catalog.go:98-134 | a remark or a removal meets the first row that has the serial as its own, among its aliases, or up to equivalence, and none if and only if there is none |
| CatalogLaws.MergeIdempotentIff | server/internal/device/catalog.go:43-96 | for any rows, merging twice equals merging once if and only if the returned list is settled: it has a row for every live one and each entry agrees with the row it would take; while every slot stays steady (no earlier free row is recognised by the row it took) that is if and only if no nameless row takes over its serial as a name and every appended row's aliases are clean, and for live rows with different serials, related or not, the slots must be steady |
| CatalogLaws.AgreesIff | server/internal/device/catalog.go:55-74 | an entry absorbs a row without a trace if and only if serial, state and transport are equal, the row's other details are absent or equal, and the entry's clean aliases start with the row's |
| CatalogLaws.SharedSerialSwapIsSilent | server/internal/device/catalog.go:49-76 | with a shared serial steadiness is not needed: two concrete rows trade places and the list stays the same |
| AliasLists.MergedAliasesKeptIff | server/internal/device/catalog.go:71-73 | an alias list survives an absorption if and only if it is clean and starts with the absorber's own names |
| CatalogLaws.MergeUnrelatedIff | server/internal/device/catalog.go:43-96 | for pairwise unrelated live rows every slot is steady, so only names and aliases decide |
| CatalogLaws.MergeIdempotent | server/internal/device/catalog.go:43-96 | with named rows and clean aliases the second merge returns the same list and leaves the stored catalog unchanged, whatever is remembered |
| CatalogLaws.SlotTakesSameRow | server/internal/device/catalog.go:49-76 | the slot a merge leaves behind picks the same live row again if and only if it is steady |
| CatalogLaws.RelatedRowsSwap | server/internal/device/catalog.go:49-76 | two wireless rows of one handset, of which only the second answered for its serial number, trade places at the second merge: each of the two entries takes the other's row, for every service name and marker |
| CatalogLaws.RemergeKeepsRows | server/internal/device/catalog.go:43-96 | merging the list a merge returned, with any rows appended, lets every slot take its own row: nothing changes but unclean aliases |
| CatalogLaws.RememberAfterListing | server/internal/device/service.go:130-185 | so remembering assignments after a listing keeps the listing and appends the serials nobody answered to, for any rows |
| CatalogLaws.AssignmentsOnlyAppend | server/internal/device/service.go:159-179 | the migration appends rows for non-blank serials nobody answers to, and nothing else |
| CatalogLaws.AppendedInFull | server/internal/device/service.go:171-175 | every field of an appended row: named by its serial, offline, over usb or wireless |
| CatalogLaws.WirelessIff | server/internal/device/service.go:382-386 | a serial counts as wireless if and only if it holds a colon or one of two service types |
| CatalogLaws.KnownIff | server/internal/device/service.go:163-170 | a serial is known if and only if it is equivalent to a name of some row |
| CatalogLaws.AssignmentsRemembered | server/internal/device/service.go:159-185 | after it every assigned serial is recognised by the returned directory |
| ListingLaws.CardsUnrelatedIff | server/internal/device/service.go:187-294 | no two rows of a deduplicated listing recognise each other if and only if input rows with equivalent serials were given equal hardware keys |
| ListingLaws.NameIsSerial | server/internal/device/service.go:266-294 | every name of a deduplicated row is the serial of a listed row with its key |
| ListingLaws.ListingTwiceIff | server/internal/device/service.go:130-213 | deduplicating and merging the same parsed rows twice is silent if and only if every slot keeps its name, when equivalent serials have equal keys; otherwise, for different serials, the slots must be steady as well |
| ListingLaws.ListingSwaps | server/internal/device/service.go:130-213 | the rows that trade places survive the deduplication, so the exchange happens in a listing as it is run |
| RemoteDirectory.ReconcileRemoteDeviceList | core/crates/adbcontrol-core/src/remote/service.rs:632-713 | the loop builds one entry per assigned device that is not listed yet |
| RemoteDirectory.FindPrefersReady | core/crates/adbcontrol-core/src/remote/service.rs:643-657 | a registration is found if and only if there is one, and a ready one wins if and only if there is one |
| RemoteDirectory.RegisteredIsPreferred | core/crates/adbcontrol-core/src/remote/service.rs:643-657 | a ready registration before others, and of equals the last |
| RemoteDirectory.CurrentIsFirst | core/crates/adbcontrol-core/src/remote/service.rs:640-642 | the first current serial that names the device |
| RemoteDirectory.ReconcileMeaning | core/crates/adbcontrol-core/src/remote/service.rs:632-713 | entries are pairwise inequivalent, each is equivalent to an assignment and each assignment has one; the ADB state is online if and only if some current serial is equivalent |
| RemoteDirectory.EntriesShow | core/crates/adbcontrol-core/src/remote/service.rs:632-713 | the directory in full: in the order of the assignments the entry of the first of each device, with every member of that entry |
| RemoteDirectory.ReconcileIdempotent | core/crates/adbcontrol-core/src/remote/service.rs:632-713 | reconciling the answer again with the same inputs changes nothing |
| RemoteDirectory.RemoteRequest.ResolveDeviceAlias | core/crates/adbcontrol-core/src/remote/service.rs:516-552 | the request is rewritten in place to the current serial of an accessible device |
| RemoteDirectory.ResolutionIs | core/crates/adbcontrol-core/src/remote/service.rs:516-552 | what resolution does in full: where an accessible device is named it puts the first current serial of that device; otherwise nothing |
| RemoteDirectory.ResolutionPreservesAuthority | core/crates/adbcontrol-core/src/remote/service.rs:516-625 | rewriting changes no authorization decision, keeps the device, reaches a current serial when there is one, and touches no other argument |
| RemoteDirectory.AuthorizedIff | core/crates/adbcontrol-core/src/remote/service.rs:572-630 | a request is authorized if and only if it is one of five named ones, or one of three that name a device equivalent to an assigned one, or an ADB command of 23 for a serial equivalent to an assigned one, selected in first position |
| RemoteDirectory.AuthorizedReachesAssigned | core/crates/adbcontrol-core/src/remote/service.rs:516-625 | an authorized device request always reaches a device equivalent to an assigned one |
| AutomationRun.TerminalHasNoSuccessor | server/internal/automation/model.go:105-109 | the terminal statuses are exactly those the transition table does not leave |
| AutomationRun.Run.Transition | server/internal/automation/model.go:111-123 | legal transitions happen and stamp start once and end; illegal ones change nothing |
| AutomationRun.RunControl.TransitionRun | server/internal/automation/run_lifecycle.go:9-20 | the critical section: same status is a no-op, otherwise the table decides |
| AutomationRun.RunControl.UpdateProgress | server/internal/automation/run_lifecycle.go:27-32 | progress is recorded and nothing else changes |
| AutomationRun.RunControl.Pause | server/internal/automation/service.go:182-188 | a second pause is a no-op |
| AutomationRun.RunControl.RollBackPause | server/internal/automation/service.go:190-192 | a refused pause clears the flag and leaves the channel alone |
| AutomationRun.RunControl.Resume | server/internal/automation/service.go:196-204 | a resume closes the channel and replaces it, once per pause |
| AutomationRun.RunControl.Cancel | server/internal/automation/service.go:212 | cancelling is permanent |
| AutomationLaws.EveryRunIsSafe | server/internal/automation/service.go:115-217 | for every interleaving: the status history is a path in the table, an end time exists if and only if the status is terminal, started and finished actions are in-order prefixes, progress never exceeds what finished, and success means every action returned without error exactly once |
| AutomationLaws.RunsOnlyAdvance | server/internal/automation/run_lifecycle.go:9-37 | terminal statuses absorb, times are stamped once, progress never goes back |
| AutomationLaws.TimesAreExact | server/internal/automation/model.go:111-123 | in every run the start time is that of the event that first made it Running, the end time that of the event that ended it, and neither is there without such an event |
| AutomationLaws.PauseAlone | server/internal/automation/service.go:181-194 | a pause call nobody interferes with, in full: what it does to each status, and what a failed save takes back |
| AutomationLaws.ResumeAlone | server/internal/automation/service.go:195-207 | the same for a resume call: one channel closed and one opened for each pause |
| AutomationLaws.StopAlone | server/internal/automation/service.go:208-212 | the same for a stop call: cancelled only once the stop is saved |
| AutomationLaws.BlockedGoesOnIff | server/internal/automation/service.go:157-171 | a blocked executor goes on if and only if its channel is closed or the run is cancelled, to look again or to stop |
| AutomationLaws.SaveFails | server/internal/automation/service.go:99-155 | what a failed save does at each point of the executor |
| AutomationLaws.ActionFails | server/internal/automation/service.go:133-143 | a failed action ends a cancelled run as stopped, and any other as failed with the failure recorded |
| AutomationLaws.ExecutorAims | server/internal/automation/service.go:115-155 | where each of the executor's four transitions leads, by status |
| AutomationLaws.StopIsBounded | server/internal/automation/service.go:125-132 | once cancelled, at most one further action starts, and none unless the executor had already passed its check |
| AutomationLaws.StoppedRunGoesOnIff | server/internal/automation/service.go:115-171 | in every run, a Stopped run nobody calls any more can still start an action if and only if its executor has passed its check, or neither pause nor cancellation holds it and an action is left |
| AutomationLaws.UnsavedStopGoesOn | server/internal/automation/service.go:208-212 | for any number of actions some run from the start is Stopped, every call has returned, and its executor goes on, because the stop could not be saved |
| AutomationLaws.WakeupLostIff | server/internal/automation/service.go:157-212 | in every run, failed saves and refused pauses included, a step leaves the executor waiting for nobody if and only if it waits on the current channel, nothing is cancelled, no other stop is about to cancel, and the step rolls back a pause or is a stop's failed save while the flag is down |
| AutomationLaws.LostEndsIff | server/internal/automation/service.go:180-212 | such a wait ends if and only if a new pause raises the flag or a stop is accepted and goes on to save or cancel |
| AutomationLaws.NoLostWakeup | server/internal/automation/service.go:157-217 | if no save failed and no pause met a queued run, a blocked executor is on the current channel with the flag set, or its channel is closed, or the run is stopped with cancellation done or pending |
| AutomationLaws.QueuedPauseLosesWakeup | server/internal/automation/service.go:116-193 | without the second condition it fails: a concrete run in which every save succeeds |
| AutomationLaws.FailedStopLosesWakeup | server/internal/automation/service.go:180-212 | without the first condition it fails too: for any number of actions some run from the start ends Stopped with a waiting executor and every call returned, because the stop could not be saved |
| AutomationLaws.LostIgnoresResume | server/internal/automation/service.go:195-200 | no number of resume calls alone wakes such an executor |
| AutomationLaws.DoneIsSettled | server/internal/automation/service.go:115-155 | if saves worked and the executor is done, the run ended or all actions did, and the control is still registered only for a run stopped before its first action |
| AutomationLaws.LeaksIff | server/internal/automation/service.go:116-124 | in every run a step of the executor leaves the control registered for good if and only if a stop came before its first transition or saving that transition failed |
| AutomationLaws.StopBeforeStartLeaks | server/internal/automation/service.go:116-119 | a run from the start, for any number of actions, that leaks its control although every save succeeds |
| AutomationLaws.DoneStays | server/internal/automation/service.go:120-124 | nothing removes the control once the executor is done |
| AutomationLaws.FinishEndsIff | server/internal/automation/service.go:147-154 | in every run whose actions are all done the last transition ends the run if and only if it is not paused then, and succeeds if and only if it is running |
| AutomationLaws.PauseDuringLastActionStrands | server/internal/automation/service.go:147-154 | for any number of actions some run from the start, with every save succeeding, is paused during its last action and left paused with all actions done |
| AutomationExecutor.Execution.Execute | server/internal/automation/service.go:115-155 | the executor's loop, with its early return and its deferred removal, is a run of the step machine under any interference by callers, and ends done or blocked |
| AutomationExecutor.Execution.Wait | server/internal/automation/service.go:157-171 | the wait loop: proceed, cancelled, or blocked on the current channel after all the callers ever did |
| AutomationExecutor.Execution.TransitionRun | server/internal/automation/run_lifecycle.go:9-25 | the critical section and the save outside the lock are the machine's two steps |
| AutomationExecutor.Execution.UpdateProgress | server/internal/automation/run_lifecycle.go:27-37 | the same for progress; a failed save ends the loop |
| AutomationExecutor.Execution.PauseRun | server/internal/automation/service.go:181-194 | a pause call is a run of the machine's caller under any interference and returns what that caller returns; success means the flag was up or the run got paused, failure leaves the flag down |
| AutomationExecutor.Execution.ResumeRun | server/internal/automation/service.go:195-207 | the same for a resume call; success means the flag was down or the run ran again |
| AutomationExecutor.Execution.StopRun | server/internal/automation/service.go:208-212 | the same for a stop call; success means the run was stopped and is cancelled |
| AutomationExecutor.ExecutionIsSafe | server/internal/automation/service.go:115-155 | so the goroutine's own fields satisfy the safety of all runs: in-order actions, bounded progress, and success only after every action returned without error exactly once |
| AutomationService.ActiveTaskScan | server/internal/automation/service.go:227-234 | the scan returns what precedes the first colon, or nothing |
| AutomationService.ActiveTaskIff | server/internal/automation/service.go:99 | a run identifier gives its task back if and only if the task identifier has no colon |
| AutomationService.Service.Run | server/internal/automation/service.go:79-112 | a start is refused, or registers, and is withdrawn if its save fails; between the two others start and end runs |
| AutomationService.Service.Register | server/internal/automation/service.go:84-102 | the first critical section: the scan over the control map refuses a skip start of a busy task, or the control is registered |
| AutomationService.SkipIsExclusive | server/internal/automation/service.go:84-93 | over all sequences of starts and ends at most one active run of a colon-free task was started under the skip policy |
| AutomationService.SkipEnforcedIff | server/internal/automation/service.go:85-92 | an active run keeps a skip start of its task out if and only if the task identifier has no colon |
| AutomationService.RefusedIff | server/internal/automation/service.go:84-93 | a start is refused if and only if the policy is skip and some active identifier starts with the task's, which has no colon, and a colon; with an empty task identifier, other runs count |
| AutomationService.UnreleasedBlocksSkip | server/internal/automation/service.go:84-93 | a control nobody releases makes every later skip start of its colon-free task be refused, whatever else happens |
| AutomationService.FailedStartRefuses | server/internal/automation/service.go:84-110 | a start whose save fails refuses skip starts of its colon-free task meanwhile, so that neither run exists in the end |
| CompanionRegistry.Registry.GetDevice | core/crates/adbcontrol-core/src/companion/registry.rs:52-70 | the first entry of a device, or the connection error |
| CompanionRegistry.Registry.Upsert | core/crates/adbcontrol-core/src/companion/registry.rs:72-85 | the entry is replaced in place or appended |
| CompanionRegistry.Registry.Remove | core/crates/adbcontrol-core/src/companion/registry.rs:87-92 | every entry of the device disappears |
| CompanionRegistry.UpsertIsUpdate | core/crates/adbcontrol-core/src/companion/registry.rs:72-85 | seen by identifier, an upsert is a map update |
| CompanionRegistry.RemoveIsDelete | core/crates/adbcontrol-core/src/companion/registry.rs:87-92 | seen by identifier, a removal deletes that key alone |
| CompanionRegistry.UpsertKeepsDistinct | core/crates/adbcontrol-core/src/companion/registry.rs:72-85 | no device is ever listed twice |
| CompanionRegistry.RemoveKeepsDistinct | core/crates/adbcontrol-core/src/companion/registry.rs:87-92 | nor does a removal list a device twice |
| CompanionRegistry.FirstEntryDecides | core/crates/adbcontrol-core/src/companion/registry.rs:52-85 | the first entry of a device is found, and replaced where it stands; without one the device goes to the end |
| CompanionRegistry.RemovalIsEntrywise | core/crates/adbcontrol-core/src/companion/registry.rs:87-92 | a removal takes entries one by one, so the others keep their order |
| CompanionRouting.RoutingIsExact | core/crates/adbcontrol-core/src/companion/quinn_transport.rs:95-180 | over all interleavings a device belongs to connection c if and only if c carried its most recent hello and has not released it since |
| CompanionRouting.ClosedOwnsNothing | core/crates/adbcontrol-core/src/companion/quinn_transport.rs:167-180 | after its cleanup no handle names a connection, whatever other connections did meanwhile |
| CompanionRouting.AlwaysCovered | core/crates/adbcontrol-core/src/companion/quinn_transport.rs:167-180 | during cleanup a connection owns only what it still has to release |
| CompanionRouting.CleanupCompletes | core/crates/adbcontrol-core/src/companion/quinn_transport.rs:167-180 | from every reachable state a cleanup can be finished by its own releases, one for each device it collected |
| CompanionRouting.LiveTransport.Disconnect | core/crates/adbcontrol-core/src/companion/quinn_transport.rs:151-165 | a superseded connection's late cleanup leaves the newer handle and its registry entry alone; the registry lists no device twice |
| CompanionRouting.LiveTransport.DisconnectConnection | core/crates/adbcontrol-core/src/companion/quinn_transport.rs:167-180 | the connection's devices, and only those, leave both tables; the registry lists no device twice |
| CommandCorrelation.ResponsesBelong | core/crates/adbcontrol-core/src/companion/quinn_transport.rs:206-255 | with distinct identifiers in flight, an answered call holds a response to its own request, and no table entry outlives its call, over all interleavings |
| CommandCorrelation.DeliveryIsExact | core/crates/adbcontrol-core/src/companion/quinn_transport.rs:72-93 | a response reaches exactly the unanswered call in flight under its identifier; a late one changes nothing |
| CommandCorrelation.MailIsFinal | core/crates/adbcontrol-core/src/companion/quinn_transport.rs:221-255 | a mailbox is filled at most once and an answer is final |
| CommandCorrelation.ResponseAnswers | core/crates/adbcontrol-core/src/companion/quinn_transport.rs:184-255 | from every reachable state a call whose response comes, before or after it is sent, ends answered with it and without registration |
| CommandCorrelation.SilenceFails | core/crates/adbcontrol-core/src/companion/quinn_transport.rs:206-255 | one that cannot be sent, or to which nothing comes in time, ends failed and without registration |
| CommandCorrelation.MailEndsTheWait | core/crates/adbcontrol-core/src/companion/quinn_transport.rs:240-255 | a wait ends with the response if and only if one is there, and in time if and only if none is |
| CommandCorrelation.SharedIdentifierLosesResponse | core/crates/adbcontrol-core/src/companion/quinn_transport.rs:221-238 | with a shared identifier a failed send withdraws the other call's registration: a concrete run |
| CommandCorrelation.PendingTable.Complete | core/crates/adbcontrol-core/src/companion/quinn_transport.rs:76-91 | the identifier is the payload's, else the trace's; its waiter is taken out |
| CommandCorrelation.PayloadGoesFirst | core/crates/adbcontrol-core/src/companion/quinn_transport.rs:76-84 | a payload's identifier goes before any trace |
| CommandCorrelation.Exchange.DeliverResponse | core/crates/adbcontrol-core/src/companion/quinn_transport.rs:72-93 | a delivery takes the registration and fills its mailbox; in the machine of all interleavings it is one step |
| CommandCorrelation.Exchange.SendCommand | core/crates/adbcontrol-core/src/companion/quinn_transport.rs:184-255 | a call, with readers and other calls moving before each of its steps, returns a response to its own request or fails, and leaves no registration behind |
| CompanionSessions.SessionManager.HandleEnvelope | core/crates/adbcontrol-core/src/companion/session.rs:72-87 | the dispatch over the mutable session table computes the specified table and answer |
| CompanionSessions.SessionManager.CapabilityListReceived | core/crates/adbcontrol-core/src/companion/session.rs:180-248 | parsing, resolution against the catalog, lookup and update, with each error in its place |
| CompanionSessions.SessionManager.PermissionStateReceived | core/crates/adbcontrol-core/src/companion/session.rs:250-318 | the same for permission states |
| CompanionSessions.OthersUntouched | core/crates/adbcontrol-core/src/companion/session.rs:72-338 | a rejected message, a heartbeat, or a message for another device changes nothing |
| CompanionSessions.MalformedIsRefused | core/crates/adbcontrol-core/src/companion/session.rs:72-87 | another protocol or version, a blank identifier, or a kind that is not for sessions is refused, in this order |
| CompanionSessions.HelloAnswered | core/crates/adbcontrol-core/src/companion/session.rs:110-178 | a hello in full: its three refusals, the fresh handshaking session, the acknowledgement |
| CompanionSessions.CapabilitiesAnswered | core/crates/adbcontrol-core/src/companion/session.rs:180-248 | a capability list in full: refusals in order, the list replaced, Ready if states are there, the acknowledgement |
| CompanionSessions.StatesAnswered | core/crates/adbcontrol-core/src/companion/session.rs:250-318 | the same for permission states |
| CompanionSessions.HeartbeatAnswered | core/crates/adbcontrol-core/src/companion/session.rs:320-338 | a heartbeat is acknowledged for a connected device |
| CompanionSessions.ResolveMeaning | core/crates/adbcontrol-core/src/companion/session.rs:189-221 | an announcement is accepted if and only if the first catalog entry of every announced identifier has all the announced operations, and then resolves to those entries |
| CompanionSessions.ResolveRefuses | core/crates/adbcontrol-core/src/companion/session.rs:189-221 | a refused announcement is complained about for its first offender: unknown, or with an operation the catalog does not list |
| CompanionSessions.ResolveStatesMeaning | core/crates/adbcontrol-core/src/companion/session.rs:259-295 | states are accepted if and only if every capability is in the catalog; requirements are those of its first entry, grants are the required ones not missing in order, and what Android decides is kept as announced |
| CompanionSessionLaws.SessionsAreFaithful | core/crates/adbcontrol-core/src/companion/session.rs:72-338 | after any messages, sessions are filed under their device, hold catalog entries verbatim, and two non-empty lists make a session Ready |
| CompanionSessionLaws.ReadyIsExact | core/crates/adbcontrol-core/src/companion/session.rs:236-306 | after any messages a device is Ready if and only if since its last accepted hello one list was accepted while the latest accepted list of the other kind was not empty |
| CompanionSessionLaws.ReadyNeedsBoth | core/crates/adbcontrol-core/src/companion/session.rs:236-306 | Ready implies both kinds of list were accepted since the last hello, one of them not empty |
| CompanionIngress.Ingress.HandleEnvelope | core/crates/adbcontrol-core/src/companion/ingress.rs:76-85 | the ingress never fails: an error becomes a reply |
| CompanionIngress.Ingress.DispatchEnvelope | core/crates/adbcontrol-core/src/companion/ingress.rs:95-136 | dispatch by kind, with the chunk counter advanced before the store is asked |
| CompanionIngress.ErrorsAreReplies | core/crates/adbcontrol-core/src/companion/ingress.rs:76-114 | the reply is an error for exactly the listed failures, names the message it answers, and leaves the sessions alone |
| CompanionIngress.IngressAnswered | core/crates/adbcontrol-core/src/companion/ingress.rs:76-160 | what is done with every well-formed message: media, responses, unsupported kinds, and the rest for the sessions |
| CompanionIngress.IngressRefuses | core/crates/adbcontrol-core/src/companion/ingress.rs:76-94 | a message that is not well-formed is refused like one for the sessions |
| CompanionIngress.IngressKeepsSessionsApart | core/crates/adbcontrol-core/src/companion/ingress.rs:95-160 | over all messages, media and responses never touch a session, and the counter is the number of valid chunks on the media channel, stored or not |
| CompanionTransport.Transport.Accept | core/crates/adbcontrol-core/src/companion/quinn_transport.rs:65-149 | one accepted envelope: a response completes at most one waiter and touches nothing else; otherwise every session is published, a hello that names a device takes over its routing even if it was refused, and heartbeats are not answered |
| CompanionTransport.Transport.PublishSessions | core/crates/adbcontrol-core/src/companion/quinn_transport.rs:105-110 | every device with a session is published as the session has it, in whatever order the map is listed; no device is listed twice |
| CompanionPresence.PresenceIsExact | core/crates/adbcontrol-core/src/companion/quinn_transport.rs:95-180 | over every history of messages and cleanups a device is listed if and only if it has a session and no cleanup removed it after the last accepted message; it is then listed as its session is now |
| CompanionPresence.ListedWithoutHandle | core/crates/adbcontrol-core/src/companion/quinn_transport.rs:95-180 | a listed device has no handle if and only if every hello that gave it one was cleaned up and yet a message was accepted after the last cleanup |
| CompanionPresence.GoneDeviceReappears | core/crates/adbcontrol-core/src/companion/quinn_transport.rs:105-110 | from the start: a device that connected and left is listed again, without a handle, when another device connects |
| CompanionPresence.HelloRefusedIff | core/crates/adbcontrol-core/src/companion/session.rs:110-155 | a published hello that names a device is refused if and only if it does not parse, names another device while the envelope's is not blank, or lacks the protocol version |
| CompanionPresence.HelloTakesOver | core/crates/adbcontrol-core/src/companion/quinn_transport.rs:95-125 | refused or not, it makes its connection the owner of the device; a refused one leaves the ingress as it was, an accepted one starts a new session |
| CompanionPresence.RefusedHelloTakesOver | core/crates/adbcontrol-core/src/companion/quinn_transport.rs:95-125 | from the start: a hello without a payload on a second connection is refused and takes over the device of the first |
| CompanionPresence.ShowsPublished | core/crates/adbcontrol-core/src/companion/quinn_transport.rs:108-110 | publishing sessions to the shared vector is merging them into a map |
| CompanionPresence.ShowsRemoved | core/crates/adbcontrol-core/src/companion/registry.rs:87-92 | removing devices from the vector is taking them out of that map |
| RemoteAccounts.AccountManager.Load | core/crates/adbcontrol-core/src/remote/auth.rs:95-134 | a missing database starts with the built-in administrator; others must be valid |
| RemoteAccountLaws.LoadIff | core/crates/adbcontrol-core/src/remote/auth.rs:95-134 | a database is opened if and only if it is absent and could be written, or is of version 1 with its built-in administrator; an absent one starts with that account |
| RemoteAccounts.AccountManager.SignIn | core/crates/adbcontrol-core/src/remote/auth.rs:136-155 | a login checks the password and records a session |
| RemoteAccounts.AccountManager.Check | core/crates/adbcontrol-core/src/remote/auth.rs:157-178 | authentication first purges every expired session |
| RemoteAccounts.AccountManager.Create | core/crates/adbcontrol-core/src/remote/auth.rs:195-219 | creation, its validation, and the change kept in memory when saving fails |
| RemoteAccounts.AccountManager.Delete | core/crates/adbcontrol-core/src/remote/auth.rs:221-238 | deletion ends the account's sessions; the administrator is refused |
| RemoteAccounts.AccountManager.ChangePassword | core/crates/adbcontrol-core/src/remote/auth.rs:240-260 | a verified change ends the account's sessions |
| RemoteAccounts.AccountManager.Reset | core/crates/adbcontrol-core/src/remote/auth.rs:262-276 | a reset demands a new password and ends the account's sessions |
| RemoteAccounts.AccountManager.SetAccess | core/crates/adbcontrol-core/src/remote/auth.rs:278-306 | one device is granted or withdrawn |
| RemoteAccountLaws.LoginIff | core/crates/adbcontrol-core/src/remote/auth.rs:136-155 | a login succeeds if and only if the account exists and its secret was made from this password; what it answers and records, and the refusals |
| RemoteAccountLaws.WritingIff | core/crates/adbcontrol-core/src/remote/auth.rs:195-306 | each of the five writing operations is refused if and only if one of its complaints applies, the first one, and otherwise shows the account as it is then |
| RemoteAccountLaws.AccountAfter | core/crates/adbcontrol-core/src/remote/auth.rs:195-306 | an event changes at most the account it names, and only by an accepted operation, which sets exactly its own fields |
| RemoteAccountLaws.CredentialsIff | core/crates/adbcontrol-core/src/remote/auth.rs:340-368 | names are 3 to 64 ASCII letters, digits and three signs; passwords 8 to 1024 bytes |
| RemoteAccountLaws.BytesAddUp | core/crates/adbcontrol-core/src/remote/auth.rs:357-368 | bytes add up over concatenation, one to four a character |
| RemoteAccountLaws.AlwaysSound | core/crates/adbcontrol-core/src/remote/auth.rs:136-306 | over every history the built-in administrator stays and no session outlives its account, so the missing-account answer is never given |
| RemoteAccountLaws.AuthenticateIsExact | core/crates/adbcontrol-core/src/remote/auth.rs:136-306 | authentication succeeds if and only if a login with the secret the account then had issued the token less than the time to live ago and since then it was not logged out or reissued and its account not deleted, reset or given a new password; the answer shows the account as it is now |
| RemoteAccountLaws.AccountIsLatest | core/crates/adbcontrol-core/src/remote/auth.rs:195-238 | an account exists if and only if the latest event that created or deleted it created it, or none did and it was loaded; created accounts are ordinary users |
| RemoteAccountLaws.PasswordIsLatest | core/crates/adbcontrol-core/src/remote/auth.rs:195-276 | over every history an account's password is the latest one it was given, due for a change if and only if that was a reset, even where saving failed |
| RemoteAccountLaws.HeldIsExact | core/crates/adbcontrol-core/src/remote/auth.rs:136-306 | over every history accounts and secrets are what the events alone say |
| RemoteAccountLaws.SignInIsExact | core/crates/adbcontrol-core/src/remote/auth.rs:136-276 | after every history a login succeeds if and only if the account exists and the latest event that gave it a password gave this one |
| RemoteAccountLaws.AccessIsLatest | core/crates/adbcontrol-core/src/remote/auth.rs:278-306 | an account may use a device if and only if the latest decision about the two granted it; creation grants nothing |
| RemoteAccountLaws.SessionsAreExact | core/crates/adbcontrol-core/src/remote/auth.rs:136-276 | the lazily purged table holds exactly the living sessions no authentication found expired |
| RemoteAccountLaws.SavingDecidesOnlyTheAnswer | core/crates/adbcontrol-core/src/remote/auth.rs:195-322 | for each of the five writing operations the state after a failed save is the state after a successful one; the write error is given if and only if the operation was otherwise accepted, and a refusal changes nothing |
| RemoteAccountLaws.UnsavedAccountSignsIn | core/crates/adbcontrol-core/src/remote/auth.rs:136-219 | from a fresh database: an account whose creation was reported as failed signs in |
| CompanionTrust.NormalizeIdempotent | core/crates/adbcontrol-core/src/companion/trust.rs:319-325 | normalising twice is normalising once |
| CompanionTrust.NormalizeIff | core/crates/adbcontrol-core/src/companion/trust.rs:319-325 | two fingerprints normalise alike if and only if, without separators, they agree position by position up to ASCII case |
| CompanionTrust.FingerprintIff | core/crates/adbcontrol-core/src/companion/trust.rs:302-317 | a fingerprint is valid if and only if it has 64 characters that are not separators, all hexadecimal digits |
| CompanionTrust.SpellingIgnored | core/crates/adbcontrol-core/src/companion/trust.rs:319-325 | separators anywhere and letter case do not matter |
| CompanionTrust.TrustStore.BeginPairing | core/crates/adbcontrol-core/src/companion/trust.rs:165-189 | a valid request opens a challenge with five attempts for five minutes |
| CompanionTrust.TrustStore.ConfirmPairing | core/crates/adbcontrol-core/src/companion/trust.rs:191-246 | expired, wrong and right guesses, each with what it removes and creates |
| CompanionTrust.TrustStore.IsTrusted | core/crates/adbcontrol-core/src/companion/trust.rs:248-262 | not revoked, not expired, same fingerprint |
| CompanionTrust.TrustStore.RevokeDevice | core/crates/adbcontrol-core/src/companion/trust.rs:264-279 | revocation marks the device and keeps it listed |
| CompanionTrust.TrustStore.Load | core/crates/adbcontrol-core/src/companion/trust.rs:74-122 | a missing file is an empty store; the first complaint wins |
| CompanionTrust.TrustStore.Save | core/crates/adbcontrol-core/src/companion/trust.rs:124-143 | the file lists every trusted device once, in no fixed order |
| CompanionTrust.FiledMeaning | core/crates/adbcontrol-core/src/companion/trust.rs:113-120 | a file's devices load if and only if every one is valid; else the first that is not decides what is complained about |
| CompanionTrust.LoadedIff | core/crates/adbcontrol-core/src/companion/trust.rs:74-122 | a missing file is empty, a readable one of schema 1 brings its devices and no open pairings, others are refused |
| CompanionTrust.SaveThenLoad | core/crates/adbcontrol-core/src/companion/trust.rs:74-163 | loading what was saved restores the trusted devices, for every listing order |
| CompanionTrustLaws.AlwaysSound | core/crates/adbcontrol-core/src/companion/trust.rs:165-279 | every reachable store passes the loader's validation |
| CompanionTrustLaws.RestartIsSaveAndLoad | core/crates/adbcontrol-core/src/companion/trust.rs:74-163 | so restarting is saving and loading, for every reachable store |
| CompanionTrustLaws.PendingIsExact | core/crates/adbcontrol-core/src/companion/trust.rs:191-229 | a pairing is pending if and only if an accepted request opened it and nothing solved, expired, replaced or exhausted it since; it then has five minus the guesses made, between one and five |
| CompanionTrustLaws.OpensIff | core/crates/adbcontrol-core/src/companion/trust.rs:165-173 | a request is accepted if and only if it names a device and a SHA-256 fingerprint |
| CompanionTrustLaws.GuessAnswered | core/crates/adbcontrol-core/src/companion/trust.rs:191-246 | every guess is answered by the challenge open under its identifier then, if there is one: late, wrong or right |
| CompanionTrustLaws.ConfirmIsExact | core/crates/adbcontrol-core/src/companion/trust.rs:191-246 | a guess succeeds if and only if it solves an open challenge in time, and trusts what that request named |
| CompanionTrustLaws.TrustsOncePerChallenge | core/crates/adbcontrol-core/src/companion/trust.rs:231-245 | between two successes under one identifier a new request must reopen it |
| CompanionTrustLaws.TrustedByHistory | core/crates/adbcontrol-core/src/companion/trust.rs:165-279 | a device is trusted if and only if its latest successful confirmation was not followed by a revocation, is at most thirty days old, and was for this fingerprint up to separators and ASCII case, across restarts |
| ControlFraming.Incoming.ReadControlFrame | core/crates/adbcontrol-core/src/companion/quinn_transport.rs:527-556 | one frame is taken off, or the reason why not with the bytes the failed read has taken off |
| ControlFraming.Incoming.HandleControlStream | core/crates/adbcontrol-core/src/companion/quinn_transport.rs:430-470 | the control loop checks the preface, hands on the decoded frames, and leaves on the stream what its last read left |
| ControlFraming.Outgoing.WriteControlFrame | core/crates/adbcontrol-core/src/companion/quinn_transport.rs:558-576 | a message of 1 byte to 4 MiB becomes a frame, any other is refused without a trace |
| ControlFraming.Outgoing.CoreWriter | core/crates/adbcontrol-core/src/companion/quinn_transport.rs:455-460 | the Core's writer stops at the first message it refuses |
| ControlFraming.Outgoing.PhoneWriter | core/crates/adbcontrol-quic-android/src/lib.rs:182-195 | the phone's writer skips what is too long and would send what is empty |
| ControlFraming.LengthReadThenWritten | core/crates/adbcontrol-core/src/companion/quinn_transport.rs:528-536 | the four length bytes are determined by the length they spell |
| ControlFraming.BigEndian | core/crates/adbcontrol-core/src/companion/quinn_transport.rs:528-536 | the most significant byte goes first, and only the low 32 bits are written |
| ControlFraming.DecodeAppend | core/crates/adbcontrol-core/src/companion/quinn_transport.rs:527-556 | sendable messages in front of any stream are read first, unchanged |
| ControlFraming.RoundTrip | core/crates/adbcontrol-core/src/companion/quinn_transport.rs:436-594 | decoding preface and frames gives exactly the messages, nothing left over |
| ControlFraming.PrefaceIff | core/crates/adbcontrol-core/src/companion/quinn_transport.rs:436-454 | frames are read if and only if the stream starts with the five bytes of the preface |
| ControlFraming.FailureTakes | core/crates/adbcontrol-core/src/companion/quinn_transport.rs:527-556 | a failed read leaves what follows a refused length, and otherwise nothing |
| ControlFraming.EncodeDecoded | core/crates/adbcontrol-core/src/companion/quinn_transport.rs:527-594 | every byte stream is its decoded messages encoded again, plus a rest that starts no readable frame |
| ControlFraming.Truncated | core/crates/adbcontrol-core/src/companion/quinn_transport.rs:527-556 | a stream cut anywhere yields exactly the messages that fit whole and never looks malformed |
| ControlFraming.PhoneToCore | core/crates/adbcontrol-quic-android/src/lib.rs:182-195 | the Core receives all the phone sends if and only if the phone sends no empty message |
| ControlFraming.PhoneStreamDecoded | core/crates/adbcontrol-quic-android/src/lib.rs:182-195 | otherwise it receives what precedes the first empty message, and gives up there |
| ControlFraming.CoreToPhone | core/crates/adbcontrol-quic-android/src/lib.rs:196-212 | the phone receives exactly what the Core's writer sent |
| ControlFraming.HeartbeatsKeepFraming | core/crates/adbcontrol-core/src/companion/quinn_transport.rs:464-505 | messages come through unchanged if and only if every heartbeat fires between two frames: one that interrupts a read drops the bytes already taken |
| ControlFraming.InterruptedStops | core/crates/adbcontrol-core/src/companion/quinn_transport.rs:464-470 | a refused length ends the loop, interrupted or not |
| ShellCommand.QuoteIsOneWord | server/internal/device/companion_command.go:299-301 | the shell reads a quoted value as the one word it was, whatever it contains |
| ShellCommand.QuotedBody | server/internal/device/companion_command.go:299-301 | inside a word too: the quoting of a value continues the word by the value |
| ShellCommand.PlainIff | server/internal/device/companion_command.go:61-67 | the characters a broadcast may hold unquoted: letters, digits and four signs |
| ShellCommand.SpecialNeedsQuoting | server/internal/device/companion_command.go:299-301 | any other unquoted character would need more of the shell; behind a backslash it stands for itself |
| ShellCommand.BroadcastTokens | server/internal/device/companion_command.go:61-67 | a broadcast with any plain-named extras tokenizes to exactly the intended argument list |
| ShellCommand.CommandArrives | server/internal/device/companion_command.go:52-70 | a companion command is refused exactly for a blank capability or operation; otherwise its arguments arrive as given |
| ShellCommand.ConfigurationArrives | server/internal/device/companion_quic.go:72-78 | the same for the connection broadcast |
| ShellCommand.ReceiversSpelled | server/internal/device/companion_command.go:15-20 | the components both broadcasts address, spelled out |
| DiagnosticLines.LineWriter.Write | server/internal/observability/core_diagnostic_writer.go:25-42 | the loop imports the complete lines of buffer and chunk and keeps the unfinished one, unless it is longer than 64 KiB |
| DiagnosticLines.SplitIsExact | server/internal/observability/core_diagnostic_writer.go:29-37 | lines and tail put together are the stream, and no line holds a newline |
| DiagnosticLines.SplitAppend | server/internal/observability/core_diagnostic_writer.go:28-37 | splitting can be resumed from the unfinished line |
| DiagnosticLines.BufferIsExact | server/internal/observability/core_diagnostic_writer.go:38-40 | the buffer is the unfinished line if and only if that line has not overflowed at the end of some chunk |
| DiagnosticLines.ImportIsExact | server/internal/observability/core_diagnostic_writer.go:25-42 | the imported lines are those of the whole stream if and only if no line was over 64 KiB at the end of one chunk and completed by a later one |
| DiagnosticLines.ChunksDoNotMatter | server/internal/observability/core_diagnostic_writer.go:25-42 | a stream of lines of at most 64 KiB is imported alike however it is cut |
| CoordinateScaling.ScaleIsProportional | core/android/companion-app/app/src/main/java/com/adbcontrol/companion/features/AccessibilityFeatureHandler.kt:225-230 | for values in bounds nothing wraps, the clamp never acts, and the result is the rounded-down proportion |
| CoordinateScaling.MappedInside | core/android/companion-app/app/src/main/java/com/adbcontrol/companion/features/AccessibilityFeatureHandler.kt:201-223 | a point is mapped if and only if it is on the source screen, and then lands on the target screen |
| CoordinateScaling.MappedByAxis | core/android/companion-app/app/src/main/java/com/adbcontrol/companion/features/AccessibilityFeatureHandler.kt:216-230 | each coordinate is the rounded-down proportion of its own axis |
| CoordinateScaling.SpaceIff | core/android/companion-app/app/src/main/java/com/adbcontrol/companion/features/AccessibilityFeatureHandler.kt:205-214 | a command's own space is taken if and only if both extents are given and positive |
| CoordinateScaling.QuotientTruncates | core/android/companion-app/app/src/main/java/com/adbcontrol/companion/features/AccessibilityFeatureHandler.kt:226-228 | division rounds toward zero |
| CoordinateScaling.WrapsCongruent | core/android/companion-app/app/src/main/java/com/adbcontrol/companion/features/AccessibilityFeatureHandler.kt:226-228 | conversions keep the value up to multiples of the integer's size |
| CoordinateScaling.CoerceIsNearest | core/android/companion-app/app/src/main/java/com/adbcontrol/companion/features/AccessibilityFeatureHandler.kt:229 | clamping gives the nearest value in range |
| CoordinateScaling.ScaleMonotone | core/android/companion-app/app/src/main/java/com/adbcontrol/companion/features/AccessibilityFeatureHandler.kt:225-230 | scaling is monotone |
| CoordinateScaling.ScaleEndpoints | core/android/companion-app/app/src/main/java/com/adbcontrol/companion/features/AccessibilityFeatureHandler.kt:225-230 | first and last pixel stay first and last |
| CoordinateScaling.PhysicalCoordinatesStay | core/android/companion-app/app/src/main/java/com/adbcontrol/companion/features/AccessibilityFeatureHandler.kt:205-223 | commands without their own coordinate space keep physical coordinates |
| CoordinateScaling.ScaleInjective | core/android/companion-app/app/src/main/java/com/adbcontrol/companion/features/AccessibilityFeatureHandler.kt:225-230 | scaling up keeps different values apart |
| CoordinateScaling.ScaleUpAndBack | core/android/companion-app/app/src/main/java/com/adbcontrol/companion/features/AccessibilityFeatureHandler.kt:225-230 | scaling up and back gives the value if and only if its proportion was whole, else one less |

## Left out

- DeviceCatalog.Catalog.Merge: rows and lists are values, so sharing of alias slices between rows is not visible, and a nil and an empty alias slice, which the source's deep comparison tells apart, are one.
- DeviceCatalog.Catalog.RememberAssignments: belongs to the device service in the source; here it is a method of the catalog it merges into.
- CatalogLaws.MergeIdempotentIff: for live rows that share a serial, which ADB does not report, the exact condition reads the matching of the second merge, not that of the first alone (`SharedSerialSwapIsSilent` shows why).
- ListingLaws: reading a hardware identifier from a device, its fallback, and the parsing of ADB's output are not modelled; a listing starts from rows as the parser makes them, each with whatever key it was given.
- RemoteDirectory.ReconcileRemoteDeviceList: JSON members are absent, strings or other values; members the component never reads are one opaque map.
- AutomationExecutor.Execution.Execute: bounded by the same ghost parameter as the wait it contains, so a single execution with infinitely many resume calls is covered by the step machine only.
- AutomationExecutor.Execution.Wait: the number of resume calls in one execution is a ghost parameter that bounds the loop; an execution with infinitely many is covered by the step machine only.
- AutomationEngine: log messages, the error code's text and the progress fraction are not modelled.
- AutomationEngine: the order in which concurrent saves reach the repository, and so which snapshot is stored last, is not modelled.
- AutomationService.Service.Run: needs a fresh run identifier; task lookup and failing randomness are not modelled.
- CompanionRouting: connection identifiers do not wrap around; cleanups are finer steps than the one thread that serves all connections allows.
- CompanionRouting.LiveTransport.DisconnectConnection: states the effect without interference; interleavings are covered by the event model of the same module.
- CompanionSessions: the capability catalog is a parameter, so its 200 lines of constants are not repeated; payloads are given as what they parse to, if they parse.
- CommandCorrelation: how a delivered response is turned into a result or an error for the caller is not modelled.
- CompanionPresence: events are whole acceptances and cleanups, since one thread serves all connections; a server that ran them on several threads would need finer steps.
- CompanionTrust: lower-casing is modelled for ASCII letters; other characters never make a valid fingerprint, so no decision depends on them.
- CompanionTrust.TrustStore.Save: directories, serialization and write errors are not modelled.
- RemoteAccounts: argon2, salts, hashing failures and a poisoned lock are not modelled.
- ControlFraming: the phone's dropping of frames that are not UTF-8 is not modelled; a stream is the bytes it will ever carry, so waiting for more is not visible.
- ShellCommand: a line that uses any other unquoted shell syntax counts as not recognised; NUL cannot be passed to a process and is treated like any other character; the retry loop that fetches a command's result file is not modelled.
- DiagnosticLines: what is done with an imported line is not modelled.
- CoordinateScaling: conversion of command arguments to integers and the gesture itself are not modelled.
- Task validation in the automation model and envelope validation beyond its three guards: comparisons without further properties.
- HTTP handlers, WebSockets, TLS, QUIC connections, JNI, SQLite, JSON text and the user interfaces: plumbing around the components above.
- Media chunk files and video packets: simpler variants of the framing above.
