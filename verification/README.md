# ypi: models and proofs of the recursion runtime

This project models the parts of ypi that keep state while agents delegate to agents, and
proves what those parts promise over every run.

* **Slots and delegation.** `TreeCoordinator` is the root-owned coordinator: one state value,
  one function per event, and the class that updates its fields in place. `SlotAdmission`
  proves the cap, arrival order and finality of termination over all runs; `CoordinatorReplies`
  that every request is answered once, `CoordinatorOperations` what each answer and effect is;
  `SlotCustody` that no confirmed slot gets lost; `Cancellation` exactly whom cancellation
  signals; `CallNumbers` that every number is issued, in order. `NestedDelegation` puts a tree of
  calling processes on top and proves when it cannot deadlock, `AbandonedGrants` exactly how
  many abandoned grants it tolerates; `DelegationAccounting` follows one process's counter of
  nested delegations through lost requests and lost replies.
* **The lease journal.** `LeaseJournal` is the append-only record of an implementer lease, on
  bytes, with a crash possible after every byte; `JournalFacts` says exactly what is accepted
  and written.
* **Implementers.** `ImplementScope` is the algebra of write scopes, `ScopeMeaning` what its
  paths mean as places, `WorkspaceRegistry` the admission of live leases, `RegistryMutex` the
  directory mutex under it, `ImplementerLifecycle` the path from a reserved lease to a verified
  ref and a removed worktree through any number of crashes and recoveries,
  `ImplementerRecovery` what its records say and when a recovery completes, and `ApplyOrder`
  the integration of the resulting attempts.
* **Streams and transcripts.** `JsonDecoder` and `TranscriptReader` (over the decoder in
  `Utf8`) are the chunked readers, proved equal to reading line by line.
* **Files and traces.** `AtomicFile` publishes without clobbering under interference,
  `OwnedTree` retires a directory tree by its inventory, `TraceValidator` checks the trace the
  runtime writes.

Each state machine is a datatype with a function per step, so that a run is a sequence of
steps; where the program updates an object in place, a class has the same fields and its
methods are proved to perform exactly those functions. `dafny verify dfyconfig.toml` checks
everything.

Where the program does not do what its design says, the model follows the program and the
difference is proved:

* a client that gives up after its acknowledgement was processed leaves its slot active for as
  long as it lives; a tree finishes its calls whatever happens with fewer of them than slots,
  and as many as slots can block it (`ToleratesFewerThanCap`);
* a newcomer passes the queue exactly when a slot has outlived its processes
  (`NewcomerPassesQueueExactly`);
* a tree that becomes terminal in another way than by a termination whose manifest can be
  written, in particular by a failure of the coordinator's server, signals no child, then or
  later (`CancellationExactly`, `LaunchedButNotSignalled`);
* a lost reply to a suspend request strands the inherited slot unless another suspension
  still retries its resume (`SlotComesBackExactly`);
* the journal can be written one revision beyond what can be read (`StaysReadableExactly`);
* a scope entry that folds to an invalid path, such as `.Git`, overlaps nothing, not even
  itself (`OverlapTrustworthyExactly`, `FoldedGitDirectoryIsMissed`), and one with a trailing
  slash covers nothing below it (`TrailingSlashCoversOnlyItself`);
* a full capture reports truncation on an empty append (`EmptyAppendRaisesFlag`);
* a file that is only a byte-order mark passes as a fork source (`LoneMarkIsAccepted`);
* publication compares no content: what success is worth depends on when others changed the
  held file and what they left (`SuccessMeansExactContent`, `PublicationTrustworthyExactly`);
* a rescuer that is overtaken removes a later holder's owner file; the mutex stays exclusive
  and can no longer be released (`MutualExclusionHolds`, `SlowRescuerOrphansHolder`);
* a trace with a terminal line before its completion is accepted (`TerminalFirstIsAccepted`).

## Model

| member | source | states |
|---|---|---|
| `TreeCoordinator.LocalCoordinator.constructor` | extensions/ypi/internal/tree-coordinator.ts:961-995 | a new generation has no slots, no bound maximum, and the counter file it inherited |
| `TreeCoordinator.LocalCoordinator.Prune` | extensions/ypi/internal/tree-coordinator.ts:284-291 | after the two loops exactly the slots with a living owner or child are left, active and suspended |
| `TreeCoordinator.LocalCoordinator.Reply` | extensions/ypi/internal/tree-coordinator.ts:225-234 | a reply reaches a connection only while it is open |
| `TreeCoordinator.LocalCoordinator.Grant` | extensions/ypi/internal/tree-coordinator.ts:321-359 | refuses a malformed, already active or not suspended token without any change; otherwise moves the token to a fresh slot, remembers what rollback needs, and answers |
| `TreeCoordinator.LocalCoordinator.Drain` | extensions/ypi/internal/tree-coordinator.ts:410-422 | from the head of the queue grants while slots are free, skips closed connections, answers requests that can no longer be granted |
| `TreeCoordinator.LocalCoordinator.RollBack` | extensions/ypi/internal/tree-coordinator.ts:351-359 | takes back the slot only if it is still the one granted, restores the consumed suspension only if nothing took its place, and drains; may be called again |
| `TreeCoordinator.LocalCoordinator.OnAcknowledgement` | extensions/ypi/internal/tree-coordinator.ts:370-401 | a valid acknowledgement confirms the grant, an invalid one rolls it back and closes |
| `TreeCoordinator.LocalCoordinator.OnAckTimeout` | extensions/ypi/internal/tree-coordinator.ts:360-365 | an unacknowledged grant is rolled back and its connection closed, an acknowledged one is left alone |
| `TreeCoordinator.LocalCoordinator.RemoveQueued` | extensions/ypi/internal/tree-coordinator.ts:406-408 | exactly the requests of that connection leave the queue, the others keep their order |
| `TreeCoordinator.LocalCoordinator.OnClose` | extensions/ypi/internal/tree-coordinator.ts:366-369 | closing removes the queued request and rolls back an unacknowledged grant |
| `TreeCoordinator.LocalCoordinator.Bind` | extensions/ypi/internal/tree-coordinator.ts:300-312 | the first valid maximum stays bound; later requests must name the same one |
| `TreeCoordinator.LocalCoordinator.Configure` | extensions/ypi/internal/tree-coordinator.ts:435-475 | limits are bound once; what is stored before a refusal stays stored |
| `TreeCoordinator.LocalCoordinator.AllocateNext` | extensions/ypi/internal/tree-coordinator.ts:424-500 | numbers one call, the counter file being replaced before the count moves |
| `TreeCoordinator.LocalCoordinator.AdmitOrQueue` | extensions/ypi/internal/tree-coordinator.ts:516-528 | binds, prunes, and grants at once or queues |
| `TreeCoordinator.LocalCoordinator.ReleaseToken` | extensions/ypi/internal/tree-coordinator.ts:529-536 | the token leaves both maps and the queue is drained |
| `TreeCoordinator.LocalCoordinator.SuspendToken` | extensions/ypi/internal/tree-coordinator.ts:537-564 | only the owner or the registered child may move an active slot to the suspended map, which drains the queue |
| `TreeCoordinator.LocalCoordinator.RegisterChild` | extensions/ypi/internal/tree-coordinator.ts:565-592 | a child is bound to an active slot only while it is alive |
| `TreeCoordinator.LocalCoordinator.PerformOperation` | extensions/ypi/internal/tree-coordinator.ts:509-598 | dispatches one authenticated request |
| `TreeCoordinator.LocalCoordinator.Handle` | extensions/ypi/internal/tree-coordinator.ts:502-600 | over-long or malformed requests are answered 1, unauthenticated, dead or post-terminal ones 130, and neither changes anything else |
| `TreeCoordinator.LocalCoordinator.Refuse` | extensions/ypi/internal/tree-coordinator.ts:1136-1141 | every queued request is answered with 130 |
| `TreeCoordinator.LocalCoordinator.MarkLocalCoordinatorTerminal` | extensions/ypi/internal/tree-coordinator.ts:1120-1168 | becomes terminal once, refuses the queue and returns the living registered children other than the root process; nothing is signalled when the manifest cannot be replaced |
| `CoordinatorReplies.EveryRequestIsAnsweredOnce` | extensions/ypi/internal/tree-coordinator.ts:225-422 | over every run no request is answered twice, and one whose connection was not cut off is answered if and only if it does not wait in the queue, where it stands once |
| `CoordinatorReplies.ApplyTidy` | extensions/ypi/internal/tree-coordinator.ts:502-600 | every event keeps each connection answered once, waiting or cut off |
| `CoordinatorOperations.StrangersAreRefused` | extensions/ypi/internal/tree-coordinator.ts:502-509 | a request that is malformed or foreign, of a dead process, or to a tree that is not active changes nothing and is answered 1 if malformed and 130 otherwise |
| `CoordinatorOperations.RegisterExactly` | extensions/ypi/internal/tree-coordinator.ts:565-592 | a child is bound if and only if it lives and the token is active; the answers tell a malformed token from the rest |
| `CoordinatorOperations.ReleaseExactly` | extensions/ypi/internal/tree-coordinator.ts:529-536 | with nobody waiting a release takes the token out of both maps, sweeps slots nobody lives for, and changes nothing else |
| `CoordinatorOperations.SuspendExactly` | extensions/ypi/internal/tree-coordinator.ts:537-564 | a slot is suspended if and only if its owner or its child asks, and moves as it is |
| `CoordinatorOperations.GrantExactly` | extensions/ypi/internal/tree-coordinator.ts:321-350 | a token is granted if and only if it is well formed, not active and, to be resumed, suspended; then this is the whole new state |
| `CoordinatorOperations.AdmitExactly` | extensions/ypi/internal/tree-coordinator.ts:516-528 | when a request for a slot is refused, granted or queued: queued if and only if all slots are taken by the living, whatever its token |
| `CoordinatorOperations.UndoingRestores` | extensions/ypi/internal/tree-coordinator.ts:351-359 | a grant taken back leaves active and suspended slots as they were before it |
| `CoordinatorOperations.UndoesExactly` | extensions/ypi/internal/tree-coordinator.ts:351-359 | taken back later: the token goes if and only if its slot is still the one granted, and a consumed suspension comes back unless the token was suspended again |
| `CoordinatorOperations.DrainExactly` | extensions/ypi/internal/tree-coordinator.ts:410-422 | draining stops if and only if all slots are taken or nobody waits; else the first in the queue is skipped, granted or answered |
| `CoordinatorOperations.AcknowledgeExactly` | extensions/ypi/internal/tree-coordinator.ts:360-401 | what data, invalid data and silence do to a granted connection |
| `CoordinatorOperations.CloseExactly` | extensions/ypi/internal/tree-coordinator.ts:366-369 | a closed connection leaves the queue, the others keep their order, and an unconfirmed grant is undone |
| `CoordinatorOperations.EndsExactly` | extensions/ypi/internal/tree-coordinator.ts:1120-1141 | how a tree becomes active and terminal, and that everybody still connected in the queue is then answered 130 in order |
| `SlotAdmission.CapHolds` | extensions/ypi/internal/tree-coordinator.ts:300-422 | over every run the active slots never exceed the bound maximum, and the maximum never changes once bound |
| `SlotAdmission.DrainWithinCap` | extensions/ypi/internal/tree-coordinator.ts:410-422 | draining stays within the cap and leaves no slot idle while requests wait |
| `SlotAdmission.RollbackWithinCap` | extensions/ypi/internal/tree-coordinator.ts:351-369 | a rollback, repeated or not, stays within the cap |
| `SlotAdmission.AdmitWithinCap` | extensions/ypi/internal/tree-coordinator.ts:516-528 | admission, pruning included, stays within the cap |
| `SlotAdmission.ApplyWithinCap` | extensions/ypi/internal/tree-coordinator.ts:502-600 | every event keeps the cap |
| `SlotAdmission.FairnessHolds` | extensions/ypi/internal/tree-coordinator.ts:410-422 | while no slot outlives its processes, a waiting request means the cap is full, and grants follow arrival order, over every such run |
| `SlotAdmission.ApplyFair` | extensions/ypi/internal/tree-coordinator.ts:502-600 | one event keeps arrival order and never leaves a slot idle while requests wait |
| `SlotAdmission.NewcomerPassesQueueExactly` | extensions/ypi/internal/tree-coordinator.ts:519-524 | with requests waiting, a newcomer, acquiring or resuming, is granted a slot ahead of them if and only if some active slot has outlived its processes |
| `SlotAdmission.TerminalIsFinal` | extensions/ypi/internal/tree-coordinator.ts:1120-1168 | once terminal, no run grants a token, numbers a call, changes a counter or leaves the terminal status |
| `SlotCustody.NeverDoneExactly` | extensions/ypi/runtime-core.ts:249-285 | the discipline of the clients, written out: these four kinds of request are never made, and every other event is possible at any time |
| `SlotCustody.StepCustody` | extensions/ypi/internal/tree-coordinator.ts:334-369 | every event of disciplined clients keeps custody of the confirmed tokens, double rollback included |
| `SlotCustody.CustodyHolds` | extensions/ypi/internal/tree-coordinator.ts:334-369 | custody holds over every run |
| `SlotCustody.SlotConservation` | extensions/ypi/internal/tree-coordinator.ts:529-563 | a confirmed, unreleased token is active or suspended in every reachable state as long as its child lives or, until the child is granted the slot back, its launcher; across suspend, queued resume, timeout, close and repeated rollback |
| `SlotCustody.CancellationCoversLaunches` | extensions/ypi/internal/tree-coordinator.ts:1120-1168 | a living child past its launch gate with an unreleased token is in the set one termination signals if and only if the tree is not terminal yet and the terminal manifest can be written |
| `Cancellation.CancellationExactly` | extensions/ypi/internal/tree-coordinator.ts:1056-1168 | over a whole run that ends a tree: such a child, as the tree stood when it became terminal, is signalled if and only if what made it terminal was a termination whose manifest could be written; only children living in slots then are signalled, and no child passes its gate afterwards |
| `Cancellation.SignalledExactly` | extensions/ypi/internal/tree-coordinator.ts:1120-1168 | over every run that ends a tree a process is signalled if and only if the ending event is a termination whose manifest was written and the process is the child of an active or suspended slot at that moment, not the root and not dead; a run that ends nothing signals nobody |
| `Cancellation.NothingAfterTheEnd` | extensions/ypi/internal/tree-coordinator.ts:1199-1203 | once the tree is terminal no event signals anybody and no child passes its gate |
| `Cancellation.LaunchedButNotSignalled` | extensions/ypi/internal/tree-coordinator.ts:1056-1080 | from a fresh active tree: a launched child lives on unsignalled when the server failed, or the manifest could not be written, before the tree was terminated |
| `SlotCustody.RegisterCustody` | extensions/ypi/internal/launch-gate.ts:194-214 | a child that passed its gate is bound to a slot of its own token |
| `NestedDelegation.StepDecreases` | extensions/ypi/runtime-core.ts:249-285 | every step of the call tree decreases a measure bounded by the call limit |
| `NestedDelegation.RunsAreBounded` | extensions/ypi/runtime-core.ts:249-285 | no run is longer than ten steps for each call that may be numbered |
| `NestedDelegation.WaitersHoldNoSlot` | extensions/ypi/runtime-core.ts:249-285 | in every reachable state a process that waits for a delegated child holds no active slot of its own |
| `NestedDelegation.ActiveUserMoves` | extensions/ypi/internal/tree-coordinator.ts:529-563 | whoever holds an active, unleaked slot can take a step, for itself or for a call it has begun, that is neither a surrender nor another call |
| `NestedDelegation.LatestMoves` | extensions/ypi/runtime-core.ts:619-642 | with nothing queued the latest unfinished call can move, or one of the same caller whose resume it waits for |
| `NestedDelegation.SomeoneMoves` | extensions/ypi/runtime-core.ts:619-642 | some existing call can move unless leaked tokens fill every slot while requests wait |
| `NestedDelegation.AskSlotKeeps` | extensions/ypi/runtime-core.ts:257-260 | asking for a slot keeps the tree consistent |
| `NestedDelegation.LaunchKeeps` | extensions/ypi/internal/launch-gate.ts:194-214 | registering at the gate keeps the tree consistent, whether the gate is passed or refused |
| `NestedDelegation.GiveUpKeeps` | extensions/ypi/internal/tree-coordinator.ts:360-369 | closing a waiting connection, granted or not, keeps the tree consistent |
| `NestedDelegation.ExitKeeps` | extensions/ypi/runtime-core.ts:619-642 | the end of a child keeps the tree consistent |
| `NestedDelegation.FreeKeeps` | extensions/ypi/runtime-core.ts:619-642 | releasing a finished child's slot keeps the tree consistent |
| `NestedDelegation.YieldKeeps` | extensions/ypi/internal/concurrency.ts:115-130 | the first delegation gives up the caller's slot, later ones join it |
| `NestedDelegation.SuspendReplyLostKeeps` | extensions/ypi/internal/concurrency.ts:122-130 | a suspend request that took effect although its caller saw it fail keeps the tree consistent |
| `NestedDelegation.RestoreKeeps` | extensions/ypi/internal/concurrency.ts:132-166 | the last delegation asks the caller's slot back |
| `NestedDelegation.ConsistentHolds` | extensions/ypi/runtime-core.ts:249-285 | the invariant holds over every run |
| `NestedDelegation.NeverDeadlocks` | extensions/ypi/runtime-core.ts:249-285 | from a fresh tree, for any cap, any call tree and any run: if a call is unfinished, some existing call has a step that is no surrender, whether or not more calls may be numbered, unless tokens leaked by abandoned grants fill every slot while a request waits |
| `NestedDelegation.AllCallsFinish` | extensions/ypi/runtime-core.ts:619-642 | with fewer abandoned grants than slots, a tree none of whose calls can go further has finished every call |
| `AbandonedGrants.ToleratesFewerThanCap` | extensions/ypi/internal/tree-coordinator.ts:380-400 | for every cap: with at most n grants abandoned once their acknowledgement was processed, a tree can get to an unfinished call while no call has a step left but to surrender, if and only if n is at least the cap |
| `AbandonedGrants.SomeDeadlock` | extensions/ypi/internal/tree-coordinator.ts:380-400 | the run of exactly as many abandoned grants as slots that ends there, with no call left to number either |
| `AbandonedGrants.NextRound` | extensions/ypi/runtime-core.ts:253-268 | one more abandoned admission of the same caller occupies one more slot |
| `DelegationAccounting.ResumeCounted` | extensions/ypi/internal/concurrency.ts:132-166 | a suspension is counted down exactly once, failed resumes included, and the underflow error cannot occur |
| `DelegationAccounting.SuspendSentOnFirst` | extensions/ypi/internal/concurrency.ts:122-130 | the suspend request is sent exactly when the counter is zero |
| `DelegationAccounting.ApplyAccounted` | extensions/ypi/internal/concurrency.ts:115-167 | every operation keeps counter and slot in step |
| `DelegationAccounting.RunCounted` | extensions/ypi/internal/concurrency.ts:115-167 | the counter equals the participating suspensions not yet released, over every run |
| `DelegationAccounting.RunAccounted` | extensions/ypi/internal/concurrency.ts:115-167 | without such a loss the slot is given up while delegations run and held again after them, over every run |
| `DelegationAccounting.SlotComesBackExactly` | extensions/ypi/internal/concurrency.ts:115-167 | once every suspension is resumed the inherited slot is active again if and only if no reply to an effective suspend request was lost while no suspension waited to retry its resume; other losses and retries do no harm |
| `DelegationAccounting.LostReplyStrands` | extensions/ypi/internal/concurrency.ts:122-130 | after such a loss no later operation brings the slot back |
| `DelegationAccounting.SuspendExactly` | extensions/ypi/internal/concurrency.ts:115-130 | giving the slot up: asked if and only if no other suspension counts, refused to the caller unless the answer comes, and the slot goes whenever the request arrives |
| `DelegationAccounting.ResumeExactly` | extensions/ypi/internal/concurrency.ts:132-166 | taking it back: asked if and only if no other suspension counts, again at each retry until an answer comes; every other suspension is untouched |
| `DelegationAccounting.Delegations.SuspendInherited` | extensions/ypi/internal/concurrency.ts:115-137 | performs one serialized suspension |
| `DelegationAccounting.Delegations.ResumeSuspension` | extensions/ypi/internal/concurrency.ts:132-166 | performs one serialized resume |
| `CallNumbers.AnswerMovesByOne` | extensions/ypi/internal/tree-coordinator.ts:424-500 | one request numbers the next call within the limit and leaves that number in the counter file, or moves nothing |
| `CallNumbers.FailedProjectionConsumesNothing` | extensions/ypi/internal/tree-coordinator.ts:486-500 | a counter file that cannot be replaced consumes no number |
| `CallNumbers.NumbersAreConsecutive` | extensions/ypi/internal/tree-coordinator.ts:424-500 | over any requests the issued numbers are consecutive, start after the seed of the request that set the limit, and never pass it |
| `CallNumbers.NumbersAreDistinct` | extensions/ypi/internal/tree-coordinator.ts:424-500 | no number is issued twice |
| `CallNumbers.NumberedExactly` | extensions/ypi/internal/tree-coordinator.ts:424-500 | with the limits set, the same limits and file named, and the counter file holding what was last written, a request is numbered, with the next number, if and only if fewer calls than the limit were numbered before; it then moves exactly the count and the file |
| `CallNumbers.FirstRequest` | extensions/ypi/internal/tree-coordinator.ts:435-475 | the first request sets the limit and counts from its seed, adopting a counter file only if it holds the seed |
| `CallNumbers.RefusedLeaves` | extensions/ypi/internal/tree-coordinator.ts:435-500 | a refused request moves no count that was bound, and touches the file only by a write that failed |
| `CallNumbers.RefusedBindsExactly` | extensions/ypi/internal/tree-coordinator.ts:435-500 | what a refused first request binds, and what a failed write leaves in the file |
| `CallNumbers.EveryNumberIsIssued` | extensions/ypi/internal/tree-coordinator.ts:424-500 | undisturbed requests from a fresh ledger are issued exactly seed + 1 and so on, as many as there are requests, up to the limit, and then nothing |
| `LeaseJournal.CommitRoundTrip` | extensions/ypi/internal/implementer-lease-file.ts:54-62 | a written commit line parses to the revision, length and digest it was made from |
| `LeaseJournal.AcceptedIsCommitted` | extensions/ypi/internal/implementer-lease-file.ts:113-199 | a journal read without error is a sequence of payload and commit lines in which every commit names its own revision, length and digest, followed by a tail that holds no committed pair |
| `LeaseJournal.ReadsLastCommitted` | extensions/ypi/internal/implementer-lease-file.ts:113-199 | a journal of lawful revisions with any uncommitted tail reads as its last revision |
| `LeaseJournal.PrefixIsQuiet` | extensions/ypi/internal/private-path.ts:576-586 | whatever an interrupted append leaves of one entry is such a tail |
| `LeaseJournal.CrashReadsOldOrNew` | extensions/ypi/internal/implementer-lease-file.ts:113-199 | after k bytes of an append the old revision is read, until the last byte, and then the new one; never an error or a mixture |
| `LeaseJournal.OrphanIsRefused` | extensions/ypi/internal/implementer-lease-file.ts:183-188 | a complete commit line without its payload is an error |
| `LeaseJournal.WriteKeepsJournal` | extensions/ypi/internal/implementer-lease-file.ts:209-243 | one write, stopped anywhere, keeps everything committed, adds at most the writer's own successor, and adds nothing for a writer that is not up to date |
| `LeaseJournal.StaleWriterAppendsNothing` | extensions/ypi/internal/implementer-lease-file.ts:219-224 | a writer whose revision is not the last one is refused and touches nothing |
| `LeaseJournal.HistoryIsLinear` | extensions/ypi/internal/implementer-lease-file.ts:209-243 | over any run of crashed, retried, stale and uncertain writes the committed revisions are 0 to n, earlier ones stay, all agree on the immutable fields, and reading returns the last |
| `LeaseJournal.RevisionsCount` | extensions/ypi/internal/implementer-lease-file.ts:64-81 | every committed revision agrees with the first on the immutable fields |
| `LeaseJournal.StaysReadableExactly` | extensions/ypi/internal/implementer-lease-file.ts:226-242 | a completed write leaves a readable journal if and only if the new revision is a safe integer |
| `LeaseJournal.InitializesOrStaysIncomplete` | extensions/ypi/internal/implementer-lease-file.ts:245-265 | initialization commits revision 0 or leaves a journal no read accepts |
| `JournalFacts.ParseExactly` | extensions/ypi/internal/implementer-lease-file.ts:54-62 | a line parses as a commit if and only if it is the one text of a revision, a length and a digest, up to a byte-order mark |
| `JournalFacts.CheckPairExactly` | extensions/ypi/internal/implementer-lease-file.ts:113-182 | a payload and its commit line are accepted as a record if and only if length, digest, revision, place, identity and every fixed field are in order, each written out |
| `JournalFacts.JournalAcceptedExactly` | extensions/ypi/internal/implementer-lease-file.ts:113-199 | a journal is accepted if and only if it is such pairs from revision 0 on, an uncommitted tail, and in the directory on record; the last revision is read |
| `JournalFacts.HistoryWrittenOut` | extensions/ypi/internal/implementer-lease-file.ts:64-81 | field by field, what every committed revision keeps of the first |
| `JournalFacts.WritesExactly` | extensions/ypi/internal/implementer-lease-file.ts:209-243 | a write goes ahead if and only if the journal is accepted, the writer is up to date and no fixed field differs; each error has its condition, and nothing else touches the file |
| `JournalFacts.InitializesExactly` | extensions/ypi/internal/implementer-lease-file.ts:245-265 | the first revision is written if and only if the file is empty and is the one the record names; each error has its condition |
| `LeaseJournal.LeaseFile.CompleteLines` | extensions/ypi/internal/implementer-lease-file.ts:83-97 | the loop finds exactly the newline-terminated lines and their offsets |
| `LeaseJournal.LeaseFile.Read` | extensions/ypi/internal/implementer-lease-file.ts:113-199 | the loop over line pairs computes the reading the lemmas are about, with its errors |
| `LeaseJournal.LeaseFile.Write` | extensions/ypi/internal/implementer-lease-file.ts:209-243 | read, compare, trim, append and remember, in this order |
| `ImplementScope.CompareCodePoints` | extensions/ypi/internal/implement-scope.ts:5-13 | the loop computes the code-point order |
| `ImplementScope.CompareTransitive` | extensions/ypi/internal/implement-scope.ts:5-13 | the order is transitive |
| `ImplementScope.CompareZero` | extensions/ypi/internal/implement-scope.ts:5-13 | only equal paths compare as equal |
| `ImplementScope.NormalizeImplementScope` | extensions/ypi/internal/implement-scope.ts:32-51 | the loops over entries and candidates compute the normalized scope, or the first entry's error |
| `ImplementScope.AcceptedIsCanonical` | extensions/ypi/internal/implement-scope.ts:15-30 | an accepted path is "." or ordinary segments, none of them ".git", with at most a trailing slash |
| `ImplementScope.NormalizedLength` | extensions/ypi/internal/implement-scope.ts:15-30 | normalization never lengthens a path, so the bound still holds |
| `ImplementScope.NormalizeIsIdempotent` | extensions/ypi/internal/implement-scope.ts:15-30 | an accepted path normalizes to itself |
| `ScopeMeaning.PathAcceptedExactly` | extensions/ypi/internal/implement-scope.ts:15-30 | a path is accepted if and only if it is bounded, relative, and leads to a place inside the repository and outside any .git; otherwise which of four reasons is given |
| `ScopeMeaning.NormalizationKeepsThePlace` | extensions/ypi/internal/implement-scope.ts:24 | a normalized path leads where the path leads, and is the one way to write that place but for a trailing slash |
| `ScopeMeaning.ScopeAcceptedExactly` | extensions/ypi/internal/implement-scope.ts:32-45 | a scope is accepted if and only if it has 1 to 64 entries, all accepted; otherwise the error is that of its length or of its first bad entry |
| `ScopeMeaning.WithinMeansBelow` | extensions/ypi/internal/implement-scope.ts:53-63 | an entry without a trailing slash covers exactly the accepted paths that lead to its place or below it |
| `ScopeMeaning.OverlapMeansNested` | extensions/ypi/internal/implement-scope.ts:65-75 | entries in good order once folded overlap if and only if the place of one lies below that of the other |
| `ImplementScope.NormalizationKeepsCoverage` | extensions/ypi/internal/implement-scope.ts:32-51 | a path lies within the normalized scope if and only if it lies within some entry |
| `ImplementScope.NormalizedScopeIsAntichain` | extensions/ypi/internal/implement-scope.ts:45-50 | of two entries one lies within the other if and only if the other is "." and comes later |
| `ImplementScope.ScopeNormalizationIsIdempotent` | extensions/ypi/internal/implementer-lease.ts:225-228 | a normalized scope normalizes to itself, so a stored record passes the canonical-scope check |
| `ImplementScope.TrailingSlashCoversOnlyItself` | extensions/ypi/internal/implement-scope.ts:53-63 | an entry that kept a trailing slash covers that one path and nothing below it |
| `ImplementScope.OverlapIsSymmetric` | extensions/ypi/internal/implement-scope.ts:65-75 | overlap does not depend on the order of the two scopes |
| `ImplementScope.NoOverlapMeansDisjoint` | extensions/ypi/internal/implement-scope.ts:65-75 | when folding is segment-wise and leaves every entry a valid path, scopes that do not overlap share no path |
| `ImplementScope.OverlapSeesItselfExactly` | extensions/ypi/internal/implement-scope.ts:65-75 | an entry overlaps itself if and only if it is still a valid path once folded |
| `ImplementScope.OverlapTrustworthyExactly` | extensions/ypi/internal/implement-scope.ts:65-75 | a negative answer means disjoint scopes, for all scopes over some entries, if and only if every one of those entries folds to a valid path |
| `ImplementScope.FoldedGitDirectoryIsMissed` | extensions/ypi/internal/implement-scope.ts:65-75 | ".Git" is accepted as a scope but does not overlap itself |
| `WorkspaceRegistry.StepKeeps` | extensions/ypi/internal/workspace-registry.ts:66-129 | every step of reservation, update, removal, crash and mutex recovery keeps the registry invariant and what the holder has checked |
| `WorkspaceRegistry.RegistryInvariantHolds` | extensions/ypi/internal/workspace-registry.ts:218-262 | over every run live leases share one baseline, are at most three, and do not overlap pairwise |
| `WorkspaceRegistry.SystemInvariantHolds` | extensions/ypi/internal/workspace-registry.ts:66-129 | the same with the mutex taken apart into file operations, rescuers racing each other and later holders |
| `WorkspaceRegistry.MutexStepShows` | extensions/ypi/internal/implementer-mutex.ts:130-149 | every file operation on the mutex is a step of the registry protocol or invisible in it |
| `WorkspaceRegistry.JournalWriteIsUpdate` | extensions/ypi/internal/implementer-lease-file.ts:64-81 | whatever a lease's journal records later keeps the owner, baseline and scope the registry compared |
| `WorkspaceRegistry.JoinedDistinguishes` | extensions/ypi/internal/implementer-lease-file.ts:77 | comparing accepted scopes as joined strings is comparing the scopes |
| `RegistryMutex.MutualExclusionHolds` | extensions/ypi/internal/implementer-mutex.ts:77-149 | two live processes never both hold the mutex, in any interleaving of claims, releases, rescues and deaths, although checks and removals are separate operations by name |
| `RegistryMutex.StepKeeps` | extensions/ypi/internal/implementer-mutex.ts:77-149 | each file operation keeps the invariant behind it |
| `RegistryMutex.RemovesWhatWasChecked` | extensions/ypi/internal/private-path.ts:497-504 | the directory removed by name is always the one whose identity was checked |
| `RegistryMutex.HolderCanReleaseExactly` | extensions/ypi/internal/implementer-mutex.ts:130-149 | over every run, a live holder can read and release its mutex if and only if no unlink of the run hit its owner file, and otherwise its directory is orphaned |
| `RegistryMutex.HitIsOvertaken` | extensions/ypi/internal/implementer-mutex.ts:130-149 | what hits a live holder is the unlink of a rescuer that was overtaken |
| `RegistryMutex.IntactUnlessOvertaken` | extensions/ypi/internal/implementer-mutex.ts:130-149 | without such an unlink every live holder keeps an intact mutex, over every run |
| `RegistryMutex.OvertakenOrphans` | extensions/ypi/internal/private-path.ts:497-502 | such an unlink leaves the later holder's directory without an owner file |
| `RegistryMutex.OrphanStays` | extensions/ypi/internal/implementer-recovery/service.ts:145-155 | which no later step removes or takes over |
| `RegistryMutex.SlowRescuerOrphansHolder` | extensions/ypi/internal/implementer-mutex.ts:130-149 | a run of two rescuers and a later holder in which that happens |
| `RegistryMutex.RetirementRuns` | extensions/ypi/internal/private-path.ts:484-505 | left alone, a holder gives its mutex back, and whoever knows a dead process's mutex retires it, if and only if the path still names that directory with its owner file; otherwise nothing is touched |
| `RegistryMutex.TakingRuns` | extensions/ypi/internal/implementer-mutex.ts:72-103 | a live process takes the mutex if and only if the path is free, and can then release it |
| `WorkspaceRegistry.LiveScopesShareNoPath` | extensions/ypi/internal/workspace-registry.ts:233-236 | from an empty registry, no path lies in the scopes of two live leases |
| `WorkspaceRegistry.HalfMadeReservationBlocks` | extensions/ypi/internal/workspace-registry.ts:181-199 | a reservation left half made by a crash stops every later admission |
| `WorkspaceRegistry.LeaseRegistry.CheckAdmission` | extensions/ypi/internal/workspace-registry.ts:228-239 | the three searches find a lease in the way, in the order unreadable, baseline, overlap, cap |
| `WorkspaceRegistry.AdmittedExactly` | extensions/ypi/internal/workspace-registry.ts:228-239 | a lease is admitted if and only if the live leases with it stay compatible: at most three, one baseline, no overlap; a registry with an unreadable entry admits none |
| `WorkspaceRegistry.RefusedBecause` | extensions/ypi/internal/workspace-registry.ts:228-239 | which of the four refusals is given: the first condition that fails |
| `WorkspaceRegistry.LeaseRegistry.Reserve` | extensions/ypi/internal/workspace-registry.ts:218-262 | an undisturbed reservation adds exactly the new lease or nothing |
| `WorkspaceRegistry.ReserveIsARun` | extensions/ypi/internal/workspace-registry.ts:218-262 | such a reservation is a run of the protocol the invariant is proved for |
| `ApplyOrder.EditsAreDisjoint` | extensions/ypi/internal/workspace-policy.ts:570-575 | no path is changed by two attempts of one batch |
| `ApplyOrder.AppliesExactly` | extensions/ypi/internal/workspace-policy.ts:897-906 | a diff applies if and only if every path it changes still holds what the baseline held there |
| `ApplyOrder.AnyOrderGivesTheUnion` | extensions/ypi/internal/workspace-policy.ts:897-906 | applying the attempts in any order meets no conflict and gives exactly the union of their edits |
| `ApplyOrder.ApplyOrderIsIrrelevant` | README.md:223-225 | any two orders give the same tree |
| `ApplyOrder.UnionIsWellFormed` | README.md:223-225 | the union is again a tree in which no path is a file and a directory |
| `ImplementerLifecycle.AdvanceKeeps` | extensions/ypi/internal/workspace-policy.ts:865-955 | every effect of finalization or recovery keeps the invariant |
| `ImplementerLifecycle.CompareKeeps` | extensions/ypi/internal/workspace-policy.ts:931-940 | the last comparison licenses removal only when the ref holds what is on disk |
| `ImplementerLifecycle.StepKeeps` | extensions/ypi/internal/workspace-policy.ts:760-1005 | so do set-up, writes, failures, crashes and recoveries working with an old record |
| `ImplementerLifecycle.NoWorkIsLost` | extensions/ypi/internal/workspace-policy.ts:865-1004 | once a child was launched the latest content of its checkout is intact on disk or is the tree of the attempt ref, whose only parent is the baseline and which stays within scope |
| `ImplementerLifecycle.RemovedOnlyWhenHeld` | extensions/ypi/internal/implementer-recovery/workspace.ts:323-344 | such a checkout is removed only when the ref holds its content |
| `ImplementerLifecycle.AttemptRefIsForever` | extensions/ypi/internal/workspace-policy.ts:915-928 | no run moves or deletes the attempt ref or changes a commit |
| `ImplementerLifecycle.ReservedMeansUntouched` | extensions/ypi/internal/implementer-recovery/workspace.ts:266-306 | a recovery whose record still says reserved leaves an existing checkout alone |
| `ImplementerLifecycle.FinalizationCompletes` | extensions/ypi/internal/workspace-policy.ts:865-961 | undisturbed finalization of snapshottable work ends with the ref holding it, the checkout and the lease gone, and with records, first verified and then removed, that name the ref |
| `ImplementerLifecycle.NeedIsStable` | extensions/ypi/internal/implementer-recovery/service.ts:51-66 | a lease that needs recovery keeps needing it as time passes and processes end |
| `ImplementerLifecycle.NeedArisesExactly` | extensions/ypi/internal/implementer-recovery/service.ts:51-66 | a lease needs recovery if and only if neither its owner nor its child lives and it is due: old enough, and any launch has had its five seconds to register |
| `ImplementerRecovery.RecordsNameTheAttempt` | extensions/ypi/internal/workspace-policy.ts:915-961 | over every run each record written names the commit of the attempt ref or none; one that says verified names it; one that says removed names it unless no record before it said verified, as finalization and salvage always do first |
| `ImplementerRecovery.RecoveryAcceptsTheRef` | extensions/ypi/internal/implementer-recovery/workspace.ts:151-191 | over every run a recovery with any record ever written accepts the attempt ref it finds |
| `ImplementerRecovery.StepBooks` | extensions/ypi/internal/workspace-policy.ts:760-1005 | every event keeps the records truthful, the lease the latest of them, and every index that was changed on record |
| `ImplementerRecovery.RecoveryCompletesExactly` | extensions/ypi/internal/implementer-recovery/workspace.ts:308-357 | over every run that left a dead owner's lease: an undisturbed recovery with the latest record retires it if and only if what is on disk is what the ref holds or can still be published; the ref then holds it and the records say so, and otherwise nothing changes on disk |
| `ImplementerRecovery.RoutesExactly` | extensions/ypi/internal/implementer-recovery/workspace.ts:151-191 | in any state of the repository, whoever left it so: which way a recovery goes; a ref that is no single commit on the baseline within scope, or not the one on record, stops it with nothing touched |
| `ImplementerRecovery.SnapshotBeginsExactly` | extensions/ypi/internal/implementer-recovery/workspace.ts:193-204 | a snapshot begins if and only if nothing is ignored, the index is the baseline's or already the workspace's, the record is the latest and, for a recovery, the changes are in scope; otherwise nothing is touched |
| `ImplementerRecovery.RemovalBeginsExactly` | extensions/ypi/internal/implementer-recovery/workspace.ts:323-344 | the same for the second look before removal |
| `ImplementerRecovery.SnapshotIsTheCheckout` | extensions/ypi/internal/workspace-policy.ts:880-914 | what is staged and committed is exactly what was in the checkout |
| `ImplementerRecovery.SetUpExactly` | extensions/ypi/internal/workspace-policy.ts:760-865 | a workspace is handed over with the baseline checked out and all of it on record |
| `ImplementerLifecycle.Workspace.Finalize` | extensions/ypi/internal/workspace-policy.ts:865-961 | the owner's effects in their order, stopped after any number of them |
| `ImplementerLifecycle.Workspace.SnapshotToRef` | extensions/ypi/internal/implementer-recovery/workspace.ts:193-244 | index ownership, staging, commit, create-only ref and its check, shared by owner and recovery |
| `ImplementerLifecycle.Workspace.PublishRef` | extensions/ypi/internal/workspace-policy.ts:915-928 | creation, verification and recording of the ref |
| `ImplementerLifecycle.Workspace.RemoveAndRetire` | extensions/ypi/internal/implementer-recovery/workspace.ts:246-264 | second inspection, comparison, removal, recording and retirement |
| `ImplementerLifecycle.Workspace.Recover` | extensions/ypi/internal/implementer-recovery/workspace.ts:308-357 | one recovery run with the record it loaded earlier |
| `ImplementerLifecycle.Workspace.VerifyAttemptRef` | extensions/ypi/internal/implementer-recovery/workspace.ts:151-191 | which of the five ways recovery goes on, by ref, record and checkout |
| `ImplementerLifecycle.Workspace.PersistRecord` | extensions/ypi/internal/workspace-policy.ts:626-635 | a record is written only over the revision it was read from |
| `JsonDecoder.CaptureKeepsPrefix` | extensions/ypi/internal/child-output.ts:57-77 | a capture keeps exactly the first units up to its limit; its flag is up if and only if something was left out or an append found it full |
| `JsonDecoder.FlagWithoutLoss` | extensions/ypi/internal/child-output.ts:57-77 | without loss the flag is up if and only if some append, even an empty one, came when the capture was full |
| `JsonDecoder.EmptyAppendRaisesFlag` | extensions/ypi/internal/child-output.ts:62-67 | an empty append to a full capture raises the flag although nothing is lost |
| `JsonDecoder.StreamIsLines` | extensions/ypi/internal/child-output.ts:168-230 | feeding a stream unit by unit and finishing equals taking its newline-separated lines, over-long ones by their first units only |
| `JsonDecoder.ChunkingDoesNotMatter` | extensions/ypi/internal/child-output.ts:168-230 | for every way of cutting a stream, the result and the callbacks are those of its lines, the tail being the last line |
| `JsonDecoder.LinesAreTheStream` | extensions/ypi/internal/child-output.ts:168-204 | the lines hold no newline and, joined by newlines, are the stream |
| `JsonDecoder.StreamYields` | extensions/ypi/internal/child-output.ts:122-215 | what a stream yields, however it is cut: turns, and each figure the sum over the turns, the largest context, the long turns, the last model named, the callbacks in order, the text that fits, who asked to stop, and both flags exactly |
| `JsonDecoder.JsonStreamDecoder.ProcessLine` | extensions/ypi/internal/child-output.ts:122-166 | one line updates text, callbacks, totals and model; what is not JSON changes nothing |
| `JsonDecoder.JsonStreamDecoder.Append` | extensions/ypi/internal/child-output.ts:169-204 | the chunk loop does what unit-by-unit feeding does, and returns false exactly when a text callback refused |
| `JsonDecoder.JsonStreamDecoder.EndLine` | extensions/ypi/internal/child-output.ts:194-201 | a line that ends in the chunk is classified or processed as a whole |
| `JsonDecoder.JsonStreamDecoder.Finish` | extensions/ypi/internal/child-output.ts:205-208 | the tail is processed unless it was dropped |
| `Utf8.DecodeInParts` | extensions/ypi/internal/transcript-proof-io.ts:279-291 | streaming decoding does not depend on where the bytes are cut |
| `Utf8.NewlineIsNewline` | extensions/ypi/internal/transcript-proof-io.ts:260-289 | only a newline byte decodes to a newline, and never inside another code point |
| `Utf8.DecodesWhatWasEncoded` | extensions/ypi/internal/transcript-proof-io.ts:279-291 | decoding the encoding of a text gives the text, less a leading mark |
| `Utf8.DecodesExactly` | extensions/ypi/internal/transcript-proof-io.ts:279-302 | bytes are accepted to their end if and only if they are the shortest encoding of a text without surrogates |
| `TranscriptReader.ReadAt` | extensions/ypi/internal/transcript-proof-io.ts:247-259 | a read may return any positive number of bytes; bytes behind it stay stale |
| `TranscriptReader.MeasureLines` | extensions/ypi/internal/transcript-proof-io.ts:260-278 | line lengths are counted exactly although the search also looks at stale bytes |
| `TranscriptReader.TakeLines` | extensions/ypi/internal/transcript-proof-io.ts:283-289 | complete lines are taken off the pending text one by one |
| `TranscriptReader.ValidateJsonlRegion` | extensions/ypi/internal/transcript-proof-io.ts:221-307 | for every sequence of short reads the method accepts exactly what the check of the bytes accepts, with the same counts |
| `TranscriptReader.AcceptedExactly` | extensions/ypi/internal/transcript-proof-io.ts:221-307 | accepted if and only if the region is newline-terminated lines within the limit, each valid UTF-8 and a JSON object, with a message when required; the counts are exact; a lone byte-order mark also passes when none is required |
| `TranscriptReader.LineTextExactly` | extensions/ypi/internal/transcript-proof-io.ts:279-291 | a line has a text if and only if its bytes encode it, the first line dropping a mark |
| `TranscriptReader.LineMessagesExactly` | extensions/ypi/internal/transcript-proof-io.ts:198-219 | a line is an event if and only if what stands on it before a carriage return is not empty and is a JSON object |
| `TranscriptReader.LoneMarkIsAccepted` | extensions/ypi/internal/transcript-proof-io.ts:291-306 | three bytes that hold no event are accepted as a fork source |
| `TranscriptReader.SilentTail` | extensions/ypi/internal/transcript-proof-io.ts:291-302 | the only bytes that decode to nothing are none and one leading byte-order mark |
| `TranscriptReader.DigestRegion` | extensions/ypi/internal/transcript-proof-io.ts:168-196 | the digest of a region does not depend on the reads |
| `TranscriptReader.CopyForkBaseline` | extensions/ypi/internal/transcript.ts:185-234 | the copy succeeds if and only if the source has the sealed digest, and then equals it, despite short reads and writes |
| `TranscriptReader.FinalizeTranscript` | extensions/ypi/internal/transcript.ts:360-427 | a receipt is issued exactly for the leased file, a kept baseline and an accepted append |
| `TranscriptReader.VerifyReceipt` | extensions/ypi/internal/transcript.ts:542-613 | a receipt verifies exactly when name, sizes, digests and message count agree and, if demanded, the file is the very one |
| `TranscriptReader.ReceiptVerifies` | extensions/ypi/internal/transcript.ts:378-427 | a receipt verifies on the unchanged file, and on another file of that content if and only if the file need not be the same |
| `TranscriptReader.FinalizedExactly` | extensions/ypi/internal/transcript.ts:360-427 | a receipt is issued if and only if the leased file is still there with its baseline and a well-formed append with a message; this is what it says |
| `TranscriptReader.VerifiesExactly` | extensions/ypi/internal/transcript.ts:542-613 | a receipt verifies if and only if finalization would issue the very same receipt for what is there now |
| `AtomicFile.RunClobbersNothing` | extensions/ypi/internal/atomic-file.ts:289-362 | in every run, whatever others did before: an operation changes or removes no name but the own temporary's while that denotes the held inode, names the target only while it has no name, and writes no other file |
| `AtomicFile.ExistingTargetSurvives` | extensions/ypi/internal/atomic-file.ts:312-316 | an existing target nobody else touches is the same file with the same content after any run, and the run does not succeed |
| `AtomicFile.SuccessMeansExactContent` | extensions/ypi/internal/atomic-file.ts:289-362 | success means the target is the only name of the private file written; it holds the content if and only if the last foreign change of it was made before the last write, agreed with what was written so far, zeros standing for what was cut off, and was not longer than the content |
| `AtomicFile.LandedExactly` | extensions/ypi/internal/atomic-file.ts:166-180 | what positional writes make of a changed file is the content if and only if the change was such a one |
| `AtomicFile.AnyChangeCanHappen` | extensions/ypi/internal/atomic-file.ts:198-362 | from a fresh start every change at every moment can be the last one before a success |
| `AtomicFile.PublicationTrustworthyExactly` | extensions/ypi/internal/atomic-file.ts:289-362 | success can be trusted under permitted interference if and only if no permitted change is a harmful one |
| `AtomicFile.TamperedContentIsPublished` | extensions/ypi/internal/atomic-file.ts:324-338 | from a fresh start, anything else than the content can end up published under the target |
| `AtomicFile.UndisturbedPublishes` | extensions/ypi/internal/atomic-file.ts:198-362 | undisturbed, and however short its writes, publication to an absent target succeeds within ten operations and one for each byte, and leaves nothing but the target behind |
| `AtomicFile.FailureLeavesNothing` | extensions/ypi/internal/atomic-file.ts:262-316 | whatever goes wrong before the link, a taken target included, a publication nobody disturbs leaves exactly the names and the other files it found |
| `AtomicFile.FailuresAreCleanedUp` | extensions/ypi/internal/atomic-file.ts:262-362 | whatever others did: a failure before the link goes to cleaning up, which removes the temporary if and only if it is still the only name of the private file, and one after the link leaves every name |
| `AtomicFile.ChecksPassExactly` | extensions/ypi/internal/atomic-file.ts:182-362 | what each check lets pass, in terms of all the names the held file has |
| `AtomicFile.AdvanceSound` | extensions/ypi/internal/atomic-file.ts:166-180 | the held file is always the last foreign change with the later writes on top |
| `AtomicFile.Descriptor.WriteAll` | extensions/ypi/internal/atomic-file.ts:166-180 | short writes add up to the whole content, or a prefix when no progress is made |
| `OwnedTree.InventoryPrivateTree` | extensions/ypi/internal/private-path.ts:429-444 | the recursive walk finds every entry with its identity, or refuses |
| `OwnedTree.Visit` | extensions/ypi/internal/private-path.ts:431-441 | the walk below one directory |
| `OwnedTree.SealedTreeMatches` | extensions/ypi/internal/private-path.ts:446-482 | a sealed tree matches its inventory as long as nothing changes, whatever link counts directories report |
| `OwnedTree.SealedExactly` | extensions/ypi/internal/private-path.ts:446-467 | a tree is sealed if and only if its root is the owner's, every file has one name and the declared entries, each once, are those found |
| `OwnedTree.MatchesExactly` | extensions/ypi/internal/private-path.ts:469-482 | what was sealed matches later if and only if no entry was added, removed or replaced |
| `OwnedTree.SealedTreeIsRetiredExactly` | extensions/ypi/internal/private-path.ts:484-505 | a sealed tree is retired if and only if nothing changed before the deletions began, and otherwise loses nothing |
| `OwnedTree.RetirementIsAllOrNothing` | extensions/ypi/internal/private-path.ts:469-505 | undisturbed while deleting: a tree that matches at both comparisons is removed with its root, and any other loses nothing; it succeeds exactly in the first case |
| `OwnedTree.MatchingTreeGoesAway` | extensions/ypi/internal/private-path.ts:491-505 | deepest-first deletion finds every directory empty when its turn comes and leaves nothing |
| `OwnedTree.ExactInventoryIsRetired` | extensions/ypi/internal/private-path.ts:484-505 | an exact inventory is retired completely |
| `OwnedTree.OnlySealedEntriesGo` | extensions/ypi/internal/private-path.ts:497-502 | even with interference between deletions only sealed entries with their sealed identity go, and no directory that holds anything |
| `OwnedTree.GoneInOrder` | extensions/ypi/internal/private-path.ts:497-502 | the entries go in their order, none is skipped, and without interference all go unless one is refused |
| `OwnedTree.DeletionOrder` | extensions/ypi/internal/private-path.ts:491-496 | the order enumerates the entries sorted by depth, kind and name |
| `OwnedTree.SortedWrittenOut` | extensions/ypi/internal/private-path.ts:491-496 | what that order says of any two entries: depth, then files first, then names backwards |
| `OwnedTree.PlacedSorted` | extensions/ypi/internal/private-path.ts:491-496 | placing one entry keeps that order, for any strict order of names |
| `OwnedTree.PrivateTree.Retire` | extensions/ypi/internal/private-path.ts:484-505 | retires a matching tree to nothing and leaves any other as it is |
| `TraceValidator.PassIsExact` | scripts/validate-recursion-transcripts.ts:72-145 | the pass over the lines rejects exactly when some call's own lines are out of order, and otherwise records exactly what they say |
| `TraceValidator.AcceptedExactly` | scripts/validate-recursion-transcripts.ts:62-189 | accepted if and only if some call appears and each one that does has one start, then one completion and one terminal that agree and are verified, and no failed cleanup |
| `TraceValidator.ReturnsTheStartedCalls` | scripts/validate-recursion-transcripts.ts:178-188 | the result is the started calls in the order of their starts with their exit codes |
| `TraceValidator.EmittedTracesAreAccepted` | extensions/ypi/runtime-core.ts:436-663 | every interleaving of the lines of any number of verified calls is accepted and returns exactly those calls |
| `TraceValidator.DeletingAnyLineRejects` | scripts/validate-recursion-transcripts.ts:146-187 | leaving out any one start, completion or terminal line makes the validator reject |
| `TraceValidator.DuplicatingAnyLineRejects` | scripts/validate-recursion-transcripts.ts:92-145 | repeating any such line anywhere makes the validator reject |
| `TraceValidator.TerminalFirstIsAccepted` | scripts/validate-recursion-transcripts.ts:120-145 | a terminal line written before the completion is accepted as well |
| `TraceValidator.CheckTrace` | scripts/validate-recursion-transcripts.ts:62-189 | the loops over lines, starts and terminals compute the result the lemmas are about |
| `TraceValidator.TakeLine` | scripts/validate-recursion-transcripts.ts:72-145 | one line is noted, recorded or rejected |

## Left out

- NestedDelegation.NeverDeadlocks: says for one state that it can progress unless leaked tokens fill every slot while a request waits; the exact bound is the one on runs, in AbandonedGrants.ToleratesFewerThanCap.
- NestedDelegation.AllCallsFinish: processes exit but do not crash, the tree stays active, and a release, which has no deadline, is not lost; the number of the call attempt and the trace lines are not part of a call's steps.
- SlotAdmission.FairnessHolds: is stated for runs in which no active slot outlives its processes, because the direct path prunes first; NewcomerPassesQueueExactly says what happens otherwise.
- SlotCustody.SlotConservation: the clients keep the order the program gives them (random tokens, release and launch only of a confirmed token, one registration per token, resume only by the occupant); once a child has been granted its slot back only the child's life counts, even when that grant was rolled back to a slot that names the launcher again.
- ImplementerLifecycle.NoWorkIsLost: nothing else writes to the checkout between a check of it and the effect that relies on the check; at any other time anyone may write.
- AtomicFile.RunClobbersNothing: the interval between the last identity check of the temporary and its unlink is one step, as the source states it cannot be closed.
- ImplementScope.NoOverlapMeansDisjoint: folding is taken as segment-wise; compatibility characters that fold to a slash are outside the model.
- TranscriptReader.ValidateJsonlRegion: says when a region is accepted and with which counts, not which of several errors is reported.
- RegistryMutex.MutualExclusionHolds: directory identities are not reused, and writing the owner file is one step.
- LeaseJournal.WriteKeepsJournal: refuses a payload longer than a safe integer, a length the program cannot meet and does not check (`PayloadTooLong`).
- CoordinatorReplies.EveryRequestIsAnsweredOnce: a connection error is its own event, so a request whose connection reported one may stay unanswered although no close follows in the run.
- LeaseJournal.HistoryIsLinear: the journal keeps one inode, and reading and appending happen under the registry mutex, so the identity and size checks inside one append always pass.
- Sockets, timers, spawning, signals and /proc: events, parameters and a set of dead processes stand for them.
- Git, its hooks, ignore rules and submodules: trees, commits and one create-only ref remain.
- SHA-256, JSON, Unicode folding and the trace's regular expressions are parameters; no digest is assumed to be injective.
- Lone surrogates in scope strings: a string is a sequence of Unicode scalar values there.
- Mode bits, owners and device numbers beyond what the ownership arguments need.
- Client-side authority discovery, manifest parsing and coordinator start-up files in tree-coordinator.ts: only the status transitions remain.
- The launch gate's argument parsing and polling: its registration and what follows from it remain.
- atomicConditionalReplaceFile and the write helpers built on it: they repeat the identity checks of publication on one open file.
- ImplementerRecovery.RecoveryCompletesExactly: is about a recovery that works with the latest record and is not disturbed; several crash points deliberately leave a lease for inspection, and it says which.
- Extension hooks, command line, prompts, status display, model routing, context files, compaction and reporting scripts: they keep no state whose properties span operations.
