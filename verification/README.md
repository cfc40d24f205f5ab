# Verified model of the FRED registry library

This project models, in Dafny, the state machines that `libfred` runs over the tables of a domain
registry, and proves what they keep over every run. Tables are fields of a class that hold maps or
sequences of rows; every operation is a method whose contract states the whole new state; SQL text
appears as the row predicate it states; an interval end that is `NULL` is `None`, which means "for ever".
`dafny verify dfyconfig.toml` checks everything.

Ground rules: a transaction has one time, passed in as `env.now`; operations that throw leave the tables
as they were, because only an explicit commit keeps changes (`src/libfred/opcontext.cc:147-194`); the
lock functions serialise the operations on one object, so that a run is a sequence of steps. Whatever the
library gets from elsewhere (clock, hashes, random identifications, the traits of public request types,
tables it only reads) is a parameter.

## What is proved

* **Public requests** (`PublicRequest*.dfy`). Closing a request can cancel others, recursively, along a
  type graph that may be cyclic; the loops run over ids selected before the nested cancellations. The
  methods `Update` and `CancelOpened` terminate by the measure "opened requests, plus one for a closed
  target that still has to change". Which requests a cascade closes is a function (`Sweep`) of the numbers of
  opened requests of each type alone, so the ids of requests and the order in which queries return rows do
  not matter (`SweptDecides`, `UpdateIsDeterministic`). It closes only requests that a chain of cancellations
  reaches (`ClosedIsReachable`). It need not close all of them: two implementations of one type name that
  cancel different types can let a type escape (`TwoOfOneNameEscape`). Whether all cascades over given types
  close everything that is reached is decided by those numbers alone (`CascadeIsReachability`, an if and only
  if). They do when no type escapes along the type graph (`NoEscapeIsExact`), as where implementations with
  one name cancel the same names (`CoherentTypesDoNotEscape`). That condition is sufficient but not necessary:
  `EscapeIsNotNecessary` is a graph on which a type escapes along paths that no single cascade combines. A
  batch update, too, closes the same requests whichever of them the queries return first
  (`BatchClosesTheSame`). `UpdateHasOutcome` and `CreationHasOutcome` say column by column what is written, to
  the row named and to the cancelled ones; `MayUpdate`, `MayBatch` and `MayCreate` are the exact conditions of
  success, with the error of every failure in the order of the checks; a cascade fails exactly where `Sweep`
  does. Every cancelled request carries the reason its cancellation had (`ReasonsGrow`). Over whole runs:
  requests are never reopened, `resolve_time` is written once, opened means unset `resolve_time`, invalidated
  requests have no letter left to send, and types that cancel each other on creation exclude each other for
  ever.
* **Object states** (`ObjectState*.dfy`). The overlap test of request creation admits a new interval that
  strictly covers an existing one, so requests for one state are not always disjoint, although the
  exception for overlaid intervals (`create_object_state_request_id.hh:97`) suggests it; the code is
  followed here. `OverlapAdmitted` is the counterexample, `OverlapLaw` the exact condition, and
  `LaminarOverRuns` the invariant that does hold in every run: any two intervals are disjoint or the later
  created contains the earlier. When requests always begin at once they are disjoint (`AtMostOneInForce`).
  `CreateLaw` and `RestoreLaw` say exactly when a creation and a restore are not refused, in terms of intervals.
  The reason given for a block is recorded for the block's own request if and only if that begins by now and does
  not end before now (`BlockReasonLaw`); otherwise it is lost, or goes with an older request that ends at this
  instant (`OtherwiseReasonMisses`). `LaterBlockLosesReason` is a block on which it is lost.
  Restoring an administratively blocked object is meant to go back to the beginning of the blocks that
  followed one another without a gap. In every recorded history the blocks of an object follow one another in
  time (`OrderlyOverRuns`), but two may begin together, because a transaction has one time; the query that
  looks for the predecessor of a block then takes either. Every row at which the loops may stop is the
  beginning of the chain if and only if, on the chain, no block that another one continues began together
  with a third (`SeekLaw`); on the same condition serverBlocked is never among the states restored
  (`BlockedIsNotRestored`). `TieIsMissed` is the run on which the restore fails: the object stays blocked, and
  a state it had before is lost. `RestoreUndoesBlock` says that a restore brings back exactly the states in
  force before the block if and only if the loops found the beginning of the chain and none of the states has
  changed since then; for a block that continues no other (`RestoreUndoesFirstBlock`) this means that the
  row found begins with the block and no server state was set or revoked at the very instant of the block.
  Both of the latter ways to fail occur: `RevokedComesBack` and `SetIsLost`. `ObjectStateExample.dfy` goes
  through them, and through a restore that succeeds after two blocks without a gap, step by step;
  `ObjectStateTies.dfy` goes through the run with blocks that begin together.
* **Objects, history and transfer** (`Registry*.dfy`). In every state of every run the newest history row
  is a copy of the live object, history only grows, passwords are used up one way, an object has at most one
  live password from each registrar, and a transfer password works once. `Transfer` succeeds if and only if
  the stated conditions hold. A transfer authorised by a password of the object cancels exactly the passwords
  that were fitted; one authorised only by a contact cancels all passwords of the object
  (`TransferClosesPasswords`).
* **ParamQuery** (`ParamQuery.dfy`, `Decimal.dfy`). Replacing every `$n` of a compiled query by the n-th
  value gives back the elements with their own values if and only if no literal text has a dollar sign
  directly before a digit.
* **Poll messages** (`LowCredit.dfy`, `StateMessages.dfy`). The number of low-credit messages about a
  registrar and zone is at most one more than its invoices dated after the first message, in every run in
  which the job never speaks early, that is, while an invoice for it is dated in the future. `BoundLaw` says
  that the condition is exact, and `FutureInvoiceBreaksTheBound` is the counterexample without it. No row of
  object_state gets two messages, and limited runs add up to an unlimited one.
* **Zone search and escaping** (`Zone.dfy`, `Escape.dfy`). The search returns the longest zone and fails
  exactly when there is none; escaping is undone by reading, for every text.

## Assumptions

* `update_object_states` is a stored function that is not part of this model. `Performed` is all that is
  assumed of it: for manual states of the object it closes open rows of the history without a request in
  force and opens rows for requests in force that have none.
* `create_object` is a stored function that is not part of this model: it either refuses a handle or
  registers it under a new id; its answer is the parameter `accepted`.
* Stored passwords are not empty; whether a password fits a stored one is an arbitrary function.
* `RestoreUndoesBlock` assumes that the history was up to date before the block, is brought up to date in the
  transaction of the block, and afterwards is changed only as `update_object_states` may change it, without a
  gap in the blocking. `OrderlyOverRuns` and `TimelineOverRuns` say what every recorded history satisfies.

## Model

| member | source | states |
|---|---|---|
| PublicRequestDb.Database.StopLetterSending | src/libfred/public_request/update_public_request.cc:89-106 | exactly the pending letters of a request that is still opened are taken out of processing |
| PublicRequestDb.Database.Rewrite | src/libfred/public_request/update_public_request.cc:154-289 | either each column of the row holds its own parameter where that is set and its old value elsewhere, and its pending letters stop when it is invalidated, or the update is refused for the first reason that applies |
| PublicRequestDb.Database.Update | src/libfred/public_request/update_public_request.cc:154-334 | terminates on any type graph; writes the parameters to the named row and cancels a complete cascade from it, which closes exactly what Sweep computes and gives every cancelled request its reason; fails exactly for a refusal visible before the cascade or because Sweep meets a type that throws |
| PublicRequestDb.Database.CancelDue | src/libfred/public_request/update_public_request.cc:291-334 | what the change of status cancels, in the tables with the row already rewritten; fails exactly as the update does |
| PublicRequestDb.Database.CancelOpened | src/libfred/public_request/update_public_request.cc:305-332 | the loops over types and preselected ids leave a complete cascade: nothing opened in the cancelled types, only opened requests of the object invalidated, each one justified by a chain of cancellations and with its reason, and the numbers left opened are those of Sweep; fails exactly when the registrar is unknown and something is to be cancelled, or when Sweep does |
| PublicRequestDb.Database.ExecOne | src/libfred/public_request/update_public_request.cc:110-118 | succeeds if and only if the request exists, the parameters are acceptable and the whole cascade of the change of status succeeds; the outcome is stated column by column; a failure names its reason and leaves all tables unchanged |
| PublicRequestDb.Database.GetOpened | src/libfred/public_request/get_opened_public_request.cc:30-55 | returns some request of the object and type whose resolve time is unset, or says that there is none |
| PublicRequestDb.Database.ExecBatch | src/libfred/public_request/update_public_request.cc:120-152 | succeeds if and only if object and type are known and the first request, if any, can be updated; then no opened request of the object and type remains, every request of the affected list, without duplicates, holds in each column its parameter or its old value, every other closed one was cancelled by a chain; the numbers left opened are those of one cascade |
| PublicRequestDb.Database.CancelOnCreate | src/libfred/public_request/create_public_request.cc:147-181 | a complete cascade over the types cancelled on creation, or the first failure: the type throws, the registrar is unknown and there is something to cancel, or a cancelled type throws |
| PublicRequestDb.Database.Create | src/libfred/public_request/create_public_request.cc:76-145 | succeeds if and only if object, type and registrar are known, the address is well formed and the cancellations succeed; cancels, then inserts one opened row; each failure has its own error, in the order of the checks, and rolls the cancellations back |
| PublicRequestDb.Database.CreateAuth | src/libfred/public_request/create_public_request_auth.cc:66-133 | the second creation path: the same condition but for the address, the same step and errors, and the stored identification and password |
| PublicRequestSteps.ChainExtends | src/libfred/public_request/update_public_request.cc:314-332 | a chain found by a nested update continues the chain of the enclosing one |
| PublicRequestSweep.VisitGoesOn | src/libfred/public_request/update_public_request.cc:327-331 | of several requests of one type, the first that is updated brings what the type cancels, the others find it closed |
| PublicRequestSweep.SweptDecides | src/libfred/public_request/update_public_request.cc:314-332 | whether a request is still opened after a cascade is decided by its type and the numbers of opened requests of each type |
| PublicRequestSweep.FakeClosesItsName | src/libfred/public_request/update_public_request.hh:38-61 | a fake type lets its requests be invalidated and cancels nothing else |
| PublicRequestSweep.FakeThrowsOtherwise | src/libfred/public_request/update_public_request.hh:46-59 | a fake type throws for every other change of status and for creation |
| PublicRequestSteps.NestedUpdate | src/libfred/public_request/update_public_request.cc:327-331 | a nested update, of a row that may have been closed since it was selected, keeps everything the cascade has established |
| PublicRequestSteps.NestedFailure | src/libfred/public_request/update_public_request.cc:305-331 | a nested update fails only for an unknown registrar, or because a type throws on a request that was still opened, which the numbers of opened requests decide |
| PublicRequestSteps.UpdateWrites | src/libfred/public_request/update_public_request.cc:159-258 | each parameter is written to its own column, the status with resolve_time and the action of the type |
| PublicRequestSteps.UpdateHasOutcome | src/libfred/public_request/update_public_request.cc:154-334 | a successful update leaves its parameters in the named row, nothing opened that the change of status cancels, and every other request as it was or, only after a change of status, cancelled with the time, registrar and logged request of the update |
| PublicRequestSteps.UpdateLaw | src/libfred/public_request/update_public_request.cc:154-334 | exactly when an update succeeds: the request exists, the parameters are acceptable, and the cascade over the other opened requests of the object meets no type that throws |
| PublicRequestSteps.BadParamsNames | src/libfred/public_request/update_public_request.cc:187-262 | the exception names exactly the parameters that are wrong |
| PublicRequestSteps.ReasonsGrow | src/libfred/public_request/update_public_request.cc:306-311 | every cancelled request has the reason of the call that cancelled it, or names the type of the cancelled request that cancelled it |
| PublicRequestSteps.RoundFailure | src/libfred/public_request/update_public_request.cc:125-152 | a round of a batch fails only as the first round would have |
| PublicRequestSteps.CreationHasOutcome | src/libfred/public_request/create_public_request.cc:76-181 | a creation leaves its row, no other opened request of a type it cancels, and every other request as it was or cancelled |
| PublicRequestSteps.BatchGrows | src/libfred/public_request/update_public_request.cc:128-143 | one round of the batch closes at least one more request and keeps what the batch has established |
| PublicRequestCascade.CascadeIsReachability | src/libfred/public_request/update_public_request.cc:299-333 | cascades over given types close exactly the requests reachable by chains of cancellations, in every table and on cyclic type graphs too, if and only if Sweep leaves no type that is reached, whatever the numbers of opened requests of each type |
| PublicRequestCascade.NoEscapeIsExact | src/libfred/public_request/update_public_request.cc:299-333 | where no type escapes through a second implementation of a type name, no type that is reached is left |
| PublicRequestCascade.EscapeIsNotNecessary | src/libfred/public_request/public_request_type_iface.hh:52-64 | a type graph on which a type escapes, and yet every cascade closes everything that is reached |
| PublicRequestCascade.ClosedIsReachable | src/libfred/public_request/update_public_request.cc:299-333 | a cascade closes nothing that no chain of cancellations reaches |
| PublicRequestCascade.UpdateIsDeterministic | src/libfred/public_request/update_public_request.cc:299-333 | two executions of one update leave the same status, resolve time and letters everywhere, on any type graph |
| PublicRequestCascade.BatchClosesTheSame | src/libfred/public_request/update_public_request.cc:120-152 | two executions of one batch update leave the same requests opened, whichever the query returns first |
| PublicRequestCascade.CoherentTypesDoNotEscape | src/libfred/public_request/update_public_request.cc:299-333 | no type escapes when implementations with one name cancel the same names |
| PublicRequestCascade.TwoOfOneNameEscape | src/libfred/public_request/public_request_type_iface.hh:52-64 | two implementations of one name in two sets, visited in the order of names: Sweep leaves a type that is reached, so cascades do not always close everything that is reached |
| PublicRequestCascade.NoRootsNoCascade | src/libfred/public_request/update_public_request.cc:291-304 | an update that cancels no types changes only its own row |
| PublicRequestTheorems.RequestLifeCycle | src/libfred/public_request/update_public_request.cc:175-185 | over any run a request keeps object and type, is opened exactly while resolve_time is unset, is never reopened, and its resolve_time is written once |
| PublicRequestTheorems.ExclusionOverRuns | src/libfred/public_request/create_public_request.cc:152-180 | types that cancel each other on creation never have two opened requests for one object, in any run over both creation paths, updates and cascades |
| PublicRequestTheorems.InvalidatedHasNoPendingLetter | src/libfred/public_request/update_public_request.cc:89-106 | every step from opened to invalidated, nested ones too, takes the letters of the request that are ready to send or to be resent out of processing, and leaves its other letters as they are |
| PublicRequestTheorems.OtherLettersStay | src/libfred/public_request/update_public_request.cc:89-106 | letters of requests that were not invalidated stay as they are |
| ObjectStateDb.Database.Create | src/libfred/object_state/create_object_state_request_id.cc:73-275 | one row for each state with the given or current time, or refused for the first reason that applies with nothing inserted |
| ObjectStateDb.Database.WrongStates | src/libfred/object_state/create_object_state_request_id.cc:279-322 | the states that are unknown, not manual, or not of the object's type |
| ObjectStateDb.Database.CancelActive | src/libfred/object_state/cancel_object_state_request_id.cc:85-110 | cuts off now exactly the active requests of the object for the states and returns their ids |
| ObjectStateDb.Database.Cancel | src/libfred/object_state/cancel_object_state_request_id.cc:42-152 | succeeds if and only if every named state exists and had an active request; otherwise names exactly the missing states and cancels nothing |
| ObjectStateDb.Database.Clear | src/libfred/object_state/clear_object_state_request_id.cc:33-64 | cuts off all active manual requests for states whose name begins with server |
| ObjectStateDb.Database.ClearAdmin | src/libfred/object_state/clear_admin_object_state_request_id.cc:48-102 | clears, and notes the reason of the cancellation with the cancelled block, or fails and changes nothing when no block was active |
| ObjectStateDb.Database.WrongBlockStates | src/libfred/object_state/create_admin_object_block_request_id.cc:131-161 | accepts exactly nonempty lists of states an administrative block may set, otherwise names the others |
| ObjectStateDb.Database.Block | src/libfred/object_state/create_admin_object_block_request_id.cc:82-129 | succeeds if and only if the states are allowed, the object is not blocked and the creation is not refused, otherwise names the first reason; the reason given is recorded for the new request for serverBlocked exactly if the block begins by now and does not end before |
| ObjectStateDb.Database.BlockHistory | src/libfred/object_state/create_admin_object_state_restore_request_id.cc:75-85 | all blocks of the object, latest first |
| ObjectStateDb.Database.IsFollowUp | src/libfred/object_state/create_admin_object_state_restore_request_id.cc:78-82 | whether a latest earlier block ended when this one began; of those that began together the query may take any |
| ObjectStateDb.Database.SeekBlockStart | src/libfred/object_state/create_admin_object_state_restore_request_id.cc:86-104 | the two loops run off the end exactly when there is no current block; otherwise they stop at a row at which they may stop given what the two queries may return |
| ObjectStateDb.Database.Restore | src/libfred/object_state/create_admin_object_state_restore_request_id.cc:66-143 | succeeds if and only if the object is blocked, a block request is active and requesting the listed states again is not refused; clears the server states and requests those held just before the row found began, or names the reason and changes nothing |
| ObjectStateTheorems.OverlapTestAdmits | src/libfred/object_state/create_object_state_request_id.cc:187-192 | a nonempty interval passes the test exactly when it is disjoint from the existing one or strictly covers it |
| ObjectStateTheorems.OverlapTestOnEmpty | src/libfred/object_state/create_object_state_request_id.cc:187-192 | when an empty interval passes the test |
| ObjectStateTheorems.OverlapAdmitted | src/libfred/object_state/create_object_state_request_id.cc:187-192 | a run of two accepted requests for one state that are both in force at one instant |
| ObjectStateTheorems.OverlapLaw | src/libfred/object_state/create_object_state_request_id.cc:181-220 | an admitted interval overlaps no existing one if and only if none begins after and ends before it |
| ObjectStateTheorems.CreationRows | src/libfred/object_state/create_object_state_request_id.cc:222-272 | every inserted row is well formed and was tested against all older rows of its state |
| ObjectStateTheorems.LaminarOverRuns | src/libfred/object_state/create_object_state_request_id.cc:158-208 | in every run intervals are well formed and any two for one state are disjoint or nested in order of creation; the out-of-turn case of the test never arises |
| ObjectStateTheorems.TwoInForceAreNested | src/libfred/object_state/create_object_state_request_id.cc:158-195 | of two requests in force for one state the later created covers every instant of the earlier |
| ObjectStateTheorems.AtMostOneInForce | src/libfred/object_state/create_object_state_request_id.cc:172-180 | when no creation sets its beginning, no two requests for one state are ever in force together |
| ObjectStateLaws.CancellationLaw | src/libfred/object_state/cancel_object_state_request_id.cc:85-110 | cancelling cuts off now exactly the requests of the object for the states that are in force |
| ObjectStateLaws.ServerStatesAre | src/libfred/object_state/clear_object_state_request_id.cc:33-64 | the states cleared are the manual ones whose names begin with server |
| ObjectStateLaws.CreateLaw | src/libfred/object_state/create_object_state_request_id.cc:73-275 | a creation is not refused exactly when the interval is in turn, object and states fit each other and every existing interval for one of the states is apart from the new one or strictly inside it |
| ObjectStateLaws.BlockReasonLaw | src/libfred/object_state/create_admin_object_block_request_id.cc:96-127 | the reason goes with the request the block made, if and only if that begins by now and does not end before now |
| ObjectStateLaws.OtherwiseReasonMisses | src/libfred/object_state/create_admin_object_block_request_id.cc:96-127 | otherwise the reason is not recorded, or goes with an older block request that ends at this instant |
| ObjectStateLaws.RestoreLaw | src/libfred/object_state/create_admin_object_state_restore_request_id.cc:66-143 | a restore is not refused exactly when serverBlocked is requested now and no listed state is wrong for the object or requested for ever from a later instant on |
| ObjectStateRestore.BlockSetsExactly | src/libfred/object_state/create_admin_object_block_request_id.cc:86-94 | after a block the server states in force are exactly those asked for and serverBlocked, other states and objects are as before |
| ObjectStateRestore.RestoreSetsExactly | src/libfred/object_state/create_admin_object_state_restore_request_id.cc:127-142 | after a restore the server states in force are exactly those on the list |
| ObjectStateChain.BlockedIsNotRestored | src/libfred/object_state/create_admin_object_state_restore_request_id.cc:112-126 | serverBlocked is never on the list of states to restore, for every outcome of the queries, if and only if no tie on the chain is continued |
| ObjectStateChain.BlockedOnTheList | src/libfred/object_state/create_admin_object_state_restore_request_id.cc:112-126 | serverBlocked is on the list of states to restore exactly if the row found follows up another block |
| ObjectStateRestore.PerformedKeepsTimeline | src/libfred/object_state/perform_object_state_request.cc:45-51 | recording states keeps the blocks of an object one after another with distinct beginnings, exactly if no block is recorded at the instant at which another one began |
| ObjectStateRestore.TimelineOverRuns | src/libfred/object_state/perform_object_state_request.cc:45-51 | in every history no two blocks of an object begin together exactly while none is recorded twice in one instant |
| ObjectStateRestore.OrderlyOverRuns | src/libfred/object_state/perform_object_state_request.cc:45-51 | in every history the blocks of an object follow one another in time, though two may begin together |
| ObjectStateRestore.PerformedMirrors | src/libfred/object_state/perform_object_state_request.hh:33-38 | a history brought up to date shows exactly the server states for which a request is in force |
| ObjectStateChain.StartIsBehind | src/libfred/object_state/create_admin_object_state_restore_request_id.cc:86-104 | every block of a chain that reaches up to now lies on the way back to the one instant where the chain starts |
| ObjectStateChain.SeekLaw | src/libfred/object_state/create_admin_object_state_restore_request_id.cc:75-104 | every row at which the two loops may stop is where the back-to-back chain of blocks starts, if and only if no block on the chain that another one continues began together with a third |
| ObjectStateRestore.RestoreGoesBack | src/libfred/object_state/create_admin_object_state_restore_request_id.cc:112-120 | a restore puts in force exactly the server states held until the first of the adjoining blocks began, whatever was recorded later |
| ObjectStateRestore.RestoreUndoesBlock | src/libfred/object_state/create_admin_object_state_restore_request_id.cc:66-143 | the server states in force after a restore are exactly those in force before the block, if and only if the loops stopped where the blocking began and none changed since then; the block may have been continued without a gap, and blocks may begin together |
| ObjectStateRestore.RestoreFindsBlock | src/libfred/object_state/create_admin_object_state_restore_request_id.cc:66-143 | when the loops stop where the chain starts, a restore goes back to when the block itself began if and only if the block does not continue an earlier one |
| ObjectStateRestore.RestoreUndoesFirstBlock | src/libfred/object_state/create_admin_object_state_restore_request_id.cc:66-143 | for a block that continues no other, the restore undoes it if and only if the row found begins with the block and no server state was set or revoked at the instant of the block |
| ObjectStateExample.BlockAndRestore | src/libfred/object_state/create_admin_object_state_restore_request_id.cc:66-143 | a block continued by another and a restore, which meet all premises of RestoreUndoesBlock together: all server states are as before the first block |
| ObjectStateExample.RevokedComesBack | src/libfred/object_state/create_admin_object_state_restore_request_id.cc:112-120 | serverHold cancelled and recorded at the instant of the block is in force after the restore though it was not before |
| ObjectStateExample.SetIsLost | src/libfred/object_state/create_admin_object_state_restore_request_id.cc:112-120 | serverHold set and recorded at the instant of the block is not in force after the restore though it was before |
| ObjectStateExample.LaterBlockLosesReason | src/libfred/object_state/create_admin_object_block_request_id.cc:96-127 | a block that begins later, whose reason is not recorded |
| ObjectStateTies.TheSteps | src/libfred/object_state/create_admin_object_state_restore_request_id.cc:66-143 | the blocks and restores that lead to blocks beginning together are all steps of the operations |
| ObjectStateTies.TheRecords | src/libfred/object_state/perform_object_state_request.cc:45-51 | the history of that run is brought up to date after each step |
| ObjectStateTies.TieIsMissed | src/libfred/object_state/create_admin_object_state_restore_request_id.cc:78-82 | the query for the predecessor of a block may take another one that began with it: the restore then leaves the object blocked, and serverHold is lost |
| RegistryDb.Database.DeactivatePassword | src/libfred/object/store_authinfo.cc:94-119 | blanks the live passwords of the object and registrar; finds at most one under the invariant, so the branch for too many is unreachable |
| RegistryDb.Database.StoreAuthinfo | src/libfred/object/store_authinfo.cc:169-212 | succeeds if and only if the time to live is positive and object and registrar exist; replaces the live password |
| RegistryDb.Database.CheckAuthinfo | src/libfred/object/check_authinfo.cc:64-197 | counts and marks exactly the valid passwords that fit, and returns their number; fails for an unregistered object or an uncheckable password and then changes nothing |
| RegistryDb.Database.CleanAuthinfo | src/libfred/object/clean_authinfo.cc:31-43 | cancels exactly the valid passwords of the object |
| RegistryDb.Database.CleanExpiredAuthinfos | src/libfred/object/clean_expired_authinfos.cc:31-41 | cancels exactly the live passwords that have expired |
| RegistryDb.Database.InsertHistory | src/libfred/object/object.cc:286-316 | a new history row with a copy of the live object, if there is one |
| RegistryDb.Database.Create | src/libfred/object/object.cc:64-120 | a new object whose first history row is both its head and its creation, or the first refusal that applies |
| RegistryDb.Database.Update | src/libfred/object/object.cc:202-262 | succeeds if and only if registrar and type are known, the handle names one object and a password to store may live; rewrites the object, copies it to history and may store a password; an unknown handle with a password is reported by the password check |
| RegistryDb.Database.DeleteById | src/libfred/object/object.cc:327-410 | erases the object if and only if it is registered; history stays |
| RegistryDb.Database.AuthorizedContacts | src/libfred/object/transfer_object.cc:92-123 | exactly the contacts of the set with a valid password that fits; each use is counted |
| RegistryDb.Database.OpenWithPassword | src/libfred/object/transfer_object.cc:152-167 | opens the object if and only if everything can be checked and the password fits the object or an enabled contact; counts and cancels passwords only on success |
| RegistryDb.Database.Transfer | src/libfred/object/transfer_object.cc:127-175 | succeeds if and only if the registrar is known and new, the object exists, everything can be checked and the password opens the object or an enabled contact; every refusal names its reason and leaves all tables unchanged |
| RegistrySteps.RewriteKeepsValid | src/libfred/object/object.cc:241-253 | rewriting a row together with a new head of history keeps the invariant |
| RegistrySteps.ContactVisit | src/libfred/object/transfer_object.cc:102-121 | checking one more contact adds one use to each of its fitting passwords |
| RegistryLaws.AuthorizedLaw | src/libfred/object/transfer_object.cc:152-160 | a transfer is authorised exactly by a valid password of the object or of an enabled contact |
| RegistryLaws.CheckableLaw | src/libfred/object/transfer_object.cc:152-160 | checking the object first leaves the contacts as checkable as they were |
| RegistryLaws.TransferClosesPasswords | src/libfred/object/transfer_object.cc:152-167 | a password of the object that authorises a transfer cancels exactly the fitted ones and leaves the others valid; when only a contact authorises it, no password of the object stays valid |
| RegistryLaws.TransferCountsContacts | src/libfred/object/transfer_object.cc:92-123 | every other password stays as it is but for one use for each enabled contact it belongs to, if it fits |
| RegistryLaws.UpdateColumns | src/libfred/object/object.cc:202-253 | an update sets update and upid, copies the row to a new head of history, and nothing else |
| RegistryLaws.TransferColumns | src/libfred/object/transfer_object.cc:169-174 | a transfer sets trdate and clid, copies the row to a new head of history, and nothing else |
| RegistryTheorems.HistoryAgreesOverRuns | src/libfred/object/object.cc:243-249 | in every state of every run the head of history is a copy of the live row |
| RegistryTheorems.HistoryIsAppendOnly | src/libfred/object/object.cc:302-307 | history rows never change or vanish |
| RegistryTheorems.OneLivePasswordOverRuns | src/libfred/object/store_authinfo.cc:94-165 | at most one live password for each object and registrar, in every run |
| RegistryTheorems.PasswordsExpireForGood | src/libfred/object/check_authinfo.cc:143-197 | a password that stopped being live never becomes live again |
| RegistryTheorems.TransferUsesUp | src/libfred/object/transfer_object.cc:157-167 | after a transfer no valid password of the object is fitted by the one given |
| RegistryTheorems.TransferPasswordIsSingleUse | src/libfred/object/transfer_object.cc:152-174 | until a new password is stored for the object, a second transfer with the same one is not authorised by the object |
| Decimal.DigitsReadBack | src/util/db/query_param.hh:231-234 | a parameter number is read back from its decimal digits |
| ParamQueryComposition.ParamQuery.AddQuery | src/util/db/param_query_composition.cc:133-138 | adding a query concatenates the meanings |
| ParamQueryComposition.ParamQuery.GetQuery | src/util/db/param_query_composition.cc:199-255 | text and values mean the elements if and only if no literal text looks like a placeholder |
| ParamQueryComposition.SubstituteRendered | src/util/db/param_query_composition.cc:215-244 | reading a generated text from left to right finds exactly its placeholders |
| ParamQueryComposition.SymbolsMeanElements | src/util/db/param_query_composition.cc:204-252 | every placeholder has the value of its element, also after more elements were added |
| ParamQueryComposition.CompilationPreservesMeaning | src/util/db/param_query_composition.cc:199-255 | substitution of values gives back the expanded elements if and only if no literal text has a dollar sign before a digit |
| ParamQueryComposition.PlaceholderInTextIsRead | src/util/db/param_query_composition.cc:209-213 | a concrete query whose literal text is read as a placeholder |
| ParamQueryComposition.OneValueEach | src/util/db/param_query_composition.cc:215-237 | one value for each plain parameter and one for each distinct reusable parameter |
| ParamQueryComposition.EveryValueIsUsed | src/util/db/param_query_composition.cc:217-242 | every value is referred to by the text |
| LowCredit.Poll.CreateMessages | src/libfred/poll/create_low_credit_messages.cc:26-67 | one message for exactly the registrars and zones that are low and due |
| LowCredit.RunLaw | src/libfred/poll/create_low_credit_messages.cc:28-66 | a registrar gets one message for a zone exactly if its credit is below the limit and there is no message yet or an account invoice dated after all of them; the message holds the limit and the credit |
| LowCredit.RepeatIsSilent | src/libfred/poll/create_low_credit_messages.cc:52-54 | a repeated run speaks about a key exactly when the first one spoke although an invoice is dated after it |
| LowCredit.MessagesAreBounded | src/libfred/poll/create_low_credit_messages.cc:28-64 | over any run in which the job never speaks early, at most one message more than invoices dated after the first message |
| LowCredit.BoundLaw | src/libfred/poll/create_low_credit_messages.cc:52-54 | from a state in which every message was matched so far, the bound survives any repetition of the job if and only if its next run does not speak while an invoice is dated after it |
| LowCredit.FutureInvoiceBreaksTheBound | src/libfred/poll/create_low_credit_messages.cc:54 | with an invoice dated in the future the bound fails |
| StateMessages.Poll.CreateMessages | src/libfred/poll/create_state_messages.cc:35-117 | messages for the first pending rows up to the limit |
| StateMessages.FilterIsJoin | src/libfred/poll/create_state_messages.cc:60-97 | the join with the filter table gives every row at most one message type |
| StateMessages.SelectedIsExact | src/libfred/poll/create_state_messages.cc:92-100 | the query selects exactly the open, wanted rows without a message, each once |
| StateMessages.RunServes | src/libfred/poll/create_state_messages.cc:84-116 | every message added is for an open row without one, to the registrar of the row, of a type that the filter table gives and that is not excepted |
| StateMessages.AtMostOnceOverRuns | src/libfred/poll/create_state_messages.cc:98-112 | no row of object_state gets two messages over any runs |
| StateMessages.BatchesAddUp | src/libfred/poll/create_state_messages.cc:58-100 | enough limited runs give messages to the same rows as one unlimited run |
| Zone.FindFrom | src/libfred/zone/zone.cc:82 | the first occurrence at or after an offset, with none before it, or none when there is none |
| Zone.FindZoneInFqdn | src/libfred/zone/zone.cc:59-103 | returns the row of the longest zone that follows a nonempty text and a dot; fails exactly when there is none |
| Zone.SuffixTest | src/libfred/zone/zone.cc:78-82 | the search from a computed offset is a test of the last characters |
| Zone.MatchedIsLower | src/libfred/zone/zone.cc:37-56 | a zone that matches is in lower case, so that its row is found |
| Escape.EscapeText | src/util/util.cc:46-55 | the in-place loop ends and puts the escape before exactly the listed characters |
| Escape.EscapedConcat | src/util/util.cc:46-55 | escaping works piece by piece |
| Escape.UnescapeEscape | src/util/util.cc:57-60 | reading undoes escaping with the default sets, and no quote in the result ends the text |
| Escape.Escape2IsInjective | src/util/util.cc:57-60 | different texts are escaped differently |

## Left out

- Database connections, rows, values, logging, printing and exception macros: only the row predicates matter here.
- Lock functions: the model takes their effect, one operation at a time on an object, as given.
- PublicRequestDb.Database.CancelOnCreate: does not return the number of cancelled requests, which no caller uses.
- PublicRequestDb.Database.ExecBatch: demands a status, without which the original loops for ever as soon as an opened request exists.
- An update that sets both a status and an explicit on_status_action names a column twice, which the database refuses; modelled as that error.
- The moddate of letters, the trdate and update columns' time zones, and names of objects returned for messages.
- Names of object states stand for their ids: enum_object_states relates the two one to one.
- ObjectStateDb.Database.WrongBlockStates: reads the allowed states each time; the original keeps the first answer in a static variable.
- ObjectStateDb.Database.Restore: takes a reason, without which the original throws.
- Order of the rows inserted by one creation: the original inserts them by name, the model in any order.
- StateMessages.Filter: takes the tables of state, object type and message type names as complete.
- Password hashing, random generators, e-mail format checks, IDN, Decimal, Base64, UUID parsing.
- Registrar and zone administration, contact, domain, nsset and keyset data: long lists of fields with one simple fact each.
- Poll fee messages, notification e-mails, HeadSeparator and make_svtrid.
- rem_trailing_dot: a function of one line.
- Sets of types to cancel hold one implementation for each name, ordered by name; the model allows any list, which covers them.
- The map of get_query keeps a place as a number, the original as its digits.
