# rcl_action action server: goal registry model

This project is a Dafny model of the goal-tracking core of the ROS 2 action
server, `rcl_action/src/rcl_action/action_server.c`. The server owns five
communication channels: the goal, cancel and result services, and the
feedback and status publishers. It also keeps a registry of goal handles: a
heap array of handle pointers plus a count, grown by one slot for each accepted
goal. The model covers:

- the server's lifecycle (zero-initialised, init, fini, is_valid), with the
  rollback through fini when any channel fails to come up;
- accepting a goal: rejecting a duplicate identity, growing the array,
  stamping the goal with the clock and appending a new ACCEPTED handle;
- looking a goal up (`goal_exists`) and handing out the registry
  (`get_goal_handles`);
- processing a cancel request in its three modes:
  - single goal: identity set, stamp zero;
  - cancel all: identity and stamp zero;
  - up to a stamp: the stamp is non-zero;
- the expiry sweep that finalizes terminal goals older than the result
  timeout and compacts the array;
- the status snapshot (`get_goal_status_array`);
- the conversions between a goal stamp `{sec, nanosec}` and int64 nanoseconds;
- the translation of the return codes of delegated rcl calls.

Files:

- `stamps.dfy`: module `Stamps`. The int32, uint32 and int64 value ranges, the
  `Time` stamp, and the two stamp helpers, with C's truncating division and
  remainder and its narrowing conversions written out.
- `return_codes.dfy`: module `ReturnCodes`. `rcl_ret_t` and the code
  translations (TAKE_SERVICE_REQUEST, SEND_SERVICE_RESPONSE, allocation
  failures).
- `goals.dfy`: module `Goals`.
  - Identities, goal infos and goal handles as values.
  - The handle queries the server uses: valid, active, cancelable, get_info
    and the CANCEL event.
  - Registry predicates and compaction by moving the last entry into a gap.
- `cancel_policy.dfy`: module `CancelPolicy`. Which goals a cancel request
  selects, as a function of a registry snapshot, and the lemmas about the
  three modes.
- `expiry.dfy`: module `Expiry`.
  - What the sweep removes, and the intended sweep as a recursive function.
  - The sweep loop as written, for the findings below.
- `lifecycle.dfy`: module `Lifecycle`. The five channels, the codes their
  construction reports, and what init has set up when it fails.
- `action_server.dfy`: module `Server`.
  - The `ActionServer` class, whose fields `goalHandles: array<GoalHandle>`
    and `numGoalHandles` are updated in place.
  - Its methods, and the array-level loops they run, each proved against the
    specification functions above.
- `optional.dfy`: module `Optional`, an `Option` datatype.

The clock, the allocator and the channel constructors are outside the model.
Their answers are parameters:

- `now: Option<Int64>`: the clock reading, `None` when `rcl_clock_get_now`
  fails;
- `allocOk`, `bufferAllocOk`: whether an allocation succeeds;
- `arrayInit`, `responseInit`: the code of a message-array initialisation;
- `InitEnv`: the codes of each channel's name lookup and construction, and
  whether allocating the implementation and copying the name succeed;
- `finiOk`: whether each channel's finalisation succeeds.

## Model

| member | source | states |
|---|---|---|
| Stamps.NsToS | rcl_action/src/rcl_action/action_server.c:314-321 | RCUTILS_NS_TO_S truncates toward zero: the floor quotient for non-negative input, the ceiling for negative input |
| Stamps.NsRem | rcl_action/src/rcl_action/action_server.c:314-321 | `ns % 10^9` as C computes it: quotient times 10^9 plus remainder is ns, and the remainder has the sign of ns with magnitude below 10^9 |
| Stamps.WrapToInt32 | rcl_action/src/rcl_action/action_server.c:319 | the `(int32_t)` cast keeps in-range values and is congruent to its input modulo 2^32 |
| Stamps.WrapToUint32 | rcl_action/src/rcl_action/action_server.c:320 | storing into the uint32 nanosec field keeps in-range values and reduces modulo 2^32 |
| Stamps.ToNanosec | rcl_action/src/rcl_action/action_server.c:306-312 | a normalized stamp becomes a non-negative int64 below 2^31·10^9, which therefore cannot overflow; it is zero exactly for the zero stamp |
| Stamps.FromNanosec | rcl_action/src/rcl_action/action_server.c:314-321 | every nanosecond count a stamp can represent becomes a normalized stamp |
| Stamps.StampRoundTrip | rcl_action/src/rcl_action/action_server.c:306-321 | nanoseconds to stamp and back is the identity on [0, 2^31·10^9), and the nanosec part stays below one second |
| Stamps.StampRoundTripFromTime | rcl_action/src/rcl_action/action_server.c:306-321 | stamp to nanoseconds and back is the identity on normalized stamps |
| Stamps.ToNanosecMonotone | rcl_action/src/rcl_action/action_server.c:306-312 | comparing stamps as nanoseconds, as the cancel and expiry code does, is lexicographic order on (sec, nanosec) |
| ReturnCodes.TakeRequestResult | rcl_action/src/rcl_action/action_server.c:257-273 | on a valid server, each take_*_request succeeds exactly when rcl_take_request does. SERVICE_TAKE_FAILED becomes ACTION_SERVER_TAKE_FAILED, BAD_ALLOC passes through, and every other failure becomes ERROR |
| ReturnCodes.ForwardResult | rcl_action/src/rcl_action/action_server.c:276-288 | on a valid server, each send_*_response succeeds exactly when rcl_send_response does; any failure is ERROR |
| ReturnCodes.AllocFailureResult | rcl_action/src/rcl_action/action_server.c:421-428 | a failed allocation-backed call keeps BAD_ALLOC and turns everything else into ERROR; the result is never OK |
| ReturnCodes.ResponseInitResultAsWritten | rcl_action/src/rcl_action/action_server.c:656-663 | the cancel-response initialisation failure branch as written always returns ERROR |
| ReturnCodes.ResponseInitLosesBadAlloc | rcl_action/src/rcl_action/action_server.c:656-663 | that branch differs from the translation used elsewhere exactly on BAD_ALLOC |
| Lifecycle.InitOrderCoversAll | rcl_action/src/rcl_action/action_server.c:164-172 | init creates each of the five channels exactly once |
| Lifecycle.CreateResult | rcl_action/src/rcl_action/action_server.c:60-127 | a failed service or publisher init gives BAD_ALLOC exactly for BAD_ALLOC, ACTION_NAME_INVALID exactly for an invalid service name (services) or topic name (publishers), and ERROR otherwise |
| Lifecycle.ProgressAtChannelFailure | rcl_action/src/rcl_action/action_server.c:153-200 | when setting up the k-th channel fails, exactly the channels before it, and that one only if its name lookup succeeded, have been zero-initialised; the options have not been copied |
| Lifecycle.RollbackReadsUninitialised | rcl_action/src/rcl_action/action_server.c:192-200 | the fail path as written runs fini, which reads the options (and their allocator) that init never copied, and on a failure before the last channel finalizes a channel struct init never zero-initialised |
| Server.ChannelResult | rcl_action/src/rcl_action/action_server.c:60-127 | one channel's set-up code: the translated lookup failure, else the translated construction failure, else OK exactly when both succeed |
| Server.SetupResult | rcl_action/src/rcl_action/action_server.c:164-172 | setting up the channels from step k is OK exactly when each of them succeeds, and otherwise is the code of the first one that fails, every earlier one having succeeded |
| Server.SetupSucceedsIffAllChannels | rcl_action/src/rcl_action/action_server.c:164-172 | setting up all channels succeeds exactly when every channel's name lookup and construction succeed |
| Goals.NewGoalHandle | rcl_action/src/rcl_action/action_server.c:372-379 | a new goal handle is valid, carries the given info and is cancelable (ACCEPTED) |
| Goals.GetInfo | rcl_action/src/rcl_action/action_server.c:737-742 | reading a handle's info succeeds exactly for a valid handle and yields its info |
| Goals.CancelEvent | rcl_action/src/rcl_action/action_server.c:667-677 | the CANCEL event succeeds exactly on a cancelable handle. It keeps the info and leaves the handle active, CANCELING and no longer cancelable |
| Goals.ScanFindsTracked | rcl_action/src/rcl_action/action_server.c:725-749 | when every handle is readable, the lookup's answer is exactly "some handle carries this identity" |
| Goals.AppendKeepsUnique | rcl_action/src/rcl_action/action_server.c:333-383 | appending a goal whose identity is not tracked keeps the identities unique |
| Goals.UniqueOccursOnce | rcl_action/src/rcl_action/action_server.c:334-337 | in a registry with unique identities no handle occurs twice |
| Goals.SubMultisetKeepsUnique | rcl_action/src/rcl_action/action_server.c:334-337 | any rearrangement of part of a registry with unique identities still has unique identities |
| Goals.RemoveCompacted | rcl_action/src/rcl_action/action_server.c:532-535 | filling a gap from the end shrinks the registry by one. It removes exactly the entry at the gap (as a multiset) and leaves the entries before it in place |
| CancelPolicy.ModeOf | rcl_action/src/rcl_action/action_server.c:597-625 | a request selects a single goal exactly when its identity is non-zero and its stamp zero, all goals exactly when both are zero, and goals up to its stamp exactly when the stamp is non-zero |
| CancelPolicy.PickedAmongMembers | rcl_action/src/rcl_action/action_server.c:620-646 | an index is selected by the multi-goal scan exactly when it is in range and its goal is cancelable and at or before the threshold or carries the request identity |
| CancelPolicy.PickedAmongOrdered | rcl_action/src/rcl_action/action_server.c:620-646 | the multi-goal scan lists indices in range, in strictly increasing array order, so no goal is listed twice |
| CancelPolicy.PickedAmongSpec | rcl_action/src/rcl_action/action_server.c:620-652 | the multi-goal selection is empty exactly when no goal passes the test, together with the two facts above |
| CancelPolicy.FirstMatch | rcl_action/src/rcl_action/action_server.c:601-619 | the single-goal scan stops at the first readable goal with the identity; no earlier goal has it, and None means no goal has it |
| CancelPolicy.CancelSelection | rcl_action/src/rcl_action/action_server.c:590-646 | every selection lists distinct in-range indices in increasing order, and every selected goal is cancelable |
| CancelPolicy.SingleGoalSelection | rcl_action/src/rcl_action/action_server.c:601-619 | identity set and stamp zero select at most one goal: exactly the first readable goal with that identity, and only if it is cancelable |
| CancelPolicy.SingleGoalSelectionUnique | rcl_action/src/rcl_action/action_server.c:601-619 | with unique readable identities, a single-goal request selects nothing exactly when no goal with that identity is cancelable |
| CancelPolicy.AllGoalsSelection | rcl_action/src/rcl_action/action_server.c:620-646 | identity and stamp zero select exactly the cancelable goals, whatever their stamps (threshold INT64_MAX) |
| CancelPolicy.UpToStampSelection | rcl_action/src/rcl_action/action_server.c:620-646 | a non-zero stamp selects exactly the cancelable goals accepted at or before it, plus any cancelable goal carrying the request identity |
| CancelPolicy.MarkOneMore | rcl_action/src/rcl_action/action_server.c:666-677 | applying the CANCEL event to one more selected goal changes exactly that goal's slot |
| CancelPolicy.MarkCancelingKeepsUnique | rcl_action/src/rcl_action/action_server.c:665-677 | the CANCEL event changes states only, so a registry with unique identities keeps them |
| CancelPolicy.ExpiredNeverCanceled | rcl_action/src/rcl_action/action_server.c:515-527 | no cancel request, in any mode, selects a goal the sweep would remove |
| CancelPolicy.CancelTwiceSelectsNothing | rcl_action/src/rcl_action/action_server.c:568-681 | processing the same request again, after its selection was moved to CANCELING, selects no goal |
| Expiry.UnexpiredCount | rcl_action/src/rcl_action/action_server.c:513-537 | the goals an ideal sweep keeps are, counted with multiplicity, exactly the unexpired goals |
| Expiry.UnexpiredSize | rcl_action/src/rcl_action/action_server.c:513-537 | kept plus removed goals account for the whole registry |
| Expiry.UnexpiredMembers | rcl_action/src/rcl_action/action_server.c:513-537 | a goal survives the sweep exactly when it was tracked and is not expired; active goals always survive |
| Expiry.ExpiredIsTerminal | rcl_action/src/rcl_action/action_server.c:515-527 | an expired goal (terminal, readable, and older than the result timeout at the clock reading) is not active, cannot be canceled, and its info can be read |
| Expiry.SweepFromLeavesNoExpired | rcl_action/src/rcl_action/action_server.c:513-537 | the intended sweep (SweepFrom) is no longer than the registry, leaves the slots it has passed untouched, and leaves no expired goal behind |
| Expiry.CompactionKeepsClockAhead | rcl_action/src/rcl_action/action_server.c:526-535 | moving the last handle into a gap keeps the clock assertion true of every handle |
| Expiry.RemoveExpired | rcl_action/src/rcl_action/action_server.c:526-535 | compacting away one expired goal changes neither what the sweep keeps nor the final count nor whether every goal is readable |
| Expiry.SweepFromSpec | rcl_action/src/rcl_action/action_server.c:513-537 | the compacting sweep keeps exactly the unexpired goals (as a multiset) and removes CountExpired of them; every handle is readable afterwards exactly when every handle was readable before |
| Expiry.ExpiredNoLongerTracked | rcl_action/src/rcl_action/action_server.c:526-536 | with unique identities, no expired goal's identity is tracked by any arrangement of what the sweep keeps |
| Expiry.SweepKeepsUnique | rcl_action/src/rcl_action/action_server.c:513-537 | whatever order the sweep leaves the survivors in, their identities stay unique, and none is the identity of a removed goal |
| Expiry.SweepAsWritten | rcl_action/src/rcl_action/action_server.c:513-537 | the loop as written either stops reading past the allocation, at index `num_goal_handles`, or finishes with the slot count unchanged, counting each goal as live or expired |
| Expiry.SweepAsWrittenReadsPastEnd | rcl_action/src/rcl_action/action_server.c:534-535 | the loop as written reads `goal_handles[num_goal_handles]`, one past the allocation, at the first expiry |
| Expiry.SweepSkipping | rcl_action/src/rcl_action/action_server.c:514-537 | the loop with only its read index repaired accounts for every goal as live or expired |
| Expiry.SweepSkippingKeepsExpired | rcl_action/src/rcl_action/action_server.c:514-537 | that loop never examines the goal moved into the current slot: with two expired goals, one expired goal remains |
| Expiry.CommitCountAsWritten | rcl_action/src/rcl_action/action_server.c:539-556 | the stored count is kept when nothing expired; when goals expired it becomes the number of live goals if some remain and the shrink succeeded, and is otherwise kept unchanged |
| Expiry.StaleCountAfterExpiry | rcl_action/src/rcl_action/action_server.c:539-556 | when every goal expires, or the shrink fails, the stored count keeps its old value |
| Server.ActionServer.IsValid | rcl_action/src/rcl_action/action_server.c:751-778 | the server is valid exactly when its implementation exists and all five channels are valid |
| Server.ActionServer.constructor | rcl_action/src/rcl_action/action_server.c:53-58 | a zero-initialized server has no implementation, is not valid and tracks no goals |
| Server.DefaultResultTimeout | rcl_action/src/rcl_action/action_server.c:253 | the default result timeout is exactly fifteen minutes, in whole seconds |
| Server.ActionServer.Init | rcl_action/src/rcl_action/action_server.c:128-200 | an invalid node gives NODE_INVALID and an initialized server ALREADY_INIT, both without change. A failed allocation of the implementation gives BAD_ALLOC. Otherwise the code is that of the first channel whose set-up fails (SetupResult), else BAD_ALLOC when the name copy fails, else OK. Success leaves a valid server with an empty registry, the given name and timeout. Failure rolls back to no implementation and no channels |
| Server.ActionServer.Fini | rcl_action/src/rcl_action/action_server.c:203-239 | an invalid node gives NODE_INVALID without change, and no implementation gives OK without change. Otherwise every channel is finalized, the result is OK exactly when all five succeed (ERROR otherwise), and the server is left without an implementation or channels |
| Server.ActionServer.GoalExists | rcl_action/src/rcl_action/action_server.c:725-749 | true exactly when the server is valid and the scan meets a goal with the identity before any unreadable handle |
| Server.ActionServer.AcceptNewGoal | rcl_action/src/rcl_action/action_server.c:323-384 | a goal is accepted exactly when the server is valid, the lookup does not find the identity, allocation succeeds and the clock can be read. The accepted handle is valid and ACCEPTED, stamped with the clock, and appended at the end. Every refusal leaves the registry unchanged, and identities stay unique |
| Server.ActionServer.GetGoalHandles | rcl_action/src/rcl_action/action_server.c:709-723 | an invalid server gives ACTION_SERVER_INVALID; otherwise OK with exactly the tracked handles and their count |
| Server.ActionServer.GetGoalStatusArray | rcl_action/src/rcl_action/action_server.c:403-452 | an invalid server gives ACTION_SERVER_INVALID, and an empty registry gives OK with an empty list. An array initialisation failure is translated. Otherwise OK exactly when every handle is readable, and then entry i is goal i's info and state; otherwise ERROR with an empty list |
| Server.ActionServer.ProcessCancelRequest | rcl_action/src/rcl_action/action_server.c:568-681 | invalid server and buffer failure are reported with no change. With nothing selected the registry is unchanged, and the code is ERROR exactly when the scan met an unreadable handle. A response failure is translated. Otherwise exactly the selected goals become CANCELING, every other goal is unchanged, and the response lists each selected goal's info in array order. Identities stay unique |
| Server.ActionServer.ClearExpiredGoals | rcl_action/src/rcl_action/action_server.c:487-558 | an invalid server gives ACTION_SERVER_INVALID and a clock failure ERROR, both without change. Otherwise exactly the expired goals are removed (the rest kept as a multiset), the count drops by the number removed, and the code is ERROR exactly when some handle was unreadable. Identities stay unique, and no removed goal's identity is still tracked |
| Server.MoveLastInto | rcl_action/src/rcl_action/action_server.c:534-535 | the last live slot is copied into slot i, and the live prefix becomes the compacted sequence |
| Server.ExamineSlot | rcl_action/src/rcl_action/action_server.c:515-536 | one sweep iteration reports expiry and unreadability of the slot exactly. An expired goal is compacted away, and anything else leaves the array unchanged |
| Server.SweepExpired | rcl_action/src/rcl_action/action_server.c:507-537 | the sweep loop leaves exactly the unexpired goals in the live prefix (as a multiset) and returns the new count and the number removed. The code is OK exactly when every handle was readable |
| Server.ApplyCancel | rcl_action/src/rcl_action/action_server.c:665-677 | the live prefix becomes the registry with the selected goals moved to CANCELING, and the response holds each selected goal's prior info in selection order |
| Server.CreateChannels | rcl_action/src/rcl_action/action_server.c:164-172 | the channels are set up in order and set-up stops at the first failure, whose translated code is returned (SetupResult). It succeeds exactly when every channel's name lookup and construction succeed, and then all five channels exist |
| Server.SelectGoalsToCancel | rcl_action/src/rcl_action/action_server.c:592-646 | the scan yields exactly CancelSelection of the live goals, and flags exactly the unreadable handles the chosen mode meets |
| Server.SelectSingleGoal | rcl_action/src/rcl_action/action_server.c:601-619 | the single-goal scan yields the selection of that mode, and flags an unreadable handle met before the match |
| Server.SelectUpTo | rcl_action/src/rcl_action/action_server.c:620-646 | the multi-goal scan yields exactly the picked indices in order, and flags any unreadable handle |
| Server.GrowAppend | rcl_action/src/rcl_action/action_server.c:345-360 | the grown array is fresh and holds the live handles followed by the new one |

## Left out

- Transport. Taking requests, sending responses and publishing feedback and
  status go through rcl and the middleware. Only their return-code
  translation is modelled (`TakeRequestResult`, `ForwardResult`). Channel
  names, QoS profiles and type support are not modelled.
- `rcl_action_server_get_action_name` and `rcl_action_server_get_options`
  are plain field reads. Of the default options only the result timeout
  (`DefaultResultTimeout`) is kept.
- The clock is a parameter. Init does not copy a clock, and
  `rcl_clock_valid` is not modelled.
- Null-pointer and allocator-validity checks cannot arise for Dafny values,
  so they are not modelled. Most of them report INVALID_ARGUMENT. A null
  server given to fini reports ACTION_SERVER_INVALID (line 206). A null goal
  info makes accept return NULL (line 331) and goal_exists return false
  (line 733). Error messages and logging are not modelled either.
- The goal handle's state machine (goal_handle.c is not part of this model)
  is reduced to a valid flag and a state. Only the CANCEL event is modelled.
- Handles are values, not shared pointers. A handle that a caller holds is
  not updated when the registry changes, and the aliasing between a
  returned `goal_handles` pointer and the registry is not modelled.
- Memory layout is not modelled: allocation byte sizes, pointer widths, and
  the shrink at line 547, which asks for `num_goal_handles` bytes rather than
  that many pointers. The registry array is replaced, not reallocated.
- Server.ActionServer.ClearExpiredGoals: the shrink at the end always
  succeeds, and the new count is always committed (the intended behaviour).
  The as-written commit is `Expiry.CommitCountAsWritten`. An expired handle
  is valid, so its finalisation is taken to succeed. The assertion that the
  clock is ahead of every terminal goal's stamp (line 526) is a `requires`
  (`ClockAhead`). That `requires` also excludes a signed int64 overflow of
  `current_time - goal_time`, which the assertion does not check.
- Server.ActionServer.AcceptNewGoal: the three allocation steps and the
  handle initialisation are folded into `allocOk`. In the source, a failure
  after the `reallocate` leaves the server holding a pointer that may have
  been freed. The model leaves the registry unchanged.
- Server.ActionServer.ProcessCancelRequest: selected goals are cancelable,
  so the CANCEL event cannot fail in the model. The source's handling of
  such a failure (ERROR, continue with the next goal) is therefore never
  exercised. A failure of the response allocation is translated as intended
  (`AllocFailureResult`), not as written.
- Server.ActionServer.ProcessCancelRequest: on the early error returns the
  source leaves the caller's cancel response as it was. These are an invalid
  server (line 575), a failed buffer allocation (line 590) and a failed
  response initialisation (lines 656-663). The model returns an empty
  response there; the caller's prior response is not modelled.
- Server.ActionServer.GetGoalStatusArray: on an invalid server (line 409) and
  on a failed array initialisation (lines 421-427) the source leaves the
  caller's status message as it was. The model returns an empty list there.
- Server.ActionServer.ClearExpiredGoals: on an invalid server (line 493) and
  on a clock failure (line 501) the source returns before line 507 and leaves
  `*num_expired` as it was. The model returns 0 there.
- Server.ActionServer.Fini: freeing the action name and the goal-handle
  array is not modelled; the array is leaked in the source.
- Server.ActionServer.Init: the rollback on failure is modelled as intended.
  Only what init set up is undone, and the server is left with no
  implementation and no channels. As written, the fail path runs fini over an
  implementation struct that was allocated but never zeroed. Fini then
  finalizes channel structs that init never reached and deallocates through
  options that were never copied, so the outcome is undefined
  (`Lifecycle.RollbackReadsUninitialised`). Every finalisation in the
  rollback is taken to succeed; the source discards its result.
- Uniqueness of identities is preserved by `AcceptNewGoal` only when every
  handle is readable. An unreadable handle ends the duplicate scan with
  "not found". `ProcessCancelRequest` and `ClearExpiredGoals` preserve it
  unconditionally.

## Findings

| source | as written | input that shows it | evidently intended | confidence | as-written member | corrected member |
|---|---|---|---|---|---|---|
| rcl_action/src/rcl_action/action_server.c:534-535 | an expired goal's slot is refilled from `goal_handles[num_goal_handles]`, one past the last live slot; because the array holds exactly the live handles, this reads past the allocation | any registry with at least one expired goal | refill from the last live slot, `num_goal_handles - 1`, then shrink the count | not executed | Expiry.SweepAsWrittenReadsPastEnd | Server.SweepExpired |
| rcl_action/src/rcl_action/action_server.c:514-535 | after refilling slot i, `i` still advances, so the handle moved into slot i is never examined | two terminal goals, both older than the timeout | examine slot i again after a refill | not executed | Expiry.SweepSkippingKeepsExpired | Expiry.SweepFromSpec |
| rcl_action/src/rcl_action/action_server.c:539-556 | when every goal expires, the array is freed but `num_goal_handles` and the pointer are left unchanged; a failed shrink also keeps the old count | a registry whose goals have all expired | store the new count (zero) and drop the array | not executed | Expiry.StaleCountAfterExpiry | Server.ActionServer.ClearExpiredGoals |
| rcl_action/src/rcl_action/action_server.c:656-663 | the BAD_ALLOC from `rcl_action_cancel_response_init` is assigned and then overwritten with ERROR | a response initialisation that fails with BAD_ALLOC | return BAD_ALLOC, as every other allocation failure does | not executed | ReturnCodes.ResponseInitLosesBadAlloc | Server.ActionServer.ProcessCancelRequest |
| rcl_action/src/rcl_action/action_server.c:153-200 | `impl` comes from `allocate` (line 159) and is never zeroed, and the options are copied only at line 185, after the last failure point. Every `goto fail` therefore runs fini (lines 211-233) over channel structs not yet zero-initialised and with an allocator read from uninitialised options | a goal service name lookup that fails | undo only the steps init completed, using the caller's allocator | not executed | Lifecycle.RollbackReadsUninitialised | Server.ActionServer.Init |
