/**
 The tables of object states: requests for states with their half-open intervals of validity, and
 the history of states actually held. `None` as the end of an interval is SQL NULL, which means "for ever".
 */
module ObjectStateModel {
  import opened Prelude

  /** A row of object_state_request; its position in the table is its id. */
  datatype StateRequest = StateRequest(
    objectId: nat, state: string, crdate: int, validFrom: int, validTo: Option<int>, canceled: Option<int>)

  /** A row of object_state. */
  datatype Held = Held(objectId: nat, state: string, validFrom: int, validTo: Option<int>)

  /** A row of object_state_request_reason. */
  datatype Reason = Reason(requestId: nat, creation: Option<string>, cancellation: Option<string>)

  /** A row of enum_object_states; `described` says that it has an English description. */
  datatype StateInfo = StateInfo(manual: bool, types: set<nat>, described: bool)

  datatype Env = Env(now: int, states: map<string, StateInfo>, objectTypes: map<nat, nat>)

  datatype Error =
    | OutOfTurn
    | ObjectNotFound(objectId: nat)
    | StateNotFound(states: set<string>)
    | LangNotFound
    | SqlSyntax
    | OverlayedTimeIntervals
    | ServerBlockedPresent(objectId: nat)
    | ServerBlockedAbsent(objectId: nat)

  const SERVER_BLOCKED := "serverBlocked"

  // ---------------------------------------------------------------- intervals

  /** SQL's LEAST, which ignores NULL. */
  function Least(a: Option<int>, b: Option<int>): Option<int> {
    if a.None? then b else if b.None? then a else if a.value <= b.value then a else b
  }

  function End(r: StateRequest): Option<int> {
    Least(r.canceled, r.validTo)
  }

  predicate Before(t: int, end: Option<int>) {
    end.None? || t < end.value
  }

  predicate Reached(end: Option<int>, t: int) {
    end.Some? && end.value <= t
  }

  /** Instant `t` lies in the effective interval of `r`. */
  predicate Covers(r: StateRequest, t: int) {
    r.validFrom <= t && Before(t, End(r))
  }

  /** The row predicate of the statements that cancel requests. */
  predicate Active(r: StateRequest, obj: nat, now: int) {
    r.canceled.None? && r.objectId == obj && r.validFrom <= now && Before(now, r.validTo)
  }

  predicate HeldAt(h: Held, t: int) {
    h.validFrom <= t && Before(t, h.validTo)
  }

  /** One of the intervals ends before the other begins. */
  predicate Disjoint(r: StateRequest, q: StateRequest) {
    Reached(End(r), q.validFrom) || Reached(End(q), r.validFrom)
  }

  /** The interval of `q` contains that of `r`. */
  predicate Contains(q: StateRequest, r: StateRequest) {
    q.validFrom <= r.validFrom && (End(q).None? || (End(r).Some? && End(r).value <= End(q).value))
  }

  /** The interval of `q` goes beyond that of `r` on both sides. */
  predicate StrictlyCovers(q: StateRequest, r: StateRequest) {
    q.validFrom < r.validFrom && End(r).Some? && Before(End(r).value, End(q))
  }

  predicate WellFormed(r: StateRequest) {
    End(r).Some? ==> r.validFrom <= End(r).value
  }

  // ---------------------------------------------------------------- the statements

  /** The overlap test of CreateObjectStateRequestId::exec for one existing row. */
  predicate Conflict(r: StateRequest, newFrom: int, newTo: Option<int>) {
    var to := End(r);
    || (to.Some? && to.value < r.validFrom)
    || (r.validFrom <= newFrom && Before(newFrom, to))
    || (Before(r.validFrom, newTo) && (to.None? || (newTo.Some? && newTo.value <= to.value)))
  }

  predicate Concerns(r: StateRequest, obj: nat, states: set<string>) {
    r.objectId == obj && r.state in states
  }

  predicate Overlayed(rs: seq<StateRequest>, obj: nat, states: set<string>, newFrom: int, newTo: Option<int>) {
    exists i :: 0 <= i < |rs| && Concerns(rs[i], obj, states) && Conflict(rs[i], newFrom, newTo)
  }

  function StartOr(validFrom: Option<int>, now: int): int {
    if validFrom.Some? then validFrom.value else now
  }

  /** The states a manual request may name for an object of this type. */
  predicate Requestable(env: Env, objectType: nat, s: string) {
    s in env.states && env.states[s].manual && objectType in env.states[s].types
  }

  /** The names GetObjectStateIdMap does not find for an object of this type. */
  function UnknownStates(env: Env, obj: nat, states: set<string>): set<string>
    requires obj in env.objectTypes
  {
    set s | s in states && !(s in env.states && env.objectTypes[obj] in env.states[s].types)
  }

  /** Why a creation is refused, if it is. */
  function CreateRefusal(env: Env, rs: seq<StateRequest>, obj: nat, states: set<string>, validFrom: Option<int>,
                         validTo: Option<int>): Option<Error> {
    var from := StartOr(validFrom, env.now);
    if validTo.Some? && validTo.value < from then Some(OutOfTurn)
    else if obj !in env.objectTypes then Some(ObjectNotFound(obj))
    else
      var wrong := set s | s in states && !Requestable(env, env.objectTypes[obj], s);
      if wrong != {} then Some(StateNotFound(wrong))
      else if states == {} then Some(SqlSyntax)
      else if Overlayed(rs, obj, states, from, validTo) then Some(OverlayedTimeIntervals)
      else None
  }

  /** The rows inserted by a creation: one for each state, in some order. */
  ghost predicate NewRows(rows: seq<StateRequest>, obj: nat, states: set<string>, now: int, from: int,
                          to: Option<int>) {
    && (forall i :: 0 <= i < |rows| ==>
         rows[i].state in states && rows[i] == StateRequest(obj, rows[i].state, now, from, to, None))
    && (forall s :: s in states ==> exists i :: 0 <= i < |rows| && rows[i].state == s)
    && (forall i, j :: 0 <= i < j < |rows| ==> rows[i].state != rows[j].state)
  }

  /** The table after the active requests of `obj` for `states` were cancelled at `now`. */
  function Truncated(rs: seq<StateRequest>, obj: nat, states: set<string>, now: int): (out: seq<StateRequest>)
    ensures |out| == |rs|
    ensures forall i :: 0 <= i < |rs| ==> out[i] == Cut(rs[i], obj, states, now)
  {
    seq(|rs|, i requires 0 <= i < |rs| => Cut(rs[i], obj, states, now))
  }

  function Cut(r: StateRequest, obj: nat, states: set<string>, now: int): StateRequest {
    if Active(r, obj, now) && r.state in states then r.(canceled := Some(now)) else r
  }

  predicate IsServerState(env: Env, s: string) {
    s in env.states && env.states[s].manual && "server" <= s
  }

  function ServerStates(env: Env): set<string> {
    set s | s in env.states && IsServerState(env, s)
  }

  /** Some request for state `s` of `obj` is in force at `t`. */
  ghost predicate InForce(rs: seq<StateRequest>, obj: nat, s: string, t: int) {
    exists i :: 0 <= i < |rs| && rs[i].objectId == obj && rs[i].state == s && Covers(rs[i], t)
  }

  // ---------------------------------------------------------------- steps

  datatype Tables = Tables(requests: seq<StateRequest>, held: seq<Held>, reasons: seq<Reason>)

  ghost predicate CreateStep(env: Env, a: seq<StateRequest>, b: seq<StateRequest>, obj: nat, states: set<string>,
                             validFrom: Option<int>, validTo: Option<int>) {
    && CreateRefusal(env, a, obj, states, validFrom, validTo).None?
    && |a| <= |b| && b[..|a|] == a
    && NewRows(b[|a|..], obj, states, env.now, StartOr(validFrom, env.now), validTo)
  }

  /**
   The stored function update_object_states, as far as this model relies on it: for every manual state
   it closes the open row of the history when no request is in force, and opens one when a request is
   in force and none is open. Automatic states and other objects are none of its business here.
   */
  ghost predicate Performed(env: Env, rs: seq<StateRequest>, a: seq<Held>, b: seq<Held>, obj: nat) {
    && |a| <= |b|
    && (forall i :: 0 <= i < |a| ==>
         b[i] == if IsOpen(a, i, obj, a[i].state) && IsManual(env, a[i].state) && !InForce(rs, obj, a[i].state, env.now)
                 then a[i].(validTo := Some(env.now)) else a[i])
    && (forall i :: |a| <= i < |b| ==>
         && b[i] == Held(obj, b[i].state, env.now, None)
         && IsManual(env, b[i].state) && InForce(rs, obj, b[i].state, env.now) && !HasOpen(a, obj, b[i].state))
    && (forall i, j :: |a| <= i < j < |b| ==> b[i].state != b[j].state)
    && (forall s :: IsManual(env, s) && InForce(rs, obj, s, env.now) ==> HasOpen(b, obj, s))
  }

  predicate IsManual(env: Env, s: string) {
    s in env.states && env.states[s].manual
  }

  predicate IsOpen(held: seq<Held>, i: int, obj: nat, s: string) {
    0 <= i < |held| && held[i].objectId == obj && held[i].state == s && held[i].validTo.None?
  }

  ghost predicate HasOpen(held: seq<Held>, obj: nat, s: string) {
    exists i :: IsOpen(held, i, obj, s)
  }

  // ---------------------------------------------------------------- block and restore

  predicate IsBlock(held: seq<Held>, i: int, obj: nat) {
    0 <= i < |held| && held[i].objectId == obj && held[i].state == SERVER_BLOCKED
  }

  /** The CURRENT column of the block history. */
  predicate IsCurrent(h: Held, now: int) {
    h.validTo.None? || now <= h.validTo.value
  }

  /** The object was blocked at `now`, by the history of states. */
  ghost predicate Blocked(held: seq<Held>, obj: nat, now: int) {
    exists i :: IsBlock(held, i, obj) && HeldAt(held[i], now)
  }

  /** Row `j` was held just before the row `start` began. */
  predicate HeldJustBefore(held: seq<Held>, j: int, start: int)
    requires 0 <= start < |held|
  {
    && 0 <= j < |held|
    && held[j].objectId == held[start].objectId
    && held[j].validFrom < held[start].validFrom
    && (held[j].validTo.None? || held[start].validFrom <= held[j].validTo.value)
  }

  /** The states to be restored, when the block began with row `start`. */
  ghost predicate ToRestore(env: Env, held: seq<Held>, start: int, s: string)
    requires 0 <= start < |held|
  {
    IsServerState(env, s) && exists j :: HeldJustBefore(held, j, start) && held[j].state == s
  }

  /** `chain` runs back from a current block through blocks each of which ended when the next began. */
  ghost predicate BackToBack(held: seq<Held>, obj: nat, now: int, chain: seq<nat>) {
    && 0 < |chain|
    && IsBlock(held, chain[0], obj)
    && IsCurrent(held[chain[0]], now)
    && forall k :: 0 < k < |chain| ==> Adjoins(held, obj, chain, k)
  }

  ghost predicate Adjoins(held: seq<Held>, obj: nat, chain: seq<nat>, k: nat) {
    0 < k < |chain| && Precedes(held, obj, chain[k], chain[k - 1])
  }

  /** Block `j` began before block `i` and ended when it began. */
  predicate Precedes(held: seq<Held>, obj: nat, j: nat, i: nat) {
    && IsBlock(held, i, obj)
    && IsBlock(held, j, obj)
    && held[j].validFrom < held[i].validFrom
    && held[j].validTo == Some(held[i].validFrom)
  }

  ghost predicate HasPredecessor(held: seq<Held>, obj: nat, i: nat) {
    exists j: nat :: Precedes(held, obj, j, i)
  }

  ghost predicate EndsTogether(held: seq<Held>, obj: nat, chain: seq<nat>, k: nat) {
    && 0 < |chain|
    && IsBlock(held, k, obj) && IsBlock(held, chain[|chain| - 1], obj)
    && held[chain[|chain| - 1]].validFrom == held[k].validFrom
  }

  /** The block at `now` goes back without a gap to where row `k` begins. */
  ghost predicate LastsSince(held: seq<Held>, obj: nat, now: int, k: nat) {
    exists chain :: BackToBack(held, obj, now, chain) && EndsTogether(held, obj, chain, k)
  }

  /** `start` begins where the maximal back-to-back chain of blocks begins that contains a current one. */
  ghost predicate IsChainStart(held: seq<Held>, obj: nat, now: int, start: nat) {
    LastsSince(held, obj, now, start) && !HasPredecessor(held, obj, start)
  }

  /** UPDATE object_state_request_reason SET reason_cancellation ... */
  function WithCancellation(reasons: seq<Reason>, requestId: nat, reason: Option<string>): (out: seq<Reason>)
    ensures |out| == |reasons|
  {
    seq(|reasons|, i requires 0 <= i < |reasons| =>
      if reasons[i].requestId == requestId then reasons[i].(cancellation := reason) else reasons[i])
  }

  /** The reason for the cancellation is noted with the reason of that request; everything else stays. */
  ghost predicate CancellationNoted(a: seq<Reason>, b: seq<Reason>, requestId: nat, reason: Option<string>) {
    |b| == |a| && forall i :: 0 <= i < |a| ==>
      if a[i].requestId == requestId then b[i] == Reason(requestId, a[i].creation, reason) else b[i] == a[i]
  }

  /** The requests to which the reason of a block may be attached. */
  predicate Annotatable(r: StateRequest, obj: nat, now: int) {
    && r.validFrom <= now && (r.validTo.None? || now <= r.validTo.value) && r.canceled.None?
    && r.objectId == obj && r.state == SERVER_BLOCKED
  }

  /** The reason of a block goes with the youngest block request that is in force, if there is one. */
  ghost predicate ReasonAdded(env: Env, rs: seq<StateRequest>, a: seq<Reason>, b: seq<Reason>, obj: nat,
                              reason: Option<string>) {
    if exists i :: 0 <= i < |rs| && Annotatable(rs[i], obj, env.now) then
      exists last :: 0 <= last < |rs| && Annotatable(rs[last], obj, env.now) && b == a + [Reason(last, reason, None)]
        && forall i :: last < i < |rs| ==> !Annotatable(rs[i], obj, env.now)
    else b == a
  }

  /** The states an administrative block may set. */
  predicate IsBlockState(env: Env, s: string) {
    IsServerState(env, s) && s != SERVER_BLOCKED && env.states[s].described
  }

  /** The error for states that no administrative block may set: all of them, unless there are no others at all. */
  ghost predicate WrongStatesReported(env: Env, states: set<string>, e: Error) {
    if forall s :: s in env.states ==> !IsBlockState(env, s) then e == LangNotFound
    else
      && e.StateNotFound? && e.states != {}
      && forall s :: s in e.states <==> s in states && !IsBlockState(env, s)
  }

  /** Everything the administrative blocking of an object changes. */
  ghost predicate BlockStep(env: Env, a: Tables, b: Tables, obj: nat, states: set<string>, validFrom: Option<int>,
                            validTo: Option<int>) {
    && !Blocked(a.held, obj, env.now)
    && b.held == a.held
    && states != {}
    && SERVER_BLOCKED !in states
    && (forall s :: s in states ==> IsServerState(env, s))
    && CreateStep(env, Truncated(a.requests, obj, ServerStates(env), env.now), b.requests, obj,
                  states + {SERVER_BLOCKED}, validFrom, validTo)
  }

  /** Some request for `s` is active, so that the statements that cancel requests find it. */
  ghost predicate RequestedActively(rs: seq<StateRequest>, obj: nat, s: string, now: int) {
    exists i :: 0 <= i < |rs| && rs[i].state == s && Active(rs[i], obj, now)
  }

  /** Why a restore is refused, if it is; `start` is the row the current block began with, if there is one. */
  ghost function RestoreRefusal(env: Env, t: Tables, obj: nat, start: Option<nat>): Option<Error>
    requires start.Some? ==> start.value < |t.held|
  {
    if SERVER_BLOCKED !in env.states then Some(StateNotFound({SERVER_BLOCKED}))
    else if start.None? then Some(ServerBlockedAbsent(obj))
    else if !IsServerState(env, SERVER_BLOCKED) || !RequestedActively(t.requests, obj, SERVER_BLOCKED, env.now) then
      Some(ServerBlockedAbsent(obj))
    else
      var previous := set s | s in env.states && ToRestore(env, t.held, start.value, s);
      if previous == {} then None
      else CreateRefusal(env, Truncated(t.requests, obj, ServerStates(env), env.now), obj, previous, None, None)
  }

  /** Everything the restoring of the states before a block changes, when the block began with row `start`. */
  ghost predicate RestoreStep(env: Env, a: Tables, b: Tables, obj: nat, start: nat) {
    && start < |a.held|
    && b.held == a.held
    && var cut := Truncated(a.requests, obj, ServerStates(env), env.now);
    && var previous := set s | s in env.states && ToRestore(env, a.held, start, s);
    && if previous == {} then b.requests == cut else CreateStep(env, cut, b.requests, obj, previous, None, None)
  }
}
