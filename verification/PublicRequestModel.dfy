/**
 The rows of the public request tables, the interface of public request types, and the relation
 that says what a cascade of cancellations may do to those rows.
 */
module PublicRequestModel {
  import opened Prelude

  datatype Status = Opened | Resolved | Invalidated

  datatype OnStatusAction = Scheduled | Processed | Failed

  datatype LetterStatus = Ready | SendFailed | NoProcessing | Sent

  /**
   An instance of PublicRequestTypeIface. `Fake` is FakePublicRequestForInvalidating, which borrows
   the name of a type but not its behaviour; `Concrete` is any other implementation.
   */
  datatype Iface = Fake(typeName: string) | Concrete(key: nat)

  /** What an implementation of the interface answers; `None` stands for a thrown std::runtime_error. */
  datatype Traits = Traits(
    typeName: string,
    cancelOnCreate: Option<seq<Iface>>,
    cancelOnUpdate: (Status, Status) -> Option<seq<Iface>>,
    onStatusAction: Status -> OnStatusAction)

  datatype Types = Types(traits: nat -> Traits)
  {
    function Name(t: Iface): string {
      match t
      case Fake(n) => n
      case Concrete(k) => traits(k).typeName
    }

    function OnCreate(t: Iface): Option<seq<Iface>> {
      match t
      case Fake(_) => None
      case Concrete(k) => traits(k).cancelOnCreate
    }

    function OnUpdate(t: Iface, old_: Status, new_: Status): Option<seq<Iface>> {
      match t
      case Fake(_) => if old_ == Opened && new_ == Invalidated then Some([]) else None
      case Concrete(k) => traits(k).cancelOnUpdate(old_, new_)
    }

    function Action(t: Iface, s: Status): OnStatusAction {
      match t
      case Fake(_) => Processed
      case Concrete(k) => traits(k).onStatusAction(s)
    }

    /** Some type of the list is called `name`. */
    ghost predicate Names(ts: seq<Iface>, name: string) {
      exists k :: 0 <= k < |ts| && Name(ts[k]) == name
    }
  }

  /** A row of public_request joined with public_request_objects_map. */
  datatype Request = Request(
    objectId: nat,
    typeName: string,
    status: Status,
    resolveTime: Option<int>,
    reason: Option<string>,
    emailToAnswer: Option<string>,
    answerEmailId: Option<nat>,
    registrarId: Option<nat>,
    createRequestId: Option<nat>,
    resolveRequestId: Option<nat>,
    onStatusAction: OnStatusAction)

  type Rows = map<nat, Request>
  type Letters = map<nat, LetterStatus>

  /** Everything else a transaction reads: its time and the tables it does not write. */
  datatype Env = Env(
    now: int,
    objects: set<nat>,
    registrars: set<nat>,
    emails: set<nat>,
    typeNames: set<string>,
    wellFormedEmail: string -> bool,
    defaultAction: OnStatusAction)

  /** The optional fields of UpdatePublicRequest; the inner option is SQL NULL. */
  datatype UpdateParams = UpdateParams(
    status: Option<Status>,
    reason: Option<Option<string>>,
    emailToAnswer: Option<Option<string>>,
    answerEmailId: Option<Option<nat>>,
    registrarId: Option<Option<nat>>,
    onStatusAction: Option<OnStatusAction>)

  datatype Error =
    | BadParams(badStatus: Option<Status>, unknownEmail: Option<nat>, unknownRegistrar: Option<nat>, nothingToDo: bool)
    | DuplicateColumn
    | RequestDoesntExist(id: nat)
    | ObjectDoesntExist(objectId: nat)
    | TypeThrew(iface: Iface, oldStatus: Status, newStatus: Status)
    | CreateTypeThrew(iface: Iface)
    | NoRequestFound
    | UnknownType(typeName: string)
    | WrongEmail(email: string)
    | UnknownRegistrar(registrarId: nat)

  // ---------------------------------------------------------------- updating one row

  /** The columns the UPDATE statement assigns, given parameters that passed the checks. */
  function Updated(row: Request, p: UpdateParams, action: Status -> OnStatusAction, logReq: Option<nat>,
                   now: int): Request {
    row.(status := SetTo(p.status, row.status),
         resolveTime := if p.status.Some? && row.status.Opened? then Some(now) else row.resolveTime,
         reason := SetTo(p.reason, row.reason),
         emailToAnswer := SetTo(p.emailToAnswer, row.emailToAnswer),
         answerEmailId := SetTo(p.answerEmailId, row.answerEmailId),
         registrarId := SetTo(p.registrarId, row.registrarId),
         resolveRequestId := if logReq.Some? then logReq else row.resolveRequestId,
         onStatusAction := SetTo(p.onStatusAction,
                                 if p.status.Some? then action(p.status.value) else row.onStatusAction))
  }

  function SetTo<T>(param: Option<T>, column: T): T {
    match param
    case Some(value) => value
    case None => column
  }

  /**
   Row `b` is row `a` after an update: each column holds its own parameter where that is set, and what it held
   before elsewhere.
   */
  ghost predicate Written(types: Types, env: Env, a: Request, b: Request, t: Iface, p: UpdateParams,
                          logReq: Option<nat>) {
    && b.objectId == a.objectId && b.typeName == a.typeName && b.createRequestId == a.createRequestId
    && (if p.status.Some? then b.status == p.status.value else b.status == a.status)
    && (if p.status.Some? && a.status.Opened? then b.resolveTime == Some(env.now) else b.resolveTime == a.resolveTime)
    && (if p.reason.Some? then b.reason == p.reason.value else b.reason == a.reason)
    && (if p.emailToAnswer.Some? then b.emailToAnswer == p.emailToAnswer.value else b.emailToAnswer == a.emailToAnswer)
    && (if p.answerEmailId.Some? then b.answerEmailId == p.answerEmailId.value else b.answerEmailId == a.answerEmailId)
    && (if p.registrarId.Some? then b.registrarId == p.registrarId.value else b.registrarId == a.registrarId)
    && (if logReq.Some? then b.resolveRequestId == logReq else b.resolveRequestId == a.resolveRequestId)
    && (p.onStatusAction.Some? ==> b.onStatusAction == p.onStatusAction.value)
    && (p.onStatusAction.None? && p.status.Some? ==> b.onStatusAction == types.Action(t, p.status.value))
    && (p.onStatusAction.None? && p.status.None? ==> b.onStatusAction == a.onStatusAction)
  }

  /** The exception built up while the statement is composed; nothing is thrown when no field of it is set. */
  function BadParamsOf(env: Env, p: UpdateParams, logReq: Option<nat>): Option<Error> {
    var badStatus := if p.status == Some(Opened) then p.status else None;
    var email := if p.answerEmailId.Some? && p.answerEmailId.value.Some? && p.answerEmailId.value.value !in env.emails
                 then p.answerEmailId.value else None;
    var registrar := if p.registrarId.Some? && p.registrarId.value.Some? && p.registrarId.value.value !in env.registrars
                     then p.registrarId.value else None;
    var nothing := (p.status.None? || badStatus.Some?) && p.reason.None? && p.emailToAnswer.None? &&
                   p.answerEmailId.None? && p.registrarId.None? && p.onStatusAction.None? && logReq.None?;
    if badStatus.None? && email.None? && registrar.None? && !nothing then None
    else Some(BadParams(badStatus, email, registrar, nothing))
  }

  /** Why an update of `id` is refused before any other request is looked at, if it is. */
  function Refusal(types: Types, env: Env, rows: Rows, id: nat, t: Iface, p: UpdateParams,
                   logReq: Option<nat>): Option<Error> {
    var bad := BadParamsOf(env, p, logReq);
    if bad.Some? then bad
    else if p.status.Some? && p.onStatusAction.Some? then Some(DuplicateColumn)
    else if id !in rows then Some(RequestDoesntExist(id))
    else if p.status.None? || p.status.value == rows[id].status then None
    else
      var old_, new_ := rows[id].status, p.status.value;
      var cancelled := types.OnUpdate(t, old_, new_);
      if cancelled.None? then Some(TypeThrew(t, old_, new_))
      else if cancelled.value != [] && rows[id].objectId !in env.objects then Some(ObjectDoesntExist(rows[id].objectId))
      else None
  }

  /**
   A failure that does not come from the request the caller named: a type refused to say what its
   invalidation cancels. This is never a FakePublicRequestForInvalidating, whose throw is for other changes.
   */
  ghost predicate InnerThrow(types: Types, e: Error) {
    && e.TypeThrew? && e.iface.Concrete? && e.oldStatus == Opened && e.newStatus == Invalidated
    && types.OnUpdate(e.iface, Opened, Invalidated).None?
  }

  /** The rows that the update starts its cascade from: the named row is already rewritten. */
  function Start(types: Types, env: Env, rows: Rows, id: nat, t: Iface, p: UpdateParams, logReq: Option<nat>): Rows
    requires id in rows
  {
    rows[id := Updated(rows[id], p, s => types.Action(t, s), logReq, env.now)]
  }

  /** The types whose opened requests the update cancels. */
  function Roots(types: Types, rows: Rows, id: nat, t: Iface, p: UpdateParams): seq<Iface>
    requires id in rows
  {
    if p.status.None? || p.status.value == rows[id].status then []
    else
      var cancelled := types.OnUpdate(t, rows[id].status, p.status.value);
      if cancelled.Some? then cancelled.value else []
  }

  // ---------------------------------------------------------------- the cascade relation

  ghost function OpenedIds(rows: Rows): set<nat> {
    set i | i in rows && rows[i].status.Opened?
  }

  /**
   What every cancellation of one cascade writes: the time, the registrar if there is one, the id of the
   logged request.
   */
  datatype Stamp = Stamp(types: Types, now: int, registrarId: Option<Option<nat>>, logReq: Option<nat>)

  function StampOf(types: Types, env: Env, p: UpdateParams, logReq: Option<nat>): Stamp {
    Stamp(types, env.now, p.registrarId, logReq)
  }

  function DueTo(typeName: string): string {
    "due to answering public request of " + typeName + " type"
  }

  /** Row `b` is row `a` after its cancellation; `ReasonOf` says which reason it has. */
  ghost predicate InvalidatedBy(stamp: Stamp, a: Request, b: Request) {
    && a.status.Opened?
    && b == a.(status := Invalidated,
               resolveTime := Some(stamp.now),
               reason := b.reason,
               registrarId := if stamp.registrarId.Some? then stamp.registrarId.value else a.registrarId,
               resolveRequestId := if stamp.logReq.Some? then stamp.logReq else a.resolveRequestId,
               onStatusAction := b.onStatusAction)
    && IsAction(stamp.types, a.typeName, b.onStatusAction)
  }

  ghost predicate IsAction(types: Types, name: string, action: OnStatusAction) {
    exists t :: types.Name(t) == name && types.Action(t, Invalidated) == action
  }

  /** Between `a` and `b` nothing happened except that opened requests of `obj` were cancelled. */
  ghost predicate OnlyInvalidates(stamp: Stamp, obj: nat, a: Rows, b: Rows) {
    && a.Keys == b.Keys
    && forall i :: i in a ==> b[i] == a[i] || (a[i].objectId == obj && InvalidatedBy(stamp, a[i], b[i]))
  }

  ghost predicate ClosedBetween(a: Rows, b: Rows, i: nat) {
    i in a && i in b && a[i].status.Opened? && !b[i].status.Opened?
  }

  /** No opened request of `obj` has a type in `ts`. */
  ghost predicate NoneOpened(types: Types, rows: Rows, obj: nat, ts: seq<Iface>) {
    forall i :: i in rows && rows[i].status.Opened? && rows[i].objectId == obj ==> !types.Names(ts, rows[i].typeName)
  }

  /** A step of a chain of cancellations: request `id` was cancelled as a request of type `iface`. */
  datatype Link = Link(id: nat, iface: Iface)

  /**
   A chain of cancellations that ends in request `i`: each link is an opened request of `obj`, the
   first has a type in `roots`, every later one a type that invalidating the link before it cancels.
   */
  ghost predicate IsChain(types: Types, rows: Rows, obj: nat, roots: seq<Iface>, chain: seq<Link>, i: nat)
  {
    && 0 < |chain|
    && chain[|chain| - 1].id == i
    && (forall k :: 0 <= k < |chain| ==> IsLink(types, rows, obj, chain[k]))
    && chain[0].iface in roots
    && forall k :: 0 < k < |chain| ==> Follows(types, chain[k - 1].iface, chain[k].iface)
  }

  ghost predicate IsLink(types: Types, rows: Rows, obj: nat, l: Link) {
    && l.id in rows
    && rows[l.id].status.Opened?
    && rows[l.id].objectId == obj
    && rows[l.id].typeName == types.Name(l.iface)
  }

  ghost predicate Follows(types: Types, t: Iface, u: Iface) {
    types.OnUpdate(t, Opened, Invalidated).Some? && u in types.OnUpdate(t, Opened, Invalidated).value
  }

  /** Some chain of cancellations leads from a type in `roots` to request `i`. */
  ghost predicate Reachable(types: Types, rows: Rows, obj: nat, roots: seq<Iface>, i: nat) {
    exists chain :: IsChain(types, rows, obj, roots, chain, i)
  }

  /** Cancelling for the type `t` is done: nothing it cancels is left opened. */
  ghost predicate Exhausted(types: Types, rows: Rows, obj: nat, t: Iface) {
    var cancelled := types.OnUpdate(t, Opened, Invalidated);
    cancelled.Some? && NoneOpened(types, rows, obj, cancelled.value)
  }

  /** A chain leads to `i`, and nothing that any of its links cancels is left opened in `end`. */
  ghost predicate JustifiedBy(types: Types, start: Rows, end: Rows, obj: nat, roots: seq<Iface>, chain: seq<Link>,
                              i: nat) {
    && IsChain(types, start, obj, roots, chain, i)
    && forall k :: 0 <= k < |chain| ==> Exhausted(types, end, obj, chain[k].iface)
  }

  ghost predicate Justified(types: Types, start: Rows, end: Rows, obj: nat, roots: seq<Iface>, i: nat) {
    exists chain :: JustifiedBy(types, start, end, obj, roots, chain, i)
  }

  ghost predicate AllJustified(types: Types, start: Rows, end: Rows, obj: nat, roots: seq<Iface>) {
    forall i :: ClosedBetween(start, end, i) ==> Justified(types, start, end, obj, roots, i)
  }

  /** The reason of the cancelled request `i` names the type of the request of link `l`, which was cancelled, too. */
  ghost predicate BlamedOn(types: Types, a: Rows, b: Rows, l: Link, i: nat) {
    && ClosedBetween(a, b, l.id) && i in a && i in b
    && a[l.id].typeName == types.Name(l.iface)
    && types.OnUpdate(l.iface, Opened, Invalidated).Some?
    && types.Names(types.OnUpdate(l.iface, Opened, Invalidated).value, a[i].typeName)
    && b[i].reason == Some(DueTo(a[l.id].typeName))
  }

  /**
   The reason of the cancelled request `i`: `why` if it has a type in `roots` (or the reason from before,
   without any), otherwise that a request was cancelled whose type cancels its type.
   */
  ghost predicate ReasonOf(types: Types, a: Rows, b: Rows, roots: seq<Iface>, why: Option<string>, i: nat) {
    || (i in a && i in b && types.Names(roots, a[i].typeName) && b[i].reason == if why.Some? then why else a[i].reason)
    || exists l :: BlamedOn(types, a, b, l, i)
  }

  ghost predicate Reasoned(types: Types, a: Rows, b: Rows, roots: seq<Iface>, why: Option<string>) {
    forall i :: ClosedBetween(a, b, i) ==> ReasonOf(types, a, b, roots, why, i)
  }

  /** What a complete cascade over `roots` does to the requests of `obj`. */
  ghost predicate Cascaded(types: Types, stamp: Stamp, obj: nat, roots: seq<Iface>, start: Rows, end: Rows) {
    && OnlyInvalidates(stamp, obj, start, end)
    && NoneOpened(types, end, obj, roots)
    && AllJustified(types, start, end, obj, roots)
  }

  // ---------------------------------------------------------------- the cascade as a function

  ghost function IdsOf(rows: Rows, obj: nat, name: string): set<nat> {
    set i | i in rows && rows[i].status.Opened? && rows[i].objectId == obj && rows[i].typeName == name
  }

  /** `names` holds each type name as often as `obj` has opened requests of the type. */
  ghost predicate Counts(rows: Rows, obj: nat, names: multiset<string>) {
    forall name {:trigger IdsOf(rows, obj, name)} :: names[name] == |IdsOf(rows, obj, name)|
  }

  lemma {:induction false} CountsExist(rows: Rows, obj: nat)
    ensures exists names :: Counts(rows, obj, names)
    decreases |rows|
  {
    var names := multiset{};
    if i :| i in rows {
      CountsExist(rows - {i}, obj);
      var others :| Counts(rows - {i}, obj, others);
      forall name
        ensures IdsOf(rows - {i}, obj, name) == IdsOf(rows, obj, name) - {i}
      {
      }
      var row := rows[i];
      names := others + if row.status.Opened? && row.objectId == obj then multiset{row.typeName} else multiset{};
    }
    assert Counts(rows, obj, names);
  }

  /** The numbers of opened requests of `obj`, by type. */
  ghost function Open(rows: Rows, obj: nat): multiset<string> {
    CountsExist(rows, obj);
    var names :| Counts(rows, obj, names);
    names
  }

  /**
   What becomes of the numbers of opened requests when the types of a list are visited in turn;
   `None` when a type refuses. It depends on nothing else: not on ids, not on the order of rows.
   */
  ghost function Sweep(types: Types, open: multiset<string>, ts: seq<Iface>): (left: Option<multiset<string>>)
    ensures left.Some? ==> left.value <= open
    decreases |open|, |ts|
  {
    if ts == [] then Some(open)
    else
      var visited := Visit(types, open, ts[0]);
      if visited.None? then None
      else
        SubmultisetSize(visited.value, open);
        Sweep(types, visited.value, ts[1..])
  }

  /**
   All requests of one type are closed; what the first of them cancels is cancelled while the others are
   still opened.
   */
  ghost function Visit(types: Types, open: multiset<string>, t: Iface): (left: Option<multiset<string>>)
    ensures left.Some? ==> left.value <= open
    decreases |open|, 0
  {
    var name, cancelled := types.Name(t), types.OnUpdate(t, Opened, Invalidated);
    if name !in open then Some(open)
    else if cancelled.None? then None
    else
      var after := Sweep(types, open - multiset{name}, cancelled.value);
      if after.None? then None else Some(after.value[name := 0])
  }

  ghost predicate Swept(types: Types, obj: nat, roots: seq<Iface>, start: Rows, end: Rows) {
    Sweep(types, Open(start, obj), roots) == Some(Open(end, obj))
  }

  // ---------------------------------------------------------------- failures

  ghost predicate RegistrarKnown(env: Env, registrarId: Option<nat>) {
    registrarId.Some? ==> registrarId.value in env.registrars
  }

  function BadRegistrar(registrarId: Option<nat>): Error {
    BadParams(None, None, registrarId, false)
  }

  /** How an update of one request fails: it is refused at once, or a type throws in its cascade. */
  ghost predicate UpdateFails(types: Types, env: Env, rows: Rows, id: nat, t: Iface, p: UpdateParams,
                              logReq: Option<nat>, e: Error) {
    if Refusal(types, env, rows, id, t, p, logReq).Some? then Refusal(types, env, rows, id, t, p, logReq) == Some(e)
    else
      && id in rows && InnerThrow(types, e)
      && Sweep(types, Open(Start(types, env, rows, id, t, p, logReq), rows[id].objectId),
               Roots(types, rows, id, t, p)).None?
  }

  /** None of the types has an opened request. */
  ghost predicate NoneOf(types: Types, open: multiset<string>, ts: seq<Iface>) {
    forall t :: t in ts ==> types.Name(t) !in open
  }

  /**
   How the cancellation of all requests with types in `ts` fails: at the first if the registrar is unknown,
   otherwise because a type throws.
   */
  ghost predicate CancellationFails(types: Types, env: Env, open: multiset<string>, ts: seq<Iface>,
                                    registrarId: Option<nat>, e: Error) {
    if RegistrarKnown(env, registrarId) then InnerThrow(types, e) && Sweep(types, open, ts).None?
    else e == BadRegistrar(registrarId) && !NoneOf(types, open, ts)
  }

  /** Closing one opened request of type `t` fails. */
  ghost predicate Throws(types: Types, t: Iface, open: multiset<string>) {
    var name, cancelled := types.Name(t), types.OnUpdate(t, Opened, Invalidated);
    name in open && (cancelled.None? || Sweep(types, open - multiset{name}, cancelled.value).None?)
  }

  /** How a round of a batch update fails, if the first does. */
  ghost predicate RoundFails(types: Types, env: Env, open: multiset<string>, t: Iface, p: UpdateParams,
                             logReq: Option<nat>, e: Error)
    requires p.status.Some?
  {
    if BadParamsOf(env, p, logReq).Some? then BadParamsOf(env, p, logReq) == Some(e)
    else if p.onStatusAction.Some? then e == DuplicateColumn
    else if types.OnUpdate(t, Opened, p.status.value).None? then e == TypeThrew(t, Opened, p.status.value)
    else
      && InnerThrow(types, e)
      && Sweep(types, open - multiset{types.Name(t)}, types.OnUpdate(t, Opened, p.status.value).value).None?
  }

  /** Parameters an update accepts: a new status that is not opened, known ids, and anything to do. */
  ghost predicate ParamsOk(env: Env, p: UpdateParams, logReq: Option<nat>) {
    && p.status != Some(Opened)
    && !(p.status.Some? && p.onStatusAction.Some?)
    && (forall e: nat :: p.answerEmailId == Some(Some(e)) ==> e in env.emails)
    && (forall g: nat :: p.registrarId == Some(Some(g)) ==> g in env.registrars)
    && (p != UpdateParams(None, None, None, None, None, None) || logReq.Some?)
  }

  /** What an update of one request needs to succeed: a change of status must let its whole cascade succeed. */
  ghost predicate MayUpdate(types: Types, env: Env, rows: Rows, id: nat, t: Iface, p: UpdateParams,
                            logReq: Option<nat>) {
    && id in rows && ParamsOk(env, p, logReq)
    && (p.status.Some? && p.status.value != rows[id].status ==>
         var cancelled := types.OnUpdate(t, rows[id].status, p.status.value);
         && cancelled.Some?
         && (cancelled.value != [] ==> rows[id].objectId in env.objects)
         && Sweep(types, Open(rows - {id}, rows[id].objectId), cancelled.value).Some?)
  }

  /** What an update of all requests of one type needs to succeed; with none opened there is nothing to refuse. */
  ghost predicate MayBatch(types: Types, env: Env, rows: Rows, obj: nat, t: Iface, p: UpdateParams,
                           logReq: Option<nat>)
    requires p.status.Some?
  {
    var name, cancelled := types.Name(t), types.OnUpdate(t, Opened, p.status.value);
    && obj in env.objects && name in env.typeNames
    && (name in Open(rows, obj) ==>
         && ParamsOk(env, p, logReq) && cancelled.Some?
         && Sweep(types, Open(rows, obj) - multiset{name}, cancelled.value).Some?)
  }

  /** Row `b` is row `a`, opened before, after its cancellation by an update or a creation. */
  ghost predicate CancelledRow(now: int, registrarId: Option<Option<nat>>, logReq: Option<nat>, a: Request,
                               b: Request) {
    && a.status.Opened? && b.status.Invalidated? && b.resolveTime == Some(now)
    && b.objectId == a.objectId && b.typeName == a.typeName && b.createRequestId == a.createRequestId
    && b.emailToAnswer == a.emailToAnswer && b.answerEmailId == a.answerEmailId
    && (if registrarId.Some? then b.registrarId == registrarId.value else b.registrarId == a.registrarId)
    && (if logReq.Some? then b.resolveRequestId == logReq else b.resolveRequestId == a.resolveRequestId)
  }

  /**
   What a successful update leaves: its parameters in the row it names, nothing opened that the change of
   status cancels, and all other requests as they were or, only after a change of status, cancelled.
   */
  ghost predicate UpdateOutcome(types: Types, env: Env, a: Rows, b: Rows, id: nat, t: Iface, p: UpdateParams,
                                logReq: Option<nat>) {
    && id in a && a.Keys == b.Keys
    && Written(types, env, a[id], b[id], t, p, logReq)
    && (p.status.Some? && p.status.value != a[id].status ==>
         var cancelled := types.OnUpdate(t, a[id].status, p.status.value);
         cancelled.Some? && NoneOpened(types, b, a[id].objectId, cancelled.value))
    && (forall i :: i in a && i != id && b[i] != a[i] ==>
         && p.status.Some? && p.status.value != a[id].status && a[i].objectId == a[id].objectId
         && CancelledRow(env.now, p.registrarId, logReq, a[i], b[i]))
  }

  /**
   What a successful creation leaves: the row itself, nothing else opened that the type cancels, and all other
   requests as they were or cancelled.
   */
  ghost predicate CreationOutcome(types: Types, env: Env, a: Rows, b: Rows, obj: nat, t: Iface, id: nat,
                                  row: Request) {
    && b.Keys == a.Keys + {id} && id !in a && b[id] == row
    && types.OnCreate(t).Some?
    && (forall i :: i in a && b[i].status.Opened? && b[i].objectId == obj ==>
         !types.Names(types.OnCreate(t).value, b[i].typeName))
    && (forall i :: i in a && b[i] != a[i] ==>
         && a[i].objectId == obj
         && CancelledRow(env.now, if row.registrarId.Some? then Some(row.registrarId) else None, row.createRequestId,
                         a[i], b[i]))
  }

  /**
   How a creation fails, in the order of its checks; an unknown registrar is noticed first by the update that
   cancels a request.
   */
  ghost predicate CreationFails(types: Types, env: Env, rows: Rows, obj: nat, t: Iface, email: Option<string>,
                                registrarId: Option<nat>, e: Error) {
    if obj !in env.objects then e == ObjectDoesntExist(obj)
    else if types.OnCreate(t).None? then e == CreateTypeThrew(t)
    else if !RegistrarKnown(env, registrarId) && !NoneOf(types, Open(rows, obj), types.OnCreate(t).value) then
      e == BadRegistrar(registrarId)
    else if Sweep(types, Open(rows, obj), types.OnCreate(t).value).None? then InnerThrow(types, e)
    else if email.Some? && !env.wellFormedEmail(email.value) then e == WrongEmail(email.value)
    else if !RegistrarKnown(env, registrarId) then e == UnknownRegistrar(registrarId.value)
    else types.Name(t) !in env.typeNames && e == UnknownType(types.Name(t))
  }

  /** What a creation needs to succeed. */
  ghost predicate MayCreate(types: Types, env: Env, rows: Rows, obj: nat, t: Iface, email: Option<string>,
                            registrarId: Option<nat>) {
    && obj in env.objects
    && types.Name(t) in env.typeNames
    && (email.Some? ==> env.wellFormedEmail(email.value))
    && (registrarId.Some? ==> registrarId.value in env.registrars)
    && types.OnCreate(t).Some? && Sweep(types, Open(rows, obj), types.OnCreate(t).value).Some?
  }

  // ---------------------------------------------------------------- letters

  predicate Pending(s: LetterStatus) {
    s.Ready? || s.SendFailed?
  }

  /** Letter `l` belongs to a request that went from opened to invalidated. */
  ghost predicate StopDue(messages: set<(nat, nat)>, a: Rows, b: Rows, l: nat) {
    exists i :: i in a && i in b && a[i].status.Opened? && b[i].status.Invalidated? && (i, l) in messages
  }

  /** Exactly the pending letters of the requests invalidated between `a` and `b` are taken out of processing. */
  ghost predicate LettersStopped(messages: set<(nat, nat)>, a: Rows, b: Rows, la: Letters, lb: Letters) {
    && la.Keys == lb.Keys
    && forall l :: l in la ==> lb[l] == if Pending(la[l]) && StopDue(messages, a, b, l) then NoProcessing else la[l]
  }

  // ---------------------------------------------------------------- the invariant of the tables

  /** Opened is the same as "resolve_time is unset", and ids are drawn from a sequence. */
  ghost predicate ValidRows(rows: Rows, nextId: nat) {
    forall i :: i in rows ==> i < nextId && (rows[i].status.Opened? <==> rows[i].resolveTime.None?)
  }

  // ---------------------------------------------------------------- steps of the state machine

  /** A row of public_request_auth. */
  datatype Auth = Auth(identification: string, password: string)

  datatype Tables = Tables(rows: Rows, letters: Letters, messages: set<(nat, nat)>, nextId: nat)

  /** A successful update of one request. */
  ghost predicate UpdateStep(types: Types, env: Env, a: Tables, b: Tables, id: nat, t: Iface, p: UpdateParams,
                             logReq: Option<nat>) {
    && Refusal(types, env, a.rows, id, t, p, logReq).None?
    && id in a.rows && id in b.rows
    && Cascaded(types, StampOf(types, env, p, logReq), a.rows[id].objectId, Roots(types, a.rows, id, t, p),
                Start(types, env, a.rows, id, t, p, logReq), b.rows)
    && Swept(types, a.rows[id].objectId, Roots(types, a.rows, id, t, p),
             Start(types, env, a.rows, id, t, p, logReq), b.rows)
    && Reasoned(types, Start(types, env, a.rows, id, t, p, logReq), b.rows, Roots(types, a.rows, id, t, p),
                Some(DueTo(a.rows[id].typeName)))
    && b.rows[id] == Start(types, env, a.rows, id, t, p, logReq)[id]
    && LettersStopped(a.messages, a.rows, b.rows, a.letters, b.letters)
    && b.messages == a.messages && b.nextId == a.nextId
  }

  /**
   How far a batch update has come: `affected` are the requests it updated itself, one after another,
   every other request it closed was cancelled.
   */
  ghost predicate InBatch(types: Types, env: Env, a: Rows, b: Rows, obj: nat, t: Iface, p: UpdateParams,
                          logReq: Option<nat>, affected: seq<nat>) {
    && p.status.Some?
    && (forall k, l :: 0 <= k < l < |affected| ==> affected[k] != affected[l])
    && BatchRows(types, env, a, b, obj, t, p, logReq, affected)
    && BatchJustified(types, a, b, obj, BatchRoots(types, t, p), affected)
    && BatchReasoned(types, a, b, BatchRoots(types, t, p), Some(DueTo(types.Name(t))), affected)
    && (affected != [] ==> p.status.value != Opened && NoneOpened(types, b, obj, BatchRoots(types, t, p)))
  }

  ghost predicate BatchRows(types: Types, env: Env, a: Rows, b: Rows, obj: nat, t: Iface, p: UpdateParams,
                            logReq: Option<nat>, affected: seq<nat>) {
    && a.Keys == b.Keys
    && (forall i :: i in affected ==> i in a && BatchRow(types, env, a[i], b[i], obj, t, p, logReq))
    && (forall i :: i in a && i !in affected ==>
         b[i] == a[i] || (a[i].objectId == obj && InvalidatedBy(StampOf(types, env, p, logReq), a[i], b[i])))
  }

  /** `b` is a request the batch itself has updated from `a`. */
  ghost predicate BatchRow(types: Types, env: Env, a: Request, b: Request, obj: nat, t: Iface, p: UpdateParams,
                           logReq: Option<nat>) {
    a.status.Opened? && a.objectId == obj && a.typeName == types.Name(t) && Written(types, env, a, b, t, p, logReq)
  }

  ghost predicate BatchJustified(types: Types, a: Rows, b: Rows, obj: nat, roots: seq<Iface>, affected: seq<nat>) {
    forall i :: ClosedBetween(a, b, i) && i !in affected ==> Justified(types, a, b, obj, roots, i)
  }

  ghost predicate BatchReasoned(types: Types, a: Rows, b: Rows, roots: seq<Iface>, why: Option<string>,
                                affected: seq<nat>) {
    forall i :: ClosedBetween(a, b, i) && i !in affected ==> ReasonOf(types, a, b, roots, why, i)
  }

  ghost function BatchRoots(types: Types, t: Iface, p: UpdateParams): seq<Iface>
    requires p.status.Some?
  {
    var cancelled := types.OnUpdate(t, Opened, p.status.value);
    if cancelled.Some? then cancelled.value else []
  }

  /**
   The numbers that a batch leaves opened: its first update brings what the type cancels, while the other
   requests of the type are still opened; in the end none of the type is.
   */
  ghost predicate BatchSwept(types: Types, open: multiset<string>, name: string, cancelled: seq<Iface>,
                             left: multiset<string>) {
    if name !in open then left == open
    else
      var after := Sweep(types, open - multiset{name}, cancelled);
      after.Some? && left == after.value[name := 0]
  }

  /** A successful update of all opened requests of one object and type. */
  ghost predicate BatchStep(types: Types, env: Env, a: Tables, b: Tables, obj: nat, t: Iface, p: UpdateParams,
                            logReq: Option<nat>, affected: seq<nat>) {
    && InBatch(types, env, a.rows, b.rows, obj, t, p, logReq, affected)
    && (forall i :: i in b.rows && b.rows[i].objectId == obj && b.rows[i].typeName == types.Name(t) ==>
         !b.rows[i].status.Opened?)
    && BatchSwept(types, Open(a.rows, obj), types.Name(t), BatchRoots(types, t, p), Open(b.rows, obj))
    && LettersStopped(a.messages, a.rows, b.rows, a.letters, b.letters)
    && b.messages == a.messages && b.nextId == a.nextId
  }

  /** The stamp of the cancellations that precede the creation of `row`. */
  function CreateStamp(types: Types, env: Env, row: Request): Stamp {
    Stamp(types, env.now, if row.registrarId.Some? then Some(row.registrarId) else None, row.createRequestId)
  }

  /** A successful creation, by either path. */
  ghost predicate CreateStep(types: Types, env: Env, a: Tables, b: Tables, obj: nat, t: Iface, id: nat, row: Request) {
    && types.OnCreate(t).Some?
    && id == a.nextId && b.nextId == id + 1
    && id in b.rows && b.rows[id] == row
    && Cascaded(types, CreateStamp(types, env, row), obj, types.OnCreate(t).value, a.rows, b.rows - {id})
    && Swept(types, obj, types.OnCreate(t).value, a.rows, b.rows - {id})
    && Reasoned(types, a.rows, b.rows - {id}, types.OnCreate(t).value, None)
    && LettersStopped(a.messages, a.rows, b.rows - {id}, a.letters, b.letters)
    && b.messages == a.messages
  }
}
