/**
 The tables of registrable objects: the live rows, the registry that names them, their history, and
 the passwords that authorise transfers.
 */
module RegistryModel {
  import opened Prelude

  /** A row of object; its id is its key in the table. */
  datatype Object = Object(clid: nat, upid: Option<nat>, trdate: Option<int>, update: Option<int>)

  /** A row of object_registry. */
  datatype Registered = Registered(
    typeName: string, name: string, erdate: Option<int>, historyId: Option<nat>, createdHistoryId: Option<nat>)

  /** A row of history together with the row of object_history it names, if there is one. */
  datatype HistoryEntry = HistoryEntry(requestId: Option<nat>, snapshot: Option<Snapshot>)

  datatype Snapshot = Snapshot(objectId: nat, row: Object)

  /** A row of object_authinfo; `password` is the stored, encrypted one. */
  datatype Authinfo = Authinfo(
    objectId: nat, registrarId: nat, password: Option<string>, createdAt: int, expiresAt: int, canceledAt: Option<int>,
    useCount: nat)

  datatype MatchResult = Correct | Incorrect | Unsupported

  /** The tables that are only read, the clock, and the functions this model does not look into. */
  datatype Env = Env(
    now: int,
    registrars: map<string, nat>,
    objectTypes: set<string>,
    fold: (string, string) -> string,
    matches: (string, string) -> MatchResult,
    authinfoTtl: int)

  datatype Error =
    | UnknownRegistrar
    | UnknownObjectId
    | UnknownObjectHandle(handle: string)
    | InvalidObjectHandle(handle: string)
    | NewRegistrarIsAlreadySponsoring
    | IncorrectAuthInfoPw
    | InvalidTtl
    | InternalError

  type Objects = map<nat, Object>
  type Registry = map<nat, Registered>
  type History = map<nat, HistoryEntry>
  type Authinfos = seq<Authinfo>

  datatype Tables = Tables(
    objects: Objects, registry: Registry, history: History, authinfos: Authinfos, nextObject: nat, nextHistory: nat)

  // ---------------------------------------------------------------- passwords

  /** The password has been neither cancelled nor replaced. */
  predicate Live(a: Authinfo) {
    a.canceledAt.None? && a.password.Some? && a.password.value != ""
  }

  predicate ValidAt(a: Authinfo, now: int) {
    Live(a) && now < a.expiresAt
  }

  function MatchOf(env: Env, a: Authinfo, p: string): MatchResult {
    if a.password.Some? then env.matches(p, a.password.value) else Incorrect
  }

  /** Row `a` is a valid password of `obj`, and `p` fits it. */
  predicate Fits(env: Env, a: Authinfo, obj: nat, p: string) {
    a.objectId == obj && ValidAt(a, env.now) && MatchOf(env, a, p).Correct?
  }

  ghost predicate SomeFits(env: Env, rows: Authinfos, obj: nat, p: string) {
    exists i :: 0 <= i < |rows| && Fits(env, rows[i], obj, p)
  }

  /** Some valid password of `obj` is stored in a form that cannot be checked. */
  ghost predicate SomeUnsupported(env: Env, rows: Authinfos, obj: nat, p: string) {
    exists i :: && 0 <= i < |rows| && rows[i].objectId == obj && ValidAt(rows[i], env.now)
                && MatchOf(env, rows[i], p).Unsupported?
  }

  function Cancelled(a: Authinfo, now: int): Authinfo {
    a.(password := None, canceledAt := Some(now))
  }

  /** What checking `p` against the passwords of `obj` does to one row. */
  function VisitedRow(env: Env, a: Authinfo, obj: nat, p: string, cancel: bool): Authinfo {
    if !Fits(env, a, obj, p) then a
    else
      var used := a.(useCount := a.useCount + 1);
      if cancel then Cancelled(used, env.now) else used
  }

  function Visited(env: Env, rows: Authinfos, obj: nat, p: string, cancel: bool): (out: Authinfos)
    ensures |out| == |rows| && forall i :: 0 <= i < |rows| ==> out[i] == VisitedRow(env, rows[i], obj, p, cancel)
  {
    seq(|rows|, i requires 0 <= i < |rows| => VisitedRow(env, rows[i], obj, p, cancel))
  }

  function Deactivated(rows: Authinfos, obj: nat, registrar: nat): (out: Authinfos)
    ensures |out| == |rows|
    ensures forall i :: 0 <= i < |rows| ==>
      out[i] == if rows[i].objectId == obj && rows[i].registrarId == registrar && Live(rows[i])
                then rows[i].(password := Some("")) else rows[i]
  {
    seq(|rows|, i requires 0 <= i < |rows| =>
      if rows[i].objectId == obj && rows[i].registrarId == registrar && Live(rows[i])
      then rows[i].(password := Some("")) else rows[i])
  }

  function Cleaned(rows: Authinfos, obj: nat, now: int): (out: Authinfos)
    ensures |out| == |rows|
    ensures forall i :: 0 <= i < |rows| ==>
      out[i] == if rows[i].objectId == obj && ValidAt(rows[i], now) then Cancelled(rows[i], now) else rows[i]
  {
    seq(|rows|, i requires 0 <= i < |rows| =>
      if rows[i].objectId == obj && ValidAt(rows[i], now) then Cancelled(rows[i], now) else rows[i])
  }

  function CleanedExpired(rows: Authinfos, now: int): (out: Authinfos)
    ensures |out| == |rows|
    ensures forall i :: 0 <= i < |rows| ==>
      out[i] == if Live(rows[i]) && rows[i].expiresAt <= now then Cancelled(rows[i], now) else rows[i]
  {
    seq(|rows|, i requires 0 <= i < |rows| =>
      if Live(rows[i]) && rows[i].expiresAt <= now then Cancelled(rows[i], now) else rows[i])
  }

  function Stored(env: Env, rows: Authinfos, obj: nat, registrar: nat, ttl: int, encrypted: string): Authinfos {
    Deactivated(rows, obj, registrar) + [Authinfo(obj, registrar, Some(encrypted), env.now, env.now + ttl, None, 0)]
  }

  /** Row `b` is the password `a` after `p` was checked against the passwords of `obj`. */
  ghost predicate Checked(env: Env, a: Authinfo, b: Authinfo, obj: nat, p: string, cancel: bool) {
    if a.objectId == obj && a.canceledAt.None? && a.password.Some? && a.password.value != "" && env.now < a.expiresAt
       && env.matches(p, a.password.value).Correct?
    then b == Authinfo(a.objectId, a.registrarId, if cancel then None else a.password, a.createdAt, a.expiresAt,
                       if cancel then Some(env.now) else None, a.useCount + 1)
    else b == a
  }

  /** Row `b` is the password `a`, cancelled if it is neither cancelled nor replaced and `chosen`. */
  ghost predicate CanceledIf(a: Authinfo, b: Authinfo, chosen: bool, now: int) {
    if chosen && a.canceledAt.None? && a.password.Some? && a.password.value != ""
    then b == Authinfo(a.objectId, a.registrarId, None, a.createdAt, a.expiresAt, Some(now), a.useCount)
    else b == a
  }

  /** The rows of `obj` that `p` fits. */
  ghost function FittingRows(env: Env, rows: Authinfos, obj: nat, p: string, n: nat): set<nat>
    requires n <= |rows|
  {
    set i: nat | i < n && Fits(env, rows[i], obj, p)
  }

  // ---------------------------------------------------------------- names

  /** Exactly one object of the type is registered under the handle and not erased, namely `id`. */
  ghost predicate IsNamed(env: Env, registry: Registry, typeName: string, handle: string, id: nat) {
    forall k: nat ::
      (&& k in registry && registry[k].typeName == typeName && registry[k].name == env.fold(typeName, handle)
       && registry[k].erdate.None?) <==> k == id
  }

  /** The registered objects of a type that have this name and are not erased. */
  function Find(env: Env, registry: Registry, typeName: string, handle: string): set<nat> {
    set id | && id in registry && registry[id].typeName == typeName && registry[id].name == env.fold(typeName, handle)
             && registry[id].erdate.None?
  }

  predicate IsRegistered(registry: Registry, id: nat) {
    id in registry && registry[id].erdate.None?
  }

  /** The contacts of the set whose handle leads to the owner of row `a`, when `p` fits that row. */
  function Users(env: Env, registry: Registry, a: Authinfo, p: string, contacts: set<string>): set<string> {
    set h | h in contacts && Find(env, registry, "contact", h) == {a.objectId} && Fits(env, a, a.objectId, p)
  }

  /** The passwords after every contact of the set was checked, one after another. */
  function VisitedByContacts(env: Env, registry: Registry, rows: Authinfos, p: string,
                             contacts: set<string>): (out: Authinfos)
    ensures |out| == |rows|
    ensures forall i :: 0 <= i < |rows| ==>
      out[i] == rows[i].(useCount := rows[i].useCount + |Users(env, registry, rows[i], p, contacts)|)
  {
    seq(|rows|, i requires 0 <= i < |rows| =>
      rows[i].(useCount := rows[i].useCount + |Users(env, registry, rows[i], p, contacts)|))
  }

  /** The contact behind the handle has a valid password that `p` fits. */
  ghost predicate Authorizes(env: Env, registry: Registry, rows: Authinfos, p: string, handle: string) {
    exists id :: Find(env, registry, "contact", handle) == {id} && SomeFits(env, rows, id, p)
  }

  /**
   A handle that names more than one contact, or a contact with a password stored in a form that cannot be
   checked.
   */
  ghost predicate Uncheckable(env: Env, registry: Registry, rows: Authinfos, p: string, handle: string) {
    var ids := Find(env, registry, "contact", handle);
    (ids != {} && forall id :: ids != {id}) || exists id :: ids == {id} && SomeUnsupported(env, rows, id, p)
  }

  // ---------------------------------------------------------------- history

  /** InsertHistory::exec: a new history row with a copy of the object's row, if the object has one. */
  function WithSnapshot(history: History, id: nat, requestId: Option<nat>, objects: Objects, obj: nat): History {
    history[id := HistoryEntry(requestId, if obj in objects then Some(Snapshot(obj, objects[obj])) else None)]
  }

  /**
   The invariant of the tables: an object is live exactly while it is registered and not erased, and
   then the history row its registry row names is a copy of it; ids come from sequences.
   */
  ghost predicate Valid(t: Tables) {
    && (forall id :: id in t.registry ==> (t.registry[id].erdate.None? <==> id in t.objects))
    && (forall id :: id in t.objects ==> HeadAgrees(t, id))
    && (forall id :: id in t.registry ==> 0 < id < t.nextObject)
    && (forall h :: h in t.history ==> h < t.nextHistory)
    && 0 < t.nextObject
  }

  ghost predicate HeadAgrees(t: Tables, id: nat) {
    && id in t.objects && id in t.registry
    && t.registry[id].historyId.Some?
    && t.registry[id].historyId.value in t.history
    && t.history[t.registry[id].historyId.value].snapshot == Some(Snapshot(id, t.objects[id]))
  }

  /** No object has two live passwords stored by the same registrar. */
  ghost predicate OneLivePerRegistrar(rows: Authinfos) {
    forall i, j :: 0 <= i < j < |rows| && Live(rows[i]) && Live(rows[j]) ==>
      rows[i].objectId != rows[j].objectId || rows[i].registrarId != rows[j].registrarId
  }

  // ---------------------------------------------------------------- steps

  ghost predicate CreateStep(env: Env, a: Tables, b: Tables, typeName: string, handle: string, registrar: nat,
                             requestId: Option<nat>) {
    var id, h := a.nextObject, a.nextHistory;
    && b.objects == a.objects[id := Object(registrar, None, None, None)]
    && b.registry == a.registry[id := Registered(typeName, env.fold(typeName, handle), None, Some(h), Some(h))]
    && b.history == WithSnapshot(a.history, h, requestId, b.objects, id)
    && b.authinfos == a.authinfos && b.nextObject == id + 1 && b.nextHistory == h + 1
  }

  /** The common end of an update and of a transfer: the changed row is copied into a new history entry. */
  ghost predicate Rewrites(a: Tables, b: Tables, obj: nat, row: Object, requestId: Option<nat>) {
    && obj in a.objects && obj in a.registry
    && b.objects == a.objects[obj := row]
    && b.registry == a.registry[obj := a.registry[obj].(historyId := Some(a.nextHistory))]
    && b.history == WithSnapshot(a.history, a.nextHistory, requestId, b.objects, obj)
    && b.nextHistory == a.nextHistory + 1 && b.nextObject == a.nextObject
  }

  ghost predicate UpdateStep(env: Env, a: Tables, b: Tables, obj: nat, registrar: nat, encrypted: Option<string>,
                             requestId: Option<nat>) {
    && IsRegistered(a.registry, obj) && obj in a.objects
    && Rewrites(a, b, obj, a.objects[obj].(update := Some(env.now), upid := Some(registrar)), requestId)
    && (encrypted.Some? ==> encrypted.value != "" && 0 < env.authinfoTtl)
    && b.authinfos == if encrypted.None? then a.authinfos
                      else Stored(env, a.authinfos, obj, registrar, env.authinfoTtl, encrypted.value)
  }

  /** The passwords after a successful transfer with `p`. */
  ghost function Transferred(env: Env, a: Tables, obj: nat, p: string, contacts: set<string>): Authinfos {
    var checked := VisitedByContacts(env, a.registry, Visited(env, a.authinfos, obj, p, true), p, contacts);
    if SomeFits(env, a.authinfos, obj, p) then checked else Cleaned(checked, obj, env.now)
  }

  /** `p` opens the object, or one of the enabled contacts. */
  ghost predicate Authorized(env: Env, a: Tables, obj: nat, p: string, contacts: set<string>) {
    || SomeFits(env, a.authinfos, obj, p)
    || exists h :: h in contacts && Authorizes(env, a.registry, Visited(env, a.authinfos, obj, p, true), p, h)
  }

  /** Nothing that has to be checked for a transfer is broken. */
  ghost predicate Checkable(env: Env, a: Tables, obj: nat, p: string, contacts: set<string>) {
    && !SomeUnsupported(env, a.authinfos, obj, p)
    && forall h :: h in contacts ==> !Uncheckable(env, a.registry, Visited(env, a.authinfos, obj, p, true), p, h)
  }

  ghost predicate TransferStep(env: Env, a: Tables, b: Tables, obj: nat, registrar: nat, p: string,
                               contacts: set<string>, requestId: Option<nat>) {
    && IsRegistered(a.registry, obj) && obj in a.objects && a.objects[obj].clid != registrar
    && Authorized(env, a, obj, p, contacts)
    && Rewrites(a, b, obj, a.objects[obj].(trdate := Some(env.now), clid := registrar), requestId)
    && b.authinfos == Transferred(env, a, obj, p, contacts)
  }

  ghost predicate DeleteStep(env: Env, a: Tables, b: Tables, obj: nat) {
    && IsRegistered(a.registry, obj) && obj in a.objects
    && b == a.(registry := a.registry[obj := a.registry[obj].(erdate := Some(env.now))], objects := a.objects - {obj})
  }
}
