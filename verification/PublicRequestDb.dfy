/**
 The operations that change public requests: UpdatePublicRequest, CreatePublicRequest and
 CreatePublicRequestAuth, as methods over the tables they change.
 */
module PublicRequestDb {
  import opened Prelude
  import opened PublicRequestModel
  import opened PublicRequestSweep
  import opened PublicRequestSteps

  class Database {
    const types: Types
    var rows: Rows
    var letters: Letters
    var messages: set<(nat, nat)>
    var auths: map<nat, Auth>
    var nextId: nat

    ghost function Tables(): Tables
      reads this
    {
      PublicRequestModel.Tables(rows, letters, messages, nextId)
    }

    ghost predicate Valid()
      reads this
    {
      ValidRows(rows, nextId)
    }

    constructor (types: Types)
      ensures Valid() && this.types == types && rows == map[] && letters == map[] && messages == {} && auths == map[]
    {
      this.types := types;
      rows, letters, messages, auths, nextId := map[], map[], {}, map[], 0;
    }

    /** The measure of the recursion: opened requests, plus one for a closed target that still has to change. */
    static ghost function Measure(rows: Rows, id: nat, p: UpdateParams): nat {
      |OpenedIds(rows)| +
      if id in rows && p.status.Some? && !rows[id].status.Opened? && rows[id].status != p.status.value then 1 else 0
    }

    method StopLetterSending(id: nat)
      modifies `letters
      ensures letters.Keys == old(letters).Keys
      ensures forall l :: l in letters ==>
        letters[l] == if Pending(old(letters)[l]) && id in rows && rows[id].status.Opened? && (id, l) in messages
                      then NoProcessing else old(letters)[l]
    {
      var open := id in rows && rows[id].status.Opened?;
      letters := map l | l in letters ::
        if Pending(letters[l]) && open && (id, l) in messages then NoProcessing else letters[l];
    }

    /** SELECT of the opened requests of one object and type, in the order the database happens to return. */
    method SelectOpened(obj: nat, name: string) returns (ids: seq<nat>)
      ensures forall i :: i in ids <==>
        i in rows && rows[i].status.Opened? && rows[i].objectId == obj && rows[i].typeName == name
    {
      ids := [];
      var todo := set i | i in rows && rows[i].status.Opened? && rows[i].objectId == obj && rows[i].typeName == name;
      ghost var all := todo;
      while todo != {}
        invariant todo <= all
        invariant forall i :: i in ids <==> i in all && i !in todo
      {
        var i :| i in todo;
        ids := ids + [i];
        todo := todo - {i};
      }
    }

    /** The UPDATE statement of UpdatePublicRequest::update and the checks before it. */
    method Rewrite(env: Env, id: nat, t: Iface, p: UpdateParams, logReq: Option<nat>) returns (r: Result<Status, Error>)
      modifies `rows, `letters
      ensures r.Failure? ==> Refusal(types, env, old(rows), id, t, p, logReq) == Some(r.error)
      ensures r.Success? ==>
        && BadParamsOf(env, p, logReq).None?
        && !(p.status.Some? && p.onStatusAction.Some?)
        && id in old(rows)
        && r.value == old(rows)[id].status
        && rows == Start(types, env, old(rows), id, t, p, logReq)
        && rows == old(rows)[id := rows[id]] && Written(types, env, old(rows)[id], rows[id], t, p, logReq)
        && LettersStopped(messages, old(rows), rows, old(letters), letters)
    {
      if p.status == Some(Invalidated) {
        StopLetterSending(id);
      }
      var bad := BadParamsOf(env, p, logReq);
      if bad.Some? {
        return Failure(bad.value);
      }
      if p.status.Some? && p.onStatusAction.Some? {
        return Failure(DuplicateColumn);
      }
      if id !in rows {
        return Failure(RequestDoesntExist(id));
      }
      r := Success(rows[id].status);
      rows := rows[id := Updated(rows[id], p, s => types.Action(t, s), logReq, env.now)];
      UpdateWrites(types, env, old(rows)[id], t, p, logReq);
      LettersOfOneRow(messages, old(rows), rows, id, old(letters), letters);
    }

    /** UpdatePublicRequest::update. On failure the tables are left as they are: the caller's transaction rolls back. */
    method Update(env: Env, id: nat, t: Iface, p: UpdateParams, logReq: Option<nat>) returns (r: Result<nat, Error>)
      modifies `rows, `letters
      ensures r.Failure? ==> UpdateFails(types, env, old(rows), id, t, p, logReq, r.error)
      ensures r.Success? ==>
        && Refusal(types, env, old(rows), id, t, p, logReq).None?
        && id in old(rows)
        && r.value == id
        && Cascaded(types, StampOf(types, env, p, logReq), old(rows)[id].objectId, Roots(types, old(rows), id, t, p),
                    Start(types, env, old(rows), id, t, p, logReq), rows)
        && Swept(types, old(rows)[id].objectId, Roots(types, old(rows), id, t, p),
                 Start(types, env, old(rows), id, t, p, logReq), rows)
        && Reasoned(types, Start(types, env, old(rows), id, t, p, logReq), rows, Roots(types, old(rows), id, t, p),
                    Some(DueTo(old(rows)[id].typeName)))
        && rows[id] == Start(types, env, old(rows), id, t, p, logReq)[id]
        && Written(types, env, old(rows)[id], rows[id], t, p, logReq)
        && LettersStopped(messages, old(rows), rows, old(letters), letters)
      decreases Measure(rows, id, p), 1
    {
      var rewritten := Rewrite(env, id, t, p, logReq);
      if rewritten.Failure? {
        return Failure(rewritten.error);
      }
      ghost var start, startLetters := rows, letters;
      UpdatedStatus(old(rows)[id], p, s => types.Action(t, s), logReq, env.now);
      var failed := CancelDue(env, id, t, p, logReq, rewritten.value, old(rows));
      if failed.Some? {
        return Failure(failed.value);
      }
      UpdateLetters(types, env, old(Tables()), start, startLetters, Tables(), id, t, p, logReq);
      return Success(id);
    }

    /** The second half of UpdatePublicRequest::update: what the change of status of the row just written cancels. */
    method CancelDue(env: Env, id: nat, t: Iface, p: UpdateParams, logReq: Option<nat>, oldStatus: Status,
                     ghost before: Rows)
      returns (failed: Option<Error>)
      requires id in before && rows == Start(types, env, before, id, t, p, logReq)
      requires BadParamsOf(env, p, logReq).None? && !(p.status.Some? && p.onStatusAction.Some?)
      requires oldStatus == before[id].status
      modifies `rows, `letters
      ensures failed.Some? ==> UpdateFails(types, env, before, id, t, p, logReq, failed.value)
      ensures failed.None? ==>
        && Refusal(types, env, before, id, t, p, logReq).None?
        && Cascaded(types, StampOf(types, env, p, logReq), before[id].objectId, Roots(types, before, id, t, p),
                    old(rows), rows)
        && Swept(types, before[id].objectId, Roots(types, before, id, t, p), old(rows), rows)
        && Reasoned(types, old(rows), rows, Roots(types, before, id, t, p), Some(DueTo(before[id].typeName)))
        && rows[id] == old(rows)[id]
        && LettersStopped(messages, old(rows), rows, old(letters), letters)
      decreases Measure(before, id, p), 0
    {
      var obj := rows[id].objectId;
      UpdatedStatus(before[id], p, s => types.Action(t, s), logReq, env.now);
      NothingCascades(types, StampOf(types, env, p, logReq), obj, rows);
      if p.status.None? || p.status.value == oldStatus {
        return None;
      }
      var cancelled := types.OnUpdate(t, oldStatus, p.status.value);
      if cancelled.None? {
        return Some(TypeThrew(t, oldStatus, p.status.value));
      }
      if cancelled.value == [] {
        return None;
      }
      if obj !in env.objects {
        return Some(ObjectDoesntExist(obj));
      }
      var reason := DueTo(rows[id].typeName);
      var invalidate := UpdateParams(Some(Invalidated), Some(Some(reason)), None, None, p.registrarId, None);
      MeasureDrops(before, rows, id, p);
      failed := CancelOpened(env, obj, cancelled.value, invalidate, logReq);
    }

    /**
     The loops over the types to cancel and over the requests selected for each of them, which
     UpdatePublicRequest::update and CreatePublicRequest::cancel_on_create have in common.
     */
    method CancelOpened(env: Env, obj: nat, ts: seq<Iface>, p: UpdateParams,
                        logReq: Option<nat>)
      returns (failed: Option<Error>)
      requires Invalidates(p) && obj in env.objects
      modifies `rows, `letters
      ensures failed.Some? ==>
        CancellationFails(types, env, Open(old(rows), obj), ts, Registrar(p), failed.value)
      ensures failed.None? ==>
        && (RegistrarKnown(env, Registrar(p)) || NoneOf(types, Open(old(rows), obj), ts))
        && Cascaded(types, StampOf(types, env, p, logReq), obj, ts, old(rows), rows)
        && Swept(types, obj, ts, old(rows), rows)
        && Reasoned(types, old(rows), rows, ts, Why(p))
        && LettersStopped(messages, old(rows), rows, old(letters), letters)
      decreases |OpenedIds(rows)|, 4
    {
      ghost var start, startLetters := rows, letters;
      NothingCascades(types, StampOf(types, env, p, logReq), obj, start);
      for k := 0 to |ts|
        invariant InProgress(types, StampOf(types, env, p, logReq), obj, ts, Why(p), start, rows)
        invariant SweptUpTo(types, obj, ts, k, start, rows)
        invariant !RegistrarKnown(env, Registrar(p)) ==>
          Open(rows, obj) == Open(start, obj) && NoneOf(types, Open(start, obj), ts[..k])
        invariant LettersStopped(messages, start, rows, startLetters, letters)
      {
        MeasureShrinks(StampOf(types, env, p, logReq), obj, start, rows);
        ghost var mid := rows;
        failed := CancelType(env, obj, ts, ts[k], p, logReq, start, startLetters);
        if failed.Some? {
          if RegistrarKnown(env, Registrar(p)) {
            SweepThrows(types, obj, ts, k, start, mid);
          }
          return;
        }
        SweepGoesOn(types, obj, ts, k, start, mid, rows);
      }
      SweepCompletes(types, StampOf(types, env, p, logReq), obj, ts, Why(p), start, rows);
      return None;
    }

    /** The inner loop: the requests of one type are selected first and then cancelled one by one. */
    method CancelType(env: Env, obj: nat, ghost ts: seq<Iface>, t: Iface, p: UpdateParams, logReq: Option<nat>,
                      ghost start: Rows, ghost startLetters: Letters)
      returns (failed: Option<Error>)
      requires Invalidates(p) && obj in env.objects && t in ts
      requires InProgress(types, StampOf(types, env, p, logReq), obj, ts, Why(p), start, rows)
      requires LettersStopped(messages, start, rows, startLetters, letters)
      modifies `rows, `letters
      ensures failed.Some? && RegistrarKnown(env, Registrar(p)) ==>
        InnerThrow(types, failed.value) && Visit(types, Open(old(rows), obj), t).None?
      ensures !RegistrarKnown(env, Registrar(p)) ==>
        if types.Name(t) in Open(old(rows), obj) then failed == Some(BadRegistrar(Registrar(p))) else failed.None?
      ensures failed.None? ==>
        && InProgress(types, StampOf(types, env, p, logReq), obj, ts, Why(p), start, rows)
        && OnlyCloses(old(rows), rows)
        && StillToVisit(types, rows, obj, t, [])
        && Visit(types, Open(old(rows), obj), t) == Some(Open(rows, obj))
        && LettersStopped(messages, start, rows, startLetters, letters)
      decreases |OpenedIds(rows)|, 3
    {
      var ids := SelectOpened(obj, types.Name(t));
      ghost var selected := rows;
      TypeBegins(types, StampOf(types, env, p, logReq), obj, t, start, rows, ids);
      for j := 0 to |ids|
        invariant InProgress(types, StampOf(types, env, p, logReq), obj, ts, Why(p), start, rows)
        invariant VisitingType(types, obj, t, selected, rows, ids[j..])
        invariant j > 0 ==> RegistrarKnown(env, Registrar(p))
        invariant LettersStopped(messages, start, rows, startLetters, letters)
      {
        OpenedShrink(selected, rows);
        ghost var mid := rows;
        var x := CancelOne(env, obj, ts, t, ids[j], p, logReq, start, startLetters);
        if x.Failure? {
          if RegistrarKnown(env, Registrar(p)) {
            VisitThrows(types, obj, t, selected, mid, ids[j..]);
          }
          return Some(x.error);
        }
        TypeGoesOn(types, obj, t, selected, mid, rows, ids, j);
      }
      TypeEnds(types, obj, t, selected, rows, ids[|ids|..]);
      return None;
    }

    /** The body of the inner loop: one nested update, of a request that was opened when the cascade began. */
    method CancelOne(env: Env, obj: nat, ghost ts: seq<Iface>, t: Iface, id: nat, p: UpdateParams, logReq: Option<nat>,
                     ghost start: Rows, ghost startLetters: Letters)
      returns (r: Result<nat, Error>)
      requires Invalidates(p) && obj in env.objects && t in ts
      requires InProgress(types, StampOf(types, env, p, logReq), obj, ts, Why(p), start, rows)
      requires IsLink(types, start, obj, Link(id, t))
      requires LettersStopped(messages, start, rows, startLetters, letters)
      modifies `rows, `letters
      ensures r.Failure? && RegistrarKnown(env, Registrar(p)) ==>
        InnerThrow(types, r.error) && Throws(types, t, Open(old(rows), obj))
      ensures !RegistrarKnown(env, Registrar(p)) ==> r == Failure(BadRegistrar(Registrar(p)))
      ensures r.Success? ==>
        && InProgress(types, StampOf(types, env, p, logReq), obj, ts, Why(p), start, rows)
        && OnlyCloses(old(rows), rows)
        && !rows[id].status.Opened?
        && (Open(rows, obj) == Open(old(rows), obj) || ClosedBy(types, t, Open(old(rows), obj), Open(rows, obj)))
        && LettersStopped(messages, start, rows, startLetters, letters)
      decreases |OpenedIds(rows)|, 2
    {
      ghost var mid, midLetters := rows, letters;
      r := Update(env, id, t, p, logReq);
      if r.Failure? {
        NestedFailure(types, env, obj, t, start, mid, id, p, logReq, r.error);
      } else {
        NestedStep(types, env, obj, ts, t, start, mid, rows, id, p, logReq);
        LettersCompose(messages, start, mid, rows, startLetters, midLetters, letters);
      }
    }

    /**
     UpdatePublicRequest::exec for one request, with the lock taken first and the transaction rolled back on
     failure.
     */
    method ExecOne(env: Env, id: nat, t: Iface, p: UpdateParams, logReq: Option<nat>) returns (r: Result<nat, Error>)
      requires Valid()
      modifies `rows, `letters
      ensures Valid()
      ensures r.Failure? ==> rows == old(rows) && letters == old(letters)
      ensures r.Failure? ==>
        if id !in old(rows) then r.error == RequestDoesntExist(id)
        else UpdateFails(types, env, old(rows), id, t, p, logReq, r.error)
      ensures r.Success? <==> MayUpdate(types, env, old(rows), id, t, p, logReq)
      ensures r.Success? ==> r.value == id && UpdateStep(types, env, old(Tables()), Tables(), id, t, p, logReq)
      ensures r.Success? ==> UpdateOutcome(types, env, old(rows), rows, id, t, p, logReq)
    {
      UpdateLaw(types, env, rows, id, t, p, logReq);
      if id !in rows {
        return Failure(RequestDoesntExist(id));
      }
      var savedRows, savedLetters := rows, letters;
      r := Update(env, id, t, p, logReq);
      if r.Failure? {
        rows, letters := savedRows, savedLetters;
      } else {
        UpdateKeepsValid(types, env, old(Tables()), Tables(), id, t, p, logReq);
        UpdateHasOutcome(types, env, old(Tables()), Tables(), id, t, p, logReq);
      }
    }

    /** GetOpenedPublicRequest::exec; the query picks any one of the requests whose resolve_time is unset. */
    method GetOpened(env: Env, obj: nat, t: Iface) returns (r: Result<nat, Error>)
      ensures types.Name(t) !in env.typeNames <==> r == Failure(UnknownType(types.Name(t)))
      ensures r.Success? ==>
        && r.value in rows && rows[r.value].objectId == obj
        && rows[r.value].typeName == types.Name(t) && rows[r.value].resolveTime.None?
      ensures r.Failure? && types.Name(t) in env.typeNames ==>
        && r.error == NoRequestFound
        && forall i :: i in rows && rows[i].objectId == obj && rows[i].typeName == types.Name(t) ==>
             rows[i].resolveTime.Some?
    {
      if types.Name(t) !in env.typeNames {
        return Failure(UnknownType(types.Name(t)));
      }
      var found := set i | i in rows && rows[i].objectId == obj && rows[i].typeName == types.Name(t)
                           && rows[i].resolveTime.None?;
      if found == {} {
        assert forall i :: i in rows && rows[i].objectId == obj && rows[i].typeName == types.Name(t) ==> i !in found;
        return Failure(NoRequestFound);
      }
      var i :| i in found;
      return Success(i);
    }

    /**
     UpdatePublicRequest::exec for all opened requests of one object and type: the loop ends when a query
     finds none.
     */
    method ExecBatch(env: Env, obj: nat, t: Iface, p: UpdateParams, logReq: Option<nat>)
      returns (r: Result<seq<nat>, Error>)
      requires Valid()
      requires p.status.Some?
      modifies `rows, `letters
      ensures Valid()
      ensures r.Failure? ==> rows == old(rows) && letters == old(letters)
      ensures r.Failure? ==>
        if obj !in env.objects then r.error == ObjectDoesntExist(obj)
        else if types.Name(t) !in env.typeNames then r.error == UnknownType(types.Name(t))
        else
          && types.Name(t) in Open(old(rows), obj)
          && RoundFails(types, env, Open(old(rows), obj), t, p, logReq, r.error)
      ensures r.Success? <==> MayBatch(types, env, old(rows), obj, t, p, logReq)
      ensures r.Success? ==> BatchStep(types, env, old(Tables()), Tables(), obj, t, p, logReq, r.value)
    {
      if obj !in env.objects {
        return Failure(ObjectDoesntExist(obj));
      }
      var savedRows, savedLetters := rows, letters;
      var affected: seq<nat> := [];
      while true
        invariant Valid()
        invariant InBatch(types, env, old(rows), rows, obj, t, p, logReq, affected)
        invariant BatchSoFar(types, env, Open(old(rows), obj), Open(rows, obj), t, p, logReq, affected)
        invariant LettersStopped(messages, old(rows), rows, old(letters), letters)
        decreases |OpenedIds(rows)|
      {
        var next := UpdateOpened(env, obj, t, p, logReq, old(rows), old(letters), affected);
        if next == Failure(NoRequestFound) {
          break;
        }
        if next.Failure? {
          rows, letters := savedRows, savedLetters;
          return Failure(next.error);
        }
        affected := affected + [next.value];
      }
      BatchEnds(types, env, old(Tables()), Tables(), obj, t, p, logReq, affected);
      return Success(affected);
    }

    /** The body of the loop of ExecBatch: one request is found and updated, until none is found. */
    method UpdateOpened(env: Env, obj: nat, t: Iface, p: UpdateParams, logReq: Option<nat>, ghost before: Rows,
                        ghost lettersBefore: Letters, ghost affected: seq<nat>)
      returns (r: Result<nat, Error>)
      requires Valid() && p.status.Some? && obj in env.objects
      requires InBatch(types, env, before, rows, obj, t, p, logReq, affected)
      requires BatchSoFar(types, env, Open(before, obj), Open(rows, obj), t, p, logReq, affected)
      requires LettersStopped(messages, before, rows, lettersBefore, letters)
      modifies `rows, `letters
      ensures r == Failure(NoRequestFound) ==>
        && rows == old(rows) && letters == old(letters) && types.Name(t) in env.typeNames
        && forall i :: i in rows && rows[i].objectId == obj && rows[i].typeName == types.Name(t) ==>
             rows[i].resolveTime.Some?
      ensures r.Failure? && r.error != NoRequestFound ==>
        && !MayBatch(types, env, before, obj, t, p, logReq)
        && if types.Name(t) !in env.typeNames then r.error == UnknownType(types.Name(t))
           else
             && types.Name(t) in Open(before, obj)
             && RoundFails(types, env, Open(before, obj), t, p, logReq, r.error)
      ensures r.Success? ==>
        && Valid()
        && InBatch(types, env, before, rows, obj, t, p, logReq, affected + [r.value])
        && LettersStopped(messages, before, rows, lettersBefore, letters)
        && |OpenedIds(rows)| < |OpenedIds(old(rows))|
        && BatchSoFar(types, env, Open(before, obj), Open(rows, obj), t, p, logReq, affected + [r.value])
    {
      r := GetOpened(env, obj, t);
      if r.Success? {
        r := UpdateNext(env, obj, t, p, logReq, r.value, before, lettersBefore, affected);
      }
    }

    /** The update of the request that was found. */
    method UpdateNext(env: Env, obj: nat, t: Iface, p: UpdateParams, logReq: Option<nat>, id: nat,
                      ghost before: Rows, ghost lettersBefore: Letters, ghost affected: seq<nat>)
      returns (r: Result<nat, Error>)
      requires Valid() && p.status.Some? && obj in env.objects
      requires InBatch(types, env, before, rows, obj, t, p, logReq, affected)
      requires BatchSoFar(types, env, Open(before, obj), Open(rows, obj), t, p, logReq, affected)
      requires LettersStopped(messages, before, rows, lettersBefore, letters)
      requires id in rows && rows[id].objectId == obj && rows[id].typeName == types.Name(t)
      requires rows[id].resolveTime.None?
      modifies `rows, `letters
      ensures r.Failure? ==>
        && r.error != NoRequestFound
        && types.Name(t) in Open(before, obj)
        && RoundFails(types, env, Open(before, obj), t, p, logReq, r.error)
        && !MayBatch(types, env, before, obj, t, p, logReq)
      ensures r.Success? ==>
        && r.value == id
        && Valid()
        && InBatch(types, env, before, rows, obj, t, p, logReq, affected + [id])
        && LettersStopped(messages, before, rows, lettersBefore, letters)
        && |OpenedIds(rows)| < |OpenedIds(old(rows))|
        && BatchSoFar(types, env, Open(before, obj), Open(rows, obj), t, p, logReq, affected + [id])
    {
      ghost var mid := Tables();
      r := Update(env, id, t, p, logReq);
      if r.Success? {
        BatchRound(types, env, before, lettersBefore, mid, Tables(), obj, t, p, logReq, affected, id);
        BatchNumbers(types, env, Open(before, obj), mid, Tables(), obj, t, p, logReq, affected, id);
      } else {
        RoundFailure(types, env, before, mid.rows, obj, id, t, p, logReq, affected, r.error);
      }
    }

    /** CreatePublicRequest::cancel_on_create. */
    method CancelOnCreate(env: Env, obj: nat, t: Iface, registrarId: Option<nat>,
                          logReq: Option<nat>)
      returns (failed: Option<Error>)
      requires obj in env.objects
      modifies `rows, `letters
      ensures failed.Some? ==>
        if types.OnCreate(t).None? then failed.value == CreateTypeThrew(t)
        else CancellationFails(types, env, Open(old(rows), obj), types.OnCreate(t).value, registrarId, failed.value)
      ensures failed.None? ==>
        && types.OnCreate(t).Some?
        && (RegistrarKnown(env, registrarId) || NoneOf(types, Open(old(rows), obj), types.OnCreate(t).value))
        && Cascaded(types, Stamp(types, env.now, if registrarId.Some? then Some(registrarId) else None, logReq), obj,
                    types.OnCreate(t).value, old(rows), rows)
        && Swept(types, obj, types.OnCreate(t).value, old(rows), rows)
        && Reasoned(types, old(rows), rows, types.OnCreate(t).value, None)
        && LettersStopped(messages, old(rows), rows, old(letters), letters)
    {
      var cancelled := types.OnCreate(t);
      if cancelled.None? {
        return Some(CreateTypeThrew(t));
      }
      var registrar := if registrarId.Some? then Some(registrarId) else None;
      var invalidate := UpdateParams(Some(Invalidated), None, None, None, registrar, None);
      failed := CancelOpened(env, obj, cancelled.value, invalidate, logReq);
    }

    /** The INSERT both creation paths end with; ids come from the sequence of the table. */
    method Insert(row: Request) returns (id: nat)
      modifies `rows, `nextId
      ensures id == old(nextId) && nextId == id + 1 && rows == old(rows)[id := row]
    {
      id := nextId;
      rows := rows[id := row];
      nextId := nextId + 1;
    }

    /** CreatePublicRequest::exec. */
    method Create(env: Env, obj: nat, t: Iface, reason: Option<string>, email: Option<string>,
                  registrarId: Option<nat>, logReq: Option<nat>)
      returns (r: Result<nat, Error>)
      requires Valid()
      modifies `rows, `letters, `nextId
      ensures Valid()
      ensures r.Success? <==> MayCreate(types, env, old(rows), obj, t, email, registrarId)
      ensures r.Failure? ==> Tables() == old(Tables())
      ensures r.Failure? ==> CreationFails(types, env, old(rows), obj, t, email, registrarId, r.error)
      ensures r.Success? ==> CreateStep(types, env, old(Tables()), Tables(), obj, t, r.value,
        Request(obj, types.Name(t), Opened, None, reason, email, None, registrarId, logReq, None,
                types.Action(t, Opened)))
      ensures r.Success? ==> CreationOutcome(types, env, old(rows), rows, obj, t, r.value,
        Request(obj, types.Name(t), Opened, None, reason, email, None, registrarId, logReq, None,
                types.Action(t, Opened)))
    {
      var savedRows, savedLetters := rows, letters;
      if obj !in env.objects {
        return Failure(ObjectDoesntExist(obj));
      }
      var failed := CancelOnCreate(env, obj, t, registrarId, logReq);
      if failed.Some? {
        r := Failure(failed.value);
      } else if email.Some? && !env.wellFormedEmail(email.value) {
        r := Failure(WrongEmail(email.value));
      } else if registrarId.Some? && registrarId.value !in env.registrars {
        r := Failure(UnknownRegistrar(registrarId.value));
      } else if types.Name(t) !in env.typeNames {
        r := Failure(UnknownType(types.Name(t)));
      } else {
        ghost var mid := rows;
        var row := Request(obj, types.Name(t), Opened, None, reason, email, None, registrarId, logReq, None,
                           types.Action(t, Opened));
        var id := Insert(row);
        InsertionCreates(types, env, old(Tables()), mid, Tables(), obj, t, id, row);
        CreationHasOutcome(types, env, old(Tables()), Tables(), obj, t, id, row);
        return Success(id);
      }
      rows, letters := savedRows, savedLetters;
    }

    /** CreatePublicRequestAuth::exec; the random identification and the generated password are given. */
    method CreateAuth(env: Env, obj: nat, t: Iface, auth: Auth, reason: Option<string>, email: Option<string>,
                      registrarId: Option<nat>, logReq: Option<nat>)
      returns (r: Result<nat, Error>)
      requires Valid()
      modifies `rows, `letters, `nextId, `auths
      ensures Valid()
      ensures r.Success? <==> MayCreate(types, env, old(rows), obj, t, None, registrarId)
      ensures r.Failure? ==> Tables() == old(Tables()) && auths == old(auths)
      ensures r.Failure? ==> CreationFails(types, env, old(rows), obj, t, None, registrarId, r.error)
      ensures r.Success? ==> CreateStep(types, env, old(Tables()), Tables(), obj, t, r.value,
        Request(obj, types.Name(t), Opened, None, reason, email, None, registrarId, logReq, None, env.defaultAction))
      ensures r.Success? ==> CreationOutcome(types, env, old(rows), rows, obj, t, r.value,
        Request(obj, types.Name(t), Opened, None, reason, email, None, registrarId, logReq, None, env.defaultAction))
      ensures r.Success? ==> auths == old(auths)[r.value := auth]
    {
      var savedRows, savedLetters := rows, letters;
      if obj !in env.objects {
        return Failure(ObjectDoesntExist(obj));
      }
      var failed := CancelOnCreate(env, obj, t, registrarId, logReq);
      if failed.Some? {
        r := Failure(failed.value);
      } else if registrarId.Some? && registrarId.value !in env.registrars {
        r := Failure(UnknownRegistrar(registrarId.value));
      } else if types.Name(t) !in env.typeNames {
        r := Failure(UnknownType(types.Name(t)));
      } else {
        ghost var mid := rows;
        var row := Request(obj, types.Name(t), Opened, None, reason, email, None, registrarId, logReq, None,
                           env.defaultAction);
        var id := Insert(row);
        InsertionCreates(types, env, old(Tables()), mid, Tables(), obj, t, id, row);
        CreationHasOutcome(types, env, old(Tables()), Tables(), obj, t, id, row);
        auths := auths[id := auth];
        return Success(id);
      }
      rows, letters := savedRows, savedLetters;
    }
  }
}
