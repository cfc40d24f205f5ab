/** The operations on registrable objects and their passwords, as methods over the tables they change. */
module RegistryDb {
  import opened Prelude
  import opened RegistryModel
  import opened RegistrySteps
  import opened RegistryLaws

  class Database {
    var objects: Objects
    var registry: Registry
    var history: History
    var authinfos: Authinfos
    var nextObject: nat
    var nextHistory: nat

    ghost function Tables(): Tables
      reads this
    {
      RegistryModel.Tables(objects, registry, history, authinfos, nextObject, nextHistory)
    }

    ghost predicate Valid()
      reads this
    {
      RegistryModel.Valid(Tables())
    }

    constructor ()
      ensures Valid() && authinfos == []
    {
      objects, registry, history, authinfos, nextObject, nextHistory := map[], map[], map[], [], 1, 0;
    }

    // -------------------------------------------------------------- passwords

    /** deactivate_password; the result says how many rows it found. */
    method DeactivatePassword(obj: nat, registrar: nat) returns (found: nat)
      modifies `authinfos
      ensures authinfos == Deactivated(old(authinfos), obj, registrar)
      ensures OneLivePerRegistrar(old(authinfos)) ==> found <= 1
    {
      found := 0;
      var k := 0;
      while k < |authinfos|
        invariant k <= |authinfos| == |old(authinfos)|
        invariant forall i :: 0 <= i < k ==> authinfos[i] == Deactivated(old(authinfos), obj, registrar)[i]
        invariant forall i :: k <= i < |authinfos| ==> authinfos[i] == old(authinfos)[i]
        invariant found > 0 ==> exists i :: 0 <= i < k && IsLiveFor(old(authinfos)[i], obj, registrar)
        invariant OneLivePerRegistrar(old(authinfos)) ==> found <= 1
      {
        if IsLiveFor(authinfos[k], obj, registrar) {
          authinfos := authinfos[k := authinfos[k].(password := Some(""))];
          found := found + 1;
        }
        k := k + 1;
      }
    }

    static predicate IsLiveFor(a: Authinfo, obj: nat, registrar: nat) {
      a.objectId == obj && a.registrarId == registrar && Live(a)
    }

    /** StoreAuthinfo, its constructor included; `encrypted` is what the salted hash of the password came out as. */
    method StoreAuthinfo(env: Env, obj: nat, registrar: nat, ttl: int, encrypted: string) returns (r: Result<nat,
                         Error>)
      requires encrypted != ""
      modifies `authinfos
      ensures r.Success? <==> 0 < ttl && IsRegistered(registry, obj) && registrar in env.registrars.Values
      ensures r.Failure? ==> authinfos == old(authinfos)
      ensures r.Failure? ==>
        r.error == if ttl <= 0 then InvalidTtl
                   else if !IsRegistered(registry, obj) then UnknownObjectId
                   else UnknownRegistrar
      ensures r.Success? ==>
        r.value == |old(authinfos)| && authinfos == Stored(env, old(authinfos), obj, registrar, ttl, encrypted)
      ensures r.Success? ==>
        && |authinfos| == |old(authinfos)| + 1
        && authinfos[r.value] == Authinfo(obj, registrar, Some(encrypted), env.now, env.now + ttl, None, 0)
        && forall i :: 0 <= i < r.value ==> IsReplaced(old(authinfos)[i], authinfos[i], obj, registrar)
    {
      if ttl <= 0 {
        return Failure(InvalidTtl);
      }
      if !IsRegistered(registry, obj) {
        return Failure(UnknownObjectId);
      }
      if registrar !in env.registrars.Values {
        return Failure(UnknownRegistrar);
      }
      var found := DeactivatePassword(obj, registrar);
      r := Success(|authinfos|);
      authinfos := authinfos + [Authinfo(obj, registrar, Some(encrypted), env.now, env.now + ttl, None, 0)];
    }

    /**
     CheckAuthinfo::exec with one of its two visitors. Only the row that is visited changes, so the
     visitor finds it as valid as the query did.
     */
    method CheckAuthinfo(env: Env, obj: nat, p: string, cancel: bool) returns (r: Result<nat, Error>)
      modifies `authinfos
      ensures r.Failure? ==> authinfos == old(authinfos)
      ensures !IsRegistered(registry, obj) <==> r == Failure(UnknownObjectId)
      ensures IsRegistered(registry, obj) ==>
        (r == Failure(InternalError) <==> SomeUnsupported(env, old(authinfos), obj, p))
      ensures r.Failure? ==> r.error == UnknownObjectId || r.error == InternalError
      ensures r.Success? ==> authinfos == Visited(env, old(authinfos), obj, p, cancel)
      ensures r.Success? ==>
        forall i :: 0 <= i < |authinfos| ==> Checked(env, old(authinfos)[i], authinfos[i], obj, p, cancel)
      ensures r.Success? ==> r.value == |FittingRows(env, old(authinfos), obj, p, |old(authinfos)|)|
      ensures r.Success? ==> (r.value > 0 <==> SomeFits(env, old(authinfos), obj, p))
    {
      if !IsRegistered(registry, obj) {
        return Failure(UnknownObjectId);
      }
      var selected := authinfos;
      var matchCounter := 0;
      var k := 0;
      while k < |selected|
        invariant k <= |selected| == |authinfos| && selected == old(authinfos)
        invariant forall i :: 0 <= i < k ==> authinfos[i] == VisitedRow(env, selected[i], obj, p, cancel)
        invariant forall i :: k <= i < |selected| ==> authinfos[i] == selected[i]
        invariant matchCounter == |FittingRows(env, selected, obj, p, k)|
        invariant matchCounter > 0 <==> exists i :: 0 <= i < k && Fits(env, selected[i], obj, p)
        invariant forall i :: 0 <= i < k && selected[i].objectId == obj && ValidAt(selected[i], env.now) ==>
          !MatchOf(env, selected[i], p).Unsupported?
      {
        OneRowMore(env, selected, obj, p, k);
        if selected[k].objectId == obj && ValidAt(selected[k], env.now) {
          match env.matches(p, selected[k].password.value) {
            case Correct =>
              matchCounter := matchCounter + 1;
              var used := authinfos[k].(useCount := authinfos[k].useCount + 1);
              authinfos := authinfos[k := if cancel then Cancelled(used, env.now) else used];
            case Incorrect =>
            case Unsupported =>
              authinfos := selected;
              return Failure(InternalError);
          }
        }
        k := k + 1;
      }
      return Success(matchCounter);
    }

    /** CleanAuthinfo::exec. */
    method CleanAuthinfo(env: Env, obj: nat)
      modifies `authinfos
      ensures authinfos == Cleaned(old(authinfos), obj, env.now)
      ensures forall i :: 0 <= i < |authinfos| ==>
        CanceledIf(old(authinfos)[i], authinfos[i],
                   old(authinfos)[i].objectId == obj && env.now < old(authinfos)[i].expiresAt, env.now)
    {
      var k := 0;
      while k < |authinfos|
        invariant k <= |authinfos| == |old(authinfos)|
        invariant forall i :: 0 <= i < k ==> authinfos[i] == Cleaned(old(authinfos), obj, env.now)[i]
        invariant forall i :: k <= i < |authinfos| ==> authinfos[i] == old(authinfos)[i]
      {
        if authinfos[k].objectId == obj && ValidAt(authinfos[k], env.now) {
          authinfos := authinfos[k := Cancelled(authinfos[k], env.now)];
        }
        k := k + 1;
      }
    }

    /** CleanExpiredAuthinfos::exec. */
    method CleanExpiredAuthinfos(env: Env)
      modifies `authinfos
      ensures authinfos == CleanedExpired(old(authinfos), env.now)
      ensures forall i :: 0 <= i < |authinfos| ==>
        CanceledIf(old(authinfos)[i], authinfos[i], old(authinfos)[i].expiresAt <= env.now, env.now)
    {
      var k := 0;
      while k < |authinfos|
        invariant k <= |authinfos| == |old(authinfos)|
        invariant forall i :: 0 <= i < k ==> authinfos[i] == CleanedExpired(old(authinfos), env.now)[i]
        invariant forall i :: k <= i < |authinfos| ==> authinfos[i] == old(authinfos)[i]
      {
        if Live(authinfos[k]) && authinfos[k].expiresAt <= env.now {
          authinfos := authinfos[k := Cancelled(authinfos[k], env.now)];
        }
        k := k + 1;
      }
    }

    // -------------------------------------------------------------- objects

    /** InsertHistory::exec. */
    method InsertHistory(requestId: Option<nat>, obj: nat) returns (id: nat)
      modifies `history, `nextHistory
      ensures id == old(nextHistory) && nextHistory == id + 1
      ensures history == WithSnapshot(old(history), id, requestId, objects, obj)
    {
      id := nextHistory;
      nextHistory := nextHistory + 1;
      history := history[id := HistoryEntry(requestId, None)];
      if obj in objects {
        history := history[id := history[id].(snapshot := Some(Snapshot(obj, objects[obj])))];
      }
    }

    /**
     The common end of an update and of a transfer: the row is written, copied into the history and the
     registry points to the copy.
     */
    method RewriteRow(obj: nat, row: Object, requestId: Option<nat>) returns (h: nat)
      requires Valid() && obj in objects && obj in registry
      modifies `objects, `registry, `history, `nextHistory
      ensures Valid() && h == old(nextHistory)
      ensures Rewrites(old(Tables()), Tables(), obj, row, requestId)
    {
      ghost var before := Tables();
      objects := objects[obj := row];
      h := InsertHistory(requestId, obj);
      registry := registry[obj := registry[obj].(historyId := Some(h))];
      RewriteKeepsValid(before, Tables(), obj, row, requestId);
    }

    /**
     CreateObject::exec. The stored function create_object either refuses the handle or registers it
     under a new id; `accepted` is its answer.
     */
    method Create(env: Env, typeName: string, handle: string, registrarHandle: string, accepted: bool,
                  requestId: Option<nat>)
      returns (r: Result<nat, Error>)
      requires Valid()
      modifies this
      ensures Valid()
      ensures r.Failure? ==> Tables() == old(Tables())
      ensures r.Success? <==> registrarHandle in env.registrars && typeName in env.objectTypes && accepted
      ensures r.Failure? ==>
        r.error == if registrarHandle !in env.registrars then UnknownRegistrar
                   else if typeName !in env.objectTypes then InternalError
                   else InvalidObjectHandle(handle)
      ensures r.Success? ==>
        CreateStep(env, old(Tables()), Tables(), typeName, handle, env.registrars[registrarHandle], requestId)
      ensures r.Success? ==> r.value == old(nextObject)
    {
      if registrarHandle !in env.registrars {
        return Failure(UnknownRegistrar);
      }
      if typeName !in env.objectTypes {
        return Failure(InternalError);
      }
      if !accepted {
        return Failure(InvalidObjectHandle(handle));
      }
      ghost var before := Tables();
      var id := nextObject;
      nextObject := nextObject + 1;
      registry := registry[id := Registered(typeName, env.fold(typeName, handle), None, None, None)];
      objects := objects[id := Object(env.registrars[registrarHandle], None, None, None)];
      var h := InsertHistory(requestId, id);
      registry := registry[id := registry[id].(historyId := Some(h), createdHistoryId := Some(h))];
      CreateKeepsValid(env, before, Tables(), typeName, handle, env.registrars[registrarHandle], requestId);
      return Success(id);
    }

    /**
     UpdateObject::exec. An unknown handle is reported only after the password was stored for object 0, which
     does not exist.
     */
    method Update(env: Env, typeName: string, handle: string, registrarHandle: string, encrypted: Option<string>,
                  requestId: Option<nat>)
      returns (r: Result<nat, Error>)
      requires Valid()
      requires encrypted.Some? ==> encrypted.value != ""
      modifies this
      ensures Valid()
      ensures r.Failure? ==> Tables() == old(Tables())
      ensures r.Success? <==>
        && registrarHandle in env.registrars && typeName in env.objectTypes
        && (exists obj :: IsNamed(env, old(registry), typeName, handle, obj))
        && (encrypted.Some? ==> 0 < env.authinfoTtl)
      ensures r.Success? ==> r.value == old(nextHistory) && exists obj ::
        && IsNamed(env, old(registry), typeName, handle, obj)
        && registrarHandle in env.registrars
        && UpdateStep(env, old(Tables()), Tables(), obj, env.registrars[registrarHandle], encrypted, requestId)
      ensures
        && registrarHandle in env.registrars && typeName in env.objectTypes
        && Find(env, old(registry), typeName, handle) == {} ==>
        r == Failure(if encrypted.None? then UnknownObjectHandle(handle)
                     else if env.authinfoTtl <= 0 then InvalidTtl
                     else UnknownObjectId)
      ensures r.Failure? && (exists obj :: IsNamed(env, old(registry), typeName, handle, obj)) ==>
        r.error == if registrarHandle !in env.registrars then UnknownRegistrar
                   else if typeName !in env.objectTypes then InternalError
                   else InvalidTtl
      ensures r.Failure? && Find(env, old(registry), typeName, handle) != {} &&
              !(exists obj :: IsNamed(env, old(registry), typeName, handle, obj)) ==>
        r.error == if registrarHandle !in env.registrars then UnknownRegistrar else InternalError
    {
      if registrarHandle !in env.registrars {
        return Failure(UnknownRegistrar);
      }
      if typeName !in env.objectTypes {
        return Failure(InternalError);
      }
      var registrar := env.registrars[registrarHandle];
      var found := Find(env, registry, typeName, handle);
      FindLaw(env, registry, typeName, handle);
      var obj := 0;
      if found != {} {
        obj :| obj in found;
        if found != {obj} {
          return Failure(InternalError);
        }
      }
      ghost var before := Tables();
      if encrypted.Some? {
        var stored := StoreAuthinfo(env, obj, registrar, env.authinfoTtl, encrypted.value);
        if stored.Failure? {
          return Failure(stored.error);
        }
      }
      if found == {} {
        return Failure(UnknownObjectHandle(handle));
      }
      var h := RewriteRow(obj, objects[obj].(update := Some(env.now), upid := Some(registrar)), requestId);
      assert UpdateStep(env, before, Tables(), obj, registrar, encrypted, requestId);
      return Success(h);
    }

    /** delete_object_impl behind DeleteObjectById::exec. */
    method DeleteById(env: Env, obj: nat) returns (r: Result<(), Error>)
      requires Valid()
      modifies this
      ensures Valid()
      ensures r.Success? <==> IsRegistered(old(registry), obj)
      ensures r.Failure? ==> Tables() == old(Tables()) && r.error == UnknownObjectId
      ensures r.Success? ==> DeleteStep(env, old(Tables()), Tables(), obj)
    {
      if !IsRegistered(registry, obj) {
        return Failure(UnknownObjectId);
      }
      registry := registry[obj := registry[obj].(erdate := Some(env.now))];
      objects := objects - {obj};
      return Success(());
    }

    /** get_authorized_contacts: checks every contact, counts the use of every password that fits, cancels none. */
    method AuthorizedContacts(env: Env, p: string, contacts: set<string>) returns (r: Result<set<string>, Error>)
      modifies `authinfos
      ensures r.Failure? ==> r.error == InternalError
      ensures r.Success? <==> forall h :: h in contacts ==> !Uncheckable(env, registry, old(authinfos), p, h)
      ensures r.Success? ==> authinfos == VisitedByContacts(env, registry, old(authinfos), p, contacts)
      ensures r.Success? ==> r.value == set h | h in contacts && Authorizes(env, registry, old(authinfos), p, h)
    {
      var before := authinfos;
      var authorized := {};
      var todo := contacts;
      NobodyVisits(env, registry, before, p);
      while todo != {}
        invariant todo <= contacts
        invariant authinfos == VisitedByContacts(env, registry, before, p, contacts - todo)
        invariant authorized == set h | h in contacts - todo && Authorizes(env, registry, before, p, h)
        invariant forall h :: h in contacts - todo ==> !Uncheckable(env, registry, before, p, h)
      {
        var h :| h in todo;
        var ids := Find(env, registry, "contact", h);
        var visited := authinfos;
        if ids != {} {
          var id :| id in ids;
          if ids != {id} {
            assert Uncheckable(env, registry, before, p, h);
            return Failure(InternalError);
          }
          UseDoesNotMatter(env, before, visited, id, p);
          ContactVisit(env, registry, before, visited, p, contacts - todo, h, id);
          var count := CheckAuthinfo(env, id, p, false);
          if count == Failure(InternalError) {
            return Failure(InternalError);
          }
          if count.Success? && count.value > 0 {
            authorized := authorized + {h};
          }
        } else {
          NoContactToVisit(env, registry, before, p, contacts - todo, h);
        }
        assert contacts - (todo - {h}) == contacts - todo + {h};
        todo := todo - {h};
      }
      assert contacts - todo == contacts;
      return Success(authorized);
    }

    /** The part of transfer_object that decides whether `p` opens the object, with all it does to the passwords. */
    method OpenWithPassword(env: Env, obj: nat, p: string, contacts: set<string>) returns (r: Result<(), Error>)
      requires IsRegistered(registry, obj)
      modifies `authinfos
      ensures r.Success? <==>
        Checkable(env, old(Tables()), obj, p, contacts) && Authorized(env, old(Tables()), obj, p, contacts)
      ensures authinfos == if r.Success? then Transferred(env, old(Tables()), obj, p, contacts) else old(authinfos)
      ensures r.Failure? ==>
        r.error == if Checkable(env, old(Tables()), obj, p, contacts) then IncorrectAuthInfoPw else InternalError
    {
      var savedAuthinfos := authinfos;
      ghost var before := Tables();
      var ofObject := CheckAuthinfo(env, obj, p, true);
      if ofObject.Failure? {
        return Failure(ofObject.error);
      }
      var friends := AuthorizedContacts(env, p, contacts);
      if friends.Failure? {
        authinfos := savedAuthinfos;
        return Failure(friends.error);
      }
      if ofObject.value == 0 && friends.value == {} {
        ghost var visited := Visited(env, before.authinfos, obj, p, true);
        assert forall h :: h in contacts && Authorizes(env, registry, visited, p, h) ==> h in friends.value;
        authinfos := savedAuthinfos;
        return Failure(IncorrectAuthInfoPw);
      }
      if ofObject.value == 0 {
        CleanAuthinfo(env, obj);
      }
      return Success(());
    }

    /** transfer_object. */
    method Transfer(env: Env, obj: nat, registrarHandle: string, p: string, contacts: set<string>,
                    requestId: Option<nat>)
      returns (r: Result<nat, Error>)
      requires Valid()
      modifies this
      ensures Valid()
      ensures r.Failure? ==> Tables() == old(Tables())
      ensures r.Success? <==>
        && registrarHandle in env.registrars
        && obj in old(objects)
        && old(objects)[obj].clid != env.registrars[registrarHandle]
        && MayOpen(env, old(Tables()), obj, p, contacts)
      ensures r.Success? ==>
        && r.value == old(nextHistory)
        && TransferStep(env, old(Tables()), Tables(), obj, env.registrars[registrarHandle], p, contacts, requestId)
      ensures r.Failure? ==>
        r.error == if registrarHandle !in env.registrars then UnknownRegistrar
                   else if obj !in objects then UnknownObjectId
                   else if objects[obj].clid == env.registrars[registrarHandle] then NewRegistrarIsAlreadySponsoring
                   else if MayCheck(env, old(Tables()), obj, p, contacts) then IncorrectAuthInfoPw
                   else InternalError
    {
      AuthorizedLaw(env, Tables(), obj, p, contacts);
      CheckableLaw(env, Tables(), obj, p, contacts);
      if registrarHandle !in env.registrars {
        return Failure(UnknownRegistrar);
      }
      var registrar := env.registrars[registrarHandle];
      if obj !in objects {
        return Failure(UnknownObjectId);
      }
      if objects[obj].clid == registrar {
        return Failure(NewRegistrarIsAlreadySponsoring);
      }
      var decision := OpenWithPassword(env, obj, p, contacts);
      if decision.Failure? {
        return Failure(decision.error);
      }
      var h := RewriteRow(obj, objects[obj].(trdate := Some(env.now), clid := registrar), requestId);
      return Success(h);
    }
  }
}
