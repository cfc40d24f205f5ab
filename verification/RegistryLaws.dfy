/**
 What the operations on objects and passwords come to, said column by column and without the functions by which
 their steps are defined.
 */
module RegistryLaws {
  import opened Prelude
  import opened RegistryModel
  import opened RegistrySteps

  // ---------------------------------------------------------------- who may transfer an object

  /** Nothing of the object is marked before the contacts are checked, unless the object itself is opened. */
  lemma VisitedIfNoneFits(env: Env, rows: Authinfos, obj: nat, p: string)
    requires !SomeFits(env, rows, obj, p)
    ensures Visited(env, rows, obj, p, true) == rows
  {
    assert forall i :: 0 <= i < |rows| ==> !Fits(env, rows[i], obj, p);
  }

  /** A transfer is authorised by a valid password of the object or of an enabled contact. */
  lemma AuthorizedLaw(env: Env, a: Tables, obj: nat, p: string, contacts: set<string>)
    ensures Authorized(env, a, obj, p, contacts) <==>
      || SomeFits(env, a.authinfos, obj, p)
      || exists h :: h in contacts && Authorizes(env, a.registry, a.authinfos, p, h)
  {
    if !SomeFits(env, a.authinfos, obj, p) {
      VisitedIfNoneFits(env, a.authinfos, obj, p);
    }
  }

  /** Checking the object first leaves the contacts as checkable as they were. */
  lemma UncheckableLaw(env: Env, a: Tables, obj: nat, p: string, h: string)
    requires !SomeUnsupported(env, a.authinfos, obj, p)
    ensures Uncheckable(env, a.registry, Visited(env, a.authinfos, obj, p, true), p, h) <==>
      Uncheckable(env, a.registry, a.authinfos, p, h)
  {
    var rows, visited := a.authinfos, Visited(env, a.authinfos, obj, p, true);
    forall id
      ensures SomeUnsupported(env, visited, id, p) <==> SomeUnsupported(env, rows, id, p)
    {
      UnsupportedStays(env, rows, obj, p, id);
    }
  }

  lemma UnsupportedStays(env: Env, rows: Authinfos, obj: nat, p: string, id: nat)
    ensures SomeUnsupported(env, Visited(env, rows, obj, p, true), id, p) <==> SomeUnsupported(env, rows, id, p)
  {
    var visited := Visited(env, rows, obj, p, true);
    if SomeUnsupported(env, rows, id, p) {
      var i :| 0 <= i < |rows| && rows[i].objectId == id && ValidAt(rows[i], env.now)
               && MatchOf(env, rows[i], p).Unsupported?;
      assert visited[i] == rows[i];
    }
    if SomeUnsupported(env, visited, id, p) {
      var i :| 0 <= i < |rows| && visited[i].objectId == id && ValidAt(visited[i], env.now)
               && MatchOf(env, visited[i], p).Unsupported?;
      assert visited[i] == rows[i];
    }
  }

  lemma CheckableLaw(env: Env, a: Tables, obj: nat, p: string, contacts: set<string>)
    ensures Checkable(env, a, obj, p, contacts) <==>
      && !SomeUnsupported(env, a.authinfos, obj, p)
      && forall h :: h in contacts ==> !Uncheckable(env, a.registry, a.authinfos, p, h)
  {
    if !SomeUnsupported(env, a.authinfos, obj, p) {
      forall h | h in contacts
        ensures Uncheckable(env, a.registry, Visited(env, a.authinfos, obj, p, true), p, h) <==>
          Uncheckable(env, a.registry, a.authinfos, p, h)
      {
        UncheckableLaw(env, a, obj, p, h);
      }
    }
  }

  /** Every valid password of the object and of the enabled contacts can be checked, and no handle is ambiguous. */
  ghost predicate MayCheck(env: Env, a: Tables, obj: nat, p: string, contacts: set<string>) {
    && !SomeUnsupported(env, a.authinfos, obj, p)
    && forall h :: h in contacts ==> !Uncheckable(env, a.registry, a.authinfos, p, h)
  }

  /** Then `p` opens the object if it fits a valid password of the object or of an enabled contact. */
  ghost predicate MayOpen(env: Env, a: Tables, obj: nat, p: string, contacts: set<string>) {
    && MayCheck(env, a, obj, p, contacts)
    && (|| SomeFits(env, a.authinfos, obj, p)
        || exists h :: h in contacts && Authorizes(env, a.registry, a.authinfos, p, h))
  }

  // ---------------------------------------------------------------- columns

  /** Row `b` is the password `a` after a new one was stored: a live one of the same object and registrar is blanked. */
  ghost predicate IsReplaced(a: Authinfo, b: Authinfo, obj: nat, registrar: nat) {
    if a.objectId == obj && a.registrarId == registrar && a.canceledAt.None? && a.password.Some? &&
       a.password.value != ""
    then b == Authinfo(obj, registrar, Some(""), a.createdAt, a.expiresAt, None, a.useCount)
    else b == a
  }

  /** Of the objects, only `obj` changed, to `row`; a copy of that is the new head of its history. */
  ghost predicate OnlyRow(a: Tables, b: Tables, obj: nat, row: Object, requestId: Option<nat>) {
    && obj in a.objects && obj in a.registry
    && a.objects.Keys == b.objects.Keys && a.registry.Keys == b.registry.Keys
    && b.objects[obj] == row && (forall i :: i in a.objects && i != obj ==> b.objects[i] == a.objects[i])
    && b.registry[obj] == Registered(a.registry[obj].typeName, a.registry[obj].name, a.registry[obj].erdate,
                                     Some(a.nextHistory), a.registry[obj].createdHistoryId)
    && (forall i :: i in a.registry && i != obj ==> b.registry[i] == a.registry[i])
    && b.history.Keys == a.history.Keys + {a.nextHistory}
    && b.history[a.nextHistory] == HistoryEntry(requestId, Some(Snapshot(obj, row)))
    && (forall h :: h in a.history && h != a.nextHistory ==> b.history[h] == a.history[h])
  }

  /** An update sets the time and the registrar of the update, and no other column. */
  lemma UpdateColumns(env: Env, a: Tables, b: Tables, obj: nat, registrar: nat, encrypted: Option<string>,
                      requestId: Option<nat>)
    requires UpdateStep(env, a, b, obj, registrar, encrypted, requestId)
    ensures obj in a.objects && OnlyRow(a, b, obj, Object(a.objects[obj].clid, Some(registrar), a.objects[obj].trdate,
                                                         Some(env.now)), requestId)
  {
  }

  /** A transfer sets the time of the transfer and the sponsoring registrar, and no other column. */
  lemma TransferColumns(env: Env, a: Tables, b: Tables, obj: nat, registrar: nat, p: string, contacts: set<string>,
                        requestId: Option<nat>)
    requires TransferStep(env, a, b, obj, registrar, p, contacts, requestId)
    ensures obj in a.objects && OnlyRow(a, b, obj, Object(registrar, a.objects[obj].upid, Some(env.now),
                                                         a.objects[obj].update), requestId)
  {
  }

  /** The handle names exactly one object when the query finds exactly one. */
  lemma FindLaw(env: Env, registry: Registry, typeName: string, handle: string)
    ensures forall id: nat ::
      IsNamed(env, registry, typeName, handle, id) <==> Find(env, registry, typeName, handle) == {id}
  {
    var found := Find(env, registry, typeName, handle);
    forall id: nat | IsNamed(env, registry, typeName, handle, id)
      ensures found == {id}
    {
      assert forall k: nat :: k in found <==> k == id;
    }
    forall id: nat | found == {id}
      ensures IsNamed(env, registry, typeName, handle, id)
    {
      assert id in found && forall k :: k in found ==> k == id;
      assert forall k: nat :: k in registry && k in found ==> k == id;
    }
  }

  // ---------------------------------------------------------------- what a transfer does to passwords

  /** Row `b` is the password `a`, valid before, after its cancellation. */
  predicate IsCanceled(a: Authinfo, b: Authinfo, now: int) {
    b.password.None? && b.canceledAt == Some(now) && b.expiresAt == a.expiresAt
  }

  /**
   A transfer that a password of the object authorises cancels exactly the passwords of the object that were fitted;
   one that only a contact authorises cancels all of them, so that no registrar keeps a way back.
   */
  lemma TransferClosesPasswords(env: Env, a: Tables, b: Tables, obj: nat, registrar: nat, p: string,
                                contacts: set<string>, requestId: Option<nat>)
    requires TransferStep(env, a, b, obj, registrar, p, contacts, requestId)
    ensures |b.authinfos| == |a.authinfos|
    ensures forall i :: 0 <= i < |a.authinfos| && a.authinfos[i].objectId == obj && ValidAt(a.authinfos[i], env.now) ==>
      if !SomeFits(env, a.authinfos, obj, p) || Fits(env, a.authinfos[i], obj, p) then
        IsCanceled(a.authinfos[i], b.authinfos[i], env.now)
      else b.authinfos[i] == a.authinfos[i]
    ensures !SomeFits(env, a.authinfos, obj, p) ==>
      forall i :: 0 <= i < |b.authinfos| && b.authinfos[i].objectId == obj ==> !ValidAt(b.authinfos[i], env.now)
  {
    forall i | 0 <= i < |a.authinfos| && a.authinfos[i].objectId == obj
      ensures b.authinfos[i].useCount == a.authinfos[i].useCount + if Fits(env, a.authinfos[i], obj, p) then 1 else 0
      ensures ValidAt(a.authinfos[i], env.now) ==>
        if !SomeFits(env, a.authinfos, obj, p) || Fits(env, a.authinfos[i], obj, p) then
          IsCanceled(a.authinfos[i], b.authinfos[i], env.now)
        else b.authinfos[i] == a.authinfos[i]
    {
      OwnPassword(env, a, obj, p, contacts, i);
    }
  }

  /** What becomes of a password of the object itself: checking contacts does not use it. */
  lemma OwnPassword(env: Env, a: Tables, obj: nat, p: string, contacts: set<string>, i: nat)
    requires i < |a.authinfos| && a.authinfos[i].objectId == obj
    ensures var r, q := a.authinfos[i], Transferred(env, a, obj, p, contacts)[i];
      && |Transferred(env, a, obj, p, contacts)| == |a.authinfos|
      && q.useCount == r.useCount + (if Fits(env, r, obj, p) then 1 else 0)
      && (ValidAt(r, env.now) ==>
           if !SomeFits(env, a.authinfos, obj, p) || Fits(env, r, obj, p) then IsCanceled(r, q, env.now) else q == r)
  {
    var visited := Visited(env, a.authinfos, obj, p, true);
    assert Users(env, a.registry, visited[i], p, contacts) == {};
  }

  /** What becomes of the other passwords: each is used once for every enabled contact it belongs to, if it fits. */
  lemma TransferCountsContacts(env: Env, a: Tables, b: Tables, obj: nat, registrar: nat, p: string,
                               contacts: set<string>, requestId: Option<nat>, i: nat)
    requires TransferStep(env, a, b, obj, registrar, p, contacts, requestId)
    requires i < |a.authinfos| && a.authinfos[i].objectId != obj
    ensures |b.authinfos| == |a.authinfos|
    ensures var r := a.authinfos[i];
      b.authinfos[i] == r.(useCount := r.useCount +
        if Fits(env, r, r.objectId, p) then |HandlesOf(env, a.registry, r.objectId, contacts)| else 0)
  {
    var r, visited := a.authinfos[i], Visited(env, a.authinfos, obj, p, true);
    assert visited[i] == r;
    if Fits(env, r, r.objectId, p) {
      assert Users(env, a.registry, r, p, contacts) == HandlesOf(env, a.registry, r.objectId, contacts);
    } else {
      assert Users(env, a.registry, r, p, contacts) == {};
    }
  }

  /** The handles of the set that lead to the contact. */
  function HandlesOf(env: Env, registry: Registry, id: nat, contacts: set<string>): set<string> {
    set h | h in contacts && Find(env, registry, "contact", h) == {id}
  }
}
