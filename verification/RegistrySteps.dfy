/** Lemmas the operations on registrable objects rest on. */
module RegistrySteps {
  import opened Prelude
  import opened RegistryModel

  lemma RewriteKeepsValid(a: Tables, b: Tables, obj: nat, row: Object, requestId: Option<nat>)
    requires Valid(a) && Rewrites(a, b, obj, row, requestId)
    ensures Valid(b)
  {
    forall id | id in b.objects
      ensures HeadAgrees(b, id)
    {
      assert HeadAgrees(a, id);
    }
  }

  lemma CreateKeepsValid(env: Env, a: Tables, b: Tables, typeName: string, handle: string, registrar: nat,
                         requestId: Option<nat>)
    requires Valid(a) && CreateStep(env, a, b, typeName, handle, registrar, requestId)
    ensures Valid(b)
  {
    forall id | id in b.objects
      ensures HeadAgrees(b, id)
    {
      assert id != a.nextObject ==> HeadAgrees(a, id);
    }
  }

  /** Looking at one more row counts it exactly if it fits. */
  lemma OneRowMore(env: Env, rows: Authinfos, obj: nat, p: string, k: nat)
    requires k < |rows|
    ensures |FittingRows(env, rows, obj, p, k + 1)| == |FittingRows(env, rows, obj, p, k)| +
      if Fits(env, rows[k], obj, p) then 1 else 0
  {
    assert FittingRows(env, rows, obj, p, k + 1) == FittingRows(env, rows, obj, p, k) +
      if Fits(env, rows[k], obj, p) then {k} else {};
  }

  lemma NobodyVisits(env: Env, registry: Registry, rows: Authinfos, p: string)
    ensures VisitedByContacts(env, registry, rows, p, {}) == rows
  {
    assert forall a :: Users(env, registry, a, p, {}) == {};
  }

  /** `b` is `a` but for the use counts. */
  ghost predicate SameButUse(a: Authinfos, b: Authinfos) {
    |a| == |b| && forall i :: 0 <= i < |a| ==> b[i] == a[i].(useCount := b[i].useCount)
  }

  lemma UseDoesNotMatter(env: Env, a: Authinfos, b: Authinfos, id: nat, p: string)
    requires SameButUse(a, b)
    ensures SomeFits(env, b, id, p) <==> SomeFits(env, a, id, p)
    ensures SomeUnsupported(env, b, id, p) <==> SomeUnsupported(env, a, id, p)
  {
    forall i | 0 <= i < |a|
      ensures Fits(env, b[i], id, p) <==> Fits(env, a[i], id, p)
      ensures ValidAt(b[i], env.now) == ValidAt(a[i], env.now) && MatchOf(env, b[i], p) == MatchOf(env, a[i], p)
      ensures b[i].objectId == a[i].objectId
    {
    }
    if SomeUnsupported(env, a, id, p) {
      var i :| 0 <= i < |a| && a[i].objectId == id && ValidAt(a[i], env.now) && MatchOf(env, a[i], p).Unsupported?;
      assert b[i].objectId == id;
    }
    if SomeUnsupported(env, b, id, p) {
      var i :| 0 <= i < |b| && b[i].objectId == id && ValidAt(b[i], env.now) && MatchOf(env, b[i], p).Unsupported?;
      assert a[i].objectId == id;
    }
  }

  lemma UsersGrow(env: Env, registry: Registry, a: Authinfo, p: string, done: set<string>, h: string)
    requires h !in done
    ensures |Users(env, registry, a, p, done + {h})| == |Users(env, registry, a, p, done)| +
      if Find(env, registry, "contact", h) == {a.objectId} && Fits(env, a, a.objectId, p) then 1 else 0
  {
    var hit := Find(env, registry, "contact", h) == {a.objectId} && Fits(env, a, a.objectId, p);
    assert Users(env, registry, a, p, done + {h}) == Users(env, registry, a, p, done) + if hit then {h} else {};
  }

  /** Checking one more contact adds one use to each of its passwords that fits. */
  lemma ContactVisit(env: Env, registry: Registry, before: Authinfos, visited: Authinfos, p: string, done: set<string>,
                     h: string, id: nat)
    requires visited == VisitedByContacts(env, registry, before, p, done) && h !in done
    requires Find(env, registry, "contact", h) == {id}
    ensures VisitedByContacts(env, registry, before, p, done + {h}) == Visited(env, visited, id, p, false)
  {
    var after := VisitedByContacts(env, registry, before, p, done + {h});
    forall i | 0 <= i < |before|
      ensures after[i] == VisitedRow(env, visited[i], id, p, false)
    {
      UsersGrow(env, registry, before[i], p, done, h);
      assert Fits(env, visited[i], id, p) <==> Fits(env, before[i], id, p);
    }
  }

  lemma NoContactToVisit(env: Env, registry: Registry, before: Authinfos, p: string, done: set<string>, h: string)
    requires h !in done && forall id :: Find(env, registry, "contact", h) != {id}
    ensures VisitedByContacts(env, registry, before, p, done + {h}) == VisitedByContacts(env, registry, before, p, done)
  {
    forall i | 0 <= i < |before|
      ensures |Users(env, registry, before[i], p, done + {h})| == |Users(env, registry, before[i], p, done)|
    {
      UsersGrow(env, registry, before[i], p, done, h);
    }
  }
}
