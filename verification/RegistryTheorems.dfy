/**
 The main results about registrable objects: in every state of every run the newest history row agrees
 with the live object, passwords are used up one way, and a transfer password works once.
 */
module RegistryTheorems {
  import opened Prelude
  import opened RegistryModel
  import opened RegistrySteps

  datatype Op =
    | CreateObject(env: Env, typeName: string, handle: string, registrar: nat, requestId: Option<nat>)
    | UpdateObject(env: Env, objectId: nat, registrar: nat, encrypted: Option<string>, requestId: Option<nat>)
    | TransferObject(env: Env, objectId: nat, registrar: nat, password: string, contacts: set<string>,
                     requestId: Option<nat>)
    | DeleteObject(env: Env, objectId: nat)
    | StorePassword(env: Env, objectId: nat, registrar: nat, ttl: int, stored: string)
    | CheckPassword(env: Env, objectId: nat, password: string, cancel: bool)
    | CleanPasswords(env: Env, objectId: nat)
    | CleanExpiredPasswords(env: Env)

  ghost predicate Step(a: Tables, b: Tables, op: Op) {
    match op
    case CreateObject(env, typeName, handle, registrar, requestId) =>
      CreateStep(env, a, b, typeName, handle, registrar, requestId)
    case UpdateObject(env, obj, registrar, encrypted, requestId) =>
      UpdateStep(env, a, b, obj, registrar, encrypted, requestId)
    case TransferObject(env, obj, registrar, p, contacts, requestId) =>
      TransferStep(env, a, b, obj, registrar, p, contacts, requestId)
    case DeleteObject(env, obj) => DeleteStep(env, a, b, obj)
    case StorePassword(env, obj, registrar, ttl, stored) =>
      stored != "" && 0 < ttl && b == a.(authinfos := Stored(env, a.authinfos, obj, registrar, ttl, stored))
    case CheckPassword(env, obj, p, cancel) => b == a.(authinfos := Visited(env, a.authinfos, obj, p, cancel))
    case CleanPasswords(env, obj) => b == a.(authinfos := Cleaned(a.authinfos, obj, env.now))
    case CleanExpiredPasswords(env) => b == a.(authinfos := CleanedExpired(a.authinfos, env.now))
  }

  ghost predicate IsRun(run: seq<Tables>, ops: seq<Op>) {
    && |run| == |ops| + 1
    && Valid(run[0]) && OneLivePerRegistrar(run[0].authinfos)
    && (forall k :: 0 <= k < |ops| ==> Step(run[k], run[k + 1], ops[k]))
    && forall k, l :: 0 <= k <= l < |ops| ==> ops[k].env.now <= ops[l].env.now
  }

  // ---------------------------------------------------------------- history

  lemma StepKeepsValid(a: Tables, b: Tables, op: Op)
    requires Valid(a) && Step(a, b, op)
    ensures Valid(b)
    ensures forall h :: h in a.history ==> h in b.history && b.history[h] == a.history[h]
  {
    match op
    case CreateObject(env, typeName, handle, registrar, requestId) =>
      CreateKeepsValid(env, a, b, typeName, handle, registrar, requestId);
    case UpdateObject(env, obj, registrar, encrypted, requestId) =>
      RewriteKeepsValid(a, b, obj, b.objects[obj], requestId);
    case TransferObject(env, obj, registrar, p, contacts, requestId) =>
      RewriteKeepsValid(a, b, obj, b.objects[obj], requestId);
    case DeleteObject(env, obj) =>
      forall id | id in b.objects
        ensures HeadAgrees(b, id)
      {
        assert HeadAgrees(a, id);
      }
    case _ =>
      forall id | id in b.objects
        ensures HeadAgrees(b, id)
      {
        assert HeadAgrees(a, id);
      }
  }

  /** In every state of every run the history row the registry names for a live object is a copy of the live row. */
  lemma {:induction false} HistoryAgreesOverRuns(run: seq<Tables>, ops: seq<Op>, k: nat, id: nat)
    requires IsRun(run, ops) && k < |run|
    ensures Valid(run[k])
    ensures id in run[k].objects ==> HeadAgrees(run[k], id)
  {
    if k > 0 {
      HistoryAgreesOverRuns(run, ops, k - 1, id);
      StepKeepsValid(run[k - 1], run[k], ops[k - 1]);
    }
  }

  /** History is only ever appended to. */
  lemma {:induction false} HistoryIsAppendOnly(run: seq<Tables>, ops: seq<Op>, j: nat, k: nat, h: nat)
    requires IsRun(run, ops) && j <= k < |run| && h in run[j].history
    ensures h in run[k].history && run[k].history[h] == run[j].history[h]
    decreases k - j
  {
    if j < k {
      HistoryIsAppendOnly(run, ops, j, k - 1, h);
      NextKeepsHistory(run, ops, k, h);
    }
  }

  lemma NextKeepsHistory(run: seq<Tables>, ops: seq<Op>, k: nat, h: nat)
    requires IsRun(run, ops) && 0 < k < |run| && h in run[k - 1].history
    ensures h in run[k].history && run[k].history[h] == run[k - 1].history[h]
  {
    HistoryAgreesOverRuns(run, ops, k - 1, 0);
    StepKeepsValid(run[k - 1], run[k], ops[k - 1]);
  }

  // ---------------------------------------------------------------- passwords

  /** Rows stay, keep their owner and expiry, and a row that is live now was live before with the same password. */
  ghost predicate OneWay(a: Authinfos, b: Authinfos) {
    |a| <= |b| && forall i :: 0 <= i < |a| ==> RowOneWay(a[i], b[i])
  }

  ghost predicate RowOneWay(a: Authinfo, b: Authinfo) {
    && b.objectId == a.objectId && b.registrarId == a.registrarId && b.expiresAt == a.expiresAt
    && b.useCount >= a.useCount
    && (Live(b) ==> Live(a) && b.password == a.password)
    && (a.canceledAt.Some? ==> b.canceledAt == a.canceledAt)
  }

  lemma OneWayTransitive(a: Authinfos, b: Authinfos, c: Authinfos)
    requires OneWay(a, b) && OneWay(b, c)
    ensures OneWay(a, c)
  {
    forall i | 0 <= i < |a|
      ensures RowOneWay(a[i], c[i])
    {
      assert RowOneWay(a[i], b[i]) && RowOneWay(b[i], c[i]);
    }
  }

  /** The operations that give an object a new password. */
  predicate StoresFor(op: Op, obj: nat) {
    (op.StorePassword? && op.objectId == obj) || (op.UpdateObject? && op.objectId == obj && op.encrypted.Some?)
  }

  lemma StoredIsOneWay(env: Env, rows: Authinfos, obj: nat, registrar: nat, ttl: int, stored: string)
    requires stored != "" && OneLivePerRegistrar(rows)
    ensures var out := Stored(env, rows, obj, registrar, ttl, stored);
      OneWay(rows, out) && OneLivePerRegistrar(out) && forall i :: |rows| <= i < |out| ==> out[i].objectId == obj
  {
  }

  lemma TransferIsOneWay(env: Env, a: Tables, obj: nat, p: string, contacts: set<string>)
    requires OneLivePerRegistrar(a.authinfos)
    ensures var out := Transferred(env, a, obj, p, contacts);
      OneWay(a.authinfos, out) && OneLivePerRegistrar(out) && |out| == |a.authinfos|
  {
    var visited := Visited(env, a.authinfos, obj, p, true);
    var checked := VisitedByContacts(env, a.registry, visited, p, contacts);
    assert OneWay(a.authinfos, visited) && OneWay(visited, checked);
  }

  lemma StepIsOneWay(a: Tables, b: Tables, op: Op)
    requires OneLivePerRegistrar(a.authinfos) && Step(a, b, op)
    ensures OneWay(a.authinfos, b.authinfos) && OneLivePerRegistrar(b.authinfos)
    ensures forall i :: |a.authinfos| <= i < |b.authinfos| ==> StoresFor(op, b.authinfos[i].objectId)
  {
    match op
    case UpdateObject(env, obj, registrar, encrypted, requestId) =>
      if encrypted.Some? {
        StoredIsOneWay(env, a.authinfos, obj, registrar, env.authinfoTtl, encrypted.value);
      }
    case StorePassword(env, obj, registrar, ttl, stored) =>
      StoredIsOneWay(env, a.authinfos, obj, registrar, ttl, stored);
    case TransferObject(env, obj, registrar, p, contacts, requestId) =>
      TransferIsOneWay(env, a, obj, p, contacts);
    case _ =>
  }

  /** In every run an object has at most one live password from each registrar, so deactivating finds at most one. */
  lemma {:induction false} OneLivePasswordOverRuns(run: seq<Tables>, ops: seq<Op>, k: nat)
    requires IsRun(run, ops) && k < |run|
    ensures OneLivePerRegistrar(run[k].authinfos)
  {
    if k > 0 {
      OneLivePasswordOverRuns(run, ops, k - 1);
      StepIsOneWay(run[k - 1], run[k], ops[k - 1]);
    }
  }

  /** A password that stopped being live never becomes live again, in any run. */
  lemma {:induction false} PasswordsExpireForGood(run: seq<Tables>, ops: seq<Op>, j: nat, k: nat)
    requires IsRun(run, ops) && j <= k < |run|
    ensures OneWay(run[j].authinfos, run[k].authinfos)
    decreases k - j
  {
    if j < k {
      PasswordsExpireForGood(run, ops, j, k - 1);
      OneLivePasswordOverRuns(run, ops, k - 1);
      StepIsOneWay(run[k - 1], run[k], ops[k - 1]);
      OneWayTransitive(run[j].authinfos, run[k - 1].authinfos, run[k].authinfos);
    }
  }

  // ---------------------------------------------------------------- single use

  /** No password of `obj` that is valid at `t` is fitted by `p`. */
  ghost predicate NoneFits(matches: (string, string) -> MatchResult, rows: Authinfos, obj: nat, p: string, t: int) {
    forall i :: 0 <= i < |rows| && rows[i].objectId == obj && ValidAt(rows[i], t) ==>
      !matches(p, rows[i].password.value).Correct?
  }

  /** A successful transfer uses up every valid password of the object that the given one fits. */
  lemma TransferUsesUp(env: Env, a: Tables, b: Tables, obj: nat, registrar: nat, p: string, contacts: set<string>,
                       requestId: Option<nat>)
    requires TransferStep(env, a, b, obj, registrar, p, contacts, requestId)
    ensures NoneFits(env.matches, b.authinfos, obj, p, env.now)
  {
    var visited := Visited(env, a.authinfos, obj, p, true);
    var checked := VisitedByContacts(env, a.registry, visited, p, contacts);
    assert NoneFits(env.matches, visited, obj, p, env.now);
    assert NoneFits(env.matches, checked, obj, p, env.now);
  }

  lemma StepKeepsNoneFits(matches: (string, string) -> MatchResult, a: Tables, b: Tables, op: Op, obj: nat, p: string,
                          t: int, u: int)
    requires OneLivePerRegistrar(a.authinfos) && Step(a, b, op) && !StoresFor(op, obj) && t <= u
    requires NoneFits(matches, a.authinfos, obj, p, t)
    ensures NoneFits(matches, b.authinfos, obj, p, u)
  {
    StepIsOneWay(a, b, op);
    forall i | 0 <= i < |b.authinfos| && b.authinfos[i].objectId == obj && ValidAt(b.authinfos[i], u)
      ensures !matches(p, b.authinfos[i].password.value).Correct?
    {
      assert i < |a.authinfos|;
      assert ValidAt(a.authinfos[i], t);
    }
  }

  lemma {:induction false} NoneFitsUntilStored(matches: (string, string) -> MatchResult, run: seq<Tables>,
                                               ops: seq<Op>, j: nat, k: nat, obj: nat, p: string, t: int, u: int)
    requires IsRun(run, ops) && j <= k < |run| && t <= u
    requires forall l :: j <= l < k ==> !StoresFor(ops[l], obj)
    requires NoneFits(matches, run[j].authinfos, obj, p, t)
    ensures NoneFits(matches, run[k].authinfos, obj, p, u)
    decreases k - j
  {
    if j < k {
      NoneFitsUntilStored(matches, run, ops, j, k - 1, obj, p, t, u);
      OneLivePasswordOverRuns(run, ops, k - 1);
      StepKeepsNoneFits(matches, run[k - 1], run[k], ops[k - 1], obj, p, u, u);
    }
  }

  /**
   A transfer password is used once: after a transfer of `obj` with `p`, and until a new password is
   stored for `obj`, no further transfer of `obj` with `p` is authorised by the object itself.
   */
  lemma TransferPasswordIsSingleUse(run: seq<Tables>, ops: seq<Op>, j: nat, k: nat, env: Env, contacts: set<string>)
    requires IsRun(run, ops) && j < k < |run| && ops[j].TransferObject?
    requires forall l :: j < l < k ==> !StoresFor(ops[l], ops[j].objectId)
    requires ops[j].env.now <= env.now && env.matches == ops[j].env.matches
    requires forall h :: h in contacts ==>
      !Authorizes(env, run[k].registry, Visited(env, run[k].authinfos, ops[j].objectId, ops[j].password, true),
                  ops[j].password, h)
    ensures !Authorized(env, run[k], ops[j].objectId, ops[j].password, contacts)
    ensures forall b, registrar, requestId ::
      !TransferStep(env, run[k], b, ops[j].objectId, registrar, ops[j].password, contacts, requestId)
  {
    var op := ops[j];
    TransferUsesUp(op.env, run[j], run[j + 1], op.objectId, op.registrar, op.password, op.contacts, op.requestId);
    NoneFitsUntilStored(env.matches, run, ops, j + 1, k, op.objectId, op.password, op.env.now, env.now);
    forall i | 0 <= i < |run[k].authinfos|
      ensures !Fits(env, run[k].authinfos[i], op.objectId, op.password)
    {
    }
  }
}
