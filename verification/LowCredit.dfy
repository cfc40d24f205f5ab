/** Poll messages about low credit: a batch job, and how often it can speak. */
module LowCredit {
  import opened Prelude

  /** A registrar and a zone. */
  datatype Key = Key(registrar: nat, zone: nat)

  /** A row of message joined with poll_credit. */
  datatype Message = Message(key: Key, crdate: int, limit: real, credit: real)

  /** A row of invoice joined with invoice_prefix. */
  datatype Invoice = Invoice(key: Key, typ: int, crdate: int)

  datatype Tables = Tables(
    messages: seq<Message>, invoices: seq<Invoice>, credits: map<Key, real>, limits: map<nat, real>)

  predicate IsAbout(m: Message, key: Key) {
    m.key == key
  }

  predicate Pays(i: Invoice, key: Key) {
    i.key == key && i.typ == 0
  }

  predicate IsLow(t: Tables, key: Key) {
    key in t.credits && key.zone in t.limits && t.credits[key] < t.limits[key.zone]
  }

  /** No message about the key yet, or an invoice dated after all of them. */
  ghost predicate IsDue(t: Tables, key: Key) {
    || (forall m :: m in t.messages ==> !IsAbout(m, key))
    || exists i :: i in t.invoices && Pays(i, key) &&
                   forall m :: m in t.messages && IsAbout(m, key) ==> m.crdate < i.crdate
  }

  ghost predicate Gets(t: Tables, key: Key) {
    IsLow(t, key) && IsDue(t, key)
  }

  function NewMessage(t: Tables, key: Key, now: int): Message
    requires key in t.credits && key.zone in t.limits
  {
    Message(key, now, t.limits[key.zone], t.credits[key])
  }

  /** One run of the job: one message for every key that gets one. */
  ghost predicate Ran(a: Tables, b: Tables, now: int) {
    && b.invoices == a.invoices && b.credits == a.credits && b.limits == a.limits
    && |a.messages| <= |b.messages| && b.messages[..|a.messages|] == a.messages
    && (forall k :: |a.messages| <= k < |b.messages| ==>
         Gets(a, b.messages[k].key) && b.messages[k] == NewMessage(a, b.messages[k].key, now))
    && (forall k, l :: |a.messages| <= k < l < |b.messages| ==> b.messages[k].key != b.messages[l].key)
    && (forall key :: Gets(a, key) ==> exists k :: |a.messages| <= k < |b.messages| && b.messages[k].key == key)
  }

  /** `added` holds one message for each of the keys that gets one, and no other. */
  ghost predicate MessagesFor(t: Tables, added: seq<Message>, keys: set<Key>, now: int) {
    && (forall k :: 0 <= k < |added| ==>
         && added[k].key in keys && Gets(t, added[k].key)
         && added[k] == NewMessage(t, added[k].key, now))
    && (forall k, l :: 0 <= k < l < |added| ==> added[k].key != added[l].key)
    && (forall key :: key in keys && Gets(t, key) ==> exists k :: 0 <= k < |added| && added[k].key == key)
  }

  class Poll {
    var messages: seq<Message>
    var invoices: seq<Invoice>
    var credits: map<Key, real>
    var limits: map<nat, real>

    ghost function Snapshot(): Tables
      reads this
    {
      Tables(messages, invoices, credits, limits)
    }

    /** MAX(crdate) of the messages about the key. */
    method LastMessage(key: Key) returns (last: Option<int>)
      ensures last.None? <==> forall m :: m in messages ==> !IsAbout(m, key)
      ensures last.Some? ==> exists m :: m in messages && IsAbout(m, key) && m.crdate == last.value
      ensures last.Some? ==> forall m :: m in messages && IsAbout(m, key) ==> m.crdate <= last.value
    {
      last := None;
      var k := 0;
      while k < |messages|
        invariant k <= |messages|
        invariant last.None? <==> forall m :: m in messages[..k] ==> !IsAbout(m, key)
        invariant last.Some? ==> (exists m :: m in messages[..k] && IsAbout(m, key) && m.crdate == last.value)
        invariant last.Some? ==> forall m :: m in messages[..k] && IsAbout(m, key) ==> m.crdate <= last.value
      {
        assert messages[..k + 1] == messages[..k] + [messages[k]];
        if IsAbout(messages[k], key) && (last.None? || last.value < messages[k].crdate) {
          last := Some(messages[k].crdate);
          assert messages[k] in messages[..k + 1];
        }
        k := k + 1;
      }
      assert messages[..k] == messages;
    }

    /** CreateLowCreditMessages::exec; the result is the number of messages created. */
    method CreateMessages(now: int) returns (created: nat)
      modifies `messages
      ensures Ran(old(Snapshot()), Snapshot(), now)
      ensures created == |messages| - |old(messages)|
    {
      ghost var start := Snapshot();
      var todo := credits.Keys;
      var added: seq<Message> := [];
      while todo != {}
        invariant todo <= credits.Keys && Snapshot() == start
        invariant MessagesFor(start, added, credits.Keys - todo, now)
      {
        var key :| key in todo;
        ghost var earlier := added;
        if key.zone in limits && credits[key] < limits[key.zone] {
          var last := LastMessage(key);
          var due := last.None? || exists i :: i in invoices && Pays(i, key) && last.value < i.crdate;
          DueByLast(start, key, last);
          if due {
            added := added + [Message(key, now, limits[key.zone], credits[key])];
          }
        }
        OneKeyMore(start, earlier, credits.Keys - todo, key, now, added);
        assert credits.Keys - (todo - {key}) == credits.Keys - todo + {key};
        todo := todo - {key};
      }
      assert credits.Keys - todo == credits.Keys;
      RunIsComplete(start, added, now);
      messages := messages + added;
      return |added|;
    }
  }

  /** What visiting one more key adds. */
  lemma OneKeyMore(t: Tables, added: seq<Message>, keys: set<Key>, key: Key, now: int, more: seq<Message>)
    requires MessagesFor(t, added, keys, now) && key !in keys
    requires more == if Gets(t, key) then added + [NewMessage(t, key, now)] else added
    ensures MessagesFor(t, more, keys + {key}, now)
  {
    assert forall k :: 0 <= k < |added| ==> more[k] == added[k];
    forall other | other in keys + {key} && Gets(t, other)
      ensures exists k :: 0 <= k < |more| && more[k].key == other
    {
      if other == key {
        assert more[|added|].key == key;
      } else {
        var k :| 0 <= k < |added| && added[k].key == other;
        assert more[k].key == other;
      }
    }
  }

  /** All keys visited make a run. */
  lemma RunIsComplete(a: Tables, added: seq<Message>, now: int)
    requires MessagesFor(a, added, a.credits.Keys, now)
    ensures Ran(a, a.(messages := a.messages + added), now)
  {
    var all := a.messages + added;
    assert all[..|a.messages|] == a.messages;
    assert forall k :: |a.messages| <= k < |all| ==> all[k] == added[k - |a.messages|];
    forall key | Gets(a, key)
      ensures exists k :: |a.messages| <= k < |all| && all[k].key == key
    {
      var k :| 0 <= k < |added| && added[k].key == key;
      assert all[|a.messages| + k].key == key;
    }
  }

  /**
   Exactly who gets a message: a registrar whose credit for a zone is below the limit of the zone, with no message
   about that yet, or with an invoice dated after all of them.
   */
  lemma RunLaw(a: Tables, b: Tables, now: int, key: Key)
    requires Ran(a, b, now)
    ensures (exists k :: |a.messages| <= k < |b.messages| && b.messages[k].key == key) <==>
      && key in a.credits && key.zone in a.limits && a.credits[key] < a.limits[key.zone]
      && ((forall m :: m in a.messages ==> m.key != key)
          || exists i :: && i in a.invoices && i.key == key && i.typ == 0
                         && forall m :: m in a.messages && m.key == key ==> m.crdate < i.crdate)
    ensures forall k :: |a.messages| <= k < |b.messages| && b.messages[k].key == key ==>
      && key in a.credits && key.zone in a.limits
      && b.messages[k] == Message(key, now, a.limits[key.zone], a.credits[key])
  {
    GetsOne(a, b, now, key);
    DueLaw(a, key);
    assert Gets(a, key) <==> IsLow(a, key) && IsDue(a, key);
  }

  lemma GetsOne(a: Tables, b: Tables, now: int, key: Key)
    requires Ran(a, b, now)
    ensures (exists k :: |a.messages| <= k < |b.messages| && b.messages[k].key == key) <==> Gets(a, key)
  {
    if k :| |a.messages| <= k < |b.messages| && b.messages[k].key == key {
      assert Gets(a, b.messages[k].key);
    }
  }

  lemma DueLaw(t: Tables, key: Key)
    ensures IsDue(t, key) <==>
      || (forall m :: m in t.messages ==> m.key != key)
      || exists i :: && i in t.invoices && i.key == key && i.typ == 0
                     && forall m :: m in t.messages && m.key == key ==> m.crdate < i.crdate
  {
    if i :| i in t.invoices && i.key == key && i.typ == 0 &&
            forall m :: m in t.messages && m.key == key ==> m.crdate < i.crdate {
      assert Pays(i, key) && forall m :: m in t.messages && IsAbout(m, key) ==> m.crdate < i.crdate;
    }
  }

  /** Comparing with the last message is comparing with all of them. */
  lemma DueByLast(t: Tables, key: Key, last: Option<int>)
    requires last.None? <==> forall m :: m in t.messages ==> !IsAbout(m, key)
    requires last.Some? ==> exists m :: m in t.messages && IsAbout(m, key) && m.crdate == last.value
    requires last.Some? ==> forall m :: m in t.messages && IsAbout(m, key) ==> m.crdate <= last.value
    ensures IsDue(t, key) <==> last.None? || exists i :: i in t.invoices && Pays(i, key) && last.value < i.crdate
  {
  }

  // ---------------------------------------------------------------- repeating a run

  /** A run at `now` speaks about the key although an invoice for it is dated in the future. */
  ghost predicate Early(t: Tables, key: Key, now: int) {
    Gets(t, key) && exists i :: i in t.invoices && Pays(i, key) && now < i.crdate
  }

  /** The messages about a key after a run: those from before, and one dated now exactly if the key gets one. */
  lemma MessagesAfter(a: Tables, b: Tables, now: int, key: Key)
    requires Ran(a, b, now)
    ensures forall m :: m in a.messages ==> m in b.messages
    ensures forall m :: m in b.messages && IsAbout(m, key) ==> m in a.messages || (Gets(a, key) && m.crdate == now)
    ensures Gets(a, key) ==> exists m :: m in b.messages && IsAbout(m, key) && m.crdate == now
  {
    assert forall m :: m in b.messages[..|a.messages|] ==> m in b.messages;
    forall m | m in b.messages && IsAbout(m, key)
      ensures m in a.messages || (Gets(a, key) && m.crdate == now)
    {
      var k :| 0 <= k < |b.messages| && b.messages[k] == m;
      assert k < |a.messages| ==> b.messages[..|a.messages|][k] == m;
    }
    if Gets(a, key) {
      var k :| |a.messages| <= k < |b.messages| && b.messages[k].key == key;
      assert b.messages[k] in b.messages && b.messages[k].crdate == now && IsAbout(b.messages[k], key);
    }
  }

  /** A second run of the job at a later time speaks about a key exactly if the first run did so early. */
  lemma RepeatIsSilent(a: Tables, b: Tables, now: int, key: Key)
    requires Ran(a, b, now) && forall m :: m in a.messages && IsAbout(m, key) ==> m.crdate <= now
    ensures Gets(b, key) <==> Early(a, key, now)
  {
    MessagesAfter(a, b, now, key);
    if Gets(a, key) {
      assert forall m :: m in b.messages && IsAbout(m, key) ==> m.crdate <= now;
      assert IsDue(b, key) <==> exists i :: i in a.invoices && Pays(i, key) && now < i.crdate;
    } else {
      assert IsDue(b, key) ==> IsDue(a, key);
    }
  }

  // ---------------------------------------------------------------- the bound over runs

  datatype Op = Job(now: int) | Other

  /** Between runs of the job invoices are added, and credits and limits change in any way. */
  ghost predicate Step(a: Tables, b: Tables, op: Op) {
    match op
    case Job(now) => Ran(a, b, now)
    case Other => b.messages == a.messages && |a.invoices| <= |b.invoices| && b.invoices[..|a.invoices|] == a.invoices
  }

  /** The job runs at times that never go back, and never speaks about the key early. */
  ghost predicate IsRun(run: seq<Tables>, ops: seq<Op>, times: seq<int>, key: Key) {
    && |run| == |ops| + 1 == |times| + 1
    && run[0].messages == []
    && (forall k, l :: 0 <= k <= l < |times| ==> times[k] <= times[l])
    && forall k :: 0 <= k < |ops| ==>
         && Step(run[k], run[k + 1], ops[k])
         && (ops[k].Job? ==> ops[k].now == times[k] && !Early(run[k], key, times[k]))
  }

  function About(messages: seq<Message>, key: Key): seq<Message> {
    if messages == [] then [] else
      About(messages[..|messages| - 1], key) +
        if IsAbout(messages[|messages| - 1], key) then [messages[|messages| - 1]] else []
  }

  /** The invoices for the key dated after `from`, up to `to`. */
  function PaidBetween(invoices: seq<Invoice>, key: Key, from: int, to: int): set<nat> {
    set i: nat | i < |invoices| && Pays(invoices[i], key) && from < invoices[i].crdate <= to
  }

  function PaidAfter(invoices: seq<Invoice>, key: Key, from: int): set<nat> {
    set i: nat | i < |invoices| && Pays(invoices[i], key) && from < invoices[i].crdate
  }

  /**
   What the bound rests on: every message but the first is matched by an invoice dated since the first and no
   later than the last.
   */
  ghost predicate Matched(t: Tables, key: Key, now: int) {
    var ms := About(t.messages, key);
    ms != [] ==>
      && ms[|ms| - 1].crdate <= now
      && |ms| <= 1 + |PaidBetween(t.invoices, key, ms[0].crdate, ms[|ms| - 1].crdate)|
      && forall k :: 0 <= k < |ms| ==> ms[k].crdate <= ms[|ms| - 1].crdate
  }

  lemma {:induction false} AboutConcat(a: seq<Message>, b: seq<Message>, key: Key)
    ensures About(a + b, key) == About(a, key) + About(b, key)
  {
    if b == [] {
      assert a + b == a;
    } else {
      var init := b[..|b| - 1];
      AboutConcat(a, init, key);
      assert (a + b)[..|a + b| - 1] == a + init;
    }
  }

  /** Of messages with different keys, at most one is about a key. */
  lemma {:induction false} AboutDistinct(ms: seq<Message>, key: Key)
    requires forall k, l :: 0 <= k < l < |ms| ==> ms[k].key != ms[l].key
    ensures (forall k :: 0 <= k < |ms| ==> ms[k].key != key) ==> About(ms, key) == []
    ensures forall k :: 0 <= k < |ms| && ms[k].key == key ==> About(ms, key) == [ms[k]]
  {
    if ms != [] {
      AboutDistinct(ms[..|ms| - 1], key);
    }
  }

  lemma {:induction false} AboutMembers(ms: seq<Message>, key: Key)
    ensures forall m :: m in About(ms, key) <==> m in ms && IsAbout(m, key)
  {
    if ms != [] {
      AboutMembers(ms[..|ms| - 1], key);
      assert ms == ms[..|ms| - 1] + [ms[|ms| - 1]];
    }
  }

  lemma StepKeepsMatched(a: Tables, b: Tables, op: Op, key: Key, before: int, now: int)
    requires Step(a, b, op) && Matched(a, key, before) && before <= now
    requires op.Job? ==> op.now == now && !Early(a, key, now)
    ensures Matched(b, key, now)
  {
    if op.Other? {
      var ms := About(a.messages, key);
      if ms != [] {
        var first, last := ms[0].crdate, ms[|ms| - 1].crdate;
        var old_, new_ := PaidBetween(a.invoices, key, first, last), PaidBetween(b.invoices, key, first, last);
        assert forall i :: 0 <= i < |a.invoices| ==> b.invoices[..|a.invoices|][i] == b.invoices[i];
        SubsetSize(old_, new_);
      }
    } else {
      JobKeepsMatched(a, b, key, before, now);
    }
  }

  /** A run of the job adds one message about a key, dated now, exactly when the key gets one. */
  lemma JobAddsOne(a: Tables, b: Tables, key: Key, now: int)
    requires Ran(a, b, now)
    ensures Gets(a, key) ==> OneMore(a.messages, b.messages, key, now)
    ensures !Gets(a, key) ==> About(b.messages, key) == About(a.messages, key)
  {
    var added := b.messages[|a.messages|..];
    assert b.messages == a.messages + added;
    AddedByJob(a, b, key, now);
    AddedAbout(a.messages, added, key, now);
  }

  ghost predicate OneMore(old_: seq<Message>, new_: seq<Message>, key: Key, now: int) {
    exists m: Message :: m.key == key && m.crdate == now && About(new_, key) == About(old_, key) + [m]
  }

  lemma AddedAbout(messages: seq<Message>, added: seq<Message>, key: Key, now: int)
    requires forall k :: 0 <= k < |added| ==> added[k].crdate == now
    requires forall k, l :: 0 <= k < l < |added| ==> added[k].key != added[l].key
    ensures (exists k :: 0 <= k < |added| && added[k].key == key) ==> OneMore(messages, messages + added, key, now)
    ensures (forall k :: 0 <= k < |added| ==> added[k].key != key) ==>
              About(messages + added, key) == About(messages, key)
  {
    AboutConcat(messages, added, key);
    AboutDistinct(added, key);
    if k :| 0 <= k < |added| && added[k].key == key {
      assert About(messages + added, key) == About(messages, key) + [added[k]];
    }
  }

  lemma AddedByJob(a: Tables, b: Tables, key: Key, now: int)
    requires Ran(a, b, now)
    ensures var added := b.messages[|a.messages|..];
      && (forall k :: 0 <= k < |added| ==> added[k].crdate == now)
      && (forall k, l :: 0 <= k < l < |added| ==> added[k].key != added[l].key)
      && (Gets(a, key) <==> exists k :: 0 <= k < |added| && added[k].key == key)
  {
    var added := b.messages[|a.messages|..];
    assert forall k :: 0 <= k < |added| ==> added[k] == b.messages[|a.messages| + k];
    if Gets(a, key) {
      var k :| |a.messages| <= k < |b.messages| && b.messages[k].key == key;
      assert added[k - |a.messages|].key == key;
    }
  }

  lemma JobKeepsMatched(a: Tables, b: Tables, key: Key, before: int, now: int)
    requires Ran(a, b, now) && Matched(a, key, before) && before <= now && !Early(a, key, now)
    ensures Matched(b, key, now)
  {
    JobAddsOne(a, b, key, now);
    var ms, more := About(a.messages, key), About(b.messages, key);
    if Gets(a, key) {
      var m: Message :| m.key == key && m.crdate == now && more == ms + [m];
      if ms != [] {
        assert more[0] == ms[0];
        OneMoreInvoice(a, key, ms[0].crdate, ms[|ms| - 1].crdate, now, ms);
      }
    }
  }

  lemma OneMoreInvoice(a: Tables, key: Key, first: int, last: int, now: int, ms: seq<Message>)
    requires Gets(a, key) && !Early(a, key, now) && ms == About(a.messages, key) && ms != []
    requires ms[0].crdate == first <= last <= now && ms[|ms| - 1].crdate == last
    ensures |PaidBetween(a.invoices, key, first, last)| + 1 <= |PaidBetween(a.invoices, key, first, now)|
  {
    AboutMembers(a.messages, key);
    var m := ms[|ms| - 1];
    assert m in ms && m in a.messages && IsAbout(m, key);
    var paid :| paid in a.invoices && Pays(paid, key) &&
                forall m :: m in a.messages && IsAbout(m, key) ==> m.crdate < paid.crdate;
    var i: nat :| i < |a.invoices| && a.invoices[i] == paid;
    var old_, new_ := PaidBetween(a.invoices, key, first, last), PaidBetween(a.invoices, key, first, now);
    assert i in new_ && i !in old_ && old_ <= new_;
    SubsetSize(old_, new_);
  }

  lemma {:induction false} MatchedOverRuns(run: seq<Tables>, ops: seq<Op>, times: seq<int>, key: Key, k: nat)
    requires IsRun(run, ops, times, key) && 0 < k < |run|
    ensures Matched(run[k], key, times[k - 1])
  {
    if k == 1 {
      StepKeepsMatched(run[0], run[1], ops[0], key, times[0], times[0]);
    } else {
      MatchedOverRuns(run, ops, times, key, k - 1);
      StepKeepsMatched(run[k - 1], run[k], ops[k - 1], key, times[k - 2], times[k - 1]);
    }
  }

  /** At most one message more about the key than invoices dated after the first. */
  ghost predicate Bounded(t: Tables, key: Key) {
    var ms := About(t.messages, key);
    ms != [] ==> |ms| <= 1 + |PaidAfter(t.invoices, key, ms[0].crdate)|
  }

  lemma MatchedIsBounded(t: Tables, key: Key, now: int)
    requires Matched(t, key, now)
    ensures Bounded(t, key)
  {
    var ms := About(t.messages, key);
    if ms != [] {
      SubsetSize(PaidBetween(t.invoices, key, ms[0].crdate, ms[|ms| - 1].crdate),
                 PaidAfter(t.invoices, key, ms[0].crdate));
    }
  }

  /** Over any run, a registrar gets for a zone at most one message more than it has invoices dated after the first. */
  lemma MessagesAreBounded(run: seq<Tables>, ops: seq<Op>, times: seq<int>, key: Key, k: nat)
    requires IsRun(run, ops, times, key) && k < |run|
    ensures Bounded(run[k], key)
  {
    if k > 0 {
      MatchedOverRuns(run, ops, times, key, k);
      MatchedIsBounded(run[k], key, times[k - 1]);
    }
  }

  // ---------------------------------------------------------------- the exact condition

  /** The job runs again and again from `now` on, and nothing else happens. */
  ghost predicate Repeats(t: Tables, run: seq<Tables>, times: seq<int>, now: int) {
    && |run| == |times| + 1 && run[0] == t
    && (forall k :: 0 <= k < |times| ==> now <= times[k] && Ran(run[k], run[k + 1], times[k]))
    && forall k, l :: 0 <= k <= l < |times| ==> times[k] <= times[l]
  }

  /** Messages were added, nothing else changed. */
  ghost predicate Grown(a: Tables, b: Tables) {
    && b.invoices == a.invoices && b.credits == a.credits && b.limits == a.limits
    && forall m :: m in a.messages ==> m in b.messages
  }

  lemma RanGrows(a: Tables, b: Tables, now: int)
    requires Ran(a, b, now)
    ensures Grown(a, b)
  {
    assert forall m :: m in b.messages[..|a.messages|] ==> m in b.messages;
  }

  /** More messages make no run early that was not. */
  lemma StaysTimely(a: Tables, b: Tables, key: Key, now: int, later: int)
    requires Grown(a, b) && now <= later && !Early(a, key, now)
    ensures !Early(b, key, later)
  {
    assert Gets(b, key) ==> Gets(a, key);
  }

  lemma {:induction false} RepeatsStayMatched(t: Tables, run: seq<Tables>, times: seq<int>, now: int, key: Key, k: nat)
    requires Repeats(t, run, times, now) && k < |run|
    requires Matched(t, key, now) && !Early(t, key, now)
    ensures Grown(t, run[k]) && Matched(run[k], key, if k == 0 then now else times[k - 1])
  {
    if k > 0 {
      RepeatsStayMatched(t, run, times, now, key, k - 1);
      StaysTimely(t, run[k - 1], key, now, times[k - 1]);
      JobKeepsMatched(run[k - 1], run[k], key, if k == 1 then now else times[k - 2], times[k - 1]);
      RanGrows(run[k - 1], run[k], times[k - 1]);
    }
  }

  lemma {:induction false} SomeMessages(t: Tables, keys: set<Key>, now: int) returns (added: seq<Message>)
    ensures MessagesFor(t, added, keys, now)
  {
    added := [];
    if key :| key in keys {
      var others := SomeMessages(t, keys - {key}, now);
      added := if Gets(t, key) then others + [NewMessage(t, key, now)] else others;
      OneKeyMore(t, others, keys - {key}, key, now, added);
      assert keys - {key} + {key} == keys;
    }
  }

  /** The job can always run. */
  lemma NextRun(a: Tables, now: int) returns (b: Tables)
    ensures Ran(a, b, now)
  {
    var added := SomeMessages(a, a.credits.Keys, now);
    RunIsComplete(a, added, now);
    b := a.(messages := a.messages + added);
  }

  ghost predicate NoneLater(t: Tables, key: Key, now: int) {
    forall m :: m in t.messages && IsAbout(m, key) ==> m.crdate <= now
  }

  lemma MatchedIsNotLater(t: Tables, key: Key, now: int)
    requires Matched(t, key, now)
    ensures NoneLater(t, key, now)
  {
    AboutMembers(t.messages, key);
    forall m | m in t.messages && IsAbout(m, key)
      ensures m.crdate <= now
    {
      assert m in About(t.messages, key);
    }
  }

  /** A run that is early leaves the next one at the same time just as early, with one message more. */
  lemma EarlyAgain(a: Tables, b: Tables, key: Key, now: int)
    requires Ran(a, b, now) && Early(a, key, now) && NoneLater(a, key, now)
    ensures Early(b, key, now) && NoneLater(b, key, now)
    ensures |About(b.messages, key)| == |About(a.messages, key)| + 1
  {
    RepeatIsSilent(a, b, now, key);
    JobAddsOne(a, b, key, now);
    MessagesAfter(a, b, now, key);
  }

  /** Once early, the job can send any number of messages. */
  lemma {:induction false} EarlyRuns(t: Tables, key: Key, now: int, n: nat) returns (run: seq<Tables>, times: seq<int>)
    requires Early(t, key, now) && NoneLater(t, key, now)
    ensures Repeats(t, run, times, now) && |run| == n + 1 && run[n].invoices == t.invoices
    ensures Early(run[n], key, now) && NoneLater(run[n], key, now)
    ensures forall k :: 0 <= k < |times| ==> times[k] == now
    ensures |About(run[n].messages, key)| == |About(t.messages, key)| + n
  {
    if n == 0 {
      run, times := [t], [];
    } else {
      var earlier, before := EarlyRuns(t, key, now, n - 1);
      var b := NextRun(earlier[n - 1], now);
      EarlyAgain(earlier[n - 1], b, key, now);
      RepeatsOnce(t, earlier, before, now, b);
      run, times := earlier + [b], before + [now];
    }
  }

  lemma RepeatsOnce(t: Tables, run: seq<Tables>, times: seq<int>, now: int, b: Tables)
    requires Repeats(t, run, times, now) && Ran(run[|run| - 1], b, now)
    requires forall k :: 0 <= k < |times| ==> times[k] == now
    ensures Repeats(t, run + [b], times + [now], now)
  {
    var more := run + [b];
    assert forall k :: 0 <= k < |run| ==> more[k] == run[k];
  }

  lemma {:induction false} FewPaid(invoices: seq<Invoice>, key: Key, from: int)
    ensures |PaidAfter(invoices, key, from)| <= |invoices|
  {
    if invoices != [] {
      var init := invoices[..|invoices| - 1];
      FewPaid(init, key, from);
      SubsetSize(PaidAfter(invoices, key, from) - {|init|}, PaidAfter(init, key, from));
    }
  }

  /**
   From any state in which all is well so far, the bound holds however often the job runs from `now`
   on, if and only if the run at `now` would not be early.
   */
  lemma BoundLaw(t: Tables, key: Key, now: int)
    requires Matched(t, key, now)
    ensures (forall run, times :: Repeats(t, run, times, now) ==> Bounded(run[|run| - 1], key)) <==> !Early(t, key, now)
  {
    if Early(t, key, now) {
      MatchedIsNotLater(t, key, now);
      var n := |t.invoices| + 2;
      var run, times := EarlyRuns(t, key, now, n);
      FewPaid(t.invoices, key, About(run[n].messages, key)[0].crdate);
      assert Repeats(t, run, times, now) && !Bounded(run[|run| - 1], key);
    } else {
      forall run, times | Repeats(t, run, times, now)
        ensures Bounded(run[|run| - 1], key)
      {
        RepeatsStayMatched(t, run, times, now, key, |times|);
        MatchedIsBounded(run[|times|], key, if |times| == 0 then now else times[|times| - 1]);
      }
    }
  }

  // ---------------------------------------------------------------- without the condition

  /** One registrar, always short of credit, one invoice dated 100, and the messages of the first `n` instants. */
  function Short(n: nat): Tables {
    var key := Key(1, 1);
    Tables(seq(n, i requires 0 <= i < n => Message(key, i + 1, 10.0, 5.0)), [Invoice(key, 0, 100)],
           map[key := 5.0], map[1 := 10.0])
  }

  lemma {:induction false} ShortRuns(n: nat)
    requires n < 99
    ensures Ran(Short(n), Short(n + 1), n + 1)
    ensures |About(Short(n).messages, Key(1, 1))| == n
  {
    var a, b, key := Short(n), Short(n + 1), Key(1, 1);
    assert a.invoices[0] in a.invoices && Pays(a.invoices[0], key);
    assert Gets(a, key);
    assert b.messages[n].key == key;
    if n > 0 {
      ShortRuns(n - 1);
      assert a.messages[..n - 1] == Short(n - 1).messages;
    }
  }

  /**
   With an invoice dated in the future every run speaks: three messages, though one invoice is dated after
   the first.
   */
  lemma FutureInvoiceBreaksTheBound()
    ensures Ran(Short(0), Short(1), 1) && Ran(Short(1), Short(2), 2) && Ran(Short(2), Short(3), 3)
    ensures var ms := About(Short(3).messages, Key(1, 1));
      ms != [] && |ms| > 1 + |PaidAfter(Short(3).invoices, Key(1, 1), 1)|
  {
    ShortRuns(0);
    ShortRuns(1);
    ShortRuns(2);
    ShortRuns(3);
    FewPaid(Short(3).invoices, Key(1, 1), 1);
  }
}
