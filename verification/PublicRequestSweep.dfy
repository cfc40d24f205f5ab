/**
 The cascade as a function of the numbers of opened requests: what `Sweep` leaves opened, and how a
 visit of all requests of one type, made one nested update at a time, computes it.
 */
module PublicRequestSweep {
  import opened Prelude
  import opened PublicRequestModel

  // ---------------------------------------------------------------- Sweep

  lemma {:induction false} SweepOneMore(types: Types, open: multiset<string>, ts: seq<Iface>, k: nat)
    requires k < |ts|
    ensures var before := Sweep(types, open, ts[..k]);
      Sweep(types, open, ts[..k + 1]) == if before.None? then None else Visit(types, before.value, ts[k])
    decreases k
  {
    var more := ts[..k + 1];
    var visited := Visit(types, open, ts[0]);
    if k == 0 {
      assert more[1..] == [];
    } else if visited.Some? {
      SweepOneMore(types, visited.value, ts[1..], k - 1);
      assert ts[..k][1..] == ts[1..][..k - 1] && more[1..] == ts[1..][..k];
    }
  }

  lemma {:induction false} SweepStaysNone(types: Types, open: multiset<string>, ts: seq<Iface>, k: nat)
    requires k <= |ts| && Sweep(types, open, ts[..k]).None?
    ensures Sweep(types, open, ts).None?
    decreases |ts| - k
  {
    if k < |ts| {
      SweepOneMore(types, open, ts, k);
      SweepStaysNone(types, open, ts, k + 1);
    } else {
      assert ts[..k] == ts;
    }
  }

  /** A FakePublicRequestForInvalidating lets its requests be invalidated, which cancels nothing else. */
  lemma FakeClosesItsName(types: Types, open: multiset<string>, name: string)
    ensures Visit(types, open, Fake(name)) == Some(open[name := 0])
  {
    if name in open {
      assert open[name := 0] == (open - multiset{name})[name := 0];
      assert Sweep(types, open - multiset{name}, []) == Some(open - multiset{name});
    } else {
      assert open[name := 0] == open;
    }
  }

  /** It stands for no other change of status, and for no creation. */
  lemma FakeThrowsOtherwise(types: Types, name: string, old_: Status, new_: Status)
    requires old_ != Opened || new_ != Invalidated
    ensures types.OnUpdate(Fake(name), old_, new_).None? && types.OnCreate(Fake(name)).None?
  {
  }

  /** Types of which nothing is opened are passed over. */
  lemma {:induction false} SweepNothing(types: Types, open: multiset<string>, ts: seq<Iface>)
    requires forall t :: t in ts ==> types.Name(t) !in open
    ensures Sweep(types, open, ts) == Some(open)
  {
    if ts != [] {
      assert ts[0] in ts;
      SweepNothing(types, open, ts[1..]);
    }
  }

  /** Nothing of the visited types is left opened. */
  lemma {:induction false} SweepExhausts(types: Types, open: multiset<string>, ts: seq<Iface>, t: Iface)
    requires Sweep(types, open, ts).Some? && t in ts
    ensures types.Name(t) !in Sweep(types, open, ts).value
    decreases |ts|
  {
    var next := Visit(types, open, ts[0]).value;
    if t == ts[0] {
      assert types.Name(t) !in next;
    } else {
      SweepExhausts(types, next, ts[1..], t);
    }
  }

  /** Of one type, all requests are closed or none. */
  lemma {:induction false} AllOrNothing(types: Types, open: multiset<string>, ts: seq<Iface>, name: string)
    requires Sweep(types, open, ts).Some?
    ensures Sweep(types, open, ts).value[name] in {0, open[name]}
    decreases |open|, |ts|
  {
    if ts != [] {
      var next := Visit(types, open, ts[0]).value;
      VisitAllOrNothing(types, open, ts[0], name);
      SubmultisetSize(next, open);
      AllOrNothing(types, next, ts[1..], name);
    }
  }

  lemma {:induction false} VisitAllOrNothing(types: Types, open: multiset<string>, t: Iface, name: string)
    requires Visit(types, open, t).Some?
    ensures Visit(types, open, t).value[name] in {0, open[name]}
    decreases |open|, 0
  {
    if types.Name(t) in open && name != types.Name(t) {
      AllOrNothing(types, open - multiset{types.Name(t)}, types.OnUpdate(t, Opened, Invalidated).value, name);
    }
  }

  // ---------------------------------------------------------------- rows and their numbers

  lemma OpenNumber(rows: Rows, obj: nat, name: string)
    ensures Open(rows, obj)[name] == |IdsOf(rows, obj, name)|
  {
    assert Counts(rows, obj, Open(rows, obj));
  }

  /** Closing one request takes one from the number of its type. */
  lemma CloseOne(a: Rows, b: Rows, obj: nat, id: nat)
    requires id in a && a[id].status.Opened? && a[id].objectId == obj
    requires id in b && b == a[id := b[id]] && !b[id].status.Opened?
    ensures Open(b, obj) == Open(a, obj) - multiset{a[id].typeName}
  {
    forall name
      ensures Open(b, obj)[name] == (Open(a, obj) - multiset{a[id].typeName})[name]
    {
      OpenNumber(a, obj, name);
      OpenNumber(b, obj, name);
      assert IdsOf(b, obj, name) == IdsOf(a, obj, name) - {id};
    }
  }

  /** Rewriting a closed request changes no number. */
  lemma RewriteClosed(a: Rows, b: Rows, obj: nat, id: nat)
    requires id in a && !a[id].status.Opened?
    requires id in b && b == a[id := b[id]] && !b[id].status.Opened?
    ensures Open(b, obj) == Open(a, obj)
  {
    forall name
      ensures Open(b, obj)[name] == Open(a, obj)[name]
    {
      OpenNumber(a, obj, name);
      OpenNumber(b, obj, name);
      assert IdsOf(b, obj, name) == IdsOf(a, obj, name);
    }
  }

  /** A request that is not opened counts no more than one that is not there. */
  lemma OpenWithout(a: Rows, b: Rows, obj: nat, id: nat)
    requires id in a && id in b && b == a[id := b[id]] && !b[id].status.Opened?
    ensures Open(b, obj) == Open(a - {id}, obj)
  {
    forall name
      ensures Open(b, obj)[name] == Open(a - {id}, obj)[name]
    {
      OpenNumber(a - {id}, obj, name);
      OpenNumber(b, obj, name);
      assert IdsOf(b, obj, name) == IdsOf(a - {id}, obj, name);
    }
  }

  lemma OpenOrNot(rows: Rows, obj: nat, name: string)
    ensures name in Open(rows, obj) <==> IdsOf(rows, obj, name) != {}
  {
    OpenNumber(rows, obj, name);
  }

  /** What a cascade closes is decided by the names of the types alone. */
  lemma SweptDecides(types: Types, stamp: Stamp, obj: nat, roots: seq<Iface>, start: Rows, end: Rows, i: nat)
    requires OnlyInvalidates(stamp, obj, start, end) && Swept(types, obj, roots, start, end)
    requires i in start && start[i].status.Opened? && start[i].objectId == obj
    ensures end[i].status.Opened? <==> start[i].typeName in Sweep(types, Open(start, obj), roots).value
  {
    AllOrNothing(types, Open(start, obj), roots, start[i].typeName);
    NumbersDecide(start, end, obj, i);
  }

  // ---------------------------------------------------------------- one visit, request by request

  /**
   The numbers `cur` after at least one request called `name` was closed, of all that were counted in
   `open`, and what that cancels was cancelled.
   */
  ghost predicate Visiting(types: Types, open: multiset<string>, name: string, cancelled: seq<Iface>,
                           cur: multiset<string>) {
    && name in open
    && var after := Sweep(types, open - multiset{name}, cancelled);
    && after.Some?
    && cur[name := 0] == after.value[name := 0]
    && forall u :: u in cancelled ==> types.Name(u) !in cur
  }

  /** What one update of a request called `name` that closes it and cancels `cancelled` does to the numbers. */
  ghost predicate ClosedOne(types: Types, name: string, cancelled: seq<Iface>, cur: multiset<string>,
                            next: multiset<string>) {
    name in cur && Sweep(types, cur - multiset{name}, cancelled) == Some(next)
  }

  /** The first of the requests brings what the type cancels, the others find it closed. */
  lemma VisitGoesOn(types: Types, open: multiset<string>, name: string, cancelled: seq<Iface>, cur: multiset<string>,
                    next: multiset<string>)
    requires cur == open || Visiting(types, open, name, cancelled, cur)
    requires ClosedOne(types, name, cancelled, cur, next)
    ensures Visiting(types, open, name, cancelled, next)
  {
    forall u | u in cancelled
      ensures types.Name(u) !in next
    {
      SweepExhausts(types, cur - multiset{name}, cancelled, u);
    }
    if cur != open {
      SweepNothing(types, cur - multiset{name}, cancelled);
      assert next[name := 0] == cur[name := 0];
    }
  }

  lemma VisitEnds(types: Types, open: multiset<string>, name: string, cancelled: seq<Iface>, cur: multiset<string>)
    requires cur == open || Visiting(types, open, name, cancelled, cur)
    requires name !in cur
    ensures BatchSwept(types, open, name, cancelled, cur)
  {
    if name in open {
      assert cur == cur[name := 0];
    }
  }

  /** Whether requests of a type are left after a batch is decided for all of them. */
  lemma BatchAllOrNothing(types: Types, open: multiset<string>, name: string, cancelled: seq<Iface>,
                          left: multiset<string>, n: string)
    requires BatchSwept(types, open, name, cancelled, left)
    ensures left[n] in {0, open[n]}
  {
    if name in open && n != name {
      AllOrNothing(types, open - multiset{name}, cancelled, n);
    }
  }

  /** Closing requests without opening any, which ones are left opened is decided by the numbers. */
  lemma NumbersDecide(a: Rows, b: Rows, obj: nat, i: nat)
    requires a.Keys == b.Keys && forall k :: k in b && b[k].status.Opened? ==> a[k] == b[k]
    requires i in a && a[i].status.Opened? && a[i].objectId == obj
    requires Open(b, obj)[a[i].typeName] in {0, Open(a, obj)[a[i].typeName]}
    ensures b[i].status.Opened? <==> a[i].typeName in Open(b, obj)
  {
    var name := a[i].typeName;
    var before, after := IdsOf(a, obj, name), IdsOf(b, obj, name);
    OpenNumber(a, obj, name);
    OpenNumber(b, obj, name);
    assert i in before && after <= before;
    SubsetSize(after, before);
    if |after| == 0 {
      assert after == {};
    }
    assert b[i].status.Opened? ==> i in after;
  }
}
