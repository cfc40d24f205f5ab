/** Poll messages about changes of object states: at most one for each row of object_state, in batches. */
module StateMessages {
  import opened Prelude

  datatype MessageType =
    | ImpExpiration | Expiration | ImpValidation | Validation | Outzone
    | IdleDeleteContact | IdleDeleteNsset | IdleDeleteDomain | IdleDeleteKeyset

  datatype ObjectType = Contact | Nsset | Domain | Keyset

  /** A row of object_state with the type of its object and its registrar at the beginning; its position is its id. */
  datatype StateRow = StateRow(state: string, objectType: ObjectType, open: bool, registrar: nat)

  /** A message and the row of poll_statechange that goes with it. */
  datatype Message = Message(registrar: nat, msgType: MessageType, stateId: nat, crdate: int)

  /** The `pfilter` table: which message a state calls for. */
  function Filter(row: StateRow): Option<MessageType> {
    if row.state == "expirationWarning" then Some(ImpExpiration)
    else if row.state == "expired" then Some(Expiration)
    else if row.state == "validationWarning1" then Some(ImpValidation)
    else if row.state == "notValidated" then Some(Validation)
    else if row.state == "outzoneUnguarded" then Some(Outzone)
    else if row.state == "deleteCandidate" then
      Some(match row.objectType
           case Contact => IdleDeleteContact
           case Nsset => IdleDeleteNsset
           case Domain => IdleDeleteDomain
           case Keyset => IdleDeleteKeyset)
    else None
  }

  /** A row of `pfilter`; without an object type it is for objects of any type. */
  datatype FilterRow = FilterRow(state: string, objectType: Option<ObjectType>, msgType: MessageType)

  const PFILTER: seq<FilterRow> := [
    FilterRow("expirationWarning", None, ImpExpiration),
    FilterRow("expired", None, Expiration),
    FilterRow("validationWarning1", None, ImpValidation),
    FilterRow("notValidated", None, Validation),
    FilterRow("outzoneUnguarded", None, Outzone),
    FilterRow("deleteCandidate", Some(Contact), IdleDeleteContact),
    FilterRow("deleteCandidate", Some(Nsset), IdleDeleteNsset),
    FilterRow("deleteCandidate", Some(Domain), IdleDeleteDomain),
    FilterRow("deleteCandidate", Some(Keyset), IdleDeleteKeyset)]

  /** The conditions of the join of object_state with `pfilter`. */
  predicate Joins(row: StateRow, f: FilterRow) {
    f.state == row.state && (f.objectType.None? || f.objectType.value == row.objectType)
  }

  /** The join gives every row at most one message type, the one of `Filter`, and so no message twice. */
  lemma FilterIsJoin(row: StateRow)
    ensures forall k :: 0 <= k < |PFILTER| && Joins(row, PFILTER[k]) ==> Filter(row) == Some(PFILTER[k].msgType)
    ensures Filter(row).Some? ==> exists k :: 0 <= k < |PFILTER| && Joins(row, PFILTER[k])
    ensures forall k, l :: 0 <= k < l < |PFILTER| && Joins(row, PFILTER[k]) ==> !Joins(row, PFILTER[l])
  {
    NamesDiffer();
    if row.state == "expirationWarning" {
      assert Joins(row, PFILTER[0]);
    } else if row.state == "expired" {
      assert Joins(row, PFILTER[1]);
    } else if row.state == "validationWarning1" {
      assert Joins(row, PFILTER[2]);
    } else if row.state == "notValidated" {
      assert Joins(row, PFILTER[3]);
    } else if row.state == "outzoneUnguarded" {
      assert Joins(row, PFILTER[4]);
    } else if row.state == "deleteCandidate" {
      var offset := match row.objectType case Contact => 5 case Nsset => 6 case Domain => 7 case Keyset => 8;
      assert Joins(row, PFILTER[offset]);
    }
  }

  lemma NamesDiffer()
    ensures |"expirationWarning"| == 17 && |"expired"| == 7 && |"validationWarning1"| == 18
    ensures |"notValidated"| == 12 && |"outzoneUnguarded"| == 16 && |"deleteCandidate"| == 15
  {
  }

  predicate HasMessage(messages: seq<Message>, id: nat) {
    exists k :: 0 <= k < |messages| && messages[k].stateId == id
  }

  /** The row calls for a message that is not excepted. */
  predicate Wanted(row: StateRow, except: set<MessageType>) {
    row.open && Filter(row).Some? && Filter(row).value !in except
  }

  /** The rows below `n` that the query selects, in the order of their ids. */
  function Selected(rows: seq<StateRow>, messages: seq<Message>, except: set<MessageType>, n: nat): (ids: seq<nat>)
    requires n <= |rows|
    ensures forall k :: 0 <= k < |ids| ==> ids[k] < n && Wanted(rows[ids[k]], except) && !HasMessage(messages, ids[k])
  {
    if n == 0 then [] else
      var ids := Selected(rows, messages, except, n - 1);
      if Wanted(rows[n - 1], except) && !HasMessage(messages, n - 1) then ids + [n - 1] else ids
  }

  function Pending(rows: seq<StateRow>, messages: seq<Message>, except: set<MessageType>): seq<nat> {
    Selected(rows, messages, except, |rows|)
  }

  function Limited(ids: seq<nat>, limit: Option<nat>): seq<nat> {
    if limit.Some? && limit.value < |ids| then ids[..limit.value] else ids
  }

  /** The messages for the rows `ids`. */
  function MessagesFor(rows: seq<StateRow>, ids: seq<nat>, now: int): (ms: seq<Message>)
    requires forall k :: 0 <= k < |ids| ==> ids[k] < |rows| && Filter(rows[ids[k]]).Some?
    ensures |ms| == |ids|
    ensures forall k :: 0 <= k < |ids| ==>
      ms[k] == Message(rows[ids[k]].registrar, Filter(rows[ids[k]]).value, ids[k], now)
  {
    seq(|ids|, k requires 0 <= k < |ids| => Message(rows[ids[k]].registrar, Filter(rows[ids[k]]).value, ids[k], now))
  }

  /** The messages after one run of the job. */
  function After(rows: seq<StateRow>, messages: seq<Message>, except: set<MessageType>, limit: Option<nat>,
                 now: int): seq<Message> {
    messages + MessagesFor(rows, Limited(Pending(rows, messages, except), limit), now)
  }

  class Poll {
    var rows: seq<StateRow>
    var messages: seq<Message>

    /** CreateStateMessages::exec. */
    method CreateMessages(except: set<MessageType>, limit: Option<nat>, now: int) returns (created: nat)
      modifies `messages
      ensures messages == After(rows, old(messages), except, limit, now)
      ensures created == |messages| - |old(messages)|
    {
      var before := messages;
      var added: seq<Message> := [];
      var n := 0;
      ghost var all := Pending(rows, before, except);
      while n < |rows| && !(limit.Some? && |added| == limit.value)
        invariant n <= |rows| && messages == before
        invariant limit.Some? ==> |added| <= limit.value
        invariant added == MessagesFor(rows, Selected(rows, before, except, n), now)
      {
        if Wanted(rows[n], except) && !HasMessage(before, n) {
          added := added + [Message(rows[n].registrar, Filter(rows[n]).value, n, now)];
        }
        n := n + 1;
      }
      SelectedIsPrefix(rows, before, except, n, |rows|);
      messages := before + added;
      assert Limited(all, limit) == Selected(rows, before, except, n);
      return |added|;
    }
  }

  // ---------------------------------------------------------------- one run

  lemma {:induction false} SelectedIsPrefix(rows: seq<StateRow>, messages: seq<Message>, except: set<MessageType>,
                                            m: nat, n: nat)
    requires m <= n <= |rows|
    ensures var a, b := Selected(rows, messages, except, m), Selected(rows, messages, except, n);
      |a| <= |b| && b[..|a|] == a
  {
    if m < n {
      SelectedIsPrefix(rows, messages, except, m, n - 1);
      assert Selected(rows, messages, except, n - 1) <= Selected(rows, messages, except, n);
    }
  }

  ghost predicate Ascending(ids: seq<nat>) {
    forall k, l :: 0 <= k < l < |ids| ==> ids[k] < ids[l]
  }

  lemma AscendingGrows(ids: seq<nat>, last: nat)
    requires Ascending(ids) && forall k :: 0 <= k < |ids| ==> ids[k] < last
    ensures Ascending(ids + [last])
  {
  }

  lemma AscendingPrefix(ids: seq<nat>, n: nat)
    requires Ascending(ids) && n <= |ids|
    ensures Ascending(ids[..n])
  {
  }

  lemma {:induction false} SelectedAt(rows: seq<StateRow>, messages: seq<Message>, except: set<MessageType>, n: nat,
                                      i: nat)
    requires n <= |rows|
    ensures i in Selected(rows, messages, except, n) <==> i < n && Wanted(rows[i], except) && !HasMessage(messages, i)
  {
    if n > 0 {
      SelectedAt(rows, messages, except, n - 1, i);
      var before, after := Selected(rows, messages, except, n - 1), Selected(rows, messages, except, n);
      if Wanted(rows[n - 1], except) && !HasMessage(messages, n - 1) {
        assert after == before + [n - 1];
        assert i in after <==> i in before || i == n - 1;
      } else {
        assert after == before;
      }
    }
  }

  lemma {:induction false} SelectedAscends(rows: seq<StateRow>, messages: seq<Message>, except: set<MessageType>,
                                           n: nat)
    requires n <= |rows|
    ensures Ascending(Selected(rows, messages, except, n))
  {
    if n > 0 {
      var before := Selected(rows, messages, except, n - 1);
      SelectedAscends(rows, messages, except, n - 1);
      forall k | 0 <= k < |before|
        ensures before[k] < n - 1
      {
        SelectedAt(rows, messages, except, n - 1, before[k]);
      }
      AscendingGrows(before, n - 1);
    }
  }

  /** The query selects exactly the rows that call for a message and have none, each once, in ascending order. */
  lemma {:induction false} SelectedIsExact(rows: seq<StateRow>, messages: seq<Message>, except: set<MessageType>,
                                           n: nat)
    requires n <= |rows|
    ensures forall i: nat :: i in Selected(rows, messages, except, n) <==>
      i < n && Wanted(rows[i], except) && !HasMessage(messages, i)
    ensures Ascending(Selected(rows, messages, except, n))
  {
    forall i: nat
      ensures i in Selected(rows, messages, except, n) <==> i < n && Wanted(rows[i], except) && !HasMessage(messages, i)
    {
      SelectedAt(rows, messages, except, n, i);
    }
    SelectedAscends(rows, messages, except, n);
  }

  /**
   What a run adds: messages of now, for open rows without one, each to the registrar of its row and of a type that
   the join gives and that is not excepted.
   */
  lemma RunServes(rows: seq<StateRow>, messages: seq<Message>, except: set<MessageType>, limit: Option<nat>, now: int,
                  k: nat)
    requires |messages| <= k < |After(rows, messages, except, limit, now)|
    ensures var m := After(rows, messages, except, limit, now)[k];
      && m.stateId < |rows| && rows[m.stateId].open && !HasMessage(messages, m.stateId)
      && m.registrar == rows[m.stateId].registrar && m.crdate == now && m.msgType !in except
      && exists l :: 0 <= l < |PFILTER| && Joins(rows[m.stateId], PFILTER[l]) && PFILTER[l].msgType == m.msgType
  {
    var all := Pending(rows, messages, except);
    var id := Limited(all, limit)[k - |messages|];
    assert id == all[k - |messages|];
    FilterIsJoin(rows[id]);
  }

  // ---------------------------------------------------------------- at most once

  ghost predicate AtMostOnce(messages: seq<Message>) {
    forall k, l :: 0 <= k < l < |messages| ==> messages[k].stateId != messages[l].stateId
  }

  lemma RunKeepsAtMostOnce(rows: seq<StateRow>, messages: seq<Message>, except: set<MessageType>, limit: Option<nat>,
                           now: int)
    requires AtMostOnce(messages)
    ensures AtMostOnce(After(rows, messages, except, limit, now))
  {
    var all := Pending(rows, messages, except);
    var ids := Limited(all, limit);
    SelectedIsExact(rows, messages, except, |rows|);
    AscendingPrefix(all, |ids|);
    assert ids == all[..|ids|];
    var added := MessagesFor(rows, ids, now);
    forall k, l | 0 <= k < |messages| && 0 <= l < |added|
      ensures messages[k].stateId != added[l].stateId
    {
      assert ids[l] == all[l] && !HasMessage(messages, all[l]);
    }
    assert AtMostOnce(added);
  }

  /** One run of the job: the rows of object_state may have changed in any way since the last. */
  datatype Job = Job(rows: seq<StateRow>, except: set<MessageType>, limit: Option<nat>, now: int)

  function AfterJobs(messages: seq<Message>, jobs: seq<Job>): seq<Message> {
    if jobs == [] then messages else
      var job := jobs[|jobs| - 1];
      After(job.rows, AfterJobs(messages, jobs[..|jobs| - 1]), job.except, job.limit, job.now)
  }

  /** Over any sequence of runs, with any exceptions and limits, no row of object_state gets two messages. */
  lemma {:induction false} AtMostOnceOverRuns(messages: seq<Message>, jobs: seq<Job>)
    requires AtMostOnce(messages)
    ensures AtMostOnce(AfterJobs(messages, jobs))
  {
    if jobs != [] {
      var job := jobs[|jobs| - 1];
      AtMostOnceOverRuns(messages, jobs[..|jobs| - 1]);
      RunKeepsAtMostOnce(job.rows, AfterJobs(messages, jobs[..|jobs| - 1]), job.except, job.limit, job.now);
    }
  }

  // ---------------------------------------------------------------- batches

  /** The pending rows as a set. */
  function PendingSet(rows: seq<StateRow>, messages: seq<Message>, except: set<MessageType>): set<nat> {
    set i: nat | i < |rows| && Wanted(rows[i], except) && !HasMessage(messages, i)
  }

  function Members(ids: seq<nat>): set<nat> {
    set x | x in ids
  }

  lemma {:induction false} AscendingSize(ids: seq<nat>)
    requires Ascending(ids)
    ensures |Members(ids)| == |ids|
  {
    if ids != [] {
      var init, last := ids[..|ids| - 1], ids[|ids| - 1];
      AscendingPrefix(ids, |ids| - 1);
      AscendingSize(init);
      assert forall k :: 0 <= k < |init| ==> init[k] == ids[k] < last;
      assert last !in Members(init);
      assert ids == init + [last];
      assert Members(ids) == Members(init) + {last};
    }
  }

  lemma PendingSize(rows: seq<StateRow>, messages: seq<Message>, except: set<MessageType>)
    ensures |PendingSet(rows, messages, except)| == |Pending(rows, messages, except)|
  {
    SelectedIsExact(rows, messages, except, |rows|);
    AscendingSize(Pending(rows, messages, except));
    assert PendingSet(rows, messages, except) == Members(Pending(rows, messages, except));
  }

  /** A limited run takes its portion off the pending rows and leaves the rest. */
  lemma PendingAfter(rows: seq<StateRow>, messages: seq<Message>, except: set<MessageType>, taken: nat, now: int)
    requires taken <= |Pending(rows, messages, except)|
    ensures var all := Pending(rows, messages, except);
      var more := messages + MessagesFor(rows, all[..taken], now);
      |Pending(rows, more, except)| == |all| - taken
  {
    var all := Pending(rows, messages, except);
    var first := all[..taken];
    var more := messages + MessagesFor(rows, first, now);
    PendingSize(rows, messages, except);
    PendingSize(rows, more, except);
    SelectedIsExact(rows, messages, except, |rows|);
    AscendingPrefix(all, taken);
    AscendingSize(first);
    forall id: nat
      ensures HasMessage(more, id) <==> HasMessage(messages, id) || id in first
    {
      MessageAfter(rows, messages, except, taken, now, id);
    }
    var gone := Members(first);
    assert forall id :: id in gone ==> id in all;
    assert PendingSet(rows, more, except) == PendingSet(rows, messages, except) - gone;
  }

  lemma MessageAfter(rows: seq<StateRow>, messages: seq<Message>, except: set<MessageType>, taken: nat, now: int,
                     id: nat)
    requires taken <= |Pending(rows, messages, except)|
    ensures HasMessage(messages + MessagesFor(rows, Pending(rows, messages, except)[..taken], now), id) <==>
      HasMessage(messages, id) || id in Pending(rows, messages, except)[..taken]
  {
    var ids := Pending(rows, messages, except)[..taken];
    var added := MessagesFor(rows, ids, now);
    var more := messages + added;
    if HasMessage(messages, id) {
      var k :| 0 <= k < |messages| && messages[k].stateId == id;
      assert more[k].stateId == id;
    }
    if id in ids {
      var k :| 0 <= k < |ids| && ids[k] == id;
      assert more[|messages| + k].stateId == id;
    }
    if HasMessage(more, id) {
      var k :| 0 <= k < |more| && more[k].stateId == id;
      if k < |messages| {
        assert messages[k].stateId == id;
      } else {
        assert added[k - |messages|].stateId == ids[k - |messages|];
      }
    }
  }

  /** Runs with the same limit, one after another, while object_state stays as it is. */
  function AfterBatches(rows: seq<StateRow>, messages: seq<Message>, except: set<MessageType>, limit: nat,
                        times: seq<int>): seq<Message>
    decreases |times|
  {
    if times == [] then messages else
      AfterBatches(rows, After(rows, messages, except, Some(limit), times[0]), except, limit, times[1..])
  }

  /** What a run without a limit achieves: every row that calls for a message has one, and no other got one. */
  lemma UnlimitedRun(rows: seq<StateRow>, messages: seq<Message>, except: set<MessageType>, now: int, id: nat)
    ensures HasMessage(After(rows, messages, except, None, now), id) <==>
      HasMessage(messages, id) || (id < |rows| && Wanted(rows[id], except))
  {
    var all := Pending(rows, messages, except);
    assert all[..|all|] == all;
    MessageAfter(rows, messages, except, |all|, now, id);
    SelectedIsExact(rows, messages, except, |rows|);
  }

  /** One limited run. */
  lemma OneBatch(rows: seq<StateRow>, messages: seq<Message>, except: set<MessageType>, limit: nat, now: int, id: nat)
    ensures var all, more := Pending(rows, messages, except), After(rows, messages, except, Some(limit), now);
      && |Pending(rows, more, except)| == (if limit < |all| then |all| - limit else 0)
      && (HasMessage(messages, id) ==> HasMessage(more, id))
      && (HasMessage(more, id) ==> HasMessage(messages, id) || (id < |rows| && Wanted(rows[id], except)))
  {
    var all := Pending(rows, messages, except);
    var taken := if limit < |all| then limit else |all|;
    assert Limited(all, Some(limit)) == all[..taken];
    PendingAfter(rows, messages, except, taken, now);
    MessageAfter(rows, messages, except, taken, now, id);
    SelectedIsExact(rows, messages, except, |rows|);
    assert id in all[..taken] ==> id in all;
  }

  lemma Portions(limit: nat, n: nat)
    requires 0 < n
    ensures limit * n == limit * (n - 1) + limit
  {
  }

  /**
   Limited runs do in portions what one unlimited run does at once: after enough of them exactly the
   same rows have their message.
   */
  lemma {:induction false} BatchesAddUp(rows: seq<StateRow>, messages: seq<Message>, except: set<MessageType>,
                                        limit: nat, times: seq<int>, now: int, id: nat)
    requires 0 < limit && |Pending(rows, messages, except)| <= limit * |times|
    ensures HasMessage(AfterBatches(rows, messages, except, limit, times), id) <==>
      HasMessage(After(rows, messages, except, None, now), id)
    decreases |times|
  {
    UnlimitedRun(rows, messages, except, now, id);
    if times == [] {
      SelectedAt(rows, messages, except, |rows|, id);
      assert Pending(rows, messages, except) == [];
    } else {
      var more := After(rows, messages, except, Some(limit), times[0]);
      OneBatch(rows, messages, except, limit, times[0], id);
      Portions(limit, |times|);
      BatchesAddUp(rows, more, except, limit, times[1..], now, id);
      UnlimitedRun(rows, more, except, now, id);
    }
  }
}
