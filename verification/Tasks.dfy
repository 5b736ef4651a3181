/** Task records: how a batch is accounted for, classified, and repaired after a restart. */
module Tasks {
  import opened Bytes
  import Order
  import Seqs

  type Key = bytes
  type ExportId = nat

  datatype Error = Cancelled | Terminated | Interrupted | PersistenceFailed | Other(code: nat)

  datatype ItemResult = ItemResult(key: Key, exported: Option<ExportId>, error: Option<Error>)

  datatype Status = Queued | Running | Stopped | Succeeded | Partial | Failed

  datatype Task = Task(
    isExport: bool, status: Status, keys: seq<Key>, total: nat, completed: nat, results: seq<ItemResult>,
    error: Option<Error>)

  function FailedItem(key: Key, error: Error): ItemResult
  {
    ItemResult(key, None, Some(error))
  }

  function PersistenceFailure(t: Task): Task
  {
    t.(error := Some(PersistenceFailed), status := Failed)
  }

  function ResultKeys(rs: seq<ItemResult>): (r: seq<Key>)
    ensures |r| == |rs|
    ensures forall i :: 0 <= i < |rs| ==> r[i] == rs[i].key
  {
    seq(|rs|, i requires 0 <= i < |rs| => rs[i].key)
  }

  lemma ResultKeysConcat(a: seq<ItemResult>, b: seq<ItemResult>)
    ensures ResultKeys(a + b) == ResultKeys(a) + ResultKeys(b)
  {
  }

  /** The number of results that name an export. */
  function Successes(rs: seq<ItemResult>): (n: nat)
    ensures n <= |rs|
  {
    if rs == [] then 0
    else Successes(rs[..|rs| - 1]) + if rs[|rs| - 1].exported.Some? then 1 else 0
  }

  function Outcome(t: Task, cancelled: bool): Status
  {
    if t.error.Some? then Failed
    else if cancelled then Stopped
    else if Successes(t.results) == t.total then Succeeded
    else if Successes(t.results) > 0 then Partial
    else Failed
  }

  lemma {:induction false} SuccessesFull(rs: seq<ItemResult>)
    ensures Successes(rs) == |rs| <==> forall i :: 0 <= i < |rs| ==> rs[i].exported.Some?
    ensures Successes(rs) > 0 <==> exists i :: 0 <= i < |rs| && rs[i].exported.Some?
  {
    if rs != [] {
      var front := rs[..|rs| - 1];
      SuccessesFull(front);
      assert forall i :: 0 <= i < |front| ==> front[i] == rs[i];
    }
  }

  /** The final status of an accounted batch, case by case. */
  lemma OutcomeMeaning(t: Task, cancelled: bool)
    requires |t.results| == t.total
    ensures t.error.Some? ==> Outcome(t, cancelled) == Failed
    ensures t.error.None? && cancelled ==> Outcome(t, cancelled) == Stopped
    ensures t.error.None? && !cancelled ==>
      && (Outcome(t, cancelled) == Succeeded <==> forall i :: 0 <= i < t.total ==> t.results[i].exported.Some?)
      && (Outcome(t, cancelled) == Partial <==>
            && (exists i :: 0 <= i < t.total && t.results[i].exported.Some?)
            && (exists i :: 0 <= i < t.total && t.results[i].exported.None?))
      && (Outcome(t, cancelled) == Failed <==>
            t.total > 0 && forall i :: 0 <= i < t.total ==> t.results[i].exported.None?)
  {
    SuccessesFull(t.results);
  }

  // ----- selections

  ghost predicate Distinct(keys: seq<Key>)
  {
    forall i, j :: 0 <= i < j < |keys| ==> keys[i] != keys[j]
  }

  function Identity(k: Key): bytes { k }

  function Deduplicate(keys: seq<Key>): (r: seq<Key>)
  {
    if |keys| <= 1 then keys
    else if keys[0] == keys[1] then Deduplicate(keys[1..])
    else [keys[0]] + Deduplicate(keys[1..])
  }

  /** Non-decreasing order. */
  ghost predicate Ascending(keys: seq<Key>)
  {
    forall i, j :: 0 <= i < j < |keys| ==> !Order.Less(keys[j], keys[i])
  }

  lemma {:induction false} InsertAscending(s: seq<Key>, x: Key)
    requires Ascending(s)
    ensures Ascending(Order.Insert(s, Identity, x))
  {
    if s == [] {
    } else if Order.Less(x, s[0]) {
      forall j | 0 <= j < |s| ensures !Order.Less(s[j], x) {
        if Order.Less(s[j], x) {
          Order.LessTransitive(s[j], x, s[0]);
          Order.LessIrreflexive(s[0]);
        }
      }
    } else {
      var rest := Order.Insert(s[1..], Identity, x);
      InsertAscending(s[1..], x);
      Order.InsertElements(s[1..], Identity, x);
      forall j | 0 <= j < |rest| ensures !Order.Less(rest[j], s[0]) {
        assert rest[j] in rest;
        if rest[j] != x {
          assert rest[j] in s[1..];
          var k :| 0 <= k < |s[1..]| && s[1..][k] == rest[j];
          assert s[k + 1] == rest[j];
        }
      }
    }
  }

  lemma {:induction false} SortAscending(s: seq<Key>)
    ensures Ascending(Order.Sort(s, Identity))
  {
    if s != [] {
      SortAscending(s[..|s| - 1]);
      InsertAscending(Order.Sort(s[..|s| - 1], Identity), s[|s| - 1]);
    }
  }

  lemma {:induction false} DeduplicateDistinct(keys: seq<Key>)
    requires Ascending(keys)
    ensures Distinct(Deduplicate(keys)) && Ascending(Deduplicate(keys))
    ensures forall k :: k in Deduplicate(keys) <==> k in keys
    ensures keys != [] ==> Deduplicate(keys) != [] && Deduplicate(keys)[0] == keys[0]
  {
    if |keys| > 1 {
      DeduplicateDistinct(keys[1..]);
      assert keys == [keys[0]] + keys[1..];
      if keys[0] != keys[1] {
        var rest := Deduplicate(keys[1..]);
        forall j | 0 <= j < |rest| ensures rest[j] != keys[0] && !Order.Less(rest[j], keys[0]) {
          if rest[j] == keys[0] || Order.Less(rest[j], keys[0]) {
            Order.LessTotal(keys[0], keys[1]);
            assert rest[0] == keys[1];
            if rest[j] != keys[0] && j > 0 {
              Order.LessTransitive(rest[j], keys[0], rest[0]);
            }
          }
        }
      }
    }
  }

  /** The selection a batch is run on: sorted, without repeats. */
  function Selection(keys: seq<Key>): seq<Key>
  {
    Deduplicate(Order.Sort(keys, Identity))
  }

  lemma SelectionIsDistinct(keys: seq<Key>)
    ensures Distinct(Selection(keys)) && Ascending(Selection(keys))
    ensures forall k :: k in Selection(keys) <==> k in keys
  {
    SortAscending(keys);
    DeduplicateDistinct(Order.Sort(keys, Identity));
    Order.SortElements(keys, Identity);
  }

  // ----- repair after a restart

  function Missing(keys: seq<Key>, reported: seq<Key>): (r: seq<ItemResult>)
  {
    if keys == [] then [] else
      var last := keys[|keys| - 1];
      Missing(keys[..|keys| - 1], reported) + if last in reported then [] else [FailedItem(last, Interrupted)]
  }

  /** What `App::open` does to a task that was queued or running when the process died. */
  function Recover(t: Task): Task
  {
    if !(t.status.Queued? || t.status.Running?) then t else
    var results := t.results + Missing(t.keys, ResultKeys(t.results));
    t.(status := Failed, error := Some(Interrupted), results := results,
       completed := if t.isExport then |results| else t.completed)
  }

  /** A record whose results account for some of its distinct keys, none twice. */
  ghost predicate Checkpoint(t: Task)
  {
    Distinct(t.keys) && multiset(ResultKeys(t.results)) <= multiset(t.keys)
  }

  lemma {:induction false} MissingKeys(keys: seq<Key>, reported: seq<Key>)
    requires Distinct(keys)
    ensures forall k :: multiset(ResultKeys(Missing(keys, reported)))[k] == if k in keys && k !in reported then 1 else 0
    ensures forall i :: 0 <= i < |Missing(keys, reported)| ==> Missing(keys, reported)[i].exported.None?
  {
    if keys != [] {
      var front, last := keys[..|keys| - 1], keys[|keys| - 1];
      MissingKeys(front, reported);
      assert last !in front;
      assert forall k :: k in keys <==> k in front || k == last;
      var add := if last in reported then [] else [FailedItem(last, Interrupted)];
      ResultKeysConcat(Missing(front, reported), add);
      assert ResultKeys(add) == if last in reported then [] else [last];
    }
  }

  lemma {:induction false} DistinctCount(keys: seq<Key>, k: Key)
    requires Distinct(keys)
    ensures multiset(keys)[k] == if k in keys then 1 else 0
  {
    if keys != [] {
      var front, last := keys[..|keys| - 1], keys[|keys| - 1];
      assert keys == front + [last];
      DistinctCount(front, k);
      assert last !in front;
    }
  }

  /**
   Repairing any checkpoint leaves exactly one result per selected key, keeps what was reported, and exports nothing.
   */
  lemma RecoverAccounts(t: Task)
    requires Checkpoint(t) && (t.status.Queued? || t.status.Running?)
    ensures multiset(ResultKeys(Recover(t).results)) == multiset(t.keys)
    ensures t.results <= Recover(t).results
    ensures forall i :: |t.results| <= i < |Recover(t).results| ==> Recover(t).results[i].exported.None?
    ensures !Recover(t).status.Queued? && !Recover(t).status.Running?
  {
    var reported := ResultKeys(t.results);
    var missing := Missing(t.keys, reported);
    MissingKeys(t.keys, reported);
    ResultKeysConcat(t.results, missing);
    assert multiset(reported + ResultKeys(missing)) == multiset(reported) + multiset(ResultKeys(missing));
    forall k ensures multiset(reported)[k] + multiset(ResultKeys(missing))[k] == multiset(t.keys)[k] {
      DistinctCount(t.keys, k);
      assert k in reported <==> multiset(reported)[k] > 0;
    }
  }

  /** The keys that no result names. */
  function Unreported(t: Task): Key -> bool
  {
    k => forall i :: 0 <= i < |t.results| ==> t.results[i].key != k
  }

  /**
   What a restart makes of a record.  One that was queued or running has failed, interrupted; the results it had stay
   in front, and after them comes one interrupted result without an export for each key that had none, in order.  A
   record that was already final stays as it is.
   */
  ghost predicate Repaired(t: Task, r: Task)
  {
    if t.status == Queued || t.status == Running then
      && r.status == Failed && r.error == Some(Interrupted)
      && r.isExport == t.isExport && r.keys == t.keys && r.total == t.total
      && r.completed == (if t.isExport then |r.results| else t.completed)
      && |t.results| <= |r.results| && r.results[..|t.results|] == t.results
      && ResultKeys(r.results[|t.results|..]) == Seqs.Filter(t.keys, Unreported(t))
      && Interruptions(r.results[|t.results|..])
    else r == t
  }

  lemma MissingSnoc(keys: seq<Key>, last: Key, reported: seq<Key>)
    ensures Missing(keys + [last], reported) ==
      Missing(keys, reported) + if last in reported then [] else [FailedItem(last, Interrupted)]
  {
    assert (keys + [last])[..|keys|] == keys;
  }

  ghost predicate Interruptions(rs: seq<ItemResult>)
  {
    forall i :: 0 <= i < |rs| ==> rs[i].exported == None && rs[i].error == Some(Interrupted)
  }

  lemma {:induction false} MissingFiltered(keys: seq<Key>, reported: seq<Key>, absent: Key -> bool)
    requires forall k :: absent(k) <==> k !in reported
    ensures var missing := Missing(keys, reported);
      ResultKeys(missing) == Seqs.Filter(keys, absent) && Interruptions(missing)
  {
    hide Seqs.Filter;
    if keys == [] {
      Seqs.FilterNothing(absent);
    } else {
      var front, last := keys[..|keys| - 1], keys[|keys| - 1];
      assert keys == front + [last];
      MissingFiltered(front, reported, absent);
      MissingSnoc(front, last, reported);
      Seqs.FilterSnoc(front, last, absent);
      hide Missing;
      var add := if last in reported then [] else [FailedItem(last, Interrupted)];
      ResultKeysConcat(Missing(front, reported), add);
      assert ResultKeys(add) == if absent(last) then [last] else [];
    }
  }

  lemma RecoverRepairs(t: Task)
    ensures Repaired(t, Recover(t))
  {
    assert forall k :: Unreported(t)(k) <==> k !in ResultKeys(t.results);
    MissingFiltered(t.keys, ResultKeys(t.results), Unreported(t));
    hide Missing, Seqs.Filter, Unreported, Interruptions;
    if t.status == Queued || t.status == Running {
      assert Recover(t).results[|t.results|..] == Missing(t.keys, ResultKeys(t.results));
    }
  }

  /** A second restart changes nothing more. */
  lemma RecoverTwice(t: Task)
    ensures Recover(Recover(t)) == Recover(t)
  {
  }
}
