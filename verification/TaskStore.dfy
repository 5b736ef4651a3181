/**
 The task table and its volatile fallback.  A write either commits or changes nothing; which one happens is up
 to the storage.
 */
module TaskStore {
  import opened Bytes
  import opened Tasks
  import R = Runner

  type Id = nat

  predicate Live(t: Task) { t.status.Queued? || t.status.Running? }

  /** Every version ever committed is final, or can be repaired to one result per selected key. */
  ghost predicate Repairable(versions: seq<Task>, keys: seq<Key>)
  {
    forall i :: 0 <= i < |versions| && Live(versions[i]) ==>
      versions[i].keys == keys && Checkpoint(versions[i])
  }

  lemma RepairEveryVersion(versions: seq<Task>, keys: seq<Key>, i: nat)
    requires Repairable(versions, keys) && i < |versions|
    ensures Live(versions[i]) ==> multiset(ResultKeys(Recover(versions[i]).results)) == multiset(keys)
    ensures Recover(versions[i]).status !in {Queued, Running}
  {
    if Live(versions[i]) {
      RecoverAccounts(versions[i]);
    }
  }

  function SavedTasks(log: seq<R.Event>): (r: seq<Task>)
  {
    if log == [] then [] else
      var last := log[|log| - 1];
      SavedTasks(log[..|log| - 1]) + if last.Saved? then [last.task] else []
  }

  /** They are the saves of the log, each once and in order. */
  lemma {:induction false} SavedTasksAre(log: seq<R.Event>)
    ensures |SavedTasks(log)| == R.Saves(log)
    ensures forall t :: t in SavedTasks(log) <==> R.Saved(t) in log
    ensures forall i :: 0 <= i < |log| && log[i].Saved? ==>
      R.Saves(log[..i]) < |SavedTasks(log)| && SavedTasks(log)[R.Saves(log[..i])] == log[i].task
  {
    if log != [] {
      var front := log[..|log| - 1];
      SavedTasksAre(front);
      assert log == front + [log[|log| - 1]];
      forall i | 0 <= i < |log| && log[i].Saved?
        ensures R.Saves(log[..i]) < |SavedTasks(log)| && SavedTasks(log)[R.Saves(log[..i])] == log[i].task
      {
        if i < |front| {
          assert front[i].Saved? && front[..i] == log[..i];
        } else {
          assert log[..i] == front;
        }
      }
    }
  }

  lemma {:induction false} SavedTasksRepairable(log: seq<R.Event>, keys: seq<Key>, results: seq<ItemResult>)
    requires Distinct(keys) && R.SavedPrefixes(log, keys, results)
    ensures Repairable(SavedTasks(log), keys)
  {
    if log != [] {
      SavedTasksRepairable(log[..|log| - 1], keys, results);
    }
  }

  lemma RepairableConcat(a: seq<Task>, b: seq<Task>, keys: seq<Key>)
    requires Repairable(a, keys) && Repairable(b, keys)
    ensures Repairable(a + b, keys)
  {
  }

  lemma RepairableFinal(a: seq<Task>, final: Task, keys: seq<Key>)
    requires Repairable(a, keys) && !Live(final)
    ensures Repairable(a + [final], keys)
  {
  }

  lemma StartIsCheckpoint(queued: Task)
    requires queued.results == [] && Distinct(queued.keys)
    ensures Repairable([queued], queued.keys) && Repairable([queued, queued.(status := Running)], queued.keys)
  {
    assert ResultKeys(queued.results) == [];
  }

  lemma OutcomeFacts(t: Task, cancelled: bool)
    requires t.status == Outcome(t, cancelled) && |t.results| == t.total
    ensures t.status !in {Queued, Running}
    ensures t.status == Succeeded ==> forall i :: 0 <= i < |t.results| ==> t.results[i].exported.Some?
  {
    SuccessesFull(t.results);
  }

  /** The batch itself; when its start could not be saved it is cancelled before anything runs. */
  method RunBatch(t: Task, started: bool, limit: nat, cancelled: bool) returns (done: Task, saved: seq<Task>)
    requires t.results == [] && t.completed == 0 && t.status.Running? && Distinct(t.keys) && t.total == |t.keys|
    ensures multiset(ResultKeys(done.results)) == multiset(t.keys) && done.keys == t.keys
    ensures done.status !in {Queued, Running}
    ensures Repairable(saved, t.keys)
    ensures done.status == Succeeded ==> forall i :: 0 <= i < |done.results| ==> done.results[i].exported.Some?
    ensures cancelled || !started ==> done.results == R.Cancellations(t.keys) && saved == []
  {
    hide Outcome, Repairable, R.SavedPrefixes, R.Bounded, R.LateStarts, R.Load, R.Saves, R.Settles, R.Accounted,
      R.Tracked, R.Logged, Distinct;
    var runner := new R.Runner(t, limit, cancelled || !started);
    if !started {
      runner.task := PersistenceFailure(t);
    }
    runner.Run();
    SavedTasksRepairable(runner.log, t.keys, runner.task.results);
    OutcomeFacts(runner.task, runner.cancelled);
    assert [R.TokenCancelled][..0] == [];
    assert [] + R.Cancellations(t.keys) == R.Cancellations(t.keys);
    done, saved := runner.task, SavedTasks(runner.log);
  }

  class Store {
    var table: map<Id, Task>
    var unpersisted: map<Id, Task>
    var shutdown: bool
    var free: nat

    constructor (free: nat)
      ensures table == map[] && unpersisted == map[] && !shutdown && this.free == free
    {
      table, unpersisted, shutdown, this.free := map[], map[], false, free;
    }

    /** `writes` says whether the storage accepts this write. */
    method Save(id: Id, t: Task, writes: bool) returns (ok: bool)
      modifies `table
      ensures ok == writes && table == if ok then old(table)[id := t] else old(table)
    {
      if writes {
        table := table[id := t];
      }
      ok := writes;
    }

    /** What a reader of the task sees: the in-memory fallback first. */
    function Get(id: Id): Option<Task>
      reads this
    {
      if id in unpersisted then Some(unpersisted[id]) else if id in table then Some(table[id]) else None
    }

    /** Refused during shutdown, while any task is stuck in memory, when the queue is full, or when the save fails. */
    method NewTask(id: Id, isExport: bool, total: nat, keys: seq<Key>, writes: bool) returns (r: Option<Task>)
      modifies this
      ensures r.Some? <==> old(!shutdown && unpersisted == map[] && free > 0) && writes
      ensures r.Some? ==>
        r.value == Task(isExport, Queued, keys, total, 0, [], None) && table == old(table)[id := r.value]
      ensures r.None? ==> table == old(table)
      ensures free == old(free) - (if r.Some? then 1 else 0)
      ensures unpersisted == old(unpersisted) && shutdown == old(shutdown)
    {
      if shutdown || unpersisted != map[] || free == 0 {
        return None;
      }
      var t := Task(isExport, Queued, keys, total, 0, [], None);
      var ok := Save(id, t, writes);
      if !ok {
        return None;
      }
      free := free - 1;
      return Some(t);
    }

    /** The final write, one retry that stores the failure, and the fallback in memory. */
    method FinishTask(id: Id, t: Task, first: bool, second: bool) returns (final: Task)
      requires id !in unpersisted
      modifies `table, `unpersisted
      ensures final == if first then t else PersistenceFailure(t)
      ensures id in unpersisted <==> !first && !second
      ensures Get(id) == Some(final)
      ensures id !in unpersisted ==> table == old(table)[id := final] && unpersisted == old(unpersisted)
      ensures id in unpersisted ==> table == old(table) && unpersisted == old(unpersisted)[id := final]
    {
      var ok := Save(id, t, first);
      if ok {
        return t;
      }
      final := PersistenceFailure(t);
      ok := Save(id, final, second);
      if !ok {
        unpersisted := unpersisted[id := final];
      }
    }

    /**
     A whole export batch, from the accepted selection to its final record.  `versions` lists every record that
     was committed on the way.
     */
    method Export(id: Id, queued: Task, limit: nat, cancelled: bool) returns (final: Task, ghost versions: seq<Task>)
      requires id in table && table[id] == queued && id !in unpersisted
      requires queued == Task(true, Queued, queued.keys, |queued.keys|, 0, [], None) && Distinct(queued.keys)
      modifies this
      ensures multiset(ResultKeys(final.results)) == multiset(queued.keys) && final.status !in {Queued, Running}
      ensures Get(id) == Some(final)
      ensures Repairable(versions, queued.keys)
      ensures id in table && table[id] in versions
      ensures final.status == Succeeded ==> forall i :: 0 <= i < |final.results| ==> final.results[i].exported.Some?
    {
      var t := queued.(status := Running);
      StartIsCheckpoint(queued);
      versions := [queued];
      var start: bool, first: bool, second: bool := *, *, *;
      var ok := Save(id, t, start);
      if ok {
        versions := versions + [t];
      }
      var done, saved := RunBatch(t, ok, limit, cancelled);
      hide Repairable, Outcome;
      RepairableConcat(versions, saved, queued.keys);
      versions := versions + saved;
      // The checkpoints were written to the table as the batch went on.
      if saved != [] {
        table := table[id := saved[|saved| - 1]];
      }
      final := FinishTask(id, done, first, second);
      if id !in unpersisted {
        RepairableFinal(versions, final, queued.keys);
        versions := versions + [final];
      }
    }

    /** One page of the recovery query: the least ids above `previous`, at most a hundred of them, in order. */
    ghost predicate Page(rows: seq<Id>, previous: int)
      reads this
    {
      && |rows| <= 100
      && (forall i :: 0 <= i < |rows| ==> rows[i] in table && previous < rows[i])
      && (forall i, j :: 0 <= i < j < |rows| ==> rows[i] < rows[j])
      && (forall id :: id in table && previous < id && id !in rows ==>
            |rows| == 100 && forall i :: 0 <= i < |rows| ==> rows[i] < id)
    }

    method Query(previous: int) returns (rows: seq<Id>)
      ensures Page(rows, previous)
    {
      rows := [];
      var rest := set id | id in table && previous < id;
      while |rows| < 100 && rest != {}
        invariant |rows| <= 100
        invariant forall id :: id in rest <==> id in table && previous < id && id !in rows
        invariant forall i :: 0 <= i < |rows| ==> rows[i] in table && previous < rows[i]
        invariant forall i, j :: 0 <= i < j < |rows| ==> rows[i] < rows[j]
        invariant forall i, id :: 0 <= i < |rows| && id in rest ==> rows[i] < id
        decreases rest
      {
        var least := Least(rest);
        rows, rest := rows + [least], rest - {least};
      }
    }

    method RecoverPage(rows: seq<Id>, previous: int)
      requires Page(rows, previous) && rows != []
      modifies `table
      ensures table.Keys == old(table.Keys)
      ensures forall id :: id in table ==>
        if previous < id <= rows[|rows| - 1] then Repaired(old(table[id]), table[id]) else table[id] == old(table[id])
    {
      hide Recover, Repaired;
      for i := 0 to |rows|
        invariant table.Keys == old(table.Keys)
        invariant forall id :: id in table ==>
          if id in rows[..i] then Repaired(old(table[id]), table[id]) else table[id] == old(table[id])
      {
        RecoverRepairs(table[rows[i]]);
        table := table[rows[i] := Recover(table[rows[i]])];
      }
      assert rows[..|rows|] == rows;
    }

    /** Startup repair of the whole table, page by page. */
    method RecoverAll()
      modifies `table
      ensures table.Keys == old(table.Keys)
      ensures forall id :: id in table ==> Repaired(old(table[id]), table[id])
    {
      hide Repaired;
      var previous: int := -1;
      ghost var left := set id | id in table && previous < id;
      while true
        invariant table.Keys == old(table.Keys)
        invariant left == set id | id in table && previous < id
        invariant forall id :: id in table ==>
          if id <= previous then Repaired(old(table[id]), table[id]) else table[id] == old(table[id])
        decreases left
      {
        var rows := Query(previous);
        if rows == [] {
          break;
        }
        RecoverPage(rows, previous);
        previous := rows[|rows| - 1];
        assert rows[0] in left;
        left := set id | id in table && previous < id;
      }
      assert forall id :: id in table ==> id <= previous;
    }
  }

  method Least(s: set<Id>) returns (least: Id)
    requires s != {}
    ensures least in s && forall x :: x in s ==> least <= x
  {
    least :| least in s;
    var rest := s - {least};
    while rest != {}
      invariant least in s && rest <= s
      invariant forall x :: x in s && x !in rest ==> least <= x
      decreases rest
    {
      var x :| x in rest;
      if x < least {
        least := x;
      }
      rest := rest - {x};
    }
  }
}
