/**
 The bounded batch runner.  Which job finishes next, how it ends, whether a checkpoint is saved and when the
 token is cancelled are left open, so the contracts speak of every schedule; `log` records what happened.
 */
module Runner {
  import opened Bytes
  import opened Tasks

  datatype Job = Job(id: nat, key: Key)

  datatype Event = Spawned(job: Job) | Settled(job: Job) | TokenCancelled | Saved(task: Task)

  function JobKeys(jobs: seq<Job>): (r: seq<Key>)
    ensures |r| == |jobs|
    ensures forall i :: 0 <= i < |jobs| ==> r[i] == jobs[i].key
  {
    seq(|jobs|, i requires 0 <= i < |jobs| => jobs[i].key)
  }

  /** How many jobs run after the events of `log`. */
  ghost function Load(log: seq<Event>): int
  {
    if log == [] then 0 else
      var last := log[|log| - 1];
      Load(log[..|log| - 1]) + if last.Spawned? then 1 else if last.Settled? then -1 else 0
  }

  ghost function Saves(log: seq<Event>): nat
  {
    if log == [] then 0 else Saves(log[..|log| - 1]) + if log[|log| - 1].Saved? then 1 else 0
  }

  ghost function Settles(log: seq<Event>): nat
  {
    if log == [] then 0 else Settles(log[..|log| - 1]) + if log[|log| - 1].Settled? then 1 else 0
  }

  lemma CountEvent(log: seq<Event>, e: Event)
    ensures Saves(log + [e]) == Saves(log) + if e.Saved? then 1 else 0
    ensures Settles(log + [e]) == Settles(log) + if e.Settled? then 1 else 0
  {
    assert (log + [e])[..|log|] == log;
  }

  /** At no point did more than `limit` jobs run. */
  ghost predicate Bounded(log: seq<Event>, limit: nat)
  {
    forall n :: 0 <= n <= |log| ==> Load(log[..n]) <= limit
  }

  ghost predicate Cancels(log: seq<Event>)
  {
    exists i :: 0 <= i < |log| && log[i].TokenCancelled?
  }

  /** How many jobs were started after the token was cancelled. */
  ghost function LateStarts(log: seq<Event>): nat
  {
    if log == [] then 0 else
      var front := log[..|log| - 1];
      LateStarts(front) + if log[|log| - 1].Spawned? && Cancels(front) then 1 else 0
  }

  lemma LateEvent(log: seq<Event>, e: Event)
    ensures LateStarts(log + [e]) == LateStarts(log) + if e.Spawned? && Cancels(log) then 1 else 0
    ensures Cancels(log + [e]) <==> Cancels(log) || e.TokenCancelled?
  {
    var t := log + [e];
    assert t[..|t| - 1] == log && t[|t| - 1] == e;
    if Cancels(log) {
      var i :| 0 <= i < |log| && log[i].TokenCancelled?;
      assert t[i].TokenCancelled?;
    }
  }

  /** At most one job starts after the cancellation: the one whose check came before it. */
  ghost predicate Prompt(log: seq<Event>, cancelled: bool)
  {
    LateStarts(log) <= 1 && (!cancelled ==> !Cancels(log) && LateStarts(log) == 0)
  }

  /** Every saved record is a checkpoint of this batch, and its results are a prefix of `results`. */
  ghost predicate SavedPrefixes(log: seq<Event>, keys: seq<Key>, results: seq<ItemResult>)
  {
    forall i :: 0 <= i < |log| && log[i].Saved? ==>
      && log[i].task.keys == keys && log[i].task.status.Running? && log[i].task.results <= results
      && |log[i].task.results| % 20 == 0 && multiset(ResultKeys(log[i].task.results)) <= multiset(keys)
  }

  lemma LogGrows(log: seq<Event>, e: Event, limit: nat)
    requires Bounded(log, limit) && Load(log) + (if e.Spawned? then 1 else 0) <= limit
    ensures Bounded(log + [e], limit)
    ensures Load(log + [e]) == Load(log) + if e.Spawned? then 1 else if e.Settled? then -1 else 0
  {
    var t := log + [e];
    assert t[..|t| - 1] == log;
    forall n | 0 <= n <= |t| ensures Load(t[..n]) <= limit {
      if n <= |log| {
        assert t[..n] == log[..n];
      } else {
        assert t[..n] == t;
      }
    }
  }

  lemma RemoveJob(jobs: seq<Job>, i: nat)
    requires i < |jobs|
    ensures multiset(JobKeys(jobs)) == multiset(JobKeys(jobs[..i] + jobs[i + 1..])) + multiset{jobs[i].key}
  {
    var keys := JobKeys(jobs);
    assert keys == keys[..i] + [keys[i]] + keys[i + 1..];
    assert JobKeys(jobs[..i] + jobs[i + 1..]) == keys[..i] + keys[i + 1..];
  }

  function Cancellations(keys: seq<Key>): (r: seq<ItemResult>)
    ensures |r| == |keys| && ResultKeys(r) == keys
  {
    seq(|keys|, i requires 0 <= i < |keys| => FailedItem(keys[i], Cancelled))
  }

  /** Every selected key is waiting, running or reported. */
  ghost predicate Accounted(keys: seq<Key>, results: seq<ItemResult>, active: seq<Job>, pending: seq<Key>)
  {
    && multiset(keys) == multiset(ResultKeys(results)) + multiset(JobKeys(active)) + multiset(pending)
    && |keys| == |results| + |active| + |pending|
  }

  /** Every running job can be named by its id. */
  ghost predicate Tracked(active: seq<Job>, identities: map<nat, Key>, next: nat)
  {
    && (forall i :: 0 <= i < |active| ==> active[i].id < next)
    && (forall i :: 0 <= i < |active| ==> active[i].id in identities && identities[active[i].id] == active[i].key)
    && (forall i, j :: 0 <= i < j < |active| ==> active[i].id != active[j].id)
  }

  ghost predicate Logged(log: seq<Event>, running: nat, limit: nat, cancelled: bool, keys: seq<Key>,
                         results: seq<ItemResult>)
  {
    && Load(log) == running <= limit && Bounded(log, limit) && Prompt(log, cancelled)
    && SavedPrefixes(log, keys, results)
  }

  lemma SpawnAccounted(keys: seq<Key>, results: seq<ItemResult>, active: seq<Job>, pending: seq<Key>, job: Job)
    requires Accounted(keys, results, active, pending) && pending != [] && job.key == pending[0]
    ensures Accounted(keys, results, active + [job], pending[1..])
  {
    assert pending == [pending[0]] + pending[1..];
    assert JobKeys(active + [job]) == JobKeys(active) + [job.key];
  }

  lemma SettleAccounted(keys: seq<Key>, results: seq<ItemResult>, active: seq<Job>, pending: seq<Key>, i: nat,
                        result: ItemResult)
    requires Accounted(keys, results, active, pending) && i < |active| && result.key == active[i].key
    ensures Accounted(keys, results + [result], active[..i] + active[i + 1..], pending)
  {
    RemoveJob(active, i);
    ResultKeysConcat(results, [result]);
    assert ResultKeys([result]) == [result.key];
  }

  lemma SettleTracked(active: seq<Job>, identities: map<nat, Key>, next: nat, i: nat)
    requires Tracked(active, identities, next) && i < |active|
    ensures active[i].id in identities && identities[active[i].id] == active[i].key
    ensures Tracked(active[..i] + active[i + 1..], identities - {active[i].id}, next)
  {
    var rest := active[..i] + active[i + 1..];
    assert forall j :: 0 <= j < |rest| ==> rest[j] == active[if j < i then j else j + 1];
  }

  lemma SavedPrefixesGrow(log: seq<Event>, keys: seq<Key>, a: seq<ItemResult>, b: seq<ItemResult>)
    requires SavedPrefixes(log, keys, a) && a <= b
    ensures SavedPrefixes(log, keys, b)
  {
  }

  lemma LogEvent(log: seq<Event>, running: nat, limit: nat, cancelled: bool, keys: seq<Key>, results: seq<ItemResult>,
                 e: Event, after: nat, now: bool)
    requires Logged(log, running, limit, cancelled, keys, results)
    requires after == running + (if e.Spawned? then 1 else if e.Settled? then -1 else 0) && after <= limit
    requires e.Spawned? ==> LateStarts(log) == 0
    requires e.Saved? ==> e.task.keys == keys && e.task.status.Running? && e.task.results == results
    requires e.Saved? ==> |results| % 20 == 0 && multiset(ResultKeys(results)) <= multiset(keys)
    requires (cancelled || e.TokenCancelled?) ==> now
    ensures Logged(log + [e], after, limit, now, keys, results)
  {
    hide Load, Bounded, Cancels, LateStarts;
    LogGrows(log, e, limit);
    LateEvent(log, e);
  }

  lemma InitialLog(limit: nat, cancelled: bool, keys: seq<Key>)
    ensures Logged(if cancelled then [TokenCancelled] else [], 0, limit, cancelled, keys, [])
  {
    EmptyLog(limit, keys);
    if cancelled {
      hide Logged;
      LogEvent([], 0, limit, false, keys, [], TokenCancelled, 0, true);
      assert [] + [TokenCancelled] == [TokenCancelled];
    }
  }

  lemma EmptyLog(limit: nat, keys: seq<Key>)
    ensures Logged([], 0, limit, false, keys, [])
  {
    var none: seq<Event> := [];
    assert forall n :: 0 <= n <= |none| ==> none[..n] == [];
  }

  class Runner {
    var task: Task
    var pending: seq<Key>
    var active: seq<Job>
    var identities: map<nat, Key>
    var cancelled: bool
    var next: nat
    const limit: nat
    ghost const keys: seq<Key>
    ghost const total: nat
    var log: seq<Event>

    ghost predicate Valid()
      reads this
    {
      && task.keys == keys && task.total == total && task.completed == |task.results|
      && (task.error.None? ==> task.status.Running?)
      && Accounted(keys, task.results, active, pending) && Tracked(active, identities, next)
      && Logged(log, |active|, limit, cancelled, keys, task.results)
    }

    /** Until a save fails, every twentieth result has been saved. */
    ghost predicate Punctual()
      reads this
    {
      Settles(log) == |task.results| && (task.error.None? ==> Saves(log) == |task.results| / 20)
    }

    constructor (t: Task, limit: nat, cancelled: bool)
      requires t.results == [] && t.completed == 0 && t.status.Running?
      ensures Valid() && Punctual() && task == t && keys == t.keys && total == t.total && this.limit == limit
      ensures log == if cancelled then [TokenCancelled] else []
      ensures active == [] && pending == t.keys && this.cancelled == cancelled
    {
      task, pending, active, identities, next := t, t.keys, [], map[], 0;
      this.limit, keys, total := limit, t.keys, t.total;
      this.cancelled, log := cancelled, if cancelled then [TokenCancelled] else [];
      new;
      InitialLog(limit, cancelled, keys);
      assert ResultKeys(task.results) == [] && JobKeys(active) == [];
      CountEvent([], TokenCancelled);
      assert [] + [TokenCancelled] == [TokenCancelled];
      hide Logged;
    }

    /** The token may be cancelled at any point by the caller or by shutdown. */
    method Poll()
      requires Valid()
      modifies `cancelled, `log
      ensures Valid() && (old(cancelled) ==> cancelled) && old(log) <= log
      ensures cancelled == old(cancelled) ==> log == old(log)
      ensures Saves(log) == old(Saves(log)) && Settles(log) == old(Settles(log))
      ensures LateStarts(log) == old(LateStarts(log)) && (old(cancelled) ==> log == old(log))
    {
      var now: bool := *;
      if now && !cancelled {
        Stop();
      }
    }

    lemma WithinLimit()
      requires Valid()
      ensures |active| <= limit
    {
      hide Accounted, Tracked, Load, Bounded, Prompt, SavedPrefixes;
    }

    lemma NothingLate()
      requires Valid() && !cancelled
      ensures LateStarts(log) == 0
    {
      hide Accounted, Tracked, Load, Bounded, SavedPrefixes, LateStarts, Cancels;
    }

    method Stop()
      requires Valid()
      modifies `cancelled, `log
      ensures Valid() && cancelled && log == old(log) + [TokenCancelled]
      ensures Saves(log) == old(Saves(log)) && Settles(log) == old(Settles(log))
      ensures LateStarts(log) == old(LateStarts(log))
    {
      hide Accounted, Tracked, Logged, Saves, Settles, Load, LateStarts;
      LateEvent(log, TokenCancelled);
      WithinLimit();
      CountEvent(log, TokenCancelled);
      LogEvent(log, |active|, limit, cancelled, keys, task.results, TokenCancelled, |active|, true);
      log := log + [TokenCancelled];
      cancelled := true;
    }

    /**
     Start jobs while there is room, a key is left and the token is not cancelled; it may be cancelled between the
     check and the start.
     */
    method Fill()
      requires Valid()
      modifies `pending, `active, `identities, `next, `cancelled, `log
      ensures Valid() && old(log) <= log && |pending| + |active| == old(|pending| + |active|)
      ensures old(cancelled) ==> cancelled && log == old(log) && pending == old(pending) && active == old(active)
      ensures |active| == limit || pending == [] || cancelled
      ensures Saves(log) == old(Saves(log)) && Settles(log) == old(Settles(log))
    {
      hide Saves, Settles, Accounted, Tracked, Logged, LateStarts;
      while |active| < limit && !cancelled && pending != []
        invariant Valid() && old(log) <= log && |pending| + |active| == old(|pending| + |active|)
        invariant old(cancelled) ==> cancelled && log == old(log) && pending == old(pending) && active == old(active)
        invariant Saves(log) == old(Saves(log)) && Settles(log) == old(Settles(log))
        decreases |pending|
      {
        NothingLate();
        Poll();
        Spawn();
        Poll();
      }
      WithinLimit();
    }

    method Spawn()
      requires Valid() && |active| < limit && LateStarts(log) == 0 && pending != []
      modifies `pending, `active, `identities, `next, `log
      ensures Valid() && old(log) <= log
      ensures |pending| == old(|pending|) - 1 && |active| == old(|active|) + 1
      ensures Saves(log) == old(Saves(log)) && Settles(log) == old(Settles(log))
    {
      hide Load, Bounded, Prompt, LateStarts, SavedPrefixes;
      var job := Job(next, pending[0]);
      SpawnAccounted(keys, task.results, active, pending, job);
      LogEvent(log, |active|, limit, cancelled, keys, task.results, Spawned(job), |active| + 1, cancelled);
      CountEvent(log, Spawned(job));
      hide Accounted, Logged, Saves, Settles;
      active, identities, next, pending := active + [job], identities[next := job.key], next + 1, pending[1..];
      log := log + [Spawned(job)];
    }

    /** Some running job ends; a panicking one is named through `identities`. */
    method Settle(i: nat, panicked: bool, exported: Option<ExportId>, error: Option<Error>)
      requires Valid() && i < |active|
      modifies `task, `active, `identities, `log
      ensures Valid() && task.results == old(task.results) + [
        if panicked then FailedItem(old(active[i]).key, Terminated)
        else ItemResult(old(active[i]).key, exported, error)]
      ensures |active| == old(|active|) - 1 && log == old(log) + [Settled(old(active[i]))]
      ensures task.error == old(task.error)
      ensures Saves(log) == old(Saves(log)) && Settles(log) == old(Settles(log)) + 1
    {
      hide Accounted, Tracked, Logged;
      var job := active[i];
      SettleTracked(active, identities, next, i);
      assert job.id in identities;  // the panicking job is always tracked
      var result :=
        if panicked then FailedItem(identities[job.id], Terminated) else ItemResult(job.key, exported, error);
      SettleAccounted(keys, task.results, active, pending, i, result);
      LogSettled(job, result);
      CountEvent(log, Settled(job));
      identities := identities - {job.id};
      active := active[..i] + active[i + 1..];
      task := task.(results := task.results + [result], completed := |task.results| + 1);
      log := log + [Settled(job)];
    }

    lemma LogSettled(job: Job, result: ItemResult)
      requires Valid() && |active| > 0
      ensures Logged(log + [Settled(job)], |active| - 1, limit, cancelled, keys, task.results + [result])
    {
      hide Accounted, Tracked;
      LogEvent(log, |active|, limit, cancelled, keys, task.results, Settled(job), |active| - 1, cancelled);
      SavedPrefixesGrow(log + [Settled(job)], keys, task.results, task.results + [result]);
    }

    /** After every twentieth result the record is saved; a failed save marks the batch and cancels the token. */
    method Checkpoint()
      requires Valid()
      modifies `task, `cancelled, `log
      ensures Valid() && task.results == old(task.results) && old(log) <= log && (old(cancelled) ==> cancelled)
      ensures old(task.error.Some? || task.completed % 20 != 0) ==>
        task == old(task) && log == old(log) && cancelled == old(cancelled)
      ensures old(task.error.None? && task.completed % 20 == 0) ==>
        || (task == old(task) && log == old(log) + [Saved(task)] && cancelled == old(cancelled))
        || (task == PersistenceFailure(old(task)) && log == old(log) + [TokenCancelled] && cancelled)
    {
      if task.error.Some? || task.completed % 20 != 0 {
        return;
      }
      var saved: bool := *;
      if saved {
        LogEvent(log, |active|, limit, cancelled, keys, task.results, Saved(task), |active|, cancelled);
        hide Accounted, Tracked, Logged;
        log := log + [Saved(task)];
      } else {
        task := PersistenceFailure(task);
        Stop();
      }
    }

    /** One result and the save that may be due. */
    method Advance()
      requires Valid() && Punctual() && active != []
      modifies `task, `active, `identities, `cancelled, `log
      ensures Valid() && Punctual() && old(log) <= log && (old(cancelled) ==> cancelled)
      ensures |active| == old(|active|) - 1
    {
      var i: nat :| i < |active|;
      var panicked: bool := *;
      var exported: Option<ExportId> := *;
      var error: Option<Error> := *;
      Settle(i, panicked, exported, error);
      ghost var before := log;
      CountEvent(before, Saved(task));
      CountEvent(before, TokenCancelled);
      hide Accounted, Tracked, Logged, Saves, Settles;
      Checkpoint();
    }

    /** The whole batch: every selected key is reported exactly once, whatever the schedule. */
    method Run()
      requires Valid() && Punctual() && active == []
      modifies this
      ensures multiset(ResultKeys(task.results)) == multiset(keys) && task.completed == |task.results| == |keys|
      ensures task.keys == keys && task.total == total && task.status == Outcome(task, cancelled)
      ensures Bounded(log, limit) && Load(log) == 0 && LateStarts(log) <= 1
      ensures SavedPrefixes(log, keys, task.results) && old(log) <= log
      ensures old(cancelled) ==>
        cancelled && log == old(log) && task.results == old(task.results) + Cancellations(old(pending))
      ensures task.error.None? ==> Saves(log) == Settles(log) / 20
    {
      hide Accounted, Tracked, Logged, Load, Bounded, LateStarts, SavedPrefixes, Outcome, Saves, Settles;
      Drain();
      Poll();
      Conclude();
    }

    method Drain()
      requires Valid() && Punctual()
      modifies this
      ensures Valid() && Punctual() && old(log) <= log && (old(cancelled) ==> cancelled)
      ensures active == []
      ensures old(cancelled) && old(active) == [] ==> log == old(log) && task == old(task) && pending == old(pending)
    {
      hide Accounted, Tracked, Logged, Saves, Settles;
      while true
        invariant Valid() && Punctual() && old(log) <= log && (old(cancelled) ==> cancelled)
        invariant old(cancelled) && old(active) == [] ==>
          active == [] && log == old(log) && task == old(task) && pending == old(pending)
        decreases |pending| + |active|
      {
        Poll();
        Fill();
        if active == [] {
          break;
        }
        Poll();
        Advance();
      }
    }

    /** Keys that were never started are reported as cancelled, and the batch is classified. */
    method Conclude()
      requires Valid() && active == []
      modifies `task
      ensures task.error == old(task.error) && task.results == old(task.results) + Cancellations(pending)
      ensures multiset(ResultKeys(task.results)) == multiset(keys) && task.completed == |task.results| == |keys|
      ensures task.keys == keys && task.total == total && task.status == Outcome(task, cancelled)
      ensures Bounded(log, limit) && Load(log) == 0 && LateStarts(log) <= 1
      ensures SavedPrefixes(log, keys, task.results)
    {
      var rest := Cancellations(pending);
      ResultKeysConcat(task.results, rest);
      assert JobKeys(active) == [];
      SavedPrefixesGrow(log, keys, task.results, task.results + rest);
      hide SavedPrefixes, Bounded, LateStarts, Load;
      task := task.(results := task.results + rest, completed := |task.results| + |rest|);
      task := task.(status := Outcome(task, cancelled));
    }
  }

  /** Whatever was saved during a batch, a restart from it again reports every key exactly once. */
  lemma RestartFromAnySave(log: seq<Event>, keys: seq<Key>, results: seq<ItemResult>, i: nat)
    requires Distinct(keys) && SavedPrefixes(log, keys, results) && i < |log| && log[i].Saved?
    ensures multiset(ResultKeys(Recover(log[i].task).results)) == multiset(keys)
    ensures log[i].task.results <= results && log[i].task.results <= Recover(log[i].task).results
  {
    RecoverAccounts(log[i].task);
  }
}
