/**
 The temporary-storage budget, composed with the single-flight registry: a download reserves its size inside its
 producer, the reservation travels inside the shared result, and it is given back when the entry is freed.
 Workers reserve on their own.
 */
module Budget {
  import opened Bytes
  import opened Sums
  import Shared

  // ----- the counter

  class Counter {
    var used: u64
    const max: u64

    constructor (max: u64)
      ensures used == 0 && this.max == max
    {
      used, this.max := 0, max;
    }

    /** Refused when the 64-bit sum overflows or passes the maximum; otherwise the sum becomes the count. */
    method Reserve(n: u64) returns (ok: bool)
      requires used <= max
      modifies `used
      ensures used <= max
      ensures ok <==> old(used) + n <= max
      ensures used == if ok then old(used) + n else old(used)
    {
      var sum := used + n;
      if sum >= 0x1_0000_0000_0000_0000 {
        return false;
      }
      if sum > max {
        return false;
      }
      used := sum;
      return true;
    }

    method Return(n: u64)
      requires n <= used
      modifies `used
      ensures used == old(used) - n
    {
      used := used - n;
    }
  }

  // ----- sums of reservations

  function Size(n: nat): nat
  {
    n
  }

  ghost function Total(m: map<nat, nat>): nat
  {
    Sum(m, Size)
  }

  // ----- the composed protocol

  /**
   `owned` maps an entry to the bytes its producer or its result holds; `workers` maps a running worker to its bytes.
   */
  datatype State = State(shared: Shared.State, owned: map<nat, nat>, workers: map<nat, nat>, used: nat, max: nat)

  datatype Label =
    | Step(action: Shared.Label)
    | Reserve(entry: nat, bytes: nat)
    | GiveBack(entry: nat)
    | StartWorker(worker: nat, bytes: nat)
    | StopWorker(worker: nat)

  /** The entry whose reference a step may drop. */
  function Dropped(s: Shared.State, l: Shared.Label): Option<nat>
    requires Shared.InRange(s) && Shared.Enabled(s, l)
  {
    match l
    case Release(h) => Some(s.holders[h].entry)
    case ProducerExit(e) => Some(e)
    case CheckToken => Some(s.lock.entry)
    case Bump(_) => Some(s.lock.entry)
    case _ => None
  }

  predicate Working(s: Shared.State, e: nat)
  {
    e in s.entries && s.entries[e].producer && s.entries[e].result.None?
  }

  predicate Enabled(s: State, l: Label)
    requires Shared.InRange(s.shared)
  {
    match l
    case Step(a) =>
      && Shared.Enabled(s.shared, a)
      // A download that succeeds carries its reservation; one that fails has dropped it.
      && (a.Produce? ==> (a.result.Ok? <==> a.entry in s.owned))
    case Reserve(e, _) => Working(s.shared, e) && e !in s.owned
    case GiveBack(e) => Working(s.shared, e) && e in s.owned
    case StartWorker(w, _) => w !in s.workers
    case StopWorker(w) => w in s.workers
  }

  function Return(s: State, e: nat): State
    requires e in s.owned
  {
    s.(owned := s.owned - {e}, used := if s.used >= s.owned[e] then s.used - s.owned[e] else 0)
  }

  function Apply(s: State, l: Label): State
    requires Shared.InRange(s.shared) && Enabled(s, l)
  {
    match l
    case Step(a) =>
      var t := s.(shared := Shared.Apply(s.shared, a));
      var d := Dropped(s.shared, a);
      if d.Some? && d.value in s.owned && d.value in t.shared.entries && !Shared.Strong(t.shared, d.value)
      then Return(t, d.value) else t
    case Reserve(e, n) => if s.used + n <= s.max then s.(owned := s.owned[e := n], used := s.used + n) else s
    case GiveBack(e) => Return(s, e)
    case StartWorker(w, n) => if s.used + n <= s.max then s.(workers := s.workers[w := n], used := s.used + n) else s
    case StopWorker(w) =>
      s.(workers := s.workers - {w}, used := if s.used >= s.workers[w] then s.used - s.workers[w] else 0)
  }

  predicate Downloaded(s: Shared.State, e: nat)
    requires e in s.entries
  {
    s.entries[e].result.Some? && s.entries[e].result.value.Ok?
  }

  /** An owner is a referenced entry that has not failed, and every referenced download is an owner. */
  ghost predicate Owner(s: State, e: nat)
  {
    && (e in s.owned ==>
          e in s.shared.entries && Shared.Strong(s.shared, e)
          && (s.shared.entries[e].result.None? || Downloaded(s.shared, e)))
    && (e in s.shared.entries ==> (Shared.Strong(s.shared, e) && Downloaded(s.shared, e) ==> e in s.owned))
  }

  ghost predicate Owners(s: State)
  {
    forall e :: Owner(s, e)
  }

  /** Reserved bytes are the sum of all shares. */
  ghost predicate Counted(s: State)
  {
    s.used == Total(s.owned) + Total(s.workers) && s.used <= s.max
  }

  ghost predicate Inv(s: State)
  {
    Shared.Inv(s.shared) && Owners(s) && Counted(s)
  }

  /** Holders come and go one at a time and never change entry. */
  lemma StepHolders(s: Shared.State, l: Shared.Label, h: nat)
    requires Shared.InRange(s) && Shared.Enabled(s, l)
    ensures var t := Shared.Apply(s, l);
      && (h in s.holders && !(l.Release? && l.holder == h) ==>
            h in t.holders && t.holders[h].entry == s.holders[h].entry)
      && (h in t.holders && h !in s.holders ==> t.holders[h].entry == if l.Create? then l.entry else s.lock.entry)
      && (h in t.holders && h !in s.holders ==> l.Create? || (l.Bump? && s.lock.Passed?))
      && (h in t.holders && h in s.holders ==> t.holders[h].entry == s.holders[h].entry)
  {
  }

  /** A step can only end the life of the entry whose reference it drops. */
  lemma StrongFrame(s: Shared.State, l: Shared.Label, e: nat)
    requires Shared.InRange(s) && Shared.Enabled(s, l) && e in s.entries
    ensures e in Shared.Apply(s, l).entries
    ensures Shared.Strong(s, e) && Dropped(s, l) != Some(e) ==> Shared.Strong(Shared.Apply(s, l), e)
  {
    if h :| h in s.holders && s.holders[h].entry == e {
      StepHolders(s, l, h);
    }
  }

  /** No step revives an entry that nothing references. */
  lemma NoRevival(s: Shared.State, l: Shared.Label, e: nat)
    requires Shared.InRange(s) && Shared.Enabled(s, l) && e in s.entries && e in Shared.Apply(s, l).entries
    ensures !Shared.Strong(s, e) ==> !Shared.Strong(Shared.Apply(s, l), e)
  {
    var t := Shared.Apply(s, l);
    if Shared.Strong(t, e) && !Shared.Strong(s, e) {
      if h :| h in t.holders && t.holders[h].entry == e {
        StepHolders(s, l, h);
      }
    }
  }

  lemma StepResults(s: Shared.State, l: Shared.Label, e: nat)
    requires Shared.Inv(s) && Shared.Enabled(s, l)
    ensures var t := Shared.Apply(s, l);
      && (e in s.entries ==> e in t.entries)
      && (e in s.entries ==>
            t.entries[e].result == if l.Produce? && l.entry == e then Some(l.result) else s.entries[e].result)
      && (e !in s.entries && e in t.entries ==> t.entries[e].result.None?)
  {
  }

  /** What a step of the registry does to one entry: its life, its result, and who may end it. */
  lemma StepEntry(s: Shared.State, a: Shared.Label, e: nat)
    requires Shared.Inv(s) && Shared.Enabled(s, a)
    ensures var t := Shared.Apply(s, a);
      && (e in s.entries ==> e in t.entries)
      && (e in s.entries ==>
            t.entries[e].result == if a.Produce? && a.entry == e then Some(a.result) else s.entries[e].result)
      && (e !in s.entries && e in t.entries ==> t.entries[e].result.None?)
      && (e in s.entries && Shared.Strong(s, e) && Dropped(s, a) != Some(e) ==> Shared.Strong(t, e))
      && (e in s.entries && !Shared.Strong(s, e) ==> !Shared.Strong(t, e))
  {
    StepResults(s, a, e);
    if e in s.entries {
      StrongFrame(s, a, e);
      NoRevival(s, a, e);
    }
    hide Shared.Strong, Shared.Apply, Dropped;
  }

  lemma SharedOwner(s: State, a: Shared.Label, e: nat)
    requires Shared.Inv(s.shared) && Owner(s, e) && Enabled(s, Step(a))
    ensures Owner(Apply(s, Step(a)), e)
  {
    StepEntry(s.shared, a, e);
    hide Shared.Strong, Shared.Inv, Shared.Apply, Shared.Enabled, Shared.InRange, Dropped;
  }

  lemma StepOwners(s: State, a: Shared.Label)
    requires Inv(s) && Enabled(s, Step(a))
    ensures Owners(Apply(s, Step(a)))
  {
    forall e ensures Owner(Apply(s, Step(a)), e) {
      SharedOwner(s, a, e);
    }
  }

  lemma ReturnCounted(s: State, e: nat)
    requires Counted(s) && e in s.owned
    ensures Counted(Return(s, e)) && Return(s, e).shared == s.shared
  {
    SumRemove(s.owned, Size, e);
  }

  lemma StepCounted(s: State, a: Shared.Label)
    requires Inv(s) && Enabled(s, Step(a))
    ensures Counted(Apply(s, Step(a))) && Apply(s, Step(a)).shared == Shared.Apply(s.shared, a)
  {
    var t := s.(shared := Shared.Apply(s.shared, a));
    assert Counted(s) && Counted(t);
    hide Owners, Return, Counted, Shared.Inv, Shared.Apply, Shared.Enabled, Shared.Strong;
    var d := Dropped(s.shared, a);
    if d.Some? && d.value in s.owned {
      ReturnCounted(t, d.value);
    }
  }

  lemma StepKeeps(s: State, a: Shared.Label)
    requires Inv(s) && Enabled(s, Step(a))
    ensures Inv(Apply(s, Step(a)))
  {
    Shared.InvKept(s.shared, a);
    StepOwners(s, a);
    StepCounted(s, a);
    hide Apply, Owners, Shared.Inv, Shared.Apply, Shared.Enabled;
  }

  /** A change of one working producer's reservation concerns no other owner. */
  lemma WorkingOwners(s: State, t: State, e: nat)
    requires Owners(s) && t.shared == s.shared && Working(s.shared, e)
    requires forall x :: x != e ==> (x in t.owned <==> x in s.owned)
    ensures Owners(t)
  {
    forall x ensures Owner(t, x) {
      assert Owner(s, x);
    }
  }

  lemma OwnersOnly(s: State, t: State)
    requires Owners(s) && t.shared == s.shared && t.owned == s.owned
    ensures Owners(t)
  {
    forall x ensures Owner(t, x) {
      assert Owner(s, x);
    }
  }

  lemma InvKept(s: State, l: Label)
    requires Inv(s) && Enabled(s, l)
    ensures Inv(Apply(s, l))
  {
    var t := Apply(s, l);
    match l
    case Step(a) =>
      StepKeeps(s, a);
    case Reserve(e, n) =>
      SumAdd(s.owned, Size, e, n);
      WorkingOwners(s, t, e);
    case GiveBack(e) =>
      SumRemove(s.owned, Size, e);
      WorkingOwners(s, t, e);
    case StartWorker(w, n) =>
      SumAdd(s.workers, Size, w, n);
      OwnersOnly(s, t);
    case StopWorker(w) =>
      SumRemove(s.workers, Size, w);
      OwnersOnly(s, t);
  }

  ghost predicate Run(run: seq<State>, labels: seq<Label>, max: nat)
  {
    && |run| == |labels| + 1 && run[0] == State(Shared.EMPTY, map[], map[], 0, max)
    && (forall i :: 0 <= i < |labels| ==>
          Shared.InRange(run[i].shared) && Enabled(run[i], labels[i]) && run[i + 1] == Apply(run[i], labels[i]))
  }

  /** At every point of every run the count is the sum of what is owned, and within the maximum. */
  lemma {:induction false} RunWithinBudget(run: seq<State>, labels: seq<Label>, max: nat, i: nat)
    requires Run(run, labels, max) && i < |run|
    ensures Inv(run[i]) && run[i].max == max
  {
    if i == 0 {
      Shared.EmptyInv();
    } else {
      RunWithinBudget(run, labels, max, i - 1);
      InvKept(run[i - 1], labels[i - 1]);
    }
  }

  /** A lease keeps its share reserved; an entry that nobody references owns nothing. */
  lemma ShareLivesWithReferences(s: State, h: nat, e: nat)
    requires Inv(s)
    ensures h in s.shared.holders && s.shared.holders[h].phase.Leased? ==> s.shared.holders[h].entry in s.owned
    ensures e in s.shared.entries && !Shared.Strong(s.shared, e) ==> e !in s.owned
  {
    assert Owner(s, e);
    if h in s.shared.holders {
      assert Owner(s, s.shared.holders[h].entry);
    }
  }

  /**
   A working download gets its share exactly when the shares of all others leave room for it, and a refusal takes
   nothing.
   */
  lemma ReservedWhenItFits(s: State, e: nat, n: nat)
    requires Inv(s) && Enabled(s, Reserve(e, n))
    ensures var t := Apply(s, Reserve(e, n)); var others := Total(s.owned) + Total(s.workers);
      && (others + n <= s.max ==> t.owned == s.owned[e := n] && Total(t.owned) + Total(t.workers) == others + n)
      && (others + n > s.max ==> t == s)
  {
    SumAdd(s.owned, Size, e, n);
  }

  /** So does a worker. */
  lemma WorkerStartsWhenItFits(s: State, w: nat, n: nat)
    requires Inv(s) && Enabled(s, StartWorker(w, n))
    ensures var t := Apply(s, StartWorker(w, n)); var others := Total(s.owned) + Total(s.workers);
      && (others + n <= s.max ==> t.workers == s.workers[w := n] && Total(t.owned) + Total(t.workers) == others + n)
      && (others + n > s.max ==> t == s)
  {
    SumAdd(s.workers, Size, w, n);
  }

  /** With no waiter, no lease, no producer and no worker left, nothing is reserved. */
  lemma IdleIsEmpty(s: State)
    requires Inv(s) && s.shared.holders == map[] && s.shared.lock.Free? && s.workers == map[]
    requires forall e :: e in s.shared.entries ==> !s.shared.entries[e].producer
    ensures s.used == 0
  {
    assert forall e :: e in s.owned ==> Owner(s, e);
    assert s.owned.Keys == {};
  }
}
