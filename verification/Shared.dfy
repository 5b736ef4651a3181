/**
 The single-flight registry as a protocol.  `join` holds the registry lock but takes several atomic steps;
 dropping a waiter takes three steps and never takes the lock; producers run on their own.  Every interleaving
 of these steps is a run.
 */
module Shared {
  import opened Bytes

  type Key = nat
  type Value = nat

  datatype Result = Ok(value: Value) | Err

  /**
   A waiter waits, becomes a lease when it takes the result, and is dropped in up to three steps: the count
   goes down, the last one cancels the token, and its reference goes away.
   */
  datatype Phase = Waiting | Leased(value: Value) | Cancelling | Releasing

  datatype Holder = Holder(entry: nat, phase: Phase)

  /** `producer` says that the producing task still holds its strong reference. */
  datatype Entry = Entry(key: Key, users: int, cancelled: bool, result: Option<Result>, producer: bool)

  /** Where the joiner that holds the registry lock has got to. */
  datatype Lock =
    | Free
    | Looking(key: Key)
    | Upgraded(key: Key, entry: nat)
    | Passed(key: Key, entry: nat)
    | Missing(key: Key)

  datatype State = State(entries: map<nat, Entry>, registry: map<Key, nat>, holders: map<nat, Holder>, lock: Lock)

  const EMPTY := State(map[], map[], map[], Free)

  datatype Label =
    | Begin(key: Key, dead: set<Key>)
    | Upgrade
    | CheckToken
    | Bump(holder: nat)
    | Create(holder: nat, entry: nat)
    | Observe(holder: nat)
    | DropSub(holder: nat)
    | DropCancel(holder: nat)
    | Release(holder: nat)
    | Produce(entry: nat, result: Result)
    | ProducerExit(entry: nat)

  predicate Active(p: Phase) { p.Waiting? || p.Leased? }

  /** The waiters and leases that an entry's count stands for. */
  function Users(s: State, e: nat): set<nat>
  {
    set h | h in s.holders && s.holders[h].entry == e && Active(s.holders[h].phase)
  }

  predicate LockHolds(l: Lock, e: nat)
  {
    (l.Upgraded? || l.Passed?) && l.entry == e
  }

  /** Some strong reference keeps the entry alive, so that a weak one can be upgraded. */
  predicate Strong(s: State, e: nat)
    requires e in s.entries
  {
    s.entries[e].producer || LockHolds(s.lock, e) || exists h :: h in s.holders && s.holders[h].entry == e
  }

  // ----- the steps

  predicate InRange(s: State)
  {
    && (forall h :: h in s.holders ==> s.holders[h].entry in s.entries)
    && (forall k :: k in s.registry ==> s.registry[k] in s.entries)
    && (s.lock.Upgraded? || s.lock.Passed? ==> s.lock.entry in s.entries)
  }

  predicate Enabled(s: State, l: Label)
    requires InRange(s)
  {
    match l
    case Begin(key, dead) =>
      && s.lock.Free?
      && (forall k :: k in dead ==> k in s.registry && !Strong(s, s.registry[k]))
    case Upgrade => s.lock.Looking?
    case CheckToken => s.lock.Upgraded?
    case Bump(h) => s.lock.Passed? && h !in s.holders
    case Create(h, e) => s.lock.Missing? && h !in s.holders && e !in s.entries
    case Observe(h) =>
      && h in s.holders && s.holders[h].phase.Waiting?
      && var r := s.entries[s.holders[h].entry].result; r.Some? && r.value.Ok?
    case DropSub(h) => h in s.holders && Active(s.holders[h].phase)
    case DropCancel(h) => h in s.holders && s.holders[h].phase.Cancelling?
    case Release(h) => h in s.holders && s.holders[h].phase.Releasing?
    case Produce(e, r) => e in s.entries && s.entries[e].producer && s.entries[e].result.None?
    case ProducerExit(e) => e in s.entries && s.entries[e].producer && s.entries[e].result.Some?
  }

  function SetPhase(s: State, h: nat, p: Phase): State
    requires h in s.holders
  {
    s.(holders := s.holders[h := s.holders[h].(phase := p)])
  }

  function Apply(s: State, l: Label): State
    requires InRange(s) && Enabled(s, l)
  {
    match l
    case Begin(key, dead) => s.(registry := s.registry - dead, lock := Looking(key))
    case Upgrade =>
      var k := s.lock.key;
      if k in s.registry && Strong(s, s.registry[k]) then s.(lock := Upgraded(k, s.registry[k]))
      else s.(lock := Missing(k))
    case CheckToken =>
      if s.entries[s.lock.entry].cancelled then s.(lock := Missing(s.lock.key))
      else s.(lock := Passed(s.lock.key, s.lock.entry))
    case Bump(h) =>
      var e := s.lock.entry;
      var n := s.entries[e].users;
      if n <= 0 then s.(lock := Missing(s.lock.key))
      else State(s.entries[e := s.entries[e].(users := n + 1)], s.registry, s.holders[h := Holder(e, Waiting)], Free)
    case Create(h, e) =>
      var k := s.lock.key;
      State(s.entries[e := Entry(k, 1, false, None, true)], s.registry[k := e],
        s.holders[h := Holder(e, Waiting)], Free)
    case Observe(h) => SetPhase(s, h, Leased(s.entries[s.holders[h].entry].result.value.value))
    case DropSub(h) =>
      var e := s.holders[h].entry;
      var n := s.entries[e].users;
      SetPhase(s.(entries := s.entries[e := s.entries[e].(users := n - 1)]), h,
               if n == 1 then Cancelling else Releasing)
    case DropCancel(h) =>
      var e := s.holders[h].entry;
      SetPhase(s.(entries := s.entries[e := s.entries[e].(cancelled := true)]), h, Releasing)
    case Release(h) => s.(holders := s.holders - {h})
    case Produce(e, r) => s.(entries := s.entries[e := s.entries[e].(result := Some(r))])
    case ProducerExit(e) => s.(entries := s.entries[e := s.entries[e].(producer := false)])
  }

  // ----- the invariant

  /** The count is the number of waiters and leases. */
  ghost predicate Counted(s: State)
  {
    forall e :: e in s.entries ==> s.entries[e].users == |Users(s, e)|
  }

  ghost predicate SomeCancelling(s: State, e: nat)
  {
    exists h :: h in s.holders && s.holders[h].entry == e && s.holders[h].phase.Cancelling?
  }

  /** The token is cancelled, or about to be by the last waiter, exactly when nobody is counted. */
  ghost predicate CancelledIffAbandoned(s: State)
  {
    forall e :: e in s.entries ==> (s.entries[e].users == 0 <==> s.entries[e].cancelled || SomeCancelling(s, e))
  }

  /** An entry with users is the registered one for its key. */
  ghost predicate LiveRegistered(s: State)
  {
    forall e :: e in s.entries && s.entries[e].users > 0 ==>
      s.entries[e].key in s.registry && s.registry[s.entries[e].key] == e
  }

  ghost predicate KeysAgree(s: State)
    requires InRange(s)
  {
    && (forall k :: k in s.registry ==> s.entries[s.registry[k]].key == k)
    && (s.lock.Upgraded? || s.lock.Passed? ==> s.lock.key in s.registry && s.registry[s.lock.key] == s.lock.entry)
    && (s.lock.Missing? && s.lock.key in s.registry ==> s.entries[s.registry[s.lock.key]].users == 0)
  }

  ghost predicate LeasesHoldResult(s: State)
    requires InRange(s)
  {
    forall h :: h in s.holders && s.holders[h].phase.Leased? ==>
      s.entries[s.holders[h].entry].result == Some(Ok(s.holders[h].phase.value))
  }

  /** Whoever still waits has a producer that will answer. */
  ghost predicate UnansweredHasProducer(s: State)
  {
    forall e :: e in s.entries && s.entries[e].result.None? ==> s.entries[e].producer
  }

  ghost predicate Inv(s: State)
  {
    && InRange(s) && Counted(s) && CancelledIffAbandoned(s) && LiveRegistered(s) && KeysAgree(s)
    && LeasesHoldResult(s) && UnansweredHasProducer(s)
  }

  lemma EmptyInv()
    ensures Inv(EMPTY)
  {
  }

  // ----- the invariant is kept by every step

  ghost predicate Counts(s: State)
  {
    Counted(s) && CancelledIffAbandoned(s)
  }

  ghost predicate Links(s: State)
  {
    InRange(s) && LiveRegistered(s) && KeysAgree(s) && LeasesHoldResult(s) && UnansweredHasProducer(s)
  }

  /** Two states that differ at most in an uncounted, uncancelling holder have the same users everywhere. */
  lemma SameUsers(s: State, t: State, h: nat)
    requires forall x :: x != h ==> (x in s.holders <==> x in t.holders)
    requires forall x :: x != h && x in s.holders ==> s.holders[x] == t.holders[x]
    requires (h in s.holders && Active(s.holders[h].phase)) <==> (h in t.holders && Active(t.holders[h].phase))
    requires h in s.holders && h in t.holders ==> s.holders[h].entry == t.holders[h].entry
    requires h in s.holders ==> !s.holders[h].phase.Cancelling?
    requires h in t.holders ==> !t.holders[h].phase.Cancelling?
    ensures forall e :: Users(s, e) == Users(t, e)
    ensures forall e :: SomeCancelling(s, e) <==> SomeCancelling(t, e)
  {
    forall e ensures Users(s, e) == Users(t, e) {
      forall x ensures x in Users(s, e) <==> x in Users(t, e) {}
    }
    forall e ensures SomeCancelling(s, e) <==> SomeCancelling(t, e) {
      if SomeCancelling(s, e) {
        var x :| x in s.holders && s.holders[x].entry == e && s.holders[x].phase.Cancelling?;
        assert t.holders[x] == s.holders[x];
      }
      if SomeCancelling(t, e) {
        var x :| x in t.holders && t.holders[x].entry == e && t.holders[x].phase.Cancelling?;
        assert t.holders[x] == s.holders[x];
      }
    }
  }

  lemma SameHolders(s: State, t: State)
    requires s.holders == t.holders
    ensures forall e :: Users(s, e) == Users(t, e)
    ensures forall e :: SomeCancelling(s, e) <==> SomeCancelling(t, e)
  {
  }

  /** Steps that touch neither a count nor a token keep the counting part of the invariant. */
  lemma CountsCarry(s: State, t: State)
    requires Counts(s)
    requires forall e :: Users(s, e) == Users(t, e)
    requires forall e :: SomeCancelling(s, e) <==> SomeCancelling(t, e)
    requires s.entries.Keys == t.entries.Keys
    requires forall e :: e in s.entries ==>
      t.entries[e].users == s.entries[e].users && t.entries[e].cancelled == s.entries[e].cancelled
    ensures Counts(t)
  {
    hide Users, SomeCancelling;
  }

  lemma NotStrongNoUsers(s: State, e: nat)
    requires InRange(s) && Counted(s) && e in s.entries && !Strong(s, e)
    ensures s.entries[e].users == 0
  {
    assert Users(s, e) == {};
  }

  lemma LockSteps(s: State, l: Label)
    requires Inv(s) && Enabled(s, l) && (l.Begin? || l.Upgrade? || l.CheckToken?)
    ensures Inv(Apply(s, l))
  {
    var t := Apply(s, l);
    assert Counts(t) by {
      SameHolders(s, t);
      CountsCarry(s, t);
    }
    assert Links(t) by {
      LockLinks(s, l);
    }
  }

  lemma LockLinks(s: State, l: Label)
    requires Inv(s) && Enabled(s, l) && (l.Begin? || l.Upgrade? || l.CheckToken?)
    ensures Links(Apply(s, l))
  {
    if l.Begin? {
      forall k | k in l.dead ensures s.entries[s.registry[k]].users == 0 {
        NotStrongNoUsers(s, s.registry[k]);
      }
    } else if l.Upgrade? {
      if s.lock.key in s.registry && !Strong(s, s.registry[s.lock.key]) {
        NotStrongNoUsers(s, s.registry[s.lock.key]);
      }
    }
  }

  lemma NewHolder(s: State, t: State, h: nat, e: nat)
    requires h !in s.holders && t.holders == s.holders[h := Holder(e, Waiting)]
    ensures Users(t, e) == Users(s, e) + {h} && h !in Users(s, e)
    ensures forall x :: x != e ==> Users(t, x) == Users(s, x)
    ensures forall x :: SomeCancelling(t, x) <==> SomeCancelling(s, x)
  {
    forall x | x != e ensures Users(t, x) == Users(s, x) {
      forall y ensures y in Users(s, x) <==> y in Users(t, x) {}
    }
    forall x ensures SomeCancelling(t, x) <==> SomeCancelling(s, x) {
      if SomeCancelling(s, x) {
        var y :| y in s.holders && s.holders[y].entry == x && s.holders[y].phase.Cancelling?;
        assert y in t.holders && t.holders[y] == s.holders[y];
      }
    }
  }

  /** One more holder of `e`, whose count goes up by one from a live or a fresh start. */
  lemma OneMore(s: State, t: State, h: nat, e: nat)
    requires Counts(s) && h !in s.holders && t.holders == s.holders[h := Holder(e, Waiting)]
    requires e in t.entries && t.entries.Keys == s.entries.Keys + {e} && !t.entries[e].cancelled
    requires forall x :: x in s.entries && x != e ==> t.entries[x] == s.entries[x]
    requires if e in s.entries then s.entries[e].users > 0 && t.entries[e].users == s.entries[e].users + 1
             else t.entries[e].users == 1 && Users(s, e) == {} && !SomeCancelling(s, e)
    ensures Counts(t)
  {
    NewHolder(s, t, h, e);
    hide Users, SomeCancelling;
  }

  lemma BumpStep(s: State, h: nat)
    requires Inv(s) && Enabled(s, Bump(h)) && s.entries[s.lock.entry].users > 0
    ensures Counts(Apply(s, Bump(h)))
  {
    hide Users, SomeCancelling;
    OneMore(s, Apply(s, Bump(h)), h, s.lock.entry);
  }

  lemma CreateStep(s: State, h: nat, e: nat)
    requires Inv(s) && Enabled(s, Create(h, e))
    ensures Counts(Apply(s, Create(h, e)))
  {
    assert Users(s, e) == {} && !SomeCancelling(s, e);
    hide Users, SomeCancelling;
    OneMore(s, Apply(s, Create(h, e)), h, e);
  }

  lemma BumpLinks(s: State, h: nat)
    requires Links(s) && Enabled(s, Bump(h)) && s.entries[s.lock.entry].users >= 0
    ensures Links(Apply(s, Bump(h)))
  {
  }

  lemma CreateLinks(s: State, h: nat, e: nat)
    requires Links(s) && Enabled(s, Create(h, e))
    ensures Links(Apply(s, Create(h, e)))
  {
  }

  lemma JoinSteps(s: State, l: Label)
    requires Inv(s) && Enabled(s, l) && (l.Bump? || l.Create?)
    ensures Inv(Apply(s, l))
  {
    var t := Apply(s, l);
    if l.Create? {
      CreateStep(s, l.holder, l.entry);
      CreateLinks(s, l.holder, l.entry);
    } else if s.entries[s.lock.entry].users > 0 {
      BumpStep(s, l.holder);
      BumpLinks(s, l.holder);
    } else {
      BumpLinks(s, l.holder);
      SameHolders(s, t);
      CountsCarry(s, t);
    }
  }

  lemma DropSubUsers(s: State, h: nat)
    requires InRange(s) && Enabled(s, DropSub(h))
    ensures var t := Apply(s, DropSub(h)); var e := s.holders[h].entry;
      && h in Users(s, e) && Users(t, e) == Users(s, e) - {h}
      && (forall x :: x != e ==> Users(t, x) == Users(s, x))
      && (forall x :: SomeCancelling(t, x) <==> SomeCancelling(s, x) || (x == e && s.entries[e].users == 1))
  {
    var t := Apply(s, DropSub(h));
    var e := s.holders[h].entry;
    forall x | x != e ensures Users(t, x) == Users(s, x) {
      forall y ensures y in Users(s, x) <==> y in Users(t, x) {}
    }
    forall x ensures SomeCancelling(t, x) <==> SomeCancelling(s, x) || (x == e && s.entries[e].users == 1) {
      if SomeCancelling(s, x) {
        var y :| y in s.holders && s.holders[y].entry == x && s.holders[y].phase.Cancelling?;
        assert y in t.holders && t.holders[y] == s.holders[y];
      }
      if x == e && s.entries[e].users == 1 {
        assert t.holders[h].phase.Cancelling?;
      }
    }
  }

  lemma DropSubCounts(s: State, h: nat)
    requires InRange(s) && Counts(s) && Enabled(s, DropSub(h))
    ensures Counts(Apply(s, DropSub(h))) && s.entries[s.holders[h].entry].users > 0
  {
    var t, e := Apply(s, DropSub(h)), s.holders[h].entry;
    DropSubUsers(s, h);
    assert t.entries == s.entries[e := s.entries[e].(users := s.entries[e].users - 1)];
    hide Users, SomeCancelling, Apply, Enabled;
  }

  lemma DropSubStep(s: State, h: nat)
    requires Inv(s) && Enabled(s, DropSub(h))
    ensures Inv(Apply(s, DropSub(h)))
  {
    DropSubCounts(s, h);
    DropLinks(s, DropSub(h));
  }

  lemma DropLinks(s: State, l: Label)
    requires Links(s) && Enabled(s, l) && (l.DropSub? || l.DropCancel?)
    requires l.DropSub? ==> s.entries[s.holders[l.holder].entry].users > 0
    ensures Links(Apply(s, l))
  {
  }

  lemma DropCancelStep(s: State, h: nat)
    requires Inv(s) && Enabled(s, DropCancel(h))
    ensures Inv(Apply(s, DropCancel(h)))
  {
    var t, e := Apply(s, DropCancel(h)), s.holders[h].entry;
    assert Counts(t) by {
      assert SomeCancelling(s, e);
      DropCancelUsers(s, h);
      hide Users, SomeCancelling;
      assert t.entries == s.entries[e := s.entries[e].(cancelled := true)];
    }
    DropLinks(s, DropCancel(h));
  }

  lemma DropCancelUsers(s: State, h: nat)
    requires InRange(s) && Enabled(s, DropCancel(h))
    ensures var t := Apply(s, DropCancel(h));
      && (forall x :: Users(t, x) == Users(s, x))
      && (forall x :: x != s.holders[h].entry ==> (SomeCancelling(t, x) <==> SomeCancelling(s, x)))
  {
    var t := Apply(s, DropCancel(h));
    forall x ensures Users(t, x) == Users(s, x) {
      forall y ensures y in Users(s, x) <==> y in Users(t, x) {}
    }
    forall x | x != s.holders[h].entry ensures SomeCancelling(t, x) <==> SomeCancelling(s, x) {
      if SomeCancelling(s, x) {
        var y :| y in s.holders && s.holders[y].entry == x && s.holders[y].phase.Cancelling?;
        assert y in t.holders && t.holders[y] == s.holders[y];
      }
    }
  }

  lemma QuietCounts(s: State, l: Label)
    requires InRange(s) && Counts(s)
    requires Enabled(s, l) && (l.Observe? || l.Release? || l.Produce? || l.ProducerExit?)
    ensures Counts(Apply(s, l))
  {
    var t := Apply(s, l);
    if l.Observe? || l.Release? {
      SameUsers(s, t, l.holder);
    } else {
      SameHolders(s, t);
    }
    hide Users, SomeCancelling;
    CountsCarry(s, t);
  }

  /** Taking the result, releasing a reference and the producer's own steps leave every count alone. */
  lemma QuietSteps(s: State, l: Label)
    requires Inv(s) && Enabled(s, l) && (l.Observe? || l.Release? || l.Produce? || l.ProducerExit?)
    ensures Inv(Apply(s, l))
  {
    QuietCounts(s, l);
    QuietLinks(s, l);
  }

  lemma QuietLinks(s: State, l: Label)
    requires Links(s) && Enabled(s, l) && (l.Observe? || l.Release? || l.Produce? || l.ProducerExit?)
    ensures Links(Apply(s, l))
  {
  }

  lemma InvKept(s: State, l: Label)
    requires Inv(s) && Enabled(s, l)
    ensures Inv(Apply(s, l))
  {
    match l
    case Begin(_, _) => LockSteps(s, l);
    case Upgrade => LockSteps(s, l);
    case CheckToken => LockSteps(s, l);
    case Bump(_) => JoinSteps(s, l);
    case Create(_, _) => JoinSteps(s, l);
    case Observe(_) => QuietSteps(s, l);
    case DropSub(h) => DropSubStep(s, h);
    case DropCancel(h) => DropCancelStep(s, h);
    case Release(_) => QuietSteps(s, l);
    case Produce(_, _) => QuietSteps(s, l);
    case ProducerExit(_) => QuietSteps(s, l);
  }

  // ----- every run

  /** `run[i]` steps to `run[i + 1]` by `labels[i]`. */
  ghost predicate Run(run: seq<State>, labels: seq<Label>)
  {
    && |run| == |labels| + 1 && run[0] == EMPTY
    && (forall i :: 0 <= i < |labels| ==>
          InRange(run[i]) && Enabled(run[i], labels[i]) && run[i + 1] == Apply(run[i], labels[i]))
  }

  lemma {:induction false} RunInv(run: seq<State>, labels: seq<Label>, i: nat)
    requires Run(run, labels) && i < |run|
    ensures Inv(run[i])
  {
    if i > 0 {
      RunInv(run, labels, i - 1);
      InvKept(run[i - 1], labels[i - 1]);
    }
  }

  /** Between two points of a run an entry keeps its key and its result, and a count at zero stays there. */
  ghost predicate Later(s: State, t: State, e: nat)
    requires e in s.entries
  {
    && e in t.entries && t.entries[e].key == s.entries[e].key
    && (s.entries[e].users == 0 ==> t.entries[e].users == 0)
    && (s.entries[e].cancelled ==> t.entries[e].cancelled)
    && (s.entries[e].result.Some? ==> t.entries[e].result == s.entries[e].result)
  }

  lemma StepLater(s: State, l: Label, e: nat)
    requires Inv(s) && Enabled(s, l) && e in s.entries
    ensures Later(s, Apply(s, l), e)
  {
    if l.DropSub? {
      assert l.holder in Users(s, s.holders[l.holder].entry);
    }
    hide Users, SomeCancelling;
  }

  lemma LaterChain(s: State, t: State, u: State, e: nat)
    requires e in s.entries && Later(s, t, e) && Later(t, u, e)
    ensures Later(s, u, e)
  {
  }

  lemma {:induction false} RunLater(run: seq<State>, labels: seq<Label>, i: nat, j: nat, e: nat)
    requires Run(run, labels) && i <= j < |run| && e in run[i].entries
    ensures Later(run[i], run[j], e)
    decreases j
  {
    if i == j {
      assert Later(run[i], run[j], e);
    } else {
      RunLater(run, labels, i, j - 1, e);
      var s, l := run[j - 1], labels[j - 1];
      RunInv(run, labels, j - 1);
      hide Later, Inv, Apply, Enabled;
      StepLater(s, l, e);
      LaterChain(run[i], s, run[j], e);
    }
  }

  /** All leases held at once for one key are leases of one entry and share one value. */
  lemma LeasesShareOneValue(s: State, a: nat, b: nat)
    requires Inv(s) && a in s.holders && b in s.holders
    requires s.holders[a].phase.Leased? && s.holders[b].phase.Leased?
    requires s.entries[s.holders[a].entry].key == s.entries[s.holders[b].entry].key
    ensures s.holders[a].entry == s.holders[b].entry && s.holders[a].phase.value == s.holders[b].phase.value
  {
    assert a in Users(s, s.holders[a].entry) && b in Users(s, s.holders[b].entry);
  }

  /** A held entry is never cancelled, its count is positive, and no other entry of its key has users. */
  lemma HeldEntryIsLive(s: State, h: nat)
    requires Inv(s) && h in s.holders && Active(s.holders[h].phase)
    ensures var e := s.holders[h].entry;
      && s.entries[e].users > 0 && !s.entries[e].cancelled
      && s.registry[s.entries[e].key] == e
      && (forall x :: x in s.entries && x != e && s.entries[x].key == s.entries[e].key ==> s.entries[x].users == 0)
  {
    assert h in Users(s, s.holders[h].entry);
  }

  /** Under the lock, a lookup that passed found the only entry of its key that can have users. */
  lemma LookupIsExact(s: State)
    requires Inv(s) && (s.lock.Passed? || s.lock.Missing?)
    ensures forall x :: x in s.entries && s.entries[x].key == s.lock.key && s.entries[x].users > 0 ==>
      s.lock.Passed? && s.lock.entry == x
  {
  }

  lemma BumpResult(s: State, h: nat)
    requires Inv(s) && s.lock.Passed? && h !in s.holders
    ensures s.lock.entry in s.entries
    ensures var e := s.lock.entry; var n := s.entries[e].users;
      if n <= 0 then Inv(s.(lock := Missing(s.lock.key)))
      else Inv(State(s.entries[e := s.entries[e].(users := n + 1)], s.registry,
        s.holders[h := Holder(e, Waiting)], Free))
  {
    InvKept(s, Bump(h));
    hide Inv;
  }

  lemma CreateResult(s: State, h: nat, e: nat)
    requires Inv(s) && s.lock.Missing? && h !in s.holders && e !in s.entries
    ensures var k := s.lock.key;
      Inv(State(s.entries[e := Entry(k, 1, false, None, true)], s.registry[k := e],
        s.holders[h := Holder(e, Waiting)], Free))
  {
    InvKept(s, Create(h, e));
    hide Inv;
  }

  // ----- the registry object

  class Registry {
    var entries: map<nat, Entry>
    var registry: map<Key, nat>
    var holders: map<nat, Holder>
    var lock: Lock

    ghost function View(): State
      reads this
    {
      State(entries, registry, holders, lock)
    }

    ghost predicate Valid()
      reads this
    {
      Inv(View())
    }

    constructor ()
      ensures Valid() && View() == EMPTY
    {
      entries, registry, holders, lock := map[], map[], map[], Free;
      new;
      EmptyInv();
    }

    predicate Alive(e: nat)
      reads this
      requires e in entries
    {
      entries[e].producer || LockHolds(lock, e) || exists h :: h in holders && holders[h].entry == e
    }

    /**
     One uncontended critical section of `join`: the registered entry is shared when somebody uses it, and
     otherwise a fresh entry with its own producer takes its place.
     */
    method Join(key: Key, h: nat, next: nat) returns (e: nat)
      requires Valid() && lock.Free? && h !in holders && next !in entries
      modifies this
      ensures Valid() && lock.Free? && holders == old(holders)[h := Holder(e, Waiting)]
      ensures forall x :: x in old(entries) && old(entries[x].key) == key && old(entries[x].users) > 0 ==>
        e == x && entries == old(entries)[x := old(entries[x]).(users := old(entries[x].users) + 1)]
      ensures (forall x :: x in old(entries) && old(entries[x].key) == key ==> old(entries[x].users) <= 0) ==>
        e == next && entries == old(entries)[e := Entry(key, 1, false, None, true)]
    {
      hide Inv;
      Find(key);
      if lock.Passed? {
        var shared := Acquire(h);
        if shared.Some? {
          return shared.value;
        }
      }
      Install(h, next);
      return next;
    }

    /** Count one more user of the entry found, unless its count has reached zero. */
    method Acquire(h: nat) returns (e: Option<nat>)
      requires Valid() && lock.Passed? && h !in holders
      modifies this
      ensures Valid() && (e.None? <==> old(entries[lock.entry].users) <= 0)
      ensures e.None? ==> View() == old(View()).(lock := Missing(old(lock.key)))
      ensures e.Some? ==> e.value == old(lock.entry) && lock.Free? && e.value in old(entries)
      ensures e.Some? ==>
        entries == old(entries)[e.value := old(entries[e.value]).(users := old(entries[e.value].users) + 1)]
      ensures e.Some? ==> holders == old(holders)[h := Holder(e.value, Waiting)]
    {
      hide Inv;
      BumpResult(View(), h);
      var x := lock.entry;
      var n := entries[x].users;
      if n <= 0 {
        lock := Missing(lock.key);
        return None;
      }
      entries := entries[x := entries[x].(users := n + 1)];
      holders := holders[h := Holder(x, Waiting)];
      lock := Free;
      return Some(x);
    }

    method Install(h: nat, e: nat)
      requires Valid() && lock.Missing? && h !in holders && e !in entries
      modifies this
      ensures Valid() && lock.Free?
      ensures entries == old(entries)[e := Entry(old(lock.key), 1, false, None, true)]
      ensures holders == old(holders)[h := Holder(e, Waiting)]
    {
      hide Inv;
      CreateResult(View(), h, e);
      entries := entries[e := Entry(lock.key, 1, false, None, true)];
      registry := registry[lock.key := e];
      holders := holders[h := Holder(e, Waiting)];
      lock := Free;
    }

    /** Drop dead entries, upgrade the registered one, and pass it on unless its token is cancelled. */
    method Find(key: Key)
      requires Valid() && lock.Free?
      modifies `registry, `lock
      ensures Valid() && (lock.Passed? || lock.Missing?) && lock.key == key
      ensures lock.Passed? ==> lock.entry in entries && entries[lock.entry].key == key
      ensures forall x :: x in entries && entries[x].key == key && entries[x].users > 0 ==>
        lock.Passed? && lock.entry == x
    {
      var dead := set k | k in registry && !Alive(registry[k]);
      InvKept(View(), Begin(key, dead));
      registry, lock := registry - dead, Looking(key);
      InvKept(View(), Upgrade);
      lock := if key in registry && Alive(registry[key]) then Upgraded(key, registry[key]) else Missing(key);
      if lock.Upgraded? {
        InvKept(View(), CheckToken);
        lock := if entries[lock.entry].cancelled then Missing(key) else Passed(key, lock.entry);
      }
      LookupIsExact(View());
    }

    /** The first step of dropping a waiter; says whether it was the last one. */
    method FetchSub(h: nat) returns (last: bool)
      requires Valid() && h in holders && Active(holders[h].phase)
      modifies this
      ensures Enabled(old(View()), DropSub(h)) && View() == Apply(old(View()), DropSub(h)) && Valid()
      ensures last <==> forall x :: x in holders && holders[x].entry == holders[h].entry ==> !Active(holders[x].phase)
    {
      var e := holders[h].entry;
      HeldEntryIsLive(View(), h);
      InvKept(View(), DropSub(h));
      var n := entries[e].users;
      entries := entries[e := entries[e].(users := n - 1)];
      last := n == 1;
      holders := holders[h := holders[h].(phase := if last then Cancelling else Releasing)];
      assert |Users(View(), e)| == n - 1;
      assert forall x :: x in holders && holders[x].entry == e && Active(holders[x].phase) <==> x in Users(View(), e);
      assert last <==> Users(View(), e) == {};
    }

    /** The second step, taken only by the last waiter: the token is cancelled with nobody left. */
    method Cancel(h: nat)
      requires Valid() && h in holders && holders[h].phase.Cancelling?
      modifies this
      ensures View() == Apply(old(View()), DropCancel(h)) && Valid()
      ensures entries[holders[h].entry].cancelled && Users(View(), holders[h].entry) == {}
    {
      InvKept(View(), DropCancel(h));
      var e := holders[h].entry;
      assert SomeCancelling(View(), e);
      entries := entries[e := entries[e].(cancelled := true)];
      holders := holders[h := holders[h].(phase := Releasing)];
    }
  }
}
