/**
 Publishing an export: a gate per export id, a rename into the export store, one index transaction, a rollback
 guard, crashes at any point, and the startup sweep.  Rename and commit are atomic and report their outcome.
 */
module Publication {
  import opened Bytes

  type Eid = nat
  type Content = nat

  /** A directory in the export store; removing one can be cut short, with or without something left inside. */
  datatype Dir = Complete(content: Content) | Torn(empty: bool)

  /** Where a producer of `export_one` stands. */
  datatype Pc =
    | Waiting                     // holds the gate object, waits for its lock
    | Locked                      // owns the gate
    | Fresh                       // read the index under the gate and found nothing
    | Staged(content: Content)    // a validated staging directory exists
    | Renamed(content: Content)   // the directory is in place and guarded for rollback
    | Rollback                    // the commit failed; the guard removes the directory
    | Finished(found: bool)       // returned: with a manifest, or with an error

  datatype Producer = Producer(eid: Eid, gate: nat, pc: Pc)

  datatype Mode = Down | Sweeping | Up

  /**
   `dirs` and `index` and `saved` survive a crash; the gates, the producers and `reported` do not.
   `reported` and `saved` are the export ids that task results name, in memory and in the task table.
   */
  datatype State = State(
    mode: Mode, dirs: map<Eid, Dir>, index: map<Eid, Content>, saved: set<Eid>,
    reported: set<Eid>, gates: map<Eid, nat>, owner: map<nat, Option<nat>>, producers: map<nat, Producer>)

  const EMPTY := State(Down, map[], map[], {}, {}, map[], map[], map[])

  datatype Label =
    | Start
    | Sweep(eid: Eid)
    | SweepTorn(eid: Eid, empty: bool)
    | Open
    | Crash
    | Enter(producer: nat, eid: Eid, gate: nat, dead: set<Eid>)
    | Acquire(producer: nat)
    | Check(producer: nat)
    | Stage(producer: nat, content: Content)
    | Rename(producer: nat)
    | Commit(producer: nat)
    | CommitFails(producer: nat)
    | RollbackDone(producer: nat)
    | RollbackTorn(producer: nat, empty: bool)
    | RollbackFails(producer: nat)
    | Fail(producer: nat)
    | Report(eid: Eid, source: Option<nat>)
    | Save(ids: set<Eid>)

  predicate Holding(pc: Pc) { pc.Locked? || pc.Fresh? || pc.Staged? || pc.Renamed? || pc.Rollback? }

  predicate GateAlive(s: State, g: nat)
  {
    exists p :: p in s.producers && s.producers[p].gate == g && !s.producers[p].pc.Finished?
  }

  predicate At(s: State, p: nat)
  {
    s.mode.Up? && p in s.producers
  }

  predicate Enabled(s: State, l: Label)
  {
    match l
    case Start => s.mode.Down?
    case Sweep(e) => s.mode.Sweeping? && e in s.dirs && e !in s.index
    case SweepTorn(e, _) => s.mode.Sweeping? && e in s.dirs && e !in s.index
    // The sweep loop ends only after it has looked at every directory entry.
    case Open => s.mode.Sweeping? && forall e :: e in s.dirs ==> e in s.index
    case Crash => true
    case Enter(p, e, g, dead) =>
      && s.mode.Up? && p !in s.producers && g !in s.owner
      && (forall x :: x in dead ==> x in s.gates && !GateAlive(s, s.gates[x]))
    case Acquire(p) => At(s, p) && s.producers[p].pc.Waiting? && s.producers[p].gate in s.owner
      && s.owner[s.producers[p].gate].None?
    case Check(p) => At(s, p) && s.producers[p].pc.Locked?
    case Stage(p, _) => At(s, p) && s.producers[p].pc.Fresh?
    case Rename(p) => At(s, p) && s.producers[p].pc.Staged?
    case Commit(p) => At(s, p) && s.producers[p].pc.Renamed?
    case CommitFails(p) => At(s, p) && s.producers[p].pc.Renamed?
    case RollbackDone(p) => At(s, p) && s.producers[p].pc.Rollback?
    case RollbackTorn(p, _) => At(s, p) && s.producers[p].pc.Rollback?
    case RollbackFails(p) => At(s, p) && s.producers[p].pc.Rollback?
    case Fail(p) => At(s, p) && (s.producers[p].pc.Waiting? || s.producers[p].pc.Locked? || s.producers[p].pc.Fresh?
      || s.producers[p].pc.Staged?)
    // A result names an id found in the index, or returned by a producer.
    case Report(e, p) =>
      && s.mode.Up?
      && (p.None? ==> e in s.index)
      && (p.Some? ==>
            p.value in s.producers && s.producers[p.value].eid == e && s.producers[p.value].pc == Finished(true))
    // One task record at a time: the results that it names.
    case Save(ids) => s.mode.Up? && ids <= s.reported
  }

  function Goto(s: State, p: nat, pc: Pc): State
    requires p in s.producers
  {
    s.(producers := s.producers[p := s.producers[p].(pc := pc)])
  }

  /** Leaving `export_one` releases the gate when it was held. */
  function Leave(s: State, p: nat, found: bool): State
    requires p in s.producers
  {
    var t := Goto(s, p, Finished(found));
    if Holding(s.producers[p].pc) then t.(owner := t.owner[s.producers[p].gate := None]) else t
  }

  /** A directory is renamed over an existing one only if that is empty. */
  predicate Blocks(s: State, e: Eid)
  {
    e in s.dirs && s.dirs[e] != Torn(true)
  }

  function Apply(s: State, l: Label): State
    requires Enabled(s, l)
  {
    match l
    case Start => s.(mode := Sweeping)
    case Sweep(e) => s.(dirs := s.dirs - {e})
    case SweepTorn(e, empty) => s.(dirs := s.dirs[e := Torn(empty)])
    case Open => s.(mode := Up)
    case Crash => s.(mode := Down, reported := s.saved, gates := map[], owner := map[], producers := map[])
    case Enter(p, e, g, dead) =>
      var gates := s.gates - dead;
      if e in gates && GateAlive(s, gates[e])
      then s.(gates := gates, producers := s.producers[p := Producer(e, gates[e], Waiting)])
      else s.(gates := gates[e := g], owner := s.owner[g := None],
        producers := s.producers[p := Producer(e, g, Waiting)])
    case Acquire(p) => Goto(s, p, Locked).(owner := s.owner[s.producers[p].gate := Some(p)])
    case Check(p) => if s.producers[p].eid in s.index then Leave(s, p, true) else Goto(s, p, Fresh)
    case Stage(p, c) => Goto(s, p, Staged(c))
    case Rename(p) =>
      if Blocks(s, s.producers[p].eid) then Leave(s, p, false)
      else Goto(s, p, Renamed(s.producers[p].pc.content)).(
        dirs := s.dirs[s.producers[p].eid := Complete(s.producers[p].pc.content)])
    case Commit(p) => Leave(s, p, true).(index := s.index[s.producers[p].eid := s.producers[p].pc.content])
    case CommitFails(p) => Goto(s, p, Rollback)
    case RollbackDone(p) => Leave(s, p, false).(dirs := s.dirs - {s.producers[p].eid})
    case RollbackTorn(p, empty) => Leave(s, p, false).(dirs := s.dirs[s.producers[p].eid := Torn(empty)])
    case RollbackFails(p) => Leave(s, p, false)
    case Fail(p) => Leave(s, p, false)
    case Report(e, _) => s.(reported := s.reported + {e})
    case Save(ids) => s.(saved := s.saved + ids)
  }

  // ----- the invariant

  /** Every indexed export has its complete directory. */
  ghost predicate Indexed(s: State)
  {
    forall e :: e in s.index ==> e in s.dirs && s.dirs[e] == Complete(s.index[e])
  }

  /** No result, in memory or in the table, names an unindexed export. */
  ghost predicate Named(s: State)
  {
    && s.saved <= s.reported <= s.index.Keys
    && (forall p :: p in s.producers && s.producers[p].pc == Finished(true) ==> s.producers[p].eid in s.index)
  }

  /** Producers of one id that are still at work share one gate, the registered one. */
  ghost predicate OneGate(s: State)
  {
    && (forall p :: p in s.producers && !s.producers[p].pc.Finished? ==>
          s.producers[p].eid in s.gates && s.gates[s.producers[p].eid] == s.producers[p].gate)
    && (forall p :: p in s.producers ==> s.producers[p].gate in s.owner)
    && (forall e :: e in s.gates ==> s.gates[e] in s.owner)
  }

  /** Whoever is past the gate owns it. */
  ghost predicate Owned(s: State)
  {
    forall p :: p in s.producers && Holding(s.producers[p].pc) ==>
      s.producers[p].gate in s.owner && s.owner[s.producers[p].gate] == Some(p)
  }

  /** Past the index check nothing is indexed yet; a guarded directory is exactly what was staged. */
  ghost predicate Unpublished(s: State)
  {
    && (forall p :: p in s.producers && Holding(s.producers[p].pc) && !s.producers[p].pc.Locked? ==>
          s.producers[p].eid !in s.index)
    && (forall p :: p in s.producers && s.producers[p].pc.Renamed? ==>
          s.producers[p].eid in s.dirs && s.dirs[s.producers[p].eid] == Complete(s.producers[p].pc.content))
  }

  ghost predicate Inv(s: State)
  {
    && Indexed(s) && Named(s) && OneGate(s) && Owned(s) && Unpublished(s)
    && (!s.mode.Up? ==> s.producers == map[])
  }

  /** At most one producer of an id is past its gate. */
  lemma Exclusive(s: State, p: nat, q: nat)
    requires Inv(s) && p in s.producers && q in s.producers && s.producers[p].eid == s.producers[q].eid
    requires Holding(s.producers[p].pc) && Holding(s.producers[q].pc)
    ensures p == q
  {
  }

  lemma EnterGates(s: State, l: Label)
    requires Inv(s) && l.Enter? && Enabled(s, l)
    ensures OneGate(Apply(s, l))
  {
    hide Indexed, Named, Owned, Unpublished;
    forall q | q in s.producers && !s.producers[q].pc.Finished? ensures s.producers[q].eid !in l.dead {
      assert GateAlive(s, s.producers[q].gate);
    }
  }

  /** A gate is new or was there before with the same owner, and a newcomer only waits. */
  lemma EnterAdds(s: State, l: Label)
    requires l.Enter? && Enabled(s, l)
    ensures var t := Apply(s, l);
      && t.mode == s.mode && t.dirs == s.dirs && t.index == s.index && t.saved == s.saved && t.reported == s.reported
      && (forall g :: g in s.owner ==> g in t.owner && t.owner[g] == s.owner[g])
      && l.producer in t.producers && t.producers[l.producer].pc.Waiting?
      && forall q :: q != l.producer ==>
        (q in t.producers <==> q in s.producers) && (q in s.producers ==> t.producers[q] == s.producers[q])
  {
    hide GateAlive;
  }

  lemma EnterOwned(s: State, l: Label)
    requires Inv(s) && l.Enter? && Enabled(s, l)
    ensures Owned(Apply(s, l))
  {
    EnterAdds(s, l);
    hide Apply, Enabled, Indexed, Named, OneGate, Unpublished;
  }

  lemma EnterPublishesNothing(s: State, l: Label)
    requires Inv(s) && l.Enter? && Enabled(s, l)
    ensures Indexed(Apply(s, l)) && Named(Apply(s, l)) && Unpublished(Apply(s, l))
  {
    EnterAdds(s, l);
    hide Apply, Enabled, Owned, OneGate;
  }

  lemma EnterKeeps(s: State, l: Label)
    requires Inv(s) && l.Enter? && Enabled(s, l)
    ensures Inv(Apply(s, l))
  {
    EnterGates(s, l);
    EnterOwned(s, l);
    EnterPublishesNothing(s, l);
    EnterAdds(s, l);
    hide Apply, Enabled, Indexed, Named, OneGate, Owned, Unpublished;
  }

  lemma StoreStepKeeps(s: State, l: Label)
    requires Inv(s) && Enabled(s, l)
    requires l.Start? || l.Sweep? || l.SweepTorn? || l.Open? || l.Crash? || l.Report? || l.Save?
    ensures Inv(Apply(s, l))
  {
  }

  /** A producer that moves between points that own the gate changes nothing else. */
  lemma MoveKeeps(s: State, p: nat, pc: Pc)
    requires Inv(s) && At(s, p) && Holding(s.producers[p].pc) && Holding(pc) && !pc.Renamed?
    requires !pc.Locked? ==> s.producers[p].eid !in s.index
    ensures Inv(Goto(s, p, pc))
  {
  }

  /** Leaving without a manifest releases the gate and publishes nothing. */
  lemma LeaveKeeps(s: State, p: nat, found: bool)
    requires Inv(s) && At(s, p) && !s.producers[p].pc.Finished?
    requires found ==> s.producers[p].eid in s.index
    ensures Inv(Leave(s, p, found))
  {
    OthersDoNotOwn(s, p);
  }

  /** Nobody else owns the gate of a producer that owns it. */
  lemma OthersDoNotOwn(s: State, p: nat)
    requires Inv(s) && p in s.producers
    ensures Holding(s.producers[p].pc) ==> forall q :: q in s.producers && q != p && Holding(s.producers[q].pc) ==>
      s.producers[q].gate != s.producers[p].gate
  {
  }

  /** Touching the directory of an unindexed id that nobody else works on is safe. */
  lemma DirKeeps(s: State, p: nat, dirs: map<Eid, Dir>)
    requires Inv(s) && At(s, p) && Holding(s.producers[p].pc) && !s.producers[p].pc.Renamed?
    requires s.producers[p].eid !in s.index
    requires forall e :: e != s.producers[p].eid ==> (e in dirs <==> e in s.dirs)
    requires forall e :: e != s.producers[p].eid && e in dirs ==> dirs[e] == s.dirs[e]
    ensures Inv(s.(dirs := dirs))
  {
    forall q | q in s.producers && s.producers[q].pc.Renamed? ensures s.producers[q].eid != s.producers[p].eid {
      if s.producers[q].eid == s.producers[p].eid {
        Exclusive(s, p, q);
      }
    }
  }

  lemma AcquireKeeps(s: State, p: nat)
    requires Inv(s) && Enabled(s, Acquire(p))
    ensures Inv(Apply(s, Acquire(p)))
  {
  }

  lemma GateStepKeeps(s: State, l: Label)
    requires Inv(s) && Enabled(s, l)
    requires l.Acquire? || l.Check? || l.Stage? || l.Fail? || l.CommitFails?
    ensures Inv(Apply(s, l))
  {
    var p := l.producer;
    if l.Acquire? {
      AcquireKeeps(s, p);
    } else if l.Check? {
      if s.producers[p].eid in s.index {
        LeaveKeeps(s, p, true);
      } else {
        MoveKeeps(s, p, Fresh);
      }
    } else if l.Stage? {
      MoveKeeps(s, p, Staged(l.content));
    } else if l.CommitFails? {
      MoveKeeps(s, p, Rollback);
    } else {
      LeaveKeeps(s, p, false);
    }
  }

  lemma RenameKeeps(s: State, p: nat)
    requires Inv(s) && Enabled(s, Rename(p))
    ensures Inv(Apply(s, Rename(p)))
  {
    var e := s.producers[p].eid;
    if Blocks(s, e) {
      LeaveKeeps(s, p, false);
    } else {
      DirKeeps(s, p, s.dirs[e := Complete(s.producers[p].pc.content)]);
    }
  }

  lemma CommitKeeps(s: State, p: nat)
    requires Inv(s) && Enabled(s, Commit(p))
    ensures Inv(Apply(s, Commit(p)))
  {
    OthersDoNotOwn(s, p);
    forall q | q in s.producers && q != p && Holding(s.producers[q].pc)
      ensures s.producers[q].eid != s.producers[p].eid
    {
      if s.producers[q].eid == s.producers[p].eid {
        Exclusive(s, p, q);
      }
    }
  }

  lemma RollbackKeeps(s: State, l: Label)
    requires Inv(s) && Enabled(s, l) && (l.RollbackDone? || l.RollbackTorn? || l.RollbackFails?)
    ensures Inv(Apply(s, l))
  {
    var p, e := l.producer, s.producers[l.producer].eid;
    var dirs :=
      if l.RollbackDone? then s.dirs - {e} else if l.RollbackTorn? then s.dirs[e := Torn(l.empty)] else s.dirs;
    DirKeeps(s, p, dirs);
    LeaveKeeps(s.(dirs := dirs), p, false);
    assert Apply(s, l) == Leave(s.(dirs := dirs), p, false);
  }

  lemma DirStepKeeps(s: State, l: Label)
    requires Inv(s) && Enabled(s, l)
    requires l.Rename? || l.Commit? || l.RollbackDone? || l.RollbackTorn? || l.RollbackFails?
    ensures Inv(Apply(s, l))
  {
    if l.Rename? {
      RenameKeeps(s, l.producer);
    } else if l.Commit? {
      CommitKeeps(s, l.producer);
    } else {
      RollbackKeeps(s, l);
    }
  }

  lemma InvKept(s: State, l: Label)
    requires Inv(s) && Enabled(s, l)
    ensures Inv(Apply(s, l))
  {
    if l.Enter? {
      EnterKeeps(s, l);
    } else if l.Rename? || l.Commit? || l.RollbackDone? || l.RollbackTorn? || l.RollbackFails? {
      DirStepKeeps(s, l);
    } else if l.Acquire? || l.Check? || l.Stage? || l.Fail? || l.CommitFails? {
      GateStepKeeps(s, l);
    } else {
      StoreStepKeeps(s, l);
    }
  }

  // ----- every run

  ghost predicate Run(run: seq<State>, labels: seq<Label>)
  {
    && |run| == |labels| + 1 && run[0] == EMPTY
    && (forall i :: 0 <= i < |labels| ==> Enabled(run[i], labels[i]) && run[i + 1] == Apply(run[i], labels[i]))
  }

  lemma {:induction false} RunInv(run: seq<State>, labels: seq<Label>, i: nat)
    requires Run(run, labels) && i < |run|
    ensures Inv(run[i])
  {
    if i > 0 {
      RunInv(run, labels, i - 1);
      InvKept(run[i - 1], labels[i - 1]);
    }
  }

  /** What is indexed stays indexed, with the same content. */
  lemma {:induction false} IndexOnlyGrows(run: seq<State>, labels: seq<Label>, i: nat, j: nat)
    requires Run(run, labels) && i <= j < |run|
    ensures Extends(run[j].index, run[i].index)
    decreases j
  {
    if i < j {
      IndexOnlyGrows(run, labels, i, j - 1);
      RunInv(run, labels, j - 1);
      IndexStep(run[j - 1], labels[j - 1]);
    }
  }

  ghost predicate Extends(b: map<Eid, Content>, a: map<Eid, Content>)
  {
    forall e :: e in a ==> e in b && b[e] == a[e]
  }

  lemma IndexStep(s: State, l: Label)
    requires Inv(s) && Enabled(s, l)
    ensures Extends(Apply(s, l).index, s.index)
  {
    hide Indexed, Named, OneGate, Owned, GateAlive;
  }

  ghost predicate Publishes(s: State, l: Label, e: Eid)
  {
    l.Commit? && l.producer in s.producers && s.producers[l.producer].eid == e
  }

  /** An export id is published at most once in a run, whatever overlaps, fails or crashes. */
  lemma PublishedOnce(run: seq<State>, labels: seq<Label>, i: nat, j: nat, e: Eid)
    requires Run(run, labels) && i < j < |labels|
    requires Publishes(run[i], labels[i], e)
    ensures !Publishes(run[j], labels[j], e)
  {
    assert e in run[i + 1].index;
    IndexOnlyGrows(run, labels, i + 1, j);
    RunInv(run, labels, j);
  }

  /** When startup completes, the directories on disk are exactly the indexed exports, each complete. */
  lemma StartupEqualsIndex(run: seq<State>, labels: seq<Label>, i: nat)
    requires Run(run, labels) && i < |labels| && labels[i].Open?
    ensures run[i + 1].dirs.Keys == run[i + 1].index.Keys
    ensures Indexed(run[i + 1])
  {
    RunInv(run, labels, i);
  }

  /** A left-over directory with something inside blocks its id until the next startup; an empty one is replaced. */
  lemma StaleBlocksRename(s: State, p: nat)
    requires Inv(s) && At(s, p) && s.producers[p].pc.Staged?
    ensures var t := Apply(s, Rename(p));
      Blocks(s, s.producers[p].eid) ==> t.producers[p].pc == Finished(false) && t.dirs == s.dirs
    ensures var t, content := Apply(s, Rename(p)), s.producers[p].pc.content;
      !Blocks(s, s.producers[p].eid) ==>
        t.producers[p].pc == Renamed(content) && t.dirs == s.dirs[s.producers[p].eid := Complete(content)]
  {
  }

  // ----- the startup sweep, as the loop it is

  class Disk {
    var dirs: map<Eid, Dir>

    constructor (dirs: map<Eid, Dir>)
      ensures this.dirs == dirs
    {
      this.dirs := dirs;
    }

    /** Remove every directory that the index does not know; afterwards the two agree. */
    method SweepAll(index: map<Eid, Content>)
      requires forall e :: e in index ==> e in dirs
      modifies this
      ensures dirs.Keys == index.Keys
      ensures forall e :: e in dirs ==> dirs[e] == old(dirs)[e]
    {
      var entries := dirs.Keys;
      while entries != {}
        invariant entries <= dirs.Keys <= old(dirs).Keys && index.Keys <= dirs.Keys
        invariant forall e :: e in dirs && e !in entries ==> e in index
        invariant forall e :: e in dirs ==> dirs[e] == old(dirs)[e]
        decreases entries
      {
        var e :| e in entries;
        if e !in index {
          dirs := dirs - {e};
        }
        entries := entries - {e};
      }
    }
  }
}
