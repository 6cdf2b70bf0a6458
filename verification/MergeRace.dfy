/**
 The reactivation trigger under concurrency. It looks merge events up without locking them, so what it promises
 depends on how events are written: `merge_master` adds the event while holding the source's row lock.
 */
module MergeRace {
  import opened Kleene

  type Tid = int
  type Id = int

  /** Uncommitted flags (their rows are locked) and uncommitted merge events of one transaction. */
  datatype Txn = Txn(active: map<Id, bool>, merged: set<Id>)

  /** `history` collects the ids that were inactive and merged in some committed state. */
  datatype State = State(active: map<Id, bool>, merged: set<Id>, history: set<Id>, open: map<Tid, Txn>)

  datatype Action =
    | Begin(t: Tid)
    | SetActive(t: Tid, id: Id, value: bool)
    | AddMergeEvent(t: Tid, id: Id)
    | Commit(t: Tid)
    | Rollback(t: Tid)

  function View(s: State, t: Tid, id: Id): bool
    requires t in s.open && id in s.active
  {
    if id in s.open[t].active then s.open[t].active[id] else s.active[id]
  }

  /** `lockFirst`: events are only added by a transaction that holds the master's row, as merge_master does. */
  predicate Enabled(lockFirst: bool, s: State, a: Action) {
    match a
    case Begin(t) => t !in s.open
    case SetActive(t, id, value) =>
      && t in s.open && id in s.active
      && (forall u :: u in s.open && u != t ==> id !in s.open[u].active)
      && !(!View(s, t, id) && value && (id in s.merged || id in s.open[t].merged))
    case AddMergeEvent(t, id) => t in s.open && id in s.active && (lockFirst ==> id in s.open[t].active)
    case Commit(t) => t in s.open
    case Rollback(t) => t in s.open
  }

  function Inactive(active: map<Id, bool>, merged: set<Id>): set<Id> {
    set id | id in merged && id in active && !active[id]
  }

  function Apply(s: State, a: Action): State
    requires Enabled(false, s, a)
  {
    match a
    case Begin(t) => s.(open := s.open[t := Txn(map[], {})])
    case SetActive(t, id, value) => s.(open := s.open[t := s.open[t].(active := s.open[t].active[id := value])])
    case AddMergeEvent(t, id) => s.(open := s.open[t := s.open[t].(merged := s.open[t].merged + {id})])
    case Commit(t) =>
      var active, merged := s.active + s.open[t].active, s.merged + s.open[t].merged;
      State(active, merged, s.history + Inactive(active, merged), s.open - {t})
    case Rollback(t) => s.(open := s.open - {t})
  }

  function Run(lockFirst: bool, s: State, actions: seq<Action>): Nullable<State>
    decreases |actions|
  {
    if actions == [] then Value(s)
    else if !Enabled(lockFirst, s, actions[0]) then Null
    else Run(lockFirst, Apply(s, actions[0]), actions[1..])
  }

  // ----- what each step does -----

  /** Only a commit changes the tables, by the transaction's own flags and events, and no step touches another's. */
  lemma StepsAre(lockFirst: bool, s: State, a: Action)
    requires Enabled(lockFirst, s, a)
    ensures var s' := Apply(s, a);
            && (!a.Commit? ==> s'.active == s.active && s'.merged == s.merged && s'.history == s.history)
            && (forall u :: u != a.t ==> (u in s'.open <==> u in s.open))
            && (forall u :: u != a.t && u in s.open ==> s'.open[u] == s.open[u])
            && (a.Commit? || a.Rollback? ==> a.t !in s'.open)
            && (a.Begin? ==> s'.open[a.t] == Txn(map[], {}))
            && (a.SetActive? ==>
                  s'.open[a.t] == Txn(s.open[a.t].active[a.id := a.value], s.open[a.t].merged))
            && (a.AddMergeEvent? ==>
                  s'.open[a.t] == Txn(s.open[a.t].active, s.open[a.t].merged + {a.id}))
  {
  }

  lemma CommitStores(s: State, t: Tid)
    requires t in s.open
    ensures var x, s' := s.open[t], Apply(s, Commit(t));
            && (forall id :: id in s'.merged <==> id in s.merged || id in x.merged)
            && (forall id :: id in s'.active <==> id in s.active || id in x.active)
            && (forall id :: id in x.active ==> s'.active[id] == x.active[id])
            && (forall id :: id in s.active && id !in x.active ==> s'.active[id] == s.active[id])
  {
  }

  /**
   A flag is refused for two reasons: another transaction holds the row, or the trigger sees an inactive master made
   active whose merge event is committed or the transaction's own.
   */
  lemma SetActiveRefusedIff(lockFirst: bool, s: State, t: Tid, id: Id, value: bool)
    requires t in s.open && id in s.active
    ensures !Enabled(lockFirst, s, SetActive(t, id, value)) <==>
            || (exists u :: u in s.open && u != t && id in s.open[u].active)
            || (&& value && (id in s.merged || id in s.open[t].merged)
                && (if id in s.open[t].active then !s.open[t].active[id] else !s.active[id]))
  {
  }

  /** The other steps wait for nothing; only the lock discipline asks for the master's row before an event. */
  lemma OthersNeverWait(lockFirst: bool, s: State, t: Tid, id: Id)
    ensures Enabled(lockFirst, s, Begin(t)) <==> t !in s.open
    ensures Enabled(lockFirst, s, Commit(t)) <==> t in s.open
    ensures Enabled(lockFirst, s, Rollback(t)) <==> t in s.open
    ensures Enabled(lockFirst, s, AddMergeEvent(t, id)) <==>
            t in s.open && id in s.active && (lockFirst ==> id in s.open[t].active)
    ensures Enabled(lockFirst, s, SetActive(t, id, false)) ==> t in s.open && id in s.active
    ensures Enabled(lockFirst, s, SetActive(t, id, true)) ==> t in s.open && id in s.active
  {
  }

  /** Deactivating, recording the merge and committing, as merge_master does, goes through under the lock. */
  lemma MergeGoesThrough(s: State, t: Tid, id: Id)
    requires s.open == map[] && id in s.active
    ensures var end := Run(true, s, [Begin(t), SetActive(t, id, false), AddMergeEvent(t, id), Commit(t)]);
            && end.Value? && end.value.open == map[]
            && end.value.active == s.active[id := false] && end.value.merged == s.merged + {id}
  {
    var actions := [Begin(t), SetActive(t, id, false), AddMergeEvent(t, id), Commit(t)];
    var s1 := Apply(s, Begin(t));
    var s2 := Apply(s1, SetActive(t, id, false));
    var s3 := Apply(s2, AddMergeEvent(t, id));
    var s4 := Apply(s3, Commit(t));
    assert actions[1..][1..][1..][1..] == [];
    calc {
      Run(true, s, actions);
      Run(true, s1, actions[1..]);
      Run(true, s2, actions[1..][1..]);
      Run(true, s3, actions[1..][1..][1..]);
      Run(true, s4, []);
    }
    assert s4.active == s.active[id := false];
  }

  predicate Initial(s: State) {
    s.open == map[] && s.history == Inactive(s.active, s.merged)
  }

  /** Nobody has a merged, inactive master pending as active, and every such master of the past is still one. */
  predicate Invariant(s: State) {
    && (forall t, u :: t in s.open && u in s.open && t != u ==> s.open[t].active.Keys !! s.open[u].active.Keys)
    && (forall t :: t in s.open ==> s.open[t].active.Keys <= s.active.Keys)
    && (forall t :: t in s.open ==> s.open[t].merged <= s.open[t].active.Keys)
    && s.history == Inactive(s.active, s.merged)
    && (forall t, id :: t in s.open && id in s.open[t].active && id in s.history ==> !s.open[t].active[id])
  }

  lemma CommitKeepsInvariant(s: State, t: Tid)
    requires Invariant(s) && t in s.open
    ensures Invariant(Apply(s, Commit(t)))
  {
    var x, s' := s.open[t], Apply(s, Commit(t));
    forall id ensures id in s'.history <==> id in Inactive(s'.active, s'.merged) {
      if id in s.history {
        assert id in Inactive(s.active, s.merged);
      }
    }
    forall u, id | u in s'.open && id in s'.open[u].active && id in s'.history
      ensures !s'.open[u].active[id]
    {
      assert id !in x.active;
      assert id !in x.merged;
      assert id in Inactive(s.active, s.merged);
    }
  }

  lemma StepKeepsInvariant(s: State, a: Action)
    requires Invariant(s) && Enabled(true, s, a)
    ensures Invariant(Apply(s, a))
    ensures s.history <= Apply(s, a).history
  {
    if a.Commit? {
      CommitKeepsInvariant(s, a.t);
    }
  }

  /** When events are written under the row lock, in every interleaving a merged inactive master stays inactive. */
  lemma {:induction false} LockedMergesAreFinal(s: State, actions: seq<Action>)
    requires Invariant(s) && Run(true, s, actions).Value?
    ensures var end := Run(true, s, actions).value;
            s.history <= end.history && Invariant(end) &&
            forall id :: id in end.history ==> id in end.active && !end.active[id] && id in end.merged
    decreases |actions|
  {
    if actions != [] {
      StepKeepsInvariant(s, actions[0]);
      LockedMergesAreFinal(Apply(s, actions[0]), actions[1..]);
    }
  }

  /** In every interleaving under the lock: a master that is ever inactive and merged is so in every later state. */
  lemma MergedOnceIsMergedForGood(s0: State, before: seq<Action>, after: seq<Action>, id: Id)
    requires Initial(s0) && Run(true, s0, before).Value?
    requires var s := Run(true, s0, before).value;
             id in s.active && !s.active[id] && id in s.merged && Run(true, s, after).Value?
    ensures var end := Run(true, Run(true, s0, before).value, after).value;
            id in end.active && !end.active[id] && id in end.merged
  {
    LockedMergesAreFinal(s0, before);
    LockedMergesAreFinal(Run(true, s0, before).value, after);
  }

  /** When they are not, a reactivation can slip past an event that is not yet committed. */
  lemma UnlockedMergeIsUndone()
    ensures var s := State(map[1 := false], {}, {}, map[]);
            var actions := [Begin(1), Begin(2), SetActive(2, 1, true), AddMergeEvent(1, 1), Commit(1), Commit(2)];
            var end := Run(false, s, actions);
            Initial(s) && end.Value? && 1 in end.value.history && end.value.active == map[1 := true]
  {
    var s := State(map[1 := false], {}, {}, map[]);
    var actions := [Begin(1), Begin(2), SetActive(2, 1, true), AddMergeEvent(1, 1), Commit(1), Commit(2)];
    var s1 := Apply(s, Begin(1));
    var s2 := Apply(s1, Begin(2));
    var s3 := Apply(s2, SetActive(2, 1, true));
    var s4 := Apply(s3, AddMergeEvent(1, 1));
    var s5 := Apply(s4, Commit(1));
    var s6 := Apply(s5, Commit(2));
    assert actions[1..][1..][1..][1..][1..][1..] == [];
    calc {
      Run(false, s, actions);
      Run(false, s1, actions[1..]);
      Run(false, s2, actions[1..][1..]);
      Run(false, s3, actions[1..][1..][1..]);
      Run(false, s4, actions[1..][1..][1..][1..]);
      Run(false, s5, actions[1..][1..][1..][1..][1..]);
      Run(false, s6, []);
    }
    assert s6.active == map[1 := true];
  }

  /** Every master that was once inactive and merged is inactive at the end of the run. */
  predicate Final(lockFirst: bool, s: State, actions: seq<Action>) {
    Run(lockFirst, s, actions).Value? ==>
      var end := Run(lockFirst, s, actions).value;
      forall id :: id in end.history ==> id in end.active && !end.active[id]
  }

  /** So reactivation is final over all interleavings exactly when merge events are written under the row lock. */
  lemma FinalIffEventsAreLocked(lockFirst: bool)
    ensures (forall s, actions :: Initial(s) ==> Final(lockFirst, s, actions)) <==> lockFirst
  {
    if lockFirst {
      forall s, actions | Initial(s) ensures Final(lockFirst, s, actions) {
        if Run(true, s, actions).Value? {
          LockedMergesAreFinal(s, actions);
        }
      }
    } else {
      UnlockedMergeIsUndone();
      var s := State(map[1 := false], {}, {}, map[]);
      var actions := [Begin(1), Begin(2), SetActive(2, 1, true), AddMergeEvent(1, 1), Commit(1), Commit(2)];
      assert Initial(s) && !Final(lockFirst, s, actions);
    }
  }
}
