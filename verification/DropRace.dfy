/**
 Downgrades that look for rows and then drop, against concurrent writers of the same table.

 A protected row is one the downgrade must not destroy: any row for a dropped table, a row with a non-null value
 for a dropped column. Revisions 20261030_0010, 20261030_0009 and 20261029_0042 lock the table before they look;
 20261030_0007 and 20261030_0008 look first, and only the DROP itself waits for the lock.
 */
module DropRace {

  type Tid = int
  type RowId = int

  datatype Option<+T> = None | Some(value: T)

  /** A transaction that has written to the table; it holds ROW EXCLUSIVE until it ends. */
  datatype Writer = Writer(added: set<RowId>, removed: set<RowId>)

  datatype Phase = Start | Holding | Looked | Dropped | Refused | Finished

  /** `exclusive`: the downgrade holds ACCESS EXCLUSIVE. `lost`: protected rows destroyed by the committed drop. */
  datatype State = State(rows: set<RowId>, gone: bool, writers: map<Tid, Writer>, phase: Phase, exclusive: bool,
      lost: set<RowId>)

  datatype Action =
    | FirstWrite(t: Tid)
    | Put(t: Tid, row: RowId)
    | Remove(t: Tid, row: RowId)
    | CommitWriter(t: Tid)
    | AbortWriter(t: Tid)
    | LockTable
    | Look
    | Drop
    | CommitDowngrade
    | AbortDowngrade

  predicate Enabled(lockFirst: bool, s: State, a: Action) {
    match a
    case FirstWrite(t) => t !in s.writers && !s.exclusive && !s.gone
    case Put(t, _) => t in s.writers
    case Remove(t, _) => t in s.writers
    case CommitWriter(t) => t in s.writers
    case AbortWriter(t) => t in s.writers
    case LockTable => lockFirst && s.phase == Start && s.writers == map[]
    case Look => s.phase == (if lockFirst then Holding else Start)
    case Drop => s.phase == Looked && (s.exclusive || s.writers == map[])
    case CommitDowngrade => s.phase == Dropped
    case AbortDowngrade => s.phase in {Start, Holding, Looked, Dropped}
  }

  function Apply(s: State, a: Action): State {
    match a
    case FirstWrite(t) => s.(writers := s.writers[t := Writer({}, {})])
    case Put(t, row) =>
      if t in s.writers then
        s.(writers := s.writers[t := Writer(s.writers[t].added + {row}, s.writers[t].removed - {row})])
      else s
    case Remove(t, row) =>
      if t in s.writers then
        s.(writers := s.writers[t := Writer(s.writers[t].added - {row}, s.writers[t].removed + {row})])
      else s
    case CommitWriter(t) =>
      if t in s.writers then
        s.(rows := s.rows - s.writers[t].removed + s.writers[t].added, writers := s.writers - {t})
      else s
    case AbortWriter(t) => s.(writers := s.writers - {t})
    case LockTable => s.(phase := Holding, exclusive := true)
    case Look => if s.rows == {} then s.(phase := Looked) else s.(phase := Refused, exclusive := false)
    case Drop => s.(phase := Dropped, exclusive := true)
    case CommitDowngrade => s.(phase := Finished, exclusive := false, gone := true, lost := s.rows, rows := {})
    case AbortDowngrade => s.(phase := Refused, exclusive := false)
  }

  function Run(lockFirst: bool, s: State, actions: seq<Action>): Option<State>
    decreases |actions|
  {
    if actions == [] then Some(s)
    else if !Enabled(lockFirst, s, actions[0]) then None
    else Run(lockFirst, Apply(s, actions[0]), actions[1..])
  }

  predicate Initial(s: State) {
    s.phase == Start && !s.gone && !s.exclusive && s.lost == {} && s.writers == map[]
  }

  // ----- what each step does -----

  /** Rows come and go by a writer's commit and by the committed drop alone; nothing else changes what is committed. */
  lemma StepsAre(lockFirst: bool, s: State, a: Action)
    requires Enabled(lockFirst, s, a)
    ensures var s' := Apply(s, a);
            && (!a.CommitWriter? && !a.CommitDowngrade? ==>
                  s'.rows == s.rows && s'.gone == s.gone && s'.lost == s.lost)
            && (a.CommitWriter? ==>
                  && s'.gone == s.gone && s'.lost == s.lost && s'.phase == s.phase && s'.exclusive == s.exclusive
                  && s'.writers == s.writers - {a.t}
                  && forall row :: row in s'.rows <==>
                       row in s.writers[a.t].added || (row in s.rows && row !in s.writers[a.t].removed))
            && (a.CommitDowngrade? ==>
                  s'.gone && s'.rows == {} && s'.lost == s.rows && !s'.exclusive && s'.phase == Finished)
  {
  }

  /** What a writer has pending: each row it touched, put or removed as it last said. */
  lemma WritersPend(lockFirst: bool, s: State, a: Action, row: RowId)
    requires Enabled(lockFirst, s, a) && (a.FirstWrite? || a.Put? || a.Remove? || a.AbortWriter?)
    ensures var s' := Apply(s, a);
            && s'.phase == s.phase && s'.exclusive == s.exclusive
            && (forall u :: u != a.t ==> (u in s'.writers <==> u in s.writers))
            && (forall u :: u != a.t && u in s.writers ==> s'.writers[u] == s.writers[u])
            && (a.AbortWriter? ==> a.t !in s'.writers)
            && (a.FirstWrite? ==> s'.writers[a.t] == Writer({}, {}))
            && (a.Put? ==>
                  && (row in s'.writers[a.t].added <==> row == a.row || row in s.writers[a.t].added)
                  && (row in s'.writers[a.t].removed <==> row != a.row && row in s.writers[a.t].removed))
            && (a.Remove? ==>
                  && (row in s'.writers[a.t].added <==> row != a.row && row in s.writers[a.t].added)
                  && (row in s'.writers[a.t].removed <==> row == a.row || row in s.writers[a.t].removed))
  {
  }

  /** The downgrade goes on past its look exactly when it sees no row; the drop itself takes the lock. */
  lemma DowngradeSteps(lockFirst: bool, s: State)
    ensures Enabled(lockFirst, s, Look) ==>
              && Apply(s, Look).writers == s.writers
              && Apply(s, Look).phase == (if s.rows == {} then Looked else Refused)
              && Apply(s, Look).exclusive == (s.rows == {} && s.exclusive)
    ensures Enabled(lockFirst, s, LockTable) ==> Apply(s, LockTable) == s.(phase := Holding, exclusive := true)
    ensures Enabled(lockFirst, s, Drop) ==> Apply(s, Drop) == s.(phase := Dropped, exclusive := true)
    ensures Enabled(lockFirst, s, AbortDowngrade) ==>
              Apply(s, AbortDowngrade) == s.(phase := Refused, exclusive := false)
  {
  }

  /** A writer waits only for the exclusive lock, and the downgrade's lock only for writers. */
  lemma WaitsOnlyForLocks(lockFirst: bool, s: State, a: Action)
    requires !Enabled(lockFirst, s, a)
    requires a.Put? || a.Remove? || a.CommitWriter? || a.AbortWriter? ==> a.t in s.writers
    requires a.FirstWrite? ==> a.t !in s.writers && !s.gone
    requires a.LockTable? ==> lockFirst && s.phase == Start
    requires a.Look? ==> s.phase == if lockFirst then Holding else Start
    requires a.Drop? ==> s.phase == Looked
    requires a.CommitDowngrade? ==> s.phase == Dropped
    requires a.AbortDowngrade? ==> s.phase != Refused && s.phase != Finished
    ensures (a.FirstWrite? && s.exclusive) || ((a.LockTable? || a.Drop?) && s.writers != map[])
  {
  }

  /** A table without protected rows can be dropped; on any other the downgrade refuses and leaves every row. */
  lemma DropsIfEmpty(s: State)
    requires Initial(s)
    ensures s.rows == {} ==>
              Run(true, s, [LockTable, Look, Drop, CommitDowngrade]) ==
              Some(State({}, true, map[], Finished, false, {}))
    ensures s.rows != {} ==> Run(true, s, [LockTable, Look]) == Some(State(s.rows, false, map[], Refused, false, {}))
  {
    var s1 := Apply(s, LockTable);
    var s2 := Apply(s1, Look);
    assert [LockTable, Look][1..] == [Look] && [Look][1..] == [];
    assert Run(true, s, [LockTable, Look]) == Run(true, s1, [Look]) == Run(true, s2, []);
    if s.rows == {} {
      var s3 := Apply(s2, Drop);
      var s4 := Apply(s3, CommitDowngrade);
      assert [LockTable, Look, Drop, CommitDowngrade][1..] == [Look, Drop, CommitDowngrade];
      assert [Look, Drop, CommitDowngrade][1..] == [Drop, CommitDowngrade];
      assert [Drop, CommitDowngrade][1..] == [CommitDowngrade] && [CommitDowngrade][1..] == [];
      assert Run(true, s2, [Drop, CommitDowngrade]) == Run(true, s3, [CommitDowngrade]) == Run(true, s4, []);
    }
  }

  /** After a refusal the downgrade does nothing more: the table is there in every later state, and no row is lost. */
  lemma {:induction false} RefusalIsFinal(lockFirst: bool, s: State, actions: seq<Action>)
    requires s.phase == Refused && Run(lockFirst, s, actions).Some?
    ensures var end := Run(lockFirst, s, actions).value;
            end.phase == Refused && end.gone == s.gone && end.lost == s.lost
    decreases |actions|
  {
    if actions != [] {
      RefusalIsFinal(lockFirst, Apply(s, actions[0]), actions[1..]);
    }
  }

  /** The lock keeps writers out, so what the downgrade saw is still so when it drops. */
  predicate Invariant(s: State) {
    && (s.phase in {Holding, Looked, Dropped} <==> s.exclusive)
    && (s.exclusive || s.gone ==> s.writers == map[])
    && (s.phase in {Looked, Dropped} ==> s.rows == {})
    && (s.gone ==> s.phase == Finished && s.rows == {})
    && s.lost == {}
  }

  lemma {:induction false} LockedDropLosesNothing(s: State, actions: seq<Action>)
    requires Invariant(s) && Run(true, s, actions).Some?
    ensures Run(true, s, actions).value.lost == {} && Invariant(Run(true, s, actions).value)
    decreases |actions|
  {
    if actions != [] {
      LockedDropLosesNothing(Apply(s, actions[0]), actions[1..]);
    }
  }

  /** Looking before locking: a writer that had begun commits its row between the look and the drop. */
  lemma UnlockedDropLosesRow()
    ensures var s := State({}, false, map[], Start, false, {});
            var end := Run(false, s, [FirstWrite(1), Put(1, 5), Look, CommitWriter(1), Drop, CommitDowngrade]);
            end.Some? && 5 in end.value.lost
  {
    var s := State({}, false, map[], Start, false, {});
    var s1 := s.(writers := map[1 := Writer({}, {})]);
    var s2 := s.(writers := map[1 := Writer({5}, {})]);
    var s3 := s2.(phase := Looked);
    var s4 := State({5}, false, map[], Looked, false, {});
    var s5 := s4.(phase := Dropped, exclusive := true);
    var s6 := State({}, true, map[], Finished, false, {5});
    assert Apply(s, FirstWrite(1)) == s1;
    var none: set<RowId> := {};
    assert none + {5} == {5} && none - {5} == none;
    assert Apply(s1, Put(1, 5)).writers[1] == Writer({5}, {});
    assert Apply(s1, Put(1, 5)) == s2;
    assert Apply(s2, Look) == s3;
    assert Apply(s3, CommitWriter(1)) == s4;
    assert Apply(s4, Drop) == s5;
    assert Apply(s5, CommitDowngrade) == s6;
    assert [FirstWrite(1), Put(1, 5), Look, CommitWriter(1), Drop, CommitDowngrade][1..] ==
           [Put(1, 5), Look, CommitWriter(1), Drop, CommitDowngrade];
    assert [Put(1, 5), Look, CommitWriter(1), Drop, CommitDowngrade][1..] ==
           [Look, CommitWriter(1), Drop, CommitDowngrade];
    assert [Look, CommitWriter(1), Drop, CommitDowngrade][1..] == [CommitWriter(1), Drop, CommitDowngrade];
    assert [CommitWriter(1), Drop, CommitDowngrade][1..] == [Drop, CommitDowngrade];
    assert [Drop, CommitDowngrade][1..] == [CommitDowngrade];
    calc {
      Run(false, s, [FirstWrite(1), Put(1, 5), Look, CommitWriter(1), Drop, CommitDowngrade]);
      Run(false, s1, [Put(1, 5), Look, CommitWriter(1), Drop, CommitDowngrade]);
      Run(false, s2, [Look, CommitWriter(1), Drop, CommitDowngrade]);
      Run(false, s3, [CommitWriter(1), Drop, CommitDowngrade]);
      Run(false, s4, [Drop, CommitDowngrade]);
      Run(false, s5, [CommitDowngrade]);
      Run(false, s6, []);
    }
  }

  /** Over all interleavings no protected row is destroyed exactly when the lock is taken before the look. */
  lemma NothingLostIffLockedFirst(lockFirst: bool)
    ensures (forall s, actions :: Initial(s) && Run(lockFirst, s, actions).Some? ==>
            Run(lockFirst, s, actions).value.lost == {})
            <==> lockFirst
  {
    if lockFirst {
      forall s, actions | Initial(s) && Run(lockFirst, s, actions).Some?
        ensures Run(lockFirst, s, actions).value.lost == {}
      {
        LockedDropLosesNothing(s, actions);
      }
    } else {
      UnlockedDropLosesRow();
      var s := State({}, false, map[], Start, false, {});
      var end := Run(lockFirst, s, [FirstWrite(1), Put(1, 5), Look, CommitWriter(1), Drop, CommitDowngrade]);
      assert Initial(s) && end.Some? && end.value.lost != {};
    }
  }
}
