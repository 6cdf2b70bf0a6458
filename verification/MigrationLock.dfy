/**
 Replicas that run `alembic upgrade head` at the same time: session advisory lock, one transaction for all pending
 revisions, unlock in `finally`, and a crash at any point.
 */
module MigrationLock {
  import opened SchemaOps

  type Replica = int

  /** A revision turns a schema into the next one or raises. */
  type Revision = Schema -> Option<Schema>

  datatype Phase =
    | Starting                                  // pg_advisory_lock not yet granted
    | Locked                                    // lock granted and its own transaction committed
    // inside begin_transaction: the version it read, the version reached, and the uncommitted schema
    | Migrating(start: nat, done: nat, work: Schema)
    | Ended(ok: bool)                           // transaction committed or rolled back, lock not yet released
    | Exited(ok: bool)

  /**
   `version` revisions are recorded in the committed version table and `schema` is committed; `log` lists the
   revisions in the order their effects were committed.
   */
  datatype State = State(schema: Schema, version: nat, holder: Option<Replica>, phases: map<Replica, Phase>,
      log: seq<nat>)

  datatype Action =
    | Launch(r: Replica)
    | Lock(r: Replica)
    | BeginWork(r: Replica)
    | ApplyNext(r: Replica)
    | CommitWork(r: Replica)
    | Fail(r: Replica)
    | Unlock(r: Replica)
    | Crash(r: Replica)

  /** `locking`: the dialect is PostgreSQL; other dialects skip the lock. */
  predicate Enabled(locking: bool, revisions: seq<Revision>, s: State, a: Action) {
    match a
    case Launch(r) => r !in s.phases || s.phases[r].Exited?
    case Lock(r) => r in s.phases && s.phases[r].Starting? && (locking ==> s.holder.None?)
    case BeginWork(r) => r in s.phases && s.phases[r].Locked?
    case ApplyNext(r) =>
      r in s.phases && s.phases[r].Migrating? && s.phases[r].done < |revisions| &&
      revisions[s.phases[r].done](s.phases[r].work).Some?
    case CommitWork(r) => r in s.phases && s.phases[r].Migrating? && s.phases[r].done >= |revisions|
    case Fail(r) => r in s.phases && (s.phases[r].Migrating? || s.phases[r].Locked?)
    case Unlock(r) => r in s.phases && s.phases[r].Ended?
    case Crash(r) => r in s.phases
  }

  function Range(from: nat, to: nat): (r: seq<nat>)
    ensures |r| == if from < to then to - from else 0
    ensures forall i :: 0 <= i < |r| ==> r[i] == from + i
  {
    if from < to then seq(to - from, i requires 0 <= i => from + i) else []
  }

  function Apply(locking: bool, revisions: seq<Revision>, s: State, a: Action): State
    requires Enabled(locking, revisions, s, a)
  {
    match a
    case Launch(r) => s.(phases := s.phases[r := Starting])
    case Lock(r) => s.(holder := Some(r), phases := s.phases[r := Locked])
    case BeginWork(r) => s.(phases := s.phases[r := Migrating(s.version, s.version, s.schema)])
    case ApplyNext(r) =>
      var p := s.phases[r];
      s.(phases := s.phases[r := Migrating(p.start, p.done + 1, revisions[p.done](p.work).value)])
    case CommitWork(r) =>
      var p := s.phases[r];
      State(p.work, p.done, s.holder, s.phases[r := Ended(true)], s.log + Range(p.start, p.done))
    case Fail(r) => s.(phases := s.phases[r := Ended(false)])
    case Unlock(r) => s.(holder := Release(s.holder, r), phases := s.phases[r := Exited(s.phases[r].ok)])
    case Crash(r) => s.(holder := Release(s.holder, r), phases := s.phases[r := Exited(false)])
  }

  /** Unlocking, or closing the session, frees the lock if this session holds it. */
  function Release(holder: Option<Replica>, r: Replica): Option<Replica> {
    if holder == Some(r) then None else holder
  }

  function Run(locking: bool, revisions: seq<Revision>, s: State, actions: seq<Action>): Option<State>
    decreases |actions|
  {
    if actions == [] then Some(s)
    else if !Enabled(locking, revisions, s, actions[0]) then None
    else Run(locking, revisions, Apply(locking, revisions, s, actions[0]), actions[1..])
  }

  // ----- what each step does -----

  /** Only a commit changes the database, and no step changes the phase of another replica. */
  lemma StepsAre(locking: bool, revisions: seq<Revision>, s: State, a: Action)
    requires Enabled(locking, revisions, s, a)
    ensures var s' := Apply(locking, revisions, s, a);
            && (!a.CommitWork? ==> s'.schema == s.schema && s'.version == s.version && s'.log == s.log)
            && (a.CommitWork? ==> s'.schema == s.phases[a.r].work && s'.version == s.phases[a.r].done)
            && a.r in s'.phases
            && (forall u :: u != a.r ==> (u in s'.phases <==> u in s.phases))
            && (forall u :: u != a.r && u in s.phases ==> s'.phases[u] == s.phases[u])
            && s'.phases[a.r] ==
               match a
               case Launch(_) => Starting
               case Lock(_) => Locked
               case BeginWork(_) => Migrating(s.version, s.version, s.schema)
               case ApplyNext(r) =>
                 var p := s.phases[r];
                 Migrating(p.start, p.done + 1, revisions[p.done](p.work).value)
               case CommitWork(_) => Ended(true)
               case Fail(_) => Ended(false)
               case Unlock(r) => Exited(s.phases[r].ok)
               case Crash(_) => Exited(false)
  {
  }

  /** A replica goes through its phases in order, and can crash in any. */
  lemma PhasesAreInOrder(locking: bool, revisions: seq<Revision>, s: State, a: Action)
    requires Enabled(locking, revisions, s, a)
    ensures !a.Launch? ==> a.r in s.phases
    ensures a.Launch? ==> a.r !in s.phases || s.phases[a.r].Exited?
    ensures a.Lock? ==> s.phases[a.r].Starting? && (locking ==> s.holder == None)
    ensures a.BeginWork? ==> s.phases[a.r].Locked?
    ensures a.ApplyNext? || a.CommitWork? ==> s.phases[a.r].Migrating?
    ensures a.CommitWork? ==> s.phases[a.r].done >= |revisions|
    ensures a.Fail? ==> s.phases[a.r].Locked? || s.phases[a.r].Migrating?
    ensures a.Unlock? ==> s.phases[a.r].Ended?
  {
  }

  /** The lock is taken by its step and freed when its holder unlocks or crashes, and by nothing else. */
  lemma LockIsFreed(locking: bool, revisions: seq<Revision>, s: State, a: Action)
    requires Enabled(locking, revisions, s, a)
    ensures Apply(locking, revisions, s, a).holder ==
            if a.Lock? then Some(a.r)
            else if (a.Unlock? || a.Crash?) && s.holder == Some(a.r) then None
            else s.holder
  {
  }

  /** A replica waits for nothing but the lock, and a revision that raises is the only one that cannot be applied. */
  lemma WaitsOnlyForTheLock(revisions: seq<Revision>, s: State, a: Action)
    requires !Enabled(true, revisions, s, a)
    requires a.Launch? ==> a.r !in s.phases || s.phases[a.r].Exited?
    requires !a.Launch? ==> a.r in s.phases
    requires a.Lock? ==> s.phases[a.r].Starting?
    requires a.BeginWork? ==> s.phases[a.r].Locked?
    requires a.ApplyNext? ==> s.phases[a.r].Migrating? && s.phases[a.r].done < |revisions|
    requires a.CommitWork? ==> s.phases[a.r].Migrating? && s.phases[a.r].done >= |revisions|
    requires a.Fail? ==> s.phases[a.r].Migrating? || s.phases[a.r].Locked?
    requires a.Unlock? ==> s.phases[a.r].Ended?
    ensures || (a.Lock? && s.holder.Some?)
            || (a.ApplyNext? && revisions[s.phases[a.r].done](s.phases[a.r].work).None?)
  {
  }

  /** The schema after the first n revisions, applied one after another to the base. */
  function Prefix(revisions: seq<Revision>, base: Schema, n: nat): Option<Schema>
    requires n <= |revisions|
  {
    if n == 0 then Some(base)
    else var before := Prefix(revisions, base, n - 1);
         if before.None? then None else revisions[n-1](before.value)
  }

  predicate Critical(p: Phase) {
    p.Locked? || p.Migrating? || p.Ended?
  }

  predicate PhaseSound(revisions: seq<Revision>, base: Schema, s: State, p: Phase) {
    && (p.Migrating? ==>
         && p.start == s.version <= p.done <= |revisions|
         && Prefix(revisions, base, p.done) == Some(p.work))
    && ((p.Ended? || p.Exited?) && p.ok ==> s.version == |revisions|)
  }

  predicate Invariant(revisions: seq<Revision>, base: Schema, s: State) {
    && s.version <= |revisions|
    && Prefix(revisions, base, s.version) == Some(s.schema)
    && s.log == Range(0, s.version)
    && (forall r :: r in s.phases ==> PhaseSound(revisions, base, s, s.phases[r]))
    && (forall r :: r in s.phases && Critical(s.phases[r]) ==> s.holder == Some(r))
  }

  predicate Initial(revisions: seq<Revision>, base: Schema, s: State) {
    s.version == 0 && s.schema == base && s.log == [] && s.holder.None? && s.phases == map[]
  }

  lemma CommitKeepsInvariant(revisions: seq<Revision>, base: Schema, s: State, r: Replica)
    requires Invariant(revisions, base, s) && Enabled(true, revisions, s, CommitWork(r))
    ensures Invariant(revisions, base, Apply(true, revisions, s, CommitWork(r)))
  {
    var p := s.phases[r];
    assert PhaseSound(revisions, base, s, p);
    assert Range(0, s.version) + Range(s.version, p.done) == Range(0, p.done);
    var s' := Apply(true, revisions, s, CommitWork(r));
    forall u | u in s'.phases ensures PhaseSound(revisions, base, s', s'.phases[u]) {
      if u != r {
        assert PhaseSound(revisions, base, s, s.phases[u]);
      }
    }
  }

  lemma StepKeepsInvariant(revisions: seq<Revision>, base: Schema, s: State, a: Action)
    requires Invariant(revisions, base, s) && Enabled(true, revisions, s, a)
    ensures Invariant(revisions, base, Apply(true, revisions, s, a))
  {
    if a.CommitWork? {
      CommitKeepsInvariant(revisions, base, s, a.r);
    } else {
      var s' := Apply(true, revisions, s, a);
      assert a.ApplyNext? ==> PhaseSound(revisions, base, s, s.phases[a.r]);
      forall u | u in s'.phases ensures PhaseSound(revisions, base, s', s'.phases[u]) {
        if u in s.phases {
          assert PhaseSound(revisions, base, s, s.phases[u]);
        }
      }
    }
  }

  /**
   For any number of replicas, in every interleaving, with failures and crashes: at most one is between lock and
   unlock, the committed schema is that of a prefix of the chain, each revision of the prefix was committed exactly
   once and in order, and a replica that exited successfully left the database at head.
   */
  lemma {:induction false} ReplicasMigrateOnce(revisions: seq<Revision>, base: Schema, s: State, actions: seq<Action>)
    requires Invariant(revisions, base, s) && Run(true, revisions, s, actions).Some?
    ensures var end := Run(true, revisions, s, actions).value;
            && Invariant(revisions, base, end)
            && (forall r, u :: r in end.phases && u in end.phases ==>
                  Critical(end.phases[r]) && Critical(end.phases[u]) ==> r == u)
            && s.version <= end.version
            && Prefix(revisions, base, end.version) == Some(end.schema)
            && |end.log| == end.version && (forall i :: 0 <= i < |end.log| ==> end.log[i] == i)
            && (forall r :: r in end.phases && end.phases[r] == Exited(true) ==> end.version == |revisions|)
    decreases |actions|
  {
    if actions == [] {
      forall r | r in s.phases && s.phases[r] == Exited(true) ensures s.version == |revisions| {
        assert PhaseSound(revisions, base, s, s.phases[r]);
      }
    } else {
      StepKeepsInvariant(revisions, base, s, actions[0]);
      assert actions[0].CommitWork? ==> PhaseSound(revisions, base, s, s.phases[actions[0].r]);
      ReplicasMigrateOnce(revisions, base, Apply(true, revisions, s, actions[0]), actions[1..]);
    }
  }

  lemma InitialIsSound(revisions: seq<Revision>, base: Schema, s: State)
    requires Initial(revisions, base, s)
    ensures Invariant(revisions, base, s)
  {
  }

  predicate NoCommit(actions: seq<Action>) {
    forall i :: 0 <= i < |actions| ==> !actions[i].CommitWork?
  }

  /** However many replicas work, fail and crash: as long as none commits, the database is as they found it. */
  lemma {:induction false} FailureCommitsNothing(locking: bool, revisions: seq<Revision>, s: State,
      actions: seq<Action>)
    requires NoCommit(actions) && Run(locking, revisions, s, actions).Some?
    ensures var end := Run(locking, revisions, s, actions).value;
            end.schema == s.schema && end.version == s.version && end.log == s.log
    decreases |actions|
  {
    if actions != [] {
      assert forall i :: 0 <= i < |actions[1..]| ==> actions[1..][i] == actions[i+1];
      FailureCommitsNothing(locking, revisions, Apply(locking, revisions, s, actions[0]), actions[1..]);
    }
  }

  const KEEP: Revision := (x: Schema) => Some(x)

  /** Two replicas inside their transactions at once, both started from version 0. */
  function BothMigrating(base: Schema, done: nat): State {
    State(base, 0, Some(2), map[1 := Migrating(0, done, base), 2 := Migrating(0, done, base)], [])
  }

  lemma BothCanStart(base: Schema)
    ensures Run(false, [KEEP], State(base, 0, None, map[], []),
                [Launch(1), Launch(2), Lock(1), Lock(2), BeginWork(1), BeginWork(2)]) == Some(BothMigrating(base, 0))
  {
    var s0 := State(base, 0, None, map[], []);
    var s1 := State(base, 0, None, map[1 := Starting], []);
    var s2 := State(base, 0, None, map[1 := Starting, 2 := Starting], []);
    var s3 := State(base, 0, Some(1), map[1 := Locked, 2 := Starting], []);
    var s4 := State(base, 0, Some(2), map[1 := Locked, 2 := Locked], []);
    var s5 := State(base, 0, Some(2), map[1 := Migrating(0, 0, base), 2 := Locked], []);
    assert Apply(false, [KEEP], s0, Launch(1)) == s1;
    assert Apply(false, [KEEP], s1, Launch(2)) == s2;
    assert Apply(false, [KEEP], s2, Lock(1)) == s3;
    assert Apply(false, [KEEP], s3, Lock(2)) == s4;
    assert Apply(false, [KEEP], s4, BeginWork(1)) == s5;
    assert Apply(false, [KEEP], s5, BeginWork(2)) == BothMigrating(base, 0);
    RunByStates(false, [KEEP], [s0, s1, s2, s3, s4, s5, BothMigrating(base, 0)],
                [Launch(1), Launch(2), Lock(1), Lock(2), BeginWork(1), BeginWork(2)]);
  }

  lemma BothCanApply(base: Schema)
    ensures Run(false, [KEEP], BothMigrating(base, 0), [ApplyNext(1), ApplyNext(2)]) == Some(BothMigrating(base, 1))
  {
    var s0, s2 := BothMigrating(base, 0), BothMigrating(base, 1);
    var s1 := s0.(phases := map[1 := Migrating(0, 1, base), 2 := Migrating(0, 0, base)]);
    assert Apply(false, [KEEP], s0, ApplyNext(1)) == s1;
    assert Apply(false, [KEEP], s1, ApplyNext(2)) == s2;
    RunByStates(false, [KEEP], [s0, s1, s2], [ApplyNext(1), ApplyNext(2)]);
  }

  lemma BothCanCommit(base: Schema)
    ensures var end := Run(false, [KEEP], BothMigrating(base, 1), [CommitWork(1), CommitWork(2)]);
            end.Some? && end.value.log == [0, 0]
  {
    var s2 := BothMigrating(base, 1);
    var s3 := State(base, 1, Some(2), map[1 := Ended(true), 2 := Migrating(0, 1, base)], [0]);
    var s4 := State(base, 1, Some(2), map[1 := Ended(true), 2 := Ended(true)], [0, 0]);
    assert Range(0, 1) == [0];
    assert Apply(false, [KEEP], s2, CommitWork(1)) == s3;
    assert Apply(false, [KEEP], s3, CommitWork(2)) == s4;
    RunByStates(false, [KEEP], [s2, s3, s4], [CommitWork(1), CommitWork(2)]);
  }

  /** On a dialect where the lock is skipped, two replicas can both commit the same revision. */
  lemma UnlockedReplicasRepeat(base: Schema)
    ensures exists actions ::
              var end := Run(false, [KEEP], State(base, 0, None, map[], []), actions);
              end.Some? && end.value.log == [0, 0]
  {
    BothCanStart(base);
    BothCanApply(base);
    BothCanCommit(base);
    var start := State(base, 0, None, map[], []);
    var starting := [Launch(1), Launch(2), Lock(1), Lock(2), BeginWork(1), BeginWork(2)];
    RunConcat(false, [KEEP], start, starting, [ApplyNext(1), ApplyNext(2)]);
    RunConcat(false, [KEEP], start, starting + [ApplyNext(1), ApplyNext(2)], [CommitWork(1), CommitWork(2)]);
  }

  predicate NoRepeat(log: seq<nat>) {
    forall i, j :: 0 <= i < j < |log| ==> log[i] != log[j]
  }

  /** No revision of the chain is ever committed twice, whatever the replicas do. */
  ghost predicate CommitsOnce(locking: bool, revisions: seq<Revision>, base: Schema) {
    forall s, actions :: Initial(revisions, base, s) && Run(locking, revisions, s, actions).Some? ==>
      NoRepeat(Run(locking, revisions, s, actions).value.log)
  }

  /** For every chain this holds exactly when the lock is taken. */
  lemma CommitsOnceIffLocking(locking: bool, base: Schema)
    ensures (forall revisions :: CommitsOnce(locking, revisions, base)) <==> locking
  {
    if locking {
      forall revisions, s, actions | Initial(revisions, base, s) && Run(locking, revisions, s, actions).Some?
        ensures NoRepeat(Run(locking, revisions, s, actions).value.log)
      {
        InitialIsSound(revisions, base, s);
        ReplicasMigrateOnce(revisions, base, s, actions);
      }
    } else {
      UnlockedReplicasRepeat(base);
      var s := State(base, 0, None, map[], []);
      var actions :| Run(false, [KEEP], s, actions).Some? && Run(false, [KEEP], s, actions).value.log == [0, 0];
      assert Initial([KEEP], base, s);
      assert Run(false, [KEEP], s, actions).value.log[0] == Run(false, [KEEP], s, actions).value.log[1];
      assert !CommitsOnce(false, [KEEP], base);
    }
  }

  lemma {:induction false} RunConcat(locking: bool, revisions: seq<Revision>, s: State, a: seq<Action>, b: seq<Action>)
    requires Run(locking, revisions, s, a).Some?
    ensures Run(locking, revisions, s, a + b) == Run(locking, revisions, Run(locking, revisions, s, a).value, b)
    decreases |a|
  {
    if a == [] {
      assert a + b == b;
    } else {
      assert (a + b)[1..] == a[1..] + b;
      RunConcat(locking, revisions, Apply(locking, revisions, s, a[0]), a[1..], b);
    }
  }

  lemma {:induction false} RunByStates(locking: bool, revisions: seq<Revision>, states: seq<State>,
      actions: seq<Action>)
    requires |states| == |actions| + 1
    requires forall i :: 0 <= i < |actions| ==>
               Enabled(locking, revisions, states[i], actions[i]) &&
               states[i+1] == Apply(locking, revisions, states[i], actions[i])
    ensures Run(locking, revisions, states[0], actions) == Some(states[|actions|])
    decreases |actions|
  {
    if actions != [] {
      RunByStates(locking, revisions, states[1..], actions[1..]);
    }
  }

  // ----- the lock is never left behind -----

  predicate HeldByWorker(s: State) {
    s.holder.Some? ==> s.holder.value in s.phases && Critical(s.phases[s.holder.value])
  }

  /** In every interleaving the lock is held by a replica that is between lock and unlock, or free. */
  lemma {:induction false} LockIsHeldByWorker(revisions: seq<Revision>, s: State, actions: seq<Action>)
    requires HeldByWorker(s) && Run(true, revisions, s, actions).Some?
    ensures var end := Run(true, revisions, s, actions).value;
            end.holder.Some? ==>
              && end.holder.value in end.phases
              && var p := end.phases[end.holder.value]; p.Locked? || p.Migrating? || p.Ended?
    decreases |actions|
  {
    if actions != [] {
      LockIsFreed(true, revisions, s, actions[0]);
      StepsAre(true, revisions, s, actions[0]);
      LockIsHeldByWorker(revisions, Apply(true, revisions, s, actions[0]), actions[1..]);
    }
  }

  function Steps(r: Replica, n: nat): (actions: seq<Action>)
    ensures |actions| == n && forall i :: 0 <= i < n ==> actions[i] == ApplyNext(r)
  {
    seq(n, _ => ApplyNext(r))
  }

  /** A replica inside its transaction applies what is left, when no revision raises. */
  lemma {:induction false} AppliesTheRest(revisions: seq<Revision>, base: Schema, s: State, r: Replica)
    requires Prefix(revisions, base, |revisions|).Some?
    requires r in s.phases && s.phases[r].Migrating? && s.phases[r].done <= |revisions|
    requires Prefix(revisions, base, s.phases[r].done) == Some(s.phases[r].work)
    ensures var p := s.phases[r];
            Run(true, revisions, s, Steps(r, |revisions| - p.done)) ==
            Some(s.(phases := s.phases[r := Migrating(p.start, |revisions|,
                                                     Prefix(revisions, base, |revisions|).value)]))
    decreases |revisions| - s.phases[r].done
  {
    var p := s.phases[r];
    var n := |revisions| - p.done;
    if n == 0 {
      assert s.phases[r := p] == s.phases;
    } else {
      PrefixesGoThrough(revisions, base, p.done + 1, |revisions|);
      var next := Apply(true, revisions, s, ApplyNext(r));
      assert Steps(r, n)[1..] == Steps(r, n - 1);
      AppliesTheRest(revisions, base, next, r);
      var last := Migrating(p.start, |revisions|, Prefix(revisions, base, |revisions|).value);
      assert next.phases[r := last] == s.phases[r := last];
    }
  }

  lemma {:induction false} PrefixesGoThrough(revisions: seq<Revision>, base: Schema, m: nat, n: nat)
    requires m <= n <= |revisions| && Prefix(revisions, base, n).Some?
    ensures Prefix(revisions, base, m).Some?
    decreases n - m
  {
    if m < n { PrefixesGoThrough(revisions, base, m, n - 1); }
  }

  /**
   From every reachable state with the lock free, a chain that does not raise can be finished: any replica that is not
   running can take the database to head, exit successfully and leave the lock free.
   */
  lemma AnyReplicaCanFinish(revisions: seq<Revision>, base: Schema, s: State, r: Replica)
    requires Invariant(revisions, base, s) && s.holder.None? && (r !in s.phases || s.phases[r].Exited?)
    requires Prefix(revisions, base, |revisions|).Some?
    ensures var end := Run(true, revisions, s, [Launch(r), Lock(r), BeginWork(r)] +
                                               Steps(r, |revisions| - s.version) + [CommitWork(r), Unlock(r)]);
            && end.Some? && end.value.version == |revisions|
            && end.value.schema == Prefix(revisions, base, |revisions|).value
            && end.value.holder.None? && end.value.phases == s.phases[r := Exited(true)]
  {
    var head := Prefix(revisions, base, |revisions|).value;
    var s1 := s.(phases := s.phases[r := Starting]);
    var s2 := s.(phases := s.phases[r := Locked], holder := Some(r));
    var s3 := s2.(phases := s.phases[r := Migrating(s.version, s.version, s.schema)]);
    assert Apply(true, revisions, s, Launch(r)) == s1;
    assert s1.phases[r := Locked] == s2.phases;
    assert s2.phases[r := Migrating(s.version, s.version, s.schema)] == s3.phases;
    RunByStates(true, revisions, [s, s1, s2, s3], [Launch(r), Lock(r), BeginWork(r)]);
    AppliesTheRest(revisions, base, s3, r);
    var s4 := s3.(phases := s3.phases[r := Migrating(s.version, |revisions|, head)]);
    FinishesFrom(revisions, s4, r);
    var first, middle := [Launch(r), Lock(r), BeginWork(r)], Steps(r, |revisions| - s.version);
    RunConcat(true, revisions, s, first, middle);
    RunConcat(true, revisions, s, first + middle, [CommitWork(r), Unlock(r)]);
    assert s4.phases[r := Exited(true)] == s.phases[r := Exited(true)];
  }

  lemma FinishesFrom(revisions: seq<Revision>, s: State, r: Replica)
    requires r in s.phases && s.phases[r].Migrating? && s.phases[r].done == |revisions| && s.holder == Some(r)
    ensures var end := Run(true, revisions, s, [CommitWork(r), Unlock(r)]);
            && end.Some? && end.value.version == |revisions| && end.value.schema == s.phases[r].work
            && end.value.holder.None? && end.value.phases == s.phases[r := Exited(true)]
  {
    var s1 := Apply(true, revisions, s, CommitWork(r));
    var s2 := Apply(true, revisions, s1, Unlock(r));
    RunByStates(true, revisions, [s, s1, s2], [CommitWork(r), Unlock(r)]);
    assert s1.phases[r := Exited(true)] == s.phases[r := Exited(true)];
  }

  // ----- the patch itself -----

  datatype Implementation = Original | Idempotent

  /** Which calls of do_run_migrations raise, if they are reached. */
  datatype Raises = Raises(lock: bool, lockCommit: bool, migrations: bool, unlock: bool)

  /** Table, column, index and key operation, the enum hook, and whether the session holds the lock. */
  datatype Session = Session(operations: seq<Implementation>, onTableCreate: Implementation, locked: bool)

  /**
   The class attributes that the call rebinds, four of alembic's Operations and one of SQLAlchemy's, and the session
   lock of its connection. All of them outlive the call.
   */
  class Operations {
    var createTable: Implementation
    var addColumn: Implementation
    var createIndex: Implementation
    var createForeignKey: Implementation
    var onTableCreate: Implementation
    var locked: bool

    predicate Restored()
      reads this
    {
      createTable == addColumn == createIndex == createForeignKey == onTableCreate == Original
    }

    constructor ()
      ensures Restored() && !locked
    {
      createTable, addColumn, createIndex, createForeignKey := Original, Original, Original, Original;
      onTableCreate, locked := Original, false;
    }

    method AcquireLock(raises: bool) returns (ok: bool)
      requires !locked
      modifies this`locked
      ensures ok == locked == !raises
    {
      locked := !raises;
      ok := locked;
    }

    method ReleaseLock(raises: bool) returns (ok: bool)
      modifies this`locked
      ensures ok == !raises && locked == (old(locked) && raises)
    {
      ok := !raises;
      if ok { locked := false; }
    }

    /** context.run_migrations(): what it runs under. */
    method RunMigrations(raises: bool) returns (raised: bool, during: Session)
      ensures raised == raises
      ensures during == Session([createTable, addColumn, createIndex, createForeignKey], onTableCreate, locked)
    {
      raised := raises;
      during := Session([createTable, addColumn, createIndex, createForeignKey], onTableCreate, locked);
    }

    /**
     Rebinding comes before the lock is asked for, and only what follows the commit of the locking transaction is
     inside try/finally: if either raises, the replaced operations stay, and after the second the lock does too.
     The migrations run, if they are reached, under all five replacements, and on PostgreSQL under the lock.
     */
    method DoRunMigrations(postgres: bool, raises: Raises) returns (raised: bool, during: Option<Session>)
      requires Restored() && !locked
      modifies this
      ensures Restored() <==> !(postgres && (raises.lock || raises.lockCommit))
      ensures locked <==> postgres && !raises.lock && (raises.lockCommit || raises.unlock)
      ensures !raised ==> Restored() && !locked
      ensures raised <==> raises.migrations || !Restored() || locked
      ensures during ==
              if postgres && (raises.lock || raises.lockCommit) then None
              else Some(Session([Idempotent, Idempotent, Idempotent, Idempotent], Idempotent, postgres))
    {
      var ct, ac, ci, fk, otc := createTable, addColumn, createIndex, createForeignKey, onTableCreate;
      createTable, addColumn, createIndex, createForeignKey := Idempotent, Idempotent, Idempotent, Idempotent;
      onTableCreate := Idempotent;
      if postgres {
        var ok := AcquireLock(raises.lock);
        if !ok { return true, None; }
        if raises.lockCommit { return true, None; }
      }
      var under: Session;
      raised, under := RunMigrations(raises.migrations);
      during := Some(under);
      // finally
      createTable, addColumn, createIndex, createForeignKey := ct, ac, ci, fk;
      onTableCreate := otc;
      if postgres {
        var ok := ReleaseLock(raises.unlock);
        raised := raised || !ok;
      }
    }
  }
}
