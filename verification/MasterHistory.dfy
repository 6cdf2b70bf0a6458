/**
 The lifecycle history of masters: `prevent_merged_master_reactivation`, `prevent_master_lifecycle_event_mutation`
 and the CHECKs of master_lifecycle_events, over whole runs and over interleaved transactions.
 */
module MasterHistory {
  import opened Kleene
  import opened MasterReference

  datatype EventType = Deactivated | Merged

  datatype Event = Event(record: Key, kind: EventType, mergedInto: Nullable<int>)

  /** ck_master_lifecycle_merge_target, as SQL evaluates it. */
  function MergeTargetCheck(e: Event): Truth {
    var different := if e.mergedInto.Null? then Unknown else Of(e.mergedInto.value != e.record.id);
    Or(And(And(Of(e.kind == Merged), Not(IsNull(e.mergedInto))), different),
       And(Of(e.kind == Deactivated), IsNull(e.mergedInto)))
  }

  /** What the CHECK lets in: a merge names another record, a deactivation names none. */
  lemma MergeTargetMeaning(e: Event)
    ensures Admits(MergeTargetCheck(e)) <==>
            (match e.kind
             case Merged => e.mergedInto.Value? && e.mergedInto.value != e.record.id
             case Deactivated => e.mergedInto.Null?)
  {
  }

  /** `notNull`: is_active is declared NOT NULL. `appendOnly`: the trigger on the event table is installed. */
  datatype Setup = Setup(notNull: bool, appendOnly: bool)

  /** The tables: the is_active flag of each master and the event rows in order of insertion. */
  datatype State = State(active: map<Key, Truth>, events: seq<Event>)

  /** UPDATE and DELETE of events reach every event of the record they name. */
  datatype Action =
    | InsertEvent(event: Event)
    | UpdateEvents(record: Key, event: Event)
    | DeleteEvents(record: Key)
    | SetActive(key: Key, value: Truth)

  predicate HasMerge(events: seq<Event>, key: Key) {
    exists i :: 0 <= i < |events| && events[i].record == key && events[i].kind == Merged
  }

  predicate HasEvent(events: seq<Event>, record: Key) {
    exists i :: 0 <= i < |events| && events[i].record == record
  }

  function Replaced(events: seq<Event>, record: Key, e: Event): seq<Event> {
    seq(|events|, i requires 0 <= i < |events| => if events[i].record == record then e else events[i])
  }

  function Others(events: seq<Event>, record: Key): seq<Event> {
    if events == [] then []
    else if events[|events|-1].record == record then Others(events[..|events|-1], record)
    else Others(events[..|events|-1], record) + [events[|events|-1]]
  }

  /** The statement fails and changes nothing. A row trigger fires only when the statement reaches a row. */
  predicate Rejects(u: Setup, s: State, a: Action) {
    match a
    case InsertEvent(e) => !Admits(MergeTargetCheck(e))
    case UpdateEvents(record, e) => HasEvent(s.events, record) && (u.appendOnly || !Admits(MergeTargetCheck(e)))
    case DeleteEvents(record) => HasEvent(s.events, record) && u.appendOnly
    case SetActive(key, value) =>
      key in s.active &&
      ((u.notNull && value == Unknown) || (s.active[key] == False && value == True && HasMerge(s.events, key)))
  }

  function Effect(s: State, a: Action): State {
    match a
    case InsertEvent(e) => s.(events := s.events + [e])
    case UpdateEvents(record, e) => s.(events := Replaced(s.events, record, e))
    case DeleteEvents(record) => s.(events := Others(s.events, record))
    case SetActive(key, value) => if key in s.active then s.(active := s.active[key := value]) else s
  }

  function Step(u: Setup, s: State, a: Action): State {
    if Rejects(u, s, a) then s else Effect(s, a)
  }

  function Run(u: Setup, s: State, actions: seq<Action>): State
    decreases |actions|
  {
    if actions == [] then s else Run(u, Step(u, s, actions[0]), actions[1..])
  }

  predicate Sealed(s: State, key: Key) {
    key in s.active && s.active[key] == False && HasMerge(s.events, key)
  }

  predicate FlagsKnown(s: State) {
    forall key :: key in s.active ==> s.active[key] != Unknown
  }

  predicate WellFormed(events: seq<Event>) {
    forall i :: 0 <= i < |events| ==> Admits(MergeTargetCheck(events[i]))
  }

  /** A statement that reaches no event leaves the history alone. */
  lemma {:induction false} OthersOfUnnamed(events: seq<Event>, record: Key)
    requires !HasEvent(events, record)
    ensures Others(events, record) == events
  {
    if events != [] {
      assert events[|events|-1].record != record;
      OthersOfUnnamed(events[..|events|-1], record);
    }
  }

  lemma OthersOfOne(e: Event)
    ensures Others([e], e.record) == []
  {
    assert [e][..0] == [];
  }

  /** What DELETE leaves is just the events of other records. */
  lemma {:induction false} OthersAreOthers(events: seq<Event>, record: Key)
    ensures |Others(events, record)| <= |events|
    ensures !HasEvent(Others(events, record), record)
    ensures forall e :: e in Others(events, record) <==> e in events && e.record != record
  {
    if events != [] {
      OthersAreOthers(events[..|events|-1], record);
      assert events == events[..|events|-1] + [events[|events|-1]];
      var rest := Others(events[..|events|-1], record);
      assert forall i :: 0 <= i < |rest| ==> rest[i].record != record;
    }
  }

  lemma GuardedStep(u: Setup, s: State, a: Action)
    requires u.appendOnly
    ensures s.events <= Step(u, s, a).events
  {
    match a {
      case UpdateEvents(record, e) =>
        if !HasEvent(s.events, record) { assert Replaced(s.events, record, e) == s.events; }
      case DeleteEvents(record) =>
        if !HasEvent(s.events, record) { OthersOfUnnamed(s.events, record); }
      case _ =>
    }
  }

  /** With the trigger, over every run of inserts, updates and deletes, the old events remain a prefix of the new. */
  lemma {:induction false} HistoryOnlyGrows(u: Setup, s: State, actions: seq<Action>)
    requires u.appendOnly
    ensures s.events <= Run(u, s, actions).events
    ensures s.active.Keys == Run(u, s, actions).active.Keys
    decreases |actions|
  {
    if actions != [] {
      GuardedStep(u, s, actions[0]);
      HistoryOnlyGrows(u, Step(u, s, actions[0]), actions[1..]);
    }
  }

  lemma OneStep(u: Setup, s: State, a: Action)
    ensures Run(u, s, [a]) == Step(u, s, a)
  {
    assert [a][1..] == [];
  }

  /** Without it a DELETE takes the history away. */
  lemma DeletionErases(u: Setup, e: Event)
    requires !u.appendOnly
    ensures var s := State(map[], [e]); Run(u, s, [DeleteEvents(e.record)]).events == []
  {
    var s := State(map[], [e]);
    OneStep(u, s, DeleteEvents(e.record));
    OthersOfOne(e);
    assert !Rejects(u, s, DeleteEvents(e.record));
  }

  /** Over all runs history only grows exactly when the trigger is installed. */
  lemma HistoryOnlyGrowsIff(u: Setup)
    ensures (forall s: State, actions :: s.events <= Run(u, s, actions).events) <==> u.appendOnly
  {
    if u.appendOnly {
      forall s: State, actions ensures s.events <= Run(u, s, actions).events {
        HistoryOnlyGrows(u, s, actions);
      }
    } else {
      var e := Event(Key(Supplier, 1), Deactivated, Null);
      DeletionErases(u, e);
      var s := State(map[], [e]);
      assert !(s.events <= Run(u, s, [DeleteEvents(e.record)]).events);
    }
  }

  lemma StepKeepsWellFormed(u: Setup, s: State, a: Action)
    requires WellFormed(s.events)
    ensures WellFormed(Step(u, s, a).events)
  {
    if a.DeleteEvents? {
      OthersAreOthers(s.events, a.record);
      var kept := Others(s.events, a.record);
      forall i | 0 <= i < |kept| ensures Admits(MergeTargetCheck(kept[i])) {
        assert kept[i] in s.events;
      }
    }
  }

  /** Over every run, with the trigger or without, an event names a target exactly when it is a merge, never itself. */
  lemma {:induction false} EventsStayWellFormed(u: Setup, s: State, actions: seq<Action>)
    requires WellFormed(s.events)
    ensures forall e :: e in Run(u, s, actions).events ==>
              (match e.kind
               case Merged => e.mergedInto.Value? && e.mergedInto.value != e.record.id
               case Deactivated => e.mergedInto.Null?)
    decreases |actions|
  {
    if actions == [] {
      forall e | e in s.events ensures Admits(MergeTargetCheck(e)) {
        var i :| 0 <= i < |s.events| && s.events[i] == e;
      }
    } else {
      StepKeepsWellFormed(u, s, actions[0]);
      EventsStayWellFormed(u, Step(u, s, actions[0]), actions[1..]);
    }
  }

  lemma SealedStep(u: Setup, s: State, a: Action, key: Key)
    requires u.notNull && u.appendOnly && FlagsKnown(s) && Sealed(s, key)
    ensures FlagsKnown(Step(u, s, a)) && Sealed(Step(u, s, a), key)
  {
    GuardedStep(u, s, a);
    var next := Step(u, s, a);
    var i :| 0 <= i < |s.events| && s.events[i].record == key && s.events[i].kind == Merged;
    assert next.events[i] == s.events[i];
  }

  /** With NOT NULL and both triggers, a master that is inactive and merged stays so in every later state. */
  lemma {:induction false} MergedStaysInactive(u: Setup, s: State, actions: seq<Action>, key: Key)
    requires u.notNull && u.appendOnly && FlagsKnown(s) && Sealed(s, key)
    ensures FlagsKnown(Run(u, s, actions)) && Sealed(Run(u, s, actions), key)
    decreases |actions|
  {
    if actions != [] {
      SealedStep(u, s, actions[0], key);
      MergedStaysInactive(u, Step(u, s, actions[0]), actions[1..], key);
    }
  }

  lemma TwoSteps(u: Setup, s: State, a: Action, b: Action)
    ensures Run(u, s, [a, b]) == Step(u, Step(u, s, a), b)
  {
    assert [a, b][1..] == [b];
    OneStep(u, Step(u, s, a), b);
  }

  /** Without NOT NULL the trigger is passed by in two updates: FALSE to NULL, then NULL to TRUE. */
  lemma NullReactivates(u: Setup, key: Key, target: int)
    requires !u.notNull && target != key.id
    ensures var s := State(map[key := False], [Event(key, Merged, Value(target))]);
            var end := Run(u, s, [SetActive(key, Unknown), SetActive(key, True)]);
            Sealed(s, key) && key in end.active && end.active[key] == True
  {
    var s := State(map[key := False], [Event(key, Merged, Value(target))]);
    assert s.events[0].record == key;
    TwoSteps(u, s, SetActive(key, Unknown), SetActive(key, True));
    assert Step(u, s, SetActive(key, Unknown)).active[key] == Unknown;
  }

  /** Without the append-only trigger the event is deleted first. */
  lemma ErasedMergeReactivates(u: Setup, key: Key, target: int)
    requires !u.appendOnly && target != key.id
    ensures var s := State(map[key := False], [Event(key, Merged, Value(target))]);
            var end := Run(u, s, [DeleteEvents(key), SetActive(key, True)]);
            Sealed(s, key) && key in end.active && end.active[key] == True
  {
    var s := State(map[key := False], [Event(key, Merged, Value(target))]);
    assert s.events[0].record == key;
    TwoSteps(u, s, DeleteEvents(key), SetActive(key, True));
    OthersOfOne(s.events[0]);
    var erased := Step(u, s, DeleteEvents(key));
    assert erased == State(map[key := False], []);
  }

  /** So the promise holds over all runs exactly when the column is NOT NULL and the history append-only. */
  lemma SealHoldsIffGuarded(u: Setup, key: Key)
    ensures (forall s, actions :: FlagsKnown(s) && Sealed(s, key) ==> Sealed(Run(u, s, actions), key)) <==>
            u.notNull && u.appendOnly
  {
    var s := State(map[key := False], [Event(key, Merged, Value(key.id + 1))]);
    if u.notNull && u.appendOnly {
      forall s, actions | FlagsKnown(s) && Sealed(s, key) ensures Sealed(Run(u, s, actions), key) {
        MergedStaysInactive(u, s, actions, key);
      }
    } else if !u.notNull {
      NullReactivates(u, key, key.id + 1);
      var actions := [SetActive(key, Unknown), SetActive(key, True)];
      assert FlagsKnown(s) && Sealed(s, key) && !Sealed(Run(u, s, actions), key);
    } else {
      ErasedMergeReactivates(u, key, key.id + 1);
      var actions := [DeleteEvents(key), SetActive(key, True)];
      assert FlagsKnown(s) && Sealed(s, key) && !Sealed(Run(u, s, actions), key);
    }
  }

  // ----- the statements on flags and events -----

  lemma HasMergeMeans(events: seq<Event>, key: Key)
    ensures HasMerge(events, key) <==> exists e :: e in events && e.record == key && e.kind == Merged
  {
    if e :| e in events && e.record == key && e.kind == Merged {
      var i :| 0 <= i < |events| && events[i] == e;
      assert events[i].record == key;
    }
  }

  lemma HasEventMeans(events: seq<Event>, record: Key)
    ensures HasEvent(events, record) <==> exists e :: e in events && e.record == record
  {
    if e :| e in events && e.record == record {
      var i :| 0 <= i < |events| && events[i] == e;
      assert events[i].record == record;
    }
  }

  /** An inactive master can be reactivated exactly when none of its events is a merge. */
  lemma ReactivatedIff(u: Setup, s: State, key: Key)
    requires key in s.active && s.active[key] == False
    ensures Step(u, s, SetActive(key, True)).active[key] == True <==>
            forall e :: e in s.events ==> !(e.record == key && e.kind == Merged)
  {
    HasMergeMeans(s.events, key);
  }

  /** An UPDATE of is_active sets the one flag, unless NOT NULL or a merge of an inactive master forbids the value. */
  lemma SetActiveIs(u: Setup, s: State, key: Key, value: Truth)
    ensures var s' := Step(u, s, SetActive(key, value));
            && s'.events == s.events && s'.active.Keys == s.active.Keys
            && (forall k :: k in s.active && k != key ==> s'.active[k] == s.active[k])
            && (key in s.active ==>
                  s'.active[key] ==
                  if || (u.notNull && value == Unknown)
                     || (s.active[key] == False && value == True &&
                         exists e :: e in s.events && e.record == key && e.kind == Merged)
                  then s.active[key] else value)
  {
    HasMergeMeans(s.events, key);
  }

  /** An event is appended exactly when it is a merge into another record or a deactivation without target. */
  lemma InsertEventIs(u: Setup, s: State, e: Event)
    ensures Step(u, s, InsertEvent(e)) ==
            if || (e.kind == Merged && e.mergedInto.Value? && e.mergedInto.value != e.record.id)
               || (e.kind == Deactivated && e.mergedInto.Null?) then State(s.active, s.events + [e])
            else s
  {
    MergeTargetMeaning(e);
  }

  /** An UPDATE of events replaces those of the record where they stand, without the trigger and by a valid event. */
  lemma UpdateEventsIs(u: Setup, s: State, record: Key, e: Event)
    ensures var s' := Step(u, s, UpdateEvents(record, e));
            && s'.active == s.active && |s'.events| == |s.events|
            && forall i :: 0 <= i < |s.events| ==>
                 s'.events[i] ==
                 if && s.events[i].record == record && !u.appendOnly
                    && (|| (e.kind == Merged && e.mergedInto.Value? && e.mergedInto.value != e.record.id)
                        || (e.kind == Deactivated && e.mergedInto.Null?)) then e
                 else s.events[i]
  {
    MergeTargetMeaning(e);
  }

  lemma ChangeAcceptedIff(u: Setup, s: State, record: Key, e: Event)
    ensures !Rejects(u, s, UpdateEvents(record, e)) <==>
            || (forall x :: x in s.events ==> x.record != record)
            || (&& !u.appendOnly
                && (match e.kind
                    case Merged => e.mergedInto.Value? && e.mergedInto.value != e.record.id
                    case Deactivated => e.mergedInto.Null?))
  {
    HasEventMeans(s.events, record);
    MergeTargetMeaning(e);
  }

  lemma {:induction false} OthersKeepCounts(events: seq<Event>, record: Key, e: Event)
    ensures multiset(Others(events, record))[e] == if e.record == record then 0 else multiset(events)[e]
  {
    if events != [] {
      var n := |events| - 1;
      OthersKeepCounts(events[..n], record, e);
      assert events == events[..n] + [events[n]];
    }
  }

  /** A DELETE takes exactly the events of the record, without the trigger, and none with it. */
  lemma DeleteEventsIs(u: Setup, s: State, record: Key)
    ensures var s' := Step(u, s, DeleteEvents(record));
            && s'.active == s.active
            && (u.appendOnly ==> s'.events == s.events)
            && (!u.appendOnly ==>
                  forall e :: multiset(s'.events)[e] == if e.record == record then 0 else multiset(s.events)[e])
  {
    if !HasEvent(s.events, record) {
      OthersOfUnnamed(s.events, record);
    }
    forall e ensures multiset(Others(s.events, record))[e] == if e.record == record then 0 else multiset(s.events)[e] {
      OthersKeepCounts(s.events, record, e);
    }
  }

  /** The events that a DELETE leaves are in the order they had. */
  lemma {:induction false} OthersKeepOrder(a: seq<Event>, b: seq<Event>, record: Key)
    ensures Others(a + b, record) == Others(a, record) + Others(b, record)
    decreases |b|
  {
    if b == [] {
      assert a + b == a;
    } else {
      var n := |b| - 1;
      assert (a + b)[..|a + b|-1] == a + b[..n] && (a + b)[|a + b|-1] == b[n];
      OthersKeepOrder(a, b[..n], record);
    }
  }

  // ----- the tables themselves -----

  lemma HasEventNext(events: seq<Event>, i: nat, record: Key)
    requires i < |events|
    ensures HasEvent(events[..i+1], record) <==> HasEvent(events[..i], record) || events[i].record == record
  {
    assert events[..i+1] == events[..i] + [events[i]];
    if HasEvent(events[..i], record) {
      var j :| 0 <= j < i && events[..i][j].record == record;
      assert events[..i+1][j].record == record;
    }
    assert events[..i+1][i] == events[i];
  }

  /** The events when the statement has reached those before position i. */
  function Partly(events: seq<Event>, i: nat, record: Key, e: Event): seq<Event>
    requires i <= |events|
  {
    Replaced(events[..i], record, e) + events[i..]
  }

  lemma PartlyNext(events: seq<Event>, i: nat, record: Key, e: Event)
    requires i < |events|
    ensures |Partly(events, i, record, e)| == |events|
    ensures Partly(events, i + 1, record, e) ==
            if events[i].record == record then Partly(events, i, record, e)[i := e] else Partly(events, i, record, e)
  {
  }

  lemma PartlyWhole(events: seq<Event>, record: Key, e: Event)
    ensures Partly(events, 0, record, e) == events
    ensures Partly(events, |events|, record, e) == Replaced(events, record, e)
    ensures !HasEvent(events, record) ==> Replaced(events, record, e) == events
  {
    assert events[..|events|] == events;
  }

  /** The two tables behind their triggers. */
  class LifecycleTables {
    const setup: Setup
    var active: map<Key, Truth>
    var events: seq<Event>

    function Current(): State
      reads this
    {
      State(active, events)
    }

    constructor (setup: Setup, active: map<Key, Truth>)
      ensures this.setup == setup && Current() == State(active, [])
    {
      this.setup, this.active, this.events := setup, active, [];
    }

    /** A merge needs another record as its target, a deactivation none; a well-formed history stays so. */
    method AppendEvent(e: Event) returns (ok: bool)
      modifies this`events
      ensures ok <==> (match e.kind
                       case Merged => e.mergedInto.Value? && e.mergedInto.value != e.record.id
                       case Deactivated => e.mergedInto.Null?)
      ensures events == if ok then old(events) + [e] else old(events)
      ensures Current() == Step(setup, old(Current()), InsertEvent(e))
      ensures WellFormed(old(events)) ==> WellFormed(events)
      ensures old(events) <= events
    {
      ok := Admits(MergeTargetCheck(e));
      if ok {
        events := events + [e];
      }
    }

    /** UPDATE ... WHERE record_id: rewrites row by row until the trigger or the CHECK raises, which undoes them all. */
    method ChangeEvents(record: Key, e: Event) returns (ok: bool)
      modifies this`events
      ensures Current() == Step(setup, old(Current()), UpdateEvents(record, e))
      ensures ok <==> || (forall x :: x in old(events) ==> x.record != record)
                      || (&& !setup.appendOnly
                          && (match e.kind
                              case Merged => e.mergedInto.Value? && e.mergedInto.value != e.record.id
                              case Deactivated => e.mergedInto.Null?))
      ensures setup.appendOnly || !ok ==> events == old(events)
    {
      var before := events;
      var i := 0;
      PartlyWhole(before, record, e);
      while i < |before|
        invariant 0 <= i <= |before| && events == Partly(before, i, record, e)
        invariant HasEvent(before[..i], record) ==> !setup.appendOnly && Admits(MergeTargetCheck(e))
      {
        HasEventNext(before, i, record);
        PartlyNext(before, i, record, e);
        if before[i].record == record {
          events := events[i := e];
          if setup.appendOnly || !Admits(MergeTargetCheck(e)) {
            events := before;
            ChangeAcceptedIff(setup, old(Current()), record, e);
            return false;
          }
        }
        i := i + 1;
      }
      assert before[..i] == before;
      ok := true;
      ChangeAcceptedIff(setup, old(Current()), record, e);
    }

    /** DELETE ... WHERE record_id, likewise. */
    method EraseEvents(record: Key) returns (ok: bool)
      modifies this`events
      ensures Current() == Step(setup, old(Current()), DeleteEvents(record))
      ensures setup.appendOnly ==> events == old(events) && (ok <==> forall x :: x in events ==> x.record != record)
      ensures !setup.appendOnly ==> ok && forall x :: x in events <==> x in old(events) && x.record != record
    {
      var before := events;
      var kept := [];
      var i := 0;
      while i < |before|
        invariant 0 <= i <= |before| && events == before && kept == Others(before[..i], record)
        invariant HasEvent(before[..i], record) ==> !setup.appendOnly
      {
        assert before[..i+1][..i] == before[..i] && before[..i+1][i] == before[i];
        HasEventNext(before, i, record);
        if before[i].record == record {
          if setup.appendOnly { return false; }
        } else {
          kept := kept + [before[i]];
        }
        i := i + 1;
      }
      assert before[..i] == before;
      OthersAreOthers(before, record);
      if setup.appendOnly {
        OthersOfUnnamed(before, record);
      }
      events := kept;
      ok := true;
    }

    /** UPDATE ... SET is_active, with the row trigger looking the history up event by event. */
    method UpdateActive(key: Key, value: Truth) returns (ok: bool)
      modifies this`active
      ensures ok <==> !(key in old(active) &&
                        (|| (setup.notNull && value == Unknown)
                         || (old(active)[key] == False && value == True &&
                             exists e :: e in events && e.record == key && e.kind == Merged)))
      ensures Current() == Step(setup, old(Current()), SetActive(key, value))
      ensures active.Keys == old(active).Keys
      ensures forall k :: k in active ==> active[k] == if ok && k == key then value else old(active)[k]
    {
      HasMergeMeans(events, key);
      if key !in active { return true; }
      var merged := false;
      for i := 0 to |events|
        invariant merged <==> HasMerge(events[..i], key)
      {
        assert events[..i+1] == events[..i] + [events[i]];
        assert HasMerge(events[..i], key) ==> HasMerge(events[..i+1], key) by {
          if HasMerge(events[..i], key) {
            var j :| 0 <= j < |events[..i]| && events[..i][j].record == key && events[..i][j].kind == Merged;
            assert events[..i+1][j] == events[..i][j];
          }
        }
        if events[i].record == key && events[i].kind == Merged {
          assert events[..i+1][i] == events[i];
          merged := true;
        }
      }
      assert events[..|events|] == events;
      ok := !(active[key] == False && value == True && merged) && !(setup.notNull && value == Unknown);
      if ok {
        active := active[key := value];
      }
    }
  }
}
