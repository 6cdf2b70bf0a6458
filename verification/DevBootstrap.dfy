/** The start-up script: which of the number sequences a database has, depending on how it was brought up. */
module DevBootstrap {
  import opened SchemaOps

  datatype Name = PoSequence | PlanSequence | LineSequence | ScenarioSequence

  const PLAN_NAMES := {PlanSequence, LineSequence, ScenarioSequence}

  /** Positions in the revision chain: before everything, after the production-order sequence, after the others. */
  const BASE: nat := 0
  const PO_REVISION: nat := 1
  const PLAN_REVISION: nat := 2

  /** The key of work orders on routing steps, which revision 20261104_0004 renames. */
  const TABLE := "work_orders"
  const PARENT := "routing_steps"
  const COLUMN := "routing_step_id"
  const OLDER := "work_orders_routing_step_id_fkey"
  const NEWER := "fk_work_orders_routing_step_id_routing_steps"

  /** Its two operations on that key, neither of which asks for the older name. */
  function Rename(): seq<Op> {
    [DropConstraint(OLDER, TABLE), KeyOp(TABLE, PARENT, COLUMN, NEWER)]
  }

  /** The table with its key under a name. */
  function WorkOrders(key: string): Schema {
    Keyed(TABLE, PARENT, COLUMN, key)
  }

  /** The chain goes through exactly where the key has its older name. */
  lemma RenameGoesThroughIff(key: string)
    ensures Chain(WorkOrders(key), Rename()) == if key == OLDER then Some(WorkOrders(NEWER)) else None
  {
    RenameKey(TABLE, PARENT, COLUMN, key, OLDER, NEWER);
  }

  lemma NamesDiffer()
    ensures OLDER != NEWER
  {
    assert |OLDER| != |NEWER|;
  }

  /**
   Whether there are tables, the Alembic version if tracked, whether the two telltale tables exist, the name of that
   key if work_orders exists, and the sequences.
   */
  datatype Database = Database(tables: bool, version: Option<nat>, recognisable: bool, key: Option<string>,
                               sequences: set<Name>)

  const EMPTY := Database(false, None, false, None, {})

  datatype Outcome = Done(database: Database) | Refused | UpgradeFailed

  /** The models name the key as the chain does that ends with their release; `renames` is the revision's position. */
  function ModelKey(renames: nat, head: nat): string {
    if head < renames then OLDER else NEWER
  }

  /** create_all makes the table only if it is missing. */
  function Made(renames: nat, db: Database, head: nat): string {
    if db.key.Some? then db.key.value else ModelKey(renames, head)
  }

  function From(db: Database): nat {
    if db.version.Some? then db.version.value else BASE
  }

  /** What an upgrade leaves of the table: the operations of the revision run if it is pending, and may raise. */
  function Renamed(renames: nat, db: Database, head: nat): Option<Schema> {
    var table := WorkOrders(Made(renames, db, head));
    if From(db) < renames <= head then Chain(table, Rename()) else Some(table)
  }

  /**
   upgrade head, one transaction: it does not know a later revision, the pending rename may raise, and CREATE SEQUENCE
   for the last three fails when one of them exists.
   */
  function Upgrade(renames: nat, db: Database, head: nat): Outcome {
    var from := From(db);
    if from > head || Renamed(renames, db, head).None? || (from < PLAN_REVISION && db.sequences * PLAN_NAMES != {}) then
      UpgradeFailed
    else
      var po := if from < PO_REVISION then {PoSequence} else {};
      var plan := if from < PLAN_REVISION then PLAN_NAMES else {};
      var key := if from < renames <= head then NEWER else Made(renames, db, head);
      Done(Database(true, Some(head), true, Some(key), db.sequences + po + plan))
  }

  /** The recorded key is the one the upgrade has left. */
  lemma UpgradedKey(renames: nat, db: Database, head: nat)
    requires Upgrade(renames, db, head).Done?
    ensures Renamed(renames, db, head) == Some(WorkOrders(Upgrade(renames, db, head).database.key.value))
  {
    RenameGoesThroughIff(Made(renames, db, head));
  }

  /** The rename stands in the way exactly where it is pending and the key does not have its older name. */
  lemma RenameRaisesIff(renames: nat, db: Database, head: nat)
    ensures Renamed(renames, db, head).None? <==> From(db) < renames <= head && db.key != Some(OLDER)
  {
    RenameGoesThroughIff(Made(renames, db, head));
    NamesDiffer();
  }

  /** create_all from the models, the one sequence, stamp head. */
  function CreateAndStamp(renames: nat, db: Database, head: nat): Outcome {
    Done(Database(true, Some(head), true, Some(Made(renames, db, head)), db.sequences + {PoSequence}))
  }

  /** main(); head is the position of the last revision of the running release. */
  function Start(renames: nat, production: bool, db: Database, head: nat): Outcome {
    if production then Upgrade(renames, db, head)
    else if !db.tables then CreateAndStamp(renames, db, head)
    else if db.version.Some? then Upgrade(renames, db, head)
    else if !db.recognisable then Refused
    else CreateAndStamp(renames, db, head)
  }

  lemma UpgradeIs(renames: nat, db: Database, head: nat)
    ensures var from: nat := if db.version.Some? then db.version.value else 0;
            var pending := from < renames <= head;
            Upgrade(renames, db, head) ==
            if || from > head
               || (pending && db.key != Some("work_orders_routing_step_id_fkey"))
               || (from < 2 && (PlanSequence in db.sequences || LineSequence in db.sequences ||
                                ScenarioSequence in db.sequences)) then UpgradeFailed
            else
              Done(Database(true, Some(head), true,
                            if pending then Some("fk_work_orders_routing_step_id_routing_steps")
                            else if db.key.Some? then db.key
                            else if head < renames then Some("work_orders_routing_step_id_fkey")
                            else Some("fk_work_orders_routing_step_id_routing_steps"),
                            db.sequences + (if from < 1 then {PoSequence} else {})
                            + (if from < 2 then {PlanSequence, LineSequence, ScenarioSequence} else {})))
  {
    RenameRaisesIff(renames, db, head);
    assert db.sequences * PLAN_NAMES != {} <==>
           PlanSequence in db.sequences || LineSequence in db.sequences || ScenarioSequence in db.sequences by {
      assert forall n :: n in db.sequences * PLAN_NAMES <==>
                         n in db.sequences && (n == PlanSequence || n == LineSequence || n == ScenarioSequence);
    }
  }

  /**
   main(), outcome by outcome. Production, and in development a tracked database, is upgraded; a development database
   without tables or with a known untracked schema is created from the models and stamped; any other is refused.
   */
  lemma StartIs(renames: nat, production: bool, db: Database, head: nat)
    ensures Start(renames, production, db, head) ==
            if production || (db.tables && db.version.Some?) then Upgrade(renames, db, head)
            else if db.tables && !db.recognisable then Refused
            else
              Done(Database(true, Some(head), true,
                            if db.key.Some? then db.key
                            else if head < renames then Some("work_orders_routing_step_id_fkey")
                            else Some("fk_work_orders_routing_step_id_routing_steps"),
                            db.sequences + {PoSequence}))
  {
  }

  /** A start: in which environment, with which release. */
  datatype Boot = Boot(production: bool, head: nat)

  /** One start; one that fails changes nothing. */
  function After(renames: nat, db: Database, boot: Boot): Database {
    var r := Start(renames, boot.production, db, boot.head);
    if r.Done? then r.database else db
  }

  function Starts(renames: nat, db: Database, boots: seq<Boot>): Database
    decreases |boots|
  {
    if boots == [] then db else Starts(renames, After(renames, db, boots[0]), boots[1..])
  }

  predicate Stamped(db: Database) {
    db.tables && db.version.Some? && db.version.value >= PLAN_REVISION
  }

  /** Once at or past the revision of the last three sequences, no later start adds or removes a sequence. */
  lemma {:induction false} StampedIsFinal(renames: nat, db: Database, boots: seq<Boot>)
    requires Stamped(db) && forall i :: 0 <= i < |boots| ==> boots[i].head >= PLAN_REVISION
    ensures Starts(renames, db, boots).sequences == db.sequences
    decreases |boots|
  {
    if boots != [] {
      var next := After(renames, db, boots[0]);
      assert next.sequences == db.sequences;
      assert forall i :: 0 <= i < |boots[1..]| ==> boots[1..][i] == boots[i+1];
      StampedIsFinal(renames, next, boots[1..]);
    }
  }

  /**
   A production start on an empty database: with a release from before the rename all four sequences are made; with any
   later one, the current release among them, the rename raises on the baseline the chain has just made, and the
   database stays empty.
   */
  lemma FirstProductionStart(renames: nat, head: nat)
    requires head >= PLAN_REVISION
    ensures Start(renames, true, EMPTY, head).Done? <==> head < renames || renames == BASE
    ensures var db := After(renames, EMPTY, Boot(true, head));
            if head < renames || renames == BASE then Stamped(db) && db.sequences == {PoSequence} + PLAN_NAMES
            else db == EMPTY
  {
    RenameRaisesIff(renames, EMPTY, head);
    assert EMPTY.sequences * PLAN_NAMES == {};
  }

  /** The start that gets through on an empty database: one in development, or with a release before the rename. */
  predicate GetsThrough(renames: nat, boot: Boot) {
    !boot.production || boot.head < renames
  }

  /**
   On an empty database, over all starts: as long as none gets through it stays empty; the first that does decides for
   good. A production start gives all four sequences, a development start only the production-order sequence.
   */
  lemma {:induction false} FirstStartDecides(renames: nat, boots: seq<Boot>, n: nat)
    requires renames > BASE && n <= |boots|
    requires forall i :: 0 <= i < |boots| ==> boots[i].head >= PLAN_REVISION
    requires forall i :: 0 <= i < n ==> !GetsThrough(renames, boots[i])
    requires n < |boots| ==> GetsThrough(renames, boots[n])
    ensures n == |boots| ==> Starts(renames, EMPTY, boots) == EMPTY
    ensures n < |boots| ==>
              Starts(renames, EMPTY, boots).sequences ==
              if boots[n].production then {PoSequence} + PLAN_NAMES else {PoSequence}
    decreases n
  {
    if boots != [] {
      var rest := boots[1..];
      assert forall i :: 0 <= i < |rest| ==> rest[i] == boots[i+1];
      if boots[0].production {
        FirstProductionStart(renames, boots[0].head);
      }
      if n == 0 {
        var db := After(renames, EMPTY, boots[0]);
        assert db.sequences == if boots[0].production then {PoSequence} + PLAN_NAMES else {PoSequence};
        StampedIsFinal(renames, db, rest);
      } else {
        FirstStartDecides(renames, rest, n - 1);
      }
    }
  }

  /** A database that a release before the rename made goes through every later one, and has the key renamed. */
  lemma OlderDatabaseUpgrades(renames: nat, first: nat, head: nat)
    requires PLAN_REVISION <= first < renames && first <= head
    ensures var r := Start(renames, true, After(renames, EMPTY, Boot(true, first)), head);
            r.Done? && r.database.key == Some(ModelKey(renames, head))
  {
    FirstProductionStart(renames, first);
    RenameRaisesIff(renames, After(renames, EMPTY, Boot(true, first)), head);
  }

  /**
   A start that ends well leaves all four sequences exactly when they were there or it upgraded past their revision;
   and when it upgrades, it ends well exactly if the release knows the version, no plan sequence is in the way, and a
   pending rename finds the key under its older name.
   */
  lemma AllSequencesIff(renames: nat, boot: Boot, db: Database)
    requires boot.head >= PLAN_REVISION
    requires db.version.Some? && db.version.value >= PO_REVISION ==> PoSequence in db.sequences
    ensures var r := Start(renames, boot.production, db, boot.head);
            var upgrades := boot.production || (db.tables && db.version.Some?);
            && (r.Done? ==>
                  ({PoSequence} + PLAN_NAMES <= r.database.sequences <==>
                   PLAN_NAMES <= db.sequences || (upgrades && From(db) < PLAN_REVISION)))
            && (upgrades ==>
                  (r.Done? <==>
                   && From(db) <= boot.head
                   && (From(db) < PLAN_REVISION ==> db.sequences * PLAN_NAMES == {})
                   && (From(db) < renames <= boot.head ==> db.key == Some(OLDER))))
  {
    RenameRaisesIff(renames, db, boot.head);
  }
}
