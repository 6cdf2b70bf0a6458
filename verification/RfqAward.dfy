/** Revision 20261030_0008: adopt or create the award enums and tables, record what was created, undo only that. */
module RfqAward {
  import opened Catalog
  import opened Adoption

  datatype State = State(db: Db, marker: Marker<Created>)

  /** The tables in the order they are ensured, with the shapes expected of them. */
  datatype Plan = Plan(tables: seq<TableName>, shapes: Shapes)

  predicate Workable(p: Plan) {
    Ordered(p.tables, p.shapes)
  }

  const AWARD_LABELS := ["PENDING_APPROVAL", "APPROVED", "REJECTED"]
  const APPROVAL_LABELS := ["PENDING", "APPROVED", "REJECTED", "SKIPPED"]

  const REQUIRED := {RfqRequests, RfqResponses, RfqRequestLines, ApprovalRules, Users}

  const ENUMS := [AwardStatus, AwardApprovalStatus]

  predicate EnumFits(db: Db, e: EnumName, labels: seq<string>) {
    e in db.enums ==> db.enums[e] == labels
  }

  function WithEnums(db: Db): Db {
    CreateEnum(CreateEnum(db, AwardStatus, AWARD_LABELS), AwardApprovalStatus, APPROVAL_LABELS)
  }

  function CreatedFrom(p: Plan, db: Db): Created {
    Created({AwardStatus, AwardApprovalStatus} - db.enums.Keys, Names(p.tables) - db.tables.Keys)
  }

  predicate Accepted(s: State) {
    && REQUIRED <= s.db.tables.Keys && s.marker.NoMarker?
    && EnumFits(s.db, AwardStatus, AWARD_LABELS) && EnumFits(s.db, AwardApprovalStatus, APPROVAL_LABELS)
  }

  function Upgrade(p: Plan, s: State): Option<State>
    requires Workable(p)
  {
    if !Accepted(s) then None
    else
      var after := EnsureList(true, WithEnums(s.db), p.tables, p.shapes);
      if after.None? then None else Some(State(after.value, Marker(Some(CreatedFrom(p, s.db)))))
  }

  function Downgrade(p: Plan, s: State): Option<State> {
    if s.marker.NoMarker? || s.marker.row.None? ||
      HoldsRows(s.db, s.marker.row.value.tables * Names(p.tables)) then None
    else
      var end := Undo(s.db, s.marker.row.value, p.tables, ENUMS);
      if end.None? then None else Some(State(end.value, NoMarker))
  }

  lemma WithEnumsKeepsSound(db: Db)
    requires Sound(db)
    ensures Sound(WithEnums(db)) && WithEnums(db).tables == db.tables
    ensures WithEnums(db).enums.Keys == db.enums.Keys + {AwardStatus, AwardApprovalStatus}
    ensures forall e :: e in db.enums ==> WithEnums(db).enums[e] == db.enums[e]
  {
  }

  /** An upgrade changes no table, row or enum that was there, and adds just what was missing. */
  lemma UpgradeKeepsWhatItAdopts(p: Plan, s: State)
    requires Workable(p) && Sound(s.db) && Upgrade(p, s).Some?
    ensures Names(p.tables) <= p.shapes.Keys
    ensures var s' := Upgrade(p, s).value;
            && s'.marker == Marker(Some(CreatedFrom(p, s.db)))
            && Built(true, WithEnums(s.db), s'.db, Names(p.tables), p.shapes)
            && s'.db.tables.Keys == s.db.tables.Keys + CreatedFrom(p, s.db).tables
            && s'.db.enums.Keys == s.db.enums.Keys + CreatedFrom(p, s.db).enums
            && (forall t :: t in s.db.tables ==> s'.db.tables[t] == s.db.tables[t])
            && (forall e :: e in s.db.enums ==> s'.db.enums[e] == s.db.enums[e])
  {
    WithEnumsKeepsSound(s.db);
    EnsureListBuilds(true, WithEnums(s.db), p.tables, p.shapes);
    assert s.db.tables.Keys + Names(p.tables) == s.db.tables.Keys + CreatedFrom(p, s.db).tables;
  }

  /** Whatever happened to the rows since, what the upgrade created can be undone. */
  lemma CreatedCanBeUndone(p: Plan, s: State, later: State)
    requires Workable(p) && Sound(s.db) && Upgrade(p, s).Some?
    requires SameSchema(Upgrade(p, s).value.db, later.db)
    ensures var undone := Undo(later.db, CreatedFrom(p, s.db), p.tables, ENUMS);
            undone.Some? && SameSchema(undone.value, s.db) &&
            forall t :: t in s.db.tables ==> t in later.db.tables && undone.value.tables[t] == later.db.tables[t]
  {
    UpgradeKeepsWhatItAdopts(p, s);
    var f := CreatedFrom(p, s.db);
    assert f.tables * Names(p.tables) == f.tables;
    assert Later(s.db, later.db, f.tables, p.tables, p.shapes);
    assert ENUMS[0] == AwardStatus && ENUMS[1] == AwardApprovalStatus;
    UndoBack(s.db, later.db, f, p.tables, p.shapes, ENUMS);
  }

  /**
   From any starting mix the upgrade accepts, and after any change of data: the downgrade succeeds exactly when the
   tables the upgrade created are empty, and then the schema is the starting schema and no adopted row is touched.
   */
  lemma RoundTrip(p: Plan, s: State, later: State)
    requires Workable(p) && Sound(s.db) && Upgrade(p, s).Some?
    requires var up := Upgrade(p, s).value;
             && later.marker == up.marker && later.db.enums == up.db.enums
             && later.db.tables.Keys == up.db.tables.Keys
             && forall t :: t in up.db.tables ==> later.db.tables[t].shape == up.db.tables[t].shape
    ensures Downgrade(p, later).Some? <==>
            forall t :: t in p.tables && t !in s.db.tables && t in later.db.tables ==> later.db.tables[t].rows == 0
    ensures Downgrade(p, later).Some? ==>
            var end := Downgrade(p, later).value;
            && end.marker == NoMarker && end.db.enums == s.db.enums && end.db.tables.Keys == s.db.tables.Keys
            && forall t :: t in s.db.tables ==>
                 && t in later.db.tables && end.db.tables[t] == later.db.tables[t]
                 && end.db.tables[t].shape == s.db.tables[t].shape
  {
    CreatedCanBeUndone(p, s, later);
    var f := CreatedFrom(p, s.db);
    assert f.tables * Names(p.tables) == Names(p.tables) - s.db.tables.Keys;
    assert later.marker == Marker(Some(f));
    forall t | t in p.tables ensures t in Names(p.tables) {
    }
  }

  /** A second upgrade is refused, and so is a downgrade of a database that was never upgraded. */
  lemma ReentryIsRefused(p: Plan, s: State)
    requires Workable(p) && Upgrade(p, s).Some?
    ensures Upgrade(p, Upgrade(p, s).value).None? && Downgrade(p, s).None?
  {
  }

  /** What refers to the award table and which tables use the enums. */
  predicate Dependencies(p: Plan) {
    && Workable(p)
    && RfqAwards in p.tables && RfqAwardAllocations in p.tables && RfqAwardApprovals in p.tables
    && Uses(p.shapes[RfqAwards], AwardStatus)
    && Refers(p.shapes[RfqAwardAllocations], RfqAwards)
    && Refers(p.shapes[RfqAwardApprovals], RfqAwards) && Uses(p.shapes[RfqAwardApprovals], AwardApprovalStatus)
  }

  /** A created award table comes with created allocations and approvals, a created enum with the table that uses it. */
  lemma OwnershipIsClosed(p: Plan, s: State)
    requires Dependencies(p) && Sound(s.db) && Upgrade(p, s).Some?
    ensures var f := CreatedFrom(p, s.db);
            && (RfqAwards in f.tables ==> RfqAwardAllocations in f.tables && RfqAwardApprovals in f.tables)
            && (AwardStatus in f.enums ==> RfqAwards in f.tables)
            && (AwardApprovalStatus in f.enums ==> RfqAwardApprovals in f.tables)
  {
    var start := WithEnums(s.db);
    WithEnumsKeepsSound(s.db);
    if RfqAwards !in s.db.tables {
      ReferrersWereMissing(true, start, p.tables, p.shapes, RfqAwards, RfqAwardAllocations);
      ReferrersWereMissing(true, start, p.tables, p.shapes, RfqAwards, RfqAwardApprovals);
    }
    if AwardStatus !in s.db.enums {
      UsersWereMissing(true, s.db, start, p.tables, p.shapes, AwardStatus, RfqAwards);
    }
    if AwardApprovalStatus !in s.db.enums {
      UsersWereMissing(true, s.db, start, p.tables, p.shapes, AwardApprovalStatus, RfqAwardApprovals);
    }
  }

  // ----- the revision on enums, tables and rows -----

  /** Both enums in place under their labels, the older ones among them as they were. */
  function EnumsInPlace(db: Db): Db {
    Db(db.enums[AwardStatus := ["PENDING_APPROVAL", "APPROVED", "REJECTED"]]
               [AwardApprovalStatus := ["PENDING", "APPROVED", "REJECTED", "SKIPPED"]], db.tables)
  }

  /**
   The upgrade goes through exactly on a database with the five tables it builds on, without the ownership table, on
   which each enum is missing or has the revision's labels and each of the revision's tables can be had.
   */
  lemma UpgradeSucceedsIff(p: Plan, s: State)
    requires Workable(p)
    ensures Upgrade(p, s).Some? <==>
            && RfqRequests in s.db.tables && RfqResponses in s.db.tables && RfqRequestLines in s.db.tables
            && ApprovalRules in s.db.tables && Users in s.db.tables
            && s.marker.NoMarker?
            && (AwardStatus in s.db.enums ==>
                  s.db.enums[AwardStatus] == ["PENDING_APPROVAL", "APPROVED", "REJECTED"])
            && (AwardApprovalStatus in s.db.enums ==>
                  s.db.enums[AwardApprovalStatus] == ["PENDING", "APPROVED", "REJECTED", "SKIPPED"])
            && (forall i :: 0 <= i < |p.tables| ==> CanEnsure(true, EnumsInPlace(s.db), p.tables, p.shapes, i))
  {
    EnsureListSucceedsIff(true, WithEnums(s.db), p.tables, p.shapes);
    if EnumFits(s.db, AwardStatus, AWARD_LABELS) && EnumFits(s.db, AwardApprovalStatus, APPROVAL_LABELS) {
      assert WithEnums(s.db).enums == EnumsInPlace(s.db).enums;
    }
  }

  /**
   Then every table of the revision has its definition and both enums their labels, every reference and type is there,
   and the ownership row names exactly what was missing.
   */
  lemma UpgradeDelivers(p: Plan, s: State)
    requires Workable(p) && Sound(s.db) && Upgrade(p, s).Some?
    ensures var s' := Upgrade(p, s).value;
            && (forall i :: 0 <= i < |p.tables| ==> Has(s'.db, p.tables[i], p.shapes[p.tables[i]]))
            && AwardStatus in s'.db.enums
            && s'.db.enums[AwardStatus] == ["PENDING_APPROVAL", "APPROVED", "REJECTED"]
            && AwardApprovalStatus in s'.db.enums
            && s'.db.enums[AwardApprovalStatus] == ["PENDING", "APPROVED", "REJECTED", "SKIPPED"]
            && Sound(s'.db)
            && s'.marker.Marker? && s'.marker.row.Some?
            && (forall t :: t in s'.marker.row.value.tables <==> t in p.tables && t !in s.db.tables)
            && (forall e :: e in s'.marker.row.value.enums <==>
                            (e == AwardStatus || e == AwardApprovalStatus) && e !in s.db.enums)
  {
    WithEnumsKeepsSound(s.db);
    EnsuredTablesAreThere(true, WithEnums(s.db), p.tables, p.shapes);
    EnsureListKeepsSound(true, WithEnums(s.db), p.tables, p.shapes);
    UpgradeKeepsWhatItAdopts(p, s);
  }

  /** What was there is as it was, and every table that was missing is there, as expected and empty. */
  lemma UpgradeAddsOnly(p: Plan, s: State)
    requires Workable(p) && Sound(s.db) && Upgrade(p, s).Some?
    ensures var s' := Upgrade(p, s).value;
            && (forall t :: t in s'.db.tables <==> t in s.db.tables || t in p.tables)
            && (forall t :: t in s.db.tables ==> s'.db.tables[t] == s.db.tables[t])
            && (forall t :: t in p.tables && t !in s.db.tables ==>
                  t in p.shapes && s'.db.tables[t] == Table(p.shapes[t], 0))
            && (forall e :: e in s'.db.enums <==> e in s.db.enums || e == AwardStatus || e == AwardApprovalStatus)
            && (forall e :: e in s.db.enums ==> s'.db.enums[e] == s.db.enums[e])
  {
    UpgradeKeepsWhatItAdopts(p, s);
    forall t | t in p.tables ensures t in Names(p.tables) {
    }
  }

  /**
   Any downgrade that goes through, of any database and whatever its ownership row claims: it found no row in what it
   dropped, dropped what the row claims and nothing else, removed the row, and left every reference and type in place.
   */
  lemma DowngradeTakesOnly(p: Plan, s: State)
    requires Downgrade(p, s).Some?
    ensures s.marker.Marker? && s.marker.row.Some?
    ensures var f, s' := s.marker.row.value, Downgrade(p, s).value;
            && s'.marker == NoMarker
            && (forall t :: t in f.tables && t in p.tables && t in s.db.tables ==> s.db.tables[t].rows == 0)
            && (forall t :: t in s'.db.tables <==> t in s.db.tables && !(t in f.tables && t in p.tables))
            && (forall t :: t in s'.db.tables ==> s'.db.tables[t] == s.db.tables[t])
            && (forall e :: e in s'.db.enums <==>
                  e in s.db.enums && !(e in f.enums && (e == AwardStatus || e == AwardApprovalStatus)))
            && (forall e :: e in s'.db.enums ==> s'.db.enums[e] == s.db.enums[e])
            && (Sound(s.db) ==> Sound(s'.db))
  {
    var f := s.marker.row.value;
    DropCreatedIs(s.db, f.tables, p.tables);
    var dropped := DropCreated(s.db, f.tables, p.tables).value;
    DropEnumsIs(dropped, f.enums, ENUMS);
    if Sound(s.db) { UndoKeepsSound(s.db, f, p.tables, ENUMS); }
    forall t | t in f.tables && t in p.tables && t in s.db.tables ensures s.db.tables[t].rows == 0 {
      assert t in f.tables * Names(p.tables);
    }
  }

  // ----- the migration itself -----

  /** One database on which the revision is run; a RuntimeError rolls the transaction back. */
  class Migration {
    const plan: Plan
    var state: State

    constructor (plan: Plan, state: State)
      ensures this.plan == plan && this.state == state
    {
      this.plan, this.state := plan, state;
    }

    /** `orders` lists, per table, its create_index calls. */
    method Up(orders: map<TableName, seq<string>>) returns (ok: bool)
      requires Workable(plan) && IndexOrders(plan.tables, plan.shapes, orders)
      modifies this`state
      ensures ok <==> Upgrade(plan, old(state)).Some?
      ensures state == if ok then Upgrade(plan, old(state)).value else old(state)
    {
      if !Accepted(state) { return false; }
      var enums := {AwardStatus, AwardApprovalStatus} - state.db.enums.Keys;
      var session := new Session(WithEnums(state.db));
      var tables: set<TableName>;
      ok, tables := EnsureInOrder(session, true, plan.tables, plan.shapes, orders);
      if ok {
        state := State(session.db, Marker(Some(Created(enums, tables))));
      }
    }

    method Down() returns (ok: bool)
      modifies this`state
      ensures ok <==> Downgrade(plan, old(state)).Some?
      ensures state == if ok then Downgrade(plan, old(state)).value else old(state)
    {
      if state.marker.NoMarker? || state.marker.row.None? { return false; }
      var f := state.marker.row.value;
      var held := AnyRows(state.db, f.tables, plan.tables);
      if held { return false; }
      var dropped := DropInReverse(state.db, f.tables, plan.tables);
      if dropped.None? { return false; }
      var end := DropEnumsInOrder(dropped.value, f.enums, ENUMS);
      ok := end.Some?;
      if ok {
        state := State(end.value, NoMarker);
      }
    }
  }
}
