/** Revision 20261030_0007: two enums, a status column on existing responses, and two evaluation tables. */
module RfqEvaluation {
  import opened Catalog
  import opened Adoption

  /** The ownership row: besides enums and tables, whether the status column was added. */
  datatype Flags = Flags(created: Created, column: bool)

  /** `evaluated` counts the responses whose evaluation_status is not NOT_EVALUATED. */
  datatype State = State(db: Db, evaluated: nat, marker: Marker<Flags>)

  datatype Plan = Plan(tables: seq<TableName>, shapes: Shapes)

  predicate Workable(p: Plan) {
    Ordered(p.tables, p.shapes)
  }

  const DIMENSIONS := ["TECHNICAL", "COMMERCIAL"]
  const STATUSES := ["NOT_EVALUATED", "QUALIFIED", "DISQUALIFIED"]

  /** In the order in which the downgrade drops them. */
  const ENUMS := [EvaluationStatus, EvaluationDimension]

  const STATUS_COLUMN := "evaluation_status"
  const STATUS_DEFINITION := Column(EnumOf(EvaluationStatus), false)

  function WithEnums(db: Db): Db {
    CreateEnum(CreateEnum(db, EvaluationDimension, DIMENSIONS), EvaluationStatus, STATUSES)
  }

  predicate EnumsFit(db: Db) {
    EvaluationDimension in db.enums && db.enums[EvaluationDimension] == DIMENSIONS &&
    EvaluationStatus in db.enums && db.enums[EvaluationStatus] == STATUSES
  }

  predicate HasStatus(db: Db) {
    RfqResponses in db.tables && STATUS_COLUMN in db.tables[RfqResponses].shape.columns
  }

  function SetColumns(db: Db, columns: map<string, Column>): Db
    requires RfqResponses in db.tables
  {
    var responses := db.tables[RfqResponses];
    db.(tables := db.tables[RfqResponses := responses.(shape := responses.shape.(columns := columns))])
  }

  function WithStatus(db: Db): Db
    requires RfqResponses in db.tables
  {
    if HasStatus(db) then db
    else SetColumns(db, db.tables[RfqResponses].shape.columns[STATUS_COLUMN := STATUS_DEFINITION])
  }

  function DropStatus(db: Db): Option<Db> {
    if !HasStatus(db) then None
    else Some(SetColumns(db, db.tables[RfqResponses].shape.columns - {STATUS_COLUMN}))
  }

  predicate Accepted(s: State) {
    && RfqResponses in s.db.tables && RfqRequests in s.db.tables && Users in s.db.tables && s.marker.NoMarker?
    && EnumsFit(WithEnums(s.db))
    && (HasStatus(s.db) ==> s.db.tables[RfqResponses].shape.columns[STATUS_COLUMN] == STATUS_DEFINITION)
  }

  function CreatedFrom(p: Plan, db: Db): Flags {
    Flags(Created({EvaluationDimension, EvaluationStatus} - db.enums.Keys, Names(p.tables) - db.tables.Keys),
        !HasStatus(db))
  }

  /** Enums and column in place, tables not yet ensured. */
  function Prepared(db: Db): Db
    requires RfqResponses in db.tables
  {
    WithStatus(WithEnums(db))
  }

  function Upgrade(p: Plan, s: State): Option<State>
    requires Workable(p)
  {
    if !Accepted(s) then None
    else
      var after := EnsureList(false, Prepared(s.db), p.tables, p.shapes);
      if after.None? then None
      else Some(State(after.value, if HasStatus(s.db) then s.evaluated else 0, Marker(Some(CreatedFrom(p, s.db)))))
  }

  /** After the tables, the column and the enums are dropped. */
  function DropRest(db: Db, f: Flags): Option<Db> {
    var columnGone := if f.column then DropStatus(db) else Some(db);
    if columnGone.None? then None else DropEnums(columnGone.value, f.created.enums, ENUMS)
  }

  function Downgrade(p: Plan, s: State): Option<State> {
    if s.marker.NoMarker? || s.marker.row.None? ||
      HoldsRows(s.db, s.marker.row.value.created.tables * Names(p.tables)) then None
    else
      var f := s.marker.row.value;
      var tablesGone := DropCreated(s.db, f.created.tables, p.tables);
      if tablesGone.None? || (f.column && s.evaluated > 0) then None else
      var end := DropRest(tablesGone.value, f);
      if end.None? then None else Some(State(end.value, if f.column then 0 else s.evaluated, NoMarker))
  }

  lemma PreparedIsSound(db: Db)
    requires Sound(db) && RfqResponses in db.tables
    ensures Sound(Prepared(db))
  {
    var now := Prepared(db);
    forall t, c | t in now.tables && c in now.tables[t].shape.columns && now.tables[t].shape.columns[c].kind.EnumOf?
      ensures now.tables[t].shape.columns[c].kind.enumName in now.enums
    {
      assert !(t == RfqResponses && c == STATUS_COLUMN) ==> c in db.tables[t].shape.columns;
    }
  }

  lemma PreparedKeeps(db: Db)
    requires RfqResponses in db.tables
    ensures var now := Prepared(db);
            && HasStatus(now) && now.tables.Keys == db.tables.Keys
            && now.enums.Keys == db.enums.Keys + {EvaluationDimension, EvaluationStatus}
            && (forall e :: e in db.enums ==> now.enums[e] == db.enums[e])
            && (forall t :: t in db.tables && t != RfqResponses ==> now.tables[t] == db.tables[t])
            && (HasStatus(db) ==> now.tables == db.tables)
  {
  }

  lemma UpgradeBuilds(p: Plan, s: State)
    requires Workable(p) && Sound(s.db) && Upgrade(p, s).Some?
    ensures Names(p.tables) <= p.shapes.Keys && RfqResponses in s.db.tables
    ensures Built(false, Prepared(s.db), Upgrade(p, s).value.db, Names(p.tables), p.shapes)
    ensures Upgrade(p, s).value.marker == Marker(Some(CreatedFrom(p, s.db)))
  {
    EnsureListBuilds(false, Prepared(s.db), p.tables, p.shapes);
  }

  /** Every object the ownership row claims was missing at the start, and nothing that was there has changed. */
  lemma UpgradeAddsWhatItClaims(p: Plan, s: State)
    requires Workable(p) && Sound(s.db) && Upgrade(p, s).Some?
    ensures var s' := Upgrade(p, s).value;
            && s'.marker == Marker(Some(CreatedFrom(p, s.db)))
            && s'.db.tables.Keys == s.db.tables.Keys + CreatedFrom(p, s.db).created.tables
            && s'.db.enums.Keys == s.db.enums.Keys + CreatedFrom(p, s.db).created.enums
            && (forall t :: t in s.db.tables && t != RfqResponses ==> s'.db.tables[t] == s.db.tables[t])
            && (HasStatus(s.db) ==> s'.db.tables[RfqResponses] == s.db.tables[RfqResponses])
  {
    UpgradeBuilds(p, s);
    PreparedKeeps(s.db);
    assert s.db.tables.Keys + Names(p.tables) == s.db.tables.Keys + CreatedFrom(p, s.db).created.tables;
  }

  lemma StatusDropsBack(start: Db, now: Db)
    requires RfqResponses in start.tables && !HasStatus(start) && SameTables(Prepared(start), now)
    ensures DropStatus(now).Some?
    ensures SameTables(start, DropStatus(now).value) && DropStatus(now).value.enums == now.enums
    ensures forall t :: t in start.tables ==>
              t in now.tables && DropStatus(now).value.tables[t].rows == now.tables[t].rows
  {
    PreparedKeeps(start);
    var columns := start.tables[RfqResponses].shape.columns;
    AddAndRemove(columns, STATUS_COLUMN, STATUS_DEFINITION);
    assert now.tables[RfqResponses].shape ==
           start.tables[RfqResponses].shape.(columns := columns[STATUS_COLUMN := STATUS_DEFINITION]);
    SetColumnsOnly(now, columns);
    assert DropStatus(now).value == SetColumns(now, columns);
  }

  /** Nothing but the columns of that one table changes. */
  lemma SetColumnsOnly(db: Db, columns: map<string, Column>)
    requires RfqResponses in db.tables
    ensures var after := SetColumns(db, columns);
            && after.enums == db.enums && after.tables.Keys == db.tables.Keys
            && after.tables[RfqResponses].shape == db.tables[RfqResponses].shape.(columns := columns)
            && (forall t :: t in db.tables ==> after.tables[t].rows == db.tables[t].rows)
            && (forall t :: t in db.tables && t != RfqResponses ==> after.tables[t] == db.tables[t])
  {
  }

  lemma AddAndRemove(columns: map<string, Column>, name: string, column: Column)
    requires name !in columns
    ensures columns[name := column] - {name} == columns
  {
  }

  predicate CreatedBy(start: Db, f: Flags) {
    (f.column <==> !HasStatus(start)) && f.created.enums == {EvaluationDimension, EvaluationStatus} - start.enums.Keys
  }

  lemma EnumsOfPrepared(start: Db, now: Db, f: Flags)
    requires Sound(start) && RfqResponses in start.tables && SameTables(start, now) && CreatedBy(start, f)
    requires now.enums == Prepared(start).enums
    ensures DropEnums(now, f.created.enums, ENUMS).Some?
    ensures SameSchema(DropEnums(now, f.created.enums, ENUMS).value, start)
    ensures DropEnums(now, f.created.enums, ENUMS).value.tables == now.tables
  {
    PreparedKeeps(start);
    EnumsDropBack(start, now, f.created.enums, ENUMS);
    BothInOrder();
    assert f.created.enums * (set e | e in ENUMS) == f.created.enums;
    SameEnums(start.enums, now.enums, DropEnums(now, f.created.enums, ENUMS).value.enums, f.created.enums);
  }

  lemma BothInOrder()
    ensures (set e | e in ENUMS) == {EvaluationDimension, EvaluationStatus}
  {
    assert ENUMS[0] == EvaluationStatus && ENUMS[1] == EvaluationDimension;
  }

  lemma SameEnums(start: map<EnumName, seq<string>>, now: map<EnumName, seq<string>>, end: map<EnumName, seq<string>>,
      created: set<EnumName>)
    requires created == {EvaluationDimension, EvaluationStatus} - start.Keys
    requires now.Keys == start.Keys + {EvaluationDimension, EvaluationStatus}
    requires forall e :: e in start ==> now[e] == start[e]
    requires end.Keys == now.Keys - created && forall e :: e in end ==> end[e] == now[e]
    ensures end == start
  {
    assert end.Keys == start.Keys;
  }

  /** The steps after the tables are dropped: the column, then the enums. */
  lemma RestDropsBack(start: Db, now: Db, f: Flags)
    requires Sound(start) && RfqResponses in start.tables && SameTables(Prepared(start), now) && CreatedBy(start, f)
    requires now.enums == Prepared(start).enums
    ensures DropRest(now, f).Some? && SameSchema(DropRest(now, f).value, start)
    ensures forall t :: t in start.tables ==>
            t in now.tables && DropRest(now, f).value.tables[t].rows == now.tables[t].rows
  {
    if f.column {
      StatusDropsBack(start, now);
      EnumsOfPrepared(start, DropStatus(now).value, f);
    } else {
      PreparedKeeps(start);
      EnumsOfPrepared(start, now, f);
    }
  }

  /** Whatever happened to the rows since, what the upgrade created can be dropped again. */
  lemma CreatedCanBeDropped(p: Plan, start: Db, later: Db)
    requires Workable(p) && Sound(start) && RfqResponses in start.tables
    requires CreatedFrom(p, start).created.tables <= p.shapes.Keys
    requires Later(Prepared(start), later, CreatedFrom(p, start).created.tables, p.tables, p.shapes)
    requires later.enums == Prepared(start).enums
    ensures var tablesGone := DropCreated(later, CreatedFrom(p, start).created.tables, p.tables);
            && tablesGone.Some?
            && var end := DropRest(tablesGone.value, CreatedFrom(p, start));
               && end.Some? && SameSchema(end.value, start)
               && forall t :: t in start.tables ==>
                  t in later.tables && end.value.tables[t].rows == later.tables[t].rows
  {
    PreparedIsSound(start);
    PreparedKeeps(start);
    DropsBack(Prepared(start), later, CreatedFrom(p, start).created.tables, p.tables, p.shapes);
    RestDropsBack(start, DropCreated(later, CreatedFrom(p, start).created.tables, p.tables).value,
        CreatedFrom(p, start));
  }

  lemma LaterThanBuilt(p: Plan, start: Db, now: Db, later: Db)
    requires Workable(p) && RfqResponses in start.tables && Names(p.tables) <= p.shapes.Keys
    requires Built(false, Prepared(start), now, Names(p.tables), p.shapes) && SameSchema(now, later)
    ensures CreatedFrom(p, start).created.tables <= p.shapes.Keys
    ensures Later(Prepared(start), later, CreatedFrom(p, start).created.tables, p.tables, p.shapes)
    ensures later.enums == Prepared(start).enums
  {
    PreparedKeeps(start);
    assert CreatedFrom(p, start).created.tables * Names(p.tables) == CreatedFrom(p, start).created.tables;
  }

  lemma DowngradeOf(p: Plan, s: State, f: Flags, end: Db)
    requires s.marker == Marker(Some(f)) && f.created.tables <= Names(p.tables)
    requires DropCreated(s.db, f.created.tables, p.tables).Some?
    requires DropRest(DropCreated(s.db, f.created.tables, p.tables).value, f) == Some(end)
    ensures Downgrade(p, s) ==
            if HoldsRows(s.db, f.created.tables) || (f.column && s.evaluated > 0) then None
            else Some(State(end, if f.column then 0 else s.evaluated, NoMarker))
  {
    assert f.created.tables * Names(p.tables) == f.created.tables;
  }

  /**
   From any starting mix the upgrade accepts, and after any change of data: the downgrade succeeds exactly when the
   created tables are empty and, if the column was created, no response has been evaluated; it then restores the
   starting schema, keeps every remaining row, and never meets an object still in use.
   */
  lemma RoundTrip(p: Plan, s: State, later: State)
    requires Workable(p) && Sound(s.db) && Upgrade(p, s).Some?
    requires var up := Upgrade(p, s).value;
             && later.marker == up.marker && later.db.enums == up.db.enums
             && later.db.tables.Keys == up.db.tables.Keys
             && forall t :: t in up.db.tables ==> later.db.tables[t].shape == up.db.tables[t].shape
    ensures RfqResponses in s.db.tables
    ensures Downgrade(p, later).Some? <==>
            && (forall t :: t in p.tables && t !in s.db.tables && t in later.db.tables ==> later.db.tables[t].rows == 0)
            && ("evaluation_status" !in s.db.tables[RfqResponses].shape.columns ==> later.evaluated == 0)
    ensures Downgrade(p, later).Some? ==>
            var end := Downgrade(p, later).value;
            && end.marker == NoMarker && end.db.enums == s.db.enums && end.db.tables.Keys == s.db.tables.Keys
            && forall t :: t in s.db.tables ==>
                 && t in later.db.tables && end.db.tables[t].rows == later.db.tables[t].rows
                 && end.db.tables[t].shape == s.db.tables[t].shape
  {
    UpgradeBuilds(p, s);
    LaterThanBuilt(p, s.db, Upgrade(p, s).value.db, later.db);
    CreatedCanBeDropped(p, s.db, later.db);
    var f := CreatedFrom(p, s.db);
    DowngradeOf(p, later, f, DropRest(DropCreated(later.db, f.created.tables, p.tables).value, f).value);
    forall t | t in p.tables ensures t in Names(p.tables) {
    }
  }

  predicate Dependencies(p: Plan) {
    && Workable(p)
    && RfqEvaluationCriteria in p.tables && RfqResponseEvaluations in p.tables
    && Uses(p.shapes[RfqEvaluationCriteria], EvaluationDimension)
    && Refers(p.shapes[RfqResponseEvaluations], RfqEvaluationCriteria)
  }

  /** A created enum comes with the column or table that uses it, created criteria with created evaluations. */
  lemma OwnershipIsClosed(p: Plan, s: State)
    requires Dependencies(p) && Sound(s.db) && Upgrade(p, s).Some?
    ensures var f := CreatedFrom(p, s.db);
            && (EvaluationStatus in f.created.enums ==> f.column)
            && (EvaluationDimension in f.created.enums ==> RfqEvaluationCriteria in f.created.tables)
            && (RfqEvaluationCriteria in f.created.tables ==> RfqResponseEvaluations in f.created.tables)
  {
    var start := Prepared(s.db);
    PreparedIsSound(s.db);
    if RfqEvaluationCriteria !in s.db.tables {
      ReferrersWereMissing(false, start, p.tables, p.shapes, RfqEvaluationCriteria, RfqResponseEvaluations);
    }
    if EvaluationDimension !in s.db.enums {
      UsersWereMissing(false, s.db, start, p.tables, p.shapes, EvaluationDimension, RfqEvaluationCriteria);
    }
  }

  // ----- the revision on enums, the column, tables and rows -----

  /** The responses with the status column that the revision adds, where it is missing. */
  function Responses(was: Table): Table {
    if "evaluation_status" in was.shape.columns then was
    else
      Table(Shape(was.shape.columns["evaluation_status" := Column(EnumOf(EvaluationStatus), false)], was.shape.checks,
                  was.shape.uniques, was.shape.indexes, was.shape.primaryKey, was.shape.fks), was.rows)
  }

  /** Both enums under their labels and the status column in place. */
  function InPlace(db: Db): Db
    requires RfqResponses in db.tables
  {
    Db(db.enums[EvaluationDimension := ["TECHNICAL", "COMMERCIAL"]]
               [EvaluationStatus := ["NOT_EVALUATED", "QUALIFIED", "DISQUALIFIED"]],
       db.tables[RfqResponses := Responses(db.tables[RfqResponses])])
  }

  lemma PreparedIsInPlace(db: Db)
    requires RfqResponses in db.tables
    ensures Prepared(db).tables == InPlace(db).tables
    ensures EnumsFit(WithEnums(db)) ==> Prepared(db).enums == InPlace(db).enums
  {
    assert db.tables == db.tables[RfqResponses := db.tables[RfqResponses]];
    if EnumsFit(WithEnums(db)) {
      assert WithEnums(db).enums == InPlace(db).enums;
    }
  }

  lemma EnumsFitIff(db: Db)
    ensures EnumsFit(WithEnums(db)) <==>
            && (EvaluationDimension in db.enums ==> db.enums[EvaluationDimension] == ["TECHNICAL", "COMMERCIAL"])
            && (EvaluationStatus in db.enums ==>
                  db.enums[EvaluationStatus] == ["NOT_EVALUATED", "QUALIFIED", "DISQUALIFIED"])
  {
  }

  /**
   The upgrade goes through exactly on a database with the three tables it builds on, without the ownership table, on
   which each enum is missing or has the revision's labels, the status column is missing or defined as the revision
   defines it, and each of the two tables can be had.
   */
  lemma UpgradeSucceedsIff(p: Plan, s: State)
    requires Workable(p)
    ensures Upgrade(p, s).Some? <==>
            && RfqResponses in s.db.tables && RfqRequests in s.db.tables && Users in s.db.tables
            && s.marker.NoMarker?
            && (EvaluationDimension in s.db.enums ==>
                  s.db.enums[EvaluationDimension] == ["TECHNICAL", "COMMERCIAL"])
            && (EvaluationStatus in s.db.enums ==>
                  s.db.enums[EvaluationStatus] == ["NOT_EVALUATED", "QUALIFIED", "DISQUALIFIED"])
            && (var columns := s.db.tables[RfqResponses].shape.columns;
                "evaluation_status" in columns ==>
                  columns["evaluation_status"] == Column(EnumOf(EvaluationStatus), false))
            && (forall i :: 0 <= i < |p.tables| ==> CanEnsure(false, InPlace(s.db), p.tables, p.shapes, i))
  {
    EnumsFitIff(s.db);
    if RfqResponses in s.db.tables {
      EnsureListSucceedsIff(false, Prepared(s.db), p.tables, p.shapes);
      PreparedIsInPlace(s.db);
    }
  }

  /** Then every table, the column and the enums are there as defined, with every reference and type in place. */
  lemma UpgradeDelivers(p: Plan, s: State)
    requires Workable(p) && Sound(s.db) && Upgrade(p, s).Some?
    ensures var s' := Upgrade(p, s).value;
            && (forall i :: 0 <= i < |p.tables| ==> Has(s'.db, p.tables[i], p.shapes[p.tables[i]]))
            && EvaluationDimension in s'.db.enums && s'.db.enums[EvaluationDimension] == ["TECHNICAL", "COMMERCIAL"]
            && EvaluationStatus in s'.db.enums
            && s'.db.enums[EvaluationStatus] == ["NOT_EVALUATED", "QUALIFIED", "DISQUALIFIED"]
            && RfqResponses in s'.db.tables
            && "evaluation_status" in s'.db.tables[RfqResponses].shape.columns
            && s'.db.tables[RfqResponses].shape.columns["evaluation_status"] == Column(EnumOf(EvaluationStatus), false)
            && Sound(s'.db)
  {
    PreparedIsSound(s.db);
    PreparedIsInPlace(s.db);
    EnsuredTablesAreThere(false, Prepared(s.db), p.tables, p.shapes);
    EnsureListKeepsSound(false, Prepared(s.db), p.tables, p.shapes);
    UpgradeBuilds(p, s);
  }

  /** The ownership row names exactly what was missing. */
  lemma UpgradeRecords(p: Plan, s: State)
    requires Workable(p) && Sound(s.db) && Upgrade(p, s).Some?
    ensures var marker := Upgrade(p, s).value.marker;
            && RfqResponses in s.db.tables && marker.Marker? && marker.row.Some?
            && var f := marker.row.value;
            && (forall t :: t in f.created.tables <==> t in p.tables && t !in s.db.tables)
            && (forall e :: e in f.created.enums <==>
                            (e == EvaluationDimension || e == EvaluationStatus) && e !in s.db.enums)
            && (f.column <==> "evaluation_status" !in s.db.tables[RfqResponses].shape.columns)
  {
    UpgradeBuilds(p, s);
  }

  /** Nothing else has changed: of the responses only the column is new, and then none of them is evaluated. */
  lemma UpgradeAddsOnly(p: Plan, s: State)
    requires Workable(p) && Sound(s.db) && Upgrade(p, s).Some?
    ensures var s' := Upgrade(p, s).value;
            && RfqResponses in s.db.tables
            && (forall t :: t in s'.db.tables <==> t in s.db.tables || t in p.tables)
            && (forall t :: t in s.db.tables ==>
                  s'.db.tables[t] == if t == RfqResponses then Responses(s.db.tables[t]) else s.db.tables[t])
            && (forall t :: t in p.tables && t !in s.db.tables ==>
                  t in p.shapes && s'.db.tables[t] == Table(p.shapes[t], 0))
            && (forall e :: e in s'.db.enums <==> e in s.db.enums || e == EvaluationDimension || e == EvaluationStatus)
            && (forall e :: e in s.db.enums ==> s'.db.enums[e] == s.db.enums[e])
            && s'.evaluated ==
               if "evaluation_status" in s.db.tables[RfqResponses].shape.columns then s.evaluated else 0
  {
    UpgradeBuilds(p, s);
    PreparedKeeps(s.db);
    PreparedIsInPlace(s.db);
    forall t | t in p.tables ensures t in Names(p.tables) {
    }
  }

  /** The responses without the status column. */
  function Stripped(was: Table): Table {
    Table(Shape(was.shape.columns - {"evaluation_status"}, was.shape.checks, was.shape.uniques, was.shape.indexes,
                was.shape.primaryKey, was.shape.fks), was.rows)
  }

  lemma DropStatusIs(db: Db)
    requires DropStatus(db).Some?
    ensures RfqResponses in db.tables
    ensures DropStatus(db).value ==
            Db(db.enums, db.tables[RfqResponses := Stripped(db.tables[RfqResponses])])
    ensures Sound(db) ==> Sound(DropStatus(db).value)
  {
    var after := DropStatus(db).value;
    forall t, c | Sound(db) && t in after.tables && c in after.tables[t].shape.columns
      ensures c in db.tables[t].shape.columns && after.tables[t].shape.columns[c] == db.tables[t].shape.columns[c]
    {
    }
    forall t, fk | Sound(db) && t in after.tables && fk in after.tables[t].shape.fks ensures fk.ref in after.tables {
      assert fk in db.tables[t].shape.fks;
    }
  }

  /**
   Any downgrade that goes through, whatever its ownership row claims: it found no row in a table it dropped and no
   evaluated response where it dropped the column, and dropped what the row claims and nothing else.
   */
  lemma DowngradeTakesOnly(p: Plan, s: State)
    requires Workable(p) && Downgrade(p, s).Some?
    ensures s.marker.Marker? && s.marker.row.Some?
    ensures var f, s' := s.marker.row.value, Downgrade(p, s).value;
            && s'.marker == NoMarker
            && (forall t :: t in f.created.tables && t in p.tables && t in s.db.tables ==> s.db.tables[t].rows == 0)
            && (f.column ==> s.evaluated == 0)
            && s'.evaluated == s.evaluated
            && (forall t :: t in s'.db.tables <==> t in s.db.tables && !(t in f.created.tables && t in p.tables))
            && (forall t :: t in s'.db.tables ==>
                  s'.db.tables[t] == if f.column && t == RfqResponses then Stripped(s.db.tables[t])
                                     else s.db.tables[t])
            && (forall e :: e in s'.db.enums <==>
                  e in s.db.enums && !(e in f.created.enums && (e == EvaluationDimension || e == EvaluationStatus)))
            && (forall e :: e in s'.db.enums ==> s'.db.enums[e] == s.db.enums[e])
            && (Sound(s.db) ==> Sound(s'.db))
  {
    var f := s.marker.row.value;
    DropCreatedIs(s.db, f.created.tables, p.tables);
    var dropped := DropCreated(s.db, f.created.tables, p.tables).value;
    if Sound(s.db) { DropCreatedKeepsSound(s.db, f.created.tables, p.tables); }
    forall t | t in f.created.tables && t in p.tables && t in s.db.tables ensures s.db.tables[t].rows == 0 {
      assert t in f.created.tables * Names(p.tables);
    }
    if f.column { DropStatusIs(dropped); }
    var plain := if f.column then DropStatus(dropped).value else dropped;
    DropEnumsIs(plain, f.created.enums, ENUMS);
    if Sound(s.db) { DropEnumsKeepsSound(plain, f.created.enums, ENUMS); }
  }

  // ----- the migration itself -----

  class Migration {
    const plan: Plan
    var state: State

    constructor (plan: Plan, state: State)
      ensures this.plan == plan && this.state == state
    {
      this.plan, this.state := plan, state;
    }

    method Up(orders: map<TableName, seq<string>>) returns (ok: bool)
      requires Workable(plan) && IndexOrders(plan.tables, plan.shapes, orders)
      modifies this`state
      ensures ok <==> Upgrade(plan, old(state)).Some?
      ensures state == if ok then Upgrade(plan, old(state)).value else old(state)
    {
      var db := state.db;
      if RfqResponses !in db.tables || RfqRequests !in db.tables || Users !in db.tables { return false; }
      if state.marker != NoMarker { return false; }
      var enumsBefore := db.enums.Keys;
      db := WithEnums(db);
      if !EnumsFit(db) { return false; }
      var column := STATUS_COLUMN !in db.tables[RfqResponses].shape.columns;
      if column {
        db := WithStatus(db);
      } else if db.tables[RfqResponses].shape.columns[STATUS_COLUMN] != STATUS_DEFINITION {
        return false;
      }
      assert db == Prepared(state.db);
      assert db.tables.Keys == state.db.tables.Keys;
      var session := new Session(db);
      var tables: set<TableName>;
      ok, tables := EnsureInOrder(session, false, plan.tables, plan.shapes, orders);
      if ok {
        state := State(session.db, if column then 0 else state.evaluated,
                       Marker(Some(Flags(Created({EvaluationDimension, EvaluationStatus} - enumsBefore, tables),
                                         column))));
      }
    }

    /** Tables are checked and dropped one by one, before the column and the enums. */
    method Down() returns (ok: bool)
      modifies this`state
      ensures ok <==> Downgrade(plan, old(state)).Some?
      ensures state == if ok then Downgrade(plan, old(state)).value else old(state)
    {
      if state.marker.NoMarker? || state.marker.row.None? { return false; }
      var f := state.marker.row.value;
      var now := CheckAndDropInReverse(state.db, f.created.tables, plan.tables);
      if now.None? { return false; }
      if f.column {
        if state.evaluated > 0 { return false; }
        now := DropStatus(now.value);
        if now.None? { return false; }
      }
      now := DropEnumsInOrder(now.value, f.created.enums, ENUMS);
      ok := now.Some?;
      if ok {
        state := State(now.value, if f.column then 0 else state.evaluated, NoMarker);
      }
    }
  }
}
