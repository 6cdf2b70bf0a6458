/**
 The part of a PostgreSQL catalogue that the RFQ migrations inspect, adopt, create and drop: enums, tables with
 their shapes, and how many rows a table holds.
 */
module Catalog {

  datatype Option<+T> = None | Some(value: T)

  datatype TableName =
    | RfqRequests | RfqResponses | RfqRequestLines | ApprovalRules | Users
    | RfqAwards | RfqResponseLineQuotes | RfqAwardAllocations | RfqAwardApprovals
    | RfqEvaluationCriteria | RfqResponseEvaluations
    | OtherTable(name: string)

  datatype EnumName =
    | AwardStatus | AwardApprovalStatus | EvaluationDimension | EvaluationStatus | OtherEnum(name: string)

  datatype Kind =
    | Uuid | Varchar(length: nat) | Numeric(precision: nat, scale: nat) | Integer | Boolean | Timestamp
    | EnumOf(enumName: EnumName) | OtherKind(sql: string)

  datatype Column = Column(kind: Kind, nullable: bool)

  datatype OnDelete = Cascade | Restrict | SetNull | NoAction

  datatype ForeignKey = ForeignKey(col: string, ref: TableName, target: string, onDelete: OnDelete)

  /** Check expressions are kept in the normal form in which the migrations compare them. */
  datatype Shape = Shape(
    columns: map<string, Column>,
    checks: map<string, string>,
    uniques: map<string, seq<string>>,
    indexes: map<string, seq<string>>,
    primaryKey: seq<string>,
    fks: set<ForeignKey>)

  datatype Table = Table(shape: Shape, rows: nat)

  datatype Db = Db(enums: map<EnumName, seq<string>>, tables: map<TableName, Table>)

  /** Every entry of `required` is in `actual` with the same definition. */
  predicate Covers<K, V(==)>(actual: map<K, V>, required: map<K, V>) {
    forall k :: k in required ==> k in actual && actual[k] == required[k]
  }

  /** `_validate_table`; `exact` demands the very set of columns, as revision 0008 does and 0007 does not. */
  predicate Compatible(exact: bool, expected: Shape, actual: Shape) {
    && (exact ==> actual.columns.Keys == expected.columns.Keys)
    && Covers(actual.columns, expected.columns)
    && Covers(actual.checks, expected.checks)
    && Covers(actual.uniques, expected.uniques)
    && Covers(actual.indexes, expected.indexes)
    && actual.primaryKey == expected.primaryKey
    && expected.fks <= actual.fks
  }

  predicate Refers(shape: Shape, t: TableName) {
    exists fk :: fk in shape.fks && fk.ref == t
  }

  predicate Uses(shape: Shape, e: EnumName) {
    exists c :: c in shape.columns && shape.columns[c].kind == EnumOf(e)
  }

  /** Referential integrity of a catalogue: keys refer to tables and columns use types that exist. */
  predicate Sound(db: Db) {
    && (forall t, fk :: t in db.tables && fk in db.tables[t].shape.fks ==> fk.ref in db.tables)
    && (forall t, c :: (t in db.tables && c in db.tables[t].shape.columns &&
                        db.tables[t].shape.columns[c].kind.EnumOf?) ==>
          db.tables[t].shape.columns[c].kind.enumName in db.enums)
  }

  predicate IndexTaken(db: Db, name: string) {
    exists t :: t in db.tables && (name in db.tables[t].shape.uniques || name in db.tables[t].shape.indexes)
  }

  /** Everything but the number of rows. */
  predicate SameSchema(a: Db, b: Db) {
    && a.enums == b.enums
    && a.tables.Keys == b.tables.Keys
    && forall t :: t in a.tables ==> a.tables[t].shape == b.tables[t].shape
  }

  // ----- DDL; None is an error, which ends the migration and its transaction -----

  /** A new table needs the tables it refers to and the types it uses. */
  predicate Creatable(db: Db, t: TableName, shape: Shape) {
    && (forall fk :: fk in shape.fks ==> fk.ref in db.tables || fk.ref == t)
    && (forall c :: c in shape.columns && shape.columns[c].kind.EnumOf? ==> shape.columns[c].kind.enumName in db.enums)
  }

  /** create_table as env.py patches it: skipped when a unique constraint's index name is taken. */
  function CreateTable(db: Db, t: TableName, shape: Shape): Option<Db> {
    if t in db.tables || (exists n :: n in shape.uniques && IndexTaken(db, n)) then Some(db)
    else if !Creatable(db, t, shape) then None
    else Some(db.(tables := db.tables[t := Table(shape.(indexes := map[]), 0)]))
  }

  /** create_index as env.py patches it: skipped without its table or when the name is taken on any table. */
  function CreateIndex(db: Db, t: TableName, name: string, cols: seq<string>): Db {
    if t !in db.tables || IndexTaken(db, name) then db
    else
      var table := db.tables[t];
      db.(tables := db.tables[t := table.(shape := table.shape.(indexes := table.shape.indexes[name := cols]))])
  }

  /** Without CASCADE a table that another table refers to cannot be dropped. */
  function DropTable(db: Db, t: TableName): Option<Db> {
    if t !in db.tables || (exists u :: u in db.tables && u != t && Refers(db.tables[u].shape, t)) then None
    else Some(db.(tables := db.tables - {t}))
  }

  /** ENUM.drop(checkfirst=True): nothing to do when absent, an error when a column uses it. */
  function DropEnum(db: Db, e: EnumName): Option<Db> {
    if e !in db.enums then Some(db)
    else if exists t :: t in db.tables && Uses(db.tables[t].shape, e) then None
    else Some(db.(enums := db.enums - {e}))
  }

  /** ENUM.create(checkfirst=True). */
  function CreateEnum(db: Db, e: EnumName, labels: seq<string>): Db {
    if e in db.enums then db else db.(enums := db.enums[e := labels])
  }

  // ----- the DDL on tables, types and names -----

  /** What `_validate_table` demands, definition by definition. */
  lemma CompatibleIff(exact: bool, expected: Shape, actual: Shape)
    ensures Compatible(exact, expected, actual) <==>
            && (exact ==> forall c :: c in actual.columns ==> c in expected.columns)
            && (forall c :: c in expected.columns ==> c in actual.columns && actual.columns[c] == expected.columns[c])
            && (forall c :: c in expected.checks ==> c in actual.checks && actual.checks[c] == expected.checks[c])
            && (forall u :: u in expected.uniques ==> u in actual.uniques && actual.uniques[u] == expected.uniques[u])
            && (forall n :: n in expected.indexes ==> n in actual.indexes && actual.indexes[n] == expected.indexes[n])
            && actual.primaryKey == expected.primaryKey
            && (forall fk :: fk in expected.fks ==> fk in actual.fks)
  {
  }

  /** A new table goes in without its indexes, unless a table, a name, a reference or a type stands in the way. */
  lemma CreateTableIs(db: Db, t: TableName, shape: Shape)
    ensures CreateTable(db, t, shape) ==
            if || t in db.tables
               || (exists n, u :: n in shape.uniques && u in db.tables &&
                                  (n in db.tables[u].shape.uniques || n in db.tables[u].shape.indexes)) then Some(db)
            else if || (exists fk :: fk in shape.fks && fk.ref != t && fk.ref !in db.tables)
                    || (exists c :: c in shape.columns && shape.columns[c].kind.EnumOf? &&
                                    shape.columns[c].kind.enumName !in db.enums) then None
            else Some(Db(db.enums, db.tables[t := Table(
              Shape(shape.columns, shape.checks, shape.uniques, map[], shape.primaryKey, shape.fks), 0)]))
  {
    if n :| n in shape.uniques && IndexTaken(db, n) {
      var u :| u in db.tables && (n in db.tables[u].shape.uniques || n in db.tables[u].shape.indexes);
    }
    if n, u :| n in shape.uniques && u in db.tables &&
               (n in db.tables[u].shape.uniques || n in db.tables[u].shape.indexes) {
      assert IndexTaken(db, n);
    }
  }

  /** An index goes on its table, under a name that no index or unique constraint of any table has. */
  lemma CreateIndexIs(db: Db, t: TableName, name: string, cols: seq<string>)
    ensures CreateIndex(db, t, name, cols) ==
            if || t !in db.tables
               || (exists u :: u in db.tables &&
                               (name in db.tables[u].shape.uniques || name in db.tables[u].shape.indexes)) then db
            else
              var was := db.tables[t];
              Db(db.enums, db.tables[t := Table(
                Shape(was.shape.columns, was.shape.checks, was.shape.uniques, was.shape.indexes[name := cols],
                      was.shape.primaryKey, was.shape.fks), was.rows)])
  {
  }

  /** A table is dropped exactly when it is there and no other refers to it, a type when no column uses it. */
  lemma DropsAre(db: Db, t: TableName, e: EnumName, labels: seq<string>)
    ensures DropTable(db, t) ==
            if || t !in db.tables
               || (exists u, fk :: u in db.tables && u != t && fk in db.tables[u].shape.fks && fk.ref == t) then None
            else Some(Db(db.enums, db.tables - {t}))
    ensures DropEnum(db, e) ==
            if e !in db.enums then Some(db)
            else if exists u, c :: u in db.tables && c in db.tables[u].shape.columns &&
                                   db.tables[u].shape.columns[c].kind == EnumOf(e) then None
            else Some(Db(db.enums - {e}, db.tables))
    ensures CreateEnum(db, e, labels) == if e in db.enums then db else Db(db.enums[e := labels], db.tables)
  {
    if u, fk :| u in db.tables && u != t && fk in db.tables[u].shape.fks && fk.ref == t {
      assert Refers(db.tables[u].shape, t);
    }
    if u, c :| u in db.tables && c in db.tables[u].shape.columns &&
               db.tables[u].shape.columns[c].kind == EnumOf(e) {
      assert Uses(db.tables[u].shape, e);
    }
  }

  /** Neither kind of drop leaves a key or a column without what it refers to. */
  lemma DropsKeepSound(db: Db, t: TableName, e: EnumName)
    requires Sound(db)
    ensures DropTable(db, t).Some? ==> Sound(DropTable(db, t).value)
    ensures DropEnum(db, e).Some? ==> Sound(DropEnum(db, e).value)
  {
    if DropTable(db, t).Some? {
      var after := DropTable(db, t).value;
      forall u, fk | u in after.tables && fk in after.tables[u].shape.fks ensures fk.ref in after.tables {
        assert u in db.tables && fk in db.tables[u].shape.fks;
        assert !Refers(db.tables[u].shape, t) || u == t;
      }
    }
    if DropEnum(db, e).Some? {
      var after := DropEnum(db, e).value;
      forall u, c | u in after.tables && c in after.tables[u].shape.columns &&
                    after.tables[u].shape.columns[c].kind.EnumOf?
        ensures after.tables[u].shape.columns[c].kind.enumName in after.enums
      {
        assert after.tables[u].shape.columns[c].kind == EnumOf(after.tables[u].shape.columns[c].kind.enumName);
        assert e in db.enums ==> !Uses(db.tables[u].shape, e);
      }
    }
  }

  /** A table that the database can have at all, with names of its own, can be added, and keeps every reference. */
  lemma EnsureKeepsSound(exact: bool, db: Db, t: TableName, shape: Shape)
    requires Sound(db) && Ensure(exact, db, t, shape).Some?
    ensures Sound(Ensure(exact, db, t, shape).value)
  {
  }

  // ----- adopting or creating one table -----

  predicate NamesFree(db: Db, shape: Shape) {
    && (forall n :: n in shape.uniques ==> !IndexTaken(db, n))
    && (forall n :: n in shape.indexes ==> !IndexTaken(db, n) && n !in shape.uniques)
  }

  /** What `_ensure_table` leaves behind: an adopted table as it was, or the expected one, empty. */
  function Ensure(exact: bool, db: Db, t: TableName, shape: Shape): Option<Db> {
    if t in db.tables then
      if Compatible(exact, shape, db.tables[t].shape) then Some(db) else None
    else if !Creatable(db, t, shape) || !NamesFree(db, shape) then None
    else Some(db.(tables := db.tables[t := Table(shape, 0)]))
  }

  function WithTable(db: Db, t: TableName, shape: Shape): Db {
    db.(tables := db.tables[t := Table(shape, 0)])
  }

  /** The indexes of a new table that a list of create_index calls really makes. */
  function IndexesMade(before: Db, shape: Shape, order: seq<string>): map<string, seq<string>> {
    map n | n in order && n in shape.indexes && !IndexTaken(before, n) && n !in shape.uniques :: shape.indexes[n]
  }

  /** The names taken after a table is added are those taken before and its own. */
  lemma TakenWithNewTable(db: Db, t: TableName, shape: Shape, name: string)
    requires t !in db.tables
    ensures IndexTaken(WithTable(db, t, shape), name) <==>
            IndexTaken(db, name) || name in shape.uniques || name in shape.indexes
  {
    var after := WithTable(db, t, shape);
    assert after.tables[t].shape == shape;
    if IndexTaken(db, name) {
      var u :| u in db.tables && (name in db.tables[u].shape.uniques || name in db.tables[u].shape.indexes);
      assert after.tables[u] == db.tables[u];
    }
  }

  lemma MadeGrows(db: Db, shape: Shape, order: seq<string>, name: string)
    requires name in shape.indexes && name !in order
    ensures name !in IndexesMade(db, shape, order)
    ensures IndexesMade(db, shape, order + [name]) ==
            if IndexTaken(db, name) || name in shape.uniques then IndexesMade(db, shape, order)
            else IndexesMade(db, shape, order)[name := shape.indexes[name]]
  {
  }

  lemma ReplaceTable(db: Db, t: TableName, a: Shape, b: Shape)
    ensures WithTable(WithTable(db, t, a), t, b) == WithTable(db, t, b)
  {
  }

  lemma OneIndexMade(db: Db, t: TableName, shape: Shape, order: seq<string>, name: string)
    requires t !in db.tables && name in shape.indexes && name !in order
    ensures CreateIndex(WithTable(db, t, shape.(indexes := IndexesMade(db, shape, order))), t, name,
            shape.indexes[name])
            == WithTable(db, t, shape.(indexes := IndexesMade(db, shape, order + [name])))
  {
    MadeGrows(db, shape, order, name);
    var made := shape.(indexes := IndexesMade(db, shape, order));
    TakenWithNewTable(db, t, made, name);
    ReplaceTable(db, t, made, made.(indexes := made.indexes[name := shape.indexes[name]]));
    CreateIndexOnNew(db, t, made, name, shape.indexes[name]);
  }

  lemma CreateIndexOnNew(db: Db, t: TableName, shape: Shape, name: string, cols: seq<string>)
    ensures CreateIndex(WithTable(db, t, shape), t, name, cols) ==
            if IndexTaken(WithTable(db, t, shape), name) then WithTable(db, t, shape)
            else WithTable(WithTable(db, t, shape), t, shape.(indexes := shape.indexes[name := cols]))
  {
  }

  lemma AllIndexesMade(exact: bool, db: Db, shape: Shape, order: seq<string>)
    requires forall n :: n in shape.indexes <==> n in order
    ensures NamesFree(db, shape.(uniques := map[])) && shape.indexes.Keys !! shape.uniques.Keys ==>
              IndexesMade(db, shape, order) == shape.indexes
    ensures Compatible(exact, shape, shape.(indexes := IndexesMade(db, shape, order))) ==>
              forall n :: n in shape.indexes ==> !IndexTaken(db, n) && n !in shape.uniques
  {
    var made := IndexesMade(db, shape, order);
    if Covers(made, shape.indexes) {
      forall n | n in shape.indexes ensures !IndexTaken(db, n) && n !in shape.uniques {
        assert n in made;
      }
    }
  }

  /** A catalogue a migration works on inside one transaction. */
  class Session {
    var db: Db

    constructor (db: Db)
      ensures this.db == db
    {
      this.db := db;
    }

    /** The create_index calls that follow create_table; all are skipped when that was. */
    method CreateIndexes(t: TableName, shape: Shape, order: seq<string>, ghost before: Db)
      requires t !in before.tables && (t in db.tables ==> db == WithTable(before, t, shape.(indexes := map[])))
      requires forall n :: n in shape.indexes <==> n in order
      requires forall i, j :: 0 <= i < j < |order| ==> order[i] != order[j]
      modifies this
      ensures db == if t in old(db).tables then
                  WithTable(before, t, shape.(indexes := IndexesMade(before, shape, order)))
                    else old(db)
    {
      assert IndexesMade(before, shape, []) == map[];
      for i := 0 to |order|
        invariant db == if t in old(db).tables then
                          WithTable(before, t, shape.(indexes := IndexesMade(before, shape, order[..i])))
                        else old(db)
      {
        assert order[..i+1] == order[..i] + [order[i]];
        OneIndexMade(before, t, shape, order[..i], order[i]);
        db := CreateIndex(db, t, order[i], shape.indexes[order[i]]);
      }
      assert order[..|order|] == order;
    }

    /** Creates the table unless it is there, then its indexes one by one, then validates; false is RuntimeError. */
    method EnsureTable(exact: bool, t: TableName, shape: Shape, order: seq<string>) returns (ok: bool, created: bool)
      requires forall n :: n in shape.indexes <==> n in order
      requires forall i, j :: 0 <= i < j < |order| ==> order[i] != order[j]
      modifies this
      ensures ok <==> Ensure(exact, old(db), t, shape).Some?
      ensures ok ==> db == Ensure(exact, old(db), t, shape).value && created == (t !in old(db).tables)
    {
      created := t !in db.tables;
      if created {
        ghost var before := db;
        var made := CreateTable(db, t, shape);
        if made.None? { return false, created; }
        db := made.value;
        CreateIndexes(t, shape, order, before);
        CreatedTable(exact, before, t, shape, order);
      }
      ok := t in db.tables && Compatible(exact, shape, db.tables[t].shape);
    }
  }

  /** Creating and indexing a missing table passes validation exactly when no index name was taken. */
  lemma CreatedTable(exact: bool, db: Db, t: TableName, shape: Shape, order: seq<string>)
    requires t !in db.tables && CreateTable(db, t, shape).Some?
    requires forall n :: n in shape.indexes <==> n in order
    ensures var after := WithTable(db, t, shape.(indexes := IndexesMade(db, shape, order)));
            if t !in CreateTable(db, t, shape).value.tables then Ensure(exact, db, t, shape).None?
            else if Compatible(exact, shape, after.tables[t].shape) then Ensure(exact, db, t, shape) == Some(after)
            else Ensure(exact, db, t, shape).None?
  {
    AllIndexesMade(exact, db, shape, order);
    if t in CreateTable(db, t, shape).value.tables {
      assert forall n :: n in shape.uniques ==> !IndexTaken(db, n);
      if NamesFree(db, shape) {
        assert IndexesMade(db, shape, order) == shape.indexes;
        assert shape.(indexes := shape.indexes) == shape;
      }
    }
  }
}
