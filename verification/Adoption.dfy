/** What the adopting migrations share: ensuring a list of tables in order and dropping the created ones in reverse. */
module Adoption {
  import opened Catalog

  /** The names whose flag in the ownership row is true. */
  datatype Created = Created(enums: set<EnumName>, tables: set<TableName>)

  /** The ownership table: absent, or present with or without its row id = 1. */
  datatype Marker<+F> = NoMarker | Marker(row: Option<F>)

  type Shapes = map<TableName, Shape>

  function Names(ts: seq<TableName>): set<TableName> {
    set t | t in ts
  }

  /** The expected tables: each has a shape, none comes twice, and keys refer to earlier ones or to other tables. */
  predicate Ordered(ts: seq<TableName>, shapes: Shapes) {
    && (forall i :: 0 <= i < |ts| ==> ts[i] in shapes)
    && (forall i, j :: 0 <= i < j < |ts| ==> ts[i] != ts[j])
    && (forall i, fk :: 0 <= i < |ts| && fk in shapes[ts[i]].fks ==> fk.ref !in ts[i..])
  }

  function EnsureList(exact: bool, db: Db, ts: seq<TableName>, shapes: Shapes): Option<Db>
    requires forall i :: 0 <= i < |ts| ==> ts[i] in shapes
    decreases |ts|
  {
    if ts == [] then Some(db)
    else
      var next := Ensure(exact, db, ts[0], shapes[ts[0]]);
      if next.None? then None else EnsureList(exact, next.value, ts[1..], shapes)
  }

  /** `now` is `start` with an empty expected table for each of `done` that was missing; the others were accepted. */
  predicate Built(exact: bool, start: Db, now: Db, done: set<TableName>, shapes: Shapes)
    requires done <= shapes.Keys
  {
    && now.enums == start.enums
    && now.tables.Keys == start.tables.Keys + done
    && (forall t :: t in start.tables ==> now.tables[t] == start.tables[t])
    && (forall t :: t in done && t !in start.tables ==> now.tables[t] == Table(shapes[t], 0))
    && (forall t :: t in done && t in start.tables ==> Compatible(exact, shapes[t], start.tables[t].shape))
  }

  lemma OneBuilt(exact: bool, start: Db, now: Db, done: set<TableName>, t: TableName, shapes: Shapes)
    requires done <= shapes.Keys && t in shapes && t !in done
    requires Built(exact, start, now, done, shapes) && Ensure(exact, now, t, shapes[t]).Some?
    ensures Built(exact, start, Ensure(exact, now, t, shapes[t]).value, done + {t}, shapes)
  {
  }

  lemma {:induction false} ListBuilt(exact: bool, start: Db, now: Db, done: set<TableName>, ts: seq<TableName>,
      shapes: Shapes)
    requires done <= shapes.Keys && (forall i :: 0 <= i < |ts| ==> ts[i] in shapes && ts[i] !in done)
    requires forall i, j :: 0 <= i < j < |ts| ==> ts[i] != ts[j]
    requires Built(exact, start, now, done, shapes) && EnsureList(exact, now, ts, shapes).Some?
    ensures Names(ts) <= shapes.Keys
    ensures Built(exact, start, EnsureList(exact, now, ts, shapes).value, done + Names(ts), shapes)
    decreases |ts|
  {
    if ts == [] {
      assert done + Names(ts) == done;
    } else {
      OneBuilt(exact, start, now, done, ts[0], shapes);
      var next := Ensure(exact, now, ts[0], shapes[ts[0]]).value;
      ListBuilt(exact, start, next, done + {ts[0]}, ts[1..], shapes);
      assert done + {ts[0]} + Names(ts[1..]) == done + Names(ts);
    }
  }

  /** Ensuring the list on a catalogue: nothing that was there changes, and what is new is as expected and empty. */
  lemma EnsureListBuilds(exact: bool, start: Db, ts: seq<TableName>, shapes: Shapes)
    requires Ordered(ts, shapes) && EnsureList(exact, start, ts, shapes).Some?
    ensures Names(ts) <= shapes.Keys
    ensures Built(exact, start, EnsureList(exact, start, ts, shapes).value, Names(ts), shapes)
  {
    ListBuilt(exact, start, start, {}, ts, shapes);
    assert {} + Names(ts) == Names(ts);
  }

  /** If a table was missing, so was every expected table that refers to it: ownership is closed under reference. */
  lemma ReferrersWereMissing(exact: bool, start: Db, ts: seq<TableName>, shapes: Shapes, t: TableName, u: TableName)
    requires Sound(start) && Ordered(ts, shapes) && EnsureList(exact, start, ts, shapes).Some?
    requires t !in start.tables && u in ts && Refers(shapes[u], t)
    ensures u !in start.tables
  {
    EnsureListBuilds(exact, start, ts, shapes);
    assert u in Names(ts);
  }

  /** If an enum was missing, so was every expected table that uses it. */
  lemma UsersWereMissing(exact: bool, before: Db, start: Db, ts: seq<TableName>, shapes: Shapes, e: EnumName,
      u: TableName)
    requires Sound(before) && (u in start.tables ==> u in before.tables && start.tables[u] == before.tables[u])
    requires Ordered(ts, shapes) && EnsureList(exact, start, ts, shapes).Some?
    requires e !in before.enums && u in ts && Uses(shapes[u], e)
    ensures u !in start.tables
  {
    EnsureListBuilds(exact, start, ts, shapes);
    assert u in Names(ts);
  }

  predicate HoldsRows(db: Db, ts: set<TableName>) {
    exists t :: t in ts && t in db.tables && db.tables[t].rows > 0
  }

  /** Drops the created tables of the list, last one first. */
  function DropCreated(db: Db, created: set<TableName>, ts: seq<TableName>): Option<Db>
    decreases |ts|
  {
    if ts == [] then Some(db)
    else
      var t := ts[|ts|-1];
      if t in created && t in db.tables then
        var next := DropTable(db, t);
        if next.None? then None else DropCreated(next.value, created, ts[..|ts|-1])
      else DropCreated(db, created, ts[..|ts|-1])
  }

  /** `now` has the tables of `start`, with today's rows, and the created ones among `ts`. */
  predicate Later(start: Db, now: Db, created: set<TableName>, ts: seq<TableName>, shapes: Shapes)
    requires created <= shapes.Keys
  {
    && now.tables.Keys == start.tables.Keys + created * Names(ts)
    && (forall t :: t in start.tables ==> now.tables[t].shape == start.tables[t].shape)
    && (forall t :: t in created * Names(ts) ==> now.tables[t].shape == shapes[t])
  }

  lemma LastIsUnreferenced(start: Db, now: Db, created: set<TableName>, ts: seq<TableName>, shapes: Shapes)
    requires Sound(start) && Ordered(ts, shapes) && created <= shapes.Keys && created !! start.tables.Keys
    requires Later(start, now, created, ts, shapes) && ts != [] && ts[|ts|-1] in created
    ensures DropTable(now, ts[|ts|-1]) == Some(now.(tables := now.tables - {ts[|ts|-1]}))
  {
    var t := ts[|ts|-1];
    assert t in created * Names(ts);
    forall u | u in now.tables && u != t ensures !Refers(now.tables[u].shape, t) {
      if u !in start.tables {
        var i :| 0 <= i < |ts| && ts[i] == u;
        assert t in ts[i..];
      }
    }
  }

  /** The created tables can all be dropped, whatever they hold, and what is left is the start with today's rows. */
  lemma {:induction false} DropsBack(start: Db, now: Db, created: set<TableName>, ts: seq<TableName>, shapes: Shapes)
    requires Sound(start) && Ordered(ts, shapes) && created <= shapes.Keys && created !! start.tables.Keys
    requires Later(start, now, created, ts, shapes)
    ensures DropCreated(now, created, ts).Some?
    ensures var end := DropCreated(now, created, ts).value;
            && end.enums == now.enums && end.tables.Keys == start.tables.Keys
            && forall t :: t in start.tables ==> end.tables[t] == now.tables[t]
    decreases |ts|
  {
    if ts == [] {
      assert created * Names(ts) == {};
    } else {
      var t, rest := ts[|ts|-1], ts[..|ts|-1];
      assert Names(ts) == Names(rest) + {t};
      RestIsOrdered(ts, shapes);
      if t in created {
        LastIsUnreferenced(start, now, created, ts, shapes);
        var next := now.(tables := now.tables - {t});
        assert t !in Names(rest);
        assert created * Names(ts) - {t} == created * Names(rest);
        DropsBack(start, next, created, rest, shapes);
      } else {
        assert created * Names(ts) == created * Names(rest);
        DropsBack(start, now, created, rest, shapes);
      }
    }
  }

  lemma RestIsOrdered(ts: seq<TableName>, shapes: Shapes)
    requires Ordered(ts, shapes) && ts != []
    ensures Ordered(ts[..|ts|-1], shapes)
  {
    var rest := ts[..|ts|-1];
    forall i, fk | 0 <= i < |rest| && fk in shapes[rest[i]].fks ensures fk.ref !in rest[i..] {
      assert rest[i] == ts[i] && forall x :: x in rest[i..] ==> x in ts[i..];
    }
  }

  /** ENUM.drop for each created enum of the list. */
  function DropEnums(db: Db, created: set<EnumName>, es: seq<EnumName>): Option<Db>
    decreases |es|
  {
    if es == [] then Some(db)
    else if es[0] !in created then DropEnums(db, created, es[1..])
    else var next := DropEnum(db, es[0]);
         if next.None? then None else DropEnums(next.value, created, es[1..])
  }

  function Undo(db: Db, f: Created, ts: seq<TableName>, es: seq<EnumName>): Option<Db> {
    var dropped := DropCreated(db, f.tables, ts);
    if dropped.None? then None else DropEnums(dropped.value, f.enums, es)
  }

  /** The tables of `start` with today's rows, under whatever enums. */
  predicate SameTables(start: Db, now: Db) {
    now.tables.Keys == start.tables.Keys && forall t :: t in start.tables ==>
        now.tables[t].shape == start.tables[t].shape
  }

  /** An enum that was missing at the start is used by no table that was there, so a created one can be dropped. */
  lemma {:induction false} EnumsDropBack(start: Db, now: Db, created: set<EnumName>, es: seq<EnumName>)
    requires Sound(start) && SameTables(start, now) && created !! start.enums.Keys
    ensures DropEnums(now, created, es).Some?
    ensures var end := DropEnums(now, created, es).value;
            && end.tables == now.tables && end.enums.Keys == now.enums.Keys - created * (set e | e in es)
            && forall e :: e in end.enums ==> end.enums[e] == now.enums[e]
    decreases |es|
  {
    if es != [] {
      var e := es[0];
      if e in created {
        var next := DropEnum(now, e).value;
        EnumsDropBack(start, next, created, es[1..]);
      } else {
        EnumsDropBack(start, now, created, es[1..]);
      }
    }
  }

  /** Dropping everything the ownership row claims gives back the start with today's rows. */
  lemma UndoBack(start: Db, now: Db, f: Created, ts: seq<TableName>, shapes: Shapes, es: seq<EnumName>)
    requires Sound(start) && Ordered(ts, shapes) && f.tables <= shapes.Keys && f.tables !! start.tables.Keys
    requires Later(start, now, f.tables, ts, shapes)
    requires f.enums !! start.enums.Keys && (forall e :: e in f.enums ==> e in es)
    requires now.enums.Keys == start.enums.Keys + f.enums && forall e :: e in start.enums ==>
             now.enums[e] == start.enums[e]
    ensures Undo(now, f, ts, es).Some?
    ensures var end := Undo(now, f, ts, es).value;
            && SameSchema(end, start) && forall t :: t in start.tables ==> end.tables[t] == now.tables[t]
  {
    DropsBack(start, now, f.tables, ts, shapes);
    var dropped := DropCreated(now, f.tables, ts).value;
    EnumsDropBack(start, dropped, f.enums, es);
    assert f.enums * (set e | e in es) == f.enums;
  }

  // ----- exactly when a list of tables can be ensured -----

  /** No table of the catalogue has an index or unique constraint of this name. */
  predicate NameIsFree(db: Db, name: string) {
    forall u :: u in db.tables ==> name !in db.tables[u].shape.uniques && name !in db.tables[u].shape.indexes
  }

  /**
   The i-th table: one that is there fits the expected shape; a missing one refers to tables that are there or come
   before it, uses types that are there, and has names that neither these tables nor its other names take.
   */
  predicate CanEnsure(exact: bool, db: Db, ts: seq<TableName>, shapes: Shapes, i: nat)
    requires i < |ts| && forall k :: 0 <= k < |ts| ==> ts[k] in shapes
  {
    var shape := shapes[ts[i]];
    if ts[i] in db.tables then Compatible(exact, shape, db.tables[ts[i]].shape)
    else
      && (forall fk :: fk in shape.fks ==> fk.ref in db.tables || fk.ref in ts[..i] || fk.ref == ts[i])
      && (forall c :: c in shape.columns && shape.columns[c].kind.EnumOf? ==>
            shape.columns[c].kind.enumName in db.enums)
      && (forall n :: n in shape.uniques.Keys + shape.indexes.Keys ==> NameIsFree(db, n))
      && (forall n, j :: n in shape.uniques.Keys + shape.indexes.Keys && 0 <= j < i && ts[j] !in db.tables ==>
            n !in shapes[ts[j]].uniques && n !in shapes[ts[j]].indexes)
      && (forall n :: n in shape.indexes ==> n !in shape.uniques)
  }

  lemma TakenIn(exact: bool, start: Db, now: Db, ts: seq<TableName>, i: nat, shapes: Shapes, n: string)
    requires i < |ts| && (forall k :: 0 <= k < |ts| ==> ts[k] in shapes) && Names(ts[..i]) <= shapes.Keys
    requires Built(exact, start, now, Names(ts[..i]), shapes)
    ensures IndexTaken(now, n) <==>
            || !NameIsFree(start, n)
            || exists j :: 0 <= j < i && ts[j] !in start.tables &&
                           (n in shapes[ts[j]].uniques || n in shapes[ts[j]].indexes)
  {
    if IndexTaken(now, n) {
      var u :| u in now.tables && (n in now.tables[u].shape.uniques || n in now.tables[u].shape.indexes);
      if u !in start.tables {
        assert u in Names(ts[..i]);
        var j :| 0 <= j < |ts[..i]| && ts[..i][j] == u;
        assert ts[j] !in start.tables;
      }
    }
    if u :| u in start.tables && (n in start.tables[u].shape.uniques || n in start.tables[u].shape.indexes) {
      assert now.tables[u] == start.tables[u];
    }
    if j :| 0 <= j < i && ts[j] !in start.tables && (n in shapes[ts[j]].uniques || n in shapes[ts[j]].indexes) {
      assert ts[..i][j] == ts[j];
      assert now.tables[ts[j]] == Table(shapes[ts[j]], 0);
    }
  }

  /** After the tables before it, the i-th can be ensured exactly under its condition on the starting catalogue. */
  lemma EnsuredIff(exact: bool, start: Db, now: Db, ts: seq<TableName>, i: nat, shapes: Shapes)
    requires Ordered(ts, shapes) && i < |ts| && Names(ts[..i]) <= shapes.Keys
    requires Built(exact, start, now, Names(ts[..i]), shapes)
    ensures Ensure(exact, now, ts[i], shapes[ts[i]]).Some? <==> CanEnsure(exact, start, ts, shapes, i)
  {
    var t, shape := ts[i], shapes[ts[i]];
    NamesGrow(ts, i);
    assert t in now.tables <==> t in start.tables;
    if t !in start.tables {
      forall n ensures IndexTaken(now, n) <==>
                       || !NameIsFree(start, n)
                       || exists j :: 0 <= j < i && ts[j] !in start.tables &&
                                      (n in shapes[ts[j]].uniques || n in shapes[ts[j]].indexes)
      {
        TakenIn(exact, start, now, ts, i, shapes, n);
      }
      NamesFreeIff(exact, start, now, ts, i, shapes);
    }
  }

  lemma NamesFreeIff(exact: bool, start: Db, now: Db, ts: seq<TableName>, i: nat, shapes: Shapes)
    requires i < |ts| && forall k :: 0 <= k < |ts| ==> ts[k] in shapes
    requires forall n :: IndexTaken(now, n) <==>
                         || !NameIsFree(start, n)
                         || exists j :: 0 <= j < i && ts[j] !in start.tables &&
                                        (n in shapes[ts[j]].uniques || n in shapes[ts[j]].indexes)
    ensures var shape := shapes[ts[i]];
            NamesFree(now, shape) <==>
            && (forall n :: n in shape.uniques.Keys + shape.indexes.Keys ==> NameIsFree(start, n))
            && (forall n, j :: n in shape.uniques.Keys + shape.indexes.Keys && 0 <= j < i && ts[j] !in start.tables ==>
                  n !in shapes[ts[j]].uniques && n !in shapes[ts[j]].indexes)
            && (forall n :: n in shape.indexes ==> n !in shape.uniques)
  {
    var shape := shapes[ts[i]];
    assert NamesFree(now, shape) <==>
           && (forall n :: n in shape.uniques.Keys + shape.indexes.Keys ==> !IndexTaken(now, n))
           && (forall n :: n in shape.indexes ==> n !in shape.uniques);
  }

  lemma {:induction false} RestEnsuredIff(exact: bool, start: Db, now: Db, ts: seq<TableName>, i: nat, shapes: Shapes)
    requires Ordered(ts, shapes) && i <= |ts| && Names(ts[..i]) <= shapes.Keys
    requires Built(exact, start, now, Names(ts[..i]), shapes)
    ensures EnsureList(exact, now, ts[i..], shapes).Some? <==>
            forall k :: i <= k < |ts| ==> CanEnsure(exact, start, ts, shapes, k)
    decreases |ts| - i
  {
    if i < |ts| {
      EnsureListOnce(exact, now, ts, i, shapes);
      EnsuredIff(exact, start, now, ts, i, shapes);
      var next := Ensure(exact, now, ts[i], shapes[ts[i]]);
      if next.Some? {
        NamesGrow(ts, i);
        OneBuilt(exact, start, now, Names(ts[..i]), ts[i], shapes);
        RestEnsuredIff(exact, start, next.value, ts, i + 1, shapes);
      }
    }
  }

  /** On any catalogue, ensuring a list of tables succeeds exactly when each of them can be had. */
  lemma EnsureListSucceedsIff(exact: bool, start: Db, ts: seq<TableName>, shapes: Shapes)
    requires Ordered(ts, shapes)
    ensures EnsureList(exact, start, ts, shapes).Some? <==>
            forall i :: 0 <= i < |ts| ==> CanEnsure(exact, start, ts, shapes, i)
  {
    assert Names(ts[..0]) == {} && ts[0..] == ts;
    RestEnsuredIff(exact, start, start, ts, 0, shapes);
  }

  // ----- what is there afterwards -----

  /** The table is there with every column, check, unique constraint, index and key expected of it. */
  predicate Has(db: Db, t: TableName, shape: Shape) {
    && t in db.tables
    && var actual := db.tables[t].shape;
    && (forall c :: c in shape.columns ==> c in actual.columns && actual.columns[c] == shape.columns[c])
    && (forall c :: c in shape.checks ==> c in actual.checks && actual.checks[c] == shape.checks[c])
    && (forall u :: u in shape.uniques ==> u in actual.uniques && actual.uniques[u] == shape.uniques[u])
    && (forall n :: n in shape.indexes ==> n in actual.indexes && actual.indexes[n] == shape.indexes[n])
    && actual.primaryKey == shape.primaryKey
    && (forall fk :: fk in shape.fks ==> fk in actual.fks)
  }

  /** When the list was ensured every table of it has its expected definition, adopted or created. */
  lemma EnsuredTablesAreThere(exact: bool, start: Db, ts: seq<TableName>, shapes: Shapes)
    requires Ordered(ts, shapes) && EnsureList(exact, start, ts, shapes).Some?
    ensures var end := EnsureList(exact, start, ts, shapes).value;
            forall i :: 0 <= i < |ts| ==>
              && Has(end, ts[i], shapes[ts[i]])
              && (exact ==> forall c :: c in end.tables[ts[i]].shape.columns ==> c in shapes[ts[i]].columns)
  {
    EnsureListBuilds(exact, start, ts, shapes);
    forall i | 0 <= i < |ts|
      ensures var end := EnsureList(exact, start, ts, shapes).value;
              && Has(end, ts[i], shapes[ts[i]])
              && (exact ==> forall c :: c in end.tables[ts[i]].shape.columns ==> c in shapes[ts[i]].columns)
    {
      assert ts[i] in Names(ts);
      if ts[i] in start.tables {
        CompatibleIff(exact, shapes[ts[i]], start.tables[ts[i]].shape);
      }
    }
  }

  lemma {:induction false} EnsureListKeepsSound(exact: bool, start: Db, ts: seq<TableName>, shapes: Shapes)
    requires Sound(start) && (forall i :: 0 <= i < |ts| ==> ts[i] in shapes)
    requires EnsureList(exact, start, ts, shapes).Some?
    ensures Sound(EnsureList(exact, start, ts, shapes).value)
    decreases |ts|
  {
    if ts != [] {
      EnsureKeepsSound(exact, start, ts[0], shapes[ts[0]]);
      EnsureListKeepsSound(exact, Ensure(exact, start, ts[0], shapes[ts[0]]).value, ts[1..], shapes);
    }
  }

  lemma {:induction false} DropCreatedKeepsSound(db: Db, created: set<TableName>, ts: seq<TableName>)
    requires Sound(db) && DropCreated(db, created, ts).Some?
    ensures Sound(DropCreated(db, created, ts).value)
    decreases |ts|
  {
    if ts != [] {
      var t, rest := ts[|ts|-1], ts[..|ts|-1];
      if t in created && t in db.tables {
        DropsKeepSound(db, t, OtherEnum(""));
        DropCreatedKeepsSound(DropTable(db, t).value, created, rest);
      } else {
        DropCreatedKeepsSound(db, created, rest);
      }
    }
  }

  lemma {:induction false} DropEnumsKeepsSound(db: Db, created: set<EnumName>, es: seq<EnumName>)
    requires Sound(db) && DropEnums(db, created, es).Some?
    ensures Sound(DropEnums(db, created, es).value)
    decreases |es|
  {
    if es != [] {
      if es[0] in created {
        DropsKeepSound(db, OtherTable(""), es[0]);
        DropEnumsKeepsSound(DropEnum(db, es[0]).value, created, es[1..]);
      } else {
        DropEnumsKeepsSound(db, created, es[1..]);
      }
    }
  }

  /** Whatever the ownership row claims: an undo that goes through leaves no reference to anything that is gone. */
  lemma UndoKeepsSound(db: Db, f: Created, ts: seq<TableName>, es: seq<EnumName>)
    requires Sound(db) && Undo(db, f, ts, es).Some?
    ensures Sound(Undo(db, f, ts, es).value)
  {
    DropCreatedKeepsSound(db, f.tables, ts);
    DropEnumsKeepsSound(DropCreated(db, f.tables, ts).value, f.enums, es);
  }

  /** An undo takes exactly the tables of the list and the enums of the list that the row claims. */
  lemma {:induction false} DropCreatedIs(db: Db, created: set<TableName>, ts: seq<TableName>)
    requires DropCreated(db, created, ts).Some?
    ensures var end := DropCreated(db, created, ts).value;
            && end.enums == db.enums
            && (forall t :: t in end.tables <==> t in db.tables && !(t in created && t in ts))
            && (forall t :: t in end.tables ==> end.tables[t] == db.tables[t])
    decreases |ts|
  {
    if ts != [] {
      var t, rest := ts[|ts|-1], ts[..|ts|-1];
      assert ts == rest + [t];
      if t in created && t in db.tables {
        DropCreatedIs(DropTable(db, t).value, created, rest);
      } else {
        DropCreatedIs(db, created, rest);
      }
    }
  }

  lemma {:induction false} DropEnumsIs(db: Db, created: set<EnumName>, es: seq<EnumName>)
    requires DropEnums(db, created, es).Some?
    ensures var end := DropEnums(db, created, es).value;
            && end.tables == db.tables
            && (forall e :: e in end.enums <==> e in db.enums && !(e in created && e in es))
            && (forall e :: e in end.enums ==> end.enums[e] == db.enums[e])
    decreases |es|
  {
    if es != [] {
      assert es == [es[0]] + es[1..];
      if es[0] in created {
        DropEnumsIs(DropEnum(db, es[0]).value, created, es[1..]);
      } else {
        DropEnumsIs(db, created, es[1..]);
      }
    }
  }

  // ----- the loops of the migrations -----

  predicate IndexOrders(ts: seq<TableName>, shapes: Shapes, orders: map<TableName, seq<string>>)
    requires forall i :: 0 <= i < |ts| ==> ts[i] in shapes
  {
    forall k :: 0 <= k < |ts| ==>
      && ts[k] in orders
      && (forall n :: n in shapes[ts[k]].indexes ==> n in orders[ts[k]])
      && (forall n :: n in orders[ts[k]] ==> n in shapes[ts[k]].indexes)
      && (forall i, j :: 0 <= i < j < |orders[ts[k]]| ==> orders[ts[k]][i] != orders[ts[k]][j])
  }

  lemma NamesGrow(ts: seq<TableName>, i: nat)
    requires i < |ts|
    ensures Names(ts[..i+1]) == Names(ts[..i]) + {ts[i]}
    ensures (forall j, k :: 0 <= j < k < |ts| ==> ts[j] != ts[k]) ==> ts[i] !in Names(ts[..i])
  {
    assert ts[..i+1] == ts[..i] + [ts[i]];
  }

  lemma EnsureListOnce(exact: bool, db: Db, ts: seq<TableName>, i: nat, shapes: Shapes)
    requires i < |ts| && forall k :: 0 <= k < |ts| ==> ts[k] in shapes
    ensures EnsureList(exact, db, ts[i..], shapes) ==
            var next := Ensure(exact, db, ts[i], shapes[ts[i]]);
            if next.None? then None else EnsureList(exact, next.value, ts[i+1..], shapes)
  {
    assert ts[i..][0] == ts[i] && ts[i..][1..] == ts[i+1..];
  }

  /** The `_ensure_table` calls one after another; `created` collects their results. */
  method EnsureInOrder(session: Session, exact: bool, ts: seq<TableName>, shapes: Shapes,
      orders: map<TableName, seq<string>>)
    returns (ok: bool, created: set<TableName>)
    requires Ordered(ts, shapes) && IndexOrders(ts, shapes, orders)
    modifies session
    ensures ok <==> EnsureList(exact, old(session.db), ts, shapes).Some?
    ensures ok ==> session.db == EnsureList(exact, old(session.db), ts, shapes).value
    ensures ok ==> created == Names(ts) - old(session.db).tables.Keys
  {
    created := {};
    ghost var start := session.db;
    for i := 0 to |ts|
      invariant EnsureList(exact, session.db, ts[i..], shapes) == EnsureList(exact, start, ts, shapes)
      invariant session.db.tables.Keys == start.tables.Keys + Names(ts[..i])
      invariant created == Names(ts[..i]) - start.tables.Keys
    {
      NamesGrow(ts, i);
      EnsureListOnce(exact, session.db, ts, i, shapes);
      var isNew: bool;
      ok, isNew := session.EnsureTable(exact, ts[i], shapes[ts[i]], orders[ts[i]]);
      if !ok { return; }
      if isNew {
        created := created + {ts[i]};
      }
    }
    assert ts[..|ts|] == ts;
    ok := true;
  }

  /** SELECT EXISTS on each created table. */
  method AnyRows(db: Db, created: set<TableName>, ts: seq<TableName>) returns (held: bool)
    ensures held <==> HoldsRows(db, created * Names(ts))
  {
    for i := 0 to |ts|
      invariant forall j :: 0 <= j < i && ts[j] in created && ts[j] in db.tables ==> db.tables[ts[j]].rows == 0
    {
      if ts[i] in created && ts[i] in db.tables && db.tables[ts[i]].rows > 0 {
        assert ts[i] in created * Names(ts);
        return true;
      }
    }
    held := false;
  }

  method DropInReverse(db: Db, created: set<TableName>, ts: seq<TableName>) returns (r: Option<Db>)
    ensures r == DropCreated(db, created, ts)
  {
    r := Some(db);
    assert ts[..|ts|] == ts;
    for i := |ts| downto 0
      invariant r.Some? && DropCreated(r.value, created, ts[..i]) == DropCreated(db, created, ts)
    {
      assert ts[..i+1][..i] == ts[..i] && ts[..i+1][i] == ts[i];
      if ts[i] in created && ts[i] in r.value.tables {
        r := DropTable(r.value, ts[i]);
        if r.None? { return; }
      }
    }
  }

  method DropEnumsInOrder(db: Db, created: set<EnumName>, es: seq<EnumName>) returns (r: Option<Db>)
    ensures r == DropEnums(db, created, es)
  {
    r := Some(db);
    for i := 0 to |es|
      invariant r.Some? && DropEnums(r.value, created, es[i..]) == DropEnums(db, created, es)
    {
      assert es[i..][1..] == es[i+1..];
      if es[i] in created {
        r := DropEnum(r.value, es[i]);
        if r.None? { return; }
      }
    }
  }

  /** SELECT EXISTS and DROP for one created table after another; any refusal undoes them all. */
  method CheckAndDropInReverse(db: Db, created: set<TableName>, ts: seq<TableName>) returns (r: Option<Db>)
    ensures r == if HoldsRows(db, created * Names(ts)) then None else DropCreated(db, created, ts)
  {
    r := Some(db);
    assert ts[..|ts|] == ts;
    for i := |ts| downto 0
      invariant r.Some? && DropCreated(r.value, created, ts[..i]) == DropCreated(db, created, ts)
      invariant forall t :: t in r.value.tables ==> t in db.tables && r.value.tables[t] == db.tables[t]
      invariant forall t :: t in db.tables && t !in r.value.tables ==> t in ts[i..]
      invariant forall j :: i <= j < |ts| && ts[j] in created && ts[j] in db.tables ==> db.tables[ts[j]].rows == 0
    {
      assert ts[..i+1][..i] == ts[..i] && ts[..i+1][i] == ts[i];
      assert ts[i..] == [ts[i]] + ts[i+1..];
      if ts[i] in created && ts[i] in r.value.tables {
        if r.value.tables[ts[i]].rows > 0 {
          assert ts[i] in created * Names(ts);
          return None;
        }
        r := DropTable(r.value, ts[i]);
        if r.None? { return; }
      }
      if ts[i] in created && ts[i] in db.tables && ts[i] !in r.value.tables {
        assert ts[i] in ts[i..];
      }
    }
  }
}
