/**
 The four Alembic operations that `do_run_migrations` replaces while a migration chain runs: each asks the
 database first and is skipped when its object is there, or when what it builds on is not. Beside them three
 operations that are not replaced: creating a CHECK or unique constraint, and dropping a constraint.
 */
module SchemaOps {

  datatype Option<+T> = None | Some(value: T)

  /** A foreign key as pg_constraint shows it; `cols` are its distinct local columns. */
  datatype ForeignKey = ForeignKey(name: string, src: string, ref: string, cols: set<string>)

  /** A CHECK constraint; rows that violate it are not modelled here. */
  datatype Check = Check(table: string, name: string)

  /** Tables with their columns, the names of indexes (a unique constraint's index included), keys and checks. */
  datatype Schema = Schema(
    tables: map<string, set<string>>,
    indexes: set<string>,
    fks: set<ForeignKey>,
    checks: set<Check>)

  /** An index is on plain columns and on expressions. */
  datatype IndexPart = Column(name: string) | Expression(sql: string)

  datatype Op =
    | CreateTable(table: string, cols: set<string>, uniques: seq<Option<string>>, inlineFks: set<ForeignKey>,
                  inlineChecks: set<string>)
    | AddColumn(table: string, col: string)
    | CreateIndex(index: Option<string>, table: string, parts: seq<IndexPart>)
    | CreateForeignKey(name: string, src: string, ref: string, local: seq<string>, remote: seq<string>)
    | CreateCheck(name: string, table: string)
    | CreateUnique(name: string, table: string, unique: seq<string>)
    | DropConstraint(name: string, table: string)

  // ----- what the queries answer -----

  predicate HasColumn(s: Schema, t: string, c: string) {
    t in s.tables && c in s.tables[t]
  }

  function Named(uniques: seq<Option<string>>): set<string> {
    set i | 0 <= i < |uniques| && uniques[i].Some? :: uniques[i].value
  }

  function ToSet(cols: seq<string>): set<string> {
    set c | c in cols
  }

  /** The count in `_has_fk`: as many local columns as asked for, and that many of them among those asked for. */
  predicate CountsMatch(fk: ForeignKey, src: string, ref: string, cols: seq<string>) {
    fk.src == src && fk.ref == ref && |fk.cols| == |cols| && |fk.cols * ToSet(cols)| == |cols|
  }

  predicate HasFk(s: Schema, src: string, ref: string, cols: seq<string>) {
    cols != [] && exists fk :: fk in s.fks && CountsMatch(fk, src, ref, cols)
  }

  // ----- the operations Alembic came with: None is a database error -----

  function CreateTableSql(s: Schema, op: Op): Option<Schema>
    requires op.CreateTable?
  {
    var tables := s.tables[op.table := op.cols];
    if op.table in s.tables || op.table in s.indexes || Named(op.uniques) * (s.indexes + tables.Keys) != {} ||
       (exists fk :: fk in op.inlineFks && (fk.ref !in tables || fk.src != op.table || !(fk.cols <= op.cols))) then None
    else Some(Schema(tables, s.indexes + Named(op.uniques), s.fks + op.inlineFks,
                     s.checks + set name | name in op.inlineChecks :: Check(op.table, name)))
  }

  function AddColumnSql(s: Schema, op: Op): Option<Schema>
    requires op.AddColumn?
  {
    if op.table !in s.tables || op.col in s.tables[op.table] then None
    else Some(s.(tables := s.tables[op.table := s.tables[op.table] + {op.col}]))
  }

  function CreateIndexSql(s: Schema, op: Op): Option<Schema>
    requires op.CreateIndex?
  {
    if op.index.None? || op.index.value in s.indexes || op.index.value in s.tables || op.table !in s.tables ||
       (exists i :: 0 <= i < |op.parts| && op.parts[i].Column? && op.parts[i].name !in s.tables[op.table]) then None
    else Some(s.(indexes := s.indexes + {op.index.value}))
  }

  function CreateForeignKeySql(s: Schema, op: Op): Option<Schema>
    requires op.CreateForeignKey?
  {
    if op.local == [] || |op.local| != |op.remote| || |ToSet(op.local)| != |op.local| ||
       op.src !in s.tables || op.ref !in s.tables ||
       !(ToSet(op.local) <= s.tables[op.src]) || !(ToSet(op.remote) <= s.tables[op.ref]) ||
       (exists fk :: fk in s.fks && fk.src == op.src && fk.name == op.name) then None
    else Some(s.(fks := s.fks + {ForeignKey(op.name, op.src, op.ref, ToSet(op.local))}))
  }

  function CreateCheckSql(s: Schema, op: Op): Option<Schema>
    requires op.CreateCheck?
  {
    if op.table !in s.tables || Check(op.table, op.name) in s.checks then None
    else Some(s.(checks := s.checks + {Check(op.table, op.name)}))
  }

  /** A unique constraint brings an index of its name. */
  function CreateUniqueSql(s: Schema, op: Op): Option<Schema>
    requires op.CreateUnique?
  {
    if op.table !in s.tables || op.name in s.indexes || op.name in s.tables || op.unique == [] ||
       !(ToSet(op.unique) <= s.tables[op.table]) then None
    else Some(s.(indexes := s.indexes + {op.name}))
  }

  /** A foreign key or a check of that name; there is no IF EXISTS. */
  predicate HasConstraint(s: Schema, table: string, name: string) {
    Check(table, name) in s.checks || exists fk :: fk in s.fks && fk.src == table && fk.name == name
  }

  function DropConstraintSql(s: Schema, op: Op): Option<Schema>
    requires op.DropConstraint?
  {
    if !HasConstraint(s, op.table, op.name) then None
    else Some(s.(checks := s.checks - {Check(op.table, op.name)},
              fks := set fk | fk in s.fks && !(fk.src == op.table && fk.name == op.name)))
  }

  function Sql(s: Schema, op: Op): Option<Schema> {
    match op
    case CreateTable(_, _, _, _, _) => CreateTableSql(s, op)
    case AddColumn(_, _) => AddColumnSql(s, op)
    case CreateIndex(_, _, _) => CreateIndexSql(s, op)
    case CreateForeignKey(_, _, _, _, _) => CreateForeignKeySql(s, op)
    case CreateCheck(_, _) => CreateCheckSql(s, op)
    case CreateUnique(_, _, _) => CreateUniqueSql(s, op)
    case DropConstraint(_, _) => DropConstraintSql(s, op)
  }

  // ----- the patched operations -----

  /**
   The schema is already as the operation wants it: the object is there, or its name is taken by the object the
   baseline made in its place; for a drop, it is gone.
   */
  predicate Present(s: Schema, op: Op) {
    match op
    case CreateTable(t, _, uniques, _, _) => t in s.tables || Named(uniques) * s.indexes != {}
    case AddColumn(t, c) => HasColumn(s, t, c)
    case CreateIndex(n, t, _) => t in s.tables && n.Some? && n.value in s.indexes
    case CreateForeignKey(_, src, ref, local, _) => src in s.tables && HasFk(s, src, ref, local)
    case CreateCheck(n, t) => Check(t, n) in s.checks
    case CreateUnique(n, _, _) => n in s.indexes
    case DropConstraint(n, t) => !HasConstraint(s, t, n)
  }

  predicate Replaced(op: Op) {
    !op.CreateCheck? && !op.CreateUnique? && !op.DropConstraint?
  }

  /** No operation of the chain drops anything. */
  predicate OnlyCreates(ops: seq<Op>) {
    forall i :: 0 <= i < |ops| ==> !ops[i].DropConstraint?
  }

  predicate LacksColumn(s: Schema, t: string, parts: seq<IndexPart>) {
    exists i :: 0 <= i < |parts| && parts[i].Column? && !HasColumn(s, t, parts[i].name)
  }

  predicate LacksLocal(s: Schema, t: string, local: seq<string>) {
    exists i :: 0 <= i < |local| && !HasColumn(s, t, local[i])
  }

  /** The operation is skipped because a table or column it builds on is missing. */
  predicate Missing(s: Schema, op: Op) {
    !Present(s, op) &&
    match op
    case CreateIndex(_, t, parts) => t !in s.tables || LacksColumn(s, t, parts)
    case CreateForeignKey(_, src, _, local, _) => src !in s.tables || LacksLocal(s, src, local)
    case _ => false
  }

  /** A replaced operation that is skipped; the others are always sent. */
  predicate Idle(s: Schema, op: Op) {
    Replaced(op) && (Present(s, op) || Missing(s, op))
  }

  function Patched(s: Schema, op: Op): Option<Schema> {
    if Idle(s, op) then Some(s) else Sql(s, op)
  }

  function Chain(s: Schema, ops: seq<Op>): Option<Schema>
    decreases |ops|
  {
    if ops == [] then Some(s)
    else var next := Patched(s, ops[0]);
         if next.None? then None else Chain(next.value, ops[1..])
  }

  /** No operation of this run is skipped for a missing table or column. */
  predicate NothingMissing(s: Schema, ops: seq<Op>)
    decreases |ops|
  {
    ops == [] ||
    (!Missing(s, ops[0]) &&
     var next := Patched(s, ops[0]);
     next.Some? ==> NothingMissing(next.value, ops[1..]))
  }

  // ----- growth -----

  predicate Extends(s: Schema, s': Schema) {
    && (forall t :: t in s.tables ==> t in s'.tables && s.tables[t] <= s'.tables[t])
    && s.indexes <= s'.indexes
    && s.fks <= s'.fks
    && s.checks <= s'.checks
  }

  lemma OneStepExtends(s: Schema, op: Op)
    requires Patched(s, op).Some? && !op.DropConstraint?
    ensures Extends(s, Patched(s, op).value)
    ensures Patched(s, op).value != s <==> !Idle(s, op)
  {
    if !Idle(s, op) {
      var s' := Sql(s, op).value;
      match op
      case CreateTable(t, _, _, _, _) => assert t !in s.tables && t in s'.tables;
      case AddColumn(t, c) => assert c !in s.tables[t] && c in s'.tables[t];
      case CreateIndex(n, _, _) => assert n.value !in s.indexes && n.value in s'.indexes;
      case CreateForeignKey(n, src, ref, local, _) =>
        var fk := ForeignKey(n, src, ref, ToSet(local));
        assert fk.src == src && fk.name == n;
        assert fk !in s.fks && fk in s'.fks;
      case CreateCheck(n, t) => assert Check(t, n) !in s.checks && Check(t, n) in s'.checks;
      case CreateUnique(n, _, _) => assert n !in s.indexes && n in s'.indexes;
    }
  }

  lemma RestOnlyCreates(ops: seq<Op>)
    requires OnlyCreates(ops) && ops != []
    ensures OnlyCreates(ops[1..])
  {
    assert forall i :: 0 <= i < |ops[1..]| ==> ops[1..][i] == ops[i+1];
  }

  /** A chain of creations only adds: no table, column, index, key or check is lost, whatever was there before. */
  lemma {:induction false} ChainExtends(s: Schema, ops: seq<Op>)
    requires Chain(s, ops).Some? && OnlyCreates(ops)
    ensures Extends(s, Chain(s, ops).value)
    decreases |ops|
  {
    if ops != [] {
      OneStepExtends(s, ops[0]);
      RestOnlyCreates(ops);
      ChainExtends(Patched(s, ops[0]).value, ops[1..]);
    }
  }

  /** What is present stays present. */
  lemma PresenceGrows(s: Schema, s': Schema, op: Op)
    requires Extends(s, s') && Present(s, op) && !op.DropConstraint?
    ensures Present(s', op)
  {
    match op
    case CreateTable(t, _, uniques, _, _) =>
      if t !in s.tables {
        var n :| n in Named(uniques) * s.indexes;
        assert n in Named(uniques) * s'.indexes;
      }
    case AddColumn(_, _) =>
    case CreateIndex(_, _, _) =>
    case CreateForeignKey(_, src, ref, local, _) =>
      var fk :| fk in s.fks && CountsMatch(fk, src, ref, local);
      assert fk in s'.fks;
    case CreateCheck(_, _) =>
    case CreateUnique(_, _, _) =>
  }

  /** An operation that was carried out is present afterwards. */
  lemma CarriedOutIsPresent(s: Schema, op: Op)
    requires !Idle(s, op) && Sql(s, op).Some?
    ensures Present(Sql(s, op).value, op)
  {
    if op.CreateForeignKey? {
      var fk := ForeignKey(op.name, op.src, op.ref, ToSet(op.local));
      assert fk.cols * ToSet(op.local) == fk.cols;
      assert CountsMatch(fk, op.src, op.ref, op.local);
      assert fk in Sql(s, op).value.fks;
    }
  }

  // ----- replay -----

  /** Replaying a chain on any schema changes nothing and raises nothing exactly when every operation is idle there. */
  lemma {:induction false} UnchangedIffAllIdle(s: Schema, ops: seq<Op>)
    requires OnlyCreates(ops)
    ensures Chain(s, ops) == Some(s) <==> forall i :: 0 <= i < |ops| ==> Idle(s, ops[i])
    decreases |ops|
  {
    if ops != [] {
      RestOnlyCreates(ops);
      if Idle(s, ops[0]) {
        UnchangedIffAllIdle(s, ops[1..]);
        assert forall i :: 0 < i < |ops| ==> ops[i] == ops[1..][i-1];
        if Chain(s, ops) == Some(s) {
          forall i | 0 <= i < |ops| ensures Idle(s, ops[i]) {
            assert i > 0 ==> ops[i] == ops[1..][i-1];
          }
        }
      } else if Chain(s, ops).Some? {
        OneStepExtends(s, ops[0]);
        var next := Patched(s, ops[0]).value;
        ChainExtends(next, ops[1..]);
        if Chain(s, ops).value == s {
          MutualExtensionIsEquality(s, next);
        }
      }
    }
  }

  lemma MutualExtensionIsEquality(s: Schema, s': Schema)
    requires Extends(s, s') && Extends(s', s)
    ensures s == s'
  {
    assert s.tables.Keys == s'.tables.Keys;
    forall t | t in s.tables ensures s.tables[t] == s'.tables[t] {
    }
    assert s.tables == s'.tables;
  }

  lemma {:induction false} AllPresentAtEnd(s: Schema, ops: seq<Op>)
    requires Chain(s, ops).Some? && NothingMissing(s, ops) && OnlyCreates(ops)
    ensures forall i :: 0 <= i < |ops| ==> Present(Chain(s, ops).value, ops[i])
    decreases |ops|
  {
    if ops != [] {
      var next, end := Patched(s, ops[0]).value, Chain(s, ops).value;
      RestOnlyCreates(ops);
      AllPresentAtEnd(next, ops[1..]);
      ChainExtends(next, ops[1..]);
      if !Present(s, ops[0]) {
        CarriedOutIsPresent(s, ops[0]);
      }
      PresenceGrows(next, end, ops[0]);
      forall i | 0 <= i < |ops| ensures Present(end, ops[i]) {
        assert i > 0 ==> ops[i] == ops[1..][i-1];
      }
    }
  }

  predicate HasUnreplaced(ops: seq<Op>) {
    exists i :: 0 <= i < |ops| && !Replaced(ops[i])
  }

  /**
   A baseline that is as every operation wants it makes a chain of replaced operations a no-op that never raises; it
   raises as soon as the chain creates a constraint that is there, or drops one that is not.
   */
  lemma {:induction false} BaselineMakesChainIdle(s: Schema, ops: seq<Op>)
    requires forall i :: 0 <= i < |ops| ==> Present(s, ops[i])
    ensures Chain(s, ops) == if HasUnreplaced(ops) then None else Some(s)
    decreases |ops|
  {
    if ops != [] && Replaced(ops[0]) {
      assert forall i :: 0 < i < |ops| ==> ops[i] == ops[1..][i-1];
      BaselineMakesChainIdle(s, ops[1..]);
      assert HasUnreplaced(ops[1..]) <==> HasUnreplaced(ops) by {
        if HasUnreplaced(ops) {
          var i :| 0 <= i < |ops| && !Replaced(ops[i]);
          assert !Replaced(ops[1..][i-1]);
        }
      }
    }
  }

  /**
   A second run of a chain of creations, when no operation of the first was skipped for something missing, is the
   identity if all of them are replaced, and raises if one is not.
   */
  lemma ReplayIsIdentity(s: Schema, ops: seq<Op>)
    requires Chain(s, ops).Some? && NothingMissing(s, ops) && OnlyCreates(ops)
    ensures Chain(Chain(s, ops).value, ops) == if HasUnreplaced(ops) then None else Chain(s, ops)
  {
    AllPresentAtEnd(s, ops);
    BaselineMakesChainIdle(Chain(s, ops).value, ops);
  }

  /** The schema that operation i of the run meets. */
  function SchemaAt(s: Schema, ops: seq<Op>, i: nat): Schema
    requires Chain(s, ops).Some? && i < |ops|
    decreases i
  {
    if i == 0 then s else SchemaAt(Patched(s, ops[0]).value, ops[1..], i - 1)
  }

  /** An operation that was not skipped for something missing is present when the run ends. */
  lemma {:induction false} PresentUnlessMissing(s: Schema, ops: seq<Op>, i: nat)
    requires Chain(s, ops).Some? && OnlyCreates(ops) && i < |ops|
    requires !Missing(SchemaAt(s, ops, i), ops[i])
    ensures Present(Chain(s, ops).value, ops[i])
    decreases i
  {
    var next := Patched(s, ops[0]).value;
    RestOnlyCreates(ops);
    if i == 0 {
      if !Present(s, ops[0]) {
        CarriedOutIsPresent(s, ops[0]);
      }
      ChainExtends(next, ops[1..]);
      PresenceGrows(next, Chain(s, ops).value, ops[0]);
    } else {
      PresentUnlessMissing(next, ops[1..], i - 1);
    }
  }

  /**
   For every chain of replaced creations: a second run is the identity exactly when each operation that was skipped
   for something missing is, at the end, still without it or present after all.
   */
  lemma ReplayIsIdentityIff(s: Schema, ops: seq<Op>)
    requires Chain(s, ops).Some? && !HasUnreplaced(ops)
    ensures var end := Chain(s, ops).value;
            Chain(end, ops) == Some(end) <==>
            forall i :: 0 <= i < |ops| && Missing(SchemaAt(s, ops, i), ops[i]) ==> Idle(end, ops[i])
  {
    var end := Chain(s, ops).value;
    assert OnlyCreates(ops);
    UnchangedIffAllIdle(end, ops);
    forall i | 0 <= i < |ops| && !Missing(SchemaAt(s, ops, i), ops[i]) ensures Idle(end, ops[i]) {
      PresentUnlessMissing(s, ops, i);
    }
  }

  /** A table with one key column beside its id, and the table it refers to. */
  function Unkeyed(table: string, ref: string, key: string): Schema {
    Schema(map[ref := {"id"}, table := {"id", key}], {}, {}, {})
  }

  function Keyed(table: string, ref: string, key: string, name: string): Schema {
    Unkeyed(table, ref, key).(fks := {ForeignKey(name, table, ref, {key})})
  }

  function KeyOp(table: string, ref: string, key: string, name: string): Op {
    CreateForeignKey(name, table, ref, [key], ["id"])
  }

  lemma DropKey(table: string, ref: string, key: string, name: string, dropped: string)
    ensures Patched(Keyed(table, ref, key, name), DropConstraint(dropped, table)) ==
            if dropped == name then Some(Unkeyed(table, ref, key)) else None
  {
    var s := Keyed(table, ref, key, name);
    var fk := ForeignKey(name, table, ref, {key});
    assert fk in s.fks && fk.src == table && fk.name == name;
    if dropped == name {
      var after := DropConstraintSql(s, DropConstraint(dropped, table)).value;
      assert after.fks == {} && after.checks == {};
    }
  }

  lemma CreateKey(table: string, ref: string, key: string, name: string)
    ensures Patched(Unkeyed(table, ref, key), KeyOp(table, ref, key, name)) == Some(Keyed(table, ref, key, name))
  {
    var s, op := Unkeyed(table, ref, key), KeyOp(table, ref, key, name);
    assert ToSet(op.local) == {key} && ToSet(op.remote) == {"id"};
    assert |ToSet(op.local)| == 1;
    assert ToSet(op.local) <= s.tables[table] && ToSet(op.remote) <= s.tables[ref];
    assert !Present(s, op) && !LacksLocal(s, table, op.local);
    var made := CreateForeignKeySql(s, op).value;
    assert made.fks == {ForeignKey(name, table, ref, {key})};
  }

  /**
   Renaming a key by dropping and creating it, as 20261104_0004 does, goes through exactly on a table that still has it
   under the older name; on a baseline whose models use the new one it raises.
   */
  lemma RenameKey(table: string, ref: string, key: string, name: string, older: string, newer: string)
    ensures Chain(Keyed(table, ref, key, name), [DropConstraint(older, table), KeyOp(table, ref, key, newer)]) ==
            if name == older then Some(Keyed(table, ref, key, newer)) else None
  {
    var s := Keyed(table, ref, key, name);
    var drop, create := DropConstraint(older, table), KeyOp(table, ref, key, newer);
    assert [drop, create][1..] == [create] && [create][1..] == [];
    DropKey(table, ref, key, name, older);
    CreateKey(table, ref, key, newer);
    if name == older {
      assert Chain(s, [drop, create]) == Chain(Unkeyed(table, ref, key), [create]);
      assert Chain(Unkeyed(table, ref, key), [create]) == Chain(Keyed(table, ref, key, newer), []);
    }
  }

  /** An index skipped because its table comes later in the chain takes effect on the second run. */
  lemma SkippedIndexAppearsOnReplay()
    ensures var ops := [CreateIndex(Some("ix_t"), "t", []), CreateTable("t", {"a"}, [], {}, {})];
            var empty := Schema(map[], {}, {}, {});
            Chain(empty, ops).Some? && "ix_t" !in Chain(empty, ops).value.indexes &&
            Chain(Chain(empty, ops).value, ops).Some? && "ix_t" in Chain(Chain(empty, ops).value, ops).value.indexes
  {
    var index, table := CreateIndex(Some("ix_t"), "t", []), CreateTable("t", {"a"}, [], {}, {});
    var ops := [index, table];
    assert ops[1..] == [table] && [table][1..] == [];
    var empty := Schema(map[], {}, {}, {});
    assert Missing(empty, index);
    assert Named([]) == {};
    var once := Sql(empty, table).value;
    assert Chain(empty, ops) == Chain(empty, [table]) == Chain(once, []);
    assert "t" in once.tables;
    assert !Idle(once, index) && Present(once, table);
    var twice := Sql(once, index).value;
    assert Present(twice, table);
    assert Chain(once, ops) == Chain(twice, [table]) == Chain(twice, []);
  }

  /** Without repeats in the list, `_has_fk` finds exactly a key from src to ref on these columns, under any name. */
  lemma HasFkMeansSameColumns(s: Schema, src: string, ref: string, cols: seq<string>)
    requires cols != [] && |ToSet(cols)| == |cols|
    ensures HasFk(s, src, ref, cols) <==>
            exists fk :: fk in s.fks && fk.src == src && fk.ref == ref && fk.cols == ToSet(cols)
  {
    forall fk: ForeignKey
      ensures CountsMatch(fk, src, ref, cols) <==> fk.src == src && fk.ref == ref && fk.cols == ToSet(cols)
    {
      if CountsMatch(fk, src, ref, cols) {
        SameSizeSubset(fk.cols * ToSet(cols), fk.cols);
        SameSizeSubset(fk.cols * ToSet(cols), ToSet(cols));
      } else if fk.cols == ToSet(cols) {
        assert fk.cols * ToSet(cols) == fk.cols;
      }
    }
  }

  lemma SameSizeSubset<T>(a: set<T>, b: set<T>)
    requires a <= b && |a| == |b|
    ensures a == b
  {
    assert |b - a| == 0;
  }

  // ----- the operations on tables, columns and names -----

  lemma CreateTableIs(s: Schema, t: string, cols: set<string>, uniques: seq<Option<string>>,
                      inlineFks: set<ForeignKey>, inlineChecks: set<string>)
    ensures var r := Patched(s, CreateTable(t, cols, uniques, inlineFks, inlineChecks));
            if t in s.tables || (exists i :: 0 <= i < |uniques| && uniques[i].Some? && uniques[i].value in s.indexes)
            then r == Some(s)
            else
              && (r.None? <==>
                    || t in s.indexes
                    || (exists i :: 0 <= i < |uniques| && uniques[i].Some? &&
                                    (uniques[i].value == t || uniques[i].value in s.tables))
                    || (exists fk :: fk in inlineFks && ((fk.ref != t && fk.ref !in s.tables) || fk.src != t ||
                                                         exists c :: c in fk.cols && c !in cols)))
              && (r.Some? ==>
                    && r.value.tables == s.tables[t := cols] && r.value.fks == s.fks + inlineFks
                    && (forall n :: n in r.value.indexes <==> n in s.indexes || Some(n) in uniques)
                    && (forall c :: c in r.value.checks <==>
                                    c in s.checks || (c.table == t && c.name in inlineChecks)))
  {
    var op := CreateTable(t, cols, uniques, inlineFks, inlineChecks);
    NamedMeet(uniques, s.indexes);
    if !Present(s, op) {
      NamedMeet(uniques, s.indexes + s.tables[t := cols].Keys);
      assert forall n :: n in Named(uniques) <==> Some(n) in uniques;
    }
  }

  lemma NamedMeet(uniques: seq<Option<string>>, taken: set<string>)
    ensures Named(uniques) * taken != {} <==>
            exists i :: 0 <= i < |uniques| && uniques[i].Some? && uniques[i].value in taken
  {
    if i :| 0 <= i < |uniques| && uniques[i].Some? && uniques[i].value in taken {
      assert uniques[i].value in Named(uniques) * taken;
    }
  }

  /** A column is added unless it is there; without its table that is an error. */
  lemma AddColumnIs(s: Schema, t: string, c: string)
    ensures Patched(s, AddColumn(t, c)) ==
            if t !in s.tables then None
            else if c in s.tables[t] then Some(s)
            else Some(Schema(s.tables[t := s.tables[t] + {c}], s.indexes, s.fks, s.checks))
  {
  }

  /**
   An index is skipped when its table is not there, its name is that of an index, or one of its plain columns is not
   there; otherwise it is an error exactly without a name or under the name of a table.
   */
  lemma CreateIndexIs(s: Schema, n: Option<string>, t: string, parts: seq<IndexPart>)
    ensures Patched(s, CreateIndex(n, t, parts)) ==
            if || t !in s.tables
               || (n.Some? && n.value in s.indexes)
               || (exists i :: 0 <= i < |parts| && parts[i].Column? && parts[i].name !in s.tables[t]) then Some(s)
            else if n.None? || n.value in s.tables then None
            else Some(Schema(s.tables, s.indexes + {n.value}, s.fks, s.checks))
  {
  }

  /** The key is there: from src to ref, on the columns listed, which repeats in the list never match. */
  predicate KeyIsThere(s: Schema, src: string, ref: string, local: seq<string>) {
    && local != [] && |set c | c in local| == |local|
    && exists fk :: fk in s.fks && fk.src == src && fk.ref == ref && fk.cols == (set c | c in local)
  }

  /** `_has_fk` for every list: a key between the tables on that set of columns; a list with repeats matches none. */
  lemma HasFkIff(s: Schema, src: string, ref: string, local: seq<string>)
    ensures HasFk(s, src, ref, local) <==> KeyIsThere(s, src, ref, local)
  {
    if |ToSet(local)| == |local| {
      if local != [] { HasFkMeansSameColumns(s, src, ref, local); }
    } else {
      ToSetIsSmaller(local);
      forall fk: ForeignKey ensures !CountsMatch(fk, src, ref, local) {
        SubsetIsSmaller(fk.cols * ToSet(local), ToSet(local));
      }
    }
  }

  lemma {:induction false} ToSetIsSmaller(cols: seq<string>)
    ensures |ToSet(cols)| <= |cols|
  {
    if cols != [] {
      ToSetIsSmaller(cols[1..]);
      assert ToSet(cols) == {cols[0]} + ToSet(cols[1..]);
    }
  }

  lemma SubsetIsSmaller<T>(a: set<T>, b: set<T>)
    requires a <= b
    ensures |a| <= |b|
  {
    assert b == a + (b - a);
  }

  /**
   A key is skipped when its table is not there, a key on these columns is, or one of its columns is not; otherwise
   it is an error exactly for a list without columns, with repeats or of another length than the referenced one, for
   a missing referenced table or column, and under a name the table uses for a key.
   */
  lemma CreateForeignKeyIs(s: Schema, name: string, src: string, ref: string, local: seq<string>, remote: seq<string>)
    ensures Patched(s, CreateForeignKey(name, src, ref, local, remote)) ==
            if || src !in s.tables
               || KeyIsThere(s, src, ref, local)
               || (exists i :: 0 <= i < |local| && local[i] !in s.tables[src]) then Some(s)
            else if || local == [] || |local| != |remote| || |set c | c in local| != |local|
                    || ref !in s.tables || (exists i :: 0 <= i < |remote| && remote[i] !in s.tables[ref])
                    || (exists fk :: fk in s.fks && fk.src == src && fk.name == name) then None
            else Some(Schema(s.tables, s.indexes, s.fks + {ForeignKey(name, src, ref, (set c | c in local))}, s.checks))
  {
    HasFkIff(s, src, ref, local);
  }

  /** The operations that are not replaced: an error whenever the object is there already, or for a drop is not. */
  lemma UnreplacedAre(s: Schema, name: string, t: string, cols: seq<string>)
    ensures Patched(s, CreateCheck(name, t)) ==
            if t !in s.tables || Check(t, name) in s.checks then None
            else Some(Schema(s.tables, s.indexes, s.fks, s.checks + {Check(t, name)}))
    ensures Patched(s, CreateUnique(name, t, cols)) ==
            if || t !in s.tables || name in s.indexes || name in s.tables || cols == []
               || (exists i :: 0 <= i < |cols| && cols[i] !in s.tables[t]) then None
            else Some(Schema(s.tables, s.indexes + {name}, s.fks, s.checks))
    ensures Patched(s, DropConstraint(name, t)) ==
            if Check(t, name) !in s.checks && !(exists fk :: fk in s.fks && fk.src == t && fk.name == name) then None
            else Some(Schema(s.tables, s.indexes, (set fk | fk in s.fks && (fk.src != t || fk.name != name)),
                             s.checks - {Check(t, name)}))
    ensures Present(s, CreateCheck(name, t)) <==> Check(t, name) in s.checks
    ensures Present(s, CreateUnique(name, t, cols)) <==> name in s.indexes
    ensures Present(s, DropConstraint(name, t)) <==> Patched(s, DropConstraint(name, t)).None?
  {
    if HasConstraint(s, t, name) {
      assert (set fk | fk in s.fks && !(fk.src == t && fk.name == name)) ==
             (set fk | fk in s.fks && (fk.src != t || fk.name != name));
    }
  }

  /** A chain is the run of its operations one by one, and an error anywhere is an error of the whole. */
  lemma {:induction false} ChainAppend(s: Schema, a: seq<Op>, b: seq<Op>)
    ensures Chain(s, a + b) == if Chain(s, a).None? then None else Chain(Chain(s, a).value, b)
    decreases |a|
  {
    if a == [] {
      assert a + b == b;
    } else {
      assert (a + b)[1..] == a[1..] + b;
      if Patched(s, a[0]).Some? {
        ChainAppend(Patched(s, a[0]).value, a[1..], b);
      }
    }
  }

  lemma {:induction false} NothingMissingIff(s: Schema, ops: seq<Op>)
    requires Chain(s, ops).Some?
    ensures NothingMissing(s, ops) <==> forall i :: 0 <= i < |ops| ==> !Missing(SchemaAt(s, ops, i), ops[i])
    decreases |ops|
  {
    if ops != [] {
      var next, rest := Patched(s, ops[0]).value, ops[1..];
      NothingMissingIff(next, rest);
      forall i | 0 < i < |ops| ensures ops[i] == rest[i-1] && SchemaAt(s, ops, i) == SchemaAt(next, rest, i - 1) {
      }
      if forall i :: 0 <= i < |ops| ==> !Missing(SchemaAt(s, ops, i), ops[i]) {
        assert !Missing(SchemaAt(s, ops, 0), ops[0]);
        forall i | 0 <= i < |rest| ensures !Missing(SchemaAt(next, rest, i), rest[i]) {
          assert !Missing(SchemaAt(s, ops, i + 1), ops[i+1]);
        }
      }
    }
  }

  /** Skipped for something missing, on tables and columns: for an index or a key whose own object is not there. */
  lemma MissingIff(s: Schema, op: Op)
    ensures Missing(s, op) <==>
            || (&& op.CreateIndex?
                && (op.table !in s.tables ||
                    (&& !(op.index.Some? && op.index.value in s.indexes)
                     && exists i :: 0 <= i < |op.parts| && op.parts[i].Column? &&
                                    op.parts[i].name !in s.tables[op.table])))
            || (&& op.CreateForeignKey?
                && (op.src !in s.tables ||
                    (&& !KeyIsThere(s, op.src, op.ref, op.local)
                     && exists i :: 0 <= i < |op.local| && op.local[i] !in s.tables[op.src])))
  {
    if op.CreateForeignKey? { HasFkIff(s, op.src, op.ref, op.local); }
  }

  // ----- the live database -----

  /** The patched operations as they run against the database, query by query. */
  class Database {
    var tables: map<string, set<string>>
    var indexes: set<string>
    var fks: set<ForeignKey>
    var checks: set<Check>

    function Current(): Schema
      reads this
    {
      Schema(tables, indexes, fks, checks)
    }

    constructor (s: Schema)
      ensures Current() == s
    {
      tables, indexes, fks, checks := s.tables, s.indexes, s.fks, s.checks;
    }

    /** Sends the operation Alembic came with. */
    method Send(op: Op) returns (ok: bool)
      modifies this
      ensures ok <==> Sql(old(Current()), op).Some?
      ensures Current() == if ok then Sql(old(Current()), op).value else old(Current())
    {
      var after := Sql(Current(), op);
      ok := after.Some?;
      if ok {
        tables, indexes, fks, checks := after.value.tables, after.value.indexes, after.value.fks, after.value.checks;
      }
    }

    method CreateTable(op: Op) returns (ok: bool)
      requires op.CreateTable?
      modifies this
      ensures ok <==> Patched(old(Current()), op).Some?
      ensures Current() == if ok then Patched(old(Current()), op).value else old(Current())
      ensures || op.table in old(tables)
              || (exists i :: 0 <= i < |op.uniques| && op.uniques[i].Some? && op.uniques[i].value in old(indexes)) ==>
              ok && Current() == old(Current())
    {
      if op.table in tables { return true; }
      for i := 0 to |op.uniques|
        invariant Current() == old(Current())
        invariant forall j :: 0 <= j < i && op.uniques[j].Some? ==> op.uniques[j].value !in indexes
      {
        if op.uniques[i].Some? && op.uniques[i].value in indexes {
          assert op.uniques[i].value in Named(op.uniques) * indexes;
          return true;
        }
      }
      assert Named(op.uniques) * indexes == {};
      ok := Send(op);
    }

    method AddColumn(op: Op) returns (ok: bool)
      requires op.AddColumn?
      modifies this
      ensures ok <==> Patched(old(Current()), op).Some?
      ensures Current() == if ok then Patched(old(Current()), op).value else old(Current())
      ensures op.table in old(tables) ==> ok && Current() == old(Current()).(tables :=
                old(tables)[op.table := old(tables)[op.table] + {op.col}])
    {
      if op.table in tables && op.col in tables[op.table] {
        assert tables[op.table] + {op.col} == tables[op.table];
        assert tables[op.table := tables[op.table]] == tables;
        return true;
      }
      ok := Send(op);
    }

    method CreateIndex(op: Op) returns (ok: bool)
      requires op.CreateIndex?
      modifies this
      ensures ok <==> Patched(old(Current()), op).Some?
      ensures Current() == if ok then Patched(old(Current()), op).value else old(Current())
      ensures || op.table !in old(tables)
              || (op.index.Some? && op.index.value in old(indexes))
              || (exists i :: 0 <= i < |op.parts| && op.parts[i].Column? &&
                              op.parts[i].name !in old(tables)[op.table]) ==>
              ok && Current() == old(Current())
    {
      if op.table !in tables { return true; }
      if op.index.Some? && op.index.value in indexes { return true; }
      for i := 0 to |op.parts|
        invariant Current() == old(Current())
        invariant forall j :: 0 <= j < i && op.parts[j].Column? ==> HasColumn(Current(), op.table, op.parts[j].name)
      {
        if op.parts[i].Column? && op.parts[i].name !in tables[op.table] {
          assert LacksColumn(Current(), op.table, op.parts);
          return true;
        }
      }
      assert !LacksColumn(Current(), op.table, op.parts);
      ok := Send(op);
    }

    method CreateForeignKey(op: Op) returns (ok: bool)
      requires op.CreateForeignKey?
      modifies this
      ensures ok <==> Patched(old(Current()), op).Some?
      ensures Current() == if ok then Patched(old(Current()), op).value else old(Current())
      ensures || op.src !in old(tables)
              || KeyIsThere(old(Current()), op.src, op.ref, op.local)
              || (exists i :: 0 <= i < |op.local| && op.local[i] !in old(tables)[op.src]) ==>
              ok && Current() == old(Current())
    {
      HasFkIff(Current(), op.src, op.ref, op.local);
      if op.src !in tables { return true; }
      if HasFk(Current(), op.src, op.ref, op.local) { return true; }
      for i := 0 to |op.local|
        invariant Current() == old(Current())
        invariant forall j :: 0 <= j < i ==> HasColumn(Current(), op.src, op.local[j])
      {
        if op.local[i] !in tables[op.src] {
          assert LacksLocal(Current(), op.src, op.local);
          return true;
        }
      }
      assert !LacksLocal(Current(), op.src, op.local);
      ok := Send(op);
    }
  }
}
