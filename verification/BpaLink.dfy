/** Revision 20261030_0010: the column, foreign key and index that link a purchase order to its agreement. */
module BpaLink {

  datatype Option<+T> = None | Some(value: T)

  const COLUMN := "bpa_id"
  const AGREEMENTS := "blanket_purchase_agreements"
  const FK := "fk_purchase_orders_bpa_id_blanket_purchase_agreements"
  const INDEX := "ix_purchase_orders_bpa_id"

  datatype Column = Column(isUuid: bool, nullable: bool)

  datatype ForeignKey = ForeignKey(name: string, cols: seq<string>, ref: string, refCols: seq<string>, onDelete: string)

  datatype Index = Index(cols: seq<string>, unique: bool, filtered: bool, btree: bool)

  /** The table purchase_orders; foreign keys in the order the inspector lists them. */
  datatype Orders = Orders(columns: map<string, Column>, fks: seq<ForeignKey>, indexes: map<string, Index>)

  datatype Flags = Flags(column: bool, fk: bool, index: bool)

  /** The ownership table: absent, or its rows by id. */
  datatype Marker = NoMarker | Marker(rows: map<int, Flags>)

  /**
   `tablesExist`: purchase_orders and blanket_purchase_agreements are there. `elsewhere`: index names on other tables.
   `linked`: rows whose bpa_id is not null.
   */
  datatype State = State(tablesExist: bool, orders: Orders, elsewhere: set<string>, linked: nat, marker: Marker)

  predicate ValidColumn(o: Orders) {
    COLUMN in o.columns && o.columns[COLUMN].isUuid && o.columns[COLUMN].nullable
  }

  predicate Matches(fk: ForeignKey) {
    fk.cols == [COLUMN] && fk.ref == AGREEMENTS && fk.refCols == ["id"] && fk.onDelete == "RESTRICT"
  }

  /** Position of the first match, or the length of the list. */
  function FirstMatch(fks: seq<ForeignKey>): (i: nat)
    ensures i <= |fks|
    ensures i < |fks| ==> Matches(fks[i])
    ensures forall j :: 0 <= j < i ==> !Matches(fks[j])
  {
    if fks == [] then 0 else if Matches(fks[0]) then 0 else 1 + FirstMatch(fks[1..])
  }

  predicate HasMatch(fks: seq<ForeignKey>) {
    FirstMatch(fks) < |fks|
  }

  predicate Mentions(fks: seq<ForeignKey>) {
    exists i :: 0 <= i < |fks| && COLUMN in fks[i].cols
  }

  predicate CompatibleIndex(x: Index) {
    x.cols == [COLUMN] && !x.unique && !x.filtered && x.btree
  }

  function AddColumn(o: Orders): Orders {
    o.(columns := o.columns[COLUMN := Column(true, true)])
  }

  /** ALTER TABLE DROP COLUMN takes the column's keys and indexes with it. */
  function DropColumn(o: Orders): Orders {
    Orders(o.columns - {COLUMN}, KeysWithout(o.fks),
           map n | n in o.indexes && COLUMN !in o.indexes[n].cols :: o.indexes[n])
  }

  function KeysWithout(fks: seq<ForeignKey>): seq<ForeignKey> {
    if fks == [] then []
    else (if COLUMN in fks[0].cols then [] else [fks[0]]) + KeysWithout(fks[1..])
  }

  predicate NameTaken(fks: seq<ForeignKey>, name: string) {
    exists i :: 0 <= i < |fks| && fks[i].name == name
  }

  const NEW_FK := ForeignKey(FK, [COLUMN], AGREEMENTS, ["id"], "RESTRICT")
  const NEW_INDEX := Index([COLUMN], false, false, true)

  function ColumnStep(o: Orders): Option<Orders> {
    if COLUMN !in o.columns then Some(AddColumn(o)) else if ValidColumn(o) then Some(o) else None
  }

  function FkStep(o: Orders): Option<Orders> {
    if HasMatch(o.fks) then Some(o)
    else if Mentions(o.fks) || NameTaken(o.fks, FK) then None
    else Some(o.(fks := o.fks + [NEW_FK]))
  }

  /** The patched create_index makes nothing when another table already has an index of this name. */
  function IndexStep(o: Orders, elsewhere: set<string>): Option<Orders> {
    if INDEX in o.indexes then if CompatibleIndex(o.indexes[INDEX]) then Some(o) else None
    else if INDEX in elsewhere then Some(o)
    else Some(o.(indexes := o.indexes[INDEX := NEW_INDEX]))
  }

  function CreatedFrom(o: Orders): Flags {
    Flags(COLUMN !in o.columns, !HasMatch(o.fks), INDEX !in o.indexes)
  }

  function Upgrade(s: State): Option<State> {
    if !s.tablesExist || s.marker != NoMarker then None else
    var a := ColumnStep(s.orders);
    if a.None? then None else
    var b := FkStep(a.value);
    if b.None? then None else
    var c := IndexStep(b.value, s.elsewhere);
    if c.None? then None else
    Some(s.(orders := c.value, linked := if COLUMN in s.orders.columns then s.linked else 0,
            marker := Marker(map[1 := CreatedFrom(s.orders)])))
  }

  function DropIndexStep(created: bool, o: Orders): Option<Orders> {
    if !created then Some(o)
    else if INDEX !in o.indexes || !CompatibleIndex(o.indexes[INDEX]) then None
    else Some(o.(indexes := o.indexes - {INDEX}))
  }

  function DropFkStep(created: bool, o: Orders): Option<Orders> {
    if !created then Some(o)
    else if !HasMatch(o.fks) then None
    else var i := FirstMatch(o.fks); Some(o.(fks := o.fks[..i] + o.fks[i+1..]))
  }

  function DropColumnStep(created: bool, o: Orders): Option<Orders> {
    if !created then Some(o) else if ValidColumn(o) then Some(DropColumn(o)) else None
  }

  function Downgrade(s: State): Option<State> {
    if s.marker.NoMarker? || s.marker.rows.Keys != {1} then None else
    var f := s.marker.rows[1];
    if f.column && (COLUMN !in s.orders.columns || s.linked > 0) then None else
    var a := DropIndexStep(f.index, s.orders);
    if a.None? then None else
    var b := DropFkStep(f.fk, a.value);
    if b.None? then None else
    var c := DropColumnStep(f.column, b.value);
    if c.None? then None else
    Some(s.(orders := c.value, linked := if f.column then 0 else s.linked, marker := NoMarker))
  }

  /** Keys and indexes are on columns of the table. */
  predicate Sound(o: Orders) {
    && (forall i, c :: 0 <= i < |o.fks| && c in o.fks[i].cols ==> c in o.columns)
    && (forall n, c :: n in o.indexes && c in o.indexes[n].cols ==> c in o.columns)
  }

  lemma {:induction false} NothingToRemove(fks: seq<ForeignKey>)
    requires !Mentions(fks)
    ensures KeysWithout(fks) == fks
  {
    if fks != [] {
      assert COLUMN !in fks[0].cols;
      forall i | 0 <= i < |fks[1..]| ensures COLUMN !in fks[1..][i].cols {
        assert fks[1..][i] == fks[i+1];
      }
      NothingToRemove(fks[1..]);
    }
  }

  /** A created column comes with a created key and a created index: nothing could refer to it before. */
  lemma CreatedColumnIsNew(o: Orders)
    requires Sound(o) && COLUMN !in o.columns
    ensures !Mentions(o.fks) && CreatedFrom(o).fk
    ensures forall n :: n in o.indexes ==> COLUMN !in o.indexes[n].cols
    ensures INDEX in o.indexes ==> IndexStep(o, {}).None?
  {
    forall fk: ForeignKey | Matches(fk) ensures COLUMN in fk.cols {
    }
  }

  /** So of the eight flag rows an upgrade can only write those where a created column has a created key and index. */
  lemma ReachableFlags(s: State)
    requires Sound(s.orders) && Upgrade(s).Some?
    ensures Upgrade(s).value.marker == Marker(map[1 := CreatedFrom(s.orders)])
    ensures CreatedFrom(s.orders).column ==> CreatedFrom(s.orders).fk && CreatedFrom(s.orders).index
  {
    if COLUMN !in s.orders.columns {
      CreatedColumnIsNew(s.orders);
    }
  }

  lemma FkDropsBack(o: Orders)
    requires FkStep(o).Some?
    ensures DropFkStep(!HasMatch(o.fks), FkStep(o).value) == Some(o)
  {
    if !HasMatch(o.fks) {
      var more := o.fks + [NEW_FK];
      assert Matches(more[|o.fks|]);
      var i := FirstMatch(more);
      forall j | 0 <= j < |o.fks| ensures !Matches(more[j]) {
        assert more[j] == o.fks[j];
      }
      assert i == |o.fks| && more[..i] + more[i+1..] == o.fks;
    }
  }

  lemma ColumnDropsBack(o: Orders)
    requires Sound(o) && ColumnStep(o).Some?
    ensures DropColumnStep(COLUMN !in o.columns, ColumnStep(o).value) == Some(o)
  {
    if COLUMN !in o.columns {
      CreatedColumnIsNew(o);
      NothingToRemove(o.fks);
      var back := DropColumn(AddColumn(o));
      assert back.columns == o.columns;
      assert back.indexes == o.indexes;
    }
  }

  lemma IndexDropsBack(o: Orders, elsewhere: set<string>)
    requires IndexStep(o, elsewhere).Some?
    ensures INDEX in o.indexes || INDEX !in elsewhere ==>
              DropIndexStep(INDEX !in o.indexes, IndexStep(o, elsewhere).value) == Some(o)
    ensures INDEX !in o.indexes && INDEX in elsewhere ==>
              DropIndexStep(INDEX !in o.indexes, IndexStep(o, elsewhere).value).None?
  {
    if INDEX !in o.indexes && INDEX !in elsewhere {
      assert o.indexes[INDEX := NEW_INDEX] - {INDEX} == o.indexes;
    }
  }

  /**
   From any accepted start and after any change of data, the downgrade restores the exact column, key and index set
   exactly when a created column holds no link and a created index was not swallowed by one of the same name on
   another table; in every other case it refuses.
   */
  lemma RoundTrip(s: State, later: State)
    requires Sound(s.orders) && Upgrade(s).Some? && later == Upgrade(s).value.(linked := later.linked)
    ensures Downgrade(later).Some? <==>
            && (COLUMN !in s.orders.columns ==> later.linked == 0)
            && (INDEX !in s.orders.indexes ==> INDEX !in s.elsewhere)
    ensures Downgrade(later).Some? ==>
            Downgrade(later).value == s.(linked := if COLUMN in s.orders.columns then later.linked else 0)
  {
    var f := CreatedFrom(s.orders);
    var a := ColumnStep(s.orders).value;
    var b := FkStep(a).value;
    assert later.marker.rows.Keys == {1} && later.marker.rows[1] == f;
    assert a.fks == s.orders.fks && b.indexes == s.orders.indexes && COLUMN in b.columns;
    IndexDropsBack(b, s.elsewhere);
    FkDropsBack(a);
    ColumnDropsBack(s.orders);
  }

  /** An index of the same name on another table: the upgrade claims an index it did not make and cannot be undone. */
  lemma SwallowedIndex()
    ensures var s := State(true, Orders(map[], [], map[]), {INDEX}, 0, NoMarker);
            Upgrade(s).Some? && Upgrade(s).value.marker.rows[1].index &&
            INDEX !in Upgrade(s).value.orders.indexes && Downgrade(Upgrade(s).value).None?
  {
    var s := State(true, Orders(map[], [], map[]), {INDEX}, 0, NoMarker);
    assert !HasMatch([]) && !Mentions([]);
    assert Upgrade(s).Some?;
    RoundTrip(s, Upgrade(s).value);
  }

  // ----- the revision on columns, keys and indexes -----

  lemma NamesAre()
    ensures COLUMN == "bpa_id" && AGREEMENTS == "blanket_purchase_agreements"
    ensures FK == "fk_purchase_orders_bpa_id_blanket_purchase_agreements" && INDEX == "ix_purchase_orders_bpa_id"
  {
  }

  /** A key on just this column, to the agreements, that restricts deletion. */
  predicate HasLink(fks: seq<ForeignKey>) {
    exists i :: && 0 <= i < |fks| && fks[i].cols == [COLUMN] && fks[i].ref == AGREEMENTS
                && fks[i].refCols == ["id"] && fks[i].onDelete == "RESTRICT"
  }

  lemma HasMatchIff(fks: seq<ForeignKey>)
    ensures HasMatch(fks) <==> HasLink(fks)
  {
    var i := FirstMatch(fks);
    if i < |fks| {
      assert Matches(fks[i]);
    }
  }

  /**
   The upgrade goes through exactly when both tables are there and no ownership table is, a column of the name is a
   nullable UUID, a key like the revision's is there or no key has the column or the revision's name, and an index of
   the name is a plain one on the column.
   */
  lemma UpgradeSucceedsIff(s: State)
    ensures Upgrade(s).Some? <==>
            && s.tablesExist && s.marker == NoMarker
            && (COLUMN in s.orders.columns ==> s.orders.columns[COLUMN] == Column(true, true))
            && (HasLink(s.orders.fks) ||
                forall i :: 0 <= i < |s.orders.fks| ==> COLUMN !in s.orders.fks[i].cols && s.orders.fks[i].name != FK)
            && (INDEX in s.orders.indexes ==> s.orders.indexes[INDEX] == Index([COLUMN], false, false, true))
  {
    HasMatchIff(s.orders.fks);
  }

  /** It adds the column, the key and the index that are missing, but no index under a name another table uses. */
  lemma UpgradeAdds(s: State)
    requires Upgrade(s).Some?
    ensures var s', was := Upgrade(s).value, s.orders;
            && s'.tablesExist == s.tablesExist && s'.elsewhere == s.elsewhere
            && s'.orders.columns ==
               (if COLUMN in was.columns then was.columns else was.columns[COLUMN := Column(true, true)])
            && s'.orders.fks ==
               (if HasLink(was.fks) then was.fks
                else was.fks + [ForeignKey(FK, [COLUMN], AGREEMENTS, ["id"], "RESTRICT")])
            && s'.orders.indexes ==
               (if INDEX in was.indexes || INDEX in s.elsewhere then was.indexes
                else was.indexes[INDEX := Index([COLUMN], false, false, true)])
            && s'.linked == (if COLUMN in was.columns then s.linked else 0)
            && s'.marker ==
               Marker(map[1 := Flags(COLUMN !in was.columns, !HasLink(was.fks), INDEX !in was.indexes)])
  {
    HasMatchIff(s.orders.fks);
  }

  /**
   For any ownership row: the downgrade goes through exactly when the row is the one with id 1, a column it claims is
   there, a nullable UUID and without a link, an index it claims is there as made, and so is a key.
   */
  lemma DowngradeSucceedsIff(s: State)
    ensures Downgrade(s).Some? <==>
            && s.marker.Marker? && s.marker.rows.Keys == {1}
            && (s.marker.rows[1].column ==>
                  COLUMN in s.orders.columns && s.orders.columns[COLUMN] == Column(true, true) && s.linked == 0)
            && (s.marker.rows[1].index ==>
                  INDEX in s.orders.indexes && s.orders.indexes[INDEX] == Index([COLUMN], false, false, true))
            && (s.marker.rows[1].fk ==> HasLink(s.orders.fks))
  {
    HasMatchIff(s.orders.fks);
  }

  lemma {:induction false} KeysWithoutIs(fks: seq<ForeignKey>)
    ensures forall fk :: fk in KeysWithout(fks) <==> fk in fks && COLUMN !in fk.cols
  {
    if fks != [] {
      KeysWithoutIs(fks[1..]);
      assert fks == [fks[0]] + fks[1..];
    }
  }

  /** It takes what the row claims: the index, the first such key, and the column with all that is left on it. */
  lemma DowngradeTakes(s: State)
    requires Downgrade(s).Some?
    ensures s.marker.Marker? && s.marker.rows.Keys == {1}
    ensures var f, s', was := s.marker.rows[1], Downgrade(s).value, s.orders;
            && s'.marker == NoMarker && s'.tablesExist == s.tablesExist && s'.elsewhere == s.elsewhere
            && s'.linked == s.linked
            && s'.orders.columns == (if f.column then was.columns - {COLUMN} else was.columns)
            && (forall n :: n in s'.orders.indexes <==>
                  n in was.indexes && !(f.index && n == INDEX) && !(f.column && COLUMN in was.indexes[n].cols))
            && (forall n :: n in s'.orders.indexes ==> s'.orders.indexes[n] == was.indexes[n])
            && (!f.column && !f.fk ==> s'.orders.fks == was.fks)
            && (!f.column && f.fk ==>
                  exists i :: && 0 <= i < |was.fks| && HasLink([was.fks[i]]) && !HasLink(was.fks[..i])
                              && s'.orders.fks == was.fks[..i] + was.fks[i+1..])
            && (f.column ==>
                  forall fk :: fk in s'.orders.fks <==> fk in was.fks && COLUMN !in fk.cols)
  {
    var f, fks := s.marker.rows[1], s.orders.fks;
    HasMatchIff(fks);
    if f.fk {
      var i := FirstMatch(fks);
      HasMatchIff(fks[..i]);
      assert !HasMatch(fks[..i]);
      assert HasLink([fks[i]]) by { assert Matches([fks[i]][0]); }
      assert fks == fks[..i] + [fks[i]] + fks[i+1..];
      if f.column { KeysWithoutIs(fks[..i] + fks[i+1..]); }
    } else if f.column {
      KeysWithoutIs(fks);
    }
  }

  // ----- the migration itself -----

  class Migration {
    var state: State

    constructor (state: State)
      ensures this.state == state
    {
      this.state := state;
    }

    method Up() returns (ok: bool)
      modifies this
      ensures ok <==> Upgrade(old(state)).Some?
      ensures state == if ok then Upgrade(old(state)).value else old(state)
    {
      if !state.tablesExist || state.marker != NoMarker { return false; }
      var orders := state.orders;
      var column := COLUMN !in orders.columns;
      if column {
        orders := AddColumn(orders);
      } else if !ValidColumn(orders) {
        return false;
      }
      var fk := !HasMatch(orders.fks);
      if fk {
        if Mentions(orders.fks) || NameTaken(orders.fks, FK) { return false; }
        orders := orders.(fks := orders.fks + [NEW_FK]);
      }
      if INDEX in orders.indexes && !CompatibleIndex(orders.indexes[INDEX]) { return false; }
      var index := INDEX !in orders.indexes;
      if index && INDEX !in state.elsewhere {
        orders := orders.(indexes := orders.indexes[INDEX := NEW_INDEX]);
      }
      state := state.(orders := orders, linked := if column then 0 else state.linked,
                      marker := Marker(map[1 := Flags(column, fk, index)]));
      ok := true;
    }

    method Down() returns (ok: bool)
      modifies this
      ensures ok <==> Downgrade(old(state)).Some?
      ensures state == if ok then Downgrade(old(state)).value else old(state)
    {
      if state.marker.NoMarker? || state.marker.rows.Keys != {1} { return false; }
      var f := state.marker.rows[1];
      var orders := state.orders;
      if f.column && (COLUMN !in orders.columns || state.linked > 0) { return false; }
      if f.index {
        if INDEX !in orders.indexes || !CompatibleIndex(orders.indexes[INDEX]) { return false; }
        orders := orders.(indexes := orders.indexes - {INDEX});
      }
      if f.fk {
        var i := FirstMatch(orders.fks);
        if i == |orders.fks| { return false; }
        orders := orders.(fks := orders.fks[..i] + orders.fks[i+1..]);
      }
      if f.column {
        if !ValidColumn(orders) { return false; }
        orders := DropColumn(orders);
      }
      state := state.(orders := orders, linked := if f.column then 0 else state.linked, marker := NoMarker);
      ok := true;
    }
  }
}
