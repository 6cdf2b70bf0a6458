/** Revision 20261030_0009: a table adopted or created, whose missing indexes are added without being recorded. */
module PriceBreaks {

  datatype Option<+T> = None | Some(value: T)

  datatype IndexName = Effective | Minimum | OtherIndex(name: string)

  const REQUIRED := {Effective, Minimum}

  /** `compatible`: columns, checks, primary key, agreement key and the definitions of indexes present all fit. */
  datatype Table = Table(compatible: bool, indexes: set<IndexName>, rows: nat)

  /** `elsewhere`: index names taken on other tables. `createdHere`: the ownership row, when its table exists. */
  datatype State = State(table: Option<Table>, elsewhere: set<IndexName>, createdHere: Option<bool>)

  function WithIndexes(t: Table, elsewhere: set<IndexName>): Table {
    t.(indexes := t.indexes + (REQUIRED - elsewhere))
  }

  predicate Valid(t: Table) {
    t.compatible && REQUIRED <= t.indexes
  }

  function Upgrade(s: State): Option<State> {
    var created := s.table.None?;
    var table := WithIndexes(if created then Table(true, {}, 0) else s.table.value, s.elsewhere);
    if !Valid(table) then None
    else Some(s.(table := Some(table), createdHere := if s.createdHere.Some? then s.createdHere else Some(created)))
  }

  function Downgrade(s: State): Option<State> {
    if s.createdHere.None? || s.table.None? || !Valid(s.table.value) then None
    else if s.createdHere.value then
      if s.table.value.rows > 0 then None else Some(s.(table := None, createdHere := None))
    else Some(s.(createdHere := None))
  }

  /**
   The upgrade goes through exactly when a table that is there fits and both indexes are on it or can be made: an index
   whose name another table uses is not. Then the table has them, and a record is written unless there is one.
   */
  lemma UpgradeIs(s: State)
    ensures Upgrade(s).Some? <==>
            && (s.table.Some? ==> s.table.value.compatible)
            && ((s.table.Some? && Effective in s.table.value.indexes) || Effective !in s.elsewhere)
            && ((s.table.Some? && Minimum in s.table.value.indexes) || Minimum !in s.elsewhere)
    ensures Upgrade(s).Some? ==>
              var s' := Upgrade(s).value;
              && s'.table.Some? && s'.elsewhere == s.elsewhere
              && s'.table.value == (if s.table.None? then Table(true, {Effective, Minimum}, 0)
                                    else s.table.value.(indexes := s.table.value.indexes + {Effective, Minimum}))
              && s'.createdHere == (if s.createdHere.None? then Some(s.table.None?) else s.createdHere)
  {
    if Upgrade(s).Some? {
      assert Upgrade(s).value.table.value.indexes ==
             (if s.table.None? then {} else s.table.value.indexes) + {Effective, Minimum};
    }
  }

  /** The downgrade needs the record and a fitting table with both indexes, and to drop it, an empty one. */
  lemma DowngradeIs(s: State)
    ensures Downgrade(s) ==
            if && s.createdHere.Some? && s.table.Some? && s.table.value.compatible
               && Effective in s.table.value.indexes && Minimum in s.table.value.indexes
               && (s.createdHere.value ==> s.table.value.rows == 0)
            then Some(State(if s.createdHere.value then None else s.table, s.elsewhere, None)) else None
  {
  }

  function WithRows(s: State, rows: nat): State {
    if s.table.Some? then s.(table := Some(s.table.value.(rows := rows))) else s
  }

  /**
   When the undo succeeds, it restores the start exactly if there was no record yet and the table was new or already
   had both indexes. A record that was already there is kept by the upgrade and lost by the undo.
   */
  lemma RoundTripIsExactIff(s: State, rows: nat)
    requires Upgrade(s).Some? && Downgrade(WithRows(Upgrade(s).value, rows)).Some?
    ensures Downgrade(WithRows(Upgrade(s).value, rows)).value == WithRows(s, rows) <==>
            s.createdHere.None? && (s.table.None? || REQUIRED <= s.table.value.indexes)
  {
    if s.table.Some? && !(REQUIRED <= s.table.value.indexes) {
      var n :| n in REQUIRED && n !in s.table.value.indexes;
      assert n in Upgrade(s).value.table.value.indexes;
    } else if s.table.Some? {
      assert s.table.value.indexes + (REQUIRED - s.elsewhere) == s.table.value.indexes;
    }
  }

  /** When it is refused, rows would be lost: that happens exactly for a table recorded as created that is not empty. */
  lemma RefusalMeansRows(s: State, rows: nat)
    requires Upgrade(s).Some?
    ensures Downgrade(WithRows(Upgrade(s).value, rows)).None? <==>
            rows > 0 && if s.createdHere.Some? then s.createdHere.value else s.table.None?
  {
  }

  /** An adopted table without its indexes keeps, after the undo, the two it was given. */
  lemma AdoptedIndexesStay()
    ensures var s := State(Some(Table(true, {}, 3)), {}, None);
            Upgrade(s).Some? && Downgrade(Upgrade(s).value) == Some(State(Some(Table(true, REQUIRED, 3)), {}, None))
  {
    assert {} + (REQUIRED - {}) == REQUIRED;
  }
}
