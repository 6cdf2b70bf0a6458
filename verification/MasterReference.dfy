/** The trigger `guard_active_master_reference`: which rows it reads and locks, and what it accepts. */
module MasterReference {
  import opened Kleene

  datatype Kind = Product | Material | Supplier | Warehouse | Company | Branch | Recipe

  datatype Key = Key(kind: Kind, id: int)

  /** One master row; the parent columns that its table does not have are Null. */
  datatype Row = Row(active: Truth, company: Nullable<int>, branch: Nullable<int>, product: Nullable<int>)

  type Rows = map<Key, Row>

  /** What SELECT ... INTO finds: the row, or nothing. */
  function Fetch(rows: Rows, key: Nullable<Key>): Nullable<Row> {
    if key.Value? && key.value in rows then Value(rows[key.value]) else Null
  }

  /** The is_active value SELECT ... INTO assigns; a missing row assigns NULL. */
  function ActiveOf(row: Nullable<Row>): Truth {
    if row.Null? then Unknown else row.value.active
  }

  function CompanyOf(row: Nullable<Row>): Nullable<Key> {
    if row.Null? || row.value.company.Null? then Null else Value(Key(Company, row.value.company.value))
  }

  function BranchOf(row: Nullable<Row>): Nullable<Key> {
    if row.Null? || row.value.branch.Null? then Null else Value(Key(Branch, row.value.branch.value))
  }

  function ProductOf(row: Nullable<Row>): Nullable<Key> {
    if row.Null? || row.value.product.Null? then Null else Value(Key(Product, row.value.product.value))
  }

  /** A lookup the guard makes next, or none. */
  datatype Link = NoLink | Link(key: Nullable<Key>)

  /** The lookup that follows the rows already seen, when all of them are active. */
  function NextLink(kind: Kind, id: int, seen: seq<Nullable<Row>>): Link {
    if |seen| == 0 then Link(Value(Key(kind, id)))
    else match kind
      case Branch => if |seen| == 1 then Link(CompanyOf(seen[0])) else NoLink
      case Recipe => if |seen| == 1 then Link(ProductOf(seen[0])) else NoLink
      case Warehouse =>
        var company, branch := CompanyOf(seen[0]), BranchOf(seen[0]);
        if |seen| == 1 then
          if company.Value? then Link(company) else if branch.Value? then Link(branch) else NoLink
        else if |seen| == 2 then
          if branch.Null? then NoLink else if company.Value? then Link(branch) else Link(CompanyOf(seen[1]))
        else if |seen| == 3 && company.Value? && branch.Value? then Link(CompanyOf(seen[2]))
        else NoLink
      case _ => NoLink
  }

  /** The guard looks further only while everything it has seen is active. */
  predicate Finished(kind: Kind, id: int, seen: seq<Nullable<Row>>) {
    |seen| > 0 && (ActiveOf(seen[|seen|-1]) != True || NextLink(kind, id, seen).NoLink?)
  }

  /** The rows the guard sees, after those already seen, on a database that does not change under it. */
  function Trail(rows: Rows, kind: Kind, id: int, seen: seq<Nullable<Row>>): (trail: seq<Nullable<Row>>)
    requires |seen| <= 4
    ensures seen <= trail && |trail| > 0
    decreases 4 - |seen|
  {
    if Finished(kind, id, seen) then seen else Trail(rows, kind, id, seen + [Fetch(rows, NextLink(kind, id, seen).key)])
  }

  /** The value of `referenced_active` when the guard decides. */
  function Verdict(rows: Rows, kind: Kind, id: int): Truth {
    var trail := Trail(rows, kind, id, []);
    ActiveOf(trail[|trail|-1])
  }

  predicate Accepts(rows: Rows, kind: Kind, id: int) {
    Verdict(rows, kind, id) != False
  }

  // ----- what the verdict means, said without the guard's order of lookups -----

  /** Every row the rule is about: the master and the parents it names, found by following the columns. */
  function Lineage(rows: Rows, kind: Kind, id: int): set<Nullable<Key>> {
    var self := Fetch(rows, Value(Key(kind, id)));
    var company, branch := CompanyOf(self), BranchOf(self);
    {Value(Key(kind, id))} +
    (match kind
     case Branch => {company}
     case Recipe => {ProductOf(self)}
     case Warehouse =>
       (if company.Value? then {company} else {}) +
       (if branch.Value? then {branch, CompanyOf(Fetch(rows, branch))} else {})
     case _ => {})
  }

  predicate LineageActive(rows: Rows, kind: Kind, id: int) {
    forall key :: key in Lineage(rows, kind, id) ==> ActiveOf(Fetch(rows, key)) == True
  }

  /** No row of the lineage is missing or has a NULL flag. */
  predicate LineageKnown(rows: Rows, kind: Kind, id: int) {
    forall key :: key in Lineage(rows, kind, id) ==> ActiveOf(Fetch(rows, key)) != Unknown
  }

  lemma TrailStep(rows: Rows, kind: Kind, id: int, seen: seq<Nullable<Row>>, row: Nullable<Row>)
    requires |seen| <= 4 && !Finished(kind, id, seen) && Fetch(rows, NextLink(kind, id, seen).key) == row
    ensures |seen + [row]| <= 4
    ensures Trail(rows, kind, id, seen) == Trail(rows, kind, id, seen + [row])
  {
  }

  lemma TrailOnce(rows: Rows, kind: Kind, id: int, seen: seq<Nullable<Row>>)
    requires |seen| <= 4
    ensures Trail(rows, kind, id, seen) ==
            if Finished(kind, id, seen) then seen
            else Trail(rows, kind, id, seen + [Fetch(rows, NextLink(kind, id, seen).key)])
  {
  }

  /** The trail of a warehouse, spelled out: company if set, then branch if set, then the branch's company. */
  lemma WarehouseTrail(rows: Rows, id: int)
    ensures var w := Fetch(rows, Value(Key(Warehouse, id)));
            var c, b := Fetch(rows, CompanyOf(w)), Fetch(rows, BranchOf(w));
            var bc := Fetch(rows, CompanyOf(b));
            Trail(rows, Warehouse, id, []) ==
            if ActiveOf(w) != True then [w]
            else if CompanyOf(w).Value? && ActiveOf(c) != True then [w, c]
            else
              var upTo := if CompanyOf(w).Value? then [w, c] else [w];
              if BranchOf(w).Null? then upTo
              else if ActiveOf(b) != True then upTo + [b]
              else upTo + [b, bc]
  {
    var w := Fetch(rows, Value(Key(Warehouse, id)));
    var c, b := Fetch(rows, CompanyOf(w)), Fetch(rows, BranchOf(w));
    var bc := Fetch(rows, CompanyOf(b));
    TrailOnce(rows, Warehouse, id, []);
    assert [] + [w] == [w];
    TrailOnce(rows, Warehouse, id, [w]);
    if ActiveOf(w) == True {
      if CompanyOf(w).Value? {
        assert [w] + [c] == [w, c];
        WarehouseTrailFromCompany(rows, id);
      } else if BranchOf(w).Value? {
        assert [w] + [b] == [w, b];
        TrailOnce(rows, Warehouse, id, [w, b]);
        if ActiveOf(b) == True {
          assert [w, b] + [bc] == [w, b, bc];
          TrailOnce(rows, Warehouse, id, [w, b, bc]);
        }
      }
    }
  }

  lemma WarehouseTrailFromCompany(rows: Rows, id: int)
    requires CompanyOf(Fetch(rows, Value(Key(Warehouse, id)))).Value?
    ensures var w := Fetch(rows, Value(Key(Warehouse, id)));
            var c, b := Fetch(rows, CompanyOf(w)), Fetch(rows, BranchOf(w));
            var bc := Fetch(rows, CompanyOf(b));
            Trail(rows, Warehouse, id, [w, c]) ==
            if ActiveOf(c) != True || BranchOf(w).Null? then [w, c]
            else if ActiveOf(b) != True then [w, c, b]
            else [w, c, b, bc]
  {
    var w := Fetch(rows, Value(Key(Warehouse, id)));
    var c, b := Fetch(rows, CompanyOf(w)), Fetch(rows, BranchOf(w));
    var bc := Fetch(rows, CompanyOf(b));
    TrailOnce(rows, Warehouse, id, [w, c]);
    if ActiveOf(c) == True && BranchOf(w).Value? {
      assert [w, c] + [b] == [w, c, b];
      TrailOnce(rows, Warehouse, id, [w, c, b]);
      if ActiveOf(b) == True {
        assert [w, c, b] + [bc] == [w, c, b, bc];
        TrailOnce(rows, Warehouse, id, [w, c, b, bc]);
      }
    }
  }

  lemma ParentTrail(rows: Rows, kind: Kind, id: int)
    requires kind != Warehouse
    ensures var m := Fetch(rows, Value(Key(kind, id)));
            var parent := if kind == Branch then CompanyOf(m) else ProductOf(m);
            Trail(rows, kind, id, []) ==
            if ActiveOf(m) == True && (kind == Branch || kind == Recipe) then [m, Fetch(rows, parent)] else [m]
  {
    var m := Fetch(rows, Value(Key(kind, id)));
    var p := Fetch(rows, if kind == Branch then CompanyOf(m) else ProductOf(m));
    TrailOnce(rows, kind, id, []);
    assert [] + [m] == [m];
    TrailOnce(rows, kind, id, [m]);
    assert [m] + [p] == [m, p];
    TrailOnce(rows, kind, id, [m, p]);
  }

  // ----- the verdict on the rows themselves -----

  /** Masters without parents: the flag decides alone. */
  lemma MasterAcceptedIff(rows: Rows, kind: Kind, id: int)
    requires kind != Branch && kind != Warehouse && kind != Recipe
    ensures Verdict(rows, kind, id) == True <==> Key(kind, id) in rows && rows[Key(kind, id)].active == True
    ensures !Accepts(rows, kind, id) <==> Key(kind, id) in rows && rows[Key(kind, id)].active == False
  {
    ParentTrail(rows, kind, id);
  }

  /** A branch counts with its company. */
  lemma BranchAcceptedIff(rows: Rows, id: int)
    ensures Verdict(rows, Branch, id) == True <==>
            && Key(Branch, id) in rows && rows[Key(Branch, id)].active == True
            && rows[Key(Branch, id)].company.Value?
            && var c := Key(Company, rows[Key(Branch, id)].company.value); c in rows && rows[c].active == True
    ensures !Accepts(rows, Branch, id) <==>
            && Key(Branch, id) in rows
            && var b := rows[Key(Branch, id)];
               || b.active == False
               || (b.active == True && b.company.Value? && Key(Company, b.company.value) in rows &&
                   rows[Key(Company, b.company.value)].active == False)
  {
    ParentTrail(rows, Branch, id);
  }

  /** A recipe counts with its product. */
  lemma RecipeAcceptedIff(rows: Rows, id: int)
    ensures Verdict(rows, Recipe, id) == True <==>
            && Key(Recipe, id) in rows && rows[Key(Recipe, id)].active == True
            && rows[Key(Recipe, id)].product.Value?
            && var p := Key(Product, rows[Key(Recipe, id)].product.value); p in rows && rows[p].active == True
    ensures !Accepts(rows, Recipe, id) <==>
            && Key(Recipe, id) in rows
            && var r := rows[Key(Recipe, id)];
               || r.active == False
               || (r.active == True && r.product.Value? && Key(Product, r.product.value) in rows &&
                   rows[Key(Product, r.product.value)].active == False)
  {
    ParentTrail(rows, Recipe, id);
  }

  /** A warehouse counts with its company, where it names one, and with its branch and the branch's company. */
  lemma WarehouseVerdictIsTrueIff(rows: Rows, id: int)
    ensures Verdict(rows, Warehouse, id) == True <==>
            && Key(Warehouse, id) in rows
            && var w := rows[Key(Warehouse, id)];
            && w.active == True
            && (w.company.Value? ==>
                  Key(Company, w.company.value) in rows && rows[Key(Company, w.company.value)].active == True)
            && (w.branch.Value? ==>
                  && Key(Branch, w.branch.value) in rows
                  && var b := rows[Key(Branch, w.branch.value)];
                  && b.active == True && b.company.Value?
                  && Key(Company, b.company.value) in rows && rows[Key(Company, b.company.value)].active == True)
  {
    WarehouseTrail(rows, id);
  }

  /** It is refused for its own flag, its company's, or, with a company that is active or unnamed, its branch's side. */
  lemma WarehouseRefusedIff(rows: Rows, id: int)
    ensures !Accepts(rows, Warehouse, id) <==>
            && Key(Warehouse, id) in rows
            && var w := rows[Key(Warehouse, id)];
               || w.active == False
               || (w.active == True && w.company.Value? && Key(Company, w.company.value) in rows &&
                   rows[Key(Company, w.company.value)].active == False)
               || (&& w.active == True && w.branch.Value? && Key(Branch, w.branch.value) in rows
                   && (w.company.Value? ==>
                         Key(Company, w.company.value) in rows && rows[Key(Company, w.company.value)].active == True)
                   && var b := rows[Key(Branch, w.branch.value)];
                      || b.active == False
                      || (b.active == True && b.company.Value? && Key(Company, b.company.value) in rows &&
                          rows[Key(Company, b.company.value)].active == False))
  {
    WarehouseTrail(rows, id);
  }

  /** The guard's verdict is TRUE exactly when the master and every parent it names exist and are active. */
  lemma VerdictTrueIffLineageActive(rows: Rows, kind: Kind, id: int)
    ensures Verdict(rows, kind, id) == True <==> LineageActive(rows, kind, id)
  {
    var self := Value(Key(kind, id));
    assert self in Lineage(rows, kind, id);
    var m := Fetch(rows, self);
    if kind == Warehouse {
      WarehouseTrail(rows, id);
      var c, b := CompanyOf(m), BranchOf(m);
      var bc := CompanyOf(Fetch(rows, b));
      assert c.Value? ==> c in Lineage(rows, kind, id);
      assert b.Value? ==> b in Lineage(rows, kind, id) && bc in Lineage(rows, kind, id);
    } else {
      ParentTrail(rows, kind, id);
      var parent := if kind == Branch then CompanyOf(m) else ProductOf(m);
      assert kind == Branch || kind == Recipe ==> parent in Lineage(rows, kind, id);
    }
  }

  /** On rows without NULL flags or missing parents, a reference is accepted exactly when its lineage is active. */
  lemma GuardIsExactOnKnownRows(rows: Rows, kind: Kind, id: int)
    requires LineageKnown(rows, kind, id)
    ensures Accepts(rows, kind, id) <==> LineageActive(rows, kind, id)
  {
    VerdictTrueIffLineageActive(rows, kind, id);
    var self := Value(Key(kind, id));
    var m := Fetch(rows, self);
    assert self in Lineage(rows, kind, id);
    if kind == Warehouse {
      WarehouseTrail(rows, id);
      var c, b := CompanyOf(m), BranchOf(m);
      var bc := CompanyOf(Fetch(rows, b));
      assert c.Value? ==> c in Lineage(rows, kind, id);
      assert b.Value? ==> b in Lineage(rows, kind, id) && bc in Lineage(rows, kind, id);
    } else {
      ParentTrail(rows, kind, id);
      var parent := if kind == Branch then CompanyOf(m) else ProductOf(m);
      assert kind == Branch || kind == Recipe ==> parent in Lineage(rows, kind, id);
    }
  }

  lemma VerdictDecidesExactness(rows: Rows, kind: Kind, id: int)
    ensures (Accepts(rows, kind, id) <==> LineageActive(rows, kind, id)) <==> Verdict(rows, kind, id) != Unknown
  {
    VerdictTrueIffLineageActive(rows, kind, id);
  }

  /** A row that is asked for is there, with flag FALSE. */
  predicate Inactive(rows: Rows, key: Nullable<Key>) {
    key.Value? && key.value in rows && rows[key.value].active == False
  }

  predicate Active(rows: Rows, key: Nullable<Key>) {
    key.Value? && key.value in rows && rows[key.value].active == True
  }

  /** The rows named by a list of keys are active up to one, if any, that is there with flag FALSE. */
  predicate StopsAtKnown(rows: Rows, keys: seq<Nullable<Key>>) {
    keys == [] || Inactive(rows, keys[0]) || (Active(rows, keys[0]) && StopsAtKnown(rows, keys[1..]))
  }

  /** The rows of the lineage in the order in which they matter, read off the columns. */
  function InOrder(rows: Rows, kind: Kind, id: int): seq<Nullable<Key>> {
    var self := Value(Key(kind, id));
    var row := Fetch(rows, self);
    var branch := BranchOf(row);
    match kind
    case Branch => [self, CompanyOf(row)]
    case Recipe => [self, ProductOf(row)]
    case Warehouse =>
      [self]
      + (if CompanyOf(row).Value? then [CompanyOf(row)] else [])
      + (if branch.Value? then [branch, CompanyOf(Fetch(rows, branch))] else [])
    case _ => [self]
  }

  lemma InOrderIsLineage(rows: Rows, kind: Kind, id: int)
    ensures forall key :: key in InOrder(rows, kind, id) <==> key in Lineage(rows, kind, id)
  {
  }

  predicate AllActive(rows: Rows, keys: seq<Nullable<Key>>) {
    forall i :: 0 <= i < |keys| ==> Active(rows, keys[i])
  }

  /** The flag of the first row that is not active, or TRUE. */
  function FirstNotActive(rows: Rows, keys: seq<Nullable<Key>>): Truth {
    if keys == [] then True
    else if Active(rows, keys[0]) then FirstNotActive(rows, keys[1..])
    else ActiveOf(Fetch(rows, keys[0]))
  }

  lemma {:induction false} FirstDecides(rows: Rows, keys: seq<Nullable<Key>>)
    ensures FirstNotActive(rows, keys) == True <==> AllActive(rows, keys)
    ensures FirstNotActive(rows, keys) != Unknown <==> StopsAtKnown(rows, keys)
  {
    if keys != [] {
      FirstDecides(rows, keys[1..]);
      assert forall i :: 0 < i < |keys| ==> keys[i] == keys[1..][i-1];
    }
  }

  lemma FirstOfTwo(rows: Rows, a: Nullable<Key>, rest: seq<Nullable<Key>>)
    ensures FirstNotActive(rows, [a] + rest) ==
            if ActiveOf(Fetch(rows, a)) == True then FirstNotActive(rows, rest) else ActiveOf(Fetch(rows, a))
  {
    assert ([a] + rest)[1..] == rest;
  }

  /** The verdict is the flag of the first row in that order which is not active. */
  lemma VerdictIsFirstNotActive(rows: Rows, kind: Kind, id: int)
    ensures Verdict(rows, kind, id) == FirstNotActive(rows, InOrder(rows, kind, id))
  {
    var self := Value(Key(kind, id));
    var row := Fetch(rows, self);
    if kind == Warehouse {
      WarehouseTrail(rows, id);
      var company, branch := CompanyOf(row), BranchOf(row);
      var last := CompanyOf(Fetch(rows, branch));
      FirstOfTwo(rows, last, []);
      FirstOfTwo(rows, branch, [last]);
      var tail := if branch.Value? then [branch, last] else [];
      FirstOfTwo(rows, company, tail);
      var rest := if company.Value? then [company] + tail else tail;
      FirstOfTwo(rows, self, rest);
      assert InOrder(rows, kind, id) == [self] + rest;
      assert [branch] + [last] == [branch, last];
    } else {
      ParentTrail(rows, kind, id);
      var parent := if kind == Branch then CompanyOf(row) else ProductOf(row);
      FirstOfTwo(rows, parent, []);
      FirstOfTwo(rows, self, [parent]);
      FirstOfTwo(rows, self, []);
      assert [self] + [parent] == [self, parent] && [self] + [] == [self] && [parent] + [] == [parent];
    }
  }

  /**
   On any rows, the guard enforces the rule exactly when the rows of the lineage, in order, are active up to one that
   is there with flag FALSE: a missing row or a NULL flag before that lets the reference through.
   */
  lemma GuardIsExactIffStopsAtKnown(rows: Rows, kind: Kind, id: int)
    ensures (Accepts(rows, kind, id) <==> LineageActive(rows, kind, id)) <==>
            StopsAtKnown(rows, InOrder(rows, kind, id))
  {
    VerdictDecidesExactness(rows, kind, id);
    VerdictIsFirstNotActive(rows, kind, id);
    FirstDecides(rows, InOrder(rows, kind, id));
  }

  /** A NULL flag on the company stops the guard before it reaches an inactive branch. */
  lemma NullCompanyHidesInactiveBranch()
    ensures var rows: Rows := map[Key(Warehouse, 1) := Row(True, Value(2), Value(3), Null),
                                  Key(Company, 2) := Row(Unknown, Null, Null, Null),
                                  Key(Branch, 3) := Row(False, Value(2), Null, Null)];
            Accepts(rows, Warehouse, 1) && ActiveOf(Fetch(rows, Value(Key(Branch, 3)))) == False
  {
    var rows: Rows := map[Key(Warehouse, 1) := Row(True, Value(2), Value(3), Null),
                          Key(Company, 2) := Row(Unknown, Null, Null, Null),
                          Key(Branch, 3) := Row(False, Value(2), Null, Null)];
    WarehouseTrail(rows, 1);
  }

  // ----- the final company lookup -----

  /** The verdict without the lookup of the branch's company that ends the warehouse case. */
  function VerdictWithoutFinalLookup(rows: Rows, id: int): Truth {
    var trail := Trail(rows, Warehouse, id, []);
    var w := Fetch(rows, Value(Key(Warehouse, id)));
    var links := 1 + (if CompanyOf(w).Value? then 1 else 0) + (if BranchOf(w).Value? then 1 else 0);
    if links <= |trail| then ActiveOf(trail[links-1]) else ActiveOf(trail[|trail|-1])
  }

  /** What the key fk_warehouses_branch_company keeps: a warehouse with both columns has the branch's own company. */
  predicate ScopeConsistent(rows: Rows) {
    forall k :: k in rows && k.kind == Warehouse && rows[k].company.Value? && rows[k].branch.Value? ==>
      var b := Key(Branch, rows[k].branch.value);
      b in rows && rows[b].company == rows[k].company
  }

  /** On consistent rows the last lookup matters only for a warehouse that has a branch and no company of its own. */
  lemma FinalLookupRepeatsFirst(rows: Rows, id: int)
    requires ScopeConsistent(rows)
    ensures var w := Fetch(rows, Value(Key(Warehouse, id)));
            var b := Fetch(rows, BranchOf(w));
            Verdict(rows, Warehouse, id) != VerdictWithoutFinalLookup(rows, id) <==>
            && ActiveOf(w) == True && CompanyOf(w).Null? && BranchOf(w).Value? && ActiveOf(b) == True
            && ActiveOf(Fetch(rows, CompanyOf(b))) != True
  {
    WarehouseTrail(rows, id);
    var key := Key(Warehouse, id);
    if key in rows && rows[key].company.Value? && rows[key].branch.Value? {
      var b := Key(Branch, rows[key].branch.value);
      assert b in rows && rows[b].company == rows[key].company;
    }
  }

  // ----- the trigger body -----

  datatype Operation = Insert | Update

  /** One firing of the trigger inside a transaction: `shared` is the set of rows its transaction holds FOR SHARE. */
  class GuardCall {
    const rows: Rows
    var shared: set<Key>

    constructor (rows: Rows)
      ensures this.rows == rows && shared == {}
    {
      this.rows := rows;
      shared := {};
    }

    /** SELECT ... INTO ... FOR SHARE. */
    method SelectForShare(key: Nullable<Key>) returns (row: Nullable<Row>)
      modifies this
      ensures row == Fetch(rows, key)
      ensures shared == old(shared) + (if row.Value? then {key.value} else {})
    {
      row := Fetch(rows, key);
      if row.Value? {
        shared := shared + {key.value};
      }
    }

    /** The lookups for a master without parents. */
    method LookAtMaster(kind: Kind, id: int) returns (active: Truth)
      requires kind !in {Branch, Warehouse, Recipe}
      modifies this
      ensures old(shared) <= shared && active == Verdict(rows, kind, id)
      ensures active == True ==> forall key :: key in Lineage(rows, kind, id) && key.Value? ==> key.value in shared
    {
      ParentTrail(rows, kind, id);
      var m := SelectForShare(Value(Key(kind, id)));
      active := ActiveOf(m);
    }

    /** Those for a branch or a recipe, with its company or product. */
    method LookAtChild(kind: Kind, id: int) returns (active: Truth)
      requires kind in {Branch, Recipe}
      modifies this
      ensures old(shared) <= shared && active == Verdict(rows, kind, id)
      ensures active == True ==> forall key :: key in Lineage(rows, kind, id) && key.Value? ==> key.value in shared
    {
      ParentTrail(rows, kind, id);
      var m := SelectForShare(Value(Key(kind, id)));
      active := ActiveOf(m);
      if active == True {
        var p := SelectForShare(if kind == Branch then CompanyOf(m) else ProductOf(m));
        active := And(active, ActiveOf(p));
      }
    }

    method LookAtWarehouse(id: int) returns (active: Truth)
      modifies this
      ensures old(shared) <= shared && active == Verdict(rows, Warehouse, id)
      ensures active == True ==> forall key :: key in Lineage(rows, Warehouse, id) && key.Value? ==> key.value in shared
    {
      WarehouseTrail(rows, id);
      var w := SelectForShare(Value(Key(Warehouse, id)));
      active := ActiveOf(w);
      if active == True && CompanyOf(w).Value? {
        var c := SelectForShare(CompanyOf(w));
        active := And(active, ActiveOf(c));
      }
      if active == True && BranchOf(w).Value? {
        var b := SelectForShare(BranchOf(w));
        active := And(active, ActiveOf(b));
        if active == True {
          var c := SelectForShare(CompanyOf(b));
          active := And(active, ActiveOf(c));
        }
      }
    }

    /** An unchanged or NULL reference passes without a lookup; any other passes unless its verdict is FALSE. */
    method Guard(op: Operation, oldRef: Nullable<int>, newRef: Nullable<int>, kind: Kind) returns (raised: bool)
      modifies this
      ensures raised <==> newRef.Value? && (op == Insert || newRef != oldRef) && !Accepts(rows, kind, newRef.value)
      ensures old(shared) <= shared
      ensures newRef.Value? && (op == Insert || newRef != oldRef) &&
              Verdict(rows, kind, newRef.value) == True ==>
              forall key :: key in Lineage(rows, kind, newRef.value) && key.Value? ==> key.value in shared
    {
      if op == Update && newRef == oldRef { return false; }
      if newRef.Null? { return false; }
      var referencedActive: Truth;
      if kind == Warehouse {
        referencedActive := LookAtWarehouse(newRef.value);
      } else if kind == Branch || kind == Recipe {
        referencedActive := LookAtChild(kind, newRef.value);
      } else {
        referencedActive := LookAtMaster(kind, newRef.value);
      }
      raised := referencedActive == False;
    }
  }
}
