/** Companies, branches and warehouses under the key fk_warehouses_branch_company. */
module WarehouseScope {
  import opened Kleene
  import opened MasterReference

  datatype Site = Site(company: Nullable<int>, branch: Nullable<int>)

  /** `keyed`: the composite key is installed. `branches` maps a branch to its company, which is NOT NULL. */
  datatype State = State(keyed: bool, companies: set<int>, branches: map<int, int>, sites: map<int, Site>)

  datatype Action =
    | InstallKey
    | InsertCompany(company: int)
    | InsertBranch(branch: int, company: int)
    | SaveSite(site: int, value: Site)
    | MoveBranch(branch: int, company: int)
    | DeleteBranch(branch: int)
    | DeleteCompany(company: int)

  /** The composite key is MATCH SIMPLE: it binds only when both columns are set. */
  predicate PairHolds(branches: map<int, int>, site: Site) {
    site.company.Value? && site.branch.Value? ==>
      site.branch.value in branches && branches[site.branch.value] == site.company.value
  }

  predicate PairsHold(s: State) {
    forall w :: w in s.sites ==> PairHolds(s.branches, s.sites[w])
  }

  /** The single-column keys that were there before. */
  predicate ParentsExist(s: State) {
    && (forall b :: b in s.branches ==> s.branches[b] in s.companies)
    && (forall w :: w in s.sites ==>
         && (s.sites[w].company.Value? ==> s.sites[w].company.value in s.companies)
         && (s.sites[w].branch.Value? ==> s.sites[w].branch.value in s.branches))
  }

  predicate Rejects(s: State, a: Action) {
    match a
    case InstallKey => !s.keyed && !PairsHold(s)
    case InsertCompany(c) => c in s.companies
    case InsertBranch(b, c) => b in s.branches || c !in s.companies
    case SaveSite(_, v) =>
      || (v.company.Value? && v.company.value !in s.companies)
      || (v.branch.Value? && v.branch.value !in s.branches)
      || (s.keyed && !PairHolds(s.branches, v))
    case MoveBranch(b, c) =>
      // ON UPDATE NO ACTION: a pair in use cannot be changed
      b in s.branches && (c !in s.companies ||
        (s.keyed && c != s.branches[b] &&
         exists w :: w in s.sites && s.sites[w].branch == Value(b) && s.sites[w].company.Value?))
    case DeleteBranch(_) => false
    case DeleteCompany(_) => false
  }

  function ClearBranches(sites: map<int, Site>, gone: set<int>): map<int, Site> {
    map w | w in sites ::
      if sites[w].branch.Value? && sites[w].branch.value in gone then sites[w].(branch := Null) else sites[w]
  }

  function ClearCompany(sites: map<int, Site>, company: int): map<int, Site> {
    map w | w in sites :: if sites[w].company == Value(company) then sites[w].(company := Null) else sites[w]
  }

  function BranchesOf(branches: map<int, int>, company: int): set<int> {
    set b | b in branches && branches[b] == company
  }

  function Effect(s: State, a: Action): State {
    match a
    case InstallKey => s.(keyed := true)
    case InsertCompany(c) => s.(companies := s.companies + {c})
    case InsertBranch(b, c) => s.(branches := s.branches[b := c])
    case SaveSite(w, v) => s.(sites := s.sites[w := v])
    case MoveBranch(b, c) => if b in s.branches then s.(branches := s.branches[b := c]) else s
    case DeleteBranch(b) => s.(branches := s.branches - {b}, sites := ClearBranches(s.sites, {b}))
    case DeleteCompany(c) =>
      var gone := BranchesOf(s.branches, c);
      s.(companies := s.companies - {c}, branches := s.branches - gone,
         sites := ClearBranches(ClearCompany(s.sites, c), gone))
  }

  function Step(s: State, a: Action): State {
    if Rejects(s, a) then s else Effect(s, a)
  }

  function Run(s: State, actions: seq<Action>): State
    decreases |actions|
  {
    if actions == [] then s else Run(Step(s, actions[0]), actions[1..])
  }

  // ----- the statements, row by row -----

  /** The key goes in exactly when every warehouse with both columns has its branch's company. */
  lemma InstallSucceedsIffConsistent(s: State)
    ensures var s' := Step(s, InstallKey);
            && s'.companies == s.companies && s'.branches == s.branches && s'.sites == s.sites
            && (s'.keyed <==>
                  || s.keyed
                  || forall w :: w in s.sites && s.sites[w].company.Value? && s.sites[w].branch.Value? ==>
                       && s.sites[w].branch.value in s.branches
                       && s.branches[s.sites[w].branch.value] == s.sites[w].company.value)
  {
  }

  /** A row is stored exactly when what it names is there and, under the key, a named branch is the company's. */
  lemma SaveSiteIs(s: State, w: int, v: Site)
    ensures Step(s, SaveSite(w, v)) ==
            if && (v.company.Value? ==> v.company.value in s.companies)
               && (v.branch.Value? ==> v.branch.value in s.branches)
               && (s.keyed && v.company.Value? && v.branch.Value? ==> s.branches[v.branch.value] == v.company.value)
            then State(s.keyed, s.companies, s.branches, s.sites[w := v]) else s
  {
  }

  /** A branch moves to a stored company, unless a warehouse of it under the key names its company. */
  lemma MoveBranchIs(s: State, b: int, c: int)
    ensures Step(s, MoveBranch(b, c)) ==
            if && b in s.branches && c in s.companies
               && (s.keyed && s.branches[b] != c ==>
                     forall w :: w in s.sites && s.sites[w].branch == Value(b) ==> s.sites[w].company == Null)
            then State(s.keyed, s.companies, s.branches[b := c], s.sites) else s
  {
    assert b in s.branches ==> s.branches == s.branches[b := s.branches[b]];
  }

  lemma InsertsAre(s: State, b: int, c: int)
    ensures Step(s, InsertCompany(c)) == State(s.keyed, s.companies + {c}, s.branches, s.sites)
    ensures Step(s, InsertBranch(b, c)) ==
            if b !in s.branches && c in s.companies then State(s.keyed, s.companies, s.branches[b := c], s.sites) else s
  {
    assert c in s.companies ==> s.companies + {c} == s.companies;
  }

  /** A deleted branch is gone and the warehouses stay, without it. */
  lemma DeleteBranchClearsOnlyBranch(s: State, b: int)
    ensures var s' := Step(s, DeleteBranch(b));
            && s'.keyed == s.keyed && s'.companies == s.companies && s'.branches == s.branches - {b}
            && s'.sites.Keys == s.sites.Keys
            && forall w :: w in s.sites ==>
                 && s'.sites[w].company == s.sites[w].company
                 && s'.sites[w].branch == if s.sites[w].branch == Value(b) then Null else s.sites[w].branch
  {
  }

  /** A deleted company is gone with its branches; every warehouse stays, without what is gone and with the rest. */
  lemma DeleteCompanyIs(s: State, c: int)
    ensures var s' := Step(s, DeleteCompany(c));
            && s'.keyed == s.keyed && s'.companies == s.companies - {c}
            && (forall b :: b in s'.branches <==> b in s.branches && s.branches[b] != c)
            && (forall b :: b in s'.branches ==> s'.branches[b] == s.branches[b])
            && s'.sites.Keys == s.sites.Keys
            && forall w :: w in s.sites ==>
                 && s'.sites[w].company == (if s.sites[w].company == Value(c) then Null else s.sites[w].company)
                 && s'.sites[w].branch ==
                    if && s.sites[w].branch.Value? && s.sites[w].branch.value in s.branches
                       && s.branches[s.sites[w].branch.value] == c then Null
                    else s.sites[w].branch
  {
  }

  lemma StepKeepsScope(s: State, a: Action)
    requires ParentsExist(s) && (s.keyed ==> PairsHold(s))
    ensures ParentsExist(Step(s, a)) && (Step(s, a).keyed ==> PairsHold(Step(s, a)))
  {
    var s' := Step(s, a);
    forall w | w in s'.sites && s'.keyed ensures PairHolds(s'.branches, s'.sites[w]) {
      if w in s.sites && s.keyed {
        assert PairHolds(s.branches, s.sites[w]);
      }
    }
  }

  /** Once the key is installed, in every later state a warehouse with both columns has its branch's company. */
  lemma {:induction false} ScopeHoldsInEveryRun(s: State, actions: seq<Action>)
    requires ParentsExist(s) && (s.keyed ==> PairsHold(s))
    ensures var end := Run(s, actions); ParentsExist(end) && (end.keyed ==> PairsHold(end)) && (s.keyed ==> end.keyed)
    ensures var end := Run(s, actions);
            end.keyed ==>
              forall w :: w in end.sites && end.sites[w].company.Value? && end.sites[w].branch.Value? ==>
                && end.sites[w].branch.value in end.branches
                && end.branches[end.sites[w].branch.value] == end.sites[w].company.value
    decreases |actions|
  {
    if actions != [] {
      StepKeepsScope(s, actions[0]);
      ScopeHoldsInEveryRun(Step(s, actions[0]), actions[1..]);
    }
  }

  /** Without the key, moving a branch leaves its warehouses under the old company. */
  lemma UnkeyedMoveBreaksScope()
    ensures var s := State(false, {1, 2}, map[5 := 1], map[9 := Site(Value(1), Value(5))]);
            ParentsExist(s) && PairsHold(s) && !PairsHold(Run(s, [MoveBranch(5, 2)]))
  {
    var s := State(false, {1, 2}, map[5 := 1], map[9 := Site(Value(1), Value(5))]);
    var a := MoveBranch(5, 2);
    assert [a][1..] == [];
    assert Run(s, [a]) == Run(Step(s, a), []);
    assert !PairHolds(Step(s, a).branches, Step(s, a).sites[9]);
  }

  /** Over all runs from consistent tables, consistency lasts exactly when the key is installed from the start. */
  lemma ScopeLastsIffKeyed(keyed: bool)
    ensures keyed <==>
            forall s: State, actions :: s.keyed == keyed && ParentsExist(s) && PairsHold(s) ==>
              PairsHold(Run(s, actions))
  {
    if keyed {
      forall s: State, actions | s.keyed && ParentsExist(s) && PairsHold(s) ensures PairsHold(Run(s, actions)) {
        ScopeHoldsInEveryRun(s, actions);
      }
    } else {
      UnkeyedMoveBreaksScope();
      var s := State(false, {1, 2}, map[5 := 1], map[9 := Site(Value(1), Value(5))]);
      assert s.keyed == keyed && ParentsExist(s) && PairsHold(s) && !PairsHold(Run(s, [MoveBranch(5, 2)]));
    }
  }

  /** The guard reads these branches and warehouses, with any is_active flags. */
  ghost predicate Shows(rows: Rows, s: State) {
    && (forall b :: b in s.branches ==>
          Key(Branch, b) in rows && rows[Key(Branch, b)].company == Value(s.branches[b]))
    && (forall w :: Key(Warehouse, w) in rows ==>
          && w in s.sites
          && rows[Key(Warehouse, w)].company == s.sites[w].company
          && rows[Key(Warehouse, w)].branch == s.sites[w].branch)
  }

  /** In every state reached under the key, the guard's last lookup decides nothing for a warehouse with a company. */
  lemma FinalLookupIdleInEveryRun(s: State, actions: seq<Action>, rows: Rows, w: int)
    requires ParentsExist(s) && s.keyed && PairsHold(s)
    requires Shows(rows, Run(s, actions))
    requires Key(Warehouse, w) in rows && rows[Key(Warehouse, w)].company.Value?
    ensures Verdict(rows, Warehouse, w) == VerdictWithoutFinalLookup(rows, w)
  {
    ScopeHoldsInEveryRun(s, actions);
    var end := Run(s, actions);
    forall k | k in rows && k.kind == Warehouse && rows[k].company.Value? && rows[k].branch.Value?
      ensures var b := Key(Branch, rows[k].branch.value); b in rows && rows[b].company == rows[k].company
    {
      assert k == Key(Warehouse, k.id);
      assert PairHolds(end.branches, end.sites[k.id]);
    }
    FinalLookupRepeatsFirst(rows, w);
  }

  /** A row is rejected exactly when the tables with it would break a key. */
  lemma SaveObeysIff(s: State, w: int, v: Site)
    requires ParentsExist(s) && (s.keyed ==> PairsHold(s))
    ensures var saved := s.(sites := s.sites[w := v]);
            !Rejects(s, SaveSite(w, v)) <==> ParentsExist(saved) && (s.keyed ==> PairsHold(saved))
  {
    var saved := s.(sites := s.sites[w := v]);
    assert saved.sites[w] == v;
    if s.keyed && PairHolds(s.branches, v) {
      forall x | x in saved.sites ensures PairHolds(saved.branches, saved.sites[x]) {
        if x != w { assert PairHolds(s.branches, s.sites[x]); }
      }
    }
  }

  /** NO ACTION on the referenced pair rejects a move exactly when some warehouse would be left with the old pair. */
  lemma MoveObeysIff(s: State, b: int, c: int)
    requires ParentsExist(s) && (s.keyed ==> PairsHold(s)) && b in s.branches
    ensures var moved := s.(branches := s.branches[b := c]);
            !Rejects(s, MoveBranch(b, c)) <==> ParentsExist(moved) && (s.keyed ==> PairsHold(moved))
  {
    var moved := s.(branches := s.branches[b := c]);
    assert moved.branches[b] == c;
    if s.keyed {
      forall x | x in s.sites && s.sites[x].branch == Value(b) && s.sites[x].company.Value?
        ensures PairHolds(moved.branches, s.sites[x]) <==> c == s.branches[b]
      {
        assert PairHolds(s.branches, s.sites[x]);
      }
      if !Rejects(s, MoveBranch(b, c)) {
        forall x | x in s.sites ensures PairHolds(moved.branches, s.sites[x]) {
          assert PairHolds(s.branches, s.sites[x]);
        }
      }
    }
  }

  /** The three tables, changed in place. */
  class MasterTables {
    var keyed: bool
    var companies: set<int>
    var branches: map<int, int>
    var sites: map<int, Site>

    function Current(): State
      reads this
    {
      State(keyed, companies, branches, sites)
    }

    predicate Valid()
      reads this
    {
      ParentsExist(Current()) && (keyed ==> PairsHold(Current()))
    }

    constructor ()
      ensures Valid() && Current() == State(false, {}, map[], map[])
    {
      keyed, companies, branches, sites := false, {}, map[], map[];
    }

    /** The DO block: each ALTER runs only when its constraint is missing. */
    method EnsureKey() returns (ok: bool)
      requires Valid()
      modifies this`keyed
      ensures Valid() && Current() == Step(old(Current()), InstallKey)
      ensures ok <==> PairsHold(Current())
    {
      if !keyed {
        ok := PairsHold(Current());
        keyed := ok;
      } else {
        ok := true;
      }
    }

    method Save(w: int, v: Site) returns (ok: bool)
      requires Valid()
      modifies this`sites
      ensures Valid() && Current() == Step(old(Current()), SaveSite(w, v))
      ensures var saved := State(old(keyed), old(companies), old(branches), old(sites)[w := v]);
              ok <==> ParentsExist(saved) && (keyed ==> PairsHold(saved))
    {
      StepKeepsScope(Current(), SaveSite(w, v));
      SaveObeysIff(Current(), w, v);
      ok := !Rejects(Current(), SaveSite(w, v));
      if ok {
        sites := sites[w := v];
      }
    }

    /** UPDATE branches SET company_id; a branch that is not there is no error. */
    method Move(b: int, c: int) returns (ok: bool)
      requires Valid()
      modifies this`branches
      ensures Valid() && Current() == Step(old(Current()), MoveBranch(b, c))
      ensures b !in old(branches) ==> ok
      ensures b in old(branches) ==>
                var moved := State(old(keyed), old(companies), old(branches)[b := c], old(sites));
                ok <==> ParentsExist(moved) && (keyed ==> PairsHold(moved))
    {
      StepKeepsScope(Current(), MoveBranch(b, c));
      if b in branches { MoveObeysIff(Current(), b, c); }
      ok := !Rejects(Current(), MoveBranch(b, c));
      if ok && b in branches {
        branches := branches[b := c];
      }
    }

    /** Clears the company from its warehouses, then deletes its branches, which clears them in turn. */
    method DropCompany(c: int)
      requires Valid()
      modifies this`companies, this`branches, this`sites
      ensures Valid() && Current() == Step(old(Current()), DeleteCompany(c))
      ensures c !in companies && sites.Keys == old(sites).Keys
      ensures forall w :: w in sites ==>
                sites[w].company == if old(sites)[w].company == Value(c) then Null else old(sites)[w].company
    {
      StepKeepsScope(Current(), DeleteCompany(c));
      var gone := BranchesOf(branches, c);
      sites := ClearCompany(sites, c);
      branches := branches - gone;
      sites := ClearBranches(sites, gone);
      companies := companies - {c};
    }

    method DropBranch(b: int)
      requires Valid()
      modifies this`branches, this`sites
      ensures Valid() && Current() == Step(old(Current()), DeleteBranch(b))
    {
      StepKeepsScope(Current(), DeleteBranch(b));
      branches := branches - {b};
      sites := ClearBranches(sites, {b});
    }
  }
}
