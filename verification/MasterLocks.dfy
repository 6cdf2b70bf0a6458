/**
 Transactions that fire the reference guard, interleaved with transactions that change masters.

 READ COMMITTED with row locks: a lookup of the guard reads the newest committed version of a row (or the
 transaction's own) and takes FOR SHARE on it; an UPDATE or DELETE of a master needs the row to itself.
 Both kinds of lock last until the transaction ends.
 */
module MasterLocks {
  import opened Kleene
  import opened MasterReference

  type Tid = int
  type Child = int

  datatype Reference = Reference(kind: Kind, id: int)

  /** One lookup of a guard call: the key it asked for and the row it got. */
  datatype Lookup = Lookup(key: Nullable<Key>, row: Nullable<Row>)

  datatype Call = NoCall | Call(child: Child, ref: Reference, seen: seq<Lookup>)

  /** An uncommitted value of a referencing column, with the lookups that let it through. */
  datatype Claim = Claim(ref: Nullable<Reference>, evidence: seq<Lookup>)

  datatype Txn = Txn(writes: map<Key, Nullable<Row>>, claims: map<Child, Claim>, shared: set<Key>, call: Call)

  datatype State = State(rows: Rows, refs: map<Child, Nullable<Reference>>, open: map<Tid, Txn>)

  datatype Action =
    | Begin(t: Tid)
    | ClearReference(t: Tid, child: Child)
    | FireGuard(t: Tid, child: Child, ref: Reference)
    | Look(t: Tid)
    | Decide(t: Tid)
    | WriteMaster(t: Tid, key: Key, row: Nullable<Row>)
    | Commit(t: Tid)
    | Rollback(t: Tid)

  function RowsOf(seen: seq<Lookup>): (rows: seq<Nullable<Row>>)
    ensures |rows| == |seen|
    ensures forall i :: 0 <= i < |seen| ==> rows[i] == seen[i].row
  {
    seq(|seen|, i requires 0 <= i < |seen| => seen[i].row)
  }

  predicate Done(ref: Reference, seen: seq<Lookup>) {
    Finished(ref.kind, ref.id, RowsOf(seen))
  }

  function LastActive(seen: seq<Lookup>): Truth {
    if |seen| == 0 then Unknown else ActiveOf(seen[|seen|-1].row)
  }

  /** What transaction t sees: its own write if it made one, else the committed row. */
  function View(s: State, t: Tid, key: Nullable<Key>): Nullable<Row>
    requires t in s.open
  {
    if key.Value? && key.value in s.open[t].writes then s.open[t].writes[key.value] else Fetch(s.rows, key)
  }

  function Overlay(rows: Rows, writes: map<Key, Nullable<Row>>): Rows {
    map k | k in rows.Keys + writes.Keys && (k in writes ==> writes[k].Value?) ::
      if k in writes then writes[k].value else rows[k]
  }

  function References(claims: map<Child, Claim>): map<Child, Nullable<Reference>> {
    map c | c in claims :: claims[c].ref
  }

  /** A referencing row is written by one transaction at a time. */
  predicate ChildFree(s: State, t: Tid, child: Child) {
    forall u :: u in s.open && u != t ==>
      child !in s.open[u].claims && !(s.open[u].call.Call? && s.open[u].call.child == child)
  }

  predicate Enabled(s: State, a: Action) {
    match a
    case Begin(t) => t !in s.open
    case ClearReference(t, child) => t in s.open && s.open[t].call.NoCall? && ChildFree(s, t, child)
    case FireGuard(t, child, _) => t in s.open && s.open[t].call.NoCall? && ChildFree(s, t, child)
    case Look(t) =>
      && t in s.open && s.open[t].call.Call? && !Done(s.open[t].call.ref, s.open[t].call.seen)
      && var link := NextLink(s.open[t].call.ref.kind, s.open[t].call.ref.id, RowsOf(s.open[t].call.seen));
         // an uncommitted change of a committed row is waited for; an uncommitted new row is not seen at all
         link.key.Value? && link.key.value in s.rows ==>
           forall u :: u in s.open && u != t ==> link.key.value !in s.open[u].writes
    case Decide(t) => t in s.open && s.open[t].call.Call? && Done(s.open[t].call.ref, s.open[t].call.seen)
    case WriteMaster(t, key, _) =>
      && t in s.open && s.open[t].call.NoCall?
      && forall u :: u in s.open && u != t ==> key !in s.open[u].writes && key !in s.open[u].shared
    case Commit(t) => t in s.open && s.open[t].call.NoCall?
    case Rollback(t) => t in s.open
  }

  function Apply(s: State, a: Action): State
    requires Enabled(s, a)
  {
    match a
    case Begin(t) => s.(open := s.open[t := Txn(map[], map[], {}, NoCall)])
    case ClearReference(t, child) =>
      var x := s.open[t];
      s.(open := s.open[t := x.(claims := x.claims[child := Claim(Null, [])])])
    case FireGuard(t, child, ref) =>
      s.(open := s.open[t := s.open[t].(call := Call(child, ref, []))])
    case Look(t) =>
      var x := s.open[t];
      var key := NextLink(x.call.ref.kind, x.call.ref.id, RowsOf(x.call.seen)).key;
      var row := View(s, t, key);
      s.(open := s.open[t := x.(shared := x.shared + (if row.Value? then {key.value} else {}),
                                call := x.call.(seen := x.call.seen + [Lookup(key, row)]))])
    case Decide(t) =>
      var x := s.open[t];
      // RAISE, or a reference to a row that is not there when the key is checked, ends the transaction
      if LastActive(x.call.seen) == False || View(s, t, Value(Key(x.call.ref.kind, x.call.ref.id))).Null? then
        s.(open := s.open - {t})
      else
        s.(open := s.open[t := x.(call := NoCall,
                                  claims := x.claims[x.call.child := Claim(Value(x.call.ref), x.call.seen)])])
    case WriteMaster(t, key, row) =>
      var x := s.open[t];
      s.(open := s.open[t := x.(writes := x.writes[key := row])])
    case Commit(t) =>
      State(Overlay(s.rows, s.open[t].writes), s.refs + References(s.open[t].claims), s.open - {t})
    case Rollback(t) => s.(open := s.open - {t})
  }

  /** The state after a run, when every action of it is enabled in turn. */
  function Run(s: State, actions: seq<Action>): Nullable<State>
    decreases |actions|
  {
    if actions == [] then Value(s)
    else if !Enabled(s, actions[0]) then Null
    else Run(Apply(s, actions[0]), actions[1..])
  }

  predicate Initial(s: State) {
    s.open == map[]
  }

  // ----- what each step does -----

  /** Only a commit changes the database, and no step touches another transaction. */
  lemma OnlyCommitsWrite(s: State, a: Action)
    requires Enabled(s, a)
    ensures !a.Commit? ==> Apply(s, a).rows == s.rows && Apply(s, a).refs == s.refs
    ensures forall u :: u != a.t ==> (u in Apply(s, a).open <==> u in s.open)
    ensures forall u :: u != a.t && u in s.open ==> Apply(s, a).open[u] == s.open[u]
  {
  }

  /** A commit stores the transaction's rows and references, removes the rows it deleted, and nothing else. */
  lemma CommitStores(s: State, t: Tid)
    requires Enabled(s, Commit(t))
    ensures var x, s' := s.open[t], Apply(s, Commit(t));
            && t !in s'.open
            && (forall k :: k in x.writes ==> (k in s'.rows <==> x.writes[k].Value?))
            && (forall k :: k in x.writes && x.writes[k].Value? ==> s'.rows[k] == x.writes[k].value)
            && (forall k :: k !in x.writes ==> (k in s'.rows <==> k in s.rows))
            && (forall k :: k !in x.writes && k in s.rows ==> s'.rows[k] == s.rows[k])
            && (forall c :: c in s'.refs <==> c in s.refs || c in x.claims)
            && (forall c :: c in x.claims ==> s'.refs[c] == x.claims[c].ref)
            && (forall c :: c !in x.claims && c in s.refs ==> s'.refs[c] == s.refs[c])
  {
  }

  /**
   The guard's decision. The transaction ends when the last row looked up is there with flag FALSE, or when the
   referenced row itself is not there for it; else the reference becomes a claim with these lookups as evidence.
   */
  lemma DecisionIs(s: State, t: Tid)
    requires Enabled(s, Decide(t))
    ensures var x, s' := s.open[t], Apply(s, Decide(t));
            var seen, self := x.call.seen, Key(x.call.ref.kind, x.call.ref.id);
            && |seen| > 0
            && (t !in s'.open <==>
                  || (seen[|seen|-1].row.Value? && seen[|seen|-1].row.value.active == False)
                  || (if self in x.writes then x.writes[self].Null? else self !in s.rows))
            && (t in s'.open ==>
                  s'.open[t] == Txn(x.writes, x.claims[x.call.child := Claim(Value(x.call.ref), seen)],
                                    x.shared, NoCall))
  {
    assert |RowsOf(s.open[t].call.seen)| > 0;
  }

  /** A lookup locks the row it finds, and nothing when it finds none; a written row is the transaction's own. */
  lemma LookTakes(s: State, t: Tid)
    requires Enabled(s, Look(t))
    ensures var x, y := s.open[t], Apply(s, Look(t)).open[t];
            && |y.call.seen| == |x.call.seen| + 1 && y.call.seen[..|x.call.seen|] == x.call.seen
            && y.writes == x.writes && y.claims == x.claims
            && y.call.child == x.call.child && y.call.ref == x.call.ref
            && var l := y.call.seen[|x.call.seen|];
            && (x.call.seen == [] ==> l.key == Value(Key(x.call.ref.kind, x.call.ref.id)))
            && (l.row.Value? ==> l.key.Value?)
            && (l.key.Value? && l.key.value in x.writes ==> l.row == x.writes[l.key.value])
            && (l.key.Value? && l.key.value !in x.writes ==> (l.row.Value? <==> l.key.value in s.rows))
            && (l.key.Value? && l.key.value !in x.writes && l.row.Value? ==> l.row.value == s.rows[l.key.value])
            && y.shared == x.shared + (if l.row.Value? then {l.key.value} else {})
  {
  }

  /** The other steps of an open transaction: what they leave of its pending work. */
  lemma PendingAfter(s: State, a: Action)
    requires Enabled(s, a) && !a.Look? && !a.Decide?
    ensures a.Begin? <==> a.t !in s.open
    ensures (a.Commit? || a.Rollback?) ==> a.t !in Apply(s, a).open
    ensures a.Begin? ==> a.t in Apply(s, a).open && Apply(s, a).open[a.t] == Txn(map[], map[], {}, NoCall)
    ensures a.ClearReference? ==>
              && a.t in s.open && a.t in Apply(s, a).open
              && Apply(s, a).open[a.t] == s.open[a.t].(claims := s.open[a.t].claims[a.child := Claim(Null, [])])
    ensures a.FireGuard? ==>
              && a.t in s.open && a.t in Apply(s, a).open
              && Apply(s, a).open[a.t] == s.open[a.t].(call := Call(a.child, a.ref, []))
    ensures a.WriteMaster? ==>
              && a.t in s.open && a.t in Apply(s, a).open
              && Apply(s, a).open[a.t] == s.open[a.t].(writes := s.open[a.t].writes[a.key := a.row])
  {
  }

  /** No row is waited for but one that another open transaction has written, or read through its guard. */
  lemma WaitsOnlyForOthers(s: State, a: Action)
    requires !Enabled(s, a) && (a.Begin? <==> a.t !in s.open)
    requires a.Look? ==> s.open[a.t].call.Call? && !Done(s.open[a.t].call.ref, s.open[a.t].call.seen)
    requires a.Decide? ==> s.open[a.t].call.Call? && Done(s.open[a.t].call.ref, s.open[a.t].call.seen)
    requires !a.Look? && !a.Decide? && !a.Rollback? && !a.Begin? ==> s.open[a.t].call.NoCall?
    ensures a.Look? ==>
              var x := s.open[a.t];
              var key := NextLink(x.call.ref.kind, x.call.ref.id, RowsOf(x.call.seen)).key;
              && key.Value? && key.value in s.rows
              && exists u :: u in s.open && u != a.t && key.value in s.open[u].writes
    ensures a.WriteMaster? ==>
              exists u :: u in s.open && u != a.t && (a.key in s.open[u].writes || a.key in s.open[u].shared)
    ensures a.FireGuard? || a.ClearReference? ==>
              exists u :: && u in s.open && u != a.t
                          && (a.child in s.open[u].claims ||
                              (s.open[u].call.Call? && s.open[u].call.child == a.child))
    ensures a.Look? || a.WriteMaster? || a.FireGuard? || a.ClearReference?
  {
  }

  // ----- the invariant -----

  /** The lookups follow the guard's own order, and it never looked on after stopping. */
  predicate Walk(ref: Reference, seen: seq<Lookup>) {
    forall i :: 0 <= i < |seen| ==>
      && !Done(ref, seen[..i])
      && seen[i].key == NextLink(ref.kind, ref.id, RowsOf(seen[..i])).key
  }

  /** A row that was read is locked, and unless the transaction writes it itself it is still the committed row. */
  predicate Pinned(rows: Rows, x: Txn, l: Lookup) {
    l.row.Value? ==>
      && l.key.Value? && l.key.value in x.shared
      && (l.key.value !in x.writes ==> Fetch(rows, l.key) == l.row)
  }

  predicate AllPinned(rows: Rows, x: Txn, seen: seq<Lookup>) {
    forall i :: 0 <= i < |seen| ==> Pinned(rows, x, seen[i])
  }

  predicate ClaimSound(rows: Rows, x: Txn, claim: Claim) {
    claim.ref.Value? ==>
      && Walk(claim.ref.value, claim.evidence)
      && Done(claim.ref.value, claim.evidence)
      && LastActive(claim.evidence) != False
      && AllPinned(rows, x, claim.evidence)
  }

  predicate CallSound(rows: Rows, x: Txn) {
    x.call.Call? ==> Walk(x.call.ref, x.call.seen) && AllPinned(rows, x, x.call.seen)
  }

  predicate Sound(rows: Rows, x: Txn) {
    && CallSound(rows, x)
    && forall c :: c in x.claims ==> ClaimSound(rows, x, x.claims[c])
  }

  predicate Exclusive(open: map<Tid, Txn>) {
    forall t, u :: t in open && u in open && t != u ==>
      open[t].writes.Keys !! open[u].writes.Keys && open[t].shared !! open[u].writes.Keys
  }

  predicate Invariant(s: State) {
    && Exclusive(s.open)
    && forall t :: t in s.open ==> Sound(s.rows, s.open[t])
  }

  lemma WalkOnce(ref: Reference, seen: seq<Lookup>, l: Lookup)
    requires Walk(ref, seen) && !Done(ref, seen)
    requires l.key == NextLink(ref.kind, ref.id, RowsOf(seen)).key
    ensures Walk(ref, seen + [l])
  {
    forall i | 0 <= i < |seen + [l]|
      ensures !Done(ref, (seen + [l])[..i])
      ensures (seen + [l])[i].key == NextLink(ref.kind, ref.id, RowsOf((seen + [l])[..i])).key
    {
      assert (seen + [l])[..i] == seen[..i];
      assert seen[..|seen|] == seen;
    }
  }

  /** Taking more locks and writing more rows unpins nothing. */
  lemma PinsGrow(rows: Rows, x: Txn, y: Txn, seen: seq<Lookup>)
    requires AllPinned(rows, x, seen)
    requires x.shared <= y.shared && x.writes.Keys <= y.writes.Keys
    ensures AllPinned(rows, y, seen)
  {
    forall i | 0 <= i < |seen| ensures Pinned(rows, y, seen[i]) {
      assert Pinned(rows, x, seen[i]);
    }
  }

  lemma ClaimsGrow(rows: Rows, x: Txn, y: Txn)
    requires Sound(rows, x)
    requires x.shared <= y.shared && x.writes.Keys <= y.writes.Keys
    ensures forall c :: c in x.claims ==> ClaimSound(rows, y, x.claims[c])
  {
    forall c | c in x.claims ensures ClaimSound(rows, y, x.claims[c]) {
      assert ClaimSound(rows, x, x.claims[c]);
      if x.claims[c].ref.Value? {
        PinsGrow(rows, x, y, x.claims[c].evidence);
      }
    }
  }

  /** Looking keeps every earlier lookup of the transaction pinned and pins the new one. */
  lemma LookIsSound(s: State, t: Tid)
    requires Invariant(s) && Enabled(s, Look(t))
    ensures Invariant(Apply(s, Look(t)))
  {
    var x := s.open[t];
    var key := NextLink(x.call.ref.kind, x.call.ref.id, RowsOf(x.call.seen)).key;
    var l := Lookup(key, View(s, t, key));
    var s' := Apply(s, Look(t));
    var y := s'.open[t];
    WalkOnce(x.call.ref, x.call.seen, l);
    PinsGrow(s.rows, x, y, x.call.seen);
    assert Pinned(s.rows, y, l);
    ClaimsGrow(s.rows, x, y);
    assert Sound(s.rows, y);
  }

  lemma DecideIsSound(s: State, t: Tid)
    requires Invariant(s) && Enabled(s, Decide(t))
    ensures Invariant(Apply(s, Decide(t)))
  {
    var x, s' := s.open[t], Apply(s, Decide(t));
    if t in s'.open {
      var y := s'.open[t];
      ClaimsGrow(s.rows, x, y);
      PinsGrow(s.rows, x, y, x.call.seen);
      assert ClaimSound(s.rows, y, Claim(Value(x.call.ref), x.call.seen));
      assert Sound(s.rows, y);
    }
  }

  /** A commit changes no row that another open transaction has looked up. */
  lemma CommitIsSound(s: State, t: Tid)
    requires Invariant(s) && Enabled(s, Commit(t))
    ensures Invariant(Apply(s, Commit(t)))
  {
    var x, s' := s.open[t], Apply(s, Commit(t));
    forall u | u in s'.open ensures Sound(s'.rows, s'.open[u]) {
      var y := s.open[u];
      assert Sound(s.rows, y);
      forall l | Pinned(s.rows, y, l) ensures Pinned(s'.rows, y, l) {
        if l.row.Value? {
          assert l.key.value in y.shared;
          assert l.key.value !in x.writes;
        }
      }
      forall c | c in y.claims ensures ClaimSound(s'.rows, y, y.claims[c]) {
        assert ClaimSound(s.rows, y, y.claims[c]);
      }
    }
  }

  lemma StepKeepsInvariant(s: State, a: Action)
    requires Invariant(s) && Enabled(s, a)
    ensures Invariant(Apply(s, a))
  {
    match a
    case Look(t) => LookIsSound(s, t);
    case Decide(t) => DecideIsSound(s, t);
    case Commit(t) => CommitIsSound(s, t);
    case Begin(t) =>
    case Rollback(t) =>
    case ClearReference(t, _) => ClaimsGrow(s.rows, s.open[t], Apply(s, a).open[t]);
    case FireGuard(t, _, _) => ClaimsGrow(s.rows, s.open[t], Apply(s, a).open[t]);
    case WriteMaster(t, _, _) =>
      ClaimsGrow(s.rows, s.open[t], Apply(s, a).open[t]);
      assert CallSound(s.rows, Apply(s, a).open[t]);
  }

  lemma {:induction false} RunKeepsInvariant(s: State, actions: seq<Action>)
    requires Invariant(s) && Run(s, actions).Value?
    ensures Invariant(Run(s, actions).value)
    decreases |actions|
  {
    if actions != [] {
      StepKeepsInvariant(s, actions[0]);
      RunKeepsInvariant(Apply(s, actions[0]), actions[1..]);
    }
  }

  // ----- what a commit guarantees -----

  /** The transaction has not overwritten a row after its guard read it. */
  predicate KeptItsMasters(x: Txn, evidence: seq<Lookup>) {
    forall i :: 0 <= i < |evidence| ==>
      evidence[i].key.Value? && evidence[i].key.value in x.writes ==> x.writes[evidence[i].key.value] == evidence[i].row
  }

  lemma RowsOfNext(seen: seq<Lookup>, n: nat)
    requires n < |seen|
    ensures RowsOf(seen[..n]) + [seen[n].row] == RowsOf(seen[..n+1])
  {
  }

  /** Rows that are where the walk found them make the guard retrace the walk. */
  lemma {:induction false} Retrace(rows: Rows, ref: Reference, seen: seq<Lookup>, n: nat)
    requires Walk(ref, seen) && Done(ref, seen) && n <= |seen| <= 4
    requires forall i :: 0 <= i < |seen| ==> Fetch(rows, seen[i].key) == seen[i].row
    ensures Trail(rows, ref.kind, ref.id, RowsOf(seen[..n])) == RowsOf(seen)
    decreases |seen| - n
  {
    if n == |seen| {
      assert seen[..n] == seen;
    } else {
      Retrace(rows, ref, seen, n + 1);
      RowsOfNext(seen, n);
      assert !Done(ref, seen[..n]) && Fetch(rows, seen[n].key) == seen[n].row;
      TrailStep(rows, ref.kind, ref.id, RowsOf(seen[..n]), seen[n].row);
    }
  }

  lemma WalkIsShort(ref: Reference, seen: seq<Lookup>)
    requires Walk(ref, seen)
    ensures |seen| <= 4
    ensures forall i :: 0 <= i < |seen| - 1 ==> ActiveOf(seen[i].row) == True
  {
    if |seen| > 0 {
      assert !Done(ref, seen[..|seen|-1]);
    }
    forall i | 0 <= i < |seen| - 1 ensures ActiveOf(seen[i].row) == True {
      assert !Done(ref, seen[..i+1]);
      assert RowsOf(seen[..i+1])[i] == seen[i].row;
    }
  }

  lemma TrueClaimHolds(rows: Rows, x: Txn, claim: Claim)
    requires ClaimSound(rows, x, claim) && claim.ref.Value?
    requires LastActive(claim.evidence) == True && KeptItsMasters(x, claim.evidence)
    ensures Verdict(Overlay(rows, x.writes), claim.ref.value.kind, claim.ref.value.id) == True
  {
    var ref, evidence := claim.ref.value, claim.evidence;
    var after := Overlay(rows, x.writes);
    WalkIsShort(ref, evidence);
    forall i | 0 <= i < |evidence| ensures Fetch(after, evidence[i].key) == evidence[i].row {
      assert ActiveOf(evidence[i].row) == True;
      PinnedHolds(rows, x, evidence[i]);
    }
    Retrace(after, ref, evidence, 0);
    assert RowsOf(evidence[..0]) == [];
  }

  /**
   In every interleaving: when a transaction commits a reference whose guard verdict was TRUE, and it has not
   itself overwritten a row its guard read, the master and all its parents are active in the committed database.
   */
  lemma CommittedReferenceIsActive(s0: State, actions: seq<Action>, t: Tid, child: Child)
    requires Initial(s0) && Run(s0, actions).Value?
    requires var s := Run(s0, actions).value;
             && Enabled(s, Commit(t))
             && child in s.open[t].claims && s.open[t].claims[child].ref.Value?
             && LastActive(s.open[t].claims[child].evidence) == True
             && KeptItsMasters(s.open[t], s.open[t].claims[child].evidence)
    ensures var s := Run(s0, actions).value;
            var ref := s.open[t].claims[child].ref.value;
            var s' := Apply(s, Commit(t));
            s'.refs[child] == Value(ref) && LineageActive(s'.rows, ref.kind, ref.id)
  {
    RunKeepsInvariant(s0, actions);
    var s := Run(s0, actions).value;
    var claim := s.open[t].claims[child];
    assert Sound(s.rows, s.open[t]);
    TrueClaimHolds(s.rows, s.open[t], claim);
    VerdictTrueIffLineageActive(Overlay(s.rows, s.open[t].writes), claim.ref.value.kind, claim.ref.value.id);
  }

  lemma FoundRowsHold(rows: Rows, x: Txn, claim: Claim)
    requires ClaimSound(rows, x, claim) && claim.ref.Value? && KeptItsMasters(x, claim.evidence)
    ensures forall l :: l in claim.evidence && l.row.Value? ==>
              Fetch(Overlay(rows, x.writes), l.key) == l.row && ActiveOf(l.row) != False
  {
    WalkIsShort(claim.ref.value, claim.evidence);
    var evidence := claim.evidence;
    forall i | 0 <= i < |evidence| && evidence[i].row.Value?
      ensures Fetch(Overlay(rows, x.writes), evidence[i].key) == evidence[i].row
      ensures ActiveOf(evidence[i].row) != False
    {
      PinnedHolds(rows, x, evidence[i]);
      assert i < |evidence| - 1 || LastActive(evidence) == ActiveOf(evidence[i].row);
    }
  }

  lemma PinnedHolds(rows: Rows, x: Txn, l: Lookup)
    requires Pinned(rows, x, l) && l.row.Value?
    requires l.key.Value? && l.key.value in x.writes ==> x.writes[l.key.value] == l.row
    ensures Fetch(Overlay(rows, x.writes), l.key) == l.row
  {
  }

  /**
   Whatever the verdict of an accepted reference, every row its guard found is unchanged and not inactive when the
   reference commits: the locks outlast the decision.
   */
  lemma FoundRowsHoldAtCommit(s0: State, actions: seq<Action>, t: Tid, child: Child)
    requires Initial(s0) && Run(s0, actions).Value?
    requires var s := Run(s0, actions).value;
             && Enabled(s, Commit(t))
             && child in s.open[t].claims && s.open[t].claims[child].ref.Value?
             && KeptItsMasters(s.open[t], s.open[t].claims[child].evidence)
    ensures var s := Run(s0, actions).value;
            var after := Apply(s, Commit(t)).rows;
            forall l :: l in s.open[t].claims[child].evidence && l.row.Value? ==>
              Fetch(after, l.key) == l.row && ActiveOf(Fetch(after, l.key)) != False
  {
    RunKeepsInvariant(s0, actions);
    var s := Run(s0, actions).value;
    assert Sound(s.rows, s.open[t]);
    FoundRowsHold(s.rows, s.open[t], s.open[t].claims[child]);
  }

  // ----- exactly when -----

  /** The guard found this row, and the transaction itself has not written it. */
  predicate FoundAndLeft(x: Txn, evidence: seq<Lookup>, key: Nullable<Key>) {
    && (exists i :: 0 <= i < |evidence| && evidence[i].key == key && evidence[i].row.Value?)
    && !(key.Value? && key.value in x.writes)
  }

  /** The columns is_active are NOT NULL: no row that was read has an unknown flag. */
  predicate FlagsKnown(seen: seq<Lookup>) {
    forall i :: 0 <= i < |seen| && seen[i].row.Value? ==> seen[i].row.value.active != Unknown
  }

  predicate KnownRow(row: Nullable<Row>) {
    row.Value? ==> row.value.active != Unknown
  }

  predicate KnownTxn(x: Txn) {
    && (forall k :: k in x.writes ==> KnownRow(x.writes[k]))
    && (x.call.Call? ==> FlagsKnown(x.call.seen))
    && (forall c :: c in x.claims ==> FlagsKnown(x.claims[c].evidence))
  }

  predicate KnownState(s: State) {
    && (forall k :: k in s.rows ==> s.rows[k].active != Unknown)
    && (forall t :: t in s.open ==> KnownTxn(s.open[t]))
  }

  predicate KnownRows(rows: Rows) {
    forall k :: k in rows ==> rows[k].active != Unknown
  }

  /** No statement stores a NULL flag. */
  predicate NotNullWrites(actions: seq<Action>) {
    forall i :: 0 <= i < |actions| && actions[i].WriteMaster? ==> KnownRow(actions[i].row)
  }

  lemma StepKeepsFlags(s: State, a: Action)
    requires KnownState(s) && Enabled(s, a) && (a.WriteMaster? ==> KnownRow(a.row))
    ensures KnownState(Apply(s, a))
  {
    var s' := Apply(s, a);
    forall u | u in s'.open ensures KnownTxn(s'.open[u]) {
      if u in s.open {
        assert KnownTxn(s.open[u]);
      }
    }
    if a.Commit? {
      assert KnownTxn(s.open[a.t]);
    }
  }

  lemma {:induction false} RunKeepsFlags(s: State, actions: seq<Action>)
    requires KnownState(s) && NotNullWrites(actions) && Run(s, actions).Value?
    ensures KnownState(Run(s, actions).value)
    decreases |actions|
  {
    if actions != [] {
      StepKeepsFlags(s, actions[0]);
      assert forall i :: 0 <= i < |actions[1..]| ==> actions[1..][i] == actions[i+1];
      RunKeepsFlags(Apply(s, actions[0]), actions[1..]);
    }
  }

  /** Every row that was found and is known is active: the guard went on only past active rows, and did not raise. */
  lemma FoundRowsAreActive(rows: Rows, x: Txn, claim: Claim)
    requires ClaimSound(rows, x, claim) && claim.ref.Value? && FlagsKnown(claim.evidence)
    ensures forall i :: 0 <= i < |claim.evidence| && claim.evidence[i].row.Value? ==>
              ActiveOf(claim.evidence[i].row) == True
  {
    var seen := claim.evidence;
    WalkIsShort(claim.ref.value, seen);
    forall i | 0 <= i < |seen| && seen[i].row.Value? ensures ActiveOf(seen[i].row) == True {
      assert i < |seen| - 1 || LastActive(seen) == ActiveOf(seen[i].row);
    }
  }

  lemma LeftRowsStayActive(rows: Rows, x: Txn, claim: Claim)
    requires ClaimSound(rows, x, claim) && claim.ref.Value? && FlagsKnown(claim.evidence)
    ensures forall key :: FoundAndLeft(x, claim.evidence, key) ==> ActiveOf(Fetch(Overlay(rows, x.writes), key)) == True
  {
    FoundRowsAreActive(rows, x, claim);
    forall key | FoundAndLeft(x, claim.evidence, key)
      ensures ActiveOf(Fetch(Overlay(rows, x.writes), key)) == True
    {
      var i :| 0 <= i < |claim.evidence| && claim.evidence[i].key == key && claim.evidence[i].row.Value?;
      PinnedHolds(rows, x, claim.evidence[i]);
    }
  }

  /**
   The exact condition. In every interleaving, with NOT NULL flags, for every reference that commits, whatever its
   verdict: its lineage in the committed database is active exactly when those of its rows are that the guard did not
   find or that the transaction wrote itself. Every other row is active without a check.
   */
  lemma CommittedReferenceIsActiveIff(s0: State, actions: seq<Action>, t: Tid, child: Child)
    requires Initial(s0) && KnownRows(s0.rows) && NotNullWrites(actions) && Run(s0, actions).Value?
    requires var s := Run(s0, actions).value;
             Enabled(s, Commit(t)) && child in s.open[t].claims && s.open[t].claims[child].ref.Value?
    ensures var s := Run(s0, actions).value;
            var x, claim := s.open[t], s.open[t].claims[child];
            var after := Apply(s, Commit(t)).rows;
            LineageActive(after, claim.ref.value.kind, claim.ref.value.id) <==>
            forall key :: key in Lineage(after, claim.ref.value.kind, claim.ref.value.id) ==>
              FoundAndLeft(x, claim.evidence, key) || ActiveOf(Fetch(after, key)) == True
  {
    RunKeepsInvariant(s0, actions);
    RunKeepsFlags(s0, actions);
    var s := Run(s0, actions).value;
    var x := s.open[t];
    assert Sound(s.rows, x) && KnownTxn(x);
    LeftRowsStayActive(s.rows, x, x.claims[child]);
  }

  predicate AllFound(seen: seq<Lookup>) {
    forall i :: 0 <= i < |seen| ==> seen[i].row.Value?
  }

  /** With NOT NULL flags an accepted reference has verdict TRUE exactly when every lookup of its guard found a row. */
  lemma VerdictIsTrueIffAllFound(s0: State, actions: seq<Action>, t: Tid, child: Child)
    requires Initial(s0) && KnownRows(s0.rows) && NotNullWrites(actions) && Run(s0, actions).Value?
    requires var s := Run(s0, actions).value;
             t in s.open && child in s.open[t].claims && s.open[t].claims[child].ref.Value?
    ensures var evidence := Run(s0, actions).value.open[t].claims[child].evidence;
            LastActive(evidence) == True <==> AllFound(evidence)
  {
    RunKeepsInvariant(s0, actions);
    RunKeepsFlags(s0, actions);
    var s := Run(s0, actions).value;
    var claim := s.open[t].claims[child];
    assert Sound(s.rows, s.open[t]) && KnownTxn(s.open[t]);
    TrueIffAllFound(s.rows, s.open[t], claim);
  }

  lemma TrueIffAllFound(rows: Rows, x: Txn, claim: Claim)
    requires ClaimSound(rows, x, claim) && claim.ref.Value? && FlagsKnown(claim.evidence)
    ensures LastActive(claim.evidence) == True <==> AllFound(claim.evidence)
  {
    FoundRowsAreActive(rows, x, claim);
    WalkIsShort(claim.ref.value, claim.evidence);
    assert |RowsOf(claim.evidence)| > 0;
  }

  // ----- which lookups can miss -----

  /** Branches and recipes name a stored parent, and so does a warehouse where it names one. */
  predicate KeysHold(rows: Rows) {
    forall k :: k in rows ==>
      && (k.kind == Branch || rows[k].company.Value? ==> Fetch(rows, CompanyOf(Value(rows[k]))).Value?)
      && (k.kind == Warehouse && rows[k].branch.Value? ==> Fetch(rows, BranchOf(Value(rows[k]))).Value?)
      && (k.kind == Recipe ==> Fetch(rows, ProductOf(Value(rows[k]))).Value?)
  }

  /** The masters' own foreign keys and NOT NULL parent columns: every transaction sees them obeyed. */
  predicate KeysHoldIn(s: State) {
    forall t :: t in s.open ==> KeysHold(Overlay(s.rows, s.open[t].writes))
  }

  predicate KeysHoldThroughout(s: State, actions: seq<Action>)
    requires Run(s, actions).Value?
    decreases |actions|
  {
    KeysHoldIn(s) && (actions != [] ==> KeysHoldThroughout(Apply(s, actions[0]), actions[1..]))
  }

  /** That is: in every state that the run passes through. */
  lemma {:induction false} KeysHoldThroughoutIff(s: State, actions: seq<Action>)
    requires Run(s, actions).Value?
    ensures KeysHoldThroughout(s, actions) <==>
            forall n :: 0 <= n <= |actions| ==> Run(s, actions[..n]).Value? && KeysHoldIn(Run(s, actions[..n]).value)
    decreases |actions|
  {
    assert Run(s, actions[..0]) == Value(s);
    if actions != [] {
      var rest, next := actions[1..], Apply(s, actions[0]);
      KeysHoldThroughoutIff(next, rest);
      forall n | 0 < n <= |actions| ensures Run(s, actions[..n]) == Run(next, rest[..n-1]) {
        assert actions[..n][1..] == rest[..n-1];
      }
      forall n | 0 <= n <= |rest| ensures Run(s, actions[..n+1]) == Run(next, rest[..n]) {
        assert actions[..n+1][1..] == rest[..n];
      }
      if KeysHoldIn(s) {
        if KeysHoldThroughout(next, rest) {
          forall n | 0 <= n <= |actions|
            ensures Run(s, actions[..n]).Value? && KeysHoldIn(Run(s, actions[..n]).value)
          {
            if n > 0 { assert Run(s, actions[..n]) == Run(next, rest[..n-1]); }
          }
        }
      }
    }
  }

  /** During a call the rows found are the ones the transaction itself wrote, where it did. */
  predicate CallCurrent(x: Txn) {
    x.call.Call? ==>
      forall l :: l in x.call.seen && l.row.Value? && l.key.Value? && l.key.value in x.writes ==>
        x.writes[l.key.value] == l.row
  }

  predicate FirstMayMiss(seen: seq<Lookup>) {
    forall i :: 1 <= i < |seen| ==> seen[i].row.Value?
  }

  predicate OnlyFirstMisses(x: Txn) {
    && CallCurrent(x)
    && (x.call.Call? ==> FirstMayMiss(x.call.seen))
    && (forall c :: c in x.claims ==> FirstMayMiss(x.claims[c].evidence))
  }

  predicate FewMisses(s: State) {
    forall t :: t in s.open ==> OnlyFirstMisses(s.open[t])
  }

  /** A row found earlier in the call is still what the transaction sees. */
  lemma SeenIsCurrent(rows: Rows, x: Txn, i: nat)
    requires x.call.Call? && CallCurrent(x) && AllPinned(rows, x, x.call.seen)
    requires i < |x.call.seen| && x.call.seen[i].row.Value?
    ensures x.call.seen[i].key.Value?
    ensures Fetch(Overlay(rows, x.writes), x.call.seen[i].key) == x.call.seen[i].row
  {
    var l := x.call.seen[i];
    assert Pinned(rows, x, l) && l in x.call.seen;
    PinnedHolds(rows, x, l);
  }

  lemma KeyAt(ref: Reference, seen: seq<Lookup>, i: nat)
    requires Walk(ref, seen) && i < |seen|
    ensures seen[i].key == NextLink(ref.kind, ref.id, RowsOf(seen[..i])).key
    ensures forall j :: 0 <= j < i ==> ActiveOf(seen[j].row) == True && seen[j].row.Value?
  {
    forall j | 0 <= j < i ensures ActiveOf(seen[j].row) == True {
      assert !Done(ref, seen[..j+1]);
      assert RowsOf(seen[..j+1])[j] == seen[j].row;
    }
  }

  /** What a row with a stored key names is stored. */
  lemma ParentIsStored(rows: Rows, key: Nullable<Key>, row: Nullable<Row>)
    requires KeysHold(rows) && key.Value? && row.Value? && Fetch(rows, key) == row
    ensures key.value.kind == Branch || row.value.company.Value? ==> Fetch(rows, CompanyOf(row)).Value?
    ensures key.value.kind == Warehouse && row.value.branch.Value? ==> Fetch(rows, BranchOf(row)).Value?
    ensures key.value.kind == Recipe ==> Fetch(rows, ProductOf(row)).Value?
  {
    assert key.value in rows;
  }

  /** A lookup is what the rows now hold. */
  predicate Current(rows: Rows, l: Lookup) {
    l.key.Value? && l.row.Value? && Fetch(rows, l.key) == l.row
  }

  /** After the first, each lookup asks for a parent that a row found before names. */
  lemma NextIsStored(rows: Rows, ref: Reference, seen: seq<Lookup>)
    requires KeysHold(rows) && Walk(ref, seen) && !Done(ref, seen) && 1 <= |seen| <= 4
    requires forall i :: 0 <= i < |seen| ==> Current(rows, seen[i])
    ensures Fetch(rows, NextLink(ref.kind, ref.id, RowsOf(seen)).key).Value?
  {
    KeyAt(ref, seen, 0);
    ParentIsStored(rows, seen[0].key, seen[0].row);
    if ref.kind == Warehouse && |seen| == 2 {
      KeyAt(ref, seen, 1);
      assert RowsOf(seen[..1]) == [seen[0].row];
      ParentIsStored(rows, seen[1].key, seen[1].row);
    } else if ref.kind == Warehouse && |seen| == 3 {
      KeyAt(ref, seen, 2);
      assert RowsOf(seen[..2]) == [seen[0].row, seen[1].row];
      ParentIsStored(rows, seen[2].key, seen[2].row);
    }
  }

  lemma ViewIsOverlay(s: State, t: Tid, key: Nullable<Key>)
    requires t in s.open
    ensures View(s, t, key) == Fetch(Overlay(s.rows, s.open[t].writes), key)
  {
  }

  lemma ActiveSoFar(ref: Reference, seen: seq<Lookup>)
    requires Walk(ref, seen) && !Done(ref, seen)
    ensures |seen| <= 4 && forall i :: 0 <= i < |seen| ==> ActiveOf(seen[i].row) == True
  {
    WalkIsShort(ref, seen);
    assert |seen| > 0 ==> RowsOf(seen)[|seen|-1] == seen[|seen|-1].row;
  }

  /** A call that goes on has found every row so far, and all of them are what the transaction sees. */
  lemma SeenAreCurrent(rows: Rows, x: Txn)
    requires x.call.Call? && CallSound(rows, x) && CallCurrent(x) && !Done(x.call.ref, x.call.seen)
    ensures forall i :: 0 <= i < |x.call.seen| ==> Current(Overlay(rows, x.writes), x.call.seen[i])
  {
    ActiveSoFar(x.call.ref, x.call.seen);
    forall i | 0 <= i < |x.call.seen| ensures Current(Overlay(rows, x.writes), x.call.seen[i]) {
      SeenIsCurrent(rows, x, i);
    }
  }

  lemma NextLookupFinds(rows: Rows, x: Txn)
    requires x.call.Call? && CallSound(rows, x) && CallCurrent(x)
    requires KeysHold(Overlay(rows, x.writes)) && |x.call.seen| >= 1 && !Done(x.call.ref, x.call.seen)
    ensures Fetch(Overlay(rows, x.writes), NextLink(x.call.ref.kind, x.call.ref.id, RowsOf(x.call.seen)).key).Value?
  {
    var ref, seen, after := x.call.ref, x.call.seen, Overlay(rows, x.writes);
    WalkIsShort(ref, seen);
    SeenAreCurrent(rows, x);
    NextIsStored(after, ref, seen);
  }

  lemma LookedUp(s: State, t: Tid)
    requires Enabled(s, Look(t))
    ensures var x, y := s.open[t], Apply(s, Look(t)).open[t];
            var key := NextLink(x.call.ref.kind, x.call.ref.id, RowsOf(x.call.seen)).key;
            && y.call == Call(x.call.child, x.call.ref,
                              x.call.seen + [Lookup(key, Fetch(Overlay(s.rows, x.writes), key))])
            && y.writes == x.writes && y.claims == x.claims
            && Apply(s, Look(t)).open == s.open[t := y]
  {
    var x := s.open[t];
    ViewIsOverlay(s, t, NextLink(x.call.ref.kind, x.call.ref.id, RowsOf(x.call.seen)).key);
  }

  lemma OneMoreLookup(rows: Rows, x: Txn, y: Txn, l: Lookup)
    requires x.call.Call? && OnlyFirstMisses(x) && y.writes == x.writes && y.claims == x.claims
    requires y.call == Call(x.call.child, x.call.ref, x.call.seen + [l])
    requires l.row == Fetch(Overlay(rows, x.writes), l.key) && (|x.call.seen| >= 1 ==> l.row.Value?)
    ensures OnlyFirstMisses(y)
  {
  }

  lemma LookKeepsFewMisses(s: State, t: Tid)
    requires Invariant(s) && FewMisses(s) && KeysHoldIn(s) && Enabled(s, Look(t))
    ensures FewMisses(Apply(s, Look(t)))
  {
    var x, y := s.open[t], Apply(s, Look(t)).open[t];
    var key := NextLink(x.call.ref.kind, x.call.ref.id, RowsOf(x.call.seen)).key;
    assert OnlyFirstMisses(x) && Sound(s.rows, x);
    LookedUp(s, t);
    if |x.call.seen| >= 1 {
      NextLookupFinds(s.rows, x);
    }
    OneMoreLookup(s.rows, x, y, Lookup(key, Fetch(Overlay(s.rows, x.writes), key)));
  }

  lemma StepKeepsFewMisses(s: State, a: Action)
    requires Invariant(s) && FewMisses(s) && KeysHoldIn(s) && Enabled(s, a)
    ensures FewMisses(Apply(s, a))
  {
    if a.Look? {
      LookKeepsFewMisses(s, a.t);
    } else {
      var s' := Apply(s, a);
      forall u | u in s'.open ensures OnlyFirstMisses(s'.open[u]) {
        if u in s.open {
          assert OnlyFirstMisses(s.open[u]);
          if u == a.t { OtherStepKeepsMisses(s, a); }
        }
      }
    }
  }

  /** Outside a lookup a call is started, dropped or turned into a claim, and writes are made only between calls. */
  lemma OtherStepKeepsMisses(s: State, a: Action)
    requires Enabled(s, a) && !a.Look? && a.t in s.open && a.t in Apply(s, a).open && OnlyFirstMisses(s.open[a.t])
    ensures OnlyFirstMisses(Apply(s, a).open[a.t])
  {
    var x, y := s.open[a.t], Apply(s, a).open[a.t];
    assert y.call.NoCall? || y.call.seen == [] || y == x;
    forall c | c in y.claims ensures FirstMayMiss(y.claims[c].evidence) {
      assert (c in x.claims && y.claims[c] == x.claims[c]) || y.claims[c].evidence == [] ||
             (x.call.Call? && y.claims[c].evidence == x.call.seen);
    }
  }

  lemma {:induction false} RunKeepsFewMisses(s: State, actions: seq<Action>)
    requires Invariant(s) && FewMisses(s) && Run(s, actions).Value? && KeysHoldThroughout(s, actions)
    ensures FewMisses(Run(s, actions).value)
    decreases |actions|
  {
    if actions != [] {
      StepKeepsInvariant(s, actions[0]);
      StepKeepsFewMisses(s, actions[0]);
      RunKeepsFewMisses(Apply(s, actions[0]), actions[1..]);
    }
  }

  /**
   With the masters' foreign keys and NOT NULL columns, only the first lookup of a guard can miss: an accepted
   reference has verdict TRUE exactly when the master's own row was there when the guard looked.
   */
  lemma VerdictIsTrueIffMasterFound(s0: State, actions: seq<Action>, t: Tid, child: Child)
    requires Initial(s0) && KnownRows(s0.rows) && NotNullWrites(actions) && Run(s0, actions).Value?
    requires KeysHoldThroughout(s0, actions)
    requires var s := Run(s0, actions).value;
             t in s.open && child in s.open[t].claims && s.open[t].claims[child].ref.Value?
    ensures var claim := Run(s0, actions).value.open[t].claims[child];
            && |claim.evidence| > 0
            && claim.evidence[0].key == Value(Key(claim.ref.value.kind, claim.ref.value.id))
            && (LastActive(claim.evidence) == True <==> claim.evidence[0].row.Value?)
            && (AllFound(claim.evidence) <==> claim.evidence[0].row.Value?)
  {
    RunKeepsInvariant(s0, actions);
    RunKeepsFewMisses(s0, actions);
    VerdictIsTrueIffAllFound(s0, actions, t, child);
    var s := Run(s0, actions).value;
    var claim := s.open[t].claims[child];
    assert Sound(s.rows, s.open[t]) && OnlyFirstMisses(s.open[t]);
    assert ClaimSound(s.rows, s.open[t], claim);
    assert |RowsOf(claim.evidence)| > 0;
    KeyAt(claim.ref.value, claim.evidence, 0);
  }

  // ----- where the committed references and rows come from -----

  /** What was asked for so far: the pending work of every open transaction is its own statements'. */
  predicate Asked(x: Txn, t: Tid, past: seq<Action>) {
    && (x.call.Call? ==> FireGuard(t, x.call.child, x.call.ref) in past)
    && (forall k :: k in x.writes ==> WriteMaster(t, k, x.writes[k]) in past)
    && (forall c :: c in x.claims ==> ClaimAsked(t, c, x.claims[c].ref, past))
  }

  predicate ClaimAsked(t: Tid, child: Child, ref: Nullable<Reference>, past: seq<Action>) {
    if ref.Null? then ClearReference(t, child) in past else FireGuard(t, child, ref.value) in past
  }

  predicate AllAsked(s: State, past: seq<Action>) {
    forall t :: t in s.open ==> Asked(s.open[t], t, past)
  }

  lemma StepIsAsked(s: State, a: Action, past: seq<Action>)
    requires Enabled(s, a) && AllAsked(s, past)
    ensures AllAsked(Apply(s, a), past + [a])
  {
    var s' := Apply(s, a);
    forall u | u in s'.open ensures Asked(s'.open[u], u, past + [a]) {
      if u in s.open {
        assert Asked(s.open[u], u, past);
      }
      assert a in past + [a];
    }
  }

  lemma {:induction false} RunIsAsked(s: State, actions: seq<Action>, past: seq<Action>)
    requires AllAsked(s, past) && Run(s, actions).Value?
    ensures AllAsked(Run(s, actions).value, past + actions)
    decreases |actions|
  {
    if actions == [] {
      assert past + actions == past;
    } else {
      StepIsAsked(s, actions[0], past);
      RunIsAsked(Apply(s, actions[0]), actions[1..], past + [actions[0]]);
      assert past + [actions[0]] + actions[1..] == past + actions;
    }
  }

  /** The commit that gave a child its present reference. */
  lemma {:induction false} LastCommitOfChild(s: State, actions: seq<Action>, child: Child) returns (n: nat)
    requires Run(s, actions).Value? && child in Run(s, actions).value.refs
    requires child in s.refs ==> s.refs[child] != Run(s, actions).value.refs[child]
    ensures n < |actions| && actions[n].Commit? && Run(s, actions[..n]).Value?
    ensures var at := Run(s, actions[..n]).value;
            && Enabled(at, actions[n]) && child in at.open[actions[n].t].claims
            && at.open[actions[n].t].claims[child].ref == Run(s, actions).value.refs[child]
    decreases |actions|
  {
    var s', rest := Apply(s, actions[0]), actions[1..];
    OnlyCommitsWrite(s, actions[0]);
    if child in s'.refs && s'.refs[child] == Run(s', rest).value.refs[child] {
      CommitStores(s, actions[0].t);
      n := 0;
    } else {
      var m := LastCommitOfChild(s', rest, child);
      n := m + 1;
      assert actions[..n][1..] == rest[..m];
    }
  }

  /** The commit that wrote or deleted a row last. */
  lemma {:induction false} LastCommitOfRow(s: State, actions: seq<Action>, key: Key) returns (n: nat)
    requires Run(s, actions).Value? && Fetch(Run(s, actions).value.rows, Value(key)) != Fetch(s.rows, Value(key))
    ensures n < |actions| && actions[n].Commit? && Run(s, actions[..n]).Value?
    ensures var at := Run(s, actions[..n]).value;
            && Enabled(at, actions[n]) && key in at.open[actions[n].t].writes
            && at.open[actions[n].t].writes[key] == Fetch(Run(s, actions).value.rows, Value(key))
    decreases |actions|
  {
    var s', rest := Apply(s, actions[0]), actions[1..];
    OnlyCommitsWrite(s, actions[0]);
    if Fetch(s'.rows, Value(key)) == Fetch(Run(s', rest).value.rows, Value(key)) {
      CommitStores(s, actions[0].t);
      n := 0;
    } else {
      var m := LastCommitOfRow(s', rest, key);
      n := m + 1;
      assert actions[..n][1..] == rest[..m];
    }
  }

  /** A transaction has committed the reference of a claim whose guard looked the master up and did not read FALSE. */
  predicate CommitsClaim(s0: State, actions: seq<Action>, n: nat, child: Child, ref: Nullable<Reference>) {
    && n < |actions| && actions[n].Commit? && Run(s0, actions[..n]).Value?
    && var at, t := Run(s0, actions[..n]).value, actions[n].t;
    && t in at.open && at.open[t].call.NoCall? && child in at.open[t].claims
    && var claim := at.open[t].claims[child];
    && claim.ref == ref
    && (ref.Null? ==> ClearReference(t, child) in actions[..n])
    && (ref.Value? ==>
          && FireGuard(t, child, ref.value) in actions[..n]
          && |claim.evidence| > 0
          && claim.evidence[0].key == Value(Key(ref.value.kind, ref.value.id))
          && var last := claim.evidence[|claim.evidence|-1].row;
             !(last.Value? && last.value.active == False))
  }

  /**
   In every interleaving: a reference that is in the database at the end and was not there at the start was asked
   for by a transaction, let through by its guard, and stored by its commit. Nothing rejected is ever stored.
   */
  lemma ReferencesComeFromCommits(s0: State, actions: seq<Action>, child: Child)
    requires Initial(s0) && Run(s0, actions).Value?
    requires var end := Run(s0, actions).value;
             child in end.refs && (child in s0.refs ==> s0.refs[child] != end.refs[child])
    ensures exists n: nat :: CommitsClaim(s0, actions, n, child, Run(s0, actions).value.refs[child])
  {
    var n := LastCommitOfChild(s0, actions, child);
    var at, t := Run(s0, actions[..n]).value, actions[n].t;
    RunKeepsInvariant(s0, actions[..n]);
    RunIsAsked(s0, actions[..n], []);
    assert [] + actions[..n] == actions[..n];
    assert Asked(at.open[t], t, actions[..n]) && Sound(at.rows, at.open[t]);
    var claim := at.open[t].claims[child];
    assert ClaimSound(at.rows, at.open[t], claim) && ClaimAsked(t, child, claim.ref, actions[..n]);
    if claim.ref.Value? {
      assert |RowsOf(claim.evidence)| > 0;
      KeyAt(claim.ref.value, claim.evidence, 0);
    }
    assert CommitsClaim(s0, actions, n, child, claim.ref);
  }

  /** No reference is lost: what a child has it keeps until a commit of a claim for it. */
  lemma {:induction false} ReferencesStay(s: State, actions: seq<Action>, child: Child)
    requires Run(s, actions).Value? && child in s.refs
    ensures child in Run(s, actions).value.refs
    decreases |actions|
  {
    if actions != [] {
      OnlyCommitsWrite(s, actions[0]);
      if actions[0].Commit? { CommitStores(s, actions[0].t); }
      ReferencesStay(Apply(s, actions[0]), actions[1..], child);
    }
  }

  /** A changed, new or deleted master row is as a transaction that has committed wrote it. */
  lemma RowsComeFromCommits(s0: State, actions: seq<Action>, key: Key)
    requires Initial(s0) && Run(s0, actions).Value?
    requires Fetch(Run(s0, actions).value.rows, Value(key)) != Fetch(s0.rows, Value(key))
    ensures var row := Fetch(Run(s0, actions).value.rows, Value(key));
            exists m, n :: 0 <= m < n < |actions| && actions[n].Commit? &&
                           actions[m] == WriteMaster(actions[n].t, key, row)
  {
    var n := LastCommitOfRow(s0, actions, key);
    var at, t := Run(s0, actions[..n]).value, actions[n].t;
    RunIsAsked(s0, actions[..n], []);
    assert [] + actions[..n] == actions[..n];
    assert Asked(at.open[t], t, actions[..n]);
    var m :| 0 <= m < n && actions[..n][m] == WriteMaster(t, key, at.open[t].writes[key]);
    assert actions[m] == WriteMaster(t, key, Fetch(Run(s0, actions).value.rows, Value(key)));
  }

  /** The referencing rows a transaction has pending. */
  function Pending(x: Txn): set<Child> {
    x.claims.Keys + (if x.call.Call? then {x.call.child} else {})
  }

  predicate OneWriterPerChild(s: State) {
    forall t, u :: t in s.open && u in s.open && t != u ==> Pending(s.open[t]) !! Pending(s.open[u])
  }

  lemma StepKeepsOneWriter(s: State, a: Action)
    requires OneWriterPerChild(s) && Enabled(s, a)
    ensures OneWriterPerChild(Apply(s, a))
  {
    var s' := Apply(s, a);
    forall t, u | t in s'.open && u in s'.open && t != u ensures Pending(s'.open[t]) !! Pending(s'.open[u]) {
      if t in s.open && u in s.open {
        assert Pending(s.open[t]) !! Pending(s.open[u]);
      }
    }
  }

  /** In every interleaving a referencing row is pending in one open transaction at most. */
  lemma {:induction false} OneWriterInEveryRun(s: State, actions: seq<Action>)
    requires OneWriterPerChild(s) && Run(s, actions).Value?
    ensures forall t, u, c :: t in Run(s, actions).value.open && u in Run(s, actions).value.open && t != u &&
                              c in Run(s, actions).value.open[t].claims ==>
              && c !in Run(s, actions).value.open[u].claims
              && !(Run(s, actions).value.open[u].call.Call? && Run(s, actions).value.open[u].call.child == c)
    decreases |actions|
  {
    if actions != [] {
      StepKeepsOneWriter(s, actions[0]);
      OneWriterInEveryRun(Apply(s, actions[0]), actions[1..]);
    } else {
      forall t, u, c | t in s.open && u in s.open && t != u && c in s.open[t].claims
        ensures c !in s.open[u].claims && !(s.open[u].call.Call? && s.open[u].call.child == c)
      {
        assert c in Pending(s.open[t]) && Pending(s.open[t]) !! Pending(s.open[u]);
      }
    }
  }

  // ----- the transaction's own writes -----

  /** The transaction's own writes to rows its guard read delete them or change is_active, but no parent column. */
  predicate ParentsKept(x: Txn, evidence: seq<Lookup>) {
    forall i :: 0 <= i < |evidence| && evidence[i].key.Value? && evidence[i].key.value in x.writes &&
                x.writes[evidence[i].key.value].Value? && evidence[i].row.Value? ==>
      var row := x.writes[evidence[i].key.value].value;
      row == evidence[i].row.value.(active := row.active)
  }

  /** None of these writes deletes the row or leaves it other than active. */
  predicate LeftActive(x: Txn, l: Lookup) {
    l.key.Value? && l.key.value in x.writes ==> ActiveOf(x.writes[l.key.value]) == True
  }

  /** A walk whose rows are as they were, up to one that is missing or not active, ends there. */
  lemma {:induction false} RetraceStops(rows: Rows, ref: Reference, seen: seq<Lookup>, n: nat)
    requires Walk(ref, seen) && n < |seen| <= 4
    requires forall i :: 0 <= i < |seen| ==>
               Fetch(rows, seen[i].key) == seen[i].row || ActiveOf(Fetch(rows, seen[i].key)) != True
    requires exists i :: n <= i < |seen| && ActiveOf(Fetch(rows, seen[i].key)) != True
    ensures var trail := Trail(rows, ref.kind, ref.id, RowsOf(seen[..n]));
            ActiveOf(trail[|trail|-1]) != True
    decreases |seen| - n
  {
    var row := Fetch(rows, seen[n].key);
    assert !Done(ref, seen[..n]);
    TrailStep(rows, ref.kind, ref.id, RowsOf(seen[..n]), row);
    if ActiveOf(row) == True {
      RowsOfNext(seen, n);
      RetraceStops(rows, ref, seen, n + 1);
    } else {
      TrailOnce(rows, ref.kind, ref.id, RowsOf(seen[..n]) + [row]);
    }
  }

  /** A row that the transaction did not deactivate or delete is as its guard read it. */
  lemma RowAfter(rows: Rows, x: Txn, evidence: seq<Lookup>, i: nat)
    requires i < |evidence| && Pinned(rows, x, evidence[i]) && ActiveOf(evidence[i].row) == True
    requires ParentsKept(x, evidence)
    ensures var row := Fetch(Overlay(rows, x.writes), evidence[i].key);
            if LeftActive(x, evidence[i]) then row == evidence[i].row else ActiveOf(row) != True
  {
    var l := evidence[i];
    if LeftActive(x, l) {
      PinnedHolds(rows, x, l);
    }
  }

  /** The rows of a claim after the commit: each as it was read, or no longer active. */
  predicate RowsAfter(rows: Rows, x: Txn, seen: seq<Lookup>) {
    forall i :: 0 <= i < |seen| ==>
      if LeftActive(x, seen[i]) then Fetch(rows, seen[i].key) == seen[i].row
      else ActiveOf(Fetch(rows, seen[i].key)) != True
  }

  lemma ClaimRowsAfter(rows: Rows, x: Txn, claim: Claim)
    requires ClaimSound(rows, x, claim) && claim.ref.Value?
    requires LastActive(claim.evidence) == True && ParentsKept(x, claim.evidence)
    ensures |claim.evidence| <= 4 && RowsAfter(Overlay(rows, x.writes), x, claim.evidence)
  {
    var seen := claim.evidence;
    WalkIsShort(claim.ref.value, seen);
    forall i | 0 <= i < |seen|
      ensures if LeftActive(x, seen[i]) then Fetch(Overlay(rows, x.writes), seen[i].key) == seen[i].row
              else ActiveOf(Fetch(Overlay(rows, x.writes), seen[i].key)) != True
    {
      assert ActiveOf(seen[i].row) == True;
      RowAfter(rows, x, seen, i);
    }
  }

  lemma WalkAgainIff(after: Rows, x: Txn, ref: Reference, seen: seq<Lookup>)
    requires Walk(ref, seen) && Done(ref, seen) && 0 < |seen| <= 4 && LastActive(seen) == True
    requires RowsAfter(after, x, seen)
    ensures Verdict(after, ref.kind, ref.id) == True <==> forall i :: 0 <= i < |seen| ==> LeftActive(x, seen[i])
  {
    assert RowsOf(seen[..0]) == [];
    if forall i :: 0 <= i < |seen| ==> LeftActive(x, seen[i]) {
      Retrace(after, ref, seen, 0);
    } else {
      RetraceStops(after, ref, seen, 0);
    }
  }

  lemma TrueClaimHoldsIff(rows: Rows, x: Txn, claim: Claim)
    requires ClaimSound(rows, x, claim) && claim.ref.Value?
    requires LastActive(claim.evidence) == True && ParentsKept(x, claim.evidence)
    ensures Verdict(Overlay(rows, x.writes), claim.ref.value.kind, claim.ref.value.id) == True <==>
            forall l :: l in claim.evidence ==> LeftActive(x, l)
  {
    ClaimRowsAfter(rows, x, claim);
    WalkAgainIff(Overlay(rows, x.writes), x, claim.ref.value, claim.evidence);
  }

  /**
   Own writes. When every lookup found its row and the transaction changed no parent column of these rows, the
   committed lineage is active exactly when it neither deleted nor deactivated one of them.
   */
  lemma ActiveIffMastersLeftActive(s0: State, actions: seq<Action>, t: Tid, child: Child)
    requires Initial(s0) && KnownRows(s0.rows) && NotNullWrites(actions) && Run(s0, actions).Value?
    requires var s := Run(s0, actions).value;
             && Enabled(s, Commit(t))
             && child in s.open[t].claims && s.open[t].claims[child].ref.Value?
             && AllFound(s.open[t].claims[child].evidence)
             && ParentsKept(s.open[t], s.open[t].claims[child].evidence)
    ensures var s := Run(s0, actions).value;
            var ref := s.open[t].claims[child].ref.value;
            LineageActive(Apply(s, Commit(t)).rows, ref.kind, ref.id) <==>
            forall l :: l in s.open[t].claims[child].evidence ==> LeftActive(s.open[t], l)
  {
    RunKeepsInvariant(s0, actions);
    VerdictIsTrueIffAllFound(s0, actions, t, child);
    var s := Run(s0, actions).value;
    var claim := s.open[t].claims[child];
    assert Sound(s.rows, s.open[t]);
    TrueClaimHoldsIff(s.rows, s.open[t], claim);
    VerdictTrueIffLineageActive(Overlay(s.rows, s.open[t].writes), claim.ref.value.kind, claim.ref.value.id);
  }

  // ----- what it does not -----

  const INACTIVE := Row(False, Null, Null, Null)
  const SUPPLIER := Key(Supplier, 7)

  const SUPPLIED := Reference(Supplier, 7)

  /** A guard call has looked for the supplier and found nothing: it holds no lock. */
  const MISSED :=
    State(map[], map[], map[1 := Txn(map[], map[], {}, Call(0, SUPPLIED, [Lookup(Value(SUPPLIER), Null)]))])

  lemma LookupMisses()
    ensures Run(State(map[], map[], map[]), [Begin(1), FireGuard(1, 0, SUPPLIED), Look(1)]) == Value(MISSED)
  {
    var s0 := State(map[], map[], map[]);
    var s1 := Apply(s0, Begin(1));
    var s2 := Apply(s1, FireGuard(1, 0, SUPPLIED));
    assert RowsOf([]) == [];
    var none: set<Key> := {};
    assert none + {} == none;
    assert [] + [Lookup(Value(SUPPLIER), Null)] == [Lookup(Value(SUPPLIER), Null)];
    assert Apply(s2, Look(1)).open[1] == MISSED.open[1];
    RunStep(s0, [Begin(1), FireGuard(1, 0, SUPPLIED), Look(1)], [s0, s1, s2, MISSED]);
  }

  lemma InsertedMeanwhile()
    ensures var actions := [Begin(2), WriteMaster(2, SUPPLIER, Value(INACTIVE)), Commit(2), Decide(1), Commit(1)];
            var end := Run(MISSED, actions);
            end.Value? && 0 in end.value.refs && end.value.refs[0] == Value(SUPPLIED) &&
            SUPPLIER in end.value.rows && end.value.rows[SUPPLIER].active == False
  {
    var s4 := Apply(MISSED, Begin(2));
    var s5 := Apply(s4, WriteMaster(2, SUPPLIER, Value(INACTIVE)));
    var s6 := Apply(s5, Commit(2));
    assert SUPPLIER in s6.rows;
    assert Done(SUPPLIED, s6.open[1].call.seen);
    var s7 := Apply(s6, Decide(1));
    var s8 := Apply(s7, Commit(1));
    RunStep(MISSED, [Begin(2), WriteMaster(2, SUPPLIER, Value(INACTIVE)), Commit(2), Decide(1), Commit(1)],
            [MISSED, s4, s5, s6, s7, s8]);
  }

  /**
   A guard call that finds no row locks nothing. Here the supplier is inserted, inactive, between the lookup and
   the foreign key check, and the reference commits.
   */
  lemma MissingRowRace()
    ensures var actions := [Begin(1), FireGuard(1, 0, SUPPLIED), Look(1)] +
                           [Begin(2), WriteMaster(2, SUPPLIER, Value(INACTIVE)), Commit(2), Decide(1), Commit(1)];
            var end := Run(State(map[], map[], map[]), actions);
            end.Value? && 0 in end.value.refs && end.value.refs[0] == Value(SUPPLIED) &&
            SUPPLIER in end.value.rows && end.value.rows[SUPPLIER].active == False
  {
    LookupMisses();
    InsertedMeanwhile();
    RunAppend(State(map[], map[], map[]), [Begin(1), FireGuard(1, 0, SUPPLIED), Look(1)],
              [Begin(2), WriteMaster(2, SUPPLIER, Value(INACTIVE)), Commit(2), Decide(1), Commit(1)]);
  }

  lemma {:induction false} RunAppend(s: State, a: seq<Action>, b: seq<Action>)
    requires Run(s, a).Value?
    ensures Run(s, a + b) == Run(Run(s, a).value, b)
    decreases |a|
  {
    if a == [] {
      assert a + b == b;
    } else {
      assert (a + b)[1..] == a[1..] + b;
      RunAppend(Apply(s, a[0]), a[1..], b);
    }
  }

  /** A transaction may still deactivate the master it has just referenced. */
  lemma OwnDeactivation()
    ensures var s0 := State(map[SUPPLIER := INACTIVE.(active := True)], map[], map[]);
            var actions := [Begin(1), FireGuard(1, 0, Reference(Supplier, 7)), Look(1), Decide(1),
                            WriteMaster(1, SUPPLIER, Value(INACTIVE)), Commit(1)];
            var end := Run(s0, actions);
            end.Value? && 0 in end.value.refs && end.value.refs[0] == Value(Reference(Supplier, 7)) &&
            SUPPLIER in end.value.rows && end.value.rows[SUPPLIER].active == False
  {
    var s0 := State(map[SUPPLIER := INACTIVE.(active := True)], map[], map[]);
    var s1 := Apply(s0, Begin(1));
    var s2 := Apply(s1, FireGuard(1, 0, Reference(Supplier, 7)));
    assert RowsOf([]) == [];
    var s3 := Apply(s2, Look(1));
    assert Done(Reference(Supplier, 7), s3.open[1].call.seen);
    var s4 := Apply(s3, Decide(1));
    var s5 := Apply(s4, WriteMaster(1, SUPPLIER, Value(INACTIVE)));
    var s6 := Apply(s5, Commit(1));
    RunStep(s0, [Begin(1), FireGuard(1, 0, Reference(Supplier, 7)), Look(1), Decide(1),
                 WriteMaster(1, SUPPLIER, Value(INACTIVE)), Commit(1)], [s0, s1, s2, s3, s4, s5, s6]);
  }

  /** A run given state by state. */
  lemma {:induction false} RunStep(s: State, actions: seq<Action>, states: seq<State>)
    requires |states| == |actions| + 1 && states[0] == s
    requires forall i :: 0 <= i < |actions| ==>
             Enabled(states[i], actions[i]) && states[i+1] == Apply(states[i], actions[i])
    ensures Run(s, actions) == Value(states[|actions|])
    decreases |actions|
  {
    if actions != [] {
      RunStep(states[1], actions[1..], states[1..]);
    }
  }
}
