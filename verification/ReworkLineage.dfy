/** Which work order a rework goes back to: whether following the origins can come back to where it started. */
module ReworkLineage {
  import opened Kleene
  import opened Quantities

  /** The origin n steps back, while there is one. */
  function Origin(works: Works, id: nat, n: nat): Nullable<nat>
    decreases n
  {
    if n == 0 then Value(id)
    else if id !in works || works[id].reworkOf.Null? then Null
    else Origin(works, works[id].reworkOf.value, n - 1)
  }

  ghost predicate Reaches(works: Works, from: nat, id: nat) {
    exists n: nat :: Origin(works, from, n) == Value(id)
  }

  ghost predicate Acyclic(works: Works) {
    forall id: nat, n: nat :: n >= 1 ==> Origin(works, id, n) != Value(id)
  }

  /** Free of cycles: no order goes back to itself, and no two to each other. */
  lemma AcyclicMeans(works: Works, a: nat, b: nat)
    requires Acyclic(works) && a in works && works[a].reworkOf == Value(b)
    ensures b != a && (b in works ==> works[b].reworkOf != Value(a))
  {
    OriginIs(works, a, 1);
    OriginIs(works, b, 0);
    OriginIs(works, a, 0);
    assert Origin(works, a, 2) != Value(a);
  }

  /** One step back is the stored origin, and there is none beyond an order without one. */
  lemma OriginIs(works: Works, id: nat, n: nat)
    ensures Origin(works, id, 0) == Value(id)
    ensures Origin(works, id, n + 1) ==
            if id in works && works[id].reworkOf.Value? then Origin(works, works[id].reworkOf.value, n) else Null
  {
  }

  lemma {:induction false} OriginOfOrigin(works: Works, id: nat, m: nat, via: nat, n: nat)
    requires Origin(works, id, m) == Value(via)
    ensures Origin(works, id, m + n) == Origin(works, via, n)
    decreases m
  {
    if m > 0 {
      OriginOfOrigin(works, works[id].reworkOf.value, m - 1, via, n);
    }
  }

  predicate DifferAt(works: Works, changed: Works, id: nat) {
    && works.Keys - {id} == changed.Keys - {id}
    && forall x :: x in works.Keys - {id} ==> x in changed && works[x] == changed[x]
  }

  /** Tables that differ in one row give the same origins until that row is met. */
  lemma {:induction false} SameUntilMet(works: Works, changed: Works, id: nat, from: nat, n: nat) returns (at: nat)
    requires DifferAt(works, changed, id)
    ensures at <= n
    ensures at < n ==> Origin(works, from, at) == Value(id) == Origin(changed, from, at)
    ensures at == n ==> Origin(works, from, n) == Origin(changed, from, n)
    decreases n
  {
    if n == 0 || from == id {
      at := 0;
    } else if from !in works || works[from].reworkOf.Null? {
      assert from in changed.Keys - {id} <==> from in works.Keys - {id};
      at := n;
    } else {
      assert from in works.Keys - {id};
      at := SameUntilMet(works, changed, id, works[from].reworkOf.value, n - 1);
      at := at + 1;
    }
  }

  lemma {:induction false} Rotate(works: Works, x: nat, at: nat, id: nat, n: nat)
    requires at <= n && Origin(works, x, n) == Value(x) && Origin(works, x, at) == Value(id)
    ensures Origin(works, id, n) == Value(id)
  {
    OriginOfOrigin(works, x, at, id, n - at);
    OriginOfOrigin(works, id, n - at, x, at);
  }

  /** A cycle in a changed table runs through the changed row, if there was none before. */
  lemma CycleMeetsChange(works: Works, changed: Works, id: nat, x: nat, n: nat)
    requires DifferAt(works, changed, id) && Acyclic(works) && n >= 1 && Origin(changed, x, n) == Value(x)
    ensures Origin(changed, id, n) == Value(id)
  {
    var at := SameUntilMet(works, changed, id, x, n);
    assert Origin(works, x, n) != Value(x);
    Rotate(changed, x, at, id, n);
  }

  /** Giving a row an origin closes a cycle exactly when that origin already went back to the row. */
  lemma NewOriginIff(works: Works, id: nat, row: Work)
    requires Acyclic(works)
    ensures Acyclic(works[id := row]) <==> !(row.reworkOf.Value? && Reaches(works, row.reworkOf.value, id))
  {
    var changed := works[id := row];
    if row.reworkOf.Value? && Reaches(works, row.reworkOf.value, id) {
      var n: nat :| Origin(works, row.reworkOf.value, n) == Value(id);
      var at := SameUntilMet(works, changed, id, row.reworkOf.value, n);
      assert Origin(changed, id, at + 1) == Value(id);
    } else {
      forall x: nat, n: nat | n >= 1 ensures Origin(changed, x, n) != Value(x) {
        if Origin(changed, x, n) == Value(x) {
          CycleMeetsChange(works, changed, id, x, n);
          var at := SameUntilMet(works, changed, id, row.reworkOf.value, n - 1);
          assert Origin(works, row.reworkOf.value, at) == Value(id);
        }
      }
    }
  }

  lemma {:induction false} OriginIsStored(works: Works, id: nat, n: nat, origin: nat)
    requires Sound(works) && id in works && Origin(works, id, n) == Value(origin)
    ensures origin in works
    decreases n
  {
    if n > 0 {
      assert KeyHolds(works, works[id]);
      OriginIsStored(works, works[id].reworkOf.value, n - 1, origin);
    }
  }

  lemma {:induction false} FewerRowsReachLess(works: Works, id: nat, from: nat, n: nat)
    ensures Origin(works - {id}, from, n).Value? ==> Origin(works - {id}, from, n) == Origin(works, from, n)
    decreases n
  {
    if n > 0 && from in works - {id} && works[from].reworkOf.Value? {
      FewerRowsReachLess(works, id, works[from].reworkOf.value, n - 1);
    }
  }

  /**
   One statement on a sound table without cycles: only an accepted update can close one, and it does exactly when the
   origin it sets goes back to the updated row.
   */
  lemma StatementKeepsAcyclicIff(works: Works, a: Action)
    requires Sound(works) && Acyclic(works)
    ensures Acyclic(Apply(works, a)) <==>
            !(a.Update? && a.id in works && WithinLimits(a.id, a.row) && KeyHolds(works, a.row) &&
              a.row.reworkOf.Value? && Reaches(works, a.row.reworkOf.value, a.id))
  {
    match a {
      case Insert(id, row) =>
        ChecksMeanLimits(id, row);
        if Apply(works, a) != works {
          NewOriginIff(works, id, row);
          if row.reworkOf.Value? && Reaches(works, row.reworkOf.value, id) {
            var n: nat :| Origin(works, row.reworkOf.value, n) == Value(id);
            OriginIsStored(works, row.reworkOf.value, n, id);
            assert false;
          }
        }
      case Update(id, row) =>
        ChecksMeanLimits(id, row);
        NewOriginIff(works, id, row);
      case Delete(id) =>
        forall x: nat, n: nat | n >= 1 ensures Origin(works - {id}, x, n) != Value(x) {
          FewerRowsReachLess(works, id, x, n);
        }
    }
  }

  /** Updates of the run leave or clear the origin: it is set only when the row is inserted. */
  predicate OriginsKept(works: Works, actions: seq<Action>)
    decreases |actions|
  {
    actions == [] ||
    (var a := actions[0];
     && (a.Update? && a.id in works ==> a.row.reworkOf.Null? || a.row.reworkOf == works[a.id].reworkOf)
     && OriginsKept(Apply(works, a), actions[1..]))
  }

  /** Every update of the run, on the table it meets, leaves the origin or clears it. */
  lemma {:induction false} OriginsKeptIff(works: Works, actions: seq<Action>)
    ensures OriginsKept(works, actions) <==>
            forall n :: 0 <= n < |actions| ==> OriginKeptAt(Run(works, actions[..n]), actions[n])
    decreases |actions|
  {
    if actions != [] {
      var rest, next := actions[1..], Apply(works, actions[0]);
      OriginsKeptIff(next, rest);
      assert Run(works, actions[..0]) == works;
      forall n | 0 < n < |actions|
        ensures actions[n] == rest[n-1] && Run(works, actions[..n]) == Run(next, rest[..n-1])
      {
        assert actions[..n][1..] == rest[..n-1];
      }
      if OriginsKept(works, actions) {
        forall n | 0 <= n < |actions| ensures OriginKeptAt(Run(works, actions[..n]), actions[n]) {
          if n > 0 { assert OriginKeptAt(Run(next, rest[..n-1]), rest[n-1]); }
        }
      }
      if forall n :: 0 <= n < |actions| ==> OriginKeptAt(Run(works, actions[..n]), actions[n]) {
        assert OriginKeptAt(Run(works, actions[..0]), actions[0]);
        forall n | 0 <= n < |rest| ensures OriginKeptAt(Run(next, rest[..n]), rest[n]) {
          assert OriginKeptAt(Run(works, actions[..n+1]), actions[n+1]);
        }
      }
    }
  }

  predicate OriginKeptAt(works: Works, a: Action) {
    a.Update? && a.id in works ==> a.row.reworkOf.Null? || a.row.reworkOf == works[a.id].reworkOf
  }

  lemma OneMore(works: Works, id: nat, n: nat)
    requires id in works && works[id].reworkOf.Value?
    ensures Origin(works, id, n + 1) == Origin(works, works[id].reworkOf.value, n)
  {
  }

  lemma KeptOriginIsSafe(works: Works, a: Action)
    requires Sound(works) && Acyclic(works)
    requires a.Update? && a.id in works ==> a.row.reworkOf.Null? || a.row.reworkOf == works[a.id].reworkOf
    ensures Acyclic(Apply(works, a))
  {
    StatementKeepsAcyclicIff(works, a);
    if a.Update? && a.id in works && a.row.reworkOf.Value? && Reaches(works, a.row.reworkOf.value, a.id) {
      var n: nat :| Origin(works, a.row.reworkOf.value, n) == Value(a.id);
      OneMore(works, a.id, n);
      assert false;
    }
  }

  /** Every run whose updates set no origin keeps the lineage free of cycles: an insert can only name an older row. */
  lemma {:induction false} LineageStaysAcyclic(works: Works, actions: seq<Action>)
    requires Sound(works) && Acyclic(works) && OriginsKept(works, actions)
    ensures Acyclic(Run(works, actions))
    decreases |actions|
  {
    if actions != [] {
      KeptOriginIsSafe(works, actions[0]);
      RunIsSound(works, [actions[0]]);
      assert [actions[0]][1..] == [];
      assert Run(works, [actions[0]]) == Run(Apply(works, actions[0]), []);
      LineageStaysAcyclic(Apply(works, actions[0]), actions[1..]);
    }
  }

  /** Two orders may name each other: the check looks at one row only. */
  lemma ReworksMayFormACycle()
    ensures var first := Work(Null, Null, 0.0, Null, Null);
            var second := Work(Null, Null, 0.0, Value(1), Value("x"));
            var closed := first.(reworkOf := Value(2), reason := Value("x"));
            var now := Run(map[], [Insert(1, first), Insert(2, second), Update(1, closed)]);
            now == map[1 := closed, 2 := second] && !Acyclic(now)
  {
    var first := Work(Null, Null, 0.0, Null, Null);
    var second := Work(Null, Null, 0.0, Value(1), Value("x"));
    var closed := first.(reworkOf := Value(2), reason := Value("x"));
    assert !Blank("x") by { assert "x"[0] == 'x'; }
    ChecksMeanLimits(1, first);
    ChecksMeanLimits(2, second);
    ChecksMeanLimits(1, closed);
    var one: Works := map[1 := first];
    var two: Works := map[1 := first, 2 := second];
    var actions := [Insert(1, first), Insert(2, second), Update(1, closed)];
    calc {
      Run(map[], actions);
      { assert actions[1..] == [Insert(2, second), Update(1, closed)]; }
      Run(one, [Insert(2, second), Update(1, closed)]);
      { assert [Insert(2, second), Update(1, closed)][1..] == [Update(1, closed)]; }
      Run(two, [Update(1, closed)]);
      { assert [Update(1, closed)][1..] == []; }
      Run(Apply(two, Update(1, closed)), []);
    }
    var now: Works := map[1 := closed, 2 := second];
    OneMore(now, 1, 1);
    OneMore(now, 2, 0);
    assert Origin(now, 1, 2) == Value(1);
  }

  /** Over all runs the lineage stays free of cycles exactly under that discipline on updates. */
  lemma AcyclicIffOriginsKept(kept: bool)
    ensures (forall works, actions :: Sound(works) && Acyclic(works) && (kept ==> OriginsKept(works, actions)) ==>
               Acyclic(Run(works, actions))) <==> kept
  {
    if kept {
      forall works, actions | Sound(works) && Acyclic(works) && OriginsKept(works, actions)
        ensures Acyclic(Run(works, actions))
      {
        LineageStaysAcyclic(works, actions);
      }
    } else {
      ReworksMayFormACycle();
      var first := Work(Null, Null, 0.0, Null, Null);
      var second := Work(Null, Null, 0.0, Value(1), Value("x"));
      var closed := first.(reworkOf := Value(2), reason := Value("x"));
      var actions := [Insert(1, first), Insert(2, second), Update(1, closed)];
      assert Sound(map[]) && Acyclic(map[]) && !Acyclic(Run(map[], actions));
    }
  }
}
