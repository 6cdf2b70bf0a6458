/** Quantity limits on production orders and work orders: the guards, the CHECK constraints, and rows under them. */
module Quantities {
  import opened Kleene

  type Qty = Nullable<real>

  // ----- conditions as SQL evaluates them -----

  /** The guard over production orders selects the rows that stop the migration. */
  function OrderGuard(planned: Qty, actual: Qty): Truth {
    And(Not(IsNull(actual)), Or(AtMost(actual, Value(0.0)), Exceeds(actual, planned)))
  }

  function OrderCheck(planned: Qty, actual: Qty): Truth {
    Or(IsNull(actual), And(Exceeds(actual, Value(0.0)), AtMost(actual, planned)))
  }

  function WorkGuard(planned: Qty, actual: Qty): Truth {
    And(Not(IsNull(actual)),
        Or(AtMost(actual, Value(0.0)), And(Not(IsNull(planned)), Exceeds(actual, planned))))
  }

  function WorkCheck(planned: Qty, actual: Qty): Truth {
    Or(IsNull(actual), And(Exceeds(actual, Value(0.0)), Or(IsNull(planned), AtMost(actual, planned))))
  }

  function BackorderCheck(planned: Qty, backordered: Qty): Truth {
    And(AtMost(Value(0.0), backordered), AtMost(backordered, planned))
  }

  function ReworkCheck(planned: Qty, actual: Qty, rework: Qty): Truth {
    And(And(AtMost(Value(0.0), rework), Or(IsNull(planned), AtMost(rework, planned))),
        Or(IsNull(actual), AtMost(rework, actual)))
  }

  /** The guards are the exact complements of the checks, NULLs included. */
  lemma GuardsAreComplements(planned: Qty, actual: Qty)
    ensures OrderCheck(planned, actual) == Not(OrderGuard(planned, actual))
    ensures WorkCheck(planned, actual) == Not(WorkGuard(planned, actual))
    ensures Selects(OrderGuard(planned, actual)) <==> !Admits(OrderCheck(planned, actual))
    ensures Selects(WorkGuard(planned, actual)) <==> !Admits(WorkCheck(planned, actual))
  {
  }

  // ----- revision 20261104_0006 -----

  datatype Order = Order(planned: real, actual: Qty, backordered: real, backorderOf: Nullable<nat>)

  datatype Work = Work(planned: Qty, actual: Qty, rework: real, reworkOf: Nullable<nat>, reason: Nullable<string>)

  /** The tables before the columns were added. */
  datatype OldOrder = OldOrder(planned: real, actual: Qty)

  datatype OldWork = OldWork(planned: Qty, actual: Qty)

  type OldOrders = map<nat, OldOrder>

  type Orders = map<nat, Order>

  type OldWorks = map<nat, OldWork>

  type Works = map<nat, Work>

  datatype Outcome<+T> = Done(value: T) | GuardFails | CheckFails

  function WithBackorder(orders: OldOrders): Orders {
    map id | id in orders :: Order(orders[id].planned, orders[id].actual, 0.0, Null)
  }

  predicate OrderGuardsPass(orders: OldOrders) {
    forall id :: id in orders ==> !Selects(OrderGuard(Value(orders[id].planned), orders[id].actual))
  }

  predicate WorkGuardsPass(works: OldWorks) {
    forall id :: id in works ==> !Selects(WorkGuard(works[id].planned, works[id].actual))
  }

  predicate OrderChecksHold(orders: Orders) {
    forall id :: id in orders ==>
      && Admits(BackorderCheck(Value(orders[id].planned), Value(orders[id].backordered)))
      && Admits(OrderCheck(Value(orders[id].planned), orders[id].actual))
  }

  predicate WorkChecksHold(works: OldWorks) {
    forall id :: id in works ==> Admits(WorkCheck(works[id].planned, works[id].actual))
  }

  /** Guards, then the new columns with their defaults, then the checks: adding one fails if a row makes it FALSE. */
  function Upgrade6(orders: OldOrders, works: OldWorks): Outcome<Orders> {
    if !OrderGuardsPass(orders) || !WorkGuardsPass(works) then GuardFails
    else if !OrderChecksHold(WithBackorder(orders)) || !WorkChecksHold(works) then CheckFails
    else Done(WithBackorder(orders))
  }

  /** What the guards and the actual-quantity checks are about. */
  predicate InRange(planned: Qty, actual: Qty) {
    actual.Value? ==> 0.0 < actual.value && (planned.Value? ==> actual.value <= planned.value)
  }

  lemma GuardsMeanInRange(planned: Qty, actual: Qty)
    ensures Selects(WorkGuard(planned, actual)) <==> !InRange(planned, actual)
    ensures planned.Value? ==> (Selects(OrderGuard(planned, actual)) <==> !InRange(planned, actual))
    ensures planned.Value? ==> (Admits(BackorderCheck(planned, Value(0.0))) <==> planned.value >= 0.0)
  {
  }

  lemma GuardsPassIff(orders: OldOrders, works: OldWorks)
    ensures OrderGuardsPass(orders) <==> forall id :: id in orders ==>
            InRange(Value(orders[id].planned), orders[id].actual)
    ensures WorkGuardsPass(works) <==> forall id :: id in works ==> InRange(works[id].planned, works[id].actual)
    ensures WorkGuardsPass(works) <==> WorkChecksHold(works)
  {
    forall id | id in orders
      ensures Selects(OrderGuard(Value(orders[id].planned), orders[id].actual)) <==>
              !InRange(Value(orders[id].planned), orders[id].actual)
    {
      GuardsMeanInRange(Value(orders[id].planned), orders[id].actual);
    }
    forall id | id in works
      ensures Selects(WorkGuard(works[id].planned, works[id].actual)) <==> !InRange(works[id].planned, works[id].actual)
      ensures Selects(WorkGuard(works[id].planned, works[id].actual)) <==>
              !Admits(WorkCheck(works[id].planned, works[id].actual))
    {
      GuardsMeanInRange(works[id].planned, works[id].actual);
      GuardsAreComplements(works[id].planned, works[id].actual);
    }
  }

  lemma AddedChecksIff(orders: OldOrders)
    requires OrderGuardsPass(orders)
    ensures OrderChecksHold(WithBackorder(orders)) <==> forall id :: id in orders ==> orders[id].planned >= 0.0
  {
    var added := WithBackorder(orders);
    forall id | id in orders
      ensures Admits(OrderCheck(Value(added[id].planned), added[id].actual))
      ensures Admits(BackorderCheck(Value(added[id].planned), Value(added[id].backordered))) <==>
              orders[id].planned >= 0.0
    {
      GuardsAreComplements(Value(orders[id].planned), orders[id].actual);
      GuardsMeanInRange(Value(orders[id].planned), orders[id].actual);
    }
  }

  /**
   The outcome on the columns. A guard fails exactly on an actual quantity outside (0, planned]. A passed guard lets
   both actual-quantity checks be added; the third fails exactly on a negative planned quantity, of an order that then
   has no actual quantity. Else every row is there, with nothing backordered.
   */
  lemma UpgradeSucceedsIff(orders: OldOrders, works: OldWorks)
    ensures Upgrade6(orders, works) == GuardFails <==>
            || (exists id :: id in orders && orders[id].actual.Value? &&
                             (orders[id].actual.value <= 0.0 || orders[id].actual.value > orders[id].planned))
            || (exists id :: id in works && works[id].actual.Value? &&
                             (works[id].actual.value <= 0.0 ||
                              (works[id].planned.Value? && works[id].actual.value > works[id].planned.value)))
    ensures Upgrade6(orders, works) == CheckFails <==>
            Upgrade6(orders, works) != GuardFails && exists id :: id in orders && orders[id].planned < 0.0
    ensures Upgrade6(orders, works) == CheckFails ==>
              forall id :: id in orders && orders[id].planned < 0.0 ==> orders[id].actual == Null
    ensures Upgrade6(orders, works).Done? ==>
              var now := Upgrade6(orders, works).value;
              && now.Keys == orders.Keys
              && forall id :: id in orders ==>
                   now[id] == Order(orders[id].planned, orders[id].actual, 0.0, Null)
  {
    GuardsPassIff(orders, works);
    if OrderGuardsPass(orders) {
      AddedChecksIff(orders);
      forall id | id in orders && orders[id].planned < 0.0 ensures orders[id].actual == Null {
        assert InRange(Value(orders[id].planned), orders[id].actual);
      }
    }
  }

  /** downgrade: refuses while a backorder would be lost, else drops checks and columns. */
  function Downgrade6(orders: Orders): Outcome<OldOrders> {
    if exists id :: id in orders && (orders[id].backorderOf.Value? || orders[id].backordered > 0.0) then GuardFails
    else Done(map id | id in orders :: OldOrder(orders[id].planned, orders[id].actual))
  }

  /** It goes through exactly when upgrading again would give every row back. */
  lemma Downgrade6LosesNothing(orders: Orders)
    requires OrderChecksHold(orders)
    ensures Downgrade6(orders).Done? <==> exists older: OldOrders :: WithBackorder(older) == orders
    ensures Downgrade6(orders).Done? ==> WithBackorder(Downgrade6(orders).value) == orders
  {
    if Downgrade6(orders).Done? {
      forall id | id in orders ensures orders[id].backordered == 0.0 {
        assert Admits(BackorderCheck(Value(orders[id].planned), Value(orders[id].backordered)));
      }
      assert WithBackorder(Downgrade6(orders).value) == orders;
    }
  }

  /** It is refused exactly while some order is a backorder or has one, and otherwise keeps the two older columns. */
  lemma Downgrade6Is(orders: Orders)
    ensures Downgrade6(orders) == GuardFails <==>
            exists id :: id in orders && (orders[id].backorderOf != Null || orders[id].backordered > 0.0)
    ensures Downgrade6(orders) != CheckFails
    ensures Downgrade6(orders).Done? ==>
              && Downgrade6(orders).value.Keys == orders.Keys
              && forall id :: id in orders ==>
                   Downgrade6(orders).value[id] == OldOrder(orders[id].planned, orders[id].actual)
  {
  }

  // ----- revision 20261104_0007 -----

  function WithRework(works: OldWorks): Works {
    map id | id in works :: Work(works[id].planned, works[id].actual, 0.0, Null, Null)
  }

  predicate Blank(s: string) {
    forall i :: 0 <= i < |s| ==> s[i] == ' '
  }

  /** The reason is there exactly when the row is a rework, and then it is not blank. */
  function ReasonCheck(w: Work): Truth {
    Or(And(IsNull(w.reworkOf), IsNull(w.reason)),
       And(And(Not(IsNull(w.reworkOf)), Not(IsNull(w.reason))),
           if w.reason.Null? then Unknown else Of(!Blank(w.reason.value))))
  }

  function NotSelfCheck(id: nat, w: Work): Truth {
    Or(IsNull(w.reworkOf), if w.reworkOf.Null? then Unknown else Of(w.reworkOf.value != id))
  }

  /** All checks of a work order. */
  predicate RowAdmitted(id: nat, w: Work) {
    && Admits(WorkCheck(w.planned, w.actual))
    && Admits(ReworkCheck(w.planned, w.actual, Value(w.rework)))
    && Admits(NotSelfCheck(id, w))
    && Admits(ReasonCheck(w))
  }

  /** What they say without three-valued logic. */
  predicate WithinLimits(id: nat, w: Work) {
    && w.rework >= 0.0
    && InRange(w.planned, w.actual)
    && (w.actual.Value? ==> w.rework <= w.actual.value)
    && (w.planned.Value? ==> w.rework <= w.planned.value)
    && (w.reworkOf.Value? <==> w.reason.Value?)
    && (w.reworkOf.Value? ==> w.reworkOf.value != id && !Blank(w.reason.value))
  }

  lemma ChecksMeanLimits(id: nat, w: Work)
    ensures RowAdmitted(id, w) <==> WithinLimits(id, w)
  {
  }

  function Upgrade7(works: OldWorks): Outcome<Works> {
    var added := WithRework(works);
    if forall id :: id in added ==> RowAdmitted(id, added[id]) then Done(added) else CheckFails
  }

  /** After 20261104_0006, it fails exactly on a work order with a negative planned quantity. */
  lemma Upgrade7SucceedsIff(works: OldWorks)
    requires WorkChecksHold(works)
    ensures Upgrade7(works).Done? <==> forall id :: id in works && works[id].planned.Value? ==>
            works[id].planned.value >= 0.0
  {
    var added := WithRework(works);
    forall id | id in works
      ensures RowAdmitted(id, added[id]) <==> (works[id].planned.Value? ==> works[id].planned.value >= 0.0)
    {
      assert Admits(WorkCheck(works[id].planned, works[id].actual));
      ChecksMeanLimits(id, added[id]);
    }
  }

  /** downgrade; `reworks` says whether the genealogy table records a REWORK. */
  function Downgrade7(works: Works, reworks: bool): Outcome<OldWorks> {
    if reworks || (exists id :: id in works &&
                     (works[id].reworkOf.Value? || works[id].rework > 0.0 || works[id].reason.Value?))
    then GuardFails
    else Done(map id | id in works :: OldWork(works[id].planned, works[id].actual))
  }

  lemma Downgrade7LosesNothing(works: Works, reworks: bool)
    requires forall id :: id in works ==> RowAdmitted(id, works[id])
    ensures Downgrade7(works, reworks).Done? <==> !reworks && exists older: OldWorks :: WithRework(older) == works
    ensures Downgrade7(works, reworks).Done? ==> Upgrade7(Downgrade7(works, reworks).value) == Done(works)
  {
    if Downgrade7(works, reworks).Done? {
      var older := Downgrade7(works, reworks).value;
      forall id | id in works ensures works[id].rework == 0.0 {
        ChecksMeanLimits(id, works[id]);
      }
      assert WithRework(older) == works;
    }
  }

  /** All checks of a row, on its columns: a positive actual quantity up to the planned one, rework up to either. */
  lemma RowAdmittedIff(id: nat, w: Work)
    ensures RowAdmitted(id, w) <==>
            && (w.actual.Value? ==> w.actual.value > 0.0)
            && (w.actual.Value? && w.planned.Value? ==> w.actual.value <= w.planned.value)
            && w.rework >= 0.0
            && (w.planned.Value? ==> w.rework <= w.planned.value)
            && (w.actual.Value? ==> w.rework <= w.actual.value)
            && (w.reworkOf.Null? <==> w.reason.Null?)
            && w.reworkOf != Value(id)
            && (w.reason.Value? ==> exists i :: 0 <= i < |w.reason.value| && w.reason.value[i] != ' ')
  {
    ChecksMeanLimits(id, w);
  }

  /** The outcomes of 20261104_0007: a check fails on a row it makes FALSE, else every row is there without rework. */
  lemma Revision7Is(works: OldWorks, now: Works, reworks: bool)
    ensures Upgrade7(works).Done? ==>
              && Upgrade7(works).value.Keys == works.Keys
              && forall id :: id in works ==>
                   Upgrade7(works).value[id] == Work(works[id].planned, works[id].actual, 0.0, Null, Null)
    ensures Upgrade7(works).Done? <==>
            forall id :: id in works ==>
              && (works[id].planned.Value? ==> works[id].planned.value >= 0.0)
              && (works[id].actual.Value? ==> works[id].actual.value > 0.0)
              && (works[id].actual.Value? && works[id].planned.Value? ==>
                    works[id].actual.value <= works[id].planned.value)
    ensures Downgrade7(now, reworks) == GuardFails <==>
            || reworks
            || exists id :: id in now && (now[id].reworkOf != Null || now[id].rework > 0.0 || now[id].reason != Null)
    ensures Downgrade7(now, reworks).Done? ==>
              && Downgrade7(now, reworks).value.Keys == now.Keys
              && forall id :: id in now ==>
                   Downgrade7(now, reworks).value[id] == OldWork(now[id].planned, now[id].actual)
  {
    forall id | id in works
      ensures RowAdmitted(id, Work(works[id].planned, works[id].actual, 0.0, Null, Null)) <==>
              && (works[id].planned.Value? ==> works[id].planned.value >= 0.0)
              && (works[id].actual.Value? ==> works[id].actual.value > 0.0)
              && (works[id].actual.Value? && works[id].planned.Value? ==>
                    works[id].actual.value <= works[id].planned.value)
    {
      RowAdmittedIff(id, Work(works[id].planned, works[id].actual, 0.0, Null, Null));
    }
  }

  // ----- rows under the checks -----

  datatype Action = Insert(id: nat, row: Work) | Update(id: nat, row: Work) | Delete(id: nat)

  /** The key to the reworked order. */
  predicate Referred(works: Works, id: nat) {
    exists other :: other in works && works[other].reworkOf == Value(id)
  }

  predicate KeyHolds(works: Works, row: Work) {
    row.reworkOf.Value? ==> row.reworkOf.value in works
  }

  /** A statement that breaks a check, the key or its RESTRICT is refused and changes nothing. */
  function Apply(works: Works, a: Action): Works {
    match a
    case Insert(id, row) =>
      if id !in works && RowAdmitted(id, row) && KeyHolds(works, row) then works[id := row] else works
    case Update(id, row) =>
      if id in works && RowAdmitted(id, row) && KeyHolds(works, row) then works[id := row] else works
    case Delete(id) =>
      if id in works && !Referred(works, id) then works - {id} else works
  }

  /** The statements: what is stored, under which key, and that nothing else changes. */
  lemma StatementsAre(works: Works, id: nat, row: Work)
    ensures Apply(works, Insert(id, row)) ==
            if id !in works && RowAdmitted(id, row) && (row.reworkOf.Value? ==> row.reworkOf.value in works)
            then works[id := row] else works
    ensures Apply(works, Update(id, row)) ==
            if id in works && RowAdmitted(id, row) && (row.reworkOf.Value? ==> row.reworkOf.value in works)
            then works[id := row] else works
    ensures Apply(works, Delete(id)) ==
            if forall other :: other in works ==> works[other].reworkOf != Value(id) then works - {id} else works
  {
    if id !in works {
      assert works - {id} == works;
    }
  }

  function Run(works: Works, actions: seq<Action>): Works
    decreases |actions|
  {
    if actions == [] then works else Run(Apply(works, actions[0]), actions[1..])
  }

  /** The live table. */
  class WorkOrders {
    var works: Works

    method InsertRow(id: nat, row: Work) returns (ok: bool)
      modifies this
      ensures works == Apply(old(works), Insert(id, row))
      ensures ok <==> id !in old(works) && WithinLimits(id, row) && KeyHolds(old(works), row)
      ensures works == if ok then old(works)[id := row] else old(works)
    {
      ChecksMeanLimits(id, row);
      ok := id !in works && RowAdmitted(id, row) && KeyHolds(works, row);
      if ok { works := works[id := row]; }
    }

    method UpdateRow(id: nat, row: Work) returns (ok: bool)
      modifies this
      ensures works == Apply(old(works), Update(id, row))
      ensures ok <==> id in old(works) && WithinLimits(id, row) && KeyHolds(old(works), row)
      ensures works == if ok then old(works)[id := row] else old(works)
    {
      ChecksMeanLimits(id, row);
      ok := id in works && RowAdmitted(id, row) && KeyHolds(works, row);
      if ok { works := works[id := row]; }
    }

    /** ON DELETE RESTRICT: the other rows are looked through; deleting nothing is no error. */
    method DeleteRow(id: nat) returns (ok: bool)
      requires Sound(works)
      modifies this
      ensures Sound(works) && works == Apply(old(works), Delete(id))
      ensures ok <==> forall other :: other in old(works) ==> old(works)[other].reworkOf != Value(id)
      ensures ok ==> id !in works
      ensures forall other :: other in old(works) && other != id ==> other in works && works[other] == old(works)[other]
    {
      RunIsSound(works, [Delete(id)]);
      var left := works.Keys;
      while left != {}
        invariant left <= works.Keys && works == old(works)
        invariant forall other :: other in works && other !in left ==> works[other].reworkOf != Value(id)
        decreases |left|
      {
        var other :| other in left;
        if works[other].reworkOf == Value(id) { return false; }
        left := left - {other};
      }
      works := works - {id};
      ok := true;
    }
  }

  predicate Sound(works: Works) {
    forall id :: id in works ==> WithinLimits(id, works[id]) && KeyHolds(works, works[id])
  }

  lemma {:induction false} RunIsSound(works: Works, actions: seq<Action>)
    requires Sound(works)
    ensures Sound(Run(works, actions))
    decreases |actions|
  {
    if actions != [] {
      var next := Apply(works, actions[0]);
      match actions[0] {
        case Insert(id, row) => ChecksMeanLimits(id, row);
        case Update(id, row) => ChecksMeanLimits(id, row);
        case Delete(id) =>
          forall other | other in next ensures KeyHolds(next, next[other]) {
            assert works[other].reworkOf == Value(id) ==> Referred(works, id) || id !in works;
          }
      }
      RunIsSound(next, actions[1..]);
    }
  }

  /**
   From the upgraded table on, in every run of inserts, updates and deletes: rework <= actual <= planned wherever they
   are not NULL, an actual quantity is positive, and every rework names another existing order and a reason.
   */
  lemma LimitsHoldInEveryRun(works: OldWorks, actions: seq<Action>)
    requires Upgrade7(works).Done?
    ensures var now := Run(Upgrade7(works).value, actions);
            forall id :: id in now ==>
              var w := now[id];
              && w.rework >= 0.0
              && (w.actual.Value? ==> 0.0 < w.actual.value && w.rework <= w.actual.value)
              && (w.planned.Value? ==> w.rework <= w.planned.value)
              && (w.actual.Value? && w.planned.Value? ==> w.actual.value <= w.planned.value)
              && (w.reworkOf.Value? ==> w.reworkOf.value in now && w.reworkOf.value != id && w.reason.Value?)
              && (w.reason.Value? ==> w.reworkOf.Value?)
              && (w.reason.Value? ==> exists i :: 0 <= i < |w.reason.value| && w.reason.value[i] != ' ')
  {
    var added := Upgrade7(works).value;
    forall id | id in added ensures WithinLimits(id, added[id]) && KeyHolds(added, added[id]) {
      assert RowAdmitted(id, added[id]);
      ChecksMeanLimits(id, added[id]);
    }
    RunIsSound(added, actions);
  }

  /** Without a planned and an actual quantity the rework quantity has no upper limit. */
  lemma ReworkWithoutActualIsUnlimited(id: nat, rework: real)
    ensures WithinLimits(id, Work(Null, Null, rework, Null, Null)) <==> rework >= 0.0
  {
  }
}
