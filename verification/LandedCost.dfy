/**
 The UPDATE that fills in actual amounts, variances and their status. Amounts have four decimals and are counted in
 ten-thousandths; rates have six, so that a product of the two is an exact whole number of UNITs of a millionth of that.
 */
module LandedCost {
  import opened Kleene

  const UNIT := 1_000_000

  /** NUMERIC(14, 4) holds less than 10^10. */
  const LIMIT := 100_000_000_000_000

  datatype Status = Recorded | Pending | Posted | NotRequired

  datatype Actual = Actual(
    line: nat, amountFc: int, base: Nullable<int>, variance: Nullable<int>, status: Nullable<Status>)

  datatype Line = Line(header: nat, rate: Nullable<int>, base: int)

  datatype Allocation = Allocation(header: nat, line: nat, amount: int, posted: Nullable<bool>)

  /** The rows joined: lines, headers (is the status POSTED?), allocations. */
  datatype Books = Books(lines: map<nat, Line>, headers: map<nat, bool>, allocations: seq<Allocation>)

  // ----- rounding -----

  /** PostgreSQL's round of n / UNIT: to the nearest, half away from zero. */
  function Round(n: int): int {
    if n >= 0 then (n + UNIT / 2) / UNIT else -((-n + UNIT / 2) / UNIT)
  }

  function Abs(n: int): nat {
    if n < 0 then -n else n
  }

  /** Halfway between two multiples. */
  predicate Tie(n: int) {
    Abs(n) % UNIT == UNIT / 2
  }

  lemma RoundIsNearest(n: int, r: int)
    ensures r == Round(n) <==>
            2 * Abs(n - r * UNIT) < UNIT || (2 * Abs(n - r * UNIT) == UNIT && Abs(r * UNIT) > Abs(n))
  {
  }

  // ----- the row -----

  predicate Counts(a: Allocation, header: nat, line: nat) {
    a.header == header && a.line == line && a.posted == Value(true)
  }

  /** SUM over the posted allocations of a line: NULL when there are none. */
  function PostedSum(allocations: seq<Allocation>, header: nat, line: nat): Nullable<int> {
    if allocations == [] then Null
    else
      var rest := PostedSum(allocations[1..], header, line);
      var first := allocations[0];
      if !Counts(first, header, line) then rest
      else if rest.Null? then Value(first.amount)
      else Value(first.amount + rest.value)
  }

  predicate Joined(books: Books, a: Actual) {
    a.line in books.lines && books.lines[a.line].header in books.headers
  }

  predicate Chosen(books: Books, a: Actual) {
    Joined(books, a) && (a.status.Null? || a.base.Null? || a.variance.Null?)
  }

  function Product(books: Books, a: Actual): int
    requires Joined(books, a)
  {
    var rate := books.lines[a.line].rate;
    a.amountFc * if rate.Null? then UNIT else rate.value
  }

  /** What was allotted for the line: the posted allocations, else the amount of the line. */
  function Allocated(books: Books, a: Actual): int
    requires Joined(books, a)
  {
    var line := books.lines[a.line];
    var sum := PostedSum(books.allocations, line.header, a.line);
    if sum.Null? then line.base else sum.value
  }

  function Difference(books: Books, a: Actual): int
    requires Joined(books, a)
  {
    Product(books, a) - Allocated(books, a) * UNIT
  }

  function StatusFor(books: Books, a: Actual): Status
    requires Joined(books, a)
  {
    if !books.headers[books.lines[a.line].header] then Recorded
    else if Round(Difference(books, a)) == 0 then NotRequired
    else Pending
  }

  function Filled(books: Books, a: Actual): Actual {
    if !Chosen(books, a) then a
    else
      a.(base := Value(Round(Product(books, a))),
      variance := Value(Round(Difference(books, a))),
      status := Value(StatusFor(books, a)))
  }

  predicate Fits(books: Books, a: Actual) {
    Chosen(books, a) ==> Abs(Round(Product(books, a))) < LIMIT && Abs(Round(Difference(books, a))) < LIMIT
  }

  /** The statement: a value too large for its column aborts it. */
  function Backfill(books: Books, rows: seq<Actual>): Nullable<seq<Actual>> {
    if forall a :: a in rows ==> Fits(books, a) then
      Value(seq(|rows|, i requires 0 <= i < |rows| => Filled(books, rows[i])))
    else Null
  }

  /** Row by row in place; on overflow every row is put back. */
  method Update(books: Books, rows: array<Actual>) returns (ok: bool)
    modifies rows
    ensures ok <==> Backfill(books, old(rows[..])).Value?
    ensures rows[..] == if ok then Backfill(books, old(rows[..])).value else old(rows[..])
    ensures ok <==> forall i :: 0 <= i < rows.Length ==> !TooLarge(books, old(rows[i]))
    ensures forall i :: 0 <= i < rows.Length ==> rows[i] == if ok then Filled(books, old(rows[i])) else old(rows[i])
  {
    ghost var before := rows[..];
    BackfillIs(books, before);
    var saved := rows[..];
    var i := 0;
    while i < rows.Length
      invariant 0 <= i <= rows.Length
      invariant forall k :: 0 <= k < i ==> Fits(books, before[k]) && rows[k] == Filled(books, before[k])
      invariant forall k :: i <= k < rows.Length ==> rows[k] == before[k]
    {
      if !Fits(books, rows[i]) {
        assert before[i] in before;
        forall k | 0 <= k < rows.Length { rows[k] := saved[k]; }
        assert rows[..] == before;
        return false;
      }
      rows[i] := Filled(books, rows[i]);
      i := i + 1;
    }
    ok := true;
  }

  // ----- what the figures mean -----

  /** A counted allocation adds its amount, wherever it stands; any other changes nothing. */
  lemma {:induction false} PostedSumOf(xs: seq<Allocation>, a: Allocation, ys: seq<Allocation>, header: nat, line: nat)
    ensures var without, with := PostedSum(xs + ys, header, line), PostedSum(xs + [a] + ys, header, line);
            with ==
            if a.header == header && a.line == line && a.posted == Value(true) then
              Value(a.amount + if without.Null? then 0 else without.value)
            else without
  {
    var all := xs + [a] + ys;
    if xs == [] {
      assert all[1..] == xs + ys;
    } else {
      assert all[1..] == xs[1..] + [a] + ys;
      assert (xs + ys)[1..] == xs[1..] + ys;
      PostedSumOf(xs[1..], a, ys, header, line);
    }
  }

  /**
   The stored variance is the stored actual amount less what was allotted, give or take one ten-thousandth; it is off
   by that one exactly when the product is a tie and has the other sign than its difference from what was allotted.
   */
  lemma VarianceAgrees(product: int, allotted: int)
    ensures var difference := product - allotted * UNIT;
            var variance, expected := Round(difference), Round(product) - allotted;
            && Abs(variance - expected) <= 1
            && (variance != expected <==> Tie(product) && (product > 0 <==> difference < 0))
  {
    var difference := product - allotted * UNIT;
    RoundIsNearest(product, Round(product));
    RoundIsNearest(difference, Round(difference));
  }

  // ----- the statement on the columns -----

  /** There is no sum exactly when no posted allocation is for the line. */
  lemma {:induction false} PostedSumIsNullIff(allocations: seq<Allocation>, header: nat, line: nat)
    ensures PostedSum(allocations, header, line).Null? <==>
            forall x :: x in allocations ==> !(x.header == header && x.line == line && x.posted == Value(true))
  {
    if allocations != [] {
      PostedSumIsNullIff(allocations[1..], header, line);
      assert allocations == [allocations[0]] + allocations[1..];
    }
  }

  /** Exactly the rows are filled in whose line has its header and that lack one of the three values. */
  lemma FilledInIff(books: Books, a: Actual)
    ensures Filled(books, a) != a <==>
            && a.line in books.lines && books.lines[a.line].header in books.headers
            && (a.status == Null || a.base == Null || a.variance == Null)
    ensures Filled(books, a).line == a.line && Filled(books, a).amountFc == a.amountFc
  {
  }

  /**
   A row that is filled in, said on the columns alone. The actual amount is the nearest to amount times rate, a NULL
   rate counting as one. The variance is that amount less the posted allocations of the line, or less the line's own
   amount when none is posted, within one ten-thousandth; it is off exactly on a tie of the other sign. It is
   RECORDED before posting; after, NOT_REQUIRED exactly within half a ten-thousandth, else PENDING.
   */
  lemma FilledRow(books: Books, a: Actual)
    requires a.line in books.lines && books.lines[a.line].header in books.headers
    requires a.status == Null || a.base == Null || a.variance == Null
    ensures var line, r := books.lines[a.line], Filled(books, a);
            var product := a.amountFc * if line.rate.Null? then 1_000_000 else line.rate.value;
            var sum := PostedSum(books.allocations, line.header, a.line);
            var allotted := if sum.Null? then line.base else sum.value;
            var difference := product - allotted * 1_000_000;
            && r.base.Value? && r.variance.Value?
            && -500_000 <= product - r.base.value * 1_000_000 <= 500_000
            && (product - r.base.value * 1_000_000 == 500_000 ==> product < 0)
            && (product - r.base.value * 1_000_000 == -500_000 ==> product > 0)
            && -1 <= r.variance.value - (r.base.value - allotted) <= 1
            && (r.variance.value != r.base.value - allotted <==>
                  product % 1_000_000 == 500_000 && (product > 0 <==> difference < 0))
            && r.status == Value(if !books.headers[line.header] then Recorded
                                 else if -500_000 < difference < 500_000 then NotRequired
                                 else Pending)
  {
    var line := books.lines[a.line];
    var sum := PostedSum(books.allocations, line.header, a.line);
    var allotted := if sum.Null? then line.base else sum.value;
    var product := a.amountFc * if line.rate.Null? then 1_000_000 else line.rate.value;
    VarianceAgrees(product, allotted);
    RoundIsNearest(product, Round(product));
    RoundIsNearest(product - allotted * 1_000_000, 0);
    TieIs(product);
  }

  lemma TieIs(n: int)
    ensures Tie(n) <==> n % 1_000_000 == 500_000
  {
    if n < 0 {
      var q, r := n / 1_000_000, n % 1_000_000;
      assert -n == -q * 1_000_000 - r;
    }
  }

  lemma TooLargeIff(n: int)
    ensures Abs(Round(n)) < LIMIT <==> -99_999_999_999_999_500_000 < n < 99_999_999_999_999_500_000
  {
    RoundIsNearest(n, Round(n));
  }

  /** A row to be filled in whose amount or variance is too large for NUMERIC(14, 4). */
  predicate TooLarge(books: Books, a: Actual) {
    && a.line in books.lines && books.lines[a.line].header in books.headers
    && (a.status == Null || a.base == Null || a.variance == Null)
    && var line := books.lines[a.line];
       var product := a.amountFc * if line.rate.Null? then 1_000_000 else line.rate.value;
       var sum := PostedSum(books.allocations, line.header, a.line);
       var difference := product - (if sum.Null? then line.base else sum.value) * 1_000_000;
       || product <= -99_999_999_999_999_500_000 || product >= 99_999_999_999_999_500_000
       || difference <= -99_999_999_999_999_500_000 || difference >= 99_999_999_999_999_500_000
  }

  lemma FitsIff(books: Books, a: Actual)
    ensures Fits(books, a) <==> !TooLarge(books, a)
  {
    if Chosen(books, a) {
      TooLargeIff(Product(books, a));
      TooLargeIff(Difference(books, a));
    }
  }

  /** The statement aborts exactly on such a row, and otherwise fills in row by row. */
  lemma BackfillIs(books: Books, rows: seq<Actual>)
    ensures Backfill(books, rows).Value? <==> forall i :: 0 <= i < |rows| ==> !TooLarge(books, rows[i])
    ensures Backfill(books, rows).Value? ==>
              && |Backfill(books, rows).value| == |rows|
              && forall i :: 0 <= i < |rows| ==> Backfill(books, rows).value[i] == Filled(books, rows[i])
  {
    forall i | 0 <= i < |rows| ensures Fits(books, rows[i]) <==> !TooLarge(books, rows[i]) {
      FitsIff(books, rows[i]);
    }
  }

  /** 0.0001 at rate 0.5 against an allocation of 0.0001: the stored actual equals it, yet a variance is pending. */
  lemma TieIsOff()
    ensures var books := Books(map[1 := Line(1, Value(500_000), 1)], map[1 := true], []);
            var a := Actual(1, 1, Null, Null, Null);
            Filled(books, a) == a.(base := Value(1), variance := Value(-1), status := Value(Pending)) &&
            Allocated(books, a) == 1
  {
  }

  /** A second run changes nothing, and rows that were complete are never touched. */
  lemma SecondRunIsIdle(books: Books, rows: seq<Actual>)
    requires Backfill(books, rows).Value?
    ensures var filled := Backfill(books, rows).value;
            && Backfill(books, filled) == Value(filled)
            && forall i :: 0 <= i < |rows| ==>
                 && filled[i].line == rows[i].line && filled[i].amountFc == rows[i].amountFc
                 && !Chosen(books, filled[i])
                 && (filled[i] != rows[i] ==> Chosen(books, rows[i]))
  {
    var filled := Backfill(books, rows).value;
    forall i | 0 <= i < |filled| ensures !Chosen(books, filled[i]) && Filled(books, filled[i]) == filled[i] {
      assert Joined(books, filled[i]) <==> Joined(books, rows[i]);
    }
    assert forall a :: a in filled ==> Fits(books, a);
    assert Backfill(books, filled).value == filled;
  }

  /** A posted row that lacks an amount loses its status: the WHERE clause looks at all three columns. */
  lemma PostedRowIsReset(books: Books, a: Actual)
    requires Joined(books, a) && a.status == Value(Posted)
    ensures Filled(books, a).status != a.status <==> a.base.Null? || a.variance.Null?
  {
  }
}
