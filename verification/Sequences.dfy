/** Number allocators: sequences started from the highest number found in stored texts. */
module Sequences {
  import opened Kleene
  import opened Numerals

  /** The largest BIGINT. */
  const BIGINT_MAX := 0x7FFF_FFFF_FFFF_FFFF

  // ----- numbered texts -----

  /** What stands before the digits: fixed text, or WI- with six hexadecimal digits and a dash. */
  datatype Pattern = Literal(head: string) | WhatIf

  predicate IsHex(c: char) {
    '0' <= c <= '9' || 'A' <= c <= 'F' || 'a' <= c <= 'f'
  }

  function HeadLength(p: Pattern): nat {
    match p
    case Literal(head) => |head|
    case WhatIf => 10
  }

  predicate IsHead(p: Pattern, head: string) {
    match p
    case Literal(h) => head == h
    case WhatIf => |head| == 10 && head[..3] == "WI-" && (forall i :: 3 <= i < 9 ==> IsHex(head[i])) && head[9] == '-'
  }

  /** The regular expression: head, then one or more digits, then the end. */
  predicate Matches(p: Pattern, text: string) {
    var n := HeadLength(p);
    |text| > n && IsHead(p, text[..n]) && AllDigits(text[n..])
  }

  function NumberIn(p: Pattern, text: string): nat
    requires Matches(p, text)
  {
    Number(text[HeadLength(p)..])
  }

  /** The text of a new number: the head and the number, zero-padded. */
  function NewText(head: string, n: nat, width: nat): string {
    head + Padded(n, width)
  }

  lemma NewTextMatches(p: Pattern, head: string, n: nat, width: nat)
    requires IsHead(p, head)
    ensures Matches(p, NewText(head, n, width)) && NumberIn(p, NewText(head, n, width)) == n
  {
    var text := NewText(head, n, width);
    assert |head| == HeadLength(p);
    assert text[..|head|] == head && text[|head|..] == Padded(n, width);
    NumberOfPadded(n, width);
  }

  // ----- initialisation -----

  /** MAX over the matching rows; NULL when none matches. */
  function Highest(p: Pattern, rows: seq<string>): Nullable<nat> {
    if rows == [] then Null
    else
      var init, last := Highest(p, rows[..|rows|-1]), rows[|rows|-1];
      if !Matches(p, last) then init
      else if init.Null? || NumberIn(p, last) > init.value then Value(NumberIn(p, last))
      else init
  }

  lemma {:induction false} HighestIsMaximum(p: Pattern, rows: seq<string>)
    ensures Highest(p, rows).Null? <==> forall t :: t in rows ==> !Matches(p, t)
    ensures forall t :: t in rows && Matches(p, t) ==>
            Highest(p, rows).Value? && NumberIn(p, t) <= Highest(p, rows).value
    ensures Highest(p, rows).Value? ==>
              exists t :: t in rows && Matches(p, t) && NumberIn(p, t) == Highest(p, rows).value
  {
    if rows != [] {
      HighestIsMaximum(p, rows[..|rows|-1]);
      assert rows == rows[..|rows|-1] + [rows[|rows|-1]];
    }
  }

  /** A sequence: the last value, and whether it has been handed out. */
  datatype Counter = Counter(last: int, called: bool)

  /** The number nextval hands out next. */
  function Next(c: Counter): int {
    if c.called then c.last + 1 else c.last
  }

  /** A cast of a number beyond BIGINT aborts the statement. */
  predicate CastsFit(p: Pattern, rows: seq<string>) {
    forall t :: t in rows && Matches(p, t) ==> NumberIn(p, t) <= BIGINT_MAX
  }

  function Greatest(a: int, b: int): int {
    if a >= b then a else b
  }

  function Coalesce(x: Nullable<nat>, default: nat): nat {
    if x.Null? then default else x.value
  }

  /** The setval of the plan, line and scenario sequences. */
  function SetFromMax(p: Pattern, rows: seq<string>): Counter {
    var max := Highest(p, rows);
    Counter(Greatest(Coalesce(max, 0), 1), Coalesce(max, 0) >= 1)
  }

  /** The setval of the production-order sequence, in its migration and in the development script. */
  function SetFromMaxOrOne(p: Pattern, rows: seq<string>): Counter {
    var max := Highest(p, rows);
    Counter(Greatest(Coalesce(max, 1), 1), Coalesce(max, 0) > 0)
  }

  /** Both reach the same state; the next number is one more than the highest stored, or 1. */
  lemma FormulasAgree(p: Pattern, rows: seq<string>)
    ensures SetFromMax(p, rows) == SetFromMaxOrOne(p, rows)
    ensures var next := Next(SetFromMax(p, rows));
            && next >= 1
            && (forall t :: t in rows && Matches(p, t) ==> NumberIn(p, t) < next)
            && (next == 1 || exists t :: t in rows && Matches(p, t) && NumberIn(p, t) == next - 1)
  {
    HighestIsMaximum(p, rows);
  }

  /** One sequence object of the database. */
  class SequenceObject {
    var exists_: bool
    var last: int
    var called: bool

    function State(): Counter
      reads this
    {
      Counter(last, called)
    }

    constructor ()
      ensures !exists_
    {
      exists_, last, called := false, 1, false;
    }

    /** CREATE SEQUENCE, with or without IF NOT EXISTS: an existing sequence is left as it is. */
    method Create(ifNotExists: bool) returns (ok: bool)
      modifies this
      ensures ok <==> !old(exists_) || ifNotExists
      ensures exists_ == (old(exists_) || ok)
      ensures State() == if old(exists_) then old(State()) else Counter(1, false)
    {
      if exists_ { return ifNotExists; }
      exists_, last, called := true, 1, false;
      ok := true;
    }

    /** The query over the rows and its setval. */
    method SetFromRows(p: Pattern, rows: seq<string>) returns (ok: bool)
      requires exists_
      modifies `last, `called
      ensures ok <==> CastsFit(p, rows)
      ensures State() == if ok then SetFromMax(p, rows) else old(State())
    {
      var max: Nullable<nat> := Null;
      var i := 0;
      while i < |rows|
        invariant 0 <= i <= |rows| && State() == old(State())
        invariant CastsFit(p, rows[..i]) && max == Highest(p, rows[..i])
      {
        assert rows[..i+1][..i] == rows[..i];
        if Matches(p, rows[i]) {
          var n := NumberIn(p, rows[i]);
          if n > BIGINT_MAX { return false; }
          if max.Null? || n > max.value { max := Value(n); }
        }
        i := i + 1;
      }
      assert rows[..i] == rows;
      last, called := if max.Null? || max.value < 1 then 1 else max.value, max.Value? && max.value >= 1;
      ok := true;
    }

    /** nextval: the next number, or an error beyond the largest BIGINT. */
    method NextVal() returns (n: Nullable<int>)
      requires exists_
      modifies `last, `called
      ensures n == if old(Next(State())) <= BIGINT_MAX then Value(old(Next(State()))) else Null
      ensures State() == if n.Value? then Counter(n.value, true) else old(State())
    {
      var next := if called then last + 1 else last;
      if next > BIGINT_MAX { return Null; }
      last, called := next, true;
      n := Value(next);
    }
  }

  // ----- writers beside the migration -----

  datatype Phase = Before | Locked | Set | Committed

  /** Stored texts, the migration's progress, the sequence, and the numbers drawn and not yet stored. */
  datatype State = State(rows: seq<string>, phase: Phase, counter: Counter, held: seq<int>)

  /**
   Legacy writers store what they like until the migration commits, unless its table lock keeps them out. From then on
   writers draw a number, and store it under some head of the pattern; a stored row may be deleted at any time.
   */
  datatype Event =
    | Legacy(text: string)
    | Begin
    | SetVal
    | Commit
    | Draw
    | Store(i: nat, head: string)
    | Delete(i: nat)

  /** How one allocator is set up: its pattern, the width of its texts, whether its migration locks the table. */
  datatype Setup = Setup(pattern: Pattern, width: nat, locks: bool)

  function Without<T>(s: seq<T>, i: nat): seq<T>
    requires i < |s|
  {
    s[..i] + s[i+1..]
  }

  predicate CanWrite(u: Setup, s: State) {
    s.phase == Before || s.phase == Committed || !u.locks
  }

  predicate CanStore(u: Setup, s: State, e: Event)
    requires e.Store?
  {
    && s.phase == Committed && e.i < |s.held| && s.held[e.i] >= 0 && IsHead(u.pattern, e.head)
  }

  /** An event that cannot happen yet leaves the state as it is; so does a store that meets its own text. */
  function Step(u: Setup, s: State, e: Event): State {
    match e
    case Legacy(text) => if s.phase != Committed && CanWrite(u, s) then s.(rows := s.rows + [text]) else s
    case Begin => if s.phase == Before then s.(phase := Locked) else s
    case SetVal =>
      if s.phase == Locked && CastsFit(u.pattern, s.rows) then
        s.(phase := Set, counter := SetFromMax(u.pattern, s.rows))
      else s
    case Commit => if s.phase == Set then s.(phase := Committed) else s
    case Draw =>
      if s.phase == Committed && Next(s.counter) <= BIGINT_MAX
      then s.(counter := Counter(Next(s.counter), true), held := s.held + [Next(s.counter)]) else s
    case Store(i, head) =>
      if CanStore(u, s, e) && NewText(head, s.held[i], u.width) !in s.rows
      then s.(rows := s.rows + [NewText(head, s.held[i], u.width)], held := Without(s.held, i)) else s
    case Delete(i) => if i < |s.rows| && CanWrite(u, s) then s.(rows := Without(s.rows, i)) else s
  }

  function Run(u: Setup, s: State, events: seq<Event>): State
    decreases |events|
  {
    if events == [] then s else Run(u, Step(u, s, events[0]), events[1..])
  }

  predicate Initial(s: State) {
    s.phase == Before && s.held == []
  }

  /** The held numbers are below the next one, all different, and none of them is stored. */
  ghost predicate Sound(u: Setup, s: State) {
    && (s.phase in {Before, Locked} ==> s.held == [])
    && (s.phase in {Set, Committed} ==>
          && Next(s.counter) >= 1
          && (forall t :: t in s.rows && Matches(u.pattern, t) ==> NumberIn(u.pattern, t) < Next(s.counter))
          && (forall i :: 0 <= i < |s.held| ==> 1 <= s.held[i] < Next(s.counter))
          && (forall i, j :: 0 <= i < j < |s.held| ==> s.held[i] != s.held[j])
          && (forall t, i :: t in s.rows && Matches(u.pattern, t) && 0 <= i < |s.held| ==>
             NumberIn(u.pattern, t) != s.held[i]))
  }

  // ----- the patterns, the query and the steps, spelled out -----

  /** A literal head, then digits to the end, at least one. */
  lemma LiteralMatchesIff(head: string, text: string)
    ensures Matches(Literal(head), text) <==>
            head <= text && |text| > |head| && forall i :: |head| <= i < |text| ==> '0' <= text[i] <= '9'
    ensures Matches(Literal(head), text) ==> NumberIn(Literal(head), text) == Number(text[|head|..])
  {
    if |text| > |head| && text[..|head|] == head && forall i :: |head| <= i < |text| ==> '0' <= text[i] <= '9' {
      forall i | 0 <= i < |text[|head|..]| ensures IsDigit(text[|head|..][i]) {
        assert text[|head|..][i] == text[i + |head|];
      }
    }
    if Matches(Literal(head), text) {
      forall i | |head| <= i < |text| ensures '0' <= text[i] <= '9' {
        assert IsDigit(text[|head|..][i - |head|]);
      }
    }
  }

  /** WI-, six hexadecimal digits, a dash, then digits to the end, at least one. */
  lemma WhatIfMatchesIff(text: string)
    ensures Matches(WhatIf, text) <==>
            && |text| > 10 && text[0] == 'W' && text[1] == 'I' && text[2] == '-' && text[9] == '-'
            && (forall i :: 3 <= i < 9 ==>
                  '0' <= text[i] <= '9' || 'A' <= text[i] <= 'F' || 'a' <= text[i] <= 'f')
            && (forall i :: 10 <= i < |text| ==> '0' <= text[i] <= '9')
    ensures Matches(WhatIf, text) ==> NumberIn(WhatIf, text) == Number(text[10..])
  {
    if |text| > 10 {
      var head := text[..10];
      assert head[..3] == "WI-" <==> text[0] == 'W' && text[1] == 'I' && text[2] == '-' by {
        assert head[..3] == [text[0], text[1], text[2]];
        assert "WI-" == ['W', 'I', '-'];
      }
      assert (forall i :: 3 <= i < 9 ==> IsHex(head[i])) <==>
             (forall i :: 3 <= i < 9 ==>
                '0' <= text[i] <= '9' || 'A' <= text[i] <= 'F' || 'a' <= text[i] <= 'f');
      if forall i :: 10 <= i < |text| ==> '0' <= text[i] <= '9' {
        forall i | 0 <= i < |text[10..]| ensures IsDigit(text[10..][i]) {
          assert text[10..][i] == text[i + 10];
        }
      }
      if AllDigits(text[10..]) {
        forall i | 10 <= i < |text| ensures '0' <= text[i] <= '9' {
          assert IsDigit(text[10..][i - 10]);
        }
      }
    }
  }

  /** setval(max, true) when a number from 1 on is stored, else setval(1, false). */
  lemma SetvalIs(p: Pattern, rows: seq<string>, m: nat)
    ensures (forall t :: t in rows && Matches(p, t) ==> NumberIn(p, t) == 0) ==>
              SetFromMax(p, rows) == Counter(1, false)
    ensures m >= 1 && (forall t :: t in rows && Matches(p, t) ==> NumberIn(p, t) <= m) &&
            (exists t :: t in rows && Matches(p, t) && NumberIn(p, t) == m) ==>
              SetFromMax(p, rows) == Counter(m, true)
  {
    HighestIsMaximum(p, rows);
  }

  lemma CastsFitIff(p: Pattern, rows: seq<string>)
    ensures CastsFit(p, rows) <==>
            forall t :: t in rows && Matches(p, t) ==> NumberIn(p, t) <= 9_223_372_036_854_775_807
  {
  }

  /** The writers: what is stored, drawn and taken back, and when. */
  lemma WritersAre(u: Setup, s: State, text: string, i: nat, head: string)
    ensures Step(u, s, Legacy(text)) ==
            if s.phase == Before || (s.phase != Committed && !u.locks) then s.(rows := s.rows + [text]) else s
    ensures Step(u, s, Delete(i)) ==
            if i < |s.rows| && (s.phase == Before || s.phase == Committed || !u.locks) then
              s.(rows := s.rows[..i] + s.rows[i+1..])
            else s
    ensures Step(u, s, Draw) ==
            (var next := if s.counter.called then s.counter.last + 1 else s.counter.last;
             if s.phase == Committed && next <= 9_223_372_036_854_775_807 then
               State(s.rows, s.phase, Counter(next, true), s.held + [next])
             else s)
    ensures Step(u, s, Store(i, head)) ==
            if && s.phase == Committed && i < |s.held| && s.held[i] >= 0 && IsHead(u.pattern, head)
               && head + Padded(s.held[i], u.width) !in s.rows then
              State(s.rows + [head + Padded(s.held[i], u.width)], s.phase, s.counter, s.held[..i] + s.held[i+1..])
            else s
  {
  }

  /** The migration: locked, set from the rows it sees, committed, in this order, and by itself it changes no row. */
  lemma MigrationIs(u: Setup, s: State)
    ensures Step(u, s, Begin) == if s.phase == Before then s.(phase := Locked) else s
    ensures Step(u, s, SetVal) ==
            if s.phase == Locked && CastsFit(u.pattern, s.rows) then
              State(s.rows, Set, SetFromMax(u.pattern, s.rows), s.held)
            else s
    ensures Step(u, s, Commit) == if s.phase == Set then s.(phase := Committed) else s
  {
  }

  lemma StoreKeepsSound(u: Setup, s: State, e: Event)
    requires e.Store? && Sound(u, s) && CanStore(u, s, e)
    ensures Sound(u, Step(u, s, e)) && NewText(e.head, s.held[e.i], u.width) !in s.rows
  {
    NewTextMatches(u.pattern, e.head, s.held[e.i], u.width);
  }

  lemma StepKeepsSound(u: Setup, s: State, e: Event)
    requires u.locks && Sound(u, s)
    ensures Sound(u, Step(u, s, e))
  {
    match e {
      case SetVal => FormulasAgree(u.pattern, s.rows);
      case Store(i, head) => if CanStore(u, s, e) { StoreKeepsSound(u, s, e); }
      case Delete(i) => if i < |s.rows| { assert forall t :: t in Without(s.rows, i) ==> t in s.rows; }
      case _ =>
    }
  }

  lemma {:induction false} RunKeepsSound(u: Setup, s: State, events: seq<Event>)
    requires u.locks && Sound(u, s)
    ensures Sound(u, Run(u, s, events))
    decreases |events|
  {
    if events != [] {
      StepKeepsSound(u, s, events[0]);
      RunKeepsSound(u, Step(u, s, events[0]), events[1..]);
    }
  }

  /**
   With the table lock, whatever legacy writers, the migration, drawing, storing and deleting do in any order: no held
   number is stored or held twice, its text collides with no stored one for any head and whatever the padding, and the
   next number to be drawn is beyond everything stored or held.
   */
  lemma NewNumbersNeverCollide(u: Setup, s: State, events: seq<Event>, i: nat, head: string)
    requires u.locks && Initial(s)
    requires var r := Run(u, s, events); r.phase == Committed && i < |r.held| && IsHead(u.pattern, head)
    ensures var r := Run(u, s, events);
            && r.held[i] >= 1
            && NewText(head, r.held[i], u.width) !in r.rows
            && (forall j :: 0 <= j < |r.held| && j != i ==> r.held[j] != r.held[i])
            && (forall t :: t in r.rows && Matches(u.pattern, t) ==> NumberIn(u.pattern, t) < Next(r.counter))
            && r.held[i] < Next(r.counter)
  {
    RunKeepsSound(u, s, events);
    StoreKeepsSound(u, Run(u, s, events), Store(i, head));
  }

  /** Later draws strictly increase: the counter never goes down once it is set. */
  lemma {:induction false} DrawsIncrease(u: Setup, s: State, events: seq<Event>)
    requires s.phase == Committed
    ensures var r := Run(u, s, events);
            && r.phase == Committed && Next(r.counter) >= Next(s.counter)
            && (Draw in events && Next(s.counter) <= BIGINT_MAX ==> Next(r.counter) > Next(s.counter))
    decreases |events|
  {
    if events != [] {
      DrawsIncrease(u, Step(u, s, events[0]), events[1..]);
    }
  }

  lemma UnlockedRun(u: Setup, s: State, text: string)
    requires !u.locks && s == State([], Before, Counter(1, false), [])
    ensures Run(u, s, [Begin, SetVal, Legacy(text), Commit, Draw]) == State([text], Committed, Counter(1, true), [1])
  {
    var s1 := s.(phase := Locked);
    var s2 := s1.(phase := Set);
    var s3 := s2.(rows := [text]);
    var s4 := s3.(phase := Committed);
    calc {
      Run(u, s, [Begin, SetVal, Legacy(text), Commit, Draw]);
      { assert [Begin, SetVal, Legacy(text), Commit, Draw][1..] == [SetVal, Legacy(text), Commit, Draw]; }
      Run(u, s1, [SetVal, Legacy(text), Commit, Draw]);
      { assert [SetVal, Legacy(text), Commit, Draw][1..] == [Legacy(text), Commit, Draw]; }
      Run(u, s2, [Legacy(text), Commit, Draw]);
      { assert [Legacy(text), Commit, Draw][1..] == [Commit, Draw]; }
      Run(u, s3, [Commit, Draw]);
      { assert [Commit, Draw][1..] == [Draw]; }
      Run(u, s4, [Draw]);
      { assert [Draw][1..] == []; }
      Run(u, Step(u, s4, Draw), []);
    }
  }

  /** Some head of the pattern. */
  function SomeHead(p: Pattern): (head: string)
    ensures IsHead(p, head)
  {
    match p
    case Literal(head) => head
    case WhatIf => "WI-000000-"
  }

  /** No number that is held could collide with a stored text, under any head. */
  ghost predicate NoCollision(u: Setup, s: State) {
    s.phase == Committed ==>
      forall i, head :: 0 <= i < |s.held| && IsHead(u.pattern, head) ==>
        s.held[i] >= 0 && NewText(head, s.held[i], u.width) !in s.rows
  }

  /** Without the lock a legacy row stored beside the initialisation takes the first number, under whatever head. */
  lemma UnlockedInitialisationCollides(u: Setup, head: string)
    requires !u.locks && IsHead(u.pattern, head)
    ensures var text := NewText(head, 1, u.width);
            var r := Run(u, State([], Before, Counter(1, false), []), [Begin, SetVal, Legacy(text), Commit, Draw]);
            r.held == [1] && text in r.rows && !NoCollision(u, r)
  {
    var s := State([], Before, Counter(1, false), []);
    var text := NewText(head, 1, u.width);
    UnlockedRun(u, s, text);
    var r := Run(u, s, [Begin, SetVal, Legacy(text), Commit, Draw]);
    assert NewText(head, r.held[0], u.width) in r.rows;
  }

  /** For every allocator, no number collides over all runs exactly when its migration locks the table. */
  lemma NoCollisionIffLocked(u: Setup)
    ensures (forall s, events :: Initial(s) ==> NoCollision(u, Run(u, s, events))) <==> u.locks
  {
    if u.locks {
      forall s, events | Initial(s) ensures NoCollision(u, Run(u, s, events)) {
        var r := Run(u, s, events);
        forall i, head | r.phase == Committed && 0 <= i < |r.held| && IsHead(u.pattern, head)
          ensures r.held[i] >= 0 && NewText(head, r.held[i], u.width) !in r.rows
        {
          NewNumbersNeverCollide(u, s, events, i, head);
        }
      }
    } else {
      var head := SomeHead(u.pattern);
      UnlockedInitialisationCollides(u, head);
      var s, text := State([], Before, Counter(1, false), []), NewText(head, 1, u.width);
      assert Initial(s) && !NoCollision(u, Run(u, s, [Begin, SetVal, Legacy(text), Commit, Draw]));
    }
  }

  // ----- initialising again -----

  /** Setting an existing sequence from the rows moves it back exactly when it was more than one past all of them. */
  lemma ResetMovesBackIff(p: Pattern, rows: seq<string>, c: Counter)
    ensures Next(SetFromMaxOrOne(p, rows)) < Next(c) <==>
            Next(c) > 1 && forall t :: t in rows && Matches(p, t) ==> NumberIn(p, t) + 1 < Next(c)
  {
    FormulasAgree(p, rows);
  }

  /** The numbers k draws hand out, in order. */
  function Draws(c: Counter, k: nat): seq<int>
    decreases k
  {
    if k == 0 then [] else [Next(c)] + Draws(Counter(Next(c), true), k - 1)
  }

  lemma {:induction false} DrawsAreConsecutive(c: Counter, k: nat)
    ensures |Draws(c, k)| == k && forall i :: 0 <= i < k ==> Draws(c, k)[i] == Next(c) + i
    decreases k
  {
    if k > 0 {
      DrawsAreConsecutive(Counter(Next(c), true), k - 1);
    }
  }

  /** After such a reset, a number that was handed out before and is above all stored ones is handed out again. */
  lemma ResetRepeatsNumbers(p: Pattern, rows: seq<string>, n: nat)
    requires n >= 1 && forall t :: t in rows && Matches(p, t) ==> NumberIn(p, t) < n
    ensures exists k: nat :: n in Draws(SetFromMaxOrOne(p, rows), k)
  {
    FormulasAgree(p, rows);
    var c := SetFromMaxOrOne(p, rows);
    var k := n - Next(c) + 1;
    DrawsAreConsecutive(c, k);
    assert Draws(c, k)[n - Next(c)] == n;
  }
}
