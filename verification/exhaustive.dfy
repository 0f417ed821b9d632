/** The allocation entry points: water-filling over the hulls, and the exhaustive search it is checked against. */
module Exhaustive {
  import opened Options
  import opened Envelope
  import opened Allocate
  import opened Arith

  const USIZE_LIMIT: nat := 0x1_0000_0000_0000_0000

  datatype Assignment = Assignment(group: nat, rate: Rate, cost: nat)

  datatype Allocation = Allocation(assignments: seq<Assignment>, spent: nat, budget: nat, objective: int)

  // ---------------------------------------------------------------- choices of one rate per group

  /** One rate index per group. */
  predicate Choice(choice: seq<nat>, groups: nat, rates: nat) {
    |choice| == groups && forall i :: 0 <= i < groups ==> choice[i] < rates
  }

  function Power(base: nat, e: nat): nat {
    if e == 0 then 1
    else
      NonNegativeProduct(base, Power(base, e - 1));
      base * Power(base, e - 1)
  }

  /** A number's last digit in base `r`, the number without it, and the two put together. */
  function Low(n: nat, r: nat): (d: nat)
    requires r > 0
    ensures d < r
  {
    n % r
  }

  function High(n: nat, r: nat): nat
    requires r > 0
  {
    n / r
  }

  function Join(d: nat, h: nat, r: nat): nat {
    NonNegativeProduct(r, h);
    d + r * h
  }

  lemma JoinSplits(d: nat, h: nat, r: nat, p: nat)
    requires d < r && h < p
    ensures Low(Join(d, h, r), r) == d && High(Join(d, h, r), r) == h
    ensures 0 <= r * p && Join(d, h, r) < r * p
  {
    NonNegativeProduct(r, p);
    ProductOrder(h, p, r);
    QuotientIs(Join(d, h, r), r, h);
  }

  /** The digits of `combo` in base `r`, least significant first. */
  function Digits(combo: nat, r: nat, g: nat): (d: seq<nat>)
    requires r > 0
    ensures Choice(d, g, r)
    decreases g
  {
    if g == 0 then [] else [Low(combo, r)] + Digits(High(combo, r), r, g - 1)
  }

  function Number(choice: seq<nat>, r: nat): nat {
    if choice == [] then 0 else Join(choice[0], Number(choice[1..], r), r)
  }

  /** Every choice is the digits of one number in range: the enumeration misses none. */
  lemma {:induction false} EveryChoiceIsEnumerated(choice: seq<nat>, r: nat)
    requires r > 0 && Choice(choice, |choice|, r)
    ensures Number(choice, r) < Power(r, |choice|)
    ensures Digits(Number(choice, r), r, |choice|) == choice
    decreases |choice|
  {
    hide Low, High, Join;
    if choice != [] {
      var rest := choice[1..];
      EveryChoiceIsEnumerated(rest, r);
      JoinSplits(choice[0], Number(rest, r), r, Power(r, |rest|));
      assert choice == [choice[0]] + rest;
    }
  }

  /** The instance searched. */
  datatype Search = Search(weights: seq<nat>, bytes: seq<nat>, rates: seq<Rate>, budget: nat) {
    predicate Valid() {
      |weights| == |bytes|
    }

    function Groups(): nat {
      |weights|
    }

    /** What rate `c` costs group `i`, and the loss it leaves. */
    function CostOf(i: nat, c: nat): nat
      requires Valid() && i < Groups() && c < |rates|
    {
      rates[c].Cost(bytes[i])
    }

    function LossOf(i: nat, c: nat): int
      requires Valid() && i < Groups() && c < |rates|
    {
      weights[i] * rates[c].residualPpb
    }

    function Cost(choice: seq<nat>, k: nat): nat
      requires Valid() && Choice(choice, Groups(), |rates|) && k <= Groups()
    {
      if k == 0 then 0 else Cost(choice, k - 1) + CostOf(k - 1, choice[k - 1])
    }

    function Loss(choice: seq<nat>, k: nat): int
      requires Valid() && Choice(choice, Groups(), |rates|) && k <= Groups()
    {
      if k == 0 then 0 else Loss(choice, k - 1) + LossOf(k - 1, choice[k - 1])
    }

    function Outcome(choice: seq<nat>): (a: Allocation)
      requires Valid() && Choice(choice, Groups(), |rates|)
    {
      Allocation(seq(Groups(), i requires 0 <= i < Groups() => Assignment(i, rates[choice[i]], CostOf(i, choice[i]))),
                 Cost(choice, Groups()), budget, Loss(choice, Groups()))
    }

    predicate Fits(choice: seq<nat>)
      requires Valid() && Choice(choice, Groups(), |rates|)
    {
      Cost(choice, Groups()) <= budget
    }

    /** The better of the best so far and the candidate numbered `combo`. */
    function Step(best: Option<Allocation>, combo: nat): Option<Allocation>
      requires Valid() && rates != []
    {
      var choice := Digits(combo, |rates|, Groups());
      var candidate := Outcome(choice);
      if !Fits(choice) then best
      else match best
        case None => Some(candidate)
        case Some(b) =>
          if candidate.objective < b.objective || (candidate.objective == b.objective && candidate.spent < b.spent)
          then Some(candidate) else best
    }

    /** The best of the first `n` combinations. */
    function Best(n: nat): Option<Allocation>
      requires Valid() && rates != []
    {
      if n == 0 then None else Step(Best(n - 1), n - 1)
    }

    /** `exhaustive`: nothing to search, too many combinations to number, or the best of them all. */
    function Result(): Option<Allocation>
      requires Valid()
    {
      if Groups() == 0 || rates == [] || Power(|rates|, Groups()) >= USIZE_LIMIT then None
      else Best(Power(|rates|, Groups()))
    }
  }

  // ---------------------------------------------------------------- what an allocation accounts for

  function SumCosts(a: seq<Assignment>): nat {
    if a == [] then 0 else SumCosts(a[..|a| - 1]) + a[|a| - 1].cost
  }

  /** The loss left by the rates assigned, weighted group by group. */
  function SumLosses(weights: seq<nat>, a: seq<Assignment>): int
    requires |a| <= |weights|
  {
    if a == [] then 0 else SumLosses(weights, a[..|a| - 1]) + weights[|a| - 1] * a[|a| - 1].rate.residualPpb
  }

  /**
   Every group in order, with one of the rates given (an empty one if none are) at what that rate
   costs it; the totals are the sums over the rates assigned.
   */
  predicate Accounts(s: Search, a: Allocation) {
    && |a.assignments| == |s.weights| == |s.bytes| && a.budget == s.budget
    && (forall i :: 0 <= i < |a.assignments| ==>
          && a.assignments[i].group == i
          && (if s.rates == [] then a.assignments[i].rate == Rate(0, 0) else a.assignments[i].rate in s.rates)
          && a.assignments[i].cost == s.bytes[i] * a.assignments[i].rate.parityPer256 / 256)
    && a.spent == SumCosts(a.assignments) && a.objective == SumLosses(s.weights, a.assignments)
  }

  lemma {:induction false} OutcomeTotals(s: Search, choice: seq<nat>, k: nat)
    requires s.Valid() && Choice(choice, s.Groups(), |s.rates|) && k <= s.Groups()
    ensures SumCosts(s.Outcome(choice).assignments[..k]) == s.Cost(choice, k)
    ensures SumLosses(s.weights, s.Outcome(choice).assignments[..k]) == s.Loss(choice, k)
    decreases k
  {
    hide Rate.Cost;
    if k > 0 {
      var a := s.Outcome(choice).assignments;
      assert a[..k][..k - 1] == a[..k - 1];
      OutcomeTotals(s, choice, k - 1);
    }
  }

  lemma OutcomeAccounts(s: Search, choice: seq<nat>)
    requires s.Valid() && Choice(choice, s.Groups(), |s.rates|)
    ensures Accounts(s, s.Outcome(choice))
  {
    hide SumCosts, SumLosses, Search.Cost, Search.Loss;
    var a := s.Outcome(choice).assignments;
    OutcomeTotals(s, choice, s.Groups());
    assert a[..s.Groups()] == a;
    assert forall i :: 0 <= i < s.Groups() ==> s.rates[choice[i]] in s.rates;
  }

  /** Whatever the search returns accounts for itself, and fits. */
  lemma ResultAccounts(s: Search)
    requires s.Valid() && s.Result().Some?
    ensures Accounts(s, s.Result().value) && s.Result().value.spent <= s.budget
  {
    hide Accounts, Power, Search.Outcome, Search.Best;
    var n := Power(|s.rates|, s.Groups());
    BestIsAchieved(s, n);
    var choice :| Choice(choice, s.Groups(), |s.rates|) && s.Fits(choice) && s.Result().value == s.Outcome(choice);
    OutcomeAccounts(s, choice);
    OutcomeSpends(s, choice);
  }

  lemma OutcomeSpends(s: Search, choice: seq<nat>)
    requires s.Valid() && Choice(choice, s.Groups(), |s.rates|)
    ensures s.Outcome(choice).spent == s.Cost(choice, s.Groups())
  {}

  /** Neither a lower objective nor, at the same objective, a lower cost. */
  predicate NoWorse(a: Allocation, b: Allocation) {
    a.objective < b.objective || (a.objective == b.objective && a.spent <= b.spent)
  }

  lemma {:induction false} BestSoFar(s: Search, n: nat, k: nat)
    requires s.Valid() && s.rates != [] && k < n && s.Fits(Digits(k, |s.rates|, s.Groups()))
    ensures s.Best(n).Some? && NoWorse(s.Best(n).value, s.Outcome(Digits(k, |s.rates|, s.Groups())))
    decreases n
  {
    hide Digits, Search.Cost, Search.Loss;
    if k < n - 1 {
      BestSoFar(s, n - 1, k);
    }
  }

  /** Some fitting choice has this outcome. */
  ghost predicate Achieved(s: Search, a: Allocation)
    requires s.Valid()
  {
    exists choice :: Choice(choice, s.Groups(), |s.rates|) && s.Fits(choice) && a == s.Outcome(choice)
  }

  lemma {:induction false} BestIsAchieved(s: Search, n: nat)
    requires s.Valid() && s.rates != []
    ensures s.Best(n).Some? ==> Achieved(s, s.Best(n).value)
    decreases n
  {
    hide Digits, Search.Cost, Search.Loss;
    if n > 0 {
      BestIsAchieved(s, n - 1);
      var choice := Digits(n - 1, |s.rates|, s.Groups());
      assert s.Fits(choice) ==> Achieved(s, s.Outcome(choice));
    }
  }

  /**
   With groups, rates and a numberable search: nothing is returned exactly when no assignment
   fits the budget; otherwise an assignment that fits, and none that fits does better.
   */
  lemma ExhaustiveIsOptimal(s: Search)
    requires s.Valid() && s.Groups() > 0 && s.rates != [] && Power(|s.rates|, s.Groups()) < USIZE_LIMIT
    ensures s.Result() == None <==> forall choice :: Choice(choice, s.Groups(), |s.rates|) ==> !s.Fits(choice)
    ensures s.Result().Some? ==> Achieved(s, s.Result().value)
    ensures s.Result().Some? ==> forall choice :: Choice(choice, s.Groups(), |s.rates|) && s.Fits(choice) ==>
              NoWorse(s.Result().value, s.Outcome(choice))
  {
    hide Digits, Search.Cost, Search.Loss, Power, Search.Best, NoWorse, Search.Outcome;
    var n := Power(|s.rates|, s.Groups());
    BestIsAchieved(s, n);
    forall choice | Choice(choice, s.Groups(), |s.rates|) && s.Fits(choice)
      ensures s.Best(n).Some? && NoWorse(s.Best(n).value, s.Outcome(choice))
    {
      EveryChoiceIsEnumerated(choice, |s.rates|);
      BestSoFar(s, n, Number(choice, |s.rates|));
    }
  }

  /** Combination `c` is the first of the first `n` that fit to be as good as any of them. */
  ghost predicate FirstBest(s: Search, n: nat, c: nat)
    requires s.Valid() && s.rates != []
  {
    var of := (k: nat) => s.Outcome(Digits(k, |s.rates|, s.Groups()));
    && c < n && s.Fits(Digits(c, |s.rates|, s.Groups()))
    && (forall k: nat | k < n && s.Fits(Digits(k, |s.rates|, s.Groups())) ::
          || of(c).objective < of(k).objective
          || (of(c).objective == of(k).objective && (of(c).spent < of(k).spent || (of(c).spent == of(k).spent && c <= k))))
  }

  /** What the search returns is the first of its best: among equals the one enumerated first. */
  lemma {:induction false} BestIsFirst(s: Search, n: nat) returns (c: nat)
    requires s.Valid() && s.rates != [] && s.Best(n).Some?
    ensures FirstBest(s, n, c) && s.Best(n).value == s.Outcome(Digits(c, |s.rates|, s.Groups()))
    decreases n
  {
    hide Digits, Search.Outcome, Search.Fits;
    var last := Digits(n - 1, |s.rates|, s.Groups());
    if !s.Fits(last) {
      c := BestIsFirst(s, n - 1);
    } else if s.Best(n - 1).None? {
      NoneFits(s, n - 1);
      c := n - 1;
    } else {
      c := BestIsFirst(s, n - 1);
      if s.Best(n) != s.Best(n - 1) {
        c := n - 1;
      }
    }
  }

  lemma {:induction false} NoneFits(s: Search, n: nat)
    requires s.Valid() && s.rates != [] && s.Best(n).None?
    ensures forall k: nat | k < n :: !s.Fits(Digits(k, |s.rates|, s.Groups()))
    decreases n
  {
    hide Digits, Search.Outcome, Search.Fits;
    if n > 0 {
      NoneFits(s, n - 1);
    }
  }

  // ---------------------------------------------------------------- the search loop

  method Evaluate(s: Search, combo: nat) returns (choice: seq<nat>, a: Allocation)
    requires s.Valid() && s.rates != []
    ensures choice == Digits(combo, |s.rates|, s.Groups()) && a == s.Outcome(choice)
  {
    hide Search.CostOf, Search.LossOf, Low, High, Digits;
    var idx := combo;
    var spent := 0;
    var objective := 0;
    var assignments: seq<Assignment> := [];
    choice := [];
    ghost var all := Digits(combo, |s.rates|, s.Groups());
    var i := 0;
    while i < s.Groups()
      invariant 0 <= i <= s.Groups() && |choice| == |assignments| == i
      invariant all == choice + Digits(idx, |s.rates|, s.Groups() - i)
      invariant spent == s.Cost(all, i) && objective == s.Loss(all, i)
      invariant assignments == s.Outcome(all).assignments[..i]
    {
      var pick := Low(idx, |s.rates|);
      NextDigit(choice, idx, |s.rates|, s.Groups() - i);
      idx := High(idx, |s.rates|);
      choice := choice + [pick];
      assert all[i] == pick;
      spent := spent + s.CostOf(i, pick);
      objective := objective + s.LossOf(i, pick);
      assignments := assignments + [Assignment(i, s.rates[pick], s.CostOf(i, pick))];
      OneMore(s.Outcome(all).assignments, i);
      i := i + 1;
    }
    NoDigits(idx, |s.rates|);
    assert choice == all;
    assert s.Outcome(all).assignments[..i] == s.Outcome(all).assignments;
    a := Allocation(assignments, spent, s.budget, objective);
  }

  lemma NoDigits(idx: nat, r: nat)
    requires r > 0
    ensures Digits(idx, r, 0) == []
  {}

  lemma OneMore(s: seq<Assignment>, i: nat)
    requires i < |s|
    ensures s[..i + 1] == s[..i] + [s[i]]
  {}

  lemma NextDigit(done: seq<nat>, idx: nat, r: nat, g: nat)
    requires r > 0 && g > 0
    ensures done + Digits(idx, r, g) == done + [Low(idx, r)] + Digits(High(idx, r), r, g - 1)
  {
    hide Low, High;
    assert Digits(idx, r, g) == [Low(idx, r)] + Digits(High(idx, r), r, g - 1);
  }

  method SearchAll(s: Search) returns (best: Option<Allocation>)
    requires s.Valid()
    ensures best == s.Result()
    ensures best.Some? ==> Accounts(s, best.value) && best.value.spent <= s.budget
  {
    hide Digits, Search.Cost, Search.Loss, Power, Accounts;
    if s.Result().Some? {
      ResultAccounts(s);
    }
    if s.Groups() == 0 || s.rates == [] {
      return None;
    }
    var combinations := Power(|s.rates|, s.Groups());
    if combinations >= USIZE_LIMIT {
      return None;
    }
    best := None;
    var combo := 0;
    while combo < combinations
      invariant 0 <= combo <= combinations && best == s.Best(combo)
    {
      var choice, candidate := Evaluate(s, combo);
      if candidate.spent <= s.budget {
        match best {
          case None =>
            best := Some(candidate);
          case Some(b) =>
            if candidate.objective < b.objective || (candidate.objective == b.objective && candidate.spent < b.spent) {
              best := Some(candidate);
            }
        }
      }
      combo := combo + 1;
    }
  }

  // ---------------------------------------------------------------- allocate

  /** The envelopes of a search's rates, group by group. */
  function ProblemOf(s: Search): (p: Problem)
    requires s.Valid()
  {
    Problem(s.weights, s.bytes, seq(|s.bytes|, i requires 0 <= i < |s.bytes| => Hull(s.rates, s.bytes[i])), s.budget)
  }

  lemma ProblemIsValid(s: Search)
    requires s.Valid() && s.rates != []
    ensures ProblemOf(s).Valid() && ProblemOf(s).Sized() && Rising(ProblemOf(s))
    ensures forall i, l :: 0 <= i < s.Groups() && 0 <= l < |ProblemOf(s).hulls[i]| ==> ProblemOf(s).hulls[i][l] in s.rates
  {
    hide Hull, Convex, Rising;
    forall i | 0 <= i < s.Groups()
      ensures ProblemOf(s).hulls[i] != [] && Convex(ProblemOf(s).hulls[i], s.bytes[i])
      ensures forall l :: 0 <= l < |ProblemOf(s).hulls[i]| ==> ProblemOf(s).hulls[i][l] in s.rates
    {
      HullIsConvex(s.rates, s.bytes[i]);
      assert forall l :: 0 <= l < |ProblemOf(s).hulls[i]| ==> ProblemOf(s).hulls[i][l] in Hull(s.rates, s.bytes[i]);
    }
    ConvexIsRising(ProblemOf(s));
  }

  /** The allocation at a level of every envelope. */
  function AllocationAt(p: Problem, level: seq<nat>): Allocation
    requires p.Sized() && p.Levels(level)
  {
    Allocation(seq(p.Groups(), i requires 0 <= i < p.Groups() => Assignment(i, p.hulls[i][level[i]], p.CostAt(i, level[i]))),
               p.Spent(level), p.budget, p.Objective(level))
  }

  /** What `allocate` returns; with no rates, every group is left unprotected. */
  ghost function Allocated(s: Search): Allocation
    requires s.Valid()
  {
    if s.rates == [] then
      Allocation(seq(s.Groups(), i requires 0 <= i < s.Groups() => Assignment(i, Rate(0, 0), 0)), 0, s.budget, 0)
    else
      ProblemIsValid(s);
      AllocationAt(ProblemOf(s), Greedy(ProblemOf(s), Start(ProblemOf(s))).level)
  }

  method AllocateBudget(s: Search) returns (a: Allocation)
    requires s.Valid()
    ensures a == Allocated(s) && Accounts(s, a)
  {
    hide Rate.Cost, Hull, Rising, Accounts;
    AllocatedAccounts(s);
    if s.rates == [] {
      return Allocation(seq(s.Groups(), i requires 0 <= i < s.Groups() => Assignment(i, Rate(0, 0), 0)), 0, s.budget, 0);
    }
    ProblemIsValid(s);
    var p := ProblemOf(s);
    var level, spent := Fill(p);
    a := Report(p, level, spent);
  }

  method Report(p: Problem, level: seq<nat>, spent: nat) returns (a: Allocation)
    requires p.Sized() && p.Levels(level) && spent == p.Spent(level)
    ensures a == AllocationAt(p, level)
  {
    hide Problem.CostAt, Problem.LossAt;
    var assignments: seq<Assignment> := [];
    var objective := 0;
    var i := 0;
    while i < p.Groups()
      invariant 0 <= i <= p.Groups() && objective == p.Loss(level, i)
      invariant assignments == AllocationAt(p, level).assignments[..i]
    {
      objective := objective + p.LossAt(i, level[i]);
      assignments := assignments + [Assignment(i, p.hulls[i][level[i]], p.CostAt(i, level[i]))];
      OneMore(AllocationAt(p, level).assignments, i);
      i := i + 1;
    }
    assert AllocationAt(p, level).assignments[..i] == AllocationAt(p, level).assignments;
    a := Allocation(assignments, spent, p.budget, objective);
  }

  lemma {:induction false} CostsAddUp(p: Problem, level: seq<nat>, k: nat)
    requires p.Sized() && p.Levels(level) && k <= p.Groups()
    ensures SumCosts(AllocationAt(p, level).assignments[..k]) == p.Cost(level, k)
    ensures SumLosses(p.weights, AllocationAt(p, level).assignments[..k]) == p.Loss(level, k)
    decreases k
  {
    hide Rate.Cost;
    if k > 0 {
      var a := AllocationAt(p, level).assignments;
      assert a[..k][..k - 1] == a[..k - 1];
      CostsAddUp(p, level, k - 1);
    }
  }

  lemma AllocationAccounts(s: Search, level: seq<nat>)
    requires s.Valid() && s.rates != [] && ProblemOf(s).Sized() && ProblemOf(s).Levels(level)
    ensures Accounts(s, AllocationAt(ProblemOf(s), level))
  {
    hide SumCosts, SumLosses, Hull, Rising;
    var p := ProblemOf(s);
    var a := AllocationAt(p, level).assignments;
    ProblemIsValid(s);
    CostsAddUp(p, level, p.Groups());
    assert a[..p.Groups()] == a;
  }

  lemma {:induction false} NothingSpent(weights: seq<nat>, a: seq<Assignment>)
    requires |a| <= |weights| && forall i :: 0 <= i < |a| ==> a[i].rate == Rate(0, 0) && a[i].cost == 0
    ensures SumCosts(a) == 0 && SumLosses(weights, a) == 0
  {
    if a != [] {
      NothingSpent(weights, a[..|a| - 1]);
    }
  }

  /** So does what `allocate` returns. */
  lemma AllocatedAccounts(s: Search)
    requires s.Valid()
    ensures Accounts(s, Allocated(s))
  {
    hide Hull, Rising, Greedy;
    if s.rates == [] {
      NothingSpent(s.weights, Allocated(s).assignments);
    } else {
      ProblemIsValid(s);
      AllocationAccounts(s, Greedy(ProblemOf(s), Start(ProblemOf(s))).level);
    }
  }

  /** What is reported spent is what the assignments cost; it is within budget exactly when the cheapest is. */
  lemma SpentAddsUp(s: Search)
    requires s.Valid() && s.rates != []
    ensures Allocated(s).spent == SumCosts(Allocated(s).assignments) && |Allocated(s).assignments| == s.Groups()
    ensures ProblemOf(s).Sized()
    ensures Allocated(s).spent <= s.budget <==> ProblemOf(s).Spent(ProblemOf(s).Cheapest()) <= s.budget
  {
    hide Hull, Rising, Problem.CostAt, Problem.LossAt, Greedy, SumCosts;
    ProblemIsValid(s);
    var p := ProblemOf(s);
    GreedyWithinBudget(p, Start(p));
    var level := Greedy(p, Start(p)).level;
    CostsAddUp(p, level, p.Groups());
    assert Allocated(s).assignments[..p.Groups()] == Allocated(s).assignments;
  }

  /** The rate index of a level, group by group. */
  lemma {:induction false} LevelIsChoice(s: Search, level: seq<nat>, k: nat) returns (choice: seq<nat>)
    requires s.Valid() && s.rates != [] && ProblemOf(s).Sized() && ProblemOf(s).Levels(level) && k <= s.Groups()
    ensures Choice(choice, k, |s.rates|)
    ensures forall i :: 0 <= i < k ==> s.rates[choice[i]] == ProblemOf(s).hulls[i][level[i]]
    decreases k
  {
    hide Hull, Rising;
    if k == 0 {
      choice := [];
    } else {
      var rest := LevelIsChoice(s, level, k - 1);
      ProblemIsValid(s);
      var r := ProblemOf(s).hulls[k - 1][level[k - 1]];
      var c: nat :| c < |s.rates| && s.rates[c] == r;
      choice := rest + [c];
    }
  }

  lemma {:induction false} SameTotals(s: Search, level: seq<nat>, choice: seq<nat>, k: nat)
    requires s.Valid() && ProblemOf(s).Sized() && ProblemOf(s).Levels(level) && k <= s.Groups()
    requires Choice(choice, s.Groups(), |s.rates|)
    requires forall i :: 0 <= i < s.Groups() ==> s.rates[choice[i]] == ProblemOf(s).hulls[i][level[i]]
    ensures s.Cost(choice, k) == ProblemOf(s).Cost(level, k) && s.Loss(choice, k) == ProblemOf(s).Loss(level, k)
    decreases k
  {
    hide Hull, Rate.Cost;
    if k > 0 {
      SameTotals(s, level, choice, k - 1);
    }
  }

  /** The derived allocation never beats the search it is checked against, when it fits the budget. */
  lemma AllocateNeverBeatsExhaustive(s: Search)
    requires s.Valid() && s.Groups() > 0 && s.rates != [] && Power(|s.rates|, s.Groups()) < USIZE_LIMIT
    requires Allocated(s).spent <= s.budget
    ensures s.Result().Some? && s.Result().value.objective <= Allocated(s).objective
  {
    hide Hull, Rising, Greedy, Search.Cost, Search.Loss, Power, Search.Best, Problem.Cost, Problem.Loss,
      Search.Result;
    ProblemIsValid(s);
    var p := ProblemOf(s);
    var level := Greedy(p, Start(p)).level;
    var choice := LevelIsChoice(s, level, s.Groups());
    SameTotals(s, level, choice, s.Groups());
    ExhaustiveIsOptimal(s);
    assert s.Fits(choice);
  }

  /**
   When the loop runs out of steps without ever having skipped one for budget, what it returns
   is within one unit per byte spent above the cheapest of every envelope assignment costing no more.
   */
  lemma AllocateIsNearlyOptimal(s: Search, n: nat, other: seq<nat>)
    requires s.Valid() && s.rates != []
    requires ProblemOf(s).Valid() && ProblemOf(s).Sized() && Rising(ProblemOf(s)) && Unskipped(ProblemOf(s), n)
    requires ProblemOf(s).Best(After(ProblemOf(s), n).level, After(ProblemOf(s), n).spent, ProblemOf(s).Groups()) == None
    requires ProblemOf(s).Levels(other) && ProblemOf(s).Spent(other) <= Allocated(s).spent
    ensures Allocated(s).objective
         <= ProblemOf(s).Objective(other) + (Allocated(s).spent - ProblemOf(s).Spent(ProblemOf(s).Cheapest()))
  {
    hide Hull, Rising, Greedy, Problem.Cost, Problem.Loss, Problem.Best, After, Unskipped, Convex;
    var p := ProblemOf(s);
    GreedyIsAfter(p, n);
    WaterFillingIsNearlyOptimal(p, n, other);
  }
}
