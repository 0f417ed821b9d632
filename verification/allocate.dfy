/** Water-filling a parity budget over the groups' envelopes, and how close it comes. */
module Allocate {
  import opened Options
  import opened Envelope
  import opened Arith

  // ---------------------------------------------------------------- the problem

  /** Groups of a weight and a size each, the envelope of rates for each, and a budget. */
  datatype Problem = Problem(weights: seq<nat>, bytes: seq<nat>, hulls: seq<seq<Rate>>, budget: nat) {
    ghost predicate Valid() {
      && |weights| == |bytes| == |hulls|
      && forall i :: 0 <= i < |hulls| ==> hulls[i] != [] && Convex(hulls[i], bytes[i])
    }

    predicate Sized() {
      |weights| == |bytes| == |hulls| && forall i :: 0 <= i < |hulls| ==> hulls[i] != []
    }

    function Groups(): nat {
      |hulls|
    }

    /** A level on each envelope. */
    predicate Levels(level: seq<nat>)
      requires Sized()
    {
      |level| == Groups() && forall i :: 0 <= i < Groups() ==> level[i] < |hulls[i]|
    }

    function CostAt(i: nat, l: nat): nat
      requires Sized() && i < Groups() && l < |hulls[i]|
    {
      hulls[i][l].Cost(bytes[i])
    }

    function LossAt(i: nat, l: nat): int
      requires Sized() && i < Groups() && l < |hulls[i]|
    {
      weights[i] * hulls[i][l].residualPpb
    }

    /** Cost and loss of the first `k` groups at `level`. */
    function Cost(level: seq<nat>, k: nat): nat
      requires Sized() && Levels(level) && k <= Groups()
    {
      if k == 0 then 0 else Cost(level, k - 1) + CostAt(k - 1, level[k - 1])
    }

    function Loss(level: seq<nat>, k: nat): int
      requires Sized() && Levels(level) && k <= Groups()
    {
      if k == 0 then 0 else Loss(level, k - 1) + LossAt(k - 1, level[k - 1])
    }

    function Spent(level: seq<nat>): nat
      requires Sized() && Levels(level)
    {
      Cost(level, Groups())
    }

    function Objective(level: seq<nat>): int
      requires Sized() && Levels(level)
    {
      Loss(level, Groups())
    }

    /** The cheapest assignment: the first rate of every envelope. */
    function Cheapest(): (level: seq<nat>)
      requires Sized()
      ensures Levels(level)
    {
      seq(Groups(), _ => 0)
    }

    // -------------------------------------------------------------- one step up

    predicate HasNext(level: seq<nat>, i: nat)
      requires Sized() && Levels(level)
    {
      i < Groups() && level[i] + 1 < |hulls[i]|
    }

    /** What the next rate of group `i` costs beyond its current one. */
    function Extra(i: nat, l: nat): (e: nat)
      requires Sized() && i < Groups() && l + 1 < |hulls[i]|
    {
      if CostAt(i, l + 1) >= CostAt(i, l) then CostAt(i, l + 1) - CostAt(i, l) else 0
    }

    function Gain(i: nat, l: nat): int
      requires Sized() && i < Groups() && l + 1 < |hulls[i]|
    {
      LossAt(i, l) - LossAt(i, l + 1)
    }

    /** Objective reduction per byte, rounded down. */
    function Ratio(i: nat, l: nat): int
      requires Sized() && i < Groups() && l + 1 < |hulls[i]| && Extra(i, l) > 0
    {
      Gain(i, l) / Extra(i, l)
    }

    /** There is a next rate, it costs more, and the budget covers it. */
    predicate Eligible(level: seq<nat>, spent: nat, i: nat)
      requires Sized() && Levels(level)
    {
      HasNext(level, i) && Extra(i, level[i]) > 0 && spent + Extra(i, level[i]) <= budget
    }

    /** The first of the best eligible groups below `k`: by ratio, then by gain. */
    function Best(level: seq<nat>, spent: nat, k: nat): (r: Option<nat>)
      requires Sized() && Levels(level) && k <= Groups()
      ensures r.Some? ==> r.value < k && Eligible(level, spent, r.value)
    {
      if k == 0 then None
      else
        var best := Best(level, spent, k - 1);
        var i := k - 1;
        if !Eligible(level, spent, i) then best
        else match best
          case None => Some(i)
          case Some(b) => if Beats(level, spent, i, b) then Some(i) else best
    }

    predicate Beats(level: seq<nat>, spent: nat, i: nat, b: nat)
      requires Sized() && Levels(level) && Eligible(level, spent, i) && Eligible(level, spent, b)
    {
      || Ratio(i, level[i]) > Ratio(b, level[b])
      || (Ratio(i, level[i]) == Ratio(b, level[b]) && Gain(i, level[i]) > Gain(b, level[b]))
    }
  }

  /**
   No eligible group has a better ratio than the one picked, nor the same ratio and a larger
   gain, nor both the same and an earlier place; none is picked only if none is eligible.
   */
  lemma {:induction false} BestIsBest(p: Problem, level: seq<nat>, spent: nat, k: nat, j: nat)
    requires p.Sized() && p.Levels(level) && j < k <= p.Groups() && p.Eligible(level, spent, j)
    ensures p.Best(level, spent, k).Some?
    ensures var b := p.Best(level, spent, k).value;
            || p.Ratio(b, level[b]) > p.Ratio(j, level[j])
            || (&& p.Ratio(b, level[b]) == p.Ratio(j, level[j])
                && (|| p.Gain(b, level[b]) > p.Gain(j, level[j])
                    || (p.Gain(b, level[b]) == p.Gain(j, level[j]) && b <= j)))
    decreases k
  {
    hide Problem.Ratio, Problem.Gain, Problem.Extra;
    if j < k - 1 {
      BestIsBest(p, level, spent, k - 1, j);
    }
  }

  // ---------------------------------------------------------------- the loop

  datatype State = State(level: seq<nat>, spent: nat)

  function Start(p: Problem): State
    requires p.Sized()
  {
    State(p.Cheapest(), p.Spent(p.Cheapest()))
  }

  predicate Running(p: Problem, s: State) {
    p.Sized() && p.Levels(s.level) && s.spent == p.Spent(s.level)
  }

  function Raise(p: Problem, s: State, i: nat): (t: State)
    requires Running(p, s) && p.HasNext(s.level, i)
    ensures p.Levels(t.level)
  {
    State(s.level[i := s.level[i] + 1], s.spent + p.Extra(i, s.level[i]))
  }

  /** Envelope costs rise. */
  ghost predicate Rising(p: Problem)
    requires p.Sized()
  {
    forall i, l :: 0 <= i < p.Groups() && 0 <= l < |p.hulls[i]| - 1 ==> p.CostAt(i, l) < p.CostAt(i, l + 1)
  }

  lemma {:induction false} OnlyOneChanges(p: Problem, level: seq<nat>, i: nat, l: nat, k: nat)
    requires p.Sized() && p.Levels(level) && i < p.Groups() && l < |p.hulls[i]| && k <= p.Groups()
    requires p.Levels(level[i := l])
    ensures p.Cost(level[i := l], k) == p.Cost(level, k) + if i < k then p.CostAt(i, l) - p.CostAt(i, level[i]) else 0
    ensures p.Loss(level[i := l], k) == p.Loss(level, k) + if i < k then p.LossAt(i, l) - p.LossAt(i, level[i]) else 0
    decreases k
  {
    hide Problem.CostAt, Problem.LossAt;
    if k > 0 {
      OnlyOneChanges(p, level, i, l, k - 1);
    }
  }

  lemma RaiseKeepsRunning(p: Problem, s: State, i: nat)
    requires Running(p, s) && p.HasNext(s.level, i) && Rising(p)
    ensures Running(p, Raise(p, s, i))
    ensures Raise(p, s, i).spent == s.spent + p.Extra(i, s.level[i]) && p.Extra(i, s.level[i]) > 0
    ensures p.Objective(Raise(p, s, i).level) == p.Objective(s.level) - p.Gain(i, s.level[i])
  {
    hide Problem.CostAt, Problem.LossAt;
    assert p.CostAt(i, s.level[i]) < p.CostAt(i, s.level[i] + 1);
    OnlyOneChanges(p, s.level, i, s.level[i] + 1, p.Groups());
  }

  /** Steps left: the rates above the current level of every group below `k`. */
  function Left(p: Problem, level: seq<nat>, k: nat): nat
    requires p.Sized() && p.Levels(level) && k <= p.Groups()
  {
    if k == 0 then 0 else Left(p, level, k - 1) + (|p.hulls[k - 1]| - 1 - level[k - 1])
  }

  lemma {:induction false} RaiseUsesAStep(p: Problem, level: seq<nat>, i: nat, k: nat)
    requires p.Sized() && p.Levels(level) && p.HasNext(level, i) && k <= p.Groups()
    requires p.Levels(level[i := level[i] + 1])
    ensures Left(p, level[i := level[i] + 1], k) == Left(p, level, k) - if i < k then 1 else 0
    decreases k
  {
    if k > 0 {
      RaiseUsesAStep(p, level, i, k - 1);
    }
  }

  /** The state the greedy loop ends in from `s`. */
  ghost function Greedy(p: Problem, s: State): (t: State)
    requires p.Sized() && Running(p, s) && Rising(p)
    ensures Running(p, t)
    decreases Left(p, s.level, p.Groups())
  {
    match p.Best(s.level, s.spent, p.Groups())
    case None => s
    case Some(i) =>
      RaiseKeepsRunning(p, s, i);
      RaiseUsesAStep(p, s.level, i, p.Groups());
      Greedy(p, Raise(p, s, i))
  }

  /** The choice loop of one round. */
  method PickBest(p: Problem, level: seq<nat>, spent: nat) returns (best: Option<nat>)
    requires p.Sized() && p.Levels(level)
    ensures best == p.Best(level, spent, p.Groups())
  {
    hide Problem.Beats, Problem.Eligible;
    best := None;
    var i := 0;
    while i < p.Groups()
      invariant 0 <= i <= p.Groups()
      invariant best == p.Best(level, spent, i)
    {
      if p.Eligible(level, spent, i) {
        match best {
          case None =>
            best := Some(i);
          case Some(b) =>
            if p.Beats(level, spent, i, b) {
              best := Some(i);
            }
        }
      }
      i := i + 1;
    }
  }

  method Fill(p: Problem) returns (level: seq<nat>, spent: nat)
    requires p.Sized() && Rising(p)
    ensures State(level, spent) == Greedy(p, Start(p))
    ensures p.Levels(level) && spent == p.Spent(level)
  {
    hide Problem.Best, Problem.Extra, Problem.CostAt, Left;
    level := p.Cheapest();
    spent := 0;
    var k := 0;
    while k < p.Groups()
      invariant 0 <= k <= p.Groups() && spent == p.Cost(level, k)
    {
      spent := spent + p.CostAt(k, level[k]);
      k := k + 1;
    }
    while true
      invariant p.Levels(level) && spent == p.Spent(level)
      invariant Greedy(p, State(level, spent)) == Greedy(p, Start(p))
      decreases Left(p, level, p.Groups())
    {
      var best := PickBest(p, level, spent);
      if best.None? {
        break;
      }
      var i := best.value;
      RaiseKeepsRunning(p, State(level, spent), i);
      RaiseUsesAStep(p, level, i, p.Groups());
      spent := spent + p.Extra(i, level[i]);
      level := level[i := level[i] + 1];
    }
  }

  /** Within budget exactly when the cheapest assignment is: the loop never crosses it. */
  lemma {:induction false} GreedyWithinBudget(p: Problem, s: State)
    requires p.Sized() && Running(p, s) && Rising(p)
    ensures s.spent <= Greedy(p, s).spent
    ensures Greedy(p, s).spent <= p.budget <==> s.spent <= p.budget
    ensures s.spent > p.budget ==> Greedy(p, s) == s
    decreases Left(p, s.level, p.Groups())
  {
    hide Problem.CostAt, Problem.Best;
    match p.Best(s.level, s.spent, p.Groups())
    case None =>
    case Some(i) =>
      RaiseKeepsRunning(p, s, i);
      RaiseUsesAStep(p, s.level, i, p.Groups());
      GreedyWithinBudget(p, Raise(p, s, i));
  }

  // ---------------------------------------------------------------- ratios fall along an envelope

  lemma ConvexIsRising(p: Problem)
    requires p.Valid()
    ensures p.Sized() && Rising(p)
  {
    hide Rate.Cost, Interior;
  }

  lemma GainsAreGains(p: Problem, i: nat, l: nat)
    requires p.Valid() && i < p.Groups() && l + 1 < |p.hulls[i]|
    ensures p.Sized() && p.Extra(i, l) > 0
    ensures p.Extra(i, l) == p.CostAt(i, l + 1) - p.CostAt(i, l)
    ensures p.Gain(i, l) == p.weights[i] * Fall(p.hulls[i][l], p.hulls[i][l + 1]) >= 0
    ensures p.Ratio(i, l) >= 0
    ensures p.Ratio(i, l) * p.Extra(i, l) <= p.Gain(i, l) <= (p.Ratio(i, l) + 1) * p.Extra(i, l)
  {
    hide Rate.Cost, Interior;
    var w, x, y := p.weights[i], p.hulls[i][l].residualPpb, p.hulls[i][l + 1].residualPpb;
    assert x > y;
    Difference(w, x, y);
    FloorBounds(p.Gain(i, l), p.Extra(i, l));
  }

  lemma Difference(w: nat, x: int, y: int)
    requires x >= y
    ensures w * x - w * y == w * (x - y) >= 0
  {}

  lemma FloorBounds(g: int, e: nat)
    requires e > 0 && g >= 0
    ensures g / e >= 0 && (g / e) * e <= g <= (g / e + 1) * e
  {
    var n: nat := g;
    DivMod(n, e);
    assert (g / e + 1) * e == (g / e) * e + e;
  }

  lemma RatioFalls(p: Problem, i: nat, l: nat)
    requires p.Valid() && i < p.Groups() && l + 2 < |p.hulls[i]|
    ensures p.Sized() && p.Extra(i, l) > 0 && p.Extra(i, l + 1) > 0
    ensures p.Ratio(i, l) >= p.Ratio(i, l + 1)
  {
    hide Rate.Cost;
    GainsAreGains(p, i, l);
    GainsAreGains(p, i, l + 1);
    var h := p.hulls[i];
    assert !Interior(h[l], h[l + 1], h[l + 2], p.bytes[i]);
    FloorsFall(p.weights[i], Fall(h[l], h[l + 1]), p.Extra(i, l), Fall(h[l + 1], h[l + 2]), p.Extra(i, l + 1));
  }

  /** Floored ratios keep the order of the slopes. */
  lemma FloorsFall(w: nat, d: int, c: nat, d': int, c': nat)
    requires c > 0 && c' > 0 && d >= 0 && d' >= 0 && d * c' > d' * c
    ensures w * d >= 0 && w * d' >= 0 && (w * d) / c >= (w * d') / c'
  {
    Difference(w, d, 0);
    Difference(w, d', 0);
    var k := (w * d') / c';
    FloorBounds(w * d', c');
    KeepsOrder(k * c', w * d', c);
    KeepsOrder(d' * c, d * c', 1);
    Monotone(w, d' * c, d * c');
    Shuffle(k, c', c);
    Shuffle(w, d', c);
    Shuffle(w, d, c');
    CancelOrder(k * c, w * d, c');
    AtLeastFloor(k, w * d, c);
  }

  lemma Shuffle(x: int, y: int, z: int)
    ensures (x * y) * z == (x * z) * y == x * (y * z)
  {}

  lemma CancelOrder(x: int, y: int, k: int)
    requires k > 0 && x * k <= y * k
    ensures x <= y
  {
    KeepsOrder(y + 1, x, k);
    assert (y + 1) * k == y * k + k;
  }

  lemma AtLeastFloor(k: int, g: int, c: nat)
    requires c > 0 && g >= 0 && k * c <= g
    ensures k <= g / c
  {
    FloorBounds(g, c);
    KeepsOrder(g / c + 1, k, c);
  }

  lemma {:induction false} RatioFallsTo(p: Problem, i: nat, l: nat, m: nat)
    requires p.Valid() && i < p.Groups() && l <= m && m + 1 < |p.hulls[i]|
    ensures p.Sized() && p.Extra(i, l) > 0 && p.Extra(i, m) > 0
    ensures p.Ratio(i, l) >= p.Ratio(i, m)
    decreases m - l
  {
    hide Problem.Extra, Problem.Ratio, Convex, Problem.Gain, Problem.CostAt;
    GainsAreGains(p, i, l);
    if l < m {
      RatioFalls(p, i, m - 1);
      RatioFallsTo(p, i, l, m - 1);
    }
  }

  // ---------------------------------------------------------------- the water level

  /** Every step taken pays at least `t` per byte, every step not taken at most that. */
  ghost predicate WaterLevel(p: Problem, level: seq<nat>, t: int)
    requires p.Sized() && p.Levels(level) && Rising(p)
  {
    && (forall i, l :: 0 <= i < p.Groups() && 0 <= l < level[i] ==> StepPays(p, i, l) >= t)
    && (forall i, l :: 0 <= i < p.Groups() && level[i] <= l && l + 1 < |p.hulls[i]| ==> StepPays(p, i, l) <= t)
  }

  /** The floored ratio of a step. */
  ghost function StepPays(p: Problem, i: int, l: int): int
    requires p.Sized() && Rising(p) && 0 <= i < p.Groups() && 0 <= l && l + 1 < |p.hulls[i]|
  {
    assert p.CostAt(i, l) < p.CostAt(i, l + 1);
    p.Ratio(i, l)
  }

  /** Some level no step of the first `k` groups pays more than. */
  lemma {:induction false} SomeCeiling(p: Problem, k: nat) returns (t: int)
    requires p.Valid() && k <= p.Groups()
    ensures p.Sized() && Rising(p) && t >= 0
    ensures forall i, l :: 0 <= i < k && 0 <= l && l + 1 < |p.hulls[i]| ==> StepPays(p, i, l) <= t
    decreases k
  {
    hide Problem.Ratio, Problem.Extra, Problem.Gain, Convex, Problem.CostAt;
    ConvexIsRising(p);
    if k == 0 {
      t := 0;
    } else {
      t := SomeCeiling(p, k - 1);
      var i := k - 1;
      if |p.hulls[i]| > 1 {
        GainsAreGains(p, i, 0);
        var first := p.Ratio(i, 0);
        forall l | 0 <= l && l + 1 < |p.hulls[i]|
          ensures StepPays(p, i, l) <= first
        {
          RatioFallsTo(p, i, 0, l);
        }
        t := if t >= first then t else first;
      }
    }
  }

  /** No next step is ruled out by the budget. */
  predicate NothingSkipped(p: Problem, s: State)
    requires Running(p, s)
  {
    forall i :: 0 <= i < p.Groups() && p.HasNext(s.level, i) ==> s.spent + p.Extra(i, s.level[i]) <= p.budget
  }

  /** A round that skips nothing lowers the water level to the ratio of its pick. */
  lemma PickLowersLevel(p: Problem, s: State, t: int, b: nat)
    requires p.Valid() && Running(p, s) && Rising(p) && WaterLevel(p, s.level, t)
    requires NothingSkipped(p, s) && p.Best(s.level, s.spent, p.Groups()) == Some(b)
    ensures WaterLevel(p, Raise(p, s, b).level, StepPays(p, b, s.level[b]))
    ensures 0 <= StepPays(p, b, s.level[b]) <= t
  {
    hide Problem.Ratio, Problem.Gain, Convex, Problem.CostAt, Problem.Best;
    var t', next := StepPays(p, b, s.level[b]), Raise(p, s, b).level;
    GainsAreGains(p, b, s.level[b]);
    forall i, l | 0 <= i < p.Groups() && next[i] <= l && l + 1 < |p.hulls[i]|
      ensures StepPays(p, i, l) <= t'
    {
      GainsAreGains(p, i, s.level[i]);
      BestIsBest(p, s.level, s.spent, p.Groups(), i);
      RatioFallsTo(p, i, s.level[i], l);
    }
  }

  // ---------------------------------------------------------------- rounds

  /** The state after `n` rounds; a round with nothing to pick changes nothing. */
  ghost function After(p: Problem, n: nat): (s: State)
    requires p.Sized() && Rising(p)
    ensures Running(p, s)
  {
    if n == 0 then Start(p)
    else
      var s := After(p, n - 1);
      match p.Best(s.level, s.spent, p.Groups())
      case None => s
      case Some(i) =>
        RaiseKeepsRunning(p, s, i);
        Raise(p, s, i)
  }

  /** The first `n` rounds skip nothing for budget. */
  ghost predicate Unskipped(p: Problem, n: nat)
    requires p.Sized() && Rising(p)
  {
    forall k: nat :: k < n ==> NothingSkipped(p, After(p, k))
  }

  /** The loop ends where its rounds do. */
  lemma {:induction false} GreedyIsAfter(p: Problem, n: nat)
    requires p.Sized() && Rising(p)
    ensures Greedy(p, After(p, n)) == Greedy(p, Start(p))
    ensures p.Best(After(p, n).level, After(p, n).spent, p.Groups()) == None ==> Greedy(p, Start(p)) == After(p, n)
  {
    hide Problem.Best, Running;
    if n > 0 {
      GreedyIsAfter(p, n - 1);
    }
  }

  lemma {:induction false} HasWaterLevel(p: Problem, n: nat) returns (t: int)
    requires p.Valid()
    ensures p.Sized() && Rising(p)
    ensures Unskipped(p, n) ==> t >= 0 && WaterLevel(p, After(p, n).level, t)
  {
    hide Problem.Best, Convex, Problem.CostAt;
    ConvexIsRising(p);
    if n == 0 {
      t := SomeCeiling(p, p.Groups());
    } else {
      t := HasWaterLevel(p, n - 1);
      var s := After(p, n - 1);
      if Unskipped(p, n) {
        assert NothingSkipped(p, s);
        var best := p.Best(s.level, s.spent, p.Groups());
        if best.Some? {
          PickLowersLevel(p, s, t, best.value);
          t := StepPays(p, best.value, s.level[best.value]);
        }
      }
    }
  }

  // ---------------------------------------------------------------- how close the water level is to optimal

  /** Steps above the water level gain at most one unit a byte more than it pays. */
  lemma {:induction false} ClimbGains(p: Problem, i: nat, low: nat, high: nat, t: int)
    requires p.Valid() && p.Sized() && Rising(p) && i < p.Groups() && low <= high < |p.hulls[i]|
    requires forall l :: low <= l < high ==> StepPays(p, i, l) <= t
    ensures p.CostAt(i, low) <= p.CostAt(i, high)
    ensures p.LossAt(i, low) - p.LossAt(i, high) <= (t + 1) * (p.CostAt(i, high) - p.CostAt(i, low))
    decreases high - low
  {
    hide Problem.Ratio, Problem.Gain, Convex, Problem.CostAt, Problem.LossAt;
    if low < high {
      var l := high - 1;
      ClimbGains(p, i, low, l, t);
      GainsAreGains(p, i, l);
      assert p.Gain(i, l) == p.LossAt(i, l) - p.LossAt(i, high) by { GainIs(p, i, l); }
      KeepsOrder(StepPays(p, i, l) + 1, t + 1, p.Extra(i, l));
      Distribute(p.CostAt(i, l) - p.CostAt(i, low), p.Extra(i, l), t + 1);
    }
  }

  lemma GainIs(p: Problem, i: nat, l: nat)
    requires p.Sized() && i < p.Groups() && l + 1 < |p.hulls[i]|
    ensures p.Gain(i, l) == p.LossAt(i, l) - p.LossAt(i, l + 1)
  {}

  /** Steps below it gain at least what it pays. */
  lemma {:induction false} DescentLoses(p: Problem, i: nat, low: nat, high: nat, t: int)
    requires p.Valid() && p.Sized() && Rising(p) && i < p.Groups() && low <= high < |p.hulls[i]|
    requires forall l :: low <= l < high ==> StepPays(p, i, l) >= t
    ensures p.CostAt(i, low) <= p.CostAt(i, high)
    ensures p.LossAt(i, low) - p.LossAt(i, high) >= t * (p.CostAt(i, high) - p.CostAt(i, low))
    decreases high - low
  {
    hide Problem.Ratio, Problem.Gain, Convex, Problem.CostAt, Problem.LossAt;
    if low < high {
      var l := high - 1;
      DescentLoses(p, i, low, l, t);
      GainsAreGains(p, i, l);
      assert p.Gain(i, l) == p.LossAt(i, l) - p.LossAt(i, high) by { GainIs(p, i, l); }
      KeepsOrder(t, StepPays(p, i, l), p.Extra(i, l));
      Distribute(p.CostAt(i, l) - p.CostAt(i, low), p.Extra(i, l), t);
    }
  }

  /** One group against another level: bytes climbed or given up, and what they are worth. */
  lemma CompareGroup(p: Problem, i: nat, l: nat, o: nat, t: int) returns (up: nat, down: nat)
    requires p.Valid() && p.Sized() && Rising(p) && i < p.Groups() && l < |p.hulls[i]| && o < |p.hulls[i]| && t >= 0
    requires forall k :: 0 <= k < l ==> StepPays(p, i, k) >= t
    requires forall k :: l <= k && k + 1 < |p.hulls[i]| ==> StepPays(p, i, k) <= t
    ensures p.CostAt(i, o) - p.CostAt(i, l) == up - down
    ensures down <= p.CostAt(i, l) - p.CostAt(i, 0)
    ensures p.LossAt(i, l) - p.LossAt(i, o) <= (t + 1) * up - t * down
  {
    hide Problem.Ratio, Problem.Gain, Convex, Problem.CostAt, Problem.LossAt, Problem.Extra;
    DescentLoses(p, i, 0, l, t);
    if l <= o {
      ClimbGains(p, i, l, o, t);
      up, down := p.CostAt(i, o) - p.CostAt(i, l), 0;
    } else {
      DescentLoses(p, i, o, l, t);
      DescentLoses(p, i, 0, o, t);
      up, down := 0, p.CostAt(i, l) - p.CostAt(i, o);
    }
  }

  /** All groups together. */
  lemma {:induction false} Compare(p: Problem, level: seq<nat>, other: seq<nat>, t: int, k: nat) returns (up: nat, down: nat)
    requires p.Valid() && p.Sized() && Rising(p) && p.Levels(level) && p.Levels(other) && k <= p.Groups()
    requires WaterLevel(p, level, t) && t >= 0
    ensures p.Cost(other, k) - p.Cost(level, k) == up - down
    ensures down <= p.Cost(level, k) - p.Cost(p.Cheapest(), k)
    ensures p.Loss(level, k) - p.Loss(other, k) <= (t + 1) * up - t * down
    decreases k
  {
    hide Problem.Ratio, Problem.Gain, Convex, Problem.CostAt, Problem.LossAt, Problem.Extra, Problem.Valid;
    if k == 0 {
      up, down := 0, 0;
    } else {
      var u, d := Compare(p, level, other, t, k - 1);
      var v, e := CompareGroup(p, k - 1, level[k - 1], other[k - 1], t);
      Distribute(u, v, t + 1);
      Distribute(d, e, t);
      up, down := u + v, d + e;
    }
  }

  /**
   Near-optimality. As long as no round has skipped a step for budget, the objective reached
   exceeds that of any assignment of envelope rates costing no more by at most one unit per
   byte spent above the cheapest assignment.
   */
  lemma WaterFillingIsNearlyOptimal(p: Problem, n: nat, other: seq<nat>)
    requires p.Valid() && p.Sized() && Rising(p) && Unskipped(p, n)
    requires p.Levels(other) && p.Spent(other) <= After(p, n).spent
    ensures p.Objective(After(p, n).level) <= p.Objective(other) + (After(p, n).spent - p.Spent(p.Cheapest()))
  {
    hide Problem.CostAt, Problem.LossAt, Problem.Extra, After, WaterLevel, Unskipped, Convex;
    var s := After(p, n);
    var t := HasWaterLevel(p, n);
    var up, down := Compare(p, s.level, other, t, p.Groups());
    Worth(up, down, t);
  }

  /** Climbing no further than was given up is worth at most what was given up. */
  lemma Worth(up: int, down: int, t: int)
    requires up <= down && t >= 0
    ensures (t + 1) * up - t * down <= down
  {
    Distribute(up - down, down, t + 1);
    NegativeTimes(up - down, t);
  }

  lemma NegativeTimes(x: int, t: int)
    requires x <= 0 && t >= 0
    ensures (t + 1) * x <= x
  {
    var y: nat, u: nat := -x, t;
    NonNegativeProduct(u, y);
    assert (t + 1) * x == t * x + x;
    assert t * x == -(u * y);
  }
}
