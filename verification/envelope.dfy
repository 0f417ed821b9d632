/** Code rates, and the lower convex envelope of a rate set in (cost, residual) space. */
module Envelope {
  import opened Options

  datatype Rate = Rate(parityPer256: nat, residualPpb: nat) {
    /** Storage cost of protecting `bytes`, rounded down. */
    function Cost(bytes: nat): nat {
      bytes * parityPer256 / 256
    }
  }

  // ---------------------------------------------------------------- sort and dedup

  /** By cost, then by falling residual. */
  predicate Before(x: Rate, y: Rate, bytes: nat) {
    x.Cost(bytes) < y.Cost(bytes) || (x.Cost(bytes) == y.Cost(bytes) && x.residualPpb > y.residualPpb)
  }

  /** After every rate it does not precede: the sort is stable. */
  function Place(s: seq<Rate>, r: Rate, bytes: nat): (t: seq<Rate>)
    ensures |t| == |s| + 1
  {
    if s == [] then [r]
    else if Before(r, s[|s| - 1], bytes) then Place(s[..|s| - 1], r, bytes) + [s[|s| - 1]]
    else s + [r]
  }

  function SortRates(rates: seq<Rate>, bytes: nat): (t: seq<Rate>)
    ensures |t| == |rates|
  {
    if rates == [] then [] else Place(SortRates(rates[..|rates| - 1], bytes), rates[|rates| - 1], bytes)
  }

  /** The first of each run of equal costs. */
  function Dedup(s: seq<Rate>, bytes: nat): (t: seq<Rate>)
    ensures |t| <= |s| && (s != [] ==> t != [])
  {
    if s == [] then []
    else
      var t := Dedup(s[..|s| - 1], bytes);
      var r := s[|s| - 1];
      if t != [] && t[|t| - 1].Cost(bytes) == r.Cost(bytes) then t else t + [r]
  }

  ghost predicate InOrder(s: seq<Rate>, bytes: nat) {
    forall i, j :: 0 <= i < j < |s| ==> !Before(s[j], s[i], bytes)
  }

  lemma {:induction false} PlaceKeepsOrder(s: seq<Rate>, r: Rate, bytes: nat)
    requires InOrder(s, bytes)
    ensures InOrder(Place(s, r, bytes), bytes)
    ensures multiset(Place(s, r, bytes)) == multiset(s) + multiset{r}
    decreases |s|
  {
    hide Rate.Cost;
    if s != [] {
      var k := |s| - 1;
      assert s == s[..k] + [s[k]];
      if Before(r, s[k], bytes) {
        PlaceKeepsOrder(s[..k], r, bytes);
        var t := Place(s[..k], r, bytes);
        forall i | 0 <= i < |t|
          ensures !Before(s[k], t[i], bytes)
        {
          assert t[i] in multiset(t);
          if t[i] != r {
            assert t[i] in s[..k];
          }
        }
      }
    }
  }

  /** Sorting permutes the rates and leaves them in order. */
  lemma {:induction false} SortedRates(rates: seq<Rate>, bytes: nat)
    ensures InOrder(SortRates(rates, bytes), bytes)
    ensures multiset(SortRates(rates, bytes)) == multiset(rates)
    decreases |rates|
  {
    hide Rate.Cost, InOrder, Place;
    if rates == [] {
      assert InOrder([], bytes) by {
        EmptyInOrder(bytes);
      }
    } else {
      var k := |rates| - 1;
      assert rates == rates[..k] + [rates[k]];
      SortedRates(rates[..k], bytes);
      PlaceKeepsOrder(SortRates(rates[..k], bytes), rates[k], bytes);
    }
  }

  lemma EmptyInOrder(bytes: nat)
    ensures InOrder([], bytes)
  {}

  ghost predicate RisingCost(s: seq<Rate>, bytes: nat) {
    forall i, j :: 0 <= i < j < |s| ==> s[i].Cost(bytes) < s[j].Cost(bytes)
  }

  /** `t` has a rate of `r`'s cost that protects no better. */
  ghost predicate Stands(t: seq<Rate>, r: Rate, bytes: nat) {
    exists i :: 0 <= i < |t| && t[i].Cost(bytes) == r.Cost(bytes) && t[i].residualPpb >= r.residualPpb
  }

  lemma {:induction false} DedupMembers(s: seq<Rate>, bytes: nat)
    ensures forall r :: r in Dedup(s, bytes) ==> r in s
    ensures s != [] ==> Dedup(s, bytes)[|Dedup(s, bytes)| - 1].Cost(bytes) == s[|s| - 1].Cost(bytes)
    decreases |s|
  {
    hide Rate.Cost;
    if s != [] {
      DedupMembers(s[..|s| - 1], bytes);
    }
  }

  lemma CostsRise(s: seq<Rate>, bytes: nat, i: nat, j: nat)
    requires InOrder(s, bytes) && i <= j < |s|
    ensures s[i].Cost(bytes) <= s[j].Cost(bytes)
    ensures s[i].Cost(bytes) == s[j].Cost(bytes) ==> s[i].residualPpb >= s[j].residualPpb
  {
    hide Rate.Cost;
    if i < j {
      assert !Before(s[j], s[i], bytes);
    }
  }

  lemma {:induction false} DedupRises(s: seq<Rate>, bytes: nat)
    requires InOrder(s, bytes)
    ensures RisingCost(Dedup(s, bytes), bytes)
    decreases |s|
  {
    hide Rate.Cost, InOrder;
    if s != [] {
      var k := |s| - 1;
      PrefixInOrder(s, k, bytes);
      DedupRises(s[..k], bytes);
      DedupMembers(s[..k], bytes);
      var t := Dedup(s[..k], bytes);
      if k > 0 {
        CostsRise(s, bytes, k - 1, k);
        assert s[..k][|s[..k]| - 1] == s[k - 1];
      }
    }
  }

  lemma PrefixInOrder(s: seq<Rate>, k: nat, bytes: nat)
    requires InOrder(s, bytes) && k <= |s|
    ensures InOrder(s[..k], bytes)
  {
    hide Rate.Cost;
  }

  lemma {:induction false} DedupStands(s: seq<Rate>, bytes: nat, m: nat)
    requires InOrder(s, bytes) && m < |s|
    ensures Stands(Dedup(s, bytes), s[m], bytes)
    decreases |s|
  {
    hide Rate.Cost, InOrder;
    var k := |s| - 1;
    var t, d := Dedup(s[..k], bytes), Dedup(s, bytes);
    PrefixInOrder(s, k, bytes);
    if m < k {
      DedupStands(s[..k], bytes, m);
      assert s[..k][m] == s[m];
      var i :| 0 <= i < |t| && t[i].Cost(bytes) == s[m].Cost(bytes) && t[i].residualPpb >= s[m].residualPpb;
      assert d[i] == t[i];
    } else if t != [] && t[|t| - 1].Cost(bytes) == s[k].Cost(bytes) {
      DedupMembers(s[..k], bytes);
      assert t[|t| - 1] in t;
      var i :| 0 <= i < k && s[..k][i] == t[|t| - 1];
      CostsRise(s, bytes, i, k);
      assert d[|t| - 1].residualPpb >= s[k].residualPpb;
    } else {
      assert d[|t|] == s[m];
    }
  }

  /** The rates the hull is built from: one of each cost. */
  function Distinct(rates: seq<Rate>, bytes: nat): (t: seq<Rate>)
    ensures rates != [] ==> t != []
  {
    Dedup(SortRates(rates, bytes), bytes)
  }

  /**
   Costs rise strictly, every rate kept is one given, and of the rates sharing a cost the one
   kept is the one that protects worst.
   */
  lemma DistinctKeepsWorst(rates: seq<Rate>, bytes: nat)
    ensures RisingCost(Distinct(rates, bytes), bytes)
    ensures forall r :: r in Distinct(rates, bytes) ==> r in rates
    ensures forall r :: r in rates ==> Stands(Distinct(rates, bytes), r, bytes)
  {
    hide Rate.Cost, RisingCost, InOrder, Dedup, SortRates;
    var s := SortRates(rates, bytes);
    SortedRates(rates, bytes);
    DedupRises(s, bytes);
    DedupMembers(s, bytes);
    forall r | r in s
      ensures r in rates
    {
      assert r in multiset(s);
    }
    forall r | r in rates
      ensures Stands(Dedup(s, bytes), r, bytes)
    {
      assert r in multiset(rates);
      assert r in multiset(s);
      var m :| 0 <= m < |s| && s[m] == r;
      DedupStands(s, bytes, m);
    }
  }

  /** No two of the rates cost the same and protect differently. */
  ghost predicate NoTies(rates: seq<Rate>, bytes: nat) {
    forall x, y :: x in rates && y in rates && x.Cost(bytes) == y.Cost(bytes) ==> x.residualPpb == y.residualPpb
  }

  /** Some rate is kept at each cost that protects as well as any given at that cost. */
  ghost predicate KeepsBest(rates: seq<Rate>, bytes: nat) {
    forall r :: r in rates ==> Kept(Distinct(rates, bytes), r, bytes)
  }

  /** The kept rate of `r`'s cost, which protects no better. */
  lemma StandIn(rates: seq<Rate>, bytes: nat, r: Rate) returns (i: nat)
    requires r in rates
    ensures i < |Distinct(rates, bytes)| && Distinct(rates, bytes)[i] in rates
    ensures Distinct(rates, bytes)[i].Cost(bytes) == r.Cost(bytes) && Distinct(rates, bytes)[i].residualPpb >= r.residualPpb
  {
    hide Rate.Cost, Distinct, RisingCost;
    DistinctKeepsWorst(rates, bytes);
    var d := Distinct(rates, bytes);
    assert Stands(d, r, bytes);
    i :| 0 <= i < |d| && d[i].Cost(bytes) == r.Cost(bytes) && d[i].residualPpb >= r.residualPpb;
    assert d[i] in d;
  }

  /** Some kept rate of `r`'s cost protects as well. */
  ghost predicate Kept(d: seq<Rate>, r: Rate, bytes: nat) {
    exists i :: 0 <= i < |d| && d[i].Cost(bytes) == r.Cost(bytes) && d[i].residualPpb <= r.residualPpb
  }

  lemma NoTiesKeeps(rates: seq<Rate>, bytes: nat, r: Rate)
    requires NoTies(rates, bytes) && r in rates
    ensures Kept(Distinct(rates, bytes), r, bytes)
  {
    hide Rate.Cost, Distinct;
    var i := StandIn(rates, bytes, r);
    assert Distinct(rates, bytes)[i].residualPpb == r.residualPpb;
  }

  lemma KeptOfTie(rates: seq<Rate>, bytes: nat, x: Rate, y: Rate)
    requires Kept(Distinct(rates, bytes), x, bytes) && y in rates && x.Cost(bytes) == y.Cost(bytes)
    ensures x.residualPpb >= y.residualPpb
  {
    hide Rate.Cost, Distinct, RisingCost;
    var d := Distinct(rates, bytes);
    DistinctKeepsWorst(rates, bytes);
    var j := StandIn(rates, bytes, y);
    var i :| 0 <= i < |d| && d[i].Cost(bytes) == x.Cost(bytes) && d[i].residualPpb <= x.residualPpb;
    SameCostSameIndex(d, bytes, i, j);
  }

  /** Deduplication loses no protection exactly when no two rates of equal cost differ in residual. */
  lemma KeepsBestIffNoTies(rates: seq<Rate>, bytes: nat)
    ensures KeepsBest(rates, bytes) <==> NoTies(rates, bytes)
  {
    hide Rate.Cost, Distinct, Kept;
    if NoTies(rates, bytes) {
      forall r | r in rates
        ensures Kept(Distinct(rates, bytes), r, bytes)
      {
        NoTiesKeeps(rates, bytes, r);
      }
    }
    if KeepsBest(rates, bytes) {
      forall x, y | x in rates && y in rates && x.Cost(bytes) == y.Cost(bytes)
        ensures x.residualPpb == y.residualPpb
      {
        KeptOfTie(rates, bytes, x, y);
        KeptOfTie(rates, bytes, y, x);
      }
    }
  }

  lemma SameCostSameIndex(d: seq<Rate>, bytes: nat, i: nat, j: nat)
    requires RisingCost(d, bytes) && i < |d| && j < |d| && d[i].Cost(bytes) == d[j].Cost(bytes)
    ensures i == j
  {
    hide Rate.Cost;
  }

  // ---------------------------------------------------------------- the hull

  function Fall(x: Rate, y: Rate): int {
    x.residualPpb - y.residualPpb
  }

  function Rise(x: Rate, y: Rate, bytes: nat): int {
    if y.Cost(bytes) - x.Cost(bytes) > 1 then y.Cost(bytes) - x.Cost(bytes) else 1
  }

  /** `b` lies on or above the chord from `a` to `c`. */
  predicate Interior(a: Rate, b: Rate, c: Rate, bytes: nat) {
    Fall(a, b) * Rise(b, c, bytes) <= Fall(b, c) * Rise(a, b, bytes)
  }

  function Pop(hull: seq<Rate>, c: Rate, bytes: nat): (h: seq<Rate>)
    ensures |h| <= |hull| && h == hull[..|h|]
    ensures hull != [] ==> h != []
  {
    if |hull| >= 2 && Interior(hull[|hull| - 2], hull[|hull| - 1], c, bytes) then Pop(hull[..|hull| - 1], c, bytes)
    else hull
  }

  function Push(hull: seq<Rate>, c: Rate, bytes: nat): seq<Rate> {
    if hull != [] && c.residualPpb >= hull[|hull| - 1].residualPpb then hull else Pop(hull, c, bytes) + [c]
  }

  function Scan(s: seq<Rate>, bytes: nat): seq<Rate> {
    if s == [] then [] else Push(Scan(s[..|s| - 1], bytes), s[|s| - 1], bytes)
  }

  /** `envelope`: sort, deduplicate, scan. */
  function Hull(rates: seq<Rate>, bytes: nat): seq<Rate> {
    Scan(Distinct(rates, bytes), bytes)
  }

  method ScanHull(s: seq<Rate>, bytes: nat) returns (hull: seq<Rate>)
    ensures hull == Scan(s, bytes)
  {
    hide Rate.Cost, Interior;
    hull := [];
    assert s[..0] == [];
    var i := 0;
    while i < |s|
      invariant 0 <= i <= |s| && hull == Scan(s[..i], bytes)
    {
      var c := s[i];
      assert s[..i + 1][..i] == s[..i];
      if hull == [] || c.residualPpb < hull[|hull| - 1].residualPpb {
        ghost var before := hull;
        while |hull| >= 2 && Interior(hull[|hull| - 2], hull[|hull| - 1], c, bytes)
          invariant Pop(hull, c, bytes) == Pop(before, c, bytes)
          decreases |hull|
        {
          hull := hull[..|hull| - 1];
        }
        hull := hull + [c];
      }
      i := i + 1;
    }
    assert s[..i] == s;
  }

  method ComputeEnvelope(rates: seq<Rate>, bytes: nat) returns (hull: seq<Rate>)
    ensures hull == Hull(rates, bytes)
  {
    hull := ScanHull(Distinct(rates, bytes), bytes);
  }

  ghost predicate FallingResidual(h: seq<Rate>) {
    forall i, j :: 0 <= i < j < |h| ==> h[i].residualPpb > h[j].residualPpb
  }

  /** No rate of `h` lies on or above the chord between its neighbours. */
  ghost predicate FallingSlope(h: seq<Rate>, bytes: nat) {
    forall i :: 0 <= i < |h| - 2 ==> !Interior(h[i], h[i + 1], h[i + 2], bytes)
  }

  /** The shape of an envelope: rising cost, falling residual, falling slope. */
  ghost predicate Convex(h: seq<Rate>, bytes: nat) {
    RisingCost(h, bytes) && FallingResidual(h) && FallingSlope(h, bytes)
  }

  lemma PrefixConvex(h: seq<Rate>, k: nat, bytes: nat)
    requires Convex(h, bytes) && k <= |h|
    ensures Convex(h[..k], bytes)
  {
    hide Rate.Cost, Interior;
  }

  lemma {:induction false} PopStops(hull: seq<Rate>, c: Rate, bytes: nat)
    ensures var h := Pop(hull, c, bytes); |h| >= 2 ==> !Interior(h[|h| - 2], h[|h| - 1], c, bytes)
    decreases |hull|
  {
    hide Rate.Cost, Interior;
    if |hull| >= 2 && Interior(hull[|hull| - 2], hull[|hull| - 1], c, bytes) {
      PopStops(hull[..|hull| - 1], c, bytes);
    }
  }

  lemma RisesOn(h: seq<Rate>, c: Rate, bytes: nat)
    requires RisingCost(h, bytes) && (h != [] ==> h[|h| - 1].Cost(bytes) < c.Cost(bytes))
    ensures RisingCost(h + [c], bytes)
  {
    hide Rate.Cost;
    forall i | 0 <= i < |h|
      ensures h[i].Cost(bytes) < c.Cost(bytes)
    {
      if i < |h| - 1 {
        assert h[i].Cost(bytes) < h[|h| - 1].Cost(bytes);
      }
    }
  }

  lemma FallsOn(h: seq<Rate>, c: Rate)
    requires FallingResidual(h) && (h != [] ==> h[|h| - 1].residualPpb > c.residualPpb)
    ensures FallingResidual(h + [c])
  {
    forall i | 0 <= i < |h|
      ensures h[i].residualPpb > c.residualPpb
    {
      if i < |h| - 1 {
        assert h[i].residualPpb > h[|h| - 1].residualPpb;
      }
    }
  }

  lemma SlopesOn(h: seq<Rate>, c: Rate, bytes: nat)
    requires FallingSlope(h, bytes) && (|h| >= 2 ==> !Interior(h[|h| - 2], h[|h| - 1], c, bytes))
    ensures FallingSlope(h + [c], bytes)
  {
    hide Interior;
  }

  lemma PushKeepsConvex(hull: seq<Rate>, c: Rate, bytes: nat)
    requires Convex(hull, bytes) && (hull != [] ==> hull[|hull| - 1].Cost(bytes) < c.Cost(bytes))
    ensures Convex(Push(hull, c, bytes), bytes)
  {
    hide Rate.Cost, Interior, RisingCost, FallingResidual, FallingSlope;
    var h := Pop(hull, c, bytes);
    PopStops(hull, c, bytes);
    PrefixConvex(hull, |h|, bytes);
    if hull != [] && c.residualPpb < hull[|hull| - 1].residualPpb {
      LastFallsFromPrefix(hull, |h|, bytes);
    }
    if hull == [] || c.residualPpb < hull[|hull| - 1].residualPpb {
      RisesOn(h, c, bytes);
      FallsOn(h, c);
      SlopesOn(h, c, bytes);
    }
  }

  lemma LastFallsFromPrefix(hull: seq<Rate>, k: nat, bytes: nat)
    requires RisingCost(hull, bytes) && FallingResidual(hull) && 0 < k <= |hull|
    ensures hull[..k][k - 1].residualPpb >= hull[|hull| - 1].residualPpb
    ensures hull[..k][k - 1].Cost(bytes) <= hull[|hull| - 1].Cost(bytes)
  {
    hide Rate.Cost;
  }

  lemma PushMembers(hull: seq<Rate>, c: Rate, bytes: nat)
    ensures Push(hull, c, bytes) != []
    ensures forall r :: r in Push(hull, c, bytes) ==> r == c || r in hull
  {
    hide Rate.Cost, Interior;
  }

  /** Every hull is made of the rates scanned, and ends no later than the last of them. */
  lemma {:induction false} ScanMembers(s: seq<Rate>, bytes: nat)
    ensures forall r :: r in Scan(s, bytes) ==> r in s
    ensures s != [] ==> Scan(s, bytes) != []
    decreases |s|
  {
    hide Push;
    if s != [] {
      ScanMembers(s[..|s| - 1], bytes);
      PushMembers(Scan(s[..|s| - 1], bytes), s[|s| - 1], bytes);
    }
  }

  /** A scan of rates in rising cost is a convex envelope. */
  lemma {:induction false} ScanIsConvex(s: seq<Rate>, bytes: nat)
    requires RisingCost(s, bytes)
    ensures Convex(Scan(s, bytes), bytes)
    decreases |s|
  {
    hide Rate.Cost, Interior;
    if s != [] {
      var k := |s| - 1;
      ScanIsConvex(s[..k], bytes);
      ScanMembers(s[..k], bytes);
      var h := Scan(s[..k], bytes);
      if h != [] {
        assert h[|h| - 1] in s[..k];
      }
      PushKeepsConvex(h, s[k], bytes);
    }
  }

  // ---------------------------------------------------------------- optimality at every price

  /** Residual plus price times cost, at price `p / q`, scaled by `q`. */
  function Priced(r: Rate, bytes: nat, p: nat, q: nat): int {
    q * r.residualPpb + p * r.Cost(bytes)
  }

  /** Some rate of `h` is at least as good as `r` at the price. */
  ghost predicate Covered(h: seq<Rate>, r: Rate, bytes: nat, p: nat, q: nat) {
    exists y :: y in h && Priced(y, bytes, p, q) <= Priced(r, bytes, p, q)
  }

  /** A rate that costs more and protects no better is covered at every price. */
  lemma DominatedIsWorse(x: Rate, c: Rate, bytes: nat, p: nat, q: nat)
    requires x.Cost(bytes) <= c.Cost(bytes) && x.residualPpb <= c.residualPpb
    ensures Priced(x, bytes, p, q) <= Priced(c, bytes, p, q)
  {
    Monotone(q, x.residualPpb, c.residualPpb);
    Monotone(p, x.Cost(bytes), c.Cost(bytes));
  }

  lemma Monotone(k: nat, x: int, y: int)
    requires x <= y
    ensures k * x <= k * y
  {
    assert k * y - k * x == k * (y - x);
  }

  /** A rate on or above the chord between its neighbours is never strictly the best. */
  lemma InteriorIsCovered(a: Rate, b: Rate, c: Rate, bytes: nat, p: nat, q: nat)
    requires a.Cost(bytes) < b.Cost(bytes) < c.Cost(bytes) && Interior(a, b, c, bytes)
    ensures Priced(a, bytes, p, q) <= Priced(b, bytes, p, q) || Priced(c, bytes, p, q) <= Priced(b, bytes, p, q)
  {
    var dab, dbc := Fall(a, b), Fall(b, c);
    var cab, cbc := b.Cost(bytes) - a.Cost(bytes), c.Cost(bytes) - b.Cost(bytes);
    PriceStep(a, b, bytes, p, q);
    PriceStep(b, c, bytes, p, q);
    Chord(dab, cab, dbc, cbc, p, q);
  }

  lemma PriceStep(x: Rate, y: Rate, bytes: nat, p: nat, q: nat)
    ensures Priced(y, bytes, p, q) - Priced(x, bytes, p, q) == p * (y.Cost(bytes) - x.Cost(bytes)) - q * Fall(x, y)
  {
    hide Rate.Cost;
  }

  /** With slope `dab / cab` at most `dbc / cbc`: if the first step pays at the price, so does the second. */
  lemma Chord(dab: int, cab: int, dbc: int, cbc: int, p: nat, q: nat)
    requires cab > 0 && cbc > 0 && dab * cbc <= dbc * cab
    ensures q * dab <= p * cab || q * dbc >= p * cbc
  {
    if q * dab > p * cab {
      TimesPositive(p * cab, q * dab, cbc);
      Monotone(q, dab * cbc, dbc * cab);
      assert (q * dab) * cbc == q * (dab * cbc) && q * (dbc * cab) == (q * dbc) * cab && (p * cab) * cbc == (p * cbc) * cab;
      Cancel(p * cbc, q * dbc, cab);
    }
  }

  lemma TimesPositive(x: int, y: int, k: int)
    requires x < y && k > 0
    ensures x * k < y * k
  {
    assert y * k - x * k == (y - x) * k;
  }

  lemma Cancel(x: int, y: int, k: int)
    requires k > 0 && x * k < y * k
    ensures x < y
  {
    KeepsOrder(y, x, k);
  }

  lemma KeepsOrder(x: int, y: int, k: int)
    requires k > 0
    ensures x <= y ==> x * k <= y * k
  {
    assert y * k - x * k == (y - x) * k;
  }

  /** Without its last rate, whatever that rate covered is covered by the one before or the one behind. */
  lemma CoveredWithout(h: seq<Rate>, a: Rate, b: Rate, c: Rate, bytes: nat, r: Rate, p: nat, q: nat)
    requires Covered(h + [a, b] + [c], r, bytes, p, q)
    requires Priced(a, bytes, p, q) <= Priced(b, bytes, p, q) || Priced(c, bytes, p, q) <= Priced(b, bytes, p, q)
    ensures Covered(h + [a] + [c], r, bytes, p, q)
  {
    hide Priced;
    var y :| y in h + [a, b] + [c] && Priced(y, bytes, p, q) <= Priced(r, bytes, p, q);
    assert a in h + [a] + [c] && c in h + [a] + [c];
    if y != b {
      assert y in h + [a] + [c];
    }
  }

  lemma LastTwoRise(hull: seq<Rate>, bytes: nat)
    requires RisingCost(hull, bytes) && |hull| >= 2
    ensures hull[|hull| - 2].Cost(bytes) < hull[|hull| - 1].Cost(bytes) && RisingCost(hull[..|hull| - 1], bytes)
  {
    hide Rate.Cost;
  }

  lemma PopOnce(hull: seq<Rate>, c: Rate, bytes: nat)
    ensures Pop(hull, c, bytes)
         == if |hull| >= 2 && Interior(hull[|hull| - 2], hull[|hull| - 1], c, bytes) then Pop(hull[..|hull| - 1], c, bytes) else hull
  {
    hide Interior;
  }

  lemma {:induction false} PopCovers(hull: seq<Rate>, c: Rate, bytes: nat, r: Rate, p: nat, q: nat)
    requires RisingCost(hull, bytes) && (hull != [] ==> hull[|hull| - 1].Cost(bytes) < c.Cost(bytes))
    requires Covered(hull + [c], r, bytes, p, q)
    ensures Covered(Pop(hull, c, bytes) + [c], r, bytes, p, q)
    decreases |hull|
  {
    hide Rate.Cost, Interior, Priced, Covered, Pop, RisingCost;
    PopOnce(hull, c, bytes);
    if |hull| >= 2 && Interior(hull[|hull| - 2], hull[|hull| - 1], c, bytes) {
      var k := |hull| - 1;
      var h, a, b := hull[..k - 1], hull[k - 1], hull[k];
      LastTwoRise(hull, bytes);
      InteriorIsCovered(a, b, c, bytes, p, q);
      assert hull == h + [a, b];
      CoveredWithout(h, a, b, c, bytes, r, p, q);
      assert hull[..k] == h + [a];
      PopCovers(hull[..k], c, bytes, r, p, q);
    }
  }

  lemma PushCovers(hull: seq<Rate>, c: Rate, bytes: nat, r: Rate, p: nat, q: nat)
    requires RisingCost(hull, bytes) && (hull != [] ==> hull[|hull| - 1].Cost(bytes) < c.Cost(bytes))
    requires Covered(hull, r, bytes, p, q) || r == c
    ensures Covered(Push(hull, c, bytes), r, bytes, p, q)
  {
    hide Rate.Cost, Interior, Priced;
    if hull != [] && c.residualPpb >= hull[|hull| - 1].residualPpb {
      DominatedIsWorse(hull[|hull| - 1], c, bytes, p, q);
    } else {
      if r == c {
        assert c in hull + [c];
      } else {
        var y :| y in hull && Priced(y, bytes, p, q) <= Priced(r, bytes, p, q);
        assert y in hull + [c];
      }
      PopCovers(hull, c, bytes, r, p, q);
    }
  }

  lemma {:induction false} ScanCovers(s: seq<Rate>, bytes: nat, r: Rate, p: nat, q: nat)
    requires RisingCost(s, bytes) && r in s
    ensures Covered(Scan(s, bytes), r, bytes, p, q)
    decreases |s|
  {
    hide Rate.Cost, Interior, Priced, Covered;
    var k := |s| - 1;
    assert s == s[..k] + [s[k]];
    ScanIsConvex(s[..k], bytes);
    ScanMembers(s[..k], bytes);
    var h := Scan(s[..k], bytes);
    if h != [] {
      assert h[|h| - 1] in s[..k];
    }
    if r in s[..k] {
      ScanCovers(s[..k], bytes, r, p, q);
    }
    PushCovers(h, s[k], bytes, r, p, q);
  }

  /** The envelope: given rates, rising in cost, falling in residual, falling in slope. */
  lemma HullIsConvex(rates: seq<Rate>, bytes: nat)
    ensures Convex(Hull(rates, bytes), bytes)
    ensures forall r :: r in Hull(rates, bytes) ==> r in rates
    ensures rates != [] ==> Hull(rates, bytes) != []
  {
    hide Scan, Distinct, Convex;
    DistinctKeepsWorst(rates, bytes);
    ScanIsConvex(Distinct(rates, bytes), bytes);
    ScanMembers(Distinct(rates, bytes), bytes);
  }

  /**
   Where no two rates of equal cost protect differently, the envelope holds a minimiser of
   residual plus price times cost over all the rates, at every non-negative price.
   */
  lemma HullIsOptimal(rates: seq<Rate>, bytes: nat, r: Rate, p: nat, q: nat)
    requires NoTies(rates, bytes) && r in rates
    ensures Covered(Hull(rates, bytes), r, bytes, p, q)
  {
    hide Scan, Distinct, Priced, Rate.Cost;
    DistinctKeepsWorst(rates, bytes);
    var d := Distinct(rates, bytes);
    assert Stands(d, r, bytes);
    var i :| 0 <= i < |d| && d[i].Cost(bytes) == r.Cost(bytes) && d[i].residualPpb >= r.residualPpb;
    assert d[i] in rates;
    ScanCovers(d, bytes, d[i], p, q);
    DominatedIsWorse(d[i], r, bytes, p, q);
  }

  /** Two rates that round to one cost: the envelope keeps only the one that fails more often. */
  lemma TiesLoseProtection()
    ensures var rates := [Rate(1, 900), Rate(2, 5)];
            && Hull(rates, 100) == [Rate(1, 900)]
            && !Covered(Hull(rates, 100), Rate(2, 5), 100, 0, 1)
  {
    var a, b := Rate(1, 900), Rate(2, 5);
    assert a.Cost(100) == 0 && b.Cost(100) == 0;
    assert [a, b][..1] == [a] && [a][..0] == [];
    assert SortRates([a], 100) == [a];
    assert SortRates([a, b], 100) == Place([a], b, 100) == [a, b];
    assert Dedup([a], 100) == [a];
    assert Dedup([a, b], 100) == [a];
    assert Scan([a], 100) == [a];
  }
}
