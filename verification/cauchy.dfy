/**
 Why any k distinct rows of the systematic Cauchy generator are independent.

 The kernel of a square Cauchy system is emptied by induction on its size, with no
 determinants: scale row i by x_i + y_last, subtract the last row scaled alike, divide
 by x_i + x_last, and a system one smaller is left.
 */
module Cauchy {
  import opened Options
  import opened GF
  import opened Linear
  import opened Gauss

  /** Largest total block count. */
  const MAX_N: nat := 16

  /** `gf::inv(a).unwrap_or(0)`. */
  function InvOr0(a: bv8): bv8 {
    match Inv(a)
    case Some(v) => v
    case None => 0
  }

  /** The block index as a field element. */
  function ByteOf(i: nat): bv8
    requires i < MAX_N
  {
    i as bv8
  }

  lemma ByteOfInjective(i: nat, j: nat)
    requires i < MAX_N && j < MAX_N && i != j
    ensures ByteOf(i) != ByteOf(j)
  {}

  lemma InvOr0Spec(a: bv8)
    requires a != 0
    ensures InvOr0(a) != 0 && Mul(a, InvOr0(a)) == 1
  {
    hide Mul, Inv;
    InvSpec(a);
  }

  /** The coefficient of parity block `i` for data block `j`: the inverse of (i + k) + j, both read as bytes. */
  lemma CoefficientInverts(i: nat, j: nat, k: nat)
    requires i + k < MAX_N && j < k
    ensures Mul(((i + k) as bv8) ^ (j as bv8), InvOr0(Add(ByteOf(i + k), ByteOf(j)))) == 1
  {
    hide Mul, InvOr0;
    ByteOfInjective(i + k, j);
    DifferentSum(ByteOf(i + k), ByteOf(j));
    InvOr0Spec(Add(ByteOf(i + k), ByteOf(j)));
  }

  lemma InverseIsUnique(d: bv8, x: bv8, y: bv8)
    requires Mul(d, x) == 1 && Mul(d, y) == 1
    ensures x == y
  {
    hide Mul;
    MulAssociates(x, d, y);
    MulCommutes(x, d);
    MulOne(x);
    MulOne(y);
  }

  lemma DifferentSum(a: bv8, b: bv8)
    requires a != b
    ensures Add(a, b) != 0
  {}

  // ---------------------------------------------------------------- field identities

  lemma MulLeftCommutes(a: bv8, b: bv8, c: bv8)
    ensures Mul(a, Mul(b, c)) == Mul(b, Mul(a, c))
  {
    hide Mul;
    MulAssociates(a, b, c);
    MulCommutes(a, b);
    MulAssociates(b, a, c);
  }

  lemma MulDistributesRight(a: bv8, b: bv8, c: bv8)
    ensures Mul(Add(a, b), c) == Add(Mul(a, c), Mul(b, c))
  {
    hide Mul, Add;
    MulCommutes(Add(a, b), c);
    MulDistributes(c, a, b);
    MulCommutes(c, a);
    MulCommutes(c, b);
  }

  /** 1/a + 1/b = (a + b) / (ab). */
  lemma InverseSum(a: bv8, b: bv8, p: bv8, q: bv8)
    requires Mul(a, p) == 1 && Mul(b, q) == 1
    ensures Add(p, q) == Mul(Add(a, b), Mul(p, q))
  {
    hide Mul, Add;
    MulDistributesRight(a, b, Mul(p, q));
    MulAssociates(a, p, q);
    MulLeftCommutes(b, p, q);
    MulOne(q);
    MulOne(p);
    AddCommutes(p, q);
  }

  /** (a + d) * (p * v) = v + d p v when p = 1/a. */
  lemma ScaledTerm(a: bv8, d: bv8, p: bv8, v: bv8)
    requires Mul(a, p) == 1
    ensures Mul(Add(a, d), Mul(p, v)) == Add(v, Mul(Mul(d, p), v))
  {
    hide Mul, Add;
    MulAssociates(Add(a, d), p, v);
    MulDistributesRight(a, d, p);
    MulDistributesRight(1, Mul(d, p), v);
    MulOne(v);
  }

  /** One term of the reduced system, with a = x_i + y_j, b = x_l + y_j, d = y_l + y_j. */
  lemma ReducedTerm(a: bv8, b: bv8, d: bv8, p: bv8, q: bv8, v: bv8)
    requires Mul(a, p) == 1 && Mul(b, q) == 1
    ensures Mul(Add(a, b), Mul(p, Mul(v, Mul(d, q))))
         == Add(Mul(Add(a, d), Mul(p, v)), Mul(Add(b, d), Mul(q, v)))
  {
    hide Mul, Add;
    var x := Add(a, b);
    ScaledTerm(a, d, p, v);
    ScaledTerm(b, d, q, v);
    var s, t := Mul(Mul(d, p), v), Mul(Mul(d, q), v);
    AddInterchange(v, s, v, t);
    AddZero(v);
    AddZero(Add(s, t));
    MulDistributesRight(Mul(d, p), Mul(d, q), v);
    MulDistributes(d, p, q);
    InverseSum(a, b, p, q);
    var pq := Mul(p, q);
    MulCommutes(Mul(d, Mul(x, pq)), v);
    MulLeftCommutes(d, x, pq);
    MulLeftCommutes(v, x, Mul(d, pq));
    MulLeftCommutes(d, p, q);
    MulLeftCommutes(v, p, Mul(d, q));
  }

  lemma SumThrough(x: bv8, y: bv8, z: bv8)
    ensures Add(Add(x, z), Add(y, z)) == Add(x, y)
  {
    hide Add;
    AddInterchange(x, z, y, z);
    AddZero(z);
    AddZero(Add(x, y));
  }

  // ---------------------------------------------------------------- the Cauchy kernel

  function CauchyRow(x: bv8, ys: seq<bv8>): (r: Vec)
    ensures |r| == |ys| && forall j :: 0 <= j < |ys| ==> r[j] == InvOr0(Add(x, ys[j]))
  {
    seq(|ys|, j requires 0 <= j < |ys| => InvOr0(Add(x, ys[j])))
  }

  ghost predicate Distinct<T(!new)>(s: seq<T>) {
    forall i, j :: 0 <= i < j < |s| ==> s[i] != s[j]
  }

  /** Points of a Cauchy system: x's distinct, y's distinct, no x a y. */
  ghost predicate CauchyPoints(xs: seq<bv8>, ys: seq<bv8>) {
    && |xs| == |ys| && Distinct(xs) && Distinct(ys)
    && forall i, j :: 0 <= i < |xs| && 0 <= j < |ys| ==> xs[i] != ys[j]
  }

  /** The unknowns of the system one smaller. */
  function Reduced(x: bv8, y: bv8, ys: seq<bv8>, v: Vec): (w: Vec)
    requires |ys| <= |v|
    ensures |w| == |ys|
    ensures forall j :: 0 <= j < |ys| ==>
      w[j] == Mul(v[j], Mul(Add(y, ys[j]), InvOr0(Add(x, ys[j]))))
  {
    seq(|ys|, j requires 0 <= j < |ys| => Mul(v[j], Mul(Add(y, ys[j]), InvOr0(Add(x, ys[j])))))
  }

  /** Scaling two rows and adding them gives the smaller system, prefix by prefix. */
  lemma {:induction false} ReducedSum(xi: bv8, xl: bv8, yl: bv8, ys: seq<bv8>, v: Vec, n: nat)
    requires n <= |ys| <= |v|
    requires forall j :: 0 <= j < |ys| ==> xi != ys[j] && xl != ys[j]
    ensures Mul(Add(xi, xl), Dot(CauchyRow(xi, ys), Reduced(xl, yl, ys, v), n))
         == Add(Mul(Add(xi, yl), Dot(CauchyRow(xi, ys), v, n)),
                Mul(Add(xl, yl), Dot(CauchyRow(xl, ys), v, n)))
  {
    hide Mul, Add, InvOr0;
    var ci, cl, w := CauchyRow(xi, ys), CauchyRow(xl, ys), Reduced(xl, yl, ys, v);
    if n == 0 {
      MulNonZero(Add(xi, xl), 0);
      MulNonZero(Add(xi, yl), 0);
      MulNonZero(Add(xl, yl), 0);
      AddZero(0);
    } else {
      ReducedSum(xi, xl, yl, ys, v, n - 1);
      var y, vj := ys[n - 1], v[n - 1];
      var p, q := ci[n - 1], cl[n - 1];
      SumIsZero(xi, y);
      SumIsZero(xl, y);
      InvOr0Spec(Add(xi, y));
      InvOr0Spec(Add(xl, y));
      var d := Add(yl, y);
      ReducedTerm(Add(xi, y), Add(xl, y), d, p, q, vj);
      SumThrough(xi, xl, y);
      SumThrough(xi, yl, y);
      SumThrough(xl, yl, y);
      MulDistributes(Add(xi, xl), Dot(ci, w, n - 1), Mul(p, w[n - 1]));
      MulDistributes(Add(xi, yl), Dot(ci, v, n - 1), Mul(p, vj));
      MulDistributes(Add(xl, yl), Dot(cl, v, n - 1), Mul(q, vj));
      AddInterchange(Mul(Add(xi, yl), Dot(ci, v, n - 1)), Mul(Add(xl, yl), Dot(cl, v, n - 1)),
                     Mul(Add(xi, yl), Mul(p, vj)), Mul(Add(xl, yl), Mul(q, vj)));
    }
  }

  /** A vanishing row, scaled by x + y_last: its last unknown equals the rest of the sum. */
  lemma VanishingRow(x: bv8, ys: seq<bv8>, v: Vec)
    requires |ys| == |v| > 0 && x != ys[|ys| - 1]
    requires Dot(CauchyRow(x, ys), v, |v|) == 0
    ensures var l := |ys| - 1;
            Mul(Add(x, ys[l]), Dot(CauchyRow(x, ys[..l]), v, l)) == v[l]
  {
    hide Mul, Add, InvOr0;
    var l := |ys| - 1;
    var c := CauchyRow(x, ys);
    var a := Add(x, ys[l]);
    SumIsZero(x, ys[l]);
    InvOr0Spec(a);
    DotCongruent(c, CauchyRow(x, ys[..l]), v, v, l);
    SumIsZero(Dot(c, v, l), Mul(c[l], v[l]));
    MulAssociates(a, c[l], v[l]);
    MulOne(v[l]);
  }

  /** A square Cauchy system with distinct points has only the zero solution. */
  lemma {:induction false} CauchyKernel(xs: seq<bv8>, ys: seq<bv8>, v: Vec)
    requires CauchyPoints(xs, ys) && |v| == |xs|
    requires forall i :: 0 <= i < |xs| ==> Dot(CauchyRow(xs[i], ys), v, |v|) == 0
    ensures forall j :: 0 <= j < |v| ==> v[j] == 0
    decreases |xs|
  {
    hide Mul, Add, InvOr0, CauchyRow, Dot, Reduced;
    if |xs| > 0 {
      var l := |xs| - 1;
      var xl, yl, ys' := xs[l], ys[l], ys[..l];
      var w := Reduced(xl, yl, ys', v);
      forall i | 0 <= i < l
        ensures Dot(CauchyRow(xs[i], ys'), w, l) == 0
      {
        SmallerRow(xs, ys, v, i);
      }
      CauchyKernel(xs[..l], ys', w);
      forall j | 0 <= j < l
        ensures v[j] == 0
      {
        SumIsZero(yl, ys[j]);
        SumIsZero(xl, ys[j]);
        InvOr0Spec(Add(xl, ys[j]));
        MulNonZero(Add(yl, ys[j]), InvOr0(Add(xl, ys[j])));
        MulNonZero(v[j], Mul(Add(yl, ys[j]), InvOr0(Add(xl, ys[j]))));
      }
      VanishingRow(xl, ys, v);
      DotCommutes(CauchyRow(xl, ys'), v, l);
      DotOfZeros(v, CauchyRow(xl, ys'), l);
      MulNonZero(Add(xl, yl), 0);
    }
  }

  lemma SmallerRow(xs: seq<bv8>, ys: seq<bv8>, v: Vec, i: nat)
    requires CauchyPoints(xs, ys) && |v| == |xs| && i < |xs| - 1
    requires forall i :: 0 <= i < |xs| ==> Dot(CauchyRow(xs[i], ys), v, |v|) == 0
    ensures var l := |xs| - 1;
            Dot(CauchyRow(xs[i], ys[..l]), Reduced(xs[l], ys[l], ys[..l], v), l) == 0
  {
    hide Mul, Add, InvOr0, CauchyRow, Dot, Reduced;
    var l := |xs| - 1;
    VanishingRow(xs[i], ys, v);
    VanishingRow(xs[l], ys, v);
    ReducedSum(xs[i], xs[l], ys[l], ys[..l], v, l);
    AddZero(v[l]);
    SumIsZero(xs[i], xs[l]);
    MulNonZero(Add(xs[i], xs[l]), Dot(CauchyRow(xs[i], ys[..l]), Reduced(xs[l], ys[l], ys[..l], v), l));
  }

  // ---------------------------------------------------------------- the generator

  /** Generator row of block `index`: identity above `k`, Cauchy below. */
  function GenRow(k: nat, index: nat): (r: Vec)
    requires k <= index ==> index < MAX_N
    ensures |r| == k
  {
    if index < k then Unit(index, k)
    else seq(k, j requires 0 <= j < k => InvOr0(Add(ByteOf(index), ByteOf(j))))
  }

  function GenRows(k: nat, idx: seq<nat>): (m: Matrix)
    requires |idx| == k <= MAX_N && forall r :: 0 <= r < k ==> idx[r] < MAX_N
    ensures Square(m, k) && forall r :: 0 <= r < k ==> m[r] == GenRow(k, idx[r])
  {
    seq(k, r requires 0 <= r < k => GenRow(k, idx[r]))
  }

  /** Data blocks below `n` that did not survive, in order. */
  ghost function Missing(idx: seq<nat>, n: nat): (s: seq<nat>)
    ensures forall i :: 0 <= i < |s| ==> s[i] < n
  {
    if n == 0 then []
    else if n - 1 in idx then Missing(idx, n - 1)
    else Missing(idx, n - 1) + [n - 1]
  }

  lemma {:induction false} MissingSpec(idx: seq<nat>, n: nat)
    ensures Distinct(Missing(idx, n))
    ensures forall j :: 0 <= j < n ==> (j in Missing(idx, n) <==> j !in idx)
  {
    if n > 0 {
      MissingSpec(idx, n - 1);
    }
  }

  /** Parity blocks among the first `r` survivors, in order. */
  ghost function Parities(idx: seq<nat>, k: nat, r: nat): (s: seq<nat>)
    requires r <= |idx|
    ensures forall i :: 0 <= i < |s| ==> k <= s[i] && s[i] in idx[..r]
  {
    if r == 0 then []
    else Parities(idx, k, r - 1) + (if idx[r - 1] < k then [] else [idx[r - 1]])
  }

  lemma {:induction false} ParitiesDistinct(idx: seq<nat>, k: nat, r: nat)
    requires r <= |idx| && Distinct(idx)
    ensures Distinct(Parities(idx, k, r))
  {
    if r > 0 {
      ParitiesDistinct(idx, k, r - 1);
      assert forall i :: 0 <= i < r - 1 ==> idx[i] != idx[r - 1];
      assert idx[r - 1] !in idx[..r - 1];
    }
  }

  /** Survivors below `n` among the first `r`. */
  ghost function Below(idx: seq<nat>, n: nat, r: nat): nat
    requires r <= |idx|
  {
    if r == 0 then 0 else Below(idx, n, r - 1) + if idx[r - 1] < n then 1 else 0
  }

  lemma {:induction false} BelowStep(idx: seq<nat>, n: nat, r: nat)
    requires r <= |idx| && Distinct(idx)
    ensures Below(idx, n + 1, r) == Below(idx, n, r) + if n in idx[..r] then 1 else 0
  {
    if r > 0 {
      BelowStep(idx, n, r - 1);
      assert idx[..r] == idx[..r - 1] + [idx[r - 1]];
      if idx[r - 1] == n {
        assert forall i :: 0 <= i < r - 1 ==> idx[i] != idx[r - 1];
        assert n !in idx[..r - 1];
      }
    }
  }

  lemma {:induction false} MissingCount(idx: seq<nat>, n: nat)
    requires Distinct(idx)
    ensures |Missing(idx, n)| + Below(idx, n, |idx|) == n
  {
    if n == 0 {
      NoneBelowZero(idx, |idx|);
    } else {
      MissingCount(idx, n - 1);
      hide Below;
      BelowStep(idx, n - 1, |idx|);
      assert idx[..|idx|] == idx;
    }
  }

  lemma {:induction false} NoneBelowZero(idx: seq<nat>, r: nat)
    requires r <= |idx|
    ensures Below(idx, 0, r) == 0
  {
    if r > 0 {
      NoneBelowZero(idx, r - 1);
    }
  }

  lemma {:induction false} ParitiesCount(idx: seq<nat>, k: nat, r: nat)
    requires r <= |idx|
    ensures |Parities(idx, k, r)| + Below(idx, k, r) == r
  {
    if r > 0 {
      ParitiesCount(idx, k, r - 1);
    }
  }

  function Bytes(s: seq<nat>): (b: seq<bv8>)
    requires forall i :: 0 <= i < |s| ==> s[i] < MAX_N
    ensures |b| == |s| && forall i :: 0 <= i < |s| ==> b[i] == ByteOf(s[i])
  {
    seq(|s|, i requires 0 <= i < |s| => ByteOf(s[i]))
  }

  function Pick(x: Vec, s: seq<nat>): (v: Vec)
    requires forall i :: 0 <= i < |s| ==> s[i] < |x|
    ensures |v| == |s| && forall i :: 0 <= i < |s| ==> v[i] == x[s[i]]
  {
    seq(|s|, i requires 0 <= i < |s| => x[s[i]])
  }

  /** A parity row's sum over the missing blocks `s` only. */
  ghost function MissingSum(index: nat, x: Vec, s: seq<nat>): bv8
    requires index < MAX_N && forall i :: 0 <= i < |s| ==> s[i] < |x| && s[i] < MAX_N
  {
    Dot(CauchyRow(ByteOf(index), Bytes(s)), Pick(x, s), |s|)
  }

  lemma MissingSumStep(index: nat, x: Vec, s: seq<nat>, j: nat)
    requires index < MAX_N && forall i :: 0 <= i < |s| ==> s[i] < |x| && s[i] < MAX_N
    requires j < |x| && j < MAX_N
    ensures MissingSum(index, x, s + [j])
         == Add(MissingSum(index, x, s), Mul(InvOr0(Add(ByteOf(index), ByteOf(j))), x[j]))
  {
    hide Mul, Add, InvOr0, ByteOf;
    var t := s + [j];
    DotCongruent(CauchyRow(ByteOf(index), Bytes(s)), CauchyRow(ByteOf(index), Bytes(t)),
                 Pick(x, s), Pick(x, t), |s|);
  }

  /** Unknowns already known to vanish may be left out of a parity row's sum. */
  lemma {:induction false} Compress(k: nat, index: nat, idx: seq<nat>, x: Vec, n: nat)
    requires n <= k <= index < MAX_N && |x| == k
    requires forall j :: 0 <= j < k && j in idx ==> x[j] == 0
    ensures Dot(GenRow(k, index), x, n) == MissingSum(index, x, Missing(idx, n))
  {
    hide Mul, Add, InvOr0, ByteOf, MissingSum;
    var g := GenRow(k, index);
    if n == 0 {
      EmptyMissingSum(index, x);
    } else {
      Compress(k, index, idx, x, n - 1);
      if n - 1 in idx {
        MulNonZero(g[n - 1], x[n - 1]);
        AddZero(Dot(g, x, n - 1));
      } else {
        MissingSumStep(index, x, Missing(idx, n - 1), n - 1);
      }
    }
  }

  lemma EmptyMissingSum(index: nat, x: Vec)
    requires index < MAX_N
    ensures MissingSum(index, x, []) == 0
  {}

  /** Any `k` distinct rows of the generator are linearly independent. */
  lemma GeneratorNotSingular(k: nat, idx: seq<nat>)
    requires |idx| == k <= MAX_N && Distinct(idx)
    requires forall r :: 0 <= r < k ==> idx[r] < MAX_N
    ensures !Singular(GenRows(k, idx), k)
  {
    hide Dot, GenRow;
    forall x: Vec | |x| == k && InKernel(GenRows(k, idx), x, k)
      ensures x == Zero(k)
    {
      GeneratorKernel(k, idx, x);
    }
  }

  lemma GeneratorKernel(k: nat, idx: seq<nat>, x: Vec)
    requires |idx| == k <= MAX_N && Distinct(idx) && |x| == k
    requires forall r :: 0 <= r < k ==> idx[r] < MAX_N
    requires InKernel(GenRows(k, idx), x, k)
    ensures x == Zero(k)
  {
    hide Dot, CauchyRow, Mul, Add, InvOr0, ByteOf;
    forall j | 0 <= j < k && j in idx
      ensures x[j] == 0
    {
      SurvivingDataVanishes(k, idx, x, j);
    }
    MissingDataVanishes(k, idx, x);
  }

  lemma SurvivingDataVanishes(k: nat, idx: seq<nat>, x: Vec, j: nat)
    requires |idx| == k <= MAX_N && |x| == k && j < k && j in idx
    requires forall r :: 0 <= r < k ==> idx[r] < MAX_N
    requires InKernel(GenRows(k, idx), x, k)
    ensures x[j] == 0
  {
    hide Dot;
    var r :| 0 <= r < k && idx[r] == j;
    assert GenRows(k, idx)[r] == Unit(j, k);
    DotUnit(j, x, k);
  }

  lemma ParityRowVanishes(k: nat, idx: seq<nat>, x: Vec, p: nat)
    requires |idx| == k <= MAX_N && |x| == k && k <= p && p in idx
    requires forall r :: 0 <= r < k ==> idx[r] < MAX_N
    requires forall j :: 0 <= j < k && j in idx ==> x[j] == 0
    requires InKernel(GenRows(k, idx), x, k)
    ensures p < MAX_N && MissingSum(p, x, Missing(idx, k)) == 0
  {
    hide Dot, MissingSum, GenRow;
    var r :| 0 <= r < k && idx[r] == p;
    Compress(k, p, idx, x, k);
    assert Dot(GenRows(k, idx)[r], x, k) == 0;
  }

  lemma MissingDataVanishes(k: nat, idx: seq<nat>, x: Vec)
    requires |idx| == k <= MAX_N && Distinct(idx) && |x| == k
    requires forall r :: 0 <= r < k ==> idx[r] < MAX_N
    requires forall j :: 0 <= j < k && j in idx ==> x[j] == 0
    requires InKernel(GenRows(k, idx), x, k)
    ensures x == Zero(k)
  {
    hide Dot, CauchyRow, InvOr0, ByteOf, InKernel, Missing, Parities;
    var ms, ps := Missing(idx, k), Parities(idx, k, k);
    assert idx[..k] == idx;
    MissingCount(idx, k);
    ParitiesCount(idx, k, k);
    ParitiesDistinct(idx, k, k);
    MissingSpec(idx, k);
    var xs, ys, v := Bytes(ps), Bytes(ms), Pick(x, ms);
    PointsFromIndices(ps, ms, k);
    forall i | 0 <= i < |xs|
      ensures Dot(CauchyRow(xs[i], ys), v, |v|) == 0
    {
      ParityRowVanishes(k, idx, x, ps[i]);
    }
    CauchyKernel(xs, ys, v);
    forall j | 0 <= j < k && j !in idx
      ensures x[j] == 0
    {
      var i :| 0 <= i < |ms| && ms[i] == j;
      assert v[i] == x[j];
    }
  }

  lemma PointsFromIndices(ps: seq<nat>, ms: seq<nat>, k: nat)
    requires |ps| == |ms| && Distinct(ps) && Distinct(ms)
    requires forall i :: 0 <= i < |ps| ==> k <= ps[i] < MAX_N
    requires forall i :: 0 <= i < |ms| ==> ms[i] < k <= MAX_N
    ensures CauchyPoints(Bytes(ps), Bytes(ms))
  {
    hide ByteOf;
    forall i, j | 0 <= i < MAX_N && 0 <= j < MAX_N && i != j
      ensures ByteOf(i) != ByteOf(j)
    {
      ByteOfInjective(i, j);
    }
  }
}
