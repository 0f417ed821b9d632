/**
 Vectors and square matrices over GF(2^8), as far as Gauss-Jordan elimination and the
 Cauchy code need them. Sums accumulate left to right, as the codec's loops do.
 */
module Linear {
  import opened GF

  type Vec = seq<bv8>
  type Matrix = seq<Vec>

  /** Sum of the first `n` products. */
  function Dot(a: Vec, b: Vec, n: nat): bv8
    requires n <= |a| && n <= |b|
  {
    if n == 0 then 0 else Add(Dot(a, b, n - 1), Mul(a[n - 1], b[n - 1]))
  }

  predicate Square(m: Matrix, k: nat) {
    |m| == k && forall r :: 0 <= r < k ==> |m[r]| == k
  }

  function Column(m: Matrix, j: nat): (c: Vec)
    requires forall r :: 0 <= r < |m| ==> j < |m[r]|
    ensures |c| == |m| && forall r :: 0 <= r < |m| ==> c[r] == m[r][j]
  {
    seq(|m|, r requires 0 <= r < |m| => m[r][j])
  }

  /** The row vector `w` times the matrix `m`, using its first `n` rows. */
  function RowTimes(w: Vec, m: Matrix, n: nat, k: nat): (v: Vec)
    requires Square(m, k) && n <= k && n <= |w|
    ensures |v| == k && forall j :: 0 <= j < k ==> v[j] == Dot(w, Column(m, j), n)
  {
    seq(k, j requires 0 <= j < k => Dot(w, Column(m, j), n))
  }

  /** The matrix `m` times the column vector `x`. */
  function Apply(m: Matrix, x: Vec, k: nat): (y: Vec)
    requires Square(m, k) && |x| == k
    ensures |y| == k && forall r :: 0 <= r < k ==> y[r] == Dot(m[r], x, k)
  {
    seq(k, r requires 0 <= r < k => Dot(m[r], x, k))
  }

  function Unit(i: nat, k: nat): (u: Vec)
    ensures |u| == k && forall j :: 0 <= j < k ==> u[j] == if j == i then 1 else 0
  {
    seq(k, j => if j == i then 1 else 0)
  }

  function Zero(k: nat): (z: Vec)
    ensures |z| == k && forall j :: 0 <= j < k ==> z[j] == 0
  {
    seq(k, j => 0)
  }

  function Scale(a: Vec, p: bv8): (v: Vec)
    ensures |v| == |a| && forall j :: 0 <= j < |a| ==> v[j] == Mul(a[j], p)
  {
    seq(|a|, j requires 0 <= j < |a| => Mul(a[j], p))
  }

  /** `a + f * b`, entry by entry. */
  function AddScaled(a: Vec, f: bv8, b: Vec): (v: Vec)
    requires |a| == |b|
    ensures |v| == |a| && forall j :: 0 <= j < |a| ==> v[j] == Add(a[j], Mul(f, b[j]))
  {
    seq(|a|, j requires 0 <= j < |a| => Add(a[j], Mul(f, b[j])))
  }

  // ---------------------------------------------------------------- linearity of Dot

  lemma AddCommutes(a: bv8, b: bv8)
    ensures Add(a, b) == Add(b, a)
  {}

  lemma AddAssociates(a: bv8, b: bv8, c: bv8)
    ensures Add(Add(a, b), c) == Add(a, Add(b, c))
  {}

  lemma AddInterchange(a: bv8, b: bv8, c: bv8, d: bv8)
    ensures Add(Add(a, b), Add(c, d)) == Add(Add(a, c), Add(b, d))
  {
    hide Add;
    AddAssociates(a, b, Add(c, d));
    AddAssociates(b, c, d);
    AddCommutes(b, c);
    AddAssociates(c, b, d);
    AddAssociates(a, c, Add(b, d));
  }

  lemma AddZero(a: bv8)
    ensures Add(a, 0) == a && Add(0, a) == a && Add(a, a) == 0
  {}

  lemma {:induction false} DotScale(a: Vec, p: bv8, b: Vec, n: nat)
    requires n <= |a| && n <= |b|
    ensures Dot(Scale(a, p), b, n) == Mul(Dot(a, b, n), p)
  {
    hide Mul, Add;
    if n == 0 {
      MulNonZero(0, p);
    } else {
      DotScale(a, p, b, n - 1);
      var x, y, d := a[n - 1], b[n - 1], Dot(a, b, n - 1);
      MulCommutes(x, p);
      MulAssociates(p, x, y);
      MulCommutes(p, Mul(x, y));
      MulDistributes(p, d, Mul(x, y));
      MulCommutes(p, d);
      MulCommutes(p, Add(d, Mul(x, y)));
    }
  }

  lemma {:induction false} DotAddScaled(a: Vec, f: bv8, a': Vec, b: Vec, n: nat)
    requires |a| == |a'| && n <= |a| && n <= |b|
    ensures Dot(AddScaled(a, f, a'), b, n) == Add(Dot(a, b, n), Mul(f, Dot(a', b, n)))
  {
    hide Mul, Add;
    if n == 0 {
      MulNonZero(f, 0);
      AddZero(0);
    } else {
      DotAddScaled(a, f, a', b, n - 1);
      var x, x', y := a[n - 1], a'[n - 1], b[n - 1];
      var d, d' := Dot(a, b, n - 1), Dot(a', b, n - 1);
      MulCommutes(Add(x, Mul(f, x')), y);
      MulDistributes(y, x, Mul(f, x'));
      MulCommutes(y, x);
      MulCommutes(y, Mul(f, x'));
      MulAssociates(f, x', y);
      MulDistributes(f, d', Mul(x', y));
      AddInterchange(d, Mul(f, d'), Mul(x, y), Mul(f, Mul(x', y)));
    }
  }

  lemma {:induction false} DotCommutes(a: Vec, b: Vec, n: nat)
    requires n <= |a| && n <= |b|
    ensures Dot(a, b, n) == Dot(b, a, n)
  {
    hide Mul, Add;
    if n > 0 {
      DotCommutes(a, b, n - 1);
      MulCommutes(a[n - 1], b[n - 1]);
    }
  }

  /** A sum each of whose products has a zero factor. */
  lemma {:induction false} DotOfZeros(a: Vec, b: Vec, n: nat)
    requires n <= |a| && n <= |b|
    requires forall j :: 0 <= j < n ==> a[j] == 0 || b[j] == 0
    ensures Dot(a, b, n) == 0
  {
    hide Mul, Add;
    if n > 0 {
      DotOfZeros(a, b, n - 1);
      MulNonZero(a[n - 1], b[n - 1]);
      AddZero(0);
    }
  }

  /** A sum with at most one product without a zero factor, at `i`. */
  lemma {:induction false} DotSingle(a: Vec, b: Vec, i: nat, n: nat)
    requires i < n <= |a| && n <= |b|
    requires forall j :: 0 <= j < n && j != i ==> a[j] == 0 || b[j] == 0
    ensures Dot(a, b, n) == Mul(a[i], b[i])
  {
    hide Mul, Add;
    if i == n - 1 {
      DotOfZeros(a, b, n - 1);
    } else {
      DotSingle(a, b, i, n - 1);
      MulNonZero(a[n - 1], b[n - 1]);
    }
    AddZero(Mul(a[i], b[i]));
  }

  /** A sum with at most two such products, at `i` and `c`. */
  lemma {:induction false} DotPair(a: Vec, b: Vec, i: nat, c: nat, n: nat)
    requires i < c < n <= |a| && n <= |b|
    requires forall j :: 0 <= j < n && j != i && j != c ==> a[j] == 0 || b[j] == 0
    ensures Dot(a, b, n) == Add(Mul(a[i], b[i]), Mul(a[c], b[c]))
  {
    hide Mul, Add;
    if c == n - 1 {
      DotSingle(a, b, i, n - 1);
    } else {
      DotPair(a, b, i, c, n - 1);
      MulNonZero(a[n - 1], b[n - 1]);
      AddZero(Add(Mul(a[i], b[i]), Mul(a[c], b[c])));
    }
  }

  lemma DotUnit(i: nat, b: Vec, k: nat)
    requires i < k && |b| == k
    ensures Dot(Unit(i, k), b, k) == b[i]
  {
    hide Mul, Dot;
    DotSingle(Unit(i, k), b, i, k);
    MulOne(b[i]);
  }

  /** Equal prefixes give equal sums. */
  lemma {:induction false} DotCongruent(a: Vec, a': Vec, b: Vec, b': Vec, n: nat)
    requires n <= |a| && n <= |a'| && n <= |b| && n <= |b'|
    requires forall j :: 0 <= j < n ==> a[j] == a'[j] && b[j] == b'[j]
    ensures Dot(a, b, n) == Dot(a', b', n)
  {
    hide Mul, Add;
    if n > 0 {
      DotCongruent(a, a', b, b', n - 1);
    }
  }

  // ---------------------------------------------------------------- exchanging sums

  /** One more row of the matrix joins a row-times-matrix product. */
  lemma RowTimesStep(w: Vec, m: Matrix, n: nat, k: nat)
    requires Square(m, k) && 0 < n <= k && n <= |w|
    ensures RowTimes(w, m, n, k) == AddScaled(RowTimes(w, m, n - 1, k), w[n - 1], m[n - 1])
  {
    hide Mul, Add;
    forall j | 0 <= j < k
      ensures RowTimes(w, m, n, k)[j] == AddScaled(RowTimes(w, m, n - 1, k), w[n - 1], m[n - 1])[j]
    {
      assert Column(m, j)[n - 1] == m[n - 1][j];
    }
  }

  /** Double sums may be summed in either order: w (m x) = (w m) x. */
  lemma {:induction false} Exchange(w: Vec, m: Matrix, x: Vec, n: nat, k: nat)
    requires Square(m, k) && n <= k && n <= |w| && |x| == k
    ensures Dot(w, Apply(m, x, k), n) == Dot(RowTimes(w, m, n, k), x, k)
  {
    hide Mul, Add;
    if n == 0 {
      forall j | 0 <= j < k
        ensures RowTimes(w, m, 0, k)[j] == 0
      {}
      DotOfZeros(RowTimes(w, m, 0, k), x, k);
    } else {
      Exchange(w, m, x, n - 1, k);
      RowTimesStep(w, m, n, k);
      DotAddScaled(RowTimes(w, m, n - 1, k), w[n - 1], m[n - 1], x, k);
    }
  }

  lemma RowTimesScale(w: Vec, p: bv8, m: Matrix, k: nat)
    requires Square(m, k) && |w| == k
    ensures RowTimes(Scale(w, p), m, k, k) == Scale(RowTimes(w, m, k, k), p)
  {
    hide Mul, Dot;
    forall j | 0 <= j < k
      ensures RowTimes(Scale(w, p), m, k, k)[j] == Scale(RowTimes(w, m, k, k), p)[j]
    {
      DotScale(w, p, Column(m, j), k);
    }
  }

  lemma RowTimesAddScaled(w: Vec, f: bv8, w': Vec, m: Matrix, k: nat)
    requires Square(m, k) && |w| == |w'| == k
    ensures RowTimes(AddScaled(w, f, w'), m, k, k)
         == AddScaled(RowTimes(w, m, k, k), f, RowTimes(w', m, k, k))
  {
    hide Mul, Add, Dot;
    forall j | 0 <= j < k
      ensures RowTimes(AddScaled(w, f, w'), m, k, k)[j]
           == AddScaled(RowTimes(w, m, k, k), f, RowTimes(w', m, k, k))[j]
    {
      DotAddScaled(w, f, w', Column(m, j), k);
    }
  }

  // ---------------------------------------------------------------- inverses and kernels

  /** `inv` times `m` is the identity. */
  predicate LeftInverse(inv: Matrix, m: Matrix, k: nat) {
    Square(inv, k) && Square(m, k)
    && forall r :: 0 <= r < k ==> RowTimes(inv[r], m, k, k) == Unit(r, k)
  }

  predicate InKernel(m: Matrix, x: Vec, k: nat)
    requires Square(m, k) && |x| == k
  {
    forall r :: 0 <= r < k ==> Dot(m[r], x, k) == 0
  }

  /** Some non-zero vector is sent to zero. */
  ghost predicate Singular(m: Matrix, k: nat)
    requires Square(m, k)
  {
    exists x: Vec :: |x| == k && InKernel(m, x, k) && x != Zero(k)
  }

  /** A left inverse recovers every vector from its image. */
  lemma LeftInverseRecovers(inv: Matrix, m: Matrix, x: Vec, r: nat, k: nat)
    requires LeftInverse(inv, m, k) && |x| == k && r < k
    ensures Dot(inv[r], Apply(m, x, k), k) == x[r]
  {
    hide Mul, Add, Dot;
    Exchange(inv[r], m, x, k, k);
    DotUnit(r, x, k);
  }

  lemma InvertibleIsNotSingular(inv: Matrix, m: Matrix, k: nat)
    requires LeftInverse(inv, m, k)
    ensures !Singular(m, k)
  {
    hide Mul, Add, Dot;
    forall x: Vec | |x| == k && InKernel(m, x, k)
      ensures x == Zero(k)
    {
      forall r | 0 <= r < k
        ensures x[r] == 0
      {
        LeftInverseRecovers(inv, m, x, r, k);
        DotCommutes(inv[r], Apply(m, x, k), k);
        DotOfZeros(Apply(m, x, k), inv[r], k);
      }
    }
  }
}
