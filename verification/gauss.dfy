/**
 In-place Gauss-Jordan inversion over GF(2^8).

 Two facts are carried through every row operation: the running inverse times the
 original matrix is the running matrix, and no operation enlarges the kernel. The first
 makes the result an inverse; the second turns a missing pivot into a proof that the
 original matrix was singular.
 */
module Gauss {
  import opened Options
  import opened GF
  import opened Linear

  /** Largest data block count, the side of the source's fixed matrices. */
  const MAX_K: nat := 12

  /** The leading `k` by `k` part of a fixed-size matrix. */
  ghost function Rows(m: array2<bv8>, k: nat): (s: Matrix)
    requires k <= m.Length0 && k <= m.Length1
    reads m
    ensures Square(s, k)
    ensures forall r, j :: 0 <= r < k && 0 <= j < k ==> s[r][j] == m[r, j]
  {
    seq(k, r requires 0 <= r < k reads m => seq(k, j requires 0 <= j < k reads m => m[r, j]))
  }

  function Swapped(m: Matrix, a: nat, b: nat): (s: Matrix)
    requires a < |m| && b < |m|
    ensures |s| == |m|
    ensures forall r :: 0 <= r < |m| ==> s[r] == m[if r == a then b else if r == b then a else r]
  {
    m[a := m[b]][b := m[a]]
  }

  // ---------------------------------------------------------------- row operations in place

  method SwapRows(m: array2<bv8>, a: nat, b: nat, k: nat)
    requires k <= m.Length0 && k <= m.Length1 && a < k && b < k
    modifies m
    ensures Rows(m, k) == Swapped(old(Rows(m, k)), a, b)
  {
    var j := 0;
    while j < m.Length1
      invariant 0 <= j <= m.Length1
      invariant forall r, c :: 0 <= r < m.Length0 && 0 <= c < m.Length1 ==>
        m[r, c] == if c >= j then old(m[r, c])
                   else if r == b then old(m[a, c])
                   else if r == a then old(m[b, c])
                   else old(m[r, c])
    {
      m[a, j], m[b, j] := m[b, j], m[a, j];
      j := j + 1;
    }
    ghost var was := old(Rows(m, k));
    forall r | 0 <= r < k
      ensures Rows(m, k)[r] == Swapped(was, a, b)[r]
    {}
  }

  method ScaleRow(m: array2<bv8>, row: nat, p: bv8, k: nat)
    requires k <= m.Length0 && k <= m.Length1 && row < k
    modifies m
    ensures Rows(m, k) == old(Rows(m, k))[row := Scale(old(Rows(m, k))[row], p)]
  {
    hide Mul;
    var j := 0;
    while j < k
      invariant 0 <= j <= k
      invariant forall r, c :: 0 <= r < k && 0 <= c < k ==>
        m[r, c] == if r == row && c < j then Mul(old(m[r, c]), p) else old(m[r, c])
    {
      m[row, j] := Mul(m[row, j], p);
      j := j + 1;
    }
    ghost var was := old(Rows(m, k));
    forall r | 0 <= r < k
      ensures Rows(m, k)[r] == was[row := Scale(was[row], p)][r]
    {}
  }

  method AddRow(m: array2<bv8>, row: nat, f: bv8, from: nat, k: nat)
    requires k <= m.Length0 && k <= m.Length1 && row < k && from < k && row != from
    modifies m
    ensures Rows(m, k)
         == old(Rows(m, k))[row := AddScaled(old(Rows(m, k))[row], f, old(Rows(m, k))[from])]
  {
    hide Mul, Add;
    var j := 0;
    while j < k
      invariant 0 <= j <= k
      invariant forall r, c :: 0 <= r < k && 0 <= c < k ==>
        m[r, c] == if r == row && c < j then Add(old(m[r, c]), Mul(f, old(m[from, c]))) else old(m[r, c])
    {
      m[row, j] := Add(m[row, j], Mul(f, m[from, j]));
      j := j + 1;
    }
    ghost var was := old(Rows(m, k));
    forall r | 0 <= r < k
      ensures Rows(m, k)[r] == was[row := AddScaled(was[row], f, was[from])][r]
    {}
  }

  // ---------------------------------------------------------------- what every operation keeps

  /** Only the zero vector is sent to zero. */
  ghost predicate TrivialKernel(m: Matrix, k: nat)
    requires Square(m, k)
  {
    forall x: Vec :: |x| == k && InKernel(m, x, k) ==> x == Zero(k)
  }

  /** `inv` carries `m0` to `m` and loses nothing; `m` kills no vector that `m0` does not. */
  ghost predicate Tracks(m0: Matrix, m: Matrix, inv: Matrix, k: nat) {
    && Square(m0, k) && Square(m, k) && Square(inv, k)
    && (forall r :: 0 <= r < k ==> RowTimes(inv[r], m0, k, k) == m[r])
    && (forall x: Vec :: |x| == k && InKernel(m, x, k) ==> InKernel(m0, x, k))
    && TrivialKernel(inv, k)
  }

  /** The first `col` columns are those of the identity. */
  predicate Cleared(m: Matrix, col: nat, k: nat)
    requires Square(m, k) && col <= k
  {
    forall r, c :: 0 <= r < k && 0 <= c < col ==> m[r][c] == if r == c then 1 else 0
  }

  lemma IdentityTracks(m0: Matrix, inv: Matrix, k: nat)
    requires Square(m0, k) && Square(inv, k)
    requires forall r :: 0 <= r < k ==> inv[r] == Unit(r, k)
    ensures Tracks(m0, m0, inv, k)
  {
    hide Dot;
    forall r, j | 0 <= r < k && 0 <= j < k
      ensures RowTimes(inv[r], m0, k, k)[j] == m0[r][j]
    {
      DotUnit(r, Column(m0, j), k);
    }
    hide RowTimes;
    forall x: Vec | |x| == k && InKernel(inv, x, k)
      ensures x == Zero(k)
    {
      IdentityKernel(inv, x, k);
    }
  }

  lemma IdentityKernel(inv: Matrix, x: Vec, k: nat)
    requires Square(inv, k) && |x| == k && InKernel(inv, x, k)
    requires forall r :: 0 <= r < k ==> inv[r] == Unit(r, k)
    ensures x == Zero(k)
  {
    hide Dot;
    forall r | 0 <= r < k
      ensures x[r] == 0
    {
      assert Dot(inv[r], x, k) == 0;
      DotUnit(r, x, k);
    }
  }

  lemma SwapTracks(m0: Matrix, m: Matrix, inv: Matrix, a: nat, b: nat, k: nat)
    requires Tracks(m0, m, inv, k) && a < k && b < k
    ensures Tracks(m0, Swapped(m, a, b), Swapped(inv, a, b), k)
  {
    hide Dot, RowTimes, Swapped, InKernel;
    forall x: Vec | |x| == k && InKernel(Swapped(m, a, b), x, k)
      ensures InKernel(m0, x, k)
    {
      SwapKernel(m, x, a, b, k);
    }
    forall x: Vec | |x| == k && InKernel(Swapped(inv, a, b), x, k)
      ensures x == Zero(k)
    {
      SwapKernel(inv, x, a, b, k);
    }
  }

  lemma SwapKernel(m: Matrix, x: Vec, a: nat, b: nat, k: nat)
    requires Square(m, k) && |x| == k && a < k && b < k
    requires InKernel(Swapped(m, a, b), x, k)
    ensures InKernel(m, x, k)
  {
    hide Dot, Swapped;
    var m' := Swapped(m, a, b);
    forall r | 0 <= r < k
      ensures Dot(m[r], x, k) == 0
    {
      var r' := if r == a then b else if r == b then a else r;
      assert m'[r'] == m[r];
      assert Dot(m'[r'], x, k) == 0;
    }
  }

  lemma ScaleTracks(m0: Matrix, m: Matrix, inv: Matrix, row: nat, p: bv8, k: nat)
    requires Tracks(m0, m, inv, k) && row < k && p != 0
    ensures Tracks(m0, m[row := Scale(m[row], p)], inv[row := Scale(inv[row], p)], k)
  {
    hide Dot, RowTimes, Scale, Mul, InKernel;
    RowTimesScale(inv[row], p, m0, k);
    forall x: Vec | |x| == k && InKernel(m[row := Scale(m[row], p)], x, k)
      ensures InKernel(m0, x, k)
    {
      ScaleKernel(m, x, row, p, k);
    }
    forall x: Vec | |x| == k && InKernel(inv[row := Scale(inv[row], p)], x, k)
      ensures x == Zero(k)
    {
      ScaleKernel(inv, x, row, p, k);
    }
  }

  lemma ScaleKernel(m: Matrix, x: Vec, row: nat, p: bv8, k: nat)
    requires Square(m, k) && |x| == k && row < k && p != 0
    requires InKernel(m[row := Scale(m[row], p)], x, k)
    ensures InKernel(m, x, k)
  {
    hide Dot, Scale, Mul;
    var m' := m[row := Scale(m[row], p)];
    assert Dot(m'[row], x, k) == 0;
    DotScale(m[row], p, x, k);
    MulNonZero(Dot(m[row], x, k), p);
    forall r | 0 <= r < k
      ensures Dot(m[r], x, k) == 0
    {
      assert r != row ==> m'[r] == m[r];
    }
  }

  lemma AddTracks(m0: Matrix, m: Matrix, inv: Matrix, row: nat, f: bv8, from: nat, k: nat)
    requires Tracks(m0, m, inv, k) && row < k && from < k && row != from
    ensures Tracks(m0, m[row := AddScaled(m[row], f, m[from])],
                   inv[row := AddScaled(inv[row], f, inv[from])], k)
  {
    hide Dot, RowTimes, AddScaled, Mul, Add, InKernel;
    RowTimesAddScaled(inv[row], f, inv[from], m0, k);
    forall x: Vec | |x| == k && InKernel(m[row := AddScaled(m[row], f, m[from])], x, k)
      ensures InKernel(m0, x, k)
    {
      AddKernel(m, x, row, f, from, k);
    }
    forall x: Vec | |x| == k && InKernel(inv[row := AddScaled(inv[row], f, inv[from])], x, k)
      ensures x == Zero(k)
    {
      AddKernel(inv, x, row, f, from, k);
    }
  }

  lemma AddKernel(m: Matrix, x: Vec, row: nat, f: bv8, from: nat, k: nat)
    requires Square(m, k) && |x| == k && row < k && from < k && row != from
    requires InKernel(m[row := AddScaled(m[row], f, m[from])], x, k)
    ensures InKernel(m, x, k)
  {
    hide Dot, AddScaled, Mul, Add;
    var m' := m[row := AddScaled(m[row], f, m[from])];
    assert m'[from] == m[from];
    assert Dot(m'[row], x, k) == 0;
    DotAddScaled(m[row], f, m[from], x, k);
    MulNonZero(f, Dot(m[from], x, k));
    AddZero(Dot(m[row], x, k));
    forall r | 0 <= r < k
      ensures Dot(m[r], x, k) == 0
    {
      assert r != row ==> m'[r] == m[r];
    }
  }

  /** Without a pivot, one explicit non-zero vector lies in the kernel. */
  lemma NoPivotMeansSingular(m0: Matrix, m: Matrix, inv: Matrix, col: nat, k: nat)
    requires Tracks(m0, m, inv, k) && col < k && Cleared(m, col, k)
    requires forall r :: col <= r < k ==> m[r][col] == 0
    ensures Singular(m0, k)
  {
    hide Dot, RowTimes, Mul, TrivialKernel, Cleared;
    var x := KernelVector(m, col, k);
    assert x[col] == 1;
    assert x != Zero(k);
  }

  lemma KernelVector(m: Matrix, col: nat, k: nat) returns (x: Vec)
    requires Square(m, k) && col < k && Cleared(m, col, k)
    requires forall r :: col <= r < k ==> m[r][col] == 0
    ensures |x| == k && x[col] == 1 && InKernel(m, x, k)
  {
    hide Dot, Mul;
    x := seq(k, j requires 0 <= j < k => if j < col then m[j][col] else if j == col then 1 else 0);
    forall r | 0 <= r < k
      ensures Dot(m[r], x, k) == 0
    {
      if r < col {
        DotPair(m[r], x, r, col, k);
        MulOne(m[r][col]);
        AddZero(m[r][col]);
      } else {
        DotOfZeros(m[r], x, k);
      }
    }
  }

  // ---------------------------------------------------------------- inversion

  /** The row at or below `col` the elimination pivots on, or `k`. */
  method FindPivot(m: array2<bv8>, col: nat, k: nat) returns (pivot: nat)
    requires k <= m.Length0 && k <= m.Length1 && col < k
    ensures col <= pivot <= k
    ensures forall r :: col <= r < pivot ==> m[r, col] == 0
    ensures pivot < k ==> m[pivot, col] != 0
  {
    pivot := col;
    while pivot < k && m[pivot, col] == 0
      invariant col <= pivot <= k
      invariant forall r :: col <= r < pivot ==> m[r, col] == 0
    {
      pivot := pivot + 1;
    }
  }

  /** Bring the pivot to `col`, and make it one. */
  method Normalise(m: array2<bv8>, inv: array2<bv8>, pivot: nat, col: nat, k: nat, ghost m0: Matrix)
    requires m != inv && k <= m.Length0 && k <= m.Length1 && k <= inv.Length0 && k <= inv.Length1
    requires col <= pivot < k && m[pivot, col] != 0
    requires Tracks(m0, Rows(m, k), Rows(inv, k), k) && Cleared(Rows(m, k), col, k)
    modifies m, inv
    ensures Tracks(m0, Rows(m, k), Rows(inv, k), k) && Cleared(Rows(m, k), col, k)
    ensures Rows(m, k)[col][col] == 1
  {
    hide Mul, Tracks, RowTimes, Dot, Inv;
    if pivot != col {
      SwapTracks(m0, Rows(m, k), Rows(inv, k), pivot, col, k);
      SwapRows(m, pivot, col, k);
      SwapRows(inv, pivot, col, k);
    }
    assert m[col, col] == Rows(m, k)[col][col] != 0;
    var p := m[col, col];
    InvSpec(p);
    var pInv := Inv(p).value;
    ghost var before := Rows(m, k);
    ScaleTracks(m0, before, Rows(inv, k), col, pInv, k);
    ScaleRow(m, col, pInv, k);
    ScaleRow(inv, col, pInv, k);
    forall c | 0 <= c < col
      ensures Rows(m, k)[col][c] == 0
    {
      MulNonZero(before[col][c], pInv);
    }
  }

  lemma InvSpec(p: bv8)
    requires p != 0
    ensures Inv(p).Some? && Inv(p).value != 0
    ensures Mul(p, Inv(p).value) == 1 && Mul(Inv(p).value, p) == 1
  {
    hide Mul, Div;
    DivUndoesMul(1, p);
    MulCommutes(p, Inv(p).value);
    MulNonZero(Inv(p).value, p);
  }

  /** Clear column `col` everywhere but at the pivot. */
  method Eliminate(m: array2<bv8>, inv: array2<bv8>, col: nat, k: nat, ghost m0: Matrix)
    requires m != inv && k <= m.Length0 && k <= m.Length1 && k <= inv.Length0 && k <= inv.Length1
    requires col < k && Rows(m, k)[col][col] == 1
    requires Tracks(m0, Rows(m, k), Rows(inv, k), k) && Cleared(Rows(m, k), col, k)
    modifies m, inv
    ensures Tracks(m0, Rows(m, k), Rows(inv, k), k) && Cleared(Rows(m, k), col + 1, k)
  {
    hide Mul, Add, Tracks, RowTimes, Dot;
    var r := 0;
    while r < k
      invariant 0 <= r <= k
      invariant Tracks(m0, Rows(m, k), Rows(inv, k), k) && Cleared(Rows(m, k), col, k)
      invariant Rows(m, k)[col][col] == 1
      invariant forall i :: 0 <= i < r && i != col ==> Rows(m, k)[i][col] == 0
    {
      if r != col {
        var factor := m[r, col];
        if factor != 0 {
          ghost var before := Rows(m, k);
          AddTracks(m0, before, Rows(inv, k), r, factor, col, k);
          AddRow(m, r, factor, col, k);
          AddRow(inv, r, factor, col, k);
          ClearedRow(before, r, factor, col, k);
        }
      }
      r := r + 1;
    }
  }

  /** Subtracting the pivot row leaves the cleared columns alone and clears one more entry. */
  lemma ClearedRow(m: Matrix, r: nat, f: bv8, col: nat, k: nat)
    requires Square(m, k) && col < k && r < k && r != col && Cleared(m, col, k)
    requires m[col][col] == 1 && m[r][col] == f
    ensures var v := AddScaled(m[r], f, m[col]);
            v[col] == 0 && forall c :: 0 <= c < col ==> v[c] == m[r][c]
  {
    hide Mul, Add;
    MulOne(f);
    AddZero(f);
    forall c | 0 <= c < col
      ensures AddScaled(m[r], f, m[col])[c] == m[r][c]
    {
      MulNonZero(f, m[col][c]);
      AddZero(m[r][c]);
    }
  }

  /**
   Invert the leading `k` by `k` part of `m`. A result is an inverse on both sides (see
   `RightInverse`); a refusal means the matrix is singular, and `InvertibleIsNotSingular`
   says it cannot be both.
   */
  method Invert(m: array2<bv8>, k: nat) returns (out: Option<array2<bv8>>)
    requires m.Length0 == MAX_K && m.Length1 == MAX_K && k <= MAX_K
    modifies m
    ensures out.Some? ==> fresh(out.value) && out.value.Length0 == MAX_K && out.value.Length1 == MAX_K
    ensures out.Some? ==> Inverse(Rows(out.value, k), old(Rows(m, k)), k)
    ensures out.None? ==> Singular(old(Rows(m, k)), k)
  {
    hide Mul, Tracks, RowTimes, Dot;
    ghost var m0 := Rows(m, k);
    var inv := new bv8[MAX_K, MAX_K]((_, _) => 0);
    var i := 0;
    while i < k
      invariant 0 <= i <= k
      invariant forall r, c :: 0 <= r < MAX_K && 0 <= c < MAX_K ==>
        inv[r, c] == if r == c && r < i then 1 else 0
      invariant Rows(m, k) == m0
    {
      inv[i, i] := 1;
      i := i + 1;
    }
    forall r | 0 <= r < k
      ensures Rows(inv, k)[r] == Unit(r, k)
    {}
    IdentityTracks(m0, Rows(inv, k), k);

    var col := 0;
    while col < k
      invariant 0 <= col <= k
      invariant Tracks(m0, Rows(m, k), Rows(inv, k), k) && Cleared(Rows(m, k), col, k)
    {
      var pivot := FindPivot(m, col, k);
      if pivot == k {
        NoPivotMeansSingular(m0, Rows(m, k), Rows(inv, k), col, k);
        return None;
      }
      Normalise(m, inv, pivot, col, k, m0);
      Eliminate(m, inv, col, k, m0);
      col := col + 1;
    }
    TracksToInverse(m0, Rows(m, k), Rows(inv, k), k);
    return Some(inv);
  }

  lemma TracksToInverse(m0: Matrix, m: Matrix, inv: Matrix, k: nat)
    requires Tracks(m0, m, inv, k) && Cleared(m, k, k)
    ensures Inverse(inv, m0, k)
  {
    hide Dot, RowTimes;
    forall r | 0 <= r < k
      ensures RowTimes(inv[r], m0, k, k) == Unit(r, k)
    {
      assert m[r] == Unit(r, k);
    }
  }

  /** A left inverse that loses nothing itself. */
  ghost predicate Inverse(inv: Matrix, m: Matrix, k: nat) {
    LeftInverse(inv, m, k) && TrivialKernel(inv, k)
  }

  /** Such an inverse works from the right as well: m (inv y) = y. */
  lemma RightInverse(inv: Matrix, m: Matrix, y: Vec, k: nat)
    requires Inverse(inv, m, k) && |y| == k
    ensures Apply(m, Apply(inv, y, k), k) == y
  {
    hide Dot, Mul, Add, LeftInverse, RowTimes;
    SquareOfInverse(inv, m, k);
    var x := Apply(inv, y, k);
    var z := Apply(m, x, k);
    var d := AddScaled(z, 1, y);
    forall r | 0 <= r < k
      ensures Dot(inv[r], d, k) == 0
    {
      LeftInverseRecovers(inv, m, x, r, k);
      DotCommutes(inv[r], d, k);
      DotAddScaled(z, 1, y, inv[r], k);
      DotCommutes(z, inv[r], k);
      DotCommutes(y, inv[r], k);
      MulOne(Dot(inv[r], y, k));
      AddZero(x[r]);
    }
    assert InKernel(inv, d, k);
    forall j | 0 <= j < k
      ensures z[j] == y[j]
    {
      MulOne(y[j]);
      assert d[j] == 0;
      SumIsZero(z[j], y[j]);
    }
  }

  lemma SumIsZero(a: bv8, b: bv8)
    ensures Add(a, b) == 0 <==> a == b
  {}

  lemma SquareOfInverse(inv: Matrix, m: Matrix, k: nat)
    requires LeftInverse(inv, m, k)
    ensures Square(inv, k) && Square(m, k)
  {}

  /** A matrix with an inverse has no row twice. */
  lemma InverseSeparatesRows(inv: Matrix, m: Matrix, a: nat, b: nat, k: nat)
    requires Inverse(inv, m, k) && a < b < k
    ensures |m| == k && m[a] != m[b]
  {
    hide Dot, RowTimes;
    RightInverse(inv, m, Unit(a, k), k);
    var x := Apply(inv, Unit(a, k), k);
    assert Dot(m[a], x, k) == Apply(m, x, k)[a] == 1;
    assert Dot(m[b], x, k) == Apply(m, x, k)[b] == 0;
  }
}
