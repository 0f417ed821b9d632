/**
 Systematic Reed-Solomon over GF(2^8) with a Cauchy parity matrix, erasure-only decode.

 The result callers rely on is in `Decode`: from any k distinct surviving blocks of an
 encoded stripe, in any order, the original data comes back byte for byte.
 */
module ReedSolomon {
  import opened Options
  import opened GF
  import opened Linear
  import opened Gauss
  import opened Cauchy

  type Block = seq<bv8>

  datatype RsError =
    | Parameters(n: nat, k: nat)
    | TooManyErasures(survivors: nat, needed: nat)
    | RaggedBlocks
    | BufferSize

  datatype Rs = Rs(n: nat, k: nat, parity: seq<Vec>) {
    /** What `New` establishes: Cauchy coefficients in the used corner, zeros elsewhere. */
    predicate Valid() {
      && 0 < k <= n <= MAX_N && k <= MAX_K
      && |parity| == MAX_N
      && (forall i :: 0 <= i < MAX_N ==> |parity[i]| == MAX_K)
      && (forall i, j :: 0 <= i < n - k && 0 <= j < k ==>
            parity[i][j] == InvOr0(Add(ByteOf(i + k), ByteOf(j))))
    }

    /** Generator-matrix row for block `index`: identity above `k`, Cauchy below. */
    function Row(index: nat): (r: Vec)
      requires Valid()
      ensures |r| == MAX_K
      ensures index < n ==> r[..k] == GenRow(k, index)
    {
      hide InvOr0, Add, ByteOf;
      if index < k then Unit(index, MAX_K)
      else if index - k < |parity| then parity[index - k]
      else Zero(MAX_K)
    }
  }

  /** The coefficients of parity block `i`: each the inverse of (i + k) + j in the field. */
  predicate Coefficients(k: nat, i: nat, c: seq<bv8>) {
    i + k < 16 && |c| == k && forall j: nat | j < k :: Mul(((i + k) as bv8) ^ (j as bv8), c[j]) == 1
  }

  method New(n: nat, k: nat) returns (r: Result<Rs, RsError>)
    ensures r.Ok? <==> 0 < k <= n <= 16 && k <= 12
    ensures r.Ok? ==> r.value.Valid() && r.value.n == n && r.value.k == k
    ensures r.Ok? ==> forall i: nat | i < n - k :: Coefficients(k, i, r.value.parity[i][..k])
    ensures r.Err? ==> r.error == Parameters(n, k)
  {
    hide InvOr0, Add, ByteOf, Mul;
    if k == 0 || n > MAX_N || k > MAX_K || k > n {
      return Err(Parameters(n, k));
    }
    var parity := seq(MAX_N, _ => Zero(MAX_K));
    var i := 0;
    while i < n - k
      invariant 0 <= i <= n - k
      invariant |parity| == MAX_N && forall a :: 0 <= a < MAX_N ==> |parity[a]| == MAX_K
      invariant forall a, j :: 0 <= a < i && 0 <= j < k ==>
        parity[a][j] == InvOr0(Add(ByteOf(a + k), ByteOf(j)))
    {
      var row := parity[i];
      var j := 0;
      while j < k
        invariant 0 <= j <= k && |row| == MAX_K
        invariant forall c :: 0 <= c < j ==> row[c] == InvOr0(Add(ByteOf(i + k), ByteOf(c)))
      {
        row := row[j := InvOr0(Add(ByteOf(i + k), ByteOf(j)))];
        j := j + 1;
      }
      parity := parity[i := row];
      i := i + 1;
    }
    forall i: nat | i < n - k
      ensures Coefficients(k, i, parity[i][..k])
    {
      forall j: nat | j < k
        ensures Mul(((i + k) as bv8) ^ (j as bv8), parity[i][j]) == 1
      {
        CoefficientInverts(i, j, k);
      }
    }
    return Ok(Rs(n, k, parity));
  }

  // ---------------------------------------------------------------- stripes

  /** `k` blocks of `len` bytes. */
  predicate IsData(data: seq<Block>, k: nat, len: nat) {
    |data| == k && forall j :: 0 <= j < k ==> |data[j]| == len
  }

  /** Block `i` of the stripe over `data`: one generator row applied to every byte column. */
  function StripeBlock(k: nat, data: seq<Block>, len: nat, i: nat): (b: Block)
    requires IsData(data, k, len) && i < MAX_N
    ensures |b| == len
    ensures forall at :: 0 <= at < len ==> b[at] == Dot(GenRow(k, i), Column(data, at), k)
  {
    seq(len, at requires 0 <= at < len => Dot(GenRow(k, i), Column(data, at), k))
  }

  /** Systematic: the first `k` blocks of a stripe are the data, unchanged. */
  lemma Systematic(k: nat, data: seq<Block>, len: nat, i: nat)
    requires IsData(data, k, len) && i < k <= MAX_N
    ensures StripeBlock(k, data, len, i) == data[i]
  {
    hide Dot, Column;
    forall at | 0 <= at < len
      ensures StripeBlock(k, data, len, i)[at] == data[i][at]
    {
      DotUnit(i, Column(data, at), k);
    }
  }

  /** Byte `at` of the first `n` data blocks, each times its coefficient, XORed together. */
  function Weighted(c: seq<bv8>, data: seq<Block>, at: nat, n: nat): bv8
    requires n <= |c| && n <= |data| && forall j :: 0 <= j < |data| ==> at < |data[j]|
  {
    if n == 0 then 0 else Weighted(c, data, at, n - 1) ^ Mul(c[n - 1], data[n - 1][at])
  }

  lemma CoefficientsAreRow(k: nat, i: nat, c: seq<bv8>)
    requires Coefficients(k, i, c)
    ensures c == GenRow(k, k + i)
  {
    hide Mul, InvOr0, Add, ByteOf;
    forall j: nat | j < k
      ensures c[j] == GenRow(k, k + i)[j]
    {
      CoefficientInverts(i, j, k);
      InverseIsUnique(((i + k) as bv8) ^ (j as bv8), c[j], InvOr0(Add(ByteOf(i + k), ByteOf(j))));
    }
  }

  lemma {:induction false} DotIsWeighted(c: seq<bv8>, data: seq<Block>, at: nat, n: nat)
    requires n <= |c| && n <= |data| && forall j :: 0 <= j < |data| ==> at < |data[j]|
    ensures Dot(c, Column(data, at), n) == Weighted(c, data, at, n)
  {
    hide Mul;
    if n > 0 {
      DotIsWeighted(c, data, at, n - 1);
    }
  }

  /** What parity block `i` holds, from the coefficients alone. */
  lemma ParityByte(k: nat, data: seq<Block>, len: nat, i: nat, c: seq<bv8>, at: nat)
    requires IsData(data, k, len) && Coefficients(k, i, c) && at < len
    ensures StripeBlock(k, data, len, k + i)[at] == Weighted(c, data, at, k)
  {
    hide Dot, Column, GenRow, Weighted;
    CoefficientsAreRow(k, i, c);
    DotIsWeighted(c, data, at, k);
  }

  // ---------------------------------------------------------------- encode

  /** The accumulator loop both directions share: coefficients against one byte of each block. */
  method Accumulate(coeffs: Vec, blocks: seq<Block>, at: nat, k: nat) returns (acc: bv8)
    requires k <= |coeffs| && k <= |blocks|
    requires forall j :: 0 <= j < |blocks| ==> at < |blocks[j]|
    ensures acc == Dot(coeffs, Column(blocks, at), k)
  {
    hide Mul, Add;
    acc := 0;
    var j := 0;
    while j < k
      invariant 0 <= j <= k
      invariant acc == Dot(coeffs, Column(blocks, at), j)
    {
      acc := Add(acc, Mul(coeffs[j], blocks[j][at]));
      j := j + 1;
    }
  }

  ghost predicate Separate(out: seq<array<bv8>>) {
    forall i, j :: 0 <= i < j < |out| ==> out[i] != out[j]
  }

  predicate SameLengths(blocks: seq<Block>, out: seq<array<bv8>>, len: nat) {
    (forall j :: 0 <= j < |blocks| ==> |blocks[j]| == len)
    && forall i :: 0 <= i < |out| ==> out[i].Length == len
  }

  method Encode(rs: Rs, data: seq<Block>, out: seq<array<bv8>>) returns (r: Result<(), RsError>)
    requires rs.Valid() && Separate(out)
    modifies out
    ensures |data| != rs.k || |out| != rs.n - rs.k ==> r == Err(BufferSize)
    ensures |data| == rs.k && |out| == rs.n - rs.k && !SameLengths(data, out, |data[0]|)
         ==> r == Err(RaggedBlocks)
    ensures |data| == rs.k && |out| == rs.n - rs.k && SameLengths(data, out, |data[0]|) ==>
      r == Ok(()) && forall i :: 0 <= i < |out| ==>
        out[i][..] == StripeBlock(rs.k, data, |data[0]|, rs.k + i)
    ensures r.Ok? ==> forall i: nat, at: nat, c: seq<bv8> | i < |out| && at < |data[0]| && Coefficients(rs.k, i, c) ::
              out[i][at] == Weighted(c, data, at, rs.k)
    ensures r.Err? ==> forall i :: 0 <= i < |out| ==> out[i][..] == old(out[i][..])
  {
    hide InvOr0, Add, ByteOf, Dot, Column, Weighted, Mul;
    var k := rs.k;
    if |data| != k || |out| != rs.n - k {
      return Err(BufferSize);
    }
    var len := |data[0]|;
    if !SameLengths(data, out, len) {
      return Err(RaggedBlocks);
    }
    var i := 0;
    while i < |out|
      invariant 0 <= i <= |out|
      invariant forall a :: 0 <= a < i ==> out[a][..] == StripeBlock(k, data, len, k + a)
    {
      EncodeBlock(rs, data, len, i, out[i]);
      i := i + 1;
    }
    forall i: nat, at: nat, c: seq<bv8> | i < |out| && at < len && Coefficients(k, i, c)
      ensures out[i][at] == Weighted(c, data, at, k)
    {
      ParityByte(k, data, len, i, c, at);
      assert out[i][at] == out[i][..][at];
    }
    return Ok(());
  }

  method EncodeBlock(rs: Rs, data: seq<Block>, len: nat, i: nat, dst: array<bv8>)
    requires rs.Valid() && IsData(data, rs.k, len) && i < rs.n - rs.k && dst.Length == len
    modifies dst
    ensures dst[..] == StripeBlock(rs.k, data, len, rs.k + i)
  {
    hide InvOr0, Add, ByteOf, Dot, Column;
    var k := rs.k;
    var coeffs := rs.parity[i];
    assert rs.Row(k + i) == coeffs;
    var at := 0;
    while at < len
      invariant 0 <= at <= len
      invariant forall b :: 0 <= b < at ==> dst[b] == StripeBlock(k, data, len, k + i)[b]
    {
      var acc := Accumulate(coeffs, data, at, k);
      DotCongruent(coeffs, GenRow(k, k + i), Column(data, at), Column(data, at), k);
      dst[at] := acc;
      at := at + 1;
    }
  }

  // ---------------------------------------------------------------- decode

  type Survivor = (nat, Block)

  function Indices(s: seq<Survivor>, k: nat): (idx: seq<nat>)
    requires k <= |s|
    ensures |idx| == k && forall c :: 0 <= c < k ==> idx[c] == s[c].0
  {
    seq(k, c requires 0 <= c < k => s[c].0)
  }

  function Contents(s: seq<Survivor>): (b: seq<Block>)
    ensures |b| == |s| && forall c :: 0 <= c < |s| ==> b[c] == s[c].1
  {
    seq(|s|, c requires 0 <= c < |s| => s[c].1)
  }

  /** The first `k` survivors are distinct blocks of the stripe over `data`. */
  ghost predicate SurvivesFrom(rs: Rs, s: seq<Survivor>, data: seq<Block>, len: nat)
    requires rs.k <= rs.n <= MAX_N
  {
    && rs.k <= |s| && IsData(data, rs.k, len)
    && Distinct(Indices(s, rs.k))
    && forall c :: 0 <= c < rs.k ==>
         s[c].0 < rs.n && s[c].1 == StripeBlock(rs.k, data, len, s[c].0)
  }

  /** Survivors and output buffers that pass the size checks. */
  predicate WellSized(rs: Rs, s: seq<Survivor>, out: seq<array<bv8>>) {
    && rs.k <= |s| && |s| > 0 && |out| == rs.k
    && SameLengths(Contents(s), out, |s[0].1|)
  }

  /** The survivors used name blocks of the code. */
  predicate InRange(rs: Rs, s: seq<Survivor>)
    requires rs.k <= |s|
  {
    forall c :: 0 <= c < rs.k ==> s[c].0 < rs.n
  }

  method Decode(rs: Rs, survivors: seq<Survivor>, out: seq<array<bv8>>) returns (r: Result<(), RsError>)
    requires rs.Valid() && Separate(out)
    modifies out
    // The refusals, in the order they are checked.
    ensures |survivors| < rs.k ==> r == Err(TooManyErasures(|survivors|, rs.k))
    ensures |survivors| >= rs.k && |out| != rs.k ==> r == Err(BufferSize)
    ensures |survivors| >= rs.k && |out| == rs.k && !WellSized(rs, survivors, out) ==> r == Err(RaggedBlocks)
    ensures WellSized(rs, survivors, out) && !InRange(rs, survivors) ==> r == Err(BufferSize)
    ensures r.Err? ==> forall i :: 0 <= i < |out| ==> out[i][..] == old(out[i][..])
    // Past those checks, exactly the repeated indices are refused, and what was encoded comes back.
    ensures WellSized(rs, survivors, out) && InRange(rs, survivors) ==>
      r == if Distinct(Indices(survivors, rs.k)) then Ok(())
           else Err(TooManyErasures(|survivors|, rs.k))
    ensures forall data: seq<Block> ::
      WellSized(rs, survivors, out) && SurvivesFrom(rs, survivors, data, |survivors[0].1|) ==>
        forall i :: 0 <= i < rs.k ==> out[i][..] == data[i]
  {
    hide InvOr0, Add, ByteOf, Dot, StripeBlock, Singular, LeftInverse, Inverse, GenRows;
    var k := rs.k;
    if |survivors| < k {
      return Err(TooManyErasures(|survivors|, k));
    }
    if |out| != k {
      return Err(BufferSize);
    }
    var len := |survivors[0].1|;
    if !SameLengths(Contents(survivors), out, len) {
      return Err(RaggedBlocks);
    }
    var m := new bv8[MAX_K, MAX_K]((_, _) => 0);
    var c := 0;
    while c < k
      invariant 0 <= c <= k
      invariant forall a :: 0 <= a < c ==> survivors[a].0 < rs.n
      invariant forall a, j :: 0 <= a < c && 0 <= j < k ==> m[a, j] == GenRow(k, survivors[a].0)[j]
      invariant forall i :: 0 <= i < |out| ==> out[i][..] == old(out[i][..])
    {
      if survivors[c].0 >= rs.n {
        return Err(BufferSize);
      }
      SetRow(m, c, rs.Row(survivors[c].0));
      c := c + 1;
    }
    ghost var idx := Indices(survivors, k);
    SameMatrix(Rows(m, k), GenRows(k, idx), k);
    var inverse := Invert(m, k);
    if inverse.None? {
      if Distinct(idx) {
        GeneratorNotSingular(k, idx);
      }
      return Err(TooManyErasures(|survivors|, k));
    }
    var inv := inverse.value;
    ghost var im := Rows(inv, k);
    RepeatsAreRefused(k, idx, im);
    FillData(inv, survivors, out, len, k);
    forall data: seq<Block> | SurvivesFrom(rs, survivors, data, len)
      ensures forall i :: 0 <= i < k ==> out[i][..] == data[i]
    {
      forall i | 0 <= i < k
        ensures out[i][..] == data[i]
      {
        Recovered(rs, survivors, data, len, im, out[i][..], i);
      }
    }
    return Ok(());
  }

  lemma RepeatsAreRefused(k: nat, idx: seq<nat>, im: Matrix)
    requires |idx| == k <= MAX_N && forall r :: 0 <= r < k ==> idx[r] < MAX_N
    requires Inverse(im, GenRows(k, idx), k)
    ensures Distinct(idx) && LeftInverse(im, GenRows(k, idx), k)
  {
    hide GenRow, LeftInverse, TrivialKernel;
    forall a, b | 0 <= a < b < k
      ensures idx[a] != idx[b]
    {
      InverseSeparatesRows(im, GenRows(k, idx), a, b, k);
    }
  }

  method SetRow(m: array2<bv8>, r: nat, row: Vec)
    requires m.Length1 == |row| && r < m.Length0
    modifies m
    ensures forall a, j :: 0 <= a < m.Length0 && 0 <= j < m.Length1 ==>
      m[a, j] == if a == r then row[j] else old(m[a, j])
  {
    var j := 0;
    while j < m.Length1
      invariant 0 <= j <= m.Length1
      invariant forall a, c :: 0 <= a < m.Length0 && 0 <= c < m.Length1 ==>
        m[a, c] == if a == r && c < j then row[c] else old(m[a, c])
    {
      m[r, j] := row[j];
      j := j + 1;
    }
  }

  lemma SameMatrix(a: Matrix, b: Matrix, k: nat)
    requires Square(a, k) && Square(b, k)
    requires forall r, j :: 0 <= r < k && 0 <= j < k ==> a[r][j] == b[r][j]
    ensures a == b
  {
    forall r | 0 <= r < k
      ensures a[r] == b[r]
    {}
  }

  /** The reconstruction loops: inverse rows against the survivors' bytes. */
  method FillData(inv: array2<bv8>, survivors: seq<Survivor>, out: seq<array<bv8>>, len: nat, k: nat)
    requires k <= inv.Length0 && k <= inv.Length1 && k <= |survivors| && |out| == k && Separate(out)
    requires SameLengths(Contents(survivors), out, len)
    modifies out
    ensures Rows(inv, k) == old(Rows(inv, k))
    ensures forall i, at :: 0 <= i < k && 0 <= at < len ==>
      out[i][at] == Dot(Rows(inv, k)[i], Column(Contents(survivors), at), k)
  {
    hide Add, Dot, Column;
    ghost var im := Rows(inv, k);
    var blocks := Contents(survivors);
    var at := 0;
    while at < len
      invariant 0 <= at <= len
      invariant Rows(inv, k) == im
      invariant forall i, b :: 0 <= i < k && 0 <= b < at ==> out[i][b] == Dot(im[i], Column(blocks, b), k)
    {
      var i := 0;
      while i < k
        invariant 0 <= i <= k
        invariant Rows(inv, k) == im
        invariant forall a, b :: 0 <= a < k && 0 <= b < (if a < i then at + 1 else at) ==>
          out[a][b] == Dot(im[a], Column(blocks, b), k)
      {
        var row := seq(k, j requires 0 <= j < k reads inv => inv[i, j]);
        assert row == im[i];
        var acc := Accumulate(row, blocks, at, k);
        out[i][at] := acc;
        i := i + 1;
      }
      at := at + 1;
    }
  }

  /** What the inverse rows yield from survivors of a stripe is the stripe's data. */
  lemma Recovered(rs: Rs, survivors: seq<Survivor>, data: seq<Block>, len: nat, im: Matrix, out: Block, i: nat)
    requires rs.Valid() && SurvivesFrom(rs, survivors, data, len) && i < rs.k && |out| == len
    requires forall c :: 0 <= c < |survivors| ==> |survivors[c].1| == len
    requires forall c :: 0 <= c < rs.k ==> survivors[c].0 < rs.n
    requires LeftInverse(im, GenRows(rs.k, Indices(survivors, rs.k)), rs.k)
    requires forall at :: 0 <= at < len ==> out[at] == Dot(im[i], Column(Contents(survivors), at), rs.k)
    ensures out == data[i]
  {
    hide Dot, LeftInverse;
    var k := rs.k;
    var m := GenRows(k, Indices(survivors, k));
    forall at | 0 <= at < len
      ensures out[at] == data[i][at]
    {
      var x := Column(data, at);
      forall c | 0 <= c < k
        ensures Apply(m, x, k)[c] == Column(Contents(survivors), at)[c]
      {
        assert Contents(survivors)[c] == StripeBlock(k, data, len, survivors[c].0);
      }
      SquareInverse(im, m, k);
      DotCongruent(im[i], im[i], Apply(m, x, k), Column(Contents(survivors), at), k);
      LeftInverseRecovers(im, m, x, i, k);
    }
  }

  lemma SquareInverse(im: Matrix, m: Matrix, k: nat)
    requires LeftInverse(im, m, k)
    ensures Square(im, k)
  {}
}
