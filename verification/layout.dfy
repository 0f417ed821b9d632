/**
 Where codes and records live inside their regions.

 A payload code sits at the slot its id gives and never straddles a block; a rerank record
 may span blocks, and the blocks to check are exactly those it touches. No two ids share a
 byte. The append unit, computed by Euclid's loop, is the least count of vectors that fills
 whole blocks in both regions.
 */
module Layouts {
  import opened Options
  import opened Arith
  import opened Flash

  /** Where slot `id` starts, `per` slots of `width` bytes to a block. */
  function SlotOffset(id: nat, per: nat, width: nat, block: nat): nat
    requires per > 0
  {
    (id / per) * block + (id % per) * width
  }

  /** Placement of `n` vectors of `payloadBytes` each into fixed-size blocks. */
  datatype PayloadLayout = PayloadLayout(payloadBytes: nat, blockBytes: nat, n: nat) {
    predicate Valid() {
      0 < payloadBytes <= blockBytes
    }

    function VectorsPerBlock(): nat
      requires Valid()
    {
      blockBytes / payloadBytes
    }

    function Blocks(): nat
      requires Valid() && VectorsPerBlock() > 0
    {
      CeilDiv(n, VectorsPerBlock())
    }

    function BlockOf(id: nat): Option<nat>
      requires Valid() && VectorsPerBlock() > 0
    {
      if id >= n then None else Some(id / VectorsPerBlock())
    }

    function OffsetOf(id: nat): Option<nat>
      requires Valid() && VectorsPerBlock() > 0
    {
      if id >= n then None else Some(SlotOffset(id, VectorsPerBlock(), payloadBytes, blockBytes))
    }

    function IdsInBlock(block: nat): Option<(nat, nat)>
      requires Valid() && VectorsPerBlock() > 0
    {
      if block >= Blocks() then None
      else
        var start := block * VectorsPerBlock();
        Some((start, if start + VectorsPerBlock() < n then start + VectorsPerBlock() else n))
    }
  }

  lemma SomePerBlock(width: nat, block: nat)
    requires 0 < width <= block
    ensures block / width > 0 && (block / width) * width <= block
  {
    DivMod(block, width);
    ProductOrder(block / width, 1, width);
  }

  /** The slot a record takes in its block ends inside the block. */
  lemma SlotFits(slot: nat, per: nat, width: nat, block: nat)
    requires slot < per && per * width <= block
    ensures slot * width + width <= block
  {
    ProductOrder(slot, per, width);
  }

  /** A vector's bytes lie inside the one block that `block_of` names. */
  lemma NeverStraddles(l: PayloadLayout, id: nat)
    requires l.Valid() && l.VectorsPerBlock() > 0 && id < l.n
    ensures var b, off := l.BlockOf(id).value, l.OffsetOf(id).value;
            && b < l.Blocks()
            && b * l.blockBytes <= off
            && off + l.payloadBytes <= (b + 1) * l.blockBytes
  {
    var per := l.VectorsPerBlock();
    SomePerBlock(l.payloadBytes, l.blockBytes);
    SlotFits(id % per, per, l.payloadBytes, l.blockBytes);
    DivMod(id, per);
    BelowCeil(id / per, l.n, per);
    ProductOrder(id / per, id / per + 1, l.blockBytes);
  }

  /** `ids_in_block` is the preimage of `block_of`: the ids one bad block removes, no more and no fewer. */
  lemma IdsInBlockInvertsBlockOf(l: PayloadLayout, block: nat, id: nat)
    requires l.Valid() && l.VectorsPerBlock() > 0
    ensures l.BlockOf(id) == Some(block) <==> (
              && l.IdsInBlock(block).Some?
              && l.IdsInBlock(block).value.0 <= id < l.IdsInBlock(block).value.1)
  {
    var per := l.VectorsPerBlock();
    BelowCeil(block, l.n, per);
    DivMod(id, per);
    if block * per <= id < block * per + per {
      QuotientIs(id, per, block);
    }
  }

  /** Two ids at slots of equal width never share a byte, and keep their order. */
  lemma SlotsApart(x: nat, y: nat, per: nat, width: nat, block: nat)
    requires x < y && per > 0 && per * width <= block
    ensures SlotOffset(x, per, width, block) + width <= SlotOffset(y, per, width, block)
  {
    DivMod(x, per);
    DivMod(y, per);
    SlotsApartAt(x / per, x % per, y / per, y % per, per, width, block);
  }

  lemma SlotsApartAt(p: nat, i: nat, q: nat, j: nat, per: nat, width: nat, block: nat)
    requires i < per && j < per && p * per + i < q * per + j && per * width <= block
    ensures p * block + i * width + width <= q * block + j * width
  {
    SlotFits(i, per, width, block);
    ProductOrder(q, p, per);
    if p == q {
      ProductOrder(i, j, width);
    } else {
      ProductOrder(p, q, block);
      NonNegativeProduct(j, width);
    }
  }

  /** Distinct vectors never share a byte of the payload region, and lie in id order. */
  lemma VectorsApart(l: PayloadLayout, x: nat, y: nat)
    requires l.Valid() && l.VectorsPerBlock() > 0 && x < y < l.n
    ensures l.OffsetOf(x).value + l.payloadBytes <= l.OffsetOf(y).value
  {
    SomePerBlock(l.payloadBytes, l.blockBytes);
    SlotsApart(x, y, l.VectorsPerBlock(), l.payloadBytes, l.blockBytes);
  }

  /** The blocks `[off, off + len)` touches, as a half-open range. */
  function BlocksSpanned(off: nat, len: nat, block: nat): (nat, nat)
    requires len > 0 && block > 0
  {
    (off / block, (off + len - 1) / block + 1)
  }

  /** Placement of `n` higher-precision records; unlike a code, a record may span blocks. */
  datatype RerankLayout = RerankLayout(recordBytes: nat, blockBytes: nat, n: nat) {
    predicate Valid() {
      0 < recordBytes && 0 < blockBytes
    }

    function BlocksPerRecord(): nat
      requires Valid()
    {
      CeilDiv(recordBytes, blockBytes)
    }

    function RecordsPerBlock(): nat
      requires Valid()
    {
      blockBytes / recordBytes
    }

    function Blocks(): nat
      requires Valid()
    {
      if recordBytes <= blockBytes then
        SomePerBlock(recordBytes, blockBytes);
        CeilDiv(n, RecordsPerBlock())
      else n * BlocksPerRecord()
    }

    function OffsetOf(id: nat): Option<nat>
      requires Valid()
    {
      if id >= n then None
      else if recordBytes <= blockBytes then
        SomePerBlock(recordBytes, blockBytes);
        Some(SlotOffset(id, RecordsPerBlock(), recordBytes, blockBytes))
      else Some(id * BlocksPerRecord() * blockBytes)
    }

    function BlocksOf(id: nat): Option<(nat, nat)>
      requires Valid()
    {
      match OffsetOf(id)
      case None => None
      case Some(off) => Some(BlocksSpanned(off, recordBytes, blockBytes))
    }
  }

  /** The blocks a rescore verifies hold every byte of the record, and each of them holds one. */
  lemma BlocksOfCoverRecord(l: RerankLayout, id: nat)
    requires l.Valid() && id < l.n
    ensures var off, run := l.OffsetOf(id).value, l.BlocksOf(id).value;
            && run.0 < run.1
            && run.0 * l.blockBytes <= off && off + l.recordBytes <= run.1 * l.blockBytes
            && forall b: nat :: run.0 <= b < run.1 <==> (b * l.blockBytes < off + l.recordBytes && off < b * l.blockBytes + l.blockBytes)
  {
    var off, run := l.OffsetOf(id).value, l.BlocksOf(id).value;
    var end := off + l.recordBytes - 1;
    Reaches(off / l.blockBytes, off, l.blockBytes);
    Reaches(off / l.blockBytes, end, l.blockBytes);
    Reaches(end / l.blockBytes, end, l.blockBytes);
    forall b: nat
      ensures run.0 <= b < run.1 <==> (b * l.blockBytes < off + l.recordBytes && off < b * l.blockBytes + l.blockBytes)
    {
      Reaches(b, off, l.blockBytes);
      Reaches(b, end, l.blockBytes);
    }
  }

  lemma Reaches(b: nat, x: nat, size: nat)
    requires size > 0
    ensures b <= x / size <==> b * size <= x
    ensures x / size <= b <==> x < b * size + size
    ensures (b + 1) * size == b * size + size
  {
    DivMod(x, size);
    ProductOrder(b, x / size, size);
    ProductOrder(x / size, b, size);
  }

  /** A record no wider than a block is verified by exactly one block. */
  lemma NarrowRecordsUseOneBlock(l: RerankLayout, id: nat)
    requires l.Valid() && l.recordBytes <= l.blockBytes && id < l.n
    ensures l.RecordsPerBlock() > 0
    ensures l.BlocksOf(id).value == (id / l.RecordsPerBlock(), id / l.RecordsPerBlock() + 1)
  {
    SomePerBlock(l.recordBytes, l.blockBytes);
    var per := l.RecordsPerBlock();
    var q := id / per;
    SlotFits(id % per, per, l.recordBytes, l.blockBytes);
    QuotientIs(l.OffsetOf(id).value, l.blockBytes, q);
    QuotientIs(l.OffsetOf(id).value + l.recordBytes - 1, l.blockBytes, q);
  }

  /** Distinct records never share a byte, whether they fit a block or span several. */
  lemma RecordsApart(l: RerankLayout, x: nat, y: nat)
    requires l.Valid() && x < y < l.n
    ensures l.OffsetOf(x).value + l.recordBytes <= l.OffsetOf(y).value
  {
    if l.recordBytes <= l.blockBytes {
      SomePerBlock(l.recordBytes, l.blockBytes);
      SlotsApart(x, y, l.RecordsPerBlock(), l.recordBytes, l.blockBytes);
    } else {
      var span := l.BlocksPerRecord() * l.blockBytes;
      ProductOrder(x, y, span);
      assert x * span == x * l.BlocksPerRecord() * l.blockBytes;
      assert y * span == y * l.BlocksPerRecord() * l.blockBytes;
    }
  }

  // ---------------------------------------------------------------- the append unit

  ghost predicate Divides(d: nat, x: nat)
    requires d > 0
  {
    x % d == 0
  }

  function Gcd(x: nat, y: nat): (g: nat)
    requires x > 0 || y > 0
    ensures g > 0
    decreases y
  {
    if y == 0 then x else Gcd(y, x % y)
  }

  lemma DividesTimes(d: nat, k: nat)
    requires d > 0
    ensures Divides(d, k * d)
  {
    QuotientIs(k * d, d, k);
  }

  lemma DividesSum(d: nat, x: nat, y: nat, k: nat)
    requires d > 0 && Divides(d, y)
    ensures Divides(d, x) <==> Divides(d, x + k * y)
  {
    var q := y / d;
    DivMod(y, d);
    DivMod(x, d);
    assert k * y == (k * q) * d by {
      assert k * (q * d) == (k * q) * d;
    }
    assert (x / d + k * q) * d == (x / d) * d + (k * q) * d;
    QuotientIs(x + k * y, d, x / d + k * q);
  }

  lemma GcdStep(x: nat, y: nat)
    ensures x > 0 ==> Gcd(x, 0) == x
    ensures y > 0 ==> Gcd(x, y) == Gcd(y, x % y)
  {}

  /** The common divisors of the two are the divisors of `Gcd`. */
  lemma {:induction false} GcdIsGreatest(x: nat, y: nat, d: nat)
    requires (x > 0 || y > 0) && d > 0
    ensures Divides(d, Gcd(x, y)) <==> Divides(d, x) && Divides(d, y)
    decreases y
  {
    hide Gcd, Divides;
    GcdStep(x, y);
    if y == 0 {
      DividesTimes(d, 0);
    } else {
      GcdIsGreatest(y, x % y, d);
      DivMod(x, y);
      if Divides(d, y) {
        DividesSum(d, x % y, y, x / y);
      }
    }
  }

  lemma GcdDivides(x: nat, y: nat)
    requires x > 0 || y > 0
    ensures Divides(Gcd(x, y), x) && Divides(Gcd(x, y), y)
  {
    var g := Gcd(x, y);
    DividesTimes(g, 1);
    GcdIsGreatest(x, y, g);
  }

  /** Bezout: the gcd as a difference of multiples. */
  lemma {:induction false} Bezout(x: nat, y: nat) returns (s: int, t: int)
    requires x > 0 || y > 0
    ensures s * x + t * y == Gcd(x, y)
    decreases y
  {
    hide Gcd;
    GcdStep(x, y);
    if y == 0 {
      s, t := 1, 0;
    } else {
      var s', t' := Bezout(y, x % y);
      s, t := t', s' - t' * (x / y);
      DivMod(x, y);
      BezoutStep(x, y, x / y, x % y, s', t');
    }
  }

  lemma BezoutStep(x: int, y: int, q: int, r: int, s: int, t: int)
    requires x == q * y + r
    ensures t * x + (s - t * q) * y == s * y + t * r
  {
    Spread(t, q * y, r);
    Distribute(s, -(t * q), y);
    assert t * (q * y) == (t * q) * y;
  }

  lemma Spread(t: int, a: int, b: int)
    ensures t * (a + b) == t * a + t * b
  {}

  /** The smallest run of ids that is a whole number of blocks in both regions. */
  function Unit(a: nat, b: nat): nat
    requires a > 0 && b > 0
  {
    a / Gcd(a, b) * b
  }

  /** The unit is the least common multiple: a common multiple, and it divides every other. */
  lemma UnitIsLeastCommonMultiple(a: nat, b: nat, n: nat)
    requires a > 0 && b > 0
    ensures Unit(a, b) > 0
    ensures Divides(Unit(a, b), n) <==> Divides(a, n) && Divides(b, n)
  {
    var g := Gcd(a, b);
    GcdDivides(a, b);
    var p, q := a / g, b / g;
    DivMod(a, g);
    DivMod(b, g);
    Cofactors(a, b, g, p, q);
    var u := Unit(a, b);
    if Divides(u, n) {
      MultipleOfUnit(u, a, q, n);
      MultipleOfUnit(u, b, p, n);
    }
    if Divides(a, n) && Divides(b, n) {
      var s, t := Bezout(a, b);
      CommonMultiple(a, b, g, p, n, s, t);
    }
  }

  lemma Cofactors(a: nat, b: nat, g: nat, p: nat, q: nat)
    requires a > 0 && b > 0 && g > 0 && a == p * g && b == q * g
    ensures p > 0 && q > 0 && p * b == q * a > 0
  {
    assert p * (q * g) == q * (p * g);
    ProductOrder(0, p, b);
  }

  lemma MultipleOfUnit(u: nat, a: nat, q: nat, n: nat)
    requires u > 0 && a > 0 && u == q * a && Divides(u, n)
    ensures Divides(a, n)
  {
    var k := n / u;
    DivMod(n, u);
    assert k * (q * a) == (k * q) * a;
    DividesTimes(a, k * q);
  }

  /** With `s * a + t * b == g`, a common multiple `n` has `n * g == (s * j + t * i) * a * b`. */
  lemma CommonMultiple(a: nat, b: nat, g: nat, p: nat, n: nat, s: int, t: int)
    requires a > 0 && b > 0 && g > 0 && a == p * g && s * a + t * b == g
    requires Divides(a, n) && Divides(b, n) && p * b > 0
    ensures Divides(p * b, n)
  {
    var i, j, u := n / a, n / b, p * b;
    DivMod(n, a);
    DivMod(n, b);
    var c := s * j + t * i;
    Swap(n, a, b, j);
    Swap(n, b, a, i);
    BezoutTimes(n, a, b, g, s, t, i, j);
    assert a * b == u * g by {
      assert (p * g) * b == (p * b) * g;
    }
    ShareFactor(c, u, g, n);
    SignOfFactor(c, u);
    DividesTimes(u, c);
  }

  lemma BezoutTimes(n: nat, a: nat, b: nat, g: nat, s: int, t: int, i: nat, j: nat)
    requires s * a + t * b == g && n * a == j * (a * b) && n * b == i * (a * b)
    ensures n * g == (s * j + t * i) * (a * b)
  {
    calc {
      n * g;
      n * (s * a) + n * (t * b);
      s * (n * a) + t * (n * b);
      s * (j * (a * b)) + t * (i * (a * b));
      (s * j) * (a * b) + (t * i) * (a * b);
    }
  }

  lemma ShareFactor(c: int, u: nat, g: nat, n: nat)
    requires g > 0 && n * g == c * (u * g)
    ensures n == c * u
  {
    assert c * (u * g) == (c * u) * g;
    CancelFactor(c * u, n, g);
  }

  lemma Swap(n: nat, a: nat, b: nat, j: nat)
    requires n == j * b
    ensures n * a == j * (a * b) == j * (b * a)
  {}

  lemma FactorApart(x: int, y: int, g: nat)
    requires g > 0 && x < y
    ensures x * g < y * g
  {
    Distribute(x, y - x, g);
    ProductOrder(1, y - x, g);
  }

  lemma CancelFactor(x: int, y: int, g: nat)
    requires g > 0 && x * g == y * g
    ensures x == y
  {
    if x < y {
      FactorApart(x, y, g);
    } else if y < x {
      FactorApart(y, x, g);
    }
  }

  lemma SignOfFactor(c: int, u: nat)
    requires u > 0 && c * u >= 0
    ensures c >= 0
  {}

  lemma UnitIs(a: nat, b: nat, g: nat)
    requires a > 0 && b > 0 && g == Gcd(a, b)
    ensures a / g * b == Unit(a, b)
  {
    hide Gcd;
  }

  /** `append_unit`: Euclid's loop, with a zero count clamped to one. */
  method AppendUnit(payloadPerBlock: nat, rerankPerBlock: nat) returns (unit: nat)
    ensures var a, b := if payloadPerBlock == 0 then 1 else payloadPerBlock, if rerankPerBlock == 0 then 1 else rerankPerBlock;
            unit == Unit(a, b)
  {
    hide Gcd, Unit;
    var a := if payloadPerBlock == 0 then 1 else payloadPerBlock;
    var b := if rerankPerBlock == 0 then 1 else rerankPerBlock;
    var x: nat, y: nat := a, b;
    while y != 0
      invariant x > 0 && Gcd(x, y) == Gcd(a, b)
      decreases y
    {
      GcdStep(x, y);
      x, y := y, x % y;
    }
    GcdStep(x, 0);
    UnitIs(a, b, x);
    unit := a / x * b;
  }
}
