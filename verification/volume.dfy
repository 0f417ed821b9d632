/** A volume image under a manifest: geometry, blocks and their CRC words, and the invariant. */
module Volumes {
  import opened Options
  import opened Flash
  import opened Codec
  import opened Region
  import opened Manifests
  import opened Arith
  import opened Layouts
  import Crc

  const CRC_BYTES: nat := 4

  // ---------------------------------------------------------------- geometry

  function PayloadBytes(m: Manifest): nat {
    m.m * m.b / 8
  }

  function RerankBytes(m: Manifest): nat {
    m.d * m.cbBytes
  }

  predicate HasRegions(t: RegionTable) {
    && Get(t, Payload).Some? && Get(t, PayloadCrc).Some?
    && Get(t, Rerank).Some? && Get(t, RerankCrc).Some?
  }

  /** Byte-wide codes, and record sizes that fill whole blocks, the code no wider than the record. */
  predicate Supported(m: Manifest) {
    && HasRegions(m.table)
    && m.b == 8
    && 0 < PayloadBytes(m) <= RerankBytes(m) <= BLOCK_BYTES
    && BLOCK_BYTES % PayloadBytes(m) == 0 && BLOCK_BYTES % RerankBytes(m) == 0
  }

  /** A data region with its parallel CRC array: `per` records of `width` bytes to a block. */
  datatype Area = Area(base: nat, crc: nat, blocks: nat, per: nat, width: nat)

  function PayloadArea(m: Manifest): (a: Area)
    requires Supported(m)
    ensures a.per > 0
  {
    SomePerBlock(PayloadBytes(m), BLOCK_BYTES);
    Area(Get(m.table, Payload).value.base, Get(m.table, PayloadCrc).value.base,
         Get(m.table, Payload).value.blocks, BLOCK_BYTES / PayloadBytes(m), PayloadBytes(m))
  }

  function RerankArea(m: Manifest): (a: Area)
    requires Supported(m)
    ensures a.per > 0
  {
    SomePerBlock(RerankBytes(m), BLOCK_BYTES);
    Area(Get(m.table, Rerank).value.base, Get(m.table, RerankCrc).value.base,
         Get(m.table, Rerank).value.blocks, BLOCK_BYTES / RerankBytes(m), RerankBytes(m))
  }

  /** A region that a data area and its CRC words fit. */
  predicate Holds512(data: RegionDesc, crc: RegionDesc) {
    data.blockBytes == BLOCK_BYTES && CRC_BYTES * data.blocks <= crc.ByteLen()
  }

  /** The manifest describes regions that lie past the slots, inside `size` bytes, apart. */
  predicate Laid(m: Manifest, size: nat) {
    && Supported(m) && m.Fits() && m.WellFormed()
    && MANIFEST_RESERVED_BYTES <= size
    && (forall i :: 0 <= i < |m.table| ==> MANIFEST_RESERVED_BYTES <= m.table[i].base && m.table[i].End() <= size)
    && Holds512(Get(m.table, Payload).value, Get(m.table, PayloadCrc).value)
    && Holds512(Get(m.table, Rerank).value, Get(m.table, RerankCrc).value)
  }

  // ---------------------------------------------------------------- widths are powers of two

  lemma Pow2Step(e: nat)
    ensures Pow2(0) == 1 && Pow2(e + 1) == 2 * Pow2(e)
  {}

  lemma {:induction false} Pow2Sum(a: nat, b: nat)
    ensures Pow2(a + b) == Pow2(a) * Pow2(b)
  {
    hide Pow2;
    Pow2Step(0);
    if a > 0 {
      Pow2Sum(a - 1, b);
      Pow2Step(a - 1);
      Pow2Step(a - 1 + b);
      DoubleProduct(Pow2(a - 1), Pow2(b));
    }
  }

  lemma DoubleProduct(x: nat, y: nat)
    ensures 2 * (x * y) == (2 * x) * y
  {}

  lemma EvenFactor(x: nat, y: nat, e: nat)
    requires x * y == Pow2(e) && x % 2 == 0
    ensures e > 0 && (x / 2) * y == Pow2(e - 1)
  {
    assert x == 2 * (x / 2);
    assert 2 * ((x / 2) * y) == x * y;
  }

  lemma {:induction false} DivisorsOfPow2(x: nat, y: nat, e: nat)
    requires x * y == Pow2(e)
    ensures exists i: nat :: i <= e && x == Pow2(i)
    decreases e
  {
    if x % 2 == 0 {
      EvenFactor(x, y, e);
      DivisorsOfPow2(x / 2, y, e - 1);
      var i: nat :| i <= e - 1 && x / 2 == Pow2(i);
      assert x == Pow2(i + 1);
    } else if y % 2 == 0 {
      EvenFactor(y, x, e);
      DivisorsOfPow2(x, y / 2, e - 1);
    } else {
      OddProduct(x / 2, y / 2);
      assert x == 2 * (x / 2) + 1 && y == 2 * (y / 2) + 1;
      FactorOfOne(x, y);
      assert x == Pow2(0);
    }
  }

  lemma OddProduct(i: nat, j: nat)
    ensures (2 * i + 1) * (2 * j + 1) == 2 * (2 * (i * j) + i + j) + 1
  {}

  lemma FactorOfOne(x: nat, y: nat)
    ensures x * y == 1 ==> x == 1
  {
    ProductOrder(1, x, y);
    ProductOrder(1, y, x);
  }

  lemma Pow2Grows(a: nat, b: nat)
    requires a < b
    ensures Pow2(a) < Pow2(b)
  {
    Pow2Sum(b - a, a);
    ProductOrder(1, Pow2(b - a), Pow2(a));
  }

  lemma Pow2Divides(a: nat, b: nat)
    requires Pow2(a) >= Pow2(b)
    ensures Pow2(a) % Pow2(b) == 0
  {
    if a < b {
      Pow2Grows(a, b);
    } else {
      Pow2Sum(a - b, b);
      DividesTimes(Pow2(b), Pow2(a - b));
    }
  }

  /** Rerank blocks per payload block. */
  function Ratio(m: Manifest): nat
    requires Supported(m)
  {
    PayloadArea(m).per / RerankArea(m).per
  }

  /** Records fill their blocks exactly, and a payload block covers a whole number of rerank blocks. */
  lemma WholeRatio(m: Manifest)
    requires Supported(m)
    ensures var p, r := PayloadArea(m), RerankArea(m);
            && p.per * p.width == BLOCK_BYTES && r.per * r.width == BLOCK_BYTES
            && p.per == Ratio(m) * r.per && Ratio(m) > 0 && p.per <= BLOCK_BYTES
  {
    var p, r := PayloadArea(m), RerankArea(m);
    DivMod(BLOCK_BYTES, p.width);
    DivMod(BLOCK_BYTES, r.width);
    assert Pow2(9) == BLOCK_BYTES by {
      assert Pow2(3) == 8;
      assert Pow2(6) == 64;
    }
    DivisorsOfPow2(p.per, p.width, 9);
    DivisorsOfPow2(r.per, r.width, 9);
    var i :| i <= 9 && p.per == Pow2(i);
    var j :| j <= 9 && r.per == Pow2(j);
    WiderMeansFewer(p.per, p.width, r.per, r.width);
    Pow2Divides(i, j);
    DivMod(p.per, r.per);
    ProductOrder(1, p.width, p.per);
    ProductOrder(Ratio(m), 1, r.per);
  }

  lemma WiderMeansFewer(a: nat, w: nat, b: nat, v: nat)
    requires a * w == b * v > 0 && w <= v
    ensures b <= a
  {
    ProductOrder(w, v, b);
    ProductOrder(a, b, w);
  }

  /** At a supported geometry the append unit is one payload block's worth of ids. */
  lemma UnitIsPayloadBlock(m: Manifest, count: nat)
    requires Supported(m)
    ensures var u := Unit(PayloadArea(m).per, RerankArea(m).per);
            && u > 0
            && (count % u == 0 <==> count % PayloadArea(m).per == 0)
  {
    hide Unit, Ratio;
    var p, r := PayloadArea(m).per, RerankArea(m).per;
    WholeRatio(m);
    UnitIsLeastCommonMultiple(p, r, count);
    if Divides(p, count) {
      DividesThrough(p, r, Ratio(m), count);
    }
  }

  lemma DividesThrough(p: nat, r: nat, k: nat, n: nat)
    requires p > 0 && r > 0 && p == k * r && Divides(p, n)
    ensures Divides(r, n)
  {
    DivMod(n, p);
    var q := n / p;
    assert q * (k * r) == (q * k) * r;
    DividesTimes(r, q * k);
  }

  // ---------------------------------------------------------------- blocks

  /** Block `b` of `a` and its CRC word are inside `size` bytes. */
  predicate Fits(a: Area, b: nat, size: nat) {
    b < a.blocks && a.base + BLOCK_BYTES * a.blocks <= size && a.crc + CRC_BYTES * a.blocks <= size
  }

  function BlockAddr(a: Area, b: nat): nat {
    a.base + BLOCK_BYTES * b
  }

  function CrcAddr(a: Area, b: nat): nat {
    a.crc + CRC_BYTES * b
  }

  function BlockAt(img: Bytes, a: Area, b: nat): (s: Bytes)
    requires Fits(a, b, |img|)
    ensures |s| == BLOCK_BYTES
  {
    Slice(img, BlockAddr(a, b), BLOCK_BYTES)
  }

  function CrcAt(img: Bytes, a: Area, b: nat): (s: Bytes)
    requires Fits(a, b, |img|)
    ensures |s| == CRC_BYTES
  {
    Slice(img, CrcAddr(a, b), CRC_BYTES)
  }

  /** The stored CRC word is the block's CRC. */
  predicate Sealed(img: Bytes, a: Area, b: nat)
    requires Fits(a, b, |img|)
  {
    CrcAt(img, a, b) == CrcBytes(Crc.Crc32(BlockAt(img, a, b)))
  }

  /** Neither the block nor its CRC word has been programmed. */
  predicate Unwritten(img: Bytes, a: Area, b: nat)
    requires Fits(a, b, |img|)
  {
    IsErased(BlockAt(img, a, b)) && IsErased(CrcAt(img, a, b))
  }

  /** Block `b`'s ids meet the built run or the appended run. */
  predicate Written(m: Manifest, per: nat, b: nat) {
    || b * per < m.builtN
    || (m.appendedFrom < m.n && m.appendedFrom < b * per + per && b * per < m.n)
  }

  /** A block is written exactly when it contains a held id. */
  lemma WrittenHoldsAnId(m: Manifest, per: nat, b: nat)
    requires per > 0
    ensures Written(m, per, b) <==> exists id: nat :: b * per <= id < b * per + per && m.Holds(id)
  {
    if b * per < m.builtN {
      assert m.Holds(b * per);
    } else if Written(m, per, b) {
      var id := if b * per < m.appendedFrom then m.appendedFrom else b * per;
      assert b * per <= id < b * per + per && m.Holds(id);
    }
  }

  /** A held id's block is written, and is inside the addressable extent. */
  lemma HeldBlockIsWritten(m: Manifest, per: nat, id: nat)
    requires per > 0 && m.RangeOrdered() && m.Holds(id)
    ensures Written(m, per, id / per) && (id / per) * per < m.n
  {
    DivMod(id, per);
  }

  lemma AreasFit(m: Manifest, size: nat)
    requires Laid(m, size)
    ensures var p, r := PayloadArea(m), RerankArea(m);
            && (forall b: nat | b < p.blocks :: Fits(p, b, size))
            && (forall b: nat | b < r.blocks :: Fits(r, b, size))
            && BLOCK_BYTES * p.blocks < U32_LIMIT && BLOCK_BYTES * r.blocks < U32_LIMIT
  {
    hide ValidateTable, Get;
    PastTheSlots(m, size, Payload);
    PastTheSlots(m, size, PayloadCrc);
    PastTheSlots(m, size, Rerank);
    PastTheSlots(m, size, RerankCrc);
    EndsBelow4G(m.table, Payload);
    EndsBelow4G(m.table, Rerank);
  }

  lemma EndsBelow4G(t: RegionTable, kind: RegionKind)
    requires ValidateTable(t).Ok? && Get(t, kind).Some?
    ensures Get(t, kind).value.End() < U32_LIMIT
  {
    hide ValidateTable, Overlapping;
    ValidTableIffDisjoint(t);
    GetIsListed(t, kind);
  }

  lemma {:induction false} GetIsListed(t: RegionTable, kind: RegionKind)
    requires Get(t, kind).Some?
    ensures exists i :: 0 <= i < |t| && t[i] == Get(t, kind).value
    decreases |t|
  {
    if t[0].kind == kind {
      assert t[0] == Get(t, kind).value;
    } else {
      GetIsListed(t[1..], kind);
      var i :| 0 <= i < |t[1..]| && t[1..][i] == Get(t[1..], kind).value;
      assert t[i + 1] == Get(t, kind).value;
    }
  }

  lemma RegionsApart(t: RegionTable, x: RegionKind, y: RegionKind)
    requires ValidateTable(t).Ok? && x != y && Get(t, x).Some? && Get(t, y).Some?
    ensures Apart(Get(t, x).value.base, Get(t, x).value.ByteLen(), Get(t, y).value.base, Get(t, y).value.ByteLen())
  {
    hide FirstOverlap, FirstInvalid, RegionDesc.Validate, ValidateTable;
    ValidTableIffDisjoint(t);
    GetIsListed(t, x);
    GetIsListed(t, y);
    var i :| 0 <= i < |t| && t[i] == Get(t, x).value;
    var j :| 0 <= j < |t| && t[j] == Get(t, y).value;
    if i < j {
      assert !Overlapping(t[i], t[j]);
    } else {
      assert j < i && !Overlapping(t[j], t[i]);
    }
  }

  /** Parts of two regions of a valid table. */
  lemma PartsApart(t: RegionTable, x: RegionKind, lx: nat, y: RegionKind, ly: nat)
    requires ValidateTable(t).Ok? && x != y && Get(t, x).Some? && Get(t, y).Some?
    requires lx <= Get(t, x).value.ByteLen() && ly <= Get(t, y).value.ByteLen()
    ensures Apart(Get(t, x).value.base, lx, Get(t, y).value.base, ly)
    ensures Apart(Get(t, y).value.base, ly, Get(t, x).value.base, lx)
  {
    hide ValidateTable, RegionDesc.ByteLen;
    RegionsApart(t, x, y);
  }

  /** Where an area keeps its blocks and its CRC words, clear of `[at, at + n)`. */
  predicate Clear(a: Area, at: nat, n: nat) {
    Apart(a.base, BLOCK_BYTES * a.blocks, at, n) && Apart(a.crc, CRC_BYTES * a.blocks, at, n)
  }

  lemma PastTheSlots(m: Manifest, size: nat, kind: RegionKind)
    requires Laid(m, size) && Get(m.table, kind).Some?
    ensures MANIFEST_RESERVED_BYTES <= Get(m.table, kind).value.base
    ensures Get(m.table, kind).value.End() <= size
  {
    GetIsListed(m.table, kind);
  }

  lemma ClearWithin(a: Area, base: nat, len: nat, x: nat, n: nat)
    requires Clear(a, base, len) && base <= x && x + n <= base + len
    ensures Clear(a, x, n)
  {}

  /** Areas that keep clear of each other's extents keep clear of each other's blocks. */
  lemma BlockClear(a: Area, other: Area, b: nat)
    requires Clear(other, a.base, BLOCK_BYTES * a.blocks) && Clear(other, a.crc, CRC_BYTES * a.blocks) && b < a.blocks
    ensures Clear(other, BlockAddr(a, b), BLOCK_BYTES) && Clear(other, CrcAddr(a, b), CRC_BYTES)
  {}

  lemma ClearSwaps(a: Area, other: Area)
    requires Clear(other, a.base, BLOCK_BYTES * a.blocks) && Clear(other, a.crc, CRC_BYTES * a.blocks)
    ensures Clear(a, other.base, BLOCK_BYTES * other.blocks) && Clear(a, other.crc, CRC_BYTES * other.blocks)
  {}

  /** The four extents and the two slots never share a byte. */
  lemma AreasApart(m: Manifest, size: nat)
    requires Laid(m, size)
    ensures var p, r := PayloadArea(m), RerankArea(m);
            && Apart(p.base, BLOCK_BYTES * p.blocks, p.crc, CRC_BYTES * p.blocks)
            && Apart(r.base, BLOCK_BYTES * r.blocks, r.crc, CRC_BYTES * r.blocks)
            && Clear(r, p.base, BLOCK_BYTES * p.blocks) && Clear(r, p.crc, CRC_BYTES * p.blocks)
            && Clear(p, SLOT_A, SECTOR_BYTES) && Clear(p, SLOT_B, SECTOR_BYTES)
            && Clear(r, SLOT_A, SECTOR_BYTES) && Clear(r, SLOT_B, SECTOR_BYTES)
  {
    hide ValidateTable, Get;
    var t, p, r := m.table, PayloadArea(m).blocks, RerankArea(m).blocks;
    var x, y := BLOCK_BYTES * p, BLOCK_BYTES * r;
    var u, v := CRC_BYTES * p, CRC_BYTES * r;
    PartsApart(t, Payload, x, PayloadCrc, u);
    PartsApart(t, Payload, x, Rerank, y);
    PartsApart(t, Payload, x, RerankCrc, v);
    PartsApart(t, PayloadCrc, u, Rerank, y);
    PartsApart(t, PayloadCrc, u, RerankCrc, v);
    PartsApart(t, Rerank, y, RerankCrc, v);
    PastTheSlots(m, size, Payload);
    PastTheSlots(m, size, PayloadCrc);
    PastTheSlots(m, size, Rerank);
    PastTheSlots(m, size, RerankCrc);
  }

  lemma AreasWithin(m: Manifest, size: nat)
    requires Laid(m, size)
    ensures MANIFEST_RESERVED_BYTES <= size
    ensures var p, r := PayloadArea(m), RerankArea(m);
            && p.base + BLOCK_BYTES * p.blocks <= size && p.crc + CRC_BYTES * p.blocks <= size
            && r.base + BLOCK_BYTES * r.blocks <= size && r.crc + CRC_BYTES * r.blocks <= size
  {
    hide ValidateTable, Get;
    PastTheSlots(m, size, Payload);
    PastTheSlots(m, size, PayloadCrc);
    PastTheSlots(m, size, Rerank);
    PastTheSlots(m, size, RerankCrc);
  }

  lemma LaidIsSupported(m: Manifest, size: nat)
    requires Laid(m, size)
    ensures Supported(m) && m.RangeOrdered() && |m.table| == REGION_COUNT
  {}

  // ---------------------------------------------------------------- the mounted manifest

  function SlotBytes(img: Bytes, at: nat): (s: Bytes)
    requires at + SECTOR_BYTES <= |img|
    ensures |s| == SECTOR_BYTES
  {
    Slice(img, at, SECTOR_BYTES)
  }

  /** What mounting selects. */
  function Mounted(img: Bytes): Result<Manifest, ManifestError>
    requires MANIFEST_RESERVED_BYTES <= |img|
  {
    Select(SlotBytes(img, SLOT_A), SlotBytes(img, SLOT_B))
  }

  /** The live manifest sits in the slot of its parity, and mounting selects it. */
  predicate Installed(img: Bytes, m: Manifest)
    requires MANIFEST_RESERVED_BYTES <= |img|
  {
    Decode(SlotBytes(img, SlotOf(m.sequence))) == Ok(m) && Mounted(img) == Ok(m)
  }

  /** Mounting prefers `x`, read from the slot the next install writes, to the live manifest. */
  predicate Outranks(x: Manifest, live: Manifest) {
    x.sequence > live.sequence || (x.sequence == live.sequence && NextSlotOffset(live.sequence) == SLOT_A)
  }

  /** With a live manifest in its slot, mounting takes the other slot's only if that one outranks it. */
  lemma MountedIs(img: Bytes, m: Manifest)
    requires MANIFEST_RESERVED_BYTES <= |img| && Decode(SlotBytes(img, SlotOf(m.sequence))) == Ok(m)
    ensures var other := Decode(SlotBytes(img, NextSlotOffset(m.sequence)));
            Mounted(img) == if other.Ok? && Outranks(other.value, m) then other else Ok(m)
  {
    hide Decode;
  }

  // ---------------------------------------------------------------- the invariant

  /** Every block with a held id is inside its region and carries its CRC. */
  ghost predicate HeldSealed(img: Bytes, m: Manifest, a: Area) {
    forall b: nat | Written(m, a.per, b) :: Fits(a, b, |img|) && Sealed(img, a, b)
  }

  /** Every block with a held id is inside its region. */
  ghost predicate HeldInside(m: Manifest, a: Area, size: nat) {
    forall b: nat | Written(m, a.per, b) :: Fits(a, b, size)
  }

  lemma SealedIsInside(img: Bytes, m: Manifest, a: Area)
    requires HeldSealed(img, m, a)
    ensures HeldInside(m, a, |img|)
  {
    hide Written, Sealed;
  }

  /** From block `h` on, neither blocks nor CRC words have been programmed. */
  ghost predicate UnwrittenFrom(img: Bytes, a: Area, h: nat) {
    forall b: nat | h <= b < a.blocks :: Fits(a, b, |img|) && Unwritten(img, a, b)
  }

  /** No block below `h` looks erased. */
  ghost predicate UsedBelow(img: Bytes, a: Area, h: nat) {
    forall b: nat | b < h :: Fits(a, b, |img|) && !IsErased(BlockAt(img, a, b))
  }

  function RatioTimes(m: Manifest, h: nat): nat
    requires Supported(m)
  {
    NonNegativeProduct(h, Ratio(m));
    h * Ratio(m)
  }

  /** Payload block `h` is the append head: past every id, used below, untouched from there on, in both regions. */
  ghost predicate Frontier(img: Bytes, m: Manifest, h: nat)
    requires Supported(m)
  {
    && h <= PayloadArea(m).blocks && m.n <= h * PayloadArea(m).per
    && UsedBelow(img, PayloadArea(m), h)
    && UnwrittenFrom(img, PayloadArea(m), h)
    && UnwrittenFrom(img, RerankArea(m), RatioTimes(m, h))
  }

  /** The ids between the runs end on a block boundary; until something is appended there are none. */
  predicate GapAligned(m: Manifest)
    requires Supported(m)
  {
    if m.appendedFrom < m.n then m.appendedFrom % PayloadArea(m).per == 0 else m.builtN == m.appendedFrom
  }

  /** What every append starts from and leaves, wherever it stops; `h` is the append head. */
  ghost predicate Usable(img: Bytes, m: Manifest, h: nat) {
    && Laid(m, |img|) && GapAligned(m)
    && Installed(img, m)
    && HeldInside(m, PayloadArea(m), |img|) && HeldInside(m, RerankArea(m), |img|)
    && Frontier(img, m, h)
  }

  /** Usable, and every block with a held id carries its CRC. */
  ghost predicate Sound(img: Bytes, m: Manifest, h: nat) {
    && Usable(img, m, h)
    && HeldSealed(img, m, PayloadArea(m)) && HeldSealed(img, m, RerankArea(m))
  }

  lemma SameBlockSameState(img: Bytes, now: Bytes, a: Area, b: nat)
    requires |now| == |img| && Fits(a, b, |img|)
    requires BlockAt(now, a, b) == BlockAt(img, a, b) && CrcAt(now, a, b) == CrcAt(img, a, b)
    ensures Unwritten(now, a, b) <==> Unwritten(img, a, b)
    ensures Sealed(now, a, b) <==> Sealed(img, a, b)
  {}

  lemma UnwrittenLater(img: Bytes, a: Area, x: nat, y: nat)
    requires UnwrittenFrom(img, a, x) && x <= y
    ensures UnwrittenFrom(img, a, y)
  {}

  lemma UnwrittenEach(img: Bytes, a: Area, h: nat)
    requires UnwrittenFrom(img, a, h)
    ensures forall b: nat | h <= b < a.blocks :: Fits(a, b, |img|) && Unwritten(img, a, b)
  {
    hide Unwritten;
  }

  // ---------------------------------------------------------------- reading an id

  function RecordAddr(a: Area, id: nat): nat
    requires a.per > 0
  {
    a.base + SlotOffset(id, a.per, a.width, BLOCK_BYTES)
  }

  /** Record `id` is a slice of its block. */
  lemma RecordInBlock(a: Area, id: nat, size: nat)
    requires a.per > 0 && a.per * a.width <= BLOCK_BYTES && Fits(a, Quotient(id, a.per), size)
    ensures BlockAddr(a, Quotient(id, a.per)) <= RecordAddr(a, id)
    ensures RecordAddr(a, id) + a.width <= BlockAddr(a, Quotient(id, a.per)) + BLOCK_BYTES <= size
  {
    DivMod(id, a.per);
    SlotFits(id % a.per, a.per, a.width, BLOCK_BYTES);
    ProductOrder(Quotient(id, a.per), a.blocks, BLOCK_BYTES);
  }

  /** The bytes flash holds for `id`. */
  function RecordAt(img: Bytes, a: Area, id: nat): (s: Bytes)
    requires a.per > 0 && a.per * a.width <= BLOCK_BYTES && Fits(a, Quotient(id, a.per), |img|)
    ensures |s| == a.width
  {
    RecordInBlock(a, id, |img|);
    Slice(img, RecordAddr(a, id), a.width)
  }

  /** Images with the same block hold the same records in it. */
  lemma SameBlockSameRecord(img: Bytes, now: Bytes, a: Area, id: nat)
    requires a.per > 0 && a.per * a.width <= BLOCK_BYTES && Fits(a, Quotient(id, a.per), |img|) && |now| == |img|
    requires BlockAt(now, a, Quotient(id, a.per)) == BlockAt(img, a, Quotient(id, a.per))
    ensures RecordAt(now, a, id) == RecordAt(img, a, id)
  {
    hide Slice;
    RecordInBlock(a, id, |img|);
    var at := BlockAddr(a, Quotient(id, a.per));
    SliceOfSlice(img, at, BLOCK_BYTES, RecordAddr(a, id) - at, a.width);
    SliceOfSlice(now, at, BLOCK_BYTES, RecordAddr(a, id) - at, a.width);
  }

  /** ... at its slot in the block. */
  lemma RecordIsSlice(img: Bytes, a: Area, id: nat)
    requires a.per > 0 && a.per * a.width <= BLOCK_BYTES && Fits(a, Quotient(id, a.per), |img|)
    ensures 0 <= (id % a.per) * a.width && (id % a.per) * a.width + a.width <= BLOCK_BYTES
    ensures Slice(BlockAt(img, a, Quotient(id, a.per)), (id % a.per) * a.width, a.width) == RecordAt(img, a, id)
  {
    DivMod(id, a.per);
    SlotFits(id % a.per, a.per, a.width, BLOCK_BYTES);
    NonNegativeProduct(id % a.per, a.width);
    RecordInBlock(a, id, |img|);
    SliceOfSlice(img, BlockAddr(a, Quotient(id, a.per)), BLOCK_BYTES, (id % a.per) * a.width, a.width);
  }
}
