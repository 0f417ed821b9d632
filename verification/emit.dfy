/** Laying out a complete volume image: regions, codebook copies, blocks and CRC words, the manifest. */
module Emit {
  import opened Options
  import opened Flash
  import opened Codec
  import opened Region
  import opened Manifests
  import opened Arith
  import opened Layouts
  import opened Volumes
  import Crc

  datatype EmitError = BadManifest(manifest: ManifestError) | BadTable(region: RegionError)

  // ---------------------------------------------------------------- write_at, write_blocks

  /** Writes that would run past the end are skipped. */
  function WriteAt(img: Bytes, at: nat, data: Bytes): (r: Bytes)
    ensures |r| == |img|
  {
    if at + |data| <= |img| then Write(img, at, data) else img
  }

  method WriteInto(out: array<bv8>, at: nat, data: Bytes)
    modifies out
    ensures out[..] == WriteAt(old(out[..]), at, data)
  {
    if at + |data| <= out.Length {
      CopyInto(out, at, data);
    }
  }

  /** Record `i`, when the data reaches that far. */
  predicate HasRecord(records: Bytes, width: nat, i: nat) {
    i * width + width <= |records|
  }

  function RecordOf(records: Bytes, width: nat, i: nat): (s: Bytes)
    requires HasRecord(records, width, i)
    ensures |s| == width
  {
    records[i * width..i * width + width]
  }

  /** Where slot `slot` of block `b` starts, and the id it holds. */
  function SlotAddr(a: Area, b: nat, slot: nat): nat {
    NonNegativeProduct(slot, a.width);
    BlockAddr(a, b) + slot * a.width
  }

  function IdAt(a: Area, b: nat, slot: nat): nat {
    NonNegativeProduct(b, a.per);
    b * a.per + slot
  }

  /** The slots of block `b` from `slot` on, until the records run out. */
  function FillSlots(img: Bytes, a: Area, records: Bytes, b: nat, slot: nat): (r: Bytes)
    requires slot <= a.per
    ensures |r| == |img|
    decreases a.per - slot
  {
    if slot == a.per || !HasRecord(records, a.width, IdAt(a, b, slot)) then img
    else FillSlots(WriteAt(img, SlotAddr(a, b, slot), RecordOf(records, a.width, IdAt(a, b, slot))), a, records, b, slot + 1)
  }

  /** One block and the CRC of what it holds; a block past the end has CRC zero. */
  function FillBlock(img: Bytes, a: Area, records: Bytes, b: nat): (r: Bytes)
    ensures |r| == |img|
  {
    var filled := FillSlots(img, a, records, b, 0);
    WriteAt(filled, CrcAddr(a, b), CrcBytes(StoredCrc(filled, BlockAddr(a, b))))
  }

  function StoredCrc(img: Bytes, at: nat): bv32 {
    if at + BLOCK_BYTES <= |img| then Crc.Crc32(Slice(img, at, BLOCK_BYTES)) else 0
  }

  function FillBlocks(img: Bytes, a: Area, records: Bytes, b: nat, blocks: nat): (r: Bytes)
    requires b <= blocks
    ensures |r| == |img|
    decreases blocks - b
  {
    if b == blocks then img else FillBlocks(FillBlock(img, a, records, b), a, records, b + 1, blocks)
  }

  method WriteSlots(out: array<bv8>, a: Area, records: Bytes, b: nat)
    modifies out
    ensures out[..] == FillSlots(old(out[..]), a, records, b, 0)
  {
    hide WriteAt, HasRecord, RecordOf;
    var slot := 0;
    while slot < a.per
      invariant 0 <= slot <= a.per
      invariant FillSlots(out[..], a, records, b, slot) == FillSlots(old(out[..]), a, records, b, 0)
    {
      if !HasRecord(records, a.width, IdAt(a, b, slot)) {
        break;
      }
      WriteInto(out, SlotAddr(a, b, slot), RecordOf(records, a.width, IdAt(a, b, slot)));
      slot := slot + 1;
    }
  }

  method WriteBlocks(out: array<bv8>, a: Area, records: Bytes, blocks: nat)
    modifies out
    ensures out[..] == FillBlocks(old(out[..]), a, records, 0, blocks)
  {
    hide WriteAt, FillSlots, CrcBytes, Crc.Crc32;
    var b := 0;
    while b < blocks
      invariant 0 <= b <= blocks
      invariant FillBlocks(out[..], a, records, b, blocks) == FillBlocks(old(out[..]), a, records, 0, blocks)
    {
      WriteSlots(out, a, records, b);
      var crc: bv32 := 0;
      if BlockAddr(a, b) + BLOCK_BYTES <= out.Length {
        crc := Crc.Crc32(out[BlockAddr(a, b)..BlockAddr(a, b) + BLOCK_BYTES]);
        SliceOfArray(out[..], BlockAddr(a, b), out[BlockAddr(a, b)..BlockAddr(a, b) + BLOCK_BYTES]);
      }
      WriteInto(out, CrcAddr(a, b), CrcBytes(crc));
      b := b + 1;
    }
  }

  lemma SliceOfArray(img: Bytes, at: nat, s: Bytes)
    requires at + BLOCK_BYTES <= |img| && s == img[at..at + BLOCK_BYTES]
    ensures Slice(img, at, BLOCK_BYTES) == s
  {}

  // ---------------------------------------------------------------- the layout

  function Sectors(bytes: nat): (s: nat)
    ensures bytes <= s && s % SECTOR_BYTES == 0
  {
    CeilDiv(bytes, SECTOR_BYTES) * SECTOR_BYTES
  }

  /** Records of this width to a block; none if they are wider. */
  function PerBlock(width: nat): nat {
    BLOCK_BYTES / AtLeastOne(width)
  }

  function AtLeastOne(x: nat): (y: nat)
    ensures y > 0
  {
    if x == 0 then 1 else x
  }

  /** Blocks for `count` records: packed, or each in blocks of its own when wider than one. */
  function RecordBlocks(count: nat, width: nat): nat {
    if width <= BLOCK_BYTES then CeilDiv(count, AtLeastOne(PerBlock(width)))
    else
      NonNegativeProduct(count, CeilDiv(width, BLOCK_BYTES));
      count * CeilDiv(width, BLOCK_BYTES)
  }

  /** Everything needed to lay out an image; `k` centroids to a subspace. */
  datatype Image = Image(codebook: Bytes, k: nat, m: nat, codes: Bytes, rerank: Bytes,
                         n: nat, d: nat, r: nat, copies: nat, reserve: nat)
  {
    predicate Valid() {
      k > 0 && r < U32_LIMIT
    }

    /** Where a first append would start. */
    function AppendHead(): (h: nat)
      ensures n <= h
    {
      UnitIsLeastCommonMultiple(AtLeastOne(PerBlock(m)), AtLeastOne(PerBlock(d)), 0);
      var unit := Unit(AtLeastOne(PerBlock(m)), AtLeastOne(PerBlock(d)));
      if reserve == 0 then n else CeilDiv(n, unit) * unit
    }

    function Capacity(): nat {
      AppendHead() + reserve
    }

    function PayloadBlocks(): nat {
      CeilDiv(Capacity(), AtLeastOne(PerBlock(m)))
    }

    function RerankBlocks(): nat {
      RecordBlocks(Capacity(), d)
    }

    function CodebookExtent(): nat {
      Sectors(|codebook|)
    }

    /** The six extents, in table order. */
    function Extents(): (s: seq<nat>)
      ensures |s| == REGION_COUNT && forall i :: 0 <= i < REGION_COUNT ==> s[i] % SECTOR_BYTES == 0
    {
      WholeCopies(CodebookExtent(), if copies > 0 then copies - 1 else 0);
      [CodebookExtent(),
       CodebookExtent() * (if copies > 0 then copies - 1 else 0),
       Sectors(PayloadBlocks() * BLOCK_BYTES),
       Sectors(PayloadBlocks() * CRC_BYTES),
       Sectors(RerankBlocks() * BLOCK_BYTES),
       Sectors(RerankBlocks() * CRC_BYTES)]
    }
  }

  lemma WholeCopies(extent: nat, copies: nat)
    requires extent % SECTOR_BYTES == 0
    ensures extent * copies >= 0 && (extent * copies) % SECTOR_BYTES == 0
  {
    var q := extent / SECTOR_BYTES;
    DivMod(extent, SECTOR_BYTES);
    assert extent * copies == (q * copies) * SECTOR_BYTES;
    NonNegativeProduct(q, copies);
    QuotientIs(extent * copies, SECTOR_BYTES, q * copies);
  }

  const KINDS: seq<RegionKind> := [Codebook, CodebookReplica, Payload, PayloadCrc, Rerank, RerankCrc]

  /** The base of region `i`: the slots, then the extents before it. */
  function BaseOf(extents: seq<nat>, i: nat): (b: nat)
    requires i <= |extents|
    ensures b >= MANIFEST_RESERVED_BYTES
  {
    if i == 0 then MANIFEST_RESERVED_BYTES else BaseOf(extents, i - 1) + extents[i - 1]
  }

  /** Bases and block counts are stored in 32 bits. */
  function RegionAt(extents: seq<nat>, i: nat): RegionDesc
    requires i < REGION_COUNT == |extents|
  {
    RegionDesc(KINDS[i], if i < 2 then Replicate else Detect,
               BaseOf(extents, i) % U32_LIMIT, BLOCK_BYTES, (extents[i] / BLOCK_BYTES) % U32_LIMIT)
  }

  function TableOf(extents: seq<nat>): (t: RegionTable)
    requires |extents| == REGION_COUNT
    ensures |t| == REGION_COUNT
  {
    seq(REGION_COUNT, i requires 0 <= i < REGION_COUNT => RegionAt(extents, i))
  }

  method LayOut(extents: seq<nat>) returns (table: RegionTable, base: nat)
    requires |extents| == REGION_COUNT
    ensures table == TableOf(extents) && base == BaseOf(extents, REGION_COUNT)
  {
    base := MANIFEST_RESERVED_BYTES;
    table := [];
    var i := 0;
    while i < REGION_COUNT
      invariant 0 <= i <= REGION_COUNT && |table| == i
      invariant base == BaseOf(extents, i)
      invariant forall j :: 0 <= j < i ==> table[j] == RegionAt(extents, j)
    {
      table := table + [RegionDesc(KINDS[i], if i < 2 then Replicate else Detect,
                                   base % U32_LIMIT, BLOCK_BYTES, (extents[i] / BLOCK_BYTES) % U32_LIMIT)];
      base := base + extents[i];
      i := i + 1;
    }
    assert table == TableOf(extents);
  }

  function TrailingZeros(k: nat): nat
    requires k > 0
  {
    if k % 2 == 1 then 0 else 1 + TrailingZeros(k / 2)
  }

  /** The manifest of a fresh build: sequence one, nothing appended. */
  function ManifestOf(image: Image): (m: Manifest)
    requires image.Valid()
    ensures |m.table| == REGION_COUNT
  {
    Manifest(1, image.d % U16_LIMIT, image.m % U16_LIMIT, TrailingZeros(image.k) % U16_LIMIT, 1,
             image.n % U32_LIMIT, image.r, image.n % U32_LIMIT, image.n % U32_LIMIT, TableOf(image.Extents()))
  }

  // ---------------------------------------------------------------- the image

  /** The codebook's copies from `c` on, after the first. */
  function FillCopies(img: Bytes, at: nat, cb: Bytes, extent: nat, c: nat, copies: nat): (r: Bytes)
    requires c >= 1
    ensures |r| == |img|
    decreases copies - c
  {
    NonNegativeProduct(c - 1, extent);
    if c >= copies then img
    else FillCopies(WriteAt(img, at + (c - 1) * extent, cb), at, cb, extent, c + 1, copies)
  }

  function PayloadOf(image: Image): Area
    requires image.Valid()
  {
    var t := TableOf(image.Extents());
    Area(t[2].base, t[3].base, t[2].blocks, PerBlock(image.m), image.m)
  }

  function RerankOf(image: Image): Area
    requires image.Valid()
  {
    var t := TableOf(image.Extents());
    Area(t[4].base, t[5].base, t[4].blocks, AtLeastOne(PerBlock(image.d)), image.d)
  }

  function BuiltPayload(image: Image): nat
    requires image.Valid()
  {
    CeilDiv(image.n, AtLeastOne(PerBlock(image.m)))
  }

  function BuiltRerank(image: Image): nat
    requires image.Valid()
  {
    RecordBlocks(image.n, image.d)
  }

  function WithCodebook(image: Image): (r: Bytes)
    requires image.Valid()
    ensures |r| == BaseOf(image.Extents(), REGION_COUNT)
  {
    var t := TableOf(image.Extents());
    var blank := Blank(BaseOf(image.Extents(), REGION_COUNT));
    FillCopies(WriteAt(blank, t[0].base, image.codebook), t[1].base, image.codebook, image.CodebookExtent(), 1, image.copies)
  }

  /** Every byte `emit` lays down: codebook, payload, rerank, and the manifest last. */
  function Emitted(image: Image): (r: Bytes)
    requires image.Valid()
    ensures |r| == BaseOf(image.Extents(), REGION_COUNT)
  {
    var payload := FillBlocks(WithCodebook(image), PayloadOf(image), image.codes, 0, BuiltPayload(image));
    var rerank := FillBlocks(payload, RerankOf(image), image.rerank, 0, BuiltRerank(image));
    WriteAt(rerank, SLOT_A, Encoded(ManifestOf(image)))
  }

  method WriteCopies(out: array<bv8>, at: nat, cb: Bytes, extent: nat, copies: nat)
    modifies out
    ensures out[..] == FillCopies(old(out[..]), at, cb, extent, 1, copies)
  {
    hide WriteAt;
    var c := 1;
    while c < copies
      invariant c >= 1
      invariant FillCopies(out[..], at, cb, extent, c, copies) == FillCopies(old(out[..]), at, cb, extent, 1, copies)
    {
      NonNegativeProduct(c - 1, extent);
      WriteInto(out, at + (c - 1) * extent, cb);
      c := c + 1;
    }
  }

  datatype EmitReport = EmitReport(bytes: nat, n: nat, payloadBlocks: nat, rerankBlocks: nat, codebookCopies: nat)

  /** `emit`: everything the manifest points at first, the manifest last. */
  method EmitImage(image: Image) returns (r: Result<EmitReport, EmitError>, out: array<bv8>)
    requires image.Valid()
    ensures fresh(out)
    ensures match ValidateTable(TableOf(image.Extents()))
            case Err(e) => r == Err(BadTable(e))
            case Ok(_) =>
              && out[..] == Emitted(image)
              && r == Ok(EmitReport(|Emitted(image)|, image.n % U32_LIMIT, image.PayloadBlocks() % U32_LIMIT,
                                    image.RerankBlocks() % U32_LIMIT, image.copies))
  {
    hide WriteAt, FillBlocks, FillCopies, ValidateTable, TableOf, BaseOf, Encoded, CeilDiv, TrailingZeros, Sectors,
      Blank;
    var extents := image.Extents();
    var table, base := LayOut(extents);
    match ValidateTable(table) {
      case Err(e) =>
        out := new bv8[0];
        return Err(BadTable(e)), out;
      case Ok(_) =>
    }
    out := new bv8[base](_ => ERASED_BYTE);
    assert out[..] == Blank(base);
    WriteInto(out, table[0].base, image.codebook);
    WriteCopies(out, table[1].base, image.codebook, image.CodebookExtent(), image.copies);
    WriteBlocks(out, PayloadOf(image), image.codes, BuiltPayload(image));
    WriteBlocks(out, RerankOf(image), image.rerank, BuiltRerank(image));
    var slot := new bv8[MANIFEST_BYTES];
    var encoded := Encode(ManifestOf(image), slot);
    WholeSlot(slot[..], ManifestOf(image));
    WriteInto(out, SLOT_A, slot[..]);
    return Ok(EmitReport(base, image.n % U32_LIMIT, image.PayloadBlocks() % U32_LIMIT,
                         image.RerankBlocks() % U32_LIMIT, image.copies)), out;
  }

  lemma WholeSlot(slot: Bytes, m: Manifest)
    requires |slot| == MANIFEST_BYTES && |m.table| == REGION_COUNT
    ensures forall was: Bytes :: |was| == MANIFEST_BYTES && slot == Write(was, 0, Encoded(m)) ==> slot == Encoded(m)
  {
    hide Encoded;
  }

  // ---------------------------------------------------------------- the table it lays out

  lemma {:induction false} BasesRise(extents: seq<nat>, i: nat, j: nat)
    requires i <= j <= |extents|
    ensures BaseOf(extents, i) <= BaseOf(extents, j)
    ensures i < j ==> BaseOf(extents, i) + extents[i] <= BaseOf(extents, j)
    decreases j
  {
    if i < j {
      BasesRise(extents, i, j - 1);
    }
  }

  lemma {:induction false} BasesAligned(extents: seq<nat>, i: nat)
    requires i <= |extents| && forall k :: 0 <= k < |extents| ==> extents[k] % SECTOR_BYTES == 0
    ensures BaseOf(extents, i) % SECTOR_BYTES == 0
  {
    if i > 0 {
      BasesAligned(extents, i - 1);
    }
  }

  /** In an image under 4 GiB every region is stored as laid out. */
  lemma RegionExact(extents: seq<nat>, i: nat)
    requires |extents| == REGION_COUNT && i < REGION_COUNT
    requires forall k :: 0 <= k < |extents| ==> extents[k] % SECTOR_BYTES == 0
    requires BaseOf(extents, REGION_COUNT) < U32_LIMIT
    ensures var d := TableOf(extents)[i];
            && d.kind == KINDS[i] && d.blockBytes == BLOCK_BYTES
            && d.base == BaseOf(extents, i) && d.ByteLen() == extents[i] && d.End() == BaseOf(extents, i) + extents[i]
            && d.End() <= BaseOf(extents, REGION_COUNT)
            && d.Validate().Ok? && d.Fits()
  {
    hide BaseOf;
    BasesRise(extents, i, REGION_COUNT);
    BasesAligned(extents, i);
    BlocksOf(extents[i]);
    assert TableOf(extents)[i] == RegionDesc(KINDS[i], if i < 2 then Replicate else Detect, BaseOf(extents, i), BLOCK_BYTES, extents[i] / BLOCK_BYTES);
  }

  /** Whole sectors are whole blocks. */
  lemma BlocksOf(extent: nat)
    requires extent % SECTOR_BYTES == 0
    ensures (extent / BLOCK_BYTES) * BLOCK_BYTES == extent && extent / BLOCK_BYTES <= extent
  {
    DivMod(extent, SECTOR_BYTES);
    QuotientIs(extent, BLOCK_BYTES, 8 * (extent / SECTOR_BYTES));
  }

  /** Copies guard the codebook, detection everything else. */
  lemma Protected(extents: seq<nat>, i: nat)
    requires |extents| == REGION_COUNT && i < REGION_COUNT
    ensures var d := TableOf(extents)[i];
            d.protection == match d.kind case Codebook | CodebookReplica => Replicate case _ => Detect
  {
    hide BaseOf;
  }

  /** The table of an image under 4 GiB: sector-aligned, disjoint, past the slots, inside the image. */
  lemma TableIsValid(extents: seq<nat>)
    requires |extents| == REGION_COUNT
    requires forall k :: 0 <= k < |extents| ==> extents[k] % SECTOR_BYTES == 0
    requires BaseOf(extents, REGION_COUNT) < U32_LIMIT
    ensures var t := TableOf(extents);
            && ValidateTable(t).Ok? && TableFits(t)
            && forall i :: 0 <= i < REGION_COUNT ==>
                 && t[i].base % SECTOR_BYTES == 0 && MANIFEST_RESERVED_BYTES <= t[i].base
                 && t[i].End() <= BaseOf(extents, REGION_COUNT)
                 && t[i].protection == (match t[i].kind case Codebook | CodebookReplica => Replicate case _ => Detect)
  {
    hide BaseOf, ValidateTable, TableOf, RegionDesc.Validate;
    var t := TableOf(extents);
    forall i | 0 <= i < REGION_COUNT
      ensures t[i].Validate().Ok? && t[i].Fits() && t[i].base == BaseOf(extents, i) && t[i].End() == BaseOf(extents, i) + extents[i]
      ensures t[i].base % SECTOR_BYTES == 0 && t[i].End() <= BaseOf(extents, REGION_COUNT)
      ensures t[i].protection == (match t[i].kind case Codebook | CodebookReplica => Replicate case _ => Detect)
    {
      Protected(extents, i);
      RegionExact(extents, i);
      BasesAligned(extents, i);
    }
    forall a, b | 0 <= a < b < REGION_COUNT
      ensures !Overlapping(t[a], t[b])
    {
      BasesRise(extents, a, b);
    }
    ValidTableIffDisjoint(t);
  }

  // ---------------------------------------------------------------- what write_blocks leaves

  /** The ids of block `b`, cut off at `count`. */
  function LastOf(b: nat, per: nat, count: nat): nat {
    NonNegativeProduct(b, per);
    if b * per + per < count then b * per + per else count
  }

  lemma RecordInRange(records: Bytes, width: nat, count: nat, i: nat)
    requires width > 0 && |records| == count * width
    ensures HasRecord(records, width, i) <==> i < count
  {
    ProductOrder(i, count, width);
    ProductOrder(count, i, width);
  }

  /** Records `[from, upto)`, one after the other. */
  function Span(records: Bytes, width: nat, from: nat, upto: nat): (s: Bytes)
    requires from <= upto && upto * width <= |records|
    ensures |s| == (upto - from) * width
  {
    ProductOrder(from, upto, width);
    Distribute(from, upto - from, width);
    records[from * width..upto * width]
  }

  lemma SpanCons(records: Bytes, width: nat, from: nat, upto: nat)
    requires from < upto && upto * width <= |records| && HasRecord(records, width, from)
    ensures RecordOf(records, width, from) + Span(records, width, from + 1, upto) == Span(records, width, from, upto)
  {
    ProductOrder(from, upto, width);
    Distribute(from, 1, width);
  }

  lemma SpanFits(records: Bytes, count: nat, a: Area, b: nat, slot: nat, size: nat)
    requires a.per * a.width <= BLOCK_BYTES && BlockAddr(a, b) + BLOCK_BYTES <= size && |records| == count * a.width
    requires slot <= a.per && IdAt(a, b, slot) <= LastOf(b, a.per, count)
    ensures LastOf(b, a.per, count) * a.width <= |records|
    ensures SlotAddr(a, b, slot) + |Span(records, a.width, IdAt(a, b, slot), LastOf(b, a.per, count))| <= BlockAddr(a, b) + BLOCK_BYTES
    ensures IdAt(a, b, slot) < LastOf(b, a.per, count) ==> slot < a.per
  {
    var last := LastOf(b, a.per, count);
    ProductOrder(last, count, a.width);
    Distribute(slot, last - IdAt(a, b, slot), a.width);
    ProductOrder(slot + (last - IdAt(a, b, slot)), a.per, a.width);
  }

  /** The slots of a block, filled: the records of its ids, one after the other. */
  lemma {:induction false} FillSlotsIs(img: Bytes, a: Area, records: Bytes, count: nat, b: nat, slot: nat)
    requires a.width > 0 && a.per * a.width <= BLOCK_BYTES && BlockAddr(a, b) + BLOCK_BYTES <= |img|
    requires |records| == count * a.width && slot <= a.per && IdAt(a, b, slot) <= LastOf(b, a.per, count)
    requires LastOf(b, a.per, count) * a.width <= |records|
    ensures var data := Span(records, a.width, IdAt(a, b, slot), LastOf(b, a.per, count));
            && SlotAddr(a, b, slot) + |data| <= BlockAddr(a, b) + BLOCK_BYTES
            && FillSlots(img, a, records, b, slot) == Write(img, SlotAddr(a, b, slot), data)
    decreases a.per - slot
  {
    hide Write, BlockAddr, SlotAddr, Span, LastOf, RecordOf, HasRecord;
    var id, last := IdAt(a, b, slot), LastOf(b, a.per, count);
    SpanFits(records, count, a, b, slot, |img|);
    RecordInRange(records, a.width, count, id);
    LastIsBelow(b, a.per, count, slot, id);
    if id == last {
      WriteNothing(img, SlotAddr(a, b, slot));
    } else {
      var rec := RecordOf(records, a.width, id);
      NextSlot(a, b, slot);
      SpanFits(records, count, a, b, slot + 1, |img|);
      FillSlotsIs(WriteAt(img, SlotAddr(a, b, slot), rec), a, records, count, b, slot + 1);
      SpanCons(records, a.width, id, last);
      WriteAfterWrite(img, SlotAddr(a, b, slot), rec, Span(records, a.width, id + 1, last));
    }
  }

  lemma NextSlot(a: Area, b: nat, slot: nat)
    ensures SlotAddr(a, b, slot + 1) == SlotAddr(a, b, slot) + a.width
  {
    Distribute(slot, 1, a.width);
  }

  lemma LastIsBelow(b: nat, per: nat, count: nat, slot: nat, id: nat)
    requires id == b * per + slot && slot <= per && id <= LastOf(b, per, count)
    ensures id == LastOf(b, per, count) <==> slot == per || id >= count
    ensures LastOf(b, per, count) <= count
  {}

  /** An area inside the image whose blocks and CRC words do not meet, and the records to fill it. */
  predicate Fillable(a: Area, records: Bytes, count: nat, blocks: nat, size: nat) {
    && a.per > 0 && a.width > 0 && a.per * a.width <= BLOCK_BYTES
    && |records| == count * a.width
    && blocks <= a.blocks
    && a.base + BLOCK_BYTES * a.blocks <= size && a.crc + CRC_BYTES * a.blocks <= size
    && Apart(a.base, BLOCK_BYTES * a.blocks, a.crc, CRC_BYTES * a.blocks)
  }

  /** The records of block `b`. */
  function BlockData(a: Area, records: Bytes, count: nat, b: nat): Bytes
    requires a.width > 0 && |records| == count * a.width && b * a.per <= count
  {
    NonNegativeProduct(b, a.per);
    ProductOrder(LastOf(b, a.per, count), count, a.width);
    Span(records, a.width, b * a.per, LastOf(b, a.per, count))
  }

  /** Filling block `b` writes its records from its first byte, then its CRC word. */
  lemma FillBlockIs(img: Bytes, a: Area, records: Bytes, count: nat, b: nat, blocks: nat)
    requires Fillable(a, records, count, blocks, |img|) && b < blocks && b * a.per <= count
    ensures var data := BlockData(a, records, count, b);
            var filled := WriteAt(img, BlockAddr(a, b), data);
            && |data| <= BLOCK_BYTES
            && FillBlock(img, a, records, b)
               == Write(filled, CrcAddr(a, b), CrcBytes(Crc.Crc32(Slice(filled, BlockAddr(a, b), BLOCK_BYTES))))
  {
    hide Write, CrcBytes, Crc.Crc32, Slice, Span, FillSlots;
    ProductOrder(LastOf(b, a.per, count), count, a.width);
    FillSlotsIs(img, a, records, count, b, 0);
  }

  /** The block then starts with its records, and its CRC word certifies it. */
  lemma FilledBlock(img: Bytes, a: Area, records: Bytes, count: nat, b: nat, blocks: nat)
    requires Fillable(a, records, count, blocks, |img|) && b < blocks && b * a.per <= count
    ensures var now, data := FillBlock(img, a, records, b), BlockData(a, records, count, b);
            && |data| <= BLOCK_BYTES
            && Slice(BlockAt(now, a, b), 0, |data|) == data
            && Sealed(now, a, b)
  {
    hide Write, CrcBytes, Crc.Crc32, Slice, BlockData, FillBlock;
    FillBlockIs(img, a, records, count, b, blocks);
    var at, data := BlockAddr(a, b), BlockData(a, records, count, b);
    var filled := WriteAt(img, at, data);
    var crc := CrcBytes(Crc.Crc32(Slice(filled, at, BLOCK_BYTES)));
    WriteThenRead(img, at, data);
    WriteThenRead(filled, CrcAddr(a, b), crc);
    WriteElsewhere(filled, CrcAddr(a, b), crc, at, BLOCK_BYTES);
    SliceOfSlice(filled, at, BLOCK_BYTES, 0, |data|);
  }

  lemma FillBlockElsewhere(img: Bytes, a: Area, records: Bytes, count: nat, b: nat, blocks: nat, x: nat, n: nat)
    requires Fillable(a, records, count, blocks, |img|) && b < blocks && b * a.per <= count && x + n <= |img|
    requires Apart(BlockAddr(a, b), BLOCK_BYTES, x, n) && Apart(CrcAddr(a, b), CRC_BYTES, x, n)
    ensures Slice(FillBlock(img, a, records, b), x, n) == Slice(img, x, n)
  {
    hide Write, CrcBytes, Crc.Crc32, Slice, BlockData, FillBlock;
    FillBlockIs(img, a, records, count, b, blocks);
    var at, data := BlockAddr(a, b), BlockData(a, records, count, b);
    var filled := WriteAt(img, at, data);
    WriteElsewhere(img, at, data, x, n);
    WriteElsewhere(filled, CrcAddr(a, b), CrcBytes(Crc.Crc32(Slice(filled, at, BLOCK_BYTES))), x, n);
  }

  /** Every block of the fill has a record to hold. */
  predicate AllNeeded(a: Area, count: nat, blocks: nat)
    requires a.per > 0
  {
    blocks == CeilDiv(count, a.per)
  }

  lemma NeededBlock(a: Area, count: nat, blocks: nat, b: nat)
    requires a.per > 0 && AllNeeded(a, count, blocks) && b < blocks
    ensures 0 <= b * a.per <= count
  {
    BelowCeil(b, count, a.per);
  }

  lemma {:induction false} FillBlocksElsewhere(img: Bytes, a: Area, records: Bytes, count: nat, b: nat, blocks: nat, x: nat, n: nat)
    requires Fillable(a, records, count, blocks, |img|) && AllNeeded(a, count, blocks) && b <= blocks && x + n <= |img|
    requires Apart(BlockAddr(a, b), BLOCK_BYTES * (blocks - b), x, n) && Apart(CrcAddr(a, b), CRC_BYTES * (blocks - b), x, n)
    ensures Slice(FillBlocks(img, a, records, b, blocks), x, n) == Slice(img, x, n)
    decreases blocks - b
  {
    hide Slice, FillBlock, CeilDiv, AllNeeded;
    if b < blocks {
      NeededBlock(a, count, blocks, b);
      FillBlockElsewhere(img, a, records, count, b, blocks, x, n);
      FillBlocksElsewhere(FillBlock(img, a, records, b), a, records, count, b + 1, blocks, x, n);
    }
  }

  /** At the end of the fill every block of it starts with its records, sealed. */
  lemma {:induction false} FilledBlocks(img: Bytes, a: Area, records: Bytes, count: nat, b: nat, blocks: nat, c: nat)
    requires Fillable(a, records, count, blocks, |img|) && AllNeeded(a, count, blocks) && b <= c < blocks
    ensures 0 <= c * a.per <= count
    ensures var now, data := FillBlocks(img, a, records, b, blocks), BlockData(a, records, count, c);
            && |data| <= BLOCK_BYTES
            && Slice(BlockAt(now, a, c), 0, |data|) == data
            && Sealed(now, a, c)
    decreases blocks - b
  {
    hide Slice, FillBlock, CeilDiv, AllNeeded, BlockData, Sealed;
    NeededBlock(a, count, blocks, b);
    NeededBlock(a, count, blocks, c);
    var next := FillBlock(img, a, records, b);
    if c == b {
      FilledBlock(img, a, records, count, b, blocks);
      FillBlocksElsewhere(next, a, records, count, b + 1, blocks, BlockAddr(a, c), BLOCK_BYTES);
      FillBlocksElsewhere(next, a, records, count, b + 1, blocks, CrcAddr(a, c), CRC_BYTES);
      SameBlockSameState(next, FillBlocks(next, a, records, b + 1, blocks), a, c);
    } else {
      FilledBlocks(next, a, records, count, b + 1, blocks, c);
    }
  }
}
