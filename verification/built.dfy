/**
 What a freshly built image is: mountable, sound, every vector where the layout puts it.

 The builder writes the codebook and its replicas, the payload blocks, the rerank blocks
 and last the manifest. Each write is shown to keep clear of the areas before it, so the
 finished image reads back region by region, and it meets the invariant that appends keep.
 */
module Built {
  import opened Options
  import opened Flash
  import opened Codec
  import opened Region
  import opened Manifests
  import opened Arith
  import opened Layouts
  import opened Volumes
  import opened Emit
  import Crc

  /** An image under 4 GiB, of byte-wide codes, whose record sizes fill blocks and whose code blocks do not look erased. */
  predicate Buildable(image: Image) {
    && image.Valid() && image.k == 256
    && image.m > 0 && image.d > 0 && |image.codes| == image.n * image.m && |image.rerank| == image.n * image.d
    && BLOCK_BYTES % image.m == 0 && BLOCK_BYTES % image.d == 0 && image.m <= image.d
    && BaseOf(image.Extents(), REGION_COUNT) < U32_LIMIT
  }

  // ---------------------------------------------------------------- extents

  lemma CeilMonotone(x: nat, y: nat, per: nat)
    requires per > 0 && x <= y
    ensures CeilDiv(x, per) <= CeilDiv(y, per)
  {
    var q := CeilDiv(y, per);
    BelowCeil(q, x, per);
  }

  /** The CRC words of every block of a region fit the region rounded up for the blocks in use. */
  lemma CrcWordsFit(blocks: nat)
    ensures CRC_BYTES * (Sectors(blocks * BLOCK_BYTES) / BLOCK_BYTES) <= Sectors(blocks * CRC_BYTES)
    ensures blocks <= Sectors(blocks * BLOCK_BYTES) / BLOCK_BYTES
  {
    hide CeilDiv;
    var u, v := CeilDiv(blocks * BLOCK_BYTES, SECTOR_BYTES), CeilDiv(blocks * CRC_BYTES, SECTOR_BYTES);
    BlocksOfSectors(u);
    SectorCounts(blocks, u, v);
  }

  lemma BlocksOfSectors(u: nat)
    ensures u * SECTOR_BYTES / BLOCK_BYTES == 8 * u
  {}

  lemma SectorCounts(blocks: nat, u: nat, v: nat)
    requires blocks * 512 <= u * 4096 < blocks * 512 + 4096 && blocks * 4 <= v * 4096
    ensures 4 * (8 * u) <= v * 4096 && blocks <= 8 * u
  {
    var w := 128 * v;
    assert blocks <= 8 * w;
    assert 8 * u - 8 < blocks;
    assert u <= w;
  }

  /** The stored table: the six regions, exactly where they were laid out. */
  lemma StoredTable(image: Image)
    requires Buildable(image)
    ensures var t, e := TableOf(image.Extents()), image.Extents();
            && ValidateTable(t).Ok? && TableFits(t)
            && (forall i :: 0 <= i < REGION_COUNT ==>
                  && t[i].kind == KINDS[i] && t[i].blockBytes == BLOCK_BYTES && t[i].base == BaseOf(e, i)
                  && t[i].ByteLen() == e[i] && t[i].blocks == e[i] / BLOCK_BYTES
                  && MANIFEST_RESERVED_BYTES <= t[i].base && t[i].End() <= BaseOf(e, REGION_COUNT))
  {
    hide BaseOf, TableOf, Image.Extents, ValidateTable, TableFits, RegionDesc.Validate;
    var e := image.Extents();
    TableIsValid(e);
    forall i | 0 <= i < REGION_COUNT
      ensures var t := TableOf(e);
              && t[i].kind == KINDS[i] && t[i].blockBytes == BLOCK_BYTES && t[i].base == BaseOf(e, i)
              && t[i].ByteLen() == e[i] && t[i].blocks == e[i] / BLOCK_BYTES
    {
      RegionExact(e, i);
    }
  }

  /** Looking a kind up finds the region of that kind. */
  lemma Lookups(t: RegionTable)
    requires |t| == REGION_COUNT
    requires t[0].kind == Codebook && t[1].kind == CodebookReplica && t[2].kind == Payload
    requires t[3].kind == PayloadCrc && t[4].kind == Rerank && t[5].kind == RerankCrc
    ensures Get(t, Payload) == Some(t[2]) && Get(t, PayloadCrc) == Some(t[3])
    ensures Get(t, Rerank) == Some(t[4]) && Get(t, RerankCrc) == Some(t[5])
  {
    GetFrom(t, Payload, 2);
    GetFrom(t, PayloadCrc, 3);
    GetFrom(t, Rerank, 4);
    GetFrom(t, RerankCrc, 5);
  }

  lemma {:induction false} GetFrom(t: RegionTable, kind: RegionKind, i: nat)
    requires i < |t| && t[i].kind == kind && forall j :: 0 <= j < i ==> t[j].kind != kind
    ensures Get(t, kind) == Some(t[i])
    decreases i
  {
    if i > 0 {
      GetFrom(t[1..], kind, i - 1);
    }
  }

  lemma EightBits()
    ensures TrailingZeros(256) == 8
  {
    assert TrailingZeros(64) == 2 + TrailingZeros(16);
    assert TrailingZeros(16) == 2 + TrailingZeros(4);
  }

  /** Every block the vectors fill is inside its region, with room for the reserve. */
  lemma BlocksInside(image: Image)
    requires Buildable(image)
    ensures BuiltPayload(image) <= PayloadOf(image).blocks && BuiltRerank(image) <= RerankOf(image).blocks
    ensures image.n <= PayloadOf(image).blocks * PerBlock(image.m) && image.n < U32_LIMIT
    ensures BLOCK_BYTES * PayloadOf(image).blocks <= image.Extents()[2] && CRC_BYTES * PayloadOf(image).blocks <= image.Extents()[3]
    ensures BLOCK_BYTES * RerankOf(image).blocks <= image.Extents()[4] && CRC_BYTES * RerankOf(image).blocks <= image.Extents()[5]
  {
    hide BaseOf, TableOf, ValidateTable, TableFits, Sectors, CeilDiv, Image.AppendHead, CeilDiv;
    StoredTable(image);
    CrcWordsFit(image.PayloadBlocks());
    CrcWordsFit(image.RerankBlocks());
    CeilMonotone(image.n, image.Capacity(), PerBlock(image.m));
    CeilMonotone(image.n, image.Capacity(), PerBlock(image.d));
    VectorsFit(image.n, PerBlock(image.m), BuiltPayload(image), PayloadOf(image).blocks);
    BaseAtLeast(image.Extents());
    PerAtMost(image.m);
  }

  lemma PerAtMost(m: nat)
    requires 0 < m <= BLOCK_BYTES
    ensures BLOCK_BYTES / m <= BLOCK_BYTES
  {}

  lemma VectorsFit(n: nat, per: nat, built: nat, blocks: nat)
    requires per > 0 && built == CeilDiv(n, per) && built <= blocks
    ensures n <= blocks * per && (per <= BLOCK_BYTES ==> n <= blocks * BLOCK_BYTES)
  {
    ProductOrder(built, blocks, per);
    ProductOrder(per, BLOCK_BYTES, blocks);
  }

  lemma BaseAtLeast(e: seq<nat>)
    requires |e| == REGION_COUNT
    ensures e[2] <= BaseOf(e, REGION_COUNT)
  {
    BasesRise(e, 2, REGION_COUNT);
  }

  /** The stored fields are the image's own: nothing is lost to their widths. */
  lemma StoredFields(image: Image)
    requires Buildable(image)
    ensures var m := ManifestOf(image);
            && m.sequence == 1 && m.n == image.n == m.builtN == m.appendedFrom && m.r == image.r
            && m.m == image.m && m.d == image.d && m.b == 8 && m.cbBytes == 1
            && m.table == TableOf(image.Extents())
            && PayloadBytes(m) == image.m && RerankBytes(m) == image.d
  {
    hide BaseOf, TableOf, TrailingZeros, Image.Extents, BuiltPayload, BuiltRerank, PayloadOf, RerankOf, PayloadBytes,
      RerankBytes, Sectors;
    EightBits();
    BlocksInside(image);
    WidthsFit(image);
    Unreduced(image.m, U16_LIMIT);
    Unreduced(image.d, U16_LIMIT);
    Unreduced(image.n, U32_LIMIT);
    ByteWide(ManifestOf(image));
  }

  lemma WidthsFit(image: Image)
    requires Buildable(image)
    ensures image.m <= image.d <= BLOCK_BYTES
  {
    AtMostModulus(BLOCK_BYTES, image.d);
  }

  lemma AtMostModulus(x: nat, d: nat)
    requires d > 0 && x > 0 && x % d == 0
    ensures d <= x
  {
    DivMod(x, d);
    ProductOrder(1, x / d, d);
  }

  lemma Unreduced(x: nat, limit: nat)
    requires x < limit
    ensures x % limit == x
  {}

  lemma ByteWide(m: Manifest)
    requires m.b == 8 && m.cbBytes == 1
    ensures PayloadBytes(m) == m.m && RerankBytes(m) == m.d
  {}

  /** Its areas are the builder's. */
  lemma StoredAreas(m: Manifest, t: RegionTable)
    requires m.table == t && |t| == REGION_COUNT
    requires t[0].kind == Codebook && t[1].kind == CodebookReplica && t[2].kind == Payload
    requires t[3].kind == PayloadCrc && t[4].kind == Rerank && t[5].kind == RerankCrc
    requires m.b == 8 && 0 < PayloadBytes(m) <= RerankBytes(m) <= BLOCK_BYTES
    requires BLOCK_BYTES % PayloadBytes(m) == 0 && BLOCK_BYTES % RerankBytes(m) == 0
    ensures Supported(m)
    ensures PayloadArea(m) == Area(t[2].base, t[3].base, t[2].blocks, BLOCK_BYTES / PayloadBytes(m), PayloadBytes(m))
    ensures RerankArea(m) == Area(t[4].base, t[5].base, t[4].blocks, BLOCK_BYTES / RerankBytes(m), RerankBytes(m))
  {
    hide Get, PayloadBytes, RerankBytes;
    Lookups(t);
  }

  lemma PairKinds(t: RegionTable)
    requires |t| == REGION_COUNT && forall i :: 0 <= i < REGION_COUNT ==> t[i].kind == KINDS[i]
    ensures t[0].kind == Codebook && t[1].kind == CodebookReplica && t[2].kind == Payload
    ensures t[3].kind == PayloadCrc && t[4].kind == Rerank && t[5].kind == RerankCrc
  {
    assert KINDS[0] == Codebook && KINDS[1] == CodebookReplica && KINDS[2] == Payload;
    assert KINDS[3] == PayloadCrc && KINDS[4] == Rerank && KINDS[5] == RerankCrc;
  }

  /** The manifest describes the image: supported, well formed, its areas the builder's. */
  lemma ManifestIs(image: Image)
    requires Buildable(image)
    ensures var m := ManifestOf(image);
            && m.Fits() && m.WellFormed() && Supported(m)
            && PayloadArea(m) == PayloadOf(image) && RerankArea(m) == RerankOf(image)
  {
    hide BaseOf, TableOf, ValidateTable, TableFits, Image.Extents, ManifestOf, RegionDesc.ByteLen, RegionDesc.End,
      PayloadBytes, RerankBytes, Get;
    StoredFields(image);
    StoredTable(image);
    PairKinds(TableOf(image.Extents()));
    StoredAreas(ManifestOf(image), TableOf(image.Extents()));
    BlocksInside(image);
  }

  lemma BuiltIsLaid(image: Image)
    requires Buildable(image)
    ensures Laid(ManifestOf(image), |Emitted(image)|)
  {
    hide BaseOf, TableOf, ValidateTable, TableFits, Emitted, Image.Extents, RegionDesc.ByteLen, TrailingZeros,
      Supported, Manifest.Fits, Manifest.WellFormed, PayloadArea, RerankArea, PayloadOf, RerankOf, PayloadBytes,
      RerankBytes, BuiltPayload, BuiltRerank, ManifestOf, Get;
    ManifestIs(image);
    StoredFields(image);
    StoredTable(image);
    PairKinds(TableOf(image.Extents()));
    Lookups(TableOf(image.Extents()));
    BlocksInside(image);
    TablesHold(image);
  }

  lemma TablesHold(image: Image)
    requires Buildable(image)
    ensures var t := TableOf(image.Extents()); Holds512(t[2], t[3]) && Holds512(t[4], t[5])
  {
    hide BaseOf, TableOf, Image.Extents, RegionDesc.ByteLen, ValidateTable, TableFits;
    StoredTable(image);
    BlocksInside(image);
  }

  // ---------------------------------------------------------------- the codebook and its copies

  lemma CopyBounds(at: nat, extent: nat, c: nat, copies: nat, len: nat, size: nat)
    requires 1 <= c < copies && len <= extent && at + extent * (copies - 1) <= size
    ensures at + (c - 1) * extent + len <= at + extent * (copies - 1) <= size
    ensures at <= at + (c - 1) * extent
  {
    NonNegativeProduct(c - 1, extent);
    ProductOrder(c - 1, copies - 1, extent);
  }

  lemma {:induction false} FillCopiesElsewhere(img: Bytes, at: nat, cb: Bytes, extent: nat, c: nat, copies: nat, x: nat, n: nat)
    requires c >= 1 && copies >= 1 && |cb| <= extent && at + extent * (copies - 1) <= |img| && x + n <= |img|
    requires Apart(at, extent * (copies - 1), x, n)
    ensures Slice(FillCopies(img, at, cb, extent, c, copies), x, n) == Slice(img, x, n)
    decreases copies - c
  {
    hide Slice, Write;
    if c < copies {
      CopyBounds(at, extent, c, copies, |cb|, |img|);
      WriteElsewhere(img, at + (c - 1) * extent, cb, x, n);
      FillCopiesElsewhere(WriteAt(img, at + (c - 1) * extent, cb), at, cb, extent, c + 1, copies, x, n);
    }
  }

  /** Later copies leave an earlier one alone. */
  lemma {:induction false} LaterCopies(img: Bytes, at: nat, cb: Bytes, extent: nat, c: nat, copies: nat, i: nat)
    requires 1 <= i < c && i < copies && |cb| <= extent && at + extent * (copies - 1) <= |img|
    ensures 0 <= (i - 1) * extent && at + (i - 1) * extent + |cb| <= |img|
    ensures Slice(FillCopies(img, at, cb, extent, c, copies), at + (i - 1) * extent, |cb|) == Slice(img, at + (i - 1) * extent, |cb|)
    decreases copies - c
  {
    hide Slice, Write;
    CopyBounds(at, extent, i, copies, |cb|, |img|);
    if c < copies {
      CopyBounds(at, extent, c, copies, |cb|, |img|);
      ProductOrder(i - 1, c - 1, extent);
      WriteElsewhere(img, at + (c - 1) * extent, cb, at + (i - 1) * extent, |cb|);
      LaterCopies(WriteAt(img, at + (c - 1) * extent, cb), at, cb, extent, c + 1, copies, i);
    }
  }

  /** Every copy after the first holds the codebook. */
  lemma {:induction false} CopyHoldsCodebook(img: Bytes, at: nat, cb: Bytes, extent: nat, c: nat, copies: nat, i: nat)
    requires 1 <= c <= i < copies && |cb| <= extent && at + extent * (copies - 1) <= |img|
    ensures 0 <= (i - 1) * extent && at + (i - 1) * extent + |cb| <= |img|
    ensures Slice(FillCopies(img, at, cb, extent, c, copies), at + (i - 1) * extent, |cb|) == cb
    decreases copies - c
  {
    hide Slice, Write;
    CopyBounds(at, extent, i, copies, |cb|, |img|);
    CopyBounds(at, extent, c, copies, |cb|, |img|);
    var now := WriteAt(img, at + (c - 1) * extent, cb);
    WriteThenRead(img, at + (c - 1) * extent, cb);
    if c == i {
      LaterCopies(now, at, cb, extent, c + 1, copies, i);
    } else {
      CopyHoldsCodebook(now, at, cb, extent, c + 1, copies, i);
    }
  }

  /** The codebook's extents, as stored. */
  lemma CodebookExtents(image: Image)
    requires Buildable(image)
    ensures var t, e := TableOf(image.Extents()), image.Extents();
            && t[0].base == MANIFEST_RESERVED_BYTES && |image.codebook| <= e[0] == image.CodebookExtent()
            && t[1].base == MANIFEST_RESERVED_BYTES + e[0]
            && (image.copies > 0 ==> e[1] == image.CodebookExtent() * (image.copies - 1))
            && BaseOf(e, 2) == t[1].base + e[1]
            && BaseOf(e, 2) <= BaseOf(e, REGION_COUNT)
  {
    hide TableOf, ValidateTable, TableFits, RegionDesc.ByteLen, RegionDesc.End, Sectors;
    StoredTable(image);
    BasesRise(image.Extents(), 2, REGION_COUNT);
    assert BaseOf(image.Extents(), 1) == MANIFEST_RESERVED_BYTES + image.Extents()[0];
  }

  /** The codebook touches nothing but its own two regions. */
  lemma FreshOutsideCodebook(image: Image, x: nat, n: nat)
    requires Buildable(image) && x + n <= |WithCodebook(image)|
    requires x + n <= MANIFEST_RESERVED_BYTES || BaseOf(image.Extents(), 2) <= x
    ensures Slice(WithCodebook(image), x, n) == Blank(n)
  {
    hide TableOf, Slice, Write, FillCopies, BaseOf, Image.Extents, Image.CodebookExtent;
    CodebookExtents(image);
    var t, e := TableOf(image.Extents()), image.Extents();
    var blank := Blank(BaseOf(e, REGION_COUNT));
    var first := WriteAt(blank, t[0].base, image.codebook);
    WriteElsewhere(blank, t[0].base, image.codebook, x, n);
    SliceOfBlank(|blank|, x, n);
    if image.copies > 0 {
      FillCopiesElsewhere(first, t[1].base, image.codebook, image.CodebookExtent(), 1, image.copies, x, n);
    } else {
      assert FillCopies(first, t[1].base, image.codebook, image.CodebookExtent(), 1, image.copies) == first by {
        NoCopies(first, t[1].base, image.codebook, image.CodebookExtent());
      }
    }
  }

  lemma NoCopies(img: Bytes, at: nat, cb: Bytes, extent: nat)
    ensures FillCopies(img, at, cb, extent, 1, 0) == img
  {}

  lemma SliceOfBlank(size: nat, x: nat, n: nat)
    requires x + n <= size
    ensures Slice(Blank(size), x, n) == Blank(n)
  {}

  // ---------------------------------------------------------------- the two fills

  /** Everything the two fills need of the areas. */
  predicate Separate(p: Area, r: Area) {
    && Clear(r, p.base, BLOCK_BYTES * p.blocks) && Clear(r, p.crc, CRC_BYTES * p.blocks)
    && Clear(p, SLOT_A, SECTOR_BYTES) && Clear(p, SLOT_B, SECTOR_BYTES)
    && Clear(r, SLOT_A, SECTOR_BYTES) && Clear(r, SLOT_B, SECTOR_BYTES)
  }

  lemma AreasFillable(image: Image)
    requires Buildable(image)
    ensures var size := |Emitted(image)|;
            && Fillable(PayloadOf(image), image.codes, image.n, BuiltPayload(image), size)
            && Fillable(RerankOf(image), image.rerank, image.n, BuiltRerank(image), size)
            && AllNeeded(PayloadOf(image), image.n, BuiltPayload(image))
            && AllNeeded(RerankOf(image), image.n, BuiltRerank(image))
            && Separate(PayloadOf(image), RerankOf(image))
            && MANIFEST_RESERVED_BYTES <= size
  {
    hide TableOf, BaseOf, Emitted, Supported, PayloadArea, RerankArea, ManifestOf, Image.Extents;
    BuiltIsLaid(image);
    ManifestIs(image);
    var m := ManifestOf(image);
    AreasApart(m, |Emitted(image)|);
    AreasFit(m, |Emitted(image)|);
    AreasWithin(m, |Emitted(image)|);
    BlocksInside(image);
    SomePerBlock(image.m, BLOCK_BYTES);
    SomePerBlock(image.d, BLOCK_BYTES);
  }

  /** A range clear of an area is clear of every fill of it. */
  lemma FillSpares(img: Bytes, a: Area, records: Bytes, count: nat, blocks: nat, x: nat, n: nat)
    requires Fillable(a, records, count, blocks, |img|) && AllNeeded(a, count, blocks) && Clear(a, x, n) && x + n <= |img|
    ensures Slice(FillBlocks(img, a, records, 0, blocks), x, n) == Slice(img, x, n)
  {
    hide FillBlocks, Slice, CeilDiv;
    FillBlocksElsewhere(img, a, records, count, 0, blocks, x, n);
  }

  /** Blocks past the fill, and their CRC words, stay as they were. */
  lemma FillSparesLater(img: Bytes, a: Area, records: Bytes, count: nat, blocks: nat, b: nat)
    requires Fillable(a, records, count, blocks, |img|) && AllNeeded(a, count, blocks) && blocks <= b < a.blocks
    ensures var now := FillBlocks(img, a, records, 0, blocks);
            BlockAt(now, a, b) == BlockAt(img, a, b) && CrcAt(now, a, b) == CrcAt(img, a, b)
  {
    hide FillBlocks, Slice, CeilDiv;
    FillBlocksElsewhere(img, a, records, count, 0, blocks, BlockAddr(a, b), BLOCK_BYTES);
    FillBlocksElsewhere(img, a, records, count, 0, blocks, CrcAddr(a, b), CRC_BYTES);
  }

  ghost function AfterCodes(image: Image): (r: Bytes)
    requires image.Valid()
    ensures |r| == BaseOf(image.Extents(), REGION_COUNT)
  {
    FillBlocks(WithCodebook(image), PayloadOf(image), image.codes, 0, BuiltPayload(image))
  }

  ghost function AfterRecords(image: Image): (r: Bytes)
    requires image.Valid()
    ensures |r| == BaseOf(image.Extents(), REGION_COUNT)
  {
    FillBlocks(AfterCodes(image), RerankOf(image), image.rerank, 0, BuiltRerank(image))
  }

  /** The manifest goes to slot A and nowhere else. */
  lemma SlotWrite(image: Image, x: nat, n: nat)
    requires Buildable(image) && x + n <= |Emitted(image)| && Apart(SLOT_A, SECTOR_BYTES, x, n)
    ensures Slice(Emitted(image), x, n) == Slice(AfterRecords(image), x, n)
  {
    hide FillBlocks, Slice, Write, WithCodebook, PayloadOf, RerankOf, BuiltPayload, BuiltRerank, Encoded, BaseOf,
      Image.Extents, Separate, Fillable;
    AreasFillable(image);
    WriteElsewhere(AfterRecords(image), SLOT_A, Encoded(ManifestOf(image)), x, n);
  }

  lemma SlotHolds(image: Image)
    requires Buildable(image)
    ensures MANIFEST_RESERVED_BYTES <= |Emitted(image)|
    ensures SlotBytes(Emitted(image), SLOT_A) == Encoded(ManifestOf(image))
    ensures SlotBytes(Emitted(image), SLOT_B) == Blank(SECTOR_BYTES)
  {
    hide FillBlocks, Slice, Write, WithCodebook, PayloadOf, RerankOf, BuiltPayload, BuiltRerank, Encoded, BaseOf,
      Image.Extents, Fillable, Clear, AllNeeded;
    AreasFillable(image);
    WriteThenRead(AfterRecords(image), SLOT_A, Encoded(ManifestOf(image)));
    SlotWrite(image, SLOT_B, SECTOR_BYTES);
    FillSpares(WithCodebook(image), PayloadOf(image), image.codes, image.n, BuiltPayload(image), SLOT_B, SECTOR_BYTES);
    FillSpares(AfterCodes(image), RerankOf(image), image.rerank, image.n, BuiltRerank(image), SLOT_B, SECTOR_BYTES);
    FreshOutsideCodebook(image, SLOT_B, SECTOR_BYTES);
  }

  /** The freshly built image mounts as the manifest written. */
  lemma BuiltIsInstalled(image: Image)
    requires Buildable(image)
    ensures MANIFEST_RESERVED_BYTES <= |Emitted(image)|
    ensures Installed(Emitted(image), ManifestOf(image))
    ensures Decode(SlotBytes(Emitted(image), SLOT_A)) == Ok(ManifestOf(image)) && IsErased(SlotBytes(Emitted(image), SLOT_B))
  {
    hide Encoded, Emitted, SlotBytes, Decode, BaseOf, Image.Extents, Supported, TableOf;
    SlotHolds(image);
    ManifestIs(image);
    ManifestRoundTrip(ManifestOf(image));
    ErasedDoesNotDecode(Blank(SECTOR_BYTES));
    StoredFields(image);
    MountedIs(Emitted(image), ManifestOf(image));
  }

  // ---------------------------------------------------------------- blocks of the finished image

  /** The payload area of the finished image is as the first fill left it. */
  lemma PayloadKept(image: Image, b: nat)
    requires Buildable(image) && b < PayloadOf(image).blocks
    ensures var p := PayloadOf(image);
            && Fits(p, b, |Emitted(image)|)
            && BlockAt(Emitted(image), p, b) == BlockAt(AfterCodes(image), p, b)
            && CrcAt(Emitted(image), p, b) == CrcAt(AfterCodes(image), p, b)
  {
    hide FillBlocks, Slice, WithCodebook, PayloadOf, RerankOf, BuiltPayload, BuiltRerank, BaseOf, Image.Extents,
      AllNeeded, Emitted, AfterCodes;
    AreasFillable(image);
    var p, r := PayloadOf(image), RerankOf(image);
    BlockExtent(p, b);
    ClearWithin(r, p.base, BLOCK_BYTES * p.blocks, BlockAddr(p, b), BLOCK_BYTES);
    ClearWithin(r, p.crc, CRC_BYTES * p.blocks, CrcAddr(p, b), CRC_BYTES);
    FillSpares(AfterCodes(image), r, image.rerank, image.n, BuiltRerank(image), BlockAddr(p, b), BLOCK_BYTES);
    FillSpares(AfterCodes(image), r, image.rerank, image.n, BuiltRerank(image), CrcAddr(p, b), CRC_BYTES);
    SlotWrite(image, BlockAddr(p, b), BLOCK_BYTES);
    SlotWrite(image, CrcAddr(p, b), CRC_BYTES);
  }

  lemma BlockExtent(a: Area, b: nat)
    requires b < a.blocks
    ensures a.base <= BlockAddr(a, b) && BlockAddr(a, b) + BLOCK_BYTES <= a.base + BLOCK_BYTES * a.blocks
    ensures a.crc <= CrcAddr(a, b) && CrcAddr(a, b) + CRC_BYTES <= a.crc + CRC_BYTES * a.blocks
  {}

  lemma RerankKept(image: Image, b: nat)
    requires Buildable(image) && b < RerankOf(image).blocks
    ensures var r := RerankOf(image);
            && Fits(r, b, |Emitted(image)|)
            && BlockAt(Emitted(image), r, b) == BlockAt(AfterRecords(image), r, b)
            && CrcAt(Emitted(image), r, b) == CrcAt(AfterRecords(image), r, b)
  {
    hide FillBlocks, Slice, WithCodebook, PayloadOf, RerankOf, BuiltPayload, BuiltRerank, BaseOf, Image.Extents,
      AllNeeded, Emitted, AfterRecords;
    AreasFillable(image);
    var r := RerankOf(image);
    BlockExtent(r, b);
    SlotWrite(image, BlockAddr(r, b), BLOCK_BYTES);
    SlotWrite(image, CrcAddr(r, b), CRC_BYTES);
  }

  /** Before the fills, both areas are blank. */
  lemma AreasStartBlank(image: Image, b: nat)
    requires Buildable(image)
    ensures var p := PayloadOf(image);
            b < p.blocks ==> Fits(p, b, |WithCodebook(image)|) && Unwritten(WithCodebook(image), p, b)
    ensures var r := RerankOf(image);
            b < r.blocks ==> Fits(r, b, |AfterCodes(image)|) && Unwritten(AfterCodes(image), r, b)
  {
    hide FillBlocks, Slice, WithCodebook, BuiltPayload, BuiltRerank, AllNeeded, AfterCodes, PayloadOf, RerankOf;
    AreasFillable(image);
    PastCodebook(image);
    var p, r := PayloadOf(image), RerankOf(image);
    if b < p.blocks {
      FreshOutsideCodebook(image, BlockAddr(p, b), BLOCK_BYTES);
      FreshOutsideCodebook(image, CrcAddr(p, b), CRC_BYTES);
    }
    if b < r.blocks {
      FreshOutsideCodebook(image, BlockAddr(r, b), BLOCK_BYTES);
      FreshOutsideCodebook(image, CrcAddr(r, b), CRC_BYTES);
      RerankClearOfPayload(image, b);
    }
  }

  lemma RerankClearOfPayload(image: Image, b: nat)
    requires Buildable(image) && b < RerankOf(image).blocks
    ensures var r := RerankOf(image);
            && Fits(r, b, |AfterCodes(image)|)
            && BlockAt(AfterCodes(image), r, b) == BlockAt(WithCodebook(image), r, b)
            && CrcAt(AfterCodes(image), r, b) == CrcAt(WithCodebook(image), r, b)
  {
    hide FillBlocks, Slice, WithCodebook, BuiltPayload, BuiltRerank, AllNeeded, PayloadOf, RerankOf, BaseOf,
      Image.Extents, Emitted, Apart;
    AreasFillable(image);
    var p, r := PayloadOf(image), RerankOf(image);
    ClearSwaps(p, r);
    BlockClear(r, p, b);
    FillSpares(WithCodebook(image), p, image.codes, image.n, BuiltPayload(image), BlockAddr(r, b), BLOCK_BYTES);
    FillSpares(WithCodebook(image), p, image.codes, image.n, BuiltPayload(image), CrcAddr(r, b), CRC_BYTES);
  }

  lemma PastCodebook(image: Image)
    requires Buildable(image)
    ensures var limit := BaseOf(image.Extents(), 2);
            && limit <= PayloadOf(image).base && limit <= PayloadOf(image).crc
            && limit <= RerankOf(image).base && limit <= RerankOf(image).crc
  {
    hide BaseOf, TableOf, Image.Extents, ValidateTable, TableFits;
    StoredTable(image);
    BasesRise(image.Extents(), 2, 3);
    BasesRise(image.Extents(), 2, 4);
    BasesRise(image.Extents(), 2, 5);
  }

  /** Block `b` of an area built from `records`: sealed over its own records, or untouched past the last. */
  predicate BlockBuilt(img: Bytes, a: Area, records: Bytes, count: nat, built: nat, b: nat)
    requires a.width > 0 && |records| == count * a.width
  {
    && Fits(a, b, |img|)
    && (if b >= built then Unwritten(img, a, b)
        else
          && Sealed(img, a, b) && 0 <= b * a.per <= count
          && var data := BlockData(a, records, count, b);
             |data| <= BLOCK_BYTES && Slice(BlockAt(img, a, b), 0, |data|) == data)
  }

  /** A block the vectors fill starts with their codes and carries its CRC; any other is untouched. */
  lemma PayloadBlockIs(image: Image, b: nat)
    requires Buildable(image) && b < PayloadOf(image).blocks
    ensures BlockBuilt(Emitted(image), PayloadOf(image), image.codes, image.n, BuiltPayload(image), b)
  {
    hide FillBlocks, Slice, BuiltPayload, BuiltRerank, AllNeeded, PayloadOf, RerankOf, BaseOf, Image.Extents,
      Emitted, Separate, WithCodebook, BlockData, Sealed, Unwritten;
    AreasFillable(image);
    PayloadKept(image, b);
    AreasStartBlank(image, b);
    var p, end := PayloadOf(image), Emitted(image);
    SameBlockSameState(AfterCodes(image), end, p, b);
    if b < BuiltPayload(image) {
      FilledBlocks(WithCodebook(image), p, image.codes, image.n, 0, BuiltPayload(image), b);
    } else {
      FillSparesLater(WithCodebook(image), p, image.codes, image.n, BuiltPayload(image), b);
      SameBlockSameState(WithCodebook(image), AfterCodes(image), p, b);
    }
  }

  lemma RerankBlockIs(image: Image, b: nat)
    requires Buildable(image) && b < RerankOf(image).blocks
    ensures BlockBuilt(Emitted(image), RerankOf(image), image.rerank, image.n, BuiltRerank(image), b)
  {
    hide FillBlocks, Slice, BuiltPayload, BuiltRerank, AllNeeded, PayloadOf, RerankOf, BaseOf, Image.Extents,
      Emitted, Separate, AfterCodes, BlockData, Sealed, Unwritten;
    AreasFillable(image);
    RerankKept(image, b);
    AreasStartBlank(image, b);
    var r, end := RerankOf(image), Emitted(image);
    SameBlockSameState(AfterRecords(image), end, r, b);
    if b < BuiltRerank(image) {
      FilledBlocks(AfterCodes(image), r, image.rerank, image.n, 0, BuiltRerank(image), b);
    } else {
      FillSparesLater(AfterCodes(image), r, image.rerank, image.n, BuiltRerank(image), b);
      SameBlockSameState(AfterCodes(image), AfterRecords(image), r, b);
    }
  }

  /** No block of codes reads as erased. */
  predicate CodesShow(image: Image)
    requires Buildable(image)
  {
    forall b: nat | b < BuiltPayload(image) && 0 <= b * PayloadOf(image).per <= image.n ::
      !IsErased(BlockData(PayloadOf(image), image.codes, image.n, b))
  }

  lemma StartsWithUsed(block: Bytes, data: Bytes)
    requires |data| <= |block| && Slice(block, 0, |data|) == data && !IsErased(data)
    ensures !IsErased(block)
  {
    var i :| 0 <= i < |data| && data[i] != ERASED_BYTE;
    assert Slice(block, 0, |data|)[i] == block[i];
  }

  /** The blocks written at build are those of the held ids, in either region. */
  lemma BuiltWritten(m: Manifest, per: nat, b: nat)
    requires per > 0 && m.n == m.builtN == m.appendedFrom
    ensures Written(m, per, b) <==> b < CeilDiv(m.n, per)
  {
    BelowCeil(b, m.n, per);
  }

  /**
   A build is sound: it mounts, every block of an id is sealed, every reserved block and its
   CRC word are erased, and the append head is the block after the last vector.
   */
  lemma BuiltIsSound(image: Image)
    requires Buildable(image) && CodesShow(image)
    ensures Sound(Emitted(image), ManifestOf(image), BuiltPayload(image))
    ensures ManifestOf(image).Appended() == 0
    ensures UnwrittenFrom(Emitted(image), RerankOf(image), BuiltRerank(image))
  {
    hide Emitted, Supported, PayloadArea, RerankArea, ManifestOf, Image.Extents, BaseOf, TableOf, PayloadOf,
      RerankOf, CodesShow, UsedBelow, UnwrittenFrom, HeldSealed, HeldInside, Laid, RatioTimes, Installed, BuiltPayload,
      BuiltRerank;
    BuiltIsLaid(image);
    ManifestIs(image);
    StoredFields(image);
    BuiltIsInstalled(image);
    BuiltPayloadSealed(image);
    BuiltRerankSealed(image);
    BuiltHead(image);
    RerankHeadPastBuilt(image);
    UnwrittenLater(Emitted(image), RerankOf(image), BuiltRerank(image), RatioTimes(ManifestOf(image), BuiltPayload(image)));
    SealedIsInside(Emitted(image), ManifestOf(image), PayloadOf(image));
    SealedIsInside(Emitted(image), ManifestOf(image), RerankOf(image));
  }

  lemma BuiltHead(image: Image)
    requires Buildable(image)
    ensures BuiltPayload(image) <= PayloadOf(image).blocks && image.n <= BuiltPayload(image) * PayloadOf(image).per
  {
    hide Image.Extents, BaseOf, TableOf;
    BlocksInside(image);
  }

  lemma BuiltPayloadSealed(image: Image)
    requires Buildable(image) && CodesShow(image)
    ensures HeldSealed(Emitted(image), ManifestOf(image), PayloadOf(image))
    ensures UsedBelow(Emitted(image), PayloadOf(image), BuiltPayload(image))
    ensures UnwrittenFrom(Emitted(image), PayloadOf(image), BuiltPayload(image))
  {
    hide Emitted, ManifestOf, Image.Extents, BaseOf, TableOf, Sealed, Unwritten, BlockAt, CrcAt, BlockData, Slice,
      Written, CeilDiv, IsErased;
    var end, m, p := Emitted(image), ManifestOf(image), PayloadOf(image);
    StoredFields(image);
    BlocksInside(image);
    forall b: nat | b < p.blocks
      ensures Fits(p, b, |end|)
      ensures b >= BuiltPayload(image) ==> Unwritten(end, p, b)
      ensures b < BuiltPayload(image) ==> Sealed(end, p, b) && !IsErased(BlockAt(end, p, b))
    {
      PayloadBlockIs(image, b);
      if b < BuiltPayload(image) {
        StartsWithUsed(BlockAt(end, p, b), BlockData(p, image.codes, image.n, b));
      }
    }
    forall b: nat | Written(m, p.per, b)
      ensures Fits(p, b, |end|) && Sealed(end, p, b)
    {
      BuiltWritten(m, p.per, b);
    }
  }

  lemma BuiltRerankSealed(image: Image)
    requires Buildable(image)
    ensures HeldSealed(Emitted(image), ManifestOf(image), RerankOf(image))
    ensures UnwrittenFrom(Emitted(image), RerankOf(image), BuiltRerank(image))
  {
    hide Emitted, ManifestOf, Image.Extents, BaseOf, TableOf, Sealed, Unwritten, BlockAt, CrcAt, BlockData, Slice,
      Written, CeilDiv, IsErased;
    var end, m, r := Emitted(image), ManifestOf(image), RerankOf(image);
    StoredFields(image);
    BlocksInside(image);
    forall b: nat | b < r.blocks
      ensures Fits(r, b, |end|)
      ensures if b < BuiltRerank(image) then Sealed(end, r, b) else Unwritten(end, r, b)
    {
      RerankBlockIs(image, b);
    }
    forall b: nat | Written(m, r.per, b)
      ensures Fits(r, b, |end|) && Sealed(end, r, b)
    {
      BuiltWritten(m, r.per, b);
    }
  }

  /** The head's rerank block is past every built one. */
  lemma RerankHeadPastBuilt(image: Image)
    requires Buildable(image)
    ensures Supported(ManifestOf(image))
    ensures BuiltRerank(image) <= RatioTimes(ManifestOf(image), BuiltPayload(image))
  {
    hide Supported, PayloadArea, RerankArea, ManifestOf, Image.Extents, BaseOf, TableOf, Ratio, CeilDiv;
    ManifestIs(image);
    var m := ManifestOf(image);
    WholeRatio(m);
    var h, k, r := BuiltPayload(image), Ratio(m), PerBlock(image.d);
    Regroup(h, k, r);
    var hk := RatioTimes(m, h);
    BelowCeil(hk, image.n, r);
  }

  // ---------------------------------------------------------------- reading vectors back

  /** A record of a filled block reads back whole. */
  lemma RecordReadsBack(img: Bytes, a: Area, records: Bytes, count: nat, blocks: nat, id: nat)
    requires Fillable(a, records, count, blocks, |img|) && id < count && Fits(a, Quotient(id, a.per), |img|)
    requires 0 <= Quotient(id, a.per) * a.per <= count
    requires var data := BlockData(a, records, count, Quotient(id, a.per));
             |data| <= BLOCK_BYTES && Slice(BlockAt(img, a, Quotient(id, a.per)), 0, |data|) == data
    ensures HasRecord(records, a.width, id) && RecordAt(img, a, id) == RecordOf(records, a.width, id)
  {
    hide Slice, CeilDiv, Apart;
    var b := Quotient(id, a.per);
    DivMod(id, a.per);
    RecordInRange(records, a.width, count, id);
    RecordInBlock(a, id, |img|);
    var data := BlockData(a, records, count, b);
    var off := (id % a.per) * a.width;
    WithinData(a, records, count, b, id);
    SliceOfSlice(img, BlockAddr(a, b), BLOCK_BYTES, off, a.width);
    SliceOfSlice(BlockAt(img, a, b), 0, |data|, off, a.width);
  }

  /** Inside its block's data, a record is where its slot says. */
  lemma WithinData(a: Area, records: Bytes, count: nat, b: nat, id: nat)
    requires a.per > 0 && a.width > 0 && |records| == count * a.width && id < count && b == Quotient(id, a.per)
    requires 0 <= b * a.per <= count && HasRecord(records, a.width, id)
    ensures (id % a.per) * a.width >= 0
    ensures var data := BlockData(a, records, count, b);
            && (id % a.per) * a.width + a.width <= |data|
            && Slice(data, (id % a.per) * a.width, a.width) == RecordOf(records, a.width, id)
  {
    DivMod(id, a.per);
    var last := LastOf(b, a.per, count);
    var s := id % a.per;
    NonNegativeProduct(s, a.width);
    ProductOrder(last, count, a.width);
    ProductOrder(s, last - b * a.per, a.width);
    Distribute(b * a.per, s, a.width);
    SpanSlice(records, a.width, b * a.per, last, s);
  }

  lemma SpanSlice(records: Bytes, width: nat, from: nat, upto: nat, s: nat)
    requires from + s < upto && upto * width <= |records| && HasRecord(records, width, from + s)
    requires s * width + width <= |Span(records, width, from, upto)| && (from + s) * width == from * width + s * width
    ensures Slice(Span(records, width, from, upto), s * width, width) == RecordOf(records, width, from + s)
  {
    var span := Span(records, width, from, upto);
    var x, y := Slice(span, s * width, width), RecordOf(records, width, from + s);
    ProductOrder(from, upto, width);
    SliceOfSlice(records, from * width, (upto - from) * width, s * width, width);
    assert span == Slice(records, from * width, |span|) by {
      Distribute(from, upto - from, width);
    }
  }

  /** The image holds record `id` of `records` where the area puts it. */
  predicate ReadsBack(img: Bytes, a: Area, records: Bytes, id: nat) {
    && a.per > 0 && a.per * a.width <= BLOCK_BYTES && Fits(a, Quotient(id, a.per), |img|)
    && HasRecord(records, a.width, id)
    && RecordAt(img, a, id) == RecordOf(records, a.width, id)
  }

  lemma BuiltRecordReadsBack(img: Bytes, a: Area, records: Bytes, count: nat, built: nat, id: nat)
    requires Fillable(a, records, count, built, |img|) && AllNeeded(a, count, built) && id < count
    requires BlockBuilt(img, a, records, count, built, Quotient(id, a.per))
    ensures ReadsBack(img, a, records, id)
  {
    hide Sealed, Unwritten, Slice, CeilDiv, BlockData, HasRecord, RecordOf, RecordAt, BlockAt;
    var b := BlockOfVector(id, count, a.per);
    RecordReadsBack(img, a, records, count, built, id);
  }

  /** Every vector's code and record read back from the finished image. */
  lemma VectorReadsBack(image: Image, id: nat)
    requires Buildable(image) && id < image.n
    ensures ReadsBack(Emitted(image), PayloadOf(image), image.codes, id)
    ensures ReadsBack(Emitted(image), RerankOf(image), image.rerank, id)
  {
    hide Emitted, Image.Extents, BaseOf, TableOf, CeilDiv, BlockBuilt, ReadsBack, Separate, Apart;
    AreasFillable(image);
    BlocksInside(image);
    var b := BlockOfVector(id, image.n, PerBlock(image.m));
    var c := BlockOfVector(id, image.n, PerBlock(image.d));
    PayloadBlockIs(image, b);
    BuiltRecordReadsBack(Emitted(image), PayloadOf(image), image.codes, image.n, BuiltPayload(image), id);
    RerankBlockIs(image, c);
    BuiltRecordReadsBack(Emitted(image), RerankOf(image), image.rerank, image.n, BuiltRerank(image), id);
  }

  /** Those places are the layouts' own offsets. */
  lemma PlacedByLayout(image: Image, id: nat)
    requires Buildable(image) && id < image.n
    ensures PayloadLayout(image.m, BLOCK_BYTES, image.n).OffsetOf(id)
         == Some(RecordAddr(PayloadOf(image), id) - PayloadOf(image).base)
    ensures RerankLayout(image.d, BLOCK_BYTES, image.n).OffsetOf(id)
         == Some(RecordAddr(RerankOf(image), id) - RerankOf(image).base)
  {
    hide Image.Extents, BaseOf, TableOf, SlotOffset;
  }

  lemma BlockOfVector(id: nat, n: nat, per: nat) returns (b: nat)
    requires per > 0 && id < n
    ensures b == id / per && b < CeilDiv(n, per)
  {
    b := id / per;
    DivMod(id, per);
    BelowCeil(id / per, n, per);
  }

  /** Where copy `i` of the codebook starts. */
  function CopyAddr(image: Image, i: nat): (at: nat)
    requires image.Valid()
  {
    if i == 0 then TableOf(image.Extents())[0].base
    else
      NonNegativeProduct(i - 1, image.CodebookExtent());
      TableOf(image.Extents())[1].base + (i - 1) * image.CodebookExtent()
  }

  lemma CopyInCodebook(image: Image, i: nat)
    requires Buildable(image) && (i == 0 || i < image.copies)
    ensures MANIFEST_RESERVED_BYTES <= CopyAddr(image, i)
    ensures CopyAddr(image, i) + |image.codebook| <= BaseOf(image.Extents(), 2) <= |WithCodebook(image)|
    ensures Slice(WithCodebook(image), CopyAddr(image, i), |image.codebook|) == image.codebook
  {
    hide TableOf, Slice, Write, FillCopies, BaseOf, Image.Extents, Image.CodebookExtent;
    CodebookExtents(image);
    var t, e, extent := TableOf(image.Extents()), image.Extents(), image.CodebookExtent();
    var blank := Blank(BaseOf(e, REGION_COUNT));
    var first := WriteAt(blank, t[0].base, image.codebook);
    WriteThenRead(blank, t[0].base, image.codebook);
    if image.copies == 0 {
      NoCopies(first, t[1].base, image.codebook, extent);
    } else if i == 0 {
      FillCopiesElsewhere(first, t[1].base, image.codebook, extent, 1, image.copies, t[0].base, |image.codebook|);
    } else {
      CopyBounds(t[1].base, extent, i, image.copies, |image.codebook|, |blank|);
      CopyHoldsCodebook(first, t[1].base, image.codebook, extent, 1, image.copies, i);
    }
  }

  /** The codebook and every replica of it read back from the finished image. */
  lemma CodebookReadsBack(image: Image, i: nat)
    requires Buildable(image) && (i == 0 || i < image.copies)
    ensures CopyAddr(image, i) + |image.codebook| <= |Emitted(image)|
    ensures Slice(Emitted(image), CopyAddr(image, i), |image.codebook|) == image.codebook
  {
    hide FillBlocks, Slice, WithCodebook, PayloadOf, RerankOf, BuiltPayload, BuiltRerank, BaseOf, Image.Extents,
      AllNeeded, Emitted, CopyAddr, Fillable;
    AreasFillable(image);
    CopyInCodebook(image, i);
    PastCodebook(image);
    var x, n := CopyAddr(image, i), |image.codebook|;
    FillSpares(WithCodebook(image), PayloadOf(image), image.codes, image.n, BuiltPayload(image), x, n);
    FillSpares(AfterCodes(image), RerankOf(image), image.rerank, image.n, BuiltRerank(image), x, n);
    SlotWrite(image, x, n);
  }
}
