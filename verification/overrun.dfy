/**
 Where the capacity check lets an append overrun its region, and what comes of it.

 A payload block that covers more than eight rerank blocks breaks the check: a build of one
 vector with a reserve passes it for a batch its rerank region cannot take. The append then
 runs past the region's last block, over the CRC words that follow it, and is refused by the
 flash there or at the end of the image. It never installs its manifest. Whether it first
 unseals a record that was held depends on the bytes of one block of the batch.
 */
module Overrun {
  import opened Options
  import opened Flash
  import opened Codec
  import opened Region
  import opened Manifests
  import opened Arith
  import opened Layouts
  import opened Volumes
  import opened BlockAppend
  import opened Append
  import opened Crash
  import opened Atomicity
  import opened Lifecycle
  import opened Emit
  import opened Built
  import opened Room
  import Crc

  // ---------------------------------------------------------------- when the check is not enough

  /** Programs a whole block of data at `addr`. */
  predicate WritesBlockAt(op: Op, addr: nat) {
    op.Program? && op.addr == addr && |op.data| == BLOCK_BYTES
  }

  /**
   The check counts rerank blocks from the end of the ids, the append starts at the next payload
   block. A volume of one vector of `d = 128` in codes of `m = 4` bytes, with 40 rerank blocks:
   128 more vectors pass the check, and the rerank block after the region's last is written.
   */
  lemma CapacityMisjudges(img: Bytes, m: Manifest, job: Job)
    requires Usable(img, m, 1) && m.n == 1
    requires m.m == 4 && m.d == 128 && m.cbBytes == 1
    requires RerankArea(m).blocks == 40 && UnwrittenFrom(img, RerankArea(m), 1) && PayloadArea(m).blocks >= 2
    requires job.Valid() && job.m == m && job.head == 1 && job.blocks == 1
    ensures PlanFor(img, m, 128) == Ok(1)
    ensures !job.Room()
    ensures exists i :: 0 <= i < |job.RerankOps()| && WritesBlockAt(job.RerankOps()[i], RerankArea(m).base + BLOCK_BYTES * RerankArea(m).blocks)
  {
    hide Sound, Usable, PlanFor, BlockOps, Supported, PayloadArea, RerankArea, RatioTimes, Ratio, Manifest.RangeOrdered;
    SmallVolume(m);
    SmallPlan(img, m);
    assert job.RerankAt() == 32 && job.RerankCount() == 32;
    OverrunOp(job.R(), job.records, 32);
    assert WritesBlockAt(job.RerankOps()[16], RerankArea(m).base + BLOCK_BYTES * RerankArea(m).blocks);
  }

  lemma SmallPlan(img: Bytes, m: Manifest)
    requires Usable(img, m, 1) && m.n == 1
    requires m.m == 4 && m.d == 128 && m.cbBytes == 1
    requires RerankArea(m).blocks == 40 && UnwrittenFrom(img, RerankArea(m), 1) && PayloadArea(m).blocks >= 2
    ensures PlanFor(img, m, 128) == Ok(1)
  {
    hide Sound, Usable, UnwrittenFrom, ErasedFrom, PlanFor, Supported, PayloadArea, RerankArea, RatioTimes;
    UsableParts(img, m, 1);
    LaidIsSupported(m, |img|);
    SmallVolume(m);
    AreasWithin(m, |img|);
    ErasedFromHead(img, RerankArea(m), 1, 1);
    PlanSucceeds(img, m, 1, 128);
  }

  /** One payload block of such codes covers 32 rerank blocks, and one vector fills part of one of each. */
  lemma SmallVolume(m: Manifest)
    requires Supported(m) && m.m == 4 && m.d == 128 && m.cbBytes == 1
    ensures PayloadArea(m).per == 128 && RerankArea(m).per == 4 && Ratio(m) == 32 && RatioTimes(m, 1) == 32
    ensures CeilDiv(1, 4) == 1
  {}

  lemma OverrunOp(r: Area, records: Bytes, k: nat)
    requires |records| == BLOCK_BYTES * k && r.blocks == 40 && k == 32
    ensures var ops := BlockOps(r, 32, records, k);
            |ops| == 64 && WritesBlockAt(ops[16], r.base + BLOCK_BYTES * r.blocks)
  {
    assert BlockOps(r, 32, records, k)[16] == BlockOp(r, 32, records, 16);
  }

  /** One vector of `d = 128` in codes of 4 bytes, built with `--reserve 32`. */
  predicate ReservedForThirtyTwo(image: Image) {
    image.Valid() && image.n == 1 && image.m == 4 && image.d == 128 && image.reserve == 32
  }

  lemma ReservedExtents(image: Image)
    requires ReservedForThirtyTwo(image)
    ensures PerBlock(image.m) == 128 && PerBlock(image.d) == 4 && image.Capacity() == 160
    ensures image.PayloadBlocks() == 2 && image.RerankBlocks() == 40
    ensures image.Extents()[2] == 4096 && image.Extents()[4] == 20480 && image.Extents()[5] == 4096
    ensures BuiltPayload(image) == 1 && BuiltRerank(image) == 1
  {
    UnitIsLeastCommonMultiple(128, 4, 128);
    assert Unit(128, 4) == 128 by {
      assert Gcd(128, 4) == 4;
    }
    assert PerBlock(image.m) == 128 && PerBlock(image.d) == 4;
    assert image.AppendHead() == 128;
    assert image.Capacity() == 160;
  }

  /**
   That build is an instance of the misjudgement: 128 vectors pass the capacity check on it, and
   appending them programs a data block over the CRC words of the rerank region.
   */
  lemma ReserveMisjudged(image: Image, job: Job)
    requires Buildable(image) && CodesShow(image) && ReservedForThirtyTwo(image)
    requires job.Valid() && job.m == ManifestOf(image) && job.head == 1 && job.blocks == 1
    ensures Laid(ManifestOf(image), |Emitted(image)|) && PlanFor(Emitted(image), ManifestOf(image), 128) == Ok(1)
    ensures !job.Room()
    ensures exists i :: 0 <= i < |job.RerankOps()| && WritesBlockAt(job.RerankOps()[i], RerankArea(ManifestOf(image)).crc)
  {
    hide Sound, Usable, Emitted, ManifestOf, Image.Extents, Supported, PayloadArea, RerankArea, BaseOf, TableOf,
      UnwrittenFrom, PlanFor, Job.Room, BlockOps;
    BuiltIsSound(image);
    BuiltIsLaid(image);
    StoredFields(image);
    ManifestIs(image);
    ReservedExtents(image);
    StoredTable(image);
    LastBases(image.Extents());
    SoundIsUsable(Emitted(image), ManifestOf(image), 1);
    CapacityMisjudges(Emitted(image), ManifestOf(image), job);
  }

  // ---------------------------------------------------------------- what the flash does with it

  /** The operations up to the region's last block are those of a shorter run. */
  lemma FirstEight(r: Area, records: Bytes)
    requires |records| == BLOCK_BYTES * 32
    ensures BlockOps(r, 32, records, 32)[..16] == BlockOps(r, 32, records[..BLOCK_BYTES * 8], 8)
  {
    hide CrcBytes, Crc.Crc32;
    var u, v := BlockOps(r, 32, records, 32)[..16], BlockOps(r, 32, records[..BLOCK_BYTES * 8], 8);
    forall i | 0 <= i < 16
      ensures u[i] == v[i]
    {
      assert Chunk(records, i / 2) == Chunk(records[..BLOCK_BYTES * 8], i / 2);
    }
  }

  /** Forty blocks, the CRC words right behind them, then the end of the image; a batch of 32 blocks for block 32 on. */
  predicate Overruns(r: Area, records: Bytes, size: nat) {
    && |records| == BLOCK_BYTES * 32 && r.blocks == 40
    && r.crc == r.base + BLOCK_BYTES * r.blocks && size == r.crc + SECTOR_BYTES
  }

  /** Operation 16 of the run is the block at the CRC words, operation 32 the one past the end. */
  lemma OverrunAddresses(r: Area, records: Bytes, size: nat)
    requires Overruns(r, records, size)
    ensures var ops := BlockOps(r, 32, records, 32);
            && ops[16] == Program(r.crc, Chunk(records, 8))
            && ops[32].addr + OpLength(ops[32]) > size
            && (forall i | 0 <= i < 32 && i != 16 :: Apart(ops[i].addr, OpLength(ops[i]), r.crc, CRC_BYTES))
            && (forall i | 0 <= i < 32 :: Apart(ops[i].addr, OpLength(ops[i]), r.base, BLOCK_BYTES))
  {
    hide Chunk, CrcBytes, Crc.Crc32;
    var ops := BlockOps(r, 32, records, 32);
    assert ops[16] == BlockOp(r, 32, records, 16) && ops[32] == BlockOp(r, 32, records, 32);
    forall i | 0 <= i < 32
      ensures i != 16 ==> Apart(ops[i].addr, OpLength(ops[i]), r.crc, CRC_BYTES)
      ensures Apart(ops[i].addr, OpLength(ops[i]), r.base, BLOCK_BYTES)
    {
      assert ops[i] == BlockOp(r, 32, records, i);
    }
  }

  lemma FirstEightLegal(mid: Bytes, r: Area, records: Bytes)
    requires Overruns(r, records, |mid|)
    requires forall b: nat | 32 <= b < 40 :: Unwritten(mid, r, b)
    ensures AllLegal(mid, BlockOps(r, 32, records, 32)[..16])
  {
    hide BlockOps, Unwritten;
    FirstEight(r, records);
    BlockOpsLegal(mid, r, 32, records[..BLOCK_BYTES * 8], 8);
  }

  /** What a run of operations can have done when it stops before operation 33 of the batch. */
  lemma OverrunStops(mid: Bytes, r: Area, records: Bytes, tail: seq<Op>, e: nat, now: Bytes)
    requires Overruns(r, records, |mid|)
    requires forall b: nat | 32 <= b < 40 :: Unwritten(mid, r, b)
    requires Ran(mid, BlockOps(r, 32, records, 32) + tail, e, now)
    ensures 16 <= e <= 32
    ensures AllInBounds(|mid|, BlockOps(r, 32, records, 32)[..e]) && now == ApplyAll(mid, BlockOps(r, 32, records, 32)[..e])
    ensures AllInBounds(|mid|, BlockOps(r, 32, records, 32)[..16])
    ensures e > 16 <==> Legal(ApplyAll(mid, BlockOps(r, 32, records, 32)[..16]), BlockOps(r, 32, records, 32)[16])
  {
    hide BlockOps, Unwritten, ApplyAll, Legal;
    var ops := BlockOps(r, 32, records, 32);
    FirstEightLegal(mid, r, records);
    OverrunAddresses(r, records, |mid|);
    assert ops + tail == ops[..16] + (ops[16..] + tail);
    RanReaches(mid, ops[..16], ops[16..] + tail, e, now);
    assert (ops + tail)[32] == ops[32] && (ops + tail)[16] == ops[16];
    RanInBounds(mid, ops + tail, e, now, 32);
    assert (ops + tail)[..e] == ops[..e];
    assert e > 16 ==> ops[..e][..16] == ops[..16] && ops[..e][16] == ops[16];
  }

  /** What it leaves of rerank block 0 and its CRC word. */
  lemma OverrunLeaves(mid: Bytes, r: Area, records: Bytes, e: nat)
    requires Overruns(r, records, |mid|) && 16 <= e <= 32
    requires AllInBounds(|mid|, BlockOps(r, 32, records, 32)[..e])
    ensures var now := ApplyAll(mid, BlockOps(r, 32, records, 32)[..e]);
            && BlockAt(now, r, 0) == BlockAt(mid, r, 0)
            && CrcAt(now, r, 0) == if e > 16 then Chunk(records, 8)[..CRC_BYTES] else CrcAt(mid, r, 0)
  {
    hide BlockOps, ApplyAll, Slice, Chunk, Write;
    var ops := BlockOps(r, 32, records, 32);
    OverrunAddresses(r, records, |mid|);
    ApplyAllElsewhere(mid, ops[..e], r.base, BLOCK_BYTES);
    if e == 16 {
      ApplyAllElsewhere(mid, ops[..16], r.crc, CRC_BYTES);
    } else {
      var rest := ops[17..e];
      assert ops[..e] == ops[..17] + rest;
      FirstSeventeen(mid, r, records);
      ApplyAllConcat(mid, ops[..17], rest);
      ApplyAllElsewhere(ApplyAll(mid, ops[..17]), rest, r.crc, CRC_BYTES);
    }
  }

  lemma FirstSeventeen(mid: Bytes, r: Area, records: Bytes)
    requires Overruns(r, records, |mid|) && AllInBounds(|mid|, BlockOps(r, 32, records, 32)[..17])
    ensures Slice(ApplyAll(mid, BlockOps(r, 32, records, 32)[..17]), r.crc, CRC_BYTES) == Chunk(records, 8)[..CRC_BYTES]
  {
    hide BlockOps, ApplyAll, Slice, Chunk, Write;
    var ops := BlockOps(r, 32, records, 32);
    OverrunAddresses(r, records, |mid|);
    assert ops[..17][..16] == ops[..16];
    var before := ApplyAll(mid, ops[..16]);
    LastOp(mid, ops[..17]);
    WriteThenRead(before, r.crc, Chunk(records, 8));
    FirstBytes(Apply(before, ops[16]), r.crc, Chunk(records, 8));
  }

  lemma LastOp(img: Bytes, ops: seq<Op>)
    requires AllInBounds(|img|, ops) && ops != []
    ensures AllInBounds(|img|, ops[..|ops| - 1]) && InBounds(ApplyAll(img, ops[..|ops| - 1]), ops[|ops| - 1])
    ensures ApplyAll(img, ops) == Apply(ApplyAll(img, ops[..|ops| - 1]), ops[|ops| - 1])
  {
    hide Apply;
  }

  lemma FirstBytes(img: Bytes, at: nat, block: Bytes)
    requires |block| == BLOCK_BYTES && at + BLOCK_BYTES <= |img| && Slice(img, at, BLOCK_BYTES) == block
    ensures Slice(img, at, CRC_BYTES) == block[..CRC_BYTES]
  {
    SliceOfSlice(img, at, BLOCK_BYTES, 0, CRC_BYTES);
  }

  /** The areas of the build, one below the other past the manifest slots. */
  predicate Stacked(p: Area, r: Area) {
    && p.blocks >= 2 && MANIFEST_RESERVED_BYTES <= p.base && MANIFEST_RESERVED_BYTES <= p.crc
    && p.base + BLOCK_BYTES * p.blocks <= r.base && p.crc + CRC_BYTES * p.blocks <= r.base
    && Apart(p.base, BLOCK_BYTES * p.blocks, p.crc, CRC_BYTES * p.blocks)
  }

  /** No operation of the run below the end of the image reaches below the rerank region. */
  lemma OverrunStaysAbove(r: Area, records: Bytes, size: nat, e: nat, x: nat, n: nat)
    requires Overruns(r, records, size) && e <= 32 && x + n <= r.base
    ensures AllApart(BlockOps(r, 32, records, 32)[..e], x, n)
  {
    hide Chunk, CrcBytes, Crc.Crc32;
    var ops := BlockOps(r, 32, records, 32);
    forall i | 0 <= i < e
      ensures Apart(ops[..e][i].addr, OpLength(ops[..e][i]), x, n)
    {
      assert ops[i] == BlockOp(r, 32, records, i);
    }
  }

  lemma PayloadBlockDown(was: Bytes, p: Area, codes: Bytes, r: Area)
    requires |codes| == BLOCK_BYTES && Stacked(p, r) && r.base <= |was| && Fits(p, 1, |was|) && Unwritten(was, p, 1)
    ensures AllLegal(was, BlockOps(p, 1, codes, 1))
    ensures var mid := ApplyAll(was, BlockOps(p, 1, codes, 1));
            && BlockAt(mid, p, 1) == codes && Sealed(mid, p, 1)
            && Slice(mid, 0, MANIFEST_RESERVED_BYTES) == Slice(was, 0, MANIFEST_RESERVED_BYTES)
  {
    hide BlockOps, Unwritten, Slice, ApplyAll, BlockAt, CrcAt, AllLegal;
    BlockOpsLegal(was, p, 1, codes, 1);
    BlockOpsInBounds(p, 1, codes, 1, |was|);
    BlockOpsResult(was, p, 1, codes, 1, 1);
    WholeChunk(codes);
    BlockOpsElsewhere(p, 1, codes, 1, 0, MANIFEST_RESERVED_BYTES);
    ApplyAllElsewhere(was, BlockOps(p, 1, codes, 1), 0, MANIFEST_RESERVED_BYTES);
  }

  lemma WholeChunk(codes: Bytes)
    requires |codes| == BLOCK_BYTES
    ensures Chunk(codes, 0) == codes
  {}

  /** ... and leaves what lies above it. */
  lemma PayloadBlockBelow(was: Bytes, p: Area, codes: Bytes, r: Area, x: nat, n: nat)
    requires |codes| == BLOCK_BYTES && Stacked(p, r) && Fits(p, 1, |was|) && r.base <= x && x + n <= |was|
    ensures AllInBounds(|was|, BlockOps(p, 1, codes, 1))
    ensures Slice(ApplyAll(was, BlockOps(p, 1, codes, 1)), x, n) == Slice(was, x, n)
  {
    hide BlockOps, Slice, ApplyAll;
    BlockOpsInBounds(p, 1, codes, 1, |was|);
    BlockOpsElsewhere(p, 1, codes, 1, x, n);
    ApplyAllElsewhere(was, BlockOps(p, 1, codes, 1), x, n);
  }

  /** Zeros can be programmed over anything. */
  lemma ZerosOnlyClear(was: Bytes, data: Bytes)
    requires |was| == |data| && forall i :: 0 <= i < |data| ==> data[i] == 0
    ensures OnlyClears(was, data)
  {}

  predicate AllZero(data: Bytes) {
    forall i :: 0 <= i < |data| ==> data[i] == 0
  }

  /**
   What the flash holds after the misjudged append, `done` operations in: the batch's codes, the
   slots as they were, and the first record's block under its own CRC word or under the first
   bytes of the block that overran, which the flash takes only where they clear bits of it.
   */
  ghost predicate Overran(was: Bytes, p: Area, codes: Bytes, r: Area, records: Bytes, done: nat, now: Bytes)
    requires Overruns(r, records, |was|) && Fits(p, 1, |was|)
  {
    && 18 <= done <= 34 && |now| == |was|
    && Slice(now, 0, MANIFEST_RESERVED_BYTES) == Slice(was, 0, MANIFEST_RESERVED_BYTES)
    && BlockAt(now, p, 1) == codes && Sealed(now, p, 1)
    && BlockAt(now, r, 0) == BlockAt(was, r, 0)
    && CrcAt(now, r, 0) == (if done > 18 then Chunk(records, 8)[..CRC_BYTES] else CrcAt(was, r, 0))
    && (done > 18 ==> OnlyClears(CrcAt(was, r, 0), Chunk(records, 8)[..CRC_BYTES]))
    && (AllZero(Chunk(records, 8)) ==> done > 18)
  }

  lemma OverrunCall(was: Bytes, p: Area, codes: Bytes, r: Area, records: Bytes, tail: seq<Op>, done: nat, now: Bytes)
    requires |codes| == BLOCK_BYTES && Stacked(p, r) && Overruns(r, records, |was|)
    requires Fits(p, 1, |was|) && Unwritten(was, p, 1) && MANIFEST_RESERVED_BYTES <= |was|
    requires forall b: nat | 32 <= b < 40 :: Unwritten(was, r, b)
    requires Ran(was, BlockOps(p, 1, codes, 1) + (BlockOps(r, 32, records, 32) + tail), done, now)
    ensures Overran(was, p, codes, r, records, done, now)
  {
    hide BlockOps, Unwritten, Slice, ApplyAll, AllLegal, Ran, Sealed, OnlyClears, AllZero, Chunk, Legal;
    var first, ops := BlockOps(p, 1, codes, 1), BlockOps(r, 32, records, 32);
    PayloadBlockDown(was, p, codes, r);
    PayloadBlockBelow(was, p, codes, r, r.base, BLOCK_BYTES);
    PayloadBlockBelow(was, p, codes, r, r.crc, CRC_BYTES);
    var mid := ApplyAll(was, first);
    forall b: nat | 32 <= b < 40
      ensures Unwritten(mid, r, b)
    {
      BlockStaysUnwritten(was, p, codes, r, b);
    }
    RanRest(was, first, ops + tail, done, now);
    var e := done - 2;
    OverrunStops(mid, r, records, tail, e, now);
    OverrunLeaves(mid, r, records, e);
    OverrunStaysAbove(r, records, |was|, e, 0, MANIFEST_RESERVED_BYTES);
    ApplyAllElsewhere(mid, ops[..e], 0, MANIFEST_RESERVED_BYTES);
    OverrunStaysAbove(r, records, |was|, e, BlockAddr(p, 1), BLOCK_BYTES);
    ApplyAllElsewhere(mid, ops[..e], BlockAddr(p, 1), BLOCK_BYTES);
    OverrunStaysAbove(r, records, |was|, e, CrcAddr(p, 1), CRC_BYTES);
    ApplyAllElsewhere(mid, ops[..e], CrcAddr(p, 1), CRC_BYTES);
    SameBlockSameState(mid, now, p, 1);
    OverrunAllowed(mid, r, records);
  }

  lemma BlockStaysUnwritten(was: Bytes, p: Area, codes: Bytes, r: Area, b: nat)
    requires |codes| == BLOCK_BYTES && Stacked(p, r) && Fits(p, 1, |was|) && Fits(r, b, |was|) && r.base <= r.crc
    requires Unwritten(was, r, b)
    ensures AllInBounds(|was|, BlockOps(p, 1, codes, 1))
    ensures Unwritten(ApplyAll(was, BlockOps(p, 1, codes, 1)), r, b)
  {
    hide BlockOps, Slice, ApplyAll;
    PayloadBlockBelow(was, p, codes, r, BlockAddr(r, b), BLOCK_BYTES);
    PayloadBlockBelow(was, p, codes, r, CrcAddr(r, b), CRC_BYTES);
  }

  /** The operation at the CRC words: what it needs of the first word, and when nothing can stop it. */
  lemma OverrunAllowed(mid: Bytes, r: Area, records: Bytes)
    requires Overruns(r, records, |mid|) && AllInBounds(|mid|, BlockOps(r, 32, records, 32)[..16])
    ensures var x := ApplyAll(mid, BlockOps(r, 32, records, 32)[..16]);
            && (Legal(x, BlockOps(r, 32, records, 32)[16]) ==> OnlyClears(CrcAt(mid, r, 0), Chunk(records, 8)[..CRC_BYTES]))
            && (AllZero(Chunk(records, 8)) ==> Legal(x, BlockOps(r, 32, records, 32)[16]))
  {
    hide BlockOps, Slice, ApplyAll, Chunk, OnlyClears;
    var ops, x := BlockOps(r, 32, records, 32), ApplyAll(mid, BlockOps(r, 32, records, 32)[..16]);
    OverrunAddresses(r, records, |mid|);
    OverrunLeaves(mid, r, records, 16);
    if AllZero(Chunk(records, 8)) {
      ZerosOnlyClear(Slice(x, r.crc, BLOCK_BYTES), Chunk(records, 8));
    }
    if OnlyClears(Slice(x, r.crc, BLOCK_BYTES), Chunk(records, 8)) {
      FirstBytes(x, r.crc, Slice(x, r.crc, BLOCK_BYTES));
      PrefixClears(Slice(x, r.crc, BLOCK_BYTES), Chunk(records, 8));
    }
  }

  lemma PrefixClears(was: Bytes, data: Bytes)
    requires OnlyClears(was, data) && |data| >= CRC_BYTES
    ensures OnlyClears(was[..CRC_BYTES], data[..CRC_BYTES])
  {
    hide ClearsBits;
  }

  // ---------------------------------------------------------------- the call

  /** The build's areas are as the run above needs them. */
  lemma ReservedAreas(image: Image, records: Bytes)
    requires Buildable(image) && ReservedForThirtyTwo(image) && |records| == BLOCK_BYTES * 32
    ensures Stacked(PayloadOf(image), RerankOf(image)) && Overruns(RerankOf(image), records, |Emitted(image)|)
    ensures Fits(PayloadOf(image), 1, |Emitted(image)|) && MANIFEST_RESERVED_BYTES <= |Emitted(image)|
  {
    hide Emitted, ManifestOf, BaseOf, TableOf, Image.Extents;
    var e := image.Extents();
    ReservedExtents(image);
    StoredTable(image);
    BlocksInside(image);
    LastBases(e);
  }

  lemma LastBases(e: seq<nat>)
    requires |e| == REGION_COUNT
    ensures BaseOf(e, 3) == BaseOf(e, 2) + e[2] && BaseOf(e, 4) == BaseOf(e, 3) + e[3]
    ensures BaseOf(e, 5) == BaseOf(e, 4) + e[4] && BaseOf(e, 6) == BaseOf(e, 5) + e[5]
  {}

  /** The operations of the batch, whatever its bytes. */
  lemma OverrunJob(image: Image, job: Job, done: nat, now: Bytes)
    requires Buildable(image) && CodesShow(image) && ReservedForThirtyTwo(image)
    requires job.Valid() && job.m == ManifestOf(image) && job.head == 1 && job.blocks == 1
    requires Ran(Emitted(image), job.Ops(), done, now)
    ensures OverranImage(image, job.codes, job.records, done, now)
    ensures done < |job.Ops()|
  {
    hide Sound, Usable, Emitted, ManifestOf, Image.Extents, Supported, PayloadArea, RerankArea, BaseOf, TableOf,
      UnwrittenFrom, BlockOps, Ran, Overran, Overruns, Stacked, Unwritten, PayloadOf, RerankOf, Job.InstallOps,
      CodesShow, BuiltPayload, BuiltRerank, RatioTimes;
    var was, p, r := Emitted(image), PayloadOf(image), RerankOf(image);
    BuiltIsSound(image);
    StoredFields(image);
    ManifestIs(image);
    SmallVolume(job.m);
    ReservedExtents(image);
    ReservedAreas(image, job.records);
    BuiltPayloadSealed(image);
    UnwrittenEach(was, p, 1);
    UnwrittenEach(was, r, 1);
    OverrunBlocks(r, job.records, |was|);
    assert job.Ops() == BlockOps(p, 1, job.codes, 1) + (BlockOps(r, 32, job.records, 32) + job.InstallOps());
    OverrunCall(was, p, job.codes, r, job.records, job.InstallOps(), done, now);
    OverranDone(was, p, job.codes, r, job.records, done, now);
  }

  /** The build after the call. */
  ghost predicate OverranImage(image: Image, codes: Bytes, records: Bytes, done: nat, now: Bytes)
    requires Buildable(image)
  {
    && Overruns(RerankOf(image), records, |Emitted(image)|) && Fits(PayloadOf(image), 1, |Emitted(image)|)
    && Overran(Emitted(image), PayloadOf(image), codes, RerankOf(image), records, done, now)
  }

  lemma OverranDone(was: Bytes, p: Area, codes: Bytes, r: Area, records: Bytes, done: nat, now: Bytes)
    requires Overruns(r, records, |was|) && Fits(p, 1, |was|) && Overran(was, p, codes, r, records, done, now)
    ensures 18 <= done <= 34
  {}

  lemma OverrunBlocks(r: Area, records: Bytes, size: nat)
    requires Overruns(r, records, size)
    ensures r.blocks == 40
  {}

  lemma SlotsKept(was: Bytes, now: Bytes)
    requires |now| == |was| && MANIFEST_RESERVED_BYTES <= |was|
    requires Slice(now, 0, MANIFEST_RESERVED_BYTES) == Slice(was, 0, MANIFEST_RESERVED_BYTES)
    ensures Mounted(now) == Mounted(was)
  {
    hide Slice, Decode;
    SliceOfSlice(was, 0, MANIFEST_RESERVED_BYTES, SLOT_A, SECTOR_BYTES);
    SliceOfSlice(now, 0, MANIFEST_RESERVED_BYTES, SLOT_A, SECTOR_BYTES);
    SliceOfSlice(was, 0, MANIFEST_RESERVED_BYTES, SLOT_B, SECTOR_BYTES);
    SliceOfSlice(now, 0, MANIFEST_RESERVED_BYTES, SLOT_B, SECTOR_BYTES);
  }

  /** The outcome of `append`, called on the build with 128 vectors. */
  ghost predicate MisjudgedCall(image: Image, log: seq<Op>, codes: Bytes, records: Bytes,
                                r: Result<Report, AppendError>, done: nat, now: Bytes, nowLog: seq<Op>)
    requires Buildable(image)
  {
    && MANIFEST_RESERVED_BYTES <= |Emitted(image)|
    && Mounted(Emitted(image)) == Ok(ManifestOf(image)) && Laid(ManifestOf(image), |Emitted(image)|)
    && Outcome(Emitted(image), log, codes, records, 128, r, done, now, nowLog)
  }

  /** A call that passes the plan runs the job's operations. */
  lemma CallRuns(was: Bytes, m: Manifest, log: seq<Op>, codes: Bytes, records: Bytes,
                 r: Result<Report, AppendError>, done: nat, now: Bytes, nowLog: seq<Op>)
    requires MANIFEST_RESERVED_BYTES <= |was| && Mounted(was) == Ok(m) && Laid(m, |was|)
    requires PlanFor(was, m, 128) == Ok(1) && Supported(m) && PayloadArea(m).per == 128
    requires Outcome(was, log, codes, records, 128, r, done, now, nowLog)
    ensures var job := JobFor(m, 1, 128, codes, records);
            && job.Valid() && job.blocks == 1 && Ran(was, job.Ops(), done, now)
            && (done < |job.Ops()| ==> r == Err(Engine))
  {
    hide Mounted, Laid, PlanFor, Ran, ReportOf, Supported, PayloadArea, RerankArea, RatioTimes, Job.Ops, Job.Valid;
    QuotientIs(128, 128, 1);
  }

  lemma CallOverruns(image: Image, log: seq<Op>, codes: Bytes, records: Bytes,
                     r: Result<Report, AppendError>, done: nat, now: Bytes, nowLog: seq<Op>)
    requires Buildable(image) && CodesShow(image) && ReservedForThirtyTwo(image)
    requires MisjudgedCall(image, log, codes, records, r, done, now, nowLog)
    ensures r == Err(Engine) && OverranImage(image, codes, records, done, now)
  {
    hide Sound, Usable, Emitted, ManifestOf, Supported, PayloadArea, RerankArea, RatioTimes, Job.Ops, Outcome, PlanFor,
      Ran, Job.Room, CodesShow, OverranImage, Mounted, Laid, WritesBlockAt, Job.RerankOps;
    var m := ManifestOf(image);
    StoredFields(image);
    ManifestIs(image);
    SmallVolume(m);
    BuiltPlan(image);
    CallRuns(Emitted(image), m, log, codes, records, r, done, now, nowLog);
    OverrunJob(image, JobFor(m, 1, 128, codes, records), done, now);
  }

  lemma BuiltPlan(image: Image)
    requires Buildable(image) && CodesShow(image) && ReservedForThirtyTwo(image)
    ensures Laid(ManifestOf(image), |Emitted(image)|) && PlanFor(Emitted(image), ManifestOf(image), 128) == Ok(1)
  {
    hide Sound, Usable, Emitted, ManifestOf, Image.Extents, Supported, PayloadArea, RerankArea, UnwrittenFrom, PlanFor,
      CodesShow, PayloadOf, RerankOf, BaseOf, TableOf;
    BuiltIsSound(image);
    BuiltIsLaid(image);
    StoredFields(image);
    ManifestIs(image);
    ReservedExtents(image);
    ReservedBlocks(image);
    SoundIsUsable(Emitted(image), ManifestOf(image), 1);
    SmallPlan(Emitted(image), ManifestOf(image));
  }

  lemma ReservedBlocks(image: Image)
    requires Buildable(image) && ReservedForThirtyTwo(image)
    ensures PayloadOf(image).blocks == 8 && RerankOf(image).blocks == 40
  {
    hide BaseOf, TableOf, Image.Extents;
    ReservedExtents(image);
    StoredTable(image);
  }

  /**
   What becomes of the first vector's record. It was sealed. If the first bytes of the batch's
   block 8 would set a bit of its CRC word, the flash refuses that block and the record stays
   sealed; a block of zeros is programmed, and the record is then sealed only if its CRC word
   was zero too.
   */
  ghost predicate RecordFate(was: Bytes, a: Area, m: Manifest, records: Bytes, done: nat, now: Bytes) {
    && |records| == BLOCK_BYTES * 32 && |now| == |was|
    && Fits(a, 0, |was|) && Written(m, a.per, 0) && Sealed(was, a, 0)
    && var word := Chunk(records, 8)[..CRC_BYTES];
       && (Sealed(now, a, 0) <==> done == 18 || word == CrcAt(was, a, 0))
       && (!OnlyClears(CrcAt(was, a, 0), word) ==> done == 18)
       && (AllZero(Chunk(records, 8)) ==> done > 18)
  }

  lemma OverranFate(was: Bytes, p: Area, codes: Bytes, r: Area, records: Bytes, m: Manifest, done: nat, now: Bytes)
    requires Overruns(r, records, |was|) && Fits(p, 1, |was|) && Overran(was, p, codes, r, records, done, now)
    requires Written(m, r.per, 0) && HeldSealed(was, m, r)
    ensures RecordFate(was, r, m, records, done, now)
  {
    hide BlockAt, CrcAt, Crc.Crc32, CrcBytes, OnlyClears, AllZero, Slice, Chunk, Written;
  }

  lemma FirstIdWritten(m: Manifest, per: nat)
    requires m.builtN == 1
    ensures Written(m, per, 0)
  {}

  /** What comes of the call, for every batch: it fails, the manifest stays, and the first record meets its fate. */
  lemma MisjudgedCallFails(image: Image, log: seq<Op>, codes: Bytes, records: Bytes,
                           r: Result<Report, AppendError>, done: nat, now: Bytes, nowLog: seq<Op>)
    requires Buildable(image) && CodesShow(image) && ReservedForThirtyTwo(image)
    requires MisjudgedCall(image, log, codes, records, r, done, now, nowLog)
    ensures r == Err(Engine)
    ensures RecordFate(Emitted(image), RerankOf(image), ManifestOf(image), records, done, now)
    ensures MANIFEST_RESERVED_BYTES <= |now| && Mounted(now) == Ok(ManifestOf(image))
  {
    hide Emitted, ManifestOf, Mounted, Laid, Outcome, PayloadOf, RerankOf, CodesShow, Overran, Sound, Usable,
      RecordFate, HeldSealed, Written, Overruns;
    CallOverruns(image, log, codes, records, r, done, now, nowLog);
    OverranSlots(image, codes, records, done, now);
    BuiltRerankSealed(image);
    StoredFields(image);
    FirstIdWritten(ManifestOf(image), RerankOf(image).per);
    OverranFate(Emitted(image), PayloadOf(image), codes, RerankOf(image), records, ManifestOf(image), done, now);
  }

  lemma OverranSlots(image: Image, codes: Bytes, records: Bytes, done: nat, now: Bytes)
    requires Buildable(image) && OverranImage(image, codes, records, done, now) && MANIFEST_RESERVED_BYTES <= |Emitted(image)|
    ensures |now| == |Emitted(image)| && Mounted(now) == Mounted(Emitted(image))
  {
    hide Emitted, Mounted, PayloadOf, RerankOf, BlockAt, CrcAt, Sealed, OnlyClears, AllZero, Slice, Chunk;
    SlotsKept(Emitted(image), now);
  }
}
