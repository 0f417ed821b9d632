/**
 What one append leaves behind: when it completes, and wherever power loss stops it.

 An append is a list of program and erase operations. A crash state is the image after a
 prefix of that list, or that image with any of the next operation's bits changed. The
 extents those operations touch are kept apart from the live manifest slot and from every
 block below the head, and each program is one the flash accepts: it only clears bits.
 */
module Crash {
  import opened Options
  import opened Flash
  import opened Codec
  import opened Region
  import opened Manifests
  import opened Arith
  import opened Layouts
  import opened Volumes
  import opened BlockAppend
  import opened Append

  /** A job planned at the head of a usable volume, with room for it and codes that do not look erased. */
  ghost predicate Ready(img: Bytes, job: Job) {
    && job.Valid() && Usable(img, job.m, job.head)
    && job.blocks > 0 && job.Room()
    && job.m.sequence + 1 < U64_LIMIT
    && forall i: nat | i < job.blocks :: !IsErased(Chunk(job.codes, i))
  }

  // ---------------------------------------------------------------- where the operations are

  /** The extents a job writes, and where the two areas lie. */
  ghost predicate Sited(job: Job, size: nat)
    requires job.Valid()
  {
    var p, r := job.P(), job.R();
    && Placed(p, job.head, job.blocks, size)
    && Placed(r, job.RerankAt(), job.RerankCount(), size)
    && Clear(r, p.base, BLOCK_BYTES * p.blocks) && Clear(r, p.crc, CRC_BYTES * p.blocks)
    && Clear(p, SLOT_A, SECTOR_BYTES) && Clear(p, SLOT_B, SECTOR_BYTES)
    && Clear(r, SLOT_A, SECTOR_BYTES) && Clear(r, SLOT_B, SECTOR_BYTES)
    && MANIFEST_RESERVED_BYTES <= size
  }

  lemma ReadyIsSited(img: Bytes, job: Job)
    requires Ready(img, job)
    ensures Sited(job, |img|)
  {
    hide Laid, Supported, HeldSealed, HeldInside, Installed, Frontier, PayloadArea, RerankArea, Ratio;
    AreasApart(job.m, |img|);
    AreasWithin(job.m, |img|);
    assert MANIFEST_RESERVED_BYTES <= |img| by {
      LaidHasSlots(job.m, |img|);
    }
  }

  lemma LaidHasSlots(m: Manifest, size: nat)
    requires Laid(m, size)
    ensures MANIFEST_RESERVED_BYTES <= size
  {}

  lemma RunClear(a: Area, at: nat, k: nat, size: nat, x: nat, n: nat)
    requires Placed(a, at, k, size) && Clear(a, x, n)
    ensures Apart(BlockAddr(a, at), BLOCK_BYTES * k, x, n) && Apart(CrcAddr(a, at), CRC_BYTES * k, x, n)
  {}

  /** A run of blocks misses every other block of its area, and its CRC word. */
  lemma RunMissesOthers(a: Area, at: nat, k: nat, size: nat, b: nat)
    requires Placed(a, at, k, size) && b < a.blocks && (b < at || b >= at + k)
    ensures Apart(BlockAddr(a, at), BLOCK_BYTES * k, BlockAddr(a, b), BLOCK_BYTES)
    ensures Apart(CrcAddr(a, at), CRC_BYTES * k, BlockAddr(a, b), BLOCK_BYTES)
    ensures Apart(BlockAddr(a, at), BLOCK_BYTES * k, CrcAddr(a, b), CRC_BYTES)
    ensures Apart(CrcAddr(a, at), CRC_BYTES * k, CrcAddr(a, b), CRC_BYTES)
  {}

  lemma BlockClearOfSlots(a: Area, b: nat)
    requires Clear(a, SLOT_A, SECTOR_BYTES) && Clear(a, SLOT_B, SECTOR_BYTES) && b < a.blocks
    ensures Apart(SLOT_A, SECTOR_BYTES, BlockAddr(a, b), BLOCK_BYTES) && Apart(SLOT_B, SECTOR_BYTES, BlockAddr(a, b), BLOCK_BYTES)
    ensures Apart(SLOT_A, SECTOR_BYTES, CrcAddr(a, b), CRC_BYTES) && Apart(SLOT_B, SECTOR_BYTES, CrcAddr(a, b), CRC_BYTES)
  {}

  /** `[x, x + n)` is clear of the blocks and CRC words a job adds. */
  predicate ClearOfData(job: Job, x: nat, n: nat)
    requires job.Valid()
  {
    && Apart(BlockAddr(job.P(), job.head), BLOCK_BYTES * job.blocks, x, n)
    && Apart(CrcAddr(job.P(), job.head), CRC_BYTES * job.blocks, x, n)
    && Apart(BlockAddr(job.R(), job.RerankAt()), BLOCK_BYTES * job.RerankCount(), x, n)
    && Apart(CrcAddr(job.R(), job.RerankAt()), CRC_BYTES * job.RerankCount(), x, n)
  }

  lemma DataOpsElsewhere(job: Job, x: nat, n: nat)
    requires job.Valid() && ClearOfData(job, x, n)
    ensures AllApart(job.PayloadOps(), x, n) && AllApart(job.RerankOps(), x, n) && AllApart(job.DataOps(), x, n)
  {
    hide BlockOps, PayloadArea, RerankArea, Ratio, Supported, Apart;
    BlockOpsElsewhere(job.P(), job.head, job.codes, job.blocks, x, n);
    BlockOpsElsewhere(job.R(), job.RerankAt(), job.records, job.RerankCount(), x, n);
  }

  lemma OpsElsewhere(job: Job, x: nat, n: nat)
    requires job.Valid() && ClearOfData(job, x, n) && Apart(job.Spare(), SECTOR_BYTES, x, n)
    ensures AllApart(job.Ops(), x, n) && AllApart(job.InstallOps(), x, n)
  {
    hide PayloadArea, RerankArea, Ratio, Supported, ClearOfData, BlockOps, Encoded;
    DataOpsElsewhere(job, x, n);
    var ops := job.InstallOps();
    assert forall i | 0 <= i < |ops| :: ops[i].addr == job.Spare() && OpLength(ops[i]) == SECTOR_BYTES;
  }

  ghost predicate Bounded(job: Job, size: nat)
    requires job.Valid()
  {
    && AllInBounds(size, job.PayloadOps()) && AllInBounds(size, job.RerankOps())
    && AllInBounds(size, job.DataOps()) && AllInBounds(size, job.InstallOps()) && AllInBounds(size, job.Ops())
  }

  lemma OpsInBounds(job: Job, size: nat)
    requires job.Valid() && Sited(job, size)
    ensures Bounded(job, size)
  {
    hide BlockOps, PayloadArea, RerankArea, Ratio, Supported, Clear, Encoded, Placed;
    BlockOpsInBounds(job.P(), job.head, job.codes, job.blocks, size);
    BlockOpsInBounds(job.R(), job.RerankAt(), job.records, job.RerankCount(), size);
  }

  lemma SlotsClearOfData(job: Job, size: nat)
    requires job.Valid() && Sited(job, size)
    ensures ClearOfData(job, SLOT_A, SECTOR_BYTES) && ClearOfData(job, SLOT_B, SECTOR_BYTES)
  {
    hide PayloadArea, RerankArea, Ratio, Supported, Clear, Placed, Apart, BlockAddr, CrcAddr;
    var p, r, h, k := job.P(), job.R(), job.head, job.K();
    RunClear(p, h, job.blocks, size, SLOT_A, SECTOR_BYTES);
    RunClear(p, h, job.blocks, size, SLOT_B, SECTOR_BYTES);
    RunClear(r, job.RerankAt(), job.RerankCount(), size, SLOT_A, SECTOR_BYTES);
    RunClear(r, job.RerankAt(), job.RerankCount(), size, SLOT_B, SECTOR_BYTES);
  }

  /** The live slot is never touched. */
  lemma LiveSlotElsewhere(job: Job, size: nat)
    requires job.Valid() && Sited(job, size)
    ensures AllApart(job.Ops(), SlotOf(job.m.sequence), SECTOR_BYTES)
  {
    hide PayloadArea, RerankArea, Ratio, Supported, ClearOfData, Sited;
    SlotsClearOfData(job, size);
    OpsElsewhere(job, SlotOf(job.m.sequence), SECTOR_BYTES);
  }

  /** Neither is any block outside the ones the job adds, nor its CRC word. */
  lemma OtherPayloadBlockElsewhere(job: Job, size: nat, b: nat)
    requires job.Valid() && Sited(job, size) && b < job.P().blocks
    requires b < job.head || b >= job.head + job.blocks
    ensures AllApart(job.Ops(), BlockAddr(job.P(), b), BLOCK_BYTES)
    ensures AllApart(job.Ops(), CrcAddr(job.P(), b), CRC_BYTES)
  {
    hide PayloadArea, RerankArea, Ratio, Supported, AllApart, Clear, Placed, Apart, BlockAddr, CrcAddr, Job.Ops,
      Manifest.RangeOrdered;
    var p, r, h, k := job.P(), job.R(), job.head, job.K();
    RunMissesOthers(p, h, job.blocks, size, b);
    BlockClear(p, r, b);
    RunClear(r, job.RerankAt(), job.RerankCount(), size, BlockAddr(p, b), BLOCK_BYTES);
    RunClear(r, job.RerankAt(), job.RerankCount(), size, CrcAddr(p, b), CRC_BYTES);
    BlockClearOfSlots(p, b);
    OpsElsewhere(job, BlockAddr(p, b), BLOCK_BYTES);
    OpsElsewhere(job, CrcAddr(p, b), CRC_BYTES);
  }

  lemma OtherRerankBlockElsewhere(job: Job, size: nat, b: nat)
    requires job.Valid() && Sited(job, size) && b < job.R().blocks
    requires b < job.RerankAt() || b >= job.RerankAt() + job.RerankCount()
    ensures AllApart(job.Ops(), BlockAddr(job.R(), b), BLOCK_BYTES)
    ensures AllApart(job.Ops(), CrcAddr(job.R(), b), CRC_BYTES)
  {
    hide PayloadArea, RerankArea, Ratio, Supported, AllApart, Clear, Placed, Apart, BlockAddr, CrcAddr, Job.Ops,
      Manifest.RangeOrdered;
    var p, r, h, k := job.P(), job.R(), job.head, job.K();
    RunMissesOthers(r, job.RerankAt(), job.RerankCount(), size, b);
    ClearSwaps(p, r);
    BlockClear(r, p, b);
    RunClear(p, h, job.blocks, size, BlockAddr(r, b), BLOCK_BYTES);
    RunClear(p, h, job.blocks, size, CrcAddr(r, b), CRC_BYTES);
    BlockClearOfSlots(r, b);
    OpsElsewhere(job, BlockAddr(r, b), BLOCK_BYTES);
    OpsElsewhere(job, CrcAddr(r, b), CRC_BYTES);
  }

  // ---------------------------------------------------------------- every operation is legal

  ghost function AfterPayload(img: Bytes, job: Job): (r: Bytes)
    requires job.Valid() && Bounded(job, |img|)
    ensures |r| == |img|
  {
    ApplyAll(img, job.PayloadOps())
  }

  ghost function AfterData(img: Bytes, job: Job): (r: Bytes)
    requires job.Valid() && Bounded(job, |img|)
    ensures |r| == |img|
  {
    ApplyAll(AfterPayload(img, job), job.RerankOps())
  }

  /** A run in one area leaves every block of the other as it was. */
  lemma RunSparesArea(img: Bytes, a: Area, at: nat, data: Bytes, k: nat, other: Area, b: nat)
    requires |data| == BLOCK_BYTES * k && Placed(a, at, k, |img|) && Fits(other, b, |img|)
    requires Clear(other, a.base, BLOCK_BYTES * a.blocks) && Clear(other, a.crc, CRC_BYTES * a.blocks)
    requires AllInBounds(|img|, BlockOps(a, at, data, k))
    ensures var now := ApplyAll(img, BlockOps(a, at, data, k));
            BlockAt(now, other, b) == BlockAt(img, other, b) && CrcAt(now, other, b) == CrcAt(img, other, b)
  {
    hide BlockOps, ApplyAll, Slice, AllApart, Clear, Placed, Apart;
    ClearSwaps(a, other);
    BlockClear(other, a, b);
    RunClear(a, at, k, |img|, BlockAddr(other, b), BLOCK_BYTES);
    RunClear(a, at, k, |img|, CrcAddr(other, b), CRC_BYTES);
    BlockOpsElsewhere(a, at, data, k, BlockAddr(other, b), BLOCK_BYTES);
    BlockOpsElsewhere(a, at, data, k, CrcAddr(other, b), CRC_BYTES);
    ApplyAllElsewhere(img, BlockOps(a, at, data, k), BlockAddr(other, b), BLOCK_BYTES);
    ApplyAllElsewhere(img, BlockOps(a, at, data, k), CrcAddr(other, b), CRC_BYTES);
  }

  lemma RunSparesUnwritten(img: Bytes, a: Area, at: nat, data: Bytes, k: nat, other: Area, b: nat)
    requires |data| == BLOCK_BYTES * k && Placed(a, at, k, |img|) && Fits(other, b, |img|)
    requires Clear(other, a.base, BLOCK_BYTES * a.blocks) && Clear(other, a.crc, CRC_BYTES * a.blocks)
    requires AllInBounds(|img|, BlockOps(a, at, data, k))
    ensures Unwritten(img, other, b) ==> Unwritten(ApplyAll(img, BlockOps(a, at, data, k)), other, b)
  {
    hide BlockOps, ApplyAll, Slice, AllApart, Clear, Placed;
    RunSparesArea(img, a, at, data, k, other, b);
  }

  /** The blocks a job will write are untouched when it starts. */
  lemma TargetsUnwritten(img: Bytes, job: Job)
    requires Ready(img, job)
    ensures UnwrittenFrom(img, job.P(), job.head) && UnwrittenFrom(img, job.R(), job.RerankAt())
  {
    hide Laid, Supported, HeldSealed, HeldInside, Installed, PayloadArea, RerankArea, Ratio, Unwritten;
  }

  lemma InstallLegal(mid: Bytes, job: Job)
    requires job.Valid() && MANIFEST_RESERVED_BYTES <= |mid|
    ensures AllLegal(mid, job.InstallOps())
    ensures AllInBounds(|mid|, job.InstallOps())
    ensures SlotBytes(ApplyAll(mid, job.InstallOps()), job.Spare()) == Encoded(job.Next())
  {
    hide Encoded, Slice, Write, OnlyClears, Supported, Updated;
    var first, second := Erase(job.Spare()), Program(job.Spare(), Encoded(job.Next()));
    var erased := Apply(mid, first);
    WriteThenRead(mid, job.Spare(), Blank(SECTOR_BYTES));
    ErasedTakesAnything(Slice(erased, job.Spare(), SECTOR_BYTES), Encoded(job.Next()));
    TwoSteps(mid, first, erased, second, Apply(erased, second));
    WriteThenRead(erased, job.Spare(), Encoded(job.Next()));
  }

  /** Two runs in separate areas over untouched blocks, one after the other. */
  lemma TwoRunsLegal(img: Bytes, p: Area, x: nat, codes: Bytes, c: nat, r: Area, y: nat, records: Bytes, k: nat)
    requires |codes| == BLOCK_BYTES * c && Placed(p, x, c, |img|)
    requires |records| == BLOCK_BYTES * k && Placed(r, y, k, |img|)
    requires Clear(r, p.base, BLOCK_BYTES * p.blocks) && Clear(r, p.crc, CRC_BYTES * p.blocks)
    requires forall b: nat | x <= b < p.blocks :: Unwritten(img, p, b)
    requires forall b: nat | y <= b < r.blocks :: Unwritten(img, r, b)
    ensures AllLegal(img, BlockOps(p, x, codes, c))
    ensures AllLegal(ApplyAll(img, BlockOps(p, x, codes, c)), BlockOps(r, y, records, k))
  {
    hide BlockOps, ApplyAll, AllLegal, Unwritten, Clear;
    BlockOpsInBounds(p, x, codes, c, |img|);
    BlockOpsLegal(img, p, x, codes, c);
    var mid := ApplyAll(img, BlockOps(p, x, codes, c));
    forall b: nat | y <= b < r.blocks
      ensures Unwritten(mid, r, b)
    {
      RunSparesUnwritten(img, p, x, codes, c, r, b);
    }
    BlockOpsLegal(mid, r, y, records, k);
  }

  lemma DataIsLegal(img: Bytes, job: Job)
    requires Ready(img, job) && Sited(job, |img|) && Bounded(job, |img|)
    ensures AllLegal(img, job.DataOps()) && ApplyAll(img, job.DataOps()) == AfterData(img, job)
  {
    hide Sound, Usable, PayloadArea, RerankArea, RatioTimes, Supported, BlockOps, ApplyAll, AllLegal, Unwritten, Clear,
      Placed, Apart, Chunk, IsErased, AllInBounds, Manifest.RangeOrdered;
    TargetsUnwritten(img, job);
    TwoRunsLegal(img, job.P(), job.head, job.codes, job.blocks, job.R(), job.RerankAt(), job.records, job.RerankCount());
    LegalConcat(img, job.PayloadOps(), job.RerankOps());
  }

  /** Every operation of a ready append only clears bits, or erases the spare slot. */
  lemma AppendIsLegal(img: Bytes, job: Job)
    requires Ready(img, job)
    ensures Bounded(job, |img|) && AllLegal(img, job.Ops())
    ensures ApplyAll(img, job.Ops()) == ApplyAll(AfterData(img, job), job.InstallOps())
  {
    hide Sound, Usable, Job.Valid, Job.PayloadOps, Job.RerankOps, Job.InstallOps, Job.DataOps, ApplyAll, AllLegal;
    ReadyIsSited(img, job);
    OpsInBounds(job, |img|);
    DataIsLegal(img, job);
    InstallLegal(AfterData(img, job), job);
    LegalConcat(img, job.DataOps(), job.InstallOps());
  }
}
