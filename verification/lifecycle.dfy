/**
 What appends, completed and interrupted, keep over a volume's life.

 A completed append is the image its operations leave. Its blocks are sealed, the ids it
 adds read back what the caller gave, and the head moves past them. An interrupted one
 leaves between the old head and the new only blocks that no manifest names, so there is a
 head again, a whole number of blocks further on.
 */
module Lifecycle {
  import opened Options
  import opened Flash
  import opened Codec
  import opened Region
  import opened Manifests
  import opened Arith
  import opened Layouts
  import opened Volumes
  import opened BlockAppend
  import opened Append
  import opened Crash
  import opened Atomicity

  // ---------------------------------------------------------------- a completed append

  /** The image after every operation. */
  ghost function Completed(img: Bytes, job: Job): (r: Bytes)
    requires Ready(img, job)
    ensures |r| == |img|
  {
    AppendIsLegal(img, job);
    ApplyAll(img, job.Ops())
  }

  /** Every operation done is the last crash point. */
  lemma CompletedIsStop(img: Bytes, job: Job)
    requires Ready(img, job)
    ensures StoppedAt(img, job, |job.Ops()|, Completed(img, job))
    ensures Sited(job, |img|)
  {
    hide Sound, Usable, Job.Ops, ApplyAll, Legal, Supported, Chunk, AllInBounds, PayloadArea, RerankArea, Ratio;
    AppendIsLegal(img, job);
    ReadyIsSited(img, job);
    assert job.Ops()[..|job.Ops()|] == job.Ops();
  }

  /** Once the data is down, what is left of the append touches no payload block at all. */
  lemma AfterPayloadKeepsPayload(img: Bytes, job: Job, j: nat, img': Bytes, b: nat)
    requires job.Valid() && Sited(job, |img|) && StoppedAt(img, job, j, img') && j >= |job.PayloadOps()|
    requires Fits(job.P(), b, |img|)
    ensures |img'| == |img| && SameBlock(AfterPayload(img, job), img', job.P(), b)
  {
    hide CrashState, BlockOps, Supported, PayloadArea, RerankArea, Ratio, AllApart, AllInBounds, Slice, Encoded,
      Job.InstallOps, Clear, Placed, ApplyAll;
    var rest := job.RerankOps() + job.InstallOps();
    assert job.Ops() == job.PayloadOps() + rest;
    var p, r := job.P(), job.R();
    RestIsElsewhere(job, |img|, b);
    CrashSplit(img, job.PayloadOps(), rest, j, img');
    var mid := AfterPayload(img, job);
    CrashElsewhere(mid, rest, j - |job.PayloadOps()|, img', BlockAddr(p, b), BLOCK_BYTES);
    CrashElsewhere(mid, rest, j - |job.PayloadOps()|, img', CrcAddr(p, b), CRC_BYTES);
  }

  lemma RestIsElsewhere(job: Job, size: nat, b: nat)
    requires job.Valid() && Sited(job, size) && Bounded(job, size) && b < job.P().blocks
    ensures var rest := job.RerankOps() + job.InstallOps();
            && AllInBounds(size, rest)
            && AllApart(rest, BlockAddr(job.P(), b), BLOCK_BYTES) && AllApart(rest, CrcAddr(job.P(), b), CRC_BYTES)
  {
    hide BlockOps, Supported, PayloadArea, RerankArea, Ratio, Encoded, Clear, Placed, Apart, BlockAddr, CrcAddr;
    var p, r := job.P(), job.R();
    BlockClear(p, r, b);
    RunClear(r, job.RerankAt(), job.RerankCount(), size, BlockAddr(p, b), BLOCK_BYTES);
    RunClear(r, job.RerankAt(), job.RerankCount(), size, CrcAddr(p, b), CRC_BYTES);
    BlockOpsElsewhere(r, job.RerankAt(), job.records, job.RerankCount(), BlockAddr(p, b), BLOCK_BYTES);
    BlockOpsElsewhere(r, job.RerankAt(), job.records, job.RerankCount(), CrcAddr(p, b), CRC_BYTES);
    BlockClearOfSlots(p, b);
    InstallElsewhere(job, BlockAddr(p, b), BLOCK_BYTES);
    InstallElsewhere(job, CrcAddr(p, b), CRC_BYTES);
  }

  lemma InstallElsewhere(job: Job, x: nat, n: nat)
    requires job.Valid() && Apart(job.Spare(), SECTOR_BYTES, x, n)
    ensures AllApart(job.InstallOps(), x, n)
  {
    hide Encoded, Apart, Supported;
    InstallIs(job);
  }

  /** A stop with all of the data down: in the install, or at the end. */
  ghost predicate Landed(img: Bytes, job: Job, j: nat, img': Bytes)
    requires job.Valid()
  {
    StoppedAt(img, job, j, img') && j >= |job.DataOps()|
  }

  lemma LandedPastPayload(job: Job)
    requires job.Valid()
    ensures |job.Ops()| >= |job.DataOps()| >= |job.PayloadOps()|
  {}

  /** From then on the blocks the append added hold its codes and its records, each under a matching CRC word. */
  lemma NewPayloadBlock(img: Bytes, job: Job, j: nat, img': Bytes, b: nat)
    requires Ready(img, job) && Landed(img, job, j, img') && job.head <= b < job.head + job.blocks
    ensures |img'| == |img| && Fits(job.P(), b, |img|)
    ensures BlockAt(img', job.P(), b) == Chunk(job.codes, b - job.head) && Sealed(img', job.P(), b)
  {
    hide Sound, Usable, BlockOps, Supported, PayloadArea, RerankArea, Ratio, ApplyAll, BlockAt, CrcAt, Chunk, CrashState,
      AllInBounds, AllLegal, Job.InstallOps, Job.RerankOps, Clear, Sealed;
    ReadyIsSited(img, job);
    BlockOpsResult(img, job.P(), job.head, job.codes, job.blocks, b);
    AfterPayloadKeepsPayload(img, job, j, img', b);
    SameBlockSameState(AfterPayload(img, job), img', job.P(), b);
  }

  lemma NewRerankBlock(img: Bytes, job: Job, j: nat, img': Bytes, b: nat)
    requires Ready(img, job) && Landed(img, job, j, img') && job.RerankAt() <= b < job.RerankAt() + job.RerankCount()
    ensures |img'| == |img| && Fits(job.R(), b, |img|)
    ensures BlockAt(img', job.R(), b) == Chunk(job.records, b - job.RerankAt()) && Sealed(img', job.R(), b)
  {
    hide Sound, Usable, BlockOps, Supported, PayloadArea, RerankArea, Ratio, ApplyAll, BlockAt, CrcAt, Chunk, CrashState,
      AllInBounds, AllLegal, Job.InstallOps, Clear, Sealed, Job.RerankAt;
    ReadyIsSited(img, job);
    DataIsLegal(img, job);
    LandedInInstall(img, job, j, img');
    BlockOpsResult(AfterPayload(img, job), job.R(), job.RerankAt(), job.records, job.RerankCount(), b);
    InstallKeepsBlock(AfterData(img, job), job, j - |job.DataOps()|, img', job.R(), b);
    SameBlockSameState(AfterData(img, job), img', job.R(), b);
  }

  /** Past the data, a stop is a stop of the install. */
  lemma LandedInInstall(img: Bytes, job: Job, j: nat, img': Bytes)
    requires job.Valid() && Bounded(job, |img|) && ApplyAll(img, job.DataOps()) == AfterData(img, job)
    requires Landed(img, job, j, img')
    ensures CrashState(AfterData(img, job), job.InstallOps(), j - |job.DataOps()|, img')
  {
    hide BlockOps, Supported, PayloadArea, RerankArea, CrashState, ApplyAll, Job.InstallOps, Job.DataOps;
    CrashSplit(img, job.DataOps(), job.InstallOps(), j, img');
  }

  lemma InstallKeepsBlock(mid: Bytes, job: Job, k: nat, img': Bytes, a: Area, b: nat)
    requires job.Valid() && AllInBounds(|mid|, job.InstallOps()) && Fits(a, b, |mid|)
    requires CrashState(mid, job.InstallOps(), k, img')
    requires Clear(a, SLOT_A, SECTOR_BYTES) && Clear(a, SLOT_B, SECTOR_BYTES)
    ensures |img'| == |mid| && SameBlock(mid, img', a, b)
  {
    hide Supported, CrashState, Job.InstallOps, AllApart, Slice, Apart, Clear, Manifest.RangeOrdered, AllInBounds;
    BlockClearOfSlots(a, b);
    InstallElsewhere(job, BlockAddr(a, b), BLOCK_BYTES);
    InstallElsewhere(job, CrcAddr(a, b), CRC_BYTES);
    CrashElsewhere(mid, job.InstallOps(), k, img', BlockAddr(a, b), BLOCK_BYTES);
    CrashElsewhere(mid, job.InstallOps(), k, img', CrcAddr(a, b), CRC_BYTES);
  }

  /** A record of a batch is in the chunk of its block, at its slot. */
  lemma ChunkRecord(data: Bytes, per: nat, width: nat, i: nat)
    requires per > 0 && per * width == BLOCK_BYTES
    requires BLOCK_BYTES * (Quotient(i, per) + 1) <= |data|
    ensures 0 <= (i % per) * width && (i % per) * width + width <= BLOCK_BYTES
    ensures 0 <= i * width && i * width + width <= |data|
    ensures Slice(Chunk(data, Quotient(i, per)), (i % per) * width, width) == Slice(data, i * width, width)
  {
    var b, s := Quotient(i, per), i % per;
    DivMod(i, per);
    SlotFits(s, per, width, BLOCK_BYTES);
    NonNegativeProduct(s, width);
    Distribute(b * per, s, width);
    Regroup(b, per, width);
    SliceOfSlice(data, BLOCK_BYTES * b, BLOCK_BYTES, s * width, width);
    assert Chunk(data, b) == Slice(data, BLOCK_BYTES * b, BLOCK_BYTES);
  }

  /** Record `i` of a batch written from block `at` reads back at the `i`th id from there. */
  lemma BatchRecordReadsBack(end: Bytes, a: Area, at: nat, data: Bytes, k: nat, i: nat)
    requires a.per > 0 && a.per * a.width == BLOCK_BYTES && |data| == BLOCK_BYTES * k && i < k * a.per
    requires forall b: nat | at <= b < at + k :: Fits(a, b, |end|) && BlockAt(end, a, b) == Chunk(data, b - at)
    ensures Quotient(at * a.per + i, a.per) == at + Quotient(i, a.per) < at + k
    ensures 0 <= i * a.width && i * a.width + a.width <= |data|
    ensures Fits(a, Quotient(at * a.per + i, a.per), |end|)
    ensures RecordAt(end, a, at * a.per + i) == Slice(data, i * a.width, a.width)
  {
    hide Slice, RecordAt, BlockAt;
    var b, s := Quotient(i, a.per), i % a.per;
    DivMod(i, a.per);
    ProductOrder(k, b, a.per);
    Distribute(at, b, a.per);
    NonNegativeProduct(at, a.per);
    QuotientIs(at * a.per + i, a.per, at + b);
    ChunkRecord(data, a.per, a.width, i);
    RecordIsSlice(end, a, at * a.per + i);
  }

  /**
   Payload and rerank agree on the id: once the data is down, vector `i` of the batch has its
   code and its record at the same id, `i` past the head, both in sealed blocks.
   */
  lemma NewIdReadsBack(img: Bytes, job: Job, j: nat, img': Bytes, i: nat)
    requires Ready(img, job) && Landed(img, job, j, img') && i < job.blocks * job.P().per
    ensures var p, r, id := job.P(), job.R(), job.head * job.P().per + i;
            && Holding(img', p, id, job.codes, i) && Holding(img', r, id, job.records, i)
  {
    hide Sound, Usable, Supported, PayloadArea, RerankArea, Ratio, RatioTimes, Sealed, BlockAt, Chunk, Landed;
    var p, r := job.P(), job.R();
    WholeRatio(job.m);
    RatioTimesIs(job.m, job.head);
    RatioTimesIs(job.m, job.blocks);
    Regroup(job.head, Ratio(job.m), r.per);
    Regroup(job.blocks, Ratio(job.m), r.per);
    forall b: nat | job.head <= b < job.head + job.blocks
      ensures Fits(p, b, |img'|) && BlockAt(img', p, b) == Chunk(job.codes, b - job.head) && Sealed(img', p, b)
    {
      NewPayloadBlock(img, job, j, img', b);
    }
    forall b: nat | job.RerankAt() <= b < job.RerankAt() + job.RerankCount()
      ensures Fits(r, b, |img'|) && BlockAt(img', r, b) == Chunk(job.records, b - job.RerankAt()) && Sealed(img', r, b)
    {
      NewRerankBlock(img, job, j, img', b);
    }
    BatchRecordReadsBack(img', p, job.head, job.codes, job.blocks, i);
    BatchRecordReadsBack(img', r, job.RerankAt(), job.records, job.RerankCount(), i);
  }

  lemma RatioTimesIs(m: Manifest, h: nat)
    requires Supported(m)
    ensures RatioTimes(m, h) == h * Ratio(m)
  {}

  /** Record `id` of the area is the `i`th of `data`, in a sealed block. */
  predicate Holding(img: Bytes, a: Area, id: nat, data: Bytes, i: nat) {
    && a.per > 0 && a.per * a.width <= BLOCK_BYTES && Fits(a, Quotient(id, a.per), |img|)
    && 0 <= i * a.width && i * a.width + a.width <= |data|
    && RecordAt(img, a, id) == Slice(data, i * a.width, a.width)
    && Sealed(img, a, Quotient(id, a.per))
  }

  // ---------------------------------------------------------------- the append head after a stop

  lemma PayloadStop(img: Bytes, job: Job, j: nat, img': Bytes)
    requires job.Valid() && StoppedAt(img, job, j, img') && j < |job.PayloadOps()|
    ensures AllInBounds(|img|, job.PayloadOps()) && CrashState(img, job.PayloadOps(), j, img')
  {
    hide BlockOps, Supported, PayloadArea, RerankArea, Ratio, Job.InstallOps, CrashState;
    var rest := job.RerankOps() + job.InstallOps();
    assert job.Ops() == job.PayloadOps() + rest;
    CrashSplit(img, job.PayloadOps(), rest, j, img');
  }

  /** A stop inside the payload run leaves the rerank area as it was. */
  lemma PayloadStopSparesRerank(img: Bytes, a: Area, at: nat, data: Bytes, k: nat, j: nat, img': Bytes, other: Area, b: nat)
    requires |data| == BLOCK_BYTES * k && Placed(a, at, k, |img|) && Fits(other, b, |img|)
    requires Clear(other, a.base, BLOCK_BYTES * a.blocks) && Clear(other, a.crc, CRC_BYTES * a.blocks)
    requires AllInBounds(|img|, BlockOps(a, at, data, k)) && CrashState(img, BlockOps(a, at, data, k), j, img')
    ensures |img'| == |img| && SameBlock(img, img', other, b)
  {
    hide BlockOps, CrashState, Slice, AllApart, Clear, Placed, Apart;
    ClearSwaps(a, other);
    BlockClear(other, a, b);
    RunClear(a, at, k, |img|, BlockAddr(other, b), BLOCK_BYTES);
    RunClear(a, at, k, |img|, CrcAddr(other, b), CRC_BYTES);
    BlockOpsElsewhere(a, at, data, k, BlockAddr(other, b), BLOCK_BYTES);
    BlockOpsElsewhere(a, at, data, k, CrcAddr(other, b), CRC_BYTES);
    CrashElsewhere(img, BlockOps(a, at, data, k), j, img', BlockAddr(other, b), BLOCK_BYTES);
    CrashElsewhere(img, BlockOps(a, at, data, k), j, img', CrcAddr(other, b), CRC_BYTES);
  }

  lemma SplitAfterRun(img: Bytes, a: Area, at: nat, data: Bytes, k: nat)
    requires |data| == BLOCK_BYTES * k && Placed(a, at, k, |img|)
    requires AllInBounds(|img|, BlockOps(a, at, data, k))
    requires forall i: nat | i < k :: !IsErased(Chunk(data, i))
    requires forall b: nat | at <= b < a.blocks :: Unwritten(img, a, b)
    ensures SplitAt(ApplyAll(img, BlockOps(a, at, data, k)), a, at, at + k)
  {
    hide BlockOps, Chunk, Unwritten, SplitAt, ApplyAll, IsErased;
    assert BlockOps(a, at, data, k)[..2 * k] == BlockOps(a, at, data, k);
    SplitAfterWhole(img, a, at, data, k, 2 * k);
  }

  /** The payload area, wherever the stop was. */
  lemma StopSplitsPayload(img: Bytes, job: Job, j: nat, img': Bytes) returns (h: nat)
    requires Ready(img, job) && Sited(job, |img|) && StoppedAt(img, job, j, img') && |img'| == |img|
    ensures job.head <= h <= job.head + job.blocks
    ensures Placed(job.P(), job.head, job.blocks, |img|) && SplitAt(img', job.P(), job.head, h)
    ensures j >= |job.PayloadOps()| ==> h == job.head + job.blocks
  {
    hide BlockOps, Sound, Usable, Supported, PayloadArea, RerankArea, Ratio, CrashState, SplitAt, Unwritten, Clear,
      AllInBounds, Chunk, BlockAt, ApplyAll, Job.RerankOps, Job.InstallOps, Job.Ops, IsErased;
    var p := job.P();
    TargetsUnwritten(img, job);
    if j < |job.PayloadOps()| {
      PayloadStop(img, job, j, img');
      h := CrashSplitsArea(img, p, job.head, job.codes, job.blocks, j, img');
    } else {
      h := job.head + job.blocks;
      SplitAfterRun(img, p, job.head, job.codes, job.blocks);
      SplitCarries(img, job, j, img', h);
    }
  }

  lemma SplitCarries(img: Bytes, job: Job, j: nat, img': Bytes, h: nat)
    requires job.Valid() && Sited(job, |img|) && StoppedAt(img, job, j, img') && j >= |job.PayloadOps()| && |img'| == |img|
    requires SplitAt(AfterPayload(img, job), job.P(), job.head, h)
    ensures SplitAt(img', job.P(), job.head, h)
  {
    hide BlockOps, Supported, PayloadArea, RerankArea, Ratio, CrashState, Clear, Bounded, BlockAt, CrcAt, IsErased,
      AfterPayload;
    var mid, p := AfterPayload(img, job), job.P();
    forall b: nat | job.head <= b < p.blocks
      ensures SameBlock(mid, img', p, b)
      ensures Unwritten(mid, p, b) <==> Unwritten(img', p, b)
    {
      AfterPayloadKeepsPayload(img, job, j, img', b);
    }
    forall b: nat | job.head <= b < h
      ensures !IsErased(BlockAt(img', p, b))
    {
      assert SameBlock(mid, img', p, b);
    }
  }

  /** The rerank area from the head on, after a stop in the payload run. */
  lemma EarlyStopSparesRerank(img: Bytes, job: Job, j: nat, img': Bytes, h: nat)
    requires Ready(img, job) && Sited(job, |img|) && StoppedAt(img, job, j, img')
    requires job.head <= h && j < |job.PayloadOps()|
    ensures UnwrittenFrom(img', job.R(), RatioTimes(job.m, h))
  {
    hide BlockOps, Sound, Usable, Supported, PayloadArea, RerankArea, Ratio, RatioTimes, CrashState, Unwritten,
      UnwrittenFrom, Clear, AllInBounds, Chunk, IsErased, Manifest.RangeOrdered, Job.Ops, Placed;
    TargetsUnwritten(img, job);
    RatioOrder(job.m, job.head, h);
    PayloadStop(img, job, j, img');
    PayloadStopSparesUnwritten(img, job.P(), job.head, job.codes, job.blocks, j, img', job.R(), job.RerankAt());
    UnwrittenLater(img', job.R(), job.RerankAt(), RatioTimes(job.m, h));
  }

  lemma RerankEnd(job: Job)
    requires job.Valid()
    ensures RatioTimes(job.m, job.head + job.blocks) == job.RerankAt() + job.RerankCount()
  {
    hide Supported, RatioTimes;
    RatioSum(job.m, job.head, job.blocks);
  }

  lemma PayloadStopSparesUnwritten(img: Bytes, a: Area, at: nat, data: Bytes, k: nat, j: nat, img': Bytes, other: Area, from: nat)
    requires |data| == BLOCK_BYTES * k && Placed(a, at, k, |img|)
    requires Clear(other, a.base, BLOCK_BYTES * a.blocks) && Clear(other, a.crc, CRC_BYTES * a.blocks)
    requires AllInBounds(|img|, BlockOps(a, at, data, k)) && CrashState(img, BlockOps(a, at, data, k), j, img')
    requires UnwrittenFrom(img, other, from)
    ensures UnwrittenFrom(img', other, from)
  {
    hide BlockOps, CrashState, Clear, Placed, BlockAt, CrcAt, Unwritten, AllInBounds;
    forall b: nat | from <= b < other.blocks
      ensures Fits(other, b, |img'|) && Unwritten(img', other, b)
    {
      PayloadStopSparesRerank(img, a, at, data, k, j, img', other, b);
      SameBlockSameState(img, img', other, b);
    }
  }

  lemma LaterStopSparesRerank(img: Bytes, job: Job, j: nat, img': Bytes, h: nat)
    requires Ready(img, job) && Sited(job, |img|) && StoppedAt(img, job, j, img') && |img'| == |img|
    requires h == job.head + job.blocks
    ensures UnwrittenFrom(img', job.R(), RatioTimes(job.m, h))
  {
    hide Sound, Usable, Chunk, IsErased, Supported, PayloadArea, RerankArea, RatioTimes, CrashState, Unwritten, BlockAt,
      CrcAt, Manifest.RangeOrdered, Job.Ops, Bounded, Sited;
    TargetsUnwritten(img, job);
    RerankEnd(job);
    forall b: nat | job.RerankAt() + job.RerankCount() <= b < job.R().blocks
      ensures Fits(job.R(), b, |img'|) && Unwritten(img', job.R(), b)
    {
      CrashKeepsRerankBlock(img, job, j, img', b);
      SameBlockSameState(img, img', job.R(), b);
    }
  }

  lemma RatioOrder(m: Manifest, a: nat, b: nat)
    requires Supported(m)
    ensures a <= b ==> RatioTimes(m, a) <= RatioTimes(m, b)
  {
    hide Ratio;
    ProductOrder(a, b, Ratio(m));
  }

  lemma RatioSum(m: Manifest, a: nat, b: nat)
    requires Supported(m)
    ensures RatioTimes(m, a + b) == RatioTimes(m, a) + RatioTimes(m, b)
  {
    hide Ratio;
    Distribute(a, b, Ratio(m));
  }

  /** Wherever an append stops, the volume still has an append head, past every block it may have touched. */
  lemma StopHasHead(img: Bytes, job: Job, j: nat, img': Bytes) returns (h: nat)
    requires Ready(img, job) && StoppedAt(img, job, j, img')
    ensures |img'| == |img| && job.head <= h <= job.head + job.blocks
    ensures Frontier(img', job.m, h)
    ensures j >= |job.PayloadOps()| ==> h == job.head + job.blocks
  {
    hide BlockOps, Sound, Usable, Supported, PayloadArea, RerankArea, Ratio, RatioTimes, CrashState, UsedBelow,
      UnwrittenFrom, Clear, Laid, SplitAt, Job.Ops, Job.PayloadOps, Manifest.RangeOrdered, AllInBounds, Chunk,
      IsErased, Frontier, Sited;
    ReadyIsSited(img, job);
    CrashKeepsLength(img, job.Ops(), j, img');
    h := StopSplitsPayload(img, job, j, img');
    BelowHead(img, job, j, img', h);
    if j < |job.PayloadOps()| {
      EarlyStopSparesRerank(img, job, j, img', h);
    } else {
      LaterStopSparesRerank(img, job, j, img', h);
    }
    BothHalves(img', job, h);
  }

  lemma BothHalves(img: Bytes, job: Job, h: nat)
    requires job.Valid() && h <= job.P().blocks && job.m.n <= h * job.P().per
    requires UsedBelow(img, job.P(), h) && UnwrittenFrom(img, job.P(), h) && UnwrittenFrom(img, job.R(), RatioTimes(job.m, h))
    ensures Frontier(img, job.m, h)
  {
    hide UsedBelow, UnwrittenFrom, Supported, PayloadArea, RerankArea, RatioTimes;
  }

  /** The payload half of the frontier. */
  lemma BelowHead(img: Bytes, job: Job, j: nat, img': Bytes, h: nat)
    requires Ready(img, job) && Sited(job, |img|) && StoppedAt(img, job, j, img') && |img'| == |img|
    requires job.head <= h <= job.head + job.blocks && Placed(job.P(), job.head, job.blocks, |img|)
    requires SplitAt(img', job.P(), job.head, h)
    ensures h <= job.P().blocks && job.m.n <= h * job.P().per
    ensures UsedBelow(img', job.P(), h) && UnwrittenFrom(img', job.P(), h)
  {
    hide BlockOps, Supported, PayloadArea, RerankArea, Ratio, RatioTimes, CrashState, Unwritten, Clear, Chunk,
      BlockAt, CrcAt, Laid, IsErased, Bounded, HeldSealed, HeldInside, Installed;
    var p := job.P();
    ProductOrder(job.head, h, p.per);
    FrontierCoversIds(img, job.m, job.head);
    forall b: nat | b < h
      ensures Fits(p, b, |img'|) && !IsErased(BlockAt(img', p, b))
    {
      if b < job.head {
        CrashKeepsPayloadBlock(img, job, j, img', b);
      }
    }
  }
}
