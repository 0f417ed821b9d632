/**
 What an append cut short leaves for the next one.

 The blocks it got to stay on the flash, below the head the next append finds. Until
 something has been committed the next manifest steps over them. After a first commit it
 names them: the ids between the last committed one and the head become held, whatever their
 blocks contain. The volume is sound again exactly when all of those blocks are sealed, codes
 and records both.
 */
module Orphans {
  import opened Options
  import opened Flash
  import opened Codec
  import opened Region
  import opened Manifests
  import opened Arith
  import opened Layouts
  import opened Volumes
  import opened BlockAppend
  import opened Append
  import opened Crash
  import opened Atomicity
  import opened Lifecycle
  import opened Runs
  import Crc

  // ---------------------------------------------------------------- the next append

  /** A batch for the volume that `job` leaves with head `h`, with room for it and codes that do not look erased. */
  ghost predicate Follows(job: Job, later: Job, h: nat) {
    && later.Valid() && later.m == job.m && later.head == h
    && later.blocks > 0 && later.Room()
    && forall i: nat | i < later.blocks :: !IsErased(Chunk(later.codes, i))
  }

  lemma FollowsIsReady(img: Bytes, job: Job, mid: Bytes, h: nat, later: Job)
    requires Ready(img, job) && Usable(mid, job.m, h) && Follows(job, later, h)
    ensures Ready(mid, later)
  {
    hide Usable, PayloadArea, RerankArea, Supported, RatioTimes;
  }

  /** Every block of `[from, upto)` carries its CRC. */
  ghost predicate RunSealed(img: Bytes, a: Area, from: nat, upto: nat) {
    forall b: nat | from <= b < upto :: Fits(a, b, |img|) && Sealed(img, a, b)
  }

  /** After a first commit, the next manifest names exactly the old blocks, the orphans and the new. */
  lemma ClaimsOrphans(m: Manifest, next: Manifest, per: nat, from: nat, at: nat, cnt: nat, b: nat)
    requires Extends(m, next, per, at, cnt) && m.Appended() > 0 && m.n == from * per
    ensures Written(next, per, b) && b < at <==> Written(m, per, b) || from <= b < at
  {
    Distribute(at, cnt, per);
    ProductOrder(b, from, per);
    ProductOrder(from, b, per);
    ProductOrder(b, at, per);
    ProductOrder(at, b, per);
    ProductOrder(b + 1, from, per);
    Distribute(b, 1, per);
  }

  lemma OrphansInArea(mid: Bytes, m: Manifest, next: Manifest, a: Area, from: nat, at: nat, cnt: nat)
    requires Extends(m, next, a.per, at, cnt) && m.Appended() > 0 && m.n == from * a.per
    ensures SealedBelow(mid, next, a, at) <==> HeldSealed(mid, m, a) && RunSealed(mid, a, from, at)
  {
    hide Extends, Written, Sealed;
    forall b: nat
      ensures Written(next, a.per, b) && b < at <==> Written(m, a.per, b) || from <= b < at
    {
      ClaimsOrphans(m, next, a.per, from, at, cnt, b);
    }
    assert forall b: nat :: Written(next, a.per, b) && b < at <==> Written(m, a.per, b) || from <= b < at;
  }

  /**
   The exact condition. On a volume that has committed an append and has no orphans, stop one
   append anywhere so that the old manifest stays, then let the next one commit: the volume is
   sound exactly when it was before and every orphan is sealed, in the payload region and in
   the rerank region.
   */
  lemma ClaimedOrphansDecide(img: Bytes, job: Job, j: nat, mid: Bytes, h: nat, later: Job, k: nat, end: Bytes)
    requires Ready(img, job) && job.m.Appended() > 0 && Contiguous(job.m, job.head)
    requires RollsBack(img, job, j, mid) && Usable(mid, job.m, h)
    requires Follows(job, later, h) && Commits(mid, later, k, end)
    ensures Ready(mid, later)
    ensures Sound(end, later.Next(), h + later.blocks) <==>
            && Sound(img, job.m, job.head)
            && RunSealed(mid, job.P(), job.head, h)
            && RunSealed(mid, job.R(), job.RerankAt(), later.RerankAt())
  {
    hide Usable, Commits, RollsBack, Follows, HeldSealed, SealedBelow, RunSealed, Extends, PayloadArea, RerankArea,
      Supported, RatioTimes, Updated, Ratio;
    FollowsIsReady(img, job, mid, h, later);
    SameGeometry(job, later, h);
    OrphansDecide(mid, later, k, end);
    RollbackKeepsSound(img, job, j, mid, h);
    JobExtends(img, job);
    JobExtends(mid, later);
    OrphansInArea(mid, job.m, later.Next(), job.P(), job.head, h, later.blocks);
    OrphansInArea(mid, job.m, later.Next(), job.R(), job.RerankAt(), later.RerankAt(), later.RerankCount());
  }

  lemma SameGeometry(job: Job, later: Job, h: nat)
    requires job.Valid() && Follows(job, later, h)
    ensures later.P() == job.P() && later.R() == job.R() && later.head == h && later.m == job.m
  {
    hide PayloadArea, RerankArea, Supported, RatioTimes;
  }

  // ---------------------------------------------------------------- stops between operations

  lemma SomeData(img: Bytes, job: Job)
    requires Ready(img, job)
    ensures 2 <= |job.PayloadOps()| <= |job.DataOps()| < |job.Ops()|
  {
    hide Usable, PayloadArea, RerankArea, Supported, RatioTimes;
  }

  /** Stopped after `j` whole operations, before the data is all down, the old manifest stays. */
  lemma EarlyStopRollsBack(img: Bytes, job: Job, j: nat)
    requires Ready(img, job) && j < |job.DataOps()|
    ensures Bounded(job, |img|) && j <= |job.Ops()| && RollsBack(img, job, j, After(img, job.Ops(), j))
  {
    hide Usable, Job.PayloadOps, Job.RerankOps, Job.InstallOps, PayloadArea, RerankArea, Supported, ApplyAll, Torn,
      Mounted, SlotBytes, Forged, Written, SameBlock, Installed, Updated, AllLegal, Sited, RatioTimes, Chunk, IsErased;
    AppendIsLegal(img, job);
    UsableParts(img, job.m, job.head);
    AppendIsAtomic(img, job, j, After(img, job.Ops(), j));
  }

  /** A split of the area where the last run was to go fixes the head. */
  lemma HeadAtSplit(img: Bytes, m: Manifest, h: nat, at: nat, from: nat)
    requires Usable(img, m, h) && Supported(m) && at <= h
    requires PayloadArea(m).base + BLOCK_BYTES * PayloadArea(m).blocks <= |img|
    requires PayloadArea(m).crc + CRC_BYTES * PayloadArea(m).blocks <= |img|
    requires SplitAt(img, PayloadArea(m), at, from)
    ensures h == from
  {
    hide Laid, GapAligned, Installed, HeldInside, PayloadArea, RerankArea, Supported, Ratio, RatioTimes, IsErased,
      BlockAt, CrcAt, UnwrittenFrom, UsedBelow;
    var p := PayloadArea(m);
    UnusedBelow(img, p, h, at, from);
  }

  lemma UnusedBelow(img: Bytes, a: Area, h: nat, at: nat, from: nat)
    requires a.base + BLOCK_BYTES * a.blocks <= |img| && a.crc + CRC_BYTES * a.blocks <= |img|
    requires at <= h <= a.blocks && UsedBelow(img, a, h) && UnwrittenFrom(img, a, h) && SplitAt(img, a, at, from)
    ensures h == from
  {
    hide IsErased, BlockAt, CrcAt;
    if h < a.blocks {
      assert Unwritten(img, a, h);
    }
    if from < a.blocks {
      assert Unwritten(img, a, from);
    }
  }

  /** Inside the payload run the head moves on one block for every block begun. */
  lemma HeadAfterPayloadOps(img: Bytes, job: Job, j: nat, h: nat)
    requires Ready(img, job) && Bounded(job, |img|) && j <= |job.PayloadOps()| && j <= |job.Ops()|
    requires Usable(After(img, job.Ops(), j), job.m, h) && h >= job.head
    ensures h == FirstUntouched(job.head, j)
  {
    hide Usable, BlockOps, PayloadArea, RerankArea, Supported, ApplyAll, RatioTimes, Chunk, IsErased, BlockAt, CrcAt,
      Unwritten, Job.RerankOps, Job.InstallOps, SplitAt, Clear, UnwrittenFrom, UsedBelow;
    ReadyIsSited(img, job);
    TargetsUnwritten(img, job);
    assert job.Ops()[..j] == job.PayloadOps()[..j];
    UnwrittenEach(img, job.P(), job.head);
    SplitAfterWhole(img, job.P(), job.head, job.codes, job.blocks, j);
    HeadAtSplit(After(img, job.Ops(), j), job.m, h, job.head, FirstUntouched(job.head, j));
  }

  // ---------------------------------------------------------------- two ways to leave an unsealed orphan

  /** The CRC of the first block is not the word an erased slot reads as. */
  predicate FirstCrcShows(data: Bytes) {
    |data| >= BLOCK_BYTES && CrcBytes(Crc.Crc32(Chunk(data, 0))) != Blank(CRC_BYTES)
  }

  /**
   Power fails between the first block's data and its CRC word. The next append starts one
   block further on; when it commits, the block it claims does not verify.
   */
  lemma TornThenCommitted(img: Bytes, job: Job, h: nat, later: Job, k: nat, end: Bytes)
    requires Ready(img, job) && job.m.Appended() > 0 && Contiguous(job.m, job.head)
    requires Bounded(job, |img|) && FirstCrcShows(job.codes)
    requires h == job.head + 1 && Follows(job, later, h)
    requires Commits(After(img, job.Ops(), 1), later, k, end)
    ensures RollsBack(img, job, 1, After(img, job.Ops(), 1)) && Ready(After(img, job.Ops(), 1), later)
    ensures Written(later.Next(), job.P().per, job.head)
    ensures !Sound(end, later.Next(), h + later.blocks)
  {
    hide Usable, Sound, BlockOps, PayloadArea, RerankArea, Supported, ApplyAll, RatioTimes, Chunk, IsErased, Sealed,
      Follows, Commits, RollsBack, FirstCrcShows, Extends, Written, After, Bounded, Fits, Updated, Job.Ops;
    OpsAreBounded(job, |img|);
    SomeData(img, job);
    var mid := After(img, job.Ops(), 1);
    EarlyStopRollsBack(img, job, 1);
    var g := RollbackIsUsable(img, job, 1, mid);
    HeadAfterPayloadOps(img, job, 1, g);
    ClaimedOrphansDecide(img, job, 1, mid, h, later, k, end);
    TornBlockUnsealed(img, job);
    SameGeometry(job, later, h);
    JobExtends(img, job);
    JobExtends(mid, later);
    ClaimsOrphans(job.m, later.Next(), job.P().per, job.head, h, later.blocks, job.head);
  }

  lemma TornBlockUnsealed(img: Bytes, job: Job)
    requires Ready(img, job) && Bounded(job, |img|) && FirstCrcShows(job.codes)
    ensures Fits(job.P(), job.head, |img|) && !Sealed(After(img, job.Ops(), 1), job.P(), job.head)
  {
    hide Sound, Usable, PayloadArea, RerankArea, Supported, RatioTimes, BlockOps, ApplyAll, Sealed, IsErased, Job.RerankOps,
      Job.InstallOps, Chunk, Crc.Crc32, CrcBytes, UnwrittenFrom, Unwritten, Clear;
    ReadyIsSited(img, job);
    TargetsUnwritten(img, job);
    FirstUnwritten(img, job.P(), job.head);
    assert job.Ops()[..1] == job.PayloadOps()[..1];
    DataWithoutCrc(img, job.P(), job.head, job.codes, job.blocks);
  }

  lemma FirstUnwritten(img: Bytes, a: Area, h: nat)
    requires UnwrittenFrom(img, a, h)
    ensures h < a.blocks ==> Fits(a, h, |img|) && Unwritten(img, a, h)
  {}

  /** A block whose data was programmed and whose CRC word was not. */
  lemma DataWithoutCrc(img: Bytes, a: Area, at: nat, data: Bytes, k: nat)
    requires |data| == BLOCK_BYTES * k && k > 0 && Placed(a, at, k, |img|) && AllInBounds(|img|, BlockOps(a, at, data, k))
    requires Unwritten(img, a, at) && FirstCrcShows(data)
    ensures AllInBounds(|img|, BlockOps(a, at, data, k)[..1])
    ensures !Sealed(ApplyAll(img, BlockOps(a, at, data, k)[..1]), a, at)
  {
    hide BlockOps, ApplyAll, BlockAt, CrcAt, IsErased, Chunk, Crc.Crc32, CrcBytes;
    EarlierBlocksDone(img, a, at, data, k, 1, at);
    CrcWordLeft(img, a, at, data, k);
    ErasedIsBlank(CrcAt(img, a, at));
  }

  /** After its data alone, a block's CRC word is as it was. */
  lemma CrcWordLeft(img: Bytes, a: Area, at: nat, data: Bytes, k: nat)
    requires |data| == BLOCK_BYTES * k && k > 0 && Placed(a, at, k, |img|) && AllInBounds(|img|, BlockOps(a, at, data, k))
    ensures CrcAt(ApplyAll(img, BlockOps(a, at, data, k)[..1]), a, at) == CrcAt(img, a, at)
  {
    hide Chunk, Slice, ApplyAll, CrcBytes, Crc.Crc32;
    var ops := BlockOps(a, at, data, k);
    assert ops[0] == BlockOp(a, at, data, 0);
    ApplyAllElsewhere(img, ops[..1], CrcAddr(a, at), CRC_BYTES);
  }

  // ---------------------------------------------------------------- codes down, records not

  lemma SomeRecords(img: Bytes, job: Job)
    requires Ready(img, job)
    ensures job.RerankCount() > 0 && |job.PayloadOps()| + 2 <= |job.DataOps()|
  {
    hide Usable, PayloadArea, RerankArea, Supported, Ratio;
    WholeRatio(job.m);
    ProductOrder(1, job.blocks, Ratio(job.m));
  }

  /** The image after the codes and the first rerank block's data is the one after the codes, plus that. */
  lemma AfterCodes(img: Bytes, job: Job)
    requires Ready(img, job) && Bounded(job, |img|) && |job.PayloadOps()| + 2 <= |job.DataOps()|
    ensures AllInBounds(|img|, job.RerankOps()[..1])
    ensures |job.Ops()| > |job.PayloadOps()| + 1
    ensures After(img, job.Ops(), |job.PayloadOps()| + 1) == ApplyAll(AfterPayload(img, job), job.RerankOps()[..1])
  {
    hide Usable, BlockOps, PayloadArea, RerankArea, Supported, ApplyAll, RatioTimes, Job.InstallOps;
    var rest := job.RerankOps() + job.InstallOps();
    assert job.Ops() == job.PayloadOps() + rest;
    assert rest[..1] == job.RerankOps()[..1];
    AfterFirstPart(img, job.PayloadOps(), rest, 1);
  }

  lemma CodesSealed(img: Bytes, job: Job, j: nat, mid: Bytes)
    requires Ready(img, job) && StoppedAt(img, job, j, mid) && j >= |job.PayloadOps()| && |mid| == |img|
    ensures RunSealed(mid, job.P(), job.head, job.head + job.blocks)
  {
    hide Sound, Usable, BlockOps, PayloadArea, RerankArea, Supported, RatioTimes, ApplyAll, BlockAt, CrcAt, Chunk,
      CrashState, AllInBounds, Job.RerankOps, Job.InstallOps, Clear, Sealed, Job.Ops;
    ReadyIsSited(img, job);
    forall b: nat | job.head <= b < job.head + job.blocks
      ensures Fits(job.P(), b, |mid|) && Sealed(mid, job.P(), b)
    {
      BlockOpsResult(img, job.P(), job.head, job.codes, job.blocks, b);
      AfterPayloadKeepsPayload(img, job, j, mid, b);
      SameBlockSameState(AfterPayload(img, job), mid, job.P(), b);
    }
  }

  lemma TornRecordUnsealed(img: Bytes, job: Job, j: nat, mid: Bytes)
    requires Ready(img, job) && CodesDown(img, job, j, mid) && |mid| == |img|
    requires job.RerankCount() > 0 && FirstCrcShows(job.records) && |job.PayloadOps()| + 2 <= |job.DataOps()|
    ensures Fits(job.R(), job.RerankAt(), |img|) && !Sealed(mid, job.R(), job.RerankAt())
  {
    hide Sound, Usable, PayloadArea, RerankArea, Supported, RatioTimes, BlockOps, ApplyAll, Sealed, IsErased,
      Job.InstallOps, Chunk, FirstCrcShows, UnwrittenFrom, Unwritten, Clear, Job.Ops;
    ReadyIsSited(img, job);
    TargetsUnwritten(img, job);
    FirstUnwritten(img, job.R(), job.RerankAt());
    AfterCodes(img, job);
    RunSparesUnwritten(img, job.P(), job.head, job.codes, job.blocks, job.R(), job.RerankAt());
    DataWithoutCrc(AfterPayload(img, job), job.R(), job.RerankAt(), job.records, job.RerankCount());
  }

  /** Stopped between the first rerank block's data and its CRC word. */
  ghost predicate CodesDown(img: Bytes, job: Job, j: nat, mid: Bytes)
    requires job.Valid()
  {
    Bounded(job, |img|) && j == |job.PayloadOps()| + 1 && j <= |job.Ops()| && mid == After(img, job.Ops(), j)
  }

  lemma CodesDownRollsBack(img: Bytes, job: Job, j: nat, mid: Bytes)
    requires Ready(img, job) && CodesDown(img, job, j, mid)
    ensures StoppedAt(img, job, j, mid) && |mid| == |img| && RollsBack(img, job, j, mid)
    ensures Usable(mid, job.m, job.head + job.blocks)
  {
    hide Usable, Sound, BlockOps, PayloadArea, RerankArea, Supported, ApplyAll, RatioTimes, Chunk, IsErased, After,
      Updated, Job.Ops, Job.PayloadOps, Job.DataOps, CrashState, Mounted, AllInBounds, Bounded;
    SomeRecords(img, job);
    EarlyStopRollsBack(img, job, j);
    var h := RollbackIsUsable(img, job, j, mid);
  }

  /**
   Power fails with all the codes down and the first rerank block's CRC word not. Every payload
   orphan is sealed; the next append that commits still leaves an unsound volume, by a record.
   */
  lemma CodesWithoutRecords(img: Bytes, job: Job, j: nat, mid: Bytes, h: nat, later: Job, k: nat, end: Bytes)
    requires Ready(img, job) && job.m.Appended() > 0 && Contiguous(job.m, job.head)
    requires CodesDown(img, job, j, mid) && FirstCrcShows(job.records)
    requires h == job.head + job.blocks && Follows(job, later, h) && Commits(mid, later, k, end)
    ensures RollsBack(img, job, j, mid) && Ready(mid, later)
    ensures RunSealed(mid, job.P(), job.head, h)
    ensures !Sound(end, later.Next(), h + later.blocks)
  {
    hide Usable, Sound, PayloadArea, RerankArea, Supported, RatioTimes, Sealed, Follows, Commits, FirstCrcShows, After,
      Updated, Job.Ops, Job.PayloadOps, Job.DataOps, Job.RerankAt, Job.RerankCount, RollsBack, StoppedAt, Bounded;
    CodesDownRollsBack(img, job, j, mid);
    ClaimedOrphansDecide(img, job, j, mid, h, later, k, end);
    SomeRecords(img, job);
    CodesSealed(img, job, j, mid);
    TornRecordUnsealed(img, job, j, mid);
    RerankMovesOn(job, later, h);
  }

  lemma RerankMovesOn(job: Job, later: Job, h: nat)
    requires job.Valid() && job.RerankCount() > 0 && h == job.head + job.blocks && Follows(job, later, h)
    ensures job.RerankAt() < later.RerankAt()
  {
    hide PayloadArea, RerankArea, Supported, RatioTimes;
    RerankEnd(job);
  }

  // ---------------------------------------------------------------- data down, install lost

  /**
   With all of its data down and only the install lost, an append is adopted by the next: the
   volume is sound then exactly when it was before.
   */
  lemma LostInstallHeals(img: Bytes, job: Job, j: nat, mid: Bytes, later: Job, k: nat, end: Bytes)
    requires Ready(img, job) && job.m.Appended() > 0 && Contiguous(job.m, job.head)
    requires RollsBack(img, job, j, mid) && j >= |job.DataOps()|
    requires Follows(job, later, job.head + job.blocks) && Commits(mid, later, k, end)
    ensures Ready(mid, later)
    ensures Sound(end, later.Next(), later.head + later.blocks) <==> Sound(img, job.m, job.head)
  {
    hide Usable, Sound, PayloadArea, RerankArea, Supported, RatioTimes, Sealed, BlockAt, Chunk, Follows, Commits, Fits,
      Updated, Job.Ops, Job.PayloadOps, Job.DataOps, Mounted, Bounded, CrashState, Job.RerankCount, Job.RerankAt, IsErased;
    LandedPastPayload(job);
    var h := RollbackIsUsable(img, job, j, mid);
    ClaimedOrphansDecide(img, job, j, mid, h, later, k, end);
    SameGeometry(job, later, h);
    CodesSealed(img, job, j, mid);
    RecordsSealed(img, job, j, mid, later);
  }

  lemma RecordsSealed(img: Bytes, job: Job, j: nat, mid: Bytes, later: Job)
    requires Ready(img, job) && Landed(img, job, j, mid)
    requires Follows(job, later, job.head + job.blocks)
    ensures RunSealed(mid, job.R(), job.RerankAt(), later.RerankAt())
  {
    hide Usable, PayloadArea, RerankArea, Supported, RatioTimes, Sealed, BlockAt, Chunk, Landed, Fits, IsErased,
      Job.RerankCount;
    RerankEnd(job);
    forall b: nat | job.RerankAt() <= b < job.RerankAt() + job.RerankCount()
      ensures Fits(job.R(), b, |mid|) && Sealed(mid, job.R(), b)
    {
      NewRerankBlock(img, job, j, mid, b);
    }
  }
}
