/**
 One append is atomic: wherever power loss stops it, mounting finds the old volume or the new one.

 Up to the manifest write, all that changes lies past the head, where the old manifest
 holds nothing. The new manifest goes to the spare slot, and a torn slot fails its digest,
 so selection falls back to the live one. Every id the old manifest holds reads the same
 code and record on either side of the switch.
 */
module Atomicity {
  import opened Options
  import opened Flash
  import opened Codec
  import opened Region
  import opened Manifests
  import opened Arith
  import opened Layouts
  import opened Volumes
  import opened BlockAppend
  import opened Append
  import opened Crash

  // ---------------------------------------------------------------- what a crash leaves alone

  predicate SameBlock(img: Bytes, now: Bytes, a: Area, b: nat)
    requires Fits(a, b, |img|) && |now| == |img|
  {
    BlockAt(now, a, b) == BlockAt(img, a, b) && CrcAt(now, a, b) == CrcAt(img, a, b)
  }

  lemma CrashKeepsLength(img: Bytes, ops: seq<Op>, j: nat, img': Bytes)
    requires AllInBounds(|img|, ops) && CrashState(img, ops, j, img')
    ensures |img'| == |img|
  {
    hide OnlyClears, ApplyAll, Slice, Write;
  }

  lemma CrashKeepsLiveSlot(img: Bytes, job: Job, j: nat, img': Bytes)
    requires MANIFEST_RESERVED_BYTES <= |img| == |img'|
    requires job.Valid() && Sited(job, |img|) && Bounded(job, |img|) && CrashState(img, job.Ops(), j, img')
    ensures SlotBytes(img', SlotOf(job.m.sequence)) == SlotBytes(img, SlotOf(job.m.sequence))
  {
    hide Job.Ops, CrashState, AllApart, Job.Valid, Slice, Bounded;
    OpsAreBounded(job, |img|);
    LiveSlotElsewhere(job, |img|);
    CrashElsewhere(img, job.Ops(), j, img', SlotOf(job.m.sequence), SECTOR_BYTES);
  }

  lemma OpsAreBounded(job: Job, size: nat)
    requires job.Valid() && Bounded(job, size)
    ensures AllInBounds(size, job.Ops())
  {}

  lemma CrashKeepsPayloadBlock(img: Bytes, job: Job, j: nat, img': Bytes, b: nat)
    requires job.Valid() && Sited(job, |img|) && Bounded(job, |img|) && CrashState(img, job.Ops(), j, img')
    requires Fits(job.P(), b, |img|) && (b < job.head || b >= job.head + job.blocks)
    ensures |img'| == |img| && SameBlock(img, img', job.P(), b)
  {
    hide Job.Ops, CrashState, AllApart, Slice, Sited, Supported, PayloadArea, RerankArea, Ratio,
      Manifest.RangeOrdered, Bounded;
    OpsAreBounded(job, |img|);
    OtherPayloadBlockElsewhere(job, |img|, b);
    CrashElsewhere(img, job.Ops(), j, img', BlockAddr(job.P(), b), BLOCK_BYTES);
    CrashElsewhere(img, job.Ops(), j, img', CrcAddr(job.P(), b), CRC_BYTES);
  }

  lemma CrashKeepsRerankBlock(img: Bytes, job: Job, j: nat, img': Bytes, b: nat)
    requires job.Valid() && Sited(job, |img|) && Bounded(job, |img|) && CrashState(img, job.Ops(), j, img')
    requires Fits(job.R(), b, |img|) && (b < job.RerankAt() || b >= job.RerankAt() + job.RerankCount())
    ensures |img'| == |img| && SameBlock(img, img', job.R(), b)
  {
    hide Job.Ops, CrashState, AllApart, Slice, Sited, Supported, PayloadArea, RerankArea, Ratio,
      Manifest.RangeOrdered, Bounded, Job.RerankAt, Job.RerankCount;
    OpsAreBounded(job, |img|);
    OtherRerankBlockElsewhere(job, |img|, b);
    CrashElsewhere(img, job.Ops(), j, img', BlockAddr(job.R(), b), BLOCK_BYTES);
    CrashElsewhere(img, job.Ops(), j, img', CrcAddr(job.R(), b), CRC_BYTES);
  }

  /** A block with an id the old manifest holds lies below the head. */
  lemma HeldIsBelowHead(img: Bytes, job: Job, b: nat)
    requires Ready(img, job)
    ensures Written(job.m, job.P().per, b) ==> b < job.head
    ensures Written(job.m, job.R().per, b) ==> b < job.RerankAt()
  {
    hide HeldSealed, HeldInside, Installed, PayloadArea, RerankArea, Ratio, Supported, Unwritten, IsErased;
    var m, p, r := job.m, job.P(), job.R();
    WholeRatio(m);
    Regroup(job.head, job.K(), r.per);
    ProductOrder(job.head, b, p.per);
    ProductOrder(job.RerankAt(), b, r.per);
    assert m.n <= job.head * p.per by {
      FrontierCoversIds(img, m, job.head);
    }
    WrittenIsBelowN(m, p.per, b);
    WrittenIsBelowN(m, r.per, b);
  }

  lemma FrontierCoversIds(img: Bytes, m: Manifest, h: nat)
    requires Laid(m, |img|) && Frontier(img, m, h)
    ensures m.n <= h * PayloadArea(m).per && h <= PayloadArea(m).blocks
  {}

  lemma WrittenIsBelowN(m: Manifest, per: nat, b: nat)
    requires m.RangeOrdered()
    ensures Written(m, per, b) ==> b * per < m.n
  {}

  /** Every block of an id the old manifest holds reads as before, CRC word included. */
  lemma CrashKeepsHeldBlocks(img: Bytes, job: Job, j: nat, img': Bytes)
    requires Ready(img, job) && Sited(job, |img|) && Bounded(job, |img|) && CrashState(img, job.Ops(), j, img')
    ensures |img'| == |img|
    ensures forall b: nat | Written(job.m, job.P().per, b) :: Fits(job.P(), b, |img|) && SameBlock(img, img', job.P(), b)
    ensures forall b: nat | Written(job.m, job.R().per, b) :: Fits(job.R(), b, |img|) && SameBlock(img, img', job.R(), b)
  {
    hide Job.Ops, CrashState, Sited, Supported, PayloadArea, RerankArea, Ratio, Written, SameBlock, Bounded, Laid,
      Installed, Frontier, Sealed, Job.RerankAt, Job.RerankCount;
    OpsAreBounded(job, |img|);
    CrashKeepsLength(img, job.Ops(), j, img');
    forall b: nat | Written(job.m, job.P().per, b)
      ensures Fits(job.P(), b, |img|) && SameBlock(img, img', job.P(), b)
    {
      HeldIsBelowHead(img, job, b);
      CrashKeepsPayloadBlock(img, job, j, img', b);
    }
    forall b: nat | Written(job.m, job.R().per, b)
      ensures Fits(job.R(), b, |img|) && SameBlock(img, img', job.R(), b)
    {
      HeldIsBelowHead(img, job, b);
      CrashKeepsRerankBlock(img, job, j, img', b);
    }
  }

  lemma SameBlocksStaySealed(img: Bytes, now: Bytes, m: Manifest, a: Area)
    requires |now| == |img|
    requires forall b: nat | Written(m, a.per, b) :: Fits(a, b, |img|) && SameBlock(img, now, a, b)
    ensures HeldSealed(now, m, a) <==> HeldSealed(img, m, a)
  {
    hide Written, BlockAt, CrcAt, Sealed;
    forall b: nat | Written(m, a.per, b)
      ensures Fits(a, b, |img|) && (Sealed(now, a, b) <==> Sealed(img, a, b))
    {
      assert SameBlock(img, now, a, b);
      SameBlockSameState(img, now, a, b);
    }
  }

  // ---------------------------------------------------------------- the spare slot

  /**
   The one thing a torn manifest write can do wrong: read as a manifest that is neither the
   live one nor the one being installed, and that mounting prefers to the live one.
   */
  predicate Forged(s: Bytes, live: Manifest, next: Manifest) {
    Decode(s).Ok? && Decode(s).value != live && Decode(s).value != next && Outranks(Decode(s).value, live)
  }

  /** Power failed after `j` of the job's operations, or inside the next. */
  ghost predicate StoppedAt(img: Bytes, job: Job, j: nat, img': Bytes)
    requires job.Valid()
  {
    Bounded(job, |img|) && CrashState(img, job.Ops(), j, img')
  }

  /** ... and the spare slot was not forged. */
  ghost predicate CleanStop(img: Bytes, job: Job, j: nat, img': Bytes)
    requires job.Valid()
  {
    && MANIFEST_RESERVED_BYTES <= |img| == |img'| && StoppedAt(img, job, j, img')
    && !Forged(SlotBytes(img', job.Spare()), job.m, job.Next())
  }

  /** Power failed inside an operation of the install, leaving its slot neither as it was nor as it was to be. */
  ghost predicate TornInInstall(img: Bytes, job: Job, j: nat, img': Bytes)
    requires job.Valid()
  {
    Bounded(job, |img|) && |job.DataOps()| <= j && StrictlyInside(img, job.Ops(), j, img')
  }

  /** An install stopped between its operations. */
  lemma WholeInstallStops(mid: Bytes, at: nat, data: Bytes, j: nat)
    requires at + SECTOR_BYTES <= |mid| && |data| == SECTOR_BYTES && j <= 2
    requires AllInBounds(|mid|, [Erase(at), Program(at, data)])
    ensures var s := SlotBytes(After(mid, [Erase(at), Program(at, data)], j), at);
            s == SlotBytes(mid, at) || Decode(s).Err? || s == data
  {
    hide Decode, Slice, Write, Apply, ApplyAll;
    var ops := [Erase(at), Program(at, data)];
    assert ops[..0] == [] && ops[..1] == [Erase(at)] && ops[..2] == ops;
    EraseBlanks(mid, at);
    NoStep(mid);
    EraseStep(mid, at, data);
    ProgramLast(Apply(mid, Erase(at)), at, data);
  }

  lemma NoStep(mid: Bytes)
    ensures ApplyAll(mid, []) == mid
  {}

  lemma EraseStep(mid: Bytes, at: nat, data: Bytes)
    requires at + SECTOR_BYTES <= |mid| && |data| == SECTOR_BYTES
    ensures AllInBounds(|mid|, [Erase(at)]) && AllInBounds(|mid|, [Erase(at), Program(at, data)])
    ensures ApplyAll(mid, [Erase(at)]) == Apply(mid, Erase(at))
    ensures ApplyAll(mid, [Erase(at), Program(at, data)]) == Apply(Apply(mid, Erase(at)), Program(at, data))
  {
    hide Apply;
    assert [Erase(at)][..0] == [];
    assert [Erase(at), Program(at, data)][..1] == [Erase(at)];
  }

  lemma ProgramLast(mid: Bytes, at: nat, data: Bytes)
    requires |data| == SECTOR_BYTES && at + SECTOR_BYTES <= |mid|
    ensures SlotBytes(Apply(mid, Program(at, data)), at) == data
  {
    hide Slice, Write;
    WriteThenRead(mid, at, data);
  }

  lemma EraseBlanks(mid: Bytes, at: nat)
    requires at + SECTOR_BYTES <= |mid|
    ensures Decode(SlotBytes(Apply(mid, Erase(at)), at)).Err?
  {
    hide Decode, Slice, Write;
    WriteThenRead(mid, at, Blank(SECTOR_BYTES));
    ErasedDoesNotDecode(SlotBytes(Apply(mid, Erase(at)), at));
  }

  lemma InstallIs(job: Job)
    requires job.Valid()
    ensures job.InstallOps() == [Erase(job.Spare()), Program(job.Spare(), Encoded(job.Next()))]
  {}

  /** Until the data is down the spare slot is as it was. */
  lemma SpareKeptByData(img: Bytes, job: Job, j: nat, img': Bytes)
    requires MANIFEST_RESERVED_BYTES <= |img| == |img'|
    requires job.Valid() && Sited(job, |img|) && StoppedAt(img, job, j, img') && j < |job.DataOps()|
    ensures SlotBytes(img', job.Spare()) == SlotBytes(img, job.Spare())
  {
    hide Slice, Supported, Updated, CrashState, ApplyAll, AllApart, Job.PayloadOps, Job.RerankOps, Job.InstallOps,
      Job.DataOps, ClearOfData, Sited;
    var at := job.Spare();
    SlotsClearOfData(job, |img|);
    DataOpsElsewhere(job, at, SECTOR_BYTES);
    CrashSplit(img, job.DataOps(), job.InstallOps(), j, img');
    CrashElsewhere(img, job.DataOps(), j, img', at, SECTOR_BYTES);
  }

  /** After `j` whole operations the spare slot is as it was, unreadable, or the new manifest. */
  lemma SpareBetweenOps(img: Bytes, job: Job, j: nat, img': Bytes)
    requires MANIFEST_RESERVED_BYTES <= |img| == |img'|
    requires job.Valid() && Sited(job, |img|) && Bounded(job, |img|) && |job.DataOps()| <= j <= |job.Ops()|
    requires img' == After(img, job.Ops(), j)
    ensures var s := SlotBytes(img', job.Spare());
            s == SlotBytes(img, job.Spare()) || Decode(s).Err? || s == Encoded(job.Next())
  {
    hide Decode, Encoded, Slice, Supported, Updated, ApplyAll, AllApart, Job.PayloadOps, Job.RerankOps,
      Job.InstallOps, Job.DataOps, ClearOfData, Sited;
    var at, data, k := job.Spare(), job.DataOps(), j - |job.DataOps()|;
    SlotsClearOfData(job, |img|);
    DataOpsElsewhere(job, at, SECTOR_BYTES);
    ApplyAllElsewhere(img, data, at, SECTOR_BYTES);
    InstallIs(job);
    WholeInstallStops(ApplyAll(img, data), at, Encoded(job.Next()), k);
    AfterFirstPart(img, data, job.InstallOps(), k);
  }

  lemma AfterFirstPart(img: Bytes, a: seq<Op>, b: seq<Op>, k: nat)
    requires AllInBounds(|img|, a) && AllInBounds(|img|, b) && AllInBounds(|img|, a + b) && k <= |b|
    ensures After(img, a + b, |a| + k) == After(ApplyAll(img, a), b, k)
  {
    hide ApplyAll;
    assert (a + b)[..|a| + k] == a + b[..k];
    ApplyAllConcat(img, a, b[..k]);
  }

  /** Outside a torn install, no stop forges a manifest. */
  lemma ForgedOnlyInInstall(img: Bytes, job: Job, j: nat, img': Bytes)
    requires MANIFEST_RESERVED_BYTES <= |img| == |img'|
    requires Ready(img, job) && Sited(job, |img|) && StoppedAt(img, job, j, img')
    ensures Forged(SlotBytes(img', job.Spare()), job.m, job.Next()) ==> TornInInstall(img, job, j, img')
    ensures Decode(SlotBytes(img', job.Spare())) == Ok(job.Next()) ==> j >= |job.DataOps()|
  {
    hide Sound, Usable, Decode, Encoded, SlotBytes, Supported, Updated, ApplyAll, Job.PayloadOps, Job.RerankOps,
      Job.InstallOps, Job.DataOps, Sited, Torn, Job.Next, Manifest.RangeOrdered, Bounded;
    UsableParts(img, job.m, job.head);
    MountedIs(img, job.m);
    NextIsWellFormed(img, job);
    NextSequence(job);
    if j < |job.DataOps()| {
      SpareKeptByData(img, job, j, img');
    } else if !TornInInstall(img, job, j, img') {
      StopIsBetween(img, job, j, img');
    }
  }

  /** A stop past the data that tore nothing is a stop between two operations. */
  lemma StopIsBetween(img: Bytes, job: Job, j: nat, img': Bytes)
    requires MANIFEST_RESERVED_BYTES <= |img| == |img'|
    requires job.Valid() && Sited(job, |img|) && StoppedAt(img, job, j, img') && j >= |job.DataOps()|
    requires !TornInInstall(img, job, j, img')
    ensures var s := SlotBytes(img', job.Spare());
            s == SlotBytes(img, job.Spare()) || Decode(s).Err? || s == Encoded(job.Next())
  {
    hide Decode, Encoded, SlotBytes, Supported, Updated, ApplyAll, Job.PayloadOps, Job.RerankOps,
      Job.InstallOps, Job.DataOps, Sited, Torn, Job.Next, Manifest.RangeOrdered;
    if img' == After(img, job.Ops(), j) {
      SpareBetweenOps(img, job, j, img');
    } else {
      SpareBetweenOps(img, job, j + 1, img');
    }
  }

  lemma NextSequence(job: Job)
    requires job.Valid()
    ensures job.Next().sequence == job.m.sequence + 1
  {}

  // ---------------------------------------------------------------- the manifest installed

  /** The new manifest is one a reader accepts. */
  lemma NextIsWellFormed(img: Bytes, job: Job)
    requires Ready(img, job)
    ensures job.Next().Fits() && job.Next().WellFormed()
    ensures Decode(Encoded(job.Next())) == Ok(job.Next())
  {
    hide HeldSealed, HeldInside, Installed, PayloadArea, RerankArea, Ratio, Supported, ValidateTable, Encoded, Decode;
    NextRange(img, job);
    assert job.m.Fits() && ValidateTable(job.m.table).Ok?;
    ManifestRoundTrip(job.Next());
  }

  /** Its id range is ordered and ends at the last new id. */
  lemma NextRange(img: Bytes, job: Job)
    requires Ready(img, job)
    ensures var next := job.Next();
            && next.RangeOrdered() && next.n < U32_LIMIT
            && next.n == (job.head + job.blocks) * job.P().per
            && job.m.n <= job.head * job.P().per < next.n
  {
    hide HeldSealed, HeldInside, Installed, PayloadArea, RerankArea, Ratio, Supported, ValidateTable, Unwritten, IsErased;
    var p := job.P();
    FrontierCoversIds(img, job.m, job.head);
    Distribute(job.head, job.blocks, p.per);
    AreasFit(job.m, |img|);
    WholeRatio(job.m);
    ProductOrder(job.head + job.blocks, p.blocks, p.per);
    ProductOrder(p.per, BLOCK_BYTES, p.blocks);
    ProductOrder(0, job.blocks, p.per);
  }

  lemma UsableParts(img: Bytes, m: Manifest, h: nat)
    requires Usable(img, m, h)
    ensures MANIFEST_RESERVED_BYTES <= |img| && Installed(img, m)
    ensures HeldInside(m, PayloadArea(m), |img|) && HeldInside(m, RerankArea(m), |img|)
    ensures Laid(m, |img|) && GapAligned(m)
  {}

  lemma SoundIsUsable(img: Bytes, m: Manifest, h: nat)
    requires Sound(img, m, h)
    ensures Usable(img, m, h)
  {
    hide Usable;
  }

  lemma SoundParts(img: Bytes, m: Manifest, h: nat)
    requires Sound(img, m, h)
    ensures MANIFEST_RESERVED_BYTES <= |img| && Installed(img, m)
    ensures HeldSealed(img, m, PayloadArea(m)) && HeldSealed(img, m, RerankArea(m))
    ensures Laid(m, |img|) && GapAligned(m)
  {}

  predicate MountsOldOrNew(img: Bytes, job: Job)
    requires MANIFEST_RESERVED_BYTES <= |img| && job.Valid()
  {
    Mounted(img) == Ok(job.m) || Mounted(img) == Ok(job.Next())
  }

  /** The live slot as it was: what mounting finds, and where. */
  lemma MountsFrom(img: Bytes, job: Job, img': Bytes)
    requires job.Valid() && MANIFEST_RESERVED_BYTES <= |img| == |img'| && Installed(img, job.m)
    requires SlotBytes(img', SlotOf(job.m.sequence)) == SlotBytes(img, SlotOf(job.m.sequence))
    ensures MountsOldOrNew(img', job) <==> !Forged(SlotBytes(img', job.Spare()), job.m, job.Next())
    ensures Mounted(img') == Ok(job.m) ==> Installed(img', job.m)
    ensures Mounted(img') == Ok(job.Next()) ==>
            Installed(img', job.Next()) && Decode(SlotBytes(img', job.Spare())) == Ok(job.Next())
  {
    hide Decode, SlotBytes, Supported, PayloadArea, Mounted;
    InstallSparesLive(job.m.sequence);
    NextSequence(job);
    MountedIs(img', job.m);
  }

  /**
   Crash atomicity. Stop an append after any operation or inside one: mounting selects the
   old manifest or the new exactly unless the spare slot was forged, which only a torn
   operation of the install can do. The new one is selected only when all of the data is
   down. Every block of an id the old manifest holds, and its CRC word, are byte for byte what
   they were.
   */
  lemma AppendIsAtomic(img: Bytes, job: Job, j: nat, img': Bytes)
    requires MANIFEST_RESERVED_BYTES <= |img| == |img'|
    requires Ready(img, job) && StoppedAt(img, job, j, img')
    ensures MountsOldOrNew(img', job) <==> !Forged(SlotBytes(img', job.Spare()), job.m, job.Next())
    ensures Forged(SlotBytes(img', job.Spare()), job.m, job.Next()) ==> TornInInstall(img, job, j, img')
    ensures Mounted(img') == Ok(job.m) ==> Installed(img', job.m)
    ensures Mounted(img') == Ok(job.Next()) ==> Installed(img', job.Next()) && j >= |job.DataOps()|
    ensures forall b: nat | Written(job.m, job.P().per, b) :: Fits(job.P(), b, |img|) && SameBlock(img, img', job.P(), b)
    ensures forall b: nat | Written(job.m, job.R().per, b) :: Fits(job.R(), b, |img|) && SameBlock(img, img', job.R(), b)
  {
    hide Sound, Usable, Decode, SameBlock, Job.Ops, CrashState, Sited, Written, Bounded, SlotBytes, HeldSealed,
      HeldInside, Job.Next, PayloadArea, RerankArea, Supported, Forged, MountsOldOrNew, Installed, Mounted,
      TornInInstall, Job.DataOps;
    ReadyIsSited(img, job);
    UsableParts(img, job.m, job.head);
    CrashKeepsHeldBlocks(img, job, j, img');
    CrashKeepsLiveSlot(img, job, j, img');
    MountsFrom(img, job, img');
    ForgedOnlyInInstall(img, job, j, img');
  }

  /** The area holds the same bytes for `id` in both images, under a CRC word that agrees in both or in neither. */
  predicate ReadsTheSame(img: Bytes, now: Bytes, a: Area, id: nat)
    requires |now| == |img| && a.per > 0
  {
    && a.per * a.width <= BLOCK_BYTES && Fits(a, Quotient(id, a.per), |img|)
    && RecordAt(now, a, id) == RecordAt(img, a, id)
    && (Sealed(now, a, Quotient(id, a.per)) <==> Sealed(img, a, Quotient(id, a.per)))
  }

  /** So every held id reads the same code and the same record after the crash, sealed if they were sealed. */
  lemma HeldIdsReadTheSame(img: Bytes, job: Job, j: nat, img': Bytes, id: nat)
    requires |img| == |img'|
    requires Ready(img, job) && StoppedAt(img, job, j, img') && job.m.Holds(id)
    ensures ReadsTheSame(img, img', job.P(), id) && ReadsTheSame(img, img', job.R(), id)
  {
    hide Job.Ops, CrashState, Sited, Written, Bounded, Supported, PayloadArea, RerankArea, Laid, Sound, Usable,
      ReadsTheSame;
    ReadyIsSited(img, job);
    UsableParts(img, job.m, job.head);
    WholeRatio(job.m);
    CrashKeepsHeldBlocks(img, job, j, img');
    HeldIdInArea(img, img', job.m, job.P(), id);
    HeldIdInArea(img, img', job.m, job.R(), id);
  }

  lemma HeldIdInArea(img: Bytes, img': Bytes, m: Manifest, a: Area, id: nat)
    requires |img'| == |img| && a.per > 0 && a.per * a.width == BLOCK_BYTES && m.RangeOrdered() && m.Holds(id)
    requires forall b: nat | Written(m, a.per, b) :: Fits(a, b, |img|) && SameBlock(img, img', a, b)
    ensures ReadsTheSame(img, img', a, id)
  {
    hide Written, Sealed, BlockAt, CrcAt, RecordAt;
    HeldBlockIsWritten(m, a.per, id);
    assert SameBlock(img, img', a, Quotient(id, a.per));
    SameBlockSameRecord(img, img', a, id);
    SameBlockSameState(img, img', a, Quotient(id, a.per));
  }
}
