/**
 What the capacity check promises: when a planned append stays inside its regions.

 The check counts erased slots in each region by itself, where the append places both by one
 head. On a usable volume a planned append has room exactly when its last id fits the rerank
 region. Where a payload block covers at most eight rerank blocks and no orphans lie before
 the head, the check implies that; an append with room then completes.
 */
module Room {
  import opened Options
  import opened Flash
  import opened Codec
  import opened Region
  import opened Manifests
  import opened Arith
  import opened Layouts
  import opened Volumes
  import opened BlockAppend
  import opened Append
  import opened Crash
  import opened Atomicity
  import opened Lifecycle
  import opened Runs
  import opened Emit
  import opened Built
  import Crc

  // ---------------------------------------------------------------- counting erased blocks

  lemma {:induction false} ErasedFromHead(img: Bytes, a: Area, h: nat, b: nat)
    requires a.base + BLOCK_BYTES * a.blocks <= |img| && a.crc + CRC_BYTES * a.blocks <= |img|
    requires UnwrittenFrom(img, a, h)
    ensures a.blocks >= b >= h ==> ErasedFrom(img, a, b) == a.blocks - b
    decreases a.blocks - b
  {
    hide BlockAt, CrcAt, IsErased;
    if b < a.blocks {
      ErasedFromHead(img, a, h, b + 1);
      if b >= h {
        assert Unwritten(img, a, b);
      }
    }
  }

  /** With every block below the head used, the count is what lies past it. */
  lemma {:induction false} ErasedIsPastHead(img: Bytes, a: Area, h: nat, b: nat)
    requires a.base + BLOCK_BYTES * a.blocks <= |img| && a.crc + CRC_BYTES * a.blocks <= |img|
    requires UnwrittenFrom(img, a, h) && UsedBelow(img, a, h) && b <= h <= a.blocks
    ensures ErasedFrom(img, a, b) == a.blocks - h
    decreases h - b
  {
    hide BlockAt, CrcAt, IsErased;
    if b < h {
      ErasedIsPastHead(img, a, h, b + 1);
    } else {
      ErasedFromHead(img, a, h, b);
    }
  }

  /** At least what lies past the head, at most everything counted. */
  lemma {:induction false} ErasedBounds(img: Bytes, a: Area, h: nat, b: nat)
    requires a.base + BLOCK_BYTES * a.blocks <= |img| && a.crc + CRC_BYTES * a.blocks <= |img|
    requires UnwrittenFrom(img, a, h) && b <= h <= a.blocks
    ensures a.blocks - h <= ErasedFrom(img, a, b) <= a.blocks - b
    decreases h - b
  {
    hide BlockAt, CrcAt, IsErased;
    if b < h {
      ErasedBounds(img, a, h, b + 1);
    } else {
      ErasedFromHead(img, a, h, b);
    }
  }

  lemma {:induction false} ErasedAtMost(img: Bytes, a: Area, b: nat)
    requires a.base + BLOCK_BYTES * a.blocks <= |img| && a.crc + CRC_BYTES * a.blocks <= |img|
    ensures ErasedFrom(img, a, b) <= if b < a.blocks then a.blocks - b else 0
    decreases a.blocks - b
  {
    hide BlockAt, CrcAt, IsErased;
    if b < a.blocks {
      ErasedAtMost(img, a, b + 1);
    }
  }

  lemma CeilAtMost(n: nat, per: nat, h: nat)
    requires per > 0
    ensures n <= h * per <==> CeilDiv(n, per) <= h
  {
    BelowCeil(h, n, per);
  }

  /** On a usable volume the payload slots reported are exactly those past the head. */
  lemma PayloadSlots(img: Bytes, m: Manifest, h: nat)
    requires Usable(img, m, h)
    ensures var p := PayloadArea(m);
            && p.base + BLOCK_BYTES * p.blocks <= |img| && p.crc + CRC_BYTES * p.blocks <= |img|
            && ErasedSlots(img, p, m.n) == (p.blocks - h) * p.per && h <= p.blocks
  {
    hide HeldSealed, HeldInside, Installed, PayloadArea, RerankArea, Ratio, RatioTimes, Supported, UsedBelow, UnwrittenFrom,
      Laid, CeilDiv;
    LaidIsSupported(m, |img|);
    var p := PayloadArea(m);
    AreasWithin(m, |img|);
    CeilAtMost(m.n, p.per, h);
    ErasedIsPastHead(img, p, h, CeilDiv(m.n, p.per));
  }

  // ---------------------------------------------------------------- the plan on a usable volume

  /** A planned append starts at the head, and its payload blocks are there. */
  lemma PlannedAtHead(img: Bytes, m: Manifest, h: nat, count: nat)
    requires Usable(img, m, h) && PlanFor(img, m, count).Ok?
    ensures PlanFor(img, m, count).value == h
    ensures count > 0 && count % PayloadArea(m).per == 0 && h + count / PayloadArea(m).per <= PayloadArea(m).blocks
    ensures RatioTimes(m, h) < RerankArea(m).blocks
  {
    hide HeldSealed, HeldInside, Installed, PayloadArea, RerankArea, Ratio, RatioTimes, Supported, UsedBelow, UnwrittenFrom,
      Laid, ErasedSlots, HeadFrom, PlanFor, RerankHead;
    LaidIsSupported(m, |img|);
    var p := PayloadArea(m);
    PlannedCount(img, m, count);
    PayloadSlots(img, m, h);
    AreasWithin(m, |img|);
    HeadOf(img, p, h);
    RerankHeadAt(m, h);
    PlanReads(img, m, count);
    SlotsCover(p.blocks - h, count, p.per);
  }

  lemma SlotsCover(blocks: nat, count: nat, per: nat)
    requires per > 0 && count <= blocks * per
    ensures count / per <= blocks
  {
    DivMod(count, per);
    ProductOrder(blocks, count / per, per);
  }

  lemma RerankHeadAt(m: Manifest, h: nat)
    requires Supported(m)
    ensures RerankHead(m, h) == RatioTimes(m, h)
  {
    hide Supported, RerankHead, Ratio;
    RerankHeadIs(m, h);
  }

  /** What a plan that succeeds has checked. */
  lemma PlanReads(img: Bytes, m: Manifest, count: nat)
    requires Laid(m, |img|) && PlanFor(img, m, count).Ok?
    ensures var p, r, h := PayloadArea(m), RerankArea(m), PlanFor(img, m, count).value;
            && p.base + BLOCK_BYTES * p.blocks <= |img| && p.crc + CRC_BYTES * p.blocks <= |img|
            && r.base + BLOCK_BYTES * r.blocks <= |img| && r.crc + CRC_BYTES * r.blocks <= |img|
            && count <= ErasedSlots(img, p, m.n) && count <= ErasedSlots(img, r, m.n)
            && HeadFrom(img, p.base, p.blocks, BLOCK_BYTES, 0) == Ok(Some(h))
            && RerankHead(m, h) < r.blocks
  {
    hide PayloadArea, RerankArea, Laid, ErasedSlots, HeadFrom, IsErased, Slice, Unit, Quotient, Supported;
    LaidIsSupported(m, |img|);
    AreasWithin(m, |img|);
    UnitIsPayloadBlock(m, count);
  }

  lemma HeadOf(img: Bytes, p: Area, h: nat)
    requires h <= p.blocks && p.base + BLOCK_BYTES * p.blocks <= |img| && p.crc + CRC_BYTES * p.blocks <= |img|
    requires UsedBelow(img, p, h) && UnwrittenFrom(img, p, h)
    ensures HeadFrom(img, p.base, p.blocks, BLOCK_BYTES, 0) == Ok(if h < p.blocks then Some(h) else None)
  {
    hide IsErased, Slice;
    if h < p.blocks {
      assert Unwritten(img, p, h);
    }
    HeadIsLeastErased(img, p, h, 0);
  }

  /** And the plan succeeds whenever those checks do. */
  lemma PlanSucceeds(img: Bytes, m: Manifest, h: nat, count: nat)
    requires Usable(img, m, h)
    requires count > 0 && count % PayloadArea(m).per == 0 && h + count / PayloadArea(m).per <= PayloadArea(m).blocks
    requires RatioTimes(m, h) < RerankArea(m).blocks
    requires var r := RerankArea(m);
             && r.base + BLOCK_BYTES * r.blocks <= |img| && r.crc + CRC_BYTES * r.blocks <= |img|
             && count <= ErasedSlots(img, r, m.n)
    ensures PlanFor(img, m, count) == Ok(h)
  {
    hide HeldSealed, HeldInside, Installed, PayloadArea, RerankArea, Ratio, RatioTimes, Supported, UsedBelow, UnwrittenFrom,
      Laid, ErasedSlots, HeadFrom, RerankHead, Unit, BlockAt, CrcAt, IsErased;
    LaidIsSupported(m, |img|);
    var p, r := PayloadArea(m), RerankArea(m);
    AreasWithin(m, |img|);
    PayloadSlots(img, m, h);
    HeadOf(img, p, h);
    RerankHeadAt(m, h);
    FirstErasedAt(img, r, RatioTimes(m, h), RatioTimes(m, h));
    UnitIsPayloadBlock(m, count);
    WholeSlots(p.blocks - h, count, p.per);
    HeadIsOneBlock(p, h, count);
  }

  lemma WholeSlots(blocks: nat, count: nat, per: nat)
    requires per > 0 && count % per == 0 && count / per <= blocks
    ensures count <= blocks * per
  {
    DivMod(count, per);
    ProductOrder(count / per, blocks, per);
  }

  lemma HeadIsOneBlock(p: Area, h: nat, count: nat)
    requires p.per > 0 && count > 0 && count % p.per == 0 && h + count / p.per <= p.blocks
    ensures h < p.blocks
  {
    DivMod(count, p.per);
  }

  lemma FirstErasedAt(img: Bytes, a: Area, h: nat, b: nat)
    requires UnwrittenFrom(img, a, h) && h <= b < a.blocks
    ensures Fits(a, b, |img|) && IsErased(BlockAt(img, a, b))
  {
    hide BlockAt, CrcAt, IsErased;
    assert Unwritten(img, a, b);
  }

  /**
   On a usable volume a batch is refused as misaligned, with the whole block it should be a
   multiple of, or as too large, with the payload slots past the head and the rerank slots the
   check found; nothing else refuses it.
   */
  lemma RefusalsAre(img: Bytes, m: Manifest, h: nat, count: nat)
    requires Usable(img, m, h)
    ensures Laid(m, |img|) && Supported(m)
    ensures var p, r, plan := PayloadArea(m), RerankArea(m), PlanFor(img, m, count);
            plan.Err? ==>
              if count == 0 || count % p.per != 0 then plan.error == NotAligned(count, p.per)
              else
                && plan.error.Full?
                && plan.error.payloadSlots == (p.blocks - h) * p.per
                && plan.error.rerankSlots % r.per == 0
                && (RatioTimes(m, h) <= r.blocks ==> plan.error.rerankSlots / r.per >= r.blocks - RatioTimes(m, h))
                && (h < p.blocks && RatioTimes(m, h) < r.blocks ==>
                      plan.error.payloadSlots < count || plan.error.rerankSlots < count)
  {
    hide HeldSealed, HeldInside, Installed, PayloadArea, RerankArea, Ratio, RatioTimes, Supported, UsedBelow, UnwrittenFrom,
      Laid, ErasedSlots, HeadFrom, RerankHead, Unit, BlockAt, CrcAt, IsErased;
    LaidIsSupported(m, |img|);
    var p, r := PayloadArea(m), RerankArea(m);
    AreasWithin(m, |img|);
    PayloadSlots(img, m, h);
    HeadOf(img, p, h);
    RerankHeadAt(m, h);
    UnitIsBlock(m);
    RerankSlotsPast(img, m, h);
    if RatioTimes(m, h) < r.blocks {
      FirstErasedAt(img, r, RatioTimes(m, h), RatioTimes(m, h));
    }
  }

  lemma RerankSlotsPast(img: Bytes, m: Manifest, h: nat)
    requires Usable(img, m, h)
    ensures Supported(m)
    ensures var r := RerankArea(m);
            && r.base + BLOCK_BYTES * r.blocks <= |img| && r.crc + CRC_BYTES * r.blocks <= |img|
            && ErasedSlots(img, r, m.n) % r.per == 0
            && (RatioTimes(m, h) <= r.blocks ==> ErasedSlots(img, r, m.n) / r.per >= r.blocks - RatioTimes(m, h))
  {
    hide HeldSealed, HeldInside, Installed, PayloadArea, RerankArea, Ratio, Supported, UsedBelow, UnwrittenFrom,
      Laid, CeilDiv;
    LaidIsSupported(m, |img|);
    AreasWithin(m, |img|);
    WholeRatio(m);
    var r := RerankArea(m);
    var b := CeilDiv(m.n, r.per);
    Regroup(h, Ratio(m), r.per);
    CeilAtMost(m.n, r.per, RatioTimes(m, h));
    if RatioTimes(m, h) <= r.blocks {
      ErasedBounds(img, r, RatioTimes(m, h), b);
    }
    QuotientIs(ErasedSlots(img, r, m.n), r.per, ErasedFrom(img, r, b));
  }

  lemma UnitIsBlock(m: Manifest)
    requires Supported(m)
    ensures Unit(PayloadArea(m).per, RerankArea(m).per) == PayloadArea(m).per
  {
    hide Unit, Ratio, Supported, PayloadArea, RerankArea;
    var p, r := PayloadArea(m).per, RerankArea(m).per;
    WholeRatio(m);
    UnitIsPayloadBlock(m, p);
    UnitIsPayloadBlock(m, Unit(p, r));
    MutualMultiples(p, Unit(p, r));
  }

  lemma MutualMultiples(a: nat, b: nat)
    requires a > 0 && b > 0 && a % b == 0 && b % a == 0
    ensures a == b
  {
    DivMod(a, b);
    DivMod(b, a);
    ProductOrder(1, a / b, b);
    ProductOrder(1, b / a, a);
  }

  /** A planned append on a usable volume has room exactly when its last id fits the rerank region. */
  lemma RoomIff(img: Bytes, m: Manifest, h: nat, count: nat, job: Job)
    requires Usable(img, m, h) && PlanFor(img, m, count) == Ok(h)
    requires job.Valid() && job.m == m && job.head == h && count == job.blocks * PayloadArea(m).per
    ensures job.Room() <==> h * PayloadArea(m).per + count <= RerankArea(m).blocks * RerankArea(m).per
  {
    hide Sound, Usable, PlanFor, PayloadArea, RerankArea, Ratio, Supported;
    PlannedAtHead(img, m, h, count);
    WholeRatio(m);
    var p, r := PayloadArea(m), RerankArea(m);
    DivMod(count, p.per);
    QuotientIs(count, p.per, job.blocks);
    Distribute(h, job.blocks, p.per);
    RerankEnd(job);
    Regroup(h + job.blocks, Ratio(m), r.per);
    ProductOrder(RatioTimes(m, h + job.blocks), r.blocks, r.per);
    ProductOrder(r.blocks, RatioTimes(m, h + job.blocks), r.per);
  }

  // ---------------------------------------------------------------- when the check is enough

  lemma RatioDividesEight(m: Manifest)
    requires Supported(m) && PayloadArea(m).per <= 8 * RerankArea(m).per
    ensures Ratio(m) > 0 && 8 % Ratio(m) == 0
  {
    hide PayloadArea, RerankArea, Ratio, Supported;
    WholeRatio(m);
    var p, r, k := PayloadArea(m), RerankArea(m), Ratio(m);
    ProductOrder(8, k, r.per);
    assert k * (r.per * p.width) == BLOCK_BYTES by {
      Regroup(k, r.per, p.width);
    }
    Nine();
    DivisorsOfPow2(k, r.per * p.width, 9);
    var i :| i <= 9 && k == Pow2(i);
    assert Pow2(3) == 8;
    Pow2Divides(3, i);
  }

  lemma Nine()
    ensures Pow2(9) == BLOCK_BYTES
  {
    assert Pow2(3) == 8;
    assert Pow2(6) == 64;
  }

  lemma WholeSectors(m: Manifest, size: nat)
    requires Laid(m, size)
    ensures RerankArea(m).blocks % 8 == 0
  {
    SectorsOf(m.table, Rerank);
  }

  lemma SectorsOf(t: RegionTable, kind: RegionKind)
    requires ValidateTable(t).Ok? && Get(t, kind).Some? && Get(t, kind).value.blockBytes == BLOCK_BYTES
    ensures Get(t, kind).value.blocks % 8 == 0
  {
    hide ValidateTable, Overlapping;
    ValidTableIffDisjoint(t);
    GetIsListed(t, kind);
  }

  /** The arithmetic of `CapacityIsEnough`: `x` blocks, a multiple of `k`, more than the last whole group needs. */
  lemma NextMultiple(x: nat, k: nat, g: nat)
    requires k > 0 && 8 % k == 0 && x % 8 == 0 && g > 0 && (g - 1) * k < x
    ensures g * k <= x
  {
    DivMod(8, k);
    DivMod(x, 8);
    var q := (x / 8) * (8 / k);
    Regroup(x / 8, 8 / k, k);
    ProductOrder(q, g - 1, k);
    ProductOrder(g, q, k);
  }

  /** Erased rerank slots on a volume whose head is the end of its ids. */
  lemma RerankSlotsAtMost(img: Bytes, m: Manifest, count: nat)
    requires Laid(m, |img|) && PlanFor(img, m, count).Ok? && count > 0
    ensures var r := RerankArea(m);
            CeilDiv(m.n, r.per) <= r.blocks && count <= (r.blocks - CeilDiv(m.n, r.per)) * r.per
  {
    hide PlanFor, PayloadArea, RerankArea, Supported, Laid, CeilDiv, ErasedFrom;
    LaidIsSupported(m, |img|);
    var r := RerankArea(m);
    PlanReads(img, m, count);
    ErasedAtMost(img, r, CeilDiv(m.n, r.per));
    var e := ErasedFrom(img, r, CeilDiv(m.n, r.per));
    ProductOrder(e, r.blocks - CeilDiv(m.n, r.per), r.per);
    ProductOrder(e, 0, r.per);
  }

  /**
   Where a payload block covers at most eight rerank blocks, and no orphans lie before the
   head, the capacity check is enough: a planned append always has room in both regions.
   */
  lemma CapacityIsEnough(img: Bytes, m: Manifest, h: nat, count: nat, job: Job)
    requires Usable(img, m, h) && h == CeilDiv(m.n, PayloadArea(m).per)
    requires PayloadArea(m).per <= 8 * RerankArea(m).per
    requires PlanFor(img, m, count) == Ok(h)
    requires job.Valid() && job.m == m && job.head == h && count == job.blocks * PayloadArea(m).per
    ensures job.Room()
  {
    hide PlanFor, PayloadArea, RerankArea, Ratio, RatioTimes, Supported, Laid, CeilDiv, HeldSealed, HeldInside, Installed,
      Frontier;
    PlannedAtHead(img, m, h, count);
    var p, r, k, c := PayloadArea(m), RerankArea(m), Ratio(m), job.blocks;
    QuotientIs(count, p.per, c);
    RerankSlotsAtMost(img, m, count);
    WholeRatio(m);
    RatioDividesEight(m);
    WholeSectors(m, |img|);
    var cr := CeilDiv(m.n, r.per);
    RatioTimesIs(m, h + c);
    RerankEnd(job);
    EnoughGroups(m.n, h, c, k, p.per, r.per, r.blocks, cr);
  }

  lemma EnoughGroups(n: nat, h: nat, c: nat, k: nat, pp: nat, pr: nat, blocks: nat, cr: nat)
    requires pp > 0 && pr > 0 && k > 0 && pp == k * pr && c > 0
    requires h == CeilDiv(n, pp) && cr == CeilDiv(n, pr) && cr <= blocks && c * pp <= (blocks - cr) * pr
    requires 8 % k == 0 && blocks % 8 == 0
    ensures (h + c) * k <= blocks
  {
    hide CeilDiv;
    Regroup(c, k, pr);
    ProductOrder(blocks - cr, c * k, pr);
    assert c * k <= blocks - cr;
    if h == 0 {
      Distribute(0, c, k);
    } else {
      Distribute(h - 1, 1, pp);
      Regroup(h - 1, k, pr);
      ProductOrder(cr, (h - 1) * k, pr);
      assert (h - 1) * k < cr;
      Distribute(h - 1, c, k);
      NextMultiple(blocks, k, h + c);
    }
  }

  // ---------------------------------------------------------------- the completed call

  /** On a usable volume with room, the call reports success and leaves the completed image. */
  lemma AppendSucceeds(was: Bytes, log: seq<Op>, codes: Bytes, records: Bytes, count: nat, h: nat,
                       r: Result<Report, AppendError>, done: nat, now: Bytes, nowLog: seq<Op>)
    requires MANIFEST_RESERVED_BYTES <= |was| && Mounted(was).Ok?
    requires Laid(Mounted(was).value, |was|)
    requires Outcome(was, log, codes, records, count, r, done, now, nowLog)
    requires PlanFor(was, Mounted(was).value, count) == Ok(h)
    requires Ready(was, JobFor(Mounted(was).value, h, count, codes, records))
    ensures var job := JobFor(Mounted(was).value, h, count, codes, records);
            && r == Ok(ReportOf(job, count))
            && now == Completed(was, job)
            && nowLog == log + job.Ops()
  {
    hide Mounted, Laid, PlanFor, Ran, AllLegal, ApplyAll, Sound, Usable, ReportOf, Supported, PayloadArea, RerankArea,
      RatioTimes, Job.Ops, JobFor;
    LaidIsSupported(Mounted(was).value, |was|);
    var job := JobFor(Mounted(was).value, h, count, codes, records);
    AppendIsLegal(was, job);
    LegalRunsCompletely(was, job.Ops(), done, now);
    assert job.Ops()[..done] == job.Ops();
  }

  // ---------------------------------------------------------------- from a build on

  /** A build is where a life begins: sound, with no orphans, its head at the block after the last vector. */
  lemma BuildBeginsALife(image: Image)
    requires Buildable(image) && CodesShow(image)
    ensures var v := Volume(Emitted(image), ManifestOf(image), BuiltPayload(image));
            && SoundVolume(v) && NoOrphans(v) && Life([v]) && Run([v])
            && v.head == CeilDiv(v.m.n, PayloadArea(v.m).per)
  {
    hide Sound, Usable, Emitted, ManifestOf, Image.Extents, Supported;
    BuiltIsSound(image);
    StoredFields(image);
    ManifestIs(image);
    SoundIsUsable(Emitted(image), ManifestOf(image), BuiltPayload(image));
    SoundParts(Emitted(image), ManifestOf(image), BuiltPayload(image));
    LaidIsSupported(ManifestOf(image), |Emitted(image)|);
  }
}
