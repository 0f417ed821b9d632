/**
 Soundness over whole lives: any run of appends, each stopped anywhere or completed.

 A volume is an image with its live manifest and its append head. One step of a life is an
 append that is stopped after any operation or inside one, or runs to its end, and a mount.
 Each step leaves a usable volume and the bytes of every id held before it; both carry over
 to every pair of volumes in a life. Whether the volume also stays sound depends on the blocks
 that earlier stops left before the head: exactly when they are sealed.
 */
module Runs {
  import opened Options
  import opened Flash
  import opened Codec
  import opened Region
  import opened Manifests
  import opened Arith
  import opened Layouts
  import opened Volumes
  import opened BlockAppend
  import opened Append
  import opened Crash
  import opened Atomicity
  import opened Lifecycle

  // ---------------------------------------------------------------- what the new manifest holds

  /** No orphaned blocks lie between the committed extent and the head. */
  predicate Contiguous(m: Manifest, head: nat)
    requires Supported(m) && m.RangeOrdered()
  {
    m.Appended() == 0 || m.n == head * PayloadArea(m).per
  }

  /** `next` extends `m` by `cnt` whole blocks from block `at`. */
  predicate Extends(m: Manifest, next: Manifest, per: nat, at: nat, cnt: nat) {
    && per > 0 && cnt > 0 && m.RangeOrdered()
    && next.builtN == m.builtN && m.n <= at * per && next.n == at * per + cnt * per
    && next.appendedFrom == if m.Appended() == 0 then at * per else m.appendedFrom
  }

  /** With no orphans, the blocks the new manifest names are the old ones and the new ones. */
  lemma WrittenNext(m: Manifest, next: Manifest, per: nat, at: nat, cnt: nat, b: nat)
    requires Extends(m, next, per, at, cnt) && (m.Appended() == 0 || m.n == at * per)
    ensures Written(next, per, b) <==> Written(m, per, b) || at <= b < at + cnt
  {
    Distribute(at, cnt, per);
    ProductOrder(b, at, per);
    ProductOrder(at, b, per);
    ProductOrder(b, at + cnt, per);
    ProductOrder(at + cnt, b, per);
  }

  /** Whether or not there are orphans, every old and every new block is named; only orphans are added. */
  lemma WrittenNextOrOrphan(m: Manifest, next: Manifest, per: nat, at: nat, cnt: nat, b: nat)
    requires Extends(m, next, per, at, cnt)
    ensures Written(m, per, b) || at <= b < at + cnt ==> Written(next, per, b)
    ensures Written(next, per, b) ==> b < at + cnt
  {
    Distribute(at, cnt, per);
    ProductOrder(b, at, per);
    ProductOrder(at, b, per);
    ProductOrder(b, at + cnt, per);
    ProductOrder(at + cnt, b, per);
  }

  /** A job extends its manifest in both regions, by the same ids. */
  lemma JobExtends(img: Bytes, job: Job)
    requires Ready(img, job)
    ensures Extends(job.m, job.Next(), job.P().per, job.head, job.blocks)
    ensures Extends(job.m, job.Next(), job.R().per, job.RerankAt(), job.RerankCount())
    ensures job.RerankAt() * job.R().per == job.head * job.P().per
  {
    hide Sound, Usable, PayloadArea, RerankArea, Ratio, Supported;
    var m := job.m;
    NextRange(img, job);
    WholeRatio(m);
    Regroup(job.head, Ratio(m), job.R().per);
    Regroup(job.blocks, Ratio(m), job.R().per);
    ProductOrder(0, job.blocks, Ratio(m));
    Distribute(job.head, job.blocks, job.P().per);
  }

  // ---------------------------------------------------------------- the new manifest, once it is live

  /** Power failed, or the append ran to its end, and mounting selects the new manifest. */
  ghost predicate Commits(img: Bytes, job: Job, j: nat, img': Bytes)
    requires job.Valid()
  {
    MANIFEST_RESERVED_BYTES <= |img| == |img'| && StoppedAt(img, job, j, img') && Mounted(img') == Ok(job.Next())
  }

  /** ... or still the old one. */
  ghost predicate RollsBack(img: Bytes, job: Job, j: nat, img': Bytes)
    requires job.Valid()
  {
    MANIFEST_RESERVED_BYTES <= |img| == |img'| && StoppedAt(img, job, j, img') && Mounted(img') == Ok(job.m)
  }

  lemma CommitHasLanded(img: Bytes, job: Job, j: nat, img': Bytes)
    requires Ready(img, job) && Commits(img, job, j, img')
    ensures Landed(img, job, j, img') && Installed(img', job.Next())
  {
    hide Sound, Usable, Installed, Mounted, Job.Next, Bounded, CrashState, Sited, Written, SlotBytes, Job.DataOps,
      Job.Ops, Forged, SameBlock, PayloadArea, RerankArea, Supported, TornInInstall;
    AppendIsAtomic(img, job, j, img');
  }

  lemma NextIsLaid(img: Bytes, job: Job)
    requires Ready(img, job)
    ensures Laid(job.Next(), |img|)
    ensures PayloadArea(job.Next()) == job.P() && RerankArea(job.Next()) == job.R() && Ratio(job.Next()) == job.K()
  {
    hide HeldSealed, HeldInside, Frontier, Installed, ValidateTable, Encoded, Decode;
    NextIsWellFormed(img, job);
  }

  /** A manifest that ends with a run of blocks inside the area names no block outside it. */
  lemma EndsInside(m: Manifest, next: Manifest, a: Area, at: nat, cnt: nat, size: nat)
    requires Extends(m, next, a.per, at, cnt) && Placed(a, at, cnt, size)
    ensures HeldInside(next, a, size)
  {
    hide Extends, Written;
    forall b: nat | Written(next, a.per, b)
      ensures Fits(a, b, size)
    {
      WrittenNextOrOrphan(m, next, a.per, at, cnt, b);
    }
  }

  lemma NextIsInside(img: Bytes, job: Job)
    requires Ready(img, job)
    ensures HeldInside(job.Next(), job.P(), |img|) && HeldInside(job.Next(), job.R(), |img|)
  {
    hide Usable, HeldInside, Extends, Placed, Clear, PayloadArea, RerankArea, Ratio, RatioTimes, Supported, Updated;
    JobExtends(img, job);
    ReadyIsSited(img, job);
    EndsInside(job.m, job.Next(), job.P(), job.head, job.blocks, |img|);
    EndsInside(job.m, job.Next(), job.R(), job.RerankAt(), job.RerankCount(), |img|);
  }

  lemma NextFrontier(img: Bytes, job: Job, j: nat, img': Bytes)
    requires Ready(img, job) && Landed(img, job, j, img')
    ensures Supported(job.Next()) && Frontier(img', job.Next(), job.head + job.blocks)
  {
    hide Sound, Usable, UsedBelow, UnwrittenFrom, PayloadArea, RerankArea, Ratio, RatioTimes, Job.Ops, Job.DataOps,
      Bounded, CrashState, Updated, Sited;
    NextIsLaid(img, job);
    LaidIsSupported(job.Next(), |img|);
    var h := StopHasHead(img, job, j, img');
    LandedPastPayload(job);
    NextRange(img, job);
    FrontierMovesOn(img', job.m, job.Next(), h);
  }

  lemma FrontierMovesOn(img: Bytes, m: Manifest, next: Manifest, h: nat)
    requires Supported(m) && Supported(next) && PayloadArea(next) == PayloadArea(m) && RerankArea(next) == RerankArea(m)
    requires Ratio(next) == Ratio(m) && next.n <= h * PayloadArea(m).per && Frontier(img, m, h)
    ensures Frontier(img, next, h)
  {
    hide UsedBelow, UnwrittenFrom, PayloadArea, RerankArea, Ratio, Supported;
  }

  lemma GapStaysAligned(img: Bytes, job: Job)
    requires Ready(img, job) && Supported(job.Next()) && PayloadArea(job.Next()) == job.P()
    ensures GapAligned(job.Next())
  {
    hide HeldSealed, HeldInside, Frontier, Installed, Laid, PayloadArea, RerankArea, Supported;
    NextRange(img, job);
    QuotientIs(job.head * job.P().per, job.P().per, job.head);
  }

  /** Under the new manifest the volume is usable, its head past the new blocks, with no orphans before it. */
  lemma CommitIsUsable(img: Bytes, job: Job, j: nat, img': Bytes)
    requires Ready(img, job) && Commits(img, job, j, img')
    ensures Usable(img', job.Next(), job.head + job.blocks)
    ensures Contiguous(job.Next(), job.head + job.blocks)
  {
    hide HeldInside, Frontier, Installed, Laid, PayloadArea, RerankArea, Supported, Ratio, RatioTimes, GapAligned,
      Landed, StoppedAt, Updated, Mounted;
    CommitHasLanded(img, job, j, img');
    NextIsLaid(img, job);
    LaidIsSupported(job.Next(), |img|);
    NextIsInside(img, job);
    NextFrontier(img, job, j, img');
    NextRange(img, job);
    GapStaysAligned(img, job);
  }

  /** Under the old one too, with the head moved past the blocks the append may have touched. */
  lemma RollbackIsUsable(img: Bytes, job: Job, j: nat, img': Bytes) returns (h: nat)
    requires Ready(img, job) && RollsBack(img, job, j, img')
    ensures job.head <= h <= job.head + job.blocks && Usable(img', job.m, h)
    ensures j >= |job.PayloadOps()| ==> h == job.head + job.blocks
  {
    hide HeldInside, Frontier, Laid, PayloadArea, RerankArea, Supported, RatioTimes, Job.Ops, Job.PayloadOps, Forged,
      Bounded, CrashState, Installed, SlotBytes, SameBlock, Mounted, TornInInstall, GapAligned;
    h := StopHasHead(img, job, j, img');
    AppendIsAtomic(img, job, j, img');
  }

  /**
   Recovery. Wherever an append stops, short of a forged slot, mounting finds a usable volume:
   under the old manifest with the head moved on, or under the new one with all of it written.
   */
  lemma StopIsUsable(img: Bytes, job: Job, j: nat, img': Bytes) returns (h: nat)
    requires Ready(img, job) && CleanStop(img, job, j, img')
    ensures MANIFEST_RESERVED_BYTES <= |img| == |img'|
    ensures job.head <= h <= job.head + job.blocks
    ensures || (Mounted(img') == Ok(job.m) && Usable(img', job.m, h))
            || (Mounted(img') == Ok(job.Next()) && Usable(img', job.Next(), h) && h == job.head + job.blocks)
  {
    hide Usable, PayloadArea, RerankArea, Supported, Bounded, CrashState, SlotBytes, SameBlock, Mounted, Forged,
      TornInInstall, Written, Installed, StoppedAt, Updated;
    AppendIsAtomic(img, job, j, img');
    if Mounted(img') == Ok(job.m) {
      h := RollbackIsUsable(img, job, j, img');
    } else {
      h := job.head + job.blocks;
      CommitIsUsable(img, job, j, img');
    }
  }

  /** An append that runs to its end commits. */
  lemma CompletedCommits(img: Bytes, job: Job)
    requires Ready(img, job)
    ensures Commits(img, job, |job.Ops()|, Completed(img, job))
  {
    hide Sound, Usable, Job.Ops, Job.DataOps, CrashState, Sited, SlotBytes, Decode, Encoded, PayloadArea, RerankArea,
      Supported, AllLegal, Updated, Chunk, IsErased, RatioTimes, Job.InstallOps, ApplyAll;
    var end := Completed(img, job);
    CompletedIsStop(img, job);
    UsableParts(img, job.m, job.head);
    AppendIsLegal(img, job);
    CrashKeepsLiveSlot(img, job, |job.Ops()|, end);
    InstallLegal(AfterData(img, job), job);
    NextIsWellFormed(img, job);
    NextSequence(job);
    MountedIs(end, job.m);
  }

  // ---------------------------------------------------------------- when the volume stays sound

  /** Every block of the area that `m` names below `h` carries its CRC. */
  ghost predicate SealedBelow(img: Bytes, m: Manifest, a: Area, h: nat) {
    forall b: nat | Written(m, a.per, b) && b < h :: Fits(a, b, |img|) && Sealed(img, a, b)
  }

  /** A run of sealed blocks from `h` on, over an area otherwise as it was. */
  lemma SealedFrom(img: Bytes, now: Bytes, m: Manifest, next: Manifest, a: Area, h: nat, cnt: nat)
    requires |now| == |img| && Extends(m, next, a.per, h, cnt) && Placed(a, h, cnt, |img|)
    requires forall b: nat | b < h :: SameBlock(img, now, a, b)
    requires forall b: nat | h <= b < h + cnt :: Sealed(now, a, b)
    ensures HeldSealed(now, next, a) <==> SealedBelow(img, next, a, h)
  {
    hide Extends, Written, Sealed, BlockAt, CrcAt;
    forall b: nat | Written(next, a.per, b)
      ensures b < h + cnt
      ensures b < h ==> (Sealed(now, a, b) <==> Sealed(img, a, b))
    {
      WrittenNextOrOrphan(m, next, a.per, h, cnt, b);
      if b < h {
        assert SameBlock(img, now, a, b);
        SameBlockSameState(img, now, a, b);
      }
    }
  }

  lemma PayloadSealedIff(img: Bytes, job: Job, j: nat, img': Bytes)
    requires Ready(img, job) && Landed(img, job, j, img')
    ensures HeldSealed(img', job.Next(), job.P()) <==> SealedBelow(img, job.Next(), job.P(), job.head)
  {
    hide Sound, Usable, Written, Sealed, PayloadArea, RerankArea, Supported, RatioTimes, Updated, Extends, SameBlock,
      CrashState, HeldSealed, SealedBelow, Job.Ops, Job.DataOps, Bounded, Clear;
    JobExtends(img, job);
    ReadyIsSited(img, job);
    OpsAreBounded(job, |img|);
    CrashKeepsLength(img, job.Ops(), j, img');
    forall b: nat | b < job.head
      ensures SameBlock(img, img', job.P(), b)
    {
      CrashKeepsPayloadBlock(img, job, j, img', b);
    }
    forall b: nat | job.head <= b < job.head + job.blocks
      ensures Sealed(img', job.P(), b)
    {
      NewPayloadBlock(img, job, j, img', b);
    }
    SealedFrom(img, img', job.m, job.Next(), job.P(), job.head, job.blocks);
  }

  lemma RerankSealedIff(img: Bytes, job: Job, j: nat, img': Bytes)
    requires Ready(img, job) && Landed(img, job, j, img')
    ensures HeldSealed(img', job.Next(), job.R()) <==> SealedBelow(img, job.Next(), job.R(), job.RerankAt())
  {
    hide Sound, Usable, Written, Sealed, PayloadArea, RerankArea, Supported, RatioTimes, Updated, Extends, SameBlock,
      CrashState, HeldSealed, SealedBelow, Job.Ops, Job.DataOps, Bounded, Clear;
    JobExtends(img, job);
    ReadyIsSited(img, job);
    OpsAreBounded(job, |img|);
    CrashKeepsLength(img, job.Ops(), j, img');
    forall b: nat | b < job.RerankAt()
      ensures SameBlock(img, img', job.R(), b)
    {
      CrashKeepsRerankBlock(img, job, j, img', b);
    }
    forall b: nat | job.RerankAt() <= b < job.RerankAt() + job.RerankCount()
      ensures Sealed(img', job.R(), b)
    {
      NewRerankBlock(img, job, j, img', b);
    }
    SealedFrom(img, img', job.m, job.Next(), job.R(), job.RerankAt(), job.RerankCount());
  }

  /**
   A committed append leaves a sound volume exactly when every block its manifest names below
   the head was sealed already, codes and records both: the blocks of ids held before, and
   any that an earlier append left there when it was cut short.
   */
  lemma OrphansDecide(img: Bytes, job: Job, j: nat, img': Bytes)
    requires Ready(img, job) && Commits(img, job, j, img')
    ensures Sound(img', job.Next(), job.head + job.blocks) <==>
            SealedBelow(img, job.Next(), job.P(), job.head) && SealedBelow(img, job.Next(), job.R(), job.RerankAt())
  {
    hide Usable, Commits, Landed, HeldSealed, SealedBelow, PayloadArea, RerankArea, Supported, RatioTimes, Updated, Ratio;
    CommitIsUsable(img, job, j, img');
    CommitHasLanded(img, job, j, img');
    NextIsLaid(img, job);
    LaidIsSupported(job.Next(), |img|);
    PayloadSealedIff(img, job, j, img');
    RerankSealedIff(img, job, j, img');
  }

  lemma NoOrphansInArea(img: Bytes, m: Manifest, next: Manifest, a: Area, h: nat, cnt: nat)
    requires Extends(m, next, a.per, h, cnt) && (m.Appended() == 0 || m.n == h * a.per)
    ensures SealedBelow(img, next, a, h) <==> HeldSealed(img, m, a)
  {
    hide Extends, Written, Sealed;
    forall b: nat
      ensures Written(next, a.per, b) && b < h <==> Written(m, a.per, b)
    {
      WrittenNext(m, next, a.per, h, cnt, b);
      BelowStart(m, next, a.per, h, cnt, b);
    }
    assert forall b: nat :: Written(next, a.per, b) && b < h <==> Written(m, a.per, b);
  }

  /** What the old manifest names lies below where the new run starts. */
  lemma BelowStart(m: Manifest, next: Manifest, per: nat, at: nat, cnt: nat, b: nat)
    requires Extends(m, next, per, at, cnt)
    ensures Written(m, per, b) ==> b < at
  {
    ProductOrder(at, b, per);
  }

  /** Where no orphans lie before the head, an append that commits keeps soundness, and no more is needed. */
  lemma CommitKeepsSound(img: Bytes, job: Job, j: nat, img': Bytes)
    requires Ready(img, job) && Commits(img, job, j, img') && Contiguous(job.m, job.head)
    ensures Sound(img', job.Next(), job.head + job.blocks) <==> Sound(img, job.m, job.head)
  {
    hide Usable, Commits, HeldSealed, SealedBelow, Extends, PayloadArea, RerankArea, Supported, RatioTimes, Updated;
    OrphansDecide(img, job, j, img');
    JobExtends(img, job);
    NoOrphansInArea(img, job.m, job.Next(), job.P(), job.head, job.blocks);
    NoOrphansInArea(img, job.m, job.Next(), job.R(), job.RerankAt(), job.RerankCount());
  }

  lemma RollbackKeepsSound(img: Bytes, job: Job, j: nat, img': Bytes, h: nat)
    requires Ready(img, job) && RollsBack(img, job, j, img') && Usable(img', job.m, h)
    ensures Sound(img', job.m, h) <==> Sound(img, job.m, job.head)
  {
    hide Usable, Written, SameBlock, PayloadArea, RerankArea, Supported, RatioTimes, HeldSealed, CrashState, Bounded,
      Forged, Mounted, Installed, TornInInstall, SlotBytes, Job.Ops, Job.DataOps, Job.Next;
    AppendIsAtomic(img, job, j, img');
    SameBlocksStaySealed(img, img', job.m, job.P());
    SameBlocksStaySealed(img, img', job.m, job.R());
  }

  // ---------------------------------------------------------------- whole lives

  /** A volume as an appender finds it: image, live manifest, append head. */
  datatype Volume = Volume(img: Bytes, m: Manifest, head: nat)

  ghost predicate UsableVolume(v: Volume) {
    Usable(v.img, v.m, v.head)
  }

  ghost predicate SoundVolume(v: Volume) {
    Sound(v.img, v.m, v.head)
  }

  ghost predicate NoOrphans(v: Volume) {
    Supported(v.m) && v.m.RangeOrdered() && Contiguous(v.m, v.head)
  }

  ghost predicate JobOn(v: Volume, job: Job) {
    Ready(v.img, job) && job.m == v.m && job.head == v.head
  }

  /** What a mount and the search for the head find. */
  ghost predicate Found(w: Volume) {
    && MANIFEST_RESERVED_BYTES <= |w.img| && Mounted(w.img) == Ok(w.m)
    && Supported(w.m) && Frontier(w.img, w.m, w.head)
  }

  /** `w` is found after an append on `v` that stopped after `j` operations, inside the next, or at its end. */
  ghost predicate Attempt(v: Volume, job: Job, j: nat, w: Volume) {
    JobOn(v, job) && CleanStop(v.img, job, j, w.img) && Found(w)
  }

  ghost predicate Step(v: Volume, w: Volume) {
    exists job: Job, j: nat :: Attempt(v, job, j, w)
  }

  /** Any run of appends, each stopped anywhere or completed. */
  ghost predicate Life(vs: seq<Volume>) {
    && |vs| > 0 && UsableVolume(vs[0])
    && forall i :: 0 <= i < |vs| - 1 ==> Step(vs[i], vs[i + 1])
  }

  /** What one step of a life keeps. */
  ghost predicate Continues(v: Volume, w: Volume)
    requires UsableVolume(v)
  {
    var p, r := PayloadArea(v.m), RerankArea(v.m);
    && |w.img| == |v.img|
    && w.m.table == v.m.table && w.m.builtN == v.m.builtN
    && Supported(w.m) && PayloadArea(w.m) == p && RerankArea(w.m) == r
    && v.m.sequence <= w.m.sequence && v.head <= w.head
    && (v.m.Appended() > 0 ==> w.m.appendedFrom == v.m.appendedFrom)
    && (forall id: nat | v.m.Holds(id) ::
          w.m.Holds(id) && ReadsTheSame(v.img, w.img, p, id) && ReadsTheSame(v.img, w.img, r, id))
  }

  /** Every stop that forges nothing is a step: what the mount finds has a head. */
  lemma StopIsStep(v: Volume, job: Job, j: nat, img': Bytes) returns (w: Volume)
    requires JobOn(v, job) && CleanStop(v.img, job, j, img')
    ensures w.img == img' && Attempt(v, job, j, w) && UsableVolume(w)
    ensures (w.m == v.m && v.head <= w.head <= v.head + job.blocks) || (w.m == job.Next() && w.head == v.head + job.blocks)
  {
    hide Ready, Usable, PayloadArea, RerankArea, RatioTimes, CleanStop, Updated;
    var h := StopIsUsable(v.img, job, j, img');
    w := Volume(img', Mounted(img').value, h);
    UsableFound(w);
  }

  lemma UsableFound(w: Volume)
    requires UsableVolume(w)
    ensures MANIFEST_RESERVED_BYTES <= |w.img| && Mounted(w.img) == Ok(w.m) ==> Found(w)
  {
    hide Laid, GapAligned, HeldInside, Mounted;
    LaidIsSupported(w.m, |w.img|);
  }

  lemma VolumeParts(v: Volume)
    requires UsableVolume(v)
    ensures Supported(v.m) && v.m.RangeOrdered() && Laid(v.m, |v.img|)
  {}

  /** The ids a new manifest holds: the old, the new, and those of orphans once something was appended. */
  lemma NextHolds(img: Bytes, job: Job, id: nat)
    requires Ready(img, job)
    ensures job.Next().Holds(id) <==>
            || job.m.Holds(id)
            || (job.m.Appended() > 0 && job.m.n <= id < job.head * job.P().per)
            || job.head * job.P().per <= id < (job.head + job.blocks) * job.P().per
  {
    hide Sound, Usable, PayloadArea, RerankArea, Ratio, Supported;
    NextRange(img, job);
    Distribute(job.head, job.blocks, job.P().per);
  }

  lemma UsedOrUnwritten(img: Bytes, a: Area, h: nat, k: nat, b: nat)
    requires UnwrittenFrom(img, a, h) && UsedBelow(img, a, k) && b < a.blocks
    ensures b < h || k <= b
  {
    hide IsErased, BlockAt, CrcAt;
    if b >= h {
      assert Unwritten(img, a, b);
    }
  }

  /** An image has one append head. */
  lemma HeadIsUnique(img: Bytes, m: Manifest, h: nat, k: nat)
    requires Supported(m) && Frontier(img, m, h) && Frontier(img, m, k)
    ensures h == k
  {
    hide PayloadArea, RerankArea, Ratio, RatioTimes, Supported, UsedBelow, UnwrittenFrom;
    var p := PayloadArea(m);
    if h < p.blocks {
      UsedOrUnwritten(img, p, h, k, h);
    }
    if k < p.blocks {
      UsedOrUnwritten(img, p, k, h, k);
    }
  }

  lemma UsableHead(img: Bytes, m: Manifest, h: nat, k: nat)
    requires Usable(img, m, h) && Supported(m) && Frontier(img, m, k)
    ensures h == k
  {
    hide Frontier, Laid, HeldInside, Installed, GapAligned, Supported;
    HeadIsUnique(img, m, h, k);
  }

  /** A step under the new manifest. */
  lemma CommittedStep(v: Volume, job: Job, j: nat, w: Volume)
    requires Attempt(v, job, j, w) && w.m == job.Next()
    ensures Commits(v.img, job, j, w.img) && w.head == job.head + job.blocks && UsableVolume(w) && NoOrphans(w)
  {
    hide Ready, Usable, PayloadArea, RerankArea, RatioTimes, Frontier, Mounted, StoppedAt, Forged, SlotBytes, Updated,
      Contiguous;
    CommitIsUsable(v.img, job, j, w.img);
    UsableHead(w.img, w.m, job.head + job.blocks, w.head);
    VolumeParts(w);
  }

  /** A step under the old one. */
  lemma RolledBackStep(v: Volume, job: Job, j: nat, w: Volume)
    requires Attempt(v, job, j, w) && w.m == v.m
    ensures RollsBack(v.img, job, j, w.img) && v.head <= w.head && UsableVolume(w)
  {
    hide Ready, Usable, PayloadArea, RerankArea, RatioTimes, Frontier, Mounted, StoppedAt, Forged, SlotBytes, Updated,
      Contiguous;
    var h := RollbackIsUsable(v.img, job, j, w.img);
    UsableHead(w.img, w.m, h, w.head);
  }

  lemma StepMounts(v: Volume, job: Job, j: nat, w: Volume)
    requires Attempt(v, job, j, w)
    ensures w.m == v.m || w.m == job.Next()
  {
    hide Usable, PayloadArea, RerankArea, Frontier, Mounted, CrashState, Bounded, Forged, SlotBytes, Updated, Written,
      SameBlock, Installed, TornInInstall, Supported;
    AppendIsAtomic(v.img, job, j, w.img);
  }

  /** One step: the volume stays usable and keeps every id it held, with its bytes and its seals. */
  lemma AttemptContinues(v: Volume, job: Job, j: nat, w: Volume)
    requires UsableVolume(v) && Attempt(v, job, j, w)
    ensures UsableVolume(w) && Continues(v, w)
    ensures w.m == v.m || (Commits(v.img, job, j, w.img) && w.m == job.Next() && w.head == job.head + job.blocks && NoOrphans(w))
  {
    hide Usable, PayloadArea, RerankArea, Supported, Ratio, RatioTimes, ReadsTheSame, Manifest.Holds, StoppedAt,
      Forged, SlotBytes, Frontier, Mounted, Commits, RollsBack, NoOrphans;
    StepMounts(v, job, j, w);
    NextSequence(job);
    if w.m == v.m {
      RolledBackStep(v, job, j, w);
    } else {
      CommittedStep(v, job, j, w);
      NextIsLaid(v.img, job);
    }
    VolumeParts(v);
    VolumeParts(w);
    forall id: nat | v.m.Holds(id)
      ensures w.m.Holds(id) && ReadsTheSame(v.img, w.img, PayloadArea(v.m), id) && ReadsTheSame(v.img, w.img, RerankArea(v.m), id)
    {
      NextHolds(v.img, job, id);
      HeldIdsReadTheSame(v.img, job, j, w.img, id);
    }
  }

  lemma StepContinues(v: Volume, w: Volume)
    requires UsableVolume(v) && Step(v, w)
    ensures UsableVolume(w) && Continues(v, w)
  {
    hide UsableVolume, Continues, Attempt, Commits, NoOrphans, Job.Next;
    var job: Job, j: nat :| Attempt(v, job, j, w);
    AttemptContinues(v, job, j, w);
  }

  lemma ContinuesThrough(u: Volume, v: Volume, w: Volume)
    requires UsableVolume(u) && UsableVolume(v) && Continues(u, v) && Continues(v, w)
    ensures Continues(u, w)
  {
    hide Usable, PayloadArea, RerankArea, Supported, Manifest.Holds, Sealed, RecordAt;
    VolumeParts(u);
    VolumeParts(v);
    if u.m.Appended() > 0 {
      StaysAppended(u, v);
    }
  }

  lemma StaysAppended(u: Volume, v: Volume)
    requires UsableVolume(u) && UsableVolume(v) && Continues(u, v) && u.m.Appended() > 0
    ensures v.m.Appended() > 0
  {
    hide Usable, PayloadArea, RerankArea, Supported, ReadsTheSame;
    VolumeParts(u);
    VolumeParts(v);
    assert u.m.Holds(u.m.n - 1);
  }

  lemma ReadsItself(img: Bytes, m: Manifest, a: Area, id: nat)
    requires a.per > 0 && a.per * a.width == BLOCK_BYTES && m.RangeOrdered() && HeldInside(m, a, |img|) && m.Holds(id)
    ensures ReadsTheSame(img, img, a, id)
  {
    hide Written, Sealed, BlockAt, CrcAt, RecordAt;
    HeldBlockIsWritten(m, a.per, id);
  }

  lemma ContinuesItself(v: Volume)
    requires UsableVolume(v)
    ensures Continues(v, v)
  {
    hide Usable, PayloadArea, RerankArea, Supported, ReadsTheSame, Manifest.Holds, HeldInside;
    VolumeParts(v);
    UsableParts(v.img, v.m, v.head);
    WholeRatio(v.m);
    forall id: nat | v.m.Holds(id)
      ensures ReadsTheSame(v.img, v.img, PayloadArea(v.m), id) && ReadsTheSame(v.img, v.img, RerankArea(v.m), id)
    {
      ReadsItself(v.img, v.m, PayloadArea(v.m), id);
      ReadsItself(v.img, v.m, RerankArea(v.m), id);
    }
  }

  /**
   Safety over whole lives. At every point of any run of appends, each stopped anywhere or
   completed, the volume is usable; and between any two points, whatever was held at the
   earlier is held at the later, with the same code and record bytes, in blocks whose CRCs
   agree exactly if they did then.
   */
  lemma {:induction false} LifeIsSafe(vs: seq<Volume>, i: nat, j: nat)
    requires Life(vs) && i <= j < |vs|
    ensures UsableVolume(vs[i]) && UsableVolume(vs[j]) && Continues(vs[i], vs[j])
    decreases j
  {
    hide UsableVolume, Continues, Step;
    if j == 0 {
      ContinuesItself(vs[0]);
    } else {
      LifeIsSafe(vs, if i < j then i else j - 1, j - 1);
      assert Step(vs[j - 1], vs[j - 1 + 1]);
      StepContinues(vs[j - 1], vs[j]);
      if i < j {
        ContinuesThrough(vs[i], vs[j - 1], vs[j]);
      } else {
        ContinuesItself(vs[j]);
      }
    }
  }

  /** Soundness across one step, in both directions, when the step commits over no orphans or not at all. */
  lemma StepKeepsSound(v: Volume, w: Volume)
    requires UsableVolume(v) && Step(v, w) && (w.m == v.m || NoOrphans(v))
    ensures SoundVolume(w) <==> SoundVolume(v)
  {
    hide Usable, Sound, Continues, Commits, RollsBack, Job.Next, PayloadArea, Supported, StoppedAt, Forged, SlotBytes,
      Frontier, Mounted, Ready;
    var job: Job, j: nat :| Attempt(v, job, j, w);
    AttemptContinues(v, job, j, w);
    if w.m == v.m {
      RolledBackStep(v, job, j, w);
      RollbackKeepsSound(v.img, job, j, w.img, w.head);
    } else {
      CommitKeepsSound(v.img, job, j, w.img);
    }
  }

  /**
   A life that starts sound, and commits only over no orphans, is sound throughout: every
   block of a held id carries its CRC. Stops may leave orphans as they like.
   */
  lemma {:induction false} LifeStaysSound(vs: seq<Volume>, j: nat)
    requires Life(vs) && j < |vs| && SoundVolume(vs[0])
    requires forall i :: 0 <= i < |vs| - 1 ==> vs[i + 1].m == vs[i].m || NoOrphans(vs[i])
    ensures SoundVolume(vs[j])
  {
    hide UsableVolume, SoundVolume, Continues, Step, NoOrphans;
    if j > 0 {
      LifeStaysSound(vs, j - 1);
      LifeIsSafe(vs, j - 1, j - 1);
      assert Step(vs[j - 1], vs[j - 1 + 1]) && (vs[j - 1 + 1].m == vs[j - 1].m || NoOrphans(vs[j - 1]));
      StepKeepsSound(vs[j - 1], vs[j]);
    }
  }

  /** A life in which every append commits, begun with no orphans. */
  ghost predicate Run(vs: seq<Volume>) {
    && Life(vs) && NoOrphans(vs[0])
    && forall i :: 0 <= i < |vs| - 1 ==> vs[i + 1].m != vs[i].m
  }

  /** What a committed step does to the manifest's fields. */
  lemma CommitMovesFields(v: Volume, w: Volume)
    requires UsableVolume(v) && Step(v, w) && w.m != v.m
    ensures UsableVolume(w) && NoOrphans(w) && w.m.sequence == v.m.sequence + 1
    ensures Supported(v.m) && v.m.RangeOrdered() && w.m.RangeOrdered() && PayloadArea(w.m) == PayloadArea(v.m)
    ensures w.m.builtN == v.m.builtN && w.m.Appended() > 0
    ensures w.m.appendedFrom == if v.m.Appended() == 0 then v.head * PayloadArea(v.m).per else v.m.appendedFrom
    ensures w.m.n == w.head * PayloadArea(v.m).per && v.m.n <= v.head * PayloadArea(v.m).per < w.m.n
  {
    hide Usable, PayloadArea, RerankArea, Supported, Ratio, RatioTimes, StoppedAt, Forged, SlotBytes, Frontier,
      Mounted, Commits, NoOrphans, Continues;
    var job: Job, j: nat :| Attempt(v, job, j, w);
    AttemptContinues(v, job, j, w);
    VolumeParts(v);
    NextRange(v.img, job);
    NextIsLaid(v.img, job);
  }

  /**
   Over committed appends: the sequence counts them, the gap is fixed by the first, each later
   append starts exactly where the previous ended, and the id range stays ordered.
   */
  lemma {:induction false} RunGrows(vs: seq<Volume>, j: nat)
    requires Run(vs) && j < |vs|
    ensures UsableVolume(vs[j]) && NoOrphans(vs[j]) && vs[j].m.RangeOrdered()
    ensures vs[j].m.sequence == vs[0].m.sequence + j
    ensures NextSlotOffset(vs[j].m.sequence) != SlotOf(vs[j].m.sequence)
    ensures vs[j].m.builtN == vs[0].m.builtN && Supported(vs[0].m) && PayloadArea(vs[j].m) == PayloadArea(vs[0].m)
    ensures j > 0 ==> vs[j].m.appendedFrom ==
                      (if vs[0].m.Appended() == 0 then vs[0].head * PayloadArea(vs[0].m).per else vs[0].m.appendedFrom)
    ensures j > 0 ==> vs[j].m.Appended() > 0 && vs[j].head * PayloadArea(vs[0].m).per == vs[j].m.n
  {
    hide UsableVolume, Step, PayloadArea, RerankArea, Supported;
    InstallSparesLive(vs[j].m.sequence);
    VolumeParts(vs[0]);
    if j > 0 {
      RunGrows(vs, j - 1);
      assert Step(vs[j - 1], vs[j - 1 + 1]) && vs[j - 1 + 1].m != vs[j - 1].m;
      CommitMovesFields(vs[j - 1], vs[j]);
    }
  }
}
