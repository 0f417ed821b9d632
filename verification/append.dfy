/** Appending a batch to a built volume: the plan, the operations, the manifest they install. */
module Append {
  import opened Options
  import opened Flash
  import opened Codec
  import opened Region
  import opened Manifests
  import opened Arith
  import opened Layouts
  import opened Volumes
  import opened BlockAppend
  import Crc

  datatype AppendError =
    | NotMounted(error: ManifestError)
    | NotAligned(count: nat, unit: nat)
    | Full(payloadSlots: nat, rerankSlots: nat)
    | Engine

  // ---------------------------------------------------------------- capacity

  /** Erased data blocks of `a` from `b` on. */
  function ErasedFrom(img: Bytes, a: Area, b: nat): nat
    requires a.base + BLOCK_BYTES * a.blocks <= |img| && a.crc + CRC_BYTES * a.blocks <= |img|
    decreases a.blocks - b
  {
    if b >= a.blocks then 0
    else (if IsErased(BlockAt(img, a, b)) then 1 else 0) + ErasedFrom(img, a, b + 1)
  }

  /** Slots `capacity` reports for a region: whole erased blocks past the addressable extent. */
  function ErasedSlots(img: Bytes, a: Area, n: nat): nat
    requires a.per > 0 && a.base + BLOCK_BYTES * a.blocks <= |img| && a.crc + CRC_BYTES * a.blocks <= |img|
  {
    ErasedFrom(img, a, CeilDiv(n, a.per)) * a.per
  }

  method CountErasedSlots(flash: WritableVolume, a: Area, n: nat) returns (slots: nat)
    requires a.per > 0
    requires a.base + BLOCK_BYTES * a.blocks <= |flash.image| && a.crc + CRC_BYTES * a.blocks <= |flash.image|
    ensures slots == ErasedSlots(flash.image, a, n)
  {
    hide IsErased, Slice, CeilDiv;
    slots := 0;
    var b := CeilDiv(n, a.per);
    ghost var counted := 0;
    while b < a.blocks
      invariant slots == counted * a.per
      invariant ErasedSlots(flash.image, a, n) == (counted + ErasedFrom(flash.image, a, b)) * a.per
    {
      var read := flash.Read(BlockAddr(a, b), BLOCK_BYTES);
      if IsErased(read.value) {
        Distribute(counted, 1, a.per);
        counted := counted + 1;
        slots := slots + a.per;
      }
      b := b + 1;
    }
  }

  // ---------------------------------------------------------------- the plan

  /** The head an append will write at, or why it is refused before anything is written. */
  function PlanFor(img: Bytes, m: Manifest, count: nat): Result<nat, AppendError>
    requires Laid(m, |img|)
  {
    AreasWithin(m, |img|);
    var p, r := PayloadArea(m), RerankArea(m);
    var unit := Unit(p.per, r.per);
    UnitIsPayloadBlock(m, count);
    if count == 0 || count % unit != 0 then Err(NotAligned(count, unit))
    else
      var sp, sr := ErasedSlots(img, p, m.n), ErasedSlots(img, r, m.n);
      if sp < count || sr < count then Err(Full(sp, sr))
      else
        match HeadFrom(img, p.base, p.blocks, BLOCK_BYTES, 0)
        case Err(_) => Err(Engine)
        case Ok(None) => Err(Full(sp, sr))
        case Ok(Some(h)) =>
          var hr := RerankHead(m, h);
          if hr >= r.blocks then Err(Full(sp, sr))
          else if !IsErased(BlockAt(img, r, hr)) then Err(Engine)
          else Ok(h)
  }

  /** The id fixes the rerank block. */
  function RerankHead(m: Manifest, h: nat): nat
    requires Supported(m)
  {
    NonNegativeProduct(h, PayloadArea(m).per);
    Quotient(h * PayloadArea(m).per, RerankArea(m).per)
  }

  lemma RerankHeadIs(m: Manifest, h: nat)
    requires Supported(m)
    ensures RerankHead(m, h) == h * Ratio(m)
  {
    WholeRatio(m);
    Regroup(h, Ratio(m), RerankArea(m).per);
    QuotientIs(h * PayloadArea(m).per, RerankArea(m).per, h * Ratio(m));
  }

  /** The manifest an append at head `h` installs. */
  function Updated(m: Manifest, h: nat, count: nat): (next: Manifest)
    requires Supported(m) && m.RangeOrdered()
    ensures next.table == m.table && next.builtN == m.builtN && next.sequence == m.sequence + 1
  {
    var first := h * PayloadArea(m).per;
    m.(sequence := m.sequence + 1,
       n := first + count,
       appendedFrom := if m.Appended() == 0 then first else m.appendedFrom)
  }

  /** One append: `blocks` payload blocks of codes, and the rerank blocks of the same ids. */
  datatype Job = Job(m: Manifest, head: nat, blocks: nat, codes: Bytes, records: Bytes) {
    predicate Valid() {
      && Supported(m) && m.RangeOrdered() && |m.table| == REGION_COUNT
      && |codes| == BLOCK_BYTES * blocks && |records| == BLOCK_BYTES * RatioTimes(m, blocks)
    }

    function P(): Area
      requires Valid()
    {
      PayloadArea(m)
    }

    function R(): Area
      requires Valid()
    {
      RerankArea(m)
    }

    function K(): nat
      requires Valid()
    {
      Ratio(m)
    }

    /** The rerank block of the job's first id, and how many it fills. */
    function RerankAt(): nat
      requires Valid()
    {
      RatioTimes(m, head)
    }

    function RerankCount(): nat
      requires Valid()
    {
      RatioTimes(m, blocks)
    }

    function Next(): Manifest
      requires Valid()
    {
      Updated(m, head, blocks * P().per)
    }

    function PayloadOps(): (ops: seq<Op>)
      requires Valid()
      ensures |ops| == 2 * blocks
    {
      BlockOps(P(), head, codes, blocks)
    }

    function RerankOps(): (ops: seq<Op>)
      requires Valid()
      ensures |ops| == 2 * RerankCount()
    {
      BlockOps(R(), RerankAt(), records, RerankCount())
    }

    function Spare(): nat
      requires Valid()
    {
      NextSlotOffset(m.sequence)
    }

    function InstallOps(): (ops: seq<Op>)
      requires Valid()
      ensures |ops| == 2
    {
      [Erase(Spare()), Program(Spare(), Encoded(Next()))]
    }

    function DataOps(): seq<Op>
      requires Valid()
    {
      PayloadOps() + RerankOps()
    }

    /** Payload, then rerank, then the manifest. */
    function Ops(): seq<Op>
      requires Valid()
    {
      DataOps() + InstallOps()
    }

    /** Both regions have the blocks the batch needs. */
    predicate Room()
      requires Valid()
    {
      head + blocks <= P().blocks && RerankAt() + RerankCount() <= R().blocks
    }
  }

  // ---------------------------------------------------------------- the method

  datatype Report = Report(firstId: nat, count: nat, gap: (nat, nat), n: nat,
                           payloadBlocks: nat, rerankBlocks: nat, driftAppended: nat)

  lemma RanWithin(img: Bytes, ops: seq<Op>, done: nat, img': Bytes)
    requires Ran(img, ops, done, img')
    ensures done <= |ops| && |img'| == |img|
  {
    hide Legal, Apply;
  }

  /** The append loops: one `append_block` per block, stopping at the first refusal. */
  method WriteBlocks(flash: WritableVolume, a: Area, at: nat, data: Bytes, k: nat)
    returns (r: Result<(), EngineError>, ghost done: nat)
    requires |data| == BLOCK_BYTES * k
    modifies flash
    ensures var ops := BlockOps(a, at, data, k);
            && Ran(old(flash.image), ops, done, flash.image) && flash.log == old(flash.log) + ops[..done]
            && (r.Ok? <==> done == |ops|)
  {
    hide Ran, Chunk, CrcBytes, Crc.Crc32;
    ghost var was, log := flash.image, flash.log;
    ghost var ops := BlockOps(a, at, data, k);
    RanNothing(was);
    assert ops[..0] == [];
    var i := 0;
    while i < k
      invariant 0 <= i <= k
      invariant Ran(was, ops[..2 * i], 2 * i, flash.image)
      invariant flash.log == log + ops[..2 * i]
    {
      ghost var mid := flash.image;
      ghost var two := [DataOp(a, at + i, Chunk(data, i)), CrcOp(a, at + i, Chunk(data, i))];
      NextTwo(a, at, data, k, i);
      var step, d := AppendBlock(flash, a, at + i, BLOCK_BYTES, Chunk(data, i));
      RanWithin(mid, two, d, flash.image);
      RanThen(was, ops[..2 * i], mid, two, d, flash.image);
      assert log + ops[..2 * i] + two[..d] == log + ops[..2 * i + d] by {
        assert (ops[..2 * i] + two)[..2 * i + d] == ops[..2 * i] + two[..d];
      }
      if step.Err? {
        RanShort(was, ops[..2 * i + 2], ops[2 * i + 2..], 2 * i + d, flash.image);
        assert ops[..2 * i + 2] + ops[2 * i + 2..] == ops;
        return Err(step.error), 2 * i + d;
      }
      i := i + 1;
    }
    assert ops[..2 * k] == ops;
    return Ok(()), 2 * k;
  }

  lemma NextTwo(a: Area, at: nat, data: Bytes, k: nat, i: nat)
    requires |data| == BLOCK_BYTES * k && i < k
    ensures BlockOps(a, at, data, k)[..2 * i + 2]
         == BlockOps(a, at, data, k)[..2 * i] + [DataOp(a, at + i, Chunk(data, i)), CrcOp(a, at + i, Chunk(data, i))]
  {
    hide Chunk, DataOp, CrcOp;
    var ops := BlockOps(a, at, data, k);
    assert ops[2 * i] == BlockOp(a, at, data, 2 * i) == DataOp(a, at + i, Chunk(data, i));
    assert ops[2 * i + 1] == BlockOp(a, at, data, 2 * i + 1) == CrcOp(a, at + i, Chunk(data, i));
  }

  method EncodeSlot(m: Manifest) returns (bytes: Bytes)
    requires |m.table| == REGION_COUNT
    ensures bytes == Encoded(m)
  {
    hide Encoded, Write;
    var slot := new bv8[MANIFEST_BYTES];
    var encoded := Encode(m, slot);
    WholeWrite(slot[..], Encoded(m));
    bytes := slot[..];
  }

  /** Erase the spare slot, then program it. */
  method Install(flash: WritableVolume, job: Job) returns (ok: bool, ghost done: nat)
    requires job.Valid() && MANIFEST_RESERVED_BYTES <= |flash.image|
    modifies flash
    ensures Ran(old(flash.image), job.InstallOps(), done, flash.image)
    ensures flash.log == old(flash.log) + job.InstallOps()[..done]
    ensures ok <==> done == 2
  {
    hide Legal, Apply, Encoded, Supported, Updated;
    ghost var was := flash.image;
    var bytes := EncodeSlot(job.Next());
    var first := flash.Erase(job.Spare());
    if first.Err? {
      return false, 0;
    }
    ghost var mid := flash.image;
    OneStep(was, Erase(job.Spare()), mid);
    assert job.InstallOps()[..1] == [Erase(job.Spare())];
    var second := flash.Program(job.Spare(), bytes);
    if second.Err? {
      return false, 1;
    }
    TwoSteps(was, Erase(job.Spare()), mid, Program(job.Spare(), bytes), flash.image);
    assert job.InstallOps()[..2] == job.InstallOps();
    return true, 2;
  }

  lemma WholeWrite(out: Bytes, data: Bytes)
    requires |out| == |data|
    ensures forall was: Bytes :: |was| == |data| && out == Write(was, 0, data) ==> out == data
  {}

  /** The mount an append starts from. */
  method Mount(flash: WritableVolume) returns (r: Result<Manifest, ManifestError>)
    requires MANIFEST_RESERVED_BYTES <= |flash.image|
    ensures r == Mounted(flash.image)
  {
    hide Decode;
    var a := flash.Read(SLOT_A, MANIFEST_BYTES);
    var b := flash.Read(SLOT_B, MANIFEST_BYTES);
    r := Select(a.value, b.value);
  }

  method Plan(flash: WritableVolume, m: Manifest, count: nat) returns (r: Result<nat, AppendError>)
    requires Laid(m, |flash.image|)
    ensures r == PlanFor(flash.image, m, count)
  {
    hide Laid, ErasedSlots, HeadFrom, IsErased, Slice, Unit, Supported, PayloadArea, RerankArea;
    LaidIsSupported(m, |flash.image|);
    AreasWithin(m, |flash.image|);
    UnitIsPayloadBlock(m, count);
    var p, q := PayloadArea(m), RerankArea(m);
    var unit := AppendUnit(p.per, q.per);
    if count == 0 || count % unit != 0 {
      return Err(NotAligned(count, unit));
    }
    var sp := CountErasedSlots(flash, p, m.n);
    var sr := CountErasedSlots(flash, q, m.n);
    if sp < count || sr < count {
      return Err(Full(sp, sr));
    }
    var head := FindHead(flash, p.base, p.blocks, BLOCK_BYTES, BLOCK_BYTES);
    if head.Err? {
      return Err(Engine);
    }
    if head.value.None? {
      return Err(Full(sp, sr));
    }
    var h := head.value.value;
    var hr := RerankHead(m, h);
    if hr >= q.blocks {
      return Err(Full(sp, sr));
    }
    var check := flash.Read(BlockAddr(q, hr), BLOCK_BYTES);
    if !IsErased(check.value) {
      return Err(Engine);
    }
    return Ok(h);
  }

  /** The batch of a planned append. */
  function JobFor(m: Manifest, h: nat, count: nat, codes: Bytes, records: Bytes): Job
    requires Supported(m)
  {
    Job(m, h, Quotient(count, PayloadArea(m).per), codes, records)
  }

  lemma JobIsValid(m: Manifest, h: nat, count: nat, codes: Bytes, records: Bytes)
    requires Supported(m) && m.RangeOrdered() && |m.table| == REGION_COUNT
    requires count % PayloadArea(m).per == 0
    requires |codes| == count * PayloadBytes(m) && |records| == count * RerankBytes(m)
    ensures var job := JobFor(m, h, count, codes, records);
            && job.Valid()
            && count == job.blocks * PayloadArea(m).per
            && count / RerankArea(m).per == job.blocks * Ratio(m)
  {
    hide Ratio, PayloadArea, RerankArea, Supported;
    WholeRatio(m);
    WidthsOf(m);
    var p, r := PayloadArea(m), RerankArea(m);
    DivMod(count, p.per);
    WholeBlocks(count / p.per, p.per, p.width);
    Regroup(count / p.per, Ratio(m), r.per);
    WholeBlocks((count / p.per) * Ratio(m), r.per, r.width);
  }

  lemma WidthsOf(m: Manifest)
    requires Supported(m)
    ensures PayloadArea(m).width == PayloadBytes(m) && RerankArea(m).width == RerankBytes(m)
  {}

  /** `blocks` blocks of full records: their ids and their bytes. */
  lemma WholeBlocks(blocks: nat, per: nat, width: nat)
    requires per > 0 && per * width == BLOCK_BYTES
    ensures (blocks * per) * width == BLOCK_BYTES * blocks && (blocks * per) / per == blocks
  {
    assert (blocks * per) * width == blocks * (per * width);
    QuotientIs(blocks * per, per, blocks);
  }

  /** What an append that was not refused did: `done` of the job's operations; a report if all. */
  ghost predicate Carried(was: Bytes, log: seq<Op>, job: Job, count: nat, r: Result<Report, AppendError>,
                          done: nat, now: Bytes, nowLog: seq<Op>)
    requires job.Valid()
  {
    && Ran(was, job.Ops(), done, now)
    && nowLog == log + job.Ops()[..done]
    && r == if done < |job.Ops()| then Err(Engine) else Ok(ReportOf(job, count))
  }

  function ReportOf(job: Job, count: nat): Report
    requires job.Valid()
  {
    Report(job.head * job.P().per, count, job.Next().Gap(), job.Next().n,
           job.blocks, job.RerankCount(), job.m.Appended() + count)
  }

  /** The whole outcome, from the state before to the state after. */
  ghost predicate Outcome(was: Bytes, log: seq<Op>, codes: Bytes, records: Bytes, count: nat,
                          r: Result<Report, AppendError>, done: nat, now: Bytes, nowLog: seq<Op>)
    requires MANIFEST_RESERVED_BYTES <= |was|
    requires Mounted(was).Ok? ==> Laid(Mounted(was).value, |was|)
  {
    match Mounted(was)
    case Err(e) => r == Err(NotMounted(e)) && now == was && nowLog == log
    case Ok(m) =>
      match PlanFor(was, m, count)
      case Err(e) => r == Err(e) && now == was && nowLog == log
      case Ok(h) =>
        var job := JobFor(m, h, count, codes, records);
        && job.Valid() && count == job.blocks * job.P().per
        && Carried(was, log, job, count, r, done, now, nowLog)
  }

  /**
   `append`: refused as planned with nothing written, or its operations in order up to the
   first the flash refuses.
   */
  method Append(flash: WritableVolume, codes: Bytes, records: Bytes, count: nat)
    returns (r: Result<Report, AppendError>, ghost done: nat)
    requires MANIFEST_RESERVED_BYTES <= |flash.image|
    requires var mounted := Mounted(flash.image);
             mounted.Ok? ==> (
               && Laid(mounted.value, |flash.image|)
               && |codes| == count * PayloadBytes(mounted.value) && |records| == count * RerankBytes(mounted.value))
    modifies flash
    ensures Outcome(old(flash.image), old(flash.log), codes, records, count, r, done, flash.image, flash.log)
  {
    hide Laid, Supported, PlanFor, Ran, Encoded, PayloadArea, RerankArea, Ratio, Mounted, ReportOf, Job.Ops,
      Job.Valid;
    var mounted := Mount(flash);
    if mounted.Err? {
      return Err(NotMounted(mounted.error)), 0;
    }
    var m := mounted.value;
    LaidIsSupported(m, |flash.image|);
    var plan := Plan(flash, m, count);
    if plan.Err? {
      return Err(plan.error), 0;
    }
    var h := plan.value;
    PlannedCount(flash.image, m, count);
    JobIsValid(m, h, count, codes, records);
    var job := JobFor(m, h, count, codes, records);
    ghost var was := flash.image;
    var ok;
    ok, done := RunJob(flash, job);
    RanWithin(was, job.Ops(), done, flash.image);
    if !ok {
      return Err(Engine), done;
    }
    return Ok(ReportOf(job, count)), done;
  }

  lemma PlannedCount(img: Bytes, m: Manifest, count: nat)
    requires Laid(m, |img|) && PlanFor(img, m, count).Ok?
    ensures count > 0 && count % PayloadArea(m).per == 0
  {
    hide Laid, ErasedSlots, HeadFrom, IsErased, Slice, Unit, PayloadArea, RerankArea, Supported;
    LaidIsSupported(m, |img|);
    UnitIsPayloadBlock(m, count);
  }

  /** Payload blocks, rerank blocks, then the manifest. */
  method RunJob(flash: WritableVolume, job: Job) returns (ok: bool, ghost done: nat)
    requires job.Valid() && MANIFEST_RESERVED_BYTES <= |flash.image|
    modifies flash
    ensures Ran(old(flash.image), job.Ops(), done, flash.image)
    ensures flash.log == old(flash.log) + job.Ops()[..done]
    ensures ok <==> done == |job.Ops()|
  {
    hide Ran, BlockOps, Encoded, PayloadArea, RerankArea, Ratio, Supported, AllLegal, Updated;
    ghost var was, log := flash.image, flash.log;
    ghost var a, b, c := job.PayloadOps(), job.RerankOps(), job.InstallOps();
    assert job.Ops() == a + b + c;
    var r1, d1 := WriteBlocks(flash, job.P(), job.head, job.codes, job.blocks);
    RanWithin(was, a, d1, flash.image);
    if r1.Err? {
      RanShort(was, a, b + c, d1, flash.image);
      assert a + (b + c) == a + b + c;
      assert (a + b + c)[..d1] == a[..d1];
      return false, d1;
    }
    assert a[..d1] == a;
    ghost var mid := flash.image;
    var r2, d2 := WriteBlocks(flash, job.R(), job.RerankAt(), job.records, job.RerankCount());
    RanWithin(mid, b, d2, flash.image);
    RanThen(was, a, mid, b, d2, flash.image);
    assert log + a + b[..d2] == log + (a + b)[..|a| + d2];
    if r2.Err? {
      RanShort(was, a + b, c, |a| + d2, flash.image);
      assert (a + b + c)[..|a| + d2] == (a + b)[..|a| + d2];
      return false, |a| + d2;
    }
    assert (a + b)[..|a| + d2] == a + b;
    ghost var mid2 := flash.image;
    var r3, d3 := Install(flash, job);
    RanWithin(mid2, c, d3, flash.image);
    RanThen(was, a + b, mid2, c, d3, flash.image);
    assert log + (a + b) + c[..d3] == log + (a + b + c)[..|a + b| + d3];
    return r3, |a + b| + d3;
  }
}
