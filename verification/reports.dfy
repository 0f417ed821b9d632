/**
 What the report of an append tells its caller, held against the volume it leaves and the
 operations it logged.

 The ids it names are held and read back as the batch's codes and records; the gap is the ids
 below the end that are not held; the block counts are the data programs made. The total of
 appended vectors is right exactly when no orphans lay before the head: ids that an earlier
 append left and this one claims are held too, and are not counted.
 */
module Reports {
  import opened Options
  import opened Flash
  import opened Codec
  import opened Region
  import opened Manifests
  import opened Arith
  import opened Layouts
  import opened Volumes
  import opened BlockAppend
  import opened Append
  import opened Crash
  import opened Atomicity
  import opened Lifecycle
  import opened Runs
  import opened Room

  // ---------------------------------------------------------------- counting data programs

  /** Programs a whole block inside the area. */
  predicate ProgramsBlockOf(op: Op, a: Area) {
    op.Program? && |op.data| == BLOCK_BYTES && a.base <= op.addr < a.base + BLOCK_BYTES * a.blocks
  }

  function DataPrograms(ops: seq<Op>, a: Area): nat {
    if ops == [] then 0
    else DataPrograms(ops[..|ops| - 1], a) + if ProgramsBlockOf(ops[|ops| - 1], a) then 1 else 0
  }

  lemma {:induction false} ProgramsConcat(x: seq<Op>, y: seq<Op>, a: Area)
    ensures DataPrograms(x + y, a) == DataPrograms(x, a) + DataPrograms(y, a)
    decreases |y|
  {
    hide ProgramsBlockOf;
    if y == [] {
      assert x + y == x;
    } else {
      var k := |y| - 1;
      assert (x + y)[..|x + y| - 1] == x + y[..k];
      ProgramsConcat(x, y[..k], a);
    }
  }

  /** A run's blocks are in its own area, its CRC words are not whole blocks. */
  lemma RunProgram(a: Area, at: nat, data: Bytes, k: nat, i: nat)
    requires |data| == BLOCK_BYTES * k && i < 2 * k && at + k <= a.blocks
    ensures ProgramsBlockOf(BlockOps(a, at, data, k)[i], a) <==> i % 2 == 0
  {
    hide Chunk;
    assert BlockOps(a, at, data, k)[i] == BlockOp(a, at, data, i);
  }

  lemma {:induction false} RunPrograms(a: Area, at: nat, data: Bytes, k: nat, i: nat)
    requires |data| == BLOCK_BYTES * k && i <= 2 * k && at + k <= a.blocks
    ensures DataPrograms(BlockOps(a, at, data, k)[..i], a) == (i + 1) / 2
    decreases i
  {
    hide BlockOps, ProgramsBlockOf;
    if i > 0 {
      var ops := BlockOps(a, at, data, k);
      assert ops[..i][..i - 1] == ops[..i - 1] && ops[..i][i - 1] == ops[i - 1];
      RunPrograms(a, at, data, k, i - 1);
      RunProgram(a, at, data, k, i - 1);
    }
  }

  /** A run in one area programs no block of another. */
  lemma OtherProgram(a: Area, at: nat, data: Bytes, k: nat, other: Area, i: nat)
    requires |data| == BLOCK_BYTES * k && i < 2 * k && at + k <= a.blocks
    requires Apart(a.base, BLOCK_BYTES * a.blocks, other.base, BLOCK_BYTES * other.blocks)
    ensures !ProgramsBlockOf(BlockOps(a, at, data, k)[i], other)
  {
    hide Chunk;
    assert BlockOps(a, at, data, k)[i] == BlockOp(a, at, data, i);
  }

  lemma {:induction false} NoPrograms(ops: seq<Op>, a: Area)
    requires forall i :: 0 <= i < |ops| ==> !ProgramsBlockOf(ops[i], a)
    ensures DataPrograms(ops, a) == 0
  {
    hide ProgramsBlockOf;
    if ops != [] {
      NoPrograms(ops[..|ops| - 1], a);
    }
  }

  lemma RunProgramsElsewhere(a: Area, at: nat, data: Bytes, k: nat, other: Area)
    requires |data| == BLOCK_BYTES * k && at + k <= a.blocks
    requires Apart(a.base, BLOCK_BYTES * a.blocks, other.base, BLOCK_BYTES * other.blocks)
    ensures DataPrograms(BlockOps(a, at, data, k), other) == 0
  {
    hide BlockOps, ProgramsBlockOf;
    forall i | 0 <= i < 2 * k
      ensures !ProgramsBlockOf(BlockOps(a, at, data, k)[i], other)
    {
      OtherProgram(a, at, data, k, other, i);
    }
    NoPrograms(BlockOps(a, at, data, k), other);
  }

  lemma InstallPrograms(job: Job, a: Area)
    requires job.Valid()
    ensures DataPrograms(job.InstallOps(), a) == 0
  {
    hide Encoded, Updated, Supported, PayloadArea, RerankArea;
    NoPrograms(job.InstallOps(), a);
  }

  lemma AreasDisjoint(job: Job, size: nat)
    requires job.Valid() && Sited(job, size)
    ensures var p, r := job.P(), job.R();
            && Apart(p.base, BLOCK_BYTES * p.blocks, r.base, BLOCK_BYTES * r.blocks)
            && Apart(r.base, BLOCK_BYTES * r.blocks, p.base, BLOCK_BYTES * p.blocks)
  {
    hide Supported, PayloadArea, RerankArea, RatioTimes;
  }

  /** A job makes as many data programs in each area as it writes blocks there. */
  lemma JobPrograms(img: Bytes, job: Job)
    requires Ready(img, job)
    ensures DataPrograms(job.Ops(), job.P()) == job.blocks && DataPrograms(job.Ops(), job.R()) == job.RerankCount()
  {
    hide Usable, Supported, PayloadArea, RerankArea, RatioTimes, BlockOps, DataPrograms, IsErased, Chunk, Job.InstallOps;
    ReadyIsSited(img, job);
    AreasDisjoint(job, |img|);
    var p, r := job.P(), job.R();
    var x, y := job.PayloadOps(), job.RerankOps();
    RunPrograms(p, job.head, job.codes, job.blocks, 2 * job.blocks);
    RunPrograms(r, job.RerankAt(), job.records, job.RerankCount(), 2 * job.RerankCount());
    assert x[..2 * job.blocks] == x && y[..2 * job.RerankCount()] == y;
    RunProgramsElsewhere(p, job.head, job.codes, job.blocks, r);
    RunProgramsElsewhere(r, job.RerankAt(), job.records, job.RerankCount(), p);
    InstallPrograms(job, p);
    InstallPrograms(job, r);
    ProgramsConcat(x, y, p);
    ProgramsConcat(x, y, r);
    ProgramsConcat(x + y, job.InstallOps(), p);
    ProgramsConcat(x + y, job.InstallOps(), r);
  }

  // ---------------------------------------------------------------- the report

  /** Ids below `m.n` from `from` on that `m` holds. */
  function HeldFrom(m: Manifest, from: nat): set<nat> {
    set id: nat | id < m.n && from <= id && m.Holds(id)
  }

  /** Vector `i` of the batch is held at the `i`th id from the first, its code and its record in sealed blocks. */
  predicate IdTold(firstId: nat, codes: Bytes, records: Bytes, m: Manifest, now: Bytes, i: nat)
    requires Supported(m)
  {
    && m.Holds(firstId + i)
    && Holding(now, PayloadArea(m), firstId + i, codes, i)
    && Holding(now, RerankArea(m), firstId + i, records, i)
  }

  /** The gap is what is not held below the end. */
  predicate GapTold(gap: (nat, nat), m: Manifest) {
    forall id: nat | id < m.n :: m.Holds(id) <==> !(gap.0 <= id < gap.1)
  }

  /** What the caller can rely on, in terms of the volume after and of the operations made. */
  ghost predicate Tells(rep: Report, codes: Bytes, records: Bytes, count: nat, m: Manifest, now: Bytes, made: seq<Op>) {
    && Supported(m) && rep.count == count && rep.n == m.n == rep.firstId + count
    && (forall i: nat | i < count :: IdTold(rep.firstId, codes, records, m, now, i))
    && GapTold(rep.gap, m)
    && rep.payloadBlocks == DataPrograms(made, PayloadArea(m)) && rep.rerankBlocks == DataPrograms(made, RerankArea(m))
  }

  /** A call that comes back with a report, on a ready volume. */
  ghost predicate Called(was: Bytes, log: seq<Op>, codes: Bytes, records: Bytes, count: nat, h: nat,
                         r: Result<Report, AppendError>, done: nat, now: Bytes, nowLog: seq<Op>)
  {
    && MANIFEST_RESERVED_BYTES <= |was| && Mounted(was).Ok? && Laid(Mounted(was).value, |was|)
    && Outcome(was, log, codes, records, count, r, done, now, nowLog)
    && PlanFor(was, Mounted(was).value, count) == Ok(h)
    && Supported(Mounted(was).value) && Ready(was, JobFor(Mounted(was).value, h, count, codes, records))
  }

  lemma NewIdHeld(img: Bytes, job: Job, i: nat)
    requires Ready(img, job) && i < job.blocks * job.P().per
    ensures job.Next().Holds(job.head * job.P().per + i)
  {
    hide Usable, Supported, PayloadArea, RerankArea, RatioTimes, Updated, IsErased, Chunk;
    NextHolds(img, job, job.head * job.P().per + i);
    Distribute(job.head, job.blocks, job.P().per);
    NonNegativeProduct(job.head, job.P().per);
  }

  lemma NewIdsTold(img: Bytes, job: Job, i: nat)
    requires Ready(img, job) && i < job.blocks * job.P().per && Supported(job.Next())
    requires PayloadArea(job.Next()) == job.P() && RerankArea(job.Next()) == job.R()
    ensures IdTold(job.head * job.P().per, job.codes, job.records, job.Next(), Completed(img, job), i)
  {
    hide Usable, Supported, PayloadArea, RerankArea, RatioTimes, Updated, IsErased, Chunk, Holding, Bounded, CrashState,
      Job.Ops, Job.DataOps, Manifest.Holds, Sited;
    CompletedIsStop(img, job);
    LandedPastPayload(job);
    NewIdReadsBack(img, job, |job.Ops()|, Completed(img, job), i);
    NewIdHeld(img, job, i);
  }

  lemma ReportFields(job: Job, count: nat)
    requires job.Valid() && count == job.blocks * job.P().per
    ensures var rep := ReportOf(job, count);
            && rep.firstId == job.head * job.P().per && rep.count == count && rep.n == job.Next().n == rep.firstId + count
            && rep.gap == job.Next().Gap() && rep.payloadBlocks == job.blocks && rep.rerankBlocks == job.RerankCount()
            && rep.driftAppended == job.m.Appended() + count
  {
    hide Supported, PayloadArea, RerankArea, RatioTimes;
  }

  /** What the report of a job says, once all its operations are done. */
  lemma JobTells(img: Bytes, job: Job, count: nat)
    requires Ready(img, job) && count == job.blocks * job.P().per
    ensures Tells(ReportOf(job, count), job.codes, job.records, count, job.Next(), Completed(img, job), job.Ops())
  {
    hide Usable, Supported, PayloadArea, RerankArea, RatioTimes, Job.Ops, IdTold, Updated, IsErased, Chunk,
      Manifest.Holds, DataPrograms, ReportOf;
    ReportFields(job, count);
    JobPrograms(img, job);
    NextIsLaid(img, job);
    LaidIsSupported(job.Next(), |img|);
    NextRange(img, job);
    StoredCountsHeld(job.Next());
    forall i: nat | i < count
      ensures IdTold(job.head * job.P().per, job.codes, job.records, job.Next(), Completed(img, job), i)
    {
      NewIdsTold(img, job, i);
    }
  }

  /** The report of a completed append is true of the volume it leaves. */
  lemma ReportIsTrue(was: Bytes, log: seq<Op>, codes: Bytes, records: Bytes, count: nat, h: nat,
                     r: Result<Report, AppendError>, done: nat, now: Bytes, nowLog: seq<Op>)
    requires Called(was, log, codes, records, count, h, r, done, now, nowLog)
    ensures r.Ok? && |log| <= |nowLog| && nowLog[..|log|] == log
    ensures |now| == |was| >= MANIFEST_RESERVED_BYTES && Mounted(now).Ok?
    ensures Tells(r.value, codes, records, count, Mounted(now).value, now, nowLog[|log|..])
  {
    hide Mounted, Laid, PlanFor, Ran, Usable, Supported, PayloadArea, RerankArea, RatioTimes, Job.Ops, Tells, Updated,
      IsErased, Chunk, Bounded, CrashState, ReportOf;
    var job := JobFor(Mounted(was).value, h, count, codes, records);
    AppendSucceeds(was, log, codes, records, count, h, r, done, now, nowLog);
    CompletedCommits(was, job);
    assert nowLog[|log|..] == job.Ops() && nowLog[..|log|] == log;
    JobTells(was, job, count);
  }

  // ---------------------------------------------------------------- the total appended

  lemma {:induction false} HeldFromSize(m: Manifest, from: nat, end: nat)
    requires m.RangeOrdered() && m.appendedFrom == from <= end <= m.n
    ensures |set id: nat | id < end && from <= id && m.Holds(id)| == end - from
  {
    var s := set id: nat | id < end && from <= id && m.Holds(id);
    if end == from {
      assert s == {};
    } else {
      HeldFromSize(m, from, end - 1);
      assert s == (set id: nat | id < end - 1 && from <= id && m.Holds(id)) + {end - 1};
    }
  }

  /** The ids appended so far, by the manifest the call installs. */
  lemma NextAppended(img: Bytes, job: Job)
    requires Ready(img, job)
    ensures var next := job.Next();
            |HeldFrom(next, next.appendedFrom)|
            == if job.m.Appended() == 0 then job.blocks * job.P().per else next.n - job.m.appendedFrom
  {
    hide Usable, Supported, PayloadArea, RerankArea, RatioTimes, IsErased, Chunk;
    var next := job.Next();
    NextRange(img, job);
    Distribute(job.head, job.blocks, job.P().per);
    HeldFromSize(next, next.appendedFrom, next.n);
  }

  /**
   The report's running total of appended vectors is the number of appended ids the volume then
   holds exactly when no orphans lay before the head. Orphans that become held are not counted.
   */
  lemma TotalIffNoOrphans(was: Bytes, log: seq<Op>, codes: Bytes, records: Bytes, count: nat, h: nat,
                          r: Result<Report, AppendError>, done: nat, now: Bytes, nowLog: seq<Op>)
    requires Called(was, log, codes, records, count, h, r, done, now, nowLog)
    ensures r.Ok? && |now| >= MANIFEST_RESERVED_BYTES && Mounted(now).Ok?
    ensures Mounted(was).value.RangeOrdered()
    ensures var m := Mounted(now).value;
            r.value.driftAppended == |HeldFrom(m, m.appendedFrom)| <==> Contiguous(Mounted(was).value, h)
  {
    hide Mounted, Laid, PlanFor, Ran, Usable, Supported, PayloadArea, RerankArea, RatioTimes, Job.Ops, IsErased, Chunk,
      Bounded, CrashState, HeldFrom, ReportOf, Updated;
    var job := JobFor(Mounted(was).value, h, count, codes, records);
    AppendSucceeds(was, log, codes, records, count, h, r, done, now, nowLog);
    CompletedCommits(was, job);
    ReportFields(job, count);
    NextAppended(was, job);
    NextRange(was, job);
  }

  /** On a committed volume, every block a stopped append left before the head goes uncounted in the next report. */
  lemma OrphansUncounted(img: Bytes, job: Job, j: nat, was: Bytes, log: seq<Op>, codes: Bytes, records: Bytes, count: nat, h: nat,
                         r: Result<Report, AppendError>, done: nat, now: Bytes, nowLog: seq<Op>)
    requires Ready(img, job) && job.m.Appended() > 0 && Contiguous(job.m, job.head) && RollsBack(img, job, j, was)
    requires h >= job.head && Called(was, log, codes, records, count, h, r, done, now, nowLog)
    ensures r.Ok? && |now| >= MANIFEST_RESERVED_BYTES && Mounted(now).Ok?
    ensures var m := Mounted(now).value;
            |HeldFrom(m, m.appendedFrom)| == r.value.driftAppended + (h - job.head) * job.P().per
  {
    hide Mounted, Laid, PlanFor, Ran, Usable, Supported, PayloadArea, RerankArea, RatioTimes, Job.Ops, IsErased, Chunk,
      Bounded, CrashState, HeldFrom, ReportOf, Updated, StoppedAt;
    var next := JobFor(job.m, h, count, codes, records);
    AppendSucceeds(was, log, codes, records, count, h, r, done, now, nowLog);
    CompletedCommits(was, next);
    ReportFields(next, count);
    NextAppended(was, next);
    NextRange(was, next);
    Distribute(job.head, h - job.head, job.P().per);
    Distribute(h, next.blocks, job.P().per);
  }
}
