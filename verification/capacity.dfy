/**
 Exactly which geometries the capacity check suits.

 For given code and record widths, the check keeps every planned append on every fresh build
 inside its regions if and only if a payload block covers at most eight rerank blocks. The
 build that refutes it past that ratio holds one vector with a reserve of one.
 */
module Capacity {
  import opened Options
  import opened Flash
  import opened Codec
  import opened Region
  import opened Manifests
  import opened Arith
  import opened Layouts
  import opened Volumes
  import opened Append
  import opened Crash
  import opened Atomicity
  import opened Lifecycle
  import opened Emit
  import opened Built
  import opened Room

  // ---------------------------------------------------------------- the smallest reserved build

  function Zeros(n: nat): (s: Bytes)
    ensures |s| == n && forall i :: 0 <= i < n ==> s[i] == 0
  {
    seq(n, _ => 0)
  }

  /** One vector of `d` bytes in codes of `m`, with room reserved for one more. */
  function OneVector(m: nat, d: nat): Image {
    Image([], 256, m, Zeros(m), Zeros(d), 1, d, 0, 1, 1)
  }

  /** Widths that fill blocks, the code no wider than the record. */
  predicate Widths(m: nat, d: nat) {
    0 < m <= d <= BLOCK_BYTES && BLOCK_BYTES % m == 0 && BLOCK_BYTES % d == 0
  }

  /** A width that fills a block fills it a power of two times. */
  lemma PerIsPower(width: nat) returns (e: nat)
    requires width > 0 && BLOCK_BYTES % width == 0
    ensures BLOCK_BYTES / width == Pow2(e) && (BLOCK_BYTES / width) * width == BLOCK_BYTES
  {
    DivMod(BLOCK_BYTES, width);
    Nine();
    DivisorsOfPow2(BLOCK_BYTES / width, width, 9);
    e :| e <= 9 && BLOCK_BYTES / width == Pow2(e);
  }

  /** Rerank blocks to a payload block: a power of two, so a multiple of eight once past it. */
  lemma RatioOf(m: nat, d: nat) returns (k: nat)
    requires Widths(m, d)
    ensures var pp, pr := BLOCK_BYTES / m, BLOCK_BYTES / d;
            && pp > 0 && pr > 0 && pp == k * pr && 0 < k <= pp <= BLOCK_BYTES
            && (pp > 8 * pr ==> k > 8 && k % 8 == 0)
  {
    hide Pow2;
    var i := PerIsPower(m);
    var j := PerIsPower(d);
    WiderMeansFewer(Pow2(i), m, Pow2(j), d);
    PowersDivide(i, j);
    k := Pow2(i - j);
    Eight(i - j);
    RatioBounds(Pow2(i), Pow2(j), k, m);
  }

  lemma RatioBounds(pp: nat, pr: nat, k: nat, m: nat)
    requires pp == k * pr && pp > 0 && pr > 0 && k > 0 && m > 0 && pp * m == BLOCK_BYTES
    ensures k <= pp <= BLOCK_BYTES && (pp > 8 * pr ==> k > 8)
  {
    ProductOrder(k, 8, pr);
    ProductOrder(1, pr, k);
    ProductOrder(1, m, pp);
  }

  lemma PowersDivide(i: nat, j: nat)
    requires Pow2(j) <= Pow2(i)
    ensures j <= i && Pow2(i) == Pow2(i - j) * Pow2(j)
  {
    if i < j {
      Pow2Grows(i, j);
    } else {
      Pow2Sum(i - j, j);
    }
  }

  lemma Eight(e: nat)
    ensures Pow2(e) > 8 ==> Pow2(e) % 8 == 0
  {
    assert Pow2(3) == 8;
    if Pow2(e) > 8 {
      Pow2Divides(e, 3);
    }
  }

  /** Where one count divides the other, the unit is the larger. */
  lemma UnitOfMultiple(a: nat, b: nat, k: nat)
    requires a > 0 && b > 0 && a == k * b
    ensures Unit(a, b) == a
  {
    hide Unit;
    var u := Unit(a, b);
    UnitIsLeastCommonMultiple(a, b, a);
    UnitIsLeastCommonMultiple(a, b, u);
    DividesTimes(b, k);
    DividesBoth(a, u);
  }

  lemma DividesBoth(a: nat, u: nat)
    requires a > 0 && u > 0 && Divides(a, u) && Divides(u, a)
    ensures a == u
  {
    DivMod(a, u);
    DivMod(u, a);
    ProductOrder(1, a / u, u);
    ProductOrder(1, u / a, a);
  }

  lemma CeilIs(x: nat, d: nat, q: nat)
    requires d > 0 && q > 0 && (q - 1) * d < x <= q * d
    ensures CeilDiv(x, d) == q
  {
    var c := CeilDiv(x, d);
    ProductOrder(c, q - 1, d);
    ProductOrder(q, c, d);
  }

  lemma OneVectorCounts(m: nat, d: nat, k: nat)
    requires Widths(m, d) && k > 0 && BLOCK_BYTES / m == k * (BLOCK_BYTES / d) && BLOCK_BYTES / m > 0 && BLOCK_BYTES / d > 0
    ensures var image := OneVector(m, d);
            && image.Valid() && image.PayloadBlocks() == 2 && image.RerankBlocks() == k + 1
            && BuiltPayload(image) == 1 && BuiltRerank(image) == 1
  {
    hide CeilDiv, Unit;
    var image, pp, pr := OneVector(m, d), BLOCK_BYTES / m, BLOCK_BYTES / d;
    UnitOfMultiple(pp, pr, k);
    CeilIs(1, pp, 1);
    CeilIs(1, pr, 1);
    assert image.AppendHead() == pp;
    Distribute(1, 1, pp);
    CeilIs(pp + 1, pp, 2);
    Distribute(k, 1, pr);
    CeilIs(pp + 1, pr, k + 1);
  }

  lemma SectorsIs(bytes: nat, q: nat)
    requires q > 0 && SECTOR_BYTES * (q - 1) < bytes <= SECTOR_BYTES * q
    ensures Sectors(bytes) == SECTOR_BYTES * q
  {
    CeilIs(bytes, SECTOR_BYTES, q);
  }

  lemma OneVectorExtents(m: nat, d: nat, k: nat)
    requires Widths(m, d) && 8 < k <= BLOCK_BYTES && k % 8 == 0
    requires BLOCK_BYTES / m == k * (BLOCK_BYTES / d) && BLOCK_BYTES / m > 0 && BLOCK_BYTES / d > 0
    ensures var image := OneVector(m, d);
            && image.Valid() && BuiltPayload(image) == 1 && BuiltRerank(image) == 1
            && image.Extents() == [0, 0, SECTOR_BYTES, SECTOR_BYTES, BLOCK_BYTES * (k + 8), SECTOR_BYTES]
  {
    hide CeilDiv, Sectors, Image.PayloadBlocks, Image.RerankBlocks, Image.Capacity, BuiltPayload, BuiltRerank;
    OneVectorCounts(m, d, k);
    NoSectors();
    SectorsIs(2 * BLOCK_BYTES, 1);
    SectorsIs(2 * CRC_BYTES, 1);
    SectorsIs((k + 1) * BLOCK_BYTES, k / 8 + 1);
    SectorsIs((k + 1) * CRC_BYTES, 1);
  }

  lemma NoSectors()
    ensures Sectors(0) == 0
  {}

  lemma SixBases(e: seq<nat>)
    requires |e| == 6
    ensures BaseOf(e, 6) == MANIFEST_RESERVED_BYTES + e[0] + e[1] + e[2] + e[3] + e[4] + e[5]
  {
    assert BaseOf(e, 1) == BaseOf(e, 0) + e[0];
    assert BaseOf(e, 3) == BaseOf(e, 1) + e[1] + e[2];
    assert BaseOf(e, 5) == BaseOf(e, 3) + e[3] + e[4];
  }

  lemma OneVectorBuilds(m: nat, d: nat, k: nat)
    requires Widths(m, d) && 8 < k <= BLOCK_BYTES && k % 8 == 0
    requires BLOCK_BYTES / m == k * (BLOCK_BYTES / d) && BLOCK_BYTES / m > 0 && BLOCK_BYTES / d > 0
    ensures var image := OneVector(m, d);
            && Buildable(image) && CodesShow(image)
            && PayloadOf(image).blocks == 8 && RerankOf(image).blocks == k + 8
  {
    hide Image.Extents, BaseOf, TableOf, BuiltPayload, BuiltRerank, IsErased, BlockData;
    var image := OneVector(m, d);
    OneVectorExtents(m, d, k);
    SixBases(image.Extents());
    StoredTable(image);
    OneVectorShows(m, d);
  }

  lemma OneVectorShows(m: nat, d: nat)
    requires Widths(m, d) && OneVector(m, d).Valid() && PerBlock(m) > 0
    ensures var image := OneVector(m, d);
            !IsErased(BlockData(PayloadOf(image), image.codes, 1, 0))
  {
    hide TableOf, Image.Extents;
    var image := OneVector(m, d);
    var data := BlockData(PayloadOf(image), image.codes, 1, 0);
    FirstData(PayloadOf(image), image.codes);
    assert data[0] == 0;
  }

  lemma FirstData(a: Area, records: Bytes)
    requires a.per > 0 && a.width > 0 && |records| == 1 * a.width
    ensures BlockData(a, records, 1, 0) == records
  {
    assert 0 * a.per == 0 && 0 * a.width == 0;
    assert LastOf(0, a.per, 1) == 1;
  }

  // ---------------------------------------------------------------- the check on it

  /** Every append planned on the build has room. */
  ghost predicate CheckSuits(image: Image)
    requires Buildable(image)
  {
    && Laid(ManifestOf(image), |Emitted(image)|)
    && forall count: nat, job: Job |
         && PlanFor(Emitted(image), ManifestOf(image), count) == Ok(BuiltPayload(image))
         && JobOfCount(image, count, job) :: job.Room()
  }

  ghost predicate JobOfCount(image: Image, count: nat, job: Job)
    requires Buildable(image)
  {
    && job.Valid() && job.m == ManifestOf(image) && job.head == BuiltPayload(image)
    && count == job.blocks * job.P().per
  }

  /** Up to eight rerank blocks to a payload block, it suits every build. */
  lemma SuitsUpToEight(image: Image)
    requires Buildable(image) && CodesShow(image) && PerBlock(image.m) <= 8 * PerBlock(image.d)
    ensures CheckSuits(image)
  {
    hide Sound, Usable, Emitted, ManifestOf, Supported, PayloadArea, RerankArea, PlanFor, RatioTimes, Laid, CeilDiv,
      Image.Extents, TableOf, CodesShow;
    var img, m := Emitted(image), ManifestOf(image);
    BuiltIsSound(image);
    SoundIsUsable(img, m, BuiltPayload(image));
    BuiltIsLaid(image);
    StoredFields(image);
    ManifestIs(image);
    forall count: nat, job: Job |
      && PlanFor(img, m, count) == Ok(BuiltPayload(image))
      && JobOfCount(image, count, job)
      ensures job.Room()
    {
      CapacityIsEnough(img, m, BuiltPayload(image), count, job);
    }
  }

  /** On a build of one vector with `k + 8` rerank blocks, the check takes a batch of one payload block. */
  lemma OneVectorPlan(image: Image, k: nat)
    requires Buildable(image) && CodesShow(image) && image.n == 1 && k > 0
    requires PerBlock(image.m) == k * PerBlock(image.d) && BuiltPayload(image) == 1 && BuiltRerank(image) == 1
    requires PayloadOf(image).blocks == 8 && RerankOf(image).blocks == k + 8
    ensures Laid(ManifestOf(image), |Emitted(image)|)
    ensures PlanFor(Emitted(image), ManifestOf(image), PerBlock(image.m)) == Ok(1)
    ensures Supported(ManifestOf(image)) && RatioTimes(ManifestOf(image), 1) == k
  {
    hide Sound, Usable, Emitted, ManifestOf, Supported, PayloadArea, RerankArea, PlanFor, Laid, CeilDiv, RatioTimes,
      Image.Extents, TableOf, CodesShow, UnwrittenFrom, ErasedFrom, BuiltPayload, BuiltRerank;
    var img, m := Emitted(image), ManifestOf(image);
    var pp, pr := PerBlock(image.m), PerBlock(image.d);
    BuiltIsSound(image);
    SoundIsUsable(img, m, 1);
    BuiltIsLaid(image);
    StoredFields(image);
    ManifestIs(image);
    LaidIsSupported(m, |img|);
    RatioIs(m, 1, k);
    AreasWithin(m, |img|);
    ErasedFromHead(img, RerankArea(m), 1, 1);
    CeilIs(1, pr, 1);
    QuotientIs(pp, pp, 1);
    ProductOrder(k, k + 7, pr);
    PlanSucceeds(img, m, 1, pp);
  }

  lemma RatioIs(m: Manifest, h: nat, k: nat)
    requires Supported(m) && PayloadArea(m).per == k * RerankArea(m).per
    ensures RatioTimes(m, h) == h * k
  {
    QuotientIs(k * RerankArea(m).per, RerankArea(m).per, k);
  }

  /** One payload block of zeros for the build of one vector. */
  function ZeroJob(image: Image, k: nat): Job
    requires Buildable(image)
  {
    Job(ManifestOf(image), 1, 1, Zeros(BLOCK_BYTES), Zeros(BLOCK_BYTES * k))
  }

  /** Past eight, that batch passes the check and has no room. */
  lemma MisjudgedPastEight(m: nat, d: nat, k: nat)
    requires Widths(m, d) && 8 < k <= BLOCK_BYTES && k % 8 == 0
    requires BLOCK_BYTES / m == k * (BLOCK_BYTES / d) && BLOCK_BYTES / m > 0 && BLOCK_BYTES / d > 0
    ensures Buildable(OneVector(m, d)) && CodesShow(OneVector(m, d)) && !CheckSuits(OneVector(m, d))
  {
    hide Sound, Usable, Emitted, ManifestOf, Supported, PayloadArea, RerankArea, PlanFor, Laid, CodesShow,
      BuiltPayload, BuiltRerank, Image.Extents, PayloadOf, RerankOf, Zeros, RatioTimes, CheckSuits;
    var image := OneVector(m, d);
    OneVectorBuilds(m, d, k);
    OneVectorExtents(m, d, k);
    OneVectorPlan(image, k);
    OneVectorNoRoom(image, k);
  }

  lemma OneVectorNoRoom(image: Image, k: nat)
    requires Buildable(image) && k > 8 && BuiltPayload(image) == 1 && RerankOf(image).blocks == k + 8
    requires Laid(ManifestOf(image), |Emitted(image)|)
    requires PlanFor(Emitted(image), ManifestOf(image), PerBlock(image.m)) == Ok(1)
    requires Supported(ManifestOf(image)) && RatioTimes(ManifestOf(image), 1) == k
    ensures !CheckSuits(image)
  {
    hide Emitted, ManifestOf, Supported, PayloadArea, RerankArea, PlanFor, Laid, BuiltPayload, Image.Extents, TableOf,
      Zeros, RatioTimes;
    var job := ZeroJob(image, k);
    StoredFields(image);
    ManifestIs(image);
    assert !job.Room();
    assert JobOfCount(image, PerBlock(image.m), job);
  }

  /**
   The exact geometry: the capacity check keeps every planned append on every fresh build of these
   widths inside its regions exactly when a payload block covers at most eight rerank blocks.
   */
  lemma CheckSuitsIff(m: nat, d: nat)
    requires Widths(m, d)
    ensures BLOCK_BYTES / m <= 8 * (BLOCK_BYTES / d) <==>
            forall image: Image | Buildable(image) && image.m == m && image.d == d && CodesShow(image) :: CheckSuits(image)
  {
    hide CheckSuits, CodesShow, Image.Extents, BaseOf, OneVector, Zeros;
    var k := RatioOf(m, d);
    if BLOCK_BYTES / m <= 8 * (BLOCK_BYTES / d) {
      forall image: Image | Buildable(image) && image.m == m && image.d == d && CodesShow(image)
        ensures CheckSuits(image)
      {
        SuitsUpToEight(image);
      }
    } else {
      MisjudgedPastEight(m, d, k);
      OneVectorWidths(m, d);
    }
  }

  lemma OneVectorWidths(m: nat, d: nat)
    ensures OneVector(m, d).m == m && OneVector(m, d).d == d
  {}

  // ---------------------------------------------------------------- the reserve asked for

  lemma CapacityIs(image: Image)
    requires Buildable(image) && image.reserve > 0
    ensures PerBlock(image.m) > 0 && image.Capacity() == BuiltPayload(image) * PerBlock(image.m) + image.reserve
  {
    hide CeilDiv, Unit;
    var k := RatioOf(image.m, image.d);
    UnitOfMultiple(PerBlock(image.m), PerBlock(image.d), k);
  }

  /** Both regions have blocks for every id below the capacity. */
  lemma CapacityHeld(image: Image)
    requires Buildable(image)
    ensures image.Capacity() <= PayloadOf(image).blocks * PerBlock(image.m)
    ensures image.Capacity() <= RerankOf(image).blocks * PerBlock(image.d)
  {
    hide BaseOf, TableOf, Sectors, CeilDiv, Image.AppendHead, Image.Capacity;
    StoredTable(image);
    WidthsFit(image);
    BlocksInSectors(image.PayloadBlocks());
    BlocksInSectors(image.RerankBlocks());
    PerIsPositive(image.m);
    PerIsPositive(image.d);
    ProductOrder(image.PayloadBlocks(), PayloadOf(image).blocks, PerBlock(image.m));
    ProductOrder(image.RerankBlocks(), RerankOf(image).blocks, PerBlock(image.d));
  }

  lemma PerIsPositive(width: nat)
    requires 0 < width <= BLOCK_BYTES
    ensures PerBlock(width) > 0
  {
    DivMod(BLOCK_BYTES, width);
  }

  lemma BlocksInSectors(blocks: nat)
    ensures blocks <= Sectors(blocks * BLOCK_BYTES) / BLOCK_BYTES
  {
    var s := Sectors(blocks * BLOCK_BYTES);
    DivMod(s, BLOCK_BYTES);
    ProductOrder(s / BLOCK_BYTES + 1, blocks, BLOCK_BYTES);
  }

  /** A reserve counted in ids: what it leaves of both regions past the first `h` payload blocks. */
  lemma ReserveArithmetic(n: nat, h: nat, k: nat, pp: nat, pr: nat, count: nat, capacity: nat, pblocks: nat, rblocks: nat)
    requires pp > 0 && pr > 0 && pp == k * pr && k > 0 && h == CeilDiv(n, pp) && count > 0 && count % pp == 0
    requires h * pp + count <= capacity <= pblocks * pp && capacity <= rblocks * pr
    ensures h + count / pp <= pblocks && h * k < rblocks
    ensures CeilDiv(n, pr) <= rblocks && count <= (rblocks - CeilDiv(n, pr)) * pr
  {
    hide CeilDiv;
    var c, cr := count / pp, CeilDiv(n, pr);
    DivMod(count, pp);
    Distribute(h, c, pp);
    ProductOrder(pblocks, h + c, pp);
    Regroup(h, k, pr);
    ProductOrder(rblocks, h * k, pr);
    BelowCeil(h * k, n, pr);
    BelowCeil(h, n, pp);
    ProductOrder(cr, h * k, pr);
    Distribute(rblocks - cr, cr, pr);
  }

  /**
   What the reserve is for: on a fresh build every batch of whole units no larger than the reserve
   is planned, at the block after the last vector, and has room in both regions.
   */
  lemma ReserveIsUsable(image: Image, count: nat, job: Job)
    requires Buildable(image) && CodesShow(image) && 0 < count <= image.reserve && PerBlock(image.m) > 0
    requires count % PerBlock(image.m) == 0
    ensures Laid(ManifestOf(image), |Emitted(image)|)
    ensures PlanFor(Emitted(image), ManifestOf(image), count) == Ok(BuiltPayload(image))
    ensures JobOfCount(image, count, job) ==> job.Room()
  {
    hide Sound, Usable, Emitted, ManifestOf, Supported, PayloadArea, RerankArea, PlanFor, Laid, CeilDiv, RatioTimes,
      Image.Extents, TableOf, CodesShow, UnwrittenFrom, ErasedFrom, Image.Capacity;
    var img, m, h := Emitted(image), ManifestOf(image), BuiltPayload(image);
    BuiltIsSound(image);
    SoundIsUsable(img, m, h);
    BuiltIsLaid(image);
    StoredFields(image);
    ManifestIs(image);
    LaidIsSupported(m, |img|);
    AreasWithin(m, |img|);
    PerIsPositive(image.d);
    CapacityIs(image);
    CapacityHeld(image);
    var k := RatioOf(image.m, image.d);
    ReserveArithmetic(image.n, h, k, PerBlock(image.m), PerBlock(image.d), count, image.Capacity(),
                      PayloadOf(image).blocks, RerankOf(image).blocks);
    RatioIs(m, h, k);
    ErasedFromHead(img, RerankArea(m), BuiltRerank(image), BuiltRerank(image));
    PlanSucceeds(img, m, h, count);
    if JobOfCount(image, count, job) {
      RoomIff(img, m, h, count, job);
    }
  }
}
