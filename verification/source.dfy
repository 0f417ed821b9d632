/**
 The readers that feed a query from flash: payload runs in order, rerank records by id.

 One walk of the payload reader serves each held id once, in order, with the bytes at that
 id; the rerank reader serves a record with the CRC word of every block it touches. On a
 sound volume no block fails, so nothing a scan finds is dropped afterwards.
 */
module Source {
  import opened Options
  import opened Flash
  import opened Codec
  import opened Manifests
  import opened Arith
  import opened Layouts
  import opened Volumes
  import opened Ranking
  import Crc
  import Rerank

  // ---------------------------------------------------------------- what a walk serves

  /** Block geometry of a walk: `n` ids, those of `[gapFrom, gapTo)` absent. */
  datatype Shape = Shape(per: nat, blocks: nat, n: nat, gapFrom: nat, gapTo: nat) {
    predicate Valid() {
      && per > 0 && blocks == CeilDiv(n, per)
      && gapFrom <= gapTo <= n
      && (gapFrom < gapTo ==> gapTo % per == 0)
    }

    predicate Held(id: nat) {
      id < n && !(gapFrom <= id < gapTo)
    }

    function FirstId(b: nat): nat {
      NonNegativeProduct(b, per);
      b * per
    }

    /** Wholly inside the gap. */
    predicate Skips(b: nat) {
      gapTo > gapFrom && FirstId(b) >= gapFrom && FirstId(b) + per <= gapTo
    }

    /**
     Records of block `b` that are served: cut at the end of the ids, and at the gap. Never
     none, so the reader's test for an empty run never holds.
     */
    function Take(b: nat): (take: nat)
      requires FirstId(b) < n
      ensures per > 0 ==> take > 0
    {
      var take := if per < n - FirstId(b) then per else n - FirstId(b);
      if gapTo > gapFrom && FirstId(b) < gapFrom && FirstId(b) + take > gapFrom then gapFrom - FirstId(b) else take
    }

    /** The next block served from `b` on, with its record count. */
    function Serve(b: nat): (r: Option<(nat, nat)>)
      ensures r.Some? ==> b <= r.value.0 < blocks && FirstId(r.value.0) < n && r.value.1 == Take(r.value.0)
      decreases blocks - b
    {
      if b >= blocks || FirstId(b) >= n then None
      else if Skips(b) then Serve(b + 1)
      else Some((b, Take(b)))
    }

    /** Every id a walk from block `b` serves, in order. */
    function ServedIds(b: nat): seq<nat>
      decreases blocks - b
    {
      match Serve(b)
      case None => []
      case Some((c, take)) => Range(FirstId(c), take) + ServedIds(c + 1)
    }

    /** The held ids from `lo` up. */
    function HeldIds(lo: nat): seq<nat>
      decreases n - lo
    {
      if lo >= n then [] else (if Held(lo) then [lo] else []) + HeldIds(lo + 1)
    }
  }

  function Range(from: nat, len: nat): (s: seq<nat>)
    ensures |s| == len
  {
    seq(len, i requires 0 <= i < len => from + i)
  }

  /** The held ids are exactly those, each once, rising. */
  lemma {:induction false} HeldIdsAreHeld(s: Shape, lo: nat)
    ensures forall id: nat :: id in s.HeldIds(lo) <==> lo <= id && s.Held(id)
    ensures forall i, j :: 0 <= i < j < |s.HeldIds(lo)| ==> s.HeldIds(lo)[i] < s.HeldIds(lo)[j]
    decreases s.n - lo
  {
    if lo < s.n {
      HeldIdsAreHeld(s, lo + 1);
      var rest := s.HeldIds(lo + 1);
      assert forall i :: 0 <= i < |rest| ==> rest[i] in rest;
    }
  }

  lemma {:induction false} RunOfHeld(s: Shape, lo: nat, len: nat)
    requires lo + len <= s.n && forall id: nat | lo <= id < lo + len :: s.Held(id)
    ensures s.HeldIds(lo) == Range(lo, len) + s.HeldIds(lo + len)
    decreases len
  {
    if len > 0 {
      RunOfHeld(s, lo + 1, len - 1);
      assert Range(lo, len) == [lo] + Range(lo + 1, len - 1);
      assert [lo] + Range(lo + 1, len - 1) + s.HeldIds(lo + len) == [lo] + (Range(lo + 1, len - 1) + s.HeldIds(lo + len));
    }
  }

  lemma {:induction false} RunOfAbsent(s: Shape, lo: nat, len: nat)
    requires forall id: nat | lo <= id < lo + len :: !s.Held(id)
    ensures s.HeldIds(lo) == s.HeldIds(lo + len)
    decreases len
  {
    if len > 0 {
      RunOfAbsent(s, lo + 1, len - 1);
      if lo >= s.n {
        assert s.HeldIds(lo) == [] && s.HeldIds(lo + 1) == [];
      }
    }
  }

  /** What one block of the walk covers: held ids first, absent ids after them. */
  lemma BlockCovers(s: Shape, b: nat)
    requires s.Valid() && s.FirstId(b) < s.n
    ensures s.FirstId(b + 1) == s.FirstId(b) + s.per
    ensures s.Skips(b) ==> forall id: nat | s.FirstId(b) <= id < s.FirstId(b) + s.per :: !s.Held(id)
    ensures !s.Skips(b) ==> 0 < s.Take(b) <= s.per && s.FirstId(b) + s.Take(b) <= s.n
    ensures !s.Skips(b) ==> forall id: nat | s.FirstId(b) <= id < s.FirstId(b) + s.Take(b) :: s.Held(id)
    ensures !s.Skips(b) ==> forall id: nat | s.FirstId(b) + s.Take(b) <= id < s.FirstId(b) + s.per :: !s.Held(id)
  {
    hide CeilDiv;
    Distribute(b, 1, s.per);
    if s.gapFrom < s.gapTo {
      GapEnd(s, b);
    }
  }

  /** A gap that reaches into a block reaches its end. */
  lemma GapEnd(s: Shape, b: nat)
    requires s.Valid() && s.gapFrom < s.gapTo && s.gapTo % s.per == 0
    ensures s.FirstId(b) < s.gapTo ==> s.FirstId(b) + s.per <= s.gapTo
  {
    hide CeilDiv;
    DivMod(s.gapTo, s.per);
    ProductOrder(b, s.gapTo / s.per, s.per);
    ProductOrder(s.gapTo / s.per, b, s.per);
  }

  /** A walk serves exactly the held ids, each once, in order, whatever block it starts from. */
  lemma {:induction false} WalkServesHeld(s: Shape, b: nat)
    requires s.Valid()
    ensures s.ServedIds(b) == s.HeldIds(s.FirstId(b))
    decreases s.blocks - b
  {
    hide CeilDiv, Range, Shape.Held, Shape.Skips, Shape.Take, Shape.FirstId;
    BelowCeil(b, s.n, s.per);
    FirstIdIs(s, b);
    if b < s.blocks {
      BlockCovers(s, b);
      WalkServesHeld(s, b + 1);
      var first := s.FirstId(b);
      if s.Skips(b) {
        RunOfAbsent(s, first, s.per);
      } else {
        RunOfHeld(s, first, s.Take(b));
        RunOfAbsent(s, first + s.Take(b), s.per - s.Take(b));
      }
    }
  }

  lemma FirstIdIs(s: Shape, b: nat)
    ensures s.FirstId(b) == b * s.per
  {}

  // ---------------------------------------------------------------- the payload reader

  /** Payload codes, read several blocks at a time and served one block at a time. */
  class PayloadReader {
    const flash: WritableVolume
    const base: nat
    const recordBytes: nat
    const shape: Shape
    const gap: (nat, nat)
    var nextBlock: nat
    var buf: Bytes
    var held: (nat, nat)

    /** The region is on the flash, and the buffer holds what the flash holds for the blocks it claims. */
    ghost predicate Valid()
      reads this, flash
    {
      && shape.per > 0 && shape.per * recordBytes <= BLOCK_BYTES
      && base + BLOCK_BYTES * shape.blocks <= |flash.image|
      && |buf| >= BLOCK_BYTES && |buf| % BLOCK_BYTES == 0
      && held.0 <= held.1 <= shape.blocks && BLOCK_BYTES * (held.1 - held.0) <= |buf|
      && forall b: nat | held.0 <= b < held.1 :: Cached(flash.image, buf, base, held.0, b)
    }

    constructor (flash: WritableVolume, base: nat, recordBytes: nat, shape: Shape, blocksPerRead: nat)
      requires shape.per > 0 && shape.per * recordBytes <= BLOCK_BYTES
      requires base + BLOCK_BYTES * shape.blocks <= |flash.image|
      ensures Valid() && fresh(this) && nextBlock == 0
      ensures this.flash == flash && this.base == base && this.recordBytes == recordBytes && this.shape == shape
    {
      this.flash := flash;
      this.base := base;
      this.recordBytes := recordBytes;
      this.shape := shape;
      this.gap := (shape.gapFrom, shape.gapTo);
      this.nextBlock := 0;
      this.buf := seq(BLOCK_BYTES * (if blocksPerRead == 0 then 1 else blocksPerRead), _ => 0);
      this.held := (0, 0);
    }

    method Rewind()
      requires Valid()
      modifies this`nextBlock
      ensures Valid() && nextBlock == 0
    {
      nextBlock := 0;
    }

    /** Refill from `block` on, as many blocks as the buffer and the region allow. */
    method Refill(block: nat)
      requires Valid() && block < shape.blocks
      modifies this`buf, this`held
      ensures Valid() && held.0 <= block < held.1
    {
      var room := |buf| / BLOCK_BYTES;
      var want := if room < shape.blocks - block then room else shape.blocks - block;
      var read := flash.Read(base + BLOCK_BYTES * block, BLOCK_BYTES * want);
      FreshCache(flash.image, buf, base, block, want, read.value);
      buf := read.value + buf[BLOCK_BYTES * want..];
      held := (block, block + want);
    }

    /** The first `len` bytes of `block`, through the buffer. */
    method ServeBlock(block: nat, len: nat) returns (run: Bytes)
      requires Valid() && block < shape.blocks && len <= BLOCK_BYTES
      modifies this`buf, this`held
      ensures Valid() && base + BLOCK_BYTES * block + len <= |flash.image|
      ensures run == Slice(flash.image, base + BLOCK_BYTES * block, len)
    {
      hide Cached, Slice;
      if block < held.0 || block >= held.1 {
        Refill(block);
      }
      assert Cached(flash.image, buf, base, held.0, block);
      ServeFromCache(flash.image, buf, base, held.0, block, len);
      var at := BLOCK_BYTES * (block - held.0);
      run := buf[at..at + len];
    }

    /** The next run of codes with its first id, skipping the gap. */
    method NextRun() returns (r: Option<(Bytes, nat)>)
      requires Valid()
      modifies this`nextBlock, this`buf, this`held
      ensures Valid()
      ensures match shape.Serve(old(nextBlock))
              case None => r == None && nextBlock >= old(nextBlock) && shape.Serve(nextBlock) == None
              case Some((c, take)) =>
                && nextBlock == c + 1
                && take * recordBytes <= BLOCK_BYTES && base + BLOCK_BYTES * c + take * recordBytes <= |flash.image|
                && r == Some((Slice(flash.image, base + BLOCK_BYTES * c, take * recordBytes), shape.FirstId(c)))
      decreases shape.blocks - nextBlock
    {
      hide Slice, Shape.Skips, Shape.Take, Shape.FirstId, Cached;
      var block := nextBlock;
      if block >= shape.blocks || shape.FirstId(block) >= shape.n {
        return None;
      }
      if shape.Skips(block) {
        nextBlock := nextBlock + 1;
        r := NextRun();
        return;
      }
      var take := shape.Take(block);
      TakeFits(shape, block, recordBytes);
      var run := ServeBlock(block, take * recordBytes);
      nextBlock := nextBlock + 1;
      r := Some((run, shape.FirstId(block)));
    }
  }

  /** The buffer's copy of block `b`, when its first cached block is `first`. */
  ghost predicate Cached(img: Bytes, buf: Bytes, base: nat, first: nat, b: nat) {
    && first <= b && BLOCK_BYTES * (b - first) + BLOCK_BYTES <= |buf| && base + BLOCK_BYTES * b + BLOCK_BYTES <= |img|
    && Slice(buf, BLOCK_BYTES * (b - first), BLOCK_BYTES) == Slice(img, base + BLOCK_BYTES * b, BLOCK_BYTES)
  }

  lemma FreshCache(img: Bytes, buf: Bytes, base: nat, first: nat, want: nat, data: Bytes)
    requires base + BLOCK_BYTES * (first + want) <= |img| && BLOCK_BYTES * want <= |buf|
    requires data == Slice(img, base + BLOCK_BYTES * first, BLOCK_BYTES * want)
    ensures forall b: nat | first <= b < first + want :: Cached(img, data + buf[BLOCK_BYTES * want..], base, first, b)
  {
    hide Slice;
    var now := data + buf[BLOCK_BYTES * want..];
    forall b: nat | first <= b < first + want
      ensures Cached(img, now, base, first, b)
    {
      var off := BLOCK_BYTES * (b - first);
      SliceOfSlice(img, base + BLOCK_BYTES * first, BLOCK_BYTES * want, off, BLOCK_BYTES);
      SliceOfPrefix(data, buf[BLOCK_BYTES * want..], off, BLOCK_BYTES);
    }
  }

  lemma SliceOfPrefix(a: Bytes, b: Bytes, at: nat, n: nat)
    requires at + n <= |a|
    ensures Slice(a + b, at, n) == Slice(a, at, n)
  {}

  lemma ServeFromCache(img: Bytes, buf: Bytes, base: nat, first: nat, b: nat, len: nat)
    requires Cached(img, buf, base, first, b) && len <= BLOCK_BYTES
    ensures buf[BLOCK_BYTES * (b - first)..BLOCK_BYTES * (b - first) + len] == Slice(img, base + BLOCK_BYTES * b, len)
  {
    SliceOfSlice(buf, BLOCK_BYTES * (b - first), BLOCK_BYTES, 0, len);
    SliceOfSlice(img, base + BLOCK_BYTES * b, BLOCK_BYTES, 0, len);
  }

  lemma TakeFits(s: Shape, b: nat, width: nat)
    requires s.per > 0 && s.per * width <= BLOCK_BYTES && s.FirstId(b) < s.n
    ensures s.Take(b) <= s.per && s.Take(b) * width <= BLOCK_BYTES
  {
    ProductOrder(s.Take(b), s.per, width);
  }

  // ---------------------------------------------------------------- a whole walk

  /** The codes a walk hands over: ids with the bytes flash holds for them. */
  datatype Walked = Walked(ids: seq<nat>, codes: seq<Bytes>)

  /** The records of one run, one per id. */
  function Cut(run: Bytes, width: nat, count: nat): (s: seq<Bytes>)
    requires |run| == count * width
    ensures |s| == count
  {
    seq(count, i requires 0 <= i < count => RunRecord(run, width, count, i))
  }

  function RunRecord(run: Bytes, width: nat, count: nat, i: nat): (s: Bytes)
    requires |run| == count * width && i < count
    ensures |s| == width
  {
    NonNegativeProduct(i, width);
    ProductOrder(i, count, width);
    Slice(run, i * width, width)
  }

  /** Record `i` of block `c`'s run is the record of its `i`th id. */
  lemma RunRecordIs(img: Bytes, a: Area, c: nat, take: nat, i: nat)
    requires a.per > 0 && a.per * a.width <= BLOCK_BYTES && Fits(a, c, |img|) && i < take <= a.per
    ensures take * a.width <= BLOCK_BYTES && Quotient(c * a.per + i, a.per) == c
    ensures 0 <= c * a.per
    ensures RunRecord(Slice(img, BlockAddr(a, c), take * a.width), a.width, take, i) == RecordAt(img, a, c * a.per + i)
  {
    hide Slice;
    ProductOrder(take, a.per, a.width);
    ProductOrder(i, take, a.width);
    NonNegativeProduct(c, a.per);
    QuotientIs(c * a.per + i, a.per, c);
    RecordInBlock(a, c * a.per + i, |img|);
    SliceOfSlice(img, BlockAddr(a, c), take * a.width, i * a.width, a.width);
  }

  /** Each id beside the bytes flash holds for it. */
  ghost predicate HeldBytes(img: Bytes, a: Area, w: Walked) {
    && |w.codes| == |w.ids| && a.per > 0 && a.per * a.width <= BLOCK_BYTES
    && forall i :: 0 <= i < |w.ids| ==> Fits(a, Quotient(w.ids[i], a.per), |img|) && w.codes[i] == RecordAt(img, a, w.ids[i])
  }

  lemma RunBytes(img: Bytes, a: Area, c: nat, take: nat, w: Walked)
    requires a.per > 0 && a.per * a.width <= BLOCK_BYTES && Fits(a, c, |img|) && take <= a.per && take * a.width <= BLOCK_BYTES
    requires HeldBytes(img, a, w) && 0 <= c * a.per
    ensures HeldBytes(img, a, Walked(w.ids + Range(c * a.per, take),
                                     w.codes + Cut(Slice(img, BlockAddr(a, c), take * a.width), a.width, take)))
  {
    hide Slice, RecordAt, RunRecord;
    var run := Slice(img, BlockAddr(a, c), take * a.width);
    forall i | 0 <= i < take
      ensures Quotient(Range(c * a.per, take)[i], a.per) == c
      ensures Cut(run, a.width, take)[i] == RecordAt(img, a, Range(c * a.per, take)[i])
    {
      RunRecordIs(img, a, c, take, i);
    }
  }

  /**
   One walk from the start: every held id once, rising, none of the gap, each with the bytes
   flash holds at that id. The chunk size the reader was made with does not appear.
   */
  method Walk(reader: PayloadReader, a: Area) returns (w: Walked)
    requires reader.Valid() && reader.shape.Valid()
    requires a.base == reader.base && a.per == reader.shape.per && a.width == reader.recordBytes > 0
    requires a.per * a.width <= BLOCK_BYTES
    requires forall b: nat | b < reader.shape.blocks :: Fits(a, b, |reader.flash.image|)
    modifies reader
    ensures reader.Valid()
    ensures w.ids == reader.shape.HeldIds(0) && HeldBytes(reader.flash.image, a, w)
  {
    hide PayloadReader.Valid, Shape.Valid, HeldBytes, Cut, Range, Slice;
    var s := reader.shape;
    reader.Rewind();
    WalkServesHeld(s, 0);
    FirstIdIs(s, 0);
    w := Walked([], []);
    NothingWalked(reader.flash.image, a);
    assert [] + s.ServedIds(0) == s.ServedIds(0);
    while true
      invariant reader.Valid() && reader.shape == s
      invariant w.ids + s.ServedIds(reader.nextBlock) == s.HeldIds(0)
      invariant HeldBytes(reader.flash.image, a, w)
      decreases s.blocks - reader.nextBlock
    {
      ghost var at := reader.nextBlock;
      var run := reader.NextRun();
      if run.None? {
        assert w.ids + [] == w.ids;
        break;
      }
      var count := |run.value.0| / a.width;
      ServedOne(reader.flash.image, s, a, w, at, run.value);
      w := Walked(w.ids + Range(run.value.1, count), w.codes + Cut(run.value.0, a.width, count));
    }
  }

  /** One run more of the walk. */
  lemma ServedOne(img: Bytes, s: Shape, a: Area, w: Walked, at: nat, run: (Bytes, nat))
    requires s.Serve(at).Some? && a.per == s.per && a.per > 0 && a.width > 0 && a.per * a.width <= BLOCK_BYTES
    requires forall b: nat | b < s.blocks :: Fits(a, b, |img|)
    requires HeldBytes(img, a, w)
    requires var c, take := s.Serve(at).value.0, s.Serve(at).value.1;
             && BlockAddr(a, c) + take * a.width <= |img|
             && run == (Slice(img, BlockAddr(a, c), take * a.width), s.FirstId(c))
    ensures var c, take, count := s.Serve(at).value.0, s.Serve(at).value.1, |run.0| / a.width;
            && count == take && |run.0| == count * a.width
            && w.ids + s.ServedIds(at) == w.ids + Range(run.1, count) + s.ServedIds(c + 1)
            && HeldBytes(img, a, Walked(w.ids + Range(run.1, count), w.codes + Cut(run.0, a.width, count)))
  {
    hide Slice, HeldBytes, Cut, Range, Fits;
    var c, take := s.Serve(at).value.0, s.Serve(at).value.1;
    QuotientIs(take * a.width, a.width, take);
    TakeFits(s, c, a.width);
    FirstIdIs(s, c);
    assert Fits(a, c, |img|);
    RunBytes(img, a, c, take, w);
    assert s.ServedIds(at) == Range(s.FirstId(c), take) + s.ServedIds(c + 1);
    assert w.ids + (Range(s.FirstId(c), take) + s.ServedIds(c + 1)) == w.ids + Range(s.FirstId(c), take) + s.ServedIds(c + 1);
  }

  lemma NothingWalked(img: Bytes, a: Area)
    requires a.per > 0 && a.per * a.width <= BLOCK_BYTES
    ensures HeldBytes(img, a, Walked([], []))
  {}

  /** The walk a manifest asks for. */
  function ShapeOf(m: Manifest): Shape
    requires Supported(m)
  {
    Shape(PayloadArea(m).per, CeilDiv(m.n, PayloadArea(m).per), m.n, m.Gap().0, m.Gap().1)
  }

  /** On a sound volume the walk is over blocks that are there, and its held ids are the manifest's. */
  lemma SoundShape(img: Bytes, m: Manifest, h: nat)
    requires Sound(img, m, h)
    ensures ShapeOf(m).Valid()
    ensures forall id: nat :: ShapeOf(m).Held(id) <==> m.Holds(id)
    ensures forall b: nat | b < ShapeOf(m).blocks :: Fits(PayloadArea(m), b, |img|)
  {
    hide HeldSealed, Installed, PayloadArea, RerankArea, Ratio, RatioTimes, Supported, UsedBelow, UnwrittenFrom,
      Laid, CeilDiv;
    AreasFit(m, |img|);
    LaidIsSupported(m, |img|);
    StoredCountsHeld(m);
    BelowCeil(h, m.n, PayloadArea(m).per);
  }

  // ---------------------------------------------------------------- the rerank reader

  /** What fetching record `id` yields: nothing past the end, else the whole blocks it lies in and their CRC words. */
  function Fetched(img: Bytes, base: nat, crcBase: nat, layout: RerankLayout, id: nat): Result<Option<Rerank.Guarded>, FlashError>
    requires layout.Valid() && layout.blockBytes == BLOCK_BYTES
  {
    if id >= layout.n then Ok(None)
    else
      BlocksOfCoverRecord(layout, id);
      var off, run := layout.OffsetOf(id).value, layout.BlocksOf(id).value;
      var count := run.1 - run.0;
      var at := base + BLOCK_BYTES * run.0;
      if at + BLOCK_BYTES * count > |img| then Err(OutOfBounds(at))
      else
        match CrcsFrom(img, crcBase, run.0, count)
        case Err(e) => Err(e)
        case Ok(crcs) =>
          Ok(Some(Rerank.Guarded(Slice(img, at, BLOCK_BYTES * count), off - BLOCK_BYTES * run.0, layout.recordBytes, crcs)))
  }

  /** The CRC words of blocks `[first, first + count)`. */
  function CrcsFrom(img: Bytes, crcBase: nat, first: nat, count: nat): (r: Result<seq<bv32>, FlashError>)
    ensures r.Ok? ==> |r.value| == count && forall i :: 0 <= i < count ==>
      && crcBase + CRC_BYTES * (first + i) + CRC_BYTES <= |img|
      && r.value[i] == CrcWord(Slice(img, crcBase + CRC_BYTES * (first + i), CRC_BYTES))
    decreases count
  {
    if count == 0 then Ok([])
    else
      match CrcsFrom(img, crcBase, first, count - 1)
      case Err(e) => Err(e)
      case Ok(crcs) =>
        var at := crcBase + CRC_BYTES * (first + count - 1);
        if at + CRC_BYTES > |img| then Err(OutOfBounds(at)) else Ok(crcs + [CrcWord(Slice(img, at, CRC_BYTES))])
  }

  /** Rerank records, fetched one candidate at a time into buffers of fixed size. */
  class RerankReader {
    const flash: WritableVolume
    const base: nat
    const crcBase: nat
    const layout: RerankLayout
    var blocks: Bytes
    var crcs: seq<bv32>

    /** One block more than a record spans. */
    predicate Valid()
      reads this
    {
      && layout.Valid() && layout.blockBytes == BLOCK_BYTES
      && |blocks| == BLOCK_BYTES * (layout.BlocksPerRecord() + 1) && |crcs| == layout.BlocksPerRecord() + 1
    }

    constructor (flash: WritableVolume, base: nat, crcBase: nat, layout: RerankLayout)
      requires layout.Valid() && layout.blockBytes == BLOCK_BYTES
      ensures Valid() && fresh(this)
      ensures this.flash == flash && this.base == base && this.crcBase == crcBase && this.layout == layout
    {
      this.flash := flash;
      this.base := base;
      this.crcBase := crcBase;
      this.layout := layout;
      this.blocks := seq(BLOCK_BYTES * (layout.BlocksPerRecord() + 1), _ => 0);
      this.crcs := seq(layout.BlocksPerRecord() + 1, _ => 0);
    }

    /** Fill the front of the block buffer from `at`. */
    method ReadBlocks(at: nat, bytes: nat) returns (r: Result<(), FlashError>)
      requires Valid() && bytes <= |blocks|
      modifies this`blocks
      ensures Valid()
      ensures if at + bytes <= |flash.image| then r == Ok(()) && blocks[..bytes] == Slice(flash.image, at, bytes)
              else r == Err(OutOfBounds(at))
    {
      hide Slice, CeilDiv;
      var read := flash.Read(at, bytes);
      if read.Err? {
        return Err(read.error);
      }
      blocks := read.value + blocks[bytes..];
      assert blocks[..bytes] == read.value;
      return Ok(());
    }

    /** The parallel array, one word per block. */
    method ReadCrcs(first: nat, count: nat) returns (r: Result<(), FlashError>)
      requires Valid() && count <= |crcs|
      modifies this`crcs
      ensures Valid()
      ensures match CrcsFrom(flash.image, crcBase, first, count)
              case Err(e) => r == Err(e)
              case Ok(words) => r == Ok(()) && crcs[..count] == words
    {
      hide Slice, CrcWord, CeilDiv;
      var i := 0;
      while i < count
        invariant 0 <= i <= count && Valid()
        invariant CrcsFrom(flash.image, crcBase, first, i) == Ok(crcs[..i])
      {
        var raw := flash.Read(crcBase + CRC_BYTES * (first + i), CRC_BYTES);
        if raw.Err? {
          FailsOn(flash.image, crcBase, first, i + 1, count, raw.error);
          return Err(raw.error);
        }
        crcs := crcs[i := CrcWord(raw.value)];
        assert crcs[..i + 1] == crcs[..i] + [crcs[i]];
        i := i + 1;
      }
      return Ok(());
    }

    method Record(id: nat) returns (r: Result<Option<Rerank.Guarded>, FlashError>)
      requires Valid()
      modifies this`blocks, this`crcs
      ensures Valid() && r == Fetched(flash.image, base, crcBase, layout, id)
    {
      hide Slice, CrcWord, CeilDiv, CrcsFrom;
      if id >= layout.n {
        return Ok(None);
      }
      BlocksOfCoverRecord(layout, id);
      SpanAtMost(layout, id);
      var off, run := layout.OffsetOf(id).value, layout.BlocksOf(id).value;
      var count := run.1 - run.0;
      var bytes := if BLOCK_BYTES * count < |blocks| then BLOCK_BYTES * count else |blocks|;
      var data := ReadBlocks(base + BLOCK_BYTES * run.0, bytes);
      if data.Err? {
        return Err(data.error);
      }
      var words := ReadCrcs(run.0, count);
      if words.Err? {
        return Err(words.error);
      }
      return Ok(Some(Rerank.Guarded(blocks[..bytes], off - BLOCK_BYTES * run.0, layout.recordBytes, crcs[..count])));
    }
  }

  lemma {:induction false} FailsOn(img: Bytes, crcBase: nat, first: nat, k: nat, count: nat, e: FlashError)
    requires k <= count && CrcsFrom(img, crcBase, first, k) == Err(e)
    ensures CrcsFrom(img, crcBase, first, count) == Err(e)
    decreases count
  {
    hide CrcWord, Slice;
    if k < count {
      FailsOn(img, crcBase, first, k, count - 1, e);
    }
  }

  /** A record never touches more blocks than the buffer holds. */
  lemma SpanAtMost(l: RerankLayout, id: nat)
    requires l.Valid() && l.blockBytes == BLOCK_BYTES && id < l.n
    ensures l.BlocksOf(id).value.1 - l.BlocksOf(id).value.0 <= l.BlocksPerRecord() + 1
  {
    hide SlotOffset;
    var off, run, c := l.OffsetOf(id).value, l.BlocksOf(id).value, l.BlocksPerRecord();
    DivMod(off, BLOCK_BYTES);
    DivMod(off + l.recordBytes - 1, BLOCK_BYTES);
  }

  /** Every containing block verifies, and the record inside them is the one flash holds at `id`. */
  predicate Served(img: Bytes, r: Area, id: nat, got: Result<Option<Rerank.Guarded>, FlashError>)
    requires r.per > 0
  {
    && got.Ok? && got.value.Some? && Rerank.Trusted(got.value.value, BLOCK_BYTES)
    && r.per * r.width <= BLOCK_BYTES && Fits(r, Quotient(id, r.per), |img|)
    && got.value.value.Record() == Some(RecordAt(img, r, id))
  }

  /** One guarded block certifies its record exactly when its CRC is the word beside it. */
  lemma OneBlockTrusted(img: Bytes, a: Area, b: nat, off: nat, len: nat)
    requires Fits(a, b, |img|) && off + len <= BLOCK_BYTES
    ensures Rerank.Trusted(Rerank.Guarded(BlockAt(img, a, b), off, len, [CrcWord(CrcAt(img, a, b))]), BLOCK_BYTES)
       <==> Sealed(img, a, b)
  {
    hide Crc.Crc32, CrcWord, CrcBytes, Slice;
    var g := Rerank.Guarded(BlockAt(img, a, b), off, len, [CrcWord(CrcAt(img, a, b))]);
    WordMatches(CrcAt(img, a, b), Crc.Crc32(BlockAt(img, a, b)));
    assert g.blocks[0 * BLOCK_BYTES..(0 + 1) * BLOCK_BYTES] == g.blocks;
    assert Rerank.BlockGood(g, BLOCK_BYTES, 0) <==> Sealed(img, a, b);
  }

  /** The one block a narrow record is fetched from. */
  lemma FetchedOneBlock(img: Bytes, a: Area, layout: RerankLayout, id: nat)
    requires layout.Valid() && layout.blockBytes == BLOCK_BYTES && layout.recordBytes == a.width <= BLOCK_BYTES
    requires id < layout.n && a.per > 0 && a.per == layout.RecordsPerBlock() && a.per * a.width <= BLOCK_BYTES
    requires Fits(a, Quotient(id, a.per), |img|)
    ensures (id % a.per) * a.width >= 0
    ensures var b := Quotient(id, a.per);
            Fetched(img, a.base, a.crc, layout, id)
            == Ok(Some(Rerank.Guarded(BlockAt(img, a, b), (id % a.per) * a.width, a.width, [CrcWord(CrcAt(img, a, b))])))
  {
    hide Slice, CrcWord, CeilDiv;
    var b := Quotient(id, a.per);
    NarrowRecordsUseOneBlock(layout, id);
    NonNegativeProduct(id % a.per, a.width);
    BlocksOfCoverRecord(layout, id);
    OneCrc(img, a, b);
    OffsetInBlock(layout, a, id);
  }

  lemma OneCrc(img: Bytes, a: Area, b: nat)
    requires Fits(a, b, |img|)
    ensures CrcsFrom(img, a.crc, b, 1) == Ok([CrcWord(CrcAt(img, a, b))])
  {
    hide Slice, CrcWord;
    assert CrcsFrom(img, a.crc, b, 0) == Ok([]);
    assert [] + [CrcWord(CrcAt(img, a, b))] == [CrcWord(CrcAt(img, a, b))];
  }

  lemma OffsetInBlock(layout: RerankLayout, a: Area, id: nat)
    requires layout.Valid() && layout.blockBytes == BLOCK_BYTES && layout.recordBytes == a.width <= BLOCK_BYTES
    requires id < layout.n && a.per > 0 && a.per == layout.RecordsPerBlock()
    ensures layout.OffsetOf(id) == Some(SlotOffset(id, a.per, a.width, BLOCK_BYTES))
    ensures SlotOffset(id, a.per, a.width, BLOCK_BYTES) == BLOCK_BYTES * Quotient(id, a.per) + (id % a.per) * a.width
  {}

  /** On a sound volume every held id's record is served and verifies. */
  lemma HeldRecordIsServed(img: Bytes, m: Manifest, h: nat, id: nat)
    requires Sound(img, m, h) && m.Holds(id)
    ensures var r := RerankArea(m);
            var layout := RerankLayout(RerankBytes(m), BLOCK_BYTES, m.n);
            && layout.Valid()
            && Served(img, r, id, Fetched(img, r.base, r.crc, layout, id))
  {
    hide CeilDiv, Installed, Frontier, Laid, Written, Fetched, Sealed, Ratio, RatioTimes, Served, RerankArea,
      PayloadArea, RerankBytes, Supported;
    LaidIsSupported(m, |img|);
    RerankLayoutIs(m);
    HeldBlockIsWritten(m, RerankArea(m).per, id);
    SealedRecordIsServed(img, RerankArea(m), RerankLayout(RerankBytes(m), BLOCK_BYTES, m.n), id);
  }

  lemma RerankLayoutIs(m: Manifest)
    requires Supported(m)
    ensures var r := RerankArea(m);
            var layout := RerankLayout(RerankBytes(m), BLOCK_BYTES, m.n);
            && layout.Valid() && layout.recordBytes == r.width <= BLOCK_BYTES
            && r.per == layout.RecordsPerBlock() && r.per * r.width == BLOCK_BYTES
  {
    WholeRatio(m);
  }

  lemma SealedRecordIsServed(img: Bytes, a: Area, layout: RerankLayout, id: nat)
    requires layout.Valid() && layout.blockBytes == BLOCK_BYTES && layout.recordBytes == a.width <= BLOCK_BYTES
    requires id < layout.n && a.per > 0 && a.per == layout.RecordsPerBlock() && a.per * a.width <= BLOCK_BYTES
    requires Fits(a, Quotient(id, a.per), |img|) && Sealed(img, a, Quotient(id, a.per))
    ensures Served(img, a, id, Fetched(img, a.base, a.crc, layout, id))
  {
    hide CrcWord, CeilDiv, Fetched, Rerank.Trusted, RecordAt, BlockAt, CrcAt, Sealed;
    FetchedOneBlock(img, a, layout, id);
    RecordIsSlice(img, a, id);
    OneBlockTrusted(img, a, Quotient(id, a.per), (id % a.per) * a.width, a.width);
  }

  // ---------------------------------------------------------------- a query on a sound volume

  /** Stage two's source over a volume: the rerank reader, its errors reduced to an address. */
  function SourceOn(img: Bytes, m: Manifest): Rerank.Source
    requires Supported(m)
  {
    RerankLayoutIs(m);
    (id: nat) => Fetch(img, m, id)
  }

  function Fetch(img: Bytes, m: Manifest, id: nat): Result<Option<Rerank.Guarded>, nat>
    requires Supported(m)
  {
    RerankLayoutIs(m);
    match Fetched(img, RerankArea(m).base, RerankArea(m).crc, RerankLayout(RerankBytes(m), BLOCK_BYTES, m.n), id)
    case Ok(g) => Ok(g)
    case Err(e) => Err(if e.OutOfBounds? then e.addr else 0)
  }

  /**
   On a sound volume a candidate of a held id is never dropped and never fails: every one is
   rescored against the bytes flash holds. So a drop counted on such ids is damage.
   */
  lemma {:induction false} SoundVolumeDropsNothing(img: Bytes, m: Manifest, h: nat, cands: seq<Candidate>, query: seq<int>)
    requires Sound(img, m, h) && forall i :: 0 <= i < |cands| ==> m.Holds(cands[i].id)
    ensures var kept := Rerank.Survivors(cands, SourceOn(img, m), BLOCK_BYTES, query);
            && Rerank.FirstError(cands, SourceOn(img, m)) == None
            && |kept| == |cands|
            && forall i :: 0 <= i < |cands| ==> Rescored(img, m, query, cands[i].id, kept[i])
    decreases |cands|
  {
    hide Sound, Rerank.Trusted, Rerank.ExactScore, RerankArea, PayloadArea, Supported, Rescored, Fetch;
    if cands != [] {
      var n := |cands| - 1;
      SoundVolumeDropsNothing(img, m, h, cands[..n], query);
      HeldIsRescored(img, m, h, query, cands[n].id);
    }
  }

  /** `c` is `id` with the exact score of the record flash holds for it. */
  predicate Rescored(img: Bytes, m: Manifest, query: seq<int>, id: nat, c: Candidate)
    requires Supported(m)
  {
    var r := RerankArea(m);
    && r.per * r.width <= BLOCK_BYTES && Fits(r, Quotient(id, r.per), |img|)
    && c == Candidate(Rerank.ExactScore(query, RecordAt(img, r, id)), id)
  }

  lemma HeldIsRescored(img: Bytes, m: Manifest, h: nat, query: seq<int>, id: nat)
    requires Sound(img, m, h) && m.Holds(id)
    ensures Supported(m) && Fetch(img, m, id).Ok?
    ensures var c := Rerank.Rescore(SourceOn(img, m), BLOCK_BYTES, query, id);
            c.Some? && Rescored(img, m, query, id, c.value)
  {
    hide Sound, Rerank.Trusted, Rerank.ExactScore, RerankArea, PayloadArea, Supported, Fetched, RecordAt, RerankBytes;
    HeldRecordIsServed(img, m, h, id);
    SoundIsSupported(img, m, h);
    RerankLayoutIs(m);
  }

  lemma SoundIsSupported(img: Bytes, m: Manifest, h: nat)
    requires Sound(img, m, h)
    ensures Supported(m)
  {}

  // ---------------------------------------------------------------- what damage a query notices

  /** A candidate below the end is rescored exactly when the block of its record is sealed. */
  lemma RescoredIffSealed(img: Bytes, m: Manifest, query: seq<int>, id: nat)
    requires Supported(m) && id < m.n && Fits(RerankArea(m), Quotient(id, RerankArea(m).per), |img|)
    ensures Rerank.Rescore(SourceOn(img, m), BLOCK_BYTES, query, id).Some?
       <==> Sealed(img, RerankArea(m), Quotient(id, RerankArea(m).per))
  {
    hide Supported, RerankArea, RerankBytes, Fetched, Sealed, Rerank.Trusted, Rerank.ExactScore, CrcWord, BlockAt, CrcAt;
    var a := RerankArea(m);
    RerankLayoutIs(m);
    FetchedOneBlock(img, a, RerankLayout(RerankBytes(m), BLOCK_BYTES, m.n), id);
    SlotFits(id % a.per, a.per, a.width, BLOCK_BYTES);
    OneBlockTrusted(img, a, Quotient(id, a.per), (id % a.per) * a.width, a.width);
  }

  /**
   Damage within 32 consecutive bits of a block that was sealed is always noticed: no candidate
   with a record in it survives, whatever the query.
   */
  lemma BurstIsDropped(was: Bytes, now: Bytes, m: Manifest, cands: seq<Candidate>, query: seq<int>, id: nat, p: nat)
    requires Supported(m) && id < m.n && |now| == |was|
    requires Fits(RerankArea(m), Quotient(id, RerankArea(m).per), |was|)
    requires var a, b := RerankArea(m), Quotient(id, RerankArea(m).per);
             && Sealed(was, a, b) && CrcAt(now, a, b) == CrcAt(was, a, b) && BlockAt(now, a, b) != BlockAt(was, a, b)
             && Crc.ErrorsWithin(Crc.XorBits(Crc.MessageBits(BlockAt(now, a, b)), Crc.MessageBits(BlockAt(was, a, b))), p)
    ensures Rerank.Rescore(SourceOn(now, m), BLOCK_BYTES, query, id) == None
    ensures forall c :: c in Rerank.Survivors(cands, SourceOn(now, m), BLOCK_BYTES, query) ==> c.id != id
  {
    hide Supported, RerankArea, Rerank.Rescore, Rerank.Survivors, Rerank.Intact, CrcBytes, Crc.Crc32, Crc.ErrorsWithin, Crc.MessageBits, BlockAt, CrcAt;
    var a, b := RerankArea(m), Quotient(id, RerankArea(m).per);
    Crc.BurstDetected(BlockAt(now, a, b), BlockAt(was, a, b), p);
    CrcBytesDiffer(Crc.Crc32(BlockAt(now, a, b)), Crc.Crc32(BlockAt(was, a, b)));
    RescoredIffSealed(now, m, query, id);
    DroppedFromAll(cands, SourceOn(now, m), query, id);
  }

  lemma CrcBytesDiffer(x: bv32, y: bv32)
    requires x != y
    ensures CrcBytes(x) != CrcBytes(y)
  {
    hide CrcBytes, CrcWord;
    CrcRoundTrip(x);
    CrcRoundTrip(y);
  }

  lemma DroppedFromAll(cands: seq<Candidate>, src: Rerank.Source, query: seq<int>, id: nat)
    requires Rerank.Rescore(src, BLOCK_BYTES, query, id) == None
    ensures forall c :: c in Rerank.Survivors(cands, src, BLOCK_BYTES, query) ==> c.id != id
  {
    hide Rerank.Rescore, Rerank.Survivors, Rerank.Intact;
    Rerank.RescoredIffIntact(src, BLOCK_BYTES, query, id);
    forall c | c in Rerank.Survivors(cands, src, BLOCK_BYTES, query)
      ensures c.id != id
    {
      Rerank.SurvivorsExactly(cands, src, BLOCK_BYTES, query, c);
    }
  }
}
