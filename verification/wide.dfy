/**
 Records wider than a block, as the builder writes them and as the readers look for them.

 The layout gives every such record blocks of its own. The builder starts each record one block
 after the last, so each overwrites the end of the one before, and then certifies what is there.
 With one vector the two agree; with two or more the first record reads back with the second's
 bytes in it, from blocks whose CRCs match.
 */
module Wide {
  import opened Options
  import opened Flash
  import opened Codec
  import opened Region
  import opened Manifests
  import opened Arith
  import opened Layouts
  import opened Volumes
  import opened Emit
  import opened Source
  import Crc
  import Rerank

  /** Wide records to fill an area of `blocks` blocks, as many to a record as it needs. */
  predicate WideFill(a: Area, records: Bytes, n: nat, blocks: nat, size: nat) {
    && a.per == 1 && a.width > BLOCK_BYTES
    && |records| == n * a.width && blocks == n * CeilDiv(a.width, BLOCK_BYTES)
    && a.base + BLOCK_BYTES * blocks <= a.crc && a.crc + CRC_BYTES * blocks <= size
  }

  // ---------------------------------------------------------------- one block of the fill

  /** Two blocks and more to a record. */
  lemma SpansBlocks(width: nat)
    requires width > BLOCK_BYTES
    ensures CeilDiv(width, BLOCK_BYTES) >= 2 && width <= BLOCK_BYTES * CeilDiv(width, BLOCK_BYTES)
  {}

  /** A record written one block after the last still ends inside the region. */
  lemma RecordEndsInside(n: nat, c: nat, b: nat)
    requires b < n && c >= 2
    ensures b + c <= n * c
  {
    ProductOrder(b + 1, n, c);
    Distribute(b, 1, c);
    ProductOrder(1, c, b);
  }

  lemma WideEnd(a: Area, records: Bytes, n: nat, blocks: nat, size: nat, b: nat)
    requires WideFill(a, records, n, blocks, size) && b < n
    ensures b < blocks && BlockAddr(a, b) + a.width <= a.base + BLOCK_BYTES * blocks
    ensures HasRecord(records, a.width, b)
  {
    hide CeilDiv;
    SpansBlocks(a.width);
    RecordEndsInside(n, CeilDiv(a.width, BLOCK_BYTES), b);
    RecordInRange(records, a.width, n, b);
  }

  /** The image with record `b` written at block `b`, if there is one. */
  function WithRecord(img: Bytes, a: Area, records: Bytes, n: nat, blocks: nat, b: nat): (r: Bytes)
    requires WideFill(a, records, n, blocks, |img|)
    ensures |r| == |img|
  {
    if b < n then
      WideEnd(a, records, n, blocks, |img|, b);
      Write(img, BlockAddr(a, b), RecordOf(records, a.width, b))
    else img
  }

  lemma WideSlots(img: Bytes, a: Area, records: Bytes, n: nat, blocks: nat, b: nat)
    requires WideFill(a, records, n, blocks, |img|)
    ensures FillSlots(img, a, records, b, 0) == WithRecord(img, a, records, n, blocks, b)
  {
    hide CeilDiv, Write, RecordOf;
    RecordInRange(records, a.width, n, b);
    assert IdAt(a, b, 0) == b && SlotAddr(a, b, 0) == BlockAddr(a, b);
    if b < n {
      WideEnd(a, records, n, blocks, |img|, b);
    }
  }

  /** Block `b` of the fill: that record, then the CRC of what the block holds by then. */
  lemma WideBlock(img: Bytes, a: Area, records: Bytes, n: nat, blocks: nat, b: nat)
    requires WideFill(a, records, n, blocks, |img|) && b < blocks
    ensures var mid := WithRecord(img, a, records, n, blocks, b);
            FillBlock(img, a, records, b)
            == Write(mid, CrcAddr(a, b), CrcBytes(Crc.Crc32(Slice(mid, BlockAddr(a, b), BLOCK_BYTES))))
  {
    hide CeilDiv, Write, FillSlots, WithRecord, CrcBytes, Crc.Crc32, Slice;
    WideSlots(img, a, records, n, blocks, b);
  }

  /** What lies before the block, or before its CRC word in the CRC array, is kept. */
  lemma WideBlockKeeps(img: Bytes, a: Area, records: Bytes, n: nat, blocks: nat, b: nat, x: nat, len: nat)
    requires WideFill(a, records, n, blocks, |img|) && b < blocks
    requires x + len <= BlockAddr(a, b) || (b >= n && x + len <= a.crc) || (a.crc <= x && x + len <= CrcAddr(a, b))
    ensures Slice(FillBlock(img, a, records, b), x, len) == Slice(img, x, len)
  {
    hide CeilDiv, Write, CrcBytes, Crc.Crc32, Slice, FillBlock, RecordOf;
    WideBlock(img, a, records, n, blocks, b);
    var mid := WithRecord(img, a, records, n, blocks, b);
    WriteElsewhere(mid, CrcAddr(a, b), CrcBytes(Crc.Crc32(Slice(mid, BlockAddr(a, b), BLOCK_BYTES))), x, len);
    if b < n {
      WideEnd(a, records, n, blocks, |img|, b);
      WriteElsewhere(img, BlockAddr(a, b), RecordOf(records, a.width, b), x, len);
    }
  }

  /** The block then starts as its record does, under a CRC word that matches. */
  lemma WideBlockHolds(img: Bytes, a: Area, records: Bytes, n: nat, blocks: nat, b: nat)
    requires WideFill(a, records, n, blocks, |img|) && b < blocks
    ensures var now := FillBlock(img, a, records, b);
            && Slice(now, CrcAddr(a, b), CRC_BYTES) == CrcBytes(Crc.Crc32(Slice(now, BlockAddr(a, b), BLOCK_BYTES)))
            && (b < n ==> BlockAddr(a, b) + a.width <= |img| && HasRecord(records, a.width, b)
                          && Slice(now, BlockAddr(a, b), a.width) == RecordOf(records, a.width, b))
  {
    hide CeilDiv, Write, CrcBytes, Crc.Crc32, Slice, FillBlock, RecordOf;
    WideBlock(img, a, records, n, blocks, b);
    var mid := WithRecord(img, a, records, n, blocks, b);
    var crc := CrcBytes(Crc.Crc32(Slice(mid, BlockAddr(a, b), BLOCK_BYTES)));
    WriteThenRead(mid, CrcAddr(a, b), crc);
    WriteElsewhere(mid, CrcAddr(a, b), crc, BlockAddr(a, b), BLOCK_BYTES);
    if b < n {
      WideEnd(a, records, n, blocks, |img|, b);
      WriteThenRead(img, BlockAddr(a, b), RecordOf(records, a.width, b));
      WriteElsewhere(mid, CrcAddr(a, b), crc, BlockAddr(a, b), a.width);
    }
  }

  // ---------------------------------------------------------------- the whole fill

  lemma {:induction false} WideFillKeeps(img: Bytes, a: Area, records: Bytes, n: nat, blocks: nat, b: nat, x: nat, len: nat)
    requires WideFill(a, records, n, blocks, |img|) && b <= blocks && x + len <= |img|
    requires x + len <= BlockAddr(a, b) || (b >= n && x + len <= a.crc) || (a.crc <= x && x + len <= CrcAddr(a, b))
    ensures Slice(FillBlocks(img, a, records, b, blocks), x, len) == Slice(img, x, len)
    decreases blocks - b
  {
    hide WideFill, Slice, FillBlock;
    if b < blocks {
      WideBlockKeeps(img, a, records, n, blocks, b, x, len);
      WideFillKeeps(FillBlock(img, a, records, b), a, records, n, blocks, b + 1, x, len);
    }
  }

  /** At the end every block carries its CRC, and the first block of each record's place starts as the record does. */
  lemma {:induction false} WideFillHolds(img: Bytes, a: Area, records: Bytes, n: nat, blocks: nat, b: nat, c: nat)
    requires WideFill(a, records, n, blocks, |img|) && b <= c < blocks
    ensures var now := FillBlocks(img, a, records, b, blocks);
            && Slice(now, CrcAddr(a, c), CRC_BYTES) == CrcBytes(Crc.Crc32(Slice(now, BlockAddr(a, c), BLOCK_BYTES)))
            && (c < n ==> HasRecord(records, a.width, c)
                          && Slice(now, BlockAddr(a, c), BLOCK_BYTES) == RecordOf(records, a.width, c)[..BLOCK_BYTES])
    decreases blocks - b
  {
    hide Slice, FillBlock, CrcBytes, Crc.Crc32, CeilDiv, RecordOf;
    var next := FillBlock(img, a, records, b);
    if b == c {
      WideBlockHolds(img, a, records, n, blocks, b);
      WideFillKeeps(next, a, records, n, blocks, b + 1, CrcAddr(a, c), CRC_BYTES);
      WideFillKeeps(next, a, records, n, blocks, b + 1, BlockAddr(a, c), BLOCK_BYTES);
      if c < n {
        PrefixOfSlice(next, BlockAddr(a, c), a.width);
      }
    } else {
      WideFillHolds(next, a, records, n, blocks, b + 1, c);
    }
  }

  lemma PrefixOfSlice(img: Bytes, at: nat, len: nat)
    requires at + len <= |img| && BLOCK_BYTES <= len
    ensures Slice(img, at, BLOCK_BYTES) == Slice(img, at, len)[..BLOCK_BYTES]
  {}

  /** A single record stays whole. */
  lemma OneRecordStays(img: Bytes, a: Area, records: Bytes, blocks: nat)
    requires WideFill(a, records, 1, blocks, |img|)
    ensures a.base + a.width <= |img| && HasRecord(records, a.width, 0)
    ensures Slice(FillBlocks(img, a, records, 0, blocks), a.base, a.width) == RecordOf(records, a.width, 0)
  {
    hide Slice, FillBlock, CrcBytes, Crc.Crc32, CeilDiv, RecordOf;
    WideEnd(a, records, 1, blocks, |img|, 0);
    WideBlockHolds(img, a, records, 1, blocks, 0);
    WideFillKeeps(FillBlock(img, a, records, 0), a, records, 1, blocks, 1, a.base, a.width);
  }

  // ---------------------------------------------------------------- the image

  /** An image of wide records, under 4 GiB. */
  predicate WideImage(image: Image) {
    && image.Valid() && image.d > BLOCK_BYTES && |image.rerank| == image.n * image.d
    && BaseOf(image.Extents(), REGION_COUNT) < U32_LIMIT
  }

  lemma BlocksHeld(x: nat)
    ensures x * BLOCK_BYTES <= Sectors(x * BLOCK_BYTES) && x * CRC_BYTES <= Sectors(x * CRC_BYTES)
  {}

  /** The builder's rerank area takes the fill, past the slots. */
  lemma WideAreaIs(image: Image)
    requires WideImage(image)
    ensures WideFill(RerankOf(image), image.rerank, image.n, BuiltRerank(image), |Emitted(image)|)
    ensures RerankOf(image).base >= MANIFEST_RESERVED_BYTES && RerankOf(image).width == image.d
  {
    hide BaseOf, TableOf, Emitted, CeilDiv, Image.AppendHead;
    var e := image.Extents();
    RegionExact(e, 4);
    RegionExact(e, 5);
    BasesRise(e, 4, 5);
    var c := CeilDiv(image.d, BLOCK_BYTES);
    ProductOrder(image.n, image.Capacity(), c);
    BlocksHeld(image.RerankBlocks());
    QuotientIs(BLOCK_BYTES, image.d, 0);
  }

  /** The image before the manifest. */
  ghost function BeforeManifest(image: Image): Bytes
    requires image.Valid()
  {
    FillBlocks(FillBlocks(WithCodebook(image), PayloadOf(image), image.codes, 0, BuiltPayload(image)),
               RerankOf(image), image.rerank, 0, BuiltRerank(image))
  }

  /** Past the slots, what the rerank fill left is what the image holds. */
  lemma PastTheManifest(image: Image, x: nat, len: nat)
    requires WideImage(image) && MANIFEST_RESERVED_BYTES <= x && x + len <= |Emitted(image)|
    ensures |BeforeManifest(image)| == |Emitted(image)| && Slice(Emitted(image), x, len) == Slice(BeforeManifest(image), x, len)
  {
    hide FillBlocks, WithCodebook, PayloadOf, RerankOf, BuiltPayload, BuiltRerank, Encoded, BaseOf, Image.Extents, Slice, Write;
    WriteElsewhere(BeforeManifest(image), SLOT_A, Encoded(ManifestOf(image)), x, len);
  }

  /** Where the layout looks for record `id`, the image has it. */
  predicate RecordRead(image: Image, id: nat)
    requires image.Valid() && image.d > BLOCK_BYTES && id < image.n
  {
    var at := RerankOf(image).base + RerankLayout(image.d, BLOCK_BYTES, image.n).OffsetOf(id).value;
    at + image.d <= |Emitted(image)| && HasRecord(image.rerank, image.d, id)
    && Slice(Emitted(image), at, image.d) == RecordOf(image.rerank, image.d, id)
  }

  predicate AllRead(image: Image)
    requires image.Valid() && image.d > BLOCK_BYTES
  {
    forall id: nat | id < image.n :: RecordRead(image, id)
  }

  /** With one vector the record is where the layout says. */
  lemma OneReads(image: Image)
    requires WideImage(image) && image.n == 1
    ensures RecordRead(image, 0)
  {
    hide Emitted, FillBlocks, Slice, RerankOf, BuiltRerank, CeilDiv, Image.Extents, BaseOf;
    WideAreaIs(image);
    var a := RerankOf(image);
    var was := FillBlocks(WithCodebook(image), PayloadOf(image), image.codes, 0, BuiltPayload(image));
    OneRecordStays(was, a, image.rerank, BuiltRerank(image));
    PastTheManifest(image, a.base, image.d);
  }

  /** With more, the second record's first block lies inside the first's place. */
  lemma SecondInFirst(image: Image)
    requires WideImage(image) && image.n >= 2
    ensures RerankOf(image).base + image.d <= |Emitted(image)| && HasRecord(image.rerank, image.d, 1)
    ensures Slice(Emitted(image), RerankOf(image).base, image.d)[BLOCK_BYTES] == RecordOf(image.rerank, image.d, 1)[0]
  {
    hide Emitted, FillBlocks, RerankOf, BuiltRerank, CeilDiv, Image.Extents, BaseOf;
    WideAreaIs(image);
    var a := RerankOf(image);
    var was := FillBlocks(WithCodebook(image), PayloadOf(image), image.codes, 0, BuiltPayload(image));
    WideEnd(a, image.rerank, image.n, BuiltRerank(image), |was|, 0);
    WideEnd(a, image.rerank, image.n, BuiltRerank(image), |was|, 1);
    WideFillHolds(was, a, image.rerank, image.n, BuiltRerank(image), 0, 1);
    PastTheManifest(image, BlockAddr(a, 1), BLOCK_BYTES);
    ByteInSlice(Emitted(image), a.base, image.d);
  }

  lemma ByteInSlice(img: Bytes, at: nat, len: nat)
    requires at + len <= |img| && len > BLOCK_BYTES && at + 2 * BLOCK_BYTES <= |img|
    ensures Slice(img, at, len)[BLOCK_BYTES] == Slice(img, at + BLOCK_BYTES, BLOCK_BYTES)[0]
  {}

  /** Zeros for the first record, ones for the rest. */
  function ZeroThenOnes(n: nat, d: nat): (s: Bytes)
    ensures 0 <= n * d && |s| == n * d && forall i :: 0 <= i < |s| ==> s[i] == if i < d then 0 else 1
  {
    NonNegativeProduct(n, d);
    seq(n * d, i => if i < d then 0 else 1)
  }

  lemma FirstIsLost(image: Image)
    requires WideImage(image) && image.n >= 2 && image.rerank == ZeroThenOnes(image.n, image.d)
    ensures !RecordRead(image, 0)
  {
    hide Emitted, RerankOf, BuiltRerank, CeilDiv, Image.Extents, BaseOf, Slice;
    SecondInFirst(image);
    assert RecordOf(image.rerank, image.d, 1)[0] == 1;
    if HasRecord(image.rerank, image.d, 0) {
      assert RecordOf(image.rerank, image.d, 0)[BLOCK_BYTES] == 0;
    }
  }

  /** Whatever its records, a build of wide records reads back exactly when it has no more than one. */
  lemma WideReadsBackIff(image: Image)
    requires WideImage(image)
    ensures (forall records: Bytes | |records| == image.n * image.d :: AllRead(image.(rerank := records))) <==> image.n <= 1
  {
    hide RecordRead, Image.Extents, BaseOf;
    if image.n <= 1 {
      forall records: Bytes | |records| == image.n * image.d
        ensures AllRead(image.(rerank := records))
      {
        SameShape(image, records);
        if image.n == 1 {
          OneReads(image.(rerank := records));
        }
      }
    } else {
      var records := ZeroThenOnes(image.n, image.d);
      SameShape(image, records);
      FirstIsLost(image.(rerank := records));
      assert !AllRead(image.(rerank := records));
    }
  }

  lemma SameShape(image: Image, records: Bytes)
    requires WideImage(image) && |records| == image.n * image.d
    ensures WideImage(image.(rerank := records))
  {
    hide BaseOf;
  }

  // ---------------------------------------------------------------- what a query makes of it

  /** The reader serves what lies at the region's first byte as record zero, and it verifies. */
  predicate ServesTrusted(img: Bytes, base: nat, crcBase: nat, d: nat, n: nat)
    requires d > 0 && base + d <= |img|
  {
    var got := Fetched(img, base, crcBase, RerankLayout(d, BLOCK_BYTES, n), 0);
    && got.Ok? && got.value.Some? && Rerank.Trusted(got.value.value, BLOCK_BYTES)
    && got.value.value.Record() == Some(Slice(img, base, d))
  }

  /**
   The reader serves those bytes all the same: every block of the first record's place carries
   its CRC, so the record is trusted, and its tail is the second record's.
   */
  lemma FirstIsTrusted(image: Image)
    requires WideImage(image) && image.n >= 2
    ensures var a := RerankOf(image);
            && a.base + image.d <= |Emitted(image)|
            && ServesTrusted(Emitted(image), a.base, a.crc, image.d, image.n)
  {
    hide Emitted, RerankOf, BuiltRerank, Image.Extents, BaseOf, Slice, CeilDiv, Rerank.Trusted, CrcWord, CrcsFrom;
    var a, img, c := RerankOf(image), Emitted(image), CeilDiv(image.d, BLOCK_BYTES);
    WideAreaIs(image);
    SpansBlocks(image.d);
    ProductOrder(1, image.n, c);
    FirstSpan(image.d, image.n);
    var crcs := CrcsThere(img, a.crc, c);
    forall i | 0 <= i < c
      ensures Slice(img, CrcAddr(a, i), CRC_BYTES) == CrcBytes(Crc.Crc32(Slice(img, BlockAddr(a, i), BLOCK_BYTES)))
    {
      FirstSealed(image, i);
    }
    RunTrusted(img, a, c, image.d, crcs);
  }

  lemma FirstSpan(d: nat, n: nat)
    requires d > BLOCK_BYTES && n > 0
    ensures var l := RerankLayout(d, BLOCK_BYTES, n);
            l.OffsetOf(0) == Some(0) && l.BlocksOf(0) == Some((0, CeilDiv(d, BLOCK_BYTES)))
  {
    var c := CeilDiv(d, BLOCK_BYTES);
    assert 0 * c * BLOCK_BYTES == 0;
    QuotientIs(d - 1, BLOCK_BYTES, c - 1);
  }

  lemma FirstSealed(image: Image, i: nat)
    requires WideImage(image) && image.n >= 2 && i < CeilDiv(image.d, BLOCK_BYTES)
    ensures var a, img := RerankOf(image), Emitted(image);
            && BlockAddr(a, i) + BLOCK_BYTES <= |img| && CrcAddr(a, i) + CRC_BYTES <= |img|
            && Slice(img, CrcAddr(a, i), CRC_BYTES) == CrcBytes(Crc.Crc32(Slice(img, BlockAddr(a, i), BLOCK_BYTES)))
  {
    hide Emitted, FillBlocks, RerankOf, BuiltRerank, CeilDiv, Image.Extents, BaseOf, Slice, CrcBytes, Crc.Crc32;
    WideAreaIs(image);
    var a, c := RerankOf(image), CeilDiv(image.d, BLOCK_BYTES);
    ProductOrder(1, image.n, c);
    var was := FillBlocks(WithCodebook(image), PayloadOf(image), image.codes, 0, BuiltPayload(image));
    WideFillHolds(was, a, image.rerank, image.n, BuiltRerank(image), 0, i);
    PastTheManifest(image, BlockAddr(a, i), BLOCK_BYTES);
    PastTheManifest(image, CrcAddr(a, i), CRC_BYTES);
  }

  /** The CRC words of the first `count` blocks, when the flash has them. */
  lemma {:induction false} CrcsThere(img: Bytes, crcBase: nat, count: nat) returns (crcs: seq<bv32>)
    requires crcBase + CRC_BYTES * count <= |img|
    ensures CrcsFrom(img, crcBase, 0, count) == Ok(crcs) && |crcs| == count
    ensures forall i :: 0 <= i < count ==> crcs[i] == CrcWord(Slice(img, crcBase + CRC_BYTES * i, CRC_BYTES))
  {
    hide Slice, CrcWord;
    if count == 0 {
      crcs := [];
    } else {
      var rest := CrcsThere(img, crcBase, count - 1);
      crcs := rest + [CrcWord(Slice(img, crcBase + CRC_BYTES * (count - 1), CRC_BYTES))];
    }
  }

  /** A run of blocks that all carry their CRCs certifies what starts at its first byte. */
  lemma RunTrusted(img: Bytes, a: Area, c: nat, len: nat, crcs: seq<bv32>)
    requires a.base + BLOCK_BYTES * c <= |img| && a.crc + CRC_BYTES * c <= |img| && |crcs| == c && len <= BLOCK_BYTES * c
    requires forall i :: 0 <= i < c ==> crcs[i] == CrcWord(Slice(img, a.crc + CRC_BYTES * i, CRC_BYTES))
    requires forall i: nat | i < c ::
               Slice(img, CrcAddr(a, i), CRC_BYTES) == CrcBytes(Crc.Crc32(Slice(img, BlockAddr(a, i), BLOCK_BYTES)))
    ensures var g := Rerank.Guarded(Slice(img, a.base, BLOCK_BYTES * c), 0, len, crcs);
            Rerank.Trusted(g, BLOCK_BYTES) && g.Record() == Some(Slice(img, a.base, len))
  {
    hide Slice, CrcWord, CrcBytes, Crc.Crc32;
    var g := Rerank.Guarded(Slice(img, a.base, BLOCK_BYTES * c), 0, len, crcs);
    SliceOfSlice(img, a.base, BLOCK_BYTES * c, 0, len);
    SliceIs(g.blocks, 0, len);
    forall i | 0 <= i < c
      ensures Rerank.BlockGood(g, BLOCK_BYTES, i)
    {
      SliceOfSlice(img, a.base, BLOCK_BYTES * c, i * BLOCK_BYTES, BLOCK_BYTES);
      SliceIs(g.blocks, i * BLOCK_BYTES, BLOCK_BYTES);
      CrcRoundTrip(Crc.Crc32(Slice(img, BlockAddr(a, i), BLOCK_BYTES)));
    }
  }

  lemma SliceIs(img: Bytes, at: nat, len: nat)
    requires at + len <= |img|
    ensures img[at..at + len] == Slice(img, at, len)
  {}
}
