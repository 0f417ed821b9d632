/**
 The engine's append step: finding the head by its erased state, and programming whole blocks.

 Each block is two operations, its data and then its CRC word. A run of blocks is the list
 of those operations; what the list does to the image is stated block by block, both when
 it runs to the end and when a crash cuts it, where at most one block is left in doubt.
 */
module BlockAppend {
  import opened Options
  import opened Flash
  import opened Codec
  import opened Volumes
  import Crc

  datatype EngineError = OutputTooSmall(found: nat, expected: nat) | ReadFailed(addr: nat) | ProgramFailed(addr: nat)

  // ---------------------------------------------------------------- find_head

  /** The first erased block from `b` on, or the first read past the end of the flash. */
  function HeadFrom(img: Bytes, base: nat, blocks: nat, blockBytes: nat, b: nat): Result<Option<nat>, EngineError>
    requires b <= blocks
    decreases blocks - b
  {
    var addr := base + b * blockBytes;
    if b == blocks then Ok(None)
    else if addr + blockBytes > |img| then Err(ReadFailed(addr))
    else if IsErased(Slice(img, addr, blockBytes)) then Ok(Some(b))
    else HeadFrom(img, base, blocks, blockBytes, b + 1)
  }

  /** The search stops at the least erased block, wherever it starts below it. */
  lemma {:induction false} HeadIsLeastErased(img: Bytes, a: Area, h: nat, from: nat)
    requires from <= h <= a.blocks && a.base + BLOCK_BYTES * a.blocks <= |img| && a.crc + CRC_BYTES * a.blocks <= |img|
    requires forall b: nat | from <= b < h :: !IsErased(BlockAt(img, a, b))
    requires h < a.blocks ==> IsErased(BlockAt(img, a, h))
    ensures HeadFrom(img, a.base, a.blocks, BLOCK_BYTES, from) == Ok(if h < a.blocks then Some(h) else None)
    decreases h - from
  {
    hide IsErased, Slice;
    if from < h {
      HeadIsLeastErased(img, a, h, from + 1);
    }
    if from < a.blocks {
      assert BlockAt(img, a, from) == Slice(img, a.base + from * BLOCK_BYTES, BLOCK_BYTES);
    }
  }

  method FindHead(flash: WritableVolume, base: nat, blocks: nat, blockBytes: nat, probe: nat)
    returns (r: Result<Option<nat>, EngineError>)
    ensures r == if probe < blockBytes then Err(OutputTooSmall(probe, blockBytes))
                 else HeadFrom(flash.image, base, blocks, blockBytes, 0)
  {
    hide IsErased, Slice;
    if probe < blockBytes {
      return Err(OutputTooSmall(probe, blockBytes));
    }
    var b := 0;
    while b < blocks
      invariant 0 <= b <= blocks
      invariant HeadFrom(flash.image, base, blocks, blockBytes, 0) == HeadFrom(flash.image, base, blocks, blockBytes, b)
    {
      var read := flash.Read(base + b * blockBytes, blockBytes);
      if read.Err? {
        return Err(ReadFailed(base + b * blockBytes));
      }
      if IsErased(read.value) {
        return Ok(Some(b));
      }
      b := b + 1;
    }
    return Ok(None);
  }

  // ---------------------------------------------------------------- append_block

  function Chunk(data: Bytes, i: nat): (s: Bytes)
    requires BLOCK_BYTES * (i + 1) <= |data|
    ensures |s| == BLOCK_BYTES
  {
    data[BLOCK_BYTES * i..BLOCK_BYTES * i + BLOCK_BYTES]
  }

  function DataOp(a: Area, at: nat, block: Bytes): Op {
    Program(BlockAddr(a, at), block)
  }

  function CrcOp(a: Area, at: nat, block: Bytes): Op {
    Program(CrcAddr(a, at), CrcBytes(Crc.Crc32(block)))
  }

  /** The block first, then the CRC word that certifies it. */
  method AppendBlock(flash: WritableVolume, a: Area, at: nat, blockBytes: nat, data: Bytes)
    returns (r: Result<(), EngineError>, ghost done: nat)
    requires blockBytes == BLOCK_BYTES
    modifies flash
    ensures var ops := if |data| == blockBytes then [DataOp(a, at, data), CrcOp(a, at, data)] else [];
            && Ran(old(flash.image), ops, done, flash.image) && flash.log == old(flash.log) + ops[..done]
            && (r.Ok? <==> |data| == blockBytes && done == |ops|)
  {
    hide Legal, Apply, CrcBytes, Crc.Crc32;
    if |data| != blockBytes {
      return Err(OutputTooSmall(|data|, blockBytes)), 0;
    }
    ghost var was := flash.image;
    var first := flash.Program(BlockAddr(a, at), data);
    if first.Err? {
      return Err(ProgramFailed(BlockAddr(a, at))), 0;
    }
    OneStep(was, DataOp(a, at, data), flash.image);
    assert [DataOp(a, at, data), CrcOp(a, at, data)][..1] == [DataOp(a, at, data)];
    ghost var mid := flash.image;
    var crc := Crc.Crc32(data);
    var second := flash.Program(CrcAddr(a, at), CrcBytes(crc));
    if second.Err? {
      return Err(ProgramFailed(CrcAddr(a, at))), 1;
    }
    assert [DataOp(a, at, data), CrcOp(a, at, data)][..2] == [DataOp(a, at, data), CrcOp(a, at, data)];
    TwoSteps(was, DataOp(a, at, data), mid, CrcOp(a, at, data), flash.image);
    return Ok(()), 2;
  }

  lemma OneStep(img: Bytes, x: Op, mid: Bytes)
    requires Legal(img, x) && mid == Apply(img, x)
    ensures AllLegal(img, [x]) && ApplyAll(img, [x]) == mid
  {
    hide Apply;
    assert [x][..0] == [];
    assert ApplyAll(img, [x]) == Apply(ApplyAll(img, []), x);
  }

  lemma TwoSteps(img: Bytes, x: Op, mid: Bytes, y: Op, end: Bytes)
    requires Legal(img, x) && mid == Apply(img, x) && Legal(mid, y) && end == Apply(mid, y)
    ensures AllLegal(img, [x, y]) && ApplyAll(img, [x, y]) == end
  {
    hide Apply, Legal, ApplyAll;
    OneStep(img, x, mid);
    OneStep(mid, y, end);
    assert [x] + [y] == [x, y];
    LegalConcat(img, [x], [y]);
  }

  // ---------------------------------------------------------------- a run of blocks

  /** Blocks `[at, at + k)` are inside the area, and the area's two extents are inside the flash, apart. */
  predicate Placed(a: Area, at: nat, k: nat, size: nat) {
    && at + k <= a.blocks
    && a.base + BLOCK_BYTES * a.blocks <= size && a.crc + CRC_BYTES * a.blocks <= size
    && Apart(a.base, BLOCK_BYTES * a.blocks, a.crc, CRC_BYTES * a.blocks)
  }

  /** Operation `i` of a run: each block is followed by its CRC word. */
  function BlockOp(a: Area, at: nat, data: Bytes, i: nat): Op
    requires BLOCK_BYTES * (i / 2 + 1) <= |data|
  {
    if i % 2 == 0 then DataOp(a, at + i / 2, Chunk(data, i / 2)) else CrcOp(a, at + i / 2, Chunk(data, i / 2))
  }

  function BlockOps(a: Area, at: nat, data: Bytes, k: nat): (ops: seq<Op>)
    requires |data| == BLOCK_BYTES * k
    ensures |ops| == 2 * k
  {
    seq(2 * k, i requires 0 <= i < 2 * k => BlockOp(a, at, data, i))
  }

  lemma BlockOpsInBounds(a: Area, at: nat, data: Bytes, k: nat, size: nat)
    requires |data| == BLOCK_BYTES * k && Placed(a, at, k, size)
    ensures AllInBounds(size, BlockOps(a, at, data, k))
  {
    hide Chunk, CrcBytes, Crc.Crc32;
  }

  /** Where operation `i` writes: block `i / 2` of the run, or its CRC word. */
  lemma BlockOpAt(a: Area, at: nat, data: Bytes, k: nat, i: nat)
    requires |data| == BLOCK_BYTES * k && i < 2 * k
    ensures var op, b := BlockOps(a, at, data, k)[i], at + i / 2;
            if i % 2 == 0 then op.addr == BlockAddr(a, b) && OpLength(op) == BLOCK_BYTES
            else op.addr == CrcAddr(a, b) && OpLength(op) == CRC_BYTES
  {
    hide Chunk, CrcBytes, Crc.Crc32, BlockAddr, CrcAddr;
    assert BlockOps(a, at, data, k)[i] == BlockOp(a, at, data, i);
  }

  /** Blocks and CRC words of an area share no byte with each other. */
  lemma BlocksApart(a: Area, u: nat, v: nat)
    requires u <= v < a.blocks && Apart(a.base, BLOCK_BYTES * a.blocks, a.crc, CRC_BYTES * a.blocks)
    ensures u < v ==> Apart(BlockAddr(a, u), BLOCK_BYTES, BlockAddr(a, v), BLOCK_BYTES)
    ensures u < v ==> Apart(CrcAddr(a, u), CRC_BYTES, CrcAddr(a, v), CRC_BYTES)
    ensures Apart(BlockAddr(a, u), BLOCK_BYTES, CrcAddr(a, v), CRC_BYTES)
    ensures Apart(CrcAddr(a, u), CRC_BYTES, BlockAddr(a, v), BLOCK_BYTES)
  {}

  lemma BlockOpsPairwiseApart(a: Area, at: nat, data: Bytes, k: nat, size: nat)
    requires |data| == BLOCK_BYTES * k && Placed(a, at, k, size)
    ensures PairwiseApart(BlockOps(a, at, data, k))
  {
    hide BlockOps, BlockAddr, CrcAddr, Apart;
    var ops := BlockOps(a, at, data, k);
    forall i, j | 0 <= i < j < |ops|
      ensures Apart(ops[i].addr, OpLength(ops[i]), ops[j].addr, OpLength(ops[j]))
    {
      BlockOpAt(a, at, data, k, i);
      BlockOpAt(a, at, data, k, j);
      BlocksApart(a, at + i / 2, at + j / 2);
    }
  }

  /** A run touches only its own blocks and their CRC words. */
  lemma BlockOpsElsewhere(a: Area, at: nat, data: Bytes, k: nat, x: nat, n: nat)
    requires |data| == BLOCK_BYTES * k
    requires Apart(BlockAddr(a, at), BLOCK_BYTES * k, x, n) && Apart(CrcAddr(a, at), CRC_BYTES * k, x, n)
    ensures AllApart(BlockOps(a, at, data, k), x, n)
  {
    hide Chunk, CrcBytes, Crc.Crc32;
    var ops := BlockOps(a, at, data, k);
    forall i | 0 <= i < |ops|
      ensures Apart(ops[i].addr, OpLength(ops[i]), x, n)
    {
      assert ops[i] == BlockOp(a, at, data, i);
    }
  }

  lemma BlockOpsLegal(img: Bytes, a: Area, at: nat, data: Bytes, k: nat)
    requires |data| == BLOCK_BYTES * k && Placed(a, at, k, |img|)
    requires forall b: nat | at <= b < at + k :: Fits(a, b, |img|) && Unwritten(img, a, b)
    ensures AllLegal(img, BlockOps(a, at, data, k))
  {
    hide Chunk, CrcBytes, Crc.Crc32, IsErased, Slice, AllLegal, PairwiseApart;
    var ops := BlockOps(a, at, data, k);
    BlockOpsInBounds(a, at, data, k, |img|);
    BlockOpsPairwiseApart(a, at, data, k, |img|);
    forall i | 0 <= i < |ops|
      ensures ops[i].Program? && IsErased(Slice(img, ops[i].addr, OpLength(ops[i])))
    {
      assert ops[i] == BlockOp(a, at, data, i);
      assert Unwritten(img, a, at + i / 2);
    }
    ProgramsOfErasedAreLegal(img, ops);
  }

  /** After a run, block `b` holds its chunk and its CRC word certifies it. */
  lemma BlockOpsResult(img: Bytes, a: Area, at: nat, data: Bytes, k: nat, b: nat)
    requires |data| == BLOCK_BYTES * k && Placed(a, at, k, |img|) && at <= b < at + k
    requires AllInBounds(|img|, BlockOps(a, at, data, k))
    ensures var end := ApplyAll(img, BlockOps(a, at, data, k));
            && BlockAt(end, a, b) == Chunk(data, b - at)
            && Sealed(end, a, b)
  {
    hide Chunk, CrcBytes, Crc.Crc32, Slice, ApplyAll, PairwiseApart;
    var ops := BlockOps(a, at, data, k);
    BlockOpsPairwiseApart(a, at, data, k, |img|);
    var i := 2 * (b - at);
    assert ops[i] == DataOp(a, b, Chunk(data, b - at));
    assert ops[i + 1] == CrcOp(a, b, Chunk(data, b - at));
    WrittenStays(img, ops, i);
    WrittenStays(img, ops, i + 1);
  }

  // ---------------------------------------------------------------- a crash inside a run

  /** The first block a crash after `j` operations leaves wholly untouched, if the one under way took nothing. */
  function FirstUntouched(at: nat, j: nat): nat {
    at + (j + 1) / 2
  }

  lemma LaterBlocksUntouched(img: Bytes, a: Area, at: nat, data: Bytes, k: nat, j: nat, b: nat)
    requires |data| == BLOCK_BYTES * k && Placed(a, at, k, |img|) && j <= 2 * k
    requires FirstUntouched(at, j) <= b < a.blocks
    requires AllInBounds(|img|, BlockOps(a, at, data, k))
    ensures var now := ApplyAll(img, BlockOps(a, at, data, k)[..j]);
            BlockAt(now, a, b) == BlockAt(img, a, b) && CrcAt(now, a, b) == CrcAt(img, a, b)
  {
    hide BlockOps, Slice, ApplyAll, Apart, BlockAddr, CrcAddr;
    var ops := BlockOps(a, at, data, k);
    forall i | 0 <= i < j
      ensures Apart(ops[i].addr, OpLength(ops[i]), BlockAddr(a, b), BLOCK_BYTES)
      ensures Apart(ops[i].addr, OpLength(ops[i]), CrcAddr(a, b), CRC_BYTES)
    {
      BlockOpAt(a, at, data, k, i);
      BlocksApart(a, at + i / 2, b);
    }
    AddressesFit(a, b, |img|);
    ApplyAllElsewhere(img, ops[..j], BlockAddr(a, b), BLOCK_BYTES);
    ApplyAllElsewhere(img, ops[..j], CrcAddr(a, b), CRC_BYTES);
  }

  lemma AddressesFit(a: Area, b: nat, size: nat)
    requires Fits(a, b, size)
    ensures BlockAddr(a, b) + BLOCK_BYTES <= size && CrcAddr(a, b) + CRC_BYTES <= size
  {}

  lemma EarlierBlocksDone(img: Bytes, a: Area, at: nat, data: Bytes, k: nat, j: nat, b: nat)
    requires |data| == BLOCK_BYTES * k && Placed(a, at, k, |img|) && j <= 2 * k
    requires at <= b < FirstUntouched(at, j)
    requires AllInBounds(|img|, BlockOps(a, at, data, k))
    ensures BlockAt(ApplyAll(img, BlockOps(a, at, data, k)[..j]), a, b) == Chunk(data, b - at)
  {
    hide Chunk, CrcBytes, Crc.Crc32, Slice, ApplyAll, PairwiseApart;
    var ops := BlockOps(a, at, data, k);
    BlockOpsPairwiseApart(a, at, data, k, |img|);
    var i := 2 * (b - at);
    assert ops[i] == DataOp(a, b, Chunk(data, b - at));
    assert PairwiseApart(ops[..j]) by {
      PrefixPairwise(ops, j);
    }
    WrittenStays(img, ops[..j], i);
  }

  lemma PrefixPairwise(ops: seq<Op>, j: nat)
    requires PairwiseApart(ops) && j <= |ops|
    ensures PairwiseApart(ops[..j])
  {}

  /** Blocks of `[at, from)` are not blank; blocks from there to the end of the area are untouched. */
  ghost predicate SplitAt(img: Bytes, a: Area, at: nat, from: nat)
    requires a.base + BLOCK_BYTES * a.blocks <= |img| && a.crc + CRC_BYTES * a.blocks <= |img|
  {
    && at <= from <= a.blocks
    && (forall b: nat | at <= b < from :: !IsErased(BlockAt(img, a, b)))
    && (forall b: nat | from <= b < a.blocks :: Unwritten(img, a, b))
  }

  lemma SplitAfterWhole(img: Bytes, a: Area, at: nat, data: Bytes, k: nat, j: nat)
    requires |data| == BLOCK_BYTES * k && Placed(a, at, k, |img|) && j <= 2 * k
    requires AllInBounds(|img|, BlockOps(a, at, data, k)[..j]) && AllInBounds(|img|, BlockOps(a, at, data, k))
    requires forall i: nat | i < k :: !IsErased(Chunk(data, i))
    requires forall b: nat | at <= b < a.blocks :: Unwritten(img, a, b)
    ensures SplitAt(ApplyAll(img, BlockOps(a, at, data, k)[..j]), a, at, FirstUntouched(at, j))
  {
    hide Chunk, IsErased, BlockAt, CrcAt, ApplyAll;
    var from := FirstUntouched(at, j);
    var now := ApplyAll(img, BlockOps(a, at, data, k)[..j]);
    forall b: nat | at <= b < from
      ensures !IsErased(BlockAt(now, a, b))
    {
      EarlierBlocksDone(img, a, at, data, k, j, b);
    }
    forall b: nat | from <= b < a.blocks
      ensures Unwritten(now, a, b)
    {
      LaterBlocksUntouched(img, a, at, data, k, j, b);
      assert Unwritten(img, a, b);
    }
  }

  /** Wherever a crash stops a run over blank blocks, the area is still split in two. */
  lemma CrashSplitsArea(img: Bytes, a: Area, at: nat, data: Bytes, k: nat, j: nat, img': Bytes) returns (from: nat)
    requires |data| == BLOCK_BYTES * k && Placed(a, at, k, |img|)
    requires AllInBounds(|img|, BlockOps(a, at, data, k))
    requires forall i: nat | i < k :: !IsErased(Chunk(data, i))
    requires forall b: nat | at <= b < a.blocks :: Unwritten(img, a, b)
    requires CrashState(img, BlockOps(a, at, data, k), j, img')
    ensures |img'| == |img| && at <= from <= at + k && SplitAt(img', a, at, from)
  {
    hide Chunk, IsErased, BlockAt, CrcAt, ApplyAll, BlockOp, Slice, Write;
    var ops := BlockOps(a, at, data, k);
    var now := ApplyAll(img, ops[..j]);
    SplitAfterWhole(img, a, at, data, k, j);
    from := FirstUntouched(at, j);
    if img' != now {
      from := TornSplitsArea(now, a, at, data, k, j, img');
    }
  }

  /** A torn operation disturbs its own block or its own CRC word, nothing else in the area. */
  lemma TornOneBlock(now: Bytes, a: Area, at: nat, data: Bytes, k: nat, j: nat, img': Bytes, b: nat)
    requires |data| == BLOCK_BYTES * k && Placed(a, at, k, |now|) && j < 2 * k && b < a.blocks
    requires Torn(now, BlockOps(a, at, data, k)[j], img')
    ensures j % 2 == 1 || b != at + j / 2 ==> BlockAt(img', a, b) == BlockAt(now, a, b)
    ensures j % 2 == 0 || b != at + j / 2 ==> CrcAt(img', a, b) == CrcAt(now, a, b)
  {
    hide Chunk, IsErased, Slice, Write, CrcBytes, Crc.Crc32, OnlyClears, Torn;
    var op := BlockOp(a, at, data, j);
    assert BlockOps(a, at, data, k)[j] == op;
    assert |img'| == |now| by {
      assert Torn(now, op, img');
      TornKeepsLength(now, op, img');
    }
    if j % 2 == 1 || b != at + j / 2 {
      TornElsewhere(now, op, img', BlockAddr(a, b), BLOCK_BYTES);
    }
    if j % 2 == 0 || b != at + j / 2 {
      TornElsewhere(now, op, img', CrcAddr(a, b), CRC_BYTES);
    }
  }

  lemma TornKeepsLength(img: Bytes, op: Op, img': Bytes)
    requires Torn(img, op, img')
    ensures |img'| == |img|
  {}

  lemma TornSplitsArea(now: Bytes, a: Area, at: nat, data: Bytes, k: nat, j: nat, img': Bytes) returns (from: nat)
    requires |data| == BLOCK_BYTES * k && Placed(a, at, k, |now|) && j < 2 * k
    requires SplitAt(now, a, at, FirstUntouched(at, j))
    requires Torn(now, BlockOps(a, at, data, k)[j], img')
    ensures |img'| == |now| && at <= from <= at + k && SplitAt(img', a, at, from)
  {
    hide Chunk, IsErased, Slice, Write, CrcBytes, Crc.Crc32, OnlyClears, Torn, BlockOp;
    TornKeepsLength(now, BlockOps(a, at, data, k)[j], img');
    var c := at + j / 2;
    from := if j % 2 == 0 && IsErased(BlockAt(img', a, c)) then c else c + 1;
    forall b: nat | at <= b < from
      ensures !IsErased(BlockAt(img', a, b))
    {
      TornOneBlock(now, a, at, data, k, j, img', b);
    }
    forall b: nat | from <= b < a.blocks
      ensures Unwritten(img', a, b)
    {
      TornOneBlock(now, a, at, data, k, j, img', b);
      assert Unwritten(now, a, b);
    }
  }
}
