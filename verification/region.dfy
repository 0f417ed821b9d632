/** Region descriptors and the region table: validation, encoding, decoding. */
module Region {
  import opened Options
  import opened Flash
  import opened Codec

  const REGION_COUNT: nat := 6
  const REGION_DESC_BYTES: nat := 16
  const U32_LIMIT: nat := 0x1_0000_0000

  datatype RegionKind = Codebook | CodebookReplica | Payload | PayloadCrc | Rerank | RerankCrc

  datatype Protection = Detect | Replicate | ReedSolomon

  function KindCode(k: RegionKind): nat {
    match k
    case Codebook => 1
    case CodebookReplica => 2
    case Payload => 3
    case PayloadCrc => 4
    case Rerank => 5
    case RerankCrc => 6
  }

  function KindOf(v: nat): Option<RegionKind> {
    if v == 1 then Some(Codebook)
    else if v == 2 then Some(CodebookReplica)
    else if v == 3 then Some(Payload)
    else if v == 4 then Some(PayloadCrc)
    else if v == 5 then Some(Rerank)
    else if v == 6 then Some(RerankCrc)
    else None
  }

  function ProtectionCode(p: Protection): nat {
    match p case Detect => 0 case Replicate => 1 case ReedSolomon => 2
  }

  function ProtectionOf(v: nat): Option<Protection> {
    if v == 0 then Some(Detect) else if v == 1 then Some(Replicate) else if v == 2 then Some(ReedSolomon) else None
  }

  datatype RegionError =
    | Unaligned(base: nat)
    | ExtentNotSectorMultiple(bytes: nat)
    | BlockSize(blockBytes: nat)
    | Overflow
    | Overlap(first: nat, second: nat)
    | UnknownDiscriminant

  datatype RegionDesc = RegionDesc(kind: RegionKind, protection: Protection, base: nat, blockBytes: nat, blocks: nat) {
    function ByteLen(): nat {
      blocks * blockBytes
    }

    function End(): nat {
      base + ByteLen()
    }

    /** The stored fields fit their 32-bit words. */
    predicate Fits() {
      base < U32_LIMIT && blockBytes < U32_LIMIT && blocks < U32_LIMIT
    }

    /** The first reason to reject the descriptor, in the order the checks run. */
    function Validate(): Result<(), RegionError> {
      if base % SECTOR_BYTES != 0 then Err(Unaligned(base))
      else if blockBytes == 0 || SECTOR_BYTES % blockBytes != 0 then Err(BlockSize(blockBytes))
      else if ByteLen() % SECTOR_BYTES != 0 then Err(ExtentNotSectorMultiple(ByteLen()))
      else if End() > U32_LIMIT - 1 then Err(Overflow)
      else Ok(())
    }

    function Encode(): (s: Bytes)
      ensures |s| == REGION_DESC_BYTES
    {
      Le(KindCode(kind), 1) + Le(ProtectionCode(protection), 1) + Le(0, 2) + Le(base, 4) + Le(blockBytes, 4) + Le(blocks, 4)
    }
  }

  function DecodeDesc(raw: Bytes): Result<RegionDesc, RegionError>
    requires |raw| == REGION_DESC_BYTES
  {
    match KindOf(UnLe(raw[0..1]))
    case None => Err(UnknownDiscriminant)
    case Some(k) =>
      match ProtectionOf(UnLe(raw[1..2]))
      case None => Err(UnknownDiscriminant)
      case Some(p) => Ok(RegionDesc(k, p, UnLe(raw[4..8]), UnLe(raw[8..12]), UnLe(raw[12..16])))
  }

  lemma DescRoundTrip(d: RegionDesc)
    requires d.Fits()
    ensures DecodeDesc(d.Encode()) == Ok(d)
  {
    hide Le, UnLe, Pow256;
    Widths();
    OneByte();
    LeRoundTrip(KindCode(d.kind), 1);
    LeRoundTrip(ProtectionCode(d.protection), 1);
    LeRoundTrip(d.base, 4);
    LeRoundTrip(d.blockBytes, 4);
    LeRoundTrip(d.blocks, 4);
    var s := d.Encode();
    assert s[0..1] == Le(KindCode(d.kind), 1);
    assert s[1..2] == Le(ProtectionCode(d.protection), 1);
    assert s[4..8] == Le(d.base, 4);
    assert s[8..12] == Le(d.blockBytes, 4);
    assert s[12..16] == Le(d.blocks, 4);
  }

  /** The stored form: a kind, a protection, two zero bytes, then base, block size and block count. */
  lemma StoredDesc(d: RegionDesc)
    requires d.Fits()
    ensures var s := d.Encode();
            && UnLe(s[0..1]) == (match d.kind
                                 case Codebook => 1 case CodebookReplica => 2 case Payload => 3
                                 case PayloadCrc => 4 case Rerank => 5 case RerankCrc => 6)
            && UnLe(s[1..2]) == (match d.protection case Detect => 0 case Replicate => 1 case ReedSolomon => 2)
            && UnLe(s[2..4]) == 0
            && UnLe(s[4..8]) == d.base && UnLe(s[8..12]) == d.blockBytes && UnLe(s[12..16]) == d.blocks
  {
    hide Le, UnLe, Pow256;
    Widths();
    OneByte();
    LeRoundTrip(KindCode(d.kind), 1);
    LeRoundTrip(ProtectionCode(d.protection), 1);
    LeRoundTrip(0, 2);
    LeRoundTrip(d.base, 4);
    LeRoundTrip(d.blockBytes, 4);
    LeRoundTrip(d.blocks, 4);
    var s := d.Encode();
    assert s[0..1] == Le(KindCode(d.kind), 1) && s[1..2] == Le(ProtectionCode(d.protection), 1) && s[2..4] == Le(0, 2);
    assert s[4..8] == Le(d.base, 4) && s[8..12] == Le(d.blockBytes, 4) && s[12..16] == Le(d.blocks, 4);
  }

  /** A stored descriptor decodes exactly when its kind is 1 to 6 and its protection 0 to 2, and then to its fields. */
  lemma DescDecodes(raw: Bytes)
    requires |raw| == REGION_DESC_BYTES
    ensures var kind, protection := UnLe(raw[0..1]), UnLe(raw[1..2]);
            && (DecodeDesc(raw).Ok? <==> 1 <= kind <= 6 && protection <= 2)
            && (DecodeDesc(raw).Ok? ==>
                  var d := DecodeDesc(raw).value;
                  && KindCode(d.kind) == kind && ProtectionCode(d.protection) == protection
                  && d.base == UnLe(raw[4..8]) && d.blockBytes == UnLe(raw[8..12]) && d.blocks == UnLe(raw[12..16]))
  {
    hide UnLe;
  }

  lemma OneByte()
    ensures Pow256(1) == 256
  {}

  /** What a descriptor must be: on whole 4096-byte sectors, in blocks that divide one, ending below 2^32. */
  lemma ValidIff(d: RegionDesc)
    ensures d.Validate().Ok? <==>
              && d.base % 4096 == 0 && d.blockBytes > 0 && 4096 % d.blockBytes == 0
              && (d.blocks * d.blockBytes) % 4096 == 0 && d.base + d.blocks * d.blockBytes < 0x1_0000_0000
  {}

  // ---------------------------------------------------------------- the table

  type RegionTable = seq<RegionDesc>

  predicate Overlapping(a: RegionDesc, b: RegionDesc) {
    a.base < b.End() && b.base < a.End()
  }

  /** Regions that hold bytes overlap exactly when they share one. */
  lemma OverlapIsShared(a: RegionDesc, b: RegionDesc)
    requires a.ByteLen() > 0 && b.ByteLen() > 0
    ensures Overlapping(a, b) <==> exists x: nat :: Within(a, x) && Within(b, x)
  {
    if Overlapping(a, b) {
      var x := if a.base < b.base then b.base else a.base;
      assert Within(a, x) && Within(b, x);
    }
  }

  predicate Within(d: RegionDesc, x: nat) {
    d.base <= x < d.base + d.blocks * d.blockBytes
  }

  /** The first overlapping pair from `(i, j)` on, in table order. */
  function FirstOverlap(t: RegionTable, i: nat, j: nat): Option<(nat, nat)>
    requires i <= |t| && j <= |t|
    decreases |t| - i, |t| - j
  {
    if i == |t| then None
    else if j == |t| then (if i + 2 > |t| then None else FirstOverlap(t, i + 1, i + 2))
    else if Overlapping(t[i], t[j]) then Some((i, j))
    else FirstOverlap(t, i, j + 1)
  }

  function FirstInvalid(t: RegionTable, i: nat): Option<RegionError>
    requires i <= |t|
    decreases |t| - i
  {
    if i == |t| then None
    else match t[i].Validate()
      case Err(e) => Some(e)
      case Ok(_) => FirstInvalid(t, i + 1)
  }

  function ValidateTable(t: RegionTable): Result<(), RegionError> {
    match FirstInvalid(t, 0)
    case Some(e) => Err(e)
    case None =>
      if |t| == 0 then Ok(())
      else match FirstOverlap(t, 0, 1)
        case Some(p) => Err(Overlap(p.0, p.1))
        case None => Ok(())
  }

  lemma {:induction false} NoneInvalid(t: RegionTable, i: nat)
    requires i <= |t|
    ensures FirstInvalid(t, i).None? <==> forall r :: i <= r < |t| ==> t[r].Validate().Ok?
    decreases |t| - i
  {
    if i < |t| {
      NoneInvalid(t, i + 1);
    }
  }

  lemma {:induction false} NoneOverlap(t: RegionTable, i: nat, j: nat)
    requires i < j <= |t|
    ensures FirstOverlap(t, i, j).None? <==> (
              && (forall b :: j <= b < |t| ==> !Overlapping(t[i], t[b]))
              && (forall a, b :: i < a < b < |t| ==> !Overlapping(t[a], t[b])))
    decreases |t| - i, |t| - j
  {
    hide Overlapping;
    if j == |t| {
      if i + 2 <= |t| {
        NoneOverlap(t, i + 1, i + 2);
      }
    } else {
      NoneOverlap(t, i, j + 1);
    }
  }

  lemma {:induction false} NamedInvalid(t: RegionTable, i: nat)
    requires i <= |t| && FirstInvalid(t, i).Some?
    ensures exists r :: i <= r < |t| && t[r].Validate() == Err(FirstInvalid(t, i).value)
                        && forall q :: i <= q < r ==> t[q].Validate().Ok?
    decreases |t| - i
  {
    if t[i].Validate().Ok? {
      NamedInvalid(t, i + 1);
    } else {
      assert t[i].Validate() == Err(FirstInvalid(t, i).value);
    }
  }

  lemma {:induction false} NamedOverlap(t: RegionTable, i: nat, j: nat)
    requires i < j <= |t| && FirstOverlap(t, i, j).Some?
    ensures var (x, y) := FirstOverlap(t, i, j).value; i <= x < y < |t| && Overlapping(t[x], t[y])
    decreases |t| - i, |t| - j
  {
    hide Overlapping;
    if j == |t| {
      NamedOverlap(t, i + 1, i + 2);
    } else if !Overlapping(t[i], t[j]) {
      NamedOverlap(t, i, j + 1);
    }
  }

  /** A refusal names what it refuses: the first region's own fault, or else two regions that overlap, in order. */
  lemma RefusalIsNamed(t: RegionTable)
    requires ValidateTable(t).Err?
    ensures var e := ValidateTable(t).error;
            || (exists r :: 0 <= r < |t| && t[r].Validate() == Err(e) && forall q :: 0 <= q < r ==> t[q].Validate().Ok?)
            || (e.Overlap? && e.first < e.second < |t| && Overlapping(t[e.first], t[e.second])
                && forall r :: 0 <= r < |t| ==> t[r].Validate().Ok?)
  {
    hide Overlapping, RegionDesc.Validate;
    NoneInvalid(t, 0);
    if FirstInvalid(t, 0).Some? {
      NamedInvalid(t, 0);
    } else {
      NamedOverlap(t, 0, 1);
    }
  }

  /** A table validates exactly when every region does and no two share bytes. */
  lemma ValidTableIffDisjoint(t: RegionTable)
    ensures ValidateTable(t).Ok? <==> (
              && (forall r :: 0 <= r < |t| ==> t[r].Validate().Ok?)
              && (forall a, b :: 0 <= a < b < |t| ==> !Overlapping(t[a], t[b])))
  {
    hide Overlapping, FirstInvalid, FirstOverlap;
    NoneInvalid(t, 0);
    if |t| > 0 {
      NoneOverlap(t, 0, 1);
    }
  }

  /** The descriptor for `kind`: the first in table order. */
  function Get(t: RegionTable, kind: RegionKind): (r: Option<RegionDesc>)
    ensures r.Some? ==> r.value in t && r.value.kind == kind
  {
    if t == [] then None else if t[0].kind == kind then Some(t[0]) else Get(t[1..], kind)
  }

  function EncodeTable(t: RegionTable): (s: Bytes)
    ensures |s| == REGION_DESC_BYTES * |t|
  {
    if t == [] then [] else t[0].Encode() + EncodeTable(t[1..])
  }

  /** Decode `count` descriptors from the front of `raw`. */
  function DecodeTable(raw: Bytes, count: nat): (r: Result<RegionTable, RegionError>)
    decreases count
  {
    if count == 0 then Ok([])
    else if |raw| < REGION_DESC_BYTES then Err(Overflow)
    else match DecodeDesc(raw[..REGION_DESC_BYTES])
      case Err(e) => Err(e)
      case Ok(d) =>
        match DecodeTable(raw[REGION_DESC_BYTES..], count - 1)
        case Err(e) => Err(e)
        case Ok(rest) => Ok([d] + rest)
  }

  predicate TableFits(t: RegionTable) {
    forall i :: 0 <= i < |t| ==> t[i].Fits()
  }

  lemma {:induction false} TableRoundTrip(t: RegionTable, tail: Bytes)
    requires TableFits(t)
    ensures DecodeTable(EncodeTable(t) + tail, |t|) == Ok(t)
    decreases |t|
  {
    hide DecodeDesc, RegionDesc.Encode;
    if t != [] {
      var raw := EncodeTable(t) + tail;
      DescRoundTrip(t[0]);
      assert raw[..REGION_DESC_BYTES] == t[0].Encode();
      assert raw[REGION_DESC_BYTES..] == EncodeTable(t[1..]) + tail;
      TableRoundTrip(t[1..], tail);
      assert [t[0]] + t[1..] == t;
    }
  }

  // ---------------------------------------------------------------- the loops over the table

  lemma {:induction false} EncodeSnoc(t: RegionTable, d: RegionDesc)
    ensures EncodeTable(t + [d]) == EncodeTable(t) + d.Encode()
    decreases |t|
  {
    hide RegionDesc.Encode;
    if t == [] {
      assert EncodeTable([d]) == d.Encode() + EncodeTable([]);
    } else {
      assert (t + [d])[1..] == t[1..] + [d];
      EncodeSnoc(t[1..], d);
    }
  }

  method WriteTable(t: RegionTable, out: array<bv8>, at: nat) returns (written: Option<nat>)
    modifies out
    ensures written == if at + REGION_DESC_BYTES * |t| <= out.Length then Some(REGION_DESC_BYTES * |t|) else None
    ensures out[..] == if written.Some? then Write(old(out[..]), at, EncodeTable(t)) else old(out[..])
  {
    hide RegionDesc.Encode, Write;
    if at + REGION_DESC_BYTES * |t| > out.Length {
      return None;
    }
    ghost var was := out[..];
    WriteNothing(was, at);
    assert t[..0] == [];
    var i := 0;
    while i < |t|
      invariant 0 <= i <= |t|
      invariant out[..] == Write(was, at, EncodeTable(t[..i]))
    {
      assert t[..i + 1] == t[..i] + [t[i]];
      EncodeSnoc(t[..i], t[i]);
      WriteAfterWrite(was, at, EncodeTable(t[..i]), t[i].Encode());
      CopyInto(out, at + REGION_DESC_BYTES * i, t[i].Encode());
      i := i + 1;
    }
    assert t[..i] == t;
    return Some(REGION_DESC_BYTES * |t|);
  }

  function Prepend(t: RegionTable, r: Result<RegionTable, RegionError>): Result<RegionTable, RegionError> {
    match r case Err(e) => Err(e) case Ok(rest) => Ok(t + rest)
  }

  method ReadTable(raw: Bytes, count: nat) returns (r: Result<RegionTable, RegionError>)
    ensures r == DecodeTable(raw, count)
  {
    hide DecodeDesc;
    var t: RegionTable := [];
    var i := 0;
    assert raw[0..] == raw;
    assert forall rest: RegionTable :: [] + rest == rest;
    while i < count
      invariant 0 <= i <= count && REGION_DESC_BYTES * i <= |raw|
      invariant DecodeTable(raw, count) == Prepend(t, DecodeTable(raw[REGION_DESC_BYTES * i..], count - i))
    {
      var rest := raw[REGION_DESC_BYTES * i..];
      if |rest| < REGION_DESC_BYTES {
        return Err(Overflow);
      }
      assert rest[..REGION_DESC_BYTES] == raw[REGION_DESC_BYTES * i..REGION_DESC_BYTES * (i + 1)];
      assert rest[REGION_DESC_BYTES..] == raw[REGION_DESC_BYTES * (i + 1)..];
      match DecodeDesc(raw[REGION_DESC_BYTES * i..REGION_DESC_BYTES * (i + 1)]) {
        case Err(e) =>
          return Err(e);
        case Ok(d) =>
          PrependSnoc(t, d, DecodeTable(rest[REGION_DESC_BYTES..], count - i - 1));
          t := t + [d];
      }
      i := i + 1;
    }
    assert t + [] == t;
    return Ok(t);
  }

  lemma PrependSnoc(t: RegionTable, d: RegionDesc, r: Result<RegionTable, RegionError>)
    ensures Prepend(t, Prepend([d], r)) == Prepend(t + [d], r)
  {
    if r.Ok? {
      assert t + ([d] + r.value) == t + [d] + r.value;
    }
  }
}
