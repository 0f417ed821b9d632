/** The volume manifest: encoding, decoding, the choice between the two slots, the id range. */
module Manifests {
  import opened Options
  import opened Flash
  import opened Codec
  import opened Region
  import Crc

  const MANIFEST_BYTES: nat := 4096
  const MANIFEST_RESERVED_BYTES: nat := 8192
  const HEADER_BYTES: nat := 40
  const DIGEST_SCOPE: nat := 136
  const MAGIC_VOLUME: Bytes := [0x53, 0x45, 0x43, 0x54]
  const FORMAT_VERSION: nat := 2
  const U16_LIMIT: nat := 0x1_0000
  const U64_LIMIT: nat := 0x1_0000_0000_0000_0000

  datatype ManifestError =
    | BadMagic
    | UnsupportedVersion(found: nat)
    | DigestMismatch
    | Truncated
    | BadRegion(error: RegionError)
    | NoValidSlot
    | BadIdRange(low: nat, from: nat, high: nat)

  datatype Manifest = Manifest(
    sequence: nat, d: nat, m: nat, b: nat, cbBytes: nat,
    n: nat, r: nat, builtN: nat, appendedFrom: nat,
    table: RegionTable)
  {
    /** Every field fits its stored word. */
    predicate Fits() {
      && sequence < U64_LIMIT
      && d < U16_LIMIT && m < U16_LIMIT && b < U16_LIMIT && cbBytes < U16_LIMIT
      && n < U32_LIMIT && r < U32_LIMIT && builtN < U32_LIMIT && appendedFrom < U32_LIMIT
      && |table| == REGION_COUNT && TableFits(table)
    }

    predicate RangeOrdered() {
      builtN <= appendedFrom <= n
    }

    /** What `decode` demands beyond a matching digest. */
    predicate WellFormed() {
      ValidateTable(table).Ok? && RangeOrdered()
    }

    function Gap(): (nat, nat) {
      (builtN, appendedFrom)
    }

    predicate Holds(id: nat) {
      id < builtN || (appendedFrom <= id && id < n)
    }

    function Appended(): nat
      requires RangeOrdered()
    {
      n - appendedFrom
    }

    function Stored(): nat
      requires RangeOrdered()
    {
      builtN + (n - appendedFrom)
    }
  }

  /** The ids below `high` that `m` holds. */
  function HeldBelow(m: Manifest, high: nat): (s: set<nat>) {
    set id: nat | id < high && m.Holds(id)
  }

  lemma {:induction false} HeldBelowSize(m: Manifest, high: nat)
    requires m.RangeOrdered() && high <= m.n
    ensures |HeldBelow(m, high)| ==
            if high <= m.builtN then high
            else if high <= m.appendedFrom then m.builtN
            else m.builtN + (high - m.appendedFrom)
  {
    if high == 0 {
      assert HeldBelow(m, 0) == {};
    } else {
      HeldBelowSize(m, high - 1);
      if m.Holds(high - 1) {
        assert HeldBelow(m, high) == HeldBelow(m, high - 1) + {high - 1};
      } else {
        assert HeldBelow(m, high) == HeldBelow(m, high - 1);
      }
    }
  }

  /** `stored` counts the held ids, and the gap is the ids below `n` that are not held. */
  lemma StoredCountsHeld(m: Manifest)
    requires m.RangeOrdered()
    ensures m.Stored() == |HeldBelow(m, m.n)|
    ensures forall id: nat :: m.Holds(id) <==> id < m.n && !(m.Gap().0 <= id < m.Gap().1)
  {
    HeldBelowSize(m, m.n);
  }

  // ---------------------------------------------------------------- the stored form

  function Header(m: Manifest): (s: Bytes)
    ensures |s| == HEADER_BYTES
  {
    MAGIC_VOLUME + Le(FORMAT_VERSION, 2) + Le(0, 2) + Le(m.sequence, 8)
    + Le(m.d, 2) + Le(m.m, 2) + Le(m.b, 2) + Le(m.cbBytes, 2)
    + Le(m.n, 4) + Le(m.r, 4) + Le(m.builtN, 4) + Le(m.appendedFrom, 4)
  }

  /** The bytes the digest covers. */
  function Scope(m: Manifest): (s: Bytes)
    requires |m.table| == REGION_COUNT
    ensures |s| == DIGEST_SCOPE
  {
    Header(m) + EncodeTable(m.table)
  }

  function Encoded(m: Manifest): (s: Bytes)
    requires |m.table| == REGION_COUNT
    ensures |s| == MANIFEST_BYTES
  {
    Scope(m) + CrcBytes(Crc.Crc32(Scope(m))) + Blank(MANIFEST_BYTES - DIGEST_SCOPE - 4)
  }

  /** The fields of a verified header, before any check on them. */
  function Fields(raw: Bytes, table: RegionTable): Manifest
    requires |raw| >= HEADER_BYTES
  {
    Manifest(UnLe(raw[8..16]), UnLe(raw[16..18]), UnLe(raw[18..20]), UnLe(raw[20..22]), UnLe(raw[22..24]),
             UnLe(raw[24..28]), UnLe(raw[28..32]), UnLe(raw[32..36]), UnLe(raw[36..40]), table)
  }

  /** Magic, version, digest, then regions, then the id range. */
  function Decode(raw: Bytes): Result<Manifest, ManifestError> {
    if |raw| < DIGEST_SCOPE + 4 then Err(Truncated)
    else if raw[..4] != MAGIC_VOLUME then Err(BadMagic)
    else if UnLe(raw[4..6]) != FORMAT_VERSION then Err(UnsupportedVersion(UnLe(raw[4..6])))
    else if Crc.Crc32(raw[..DIGEST_SCOPE]) != CrcWord(raw[DIGEST_SCOPE..DIGEST_SCOPE + 4]) then Err(DigestMismatch)
    else DecodeFields(raw)
  }

  function DecodeFields(raw: Bytes): Result<Manifest, ManifestError>
    requires |raw| >= DIGEST_SCOPE + 4
  {
    match DecodeTable(raw[HEADER_BYTES..], REGION_COUNT)
    case Err(e) => Err(BadRegion(e))
    case Ok(t) =>
      match ValidateTable(t)
      case Err(e) => Err(BadRegion(e))
      case Ok(_) =>
        var m := Fields(raw, t);
        if m.builtN > m.appendedFrom || m.appendedFrom > m.n then
          Err(BadIdRange(m.builtN, m.appendedFrom, m.n))
        else Ok(m)
  }

  // ---------------------------------------------------------------- round trip

  lemma HeaderFields(m: Manifest, raw: Bytes)
    requires m.Fits() && |raw| >= HEADER_BYTES && raw[..HEADER_BYTES] == Header(m)
    ensures raw[..4] == MAGIC_VOLUME && UnLe(raw[4..6]) == FORMAT_VERSION
    ensures Fields(raw, m.table) == m
  {
    hide Le, UnLe, Pow256;
    HeaderSlices(m, raw);
    Widths();
    LeRoundTrip(FORMAT_VERSION, 2);
    LeRoundTrip(m.sequence, 8);
    LeRoundTrip(m.d, 2);
    LeRoundTrip(m.m, 2);
    LeRoundTrip(m.b, 2);
    LeRoundTrip(m.cbBytes, 2);
    LeRoundTrip(m.n, 4);
    LeRoundTrip(m.r, 4);
    LeRoundTrip(m.builtN, 4);
    LeRoundTrip(m.appendedFrom, 4);
  }

  lemma HeaderSlices(m: Manifest, raw: Bytes)
    requires |raw| >= HEADER_BYTES && raw[..HEADER_BYTES] == Header(m)
    ensures raw[..4] == MAGIC_VOLUME && raw[4..6] == Le(FORMAT_VERSION, 2) && raw[8..16] == Le(m.sequence, 8)
    ensures raw[16..18] == Le(m.d, 2) && raw[18..20] == Le(m.m, 2)
    ensures raw[20..22] == Le(m.b, 2) && raw[22..24] == Le(m.cbBytes, 2)
    ensures raw[24..28] == Le(m.n, 4) && raw[28..32] == Le(m.r, 4)
    ensures raw[32..36] == Le(m.builtN, 4) && raw[36..40] == Le(m.appendedFrom, 4)
  {
    hide Le;
    var h := Header(m);
    assert raw[..4] == h[..4] && raw[4..6] == h[4..6] && raw[8..16] == h[8..16];
    assert raw[16..18] == h[16..18] && raw[18..20] == h[18..20];
    assert raw[20..22] == h[20..22] && raw[22..24] == h[22..24];
    assert raw[24..28] == h[24..28] && raw[28..32] == h[28..32];
    assert raw[32..36] == h[32..36] && raw[36..40] == h[36..40];
  }

  lemma EncodedParts(m: Manifest)
    requires |m.table| == REGION_COUNT
    ensures Encoded(m)[..HEADER_BYTES] == Header(m)
    ensures Encoded(m)[..DIGEST_SCOPE] == Scope(m)
    ensures Encoded(m)[DIGEST_SCOPE..DIGEST_SCOPE + 4] == CrcBytes(Crc.Crc32(Scope(m)))
    ensures exists tail :: Encoded(m)[HEADER_BYTES..] == EncodeTable(m.table) + tail
  {
    hide Header, EncodeTable, CrcBytes, Crc.Crc32;
    var tail := CrcBytes(Crc.Crc32(Scope(m))) + Blank(MANIFEST_BYTES - DIGEST_SCOPE - 4);
    assert Encoded(m) == Header(m) + (EncodeTable(m.table) + tail);
  }

  /** The stored form, byte by byte: magic, version, the fields at their offsets, the table, the digest, erased bytes. */
  lemma StoredHeader(m: Manifest)
    requires m.Fits()
    ensures var s := Encoded(m);
            && |s| == 4096 && s[0..4] == [0x53, 0x45, 0x43, 0x54] && UnLe(s[4..6]) == 2
            && UnLe(s[8..16]) == m.sequence
            && UnLe(s[16..18]) == m.d && UnLe(s[18..20]) == m.m && UnLe(s[20..22]) == m.b && UnLe(s[22..24]) == m.cbBytes
            && UnLe(s[24..28]) == m.n && UnLe(s[28..32]) == m.r
            && UnLe(s[32..36]) == m.builtN && UnLe(s[36..40]) == m.appendedFrom
            && s[40..136] == EncodeTable(m.table)
            && s[136..140] == CrcBytes(Crc.Crc32(s[0..136]))
            && IsErased(s[140..])
  {
    hide Header, EncodeTable, CrcBytes, Crc.Crc32, Fields, UnLe;
    var s := Encoded(m);
    EncodedParts(m);
    HeaderFields(m, s);
    FieldsAre(s, m.table);
    assert s[40..136] == Scope(m)[40..];
    assert s[0..136] == Scope(m);
    assert s[140..] == Blank(MANIFEST_BYTES - DIGEST_SCOPE - 4);
  }

  lemma FieldsAre(s: Bytes, table: RegionTable)
    requires |s| >= HEADER_BYTES
    ensures var m := Fields(s, table);
            && UnLe(s[8..16]) == m.sequence
            && UnLe(s[16..18]) == m.d && UnLe(s[18..20]) == m.m && UnLe(s[20..22]) == m.b && UnLe(s[22..24]) == m.cbBytes
            && UnLe(s[24..28]) == m.n && UnLe(s[28..32]) == m.r
            && UnLe(s[32..36]) == m.builtN && UnLe(s[36..40]) == m.appendedFrom
  {}

  /** A well-formed manifest whose fields fit decodes to itself. */
  lemma ManifestRoundTrip(m: Manifest)
    requires m.Fits() && m.WellFormed()
    ensures Decode(Encoded(m)) == Ok(m)
  {
    hide Encoded, Scope, Header, EncodeTable, DecodeTable, ValidateTable, Fields, CrcBytes, CrcWord, Crc.Crc32,
      UnLe, TableFits;
    EncodedParts(m);
    HeaderFields(m, Encoded(m));
    var tail :| Encoded(m)[HEADER_BYTES..] == EncodeTable(m.table) + tail;
    TableRoundTrip(m.table, tail);
    CrcRoundTrip(Crc.Crc32(Scope(m)));
  }

  /** Whatever decodes has the magic and the version, is ordered, has a valid table, and carries a digest that matches. */
  lemma DecodedIsWellFormed(raw: Bytes)
    requires Decode(raw).Ok?
    ensures |raw| >= 140 && raw[..4] == [0x53, 0x45, 0x43, 0x54] && UnLe(raw[4..6]) == 2
    ensures Decode(raw).value.WellFormed()
    ensures Crc.Crc32(raw[..DIGEST_SCOPE]) == CrcWord(raw[DIGEST_SCOPE..DIGEST_SCOPE + 4])
  {
    hide DecodeTable, ValidateTable, CrcWord, Crc.Crc32, UnLe;
  }

  /** An erased slot is not a manifest. */
  lemma ErasedDoesNotDecode(raw: Bytes)
    requires IsErased(raw)
    ensures Decode(raw).Err?
  {
    hide DecodeFields, CrcWord, Crc.Crc32, UnLe;
    if |raw| >= DIGEST_SCOPE + 4 {
      assert raw[..4][0] == ERASED_BYTE;
    }
  }

  // ---------------------------------------------------------------- the two slots

  /** The live manifest: the higher sequence among slots that decode; slot A on a tie. */
  function Select(a: Bytes, b: Bytes): Result<Manifest, ManifestError> {
    match (Decode(a), Decode(b))
    case (Ok(x), Ok(y)) => Ok(if y.sequence > x.sequence then y else x)
    case (Ok(x), Err(_)) => Ok(x)
    case (Err(_), Ok(y)) => Ok(y)
    case (Err(_), Err(_)) => Err(NoValidSlot)
  }

  /** The slot the next install writes. */
  function NextSlotOffset(live: nat): (at: nat)
    ensures at == SLOT_A || at == SLOT_B
  {
    if live % 2 == 0 then SLOT_A else SLOT_B
  }

  /** The slot a manifest of this sequence lives in: A for odd, B for even. */
  function SlotOf(sequence: nat): (at: nat)
    ensures at == SLOT_A || at == SLOT_B
  {
    if sequence % 2 == 1 then SLOT_A else SLOT_B
  }

  /** An install never overwrites the live slot, and lands where its own sequence lives. */
  lemma InstallSparesLive(live: nat)
    ensures NextSlotOffset(live) == SlotOf(live + 1) != SlotOf(live)
  {}

  // ---------------------------------------------------------------- the writer

  /** A cursor over a buffer. */
  class Writer {
    const buf: array<bv8>
    var at: nat

    constructor (buf: array<bv8>)
      ensures this.buf == buf && at == 0
    {
      this.buf := buf;
      this.at := 0;
    }

    /** Fields that would run past the end are skipped; the cursor moves either way. */
    method Put(v: Bytes)
      modifies this, buf
      ensures at == old(at) + |v|
      ensures buf[..] == if old(at) + |v| <= buf.Length then Write(old(buf[..]), old(at), v) else old(buf[..])
    {
      if at + |v| <= buf.Length {
        CopyInto(buf, at, v);
      }
      at := at + |v|;
    }

    /** One more field after the `done` already written. */
    method PutAfter(ghost was: Bytes, ghost done: Bytes, v: Bytes)
      requires |was| == buf.Length && at == |done| && |done| + |v| <= buf.Length
      requires buf[..] == Write(was, 0, done)
      modifies this, buf
      ensures at == |done + v| && buf[..] == Write(was, 0, done + v)
    {
      hide Write;
      WriteAfterWrite(was, 0, done, v);
      Put(v);
    }
  }

  lemma FillThenWrite(was: Bytes, out: Bytes, data: Bytes)
    requires |was| >= MANIFEST_BYTES && |data| <= MANIFEST_BYTES
    requires out == Write(Write(was, 0, Blank(MANIFEST_BYTES)), 0, data)
    ensures out == Write(was, 0, data + Blank(MANIFEST_BYTES - |data|))
  {}

  /** `Manifest::encode`: fill the slot with the erased byte, write the fields, the table, the digest. */
  method Encode(m: Manifest, out: array<bv8>) returns (r: Result<nat, ManifestError>)
    requires |m.table| == REGION_COUNT
    modifies out
    ensures r == if out.Length < MANIFEST_BYTES then Err(Truncated) else Ok(MANIFEST_BYTES)
    ensures out[..] == if r.Ok? then Write(old(out[..]), 0, Encoded(m)) else old(out[..])
  {
    hide Write, Le, EncodeTable, CrcBytes, Crc.Crc32;
    if out.Length < MANIFEST_BYTES {
      return Err(Truncated);
    }
    ghost var was := out[..];
    CopyInto(out, 0, Blank(MANIFEST_BYTES));
    ghost var filled := out[..];
    WriteNothing(filled, 0);
    var w := new Writer(out);
    PutHeader(w, filled, m);
    var table := WriteTable(m.table, out, w.at);
    WriteAfterWrite(filled, 0, Header(m), EncodeTable(m.table));
    assert out[..] == Write(filled, 0, Scope(m));
    PrefixOfWrite(filled, Scope(m));
    var digest := CrcBytes(Crc.Crc32(out[..DIGEST_SCOPE]));
    WriteAfterWrite(filled, 0, Scope(m), digest);
    CopyInto(out, DIGEST_SCOPE, digest);
    FillThenWrite(was, out[..], Scope(m) + digest);
    return Ok(MANIFEST_BYTES);
  }

  lemma PrefixOfWrite(img: Bytes, data: Bytes)
    requires |data| <= |img|
    ensures Write(img, 0, data)[..|data|] == data
  {}

  method PutHeader(w: Writer, ghost was: Bytes, m: Manifest)
    requires w.at == 0 && w.buf.Length >= MANIFEST_BYTES && w.buf[..] == was == Write(was, 0, [])
    modifies w, w.buf
    ensures w.at == HEADER_BYTES && w.buf[..] == Write(was, 0, Header(m))
  {
    hide Write, Le;
    w.PutAfter(was, [], MAGIC_VOLUME);
    ghost var s := [] + MAGIC_VOLUME;
    w.PutAfter(was, s, Le(FORMAT_VERSION, 2));
    s := s + Le(FORMAT_VERSION, 2);
    w.PutAfter(was, s, Le(0, 2));
    s := s + Le(0, 2);
    w.PutAfter(was, s, Le(m.sequence, 8));
    s := s + Le(m.sequence, 8);
    PutGeometry(w, was, s, m);
    s := s + (Le(m.d, 2) + Le(m.m, 2) + Le(m.b, 2) + Le(m.cbBytes, 2));
    PutRange(w, was, s, m);
    assert s + (Le(m.n, 4) + Le(m.r, 4) + Le(m.builtN, 4) + Le(m.appendedFrom, 4)) == Header(m);
  }

  method PutGeometry(w: Writer, ghost was: Bytes, ghost s: Bytes, m: Manifest)
    requires |was| == w.buf.Length >= MANIFEST_BYTES && w.at == |s| == 16 && w.buf[..] == Write(was, 0, s)
    modifies w, w.buf
    ensures var v := Le(m.d, 2) + Le(m.m, 2) + Le(m.b, 2) + Le(m.cbBytes, 2);
            w.at == |s + v| && w.buf[..] == Write(was, 0, s + v)
  {
    hide Write, Le;
    w.PutAfter(was, s, Le(m.d, 2));
    w.PutAfter(was, s + Le(m.d, 2), Le(m.m, 2));
    w.PutAfter(was, s + Le(m.d, 2) + Le(m.m, 2), Le(m.b, 2));
    w.PutAfter(was, s + Le(m.d, 2) + Le(m.m, 2) + Le(m.b, 2), Le(m.cbBytes, 2));
    assert s + Le(m.d, 2) + Le(m.m, 2) + Le(m.b, 2) + Le(m.cbBytes, 2)
        == s + (Le(m.d, 2) + Le(m.m, 2) + Le(m.b, 2) + Le(m.cbBytes, 2));
  }

  method PutRange(w: Writer, ghost was: Bytes, ghost s: Bytes, m: Manifest)
    requires |was| == w.buf.Length >= MANIFEST_BYTES && w.at == |s| == 24 && w.buf[..] == Write(was, 0, s)
    modifies w, w.buf
    ensures var v := Le(m.n, 4) + Le(m.r, 4) + Le(m.builtN, 4) + Le(m.appendedFrom, 4);
            w.at == |s + v| && w.buf[..] == Write(was, 0, s + v)
  {
    hide Write, Le;
    w.PutAfter(was, s, Le(m.n, 4));
    w.PutAfter(was, s + Le(m.n, 4), Le(m.r, 4));
    w.PutAfter(was, s + Le(m.n, 4) + Le(m.r, 4), Le(m.builtN, 4));
    w.PutAfter(was, s + Le(m.n, 4) + Le(m.r, 4) + Le(m.builtN, 4), Le(m.appendedFrom, 4));
    assert s + Le(m.n, 4) + Le(m.r, 4) + Le(m.builtN, 4) + Le(m.appendedFrom, 4)
        == s + (Le(m.n, 4) + Le(m.r, 4) + Le(m.builtN, 4) + Le(m.appendedFrom, 4));
  }
}
