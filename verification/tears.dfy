/**
 What a torn manifest write can and cannot read as.

 The digest refuses every tear that leaves the magic incomplete, every tear whose missing bits
 fall within 32 consecutive ones, and, once all it covers is down, everything but the new
 manifest itself. It does not refuse everything: missing bits spread over 33 consecutive ones in
 the shape of the CRC's own polynomial pass, and inside the sequence number they make a manifest
 that no append wrote.
 */
module Tears {
  import opened Options
  import opened Flash
  import opened Codec
  import opened Region
  import opened Manifests
  import opened Arith
  import opened Layouts
  import opened Volumes
  import opened BlockAppend
  import opened Append
  import opened Crash
  import opened Atomicity
  import Crc

  // ---------------------------------------------------------------- tears the digest refuses

  /** Until the magic is down the slot is not a manifest. */
  lemma NoMagic(s: Bytes)
    requires |s| >= 4 && s[..4] != MAGIC_VOLUME
    ensures Decode(s).Err?
  {
    hide DecodeFields, CrcWord, Crc.Crc32, UnLe;
  }

  /** Once everything the digest covers is down, the slot is the new manifest or not one. */
  lemma ScopeDown(s: Bytes, next: Manifest)
    requires next.Fits() && next.WellFormed() && |s| == MANIFEST_BYTES && s[..DIGEST_SCOPE] == Scope(next)
    ensures Decode(s).Err? || Decode(s) == Ok(next)
  {
    hide Scope, Header, EncodeTable, DecodeTable, ValidateTable, Fields, CrcWord, Crc.Crc32, UnLe, TableFits;
    ScopeParts(s, next);
    HeaderFields(next, s);
    var tail :| s[HEADER_BYTES..] == EncodeTable(next.table) + tail;
    TableRoundTrip(next.table, tail);
  }

  lemma ScopeParts(s: Bytes, m: Manifest)
    requires |m.table| == REGION_COUNT && |s| == MANIFEST_BYTES && s[..DIGEST_SCOPE] == Scope(m)
    ensures s[..HEADER_BYTES] == Header(m)
    ensures exists tail :: s[HEADER_BYTES..] == EncodeTable(m.table) + tail
  {
    hide Header, EncodeTable;
    assert s[..HEADER_BYTES] == s[..DIGEST_SCOPE][..HEADER_BYTES];
    assert s[HEADER_BYTES..] == s[..DIGEST_SCOPE][HEADER_BYTES..] + s[DIGEST_SCOPE..];
  }

  /** With the digest word down, missing bits within 32 consecutive ones are always noticed. */
  lemma BurstTearFails(s: Bytes, next: Manifest, p: nat)
    requires |next.table| == REGION_COUNT && |s| == MANIFEST_BYTES
    requires s[DIGEST_SCOPE..DIGEST_SCOPE + 4] == CrcBytes(Crc.Crc32(Scope(next)))
    requires s[..DIGEST_SCOPE] != Scope(next)
    requires Crc.ErrorsWithin(Crc.XorBits(Crc.MessageBits(s[..DIGEST_SCOPE]), Crc.MessageBits(Scope(next))), p)
    ensures Decode(s).Err?
  {
    hide Scope, DecodeFields, CrcWord, CrcBytes, Crc.Crc32, Crc.MessageBits, Crc.ErrorsWithin, UnLe;
    Crc.BurstDetected(s[..DIGEST_SCOPE], Scope(next), p);
    CrcRoundTrip(Crc.Crc32(Scope(next)));
  }

  // ---------------------------------------------------------------- every tear of the program

  /** Power failed while the new manifest was being programmed, with `s` in its slot. */
  ghost predicate TornTo(img: Bytes, job: Job, s: Bytes, img': Bytes)
    requires job.Valid()
  {
    && MANIFEST_RESERVED_BYTES <= |img| == |img'|
    && StoppedAt(img, job, |job.DataOps()| + 1, img')
    && SlotBytes(img', job.Spare()) == s
  }

  /** A tear of a program over an erased slot can leave anything the program could still have cleared into the data. */
  lemma TornOverErased(erased: Bytes, at: nat, data: Bytes, s: Bytes)
    requires at + SECTOR_BYTES <= |erased| && |s| == |data| == SECTOR_BYTES && OnlyClears(s, data)
    requires Slice(erased, at, SECTOR_BYTES) == Blank(SECTOR_BYTES)
    ensures var img' := Write(erased, at, s);
            && Torn(erased, Program(at, data), img') && Slice(img', at, SECTOR_BYTES) == s
            && (s != Blank(SECTOR_BYTES) ==> img' != erased)
            && (s != data ==> img' != Apply(erased, Program(at, data)))
  {
    hide OnlyClears, Slice, Write;
    WriteThenRead(erased, at, s);
    WriteThenRead(erased, at, data);
    ErasedTakesAnything(Blank(SECTOR_BYTES), s);
  }

  /** After its erase an install has a blank slot to program. */
  lemma ErasedSlot(img: Bytes, ops: seq<Op>, j: nat, at: nat)
    requires AllInBounds(|img|, ops) && j < |ops| && ops[j] == Erase(at)
    ensures at + SECTOR_BYTES <= |img| && Slice(After(img, ops, j + 1), at, SECTOR_BYTES) == Blank(SECTOR_BYTES)
  {
    hide Slice, Write, After;
    LastDone(img, ops, j + 1);
    WriteThenRead(After(img, ops, j), at, Blank(SECTOR_BYTES));
  }

  lemma OpsEnd(job: Job)
    requires job.Valid()
    ensures var j := |job.DataOps()|;
            && |job.Ops()| == j + 2
            && job.Ops()[j] == Erase(job.Spare()) && job.Ops()[j + 1] == Program(job.Spare(), Encoded(job.Next()))
  {
    hide Encoded, Updated, Supported, Job.PayloadOps, Job.RerankOps;
    InstallIs(job);
  }

  /** A stop inside the last operation. */
  lemma StopInLast(img: Bytes, ops: seq<Op>, j: nat, img': Bytes)
    requires AllInBounds(|img|, ops) && |ops| == j + 1 && Torn(After(img, ops, j), ops[j], img')
    ensures CrashState(img, ops, j, img')
    ensures img' != After(img, ops, j) && img' != Apply(After(img, ops, j), ops[j]) ==> StrictlyInside(img, ops, j, img')
  {
    hide Torn, Apply;
    LastDone(img, ops, j + 1);
  }

  lemma OpsBounded(job: Job, size: nat)
    requires job.Valid() && Bounded(job, size)
    ensures AllInBounds(size, job.Ops())
  {
    hide AllInBounds, Job.Ops, Job.DataOps, Job.PayloadOps, Job.RerankOps, Job.InstallOps, Job.Valid;
  }

  lemma IsTornTo(img: Bytes, job: Job, s: Bytes, img': Bytes, ops: seq<Op>, at: nat)
    requires job.Valid() && Bounded(job, |img|) && ops == job.Ops() && at == job.Spare()
    requires MANIFEST_RESERVED_BYTES <= |img| == |img'| && at + SECTOR_BYTES <= |img'| && SlotBytes(img', at) == s
    requires AllInBounds(|img|, ops) && CrashState(img, ops, |job.DataOps()| + 1, img')
    ensures TornTo(img, job, s, img')
    ensures StrictlyInside(img, ops, |job.DataOps()| + 1, img') ==> TornInInstall(img, job, |job.DataOps()| + 1, img')
  {
    hide Bounded, AllInBounds, CrashState, StrictlyInside, SlotBytes, Job.Ops, Job.DataOps, Job.Valid;
  }

  /** So every such content of the spare slot is one a power loss can leave. */
  lemma TornProgram(img: Bytes, job: Job, s: Bytes) returns (img': Bytes)
    requires Ready(img, job) && |s| == SECTOR_BYTES && OnlyClears(s, Encoded(job.Next()))
    ensures TornTo(img, job, s, img')
    ensures s != Blank(SECTOR_BYTES) && s != Encoded(job.Next()) ==> TornInInstall(img, job, |job.DataOps()| + 1, img')
  {
    hide Usable, Supported, Updated, Encoded, OnlyClears, After, Job.Ops, Job.DataOps, Job.Spare, Job.Room, IsErased,
      CrashState, StrictlyInside, Slice, Bounded, AllInBounds, TornTo, TornInInstall;
    AppendIsLegal(img, job);
    OpsAreBounded(job, |img|);
    OpsBounded(job, |img|);
    UsableParts(img, job.m, job.head);
    OpsEnd(job);
    img' := TornTail(img, job.Ops(), |job.DataOps()|, job.Spare(), Encoded(job.Next()), s);
    IsTornTo(img, job, s, img', job.Ops(), job.Spare());
  }

  /** The same of any run of operations that ends with an erase and a program of one slot. */
  lemma TornTail(img: Bytes, ops: seq<Op>, j: nat, at: nat, data: Bytes, s: Bytes) returns (img': Bytes)
    requires AllInBounds(|img|, ops) && |ops| == j + 2 && ops[j] == Erase(at) && ops[j + 1] == Program(at, data)
    requires |s| == |data| == SECTOR_BYTES && OnlyClears(s, data)
    ensures |img'| == |img| && CrashState(img, ops, j + 1, img')
    ensures at + SECTOR_BYTES <= |img| && Slice(img', at, SECTOR_BYTES) == s
    ensures s != Blank(SECTOR_BYTES) && s != data ==> StrictlyInside(img, ops, j + 1, img')
  {
    hide OnlyClears, Slice, Write, After, Torn, Apply, CrashState, StrictlyInside;
    ErasedSlot(img, ops, j, at);
    var erased := After(img, ops, j + 1);
    img' := Write(erased, at, s);
    TornOverErased(erased, at, data, s);
    StopInLast(img, ops, j + 1, img');
  }

  /** The image after `j` operations is the one after `j - 1` with operation `j - 1` applied. */
  lemma LastDone(img: Bytes, ops: seq<Op>, j: nat)
    requires AllInBounds(|img|, ops) && 0 < j <= |ops|
    ensures InBounds(After(img, ops, j - 1), ops[j - 1])
    ensures After(img, ops, j) == Apply(After(img, ops, j - 1), ops[j - 1])
  {
    hide Apply;
    assert ops[..j][..j - 1] == ops[..j - 1];
  }

  /** The tears the digest is known to refuse, or to take for what they almost are. */
  ghost predicate Refused(s: Bytes, next: Manifest)
    requires |next.table| == REGION_COUNT && |s| == MANIFEST_BYTES
  {
    || s[..4] != MAGIC_VOLUME
    || s[..DIGEST_SCOPE] == Scope(next)
    || (&& s[DIGEST_SCOPE..DIGEST_SCOPE + 4] == CrcBytes(Crc.Crc32(Scope(next)))
        && exists p: nat :: Crc.ErrorsWithin(Crc.XorBits(Crc.MessageBits(s[..DIGEST_SCOPE]), Crc.MessageBits(Scope(next))), p))
  }

  lemma RefusedIsNotForged(s: Bytes, live: Manifest, next: Manifest)
    requires next.Fits() && next.WellFormed() && |s| == MANIFEST_BYTES && Refused(s, next)
    ensures !Forged(s, live, next)
  {
    hide Decode, Scope, Crc.MessageBits, Crc.ErrorsWithin, CrcBytes, Crc.Crc32, Manifest.WellFormed;
    if s[..4] != MAGIC_VOLUME {
      NoMagic(s);
    } else if s[..DIGEST_SCOPE] == Scope(next) {
      ScopeDown(s, next);
    } else {
      var p: nat :| Crc.ErrorsWithin(Crc.XorBits(Crc.MessageBits(s[..DIGEST_SCOPE]), Crc.MessageBits(Scope(next))), p);
      BurstTearFails(s, next, p);
    }
  }

  /** Every stop inside the manifest write that leaves such a slot is a clean one. */
  lemma RefusedTearIsClean(img: Bytes, job: Job, s: Bytes, img': Bytes)
    requires Ready(img, job) && |s| == MANIFEST_BYTES && TornTo(img, job, s, img') && Refused(s, job.Next())
    ensures CleanStop(img, job, |job.DataOps()| + 1, img')
  {
    hide Usable, Forged, Refused, Supported, StoppedAt, Updated, SlotBytes, Decode, Encoded;
    NextIsWellFormed(img, job);
    RefusedIsNotForged(s, job.m, job.Next());
  }

  /** The erased slot with the second byte of the magic programmed. */
  function OneByteDown(): (s: Bytes)
    ensures |s| == SECTOR_BYTES
  {
    Blank(SECTOR_BYTES)[1 := MAGIC_VOLUME[1]]
  }

  lemma OneByteOf(next: Manifest)
    requires |next.table| == REGION_COUNT
    ensures OnlyClears(OneByteDown(), Encoded(next))
    ensures OneByteDown()[..4] != MAGIC_VOLUME && OneByteDown() != Blank(SECTOR_BYTES) && OneByteDown() != Encoded(next)
  {
    hide ClearsBits, EncodeTable, Le, CrcBytes, Crc.Crc32;
    var s, t := OneByteDown(), Encoded(next);
    assert t[0] == MAGIC_VOLUME[0] && t[1] == MAGIC_VOLUME[1];
    assert s[..4][0] == ERASED_BYTE && s[1] == MAGIC_VOLUME[1];
    forall i | 0 <= i < |s|
      ensures ClearsBits(s[i], t[i])
    {
      ErasedClearsToAnything(t[i]);
      SameClears(t[i]);
    }
  }

  lemma SameClears(b: bv8)
    ensures ClearsBits(b, b)
  {}

  /** Some strict tears are clean: every append has one. */
  lemma CleanTearHappens(img: Bytes, job: Job) returns (img': Bytes)
    requires Ready(img, job)
    ensures TornInInstall(img, job, |job.DataOps()| + 1, img') && CleanStop(img, job, |job.DataOps()| + 1, img')
  {
    hide Usable, Supported, Updated, Encoded, OnlyClears, OneByteDown, CleanStop, TornInInstall, Job.DataOps;
    OneByteOf(job.Next());
    img' := TornProgram(img, job, OneByteDown());
    RefusedTearIsClean(img, job, OneByteDown(), img');
  }

  // ---------------------------------------------------------------- a tear the digest takes

  /** The CRC polynomial, bit for bit, in five bytes: low bit first, its leading term first. */
  const PATTERN: Bytes := [0x41, 0x06, 0x71, 0xDB, 0x01]
  const PATTERN_VALUE: nat := 0x01_DB71_0641
  const ZEROS: Bytes := [0, 0, 0, 0, 0]

  lemma FirstByte()
    ensures Crc.Fed(0, 0x41) == 0x1DB_7106
  {}

  lemma SecondByte()
    ensures Crc.Fed(0x1DB_7106, 0x06) == 0x1_DB71
  {}

  lemma ThirdByte()
    ensures Crc.Fed(0x1_DB71, 0x71) == 0x1DB
  {}

  lemma LastBytes()
    ensures Crc.Fed(0x1DB, 0xDB) == 1 && Crc.Fed(1, 0x01) == 0
  {}

  lemma PatternFolds()
    ensures Crc.Fold(PATTERN, 0) == 0
  {
    hide Crc.Fold, Crc.Fed;
    FirstByte();
    SecondByte();
    ThirdByte();
    LastBytes();
    var p: Bytes, q: Bytes, r: Bytes, l: Bytes := [0x06, 0x71, 0xDB, 0x01], [0x71, 0xDB, 0x01], [0xDB, 0x01], [0x01];
    Crc.FoldByte(0x41, p, 0);
    assert [0x41] + p == PATTERN;
    Crc.FoldByte(0x06, q, 0x1DB_7106);
    assert [0x06] + q == p;
    Crc.FoldByte(0x71, r, 0x1_DB71);
    assert [0x71] + r == q;
    Crc.FoldByte(0xDB, l, 0x1DB);
    assert [0xDB] + l == r;
    Crc.FoldByte(0x01, [], 1);
    assert [0x01] + [] == l;
    Crc.NothingToFold(0);
  }

  /** Fed to a cleared register the polynomial leaves it cleared. */
  lemma PatternVanishes()
    ensures Crc.Register(Crc.MessageBits(PATTERN), 0) == 0
  {
    hide Crc.Register, Crc.MessageBits, Crc.Fold;
    PatternFolds();
    Crc.FoldIsRegister(PATTERN, 0);
  }

  lemma {:induction false} ZeroBits(n: nat)
    ensures Crc.NoErrors(Crc.BitsOf(0, n))
  {
    if n > 0 {
      assert Crc.Half(0) == 0;
      ZeroBits(n - 1);
    }
  }

  lemma {:induction false} ZeroBytes(z: Bytes)
    requires forall i :: 0 <= i < |z| ==> z[i] == 0
    ensures Crc.NoErrors(Crc.MessageBits(z))
  {
    hide Crc.BitsOf;
    if z != [] {
      assert Crc.Widen(0) == 0;
      ZeroBits(8);
      ZeroBytes(z[1..]);
    }
  }

  lemma EqualWords(a: bv32, b: bv32)
    ensures Crc.Xor(a, b) == 0 <==> a == b
  {
    hide Crc.Xor;
    Crc.XorAssociates(a, b, b);
    Crc.XorZero(a);
    Crc.XorZero(b);
  }

  /** In place of zeros the polynomial leaves the register as the zeros would, whatever it held. */
  lemma PatternUnseen(c: bv32)
    ensures Crc.Fold(PATTERN, c) == Crc.Fold(ZEROS, c)
  {
    hide Crc.Fold, Crc.Register, Crc.MessageBits, Crc.Xor;
    var x, y := Crc.MessageBits(PATTERN), Crc.MessageBits(ZEROS);
    Crc.FoldIsRegister(PATTERN, c);
    Crc.FoldIsRegister(ZEROS, c);
    Crc.RegisterXor(x, y, c, c);
    ZeroBytes(ZEROS);
    assert Crc.XorBits(x, y) == x;
    EqualWords(c, c);
    PatternVanishes();
    EqualWords(Crc.Register(x, c), Crc.Register(y, c));
  }

  lemma {:induction false} FoldConcat(a: Bytes, b: Bytes, c: bv32)
    ensures Crc.Fold(a + b, c) == Crc.Fold(b, Crc.Fold(a, c))
  {
    hide Crc.Entry, Crc.LowByte, Crc.Xor, Crc.Widen, Crc.Shift8;
    if a == [] {
      assert a + b == b;
    } else {
      assert (a + b)[1..] == a[1..] + b;
      var next := Crc.Xor(Crc.Entry(Crc.LowByte(Crc.Xor(c, Crc.Widen(a[0])))), Crc.Shift8(c));
      FoldConcat(a[1..], b, next);
    }
  }

  /** So two messages that differ by it alone share their CRC. */
  lemma SameCrc(a: Bytes, b: Bytes)
    ensures Crc.Crc32(a + PATTERN + b) == Crc.Crc32(a + ZEROS + b)
  {
    hide Crc.Fold, Crc.Xor;
    FoldConcat(a, PATTERN, Crc.SEED);
    FoldConcat(a, ZEROS, Crc.SEED);
    FoldConcat(a + PATTERN, b, Crc.SEED);
    FoldConcat(a + ZEROS, b, Crc.SEED);
    PatternUnseen(Crc.Fold(a, Crc.SEED));
  }

  // ---------------------------------------------------------------- inside the sequence number

  /** Sequences below this leave the five high bytes of the field zero. */
  const LOW_SEQUENCE: nat := 0x100_0000

  /** The manifest that reads from the new one with the polynomial left in its sequence number. */
  function Stray(next: Manifest): Manifest {
    next.(sequence := next.sequence + LOW_SEQUENCE * PATTERN_VALUE)
  }

  /** A number above a power of 256 is stored low part first. */
  lemma {:induction false} LeSplit(n: nat, g: nat, k: nat, w: nat)
    requires n < Pow256(k)
    ensures Le(n + Pow256(k) * g, k + w) == Le(n, k) + Le(g, w)
    decreases k
  {
    hide Crc.ByteAt;
    if k == 0 {
      assert Le(n, 0) == [];
    } else {
      LowDigit(n, Pow256(k - 1) * g);
      Regroup(256, Pow256(k - 1), g);
      LeSplit(n / 256, g, k - 1, w);
    }
  }

  lemma LowDigit(n: nat, h: nat)
    ensures (n + 256 * h) % 256 == n % 256 && (n + 256 * h) / 256 == n / 256 + h
  {}

  lemma ByteOf(b: bv8)
    ensures Crc.ByteAt(Crc.Slot(b)) == b
  {
    hide Crc.ByteAt, Crc.Slot;
    Crc.SlotOfByteAt(Crc.Slot(b));
    Crc.SlotInjective(Crc.ByteAt(Crc.Slot(b)), b);
  }

  lemma OneMoreByte(n: nat, q: nat, b: bv8, w: nat)
    requires n == 256 * q + Crc.Slot(b)
    ensures Le(n, w + 1) == [b] + Le(q, w)
  {
    hide Crc.ByteAt, Crc.Slot;
    ByteOf(b);
    LowDigit(Crc.Slot(b), q);
  }

  lemma PatternBytes()
    ensures Le(PATTERN_VALUE, 5) == PATTERN
  {
    hide Le;
    OneMoreByte(PATTERN_VALUE, 0x1_DB71_06, 0x41, 4);
    OneMoreByte(0x1_DB71_06, 0x1_DB71, 0x06, 3);
    OneMoreByte(0x1_DB71, 0x1_DB, 0x71, 2);
    OneMoreByte(0x1_DB, 0x1, 0xDB, 1);
    OneMoreByte(0x1, 0, 0x01, 0);
    NoBytes(0);
  }

  lemma ZerosBytes()
    ensures Le(0, 5) == ZEROS
  {
    hide Le;
    OneMoreByte(0, 0, 0, 4);
    OneMoreByte(0, 0, 0, 3);
    OneMoreByte(0, 0, 0, 2);
    OneMoreByte(0, 0, 0, 1);
    OneMoreByte(0, 0, 0, 0);
    NoBytes(0);
  }

  lemma NoBytes(n: nat)
    ensures Le(n, 0) == []
  {}

  lemma ThreeBytes()
    ensures Pow256(3) == LOW_SEQUENCE
  {}

  lemma SequenceBytes(sequence: nat)
    requires sequence < LOW_SEQUENCE
    ensures Le(sequence, 8) == Le(sequence, 3) + ZEROS
    ensures Le(sequence + LOW_SEQUENCE * PATTERN_VALUE, 8) == Le(sequence, 3) + PATTERN
  {
    hide Le, Pow256;
    ThreeBytes();
    PatternBytes();
    ZerosBytes();
    LeSplit(sequence, 0, 3, 5);
    LeSplit(sequence, PATTERN_VALUE, 3, 5);
  }

  /** The bytes before and after the high part of the sequence number. */
  function Before(m: Manifest): (s: Bytes)
    ensures |s| == 11
  {
    MAGIC_VOLUME + Le(FORMAT_VERSION, 2) + Le(0, 2) + Le(m.sequence, 3)
  }

  function Behind(m: Manifest): (s: Bytes)
    requires |m.table| == REGION_COUNT
    ensures |s| == DIGEST_SCOPE - 16
  {
    Le(m.d, 2) + Le(m.m, 2) + Le(m.b, 2) + Le(m.cbBytes, 2)
    + Le(m.n, 4) + Le(m.r, 4) + Le(m.builtN, 4) + Le(m.appendedFrom, 4) + EncodeTable(m.table)
  }

  lemma ScopesDiffer(next: Manifest)
    requires |next.table| == REGION_COUNT && next.sequence < LOW_SEQUENCE
    ensures Scope(next) == Before(next) + ZEROS + Behind(next)
    ensures Scope(Stray(next)) == Before(next) + PATTERN + Behind(next)
  {
    hide Le, EncodeTable;
    SequenceBytes(next.sequence);
  }

  /** A tear of the new manifest can leave the stray one, digest and all. */
  lemma StrayFits(next: Manifest)
    requires next.Fits() && next.sequence < LOW_SEQUENCE
    ensures OnlyClears(Encoded(Stray(next)), Encoded(next))
  {
    hide Before, Behind, Scope, CrcBytes, Crc.Crc32, TableFits, ClearsBits;
    ScopesDiffer(next);
    SameCrc(Before(next), Behind(next));
    var s, t := Encoded(Stray(next)), Encoded(next);
    var rest := Behind(next) + CrcBytes(Crc.Crc32(Scope(next))) + Blank(MANIFEST_BYTES - DIGEST_SCOPE - 4);
    assert s == Before(next) + PATTERN + rest && t == Before(next) + ZEROS + rest;
    forall i | 0 <= i < |s|
      ensures ClearsBits(s[i], t[i])
    {
      SameClears(s[i]);
      ZeroClears(s[i]);
    }
  }

  lemma ZeroClears(b: bv8)
    ensures ClearsBits(b, 0)
  {}

  lemma StrayDecodes(next: Manifest)
    requires next.Fits() && next.WellFormed() && next.sequence < LOW_SEQUENCE
    ensures Decode(Encoded(Stray(next))) == Ok(Stray(next))
  {
    hide ValidateTable, TableFits, Decode, Encoded;
    ManifestRoundTrip(Stray(next));
  }

  /**
   The hypothesis of a clean stop is needed: on any volume of fewer than 2^24 installs, a tear
   of the manifest write can leave a slot that mounts as neither the old manifest nor the new.
   */
  lemma TearForges(img: Bytes, job: Job) returns (img': Bytes)
    requires Ready(img, job) && job.m.sequence + 1 < LOW_SEQUENCE
    ensures MANIFEST_RESERVED_BYTES <= |img| == |img'|
    ensures StoppedAt(img, job, |job.DataOps()| + 1, img')
    ensures Forged(SlotBytes(img', job.Spare()), job.m, job.Next()) && !MountsOldOrNew(img', job)
  {
    hide Usable, Supported, Encoded, Decode, OnlyClears, StoppedAt, SlotBytes, Job.DataOps, TornInInstall, Mounted,
      Job.Ops, ValidateTable, Written, SameBlock, Bounded, CrashState, PayloadArea, RerankArea;
    var next := job.Next();
    NextIsWellFormed(img, job);
    NextSequence(job);
    StrayFits(next);
    StrayDecodes(next);
    img' := TornProgram(img, job, Encoded(Stray(next)));
    AppendIsAtomic(img, job, |job.DataOps()| + 1, img');
  }
}
