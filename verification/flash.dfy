/**
 Program-once flash: a byte image, and the two operations that change it, either of which
 power loss may tear.
 */
module Flash {
  import opened Options

  type Bytes = seq<bv8>

  const ERASED_BYTE: bv8 := 0xFF
  const BLOCK_BYTES: nat := 512
  const SECTOR_BYTES: nat := 4096
  const SLOT_A: nat := 0
  const SLOT_B: nat := 4096

  // ---------------------------------------------------------------- reading and overwriting

  function Slice(img: Bytes, at: nat, n: nat): (s: Bytes)
    requires at + n <= |img|
    ensures |s| == n
  {
    img[at..at + n]
  }

  function Write(img: Bytes, at: nat, data: Bytes): (r: Bytes)
    requires at + |data| <= |img|
    ensures |r| == |img|
  {
    img[..at] + data + img[at + |data|..]
  }

  lemma WriteThenRead(img: Bytes, at: nat, data: Bytes)
    requires at + |data| <= |img|
    ensures Slice(Write(img, at, data), at, |data|) == data
  {}

  predicate Apart(a: nat, n: nat, b: nat, m: nat) {
    a + n <= b || b + m <= a
  }

  lemma WriteElsewhere(img: Bytes, at: nat, data: Bytes, b: nat, m: nat)
    requires at + |data| <= |img| && b + m <= |img| && Apart(at, |data|, b, m)
    ensures Slice(Write(img, at, data), b, m) == Slice(img, b, m)
  {}

  /** A slice inside another is read through it. */
  lemma SliceOfSlice(img: Bytes, at: nat, n: nat, b: nat, m: nat)
    requires at + n <= |img| && b + m <= n
    ensures Slice(Slice(img, at, n), b, m) == Slice(img, at + b, m)
  {
    var u, t := Slice(Slice(img, at, n), b, m), Slice(img, at + b, m);
    forall i | 0 <= i < m
      ensures u[i] == t[i]
    {
      assert Slice(img, at, n)[b + i] == img[at + (b + i)];
    }
  }

  lemma WriteAfterWrite(img: Bytes, at: nat, a: Bytes, b: Bytes)
    requires at + |a| + |b| <= |img|
    ensures Write(Write(img, at, a), at + |a|, b) == Write(img, at, a + b)
  {}

  lemma WriteNothing(img: Bytes, at: nat)
    requires at <= |img|
    ensures Write(img, at, []) == img
  {}

  lemma WriteByte(img: Bytes, at: nat, data: Bytes)
    requires at + |data| < |img|
    ensures forall b :: Write(img, at, data)[at + |data| := b] == Write(img, at, data + [b])
  {}

  /** Copy `data` into `buf` at `at`, byte by byte. */
  method CopyInto(buf: array<bv8>, at: nat, data: Bytes)
    requires at + |data| <= buf.Length
    modifies buf
    ensures buf[..] == Write(old(buf[..]), at, data)
  {
    hide Write;
    ghost var was := buf[..];
    WriteNothing(was, at);
    assert data[..0] == [];
    var i := 0;
    while i < |data|
      invariant 0 <= i <= |data|
      invariant buf[..] == Write(was, at, data[..i])
    {
      WriteByte(was, at, data[..i]);
      assert data[..i] + [data[i]] == data[..i + 1];
      buf[at + i] := data[i];
      i := i + 1;
    }
    assert data[..i] == data;
  }

  predicate IsErased(s: Bytes) {
    forall i :: 0 <= i < |s| ==> s[i] == ERASED_BYTE
  }

  function Blank(n: nat): (s: Bytes)
    ensures |s| == n && IsErased(s)
  {
    seq(n, _ => ERASED_BYTE)
  }

  lemma ErasedIsBlank(s: Bytes)
    requires IsErased(s)
    ensures s == Blank(|s|)
  {}

  // ---------------------------------------------------------------- the program-once rule

  /** Going from `old` to `now` clears bits and sets none. */
  predicate ClearsBits(was: bv8, now: bv8) {
    now & !was == 0
  }

  predicate OnlyClears(was: Bytes, now: Bytes) {
    |was| == |now| && forall i :: 0 <= i < |was| ==> ClearsBits(was[i], now[i])
  }

  /** Every bit set in `now` is set in `was`. */
  predicate Subset(was: Bytes, now: Bytes) {
    |was| == |now| && forall i :: 0 <= i < |now| ==> was[i] & now[i] == now[i]
  }

  lemma BitsKept(was: bv8, now: bv8)
    ensures ClearsBits(was, now) <==> was & now == now
  {}

  lemma ClearsIffSubset(img: Bytes, addr: nat, data: Bytes)
    requires addr + |data| <= |img|
    ensures OnlyClears(Slice(img, addr, |data|), data) <==> Subset(img[addr..addr + |data|], data)
  {
    hide ClearsBits;
    forall i | 0 <= i < |data|
      ensures ClearsBits(img[addr + i], data[i]) <==> img[addr + i] & data[i] == data[i]
    {
      BitsKept(img[addr + i], data[i]);
    }
  }

  lemma ErasedClearsToAnything(b: bv8)
    ensures ClearsBits(ERASED_BYTE, b)
  {}

  lemma ErasedTakesAnything(was: Bytes, now: Bytes)
    requires |was| == |now| && IsErased(was)
    ensures OnlyClears(was, now)
  {
    hide ClearsBits;
    forall i | 0 <= i < |was|
      ensures ClearsBits(was[i], now[i])
    {
      ErasedClearsToAnything(now[i]);
    }
  }

  // ---------------------------------------------------------------- operations

  datatype Op = Program(addr: nat, data: Bytes) | Erase(addr: nat)

  function OpLength(op: Op): nat {
    match op
    case Program(_, data) => |data|
    case Erase(_) => SECTOR_BYTES
  }

  predicate InBounds(img: Bytes, op: Op) {
    op.addr + OpLength(op) <= |img|
  }

  /** What the writable volume accepts: clearing programs anywhere, erases of manifest slots only. */
  predicate Legal(img: Bytes, op: Op) {
    InBounds(img, op) &&
    match op
    case Program(addr, data) => OnlyClears(Slice(img, addr, |data|), data)
    case Erase(addr) => addr == SLOT_A || addr == SLOT_B
  }

  function OpBytes(op: Op): (s: Bytes)
    ensures |s| == OpLength(op)
  {
    match op
    case Program(_, data) => data
    case Erase(_) => Blank(SECTOR_BYTES)
  }

  function Apply(img: Bytes, op: Op): (r: Bytes)
    requires InBounds(img, op)
    ensures |r| == |img|
  {
    Write(img, op.addr, OpBytes(op))
  }

  ghost predicate AllInBounds(size: nat, ops: seq<Op>) {
    forall i :: 0 <= i < |ops| ==> ops[i].addr + OpLength(ops[i]) <= size
  }

  ghost function ApplyAll(img: Bytes, ops: seq<Op>): (r: Bytes)
    requires AllInBounds(|img|, ops)
    ensures |r| == |img|
    decreases |ops|
  {
    if ops == [] then img
    else Apply(ApplyAll(img, ops[..|ops| - 1]), ops[|ops| - 1])
  }

  /** Every operation is legal where it happens. */
  ghost predicate AllLegal(img: Bytes, ops: seq<Op>) {
    && AllInBounds(|img|, ops)
    && forall i :: 0 <= i < |ops| ==> Legal(ApplyAll(img, ops[..i]), ops[i])
  }

  /**
   What a power loss inside `op` can leave: its range holds, bit by bit, anything between
   the old content and the new; nothing else changes. A program moves bits from one to
   zero, an erase from zero to one.
   */
  ghost predicate Torn(img: Bytes, op: Op, img': Bytes) {
    InBounds(img, op) && |img'| == |img| &&
    var was := Slice(img, op.addr, OpLength(op));
    var now := Slice(img', op.addr, OpLength(op));
    && img' == Write(img, op.addr, now)
    && match op
       case Program(_, data) => OnlyClears(was, now) && OnlyClears(now, data)
       case Erase(_) => OnlyClears(now, was)
  }

  lemma TornElsewhere(img: Bytes, op: Op, img': Bytes, at: nat, n: nat)
    requires Torn(img, op, img') && at + n <= |img| && Apart(op.addr, OpLength(op), at, n)
    ensures |img'| == |img| && Slice(img', at, n) == Slice(img, at, n)
  {
    hide Slice, Write, OnlyClears;
    WriteElsewhere(img, op.addr, Slice(img', op.addr, OpLength(op)), at, n);
  }

  /** A crash after `j` whole operations, or inside the next. */
  ghost predicate CrashState(img: Bytes, ops: seq<Op>, j: nat, img': Bytes)
    requires AllInBounds(|img|, ops)
  {
    j <= |ops| &&
    (img' == ApplyAll(img, ops[..j]) || (j < |ops| && Torn(ApplyAll(img, ops[..j]), ops[j], img')))
  }

  /** The image after the first `j` operations. */
  ghost function After(img: Bytes, ops: seq<Op>, j: nat): (r: Bytes)
    requires AllInBounds(|img|, ops) && j <= |ops|
    ensures |r| == |img|
  {
    ApplyAll(img, ops[..j])
  }

  /** Power failed inside operation `j`, leaving neither the image before it nor the one after. */
  ghost predicate StrictlyInside(img: Bytes, ops: seq<Op>, j: nat, img': Bytes)
    requires AllInBounds(|img|, ops)
  {
    j < |ops| && img' != After(img, ops, j) && img' != After(img, ops, j + 1)
  }

  /** Every operation's range keeps clear of `[at, at + n)`. */
  ghost predicate AllApart(ops: seq<Op>, at: nat, n: nat) {
    forall i :: 0 <= i < |ops| ==> Apart(ops[i].addr, OpLength(ops[i]), at, n)
  }

  lemma {:induction false} ApplyAllElsewhere(img: Bytes, ops: seq<Op>, at: nat, n: nat)
    requires AllInBounds(|img|, ops) && at + n <= |img| && AllApart(ops, at, n)
    ensures Slice(ApplyAll(img, ops), at, n) == Slice(img, at, n)
    decreases |ops|
  {
    hide Slice, Write;
    if ops != [] {
      var k := |ops| - 1;
      ApplyAllElsewhere(img, ops[..k], at, n);
      WriteElsewhere(ApplyAll(img, ops[..k]), ops[k].addr, OpBytes(ops[k]), at, n);
    }
  }

  /** A crash leaves every byte the operations keep clear of as it was. */
  lemma CrashElsewhere(img: Bytes, ops: seq<Op>, j: nat, img': Bytes, at: nat, n: nat)
    requires AllInBounds(|img|, ops) && at + n <= |img| && AllApart(ops, at, n)
    requires CrashState(img, ops, j, img')
    ensures |img'| == |img| && Slice(img', at, n) == Slice(img, at, n)
  {
    hide Slice, Write;
    ApplyAllElsewhere(img, ops[..j], at, n);
    if img' != ApplyAll(img, ops[..j]) {
      TornElsewhere(ApplyAll(img, ops[..j]), ops[j], img', at, n);
    }
  }

  lemma {:induction false} ApplyAllConcat(img: Bytes, a: seq<Op>, b: seq<Op>)
    requires AllInBounds(|img|, a) && AllInBounds(|img|, b)
    ensures AllInBounds(|img|, a + b)
    ensures ApplyAll(img, a + b) == ApplyAll(ApplyAll(img, a), b)
    decreases |b|
  {
    hide Write;
    if b == [] {
      assert a + b == a;
    } else {
      var k := |b| - 1;
      assert (a + b)[..|a + b| - 1] == a + b[..k];
      assert AllInBounds(|img|, b[..k]);
      ApplyAllConcat(img, a, b[..k]);
    }
  }

  /** A crash inside a longer run is a crash inside the first part, or inside the second after all of the first. */
  lemma CrashSplit(img: Bytes, a: seq<Op>, b: seq<Op>, j: nat, img': Bytes)
    requires AllInBounds(|img|, a) && AllInBounds(|img|, b) && AllInBounds(|img|, a + b)
    requires CrashState(img, a + b, j, img')
    ensures j < |a| ==> CrashState(img, a, j, img')
    ensures j >= |a| ==> CrashState(ApplyAll(img, a), b, j - |a|, img')
  {
    hide Torn, ApplyAll;
    if j < |a| {
      assert (a + b)[..j] == a[..j];
    } else {
      assert (a + b)[..j] == a + b[..j - |a|];
      assert AllInBounds(|img|, b[..j - |a|]);
      ApplyAllConcat(img, a, b[..j - |a|]);
    }
  }

  /** No two operations touch the same byte. */
  ghost predicate PairwiseApart(ops: seq<Op>) {
    forall i, k :: 0 <= i < k < |ops| ==> Apart(ops[i].addr, OpLength(ops[i]), ops[k].addr, OpLength(ops[k]))
  }

  /** Among operations that never overlap, each finds its target as it was at the start. */
  lemma TargetUntouched(img: Bytes, ops: seq<Op>, i: nat)
    requires AllInBounds(|img|, ops) && PairwiseApart(ops) && i < |ops|
    ensures Slice(ApplyAll(img, ops[..i]), ops[i].addr, OpLength(ops[i])) == Slice(img, ops[i].addr, OpLength(ops[i]))
  {
    ApplyAllElsewhere(img, ops[..i], ops[i].addr, OpLength(ops[i]));
  }

  /** ... and what it wrote is still there at the end. */
  lemma {:induction false} WrittenStays(img: Bytes, ops: seq<Op>, i: nat)
    requires AllInBounds(|img|, ops) && PairwiseApart(ops) && i < |ops|
    ensures Slice(ApplyAll(img, ops), ops[i].addr, OpLength(ops[i])) == OpBytes(ops[i])
    decreases |ops|
  {
    hide Slice, Write;
    var k := |ops| - 1;
    var mid := ApplyAll(img, ops[..k]);
    if i < k {
      WrittenStays(img, ops[..k], i);
      WriteElsewhere(mid, ops[k].addr, OpBytes(ops[k]), ops[i].addr, OpLength(ops[i]));
    } else {
      WriteThenRead(mid, ops[k].addr, OpBytes(ops[k]));
    }
  }

  /** Programs of erased, separate ranges are all legal, in any number. */
  lemma ProgramsOfErasedAreLegal(img: Bytes, ops: seq<Op>)
    requires AllInBounds(|img|, ops) && PairwiseApart(ops)
    requires forall i :: 0 <= i < |ops| ==> ops[i].Program? && IsErased(Slice(img, ops[i].addr, OpLength(ops[i])))
    ensures AllLegal(img, ops)
  {
    hide Slice, Write, OnlyClears;
    forall i | 0 <= i < |ops|
      ensures Legal(ApplyAll(img, ops[..i]), ops[i])
    {
      TargetUntouched(img, ops, i);
      ErasedTakesAnything(Slice(img, ops[i].addr, OpLength(ops[i])), ops[i].data);
    }
  }

  /** Running `ops` until the first that the flash refuses: `done` of them happened. */
  ghost predicate Ran(img: Bytes, ops: seq<Op>, done: nat, img': Bytes) {
    && done <= |ops|
    && AllLegal(img, ops[..done])
    && img' == ApplyAll(img, ops[..done])
    && (done < |ops| ==> !Legal(img', ops[done]))
  }

  lemma RanNothing(img: Bytes)
    ensures Ran(img, [], 0, img)
  {}

  /** A run of legal operations goes through. */
  lemma LegalRunsCompletely(img: Bytes, ops: seq<Op>, done: nat, img': Bytes)
    requires AllLegal(img, ops) && Ran(img, ops, done, img')
    ensures done == |ops| && img' == ApplyAll(img, ops)
  {
    hide Legal, Apply, ApplyAll;
    assert ops[..|ops|] == ops;
  }

  lemma LegalConcat(img: Bytes, a: seq<Op>, b: seq<Op>)
    requires AllLegal(img, a) && AllLegal(ApplyAll(img, a), b)
    ensures AllLegal(img, a + b)
    ensures ApplyAll(img, a + b) == ApplyAll(ApplyAll(img, a), b)
  {
    hide Legal, Apply, ApplyAll;
    ApplyAllConcat(img, a, b);
    forall i | 0 <= i < |a + b|
      ensures Legal(ApplyAll(img, (a + b)[..i]), (a + b)[i])
    {
      if i < |a| {
        assert (a + b)[..i] == a[..i];
      } else {
        assert (a + b)[..i] == a + b[..i - |a|];
        assert AllInBounds(|img|, b[..i - |a|]);
        ApplyAllConcat(img, a, b[..i - |a|]);
      }
    }
  }

  /** Every operation a run got through was in bounds. */
  lemma RanInBounds(img: Bytes, ops: seq<Op>, done: nat, img': Bytes, i: nat)
    requires Ran(img, ops, done, img') && i < |ops|
    ensures i < done ==> ops[i].addr + OpLength(ops[i]) <= |img|
  {
    hide Legal, Apply, ApplyAll;
    assert i < done ==> ops[..done][i] == ops[i];
  }

  /** Running on after a completed run. */
  lemma RanThen(img: Bytes, a: seq<Op>, mid: Bytes, b: seq<Op>, done: nat, img': Bytes)
    requires Ran(img, a, |a|, mid) && Ran(mid, b, done, img')
    ensures Ran(img, a + b, |a| + done, img')
  {
    hide Legal, Apply, ApplyAll;
    assert a[..|a|] == a;
    assert (a + b)[..|a| + done] == a + b[..done];
    LegalConcat(img, a, b[..done]);
  }

  /** A run gets through a first part that is legal. */
  lemma RanReaches(img: Bytes, a: seq<Op>, b: seq<Op>, done: nat, img': Bytes)
    requires AllLegal(img, a) && Ran(img, a + b, done, img')
    ensures done >= |a|
  {
    hide Legal, Apply, ApplyAll;
    var d := if done < |a| then done else |a|;
    assert (a + b)[..d] == a[..d];
  }

  /** ... and the rest of it is a run of the second. */
  lemma RanRest(img: Bytes, a: seq<Op>, b: seq<Op>, done: nat, img': Bytes)
    requires AllLegal(img, a) && Ran(img, a + b, done, img')
    ensures done >= |a| && Ran(ApplyAll(img, a), b, done - |a|, img')
  {
    hide Legal, Apply, ApplyAll;
    RanReaches(img, a, b, done, img');
    var k := done - |a|;
    assert (a + b)[..done] == a + b[..k];
    RestInBounds(|img|, a, b, k);
    ApplyAllConcat(img, a, b[..k]);
    forall i | 0 <= i < k
      ensures Legal(ApplyAll(ApplyAll(img, a), b[..k][..i]), b[..k][i])
    {
      assert (a + b)[..done][..|a| + i] == a + b[..k][..i];
      assert (a + b)[..done][|a| + i] == b[..k][i];
      ApplyAllConcat(img, a, b[..k][..i]);
    }
  }

  lemma RestInBounds(size: nat, a: seq<Op>, b: seq<Op>, k: nat)
    requires k <= |b| && AllInBounds(size, a + b[..k])
    ensures AllInBounds(size, b[..k])
  {
    forall i | 0 <= i < k
      ensures b[..k][i].addr + OpLength(b[..k][i]) <= size
    {
      assert (a + b[..k])[|a| + i] == b[..k][i];
    }
  }

  /** A run that was refused stays refused whatever was to follow. */
  lemma RanShort(img: Bytes, a: seq<Op>, b: seq<Op>, done: nat, img': Bytes)
    requires Ran(img, a, done, img') && done < |a|
    ensures Ran(img, a + b, done, img')
  {
    hide Legal, Apply, ApplyAll;
    assert (a + b)[..done] == a[..done];
  }

  // ---------------------------------------------------------------- the volume file

  datatype FlashError = OutOfBounds(addr: nat) | ReadOnly

  /** A file opened for the append path, emulating program-once flash; `log` records its writes. */
  class WritableVolume {
    var image: Bytes
    ghost var log: seq<Op>

    constructor (image: Bytes)
      ensures this.image == image && log == []
    {
      this.image := image;
      this.log := [];
    }

    method Read(addr: nat, len: nat) returns (r: Result<Bytes, FlashError>)
      ensures r == if addr + len <= |image| then Ok(Slice(image, addr, len)) else Err(OutOfBounds(addr))
    {
      if addr + len > |image| {
        return Err(OutOfBounds(addr));
      }
      return Ok(Slice(image, addr, len));
    }

    /** Refused, with nothing written, when out of bounds or when a cleared bit would be set. */
    method Program(addr: nat, data: Bytes) returns (r: Result<(), FlashError>)
      modifies this
      ensures var op := Op.Program(addr, data);
              && (r.Ok? <==> Legal(old(image), op))
              && (r.Ok? ==> image == Apply(old(image), op) && log == old(log) + [op])
              && (r.Err? ==> image == old(image) && log == old(log))
      ensures r.Ok? <==> addr + |data| <= |old(image)| && Subset(old(image)[addr..addr + |data|], data)
    {
      hide ClearsBits;
      if addr + |data| > |image| {
        return Err(OutOfBounds(addr));
      }
      ClearsIffSubset(image, addr, data);
      var was := Slice(image, addr, |data|);
      var i := 0;
      while i < |data|
        invariant 0 <= i <= |data|
        invariant forall k :: 0 <= k < i ==> ClearsBits(was[k], data[k])
      {
        if !ClearsBits(was[i], data[i]) {
          assert !OnlyClears(was, data);
          return Err(OutOfBounds(addr + i));
        }
        i := i + 1;
      }
      image := Write(image, addr, data);
      log := log + [Op.Program(addr, data)];
      return Ok(());
    }

    /** Only the two manifest slots may be erased. */
    method Erase(addr: nat) returns (r: Result<(), FlashError>)
      requires SLOT_B + SECTOR_BYTES <= |image|
      modifies this
      ensures var op := Op.Erase(addr);
              && (r.Ok? <==> Legal(old(image), op))
              && (r.Ok? ==> image == Apply(old(image), op) && log == old(log) + [op])
              && (r.Err? ==> image == old(image) && log == old(log))
    {
      if addr != SLOT_A && addr != SLOT_B {
        return Err(ReadOnly);
      }
      image := Write(image, addr, Blank(SECTOR_BYTES));
      log := log + [Op.Erase(addr)];
      return Ok(());
    }
  }
}
