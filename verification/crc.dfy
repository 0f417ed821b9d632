/** CRC-32: the table-driven form, the bit-at-a-time register it stands for, and the bursts it detects. */
module Crc {
  // The register is the reflected one of section 3.2.9 of IEEE 802.3. Word operations are
  // named so that proofs can work from their algebra: only the small lemmas of the first
  // section look inside them.

  /** Reflected polynomial. */
  const POLYNOMIAL: bv32 := 0xEDB8_8320

  /** Initial and final register value. */
  const SEED: bv32 := 0xFFFF_FFFF

  // ---------------------------------------------------------------- word operations

  function Xor(a: bv32, b: bv32): bv32 {
    a ^ b
  }

  function Half(w: bv32): bv32 {
    w >> 1
  }

  function Shift8(w: bv32): bv32 {
    w >> 8
  }

  function Shift4(w: bv32): bv32 {
    w >> 4
  }

  predicate Odd(w: bv32) {
    w & 1 != 0
  }

  function BitWord(b: bool): bv32 {
    if b then 1 else 0
  }

  function Widen(b: bv8): bv32 {
    b as bv32
  }

  function LowByte(w: bv32): bv8 {
    (w & 0xFF) as bv8
  }

  function AboveByte(w: bv32): bv32 {
    w & 0xFFFF_FF00
  }

  predicate TopClear(w: bv32) {
    w & 0x8000_0000 == 0
  }

  lemma XorCommutes(a: bv32, b: bv32)
    ensures Xor(a, b) == Xor(b, a)
  {}

  lemma XorAssociates(a: bv32, b: bv32, c: bv32)
    ensures Xor(Xor(a, b), c) == Xor(a, Xor(b, c))
  {}

  lemma XorZero(a: bv32)
    ensures Xor(a, 0) == a && Xor(0, a) == a && Xor(a, a) == 0
  {}

  lemma XorInterchange(a: bv32, b: bv32, c: bv32, d: bv32)
    ensures Xor(Xor(a, b), Xor(c, d)) == Xor(Xor(a, c), Xor(b, d))
  {
    hide Xor;
    XorAssociates(a, b, Xor(c, d));
    XorAssociates(b, c, d);
    XorCommutes(b, c);
    XorAssociates(c, b, d);
    XorAssociates(a, c, Xor(b, d));
  }

  lemma HalfXor(a: bv32, b: bv32)
    ensures Half(Xor(a, b)) == Xor(Half(a), Half(b))
  {}

  lemma LowBitXor(a: bv32, b: bv32)
    ensures (a ^ b) & 1 == (a & 1) ^ (b & 1)
  {}

  lemma LowBit(a: bv32)
    ensures a & 1 == 0 || a & 1 == 1
  {}

  lemma OddXor(a: bv32, b: bv32)
    ensures Odd(Xor(a, b)) <==> Odd(a) != Odd(b)
  {
    LowBitXor(a, b);
    LowBit(a);
    LowBit(b);
  }

  /** A word is its low bit and the rest; the rest halves like the word. */
  lemma SplitWord(w: bv32)
    ensures var rest := w & 0xFFFF_FFFE;
            w == Xor(BitWord(Odd(w)), rest) && !Odd(rest) && Half(rest) == Half(w)
  {
    LowBit(w);
    SplitBits(w);
  }

  lemma SplitBits(w: bv32)
    ensures w == (w & 1) ^ (w & 0xFFFF_FFFE)
    ensures (w & 0xFFFF_FFFE) & 1 == 0 && (w & 0xFFFF_FFFE) >> 1 == w >> 1
  {}

  lemma HalvesDetermine(v: bv32, w: bv32)
    requires Half(v) == Half(w) && (Odd(v) <==> Odd(w))
    ensures v == w
  {
    LowBit(v);
    LowBit(w);
  }

  lemma ByteParts(w: bv32)
    ensures w == Xor(Widen(LowByte(w)), AboveByte(w))
  {}

  lemma ShiftIgnoresByte(c: bv32, b: bv8)
    ensures Shift8(Xor(c, Widen(b))) == Shift8(c) && Shift8(Widen(b)) == 0
  {}

  lemma HalfFourTimes(w: bv32)
    ensures Half(Half(Half(Half(w)))) == Shift4(w)
  {}

  lemma WidenInjective(a: bv8, b: bv8)
    requires Widen(a) == Widen(b)
    ensures a == b
  {}

  // ---------------------------------------------------------------- the register's step

  /** Shift one bit out of the register, folding the polynomial in when it was set. */
  function Step(c: bv32): bv32 {
    if Odd(c) then Xor(POLYNOMIAL, Half(c)) else Half(c)
  }

  function Steps(n: nat, c: bv32): bv32 {
    if n == 0 then c else Steps(n - 1, Step(c))
  }

  function Tap(odd: bool): bv32 {
    if odd then POLYNOMIAL else 0
  }

  lemma StepForm(c: bv32)
    ensures Step(c) == Xor(Tap(Odd(c)), Half(c))
  {
    hide Xor, Odd, Half;
    XorZero(Half(c));
  }

  lemma TapXor(a: bool, b: bool)
    ensures Tap(a != b) == Xor(Tap(a), Tap(b))
  {
    hide Xor;
    XorZero(POLYNOMIAL);
    XorZero(0);
  }

  /** The step is linear. */
  lemma StepXor(a: bv32, b: bv32)
    ensures Step(Xor(a, b)) == Xor(Step(a), Step(b))
  {
    hide Step, Tap, Xor, Half, Odd;
    StepForm(a);
    StepForm(b);
    StepForm(Xor(a, b));
    HalfXor(a, b);
    OddXor(a, b);
    TapXor(Odd(a), Odd(b));
    XorInterchange(Tap(Odd(a)), Tap(Odd(b)), Half(a), Half(b));
  }

  lemma {:induction false} StepsXor(n: nat, a: bv32, b: bv32)
    ensures Steps(n, Xor(a, b)) == Xor(Steps(n, a), Steps(n, b))
  {
    hide Step, Xor;
    if n > 0 {
      StepXor(a, b);
      StepsXor(n - 1, Step(a), Step(b));
    }
  }

  /** The polynomial's top bit is set, so a non-zero register never steps to zero. */
  lemma StepZero(c: bv32)
    ensures Step(c) == 0 <==> c == 0
  {}

  /** A word's low bit steps; the rest of it only shifts. */
  lemma StepSplit(r: bv32, w: bv32)
    ensures Step(Xor(r, w)) == Xor(Step(Xor(r, BitWord(Odd(w)))), Half(w))
  {
    hide Xor, Half, Odd, BitWord;
    var bit, rest := BitWord(Odd(w)), w & 0xFFFF_FFFE;
    SplitWord(w);
    XorAssociates(r, bit, rest);
    StepXor(Xor(r, bit), rest);
  }

  // ---------------------------------------------------------------- bits

  /** The `n` low bits of `w`, least significant first: the order they enter the register. */
  function BitsOf(w: bv32, n: nat): (b: seq<bool>)
    ensures |b| == n
  {
    if n == 0 then [] else [Odd(w)] + BitsOf(Half(w), n - 1)
  }

  function MessageBits(bytes: seq<bv8>): (b: seq<bool>)
    ensures |b| == 8 * |bytes|
  {
    if bytes == [] then [] else BitsOf(Widen(bytes[0]), 8) + MessageBits(bytes[1..])
  }

  /** The register after `bits` enter one at a time. */
  function Register(bits: seq<bool>, c: bv32): bv32 {
    if bits == [] then c else Register(bits[1..], Step(Xor(c, BitWord(bits[0]))))
  }

  /** The CRC of a bit string, as the standard describes it. */
  function CrcOfBits(bits: seq<bool>): bv32 {
    Xor(Register(bits, SEED), SEED)
  }

  lemma {:induction false} RegisterConcat(a: seq<bool>, b: seq<bool>, c: bv32)
    ensures Register(a + b, c) == Register(b, Register(a, c))
  {
    hide Step, BitWord, Xor;
    if a == [] {
      assert a + b == b;
    } else {
      assert (a + b)[1..] == a[1..] + b;
      RegisterConcat(a[1..], b, Step(Xor(c, BitWord(a[0]))));
    }
  }

  function HalfN(n: nat, w: bv32): bv32 {
    if n == 0 then w else HalfN(n - 1, Half(w))
  }

  lemma {:induction false} HalfNAdd(n: nat, m: nat, w: bv32)
    ensures HalfN(n + m, w) == HalfN(m, HalfN(n, w))
  {
    hide Half;
    if n > 0 {
      HalfNAdd(n - 1, m, Half(w));
    }
  }

  lemma {:induction false} HalfNZero(n: nat)
    ensures HalfN(n, 0) == 0
  {
    if n > 0 {
      HalfNZero(n - 1);
    }
  }

  lemma HalfFour(w: bv32)
    ensures HalfN(4, w) == Shift4(w)
  {
    HalfFourTimes(w);
    hide Half;
    assert HalfN(4, w) == HalfN(2, Half(Half(w)));
    assert HalfN(2, Half(Half(w))) == HalfN(0, Half(Half(Half(Half(w)))));
  }

  lemma TwoNibbles(w: bv32)
    ensures Shift4(Shift4(w)) == Shift8(w)
  {}

  lemma HalfEight(w: bv32)
    ensures HalfN(8, w) == Shift8(w)
  {
    hide HalfN, Shift8, Shift4;
    HalfNAdd(4, 4, w);
    HalfFour(w);
    HalfFour(Shift4(w));
    TwoNibbles(w);
  }

  /** Feeding a word bit by bit is XORing it in whole and stepping. */
  lemma {:induction false} FeedWord(w: bv32, n: nat, r: bv32)
    ensures Xor(Register(BitsOf(w, n), r), HalfN(n, w)) == Steps(n, Xor(r, w))
    decreases n
  {
    hide Step, Xor, Half, Odd, BitWord;
    if n > 0 {
      StepSplit(r, w);
      assert BitsOf(w, n)[1..] == BitsOf(Half(w), n - 1);
      FeedWord(Half(w), n - 1, Step(Xor(r, BitWord(Odd(w)))));
    }
  }

  // ---------------------------------------------------------------- the table-driven form

  /** Table entry of a byte: eight steps of it alone. */
  function Entry(b: bv8): bv32 {
    Steps(8, Widen(b))
  }

  function Fold(bytes: seq<bv8>, c: bv32): bv32 {
    if bytes == [] then c
    else Fold(bytes[1..], Xor(Entry(LowByte(Xor(c, Widen(bytes[0])))), Shift8(c)))
  }

  function Crc32(bytes: seq<bv8>): bv32 {
    Xor(Fold(bytes, SEED), SEED)
  }

  /** One byte of `Fold`. */
  function Fed(c: bv32, b: bv8): bv32 {
    Xor(Entry(LowByte(Xor(c, Widen(b)))), Shift8(c))
  }

  lemma FoldByte(b: bv8, rest: seq<bv8>, c: bv32)
    ensures Fold([b] + rest, c) == Fold(rest, Fed(c, b))
  {
    hide Xor, Entry, LowByte, Widen, Shift8;
    assert ([b] + rest)[1..] == rest;
  }

  lemma NothingToFold(c: bv32)
    ensures Fold([], c) == c
  {}

  /** The register starts all ones and is complemented at the end. */
  lemma Complemented(bytes: seq<bv8>)
    ensures Crc32(bytes) == Fold(bytes, 0xFFFF_FFFF) ^ 0xFFFF_FFFF
  {
    hide Fold;
  }

  lemma OneToThree()
    ensures Fed(0xFFFF_FFFF, 0x31) == 0x7C23_1048 && Fed(0x7C23_1048, 0x32) == 0xB0AC_BB32
    ensures Fed(0xB0AC_BB32, 0x33) == 0x77B7_9C2D
  {}

  lemma FourToSix()
    ensures Fed(0x77B7_9C2D, 0x34) == 0x641C_1F5C && Fed(0x641C_1F5C, 0x35) == 0x340A_C5E3
    ensures Fed(0x340A_C5E3, 0x36) == 0xF68D_2C9E
  {}

  lemma SevenToNine()
    ensures Fed(0xF68D_2C9E, 0x37) == 0xAFFC_9660 && Fed(0xAFFC_9660, 0x38) == 0x651F_2550
    ensures Fed(0x651F_2550, 0x39) == 0x340B_C6D9
  {}

  lemma FoldThree(a: bv8, b: bv8, d: bv8, rest: seq<bv8>, c: bv32)
    ensures Fold([a, b, d] + rest, c) == Fold(rest, Fed(Fed(Fed(c, a), b), d))
  {
    hide Fold, Fed;
    FoldByte(a, [b, d] + rest, c);
    assert [a] + ([b, d] + rest) == [a, b, d] + rest;
    FoldByte(b, [d] + rest, Fed(c, a));
    assert [b] + ([d] + rest) == [b, d] + rest;
    FoldByte(d, rest, Fed(Fed(c, a), b));
  }

  /** The published check value: the CRC of the nine digits "123456789". */
  lemma CheckValue()
    ensures Crc32([0x31, 0x32, 0x33, 0x34, 0x35, 0x36, 0x37, 0x38, 0x39]) == 0xCBF4_3926
  {
    hide Fold, Fed, Crc32;
    var late: seq<bv8> := [0x37, 0x38, 0x39];
    var mid: seq<bv8> := [0x34, 0x35, 0x36] + late;
    var all: seq<bv8> := [0x31, 0x32, 0x33, 0x34, 0x35, 0x36, 0x37, 0x38, 0x39];
    OneToThree();
    FourToSix();
    SevenToNine();
    FoldThree(0x31, 0x32, 0x33, mid, 0xFFFF_FFFF);
    assert [0x31, 0x32, 0x33] + mid == all;
    FoldThree(0x34, 0x35, 0x36, late, 0x77B7_9C2D);
    FoldThree(0x37, 0x38, 0x39, [], 0xF68D_2C9E);
    assert late + [] == late;
    NothingToFold(0x340B_C6D9);
    Complemented(all);
  }

  lemma LowBitsClear(w: bv32)
    requires w & 0xF == 0
    ensures !Odd(w) && !Odd(Half(w)) && !Odd(Half(Half(w))) && !Odd(Half(Half(Half(w))))
  {}

  lemma StepsFourClear(w: bv32)
    requires w & 0xF == 0
    ensures Steps(4, w) == Shift4(w)
  {
    LowBitsClear(w);
    HalfFourTimes(w);
    hide Half, Odd;
    assert Steps(4, w) == Steps(2, Half(Half(w)));
    assert Steps(2, Half(Half(w))) == Steps(0, Half(Half(Half(Half(w)))));
  }

  lemma {:induction false} StepsAdd(n: nat, m: nat, w: bv32)
    ensures Steps(n + m, w) == Steps(m, Steps(n, w))
  {
    hide Step;
    if n > 0 {
      StepsAdd(n - 1, m, Step(w));
    }
  }

  lemma NibblesClear(w: bv32)
    ensures AboveByte(w) & 0xF == 0 && Shift4(AboveByte(w)) & 0xF == 0
    ensures Shift4(Shift4(AboveByte(w))) == Shift8(w)
  {}

  /** Eight steps of a word whose low byte is clear only shift it. */
  lemma StepsAboveByte(w: bv32)
    ensures Steps(8, AboveByte(w)) == Shift8(w)
  {
    hide Steps, AboveByte, Shift8, Shift4;
    var y := AboveByte(w);
    NibblesClear(w);
    StepsFourClear(y);
    StepsFourClear(Shift4(y));
    StepsAdd(4, 4, y);
  }

  /** One table lookup is eight bits through the register. */
  lemma LookupIsEightBits(c: bv32, b: bv8)
    ensures Xor(Entry(LowByte(Xor(c, Widen(b)))), Shift8(c)) == Register(BitsOf(Widen(b), 8), c)
  {
    hide Steps, Register, BitsOf, HalfN, LowByte, Xor, Widen, Shift8, AboveByte;
    var w := Widen(b);
    var x := Xor(c, w);
    var out := Register(BitsOf(w, 8), c);
    FeedWord(w, 8, c);
    HalfEight(w);
    ShiftIgnoresByte(c, b);
    XorZero(out);
    ByteParts(x);
    StepsXor(8, Widen(LowByte(x)), AboveByte(x));
    StepsAboveByte(x);
  }

  lemma {:induction false} FoldIsRegister(bytes: seq<bv8>, c: bv32)
    ensures Fold(bytes, c) == Register(MessageBits(bytes), c)
  {
    hide Entry, BitsOf, LowByte, Xor, Widen, Shift8, Register;
    if bytes == [] {
      EmptyRegister(c);
    } else {
      var bits := BitsOf(Widen(bytes[0]), 8);
      LookupIsEightBits(c, bytes[0]);
      RegisterConcat(bits, MessageBits(bytes[1..]), c);
      FoldIsRegister(bytes[1..], Register(bits, c));
    }
  }

  lemma EmptyRegister(c: bv32)
    ensures Register([], c) == c
  {}

  /** The table-driven CRC is the bit-at-a-time CRC, for messages of any length. */
  lemma TableFormIsBitForm(bytes: seq<bv8>)
    ensures Crc32(bytes) == CrcOfBits(MessageBits(bytes))
  {
    hide Fold, Register, MessageBits, Xor;
    FoldIsRegister(bytes, SEED);
  }

  // ---------------------------------------------------------------- the loops

  function ByteAt(n: nat): bv8 {
    if n == 0 then 0 else ByteAt(n - 1) + 1
  }

  function Slot(b: bv8): (i: nat)
    ensures i < 256
  {
    b as int
  }

  lemma SlotSucc(b: bv8)
    ensures Slot(b) != 255 ==> Slot(b + 1) == Slot(b) + 1
  {}

  lemma {:induction false} SlotOfByteAt(n: nat)
    requires n < 256
    ensures Slot(ByteAt(n)) == n
  {
    hide Slot;
    if n > 0 {
      SlotOfByteAt(n - 1);
      SlotSucc(ByteAt(n - 1));
    } else {
      SlotOfZero();
    }
  }

  lemma SlotOfZero()
    ensures Slot(0) == 0
  {}

  lemma SlotInjective(a: bv8, b: bv8)
    requires Slot(a) == Slot(b)
    ensures a == b
  {}

  method BuildTable() returns (table: array<bv32>)
    ensures fresh(table) && table.Length == 256
    ensures forall b: bv8 :: table[Slot(b)] == Entry(b)
  {
    hide Step, Slot, ByteAt, Widen;
    table := new bv32[256](_ => 0);
    var n := 0;
    while n < 256
      invariant 0 <= n <= 256
      invariant forall i :: 0 <= i < n ==> table[i] == Entry(ByteAt(i))
    {
      var c := Widen(ByteAt(n));
      var k := 0;
      while k < 8
        invariant 0 <= k <= 8
        invariant Steps(8 - k, c) == Entry(ByteAt(n))
      {
        c := Step(c);
        k := k + 1;
      }
      table[n] := c;
      n := n + 1;
    }
    forall b: bv8
      ensures table[Slot(b)] == Entry(b)
    {
      SlotOfByteAt(Slot(b));
      SlotInjective(ByteAt(Slot(b)), b);
    }
  }

  /** The byte loop over a built table computes `Crc32`. */
  method ComputeCrc32(table: array<bv32>, bytes: seq<bv8>) returns (crc: bv32)
    requires table.Length == 256 && forall b: bv8 :: table[Slot(b)] == Entry(b)
    ensures crc == Crc32(bytes)
  {
    hide Slot, Entry, LowByte, Xor, Widen, Shift8;
    crc := SEED;
    var i := 0;
    while i < |bytes|
      invariant 0 <= i <= |bytes|
      invariant Fold(bytes[i..], crc) == Fold(bytes, SEED)
    {
      var idx := LowByte(Xor(crc, Widen(bytes[i])));
      assert bytes[i..][1..] == bytes[i + 1..];
      crc := Xor(table[Slot(idx)], Shift8(crc));
      i := i + 1;
    }
    crc := Xor(crc, SEED);
  }

  // ---------------------------------------------------------------- burst detection

  function XorBits(a: seq<bool>, b: seq<bool>): (d: seq<bool>)
    requires |a| == |b|
    ensures |d| == |a| && forall i :: 0 <= i < |a| ==> d[i] == (a[i] != b[i])
  {
    seq(|a|, i requires 0 <= i < |a| => a[i] != b[i])
  }

  lemma BitWordXor(a: bool, b: bool)
    ensures BitWord(a != b) == Xor(BitWord(a), BitWord(b))
  {
    hide Xor;
    XorZero(1);
    XorZero(0);
  }

  /** The register is linear: two messages differ by the register of their difference. */
  lemma {:induction false} RegisterXor(a: seq<bool>, b: seq<bool>, r: bv32, s: bv32)
    requires |a| == |b|
    ensures Xor(Register(a, r), Register(b, s)) == Register(XorBits(a, b), Xor(r, s))
  {
    hide Step, BitWord, Xor;
    if a != [] {
      var x, y := BitWord(a[0]), BitWord(b[0]);
      BitWordXor(a[0], b[0]);
      XorInterchange(r, x, s, y);
      StepXor(Xor(r, x), Xor(s, y));
      assert XorBits(a, b)[1..] == XorBits(a[1..], b[1..]);
      RegisterXor(a[1..], b[1..], Step(Xor(r, x)), Step(Xor(s, y)));
    }
  }

  predicate NoErrors(d: seq<bool>) {
    forall i :: 0 <= i < |d| ==> !d[i]
  }

  /** Error-free bits neither create nor erase a register difference. */
  lemma {:induction false} QuietBits(d: seq<bool>, r: bv32)
    requires NoErrors(d)
    ensures Register(d, r) == 0 <==> r == 0
  {
    hide Step, Xor;
    if d != [] {
      XorZero(r);
      StepZero(r);
      QuietBits(d[1..], Step(r));
    }
  }

  lemma HalfSeven(w: bv32)
    ensures HalfN(7, w) == Half(Half(Half(Shift4(w))))
  {
    HalfNAdd(4, 3, w);
    HalfFour(w);
    hide Half;
    assert HalfN(3, Shift4(w)) == HalfN(1, Half(Half(Shift4(w))));
    assert HalfN(1, Half(Half(Shift4(w)))) == HalfN(0, Half(Half(Half(Shift4(w)))));
  }

  lemma TopBit(w: bv32)
    requires Half(Half(Half(Shift4(Shift8(Shift8(Shift8(w))))))) == 0
    ensures TopClear(w)
  {}

  /** A word of at most 31 bits has its top bit clear. */
  lemma ThirtyOneBits(w: bv32, n: nat)
    requires n <= 31 && HalfN(n, w) == 0
    ensures TopClear(w)
  {
    hide HalfN, Half, Shift8, TopClear;
    HalfNAdd(n, 31 - n, w);
    HalfNZero(31 - n);
    HalfNAdd(8, 23, w);
    HalfNAdd(8, 15, Shift8(w));
    HalfNAdd(8, 7, Shift8(Shift8(w)));
    HalfEight(w);
    HalfEight(Shift8(w));
    HalfEight(Shift8(Shift8(w)));
    HalfSeven(Shift8(Shift8(Shift8(w))));
    TopBit(w);
  }

  /** If a step's result has its top bit clear, nothing was folded in. */
  lemma QuietStep(y: bv32)
    requires TopClear(Step(y))
    ensures !Odd(y) && Step(y) == Half(y)
  {}

  lemma SameHalf(r: bv32, b: bool)
    ensures Half(Xor(r, BitWord(b))) == Half(r)
  {}

  /** A register that `n <= 32` bits can bring to zero fits in `n` bits. */
  lemma {:induction false} ReachesZeroFits(d: seq<bool>, r: bv32)
    requires |d| <= 32 && Register(d, r) == 0
    ensures HalfN(|d|, r) == 0
  {
    hide Step, BitWord, Xor, Half, TopClear, Odd;
    if d != [] {
      var y := Xor(r, BitWord(d[0]));
      ReachesZeroFits(d[1..], Step(y));
      ThirtyOneBits(Step(y), |d| - 1);
      QuietStep(y);
      SameHalf(r, d[0]);
    }
  }

  lemma FirstErrorIsLoud(b: bool)
    ensures Step(Xor(0, BitWord(b))) == if b then POLYNOMIAL else 0
    ensures !TopClear(POLYNOMIAL)
  {}

  /** No error pattern of at most 32 bits brings the zero register back to zero. */
  lemma {:induction false} BurstIsLoud(d: seq<bool>)
    requires |d| <= 32 && Register(d, 0) == 0
    ensures NoErrors(d)
  {
    hide Step, BitWord, Xor, TopClear;
    if d != [] {
      var r := Step(Xor(0, BitWord(d[0])));
      ReachesZeroFits(d[1..], r);
      ThirtyOneBits(r, |d| - 1);
      FirstErrorIsLoud(d[0]);
      BurstIsLoud(d[1..]);
    }
  }

  /** All differences lie within 32 consecutive bits from `p`. */
  predicate ErrorsWithin(d: seq<bool>, p: nat) {
    forall i :: 0 <= i < |d| && d[i] ==> p <= i < p + 32
  }

  lemma BurstDetectedInBits(d: seq<bool>, p: nat)
    requires ErrorsWithin(d, p) && Register(d, 0) == 0
    ensures NoErrors(d)
  {
    hide Register;
    if p <= |d| {
      var q := if p + 32 <= |d| then p + 32 else |d|;
      var a, e, z := d[..p], d[p..q], d[q..];
      assert d == a + (e + z);
      RegisterConcat(a, e + z, 0);
      QuietBits(a, 0);
      RegisterConcat(e, z, 0);
      QuietBits(z, Register(e, 0));
      BurstIsLoud(e);
      forall i | 0 <= i < |d|
        ensures !d[i]
      {
        assert p <= i < q ==> !e[i - p];
      }
    }
  }

  lemma XorCancels(a: bv32, b: bv32, c: bv32)
    requires Xor(a, c) == Xor(b, c)
    ensures Xor(a, b) == 0
  {
    hide Xor;
    XorAssociates(a, c, c);
    XorAssociates(b, c, c);
    XorZero(c);
    XorZero(a);
    XorZero(b);
  }

  lemma {:induction false} BitsDetermineWord(v: bv32, w: bv32, n: nat)
    requires BitsOf(v, n) == BitsOf(w, n) && HalfN(n, v) == HalfN(n, w)
    ensures v == w
    decreases n
  {
    hide Half, Odd;
    if n > 0 {
      assert BitsOf(v, n)[0] == BitsOf(w, n)[0];
      assert BitsOf(v, n)[1..] == BitsOf(w, n)[1..];
      BitsDetermineWord(Half(v), Half(w), n - 1);
      HalvesDetermine(v, w);
    }
  }

  lemma HalfOfByte(b: bv8)
    ensures HalfN(8, Widen(b)) == 0
  {
    hide HalfN, Shift8;
    HalfEight(Widen(b));
    ShiftIgnoresByte(0, b);
  }

  lemma {:induction false} BitsDetermineMessage(a: seq<bv8>, b: seq<bv8>)
    requires |a| == |b| && MessageBits(a) == MessageBits(b)
    ensures a == b
  {
    hide BitsOf, Widen, HalfN;
    if a != [] {
      var x, y := BitsOf(Widen(a[0]), 8), BitsOf(Widen(b[0]), 8);
      assert x == MessageBits(a)[..8] && y == MessageBits(b)[..8];
      assert MessageBits(a[1..]) == MessageBits(a)[8..] && MessageBits(b[1..]) == MessageBits(b)[8..];
      HalfOfByte(a[0]);
      HalfOfByte(b[0]);
      BitsDetermineWord(Widen(a[0]), Widen(b[0]), 8);
      WidenInjective(a[0], b[0]);
      BitsDetermineMessage(a[1..], b[1..]);
      assert a == [a[0]] + a[1..] && b == [b[0]] + b[1..];
    }
  }

  /**
   Two different messages of one length whose differences all fall within some 32
   consecutive bits never share a CRC.
   */
  lemma BurstDetected(a: seq<bv8>, b: seq<bv8>, p: nat)
    requires |a| == |b| && a != b
    requires ErrorsWithin(XorBits(MessageBits(a), MessageBits(b)), p)
    ensures Crc32(a) != Crc32(b)
  {
    hide Register, MessageBits, Fold, Xor, ErrorsWithin;
    var x, y := MessageBits(a), MessageBits(b);
    if Crc32(a) == Crc32(b) {
      TableFormIsBitForm(a);
      TableFormIsBitForm(b);
      SameRegisterSameBits(x, y, p);
      BitsDetermineMessage(a, b);
    }
  }

  lemma SameRegisterSameBits(x: seq<bool>, y: seq<bool>, p: nat)
    requires |x| == |y| && ErrorsWithin(XorBits(x, y), p)
    requires CrcOfBits(x) == CrcOfBits(y)
    ensures x == y
  {
    hide Register, Xor, ErrorsWithin;
    var d := XorBits(x, y);
    XorCancels(Register(x, SEED), Register(y, SEED), SEED);
    RegisterXor(x, y, SEED, SEED);
    XorZero(SEED);
    BurstDetectedInBits(d, p);
    forall i | 0 <= i < |x|
      ensures x[i] == y[i]
    {
      assert !d[i];
    }
  }

  /** `crc::verify`. */
  predicate Verify(bytes: seq<bv8>, expected: bv32) {
    Crc32(bytes) == expected
  }
}
