/** Little-endian integers, as every on-flash field is stored. */
module Codec {
  import opened Options
  import Crc

  type Bytes = seq<bv8>

  function Pow256(w: nat): (p: nat)
    ensures p > 0
  {
    if w == 0 then 1 else 256 * Pow256(w - 1)
  }

  /** The `w` low bytes of `n`. */
  function Le(n: nat, w: nat): (s: Bytes)
    ensures |s| == w
    decreases w
  {
    if w == 0 then [] else [Crc.ByteAt(n % 256)] + Le(n / 256, w - 1)
  }

  function UnLe(s: Bytes): nat {
    if s == [] then 0 else Crc.Slot(s[0]) + 256 * UnLe(s[1..])
  }

  lemma {:induction false} LeRoundTrip(n: nat, w: nat)
    requires n < Pow256(w)
    ensures UnLe(Le(n, w)) == n
    decreases w
  {
    hide Crc.ByteAt, Crc.Slot;
    if w > 0 {
      LeRoundTrip(n / 256, w - 1);
      Crc.SlotOfByteAt(n % 256);
      assert Le(n, w)[1..] == Le(n / 256, w - 1);
    }
  }

  /** The first byte is the lowest. */
  lemma LittleEndian(a: bv8, b: bv8, c: bv8, d: bv8)
    ensures UnLe([a, b]) == (a as int) + 0x100 * (b as int)
    ensures UnLe([a, b, c, d]) == (a as int) + 0x100 * (b as int) + 0x1_0000 * (c as int) + 0x100_0000 * (d as int)
  {
    UnLeCons(d, []);
    UnLeCons(c, [d]);
    UnLeCons(b, [c, d]);
    UnLeCons(a, [b, c, d]);
    UnLeCons(b, []);
    UnLeCons(a, [b]);
  }

  lemma UnLeCons(b: bv8, rest: Bytes)
    ensures UnLe([]) == 0 && UnLe([b] + rest) == (b as int) + 256 * UnLe(rest)
  {
    assert ([b] + rest)[1..] == rest;
  }

  lemma Widths()
    ensures Pow256(2) == 0x1_0000 && Pow256(4) == 0x1_0000_0000 && Pow256(8) == 0x1_0000_0000_0000_0000
  {
    assert Pow256(1) == 256;
    assert Pow256(3) == 0x100_0000;
    assert Pow256(6) == 0x1_0000_0000_0000;
  }

  /** A stored CRC word. */
  function CrcBytes(w: bv32): (s: Bytes)
    ensures |s| == 4
  {
    [Crc.LowByte(w), Crc.LowByte(Crc.Shift8(w)), Crc.LowByte(Crc.Shift8(Crc.Shift8(w))),
     Crc.LowByte(Crc.Shift8(Crc.Shift8(Crc.Shift8(w))))]
  }

  function CrcWord(s: Bytes): bv32
    requires |s| == 4
  {
    Packed(s[0], s[1], s[2], s[3])
  }

  /** Four bytes as a word, the first lowest. */
  function Packed(a: bv8, b: bv8, c: bv8, d: bv8): bv32 {
    Crc.Xor(Crc.Xor(Crc.Widen(a), Crc.Widen(b) << 8),
            Crc.Xor(Crc.Widen(c) << 16, Crc.Widen(d) << 24))
  }

  lemma CrcRoundTrip(w: bv32)
    ensures CrcWord(CrcBytes(w)) == w
  {}

  lemma WordIsLittleEndian(w: bv32)
    ensures CrcBytes(w)[0] as bv32 == w & 0xFF && CrcBytes(w)[1] as bv32 == (w >> 8) & 0xFF
    ensures CrcBytes(w)[2] as bv32 == (w >> 16) & 0xFF && CrcBytes(w)[3] as bv32 == w >> 24
  {}

  lemma WordBytes(s: Bytes)
    requires |s| == 4
    ensures CrcBytes(CrcWord(s)) == s
  {
    hide Packed, Crc.LowByte, Crc.Shift8;
    WordBytesOf(s[0], s[1], s[2], s[3]);
  }

  lemma WordBytesOf(a: bv8, b: bv8, c: bv8, d: bv8)
    ensures var w := Packed(a, b, c, d);
            && Crc.LowByte(w) == a && Crc.LowByte(Crc.Shift8(w)) == b
            && Crc.LowByte(Crc.Shift8(Crc.Shift8(w))) == c
            && Crc.LowByte(Crc.Shift8(Crc.Shift8(Crc.Shift8(w)))) == d
  {}

  /** A stored word matches a CRC exactly when it is that CRC's bytes. */
  lemma WordMatches(raw: Bytes, w: bv32)
    requires |raw| == 4
    ensures CrcWord(raw) == w <==> raw == CrcBytes(w)
  {
    hide CrcWord, CrcBytes;
    CrcRoundTrip(w);
    WordBytes(raw);
  }
}
