/** GF(2^8) by log/antilog tables, with the field laws the erasure codec relies on. */
module GF {
  import opened Options
  import opened Arith

  // ---------------------------------------------------------------- the generator

  // Everything rests on one map, `Xtime`: multiply by the generator x and reduce by
  // x^8 + x^4 + x^3 + x^2 + 1. It is XOR-linear, which gives distributivity, and its
  // powers run through every non-zero byte, which gives the logarithm.

  /** Multiply by x and reduce: the bit shifted out selects the polynomial's low byte. */
  function Xtime(v: bv8): bv8 {
    (v << 1) ^ ((v >> 7) * 0x1D)
  }

  /** `v` multiplied by x^n. */
  function XPow(n: nat, v: bv8): bv8 {
    if n == 0 then v else Xtime(XPow(n - 1, v))
  }

  lemma XPowSucc(n: nat, v: bv8)
    ensures XPow(0, v) == v && XPow(n + 1, v) == Xtime(XPow(n, v))
  {}

  lemma {:induction false} XPowAdd(n: nat, m: nat, v: bv8)
    ensures XPow(n + m, v) == XPow(n, XPow(m, v))
  {
    if n > 0 {
      XPowAdd(n - 1, m, v);
    }
  }

  lemma XtimeXor(a: bv8, b: bv8)
    ensures Xtime(Add(a, b)) == Add(Xtime(a), Xtime(b))
  {}

  lemma {:induction false} XPowXor(n: nat, a: bv8, b: bv8)
    ensures XPow(n, Add(a, b)) == Add(XPow(n, a), XPow(n, b))
  {
    hide Xtime, Add;
    if n > 0 {
      XPowXor(n - 1, a, b);
      XtimeXor(XPow(n - 1, a), XPow(n - 1, b));
    }
  }

  lemma XtimeInjective(a: bv8, b: bv8)
    requires Xtime(a) == Xtime(b)
    ensures a == b
  {}

  lemma {:induction false} XPowInjective(n: nat, a: bv8, b: bv8)
    requires XPow(n, a) == XPow(n, b)
    ensures a == b
  {
    if n > 0 {
      XtimeInjective(XPow(n - 1, a), XPow(n - 1, b));
      XPowInjective(n - 1, a, b);
    }
  }

  lemma {:induction false} XPowZero(n: nat, v: bv8)
    ensures XPow(n, v) == 0 <==> v == 0
  {
    if n > 0 {
      XPowZero(n - 1, v);
      assert Xtime(0) == 0;
      if XPow(n, v) == 0 {
        XtimeInjective(XPow(n - 1, v), 0);
      }
    }
  }

  // ---------------------------------------------------------------- its order is 255

  function X4(v: bv8): bv8 {
    Xtime(Xtime(Xtime(Xtime(v))))
  }

  function X17(v: bv8): bv8 {
    Xtime(X4(X4(X4(X4(v)))))
  }

  lemma XPow4(v: bv8)
    ensures XPow(4, v) == X4(v)
  {
    assert XPow(1, v) == Xtime(v);
    assert XPow(2, v) == Xtime(Xtime(v));
    assert XPow(3, v) == Xtime(Xtime(Xtime(v)));
  }

  lemma XPow17(v: bv8)
    ensures XPow(17, v) == X17(v)
  {
    XPow4(v);
    XPow4(X4(v));
    XPow4(X4(X4(v)));
    XPow4(X4(X4(X4(v))));
    XPowAdd(4, 4, v);
    XPowAdd(4, 8, v);
    XPowAdd(4, 12, v);
  }

  /** The powers of x at the maximal proper divisors of 255. */
  lemma PowersAtDivisors()
    ensures XPow(15, 1) == 0x26 && XPow(51, 1) == 0x0A && XPow(85, 1) == 0xD6
  {
    XPow4(1);
    XPow4(X4(1));
    XPow4(X4(X4(1)));
    XPowAdd(4, 4, 1);
    XPowAdd(4, 8, 1);
    assert XPow(13, 1) == Xtime(XPow(12, 1)) && XPow(14, 1) == Xtime(XPow(13, 1));
    XPow17(1);
    XPow17(X17(1));
    XPow17(X17(X17(1)));
    XPowAdd(17, 17, 1);
    XPowAdd(17, 34, 1);
    XPow17(0x0A);
    XPow17(X17(0x0A));
    XPowAdd(17, 51, 1);
    XPowAdd(17, 68, 1);
  }

  lemma XPow85(v: bv8)
    ensures XPow(85, v) == X17(X17(X17(X17(X17(v)))))
  {
    hide Xtime, X4, X17;
    var v1 := X17(v);
    var v2 := X17(v1);
    var v3 := X17(v2);
    XPow17(v);
    XPow17(v1);
    XPow17(v2);
    XPow17(v3);
    XPow17(X17(v3));
    XPowAdd(17, 17, v);
    XPowAdd(17, 34, v);
    XPowAdd(17, 51, v);
    XPowAdd(17, 68, v);
  }

  /** x^255 = 1: three jumps of 85. */
  lemma PowerAt255()
    ensures XPow(255, 1) == 1
  {
    PowersAtDivisors();
    XPow85(0xD6);
    XPow85(0xD7);
    XPowAdd(85, 85, 1);
    XPowAdd(85, 170, 1);
  }

  /** A proper divisor of 255 divides 15, 51 or 85; `f` is the cofactor. */
  lemma DivisorsOf255(d: nat, q: nat) returns (e: nat, f: nat)
    requires 1 <= d < 255 && q * d == 255
    ensures (e == 15 || e == 51 || e == 85) && f * d == e
  {
    BothLarge(q, d);
    if q > 15 {
      assert d == 1 || d == 3 || d == 5 || d == 15;
      e := if d == 1 || d == 3 then 51 else 15;
      e := if d == 5 then 85 else e;
      f := e / d;
    } else {
      assert q == 3 || q == 5 || q == 15;
      f := if q == 15 then 5 else 1;
      e := if q == 5 then 51 else 85;
    }
  }

  lemma BothLarge(a: nat, b: nat)
    ensures a >= 16 && b >= 16 ==> a * b >= 256
  {}

  lemma {:induction false} XPowMultiple(d: nat, q: nat)
    requires XPow(d, 1) == 1
    ensures XPow(q * d, 1) == 1
  {
    if q > 0 {
      XPowMultiple(d, q - 1);
      assert q * d == d + (q - 1) * d;
      XPowAdd(d, (q - 1) * d, 1);
    }
  }

  /** If some smaller power of x were one, the least such exponent would divide 255. */
  lemma {:induction false} OrderDivides(d: nat)
    requires 0 < d < 255 && XPow(d, 1) == 1
    ensures XPow(15, 1) == 1 || XPow(51, 1) == 1 || XPow(85, 1) == 1
    decreases d
  {
    hide XPow;
    PowerAt255();
    var q, r := 255 / d, 255 % d;
    XPowMultiple(d, q);
    XPowAdd(r, q * d, 1);
    if r > 0 {
      OrderDivides(r);
    } else {
      var e, f := DivisorsOf255(d, q);
      XPowMultiple(d, f);
    }
  }

  /** No power of x below the 255th is one. */
  lemma OrderIsMaximal(d: nat)
    requires 0 < d < 255
    ensures XPow(d, 1) != 1
  {
    hide XPow;
    PowersAtDivisors();
    if XPow(d, 1) == 1 {
      OrderDivides(d);
    }
  }

  lemma PowersAreDistinct(i: nat, j: nat)
    requires i < j < 255
    ensures XPow(i, 1) != XPow(j, 1)
  {
    hide XPow;
    XPowAdd(i, j - i, 1);
    OrderIsMaximal(j - i);
    if XPow(i, 1) == XPow(j, 1) {
      XPowInjective(i, 1, XPow(j - i, 1));
    }
  }

  lemma {:induction false} XPowMod(n: nat, v: bv8)
    ensures XPow(n, v) == XPow(n % 255, v)
  {
    if n >= 255 {
      XPowMod(n - 255, v);
      XPowAdd(n - 255, 255, v);
      XPow255(v);
    }
  }

  /** x^255 is the identity on every byte, not only on one. */
  lemma XPow255(v: bv8)
    ensures XPow(255, v) == v
  {
    hide XPow;
    PowerAt255();
    XPowZero(255, v);
    if v != 0 {
      var i := LogExists(v);
      XPowAdd(255, i, 1);
      XPowAdd(i, 255, 1);
    }
  }

  // ---------------------------------------------------------------- every non-zero byte is a power

  ghost function Orbit(n: nat): set<int> {
    if n == 0 then {} else Orbit(n - 1) + {Slot(XPow(n - 1, 1))}
  }

  lemma {:induction false} InOrbit(n: nat, x: int)
    ensures x in Orbit(n) <==> exists i: nat :: i < n && Slot(XPow(i, 1)) == x
  {
    hide XPow, Slot;
    if n > 0 {
      InOrbit(n - 1, x);
      assert x in Orbit(n) <==> x in Orbit(n - 1) || x == Slot(XPow(n - 1, 1));
    }
  }

  lemma {:induction false} OrbitSize(n: nat)
    requires n <= 255
    ensures |Orbit(n)| == n
  {
    hide XPow, Slot;
    if n > 0 {
      OrbitSize(n - 1);
      InOrbit(n - 1, Slot(XPow(n - 1, 1)));
      forall i: nat | i < n - 1
        ensures Slot(XPow(i, 1)) != Slot(XPow(n - 1, 1))
      {
        PowersAreDistinct(i, n - 1);
        SlotsDiffer(XPow(i, 1), XPow(n - 1, 1));
      }
    }
  }

  ghost function NonZero(n: nat): set<int> {
    if n == 0 then {} else NonZero(n - 1) + {n}
  }

  lemma {:induction false} NonZeroSize(n: nat)
    ensures |NonZero(n)| == n
    ensures forall x :: x in NonZero(n) <==> 1 <= x <= n
  {
    if n > 0 {
      NonZeroSize(n - 1);
    }
  }

  lemma ZeroAsInt(v: bv8)
    ensures Slot(v) == 0 <==> v == 0
  {
    assert (0 as bv8) as int == 0;
  }

  /** The generator enumerates the whole multiplicative group. */
  lemma LogExists(v: bv8) returns (i: nat)
    requires v != 0
    ensures i < 255 && XPow(i, 1) == v
  {
    hide XPow, Orbit, NonZero, Slot;
    OrbitSize(255);
    NonZeroSize(255);
    forall y | y in Orbit(255)
      ensures y in NonZero(255)
    {
      InOrbit(255, y);
      var k: nat :| k < 255 && Slot(XPow(k, 1)) == y;
      XPowZero(k, 1);
      ZeroAsInt(XPow(k, 1));
    }
    SameSizeSubset(Orbit(255), NonZero(255));
    ZeroAsInt(v);
    InOrbit(255, Slot(v));
    i :| i < 255 && Slot(XPow(i, 1)) == Slot(v);
    SlotsDiffer(XPow(i, 1), v);
  }

  // ---------------------------------------------------------------- the tables

  /** Entry `i` of the antilog table, read modulo 255. */
  function Antilog(i: nat): bv8 {
    XPow(i % 255, 1)
  }

  /** The least exponent at or above `i` whose power is `a`. */
  function LogFrom(a: bv8, i: nat): nat
    decreases 255 - i
  {
    if i >= 255 then 0 else if XPow(i, 1) == a then i else LogFrom(a, i + 1)
  }

  /** Discrete logarithm; zero at zero, which no caller consults. */
  function Log(a: bv8): nat {
    LogFrom(a, 0)
  }

  lemma {:induction false} LogFromFinds(a: bv8, i: nat, k: nat)
    requires i <= k < 255 && XPow(k, 1) == a
    ensures LogFrom(a, i) == k
    decreases k - i
  {
    if i < k {
      PowersAreDistinct(i, k);
      LogFromFinds(a, i + 1, k);
    }
  }

  lemma {:induction false} LogFromOfZero(i: nat)
    ensures LogFrom(0, i) == 0
    decreases 255 - i
  {
    if i < 255 {
      XPowZero(i, 1);
      LogFromOfZero(i + 1);
    }
  }

  /** Log and antilog are mutual inverses. */
  lemma LogAntilog(a: bv8, i: nat)
    requires i < 255
    ensures Log(Antilog(i)) == i
    ensures a != 0 ==> Log(a) < 255 && Antilog(Log(a)) == a
  {
    hide XPow, LogFrom;
    LogFromFinds(XPow(i, 1), 0, i);
    if a != 0 {
      var k := LogExists(a);
      LogFromFinds(a, 0, k);
    }
  }

  /**
   The compile-time table builder fills exactly those two functions. Logarithms are
   bytes in the source; here they are the numbers those bytes hold.
   */
  method BuildTables() returns (log: array<nat>, antilog: array<bv8>)
    ensures log.Length == 256 && antilog.Length == 256 && fresh(log) && fresh(antilog)
    ensures forall i: nat :: i < 256 ==> antilog[i] == Antilog(i)
    ensures forall a: bv8 :: log[Slot(a)] == Log(a)
  {
    hide XPow, Xtime, LogFrom, LowByte, Advance, Widen, Slot, WordSlot;
    XPowSucc(0, 1);
    log := new nat[256](_ => 0);
    antilog := new bv8[256](_ => 0);
    var x: bv16 := Widen(1);
    var i := 0;
    while i < 255
      invariant 0 <= i <= 255
      invariant x == Widen(XPow(i, 1))
      invariant forall k: nat :: k < i ==> antilog[k] == XPow(k, 1)
      invariant forall k: nat :: k < i ==> log[Slot(XPow(k, 1))] == k
      invariant log[0] == 0
    {
      BuilderStep(i);
      antilog[i] := LowByte(x);
      log[WordSlot(x)] := i;
      x := Advance(x);
      i := i + 1;
    }
    antilog[255] := 1;
    TablesAreFull(log[..]);
    AntilogIsFull(antilog[..]);
  }

  /** What one pass of the builder's loop needs of the register holding x^i. */
  lemma BuilderStep(i: nat)
    requires i < 255
    ensures var v := XPow(i, 1);
            && LowByte(Widen(v)) == v
            && WordSlot(Widen(v)) == Slot(v) != 0
            && Advance(Widen(v)) == Widen(XPow(i + 1, 1))
            && forall k: nat :: k < i ==> Slot(XPow(k, 1)) != Slot(v)
  {
    hide XPow, Xtime, LowByte, Reduce;
    var v := XPow(i, 1);
    XPowZero(i, 1);
    ZeroAsInt(v);
    WordIsByte(v);
    StepOnWords(v);
    XPowSucc(i, 1);
    forall k: nat | k < i
      ensures Slot(XPow(k, 1)) != Slot(v)
    {
      PowersAreDistinct(k, i);
      SlotsDiffer(XPow(k, 1), v);
    }
  }

  lemma AntilogIsFull(antilog: seq<bv8>)
    requires |antilog| == 256 && antilog[255] == 1
    requires forall k: nat :: k < 255 ==> antilog[k] == XPow(k, 1)
    ensures forall i: nat :: i < 256 ==> antilog[i] == Antilog(i)
  {
    hide XPow;
    XPowSucc(0, 1);
  }

  lemma SlotsDiffer(a: bv8, b: bv8)
    ensures a != b ==> Slot(a) != Slot(b)
  {}

  lemma TablesAreFull(log: seq<nat>)
    requires |log| == 256 && log[0] == 0
    requires forall k: nat :: k < 255 ==> log[Slot(XPow(k, 1))] == k
    ensures forall a: bv8 :: log[Slot(a)] == Log(a)
  {
    hide XPow, LogFrom;
    forall a: bv8
      ensures log[Slot(a)] == Log(a)
    {
      ZeroAsInt(a);
      if a == 0 {
        LogFromOfZero(0);
      } else {
        var k := LogExists(a);
        LogFromFinds(a, 0, k);
      }
    }
  }

  /** A byte as a table index. */
  function Slot(v: bv8): (i: nat)
    ensures i < 256
  {
    v as int
  }

  function WordSlot(x: bv16): nat {
    x as int
  }

  function Widen(v: bv8): bv16 {
    v as bv16
  }

  /** The `as u8` of the builder's 16-bit register. */
  function LowByte(x: bv16): bv8 {
    (x & 0xFF) as bv8
  }

  /** One pass of the builder's loop on its register. */
  function Reduce(x: bv16): bv16 {
    if x & 0x100 != 0 then x ^ 0x11D else x
  }

  /** One step of the builder's register. */
  function Advance(x: bv16): bv16 {
    Reduce(x << 1)
  }

  lemma WordIsByte(v: bv8)
    ensures LowByte(v as bv16) == v
    ensures (v as bv16) as int == v as int
  {}

  /** Shifting a 16-bit register and reducing by 0x11D agrees with the 8-bit step. */
  lemma StepOnWords(v: bv8)
    ensures Reduce((v as bv16) << 1) == Xtime(v) as bv16
  {
    var w := (v as bv16) << 1;
    if v & 0x80 != 0 {
      assert w & 0x100 != 0;
      assert v >> 7 == 1;
      assert w ^ 0x11D == ((v << 1) ^ 0x1D) as bv16;
    } else {
      assert w & 0x100 == 0;
      assert v >> 7 == 0;
      assert w == (v << 1) as bv16;
    }
  }

  // ---------------------------------------------------------------- arithmetic

  function Add(a: bv8, b: bv8): bv8 {
    a ^ b
  }

  function Mul(a: bv8, b: bv8): bv8 {
    if a == 0 || b == 0 then 0 else Antilog(Log(a) + Log(b))
  }

  function Div(a: bv8, b: bv8): Option<bv8> {
    if b == 0 then None
    else if a == 0 then Some(0)
    else LogAntilog(b, 0); Some(Antilog(255 + Log(a) - Log(b)))
  }

  function Inv(a: bv8): Option<bv8> {
    Div(1, a)
  }

  function Pow(a: bv8, n: nat): bv8 {
    if a == 0 then (if n == 0 then 1 else 0) else Antilog((Log(a) * n) % 255)
  }

  /** Multiplying by `a` is applying x^(log a): the bridge to linearity. */
  lemma MulIsXPow(a: bv8, v: bv8)
    requires a != 0
    ensures Mul(a, v) == XPow(Log(a), v)
  {
    hide XPow, Log;
    if v == 0 {
      XPowZero(Log(a), v);
    } else {
      LogAntilog(a, 0);
      LogAntilog(v, 0);
      XPowMod(Log(a) + Log(v), 1);
      XPowAdd(Log(a), Log(v), 1);
    }
  }

  lemma MulCommutes(a: bv8, b: bv8)
    ensures Mul(a, b) == Mul(b, a)
  {}

  lemma MulDistributes(a: bv8, b: bv8, c: bv8)
    ensures Mul(a, Add(b, c)) == Add(Mul(a, b), Mul(a, c))
  {
    if a != 0 {
      MulIsXPow(a, b);
      MulIsXPow(a, c);
      MulIsXPow(a, b ^ c);
      XPowXor(Log(a), b, c);
    }
  }

  lemma MulNonZero(a: bv8, b: bv8)
    ensures Mul(a, b) == 0 <==> a == 0 || b == 0
  {
    if a != 0 {
      MulIsXPow(a, b);
      XPowZero(Log(a), b);
    }
  }

  /** Logarithms turn products into sums modulo 255. */
  lemma LogMul(a: bv8, b: bv8)
    requires a != 0 && b != 0
    ensures Mul(a, b) != 0 && Log(Mul(a, b)) == (Log(a) + Log(b)) % 255
  {
    hide Log, Antilog;
    var k := Log(a) + Log(b);
    LogAntilog(a, k % 255);
    AntilogTurns(k);
  }

  /** The antilog table repeats every 255 entries and holds no zero. */
  lemma AntilogTurns(k: nat)
    ensures Antilog(k) == Antilog(k % 255) != 0
  {
    hide XPow;
    XPowZero(k % 255, 1);
  }

  lemma MulAssociates(a: bv8, b: bv8, c: bv8)
    ensures Mul(a, Mul(b, c)) == Mul(Mul(a, b), c)
  {
    hide *;
    MulNonZero(a, b);
    MulNonZero(b, c);
    MulNonZero(a, Mul(b, c));
    MulNonZero(Mul(a, b), c);
    if a != 0 && b != 0 {
      LogMul(a, b);
      MulIsXPow(a, Mul(b, c));
      MulIsXPow(b, c);
      MulIsXPow(Mul(a, b), c);
      XPowAdd(Log(a), Log(b), c);
      XPowMod(Log(a) + Log(b), c);
    }
  }

  lemma MulOne(a: bv8)
    ensures Mul(1, a) == a && Mul(a, 1) == a
  {
    assert XPow(0, 1) == 1;
    LogFromFinds(1, 0, 0);
    MulIsXPow(1, a);
  }

  // ---------------------------------------------------------------- against polynomial arithmetic

  /** Shift and add: the product of two polynomials over GF(2), reduced by x^8 + x^4 + x^3 + x^2 + 1. */
  function Product(a: bv8, b: bv8): bv8
    decreases b
  {
    if b == 0 then 0
    else
      HalfIsLess(b);
      (if b & 1 != 0 then a else 0) ^ Product((a << 1) ^ (if a & 0x80 != 0 then 0x1D else 0), b >> 1)
  }

  lemma HalfIsLess(b: bv8)
    requires b != 0
    ensures b >> 1 < b
  {}

  lemma XtimeIs(a: bv8)
    ensures Xtime(a) == (a << 1) ^ (if a & 0x80 != 0 then 0x1D else 0)
  {}

  lemma LowBitAndRest(b: bv8)
    ensures b == Add(b & 1, Xtime(b >> 1)) && (b & 1 == 0 || b & 1 == 1)
  {}

  lemma MulTwo(a: bv8)
    ensures Mul(2, a) == Xtime(a)
  {
    hide XPow, Xtime;
    XPowSucc(0, 1);
    XPowSucc(0, a);
    assert Xtime(1) == 2 by {
      XtimeIs(1);
    }
    LogFromFinds(2, 0, 1);
    MulIsXPow(2, a);
  }

  /** The low bit of `b` contributes `a` itself, the rest of `b` contributes to x times `a`. */
  lemma MulByHalves(a: bv8, b: bv8)
    ensures Mul(b, a) == Add(if b & 1 != 0 then a else 0, Mul(b >> 1, Xtime(a)))
  {
    hide Mul, Add, Xtime;
    LowBitAndRest(b);
    var h := b >> 1;
    MulTwo(h);
    MulTwo(a);
    MulCommutes(b, a);
    MulDistributes(a, b & 1, Xtime(h));
    MulOne(a);
    MulZero(a);
    MulCommutes(Mul(2, h), a);
    MulCommutes(2, h);
    MulAssociates(h, 2, a);
  }

  lemma MulZero(a: bv8)
    ensures Mul(a, 0) == 0 && Mul(0, a) == 0
  {}

  /** The table product is the polynomial product. */
  lemma {:induction false} MulIsProduct(a: bv8, b: bv8)
    ensures Mul(a, b) == Product(a, b)
    decreases b
  {
    hide Mul, Xtime;
    MulCommutes(a, b);
    if b == 0 {
      MulZero(a);
    } else {
      HalfIsLess(b);
      XtimeIs(a);
      MulByHalves(a, b);
      MulIsProduct(Xtime(a), b >> 1);
      MulCommutes(Xtime(a), b >> 1);
    }
  }

  /** Division undoes multiplication, and refuses only a zero divisor. */
  lemma DivUndoesMul(a: bv8, b: bv8)
    ensures Div(a, b).None? <==> b == 0
    ensures b != 0 ==> Mul(Div(a, b).value, b) == a && Div(Mul(a, b), b) == Some(a)
  {
    if b != 0 {
      DivThenMul(a, b);
      DivThenMul(Mul(a, b), b);
      var q := Div(Mul(a, b), b).value;
      MulCancels(b, q, a);
    }
  }

  lemma DivThenMul(a: bv8, b: bv8)
    requires b != 0
    ensures Div(a, b).Some? && Mul(Div(a, b).value, b) == a
  {
    hide Antilog, Log;
    if a != 0 {
      LogAntilog(a, 0);
      LogAntilog(b, 0);
      var e := 255 + Log(a) - Log(b);
      LogAntilog(b, e % 255);
      AntilogOfMod(e);
      AntilogOfMod(e % 255 + Log(b));
      AntilogOfMod(Log(a));
      FullTurn(e, Log(b), Log(a));
      AntilogNonZero(e);
    }
  }

  lemma AntilogNonZero(n: nat)
    ensures Antilog(n) != 0
  {
    hide XPow;
    XPowZero(n % 255, 1);
  }

  lemma AntilogOfMod(n: nat)
    ensures Antilog(n % 255) == Antilog(n)
  {
    hide XPow;
    ModTwice(n);
  }

  /** Exponents add round the 255 powers. */
  lemma FullTurn(e: nat, x: nat, y: nat)
    requires e + x == 255 + y
    ensures (e % 255 + x) % 255 == y % 255
  {}

  lemma MulCancels(c: bv8, a: bv8, b: bv8)
    requires c != 0 && Mul(a, c) == Mul(b, c)
    ensures a == b
  {
    MulIsXPow(c, a);
    MulIsXPow(c, b);
    MulCommutes(a, c);
    MulCommutes(b, c);
    XPowInjective(Log(c), a, b);
  }

  /** `Pow` by one logarithm multiplication is repeated multiplication. */
  lemma PowIsRepeatedMul(a: bv8, n: nat)
    ensures Pow(a, 0) == 1
    ensures Pow(a, n + 1) == Mul(Pow(a, n), a)
  {
    hide XPow, LogFrom;
    XPowSucc(0, 1);
    if a != 0 {
      PowStep(a, n);
    }
  }

  lemma PowStep(a: bv8, n: nat)
    requires a != 0
    ensures Antilog((Log(a) * (n + 1)) % 255) == Mul(Antilog((Log(a) * n) % 255), a)
  {
    hide *;
    var l := Log(a);
    var p := Antilog((l * n) % 255);
    assert l * (n + 1) == l + l * n;
    AntilogMod(l * n);
    AntilogMod(l * (n + 1));
    MulCommutes(p, a);
    MulIsXPow(a, p);
    XPowAdd(l, l * n, 1);
  }

  lemma AntilogMod(n: nat)
    ensures Antilog(n % 255) == XPow(n, 1)
  {
    hide XPow;
    ModTwice(n);
    XPowMod(n, 1);
  }

  lemma ModTwice(n: nat)
    ensures (n % 255) % 255 == n % 255
  {}
}
