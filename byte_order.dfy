/** Byte-order reader of rmexif: the JPEG stream stores every marker code and
    every segment length as a 16-bit big-endian value.  The C program loads the
    two bytes as a host-order `uint16_t` and repairs the order with `align16`;
    this module models both steps and proves that together they are a plain
    big-endian decode whatever the host's byte order. */
module ByteOrder {

  /** One byte of the image buffer. */
  newtype byte = x: int | 0 <= x < 0x100

  /** The values of a C `uint16_t`. */
  type u16 = x: int | 0 <= x < 0x1_0000

  /** The big-endian value of the byte pair (hi, lo): hi is the more
      significant byte.  The two halves of the result give the bytes back. */
  function BE16(hi: byte, lo: byte): (v: u16)
    ensures v / 0x100 == hi as int && v % 0x100 == lo as int
  {
    hi as int * 0x100 + lo as int
  }

  /** What `*(uint16_t *)ptr` reads from the bytes b0 (at ptr) and b1 (at
      ptr + 1) on a host whose byte order is little-endian or big-endian. */
  function Load16(b0: byte, b1: byte, littleHost: bool): (r: u16)
    ensures r / 0x100 == (if littleHost then b1 else b0) as int
    ensures r % 0x100 == (if littleHost then b0 else b1) as int
  {
    if littleHost then b1 as int * 0x100 + b0 as int else b0 as int * 0x100 + b1 as int
  }

  /** The byte stored at address `(uint8_t *)&x + 1` on the given host. */
  function SecondByte(x: u16, littleHost: bool): (r: byte)
  {
    if littleHost then (x / 0x100) as byte else (x % 0x100) as byte
  }

  /** Reading back the byte at ptr + 1 of a loaded word gives the byte that
      was stored there, whatever the host's byte order. */
  lemma SecondByteOfLoad(b0: byte, b1: byte, littleHost: bool)
    ensures SecondByte(Load16(b0, b1, littleHost), littleHost) == b1
  {
  }

  // ---- C's bitwise operators on unsigned values ----

  /** `a & b` on unsigned operands, bit by bit: a bit of the result is set
      exactly when that bit is set in both operands. */
  function BitAnd(a: nat, b: nat): (r: nat)
    ensures r <= a && r <= b
    decreases a
  {
    if a == 0 || b == 0 then 0
    else 2 * BitAnd(a / 2, b / 2) + (if a % 2 == 1 && b % 2 == 1 then 1 else 0)
  }

  /** `a | b` on unsigned operands, bit by bit: a bit of the result is set
      exactly when that bit is set in either operand. */
  function BitOr(a: nat, b: nat): (r: nat)
    ensures a <= r && b <= r && r <= a + b
    decreases a + b
  {
    if a == 0 then b
    else if b == 0 then a
    else 2 * BitOr(a / 2, b / 2) + (if a % 2 == 1 || b % 2 == 1 then 1 else 0)
  }

  /** 2 to the power n. */
  function Pow2(n: nat): (p: nat)
    ensures p >= 1
  {
    if n == 0 then 1 else 2 * Pow2(n - 1)
  }

  /** A multiple of d strictly between -d and d is 0 times d. */
  lemma MultipleBetween(d: int, x: int)
    requires d > 0
    ensures x >= 1 ==> d * x >= d
    ensures x <= -1 ==> d * x <= -d
  {
  }

  /** Division and remainder are determined by any quotient-remainder pair. */
  lemma DivModUnique(a: int, d: int, t: int, r: int)
    requires d > 0 && a == d * t + r && 0 <= r < d
    ensures a / d == t && a % d == r
  {
    var q := a / d;
    assert a == d * q + a % d;
    assert d * (t - q) == a % d - r;
    MultipleBetween(d, t - q);
  }

  /** Dividing by 2 p is halving, then dividing by p. */
  lemma DivMod2(a: nat, p: nat)
    requires p >= 1
    ensures a / (2 * p) == (a / 2) / p && a % (2 * p) == 2 * ((a / 2) % p) + a % 2
  {
    var q, r := a / 2, a % 2;
    var t, u := q / p, q % p;
    assert q == p * t + u;
    assert a == 2 * q + r;
    assert a == (2 * p) * t + (2 * u + r);
    DivModUnique(a, 2 * p, t, 2 * u + r);
  }

  /** Halving the mask 2 p - 1 drops its lowest bit. */
  lemma HalveOdd(p: nat)
    requires p >= 1
    ensures (2 * p - 1) % 2 == 1 && (2 * p - 1) / 2 == p - 1
  {
  }

  /** One step of BitAnd: the lowest bit, then the rest shifted down. */
  lemma AndStep(a: nat, b: nat)
    requires a > 0 && b > 0
    ensures BitAnd(a, b) == 2 * BitAnd(a / 2, b / 2) + (if a % 2 == 1 && b % 2 == 1 then 1 else 0)
  {
  }

  /** The step of AndLowMask: the lowest bit of a and the remainder of a / 2
      modulo p make up the remainder of a modulo 2 p. */
  lemma LowCombine(a: nat, p: nat, r: nat, h: nat)
    requires p >= 1 && r == 2 * h + a % 2 && h == (a / 2) % p
    ensures r == a % (2 * p)
  {
    DivMod2(a, p);
  }

  /** Masking with n low one-bits keeps the remainder modulo 2^n. */
  lemma {:induction false} AndLowMask(a: nat, n: nat)
    ensures BitAnd(a, Pow2(n) - 1) == a % Pow2(n)
  {
    if n == 0 {
      assert BitAnd(a, 0) == 0;
    } else if a == 0 {
      DivModUnique(0, Pow2(n), 0, 0);
    } else {
      var p := Pow2(n - 1);
      var h := BitAnd(a / 2, p - 1);
      assert Pow2(n) - 1 == 2 * p - 1;
      assert h == (a / 2) % p by { AndLowMask(a / 2, n - 1); }
      assert BitAnd(a, 2 * p - 1) == 2 * h + a % 2 by { HalveOdd(p); AndStep(a, 2 * p - 1); }
      LowCombine(a, p, BitAnd(a, 2 * p - 1), h);
    }
  }

  /** A value below 2^n passes the mask of n low one-bits unchanged. */
  lemma AndLowMaskSmall(a: nat, n: nat)
    requires a < Pow2(n)
    ensures BitAnd(a, Pow2(n) - 1) == a
  {
    AndLowMask(a, n);
    DivModUnique(a, Pow2(n), 0, a);
  }

  /** BitAnd with an even mask: no lowest bit, a and the mask halved. */
  lemma AndHalve(a: nat, m: nat)
    requires m % 2 == 0
    ensures BitAnd(a, m) == 2 * BitAnd(a / 2, m / 2)
  {
    if a > 0 && m > 0 {
      AndStep(a, m);
    }
  }

  /** C's `<<` and `>>` on non-negative values, one bit at a time. */
  function Shl(v: nat, j: nat): (r: nat)
    ensures v <= r
  {
    if j == 0 then v else 2 * Shl(v, j - 1)
  }

  function Shr(v: nat, j: nat): (r: nat)
    ensures r <= v
  {
    if j == 0 then v else Shr(v / 2, j - 1)
  }

  lemma {:induction false} ShlMul(v: nat, j: nat)
    ensures Shl(v, j) == v * Pow2(j)
  {
    if j > 0 {
      ShlMul(v, j - 1);
      assert 2 * (v * Pow2(j - 1)) == v * (2 * Pow2(j - 1));
    }
  }

  lemma {:induction false} ShrDiv(v: nat, j: nat)
    ensures Shr(v, j) == v / Pow2(j)
  {
    if j > 0 {
      ShrDiv(v / 2, j - 1);
      DivMod2(v, Pow2(j - 1));
    }
  }

  /** Shifting down undoes shifting up. */
  lemma {:induction false} ShrShl(v: nat, j: nat)
    ensures Shr(Shl(v, j), j) == v
  {
    if j > 0 {
      assert Shl(v, j) / 2 == Shl(v, j - 1);
      ShrShl(v, j - 1);
    }
  }

  /** Masking with a mask shifted up by j bits is shifting a down by j,
      masking with the unshifted mask and shifting back up. */
  lemma {:induction false} AndShifted(a: nat, m: nat, j: nat)
    ensures BitAnd(a, Shl(m, j)) == Shl(BitAnd(Shr(a, j), m), j)
  {
    if j > 0 {
      var s := Shl(m, j - 1);
      assert Shl(m, j) == 2 * s;
      AndHalve(a, 2 * s);
      AndShifted(a / 2, m, j - 1);
    }
  }

  /** Or-ing a multiple of 2^n with a value below 2^n adds them: the bits
      do not overlap. */
  lemma {:induction false} OrDisjoint(a: nat, b: nat, n: nat)
    requires b < Pow2(n)
    ensures BitOr(a * Pow2(n), b) == a * Pow2(n) + b
  {
    if n > 0 && a > 0 && b > 0 {
      var x := a * Pow2(n);
      assert x == 2 * (a * Pow2(n - 1));
      assert x % 2 == 0 && x / 2 == a * Pow2(n - 1);
      OrDisjoint(a, b / 2, n - 1);
    }
  }

  /** The mask of the restart-marker test clears the three low bits. */
  lemma RestartMask(x: u16)
    ensures BitAnd(x, 0xFFF8) == x / 8 * 8
  {
    var h := x / 8;
    assert Shr(x, 3) == h by { ShrDiv(x, 3); assert Pow2(3) == 8; }
    assert BitAnd(h, 0x1FFF) == h by { assert Pow2(13) == 0x2000; AndLowMaskSmall(h, 13); }
    assert Shl(h, 3) == h * 8 by { ShlMul(h, 3); assert Pow2(3) == 8; }
    assert BitAnd(x, 0xFFF8) == Shl(BitAnd(Shr(x, 3), 0x1FFF), 3) by {
      AndShifted(x, 0x1FFF, 3);
      assert Shl(0x1FFF, 3) == 0xFFF8;
    }
  }

  /** The high-byte mask of `align16` clears the eight low bits. */
  lemma HighByteMask(x: u16)
    ensures BitAnd(x, 0xFF00) == x / 0x100 * 0x100
  {
    var h := x / 0x100;
    assert Shr(x, 8) == h by { ShrDiv(x, 8); assert Pow2(8) == 0x100; }
    assert BitAnd(h, 0xFF) == h by { assert Pow2(8) == 0x100; AndLowMaskSmall(h, 8); }
    assert Shl(h, 8) == h * 0x100 by { ShlMul(h, 8); assert Pow2(8) == 0x100; }
    assert BitAnd(x, 0xFF00) == Shl(BitAnd(Shr(x, 8), 0xFF), 8) by {
      AndShifted(x, 0xFF, 8);
      assert Shl(0xFF, 8) == 0xFF00;
    }
  }

  /** The masks and shifts of `align16` and the mask of the restart-marker
      test, applied to a 16-bit value, are the remainder, the rounding and
      the byte swap that the rest of the model computes with. */
  lemma MaskArithmetic(x: u16)
    ensures BitAnd(x, 0xFF) == x % 0x100
    ensures BitAnd(x, 0xFF00) == x / 0x100 * 0x100
    ensures BitOr(Shl(BitAnd(x, 0xFF), 8), Shr(BitAnd(x, 0xFF00), 8)) == (x % 0x100) * 0x100 + x / 0x100
    ensures BitAnd(x, 0xFFF8) == x / 8 * 8
  {
    var lo, hi := x % 0x100, x / 0x100;
    assert BitAnd(x, 0xFF) == lo by { assert Pow2(8) == 0x100; AndLowMask(x, 8); }
    HighByteMask(x);
    RestartMask(x);
    assert Shl(lo, 8) == lo * 0x100 by { ShlMul(lo, 8); assert Pow2(8) == 0x100; }
    assert Shl(hi, 8) == hi * 0x100 by { ShlMul(hi, 8); assert Pow2(8) == 0x100; }
    ShrShl(hi, 8);
    assert BitOr(lo * 0x100, hi) == lo * 0x100 + hi by { assert Pow2(8) == 0x100; OrDisjoint(lo, hi, 8); }
  }

  /** `align16`: if the byte at the higher address of x is not its low-order
      byte `x & 0xFF`, the host is little-endian and the two bytes of x are
      swapped.  The shifted and or-ed halves stay below 0x10000, so the
      conversion back to `uint16_t` keeps them. */
  function Align16(x: u16, littleHost: bool): (r: u16)
    ensures littleHost ==> r == x % 0x100 * 0x100 + x / 0x100
    ensures !littleHost ==> r == x
  {
    MaskArithmetic(x);
    if SecondByte(x, littleHost) as int != BitAnd(x, 0xFF)
    then BitOr(Shl(BitAnd(x, 0xFF), 8), Shr(BitAnd(x, 0xFF00), 8))
    else x
  }

  /** Loading two bytes in host order and passing the word through `align16`
      yields their big-endian value on either kind of host. */
  lemma Align16IsBigEndian(b0: byte, b1: byte, littleHost: bool)
    ensures Align16(Load16(b0, b1, littleHost), littleHost) == BE16(b0, b1)
  {
    var x := Load16(b0, b1, littleHost);
    MaskArithmetic(x);
    if littleHost {
      assert x / 0x100 == b1 as int && x % 0x100 == b0 as int;
    } else {
      assert x / 0x100 == b0 as int && x % 0x100 == b1 as int;
    }
  }

  /** Distinct byte pairs decode to distinct values (the decode loses nothing). */
  lemma BE16Injective(a0: byte, a1: byte, b0: byte, b1: byte)
    requires BE16(a0, a1) == BE16(b0, b1)
    ensures a0 == b0 && a1 == b1
  {
  }
}
