// The slot checksum, bit by bit, is polynomial division over GF(2).
// crates/server/src/cluster.rs:11-24; Redis Cluster Specification, Appendix A.
module Crc {
  import opened Bytes

  // ----- polynomials over GF(2): bit i of a number is the coefficient of x^i -----

  /** Addition, and subtraction. */
  function Xor(a: nat, b: nat): (r: nat)
    decreases a + b
  {
    if a == 0 && b == 0 then 0
    else (if a % 2 == b % 2 then 0 else 1) + 2 * Xor(a / 2, b / 2)
  }

  /** Multiplication without carries. */
  function Times(a: nat, b: nat): (r: nat)
  {
    if a == 0 then 0 else Xor(if a % 2 == 1 then b else 0, 2 * Times(a / 2, b))
  }

  /** One more than the degree; 0 for the zero polynomial. */
  function Length(a: nat): (n: nat)
  {
    if a == 0 then 0 else 1 + Length(a / 2)
  }

  function Pow2(n: nat): (r: nat)
    ensures r > 0
  {
    if n == 0 then 1 else 2 * Pow2(n - 1)
  }

  lemma {:induction false} XorZero(a: nat)
    ensures Xor(a, 0) == a && Xor(0, a) == a
  {
    if a > 0 {
      XorZero(a / 2);
    }
  }

  lemma {:induction false} XorSelf(a: nat)
    ensures Xor(a, a) == 0
  {
    if a > 0 {
      XorSelf(a / 2);
    }
  }

  lemma {:induction false} XorSwap(a: nat, b: nat)
    ensures Xor(a, b) == Xor(b, a)
    decreases a + b
  {
    if a + b > 0 {
      XorSwap(a / 2, b / 2);
    }
  }

  lemma {:induction false} XorAssoc(a: nat, b: nat, c: nat)
    ensures Xor(Xor(a, b), c) == Xor(a, Xor(b, c))
    decreases a + b + c
  {
    XorBits(a, b);
    XorBits(b, c);
    XorBits(Xor(a, b), c);
    XorBits(a, Xor(b, c));
    if a + b + c > 0 {
      XorAssoc(a / 2, b / 2, c / 2);
      assert Xor(Xor(a, b), c) / 2 == Xor(a, Xor(b, c)) / 2;
    }
  }

  /** What a sum is, bit by bit. */
  lemma XorBits(a: nat, b: nat)
    ensures Xor(a, b) / 2 == Xor(a / 2, b / 2)
    ensures Xor(a, b) % 2 == if a % 2 == b % 2 then 0 else 1
  {
  }

  lemma XorDouble(a: nat, b: nat)
    ensures Xor(2 * a, 2 * b) == 2 * Xor(a, b)
  {
  }

  /** A pair of equal terms cancels. */
  lemma XorCancel(a: nat, b: nat)
    ensures Xor(a, Xor(a, b)) == b
  {
    XorAssoc(a, a, b);
    XorSelf(a);
    XorZero(b);
  }

  /** Regrouping a sum of four. */
  lemma XorFour(a: nat, b: nat, c: nat, d: nat)
    ensures Xor(Xor(a, b), Xor(c, d)) == Xor(Xor(a, c), Xor(b, d))
  {
    XorAssoc(a, b, Xor(c, d));
    XorAssoc(b, c, d);
    XorSwap(b, c);
    XorAssoc(c, b, d);
    XorAssoc(a, c, Xor(b, d));
  }

  /** Numbers with no bit in common add as numbers do. */
  lemma {:induction false} XorShifted(a: nat, b: nat, n: nat)
    requires b < Pow2(n)
    ensures Xor(a * Pow2(n), b) == a * Pow2(n) + b
    decreases n
  {
    if n == 0 {
      XorZero(a);
    } else {
      var hi := a * Pow2(n - 1);
      assert a * Pow2(n) == 2 * hi;
      XorShifted(a, b / 2, n - 1);
      XorBits(2 * hi, b);
    }
  }

  lemma {:induction false} LengthXor(a: nat, b: nat)
    requires Length(a) < Length(b)
    ensures Length(Xor(a, b)) == Length(b)
    decreases a + b
  {
    XorBits(a, b);
    if a > 1 {
      LengthXor(a / 2, b / 2);
    } else {
      XorZero(b / 2);
      assert a / 2 == 0;
      assert b / 2 > 0 || a == 0;
    }
  }

  lemma {:induction false} LengthMax(a: nat, b: nat, n: nat)
    requires Length(a) <= n && Length(b) <= n
    ensures Length(Xor(a, b)) <= n
    decreases n
  {
    XorBits(a, b);
    if n > 0 {
      LengthMax(a / 2, b / 2, n - 1);
    }
  }

  lemma {:induction false} LengthBound(a: nat, n: nat)
    ensures Length(a) <= n <==> a < Pow2(n)
    decreases n
  {
    if n > 0 {
      LengthBound(a / 2, n - 1);
    }
  }

  /** Degrees add under multiplication. */
  lemma {:induction false} LengthTimes(a: nat, b: nat)
    requires a > 0 && b > 0
    ensures Length(Times(a, b)) == Length(a) + Length(b) - 1
    decreases a
  {
    var low := if a % 2 == 1 then b else 0;
    if a == 1 {
      assert Times(0, b) == 0 && Times(1, b) == Xor(b, 2 * Times(0, b));
      XorZero(b);
    } else {
      LengthTimes(a / 2, b);
      var high := 2 * Times(a / 2, b);
      assert Length(high) == 1 + Length(Times(a / 2, b));
      LengthXor(low, high);
    }
  }

  lemma {:induction false} TimesXor(a: nat, b: nat, p: nat)
    ensures Times(Xor(a, b), p) == Xor(Times(a, p), Times(b, p))
    decreases a + b
  {
    if a + b > 0 {
      TimesXor(a / 2, b / 2, p);
      XorBits(a, b);
      var x, y := if a % 2 == 1 then p else 0, if b % 2 == 1 then p else 0;
      TimesStep(a, p);
      TimesStep(b, p);
      TimesStep(Xor(a, b), p);
      XorFour(x, 2 * Times(a / 2, p), y, 2 * Times(b / 2, p));
      XorDouble(Times(a / 2, p), Times(b / 2, p));
      XorSelf(p);
      XorZero(p);
    } else {
      XorZero(0);
    }
  }

  lemma TimesStep(a: nat, p: nat)
    ensures Times(a, p) == Xor(if a % 2 == 1 then p else 0, 2 * Times(a / 2, p))
  {
    if a == 0 {
      XorZero(0);
    }
  }

  // ----- the remainder -----

  /** x^16 + x^12 + x^5 + 1. */
  const POLY: nat := 0x11021

  /** `r` is what is left of `m` after taking out multiples of the polynomial. */
  ghost predicate Remainder(m: nat, r: nat)
  {
    r < 0x10000 && exists q: nat :: m == Xor(Times(q, POLY), r)
  }

  /** There is only one remainder. */
  lemma RemainderUnique(m: nat, r: nat, r': nat)
    requires Remainder(m, r) && Remainder(m, r')
    ensures r == r'
  {
    var q: nat :| m == Xor(Times(q, POLY), r);
    var q': nat :| m == Xor(Times(q', POLY), r');
    var d := Xor(q, q');
    XorFour(Times(q, POLY), r, Times(q', POLY), r');
    TimesXor(q, q', POLY);
    XorSelf(m);
    assert Xor(Times(d, POLY), Xor(r, r')) == 0;
    XorCancel(Times(d, POLY), Xor(r, r'));
    XorZero(Times(d, POLY));
    assert Xor(r, r') == Times(d, POLY);
    Pow16();
    LengthBound(r, 16);
    LengthBound(r', 16);
    LengthMax(r, r', 16);
    if d > 0 {
      LengthTimes(d, POLY);
      LengthBound(POLY, 16);
    }
    assert Xor(r, r') == 0;
    XorCancel(r, r');
    XorZero(r);
  }

  lemma Pow16()
    ensures Pow2(16) == 0x10000 && Pow2(8) == 256
  {
    assert Pow2(4) == 16 && Pow2(8) == 256 && Pow2(12) == 4096;
  }

  // ----- the loop -----

  /** One shift: `crc << 1`, minus the polynomial when a bit falls off. */
  function Shift(crc: nat): (r: nat)
    requires crc < 0x10000
  {
    if crc >= 0x8000 then Xor(2 * crc % 0x10000, 0x1021) else 2 * crc % 0x10000
  }

  lemma ShiftFits(crc: nat)
    requires crc < 0x10000
    ensures Shift(crc) < 0x10000
  {
    Pow16();
    LengthBound(2 * crc % 0x10000, 16);
    LengthBound(0x1021, 16);
    LengthMax(2 * crc % 0x10000, 0x1021, 16);
    LengthBound(Xor(2 * crc % 0x10000, 0x1021), 16);
  }

  /** A bit falling off the register is one polynomial taken out. */
  lemma ShiftHigh(crc: nat)
    requires 0x8000 <= crc < 0x10000
    ensures 2 * crc == Xor(POLY, Shift(crc))
  {
    hide Xor;
    var low := 2 * crc % 0x10000;
    Pow16();
    XorShifted(1, low, 16);
    XorShifted(1, 0x1021, 16);
    assert 2 * crc == Xor(0x10000, low) && POLY == Xor(0x10000, 0x1021);
    XorFour(0x10000, 0x1021, low, 0x1021);
    XorSelf(0x1021);
    XorZero(Xor(0x10000, low));
  }

  lemma TimesDouble(q: nat, p: nat)
    ensures Times(2 * q, p) == 2 * Times(q, p) && Times(1, p) == p
  {
    TimesStep(2 * q, p);
    XorZero(2 * Times(q, p));
    TimesStep(1, p);
    XorZero(p);
  }

  /** Shifting the register multiplies the message by x. */
  lemma ShiftRemainder(m: nat, crc: nat)
    requires Remainder(m, crc)
    ensures Remainder(2 * m, Shift(crc))
  {
    hide Xor, Times;
    var q: nat :| m == Xor(Times(q, POLY), crc);
    ShiftFits(crc);
    XorDouble(Times(q, POLY), crc);
    TimesDouble(q, POLY);
    if crc < 0x8000 {
      assert 2 * m == Xor(Times(2 * q, POLY), Shift(crc));
    } else {
      ShiftHigh(crc);
      TimesXor(2 * q, 1, POLY);
      XorAssoc(Times(2 * q, POLY), POLY, Shift(crc));
      assert 2 * m == Xor(Times(Xor(2 * q, 1), POLY), Shift(crc));
    }
  }

  /** Every polynomial has a remainder. */
  lemma {:induction false} RemainderExists(m: nat) returns (r: nat)
    ensures Remainder(m, r)
  {
    hide Xor, Times;
    if m == 0 {
      NoRemainder();
      return 0;
    }
    var half := RemainderExists(m / 2);
    ShiftRemainder(m / 2, half);
    r := Xor(Shift(half), m % 2);
    XorShifted(m / 2, m % 2, 1);
    AddRemainder(2 * (m / 2), Shift(half), m % 2);
  }

  /** Adding a low polynomial adds it to the remainder. */
  lemma AddRemainder(m: nat, r: nat, low: nat)
    requires Remainder(m, r) && low < 0x10000
    ensures Remainder(Xor(m, low), Xor(r, low))
  {
    hide Xor, Times;
    var q: nat :| m == Xor(Times(q, POLY), r);
    XorAssoc(Times(q, POLY), r, low);
    Pow16();
    LengthBound(r, 16);
    LengthBound(low, 16);
    LengthMax(r, low, 16);
    LengthBound(Xor(r, low), 16);
    assert Xor(m, low) == Xor(Times(q, POLY), Xor(r, low));
  }

  lemma NoRemainder()
    ensures Remainder(0, 0)
  {
    XorZero(0);
    assert 0 == Xor(Times(0, POLY), 0);
  }

  /** A byte in the upper half of the register. */
  function High(b: byte): (n: nat) { 256 * (b as int) }

  /** Feeding a byte into the top of the register adds it to the message. */
  lemma FeedByte(m: nat, crc: nat, b: byte)
    requires Remainder(m * 0x10000, crc)
    ensures Remainder(m * 0x10000 + High(b), Xor(crc, High(b)))
  {
    hide Remainder;
    AddRemainder(m * 0x10000, crc, High(b));
    Pow16();
    XorShifted(m, High(b), 16);
  }

  /** The remainder of the message, read as a polynomial most significant byte first, times x^16. */
  ghost function Checksum(data: Bytes): (r: nat)
    ensures Remainder(Number(data) * 0x10000, r)
  {
    Divides(Number(data) * 0x10000);
    var r: nat :| Remainder(Number(data) * 0x10000, r);
    r
  }

  lemma Divides(m: nat)
    ensures exists r: nat :: Remainder(m, r)
  {
    var r := RemainderExists(m);
  }

  /** `crc16`: for every byte string, the message polynomial times x^16, modulo the polynomial. */
  method Crc16(data: Bytes) returns (crc: nat)
    ensures crc == Checksum(data) < 0x10000
  {
    hide Remainder, Xor;
    crc := 0;
    NoRemainder();
    var i := 0;
    while i < |data|
      invariant 0 <= i <= |data| && Remainder(Number(data[..i]) * 0x10000, crc)
    {
      ghost var m := Number(data[..i]);
      FeedByte(m, crc, data[i]);
      crc := Xor(crc, High(data[i]));
      ghost var fed := m * 0x10000 + High(data[i]);
      var bit := 0;
      while bit < 8
        invariant 0 <= bit <= 8 && Remainder(fed * Pow2(bit), crc)
      {
        RemainderFits(fed * Pow2(bit), crc);
        ShiftRemainder(fed * Pow2(bit), crc);
        Doubled(fed, bit);
        crc := if crc >= 0x8000 then Xor(2 * crc % 0x10000, 0x1021) else 2 * crc % 0x10000;
        bit := bit + 1;
      }
      Pow16();
      assert data[..i + 1][..i] == data[..i];
      assert fed * 256 == Number(data[..i + 1]) * 0x10000;
      i := i + 1;
    }
    assert data[..i] == data;
    RemainderUnique(Number(data) * 0x10000, crc, Checksum(data));
    RemainderFits(Number(data) * 0x10000, crc);
  }

  lemma RemainderFits(m: nat, r: nat)
    requires Remainder(m, r)
    ensures r < 0x10000
  {
  }

  lemma Doubled(a: nat, n: nat)
    ensures 2 * (a * Pow2(n)) == a * Pow2(n + 1)
  {
  }

  /** The single bit: the polynomial without its leading term, 0x1021. */
  lemma OneBit()
    ensures Checksum([1]) == 0x1021
  {
    hide Xor, Times;
    assert Number([1]) == 1 by { assert [1][..0] == []; }
    Pow16();
    XorShifted(1, 0x1021, 16);
    XorAssoc(0x10000, 0x1021, 0x1021);
    XorSelf(0x1021);
    XorZero(0x10000);
    TimesDouble(0, POLY);
    assert 0x10000 == Xor(Times(1, POLY), 0x1021);
    assert Remainder(0x10000, 0x1021);
    RemainderUnique(0x10000, 0x1021, Checksum([1]));
  }
}
