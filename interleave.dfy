/**
 * The Z-order (Morton) interleaving as plain arithmetic: bit k of x goes to
 * bit 2k of the address, bit k of y to bit 2k+1. These definitions are the
 * reference against which the codec's PDEP/PEXT formulation is proved, and
 * the facts below (round trips, bounds, monotonicity, the bounding box of a
 * dyadic interval) are what the range decomposer relies on.
 */
module Interleaving {
  import opened Bits

  /** The address of the point (x, y). */
  function Interleave(x: nat, y: nat): nat
    decreases x + y
  {
    if x == 0 && y == 0 then 0
    else x % 2 + 2 * (y % 2) + 4 * Interleave(x / 2, y / 2)
  }

  /** The x coordinate of address d: its even bits. */
  function DeX(d: nat): nat
  {
    if d == 0 then 0 else d % 2 + 2 * DeX(d / 4)
  }

  /** The y coordinate of address d: its odd bits. */
  function DeY(d: nat): nat
  {
    DeX(d / 2)
  }

  /** 0x5555…: k ones at the even bit positions 0, 2, …, 2k-2. */
  function EvenMask(k: nat): nat
  {
    if k == 0 then 0 else 1 + 4 * EvenMask(k - 1)
  }

  /** The 32-bit selector constant 0x55555555 has sixteen even ones. */
  lemma EvenMask16()
    ensures EvenMask(16) == 0x5555_5555
  {
    assert EvenMask(1) == 0x1;
    assert EvenMask(2) == 0x5;
    assert EvenMask(3) == 0x15;
    assert EvenMask(4) == 0x55;
    assert EvenMask(5) == 0x155;
    assert EvenMask(6) == 0x555;
    assert EvenMask(7) == 0x1555;
    assert EvenMask(8) == 0x5555;
    assert EvenMask(9) == 0x15555;
    assert EvenMask(10) == 0x55555;
    assert EvenMask(11) == 0x155555;
    assert EvenMask(12) == 0x555555;
    assert EvenMask(13) == 0x1555555;
    assert EvenMask(14) == 0x5555555;
    assert EvenMask(15) == 0x15555555;
    assert EvenMask(16) == 0x55555555;
  }

  // ---------------------------------------------------------------------
  // Unfolding

  /** The base-4 digit r and the rest q of the number r + 4q. */
  lemma Digits4(r: nat, q: nat)
    requires r < 4
    ensures (r + 4 * q) / 4 == q && (r + 4 * q) % 4 == r
    ensures (r + 4 * q) % 2 == r % 2 && (r + 4 * q) / 2 == r / 2 + 2 * q
  {
    DivModUnique(r + 4 * q, 4, q, r);
    DivModUnique(r + 4 * q, 2, r / 2 + 2 * q, r % 2);
  }

  /** The two lowest bits and the rest of d. */
  lemma Digits(d: nat)
    ensures d == d % 2 + 2 * ((d / 2) % 2) + 4 * (d / 4)
    ensures (d / 2) / 2 == d / 4
  {
    var r, q := d % 4, d / 4;
    Digits4(r, q);
    DivModUnique(d / 2, 2, q, r / 2);
  }

  lemma InterleaveStep(x: nat, y: nat)
    ensures Interleave(x, y) == x % 2 + 2 * (y % 2) + 4 * Interleave(x / 2, y / 2)
  {
  }

  lemma DeXStep(d: nat)
    ensures DeX(d) == d % 2 + 2 * DeX(d / 4)
  {
  }

  lemma DeYStep(d: nat)
    ensures DeY(d) == (d / 2) % 2 + 2 * DeY(d / 4)
  {
    assert d / 2 / 4 == d / 4 / 2;
  }

  // ---------------------------------------------------------------------
  // Round trips

  /** Decoding an address gives back the coordinates it was built from. */
  lemma {:induction false} DecodeInterleave(x: nat, y: nat)
    ensures DeX(Interleave(x, y)) == x && DeY(Interleave(x, y)) == y
    decreases x + y
  {
    if x != 0 || y != 0 {
      var q := Interleave(x / 2, y / 2);
      var r := x % 2 + 2 * (y % 2);
      var d := r + 4 * q;
      assert d == Interleave(x, y);
      DecodeInterleave(x / 2, y / 2);
      Digits4(r, q);
      DeXStep(d);
      DeYStep(d);
      DivModUnique(d / 2, 2, q, y % 2);
    }
  }

  /** Every address is the interleaving of its decoded coordinates. */
  lemma {:induction false} InterleaveDecode(d: nat)
    ensures Interleave(DeX(d), DeY(d)) == d
  {
    if d != 0 {
      InterleaveDecode(d / 4);
      DeXStep(d);
      DeYStep(d);
      DivModUnique(DeX(d), 2, DeX(d / 4), d % 2);
      DivModUnique(DeY(d), 2, DeY(d / 4), (d / 2) % 2);
      InterleaveStep(DeX(d), DeY(d));
      Digits(d);
    }
  }

  lemma InterleaveInjective(x: nat, y: nat, x': nat, y': nat)
    requires Interleave(x, y) == Interleave(x', y')
    ensures x == x' && y == y'
  {
    DecodeInterleave(x, y);
    DecodeInterleave(x', y');
  }

  // ---------------------------------------------------------------------
  // Bounds

  /** Coordinates below 2^k give addresses below 4^k. */
  lemma {:induction false} InterleaveBound(x: nat, y: nat, k: nat)
    requires x < Pow2(k) && y < Pow2(k)
    ensures Interleave(x, y) < Pow2(2 * k)
  {
    if k > 0 {
      InterleaveBound(x / 2, y / 2, k - 1);
      assert Pow2(2 * k) == 4 * Pow2(2 * (k - 1));
    }
  }

  /** Addresses below 4^k decode to coordinates below 2^k. */
  lemma {:induction false} DecodeBound(d: nat, k: nat)
    requires d < Pow2(2 * k)
    ensures DeX(d) < Pow2(k) && DeY(d) < Pow2(k)
  {
    if k > 0 {
      assert Pow2(2 * k) == 4 * Pow2(2 * (k - 1));
      DecodeBound(d / 4, k - 1);
      DeXStep(d);
      DeYStep(d);
    }
  }

  // ---------------------------------------------------------------------
  // Order

  /** The curve is monotone in each coordinate. */
  lemma {:induction false} InterleaveMonotone(x: nat, y: nat, x': nat, y': nat)
    requires x <= x' && y <= y'
    ensures Interleave(x, y) <= Interleave(x', y')
    decreases x' + y'
  {
    if x' != 0 || y' != 0 {
      InterleaveMonotone(x / 2, y / 2, x' / 2, y' / 2);
      var a, a' := Interleave(x / 2, y / 2), Interleave(x' / 2, y' / 2);
      InterleaveStep(x, y);
      InterleaveStep(x', y');
      if a == a' {
        InterleaveInjective(x / 2, y / 2, x' / 2, y' / 2);
      }
    }
  }

  /**
   * A dyadic interval: lo has its low f bits clear and hi is lo with those
   * bits set, so that the interval holds exactly the addresses that share
   * lo's bits above position f.
   */
  predicate Dyadic(lo: nat, hi: nat, f: nat)
  {
    lo % Pow2(f) == 0 && hi == lo + Pow2(f) - 1
  }

  /**
   * The decoded endpoints of a dyadic interval bound the decoded points of
   * every address inside it: the interval is an axis-aligned box.
   */
  lemma {:induction false} DyadicBox(lo: nat, hi: nat, f: nat, d: nat)
    requires Dyadic(lo, hi, f) && lo <= d <= hi
    ensures DeX(lo) <= DeX(d) <= DeX(hi)
    ensures DeY(lo) <= DeY(d) <= DeY(hi)
  {
    if f == 0 {
      assert d == lo && hi == lo;
    } else if f == 1 {
      DyadicPairBox(lo, d);
    } else {
      DyadicQuarter(lo, hi, f);
      DyadicBox(lo / 4, hi / 4, f - 2, d / 4);
      QuarterBox(lo, d, hi);
    }
  }

  /** The box of [lo, hi] follows from the box of its quarters when lo and hi end in base-4 digits 0 and 3. */
  lemma QuarterBox(lo: nat, d: nat, hi: nat)
    requires lo % 4 == 0 && hi % 4 == 3
    requires DeX(lo / 4) <= DeX(d / 4) <= DeX(hi / 4)
    requires DeY(lo / 4) <= DeY(d / 4) <= DeY(hi / 4)
    ensures DeX(lo) <= DeX(d) <= DeX(hi)
    ensures DeY(lo) <= DeY(d) <= DeY(hi)
  {
    DeXStep(lo); DeXStep(d); DeXStep(hi);
    DeYStep(lo); DeYStep(d); DeYStep(hi);
    Digits(lo); Digits(d); Digits(hi);
  }

  /** The two addresses 2c and 2c+1 share y and are ordered in x. */
  lemma DyadicPairBox(lo: nat, d: nat)
    requires lo % 2 == 0 && lo <= d <= lo + 1
    ensures DeX(lo) <= DeX(d) <= DeX(lo + 1)
    ensures DeY(lo) == DeY(d) == DeY(lo + 1)
  {
    DeXStep(lo); DeXStep(lo + 1);
    assert (lo + 1) / 4 == lo / 4 && (lo + 1) / 2 == lo / 2;
    assert d == lo || d == lo + 1;
  }

  /** Dropping the two lowest bits of a dyadic interval leaves a dyadic interval. */
  lemma DyadicQuarter(lo: nat, hi: nat, f: nat)
    requires f >= 2 && Dyadic(lo, hi, f)
    ensures lo % 4 == 0 && hi % 4 == 3
    ensures Dyadic(lo / 4, hi / 4, f - 2)
  {
    var p := Pow2(f - 2);
    assert Pow2(f) == 4 * p;
    var c := lo / (4 * p);
    DivModUnique(lo, 4 * p, c, 0);
    DivModUnique(lo, 4, p * c, 0);
    DivModUnique(hi, 4, p * c + p - 1, 3);
    DivModUnique(p * c, p, c, 0);
  }

  /** A dyadic interval halves into two dyadic intervals. */
  lemma DyadicHalves(lo: nat, hi: nat, f: nat)
    requires f > 0 && Dyadic(lo, hi, f)
    ensures Dyadic(lo, lo + Pow2(f - 1) - 1, f - 1)
    ensures Dyadic(lo + Pow2(f - 1), hi, f - 1)
  {
    var p := Pow2(f - 1);
    var c := DyadicSplit(lo, hi, f);
    assert lo % p == 0 by {
      DivModUnique(lo, p, 2 * c, 0);
    }
    assert (lo + p) % p == 0 by {
      DivModUnique(lo + p, p, 2 * c + 1, 0);
    }
  }

  /** Bit f-1 is clear in the low end of a dyadic interval of 2^f addresses and set in its high end. */
  lemma DyadicTopBits(lo: nat, hi: nat, f: nat)
    requires f > 0 && Dyadic(lo, hi, f)
    ensures BitAt(lo, f - 1) == 0 && BitAt(hi, f - 1) == 1
  {
    var c := DyadicSplit(lo, hi, f);
    MultipleBits(f - 1, c);
  }

  /** Bit k of 2^k * 2c is clear, and that of 2^k * (2c + 1) + 2^k - 1 is set. */
  lemma {:induction false} MultipleBits(k: nat, c: nat)
    ensures BitAt(Pow2(k) * (2 * c), k) == 0
    ensures BitAt(Pow2(k) * (2 * c + 1) + Pow2(k) - 1, k) == 1
  {
    if k > 0 {
      var p := Pow2(k - 1);
      MultipleBits(k - 1, c);
      assert Pow2(k) * (2 * c) == 2 * (p * (2 * c)) by {
        MulAssoc(2, p, 2 * c);
      }
      assert Pow2(k) * (2 * c + 1) + Pow2(k) - 1 == 2 * (p * (2 * c + 1) + p - 1) + 1 by {
        MulAssoc(2, p, 2 * c + 1);
      }
    }
  }

  /** The low end of a dyadic interval of 2^f addresses is an even multiple of 2^(f-1). */
  lemma DyadicSplit(lo: nat, hi: nat, f: nat) returns (c: nat)
    requires f > 0 && Dyadic(lo, hi, f)
    ensures lo == Pow2(f - 1) * (2 * c) && lo + Pow2(f - 1) == Pow2(f - 1) * (2 * c + 1)
    ensures hi == lo + 2 * Pow2(f - 1) - 1
  {
    var p := Pow2(f - 1);
    assert Pow2(f) == 2 * p;
    c := lo / (2 * p);
    assert lo == p * (2 * c) by {
      DivModUnique(lo, 2 * p, c, 0);
      MulAssoc(2, p, c);
      MulAssoc(p, 2, c);
    }
    MulAddOne(p, 2 * c);
  }


  // ---------------------------------------------------------------------
  // PDEP / PEXT against the interleaving

  lemma PdepDouble(v: nat, m: nat)
    ensures Pdep(v, 2 * m) == 2 * Pdep(v, m)
  {
  }

  lemma PextDouble(v: nat, m: nat)
    ensures Pext(v, 2 * m) == Pext(v / 2, m)
  {
  }

  /** Depositing into the even positions spreads v's low k bits. */
  lemma {:induction false} PdepEven(v: nat, k: nat)
    ensures Pdep(v, EvenMask(k)) == Interleave(v % Pow2(k), 0)
  {
    if k > 0 {
      var m := EvenMask(k - 1);
      DivModUnique(EvenMask(k), 2, 2 * m, 1);
      PdepDouble(v / 2, m);
      PdepEven(v / 2, k - 1);
      DivPow2Step(v, k);
      var w := v % Pow2(k);
      DivModUnique(w, 2, (v / 2) % Pow2(k - 1), v % 2);
      InterleaveStep(w, 0);
    }
  }

  lemma {:induction false} InterleaveY(w: nat)
    ensures Interleave(0, w) == 2 * Interleave(w, 0)
  {
    if w != 0 {
      InterleaveY(w / 2);
      InterleaveStep(0, w);
      InterleaveStep(w, 0);
    }
  }

  /** The even-position and odd-position halves combine by or. */
  lemma {:induction false} OrInterleave(x: nat, y: nat)
    ensures Or(Interleave(x, 0), Interleave(0, y)) == Interleave(x, y)
    decreases x + y
  {
    if x == 0 && y == 0 {
      OrZero(0);
    } else {
      InterleaveStep(x, 0);
      InterleaveStep(0, y);
      InterleaveStep(x, y);
      OrInterleave(x / 2, y / 2);
      OrTwoBits(Interleave(x, 0), Interleave(0, y), x % 2, y % 2, Interleave(x / 2, 0), Interleave(0, y / 2));
    }
  }

  /** The or of u = s + 4a and v = 2t + 4b, for single bits s and t. */
  lemma OrTwoBits(u: nat, v: nat, s: nat, t: nat, a: nat, b: nat)
    requires s < 2 && t < 2 && u == s + 4 * a && v == 2 * t + 4 * b
    ensures Or(u, v) == s + 2 * t + 4 * Or(a, b)
  {
    OrStep(u, v);
    OrStep(u / 2, v / 2);
    Digits4(s, a);
    Digits4(2 * t, b);
    DivModUnique(u / 2, 2, a, 0);
    DivModUnique(v / 2, 2, b, t);
  }

  /** Gathering the even positions of d reads back the x coordinate of its low 2k bits. */
  lemma {:induction false} PextEven(d: nat, k: nat)
    ensures Pext(d, EvenMask(k)) == DeX(d % Pow2(2 * k))
  {
    if k > 0 {
      var m := EvenMask(k - 1);
      var p := Pow2(2 * (k - 1));
      var e := d % Pow2(2 * k);
      calc {
        Pext(d, EvenMask(k));
        { DivModUnique(EvenMask(k), 2, 2 * m, 1); }
        d % 2 + 2 * Pext(d / 2, 2 * m);
        { PextDouble(d / 2, m); Digits(d); }
        d % 2 + 2 * Pext(d / 4, m);
        { PextEven(d / 4, k - 1); }
        d % 2 + 2 * DeX((d / 4) % p);
        { PextLowBits(d, k); }
        e % 2 + 2 * DeX(e / 4);
        { DeXStep(e); }
        DeX(e);
      }
    }
  }

  lemma PextLowBits(d: nat, k: nat)
    requires k > 0
    ensures d % Pow2(2 * k) % 2 == d % 2
    ensures d % Pow2(2 * k) / 4 == (d / 4) % Pow2(2 * (k - 1))
  {
    ModPow4Step(d, k);
    LowDigit(d % Pow2(2 * k), d, (d / 4) % Pow2(2 * (k - 1)));
  }

  /** A number whose lowest base-4 digit is that of d has d's lowest bit. */
  lemma LowDigit(e: nat, d: nat, q: nat)
    requires e == d % 4 + 4 * q
    ensures e % 2 == d % 2 && e / 4 == q
  {
    Digits4(d % 4, q);
    Digits(d);
  }

  /** The remainder modulo 4^k peels off the lowest base-4 digit. */
  lemma ModPow4Step(d: nat, k: nat)
    requires k > 0
    ensures d % Pow2(2 * k) == d % 4 + 4 * ((d / 4) % Pow2(2 * (k - 1)))
  {
    DivPow2Step(d, 2 * k);
    DivPow2Step(d / 2, 2 * k - 1);
    Digits(d);
  }
}
