/**
 * The coordinate codec of the Z-order curve (class template `ZCurve` of
 * src/Hilbert/ZCurve.hh, instantiated with a 32-bit unsigned `Tuint`).
 *
 * A codec is fixed by its number of bits per direction B (`noBits`); after
 * construction nothing in it changes, so it is a value. Coordinates are
 * masked to their low B bits before interleaving, never rejected.
 */
module ZCurveCodec {
  import opened Bits
  import opened Interleaving

  /** Selector for the x coordinate: the even bit positions (`_maskX`, truncated to 32 bits). */
  const MaskX: uint32 := 0x5555_5555
  /** Selector for the y coordinate: the odd bit positions (`_maskY`, truncated to 32 bits). */
  const MaskY: uint32 := 0xAAAA_AAAA

  datatype ZCurve = ZCurve(noBits: nat, mask: uint32)
  {
    /**
     * What the constructor establishes: at most 16 bits per direction, so
     * that an address fits in 32 bits, and `mask` selects the low B bits.
     */
    predicate Valid()
    {
      noBits <= 16 && mask == Pow2(noBits) - 1
    }

    /** `get_n`: the number of values per direction, 2^B. */
    function N(): (n: uint32)
      requires Valid()
      ensures n == Pow2(noBits) && 1 <= n <= 0x1_0000
    {
      Pow2Constants();
      Pow2Mono(noBits, 16);
      Pow2Mono(noBits, 32);
      DivModUnique(Pow2(noBits), U32, 0, Pow2(noBits));
      Shl32(1, noBits)
    }

    /**
     * `getMaxD`: the last address on the curve, `n*n - 1` computed in 32-bit
     * arithmetic. For B = 16 the product wraps to 0 and the subtraction
     * wraps back to 2^32 - 1, so the result is 4^B - 1 for every valid B.
     */
    function MaxD(): (d: uint32)
      requires Valid()
      ensures d == Pow2(2 * noBits) - 1
    {
      var n := N();
      Pow2Add(noBits, noBits);
      Pow2Constants();
      Pow2Mono(2 * noBits, 32);
      assert n * n == Pow2(2 * noBits);
      if n * n < U32 then
        DivModUnique(n * n, U32, 0, n * n);
        DivModUnique(n * n + U32 - 1, U32, 1, n * n - 1);
        Sub32(Mul32(n, n), 1)
      else
        DivModUnique(n * n, U32, 1, 0);
        DivModUnique(U32 - 1, U32, 0, U32 - 1);
        Sub32(Mul32(n, n), 1)
    }

    /**
     * `xy2d`: the address of (x, y). Both coordinates are masked to their low
     * B bits and deposited into the even (x) and odd (y) bit positions.
     */
    function Xy2d(x: uint32, y: uint32): (d: uint32)
      requires Valid()
      ensures d == Interleave(x % N(), y % N())
      ensures d <= MaxD()
    {
      Xy2dAsInterleave(this, x, y);
      Or(Pdep(And(x, mask), MaskX), Pdep(And(y, mask), MaskY))
    }

    /**
     * `d2xy`: the coordinates of address d, gathered from its even (x) and
     * odd (y) bits and returned through two out-parameters.
     */
    method D2xy(d: uint32) returns (x: uint32, y: uint32)
      requires Valid()
      ensures x == DeX(d) && y == DeY(d)
      ensures x < 0x1_0000 && y < 0x1_0000
    {
      D2xyAsDecode(d);
      x := Pext(d, MaskX);
      y := Pext(d, MaskY);
    }

    /** `mkBit`: the word with only bit `level` set. */
    static function MkBit(level: nat): (b: uint32)
      requires level < 32
      ensures b == Pow2(level)
    {
      Pow2Constants();
      Pow2Mono(level, 31);
      DivModUnique(Pow2(level), U32, 0, Pow2(level));
      Shl32(1, level)
    }

    /** `mkLeft`: hi with the given bit cleared (`aHi & ~aBit`). */
    static function MkLeft(hi: uint32, bit: uint32): (r: uint32)
      ensures r <= hi
    {
      AndBound(hi, Not32(bit));
      And(hi, Not32(bit))
    }

    /** `mkRight`: lo with the given bit set (`aLo | aBit`). */
    static function MkRight(lo: uint32, bit: uint32): (r: uint32)
      ensures r >= lo
    {
      Pow2Constants();
      OrBound(lo, bit, 32);
      OrLowerBound(lo, bit);
      Or(lo, bit)
    }
  }

  /** The constructor `ZCurve(n)`: B bits per direction and the mask `(1 << B) - 1`. */
  function Create(noBits: nat): (z: ZCurve)
    requires noBits <= 16
    ensures z.noBits == noBits && z.Valid()
  {
    Pow2Constants();
    Pow2Mono(noBits, 16);
    DivModUnique(Pow2(noBits), U32, 0, Pow2(noBits));
    DivModUnique(Pow2(noBits) - 1 + U32, U32, 1, Pow2(noBits) - 1);
    ZCurve(noBits, Sub32(Shl32(1, noBits), 1))
  }

  // ---------------------------------------------------------------------
  // The PDEP/PEXT formulation against the interleaving

  lemma Xy2dAsInterleave(z: ZCurve, x: uint32, y: uint32)
    requires z.Valid()
    ensures Or(Pdep(And(x, z.mask), MaskX), Pdep(And(y, z.mask), MaskY)) == Interleave(x % z.N(), y % z.N())
    ensures Interleave(x % z.N(), y % z.N()) < Pow2(2 * z.noBits) <= U32
  {
    Pow2Mono(2 * z.noBits, 32);
    Pow2Constants();
    var n := z.N();
    var x', y' := x % n, y % n;
    MaskKeepsLowBits(z, x);
    MaskKeepsLowBits(z, y);
    DepositX(x');
    DepositY(y');
    OrInterleave(x', y');
    InterleaveBound(x', y', z.noBits);
  }

  lemma DepositX(v: nat)
    requires v < 0x1_0000
    ensures Pdep(v, MaskX) == Interleave(v, 0)
  {
    EvenMask16();
    Pow2Constants();
    DivModUnique(v, Pow2(16), 0, v);
    PdepEven(v, 16);
  }

  lemma DepositY(v: nat)
    requires v < 0x1_0000
    ensures Pdep(v, MaskY) == Interleave(0, v)
  {
    EvenMask16();
    PdepDouble(v, EvenMask(16));
    DepositX(v);
    InterleaveY(v);
  }

  lemma D2xyAsDecode(d: uint32)
    ensures Pext(d, MaskX) == DeX(d) && Pext(d, MaskY) == DeY(d)
    ensures DeX(d) < 0x1_0000 && DeY(d) < 0x1_0000
  {
    EvenMask16();
    Pow2Constants();
    PextEven(d, 16);
    PextDouble(d, EvenMask(16));
    PextEven(d / 2, 16);
    DivModUnique(d, U32, 0, d);
    DivModUnique(d / 2, U32, 0, d / 2);
    DecodeBound(d, 16);
  }

  lemma {:induction false} OrLowerBound(a: nat, b: nat)
    ensures Or(a, b) >= a
    decreases a + b
  {
    if a != 0 && b != 0 {
      OrStep(a, b);
      OrLowerBound(a / 2, b / 2);
    }
  }

  // ---------------------------------------------------------------------
  // Properties of the codec

  /** The constructor's mask keeps exactly the low B bits of a coordinate. */
  lemma MaskKeepsLowBits(z: ZCurve, v: nat)
    requires z.Valid()
    ensures And(v, z.mask) == v % z.N()
  {
    AndLowMask(v, z.noBits);
  }

  /**
   * Encoding then decoding gives back the masked coordinates: coordinates
   * of B bits come back unchanged, wider ones are truncated.
   */
  lemma RoundTripCoordinates(z: ZCurve, x: uint32, y: uint32)
    requires z.Valid()
    ensures DeX(z.Xy2d(x, y)) == And(x, z.mask) == x % z.N()
    ensures DeY(z.Xy2d(x, y)) == And(y, z.mask) == y % z.N()
  {
    MaskKeepsLowBits(z, x);
    MaskKeepsLowBits(z, y);
    DecodeInterleave(x % z.N(), y % z.N());
  }

  /** Every address of the curve decodes to a point of the domain and encodes back to itself. */
  lemma RoundTripAddress(z: ZCurve, d: uint32)
    requires z.Valid() && d <= z.MaxD()
    ensures DeX(d) < z.N() && DeY(d) < z.N()
    ensures z.Xy2d(DeX(d), DeY(d)) == d
  {
    var n := z.N();
    DecodeBound(d, z.noBits);
    DivModUnique(DeX(d), n, 0, DeX(d));
    DivModUnique(DeY(d), n, 0, DeY(d));
    InterleaveDecode(d);
  }

  /** Inside the domain the address grows with each coordinate. */
  lemma Xy2dMonotone(z: ZCurve, x: uint32, y: uint32, x': uint32, y': uint32)
    requires z.Valid()
    requires x <= x' < z.N() && y <= y' < z.N()
    ensures z.Xy2d(x, y) <= z.Xy2d(x', y')
  {
    var n := z.N();
    DivModUnique(x, n, 0, x);
    DivModUnique(y, n, 0, y);
    DivModUnique(x', n, 0, x');
    DivModUnique(y', n, 0, y');
    InterleaveMonotone(x, y, x', y');
  }

  /**
   * Splitting the dyadic interval [lo, hi] of 2^(level+1) addresses at bit
   * `level`: `mkLeft(hi, mkBit(level))` ends the lower half and
   * `mkRight(lo, mkBit(level))` starts the upper half; the halves are
   * dyadic intervals of 2^level addresses and they meet without a gap.
   */
  lemma SplitHalves(lo: uint32, hi: uint32, level: nat)
    requires level < 32 && Dyadic(lo, hi, level + 1)
    ensures ZCurve.MkLeft(hi, ZCurve.MkBit(level)) == lo + Pow2(level) - 1
    ensures ZCurve.MkRight(lo, ZCurve.MkBit(level)) == lo + Pow2(level)
    ensures Dyadic(lo, ZCurve.MkLeft(hi, ZCurve.MkBit(level)), level)
    ensures Dyadic(ZCurve.MkRight(lo, ZCurve.MkBit(level)), hi, level)
    ensures ZCurve.MkLeft(hi, ZCurve.MkBit(level)) + 1 == ZCurve.MkRight(lo, ZCurve.MkBit(level))
  {
    DyadicHalves(lo, hi, level + 1);
    LeftEnd(lo, hi, level);
    RightStart(lo, hi, level);
  }

  /** `mkLeft(hi, mkBit(level))` clears the top bit of the interval, which hi has set. */
  lemma LeftEnd(lo: uint32, hi: uint32, level: nat)
    requires level < 32 && Dyadic(lo, hi, level + 1)
    ensures ZCurve.MkLeft(hi, ZCurve.MkBit(level)) == lo + Pow2(level) - 1
  {
    var p := Pow2(level);
    assert hi == lo + 2 * p - 1 by {
      assert Pow2(level + 1) == 2 * p;
    }
    DyadicTopBits(lo, hi, level + 1);
    Pow2Constants();
    AndClearBit(hi, 32, level);
    ClearedBit(hi, ZCurve.MkBit(level), p);
  }

  /** `hi & ~bit` in 32 bits, for bit = 2^level, as the mask form of `AndClearBit`. */
  lemma ClearedBit(hi: uint32, bit: uint32, p: nat)
    requires bit == p && p < U32 && And(hi, U32 - 1 - p) == hi - p
    ensures ZCurve.MkLeft(hi, bit) == hi - p
  {
  }

  /** `mkRight(lo, mkBit(level))` sets the top bit of the interval, which lo has clear. */
  lemma RightStart(lo: uint32, hi: uint32, level: nat)
    requires level < 32 && Dyadic(lo, hi, level + 1)
    ensures ZCurve.MkRight(lo, ZCurve.MkBit(level)) == lo + Pow2(level)
  {
    DyadicTopBits(lo, hi, level + 1);
    OrPow2(lo, level);
  }
}
