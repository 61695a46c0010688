/**
 * Bit arithmetic on unbounded naturals, used as the model of the unsigned
 * integer operations of the C++ sources (`&`, `|`, `^`, `~` on 32 bits,
 * `<<`, population count) and of the BMI2 bit intrinsics PDEP and PEXT
 * (`bit_distribute` and `bit_gather`, whose definitions are not part of this
 * model). Every operation is defined bit by bit from the least significant
 * bit upwards.
 */
module Bits {

  /** The unsigned 32-bit integers. */
  const U32: nat := 0x1_0000_0000
  type uint32 = x: nat | x < 0x1_0000_0000

  /** The unsigned 64-bit integers. */
  const U64: nat := 0x1_0000_0000_0000_0000
  type uint64 = x: nat | x < 0x1_0000_0000_0000_0000

  function Pow2(k: nat): (r: nat)
    ensures r >= 1
  {
    if k == 0 then 1 else 2 * Pow2(k - 1)
  }

  /** Bit k of a. */
  function BitAt(a: nat, k: nat): (b: nat)
    ensures b < 2
  {
    if k == 0 then a % 2 else BitAt(a / 2, k - 1)
  }

  function And(a: nat, b: nat): nat
  {
    if a == 0 || b == 0 then 0
    else (if a % 2 == 1 && b % 2 == 1 then 1 else 0) + 2 * And(a / 2, b / 2)
  }

  function Or(a: nat, b: nat): nat
    decreases a + b
  {
    if a == 0 then b
    else if b == 0 then a
    else (if a % 2 == 1 || b % 2 == 1 then 1 else 0) + 2 * Or(a / 2, b / 2)
  }

  function Xor(a: nat, b: nat): nat
    decreases a + b
  {
    if a == 0 && b == 0 then 0
    else (if a % 2 != b % 2 then 1 else 0) + 2 * Xor(a / 2, b / 2)
  }

  /** `~a` on an unsigned 32-bit integer. */
  function Not32(a: uint32): uint32
  {
    U32 - 1 - a
  }

  /** `~a` on an unsigned 64-bit integer. */
  function Not64(a: uint64): uint64
  {
    U64 - 1 - a
  }

  /** `a * b` on unsigned 32-bit integers: the product wraps around. */
  function Mul32(a: uint32, b: uint32): uint32
  {
    (a * b) % U32
  }

  /** `a - b` on unsigned 32-bit integers: the difference wraps around. */
  function Sub32(a: uint32, b: uint32): uint32
  {
    (a + U32 - b) % U32
  }

  /** `a << k` on an unsigned 32-bit integer: the bits shifted out are lost. */
  function Shl32(a: uint32, k: nat): uint32
    requires k < 32
  {
    (a * Pow2(k)) % U32
  }

  /** The number of bits set (`number_of_bits_set`). */
  function Popcount(a: nat): nat
  {
    if a == 0 then 0 else a % 2 + Popcount(a / 2)
  }

  /** The bit set of a is a subset of that of b: `(a | b) == b`. */
  predicate SubsetOf(a: nat, b: nat)
  {
    Or(a, b) == b
  }

  /**
   * PDEP: the low bits of src are deposited, in order, at the positions of
   * the bits set in mask; every other bit of the result is clear.
   */
  function Pdep(src: nat, mask: nat): nat
  {
    if mask == 0 then 0
    else if mask % 2 == 1 then src % 2 + 2 * Pdep(src / 2, mask / 2)
    else 2 * Pdep(src, mask / 2)
  }

  /**
   * PEXT: the bits of src at the positions of the bits set in mask are
   * gathered, in order, into the low bits of the result.
   */
  function Pext(src: nat, mask: nat): nat
  {
    if mask == 0 then 0
    else if mask % 2 == 1 then src % 2 + 2 * Pext(src / 2, mask / 2)
    else Pext(src / 2, mask / 2)
  }

  // ---------------------------------------------------------------------
  // Arithmetic helpers

  lemma MulAtLeast(e: nat, m: nat)
    requires e >= 1
    ensures e * m >= m
  {
    if e > 1 {
      MulAtLeast(e - 1, m);
      assert e * m == (e - 1) * m + m;
    }
  }

  lemma DivModUnique(a: nat, m: nat, q: nat, r: nat)
    requires m > 0 && r < m && a == q * m + r
    ensures a / m == q && a % m == r
  {
    var q', r' := a / m, a % m;
    assert a == q' * m + r';
    if q' > q {
      MulAtLeast(q' - q, m);
    } else if q' < q {
      MulAtLeast(q - q', m);
    }
  }

  lemma Pow2Add(a: nat, b: nat)
    ensures Pow2(a + b) == Pow2(a) * Pow2(b)
  {
    if a > 0 {
      Pow2Add(a - 1, b);
    }
  }

  lemma Pow2Constants()
    ensures Pow2(8) == 0x100 && Pow2(16) == 0x1_0000 && Pow2(32) == U32
  {
    Pow2Add(4, 4);
    Pow2Add(8, 8);
    Pow2Add(16, 16);
  }

  lemma Pow2Of64()
    ensures Pow2(64) == U64
  {
    Pow2Constants();
    Pow2Add(32, 32);
  }

  lemma Pow2Mono(a: nat, b: nat)
    requires a <= b
    ensures Pow2(a) <= Pow2(b)
  {
    if a < b {
      Pow2Mono(a, b - 1);
    }
  }

  lemma MulAssoc(a: int, b: int, c: int)
    ensures a * (b * c) == (a * b) * c
  {
  }

  lemma MulAddOne(c: int, u: int)
    ensures c * (u + 1) == c * u + c
  {
  }

  /** Taking the remainder modulo 2P peels off the lowest bit. */
  lemma ModDouble(a: nat, p: nat)
    requires p > 0
    ensures a % (2 * p) == a % 2 + 2 * ((a / 2) % p)
    ensures a / (2 * p) == (a / 2) / p
  {
    var h := a / 2;
    var t, u := h / p, h % p;
    assert a == (2 * p) * t + (a % 2 + 2 * u);
    DivModUnique(a, 2 * p, t, a % 2 + 2 * u);
  }

  lemma DivPow2Step(a: nat, k: nat)
    requires k > 0
    ensures a / Pow2(k) == (a / 2) / Pow2(k - 1)
    ensures a % Pow2(k) == a % 2 + 2 * ((a / 2) % Pow2(k - 1))
  {
    ModDouble(a, Pow2(k - 1));
  }

  // ---------------------------------------------------------------------
  // One bit at a time

  lemma AndStep(a: nat, b: nat)
    ensures And(a, b) == (if a % 2 == 1 && b % 2 == 1 then 1 else 0) + 2 * And(a / 2, b / 2)
  {
  }

  lemma OrStep(a: nat, b: nat)
    ensures Or(a, b) == (if a % 2 == 1 || b % 2 == 1 then 1 else 0) + 2 * Or(a / 2, b / 2)
  {
    if a == 0 {
      assert Or(a / 2, b / 2) == b / 2;
    } else if b == 0 {
      assert Or(a / 2, b / 2) == a / 2;
    }
  }

  lemma XorStep(a: nat, b: nat)
    ensures Xor(a, b) == (if a % 2 != b % 2 then 1 else 0) + 2 * Xor(a / 2, b / 2)
  {
    if a == 0 && b == 0 {
      assert Xor(0, 0) == 0;
    }
  }

  lemma {:induction false} XorZero(a: nat)
    ensures Xor(0, a) == a
  {
    if a != 0 {
      XorZero(a / 2);
    }
  }

  lemma SubsetOfStep(a: nat, b: nat)
    ensures SubsetOf(a, b) <==> (a % 2 <= b % 2 && SubsetOf(a / 2, b / 2))
  {
    OrStep(a, b);
    var bit := if a % 2 == 1 || b % 2 == 1 then 1 else 0;
    if SubsetOf(a, b) {
      DivModUnique(b, 2, Or(a / 2, b / 2), bit);
    }
  }

  // ---------------------------------------------------------------------
  // Facts about the operations

  /** Masking with 2^m - 1 keeps the low m bits. */
  lemma {:induction false} AndLowMask(a: nat, m: nat)
    ensures And(a, Pow2(m) - 1) == a % Pow2(m)
  {
    if m > 0 {
      var h := Pow2(m - 1);
      AndLowMask(a / 2, m - 1);
      DivPow2Step(a, m);
      LowMaskStep(a, Pow2(m) - 1, h - 1, (a / 2) % h, a % Pow2(m));
    }
  }

  /** One step of `AndLowMask`: an odd mask keeps bit 0 and masks the rest with its half. */
  lemma LowMaskStep(a: nat, mask: nat, h: nat, q: nat, r: nat)
    requires mask == 2 * h + 1 && And(a / 2, h) == q && r == a % 2 + 2 * q
    ensures And(a, mask) == r
  {
    AndStep(a, mask);
  }

  lemma {:induction false} OrZero(a: nat)
    ensures Or(a, 0) == a && Or(0, a) == a
  {
  }

  lemma {:induction false} OrComm(a: nat, b: nat)
    ensures Or(a, b) == Or(b, a)
    decreases a + b
  {
    if a != 0 && b != 0 {
      OrComm(a / 2, b / 2);
    }
  }

  /** Setting bit k of a value whose bit k is clear adds 2^k. */
  lemma {:induction false} OrPow2(a: nat, k: nat)
    requires BitAt(a, k) == 0
    ensures Or(a, Pow2(k)) == a + Pow2(k)
  {
    OrStep(a, Pow2(k));
    if k == 0 {
      assert Or(a / 2, 0) == a / 2;
    } else {
      OrPow2(a / 2, k - 1);
    }
  }

  /** Clearing bit k (by `& ~(1 << k)` within w bits) of a value whose bit k is set subtracts 2^k. */
  lemma AndClearBit(a: nat, w: nat, k: nat)
    requires a < Pow2(w) && k < w && BitAt(a, k) == 1
    ensures Pow2(k) < Pow2(w) && And(a, Pow2(w) - 1 - Pow2(k)) == a - Pow2(k)
  {
    assert Pow2(k) < Pow2(w) by {
      Pow2Mono(k, w - 1);
    }
    AndClearMask(a, w, k, Pow2(w) - 1 - Pow2(k));
  }

  /** `AndClearBit` with the mask named. */
  lemma {:induction false} AndClearMask(a: nat, w: nat, k: nat, m: nat)
    requires a < Pow2(w) && k < w && BitAt(a, k) == 1 && m + Pow2(k) + 1 == Pow2(w)
    ensures And(a, m) == a - Pow2(k)
  {
    if k == 0 {
      AndClearLowest(a, w);
    } else {
      MaskHalves(w, k);
      assert a / 2 < Pow2(w - 1);
      AndClearMask(a / 2, w - 1, k - 1, m / 2);
      AndOddMask(a, m, a / 2 - Pow2(k - 1));
    }
  }

  /** Clearing bit 0 of an odd value below 2^w. */
  lemma AndClearLowest(a: nat, w: nat)
    requires a < Pow2(w) && 0 < w && a % 2 == 1
    ensures And(a, Pow2(w) - 2) == a - 1
  {
    var p := Pow2(w - 1);
    var m := Pow2(w) - 2;
    AndStep(a, m);
    assert m % 2 == 0 && m / 2 == p - 1 by {
      DivModUnique(m, 2, p - 1, 0);
    }
    assert And(a / 2, p - 1) == a / 2 by {
      AndLowMask(a / 2, w - 1);
      DivModUnique(a / 2, p, 0, a / 2);
    }
  }

  /** 2^w - 1 - 2^k, for 0 < k < w, is odd and halves to 2^(w-1) - 1 - 2^(k-1). */
  lemma MaskHalves(w: nat, k: nat)
    requires 0 < k < w
    ensures Pow2(k) < Pow2(w)
    ensures (Pow2(w) - 1 - Pow2(k)) % 2 == 1
    ensures (Pow2(w) - 1 - Pow2(k)) / 2 == Pow2(w - 1) - 1 - Pow2(k - 1)
  {
    Pow2Mono(k, w - 1);
    DivModUnique(Pow2(w) - 1 - Pow2(k), 2, Pow2(w - 1) - 1 - Pow2(k - 1), 1);
  }

  /** And with an odd mask keeps the lowest bit of a. */
  lemma AndOddMask(a: nat, m: nat, r: nat)
    requires m % 2 == 1 && And(a / 2, m / 2) == r
    ensures And(a, m) == a % 2 + 2 * r
  {
    AndStep(a, m);
  }

  lemma {:induction false} OrDisjoint(a: nat, b: nat)
    requires And(a, b) == 0
    ensures Or(a, b) == a + b
    decreases a + b
  {
    if a != 0 && b != 0 {
      AndStep(a, b);
      OrStep(a, b);
      OrDisjoint(a / 2, b / 2);
    }
  }

  /** Xor of a value with a superset of it leaves the added bits. */
  lemma {:induction false} XorOfDisjointUnion(a: nat, s: nat)
    requires And(a, s) == 0
    ensures Xor(a, Or(a, s)) == s
    decreases a + s
  {
    if a != 0 && s != 0 {
      AndStep(a, s);
      OrStep(a, s);
      XorStep(a, Or(a, s));
      XorOfDisjointUnion(a / 2, s / 2);
      assert Or(a, s) / 2 == Or(a / 2, s / 2);
      assert Or(a, s) % 2 == (if a % 2 == 1 || s % 2 == 1 then 1 else 0);
    } else if a == 0 {
      OrZero(s);
      XorZero(s);
    } else {
      OrZero(a);
      XorSelf(a);
    }
  }

  lemma {:induction false} XorSelf(a: nat)
    ensures Xor(a, a) == 0
  {
    if a != 0 {
      XorSelf(a / 2);
    }
  }

  lemma {:induction false} AndBound(a: nat, b: nat)
    ensures And(a, b) <= a && And(a, b) <= b
  {
    if a != 0 && b != 0 {
      AndBound(a / 2, b / 2);
    }
  }

  lemma {:induction false} OrBound(a: nat, b: nat, w: nat)
    requires a < Pow2(w) && b < Pow2(w)
    ensures Or(a, b) < Pow2(w)
    decreases a + b
  {
    if a != 0 && b != 0 {
      OrStep(a, b);
      OrBound(a / 2, b / 2, w - 1);
    }
  }

  lemma {:induction false} PopcountBound(a: nat, w: nat)
    requires a < Pow2(w)
    ensures Popcount(a) <= w
  {
    if a != 0 {
      PopcountBound(a / 2, w - 1);
    }
  }

  // ---------------------------------------------------------------------
  // A bit above both operands

  /** Setting bit m, above every bit of a and b, in b (giving bb) sets it in the difference. */
  lemma {:induction false} XorHighAt(a: nat, b: nat, bb: nat, m: nat)
    requires a < Pow2(m) && b < Pow2(m) && bb == b + Pow2(m)
    ensures Xor(a, bb) == Xor(a, b) + Pow2(m)
  {
    if m > 0 {
      var p := Pow2(m - 1);
      HalfHigh(b, p);
      XorHighAt(a / 2, b / 2, bb / 2, m - 1);
      XorHalves(a, b, a / 2, b / 2);
      XorHalves(a, bb, a / 2, bb / 2);
    } else {
      HighBase(a, b, Pow2(m));
    }
  }

  /** Setting bit m, above every bit of a and b, in both (giving aa and bb) leaves the difference alone. */
  lemma {:induction false} XorHighBothAt(a: nat, b: nat, aa: nat, bb: nat, m: nat)
    requires a < Pow2(m) && b < Pow2(m) && aa == a + Pow2(m) && bb == b + Pow2(m)
    ensures Xor(aa, bb) == Xor(a, b)
  {
    if m > 0 {
      var p := Pow2(m - 1);
      HalfHigh(a, p);
      HalfHigh(b, p);
      XorHighBothAt(a / 2, b / 2, aa / 2, bb / 2, m - 1);
      XorHalves(a, b, a / 2, b / 2);
      XorHalves(aa, bb, aa / 2, bb / 2);
    } else {
      HighBase(a, b, Pow2(m));
    }
  }

  /** Setting bit m, above every bit of a and b, in b (giving bb) sets it in the union. */
  lemma {:induction false} OrHighAt(a: nat, b: nat, bb: nat, m: nat)
    requires a < Pow2(m) && b < Pow2(m) && bb == b + Pow2(m)
    ensures Or(a, bb) == Or(a, b) + Pow2(m)
  {
    if m > 0 {
      var p := Pow2(m - 1);
      HalfHigh(b, p);
      OrHighAt(a / 2, b / 2, bb / 2, m - 1);
      OrHalves(a, b, a / 2, b / 2);
      OrHalves(a, bb, a / 2, bb / 2);
    } else {
      HighBase(a, b, Pow2(m));
    }
  }

  /** Setting bit m, above every bit of a and b, in both (giving aa and bb) sets it in the union. */
  lemma {:induction false} OrHighBothAt(a: nat, b: nat, aa: nat, bb: nat, m: nat)
    requires a < Pow2(m) && b < Pow2(m) && aa == a + Pow2(m) && bb == b + Pow2(m)
    ensures Or(aa, bb) == Or(a, b) + Pow2(m)
  {
    if m > 0 {
      var p := Pow2(m - 1);
      HalfHigh(a, p);
      HalfHigh(b, p);
      OrHighBothAt(a / 2, b / 2, aa / 2, bb / 2, m - 1);
      OrHalves(a, b, a / 2, b / 2);
      OrHalves(aa, bb, aa / 2, bb / 2);
    } else {
      HighBase(a, b, Pow2(m));
    }
  }

  /** Bit 0 set above the empty operands. */
  lemma HighBase(a: nat, b: nat, pp: nat)
    requires a == 0 && b == 0 && pp == 1
    ensures Or(a, b + pp) == Or(a, b) + pp && Or(a + pp, b + pp) == Or(a, b) + pp
    ensures Xor(a, b + pp) == Xor(a, b) + pp && Xor(a + pp, b + pp) == Xor(a, b)
    ensures Popcount(b + pp) == Popcount(b) + 1
  {
    assert Or(1, 1) == 1 + 2 * Or(0, 0);
    assert Xor(1, 1) == 2 * Xor(0, 0);
  }

  /** `OrStep` with the halves of the operands named. */
  lemma OrHalves(a: nat, b: nat, a2: nat, b2: nat)
    requires a2 == a / 2 && b2 == b / 2
    ensures Or(a, b) == (if a % 2 == 1 || b % 2 == 1 then 1 else 0) + 2 * Or(a2, b2)
  {
    OrStep(a, b);
  }

  /** `XorStep` with the halves of the operands named. */
  lemma XorHalves(a: nat, b: nat, a2: nat, b2: nat)
    requires a2 == a / 2 && b2 == b / 2
    ensures Xor(a, b) == (if a % 2 != b % 2 then 1 else 0) + 2 * Xor(a2, b2)
  {
    XorStep(a, b);
  }

  lemma HalfHigh(b: nat, p: nat)
    ensures (b + 2 * p) / 2 == b / 2 + p && (b + 2 * p) % 2 == b % 2
  {
  }

  /** Setting bit m, above every bit of b, adds one to the bit count. */
  lemma PopcountHigh(b: nat, m: nat)
    requires b < Pow2(m)
    ensures Popcount(b + Pow2(m)) == Popcount(b) + 1
  {
    PopcountHighAt(b, b + Pow2(m), m);
  }

  /** `PopcountHigh` with the raised value named. */
  lemma {:induction false} PopcountHighAt(b: nat, bb: nat, m: nat)
    requires b < Pow2(m) && bb == b + Pow2(m)
    ensures Popcount(bb) == Popcount(b) + 1
  {
    if m > 0 {
      HalfHigh(b, Pow2(m - 1));
      PopcountHighAt(b / 2, bb / 2, m - 1);
      PopcountHalves(b, b / 2);
      PopcountHalves(bb, bb / 2);
    } else {
      HighBase(0, b, Pow2(m));
    }
  }

  lemma PopcountHalves(a: nat, a2: nat)
    requires a2 == a / 2
    ensures Popcount(a) == a % 2 + Popcount(a2)
  {
  }

  /** The union is at least as large as either operand. */
  lemma {:induction false} OrAtLeast(a: nat, b: nat)
    ensures Or(a, b) >= a && Or(a, b) >= b
    decreases a + b
  {
    if a != 0 && b != 0 {
      OrAtLeast(a / 2, b / 2);
    }
  }

  lemma {:induction false} OrSelf(a: nat)
    ensures Or(a, a) == a
  {
    if a != 0 {
      OrSelf(a / 2);
    }
  }

  /** Masking the complement of i, taken on w bits, with 2^z - 1 gives the complement of i on z bits. */
  lemma ComplementMask(i: nat, z: nat, w: nat)
    requires z <= w && i < Pow2(z)
    ensures Pow2(z) <= Pow2(w) && And(Pow2(w) - 1 - i, Pow2(z) - 1) == Pow2(z) - 1 - i
  {
    Pow2Add(z, w - z);
    Pow2Mono(z, w);
    AndLowMask(Pow2(w) - 1 - i, z);
    ComplementMod(Pow2(w), Pow2(z), Pow2(w - z) - 1, i);
  }

  lemma ComplementMod(n: nat, p: nat, q: nat, i: nat)
    requires i < p && n == p * (q + 1)
    ensures n - 1 - i >= 0 && (n - 1 - i) % p == p - 1 - i
  {
    MulAddOne(p, q);
    DivModUnique(n - 1 - i, p, q, p - 1 - i);
  }
}
