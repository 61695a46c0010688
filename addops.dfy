/**
 * The counts of additions that the two ways of computing C x need, C being
 * the complete design matrix on z factors (`fNoAddOpForCx`,
 * `fNoAddOpForCxFactorized`, `fNoAddOpForCxFactorizedClosed`). The counts
 * are unsigned 64-bit integers in the source; the model keeps their
 * wrap-around.
 */
module AddOps {
  import opened Bits
  import opened BitSubsets

  function Pow3(n: nat): (r: nat)
    ensures r >= 1
  {
    if n == 0 then 1 else 3 * Pow3(n - 1)
  }

  // ---------------------------------------------------------------------
  // Row by row: fNoAddOpForCx

  /**
   * The ones in row i of C, one per superset of i: a factor absent from i
   * doubles them, a factor present leaves them.
   */
  function RowEntries(i: nat, z: nat): (r: nat)
    requires i < Pow2(z)
    ensures r >= 1
    decreases z
  {
    if z == 0 then 1
    else if i < Pow2(z - 1) then 2 * RowEntries(i, z - 1)
    else RowEntries(i - Pow2(z - 1), z - 1)
  }

  /** The ones in row i number 2 to the count of bits of its complement, `1 << popcount(~i & lMask)`. */
  lemma RowEntriesCount(i: nat, z: nat)
    requires i < Pow2(z)
    ensures RowEntries(i, z) == Pow2(Popcount(Complement(i, z)))
    decreases z, 1
  {
    if z > 0 {
      if i < Pow2(z - 1) {
        LowRowEntriesCount(i, z);
      } else {
        HighRowEntriesCount(i, z);
      }
    }
  }

  lemma LowRowEntriesCount(i: nat, z: nat)
    requires 1 <= z && i < Pow2(z - 1)
    ensures RowEntries(i, z) == Pow2(Popcount(Complement(i, z)))
    decreases z, 0
  {
    RowEntriesCount(i, z - 1);
    var c, cc := Complement(i, z - 1), Complement(i, z);
    assert cc == c + Pow2(z - 1);
    PopcountHighAt(c, cc, z - 1);
    var p := Popcount(c);
    assert Pow2(p + 1) == 2 * Pow2(p);
    Doubled(RowEntries(i, z), RowEntries(i, z - 1), Pow2(p + 1), Pow2(p));
  }

  lemma Doubled(e: nat, e1: nat, q: nat, q1: nat)
    requires e == 2 * e1 && q == 2 * q1 && e1 == q1
    ensures e == q
  {
  }

  lemma HighRowEntriesCount(i: nat, z: nat)
    requires 1 <= z && Pow2(z - 1) <= i < Pow2(z)
    ensures RowEntries(i, z) == Pow2(Popcount(Complement(i, z)))
    decreases z, 0
  {
    var h := Pow2(z - 1);
    RowEntriesCount(i - h, z - 1);
    assert Complement(i, z) == Complement(i - h, z - 1);
  }

  /** The additions row i needs: one fewer than the entries it sums. */
  function RowOps(i: nat, z: nat): nat
    requires i < Pow2(z)
  {
    RowEntries(i, z) - 1
  }

  /** The additions of the rows 0 to k - 1. */
  function OpsUpTo(k: nat, z: nat): nat
    requires k <= Pow2(z)
  {
    if k == 0 then 0 else OpsUpTo(k - 1, z) + RowOps(k - 1, z)
  }

  /** A row needs one addition fewer than the row of C has ones. */
  lemma RowOpsAreEntriesMinusOne(i: nat, z: nat)
    requires i < Pow2(z)
    ensures RowOps(i, z) == |Offsets(i, z)| - 1
  {
    SubmasksCount(Complement(i, z), z);
    RowEntriesCount(i, z);
  }

  /** The entries of the rows 0 to k - 1, that is, k more than their additions. */
  function EntriesUpTo(k: nat, z: nat): nat
    requires k <= Pow2(z)
  {
    if k == 0 then 0 else EntriesUpTo(k - 1, z) + RowEntries(k - 1, z)
  }

  lemma {:induction false} EntriesAreOpsPlusRows(k: nat, z: nat)
    requires k <= Pow2(z)
    ensures EntriesUpTo(k, z) == OpsUpTo(k, z) + k
  {
    if k > 0 {
      EntriesAreOpsPlusRows(k - 1, z);
    }
  }

  /** In the lower half of the rows the top factor is absent: each row has twice the entries of the row on z - 1 factors. */
  lemma {:induction false} EntriesLowerHalf(k: nat, z: nat)
    requires 1 <= z && k <= Pow2(z - 1)
    ensures EntriesUpTo(k, z) == 2 * EntriesUpTo(k, z - 1)
  {
    if k > 0 {
      EntriesLowerHalf(k - 1, z);
    }
  }

  /** In the upper half the top factor is present: each row has the entries of the row on z - 1 factors without it. */
  lemma {:induction false} EntriesUpperHalf(k: nat, z: nat, h: nat)
    requires 1 <= z && h == Pow2(z - 1) && h <= k <= Pow2(z)
    ensures EntriesUpTo(k, z) == EntriesUpTo(h, z) + EntriesUpTo(k - h, z - 1)
  {
    if k > h {
      EntriesUpperHalf(k - 1, z, h);
      SumStep(EntriesUpTo(k, z), EntriesUpTo(k - 1, z), RowEntries(k - 1, z), EntriesUpTo(h, z),
              EntriesUpTo(k - h, z - 1), EntriesUpTo(k - 1 - h, z - 1));
    } else {
      assert EntriesUpTo(0, z - 1) == 0;
    }
  }

  lemma SumStep(a: nat, a1: nat, r: nat, e: nat, b: nat, b1: nat)
    requires a == a1 + r && a1 == e + b1 && b == b1 + r
    ensures a == e + b
  {
  }

  /** C has 3^z ones: each factor is in neither, in the column only, or in both of row and column. */
  lemma {:induction false} EntriesAll(z: nat)
    ensures EntriesUpTo(Pow2(z), z) == Pow3(z)
  {
    if z > 0 {
      EntriesAll(z - 1);
      EntriesLowerHalf(Pow2(z - 1), z);
      EntriesUpperHalf(Pow2(z), z, Pow2(z - 1));
    }
  }

  /** `~i & lMask` on 64 bits, then `(1 << popcount) - 1`: the additions of row i. */
  method RowAdditions(i: uint64, z: nat, mask: uint64) returns (ops: uint64)
    requires z <= 63 && i < Pow2(z) && mask == Pow2(z) - 1
    ensures ops == RowOps(i, z)
  {
    Pow2Of64();
    ComplementMask(i, z, 64);
    var c := And(Not64(i), mask);
    RowOpsByPopcount(i, z, c);
    ops := Pow2(Popcount(c)) - 1;
  }

  /** Row i takes 2^popcount(c) - 1 additions, c its complement; that fits 64 bits. */
  lemma RowOpsByPopcount(i: nat, z: nat, c: nat)
    requires z <= 63 && i < Pow2(z) && c == Complement(i, z)
    ensures RowOps(i, z) == Pow2(Popcount(c)) - 1 < U64
  {
    var p := Popcount(c);
    PopcountBound(c, z);
    Pow2Mono(p, 63);
    Pow2Below64(63);
    RowEntriesCount(i, z);
  }

  /**
   * `fNoAddOpForCx`: the additions computing C x row by row, summed in a
   * 64-bit counter; 3^z - 2^z, reduced modulo 2^64.
   */
  method NoAddOpForCx(z: nat) returns (ops: uint64)
    requires z <= 63
    ensures ops == (Pow3(z) - Pow2(z)) % U64
  {
    Pow2Below64(z);
    var n := Pow2(z);
    var mask := n - 1;
    ops := 0;
    var i := 0;
    while i < n
      invariant 0 <= i <= n
      invariant ops == OpsUpTo(i, z) % U64
    {
      var r := RowAdditions(i, z, mask);
      RowCounterStep(ops, r, i, z);
      ops := (ops + r) % U64;
      i := i + 1;
    }
    AllOpsWrapped(ops, z);
  }

  /** Row by row, C x takes 3^z - 2^z additions. */
  lemma AllOps(z: nat)
    ensures OpsUpTo(Pow2(z), z) == Pow3(z) - Pow2(z)
  {
    EntriesAll(z);
    EntriesAreOpsPlusRows(Pow2(z), z);
  }

  lemma Pow2Below64(z: nat)
    requires z <= 63
    ensures Pow2(z) < U64
  {
    Pow2Of64();
    Pow2Mono(z, 63);
  }

  /** Adding row i's additions to the wrapped counter of rows 0 to i - 1 gives that of rows 0 to i. */
  lemma RowCounterStep(c: nat, r: nat, i: nat, z: nat)
    requires i < Pow2(z) && c == OpsUpTo(i, z) % U64 && r == RowOps(i, z)
    ensures (c + r) % U64 == OpsUpTo(i + 1, z) % U64
  {
    var total := OpsUpTo(i, z);
    assert OpsUpTo(i + 1, z) == total + r;
    CounterStep(c, r, total);
  }

  /** The counter over all rows holds 3^z - 2^z modulo 2^64. */
  lemma AllOpsWrapped(c: nat, z: nat)
    requires c == OpsUpTo(Pow2(z), z) % U64
    ensures c == (Pow3(z) - Pow2(z)) % U64
  {
    AllOps(z);
  }

  /** Adding to a wrapped counter wraps the exact sum. */
  lemma CounterStep(c: nat, r: nat, total: nat)
    requires c == total % U64
    ensures (c + r) % U64 == (total + r) % U64
  {
    DivModUnique(total + r, U64, total / U64 + (c + r) / U64, (c + r) % U64);
  }

  // ---------------------------------------------------------------------
  // Block by block: fNoAddOpForCxFactorized and its closed form

  /**
   * The additions of the block form counted without a word size: none for
   * no factor, one for one factor, and otherwise C on z - 1 factors twice
   * and then 2^(z-1) additions.
   */
  function BlockAdditions(z: nat): nat
  {
    if z <= 1 then z else 2 * BlockAdditions(z - 1) + Pow2(z - 1)
  }

  /** The exact block count is z 2^(z-1). */
  lemma {:induction false} BlockAdditionsClosed(z: nat)
    requires 1 <= z
    ensures BlockAdditions(z) == z * Pow2(z - 1)
  {
    if z > 1 {
      BlockAdditionsClosed(z - 1);
      var q := Pow2(z - 2);
      assert Pow2(z - 1) == 2 * q;
      DoubledProduct(z, q);
    }
  }

  /**
   * `fNoAddOpForCxFactorized`: the block count on a 64-bit counter. Up to
   * 59 factors the counter does not wrap and holds the exact count.
   */
  function Factorized(z: nat): (r: uint64)
    requires z <= 64
    ensures z <= 59 ==> r == BlockAdditions(z)
  {
    if z == 0 then 0
    else if z == 1 then 1
    else
      BlockCountFits(z);
      (2 * Factorized(z - 1) + Pow2(z - 1)) % U64
  }

  /** Up to 59 factors the exact block count fits 64 bits. */
  lemma BlockCountFits(z: nat)
    requires 1 <= z
    ensures z <= 59 ==> BlockAdditions(z) < U64
  {
    if z <= 59 {
      BlockAdditionsClosed(z);
      ProductBelow64(z, Pow2(z - 1));
    }
  }

  lemma FitsModulus(n: nat)
    requires n < U64
    ensures n % U64 == n
  {
  }

  lemma DoubledProduct(z: nat, q: nat)
    requires 1 <= z
    ensures 2 * ((z - 1) * q) + 2 * q == z * (2 * q)
  {
  }

  /** Up to 59 factors, z 2^(z-1) is below 2^64. */
  lemma ProductBelow64(z: nat, p: nat)
    requires 1 <= z <= 59 && p == Pow2(z - 1)
    ensures z * p < U64
  {
    Pow2Mono(z - 1, 58);
    MulLe(z, 63, p, Pow2(58));
    Pow2Add(6, 58);
    Pow2Of64();
    assert Pow2(6) == 64;
  }

  /** The block count is z 2^(z-1), reduced modulo 2^64. */
  lemma {:induction false} FactorizedIsClosed(z: nat)
    requires 1 <= z <= 64
    ensures Factorized(z) == (z * Pow2(z - 1)) % U64
  {
    if z > 1 {
      FactorizedIsClosed(z - 1);
      FactorizedStep(z, Pow2(z - 2), Factorized(z - 1));
    }
  }

  /** Factorized(z) from Factorized(z - 1) = prev, with q = 2^(z-2). */
  lemma FactorizedStep(z: nat, q: nat, prev: nat)
    requires 2 <= z <= 64 && q == Pow2(z - 2) && prev == Factorized(z - 1)
    requires prev == ((z - 1) * q) % U64
    ensures Factorized(z) == (z * Pow2(z - 1)) % U64
  {
    if z <= 59 {
      NoWrapClosed(z);
    } else {
      FactorizedUnfold(z, q, prev);
      ClosedStep(z, q, prev);
    }
  }

  /** Below 60 factors the counter holds the exact count z 2^(z-1). */
  lemma NoWrapClosed(z: nat)
    requires 1 <= z <= 59
    ensures Factorized(z) == (z * Pow2(z - 1)) % U64
  {
    var p := Pow2(z - 1);
    BlockAdditionsClosed(z);
    ProductBelow64(z, p);
    FitsModulus(z * p);
  }

  /** The recursion of `fNoAddOpForCxFactorized` beyond 59 factors, with q = 2^(z-2) and prev its value at z - 1. */
  lemma FactorizedUnfold(z: nat, q: nat, prev: nat)
    requires 60 <= z <= 64 && q == Pow2(z - 2) && prev == Factorized(z - 1)
    ensures Factorized(z) == (2 * prev + 2 * q) % U64
  {
    assert Pow2(z - 1) == 2 * q;
  }

  /** One step of the block recursion on the closed form, with q = 2^(z-2). */
  lemma ClosedStep(z: nat, q: nat, prev: nat)
    requires 1 <= z && prev == ((z - 1) * q) % U64
    ensures (2 * prev + 2 * q) % U64 == (z * (2 * q)) % U64
  {
    assert 2 * ((z - 1) * q) + 2 * q == z * (2 * q);
    DoubleAddMod((z - 1) * q, 2 * q);
  }

  lemma DoubleAddMod(a: nat, p: nat)
    ensures (2 * (a % U64) + p) % U64 == (2 * a + p) % U64
  {
    var c := a % U64;
    DivModUnique(2 * a + p, U64, 2 * (a / U64) + (2 * c + p) / U64, (2 * c + p) % U64);
  }

  /**
   * `fNoAddOpForCxFactorizedClosed` as written: `z * (1 << (z - 1))` with z
   * an unsigned 32-bit integer and the shift on int, so the product is
   * taken modulo 2^32 before it is widened to the 64-bit result. For z of
   * 32 the shift overflows int, and for z of 0 its count is out of range.
   */
  function ClosedAsWritten(z: nat): (r: uint64)
    requires 1 <= z <= 31
    ensures r < U32
  {
    Pow2Mono(z - 1, 31);
    Pow2Constants();
    Mul32(z, Pow2(z - 1))
  }

  /** As written, the closed form agrees with the block count up to 28 factors. */
  lemma ClosedAsWrittenBelow29(z: nat)
    requires 1 <= z <= 28
    ensures ClosedAsWritten(z) == Factorized(z)
  {
    var p := Pow2(z - 1);
    ProductFits(z, p);
    FitsBothWidths(z * p);
    FactorizedIsClosed(z);
  }

  lemma ProductFits(z: nat, p: nat)
    requires 1 <= z <= 28 && p == Pow2(z - 1)
    ensures z * p < U32
  {
    Pow2Mono(z - 1, 27);
    Pow2Constants();
    Pow2Add(27, 5);
    MulLe(z, 28, p, Pow2(27));
  }

  lemma FitsBothWidths(n: nat)
    requires n < U32
    ensures n % U32 == n && n % U64 == n
  {
    DivModUnique(n, U32, 0, n);
    DivModUnique(n, U64, 0, n);
  }

  lemma MulLe(a: nat, b: nat, c: nat, d: nat)
    requires a <= b && c <= d
    ensures a * c <= b * d
  {
    MulLeStep(a, b, c);
    MulLeStep(c, d, b);
  }

  lemma MulLeStep(a: nat, b: nat, c: nat)
    requires a <= b
    ensures a * c <= b * c
  {
  }

  /** From 29 factors on the 32-bit product wraps: for 29 it is 3489660928 instead of 7784628224. */
  lemma ClosedAsWrittenWraps(z: nat)
    requires z == 29
    ensures ClosedAsWritten(z) == 3489660928 && Factorized(z) == 7784628224
  {
    var p := Pow2(z - 1);
    Pow2Constants();
    Pow2Add(z - 1, 4);
    assert p == 268435456;
    assert z * p == 7784628224;
    DivModUnique(z * p, U32, 1, 3489660928);
    DivModUnique(z * p, U64, 0, 7784628224);
    FactorizedIsClosed(z);
  }

  /**
   * The closed form computed in 64 bits, `(uint64_t) z << (z - 1)`: the
   * block count for every number of factors.
   */
  function FactorizedClosed(z: nat): (r: uint64)
    requires 1 <= z <= 64
    ensures r == Factorized(z)
  {
    FactorizedIsClosed(z);
    (z * Pow2(z - 1)) % U64
  }

  /** The block form never needs more additions than the row-by-row product: z 2^(z-1) <= 3^z - 2^z. */
  lemma {:induction false} FactorizedNeverMore(z: nat)
    requires 1 <= z
    ensures z * Pow2(z - 1) <= Pow3(z) - Pow2(z)
  {
    if z > 1 {
      FactorizedNeverMore(z - 1);
      Pow2BelowPow3(z - 1);
      NeverMoreStep(z, Pow2(z - 2), Pow3(z - 1));
    }
  }

  /** One step of `FactorizedNeverMore`, with q = 2^(z-2) and t = 3^(z-1). */
  lemma NeverMoreStep(z: nat, q: nat, t: nat)
    requires 2 <= z && (z - 1) * q <= t - 2 * q && 2 * q <= t
    ensures z * (2 * q) <= 3 * t - 2 * (2 * q)
  {
    assert z * (2 * q) == 2 * ((z - 1) * q) + 2 * q;
  }

  lemma {:induction false} Pow2BelowPow3(n: nat)
    ensures Pow2(n) <= Pow3(n)
  {
    if n > 0 {
      Pow2BelowPow3(n - 1);
    }
  }
}
