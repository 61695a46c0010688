/**
 * The superset-sum transform of src/infra/main_designmatrix.cc and its
 * signed inverse, on integer vectors of length 2^z.
 *
 * With the full design matrix C of z factors (C(i, j) = 1 exactly when the
 * bits of i are among those of j), `convertGamma2Beta` computes C * gamma
 * and `convertBeta2Gamma` computes C^-1 * beta. Splitting the indices at
 * the top factor z - 1 gives the block forms
 *
 *     C_z = [ C  C ]        C_z^-1 = [ C^-1  -C^-1 ]
 *           [ 0  C ]                 [ 0      C^-1 ]
 *
 * which the recursive versions of both conversions follow and which
 * `Transform` below takes as its definition. The row-by-row versions are
 * tied to it by `RowIsTransform`.
 */
module SubsetTransform {
  import opened Bits
  import opened BitSubsets

  /** Pointwise `lo + hi`, or `lo - hi` when `minus` holds. */
  function Combine(lo: seq<int>, hi: seq<int>, minus: bool): (r: seq<int>)
    requires |lo| == |hi|
    ensures |r| == |lo|
  {
    seq(|lo|, k requires 0 <= k < |lo| => if minus then lo[k] - hi[k] else lo[k] + hi[k])
  }

  /**
   * C_z * v (inverse false) or C_z^-1 * v (inverse true), by the block
   * forms above.
   */
  function Transform(v: seq<int>, z: nat, inverse: bool): (r: seq<int>)
    requires |v| == Pow2(z)
    ensures |r| == Pow2(z)
    decreases z
  {
    if z == 0 then v
    else
      var h := Pow2(z - 1);
      var lo := Transform(v[..h], z - 1, inverse);
      var hi := Transform(v[h..], z - 1, inverse);
      Combine(lo, hi, inverse) + hi
  }

  /** The sign of the entry of C^-1 at offset s from the diagonal; always 1 in C. */
  function Sign(s: nat, inverse: bool): int
  {
    if inverse && Popcount(s) % 2 == 1 then -1 else 1
  }

  // ---------------------------------------------------------------------
  // Linearity and the two round trips

  lemma CombineHalves(a: seq<int>, b: seq<int>, minus: bool, h: nat)
    requires |a| == |b| && h <= |a|
    ensures Combine(a, b, minus)[..h] == Combine(a[..h], b[..h], minus)
    ensures Combine(a, b, minus)[h..] == Combine(a[h..], b[h..], minus)
  {
  }

  /** Both transforms are linear: they commute with a pointwise sum or difference. */
  lemma {:induction false} TransformLinear(a: seq<int>, b: seq<int>, z: nat, inverse: bool, minus: bool)
    requires |a| == Pow2(z) && |b| == Pow2(z)
    ensures Transform(Combine(a, b, minus), z, inverse)
         == Combine(Transform(a, z, inverse), Transform(b, z, inverse), minus)
    decreases z
  {
    if z > 0 {
      var h := Pow2(z - 1);
      var c := Combine(a, b, minus);
      CombineHalves(a, b, minus, h);
      TransformLinear(a[..h], b[..h], z - 1, inverse, minus);
      TransformLinear(a[h..], b[h..], z - 1, inverse, minus);
      LinearStep(Transform(a[..h], z - 1, inverse), Transform(a[h..], z - 1, inverse),
                 Transform(b[..h], z - 1, inverse), Transform(b[h..], z - 1, inverse), inverse, minus);
    }
  }

  /** The block step of `TransformLinear`. */
  lemma LinearStep(la: seq<int>, ha: seq<int>, lb: seq<int>, hb: seq<int>, inverse: bool, minus: bool)
    requires |la| == |ha| == |lb| == |hb|
    ensures Combine(Combine(la, lb, minus), Combine(ha, hb, minus), inverse) + Combine(ha, hb, minus)
         == Combine(Combine(la, ha, inverse) + ha, Combine(lb, hb, inverse) + hb, minus)
  {
  }

  /** The definition of `Transform` read backwards: the transform of two halves put together. */
  lemma Fold(a: seq<int>, b: seq<int>, m: nat, inverse: bool)
    requires |a| == Pow2(m) && |b| == Pow2(m)
    ensures |a + b| == Pow2(m + 1)
    ensures Transform(a + b, m + 1, inverse)
         == Combine(Transform(a, m, inverse), Transform(b, m, inverse), inverse) + Transform(b, m, inverse)
  {
    assert (a + b)[..Pow2(m)] == a && (a + b)[Pow2(m)..] == b;
  }

  /**
   * The two conversions are inverse to each other: `convertBeta2Gamma`
   * undoes `convertGamma2Beta` (C^-1 (C v) == v, inverse false) and the
   * other way round (C (C^-1 v) == v, inverse true).
   */
  lemma {:induction false} RoundTrip(v: seq<int>, z: nat, inverse: bool)
    requires |v| == Pow2(z)
    ensures Transform(Transform(v, z, inverse), z, !inverse) == v
    decreases z, 1
  {
    if z > 0 {
      RoundTripHalves(v, z - 1, inverse);
    }
  }

  /** `RoundTrip` at m + 1 factors, from the round trips of both halves. */
  lemma {:induction false} RoundTripHalves(v: seq<int>, m: nat, inverse: bool)
    requires |v| == Pow2(m + 1)
    ensures Transform(Transform(v, m + 1, inverse), m + 1, !inverse) == v
    decreases m + 1, 0
  {
    RoundTrip(v[..Pow2(m)], m, inverse);
    RoundTrip(v[Pow2(m)..], m, inverse);
    RoundTripBlock(v, m, inverse);
  }

  /** The block step of `RoundTrip`, from the round trips of both halves of v. */
  lemma RoundTripBlock(v: seq<int>, m: nat, inverse: bool)
    requires |v| == Pow2(m + 1)
    requires Transform(Transform(v[..Pow2(m)], m, inverse), m, !inverse) == v[..Pow2(m)]
    requires Transform(Transform(v[Pow2(m)..], m, inverse), m, !inverse) == v[Pow2(m)..]
    ensures Transform(Transform(v, m + 1, inverse), m + 1, !inverse) == v
  {
    var a, b := v[..Pow2(m)], v[Pow2(m)..];
    var lo, hi := Transform(a, m, inverse), Transform(b, m, inverse);
    Fold(a, b, m, inverse);
    Fold(Combine(lo, hi, inverse), hi, m, !inverse);
    TransformLinear(lo, hi, m, !inverse, inverse);
    RoundTripStep(a, b, inverse);
    assert v == a + b;
  }

  /** The block step of both round trips: undoing lo +/- hi, then adding back or taking off hi. */
  lemma RoundTripStep(lo: seq<int>, hi: seq<int>, minus: bool)
    requires |lo| == |hi|
    ensures Combine(Combine(lo, hi, minus), hi, !minus) + hi == lo + hi
  {
  }

  /**
   * The signed rows of C^-1 sum to 0, except the last, which holds the
   * single entry 1: C^-1 maps the all-ones vector to the last unit vector.
   */
  lemma {:induction false} InverseOfOnes(z: nat)
    ensures Transform(Ones(Pow2(z)), z, true) == Unit(Pow2(z))
    decreases z, 1
  {
    if z > 0 {
      InverseOfOnesHalves(z - 1);
    }
  }

  /** `InverseOfOnes` at m + 1 factors, from that at m. */
  lemma {:induction false} InverseOfOnesHalves(m: nat)
    ensures Transform(Ones(Pow2(m + 1)), m + 1, true) == Unit(Pow2(m + 1))
    decreases m + 1, 0
  {
    var h := Pow2(m);
    InverseOfOnes(m);
    assert Ones(Pow2(m + 1)) == Ones(h) + Ones(h);
    Fold(Ones(h), Ones(h), m, true);
    UnitStep(Unit(h), h);
  }

  /** The block step of `InverseOfOnes`: u - u, followed by u, is the longer unit vector. */
  lemma UnitStep(u: seq<int>, h: nat)
    requires u == Unit(h)
    ensures Combine(u, u, true) + u == Unit(2 * h)
  {
  }

  /** The vector of n ones. */
  function Ones(n: nat): (r: seq<int>)
    ensures |r| == n
  {
    seq(n, k => 1)
  }

  /** The vector of n > 0 entries, all 0 but the last, which is 1. */
  function Unit(n: nat): (r: seq<int>)
    ensures |r| == n
  {
    seq(n, k => if k == n - 1 then 1 else 0)
  }

  // ---------------------------------------------------------------------
  // One row at a time, as the loops over `BvAllSubsets` compute it

  /** Every offset in ss, added to i, indexes v. */
  predicate InRange(v: seq<int>, i: nat, ss: seq<nat>)
  {
    forall k :: 0 <= k < |ss| ==> i + ss[k] < |v|
  }

  /** The signed sum of v[i + s] over the offsets s in ss, in order. */
  function Gather(v: seq<int>, i: nat, ss: seq<nat>, inverse: bool): int
    requires InRange(v, i, ss)
    decreases |ss|
  {
    if |ss| == 0 then 0
    else Gather(v, i, ss[..|ss| - 1], inverse) + Sign(ss[|ss| - 1], inverse) * v[i + ss[|ss| - 1]]
  }

  lemma {:induction false} GatherConcat(v: seq<int>, i: nat, a: seq<nat>, b: seq<nat>, inverse: bool)
    requires InRange(v, i, a + b)
    ensures InRange(v, i, a) && InRange(v, i, b)
    ensures Gather(v, i, a + b, inverse) == Gather(v, i, a, inverse) + Gather(v, i, b, inverse)
    decreases |b|
  {
    assert forall k :: 0 <= k < |a| ==> a[k] == (a + b)[k];
    assert forall k :: 0 <= k < |b| ==> b[k] == (a + b)[|a| + k];
    if |b| > 0 {
      var b' := b[..|b| - 1];
      assert (a + b)[..|a + b| - 1] == a + b';
      assert (a + b)[|a + b| - 1] == b[|b| - 1];
      GatherConcat(v, i, a, b', inverse);
    } else {
      assert a + b == a;
    }
  }

  /** Offsets that stay below h read only the first h entries. */
  lemma {:induction false} GatherLow(v: seq<int>, i: nat, ss: seq<nat>, h: nat, inverse: bool)
    requires h <= |v| && InRange(v[..h], i, ss)
    ensures InRange(v, i, ss) && Gather(v, i, ss, inverse) == Gather(v[..h], i, ss, inverse)
    decreases |ss|
  {
    if |ss| > 0 {
      GatherLow(v, i, ss[..|ss| - 1], h, inverse);
    }
  }

  /** A row at or above h reads only the entries from h on. */
  lemma {:induction false} GatherHigh(v: seq<int>, i: nat, ss: seq<nat>, h: nat, inverse: bool)
    requires h <= i && h <= |v| && InRange(v, i, ss)
    ensures InRange(v[h..], i - h, ss) && Gather(v, i, ss, inverse) == Gather(v[h..], i - h, ss, inverse)
    decreases |ss|
  {
    if |ss| > 0 {
      GatherHigh(v, i, ss[..|ss| - 1], h, inverse);
    }
  }

  /** Adding the factor 2^m to every offset reads the upper half, with every sign of C^-1 flipped. */
  lemma {:induction false} GatherShift(v: seq<int>, i: nat, ss: seq<nat>, m: nat, inverse: bool)
    requires |v| == 2 * Pow2(m) && InRange(v[Pow2(m)..], i, ss)
    requires forall k :: 0 <= k < |ss| ==> ss[k] < Pow2(m)
    ensures InRange(v, i, Shift(ss, Pow2(m)))
    ensures Gather(v, i, Shift(ss, Pow2(m)), inverse) == Sign(Pow2(m), inverse) * Gather(v[Pow2(m)..], i, ss, inverse)
    decreases |ss|
  {
    var h := Pow2(m);
    if |ss| > 0 {
      var n := |ss| - 1;
      var ss', sh := ss[..n], Shift(ss, h);
      assert sh[..n] == Shift(ss', h);
      assert sh[n] == ss[n] + h;
      GatherShift(v, i, ss', m, inverse);
      SignShift(ss[n], m, inverse);
      ShiftStep(Gather(v, i, sh, inverse), Gather(v, i, sh[..n], inverse),
                Gather(v[h..], i, ss, inverse), Gather(v[h..], i, ss', inverse),
                Sign(h, inverse), Sign(ss[n], inverse), v[i + sh[n]]);
    } else {
      assert Shift(ss, h) == [];
    }
  }

  /** The last step of `GatherShift`, on the sums themselves. */
  lemma ShiftStep(a: int, a1: int, b: int, b1: int, sh: int, sn: int, x: int)
    requires a1 == sh * b1 && a == a1 + (sh * sn) * x && b == b1 + sn * x
    ensures a == sh * b
  {
  }

  lemma SignShift(s: nat, m: nat, inverse: bool)
    requires s < Pow2(m)
    ensures Sign(s + Pow2(m), inverse) == Sign(Pow2(m), inverse) * Sign(s, inverse)
  {
    PopcountHigh(s, m);
    PopcountHigh(0, m);
  }

  /** A single factor is an odd set: its entries in C^-1 are negative. */
  lemma SignTop(m: nat, inverse: bool)
    ensures Sign(Pow2(m), inverse) == if inverse then -1 else 1
  {
    var p := Pow2(m);
    PopcountHighAt(0, p, m);
    assert Popcount(0) == 0;
  }

  /** Every offset of row i stays inside the matrix. */
  lemma OffsetsInRange(v: seq<int>, i: nat, z: nat)
    requires |v| == Pow2(z) && i < Pow2(z)
    ensures InRange(v, i, Offsets(i, z))
  {
    forall k | 0 <= k < |Offsets(i, z)|
      ensures i + Offsets(i, z)[k] < |v|
    {
      OffsetColumn(i, z, Offsets(i, z)[k]);
    }
  }

  /**
   * The row-by-row loops compute the transform: the signed sum of
   * v[i | s] over the submasks s of the complement of i is entry i of
   * C v, or of C^-1 v.
   */
  lemma {:induction false} RowIsTransform(v: seq<int>, i: nat, z: nat, inverse: bool)
    requires |v| == Pow2(z) && i < Pow2(z)
    ensures InRange(v, i, Offsets(i, z))
    ensures Gather(v, i, Offsets(i, z), inverse) == Transform(v, z, inverse)[i]
    decreases z, 1
  {
    OffsetsInRange(v, i, z);
    if z == 0 {
      assert Offsets(i, z) == [0];
    } else if i < Pow2(z - 1) {
      LowRowIsTransform(v, i, z, inverse);
    } else {
      HighRowIsTransform(v, i, z, inverse);
    }
  }

  lemma {:induction false} LowRowIsTransform(v: seq<int>, i: nat, z: nat, inverse: bool)
    requires 0 < z && |v| == Pow2(z) && i < Pow2(z - 1)
    ensures InRange(v, i, Offsets(i, z))
    ensures Gather(v, i, Offsets(i, z), inverse) == Transform(v, z, inverse)[i]
    decreases z, 0
  {
    var h := Pow2(z - 1);
    var lo, hi, o := v[..h], v[h..], Offsets(i, z - 1);
    RowIsTransform(lo, i, z - 1, inverse);
    RowIsTransform(hi, i, z - 1, inverse);
    OffsetsLow(i, z);
    LowRow(v, i, o, z - 1, inverse);
    TransformLowEntry(v, z, i, inverse);
  }

  lemma {:induction false} HighRowIsTransform(v: seq<int>, i: nat, z: nat, inverse: bool)
    requires 0 < z && |v| == Pow2(z) && Pow2(z - 1) <= i < Pow2(z)
    requires InRange(v, i, Offsets(i, z))
    ensures Gather(v, i, Offsets(i, z), inverse) == Transform(v, z, inverse)[i]
    decreases z, 0
  {
    RowIsTransform(v[Pow2(z - 1)..], i - Pow2(z - 1), z - 1, inverse);
    HighRow(v, i, z, inverse);
  }

  /** A row below 2^m reads the offsets o in the lower half, and the offsets o + 2^m, with the sign of 2^m, in the upper half. */
  lemma LowRow(v: seq<int>, i: nat, o: seq<nat>, m: nat, inverse: bool)
    requires |v| == 2 * Pow2(m) && i < Pow2(m)
    requires InRange(v[..Pow2(m)], i, o) && InRange(v[Pow2(m)..], i, o)
    ensures InRange(v, i, o + Shift(o, Pow2(m)))
    ensures var lo, hi := Gather(v[..Pow2(m)], i, o, inverse), Gather(v[Pow2(m)..], i, o, inverse);
      Gather(v, i, o + Shift(o, Pow2(m)), inverse) == if inverse then lo - hi else lo + hi
  {
    GatherLow(v, i, o, Pow2(m), inverse);
    GatherShift(v, i, o, m, inverse);
    SignTop(m, inverse);
    var oo := o + Shift(o, Pow2(m));
    forall k | 0 <= k < |oo|
      ensures i + oo[k] < |v|
    {
      if k >= |o| {
        assert oo[k] == Shift(o, Pow2(m))[k - |o|];
      }
    }
    GatherConcat(v, i, o, Shift(o, Pow2(m)), inverse);
  }

  /** Entry i below 2^(z-1) of the transform: the lower half's entry, plus or minus the upper half's. */
  lemma TransformLowEntry(v: seq<int>, z: nat, i: nat, inverse: bool)
    requires 0 < z && |v| == Pow2(z) && i < Pow2(z - 1)
    ensures var lo, hi := Transform(v[..Pow2(z - 1)], z - 1, inverse), Transform(v[Pow2(z - 1)..], z - 1, inverse);
      Transform(v, z, inverse)[i] == if inverse then lo[i] - hi[i] else lo[i] + hi[i]
  {
  }

  /** `RowIsTransform` for a row with the top factor, from the row of the upper half. */
  lemma HighRow(v: seq<int>, i: nat, z: nat, inverse: bool)
    requires 0 < z && |v| == Pow2(z) && Pow2(z - 1) <= i < Pow2(z)
    requires InRange(v, i, Offsets(i, z))
    requires InRange(v[Pow2(z - 1)..], i - Pow2(z - 1), Offsets(i - Pow2(z - 1), z - 1))
    requires Gather(v[Pow2(z - 1)..], i - Pow2(z - 1), Offsets(i - Pow2(z - 1), z - 1), inverse)
          == Transform(v[Pow2(z - 1)..], z - 1, inverse)[i - Pow2(z - 1)]
    ensures Gather(v, i, Offsets(i, z), inverse) == Transform(v, z, inverse)[i]
  {
    OffsetsHigh(i, z);
    GatherHigh(v, i, Offsets(i, z), Pow2(z - 1), inverse);
  }
}
