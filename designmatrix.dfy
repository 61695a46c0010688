/**
 * The loop and recursive procedures of src/infra/main_designmatrix.cc on
 * the full design matrix of z boolean factors (n = 2^z rows and columns).
 *
 * Vectors hold integers; the source holds doubles and compares its
 * results within a tolerance. Output vectors are arrays the procedures
 * write in place; input vectors are passed by const reference and are
 * modelled as sequences. Every procedure computes `1 << z` in an int, so
 * z is at most 30.
 */
module DesignMatrix {
  import opened Bits
  import opened BitSubsets
  import opened SubsetTransform

  /** `1 << z` and the row indices below it are unsigned 32-bit values. */
  lemma SizeFits(z: nat)
    requires z <= 30
    ensures Pow2(z) < U32
  {
    Pow2Constants();
    Pow2Mono(z, 30);
    Pow2Add(30, 2);
  }

  /** What the loops over `BvAllSubsets(~i & lMask)` need of the k-th submask. */
  lemma RowStep(v: seq<int>, i: nat, z: nat, ss: seq<nat>, k: nat, inverse: bool)
    requires |v| == Pow2(z) && i < Pow2(z) && ss == Offsets(i, z) && k < |ss|
    ensures InRange(v, i, ss[..k]) && InRange(v, i, ss[..k + 1])
    ensures Or(i, ss[k]) == i + ss[k] < |v|
    ensures SubsetOf(ss[k], Complement(i, z))
    ensures Gather(v, i, ss[..k + 1], inverse) ==
      if Sign(ss[k], inverse) == -1 then Gather(v, i, ss[..k], inverse) - v[i + ss[k]]
      else Gather(v, i, ss[..k], inverse) + v[i + ss[k]]
  {
    OffsetsInRange(v, i, z);
    OffsetColumn(i, z, ss[k]);
    SubmasksMember(Complement(i, z), z, ss[k]);
    GatherStep(v, i, ss, k, inverse);
  }

  /** One more offset adds one more signed entry. */
  lemma GatherStep(v: seq<int>, i: nat, ss: seq<nat>, k: nat, inverse: bool)
    requires InRange(v, i, ss) && k < |ss|
    ensures InRange(v, i, ss[..k]) && InRange(v, i, ss[..k + 1])
    ensures Gather(v, i, ss[..k + 1], inverse) == Gather(v, i, ss[..k], inverse) + Sign(ss[k], inverse) * v[i + ss[k]]
  {
    assert ss[..k + 1][..k] == ss[..k];
  }

  /** A vector whose every entry is its row sum is the transform. */
  lemma RowsAreTransform(x: seq<int>, v: seq<int>, z: nat, inverse: bool)
    requires |v| == Pow2(z) && |x| == Pow2(z)
    requires forall r :: 0 <= r < Pow2(z) ==> InRange(v, r, Offsets(r, z)) && x[r] == Gather(v, r, Offsets(r, z), inverse)
    ensures x == Transform(v, z, inverse)
  {
    forall r | 0 <= r < Pow2(z)
      ensures x[r] == Transform(v, z, inverse)[r]
    {
      RowIsTransform(v, r, z, inverse);
    }
  }

  /** `~i & lMask` with `lMask == (1 << z) - 1`: the factors absent from row index i. */
  method RowComplement(i: nat, z: nat, mask: nat) returns (ci: nat)
    requires z <= 32 && i < Pow2(z) && mask == Pow2(z) - 1
    ensures ci == Complement(i, z)
  {
    ComplementIsMasked(i, z);
    ci := And(Not32(i), mask);
  }

  /** `cinv_is_negative(i, i | s)` picks the sign of the offset s. */
  lemma NegativeSign(i: nat, z: nat, s: nat)
    requires z <= 32 && i < Pow2(z) && SubsetOf(s, Complement(i, z))
    ensures i < U32 && Or(i, s) < U32
    ensures Sign(s, true) == if CinvIsNegative(i, Or(i, s)) then -1 else 1
  {
    CinvSign(i, z, s);
  }

  /** `number_of_bits_set(s) & 0x1`: 1 when s has an odd number of bits, else 0. */
  method OddBits(s: nat) returns (k: nat)
    ensures k == if Popcount(s) % 2 == 1 then 1 else 0
  {
    AndLowMask(Popcount(s), 1);
    k := And(Popcount(s), 1);
  }

  // ---------------------------------------------------------------------
  // fGetFullDesignMatrix

  /** The row loop of `fGetFullDesignMatrix`: row i gets a 1 in every column i | s, s a submask of the complement of i. */
  method SetRow(A: array2<int>, i: nat, z: nat, ci: nat)
    requires z <= 30 && A.Length0 == Pow2(z) && A.Length1 == Pow2(z) && i < Pow2(z) && ci == Complement(i, z)
    requires forall c :: 0 <= c < Pow2(z) ==> A[i, c] == 0
    modifies A
    ensures forall r, c :: 0 <= r < Pow2(z) && r != i && 0 <= c < Pow2(z) ==> A[r, c] == old(A[r, c])
    ensures forall c :: 0 <= c < Pow2(z) ==> A[i, c] == if SubsetOf(i, c) then 1 else 0
  {
    var n := Pow2(z);
    var ss := Submasks(ci, z);
    var k := 0;
    while k < |ss|
      invariant 0 <= k <= |ss|
      invariant forall r, c :: 0 <= r < n && r != i && 0 <= c < n ==> A[r, c] == old(A[r, c])
      invariant forall c :: 0 <= c < n ==> A[i, c] == if i <= c && c - i in ss[..k] then 1 else 0
    {
      OffsetColumn(i, z, ss[k]);
      var idx := Or(i, ss[k]);
      A[i, idx] := 1;
      assert ss[..k + 1] == ss[..k] + [ss[k]];
      k := k + 1;
    }
    forall c | 0 <= c < n
      ensures A[i, c] == if SubsetOf(i, c) then 1 else 0
    {
      assert ss[..|ss|] == ss;
      SupersetIsOffset(i, z, c);
    }
  }

  /**
   * `fGetFullDesignMatrix`: the n x n matrix with A(i, j) = 1 exactly
   * when the bits of i are among those of j, set row by row at the
   * columns i | s for the submasks s of the complement of i.
   */
  method FullDesignMatrix(z: nat) returns (A: array2<int>)
    requires z <= 30
    ensures A.Length0 == Pow2(z) && A.Length1 == Pow2(z)
    ensures forall i, j :: 0 <= i < Pow2(z) && 0 <= j < Pow2(z) ==> A[i, j] == if SubsetOf(i, j) then 1 else 0
  {
    SizeFits(z);
    var n := Pow2(z);
    var mask := n - 1;
    A := new int[n, n]((r, c) => 0);
    var i := 0;
    while i < n
      invariant 0 <= i <= n
      invariant forall r, c :: 0 <= r < i && 0 <= c < n ==> A[r, c] == if SubsetOf(r, c) then 1 else 0
      invariant forall r, c :: i <= r < n && 0 <= c < n ==> A[r, c] == 0
    {
      var ci := RowComplement(i, z, mask);
      SetRow(A, i, z, ci);
      i := i + 1;
    }
  }

  // ---------------------------------------------------------------------
  // test3: the design matrix rebuilt from idx_set_is_subset

  /** The inner loop of `test3`: B(j, i) = `idx_set_is_subset(i, j)` for every row j of column i. */
  method SetColumn(B: array2<int>, i: nat, z: nat)
    requires z <= 30 && B.Length0 == Pow2(z) && B.Length1 == Pow2(z) && i < Pow2(z)
    modifies B
    ensures forall r, c :: 0 <= r < Pow2(z) && 0 <= c < Pow2(z) && c != i ==> B[r, c] == old(B[r, c])
    ensures forall r :: 0 <= r < Pow2(z) ==> B[r, i] == if SubsetOf(r, i) then 1 else 0
  {
    SizeFits(z);
    var n := Pow2(z);
    var j := 0;
    while j < n
      invariant 0 <= j <= n
      invariant forall r, c :: 0 <= r < n && 0 <= c < n && c != i ==> B[r, c] == old(B[r, c])
      invariant forall r :: 0 <= r < j ==> B[r, i] == if SubsetOf(r, i) then 1 else 0
    {
      B[j, i] := if IdxSetIsSubset(i, j) then 1 else 0;
      j := j + 1;
    }
  }

  /**
   * The matrix B of `test3`, filled column by column from
   * `idx_set_is_subset`: it has the entries of `fGetFullDesignMatrix`.
   */
  method ContainmentMatrix(z: nat) returns (B: array2<int>)
    requires z <= 30
    ensures B.Length0 == Pow2(z) && B.Length1 == Pow2(z)
    ensures forall i, j :: 0 <= i < Pow2(z) && 0 <= j < Pow2(z) ==> B[i, j] == if SubsetOf(i, j) then 1 else 0
  {
    var n := Pow2(z);
    B := new int[n, n]((r, c) => 0);
    var i := 0;
    while i < n
      invariant 0 <= i <= n
      invariant forall r, c :: 0 <= r < n && 0 <= c < i ==> B[r, c] == if SubsetOf(r, c) then 1 else 0
    {
      SetColumn(B, i, z);
      i := i + 1;
    }
  }

  /** `A.equalUpTo(B, 0)`: the two matrices have the same shape and the same entries. */
  method SameEntries(A: array2<int>, B: array2<int>) returns (eq: bool)
    ensures eq <==> A.Length0 == B.Length0 && A.Length1 == B.Length1 &&
                    forall r, c :: 0 <= r < A.Length0 && 0 <= c < A.Length1 ==> A[r, c] == B[r, c]
  {
    if A.Length0 != B.Length0 || A.Length1 != B.Length1 {
      return false;
    }
    var r := 0;
    while r < A.Length0
      invariant 0 <= r <= A.Length0
      invariant forall r', c :: 0 <= r' < r && 0 <= c < A.Length1 ==> A[r', c] == B[r', c]
    {
      var c := 0;
      while c < A.Length1
        invariant 0 <= c <= A.Length1
        invariant forall c' :: 0 <= c' < c ==> A[r, c'] == B[r, c']
      {
        if A[r, c] != B[r, c] {
          return false;
        }
        c := c + 1;
      }
      r := r + 1;
    }
    return true;
  }

  /**
   * `test3`: the matrix built by `fGetFullDesignMatrix` and the one built
   * from `idx_set_is_subset` are equal, for every z the procedures allow.
   */
  method Test3(z: nat) returns (equal: bool)
    requires z <= 30
    ensures equal
  {
    var A := FullDesignMatrix(z);
    var B := ContainmentMatrix(z);
    equal := SameEntries(A, B);
  }

  // ---------------------------------------------------------------------
  // Row by row: convertGamma2Beta, fCinvx_a, fCinvx_b, convertBeta2Gamma

  /** The row loop of `convertGamma2Beta`: the sum of gamma over row i of C. */
  method Gamma2BetaRow(gamma: seq<int>, i: nat, z: nat, ci: nat) returns (sum: int)
    requires z <= 30 && |gamma| == Pow2(z) && i < Pow2(z) && ci == Complement(i, z)
    ensures InRange(gamma, i, Offsets(i, z)) && sum == Gather(gamma, i, Offsets(i, z), false)
  {
    sum := 0;
    var ss := Submasks(ci, z);
    var k := 0;
    while k < |ss|
      invariant 0 <= k <= |ss| && InRange(gamma, i, ss[..k])
      invariant sum == Gather(gamma, i, ss[..k], false)
    {
      RowStep(gamma, i, z, ss, k, false);
      var idx := Or(i, ss[k]);
      sum := sum + gamma[idx];
      k := k + 1;
    }
    OffsetsInRange(gamma, i, z);
    assert ss[..|ss|] == ss;
  }

  /**
   * `convertGamma2Beta`: beta[i] is the sum of gamma[i | s] over the
   * submasks s of the complement of i, that is, beta = C gamma.
   */
  method ConvertGamma2Beta(gamma: seq<int>, z: nat) returns (beta: array<int>)
    requires z <= 30 && |gamma| == Pow2(z)
    ensures beta[..] == Transform(gamma, z, false)
  {
    SizeFits(z);
    var n := Pow2(z);
    beta := new int[n];
    var i := 0;
    while i < n
      invariant 0 <= i <= n
      invariant forall r :: 0 <= r < i ==> beta[r] == 0
    {
      beta[i] := 0;
      i := i + 1;
    }
    var mask := n - 1;
    i := 0;
    while i < n
      invariant 0 <= i <= n
      invariant forall r :: 0 <= r < i ==> InRange(gamma, r, Offsets(r, z)) && beta[r] == Gather(gamma, r, Offsets(r, z), false)
    {
      var ci := RowComplement(i, z, mask);
      var sum := Gamma2BetaRow(gamma, i, z, ci);
      beta[i] := sum;
      i := i + 1;
    }
    RowsAreTransform(beta[..], gamma, z, false);
  }

  /** The row loop of `fCinvx_a`: the signed sum of row i of C^-1 times b, the sign from `cinv_is_negative`. */
  method CinvxARow(b: seq<int>, i: nat, z: nat, ci: nat) returns (sum: int)
    requires z <= 30 && |b| == Pow2(z) && i < Pow2(z) && ci == Complement(i, z)
    ensures InRange(b, i, Offsets(i, z)) && sum == Gather(b, i, Offsets(i, z), true)
  {
    sum := 0;
    var ss := Submasks(ci, z);
    var k := 0;
    while k < |ss|
      invariant 0 <= k <= |ss| && InRange(b, i, ss[..k])
      invariant sum == Gather(b, i, ss[..k], true)
    {
      RowStep(b, i, z, ss, k, true);
      NegativeSign(i, z, ss[k]);
      var j := Or(i, ss[k]);
      if CinvIsNegative(i, j) {
        sum := sum - b[j];
      } else {
        sum := sum + b[j];
      }
      k := k + 1;
    }
    OffsetsInRange(b, i, z);
    assert ss[..|ss|] == ss;
  }

  /**
   * `fCinvx_a`: x = C^-1 b, row by row, with the sign of entry (i, j)
   * taken from `cinv_is_negative(i, j)`.
   */
  method CinvxA(x: array<int>, b: seq<int>, z: nat)
    requires z <= 30 && |b| == Pow2(z) && x.Length == Pow2(z)
    modifies x
    ensures x[..] == Transform(b, z, true)
  {
    SizeFits(z);
    var n := Pow2(z);
    var i := 0;
    while i < n
      invariant 0 <= i <= n
      invariant forall r :: 0 <= r < i ==> x[r] == 0
    {
      x[i] := 0;
      i := i + 1;
    }
    var mask := n - 1;
    i := 0;
    while i < n
      invariant 0 <= i <= n
      invariant forall r :: 0 <= r < i ==> InRange(b, r, Offsets(r, z)) && x[r] == Gather(b, r, Offsets(r, z), true)
    {
      var ci := RowComplement(i, z, mask);
      var sum := CinvxARow(b, i, z, ci);
      x[i] := sum;
      i := i + 1;
    }
    RowsAreTransform(x[..], b, z, true);
  }

  /** The row loop of `fCinvx_b`: the signed sum of row i of C^-1 times b, the sign from the parity of the submask. */
  method CinvxBRow(b: seq<int>, i: nat, z: nat, ci: nat) returns (sum: int)
    requires z <= 30 && |b| == Pow2(z) && i < Pow2(z) && ci == Complement(i, z)
    ensures InRange(b, i, Offsets(i, z)) && sum == Gather(b, i, Offsets(i, z), true)
  {
    sum := 0;
    var ss := Submasks(ci, z);
    var k := 0;
    while k < |ss|
      invariant 0 <= k <= |ss| && InRange(b, i, ss[..k])
      invariant sum == Gather(b, i, ss[..k], true)
    {
      RowStep(b, i, z, ss, k, true);
      var cj := ss[k];
      var odd := OddBits(cj);
      var j := Or(i, cj);
      if odd != 0 {
        sum := sum - b[j];
      } else {
        sum := sum + b[j];
      }
      k := k + 1;
    }
    OffsetsInRange(b, i, z);
    assert ss[..|ss|] == ss;
  }

  /** `fCinvx_b`: x = C^-1 b, with the sign taken from the parity of the submask. */
  method CinvxB(x: array<int>, b: seq<int>, z: nat)
    requires z <= 30 && |b| == Pow2(z) && x.Length == Pow2(z)
    modifies x
    ensures x[..] == Transform(b, z, true)
  {
    SizeFits(z);
    var n := Pow2(z);
    var i := 0;
    while i < n
      invariant 0 <= i <= n
      invariant forall r :: 0 <= r < i ==> x[r] == 0
    {
      x[i] := 0;
      i := i + 1;
    }
    var mask := n - 1;
    i := 0;
    while i < n
      invariant 0 <= i <= n
      invariant forall r :: 0 <= r < i ==> InRange(b, r, Offsets(r, z)) && x[r] == Gather(b, r, Offsets(r, z), true)
    {
      var ci := RowComplement(i, z, mask);
      var sum := CinvxBRow(b, i, z, ci);
      x[i] := sum;
      i := i + 1;
    }
    RowsAreTransform(x[..], b, z, true);
  }

  /** The row loop of `convertBeta2Gamma`: the signed sum of row i of C^-1 times b, the sign from the factor table. */
  method Beta2GammaRow(b: seq<int>, i: nat, z: nat, ci: nat) returns (sum: int)
    requires z <= 30 && |b| == Pow2(z) && i < Pow2(z) && ci == Complement(i, z)
    ensures InRange(b, i, Offsets(i, z)) && sum == Gather(b, i, Offsets(i, z), true)
  {
    var factor := [1, -1];
    sum := 0;
    var ss := Submasks(ci, z);
    var k := 0;
    while k < |ss|
      invariant 0 <= k <= |ss| && InRange(b, i, ss[..k])
      invariant sum == Gather(b, i, ss[..k], true)
    {
      RowStep(b, i, z, ss, k, true);
      var cj := ss[k];
      var odd := OddBits(cj);
      var j := Or(i, cj);
      sum := sum + factor[odd] * b[j];
      k := k + 1;
    }
    OffsetsInRange(b, i, z);
    assert ss[..|ss|] == ss;
  }

  /** `convertBeta2Gamma`: x = C^-1 b, with the sign looked up in the factor table {1, -1}. */
  method ConvertBeta2Gamma(x: array<int>, b: seq<int>, z: nat)
    requires z <= 30 && |b| == Pow2(z) && x.Length == Pow2(z)
    modifies x
    ensures x[..] == Transform(b, z, true)
  {
    SizeFits(z);
    var n := Pow2(z);
    var i := 0;
    while i < n
      invariant 0 <= i <= n
      invariant forall r :: 0 <= r < i ==> x[r] == 0
    {
      x[i] := 0;
      i := i + 1;
    }
    var mask := n - 1;
    i := 0;
    while i < n
      invariant 0 <= i <= n
      invariant forall r :: 0 <= r < i ==> InRange(b, r, Offsets(r, z)) && x[r] == Gather(b, r, Offsets(r, z), true)
    {
      var ci := RowComplement(i, z, mask);
      var sum := Beta2GammaRow(b, i, z, ci);
      x[i] := sum;
      i := i + 1;
    }
    RowsAreTransform(x[..], b, z, true);
  }

  // ---------------------------------------------------------------------
  // In place, by blocks: convertGamma2BetaRec and convertBeta2GammaRec

  /** s with d added (or, when minus, taken away) at the positions i to i + |d| - 1. */
  function AddAt(s: seq<int>, i: nat, d: seq<int>, minus: bool): (r: seq<int>)
    requires i + |d| <= |s|
    ensures |r| == |s|
  {
    seq(|s|, k => if 0 <= k < |s| then
      (if i <= k < i + |d| then (if minus then s[k] - d[k - i] else s[k] + d[k - i]) else s[k]) else 0)
  }

  /**
   * The three recursive calls of a block step: adding lo, then hi (with
   * the sign flipped when the block is C^-1), into the first half, and hi
   * into the second half, adds the whole block's transform.
   */
  lemma AddAtBlocks(s: seq<int>, i: nat, lo: seq<int>, hi: seq<int>, inverse: bool, minus: bool)
    requires |lo| == |hi| && i + 2 * |lo| <= |s|
    ensures AddAt(AddAt(AddAt(s, i, lo, minus), i, hi, minus != inverse), i + |lo|, hi, minus)
         == AddAt(s, i, Combine(lo, hi, inverse) + hi, minus)
  {
  }

  /** Adding d to zeros gives d. */
  lemma AddAtZeros(s: seq<int>, d: seq<int>)
    requires |s| == |d| && forall k :: 0 <= k < |s| ==> s[k] == 0
    ensures AddAt(s, 0, d, false) == d
  {
  }

  /** The transform of two entries, the base case of the top-level procedures. */
  lemma Transform2(v: seq<int>, inverse: bool)
    requires |v| == 2
    ensures |v| == Pow2(1)
    ensures Transform(v, 1, inverse) == if inverse then [v[0] - v[1], v[1]] else [v[0] + v[1], v[1]]
  {
    assert v[..1] == [v[0]] && v[1..] == [v[1]];
  }

  /** Four entries changed at i, and nothing else, is AddAt of a four-entry block. */
  lemma BaseBlock(x0: seq<int>, x1: seq<int>, i: nat, d: seq<int>, minus: bool)
    requires |d| == 4 && |x0| == |x1| && i + 4 <= |x0|
    requires forall k :: 0 <= k < |x0| && !(i <= k < i + 4) ==> x1[k] == x0[k]
    requires forall t :: 0 <= t < 4 ==> x1[i + t] == if minus then x0[i + t] - d[t] else x0[i + t] + d[t]
    ensures x1 == AddAt(x0, i, d, minus)
  {
    forall k | 0 <= k < |x0| ensures x1[k] == AddAt(x0, i, d, minus)[k]
    {
      if i <= k < i + 4 {
        assert x1[i + (k - i)] == if minus then x0[i + (k - i)] - d[k - i] else x0[i + (k - i)] + d[k - i];
      }
    }
  }

  /**
   * `convertGamma2BetaRec`: beta = C b, in place, by the block form of C.
   * Two factors are written out; more go to `RecSub`.
   */
  method ConvertGamma2BetaRec(x: array<int>, b: seq<int>, z: nat)
    requires 1 <= z <= 30 && |b| == Pow2(z) && x.Length == Pow2(z)
    modifies x
    ensures x[..] == Transform(b, z, false)
  {
    if z == 1 {
      x[0] := b[0] + b[1];
      x[1] := b[1];
      Transform2(b, false);
      return;
    }
    SizeFits(z);
    var n := Pow2(z);
    var i := 0;
    while i < n
      invariant 0 <= i <= n
      invariant forall r :: 0 <= r < i ==> x[r] == 0
    {
      x[i] := 0;
      i := i + 1;
    }
    ghost var zeros := x[..];
    ConvertGamma2BetaRecSub(x, b, 0, 0, z);
    assert b[0..Pow2(z)] == b;
    AddAtZeros(zeros, BlockTransform(b, 0, z, false));
  }

  /** The base case of `convertGamma2BetaRecSub`: the four sums of C for two factors added into x at i. */
  method Gamma2BetaBase(x: array<int>, b: seq<int>, i: nat, j: nat)
    requires i + Pow2(2) <= x.Length && j + Pow2(2) <= |b|
    modifies x
    ensures x[..] == AddAt(old(x[..]), i, BlockTransform(b, j, 2, false), false)
  {
    ghost var x0 := x[..];
    x[i + 0] := x[i + 0] + (b[j + 0] + b[j + 1] + b[j + 2] + b[j + 3]);
    x[i + 1] := x[i + 1] + (b[j + 1] + b[j + 3]);
    x[i + 2] := x[i + 2] + (b[j + 2] + b[j + 3]);
    x[i + 3] := x[i + 3] + b[j + 3];
    BaseBlock(x0, x[..], i, Block4(b[j..j + 4], false), false);
    Block4IsTransform(b, j, false);
  }

  /**
   * `convertGamma2BetaRecSub(x, b, i, j, z)`: adds C times the block of b
   * at j into the block of x at i, both of 2^z entries.
   */
  method ConvertGamma2BetaRecSub(x: array<int>, b: seq<int>, i: nat, j: nat, z: nat)
    requires 2 <= z && i + Pow2(z) <= x.Length && j + Pow2(z) <= |b|
    modifies x
    ensures x[..] == AddAt(old(x[..]), i, BlockTransform(b, j, z, false), false)
    decreases z
  {
    if z == 2 {
      Gamma2BetaBase(x, b, i, j);
      return;
    }
    var h := Pow2(z - 1);
    ghost var x0 := x[..];
    ConvertGamma2BetaRecSub(x, b, i, j, z - 1);
    ghost var x1 := x[..];
    ConvertGamma2BetaRecSub(x, b, i, j + h, z - 1);
    ghost var x2 := x[..];
    ConvertGamma2BetaRecSub(x, b, i + h, j + h, z - 1);
    BlockChain(x0, x1, x2, x[..], b, i, j, z, h, false, false);
  }

  /**
   * `convertBeta2GammaRec`: gamma = C^-1 b, in place, by the block form
   * of C^-1. Two factors are written out; more go to `RecPos`.
   */
  method ConvertBeta2GammaRec(x: array<int>, b: seq<int>, z: nat)
    requires 1 <= z <= 30 && |b| == Pow2(z) && x.Length == Pow2(z)
    modifies x
    ensures x[..] == Transform(b, z, true)
  {
    if z == 1 {
      x[0] := b[0] - b[1];
      x[1] := b[1];
      Transform2(b, true);
      return;
    }
    SizeFits(z);
    var n := Pow2(z);
    var i := 0;
    while i < n
      invariant 0 <= i <= n
      invariant forall r :: 0 <= r < i ==> x[r] == 0
    {
      x[i] := 0;
      i := i + 1;
    }
    ghost var zeros := x[..];
    ConvertBeta2GammaRecPos(x, b, 0, 0, z);
    assert b[0..Pow2(z)] == b;
    AddAtZeros(zeros, BlockTransform(b, 0, z, true));
  }

  /** The base case of `convertBeta2GammaRecPos`: the four sums of C^-1 for two factors added into x at i. */
  method Beta2GammaBasePos(x: array<int>, b: seq<int>, i: nat, j: nat)
    requires i + Pow2(2) <= x.Length && j + Pow2(2) <= |b|
    modifies x
    ensures x[..] == AddAt(old(x[..]), i, BlockTransform(b, j, 2, true), false)
  {
    ghost var x0 := x[..];
    x[i + 0] := x[i + 0] + (b[j + 0] - b[j + 1] - b[j + 2] + b[j + 3]);
    x[i + 1] := x[i + 1] + (b[j + 1] - b[j + 3]);
    x[i + 2] := x[i + 2] + (b[j + 2] - b[j + 3]);
    x[i + 3] := x[i + 3] + b[j + 3];
    BaseBlock(x0, x[..], i, Block4(b[j..j + 4], true), false);
    Block4IsTransform(b, j, true);
  }

  /**
   * `convertBeta2GammaRecPos(x, b, i, j, z)`: adds C^-1 times the block of
   * b at j into the block of x at i.
   */
  method ConvertBeta2GammaRecPos(x: array<int>, b: seq<int>, i: nat, j: nat, z: nat)
    requires 2 <= z && i + Pow2(z) <= x.Length && j + Pow2(z) <= |b|
    modifies x
    ensures x[..] == AddAt(old(x[..]), i, BlockTransform(b, j, z, true), false)
    decreases z
  {
    if z == 2 {
      Beta2GammaBasePos(x, b, i, j);
      return;
    }
    var h := Pow2(z - 1);
    ghost var x0 := x[..];
    ConvertBeta2GammaRecPos(x, b, i, j, z - 1);
    ghost var x1 := x[..];
    ConvertBeta2GammaRecNeg(x, b, i, j + h, z - 1);
    ghost var x2 := x[..];
    ConvertBeta2GammaRecPos(x, b, i + h, j + h, z - 1);
    BlockChain(x0, x1, x2, x[..], b, i, j, z, h, true, false);
  }

  /** The base case of `convertBeta2GammaRecNeg`: the four sums of C^-1 for two factors taken away from x at i. */
  method Beta2GammaBaseNeg(x: array<int>, b: seq<int>, i: nat, j: nat)
    requires i + Pow2(2) <= x.Length && j + Pow2(2) <= |b|
    modifies x
    ensures x[..] == AddAt(old(x[..]), i, BlockTransform(b, j, 2, true), true)
  {
    ghost var x0 := x[..];
    x[i + 0] := x[i + 0] + (-b[j + 0] + b[j + 1] + b[j + 2] - b[j + 3]);
    x[i + 1] := x[i + 1] + (-b[j + 1] + b[j + 3]);
    x[i + 2] := x[i + 2] + (-b[j + 2] + b[j + 3]);
    x[i + 3] := x[i + 3] + (-b[j + 3]);
    BaseBlock(x0, x[..], i, Block4(b[j..j + 4], true), true);
    Block4IsTransform(b, j, true);
  }

  /**
   * `convertBeta2GammaRecNeg(x, b, i, j, z)`: subtracts C^-1 times the
   * block of b at j from the block of x at i.
   */
  method ConvertBeta2GammaRecNeg(x: array<int>, b: seq<int>, i: nat, j: nat, z: nat)
    requires 2 <= z && i + Pow2(z) <= x.Length && j + Pow2(z) <= |b|
    modifies x
    ensures x[..] == AddAt(old(x[..]), i, BlockTransform(b, j, z, true), true)
    decreases z
  {
    if z == 2 {
      Beta2GammaBaseNeg(x, b, i, j);
      return;
    }
    var h := Pow2(z - 1);
    ghost var x0 := x[..];
    ConvertBeta2GammaRecNeg(x, b, i, j, z - 1);
    ghost var x1 := x[..];
    ConvertBeta2GammaRecPos(x, b, i, j + h, z - 1);
    ghost var x2 := x[..];
    ConvertBeta2GammaRecNeg(x, b, i + h, j + h, z - 1);
    BlockChain(x0, x1, x2, x[..], b, i, j, z, h, true, true);
  }

  /** C (or C^-1) times the block of 2^z entries of b at j. */
  function BlockTransform(b: seq<int>, j: nat, z: nat, inverse: bool): (r: seq<int>)
    requires j + Pow2(z) <= |b|
    ensures |r| == Pow2(z)
  {
    Transform(b[j..j + Pow2(z)], z, inverse)
  }

  /** The four sums of the base case of the block procedures. */
  function Block4(v: seq<int>, inverse: bool): (r: seq<int>)
    requires |v| == 4
    ensures |r| == 4
  {
    if inverse then [v[0] - v[1] - v[2] + v[3], v[1] - v[3], v[2] - v[3], v[3]]
    else [v[0] + v[1] + v[2] + v[3], v[1] + v[3], v[2] + v[3], v[3]]
  }

  /** The four sums are C (or C^-1) for two factors. */
  lemma Block4IsTransform(b: seq<int>, j: nat, inverse: bool)
    requires j + 4 <= |b|
    ensures j + Pow2(2) <= |b| && Block4(b[j..j + 4], inverse) == BlockTransform(b, j, 2, inverse)
  {
    Transform4(b[j..j + 4], inverse);
  }

  /** `Block4IsTransform` for a vector of four entries. */
  lemma Transform4(v: seq<int>, inverse: bool)
    requires |v| == 4
    ensures |v| == Pow2(2) && Block4(v, inverse) == Transform(v, 2, inverse)
  {
    var lo, hi := v[..2], v[2..];
    assert lo == [v[0], v[1]] && hi == [v[2], v[3]];
    Transform2(lo, inverse);
    Transform2(hi, inverse);
  }

  /**
   * The three recursive calls of a block procedure, each adding the
   * transform of a half-block, add the transform of the whole block.
   */
  lemma BlockChain(x0: seq<int>, x1: seq<int>, x2: seq<int>, x3: seq<int>, b: seq<int>,
                   i: nat, j: nat, z: nat, h: nat, inverse: bool, minus: bool)
    requires 1 <= z && h == Pow2(z - 1) && i + Pow2(z) <= |x0| && j + Pow2(z) <= |b|
    requires x1 == AddAt(x0, i, BlockTransform(b, j, z - 1, inverse), minus)
    requires x2 == AddAt(x1, i, BlockTransform(b, j + h, z - 1, inverse), minus != inverse)
    requires x3 == AddAt(x2, i + h, BlockTransform(b, j + h, z - 1, inverse), minus)
    ensures x3 == AddAt(x0, i, BlockTransform(b, j, z, inverse), minus)
  {
    BlockFold(b, j, z, h, inverse);
    AddAtBlocks(x0, i, BlockTransform(b, j, z - 1, inverse), BlockTransform(b, j + h, z - 1, inverse), inverse, minus);
  }


  /** The block form of C (or C^-1) on a block of b, in terms of its two half-blocks. */
  lemma BlockFold(b: seq<int>, j: nat, z: nat, h: nat, inverse: bool)
    requires 1 <= z && h == Pow2(z - 1) && j + Pow2(z) <= |b|
    ensures j + h + Pow2(z - 1) <= |b|
    ensures BlockTransform(b, j, z, inverse)
         == Combine(BlockTransform(b, j, z - 1, inverse), BlockTransform(b, j + h, z - 1, inverse), inverse)
          + BlockTransform(b, j + h, z - 1, inverse)
  {
    assert b[j..j + Pow2(z)] == b[j..j + h] + b[j + h..j + h + h];
    Fold(b[j..j + h], b[j + h..j + h + h], z - 1, inverse);
  }


}
