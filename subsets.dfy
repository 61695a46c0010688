/**
 * Bit subsets as src/infra/main_designmatrix.cc uses them. An index of the
 * full design matrix of z boolean factors is a set of factors, written as
 * a value of z bits; row i of the matrix runs over the supersets i | s of
 * i, where s ranges over the submasks of the complement `~i & mask`.
 *
 * `BvAllSubsets` (bit_subsets.hh, which is not part of this model)
 * enumerates the submasks of a value; it is modelled by `Submasks`, which
 * lists every submask exactly once, in increasing order.
 */
module BitSubsets {
  import opened Bits

  /** Every element of ss raised by h. */
  function Shift(ss: seq<nat>, h: nat): (r: seq<nat>)
    ensures |r| == |ss|
  {
    seq(|ss|, k requires 0 <= k < |ss| => ss[k] + h)
  }

  /**
   * The submasks of c, a value below 2^z: those of c without its top bit
   * z - 1, followed, when that bit is set, by the same ones with it.
   */
  function Submasks(c: nat, z: nat): seq<nat>
    requires c < Pow2(z)
    decreases z
  {
    if z == 0 then [0]
    else
      var h := Pow2(z - 1);
      if c >= h then Submasks(c - h, z - 1) + Shift(Submasks(c - h, z - 1), h)
      else Submasks(c, z - 1)
  }

  /** No element repeats: the sequence strictly increases. */
  predicate Increasing(ss: seq<nat>)
  {
    forall k, l :: 0 <= k < l < |ss| ==> ss[k] < ss[l]
  }

  /** `~i & lMask`: the factors not in row index i, for an index of z bits. */
  function Complement(i: nat, z: nat): (c: nat)
    requires i < Pow2(z)
    ensures c < Pow2(z)
  {
    Pow2(z) - 1 - i
  }

  /** The offsets s that row i of the design matrix adds to i: the submasks of its complement. */
  function Offsets(i: nat, z: nat): seq<nat>
    requires i < Pow2(z)
  {
    Submasks(Complement(i, z), z)
  }

  // ---------------------------------------------------------------------
  // The enumeration

  /** s + h is in the raised sequence exactly when s is in the original. */
  lemma ShiftMember(ss: seq<nat>, h: nat, s: nat)
    ensures s in Shift(ss, h) <==> s >= h && s - h in ss
  {
    if s in Shift(ss, h) {
      var k :| 0 <= k < |ss| && Shift(ss, h)[k] == s;
      assert ss[k] == s - h;
    }
    if s >= h && s - h in ss {
      var k :| 0 <= k < |ss| && ss[k] == s - h;
      assert Shift(ss, h)[k] == s;
    }
  }

  /** No submask exceeds the value it is taken of. */
  lemma {:induction false} SubmasksBound(c: nat, z: nat, s: nat)
    requires c < Pow2(z) && s in Submasks(c, z)
    ensures s <= c
    decreases z
  {
    if z > 0 {
      var h := Pow2(z - 1);
      if c >= h {
        var low := Submasks(c - h, z - 1);
        ShiftMember(low, h, s);
        if s in low {
          SubmasksBound(c - h, z - 1, s);
        } else {
          SubmasksBound(c - h, z - 1, s - h);
        }
      } else {
        SubmasksBound(c, z - 1, s);
      }
    }
  }

  /** `BvAllSubsets` visits exactly the submasks of c: s is listed iff its bits are among those of c. */
  lemma {:induction false} SubmasksMember(c: nat, z: nat, s: nat)
    requires c < Pow2(z)
    ensures s in Submasks(c, z) <==> SubsetOf(s, c)
    decreases z
  {
    if s > c {
      MemberAbove(c, z, s);
    } else if z == 0 {
      OrZero(0);
    } else {
      var h := Pow2(z - 1);
      if c >= h {
        if s < h {
          SubmasksMember(c - h, z - 1, s);
          MemberLow(c, z, s);
        } else {
          SubmasksMember(c - h, z - 1, s - h);
          MemberHigh(c, z, s);
        }
      } else {
        SubmasksMember(c, z - 1, s);
      }
    }
  }

  lemma MemberAbove(c: nat, z: nat, s: nat)
    requires c < Pow2(z) && s > c
    ensures s !in Submasks(c, z) && !SubsetOf(s, c)
  {
    if s in Submasks(c, z) {
      SubmasksBound(c, z, s);
    }
    OrAtLeast(s, c);
  }

  /** A submask without the top bit of c. */
  lemma MemberLow(c: nat, z: nat, s: nat)
    requires 0 < z && Pow2(z - 1) <= c < Pow2(z) && s < Pow2(z - 1)
    requires s in Submasks(c - Pow2(z - 1), z - 1) <==> SubsetOf(s, c - Pow2(z - 1))
    ensures s in Submasks(c, z) <==> SubsetOf(s, c)
  {
    var h := Pow2(z - 1);
    ShiftMember(Submasks(c - h, z - 1), h, s);
    OrHighAt(s, c - h, c, z - 1);
  }

  /** A submask with the top bit of c. */
  lemma MemberHigh(c: nat, z: nat, s: nat)
    requires 0 < z && Pow2(z - 1) <= s <= c < Pow2(z)
    requires s - Pow2(z - 1) in Submasks(c - Pow2(z - 1), z - 1) <==> SubsetOf(s - Pow2(z - 1), c - Pow2(z - 1))
    ensures s in Submasks(c, z) <==> SubsetOf(s, c)
  {
    var h := Pow2(z - 1);
    var low := Submasks(c - h, z - 1);
    ShiftMember(low, h, s);
    if s in low {
      SubmasksBound(c - h, z - 1, s);
    }
    OrHighBothAt(s - h, c - h, s, c, z - 1);
  }

  /** `BvAllSubsets` visits every submask once: the enumeration strictly increases. */
  lemma {:induction false} SubmasksIncreasing(c: nat, z: nat)
    requires c < Pow2(z)
    ensures Increasing(Submasks(c, z))
    decreases z
  {
    if z > 0 {
      var h := Pow2(z - 1);
      if c >= h {
        var low := Submasks(c - h, z - 1);
        SubmasksIncreasing(c - h, z - 1);
        var ss := low + Shift(low, h);
        forall k, l | 0 <= k < l < |ss|
          ensures ss[k] < ss[l]
        {
          if l < |low| {
            assert ss[k] == low[k] && ss[l] == low[l];
          } else if k >= |low| {
            assert ss[k] == low[k - |low|] + h && ss[l] == low[l - |low|] + h;
          } else {
            SubmasksBound(c - h, z - 1, low[k]);
            assert ss[k] == low[k];
            assert ss[l] == low[l - |low|] + h;
          }
        }
      } else {
        SubmasksIncreasing(c, z - 1);
      }
    }
  }

  /** A value with p bits set has 2^p submasks. */
  lemma {:induction false} SubmasksCount(c: nat, z: nat)
    requires c < Pow2(z)
    ensures |Submasks(c, z)| == Pow2(Popcount(c))
    decreases z
  {
    if z > 0 {
      var h := Pow2(z - 1);
      if c >= h {
        SubmasksCount(c - h, z - 1);
        PopcountHigh(c - h, z - 1);
      } else {
        SubmasksCount(c, z - 1);
      }
    }
  }

  // ---------------------------------------------------------------------
  // Rows of the design matrix

  /** `~i & lMask` with `lMask = (1 << z) - 1` is the complement of i on z bits. */
  lemma ComplementIsMasked(i: nat, z: nat)
    requires z <= 32 && i < Pow2(z)
    ensures i < U32 && And(Not32(i), Pow2(z) - 1) == Complement(i, z)
  {
    Pow2Constants();
    ComplementMask(i, z, 32);
  }

  /** The offsets of a row with its top factor absent: those of the row below, then with the top factor. */
  lemma OffsetsLow(i: nat, z: nat)
    requires 0 < z && i < Pow2(z - 1)
    ensures Offsets(i, z) == Offsets(i, z - 1) + Shift(Offsets(i, z - 1), Pow2(z - 1))
  {
  }

  /** The offsets of a row with its top factor present: those of the row without it. */
  lemma OffsetsHigh(i: nat, z: nat)
    requires 0 < z && Pow2(z - 1) <= i < Pow2(z)
    ensures Offsets(i, z) == Offsets(i - Pow2(z - 1), z - 1)
  {
  }

  /**
   * An offset s of row i shares no bit with i: the column `i | s` is
   * i + s, inside the matrix, and i and that column differ exactly in s.
   */
  lemma {:induction false} OffsetColumn(i: nat, z: nat, s: nat)
    requires i < Pow2(z) && s in Offsets(i, z)
    ensures i + s < Pow2(z) && Or(i, s) == i + s && Xor(i, i + s) == s
    decreases z, 1
  {
    if z == 0 {
      ColumnBase(i, s, Pow2(z));
    } else if i < Pow2(z - 1) {
      OffsetColumnLowRow(i, z, s);
    } else {
      OffsetColumnHighRow(i, z, s);
    }
  }

  /** `OffsetColumn` for a row without the top factor. */
  lemma {:induction false} OffsetColumnLowRow(i: nat, z: nat, s: nat)
    requires 0 < z && i < Pow2(z - 1) && s in Offsets(i, z)
    ensures i + s < Pow2(z) && Or(i, s) == i + s && Xor(i, i + s) == s
    decreases z, 0
  {
    var top := LowRowOffset(i, z, s);
    if top {
      OffsetColumn(i, z - 1, s - Pow2(z - 1));
      ColumnTopOffset(i, s - Pow2(z - 1), s, z - 1, Pow2(z));
    } else {
      OffsetColumn(i, z - 1, s);
    }
  }

  /** `OffsetColumn` for a row with the top factor. */
  lemma {:induction false} OffsetColumnHighRow(i: nat, z: nat, s: nat)
    requires 0 < z && Pow2(z - 1) <= i < Pow2(z) && s in Offsets(i, z)
    ensures i + s < Pow2(z) && Or(i, s) == i + s && Xor(i, i + s) == s
    decreases z, 0
  {
    HighRowOffset(i, z, s);
    OffsetColumn(i - Pow2(z - 1), z - 1, s);
    ColumnTopIndex(i - Pow2(z - 1), i, s, z - 1, Pow2(z));
  }

  /** An offset of a row below the top factor either lacks that factor or is an offset plus it. */
  lemma LowRowOffset(i: nat, z: nat, s: nat) returns (top: bool)
    requires 0 < z && i < Pow2(z - 1) && s in Offsets(i, z)
    ensures top ==> s >= Pow2(z - 1) && s - Pow2(z - 1) in Offsets(i, z - 1)
    ensures !top ==> s in Offsets(i, z - 1)
  {
    OffsetsLow(i, z);
    ShiftMember(Offsets(i, z - 1), Pow2(z - 1), s);
    top := s !in Offsets(i, z - 1);
  }

  /** An offset of a row with the top factor is an offset of the row without it. */
  lemma HighRowOffset(i: nat, z: nat, s: nat)
    requires 0 < z && Pow2(z - 1) <= i < Pow2(z) && s in Offsets(i, z)
    ensures s in Offsets(i - Pow2(z - 1), z - 1)
  {
    OffsetsHigh(i, z);
  }

  lemma ColumnBase(i: nat, s: nat, n: nat)
    requires i == 0 && s == 0 && n == 1
    ensures i + s < n && Or(i, s) == i + s && Xor(i, i + s) == s
  {
    OrZero(0);
    XorSelf(0);
  }

  /** Adding factor m to the offset t of a row without it adds it to the column. */
  lemma ColumnTopOffset(i: nat, t: nat, s: nat, m: nat, n: nat)
    requires s == t + Pow2(m) && n == 2 * Pow2(m)
    requires i + t < Pow2(m) && Or(i, t) == i + t && Xor(i, i + t) == t
    ensures i + s < n && Or(i, s) == i + s && Xor(i, i + s) == s
  {
    OrTopOffset(i, t, s, m);
    XorTopOffset(i, t, s, m);
  }

  lemma OrTopOffset(i: nat, t: nat, s: nat, m: nat)
    requires s == t + Pow2(m) && i + t < Pow2(m) && Or(i, t) == i + t
    ensures Or(i, s) == i + s
  {
    OrHighAt(i, t, s, m);
  }

  lemma XorTopOffset(i: nat, t: nat, s: nat, m: nat)
    requires s == t + Pow2(m) && i + t < Pow2(m) && Xor(i, i + t) == t
    ensures Xor(i, i + s) == s
  {
    XorHighAt(i, i + t, i + s, m);
  }

  /** Adding factor m to the index of a row adds it to the column. */
  lemma ColumnTopIndex(i: nat, j: nat, s: nat, m: nat, n: nat)
    requires j == i + Pow2(m) && n == 2 * Pow2(m)
    requires i + s < Pow2(m) && Or(i, s) == i + s && Xor(i, i + s) == s
    ensures j + s < n && Or(j, s) == j + s && Xor(j, j + s) == s
  {
    OrTopIndex(i, j, s, m);
    XorTopIndex(i, j, s, m);
  }

  lemma OrTopIndex(i: nat, j: nat, s: nat, m: nat)
    requires j == i + Pow2(m) && i + s < Pow2(m) && Or(i, s) == i + s
    ensures Or(j, s) == j + s
  {
    OrHighAt(s, i, j, m);
    OrComm(j, s);
    OrComm(i, s);
  }

  lemma XorTopIndex(i: nat, j: nat, s: nat, m: nat)
    requires j == i + Pow2(m) && i + s < Pow2(m) && Xor(i, i + s) == s
    ensures Xor(j, j + s) == s
  {
    XorHighBothAt(i, i + s, j, j + s, m);
  }

  /**
   * Row i of the full design matrix: column j is a superset of i exactly
   * when j is i plus one of the row's offsets.
   */
  lemma {:induction false} SupersetIsOffset(i: nat, z: nat, j: nat)
    requires i < Pow2(z) && j < Pow2(z)
    ensures SubsetOf(i, j) <==> i <= j && j - i in Offsets(i, z)
    decreases z
  {
    if z == 0 {
      OrZero(0);
    } else if i < Pow2(z - 1) {
      if j < Pow2(z - 1) {
        SupersetIsOffset(i, z - 1, j);
        SupersetLowLow(i, z, j);
      } else {
        SupersetIsOffset(i, z - 1, j - Pow2(z - 1));
        SupersetLowHigh(i, z, j);
      }
    } else if j < Pow2(z - 1) {
      SupersetHighLow(i, z, j);
    } else {
      SupersetIsOffset(i - Pow2(z - 1), z - 1, j - Pow2(z - 1));
      SupersetHighHigh(i, z, j);
    }
  }

  lemma SupersetLowLow(i: nat, z: nat, j: nat)
    requires 0 < z && i < Pow2(z - 1) && j < Pow2(z - 1)
    requires SubsetOf(i, j) <==> i <= j && j - i in Offsets(i, z - 1)
    ensures SubsetOf(i, j) <==> i <= j && j - i in Offsets(i, z)
  {
    OffsetsLow(i, z);
    if i <= j {
      ShiftMember(Offsets(i, z - 1), Pow2(z - 1), j - i);
    }
  }

  lemma SupersetLowHigh(i: nat, z: nat, j: nat)
    requires 0 < z && i < Pow2(z - 1) && Pow2(z - 1) <= j < Pow2(z)
    requires SubsetOf(i, j - Pow2(z - 1)) <==> i <= j - Pow2(z - 1) && j - Pow2(z - 1) - i in Offsets(i, z - 1)
    ensures SubsetOf(i, j) <==> i <= j && j - i in Offsets(i, z)
  {
    var h := Pow2(z - 1);
    var low := Offsets(i, z - 1);
    OffsetsLow(i, z);
    OrHighAt(i, j - h, j, z - 1);
    if j - i in low {
      SubmasksBound(Complement(i, z - 1), z - 1, j - i);
    }
    ShiftMember(low, h, j - i);
  }

  lemma SupersetHighLow(i: nat, z: nat, j: nat)
    requires 0 < z && Pow2(z - 1) <= i < Pow2(z) && j < Pow2(z - 1)
    ensures !SubsetOf(i, j) && !(i <= j)
  {
    OrAtLeast(i, j);
  }

  lemma SupersetHighHigh(i: nat, z: nat, j: nat)
    requires 0 < z && Pow2(z - 1) <= i < Pow2(z) && Pow2(z - 1) <= j < Pow2(z)
    requires SubsetOf(i - Pow2(z - 1), j - Pow2(z - 1)) <==>
      i - Pow2(z - 1) <= j - Pow2(z - 1) && j - i in Offsets(i - Pow2(z - 1), z - 1)
    ensures SubsetOf(i, j) <==> i <= j && j - i in Offsets(i, z)
  {
    OffsetsHigh(i, z);
    OrHighBothAt(i - Pow2(z - 1), j - Pow2(z - 1), i, j, z - 1);
  }

  /** Every index is a subset of itself, and only of indices at least as large. */
  lemma SubsetTriangular(i: nat, j: nat)
    ensures SubsetOf(i, i)
    ensures SubsetOf(i, j) ==> i <= j
  {
    OrSelf(i);
    OrAtLeast(i, j);
  }

  // ---------------------------------------------------------------------
  // The index tests

  /** `idx_set_is_subset(i, j)`: `i == (i | j)`, the bits of j are among those of i. */
  function IdxSetIsSubset(i: uint32, j: uint32): (r: bool)
    ensures r <==> SubsetOf(j, i)
  {
    OrComm(i, j);
    i == Or(i, j)
  }

  /** `cinv_is_negative(i, j)`: the low bit of the number of bits where i and j differ. */
  function CinvIsNegative(i: uint32, j: uint32): (r: bool)
    ensures r <==> Popcount(Xor(i, j)) % 2 == 1
  {
    AndLowMask(Popcount(Xor(i, j)), 1);
    And(Popcount(Xor(i, j)), 1) != 0
  }

  /**
   * For a submask s of the complement of row index i, the entry (i, i | s)
   * of the inverse design matrix is negative exactly when s has an odd
   * number of bits.
   */
  lemma CinvSign(i: nat, z: nat, s: nat)
    requires z <= 32 && i < Pow2(z) && SubsetOf(s, Complement(i, z))
    ensures i < U32 && Or(i, s) < U32
    ensures CinvIsNegative(i, Or(i, s)) <==> Popcount(s) % 2 == 1
  {
    Pow2Constants();
    Pow2Mono(z, 32);
    SubmasksMember(Complement(i, z), z, s);
    OffsetColumn(i, z, s);
    DifferenceOfColumn(i, s);
    CinvSignAt(i, Or(i, s), s);
  }

  lemma DifferenceOfColumn(i: nat, s: nat)
    requires Or(i, s) == i + s && Xor(i, i + s) == s
    ensures Xor(i, Or(i, s)) == s
  {
  }

  lemma CinvSignAt(i: uint32, j: uint32, s: nat)
    requires Xor(i, j) == s
    ensures CinvIsNegative(i, j) <==> Popcount(s) % 2 == 1
  {
  }
}
