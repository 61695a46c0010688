/**
 * The rectangle range decomposer of src/Hilbert/ZCurve.hh: `listFragments`
 * lists the maximal dyadic intervals of the Z-order curve whose decoded
 * points all lie in a query rectangle, in increasing address order, by
 * recursively halving the curve (`listFragmentsSub`).
 *
 * The recursion is specified by the function `ListSub`, which returns the
 * count the C++ code returns together with the sequence of fragments it
 * hands to the callback; the methods `ListFragmentsSub` and `ListFragments`
 * are the step-by-step code, proved to produce exactly that.
 */
module ZCurveFragments {
  import opened Bits
  import opened Interleaving
  import opened ZCurveCodec

  /** `lohi_t`: the closed interval [lo, hi] of curve addresses. */
  datatype LoHi = LoHi(lo: uint32, hi: uint32)

  /**
   * `recdesc_t`: a query rectangle, given both by its corners
   * [xlo, xhi] x [ylo, yhi] and by an address interval `d`.
   */
  datatype RecDesc = RecDesc(d: LoHi, xlo: uint32, ylo: uint32, xhi: uint32, yhi: uint32)
  {
    /** The point (x, y) lies in the rectangle. */
    predicate InBox(x: nat, y: nat)
    {
      xlo <= x <= xhi && ylo <= y <= yhi
    }

    /** The point of the curve at address a lies in the rectangle. */
    predicate InBoxAt(a: nat)
    {
      InBox(DeX(a), DeY(a))
    }
  }

  /**
   * The first `recdesc_t` constructor: the corners, with the addresses the
   * codec of B bits gives them as `d`. The addresses encode the corners
   * masked to B bits.
   */
  method RecDescOfCorners(xlo: uint32, ylo: uint32, xhi: uint32, yhi: uint32, noBits: nat) returns (q: RecDesc)
    requires noBits <= 16
    ensures q.xlo == xlo && q.ylo == ylo && q.xhi == xhi && q.yhi == yhi
    ensures q.d.lo == Interleave(xlo % Pow2(noBits), ylo % Pow2(noBits))
    ensures q.d.hi == Interleave(xhi % Pow2(noBits), yhi % Pow2(noBits))
  {
    var z := Create(noBits);
    var dlo := z.Xy2d(xlo, ylo);
    var dhi := z.Xy2d(xhi, yhi);
    q := RecDesc(LoHi(dlo, dhi), xlo, ylo, xhi, yhi);
  }

  /** The second `recdesc_t` constructor: an address interval, and the points of its ends as corners. */
  method RecDescOfLoHi(a: LoHi, noBits: nat) returns (q: RecDesc)
    requires noBits <= 16
    ensures q.d == a
    ensures q.xlo == DeX(a.lo) && q.ylo == DeY(a.lo) && q.xhi == DeX(a.hi) && q.yhi == DeY(a.hi)
  {
    var z := Create(noBits);
    var xlo, ylo := z.D2xy(a.lo);
    var xhi, yhi := z.D2xy(a.hi);
    q := RecDesc(a, xlo, ylo, xhi, yhi);
  }

  /** The third `recdesc_t` constructor: the two ends of an address interval given separately. */
  method RecDescOfBounds(dlo: uint32, dhi: uint32, noBits: nat) returns (q: RecDesc)
    requires noBits <= 16
    ensures q.d == LoHi(dlo, dhi)
    ensures q.xlo == DeX(dlo) && q.ylo == DeY(dlo) && q.xhi == DeX(dhi) && q.yhi == DeY(dhi)
  {
    var z := Create(noBits);
    var xlo, ylo := z.D2xy(dlo);
    var xhi, yhi := z.D2xy(dhi);
    q := RecDesc(LoHi(dlo, dhi), xlo, ylo, xhi, yhi);
  }

  /**
   * A query rectangle of the domain built from its corners: its address
   * interval runs from the address of its lower corner to that of its
   * upper corner, as `RecDescOfCorners` makes it for corners of B bits.
   */
  predicate CornerQuery(z: ZCurve, q: RecDesc)
    requires z.Valid()
  {
    q.xlo <= q.xhi < z.N() && q.ylo <= q.yhi < z.N()
    && q.d.lo == Interleave(q.xlo, q.ylo) && q.d.hi == Interleave(q.xhi, q.yhi)
  }

  /** Corners of B bits are their own residues, so `RecDescOfCorners` builds a corner query from them. */
  lemma CornersMakeCornerQuery(z: ZCurve, q: RecDesc)
    requires z.Valid() && q.xlo <= q.xhi < z.N() && q.ylo <= q.yhi < z.N()
    requires q.d.lo == Interleave(q.xlo % Pow2(z.noBits), q.ylo % Pow2(z.noBits))
    requires q.d.hi == Interleave(q.xhi % Pow2(z.noBits), q.yhi % Pow2(z.noBits))
    ensures CornerQuery(z, q)
    ensures DeX(q.d.lo) == q.xlo && DeY(q.d.lo) == q.ylo && DeX(q.d.hi) == q.xhi && DeY(q.d.hi) == q.yhi
  {
    var n := z.N();
    DivModUnique(q.xlo, n, 0, q.xlo);
    DivModUnique(q.ylo, n, 0, q.ylo);
    DivModUnique(q.xhi, n, 0, q.xhi);
    DivModUnique(q.yhi, n, 0, q.yhi);
    DecodeInterleave(q.xlo, q.ylo);
    DecodeInterleave(q.xhi, q.yhi);
  }

  // ---------------------------------------------------------------------
  // One step of listFragmentsSub

  /** What one call of `listFragmentsSub` decides about its fragment. */
  datatype Verdict =
    | OutsideRange   // the fragment lies before or after the query's address interval
    | OutsideBox     // the fragment's decoded box misses the rectangle
    | Contained      // the fragment's decoded box lies in the rectangle
    | Overlapping    // neither: the fragment is split

  /**
   * The tests of `listFragmentsSub`, in the order the code makes them: first
   * against the query's address interval, then against the rectangle, using
   * the decoded points (`d2xy`) of the fragment's two ends.
   */
  function Classify(q: RecDesc, a: LoHi): Verdict
  {
    if q.d.hi < a.lo || a.hi < q.d.lo then OutsideRange
    else
      var xl, yl, xh, yh := DeX(a.lo), DeY(a.lo), DeX(a.hi), DeY(a.hi);
      if xh < q.xlo || yh < q.ylo || xl > q.xhi || yl > q.yhi then OutsideBox
      else if q.xlo <= xl && q.ylo <= yl && xh <= q.xhi && yh <= q.yhi then Contained
      else Overlapping
  }

  /** A contained dyadic fragment holds only addresses whose points lie in the rectangle. */
  lemma ContainedSound(q: RecDesc, a: LoHi, f: nat, x: nat)
    requires Dyadic(a.lo, a.hi, f) && a.lo <= x <= a.hi
    requires Classify(q, a) == Contained
    ensures q.InBoxAt(x)
  {
    DyadicBox(a.lo, a.hi, f, x);
  }

  /**
   * A dyadic fragment holding an address that is in the query's address
   * interval and whose point is in the rectangle is never rejected.
   */
  lemma RejectSound(q: RecDesc, a: LoHi, f: nat, x: nat)
    requires Dyadic(a.lo, a.hi, f) && a.lo <= x <= a.hi
    requires q.InBoxAt(x) && q.d.lo <= x <= q.d.hi
    ensures Classify(q, a) == Contained || Classify(q, a) == Overlapping
  {
    DyadicBox(a.lo, a.hi, f, x);
  }

  /**
   * A single address is never split: it is either rejected or contained.
   * So the level below 0, which the C++ code would reach by wrapping
   * `aLevel - 1` around, is never split either.
   */
  lemma PointNotOverlapping(q: RecDesc, a: LoHi, level: int)
    requires -1 <= level && Dyadic(a.lo, a.hi, level + 1)
    requires Classify(q, a) == Overlapping
    ensures level >= 0
  {
  }

  // ---------------------------------------------------------------------
  // The recursion, as functions

  /** The arguments `listFragmentsSub` is called with: a dyadic fragment of 2^(level+1) addresses. */
  predicate SubArgs(a: LoHi, level: int)
  {
    -1 <= level < 32 && Dyadic(a.lo, a.hi, level + 1)
  }

  /** The lower half of the dyadic fragment a of 2^(level+1) addresses. */
  function LeftHalf(a: LoHi, level: nat): (l: LoHi)
    requires SubArgs(a, level)
    ensures SubArgs(l, level - 1) && l.lo == a.lo && l.hi == a.lo + Pow2(level) - 1
  {
    DyadicHalves(a.lo, a.hi, level + 1);
    LoHi(a.lo, a.lo + Pow2(level) - 1)
  }

  /** The upper half of the dyadic fragment a of 2^(level+1) addresses. */
  function RightHalf(a: LoHi, level: nat): (r: LoHi)
    requires SubArgs(a, level)
    ensures SubArgs(r, level - 1) && r.lo == a.lo + Pow2(level) && r.hi == a.hi
  {
    DyadicHalves(a.lo, a.hi, level + 1);
    LoHi(a.lo + Pow2(level), a.hi)
  }

  /**
   * The fragments `listFragmentsSub` hands to `processFragment`, in call
   * order: a contained fragment itself, for an overlapping one the
   * fragments of its left half followed by those of its right half.
   */
  function Frags(q: RecDesc, a: LoHi, level: int): seq<LoHi>
    requires SubArgs(a, level)
    decreases level + 1
  {
    match Classify(q, a)
    case OutsideRange => []
    case OutsideBox => []
    case Contained => [a]
    case Overlapping =>
      PointNotOverlapping(q, a, level);
      Frags(q, LeftHalf(a, level), level - 1) + Frags(q, RightHalf(a, level), level - 1)
  }

  /**
   * The count `listFragmentsSub` returns: 1 for the call itself, 1 more for
   * a contained fragment, plus the counts of both halves of an overlapping one.
   */
  function Count(q: RecDesc, a: LoHi, level: int): nat
    requires SubArgs(a, level)
    decreases level + 1
  {
    match Classify(q, a)
    case OutsideRange => 1
    case OutsideBox => 1
    case Contained => 2
    case Overlapping =>
      PointNotOverlapping(q, a, level);
      1 + Count(q, LeftHalf(a, level), level - 1) + Count(q, RightHalf(a, level), level - 1)
  }

  /** The number of calls of `listFragmentsSub` made for fragment a, itself included. */
  function Calls(q: RecDesc, a: LoHi, level: int): (c: nat)
    requires SubArgs(a, level)
    ensures 1 <= c < Pow2(level + 2)
    decreases level + 1
  {
    if Classify(q, a) != Overlapping then 1
    else
      PointNotOverlapping(q, a, level);
      1 + Calls(q, LeftHalf(a, level), level - 1) + Calls(q, RightHalf(a, level), level - 1)
  }

  /** The fragment `listFragments` starts from: the whole curve [0, n*n - 1]. */
  function Root(z: ZCurve): (a: LoHi)
    requires z.Valid()
    ensures SubArgs(a, 2 * z.noBits - 1) && a.lo == 0 && a.hi == Pow2(2 * z.noBits) - 1
  {
    Pow2Constants();
    Pow2Mono(2 * z.noBits, 32);
    LoHi(0, z.MaxD())
  }

  // ---------------------------------------------------------------------
  // Properties of the listing

  /** Address x lies in fragment f. */
  predicate InFragment(f: LoHi, x: nat)
  {
    f.lo <= x <= f.hi
  }

  /** Some fragment of fs holds address x. */
  predicate Covers(fs: seq<LoHi>, x: nat)
  {
    exists i :: 0 <= i < |fs| && InFragment(fs[i], x)
  }

  /** Every fragment is a nonempty interval inside [lo, hi]. */
  predicate Within(fs: seq<LoHi>, lo: nat, hi: nat)
  {
    forall i :: 0 <= i < |fs| ==> lo <= fs[i].lo <= fs[i].hi <= hi
  }

  /** The fragments come in strictly increasing address order, without overlap. */
  predicate Ascending(fs: seq<LoHi>)
  {
    forall i, j :: 0 <= i < j < |fs| ==> fs[i].hi < fs[j].lo
  }

  /**
   * An overlapping fragment is split: the halves meet without a gap and the
   * fragments and the count of the fragment are made up of those of its halves.
   */
  lemma Split(q: RecDesc, a: LoHi, level: int)
    requires SubArgs(a, level) && Classify(q, a) == Overlapping
    ensures level >= 0
    ensures LeftHalf(a, level).hi + 1 == RightHalf(a, level).lo
    ensures Frags(q, a, level) == Frags(q, LeftHalf(a, level), level - 1) + Frags(q, RightHalf(a, level), level - 1)
    ensures Count(q, a, level) == 1 + Count(q, LeftHalf(a, level), level - 1) + Count(q, RightHalf(a, level), level - 1)
  {
    PointNotOverlapping(q, a, level);
  }

  /** The calls made for an overlapping fragment: its own and those of its halves. */
  lemma SplitCalls(q: RecDesc, a: LoHi, level: int)
    requires SubArgs(a, level) && Classify(q, a) == Overlapping
    ensures level >= 0
    ensures Calls(q, a, level) == 1 + Calls(q, LeftHalf(a, level), level - 1) + Calls(q, RightHalf(a, level), level - 1)
  {
    PointNotOverlapping(q, a, level);
  }

  /** A rejected fragment reports nothing and counts its one call. */
  lemma Rejected(q: RecDesc, a: LoHi, level: int)
    requires SubArgs(a, level)
    requires Classify(q, a) == OutsideRange || Classify(q, a) == OutsideBox
    ensures Frags(q, a, level) == [] && Count(q, a, level) == 1 && Calls(q, a, level) == 1
  {
  }

  /** A contained fragment is reported alone and counts 2. */
  lemma Reported(q: RecDesc, a: LoHi, level: int)
    requires SubArgs(a, level) && Classify(q, a) == Contained
    ensures Frags(q, a, level) == [a] && Count(q, a, level) == 2 && Calls(q, a, level) == 1
  {
  }

  /** The count is the number of calls plus the number of reported fragments, so it is at least 1. */
  lemma {:induction false} CountIsCallsPlusFragments(q: RecDesc, a: LoHi, level: int)
    requires SubArgs(a, level)
    ensures Count(q, a, level) == Calls(q, a, level) + |Frags(q, a, level)|
    ensures Count(q, a, level) >= 1
    decreases level + 1
  {
    var v := Classify(q, a);
    if v == Overlapping {
      Split(q, a, level);
      SplitCalls(q, a, level);
      CountIsCallsPlusFragments(q, LeftHalf(a, level), level - 1);
      CountIsCallsPlusFragments(q, RightHalf(a, level), level - 1);
    } else if v == Contained {
      Reported(q, a, level);
    } else {
      Rejected(q, a, level);
    }
  }

  lemma ConcatOrdered(l: seq<LoHi>, r: seq<LoHi>, lo: nat, mid: nat, hi: nat)
    requires lo <= mid <= hi && Within(l, lo, mid) && Ascending(l)
    requires Within(r, mid + 1, hi) && Ascending(r)
    ensures Within(l + r, lo, hi) && Ascending(l + r)
  {
    var s := l + r;
    forall i | 0 <= i < |s|
      ensures lo <= s[i].lo <= s[i].hi <= hi
    {
      if i >= |l| {
        assert s[i] == r[i - |l|];
      } else {
        assert s[i] == l[i];
      }
    }
    forall i, j | 0 <= i < j < |s|
      ensures s[i].hi < s[j].lo
    {
      if j < |l| {
      } else if i >= |l| {
        assert s[i] == r[i - |l|] && s[j] == r[j - |l|];
      } else {
        assert s[j] == r[j - |l|];
      }
    }
  }

  /**
   * The reported fragments are nonempty intervals inside the fragment
   * listed, in strictly increasing order: the left half is listed before
   * the right one and lies wholly below it.
   */
  lemma {:induction false} FragsOrdered(q: RecDesc, a: LoHi, level: int)
    requires SubArgs(a, level)
    ensures Within(Frags(q, a, level), a.lo, a.hi)
    ensures Ascending(Frags(q, a, level))
    decreases level + 1
  {
    var v := Classify(q, a);
    if v == Overlapping {
      Split(q, a, level);
      var l, r := LeftHalf(a, level), RightHalf(a, level);
      FragsOrdered(q, l, level - 1);
      FragsOrdered(q, r, level - 1);
      ConcatOrdered(Frags(q, l, level - 1), Frags(q, r, level - 1), a.lo, l.hi, a.hi);
    } else if v == Contained {
      Reported(q, a, level);
    } else {
      Rejected(q, a, level);
    }
  }

  /** An address covered by a concatenation is covered by one of its parts. */
  lemma CoversConcat(l: seq<LoHi>, r: seq<LoHi>, x: nat)
    ensures Covers(l + r, x) <==> Covers(l, x) || Covers(r, x)
  {
    var s := l + r;
    if Covers(s, x) {
      var i :| 0 <= i < |s| && InFragment(s[i], x);
      if i < |l| {
        assert s[i] == l[i];
      } else {
        assert s[i] == r[i - |l|];
      }
    }
    if Covers(l, x) {
      var i :| 0 <= i < |l| && InFragment(l[i], x);
      assert s[i] == l[i];
    }
    if Covers(r, x) {
      var i :| 0 <= i < |r| && InFragment(r[i], x);
      assert s[|l| + i] == r[i];
    }
  }

  /** A fragment that is not split reports only addresses whose points lie in the rectangle. */
  lemma UnsplitSound(q: RecDesc, a: LoHi, level: int, x: nat)
    requires SubArgs(a, level) && Classify(q, a) != Overlapping
    requires Covers(Frags(q, a, level), x)
    ensures q.InBoxAt(x)
  {
    if Classify(q, a) == Contained {
      Reported(q, a, level);
      assert InFragment(Frags(q, a, level)[0], x);
      ContainedSound(q, a, level + 1, x);
    } else {
      Rejected(q, a, level);
    }
  }

  /** An address reported for a split fragment is reported for one of its halves. */
  lemma CoveringHalf(q: RecDesc, a: LoHi, level: int, x: nat) returns (b: LoHi)
    requires SubArgs(a, level) && Classify(q, a) == Overlapping
    requires Covers(Frags(q, a, level), x)
    ensures level >= 0 && SubArgs(b, level - 1) && Covers(Frags(q, b, level - 1), x)
  {
    Split(q, a, level);
    var l, r := LeftHalf(a, level), RightHalf(a, level);
    CoversConcat(Frags(q, l, level - 1), Frags(q, r, level - 1), x);
    if Covers(Frags(q, l, level - 1), x) {
      b := l;
    } else {
      b := r;
    }
  }

  /** Soundness: every address of a reported fragment decodes to a point of the rectangle. */
  lemma {:induction false} FragsSound(q: RecDesc, a: LoHi, level: int, x: nat)
    requires SubArgs(a, level)
    requires Covers(Frags(q, a, level), x)
    ensures q.InBoxAt(x)
    decreases level + 1
  {
    if Classify(q, a) == Overlapping {
      var b := CoveringHalf(q, a, level, x);
      FragsSound(q, b, level - 1, x);
    } else {
      UnsplitSound(q, a, level, x);
    }
  }

  /**
   * Completeness: every address of the fragment that lies in the query's
   * address interval and decodes into the rectangle is reported.
   */
  lemma {:induction false} FragsComplete(q: RecDesc, a: LoHi, level: int, x: nat)
    requires SubArgs(a, level)
    requires a.lo <= x <= a.hi && q.d.lo <= x <= q.d.hi && q.InBoxAt(x)
    ensures Covers(Frags(q, a, level), x)
    decreases level + 1
  {
    RejectSound(q, a, level + 1, x);
    if Classify(q, a) == Contained {
      Reported(q, a, level);
      assert InFragment(Frags(q, a, level)[0], x);
    } else {
      Split(q, a, level);
      var l, r := LeftHalf(a, level), RightHalf(a, level);
      if x <= l.hi {
        FragsComplete(q, l, level - 1, x);
      } else {
        FragsComplete(q, r, level - 1, x);
      }
      CoversConcat(Frags(q, l, level - 1), Frags(q, r, level - 1), x);
    }
  }

  /** In an ascending listing at most one fragment holds a given address. */
  lemma AscendingUnique(fs: seq<LoHi>, x: nat, i: nat, j: nat)
    requires Ascending(fs) && i < |fs| && j < |fs|
    requires InFragment(fs[i], x) && InFragment(fs[j], x)
    ensures i == j
  {
  }

  /** No address lies in two distinct fragments of fs. */
  predicate AtMostOnce(fs: seq<LoHi>, x: nat)
  {
    forall i, j :: 0 <= i < |fs| && 0 <= j < |fs| && InFragment(fs[i], x) && InFragment(fs[j], x) ==> i == j
  }

  lemma AscendingAtMostOnce(fs: seq<LoHi>, x: nat)
    requires Ascending(fs)
    ensures AtMostOnce(fs, x)
  {
    forall i, j | 0 <= i < |fs| && 0 <= j < |fs| && InFragment(fs[i], x) && InFragment(fs[j], x)
      ensures i == j
    {
      AscendingUnique(fs, x, i, j);
    }
  }

  // ---------------------------------------------------------------------
  // listFragments on a rectangle of the domain

  /**
   * For a corner query, the address of every point of the rectangle lies
   * between the corner addresses: the curve-order tests never reject a
   * fragment that meets the rectangle.
   */
  lemma BoxWithinRange(z: ZCurve, q: RecDesc, x: nat)
    requires z.Valid() && CornerQuery(z, q) && x <= z.MaxD() && q.InBoxAt(x)
    ensures q.d.lo <= x <= q.d.hi
  {
    DecodeBound(x, z.noBits);
    InterleaveDecode(x);
    InterleaveMonotone(q.xlo, q.ylo, DeX(x), DeY(x));
    InterleaveMonotone(DeX(x), DeY(x), q.xhi, q.yhi);
  }

  /**
   * For a corner query `listFragments` reports exactly the addresses of the
   * rectangle's points: an address of the curve is in a reported fragment
   * if and only if it decodes into the rectangle, and the fragments ascend.
   */
  lemma ListAllExact(z: ZCurve, q: RecDesc, x: nat)
    requires z.Valid() && CornerQuery(z, q) && x <= z.MaxD()
    ensures Covers(Frags(q, Root(z), 2 * z.noBits - 1), x) <==> q.InBox(DeX(x), DeY(x))
    ensures Ascending(Frags(q, Root(z), 2 * z.noBits - 1))
  {
    var root, level := Root(z), 2 * z.noBits - 1;
    FragsOrdered(q, root, level);
    if Covers(Frags(q, root, level), x) {
      FragsSound(q, root, level, x);
    }
    if q.InBoxAt(x) {
      BoxWithinRange(z, q, x);
      FragsComplete(q, root, level, x);
    }
  }

  /** For a corner query, the address of every point of the rectangle lies in exactly one reported fragment. */
  lemma ListAllPointOnce(z: ZCurve, q: RecDesc, x: nat, y: nat)
    requires z.Valid() && CornerQuery(z, q) && q.InBox(x, y)
    ensures var fs := Frags(q, Root(z), 2 * z.noBits - 1);
      Covers(fs, Interleave(x, y)) && AtMostOnce(fs, Interleave(x, y))
  {
    var fs := Frags(q, Root(z), 2 * z.noBits - 1);
    var d := Interleave(x, y);
    InterleaveBound(x, y, z.noBits);
    DecodeInterleave(x, y);
    ListAllExact(z, q, d);
    assert q.InBox(DeX(d), DeY(d));
    AscendingAtMostOnce(fs, d);
  }

  /**
   * The query of the whole domain is answered by the whole curve as one
   * fragment, after one call: the count is 2.
   */
  lemma ListAllWholeDomain(z: ZCurve, q: RecDesc)
    requires z.Valid() && CornerQuery(z, q)
    requires q.xlo == 0 && q.ylo == 0 && q.xhi == z.N() - 1 && q.yhi == z.N() - 1
    ensures Frags(q, Root(z), 2 * z.noBits - 1) == [Root(z)]
    ensures Count(q, Root(z), 2 * z.noBits - 1) == 2
  {
    var root := Root(z);
    DecodeBound(root.hi, z.noBits);
    InterleaveBound(q.xhi, q.yhi, z.noBits);
    assert Interleave(0, 0) == 0;
    assert DeX(0) == 0 && DeY(0) == 0;
    assert Classify(q, root) == Contained;
    Reported(q, root, 2 * z.noBits - 1);
  }

  lemma AppendAssoc(a: seq<LoHi>, b: seq<LoHi>, c: seq<LoHi>)
    ensures a + b + c == a + (b + c)
  {
  }

  /**
   * The halves the code builds with `mkBit`, `mkLeft` and `mkRight` are
   * those of the specification, for a fragment that is split.
   */
  lemma SplitByBit(q: RecDesc, a: LoHi, level: int)
    requires SubArgs(a, level) && Classify(q, a) == Overlapping
    ensures 0 <= level < 32
    ensures LoHi(a.lo, ZCurve.MkLeft(a.hi, ZCurve.MkBit(level))) == LeftHalf(a, level)
    ensures LoHi(ZCurve.MkRight(a.lo, ZCurve.MkBit(level)), a.hi) == RightHalf(a, level)
    ensures Frags(q, a, level) == Frags(q, LeftHalf(a, level), level - 1) + Frags(q, RightHalf(a, level), level - 1)
    ensures Count(q, a, level) == 1 + Count(q, LeftHalf(a, level), level - 1) + Count(q, RightHalf(a, level), level - 1)
  {
    Split(q, a, level);
    SplitHalves(a.lo, a.hi, level);
  }

  // ---------------------------------------------------------------------
  // The code

  /** A callback object collecting the fragments passed to `processFragment`. */
  class FragmentList {
    var fragments: seq<LoHi>

    constructor()
      ensures fragments == []
    {
      fragments := [];
    }

    /** `processFragment`: record one fragment. */
    method ProcessFragment(a: LoHi)
      modifies this
      ensures fragments == old(fragments) + [a]
    {
      fragments := fragments + [a];
    }
  }

  /**
   * `listFragmentsSub`: the recursion as the code runs it, rejecting,
   * reporting or splitting the fragment with `mkBit`, `mkLeft` and `mkRight`.
   */
  method ListFragmentsSub(z: ZCurve, q: RecDesc, a: LoHi, level: int, cb: FragmentList) returns (count: nat)
    requires z.Valid() && level < 2 * z.noBits && SubArgs(a, level)
    modifies cb
    ensures count == Count(q, a, level)
    ensures cb.fragments == old(cb.fragments) + Frags(q, a, level)
    decreases level + 1, 1
  {
    count := 1;
    ghost var v := Classify(q, a);
    if q.d.hi < a.lo || a.hi < q.d.lo {
      assert v == OutsideRange;
      Rejected(q, a, level);
      return;
    }
    var xlo, ylo := z.D2xy(a.lo);
    var xhi, yhi := z.D2xy(a.hi);
    if xhi < q.xlo || yhi < q.ylo || xlo > q.xhi || ylo > q.yhi {
      assert v == OutsideBox;
      Rejected(q, a, level);
      return;
    }
    if q.xlo <= xlo && q.ylo <= ylo && xhi <= q.xhi && yhi <= q.yhi {
      assert v == Contained;
      Reported(q, a, level);
      count := count + 1;
      cb.ProcessFragment(a);
      return;
    }
    assert v == Overlapping;
    var c := ListHalves(z, q, a, level, cb);
    count := count + c;
  }

  /**
   * The split of an overlapping fragment in `listFragmentsSub`: the halves
   * are cut at `mkBit(level)` with `mkLeft` and `mkRight` and listed in
   * turn, left first; the result is the sum of their counts.
   */
  method ListHalves(z: ZCurve, q: RecDesc, a: LoHi, level: int, cb: FragmentList) returns (count: nat)
    requires z.Valid() && level < 2 * z.noBits && SubArgs(a, level) && Classify(q, a) == Overlapping
    modifies cb
    ensures count + 1 == Count(q, a, level)
    ensures cb.fragments == old(cb.fragments) + Frags(q, a, level)
    decreases level + 1, 0
  {
    SplitByBit(q, a, level);
    var bit := ZCurve.MkBit(level);
    var left := ZCurve.MkLeft(a.hi, bit);
    var right := ZCurve.MkRight(a.lo, bit);
    ghost var before := cb.fragments;
    ghost var fl, fr := Frags(q, LeftHalf(a, level), level - 1), Frags(q, RightHalf(a, level), level - 1);
    count := ListFragmentsSub(z, q, LoHi(a.lo, left), level - 1, cb);
    var c := ListFragmentsSub(z, q, LoHi(right, a.hi), level - 1, cb);
    count := count + c;
    AppendAssoc(before, fl, fr);
  }

  /** `listFragments`: list the whole curve [0, n*n - 1] from the top level 2B - 1. */
  method ListFragments(z: ZCurve, q: RecDesc, cb: FragmentList) returns (count: nat)
    requires z.Valid()
    modifies cb
    ensures count == Count(q, Root(z), 2 * z.noBits - 1)
    ensures cb.fragments == old(cb.fragments) + Frags(q, Root(z), 2 * z.noBits - 1)
  {
    var maxD := z.MaxD();
    var root := LoHi(0, maxD);
    assert root == Root(z);
    count := ListFragmentsSub(z, q, root, 2 * z.noBits - 1, cb);
  }
}
