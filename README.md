# Z-order curve, time-of-day parser and subset design matrix, in Dafny

This project models three pieces of the repository and proves properties of them.

- **The Z-order (Morton) curve** of `src/Hilbert/ZCurve.hh`, instantiated with 32-bit words.
  - The codec: `xy2d` interleaves the low B bits of x into the even bit positions and the low B bits of y into the odd ones. `d2xy` gathers them back.
  - The rectangle decomposer `listFragments`/`listFragmentsSub`: it splits the curve into dyadic address intervals. It reports, in address order, the intervals whose decoded box lies inside the query rectangle, and it returns a count.
  - `bit_distribute`/`bit_gather` are modelled as PDEP/PEXT (`Bits.Pdep`, `Bits.Pext`).
- **`STime`** of `src/infra/stime.cc`.
  - `set` reads `H<sep>M[<sep>S]` with `strtol` (as section 7.22.1.4 of ISO C11 describes it) into a number of seconds. It moves a by-reference cursor.
  - `simple_set` does the same reading on a cursor of its own.
  - `print` writes the three fields, each zero-padded to two digits.
- **The bit-subset design matrix** of `src/infra/main_designmatrix.cc`. A(i, j) is 1 exactly when the bits of i are a subset of the bits of j. The model covers:
  - the matrix builder;
  - the loop and the in-place recursive forms of the superset-sum transform (`convertGamma2Beta`…) and of its signed inverse (`convertBeta2Gamma`, `fCinvx_a`, `fCinvx_b`…);
  - the index and sign predicates;
  - the three counters of addition operations.

  Vectors hold exact integers. `BvAllSubsets(c)` is modelled as the enumeration of the submasks of c in increasing order (`BitSubsets.Submasks`). `number_of_bits_set` is modelled as `Bits.Popcount`.

The modules are:

- `Bits` (`bits.dfy`): bitwise operations on naturals, and 32- and 64-bit wrap-around.
- `Interleaving` (`interleave.dfy`): the bit interleaving and dyadic intervals.
- `ZCurveCodec` (`zcurve.dfy`): the codec.
- `ZCurveFragments` (`fragments.dfy`): the decomposer. The split of an overlapping fragment is the method `ListHalves`.
- `Numerals` and `STimeOfDay` (`stime.dfy`): `strtol` and `STime`.
- `BitSubsets` (`subsets.dfy`): submask enumeration, and the index and sign predicates.
- `SubsetTransform` (`transform.dfy`): the reference transform.
  - `Transform(v, z, false)` is the superset sum A·v.
  - `Transform(v, z, true)` is the signed sum, which is the inverse of A applied to v.
  - Both are defined by the same top-bit halving as the recursive C++ procedures.
- `DesignMatrix` (`designmatrix.dfy`): the matrix and the conversion procedures on arrays.
  - The inner loop over the submasks of one row is a method of its own (`SetRow`, `SetColumn`, `Gamma2BetaRow`, `CinvxARow`, `CinvxBRow`, `Beta2GammaRow`). So is the written-out two-factor case of each block procedure (`Gamma2BetaBase`, `Beta2GammaBasePos`, `Beta2GammaBaseNeg`).
- `AddOps` (`addops.dfy`): the addition counters.

The fragment callback is a `FragmentList` object whose sequence of fragments each call extends. An output stream is an `OStream` object whose text each write extends.

## Model

| member | source | states |
|---|---|---|
| ZCurveCodec.Create | src/Hilbert/ZCurve.hh:100-102 | for B ≤ 16, the codec has B bits per direction and the mask `(1 << B) - 1` (the 32-bit subtraction, so 0xFFFF for B = 16) |
| ZCurveCodec.ZCurve.N | src/Hilbert/ZCurve.hh:75 | `get_n` is 2^B, between 1 and 2^16 |
| ZCurveCodec.ZCurve.MaxD | src/Hilbert/ZCurve.hh:76 | `getMaxD`, computed as `n*n - 1` in 32-bit arithmetic, is 4^B - 1 for every B ≤ 16, including the wrap at B = 16 |
| ZCurveCodec.ZCurve.Xy2d | src/Hilbert/ZCurve.hh:105-111 | the address is the interleaving of x mod n and y mod n, and it never exceeds `getMaxD` |
| ZCurveCodec.ZCurve.D2xy | src/Hilbert/ZCurve.hh:121-128 | the coordinates are the even and the odd bits of d, each below 2^16 |
| ZCurveCodec.ZCurve.MkBit | src/Hilbert/ZCurve.hh:81 | `mkBit(L)` is 2^L for L < 32 |
| ZCurveCodec.ZCurve.MkLeft | src/Hilbert/ZCurve.hh:82 | clearing a bit never increases hi |
| ZCurveCodec.ZCurve.MkRight | src/Hilbert/ZCurve.hh:83 | setting a bit never decreases lo |
| ZCurveCodec.Xy2dAsInterleave | src/Hilbert/ZCurve.hh:109-110 | PDEP of the masked coordinates on 0x55555555 and 0xAAAAAAAA, or-ed together, is their interleaving, and it lies below 4^B |
| ZCurveCodec.D2xyAsDecode | src/Hilbert/ZCurve.hh:126-127 | PEXT of d on the two selectors gives its even-bit and odd-bit numbers |
| ZCurveCodec.RoundTripCoordinates | src/Hilbert/ZCurve.hh:101-128 | decoding `xy2d(x, y)` gives back `x & mask` and `y & mask`: larger coordinates are truncated, not rejected |
| ZCurveCodec.RoundTripAddress | src/Hilbert/ZCurve.hh:75-76 | every address up to `getMaxD` decodes to coordinates below n that encode back to it |
| ZCurveCodec.Xy2dMonotone | src/Hilbert/ZCurve.hh:105-111 | `xy2d` is monotone in each coordinate |
| ZCurveCodec.SplitHalves | src/Hilbert/ZCurve.hh:292-296 | splitting a dyadic interval of level L+1 at bit L with `mkLeft`/`mkRight` gives two dyadic intervals of level L, with left.hi + 1 == right.lo |
| Interleaving.DecodeInterleave | src/Hilbert/ZCurve.hh:105-128 | decoding an interleaving gives back both coordinates |
| Interleaving.InterleaveDecode | src/Hilbert/ZCurve.hh:105-128 | interleaving the two decoded halves of an address gives the address |
| Interleaving.InterleaveInjective | src/Hilbert/ZCurve.hh:105-111 | distinct points have distinct addresses |
| Interleaving.InterleaveBound | src/Hilbert/ZCurve.hh:75-76 | coordinates below 2^k give an address below 4^k |
| Interleaving.DecodeBound | src/Hilbert/ZCurve.hh:121-128 | an address below 4^k decodes to coordinates below 2^k |
| Interleaving.InterleaveMonotone | src/Hilbert/ZCurve.hh:189-208 | the interleaving is monotone in each coordinate, which makes the curve-order rejections sound |
| Interleaving.DyadicBox | src/Hilbert/ZCurve.hh:211-216 | every address of a dyadic interval decodes into the box spanned by its two ends, so the corner test decides the whole interval |
| ZCurveFragments.RecDescOfCorners | src/Hilbert/ZCurve.hh:36-43 | a query built from its corners keeps them and has the masked corner addresses as its range |
| ZCurveFragments.RecDescOfLoHi | src/Hilbert/ZCurve.hh:45-49 | a query built from an address range keeps it and has the decoded ends as its corners |
| ZCurveFragments.RecDescOfBounds | src/Hilbert/ZCurve.hh:51-55 | the same for a range given as two addresses |
| ZCurveFragments.CornersMakeCornerQuery | src/Hilbert/ZCurve.hh:36-43 | a query built from corners inside the domain decodes back to those corners |
| ZCurveFragments.ContainedSound | src/Hilbert/ZCurve.hh:269-280 | every address of an interval judged contained lies in the query rectangle |
| ZCurveFragments.RejectSound | src/Hilbert/ZCurve.hh:189-267 | an interval holding an address in the query's range and rectangle is never rejected |
| ZCurveFragments.PointNotOverlapping | src/Hilbert/ZCurve.hh:291-306 | an interval that reaches the split has level ≥ 0, so the wrapped `aLevel - 1` is never used |
| ZCurveFragments.LeftHalf | src/Hilbert/ZCurve.hh:293-295 | the left half keeps lo and ends at lo + 2^L - 1, a dyadic interval one level down |
| ZCurveFragments.RightHalf | src/Hilbert/ZCurve.hh:294-296 | the right half starts at lo + 2^L and keeps hi |
| ZCurveFragments.Calls | src/Hilbert/ZCurve.hh:175-311 | the number of `listFragmentsSub` calls is between 1 and 2^(L+2) - 1 |
| ZCurveFragments.Root | src/Hilbert/ZCurve.hh:160-166 | the starting interval is [0, n·n - 1] at level 2B - 1 |
| ZCurveFragments.Split | src/Hilbert/ZCurve.hh:291-307 | an overlapping interval reports the fragments of its left half then those of its right half, and counts 1 plus both halves |
| ZCurveFragments.SplitByBit | src/Hilbert/ZCurve.hh:292-306 | the halves built by `mkLeft(hi, mkBit(L))` and `mkRight(lo, mkBit(L))` are exactly the two halves of the interval |
| ZCurveFragments.SplitCalls | src/Hilbert/ZCurve.hh:305-306 | an overlapping interval makes one call plus those of its two halves |
| ZCurveFragments.Rejected | src/Hilbert/ZCurve.hh:188-267 | a rejected interval reports nothing and counts 1 |
| ZCurveFragments.Reported | src/Hilbert/ZCurve.hh:276-288 | a contained interval reports itself and counts 2 |
| ZCurveFragments.CountIsCallsPlusFragments | src/Hilbert/ZCurve.hh:188-307 | the returned count is the number of calls plus the number of reported fragments, so it is at least 1 |
| ZCurveFragments.FragsOrdered | src/Hilbert/ZCurve.hh:293-306 | the reported fragments lie inside the interval and come in strictly increasing, disjoint address order |
| ZCurveFragments.FragsSound | src/Hilbert/ZCurve.hh:269-280 | every address in a reported fragment decodes into the query rectangle |
| ZCurveFragments.FragsComplete | src/Hilbert/ZCurve.hh:189-306 | every address of the interval that lies in the query's range and decodes into the rectangle is in a reported fragment |
| ZCurveFragments.AscendingUnique | src/Hilbert/ZCurve.hh:293-306 | an address lies in at most one of the ordered fragments |
| ZCurveFragments.BoxWithinRange | src/Hilbert/ZCurve.hh:36-43 | for a query built from its corners, every point of the rectangle has its address within the query's range |
| ZCurveFragments.ListAllExact | src/Hilbert/ZCurve.hh:160-170 | for a corner query, an address of the domain is reported if and only if it decodes into the rectangle, and the fragments are ascending |
| ZCurveFragments.ListAllPointOnce | src/Hilbert/ZCurve.hh:160-170 | every lattice point of the rectangle has its address in exactly one reported fragment |
| ZCurveFragments.ListAllWholeDomain | src/Hilbert/ZCurve.hh:160-170 | a whole-domain query reports the single fragment [0, n·n - 1] and returns 2 |
| ZCurveFragments.FragmentList.ProcessFragment | src/Hilbert/ZCurve.hh:280 | the callback appends the fragment to its list |
| ZCurveFragments.ListFragmentsSub | src/Hilbert/ZCurve.hh:172-311 | returns the count and appends the reported fragments of the interval, in order, to the callback's list |
| ZCurveFragments.ListHalves | src/Hilbert/ZCurve.hh:291-307 | for an overlapping fragment, the halves cut by `mkBit`, `mkLeft` and `mkRight` are listed left then right: the callback's list grows by the fragments of both halves and the result is one less than the fragment's count |
| ZCurveFragments.ListFragments | src/Hilbert/ZCurve.hh:157-170 | the same, from the whole curve at the top level |
| Numerals.Strtol | src/infra/stime.cc:17 | `strtol` in base 10: no conversion leaves the end at the start with value 0; otherwise the end follows the last digit |
| Numerals.StrtolNumeral | src/infra/stime.cc:17 | a run of digits converts to its value, with the end just after it |
| Numerals.StrtolNoDigits | src/infra/stime.cc:17-21 | text without a number after optional blanks and sign converts nothing |
| Numerals.StrtolNegative | src/infra/stime.cc:17 | a minus sign followed by digits converts to the negated value |
| Numerals.Decimal | src/infra/stime.cc:92 | the decimal numeral of n reads back as n, and it has one digit exactly when n < 10 |
| STimeOfDay.Scan | src/infra/stime.cc:13-47 | the reading stops with "no hours" exactly when `strtol` converts nothing at the cursor; an accepted reading ends after a digit |
| STimeOfDay.ScanHoursMinutes | src/infra/stime.cc:13-47 | `H<sep>M` not followed by sep is accepted as H and M, with the cursor just after M |
| STimeOfDay.ScanHoursMinutesSeconds | src/infra/stime.cc:36-46 | `H<sep>M<sep>S` is accepted as H, M and S, with the cursor just after S |
| STimeOfDay.ScanHoursNotFollowedBySep | src/infra/stime.cc:22-27 | hours not followed by sep are rejected at the offending character |
| STimeOfDay.ScanMissingMinutes | src/infra/stime.cc:28-33 | a sep not followed by a number is rejected just past the sep |
| STimeOfDay.ScanMissingSeconds | src/infra/stime.cc:36-42 | a second sep not followed by a number is rejected just past that sep, with the hours and minutes counted |
| STimeOfDay.ScanUnchecked | src/infra/stime.cc:17-45 | signs are accepted and values are not range-checked: for any text, hours written as '-' and digits are read as the negated number, followed by any minutes |
| STimeOfDay.ScanUncheckedExample | src/infra/stime.cc:17-45 | an instance: "-1:75" is accepted as -1 hours and 75 minutes |
| STimeOfDay.FieldNumeral | src/infra/stime.cc:89-102 | a printed field has at least two digits, reads back as its value, and starts with '0' exactly when the value is below 10 |
| STimeOfDay.FormatScans | src/infra/stime.cc:86-105 | what `print` writes is read back by `set` as the same hour, minute and second |
| STimeOfDay.STime.constructor | src/infra/stime.cc:3-11 | starts at 0 seconds and leaves the seconds `set` computes on the text |
| STimeOfDay.STime.Set | src/infra/stime.cc:13-47 | returns true exactly when the text is accepted; at every exit point the seconds and the cursor are those of the fields read so far, with the seconds unchanged when no number is found |
| STimeOfDay.STime.SimpleSet | src/infra/stime.cc:49-84 | the same result and seconds as `set` on the same text, from its start |
| STimeOfDay.STime.Print | src/infra/stime.cc:86-105 | appends hour, minute and second separated by sep, each zero-padded to two digits |
| STimeOfDay.OStream.Write | src/infra/stime.cc:90-102 | a write appends its text to the stream |
| BitSubsets.SubmasksMember | src/infra/main_designmatrix.cc:72-76 | the enumeration of the submasks of c holds s exactly when the bits of s are among those of c |
| BitSubsets.SubmasksIncreasing | src/infra/main_designmatrix.cc:72-76 | the enumeration is strictly increasing, so each submask comes exactly once |
| BitSubsets.SubmasksCount | src/infra/main_designmatrix.cc:72-76 | there are 2^popcount(c) submasks |
| BitSubsets.SubmasksBound | src/infra/main_designmatrix.cc:72-76 | every submask is at most c |
| BitSubsets.Complement | src/infra/main_designmatrix.cc:73 | the complement of a row index within z bits is below 2^z |
| BitSubsets.ComplementIsMasked | src/infra/main_designmatrix.cc:67-73 | `~i & lMask` in 32 bits is the z-bit complement of i |
| BitSubsets.OffsetColumn | src/infra/main_designmatrix.cc:74 | for each offset s of row i, `i | s` is i + s, lies inside the matrix, and `i ^ (i | s)` is s |
| BitSubsets.SupersetIsOffset | src/infra/main_designmatrix.cc:65-79 | j is a superset of i exactly when j = i + s for an offset s of row i, so the loops set exactly the supersets |
| BitSubsets.SubsetTriangular | src/infra/main_designmatrix.cc:65-79 | the design matrix has a unit diagonal and is upper triangular |
| BitSubsets.IdxSetIsSubset | src/infra/main_designmatrix.cc:1389-1392 | `idx_set_is_subset(i, j)` holds exactly when the bits of j are among those of i |
| BitSubsets.CinvIsNegative | src/infra/main_designmatrix.cc:771-774 | `cinv_is_negative(i, j)` holds exactly when `i ^ j` has an odd number of bits |
| BitSubsets.CinvSign | src/infra/main_designmatrix.cc:771-774 | for s a submask of the complement of i, `cinv_is_negative(i, i | s)` holds exactly when s has an odd number of bits |
| SubsetTransform.TransformLinear | src/infra/main_designmatrix.cc:1091-1108 | both transforms are linear, which lets the recursive procedures accumulate halves |
| SubsetTransform.RoundTrip | src/infra/main_designmatrix.cc:835-862 | the signed transform undoes the superset sum and vice versa |
| SubsetTransform.InverseOfOnes | src/infra/main_designmatrix.cc:843-858 | the signed sums of the inverse's rows are 0 for every row but the last, which sums to 1 |
| SubsetTransform.GatherConcat | src/infra/main_designmatrix.cc:1056-1068 | a row sum over two runs of offsets is the sum of the two |
| SubsetTransform.RowIsTransform | src/infra/main_designmatrix.cc:1055-1070 | the row sum over the submasks of the complement of i, signed or not, is entry i of the transform |
| DesignMatrix.RowsAreTransform | src/infra/main_designmatrix.cc:1055-1070 | a vector whose every entry is its row sum is the transform |
| DesignMatrix.RowComplement | src/infra/main_designmatrix.cc:73 | `~i & lMask` is the complement of i |
| DesignMatrix.NegativeSign | src/infra/main_designmatrix.cc:792-796 | the sign chosen by `cinv_is_negative` is the sign (-1)^popcount(s) of the inverse |
| DesignMatrix.OddBits | src/infra/main_designmatrix.cc:855 | `number_of_bits_set(s) & 0x1` is 1 exactly when s has an odd number of bits |
| DesignMatrix.FullDesignMatrix | src/infra/main_designmatrix.cc:65-79 | builds a 2^z × 2^z matrix with A(i, j) = 1 exactly when i is a subset of j, and 0 elsewhere (the matrix test3 builds from `idx_set_is_subset`) |
| DesignMatrix.SetRow | src/infra/main_designmatrix.cc:73-77 | on a zero row i, writes 1 exactly in the columns that are supersets of i and leaves every other row unchanged |
| DesignMatrix.SetColumn | src/infra/main_designmatrix.cc:1424-1426 | writes `idx_set_is_subset(i, j)` into B(j, i) for every row j, which is 1 exactly when j is a subset of i, and leaves every other column unchanged |
| DesignMatrix.ContainmentMatrix | src/infra/main_designmatrix.cc:1421-1427 | the matrix B of `test3` has B(i, j) = 1 exactly when i is a subset of j: the entries `FullDesignMatrix` promises |
| DesignMatrix.SameEntries | src/infra/main_designmatrix.cc:1432 | the comparison `A.equalUpTo(B, 0)` holds exactly when the shapes and all entries agree |
| DesignMatrix.Test3 | src/infra/main_designmatrix.cc:1395-1433 | `test3` always finds the two matrices equal, for every z ≤ 30 |
| DesignMatrix.ConvertGamma2Beta | src/infra/main_designmatrix.cc:1044-1071 | beta[i] is the sum of gamma[j] over the supersets j of i, that is A·gamma |
| DesignMatrix.Gamma2BetaRow | src/infra/main_designmatrix.cc:1057-1068 | the row loop returns the sum of gamma over the supersets of i, entry i of C·gamma |
| DesignMatrix.CinvxA | src/infra/main_designmatrix.cc:776-801 | the result is the inverse of A applied to b |
| DesignMatrix.CinvxARow | src/infra/main_designmatrix.cc:789-799 | the row loop returns the signed row sum of C^-1·b at i, with every index i \| s inside the vector |
| DesignMatrix.CinvxB | src/infra/main_designmatrix.cc:803-833 | the same vector, with the sign taken from the bit count of the offset |
| DesignMatrix.CinvxBRow | src/infra/main_designmatrix.cc:818-831 | the same row sum, the sign taken from the parity of the submask |
| DesignMatrix.ConvertBeta2Gamma | src/infra/main_designmatrix.cc:835-862 | the same vector, with the sign taken from a two-entry factor table |
| DesignMatrix.Beta2GammaRow | src/infra/main_designmatrix.cc:851-860 | the same row sum, the sign looked up in the factor table |
| DesignMatrix.AddAtBlocks | src/infra/main_designmatrix.cc:1104-1107 | adding the three sub-blocks of the recursion in order adds the combined block |
| DesignMatrix.AddAtZeros | src/infra/main_designmatrix.cc:1083-1088 | adding a block into the zeroed vector gives the block |
| DesignMatrix.Transform2 | src/infra/main_designmatrix.cc:1077-1081 | for one factor the transforms are (b0 + b1, b1) and (b0 - b1, b1) |
| DesignMatrix.BaseBlock | src/infra/main_designmatrix.cc:1098-1101 | four in-place `+=` updates add a four-entry block and change nothing else |
| DesignMatrix.Block4IsTransform | src/infra/main_designmatrix.cc:1097-1102 | the four explicit sums of the base case are the transform of a block of four |
| DesignMatrix.BlockChain | src/infra/main_designmatrix.cc:1104-1107 | the three recursive calls on the half blocks together add the transform of the whole block |
| DesignMatrix.BlockFold | src/infra/main_designmatrix.cc:1104-1107 | the transform of a block is the combination of the transforms of its halves |
| DesignMatrix.ConvertGamma2BetaRec | src/infra/main_designmatrix.cc:1075-1089 | for z ≥ 1 the recursive form computes the same A·b as `convertGamma2Beta` |
| DesignMatrix.ConvertGamma2BetaRecSub | src/infra/main_designmatrix.cc:1091-1108 | adds the superset sum of the block of b at j into x at i and changes nothing else |
| DesignMatrix.Gamma2BetaBase | src/infra/main_designmatrix.cc:1097-1102 | the four written-out updates add the two-factor block C·b[j..j+4] into x at i and change nothing else |
| DesignMatrix.ConvertBeta2GammaRec | src/infra/main_designmatrix.cc:867-881 | for z ≥ 1 the recursive form computes the same inverse as `convertBeta2Gamma` |
| DesignMatrix.ConvertBeta2GammaRecPos | src/infra/main_designmatrix.cc:883-900 | adds the signed transform of the block of b at j into x at i and changes nothing else |
| DesignMatrix.Beta2GammaBasePos | src/infra/main_designmatrix.cc:889-894 | the four written-out updates add the two-factor block C^-1·b[j..j+4] into x at i and change nothing else |
| DesignMatrix.ConvertBeta2GammaRecNeg | src/infra/main_designmatrix.cc:902-919 | subtracts the signed transform of the block of b at j from x at i and changes nothing else |
| DesignMatrix.Beta2GammaBaseNeg | src/infra/main_designmatrix.cc:908-913 | the four written-out updates take the two-factor block C^-1·b[j..j+4] away from x at i and change nothing else |
| AddOps.RowEntriesCount | src/infra/main_designmatrix.cc:1898 | row i of the matrix has `1 << popcount(~i & lMask)` ones |
| AddOps.RowOpsAreEntriesMinusOne | src/infra/main_designmatrix.cc:1893-1900 | the additions of row i are one fewer than the supersets of i |
| AddOps.EntriesAreOpsPlusRows | src/infra/main_designmatrix.cc:1896-1899 | the ones of the first k rows are their additions plus k |
| AddOps.EntriesLowerHalf | src/infra/main_designmatrix.cc:65-79 | the first rows of the lower half have twice the ones they have one factor down |
| AddOps.EntriesUpperHalf | src/infra/main_designmatrix.cc:65-79 | the upper half of the matrix repeats the matrix of one factor fewer |
| AddOps.EntriesAll | src/infra/main_designmatrix.cc:65-79 | the design matrix of z factors has 3^z ones |
| AddOps.AllOps | src/infra/main_designmatrix.cc:1890-1900 | the additions summed over all rows are 3^z - 2^z: the ones of the matrix minus one per row |
| AddOps.RowAdditions | src/infra/main_designmatrix.cc:1898 | `(1 << popcount(~i & lMask)) - 1` in 64 bits is the number of additions of row i |
| AddOps.RowOpsByPopcount | src/infra/main_designmatrix.cc:1898 | the additions of row i are 2^popcount(complement of i) - 1, below 2^64 for z ≤ 63 |
| AddOps.NoAddOpForCx | src/infra/main_designmatrix.cc:1891-1901 | `fNoAddOpForCx(z)` returns 3^z - 2^z modulo 2^64 |
| AddOps.CounterStep | src/infra/main_designmatrix.cc:1898 | a 64-bit counter that has wrapped keeps the total modulo 2^64 |
| AddOps.Factorized | src/infra/main_designmatrix.cc:1903-1912 | the block recursion 0, 1, then 2·F(z-1) + 2^(z-1) on a 64-bit counter, with its wrap kept; up to 59 factors the counter does not wrap and holds the exact count `BlockAdditions(z)` |
| AddOps.BlockAdditionsClosed | src/infra/main_designmatrix.cc:1903-1912 | the exact block count, without a word size, is z·2^(z-1) |
| AddOps.FactorizedIsClosed | src/infra/main_designmatrix.cc:1903-1912 | `fNoAddOpForCxFactorized(z)` is z·2^(z-1) modulo 2^64 for 1 ≤ z ≤ 64 |
| AddOps.FactorizedStep | src/infra/main_designmatrix.cc:1911 | one step of the recursion keeps the closed form |
| AddOps.ClosedAsWritten | src/infra/main_designmatrix.cc:1914-1917 | the closed form as written is a 32-bit value |
| AddOps.ClosedAsWrittenBelow29 | src/infra/main_designmatrix.cc:1914-1917 | for 1 ≤ z ≤ 28, the closed form as written equals the recursive count |
| AddOps.ClosedAsWrittenWraps | src/infra/main_designmatrix.cc:1914-1917 | at z = 29 the closed form as written gives 3489660928 where the recursive count is 7784628224 |
| AddOps.FactorizedClosed | src/infra/main_designmatrix.cc:1914-1917 | the closed form in 64 bits equals the recursive count for every 1 ≤ z ≤ 64 |
| AddOps.FactorizedNeverMore | src/infra/main_designmatrix.cc:1890-1917 | the block form never needs more additions than the row form: z·2^(z-1) ≤ 3^z - 2^z |

## Left out

- `listFragmentsJump` and `cbjumpfun_t` (src/Hilbert/ZCurve.hh:26, 66-67) are declared without a body, so there is nothing to model.
- Trace output in `listFragmentsSub`, the `aTrace` and `aIndent` arguments, and the `operator<<` overloads are output only.
- The 64-bit instantiation of `ZCurve` is not modelled. Its `d2xy` binds 32-bit locals to `Tuint&`, and its halves are 32-bit, so it does not compile.
- ZCurveFragments.ListFragmentsSub: the count is an unbounded number; the 32-bit wrap of `lCount` is not modelled. The call bound `Calls < 2^(L+2)` keeps the count below 2^34.
- ZCurveFragments.ListAllPointOnce: exact coverage is stated point by point; the sum of the fragment sizes is not stated as the rectangle's area.
- `1 << aLevel` at src/Hilbert/ZCurve.hh:292 is a signed shift. At level 31 it is taken as 2^31, the value the 32-bit word holds.
- Numerals.Strtol: the overflow saturation of `strtol` (LONG_MAX/LONG_MIN and `errno`) and the narrowing of `long` to `int` are not modelled; values are unbounded integers.
- STimeOfDay.STime.Set: a sep equal to the terminating NUL is excluded (`sep != NUL`). With that sep, a field that ends at the terminator matches the sep, and the C++ moves its cursor past the terminator and reads beyond the string, which is undefined. (When a field is followed by another character, the text is rejected at stime.cc:24 and nothing past the end is read; the model leaves out this case as well.)
- STimeOfDay.STime.SimpleSet: requires `sep != NUL`, for the same reason as `STime.Set`.
- STimeOfDay.STime.constructor: requires `sep != NUL`, because it calls `set`; the reason is the one given for `STime.Set`.
- STimeOfDay.STime.Set: the `int` products `v * 3600` and `v * 60` and the sums into `_val` (stime.cc:22, 34, 43, and 59, 71, 80 in `simple_set`) can overflow: `v * 3600` does once the hours exceed 596523 in magnitude, and the sums can for smaller hours when the minutes or seconds are large. The model computes them as unbounded integers. The same holds for `STime.SimpleSet` and the constructor.
- STimeOfDay.STime.Print: `hour()`, `minute()` and `second()` live in stime.hh, which is not part of this model. The three values are parameters, and only their formatting is modelled.
- The diagnostics written to `std::cerr` by `set` and `simple_set` are not modelled.
- The `Matrix` class, the floating-point numerics (inverse, Moore–Penrose, Cholesky, SVD, LDL, quadratic forms, irreducibility), printing, timing, `parse_args` and `main` of main_designmatrix.cc are left out. Vectors hold exact integers where the C++ uses `double`.
- BitSubsets.Submasks: `BvAllSubsets` (bit_subsets.hh) is not part of this model. Its order is taken as increasing. Every result stated here is independent of the order except the order of additions.
- DesignMatrix.Beta2GammaRow: the factor table `{1.0, -1.0}` is a local of the row method rather than of the whole call; its values are the same.
- DesignMatrix.FullDesignMatrix: z ≤ 30 is required so that `1 << z` is a positive `int`.
- DesignMatrix.ConvertGamma2BetaRec: requires 1 ≤ z ≤ 30. At z = 0 the C++ recurses with `1 << (0 - 1)`.
- DesignMatrix.ConvertGamma2BetaRecSub: the block procedures require z ≥ 2, the level at which the C++ stops. They are only called with such levels.
- DesignMatrix.ConvertBeta2GammaRecPos: requires z ≥ 2, as for `ConvertGamma2BetaRecSub`.
- DesignMatrix.ConvertBeta2GammaRecNeg: requires z ≥ 2, as for `ConvertGamma2BetaRecSub`.
- AddOps.NoAddOpForCx: requires z ≤ 63, since `(uint64_t) 1 << 64` is undefined.
- AddOps.ClosedAsWritten: it is defined for 1 ≤ z ≤ 31 only. At z = 0, `z - 1` wraps to 4294967295 because z is an unsigned `uint`, a shift count out of range; at z = 32 `1 << 31` overflows `int`.
- DesignMatrix.SameEntries: `Matrix::equalUpTo` belongs to the `Matrix` library, which is not part of this model. Its meaning is assumed: the same shape, and every pair of entries within the tolerance (`<= eps`), which at tolerance 0 and on integers is equality. The source's own `assert(M.equalUpTo(M1, 0))` (main_designmatrix.cc:1356, 1370) is read the same way.
- The test drivers other than `test3` compare results at run time. Their comparisons appear as lemmas, not as procedures: for `testNoAddOpForCx` these are `AddOps.ClosedAsWrittenBelow29` and `AddOps.FactorizedNeverMore`, and for the inversion checks `SubsetTransform.RoundTrip`. `test3` is modelled as the method `DesignMatrix.Test3`, without its trace output.

## Findings

| source | as written | input that shows it | evidently intended | confidence | as-written member | corrected member |
|---|---|---|---|---|---|---|
| src/infra/main_designmatrix.cc:1914-1917 | `z*(1 << (z-1))` multiplies an `unsigned int` by an `int`, so the product is taken modulo 2^32 before it is widened to the `uint64_t` result | z = 29: the result is 3489660928, while `fNoAddOpForCxFactorized(29)` is 29·2^28 = 7784628224 | the product computed in 64 bits, equal to `fNoAddOpForCxFactorized(z)` for every z | not executed | AddOps.ClosedAsWritten, AddOps.ClosedAsWrittenWraps | AddOps.FactorizedClosed |
