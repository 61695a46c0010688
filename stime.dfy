/**
 * Numerals and the C library's `strtol` in base 10 (section 7.22.1.4 of
 * ISO/IEC 9899:2011), on a C string: a `string` whose characters past its
 * end read as the terminating NUL.
 */
module Numerals {

  const NUL: char := '\0'

  /** The character at position i of the C string s (its terminator past the end). */
  function At(s: string, i: nat): char
  {
    if i < |s| then s[i] else NUL
  }

  /** `isspace` in the "C" locale. */
  predicate IsSpace(c: char)
  {
    c == ' ' || c == '\t' || c == '\n' || c == '\U{0B}' || c == '\U{0C}' || c == '\r'
  }

  predicate IsDigit(c: char)
  {
    '0' <= c <= '9'
  }

  /** The characters s[j..e] are all decimal digits. */
  predicate AllDigits(s: string, j: nat, e: nat)
    requires j <= e <= |s|
  {
    forall k :: j <= k < e ==> IsDigit(s[k])
  }

  /** A nonempty sequence of decimal digits. */
  predicate IsNumeral(ds: string)
  {
    |ds| > 0 && AllDigits(ds, 0, |ds|)
  }

  function DigitOf(d: nat): (c: char)
    requires d < 10
    ensures IsDigit(c)
  {
    ('0' as int + d) as char
  }

  function ValueOfDigit(c: char): (d: nat)
    requires IsDigit(c)
    ensures d < 10 && DigitOf(d) == c
  {
    c as int - '0' as int
  }

  /** The number the decimal digits s[j..e] stand for, most significant digit first. */
  function ValueOf(s: string, j: nat, e: nat): nat
    requires j <= e <= |s| && AllDigits(s, j, e)
    decreases e - j
  {
    if e == j then 0 else 10 * ValueOf(s, j, e - 1) + ValueOfDigit(s[e - 1])
  }

  /** The number a numeral stands for. */
  function Value(ds: string): nat
    requires IsNumeral(ds)
  {
    ValueOf(ds, 0, |ds|)
  }

  /** The position of the first character at or after i that is not white space. */
  function SkipSpaces(s: string, i: nat): (j: nat)
    requires i <= |s|
    ensures i <= j <= |s| && !IsSpace(At(s, j))
    decreases |s| - i
  {
    if i < |s| && IsSpace(s[i]) then SkipSpaces(s, i + 1) else i
  }

  /** The end of the run of digits that starts at i. */
  function DigitsEnd(s: string, i: nat): (j: nat)
    requires i <= |s|
    ensures i <= j <= |s| && !IsDigit(At(s, j))
    ensures i < j ==> IsDigit(s[j - 1])
    decreases |s| - i
  {
    if i < |s| && IsDigit(s[i]) then DigitsEnd(s, i + 1) else i
  }

  lemma {:induction false} DigitsEndDigits(s: string, i: nat)
    requires i <= |s|
    ensures AllDigits(s, i, DigitsEnd(s, i))
    decreases |s| - i
  {
    if i < |s| && IsDigit(s[i]) {
      DigitsEndDigits(s, i + 1);
    }
  }

  /** What `strtol` gives back: the value and the position its end pointer is set to. */
  datatype Conversion = Conversion(value: int, end: nat)

  /**
   * `strtol(s + start, &end, 10)`: white space is skipped, then an optional
   * sign, then the longest run of decimal digits. When there are no digits
   * no conversion is performed: the value is 0 and the end pointer is the
   * start pointer, before any white space or sign that was skipped.
   */
  function Strtol(s: string, start: nat): (r: Conversion)
    requires start <= |s|
    ensures r.end == start || start < r.end <= |s|
    ensures r.end == start ==> r.value == 0
    ensures r.end != start ==> IsDigit(s[r.end - 1]) && !IsDigit(At(s, r.end))
  {
    var i := SkipSpaces(s, start);
    var negative := At(s, i) == '-';
    var j := if At(s, i) == '-' || At(s, i) == '+' then i + 1 else i;
    var e := DigitsEnd(s, j);
    if e == j then Conversion(0, start)
    else
      DigitsEndDigits(s, j);
      var v: int := ValueOf(s, j, e);
      Conversion(if negative then -v else v, e)
  }

  // ---------------------------------------------------------------------
  // Facts about numerals and strtol

  /** A run of digits that ends where the digits end is read in full by `strtol`. */
  lemma {:induction false} DigitsEndOfRun(s: string, i: nat, e: nat)
    requires i <= e <= |s| && !IsDigit(At(s, e))
    requires forall k :: i <= k < e ==> IsDigit(s[k])
    ensures DigitsEnd(s, i) == e
    decreases e - i
  {
    if i < e {
      DigitsEndOfRun(s, i + 1, e);
    }
  }

  /**
   * `strtol` at the first digit of a run of digits that the text does not
   * continue with a further digit reads exactly that run.
   */
  lemma StrtolNumeral(s: string, start: nat, e: nat)
    requires start < e <= |s| && AllDigits(s, start, e) && !IsDigit(At(s, e))
    ensures Strtol(s, start) == Conversion(ValueOf(s, start, e), e)
  {
    DigitsEndOfRun(s, start, e);
  }

  /** `strtol` performs no conversion when the text holds no digit after its white space and sign. */
  lemma StrtolNoDigits(s: string, start: nat)
    requires start <= |s|
    requires var i := SkipSpaces(s, start);
      !IsDigit(At(s, i)) && ((At(s, i) == '-' || At(s, i) == '+') ==> !IsDigit(At(s, i + 1)))
    ensures Strtol(s, start) == Conversion(0, start)
  {
  }

  /** A leading minus sign negates what `strtol` reads. */
  lemma StrtolNegative(s: string, start: nat, e: nat)
    requires start + 1 < e <= |s| && s[start] == '-'
    requires AllDigits(s, start + 1, e) && !IsDigit(At(s, e))
    ensures Strtol(s, start) == Conversion(-(ValueOf(s, start + 1, e) as int), e)
  {
    DigitsEndOfRun(s, start + 1, e);
  }

  /** The value of digits depends only on the digits: the same digits elsewhere have the same value. */
  lemma {:induction false} ValueOfShift(s: string, j: nat, e: nat, t: string, d: nat)
    requires j <= e <= |s| && e + d <= |t| && AllDigits(s, j, e)
    requires forall k :: j <= k < e ==> t[k + d] == s[k]
    ensures AllDigits(t, j + d, e + d)
    ensures ValueOf(t, j + d, e + d) == ValueOf(s, j, e)
    decreases e - j
  {
    assert forall k :: j + d <= k < e + d ==> t[k] == s[k - d];
    if e > j {
      ValueOfShift(s, j, e - 1, t, d);
    }
  }

  // ---------------------------------------------------------------------
  // Decimal formatting

  /** The decimal numeral of n, without leading zeros (`os << n` for an unsigned n). */
  function Decimal(n: nat): (ds: string)
    ensures IsNumeral(ds) && Value(ds) == n
    ensures |ds| == 1 <==> n < 10
  {
    if n < 10 then
      var ds := [DigitOf(n)];
      assert ValueOf(ds, 0, 0) == 0 && ValueOfDigit(ds[0]) == n;
      ds
    else
      var r := Decimal(n / 10);
      var ds := r + [DigitOf(n % 10)];
      ValueOfShift(r, 0, |r|, ds, 0);
      ds
  }

  /** A leading zero does not change the value of a numeral. */
  lemma ValueLeadingZero(ds: string)
    requires IsNumeral(ds)
    ensures IsNumeral(['0'] + ds) && Value(['0'] + ds) == Value(ds)
  {
    var zs := ['0'] + ds;
    ValueOfShift(ds, 0, |ds|, zs, 1);
    LeadingZeros(zs, 1);
  }

  /** Leading zeros do not change the value of digits. */
  lemma {:induction false} LeadingZeros(s: string, j: nat)
    requires j <= |s| && AllDigits(s, 0, |s|)
    requires forall k :: 0 <= k < j ==> s[k] == '0'
    ensures ValueOf(s, 0, |s|) == ValueOf(s, j, |s|)
  {
    ValueOfPrefixZero(s, j, |s|);
  }

  lemma {:induction false} ValueOfPrefixZero(s: string, j: nat, e: nat)
    requires j <= e <= |s| && AllDigits(s, 0, e)
    requires forall k :: 0 <= k < j ==> s[k] == '0'
    ensures ValueOf(s, 0, e) == ValueOf(s, j, e)
    decreases e
  {
    if e > j {
      ValueOfPrefixZero(s, j, e - 1);
    } else if e > 0 {
      ValueOfPrefixZero(s, e - 1, e - 1);
    }
  }
}

/**
 * The time of day of src/infra/stime.cc: `STime` holds a number of seconds
 * `_val`, which `set` and `simple_set` compute from text of the form
 * H<sep>M or H<sep>M<sep>S, and which `print` writes out as zero-padded
 * fields.
 */
module STimeOfDay {
  import opened Numerals

  /** How far `STime::set` gets through its text, and where it stops. */
  datatype SetOutcome =
    | NoHours                                                      // no number at the cursor
    | NoSepAfterHours(hours: int, at: nat)                         // the hours are not followed by sep
    | NoMinutes(hours: int, at: nat)                               // no number after the first sep
    | HoursMinutes(hours: int, minutes: int, end: nat)             // H<sep>M, not followed by sep
    | NoSeconds(hours: int, minutes: int, at: nat)                 // no number after the second sep
    | HoursMinutesSeconds(hours: int, minutes: int, seconds: int, end: nat)
  {
    /** The text was accepted. */
    predicate Accepted()
    {
      HoursMinutes? || HoursMinutesSeconds?
    }
  }

  /**
   * The reading of the text s from position x: up to three numbers as
   * `strtol` reads them, separated by single `sep` characters.
   */
  function Scan(s: string, x: nat, sep: char): (o: SetOutcome)
    requires x <= |s| && sep != NUL
    ensures o.NoHours? <==> Strtol(s, x).end == x
    ensures o.Accepted() ==> x < o.end <= |s| && IsDigit(s[o.end - 1])
  {
    var h := Strtol(s, x);
    if h.end == x then NoHours
    else if At(s, h.end) != sep then NoSepAfterHours(h.value, h.end)
    else
      var m := Strtol(s, h.end + 1);
      if m.end == h.end + 1 then NoMinutes(h.value, h.end + 1)
      else if At(s, m.end) != sep then HoursMinutes(h.value, m.value, m.end)
      else
        var sec := Strtol(s, m.end + 1);
        if sec.end == m.end + 1 then NoSeconds(h.value, m.value, m.end + 1)
        else HoursMinutesSeconds(h.value, m.value, sec.value, sec.end)
  }

  /** The reading of H<sep>M, from the two conversions `strtol` makes. */
  lemma ScanTwoFields(s: string, x: nat, sep: char, h: Conversion, m: Conversion)
    requires sep != NUL && x <= |s| && Strtol(s, x) == h && h.end != x && At(s, h.end) == sep
    requires h.end < |s| && Strtol(s, h.end + 1) == m && m.end != h.end + 1 && At(s, m.end) != sep
    ensures Scan(s, x, sep) == HoursMinutes(h.value, m.value, m.end)
  {
  }

  /** Hours h already read up to a sep at e1, then digits up to e2 not followed by sep: H<sep>M. */
  lemma ScanAfterHours(s: string, x: nat, sep: char, h: int, e1: nat, e2: nat)
    requires sep != NUL && !IsDigit(sep) && x < e1 && e1 + 1 < e2 <= |s| && s[e1] == sep
    requires Strtol(s, x) == Conversion(h, e1)
    requires AllDigits(s, e1 + 1, e2) && At(s, e2) != sep && !IsDigit(At(s, e2))
    ensures Scan(s, x, sep) == HoursMinutes(h, ValueOf(s, e1 + 1, e2), e2)
  {
    var m := Conversion(ValueOf(s, e1 + 1, e2), e2);
    StrtolNumeral(s, e1 + 1, e2);
    ScanTwoFields(s, x, sep, Conversion(h, e1), m);
  }

  /** The reading of H<sep>M<sep> with no number after the second sep. */
  lemma ScanNoThirdField(s: string, x: nat, sep: char, h: Conversion, m: Conversion)
    requires sep != NUL && x <= |s| && Strtol(s, x) == h && h.end != x && At(s, h.end) == sep
    requires h.end < |s| && Strtol(s, h.end + 1) == m && m.end != h.end + 1 && At(s, m.end) == sep
    requires m.end < |s| && Strtol(s, m.end + 1).end == m.end + 1
    ensures Scan(s, x, sep) == NoSeconds(h.value, m.value, m.end + 1)
  {
  }

  /** The reading of H<sep>M<sep>S, from the three conversions `strtol` makes. */
  lemma ScanThreeFields(s: string, x: nat, sep: char, h: Conversion, m: Conversion, sec: Conversion)
    requires sep != NUL && x <= |s| && Strtol(s, x) == h && h.end != x && At(s, h.end) == sep
    requires h.end < |s| && Strtol(s, h.end + 1) == m && m.end != h.end + 1 && At(s, m.end) == sep
    requires m.end < |s| && Strtol(s, m.end + 1) == sec && sec.end != m.end + 1
    ensures Scan(s, x, sep) == HoursMinutesSeconds(h.value, m.value, sec.value, sec.end)
  {
  }

  /**
   * A text that holds H<sep>M at position x, where M is not followed by a
   * further digit or by sep, is accepted as H hours and M minutes, with the
   * cursor just after M.
   */
  lemma ScanHoursMinutes(s: string, x: nat, sep: char, e1: nat, e2: nat)
    requires sep != NUL && !IsDigit(sep)
    requires x < e1 && e1 + 1 < e2 <= |s| && s[e1] == sep
    requires AllDigits(s, x, e1) && AllDigits(s, e1 + 1, e2)
    requires At(s, e2) != sep && !IsDigit(At(s, e2))
    ensures Scan(s, x, sep) == HoursMinutes(ValueOf(s, x, e1), ValueOf(s, e1 + 1, e2), e2)
  {
    StrtolNumeral(s, x, e1);
    ScanAfterHours(s, x, sep, ValueOf(s, x, e1), e1, e2);
  }

  /**
   * A text that holds H<sep>M<sep>S at position x, where S is not followed
   * by a further digit, is accepted as H hours, M minutes and S seconds,
   * with the cursor just after S.
   */
  lemma ScanHoursMinutesSeconds(s: string, x: nat, sep: char, e1: nat, e2: nat, e3: nat)
    requires sep != NUL && !IsDigit(sep)
    requires x < e1 && e1 + 1 < e2 && e2 + 1 < e3 <= |s| && s[e1] == sep && s[e2] == sep
    requires AllDigits(s, x, e1) && AllDigits(s, e1 + 1, e2) && AllDigits(s, e2 + 1, e3)
    requires !IsDigit(At(s, e3))
    ensures Scan(s, x, sep) == HoursMinutesSeconds(ValueOf(s, x, e1), ValueOf(s, e1 + 1, e2), ValueOf(s, e2 + 1, e3), e3)
  {
    var h, m := Conversion(ValueOf(s, x, e1), e1), Conversion(ValueOf(s, e1 + 1, e2), e2);
    var sec := Conversion(ValueOf(s, e2 + 1, e3), e3);
    StrtolNumeral(s, x, e1);
    StrtolNumeral(s, e1 + 1, e2);
    StrtolNumeral(s, e2 + 1, e3);
    ScanThreeFields(s, x, sep, h, m, sec);
  }

  /**
   * Hours followed by a character other than sep (or by the end of the
   * text) are rejected with the cursor on that character.
   */
  lemma ScanHoursNotFollowedBySep(s: string, x: nat, sep: char, e1: nat)
    requires sep != NUL && x < e1 <= |s| && AllDigits(s, x, e1)
    requires At(s, e1) != sep && !IsDigit(At(s, e1))
    ensures Scan(s, x, sep) == NoSepAfterHours(ValueOf(s, x, e1), e1)
  {
    StrtolNumeral(s, x, e1);
  }

  /**
   * Minutes missing after the first sep: the text is rejected with the
   * hours counted and the cursor just after the sep.
   */
  lemma ScanMissingMinutes(s: string, x: nat, sep: char, e1: nat)
    requires sep != NUL && !IsDigit(sep)
    requires x < e1 < |s| && AllDigits(s, x, e1) && s[e1] == sep
    requires !IsSpace(At(s, e1 + 1)) && !IsDigit(At(s, e1 + 1)) && At(s, e1 + 1) != '-' && At(s, e1 + 1) != '+'
    ensures Scan(s, x, sep) == NoMinutes(ValueOf(s, x, e1), e1 + 1)
  {
    StrtolNumeral(s, x, e1);
    StrtolNoDigits(s, e1 + 1);
  }

  /**
   * Seconds missing after the second sep: the text is rejected with the
   * hours and minutes counted and the cursor just after that sep.
   */
  lemma ScanMissingSeconds(s: string, x: nat, sep: char, e1: nat, e2: nat)
    requires sep != NUL && !IsDigit(sep)
    requires x < e1 && e1 + 1 < e2 < |s| && s[e1] == sep && s[e2] == sep
    requires AllDigits(s, x, e1) && AllDigits(s, e1 + 1, e2)
    requires !IsSpace(At(s, e2 + 1)) && !IsDigit(At(s, e2 + 1)) && At(s, e2 + 1) != '-' && At(s, e2 + 1) != '+'
    ensures Scan(s, x, sep) == NoSeconds(ValueOf(s, x, e1), ValueOf(s, e1 + 1, e2), e2 + 1)
  {
    var h, m := Conversion(ValueOf(s, x, e1), e1), Conversion(ValueOf(s, e1 + 1, e2), e2);
    StrtolNumeral(s, x, e1);
    StrtolNumeral(s, e1 + 1, e2);
    StrtolNoDigits(s, e2 + 1);
    ScanNoThirdField(s, x, sep, h, m);
  }

  /**
   * Signs are accepted and field values are not range-checked: hours
   * written with a leading '-' are read as a negative number, and the
   * minutes as whatever number follows the sep.
   */
  lemma ScanUnchecked(s: string, x: nat, sep: char, e1: nat, e2: nat)
    requires sep != NUL && !IsDigit(sep)
    requires x + 1 < e1 && e1 + 1 < e2 <= |s| && s[x] == '-' && s[e1] == sep
    requires AllDigits(s, x + 1, e1) && AllDigits(s, e1 + 1, e2)
    requires At(s, e2) != sep && !IsDigit(At(s, e2))
    ensures Scan(s, x, sep) == HoursMinutes(-(ValueOf(s, x + 1, e1) as int), ValueOf(s, e1 + 1, e2), e2)
  {
    StrtolNegative(s, x, e1);
    ScanAfterHours(s, x, sep, -(ValueOf(s, x + 1, e1) as int), e1, e2);
  }

  /** An instance: "-1:75" is read as -1 hours and 75 minutes. */
  lemma ScanUncheckedExample()
    ensures Scan("-1:75", 0, ':') == HoursMinutes(-1, 75, 5)
  {
    var s := "-1:75";
    assert ValueOf(s, 1, 2) == 1;
    assert ValueOf(s, 3, 5) == 75 by {
      assert ValueOf(s, 3, 4) == 7;
    }
    ScanUnchecked(s, 0, ':', 2, 5);
  }

  // ---------------------------------------------------------------------
  // Formatting

  /** The '0' that `print` writes before a field below 10. */
  function Padding(n: nat): string
  {
    if 10 > n then "0" else ""
  }

  /** One field of `print`: the decimal numeral, with a leading '0' below 10. */
  function Field(n: nat): string
  {
    Padding(n) + Decimal(n)
  }

  /** A field is a numeral of at least two digits for n, led by '0' exactly when n is below 10. */
  lemma FieldNumeral(n: nat)
    ensures IsNumeral(Field(n)) && Value(Field(n)) == n && |Field(n)| >= 2
    ensures Field(n)[0] == '0' <==> n < 10
  {
    if n < 10 {
      ValueLeadingZero(Decimal(n));
    } else {
      assert Field(n) == Decimal(n);
      FirstDigitNonzero(n);
    }
  }

  /** A numeral without padding starts with '0' only for 0. */
  lemma {:induction false} FirstDigitNonzero(n: nat)
    requires n >= 10
    ensures Decimal(n)[0] != '0'
  {
    if n / 10 >= 10 {
      FirstDigitNonzero(n / 10);
    } else {
      assert Decimal(n / 10) == [DigitOf(n / 10)];
    }
  }

  lemma AppendEmpty(a: string)
    ensures a + "" == a
  {
  }

  lemma Assoc(a: string, b: string, c: string)
    ensures a + b + c == a + (b + c)
  {
  }

  /** What `print` writes: hours, minutes and seconds, each zero-padded to two digits, separated by sep. */
  function Format(h: nat, m: nat, s: nat, sep: char): string
  {
    Field(h) + [sep] + Field(m) + [sep] + Field(s)
  }

  /** The pieces `print` writes, one after the other, make up the formatted time. */
  lemma FormatPieces(h: nat, m: nat, s: nat, sep: char)
    ensures Padding(h) + (Decimal(h) + [sep]) + Padding(m) + (Decimal(m) + [sep]) + Padding(s) + Decimal(s)
         == Format(h, m, s, sep)
  {
    Assoc(Padding(h), Decimal(h), [sep]);
    var p := Field(h) + [sep];
    Assoc(p, Padding(m), Decimal(m));
    Assoc(p + Field(m), [sep], Field(s));
    var q := p + Field(m);
    Assoc(p + Padding(m), Decimal(m), [sep]);
    Assoc(q + [sep], Padding(s), Decimal(s));
  }

  /** A numeral copied into t at position j keeps its value there. */
  lemma ValueAt(ds: string, t: string, j: nat, e: nat)
    requires IsNumeral(ds) && e == j + |ds| <= |t|
    requires forall k :: 0 <= k < |ds| ==> t[j + k] == ds[k]
    ensures AllDigits(t, j, e) && ValueOf(t, j, e) == Value(ds)
  {
    ValueOfShift(ds, 0, |ds|, t, j);
  }

  /** The first numeral of a + [sep] + b + [sep] + c, and the separator after it. */
  lemma JoinedFirst(a: string, b: string, c: string, sep: char)
    requires IsNumeral(a)
    ensures var t := a + [sep] + b + [sep] + c;
      t[|a|] == sep && AllDigits(t, 0, |a|) && ValueOf(t, 0, |a|) == Value(a)
  {
    var t := a + [sep] + b + [sep] + c;
    assert forall k :: 0 <= k < |a| ==> t[0 + k] == a[k];
    ValueAt(a, t, 0, |a|);
  }

  /** The second numeral of a + [sep] + b + [sep] + c, and the separator after it. */
  lemma JoinedSecond(a: string, b: string, c: string, sep: char)
    requires IsNumeral(b)
    ensures var t := a + [sep] + b + [sep] + c;
      var e1 := |a|;
      var e2 := e1 + 1 + |b|;
      t[e2] == sep && AllDigits(t, e1 + 1, e2) && ValueOf(t, e1 + 1, e2) == Value(b)
  {
    var t := a + [sep] + b + [sep] + c;
    var e1 := |a|;
    assert forall k :: 0 <= k < |b| ==> t[e1 + 1 + k] == b[k];
    ValueAt(b, t, e1 + 1, e1 + 1 + |b|);
  }

  /** The third numeral of a + [sep] + b + [sep] + c. */
  lemma JoinedThird(a: string, b: string, c: string, sep: char)
    requires IsNumeral(c)
    ensures var t := a + [sep] + b + [sep] + c;
      var e2 := |a| + 1 + |b|;
      AllDigits(t, e2 + 1, |t|) && ValueOf(t, e2 + 1, |t|) == Value(c)
  {
    var t := a + [sep] + b + [sep] + c;
    var e2 := |a| + 1 + |b|;
    assert forall k :: 0 <= k < |c| ==> t[e2 + 1 + k] == c[k];
    ValueAt(c, t, e2 + 1, |t|);
  }

  /** Three numerals joined by sep scan back as hours, minutes and seconds. */
  lemma ScanJoined(a: string, b: string, c: string, sep: char)
    requires sep != NUL && !IsDigit(sep)
    requires IsNumeral(a) && IsNumeral(b) && IsNumeral(c)
    ensures var t := a + [sep] + b + [sep] + c;
      Scan(t, 0, sep) == HoursMinutesSeconds(Value(a), Value(b), Value(c), |t|)
  {
    JoinedFirst(a, b, c, sep);
    JoinedSecond(a, b, c, sep);
    JoinedThird(a, b, c, sep);
    ScanFields(a + [sep] + b + [sep] + c, sep, |a|, |a| + 1 + |b|, Value(a), Value(b), Value(c));
  }

  lemma ScanFields(t: string, sep: char, e1: nat, e2: nat, h: nat, m: nat, s: nat)
    requires sep != NUL && !IsDigit(sep)
    requires 0 < e1 && e1 + 1 < e2 && e2 + 1 < |t| && t[e1] == sep && t[e2] == sep
    requires AllDigits(t, 0, e1) && AllDigits(t, e1 + 1, e2) && AllDigits(t, e2 + 1, |t|)
    requires ValueOf(t, 0, e1) == h && ValueOf(t, e1 + 1, e2) == m && ValueOf(t, e2 + 1, |t|) == s
    ensures Scan(t, 0, sep) == HoursMinutesSeconds(h, m, s, |t|)
  {
    ScanHoursMinutesSeconds(t, 0, sep, e1, e2, |t|);
  }

  /** Reading back what `print` wrote gives the same hours, minutes and seconds. */
  lemma FormatScans(h: nat, m: nat, s: nat, sep: char)
    requires sep != NUL && !IsDigit(sep)
    ensures Scan(Format(h, m, s, sep), 0, sep) == HoursMinutesSeconds(h, m, s, |Format(h, m, s, sep)|)
  {
    FieldNumeral(h);
    FieldNumeral(m);
    FieldNumeral(s);
    ScanJoined(Field(h), Field(m), Field(s), sep);
  }

  // ---------------------------------------------------------------------
  // The class

  /** An output stream: the text written to it so far. */
  class OStream {
    var text: string

    constructor()
      ensures text == []
    {
      text := [];
    }

    method Write(t: string)
      modifies this
      ensures text == old(text) + t
    {
      text := text + t;
    }
  }

  /** `STime`: a time of day as a number of seconds. */
  class STime {
    var val: int

    /**
     * `STime(x, sep)`: 0 seconds, then `set` on the text x. A text that is
     * not accepted leaves what `set` had computed when it stopped.
     */
    constructor(x: string, sep: char)
      requires sep != NUL
      ensures match Scan(x, 0, sep)
        case NoHours => val == 0
        case NoSepAfterHours(h, _) => val == 3600 * h
        case NoMinutes(h, _) => val == 3600 * h
        case HoursMinutes(h, m, _) => val == 3600 * h + 60 * m
        case NoSeconds(h, m, _) => val == 3600 * h + 60 * m
        case HoursMinutesSeconds(h, m, sec, _) => val == 3600 * h + 60 * m + sec
    {
      val := 0;
      new;
      var _, _ := Set(x, 0, sep);
    }

    /**
     * `set(x, sep)`: the cursor x is a position in the C string s, passed
     * by reference; its new value is returned. Each number read is added to
     * `val` as soon as it is read, so a text that is rejected part way
     * leaves the seconds of the fields read so far.
     */
    method Set(s: string, x: nat, sep: char) returns (ok: bool, cursor: nat)
      requires x <= |s| && sep != NUL
      modifies this
      ensures ok <==> Scan(s, x, sep).Accepted()
      ensures match Scan(s, x, sep)
        case NoHours => val == old(val) && cursor == x
        case NoSepAfterHours(h, at) => val == 3600 * h && cursor == at
        case NoMinutes(h, at) => val == 3600 * h && cursor == at
        case HoursMinutes(h, m, end) => val == 3600 * h + 60 * m && cursor == end
        case NoSeconds(h, m, at) => val == 3600 * h + 60 * m && cursor == at
        case HoursMinutesSeconds(h, m, sec, end) => val == 3600 * h + 60 * m + sec && cursor == end
    {
      ghost var o := Scan(s, x, sep);
      cursor := x;
      var v := Strtol(s, cursor);
      if v.end == cursor {
        return false, cursor;
      }
      ghost var h := v;
      val := v.value * 3600;
      cursor := v.end;
      if sep != At(s, cursor) {
        assert o == NoSepAfterHours(h.value, h.end);
        return false, cursor;
      }
      cursor := cursor + 1;
      v := Strtol(s, cursor);
      if v.end == cursor {
        assert o == NoMinutes(h.value, cursor);
        return false, cursor;
      }
      ghost var m := v;
      val := val + v.value * 60;
      cursor := v.end;
      if sep == At(s, cursor) {
        cursor := cursor + 1;
        v := Strtol(s, cursor);
        if v.end == cursor {
          assert o == NoSeconds(h.value, m.value, cursor);
          return false, cursor;
        }
        val := val + v.value;
        cursor := v.end;
        assert o == HoursMinutesSeconds(h.value, m.value, v.value, cursor);
      } else {
        assert o == HoursMinutes(h.value, m.value, cursor);
      }
      return true, cursor;
    }

    /**
     * `simple_set(s, sep)`: the same reading of s from its start, on a
     * cursor of its own: the caller's text is not moved.
     */
    method SimpleSet(s: string, sep: char) returns (ok: bool)
      requires sep != NUL
      modifies this
      ensures ok <==> Scan(s, 0, sep).Accepted()
      ensures match Scan(s, 0, sep)
        case NoHours => val == old(val)
        case NoSepAfterHours(h, _) => val == 3600 * h
        case NoMinutes(h, _) => val == 3600 * h
        case HoursMinutes(h, m, _) => val == 3600 * h + 60 * m
        case NoSeconds(h, m, _) => val == 3600 * h + 60 * m
        case HoursMinutesSeconds(h, m, sec, _) => val == 3600 * h + 60 * m + sec
    {
      var x := 0;
      var v := Strtol(s, x);
      if v.end == x {
        return false;
      }
      val := v.value * 3600;
      x := v.end;
      if sep != At(s, x) {
        return false;
      }
      x := x + 1;
      v := Strtol(s, x);
      if v.end == x {
        return false;
      }
      val := val + v.value * 60;
      x := v.end;
      if sep == At(s, x) {
        x := x + 1;
        v := Strtol(s, x);
        if v.end == x {
          return false;
        }
        val := val + v.value;
        x := v.end;
      }
      return true;
    }

    /**
     * `print(os, sep)`: the hour, minute and second of this time (the
     * results of `hour()`, `minute()` and `second()`) written as fields.
     */
    method Print(os: OStream, sep: char, h: nat, m: nat, s: nat)
      modifies os
      ensures os.text == old(os.text) + Format(h, m, s, sep)
    {
      ghost var t0 := os.text;
      if 10 > h {
        os.Write("0");
      } else {
        AppendEmpty(t0);
      }
      os.Write(Decimal(h) + [sep]);
      Assoc(t0, Padding(h), Decimal(h) + [sep]);
      ghost var w := Padding(h) + (Decimal(h) + [sep]);
      assert os.text == t0 + w;
      ghost var t1 := os.text;
      if 10 > m {
        os.Write("0");
      } else {
        AppendEmpty(t1);
      }
      Assoc(t0, w, Padding(m));
      w := w + Padding(m);
      assert os.text == t0 + w;
      os.Write(Decimal(m) + [sep]);
      Assoc(t0, w, Decimal(m) + [sep]);
      w := w + (Decimal(m) + [sep]);
      assert os.text == t0 + w;
      ghost var t2 := os.text;
      if 10 > s {
        os.Write("0");
      } else {
        AppendEmpty(t2);
      }
      Assoc(t0, w, Padding(s));
      w := w + Padding(s);
      assert os.text == t0 + w;
      os.Write(Decimal(s));
      Assoc(t0, w, Decimal(s));
      w := w + Decimal(s);
      FormatPieces(h, m, s, sep);
    }
  }
}
