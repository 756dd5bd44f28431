/**
  What the C++ library conversions `std::stoi`, `std::stoll`, `std::stoul`
  and `std::stoull` accept in the C locale on an LP64 platform: leading
  white space, an optional sign, then the longest run of decimal digits.
  A string with no digit there is rejected (`invalid_argument`), and so is
  a value outside the target type's range (`out_of_range`). The unsigned
  conversions accept a minus sign and negate modulo 2^64, as `strtoul` does.
*/
module CxxNumbers {
  import opened Wrappers

  const INT_MIN: int := -0x8000_0000
  const INT_MAX: int := 0x7fff_ffff
  const LLONG_MIN: int := -0x8000_0000_0000_0000
  const LLONG_MAX: int := 0x7fff_ffff_ffff_ffff
  const ULONG_MAX: int := 0xffff_ffff_ffff_ffff
  const TWO_TO_64: int := 0x1_0000_0000_0000_0000

  /** `isspace` in the C locale. */
  predicate IsSpace(c: char)
  {
    c == ' ' || c == '\t' || c == '\n' || c == '\U{000B}' || c == '\U{000C}' || c == '\r'
  }

  predicate IsDigit(c: char)
  {
    '0' <= c <= '9'
  }

  /** The value of a digit character; other characters count as 0. */
  function DigitValue(c: char): nat
  {
    if IsDigit(c) then (c as int) - ('0' as int) else 0
  }

  /** The number of white-space characters at the front of `s`. */
  function SpacePrefix(s: string): (n: nat)
    ensures n <= |s|
  {
    if s != [] && IsSpace(s[0]) then 1 + SpacePrefix(s[1..]) else 0
  }

  lemma {:induction false} SpacePrefixFacts(s: string)
    ensures forall i :: 0 <= i < SpacePrefix(s) ==> IsSpace(s[i])
    ensures SpacePrefix(s) < |s| ==> !IsSpace(s[SpacePrefix(s)])
  {
    if s != [] && IsSpace(s[0]) {
      SpacePrefixFacts(s[1..]);
    }
  }

  /** The length of the run of digits that starts at `from`. */
  function DigitRun(s: string, from: nat): (n: nat)
    requires from <= |s|
    ensures from + n <= |s|
    decreases |s| - from
  {
    if from < |s| && IsDigit(s[from]) then 1 + DigitRun(s, from + 1) else 0
  }

  lemma {:induction false} DigitRunFacts(s: string, from: nat)
    requires from <= |s|
    ensures forall i :: from <= i < from + DigitRun(s, from) ==> IsDigit(s[i])
    ensures from + DigitRun(s, from) < |s| ==> !IsDigit(s[from + DigitRun(s, from)])
    decreases |s| - from
  {
    if from < |s| && IsDigit(s[from]) {
      DigitRunFacts(s, from + 1);
    }
  }

  /** The value of a string of decimal digits, most significant first. */
  function DigitsValue(ds: string): nat
  {
    if ds == [] then 0 else 10 * DigitsValue(ds[..|ds| - 1]) + DigitValue(ds[|ds| - 1])
  }

  /** A successful scan: the sign, the magnitude of the digits and the index just past them. */
  datatype Scan = Scan(negative: bool, magnitude: nat, end: nat)

  /**
    The scan `strtol` and `strtoul` perform in base 10: skip white space,
    take an optional `+` or `-`, then the longest run of digits. None when
    that run is empty, which is the case in which no conversion is performed.
  */
  function ScanDecimal(s: string): (r: Option<Scan>)
    ensures r.Some? ==> 0 < r.value.end <= |s| && IsDigit(s[r.value.end - 1])
    ensures r.Some? ==> r.value.end == |s| || !IsDigit(s[r.value.end])
  {
    ScanSigned(s, SpacePrefix(s))
  }

  /** The sign and digits part of the scan, from index i on. */
  function ScanSigned(s: string, i: nat): (r: Option<Scan>)
    requires i <= |s|
    ensures r.Some? ==> i < r.value.end <= |s| && IsDigit(s[r.value.end - 1])
    ensures r.Some? ==> r.value.end == |s| || !IsDigit(s[r.value.end])
  {
    var negative := i < |s| && s[i] == '-';
    var j := if i < |s| && (s[i] == '-' || s[i] == '+') then i + 1 else i;
    var n := DigitRun(s, j);
    DigitRunFacts(s, j);
    if n == 0 then None
    else Some(Scan(negative, DigitsValue(s[j..j + n]), j + n))
  }

  /** The signed value a scan denotes. */
  function Signed(sc: Scan): int
  {
    if sc.negative then -(sc.magnitude as int) else sc.magnitude
  }

  /** `std::stoi(s, &pos)`: the value and `pos`, or None where it throws. */
  function Stoi(s: string): (r: Option<(int, nat)>)
    ensures r.Some? ==> INT_MIN <= r.value.0 <= INT_MAX && 0 < r.value.1 <= |s|
    ensures r.Some? <==> ScanDecimal(s).Some? && INT_MIN <= Signed(ScanDecimal(s).value) <= INT_MAX
  {
    match ScanDecimal(s)
    case None => None
    case Some(sc) =>
      if INT_MIN <= Signed(sc) <= INT_MAX then Some((Signed(sc), sc.end)) else None
  }

  /** `std::stoll(s, &pos)`. */
  function Stoll(s: string): (r: Option<(int, nat)>)
    ensures r.Some? ==> LLONG_MIN <= r.value.0 <= LLONG_MAX && 0 < r.value.1 <= |s|
    ensures r.Some? <==> ScanDecimal(s).Some? && LLONG_MIN <= Signed(ScanDecimal(s).value) <= LLONG_MAX
  {
    match ScanDecimal(s)
    case None => None
    case Some(sc) =>
      if LLONG_MIN <= Signed(sc) <= LLONG_MAX then Some((Signed(sc), sc.end)) else None
  }

  /**
    `std::stoull(s, &pos)`, and `std::stoul` where `unsigned long` has 64
    bits: a magnitude above 2^64 - 1 is out of range; a negative one is
    negated modulo 2^64.
  */
  function Stoull(s: string): (r: Option<(nat, nat)>)
    ensures r.Some? ==> r.value.0 <= ULONG_MAX && 0 < r.value.1 <= |s|
    ensures r.Some? <==> ScanDecimal(s).Some? && ScanDecimal(s).value.magnitude <= ULONG_MAX
  {
    match ScanDecimal(s)
    case None => None
    case Some(sc) =>
      if sc.magnitude > ULONG_MAX then None
      else if sc.negative then Some(((TWO_TO_64 - sc.magnitude) % TWO_TO_64, sc.end))
      else Some((sc.magnitude, sc.end))
  }

  /** The decimal rendering of a natural number, without sign or leading zeros. */
  function Decimal(n: nat): (ds: string)
    ensures |ds| >= 1
  {
    if n < 10 then [('0' as int + n) as char]
    else Decimal(n / 10) + [('0' as int + n % 10) as char]
  }

  lemma {:induction false} DecimalDigits(n: nat)
    ensures forall i :: 0 <= i < |Decimal(n)| ==> IsDigit(Decimal(n)[i])
  {
    if n >= 10 {
      DecimalDigits(n / 10);
    }
  }

  lemma {:induction false} DecimalValue(n: nat)
    ensures DigitsValue(Decimal(n)) == n
  {
    var ds := Decimal(n);
    if n >= 10 {
      DecimalValue(n / 10);
      assert ds[..|ds| - 1] == Decimal(n / 10);
    }
  }

  /** A run of digits up to index e, where a non-digit or the end of the string follows, is taken whole. */
  lemma {:induction false} DigitRunUntil(s: string, from: nat, e: nat)
    requires from <= e <= |s|
    requires forall i :: from <= i < e ==> IsDigit(s[i])
    requires e == |s| || !IsDigit(s[e])
    ensures DigitRun(s, from) == e - from
    decreases e - from
  {
    if from < e {
      DigitRunUntil(s, from + 1, e);
    }
  }

  /** White space followed by a non-space character: the skipped prefix is exactly that white space. */
  lemma {:induction false} SpacePrefixOf(ws: string, rest: string)
    requires forall i :: 0 <= i < |ws| ==> IsSpace(ws[i])
    requires rest == [] || !IsSpace(rest[0])
    ensures SpacePrefix(ws + rest) == |ws|
  {
    if ws != [] {
      assert (ws + rest)[1..] == ws[1..] + rest;
      SpacePrefixOf(ws[1..], rest);
    }
  }

  /** A sign as `strtol` accepts it: none, `+` or `-`. */
  predicate IsSign(sign: string)
  {
    sign == "" || sign == "+" || sign == "-"
  }

  /** A scan that finds its sign at i and its digits from j up to e. */
  lemma ScanIs(s: string, i: nat, j: nat, e: nat)
    requires SpacePrefix(s) == i
    requires i <= j < e <= |s|
    requires j == if s[i] == '-' || s[i] == '+' then i + 1 else i
    requires forall k :: j <= k < e ==> IsDigit(s[k])
    requires e == |s| || !IsDigit(s[e])
    ensures ScanDecimal(s) == Some(Scan(s[i] == '-', DigitsValue(s[j..e]), e))
  {
    DigitRunUntil(s, j, e);
    ScanSignedIs(s, i, j, e - j);
  }

  /** The scan from i once the sign is placed and the length of the digit run is known. */
  lemma ScanSignedIs(s: string, i: nat, j: nat, n: nat)
    requires i < |s| && j == (if s[i] == '-' || s[i] == '+' then i + 1 else i)
    requires j + n <= |s| && DigitRun(s, j) == n && n > 0
    ensures ScanSigned(s, i) == Some(Scan(s[i] == '-', DigitsValue(s[j..j + n]), j + n))
  {
  }

  /** Where the parts of white space, sign, digits and the rest lie in their concatenation. */
  lemma Layout(ws: string, sign: string, ds: string, rest: string)
    requires IsSign(sign)
    requires ds != [] && forall i :: 0 <= i < |ds| ==> IsDigit(ds[i])
    requires rest == [] || !IsDigit(rest[0])
    ensures var s := ws + sign + ds + rest;
      var j := |ws| + |sign|;
      && (s[|ws|] == '-' || s[|ws|] == '+' <==> sign != "")
      && (s[|ws|] == '-' <==> sign == "-")
      && s[j..j + |ds|] == ds
      && (forall k :: j <= k < j + |ds| ==> IsDigit(s[k]))
      && (j + |ds| == |s| || !IsDigit(s[j + |ds|]))
  {
    var s := ws + sign + ds + rest;
    var j := |ws| + |sign|;
    assert s[j..j + |ds|] == ds;
    assert j + |ds| < |s| ==> s[j + |ds|] == rest[0];
  }

  /** The white space in front of a sign or a digit is exactly what `strtol` skips. */
  lemma BlankThenSign(ws: string, sign: string, ds: string, rest: string)
    requires forall i :: 0 <= i < |ws| ==> IsSpace(ws[i])
    requires IsSign(sign)
    requires ds != [] && IsDigit(ds[0])
    ensures SpacePrefix(ws + sign + ds + rest) == |ws|
  {
    var t := sign + ds + rest;
    assert ws + sign + ds + rest == ws + t;
    assert t[0] == if sign == "" then ds[0] else sign[0];
    SpacePrefixOf(ws, t);
  }

  /** The layout facts `ScanIs` needs, for white space, a sign, a decimal rendering and a non-digit rest. */
  lemma DecimalLayout(ws: string, sign: string, n: nat, rest: string)
    requires forall i :: 0 <= i < |ws| ==> IsSpace(ws[i])
    requires IsSign(sign)
    requires rest == [] || !IsDigit(rest[0])
    ensures var s := ws + sign + Decimal(n) + rest;
      var j := |ws| + |sign|;
      var e := j + |Decimal(n)|;
      && SpacePrefix(s) == |ws| && e <= |s|
      && j == (if s[|ws|] == '-' || s[|ws|] == '+' then |ws| + 1 else |ws|)
      && (s[|ws|] == '-' <==> sign == "-")
      && s[j..e] == Decimal(n)
      && (forall k :: j <= k < e ==> IsDigit(s[k]))
      && (e == |s| || !IsDigit(s[e]))
  {
    var ds := Decimal(n);
    DecimalDigits(n);
    BlankThenSign(ws, sign, ds, rest);
    Layout(ws, sign, ds, rest);
  }

  /**
    White space, a sign and the decimal rendering of n, then anything that
    does not start with a digit, scan as n with that sign, ending just after
    the digits.
  */
  lemma DecimalScan(ws: string, sign: string, n: nat, rest: string)
    requires forall i :: 0 <= i < |ws| ==> IsSpace(ws[i])
    requires IsSign(sign)
    requires rest == [] || !IsDigit(rest[0])
    ensures ScanDecimal(ws + sign + Decimal(n) + rest)
         == Some(Scan(sign == "-", n, |ws + sign + Decimal(n)|))
  {
    DecimalLayout(ws, sign, n, rest);
    ScanIs(ws + sign + Decimal(n) + rest, |ws|, |ws| + |sign|, |ws| + |sign| + |Decimal(n)|);
    DecimalValue(n);
  }

  /** `std::stoull` reads back the decimal rendering of n exactly when n fits in 64 bits. */
  lemma StoullDecimal(n: nat)
    ensures n <= ULONG_MAX ==> Stoull(Decimal(n)) == Some((n, |Decimal(n)|))
    ensures n > ULONG_MAX ==> Stoull(Decimal(n)).None?
  {
    var s := Decimal(n);
    DecimalScan("", "", n, "");
    assert "" + "" + s + "" == s;
    assert ScanDecimal(s) == Some(Scan(false, n, |s|));
  }

  /** `std::stoull` negates a minus-signed value modulo 2^64: "-1" is 2^64 - 1. */
  lemma StoullNegative(n: nat)
    requires 0 < n <= ULONG_MAX
    ensures Stoull("-" + Decimal(n)) == Some((TWO_TO_64 - n, 1 + |Decimal(n)|))
  {
    var s := "-" + Decimal(n);
    DecimalScan("", "-", n, "");
    assert "" + "-" + Decimal(n) + "" == s;
    assert ScanDecimal(s) == Some(Scan(true, n, |s|));
    NegatedInRange(n);
  }

  /** The two's complement negation of a non-zero 64-bit magnitude needs no reduction. */
  lemma NegatedInRange(n: nat)
    requires 0 < n <= ULONG_MAX
    ensures (TWO_TO_64 - n) % TWO_TO_64 == TWO_TO_64 - n
  {
  }

  /**
    `std::stoi` on white space, a sign and the decimal rendering of n: the
    signed value when it lies within `int`, otherwise a failure.
  */
  lemma StoiSignedDecimal(ws: string, sign: string, n: nat)
    requires forall i :: 0 <= i < |ws| ==> IsSpace(ws[i])
    requires IsSign(sign)
    ensures var v := if sign == "-" then -(n as int) else n;
      && (INT_MIN <= v <= INT_MAX ==> Stoi(ws + sign + Decimal(n)) == Some((v, |ws + sign + Decimal(n)|)))
      && (v < INT_MIN || v > INT_MAX ==> Stoi(ws + sign + Decimal(n)).None?)
  {
    DecimalScan(ws, sign, n, "");
    assert ws + sign + Decimal(n) + "" == ws + sign + Decimal(n);
  }

  /** The same for `std::stoll` and the range of `long long`. */
  lemma StollSignedDecimal(ws: string, sign: string, n: nat)
    requires forall i :: 0 <= i < |ws| ==> IsSpace(ws[i])
    requires IsSign(sign)
    ensures var v := if sign == "-" then -(n as int) else n;
      && (LLONG_MIN <= v <= LLONG_MAX ==> Stoll(ws + sign + Decimal(n)) == Some((v, |ws + sign + Decimal(n)|)))
      && (v < LLONG_MIN || v > LLONG_MAX ==> Stoll(ws + sign + Decimal(n)).None?)
  {
    DecimalScan(ws, sign, n, "");
    assert ws + sign + Decimal(n) + "" == ws + sign + Decimal(n);
  }

  /** A string whose first non-blank character is neither a sign nor a digit is rejected. */
  lemma NoDigitsRejected(s: string)
    requires SpacePrefix(s) < |s|
    requires var c := s[SpacePrefix(s)]; c != '+' && c != '-' && !IsDigit(c)
    ensures ScanDecimal(s).None? && Stoi(s).None? && Stoll(s).None? && Stoull(s).None?
  {
  }
}
