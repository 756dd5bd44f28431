/**
  The string helpers of `util/string.cpp`: joining with commas, converting
  strings to integers with the C++ `sto*` family, a size with a K/M/G
  suffix, splitting on a separator and trimming blanks. Every helper that
  reports failure returns a `TError`; an output parameter becomes a result
  of the method.
*/
module StringUtil {
  import opened Wrappers
  import opened CxxNumbers

  /** The error kinds these helpers use. */
  datatype EError = Unknown

  /** `TError`: success, or a kind with its message. */
  datatype TError = Success | Error(kind: EError, text: string)

  /** The error every integer conversion returns, prefixed with the helper's name. */
  function BadInteger(func: string): (e: TError)
    ensures e.Error? && e.kind == Unknown
  {
    Error(Unknown, func + ": Bad integer value")
  }

  // ---------------------------------------------------------------------
  // Joining

  /** The elements of xs, with sep between neighbours. */
  function Join(xs: seq<string>, sep: char): string
  {
    if xs == [] then ""
    else if |xs| == 1 then xs[0]
    else xs[0] + [sep] + Join(xs[1..], sep)
  }

  /** Appending an element to a non-empty list appends the separator and that element. */
  lemma {:induction false} JoinSnoc(xs: seq<string>, y: string, sep: char)
    requires xs != []
    ensures Join(xs + [y], sep) == Join(xs, sep) + [sep] + y
  {
    if |xs| > 1 {
      assert (xs + [y])[1..] == xs[1..] + [y];
      JoinSnoc(xs[1..], y, sep);
    } else {
      assert (xs + [y])[1..] == [y];
    }
  }

  /**
    `CommaSeparatedList` over a vector: each element in order, a comma
    after every element but the last.
  */
  method CommaSeparatedList(list: seq<string>) returns (ret: string)
    ensures ret == Join(list, ',')
  {
    ret := "";
    var i := 0;
    while i < |list|
      invariant 0 <= i <= |list|
      invariant ret == Join(list[..i], ',') + (if 0 < i < |list| then "," else "")
    {
      ret := ret + list[i];
      if i > 0 {
        assert list[..i + 1] == list[..i] + [list[i]];
        JoinSnoc(list[..i], list[i], ',');
      } else {
        assert list[..1] == [list[0]];
      }
      i := i + 1;
      if i < |list| {
        ret := ret + ",";
      }
    }
    assert list[..i] == list;
  }

  // ---------------------------------------------------------------------
  // The order of a `std::set<std::string>`

  /** `std::less<std::string>`: lexicographic by character, a proper prefix first. */
  predicate Less(a: string, b: string)
  {
    if a == [] then b != []
    else if b == [] then false
    else if a[0] != b[0] then a[0] < b[0]
    else Less(a[1..], b[1..])
  }

  lemma {:induction false} LessIrreflexive(a: string)
    ensures !Less(a, a)
  {
    if a != [] {
      LessIrreflexive(a[1..]);
    }
  }

  lemma {:induction false} LessTransitive(a: string, b: string, c: string)
    requires Less(a, b) && Less(b, c)
    ensures Less(a, c)
  {
    if a != [] && b != [] && c != [] && a[0] == b[0] && b[0] == c[0] {
      LessTransitive(a[1..], b[1..], c[1..]);
    }
  }

  lemma {:induction false} LessTotal(a: string, b: string)
    requires a != b
    ensures Less(a, b) || Less(b, a)
  {
    if a != [] && b != [] && a[0] == b[0] {
      assert a == [a[0]] + a[1..] && b == [b[0]] + b[1..];
      LessTotal(a[1..], b[1..]);
    }
  }

  /** m is the first element of s in set order. */
  ghost predicate IsLeast(m: string, s: set<string>)
  {
    m in s && forall x :: x in s && x != m ==> Less(m, x)
  }

  lemma {:induction false} LeastExists(s: set<string>)
    requires s != {}
    ensures exists m :: IsLeast(m, s)
  {
    var x :| x in s;
    if s != {x} {
      LeastExists(s - {x});
      var m :| IsLeast(m, s - {x});
      if Less(x, m) {
        forall y | y in s && y != x
          ensures Less(x, y)
        {
          if y != m {
            LessTransitive(x, m, y);
          }
        }
        assert IsLeast(x, s);
      } else {
        LessTotal(x, m);
        assert IsLeast(m, s);
      }
    } else {
      assert IsLeast(x, s);
    }
  }

  lemma LeastUnique(m: string, n: string, s: set<string>)
    requires IsLeast(m, s) && IsLeast(n, s)
    ensures m == n
  {
    if m != n {
      LessTransitive(m, n, m);
      LessIrreflexive(m);
    }
  }

  /** The first element of a non-empty set. */
  ghost function Least(s: set<string>): (m: string)
    requires s != {}
    ensures IsLeast(m, s)
  {
    LeastExists(s);
    var m :| IsLeast(m, s); m
  }

  /** The elements of s in the order a `std::set` iterates them. */
  ghost function Ascending(s: set<string>): seq<string>
    decreases |s|
  {
    if s == {} then [] else [Least(s)] + Ascending(s - {Least(s)})
  }

  /** Strictly ascending in set order. */
  ghost predicate StrictlyAscending(xs: seq<string>)
  {
    forall i, j :: 0 <= i < j < |xs| ==> Less(xs[i], xs[j])
  }

  /** The set order lists every element of the set once, strictly ascending. */
  lemma {:induction false} AscendingFacts(s: set<string>)
    ensures |Ascending(s)| == |s|
    ensures forall x :: x in Ascending(s) <==> x in s
    ensures StrictlyAscending(Ascending(s))
    decreases |s|
  {
    if s != {} {
      var m := Least(s);
      var rest := s - {m};
      AscendingFacts(rest);
      var xs := Ascending(s);
      assert xs == [m] + Ascending(rest);
      forall i, j | 0 <= i < j < |xs|
        ensures Less(xs[i], xs[j])
      {
        if i > 0 {
          assert xs[i] == Ascending(rest)[i - 1] && xs[j] == Ascending(rest)[j - 1];
        } else {
          assert xs[j] == Ascending(rest)[j - 1];
          assert xs[j] in rest;
        }
      }
    }
  }

  /** Any strictly ascending listing of exactly the elements of s is the set order. */
  lemma {:induction false} AscendingUnique(xs: seq<string>, s: set<string>)
    requires StrictlyAscending(xs)
    requires forall x :: x in xs <==> x in s
    ensures xs == Ascending(s)
    decreases |xs|
  {
    if xs == [] {
      assert s == {};
    } else {
      var m := xs[0];
      assert m in s;
      forall x | x in s && x != m
        ensures Less(m, x)
      {
        var k :| 0 <= k < |xs| && xs[k] == x;
        assert k != 0;
      }
      LeastUnique(m, Least(s), s);
      var tail := xs[1..];
      forall x
        ensures x in tail <==> x in s - {m}
      {
        if x in tail {
          var k :| 0 <= k < |tail| && tail[k] == x;
          assert xs[k + 1] == x;
          assert Less(m, x);
          if x == m {
            LessIrreflexive(m);
          }
        }
        if x in s - {m} {
          var k :| 0 <= k < |xs| && xs[k] == x;
          assert k != 0 && tail[k - 1] == x;
        }
      }
      assert StrictlyAscending(tail) by {
        forall i, j | 0 <= i < j < |tail|
          ensures Less(tail[i], tail[j])
        {
          assert tail[i] == xs[i + 1] && tail[j] == xs[j + 1];
        }
      }
      AscendingUnique(tail, s - {m});
    }
  }

  /** The first element of a non-empty set, found by comparing every element with the best so far. */
  method LeastOf(s: set<string>) returns (m: string)
    requires s != {}
    ensures m == Least(s)
  {
    m :| m in s;
    var rest := s - {m};
    while rest != {}
      invariant rest <= s && m in s && m !in rest
      invariant forall x :: x in s && x !in rest && x != m ==> Less(m, x)
      decreases |rest|
    {
      var x :| x in rest;
      if Less(x, m) {
        forall y | y in s && y !in rest && y != x
          ensures Less(x, y)
        {
          if y != m {
            LessTransitive(x, m, y);
          }
        }
        m := x;
      }
      else {
        if x != m {
          LessTotal(x, m);
        }
      }
      rest := rest - {x};
    }
    LeastUnique(m, Least(s), s);
  }

  /**
    `CommaSeparatedList` over a set: the elements in set order, a comma
    after every element but the last.
  */
  method CommaSeparatedSet(list: set<string>) returns (ret: string)
    ensures ret == Join(Ascending(list), ',')
  {
    ret := "";
    var remaining := list;
    ghost var done: seq<string> := [];
    while remaining != {}
      invariant done + Ascending(remaining) == Ascending(list)
      invariant ret == Join(done, ',') + (if done != [] && remaining != {} then "," else "")
      decreases |remaining|
    {
      var m := LeastOf(remaining);
      AscendingStep(list, done, remaining, m);
      JoinAppend(done, m, ',');
      ret := ret + m;
      done := done + [m];
      remaining := remaining - {m};
      if remaining != {} {
        ret := ret + ",";
      }
    }
    assert done == Ascending(list);
  }

  /** Taking the least remaining element moves it from the set order of the rest to the done prefix. */
  lemma AscendingStep(list: set<string>, done: seq<string>, remaining: set<string>, m: string)
    requires remaining != {} && m == Least(remaining)
    requires done + Ascending(remaining) == Ascending(list)
    ensures (done + [m]) + Ascending(remaining - {m}) == Ascending(list)
  {
    assert Ascending(remaining) == [m] + Ascending(remaining - {m});
    assert done + ([m] + Ascending(remaining - {m})) == (done + [m]) + Ascending(remaining - {m});
  }

  /** Appending an element to any list: the separator comes first unless the list was empty. */
  lemma JoinAppend(xs: seq<string>, y: string, sep: char)
    ensures Join(xs + [y], sep) == Join(xs, sep) + (if xs != [] then [sep] else []) + y
  {
    if xs != [] {
      JoinSnoc(xs, y, sep);
    } else {
      assert xs + [y] == [y];
    }
  }

  // ---------------------------------------------------------------------
  // Integer conversions

  /**
    The values `stoi` gives for the longest prefix of strings it accepts
    element by element: the loop of `StringsToIntegers` stops at the first
    element `stoi` rejects.
  */
  function ParsedPrefix(strings: seq<string>): (r: seq<int>)
    ensures |r| <= |strings|
  {
    if strings == [] then []
    else match Stoi(strings[0])
      case None => []
      case Some((v, _)) => [v] + ParsedPrefix(strings[1..])
  }

  /**
    `StringsToIntegers`: appends the `stoi` value of each string in order;
    at the first string `stoi` rejects it stops with an error, keeping what
    it has appended so far.
  */
  method StringsToIntegers(strings: seq<string>, integers: seq<int>) returns (err: TError, out: seq<int>)
    ensures out == integers + ParsedPrefix(strings)
    ensures err == (if |ParsedPrefix(strings)| == |strings| then Success else BadInteger("StringsToIntegers"))
  {
    out := integers;
    ghost var parsed := ParsedPrefix(strings);
    var i := 0;
    while i < |strings|
      invariant i <= |parsed|
      invariant out == integers + parsed[..i]
    {
      ParsedAt(strings, i);
      match Stoi(strings[i])
      case None =>
        return BadInteger("StringsToIntegers"), out;
      case Some((v, _)) =>
        assert parsed[..i + 1] == parsed[..i] + [v];
        out := out + [v];
      i := i + 1;
    }
    assert parsed[..i] == parsed;
    err := Success;
  }

  /**
    The i-th string, reached while every earlier one parsed, parses exactly
    when the prefix extends past it, and then to the i-th value.
  */
  lemma {:induction false} ParsedAt(strings: seq<string>, i: nat)
    requires i < |strings| && i <= |ParsedPrefix(strings)|
    ensures Stoi(strings[i]).Some? <==> i < |ParsedPrefix(strings)|
    ensures i < |ParsedPrefix(strings)| ==> ParsedPrefix(strings)[i] == Stoi(strings[i]).value.0
  {
    if i > 0 {
      ParsedAt(strings[1..], i - 1);
    }
  }

  /** Every parsed value is the `stoi` value of its string, and parsing stops only at a rejected string. */
  lemma ParsedFacts(strings: seq<string>)
    ensures forall i :: 0 <= i < |ParsedPrefix(strings)| ==>
      Stoi(strings[i]).Some? && ParsedPrefix(strings)[i] == Stoi(strings[i]).value.0
    ensures |ParsedPrefix(strings)| < |strings| ==> Stoi(strings[|ParsedPrefix(strings)|]).None?
  {
    var r := ParsedPrefix(strings);
    forall i | 0 <= i < |r|
      ensures Stoi(strings[i]).Some? && r[i] == Stoi(strings[i]).value.0
    {
      ParsedAt(strings, i);
    }
    if |r| < |strings| {
      ParsedAt(strings, |r|);
    }
  }

  /** `StringToUint64`: the `stoull` value; on failure an error, and the value is left as it was. */
  method StringToUint64(str: string, value: nat) returns (err: TError, result: nat)
    ensures Stoull(str).Some? ==> err == Success && result == Stoull(str).value.0
    ensures Stoull(str).None? ==> err == BadInteger("StringToUint64") && result == value
    ensures result <= ULONG_MAX || result == value
  {
    match Stoull(str)
    case None =>
      return BadInteger("StringToUint64"), value;
    case Some((v, _)) =>
      return Success, v;
  }

  /** `StringToInt64`: the `stoll` value; on failure an error, and the value is left as it was. */
  method StringToInt64(str: string, value: int) returns (err: TError, result: int)
    ensures Stoll(str).Some? ==> err == Success && result == Stoll(str).value.0
    ensures Stoll(str).None? ==> err == BadInteger("StringToInt64") && result == value
    ensures LLONG_MIN <= result <= LLONG_MAX || result == value
  {
    match Stoll(str)
    case None =>
      return BadInteger("StringToInt64"), value;
    case Some((v, _)) =>
      return Success, v;
  }

  /** `StringToInt`: the `stoi` value; on failure an error, and the value is left as it was. */
  method StringToInt(str: string, value: int) returns (err: TError, result: int)
    ensures Stoi(str).Some? ==> err == Success && result == Stoi(str).value.0
    ensures Stoi(str).None? ==> err == BadInteger("StringToInt") && result == value
    ensures INT_MIN <= result <= INT_MAX || result == value
  {
    match Stoi(str)
    case None =>
      return BadInteger("StringToInt"), value;
    case Some((v, _)) =>
      return Success, v;
  }

  const TWO_TO_32: nat := 0x1_0000_0000

  /**
    What `StringToUint32` stores as written: the 64-bit `stoul` value
    converted to `uint32_t`, that is reduced modulo 2^32, with no range check.
  */
  function Uint32AsWritten(str: string): (r: Option<nat>)
    ensures r.Some? <==> Stoull(str).Some?
    ensures r.Some? ==> r.value < TWO_TO_32 && r.value == Stoull(str).value.0 % TWO_TO_32
  {
    match Stoull(str)
    case None => None
    case Some((v, _)) => Some(v % TWO_TO_32)
  }

  /** `StringToUint32` as written. */
  method StringToUint32(str: string, value: nat) returns (err: TError, result: nat)
    ensures Uint32AsWritten(str).Some? ==> err == Success && result == Uint32AsWritten(str).value
    ensures Uint32AsWritten(str).None? ==> err == BadInteger("StringToUint32") && result == value
  {
    match Stoull(str)
    case None =>
      return BadInteger("StringToUint32"), value;
    case Some((v, _)) =>
      return Success, v % TWO_TO_32;
  }

  /**
    As written, a decimal number of 2^32 or more that fits in 64 bits is
    accepted and stored wrapped: "4294967296" reads as 0 with success.
  */
  lemma Uint32Truncates(n: nat)
    requires TWO_TO_32 <= n <= ULONG_MAX
    ensures Uint32AsWritten(Decimal(n)) == Some(n % TWO_TO_32)
    ensures n % TWO_TO_32 != n
  {
    StoullDecimal(n);
  }

  /** The range-checked conversion: a `stoul` value of 2^32 or more is rejected. */
  function Uint32Checked(str: string): (r: Option<nat>)
    ensures r.Some? ==> r.value < TWO_TO_32 && Stoull(str).Some? && r.value == Stoull(str).value.0
    ensures r.None? <==> Stoull(str).None? || Stoull(str).value.0 >= TWO_TO_32
  {
    match Stoull(str)
    case None => None
    case Some((v, _)) => if v < TWO_TO_32 then Some(v) else None
  }

  /** With the range check, the decimal rendering of n reads back as n exactly when n fits in 32 bits. */
  lemma Uint32CheckedDecimal(n: nat)
    ensures n < TWO_TO_32 ==> Uint32Checked(Decimal(n)) == Some(n)
    ensures n >= TWO_TO_32 ==> Uint32Checked(Decimal(n)).None?
  {
    StoullDecimal(n);
  }

  /** `StringToUint32` with the range check. */
  method StringToUint32Checked(str: string, value: nat) returns (err: TError, result: nat)
    ensures Uint32Checked(str).Some? ==> err == Success && result == Uint32Checked(str).value
    ensures Uint32Checked(str).None? ==> err == BadInteger("StringToUint32") && result == value
  {
    match Stoull(str)
    case None =>
      return BadInteger("StringToUint32"), value;
    case Some((v, _)) =>
      if v < TWO_TO_32 {
        return Success, v;
      }
      return BadInteger("StringToUint32"), value;
  }

  // ---------------------------------------------------------------------
  // Sizes with a unit

  /** The multiplier of a unit letter: G is 2^30, M is 2^20, K is 2^10, in either case; anything else is 1. */
  function UnitFactor(c: char): (f: nat)
    ensures f == 1 || f == 0x400 || f == 0x10_0000 || f == 0x4000_0000
    ensures f == 0x4000_0000 <==> c == 'G' || c == 'g'
    ensures f == 0x10_0000 <==> c == 'M' || c == 'm'
    ensures f == 0x400 <==> c == 'K' || c == 'k'
  {
    if c == 'G' || c == 'g' then 0x4000_0000
    else if c == 'M' || c == 'm' then 0x10_0000
    else if c == 'K' || c == 'k' then 0x400
    else 1
  }

  /**
    The value `StringWithUnitToUint64` stores: the `stoull` value, times the
    factor of the character right after the number when there is one, in
    64-bit arithmetic.
  */
  function WithUnit(str: string): (r: Option<nat>)
    ensures r.Some? <==> Stoull(str).Some?
    ensures r.Some? ==> r.value <= ULONG_MAX
  {
    match Stoull(str)
    case None => None
    case Some((v, pos)) =>
      if 0 < pos < |str| then Some(v * UnitFactor(str[pos]) % TWO_TO_64) else Some(v)
  }

  /** `value <<= 10` on a `uint64_t`. */
  function Shl10(x: nat): (r: nat)
    ensures r < TWO_TO_64
  {
    x * 0x400 % TWO_TO_64
  }

  /**
    `StringWithUnitToUint64`: the `switch` falls through, so G shifts three
    times, M twice and K once.
  */
  method StringWithUnitToUint64(str: string, value: nat) returns (err: TError, result: nat)
    ensures WithUnit(str).Some? ==> err == Success && result == WithUnit(str).value
    ensures WithUnit(str).None? ==> err == BadInteger("StringWithUnitToUint64") && result == value
  {
    match Stoull(str)
    case None =>
      return BadInteger("StringWithUnitToUint64"), value;
    case Some((v, pos)) =>
      result := v;
      if pos > 0 && pos < |str| {
        var c := str[pos];
        if c == 'G' || c == 'g' {
          result := Shl10(result);
        }
        if c == 'G' || c == 'g' || c == 'M' || c == 'm' {
          result := Shl10(result);
        }
        if c == 'G' || c == 'g' || c == 'M' || c == 'm' || c == 'K' || c == 'k' {
          result := Shl10(result);
        }
        ShiftsMultiply(v);
      }
      err := Success;
  }

  /** One, two and three 10-bit shifts of a 64-bit value multiply it by 2^10, 2^20 and 2^30. */
  lemma ShiftsMultiply(v: nat)
    requires v <= ULONG_MAX
    ensures Shl10(v) == v * 0x400 % TWO_TO_64
    ensures Shl10(Shl10(v)) == v * 0x10_0000 % TWO_TO_64
    ensures Shl10(Shl10(Shl10(v))) == v * 0x4000_0000 % TWO_TO_64
  {
    ShiftTwice(v * 0x400 % 0x1_0000_0000_0000_0000, v);
    ShiftTwice(Shl10(v * 0x400 % 0x1_0000_0000_0000_0000), v * 0x400);
  }

  /** x is v * 2^10 reduced: one more shift gives v * 2^20 reduced. */
  lemma ShiftTwice(x: nat, v: nat)
    requires x == v * 0x400 % 0x1_0000_0000_0000_0000
    ensures x * 0x400 % 0x1_0000_0000_0000_0000 == v * 0x10_0000 % 0x1_0000_0000_0000_0000
  {
  }

  /** A number followed by a non-digit c scales by c's factor, wrapping at 2^64. */
  lemma WithUnitSuffix(n: nat, c: char)
    requires n <= ULONG_MAX && !IsDigit(c)
    ensures WithUnit(Decimal(n) + [c]) == Some(n * UnitFactor(c) % TWO_TO_64)
    ensures n * UnitFactor(c) <= ULONG_MAX ==> WithUnit(Decimal(n) + [c]) == Some(n * UnitFactor(c))
  {
    var s := Decimal(n) + [c];
    StoullThenSuffix(n, c);
    assert s[|Decimal(n)|] == c;
    WithUnitAt(s, n, |Decimal(n)|);
    FitsUnwrapped(n, UnitFactor(c));
  }

  /** The character where `stoull` stopped selects the factor. */
  lemma WithUnitAt(s: string, n: nat, pos: nat)
    requires Stoull(s) == Some((n, pos)) && pos < |s|
    ensures WithUnit(s) == Some(n * UnitFactor(s[pos]) % TWO_TO_64)
  {
  }

  /** A value that fits in 64 bits is not changed by the wrap-around. */
  lemma FitsUnwrapped(n: nat, f: nat)
    ensures n * f <= ULONG_MAX ==> n * f % TWO_TO_64 == n * f
  {
  }

  /** `stoull` stops at the first character after the digits of n. */
  lemma StoullThenSuffix(n: nat, c: char)
    requires n <= ULONG_MAX && !IsDigit(c)
    ensures Stoull(Decimal(n) + [c]) == Some((n, |Decimal(n)|))
  {
    DecimalScan("", "", n, [c]);
    assert "" + "" + Decimal(n) + [c] == Decimal(n) + [c];
  }

  /** A number with nothing after it is taken as it is. */
  lemma WithUnitPlain(n: nat)
    requires n <= ULONG_MAX
    ensures WithUnit(Decimal(n)) == Some(n)
  {
    StoullDecimal(n);
  }

  // ---------------------------------------------------------------------
  // Splitting

  /** The position of the first sep in s, if any. */
  function FindSep(s: string, sep: char): (r: Option<nat>)
    ensures r.Some? ==> r.value < |s| && s[r.value] == sep
  {
    if s == [] then None
    else if s[0] == sep then Some(0)
    else match FindSep(s[1..], sep)
      case None => None
      case Some(k) => Some(k + 1)
  }

  /** `FindSep` finds the first separator, and finds none only where there is none. */
  lemma {:induction false} FindSepFacts(s: string, sep: char)
    ensures FindSep(s, sep).Some? ==> forall i :: 0 <= i < FindSep(s, sep).value ==> s[i] != sep
    ensures FindSep(s, sep).None? <==> forall i :: 0 <= i < |s| ==> s[i] != sep
  {
    if s != [] && s[0] != sep {
      FindSepFacts(s[1..], sep);
      assert forall i :: 1 <= i < |s| ==> s[i] == s[1..][i - 1];
    }
  }

  /** A separator at k with none before it is what `FindSep` finds. */
  lemma {:induction false} FindSepIs(s: string, sep: char, k: nat)
    requires k < |s| && s[k] == sep
    requires forall i :: 0 <= i < k ==> s[i] != sep
    ensures FindSep(s, sep) == Some(k)
  {
    if k > 0 {
      FindSepIs(s[1..], sep, k - 1);
    }
  }

  /** Without a separator `FindSep` finds nothing. */
  lemma {:induction false} FindSepNone(s: string, sep: char)
    requires forall i :: 0 <= i < |s| ==> s[i] != sep
    ensures FindSep(s, sep).None?
  {
    if s != [] {
      FindSepNone(s[1..], sep);
    }
  }

  /**
    The tokens `std::getline` reads from a stream over s with delimiter
    sep: the text up to each sep, and the text after the last sep when it
    is not empty. An empty s gives no token.
  */
  function Tokens(s: string, sep: char): (r: seq<string>)
    ensures s != [] ==> r != []
    decreases |s|
  {
    if s == [] then []
    else match FindSep(s, sep)
      case None => [s]
      case Some(k) => [s[..k]] + Tokens(s[k + 1..], sep)
  }

  /**
    `SplitString`: appends to tokens what `getline` reads, token by token.
    It reports success; the `catch` guards only against allocation failure,
    which this model does not have.
  */
  method SplitString(s: string, sep: char, tokens: seq<string>) returns (err: TError, out: seq<string>)
    ensures err == Success
    ensures out == tokens + Tokens(s, sep)
  {
    out := tokens;
    var pos := 0;
    while pos < |s|
      invariant 0 <= pos <= |s|
      invariant out + Tokens(s[pos..], sep) == tokens + Tokens(s, sep)
      decreases |s| - pos
    {
      var j := pos;
      while j < |s| && s[j] != sep
        invariant pos <= j <= |s|
        invariant forall i :: pos <= i < j ==> s[i] != sep
      {
        j := j + 1;
      }
      TokenAt(s, sep, pos, j);
      Regroup(out, [s[pos..j]], Tokens(s[if j == |s| then j else j + 1..], sep));
      out := out + [s[pos..j]];
      pos := if j == |s| then j else j + 1;
    }
    assert s[pos..] == [];
    err := Success;
  }

  /** The token starting at pos ends at the next separator j, or at the end. */
  lemma TokenAt(s: string, sep: char, pos: nat, j: nat)
    requires pos < |s| && pos <= j <= |s|
    requires forall i :: pos <= i < j ==> s[i] != sep
    requires j == |s| || s[j] == sep
    ensures Tokens(s[pos..], sep) == [s[pos..j]] + Tokens(s[if j == |s| then j else j + 1..], sep)
  {
    var rest := s[pos..];
    assert forall i :: 0 <= i < j - pos ==> rest[i] == s[pos + i];
    if j == |s| {
      FindSepNone(rest, sep);
      assert rest == s[pos..j];
      assert s[j..] == [];
    } else {
      assert rest[j - pos] == s[j];
      FindSepIs(rest, sep, j - pos);
      assert rest[..j - pos] == s[pos..j] && rest[j - pos + 1..] == s[j + 1..];
    }
  }

  /** No token contains the separator. */
  lemma {:induction false} TokensHaveNoSep(s: string, sep: char)
    ensures forall t, i :: t in Tokens(s, sep) && 0 <= i < |t| ==> t[i] != sep
    decreases |s|
  {
    if s != [] {
      FindSepFacts(s, sep);
      match FindSep(s, sep)
      case None =>
      case Some(k) =>
        TokensHaveNoSep(s[k + 1..], sep);
    }
  }

  /** A list of two or more joins as its head, the separator, and the join of the rest. */
  lemma JoinCons(x: string, xs: seq<string>, sep: char)
    requires xs != []
    ensures Join([x] + xs, sep) == x + [sep] + Join(xs, sep)
  {
    assert ([x] + xs)[1..] == xs;
  }

  /** Joining the tokens with the separator gives s back, unless s ends with the separator. */
  lemma {:induction false} JoinTokens(s: string, sep: char)
    requires s == [] || s[|s| - 1] != sep
    ensures Join(Tokens(s, sep), sep) == s
    decreases |s|
  {
    if s != [] {
      match FindSep(s, sep)
      case None =>
      case Some(k) =>
        var rest := s[k + 1..];
        assert rest != [] && rest[|rest| - 1] == s[|s| - 1];
        JoinTokens(rest, sep);
        JoinCons(s[..k], Tokens(rest, sep), sep);
        assert s == s[..k] + [sep] + rest;
    }
  }

  /** A trailing separator adds no empty token: "a,b," splits like "a,b". */
  lemma {:induction false} TrailingSep(s: string, sep: char)
    requires s != [] && s[|s| - 1] != sep
    ensures Tokens(s + [sep], sep) == Tokens(s, sep)
    decreases |s|
  {
    var t := s + [sep];
    FindSepFacts(s, sep);
    match FindSep(s, sep)
    case None =>
      FindSepIs(t, sep, |s|);
      assert t[..|s|] == s && t[|s| + 1..] == [];
    case Some(k) =>
      FindSepIs(t, sep, k);
      var rest := s[k + 1..];
      assert rest != [] && rest[|rest| - 1] == s[|s| - 1];
      assert t[..k] == s[..k] && t[k + 1..] == rest + [sep];
      TrailingSep(rest, sep);
  }

  /**
    Splitting a join gives the elements back when no element contains the
    separator and the last one is not empty.
  */
  lemma {:induction false} SplitJoin(xs: seq<string>, sep: char)
    requires forall t, i :: t in xs && 0 <= i < |t| ==> t[i] != sep
    requires xs == [] || xs[|xs| - 1] != ""
    ensures Tokens(Join(xs, sep), sep) == xs
  {
    if |xs| == 1 {
      FindSepNone(xs[0], sep);
    } else if |xs| > 1 {
      var x := xs[0];
      var rest := Join(xs[1..], sep);
      var j := x + [sep] + rest;
      JoinCons(x, xs[1..], sep);
      assert [x] + xs[1..] == xs;
      assert forall i :: 0 <= i < |x| ==> j[i] == x[i];
      FindSepIs(j, sep, |x|);
      assert j[..|x|] == x && j[|x| + 1..] == rest;
      SplitJoin(xs[1..], sep);
    }
  }

  // ---------------------------------------------------------------------
  // Trimming

  /** The first position in s that is not a blank ' ', if any. */
  function FirstNotBlank(s: string): (r: Option<nat>)
    ensures r.Some? ==> r.value < |s| && s[r.value] != ' '
  {
    if s == [] then None
    else if s[0] != ' ' then Some(0)
    else match FirstNotBlank(s[1..])
      case None => None
      case Some(k) => Some(k + 1)
  }

  /** Only blanks come before the first non-blank, and there is none only in an all-blank string. */
  lemma {:induction false} FirstFacts(s: string)
    ensures FirstNotBlank(s).Some? ==> forall i :: 0 <= i < FirstNotBlank(s).value ==> s[i] == ' '
    ensures FirstNotBlank(s).None? <==> forall i :: 0 <= i < |s| ==> s[i] == ' '
  {
    if s != [] && s[0] == ' ' {
      FirstFacts(s[1..]);
      assert forall i :: 1 <= i < |s| ==> s[i] == s[1..][i - 1];
    }
  }

  /** A non-blank at k with only blanks before it is the first non-blank. */
  lemma {:induction false} FirstIs(s: string, k: nat)
    requires k < |s| && s[k] != ' '
    requires forall i :: 0 <= i < k ==> s[i] == ' '
    ensures FirstNotBlank(s) == Some(k)
  {
    if k > 0 {
      FirstIs(s[1..], k - 1);
    }
  }

  /** The last position in s that is not a blank ' ', if any. */
  function LastNotBlank(s: string): (r: Option<nat>)
    ensures r.Some? ==> r.value < |s| && s[r.value] != ' '
  {
    if s == [] then None
    else if s[|s| - 1] != ' ' then Some(|s| - 1)
    else LastNotBlank(s[..|s| - 1])
  }

  /** Only blanks come after the last non-blank, and there is none only in an all-blank string. */
  lemma {:induction false} LastFacts(s: string)
    ensures LastNotBlank(s).Some? ==> forall i :: LastNotBlank(s).value < i < |s| ==> s[i] == ' '
    ensures LastNotBlank(s).None? <==> forall i :: 0 <= i < |s| ==> s[i] == ' '
  {
    if s != [] && s[|s| - 1] == ' ' {
      LastFacts(s[..|s| - 1]);
    }
  }

  /**
    `StringTrim`: s without its leading and trailing blanks. For an empty
    or all-blank s, `find_first_not_of` gives `npos` and `substr` throws
    `std::out_of_range`, which is None here.
  */
  function StringTrim(s: string): (r: Option<string>)
    ensures r.Some? ==> r.value != [] && r.value[0] != ' ' && r.value[|r.value| - 1] != ' '
  {
    FirstFacts(s);
    LastFacts(s);
    match FirstNotBlank(s)
    case None => None
    case Some(first) =>
      var last := LastNotBlank(s).value;
      assert first <= last;
      Some(s[first..last + 1])
  }

  /** Trimming fails (`out_of_range`) exactly for an empty or all-blank string. */
  lemma TrimFailsOnBlank(s: string)
    ensures StringTrim(s).None? <==> forall i :: 0 <= i < |s| ==> s[i] == ' '
  {
    FirstFacts(s);
  }

  /** What trimming removes is blanks only: s is the trimmed text with blanks before and after. */
  lemma TrimRemovesBlanks(s: string)
    requires StringTrim(s).Some?
    ensures exists a: nat, b: nat :: a + |StringTrim(s).value| + b == |s| && s == Blanks(a) + StringTrim(s).value + Blanks(b)
  {
    FirstFacts(s);
    LastFacts(s);
    var first := FirstNotBlank(s).value;
    var last := LastNotBlank(s).value;
    var t := StringTrim(s).value;
    assert s[..first] == Blanks(first);
    assert s[last + 1..] == Blanks(|s| - last - 1);
    assert s == s[..first] + t + s[last + 1..];
  }

  /** A run of n blanks. */
  function Blanks(n: nat): (r: string)
    ensures |r| == n && forall i :: 0 <= i < n ==> r[i] == ' '
  {
    if n == 0 then "" else Blanks(n - 1) + " "
  }

  /** Blanks around a text that starts and ends with a non-blank are exactly what is trimmed. */
  lemma TrimPadded(a: nat, t: string, b: nat)
    requires t != [] && t[0] != ' ' && t[|t| - 1] != ' '
    ensures StringTrim(Blanks(a) + t + Blanks(b)) == Some(t)
  {
    var s := Blanks(a) + t + Blanks(b);
    PaddedFirst(s, a, t, b);
    PaddedLast(s, a, t, b);
    PaddedMiddle(a, t, b);
    TrimKnownEnds(s, a, t);
  }

  /** A text found between the first and the last non-blank is what trimming returns. */
  lemma TrimKnownEnds(s: string, first: nat, t: string)
    requires t != [] && first + |t| <= |s|
    requires FirstNotBlank(s) == Some(first) && LastNotBlank(s) == Some(first + |t| - 1)
    requires s[first..first + |t|] == t
    ensures StringTrim(s) == Some(t)
  {
    TrimBetween(s, first, first + |t| - 1);
  }

  /** The first non-blank of a padded text is the first character of the text. */
  lemma PaddedFirst(s: string, a: nat, t: string, b: nat)
    requires s == Blanks(a) + t + Blanks(b)
    requires t != [] && t[0] != ' '
    ensures FirstNotBlank(s) == Some(a)
  {
    PaddedEnds(a, t, b);
    FirstIs(s, a);
  }

  /** The last non-blank of a padded text is the last character of the text. */
  lemma {:induction false} PaddedLast(s: string, a: nat, t: string, b: nat)
    requires s == Blanks(a) + t + Blanks(b)
    requires t != [] && t[|t| - 1] != ' '
    ensures LastNotBlank(s) == Some(a + |t| - 1)
  {
    if b == 0 {
      assert s == Blanks(a) + t;
      assert s[|s| - 1] == t[|t| - 1];
    } else {
      assert s[..|s| - 1] == Blanks(a) + t + Blanks(b - 1);
      PaddedLast(s[..|s| - 1], a, t, b - 1);
    }
  }

  lemma PaddedMiddle(a: nat, t: string, b: nat)
    ensures |Blanks(a)| == a && (Blanks(a) + t + Blanks(b))[a..a + |t|] == t
  {
    assert (Blanks(a) + t + Blanks(b))[a..a + |t|] == t;
  }

  /** Where the blanks and the ends of the text lie in a padded text. */
  lemma PaddedEnds(a: nat, t: string, b: nat)
    requires t != []
    ensures var s := Blanks(a) + t + Blanks(b);
      && |s| == a + |t| + b
      && s[a] == t[0] && s[a + |t| - 1] == t[|t| - 1]
      && (forall i :: 0 <= i < a ==> s[i] == ' ')
      && (forall i :: a + |t| <= i < |s| ==> s[i] == ' ')
  {
    var s := Blanks(a) + t + Blanks(b);
    assert forall i :: a + |t| <= i < |s| ==> s[i] == Blanks(b)[i - a - |t|];
  }

  /** Trimming keeps what lies from the first to the last non-blank. */
  lemma TrimBetween(s: string, first: nat, last: nat)
    requires FirstNotBlank(s) == Some(first) && LastNotBlank(s) == Some(last)
    ensures first <= last && StringTrim(s) == Some(s[first..last + 1])
  {
    FirstFacts(s);
    LastFacts(s);
  }

  /** Trimming a trimmed string changes nothing. */
  lemma TrimIdempotent(s: string)
    requires StringTrim(s).Some?
    ensures StringTrim(StringTrim(s).value) == StringTrim(s)
  {
    var t := StringTrim(s).value;
    assert Blanks(0) + t + Blanks(0) == t;
    TrimPadded(0, t, 0);
  }
}
