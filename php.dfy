/**
 * The fragments of PHP's runtime semantics that the controllers rely on:
 * boolean conversion of loosely typed input, `trim`, `str_replace` with an
 * empty replacement, decimal interpolation of integers and the saturating
 * `(int)` cast of a digit string.
 */
module Php {
  /** A loosely typed PHP value as it arrives in a request or a decoded body. */
  datatype Value = Null | Bool(b: bool) | Int(i: int) | Str(s: string) | List(items: seq<Value>)

  /** PHP's conversion to boolean: null, false, 0, "", "0" and [] are falsy. */
  predicate Truthy(v: Value)
  {
    match v
    case Null => false
    case Bool(b) => b
    case Int(i) => i != 0
    case Str(s) => s != "" && s != "0"
    case List(xs) => xs != []
  }

  /** PHP's `$v === true`: only the boolean true itself. */
  predicate StrictTrue(v: Value)
  {
    v == Bool(true)
  }

  lemma StrictTrueIsTruthy(v: Value)
    ensures StrictTrue(v) ==> Truthy(v)
    ensures Truthy(Str("1")) && !StrictTrue(Str("1"))
  {
  }

  /** PHP_INT_MAX on a 64-bit build. */
  const PhpIntMax: int := 0x7FFF_FFFF_FFFF_FFFF

  predicate IsDigit(c: char)
  {
    '0' <= c <= '9'
  }

  predicate AllDigits(s: string)
  {
    forall i :: 0 <= i < |s| ==> IsDigit(s[i])
  }

  function DigitValue(c: char): (d: nat)
    requires IsDigit(c)
    ensures d < 10
  {
    (c as int) - ('0' as int)
  }

  function DigitChar(d: nat): (c: char)
    requires d < 10
    ensures IsDigit(c) && DigitValue(c) == d
  {
    ('0' as int + d) as char
  }

  /** Unbounded value of a decimal digit string, most significant digit first. */
  function DigitsValue(s: string): nat
    requires AllDigits(s)
  {
    if s == [] then 0 else DigitsValue(s[..|s| - 1]) * 10 + DigitValue(s[|s| - 1])
  }

  /** PHP's `(int)` cast of a digit string: the value, saturated at PHP_INT_MAX. */
  function IntCastDigits(s: string): (r: nat)
    requires AllDigits(s)
    ensures r <= PhpIntMax
    ensures DigitsValue(s) <= PhpIntMax ==> r == DigitsValue(s)
  {
    if DigitsValue(s) <= PhpIntMax then DigitsValue(s) else PhpIntMax
  }

  /** Decimal rendering of a natural number, as string interpolation writes it. */
  function NatToString(n: nat): (r: string)
    ensures r != [] && AllDigits(r)
    ensures |r| > 1 ==> r[0] != '0'
  {
    if n < 10 then [DigitChar(n)] else NatToString(n / 10) + [DigitChar(n % 10)]
  }

  /** Decimal rendering of any integer, with a leading '-' when negative. */
  function IntToString(n: int): (r: string)
    ensures n >= 0 ==> r == NatToString(n)
    ensures n < 0 ==> r == "-" + NatToString(-n)
  {
    if n >= 0 then NatToString(n) else "-" + NatToString(-n)
  }

  lemma {:induction false} NatToStringValue(n: nat)
    ensures DigitsValue(NatToString(n)) == n
  {
    var r := NatToString(n);
    if n >= 10 {
      NatToStringValue(n / 10);
      assert r[..|r| - 1] == NatToString(n / 10);
    }
  }

  /** Distinct numbers are rendered as distinct strings. */
  lemma NatToStringInjective(a: nat, b: nat)
    ensures NatToString(a) == NatToString(b) ==> a == b
  {
    NatToStringValue(a);
    NatToStringValue(b);
  }

  /** The longest prefix of `s` made of digits: the greedy `\d+`. */
  function DigitRun(s: string): (r: string)
    ensures |r| <= |s| && r == s[..|r|] && AllDigits(r)
    ensures |r| < |s| ==> !IsDigit(s[|r|])
  {
    if s != [] && IsDigit(s[0]) then
      assert s == [s[0]] + s[1..];
      [s[0]] + DigitRun(s[1..])
    else []
  }

  lemma {:induction false} DigitRunOfRun(t: string, n: nat)
    requires 0 < n <= |t| && AllDigits(t[..n]) && (n == |t| || !IsDigit(t[n]))
    ensures DigitRun(t) == t[..n]
  {
    assert IsDigit(t[..n][0]);
    if n > 1 {
      assert t[1..][..n - 1] == t[1..n];
      DigitRunOfRun(t[1..], n - 1);
      assert [t[0]] + t[1..n] == t[..n];
    } else {
      assert t[1..] == [] || !IsDigit(t[1..][0]);
    }
  }

  predicate StartsWith(s: string, prefix: string)
  {
    |prefix| <= |s| && s[..|prefix|] == prefix
  }

  /** `pat` occurs somewhere in `s`. */
  predicate Contains(s: string, pat: string)
    decreases |s|
  {
    StartsWith(s, pat) || (s != [] && Contains(s[1..], pat))
  }

  /**
   * `str_replace(pat, '', s)`: every non-overlapping occurrence of `pat`,
   * scanning from the left, is removed.
   */
  function RemoveAll(s: string, pat: string): (r: string)
    requires pat != []
    ensures |r| <= |s|
    decreases |s|
  {
    if s == [] then []
    else if StartsWith(s, pat) then RemoveAll(s[|pat|..], pat)
    else [s[0]] + RemoveAll(s[1..], pat)
  }

  lemma {:induction false} RemoveAllAbsent(s: string, pat: string)
    requires pat != [] && !Contains(s, pat)
    ensures RemoveAll(s, pat) == s
    decreases |s|
  {
    if s != [] {
      RemoveAllAbsent(s[1..], pat);
      assert [s[0]] + s[1..] == s;
    }
  }

  /** A copy of `pat` starts at position `i` of `s`. */
  predicate OccursAt(s: string, pat: string, i: nat)
  {
    i + |pat| <= |s| && s[i..i + |pat|] == pat
  }

  /** `pat` does not occur in `s` when no position of `s` starts a copy of it. */
  lemma {:induction false} NotContains(s: string, pat: string)
    requires forall i: nat :: !OccursAt(s, pat, i)
    ensures !Contains(s, pat)
    decreases |s|
  {
    assert !OccursAt(s, pat, 0);
    if s != [] {
      forall i: nat
        ensures !OccursAt(s[1..], pat, i)
      {
        assert !OccursAt(s, pat, i + 1);
        if i + |pat| <= |s[1..]| {
          assert s[1..][i..i + |pat|] == s[i + 1..i + 1 + |pat|];
        }
      }
      NotContains(s[1..], pat);
    }
  }

  /** Removing the prefix `pat` again recovers a suffix in which `pat` does not occur. */
  lemma RemoveAllPrefix(pat: string, s: string)
    requires pat != [] && !Contains(s, pat)
    ensures RemoveAll(pat + s, pat) == s
  {
    assert StartsWith(pat + s, pat);
    assert (pat + s)[|pat|..] == s;
    RemoveAllAbsent(s, pat);
  }

  /** The characters PHP's `trim` strips by default: " \t\n\r\0\x0B". */
  predicate IsTrimChar(c: char)
  {
    c == ' ' || c == '\t' || c == '\n' || c == '\r' || c == '\0' || c == '\U{000B}'
  }

  function TrimLeft(s: string): (r: string)
    ensures |r| <= |s| && r == s[|s| - |r|..]
    ensures r == [] || !IsTrimChar(r[0])
    ensures forall i :: 0 <= i < |s| - |r| ==> IsTrimChar(s[i])
  {
    if s != [] && IsTrimChar(s[0]) then TrimLeft(s[1..]) else s
  }

  function TrimRight(s: string): (r: string)
    ensures |r| <= |s| && r == s[..|r|]
    ensures r == [] || !IsTrimChar(r[|r| - 1])
    ensures forall i :: |r| <= i < |s| ==> IsTrimChar(s[i])
  {
    if s != [] && IsTrimChar(s[|s| - 1]) then TrimRight(s[..|s| - 1]) else s
  }

  /** PHP's `trim`: strip trim characters from both ends. */
  function Trim(s: string): string
  {
    TrimRight(TrimLeft(s))
  }

  lemma TrimShape(s: string)
    ensures var r := Trim(s); r == [] || (!IsTrimChar(r[0]) && !IsTrimChar(r[|r| - 1]))
  {
  }

  lemma TrimLeftNoop(s: string)
    requires s == [] || !IsTrimChar(s[0])
    ensures TrimLeft(s) == s
  {
  }

  lemma TrimRightNoop(s: string)
    requires s == [] || !IsTrimChar(s[|s| - 1])
    ensures TrimRight(s) == s
  {
  }

  /** Trimming twice is trimming once. */
  lemma TrimIdempotent(s: string)
    ensures Trim(Trim(s)) == Trim(s)
  {
    var r := Trim(s);
    TrimShape(s);
    TrimLeftNoop(r);
    TrimRightNoop(r);
  }

  /** PHP's `%` on integers: the remainder of truncating division, which takes the dividend's sign. */
  function Rem(a: int, b: int): (r: int)
    requires b != 0
    ensures a >= 0 ==> r == a % b
    ensures a < 0 ==> r <= 0 && r == -((-a) % b)
    ensures -(if b > 0 then b else -b) < r < (if b > 0 then b else -b)
  {
    if a >= 0 then a % b else -((-a) % b)
  }
}
