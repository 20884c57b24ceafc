/**
 * Text helpers shared by the row writer, the mirror loop and the metrics
 * exporter: decimal rendering and parsing of numbers, the ", "-separated
 * lists of the insert statement, and first-occurrence search.
 */
module Text {
  import opened Wrappers

  /** A name that can stand between the delimiters of the generated texts. */
  predicate IsName(s: string) {
    s != [] && forall i :: 0 <= i < |s| ==> s[i] !in {',', ' ', '(', ')', '"', '\n'}
  }

  // ---------------------------------------------------------------------
  // Decimal numbers

  predicate IsDigit(c: char) {
    '0' <= c <= '9'
  }

  predicate AllDigits(s: string) {
    forall i :: 0 <= i < |s| ==> IsDigit(s[i])
  }

  function DigitChar(d: nat): (c: char)
    requires d < 10
    ensures IsDigit(c) && c as int - '0' as int == d
  {
    ('0' as int + d) as char
  }

  function DigitValue(c: char): nat
    requires IsDigit(c)
  {
    c as int - '0' as int
  }

  /** The decimal text of `n`, most significant digit first, without leading zeros. */
  function NatToDecimal(n: nat): (s: string)
    ensures |s| >= 1 && AllDigits(s)
    ensures s[0] == '0' <==> n == 0
    ensures n == 0 ==> s == "0"
  {
    if n < 10 then [DigitChar(n)] else NatToDecimal(n / 10) + [DigitChar(n % 10)]
  }

  /** The value of a string of decimal digits. */
  function DigitsValue(s: string): nat
    requires AllDigits(s)
  {
    if s == [] then 0 else DigitsValue(s[..|s| - 1]) * 10 + DigitValue(s[|s| - 1])
  }

  /** Reads a non-empty string of decimal digits. */
  function ParseNat(s: string): (r: Option<nat>)
    ensures r.Some? <==> |s| > 0 && AllDigits(s)
  {
    if |s| > 0 && AllDigits(s) then Some(DigitsValue(s)) else None
  }

  lemma {:induction false} ParseNatDecimal(n: nat)
    ensures ParseNat(NatToDecimal(n)) == Some(n)
  {
    if n >= 10 {
      ParseNatDecimal(n / 10);
      var s := NatToDecimal(n);
      assert s[..|s| - 1] == NatToDecimal(n / 10);
      assert DigitsValue(s) == DigitsValue(NatToDecimal(n / 10)) * 10 + n % 10;
    }
  }

  /** Decimal text of an integer with a leading '-' when negative. */
  function IntToDecimal(i: int): string {
    if i < 0 then "-" + NatToDecimal(-i) else NatToDecimal(i)
  }

  /** Reads an optional '-' followed by decimal digits. */
  function ParseInt(s: string): Option<int> {
    if |s| > 0 && s[0] == '-' then
      match ParseNat(s[1..])
      case Some(v) => Some(-(v as int))
      case None => None
    else
      match ParseNat(s)
      case Some(v) => Some(v)
      case None => None
  }

  lemma IntDecimalRoundTrip(i: int)
    ensures ParseInt(IntToDecimal(i)) == Some(i)
  {
    if i < 0 {
      ParseNatDecimal(-i);
      assert IntToDecimal(i)[1..] == NatToDecimal(-i);
    } else {
      ParseNatDecimal(i);
    }
  }

  /**
   * The canonical decimal text of an integer: an optional '-', then digits
   * with no leading zero, where zero is written "0" and never "-0".
   */
  predicate CanonicalDecimal(s: string) {
    && s != []
    && var digits := if s[0] == '-' then s[1..] else s;
       && digits != [] && AllDigits(digits)
       && (digits[0] == '0' ==> s == "0")
  }

  lemma IntDecimalCanonical(i: int)
    ensures CanonicalDecimal(IntToDecimal(i))
  {
    if i < 0 {
      assert IntToDecimal(i)[1..] == NatToDecimal(-i);
    }
  }

  /** Digits without a leading zero (other than "0" itself) are the decimal text of their value. */
  lemma {:induction false} DigitsAreDecimal(d: string)
    requires d != [] && AllDigits(d) && (d[0] == '0' ==> |d| == 1)
    ensures d == NatToDecimal(DigitsValue(d))
  {
    if |d| > 1 {
      var p := d[..|d| - 1];
      assert p[0] == d[0];
      DigitsAreDecimal(p);
      var v := DigitsValue(d);
      assert v / 10 == DigitsValue(p) && v % 10 == DigitValue(d[|d| - 1]);
      assert d == p + [d[|d| - 1]];
    }
  }

  /** Canonical text is unique: the canonical text that reads as `i` is `IntToDecimal(i)`. */
  lemma CanonicalDecimalUnique(s: string)
    requires CanonicalDecimal(s)
    ensures ParseInt(s).Some? && s == IntToDecimal(ParseInt(s).value)
  {
    if s[0] == '-' {
      DigitsAreDecimal(s[1..]);
      assert s == "-" + s[1..];
    } else {
      DigitsAreDecimal(s);
    }
  }

  /** Exclusive upper bound of a 32-bit unsigned integer. */
  const U32Limit: nat := 0x1_0000_0000

  /** Reads a 32-bit unsigned integer: an optional '+', then digits, no overflow. */
  function ParseU32(s: string): (r: Option<nat>)
    ensures r.Some? ==> r.value < U32Limit
  {
    var digits := if |s| > 0 && s[0] == '+' then s[1..] else s;
    match ParseNat(digits)
    case Some(v) => if v < U32Limit then Some(v) else None
    case None => None
  }

  lemma ParseU32Decimal(n: nat)
    ensures ParseU32(NatToDecimal(n)) == (if n < U32Limit then Some(n) else None)
  {
    ParseNatDecimal(n);
  }

  // ---------------------------------------------------------------------
  // First occurrence of a character

  /** The index of the first `c` in `s`, or |s| when there is none. */
  function IndexOf(s: string, c: char): (k: nat)
    ensures k <= |s|
    ensures k < |s| ==> s[k] == c
    ensures forall j :: 0 <= j < k ==> s[j] != c
  {
    if s == [] then 0 else if s[0] == c then 0 else 1 + IndexOf(s[1..], c)
  }

  lemma IndexOfFirst(a: string, c: char, b: string)
    requires c !in a
    ensures IndexOf(a + [c] + b, c) == |a|
  {
    assert (a + [c] + b)[|a|] == c;
  }

  lemma IndexOfAbsent(s: string, c: char)
    requires c !in s
    ensures IndexOf(s, c) == |s|
  {
  }

  // ---------------------------------------------------------------------
  // ", "-separated lists

  /** The parts separated by ", ", as Rust's `join(", ")` writes them. */
  function Join(parts: seq<string>): string {
    if |parts| == 0 then ""
    else if |parts| == 1 then parts[0]
    else parts[0] + ", " + Join(parts[1..])
  }

  /** A list element that Split can recover: non-empty and comma-free. */
  predicate IsField(p: string) {
    p != [] && ',' !in p
  }

  function DropSpace(s: string): (r: string)
    ensures |r| <= |s|
  {
    if |s| > 0 && s[0] == ' ' then s[1..] else s
  }

  /** Splits at every ',' and drops the one blank after it; never empty. */
  function SplitFields(s: string): (r: seq<string>)
    ensures |r| >= 1
    decreases |s|
  {
    var k := IndexOf(s, ',');
    if k == |s| then [s] else [s[..k]] + SplitFields(DropSpace(s[k + 1..]))
  }

  /** The parts of a ", "-separated list; the empty text is the empty list. */
  function Split(s: string): seq<string> {
    if s == [] then [] else SplitFields(s)
  }

  lemma {:induction false} SplitFieldsJoin(parts: seq<string>)
    requires |parts| >= 1
    requires forall i :: 0 <= i < |parts| ==> IsField(parts[i])
    ensures SplitFields(Join(parts)) == parts
  {
    var p := parts[0];
    if |parts| == 1 {
      IndexOfAbsent(p, ',');
    } else {
      var rest := Join(parts[1..]);
      var s := Join(parts);
      assert s == p + [','] + (" " + rest);
      IndexOfFirst(p, ',', " " + rest);
      assert s[..|p|] == p;
      assert s[|p| + 1..] == " " + rest;
      assert DropSpace(" " + rest) == rest;
      SplitFieldsJoin(parts[1..]);
    }
  }

  /** Join and Split are inverse on lists of comma-free, non-empty parts. */
  lemma SplitJoin(parts: seq<string>)
    requires forall i :: 0 <= i < |parts| ==> IsField(parts[i])
    ensures Split(Join(parts)) == parts
  {
    if |parts| > 0 {
      SplitFieldsJoin(parts);
      assert Join(parts)[0] == parts[0][0];
    }
  }

  lemma {:induction false} JoinAvoids(parts: seq<string>, c: char)
    requires c != ',' && c != ' '
    requires forall i :: 0 <= i < |parts| ==> c !in parts[i]
    ensures c !in Join(parts)
  {
    if |parts| > 1 {
      JoinAvoids(parts[1..], c);
    }
  }
}
