/**
 * The string primitives of PHP and JavaScript that the answer sheet relies
 * on: trim, strtolower/strcasecmp, ord, chr, decimal conversion of integers,
 * PHP's casting of canonical decimal array keys, PHP's empty() on strings and
 * PHP's range().  Characters stand for the bytes of ASCII text.
 */
module StringOps {
  import opened Wrappers

  // ---------------------------------------------------------------- trim

  /** The characters PHP's trim() strips: space, \t, \n, \r, \0 and \x0B. */
  predicate IsTrimChar(c: char)
  {
    c == ' ' || c == '\t' || c == '\n' || c == '\r' || c == 0 as char || c == 11 as char
  }

  function TrimLeft(s: string): (r: string)
    ensures |r| <= |s| && r == s[|s| - |r|..]
    ensures r == [] || !IsTrimChar(r[0])
    ensures forall i :: 0 <= i < |s| - |r| ==> IsTrimChar(s[i])
  {
    if |s| > 0 && IsTrimChar(s[0]) then TrimLeft(s[1..]) else s
  }

  function TrimRight(s: string): (r: string)
    ensures |r| <= |s| && r == s[..|r|]
    ensures r == [] || !IsTrimChar(r[|r| - 1])
    ensures forall i :: |r| <= i < |s| ==> IsTrimChar(s[i])
  {
    if |s| > 0 && IsTrimChar(s[|s| - 1]) then TrimRight(s[..|s| - 1]) else s
  }

  /** PHP trim(): strips the trim characters from both ends. */
  function Trim(s: string): string
  {
    TrimRight(TrimLeft(s))
  }

  /** A string with no trim character at either end. */
  predicate IsTrimmed(s: string)
  {
    s == [] || (!IsTrimChar(s[0]) && !IsTrimChar(s[|s| - 1]))
  }

  lemma {:induction false} TrimLeftOfTrimmed(s: string)
    requires s == [] || !IsTrimChar(s[0])
    ensures TrimLeft(s) == s
  {
  }

  lemma {:induction false} TrimRightOfTrimmed(s: string)
    requires s == [] || !IsTrimChar(s[|s| - 1])
    ensures TrimRight(s) == s
  {
  }

  /** Trim leaves no trim character at either end. */
  lemma {:induction false} TrimIsTrimmed(s: string)
    ensures IsTrimmed(Trim(s))
  {
    var l := TrimLeft(s);
    var r := TrimRight(l);
    if r != [] {
      assert r == l[..|r|];
      assert r[0] == l[0];
    }
  }

  /** Trim is the identity on trimmed strings. */
  lemma {:induction false} TrimOfTrimmed(s: string)
    requires IsTrimmed(s)
    ensures Trim(s) == s
  {
    TrimLeftOfTrimmed(s);
    TrimRightOfTrimmed(s);
  }

  /** Trimming twice is trimming once. */
  lemma {:induction false} TrimIdempotent(s: string)
    ensures Trim(Trim(s)) == Trim(s)
  {
    TrimIsTrimmed(s);
    TrimOfTrimmed(Trim(s));
  }

  // ---------------------------------------------------- case folding

  /** The ASCII lower-case of one character (PHP 8 strtolower is ASCII only). */
  function LowerChar(c: char): (d: char)
    ensures 'A' <= c <= 'Z' ==> d as int == c as int + 32
    ensures !('A' <= c <= 'Z') ==> d == c
  {
    if 'A' <= c <= 'Z' then (c as int + 32) as char else c
  }

  /** PHP strtolower(). */
  function Lower(s: string): (r: string)
    ensures |r| == |s|
    ensures forall i :: 0 <= i < |s| ==> r[i] == LowerChar(s[i])
  {
    if s == [] then [] else [LowerChar(s[0])] + Lower(s[1..])
  }

  /** strcasecmp(a, b) === 0: equal once both are lower-cased. */
  predicate CaseInsensitiveEqual(a: string, b: string)
  {
    Lower(a) == Lower(b)
  }

  // --------------------------------------------------- ord and chr

  /**
   * PHP ord(): the first byte of the UTF-8 encoding of the string, 0 for the
   * empty string.
   */
  function Ord(s: string): (b: int)
    ensures 0 <= b < 256
    ensures s != [] && s[0] as int < 128 ==> b == s[0] as int
    ensures s == [] ==> b == 0
  {
    if s == [] then 0
    else
      var c := s[0] as int;
      if c < 0x80 then c
      else if c < 0x800 then 0xC0 + c / 0x40
      else if c < 0x1_0000 then 0xE0 + c / 0x1000
      else 0xF0 + c / 0x4_0000
  }

  /** PHP chr(): the byte whose value is n modulo 256, as a one-character string. */
  function Chr(n: int): (s: string)
    ensures |s| == 1 && s[0] as int == n % 256
  {
    [(n % 256) as char]
  }

  /** The code unit JavaScript's String.fromCharCode(n) produces: n modulo 65536. */
  function CharCodeUnit(n: int): (u: int)
    ensures 0 <= u < 0x1_0000
    ensures 0 <= n < 0x1_0000 ==> u == n
  {
    n % 0x1_0000
  }

  // ------------------------------------------ decimal representations

  predicate IsDigit(c: char)
  {
    '0' <= c <= '9'
  }

  function DigitChar(d: nat): (c: char)
    requires d < 10
    ensures IsDigit(c) && c as int - '0' as int == d
  {
    (d + '0' as int) as char
  }

  /** The canonical decimal representation of a natural number. */
  function NatToString(n: nat): (s: string)
    ensures |s| >= 1
    ensures forall i :: 0 <= i < |s| ==> IsDigit(s[i])
    ensures n < 10 <==> |s| == 1
    ensures |s| > 1 ==> s[0] != '0'
  {
    if n < 10 then [DigitChar(n)] else NatToString(n / 10) + [DigitChar(n % 10)]
  }

  /** PHP's string conversion of an integer (and JavaScript's, in a template string). */
  function IntToString(i: int): (s: string)
    ensures i >= 0 ==> s == NatToString(i)
    ensures i < 0 ==> s == "-" + NatToString(-i)
  {
    if i < 0 then "-" + NatToString(-i) else NatToString(i)
  }

  function DigitValue(c: char): (d: nat)
    requires IsDigit(c)
    ensures d < 10 && DigitChar(d) == c
  {
    c as int - '0' as int
  }

  /** The value of a string of digits. */
  function DigitsValue(s: string): nat
    requires forall i :: 0 <= i < |s| ==> IsDigit(s[i])
  {
    if s == [] then 0
    else DigitsValue(s[..|s| - 1]) * 10 + DigitValue(s[|s| - 1])
  }

  /** A canonical decimal string: digits only, no leading zero unless it is "0". */
  predicate IsCanonicalNat(s: string)
  {
    && |s| >= 1
    && (forall i :: 0 <= i < |s| ==> IsDigit(s[i]))
    && (|s| == 1 || s[0] != '0')
  }

  /**
   * The list index a string key denotes in PHP: PHP casts a string key to an
   * integer only when it is the canonical decimal form of that integer, and
   * a list's keys are the naturals, so only canonical non-negative decimals
   * can name an entry.
   */
  function ParseIndex(s: string): (r: Option<nat>)
    ensures r.Some? <==> IsCanonicalNat(s)
  {
    if IsCanonicalNat(s) then Some(DigitsValue(s)) else None
  }

  lemma {:induction false} DigitsValueOfNatToString(n: nat)
    ensures DigitsValue(NatToString(n)) == n
  {
    var s := NatToString(n);
    if n >= 10 {
      DigitsValueOfNatToString(n / 10);
      assert s[..|s| - 1] == NatToString(n / 10);
    }
  }

  lemma {:induction false} NatToStringOfDigitsValue(s: string)
    requires IsCanonicalNat(s)
    ensures NatToString(DigitsValue(s)) == s
  {
    if |s| > 1 {
      var p := s[..|s| - 1];
      assert IsCanonicalNat(p) by { assert p[0] == s[0]; }
      NatToStringOfDigitsValue(p);
      var d := DigitValue(s[|s| - 1]);
      var v := DigitsValue(p);
      assert p[0] == s[0] && NatToString(0) == "0";
      assert v != 0;
      assert DigitsValue(s) / 10 == v && DigitsValue(s) % 10 == d;
    }
  }

  /** ParseIndex recognises exactly the strings NatToString produces, and inverts it. */
  lemma ParseIndexInvertsNatToString(n: nat, s: string)
    ensures ParseIndex(s) == Some(n) <==> s == NatToString(n)
  {
    if s == NatToString(n) {
      DigitsValueOfNatToString(n);
    }
    if ParseIndex(s) == Some(n) {
      NatToStringOfDigitsValue(s);
    }
  }

  /** Distinct naturals have distinct decimal strings. */
  lemma NatToStringInjective(m: nat, n: nat)
    requires NatToString(m) == NatToString(n)
    ensures m == n
  {
    DigitsValueOfNatToString(m);
    DigitsValueOfNatToString(n);
  }

  // ------------------------------------------- PHP numeric strings and ==

  /** The whitespace PHP allows around a numeric string: space, \t, \n, \r, \v and \f. */
  predicate IsNumericSpace(c: char)
  {
    c == ' ' || c == '\t' || c == '\n' || c == '\r' || c == 11 as char || c == 12 as char
  }

  function SkipLeadingSpace(s: string): (r: string)
    ensures |r| <= |s| && r == s[|s| - |r|..]
    ensures r == [] || !IsNumericSpace(r[0])
  {
    if |s| > 0 && IsNumericSpace(s[0]) then SkipLeadingSpace(s[1..]) else s
  }

  function SkipTrailingSpace(s: string): (r: string)
    ensures |r| <= |s| && r == s[..|r|]
    ensures r == [] || !IsNumericSpace(r[|r| - 1])
  {
    if |s| > 0 && IsNumericSpace(s[|s| - 1]) then SkipTrailingSpace(s[..|s| - 1]) else s
  }

  predicate AllDigits(s: string)
  {
    forall i :: 0 <= i < |s| ==> IsDigit(s[i])
  }

  /**
   * The integer a PHP 8 integer-form numeric string denotes: optional
   * surrounding whitespace, an optional sign and at least one digit
   * (leading zeros allowed); nothing for any other string.
   */
  function IntNumeric(s: string): (r: Option<int>)
  {
    SignedDigits(SkipTrailingSpace(SkipLeadingSpace(s)))
  }

  /** An optional sign followed by at least one digit, and its value. */
  function SignedDigits(t: string): (r: Option<int>)
  {
    if |t| > 0 && (t[0] == '+' || t[0] == '-') then
      if |t| > 1 && AllDigits(t[1..]) then
        Some(if t[0] == '-' then -(DigitsValue(t[1..]) as int) else DigitsValue(t[1..]))
      else None
    else if |t| > 0 && AllDigits(t) then Some(DigitsValue(t))
    else None
  }

  /** A string that starts and ends with no whitespace is its own numeric core. */
  lemma NoSpaceIsCore(s: string)
    requires |s| > 0 && !IsNumericSpace(s[0]) && !IsNumericSpace(s[|s| - 1])
    ensures IntNumeric(s) == SignedDigits(s)
  {
    assert SkipLeadingSpace(s) == s;
    assert SkipTrailingSpace(s) == s;
  }

  lemma {:induction false} IntNumericOfNat(n: nat)
    ensures IntNumeric(NatToString(n)) == Some(n)
  {
    var s := NatToString(n);
    assert IsDigit(s[0]) && IsDigit(s[|s| - 1]);
    NoSpaceIsCore(s);
    assert AllDigits(s);
    DigitsValueOfNatToString(n);
  }

  lemma {:induction false} IntNumericOfNegative(n: nat)
    requires n > 0
    ensures IntNumeric("-" + NatToString(n)) == Some(-(n as int))
  {
    var d := NatToString(n);
    var s := "-" + d;
    assert s[|s| - 1] == d[|d| - 1];
    assert IsDigit(d[|d| - 1]);
    NoSpaceIsCore(s);
    assert s[1..] == d;
    assert AllDigits(d);
    DigitsValueOfNatToString(n);
    assert SignedDigits(s) == Some(-(DigitsValue(d) as int));
  }

  /** The decimal form of an integer is numeric, with that integer as its value. */
  lemma {:induction false} IntNumericOfIntToString(i: int)
    ensures IntNumeric(IntToString(i)) == Some(i)
  {
    var s := IntToString(i);
    if i < 0 {
      var n: nat := -i;
      assert s == "-" + NatToString(n);
      IntNumericOfNegative(n);
      assert IntNumeric(s) == Some(-(n as int));
    } else {
      var n: nat := i;
      assert s == NatToString(n);
      IntNumericOfNat(n);
    }
  }

  /** The length of the run before the first '_' (the whole string when there is none). */
  function FirstUnderscore(s: string): (n: nat)
    ensures n <= |s|
  {
    if s == [] || s[0] == '_' then 0 else 1 + FirstUnderscore(s[1..])
  }

  /** In digits followed by '_', the first '_' comes right after the digits. */
  lemma {:induction false} FirstUnderscoreAfterDigits(a: string, b: string)
    requires AllDigits(a)
    ensures FirstUnderscore(a + "_" + b) == |a|
  {
    if a != [] {
      assert (a + "_" + b)[1..] == a[1..] + "_" + b;
      FirstUnderscoreAfterDigits(a[1..], b);
    } else {
      assert (a + "_" + b)[0] == '_';
    }
  }

  /** Two numbers joined by '_' determine both numbers. */
  lemma NumberPairInjective(m1: nat, r1: nat, m2: nat, r2: nat)
    requires NatToString(m1) + "_" + NatToString(r1) == NatToString(m2) + "_" + NatToString(r2)
    ensures m1 == m2 && r1 == r2
  {
    var a, b := NatToString(m1), NatToString(r1);
    var c, d := NatToString(m2), NatToString(r2);
    var s := a + "_" + b;
    FirstUnderscoreAfterDigits(a, b);
    FirstUnderscoreAfterDigits(c, d);
    assert |a| == |c|;
    PairParts(a, b);
    PairParts(c, d);
    NatToStringInjective(m1, m2);
    NatToStringInjective(r1, r2);
  }

  lemma PairParts(a: string, b: string)
    ensures (a + "_" + b)[..|a|] == a && (a + "_" + b)[|a| + 1..] == b
  {
  }

  /**
   * PHP 8 loose == between two strings: numerically when both are numeric,
   * byte for byte otherwise.
   */
  predicate LooseEqual(a: string, b: string)
  {
    if IntNumeric(a).Some? && IntNumeric(b).Some? then IntNumeric(a) == IntNumeric(b) else a == b
  }

  /** PHP 8 loose == between a string and an integer: true only for a numeric string of that value. */
  predicate LooseEqualInt(s: string, n: int)
  {
    IntNumeric(s) == Some(n)
  }

  /** Loose string equality is an equivalence that identifies '01' with '1'. */
  lemma LooseEqualIsEquivalence(a: string, b: string, c: string)
    ensures LooseEqual(a, a)
    ensures LooseEqual(a, b) ==> LooseEqual(b, a)
    ensures LooseEqual(a, b) && LooseEqual(b, c) ==> LooseEqual(a, c)
  {
  }

  lemma LeadingZeroIsLooselyEqual()
    ensures LooseEqual("01", "1") && !("01" == "1")
  {
    NoSpaceIsCore("01");
    NoSpaceIsCore("1");
    assert "01"[..1] == "0";
    assert DigitsValue("0") == 0;
    assert DigitsValue("01") == 1;
  }

  /** Lower-casing a lower-cased string changes nothing. */
  lemma LowerIdempotent(s: string)
    ensures Lower(Lower(s)) == Lower(s)
  {
  }

  // ------------------------------------------------------ PHP empty()

  /** PHP empty() on a string: true for "" and for "0". */
  predicate IsEmptyValue(s: string)
  {
    s == "" || s == "0"
  }

  // -------------------------------------------------------- PHP range()

  /**
   * PHP range(lo, hi) over integers: ascending when lo <= hi, and counting
   * DOWN from lo to hi otherwise.
   */
  function Range(lo: int, hi: int): (r: seq<int>)
    ensures lo <= hi ==> |r| == hi - lo + 1 && forall i :: 0 <= i < |r| ==> r[i] == lo + i
    ensures lo > hi ==> |r| == lo - hi + 1 && forall i :: 0 <= i < |r| ==> r[i] == lo - i
    decreases if lo <= hi then hi - lo else lo - hi
  {
    if lo == hi then [lo]
    else if lo < hi then [lo] + Range(lo + 1, hi)
    else [lo] + Range(lo - 1, hi)
  }

  // ------------------------------------------- PHP array_flip() lookup

  /**
   * The entry of array_flip(xs) at key x: the LAST index at which x occurs
   * in xs (a later duplicate overwrites an earlier one), or nothing.
   */
  function FlipLookup(xs: seq<string>, x: string): (r: Option<nat>)
    ensures r.Some? <==> x in xs
    ensures r.Some? ==> r.value < |xs| && xs[r.value] == x
    ensures r.Some? ==> forall j :: r.value < j < |xs| ==> xs[j] != x
  {
    if xs == [] then None
    else if xs[|xs| - 1] == x then Some(|xs| - 1)
    else FlipLookup(xs[..|xs| - 1], x)
  }

  /** A list without repeated entries. */
  predicate Distinct(xs: seq<string>)
  {
    forall i, j :: 0 <= i < j < |xs| ==> xs[i] != xs[j]
  }

  /** In a list without repeats, the flipped lookup of an entry is its index. */
  lemma FlipLookupOfDistinct(xs: seq<string>, i: nat)
    requires Distinct(xs) && i < |xs|
    ensures FlipLookup(xs, xs[i]) == Some(i)
  {
  }

  // -------------------------------------------------- PHP scalar values

  /** The PHP scalars the answer values take: null, an integer or a string. */
  datatype PhpValue = PhpNull | PhpInt(i: int) | PhpString(s: string)

  /** PHP's conversion of a scalar to string: null is '', an integer its decimal form. */
  function ToPhpString(v: PhpValue): (r: string)
    ensures v.PhpString? ==> r == v.s
    ensures v.PhpNull? ==> r == ""
    ensures v.PhpInt? ==> r == IntToString(v.i)
  {
    match v
    case PhpNull => ""
    case PhpInt(i) => IntToString(i)
    case PhpString(s) => s
  }

  /**
   * The list index a scalar names when used as an array key: null is the key
   * '', an integer is itself, a string is cast only when canonical.
   */
  function KeyIndex(v: PhpValue): (r: Option<nat>)
    ensures v.PhpNull? ==> r.None?
    ensures v.PhpInt? ==> (r.Some? <==> v.i >= 0) && (r.Some? ==> r.value == v.i)
    ensures v.PhpString? ==> r == ParseIndex(v.s)
  {
    match v
    case PhpNull => None
    case PhpInt(i) => if i >= 0 then Some(i) else None
    case PhpString(s) => ParseIndex(s)
  }

  /** isset($list[$v]) for a list of strings. */
  predicate IsListIndex(v: PhpValue, list: seq<string>)
  {
    KeyIndex(v).Some? && KeyIndex(v).value < |list|
  }
}
