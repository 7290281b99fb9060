/** Strings as the daemon and the desktop read and write them. */
module Text {
  import opened Results

  const U64_LIMIT := 0x1_0000_0000_0000_0000

  type U64 = n: nat | n < U64_LIMIT

  const I64_LIMIT := 0x8000_0000_0000_0000

  type I64 = n: int | -I64_LIMIT <= n < I64_LIMIT

  /** What 64 bits keep of a number, read as a signed one: `as i64`, and subtraction that wraps. */
  function Wrapped(x: int): I64 {
    (x + I64_LIMIT) % (2 * I64_LIMIT) - I64_LIMIT
  }

  /** What is kept differs from the number by whole multiples of 2^64. */
  lemma WrappedKeepsBits(x: int)
    ensures (x - Wrapped(x)) % U64_LIMIT == 0
    ensures -I64_LIMIT <= x < I64_LIMIT ==> Wrapped(x) == x
  {
    var q := (x + I64_LIMIT) / U64_LIMIT;
    assert x - Wrapped(x) == U64_LIMIT * q;
  }

  predicate OccursAt(s: string, part: string, i: nat) {
    i + |part| <= |s| && s[i..i + |part|] == part
  }

  predicate Contains(s: string, part: string) {
    exists i: nat :: i <= |s| && OccursAt(s, part, i)
  }

  lemma ContainsMeans(s: string, part: string)
    ensures Contains(s, part) <==> exists a: string, b: string :: s == a + part + b
  {
    if i: nat :| i <= |s| && OccursAt(s, part, i) {
      assert s == s[..i] + part + s[i + |part|..];
    }
    if a: string, b: string :| s == a + part + b {
      assert s[|a|..|a| + |part|] == part;
      assert OccursAt(s, part, |a|);
    }
  }

  // --- ASCII case -----------------------------------------------------------

  function LowerChar(c: char): char {
    if 'A' <= c <= 'Z' then (c as int + 32) as char else c
  }

  function Lower(s: string): (r: string)
    ensures |r| == |s|
    ensures forall i :: 0 <= i < |s| ==> r[i] == LowerChar(s[i])
  {
    seq(|s|, i requires 0 <= i < |s| => LowerChar(s[i]))
  }

  const CAPITALS := "ABCDEFGHIJKLMNOPQRSTUVWXYZ"
  const SMALL := "abcdefghijklmnopqrstuvwxyz"

  /** The 26 capitals become the small letters and every other character stays. */
  lemma LowerIsAscii(c: char)
    ensures forall i :: 0 <= i < 26 ==> LowerChar(CAPITALS[i]) == SMALL[i]
    ensures c !in CAPITALS ==> LowerChar(c) == c
  {
    if 'A' <= c <= 'Z' {
      assert CAPITALS[c as int - 'A' as int] == c;
    }
  }

  // --- trimming -------------------------------------------------------------

  predicate CommonSpace(c: char) {
    || c == ' ' || '\U{0009}' <= c <= '\U{000D}' || c == '\U{00A0}' || c == '\U{1680}'
    || '\U{2000}' <= c <= '\U{200A}' || c == '\U{2028}' || c == '\U{2029}' || c == '\U{202F}'
    || c == '\U{205F}' || c == '\U{3000}'
  }

  /** What `str::trim` removes in Rust. */
  predicate RustSpace(c: char) {
    CommonSpace(c) || c == '\U{0085}'
  }

  /** What `String.prototype.trim` removes in JavaScript. */
  predicate JsSpace(c: char) {
    CommonSpace(c) || c == '\U{FEFF}'
  }

  function TrimStart(s: string, space: char -> bool): (r: string)
    ensures |r| <= |s|
    ensures r != [] ==> !space(r[0])
  {
    if s != [] && space(s[0]) then TrimStart(s[1..], space) else s
  }

  function TrimEnd(s: string, space: char -> bool): (r: string)
    ensures r <= s
    ensures r != [] ==> !space(r[|r| - 1])
  {
    if s != [] && space(s[|s| - 1]) then TrimEnd(s[..|s| - 1], space) else s
  }

  function Trim(s: string, space: char -> bool): string {
    TrimEnd(TrimStart(s, space), space)
  }

  /** Text with no space at either end is its own trim. */
  lemma TrimUnspaced(s: string, space: char -> bool)
    requires s != [] ==> !space(s[0]) && !space(s[|s| - 1])
    ensures Trim(s, space) == s
  {
  }

  lemma {:induction false} TrimStartSpaced(before: string, s: string, space: char -> bool)
    requires forall i :: 0 <= i < |before| ==> space(before[i])
    requires s != [] ==> !space(s[0])
    ensures TrimStart(before + s, space) == s
  {
    if before != [] {
      assert (before + s)[1..] == before[1..] + s;
      TrimStartSpaced(before[1..], s, space);
    } else {
      assert before + s == s;
    }
  }

  lemma {:induction false} TrimEndSpaced(s: string, after: string, space: char -> bool)
    requires forall i :: 0 <= i < |after| ==> space(after[i])
    requires s != [] ==> !space(s[|s| - 1])
    ensures TrimEnd(s + after, space) == s
  {
    if after != [] {
      assert (s + after)[..|s + after| - 1] == s + after[..|after| - 1];
      TrimEndSpaced(s, after[..|after| - 1], space);
    } else {
      assert s + after == s;
    }
  }

  /** Spaces around a text that has none at its ends are what a trim removes. */
  lemma TrimSpaced(before: string, s: string, after: string, space: char -> bool)
    requires forall i :: 0 <= i < |before| ==> space(before[i])
    requires forall i :: 0 <= i < |after| ==> space(after[i])
    requires s != [] ==> !space(s[0]) && !space(s[|s| - 1])
    ensures Trim(before + s + after, space) == s
  {
    if s == [] {
      assert before + s + after == (before + after) + [];
      TrimStartSpaced(before + after, [], space);
    } else {
      assert before + s + after == before + (s + after);
      TrimStartSpaced(before, s + after, space);
      TrimEndSpaced(s, after, space);
    }
  }

  /** The characters with the Unicode property White_Space, and where the two trims differ. */
  lemma WhiteSpace(c: char)
    ensures RustSpace(c) <==> c in WHITE_SPACE
    ensures RustSpace(c) != JsSpace(c) <==> c == '\U{0085}' || c == '\U{FEFF}'
  {
  }

  const WHITE_SPACE := {
    '\U{0009}', '\U{000A}', '\U{000B}', '\U{000C}', '\U{000D}', '\U{0020}', '\U{0085}', '\U{00A0}', '\U{1680}',
    '\U{2000}', '\U{2001}', '\U{2002}', '\U{2003}', '\U{2004}', '\U{2005}', '\U{2006}', '\U{2007}', '\U{2008}',
    '\U{2009}', '\U{200A}', '\U{2028}', '\U{2029}', '\U{202F}', '\U{205F}', '\U{3000}'}

  // --- decimal numbers ------------------------------------------------------

  predicate IsDigit(c: char) {
    '0' <= c <= '9'
  }

  predicate AllDigits(s: string) {
    forall i :: 0 <= i < |s| ==> IsDigit(s[i])
  }

  function DigitChar(d: nat): (c: char)
    requires d < 10
    ensures IsDigit(c)
  {
    ('0' as int + d) as char
  }

  function DigitValue(c: char): (d: nat)
    requires IsDigit(c)
    ensures d < 10 && DigitChar(d) == c
  {
    c as int - '0' as int
  }

  /** What `to_string` prints for an unsigned integer. */
  function ToDecimal(n: nat): (s: string)
    ensures s != [] && AllDigits(s)
  {
    if n < 10 then [DigitChar(n)] else ToDecimal(n / 10) + [DigitChar(n % 10)]
  }

  function DigitsValue(s: string): nat
    requires AllDigits(s)
  {
    if s == [] then 0 else 10 * DigitsValue(s[..|s| - 1]) + DigitValue(s[|s| - 1])
  }

  /** `parse::<u64>`: an optional plus sign, then digits whose value fits 64 bits. */
  function ParseU64(s: string): Option<nat> {
    var digits := if s != [] && s[0] == '+' then s[1..] else s;
    if digits == [] || !AllDigits(digits) || DigitsValue(digits) >= U64_LIMIT then None
    else Some(DigitsValue(digits))
  }

  lemma {:induction false} DecimalValue(n: nat)
    ensures DigitsValue(ToDecimal(n)) == n
  {
    if n >= 10 {
      DecimalValue(n / 10);
      var s := ToDecimal(n / 10) + [DigitChar(n % 10)];
      assert s[..|s| - 1] == ToDecimal(n / 10);
    } else {
      assert ToDecimal(n)[..0] == [];
    }
  }

  /** Printing a 64-bit number and parsing it back returns the number. */
  lemma DecimalRoundTrip(n: nat)
    requires n < U64_LIMIT
    ensures ParseU64(ToDecimal(n)) == Some(n)
  {
    DecimalValue(n);
    assert IsDigit(ToDecimal(n)[0]);
  }

  function ZeroDigits(n: nat): (s: string)
    ensures |s| == n && AllDigits(s)
  {
    seq(n, _ => '0')
  }

  lemma {:induction false} LeadingZeros(k: nat, s: string)
    requires AllDigits(s)
    ensures AllDigits(ZeroDigits(k) + s) && DigitsValue(ZeroDigits(k) + s) == DigitsValue(s)
  {
    var whole := ZeroDigits(k) + s;
    if s != [] {
      LeadingZeros(k, s[..|s| - 1]);
      assert whole[..|whole| - 1] == ZeroDigits(k) + s[..|s| - 1];
    } else if k > 0 {
      LeadingZeros(k - 1, []);
      assert whole[..k - 1] == ZeroDigits(k - 1) + [];
    }
  }

  /** Digits are the decimal text of their value after some zeros. */
  lemma {:induction false} DigitsAreDecimal(s: string)
    requires AllDigits(s) && s != []
    ensures |ToDecimal(DigitsValue(s))| <= |s|
    ensures s == ZeroDigits(|s| - |ToDecimal(DigitsValue(s))|) + ToDecimal(DigitsValue(s))
  {
    var front, last := s[..|s| - 1], s[|s| - 1];
    assert s == front + [last];
    if front == [] {
      assert DigitsValue(s) == DigitValue(last);
    } else {
      DigitsAreDecimal(front);
      var v := DigitsValue(front);
      assert DigitsValue(s) / 10 == v && DigitsValue(s) % 10 == DigitValue(last);
      if v == 0 {
        assert ToDecimal(0) == "0";
        assert ZeroDigits(|front| - 1) + "0" == ZeroDigits(|front|);
      }
    }
  }

  /** The text is digits that name n, after zeros and at most one plus sign. */
  ghost predicate WritesNumber(s: string, n: nat) {
    exists k: nat :: s == ZeroDigits(k) + ToDecimal(n) || s == "+" + (ZeroDigits(k) + ToDecimal(n))
  }

  /** A text parses to n exactly when n fits 64 bits and the text is n in decimal, after zeros and at
      most one plus sign. */
  lemma ParsesExactly(s: string, n: nat)
    ensures ParseU64(s) == Some(n) <==> n < U64_LIMIT && WritesNumber(s, n)
  {
    hide ToDecimal, DigitsValue, ZeroDigits;
    DecimalValue(n);
    if ParseU64(s) == Some(n) {
      var digits := if s[0] == '+' then s[1..] else s;
      DigitsAreDecimal(digits);
      assert s[0] == '+' ==> s == "+" + digits;
    }
    if n < U64_LIMIT && WritesNumber(s, n) {
      var k: nat :| s == ZeroDigits(k) + ToDecimal(n) || s == "+" + (ZeroDigits(k) + ToDecimal(n));
      LeadingZeros(k, ToDecimal(n));
      var digits := ZeroDigits(k) + ToDecimal(n);
      assert IsDigit(digits[0]);
      assert ("+" + digits)[1..] == digits;
    }
  }

  /** Digits followed by a non-digit can be split in only one way. */
  lemma {:induction false} DigitsSplitOnce(s: string, t: string, x: string, y: string)
    requires AllDigits(s) && AllDigits(t)
    requires x != [] && !IsDigit(x[0]) && y != [] && !IsDigit(y[0])
    requires s + x == t + y
    ensures s == t && x == y
  {
    assert |s| == |t| by {
      var whole := s + x;
      assert whole[|s|] == x[0];
      assert whole[|t|] == y[0];
    }
    assert s == (s + x)[..|s|] && t == (t + y)[..|t|];
    assert x == (s + x)[|s|..] && y == (t + y)[|t|..];
  }

  /** A printed number followed by a non-digit determines the number and the rest. */
  lemma DecimalSplitOnce(m: nat, n: nat, x: string, y: string)
    requires x != [] && !IsDigit(x[0]) && y != [] && !IsDigit(y[0])
    requires ToDecimal(m) + x == ToDecimal(n) + y
    ensures m == n && x == y
  {
    DigitsSplitOnce(ToDecimal(m), ToDecimal(n), x, y);
    DecimalValue(m);
    DecimalValue(n);
  }

  lemma DecimalInjective(m: nat, n: nat)
    requires ToDecimal(m) == ToDecimal(n)
    ensures m == n
  {
    DecimalValue(m);
    DecimalValue(n);
  }
}
