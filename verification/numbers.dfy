/** ASCII decimal digits, their values, and Rust's `str::parse` for the
    unsigned integer types the decoder uses (`u32`, `u64`). */
module Numbers {
  import opened Results

  predicate IsDigit(c: char) {
    '0' <= c <= '9'
  }

  predicate AllDigits(s: string) {
    forall i :: 0 <= i < |s| ==> IsDigit(s[i])
  }

  /** A string made only of ASCII digits (possibly empty). */
  type DigitString = s: string | AllDigits(s)

  function DigitValue(c: char): nat
    requires IsDigit(c)
  {
    c as int - '0' as int
  }

  /** The decimal value of a digit string, most significant digit first. */
  function DigitsValue(s: DigitString): nat
  {
    if |s| == 0 then 0 else 10 * DigitsValue(s[..|s| - 1]) + DigitValue(s[|s| - 1])
  }

  function Pow10(n: nat): (p: nat)
    ensures p >= 1
  {
    if n == 0 then 1 else 10 * Pow10(n - 1)
  }

  lemma {:induction false} Pow10Add(a: nat, b: nat)
    ensures Pow10(a + b) == Pow10(a) * Pow10(b)
    decreases b
  {
    if b > 0 {
      Pow10Add(a, b - 1);
    }
  }

  /** A value of n digits is below 10^n. */
  lemma {:induction false} DigitsValueBound(s: DigitString)
    ensures DigitsValue(s) < Pow10(|s|)
    decreases |s|
  {
    if |s| > 0 {
      DigitsValueBound(s[..|s| - 1]);
    }
  }

  lemma MulTen(x: nat, y: nat)
    ensures x * (10 * y) == 10 * (x * y)
  {
  }

  /** Splitting a digit string splits its value positionally. */
  lemma {:induction false} DigitsValueAppend(a: DigitString, b: DigitString)
    ensures AllDigits(a + b)
    ensures DigitsValue(a + b) == DigitsValue(a) * Pow10(|b|) + DigitsValue(b)
    decreases |b|
  {
    var ab: DigitString := a + b;
    if |b| == 0 {
      assert ab == a;
    } else {
      var b': DigitString := b[..|b| - 1];
      var c := b[|b| - 1];
      assert ab[..|ab| - 1] == a + b';
      assert ab[|ab| - 1] == c;
      DigitsValueAppend(a, b');
      var va, vb', p' := DigitsValue(a), DigitsValue(b'), Pow10(|b'|);
      assert DigitsValue(ab) == 10 * (va * p' + vb') + DigitValue(c);
      assert DigitsValue(b) == 10 * vb' + DigitValue(c);
      assert Pow10(|b|) == 10 * p';
      MulTen(va, p');
    }
  }

  /** The length of the maximal run of digits that starts at `i`. */
  function RunLength(s: string, i: nat): (k: nat)
    requires i <= |s|
    ensures i + k <= |s|
    ensures AllDigits(s[i..i + k])
    ensures i + k == |s| || !IsDigit(s[i + k])
    decreases |s| - i
  {
    if i < |s| && IsDigit(s[i]) then
      var k' := RunLength(s, i + 1);
      assert s[i..i + 1 + k'] == [s[i]] + s[i + 1..i + 1 + k'];
      1 + k'
    else
      0
  }

  /** The canonical decimal rendering of `n` (no sign, no leading zero). */
  function NatToDigits(n: nat): (s: DigitString)
    ensures |s| >= 1
    ensures DigitsValue(s) == n
  {
    var d := ['0' + (n % 10) as char];
    if n < 10 then
      d
    else
      var prefix := NatToDigits(n / 10);
      var s: DigitString := prefix + d;
      assert s[..|s| - 1] == prefix;
      s
  }

  /** Rust's `str::parse` for an unsigned integer type whose values are below
      `limit`: one optional leading '+', then one or more ASCII digits; an empty
      string, a lone sign, a '-' sign, any other character and overflow are
      all rejected. */
  function ParseUnsigned(s: string, limit: nat): (r: Option<nat>)
    ensures r.Some? ==> r.value < limit
    ensures r.Some? ==> exists i :: 0 <= i < |s| && IsDigit(s[i])
    ensures |s| > 0 && s[0] == '-' ==> r.None?
  {
    var digits := if |s| > 0 && s[0] == '+' then s[1..] else s;
    if |digits| == 0 || !AllDigits(digits) then None
    else if DigitsValue(digits) < limit then
      assert IsDigit(s[|s| - |digits|]);
      Some(DigitsValue(digits))
    else None
  }

  const U32Limit: nat := 0x1_0000_0000
  const U64Limit: nat := 0x1_0000_0000_0000_0000

  /** `str::parse::<u32>` */
  function ParseU32(s: string): Option<nat> {
    ParseUnsigned(s, U32Limit)
  }

  /** `str::parse::<u64>` */
  function ParseU64(s: string): Option<nat> {
    ParseUnsigned(s, U64Limit)
  }

  /** Parsing accepts every in-range decimal rendering, with or without a '+'. */
  lemma ParseUnsignedRoundTrip(n: nat, limit: nat)
    requires n < limit
    ensures ParseUnsigned(NatToDigits(n), limit) == Some(n)
    ensures ParseUnsigned("+" + NatToDigits(n), limit) == Some(n)
  {
    var d := NatToDigits(n);
    assert d[0] != '+' by { assert IsDigit(d[0]); }
    assert ("+" + d)[1..] == d;
  }

  /** Parsing rejects every rendering of an out-of-range value. */
  lemma ParseUnsignedOverflow(n: nat, limit: nat)
    requires n >= limit
    ensures ParseUnsigned(NatToDigits(n), limit) == None
  {
    var d := NatToDigits(n);
    assert d[0] != '+' by { assert IsDigit(d[0]); }
  }
}
