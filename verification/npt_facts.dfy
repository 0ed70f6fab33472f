/** Properties of `parse_npt`: what it returns for well-formed NPT text, how
    fractions convert to milliseconds, and the decoder's own test values. */
module NptFacts {
  import opened Results
  import opened Numbers
  import opened Npt

  /** Two-digit, zero-padded rendering (the `MM` and `SS` fields). */
  function Pad2(n: nat): (s: DigitString)
    requires n < 100
    ensures |s| == 2 && DigitsValue(s) == n
  {
    var s := ['0' + (n / 10) as char, '0' + (n % 10) as char];
    assert s[..1][..0] == [];
    assert DigitsValue(s[..1]) == n / 10;
    s
  }

  /** An optional fraction: nothing, or '.' followed by the digits. */
  function FracSuffix(f: DigitString): string {
    if |f| == 0 then "" else "." + f
  }

  /** `:MM:SS` */
  function ClockTail(m: nat, s: nat): (c: string)
    requires m < 100 && s < 100
    ensures |c| == 6
  {
    var md, sd := Pad2(m), Pad2(s);
    [':', md[0], md[1], ':', sd[0], sd[1]]
  }

  /** `H:MM:SS[.f]` */
  function RenderHms(h: nat, m: nat, s: nat, f: DigitString): string
    requires m < 100 && s < 100
  {
    NatToDigits(h) + ClockTail(m, s) + FracSuffix(f)
  }

  /** `S[.f]` */
  function RenderSec(s: nat, f: DigitString): string {
    NatToDigits(s) + FracSuffix(f)
  }

  /** The fraction group reads back exactly the digits that were written. */
  lemma FracAtSuffix(t: string, i: nat, f: DigitString)
    requires i <= |t| && t[i..] == FracSuffix(f)
    ensures FracAt(t, i) == (if |f| == 0 then None else Some(f))
    ensures FracPart(FracAt(t, i)) == FracMillis(f)
  {
    if |f| > 0 {
      assert t[i] == t[i..][0];
      assert t[i + 1..] == f;
      RunLengthExact(t, i + 1, |t|);
      assert t[i + 1..i + 1 + RunLength(t, i + 1)] == f;
    } else {
      assert FracMillis(f) == 0;
    }
  }

  /** Where the fields of `H:MM:SS[.f]` sit in the rendered text. */
  lemma RenderedHmsLayout(h: nat, m: nat, s: nat, f: DigitString)
    requires m < 100 && s < 100
    ensures var t, k := RenderHms(h, m, s, f), |NatToDigits(h)|;
      && k + 6 <= |t| && t[..k] == NatToDigits(h) && ClockTailAt(t, k)
      && t[k + 1..k + 3] == Pad2(m) && t[k + 4..k + 6] == Pad2(s) && t[k + 6..] == FracSuffix(f)
  {
    var t := RenderHms(h, m, s, f);
    var hd, c := NatToDigits(h), ClockTail(m, s);
    var k := |hd|;
    ConcatSlices(hd, c, FracSuffix(f));
    ClockTailSlices(t, k, m, s);
  }

  /** A rendered `:MM:SS` inside a text is a clock tail with those fields. */
  lemma ClockTailSlices(t: string, k: nat, m: nat, s: nat)
    requires m < 100 && s < 100
    requires k + 6 <= |t| && t[k..k + 6] == ClockTail(m, s)
    ensures ClockTailAt(t, k) && t[k + 1..k + 3] == Pad2(m) && t[k + 4..k + 6] == Pad2(s)
  {
    var c := ClockTail(m, s);
    forall j | 0 <= j < 6 ensures t[k + j] == c[j] {
      assert t[k..k + 6][j] == t[k + j];
    }
    assert IsDigit(Pad2(m)[0]) && IsDigit(Pad2(m)[1]) && IsDigit(Pad2(s)[0]) && IsDigit(Pad2(s)[1]);
    assert t[k + 1..k + 3] == [c[1], c[2]] == Pad2(m);
    assert t[k + 4..k + 6] == [c[4], c[5]] == Pad2(s);
  }

  /** The three parts of `a + c + b` are its slices. */
  lemma ConcatSlices<T>(a: seq<T>, c: seq<T>, b: seq<T>)
    ensures (a + c + b)[..|a|] == a
    ensures (a + c + b)[|a|..|a| + |c|] == c
    ensures (a + c + b)[|a| + |c|..] == b
  {
  }

  /** The rendered text matches NPT_HHMMSS at its start, with the rendered
      fields as captures. */
  lemma RenderedHmsCaptures(h: nat, m: nat, s: nat, f: DigitString)
    requires m < 100 && s < 100
    ensures LeftmostHms(RenderHms(h, m, s, f), 0, |NatToDigits(h)|)
    ensures HmsCapturesAt(RenderHms(h, m, s, f), 0, |NatToDigits(h)|)
         == HmsCaptures(NatToDigits(h), Pad2(m), Pad2(s), if |f| == 0 then None else Some(f))
    ensures FracPart(HmsCapturesAt(RenderHms(h, m, s, f), 0, |NatToDigits(h)|).f) == FracMillis(f)
  {
    var t, k := RenderHms(h, m, s, f), |NatToDigits(h)|;
    RenderedHmsLayout(h, m, s, f);
    FracAtSuffix(t, k + 6, f);
    assert t[0..k] == t[..k];
    assert HmsAt(t, 0, k);
  }

  /** The rendered text decodes to the value of its match at the start. */
  lemma RenderedHmsDecodes(h: nat, m: nat, s: nat, f: DigitString)
    requires m < 100 && s < 100
    ensures HmsAt(RenderHms(h, m, s, f), 0, |NatToDigits(h)|)
    ensures ParseNpt(RenderHms(h, m, s, f)) == Some(HmsValue(RenderHms(h, m, s, f), 0, |NatToDigits(h)|))
  {
    RenderedHmsCaptures(h, m, s, f);
    ParseNptHms(RenderHms(h, m, s, f), 0, |NatToDigits(h)|);
  }

  /** The value of that match is the rendered fields' duration. */
  lemma RenderedHmsValue(h: nat, m: nat, s: nat, f: DigitString)
    requires m < 100 && s < 100
    requires HmsAt(RenderHms(h, m, s, f), 0, |NatToDigits(h)|)
    ensures HmsValue(RenderHms(h, m, s, f), 0, |NatToDigits(h)|) == ((h * 60 + m) * 60 + s) * 1000 + FracMillis(f)
  {
    RenderedHmsCaptures(h, m, s, f);
  }

  /** Well-formed `H:MM:SS[.f]` decodes to H*3600 + MM*60 + SS seconds plus
      floor(1000 * f / 10^|f|) milliseconds. */
  lemma ParseRenderedHms(h: nat, m: nat, s: nat, f: DigitString)
    requires m < 100 && s < 100
    ensures ParseNpt(RenderHms(h, m, s, f)) == Some((h * 3600 + m * 60 + s) * 1000 + FracMillis(f))
  {
    var t, k := RenderHms(h, m, s, f), |NatToDigits(h)|;
    RenderedHmsDecodes(h, m, s, f);
    RenderedHmsValue(h, m, s, f);
    HmsMillis(h, m, s);
    var v := HmsValue(t, 0, k);
    assert v == (h * 3600 + m * 60 + s) * 1000 + FracMillis(f);
    assert ParseNpt(t) == Some(v);
  }

  /** A text without ':' never matches NPT_HHMMSS. */
  lemma NoColonNoHms(t: string)
    requires forall i :: 0 <= i < |t| ==> t[i] != ':'
    ensures NoHms(t)
  {
  }

  /** Rendered seconds contain digits and at most one '.', never a ':'. */
  lemma RenderedSecNoColon(s: nat, f: DigitString)
    ensures forall i :: 0 <= i < |RenderSec(s, f)| ==> RenderSec(s, f)[i] != ':'
  {
    var t, sd := RenderSec(s, f), NatToDigits(s);
    var k := |sd|;
    forall i | 0 <= i < |t| ensures t[i] != ':' {
      if i < k {
        assert t[i] == sd[i] && IsDigit(sd[i]);
      } else if i > k {
        assert t[i] == f[i - k - 1] && IsDigit(f[i - k - 1]);
      }
    }
  }

  /** The rendered text has no NPT_HHMMSS match and starts with the rendered seconds. */
  lemma RenderedSecShape(s: nat, f: DigitString)
    ensures NoHms(RenderSec(s, f))
    ensures FirstDigitAt(RenderSec(s, f), 0)
    ensures RenderSec(s, f)[..|NatToDigits(s)|] == NatToDigits(s)
    ensures RenderSec(s, f)[|NatToDigits(s)|..] == FracSuffix(f)
  {
    var t := RenderSec(s, f);
    var sd := NatToDigits(s);
    var k := |sd|;
    assert t[..k] == sd;
    assert t[k..] == FracSuffix(f);
    RenderedSecNoColon(s, f);
    NoColonNoHms(t);
    assert IsDigit(sd[0]);
  }

  /** Well-formed `S[.f]` decodes to S seconds plus the fraction. */
  lemma ParseRenderedSec(s: nat, f: DigitString)
    ensures ParseNpt(RenderSec(s, f)) == Some(s * 1000 + FracMillis(f))
  {
    var t := RenderSec(s, f);
    var sd := NatToDigits(s);
    var k := |sd|;
    RenderedSecShape(s, f);
    assert k == |t| || t[k] == '.';
    RunLengthExact(t, 0, k);
    FracAtSuffix(t, k, f);
    ParseNptSec(t, 0);
  }

  lemma LtMulCancel(a: nat, b: nat, d: nat)
    requires a * d < b * d
    ensures a < b
  {
  }

  /** x / d is the unique q with q * d <= x < (q + 1) * d. */
  lemma DivUnique(x: nat, d: nat, q: nat)
    requires d >= 1 && q * d <= x < q * d + d
    ensures x / d == q
  {
    var q', r := x / d, x % d;
    assert x == q' * d + r && r < d;
    assert (q + 1) * d == q * d + d;
    assert (q' + 1) * d == q' * d + d;
    LtMulCancel(q', q + 1, d);
    LtMulCancel(q, q' + 1, d);
  }

  /** Fractions of up to three digits convert exactly: "5" is 500 ms, "05"
      is 50 ms, "123" is 123 ms. */
  lemma FracMillisShort(f: DigitString)
    requires |f| <= 3
    ensures FracMillis(f) == DigitsValue(f) * Pow10(3 - |f|)
  {
    var v, p, e := DigitsValue(f), Pow10(|f|), Pow10(3 - |f|);
    Pow10Add(|f|, 3 - |f|);
    assert 1000 == p * e;
    assert 1000 * v == (v * e) * p;
    DivUnique(1000 * v, p, v * e);
  }

  /** Only the first three fraction digits matter: later digits are
      truncated, never rounded. */
  lemma FracMillisFirstThree(f: DigitString)
    requires |f| >= 3
    ensures FracMillis(f) == DigitsValue(f[..3])
  {
    var a: DigitString, b: DigitString := f[..3], f[3..];
    assert f == a + b;
    DigitsValueAppend(a, b);
    DigitsValueBound(b);
    Pow10Add(3, |b|);
    ThousandthsOfShifted(DigitsValue(a), DigitsValue(b), Pow10(|b|));
  }

  /** floor(1000 * (a * p + b) / (1000 * p)) == a when b < p. */
  lemma ThousandthsOfShifted(a: nat, b: nat, p: nat)
    requires b < p
    ensures (1000 * (a * p + b)) / (1000 * p) == a
  {
    var d := 1000 * p;
    var x := 1000 * (a * p + b);
    assert x == a * d + 1000 * b;
    DivUnique(x, d, a);
  }

  // The decoder's own test values. Each example text is a parameter fixed by
  // the precondition, so that the verifier does not try to evaluate the
  // scanners on a literal.

  lemma FracMillisExample123()
    ensures FracMillis("123") == 123
  {
    assert DigitsValue("123") == 123 by { assert "123"[..2] == "12" && "12"[..1] == "1" && "1"[..0] == []; }
    FracMillisShort("123");
  }

  lemma FracMillisExample45()
    ensures FracMillis("45") == 450
  {
    assert DigitsValue("45") == 45 by { assert "45"[..1] == "4" && "4"[..0] == []; }
    FracMillisShort("45");
  }

  /** One fraction digit is tenths, two are hundredths. */
  lemma FracMillisExamplesLeadingZero()
    ensures FracMillis("5") == 500
    ensures FracMillis("05") == 50
  {
    assert DigitsValue("05") == 5 by { assert "05"[..1] == "0" && "0"[..0] == []; }
    FracMillisShort("5");
    FracMillisShort("05");
  }

  lemma ParseNptExampleHms(t: string)
    requires t == "12:05:35"
    ensures ParseNpt(t) == Some((12 * 3600 + 5 * 60 + 35) * 1000)
  {
    var h: nat, m: nat, s: nat, f: DigitString := 12, 5, 35, "";
    var r := RenderHms(h, m, s, f);
    assert FracMillis(f) == 0 by { FracMillisShort(f); }
    assert r == t by { assert NatToDigits(h) == "12"; }
    assert ParseNpt(r) == Some(43535000) by { ParseRenderedHms(h, m, s, f); }
  }

  lemma ParseNptExampleHmsFrac(t: string)
    requires t == "12:05:35.123"
    ensures ParseNpt(t) == Some(12 * 3600000 + 5 * 60000 + 35 * 1000 + 123)
  {
    var h: nat, m: nat, s: nat, f: DigitString := 12, 5, 35, "123";
    var r := RenderHms(h, m, s, f);
    assert FracMillis(f) == 123 by { FracMillisExample123(); }
    assert r == t by { assert NatToDigits(h) == "12"; }
    assert ParseNpt(r) == Some(43535123) by { ParseRenderedHms(h, m, s, f); }
  }

  lemma ParseNptExampleSec(t: string)
    requires t == "123.45"
    ensures ParseNpt(t) == Some(123450)
  {
    var n: nat, f: DigitString := 123, "45";
    var r := RenderSec(n, f);
    assert FracMillis(f) == 450 by { FracMillisExample45(); }
    assert r == t by { assert NatToDigits(n) == "123"; }
    assert ParseNpt(r) == Some(123450) by { ParseRenderedSec(n, f); }
  }

  lemma ParseNptExampleNone(t: string)
    requires t == "not-a-time"
    ensures ParseNpt(t) == None
  {
    assert NoDigit(t);
    ParseNptNone(t);
  }
}
