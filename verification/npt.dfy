/** The "normal play time" decoder of the MediaRSS handlers: the NPT format of
    section 3.6 of RFC 2326, as the decoder reads it with two unanchored
    regular expressions searched in turn:

      NPT_HHMMSS   (?P<h>\d+):(?P<m>\d{2}):(?P<s>\d{2})(\.(?P<f>\d+))?
      NPT_SEC      (?P<s>\d+)(\.(?P<f>\d+))?

    The searches are written out as scanners over `seq<char>` with ASCII digits;
    the `Hms*` / `FirstDigitAt` predicates below state, independently, what a
    leftmost-first regex search matches, and the lemmas show the two agree.
    Durations are natural numbers of milliseconds. */
module Npt {
  import opened Results
  import opened Numbers

  /** A `std::time::Duration`, to millisecond resolution. */
  type Millis = nat

  /** The capture groups of NPT_HHMMSS: hours, minutes, seconds, fraction. */
  datatype HmsCaptures = HmsCaptures(h: DigitString, m: DigitString, s: DigitString, f: Option<DigitString>)

  /** The capture groups of NPT_SEC: seconds, fraction. */
  datatype SecCaptures = SecCaptures(s: DigitString, f: Option<DigitString>)

  /** `:MM:SS` starts at `i`: the part of NPT_HHMMSS after the hours group. */
  predicate ClockTailAt(t: string, i: nat) {
    && i + 6 <= |t|
    && t[i] == ':' && IsDigit(t[i + 1]) && IsDigit(t[i + 2])
    && t[i + 3] == ':' && IsDigit(t[i + 4]) && IsDigit(t[i + 5])
  }

  /** The optional group `(\.(?P<f>\d+))?` tried at `i`: a '.' followed by at
      least one digit, the digits taken greedily. */
  function FracAt(t: string, i: nat): Option<DigitString> {
    if i < |t| && t[i] == '.' && RunLength(t, i + 1) >= 1 then
      Some(t[i + 1..i + 1 + RunLength(t, i + 1)])
    else
      None
  }

  /** The captures of an NPT_HHMMSS match at `p` whose hours group has `k` digits. */
  function HmsCapturesAt(t: string, p: nat, k: nat): HmsCaptures
    requires 1 <= k && p + k <= |t| && AllDigits(t[p..p + k]) && ClockTailAt(t, p + k)
  {
    var i := p + k;
    assert AllDigits(t[i + 1..i + 3]) by { assert t[i + 1..i + 3] == [t[i + 1], t[i + 2]]; }
    assert AllDigits(t[i + 4..i + 6]) by { assert t[i + 4..i + 6] == [t[i + 4], t[i + 5]]; }
    HmsCaptures(t[p..i], t[i + 1..i + 3], t[i + 4..i + 6], FracAt(t, i + 6))
  }

  /** `NPT_HHMMSS.captures` restricted to matches starting at or after `p`:
      at each position the hours group can only be the whole digit run that
      starts there, since `\d+` must be followed by ':'. */
  function FindHmsFrom(t: string, p: nat): Option<HmsCaptures>
    requires p <= |t|
    decreases |t| - p
  {
    if p == |t| then
      None
    else
      var k := RunLength(t, p);
      if 1 <= k && ClockTailAt(t, p + k) then Some(HmsCapturesAt(t, p, k)) else FindHmsFrom(t, p + 1)
  }

  /** `NPT_HHMMSS.captures(t)` */
  function FindHms(t: string): Option<HmsCaptures> {
    FindHmsFrom(t, 0)
  }

  /** `NPT_SEC.captures` restricted to matches starting at or after `p`: the
      first digit starts the match, and `\d+` takes the whole run. */
  function FindSecFrom(t: string, p: nat): Option<SecCaptures>
    requires p <= |t|
    decreases |t| - p
  {
    if p == |t| then
      None
    else if IsDigit(t[p]) then
      var k := RunLength(t, p);
      Some(SecCaptures(t[p..p + k], FracAt(t, p + k)))
    else
      FindSecFrom(t, p + 1)
  }

  /** `NPT_SEC.captures(t)` */
  function FindSec(t: string): Option<SecCaptures> {
    FindSecFrom(t, 0)
  }

  /** The milliseconds a fraction of n digits with value f adds:
      floor(1000 * f / 10^n), computed exactly. The source computes
      1000 * (f / 10^n) in `f32` and truncates it, which differs in both
      directions from three digits on: "251" gives 250 there, while
      "99999999" rounds to a whole 1000 ms. A fraction of more than 38
      digits overflows `f32` and adds nothing. */
  function FracMillis(f: DigitString): (ms: nat)
    ensures ms < 1000
  {
    DigitsValueBound(f);
    Thousandths(DigitsValue(f), Pow10(|f|))
  }

  /** floor(1000 * v / p) for a proper fraction v / p. */
  function Thousandths(v: nat, p: nat): (ms: nat)
    requires v < p
    ensures ms < 1000
  {
    (1000 * v) / p
  }

  /** `parse_npt_add_frac_sec`: add the fraction group, if it matched. */
  function AddFracSec(d: Millis, f: Option<DigitString>): (r: Millis)
    ensures d <= r < d + 1000
    ensures f.None? ==> r == d
  {
    match f
    case None => d
    case Some(frac) => d + FracMillis(frac)
  }

  /** `parse_npt`: NPT_HHMMSS first; otherwise NPT_SEC; otherwise no value. */
  function ParseNpt(t: string): Option<Millis> {
    match FindHms(t)
    case Some(c) =>
      var seconds := DigitsValue(c.s) + DigitsValue(c.m) * 60 + DigitsValue(c.h) * 3600;
      Some(AddFracSec(seconds * 1000, c.f))
    case None =>
      match FindSec(t)
      case Some(c) => Some(AddFracSec(DigitsValue(c.s) * 1000, c.f))
      case None => None
  }

  // ---------------------------------------------------------------------
  // What a leftmost-first search of each expression matches, stated
  // without the scanners.

  /** NPT_HHMMSS (without its optional fraction) matches at `p` with an hours
      group of `k` digits. */
  ghost predicate HmsAt(t: string, p: nat, k: nat) {
    1 <= k && p + k <= |t| && AllDigits(t[p..p + k]) && ClockTailAt(t, p + k)
  }

  /** `p` is the leftmost position where NPT_HHMMSS matches. */
  ghost predicate LeftmostHms(t: string, p: nat, k: nat) {
    HmsAt(t, p, k) && forall q: nat, k': nat :: q < p ==> !HmsAt(t, q, k')
  }

  ghost predicate NoHms(t: string) {
    forall p: nat, k: nat :: !HmsAt(t, p, k)
  }

  ghost predicate NoDigit(t: string) {
    forall i :: 0 <= i < |t| ==> !IsDigit(t[i])
  }

  /** `p` holds the first digit of `t`: where NPT_SEC's leftmost match starts. */
  ghost predicate FirstDigitAt(t: string, p: nat) {
    p < |t| && IsDigit(t[p]) && forall q :: 0 <= q < p ==> !IsDigit(t[q])
  }

  /** Milliseconds contributed by an optional fraction. */
  ghost function FracPart(f: Option<DigitString>): nat {
    if f.Some? then FracMillis(f.value) else 0
  }

  /** The duration an NPT_HHMMSS match at `p` denotes: H:MM:SS plus fraction. */
  ghost function HmsValue(t: string, p: nat, k: nat): Millis
    requires HmsAt(t, p, k)
  {
    var c := HmsCapturesAt(t, p, k);
    ((DigitsValue(c.h) * 60 + DigitsValue(c.m)) * 60 + DigitsValue(c.s)) * 1000 + FracPart(c.f)
  }

  /** The duration the digit run at `p` denotes as seconds, plus fraction. */
  ghost function SecValue(t: string, p: nat): Millis
    requires p < |t|
  {
    var k := RunLength(t, p);
    DigitsValue(t[p..p + k]) * 1000 + FracPart(FracAt(t, p + k))
  }

  // ---------------------------------------------------------------------
  // The scanners against the reference.

  /** A digit run ending at `j` (at the end or before a non-digit) has length j - i. */
  lemma {:induction false} RunLengthExact(t: string, i: nat, j: nat)
    requires i <= j <= |t| && AllDigits(t[i..j]) && (j == |t| || !IsDigit(t[j]))
    ensures RunLength(t, i) == j - i
    decreases j - i
  {
    if i < j {
      assert IsDigit(t[i..j][0]);
      assert t[i + 1..j] == t[i..j][1..];
      RunLengthExact(t, i + 1, j);
    }
  }

  /** `\d+` followed by ':' can only be a whole digit run. */
  lemma HmsAtIsRun(t: string, p: nat, k: nat)
    requires HmsAt(t, p, k)
    ensures k == RunLength(t, p)
  {
    RunLengthExact(t, p, p + k);
  }

  /** Where the digit run is empty or not followed by `:MM:SS`, nothing matches. */
  lemma NoHmsAtNonRun(t: string, p: nat)
    requires p < |t| && !(1 <= RunLength(t, p) && ClockTailAt(t, p + RunLength(t, p)))
    ensures forall k: nat :: !HmsAt(t, p, k)
  {
    forall k: nat | HmsAt(t, p, k) ensures false {
      HmsAtIsRun(t, p, k);
    }
  }

  /** No NPT_HHMMSS match starts in [lo, hi). */
  ghost predicate NoHmsBetween(t: string, lo: nat, hi: nat) {
    forall q: nat, k: nat :: lo <= q < hi ==> !HmsAt(t, q, k)
  }

  lemma {:induction false} FindHmsFromSpec(t: string, p: nat) returns (q: nat, k: nat)
    requires p <= |t|
    ensures FindHmsFrom(t, p).None? ==> NoHmsBetween(t, p, |t|)
    ensures FindHmsFrom(t, p).Some? ==>
      p <= q && HmsAt(t, q, k) && NoHmsBetween(t, p, q) && FindHmsFrom(t, p).value == HmsCapturesAt(t, q, k)
    decreases |t| - p
  {
    q, k := p, 0;
    if p < |t| {
      var r := RunLength(t, p);
      if 1 <= r && ClockTailAt(t, p + r) {
        k := r;
      } else {
        NoHmsAtNonRun(t, p);
        q, k := FindHmsFromSpec(t, p + 1);
      }
    }
  }

  /** Nothing matches at or past the end. */
  lemma NoHmsPastEnd(t: string)
    ensures NoHmsBetween(t, 0, |t|) <==> NoHms(t)
  {
  }

  /** The hours/minutes/seconds search finds exactly the leftmost match. */
  lemma FindHmsSpec(t: string) returns (p: nat, k: nat)
    ensures FindHms(t).None? <==> NoHms(t)
    ensures FindHms(t).Some? ==> LeftmostHms(t, p, k) && FindHms(t).value == HmsCapturesAt(t, p, k)
  {
    p, k := FindHmsFromSpec(t, 0);
    NoHmsPastEnd(t);
    if FindHms(t).Some? {
      assert !NoHms(t) by { assert HmsAt(t, p, k); }
    }
  }

  /** No digit in [lo, hi). */
  ghost predicate NoDigitBetween(t: string, lo: nat, hi: nat)
    requires hi <= |t|
  {
    forall i :: lo <= i < hi ==> !IsDigit(t[i])
  }

  lemma {:induction false} FindSecFromSpec(t: string, p: nat) returns (q: nat)
    requires p <= |t|
    ensures FindSecFrom(t, p).None? <==> NoDigitBetween(t, p, |t|)
    ensures FindSecFrom(t, p).Some? ==>
      p <= q < |t| && IsDigit(t[q]) && NoDigitBetween(t, p, q)
        && FindSecFrom(t, p).value == SecCaptures(t[q..q + RunLength(t, q)], FracAt(t, q + RunLength(t, q)))
    decreases |t| - p
  {
    q := p;
    if p < |t| && !IsDigit(t[p]) {
      q := FindSecFromSpec(t, p + 1);
    }
  }

  /** The seconds search finds the first digit run. */
  lemma FindSecSpec(t: string) returns (p: nat)
    ensures FindSec(t).None? <==> NoDigit(t)
    ensures FindSec(t).Some? ==>
      FirstDigitAt(t, p) && FindSec(t).value == SecCaptures(t[p..p + RunLength(t, p)], FracAt(t, p + RunLength(t, p)))
  {
    p := FindSecFromSpec(t, 0);
  }

  /** A match of NPT_HHMMSS contains a digit. */
  lemma HmsHasDigit(t: string, p: nat, k: nat)
    requires HmsAt(t, p, k)
    ensures !NoDigit(t)
  {
    assert IsDigit(t[p..p + k][0]);
  }

  // ---------------------------------------------------------------------
  // parse_npt

  /** The hours/minutes/seconds search returns the captures of the leftmost match. */
  lemma FindHmsAt(t: string, p: nat, k: nat)
    requires LeftmostHms(t, p, k)
    ensures FindHms(t) == Some(HmsCapturesAt(t, p, k))
  {
    var p', k' := FindHmsSpec(t);
    assert FindHms(t).Some? by { assert HmsAt(t, p, k); }
    assert p' == p;
    HmsAtIsRun(t, p, k);
    HmsAtIsRun(t, p, k');
  }

  /** The seconds search returns the run at the first digit and the fraction after it. */
  lemma FindSecAt(t: string, p: nat)
    requires FirstDigitAt(t, p)
    ensures FindSec(t) == Some(SecCaptures(t[p..p + RunLength(t, p)], FracAt(t, p + RunLength(t, p))))
  {
    var p' := FindSecSpec(t);
    assert FindSec(t).Some? by { assert IsDigit(t[p]); }
    assert p' == p;
  }

  lemma AddFracSecPart(d: Millis, f: Option<DigitString>)
    ensures AddFracSec(d, f) == d + FracPart(f)
  {
  }

  /** When NPT_HHMMSS matches, the leftmost match gives H*3600 + MM*60 + SS
      seconds plus the fraction that follows it. */
  lemma ParseNptHms(t: string, p: nat, k: nat)
    requires LeftmostHms(t, p, k)
    ensures ParseNpt(t) == Some(HmsValue(t, p, k))
  {
    FindHmsAt(t, p, k);
    var c := HmsCapturesAt(t, p, k);
    var h, m, s := DigitsValue(c.h), DigitsValue(c.m), DigitsValue(c.s);
    var seconds := s + m * 60 + h * 3600;
    AddFracSecPart(seconds * 1000, c.f);
    assert ParseNpt(t) == Some(AddFracSec(seconds * 1000, c.f));
    HmsMillis(h, m, s);
    assert HmsValue(t, p, k) == seconds * 1000 + FracPart(c.f);
  }

  /** The source's sum of seconds, minutes and hours is the clock reading. */
  lemma HmsMillis(h: nat, m: nat, s: nat)
    ensures (s + m * 60 + h * 3600) * 1000 == ((h * 60 + m) * 60 + s) * 1000
  {
  }

  /** Otherwise the first digit run gives the seconds, plus the fraction
      directly after it. */
  lemma ParseNptSec(t: string, p: nat)
    requires NoHms(t) && FirstDigitAt(t, p)
    ensures ParseNpt(t) == Some(SecValue(t, p))
  {
    assert FindHms(t).None? by { var _, _ := FindHmsSpec(t); }
    FindSecAt(t, p);
    var k := RunLength(t, p);
    AddFracSecPart(DigitsValue(t[p..p + k]) * 1000, FracAt(t, p + k));
  }

  /** `parse_npt` gives no value exactly when the text has no digit at all. */
  lemma ParseNptNone(t: string)
    ensures ParseNpt(t).None? <==> NoDigit(t)
  {
    var p, k := FindHmsSpec(t);
    var _ := FindSecSpec(t);
    if FindHms(t).Some? {
      HmsHasDigit(t, p, k);
    }
  }
}
