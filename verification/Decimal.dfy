/**
 Decimal text as C prints and reads it: "%d", "%.Nf", and the "%lf" of sscanf or strtod.
 A gdouble is an exact real here, so rounding to N places is the only loss.
 */
module Decimal {
  import opened Common
  import opened Reals

  predicate IsDigit(c: char) {
    '0' <= c <= '9'
  }

  predicate AllDigits(s: string) {
    forall i :: 0 <= i < |s| ==> IsDigit(s[i])
  }

  function DigitChar(d: nat): (c: char)
    requires d < 10
    ensures IsDigit(c) && DigitValue(c) == d
  {
    ('0' as int + d) as char
  }

  function DigitValue(c: char): (d: nat)
    requires IsDigit(c)
    ensures d < 10
  {
    c as int - '0' as int
  }

  /** "%d" of a non-negative number. */
  function NatText(n: nat): (s: string)
    ensures |s| >= 1 && AllDigits(s)
  {
    if n < 10 then [DigitChar(n)] else NatText(n / 10) + [DigitChar(n % 10)]
  }

  function Zeros(k: nat): (s: string)
    ensures |s| == k && AllDigits(s)
  {
    seq(k, _ => '0')
  }

  /** "%0Nd": padded with zeros to the given width. */
  function PaddedText(n: nat, width: nat): (s: string)
    ensures |s| >= 1 && |s| >= width && AllDigits(s)
  {
    var s := NatText(n);
    if |s| >= width then s else Zeros(width - |s|) + s
  }

  function NatValue(s: string): nat
    requires AllDigits(s)
  {
    if s == "" then 0 else 10 * NatValue(s[..|s| - 1]) + DigitValue(s[|s| - 1])
  }

  function Pow10(p: nat): (v: nat)
    ensures v >= 1
  {
    if p == 0 then 1 else 10 * Pow10(p - 1)
  }

  lemma {:induction false} TextValue(n: nat)
    ensures NatValue(NatText(n)) == n
  {
    if n >= 10 {
      TextValue(n / 10);
      assert NatText(n)[..|NatText(n)| - 1] == NatText(n / 10);
    }
  }

  lemma {:induction false} LeadingZeros(k: nat, s: string)
    requires AllDigits(s)
    ensures NatValue(Zeros(k) + s) == NatValue(s)
  {
    var z := Zeros(k) + s;
    if s == "" {
      if k > 0 {
        assert z[..|z| - 1] == Zeros(k - 1) + s;
        LeadingZeros(k - 1, s);
      }
    } else {
      assert z[..|z| - 1] == Zeros(k) + s[..|s| - 1];
      LeadingZeros(k, s[..|s| - 1]);
    }
  }

  lemma PaddedValue(n: nat, width: nat)
    ensures NatValue(PaddedText(n, width)) == n
  {
    TextValue(n);
    LeadingZeros(if |NatText(n)| >= width then 0 else width - |NatText(n)|, NatText(n));
  }

  /** A number has at most p digits exactly when it is below 10^p. */
  lemma {:induction false} TextLength(n: nat, p: nat)
    requires p >= 1
    ensures |NatText(n)| <= p <==> n < Pow10(p)
  {
    if n < 10 {
      Pow10Grows(1, p);
    } else if p == 1 {
      assert Pow10(1) == 10;
    } else {
      TextLength(n / 10, p - 1);
    }
  }

  lemma {:induction false} Pow10Grows(p: nat, q: nat)
    requires p <= q
    ensures Pow10(p) <= Pow10(q)
  {
    if p < q { Pow10Grows(p, q - 1); }
  }

  lemma TextInjective(m: nat, n: nat, width: nat)
    requires PaddedText(m, width) == PaddedText(n, width)
    ensures m == n
  {
    PaddedValue(m, width);
    PaddedValue(n, width);
  }

  // ---------------------------------------------------------------- fixed-point text

  /** Nearest integer, ties to even: how printf rounds. */
  function RoundHalfEven(x: real): (n: nat)
    requires x >= 0.0
    ensures -0.5 <= n as real - x <= 0.5
  {
    var f := x.Floor;
    if x - f as real < 0.5 then f
    else if x - f as real > 0.5 || f % 2 == 1 then f + 1
    else f
  }

  /** x in units of the last of N places, rounded. */
  function Units(x: real, places: nat): nat
    requires x >= 0.0
  {
    RoundHalfEven(x * Pow10(places) as real)
  }

  function FromUnits(n: nat, places: nat): (r: real)
    ensures r >= 0.0 && r * Pow10(places) as real == n as real
  {
    n as real / Pow10(places) as real
  }

  /** x rounded to the number of places that "%.Nf" prints. */
  function Rounded(x: real, places: nat): (r: real)
    ensures x >= 0.0 ==> r >= 0.0
    ensures x <= 0.0 ==> r <= 0.0
  {
    if x >= 0.0 then FromUnits(Units(x, places), places) else -FromUnits(Units(-x, places), places)
  }

  /** The digits of n units, with the point before the last N of them. */
  function UnitsText(n: nat, places: nat): string {
    hide Pow10, NatText, PaddedText;
    NatText(n / Pow10(places)) + "." + PaddedText(n % Pow10(places), places)
  }

  lemma UnitsStartWithDigit(n: nat, places: nat)
    ensures UnitsText(n, places) != "" && IsDigit(UnitsText(n, places)[0])
  {
    hide NatText, PaddedText, Pow10;
  }

  /** "%.Nf" with at least one place. A negative number keeps its sign even when it prints as zero. */
  function FixedText(x: real, places: nat): (s: string)
    requires places >= 1
  {
    if x >= 0.0 then UnitsText(Units(x, places), places) else "-" + UnitsText(Units(-x, places), places)
  }

  // ---------------------------------------------------------------- reading

  /** The leading digits of a text, and what follows them. */
  function Digits(s: string): (r: (string, string))
    ensures s == r.0 + r.1 && AllDigits(r.0)
    ensures r.1 != "" ==> !IsDigit(r.1[0])
  {
    if s == "" || !IsDigit(s[0]) then ("", s)
    else
      var (d, rest) := Digits(s[1..]);
      ([s[0]] + d, rest)
  }

  /** A value and the text after it. */
  datatype Scanned = Scanned(value: real, rest: string)

  /** Digits with an optional decimal point; at least one digit is needed. Exponents are not part of this model. */
  function ScanUnsigned(s: string): Option<Scanned> {
    var (whole, t) := Digits(s);
    if t != "" && t[0] == '.' then
      var (fraction, rest) := Digits(t[1..]);
      if whole == "" && fraction == "" then None
      else Some(Scanned(PointValue(whole, fraction), rest))
    else if whole == "" then None
    else Some(Scanned(PointValue(whole, ""), t))
  }

  function PointValue(whole: string, fraction: string): real
    requires AllDigits(whole) && AllDigits(fraction)
  {
    NatValue(whole) as real + NatValue(fraction) as real / Pow10(|fraction|) as real
  }

  /** strtod on text without leading blanks: an optional sign, then the number. */
  function ScanReal(s: string): Option<Scanned> {
    if s != "" && s[0] == '-' then
      match ScanUnsigned(s[1..])
      case None => None
      case Some(v) => Some(v.(value := -v.value))
    else if s != "" && s[0] == '+' then ScanUnsigned(s[1..])
    else ScanUnsigned(s)
  }

  /** g_strtod: zero when there is no number. */
  function Strtod(s: string): real {
    match ScanReal(s)
    case None => 0.0
    case Some(v) => v.value
  }

  lemma {:induction false} DigitsThenRest(d: string, rest: string)
    requires AllDigits(d) && (rest == "" || !IsDigit(rest[0]))
    ensures Digits(d + rest) == (d, rest)
  {
    if d == "" {
      assert d + rest == rest;
    } else {
      assert (d + rest)[1..] == d[1..] + rest;
      DigitsThenRest(d[1..], rest);
      assert [d[0]] + d[1..] == d;
    }
  }

  lemma PaddedLength(n: nat, p: nat)
    requires p >= 1 && n < Pow10(p)
    ensures |PaddedText(n, p)| == p
  {
    TextLength(n, p);
  }

  lemma WholeAndFraction(n: nat, scale: nat)
    requires scale >= 1
    ensures (n / scale) as real + (n % scale) as real / scale as real == n as real / scale as real
  {
    var q, r, s := (n / scale) as real, (n % scale) as real, scale as real;
    assert n == (n / scale) * scale + n % scale;
    assert n as real == q * s + r;
    assert (q + r / s) * s == q * s + r;
  }

  lemma RemainderIsSmall(n: nat, scale: nat)
    requires scale >= 1
    ensures n % scale < scale
  {
  }

  /** Reading whole digits, a point and fraction digits. */
  lemma ScanParts(whole: string, fraction: string, rest: string)
    requires AllDigits(whole) && AllDigits(fraction) && |whole| >= 1
    requires rest == "" || !IsDigit(rest[0])
    ensures ScanUnsigned(whole + "." + fraction + rest) == Some(Scanned(PointValue(whole, fraction), rest))
  {
    hide PointValue, Digits;
    var s, tail := whole + "." + fraction + rest, "." + fraction + rest;
    assert s == whole + tail;
    DigitsThenRest(whole, tail);
    assert tail[1..] == fraction + rest;
    DigitsThenRest(fraction, rest);
  }

  /** Printing and reading back gives the value rounded to N places, and reading stops after it. */
  lemma ScanPrinted(n: nat, places: nat, rest: string)
    requires places >= 1 && (rest == "" || !IsDigit(rest[0]))
    ensures ScanUnsigned(UnitsText(n, places) + rest) == Some(Scanned(FromUnits(n, places), rest))
  {
    hide Pow10, ScanUnsigned, NatText, PaddedText, NatValue;
    var scale := Pow10(places);
    var whole, fraction := NatText(n / scale), PaddedText(n % scale, places);
    ScanParts(whole, fraction, rest);
    RemainderIsSmall(n, scale);
    PaddedLength(n % scale, places);
    TextValue(n / scale);
    PaddedValue(n % scale, places);
    WholeAndFraction(n, scale);
  }

  lemma StrtodPrinted(x: real, places: nat)
    requires places >= 1
    ensures Strtod(FixedText(x, places)) == Rounded(x, places)
  {
    hide Pow10, ScanUnsigned, UnitsText, Units, FromUnits;
    var n := Units(if x >= 0.0 then x else -x, places);
    var s := UnitsText(n, places);
    ScanPrinted(n, places, "");
    UnitsStartWithDigit(n, places);
    assert s + "" == s && ("-" + s)[1..] == s;
  }

  /** Rounding moves a value by at most half a unit in the last place. */
  lemma RoundedIsNear(x: real, places: nat)
    ensures -0.5 <= (Rounded(x, places) - x) * Pow10(places) as real <= 0.5
  {
    hide Pow10, RoundHalfEven;
    var scale := Pow10(places) as real;
    if x < 0.0 {
      var r := FromUnits(Units(-x, places), places);
      assert (-r - x) * scale == -(r * scale - -x * scale);
    } else {
      var r := FromUnits(Units(x, places), places);
      assert (r - x) * scale == r * scale - x * scale;
    }
  }

  lemma UnitsRoundTrip(n: nat, places: nat)
    ensures Units(FromUnits(n, places), places) == n
  {
  }

  /** A value with N places prints and reads back unchanged. */
  lemma RoundedIsStable(x: real, places: nat)
    ensures Rounded(Rounded(x, places), places) == Rounded(x, places)
  {
    hide Pow10, Units;
    var n := Units(if x >= 0.0 then x else -x, places);
    var r := FromUnits(n, places);
    UnitsRoundTrip(n, places);
    if x < 0.0 && -r >= 0.0 {
      assert r == 0.0;
    }
  }

  // ---------------------------------------------------------------- integers

  /** "%d". */
  function IntText(n: int): string {
    if n >= 0 then NatText(n) else "-" + NatText(-n)
  }

  /** atoi on text without leading blanks. */
  function Atoi(s: string): int {
    if s != "" && s[0] == '-' then -(NatValue(Digits(s[1..]).0) as int)
    else if s != "" && s[0] == '+' then NatValue(Digits(s[1..]).0)
    else NatValue(Digits(s).0)
  }

  lemma AtoiPrinted(n: int)
    ensures Atoi(IntText(n)) == n
  {
    hide NatText, NatValue, Digits;
    var m := if n >= 0 then n else -n;
    var s := NatText(m);
    TextValue(m);
    DigitsThenRest(s, "");
    assert s + "" == s && ("-" + s)[1..] == s;
    assert IsDigit(s[0]);
  }

  lemma RoundHalfEvenBelow(y: real, bound: nat)
    requires 0.0 <= y <= bound as real
    ensures RoundHalfEven(y) <= bound
  {
  }

  /** Rounding does not cross a whole number. */
  lemma RoundedBelow(x: real, places: nat, bound: nat)
    requires x <= bound as real
    ensures Rounded(x, places) <= bound as real
  {
    hide Pow10;
    if x >= 0.0 {
      var p := Pow10(places) as real;
      Scale(p, x, bound as real);
      assert x * p == Times(x, p);
      assert (bound * Pow10(places)) as real == Times(bound as real, p);
      RoundHalfEvenBelow(x * p, bound * Pow10(places));
      var r := FromUnits(Units(x, places), places);
      Scale(p, r, bound as real);
      assert r * p == Times(r, p);
    }
  }

  /** Ties go to the even neighbour, so half a unit below an even number is enough to reach it. */
  lemma RoundHalfEvenReaches(y: real, n: nat)
    requires y >= 0.0 && n > 0 && n % 2 == 0
    ensures RoundHalfEven(y) >= n <==> y >= n as real - 0.5
  {
  }

  lemma FromUnitsReaches(u: nat, places: nat, bound: nat)
    ensures FromUnits(u, places) >= bound as real <==> u >= bound * Pow10(places)
  {
    hide Pow10;
    var p, n, r := Pow10(places) as real, bound * Pow10(places), FromUnits(u, places);
    assert n as real == Times(bound as real, p) && r * p == Times(r, p);
    hide Times;
    Scale(p, bound as real, r);
  }

  /** When rounding reaches a whole number from below. */
  lemma RoundedReaches(x: real, places: nat, bound: nat)
    requires x >= 0.0 && bound * Pow10(places) > 0 && (bound * Pow10(places)) % 2 == 0
    ensures Rounded(x, places) >= bound as real <==> x * Pow10(places) as real >= (bound * Pow10(places)) as real - 0.5
  {
    hide Pow10, RoundHalfEven, FromUnits;
    RoundHalfEvenReaches(x * Pow10(places) as real, bound * Pow10(places));
    FromUnitsReaches(Units(x, places), places, bound);
  }

  lemma RoundedNegates(x: real, places: nat)
    ensures Rounded(-x, places) == -Rounded(x, places)
  {
    hide Pow10;
    assert Units(0.0, places) == 0;
  }

  lemma RoundHalfEvenWhole(n: nat)
    ensures RoundHalfEven(n as real) == n
  {
  }

  lemma UnitsOfWhole(m: nat, places: nat)
    ensures Units(m as real, places) == m * Pow10(places) && FromUnits(m * Pow10(places), places) == m as real
  {
    hide RoundHalfEven, Pow10;
    var p := Pow10(places);
    assert m as real * p as real == (m * p) as real;
    RoundHalfEvenWhole(m * p);
    OverTimes(m as real, p as real);
    assert FromUnits(m * p, places) == Over(Times(m as real, p as real), p as real);
  }

  /** A whole number prints and reads back unchanged. */
  lemma RoundedWhole(n: int, places: nat)
    ensures Rounded(n as real, places) == n as real
  {
    hide Units, FromUnits, Pow10;
    UnitsOfWhole(if n >= 0 then n else -n, places);
    assert n < 0 ==> -(n as real) == (-n) as real;
  }
}
