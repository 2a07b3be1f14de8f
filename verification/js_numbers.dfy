/** JavaScript numbers and the conversions between numbers and strings that
    the application uses: `parseFloat`, `parseInt(s, 10)`, `toFixed(f)`, and
    the implicit number-to-string conversion of template literals.

    A finite number is an exact `real`; IEEE-754 rounding, overflow to
    Infinity and the signed zero are not modelled. */
module JsNumbers {
  import opened Wrappers

  datatype Num = Finite(value: real) | Infinite(negative: bool) | NaN

  // ---------------------------------------------------------------------------
  // Decimal digits
  // ---------------------------------------------------------------------------

  predicate IsDigit(c: char) {
    '0' <= c <= '9'
  }

  function DigitValue(c: char): nat
    requires IsDigit(c)
  {
    c as int - '0' as int
  }

  function DigitChar(d: nat): (c: char)
    requires d < 10
    ensures IsDigit(c) && DigitValue(c) == d
  {
    ('0' as int + d) as char
  }

  predicate AllDigits(s: string) {
    forall i :: 0 <= i < |s| ==> IsDigit(s[i])
  }

  function Pow10(k: nat): (p: nat)
    ensures p >= 1
  {
    if k == 0 then 1 else 10 * Pow10(k - 1)
  }

  /** The value of a string of decimal digits (the empty string is 0). */
  function DigitsValue(s: string): nat
    requires AllDigits(s)
    decreases |s|
  {
    if |s| == 0 then 0 else DigitsValue(s[..|s| - 1]) * 10 + DigitValue(s[|s| - 1])
  }

  /** The decimal digits of `n`, without leading zeros. */
  function NatToString(n: nat): (s: string)
    ensures |s| >= 1 && AllDigits(s)
  {
    if n < 10 then [DigitChar(n)] else NatToString(n / 10) + [DigitChar(n % 10)]
  }

  /** `i.toString()` for an integer. */
  function IntToString(i: int): string {
    if i < 0 then "-" + NatToString(-i) else NatToString(i)
  }

  function Zeros(k: nat): (z: string)
    ensures |z| == k && AllDigits(z)
  {
    if k == 0 then "" else "0" + Zeros(k - 1)
  }

  /** The longest prefix of `s` made of decimal digits. */
  function LeadingDigits(s: string): (d: string)
    ensures d <= s && AllDigits(d)
    ensures |d| == |s| || !IsDigit(s[|d|])
  {
    if |s| == 0 || !IsDigit(s[0]) then "" else [s[0]] + LeadingDigits(s[1..])
  }

  lemma {:induction false} NatToStringValue(n: nat)
    ensures DigitsValue(NatToString(n)) == n
  {
    if n >= 10 {
      NatToStringValue(n / 10);
      var s := NatToString(n);
      assert s[..|s| - 1] == NatToString(n / 10);
    }
  }

  lemma {:induction false} DigitsValueConcat(a: string, b: string)
    requires AllDigits(a) && AllDigits(b)
    ensures AllDigits(a + b)
    ensures DigitsValue(a + b) == DigitsValue(a) * Pow10(|b|) + DigitsValue(b)
    decreases |b|
  {
    if |b| == 0 {
      assert a + b == a;
    } else {
      var ab := a + b;
      var init := b[..|b| - 1];
      var d := DigitValue(b[|b| - 1]);
      assert ab[..|ab| - 1] == a + init;
      assert ab[|ab| - 1] == b[|b| - 1];
      DigitsValueConcat(a, init);
      assert DigitsValue(ab) == DigitsValue(a + init) * 10 + d;
      assert DigitsValue(b) == DigitsValue(init) * 10 + d;
      assert Pow10(|b|) == 10 * Pow10(|init|);
      AppendDigit(DigitsValue(a), Pow10(|init|), DigitsValue(init), d);
    }
  }

  lemma AppendDigit(va: nat, p: nat, vi: nat, d: nat)
    ensures (va * p + vi) * 10 + d == va * (10 * p) + (vi * 10 + d)
  {
  }

  lemma {:induction false} ZerosValue(k: nat)
    ensures DigitsValue(Zeros(k)) == 0
  {
    if k > 0 {
      ZerosValue(k - 1);
      DigitsValueConcat("0", Zeros(k - 1));
    }
  }

  lemma {:induction false} LeadingDigitsOf(d: string, rest: string)
    requires AllDigits(d)
    requires |rest| == 0 || !IsDigit(rest[0])
    ensures LeadingDigits(d + rest) == d
    decreases |d|
  {
    if |d| > 0 {
      assert (d + rest)[1..] == d[1..] + rest;
      LeadingDigitsOf(d[1..], rest);
      assert [d[0]] + d[1..] == d;
    } else {
      assert d + rest == rest;
    }
  }

  // ---------------------------------------------------------------------------
  // Whitespace and sign
  // ---------------------------------------------------------------------------

  /** The characters ECMAScript's string-to-number grammar skips as leading
      white space (StrWhiteSpaceChar: WhiteSpace and LineTerminator). */
  predicate IsJsWhitespace(c: char) {
    var n := c as int;
    n == 0x09 || n == 0x0B || n == 0x0C || n == 0x20 || n == 0xA0 || n == 0xFEFF
    || n == 0x0A || n == 0x0D || n == 0x2028 || n == 0x2029
    || n == 0x1680 || 0x2000 <= n <= 0x200A || n == 0x202F || n == 0x205F || n == 0x3000
  }

  function TrimStart(s: string): (t: string)
    ensures |t| <= |s|
    ensures |t| == 0 || !IsJsWhitespace(t[0])
  {
    if |s| > 0 && IsJsWhitespace(s[0]) then TrimStart(s[1..]) else s
  }

  // ---------------------------------------------------------------------------
  // parseInt(s, 10) and parseFloat(s)
  // ---------------------------------------------------------------------------

  /** `parseInt(s, 10)`: leading white space, an optional sign, then the
      longest run of decimal digits; `None` stands for NaN. */
  function ParseInt(s: string): Option<int> {
    var t := TrimStart(s);
    var negative := |t| > 0 && t[0] == '-';
    var body := if |t| > 0 && (t[0] == '-' || t[0] == '+') then t[1..] else t;
    var digits := LeadingDigits(body);
    if |digits| == 0 then None
    else Some(if negative then -(DigitsValue(digits) as int) else DigitsValue(digits))
  }

  /** 10 raised to an integer power, as a real. */
  function Scale(e: int): (r: real)
    ensures r > 0.0
  {
    if e >= 0 then Pow10(e) as real else 1.0 / Pow10(-e) as real
  }

  /** The exponent part `e[+-]digits` at the start of `tail`; 0 when it is
      absent or has no digits (then parseFloat ignores it). */
  function ExponentOf(tail: string): int {
    if |tail| > 0 && (tail[0] == 'e' || tail[0] == 'E') then
      var r := tail[1..];
      var negative := |r| > 0 && r[0] == '-';
      var body := if |r| > 0 && (r[0] == '-' || r[0] == '+') then r[1..] else r;
      var d := LeadingDigits(body);
      if negative then -(DigitsValue(d) as int) else DigitsValue(d)
    else 0
  }

  /** The digits after a leading point of `rest`; none when it does not
      start with a point. */
  function FractionDigits(rest: string): (fp: string)
    ensures AllDigits(fp)
  {
    if |rest| > 0 && rest[0] == '.' then LeadingDigits(rest[1..]) else ""
  }

  /** What follows the point and its digits (all of `rest` when there is no
      point). */
  function AfterFraction(rest: string): string {
    if |rest| > 0 && rest[0] == '.' then rest[1 + |FractionDigits(rest)|..] else rest
  }

  /** The value of the numeral `ip.fp` with exponent part `tail`. */
  function DecimalValue(ip: string, fp: string, tail: string): real
    requires AllDigits(ip) && AllDigits(fp)
  {
    assert AllDigits(ip + fp);
    DigitsValue(ip + fp) as real / Pow10(|fp|) as real * Scale(ExponentOf(tail))
  }

  /** parseFloat after the sign: "Infinity", or the longest prefix of the form
      digits [. digits] [exponent] / . digits [exponent]; NaN if none. */
  function ParseUnsignedFloat(t: string): Num {
    if "Infinity" <= t then Infinite(false)
    else
      var ip := LeadingDigits(t);
      var rest := t[|ip|..];
      var fp := FractionDigits(rest);
      if |ip| == 0 && |fp| == 0 then NaN
      else Finite(DecimalValue(ip, fp, AfterFraction(rest)))
  }

  function Negate(n: Num): Num {
    match n
    case Finite(v) => Finite(-v)
    case Infinite(neg) => Infinite(!neg)
    case NaN => NaN
  }

  /** `parseFloat(s)`. */
  function ParseFloat(s: string): Num {
    var t := TrimStart(s);
    if |t| > 0 && t[0] == '-' then Negate(ParseUnsignedFloat(t[1..]))
    else if |t| > 0 && t[0] == '+' then ParseUnsignedFloat(t[1..])
    else ParseUnsignedFloat(t)
  }

  // ---------------------------------------------------------------------------
  // toFixed and number-to-string
  // ---------------------------------------------------------------------------

  function Abs(x: real): real {
    if x < 0.0 then -x else x
  }

  predicate IsWhole(y: real) {
    y.Floor as real == y
  }

  /** The digits of `n / 10^f` written with exactly `f` digits after the
      point (no point when `f` is 0), at least one digit before it. */
  function FixedDigits(n: nat, f: nat): string {
    var m := NatToString(n);
    if f == 0 then m
    else
      var padded := Padded(m, f);
      padded[..|padded| - f] + "." + padded[|padded| - f..]
  }

  /** `m` with zeros in front, so that it has more than `f` digits. */
  function Padded(m: string, f: nat): (padded: string)
    requires |m| >= 1
    ensures |padded| >= f + 1
  {
    if |m| <= f then Zeros(f + 1 - |m|) + m else m
  }

  lemma PaddedValue(m: string, f: nat)
    requires |m| >= 1 && AllDigits(m)
    ensures AllDigits(Padded(m, f)) && DigitsValue(Padded(m, f)) == DigitsValue(m)
  {
    var padded := Padded(m, f);
    if |m| <= f {
      var k := f + 1 - |m|;
      assert padded == Zeros(k) + m;
      ZerosThen(k, m);
    } else {
      assert padded == m;
    }
  }

  /** Leading zeros do not change the value of a digit string. */
  lemma ZerosThen(k: nat, m: string)
    requires AllDigits(m)
    ensures AllDigits(Zeros(k) + m) && DigitsValue(Zeros(k) + m) == DigitsValue(m)
  {
    DigitsValueConcat(Zeros(k), m);
    ZerosValue(k);
    ZeroTimes(DigitsValue(Zeros(k)), Pow10(|m|));
  }

  lemma ZeroTimes(a: nat, b: nat)
    requires a == 0
    ensures a * b == 0
  {
  }

  /** `a * 10^f`: the point moved `f` places to the right. */
  function Shift(a: real, f: nat): (r: real)
    ensures a >= 0.0 ==> r >= 0.0
  {
    a * Pow10(f) as real
  }

  /** A magnitude written with a leading "-" when `negative`. */
  function WithSign(negative: bool, digits: string): string {
    if negative then "-" + digits else digits
  }

  /** Round half up, for a non-negative real. */
  function RoundHalfUp(y: real): nat
    requires y >= 0.0
  {
    (y + 0.5).Floor
  }

  /** `x.toFixed(f)`: the integer `n` nearest to `|x| * 10^f` (the larger one
      on a tie), printed with `f` decimals, preceded by "-" when `x` is
      negative. */
  function ToFixed(x: real, f: nat): string {
    WithSign(x < 0.0, FixedDigits(RoundHalfUp(Shift(Abs(x), f)), f))
  }

  /** The largest number of decimals the number-to-string conversion writes. */
  const MaxFractionDigits: nat := 20

  /** `y` is written exactly with `k` decimals. */
  predicate WholeAt(y: real, k: nat) {
    IsWhole(Shift(y, k))
  }

  /** The fewest decimals, at least `k`, that write `y` exactly. */
  function ExactFractionDigits(y: real, k: nat): (r: Option<nat>)
    ensures r.Some? ==> k <= r.value <= MaxFractionDigits && WholeAt(y, r.value)
    ensures r.Some? ==> forall j :: k <= j < r.value ==> !WholeAt(y, j)
    ensures r.None? ==> forall j :: k <= j <= MaxFractionDigits ==> !WholeAt(y, j)
    decreases MaxFractionDigits + 1 - k
  {
    if k > MaxFractionDigits then None
    else if WholeAt(y, k) then Some(k)
    else ExactFractionDigits(y, k + 1)
  }

  /** `String(x)` / `${x}` for a finite number: the exact decimal with the
      fewest decimals, in positional notation. */
  function NumberToString(x: real): string {
    match ExactFractionDigits(Abs(x), 0)
    case Some(k) => WithSign(x < 0.0, FixedDigits(Shift(Abs(x), k).Floor, k))
    case None => ToFixed(x, MaxFractionDigits)
  }

  // ---------------------------------------------------------------------------
  // Round trips
  // ---------------------------------------------------------------------------

  /** `parseInt` reads back what `toString` writes for an integer. */
  lemma IntToStringParses(i: int)
    ensures ParseInt(IntToString(i)) == Some(i)
  {
    var n := if i < 0 then -i else i;
    NatToStringValue(n);
    LeadingDigitsOf(NatToString(n), "");
    assert NatToString(n) + "" == NatToString(n);
    if i < 0 {
      assert ("-" + NatToString(n))[1..] == NatToString(n);
    }
  }

  /** Hence `toString` on integers is injective. */
  lemma IntToStringInjective(a: int, b: int)
    ensures IntToString(a) == IntToString(b) <==> a == b
  {
    IntToStringParses(a);
    IntToStringParses(b);
  }

  /** The pieces of a fixed-point string: an integer part with at least one
      digit, then (when `f > 0`) a point and exactly `f` digits, whose joint
      value is `n`. */
  lemma FixedDigitsShape(n: nat, f: nat) returns (ip: string, fp: string)
    ensures AllDigits(ip) && AllDigits(fp) && |ip| >= 1 && |fp| == f
    ensures FixedDigits(n, f) == if f == 0 then ip else ip + "." + fp
    ensures DigitsValue(ip + fp) == n
  {
    var m := NatToString(n);
    NatToStringValue(n);
    if f == 0 {
      ip, fp := m, "";
      assert ip + fp == m;
    } else {
      var padded := Padded(m, f);
      PaddedValue(m, f);
      ip, fp := padded[..|padded| - f], padded[|padded| - f..];
      assert ip + fp == padded;
    }
  }

  /** The number `n / 10^f` that a fixed-point string denotes. */
  function Ratio(n: nat, f: nat): real {
    n as real / Pow10(f) as real
  }

  /** An integer numeral is parsed by the decimal grammar with no point and
      no exponent. */
  lemma ParseUnsignedWhole(ip: string)
    requires AllDigits(ip) && |ip| >= 1
    ensures ParseUnsignedFloat(ip) == Finite(DecimalValue(ip, "", ""))
  {
    assert !("Infinity" <= ip) by {
      assert IsDigit(ip[0]);
    }
    LeadingDigitsOf(ip, "");
    assert ip + "" == ip;
    assert ip[|ip|..] == "";
    assert FractionDigits("") == "" && AfterFraction("") == "";
  }

  lemma DecimalValueWhole(ip: string)
    requires AllDigits(ip)
    ensures DecimalValue(ip, "", "") == DigitsValue(ip) as real
  {
    assert ip + "" == ip;
    assert ExponentOf("") == 0;
    assert Pow10(0) == 1;
  }

  /** A numeral with a point is parsed by the decimal grammar with no
      exponent. */
  lemma ParseUnsignedPoint(ip: string, fp: string)
    requires AllDigits(ip) && AllDigits(fp) && |ip| >= 1
    ensures ParseUnsignedFloat(ip + "." + fp) == Finite(DecimalValue(ip, fp, ""))
  {
    var body := ip + "." + fp;
    assert !("Infinity" <= body) by {
      assert body[0] == ip[0] && IsDigit(ip[0]);
    }
    var rest := "." + fp;
    assert body == ip + rest;
    LeadingDigitsOf(ip, rest);
    assert body[|ip|..] == rest;
    assert rest[1..] == fp;
    LeadingDigitsOf(fp, "");
    assert fp + "" == fp;
    assert FractionDigits(rest) == fp;
    assert AfterFraction(rest) == "";
  }

  lemma DecimalValuePoint(ip: string, fp: string)
    requires AllDigits(ip) && AllDigits(fp)
    ensures AllDigits(ip + fp)
    ensures DecimalValue(ip, fp, "") == Ratio(DigitsValue(ip + fp), |fp|)
  {
    assert ExponentOf("") == 0;
    assert Scale(0) == 1.0 by {
      assert Pow10(0) == 1;
    }
  }

  lemma RatioWhole(n: nat)
    ensures Ratio(n, 0) == n as real
  {
    assert Pow10(0) == 1;
  }

  /** The unsigned parse of a fixed-point string is its exact value. */
  lemma ParseUnsignedFixed(n: nat, f: nat)
    ensures ParseUnsignedFloat(FixedDigits(n, f)) == Finite(Ratio(n, f))
  {
    var ip, fp := FixedDigitsShape(n, f);
    if f == 0 {
      assert ip + fp == ip;
      ParseUnsignedWhole(ip);
      DecimalValueWhole(ip);
      RatioWhole(n);
    } else {
      ParseUnsignedPoint(ip, fp);
      DecimalValuePoint(ip, fp);
    }
  }

  /** A string starting with a digit is parsed by the unsigned grammar. */
  lemma ParseFloatOfDigitStart(t: string)
    requires |t| > 0 && IsDigit(t[0])
    ensures ParseFloat(t) == ParseUnsignedFloat(t)
  {
    assert TrimStart(t) == t;
  }

  /** A minus sign followed by a digit negates the unsigned parse. */
  lemma ParseFloatOfMinusDigitStart(t: string)
    requires |t| > 0 && IsDigit(t[0])
    ensures ParseFloat("-" + t) == Negate(ParseUnsignedFloat(t))
  {
    var s := "-" + t;
    assert s[0] == '-' && s[1..] == t;
    assert TrimStart(s) == s;
  }

  /** A sign in front of a digit string negates the unsigned parse or
      leaves it as it is. */
  lemma ParseSigned(t: string, negative: bool)
    requires |t| > 0 && IsDigit(t[0])
    ensures ParseFloat(WithSign(negative, t))
         == if negative then Negate(ParseUnsignedFloat(t)) else ParseUnsignedFloat(t)
  {
    if negative {
      assert WithSign(negative, t) == "-" + t;
      ParseFloatOfMinusDigitStart(t);
    } else {
      assert WithSign(negative, t) == t;
      ParseFloatOfDigitStart(t);
    }
  }

  lemma FixedDigitsStart(n: nat, f: nat)
    ensures |FixedDigits(n, f)| > 0 && IsDigit(FixedDigits(n, f)[0])
  {
    var ip, fp := FixedDigitsShape(n, f);
    assert FixedDigits(n, f)[0] == ip[0];
  }

  /** parseFloat reads back a signed fixed-point string exactly. */
  lemma ParseFixed(n: nat, f: nat, negative: bool)
    ensures ParseFloat(WithSign(negative, FixedDigits(n, f)))
         == Finite(if negative then -Ratio(n, f) else Ratio(n, f))
  {
    ParseUnsignedFixed(n, f);
    FixedDigitsStart(n, f);
    ParseSigned(FixedDigits(n, f), negative);
  }

  /** Half a unit in the `f`-th decimal place: `0.5 / 10^f`. */
  function HalfUnit(f: nat): (h: real)
    ensures h > 0.0
  {
    0.5 / Pow10(f) as real
  }

  /** Rounding a non-negative `a` to `f` decimals moves it by at most half a
      unit of the last place. */
  lemma RoundedWithinHalfUnit(a: real, f: nat)
    requires a >= 0.0
    ensures -HalfUnit(f) <= Ratio(RoundHalfUp(Shift(a, f)), f) - a <= HalfUnit(f)
  {
    var p := Pow10(f) as real;
    var y := Shift(a, f);
    var n := RoundHalfUp(y);
    assert y - 0.5 < n as real <= y + 0.5;
    DivisionBound(n as real, y, p);
    assert y / p == a;
  }

  lemma DivisionBound(n: real, y: real, p: real)
    requires p >= 1.0
    requires y - 0.5 < n <= y + 0.5
    ensures -0.5 / p <= n / p - y / p <= 0.5 / p
  {
    assert n / p - y / p == (n - y) / p;
  }

  /** parseFloat reads back `x.toFixed(f)` as `x` rounded to `f` decimals:
      never NaN, and within half a unit of the last place of `x`. */
  lemma ToFixedParses(x: real, f: nat)
    ensures ParseFloat(ToFixed(x, f)).Finite?
    ensures -HalfUnit(f) <= ParseFloat(ToFixed(x, f)).value - x <= HalfUnit(f)
  {
    var n := RoundHalfUp(Shift(Abs(x), f));
    var r := Ratio(n, f);
    assert ToFixed(x, f) == WithSign(x < 0.0, FixedDigits(n, f));
    ParseFixed(n, f, x < 0.0);
    RoundedWithinHalfUnit(Abs(x), f);
    SignedWithin(r, x, HalfUnit(f));
  }

  /** Putting the sign of `x` back on a magnitude close to `|x|` gives a
      number equally close to `x`. */
  lemma SignedWithin(r: real, x: real, h: real)
    requires -h <= r - Abs(x) <= h
    ensures -h <= (if x < 0.0 then -r else r) - x <= h
  {
  }

  /** When `a` is written exactly with `d` decimals, the digits chosen for it
      denote `a` itself. */
  lemma WholeRatio(a: real, d: nat)
    requires a >= 0.0 && WholeAt(a, d)
    ensures Shift(a, d).Floor >= 0
    ensures Ratio(Shift(a, d).Floor, d) == a
  {
    var p := Pow10(d) as real;
    var n := Shift(a, d).Floor;
    assert n as real == a * p;
    assert (a * p) / p == a;
  }

  /** parseFloat reads back the number-to-string conversion of any number that
      has at most `MaxFractionDigits` decimals. */
  lemma NumberToStringParses(x: real, k: nat)
    requires k <= MaxFractionDigits && WholeAt(Abs(x), k)
    ensures ParseFloat(NumberToString(x)) == Finite(x)
  {
    var a := Abs(x);
    var r := ExactFractionDigits(a, 0);
    assert r.Some?;
    var d := r.value;
    WholeRatio(a, d);
    var n: nat := Shift(a, d).Floor;
    ParseFixed(n, d, x < 0.0);
  }

  /** A character that may appear in a written number: digit, point or sign. */
  predicate NumeralChar(c: char) {
    IsDigit(c) || c == '.' || c == '-'
  }

  /** A fixed-point string is non-empty and made of numeral characters only. */
  lemma FixedDigitsChars(n: nat, f: nat)
    ensures |FixedDigits(n, f)| >= 1
    ensures forall c :: c in FixedDigits(n, f) ==> NumeralChar(c)
  {
    var ip, fp := FixedDigitsShape(n, f);
    assert forall c :: c in ip ==> IsDigit(c);
    assert forall c :: c in fp ==> IsDigit(c);
  }

  lemma WithSignChars(negative: bool, digits: string)
    requires forall c :: c in digits ==> NumeralChar(c)
    ensures |WithSign(negative, digits)| >= |digits|
    ensures forall c :: c in WithSign(negative, digits) ==> NumeralChar(c)
  {
  }

  /** What the number-to-string conversion writes is never empty and holds
      no character other than digits, the point and the minus sign (so no
      space and no parenthesis). */
  lemma NumberToStringChars(x: real)
    ensures |NumberToString(x)| >= 1
    ensures forall c :: c in NumberToString(x) ==> NumeralChar(c)
  {
    match ExactFractionDigits(Abs(x), 0)
    case Some(k) =>
      FixedDigitsChars(Shift(Abs(x), k).Floor, k);
      WithSignChars(x < 0.0, FixedDigits(Shift(Abs(x), k).Floor, k));
    case None =>
      var n := RoundHalfUp(Shift(Abs(x), MaxFractionDigits));
      FixedDigitsChars(n, MaxFractionDigits);
      WithSignChars(x < 0.0, FixedDigits(n, MaxFractionDigits));
  }

  /** `x.toFixed(f)` is likewise non-empty and made of numeral characters. */
  lemma ToFixedChars(x: real, f: nat)
    ensures |ToFixed(x, f)| >= 1
    ensures forall c :: c in ToFixed(x, f) ==> NumeralChar(c)
  {
    var n := RoundHalfUp(Shift(Abs(x), f));
    FixedDigitsChars(n, f);
    WithSignChars(x < 0.0, FixedDigits(n, f));
  }
}
