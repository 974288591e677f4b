/**
 * The pieces of the Java class library that the plugin's string handling relies on:
 * `String.trim`, `String.equalsIgnoreCase` on the short keywords the commands test,
 * `Float.parseFloat` on decimal numerals and `Integer.parseInt` on digit runs.
 */
module JavaText {
  import opened Wrappers

  const INT_MAX: int := 0x7fff_ffff
  const LONG_MIN: int := -0x8000_0000_0000_0000
  const LONG_MAX: int := 0x7fff_ffff_ffff_ffff

  // ---------------------------------------------------------------- trimming

  /** `String.trim` removes every character whose code is at most U+0020. */
  predicate IsTrimmable(c: char) { c <= ' ' }

  function TrimLeft(s: string): (r: string)
    ensures |r| <= |s| && r == s[|s| - |r|..]
    ensures r == [] || !IsTrimmable(r[0])
    ensures forall i :: 0 <= i < |s| - |r| ==> IsTrimmable(s[i])
  {
    if |s| > 0 && IsTrimmable(s[0]) then TrimLeft(s[1..]) else s
  }

  function TrimRight(s: string): (r: string)
    ensures |r| <= |s| && r == s[..|r|]
    ensures r == [] || !IsTrimmable(r[|r| - 1])
    ensures forall i :: |r| <= i < |s| ==> IsTrimmable(s[i])
  {
    if |s| > 0 && IsTrimmable(s[|s| - 1]) then TrimRight(s[..|s| - 1]) else s
  }

  /**
   * Java's `String.trim`: the slice of `s` left once every leading and every trailing
   * character at most U+0020 is removed.
   */
  function Trim(s: string): (r: string)
    ensures r == [] || (!IsTrimmable(r[0]) && !IsTrimmable(r[|r| - 1]))
    ensures |r| <= |s|
  {
    TrimRight(TrimLeft(s))
  }

  /**
   * What `Trim` keeps: the slice of `s` that starts after the leading run of characters at
   * most U+0020 and after which only such characters follow.
   */
  lemma TrimIsSlice(s: string)
    ensures var k, r := |s| - |TrimLeft(s)|, Trim(s);
      && k + |r| <= |s|
      && r == s[k..k + |r|]
      && (forall i :: 0 <= i < k ==> IsTrimmable(s[i]))
      && (forall i :: k + |r| <= i < |s| ==> IsTrimmable(s[i]))
  {
    var l := TrimLeft(s);
    var k := |s| - |l|;
    var r := TrimRight(l);
    assert l == s[k..];
    assert r == l[..|r|];
    assert r == s[k..k + |r|];
  }

  /** A string that starts and ends with visible characters is its own trim. */
  lemma TrimOfUntrimmable(s: string)
    requires s == [] || (!IsTrimmable(s[0]) && !IsTrimmable(s[|s| - 1]))
    ensures Trim(s) == s
  {
  }

  /** Trimming a string twice is trimming it once. */
  lemma {:induction false} TrimIdempotent(s: string)
    ensures Trim(Trim(s)) == Trim(s)
  {
    TrimOfUntrimmable(Trim(s));
  }

  /** Appending a visible character commutes with trimming on the left. */
  lemma {:induction false} TrimLeftAppend(s: string, c: char)
    requires !IsTrimmable(c)
    ensures TrimLeft(s + [c]) == TrimLeft(s) + [c]
  {
    if |s| > 0 && IsTrimmable(s[0]) {
      assert (s + [c])[1..] == s[1..] + [c];
      TrimLeftAppend(s[1..], c);
    }
  }

  /** Trimming the already left-trimmed string gives the full trim. */
  lemma TrimOfTrimLeft(s: string)
    ensures Trim(TrimLeft(s)) == Trim(s)
  {
  }

  // ---------------------------------------------------------------- case

  function ToLowerAscii(c: char): (r: char)
    ensures 'A' <= c <= 'Z' ==> r as int == c as int + 32
    ensures !('A' <= c <= 'Z') ==> r == c
  {
    if 'A' <= c <= 'Z' then (c as int + 32) as char else c
  }

  /**
   * `String.equalsIgnoreCase`, with letters folded as in ASCII. The plugin only
   * compares against the lower-case ASCII words "none" and "off".
   */
  predicate EqualsIgnoreCase(a: string, b: string)
  {
    |a| == |b| && forall i :: 0 <= i < |a| ==> ToLowerAscii(a[i]) == ToLowerAscii(b[i])
  }

  // ---------------------------------------------------------------- digits

  predicate IsDigit(c: char) { '0' <= c <= '9' }

  predicate AllDigits(s: string) { forall i :: 0 <= i < |s| ==> IsDigit(s[i]) }

  /** The value of a run of decimal digits, most significant first. */
  function DigitsValue(ds: string): (v: nat)
    requires AllDigits(ds)
    ensures v < Pow10(|ds|)
  {
    if |ds| == 0 then 0
    else DigitsValue(ds[..|ds| - 1]) * 10 + (ds[|ds| - 1] as int - '0' as int)
  }

  function Pow10(n: nat): (r: nat)
    ensures r >= 1
  {
    if n == 0 then 1 else 10 * Pow10(n - 1)
  }

  /** A run of digits is worth at least its first digit times the place value of that digit. */
  lemma {:induction false} DigitsValueLowerBound(ds: string)
    requires |ds| > 0 && AllDigits(ds)
    ensures DigitsValue(ds) >= (ds[0] as int - '0' as int) * Pow10(|ds| - 1)
  {
    if |ds| > 1 {
      var init := ds[..|ds| - 1];
      DigitsValueLowerBound(init);
      assert init[0] == ds[0];
      var d, p, v := ds[0] as int - '0' as int, Pow10(|init| - 1), DigitsValue(init);
      var q := d * p;
      assert v >= q;
      assert DigitsValue(ds) >= 10 * v;
      assert Pow10(|ds| - 1) == 10 * p;
      ShiftPlace(d, p);
      assert d * Pow10(|ds| - 1) == 10 * q;
    }
  }

  /** Moving a digit one place up multiplies its worth by ten. */
  lemma ShiftPlace(d: int, p: int)
    ensures d * (10 * p) == 10 * (d * p)
  {
  }

  /** `Integer.parseInt` on a non-empty run of digits: the value, or none when it overflows `int`. */
  function ParseInt(ds: string): (r: Option<int>)
    requires |ds| > 0 && AllDigits(ds)
    ensures r.Some? <==> DigitsValue(ds) <= INT_MAX
    ensures r.Some? ==> r.value == DigitsValue(ds)
  {
    var v := DigitsValue(ds);
    if v <= INT_MAX then Some(v) else None
  }

  // ---------------------------------------------------------------- numerals

  /** The characters a decimal numeral is made of. */
  predicate IsNumeralChar(c: char) { IsDigit(c) || c == '.' || c == '+' || c == '-' }

  /** Index of the first '.', or |s| when there is none. */
  function IndexOfDot(s: string): (k: nat)
    ensures k <= |s|
    ensures forall i :: 0 <= i < k ==> s[i] != '.'
    ensures k < |s| ==> s[k] == '.'
  {
    if |s| == 0 || s[0] == '.' then 0 else 1 + IndexOfDot(s[1..])
  }

  /** What follows the first '.', or nothing when there is no '.'. */
  function FractionPart(u: string): (f: string)
    ensures IndexOfDot(u) < |u| ==> f == u[IndexOfDot(u) + 1..]
    ensures IndexOfDot(u) == |u| ==> f == []
  {
    var k := IndexOfDot(u);
    if k < |u| then u[k + 1..] else ""
  }

  /** The value of the numeral `whole.frac`. */
  function DecimalValue(whole: string, frac: string): (v: real)
    requires AllDigits(whole) && AllDigits(frac)
    ensures v >= 0.0
    ensures frac == [] ==> v == DigitsValue(whole) as real
  {
    var scale := Pow10(|frac|) as real;
    assert frac == [] ==> DigitsValue(frac) == 0 && scale == 1.0;
    DigitsValue(whole) as real + DigitsValue(frac) as real / scale
  }

  /** Digits, then at most one point, then digits: every character is a digit or the point. */
  lemma NumeralShape(u: string)
    requires AllDigits(u[..IndexOfDot(u)]) && AllDigits(FractionPart(u))
    ensures forall i :: 0 <= i < |u| ==> IsDigit(u[i]) || u[i] == '.'
  {
    var k := IndexOfDot(u);
    var whole, frac := u[..k], FractionPart(u);
    forall i | 0 <= i < |u|
      ensures IsDigit(u[i]) || u[i] == '.'
    {
      if i < k {
        assert IsDigit(whole[i]);
      } else if k < i {
        assert frac == u[k + 1..];
        assert IsDigit(frac[i - k - 1]);
      }
    }
  }

  /** An unsigned decimal numeral: digits, optionally a point, optionally more digits, at least one digit. */
  function UnsignedDecimal(u: string): (r: Option<real>)
    ensures r.Some? ==> |u| > 0 && forall i :: 0 <= i < |u| ==> IsDigit(u[i]) || u[i] == '.'
    ensures r.Some? ==> r.value >= 0.0
  {
    var whole := u[..IndexOfDot(u)];
    var frac := FractionPart(u);
    if AllDigits(whole) && AllDigits(frac) && |whole| + |frac| > 0 then
      NumeralShape(u);
      Some(DecimalValue(whole, frac))
    else None
  }

  /** `whole.frac` with digits on both sides is an unsigned numeral of that value. */
  lemma UnsignedDecimalOfPoint(whole: string, frac: string)
    requires |whole| > 0 && AllDigits(whole) && AllDigits(frac)
    ensures UnsignedDecimal(whole + "." + frac) == Some(DecimalValue(whole, frac))
  {
    var u := whole + "." + frac;
    assert u[|whole|] == '.';
    assert forall i :: 0 <= i < |whole| ==> u[i] != '.';
    IndexOfDotAt(u, |whole|);
    assert u[..|whole|] == whole;
    assert u[|whole| + 1..] == frac;
  }

  /** `IndexOfDot` finds the first point. */
  lemma {:induction false} IndexOfDotAt(s: string, k: nat)
    requires k < |s| && s[k] == '.'
    requires forall i :: 0 <= i < k ==> s[i] != '.'
    ensures IndexOfDot(s) == k
  {
    if k > 0 {
      IndexOfDotAt(s[1..], k - 1);
    }
  }

  /** An optionally signed decimal numeral, the forms of `Float.parseFloat` this model covers. */
  function ParseDecimal(t: string): (r: Option<real>)
    ensures r.Some? ==> |t| > 0 && forall i :: 0 <= i < |t| ==> IsNumeralChar(t[i])
  {
    if |t| > 0 && (t[0] == '-' || t[0] == '+') then
      match UnsignedDecimal(t[1..])
      case Some(v) => Some(if t[0] == '-' then -v else v)
      case None => None
    else UnsignedDecimal(t)
  }

  /** `Float.parseFloat`: surrounding white space is ignored, `None` stands for `NumberFormatException`. */
  function ParseFloat(s: string): (r: Option<real>)
    ensures r.Some? ==> Trim(s) != [] && forall i :: 0 <= i < |Trim(s)| ==> IsNumeralChar(Trim(s)[i])
  {
    ParseDecimal(Trim(s))
  }

  /** A numeral accepted by the parser is its own trim, so parsing it again gives the same value. */
  lemma ParseFloatOfNumeral(s: string)
    requires ParseFloat(s).Some?
    ensures Trim(Trim(s)) == Trim(s)
    ensures ParseFloat(Trim(s)) == ParseFloat(s)
  {
    TrimOfUntrimmable(Trim(s));
  }

  /** A string with visible characters at both ends is parsed as it stands. */
  lemma ParseFloatOfVisible(s: string)
    requires |s| > 0 && !IsTrimmable(s[0]) && !IsTrimmable(s[|s| - 1])
    ensures ParseFloat(s) == ParseDecimal(s)
  {
    TrimOfUntrimmable(s);
  }

  /** Without a sign the numeral is read as unsigned. */
  lemma ParseDecimalUnsigned(t: string)
    requires |t| > 0 && IsDigit(t[0])
    ensures ParseDecimal(t) == UnsignedDecimal(t)
  {
  }

  /** A leading minus negates the unsigned numeral that follows it. */
  lemma ParseDecimalNegative(t: string, v: real)
    requires |t| > 0 && t[0] == '-' && UnsignedDecimal(t[1..]) == Some(v)
    ensures ParseDecimal(t) == Some(-v)
  {
  }

  /** A run of digits without a point is an unsigned numeral of its value. */
  lemma UnsignedDecimalOfDigits(ds: string)
    requires |ds| > 0 && AllDigits(ds)
    ensures UnsignedDecimal(ds) == Some(DigitsValue(ds) as real)
  {
    assert !IsDigit('.');
    assert IndexOfDot(ds) == |ds|;
    assert ds[..|ds|] == ds;
    assert FractionPart(ds) == [];
  }

  /** A plain run of digits parses to its value. */
  lemma ParseFloatOfDigits(ds: string)
    requires |ds| > 0 && AllDigits(ds)
    ensures ParseFloat(ds) == Some(DigitsValue(ds) as real)
  {
    ParseFloatOfVisible(ds);
    ParseDecimalUnsigned(ds);
    UnsignedDecimalOfDigits(ds);
  }

  /** Digits, a point and digits parse to the decimal value they spell. */
  lemma ParseFloatOfPoint(whole: string, frac: string)
    requires |whole| > 0 && |frac| > 0 && AllDigits(whole) && AllDigits(frac)
    ensures ParseFloat(whole + "." + frac) == Some(DecimalValue(whole, frac))
  {
    var u := whole + "." + frac;
    assert u[0] == whole[0] && u[|u| - 1] == frac[|frac| - 1];
    ParseFloatOfVisible(u);
    ParseDecimalUnsigned(u);
    UnsignedDecimalOfPoint(whole, frac);
  }

  /** A minus sign before an unsigned numeral ending in a visible character negates its value. */
  lemma ParseFloatOfNegative(u: string, v: real)
    requires |u| > 0 && !IsTrimmable(u[|u| - 1]) && UnsignedDecimal(u) == Some(v)
    ensures ParseFloat("-" + u) == Some(-v)
  {
    var t := "-" + u;
    assert t[1..] == u;
    ParseDecimalNegative(t, v);
    assert t[|t| - 1] == u[|u| - 1];
    ParseFloatOfVisible(t);
  }

  /** A visible string holding a character no numeral has is rejected. */
  lemma ParseFloatRejects(s: string, i: nat)
    requires |s| > 0 && !IsTrimmable(s[0]) && !IsTrimmable(s[|s| - 1])
    requires i < |s| && !IsNumeralChar(s[i])
    ensures ParseFloat(s) == None
  {
    TrimOfUntrimmable(s);
  }

  /** Java's `(long)` of a real: truncation toward zero, saturating at the bounds of `long`. */
  function ToLong(x: real): (r: int)
    ensures LONG_MIN <= r <= LONG_MAX
    ensures x >= LONG_MAX as real ==> r == LONG_MAX
    ensures x <= LONG_MIN as real ==> r == LONG_MIN
    ensures LONG_MIN as real <= x <= LONG_MAX as real ==> -1.0 < x - r as real < 1.0
    ensures 0.0 <= x <= LONG_MAX as real ==> 0 <= r && r as real <= x < r as real + 1.0
    ensures LONG_MIN as real <= x < 0.0 ==> r <= 0 && r as real - 1.0 < x <= r as real
  {
    if x >= LONG_MAX as real then LONG_MAX
    else if x <= LONG_MIN as real then LONG_MIN
    else if x >= 0.0 then x.Floor
    else -((-x).Floor)
  }
}
