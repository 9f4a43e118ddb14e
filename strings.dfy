/**
 * The PHP string built-ins the converters and value objects lean on, over
 * `seq<char>`: integer and fixed-point rendering (`%d`, `%.Nf`), the `(int)` and
 * `(float)` casts of a decimal string, `str_pad`, `explode`, `substr` with a
 * negative offset and `strpos`.
 */
module Strings {
  import opened Wrappers
  import opened Numbers

  predicate IsDigit(c: char)
  {
    '0' <= c <= '9'
  }

  predicate AllDigits(s: string)
  {
    forall i :: 0 <= i < |s| ==> IsDigit(s[i])
  }

  function DigitChar(d: nat): (c: char)
    requires d < 10
    ensures IsDigit(c)
  {
    ('0' as int + d) as char
  }

  function DigitValue(c: char): (d: nat)
    requires IsDigit(c)
    ensures d < 10
  {
    c as int - '0' as int
  }

  /** The number a string of decimal digits denotes, most significant digit first. */
  function DigitsValue(s: string): nat
    requires AllDigits(s)
  {
    if s == [] then 0 else 10 * DigitsValue(s[..|s| - 1]) + DigitValue(s[|s| - 1])
  }

  /** Decimal rendering of a natural number, as `(string)` and `%d` give it. */
  function NatToString(n: nat): (s: string)
    ensures |s| >= 1 && AllDigits(s)
    ensures DigitsValue(s) == n
    ensures |s| > 1 ==> s[0] != '0'
    decreases n
  {
    if n < 10 then [DigitChar(n)]
    else
      var front := NatToString(n / 10);
      var s := front + [DigitChar(n % 10)];
      assert s[..|s| - 1] == front;
      s
  }

  /** Decimal rendering of an integer: a '-' and the magnitude for negative values. */
  function IntToString(i: int): (s: string)
    ensures |s| >= 1
    ensures i >= 0 ==> AllDigits(s)
    ensures i < 0 ==> s[0] == '-' && AllDigits(s[1..])
  {
    if i < 0 then "-" + NatToString(-i) else NatToString(i)
  }

  /** The longest prefix of s made of digits. */
  function LeadingDigits(s: string): (d: string)
    ensures AllDigits(d) && d <= s
    ensures |d| < |s| ==> !IsDigit(s[|d|])
  {
    if s == [] || !IsDigit(s[0]) then [] else [s[0]] + LeadingDigits(s[1..])
  }

  /**
   * PHP's `(int)` cast of a string: an optional sign, then as many digits as
   * follow; anything after them is ignored, and no digits at all give 0.
   */
  function ParseInt(s: string): int
  {
    if |s| > 0 && s[0] == '-' then -(DigitsValue(LeadingDigits(s[1..])) as int)
    else if |s| > 0 && s[0] == '+' then DigitsValue(LeadingDigits(s[1..]))
    else DigitsValue(LeadingDigits(s))
  }

  /** The value of an unsigned decimal `digits[.digits]` prefix. */
  function UnsignedDecimal(s: string): real
  {
    var whole := LeadingDigits(s);
    var rest := s[|whole|..];
    if |rest| > 0 && rest[0] == '.' then
      var fraction := LeadingDigits(rest[1..]);
      DigitsValue(whole) as real + Tenths(DigitsValue(fraction) as real, |fraction|)
    else
      DigitsValue(whole) as real
  }

  /** v / 10^n, one decimal place at a time. */
  function Tenths(v: real, n: nat): real
  {
    if n == 0 then v else Tenths(v, n - 1) / 10.0
  }

  /**
   * PHP's `(float)` cast of a string: an optional sign, digits, and an optional
   * '.' followed by digits; anything after that is ignored.
   */
  function ParseFloat(s: string): real
  {
    if |s| > 0 && s[0] == '-' then -UnsignedDecimal(s[1..])
    else if |s| > 0 && s[0] == '+' then UnsignedDecimal(s[1..])
    else UnsignedDecimal(s)
  }

  /** PHP `str_pad(s, width, c, STR_PAD_LEFT)`: c's in front until s is width long. */
  function PadLeft(s: string, width: int, c: char): (r: string)
    ensures |r| == if width <= |s| then |s| else width
    ensures r[|r| - |s|..] == s
    ensures forall i :: 0 <= i < |r| - |s| ==> r[i] == c
  {
    if width <= |s| then s else seq(width - |s|, _ => c) + s
  }

  /**
   * PHP `sprintf("%.{p}f", x)` over the reals: the magnitude rounded to p decimals,
   * ties away from zero, written with p digits after the point (none and no point
   * when p is 0), and a '-' in front when x is negative.
   */
  function FixedToString(x: real, p: nat): (s: string)
  {
    var digits := FixedDigits(HalfUpNat(TimesTen(Abs(x), p)), p);
    if x < 0.0 then "-" + digits else digits
  }

  /** v * 10^n, one decimal place at a time. */
  function TimesTen(v: real, n: nat): (r: real)
    ensures v >= 0.0 ==> r >= 0.0
  {
    if n == 0 then v else 10.0 * TimesTen(v, n - 1)
  }

  /** m with its last p decimal digits dropped: the whole part of m units of 10^-p. */
  function WholePart(m: nat, p: nat): nat
  {
    if p == 0 then m else WholePart(m / 10, p - 1)
  }

  /** The last p decimal digits of m, zeros included: the fraction of m units of 10^-p. */
  function FractionDigits(m: nat, p: nat): (s: string)
    ensures |s| == p && AllDigits(s)
  {
    if p == 0 then [] else FractionDigits(m / 10, p - 1) + [DigitChar(m % 10)]
  }

  /** m units of 10^-p written out with p digits after the point. */
  function FixedDigits(m: nat, p: nat): (s: string)
  {
    if p == 0 then NatToString(m) else NatToString(WholePart(m, p)) + "." + FractionDigits(m, p)
  }

  /** PHP `implode(sep, parts)`, the inverse of Explode. */
  function Join(parts: seq<string>, sep: char): string
  {
    if parts == [] then ""
    else if |parts| == 1 then parts[0]
    else parts[0] + [sep] + Join(parts[1..], sep)
  }

  /**
   * PHP `explode(sep, s)` for a one-character separator: the pieces between the
   * separators, at least one, an empty string giving [""].
   */
  function Explode(s: string, sep: char): (parts: seq<string>)
    ensures |parts| >= 1
    ensures forall i :: 0 <= i < |parts| ==> sep !in parts[i]
    ensures Join(parts, sep) == s
  {
    if s == [] then [""]
    else
      var rest := Explode(s[1..], sep);
      if s[0] == sep then
        [""] + rest
      else
        var parts := [[s[0]] + rest[0]] + rest[1..];
        assert parts[1..] == rest[1..];
        parts
  }

  /** PHP `substr(s, 0, -1)`: all but the last character ("" stays ""). */
  function DropLast(s: string): (r: string)
    ensures |s| > 0 ==> r + [s[|s| - 1]] == s
    ensures |s| == 0 ==> r == ""
  {
    if s == [] then "" else s[..|s| - 1]
  }

  /** PHP `substr(s, -1)`: the last character as a string ("" stays ""). */
  function LastChar(s: string): (r: string)
    ensures |s| > 0 ==> r == [s[|s| - 1]]
    ensures |s| == 0 ==> r == ""
  {
    if s == [] then "" else s[|s| - 1..]
  }

  /** True when needle occurs in hay starting at position i. */
  predicate OccursAt(hay: string, needle: string, i: nat)
  {
    i + |needle| <= |hay| && hay[i..i + |needle|] == needle
  }

  function StrPosFrom(hay: string, needle: string, i: nat): (r: Option<nat>)
    requires i <= |hay|
    ensures r.Some? ==> i <= r.value && OccursAt(hay, needle, r.value)
    ensures r.Some? ==> forall j :: i <= j < r.value ==> !OccursAt(hay, needle, j)
    ensures r.None? ==> forall j :: i <= j <= |hay| ==> !OccursAt(hay, needle, j)
    decreases |hay| - i
  {
    if OccursAt(hay, needle, i) then Some(i)
    else if i == |hay| then None
    else StrPosFrom(hay, needle, i + 1)
  }

  /** PHP `strpos(hay, needle)`: the first position of needle, None for `false`. */
  function StrPos(hay: string, needle: string): (r: Option<nat>)
    ensures r.Some? <==> exists j :: 0 <= j <= |hay| && OccursAt(hay, needle, j)
    ensures r.Some? ==> OccursAt(hay, needle, r.value)
    ensures r.Some? ==> forall j :: 0 <= j < r.value ==> !OccursAt(hay, needle, j)
  {
    StrPosFrom(hay, needle, 0)
  }

  // ---------------------------------------------------------------------------
  // Round trips
  // ---------------------------------------------------------------------------

  lemma {:induction false} LeadingDigitsOfDigits(s: string, t: string)
    requires AllDigits(s)
    requires t == [] || !IsDigit(t[0])
    ensures LeadingDigits(s + t) == s
    decreases |s|
  {
    if s == [] {
      assert s + t == t;
    } else {
      assert (s + t)[1..] == s[1..] + t;
      LeadingDigitsOfDigits(s[1..], t);
    }
  }

  /** All characters of z are '0'. */
  predicate AllZeros(z: string)
  {
    forall i :: 0 <= i < |z| ==> z[i] == '0'
  }

  /** A string of zeros denotes 0. */
  lemma {:induction false} ZerosValue(z: string)
    requires AllZeros(z)
    ensures AllDigits(z) && DigitsValue(z) == 0
    decreases |z|
  {
    if z != [] {
      ZerosValue(z[..|z| - 1]);
    }
  }

  /** Leading zeros do not change the value of a digit string. */
  lemma {:induction false} LeadingZerosValue(z: string, d: string)
    requires AllZeros(z) && AllDigits(d)
    ensures AllDigits(z + d) && DigitsValue(z + d) == DigitsValue(d)
    decreases |d|
  {
    if d == [] {
      ZerosValue(z);
      assert z + d == z;
    } else {
      var n := |d| - 1;
      LeadingZerosValue(z, d[..n]);
      var s := z + d;
      assert s[..|s| - 1] == z + d[..n];
    }
  }

  /** `(int)` reads back what `%d` wrote, whatever non-digit text follows. */
  lemma ParseIntOfIntToString(i: int, t: string)
    requires t == [] || !IsDigit(t[0])
    ensures ParseInt(IntToString(i) + t) == i
  {
    if i < 0 {
      NegativeDigitsRead(NatToString(-i), t);
    } else {
      DigitsRead(NatToString(i), t);
    }
  }

  /** Digits followed by a non-digit cast to their value. */
  lemma DigitsRead(n: string, t: string)
    requires |n| > 0 && AllDigits(n)
    requires t == [] || !IsDigit(t[0])
    ensures ParseInt(n + t) == DigitsValue(n)
  {
    LeadingDigitsOfDigits(n, t);
    ParseIntUnsigned(n + t);
  }

  /** A '-' and digits followed by a non-digit cast to minus their value. */
  lemma NegativeDigitsRead(n: string, t: string)
    requires AllDigits(n)
    requires t == [] || !IsDigit(t[0])
    ensures ParseInt("-" + n + t) == -(DigitsValue(n) as int)
  {
    LeadingDigitsOfDigits(n, t);
    DropSign(n, t);
    ParseIntNegative("-" + n + t);
  }

  /** Dropping the first character of "-" + n + t gives n + t. */
  lemma DropSign(n: string, t: string)
    ensures ("-" + n + t)[1..] == n + t
  {
  }

  /** A string starting with '-' casts to minus the digits that follow it. */
  lemma ParseIntNegative(u: string)
    requires |u| > 0 && u[0] == '-'
    ensures ParseInt(u) == -(DigitsValue(LeadingDigits(u[1..])) as int)
  {
  }

  /** A string starting with a digit casts to the value of its leading digits. */
  lemma ParseIntUnsigned(s: string)
    requires |s| > 0 && IsDigit(s[0])
    ensures ParseInt(s) == DigitsValue(LeadingDigits(s))
  {
  }

  /** A character of a text is found, at its first occurrence: no later than i, and not before. */
  lemma FirstOccurrence(hay: string, i: nat)
    requires i < |hay|
    ensures StrPos(hay, [hay[i]]).Some?
    ensures var v := StrPos(hay, [hay[i]]).value;
      && v <= i && hay[v] == hay[i]
      && forall j :: 0 <= j < v ==> hay[j] != hay[i]
  {
    assert OccursAt(hay, [hay[i]], i) by {
      assert hay[i..i + 1] == [hay[i]];
    }
    var v := StrPos(hay, [hay[i]]).value;
    assert hay[v] == hay[i] by {
      assert hay[v..v + 1] == [hay[i]];
    }
    forall j | 0 <= j < v
      ensures hay[j] != hay[i]
    {
      assert !OccursAt(hay, [hay[i]], j);
      assert hay[j..j + 1] == [hay[j]];
    }
  }

  /** The first m elements of s + [x] are those of s, for m up to |s|. */
  lemma PrefixOfAppend<T>(s: seq<T>, x: T, m: nat)
    requires m <= |s|
    ensures (s + [x])[..m] == s[..m]
  {
  }

  /** True when t cannot continue a decimal number: it is empty or starts with neither a digit nor '.'. */
  predicate EndsNumber(t: string)
  {
    t == [] || (!IsDigit(t[0]) && t[0] != '.')
  }

  /** `a.b` for digit strings a and b reads back as a + b / 10^|b|, whatever non-digit text follows. */
  lemma UnsignedDecimalPoint(a: string, b: string, t: string)
    requires AllDigits(a) && AllDigits(b)
    requires t == [] || !IsDigit(t[0])
    ensures UnsignedDecimal(a + "." + b + t) == DigitsValue(a) as real + Tenths(DigitsValue(b) as real, |b|)
  {
    var u := ['.'] + (b + t);
    var s := a + u;
    assert a + "." + b + t == s;
    LeadingDigitsOfDigits(a, u);
    assert s[|a|..] == u;
    assert u[1..] == b + t;
    LeadingDigitsOfDigits(b, t);
    UnsignedDecimalOfParts(s, a, b);
  }

  /** UnsignedDecimal of s, once its whole digits a and its fraction digits b are known. */
  lemma UnsignedDecimalOfParts(s: string, a: string, b: string)
    requires LeadingDigits(s) == a && |a| < |s| && s[|a|] == '.'
    requires LeadingDigits(s[|a| + 1..]) == b
    ensures UnsignedDecimal(s) == DigitsValue(a) as real + Tenths(DigitsValue(b) as real, |b|)
  {
    assert s[|a|..][1..] == s[|a| + 1..];
  }

  /** A digit string followed by text that cannot continue it reads back as its value. */
  lemma UnsignedDecimalWhole(a: string, t: string)
    requires AllDigits(a) && EndsNumber(t)
    ensures UnsignedDecimal(a + t) == DigitsValue(a) as real
  {
    LeadingDigitsOfDigits(a, t);
    assert (a + t)[|a|..] == t;
  }

  /** Tenths is linear. */
  lemma {:induction false} TenthsAdd(a: real, b: real, n: nat)
    ensures Tenths(a + b, n) == Tenths(a, n) + Tenths(b, n)
  {
    if n > 0 {
      TenthsAdd(a, b, n - 1);
    }
  }

  /** One more decimal place absorbs a factor ten. */
  lemma {:induction false} TenthsTen(v: real, n: nat)
    ensures Tenths(10.0 * v, n + 1) == Tenths(v, n)
  {
    if n > 0 {
      TenthsTen(v, n - 1);
    }
  }

  /** Tenths undoes TimesTen. */
  lemma {:induction false} TenthsTimesTen(v: real, n: nat)
    ensures Tenths(TimesTen(v, n), n) == v
  {
    if n > 0 {
      TenthsTimesTen(v, n - 1);
      TenthsTen(TimesTen(v, n - 1), n - 1);
    }
  }

  /** Tenths keeps order. */
  lemma {:induction false} TenthsMonotone(a: real, b: real, n: nat)
    requires a <= b
    ensures Tenths(a, n) <= Tenths(b, n)
  {
    if n > 0 {
      TenthsMonotone(a, b, n - 1);
    }
  }

  /** The fraction digits of m end with its last digit. */
  lemma FractionDigitsValue(m: nat, p: nat)
    requires p > 0
    ensures DigitsValue(FractionDigits(m, p)) == 10 * DigitsValue(FractionDigits(m / 10, p - 1)) + m % 10
  {
    var g := FractionDigits(m, p);
    assert g[..|g| - 1] == FractionDigits(m / 10, p - 1);
  }

  /** Appending a digit d to n decimals: Tenths(10 v + d, n + 1) == Tenths(v, n) + Tenths(d, n + 1). */
  lemma TenthsDigit(v: real, d: real, n: nat, w: real)
    requires w == 10.0 * v + d
    ensures Tenths(w, n + 1) == Tenths(v, n) + Tenths(d, n + 1)
  {
    TenthsAdd(10.0 * v, d, n + 1);
    TenthsTen(v, n);
  }

  /** Whole part and fraction digits together are m units of 10^-p. */
  lemma {:induction false} WholeAndFraction(m: nat, p: nat)
    ensures WholePart(m, p) as real + Tenths(DigitsValue(FractionDigits(m, p)) as real, p)
      == Tenths(m as real, p)
  {
    if p > 0 {
      var k, d := m / 10, m % 10;
      var f := DigitsValue(FractionDigits(k, p - 1));
      var g := DigitsValue(FractionDigits(m, p));
      WholeAndFraction(k, p - 1);
      FractionDigitsValue(m, p);
      TenthsDigit(f as real, d as real, p - 1, g as real);
      TenthsDigit(k as real, d as real, p - 1, m as real);
      assert WholePart(m, p) == WholePart(k, p - 1);
    }
  }

  /** The digits FixedDigits writes denote m units of 10^-p. */
  lemma ParseFixedDigits(m: nat, p: nat, t: string)
    requires EndsNumber(t)
    ensures UnsignedDecimal(FixedDigits(m, p) + t) == Tenths(m as real, p)
  {
    if p == 0 {
      UnsignedDecimalWhole(NatToString(m), t);
    } else {
      UnsignedDecimalPoint(NatToString(WholePart(m, p)), FractionDigits(m, p), t);
      WholeAndFraction(m, p);
    }
  }

  /** `(float)` reads back what `%.{p}f` wrote: the sign of x and m units of 10^-p. */
  lemma ParseFixed(x: real, p: nat, t: string)
    requires EndsNumber(t)
    ensures var m := HalfUpNat(TimesTen(Abs(x), p));
      ParseFloat(FixedToString(x, p) + t) == if x < 0.0 then -Tenths(m as real, p) else Tenths(m as real, p)
  {
    var m := HalfUpNat(TimesTen(Abs(x), p));
    ParseFixedDigits(m, p, t);
    FixedDigitsStart(m, p);
    SignedRead(x < 0.0, FixedDigits(m, p), t);
  }

  /** `(float)` of digits d, with or without a '-' in front, followed by t. */
  lemma SignedRead(negative: bool, d: string, t: string)
    requires |d| > 0 && IsDigit(d[0])
    ensures ParseFloat((if negative then "-" + d else d) + t)
      == if negative then -UnsignedDecimal(d + t) else UnsignedDecimal(d + t)
  {
    var e := d + t;
    assert e[0] == d[0];
    ParseFloatSigned(e);
    if negative {
      assert ("-" + d) + t == "-" + e;
    }
  }

  /** A value with at most p decimals is written exactly by `%.{p}f` and read back unchanged. */
  lemma ParseFixedExact(x: real, p: nat, t: string)
    requires x >= 0.0 && IsInteger(TimesTen(x, p)) && EndsNumber(t)
    ensures ParseFloat(FixedToString(x, p) + t) == x
  {
    var k := TimesTen(x, p);
    HalfUpNatOfWhole(k);
    ParseFixed(x, p, t);
    TenthsTimesTen(x, p);
  }

  /** TimesTen multiplies by 10^n. */
  lemma {:induction false} TimesTenPow10(v: real, n: nat)
    ensures TimesTen(v, n) == v * Pow10(n) as real
  {
    if n > 0 {
      TimesTenPow10(v, n - 1);
      var q := Pow10(n - 1) as real;
      assert Pow10(n) as real == 10.0 * q;
      assert v * (10.0 * q) == 10.0 * (v * q);
    }
  }

  /** A value rounded to p >= 0 decimals has a whole number of units 10^-p. */
  lemma RoundedIsWhole(v: real, p: nat)
    ensures IsInteger(TimesTen(RoundHalfDown(v, p), p))
  {
    WholeOfRounded(v, p, Scale(p));
  }

  /** RoundedIsWhole with the unit 10^p as a parameter. */
  lemma WholeOfRounded(v: real, p: nat, s: real)
    requires s == Scale(p)
    ensures IsInteger(TimesTen(RoundToScale(v, s), p))
  {
    RoundToScaleFacts(v, s);
    WholeOfScaled(RoundToScale(v, s), p, HalfDownInt(v * s));
  }

  /** r * 10^p == k, with the power as Scale gives it, makes TimesTen(r, p) whole. */
  lemma WholeOfScaled(r: real, p: nat, k: int)
    requires r * Scale(p) == k as real
    ensures IsInteger(TimesTen(r, p))
  {
    ScaleOfNat(p, Scale(p));
    WholeUnits(r, p, k);
  }

  lemma ScaleOfNat(p: nat, s: real)
    requires s == Scale(p)
    ensures s == Pow10(p) as real
  {
  }

  /** r * 10^p == k makes TimesTen(r, p) whole. */
  lemma WholeUnits(r: real, p: nat, k: int)
    requires r * Pow10(p) as real == k as real
    ensures IsInteger(TimesTen(r, p))
  {
    TimesTenPow10(r, p);
  }

  /** FixedDigits starts with a digit. */
  lemma FixedDigitsStart(m: nat, p: nat)
    ensures |FixedDigits(m, p)| > 0 && IsDigit(FixedDigits(m, p)[0])
  {
    if p > 0 {
      assert FixedDigits(m, p)[0] == NatToString(WholePart(m, p))[0];
    }
  }

  /** `(float)` of a string starting with a digit, with and without a leading '-'. */
  lemma ParseFloatSigned(d: string)
    requires |d| > 0 && IsDigit(d[0])
    ensures ParseFloat(d) == UnsignedDecimal(d)
    ensures ParseFloat("-" + d) == -UnsignedDecimal(d)
  {
    assert ("-" + d)[1..] == d;
  }

  /** Two values at most half apart stay at most Tenths(0.5, p) apart after shifting. */
  lemma TenthsClose(a: real, b: real, p: nat)
    requires a - 0.5 <= b <= a + 0.5
    ensures Abs(Tenths(a, p) - Tenths(b, p)) <= Tenths(0.5, p)
  {
    TenthsAdd(a, 0.5, p);
    TenthsAdd(b, 0.5, p);
    TenthsMonotone(a, b + 0.5, p);
    TenthsMonotone(b, a + 0.5, p);
  }

  /**
   * What `(float)` reads back from `%.{p}f` is within half a unit of the p-th
   * decimal of the value written.
   */
  lemma ParseFixedClose(x: real, p: nat, t: string)
    requires EndsNumber(t)
    ensures Abs(ParseFloat(FixedToString(x, p) + t) - x) <= Tenths(0.5, p)
  {
    var v := ParseFloat(FixedToString(x, p) + t);
    var a := Tenths(HalfUpNat(TimesTen(Abs(x), p)) as real, p);
    var e := Tenths(0.5, p);
    MagnitudeClose(x, p, a);
    assert v == if x < 0.0 then -a else a by {
      ParseFixed(x, p, t);
    }
    SignedClose(x, a, e, v);
  }

  /** The magnitude `%.{p}f` writes is within half a unit of the p-th decimal of |x|. */
  lemma MagnitudeClose(x: real, p: nat, a: real)
    requires a == Tenths(HalfUpNat(TimesTen(Abs(x), p)) as real, p)
    ensures Abs(a - Abs(x)) <= Tenths(0.5, p)
  {
    var t := TimesTen(Abs(x), p);
    TenthsTimesTen(Abs(x), p);
    TenthsClose(HalfUpNat(t) as real, t, p);
  }

  /** Putting the sign of x back on a magnitude close to |x| gives a value close to x. */
  lemma SignedClose(x: real, a: real, e: real, v: real)
    requires Abs(a - Abs(x)) <= e
    requires v == if x < 0.0 then -a else a
    ensures Abs(v - x) <= e
  {
  }

  /** PHP's `explode` splits what `implode` joined, when no piece holds the separator. */
  lemma {:induction false} ExplodeJoin(parts: seq<string>, sep: char)
    requires |parts| >= 1
    requires forall i :: 0 <= i < |parts| ==> sep !in parts[i]
    ensures Explode(Join(parts, sep), sep) == parts
    decreases |parts|
  {
    if |parts| > 1 {
      ExplodeJoin(parts[1..], sep);
      ExplodeAppend(parts[0], Join(parts[1..], sep), sep);
      assert [parts[0]] + parts[1..] == parts;
    } else {
      ExplodePiece(parts[0], sep);
    }
  }

  /** A piece without the separator explodes to itself. */
  lemma {:induction false} ExplodePiece(a: string, sep: char)
    requires sep !in a
    ensures Explode(a, sep) == [a]
    decreases |a|
  {
    if a != [] {
      ExplodePiece(a[1..], sep);
      assert [a[0]] + a[1..] == a;
    }
  }

  /** Exploding `a + sep + b` puts a in front of the pieces of b. */
  lemma {:induction false} ExplodeAppend(a: string, b: string, sep: char)
    requires sep !in a
    ensures Explode(a + [sep] + b, sep) == [a] + Explode(b, sep)
    decreases |a|
  {
    if a == [] {
      assert a + [sep] + b == [sep] + b;
      assert ([sep] + b)[1..] == b;
    } else {
      assert (a + [sep] + b)[1..] == a[1..] + [sep] + b;
      ExplodeAppend(a[1..], b, sep);
      assert [a[0]] + a[1..] == a;
    }
  }

  /** Three space-free pieces joined by single spaces explode back into the three pieces. */
  lemma ThreeTokens(head: string, e: string, n: string)
    requires ' ' !in head && ' ' !in e && ' ' !in n
    ensures Explode(head + " " + e + " " + n, ' ') == [head, e, n]
  {
    assert head + " " + e + " " + n == head + [' '] + (e + [' '] + n);
    ExplodeAppend(head, e + [' '] + n, ' ');
    ExplodeAppend(e, n, ' ');
    ExplodePiece(n, ' ');
  }

  /** The decimal text of an integer holds no space. */
  lemma IntToStringHasNoSpace(i: int)
    ensures ' ' !in IntToString(i)
  {
    if i < 0 {
      assert IntToString(i) == "-" + NatToString(-i);
    }
  }

  /** Concatenation regrouped: the last two pieces taken together. */
  lemma Shift(a: string, b: string, c: string)
    ensures a + b + c == a + (b + c)
  {
  }

  /** `(float)` of a single letter that starts no number is 0. */
  lemma LetterReadsZero(h: string)
    requires |h| == 1 && !IsDigit(h[0]) && h[0] != '-' && h[0] != '+' && h[0] != '.'
    ensures ParseFloat(h) == 0.0
  {
    assert LeadingDigits(h) == [];
  }

  /** Four space-free pieces joined by single spaces explode back into the four pieces. */
  lemma FourTokens(a: string, b: string, c: string, e: string)
    requires ' ' !in a && ' ' !in b && ' ' !in c && ' ' !in e
    ensures Explode(a + " " + b + " " + c + " " + e, ' ') == [a, b, c, e]
  {
    var tail := b + " " + c + " " + e;
    calc {
      a + " " + b + " " + c + " " + e;
      { Shift(a + " ", b, " "); }
      (a + " ") + (b + " ") + c + " " + e;
      { Shift(a + " ", b + " ", c); }
      (a + " ") + (b + " " + c) + " " + e;
      { Shift(a + " ", b + " " + c, " "); }
      (a + " ") + (b + " " + c + " ") + e;
      { Shift(a + " ", b + " " + c + " ", e); }
      (a + " ") + tail;
    }
    ExplodeAppend(a, tail, ' ');
    ThreeTokens(b, c, e);
  }

  /** One separator between two pieces free of it splits the text into exactly those two. */
  lemma SplitTwo(a: string, b: string, sep: char)
    requires sep !in a && sep !in b
    ensures Explode(a + [sep] + b, sep) == [a, b]
  {
    ExplodeAppend(a, b, sep);
    ExplodePiece(b, sep);
  }

  /** An element of an exploded list, or "" where PHP reads a missing key as null. */
  function Token(parts: seq<string>, i: nat): (t: string)
    ensures i < |parts| ==> t == parts[i]
    ensures i >= |parts| ==> t == ""
  {
    if i < |parts| then parts[i] else ""
  }

  /** Text made only of digits, '-' and '.': what `%d`, `(string)` and `%.{p}f` write. */
  predicate NumberText(s: string)
  {
    forall i :: 0 <= i < |s| ==> IsDigit(s[i]) || s[i] == '-' || s[i] == '.'
  }

  /** A character that is neither a digit, '-' nor '.' does not occur in a number's text. */
  lemma NumberTextLacks(s: string, c: char)
    requires NumberText(s) && !IsDigit(c) && c != '-' && c != '.'
    ensures c !in s
  {
    assert forall i :: 0 <= i < |s| ==> s[i] != c;
  }

  /** Digits alone are a number's text. */
  lemma DigitsAreNumber(s: string)
    requires AllDigits(s)
    ensures NumberText(s)
  {
  }

  /** `%d` and `(string)` of an integer write a number's text. */
  lemma IntToStringIsNumber(i: int)
    ensures NumberText(IntToString(i))
  {
    if i < 0 {
      assert IntToString(i) == "-" + NatToString(-i);
    }
  }

  /** `%.{p}f` writes a number's text: an optional '-', digits, and a '.' before the decimals. */
  lemma FixedToStringIsNumber(x: real, p: nat)
    ensures NumberText(FixedToString(x, p))
  {
    var m := HalfUpNat(TimesTen(Abs(x), p));
    var digits := FixedDigits(m, p);
    if p > 0 {
      var w := NatToString(WholePart(m, p));
      var f := FractionDigits(m, p);
      assert digits == w + "." + f;
      assert forall i :: 0 <= i < |w| ==> IsDigit(w[i]);
      assert forall i :: 0 <= i < |f| ==> IsDigit(f[i]);
    }
    assert NumberText(digits);
  }

  /** Zeros padded in front of a number's text leave a number's text. */
  lemma PaddedIsNumber(s: string, width: int)
    requires NumberText(s)
    ensures NumberText(PadLeft(s, width, '0'))
  {
    var r := PadLeft(s, width, '0');
    forall i | 0 <= i < |r|
      ensures IsDigit(r[i]) || r[i] == '-' || r[i] == '.'
    {
      if i >= |r| - |s| {
        assert r[i] == r[|r| - |s|..][i - (|r| - |s|)];
      }
    }
  }

  /** Dropping a prefix leaves what follows it. */
  lemma DropPrefix(a: string, b: string)
    ensures (a + b)[|a|..] == b
  {
  }

  /** Appending nothing changes nothing. */
  lemma AppendEmpty(a: string)
    ensures a + "" == a
  {
  }

  /** Two texts joined by ", ": the first one's last character, the comma, then the second text. */
  lemma Joined(a: string, b: string)
    requires |a| > 0 && |b| > 0
    ensures var text := a + (", " + b);
      && text[|a| - 1] == a[|a| - 1]
      && text[|a|..|a| + 2] == ", "
      && text[|a| + 2..] == b
      && text[|text| - 1] == b[|b| - 1]
  {
    assert (a + (", " + b))[|a| + 2..] == b;
  }
}
