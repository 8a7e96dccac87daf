/** arbitraryarithmetic.AFloat (src/arbitraryarithmetic/AFloat.java): a decimal
    number kept as a non-negative AInteger `unscaled`, a `scale` (digits to the
    right of the point) and a sign; its value is ±unscaled × 10^-scale.
    Values are stated here with integers: ScaledTo(k) is the value × 10^k. */
module AFloats {
  import opened Base
  import opened DecimalText
  import opened LimbArith
  import opened AIntegers
  import opened FloatFormat

  /** Fractional digits divide computes. */
  const RESULT_SCALE := 30

  /** A magnitude with a sign bit. */
  function WithSign(neg: bool, m: int): int
  {
    if neg then -m else m
  }

  /** Java's int division: the quotient of the magnitudes, truncated toward zero. */
  function TruncDiv(x: int, y: int): int
    requires y != 0
  {
    if (x < 0) == (y < 0) then Abs(x) / Abs(y) else -(Abs(x) / Abs(y))
  }

  /** (int) Math.pow(10, r) for the remainder r of n / 4. */
  function SmallPower(r: nat): (p: int)
    requires r < 4
    ensures p == Shift(1, r) && 0 < p <= 1000
  {
    if r == 0 then 1 else if r == 1 then 10 else if r == 2 then 100 else 1000
  }

  lemma {:induction false} ShiftOne(x: int, n: nat)
    ensures x * Shift(1, n) == Shift(x, n)
  {
    if n > 0 {
      ShiftOne(x, n - 1);
      assert x * (Shift(1, n - 1) * 10) == (x * Shift(1, n - 1)) * 10;
    }
  }

  lemma {:induction false} SignedShift(neg: bool, m: int, n: nat)
    ensures Shift(WithSign(neg, m), n) == WithSign(neg, Shift(m, n))
  {
    if n > 0 {
      SignedShift(neg, m, n - 1);
    }
  }

  lemma {:induction false} ShiftInjective(x: int, y: int, n: nat)
    requires Shift(x, n) == Shift(y, n)
    ensures x == y
  {
    if n > 0 {
      ShiftInjective(x, y, n - 1);
    }
  }

  lemma {:induction false} ShiftZero(n: nat)
    ensures Shift(0, n) == 0
  {
    if n > 0 {
      ShiftZero(n - 1);
    }
  }

  /** Solver aid: a positive shift leaves a last decimal digit of zero. */
  lemma ShiftedMultipleOfTen(x: int, n: nat)
    requires n > 0
    ensures Shift(x, n) % 10 == 0
  {
  }

  /** The last decimal digit of a limb list is that of its lowest limb. */
  lemma LastDigit(v: seq<int>)
    requires |v| >= 1
    ensures Val(v) % 10 == v[0] % 10
  {
    var h := Val(v[1..]);
    assert Val(v) == v[0] + 10 * (1000 * h);
  }

  /** One step of divMod10's loop: limb i and the remainder carried from
      above are divided by ten. */
  lemma DivTenArith(d: int, x: int, q: int, rem: int, cur: int, vi: int)
    requires x == 10 * q + rem && cur == d + rem * 10000 && vi == d + 10000 * x
    ensures vi == 10 * (cur / 10 + 10000 * q) + cur % 10
  {
  }

  /** The sign rules of add: the magnitude and sign chosen by each branch
      give the sum of the two signed operands. */
  lemma AddSigns(n1: bool, v1: int, n2: bool, v2: int, neg: bool, m: int)
    requires v1 >= 0 && v2 >= 0
    requires n1 == n2 ==> m == v1 + v2 && neg == n1
    requires n1 != n2 && v1 >= v2 ==> m == v1 - v2 && neg == n1
    requires n1 != n2 && v1 < v2 ==> m == v2 - v1 && neg == n2
    ensures WithSign(neg, m) == WithSign(n1, v1) + WithSign(n2, v2)
  {
  }

  lemma SignedProduct(n1: bool, m1: int, n2: bool, m2: int)
    ensures WithSign(n1 != n2, m1 * m2) == WithSign(n1, m1) * WithSign(n2, m2)
  {
  }

  /** The signed quotient of divide is Java's division of the signed operands. */
  lemma SignedQuotient(n1: bool, x: int, n2: bool, y: int, neg: bool, q: int)
    requires x >= 0 && y > 0 && q == x / y
    requires neg == (n1 != n2)
    ensures WithSign(neg, q) == TruncDiv(WithSign(n1, x), WithSign(n2, y))
  {
    if x == 0 {
      assert q == 0;
    }
  }

  /** stripZeros moves a value from scale sb to scale sa without changing it. */
  lemma StrippedScaled(nb: bool, mb: int, sb: int, na: bool, ma: int, sa: int, k: int)
    requires 0 <= sa <= sb <= k && ma >= 0
    requires Shift(ma, sb - sa) == mb && (na == nb || ma == 0)
    ensures Shift(WithSign(na, ma), k - sa) == Shift(WithSign(nb, mb), k - sb)
  {
    SignedShift(na, ma, sb - sa);
    if ma == 0 {
      ShiftZero(sb - sa);
    }
    ShiftShift(WithSign(na, ma), sb - sa, k - sb, k - sa);
  }

  /** Normal form is unique: two normalised magnitudes that denote the same
      value at a common scale k have the same scale and the same digits. */
  lemma NormalMagnitudes(m1: int, s1: int, m2: int, s2: int, k: int)
    requires 0 <= s1 <= k && 0 <= s2 <= k
    requires s1 == 0 || m1 % 10 != 0
    requires s2 == 0 || m2 % 10 != 0
    requires Shift(m1, k - s1) == Shift(m2, k - s2)
    ensures s1 == s2 && m1 == m2
  {
    if s1 < s2 {
      ShiftShift(m1, s2 - s1, k - s2, k - s1);
      ShiftInjective(Shift(m1, s2 - s1), m2, k - s2);
      ShiftedMultipleOfTen(m1, s2 - s1);
    } else if s2 < s1 {
      ShiftShift(m2, s1 - s2, k - s1, k - s2);
      ShiftInjective(Shift(m2, s1 - s2), m1, k - s1);
      ShiftedMultipleOfTen(m2, s1 - s2);
    } else {
      ShiftInjective(m1, m2, k - s1);
    }
  }

  /** The string constructor's fields from the AInteger string constructor's
      outcome on the combined digits: its error, or its integer as the
      unscaled value with the sign of the text, except that zero is never
      negative. */
  function FloatOutcome(neg: bool, res: Result<Num>, scale: nat): Result<Parsed>
  {
    match res
    case Err(e) => Err(e)
    case Ok(u) => Ok(Parsed(neg && !(u.value == [0] && !u.isNegative), u, scale))
  }

  lemma ParsedFields(s: string, ip: string, fp: string, combined: string)
    requires |s| > 0 && ip == IntPart(s) && fp == FracPart(s)
    requires combined == if ip + fp == "" then "0" else ip + fp
    ensures ParseFloatSpec(s) == FloatOutcome(s[0] == '-', ParseSpec(combined), |fp|)
  {
  }

  /** stripZeros gives each value exactly one representation: two valid
      AFloats in normal form with the same value (at any common scale k) have
      the same fields, so they print the same text. */
  lemma NormalFormUnique(a: AFloat, b: AFloat, k: int)
    requires a.Valid() && a.Normal() && b.Valid() && b.Normal()
    requires a.scale <= k && b.scale <= k && a.ScaledTo(k) == b.ScaledTo(k)
    ensures a.scale == b.scale && a.isNegative == b.isNegative
    ensures a.unscaled.State() == b.unscaled.State()
    ensures FloatText(a.unscaled.State(), a.scale, a.isNegative) == FloatText(b.unscaled.State(), b.scale, b.isNegative)
  {
    var ma, mb := a.Magnitude(), b.Magnitude();
    LimbsBound(a.unscaled.value);
    LimbsBound(b.unscaled.value);
    SignedShift(a.isNegative, ma, k - a.scale);
    SignedShift(b.isNegative, mb, k - b.scale);
    ShiftNonNegative(ma, k - a.scale);
    ShiftNonNegative(mb, k - b.scale);
    NormalMagnitudes(ma, a.scale, mb, b.scale, k);
    if ma != 0 {
      ShiftZero(k - a.scale);
      if Shift(ma, k - a.scale) == 0 {
        ShiftInjective(ma, 0, k - a.scale);
      }
    }
    CanonicalUnique(a.unscaled.value, b.unscaled.value);
  }

  lemma ZerosSnoc(i: nat)
    ensures Zeros(i) + "0" == Zeros(i + 1)
  {
  }

  class AFloat {
    var unscaled: AInteger
    var scale: int
    var isNegative: bool

    /** The magnitude of the unscaled integer. */
    function Magnitude(): int
      reads this, unscaled
    {
      Val(unscaled.value)
    }

    /** The unscaled integer with the sign bit applied: the value × 10^scale. */
    function SignedUnscaled(): int
      reads this, unscaled
    {
      WithSign(isNegative, Magnitude())
    }

    /** The value × 10^k, an integer for every k at or above the scale. */
    function ScaledTo(k: int): int
      requires scale <= k
      reads this, unscaled
    {
      Shift(SignedUnscaled(), k - scale)
    }

    /** What the arithmetic relies on: a scale that is not negative and an
        unscaled integer that is a non-negative canonical AInteger (which the
        default, int and copy constructors give, and the string constructor
        gives for well-formed decimal text). */
    predicate Valid()
      reads this, unscaled
    {
      scale >= 0 && Canonical(unscaled.value) && !unscaled.isNegative
    }

    /** What stripZeros establishes: no trailing decimal zero while the scale
        is positive, and no -0. */
    predicate Normal()
      reads this, unscaled
    {
      (scale == 0 || Magnitude() % 10 != 0) && (isNegative ==> Magnitude() != 0)
    }

    /** The fields as the string constructor would report them. */
    function Fields(): Parsed
      requires scale >= 0
      reads this, unscaled
    {
      Parsed(isNegative, unscaled.State(), scale)
    }

    /** The default constructor: 0.0. */
    constructor ()
      ensures fresh(unscaled) && unscaled.value == [0] && !unscaled.isNegative
      ensures scale == 0 && !isNegative
    {
      var zero := new AInteger.FromInt(0);
      CanonicalZero(zero.value);
      unscaled := zero;
      scale := 0;
      isNegative := false;
    }

    /** The int constructor, for every int except Integer.MIN_VALUE. */
    constructor FromInt(n: int)
      requires -0x8000_0000 < n < 0x8000_0000
      ensures fresh(unscaled) && Valid() && Normal()
      ensures scale == 0 && SignedUnscaled() == n
    {
      unscaled := new AInteger.FromInt(Abs(n));
      scale := 0;
      isNegative := n < 0;
    }

    /** The copy constructor: a new AInteger with the same limbs and sign. */
    constructor Copy(other: AFloat)
      ensures fresh(unscaled) && unscaled.State() == other.unscaled.State()
      ensures scale == other.scale && isNegative == other.isNegative
    {
      unscaled := new AInteger.Copy(other.unscaled);
      scale := other.scale;
      isNegative := other.isNegative;
    }

    /** The string constructor (and the static parse): the fields are those
        ParseFloatSpec describes; the empty string and whatever the AInteger
        string constructor refuses raise IllegalArgumentException. */
    static method Parse(s: string) returns (r: Result<AFloat>)
      ensures r.Err? <==> ParseFloatSpec(s).Err?
      ensures r.Err? ==> r.error == IllegalArgument
      ensures r.Ok? ==> fresh(r.value) && r.value.scale >= 0 && r.value.Fields() == ParseFloatSpec(s).value
    {
      if |s| == 0 {
        return Err(IllegalArgument);
      }
      var intPart, fracPart := SplitParts(s);
      var combined := intPart + fracPart;
      if combined == "" {
        combined := "0";
      }
      ParsedFields(s, intPart, fracPart, combined);
      var u := AInteger.Parse(combined);
      if u.Err? {
        return Err(u.error);
      }
      var f := WithParsedInteger(u.value, |fracPart|, s[0] == '-');
      r := Ok(f);
    }

    /** The end of the string constructor: the parsed integer becomes the
        unscaled value, and the sign of the text is dropped when that integer
        prints as "0". */
    static method WithParsedInteger(u: AInteger, sc: nat, neg: bool) returns (f: AFloat)
      requires IsLimbs(u.value)
      ensures fresh(f) && f.unscaled == u && f.scale == sc
      ensures f.isNegative == (neg && !(u.value == [0] && !u.isNegative))
    {
      f := new AFloat();
      f.unscaled := u;
      f.scale := sc;
      f.isNegative := neg;
      var z := PrintsAsZero(f.unscaled);
      if z {
        f.isNegative := false;
      }
    }

    /** The string constructor's text handling: sign, split at the first '.',
        "0" for a missing part, then the regular expressions that strip leading
        zeros of the integer part and trailing zeros of the fraction. */
    static method SplitParts(s: string) returns (intPart: string, fracPart: string)
      requires |s| > 0
      ensures intPart == IntPart(s) && fracPart == FracPart(s)
    {
      var start := if s[0] == '+' || s[0] == '-' then 1 else 0;
      var dot := IndexOf(s, '.', start);
      if dot == -1 {
        intPart, fracPart := s[start..], "";
      } else {
        intPart, fracPart := s[start..dot], s[dot + 1..];
      }
      assert intPart == IntRaw(s) && fracPart == FracRaw(s);
      intPart := StripLeadingZeros(OrZero(intPart));
      fracPart := StripTrailingZeros(OrZero(fracPart));
    }

    /** The -0 test `size() == 1 && toString().equals("0")`: exactly the
        non-negative single zero limb. */
    static method PrintsAsZero(x: AInteger) returns (z: bool)
      requires IsLimbs(x.value)
      ensures z <==> x.value == [0] && !x.isNegative
    {
      z := false;
      if x.Size() == 1 {
        var t := x.ToString();
        z := t == "0";
      }
      PrintsZeroIff(x.State());
    }

    /** pow10: 10^n as an AInteger, built from n / 4 factors of 10000 and one
        of 10^(n % 4); 1 when n is not positive. */
    static method Pow10(n: int) returns (p: AInteger)
      ensures fresh(p) && Canonical(p.value) && !p.isNegative
      ensures Val(p.value) == if n <= 0 then 1 else Shift(1, n)
    {
      if n <= 0 {
        p := new AInteger.FromInt(1);
        return;
      }
      var k := n / 4;
      var r := n % 4;
      var ten4 := new AInteger.FromInt(10000);
      p := new AInteger.FromInt(1);
      var i := 0;
      while i < k
        invariant 0 <= i <= k
        invariant Canonical(ten4.value) && !ten4.isNegative && Val(ten4.value) == 10000
        invariant fresh(p) && Canonical(p.value) && !p.isNegative
        invariant Val(p.value) == Shift(1, 4 * i)
      {
        p := p.Multiply(ten4);
        ShiftFour(Shift(1, 4 * i));
        ShiftShift(1, 4 * i, 4, 4 * i + 4);
        i := i + 1;
      }
      var small := new AInteger.FromInt(SmallPower(r));
      ghost var high := Val(p.value);
      p := p.Multiply(small);
      ShiftOne(high, r);
      ShiftShift(1, 4 * k, r, n);
    }

    /** `x.unscaled.multiply(pow10(common - x.scale))`: the magnitude moved to
        scale `common`. */
    static method Aligned(x: AFloat, common: int) returns (u: AInteger)
      requires x.Valid() && x.scale <= common
      ensures fresh(u) && Canonical(u.value) && !u.isNegative
      ensures Val(u.value) == Shift(x.Magnitude(), common - x.scale)
    {
      var p := Pow10(common - x.scale);
      u := x.unscaled.Multiply(p);
      if common - x.scale > 0 {
        ShiftOne(x.Magnitude(), common - x.scale);
      }
    }

    /** shiftScale: a copy with the scale raised by n and the magnitude
        multiplied by pow10(n). The value is kept for n >= 0; for a negative
        n, pow10 gives 1 and only the scale moves. */
    method ShiftScale(n: int) returns (copy: AFloat)
      requires Valid()
      ensures fresh(copy) && copy.scale == scale + n && copy.isNegative == isNegative
      ensures Canonical(copy.unscaled.value) && !copy.unscaled.isNegative
      ensures copy.Magnitude() == if n > 0 then Shift(Magnitude(), n) else Magnitude()
      ensures n >= 0 ==> copy.ScaledTo(scale + n) == ScaledTo(scale + n)
    {
      if n == 0 {
        copy := new AFloat.Copy(this);
        return;
      }
      copy := new AFloat.Copy(this);
      var p := Pow10(n);
      copy.unscaled := copy.unscaled.Multiply(p);
      copy.scale := copy.scale + n;
      if n > 0 {
        ShiftOne(Magnitude(), n);
        SignedShift(isNegative, Magnitude(), n);
      }
    }

    /** compareAbs: the sign of |a| - |b|, compared at the larger scale. */
    static method CompareAbs(a: AFloat, b: AFloat) returns (c: int)
      requires a.Valid() && b.Valid()
      ensures var k := Max(a.scale, b.scale);
        c == Sign(Shift(a.Magnitude(), k - a.scale) - Shift(b.Magnitude(), k - b.scale))
    {
      var common := Max(a.scale, b.scale);
      var ua := Aligned(a, common);
      var ub := Aligned(b, common);
      c := CompareAbsolute(ua.value, ub.value);
    }

    /** divMod10: the quotient and remainder of the magnitude by ten, by long
        division from the most significant limb down. */
    static method DivMod10(num: AInteger) returns (q: AInteger, r: AInteger)
      requires Canonical(num.value)
      ensures fresh(q) && fresh(r)
      ensures Canonical(q.value) && !q.isNegative && Canonical(r.value) && !r.isNegative
      ensures Val(q.value) == Val(num.value) / 10 && Val(r.value) == Val(num.value) % 10
    {
      var res := seq(|num.value|, _ => 0);
      var rem := 0;
      var i := |num.value|;
      while i > 0
        invariant 0 <= i <= |num.value| && |res| == |num.value| && IsLimbs(res)
        invariant 0 <= rem < 10
        invariant 10 * Val(res[i..]) + rem == Val(num.value[i..])
      {
        i := i - 1;
        var cur := num.value[i] + rem * 10000;
        ghost var high := Val(res[i + 1..]);
        res := res[i := cur / 10];
        assert res[i..][1..] == res[i + 1..];
        assert num.value[i..][1..] == num.value[i + 1..];
        DivTenArith(num.value[i], Val(num.value[i + 1..]), high, rem, cur, Val(num.value[i..]));
        rem := cur % 10;
      }
      assert res[0..] == res && num.value[0..] == num.value;
      LimbsBound(res);
      q := new AInteger();
      q.value := res;
      q.StripZeros();
      StrippedLimbs(res);
      r := new AInteger.FromInt(rem);
    }

    /** stripZeros: drop trailing decimal zeros of the magnitude while the
        scale is positive, keeping the value, then clear the sign of zero. */
    method StripZeros()
      requires Valid()
      modifies this
      ensures Valid() && Normal()
      ensures scale <= old(scale) && Shift(Magnitude(), old(scale) - scale) == old(Magnitude())
      ensures isNegative == (old(isNegative) && Magnitude() != 0)
    {
      while scale > 0
        invariant Valid() && scale <= old(scale)
        invariant Shift(Magnitude(), old(scale) - scale) == old(Magnitude())
        invariant isNegative == old(isNegative)
      {
        LastDigit(unscaled.value);
        if unscaled.value[0] % 10 != 0 {
          break;
        }
        var q, r := DivMod10(unscaled);
        var zero := PrintsAsZero(r);
        CanonicalZero(r.value);
        if zero {
          ghost var m := Magnitude();
          unscaled := q;
          scale := scale - 1;
          assert Shift(Magnitude(), 1) == m;
          ShiftShift(Magnitude(), 1, old(scale) - scale - 1, old(scale) - scale);
        } else {
          break;
        }
      }
      var zero := PrintsAsZero(unscaled);
      CanonicalZero(unscaled.value);
      if zero {
        isNegative := false;
      }
    }

    /** The tail shared by add, multiply and divide: a new AFloat with the
        given fields, then stripZeros; the value is that of the fields. */
    static method Normalised(u: AInteger, sc: int, neg: bool) returns (out: AFloat)
      requires sc >= 0 && Canonical(u.value) && !u.isNegative
      ensures fresh(out) && out.Valid() && out.Normal() && out.scale <= sc
      ensures out.ScaledTo(sc) == WithSign(neg, Val(u.value))
    {
      out := new AFloat();
      out.unscaled := u;
      out.scale := sc;
      out.isNegative := neg;
      out.StripZeros();
      LimbsBound(out.unscaled.value);
      StrippedScaled(neg, Val(u.value), sc, out.isNegative, out.Magnitude(), out.scale, sc);
    }

    /** add: both magnitudes moved to the larger scale, then added or, for
        operands of different signs, the smaller subtracted from the larger;
        the result is exact and in normal form. */
    method Add(other: AFloat) returns (out: AFloat)
      requires Valid() && other.Valid()
      ensures fresh(out) && out.Valid() && out.Normal()
      ensures var k := Max(scale, other.scale);
        out.scale <= k && out.ScaledTo(k) == ScaledTo(k) + other.ScaledTo(k)
    {
      var common := Max(scale, other.scale);
      var u1 := Aligned(this, common);
      var u2 := Aligned(other, common);
      ghost var v1, v2 := Val(u1.value), Val(u2.value);
      SignedShift(isNegative, Magnitude(), common - scale);
      SignedShift(other.isNegative, other.Magnitude(), common - other.scale);
      ghost var a, b := ScaledTo(common), other.ScaledTo(common);
      assert a == WithSign(isNegative, v1) && b == WithSign(other.isNegative, v2);
      var res, neg := SignedSum(u1, isNegative, u2, other.isNegative);
      var zero := PrintsAsZero(res);
      CanonicalZero(res.value);
      out := Normalised(res, common, neg && !zero);
      assert out.ScaledTo(common) == a + b;
    }

    /** The sign rules of add on the aligned magnitudes: equal signs add the
        magnitudes; different signs subtract the smaller magnitude from the
        larger and take the sign of the larger. */
    static method SignedSum(u1: AInteger, n1: bool, u2: AInteger, n2: bool) returns (res: AInteger, neg: bool)
      requires Canonical(u1.value) && !u1.isNegative && Canonical(u2.value) && !u2.isNegative
      ensures fresh(res) && Canonical(res.value) && !res.isNegative
      ensures WithSign(neg, Val(res.value)) == WithSign(n1, Val(u1.value)) + WithSign(n2, Val(u2.value))
    {
      LimbsBound(u1.value);
      LimbsBound(u2.value);
      if n1 == n2 {
        res := u1.Add(u2);
        neg := n1;
      } else {
        var cmp := CompareAbsolute(u1.value, u2.value);
        if cmp >= 0 {
          res := u1.Subtract(u2);
          neg := n1;
        } else {
          res := u2.Subtract(u1);
          neg := n2;
        }
      }
      AddSigns(n1, Val(u1.value), n2, Val(u2.value), neg, Val(res.value));
    }

    /** subtract: add the operand with its sign bit flipped. */
    method Subtract(other: AFloat) returns (out: AFloat)
      requires Valid() && other.Valid()
      ensures fresh(out) && out.Valid() && out.Normal()
      ensures var k := Max(scale, other.scale);
        out.scale <= k && out.ScaledTo(k) == ScaledTo(k) - other.ScaledTo(k)
    {
      var negOther := new AFloat.Copy(other);
      negOther.isNegative := !other.isNegative;
      SignedShift(true, other.SignedUnscaled(), Max(scale, other.scale) - other.scale);
      out := Add(negOther);
    }

    /** multiply: the product of the unscaled integers at the sum of the
        scales, exact and in normal form. */
    method Multiply(other: AFloat) returns (out: AFloat)
      requires Valid() && other.Valid()
      ensures fresh(out) && out.Valid() && out.Normal()
      ensures var k := scale + other.scale;
        out.scale <= k && out.ScaledTo(k) == ScaledTo(scale) * other.ScaledTo(other.scale)
    {
      var product := unscaled.Multiply(other.unscaled);
      SignedProduct(isNegative, Magnitude(), other.isNegative, other.Magnitude());
      out := Normalised(product, scale + other.scale, isNegative != other.isNegative);
    }

    /** divide: DivisionByZero when the divisor is zero; otherwise the
        dividend's magnitude times 10^(divisor scale + 30), divided by the
        divisor's magnitude, at scale + 30: the quotient truncated toward
        zero at 30 more fractional digits than the dividend has. */
    method Divide(other: AFloat) returns (r: Result<AFloat>)
      requires Valid() && other.Valid()
      ensures r.Err? <==> other.Magnitude() == 0
      ensures r.Err? ==> r.error == DivisionByZero
      ensures r.Ok? ==> fresh(r.value) && r.value.Valid() && r.value.Normal()
      ensures r.Ok? ==> var k := scale + RESULT_SCALE;
        r.value.scale <= k
        && r.value.ScaledTo(k) == TruncDiv(ScaledTo(k + other.scale), other.ScaledTo(other.scale))
    {
      var zero := PrintsAsZero(other.unscaled);
      CanonicalZero(other.unscaled.value);
      if zero {
        return Err(DivisionByZero);
      }
      ghost var k := scale + RESULT_SCALE;
      ghost var x, y := ScaledTo(k + other.scale), other.ScaledTo(other.scale);
      SignedShift(isNegative, Magnitude(), other.scale + RESULT_SCALE);
      LimbsBound(other.unscaled.value);
      LimbsBound(unscaled.value);
      ShiftNonNegative(Magnitude(), other.scale + RESULT_SCALE);
      var quotient := ScaledQuotient(unscaled, other.scale + RESULT_SCALE, other.unscaled);
      SignedQuotient(isNegative, Shift(Magnitude(), other.scale + RESULT_SCALE), other.isNegative, other.Magnitude(),
        isNegative != other.isNegative, Val(quotient.value));
      var out := Normalised(quotient, scale + RESULT_SCALE, isNegative != other.isNegative);
      assert out.ScaledTo(k) == TruncDiv(x, y);
      r := Ok(out);
    }

    /** divide's `unscaled.multiply(pow10(n)).divide(divisor)`: the magnitude
        times 10^n, divided by a nonzero magnitude. */
    static method ScaledQuotient(u: AInteger, n: nat, divisor: AInteger) returns (q: AInteger)
      requires Canonical(u.value) && !u.isNegative && Canonical(divisor.value) && !divisor.isNegative
      requires Val(divisor.value) != 0
      ensures fresh(q) && Canonical(q.value) && !q.isNegative
      ensures Val(q.value) == Shift(Val(u.value), n) / Val(divisor.value)
    {
      ghost var m, dv := Val(u.value), Val(divisor.value);
      var p := Pow10(n);
      ShiftOne(m, n);
      assert Val(p.value) == Shift(1, n);
      var dividend := u.Multiply(p);
      assert Val(dividend.value) == Shift(m, n);
      var r := dividend.Divide(divisor);
      q := r.value;
      assert Val(q.value) == Shift(m, n) / dv;
    }

    /** toString when the digits are no more than the scale: the sign, "0.",
        zero padding up to the scale, the digits, then trimFraction. */
    static method PaddedFraction(sign: string, digits: string, scale: nat) returns (s: string)
      requires scale >= |digits| && (sign == "" || sign == "-")
      ensures s == Layout(digits, scale, sign == "-")
    {
      var sb := AppendZeros(sign + "0.", scale - |digits|);
      sb := sb + digits;
      s := TrimFraction(sb);
    }

    /** toString's padding loop: n zeros appended one at a time. */
    static method AppendZeros(prefix: string, n: int) returns (sb: string)
      requires n >= 0
      ensures sb == prefix + Zeros(n)
    {
      sb := prefix;
      var i := 0;
      while i < n
        invariant 0 <= i <= n
        invariant sb == prefix + Zeros(i)
      {
        ZerosSnoc(i);
        sb := sb + "0";
        i := i + 1;
      }
    }

    /** toString: the layout FloatText describes. */
    method ToString() returns (s: string)
      requires scale >= 0 && IsLimbs(unscaled.value)
      ensures s == FloatText(unscaled.State(), scale, isNegative)
    {
      var digits := unscaled.ToString();
      s := LayOut(digits, scale, isNegative);
    }

    /** The body of toString after the digits are printed: "0." and zero
        padding when the digits are too few, the digits as they are at scale
        0, the point placed `scale` digits from the right otherwise, and
        trimFraction on the two layouts with a point. */
    static method LayOut(digits: string, scale: nat, isNegative: bool) returns (s: string)
      ensures s == Layout(digits, scale, isNegative)
    {
      var sign := if isNegative then "-" else "";
      if scale >= |digits| {
        s := PaddedFraction(sign, digits, scale);
      } else if scale == 0 {
        s := sign + digits;
      } else {
        var cut := |digits| - scale;
        var intPart := digits[..cut];
        var fracPart := digits[cut..];
        s := TrimFraction(sign + intPart + "." + fracPart);
      }
    }
  }
}
