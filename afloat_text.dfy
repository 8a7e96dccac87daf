/** The text side of arbitraryarithmetic.AFloat (src/arbitraryarithmetic/AFloat.java):
    how the string constructor splits its input into an integer part and a
    fraction part, and how toString lays out the unscaled digits around the
    decimal point and truncates the fraction to 30 digits. */
module FloatFormat {
  import opened Base
  import opened DecimalText
  import opened LimbArith
  import opened AIntegers

  /** Fractional digits toString keeps. */
  const MAX_FRACTION := 30

  /** String.indexOf(c, from): the first position at or after `from` holding c, or -1. */
  function IndexOf(s: string, c: char, from: nat): (r: int)
    ensures r == -1 || (from <= r < |s| && s[r] == c)
    ensures r == -1 ==> forall i :: from <= i < |s| ==> s[i] != c
    ensures r != -1 ==> forall i :: from <= i < r ==> s[i] != c
    decreases |s| - from
  {
    if from >= |s| then -1 else if s[from] == c then from else IndexOf(s, c, from + 1)
  }

  /** The fields the string constructor sets. */
  datatype Parsed = Parsed(isNegative: bool, unscaled: Num, scale: nat)

  /** One leading '+' or '-' is consumed. */
  function SignLength(s: string): nat
    requires |s| > 0
  {
    if s[0] == '+' || s[0] == '-' then 1 else 0
  }

  /** The text between the sign and the first '.' (all of it when there is no '.'). */
  function IntRaw(s: string): string
    requires |s| > 0
  {
    var dot := IndexOf(s, '.', SignLength(s));
    if dot == -1 then s[SignLength(s)..] else s[SignLength(s)..dot]
  }

  /** The text after the first '.', or "" when there is none. */
  function FracRaw(s: string): string
    requires |s| > 0
  {
    var dot := IndexOf(s, '.', SignLength(s));
    if dot == -1 then "" else s[dot + 1..]
  }

  /** A missing part reads as "0". */
  function OrZero(t: string): string
  {
    if t == "" then "0" else t
  }

  function IntPart(s: string): string
    requires |s| > 0
  {
    StripLeadingZeros(OrZero(IntRaw(s)))
  }

  function FracPart(s: string): string
    requires |s| > 0
  {
    StripTrailingZeros(OrZero(FracRaw(s)))
  }

  /** The digits handed to the AInteger string constructor. */
  function Combined(s: string): string
    requires |s| > 0
  {
    var c := IntPart(s) + FracPart(s);
    if c == "" then "0" else c
  }

  /** The -0 test `size() == 1 && toString().equals("0")`. */
  predicate PrintsZero(u: Num)
    requires IsLimbs(u.value)
  {
    |u.value| == 1 && Format(u) == "0"
  }

  /** The test holds exactly for the non-negative single zero limb. */
  lemma PrintsZeroIff(u: Num)
    requires IsLimbs(u.value)
    ensures PrintsZero(u) <==> u.value == [0] && !u.isNegative
  {
    if |u.value| == 1 {
      var t := NatStr(u.value[0]);
      if !u.isNegative {
        assert Format(u) == t;
        if t == "0" {
          assert t[0] == '0';
        }
      } else {
        assert Format(u)[0] == '-';
      }
    }
  }

  /** The string constructor of AFloat: IllegalArgumentException for the empty
      string and for whatever the AInteger string constructor refuses; the
      scale is the length of the fraction without its trailing zeros. */
  function ParseFloatSpec(s: string): (r: Result<Parsed>)
    ensures |s| == 0 ==> r.Err?
    ensures r.Err? ==> r.error == IllegalArgument
    ensures r.Ok? ==> IsLimbs(r.value.unscaled.value)
    ensures r.Ok? && r.value.isNegative ==> s[0] == '-' && r.value.unscaled != Num(false, [0])
  {
    if |s| == 0 then
      Err(IllegalArgument)
    else
      match ParseSpec(Combined(s))
      case Err(e) => Err(e)
      case Ok(u) =>
        // the -0 test, PrintsZero, in the form PrintsZeroIff proves equal to it
        Ok(Parsed(s[0] == '-' && !(u.value == [0] && !u.isNegative), u, |FracPart(s)|))
  }

  /** Decimal text: an optional sign, digits, then optionally '.' and digits
      (either group may be empty). */
  predicate WellFormedDecimal(s: string)
  {
    |s| > 0 && AllDigits(IntRaw(s)) && AllDigits(FracRaw(s))
  }

  lemma StripLeadingZerosDigits(t: string)
    requires AllDigits(t)
    ensures AllDigits(StripLeadingZeros(t)) && DecVal(StripLeadingZeros(t)) == DecVal(t)
  {
    var r := StripLeadingZeros(t);
    AllDigitsSuffix(t, |t| - |r|);
    StripLeadingZerosVal(t);
  }

  lemma AllDigitsSuffix(t: string, k: nat)
    requires AllDigits(t) && k <= |t|
    ensures AllDigits(t[k..])
  {
    forall i | 0 <= i < |t| - k
      ensures IsDigit(t[k..][i])
    {
      assert t[k..][i] == t[k + i];
    }
  }

  /** Trailing zeros of a fraction carry no value: the fraction read as an
      integer is the stripped fraction shifted by the number of dropped digits. */
  lemma FracPartVal(f: string)
    requires AllDigits(f)
    ensures var g := StripTrailingZeros(OrZero(f));
      AllDigits(g) && |g| <= |f| && DecVal(f) == Shift(DecVal(g), |f| - |g|)
      && (g == [] || g[|g| - 1] != '0')
  {
    var g := StripTrailingZeros(OrZero(f));
    if f == "" {
      assert StripTrailingZeros("0") == StripTrailingZeros("");
    } else {
      StripTrailingZerosVal(f);
    }
  }

  /** A well-formed decimal string parses; the unscaled integer, shifted to
      as many fractional digits as the text has, is the integer part followed
      by the fraction; scale is as small as the digits allow, the magnitude is
      stored non-negative, and the sign is that of the text except that -0
      becomes 0. */
  lemma ParseFloatMeaning(s: string)
    requires WellFormedDecimal(s)
    ensures var r := ParseFloatSpec(s);
      r.Ok? && Canonical(r.value.unscaled.value) && !r.value.unscaled.isNegative
      && r.value.scale <= |FracRaw(s)|
      && Shift(Val(r.value.unscaled.value), |FracRaw(s)| - r.value.scale) == DecVal(IntRaw(s) + FracRaw(s))
      && (r.value.scale == 0 || Val(r.value.unscaled.value) % 10 != 0)
      && (r.value.isNegative <==> s[0] == '-' && Val(r.value.unscaled.value) != 0)
  {
    ParseFloatParts(s);
    PartsVal(s);
    var i, f, ip, fp := IntRaw(s), FracRaw(s), IntPart(s), FracPart(s);
    DecValConcat(ip, fp);
    DecValConcat(i, f);
    ShiftSum(DecVal(ip), DecVal(fp), DecVal(i), DecVal(f), DecVal(ip + fp), DecVal(i + f), |fp|, |f|);
  }

  /** The fields the string constructor sets, in terms of the two parts. */
  lemma ParseFloatParts(s: string)
    requires WellFormedDecimal(s)
    ensures var r := ParseFloatSpec(s);
      r.Ok? && Canonical(r.value.unscaled.value) && !r.value.unscaled.isNegative
      && r.value.scale == |FracPart(s)|
      && Val(r.value.unscaled.value) == DecVal(IntPart(s) + FracPart(s))
      && (r.value.scale == 0 || Val(r.value.unscaled.value) % 10 != 0)
      && (r.value.isNegative <==> s[0] == '-' && Val(r.value.unscaled.value) != 0)
  {
    var ip, fp := IntPart(s), FracPart(s);
    PartsVal(s);
    var c := ip + fp;
    var u := ParseSpec(c).value;
    PrintsZeroIff(u);
    CanonicalZero(u.value);
    if |fp| > 0 {
      DecValLastDigit(c);
      assert c[|c| - 1] == fp[|fp| - 1];
    }
  }

  /** Shifting a two-part value by the digits one part is short of another. */
  lemma ShiftSum(x: int, y: int, xi: int, vf: int, c: int, ci: int, lfp: nat, lf: nat)
    requires lfp <= lf && x == xi && vf == Shift(y, lf - lfp)
    requires c == Shift(x, lfp) + y && ci == Shift(xi, lf) + vf
    ensures Shift(c, lf - lfp) == ci
  {
    ShiftEqual(c, Shift(x, lfp) + y, lf - lfp);
    ShiftPlus(Shift(x, lfp), y, lf - lfp);
    ShiftShift(x, lfp, lf - lfp, lf);
    ShiftEqual(x, xi, lf);
  }

  /** What the stripping of a raw integer text i and a raw fraction text f
      into parts ip and fp keeps: the digits, the integer value, the
      fraction value up to the stripped trailing zeros, and a fraction that
      ends in a non-zero digit. */
  predicate PartsKeep(i: string, f: string, ip: string, fp: string)
  {
    AllDigits(ip) && |ip| >= 1 && AllDigits(fp) && |fp| <= |f|
    && DecVal(ip) == DecVal(i) && DecVal(f) == Shift(DecVal(fp), |f| - |fp|)
    && (fp == [] || fp[|fp| - 1] != '0')
    && ip + fp != "" && AllDigits(ip + fp) && DigitPart(ip + fp) == ip + fp
  }

  /** The integer and fraction parts of a well-formed decimal and their values. */
  lemma PartsVal(s: string)
    requires WellFormedDecimal(s)
    ensures PartsKeep(IntRaw(s), FracRaw(s), IntPart(s), FracPart(s))
    ensures Combined(s) == IntPart(s) + FracPart(s)
  {
    var i, f := IntRaw(s), FracRaw(s);
    var ip, fp := IntPart(s), FracPart(s);
    assert ip == StripLeadingZeros(OrZero(i)) && fp == StripTrailingZeros(OrZero(f));
    RawPartsVal(i, f);
  }

  /** PartsVal stated on the raw integer and fraction texts. */
  lemma RawPartsVal(i: string, f: string)
    requires AllDigits(i) && AllDigits(f)
    ensures PartsKeep(i, f, StripLeadingZeros(OrZero(i)), StripTrailingZeros(OrZero(f)))
  {
    IntPartVal(i);
    FracPartVal(f);
    DigitsConcat(StripLeadingZeros(OrZero(i)), StripTrailingZeros(OrZero(f)));
  }

  lemma IntPartVal(i: string)
    requires AllDigits(i)
    ensures var ip := StripLeadingZeros(OrZero(i));
      AllDigits(ip) && |ip| >= 1 && DecVal(ip) == DecVal(i)
  {
    var z := OrZero(i);
    StripLeadingZerosDigits(z);
    if i == "" {
      assert z == "0";
      DecValZero();
    }
  }

  lemma DigitsConcat(a: string, b: string)
    requires AllDigits(a) && |a| >= 1 && AllDigits(b)
    ensures AllDigits(a + b) && a + b != "" && DigitPart(a + b) == a + b
  {
    assert (a + b)[0] == a[0];
  }

  /** Some character of the text after the sign is neither a digit, a '.'
      nor a '-', or a second '.' follows the first. */
  predicate HasForeignChar(s: string)
    requires |s| > 0
  {
    var t := IntRaw(s) + FracRaw(s);
    exists k :: 0 <= k < |t| && !IsDigit(t[k]) && t[k] != '-'
  }

  /** Such a character survives into the digits handed to the AInteger
      constructor, which then throws. */
  lemma ParseFloatRejects(s: string)
    requires |s| > 0 && HasForeignChar(s)
    ensures ParseFloatSpec(s) == Err(IllegalArgument)
  {
    var t := IntRaw(s) + FracRaw(s);
    var k :| 0 <= k < |t| && !IsDigit(t[k]) && t[k] != '-';
    var pos := ForeignInParts(IntRaw(s), FracRaw(s), k);
    ForeignRejected(Combined(s), pos);
  }

  /** A character that is neither a digit nor '-' in the raw parts is still
      there after the zeros are stripped. */
  lemma ForeignInParts(i: string, f: string, k: nat) returns (pos: nat)
    requires k < |i + f| && !IsDigit((i + f)[k]) && (i + f)[k] != '-'
    ensures var c := StripLeadingZeros(OrZero(i)) + StripTrailingZeros(OrZero(f));
      pos < |c| && !IsDigit(c[pos]) && c[pos] != '-'
  {
    if k < |i| {
      pos := ForeignInIntPart(i, f, k);
    } else {
      pos := ForeignInFracPart(i, f, k);
    }
  }

  lemma ForeignInIntPart(i: string, f: string, k: nat) returns (pos: nat)
    requires k < |i| && !IsDigit((i + f)[k]) && (i + f)[k] != '-'
    ensures var c := StripLeadingZeros(OrZero(i)) + StripTrailingZeros(OrZero(f));
      pos < |c| && !IsDigit(c[pos]) && c[pos] != '-'
  {
    assert (i + f)[k] == i[k];
    var p := ForeignInInt(i, k);
    pos := ForeignInFront(StripLeadingZeros(OrZero(i)), StripTrailingZeros(OrZero(f)), p);
  }

  lemma ForeignInFracPart(i: string, f: string, k: nat) returns (pos: nat)
    requires |i| <= k < |i + f| && !IsDigit((i + f)[k]) && (i + f)[k] != '-'
    ensures var c := StripLeadingZeros(OrZero(i)) + StripTrailingZeros(OrZero(f));
      pos < |c| && !IsDigit(c[pos]) && c[pos] != '-'
  {
    assert (i + f)[k] == f[k - |i|];
    var j := ForeignInFrac(f, k - |i|);
    pos := ForeignInBack(StripLeadingZeros(OrZero(i)), StripTrailingZeros(OrZero(f)), j);
  }

  lemma ForeignInFront(a: string, b: string, p: nat) returns (pos: nat)
    requires p < |a| && !IsDigit(a[p]) && a[p] != '-'
    ensures pos < |a + b| && !IsDigit((a + b)[pos]) && (a + b)[pos] != '-'
  {
    pos := p;
    assert (a + b)[pos] == a[p];
  }

  lemma ForeignInBack(a: string, b: string, j: nat) returns (pos: nat)
    requires j < |b| && !IsDigit(b[j]) && b[j] != '-'
    ensures pos < |a + b| && !IsDigit((a + b)[pos]) && (a + b)[pos] != '-'
  {
    pos := |a| + j;
    assert (a + b)[pos] == b[j];
  }

  /** A foreign character of the integer part survives the leading-zero strip. */
  lemma ForeignInInt(i: string, k: nat) returns (pos: nat)
    requires k < |i| && !IsDigit(i[k]) && i[k] != '-'
    ensures var ip := StripLeadingZeros(OrZero(i));
      pos < |ip| && ip[pos] == i[k]
  {
    assert OrZero(i) == i;
    var ip := StripLeadingZeros(i);
    var dropped := |i| - |ip|;
    assert k >= dropped;
    pos := k - dropped;
    assert ip[pos] == i[k];
  }

  /** A foreign character of the fraction survives the trailing-zero strip. */
  lemma ForeignInFrac(f: string, j: nat) returns (pos: nat)
    requires j < |f| && !IsDigit(f[j]) && f[j] != '-'
    ensures var fp := StripTrailingZeros(OrZero(f));
      pos < |fp| && fp[pos] == f[j]
  {
    assert OrZero(f) == f;
    var fp := StripTrailingZeros(f);
    assert j < |fp|;
    pos := j;
    assert fp[pos] == f[j];
  }

  /** Such a character makes the AInteger string constructor throw. */
  lemma ForeignRejected(c: string, pos: nat)
    requires pos < |c| && !IsDigit(c[pos]) && c[pos] != '-'
    ensures ParseSpec(c) == Err(IllegalArgument)
  {
    var d := DigitPart(c);
    if c[0] == '-' {
      assert pos >= 1 && d[pos - 1] == c[pos];
    } else {
      assert d[pos] == c[pos];
    }
  }

  /** trimFraction: keep what precedes the first '.', then the kept fraction
      after a '.', or nothing when no fraction digit is kept. */
  function TrimFraction(s: string): string
  {
    var dot := IndexOf(s, '.', 0);
    if dot == -1 then
      s
    else
      var kept := KeptFraction(s[dot + 1..]);
      if kept == "" then s[..dot] else s[..dot] + "." + kept
  }

  /** The fraction trimFraction keeps of a fraction text f0: cut to 30
      characters, then without trailing zeros. */
  function KeptFraction(f0: string): string
  {
    StripTrailingZeros(if |f0| > MAX_FRACTION then f0[..MAX_FRACTION] else f0)
  }

  /** The kept fraction is the longest prefix of the first 30 fraction
      characters that does not end in '0'. */
  lemma KeptFractionMeaning(f0: string)
    ensures var f := KeptFraction(f0);
      |f| <= MAX_FRACTION && |f| <= |f0| && f == f0[..|f|]
      && (f == "" || f[|f| - 1] != '0')
      && forall i :: |f| <= i < |f0| && i < MAX_FRACTION ==> f0[i] == '0'
  {
    var cut := if |f0| > MAX_FRACTION then f0[..MAX_FRACTION] else f0;
    assert forall i :: 0 <= i < |cut| ==> cut[i] == f0[i];
  }

  function Min(x: int, y: int): int
  {
    if x <= y then x else y
  }

  lemma TrimFractionSplit(sign: string, i0: string, f0: string)
    requires sign == "" || sign == "-"
    requires AllDigits(i0)
    ensures var f := KeptFraction(f0);
      TrimFraction(sign + i0 + "." + f0) == sign + i0 + (if f == "" then "" else "." + f)
  {
    NoDot(sign, i0);
    TrimAfter(sign + i0, f0);
  }

  /** trimFraction of a dot-free prefix, a '.' and a fraction text. */
  lemma TrimAfter(a: string, f0: string)
    requires DotFree(a)
    ensures var f := KeptFraction(f0);
      TrimFraction(a + "." + f0) == a + (if f == "" then "" else "." + f)
  {
    DotAfter(a, f0, 0);
  }

  predicate DotFree(a: string)
  {
    forall j :: 0 <= j < |a| ==> a[j] != '.'
  }

  lemma NoDot(sign: string, i0: string)
    requires sign == "" || sign == "-"
    requires AllDigits(i0)
    ensures DotFree(sign + i0) && DotFree(i0)
  {
    var a := sign + i0;
    forall j | 0 <= j < |a|
      ensures a[j] != '.'
    {
      if j >= |sign| {
        assert a[j] == i0[j - |sign|];
      }
    }
  }

  /** The first '.' of a + "." + rest is the one after a, when a has none. */
  lemma DotAfter(a: string, rest: string, from: nat)
    requires DotFree(a) && from <= |a|
    ensures IndexOf(a + "." + rest, '.', from) == |a|
    ensures (a + "." + rest)[..|a|] == a && (a + "." + rest)[|a| + 1..] == rest
  {
    var s := a + "." + rest;
    assert s[|a|] == '.';
    assert forall j :: 0 <= j < |a| ==> s[j] == a[j];
    var r := IndexOf(s, '.', from);
    assert r != -1;
    assert !(r < |a|);
    assert s[..|a|] == a;
    assert s[|a| + 1..] == rest;
  }

  /** v at scale s read at e fractional digits: v * 10^(e - s), rounded
      down when digits are dropped. */
  function AtDigits(v: int, s: nat, e: nat): int
  {
    if s <= e then Shift(v, e - s) else Cut(v, s - e)
  }

  /** Integer digits in front of the fraction pass through the reading. */
  lemma AtDigitsPlus(a: int, t: int, k: nat, e: nat)
    ensures AtDigits(Shift(a, k) + t, k, e) == Shift(a, e) + AtDigits(t, k, e)
  {
    if k <= e {
      AtDigitsPlusWiden(a, t, k, e);
    } else {
      AtDigitsPlusNarrow(a, t, k, e);
    }
  }

  lemma AtDigitsPlusWiden(a: int, t: int, k: nat, e: nat)
    requires k <= e
    ensures AtDigits(Shift(a, k) + t, k, e) == Shift(a, e) + AtDigits(t, k, e)
  {
    assert AtDigits(Shift(a, k) + t, k, e) == Shift(Shift(a, k) + t, e - k);
    ShiftPlus(Shift(a, k), t, e - k);
    ShiftShift(a, k, e - k, e);
  }

  lemma AtDigitsPlusNarrow(a: int, t: int, k: nat, e: nat)
    requires k > e
    ensures AtDigits(Shift(a, k) + t, k, e) == Shift(a, e) + AtDigits(t, k, e)
  {
    var x := Shift(a, e);
    ShiftShift(a, e, k - e, k);
    assert Shift(a, k) + t == Shift(x, k - e) + t;
    CutShiftPlus(x, t, k - e);
  }

  /** The kept fraction is a truncation: read after the integer digits and
      shifted to 30 fractional digits it gives the value rounded down at the
      30th digit. */
  lemma KeptFractionVal(i0: string, f0: string)
    requires AllDigits(i0) && AllDigits(f0)
    ensures var f := KeptFraction(f0);
      AllDigits(f) && |f| <= MAX_FRACTION && (f == "" || f[|f| - 1] != '0')
      && Shift(DecVal(i0 + f), MAX_FRACTION - |f|) == AtDigits(DecVal(i0 + f0), |f0|, MAX_FRACTION)
  {
    var f := KeptFraction(f0);
    KeptFractionMeaning(f0);
    assert AllDigits(f) by {
      assert forall i :: 0 <= i < |f| ==> f[i] == f0[i];
    }
    FractionTruncation(f0);
    DecValConcat(i0, f);
    DecValConcat(i0, f0);
    TruncationPlus(DecVal(i0), DecVal(f), DecVal(f0), DecVal(i0 + f), DecVal(i0 + f0), |f|, |f0|, MAX_FRACTION);
  }

  /** KeptFractionVal over plain integers: a digits, then a fraction y that
      truncates the fraction x at e digits. */
  lemma TruncationPlus(a: int, y: int, x: int, c: int, c0: int, lf: nat, lf0: nat, e: nat)
    requires lf <= e && c == Shift(a, lf) + y && c0 == Shift(a, lf0) + x
    requires Shift(y, e - lf) == AtDigits(x, lf0, e)
    ensures Shift(c, e - lf) == AtDigits(c0, lf0, e)
  {
    ShiftEqual(c, Shift(a, lf) + y, e - lf);
    ShiftPlus(Shift(a, lf), y, e - lf);
    ShiftShift(a, lf, e - lf, e);
    AtDigitsPlus(a, x, lf0, e);
    AtDigitsEqual(c0, Shift(a, lf0) + x, lf0, e);
  }

  lemma AtDigitsEqual(a: int, b: int, s: nat, e: nat)
    requires a == b
    ensures AtDigits(a, s, e) == AtDigits(b, s, e)
  {
  }

  /** The fraction digits kept by trimFraction, shifted to 30 digits, are
      the fraction read at 30 digits and rounded down. */
  lemma FractionTruncation(f0: string)
    requires AllDigits(f0)
    ensures var f := KeptFraction(f0);
      |f| <= MAX_FRACTION
      && Shift(DecVal(f), MAX_FRACTION - |f|) == AtDigits(DecVal(f0), |f0|, MAX_FRACTION)
  {
    var cut := if |f0| > MAX_FRACTION then f0[..MAX_FRACTION] else f0;
    StripScaled(cut, MAX_FRACTION);
    CutScaled(f0);
  }

  /** Dropping trailing zeros keeps the value at a fixed number n of digits. */
  lemma StripScaled(cut: string, n: nat)
    requires |cut| <= n
    ensures var f := StripTrailingZeros(cut);
      Shift(DecVal(f), n - |f|) == Shift(DecVal(cut), n - |cut|)
  {
    var f := StripTrailingZeros(cut);
    StripTrailingZerosVal(cut);
    ShiftShift(DecVal(f), |cut| - |f|, n - |cut|, n - |f|);
  }

  /** Cutting the fraction to 30 digits rounds its 30-digit value down. */
  lemma CutScaled(f0: string)
    requires AllDigits(f0)
    ensures var cut := if |f0| > MAX_FRACTION then f0[..MAX_FRACTION] else f0;
      Shift(DecVal(cut), MAX_FRACTION - |cut|) == AtDigits(DecVal(f0), |f0|, MAX_FRACTION)
  {
    if |f0| > MAX_FRACTION {
      DecValPrefix(f0, MAX_FRACTION);
    }
  }

  /** toString: the unscaled digits with the point placed `scale` digits from
      the right, "0." and zero padding when the digits are too few, then
      trimFraction (which the scale-0 layout skips). */
  function Layout(digits: string, scale: nat, neg: bool): string
  {
    var sign := if neg then "-" else "";
    if scale >= |digits| then
      TrimFraction(sign + "0." + Zeros(scale - |digits|) + digits)
    else if scale == 0 then
      sign + digits
    else
      var cut := |digits| - scale;
      TrimFraction(sign + digits[..cut] + "." + digits[cut..])
  }

  /** AFloat.toString of the fields. */
  function FloatText(unscaled: Num, scale: nat, neg: bool): string
    requires IsLimbs(unscaled.value)
  {
    Layout(Format(unscaled), scale, neg)
  }

  /** The integer digits toString places before the point. */
  function IntDigits(d: string, scale: nat): string
  {
    if scale >= |d| then "0" else d[..|d| - scale]
  }

  /** The `scale` digits toString places after the point, zero-padded on the left. */
  function FracDigits(d: string, scale: nat): string
  {
    if scale >= |d| then Zeros(scale - |d|) + d else d[|d| - scale..]
  }

  /** The digits of a non-negative canonical magnitude, split at the point. */
  lemma SplitDigits(u: Num, scale: nat)
    requires Canonical(u.value) && !u.isNegative
    ensures var d := FormatDigits(u.value);
      var i0, f0 := IntDigits(d, scale), FracDigits(d, scale);
      Format(u) == d && AllDigits(i0) && AllDigits(f0) && |i0| >= 1 && |f0| == scale
      && (|i0| == 1 || i0[0] != '0')
      && DecVal(i0 + f0) == Val(u.value)
  {
    var d := FormatDigits(u.value);
    assert |d| == 1 || d[0] != '0' by {
      CanonicalZero(u.value);
      if u.value == [0] {
        assert d == NatStr(0);
      }
    }
    SplitAt(d, scale);
  }

  /** Placing the point in a digit string keeps its value as an integer. */
  lemma SplitAt(d: string, scale: nat)
    requires AllDigits(d) && |d| >= 1 && (|d| == 1 || d[0] != '0')
    ensures var i0, f0 := IntDigits(d, scale), FracDigits(d, scale);
      AllDigits(i0) && AllDigits(f0) && |i0| >= 1 && |f0| == scale
      && (|i0| == 1 || i0[0] != '0')
      && DecVal(i0 + f0) == DecVal(d)
  {
    var i0, f0 := IntDigits(d, scale), FracDigits(d, scale);
    if scale >= |d| {
      DecValLeadingZeros(scale - |d|, d);
      DecValAppend("0", f0);
      DecValZero();
    } else {
      assert i0 + f0 == d;
      assert forall i :: 0 <= i < |f0| ==> f0[i] == d[|d| - scale + i];
    }
  }

  /** The fraction toString prints for digits d at the given scale. */
  function PrintedFraction(d: string, scale: nat): string
  {
    if scale == 0 then "" else KeptFraction(FracDigits(d, scale))
  }

  /** What toString prints for a non-negative canonical magnitude: the sign,
      the integer digits, and the kept fraction after a '.' when it is not
      empty; shifted to 30 fractional digits, these digits are the value
      rounded down at the 30th fractional digit. */
  lemma LayoutShape(u: Num, scale: nat, neg: bool)
    requires Canonical(u.value) && !u.isNegative
    ensures var d := FormatDigits(u.value);
      var i0, f := IntDigits(d, scale), PrintedFraction(d, scale);
      var sign := if neg then "-" else "";
      FloatText(u, scale, neg) == sign + i0 + (if f == "" then "" else "." + f)
      && AllDigits(i0) && |i0| >= 1 && AllDigits(f) && |f| <= MAX_FRACTION
      && (|i0| == 1 || i0[0] != '0') && (f == "" || f[|f| - 1] != '0')
      && Shift(DecVal(i0 + f), MAX_FRACTION - |f|) == AtDigits(Val(u.value), scale, MAX_FRACTION)
  {
    var d := FormatDigits(u.value);
    LeadingDigit(u.value);
    FloatTextLayout(u, scale, neg);
    LayoutOf(d, scale, neg);
    LayoutValue(d, scale, Val(u.value));
  }

  /** A canonical magnitude prints without a leading '0' unless it is 0. */
  lemma LeadingDigit(v: seq<int>)
    requires Canonical(v)
    ensures var d := FormatDigits(v); |d| == 1 || d[0] != '0'
  {
    if v == [0] {
      assert FormatDigits(v) == NatStr(0);
    }
  }

  lemma FloatTextLayout(u: Num, scale: nat, neg: bool)
    requires Canonical(u.value) && !u.isNegative
    ensures FloatText(u, scale, neg) == Layout(FormatDigits(u.value), scale, neg)
  {
    var d := FormatDigits(u.value);
    assert Format(u) == "" + d == d;
  }

  /** The three layouts of toString, as integer digits and kept fraction. */
  lemma LayoutOf(d: string, scale: nat, neg: bool)
    requires AllDigits(d) && |d| >= 1
    ensures var i0, f := IntDigits(d, scale), PrintedFraction(d, scale);
      var sign := if neg then "-" else "";
      Layout(d, scale, neg) == sign + i0 + (if f == "" then "" else "." + f)
  {
    if scale == 0 {
      assert IntDigits(d, scale) == d;
    } else if scale >= |d| {
      LayoutPadded(d, scale, if neg then "-" else "");
    } else {
      LayoutCut(d, scale, if neg then "-" else "");
    }
  }

  /** The layout "0." + zeros + digits when the digits are no more than the scale. */
  lemma LayoutPadded(d: string, scale: nat, sign: string)
    requires AllDigits(d) && 1 <= |d| <= scale && (sign == "" || sign == "-")
    ensures var f := KeptFraction(FracDigits(d, scale));
      TrimFraction(sign + "0." + Zeros(scale - |d|) + d) == sign + "0" + (if f == "" then "" else "." + f)
  {
    var z := Zeros(scale - |d|);
    PaddedText(sign, z, d);
    TrimFractionSplit(sign, "0", z + d);
  }

  /** The padded text regrouped as integer part, point and fraction. */
  lemma PaddedText(sign: string, z: string, d: string)
    ensures sign + "0." + z + d == sign + "0" + "." + (z + d)
  {
    assert "0." == "0" + ".";
  }

  /** The layout digits[..cut] + "." + digits[cut..] when the scale is below the digit count. */
  lemma LayoutCut(d: string, scale: nat, sign: string)
    requires AllDigits(d) && 0 < scale < |d| && (sign == "" || sign == "-")
    ensures var i0, f := d[..|d| - scale], KeptFraction(d[|d| - scale..]);
      TrimFraction(sign + i0 + "." + d[|d| - scale..]) == sign + i0 + (if f == "" then "" else "." + f)
  {
    var i0 := d[..|d| - scale];
    assert forall i :: 0 <= i < |i0| ==> i0[i] == d[i];
    TrimFractionSplit(sign, i0, d[|d| - scale..]);
  }

  /** The printed digits, shifted to 30 fractional digits, are the value
      rounded down at the 30th fractional digit. */
  lemma LayoutValue(d: string, scale: nat, v: int)
    requires AllDigits(d) && |d| >= 1 && (|d| == 1 || d[0] != '0') && DecVal(d) == v
    ensures var i0, f := IntDigits(d, scale), PrintedFraction(d, scale);
      AllDigits(i0) && |i0| >= 1 && AllDigits(f) && |f| <= MAX_FRACTION
      && (|i0| == 1 || i0[0] != '0') && (f == "" || f[|f| - 1] != '0')
      && Shift(DecVal(i0 + f), MAX_FRACTION - |f|) == AtDigits(v, scale, MAX_FRACTION)
  {
    var i0, f0 := IntDigits(d, scale), FracDigits(d, scale);
    SplitAt(d, scale);
    if scale == 0 {
      assert i0 == d && i0 + "" == i0;
    } else {
      KeptFractionVal(i0, f0);
    }
  }

  /** Printing and reading back: the AFloat string constructor applied to
      what toString prints gives the same value read at 30 fractional digits
      (the original truncated toward zero), and a "-0" reads back as 0. */
  lemma PrintParse(u: Num, scale: nat, neg: bool)
    requires Canonical(u.value) && !u.isNegative
    ensures var r := ParseFloatSpec(FloatText(u, scale, neg));
      r.Ok? && Canonical(r.value.unscaled.value) && !r.value.unscaled.isNegative
      && r.value.scale <= MAX_FRACTION
      && AtDigits(Val(r.value.unscaled.value), r.value.scale, MAX_FRACTION)
         == AtDigits(Val(u.value), scale, MAX_FRACTION)
      && (r.value.isNegative <==> neg && Val(r.value.unscaled.value) != 0)
  {
    var sign, i0, f := PrintedPieces(u, scale, neg);
    PrintedRead(FloatText(u, scale, neg), sign, i0, f, MAX_FRACTION, AtDigits(Val(u.value), scale, MAX_FRACTION));
  }

  /** The pieces of the printed text, named. */
  lemma PrintedPieces(u: Num, scale: nat, neg: bool) returns (sign: string, i0: string, f: string)
    requires Canonical(u.value) && !u.isNegative
    ensures FloatText(u, scale, neg) == sign + i0 + (if f == "" then "" else "." + f)
    ensures (sign == "" || sign == "-") && (sign == "-" <==> neg)
    ensures AllDigits(i0) && |i0| >= 1 && AllDigits(f) && |f| <= MAX_FRACTION
    ensures Shift(DecVal(i0 + f), MAX_FRACTION - |f|) == AtDigits(Val(u.value), scale, MAX_FRACTION)
  {
    LayoutShape(u, scale, neg);
    sign := if neg then "-" else "";
    i0 := IntDigits(FormatDigits(u.value), scale);
    f := PrintedFraction(FormatDigits(u.value), scale);
  }

  /** A value shifted up to MAX_FRACTION digits is its value at MAX_FRACTION digits. */
  lemma ShiftedAtDigits(p: Parsed, e: nat, w: int)
    requires p.scale <= e && Shift(Val(p.unscaled.value), e - p.scale) == w
    ensures AtDigits(Val(p.unscaled.value), p.scale, e) == w
  {
  }

  /** Reading back a printed layout whose digits, shifted to e fractional
      digits, have value w. */
  lemma PrintedRead(t: string, sign: string, i0: string, f: string, e: nat, w: int)
    requires t == sign + i0 + (if f == "" then "" else "." + f)
    requires sign == "" || sign == "-"
    requires AllDigits(i0) && |i0| >= 1 && AllDigits(f)
    requires |f| <= e && Shift(DecVal(i0 + f), e - |f|) == w
    ensures var r := ParseFloatSpec(t);
      r.Ok? && Canonical(r.value.unscaled.value) && !r.value.unscaled.isNegative
      && r.value.scale <= e
      && AtDigits(Val(r.value.unscaled.value), r.value.scale, e) == w
      && (r.value.isNegative <==> sign == "-" && Val(r.value.unscaled.value) != 0)
  {
    PrintedParts(sign, i0, f);
    var p := ReadScaled(t, e, w);
    ShiftedAtDigits(p, e, w);
  }

  /** Reading back a well-formed decimal whose digits, shifted to e
      fractional digits, have value w. */
  lemma ReadScaled(t: string, e: nat, w: int) returns (p: Parsed)
    requires WellFormedDecimal(t) && |FracRaw(t)| <= e
    requires Shift(DecVal(IntRaw(t) + FracRaw(t)), e - |FracRaw(t)|) == w
    ensures ParseFloatSpec(t) == Ok(p)
    ensures Canonical(p.unscaled.value) && !p.unscaled.isNegative && p.scale <= e
    ensures Shift(Val(p.unscaled.value), e - p.scale) == w
    ensures p.isNegative <==> t[0] == '-' && Val(p.unscaled.value) != 0
  {
    ParseFloatMeaning(t);
    p := ParseFloatSpec(t).value;
    ShiftedParse(t, e, w, p);
  }

  /** The shift of ReadScaled for any parse result that has the text's value
      at the text's own fraction length. */
  lemma ShiftedParse(t: string, e: nat, w: int, p: Parsed)
    requires WellFormedDecimal(t) && |FracRaw(t)| <= e
    requires Shift(DecVal(IntRaw(t) + FracRaw(t)), e - |FracRaw(t)|) == w
    requires p.scale <= |FracRaw(t)|
    requires Shift(Val(p.unscaled.value), |FracRaw(t)| - p.scale) == DecVal(IntRaw(t) + FracRaw(t))
    ensures p.scale <= e && Shift(Val(p.unscaled.value), e - p.scale) == w
  {
    ShiftChain(Val(p.unscaled.value), |FracRaw(t)| - p.scale, e - |FracRaw(t)|, e - p.scale,
      DecVal(IntRaw(t) + FracRaw(t)), w);
  }

  /** Shifting by a then by b is shifting by a + b, stated over plain integers. */
  lemma ShiftChain(x: int, a: nat, b: nat, k: nat, v: int, w: int)
    requires k == a + b && Shift(x, a) == v && Shift(v, b) == w
    ensures Shift(x, k) == w
  {
    ShiftShift(x, a, b, k);
  }

  /** Reading the printed layout back apart: the integer digits and the kept fraction. */
  lemma PrintedParts(sign: string, i0: string, f: string)
    requires sign == "" || sign == "-"
    requires AllDigits(i0) && |i0| >= 1 && AllDigits(f)
    ensures var t := sign + i0 + (if f == "" then "" else "." + f);
      WellFormedDecimal(t) && IntRaw(t) == i0 && FracRaw(t) == f && (t[0] == '-' <==> sign == "-")
  {
    var a := sign + i0;
    NoDot(sign, i0);
    assert a[..|sign|] == sign && a[|sign|..] == i0;
    if f == "" {
      assert a + "" == a;
      SignOf(sign, i0, "");
      IndexOfAbsent(a, '.', |sign|);
    } else {
      var t := a + "." + f;
      assert t == sign + i0 + ("." + f);
      SignOf(sign, i0, "." + f);
      DotAfter(a, f, |sign|);
      assert t[|sign|..|a|] == a[|sign|..];
    }
  }

  /** The sign is read back as printed. */
  lemma SignOf(sign: string, i0: string, rest: string)
    requires sign == "" || sign == "-"
    requires AllDigits(i0) && |i0| >= 1
    ensures var t := sign + i0 + rest;
      |t| > 0 && SignLength(t) == |sign| && (t[0] == '-' <==> sign == "-")
  {
    var t := sign + i0 + rest;
    if sign == "" {
      assert t[0] == i0[0];
    } else {
      assert t[0] == '-';
    }
  }

  lemma IndexOfAbsent(s: string, c: char, from: nat)
    requires forall j :: 0 <= j < |s| ==> s[j] != c
    ensures IndexOf(s, c, from) == -1
  {
  }

  /** "-" reads as a valid zero, while "--" hands "-" to the AInteger parse
      and keeps its empty, negative limb list. */
  lemma DashTexts()
    ensures ParseFloatSpec("-") == Ok(Parsed(false, Num(false, [0]), 0))
    ensures ParseFloatSpec("--").Ok? && ParseFloatSpec("--").value.unscaled == Num(true, [])
  {
    DashCombined();
    ZeroParse();
    DashParse();
  }

  lemma DashCombined()
    ensures FracPart("-") == "" && Combined("-") == "0"
    ensures FracPart("--") == "" && Combined("--") == "-"
  {
    assert IndexOf("-", '.', 1) == -1;
    assert IndexOf("--", '.', 1) == -1 by {
      assert IndexOf("--", '.', 2) == -1;
    }
    assert IntRaw("-") == "" && FracRaw("-") == "";
    assert IntRaw("--") == "-" && FracRaw("--") == "";
    assert StripTrailingZeros("0") == "" by {
      assert "0"[..0] == "";
    }
  }

  lemma ZeroParse()
    ensures ParseSpec("0") == Ok(Num(false, [0]))
  {
    assert DigitPart("0") == "0";
    ChunksOfShort("0");
  }

  /** The worked example of the string constructor: "1.2300" is unscaled 123 at scale 2. */
  lemma ParseExample()
    ensures ParseFloatSpec("1.2300").Ok?
    ensures Val(ParseFloatSpec("1.2300").value.unscaled.value) == 123
    ensures ParseFloatSpec("1.2300").value.scale == 2
  {
    var s := "1.2300";
    ExampleParts();
    ParseFloatMeaning(s);
    ExampleFraction();
    ExampleValue();
  }

  lemma ExampleParts()
    ensures WellFormedDecimal("1.2300") && IntRaw("1.2300") + FracRaw("1.2300") == "12300"
  {
    var s := "1.2300";
    assert IndexOf(s, '.', 0) == 1;
    assert IntRaw(s) == "1" && FracRaw(s) == "2300";
    assert AllDigits("1") && AllDigits("2300");
  }

  lemma ExampleFraction()
    ensures FracRaw("1.2300") == "2300" && FracPart("1.2300") == "23"
  {
    assert IndexOf("1.2300", '.', 0) == 1;
    assert "2300"[..3] == "230" && "230"[..2] == "23";
  }

  lemma ExampleValue()
    ensures DecVal("12300") == 12300
  {
    assert "1"[..0] == "" && "12"[..1] == "1" && "123"[..2] == "12";
    assert "1230"[..3] == "123" && "12300"[..4] == "1230";
  }

  /** A negative value whose first 30 fractional digits are zero prints as "-0":
      unscaled 1 at scale 31. */
  lemma NegativeZeroText()
    ensures FloatText(Num(false, [1]), 31, true) == "-0"
  {
    NegativeZeroAt(31);
  }

  /** Unscaled 1, negative, at any scale beyond 30 prints as "-0". */
  lemma NegativeZeroAt(scale: nat)
    requires scale > MAX_FRACTION
    ensures FloatText(Num(false, [1]), scale, true) == "-0"
  {
    var u := Num(false, [1]);
    assert FormatDigits([1]) == NatStr(1) == "1";
    assert Format(u) == "1";
    PaddedPastFraction("1", scale);
  }

  /** Digits padded by 30 zeros or more leave no fraction and print as "-0". */
  lemma PaddedPastFraction(d: string, scale: nat)
    requires AllDigits(d) && |d| >= 1 && scale >= |d| + MAX_FRACTION
    ensures Layout(d, scale, true) == "-0"
  {
    LayoutPadded(d, scale, "-");
    KeptFractionOfZeros(scale - |d|, d);
  }

  /** A fraction that starts with at least 30 zeros keeps no digit. */
  lemma KeptFractionOfZeros(k: nat, d: string)
    requires k >= MAX_FRACTION
    ensures KeptFraction(Zeros(k) + d) == ""
  {
    var f0 := Zeros(k) + d;
    assert f0[..MAX_FRACTION] == Zeros(MAX_FRACTION);
    StripAllZeros(MAX_FRACTION);
  }

  lemma {:induction false} StripAllZeros(k: nat)
    ensures StripTrailingZeros(Zeros(k)) == ""
  {
    if k > 0 {
      assert Zeros(k)[..k - 1] == Zeros(k - 1);
      StripAllZeros(k - 1);
    }
  }
}
