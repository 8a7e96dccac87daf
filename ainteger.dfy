/** arbitraryarithmetic.AInteger (src/arbitraryarithmetic/AInteger.java): a
    signed integer of unbounded size, a sign flag plus base-10000 limbs
    least-significant first. Every public operation returns a fresh object;
    only stripZeros changes an object in place, and only on objects not yet
    handed to a caller. */
module AIntegers {
  import opened Base
  import opened DecimalText
  import opened LimbArith

  /** The two fields of an AInteger, as a value. */
  datatype Num = Num(isNegative: bool, value: seq<int>)

  /** The integer a Num denotes; a set sign on a zero magnitude ("-0") still denotes 0. */
  function Signed(n: Num): int
  {
    if n.isNegative then -Val(n.value) else Val(n.value)
  }

  function Abs(x: int): nat
  {
    if x < 0 then -x else x
  }

  /** The digits after an optional leading '-'. */
  function DigitPart(s: string): string
    requires |s| > 0
  {
    if s[0] == '-' then s[1..] else s
  }

  /** The limbs the string constructor reads from a digit string: groups of
      four characters taken from the least-significant end, each read by
      Integer.parseInt, the last group possibly shorter. */
  function Chunks(d: string): (r: seq<int>)
    requires AllDigits(d)
    ensures IsLimbs(r) && (|d| > 0 <==> |r| > 0)
    decreases |d|
  {
    if |d| == 0 then
      []
    else
      var n := if |d| <= 4 then 0 else |d| - 4;
      LowGroup(d, n);
      LimbCons(DecVal(d[n..]), Chunks(d[..n]));
      [DecVal(d[n..])] + Chunks(d[..n])
  }

  /** The limbs read from a digit string have the value of the digits. */
  lemma {:induction false} ChunksVal(d: string)
    requires AllDigits(d)
    ensures Val(Chunks(d)) == DecVal(d)
    decreases |d|
  {
    if |d| > 0 {
      var n := if |d| <= 4 then 0 else |d| - 4;
      LowGroup(d, n);
      ChunksVal(d[..n]);
      LimbCons(DecVal(d[n..]), Chunks(d[..n]));
    }
  }

  /** Splitting a digit string before its last (at most four) digits. */
  lemma LowGroup(d: string, n: nat)
    requires AllDigits(d) && n <= |d| && |d| - n <= 4
    requires n == 0 || |d| - n == 4
    ensures AllDigits(d[..n]) && AllDigits(d[n..])
    ensures 0 <= DecVal(d[n..]) < BASE
    ensures DecVal(d) == DecVal(d[..n]) * BASE + DecVal(d[n..])
  {
    assert forall i :: 0 <= i < |d| - n ==> d[n..][i] == d[n + i];
    ShortDecVal(d[n..]);
    if n == 0 {
      assert d[..n] == [] && d[n..] == d;
    } else {
      assert d == d[..n] + d[n..];
      FourDigitStep(d[..n], d[n..]);
    }
  }

  /** The string constructor: IllegalArgumentException for an empty string or
      for any non-digit after the optional '-'; otherwise the limbs of the
      digits, stripped, with the sign cleared for zero. "-" alone gives an
      empty limb list that keeps the sign. */
  function ParseSpec(s: string): (r: Result<Num>)
    ensures r.Ok? <==> |s| > 0 && AllDigits(DigitPart(s))
    ensures r.Err? ==> r.error == IllegalArgument
    ensures r.Ok? ==> IsLimbs(r.value.value) && Val(r.value.value) == DecVal(DigitPart(s))
    ensures r.Ok? && |DigitPart(s)| > 0 ==> Canonical(r.value.value)
    ensures r.Ok? ==> (r.value.isNegative <==> s[0] == '-' && r.value.value != [0])
    ensures r.Ok? && |DigitPart(s)| == 0 ==> r.value.value == []
  {
    if |s| == 0 then
      Err(IllegalArgument)
    else
      var d := DigitPart(s);
      if !AllDigits(d) then
        Err(IllegalArgument)
      else
        var v := Stripped(Chunks(d));
        StrippedLimbs(Chunks(d));
        ChunksVal(d);
        Ok(Num(s[0] == '-' && v != [0], v))
  }

  /** "-" alone parses to an empty limb list that keeps the sign, and that
      object prints as "0". */
  lemma DashParse()
    ensures ParseSpec("-") == Ok(Num(true, []))
    ensures Format(Num(true, [])) == "0"
  {
    assert DigitPart("-") == "";
  }

  /** The digits toString prints for a non-empty limb list: the most
      significant limb unpadded, every lower limb zero-padded to four digits. */
  function FormatDigits(v: seq<int>): (r: string)
    requires |v| >= 1 && IsLimbs(v)
    ensures AllDigits(r) && |r| >= 1
    ensures DecVal(r) == Val(v)
    ensures |r| > 4 * (|v| - 1)
    ensures Canonical(v) && v != [0] ==> r[0] != '0'
  {
    if |v| == 1 then
      assert v == [v[0]];
      ValSingle(v[0]);
      NatStr(v[0])
    else
      var hi := FormatDigits(v[1..]);
      FourDigitStep(hi, Pad4(v[0]));
      assert Canonical(v) ==> Canonical(v[1..]) && v[1..] != [0];
      hi + Pad4(v[0])
  }

  /** toString: "-" when the sign is set, then the digits; an empty limb list prints "0". */
  function Format(n: Num): string
    requires IsLimbs(n.value)
  {
    if n.value == [] then "0"
    else (if n.isNegative then "-" else "") + FormatDigits(n.value)
  }

  /** Reading back the digits toString prints gives back the same limbs. */
  lemma {:induction false} ChunksOfFormat(v: seq<int>)
    requires |v| >= 1 && IsLimbs(v)
    ensures Chunks(FormatDigits(v)) == v
  {
    if |v| == 1 {
      ChunksOfFormatOne(v);
    } else {
      ChunksOfFormat(v[1..]);
      ChunksOfFormatStep(v);
    }
  }

  lemma ChunksOfFormatOne(v: seq<int>)
    requires |v| == 1 && IsLimbs(v)
    ensures Chunks(FormatDigits(v)) == v
  {
    NatStrShort(v[0]);
    ChunksOfShort(NatStr(v[0]));
  }

  /** One more limb printed in front of the higher ones is read back first. */
  lemma ChunksOfFormatStep(v: seq<int>)
    requires |v| > 1 && IsLimbs(v) && Chunks(FormatDigits(v[1..])) == v[1..]
    ensures Chunks(FormatDigits(v)) == v
  {
    var rest := v[1..];
    var hi := FormatDigitsCons(v);
    ChunksOfPadded(hi, Pad4(v[0]), rest);
    HeadTail(v);
  }

  lemma HeadTail(v: seq<int>)
    requires |v| > 0
    ensures [v[0]] + v[1..] == v
  {
  }

  /** The digits of a list of two or more limbs: the higher limbs' digits,
      then the lowest limb padded to four. */
  lemma FormatDigitsCons(v: seq<int>) returns (hi: string)
    requires |v| > 1 && IsLimbs(v)
    ensures IsLimbs(v[1..]) && hi == FormatDigits(v[1..])
    ensures AllDigits(hi) && |hi| >= 1
    ensures FormatDigits(v) == hi + Pad4(v[0])
  {
    hi := FormatDigits(v[1..]);
  }

  /** At most four digits are read as one limb. */
  lemma ChunksOfShort(d: string)
    requires AllDigits(d) && 1 <= |d| <= 4
    ensures Chunks(d) == [DecVal(d)]
  {
    assert d[..0] == [] && d[0..] == d;
  }

  /** The last four digits are read as the lowest limb. */
  lemma ChunksOfPadded(hi: string, p: string, rest: seq<int>)
    requires AllDigits(hi) && |hi| >= 1 && AllDigits(p) && |p| == 4 && Chunks(hi) == rest
    ensures AllDigits(hi + p) && Chunks(hi + p) == [DecVal(p)] + rest
  {
    var d := hi + p;
    assert d[..|hi|] == hi && d[|hi|..] == p;
  }

  /** Parsing what toString prints gives back the same value: the same limbs
      and the same sign, except that "-0" reads back as 0. */
  lemma FormatParseRoundTrip(n: Num)
    requires Canonical(n.value)
    ensures ParseSpec(Format(n)) == Ok(Num(n.isNegative && n.value != [0], n.value))
  {
    var d := FormatDigits(n.value);
    var sign := if n.isNegative then "-" else "";
    assert Format(n) == sign + d;
    SignedDigits(sign, d);
    ChunksOfFormat(n.value);
    StrippedCanonical(n.value);
  }

  /** The digits after a printed sign, and the sign read back. */
  lemma SignedDigits(sign: string, d: string)
    requires sign == "" || sign == "-"
    requires AllDigits(d) && |d| >= 1
    ensures |sign + d| > 0 && DigitPart(sign + d) == d
    ensures (sign + d)[0] == '-' <==> sign == "-"
  {
    assert IsDigit(d[0]);
    if sign == "-" {
      assert (sign + d)[1..] == d;
    } else {
      assert sign + d == d;
    }
  }

  /** Stripping leaves a canonical list as it is. */
  lemma StrippedCanonical(v: seq<int>)
    requires Canonical(v)
    ensures Stripped(v) == v
  {
  }

  /** A stored AInteger. */
  class AInteger {
    var value: seq<int>
    var isNegative: bool

    function State(): Num
      reads this
    {
      Num(isNegative, value)
    }

    /** The default constructor: zero. */
    constructor ()
      ensures value == [0] && !isNegative
    {
      value := [0];
      isNegative := false;
    }

    /** The int constructor, for every int except Integer.MIN_VALUE. */
    constructor FromInt(n: int)
      requires -0x8000_0000 < n < 0x8000_0000
      ensures isNegative == (n < 0)
      ensures Canonical(value) && Val(value) == Abs(n)
    {
      var v := IntToLimbs(Abs(n));
      isNegative := n < 0;
      value := v;
    }

    /** The copy constructor: same sign, a list with the same limbs. */
    constructor Copy(other: AInteger)
      ensures value == other.value && isNegative == other.isNegative
    {
      isNegative := other.isNegative;
      value := other.value;
    }

    /** The string constructor (and the static parse). */
    static method Parse(s: string) returns (r: Result<AInteger>)
      ensures r.Err? <==> ParseSpec(s).Err?
      ensures r.Err? ==> r.error == IllegalArgument
      ensures r.Ok? ==> fresh(r.value) && r.value.State() == ParseSpec(s).value
    {
      if |s| == 0 {
        return Err(IllegalArgument);
      }
      var neg := s[0] == '-';
      var start := if neg then 1 else 0;
      if !AllDigits(s[start..]) {
        return Err(IllegalArgument);
      }
      var x := new AInteger();
      x.isNegative := neg;
      x.value := ReadChunks(s[start..]);
      x.StripZeros();
      return Ok(x);
    }

    /** stripZeros: drop most-significant zero limbs, then clear the sign of zero. */
    method StripZeros()
      modifies this
      ensures value == Stripped(old(value))
      ensures isNegative == (old(isNegative) && value != [0])
    {
      value := StripLimbs(value);
      if |value| == 1 && value[0] == 0 {
        isNegative := false;
      }
    }

    /** add: a sum of canonical operands; a zero sum keeps this operand's sign,
        so (-5) + 5 is "-0". */
    method Add(other: AInteger) returns (result: AInteger)
      requires Canonical(value) && Canonical(other.value)
      ensures fresh(result) && Canonical(result.value)
      ensures Signed(result.State()) == Signed(State()) + Signed(other.State())
      ensures Val(result.value) != 0 ==> (result.isNegative <==> Signed(State()) + Signed(other.State()) < 0)
      ensures Val(result.value) == 0 ==> result.isNegative == isNegative
    {
      LimbsBound(value);
      LimbsBound(other.value);
      var v: seq<int>;
      var neg: bool;
      if isNegative == other.isNegative {
        v := AddAbsolute(value, other.value);
        neg := isNegative;
      } else {
        var c := CompareAbsolute(value, other.value);
        if c >= 0 {
          v := SubAbsolute(value, other.value);
          neg := isNegative;
        } else {
          v := SubAbsolute(other.value, value);
          neg := other.isNegative;
        }
      }
      result := new AInteger();
      result.value := v;
      result.isNegative := neg;
    }

    /** subtract: a difference of canonical operands; a zero difference keeps
        this operand's sign, so (-5) - (-5) is "-0". */
    method Subtract(other: AInteger) returns (result: AInteger)
      requires Canonical(value) && Canonical(other.value)
      ensures fresh(result) && Canonical(result.value)
      ensures Signed(result.State()) == Signed(State()) - Signed(other.State())
      ensures Val(result.value) != 0 ==> (result.isNegative <==> Signed(State()) - Signed(other.State()) < 0)
      ensures Val(result.value) == 0 ==> result.isNegative == isNegative
    {
      LimbsBound(value);
      LimbsBound(other.value);
      var v: seq<int>;
      var neg: bool;
      if isNegative != other.isNegative {
        v := AddAbsolute(value, other.value);
        neg := isNegative;
      } else {
        var c := CompareAbsolute(value, other.value);
        if c >= 0 {
          v := SubAbsolute(value, other.value);
          neg := isNegative;
        } else {
          v := SubAbsolute(other.value, value);
          neg := !isNegative;
        }
      }
      result := new AInteger();
      result.value := v;
      result.isNegative := neg;
    }

    /** multiply: the product, negative exactly when it is nonzero and the signs differ. */
    method Multiply(other: AInteger) returns (result: AInteger)
      requires IsLimbs(value) && IsLimbs(other.value) && |value| + |other.value| >= 1
      ensures fresh(result) && Canonical(result.value)
      ensures Signed(result.State()) == Signed(State()) * Signed(other.State())
      ensures result.isNegative == (Val(result.value) != 0 && isNegative != other.isNegative)
    {
      result := new AInteger();
      result.value := MultiplyLimbs(value, other.value);
      result.isNegative := isNegative != other.isNegative;
      CanonicalZero(result.value);
      result.StripZeros();
    }

    /** divide: ArithmeticException for a zero divisor; otherwise |this| / |other|
        rounded down, negative when nonzero and the signs differ, so the
        signed quotient is truncated toward zero. */
    method Divide(other: AInteger) returns (r: Result<AInteger>)
      requires Canonical(value) && Canonical(other.value)
      ensures r.Err? <==> Val(other.value) == 0
      ensures r.Err? ==> r.error == DivisionByZero
      ensures r.Ok? ==> fresh(r.value) && Canonical(r.value.value)
      ensures r.Ok? ==> Val(r.value.value) == Val(value) / Val(other.value)
      ensures r.Ok? ==> r.value.isNegative == (Val(r.value.value) != 0 && isNegative != other.isNegative)
    {
      CanonicalZero(other.value);
      if |other.value| == 1 && other.value[0] == 0 {
        return Err(DivisionByZero);
      }
      var c := CompareAbsolute(value, other.value);
      LimbsBound(value);
      LimbsBound(other.value);
      if c < 0 {
        DivOfMulAdd(0, Val(other.value), Val(value));
        var zero := new AInteger.FromInt(0);
        return Ok(zero);
      }
      var q := LongDivide(value, other.value);
      var result := new AInteger();
      result.value := q;
      result.isNegative := isNegative != other.isNegative;
      assert Val(q) >= 1 by {
        DivOfMulAdd(1, Val(other.value), 0);
        DivIsMonotone(Val(other.value), Val(other.value), Val(value));
      }
      return Ok(result);
    }

    /** toString. */
    method ToString() returns (s: string)
      requires IsLimbs(value)
      ensures s == Format(State())
    {
      if |value| == 0 {
        return "0";
      }
      var sign := if isNegative then "-" else "";
      var digits := PrintLimbs(value);
      s := sign + digits;
    }

    /** size: the number of limbs. */
    function Size(): (n: nat)
      reads this
      ensures IsLimbs(value) ==> Val(value) < Pow(BASE, n)
      ensures Canonical(value) && n >= 2 ==> Pow(BASE, n - 1) <= Val(value)
    {
      LimbCountBounds(value);
      |value|
    }
  }

  /** toString's loop: the most-significant limb unpadded, then each lower
      limb padded to four digits, from the top down. */
  method PrintLimbs(v: seq<int>) returns (digits: string)
    requires |v| >= 1 && IsLimbs(v)
    ensures digits == FormatDigits(v)
  {
    digits := NatStr(v[|v| - 1]);
    var i := |v| - 1;
    FormatDigitsTop(v);
    while i > 0
      invariant 0 <= i <= |v| - 1
      invariant digits == FormatDigits(v[i..])
    {
      i := i - 1;
      FormatDigitsStep(v, i);
      digits := digits + Pad4(v[i]);
    }
  }

  lemma FormatDigitsTop(v: seq<int>)
    requires |v| >= 1 && IsLimbs(v)
    ensures FormatDigits(v[|v| - 1..]) == NatStr(v[|v| - 1])
  {
    assert v[|v| - 1..] == [v[|v| - 1]];
  }

  /** Each lower limb appends its four padded digits. */
  lemma FormatDigitsStep(v: seq<int>, i: nat)
    requires IsLimbs(v) && i + 1 < |v|
    ensures FormatDigits(v[i..]) == FormatDigits(v[i + 1..]) + Pad4(v[i])
  {
    assert v[i..][1..] == v[i + 1..];
  }

  lemma LimbCountBounds(v: seq<int>)
    ensures IsLimbs(v) ==> Val(v) < Pow(BASE, |v|)
    ensures Canonical(v) && |v| >= 2 ==> Pow(BASE, |v| - 1) <= Val(v)
  {
    if IsLimbs(v) {
      LimbsBound(v);
    }
    if Canonical(v) {
      CanonicalBounds(v);
    }
  }

  lemma DivIsMonotone(d: int, x: int, y: int)
    requires d > 0 && x <= y
    ensures x / d <= y / d
  {
    var qx, qy := x / d, y / d;
    if qx > qy {
      MulMonotone(d, qy + 1, qx);
      assert false;
    }
  }

  /** The for loop of the string constructor, over the digits d after the
      optional '-': from the end back to the start, four characters at a
      time, each group parsed and appended. */
  method ReadChunks(d: string) returns (v: seq<int>)
    requires AllDigits(d)
    ensures v == Chunks(d)
  {
    v := [];
    var i: int := |d|;
    assert d[..|d|] == d;
    while i > 0
      invariant -4 < i <= |d|
      invariant v + Unread(d, i) == Chunks(d)
      decreases i
    {
      var begin := if i - 4 < 0 then 0 else i - 4;
      ChunksStep(d, i, v);
      var segment := d[begin..i];
      v := v + [DecVal(segment)];
      i := i - 4;
    }
    assert v + [] == v;
  }

  /** The limbs still to be read once the loop has reached index i. */
  function Unread(d: string, i: int): seq<int>
    requires AllDigits(d) && i <= |d|
  {
    if i <= 0 then [] else Chunks(d[..i])
  }

  /** One pass of the string constructor's loop: the group of at most four
      characters ending at i is the next limb. */
  lemma ChunksStep(d: string, i: int, v: seq<int>)
    requires 0 < i <= |d| && AllDigits(d)
    ensures var begin := if i - 4 < 0 then 0 else i - 4;
      AllDigits(d[begin..i]) &&
      v + Unread(d, i) == (v + [DecVal(d[begin..i])]) + Unread(d, i - 4)
  {
    var e := d[..i];
    if i > 4 {
      assert d[i - 4..i] == e[i - 4..];
      assert e[..i - 4] == d[..i - 4];
      assert Chunks(e) == [DecVal(e[i - 4..])] + Chunks(e[..i - 4]);
    } else {
      assert e[..0] == [] && e[0..] == e;
      assert Chunks(e) == [DecVal(e)] + Chunks([]);
    }
  }
}
