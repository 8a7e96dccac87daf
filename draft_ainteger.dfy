/** The early draft of AInteger (src/AInteger.java): one decimal digit per
    list element, least-significant first, and a sign bit. Only its string
    parser, stripZeros and constructors exist; unlike the base-10000 class,
    an empty string reads as zero. */
module DraftAInteger {
  import opened Base
  import opened DecimalText

  /** The fields of a draft AInteger as a value. */
  datatype Digits = Digits(isNegative: bool, digits: seq<int>)

  /** The magnitude a digit list denotes: the sum of digits[i] * 10^i. */
  function DigitsVal(d: seq<int>): int
  {
    ValIn(10, d)
  }

  /** The digit values of t, least-significant first. */
  function DigitsOf(t: string): (r: seq<int>)
    ensures |r| == |t|
    ensures forall k :: 0 <= k < |t| ==> r[k] == DigitOf(t[|t| - 1 - k])
  {
    seq(|t|, k requires 0 <= k < |t| => DigitOf(t[|t| - 1 - k]))
  }

  /** The text after an optional leading '-'. */
  function Unsigned(s: string): string
    requires |s| > 0
  {
    if s[0] == '-' then s[1..] else s
  }

  /** What parseFromString leaves in the fields: zero for the empty string,
      IllegalArgumentException for a character other than a digit after the
      optional '-', and otherwise the digits without most-significant zeros,
      with the sign cleared when they are the single digit 0. */
  function ParseDraft(s: string): Result<Digits>
  {
    if |s| == 0 then
      Ok(Digits(false, [0]))
    else if !AllDigits(Unsigned(s)) then
      Err(IllegalArgument)
    else
      var d := Stripped(DigitsOf(Unsigned(s)));
      Ok(Digits(s[0] == '-' && d != [0], d))
  }

  /** The digit list read least-significant first has the value of the text. */
  lemma {:induction false} DigitsOfVal(t: string)
    requires AllDigits(t)
    ensures DigitsVal(DigitsOf(t)) == DecVal(t)
    decreases |t|
  {
    if |t| > 0 {
      var n := |t| - 1;
      var d := DigitsOf(t);
      assert d[1..] == DigitsOf(t[..n]);
      DigitsOfVal(t[..n]);
    }
  }

  /** parseFromString's loop: the characters from the last to the first,
      each digit appended, IllegalArgumentException at the first non-digit. */
  method ReadDigits(t: string) returns (ok: bool, d: seq<int>)
    ensures ok <==> AllDigits(t)
    ensures ok ==> d == DigitsOf(t)
  {
    d := [];
    var i := |t|;
    while i > 0
      invariant 0 <= i <= |t|
      invariant d == DigitsOf(t)[..|t| - i]
      invariant AllDigits(t[i..])
    {
      i := i - 1;
      var ch := t[i];
      if !IsDigit(ch) {
        return false, d;
      }
      d := d + [DigitOf(ch)];
    }
    assert t[0..] == t;
    return true, d;
  }

  /** The meaning of the parser: the empty string is 0; otherwise it fails
      exactly when a character after the optional '-' is not a digit, and
      succeeds with decimal digits whose value is that of the text, with no
      most-significant zero digit except a lone 0, and negative exactly when
      the text starts with '-' and the value is not that lone 0 (a bare "-"
      leaves an empty, negative digit list). */
  lemma ParseDraftMeaning(s: string)
    ensures |s| == 0 ==> ParseDraft(s) == Ok(Digits(false, [0]))
    ensures |s| > 0 ==> (ParseDraft(s).Err? <==> !AllDigits(Unsigned(s)))
    ensures ParseDraft(s).Err? ==> ParseDraft(s).error == IllegalArgument
    ensures |s| > 0 && ParseDraft(s).Ok? ==>
      var r := ParseDraft(s).value;
      InRange(10, r.digits) && DigitsVal(r.digits) == DecVal(Unsigned(s))
      && (|r.digits| <= 1 || r.digits[|r.digits| - 1] != 0)
      && (|Unsigned(s)| > 0 <==> |r.digits| > 0)
      && (r.isNegative <==> s[0] == '-' && r.digits != [0])
  {
    if |s| > 0 && AllDigits(Unsigned(s)) {
      var t := Unsigned(s);
      var d := DigitsOf(t);
      DigitsOfVal(t);
      StrippedVal(10, d);
      assert InRange(10, d);
      StrippedInRange(10, d);
    }
  }

  class AInteger {
    var digits: seq<int>
    var isNegative: bool

    function State(): Digits
      reads this
    {
      Digits(isNegative, digits)
    }

    /** The default constructor: the single digit 0, not negative. */
    constructor ()
      ensures digits == [0] && !isNegative
    {
      digits := [0];
      isNegative := false;
    }

    /** The copy constructor: a new list with the same digits, the same sign. */
    constructor Copy(other: AInteger)
      ensures digits == other.digits && isNegative == other.isNegative
    {
      digits := other.digits;
      isNegative := other.isNegative;
    }

    /** The string constructor (and the static parse): parseFromString. */
    static method Parse(s: string) returns (r: Result<AInteger>)
      ensures r.Err? <==> ParseDraft(s).Err?
      ensures r.Err? ==> r.error == IllegalArgument
      ensures r.Ok? ==> fresh(r.value) && r.value.State() == ParseDraft(s).value
    {
      var x := new AInteger();
      x.digits := [];
      x.isNegative := false;
      if |s| == 0 {
        x.digits := [0];
        return Ok(x);
      }
      var t := s;
      if t[0] == '-' {
        x.isNegative := true;
        t := t[1..];
      }
      var ok, d := ReadDigits(t);
      if !ok {
        return Err(IllegalArgument);
      }
      x.digits := d;
      x.StripZeros();
      r := Ok(x);
    }

    /** stripZeros: drop most-significant zero digits while more than one
        digit remains, then clear the sign of the lone digit 0. */
    method StripZeros()
      modifies this
      ensures digits == Stripped(old(digits))
      ensures isNegative == (old(isNegative) && digits != [0])
    {
      while |digits| > 1 && digits[|digits| - 1] == 0
        invariant Stripped(digits) == Stripped(old(digits))
        invariant isNegative == old(isNegative)
      {
        digits := digits[..|digits| - 1];
      }
      if |digits| == 1 && digits[0] == 0 {
        isNegative := false;
      }
    }
  }
}
