/** Decimal digit strings, most-significant character first: their value, the
    text Java prints for a non-negative int, `%04d` padding, and the two
    zero-stripping regular expressions the decimal parser and printer use. */
module DecimalText {
  import opened Base

  predicate IsDigit(c: char)
  {
    '0' <= c <= '9'
  }

  predicate AllDigits(s: string)
  {
    forall i :: 0 <= i < |s| ==> IsDigit(s[i])
  }

  function DigitOf(c: char): int
  {
    c as int - '0' as int
  }

  function DigitChar(d: int): char
    requires 0 <= d < 10
  {
    ('0' as int + d) as char
  }

  /** The number a string of decimal digits denotes (what Integer.parseInt
      returns for such a string). */
  function DecVal(s: string): int
  {
    if |s| == 0 then 0 else DecVal(s[..|s| - 1]) * 10 + DigitOf(s[|s| - 1])
  }

  function Zeros(k: nat): (r: string)
    ensures |r| == k && AllDigits(r)
    ensures forall i :: 0 <= i < k ==> r[i] == '0'
  {
    seq(k, _ => '0')
  }

  /** Decimal text of a non-negative int, as StringBuilder.append(int) writes it. */
  function NatStr(n: nat): (r: string)
    ensures AllDigits(r) && |r| >= 1
    ensures DecVal(r) == n
    ensures r[0] == '0' ==> n == 0 && |r| == 1
    ensures n < Pow(10, |r|)
    ensures |r| == 1 || Pow(10, |r| - 1) <= n
  {
    if n < 10 then
      [DigitChar(n)]
    else
      var r := NatStr(n / 10) + [DigitChar(n % 10)];
      assert r[..|r| - 1] == NatStr(n / 10);
      r
  }

  /** String.format("%04d", n) for 0 <= n <= 9999. */
  function Pad4(n: int): (r: string)
    requires 0 <= n < 10000
    ensures |r| == 4 && AllDigits(r) && DecVal(r) == n
  {
    var t := NatStr(n);
    NatStrShort(n);
    DecValLeadingZeros(4 - |t|, t);
    Zeros(4 - |t|) + t
  }

  lemma Pow10Four()
    ensures Pow(10, 4) == 10000
  {
    assert Pow(10, 1) == 10;
    assert Pow(10, 2) == 100;
    assert Pow(10, 3) == 1000;
  }

  /** Four decimal shifts make one limb. */
  lemma ShiftFour(y: int)
    ensures Shift(y, 4) == 10000 * y
  {
    assert Shift(y, 1) == y * 10;
    assert Shift(y, 2) == Shift(y, 1) * 10;
    assert Shift(y, 3) == Shift(y, 2) * 10;
    assert Shift(y, 4) == Shift(y, 3) * 10;
  }

  /** Four more digits multiply the value read so far by 10000. */
  lemma FourDigitStep(hi: string, p: string)
    requires |p| == 4
    ensures DecVal(hi + p) == 10000 * DecVal(hi) + DecVal(p)
  {
    DecValConcat(hi, p);
    ShiftFour(DecVal(hi));
  }

  /** At most four digits read as one limb. */
  lemma ShortDecVal(p: string)
    requires AllDigits(p) && |p| <= 4
    ensures 0 <= DecVal(p) < 10000
  {
    DecValBound(p);
    if |p| < 4 {
      PowStrictlyIncreasing(10, |p|, 4);
    }
    Pow10Four();
  }

  /** A number below 10000 prints in at most four characters. */
  lemma NatStrShort(n: nat)
    requires n < 10000
    ensures |NatStr(n)| <= 4
  {
    Pow10Four();
  }

  /** The regular expression `^0+(?!$)`: drop leading '0's but keep the last character. */
  function StripLeadingZeros(s: string): (r: string)
    ensures |r| <= |s| && r == s[|s| - |r|..]
    ensures |s| >= 1 ==> |r| >= 1
    ensures |r| <= 1 || r[0] != '0'
    ensures forall i :: 0 <= i < |s| - |r| ==> s[i] == '0'
  {
    if |s| > 1 && s[0] == '0' then StripLeadingZeros(s[1..]) else s
  }

  /** The regular expression `0+$`: drop every trailing '0'. */
  function StripTrailingZeros(s: string): (r: string)
    ensures |r| <= |s| && r == s[..|r|]
    ensures r == [] || r[|r| - 1] != '0'
    ensures forall i :: |r| <= i < |s| ==> s[i] == '0'
  {
    if |s| > 0 && s[|s| - 1] == '0' then StripTrailingZeros(s[..|s| - 1]) else s
  }

  /** x with n decimal zeros appended, x * 10^n, one digit at a time. */
  function Shift(x: int, n: nat): int
  {
    if n == 0 then x else Shift(x, n - 1) * 10
  }

  /** x without its n lowest decimal digits, x / 10^n rounded down. */
  function Cut(x: int, n: nat): int
    decreases n
  {
    if n == 0 then x else Cut(x / 10, n - 1)
  }

  lemma {:induction false} ShiftProduct(x: int, n: nat)
    ensures Shift(x, n) == x * Pow(10, n)
  {
    if n > 0 {
      ShiftProduct(x, n - 1);
      assert (x * Pow(10, n - 1)) * 10 == x * (10 * Pow(10, n - 1));
    }
  }

  lemma {:induction false} ShiftShift(x: int, n: nat, m: nat, k: nat)
    requires k == n + m
    ensures Shift(Shift(x, n), m) == Shift(x, k)
  {
    if m > 0 {
      ShiftShift(x, n, m - 1, k - 1);
    }
  }

  /** Solver aid: equal values shift to equal values (stated because the solver does
      not always carry an arithmetic equality into a function argument). */
  lemma ShiftEqual(a: int, b: int, n: nat)
    requires a == b
    ensures Shift(a, n) == Shift(b, n)
  {
  }

  lemma {:induction false} ShiftPlus(a: int, b: int, n: nat)
    ensures Shift(a + b, n) == Shift(a, n) + Shift(b, n)
  {
    if n > 0 {
      ShiftPlus(a, b, n - 1);
    }
  }

  lemma {:induction false} ShiftNonNegative(x: int, n: nat)
    requires x >= 0
    ensures Shift(x, n) >= 0
  {
    if n > 0 {
      ShiftNonNegative(x, n - 1);
    }
  }

  /** Dropping n digits after appending n digits of a leaves a, plus what
      the dropped digits carry. */
  lemma {:induction false} CutShiftPlus(a: int, t: int, m: nat)
    ensures Cut(Shift(a, m) + t, m) == a + Cut(t, m)
    decreases m
  {
    if m > 0 {
      var k := Shift(a, m - 1);
      assert (k * 10 + t) / 10 == k + t / 10;
      CutShiftPlus(a, t / 10, m - 1);
    }
  }

  /** Digits written after a are a shifted left by their count, plus their value. */
  lemma {:induction false} DecValConcat(a: string, b: string)
    ensures DecVal(a + b) == Shift(DecVal(a), |b|) + DecVal(b)
    decreases |b|
  {
    if |b| == 0 {
      assert a + b == a;
    } else {
      var c := a + b;
      assert c[..|c| - 1] == a + b[..|b| - 1];
      assert c[|c| - 1] == b[|b| - 1];
      DecValConcat(a, b[..|b| - 1]);
    }
  }

  lemma DecValAppend(a: string, b: string)
    ensures DecVal(a + b) == DecVal(a) * Pow(10, |b|) + DecVal(b)
  {
    DecValConcat(a, b);
    ShiftProduct(DecVal(a), |b|);
  }

  lemma {:induction false} DecValBound(s: string)
    requires AllDigits(s)
    ensures 0 <= DecVal(s) < Pow(10, |s|)
  {
    if |s| > 0 {
      DecValBound(s[..|s| - 1]);
      var v, p := DecVal(s[..|s| - 1]), Pow(10, |s| - 1);
      assert v * 10 <= (p - 1) * 10;
    }
  }

  lemma {:induction false} DecValZeros(k: nat)
    ensures DecVal(Zeros(k)) == 0
  {
    if k > 0 {
      assert Zeros(k)[..k - 1] == Zeros(k - 1);
      DecValZeros(k - 1);
    }
  }

  lemma DecValLeadingZeros(k: nat, s: string)
    ensures DecVal(Zeros(k) + s) == DecVal(s)
  {
    DecValAppend(Zeros(k), s);
    DecValZeros(k);
  }

  /** Keeping the first k digits drops the last |s| - k. */
  lemma {:induction false} DecValPrefix(s: string, k: nat)
    requires AllDigits(s) && k <= |s|
    ensures DecVal(s[..k]) == Cut(DecVal(s), |s| - k)
    decreases |s|
  {
    if k == |s| {
      assert s[..k] == s;
    } else {
      var t := s[..|s| - 1];
      assert t[..k] == s[..k];
      assert AllDigits(t);
      assert DecVal(s) / 10 == DecVal(t);
      DecValPrefix(t, k);
      assert Cut(DecVal(s), |s| - k) == Cut(DecVal(s) / 10, |t| - k);
    }
  }

  lemma DecValZero()
    ensures DecVal("0") == 0
  {
    assert "0"[..0] == "";
  }

  lemma DecValLastDigit(s: string)
    requires AllDigits(s) && |s| >= 1
    ensures DecVal(s) % 10 == DigitOf(s[|s| - 1])
  {
  }

  /** Dropping trailing zeros divides the value by a power of ten. */
  lemma StripTrailingZerosVal(s: string)
    ensures DecVal(s) == Shift(DecVal(StripTrailingZeros(s)), |s| - |StripTrailingZeros(s)|)
  {
    var r := StripTrailingZeros(s);
    assert s == r + s[|r|..];
    DecValConcat(r, s[|r|..]);
    assert s[|r|..] == Zeros(|s| - |r|);
    DecValZeros(|s| - |r|);
  }

  /** Dropping leading zeros keeps the value. */
  lemma StripLeadingZerosVal(s: string)
    ensures DecVal(StripLeadingZeros(s)) == DecVal(s)
  {
    var r := StripLeadingZeros(s);
    var z := s[..|s| - |r|];
    assert s == z + r;
    assert z == Zeros(|z|) by {
      assert forall i :: 0 <= i < |z| ==> z[i] == s[i];
    }
    DecValLeadingZeros(|z|, r);
  }
}
