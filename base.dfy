/** Shared arithmetic vocabulary: the two exceptions the calculator can raise,
    powers, the value of a little-endian digit sequence in a given base, and
    the removal of most-significant zero digits that both integer classes use. */
module Base {

  /** The two Java exceptions the core throws. */
  datatype Error = IllegalArgument | DivisionByZero

  datatype Result<+T> = Ok(value: T) | Err(error: Error)

  function Pow(b: int, n: nat): (r: int)
    ensures b > 0 ==> r > 0
  {
    if n == 0 then 1 else b * Pow(b, n - 1)
  }

  /** Every element of `s` is a digit of base `b`. */
  predicate InRange(b: int, s: seq<int>)
  {
    forall i :: 0 <= i < |s| ==> 0 <= s[i] < b
  }

  /** Value of `s` read least-significant digit first: the sum of s[i] * b^i. */
  function ValIn(b: int, s: seq<int>): int
  {
    if |s| == 0 then 0 else s[0] + b * ValIn(b, s[1..])
  }

  lemma {:induction false} PowPositive(b: int, n: nat)
    requires b > 0
    ensures Pow(b, n) > 0
  {
    if n > 0 {
      PowPositive(b, n - 1);
    }
  }

  lemma {:induction false} PowAdd(b: int, m: nat, n: nat)
    ensures Pow(b, m + n) == Pow(b, m) * Pow(b, n)
  {
    if m > 0 {
      PowAdd(b, m - 1, n);
      assert Pow(b, m + n) == b * Pow(b, m - 1 + n);
      MulAssoc(b, Pow(b, m - 1), Pow(b, n));
    }
  }

  /** Solver aid: associativity of a product, stated where nonlinear
      arithmetic would otherwise have to find it. */
  lemma MulAssoc(x: int, y: int, z: int)
    ensures x * (y * z) == (x * y) * z
  {
  }

  lemma {:induction false} PowStrictlyIncreasing(b: int, m: nat, n: nat)
    requires b >= 2 && m < n
    ensures Pow(b, m) < Pow(b, n)
  {
    PowPositive(b, n - 1);
    if m < n - 1 {
      PowStrictlyIncreasing(b, m, n - 1);
    }
  }

  /** Solver aid: multiplying by a non-negative factor keeps an order. */
  lemma MulMonotone(c: int, x: int, y: int)
    requires c >= 0 && x <= y
    ensures c * x <= c * y
  {
  }

  /** Euclidean division recovers the quotient of q * p + r when 0 <= r < p. */
  lemma DivOfMulAdd(q: int, p: int, r: int)
    requires p > 0 && 0 <= r < p
    ensures (q * p + r) / p == q
  {
    var n := q * p + r;
    var d, m := n / p, n % p;
    assert n == d * p + m && 0 <= m < p;
    if d > q {
      MulMonotone(p, q + 1, d);
      assert false;
    } else if d < q {
      MulMonotone(p, d + 1, q);
      assert false;
    }
  }

  /** Positional value is additive over concatenation. */
  lemma {:induction false} ValAppend(b: int, s: seq<int>, t: seq<int>)
    ensures ValIn(b, s + t) == ValIn(b, s) + Pow(b, |s|) * ValIn(b, t)
  {
    if |s| == 0 {
      assert s + t == t;
    } else {
      assert (s + t)[1..] == s[1..] + t;
      ValAppend(b, s[1..], t);
      AppendArith(b, ValIn(b, s[1..]), Pow(b, |s| - 1), ValIn(b, t));
    }
  }

  lemma AppendArith(b: int, x: int, p: int, v: int)
    ensures b * (x + p * v) == b * x + (b * p) * v
  {
  }

  lemma ValSplit(b: int, s: seq<int>, k: nat)
    requires k <= |s|
    ensures ValIn(b, s) == ValIn(b, s[..k]) + Pow(b, k) * ValIn(b, s[k..])
  {
    assert s == s[..k] + s[k..];
    ValAppend(b, s[..k], s[k..]);
  }

  lemma ValSnoc(b: int, s: seq<int>, x: int)
    ensures ValIn(b, s + [x]) == ValIn(b, s) + x * Pow(b, |s|)
  {
    ValAppend(b, s, [x]);
    ValOne(b, x);
    SnocArith(ValIn(b, s + [x]), ValIn(b, s), Pow(b, |s|), ValIn(b, [x]), x);
  }

  lemma SnocArith(v: int, vs: int, p: int, vx: int, x: int)
    requires v == vs + p * vx && vx == x
    ensures v == vs + x * p
  {
  }

  /** A single digit is its own value. */
  lemma ValOne(b: int, x: int)
    ensures ValIn(b, [x]) == x
  {
    assert [x][1..] == [];
    assert ValIn(b, []) == 0;
    assert b * 0 == 0;
  }

  /** A sequence of digits is smaller than b^|s|. */
  lemma {:induction false} ValBound(b: int, s: seq<int>)
    requires b >= 2 && InRange(b, s)
    ensures 0 <= ValIn(b, s) < Pow(b, |s|)
  {
    if |s| > 0 {
      ValBound(b, s[1..]);
      var v, p := ValIn(b, s[1..]), Pow(b, |s| - 1);
      assert 0 <= v <= p - 1;
      MulMonotone(b, v, p - 1);
      assert b * (p - 1) == b * p - b;
      assert Pow(b, |s|) == b * p;
      assert 0 <= b * v;
    }
  }

  /** A digit sequence whose top digit is nonzero is at least b^(|s|-1). */
  lemma ValTopBound(b: int, s: seq<int>)
    requires b >= 2 && InRange(b, s) && |s| >= 1 && s[|s| - 1] != 0
    ensures ValIn(b, s) >= Pow(b, |s| - 1)
  {
    var n := |s| - 1;
    var top := s[n];
    ValSplit(b, s, n);
    assert s[n..] == [top];
    ValOne(b, top);
    assert InRange(b, s[..n]);
    ValBound(b, s[..n]);
    PowPositive(b, n);
    TopDigitArith(ValIn(b, s[..n]), Pow(b, n), top, ValIn(b, s));
  }

  /** A value lo + p * top with a positive top digit is at least p. */
  lemma TopDigitArith(lo: int, p: int, top: int, v: int)
    requires lo >= 0 && p > 0 && top >= 1 && v == lo + p * top
    ensures v >= p
  {
    MulMonotone(p, 1, top);
  }

  /** Converse of ValTopBound: a large enough value has a nonzero top digit. */
  lemma ValTopNonzero(b: int, s: seq<int>)
    requires b >= 2 && InRange(b, s) && |s| >= 1 && ValIn(b, s) >= Pow(b, |s| - 1)
    ensures s[|s| - 1] != 0
  {
    var n := |s| - 1;
    ValSplit(b, s, n);
    ValBound(b, s[..n]);
    assert ValIn(b, s[n..]) == s[n] + b * ValIn(b, []);
  }

  lemma {:induction false} ValZeros(b: int, s: seq<int>)
    requires forall i :: 0 <= i < |s| ==> s[i] == 0
    ensures ValIn(b, s) == 0
  {
    if |s| > 0 {
      ValZeros(b, s[1..]);
    }
  }

  /** Writing digit x at position k changes the value by (x - s[k]) * b^k. */
  lemma ValUpdate(b: int, s: seq<int>, k: nat, x: int)
    requires k < |s|
    ensures ValIn(b, s[k := x]) == ValIn(b, s) + (x - s[k]) * Pow(b, k)
  {
    var t := s[k := x];
    ValSplit(b, s, k);
    ValSplit(b, t, k);
    assert t[..k] == s[..k];
    assert t[k..][1..] == s[k..][1..];
    var h := ValIn(b, s[k + 1..]);
    assert s[k..][1..] == s[k + 1..];
    assert ValIn(b, t[k..]) == x + b * h;
    assert ValIn(b, s[k..]) == s[k] + b * h;
    assert Pow(b, k) * (x + b * h) - Pow(b, k) * (s[k] + b * h) == (x - s[k]) * Pow(b, k);
  }

  /** The sequence without its most-significant zero digits, keeping at least
      one digit: the loop `while size > 1 && last == 0: remove last`. */
  function Stripped(s: seq<int>): (r: seq<int>)
    ensures |r| <= |s| && r == s[..|r|]
    ensures |s| >= 1 ==> |r| >= 1
    ensures |r| <= 1 || r[|r| - 1] != 0
    ensures forall k :: |r| <= k < |s| ==> s[k] == 0
    decreases |s|
  {
    if |s| > 1 && s[|s| - 1] == 0 then Stripped(s[..|s| - 1]) else s
  }

  /** Stripping leaves the value unchanged in every base. */
  lemma StrippedVal(b: int, s: seq<int>)
    ensures ValIn(b, Stripped(s)) == ValIn(b, s)
  {
    var r := Stripped(s);
    ValSplit(b, s, |r|);
    ValZeros(b, s[|r|..]);
  }

  lemma StrippedIdempotent(s: seq<int>)
    ensures Stripped(Stripped(s)) == Stripped(s)
  {
  }

  lemma StrippedInRange(b: int, s: seq<int>)
    requires InRange(b, s)
    ensures InRange(b, Stripped(s))
  {
  }
}
