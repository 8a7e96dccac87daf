/** The limb algorithms of arbitraryarithmetic.AInteger (src/arbitraryarithmetic/AInteger.java).
    An AInteger keeps its magnitude in `value`, a list of base-10000 limbs,
    least-significant first; the algorithms here read and build that list. */
module LimbArith {
  import opened Base

  const BASE := 10000

  /** The magnitude a limb list denotes: the sum of limbs[i] * 10000^i. */
  function Val(s: seq<int>): int
  {
    ValIn(BASE, s)
  }

  predicate IsLimbs(s: seq<int>)
  {
    InRange(BASE, s)
  }

  /** The normal form stripZeros establishes on a non-empty list: no
      most-significant zero limb, except the lone limb of zero. */
  predicate Canonical(s: seq<int>)
  {
    IsLimbs(s) && |s| >= 1 && (|s| == 1 || s[|s| - 1] != 0)
  }

  function Sign(x: int): int
  {
    if x < 0 then -1 else if x > 0 then 1 else 0
  }

  function Max(x: int, y: int): int
  {
    if x >= y then x else y
  }

  /** Limb i of `a`, or 0 past its end (`i < a.value.size() ? a.value.get(i) : 0`). */
  function LimbAt(a: seq<int>, i: nat): int
  {
    if i < |a| then a[i] else 0
  }

  /** Value of the limbs of `a` below position i. */
  function Low(a: seq<int>, i: nat): int
  {
    if i <= |a| then Val(a[..i]) else Val(a)
  }

  lemma LowStep(a: seq<int>, i: nat)
    ensures Low(a, i + 1) == Low(a, i) + LimbAt(a, i) * Pow(BASE, i)
  {
    if i < |a| {
      assert a[..i + 1] == a[..i] + [a[i]];
      ValSnoc(BASE, a[..i], a[i]);
    } else if i == |a| {
      assert a[..i] == a;
    }
  }

  lemma LowFull(a: seq<int>, i: nat)
    requires i >= |a|
    ensures Low(a, i) == Val(a)
  {
    assert i == |a| ==> a[..i] == a;
  }

  lemma ValSingle(x: int)
    ensures Val([x]) == x
  {
    var t := [x];
    assert t[1..] == [];
    assert ValIn(BASE, t) == t[0] + BASE * ValIn(BASE, t[1..]);
  }

  /** Putting a limb below a list shifts the list up one place. */
  lemma LimbCons(x: int, rest: seq<int>)
    requires 0 <= x < BASE && IsLimbs(rest)
    ensures IsLimbs([x] + rest) && Val([x] + rest) == x + BASE * Val(rest)
  {
    assert ([x] + rest)[1..] == rest;
  }

  lemma LimbsBound(s: seq<int>)
    requires IsLimbs(s)
    ensures 0 <= Val(s) < Pow(BASE, |s|)
  {
    ValBound(BASE, s);
  }

  /** Limb count determines the magnitude range of a canonical list. */
  lemma CanonicalBounds(s: seq<int>)
    requires Canonical(s)
    ensures 0 <= Val(s) < Pow(BASE, |s|)
    ensures |s| >= 2 ==> Val(s) >= Pow(BASE, |s| - 1)
  {
    ValBound(BASE, s);
    if |s| >= 2 {
      ValTopBound(BASE, s);
    }
  }

  /** In canonical form zero has exactly one representation. */
  lemma CanonicalZero(s: seq<int>)
    requires Canonical(s)
    ensures Val(s) == 0 <==> s == [0]
  {
    CanonicalBounds(s);
    if |s| >= 2 {
      PowPositive(BASE, |s| - 1);
    } else {
      assert Val(s) == s[0] + BASE * ValIn(BASE, []);
    }
  }

  /** A list that is limbs in range and large enough for its length is canonical. */
  lemma CanonicalByValue(s: seq<int>)
    requires IsLimbs(s) && |s| >= 1 && (|s| == 1 || Val(s) >= Pow(BASE, |s| - 1))
    ensures Canonical(s)
  {
    if |s| >= 2 {
      ValTopNonzero(BASE, s);
    }
  }

  /** Limbs with no most-significant zero limb (the empty list included). */
  predicate Tight(s: seq<int>)
  {
    IsLimbs(s) && (|s| == 0 || s[|s| - 1] != 0)
  }

  lemma TightPositive(s: seq<int>)
    requires Tight(s) && |s| > 0
    ensures Val(s) > 0
  {
    ValTopBound(BASE, s);
    PowPositive(BASE, |s| - 1);
  }

  /** Tight limb lists are determined by their value. */
  lemma {:induction false} TightUnique(a: seq<int>, b: seq<int>)
    requires Tight(a) && Tight(b) && Val(a) == Val(b)
    ensures a == b
    decreases |a|
  {
    if |a| == 0 && |b| > 0 {
      TightPositive(b);
    } else if |a| > 0 && |b| == 0 {
      TightPositive(a);
    } else if |a| > 0 {
      var ra, rb := a[1..], b[1..];
      LimbsBound(ra);
      LimbsBound(rb);
      assert Val(a) == Val(ra) * BASE + a[0];
      assert Val(b) == Val(rb) * BASE + b[0];
      DivOfMulAdd(Val(ra), BASE, a[0]);
      DivOfMulAdd(Val(rb), BASE, b[0]);
      TightUnique(ra, rb);
    }
  }

  /** A canonical limb list is the only canonical list with its value. */
  lemma CanonicalUnique(a: seq<int>, b: seq<int>)
    requires Canonical(a) && Canonical(b) && Val(a) == Val(b)
    ensures a == b
  {
    CanonicalZero(a);
    CanonicalZero(b);
    if Val(a) != 0 {
      if |a| == 1 {
        ValSingle(a[0]);
        assert a == [a[0]];
      }
      if |b| == 1 {
        ValSingle(b[0]);
        assert b == [b[0]];
      }
      TightUnique(a, b);
    }
  }

  lemma StrippedLimbs(s: seq<int>)
    requires IsLimbs(s)
    ensures IsLimbs(Stripped(s)) && Val(Stripped(s)) == Val(s)
    ensures |s| >= 1 ==> Canonical(Stripped(s))
  {
    StrippedVal(BASE, s);
  }

  /** stripZeros' loop on the limb list: drop most-significant zero limbs
      while more than one limb remains. */
  method StripLimbs(s: seq<int>) returns (r: seq<int>)
    ensures r == Stripped(s)
  {
    r := s;
    while |r| > 1 && r[|r| - 1] == 0
      invariant Stripped(r) == Stripped(s)
      decreases |r|
    {
      r := r[..|r| - 1];
    }
  }

  /** The limbs the int constructor builds for a non-negative number. */
  method IntToLimbs(n: nat) returns (r: seq<int>)
    ensures Canonical(r) && Val(r) == n
  {
    if n == 0 {
      r := [0];
      assert Val(r) == 0 + BASE * ValIn(BASE, []);
      return;
    }
    r := [];
    var m := n;
    while m > 0
      invariant IsLimbs(r) && m >= 0
      invariant Val(r) + Pow(BASE, |r|) * m == n
      invariant |r| == 0 ==> m == n
      invariant m == 0 ==> |r| >= 1 && r[|r| - 1] != 0
    {
      IntToLimbsStep(r, m);
      r := r + [m % BASE];
      m := m / BASE;
    }
  }

  /** One pass of the int constructor's loop: the lowest limb of m moves
      into the list and m is divided by the base. */
  lemma IntToLimbsStep(r: seq<int>, m: int)
    requires IsLimbs(r) && m > 0
    ensures IsLimbs(r + [m % BASE])
    ensures Val(r + [m % BASE]) + Pow(BASE, |r + [m % BASE]|) * (m / BASE) == Val(r) + Pow(BASE, |r|) * m
    ensures m / BASE == 0 ==> (r + [m % BASE])[|r|] != 0
  {
    ValSnoc(BASE, r, m % BASE);
    assert Pow(BASE, |r| + 1) == BASE * Pow(BASE, |r|);
    ScaledDivision(Pow(BASE, |r|), m, BASE);
  }

  /** Scaling m = b * (m / b) + m % b by p. */
  lemma ScaledDivision(p: int, m: int, b: int)
    requires b > 0
    ensures p * m == m % b * p + (b * p) * (m / b)
  {
    var q, x := m / b, m % b;
    assert m == b * q + x;
    assert p * m == p * (b * q) + p * x;
    assert p * (b * q) == (b * p) * q;
  }

  /** compareAbsolute: decided by limb count, then by the most-significant
      differing limb; for canonical lists that is the sign of |a| - |b|. */
  method CompareAbsolute(a: seq<int>, b: seq<int>) returns (c: int)
    requires Canonical(a) && Canonical(b)
    ensures c == Sign(Val(a) - Val(b))
  {
    if |a| != |b| {
      CompareByLength(a, b);
      c := if |a| < |b| then -1 else 1;
      return;
    }
    var i := |a| - 1;
    while i >= 0
      invariant -1 <= i < |a|
      invariant a[i + 1..] == b[i + 1..]
    {
      if a[i] != b[i] {
        CompareAtLimb(a, b, i);
        c := if a[i] < b[i] then -1 else 1;
        return;
      }
      i := i - 1;
    }
    assert a == a[0..] && b == b[0..];
    c := 0;
  }

  /** More limbs means a larger canonical magnitude. */
  lemma CompareByLength(a: seq<int>, b: seq<int>)
    requires Canonical(a) && Canonical(b) && |a| != |b|
    ensures |a| < |b| ==> Val(a) < Val(b)
    ensures |a| > |b| ==> Val(a) > Val(b)
  {
    CanonicalBounds(a);
    CanonicalBounds(b);
    if |a| < |b| - 1 {
      PowStrictlyIncreasing(BASE, |a|, |b| - 1);
    } else if |b| < |a| - 1 {
      PowStrictlyIncreasing(BASE, |b|, |a| - 1);
    }
  }

  /** Equal above position i, so limb i decides. */
  lemma CompareAtLimb(a: seq<int>, b: seq<int>, i: nat)
    requires IsLimbs(a) && IsLimbs(b) && |a| == |b| && i < |a|
    requires a[i + 1..] == b[i + 1..] && a[i] != b[i]
    ensures a[i] < b[i] ==> Val(a) < Val(b)
    ensures a[i] > b[i] ==> Val(a) > Val(b)
  {
    ValSplit(BASE, a, i);
    ValSplit(BASE, b, i);
    ValBound(BASE, a[..i]);
    ValBound(BASE, b[..i]);
    assert a[i..][1..] == a[i + 1..] && b[i..][1..] == b[i + 1..];
    var h := Val(a[i + 1..]);
    assert Val(a[i..]) == a[i] + BASE * h;
    assert Val(b[i..]) == b[i] + BASE * h;
    HigherDigitDecides(Val(a[..i]), Val(b[..i]), Pow(BASE, i), a[i] + BASE * h, b[i] + BASE * h);
  }

  lemma HigherDigitDecides(la: int, lb: int, p: int, ha: int, hb: int)
    requires 0 <= la < p && 0 <= lb < p
    ensures ha < hb ==> la + p * ha < lb + p * hb
    ensures ha > hb ==> la + p * ha > lb + p * hb
  {
    if ha < hb {
      MulMonotone(p, ha + 1, hb);
    } else if ha > hb {
      MulMonotone(p, hb + 1, ha);
    }
  }

  /** addAbsolute: limb-wise sum with a carry that stays 0 or 1; at most one
      limb longer than the longer operand. */
  method AddAbsolute(a: seq<int>, b: seq<int>) returns (r: seq<int>)
    requires IsLimbs(a) && IsLimbs(b)
    ensures IsLimbs(r) && Val(r) == Val(a) + Val(b)
    ensures |r| <= Max(|a|, |b|) + 1
    ensures Canonical(a) && Canonical(b) ==> Canonical(r)
  {
    var n := Max(|a|, |b|);
    r := [];
    var carry := 0;
    var i := 0;
    while i < n || carry != 0
      invariant 0 <= i <= n + 1 && |r| == i
      invariant IsLimbs(r)
      invariant 0 <= carry <= 1
      invariant i == n + 1 ==> carry == 0 && r[n] == 1
      invariant AddSum(a, b, r, i, carry)
      decreases n + 1 - i
    {
      var x := if i < |a| then a[i] else 0;
      var y := if i < |b| then b[i] else 0;
      var sum := x + y + carry;
      AddColumn(a, b, r, i, carry);
      r := r + [sum % BASE];
      carry := sum / BASE;
      i := i + 1;
    }
    LowFull(a, i);
    LowFull(b, i);
    if Canonical(a) && Canonical(b) {
      SumCanonical(a, b, r);
    }
  }

  /** The sum of two canonical operands, n limbs or n + 1 limbs with a top
      limb 1, has no leading zero limb. */
  lemma SumCanonical(a: seq<int>, b: seq<int>, r: seq<int>)
    requires Canonical(a) && Canonical(b) && IsLimbs(r) && Val(r) == Val(a) + Val(b)
    requires |r| == Max(|a|, |b|) || (|r| == Max(|a|, |b|) + 1 && r[|r| - 1] == 1)
    ensures Canonical(r)
  {
    var n := Max(|a|, |b|);
    if |r| == n && n >= 2 {
      CanonicalBounds(a);
      CanonicalBounds(b);
      CanonicalByValue(r);
    }
  }

  /** addAbsolute's running sum: the limbs written so far and the pending
      carry hold the first i limbs of both operands. */
  predicate AddSum(a: seq<int>, b: seq<int>, r: seq<int>, i: nat, carry: int)
  {
    Val(r) + carry * Pow(BASE, i) == Low(a, i) + Low(b, i)
  }

  /** One column of the schoolbook sum: the written limb and the carry out
      account exactly for the column's inputs. */
  lemma AddColumn(a: seq<int>, b: seq<int>, r: seq<int>, i: nat, carry: int)
    requires |r| == i && AddSum(a, b, r, i, carry)
    ensures var sum := LimbAt(a, i) + LimbAt(b, i) + carry;
      AddSum(a, b, r + [sum % BASE], i + 1, sum / BASE)
  {
    var sum := LimbAt(a, i) + LimbAt(b, i) + carry;
    LowStep(a, i);
    LowStep(b, i);
    ValSnoc(BASE, r, sum % BASE);
    assert Pow(BASE, i + 1) == BASE * Pow(BASE, i);
    AddColumnArith(Val(r), Pow(BASE, i), carry, sum % BASE, sum / BASE, LimbAt(a, i), LimbAt(b, i), Low(a, i), Low(b, i));
  }

  lemma ColumnIdentity(p: int, digit: int, out: int, total: int)
    requires digit + BASE * out == total
    ensures digit * p + out * (BASE * p) == total * p
  {
  }

  /** AddColumn over plain integers, p standing for the weight of column i. */
  lemma AddColumnArith(vr: int, p: int, carry: int, digit: int, out: int, x: int, y: int, la: int, lb: int)
    requires vr + carry * p == la + lb && digit + BASE * out == x + y + carry
    ensures vr + digit * p + out * (BASE * p) == (la + x * p) + (lb + y * p)
  {
    assert digit * p + out * (BASE * p) == (x + y + carry) * p;
  }

  /** A limb list no larger than an i-limb number has no nonzero limb at or past i. */
  lemma LowOfSmaller(b: seq<int>, i: nat)
    requires IsLimbs(b) && Val(b) < Pow(BASE, i)
    ensures Low(b, i) == Val(b)
  {
    if i < |b| {
      ValSplit(BASE, b, i);
      ValBound(BASE, b[..i]);
      ValBound(BASE, b[i..]);
      var p, hi := Pow(BASE, i), Val(b[i..]);
      if hi > 0 {
        MulMonotone(p, 1, hi);
      }
    } else {
      LowFull(b, i);
    }
  }

  /** subAbsolute: given |a| >= |b|, limb-wise difference with a borrow that
      stays 0 or 1 and is 0 after the last limb; the result is stripped. */
  method SubAbsolute(a: seq<int>, b: seq<int>) returns (r: seq<int>)
    requires IsLimbs(a) && IsLimbs(b) && Val(a) >= Val(b)
    ensures IsLimbs(r) && Val(r) == Val(a) - Val(b)
    ensures |r| <= |a| && (|r| <= 1 || r[|r| - 1] != 0)
    ensures |a| >= 1 ==> Canonical(r)
  {
    var t := [];
    var borrow := 0;
    for i := 0 to |a|
      invariant |t| == i && IsLimbs(t)
      invariant 0 <= borrow <= 1
      invariant Val(t) - borrow * Pow(BASE, i) == Low(a, i) - Low(b, i)
    {
      var x := a[i];
      var y := if i < |b| then b[i] else 0;
      var diff := x - y - borrow;
      var next := 0;
      if diff < 0 {
        diff := diff + BASE;
        next := 1;
      }
      SubColumn(a, b, t, i, borrow, diff, next);
      t := t + [diff];
      borrow := next;
    }
    NoFinalBorrow(a, b, t, borrow);
    StrippedLimbs(t);
    r := StripLimbs(t);
  }

  /** When |a| >= |b| the subtraction ends without a borrow. */
  lemma NoFinalBorrow(a: seq<int>, b: seq<int>, t: seq<int>, borrow: int)
    requires IsLimbs(a) && IsLimbs(b) && IsLimbs(t) && Val(a) >= Val(b)
    requires |t| == |a| && 0 <= borrow <= 1
    requires Val(t) - borrow * Pow(BASE, |a|) == Low(a, |a|) - Low(b, |a|)
    ensures borrow == 0 && Val(t) == Val(a) - Val(b)
  {
    LowFull(a, |a|);
    LimbsBound(a);
    LowOfSmaller(b, |a|);
    LimbsBound(t);
  }

  /** One column of the schoolbook difference. */
  lemma SubColumn(a: seq<int>, b: seq<int>, t: seq<int>, i: nat, borrow: int, digit: int, out: int)
    requires |t| == i && Val(t) - borrow * Pow(BASE, i) == Low(a, i) - Low(b, i)
    requires digit == LimbAt(a, i) - LimbAt(b, i) - borrow + out * BASE
    ensures Val(t + [digit]) - out * Pow(BASE, i + 1) == Low(a, i + 1) - Low(b, i + 1)
  {
    LowStep(a, i);
    LowStep(b, i);
    ValSnoc(BASE, t, digit);
    assert Pow(BASE, i + 1) == BASE * Pow(BASE, i);
    SubColumnArith(Val(t), Pow(BASE, i), borrow, digit, out, LimbAt(a, i), LimbAt(b, i), Low(a, i), Low(b, i));
  }

  /** SubColumn over plain integers, p standing for the weight of column i. */
  lemma SubColumnArith(vt: int, p: int, borrow: int, digit: int, out: int, x: int, y: int, la: int, lb: int)
    requires vt - borrow * p == la - lb && digit == x - y - borrow + out * BASE
    ensures vt + digit * p - out * (BASE * p) == (la + x * p) - (lb + y * p)
  {
    assert digit * p == (x - y - borrow) * p + out * (BASE * p);
  }

  /** multiply's schoolbook double loop over a zeroed buffer of
      len(a) + len(b) limbs; every write at i + j stays inside the buffer. */
  method MultiplyLimbs(a: seq<int>, b: seq<int>) returns (r: seq<int>)
    requires IsLimbs(a) && IsLimbs(b)
    ensures IsLimbs(r) && Val(r) == Val(a) * Val(b)
    ensures |r| <= |a| + |b|
    ensures |a| + |b| >= 1 ==> Canonical(r)
  {
    var res := seq(|a| + |b|, _ => 0);
    ValZeros(BASE, res);
    for i := 0 to |a|
      invariant |res| == |a| + |b| && IsLimbs(res)
      invariant Val(res) == Low(a, i) * Val(b)
    {
      res := MultiplyRow(a, b, res, i);
      LowStep(a, i);
      RowTotal(Low(a, i), a[i], Pow(BASE, i), Val(b));
    }
    LowFull(a, |a|);
    StrippedLimbs(res);
    r := StripLimbs(res);
  }

  /** The inner loop of multiply: a[i] times every limb of b added into the
      buffer from limb i on, then the carry propagated until it is spent. */
  method MultiplyRow(a: seq<int>, b: seq<int>, res0: seq<int>, i: nat) returns (res: seq<int>)
    requires IsLimbs(a) && IsLimbs(b) && IsLimbs(res0) && i < |a| && |res0| == |a| + |b|
    requires Val(res0) == Low(a, i) * Val(b)
    ensures |res| == |a| + |b| && IsLimbs(res)
    ensures Val(res) == Low(a, i) * Val(b) + a[i] * Val(b) * Pow(BASE, i)
  {
    res := res0;
    var carry := 0;
    var j := 0;
    while j < |b| || carry != 0
      invariant 0 <= j && i + j <= |a| + |b|
      invariant |res| == |a| + |b| && IsLimbs(res)
      invariant carry >= 0
      invariant RowSum(a, b, res, i, j, carry)
      decreases |a| + |b| - (i + j)
    {
      if j >= |b| {
        LowFull(b, j);
        ProductFitsBuffer(a, b, res, i, j, carry);
      }
      var curr := res[i + j] + carry;
      if j < |b| {
        curr := curr + a[i] * b[j];
      }
      MulColumn(a, b, res, i, j, carry);
      res := res[i + j := curr % BASE];
      carry := curr / BASE;
      j := j + 1;
    }
    LowFull(b, j);
  }

  /** The inner loop's running sum: the buffer and the pending carry hold the
      rows before i plus a[i] times the first j limbs of b. */
  predicate RowSum(a: seq<int>, b: seq<int>, res: seq<int>, i: nat, j: nat, carry: int)
    requires i < |a|
  {
    Val(res) + carry * Pow(BASE, i + j) == Low(a, i) * Val(b) + a[i] * Low(b, j) * Pow(BASE, i)
  }

  /** Once every limb of b is used, a remaining carry still lands inside the buffer. */
  lemma ProductFitsBuffer(a: seq<int>, b: seq<int>, res: seq<int>, i: nat, j: nat, carry: int)
    requires IsLimbs(a) && IsLimbs(b) && IsLimbs(res) && i < |a| && j >= |b| && carry >= 1
    requires Val(res) + carry * Pow(BASE, i + j) == Low(a, i) * Val(b) + a[i] * Val(b) * Pow(BASE, i)
    ensures i + j < |a| + |b|
  {
    LowStep(a, i);
    assert Low(a, i + 1) == Val(a[..i + 1]);
    assert IsLimbs(a[..i + 1]);
    LimbsBound(a[..i + 1]);
    LimbsBound(b);
    LimbsBound(res);
    var la, vb := Low(a, i + 1), Val(b);
    RowTotal(Low(a, i), a[i], Pow(BASE, i), vb);
    PowAdd(BASE, i + 1, |b|);
    FitsArith(Val(res), carry, Pow(BASE, i + j), la, Pow(BASE, i + 1), vb, Pow(BASE, |b|));
    if i + j > i + 1 + |b| {
      PowStrictlyIncreasing(BASE, i + 1 + |b|, i + j);
    }
  }

  lemma RowTotal(l: int, u: int, pi: int, vb: int)
    ensures l * vb + u * vb * pi == (l + u * pi) * vb
  {
  }

  lemma FitsArith(v: int, carry: int, pk: int, la: int, p1: int, vb: int, pb: int)
    requires 0 <= v && carry >= 1 && pk > 0 && 0 <= la < p1 && 0 <= vb < pb
    requires v + carry * pk == la * vb
    ensures pk < p1 * pb
  {
    MulMonotone(pk, 1, carry);
    MulMonotone(vb, la, p1);
    MulMonotone(p1, vb + 1, pb);
  }

  /** One inner step of the schoolbook product keeps the running sum exact. */
  lemma MulColumn(a: seq<int>, b: seq<int>, res: seq<int>, i: nat, j: nat, carry: int)
    requires i < |a| && i + j < |res|
    requires IsLimbs(a) && IsLimbs(b) && IsLimbs(res) && carry >= 0
    requires RowSum(a, b, res, i, j, carry)
    ensures var curr := res[i + j] + carry + a[i] * LimbAt(b, j);
      curr >= 0 && RowSum(a, b, res[i + j := curr % BASE], i, j + 1, curr / BASE)
  {
    MulMonotone(a[i], 0, LimbAt(b, j));
    var k := i + j;
    var curr := res[k] + carry + a[i] * LimbAt(b, j);
    var res' := res[k := curr % BASE];
    ValUpdate(BASE, res, k, curr % BASE);
    var pk := Pow(BASE, k);
    assert Pow(BASE, k + 1) == BASE * pk;
    ColumnIdentity(pk, curr % BASE, curr / BASE, curr);
    LowStep(b, j);
    PowAdd(BASE, i, j);
    MulColumnArith(Val(res), Val(res'), res[k], curr % BASE, curr / BASE, curr, carry, a[i], LimbAt(b, j),
      Low(b, j), Low(b, j + 1), Pow(BASE, i), Pow(BASE, j), pk, Pow(BASE, k + 1), Low(a, i) * Val(b));
  }

  lemma MulColumnArith(v: int, v2: int, old_limb: int, m: int, q: int, curr: int, carry: int, u: int, d: int,
                       lb: int, lb1: int, pi: int, pj: int, pk: int, pk1: int, done: int)
    requires v + carry * pk == done + u * lb * pi
    requires pk == pi * pj && pk1 == BASE * pk
    requires v2 == v + (m - old_limb) * pk
    requires m * pk + q * (BASE * pk) == curr * pk
    requires curr == old_limb + carry + u * d
    requires lb1 == lb + d * pj
    ensures v2 + q * pk1 == done + u * lb1 * pi
  {
    assert curr * pk == old_limb * pk + carry * pk + u * d * pk;
    assert u * d * pk == u * (d * pj) * pi;
    assert u * lb1 * pi == u * lb * pi + u * (d * pj) * pi;
  }

  /** Collections.reverse, as a value. */
  function Reverse(s: seq<int>): (r: seq<int>)
    ensures |r| == |s|
    ensures forall k :: 0 <= k < |s| ==> r[k] == s[|s| - 1 - k]
  {
    if s == [] then [] else Reverse(s[1..]) + [s[0]]
  }

  /** Appending a most-significant-first quotient digit shifts the quotient one limb. */
  lemma ReverseSnocVal(s: seq<int>, d: int)
    ensures Val(Reverse(s + [d])) == d + BASE * Val(Reverse(s))
  {
    assert Reverse(s + [d]) == [d] + Reverse(s);
    assert ([d] + Reverse(s))[1..] == Reverse(s);
  }

  /** divide's binary search: the largest d in [0, 9999] with divisor * d <= current. */
  method QuotientDigit(divisor: seq<int>, current: seq<int>) returns (best: int)
    requires Canonical(divisor) && Canonical(current)
    ensures 0 <= best < BASE
    ensures Val(divisor) * best <= Val(current)
    ensures best == BASE - 1 || Val(current) < Val(divisor) * (best + 1)
  {
    var low, high := 0, BASE - 1;
    best := 0;
    LimbsBound(current);
    while low <= high
      invariant 0 <= low <= high + 1 <= BASE
      invariant 0 <= best < BASE
      invariant Val(divisor) * best <= Val(current)
      invariant low > 0 ==> best == low - 1
      invariant high < BASE - 1 ==> Val(current) < Val(divisor) * (high + 1)
      decreases high - low
    {
      var mid := (low + high) / 2;
      var m := IntToLimbs(mid);
      var prod := MultiplyLimbs(divisor, m);
      var cmp := CompareAbsolute(prod, current);
      if cmp <= 0 {
        best := mid;
        low := mid + 1;
      } else {
        high := mid - 1;
      }
    }
  }

  /** The long-division loop of divide: bring down limbs from the most
      significant, pick each quotient limb by QuotientDigit, and keep the
      running remainder in [0, |divisor|). The quotient is built
      most-significant first and reversed at the end. */
  method LongDivide(a: seq<int>, b: seq<int>) returns (q: seq<int>)
    requires IsLimbs(a) && Canonical(b) && Val(b) > 0
    ensures IsLimbs(q) && Val(q) == Val(a) / Val(b)
    ensures |a| >= 1 ==> Canonical(q)
  {
    var quotMsf: seq<int> := [];
    var current: seq<int> := [];
    var i := |a| - 1;
    while i >= 0
      invariant -1 <= i < |a|
      invariant |quotMsf| == |a| - 1 - i && IsLimbs(quotMsf)
      invariant IsLimbs(current) && 0 <= Val(current) < Val(b)
      invariant Val(current) + Val(b) * Val(Reverse(quotMsf)) == Val(a[i + 1..])
    {
      current, quotMsf := BringDown(a, b, i, current, quotMsf);
      i := i - 1;
    }
    var msf := Reverse(quotMsf);
    QuotientFound(a, Val(b), current, quotMsf);
    StrippedLimbs(msf);
    q := StripLimbs(msf);
  }

  /** When every limb is brought down, the reversed quotient limbs are the quotient. */
  lemma QuotientFound(a: seq<int>, dv: int, current: seq<int>, quotMsf: seq<int>)
    requires IsLimbs(quotMsf) && 0 <= Val(current) < dv
    requires Val(current) + dv * Val(Reverse(quotMsf)) == Val(a[0..])
    ensures IsLimbs(Reverse(quotMsf)) && Val(Reverse(quotMsf)) == Val(a) / dv
  {
    assert a[0..] == a;
    ReverseLimbs(quotMsf);
    QuotientArith(Val(Reverse(quotMsf)), dv, Val(current), Val(a));
  }

  lemma ReverseLimbs(s: seq<int>)
    requires IsLimbs(s)
    ensures IsLimbs(Reverse(s))
  {
  }

  /** The quotient of r + dv * x by dv is x when 0 <= r < dv. */
  lemma QuotientArith(x: int, dv: int, r: int, total: int)
    requires 0 <= r < dv && r + dv * x == total
    ensures x == total / dv
  {
    DivOfMulAdd(x, dv, r);
    assert x * dv + r == total;
  }

  /** One pass of divide's loop: limb i is brought down in front of the
      remainder, the largest fitting quotient limb is found, and its
      multiple of the divisor is subtracted. */
  method BringDown(a: seq<int>, b: seq<int>, i: nat, current: seq<int>, quotMsf: seq<int>)
    returns (next: seq<int>, quotNext: seq<int>)
    requires IsLimbs(a) && Canonical(b) && i < |a| && IsLimbs(quotMsf)
    requires IsLimbs(current) && 0 <= Val(current) < Val(b)
    requires Val(current) + Val(b) * Val(Reverse(quotMsf)) == Val(a[i + 1..])
    ensures |quotNext| == |quotMsf| + 1 && IsLimbs(quotNext) && quotNext[..|quotMsf|] == quotMsf
    ensures IsLimbs(next) && 0 <= Val(next) < Val(b)
    ensures Val(next) + Val(b) * Val(Reverse(quotNext)) == Val(a[i..])
  {
    var brought := [a[i]] + current;
    assert brought[1..] == current;
    StrippedLimbs(brought);
    var stripped := StripLimbs(brought);
    var best := QuotientDigit(b, stripped);
    BringDownStep(a, i, brought, Val(b), best, Val(Reverse(quotMsf)));
    var m := IntToLimbs(best);
    var prod := MultiplyLimbs(b, m);
    next := SubAbsolute(stripped, prod);
    ReverseSnocVal(quotMsf, best);
    quotNext := quotMsf + [best];
  }

  /** Bringing down limb i keeps the long-division equation, and the chosen
      quotient limb leaves a remainder below the divisor. */
  lemma BringDownStep(a: seq<int>, i: nat, brought: seq<int>, dv: int, best: int, quot: int)
    requires i < |a| && IsLimbs(a) && |brought| >= 1 && brought[0] == a[i]
    requires 0 <= Val(brought[1..]) < dv
    requires Val(brought[1..]) + dv * quot == Val(a[i + 1..])
    requires 0 <= best < BASE && dv * best <= Val(brought)
    requires best == BASE - 1 || Val(brought) < dv * (best + 1)
    ensures 0 <= Val(brought) - dv * best < dv
    ensures Val(brought) - dv * best + dv * (best + BASE * quot) == Val(a[i..])
  {
    assert a[i..][1..] == a[i + 1..];
    var c := Val(brought[1..]);
    assert Val(brought) == a[i] + BASE * c;
    assert Val(a[i..]) == a[i] + BASE * Val(a[i + 1..]);
    assert BASE * (c + dv * quot) == BASE * c + dv * (BASE * quot);
    if best == BASE - 1 {
      MulMonotone(BASE, c, dv - 1);
      assert dv * (best + 1) == BASE * dv;
    }
  }
}
