// Polynomials with integer coefficients and Lagrange interpolation at zero modulo a prime.
// Sums and coefficients are unreduced integers; only the fractions x_j / (x_j - x_i) need the prime.
module Interpolation {
  import opened PrimeField

  // coeffs[0] + coeffs[1] * x + coeffs[2] * x^2 + ...
  function Eval(coeffs: seq<int>, x: int): int {
    if coeffs == [] then 0 else coeffs[0] + x * Eval(coeffs[1..], x)
  }

  function Sum<T>(xs: seq<T>, term: T -> int): int {
    if |xs| == 0 then 0 else Sum(xs[..|xs| - 1], term) + term(xs[|xs| - 1])
  }

  ghost predicate Distinct(ids: seq<int>) {
    forall i, j :: 0 <= i < j < |ids| ==> ids[i] != ids[j]
  }

  ghost predicate AreResidues(n: nat, ids: seq<int>) {
    forall i :: 0 <= i < |ids| ==> 0 <= ids[i] < n
  }

  // xj / (xj - xi) modulo n
  function Fraction(n: nat, xj: int, xi: int): int
    requires n > 0
  {
    xj * Inverse(n, (xj - xi) % n)
  }

  // The interpolating value of x at zero: the product of xj / (xj - x) over the other ids.
  function Lagrange(n: nat, x: int, ids: seq<int>): int
    requires n > 0
  {
    if ids == [] then 1
    else
      var rest := Lagrange(n, x, ids[..|ids| - 1]);
      var last := ids[|ids| - 1];
      if last == x then rest else rest * Fraction(n, last, x)
  }

  // The interpolated value at zero of the function f known at the ids.
  function Interpolate(n: nat, ids: seq<int>, f: int -> int): int
    requires n > 0
  {
    Sum(ids, x => Lagrange(n, x, ids) * f(x))
  }

  lemma SwapFactors(a: int, b: int, c: int)
    ensures (a * b) * c == (a * c) * b
  {
  }

  lemma Commute(a: int, b: int)
    ensures a * b == b * a
  {
  }

  // ----- sums

  lemma {:induction false} SumCong<T>(n: nat, xs: seq<T>, f: T -> int, g: T -> int)
    requires n > 0
    requires forall x :: x in xs ==> Cong(n, f(x), g(x))
    ensures Cong(n, Sum(xs, f), Sum(xs, g))
  {
    if |xs| > 0 {
      var rest, last := xs[..|xs| - 1], xs[|xs| - 1];
      SumCong(n, rest, f, g);
      CongAdd(n, Sum(rest, f), Sum(rest, g), f(last), g(last));
    }
  }

  lemma {:induction false} SumFront(ids: seq<int>, f: int -> int)
    requires ids != []
    ensures Sum(ids, f) == f(ids[0]) + Sum(ids[1..], f)
  {
    var rest := ids[..|ids| - 1];
    if rest != [] {
      SumFront(rest, f);
      assert rest[1..] == ids[1..][..|ids| - 2];
    }
  }

  lemma {:induction false} SumLinear<T>(xs: seq<T>, a: int, f: T -> int, b: int, g: T -> int, h: T -> int)
    requires forall x :: x in xs ==> h(x) == a * f(x) + b * g(x)
    ensures Sum(xs, h) == a * Sum(xs, f) + b * Sum(xs, g)
  {
    if |xs| > 0 {
      var rest, last := xs[..|xs| - 1], xs[|xs| - 1];
      SumLinear(rest, a, f, b, g, h);
      assert a * (Sum(rest, f) + f(last)) == a * Sum(rest, f) + a * f(last);
      assert b * (Sum(rest, g) + g(last)) == b * Sum(rest, g) + b * g(last);
    }
  }

  // ----- removing one id from the interpolation set

  lemma FractionLaw(n: nat, xj: int, xi: int)
    requires IsPrime(n) && 0 <= xi < n && 0 <= xj < n && xi != xj
    ensures Cong(n, Fraction(n, xj, xi) * (xj - xi), xj)
  {
    var d := (xj - xi) % n;
    DistinctResidues(n, xj, xi);
    ResidueMod(n, 0);
    InverseLaw(n, d);
    CongMod(n, xj - xi);
    ScaledInverse(n, xj, d, xj - xi, Inverse(n, d));
  }

  lemma ScaledInverse(n: nat, x: int, d: int, d': int, y: int)
    requires n > 0 && Cong(n, d, d') && Cong(n, d * y, 1)
    ensures Cong(n, (x * y) * d', x)
  {
    CongMul(n, y, y, d, d');
    CongMul(n, x, x, y * d', 1);
    MulAssoc(x, y, d');
  }

  lemma {:induction false} LagrangeFront(n: nat, x: int, ids: seq<int>)
    requires n > 0 && ids != [] && ids[0] != x
    ensures Lagrange(n, x, ids) == Lagrange(n, x, ids[1..]) * Fraction(n, ids[0], x)
  {
    var rest, last := ids[..|ids| - 1], ids[|ids| - 1];
    if rest != [] {
      LagrangeFront(n, x, rest);
      assert rest[1..] == ids[1..][..|ids| - 2];
      SwapFactors(Lagrange(n, x, rest[1..]), Fraction(n, ids[0], x), Fraction(n, last, x));
    }
  }

  // Multiplying the value at x by (x - t) takes t out of the interpolation set, at the price of a
  // factor -t; the term of t itself vanishes.
  lemma RemoveTerms(n: nat, ids: seq<int>, t: int, rest: seq<int>, f: int -> int)
    requires IsPrime(n) && 0 <= t < n && AreResidues(n, rest) && t !in rest
    requires forall x :: x in rest ==> Lagrange(n, x, ids) == Lagrange(n, x, rest) * Fraction(n, t, x)
    ensures Cong(n, Sum(rest, x => Lagrange(n, x, ids) * ((x - t) * f(x))), -t * Interpolate(n, rest, f))
  {
    var whole := (x: int) => Lagrange(n, x, ids) * ((x - t) * f(x));
    var part := (x: int) => Lagrange(n, x, rest) * f(x);
    forall x | x in rest
      ensures Cong(n, whole(x), -t * part(x))
    {
      RemoveTerm(n, x, t, Lagrange(n, x, rest), f(x));
      assert x - t == -(t - x) && t * -part(x) == -t * part(x);
    }
    SumCong(n, rest, whole, x => -t * part(x));
    SumLinear(rest, -t, part, 0, part, x => -t * part(x));
  }

  lemma RemoveTerm(n: nat, x: int, t: int, lagrange: int, y: int)
    requires IsPrime(n) && 0 <= x < n && 0 <= t < n && x != t
    ensures Cong(n, (lagrange * Fraction(n, t, x)) * (-(t - x) * y), t * -(lagrange * y))
  {
    FractionLaw(n, t, x);
    var fr := Fraction(n, t, x);
    var c := -(lagrange * y);
    CongMul(n, c, c, fr * (t - x), t);
    SignedProduct(lagrange, fr, t - x, y);
    Commute(c, t);
  }

  lemma SignedProduct(a: int, b: int, d: int, y: int)
    ensures (a * b) * (-d * y) == -(a * y) * (b * d)
  {
    SwapFactors(a, b, d * y);
    assert (a * b) * (-d * y) == -((a * b) * (d * y));
    MulAssoc(a * b, d, y);
    MulAssoc(a, b, d);
    SwapFactors(a * (b * d), 1, y);
    SwapFactors(a, b * d, y);
  }

  lemma RemoveLast(n: nat, ids: seq<int>, f: int -> int)
    requires IsPrime(n) && ids != [] && Distinct(ids) && AreResidues(n, ids)
    ensures var t := ids[|ids| - 1];
            Cong(n, Sum(ids, x => Lagrange(n, x, ids) * ((x - t) * f(x))), -t * Interpolate(n, ids[..|ids| - 1], f))
  {
    var t := ids[|ids| - 1];
    RemoveTerms(n, ids, t, ids[..|ids| - 1], f);
    assert Lagrange(n, t, ids) * ((t - t) * f(t)) == 0;
  }

  lemma RemoveFirst(n: nat, ids: seq<int>, f: int -> int)
    requires IsPrime(n) && ids != [] && Distinct(ids) && AreResidues(n, ids)
    ensures var s := ids[0];
            Cong(n, Sum(ids, x => Lagrange(n, x, ids) * ((x - s) * f(x))), -s * Interpolate(n, ids[1..], f))
  {
    var s := ids[0];
    forall x | x in ids[1..]
      ensures Lagrange(n, x, ids) == Lagrange(n, x, ids[1..]) * Fraction(n, s, x)
    {
      LagrangeFront(n, x, ids);
    }
    RemoveTerms(n, ids, s, ids[1..], f);
    SumFront(ids, x => Lagrange(n, x, ids) * ((x - s) * f(x)));
    assert Lagrange(n, s, ids) * ((s - s) * f(s)) == 0;
  }

  // ----- the interpolation theorem

  // The coefficients sum to one: write t - s as (x - s) - (x - t) for the first id s and the last t.
  lemma {:induction false} LagrangeSumsToOne(n: nat, ids: seq<int>)
    requires IsPrime(n) && ids != [] && Distinct(ids) && AreResidues(n, ids)
    ensures Cong(n, Interpolate(n, ids, _ => 1), 1)
    decreases |ids|
  {
    var s, t := ids[0], ids[|ids| - 1];
    var one := (_: int) => 1;
    if |ids| == 1 {
      assert Interpolate(n, ids, one) == Sum(ids[..0], x => Lagrange(n, x, ids) * one(x)) + Lagrange(n, s, ids) * 1;
      assert Lagrange(n, s, ids) == Lagrange(n, s, ids[..0]) == 1;
    } else {
      RemoveFirst(n, ids, one);
      RemoveLast(n, ids, one);
      LagrangeSumsToOne(n, ids[1..]);
      LagrangeSumsToOne(n, ids[..|ids| - 1]);
      var first := Sum(ids, x => Lagrange(n, x, ids) * ((x - s) * one(x)));
      var last := Sum(ids, x => Lagrange(n, x, ids) * ((x - t) * one(x)));
      DifferenceOfSums(n, ids, s, t, one);
      DistinctResidues(n, t, s);
      UnityStep(n, s, t, Interpolate(n, ids, one), first, last,
        Interpolate(n, ids[1..], one), Interpolate(n, ids[..|ids| - 1], one));
    }
  }

  lemma DifferenceOfSums(n: nat, ids: seq<int>, s: int, t: int, f: int -> int)
    requires n > 0
    ensures (t - s) * Interpolate(n, ids, f)
         == Sum(ids, x => Lagrange(n, x, ids) * ((x - s) * f(x)))
          - Sum(ids, x => Lagrange(n, x, ids) * ((x - t) * f(x)))
  {
    var first := (x: int) => Lagrange(n, x, ids) * ((x - s) * f(x));
    var last := (x: int) => Lagrange(n, x, ids) * ((x - t) * f(x));
    var weight := (x: int) => Lagrange(n, x, ids) * f(x);
    var both := (x: int) => (t - s) * weight(x);
    forall x
      ensures both(x) == 1 * first(x) + -1 * last(x)
    {
      DifferenceOfTerms(Lagrange(n, x, ids), x, s, t, f(x));
    }
    SumLinear(ids, 1, first, -1, last, both);
    SumLinear(ids, t - s, weight, 0, weight, both);
  }

  lemma DifferenceOfTerms(l: int, x: int, s: int, t: int, y: int)
    ensures (t - s) * (l * y) == l * ((x - s) * y) - l * ((x - t) * y)
  {
    assert (x - s) * y == (x - t) * y + (t - s) * y;
    Distribute(l, (x - t) * y, (t - s) * y);
    assert (t - s) * (l * y) == l * ((t - s) * y);
  }

  lemma UnityStep(n: nat, s: int, t: int, whole: int, first: int, last: int, withoutFirst: int, withoutLast: int)
    requires IsPrime(n) && !Cong(n, t - s, 0)
    requires (t - s) * whole == first - last
    requires Cong(n, first, -s * withoutFirst) && Cong(n, last, -t * withoutLast)
    requires Cong(n, withoutFirst, 1) && Cong(n, withoutLast, 1)
    ensures Cong(n, whole, 1)
  {
    CongMul(n, -s, -s, withoutFirst, 1);
    CongMul(n, -t, -t, withoutLast, 1);
    CongAdd(n, first, -s, last, -t);
    assert (t - s) * 1 == -s - -t;
    Cancel(n, t - s, whole, 1);
  }

  // The quotient of (coeffs(x) - coeffs(t)) by (x - t), one degree lower.
  function Quotient(coeffs: seq<int>, t: int): seq<int> {
    if |coeffs| <= 1 then [] else [Eval(coeffs[1..], t)] + Quotient(coeffs[1..], t)
  }

  lemma {:induction false} QuotientLaw(coeffs: seq<int>, t: int, x: int)
    ensures |Quotient(coeffs, t)| == if coeffs == [] then 0 else |coeffs| - 1
    ensures Eval(coeffs, x) == Eval(coeffs, t) + (x - t) * Eval(Quotient(coeffs, t), x)
  {
    if |coeffs| > 1 {
      var tail := coeffs[1..];
      QuotientLaw(tail, t, x);
      var q := Quotient(tail, t);
      assert Quotient(coeffs, t)[1..] == q;
      QuotientStep(x, t, Eval(tail, x), Eval(tail, t), Eval(q, x));
    } else if |coeffs| == 1 {
      assert coeffs[1..] == [];
    }
  }

  lemma QuotientStep(x: int, t: int, gx: int, gt: int, q: int)
    requires gx == gt + (x - t) * q
    ensures x * gx == t * gt + (x - t) * (gt + x * q)
  {
    assert x * gx == x * gt + x * ((x - t) * q);
    assert (x - t) * (gt + x * q) == (x - t) * gt + (x - t) * (x * q);
    assert x * ((x - t) * q) == (x - t) * (x * q);
  }

  // Any polynomial with at most as many coefficients as there are distinct ids is recovered at zero
  // from its values at the ids.
  lemma {:induction false} InterpolationTheorem(n: nat, ids: seq<int>, coeffs: seq<int>)
    requires IsPrime(n) && Distinct(ids) && AreResidues(n, ids)
    requires |coeffs| <= |ids|
    ensures Cong(n, Interpolate(n, ids, x => Eval(coeffs, x)), Eval(coeffs, 0))
    decreases |coeffs|
  {
    var value := (x: int) => Eval(coeffs, x);
    if coeffs == [] {
      var whole := (x: int) => Lagrange(n, x, ids) * value(x);
      SumLinear(ids, 0, whole, 0, whole, whole);
    } else {
      var t, rest := ids[|ids| - 1], ids[..|ids| - 1];
      var q, at := Quotient(coeffs, t), Eval(coeffs, t);
      var low, one := (x: int) => Eval(q, x), (_: int) => 1;
      var high := Sum(ids, x => Lagrange(n, x, ids) * ((x - t) * low(x)));
      QuotientLaw(coeffs, t, 0);
      InterpolationTheorem(n, rest, q);
      RemoveLast(n, ids, low);
      LagrangeSumsToOne(n, ids);
      forall x
        ensures value(x) == at + (x - t) * low(x)
      {
        QuotientLaw(coeffs, t, x);
      }
      SplitValues(n, ids, t, at, one, low, value);
      TheoremStep(n, t, at, Interpolate(n, ids, one), high, Interpolate(n, rest, low), Eval(q, 0));
    }
  }

  lemma TheoremStep(n: nat, t: int, at: int, weight: int, high: int, rest: int, low: int)
    requires n > 0 && Cong(n, weight, 1) && Cong(n, high, -t * rest) && Cong(n, rest, low)
    ensures Cong(n, at * weight + high, at + (0 - t) * low)
  {
    CongMul(n, at, at, weight, 1);
    CongMul(n, -t, -t, rest, low);
    CongAdd(n, at * weight, at, high, -t * low);
  }

  lemma SplitValues(n: nat, ids: seq<int>, t: int, at: int, one: int -> int, low: int -> int, value: int -> int)
    requires n > 0
    requires forall x :: one(x) == 1 && value(x) == at + (x - t) * low(x)
    ensures Interpolate(n, ids, value)
         == at * Interpolate(n, ids, one) + Sum(ids, x => Lagrange(n, x, ids) * ((x - t) * low(x)))
  {
    var weight := (x: int) => Lagrange(n, x, ids) * one(x);
    var high := (x: int) => Lagrange(n, x, ids) * ((x - t) * low(x));
    var whole := (x: int) => Lagrange(n, x, ids) * value(x);
    forall x
      ensures whole(x) == at * weight(x) + 1 * high(x)
    {
      assert one(x) == 1 && value(x) == at + (x - t) * low(x);
      Distribute(Lagrange(n, x, ids), at, (x - t) * low(x));
    }
    SumLinear(ids, at, weight, 1, high, whole);
  }
}
