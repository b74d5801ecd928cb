// Arithmetic modulo a prime, as far as the signing mathematics needs it: congruence, and inverses
// obtained from primality alone.
module PrimeField {

  // ----- integer products, kept apart from the modulus

  lemma MulAssoc(a: int, b: int, c: int)
    ensures a * (b * c) == (a * b) * c
  {
  }

  lemma Distribute(a: int, b: int, c: int)
    ensures a * (b + c) == a * b + a * c
    ensures a * (b - c) == a * b - a * c
  {
  }

  // ----- congruence

  predicate Divides(d: int, n: int)
    requires d != 0
  {
    n % d == 0
  }

  ghost predicate IsPrime(n: int) {
    2 <= n && forall d :: 2 <= d < n ==> !Divides(d, n)
  }

  // Equality of residues; reflexive, symmetric and transitive by definition.
  ghost predicate Cong(n: nat, a: int, b: int)
    requires n > 0
  {
    a % n == b % n
  }

  lemma MultipleBound(n: nat, k: int)
    ensures k >= 1 ==> k * n >= n
    ensures k <= -1 ==> k * n <= 0 - n
  {
    if k >= 1 {
      assert k * n == n + (k - 1) * n;
    } else if k <= -1 {
      assert k * n == (k + 1) * n - n;
    }
  }

  lemma QuotientUnique(n: nat, q: int, r: int)
    requires n > 0 && 0 <= r < n
    ensures (q * n + r) % n == r
  {
    var a := q * n + r;
    var q', r' := a / n, a % n;
    assert a == q' * n + r';
    assert (q - q') * n == r' - r;
    MultipleBound(n, q - q');
  }

  lemma CongOfMultiple(n: nat, a: int, b: int, k: int)
    requires n > 0 && a == b + k * n
    ensures Cong(n, a, b)
  {
    var q, r := b / n, b % n;
    assert a == (q + k) * n + r;
    QuotientUnique(n, q + k, r);
  }

  lemma MultipleOfCong(n: nat, a: int, b: int) returns (k: int)
    requires n > 0 && Cong(n, a, b)
    ensures a == b + k * n
  {
    k := a / n - b / n;
    assert a == (a / n) * n + a % n && b == (b / n) * n + b % n;
  }

  lemma CongMod(n: nat, a: int)
    requires n > 0
    ensures Cong(n, a % n, a)
  {
    CongOfMultiple(n, a, a % n, a / n);
  }

  lemma CongAdd(n: nat, a: int, b: int, c: int, d: int)
    requires n > 0 && Cong(n, a, b) && Cong(n, c, d)
    ensures Cong(n, a + c, b + d)
    ensures Cong(n, a - c, b - d)
  {
    var k := MultipleOfCong(n, a, b);
    var m := MultipleOfCong(n, c, d);
    Distribute(n, k, m);
    CongOfMultiple(n, a + c, b + d, k + m);
    CongOfMultiple(n, a - c, b - d, k - m);
  }

  lemma CongMul(n: nat, a: int, b: int, c: int, d: int)
    requires n > 0 && Cong(n, a, b) && Cong(n, c, d)
    ensures Cong(n, a * c, b * d)
  {
    var k := MultipleOfCong(n, a, b);
    var m := MultipleOfCong(n, c, d);
    ProductOfMultiples(n, a, b, c, d, k, m);
    CongOfMultiple(n, a * c, b * d, a * m + k * d);
  }

  lemma ProductOfMultiples(n: int, a: int, b: int, c: int, d: int, k: int, m: int)
    requires a == b + k * n && c == d + m * n
    ensures a * c == b * d + (a * m + k * d) * n
  {
    Distribute(a, d, m * n);
    MulAssoc(a, m, n);
    Distribute(d, b, k * n);
    MulAssoc(d, k, n);
    Distribute(n, a * m, k * d);
  }

  // Residues are their own canonical representatives.
  lemma CongResidues(n: nat, a: int, b: int)
    requires n > 0 && Cong(n, a, b) && 0 <= a < n && 0 <= b < n
    ensures a == b
  {
    QuotientUnique(n, 0, a);
    QuotientUnique(n, 0, b);
  }

  lemma ResidueMod(n: nat, a: int)
    requires 0 <= a < n
    ensures a % n == a
  {
    QuotientUnique(n, 0, a);
  }

  // The inverse of a modulo a prime n, by the remainder recursion
  // n == (n / a) * a + n % a; the inverse of zero is zero, as for the scalars of the source.
  function Inverse(n: nat, a: nat): (x: nat)
    requires n > 0
    ensures x < n
    decreases a
  {
    if a == 0 then 0
    else if a == 1 then 1 % n
    else (-(n / a) * Inverse(n, n % a)) % n
  }

  lemma {:induction false} InverseLaw(n: nat, a: nat)
    requires IsPrime(n) && 0 < a < n
    ensures Cong(n, a * Inverse(n, a), 1)
    decreases a
  {
    if a == 1 {
      ResidueMod(n, 1);
    } else {
      var q, r := n / a, n % a;
      assert !Divides(a, n);
      InverseLaw(n, r);
      CongMod(n, -q * Inverse(n, r));
      InverseStep(n, a, q, r, Inverse(n, r), Inverse(n, a));
    }
  }

  // With n == q * a + r, multiplying r by y or a by -q * y differs by y * n.
  lemma InverseStep(n: nat, a: int, q: int, r: int, y: int, x: int)
    requires 0 < n == q * a + r && Cong(n, r * y, 1) && Cong(n, x, -q * y)
    ensures Cong(n, a * x, 1)
  {
    RemainderProduct(n, a, q, r, y);
    CongOfMultiple(n, r * y, a * (-q * y), y);
    CongMul(n, a, a, x, -q * y);
  }

  lemma RemainderProduct(n: int, a: int, q: int, r: int, y: int)
    requires n == q * a + r
    ensures r * y == a * (-q * y) + y * n
  {
    Distribute(y, q * a, r);
    MulAssoc(a, q, y);
    assert a * (-q * y) == -(a * (q * y));
  }

  // A nonzero residue can be cancelled.
  lemma Cancel(n: nat, c: int, a: int, b: int)
    requires IsPrime(n) && !Cong(n, c, 0) && Cong(n, c * a, c * b)
    ensures Cong(n, a, b)
  {
    var r := c % n;
    ResidueMod(n, 0);
    var x := Inverse(n, r);
    InverseLaw(n, r);
    CongMod(n, c);
    CongMul(n, x, x, r, c);
    CongMul(n, x, x, c * a, c * b);
    CongMul(n, x * c, 1, a, a);
    CongMul(n, x * c, 1, b, b);
    MulAssoc(x, c, a);
    MulAssoc(x, c, b);
  }

  // Two distinct residues stay distinct under congruence.
  lemma DistinctResidues(n: nat, a: int, b: int)
    requires n > 0 && 0 <= a < n && 0 <= b < n && a != b
    ensures !Cong(n, a - b, 0)
  {
    if Cong(n, a - b, 0) {
      var k := MultipleOfCong(n, a - b, 0);
      MultipleBound(n, k);
      assert false;
    }
  }
}
