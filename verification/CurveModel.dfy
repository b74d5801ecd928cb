// The laws asked of a curve can be met: a group of 65537 points with made-up x-coordinates.
module CurveModel {
  import opened Bytes
  import opened PrimeField
  import opened EllipticCurve

  const ORDER: nat := 65537

  // The points k and ORDER - k share the x-coordinate of the smaller index.
  function X(k: nat): nat
    requires 0 < k < ORDER
  {
    if k < ORDER - k then k else ORDER - k
  }

  function Encode(k: nat): seq<byte> {
    if 0 < k < ORDER then [if k < ORDER - k then 2 else 3] + BigEndian(X(k), 32) else []
  }

  function SmallCurve(): Curve {
    Curve(ORDER, k => Encode(k), _ => 0, _ => 0)
  }

  lemma NoSmallDivisor(d: nat)
    requires 2 <= d < 257
    ensures !Divides(d, 65537)
  {
  }

  lemma OrderIsPrime()
    ensures IsPrime(ORDER)
  {
    forall d | 2 <= d < ORDER
      ensures !Divides(d, ORDER)
    {
      if d < 257 {
        NoSmallDivisor(d);
      } else if Divides(d, ORDER) {
        var q := ORDER / d;
        Cofactor(ORDER, d, q);
        NoSmallDivisor(q);
        assert false;
      }
    }
  }

  // Of two factors, one is small.
  lemma Cofactor(n: nat, d: nat, q: nat)
    requires n < 257 * 257 && 257 <= d < n && n % d == 0 && q == n / d
    ensures 2 <= q < 257 && n % q == 0
  {
    assert n == q * d;
    ProductGrows(q, d);
    QuotientUnique(q, d, 0);
  }

  lemma ProductGrows(q: nat, d: nat)
    requires d >= 257
    ensures q >= 257 ==> q * d >= 257 * 257
  {
  }

  lemma WideEnough(len: nat)
    requires len >= 3
    ensures ORDER < Pow256(len)
  {
    if len == 3 {
      assert Pow256(2) == 256 * Pow256(1) && Pow256(1) == 256 * Pow256(0);
    } else {
      WideEnough(len - 1);
    }
  }

  lemma EncodeInjective(j: nat, k: nat)
    requires 0 < j < ORDER && 0 < k < ORDER && Encode(j) == Encode(k)
    ensures j == k
  {
    WideEnough(32);
    hide BigEndian, Pow256;
    assert Encode(j)[0] == Encode(k)[0];
    assert Encode(j)[1..] == BigEndian(X(j), 32) && Encode(k)[1..] == BigEndian(X(k), 32);
    BigEndianRoundTrip(X(j), 32);
    BigEndianRoundTrip(X(k), 32);
  }

  lemma NegationFlips(c: Curve, k: nat)
    requires 0 < k < ORDER == c.n && c.encode(k) == Encode(k) && c.encode(ORDER - k) == Encode(ORDER - k)
    ensures c.NegationFlipsParity(k)
  {
    hide BigEndian;
    assert X(k) == X(ORDER - k);
    assert Encode(k)[1..] == BigEndian(X(k), 32) && Encode(ORDER - k)[1..] == BigEndian(X(k), 32);
  }

  lemma DistinctEncodings(j: nat, k: nat)
    requires j < ORDER && k < ORDER && Encode(j) == Encode(k)
    ensures j == k
  {
    if j != 0 && k != 0 {
      EncodeInjective(j, k);
    }
  }

  lemma IdentityHasNone(c: Curve)
    requires c.encode(0) == Encode(0)
    ensures !c.HasPointEncoding(0)
  {
  }

  lemma AllFlip(c: Curve)
    requires c.n == ORDER && forall k: nat :: c.encode(k) == Encode(k)
    ensures forall k: nat :: 0 < k < c.n ==> c.NegationFlipsParity(k)
  {
    hide Encode, Curve.NegationFlipsParity;
    forall k: nat | 0 < k < c.n
      ensures c.NegationFlipsParity(k)
    {
      NegationFlips(c, k);
    }
  }

  lemma AllFit(c: Curve)
    requires c.n == ORDER
    ensures forall z: nat :: z < c.n ==> c.FitsScalar(z)
  {
    WideEnough(32);
    hide BigEndian, Pow256;
    forall z: nat | z < c.n
      ensures c.FitsScalar(z)
    {
      BigEndianRoundTrip(z, 32);
    }
  }

  lemma AllDistinct(c: Curve)
    requires c.n == ORDER && forall k: nat :: c.encode(k) == Encode(k)
    ensures forall j: nat, k: nat :: j < c.n && k < c.n && c.encode(j) == c.encode(k) ==> j == k
  {
    hide Encode;
    forall j: nat, k: nat | j < c.n && k < c.n && c.encode(j) == c.encode(k)
      ensures j == k
    {
      DistinctEncodings(j, k);
    }
  }

  // Every requirement on a curve holds of this one, so the theorems about all such curves say something.
  lemma SmallCurveIsValid()
    ensures SmallCurve().Valid()
  {
    var c := SmallCurve();
    OrderIsPrime();
    AllFit(c);
    IdentityHasNone(c);
    AllFlip(c);
    AllDistinct(c);
    hide IsPrime, Encode, Curve.FitsScalar, Curve.HasPointEncoding, Curve.NegationFlipsParity;
  }
}
