// The group the signatures live in: points of prime order n, their compressed encoding, and the two
// hash functions, all left arbitrary within the laws of Valid. A point is represented by its index:
// the residue k stands for k times the base point G. Scalars and points are the mutable objects of
// the elliptic-curve library; their methods change the receiver in place.
module EllipticCurve {
  import opened Bytes
  import opened PrimeField

  datatype Curve = Curve(
    n: nat,
    encode: nat -> seq<byte>,
    challengeHash: seq<byte> -> nat,
    bindingHash: seq<byte> -> nat)
  {
    // The order is a prime above every 16-bit id, and scalars fit 32 bytes. A point other than the identity
    // has a 33-byte encoding whose first byte, 2 or 3, is the parity of y; negation flips exactly that
    // byte. The identity has no such encoding. Different points have different encodings.
    ghost predicate Valid() {
      ValidOrder() && ValidEncoding()
    }

    ghost predicate ValidOrder() {
      IsPrime(n) && 65535 < n
    }

    ghost predicate ValidEncoding() {
      && (forall z: nat :: z < n ==> FitsScalar(z))
      && (forall k: nat :: 0 < k < n ==> NegationFlipsParity(k))
      && !HasPointEncoding(0)
      && (forall j: nat, k: nat :: j < n && k < n && encode(j) == encode(k) ==> j == k)
    }

    ghost predicate NegationFlipsParity(k: nat)
      requires k <= n
    {
      && HasPointEncoding(k) && HasPointEncoding(n - k)
      && encode(k)[0] != encode(n - k)[0] && encode(k)[1..] == encode(n - k)[1..]
    }

    // A scalar survives its 32-byte encoding.
    ghost predicate FitsScalar(z: nat) {
      FromBigEndian(BigEndian(z, 32)) == z
    }

    predicate HasPointEncoding(k: nat) {
      |encode(k)| == 33 && (encode(k)[0] == 2 || encode(k)[0] == 3)
    }

    function XOnly(k: nat): seq<byte> {
      if |encode(k)| > 0 then encode(k)[1..] else []
    }

    predicate EvenY(k: nat) {
      |encode(k)| > 0 && encode(k)[0] == 2
    }

    // The point with the same x-coordinate and an even y-coordinate.
    function EvenLift(k: nat): nat
      requires k < n
    {
      if EvenY(k) then k else Negate(k)
    }

    function Negate(k: nat): nat
      requires k < n
    {
      (n - k) % n
    }

    function Challenge(rx: seq<byte>, px: seq<byte>, message: seq<byte>): nat
      requires n > 0
    {
      challengeHash(rx + px + message) % n
    }

    // "Verification" in BIP-340, for the x-only key of the point p.
    predicate Verifies(signature: seq<byte>, message: seq<byte>, p: nat)
      requires 0 < n && p < n
    {
      && |signature| == 64 && |message| == 32 && HasPointEncoding(p)
      && FromBigEndian(signature[32..]) < n
      && IsNonce(NoncePoint(signature, message, p), signature[..32])
    }

    // r is not the identity, has even y, and the x-coordinate rx.
    predicate IsNonce(r: nat, rx: seq<byte>) {
      r != 0 && EvenY(r) && XOnly(r) == rx
    }

    function NoncePoint(signature: seq<byte>, message: seq<byte>, p: nat): nat
      requires 0 < n && p < n && |signature| == 64
    {
      Recompute(FromBigEndian(signature[32..]), Challenge(signature[..32], XOnly(p), message), p)
    }

    // s * G - e * P, with P in its even-Y form.
    function Recompute(s: nat, e: nat, p: nat): nat
      requires 0 < n && p < n
    {
      (s - e * EvenLift(p)) % n
    }

    lemma EvenLiftIsEven(k: nat)
      requires Valid() && 0 < k < n
      ensures 0 < EvenLift(k) < n && EvenY(EvenLift(k)) && XOnly(EvenLift(k)) == XOnly(k)
      ensures EvenLift(k) == if EvenY(k) then k else n - k
    {
      ResidueMod(n, n - k);
      assert NegationFlipsParity(k);
    }

    // A point is determined by its x-coordinate and parity.
    lemma PointOfEncoding(j: nat, k: nat)
      requires Valid() && 0 < j < n && 0 < k < n
      requires EvenY(j) == EvenY(k) && XOnly(j) == XOnly(k)
      ensures j == k
    {
      assert NegationFlipsParity(j) && NegationFlipsParity(k);
      assert encode(j) == [encode(j)[0]] + encode(j)[1..];
      assert encode(k) == [encode(k)[0]] + encode(k)[1..];
    }
  }

  class Scalar {
    const n: nat
    var v: nat

    ghost predicate Valid()
      reads this
    {
      v < n
    }

    constructor (n: nat, u: nat)
      requires n > 0
      ensures this.n == n && v == u % n && Valid()
    {
      this.n := n;
      v := u % n;
    }

    method Copy() returns (s: Scalar)
      requires Valid()
      ensures fresh(s) && s.Valid() && s.n == n && s.v == v
    {
      s := new Scalar(n, v);
      ResidueMod(n, v);
    }

    method Add(o: Scalar)
      requires Valid() && o.Valid() && o.n == n
      modifies this
      ensures Valid() && v == (old(v) + old(o.v)) % n
    {
      v := (v + o.v) % n;
    }

    method Subtract(o: Scalar)
      requires Valid() && o.Valid() && o.n == n
      modifies this
      ensures Valid() && v == (old(v) - old(o.v)) % n
    {
      v := (v - o.v) % n;
    }

    method Multiply(o: Scalar)
      requires Valid() && o.Valid() && o.n == n
      modifies this
      ensures Valid() && v == (old(v) * old(o.v)) % n
    {
      v := (v * o.v) % n;
    }

    method Invert()
      requires Valid()
      modifies this
      ensures Valid() && v == Inverse(n, old(v))
    {
      v := Inverse(n, v);
    }
  }

  class Element {
    const n: nat
    var k: nat

    ghost predicate Valid()
      reads this
    {
      k < n
    }

    // u times the base point; zero gives the identity.
    constructor (n: nat, u: nat)
      requires n > 0
      ensures this.n == n && k == u % n && Valid()
    {
      this.n := n;
      k := u % n;
    }

    method Copy() returns (e: Element)
      requires Valid()
      ensures fresh(e) && e.Valid() && e.n == n && e.k == k
    {
      e := new Element(n, k);
      ResidueMod(n, k);
    }

    method Add(o: Element)
      requires Valid() && o.Valid() && o.n == n
      modifies this
      ensures Valid() && k == (old(k) + old(o.k)) % n
    {
      k := (k + o.k) % n;
    }

    method Multiply(s: Scalar)
      requires Valid() && s.Valid() && s.n == n
      modifies this
      ensures Valid() && k == (old(k) * s.v) % n
    {
      k := (k * s.v) % n;
    }

    method Negate()
      requires Valid()
      modifies this
      ensures Valid() && k == (n - old(k)) % n
    {
      k := (n - k) % n;
    }
  }

  // g times the base point.
  method BaseMultiply(s: Scalar) returns (e: Element)
    requires s.Valid()
    ensures fresh(e) && e.Valid() && e.n == s.n && e.k == s.v
  {
    e := new Element(s.n, 1);
    e.Multiply(s);
    if s.n > 1 {
      ResidueMod(s.n, 1);
    }
    ResidueMod(s.n, s.v);
  }
}
