// The BIP-340-mode FROST operations on mutable scalars and points. No method below modifies an
// argument: each works on copies and fresh accumulators, and computes the value SigningSpec defines.
module Bip340Frost {
  import opened Wrappers
  import opened Bytes
  import opened PrimeField
  import opened Interpolation
  import opened EllipticCurve
  import opened SigningSpec

  datatype FrostError = BadMessageLength | NotSorted | BadEncoding | MissingBindingFactor | OddNoncePoint

  // D_i and E_i of one participant, as point objects.
  datatype NonceCommitmentPair = NonceCommitmentPair(id: nat, hiding: Element, binding: Element)

  ghost predicate ValidScalar(c: Curve, s: Scalar)
    reads s
  {
    s.n == c.n && s.Valid()
  }

  ghost predicate ValidElement(c: Curve, e: Element)
    reads e
  {
    e.n == c.n && e.Valid()
  }

  // The commitment objects hold the values cs.
  ghost predicate Holds(c: Curve, pairs: seq<NonceCommitmentPair>, cs: seq<Commitment>)
    reads set p | p in pairs :: p.hiding
    reads set p | p in pairs :: p.binding
  {
    && |pairs| == |cs|
    && forall i :: 0 <= i < |pairs| ==>
         && ValidElement(c, pairs[i].hiding) && ValidElement(c, pairs[i].binding)
         && cs[i] == Commitment(pairs[i].id, pairs[i].hiding.k, pairs[i].binding.k)
  }

  // The scalar objects of the map hold the values rho.
  ghost predicate HoldsFactors(c: Curve, factors: map<nat, Scalar>, rho: map<nat, nat>)
    reads factors.Values
  {
    && factors.Keys == rho.Keys
    && forall id :: id in factors ==> ValidScalar(c, factors[id]) && factors[id].v == rho[id]
  }

  // ----- Lagrange coefficients

  // The product of the other ids, and of their differences from x.
  function Numerator(x: int, ids: seq<nat>): int {
    if ids == [] then 1
    else
      var last := ids[|ids| - 1];
      Numerator(x, ids[..|ids| - 1]) * if last == x then 1 else last
  }

  function Denominator(x: int, ids: seq<nat>): int {
    if ids == [] then 1
    else
      var last := ids[|ids| - 1];
      Denominator(x, ids[..|ids| - 1]) * if last == x then 1 else last - x
  }

  // The denominator the source inverts is never zero.
  lemma {:induction false} DenominatorNonzero(n: nat, x: nat, ids: seq<nat>)
    requires IsPrime(n) && x < n && forall i :: 0 <= i < |ids| ==> ids[i] < n
    ensures !Cong(n, Denominator(x, ids), 0)
  {
    if ids == [] {
      ResidueMod(n, 1);
      ResidueMod(n, 0);
    } else {
      var rest, last := ids[..|ids| - 1], ids[|ids| - 1];
      DenominatorNonzero(n, x, rest);
      if last != x {
        DistinctResidues(n, last, x);
        if Cong(n, Denominator(x, ids), 0) {
          assert Cong(n, Denominator(x, rest) * (last - x), Denominator(x, rest) * 0);
          Cancel(n, Denominator(x, rest), last - x, 0);
          assert false;
        }
      }
    }
  }

  // One fraction of two products is the product of the fractions.
  lemma {:induction false} FractionOfProducts(n: nat, x: nat, ids: seq<nat>)
    requires IsPrime(n) && x < n && forall i :: 0 <= i < |ids| ==> ids[i] < n
    ensures Cong(n, Lagrange(n, x, ids) * Denominator(x, ids), Numerator(x, ids))
  {
    if ids != [] {
      var rest, last := ids[..|ids| - 1], ids[|ids| - 1];
      FractionOfProducts(n, x, rest);
      if last != x {
        FractionLaw(n, last, x);
        var l, d, f := Lagrange(n, x, rest), Denominator(x, rest), Fraction(n, last, x);
        CongMul(n, l * d, Numerator(x, rest), f * (last - x), last);
        Regroup(l, d, f, last - x);
      }
    }
  }

  lemma Regroup(a: int, b: int, c: int, d: int)
    ensures (a * c) * (b * d) == (a * b) * (c * d)
  {
    assert (a * c) * (b * d) == ((a * b) * c) * d;
    assert (a * b) * (c * d) == ((a * b) * c) * d;
  }

  lemma QuotientIsLagrange(n: nat, x: nat, ids: seq<nat>, num: nat, den: nat)
    requires IsPrime(n) && x < n && forall i :: 0 <= i < |ids| ==> ids[i] < n
    requires num < n && den < n && Cong(n, num, Numerator(x, ids)) && Cong(n, den, Denominator(x, ids))
    ensures (num * Inverse(n, den)) % n == Lagrange(n, x, ids) % n
  {
    DenominatorNonzero(n, x, ids);
    FractionOfProducts(n, x, ids);
    ResidueMod(n, 0);
    InverseLaw(n, den);
    DivideOut(n, Lagrange(n, x, ids), Numerator(x, ids), Denominator(x, ids), num, den, Inverse(n, den));
  }

  lemma DivideOut(n: nat, l: int, num: int, den: int, num': int, den': int, y: int)
    requires n > 0 && Cong(n, num', num) && Cong(n, den', den)
    requires Cong(n, l * den, num) && Cong(n, den' * y, 1)
    ensures Cong(n, num' * y, l)
  {
    CongMul(n, l, l, den', den);
    CongMul(n, num', l * den', y, y);
    CongMul(n, l, l, den' * y, 1);
    MulAssoc(l, den', y);
  }

  method LagrangeCoefficient(c: Curve, targetID: nat, allIDs: seq<nat>) returns (coeff: Scalar)
    requires c.ValidOrder() && targetID < 65536 && forall i :: 0 <= i < |allIDs| ==> allIDs[i] < 65536
    ensures fresh(coeff) && ValidScalar(c, coeff)
    ensures coeff.v == Lagrange(c.n, targetID, allIDs) % c.n
  {
    var num := new Scalar(c.n, 1);
    var den := new Scalar(c.n, 1);
    var xi := new Scalar(c.n, targetID);
    for i := 0 to |allIDs|
      invariant fresh(num) && fresh(den) && fresh(xi) && num != den && num != xi && den != xi
      invariant ValidScalar(c, num) && ValidScalar(c, den) && ValidScalar(c, xi) && xi.v == targetID % c.n
      invariant Cong(c.n, num.v, Numerator(targetID, allIDs[..i]))
      invariant Cong(c.n, den.v, Denominator(targetID, allIDs[..i]))
    {
      var otherID := allIDs[i];
      assert allIDs[..i + 1][..i] == allIDs[..i];
      if otherID != targetID {
        ghost var num0, den0 := num.v, den.v;
        var xj := new Scalar(c.n, otherID);
        num.Multiply(xj);
        var diff := xj.Copy();
        diff.Subtract(xi);
        den.Multiply(diff);
        ResidueMod(c.n, otherID);
        ResidueMod(c.n, targetID);
        ProductStep(c.n, num0, Numerator(targetID, allIDs[..i]), otherID, otherID);
        CongMod(c.n, otherID - targetID);
        ProductStep(c.n, den0, Denominator(targetID, allIDs[..i]), diff.v, otherID - targetID);
      }
    }
    assert allIDs[..|allIDs|] == allIDs;
    QuotientIsLagrange(c.n, targetID, allIDs, num.v, den.v);
    den.Invert();
    num.Multiply(den);
    coeff := num;
  }

  lemma ProductStep(n: nat, acc: nat, exact: int, factor: nat, exactFactor: int)
    requires n > 0 && Cong(n, acc, exact) && Cong(n, factor, exactFactor)
    ensures Cong(n, (acc * factor) % n, exact * exactFactor)
  {
    CongMod(n, acc * factor);
    CongMul(n, acc, exact, factor, exactFactor);
  }

  // ----- binding factors and the aggregate nonce

  function BindingFactors(c: Curve, p: nat, message: seq<byte>, cs: seq<Commitment>): map<nat, nat>
    requires c.n > 0
  {
    map x | x in cs :: x.id := BindingFactor(c, p, message, cs, x.id)
  }

  // Every id of the list, and no other, has as its factor the hash of its own view.
  ghost predicate FactorsOfViews(c: Curve, factors: map<nat, Scalar>, p: nat, message: seq<byte>, cs: seq<Commitment>)
    requires |c.encode(p)| > 0 && c.n > 0
    reads factors.Values
  {
    AllWellFormed(c, cs) ==>
      && factors.Keys == (set x | x in cs :: x.id)
      && forall id :: id in factors ==> HashOfView(c, factors[id].v, p, message, cs, id)
  }

  method ComputeBindingFactors(c: Curve, jointPubkey: Element, message: seq<byte>,
                               commitments: seq<NonceCommitmentPair>, ghost cs: seq<Commitment>)
    returns (r: Result<map<nat, Scalar>, FrostError>)
    requires c.ValidOrder() && ValidElement(c, jointPubkey) && Holds(c, commitments, cs)
    ensures r == Err(BadMessageLength) <==> |message| != 32
    ensures r == Err(NotSorted) <==> |message| == 32 && !SortedById(cs)
    ensures r == Err(BadEncoding) <==> |message| == 32 && SortedById(cs) && |c.encode(jointPubkey.k)| != 33
    ensures r.Err? ==> r.error in {BadMessageLength, NotSorted, BadEncoding}
    ensures Holds(c, commitments, cs)
    ensures r.Ok? ==> forall id :: id in r.value ==> fresh(r.value[id])
    ensures r.Ok? ==> HoldsFactors(c, r.value, BindingFactors(c, jointPubkey.k, message, cs))
    ensures r.Ok? ==> |c.encode(jointPubkey.k)| == 33 && FactorsOfViews(c, r.value, jointPubkey.k, message, cs)
  {
    if |message| != 32 {
      return Err(BadMessageLength);
    }
    var sorted := IsSorted(c, commitments, cs);
    if !sorted {
      return Err(NotSorted);
    }
    var pubkeyEncoded := c.encode(jointPubkey.k);
    if |pubkeyEncoded| != 33 {
      return Err(BadEncoding);
    }
    var list := EncodeList(c, commitments, cs);
    var prefix := BINDING_DOMAIN + pubkeyEncoded[1..] + message + list;
    assert forall id :: prefix + BigEndian(id, 2) == BindingInput(c, jointPubkey.k, message, cs, id);
    var out := HashFactors(c, prefix, commitments, cs);
    assert out.Keys == BindingFactors(c, jointPubkey.k, message, cs).Keys;
    forall id | id in out && AllWellFormed(c, cs)
      ensures HashOfView(c, out[id].v, jointPubkey.k, message, cs, id)
    {
      BindingInputLayout(c, jointPubkey.k, message, cs, id);
    }
    return Ok(out);
  }

  method IsSorted(c: Curve, commitments: seq<NonceCommitmentPair>, ghost cs: seq<Commitment>) returns (sorted: bool)
    requires Holds(c, commitments, cs)
    ensures sorted <==> SortedById(cs)
  {
    var i := 1;
    while i < |commitments|
      invariant 1 <= i
      invariant forall j, k :: 0 <= j < k < i && k < |cs| ==> cs[j].id < cs[k].id
    {
      if commitments[i - 1].id >= commitments[i].id {
        assert cs[i - 1].id >= cs[i].id;
        return false;
      }
      i := i + 1;
    }
    return true;
  }

  method EncodeList(c: Curve, commitments: seq<NonceCommitmentPair>,
                    ghost cs: seq<Commitment>) returns (list: seq<byte>)
    requires Holds(c, commitments, cs)
    ensures list == EncodeCommitments(c, cs)
  {
    list := [];
    for i := 0 to |commitments|
      invariant list == EncodeCommitments(c, cs[..i])
    {
      var pair := commitments[i];
      assert cs[..i + 1][..i] == cs[..i];
      ghost var before := list;
      list := list + BigEndian(pair.id, 2);
      list := list + c.encode(pair.hiding.k);
      list := list + c.encode(pair.binding.k);
      assert list == before + EncodeCommitment(c, cs[i]);
    }
    assert cs[..|cs|] == cs;
  }

  // One hash per participant, of the common prefix and its id, reduced modulo the order.
  method HashFactors(c: Curve, prefix: seq<byte>, commitments: seq<NonceCommitmentPair>, ghost cs: seq<Commitment>)
    returns (out: map<nat, Scalar>)
    requires c.ValidOrder() && Holds(c, commitments, cs)
    ensures out.Keys == set x | x in cs :: x.id
    ensures forall id :: id in out ==>
      fresh(out[id]) && ValidScalar(c, out[id]) && out[id].v == c.bindingHash(prefix + BigEndian(id, 2)) % c.n
  {
    out := map[];
    for i := 0 to |commitments|
      invariant out.Keys == set j | 0 <= j < i :: cs[j].id
      invariant forall id :: id in out ==>
        fresh(out[id]) && ValidScalar(c, out[id]) && out[id].v == c.bindingHash(prefix + BigEndian(id, 2)) % c.n
    {
      var id := commitments[i].id;
      var s := new Scalar(c.n, c.bindingHash(prefix + BigEndian(id, 2)));
      out := out[id := s];
    }
  }

  // R in its even-Y form, and whether it was even before.
  method AggregateNonceCommitment(c: Curve, commitments: seq<NonceCommitmentPair>, bindingFactors: map<nat, Scalar>,
                                  ghost cs: seq<Commitment>, ghost rho: map<nat, nat>)
    returns (r: Result<(Element, bool), FrostError>)
    requires c.Valid() && Holds(c, commitments, cs) && HoldsFactors(c, bindingFactors, rho)
    ensures r == Err(MissingBindingFactor) <==> exists x :: x in cs && x.id !in rho
    ensures r.Err? ==> r.error in {MissingBindingFactor, BadEncoding}
    ensures r == Err(BadEncoding) <==>
      (forall x :: x in cs ==> x.id in rho) && |c.encode(NonceSum(c, cs, rho))| != 33
    ensures r == Err(BadEncoding) ==> NonceSum(c, cs, rho) == 0
    ensures r.Ok? ==>
      && fresh(r.value.0) && ValidElement(c, r.value.0)
      && r.value.0.k == c.EvenLift(NonceSum(c, cs, rho)) && r.value.1 == c.EvenY(NonceSum(c, cs, rho))
  {
    var sum := SumNonceCommitments(c, commitments, bindingFactors, cs, rho);
    if sum.None? {
      return Err(MissingBindingFactor);
    }
    var R := sum.value;
    EncodingOfLift(c, R.k);
    var encoded := c.encode(R.k);
    if |encoded| != 33 {
      return Err(BadEncoding);
    }
    var yEven := encoded[0] == 2;
    if !yEven {
      R.Negate();
    }
    return Ok((R, yEven));
  }

  // The accumulation loop of AggregateNonceCommitment; none if a binding factor is missing.
  method SumNonceCommitments(c: Curve, commitments: seq<NonceCommitmentPair>, bindingFactors: map<nat, Scalar>,
                             ghost cs: seq<Commitment>, ghost rho: map<nat, nat>)
    returns (sum: Option<Element>)
    requires c.ValidOrder() && Holds(c, commitments, cs) && HoldsFactors(c, bindingFactors, rho)
    ensures sum.None? <==> exists x :: x in cs && x.id !in rho
    ensures sum.Some? ==> fresh(sum.value) && ValidElement(c, sum.value) && sum.value.k == NonceSum(c, cs, rho)
  {
    var R := new Element(c.n, 0);
    ResidueMod(c.n, 0);
    for i := 0 to |commitments|
      invariant fresh(R) && ValidElement(c, R)
      invariant forall j :: 0 <= j < i ==> cs[j].id in rho
      invariant R.k == NonceSum(c, cs[..i], rho)
    {
      var pair := commitments[i];
      if pair.id !in bindingFactors {
        assert cs[i] in cs;
        return None;
      }
      var contrib := NonceContribution(c, pair, bindingFactors[pair.id]);
      NonceStep(c, cs, rho, i, contrib.k);
      R.Add(contrib);
    }
    assert cs[..|cs|] == cs;
    return Some(R);
  }

  // D_i + rho_i * E_i, on copies.
  method NonceContribution(c: Curve, pair: NonceCommitmentPair, rho: Scalar) returns (contrib: Element)
    requires c.ValidOrder() && ValidElement(c, pair.hiding) && ValidElement(c, pair.binding) && ValidScalar(c, rho)
    ensures fresh(contrib) && ValidElement(c, contrib)
    ensures Cong(c.n, contrib.k, pair.hiding.k + rho.v * pair.binding.k)
  {
    contrib := pair.hiding.Copy();
    var bound := pair.binding.Copy();
    bound.Multiply(rho);
    contrib.Add(bound);
    Commute(pair.binding.k, rho.v);
    ContributionCong(c.n, pair.hiding.k, rho.v * pair.binding.k);
  }

  lemma NonceStep(c: Curve, cs: seq<Commitment>, rho: map<nat, nat>, i: nat, contrib: nat)
    requires c.n > 0 && i < |cs| && Cong(c.n, contrib, NonceTerm(rho, cs[i]))
    ensures (NonceSum(c, cs[..i], rho) + contrib) % c.n == NonceSum(c, cs[..i + 1], rho)
  {
    var term := (x: Commitment) => NonceTerm(rho, x);
    assert cs[..i + 1][..i] == cs[..i];
    CongMod(c.n, Sum(cs[..i], term));
    CongAdd(c.n, NonceSum(c, cs[..i], rho), Sum(cs[..i], term), contrib, NonceTerm(rho, cs[i]));
  }

  method ComputeBIP340Challenge(c: Curve, rEvenY: Element, jointPubkey: Element, message: seq<byte>)
    returns (r: Result<Scalar, FrostError>)
    requires c.Valid() && ValidElement(c, rEvenY) && ValidElement(c, jointPubkey)
    ensures r == Err(OddNoncePoint) <==> !(|c.encode(rEvenY.k)| == 33 && c.EvenY(rEvenY.k))
    ensures r.Err? ==> r.error in {OddNoncePoint, BadEncoding}
    ensures r == Err(BadEncoding) <==>
      |c.encode(rEvenY.k)| == 33 && c.EvenY(rEvenY.k) && |c.encode(jointPubkey.k)| != 33
    ensures r.Ok? ==>
      && fresh(r.value) && ValidScalar(c, r.value)
      && r.value.v == c.Challenge(c.XOnly(rEvenY.k), c.XOnly(jointPubkey.k), message)
      && |c.encode(jointPubkey.k)| == 33
      && HashOfChallenge(c, r.value.v, rEvenY.k, jointPubkey.k, message)
  {
    var rEncoded := c.encode(rEvenY.k);
    if |rEncoded| != 33 || rEncoded[0] != 2 {
      return Err(OddNoncePoint);
    }
    var pEncoded := c.encode(jointPubkey.k);
    if |pEncoded| != 33 {
      return Err(BadEncoding);
    }
    var input := rEncoded[1..] + pEncoded[1..] + message;
    var s := new Scalar(c.n, c.challengeHash(input));
    assert input[..32] == rEncoded[1..] && input[32..64] == pEncoded[1..] && input[64..] == message;
    return Ok(s);
  }

  // ----- partial signatures

  method NegateScalar(c: Curve, s: Scalar) returns (r: Scalar)
    requires c.ValidOrder() && ValidScalar(c, s)
    ensures fresh(r) && ValidScalar(c, r) && r.v == (0 - s.v) % c.n
  {
    r := new Scalar(c.n, 0);
    ResidueMod(c.n, 0);
    r.Subtract(s);
  }

  method ComputePartialSignature(c: Curve, nonceHiding: Scalar, nonceBinding: Scalar, rho: Scalar, rEvenY: bool,
                                 share: Scalar, pubkeyEvenY: bool, coeff: Scalar, challenge: Scalar)
    returns (z: Scalar)
    requires c.ValidOrder() && ValidScalar(c, nonceHiding) && ValidScalar(c, nonceBinding) && ValidScalar(c, rho)
    requires ValidScalar(c, share) && ValidScalar(c, coeff) && ValidScalar(c, challenge)
    ensures fresh(z) && ValidScalar(c, z)
    ensures z.v == PartialSignature(c, nonceHiding.v, nonceBinding.v, rho.v, rEvenY, share.v, pubkeyEvenY,
                                    coeff.v, challenge.v)
  {
    var nonceContrib := SignedNonce(c, nonceHiding, nonceBinding, rho, rEvenY);
    var shareEff := SignedShare(c, share, pubkeyEvenY);
    var term := coeff.Copy();
    term.Multiply(shareEff);
    term.Multiply(challenge);
    PartialCong(c.n, nonceContrib.v, Sign(rEvenY) * (nonceHiding.v + rho.v * nonceBinding.v),
      coeff.v, shareEff.v, Sign(pubkeyEvenY), share.v, challenge.v);
    nonceContrib.Add(term);
    z := nonceContrib;
  }

  // d_i + rho_i * e_i, negated if R had odd y.
  method SignedNonce(c: Curve, nonceHiding: Scalar, nonceBinding: Scalar, rho: Scalar, rEvenY: bool) returns (k: Scalar)
    requires c.ValidOrder() && ValidScalar(c, nonceHiding) && ValidScalar(c, nonceBinding) && ValidScalar(c, rho)
    ensures fresh(k) && ValidScalar(c, k)
    ensures Cong(c.n, k.v, Sign(rEvenY) * (nonceHiding.v + rho.v * nonceBinding.v))
  {
    k := nonceHiding.Copy();
    var bound := rho.Copy();
    bound.Multiply(nonceBinding);
    k.Add(bound);
    ContributionCong(c.n, nonceHiding.v, rho.v * nonceBinding.v);
    if !rEvenY {
      NegationCong(c.n, k.v, nonceHiding.v + rho.v * nonceBinding.v);
      k := NegateScalar(c, k);
    }
  }

  // s_i, negated if the joint key has odd y.
  method SignedShare(c: Curve, share: Scalar, pubkeyEvenY: bool) returns (s: Scalar)
    requires c.ValidOrder() && ValidScalar(c, share)
    ensures fresh(s) && ValidScalar(c, s) && Cong(c.n, s.v, Sign(pubkeyEvenY) * share.v)
  {
    s := share.Copy();
    if !pubkeyEvenY {
      NegationCong(c.n, share.v, share.v);
      s := NegateScalar(c, s);
    }
  }

  lemma ContributionCong(n: nat, d: int, product: int)
    requires n > 0
    ensures Cong(n, (d + product % n) % n, d + product)
  {
    CongMod(n, product);
    CongAdd(n, d, d, product % n, product);
    CongMod(n, d + product % n);
  }

  lemma NegationCong(n: nat, v: nat, exact: int)
    requires n > 0 && Cong(n, v, exact)
    ensures Cong(n, (0 - v) % n, -1 * exact)
  {
    CongMod(n, 0 - v);
    CongMul(n, -1, -1, v, exact);
    assert -1 * v == 0 - v;
  }

  lemma PartialCong(n: nat, nonce: nat, nonceExact: int, coeff: nat, shareEff: nat, sign: int, share: nat,
                    challenge: nat)
    requires n > 0 && Cong(n, nonce, nonceExact) && Cong(n, shareEff, sign * share)
    ensures (nonce + (((coeff * shareEff) % n) * challenge) % n) % n
         == (nonceExact + (sign * challenge) * (coeff * share)) % n
  {
    var product := (coeff * shareEff) % n;
    CongMod(n, coeff * shareEff);
    CongMul(n, coeff, coeff, shareEff, sign * share);
    CongMul(n, product, coeff * (sign * share), challenge, challenge);
    CongMod(n, product * challenge);
    SignFactor(coeff, sign, share, challenge);
    CongAdd(n, nonce, nonceExact, (product * challenge) % n, (sign * challenge) * (coeff * share));
  }

  lemma SignFactor(coeff: int, sign: int, share: int, challenge: int)
    ensures (coeff * (sign * share)) * challenge == (sign * challenge) * (coeff * share)
  {
    assert coeff * (sign * share) == sign * (coeff * share);
    assert (sign * (coeff * share)) * challenge == (sign * challenge) * (coeff * share);
  }

  // ----- the state shared by all signers, and aggregation

  datatype SessionForSigning = SessionForSigning(
    id: nat, allIDs: seq<nat>, commitments: seq<NonceCommitmentPair>, jointPubkey: Element, message: seq<byte>)

  datatype Signable = Signable(
    bindingFactors: map<nat, Scalar>, R: Element, rEvenY: bool, challenge: Scalar, coeff: Scalar, pubkeyEvenY: bool)

  // The public quantities of one ceremony, as a function of the commitments alone.
  ghost predicate Prepared(c: Curve, s: Signable, p: nat, message: seq<byte>, cs: seq<Commitment>)
    requires 0 < c.n
    reads s.bindingFactors.Values, s.R, s.challenge, s.coeff
  {
    var rho := BindingFactors(c, p, message, cs);
    var r := NonceSum(c, cs, rho);
    && HoldsFactors(c, s.bindingFactors, rho)
    && ValidElement(c, s.R) && s.R.k == c.EvenLift(r) && s.rEvenY == c.EvenY(r)
    && ValidScalar(c, s.challenge) && s.challenge.v == c.Challenge(c.XOnly(s.R.k), c.XOnly(p), message)
    && ValidScalar(c, s.coeff)
    && s.pubkeyEvenY == c.EvenY(p)
  }

  method PrepareSignable(c: Curve, s: SessionForSigning, ghost cs: seq<Commitment>)
    returns (r: Result<Signable, FrostError>)
    requires c.Valid() && ValidElement(c, s.jointPubkey) && Holds(c, s.commitments, cs)
    requires s.id < 65536 && forall i :: 0 <= i < |s.allIDs| ==> s.allIDs[i] < 65536
    ensures var p := s.jointPubkey.k;
            r.Ok? ==>
              && Prepared(c, r.value, p, s.message, cs)
              && r.value.coeff.v == Lagrange(c.n, s.id, s.allIDs) % c.n
    ensures r.Ok? ==>
      && (forall id :: id in r.value.bindingFactors ==> fresh(r.value.bindingFactors[id]))
      && fresh(r.value.R) && fresh(r.value.challenge) && fresh(r.value.coeff)
    ensures s.jointPubkey.k != 0 ==>
      (r.Ok? <==>
        && |s.message| == 32 && SortedById(cs)
        && NonceSum(c, cs, BindingFactors(c, s.jointPubkey.k, s.message, cs)) != 0)
  {
    var p := s.jointPubkey.k;
    EncodingOfLift(c, p);
    EncodingOfLift(c, NonceSum(c, cs, BindingFactors(c, p, s.message, cs)));
    var public := PrepareNonce(c, s, cs);
    if public.Err? {
      return Err(public.error);
    }
    hide IsPrime, BindingFactors, NonceSum, Lagrange, HoldsFactors, Curve.ValidEncoding, Curve.EvenLift,
      HashOfChallenge;
    var (factors, R, rEvenY) := public.value;
    var challenge := ComputeBIP340Challenge(c, R, s.jointPubkey, s.message);
    if challenge.Err? {
      return Err(challenge.error);
    }
    var coeff := LagrangeCoefficient(c, s.id, s.allIDs);
    var pEncoded := c.encode(p);
    return Ok(Signable(factors, R, rEvenY, challenge.value, coeff, |pEncoded| > 0 && pEncoded[0] == 2));
  }

  // The binding factors rho and the aggregate nonce under them, in its even-y form, with its parity before.
  ghost predicate IsPublicNonce(c: Curve, factors: map<nat, Scalar>, R: Element, rEvenY: bool, cs: seq<Commitment>,
                                rho: map<nat, nat>)
    requires c.n > 0
    reads R, factors.Values
  {
    && HoldsFactors(c, factors, rho) && ValidElement(c, R)
    && R.k == c.EvenLift(NonceSum(c, cs, rho)) && rEvenY == c.EvenY(NonceSum(c, cs, rho))
  }

  // The part of PrepareSignable that depends on all commitments: binding factors and aggregate nonce.
  method PrepareNonce(c: Curve, s: SessionForSigning, ghost cs: seq<Commitment>)
    returns (r: Result<(map<nat, Scalar>, Element, bool), FrostError>)
    requires c.Valid() && ValidElement(c, s.jointPubkey) && Holds(c, s.commitments, cs)
    ensures r.Ok? ==> fresh(r.value.1) && forall id :: id in r.value.0 ==> fresh(r.value.0[id])
    ensures r.Ok? ==>
      IsPublicNonce(c, r.value.0, r.value.1, r.value.2, cs, BindingFactors(c, s.jointPubkey.k, s.message, cs))
    ensures var rho := BindingFactors(c, s.jointPubkey.k, s.message, cs);
            r.Ok? <==>
              && |s.message| == 32 && SortedById(cs) && |c.encode(s.jointPubkey.k)| == 33
              && |c.encode(NonceSum(c, cs, rho))| == 33
  {
    ghost var rho := BindingFactors(c, s.jointPubkey.k, s.message, cs);
    EncodingOfLift(c, NonceSum(c, cs, rho));
    assert forall x :: x in cs ==> x.id in rho;
    hide IsPrime, BindingFactors, NonceSum, SortedById, HoldsFactors, Curve.ValidEncoding, Curve.EvenLift,
      Holds, FactorsOfViews, Curve.NegationFlipsParity, Curve.HasPointEncoding, Curve.FitsScalar;
    var factors := ComputeBindingFactors(c, s.jointPubkey, s.message, s.commitments, cs);
    if factors.Err? {
      return Err(factors.error);
    }
    var nonce := AggregateNonceCommitment(c, s.commitments, factors.value, cs, rho);
    if nonce.Err? {
      return Err(nonce.error);
    }
    return Ok((factors.value, nonce.value.0, nonce.value.1));
  }

  // Only the identity has no point encoding, before and after normalisation.
  lemma EncodingOfLift(c: Curve, k: nat)
    requires c.Valid() && k < c.n
    ensures k != 0 <==> c.HasPointEncoding(k)
    ensures k != 0 <==> |c.encode(c.EvenLift(k))| == 33 && c.EvenY(c.EvenLift(k))
  {
    if k != 0 {
      c.EvenLiftIsEven(k);
      assert c.NegationFlipsParity(k) && c.NegationFlipsParity(c.EvenLift(k));
    } else {
      CongOfMultiple(c.n, c.n, 0, 1);
      ResidueMod(c.n, 0);
    }
  }

  // The partials hold the values zs.
  method AggregatePartialSignatures(c: Curve, partials: seq<Scalar>, ghost zs: seq<nat>) returns (zBytes: seq<byte>)
    requires c.ValidOrder() && |zs| == |partials|
    requires forall i :: 0 <= i < |partials| ==> ValidScalar(c, partials[i]) && zs[i] == partials[i].v
    ensures zBytes == BigEndian(Sum(zs, (z: nat) => z) % c.n, 32)
  {
    var z := new Scalar(c.n, 0);
    ResidueMod(c.n, 0);
    for i := 0 to |partials|
      invariant fresh(z) && ValidScalar(c, z)
      invariant z.v == Sum(zs[..i], (z: nat) => z) % c.n
    {
      var sum := Sum(zs[..i], (z: nat) => z);
      assert zs[..i + 1][..i] == zs[..i];
      CongMod(c.n, sum);
      CongAdd(c.n, z.v, sum, zs[i], zs[i]);
      z.Add(partials[i]);
    }
    assert zs[..|zs|] == zs;
    zBytes := BigEndian(z.v, 32);
  }

  method EncodeBIP340Signature(c: Curve, rEvenY: Element, zBytes: seq<byte>) returns (r: Result<seq<byte>, FrostError>)
    requires c.Valid() && ValidElement(c, rEvenY)
    ensures r.Ok? <==> |c.encode(rEvenY.k)| == 33 && c.EvenY(rEvenY.k) && |zBytes| == 32
    ensures r.Ok? ==> |r.value| == 64 && r.value[..32] == c.XOnly(rEvenY.k) && r.value[32..] == zBytes
  {
    var rEncoded := c.encode(rEvenY.k);
    if |rEncoded| != 33 || rEncoded[0] != 2 {
      return Err(OddNoncePoint);
    }
    if |zBytes| != 32 {
      return Err(BadEncoding);
    }
    return Ok(rEncoded[1..] + zBytes);
  }

  method AggregateFullSignature(c: Curve, sig: Signable, partials: seq<Scalar>, ghost zs: seq<nat>)
    returns (r: Result<seq<byte>, FrostError>)
    requires c.Valid() && ValidElement(c, sig.R) && |zs| == |partials|
    requires forall i :: 0 <= i < |partials| ==> ValidScalar(c, partials[i]) && zs[i] == partials[i].v
    ensures r.Ok? <==> |c.encode(sig.R.k)| == 33 && c.EvenY(sig.R.k)
    ensures r.Ok? ==> r.value == c.XOnly(sig.R.k) + BigEndian(Sum(zs, (z: nat) => z) % c.n, 32)
  {
    var zBytes := AggregatePartialSignatures(c, partials, zs);
    r := EncodeBIP340Signature(c, sig.R, zBytes);
    if r.Ok? {
      assert r.value == r.value[..32] + r.value[32..];
    }
  }
}
