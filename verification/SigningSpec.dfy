// What a BIP-340-mode threshold signature is, on values: commitments, binding factors, nonce
// aggregation, partial signatures, and the exact condition under which the aggregate verifies.
module SigningSpec {
  import opened Bytes
  import opened PrimeField
  import opened Interpolation
  import opened EllipticCurve

  // A participant's public nonce pair (D_i, E_i), as point indices.
  datatype Commitment = Commitment(id: nat, hiding: nat, binding: nat)

  // The secrets behind a partial signature: d_i and e_i are also the indices of D_i and E_i.
  datatype Signer = Signer(id: nat, d: nat, e: nat, share: nat)

  // ----- binding factors

  // "cloistr-frost-v1/binding" in ASCII
  const BINDING_DOMAIN: seq<byte> := [
    99, 108, 111, 105, 115, 116, 114, 45, 102, 114, 111, 115, 116, 45, 118, 49, 47,
    98, 105, 110, 100, 105, 110, 103]

  function EncodeCommitment(c: Curve, x: Commitment): seq<byte> {
    BigEndian(x.id, 2) + c.encode(x.hiding) + c.encode(x.binding)
  }

  function EncodeCommitments(c: Curve, cs: seq<Commitment>): seq<byte> {
    if cs == [] then []
    else EncodeCommitments(c, cs[..|cs| - 1]) + EncodeCommitment(c, cs[|cs| - 1])
  }

  function BindingInput(c: Curve, p: nat, message: seq<byte>, cs: seq<Commitment>, target: nat): seq<byte> {
    BINDING_DOMAIN + c.XOnly(p) + message + EncodeCommitments(c, cs) + BigEndian(target, 2)
  }

  function BindingFactor(c: Curve, p: nat, message: seq<byte>, cs: seq<Commitment>, target: nat): nat
    requires c.n > 0
  {
    c.bindingHash(BindingInput(c, p, message, cs, target)) % c.n
  }

  predicate SortedById(cs: seq<Commitment>) {
    forall i, j :: 0 <= i < j < |cs| ==> cs[i].id < cs[j].id
  }

  ghost predicate WellFormed(c: Curve, x: Commitment) {
    && x.id < 65536 && x.hiding < c.n && x.binding < c.n
    && |c.encode(x.hiding)| == 33 && |c.encode(x.binding)| == 33
  }

  ghost predicate AllWellFormed(c: Curve, cs: seq<Commitment>) {
    forall i :: 0 <= i < |cs| ==> WellFormed(c, cs[i])
  }

  lemma ConcatCancel(a: seq<byte>, b: seq<byte>, a': seq<byte>, b': seq<byte>)
    requires a + b == a' + b' && |a| == |a'|
    ensures a == a' && b == b'
  {
    assert (a + b)[..|a|] == a && (a' + b')[..|a'|] == a';
    assert (a + b)[|a|..] == b && (a' + b')[|a'|..] == b';
  }

  lemma TwoBytesInjective(i: nat, j: nat)
    requires i < 65536 && j < 65536 && BigEndian(i, 2) == BigEndian(j, 2)
    ensures i == j
  {
    assert Pow256(2) == 65536 by {
      assert Pow256(1) == 256 * Pow256(0);
    }
    BigEndianRoundTrip(i, 2);
    BigEndianRoundTrip(j, 2);
  }

  lemma {:induction false} EncodeCommitmentsLength(c: Curve, cs: seq<Commitment>)
    requires AllWellFormed(c, cs)
    ensures |EncodeCommitments(c, cs)| == 68 * |cs|
  {
    if cs != [] {
      EncodeCommitmentsLength(c, cs[..|cs| - 1]);
    }
  }

  lemma EncodeCommitmentInjective(c: Curve, x: Commitment, x': Commitment)
    requires c.Valid() && WellFormed(c, x) && WellFormed(c, x')
    requires EncodeCommitment(c, x) == EncodeCommitment(c, x')
    ensures x == x'
  {
    var id, id' := BigEndian(x.id, 2), BigEndian(x'.id, 2);
    var d, d' := c.encode(x.hiding), c.encode(x'.hiding);
    ConcatCancel(id + d, c.encode(x.binding), id' + d', c.encode(x'.binding));
    ConcatCancel(id, d, id', d');
    TwoBytesInjective(x.id, x'.id);
  }

  lemma {:induction false} EncodeCommitmentsInjective(c: Curve, cs: seq<Commitment>, cs': seq<Commitment>)
    requires c.Valid() && AllWellFormed(c, cs) && AllWellFormed(c, cs')
    requires EncodeCommitments(c, cs) == EncodeCommitments(c, cs')
    ensures cs == cs'
  {
    EncodeCommitmentsLength(c, cs);
    EncodeCommitmentsLength(c, cs');
    if cs != [] {
      var rest, last := cs[..|cs| - 1], cs[|cs| - 1];
      var rest', last' := cs'[..|cs'| - 1], cs'[|cs'| - 1];
      EncodeCommitmentsLength(c, rest);
      EncodeCommitmentsLength(c, rest');
      ConcatCancel(EncodeCommitments(c, rest), EncodeCommitment(c, last),
                   EncodeCommitments(c, rest'), EncodeCommitment(c, last'));
      EncodeCommitmentInjective(c, last, last');
      EncodeCommitmentsInjective(c, rest, rest');
      assert cs == rest + [last] && cs' == rest' + [last'];
    }
  }

  // Signers whose views differ in anything never hash the same input.
  lemma BindingInputInjective(
    c: Curve, p: nat, message: seq<byte>, cs: seq<Commitment>, target: nat,
    p': nat, message': seq<byte>, cs': seq<Commitment>, target': nat)
    requires c.Valid() && AllWellFormed(c, cs) && AllWellFormed(c, cs')
    requires |c.encode(p)| == |c.encode(p')| == 33 && |message| == |message'| == 32
    requires target < 65536 && target' < 65536
    requires BindingInput(c, p, message, cs, target) == BindingInput(c, p', message', cs', target')
    ensures c.XOnly(p) == c.XOnly(p') && message == message' && cs == cs' && target == target'
  {
    EncodeCommitmentsLength(c, cs);
    EncodeCommitmentsLength(c, cs');
    var x, x' := BINDING_DOMAIN + c.XOnly(p), BINDING_DOMAIN + c.XOnly(p');
    var list, list' := EncodeCommitments(c, cs), EncodeCommitments(c, cs');
    var id, id' := BigEndian(target, 2), BigEndian(target', 2);
    assert |x + message + list + id| == |x' + message' + list' + id'|;
    ConcatCancel(x + message + list, id, x' + message' + list', id');
    ConcatCancel(x + message, list, x' + message', list');
    ConcatCancel(x, message, x', message');
    ConcatCancel(BINDING_DOMAIN, c.XOnly(p), BINDING_DOMAIN, c.XOnly(p'));
    TwoBytesInjective(target, target');
    EncodeCommitmentsInjective(c, cs, cs');
  }

  // A commitment list is laid out entry by entry, 68 bytes each.
  predicate CommitmentAt(c: Curve, input: seq<byte>, at: nat, x: Commitment) {
    && at + 68 <= |input|
    && input[at..at + 2] == BigEndian(x.id, 2)
    && input[at + 2..at + 35] == c.encode(x.hiding) && input[at + 35..at + 68] == c.encode(x.binding)
  }

  // Where the parts of the view stand in the input that is hashed for a target id.
  ghost predicate BindingLayout(c: Curve, input: seq<byte>, p: nat, message: seq<byte>, cs: seq<Commitment>,
                                target: nat)
    requires |c.encode(p)| > 0
  {
    && |input| == 90 + 68 * |cs|
    && input[..24] == BINDING_DOMAIN && input[24..56] == c.encode(p)[1..] && input[56..88] == message
    && (forall i :: 0 <= i < |cs| ==> CommitmentAt(c, input, 88 + 68 * i, cs[i]))
    && input[88 + 68 * |cs|..] == BigEndian(target, 2)
  }

  // The factor is the binding hash, reduced, of an input laid out like that.
  ghost predicate HashOfView(c: Curve, factor: nat, p: nat, message: seq<byte>, cs: seq<Commitment>, target: nat)
    requires |c.encode(p)| > 0 && c.n > 0
  {
    exists input :: BindingLayout(c, input, p, message, cs, target) && factor == c.bindingHash(input) % c.n
  }

  lemma {:induction false} EncodedCommitmentAt(c: Curve, cs: seq<Commitment>, i: nat)
    requires AllWellFormed(c, cs) && i < |cs|
    ensures |EncodeCommitments(c, cs)| == 68 * |cs| && CommitmentAt(c, EncodeCommitments(c, cs), 68 * i, cs[i])
  {
    EncodeCommitmentsLength(c, cs);
    var rest, last := cs[..|cs| - 1], cs[|cs| - 1];
    EncodeCommitmentsLength(c, rest);
    if i < |rest| {
      hide CommitmentAt, EncodeCommitment;
      EncodedCommitmentAt(c, rest, i);
      CommitmentMoved(c, EncodeCommitments(c, rest), [], EncodeCommitment(c, last), 68 * i, cs[i]);
      assert [] + EncodeCommitments(c, rest) + EncodeCommitment(c, last) == EncodeCommitments(c, cs);
    } else {
      assert CommitmentAt(c, EncodeCommitment(c, last), 0, last);
      hide CommitmentAt, EncodeCommitment;
      CommitmentMoved(c, EncodeCommitment(c, last), EncodeCommitments(c, rest), [], 0, last);
      assert EncodeCommitments(c, rest) + EncodeCommitment(c, last) + [] == EncodeCommitments(c, cs);
    }
  }

  // An entry keeps its place relative to what is put before and after.
  lemma CommitmentMoved(c: Curve, list: seq<byte>, before: seq<byte>, after: seq<byte>, at: nat, x: Commitment)
    requires CommitmentAt(c, list, at, x)
    ensures CommitmentAt(c, before + list + after, |before| + at, x)
  {
    SliceMoved(list, before, after, at, at + 2);
    SliceMoved(list, before, after, at + 2, at + 35);
    SliceMoved(list, before, after, at + 35, at + 68);
  }

  lemma SliceMoved(list: seq<byte>, before: seq<byte>, after: seq<byte>, from: nat, to: nat)
    requires from <= to <= |list|
    ensures (before + list + after)[|before| + from..|before| + to] == list[from..to]
  {
    var whole := before + list + after;
    assert forall k :: 0 <= k < |list| ==> whole[|before| + k] == list[k];
    assert whole[|before| + from..|before| + to] == list[from..to];
  }

  lemma BindingInputLayout(c: Curve, p: nat, message: seq<byte>, cs: seq<Commitment>, target: nat)
    requires AllWellFormed(c, cs) && |c.encode(p)| == 33 && |message| == 32
    ensures BindingLayout(c, BindingInput(c, p, message, cs, target), p, message, cs, target)
  {
    var list, head, id := EncodeCommitments(c, cs), BINDING_DOMAIN + c.XOnly(p) + message, BigEndian(target, 2);
    var input := BindingInput(c, p, message, cs, target);
    EncodeCommitmentsLength(c, cs);
    assert input == head + list + id;
    assert input[..24] == BINDING_DOMAIN && input[24..56] == c.XOnly(p) && input[56..88] == message;
    assert input[88 + 68 * |cs|..] == id;
    forall i | 0 <= i < |cs|
      ensures CommitmentAt(c, input, 88 + 68 * i, cs[i])
    {
      EncodedCommitmentAt(c, cs, i);
      CommitmentMoved(c, list, head, id, 68 * i, cs[i]);
    }
  }

  lemma {:induction false} EncodedWithoutHash(c: Curve, c': Curve, cs: seq<Commitment>)
    requires c'.encode == c.encode
    ensures EncodeCommitments(c', cs) == EncodeCommitments(c, cs)
  {
    if cs != [] {
      EncodedWithoutHash(c, c', cs[..|cs| - 1]);
    }
  }

  // The hash that is 1 on one input only.
  function Only(input: seq<byte>): seq<byte> -> nat {
    x => if x == input then 1 else 0
  }

  lemma OnlyTells(n: nat, input: seq<byte>, input': seq<byte>)
    requires n > 1 && Only(input)(input) % n == Only(input)(input') % n
    ensures input' == input
  {
  }

  // Two views that get the same factor whatever the hash function are the same view.
  lemma BindingFactorTellsViewsApart(
    c: Curve, p: nat, message: seq<byte>, cs: seq<Commitment>, target: nat,
    p': nat, message': seq<byte>, cs': seq<Commitment>, target': nat)
    requires c.Valid() && AllWellFormed(c, cs) && AllWellFormed(c, cs')
    requires |c.encode(p)| == |c.encode(p')| == 33 && |message| == |message'| == 32
    requires target < 65536 && target' < 65536
    requires forall h: seq<byte> -> nat :: BindingFactor(c.(bindingHash := h), p, message, cs, target)
                                        == BindingFactor(c.(bindingHash := h), p', message', cs', target')
    ensures c.XOnly(p) == c.XOnly(p') && message == message' && cs == cs' && target == target'
  {
    var input, input' := BindingInput(c, p, message, cs, target), BindingInput(c, p', message', cs', target');
    var c1 := c.(bindingHash := Only(input));
    EncodedWithoutHash(c, c1, cs);
    EncodedWithoutHash(c, c1, cs');
    assert BindingInput(c1, p, message, cs, target) == input;
    assert BindingInput(c1, p', message', cs', target') == input';
    assert BindingFactor(c1, p, message, cs, target) == BindingFactor(c1, p', message', cs', target');
    OnlyTells(c.n, input, input');
    BindingInputInjective(c, p, message, cs, target, p', message', cs', target');
  }

  // The challenge is the challenge hash, reduced, of both x-coordinates and the message.
  ghost predicate HashOfChallenge(c: Curve, challenge: nat, r: nat, p: nat, message: seq<byte>)
    requires |c.encode(r)| == |c.encode(p)| == 33 && c.n > 0
  {
    exists input ::
      && challenge == c.challengeHash(input) % c.n
      && |input| == 64 + |message| && input[..32] == c.encode(r)[1..]
      && input[32..64] == c.encode(p)[1..] && input[64..] == message
  }

  // A challenge that is the same whatever the hash function is that of the same values.
  lemma ChallengeTellsApart(c: Curve, rx: seq<byte>, px: seq<byte>, message: seq<byte>,
                            rx': seq<byte>, px': seq<byte>, message': seq<byte>)
    requires c.ValidOrder() && |rx| == |rx'| == |px| == |px'| == 32
    requires forall h: seq<byte> -> nat :: c.(challengeHash := h).Challenge(rx, px, message)
                                        == c.(challengeHash := h).Challenge(rx', px', message')
    ensures rx == rx' && px == px' && message == message'
  {
    var input, input' := rx + px + message, rx' + px' + message';
    var c1 := c.(challengeHash := Only(input));
    assert c1.Challenge(rx, px, message) == c1.Challenge(rx', px', message');
    OnlyTells(c.n, input, input');
    ConcatCancel(rx + px, message, rx' + px', message');
    ConcatCancel(rx, px, rx', px');
  }

  // ----- nonces and partial signatures

  function FactorOf(rho: map<nat, nat>, id: nat): nat {
    if id in rho then rho[id] else 0
  }

  // The index of D_i + rho_i * E_i
  function NonceTerm(rho: map<nat, nat>, x: Commitment): int {
    x.hiding + FactorOf(rho, x.id) * x.binding
  }

  // R before its parity is normalised.
  function NonceSum(c: Curve, cs: seq<Commitment>, rho: map<nat, nat>): nat
    requires c.n > 0
  {
    Sum(cs, (x: Commitment) => NonceTerm(rho, x)) % c.n
  }

  function Sign(even: bool): int {
    if even then 1 else -1
  }

  // z_i: the nonce contribution and the share are negated exactly when R, respectively P, has odd y.
  function PartialSignature(c: Curve, d: int, e: int, rho: int, rEven: bool, share: int, pEven: bool,
                            coeff: int, challenge: int): nat
    requires c.n > 0
  {
    (Sign(rEven) * (d + rho * e) + (Sign(pEven) * challenge) * (coeff * share)) % c.n
  }

  // Each binding factor gives its own nonce: under two factors a partial is the same only if they are, or if
  // the binding nonce is zero.
  lemma FactorBindsNonce(c: Curve, d: int, e: int, rho: int, rho': int, rEven: bool, share: int, pEven: bool,
                         coeff: int, challenge: int)
    requires c.ValidOrder()
    ensures PartialSignature(c, d, e, rho, rEven, share, pEven, coeff, challenge)
         == PartialSignature(c, d, e, rho', rEven, share, pEven, coeff, challenge)
         <==> Cong(c.n, e, 0) || Cong(c.n, rho, rho')
  {
    var n, rest := c.n, (Sign(pEven) * challenge) * (coeff * share);
    hide IsPrime, Cong;
    SameShift(n, Sign(rEven) * (d + rho * e), Sign(rEven) * (d + rho' * e), rest);
    SameSign(n, rEven, d + rho * e, d + rho' * e);
    SameShift(n, rho * e, rho' * e, d);
    SameProduct(n, e, rho, rho');
  }

  lemma SameShift(n: nat, a: int, b: int, c: int)
    requires n > 0
    ensures (a + c) % n == (b + c) % n <==> Cong(n, a, b)
    ensures Cong(n, c + a, c + b) <==> Cong(n, a, b)
  {
    if Cong(n, a, b) {
      CongAdd(n, a, b, c, c);
    } else if Cong(n, a + c, b + c) {
      CongAdd(n, a + c, b + c, c, c);
      assert false;
    }
  }

  lemma SameSign(n: nat, even: bool, a: int, b: int)
    requires n > 0
    ensures Cong(n, Sign(even) * a, Sign(even) * b) <==> Cong(n, a, b)
  {
    if Cong(n, a, b) {
      CongMul(n, Sign(even), Sign(even), a, b);
    } else if Cong(n, Sign(even) * a, Sign(even) * b) {
      CongMul(n, Sign(even), Sign(even), Sign(even) * a, Sign(even) * b);
      assert false;
    }
  }

  lemma SameProduct(n: nat, e: int, a: int, b: int)
    requires IsPrime(n)
    ensures Cong(n, a * e, b * e) <==> Cong(n, e, 0) || Cong(n, a, b)
  {
    if Cong(n, e, 0) {
      CongMul(n, a, a, e, 0);
      CongMul(n, b, b, e, 0);
    } else if Cong(n, a, b) {
      CongMul(n, a, b, e, e);
    } else if Cong(n, e * a, e * b) {
      Cancel(n, e, a, b);
      assert false;
    }
  }

  function Ids(signers: seq<Signer>): (ids: seq<int>)
    ensures |ids| == |signers|
    ensures forall i :: 0 <= i < |signers| ==> ids[i] == signers[i].id
  {
    seq(|signers|, i requires 0 <= i < |signers| => signers[i].id)
  }

  function Commit(signers: seq<Signer>): (cs: seq<Commitment>)
    ensures |cs| == |signers|
    ensures forall i :: 0 <= i < |signers| ==> cs[i] == Commitment(signers[i].id, signers[i].d, signers[i].e)
  {
    seq(|signers|, i requires 0 <= i < |signers| => Commitment(signers[i].id, signers[i].d, signers[i].e))
  }

  function SignerPartial(c: Curve, s: Signer, ids: seq<int>, rho: map<nat, nat>, rEven: bool, pEven: bool,
                         challenge: int): nat
    requires c.n > 0
  {
    PartialSignature(c, s.d, s.e, FactorOf(rho, s.id), rEven, s.share, pEven, Lagrange(c.n, s.id, ids), challenge)
  }

  // The signature the ceremony outputs: x(R) followed by the sum of the partials.
  function Aggregate(c: Curve, signers: seq<Signer>, p: nat, message: seq<byte>, rho: map<nat, nat>): seq<byte>
    requires c.n > 0
  {
    var r := NonceSum(c, Commit(signers), rho);
    var rx := c.XOnly(c.EvenLift(r));
    var e := c.Challenge(rx, c.XOnly(p), message);
    var z := Sum(signers, (s: Signer) => SignerPartial(c, s, Ids(signers), rho, c.EvenY(r), c.EvenY(p), e)) % c.n;
    rx + BigEndian(z, 32)
  }

  // The group secret the shares stand for, when combined with their interpolating values.
  function SharedSecret(c: Curve, signers: seq<Signer>): int
    requires c.n > 0
  {
    Sum(signers, (s: Signer) => Lagrange(c.n, s.id, Ids(signers)) * s.share)
  }

  // ----- when the aggregate verifies

  lemma {:induction false} NonceSumOfSigners(signers: seq<Signer>, rho: map<nat, nat>)
    ensures Sum(Commit(signers), (x: Commitment) => NonceTerm(rho, x))
         == Sum(signers, (s: Signer) => s.d + FactorOf(rho, s.id) * s.e)
  {
    if signers != [] {
      NonceSumOfSigners(signers[..|signers| - 1], rho);
      assert Commit(signers)[..|signers| - 1] == Commit(signers[..|signers| - 1]);
    }
  }

  // z is congruent to (+-R) + challenge * (+-secret), whatever the parities.
  lemma SumOfPartials(c: Curve, signers: seq<Signer>, ids: seq<int>, rho: map<nat, nat>, rEven: bool, pEven: bool,
                      e: int)
    requires c.n > 0
    ensures Cong(c.n,
      Sum(signers, (s: Signer) => SignerPartial(c, s, ids, rho, rEven, pEven, e)),
      Sign(rEven) * NonceSum(c, Commit(signers), rho)
      + (Sign(pEven) * e) * Sum(signers, (s: Signer) => Lagrange(c.n, s.id, ids) * s.share))
  {
    var partial := (s: Signer) => SignerPartial(c, s, ids, rho, rEven, pEven, e);
    var nonce := (s: Signer) => s.d + FactorOf(rho, s.id) * s.e;
    var weighted := (s: Signer) => Lagrange(c.n, s.id, ids) * s.share;
    var whole := (s: Signer) => Sign(rEven) * nonce(s) + (Sign(pEven) * e) * weighted(s);
    forall s | s in signers
      ensures Cong(c.n, partial(s), whole(s))
    {
      CongMod(c.n, whole(s));
    }
    SumCong(c.n, signers, partial, whole);
    SumLinear(signers, Sign(rEven), nonce, Sign(pEven) * e, weighted, whole);
    NonceSumOfSigners(signers, rho);
    CongMod(c.n, Sum(signers, nonce));
    CongMul(c.n, Sign(rEven), Sign(rEven), NonceSum(c, Commit(signers), rho), Sum(signers, nonce));
    var rest := (Sign(pEven) * e) * Sum(signers, weighted);
    CongAdd(c.n, Sign(rEven) * NonceSum(c, Commit(signers), rho), Sign(rEven) * Sum(signers, nonce), rest, rest);
  }

  lemma EvenLiftCong(c: Curve, k: nat)
    requires c.n > 0 && k < c.n
    ensures Cong(c.n, c.EvenLift(k), Sign(c.EvenY(k)) * k)
  {
    if !c.EvenY(k) {
      CongMod(c.n, c.n - k);
      CongOfMultiple(c.n, c.n - k, 0 - k, 1);
    }
  }

  // What the verifier recomputes from the aggregate: R plus challenge times the error of the secret.
  lemma RecomputedNonce(n: nat, z: int, r: int, rLift: int, p: int, pLift: int, rSign: int, pSign: int, e: int,
                        secret: int)
    requires n > 0
    requires Cong(n, z, rSign * r + (pSign * e) * secret)
    requires Cong(n, rLift, rSign * r) && Cong(n, pLift, pSign * p)
    ensures Cong(n, z - e * pLift, rLift + (pSign * e) * (secret - p))
  {
    CongMul(n, e, e, pLift, pSign * p);
    CongAdd(n, z, rSign * r + (pSign * e) * secret, e * pLift, e * (pSign * p));
    assert rSign * r + (pSign * e) * secret - e * (pSign * p) == rSign * r + (pSign * e) * (secret - p) by {
      assert (pSign * e) * (secret - p) == (pSign * e) * secret - (pSign * e) * p;
      assert (pSign * e) * p == e * (pSign * p);
    }
    var error := (pSign * e) * (secret - p);
    CongAdd(n, rLift, rSign * r, error, error);
  }

  // The error term vanishes exactly when the challenge is zero or the secret is right.
  lemma ErrorVanishes(n: nat, pSign: int, e: int, secret: int, p: int)
    requires IsPrime(n) && (pSign == 1 || pSign == -1)
    ensures Cong(n, (pSign * e) * (secret - p), 0) <==> Cong(n, e, 0) || Cong(n, secret, p)
  {
    ResidueMod(n, 0);
    if Cong(n, e, 0) {
      CongMul(n, pSign * (secret - p), pSign * (secret - p), e, 0);
      assert (pSign * (secret - p)) * e == (pSign * e) * (secret - p);
    } else if Cong(n, secret, p) {
      CongAdd(n, secret, p, p, p);
      CongMul(n, pSign * e, pSign * e, secret - p, 0);
    } else if Cong(n, (pSign * e) * (secret - p), 0) {
      CongMul(n, pSign, pSign, (pSign * e) * (secret - p), 0);
      assert pSign * ((pSign * e) * (secret - p)) == e * (secret - p);
      assert Cong(n, e * (secret - p), e * 0);
      Cancel(n, e, secret - p, 0);
      CongAdd(n, secret - p, 0, p, p);
      assert false;
    }
  }

  // The aggregate of any signers verifies for the key p exactly when their shares interpolate to p's
  // secret, or the challenge happens to be zero. The four parity cases all reduce to this.
  lemma AggregateVerifiesIff(c: Curve, signers: seq<Signer>, p: nat, message: seq<byte>, rho: map<nat, nat>)
    requires c.Valid() && 0 < p < c.n && |message| == 32
    requires NonceSum(c, Commit(signers), rho) != 0
    ensures |Aggregate(c, signers, p, message, rho)| == 64
    ensures var rx := c.XOnly(c.EvenLift(NonceSum(c, Commit(signers), rho)));
            c.Verifies(Aggregate(c, signers, p, message, rho), message, p)
            <==> Cong(c.n, c.Challenge(rx, c.XOnly(p), message), 0) || Cong(c.n, SharedSecret(c, signers), p)
  {
    var n, r := c.n, NonceSum(c, Commit(signers), rho);
    var rLift, pLift := c.EvenLift(r), c.EvenLift(p);
    var rSign, pSign := Sign(c.EvenY(r)), Sign(c.EvenY(p));
    var e := c.Challenge(c.XOnly(rLift), c.XOnly(p), message);
    var secret := SharedSecret(c, signers);
    var zs := Sum(signers, (s: Signer) => SignerPartial(c, s, Ids(signers), rho, c.EvenY(r), c.EvenY(p), e));
    var z := zs % n;
    c.EvenLiftIsEven(r);
    c.EvenLiftIsEven(p);
    EvenLiftCong(c, r);
    EvenLiftCong(c, p);
    SumOfPartials(c, signers, Ids(signers), rho, c.EvenY(r), c.EvenY(p), e);
    CongMod(n, zs);
    RecomputedNonce(n, z, r, rLift, p, pLift, rSign, pSign, e, secret);
    SignatureLayout(c, rLift, z, message, p);
    var error, recomputed := (pSign * e) * (secret - p), z - e * pLift;
    VerifierDecides(c, rLift, error, recomputed);
    ErrorVanishes(n, pSign, e, secret, p);
  }

  // Encoding the even-Y point and the scalar loses nothing the verifier needs.
  lemma SignatureLayout(c: Curve, rLift: nat, z: nat, message: seq<byte>, p: nat)
    requires c.Valid() && 0 < rLift < c.n && z < c.n && 0 < p < c.n && |message| == 32
    ensures var signature := c.XOnly(rLift) + BigEndian(z, 32);
            var e := c.Challenge(c.XOnly(rLift), c.XOnly(p), message);
            && |signature| == 64
            && (c.Verifies(signature, message, p) <==>
                c.IsNonce(c.Recompute(z, e, p), c.XOnly(rLift)))
  {
    assert c.NegationFlipsParity(p) && c.NegationFlipsParity(rLift);
    var rx, zBytes := c.XOnly(rLift), BigEndian(z, 32);
    var signature := rx + zBytes;
    assert c.FitsScalar(z);
    assert signature[..32] == rx && signature[32..] == zBytes;
    assert c.NoncePoint(signature, message, p) == c.Recompute(z, c.Challenge(rx, c.XOnly(p), message), p);
  }

  // The recomputed point passes the final checks exactly when it is R itself.
  lemma VerifierDecides(c: Curve, rLift: nat, error: int, recomputed: int)
    requires c.Valid() && 0 < rLift < c.n && c.EvenY(rLift)
    requires Cong(c.n, recomputed, rLift + error)
    ensures c.IsNonce(recomputed % c.n, c.XOnly(rLift)) <==> Cong(c.n, error, 0)
  {
    var r := recomputed % c.n;
    CongMod(c.n, recomputed);
    if Cong(c.n, error, 0) {
      CongAdd(c.n, rLift, rLift, error, 0);
      CongResidues(c.n, r, rLift);
    } else if c.IsNonce(r, c.XOnly(rLift)) {
      c.PointOfEncoding(r, rLift);
      CongAdd(c.n, recomputed, rLift + error, rLift, rLift);
      CongAdd(c.n, recomputed, rLift, rLift, rLift);
      assert false;
    }
  }

  // Shares on one polynomial of degree below the number of signers: the ceremony always succeeds.
  lemma ThresholdSignatureVerifies(c: Curve, signers: seq<Signer>, coeffs: seq<int>, message: seq<byte>, rho: map<nat,
                                   nat>)
    requires c.Valid() && |message| == 32
    requires forall i, j :: 0 <= i < j < |signers| ==> signers[i].id != signers[j].id
    requires forall s :: s in signers ==> s.id < c.n && s.share == Eval(coeffs, s.id) % c.n
    requires |coeffs| <= |signers|
    requires Eval(coeffs, 0) % c.n != 0
    requires NonceSum(c, Commit(signers), rho) != 0
    ensures c.Verifies(Aggregate(c, signers, Eval(coeffs, 0) % c.n, message, rho), message, Eval(coeffs, 0) % c.n)
  {
    SecretOfShares(c, signers, coeffs);
    AggregateVerifiesIff(c, signers, Eval(coeffs, 0) % c.n, message, rho);
  }

  lemma SecretOfShares(c: Curve, signers: seq<Signer>, coeffs: seq<int>)
    requires c.Valid()
    requires forall i, j :: 0 <= i < j < |signers| ==> signers[i].id != signers[j].id
    requires forall s :: s in signers ==> s.id < c.n && s.share == Eval(coeffs, s.id) % c.n
    requires |coeffs| <= |signers|
    ensures Cong(c.n, SharedSecret(c, signers), Eval(coeffs, 0) % c.n)
  {
    var ids := Ids(signers);
    var f := (x: int) => Eval(coeffs, x);
    var weighted := (s: Signer) => Lagrange(c.n, s.id, ids) * s.share;
    var exact := (s: Signer) => Lagrange(c.n, s.id, ids) * f(s.id);
    forall s | s in signers
      ensures Cong(c.n, weighted(s), exact(s))
    {
      CongMod(c.n, f(s.id));
      CongMul(c.n, Lagrange(c.n, s.id, ids), Lagrange(c.n, s.id, ids), s.share, f(s.id));
    }
    SumCong(c.n, signers, weighted, exact);
    SumOverIds(signers, exact, x => Lagrange(c.n, x, ids) * f(x));
    InterpolationTheorem(c.n, ids, coeffs);
    CongMod(c.n, Eval(coeffs, 0));
  }

  lemma {:induction false} SumOverIds(signers: seq<Signer>, f: Signer -> int, g: int -> int)
    requires forall s :: s in signers ==> f(s) == g(s.id)
    ensures Sum(signers, f) == Sum(Ids(signers), g)
  {
    if signers != [] {
      SumOverIds(signers[..|signers| - 1], f, g);
      assert Ids(signers)[..|signers| - 1] == Ids(signers[..|signers| - 1]);
    }
  }
}
