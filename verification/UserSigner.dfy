// The signer's side of the two-party signing ceremony with a user's device: participant 1 is the user,
// participant 2 the signer. A session holds its nonce pair until one completion attempt.
module UserSigner {
  import opened Wrappers
  import opened Bytes
  import opened PrimeField
  import opened Interpolation
  import opened EllipticCurve
  import opened SigningSpec
  import opened Bip340Frost
  import opened Coordinator

  const USER_INDEX: nat := 1
  const SIGNER_INDEX: nat := 2
  const COSIGN_TTL: int := 60

  datatype CosignError = SessionNotFound | BadInput | PrepareFailed(error: FrostError) | PartialMismatch
    | AggregateFailed(error: FrostError) | BadSignature

  // ----- checking a partial signature in public

  method FindCommitment(commitments: seq<NonceCommitmentPair>, id: nat) returns (found: Option<NonceCommitmentPair>)
    ensures found.None? <==> forall i :: 0 <= i < |commitments| ==> commitments[i].id != id
    ensures found.Some? ==>
      exists i :: 0 <= i < |commitments| && found.value == commitments[i] && commitments[i].id == id
  {
    for i := 0 to |commitments|
      invariant forall j :: 0 <= j < i ==> commitments[j].id != id
    {
      if commitments[i].id == id {
        return Some(commitments[i]);
      }
    }
    return None;
  }

  // z * G equals what the participant's commitment and verification share call for exactly when z is
  // the participant's partial signature, in every combination of the two parities.
  method VerifyPartialSignature(c: Curve, z: Scalar, pair: NonceCommitmentPair, rho: Scalar, rEvenY: bool,
                                challenge: Scalar, pubkeyEvenY: bool, coeff: Scalar, verificationShare: Element)
    returns (ok: bool)
    requires c.ValidOrder() && ValidScalar(c, z) && ValidElement(c, pair.hiding) && ValidElement(c, pair.binding)
    requires ValidScalar(c, rho) && ValidScalar(c, challenge) && ValidScalar(c, coeff)
    requires ValidElement(c, verificationShare)
    ensures ok <==> z.v == PartialSignature(c, pair.hiding.k, pair.binding.k, rho.v, rEvenY, verificationShare.k,
                                            pubkeyEvenY, coeff.v, challenge.v)
  {
    var zCopy := z.Copy();
    var lhs := BaseMultiply(zCopy);
    var nonceContribPt := SignedNoncePoint(c, pair, rho, rEvenY);
    var verifyContribPt := SignedVerificationPoint(c, challenge, pubkeyEvenY, coeff, verificationShare);
    ghost var nonce, share := nonceContribPt.k, verifyContribPt.k;
    var rhs := nonceContribPt.Copy();
    rhs.Add(verifyContribPt);
    ok := lhs.k == rhs.k;
    CongAdd(c.n, nonce, Sign(rEvenY) * (pair.hiding.k + rho.v * pair.binding.k),
      share, (Sign(pubkeyEvenY) * challenge.v) * (coeff.v * verificationShare.k));
  }

  method SignedNoncePoint(c: Curve, pair: NonceCommitmentPair, rho: Scalar, rEvenY: bool) returns (pt: Element)
    requires c.ValidOrder() && ValidElement(c, pair.hiding) && ValidElement(c, pair.binding) && ValidScalar(c, rho)
    ensures fresh(pt) && ValidElement(c, pt)
    ensures Cong(c.n, pt.k, Sign(rEvenY) * (pair.hiding.k + rho.v * pair.binding.k))
  {
    var rhoCopy := rho.Copy();
    pt := NonceContribution(c, pair, rhoCopy);
    if !rEvenY {
      NegatedPoint(c.n, pt.k, pair.hiding.k + rho.v * pair.binding.k);
      pt.Negate();
    }
  }

  method SignedVerificationPoint(c: Curve, challenge: Scalar, pubkeyEvenY: bool, coeff: Scalar,
                                 verificationShare: Element)
    returns (pt: Element)
    requires c.ValidOrder() && ValidScalar(c, challenge) && ValidScalar(c, coeff) && ValidElement(c, verificationShare)
    ensures fresh(pt) && ValidElement(c, pt)
    ensures Cong(c.n, pt.k, (Sign(pubkeyEvenY) * challenge.v) * (coeff.v * verificationShare.k))
  {
    var scalar := coeff.Copy();
    var challengeCopy := challenge.Copy();
    scalar.Multiply(challengeCopy);
    pt := verificationShare.Copy();
    pt.Multiply(scalar);
    ghost var exact := challenge.v * (coeff.v * verificationShare.k);
    WeightedShare(c.n, verificationShare.k, coeff.v, challenge.v);
    if !pubkeyEvenY {
      NegatedPoint(c.n, pt.k, exact);
      pt.Negate();
    }
    MulAssoc(Sign(pubkeyEvenY), challenge.v, coeff.v * verificationShare.k);
  }

  lemma NegatedPoint(n: nat, k: nat, exact: int)
    requires n > 0 && Cong(n, k, exact)
    ensures Cong(n, (n - k) % n, -1 * exact)
  {
    CongMod(n, n - k);
    CongOfMultiple(n, n - k, 0 - k, 1);
    CongMul(n, -1, -1, k, exact);
    assert -1 * k == 0 - k;
  }

  lemma WeightedShare(n: nat, share: int, coeff: int, challenge: int)
    requires n > 0
    ensures Cong(n, (share * ((coeff * challenge) % n)) % n, challenge * (coeff * share))
  {
    CongMod(n, coeff * challenge);
    CongMul(n, share, share, (coeff * challenge) % n, coeff * challenge);
    CongMod(n, share * ((coeff * challenge) % n));
    Commute(share, coeff * challenge);
    SwapFactors(coeff, challenge, share);
    Commute(coeff * share, challenge);
  }

  // ----- the two-party coefficients

  // The coefficients are 2 for the user and -1 for the signer.
  lemma TwoPartyCoefficients(c: Curve)
    requires c.ValidOrder()
    ensures Cong(c.n, Lagrange(c.n, 1, [1, 2]), 2) && Cong(c.n, Lagrange(c.n, 2, [1, 2]), -1)
  {
    var n := c.n;
    assert [1, 2][..1] == [1] && [1][..0] == [];
    assert Lagrange(n, 1, [1]) == Lagrange(n, 1, []) == 1;
    assert Lagrange(n, 2, [1]) == Lagrange(n, 2, []) * Fraction(n, 1, 2) == Fraction(n, 1, 2);
    FractionLaw(n, 2, 1);
    FractionLaw(n, 1, 2);
    assert Fraction(n, 2, 1) * (2 - 1) == Fraction(n, 2, 1);
    CongMul(n, -1, -1, Fraction(n, 1, 2) * (1 - 2), 1);
    assert -1 * (Fraction(n, 1, 2) * (1 - 2)) == Fraction(n, 1, 2);
  }

  // What the two shares interpolate to.
  lemma TwoPartySecret(c: Curve, user: Signer, signer: Signer)
    requires c.ValidOrder() && user.id == 1 && signer.id == 2
    ensures Cong(c.n, SharedSecret(c, [user, signer]), 2 * user.share - signer.share)
  {
    var signers := [user, signer];
    assert Ids(signers) == [1, 2];
    var weighted := (s: Signer) => Lagrange(c.n, s.id, Ids(signers)) * s.share;
    assert signers[..1] == [user] && [user][..0] == [];
    assert Sum(signers, weighted) == Sum([user], weighted) + weighted(signer);
    assert Sum([user], weighted) == Sum([], weighted) + weighted(user);
    TwoPartyCoefficients(c);
    CongMul(c.n, Lagrange(c.n, 1, [1, 2]), 2, user.share, user.share);
    CongMul(c.n, Lagrange(c.n, 2, [1, 2]), -1, signer.share, signer.share);
    CongAdd(c.n, weighted(user), 2 * user.share, weighted(signer), -1 * signer.share);
  }

  // Whether a user share and a signer share belong to the key p under these coefficients.
  ghost predicate SharesFitKey(c: Curve, userShare: nat, signerShare: nat, p: nat)
    requires c.n > 0
  {
    Cong(c.n, 2 * userShare - signerShare, p)
  }

  // An additive split of the key fits only if the user's part is twice the signer's.
  lemma AdditiveSplitFitsIff(c: Curve, userShare: nat, signerShare: nat)
    requires c.ValidOrder() && userShare < c.n && signerShare < c.n
    ensures SharesFitKey(c, userShare, signerShare, (userShare + signerShare) % c.n)
            <==> userShare == (2 * signerShare) % c.n
  {
    var n, sum := c.n, userShare + signerShare;
    CongMod(n, sum);
    CongMod(n, 2 * signerShare);
    if SharesFitKey(c, userShare, signerShare, sum % n) {
      CongAdd(n, 2 * userShare - signerShare, sum, signerShare - userShare, signerShare - userShare);
      CongResidues(n, userShare, (2 * signerShare) % n);
    }
    if userShare == (2 * signerShare) % n {
      CongAdd(n, userShare, 2 * signerShare, userShare - signerShare, userShare - signerShare);
    }
  }

  // Shares of two degree-one polynomials, one drawn by each party, always fit the joint key.
  lemma GeneratedSharesFit(c: Curve, f: seq<nat>, g: seq<nat>)
    requires c.ValidOrder() && |f| == |g| == 2
    ensures SharesFitKey(c, (Eval(f, 1) + Eval(g, 1)) % c.n, (Eval(f, 2) + Eval(g, 2)) % c.n, (f[0] + g[0]) % c.n)
  {
    var n := c.n;
    LinearValue(f);
    LinearValue(g);
    var u, s, p := Eval(f, 1) + Eval(g, 1), Eval(f, 2) + Eval(g, 2), f[0] + g[0];
    CongMod(n, u);
    CongMod(n, s);
    CongMod(n, p);
    CongMul(n, 2, 2, u % n, u);
    CongAdd(n, 2 * (u % n), 2 * u, s % n, s);
  }

  lemma LinearValue(f: seq<nat>)
    requires |f| == 2
    ensures Eval(f, 1) == f[0] + f[1] && Eval(f, 2) == f[0] + 2 * f[1]
  {
    assert f[1..] == [f[1]] && f[1..][1..] == [];
    assert Eval(f[1..], 1) == f[1] && Eval(f[1..], 2) == f[1];
  }

  // ----- cosigning sessions

  // What the caller assembles for one signature; a field that does not decode is none.
  datatype CosignSetup = CosignSetup(
    keyID: string, jointPubkey: Option<nat>, signerShare: Option<nat>, signerVerify: Option<nat>,
    userVerify: Option<nat>, eventHash: seq<byte>)

  datatype CosignSession = CosignSession(
    keyID: string, eventHash: seq<byte>, d: nat, e: nat, signerShare: nat, jointPubkey: nat,
    userVerify: nat, signerVerify: nat, expiresAt: int)
  {
    predicate Valid(c: Curve) {
      && |eventHash| == 32 && d < c.n && e < c.n && signerShare < c.n
      && 0 < jointPubkey < c.n && userVerify < c.n && signerVerify < c.n
    }
  }

  // The user's half of the second round, decoded where it decodes.
  datatype CosignInput = CosignInput(
    sessionID: string, userHiding: Option<nat>, userBinding: Option<nat>, userZ: Option<nat>)
  {
    predicate Valid(c: Curve) {
      && (userHiding.Some? ==> userHiding.value < c.n)
      && (userBinding.Some? ==> userBinding.value < c.n)
      && (userZ.Some? ==> userZ.value < c.n)
    }
  }

  // The two signers of a session: the user, known by public values only, and the signer.
  ghost function Parties(s: CosignSession, input: CosignInput): seq<Signer>
    requires input.userHiding.Some? && input.userBinding.Some?
  {
    [Signer(USER_INDEX, input.userHiding.value, input.userBinding.value, s.userVerify),
     Signer(SIGNER_INDEX, s.d, s.e, s.signerShare)]
  }

  ghost predicate NonceVanishes(c: Curve, s: CosignSession, input: CosignInput)
    requires c.n > 0 && input.userHiding.Some? && input.userBinding.Some?
  {
    CeremonyNonce(c, Parties(s, input), s.jointPubkey, s.eventHash) == 0
  }

  // The user's partial signature is the one the user's share calls for.
  ghost predicate UserPartialRight(c: Curve, s: CosignSession, input: CosignInput)
    requires c.n > 0 && input.userHiding.Some? && input.userBinding.Some? && input.userZ.Some?
  {
    var parties := Parties(s, input);
    input.userZ.value == CeremonyPartial(c, parties, s.jointPubkey, s.eventHash, parties[0])
  }

  ghost function CosignSignature(c: Curve, s: CosignSession, input: CosignInput): seq<byte>
    requires c.n > 0 && input.userHiding.Some? && input.userBinding.Some?
  {
    CeremonySignature(c, Parties(s, input), s.jointPubkey, s.eventHash)
  }

  // The challenge of the session's signature.
  ghost function CosignChallenge(c: Curve, s: CosignSession, input: CosignInput): nat
    requires c.n > 0 && input.userHiding.Some? && input.userBinding.Some?
  {
    var r := CeremonyNonce(c, Parties(s, input), s.jointPubkey, s.eventHash);
    c.Challenge(c.XOnly(c.EvenLift(r)), c.XOnly(s.jointPubkey), s.eventHash)
  }

  // The aggregate of an accepted user partial verifies exactly when the two shares fit the joint key.
  lemma CosignVerifiesIff(c: Curve, s: CosignSession, input: CosignInput)
    requires c.Valid() && s.Valid(c) && input.userHiding.Some? && input.userBinding.Some?
    requires !NonceVanishes(c, s, input)
    ensures c.Verifies(CosignSignature(c, s, input), s.eventHash, s.jointPubkey)
            <==> CosignChallenge(c, s, input) == 0 || SharesFitKey(c, s.userVerify, s.signerShare, s.jointPubkey)
  {
    hide IsPrime, Sum, NonceSum, BindingFactors, Aggregate, SharedSecret, Commit, Lagrange;
    var parties := Parties(s, input);
    var rho := BindingFactors(c, s.jointPubkey, s.eventHash, Commit(parties));
    TwoPartySecret(c, parties[0], parties[1]);
    AggregateVerifiesIff(c, parties, s.jointPubkey, s.eventHash, rho);
    var e := CosignChallenge(c, s, input);
    ResidueMod(c.n, 0);
    ResidueMod(c.n, e);
  }

  // What one completion attempt on a live session comes to.
  ghost predicate CosignOutcome(c: Curve, s: CosignSession, input: CosignInput, r: Result<seq<byte>, CosignError>)
    requires c.n > 0 && s.jointPubkey < c.n
  {
    if input.userHiding.None? || input.userBinding.None? then r == Err(BadInput)
    else if NonceVanishes(c, s, input) then r.Err? && r.error.PrepareFailed?
    else if input.userZ.None? then r == Err(BadInput)
    else if !UserPartialRight(c, s, input) then r == Err(PartialMismatch)
    else if c.Verifies(CosignSignature(c, s, input), s.eventHash, s.jointPubkey) then
      r == Ok(CosignSignature(c, s, input))
    else r == Err(BadSignature)
  }

  // The outcomes for which the signer's share and nonces were put to use.
  predicate NoncesUsed(r: Result<seq<byte>, CosignError>) {
    r.Ok? || r.error.BadSignature?
  }

  // Looks the user's commitment up and checks the user's partial with the user's own coefficient.
  method UserPartial(c: Curve, userZ: nat, commitments: seq<NonceCommitmentPair>, userVerify: nat, signable: Signable,
                     allIDs: seq<nat>, ghost parties: seq<Signer>, ghost p: nat, ghost message: seq<byte>)
    returns (ok: bool)
    requires c.ValidOrder() && userZ < c.n && userVerify < c.n && |parties| == 2 && allIDs == Ids(parties) == [1, 2]
    requires Holds(c, commitments, Commit(parties)) && parties[0].share == userVerify
    requires Prepared(c, signable, p, message, Commit(parties))
    ensures ok <==> userZ == CeremonyPartial(c, parties, p, message, parties[0])
  {
    hide IsPrime, Lagrange, NonceSum, PartialSignature, BindingFactor;
    assert commitments[0].id == USER_INDEX && commitments[1].id == SIGNER_INDEX;
    var found := FindCommitment(commitments, USER_INDEX);
    var pair := found.value;
    ghost var rho := BindingFactors(c, p, message, Commit(parties));
    assert Commit(parties)[0] in Commit(parties) && USER_INDEX in rho;
    hide BindingFactors;
    ok := CheckUserPartial(c, userZ, pair, userVerify, signable, allIDs);
    ReducedLambda(c, pair.hiding.k, pair.binding.k, rho[USER_INDEX], signable.rEvenY, userVerify, signable.pubkeyEvenY,
      Lagrange(c.n, USER_INDEX, allIDs), signable.challenge.v);
  }

  method CheckUserPartial(c: Curve, userZ: nat, pair: NonceCommitmentPair, userVerify: nat, signable: Signable,
                          allIDs: seq<nat>)
    returns (ok: bool)
    requires c.ValidOrder() && userZ < c.n && userVerify < c.n && allIDs == [1, 2]
    requires ValidElement(c, pair.hiding) && ValidElement(c, pair.binding) && ValidScalar(c, signable.challenge)
    requires USER_INDEX in signable.bindingFactors && ValidScalar(c, signable.bindingFactors[USER_INDEX])
    ensures ok <==> userZ == PartialSignature(c, pair.hiding.k, pair.binding.k, signable.bindingFactors[USER_INDEX].v,
                                              signable.rEvenY, userVerify, signable.pubkeyEvenY,
                                              Lagrange(c.n, USER_INDEX, allIDs) % c.n, signable.challenge.v)
  {
    hide IsPrime, Lagrange, PartialSignature;
    var z := new Scalar(c.n, userZ);
    var share := new Element(c.n, userVerify);
    ResidueMod(c.n, userZ);
    ResidueMod(c.n, userVerify);
    var userLambda := LagrangeCoefficient(c, USER_INDEX, allIDs);
    ok := VerifyPartialSignature(c, z, pair, signable.bindingFactors[USER_INDEX], signable.rEvenY, signable.challenge,
      signable.pubkeyEvenY, userLambda, share);
  }

  // The signer's own partial signature.
  method SignerHalf(c: Curve, s: CosignSession, signable: Signable, ghost parties: seq<Signer>) returns (z: Scalar)
    requires c.ValidOrder() && s.Valid(c) && |parties| == 2 && Ids(parties) == [1, 2]
    requires parties[1] == Signer(SIGNER_INDEX, s.d, s.e, s.signerShare)
    requires Prepared(c, signable, s.jointPubkey, s.eventHash, Commit(parties))
    requires signable.coeff.v == Lagrange(c.n, SIGNER_INDEX, [1, 2]) % c.n
    ensures fresh(z) && ValidScalar(c, z) && z.v == CeremonyPartial(c, parties, s.jointPubkey, s.eventHash, parties[1])
  {
    ghost var rho := BindingFactors(c, s.jointPubkey, s.eventHash, Commit(parties));
    assert Commit(parties)[1] in Commit(parties) && SIGNER_INDEX in rho;
    var d := new Scalar(c.n, s.d);
    var e := new Scalar(c.n, s.e);
    var share := new Scalar(c.n, s.signerShare);
    ResidueMod(c.n, s.d);
    ResidueMod(c.n, s.e);
    ResidueMod(c.n, s.signerShare);
    z := ComputePartialSignature(c, d, e, signable.bindingFactors[SIGNER_INDEX], signable.rEvenY, share,
      signable.pubkeyEvenY, signable.coeff, signable.challenge);
    ReducedLambda(c, s.d, s.e, rho[SIGNER_INDEX], signable.rEvenY, s.signerShare, signable.pubkeyEvenY,
      Lagrange(c.n, SIGNER_INDEX, [1, 2]), signable.challenge.v);
  }

  method MakeCommitment(c: Curve, id: nat, hiding: nat, binding: nat) returns (pair: NonceCommitmentPair)
    requires hiding < c.n && binding < c.n
    ensures fresh(pair.hiding) && fresh(pair.binding) && ValidElement(c, pair.hiding) && ValidElement(c, pair.binding)
    ensures pair.id == id && pair.hiding.k == hiding && pair.binding.k == binding
  {
    var h := new Element(c.n, hiding);
    var b := new Element(c.n, binding);
    ResidueMod(c.n, hiding);
    ResidueMod(c.n, binding);
    pair := NonceCommitmentPair(id, h, b);
  }

  // One completion attempt: the user's partial is checked before the signer's share is touched.
  method Cosign(c: Curve, s: CosignSession, input: CosignInput) returns (r: Result<seq<byte>, CosignError>)
    requires c.Valid() && s.Valid(c) && input.Valid(c)
    ensures CosignOutcome(c, s, input, r)
  {
    hide Cong, IsPrime, Sum, Lagrange, CeremonyPartial, CeremonyPartials;
    hide BindingFactors, NonceSum, Prepared, Curve.Verifies;
    if input.userHiding.None? || input.userBinding.None? {
      return Err(BadInput);
    }
    ghost var parties := Parties(s, input);
    var user := MakeCommitment(c, USER_INDEX, input.userHiding.value, input.userBinding.value);
    var signer := MakeCommitment(c, SIGNER_INDEX, s.d, s.e);
    var commitments, allIDs := [user, signer], [USER_INDEX, SIGNER_INDEX];
    assert Ids(parties) == allIDs;
    var joint := new Element(c.n, s.jointPubkey);
    ResidueMod(c.n, s.jointPubkey);
    var session := SessionForSigning(SIGNER_INDEX, allIDs, commitments, joint, s.eventHash);
    var prepared := PrepareSignable(c, session, Commit(parties));
    if prepared.Err? {
      return Err(CosignError.PrepareFailed(prepared.error));
    }
    var signable := prepared.value;
    if input.userZ.None? {
      return Err(BadInput);
    }
    var ok := UserPartial(c, input.userZ.value, commitments, s.userVerify, signable, allIDs,
      parties, s.jointPubkey, s.eventHash);
    if !ok {
      return Err(PartialMismatch);
    }
    r := CompletePartials(c, s, input, signable, parties);
  }

  // The rest of an attempt whose user partial was accepted: sign, aggregate, self-check.
  method CompletePartials(c: Curve, s: CosignSession, input: CosignInput, signable: Signable,
                          ghost parties: seq<Signer>)
    returns (r: Result<seq<byte>, CosignError>)
    requires c.Valid() && s.Valid(c) && input.Valid(c)
    requires input.userHiding.Some? && input.userBinding.Some? && input.userZ.Some? && parties == Parties(s, input)
    requires Prepared(c, signable, s.jointPubkey, s.eventHash, Commit(parties))
    requires signable.coeff.v == Lagrange(c.n, SIGNER_INDEX, [1, 2]) % c.n
    requires !NonceVanishes(c, s, input) && UserPartialRight(c, s, input)
    ensures r == if c.Verifies(CosignSignature(c, s, input), s.eventHash, s.jointPubkey)
                 then Ok(CosignSignature(c, s, input)) else Err(BadSignature)
  {
    hide Cong, IsPrime, Sum, Lagrange, CeremonyPartial, BindingFactors, Aggregate, Curve.Verifies;
    var userZ := new Scalar(c.n, input.userZ.value);
    ResidueMod(c.n, input.userZ.value);
    assert Ids(parties) == [1, 2];
    var signerZ := SignerHalf(c, s, signable, parties);
    ghost var zs := CeremonyPartials(c, parties, s.jointPubkey, s.eventHash);
    var sig := AggregateFullSignature(c, signable, [userZ, signerZ], zs);
    PartialsAggregate(c, parties, s.jointPubkey, s.eventHash);
    if sig.Err? {
      r := Err(CosignError.AggregateFailed(sig.error));
      EncodingOfLift(c, CeremonyNonce(c, parties, s.jointPubkey, s.eventHash));
      assert false;
      return;
    }
    if !c.Verifies(sig.value, s.eventHash, s.jointPubkey) {
      return Err(BadSignature);
    }
    return Ok(sig.value);
  }

  // ----- the session table

  class UserSignerCoordinator {
    const c: Curve
    var sessions: map<string, CosignSession>
    // the sessions whose nonces went into a partial signature of the signer, one entry a use
    ghost var used: seq<string>

    ghost predicate Valid()
      reads this
    {
      && c.Valid()
      && (forall id :: id in sessions ==> sessions[id].Valid(c))
      && (forall id :: id in sessions ==> id !in used)
      && (forall i, j :: 0 <= i < j < |used| ==> used[i] != used[j])
    }

    constructor (c: Curve)
      requires c.Valid()
      ensures Valid() && this.c == c && sessions == map[] && used == []
    {
      this.c, sessions, used := c, map[], [];
    }

    // Opens a session under a new id with a nonce pair; the commitments returned are its points.
    method BeginCosign(setup: CosignSetup, id: string, d: nat, e: nat, now: int)
      returns (r: Result<(string, nat, nat), CosignError>)
      requires Valid() && d < c.n && e < c.n && id !in sessions && id !in used
      requires setup.jointPubkey.Some? ==> 0 < setup.jointPubkey.value < c.n
      requires setup.signerShare.Some? ==> setup.signerShare.value < c.n
      requires setup.signerVerify.Some? ==> setup.signerVerify.value < c.n
      requires setup.userVerify.Some? ==> setup.userVerify.value < c.n
      modifies this
      ensures Valid() && used == old(used)
      ensures r == Err(BadInput) <==>
        |setup.eventHash| != 32 || setup.signerShare.None? || setup.jointPubkey.None? || setup.signerVerify.None?
        || setup.userVerify.None?
      ensures r.Err? ==> r.error == BadInput && sessions == old(sessions)
      ensures r.Ok? ==>
        && r.value == (id, d, e)
        && sessions == old(sessions)[id := CosignSession(
             setup.keyID, setup.eventHash, d, e, setup.signerShare.value, setup.jointPubkey.value,
             setup.userVerify.value, setup.signerVerify.value, now + COSIGN_TTL)]
    {
      if |setup.eventHash| != 32 || setup.signerShare.None? || setup.jointPubkey.None?
         || setup.signerVerify.None? || setup.userVerify.None?
      {
        return Err(BadInput);
      }
      var session := CosignSession(
        setup.keyID, setup.eventHash, d, e, setup.signerShare.value, setup.jointPubkey.value,
        setup.userVerify.value, setup.signerVerify.value, now + COSIGN_TTL);
      sessions := sessions[id := session];
      return Ok((id, d, e));
    }

    // The session is gone after any attempt, so its nonces are used at most once when the attempts on it do
    // not overlap.
    method CompleteCosign(input: CosignInput, now: int) returns (r: Result<seq<byte>, CosignError>)
      requires Valid() && input.Valid(c)
      modifies this
      ensures Valid() && sessions == old(sessions) - {input.sessionID}
      ensures var id := input.sessionID;
              if id in old(sessions) && now <= old(sessions)[id].expiresAt then
                && CosignOutcome(c, old(sessions)[id], input, r)
                && used == old(used) + if NoncesUsed(r) then [id] else []
              else r == Err(SessionNotFound) && used == old(used)
    {
      hide CosignOutcome;
      var session := LookUp(input.sessionID, now);
      if session.None? {
        return Err(SessionNotFound);
      }
      r := Cosign(c, session.value, input);
      if NoncesUsed(r) {
        used := used + [input.sessionID];
      }
      DropSession(input.sessionID);
    }

    // The first locked step of a completion; an expired session is dropped at once.
    method LookUp(id: string, now: int) returns (session: Option<CosignSession>)
      modifies this`sessions
      ensures session.Some? <==> id in old(sessions) && now <= old(sessions)[id].expiresAt
      ensures session.Some? ==> session.value == old(sessions)[id] && sessions == old(sessions)
      ensures session.None? ==> sessions == old(sessions) - {id}
    {
      if id !in sessions {
        return None;
      }
      var found := sessions[id];
      if now > found.expiresAt {
        sessions := sessions - {id};
        return None;
      }
      return Some(found);
    }

    // The last locked step.
    method DropSession(id: string)
      modifies this`sessions
      ensures sessions == old(sessions) - {id}
    {
      sessions := sessions - {id};
    }

    // Drops the expired sessions and nothing else.
    method GC(now: int) returns (dropped: nat)
      requires Valid()
      modifies this`sessions
      ensures Valid()
      ensures sessions == map id | id in old(sessions) && now <= old(sessions)[id].expiresAt :: old(sessions)[id]
      ensures dropped == |old(sessions)| - |sessions|
    {
      dropped := 0;
      var rest := sessions.Keys;
      ghost var before := sessions;
      while rest != {}
        invariant Valid() && rest <= sessions.Keys && dropped == |before| - |sessions|
        invariant forall id :: id in sessions ==> id in before && sessions[id] == before[id]
        invariant forall id :: id in before && now <= before[id].expiresAt ==> id in sessions
        invariant forall id :: id in sessions && id !in rest ==> now <= before[id].expiresAt
      {
        var id :| id in rest;
        rest := rest - {id};
        if now > sessions[id].expiresAt {
          MapWithout(sessions, id);
          sessions := sessions - {id};
          dropped := dropped + 1;
        }
      }
    }

    method SessionCount() returns (count: nat)
      ensures count == |sessions|
    {
      count := |sessions|;
    }
  }

  lemma MapWithout<K, V>(m: map<K, V>, k: K)
    requires k in m
    ensures |m - {k}| == |m| - 1
  {
    assert (m - {k}).Keys == m.Keys - {k};
  }

  // Shares from the two-party key generation never meet the self-check failure.
  lemma GeneratedSharesCosign(c: Curve, s: CosignSession, input: CosignInput, f: seq<nat>, g: seq<nat>,
                              r: Result<seq<byte>, CosignError>)
    requires c.Valid() && s.Valid(c) && input.Valid(c) && |f| == |g| == 2
    requires s.userVerify == (Eval(f, USER_INDEX) + Eval(g, USER_INDEX)) % c.n
    requires s.signerShare == (Eval(f, SIGNER_INDEX) + Eval(g, SIGNER_INDEX)) % c.n
    requires s.jointPubkey == (f[0] + g[0]) % c.n
    requires CosignOutcome(c, s, input, r)
    ensures r != Err(BadSignature) && (r.Ok? ==> c.Verifies(r.value, s.eventHash, s.jointPubkey))
  {
    hide SharesFitKey, CosignChallenge, CosignSignature, NonceVanishes, UserPartialRight;
    hide Eval, Cong, IsPrime, Curve.Verifies, Curve.ValidEncoding;
    if r == Err(BadSignature) {
      GeneratedSharesFit(c, f, g);
      CosignVerifiesIff(c, s, input);
      assert false;
    }
  }

  // What an honest device sends: the commitments of its nonces d and e, and the partial signature its share
  // calls for, when the aggregate nonce is not the identity.
  ghost predicate HonestUser(c: Curve, s: CosignSession, input: CosignInput, d: nat, e: nat)
    requires c.n > 0
  {
    var p, cs := s.jointPubkey, [Commitment(1, d, e), Commitment(2, s.d, s.e)];
    var rho := BindingFactors(c, p, s.eventHash, cs);
    var r := NonceSum(c, cs, rho);
    && r != 0 && input.userHiding == Some(d) && input.userBinding == Some(e)
    && input.userZ == Some(PartialSignature(c, d, e, FactorOf(rho, 1), c.EvenY(r), s.userVerify, c.EvenY(p),
                                            Lagrange(c.n, 1, [1, 2]),
                                            c.Challenge(c.XOnly(c.EvenLift(r)), c.XOnly(p), s.eventHash)))
  }

  // An honest device whose share fits the joint key gets a signature that verifies.
  lemma HonestUserSigns(c: Curve, s: CosignSession, input: CosignInput, d: nat, e: nat,
                        r: Result<seq<byte>, CosignError>)
    requires c.Valid() && s.Valid(c) && HonestUser(c, s, input, d, e) && CosignOutcome(c, s, input, r)
    requires SharesFitKey(c, s.userVerify, s.signerShare, s.jointPubkey)
    ensures r.Ok? && c.Verifies(r.value, s.eventHash, s.jointPubkey)
  {
    hide SharesFitKey, IsPrime, Curve.Verifies, Curve.ValidEncoding, BindingFactors, NonceSum, Lagrange;
    assert Commit(Parties(s, input)) == [Commitment(1, d, e), Commitment(2, s.d, s.e)];
    assert Ids(Parties(s, input)) == [1, 2];
    hide CosignChallenge, CosignSignature, PartialSignature;
    CosignVerifiesIff(c, s, input);
  }

  // A caller that names the joint key by its x-coordinate alone, with the prefix for an even y, gets a
  // signature exactly when the true key has an even y (or the challenge is zero).
  lemma EvenPrefixSignsIff(c: Curve, s: CosignSession, input: CosignInput, p: nat)
    requires c.Valid() && s.Valid(c) && input.userHiding.Some? && input.userBinding.Some?
    requires 0 < p < c.n && s.jointPubkey == c.EvenLift(p) && SharesFitKey(c, s.userVerify, s.signerShare, p)
    requires !NonceVanishes(c, s, input)
    ensures c.Verifies(CosignSignature(c, s, input), s.eventHash, s.jointPubkey)
            <==> CosignChallenge(c, s, input) == 0 || c.EvenY(p)
  {
    hide IsPrime, CosignSignature, NonceVanishes, CosignChallenge, Curve.Verifies, Curve.EvenLift, Curve.ValidEncoding;
    CosignVerifiesIff(c, s, input);
    c.EvenLiftIsEven(p);
    NotItsOwnNegative(c.n, p);
  }

  lemma NotItsOwnNegative(n: nat, p: nat)
    requires IsPrime(n) && 2 < n && 0 < p < n
    ensures !Cong(n, p, n - p)
  {
    assert !Divides(2, n);
    assert p != n - p;
    ResidueMod(n, p);
    ResidueMod(n, n - p);
  }
}
