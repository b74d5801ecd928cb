// The signer's side of the two-party key generation with a user's device: a table of short-lived
// sessions, each going from commitments through one exchanged share to a confirmed joint key. A session
// never changes a scalar or point it holds, so it holds their values.
module UserDkg {
  import opened Wrappers
  import opened Bytes
  import opened PrimeField
  import opened Interpolation
  import opened EllipticCurve
  import opened Bip340Frost
  import opened SecretSharing
  import opened UserSigner

  const DKG_SESSION_TTL: int := 60

  datatype Phase = AwaitingRound2 | AwaitingFinalize

  datatype DkgError = UserIDRequired | CommitCount | Undecodable | NoSession | WrongPhase
    | VerificationFail | PubkeyMismatch

  datatype FinalizeResult = FinalizeResult(
    sessionID: string, userID: string, jointPubkey: nat, signerShare: nat, verificationShare: nat,
    signerShareForUser: nat, userVerificationShare: string)

  // ----- what a session is worth, for the user's polynomial f and the signer's g

  function JointKey(c: Curve, f: seq<nat>, g: seq<nat>): nat
    requires c.n > 0 && |f| == |g| == 2
  {
    (f[0] + g[0]) % c.n
  }

  function FinalShare(c: Curve, f: seq<nat>, g: seq<nat>, index: nat): nat
    requires c.n > 0
  {
    (Eval(f, index) + Eval(g, index)) % c.n
  }

  predicate Residues(c: Curve, values: seq<nat>) {
    forall i :: 0 <= i < |values| ==> values[i] < c.n
  }

  method MakeScalars(c: Curve, values: seq<nat>) returns (scalars: seq<Scalar>)
    requires c.ValidOrder() && Residues(c, values)
    ensures HoldsScalars(c, scalars, values)
  {
    scalars := [];
    for i := 0 to |values|
      invariant |scalars| == i && forall j :: 0 <= j < i ==> ValidScalar(c, scalars[j]) && scalars[j].v == values[j]
    {
      ResidueMod(c.n, values[i]);
      var s := new Scalar(c.n, values[i]);
      scalars := scalars + [s];
    }
  }

  method MakeElements(c: Curve, values: seq<nat>) returns (elements: seq<Element>)
    requires c.ValidOrder() && Residues(c, values)
    ensures HoldsElements(c, elements, values)
  {
    elements := [];
    for i := 0 to |values|
      invariant |elements| == i && forall j :: 0 <= j < i ==> ValidElement(c, elements[j]) && elements[j].k == values[j]
    {
      ResidueMod(c.n, values[i]);
      var e := new Element(c.n, values[i]);
      elements := elements + [e];
    }
  }

  method EvaluateAt(c: Curve, coeffs: seq<nat>, index: nat) returns (value: nat)
    requires c.ValidOrder() && Residues(c, coeffs)
    ensures value == ShareAt(c, coeffs, index)
  {
    var scalars := MakeScalars(c, coeffs);
    var result := EvaluatePolynomial(c, scalars, index, coeffs);
    value := result.v;
  }

  method VerifyShare(c: Curve, share: nat, index: nat, commits: seq<nat>) returns (ok: bool)
    requires c.ValidOrder() && share < c.n && Residues(c, commits)
    ensures ok <==> share == ShareAt(c, commits, index)
  {
    ResidueMod(c.n, share);
    var scalar := new Scalar(c.n, share);
    var elements := MakeElements(c, commits);
    ok := VerifyShareAgainstCommitment(c, scalar, index, elements, commits);
  }

  lemma AddedShares(c: Curve, f: seq<nat>, g: seq<nat>)
    requires c.n > 0
    ensures (ShareAt(c, f, SIGNER_INDEX) + ShareAt(c, g, SIGNER_INDEX)) % c.n == FinalShare(c, f, g, SIGNER_INDEX)
    ensures ShareAt(c, g, USER_INDEX) == Eval(g, USER_INDEX) % c.n
  {
    var a, b := Eval(f, SIGNER_INDEX), Eval(g, SIGNER_INDEX);
    CongMod(c.n, a);
    CongMod(c.n, b);
    CongAdd(c.n, a % c.n, a, b % c.n, b);
  }

  // ----- one session

  class UserDKGState {
    const c: Curve
    const sessionID: string
    const userID: string
    const signerCoeffs: seq<nat>
    // the points of the user's commitments, by index; a commitment of f is f itself in this form
    const userCommits: seq<nat>
    const expiresAt: int

    var phase: Phase
    var signerShare: nat
    var signerShareForUser: nat
    var jointPubkey: nat

    ghost predicate Valid()
      reads this
    {
      && c.ValidOrder() && |userCommits| == |signerCoeffs| == 2
      && Residues(c, userCommits) && Residues(c, signerCoeffs)
      && (phase == AwaitingFinalize ==> HoldsKey())
    }

    // The signer's share f(2) + g(2), the user's evaluation g(1) and the joint key f(0) + g(0).
    ghost predicate HoldsKey()
      requires c.n > 0 && |userCommits| == |signerCoeffs| == 2
      reads this
    {
      && signerShare == FinalShare(c, userCommits, signerCoeffs, SIGNER_INDEX)
      && signerShareForUser == Eval(signerCoeffs, USER_INDEX) % c.n
      && jointPubkey == JointKey(c, userCommits, signerCoeffs)
    }

    constructor (c: Curve, sessionID: string, userID: string, signerCoeffs: seq<nat>, userCommits: seq<nat>,
                 expiresAt: int)
      requires c.ValidOrder() && |userCommits| == |signerCoeffs| == 2
      requires Residues(c, userCommits) && Residues(c, signerCoeffs)
      ensures Valid() && phase == AwaitingRound2 && this.c == c && this.sessionID == sessionID && this.userID == userID
      ensures this.signerCoeffs == signerCoeffs && this.userCommits == userCommits && this.expiresAt == expiresAt
    {
      this.c, this.sessionID, this.userID, this.expiresAt := c, sessionID, userID, expiresAt;
      this.signerCoeffs, this.userCommits := signerCoeffs, userCommits;
      phase, signerShare, signerShareForUser, jointPubkey := AwaitingRound2, 0, 0, 0;
    }

    // The second round's arithmetic, after the user's share was accepted.
    method Exchange(userShareForSigner: nat)
      requires Valid() && userShareForSigner == ShareAt(c, userCommits, SIGNER_INDEX)
      modifies this
      ensures Valid() && phase == AwaitingFinalize
    {
      hide Eval, IsPrime;
      var signerShareSelf := EvaluateAt(c, signerCoeffs, SIGNER_INDEX);
      var shareForUser := EvaluateAt(c, signerCoeffs, USER_INDEX);
      AddedShares(c, userCommits, signerCoeffs);
      signerShare := (userShareForSigner + signerShareSelf) % c.n;
      signerShareForUser := shareForUser;
      jointPubkey := (userCommits[0] + signerCoeffs[0]) % c.n;
      phase := AwaitingFinalize;
    }
  }

  // ----- the table

  class UserDKG {
    const c: Curve
    var sessions: map<string, UserDKGState>
    // the sessions that were finalized, one entry a time
    ghost var finalized: seq<string>

    ghost predicate Valid()
      reads this, sessions.Values
    {
      && c.ValidOrder()
      && (forall id :: id in sessions ==> sessions[id].Valid() && sessions[id].c == c && sessions[id].sessionID == id)
      && (forall id :: id in sessions ==> id !in finalized)
      && (forall i, j :: 0 <= i < j < |finalized| ==> finalized[i] != finalized[j])
    }

    constructor (c: Curve)
      requires c.ValidOrder()
      ensures Valid() && this.c == c && sessions == map[] && finalized == []
    {
      this.c, sessions, finalized := c, map[], [];
    }

    // Opens a session under a new id with a polynomial b0 + b1 * x; the reply carries its commitments.
    method Round1(userID: string, userCommits: seq<Option<nat>>, b0: nat, b1: nat, id: string, now: int)
      returns (r: Result<(string, seq<nat>), DkgError>)
      requires Valid() && b0 < c.n && b1 < c.n && id !in sessions && id !in finalized
      requires forall o :: o in userCommits && o.Some? ==> o.value < c.n
      modifies this
      ensures Valid() && finalized == old(finalized)
      ensures r == Err(UserIDRequired) <==> userID == ""
      ensures r == Err(CommitCount) <==> userID != "" && |userCommits| != 2
      ensures r == Err(Undecodable) <==> userID != "" && |userCommits| == 2 && None in userCommits
      ensures r.Err? ==> r.error in {UserIDRequired, CommitCount, Undecodable} && sessions == old(sessions)
      ensures r.Ok? ==>
        && r.value == (id, [b0, b1]) && id in sessions && fresh(sessions[id])
        && sessions == old(sessions)[id := sessions[id]] && sessions[id].phase == AwaitingRound2
        && sessions[id].userID == userID && sessions[id].expiresAt == now + DKG_SESSION_TTL
        && sessions[id].signerCoeffs == [b0, b1]
        && sessions[id].userCommits == [userCommits[0].value, userCommits[1].value]
    {
      if userID == "" {
        return Err(UserIDRequired);
      }
      if |userCommits| != 2 {
        return Err(CommitCount);
      }
      if userCommits[0].None? || userCommits[1].None? {
        return Err(Undecodable);
      }
      var state := new UserDKGState(c, id, userID, [b0, b1], [userCommits[0].value, userCommits[1].value],
        now + DKG_SESSION_TTL);
      sessions := sessions[id := state];
      return Ok((id, [b0, b1]));
    }

    ghost predicate Live(id: string, now: int)
      reads this, sessions.Values
    {
      id in sessions && now <= sessions[id].expiresAt
    }

    // The live session in the expected phase; an expired one is dropped, one in another phase kept.
    method GetSession(id: string, expected: Phase, now: int) returns (r: Result<UserDKGState, DkgError>)
      requires Valid()
      modifies this`sessions
      ensures Valid() && sessions == if old(Live(id, now)) then old(sessions) else old(sessions) - {id}
      ensures r == Err(NoSession) <==> !old(Live(id, now))
      ensures r == Err(WrongPhase) <==> old(Live(id, now)) && old(sessions[id].phase) != expected
      ensures r.Err? ==> r.error in {NoSession, WrongPhase}
      ensures r.Ok? ==> r.value == sessions[id]
    {
      if id !in sessions {
        return Err(NoSession);
      }
      var state := sessions[id];
      if now > state.expiresAt {
        sessions := sessions - {id};
        return Err(NoSession);
      }
      if state.phase != expected {
        return Err(WrongPhase);
      }
      return Ok(state);
    }

    // A right share moves the session on, a wrong one ends it, one that does not decode changes nothing.
    // No session leaves the phase it is in but the one named.
    method Round2(id: string, share: Option<nat>, now: int) returns (r: Result<nat, DkgError>)
      requires Valid() && (share.Some? ==> share.value < c.n)
      modifies this`sessions, sessions.Values
      ensures Valid()
      ensures sessions == if r in {Err(NoSession), Err(VerificationFail)} then old(sessions) - {id} else old(sessions)
      ensures r == Err(NoSession) <==> !old(Live(id, now))
      ensures r == Err(WrongPhase) <==> old(Live(id, now)) && old(sessions[id].phase) != AwaitingRound2
      ensures r == Err(Undecodable) <==> old(Live(id, now)) && old(sessions[id].phase) == AwaitingRound2 && share.None?
      ensures r.Ok? <==>
        && old(Live(id, now)) && old(sessions[id].phase) == AwaitingRound2
        && share == Some(ShareAt(c, old(sessions)[id].userCommits, SIGNER_INDEX))
      ensures r.Err? ==> r.error in {NoSession, WrongPhase, Undecodable, VerificationFail}
      ensures r.Ok? ==> r.value == Eval(sessions[id].signerCoeffs, USER_INDEX) % c.n
      ensures forall x :: x in sessions ==>
        sessions[x].phase == if r.Ok? && x == id then AwaitingFinalize else old(sessions[x].phase)
    {
      hide Eval, IsPrime;
      var found := GetSession(id, AwaitingRound2, now);
      if found.Err? {
        return Err(found.error);
      }
      var state := found.value;
      if share.None? {
        return Err(Undecodable);
      }
      var ok := VerifyShare(c, share.value, SIGNER_INDEX, state.userCommits);
      if !ok {
        sessions := sessions - {id};
        return Err(VerificationFail);
      }
      state.Exchange(share.value);
      return Ok(state.signerShareForUser);
    }

    // A session is handed out at most once, with the values both polynomials call for.
    method Finalize(id: string, confirm: Option<nat>, userVerificationShare: string, now: int)
      returns (r: Result<FinalizeResult, DkgError>)
      requires Valid() && (confirm.Some? ==> confirm.value < c.n)
      modifies this
      ensures Valid()
      ensures sessions == if r in {Err(WrongPhase), Err(Undecodable)} then old(sessions) else old(sessions) - {id}
      ensures finalized == old(finalized) + if r.Ok? then [id] else []
      ensures r == Err(NoSession) <==> !old(Live(id, now))
      ensures r == Err(WrongPhase) <==> old(Live(id, now)) && old(sessions[id].phase) != AwaitingFinalize
      ensures r == Err(Undecodable) <==>
        old(Live(id, now)) && old(sessions[id].phase) == AwaitingFinalize && confirm.None?
      ensures r.Ok? <==>
        && old(Live(id, now)) && old(sessions[id].phase) == AwaitingFinalize
        && confirm == Some(JointKey(c, old(sessions)[id].userCommits, old(sessions)[id].signerCoeffs))
      ensures r.Err? ==> r.error in {NoSession, WrongPhase, Undecodable, PubkeyMismatch}
      ensures r.Ok? ==>
        var s := old(sessions)[id];
        && r.value.sessionID == id && r.value.userID == s.userID
        && r.value.userVerificationShare == userVerificationShare
        && HandsOut(c, s.userCommits, s.signerCoeffs, r.value)
    {
      hide Eval, IsPrime;
      var found := GetSession(id, AwaitingFinalize, now);
      if found.Err? {
        return Err(found.error);
      }
      var state := found.value;
      if confirm.None? {
        return Err(Undecodable);
      }
      if confirm.value != state.jointPubkey {
        sessions := sessions - {id};
        return Err(PubkeyMismatch);
      }
      ResidueMod(c.n, state.signerShare);
      var share := new Scalar(c.n, state.signerShare);
      var verificationShare := BaseMultiply(share);
      sessions := sessions - {id};
      finalized := finalized + [id];
      return Ok(FinalizeResult(id, state.userID, state.jointPubkey, state.signerShare, verificationShare.k,
        state.signerShareForUser, userVerificationShare));
    }

    // Drops the expired sessions and nothing else.
    method GC(now: int) returns (dropped: nat)
      requires Valid()
      modifies this`sessions
      ensures Valid()
      ensures sessions == map id | id in old(sessions) && now <= old(sessions)[id].expiresAt :: old(sessions)[id]
      ensures dropped == |old(sessions)| - |sessions|
    {
      dropped := 0;
      var rest := sessions.Keys;
      ghost var before := sessions;
      while rest != {}
        invariant rest <= sessions.Keys && dropped == |before| - |sessions|
        invariant forall id :: id in sessions ==> id in before && sessions[id] == before[id]
        invariant forall id :: id in before && now <= before[id].expiresAt ==> id in sessions
        invariant forall id :: id in sessions && id !in rest ==> now <= before[id].expiresAt
      {
        var id :| id in rest;
        rest := rest - {id};
        if now > sessions[id].expiresAt {
          MapWithout(sessions, id);
          sessions := sessions - {id};
          dropped := dropped + 1;
        }
      }
    }
  }

  // What is handed out for the polynomials f and g.
  ghost predicate HandsOut(c: Curve, f: seq<nat>, g: seq<nat>, result: FinalizeResult)
    requires c.n > 0 && |f| == |g| == 2
  {
    && result.jointPubkey == JointKey(c, f, g)
    && result.signerShare == result.verificationShare == FinalShare(c, f, g, SIGNER_INDEX)
    && result.signerShareForUser == Eval(g, USER_INDEX) % c.n
  }

  // The user adds the evaluation the signer sent to the own one.
  function UserShare(c: Curve, f: seq<nat>, sent: nat): nat
    requires c.n > 0
  {
    (Eval(f, USER_INDEX) + sent) % c.n
  }

  // A finished session cosigns: the share it handed out and the one the user makes of the value sent to it
  // complete to a signature under the joint key it handed out.
  lemma FinalizedSessionCosigns(c: Curve, f: seq<nat>, g: seq<nat>, result: FinalizeResult, s: CosignSession,
                                input: CosignInput, r: Result<seq<byte>, CosignError>)
    requires c.Valid() && s.Valid(c) && input.Valid(c) && |f| == |g| == 2 && HandsOut(c, f, g, result)
    requires s.signerShare == result.signerShare && s.jointPubkey == result.jointPubkey
    requires s.userVerify == UserShare(c, f, result.signerShareForUser)
    requires CosignOutcome(c, s, input, r)
    ensures r != Err(BadSignature) && (r.Ok? ==> c.Verifies(r.value, s.eventHash, s.jointPubkey))
    ensures forall d, e :: HonestUser(c, s, input, d, e) ==> r.Ok?
  {
    hide Eval, UserShare, CosignOutcome, Curve.Verifies, Curve.ValidEncoding, HonestUser, SharesFitKey;
    UserShareIsFinal(c, f, g);
    GeneratedSharesCosign(c, s, input, f, g, r);
    GeneratedSharesFit(c, f, g);
    forall d, e | HonestUser(c, s, input, d, e)
      ensures r.Ok?
    {
      HonestUserSigns(c, s, input, d, e, r);
    }
  }

  // The user ends up with f(1) + g(1).
  lemma UserShareIsFinal(c: Curve, f: seq<nat>, g: seq<nat>)
    requires c.n > 0
    ensures UserShare(c, f, Eval(g, USER_INDEX) % c.n) == FinalShare(c, f, g, USER_INDEX)
  {
    var a, b := Eval(f, USER_INDEX), Eval(g, USER_INDEX);
    hide Eval;
    CongMod(c.n, b);
    CongAdd(c.n, a, a, b % c.n, b);
  }
}
