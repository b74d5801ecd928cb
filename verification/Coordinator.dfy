// The t-of-n signing ceremony with all shares local: nonces, the in-place sort of three parallel
// slices, one partial signature per participant, aggregation, and the final self-check.
module Coordinator {
  import opened Wrappers
  import opened Sequences
  import opened Bytes
  import opened PrimeField
  import opened Interpolation
  import opened EllipticCurve
  import opened SigningSpec
  import opened Bip340Frost

  datatype SignParticipant = SignParticipant(id: nat, d: Scalar, e: Scalar, D: Element, E: Element, secret: Scalar)

  // A decoded local key share.
  datatype KeyShare = KeyShare(id: nat, secret: Scalar)

  datatype SignError = MessageLength | InsufficientShares | PrepareFailed(error: FrostError)
    | AggregateFailed(error: FrostError) | SelfCheckFailed

  // ----- sorting three parallel slices

  datatype Row = Row(pair: NonceCommitmentPair, id: nat, participant: SignParticipant)

  ghost function Rows(pairs: seq<NonceCommitmentPair>, ids: seq<nat>, parts: seq<SignParticipant>): (rows: seq<Row>)
    requires |pairs| == |ids| == |parts|
    ensures |rows| == |pairs|
    ensures forall i :: 0 <= i < |rows| ==> rows[i] == Row(pairs[i], ids[i], parts[i])
  {
    seq(|pairs|, i requires 0 <= i < |pairs| => Row(pairs[i], ids[i], parts[i]))
  }

  ghost function AllRows(commitments: array<NonceCommitmentPair>, allIDs: array<nat>,
                         participants: array<SignParticipant>)
    : multiset<Row>
    requires commitments.Length == allIDs.Length == participants.Length
    reads commitments, allIDs, participants
  {
    multiset(Rows(commitments[..], allIDs[..], participants[..]))
  }

  // Exchanges two neighbouring rows.
  method SwapRows(commitments: array<NonceCommitmentPair>, allIDs: array<nat>, participants: array<SignParticipant>,
                  j: nat)
    requires 0 < j < commitments.Length == allIDs.Length == participants.Length
    modifies commitments, allIDs, participants
    ensures commitments[..] == Swapped(old(commitments[..]), j)
    ensures AllRows(commitments, allIDs, participants) == old(AllRows(commitments, allIDs, participants))
  {
    ghost var rows := Rows(commitments[..], allIDs[..], participants[..]);
    commitments[j - 1], commitments[j] := commitments[j], commitments[j - 1];
    allIDs[j - 1], allIDs[j] := allIDs[j], allIDs[j - 1];
    participants[j - 1], participants[j] := participants[j], participants[j - 1];
    assert Rows(commitments[..], allIDs[..], participants[..]) == Swapped(rows, j);
    SwapKeepsMultiset(rows, j);
  }

  ghost function Swapped<T>(s: seq<T>, j: nat): seq<T>
    requires 0 < j < |s|
  {
    s[j - 1 := s[j]][j := s[j - 1]]
  }

  lemma SwapKeepsMultiset<T>(s: seq<T>, j: nat)
    requires 0 < j < |s|
    ensures multiset(Swapped(s, j)) == multiset(s)
  {
  }

  ghost predicate AscendingExcept(pairs: seq<NonceCommitmentPair>, len: nat, j: int)
    requires len <= |pairs|
  {
    forall p, q :: 0 <= p < q < len && q != j ==> pairs[p].id <= pairs[q].id
  }

  lemma FirstInOrder(pairs: seq<NonceCommitmentPair>)
    ensures |pairs| >= 1 ==> AscendingExcept(pairs, 1, -1)
  {
  }

  lemma StillInOrder(pairs: seq<NonceCommitmentPair>, len: nat)
    requires len < |pairs| && AscendingExcept(pairs, len, -1)
    ensures AscendingExcept(pairs, len + 1, len)
  {
  }

  lemma AllInOrder(pairs: seq<NonceCommitmentPair>)
    requires AscendingExcept(pairs, |pairs|, -1) || |pairs| == 0
    ensures forall i, j :: 0 <= i < j < |pairs| ==> pairs[i].id <= pairs[j].id
  {
  }

  lemma SwapKeepsOrder(pairs: seq<NonceCommitmentPair>, len: nat, j: nat)
    requires 0 < j < len <= |pairs| && AscendingExcept(pairs, len, j) && pairs[j - 1].id > pairs[j].id
    ensures AscendingExcept(Swapped(pairs, j), len, j - 1)
  {
  }

  lemma SettledOrder(pairs: seq<NonceCommitmentPair>, len: nat, j: nat)
    requires j < len <= |pairs| && AscendingExcept(pairs, len, j)
    requires j == 0 || pairs[j - 1].id <= pairs[j].id
    ensures AscendingExcept(pairs, len, -1)
  {
  }

  method SortByParticipantID(commitments: array<NonceCommitmentPair>, allIDs: array<nat>,
                             participants: array<SignParticipant>)
    requires commitments.Length == allIDs.Length == participants.Length
    modifies commitments, allIDs, participants
    ensures AllRows(commitments, allIDs, participants) == old(AllRows(commitments, allIDs, participants))
    ensures forall i, j :: 0 <= i < j < commitments.Length ==> commitments[i].id <= commitments[j].id
  {
    hide AscendingExcept, Swapped, Rows, AllRows;
    ghost var before := AllRows(commitments, allIDs, participants);
    var i := 1;
    FirstInOrder(commitments[..]);
    while i < commitments.Length
      invariant 1 <= i && (i <= commitments.Length || commitments.Length == 0)
      invariant AllRows(commitments, allIDs, participants) == before
      invariant i <= commitments.Length ==> AscendingExcept(commitments[..], i, -1)
    {
      var j := i;
      StillInOrder(commitments[..], i);
      while j > 0 && commitments[j - 1].id > commitments[j].id
        invariant 0 <= j <= i
        invariant AllRows(commitments, allIDs, participants) == before
        invariant AscendingExcept(commitments[..], i + 1, j)
      {
        SwapKeepsOrder(commitments[..], i + 1, j);
        SwapRows(commitments, allIDs, participants, j);
        j := j - 1;
      }
      SettledOrder(commitments[..], i + 1, j);
      i := i + 1;
    }
    AllInOrder(commitments[..]);
  }

  // ----- the ceremony

  ghost predicate ValidParticipant(c: Curve, p: SignParticipant)
    reads p.d, p.e, p.D, p.E, p.secret
  {
    && p.id < 65536
    && ValidScalar(c, p.d) && ValidScalar(c, p.e) && ValidScalar(c, p.secret)
    && ValidElement(c, p.D) && ValidElement(c, p.E) && p.D.k == p.d.v && p.E.k == p.e.v
  }

  // The participants hold the values of the signers, and share no mutable state with anything older
  // than the ceremony except their secrets.
  ghost predicate HoldsSigners(c: Curve, parts: seq<SignParticipant>, signers: seq<Signer>)
    reads set p | p in parts :: p.d
    reads set p | p in parts :: p.e
    reads set p | p in parts :: p.D
    reads set p | p in parts :: p.E
    reads set p | p in parts :: p.secret
  {
    && |parts| == |signers|
    && forall i :: 0 <= i < |parts| ==>
         && ValidParticipant(c, parts[i])
         && signers[i] == Signer(parts[i].id, parts[i].d.v, parts[i].e.v, parts[i].secret.v)
  }

  ghost function SignersOf(parts: seq<SignParticipant>): (signers: seq<Signer>)
    reads set p | p in parts :: p.d
    reads set p | p in parts :: p.e
    reads set p | p in parts :: p.secret
    ensures |signers| == |parts|
    ensures forall i :: 0 <= i < |parts| ==>
      signers[i] == Signer(parts[i].id, parts[i].d.v, parts[i].e.v, parts[i].secret.v)
  {
    if parts == [] then []
    else
      var last := parts[|parts| - 1];
      SignersOf(parts[..|parts| - 1]) + [Signer(last.id, last.d.v, last.e.v, last.secret.v)]
  }

  // A fresh nonce pair for one participant.
  method MakeParticipant(c: Curve, local: KeyShare, nonce: (nat, nat)) returns (part: SignParticipant)
    requires c.ValidOrder() && local.id < 65536 && ValidScalar(c, local.secret)
    ensures ValidParticipant(c, part) && part.id == local.id && part.secret == local.secret
    ensures part.d.v == nonce.0 % c.n && part.e.v == nonce.1 % c.n
  {
    var d := new Scalar(c.n, nonce.0);
    var e := new Scalar(c.n, nonce.1);
    var D := BaseMultiply(d);
    var E := BaseMultiply(e);
    part := SignParticipant(local.id, d, e, D, E, local.secret);
  }

  method MakeParticipants(c: Curve, locals: seq<KeyShare>, nonces: seq<(nat, nat)>)
    returns (parts: seq<SignParticipant>, ghost signers: seq<Signer>)
    requires c.ValidOrder() && |nonces| >= |locals|
    requires forall i :: 0 <= i < |locals| ==> locals[i].id < 65536 && ValidScalar(c, locals[i].secret)
    ensures HoldsSigners(c, parts, signers) && |signers| == |locals|
    ensures forall i :: 0 <= i < |locals| ==>
      signers[i] == Signer(locals[i].id, nonces[i].0 % c.n, nonces[i].1 % c.n, locals[i].secret.v)
  {
    parts, signers := [], [];
    for i := 0 to |locals|
      invariant |signers| == i && HoldsSigners(c, parts, signers)
      invariant forall j :: 0 <= j < i ==>
        signers[j] == Signer(locals[j].id, nonces[j].0 % c.n, nonces[j].1 % c.n, locals[j].secret.v)
    {
      var part := MakeParticipant(c, locals[i], nonces[i]);
      parts := parts + [part];
      signers := signers + [Signer(part.id, part.d.v, part.e.v, part.secret.v)];
    }
  }

  // Puts the participants, their commitments and ids into slices and sorts the slices together.
  method SortRows(parts: seq<SignParticipant>)
    returns (sortedParts: seq<SignParticipant>, commitments: seq<NonceCommitmentPair>, allIDs: seq<nat>)
    ensures |sortedParts| == |commitments| == |allIDs|
    ensures multiset(Rows(commitments, allIDs, sortedParts)) == multiset(Rows(PairsOf(parts), IdsOf(parts), parts))
    ensures forall i, j :: 0 <= i < j < |commitments| ==> commitments[i].id <= commitments[j].id
  {
    var pairs, ids := PairsOf(parts), IdsOf(parts);
    var ca := new NonceCommitmentPair[|pairs|](i requires 0 <= i < |pairs| => pairs[i]);
    var ia := new nat[|ids|](i requires 0 <= i < |ids| => ids[i]);
    var pa := new SignParticipant[|parts|](i requires 0 <= i < |parts| => parts[i]);
    assert ca[..] == pairs && ia[..] == ids && pa[..] == parts;
    SortByParticipantID(ca, ia, pa);
    sortedParts, commitments, allIDs := pa[..], ca[..], ia[..];
  }

  function PairsOf(parts: seq<SignParticipant>): (pairs: seq<NonceCommitmentPair>)
    ensures |pairs| == |parts|
    ensures forall i :: 0 <= i < |parts| ==> pairs[i] == NonceCommitmentPair(parts[i].id, parts[i].D, parts[i].E)
  {
    seq(|parts|, i requires 0 <= i < |parts| => NonceCommitmentPair(parts[i].id, parts[i].D, parts[i].E))
  }

  function IdsOf(parts: seq<SignParticipant>): (ids: seq<nat>)
    ensures |ids| == |parts|
    ensures forall i :: 0 <= i < |parts| ==> ids[i] == parts[i].id
  {
    seq(|parts|, i requires 0 <= i < |parts| => parts[i].id)
  }

  // Every row of a permutation of the rows of parts describes one of parts.
  lemma RowsDescribeParts(parts: seq<SignParticipant>, pairs: seq<NonceCommitmentPair>, ids: seq<nat>,
                          after: seq<SignParticipant>)
    requires |pairs| == |ids| == |after|
    requires multiset(Rows(pairs, ids, after)) == multiset(Rows(PairsOf(parts), IdsOf(parts), parts))
    ensures |after| == |parts| && multiset(ids) == multiset(IdsOf(parts))
    ensures forall i :: 0 <= i < |after| ==>
      && after[i] in parts && ids[i] == after[i].id
      && pairs[i] == NonceCommitmentPair(after[i].id, after[i].D, after[i].E)
  {
    var rows, rows' := Rows(PairsOf(parts), IdsOf(parts), parts), Rows(pairs, ids, after);
    assert |rows| == |multiset(rows)| && |rows'| == |multiset(rows')|;
    forall i | 0 <= i < |after|
      ensures exists k :: 0 <= k < |parts| && rows'[i] == rows[k]
    {
      assert rows'[i] in multiset(rows') && rows'[i] in rows;
    }
    RenamedPermutation(rows, rows', (row: Row) => row.id);
    assert Renamed(rows, (row: Row) => row.id) == IdsOf(parts);
    assert Renamed(rows', (row: Row) => row.id) == ids;
  }

  // The sorted ceremony: slices in ascending id order, holding the values sorted.
  method SortParticipants(c: Curve, parts: seq<SignParticipant>, ghost signers: seq<Signer>)
    returns (sortedParts: seq<SignParticipant>, commitments: seq<NonceCommitmentPair>, allIDs: seq<nat>,
             ghost sorted: seq<Signer>)
    requires HoldsSigners(c, parts, signers)
    ensures HoldsSigners(c, sortedParts, sorted) && Holds(c, commitments, Commit(sorted)) && allIDs == Ids(sorted)
    ensures forall i, j :: 0 <= i < j < |sorted| ==> sorted[i].id <= sorted[j].id
    ensures |sorted| == |signers| && (forall s :: s in sorted ==> s in signers)
    ensures multiset(Ids(sorted)) == multiset(Ids(signers))
  {
    sortedParts, commitments, allIDs := SortRows(parts);
    RowsDescribeParts(parts, commitments, allIDs, sortedParts);
    sorted := SignersOf(sortedParts);
    assert Ids(signers) == IdsOf(parts);
  }

  // ----- signing a message

  // signers are the given shares, each with its own nonces, in ascending id order.
  ghost predicate Chosen(c: Curve, signers: seq<Signer>, shares: seq<KeyShare>, nonces: seq<(nat, nat)>)
    requires c.n > 0 && |nonces| >= |shares|
    reads set s | s in shares :: s.secret
  {
    && |signers| == |shares|
    && (forall i, j :: 0 <= i < j < |signers| ==> signers[i].id <= signers[j].id)
    && multiset(Ids(signers)) == multiset(ShareIds(shares))
    && forall s :: s in signers ==> exists i :: 0 <= i < |shares| && s == SignerOf(c, shares[i], nonces[i])
  }

  ghost function SignerOf(c: Curve, share: KeyShare, nonce: (nat, nat)): Signer
    requires c.n > 0
    reads share.secret
  {
    Signer(share.id, nonce.0 % c.n, nonce.1 % c.n, share.secret.v)
  }

  function ShareIds(shares: seq<KeyShare>): (ids: seq<int>)
    ensures |ids| == |shares| && forall i :: 0 <= i < |ids| ==> ids[i] == shares[i].id
  {
    seq(|shares|, i requires 0 <= i < |shares| => shares[i].id)
  }

  // The aggregate nonce point and the signature of a ceremony, as functions of the signers' values.
  ghost function CeremonyNonce(c: Curve, signers: seq<Signer>, p: nat, message: seq<byte>): nat
    requires c.n > 0
  {
    NonceSum(c, Commit(signers), BindingFactors(c, p, message, Commit(signers)))
  }

  ghost function CeremonySignature(c: Curve, signers: seq<Signer>, p: nat, message: seq<byte>): seq<byte>
    requires c.n > 0
  {
    Aggregate(c, signers, p, message, BindingFactors(c, p, message, Commit(signers)))
  }

  ghost predicate CeremonySucceeds(c: Curve, signers: seq<Signer>, p: nat, message: seq<byte>)
    requires c.n > 0 && p < c.n
  {
    && SortedById(Commit(signers))
    && CeremonyNonce(c, signers, p, message) != 0
    && c.Verifies(CeremonySignature(c, signers, p, message), message, p)
  }

  // The public values a partial signature of any signer depends on.
  ghost function CeremonyPartial(c: Curve, signers: seq<Signer>, p: nat, message: seq<byte>, s: Signer): nat
    requires c.n > 0
  {
    var r := CeremonyNonce(c, signers, p, message);
    var e := c.Challenge(c.XOnly(c.EvenLift(r)), c.XOnly(p), message);
    SignerPartial(c, s, Ids(signers), BindingFactors(c, p, message, Commit(signers)), c.EvenY(r), c.EvenY(p), e)
  }

  ghost function CeremonyPartials(c: Curve, signers: seq<Signer>, p: nat, message: seq<byte>): (zs: seq<nat>)
    requires c.n > 0
    ensures |zs| == |signers| && forall i :: 0 <= i < |zs| ==>
      zs[i] == CeremonyPartial(c, signers, p, message, signers[i])
  {
    seq(|signers|, i requires 0 <= i < |signers| => CeremonyPartial(c, signers, p, message, signers[i]))
  }

  lemma ReducedLambda(c: Curve, d: int, e: int, rho: int, rEven: bool, share: int, pEven: bool, coeff: int,
                      challenge: int)
    requires c.n > 0
    ensures PartialSignature(c, d, e, rho, rEven, share, pEven, coeff % c.n, challenge)
         == PartialSignature(c, d, e, rho, rEven, share, pEven, coeff, challenge)
  {
    var nonce, weight := Sign(rEven) * (d + rho * e), Sign(pEven) * challenge;
    CongMod(c.n, coeff);
    CongMul(c.n, coeff % c.n, coeff, share, share);
    CongMul(c.n, weight, weight, (coeff % c.n) * share, coeff * share);
    CongAdd(c.n, nonce, nonce, weight * ((coeff % c.n) * share), weight * (coeff * share));
  }

  method ComputePartials(c: Curve, participants: seq<SignParticipant>, allIDs: seq<nat>, signable: Signable,
                         ghost p: nat, ghost message: seq<byte>, ghost signers: seq<Signer>)
    returns (partials: seq<Scalar>)
    requires c.ValidOrder() && HoldsSigners(c, participants, signers) && allIDs == Ids(signers)
    requires Prepared(c, signable, p, message, Commit(signers))
    ensures |partials| == |signers|
    ensures forall i :: 0 <= i < |signers| ==>
      ValidScalar(c, partials[i]) && partials[i].v == CeremonyPartials(c, signers, p, message)[i]
  {
    hide CeremonyPartial, CeremonyPartials, Prepared;
    partials := [];
    ghost var zs: seq<nat> := [];
    for i := 0 to |participants|
      invariant |partials| == |zs| == i && HoldsSigners(c, participants, signers)
      invariant Prepared(c, signable, p, message, Commit(signers))
      invariant forall j :: 0 <= j < i ==> ValidScalar(c, partials[j]) && partials[j].v == zs[j]
      invariant forall j :: 0 <= j < i ==> zs[j] == CeremonyPartial(c, signers, p, message, signers[j])
    {
      var z := ParticipantPartial(c, participants[i], allIDs, signable, p, message, signers, i);
      partials := partials + [z];
      zs := zs + [z.v];
    }
    assert zs == CeremonyPartials(c, signers, p, message);
  }

  method ParticipantPartial(c: Curve, part: SignParticipant, allIDs: seq<nat>, signable: Signable,
                            ghost p: nat, ghost message: seq<byte>, ghost signers: seq<Signer>, ghost i: nat)
    returns (z: Scalar)
    requires c.ValidOrder() && i < |signers| && allIDs == Ids(signers)
    requires ValidParticipant(c, part) && signers[i] == Signer(part.id, part.d.v, part.e.v, part.secret.v)
    requires forall j :: 0 <= j < |signers| ==> signers[j].id < 65536
    requires Prepared(c, signable, p, message, Commit(signers))
    ensures fresh(z) && ValidScalar(c, z) && z.v == CeremonyPartial(c, signers, p, message, signers[i])
  {
    ghost var rho := BindingFactors(c, p, message, Commit(signers));
    assert Commit(signers)[i] in Commit(signers) && part.id in rho;
    var coeff := LagrangeCoefficient(c, part.id, allIDs);
    z := ComputePartialSignature(c, part.d, part.e, signable.bindingFactors[part.id], signable.rEvenY,
      part.secret, signable.pubkeyEvenY, coeff, signable.challenge);
    ReducedLambda(c, part.d.v, part.e.v, rho[part.id], signable.rEvenY, part.secret.v, signable.pubkeyEvenY,
      Lagrange(c.n, part.id, allIDs), signable.challenge.v);
  }

  lemma {:induction false} SumOfValues(zs: seq<nat>, signers: seq<Signer>, f: Signer -> int)
    requires |zs| == |signers| && forall i :: 0 <= i < |zs| ==> zs[i] == f(signers[i])
    ensures Sum(zs, (z: nat) => z) == Sum(signers, f)
  {
    if zs != [] {
      SumOfValues(zs[..|zs| - 1], signers[..|zs| - 1], f);
    }
  }

  // The aggregate is x(R) followed by the sum of the ceremony's partials.
  lemma PartialsAggregate(c: Curve, signers: seq<Signer>, p: nat, message: seq<byte>)
    requires c.n > 0
    ensures CeremonySignature(c, signers, p, message)
         == c.XOnly(c.EvenLift(CeremonyNonce(c, signers, p, message)))
          + BigEndian(Sum(CeremonyPartials(c, signers, p, message), (z: nat) => z) % c.n, 32)
  {
    var zs, rho := CeremonyPartials(c, signers, p, message), BindingFactors(c, p, message, Commit(signers));
    var r := CeremonyNonce(c, signers, p, message);
    var e := c.Challenge(c.XOnly(c.EvenLift(r)), c.XOnly(p), message);
    SumOfValues(zs, signers, (s: Signer) => SignerPartial(c, s, Ids(signers), rho, c.EvenY(r), c.EvenY(p), e));
  }

  // The ceremony on sorted slices: prepare, one partial per participant, aggregate, self-check.
  method RunCeremony(c: Curve, participants: seq<SignParticipant>, commitments: seq<NonceCommitmentPair>,
                     allIDs: seq<nat>,
                     jointPubkey: Element, message: seq<byte>, ghost signers: seq<Signer>)
    returns (r: Result<seq<byte>, SignError>)
    requires c.Valid() && ValidElement(c, jointPubkey) && jointPubkey.k != 0 && |message| == 32
    requires signers != [] && HoldsSigners(c, participants, signers)
    requires Holds(c, commitments, Commit(signers)) && allIDs == Ids(signers)
    ensures r.Ok? <==> CeremonySucceeds(c, signers, jointPubkey.k, message)
    ensures r.Ok? ==> r.value == CeremonySignature(c, signers, jointPubkey.k, message)
    ensures r.Err? ==> r.error.PrepareFailed? || r.error.AggregateFailed? || r.error.SelfCheckFailed?
  {
    ghost var p := jointPubkey.k;
    var session := SessionForSigning(participants[0].id, allIDs, commitments, jointPubkey, message);
    var signable := PrepareSignable(c, session, Commit(signers));
    if signable.Err? {
      return Err(PrepareFailed(signable.error));
    }
    var partials := ComputePartials(c, participants, allIDs, signable.value, p, message, signers);
    var sig := AggregateFullSignature(c, signable.value, partials, CeremonyPartials(c, signers, p, message));
    if sig.Err? {
      r := Err(AggregateFailed(sig.error));
      EncodingOfLift(c, CeremonyNonce(c, signers, p, message));
      assert false;
      return;
    }
    PartialsAggregate(c, signers, p, message);
    if !c.Verifies(sig.value, message, jointPubkey.k) {
      return Err(SelfCheckFailed);
    }
    return Ok(sig.value);
  }

  // Signs with the first threshold local shares. signers lists the participants in the order used,
  // with their nonces; the outcome is decided by their values alone.
  method SignMessage(c: Curve, threshold: nat, jointPubkey: Element, localShares: seq<KeyShare>,
                     message: seq<byte>, nonces: seq<(nat, nat)>)
    returns (r: Result<seq<byte>, SignError>, ghost signers: seq<Signer>)
    requires c.Valid() && 1 <= threshold <= |nonces| && ValidElement(c, jointPubkey) && jointPubkey.k != 0
    requires forall i :: 0 <= i < |localShares| ==> localShares[i].id < 65536 && ValidScalar(c, localShares[i].secret)
    ensures r == Err(MessageLength) <==> |message| != 32
    ensures r == Err(InsufficientShares) <==> |message| == 32 && |localShares| < threshold
    ensures r.Ok? ==> c.Verifies(r.value, message, jointPubkey.k)
    ensures |message| == 32 && threshold <= |localShares| ==>
      && Chosen(c, signers, localShares[..threshold], nonces)
      && (r.Ok? <==> CeremonySucceeds(c, signers, jointPubkey.k, message))
      && (r.Ok? ==> r.value == CeremonySignature(c, signers, jointPubkey.k, message))
  {
    signers := [];
    if |message| != 32 {
      return Err(MessageLength), signers;
    }
    if |localShares| < threshold {
      return Err(InsufficientShares), signers;
    }
    var sharesToUse := localShares[..threshold];
    var made, drawn := MakeParticipants(c, sharesToUse, nonces);
    var participants, commitments, allIDs, sorted := SortParticipants(c, made, drawn);
    signers := sorted;
    assert Ids(drawn) == ShareIds(sharesToUse);
    r := RunCeremony(c, participants, commitments, allIDs, jointPubkey, message, signers);
  }

  // Distinct ids whose shares lie on one polynomial of degree below the threshold, under the key of
  // its constant term, always sign, in whatever order they were stored and whatever the parities.
  lemma ConsistentSharesSign(c: Curve, signers: seq<Signer>, ids: seq<int>, coeffs: seq<int>, p: nat,
                             message: seq<byte>)
    requires c.Valid() && |message| == 32
    requires forall i, j :: 0 <= i < j < |signers| ==> signers[i].id <= signers[j].id
    requires multiset(Ids(signers)) == multiset(ids)
    requires forall i, j :: 0 <= i < j < |ids| ==> ids[i] != ids[j]
    requires |coeffs| <= |ids| && p == Eval(coeffs, 0) % c.n && p != 0
    requires forall s :: s in signers ==> s.id < 65536 && s.share == Eval(coeffs, s.id) % c.n
    requires NonceSum(c, Commit(signers), BindingFactors(c, p, message, Commit(signers))) != 0
    ensures CeremonySucceeds(c, signers, p, message)
  {
    StrictlyAscending(signers, ids);
    ThresholdSignatureVerifies(c, signers, coeffs, message, BindingFactors(c, p, message, Commit(signers)));
  }

  lemma StrictlyAscending(signers: seq<Signer>, ids: seq<int>)
    requires forall i, j :: 0 <= i < j < |signers| ==> signers[i].id <= signers[j].id
    requires multiset(Ids(signers)) == multiset(ids)
    requires forall i, j :: 0 <= i < j < |ids| ==> ids[i] != ids[j]
    ensures |signers| == |ids| && SortedById(Commit(signers))
    ensures forall i, j :: 0 <= i < j < |signers| ==> signers[i].id != signers[j].id
  {
    DistinctPermutation(ids, Ids(signers));
    assert |Ids(signers)| == |multiset(Ids(signers))| == |multiset(ids)| == |ids|;
    forall i, j | 0 <= i < j < |signers|
      ensures signers[i].id != signers[j].id
    {
      assert Ids(signers)[i] != Ids(signers)[j];
    }
  }
}
