// One participant of the n-party distributed key generation, driven by the messages it receives, in
// any order. Scalars and points are kept as values; map iteration picks any order.
module DistributedDkg {
  import opened Wrappers
  import opened Bytes
  import opened PrimeField
  import opened Interpolation
  import opened EllipticCurve
  import opened SecretSharing
  import opened SigningSpec
  import opened Coordinator

  datatype Status = Pending | Round1 | Round2 | Round3 | Complete | Aborted

  // A received message, with its payload decoded if it could be.
  datatype Event =
    | Accept(sender: string)
    | Commit(sender: string, index: int, points: Option<seq<nat>>)
    | Share(sender: string, fromIndex: int, toIndex: int, share: Option<nat>)
    | Abort

  // ----- sums over the participants 1..count

  ghost function SumWithin(count: nat, s: set<nat>, g: nat -> int): int {
    if count == 0 then 0 else SumWithin(count - 1, s, g) + if count in s then g(count) else 0
  }

  function Indices(count: nat): (s: set<nat>)
    ensures forall i: nat :: i in s <==> 1 <= i <= count
  {
    if count == 0 then {} else Indices(count - 1) + {count}
  }

  lemma {:induction false} SumWithinRemove(count: nat, s: set<nat>, g: nat -> int, j: nat)
    requires j in s
    ensures SumWithin(count, s, g) == SumWithin(count, s - {j}, g) + if 1 <= j <= count then g(j) else 0
  {
    if count > 0 {
      SumWithinRemove(count - 1, s, g, j);
    }
  }

  lemma {:induction false} SumWithinEmpty(count: nat, g: nat -> int)
    ensures SumWithin(count, {}, g) == 0
  {
    if count > 0 {
      SumWithinEmpty(count - 1, g);
    }
  }

  lemma {:induction false} SumWithinCong(n: nat, count: nat, s: set<nat>, f: nat -> int, g: nat -> int)
    requires n > 0 && forall j: nat :: j in s ==> Cong(n, f(j), g(j))
    ensures Cong(n, SumWithin(count, s, f), SumWithin(count, s, g))
  {
    if count > 0 {
      SumWithinCong(n, count - 1, s, f, g);
      if count in s {
        CongAdd(n, SumWithin(count - 1, s, f), SumWithin(count - 1, s, g), f(count), g(count));
      }
    }
  }

  lemma {:induction false} IndicesSize(count: nat)
    ensures |Indices(count)| == count
  {
    if count > 0 {
      IndicesSize(count - 1);
      assert count !in Indices(count - 1);
    }
  }

  // Having heard from as many participants as there are means having heard from all.
  lemma AllPresent(s: set<nat>, count: nat)
    requires s <= Indices(count) && |s| >= count
    ensures s == Indices(count)
  {
    IndicesSize(count);
    var missing := Indices(count) - s;
    assert Indices(count) == s + missing;
    assert |missing| == 0;
  }

  // ----- the group polynomial

  ghost function AddPolynomials(a: seq<int>, b: seq<int>): (r: seq<int>)
    requires |a| == |b|
    ensures |r| == |a|
  {
    if a == [] then [] else [a[0] + b[0]] + AddPolynomials(a[1..], b[1..])
  }

  lemma {:induction false} EvalAdd(a: seq<int>, b: seq<int>, x: int)
    requires |a| == |b|
    ensures Eval(AddPolynomials(a, b), x) == Eval(a, x) + Eval(b, x)
  {
    if a != [] {
      EvalAdd(a[1..], b[1..], x);
      assert AddPolynomials(a, b)[1..] == AddPolynomials(a[1..], b[1..]);
      Distribute(x, Eval(a[1..], x), Eval(b[1..], x));
    }
  }

  ghost predicate Committed(committed: nat -> seq<nat>, count: nat, threshold: nat) {
    forall j: nat :: 1 <= j <= count ==> |committed(j)| == threshold
  }

  ghost function Zeros(len: nat): (z: seq<int>)
    ensures |z| == len
  {
    if len == 0 then [] else [0] + Zeros(len - 1)
  }

  // The sum of all committed polynomials.
  ghost function GroupPolynomial(committed: nat -> seq<nat>, count: nat, threshold: nat): (f: seq<int>)
    requires Committed(committed, count, threshold)
    ensures |f| == threshold
  {
    if count == 0 then Zeros(threshold)
    else AddPolynomials(GroupPolynomial(committed, count - 1, threshold), committed(count))
  }

  lemma {:induction false} EvalZeros(len: nat, x: int)
    ensures Eval(Zeros(len), x) == 0
  {
    if len > 0 {
      EvalZeros(len - 1, x);
      assert Zeros(len)[1..] == Zeros(len - 1);
    }
  }

  lemma {:induction false} EvalGroup(committed: nat -> seq<nat>, count: nat, threshold: nat, all: set<nat>, x: int)
    requires Committed(committed, count, threshold) && Indices(count) <= all
    ensures Eval(GroupPolynomial(committed, count, threshold), x)
         == SumWithin(count, all, (j: nat) => Eval(committed(j), x))
  {
    if count == 0 {
      EvalZeros(threshold, x);
    } else {
      EvalGroup(committed, count - 1, threshold, all, x);
      EvalAdd(GroupPolynomial(committed, count - 1, threshold), committed(count), x);
      assert count in Indices(count);
    }
  }

  ghost function MapValue(m: map<nat, nat>): nat -> int {
    (j: nat) => if j in m then m[j] else 0
  }

  // Adds up the values of a map, walking it in any order.
  method SumValues(n: nat, m: map<nat, nat>, ghost count: nat) returns (total: nat)
    requires n > 0 && m.Keys == Indices(count)
    ensures total == SumWithin(count, Indices(count), MapValue(m)) % n
  {
    total := 0;
    var rest := m.Keys;
    ghost var sum := SumWithin(count, m.Keys, MapValue(m));
    ResidueMod(n, 0);
    while rest != {}
      invariant rest <= m.Keys && total < n
      invariant Cong(n, total + SumWithin(count, rest, MapValue(m)), sum)
    {
      var j :| j in rest;
      SumWithinRemove(count, rest, MapValue(m), j);
      var left := SumWithin(count, rest - {j}, MapValue(m));
      CongMod(n, total + m[j]);
      CongAdd(n, (total + m[j]) % n, total + m[j], left, left);
      total := (total + m[j]) % n;
      rest := rest - {j};
    }
    SumWithinEmpty(count, MapValue(m));
    ResidueMod(n, total);
  }

  // Values of the committed polynomials at x add up to the group polynomial's value at x.
  lemma SharesAddUp(n: nat, committed: nat -> seq<nat>, count: nat, threshold: nat, g: nat -> int, x: int)
    requires n > 0 && Committed(committed, count, threshold)
    requires forall j: nat :: 1 <= j <= count ==> Cong(n, g(j), Eval(committed(j), x))
    ensures SumWithin(count, Indices(count), g) % n == Eval(GroupPolynomial(committed, count, threshold), x) % n
  {
    EvalGroup(committed, count, threshold, Indices(count), x);
    SumWithinCong(n, count, Indices(count), g, (j: nat) => Eval(committed(j), x));
  }

  lemma EvalAtZero(coeffs: seq<nat>)
    ensures Eval(coeffs, 0) == if coeffs == [] then 0 else coeffs[0]
  {
    if coeffs != [] {
      assert 0 * Eval(coeffs[1..], 0) == 0;
    }
  }

  // The group polynomial at x: the final share of an index, the key's secret at zero. It depends on the
  // commitments alone, so all participants of a session agree on it.
  ghost function GroupValue(c: Curve, committed: nat -> seq<nat>, count: nat, threshold: nat, x: nat): nat
    requires c.n > 0 && Committed(committed, count, threshold)
  {
    Eval(GroupPolynomial(committed, count, threshold), x) % c.n
  }

  // The own share is stored, or added to one that is already there.
  function FileOwnShare(n: nat, shares: map<nat, nat>, i: nat, share: nat): map<nat, nat>
    requires n > 0
  {
    if i !in shares then shares[i := share] else shares[i := (shares[i] + share) % n]
  }

  // The check a received share goes through: against the sender's commitment, if that has arrived.
  predicate PassesCheck(c: Curve, commits: map<nat, seq<nat>>, fromIndex: nat, toIndex: nat, share: nat)
    requires c.n > 0
  {
    fromIndex in commits ==> share == ShareAt(c, commits[fromIndex], toIndex)
  }

  // ----- shares that were filed unchecked

  // What is filed under each index: the committed value, except for the early shares, filed before their
  // sender's commitment and so unchecked.
  ghost predicate SharesFiled(c: Curve, committed: nat -> seq<nat>, count: nat, myIndex: nat, shares: map<nat, nat>,
                              early: set<nat>)
    requires c.n > 0
  {
    && early <= shares.Keys && myIndex !in early
    && forall j :: j in shares ==>
         1 <= j <= count && shares[j] < c.n && (j !in early ==> shares[j] == ShareAt(c, committed(j), myIndex))
  }

  // How far what was filed under an index is from the committed value.
  ghost function ShareError(c: Curve, committed: nat -> seq<nat>, myIndex: nat, shares: map<nat, nat>): nat -> int
    requires c.n > 0
  {
    (j: nat) => MapValue(shares)(j) - ShareAt(c, committed(j), myIndex)
  }

  lemma {:induction false} SumWithinAdd(count: nat, s: set<nat>, f: nat -> int, g: nat -> int, both: nat -> int)
    requires forall j: nat :: j in s ==> both(j) == f(j) + g(j)
    ensures SumWithin(count, s, both) == SumWithin(count, s, f) + SumWithin(count, s, g)
  {
    if count > 0 {
      SumWithinAdd(count - 1, s, f, g, both);
    }
  }

  lemma {:induction false} SumWithinSubset(count: nat, s: set<nat>, t: set<nat>, g: nat -> int)
    requires t <= s && forall j: nat :: j in s && j !in t ==> g(j) == 0
    ensures SumWithin(count, s, g) == SumWithin(count, t, g)
  {
    if count > 0 {
      SumWithinSubset(count - 1, s, t, g);
    }
  }

  // The sum of all filed shares is the group polynomial's value exactly when the errors of the early ones
  // cancel out.
  lemma FinalShareRightIff(c: Curve, committed: nat -> seq<nat>, count: nat, threshold: nat, myIndex: nat,
                           shares: map<nat, nat>, early: set<nat>)
    requires c.ValidOrder() && Committed(committed, count, threshold) && 1 <= myIndex <= count <= 255
    requires SharesFiled(c, committed, count, myIndex, shares, early) && shares.Keys == Indices(count)
    ensures AddsUp(c, committed, count, threshold, myIndex, shares)
            <==> Cong(c.n, SumWithin(count, early, ShareError(c, committed, myIndex, shares)), 0)
  {
    hide IsPrime, Cong, Eval, ShareAt, Indices;
    var n, all := c.n, shares.Keys;
    var right := (j: nat) => ShareAt(c, committed(j), myIndex);
    var error := ShareError(c, committed, myIndex, shares);
    SumWithinAdd(count, all, right, error, MapValue(shares));
    SumWithinSubset(count, all, early, error);
    hide SharesFiled, ShareError, MapValue, SumWithin, Committed, GroupValue;
    RightSharesAddUp(c, committed, count, threshold, myIndex, right);
    ErrorCancels(n, SumWithin(count, all, right), SumWithin(count, early, error));
  }

  lemma RightSharesAddUp(c: Curve, committed: nat -> seq<nat>, count: nat, threshold: nat, myIndex: nat,
                         right: nat -> int)
    requires c.ValidOrder() && Committed(committed, count, threshold) && 1 <= myIndex <= count <= 255
    requires forall j: nat :: right(j) == ShareAt(c, committed(j), myIndex)
    ensures SumWithin(count, Indices(count), right) % c.n == GroupValue(c, committed, count, threshold, myIndex)
  {
    ResidueMod(256, myIndex);
    forall j: nat | 1 <= j <= count
      ensures Cong(c.n, right(j), Eval(committed(j), myIndex))
    {
      CongMod(c.n, Eval(committed(j), myIndex));
    }
    hide ShareAt, IsPrime, Cong, Eval;
    SharesAddUp(c.n, committed, count, threshold, right, myIndex);
  }

  lemma ErrorCancels(n: nat, right: int, error: int)
    requires n > 0
    ensures (right + error) % n == right % n <==> Cong(n, error, 0)
  {
    if Cong(n, error, 0) {
      CongAdd(n, right, right, error, 0);
    }
    if Cong(n, right + error, right) {
      CongAdd(n, right + error, right, right, right);
    }
  }

  // The filed shares add up to the group polynomial's value.
  ghost predicate AddsUp(c: Curve, committed: nat -> seq<nat>, count: nat, threshold: nat, myIndex: nat,
                         shares: map<nat, nat>)
    requires c.n > 0 && Committed(committed, count, threshold)
  {
    SumWithin(count, shares.Keys, MapValue(shares)) % c.n == GroupValue(c, committed, count, threshold, myIndex)
  }

  // It is right whatever was filed early exactly when nothing was.
  lemma AlwaysRightIffNoneEarly(c: Curve, committed: nat -> seq<nat>, count: nat, threshold: nat, myIndex: nat,
                                early: set<nat>)
    requires c.ValidOrder() && Committed(committed, count, threshold) && 1 <= myIndex <= count <= 255
    requires early <= Indices(count) - {myIndex}
    ensures (forall shares: map<nat, nat> ::
               SharesFiled(c, committed, count, myIndex, shares, early) && shares.Keys == Indices(count) ==>
                 AddsUp(c, committed, count, threshold, myIndex, shares))
            <==> early == {}
  {
    if early == {} {
      forall shares: map<nat, nat>
        | SharesFiled(c, committed, count, myIndex, shares, early) && shares.Keys == Indices(count)
        ensures AddsUp(c, committed, count, threshold, myIndex, shares)
      {
        FinalShareRightIff(c, committed, count, threshold, myIndex, shares, early);
        SumWithinEmpty(count, ShareError(c, committed, myIndex, shares));
      }
    } else {
      var k :| k in early;
      var shares := OneWrong(c, committed, count, myIndex, k);
      OneWrongElsewhere(c, committed, count, myIndex, early, k);
      FinalShareRightIff(c, committed, count, threshold, myIndex, shares, early);
      OneWrongKeys(c, committed, count, myIndex, k);
      OneError(c, committed, count, myIndex, early, k);
    }
  }

  // Everyone's committed value, but one more than it under k.
  ghost function OneWrong(c: Curve, committed: nat -> seq<nat>, count: nat, myIndex: nat, k: nat): map<nat, nat>
    requires c.n > 0
  {
    map j | j in Indices(count) :: (ShareAt(c, committed(j), myIndex) + if j == k then 1 else 0) % c.n
  }

  lemma OneError(c: Curve, committed: nat -> seq<nat>, count: nat, myIndex: nat, early: set<nat>, k: nat)
    requires c.ValidOrder() && k in early && early <= Indices(count)
    ensures var shares := OneWrong(c, committed, count, myIndex, k);
            !Cong(c.n, SumWithin(count, early, ShareError(c, committed, myIndex, shares)), 0)
  {
    var g := ShareError(c, committed, myIndex, OneWrong(c, committed, count, myIndex, k));
    var right := ShareAt(c, committed(k), myIndex);
    hide ShareAt, IsPrime, Cong, OneWrong, ShareError;
    assert k in Indices(count);
    OneWrongElsewhere(c, committed, count, myIndex, early, k);
    SumWithinSubset(count, early, {k}, g);
    SumWithinRemove(count, {k}, g, k);
    assert {k} - {k} == {};
    SumWithinEmpty(count, g);
    OneMoreDiffers(c.n, right);
  }

  lemma OneMoreDiffers(n: nat, right: nat)
    requires n > 1
    ensures !Cong(n, (right + 1) % n - right, 0)
  {
    CongMod(n, right + 1);
    CongAdd(n, (right + 1) % n, right + 1, right, right);
    ResidueMod(n, 1);
    ResidueMod(n, 0);
  }

  lemma OneWrongElsewhere(c: Curve, committed: nat -> seq<nat>, count: nat, myIndex: nat, early: set<nat>, k: nat)
    requires c.n > 0 && early <= Indices(count)
    ensures var g := ShareError(c, committed, myIndex, OneWrong(c, committed, count, myIndex, k));
            && (forall j: nat :: j in early && j != k ==> g(j) == 0)
            && (k in Indices(count) ==>
                  g(k) == (ShareAt(c, committed(k), myIndex) + 1) % c.n - ShareAt(c, committed(k), myIndex))
    ensures myIndex !in early && k in early ==>
      SharesFiled(c, committed, count, myIndex, OneWrong(c, committed, count, myIndex, k), early)
  {
    hide ShareAt, OneWrong;
    forall j | j in Indices(count)
      ensures j in OneWrong(c, committed, count, myIndex, k) && OneWrong(c, committed, count, myIndex, k)[j] < c.n
      ensures OneWrong(c, committed, count, myIndex, k)[j] == if j == k
        then (ShareAt(c, committed(k), myIndex) + 1) % c.n else ShareAt(c, committed(j), myIndex)
    {
      OneWrongAt(c, committed, count, myIndex, k, j);
    }
    OneWrongKeys(c, committed, count, myIndex, k);
  }

  lemma OneWrongKeys(c: Curve, committed: nat -> seq<nat>, count: nat, myIndex: nat, k: nat)
    requires c.n > 0
    ensures OneWrong(c, committed, count, myIndex, k).Keys == Indices(count)
  {
  }

  lemma OneWrongAt(c: Curve, committed: nat -> seq<nat>, count: nat, myIndex: nat, k: nat, j: nat)
    requires c.n > 0 && j in Indices(count)
    ensures j in OneWrong(c, committed, count, myIndex, k) && OneWrong(c, committed, count, myIndex, k)[j] < c.n
    ensures OneWrong(c, committed, count, myIndex, k)[j] == if j == k
      then (ShareAt(c, committed(k), myIndex) + 1) % c.n else ShareAt(c, committed(j), myIndex)
  {
    hide Eval;
    ResidueMod(c.n, ShareAt(c, committed(j), myIndex));
  }

  // ----- the verification share of an index, as accumulated along one walk over the commitments

  // Reaching index 1 assigns its contribution instead of adding it.
  function Walk(n: nat, order: seq<nat>, g: nat -> int): nat
    requires n > 0
  {
    if order == [] then 0
    else
      var last := order[|order| - 1];
      if last == 1 then g(last) % n else (Walk(n, order[..|order| - 1], g) + g(last)) % n
  }

  ghost predicate Enumerates(order: seq<nat>, s: set<nat>) {
    && (forall j :: j in order <==> j in s)
    && (forall i, j :: 0 <= i < j < |order| ==> order[i] != order[j])
  }

  // What a walk visits before index 1.
  function BeforeFirst(order: seq<nat>): seq<nat> {
    if order == [] || order[0] == 1 then [] else [order[0]] + BeforeFirst(order[1..])
  }

  lemma {:induction false} BeforeFirstIsPrefix(order: seq<nat>) returns (p: nat)
    requires 1 in order && forall i, j :: 0 <= i < j < |order| ==> order[i] != order[j]
    ensures FirstAt(order, p) && BeforeFirst(order) == order[..p]
  {
    if order[0] == 1 {
      p := 0;
    } else {
      p := BeforeFirstIsPrefix(order[1..]);
      p := p + 1;
      assert forall i :: 0 < i < |order| ==> order[i] == order[1..][i - 1];
    }
  }

  ghost predicate FirstAt(order: seq<nat>, p: nat) {
    p < |order| && order[p] == 1 && forall i :: 0 <= i < |order| && i != p ==> order[i] != 1
  }

  // What the walk computes: the contributions from index 1 on.
  lemma {:induction false} WalkKeepsSuffix(n: nat, order: seq<nat>, g: nat -> int, p: nat)
    requires n > 0 && FirstAt(order, p)
    ensures Cong(n, Walk(n, order, g), Sum(order, g) - Sum(order[..p], g))
  {
    hide Cong;
    var rest, last := order[..|order| - 1], order[|order| - 1];
    if p == |order| - 1 {
      CongMod(n, g(last));
    } else {
      WalkKeepsSuffix(n, rest, g, p);
      assert rest[..p] == order[..p];
      AddLast(n, Walk(n, rest, g), Sum(rest, g) - Sum(order[..p], g), g(last));
    }
  }

  lemma AddLast(n: nat, w: nat, exact: int, last: int)
    requires n > 0 && Cong(n, w, exact)
    ensures Cong(n, (w + last) % n, exact + last)
  {
    CongMod(n, w + last);
    CongAdd(n, w, exact, last, last);
  }

  lemma {:induction false} SumOfEnumeration(order: seq<nat>, s: set<nat>, count: nat, g: nat -> int)
    requires Enumerates(order, s) && s <= Indices(count)
    ensures Sum(order, g) == SumWithin(count, s, g)
    decreases |order|
  {
    if order == [] {
      assert forall j :: j in s ==> j in order;
      assert s == {};
      SumWithinEmpty(count, g);
    } else {
      var rest, last := order[..|order| - 1], order[|order| - 1];
      assert last in order;
      forall j
        ensures j in rest <==> j in s - {last}
      {
        if j in s - {last} {
          assert j in order;
        }
        if j in rest {
          assert j in order;
        }
      }
      SumOfEnumeration(rest, s - {last}, count, g);
      SumWithinRemove(count, s, g, last);
    }
  }

  // A verification share is right exactly when the contributions visited before index 1 cancel out.
  lemma WalkRightIff(n: nat, order: seq<nat>, count: nat, g: nat -> int, p: nat)
    requires n > 0 && Enumerates(order, Indices(count)) && FirstAt(order, p)
    ensures Walk(n, order, g) == SumWithin(count, Indices(count), g) % n <==> Cong(n, Sum(order[..p], g), 0)
  {
    WalkKeepsSuffix(n, order, g, p);
    SumOfEnumeration(order, Indices(count), count, g);
    var total, before, w := Sum(order, g), Sum(order[..p], g), Walk(n, order, g);
    CongMod(n, total);
    if Cong(n, before, 0) {
      CongAdd(n, total, total, before, 0);
    }
    if Cong(n, w, total) {
      CongAdd(n, total, total, w, total - before);
      CongAdd(n, total, w, w, w);
    }
    WalkReduced(n, order, g);
    ResidueMod(n, w);
  }

  lemma WalkReduced(n: nat, order: seq<nat>, g: nat -> int)
    requires n > 0
    ensures Walk(n, order, g) < n
  {
  }

  // It is right for every set of polynomials exactly when the walk visits index 1 first.
  lemma AlwaysRightIffFirst(n: nat, order: seq<nat>, count: nat, p: nat)
    requires n > 1 && Enumerates(order, Indices(count)) && FirstAt(order, p)
    ensures (forall g: nat -> int :: Walk(n, order, g) == SumWithin(count, Indices(count), g) % n) <==> order[0] == 1
  {
    if order[0] == 1 {
      assert p == 0 && order[..0] == [];
      forall g: nat -> int
        ensures Walk(n, order, g) == SumWithin(count, Indices(count), g) % n
      {
        WalkRightIff(n, order, count, g, p);
      }
    } else {
      var first := order[0];
      var g: nat -> int := (j: nat) => if j == first then 1 else 0;
      SumOfIndicator(order[..p], g, first);
      WalkRightIff(n, order, count, g, p);
      ResidueMod(n, 0);
      ResidueMod(n, 1);
      assert Walk(n, order, g) != SumWithin(count, Indices(count), g) % n;
    }
  }

  lemma {:induction false} SumOfIndicator(order: seq<nat>, g: nat -> int, first: nat)
    requires order != [] && order[0] == first && forall i :: 0 < i < |order| ==> order[i] != first
    requires forall j :: g(j) == if j == first then 1 else 0
    ensures Sum(order, g) == 1
  {
    var rest := order[..|order| - 1];
    if |order| > 1 {
      SumOfIndicator(rest, g, first);
      assert g(order[|order| - 1]) == 0;
    } else {
      assert rest == [] && Sum(rest, g) == 0 && g(order[0]) == 1;
      assert Sum(order, g) == Sum(rest, g) + g(order[0]);
    }
  }

  // ----- one participant

  class LocalDKGState {
    const c: Curve
    const participants: seq<string>
    const pubkey: string
    const myIndex: nat
    const threshold: nat
    // the random coefficients this participant draws in round 1
    const drawn: seq<nat>
    // the polynomial behind the one commitment each index sends
    ghost const committed: nat -> seq<nat>

    var status: Status
    var round: nat
    var accepted: set<string>
    var polynomial: seq<nat>
    var receivedCommits: map<nat, seq<nat>>
    var receivedShares: map<nat, nat>
    var sentCommitment: Option<seq<nat>>
    var sentShares: map<nat, nat>
    var myShare: nat
    var groupPubKey: nat
    // the indices whose share was filed before their commitment, unchecked
    ghost var early: set<nat>

    ghost predicate Setting() {
      && c.ValidOrder()
      && 1 <= |participants| <= 255
      && 1 <= myIndex <= |participants| && participants[myIndex - 1] == pubkey
      && Committed(committed, |participants|, threshold)
      && committed(myIndex) == drawn
    }

    // Everything stored came from the sender it is filed under, and every share but the early ones is right.
    ghost predicate Consistent()
      reads this
    {
      Setting() && FiledRight(receivedCommits, receivedShares, early)
    }

    ghost predicate FiledRight(commits: map<nat, seq<nat>>, shares: map<nat, nat>, unchecked: set<nat>)
      requires Setting()
    {
      && (forall j :: j in commits ==> 1 <= j <= |participants| && commits[j] == committed(j))
      && SharesFiled(c, committed, |participants|, myIndex, shares, unchecked)
    }

    lemma OwnShareFiledRight(commits: map<nat, seq<nat>>, shares: map<nat, nat>, unchecked: set<nat>)
      requires Setting() && FiledRight(commits, shares, unchecked) && myIndex !in shares
      ensures FiledRight(commits, FileOwnShare(c.n, shares, myIndex, ShareAt(c, drawn, myIndex)), unchecked)
    {
      hide Eval, IsPrime;
    }

    lemma CommitFiledRight(commits: map<nat, seq<nat>>, shares: map<nat, nat>, unchecked: set<nat>, index: nat)
      requires Setting() && FiledRight(commits, shares, unchecked) && 1 <= index <= |participants|
      ensures FiledRight(commits[index := committed(index)], shares, unchecked)
      ensures commits.Keys == Indices(|participants|) ==> commits[index := committed(index)] == commits
    {
      hide SharesFiled;
      assert commits.Keys == Indices(|participants|) ==> index in commits;
    }

    // A share that passes the check is filed rightly, or as an early one.
    lemma ShareFiledRight(commits: map<nat, seq<nat>>, shares: map<nat, nat>, unchecked: set<nat>, index: nat,
                          share: nat)
      requires Setting() && FiledRight(commits, shares, unchecked)
      requires 1 <= index <= |participants| && index != myIndex && share < c.n
      requires PassesCheck(c, commits, index, myIndex, share)
      ensures FiledRight(commits, shares[index := share], if index in commits then unchecked else unchecked + {index})
    {
      hide Eval, IsPrime, ShareAt, Committed;
    }

    // All shares are there once there are as many as participants.
    lemma SharesPresent(commits: map<nat, seq<nat>>, shares: map<nat, nat>, unchecked: set<nat>)
      requires Setting() && FiledRight(commits, shares, unchecked)
      ensures |commits| >= |participants| <==> commits.Keys == Indices(|participants|)
      ensures |shares| >= |participants| <==> shares.Keys == Indices(|participants|)
    {
      IndicesSize(|participants|);
      assert |commits.Keys| == |commits| && |shares.Keys| == |shares|;
      if |commits| >= |participants| {
        AllPresent(commits.Keys, |participants|);
      }
      if |shares| >= |participants| {
        AllPresent(shares.Keys, |participants|);
      }
    }

    ghost predicate Started()
      reads this
    {
      polynomial == drawn && myIndex in receivedCommits && sentCommitment == Some(drawn)
    }

    ghost predicate Valid()
      reads this
    {
      && Consistent()
      && round <= 3
      && (status == Pending ==> round == 0)
      && (round == 0 ==> sentCommitment == None)
      && (round >= 1 ==> Started())
      && (round <= 1 ==> myIndex !in receivedShares && sentShares == map[])
      && (round >= 2 ==>
            && receivedCommits.Keys == Indices(|participants|)
            && sentShares == SharesForOthers(|participants|)
            && myIndex in receivedShares)
      && (round == 3 ==>
            && receivedShares.Keys == Indices(|participants|)
            && myShare == SumWithin(|participants|, receivedShares.Keys, MapValue(receivedShares)) % c.n
            && groupPubKey == Final(0))
    }

    // A round whose messages are all in is over.
    ghost predicate Settled()
      reads this
    {
      && (round == 1 ==> |receivedCommits| < |participants|)
      && (round == 2 ==> |receivedShares| < |participants|)
    }

    // How far the early shares are from the committed values, all together.
    ghost function EarlyError(): int
      requires Setting()
      reads this
    {
      SumWithin(|participants|, early, ShareError(c, committed, myIndex, receivedShares))
    }

    // The own commitment is filed from round 1 on, everyone's from round 2 on.
    lemma CommitmentsByRound()
      requires Valid()
      ensures round >= 1 ==> myIndex in receivedCommits
      ensures round >= 2 ==> receivedCommits.Keys == Indices(|participants|)
    {
    }

    // In round 3 the own share is right exactly when the errors of the early shares cancel out.
    lemma MyShareRightIff()
      requires Valid() && round == 3
      ensures groupPubKey == Final(0) && (myShare == Final(myIndex) <==> Cong(c.n, EarlyError(), 0))
      ensures early == {} ==> myShare == Final(myIndex)
    {
      FinalShareRightIff(c, committed, |participants|, threshold, myIndex, receivedShares, early);
      SumWithinEmpty(|participants|, ShareError(c, committed, myIndex, receivedShares));
      hide Cong, FiledRight, Eval, Indices, IsPrime, SumWithin, ShareError, GroupValue;
    }

    // The final value of index x in this session.
    ghost function Final(x: nat): nat
      requires Setting()
    {
      GroupValue(c, committed, |participants|, threshold, x)
    }

    // What an honest participant sends in round 2 to the others among the first count.
    ghost function SharesForOthers(count: nat): map<nat, nat>
      requires c.n > 0
    {
      map i: nat | 1 <= i <= count && i != myIndex :: ShareAt(c, drawn, i)
    }

    constructor (c: Curve, participants: seq<string>, pubkey: string, myIndex: nat, threshold: nat, drawn: seq<nat>,
                 ghost committed: nat -> seq<nat>)
      requires c.ValidOrder() && 1 <= |participants| <= 255
      requires 1 <= myIndex <= |participants| && participants[myIndex - 1] == pubkey
      requires Committed(committed, |participants|, threshold) && committed(myIndex) == drawn
      ensures Valid() && Settled() && round == 0 && receivedCommits == map[] && receivedShares == map[] && early == {}
      ensures this.participants == participants && this.pubkey == pubkey && this.myIndex == myIndex
      ensures this.c == c && this.threshold == threshold && this.drawn == drawn && this.committed == committed
      ensures status == Pending && accepted == {pubkey}
    {
      this.c, this.participants, this.pubkey, this.myIndex := c, participants, pubkey, myIndex;
      this.threshold, this.drawn, this.committed := threshold, drawn, committed;
      status, round, accepted := Pending, 0, {pubkey};
      polynomial, receivedCommits, receivedShares := [], map[], map[];
      sentCommitment, sentShares, myShare, groupPubKey := None, map[], 0, 0;
      early := {};
    }

    // Nothing filed is lost or replaced.
    static ghost predicate Keeps(shares: map<nat, nat>, shares': map<nat, nat>) {
      forall j :: j in shares ==> j in shares' && shares'[j] == shares[j]
    }

    // ----- rounds

    // Round 1 starts when the last participant accepts.
    method HandleAccept(sender: string)
      requires Valid() && Settled()
      modifies this
      ensures Valid() && Settled() && early == old(early) && old(round) <= round
      ensures accepted == if sender in participants then old(accepted) + {sender} else old(accepted)
      ensures var starts := sender in participants && |accepted| == |participants| && old(status) == Pending;
              && (starts ==> round >= 1 && status != Pending)
              && (!starts ==> round == old(round) && status == old(status))
              && receivedCommits == if starts then old(receivedCommits)[myIndex := drawn] else old(receivedCommits)
      ensures Keeps(old(receivedShares), receivedShares)
      ensures round <= 1 ==> receivedShares == old(receivedShares)
    {
      if sender !in participants {
        return;
      }
      accepted := accepted + {sender};
      if |accepted| == |participants| && status == Pending {
        StartRound1();
      }
    }

    // Draws the polynomial and broadcasts its commitment.
    method StartRound1()
      requires Valid() && Settled()
      modifies this
      ensures Valid() && Settled() && accepted == old(accepted) && early == old(early)
      ensures old(status) == Pending ==>
        round >= 1 && status != Pending && receivedCommits == old(receivedCommits)[myIndex := drawn]
      ensures old(status) != Pending ==>
        round == old(round) && status == old(status) && receivedCommits == old(receivedCommits)
      ensures Keeps(old(receivedShares), receivedShares)
      ensures round <= 1 ==> receivedShares == old(receivedShares)
    {
      if status != Pending {
        return;
      }
      hide FiledRight, SharesForOthers, Final, SumWithin, MapValue, Indices, Keeps;
      CommitFiledRight(receivedCommits, receivedShares, early, myIndex);
      status, round := Round1, 1;
      polynomial := drawn;
      receivedCommits := receivedCommits[myIndex := drawn];
      sentCommitment := Some(drawn);
      CheckRound1Complete();
    }

    // Only a well-formed commitment of the sender's own index changes anything.
    method HandleCommit(sender: string, index: int, points: Option<seq<nat>>)
      requires Valid() && Settled() && sender != pubkey
      requires FromParticipant(sender, index) && WellFormedList(points) ==> points.value == committed(index)
      modifies this
      ensures Valid() && Settled() && accepted == old(accepted) && early == old(early)
      ensures old(round) <= round && (old(status) == Pending <==> status == Pending)
      ensures FromParticipant(sender, index) && WellFormedList(points) ==>
        receivedCommits == old(receivedCommits)[index := points.value]
      ensures !(FromParticipant(sender, index) && WellFormedList(points)) ==>
        && receivedCommits == old(receivedCommits) && receivedShares == old(receivedShares)
        && round == old(round) && status == old(status)
      ensures receivedCommits != old(receivedCommits) ==>
        1 <= index <= |participants| && participants[index - 1] == sender && points.Some? && |points.value| == threshold
      ensures Keeps(old(receivedShares), receivedShares)
    {
      if !FromParticipant(sender, index) || !WellFormedList(points) {
        return;
      }
      hide FiledRight, Indices, SharesForOthers, Final, SumWithin, MapValue;
      CommitFiledRight(receivedCommits, receivedShares, early, index);
      receivedCommits := receivedCommits[index := points.value];
      CheckRound1Complete();
    }

    predicate FromParticipant(sender: string, index: int) {
      1 <= index <= |participants| && participants[index - 1] == sender
    }

    predicate WellFormedList(points: Option<seq<nat>>) {
      points.Some? && |points.value| == threshold
    }

    method CheckRound1Complete()
      requires Valid() && (round == 1 ==> Started()) && (round == 2 ==> |receivedShares| < |participants|)
      modifies this
      ensures Valid() && Settled() && accepted == old(accepted) && receivedCommits == old(receivedCommits)
      ensures early == old(early) && old(round) <= round && Keeps(old(receivedShares), receivedShares)
      ensures (old(status) == Pending <==> status == Pending) && (round <= 1 ==> receivedShares == old(receivedShares))
    {
      hide Indices, FiledRight, Setting, SharesForOthers;
      if |receivedCommits| < |participants| || round != 1 {
        return;
      }
      SharesPresent(receivedCommits, receivedShares, early);
      status, round := Round2, 2;
      StartRound2();
    }

    // Files the own share and sends every other participant theirs.
    method StartRound2()
      requires Consistent() && Started() && round == 2 && status == Round2
      requires receivedCommits.Keys == Indices(|participants|)
      requires myIndex !in receivedShares && sentShares == map[]
      modifies this
      ensures Valid() && Settled() && accepted == old(accepted) && receivedCommits == old(receivedCommits) && round >= 2
      ensures early == old(early) && Keeps(old(receivedShares), receivedShares) && status != Pending
    {
      hide Indices, Eval, ShareAt, Committed, IsPrime, FiledRight;
      for i := 1 to |participants| + 1
        invariant Consistent() && Started() && round == 2 && status == Round2 && early == old(early)
        invariant accepted == old(accepted) && receivedCommits == old(receivedCommits)
        invariant Keeps(old(receivedShares), receivedShares)
        invariant sentShares == SharesForOthers(i - 1)
        invariant myIndex in receivedShares <==> myIndex < i
      {
        var share := ShareAt(c, polynomial, i);
        if i == myIndex {
          OwnShareFiledRight(receivedCommits, receivedShares, early);
          receivedShares := FileOwnShare(c.n, receivedShares, i, share);
        } else {
          sentShares := sentShares[i := share];
        }
      }
      CheckRound2Complete();
    }

    // A share is checked only if the sender's commitment has arrived; without it, it is filed unchecked.
    method HandleShare(sender: string, fromIndex: int, toIndex: int, share: Option<nat>)
      requires Valid() && Settled() && sender != pubkey && (share.Some? ==> share.value < c.n)
      modifies this
      ensures Valid() && Settled() && accepted == old(accepted) && receivedCommits == old(receivedCommits)
      ensures old(round) <= round && (old(status) == Pending <==> status == Pending)
      ensures old(Files(sender, fromIndex, toIndex, share)) ==>
        && receivedShares == old(receivedShares)[fromIndex := share.value]
        && early == if fromIndex in receivedCommits then old(early) else old(early) + {fromIndex}
      ensures !old(Files(sender, fromIndex, toIndex, share)) ==>
        receivedShares == old(receivedShares) && early == old(early)
      ensures receivedShares != old(receivedShares) ==>
        toIndex == myIndex && 1 <= fromIndex <= |participants| && participants[fromIndex - 1] == sender
    {
      hide FiledRight, ShareAt, IsPrime;
      if !AddressedShare(sender, fromIndex, toIndex, share) {
        return;
      }
      if !PassesCheck(c, receivedCommits, fromIndex, toIndex, share.value) {
        return;
      }
      if fromIndex in receivedShares {
        return;
      }
      ShareFiledRight(receivedCommits, receivedShares, early, fromIndex, share.value);
      if fromIndex !in receivedCommits {
        early := early + {fromIndex};
      }
      receivedShares := receivedShares[fromIndex := share.value];
      CheckRound2Complete();
    }

    // The first share of its sender that passes the check.
    predicate Files(sender: string, fromIndex: int, toIndex: int, share: Option<nat>)
      reads this
    {
      && c.n > 0 && AddressedShare(sender, fromIndex, toIndex, share) && fromIndex !in receivedShares
      && PassesCheck(c, receivedCommits, fromIndex, toIndex, share.value)
    }

    predicate AddressedShare(sender: string, fromIndex: int, toIndex: int, share: Option<nat>) {
      toIndex == myIndex && FromParticipant(sender, fromIndex) && share.Some?
    }

    // Sums the shares and the constant commitments, walking both maps in any order.
    method CheckRound2Complete()
      requires Valid() && (round == 1 ==> |receivedCommits| < |participants|)
      modifies this
      ensures Valid() && Settled() && accepted == old(accepted) && old(round) <= round && early == old(early)
      ensures receivedCommits == old(receivedCommits) && receivedShares == old(receivedShares)
      ensures old(status) == Pending <==> status == Pending
    {
      hide Indices, GroupValue, SharesForOthers, FiledRight, Setting;
      if |receivedShares| < |participants| || round != 2 {
        return;
      }
      SharesPresent(receivedCommits, receivedShares, early);
      var total, key := RoundTwoSums();
      myShare, groupPubKey := total, key;
      status, round := Round3, 3;
    }

    method RoundTwoSums() returns (total: nat, key: nat)
      requires Consistent() && receivedShares.Keys == receivedCommits.Keys == Indices(|participants|)
      ensures total == SumWithin(|participants|, receivedShares.Keys, MapValue(receivedShares)) % c.n && key == Final(0)
    {
      total := SumValues(c.n, receivedShares, |participants|);
      var constants := map j | j in receivedCommits :: if |receivedCommits[j]| > 0 then receivedCommits[j][0] else 0;
      key := SumValues(c.n, constants, |participants|);
      ConstantsAddUp(constants);
    }

    lemma ConstantsAddUp(constants: map<nat, nat>)
      requires Consistent() && receivedCommits.Keys == constants.Keys == Indices(|participants|)
      requires forall j :: j in constants ==>
        constants[j] == if |receivedCommits[j]| > 0 then receivedCommits[j][0] else 0
      ensures SumWithin(|participants|, Indices(|participants|), MapValue(constants)) % c.n == Final(0)
    {
      forall j: nat | 1 <= j <= |participants|
        ensures Cong(c.n, MapValue(constants)(j), Eval(committed(j), 0))
      {
        assert j in Indices(|participants|);
        EvalAtZero(committed(j));
      }
      SharesAddUp(c.n, committed, |participants|, threshold, MapValue(constants), 0);
    }

    // ----- finalizing

    // What each participant's polynomial contributes to the public share of index i.
    ghost function Contribution(i: nat): nat -> int
      requires c.n > 0
    {
      (j: nat) => ShareAt(c, committed(j), i)
    }

    // One walk over the received commitments, for the verification share of index i.
    method VerificationShare(i: nat) returns (pubKey: nat, ghost order: seq<nat>)
      requires Consistent()
      ensures Enumerates(order, receivedCommits.Keys)
      ensures pubKey == Walk(c.n, order, Contribution(i))
    {
      pubKey, order := 0, [];
      var rest := receivedCommits.Keys;
      while rest != {}
        invariant rest <= receivedCommits.Keys
        invariant Enumerates(order, receivedCommits.Keys - rest)
        invariant pubKey == Walk(c.n, order, Contribution(i))
      {
        var j :| j in rest;
        var contribution := ShareAt(c, receivedCommits[j], i);
        ResidueMod(c.n, contribution);
        if j == 1 {
          pubKey := contribution;
        } else {
          pubKey := (pubKey + contribution) % c.n;
        }
        assert (order + [j])[..|order|] == order;
        order := order + [j];
        rest := rest - {j};
      }
    }

    // What a walk makes of the public share of index i: it is the group polynomial's value exactly if the
    // contributions visited before index 1 cancel out.
    ghost predicate WalkedShare(i: nat, order: seq<nat>, pubKey: nat)
      requires Setting()
    {
      && Enumerates(order, Indices(|participants|))
      && pubKey == Walk(c.n, order, Contribution(i))
      && (pubKey == Final(i) <==> Cong(c.n, Sum(BeforeFirst(order), Contribution(i)), 0))
    }

    // The public key shares of all indices, each from its own walk.
    method FinalizeDKG() returns (allPublicKeys: seq<nat>, ghost orders: seq<seq<nat>>)
      requires Valid() && round == 3
      modifies this`status
      ensures Valid() && status == Complete
      ensures |allPublicKeys| == |orders| == |participants|
      ensures forall i :: 0 <= i < |participants| ==> WalkedShare(i + 1, orders[i], allPublicKeys[i])
    {
      hide Indices, Walk, GroupValue, ShareAt, IsPrime, Enumerates, WalkedShare;
      allPublicKeys, orders := [], [];
      for i := 1 to |participants| + 1
        invariant |allPublicKeys| == |orders| == i - 1
        invariant forall k :: 0 <= k < i - 1 ==> WalkedShare(k + 1, orders[k], allPublicKeys[k])
      {
        var pubKey, order := VerificationShare(i);
        WalkIsShare(order, i);
        allPublicKeys, orders := allPublicKeys + [pubKey], orders + [order];
      }
      status := Complete;
    }

    lemma WalkIsShare(order: seq<nat>, i: nat)
      requires Setting() && Enumerates(order, Indices(|participants|)) && 1 <= i <= |participants|
      ensures WalkedShare(i, order, Walk(c.n, order, Contribution(i)))
    {
      assert 1 in Indices(|participants|) && 1 in order;
      var p := BeforeFirstIsPrefix(order);
      WalkRightIff(c.n, order, |participants|, Contribution(i), p);
      ResidueMod(256, i);
      forall j: nat | 1 <= j <= |participants|
        ensures Cong(c.n, Contribution(i)(j), Eval(committed(j), i))
      {
        CongMod(c.n, Eval(committed(j), i));
      }
      SharesAddUp(c.n, committed, |participants|, threshold, Contribution(i), i);
    }

    // ----- whole runs

    ghost predicate ProperCommit(e: Event) {
      e.Commit? && FromParticipant(e.sender, e.index) && WellFormedList(e.points)
    }

    ghost predicate ProperShare(e: Event) {
      e.Share? && AddressedShare(e.sender, e.fromIndex, e.toIndex, e.share)
    }

    // Nobody writes to themselves, every sender sticks to one commitment, and a decoded share is a residue.
    ghost predicate Faithful(e: Event) {
      && (!e.Abort? ==> e.sender != pubkey)
      && (ProperCommit(e) ==> e.points.value == committed(e.index))
      && (e.Share? && e.share.Some? ==> e.share.value < c.n)
    }

    // Each share comes after its sender's commitment.
    ghost predicate CommitmentsFirst(events: seq<Event>) {
      forall k :: 0 <= k < |events| && ProperShare(events[k]) ==>
        exists l :: 0 <= l < k && ProperCommit(events[l]) && events[l].index == events[k].fromIndex
    }

    // A share that is the committed one.
    ghost predicate RightShare(e: Event) {
      c.n > 0 && ProperShare(e) && e.share.value == ShareAt(c, committed(e.fromIndex), myIndex)
    }

    method Deliver(e: Event)
      requires Valid() && Settled() && Faithful(e)
      modifies this
      ensures Valid() && Settled() && old(round) <= round
      ensures old(receivedCommits.Keys) <= receivedCommits.Keys && Keeps(old(receivedShares), receivedShares)
      ensures ProperCommit(e) ==> e.index in receivedCommits
      ensures RightShare(e) ==> e.fromIndex in receivedShares
      ensures (ProperShare(e) ==> e.fromIndex in old(receivedCommits)) ==> early == old(early)
      ensures !e.Accept? ==> accepted == old(accepted)
      ensures old(status) != Pending ==> status != Pending
      ensures !e.Abort? && old(status) == Pending ==>
        if status == Pending then accepted == old(accepted) || |accepted| != |participants| else round >= 1
    {
      hide Valid, Settled;
      match e
      case Accept(sender) => HandleAccept(sender);
      case Commit(sender, index, points) => HandleCommit(sender, index, points);
      case Share(sender, fromIndex, toIndex, share) =>
        if RightShare(e) {
          RightSharePasses(e);
        }
        HandleShare(sender, fromIndex, toIndex, share);
      case Abort => HandleAbort();
    }

    lemma RightSharePasses(e: Event)
      requires Valid() && RightShare(e)
      ensures PassesCheck(c, receivedCommits, e.fromIndex, e.toIndex, e.share.value)
    {
      hide ShareAt, IsPrime, SharesFiled;
    }

    // Marks the session; the rounds do not look at the mark.
    method HandleAbort()
      requires Valid() && Settled()
      modifies this`status
      ensures Valid() && Settled() && status == Aborted
    {
      status := Aborted;
    }

    // Every other participant has sent its commitment and its committed share.
    ghost predicate AllIn(events: seq<Event>) {
      forall j: nat :: 1 <= j <= |participants| && j != myIndex ==> HasSent(events, j)
    }

    ghost predicate HasSent(events: seq<Event>, j: nat) {
      && (exists e :: e in events && ProperCommit(e) && e.index == j)
      && (exists e :: e in events && RightShare(e) && e.fromIndex == j)
    }

    // Whatever the order of the messages. A session that has started and been sent everything is in round
    // 3; there it holds the group key, and the group polynomial's value at the own index exactly if the
    // errors of the early shares cancel out, so always if each commitment came before its share.
    method Run(events: seq<Event>)
      requires Valid() && Settled() && forall e :: e in events ==> Faithful(e)
      modifies this
      ensures Valid() && Settled() && old(round) <= round
      ensures var starts := old(status) == Pending && |old(accepted)| != |participants| == |accepted|;
              starts && Abort !in events ==> round >= 1
      ensures round >= 1 && AllIn(events) ==> round == 3
      ensures CommitmentsFirst(events) ==> early == old(early)
      ensures round == 3 ==> groupPubKey == Final(0) && (myShare == Final(myIndex) <==> Cong(c.n, EarlyError(), 0))
      ensures round == 3 && early == {} ==> myShare == Final(myIndex)
    {
      assert Delivered(events, 0, receivedCommits.Keys, receivedShares.Keys);
      hide Valid, Settled, ShareAt, Faithful, AllIn, HasSent, Setting, EarlyError, GroupValue, Cong;
      hide Delivered, ProperCommit, ProperShare, RightShare, CommitmentsFirst;
      for k := 0 to |events|
        invariant Valid() && Settled() && old(round) <= round
        invariant Delivered(events, k, receivedCommits.Keys, receivedShares.Keys)
        invariant CommitmentsFirst(events) ==> early == old(early)
        invariant old(status) == Pending && Abort !in events ==>
          if status == Pending then accepted == old(accepted) || |accepted| != |participants| else round >= 1
      {
        assert events[k] in events;
        CommitmentDelivered(events, k, receivedCommits.Keys, receivedShares.Keys);
        ghost var commits, shares := receivedCommits.Keys, receivedShares.Keys;
        Deliver(events[k]);
        assert shares <= receivedShares.Keys;
        OneMoreDelivered(events, k, commits, shares, receivedCommits.Keys, receivedShares.Keys);
      }
      if round >= 1 && AllIn(events) {
        forall j: nat | 1 <= j <= |participants| && j != myIndex
          ensures j in receivedCommits && j in receivedShares
        {
          SentIsDelivered(events, j);
        }
        AllInIsRound3();
      }
      if round == 3 {
        MyShareRightIff();
      }
    }

    // The commitments and committed shares among the first k messages are filed.
    ghost predicate Delivered(events: seq<Event>, k: nat, commits: set<nat>, shares: set<nat>)
      requires k <= |events|
    {
      && (forall l :: 0 <= l < k && ProperCommit(events[l]) ==> events[l].index in commits)
      && (forall l :: 0 <= l < k && RightShare(events[l]) ==> events[l].fromIndex in shares)
    }

    lemma OneMoreDelivered(events: seq<Event>, k: nat, commits: set<nat>, shares: set<nat>, commits': set<nat>,
                           shares': set<nat>)
      requires k < |events| && Delivered(events, k, commits, shares) && commits <= commits' && shares <= shares'
      requires ProperCommit(events[k]) ==> events[k].index in commits'
      requires RightShare(events[k]) ==> events[k].fromIndex in shares'
      ensures Delivered(events, k + 1, commits', shares')
    {
      hide ShareAt;
    }

    lemma CommitmentDelivered(events: seq<Event>, k: nat, commits: set<nat>, shares: set<nat>)
      requires k < |events| && Delivered(events, k, commits, shares)
      ensures CommitmentsFirst(events) && ProperShare(events[k]) ==> events[k].fromIndex in commits
    {
      hide ShareAt;
    }

    lemma SentIsDelivered(events: seq<Event>, j: nat)
      requires AllIn(events) && 1 <= j <= |participants| && j != myIndex
      requires Delivered(events, |events|, receivedCommits.Keys, receivedShares.Keys)
      ensures j in receivedCommits && j in receivedShares
    {
      hide ProperCommit, RightShare;
      assert HasSent(events, j);
    }

    // With everything in, the round is the last.
    lemma AllInIsRound3()
      requires Valid() && Settled() && round >= 1
      requires forall j: nat :: 1 <= j <= |participants| && j != myIndex ==> j in receivedCommits && j in receivedShares
      ensures round == 3
    {
      SharesPresent(receivedCommits, receivedShares, early);
      assert receivedCommits.Keys == Indices(|participants|);
      assert round >= 2 ==> receivedShares.Keys == Indices(|participants|);
    }
  }

  // A session of two with threshold two, in which a share that is off by one overtakes its sender's commitment,
  // ends in round 3 with a wrong share.
  method EarlyShareMisleads(c: Curve) returns (s: LocalDKGState)
    requires c.ValidOrder()
    ensures s.Valid() && s.threshold == 2 && 2 in s.receivedCommits && s.receivedCommits[2] == [1, 1]
    ensures s.round == 3 && s.early == {2} && s.myShare != s.Final(s.myIndex)
  {
    hide LocalDKGState.Valid, LocalDKGState.Settled, GroupValue, SumWithin, ShareError, IsPrime, Eval, Cong;
    var line: seq<nat> := [1, 1];
    s := EarlyShareFiled(c, line);
    s.HandleCommit("b", 2, Some(line));
    s.CommitmentsByRound();
    s.AllInIsRound3();
    s.MyShareRightIff();
    OneOff(c, s.committed, s.receivedShares);
  }

  lemma TwoNames()
    ensures {"a"} + {"b"} == {"a", "b"} && |{"a", "b"}| == 2
  {
  }

  ghost predicate SessionOfTwo(s: LocalDKGState, c: Curve, line: seq<nat>) {
    && s.c == c && s.participants == ["a", "b"] && s.pubkey == "a" && s.myIndex == 1
    && s.threshold == 2 && s.committed(2) == line
  }

  // The start of that session: the other participant accepts, and its share arrives.
  method EarlyShareFiled(c: Curve, line: seq<nat>) returns (s: LocalDKGState)
    requires c.ValidOrder() && line == [1, 1]
    ensures s.Valid() && s.Settled() && SessionOfTwo(s, c, line) && s.round >= 1 && s.early == {2}
    ensures 2 in s.receivedShares && s.receivedShares[2] == 3 && fresh(s)
  {
    hide LocalDKGState.Valid, LocalDKGState.Settled, ShareAt, IsPrime, Eval;
    s := Accepted(c, line);
    s.HandleShare("b", 2, 1, Some(3));
  }

  method Accepted(c: Curve, line: seq<nat>) returns (s: LocalDKGState)
    requires c.ValidOrder() && line == [1, 1]
    ensures s.Valid() && s.Settled() && SessionOfTwo(s, c, line) && s.round == 1 && s.early == {} && fresh(s)
    ensures s.receivedShares == map[] && 2 !in s.receivedCommits
  {
    ghost var committed: nat -> seq<nat> := (j: nat) => line;
    assert Committed(committed, 2, 2);
    hide Committed, LocalDKGState.Valid, LocalDKGState.Settled, ShareAt, IsPrime, Eval;
    s := new LocalDKGState(c, ["a", "b"], "a", 1, 2, line, committed);
    TwoNames();
    s.HandleAccept("b");
    s.CommitmentsByRound();
    assert 2 in Indices(2);
  }

  lemma OneOff(c: Curve, committed: nat -> seq<nat>, shares: map<nat, nat>)
    requires c.ValidOrder() && committed(2) == [1, 1] && 2 in shares && shares[2] == 3
    ensures !Cong(c.n, SumWithin(2, {2}, ShareError(c, committed, 1, shares)), 0)
  {
    var g := ShareError(c, committed, 1, shares);
    LinearAt([1, 1], 1);
    ResidueMod(c.n, 2);
    ResidueMod(c.n, 0);
    ResidueMod(c.n, 1);
    assert g(2) == 1;
    assert SumWithin(2, {2}, g) == SumWithin(1, {2}, g) + g(2) && SumWithin(1, {2}, g) == SumWithin(0, {2}, g) == 0;
  }

  lemma LinearAt(f: seq<nat>, x: nat)
    requires |f| == 2
    ensures Eval(f, x) == f[0] + x * f[1]
  {
    assert f[1..] == [f[1]] && f[1..][1..] == [];
    assert Eval(f[1..], x) == f[1];
  }

  // Any threshold of participants that finished sign under the key all of them computed.
  lemma GeneratedKeySigns(c: Curve, committed: nat -> seq<nat>, count: nat, threshold: nat,
                          signers: seq<Signer>, p: nat, message: seq<byte>)
    requires c.Valid() && |message| == 32 && count <= 255
    requires Committed(committed, count, threshold) && |signers| >= threshold
    requires forall i, j :: 0 <= i < j < |signers| ==> signers[i].id < signers[j].id
    requires forall s :: s in signers ==>
      1 <= s.id <= count && s.share == GroupValue(c, committed, count, threshold, s.id)
    requires p == GroupValue(c, committed, count, threshold, 0) && p != 0
    requires CeremonyNonce(c, signers, p, message) != 0
    ensures CeremonySucceeds(c, signers, p, message)
  {
    hide CeremonySucceeds, GroupPolynomial;
    ConsistentSharesSign(c, signers, Ids(signers), GroupPolynomial(committed, count, threshold), p, message);
  }
}
