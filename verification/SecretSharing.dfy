// Verifiable secret sharing: evaluating a secret polynomial at an index, checking a received share
// against the sender's public commitment, and public shares. An index is a byte, as in the source.
module SecretSharing {
  import opened PrimeField
  import opened Interpolation
  import opened EllipticCurve
  import opened Bip340Frost

  // The polynomial's value at an index; the source keeps only the low byte of the index.
  function ShareAt(c: Curve, coeffs: seq<nat>, index: nat): nat
    requires c.n > 0
  {
    Eval(coeffs, index % 256) % c.n
  }

  ghost predicate HoldsScalars(c: Curve, scalars: seq<Scalar>, values: seq<nat>)
    reads scalars
  {
    |scalars| == |values| && forall i :: 0 <= i < |scalars| ==> ValidScalar(c, scalars[i]) && scalars[i].v == values[i]
  }

  ghost predicate HoldsElements(c: Curve, elements: seq<Element>, values: seq<nat>)
    reads elements
  {
    && |elements| == |values|
    && forall i :: 0 <= i < |elements| ==> ValidElement(c, elements[i]) && elements[i].k == values[i]
  }

  // Truncation is harmless for every polynomial exactly when the index fits a byte.
  lemma TruncationHarmless(c: Curve, index: nat)
    requires c.ValidOrder() && index < c.n
    ensures (forall coeffs: seq<nat> :: ShareAt(c, coeffs, index) == Eval(coeffs, index) % c.n) <==> index < 256
  {
    if index >= 256 {
      var identity: seq<nat> := [0, 1];
      assert identity[1..] == [1] && [1][1..] == [];
      forall x: int
        ensures Eval(identity, x) == x
      {
        assert Eval([1], x) == 1 + x * Eval([], x) == 1;
        assert Eval(identity, x) == 0 + x * Eval([1], x);
      }
      ResidueMod(c.n, index);
      ResidueMod(c.n, index % 256);
      assert ShareAt(c, identity, index) != Eval(identity, index) % c.n;
    }
  }

  // One round of the accumulator loops: the value so far plus the power times the remaining
  // polynomial never changes.
  lemma AccumulatorStep(n: nat, x: int, coeffs: seq<nat>, i: nat, acc: nat, power: nat, acc': nat, power': nat,
                        value: int)
    requires n > 0 && i < |coeffs|
    requires Cong(n, acc + power * Eval(coeffs[i..], x), value)
    requires Cong(n, acc', acc + coeffs[i] * power) && Cong(n, power', power * x)
    ensures Cong(n, acc' + power' * Eval(coeffs[i + 1..], x), value)
  {
    assert coeffs[i..][1..] == coeffs[i + 1..];
    var rest := Eval(coeffs[i + 1..], x);
    CongMul(n, power', power * x, rest, rest);
    CongAdd(n, acc', acc + coeffs[i] * power, power' * rest, (power * x) * rest);
    SplitPower(power, coeffs[i], x, rest);
  }

  lemma SplitPower(power: int, a: int, x: int, rest: int)
    ensures power * (a + x * rest) == a * power + (power * x) * rest
  {
    Distribute(power, a, x * rest);
    MulAssoc(power, x, rest);
  }

  method EvaluatePolynomial(c: Curve, coeffs: seq<Scalar>, x: nat, ghost values: seq<nat>) returns (result: Scalar)
    requires c.ValidOrder() && HoldsScalars(c, coeffs, values)
    ensures fresh(result) && ValidScalar(c, result) && result.v == ShareAt(c, values, x)
  {
    hide Cong, Eval, IsPrime;
    result := new Scalar(c.n, 0);
    var xScalar := new Scalar(c.n, x % 256);
    var xPower := new Scalar(c.n, 1);
    ghost var value := Eval(values, x % 256);
    StartPower(c.n, value, x % 256);
    assert values[0..] == values;
    for i := 0 to |coeffs|
      invariant fresh(result) && fresh(xScalar) && fresh(xPower) && result != xPower && result != xScalar
      invariant xPower != xScalar
      invariant ValidScalar(c, result) && ValidScalar(c, xScalar) && ValidScalar(c, xPower) && xScalar.v == x % 256
      invariant Cong(c.n, result.v + xPower.v * Eval(values[i..], x % 256), value)
    {
      ghost var acc, power := result.v, xPower.v;
      var term := coeffs[i].Copy();
      term.Multiply(xPower);
      result.Add(term);
      xPower.Multiply(xScalar);
      ContributionCong(c.n, acc, values[i] * power);
      CongMod(c.n, power * (x % 256));
      AccumulatorStep(c.n, x % 256, values, i, acc, power, result.v, xPower.v, value);
    }
    FinishPower(c.n, result.v, xPower.v, values, |coeffs|, x % 256, value);
  }

  lemma StartPower(n: nat, value: int, x: nat)
    requires n > 65535 && x < 256
    ensures Cong(n, 0 % n + (1 % n) * value, value) && x % n == x
  {
    ResidueMod(n, 0);
    ResidueMod(n, 1);
    ResidueMod(n, x);
  }

  lemma FinishPower(n: nat, acc: nat, power: nat, values: seq<nat>, i: nat, x: int, value: int)
    requires n > 0 && acc < n && i == |values| && Cong(n, acc + power * Eval(values[i..], x), value)
    ensures acc == value % n
  {
    assert values[i..] == [];
    ResidueMod(n, acc);
  }

  // The public share of an index: the sum of C_j * index^j over the commitment.
  method ComputePublicShareContribution(c: Curve, index: nat, commitment: seq<Element>, ghost values: seq<nat>)
    returns (result: Element)
    requires c.ValidOrder() && HoldsElements(c, commitment, values)
    ensures fresh(result) && ValidElement(c, result) && result.k == ShareAt(c, values, index)
  {
    hide Cong, Eval, IsPrime;
    result := new Element(c.n, 0);
    var xScalar := new Scalar(c.n, index % 256);
    var xPower := new Scalar(c.n, 1);
    ghost var value := Eval(values, index % 256);
    StartPower(c.n, value, index % 256);
    assert values[0..] == values;
    for i := 0 to |commitment|
      invariant fresh(result) && fresh(xScalar) && fresh(xPower) && xPower != xScalar
      invariant ValidElement(c, result) && ValidScalar(c, xScalar) && ValidScalar(c, xPower) && xScalar.v == index % 256
      invariant Cong(c.n, result.k + xPower.v * Eval(values[i..], index % 256), value)
    {
      ghost var acc, power := result.k, xPower.v;
      var term := commitment[i].Copy();
      term.Multiply(xPower);
      result.Add(term);
      xPower.Multiply(xScalar);
      ContributionCong(c.n, acc, values[i] * power);
      CongMod(c.n, power * (index % 256));
      AccumulatorStep(c.n, index % 256, values, i, acc, power, result.k, xPower.v, value);
    }
    FinishPower(c.n, result.k, xPower.v, values, |commitment|, index % 256, value);
  }

  // A share is accepted exactly when it is the committed polynomial's value at the index. The source
  // repeats the loop of the public share here; it is the same sum.
  method VerifyShareAgainstCommitment(c: Curve, share: Scalar, index: nat, commitment: seq<Element>,
                                      ghost values: seq<nat>)
    returns (ok: bool)
    requires c.ValidOrder() && ValidScalar(c, share) && HoldsElements(c, commitment, values)
    ensures ok <==> share.v == ShareAt(c, values, index)
  {
    var expected := BaseMultiply(share);
    var computed := ComputePublicShareContribution(c, index, commitment, values);
    ok := expected.k == computed.k;
  }
}
