// The receiving side of sealed messages between replicas: a time window around the sender's timestamp and
// a cache of nonces, purged as it is used, that together refuse replays.
module ReplayCache {
  import opened Wrappers
  import opened Bytes
  import opened Text

  // Times in nanoseconds.
  const SECOND: int := 1_000_000_000
  const SKEW: int := 30 * SECOND

  datatype Endpoint = SessionForward | Eviction

  // One delivery of a message: the two headers and the body, the instant its timestamp was checked, and the
  // instant its nonce was looked up.
  datatype Delivery = Delivery(
    endpoint: Endpoint, timestamp: string, nonce: string, body: seq<byte>, checked: int, used: int)

  // What was sealed: everything but the spelling of the nonce and the instants.
  datatype Message = Message(endpoint: Endpoint, timestamp: string, nonce: seq<byte>, body: seq<byte>)

  function MessageOf(d: Delivery): Message
    requires HexDecode(d.nonce).Some?
  {
    Message(d.endpoint, d.timestamp, HexDecode(d.nonce).value, d.body)
  }

  function Abs(x: int): int {
    if x < 0 then 0 - x else x
  }

  predicate InWindow(timestamp: string, now: int) {
    ParseInt(timestamp).Some? && Abs(now - ParseInt(timestamp).value * SECOND) <= SKEW
  }

  // What a seal is bound to.
  function BoundTo(endpoint: Endpoint, timestamp: string): string {
    (if endpoint.SessionForward? then "req|" else "evict|") + timestamp
  }

  // Sealing a body under a nonce and the data it is bound to, and opening it.
  datatype Opener = Opener(
    nonceSize: nat,
    seal: (seq<byte>, seq<byte>, string) -> seq<byte>,
    open: (seq<byte>, seq<byte>, string) -> Option<seq<byte>>)
  {
    // A sealed body opens under its own nonce and bound data only.
    ghost predicate Valid() {
      forall nonce, nonce', plain, bound, bound' ::
        open(nonce', seal(nonce, plain, bound), bound')
        == if nonce' == nonce && bound' == bound then Some(plain) else None
    }

    function Bound(d: Delivery): string {
      BoundTo(d.endpoint, d.timestamp)
    }

    // All checks before the cache.
    predicate Authentic(d: Delivery) {
      && InWindow(d.timestamp, d.checked)
      && HexDecode(d.nonce).Some? && |HexDecode(d.nonce).value| == nonceSize
      && open(HexDecode(d.nonce).value, d.body, Bound(d)).Some?
    }
  }

  // The bound data tells endpoints and timestamps apart.
  lemma BoundApart(d: Delivery, e: Delivery, o: Opener)
    ensures o.Bound(d) == o.Bound(e) <==> d.endpoint == e.endpoint && d.timestamp == e.timestamp
  {
    var b, b' := o.Bound(d), o.Bound(e);
    if d.endpoint == e.endpoint {
      var n := if d.endpoint.SessionForward? then 4 else 6;
      assert b[n..] == d.timestamp && b'[n..] == e.timestamp;
    } else {
      assert b[0] != b'[0];
    }
  }

  // What another replica sealed in the second it says is authentic exactly at its own endpoint, under its
  // own timestamp and nonce, and within the skew of that second.
  lemma SealedAuthenticIff(o: Opener, endpoint: Endpoint, plain: seq<byte>, sent: nat, nonce: seq<byte>, d: Delivery)
    requires o.Valid() && |nonce| == o.nonceSize && d.body == o.seal(nonce, plain, BoundTo(endpoint, Decimal(sent)))
    ensures o.Authentic(d) <==>
      && d.endpoint == endpoint && d.timestamp == Decimal(sent) && HexDecode(d.nonce) == Some(nonce)
      && -SKEW <= d.checked - sent * SECOND <= SKEW
    ensures HexDecode(HexEncode(nonce)) == Some(nonce)
  {
    HexRoundTrip(nonce);
    ParseDecimal(sent);
    assert Decimal(sent)[0] != '+' && Decimal(sent)[0] != '-';
    BoundApart(d, Delivery(endpoint, Decimal(sent), d.nonce, d.body, d.checked, d.used), o);
  }

  // ----- the cache

  function Purged(seen: map<string, int>, now: int): map<string, int> {
    map nonce | nonce in seen && now - seen[nonce] <= 2 * SKEW :: seen[nonce]
  }

  predicate IsFirstUse(seen: map<string, int>, nonce: string, now: int) {
    nonce !in Purged(seen, now)
  }

  function AfterUse(seen: map<string, int>, nonce: string, now: int): map<string, int> {
    if IsFirstUse(seen, nonce, now) then Purged(seen, now)[nonce := now] else Purged(seen, now)
  }

  predicate Accepts(o: Opener, seen: map<string, int>, d: Delivery) {
    o.Authentic(d) && IsFirstUse(seen, d.nonce, d.used)
  }

  function AfterDelivery(o: Opener, seen: map<string, int>, d: Delivery): map<string, int> {
    if o.Authentic(d) then AfterUse(seen, d.nonce, d.used) else seen
  }

  class Forwarder {
    const o: Opener
    var seen: map<string, int>

    constructor (o: Opener)
      ensures this.o == o && seen == map[]
    {
      this.o, seen := o, map[];
    }

    method FirstUse(nonce: string, now: int) returns (first: bool)
      modifies this
      ensures first <==> IsFirstUse(old(seen), nonce, now)
      ensures seen == AfterUse(old(seen), nonce, now)
    {
      Purge(now);
      if nonce in seen {
        return false;
      }
      seen := seen[nonce := now];
      return true;
    }

    method Purge(now: int)
      modifies this
      ensures seen == Purged(old(seen), now)
    {
      var rest := seen.Keys;
      while rest != {}
        invariant rest <= seen.Keys
        invariant forall n :: n in seen ==> n in old(seen) && seen[n] == old(seen)[n]
        invariant forall n :: n in old(seen) && now - old(seen)[n] <= 2 * SKEW ==> n in seen
        invariant forall n :: n in seen && n !in rest ==> now - seen[n] <= 2 * SKEW
      {
        var n :| n in rest;
        rest := rest - {n};
        if now - seen[n] > 2 * SKEW {
          seen := seen - {n};
        }
      }
    }

    method Receive(d: Delivery) returns (accepted: bool)
      modifies this
      ensures accepted <==> Accepts(o, old(seen), d)
      ensures seen == AfterDelivery(o, old(seen), d)
    {
      if !InWindow(d.timestamp, d.checked) {
        return false;
      }
      var nonce := HexDecode(d.nonce);
      if nonce.None? || |nonce.value| != o.nonceSize {
        return false;
      }
      if o.open(nonce.value, d.body, o.Bound(d)).None? {
        return false;
      }
      accepted := this.FirstUse(d.nonce, d.used);
    }

    // A replica's whole life: which deliveries it accepts.
    method Serve(ds: seq<Delivery>) returns (accepted: seq<bool>)
      requires seen == map[]
      modifies this
      ensures |accepted| == |ds| && forall i :: 0 <= i < |ds| ==> accepted[i] == AcceptedAt(o, ds, i)
    {
      accepted := [];
      for i := 0 to |ds|
        invariant |accepted| == i && seen == SeenAfter(o, ds[..i])
        invariant forall j :: 0 <= j < i ==> accepted[j] == AcceptedAt(o, ds, j)
      {
        assert ds[..i + 1][..i] == ds[..i];
        var ok := Receive(ds[i]);
        accepted := accepted + [ok];
      }
    }
  }

  // ----- whole runs

  function SeenAfter(o: Opener, ds: seq<Delivery>): map<string, int> {
    if ds == [] then map[] else AfterDelivery(o, SeenAfter(o, ds[..|ds| - 1]), ds[|ds| - 1])
  }

  predicate AcceptedAt(o: Opener, ds: seq<Delivery>, i: nat)
    requires i < |ds|
  {
    Accepts(o, SeenAfter(o, ds[..i]), ds[i])
  }

  // The entry that the accepted delivery k made has been purged among the first n deliveries.
  predicate Purges(o: Opener, ds: seq<Delivery>, k: nat, n: nat)
    requires k < n <= |ds|
  {
    exists m :: k < m < n && o.Authentic(ds[m]) && ds[m].used - ds[k].used > 2 * SKEW
  }

  lemma PurgesInPrefix(o: Opener, ds: seq<Delivery>, k: nat, n: nat)
    requires k < n <= |ds|
    ensures Purges(o, ds[..n], k, n) <==> Purges(o, ds, k, n)
    ensures n < |ds| ==>
      (Purges(o, ds, k, n + 1) <==>
        Purges(o, ds, k, n) || (o.Authentic(ds[n]) && ds[n].used - ds[k].used > 2 * SKEW))
    ensures AcceptedAt(o, ds[..n], k) <==> AcceptedAt(o, ds, k)
  {
    assert ds[..n][..k] == ds[..k] && forall m :: 0 <= m < n ==> ds[..n][m] == ds[m];
    hide Opener.Authentic, AcceptedAt;
  }

  // An accepted nonce stays in the cache until a delivery purges it.
  lemma {:induction false} Remembered(o: Opener, ds: seq<Delivery>, k: nat)
    requires k < |ds| && AcceptedAt(o, ds, k) && !Purges(o, ds, k, |ds|)
    ensures ds[k].nonce in SeenAfter(o, ds) && SeenAfter(o, ds)[ds[k].nonce] == ds[k].used
  {
    var last := |ds| - 1;
    if k < last {
      PurgesInPrefix(o, ds, k, last);
      assert ds[..last][k] == ds[k];
      Remembered(o, ds[..last], k);
    }
    hide Purges, Opener.Authentic;
  }

  // Every cached entry was made by an accepted delivery and has not been purged since.
  lemma {:induction false} CachedWasAccepted(o: Opener, ds: seq<Delivery>, nonce: string) returns (k: nat)
    requires nonce in SeenAfter(o, ds)
    ensures k < |ds| && AcceptedAt(o, ds, k) && ds[k].nonce == nonce && ds[k].used == SeenAfter(o, ds)[nonce]
    ensures !Purges(o, ds, k, |ds|)
  {
    var last := |ds| - 1;
    var before := ds[..last];
    if o.Authentic(ds[last]) && ds[last].nonce == nonce && IsFirstUse(SeenAfter(o, before), nonce, ds[last].used) {
      k := last;
    } else {
      k := CachedWasAccepted(o, before, nonce);
      PurgesInPrefix(o, ds, k, last);
      assert before[k] == ds[k];
    }
  }

  // In any run, whatever the order in which deliveries reach the cache, a delivery is accepted exactly if
  // it is authentic and every accepted one before it under the same spelling of the nonce has been purged,
  // by itself or by a delivery in between whose instant is past the retention.
  lemma AcceptedIff(o: Opener, ds: seq<Delivery>, j: nat)
    requires j < |ds|
    ensures AcceptedAt(o, ds, j) <==>
      && o.Authentic(ds[j])
      && forall k :: 0 <= k < j && AcceptedAt(o, ds, k) && ds[k].nonce == ds[j].nonce ==> Purges(o, ds, k, j + 1)
  {
    if AcceptedAt(o, ds, j) {
      forall k | 0 <= k < j && AcceptedAt(o, ds, k) && ds[k].nonce == ds[j].nonce
        ensures Purges(o, ds, k, j + 1)
      {
        KeptRefuses(o, ds, k, j);
      }
    } else if o.Authentic(ds[j]) {
      var k := KeptEntry(o, ds, j);
    }
  }

  // While its entry is kept, a spelling is refused.
  lemma KeptRefuses(o: Opener, ds: seq<Delivery>, k: nat, j: nat)
    requires k < j < |ds| && AcceptedAt(o, ds, k) && ds[k].nonce == ds[j].nonce && AcceptedAt(o, ds, j)
    ensures Purges(o, ds, k, j + 1)
  {
    PurgesInPrefix(o, ds, k, j);
    assert ds[..j][k] == ds[k];
    if !Purges(o, ds, k, j) {
      Remembered(o, ds[..j], k);
    }
    hide Purges;
  }

  // What refuses an authentic delivery.
  lemma KeptEntry(o: Opener, ds: seq<Delivery>, j: nat) returns (k: nat)
    requires j < |ds| && o.Authentic(ds[j]) && !AcceptedAt(o, ds, j)
    ensures k < j && AcceptedAt(o, ds, k) && ds[k].nonce == ds[j].nonce && !Purges(o, ds, k, j + 1)
  {
    k := CachedWasAccepted(o, ds[..j], ds[j].nonce);
    PurgesInPrefix(o, ds, k, j);
    assert ds[..j][k] == ds[k];
    hide Purges;
  }

  // Two acceptances inside one timestamp's window are within the retention: the two meet exactly.
  lemma WindowWithinRetention(o: Opener, d: Delivery, e: Delivery)
    requires o.Authentic(d) && o.Authentic(e) && d.timestamp == e.timestamp && d.checked == d.used
    requires e.checked == e.used
    ensures e.used - d.used <= 2 * SKEW
  {
  }

  predicate Canonical(d: Delivery) {
    forall i :: 0 <= i < |d.nonce| ==> !UpperCase(d.nonce[i])
  }

  // Nothing that reaches the cache after i and before j carries a later instant than j.
  predicate NotOvertaken(ds: seq<Delivery>, i: nat, j: nat)
    requires i < j < |ds|
  {
    forall m :: i < m < j ==> ds[m].used <= ds[j].used
  }

  // With the skew and the cache judged at one instant, the nonce spelt in lower case and the second delivery
  // not overtaken on its way to the cache, no message is accepted twice, however often and whenever it is
  // delivered, and whatever else arrives.
  lemma NeverAcceptedTwice(o: Opener, ds: seq<Delivery>, i: nat, j: nat)
    requires i < j < |ds| && NotOvertaken(ds, i, j) && AcceptedAt(o, ds, i) && HexDecode(ds[j].nonce).Some?
    requires ds[i].checked == ds[i].used && ds[j].checked == ds[j].used && Canonical(ds[i]) && Canonical(ds[j])
    requires MessageOf(ds[i]) == MessageOf(ds[j])
    ensures !AcceptedAt(o, ds, j)
  {
    CanonicalIff(ds[i].nonce);
    CanonicalIff(ds[j].nonce);
    AcceptedIff(o, ds, j);
    if o.Authentic(ds[j]) {
      WindowWithinRetention(o, ds[i], ds[j]);
    }
  }

  // ----- what a replay needs

  // Respelling a letter of the nonce is enough for a second acceptance at the same instant.
  lemma RespelledNonceReplays(o: Opener, first: Delivery, second: Delivery)
    requires Accepts(o, map[], first) && HexDecode(second.nonce).Some? && MessageOf(first) == MessageOf(second)
    requires second.checked == first.checked && second.used == first.used && first.nonce != second.nonce
    ensures Accepts(o, AfterDelivery(o, map[], first), second)
  {
  }

  // A delay of the second delivery between its two checks, of just over the first one's earliness, is
  // enough as well.
  lemma DelayedDeliveryReplays(o: Opener, d: Delivery)
    requires o.Authentic(d) && d.checked == d.used == ParseInt(d.timestamp).value * SECOND - SKEW
    ensures var again := d.(checked := d.used + 2 * SKEW, used := d.used + 2 * SKEW + 1);
            Accepts(o, map[], d) && Accepts(o, AfterDelivery(o, map[], d), again)
  {
  }

  // So is another delivery whose instant is read just after the second one's but which reaches the cache
  // just before it: it purges the first use.
  lemma OvertakenDeliveryReplays(o: Opener, d: Delivery, other: Delivery)
    requires o.Authentic(d) && d.checked == d.used == ParseInt(d.timestamp).value * SECOND - SKEW
    requires o.Authentic(other) && other.nonce != d.nonce && other.checked == other.used == d.used + 2 * SKEW + 1
    ensures var again := d.(checked := d.used + 2 * SKEW, used := d.used + 2 * SKEW);
            var ds := [d, other, again];
            AcceptedAt(o, ds, 0) && AcceptedAt(o, ds, 2) && MessageOf(ds[0]) == MessageOf(ds[2])
  {
    var again := d.(checked := d.used + 2 * SKEW, used := d.used + 2 * SKEW);
    var ds := [d, other, again];
    assert ds[..0] == [] && ds[..1] == [d] && ds[..2] == [d, other];
    assert Purges(o, ds, 0, 3) by {
      assert ds[1] == other;
    }
    AcceptedIff(o, ds, 2);
    assert o.Authentic(again);
  }
}
