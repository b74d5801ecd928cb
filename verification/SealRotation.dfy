// One rotation pass over the Vault seals, with key rotations, sign-ins, renewals, removals and expiries
// slipped in between any two of its store and Vault operations, and any of those operations failing.
module SealRotation {
  import opened Wrappers
  import opened Text

  // ----- the blob format

  // "vt1:" and "vault:v"
  const BLOB_PREFIX := "vt1:"
  const VERSION_PREFIX := "vault:v"

  function VaultKeyVersion(blob: string): int {
    var ciphertext := StripPrefix(blob, BLOB_PREFIX);
    if ciphertext.None? then 0
    else
      var numbered := StripPrefix(ciphertext.value, VERSION_PREFIX);
      if numbered.None? then 0
      else
        var v := ParseInt(Before(numbered.value, ':'));
        if v.None? || v.value < 1 then 0 else v.value
  }

  // A ciphertext Vault makes under version v of the key, and the stored blob of a ciphertext.
  function Ciphertext(v: nat, payload: string): string {
    VERSION_PREFIX + Decimal(v) + ":" + payload
  }

  function VaultBlob(ciphertext: string): string {
    BLOB_PREFIX + ciphertext
  }

  // Reading the version back from a blob gives the version it was made under.
  lemma VersionRoundTrip(v: nat, payload: string)
    requires v >= 1
    ensures VaultKeyVersion(VaultBlob(Ciphertext(v, payload))) == v
  {
    var ct, d := Ciphertext(v, payload), Decimal(v);
    assert VaultBlob(ct)[|BLOB_PREFIX|..] == ct;
    assert ct[|VERSION_PREFIX|..] == d + [':'] + payload;
    BeforeMark(d, ':', payload);
    ParseDecimal(v);
    assert d[0] != '+' && d[0] != '-';
  }

  // The version of a blob is positive only if the prefixes are followed by that number, up to a colon or the
  // end; of any other text it is zero.
  lemma VersionMeans(blob: string)
    ensures var v := VaultKeyVersion(blob);
            && v >= 0
            && (v > 0 <==>
                  && BLOB_PREFIX + VERSION_PREFIX <= blob
                  && var number := Before(blob[|BLOB_PREFIX + VERSION_PREFIX|..], ':');
                     ParseInt(number).Some? && ParseInt(number).value > 0)
            && (v > 0 ==> ParseInt(Before(blob[|BLOB_PREFIX + VERSION_PREFIX|..], ':')) == Some(v))
  {
    var prefix := BLOB_PREFIX + VERSION_PREFIX;
    if prefix <= blob {
      assert blob[|BLOB_PREFIX|..][|VERSION_PREFIX|..] == blob[|prefix|..];
    }
    hide ParseInt, Before;
  }

  // ----- the store and the sealing key

  // A stored seal. secret is what its blob opens to.
  datatype Row = Row(session: string, key: string, vault: bool, blob: string, secret: string, expired: bool)
  {
    function Version(): int {
      VaultKeyVersion(blob)
    }

    predicate LiveVault() {
      vault && !expired
    }
  }

  // used collects every seal id ever given out.
  datatype World = World(latest: nat, minDec: int, rows: map<string, Row>, used: set<string>)
  {
    ghost predicate Valid() {
      && 1 <= minDec <= latest
      && rows.Keys <= used
      && forall id :: id in rows && rows[id].vault ==> rows[id].Version() <= latest
    }
  }

  // What others do between two operations of the pass. A sign-in seals and stores; the two may come apart,
  // and Store is then the second half, for a blob made earlier. Extend renews a session's seals.
  datatype Step =
    | RotateKey
    | SignIn(id: string, session: string, key: string, vault: bool, payload: string, secret: string)
    | Store(id: string, session: string, key: string, vault: bool, blob: string, secret: string)
    | Extend(session: string)
    | Remove(id: string)
    | Expire(id: string)

  // A new row replaces its session's row for the same key.
  function WithRow(w: World, id: string, row: Row): World {
    var others := map x | x in w.rows && !(w.rows[x].session == row.session && w.rows[x].key == row.key) :: w.rows[x];
    w.(rows := others[id := row], used := w.used + {id})
  }

  function Act(w: World, step: Step): World {
    match step
    case RotateKey => w.(latest := w.latest + 1)
    case SignIn(id, session, key, vault, payload, secret) =>
      if id in w.used then w
      else WithRow(w, id, Row(session, key, vault, VaultBlob(Ciphertext(w.latest, payload)), secret, false))
    case Store(id, session, key, vault, blob, secret) =>
      if id in w.used || VaultKeyVersion(blob) > w.latest then w
      else WithRow(w, id, Row(session, key, vault, blob, secret, false))
    case Extend(session) =>
      w.(rows := map id | id in w.rows ::
        if w.rows[id].session == session then w.rows[id].(expired := false) else w.rows[id])
    case Remove(id) => w.(rows := w.rows - {id})
    case Expire(id) => if id in w.rows then w.(rows := w.rows[id := w.rows[id].(expired := true)]) else w
  }

  function ActAll(w: World, steps: seq<Step>): World {
    if steps == [] then w else Act(ActAll(w, steps[..|steps| - 1]), steps[|steps| - 1])
  }

  // ----- what the pass must keep

  // Every seal of w that was known in w1 is the seal it was then, up to its blob and expiry, and its key
  // version has not gone down.
  ghost predicate SameSeals(w1: World, w: World) {
    && w1.used <= w.used
    && forall id :: id in w.rows && id in w1.used ==>
         && id in w1.rows
         && w.rows[id] == w1.rows[id].(blob := w.rows[id].blob, expired := w.rows[id].expired)
         && (w.rows[id].vault ==> w1.rows[id].Version() <= w.rows[id].Version())
  }

  // Since w0, no live Vault seal that could be opened has fallen below the minimum, and every surviving
  // seal still holds the secret it held.
  ghost predicate Protects(w0: World, w: World) {
    && w.Valid() && SameSeals(w0, w)
    && forall id :: id in w.rows && w.rows[id].LiveVault() && w.rows[id].Version() < w.minDec ==>
         w.rows[id].Version() < w0.minDec
  }

  // Under way, before the minimum is raised. Seals in pending are as they were listed.
  ghost predicate Underway(w0: World, listed: World, latest: int, pending: set<string>, w: World) {
    && w0.Valid() && w.Valid() && SameSeals(w0, w) && SameSeals(listed, w)
    && w.minDec == w0.minDec <= w0.latest <= latest <= w.latest
    && pending <= listed.used
    && forall id :: id in w.rows && id in pending ==> id in listed.rows && w.rows[id].blob == listed.rows[id].blob
  }

  // Every live Vault seal that is not pending is at latest, or was dead before.
  ghost predicate Settled(w: World, latest: int, pending: set<string>) {
    forall id :: id in w.rows && w.rows[id].LiveVault() && id !in pending ==>
      w.rows[id].Version() >= latest || w.rows[id].Version() < w.minDec
  }

  // A step that makes no openable Vault seal live below latest, behind the pass's back: a blob stored after
  // it was made is at latest, and so is an expired seal that is renewed, unless it is still pending.
  predicate Harmless(w: World, step: Step, latest: int, pending: set<string>) {
    match step
    case Store(id, _, _, vault, blob, _) =>
      vault && id !in w.used && VaultKeyVersion(blob) <= w.latest ==>
        VaultKeyVersion(blob) >= latest || VaultKeyVersion(blob) < w.minDec
    case Extend(session) =>
      forall id :: id in w.rows && w.rows[id].session == session && w.rows[id].vault && id !in pending ==>
        w.rows[id].Version() >= latest || w.rows[id].Version() < w.minDec
    case _ => true
  }

  lemma ActIsValid(w: World, step: Step)
    requires w.Valid()
    ensures Act(w, step).Valid() && SameSeals(w, Act(w, step))
  {
    hide VaultKeyVersion, VaultBlob, Ciphertext;
    if step.SignIn? {
      VersionRoundTrip(w.latest, step.payload);
    }
  }

  lemma SameSealsTransitive(w1: World, w2: World, w3: World)
    requires SameSeals(w1, w2) && SameSeals(w2, w3)
    ensures SameSeals(w1, w3)
  {
    hide VaultKeyVersion;
  }

  // Whatever others do, at whatever moment before the minimum is raised, every seal is protected.
  lemma ActKeepsUnderway(w0: World, listed: World, latest: int, pending: set<string>, w: World, step: Step)
    requires Underway(w0, listed, latest, pending, w)
    ensures Underway(w0, listed, latest, pending, Act(w, step))
  {
    ActIsValid(w, step);
    SameSealsTransitive(w0, w, Act(w, step));
    SameSealsTransitive(listed, w, Act(w, step));
    hide SameSeals, VaultKeyVersion;
  }

  lemma UnderwayProtects(w0: World, listed: World, latest: int, pending: set<string>, w: World)
    requires Underway(w0, listed, latest, pending, w)
    ensures Protects(w0, w)
  {
  }

  // After the listing, a step leaves the pass safe exactly if it is harmless.
  lemma SettledIffHarmless(w0: World, listed: World, latest: int, pending: set<string>, w: World, step: Step)
    requires Underway(w0, listed, latest, pending, w) && Settled(w, latest, pending)
    ensures Settled(Act(w, step), latest, pending) <==> Harmless(w, step, latest, pending)
  {
    assert pending <= w.used;
    hide VaultKeyVersion, VaultBlob, Ciphertext, SameSeals;
    var w' := Act(w, step);
    match step
    case SignIn(_, _, _, _, payload, _) => VersionRoundTrip(w.latest, payload);
    case Extend(session) =>
      forall id | id in w.rows
        ensures id in w'.rows && w'.rows[id].Version() == w.rows[id].Version()
        ensures w'.rows[id].LiveVault() <==> w.rows[id].vault && (w.rows[id].session == session || !w.rows[id].expired)
      {
      }
    case _ =>
  }

  // Raising the minimum with nothing pending is safe exactly then.
  lemma RaiseProtectsIff(w0: World, listed: World, latest: int, w: World)
    requires Underway(w0, listed, latest, {}, w)
    ensures Protects(w0, w.(minDec := latest)) <==> Settled(w, latest, {})
  {
    hide VaultKeyVersion;
  }

  // ----- what the pass does

  // An operation succeeds, fails without effect, or takes effect with its reply lost.
  datatype Reply = Done | Failed | Lost

  datatype RotateError = VersionsUnread | SealsUnlisted | SealsLeft(failed: nat) | MinimumUnraised

  // What surrounds a pass: what others do at each point, how each operation fares, and what Vault's
  // rewrapping makes of each seal.
  datatype Surroundings = Surroundings(steps: nat -> seq<Step>, reply: nat -> Reply, payload: nat -> string)

  // The state of the loop over the listed seals; harmless tells whether all steps of others since the
  // listing were.
  datatype Loop = Loop(w: World, pending: set<string>, rewrapped: nat, failed: nat, harmless: bool)

  predicate AllHarmless(w: World, steps: seq<Step>, latest: int, pending: set<string>) {
    steps == []
    || (AllHarmless(w, steps[..|steps| - 1], latest, pending)
        && Harmless(ActAll(w, steps[..|steps| - 1]), steps[|steps| - 1], latest, pending))
  }

  function AfterOthers(l: Loop, steps: seq<Step>, latest: int): Loop {
    l.(w := ActAll(l.w, steps), harmless := l.harmless && AllHarmless(l.w, steps, latest, l.pending))
  }

  // A seal is stale if it still opens but was sealed under an older version.
  predicate Stale(row: Row, latest: int, minDec: int) {
    row.vault && minDec <= row.Version() < latest
  }

  function WithBlob(w: World, id: string, version: nat, payload: string, secret: string): World
    requires id in w.rows
  {
    w.(rows := w.rows[id := w.rows[id].(blob := VaultBlob(Ciphertext(version, payload)), secret := secret)])
  }

  // One listed seal: others act, a stale seal is rewrapped, others act again, the new blob is stored.
  function Handled(l: Loop, id: string, row: Row, latest: int, minDec: int, first: seq<Step>, second: seq<Step>,
                   rewrap: Reply, store: Reply, payload: string): Loop
  {
    var l1 := AfterOthers(l, first, latest);
    if !Stale(row, latest, minDec) then l1.(pending := l1.pending - {id})
    else if !rewrap.Done? then l1.(failed := l1.failed + 1)
    else
      var l2 := AfterOthers(l1, second, latest);
      if store.Failed? || id !in l2.w.rows then l2.(failed := l2.failed + 1)
      else
        Loop(WithBlob(l2.w, id, l1.w.latest, payload, row.secret), l2.pending - {id},
             l2.rewrapped + (if store.Done? then 1 else 0), l2.failed + (if store.Done? then 0 else 1), l2.harmless)
  }

  function LoopAfter(l: Loop, list: seq<(string, Row)>, n: nat, latest: int, minDec: int, around: Surroundings): Loop
    requires n <= |list|
  {
    if n == 0 then l
    else
      Handled(LoopAfter(l, list, n - 1, latest, minDec, around), list[n - 1].0, list[n - 1].1, latest, minDec,
              around.steps(2 * n), around.steps(2 * n + 1), around.reply(2 * n + 1), around.reply(2 * n + 2),
              around.payload(n - 1))
  }

  // The two moments before the loop: the versions are read in the one, the seals listed in the other.
  function AtReading(w0: World, around: Surroundings): World {
    ActAll(w0, around.steps(0))
  }

  function AtListing(w0: World, around: Surroundings): World {
    ActAll(AtReading(w0, around), around.steps(1))
  }

  // The moment before the minimum is raised.
  function AtRaising(w0: World, list: seq<(string, Row)>, around: Surroundings): Loop {
    var read, listed := AtReading(w0, around), AtListing(w0, around);
    var l := LoopAfter(Loop(listed, IdsOf(list), 0, 0, true), list, |list|, read.latest, read.minDec, around);
    if l.failed > 0 then l else AfterOthers(l, around.steps(2 + 2 * |list|), read.latest)
  }

  datatype Pass = Pass(result: Result<nat, RotateError>, w: World)

  function PassOf(w0: World, list: seq<(string, Row)>, around: Surroundings): Pass {
    var read, l := AtReading(w0, around), AtRaising(w0, list, around);
    if !around.reply(0).Done? then Pass(Err(VersionsUnread), read)
    else if !around.reply(1).Done? then Pass(Err(SealsUnlisted), AtListing(w0, around))
    else if l.failed > 0 then Pass(Err(SealsLeft(l.failed)), l.w)
    else if read.minDec >= read.latest then Pass(Ok(l.rewrapped), l.w)
    else
      Pass(if around.reply(2).Done? then Ok(l.rewrapped) else Err(MinimumUnraised),
           if around.reply(2).Failed? then l.w else l.w.(minDec := read.latest))
  }

  function IdsOf(list: seq<(string, Row)>): (ids: set<string>)
    ensures forall id :: id in ids <==> exists i :: 0 <= i < |list| && list[i].0 == id
  {
    if list == [] then {} else {list[0].0} + IdsOf(list[1..])
  }

  // The live seals of w, each once, in any order.
  ghost predicate Lists(list: seq<(string, Row)>, w: World) {
    && (forall i :: 0 <= i < |list| ==> list[i].0 in w.rows && w.rows[list[i].0] == list[i].1 && !list[i].1.expired)
    && (forall id :: id in w.rows && !w.rows[id].expired ==> id in IdsOf(list))
    && (forall i, j :: 0 <= i < j < |list| ==> list[i].0 != list[j].0)
  }

  // ----- the pass keeps every seal

  lemma {:induction false} ActAllKeepsUnderway(w0: World, listed: World, latest: int, pending: set<string>, w: World,
                                               steps: seq<Step>)
    requires Underway(w0, listed, latest, pending, w)
    ensures Underway(w0, listed, latest, pending, ActAll(w, steps))
    ensures Settled(w, latest, pending) && AllHarmless(w, steps, latest, pending) ==>
      Settled(ActAll(w, steps), latest, pending)
  {
    hide Underway, Settled, Harmless;
    if steps != [] {
      var rest, last := steps[..|steps| - 1], steps[|steps| - 1];
      ActAllKeepsUnderway(w0, listed, latest, pending, w, rest);
      ActKeepsUnderway(w0, listed, latest, pending, ActAll(w, rest), last);
      if Settled(ActAll(w, rest), latest, pending) {
        SettledIffHarmless(w0, listed, latest, pending, ActAll(w, rest), last);
      }
    }
  }

  // The invariant of the loop.
  ghost predicate Going(w0: World, listed: World, latest: int, l: Loop) {
    Underway(w0, listed, latest, l.pending, l.w) && (l.harmless ==> Settled(l.w, latest, l.pending))
  }

  lemma OthersKeepGoing(w0: World, listed: World, latest: int, l: Loop, steps: seq<Step>)
    requires Going(w0, listed, latest, l)
    ensures Going(w0, listed, latest, AfterOthers(l, steps, latest))
  {
    ActAllKeepsUnderway(w0, listed, latest, l.pending, l.w, steps);
    hide Underway, Settled, AllHarmless;
  }

  lemma SkippedKeepsGoing(w0: World, listed: World, latest: int, l: Loop, id: string)
    requires Going(w0, listed, latest, l) && id in listed.rows && !Stale(listed.rows[id], latest, w0.minDec)
    ensures Going(w0, listed, latest, l.(pending := l.pending - {id}))
  {
    hide VaultKeyVersion;
  }

  lemma StoredKeepsGoing(w0: World, listed: World, latest: int, l: Loop, id: string, version: nat, payload: string)
    requires Going(w0, listed, latest, l) && id in listed.rows && id in listed.used && id in l.w.rows
    requires Stale(listed.rows[id], latest, w0.minDec) && latest <= version <= l.w.latest
    ensures Going(w0, listed, latest, l.(w := WithBlob(l.w, id, version, payload, listed.rows[id].secret),
                                         pending := l.pending - {id}))
  {
    var w' := WithBlob(l.w, id, version, payload, listed.rows[id].secret);
    VersionRoundTrip(version, payload);
    StoredIsSame(w0, listed, latest, l.pending, l.w, id, w');
    assert w'.rows[id].Version() == version;
    hide VaultKeyVersion, VaultBlob, Ciphertext, SameSeals;
    assert Settled(l.w, latest, l.pending) ==> Settled(w', latest, l.pending - {id});
  }

  lemma StoredIsSame(w0: World, listed: World, latest: int, pending: set<string>, w: World, id: string, w': World)
    requires Underway(w0, listed, latest, pending, w)
    requires id in listed.rows && id in listed.used && id in w.rows && id in w'.rows
    requires w' == w.(rows := w.rows[id := w.rows[id].(blob := w'.rows[id].blob, secret := listed.rows[id].secret)])
    requires listed.rows[id].Version() < latest <= w'.rows[id].Version() <= w.latest
    ensures w'.Valid() && SameSeals(w0, w') && SameSeals(listed, w')
  {
    hide VaultKeyVersion;
  }

  lemma HandledKeepsGoing(w0: World, listed: World, latest: int, l: Loop, id: string, row: Row, first: seq<Step>,
                          second: seq<Step>, rewrap: Reply, store: Reply, payload: string)
    requires Going(w0, listed, latest, l) && id in listed.rows && listed.rows[id] == row && id in listed.used
    ensures Going(w0, listed, latest, Handled(l, id, row, latest, w0.minDec, first, second, rewrap, store, payload))
  {
    var l1 := AfterOthers(l, first, latest);
    OthersKeepGoing(w0, listed, latest, l, first);
    assert latest <= l1.w.latest;
    if !Stale(row, latest, w0.minDec) {
      SkippedKeepsGoing(w0, listed, latest, l1, id);
    } else if rewrap.Done? {
      var l2 := AfterOthers(l1, second, latest);
      OthersKeepGoing(w0, listed, latest, l1, second);
      LatestGrows(l1.w, second);
      if id in l2.w.rows {
        StoredKeepsGoing(w0, listed, latest, l2, id, l1.w.latest, payload);
      }
    }
    hide Underway, Settled, WithBlob, AllHarmless, Stale;
  }

  lemma {:induction false} LatestGrows(w: World, steps: seq<Step>)
    ensures w.latest <= ActAll(w, steps).latest
  {
    if steps != [] {
      LatestGrows(w, steps[..|steps| - 1]);
    }
  }

  ghost predicate Listed(list: seq<(string, Row)>, w: World) {
    forall i :: 0 <= i < |list| ==>
      list[i].0 in w.rows && w.rows[list[i].0] == list[i].1 && list[i].0 in w.used
  }

  lemma {:induction false} LoopKeepsGoing(w0: World, listed: World, latest: int, l: Loop, list: seq<(string, Row)>,
                                          n: nat, around: Surroundings)
    requires Going(w0, listed, latest, l) && n <= |list| && Listed(list, listed)
    ensures Going(w0, listed, latest, LoopAfter(l, list, n, latest, w0.minDec, around))
    decreases n
  {
    hide Going, Handled;
    if n > 0 {
      LoopKeepsGoing(w0, listed, latest, l, list, n - 1, around);
      HandledKeepsGoing(w0, listed, latest, LoopAfter(l, list, n - 1, latest, w0.minDec, around), list[n - 1].0,
        list[n - 1].1, around.steps(2 * n), around.steps(2 * n + 1), around.reply(2 * n + 1), around.reply(2 * n + 2),
        around.payload(n - 1));
    }
  }

  // Whatever became live before the listing is on the list: the pass starts safe.
  lemma ListingIsSafe(w0: World, list: seq<(string, Row)>, around: Surroundings)
    requires w0.Valid() && Lists(list, AtListing(w0, around))
    ensures var read, listed := AtReading(w0, around), AtListing(w0, around);
            && read.minDec == w0.minDec && Listed(list, listed)
            && Going(w0, listed, read.latest, Loop(listed, IdsOf(list), 0, 0, true))
  {
    var read, listed := AtReading(w0, around), AtListing(w0, around);
    var steps := around.steps(1);
    ActAllKeepsUnderway(w0, w0, w0.latest, {}, w0, around.steps(0));
    assert Underway(w0, w0, read.latest, {}, read);
    ActAllKeepsUnderway(w0, w0, read.latest, {}, read, steps);
    hide VaultKeyVersion;
  }

  // The end of the loop, unless it was cut short, is under way; safe if the steps of others were harmless.
  lemma RaisingIsSafe(w0: World, list: seq<(string, Row)>, around: Surroundings)
    requires w0.Valid() && Lists(list, AtListing(w0, around))
    ensures Going(w0, AtListing(w0, around), AtReading(w0, around).latest, AtRaising(w0, list, around))
  {
    var read, listed := AtReading(w0, around), AtListing(w0, around);
    var start := Loop(listed, IdsOf(list), 0, 0, true);
    ListingIsSafe(w0, list, around);
    LoopKeepsGoing(w0, listed, read.latest, start, list, |list|, around);
    var l := LoopAfter(start, list, |list|, read.latest, read.minDec, around);
    OthersKeepGoing(w0, listed, read.latest, l, around.steps(2 + 2 * |list|));
    hide Going, AfterOthers, LoopAfter;
  }

  lemma {:induction false} NothingLeft(l: Loop, list: seq<(string, Row)>, n: nat, latest: int, minDec: int,
                                       around: Surroundings)
    requires n <= |list| && l.failed == 0 && l.pending == IdsOf(list)
    ensures LoopAfter(l, list, n, latest, minDec, around).failed == 0 ==>
      LoopAfter(l, list, n, latest, minDec, around).pending <= IdsOf(list[n..])
    decreases n
  {
    if n > 0 {
      NothingLeft(l, list, n - 1, latest, minDec, around);
      assert list[n - 1..][1..] == list[n..] && list[n - 1..][0] == list[n - 1];
      HandledSettles(LoopAfter(l, list, n - 1, latest, minDec, around), list[n - 1].0, list[n - 1].1, latest, minDec,
        around.steps(2 * n), around.steps(2 * n + 1), around.reply(2 * n + 1), around.reply(2 * n + 2),
        around.payload(n - 1));
      hide Handled;
    } else {
      assert list[0..] == list;
    }
  }

  lemma HandledSettles(l: Loop, id: string, row: Row, latest: int, minDec: int, first: seq<Step>, second: seq<Step>,
                       rewrap: Reply, store: Reply, payload: string)
    ensures var l' := Handled(l, id, row, latest, minDec, first, second, rewrap, store, payload);
            && l.failed <= l'.failed && l'.pending <= l.pending
            && (l'.failed == l.failed ==> l'.pending == l.pending - {id})
  {
  }

  // Whether the pass gets to raise the minimum.
  predicate Raises(w0: World, list: seq<(string, Row)>, around: Surroundings) {
    var read := AtReading(w0, around);
    && around.reply(0).Done? && around.reply(1).Done? && !around.reply(2).Failed?
    && AtRaising(w0, list, around).failed == 0 && read.minDec < read.latest
  }

  // A pass strands a seal only by raising the minimum over one that others made live behind its back; if
  // their steps since the listing were harmless, it strands none.
  lemma PassProtectsIff(w0: World, list: seq<(string, Row)>, around: Surroundings)
    requires w0.Valid() && Lists(list, AtListing(w0, around))
    ensures var l, pass := AtRaising(w0, list, around), PassOf(w0, list, around);
            && (Protects(w0, pass.w) <==>
                  !Raises(w0, list, around) || Settled(l.w, AtReading(w0, around).latest, {}))
            && (l.harmless ==> Protects(w0, pass.w))
  {
    var read, listed, l := AtReading(w0, around), AtListing(w0, around), AtRaising(w0, list, around);
    ListingIsSafe(w0, list, around);
    RaisingIsSafe(w0, list, around);
    BeforeListing(w0, around);
    if l.failed == 0 {
      NothingLeft(Loop(listed, IdsOf(list), 0, 0, true), list, |list|, read.latest, read.minDec, around);
      assert list[|list|..] == [] && l.pending == {};
      RaiseProtectsIff(w0, listed, read.latest, l.w);
    }
    UnderwayProtects(w0, listed, read.latest, l.pending, l.w);
    hide Protects, Settled, Underway, AtRaising, AtListing, AtReading;
  }

  // Up to the listing nothing is stranded, whatever others do.
  lemma BeforeListing(w0: World, around: Surroundings)
    requires w0.Valid()
    ensures Protects(w0, AtReading(w0, around)) && Protects(w0, AtListing(w0, around))
    ensures AtReading(w0, around).minDec == AtListing(w0, around).minDec == w0.minDec
  {
    ActAllKeepsUnderway(w0, w0, w0.latest, {}, w0, around.steps(0));
    ActAllKeepsUnderway(w0, w0, w0.latest, {}, AtReading(w0, around), around.steps(1));
    UnderwayProtects(w0, w0, w0.latest, {}, AtReading(w0, around));
    UnderwayProtects(w0, w0, w0.latest, {}, AtListing(w0, around));
    hide Protects;
  }

  // One step of another at the last moment decides: the pass is safe exactly if it is harmless.
  lemma LastStepDecides(w0: World, list: seq<(string, Row)>, around: Surroundings, step: Step)
    requires w0.Valid() && Lists(list, AtListing(w0, around)) && Raises(w0, list, around)
    requires around.steps(2 + 2 * |list|) == [step]
    requires var read, listed := AtReading(w0, around), AtListing(w0, around);
             LoopAfter(Loop(listed, IdsOf(list), 0, 0, true), list, |list|, read.latest, read.minDec, around).harmless
    ensures var read, listed := AtReading(w0, around), AtListing(w0, around);
            var l := LoopAfter(Loop(listed, IdsOf(list), 0, 0, true), list, |list|, read.latest, read.minDec, around);
            Protects(w0, PassOf(w0, list, around).w) <==> Harmless(l.w, step, read.latest, {})
  {
    var read, listed := AtReading(w0, around), AtListing(w0, around);
    var start := Loop(listed, IdsOf(list), 0, 0, true);
    var l := LoopAfter(start, list, |list|, read.latest, read.minDec, around);
    PassProtectsIff(w0, list, around);
    ListingIsSafe(w0, list, around);
    LoopKeepsGoing(w0, listed, read.latest, start, list, |list|, around);
    NothingLeft(start, list, |list|, read.latest, read.minDec, around);
    assert list[|list|..] == [] && l.pending == {};
    SettledIffHarmless(w0, listed, read.latest, {}, l.w, step);
    assert [step][..0] == [] && ActAll(l.w, [step]) == Act(l.w, step);
    hide Protects, Settled, Underway, LoopAfter, AtListing, AtReading;
  }

  // ----- stranded seals

  // A blob made under version v.
  function BlobOf(v: nat): string {
    VaultBlob(Ciphertext(v, "x"))
  }

  // The key has just been rotated to version 2; an expired seal of version 1 is still stored.
  function Rotated(): World {
    World(2, 1, map["a" := Row("s", "k", true, BlobOf(1), "secret", true)], {"a"})
  }

  // Everything goes well, and others take one step after the empty listing.
  function WithLateStep(step: Step): Surroundings {
    Surroundings(i => if i == 2 then [step] else [], _ => Done, _ => "x")
  }

  // A renewed session, and a sign-in that sealed before the rotation and stores after the listing, are each
  // stranded by a pass that reports success.
  lemma LateStepsStrand(late: Step)
    requires late == Extend("s") || late == Store("b", "t", "k", true, BlobOf(1), "secret")
    ensures Rotated().Valid() && Lists([], AtListing(Rotated(), WithLateStep(late)))
    ensures PassOf(Rotated(), [], WithLateStep(late)).result == Ok(0)
    ensures !Protects(Rotated(), PassOf(Rotated(), [], WithLateStep(late)).w)
  {
    var w0, around := Rotated(), WithLateStep(late);
    VersionRoundTrip(1, "x");
    hide VaultKeyVersion, VaultBlob, Ciphertext;
    assert AtReading(w0, around) == w0 && AtListing(w0, around) == w0;
    assert [late][..0] == [] && ActAll(w0, [late]) == Act(w0, late);
    var start := Loop(w0, {}, 0, 0, true);
    assert LoopAfter(start, [], 0, 2, 1, around) == start;
    assert Raises(w0, [], around);
    LastStepDecides(w0, [], around, late);
    assert !Harmless(w0, late, 2, {}) by {
      assert w0.rows["a"].vault && w0.rows["a"].Version() == 1;
    }
  }

  // ----- when the pass succeeds

  // A step that leaves the listed seals stored.
  predicate Spares(list: seq<(string, Row)>, step: Step) {
    match step
    case Remove(id) => forall i :: 0 <= i < |list| ==> list[i].0 != id
    case SignIn(_, session, key, _, _, _) =>
      forall i :: 0 <= i < |list| ==> list[i].1.session != session || list[i].1.key != key
    case Store(_, session, key, _, _, _) =>
      forall i :: 0 <= i < |list| ==> list[i].1.session != session || list[i].1.key != key
    case _ => true
  }

  ghost predicate Present(list: seq<(string, Row)>, w: World) {
    forall i :: 0 <= i < |list| ==>
      && list[i].0 in w.rows && list[i].0 in w.used
      && w.rows[list[i].0].session == list[i].1.session && w.rows[list[i].0].key == list[i].1.key
  }

  lemma {:induction false} SparedStayPresent(list: seq<(string, Row)>, w: World, steps: seq<Step>)
    requires Present(list, w) && forall step :: step in steps ==> Spares(list, step)
    ensures Present(list, ActAll(w, steps))
  {
    hide VaultKeyVersion, VaultBlob, Ciphertext;
    if steps != [] {
      SparedStayPresent(list, w, steps[..|steps| - 1]);
      assert Spares(list, steps[|steps| - 1]);
    }
  }

  lemma {:induction false} LoopSucceeds(l: Loop, list: seq<(string, Row)>, n: nat, latest: int, minDec: int,
                                        around: Surroundings)
    requires n <= |list| && Present(list, l.w) && l.failed == 0
    requires forall i :: around.reply(i).Done?
    requires forall i, step :: step in around.steps(i) ==> i <= 1 || Spares(list, step)
    ensures Present(list, LoopAfter(l, list, n, latest, minDec, around).w)
    ensures LoopAfter(l, list, n, latest, minDec, around).failed == 0
    decreases n
  {
    if n > 0 {
      LoopSucceeds(l, list, n - 1, latest, minDec, around);
      HandledSucceeds(LoopAfter(l, list, n - 1, latest, minDec, around), list, n - 1, latest, minDec,
        around.steps(2 * n), around.steps(2 * n + 1), around.payload(n - 1));
      assert around.reply(2 * n + 1) == Done && around.reply(2 * n + 2) == Done;
      hide Handled, Spares, Present;
    }
  }

  lemma HandledSucceeds(l: Loop, list: seq<(string, Row)>, i: nat, latest: int, minDec: int, first: seq<Step>,
                        second: seq<Step>, payload: string)
    requires i < |list| && Present(list, l.w)
    requires forall step :: step in first + second ==> Spares(list, step)
    ensures var l' := Handled(l, list[i].0, list[i].1, latest, minDec, first, second, Done, Done, payload);
            Present(list, l'.w) && l'.failed == l.failed
  {
    SparedStayPresent(list, l.w, first);
    SparedStayPresent(list, ActAll(l.w, first), second);
    hide ActAll, AllHarmless, Stale, VaultBlob, Ciphertext, VaultKeyVersion, Spares;
  }

  // If every operation succeeds and the listed seals stay stored, the pass succeeds and the minimum has
  // reached the version that was latest when the pass began.
  lemma PassSucceeds(w0: World, list: seq<(string, Row)>, around: Surroundings)
    requires w0.Valid() && Lists(list, AtListing(w0, around))
    requires forall i :: around.reply(i).Done?
    requires forall i, step :: step in around.steps(i) ==> i <= 1 || Spares(list, step)
    ensures PassOf(w0, list, around).result.Ok? && PassOf(w0, list, around).w.minDec >= w0.latest
  {
    var read, listed := AtReading(w0, around), AtListing(w0, around);
    ListingIsSafe(w0, list, around);
    RaisingIsSafe(w0, list, around);
    LoopSucceeds(Loop(listed, IdsOf(list), 0, 0, true), list, |list|, read.latest, read.minDec, around);
    LatestGrows(w0, around.steps(0));
    hide Lists, LoopAfter, AllHarmless, ActAll, SameSeals, Settled;
  }

  // ----- what becomes of each seal

  // A seal that is still stored is the one it was, up to its expiry.
  ghost predicate SameBlob(w: World, w': World, id: string) {
    && id in w'.used
    && (id in w'.rows ==>
          id in w.rows && w'.rows[id].blob == w.rows[id].blob && w'.rows[id].secret == w.rows[id].secret)
  }

  lemma {:induction false} OthersKeepBlob(w: World, steps: seq<Step>, id: string)
    requires id in w.used
    ensures SameBlob(w, ActAll(w, steps), id)
  {
    hide VaultKeyVersion, VaultBlob, Ciphertext;
    if steps != [] {
      OthersKeepBlob(w, steps[..|steps| - 1], id);
    }
  }

  // The pass can and does move the seal, by the versions and the replies of its rewrap and its store.
  predicate Moves(row: Row, latest: int, minDec: int, rewrap: Reply, store: Reply) {
    && row.vault && minDec <= VaultKeyVersion(row.blob) < latest
    && rewrap.Done? && !store.Failed?
  }

  // What has become of a listed seal: moved up to the latest version read, or as it was.
  ghost predicate Outcome(row: Row, latest: int, moved: bool, w: World, id: string) {
    && id in w.used
    && (id in w.rows ==>
          && w.rows[id].secret == row.secret
          && if moved then VaultKeyVersion(w.rows[id].blob) >= latest else w.rows[id].blob == row.blob)
  }

  lemma HandledOutcome(l: Loop, id: string, row: Row, latest: int, minDec: int, first: seq<Step>, second: seq<Step>,
                       rewrap: Reply, store: Reply, payload: string)
    requires Outcome(row, latest, false, l.w, id) && 1 <= latest <= l.w.latest
    ensures var l' := Handled(l, id, row, latest, minDec, first, second, rewrap, store, payload);
            Outcome(row, latest, Moves(row, latest, minDec, rewrap, store), l'.w, id) && l'.w.latest >= l.w.latest
  {
    var w1 := ActAll(l.w, first);
    OthersKeepBlob(l.w, first, id);
    OthersKeepBlob(w1, second, id);
    LatestGrows(l.w, first);
    LatestGrows(w1, second);
    VersionRoundTrip(w1.latest, payload);
    hide ActAll, VaultKeyVersion, VaultBlob, Ciphertext, AllHarmless;
  }

  // Handling another seal changes nothing about this one.
  lemma HandledOther(l: Loop, id: string, row: Row, latest: int, minDec: int, first: seq<Step>, second: seq<Step>,
                     rewrap: Reply, store: Reply, payload: string, other: string, otherRow: Row, moved: bool)
    requires other != id && Outcome(otherRow, latest, moved, l.w, other)
    ensures var l' := Handled(l, id, row, latest, minDec, first, second, rewrap, store, payload);
            Outcome(otherRow, latest, moved, l'.w, other)
  {
    var w1 := ActAll(l.w, first);
    OthersKeepBlob(l.w, first, other);
    OthersKeepBlob(w1, second, other);
    hide ActAll, VaultKeyVersion, VaultBlob, Ciphertext, AllHarmless;
  }

  // Whether the loop moves the i-th listed seal, once it has handled n of them.
  predicate MovesAt(list: seq<(string, Row)>, n: nat, latest: int, minDec: int, around: Surroundings, i: nat)
    requires i < |list|
  {
    i < n && Moves(list[i].1, latest, minDec, around.reply(2 * i + 3), around.reply(2 * i + 4))
  }

  lemma {:induction false} LoopOutcome(l: Loop, list: seq<(string, Row)>, n: nat, latest: int, minDec: int,
                                       around: Surroundings, i: nat)
    requires i < |list| && n <= |list| && Listed(list, l.w) && 1 <= latest <= l.w.latest
    requires forall j, k :: 0 <= j < k < |list| ==> list[j].0 != list[k].0
    ensures var l' := LoopAfter(l, list, n, latest, minDec, around);
            && Outcome(list[i].1, latest, MovesAt(list, n, latest, minDec, around, i), l'.w, list[i].0)
            && l'.w.latest >= l.w.latest
    decreases n
  {
    if n > 0 {
      LoopOutcome(l, list, n - 1, latest, minDec, around, i);
      LoopOutcomeStep(l, list, n, latest, minDec, around, i);
    }
  }

  lemma LoopOutcomeStep(l: Loop, list: seq<(string, Row)>, n: nat, latest: int, minDec: int, around: Surroundings,
                        i: nat)
    requires i < |list| && 0 < n <= |list| && 1 <= latest && (i != n - 1 ==> list[i].0 != list[n - 1].0)
    requires var before := LoopAfter(l, list, n - 1, latest, minDec, around);
             && Outcome(list[i].1, latest, MovesAt(list, n - 1, latest, minDec, around, i), before.w, list[i].0)
             && latest <= before.w.latest
    ensures var before := LoopAfter(l, list, n - 1, latest, minDec, around);
            var l' := LoopAfter(l, list, n, latest, minDec, around);
            && Outcome(list[i].1, latest, MovesAt(list, n, latest, minDec, around, i), l'.w, list[i].0)
            && l'.w.latest >= before.w.latest
  {
    var before, id, row := LoopAfter(l, list, n - 1, latest, minDec, around), list[n - 1].0, list[n - 1].1;
    var first, second, payload := around.steps(2 * n), around.steps(2 * n + 1), around.payload(n - 1);
    var rewrap, store := around.reply(2 * n + 1), around.reply(2 * n + 2);
    LoopUnfold(l, list, n, latest, minDec, around);
    HandledGrows(before, id, row, latest, minDec, first, second, rewrap, store, payload);
    hide Handled, Moves, LoopAfter, Outcome;
    if i == n - 1 {
      HandledOutcome(before, id, row, latest, minDec, first, second, rewrap, store, payload);
    } else {
      HandledOther(before, id, row, latest, minDec, first, second, rewrap, store, payload, list[i].0, list[i].1,
        MovesAt(list, n, latest, minDec, around, i));
    }
  }

  lemma HandledGrows(l: Loop, id: string, row: Row, latest: int, minDec: int, first: seq<Step>, second: seq<Step>,
                     rewrap: Reply, store: Reply, payload: string)
    ensures Handled(l, id, row, latest, minDec, first, second, rewrap, store, payload).w.latest >= l.w.latest
  {
    LatestGrows(l.w, first);
    LatestGrows(ActAll(l.w, first), second);
    hide ActAll, AllHarmless, Stale;
  }

  lemma LoopUnfold(l: Loop, list: seq<(string, Row)>, n: nat, latest: int, minDec: int, around: Surroundings)
    requires 0 < n <= |list|
    ensures LoopAfter(l, list, n, latest, minDec, around)
         == Handled(LoopAfter(l, list, n - 1, latest, minDec, around), list[n - 1].0, list[n - 1].1, latest, minDec,
                    around.steps(2 * n), around.steps(2 * n + 1), around.reply(2 * n + 1), around.reply(2 * n + 2),
                    around.payload(n - 1))
  {
  }

  // After a pass that came to its loop, each listed seal that is still stored holds its secret. It is at least
  // at the latest version read exactly as its own versions and replies say, whatever became of the others;
  // otherwise, as for a seal below the minimum, its blob is the one it had.
  lemma SealOutcome(w0: World, list: seq<(string, Row)>, around: Surroundings, i: nat)
    requires w0.Valid() && Lists(list, AtListing(w0, around)) && i < |list|
    requires around.reply(0).Done? && around.reply(1).Done?
    ensures var read := AtReading(w0, around);
            var moved := MovesAt(list, |list|, read.latest, read.minDec, around, i);
            Outcome(list[i].1, read.latest, moved, PassOf(w0, list, around).w, list[i].0)
  {
    var read, listed := AtReading(w0, around), AtListing(w0, around);
    var start := Loop(listed, IdsOf(list), 0, 0, true);
    ListingIsSafe(w0, list, around);
    LatestGrows(w0, around.steps(0));
    LatestGrows(read, around.steps(1));
    LoopEndsPass(w0, list, around);
    hide AtReading, AtListing, PassOf, AtRaising, Going, VaultKeyVersion, LoopAfter, MovesAt, ActAll;
    LoopOutcome(start, list, |list|, read.latest, read.minDec, around, i);
    var l := LoopAfter(start, list, |list|, read.latest, read.minDec, around);
    OthersKeepBlob(l.w, around.steps(2 + 2 * |list|), list[i].0);
  }

  // A pass ends with the seals its loop left, or what others then make of them.
  lemma LoopEndsPass(w0: World, list: seq<(string, Row)>, around: Surroundings)
    requires around.reply(0).Done? && around.reply(1).Done?
    ensures var read, listed := AtReading(w0, around), AtListing(w0, around);
            var l := LoopAfter(Loop(listed, IdsOf(list), 0, 0, true), list, |list|, read.latest, read.minDec, around);
            var end := if l.failed > 0 then l.w else ActAll(l.w, around.steps(2 + 2 * |list|));
            PassOf(w0, list, around).w.rows == end.rows && PassOf(w0, list, around).w.used == end.used
    ensures var l := AtRaising(w0, list, around);
            l.failed > 0 ==> PassOf(w0, list, around) == Pass(Err(SealsLeft(l.failed)), l.w)
    ensures var read, listed := AtReading(w0, around), AtListing(w0, around);
            AtRaising(w0, list, around).failed ==
              LoopAfter(Loop(listed, IdsOf(list), 0, 0, true), list, |list|, read.latest, read.minDec, around).failed
  {
    hide AtReading, AtListing, LoopAfter, ActAll, AllHarmless, IdsOf;
  }

  // How many of the first n listed seals are stale.
  function StaleAmong(list: seq<(string, Row)>, n: nat, latest: int, minDec: int): nat
    requires n <= |list|
  {
    if n == 0 then 0
    else StaleAmong(list, n - 1, latest, minDec) + if Stale(list[n - 1].1, latest, minDec) then 1 else 0
  }

  // Every stale seal is counted once, as rewrapped or as failed, and as failed if either reply was not done.
  lemma {:induction false} EveryStaleCounted(l: Loop, list: seq<(string, Row)>, n: nat, latest: int, minDec: int,
                                             around: Surroundings)
    requires n <= |list|
    ensures var l' := LoopAfter(l, list, n, latest, minDec, around);
            && l'.rewrapped + l'.failed == l.rewrapped + l.failed + StaleAmong(list, n, latest, minDec)
            && l'.failed >= l.failed
            && forall i :: 0 <= i < n && MustFail(list, latest, minDec, around, i) ==> l'.failed > l.failed
    decreases n
  {
    if n > 0 {
      EveryStaleCounted(l, list, n - 1, latest, minDec, around);
      LoopUnfold(l, list, n, latest, minDec, around);
      HandledCounts(LoopAfter(l, list, n - 1, latest, minDec, around), list[n - 1].0, list[n - 1].1, latest, minDec,
        around.steps(2 * n), around.steps(2 * n + 1), around.reply(2 * n + 1), around.reply(2 * n + 2),
        around.payload(n - 1));
      hide Stale, LoopAfter, Handled;
    }
  }

  lemma HandledCounts(l: Loop, id: string, row: Row, latest: int, minDec: int, first: seq<Step>, second: seq<Step>,
                      rewrap: Reply, store: Reply, payload: string)
    ensures var l' := Handled(l, id, row, latest, minDec, first, second, rewrap, store, payload);
            var stale := Stale(row, latest, minDec);
            && l'.rewrapped + l'.failed == l.rewrapped + l.failed + (if stale then 1 else 0)
            && l'.failed >= l.failed
            && (stale && !(rewrap.Done? && store.Done?) ==> l'.failed > l.failed)
  {
    hide ActAll, AllHarmless, WithBlob, VaultKeyVersion;
  }

  // A stale listed seal whose rewrap or store is not reported done.
  predicate MustFail(list: seq<(string, Row)>, latest: int, minDec: int, around: Surroundings, i: nat)
    requires i < |list|
  {
    Stale(list[i].1, latest, minDec) && !(around.reply(2 * i + 3).Done? && around.reply(2 * i + 4).Done?)
  }

  // A stale seal that could not be rewrapped and stored leaves the minimum where it was.
  lemma FailureKeepsMinimum(w0: World, list: seq<(string, Row)>, around: Surroundings, i: nat)
    requires w0.Valid() && Lists(list, AtListing(w0, around)) && i < |list|
    requires around.reply(0).Done? && around.reply(1).Done?
    requires MustFail(list, AtReading(w0, around).latest, AtReading(w0, around).minDec, around, i)
    ensures PassOf(w0, list, around).result.Err? && PassOf(w0, list, around).result.error.SealsLeft?
    ensures PassOf(w0, list, around).w.minDec == w0.minDec
  {
    var read, listed := AtReading(w0, around), AtListing(w0, around);
    EveryStaleCounted(Loop(listed, IdsOf(list), 0, 0, true), list, |list|, read.latest, read.minDec, around);
    RaisingIsSafe(w0, list, around);
    LoopEndsPass(w0, list, around);
    hide MustFail, LoopAfter, AtListing, AtReading, Settled, SameSeals, PassOf, AtRaising, Lists;
  }

  // ----- the pass as run

  class SealStore {
    var w: World
    // every state since the pass began
    ghost var history: seq<World>

    ghost predicate Watched(w0: World)
      reads this
    {
      forall h :: h in history ==> Protects(w0, h)
    }

    method Record(next: World, ghost w0: World)
      requires Protects(w0, next) && Watched(w0)
      modifies this
      ensures w == next && Watched(w0)
    {
      w := next;
      history := history + [next];
    }

    // Others act between two operations of the pass.
    method Others(steps: seq<Step>, ghost w0: World, ghost listed: World, ghost latest: int, ghost pending: set<string>)
      requires Underway(w0, listed, latest, pending, w) && Watched(w0)
      modifies this
      ensures w == ActAll(old(w), steps) && Watched(w0) && Underway(w0, listed, latest, pending, w)
    {
      hide Underway, Protects, Act;
      assert steps[..0] == [];
      for i := 0 to |steps|
        invariant w == ActAll(old(w), steps[..i]) && Watched(w0) && Underway(w0, listed, latest, pending, w)
      {
        assert steps[..i + 1][..i] == steps[..i];
        ActKeepsUnderway(w0, listed, latest, pending, w, steps[i]);
        UnderwayProtects(w0, listed, latest, pending, Act(w, steps[i]));
        Record(Act(w, steps[i]), w0);
      }
      assert steps[..|steps|] == steps;
    }

    method ListLiveSessionSeals() returns (list: seq<(string, Row)>)
      ensures Lists(list, w)
    {
      list := [];
      var rest := w.rows.Keys;
      while rest != {}
        invariant rest <= w.rows.Keys
        invariant forall i :: 0 <= i < |list| ==>
          list[i].0 in w.rows && w.rows[list[i].0] == list[i].1 && !list[i].1.expired && list[i].0 !in rest
        invariant forall id :: id in w.rows && id !in rest && !w.rows[id].expired ==>
          exists i :: 0 <= i < |list| && list[i].0 == id
        invariant forall i, j :: 0 <= i < j < |list| ==> list[i].0 != list[j].0
      {
        var id :| id in rest;
        rest := rest - {id};
        if !w.rows[id].expired {
          ghost var before := list;
          list := list + [(id, w.rows[id])];
          assert list[|before|].0 == id;
          assert forall i :: 0 <= i < |before| ==> list[i] == before[i];
        }
      }
    }

    // Rewraps one listed seal if it is stale and stores the new blob; others act in between.
    method HandleSeal(id: string, row: Row, latest: int, minDec: int, first: seq<Step>, second: seq<Step>,
                      rewrap: Reply, store: Reply, payload: string, ghost w0: World, ghost listed: World, ghost l: Loop)
      returns (rewrapped: nat, failed: nat, ghost l': Loop)
      requires w == l.w && Going(w0, listed, latest, l) && Watched(w0) && minDec == w0.minDec
      requires id in listed.rows && listed.rows[id] == row && id in listed.used
      modifies this
      ensures l' == Handled(l, id, row, latest, minDec, first, second, rewrap, store, payload)
      ensures w == l'.w && Going(w0, listed, latest, l') && Watched(w0)
      ensures rewrapped == l'.rewrapped - l.rewrapped && failed == l'.failed - l.failed
    {
      hide Underway, Protects, Settled, ActAll, Harmless, AllHarmless, VaultKeyVersion, WithBlob;
      HandledKeepsGoing(w0, listed, latest, l, id, row, first, second, rewrap, store, payload);
      l' := Handled(l, id, row, latest, minDec, first, second, rewrap, store, payload);
      rewrapped, failed := 0, 0;
      Others(first, w0, listed, latest, l.pending);
      if !Stale(row, latest, minDec) {
        return;
      }
      if !rewrap.Done? {
        failed := 1;
        return;
      }
      var version := w.latest;
      Others(second, w0, listed, latest, l.pending);
      if store.Failed? || id !in w.rows {
        failed := 1;
        return;
      }
      UnderwayProtects(w0, listed, latest, l'.pending, l'.w);
      Record(WithBlob(w, id, version, payload, row.secret), w0);
      if store.Done? {
        rewrapped := 1;
      } else {
        failed := 1;
      }
    }

    // The pass: whatever surrounds it, it comes to what PassOf says, and at every moment every seal is
    // protected if the steps of others since the listing were harmless.
    method RotateVaultSeals(around: Surroundings)
      returns (r: Result<nat, RotateError>, ghost list: seq<(string, Row)>)
      requires w.Valid() && history == []
      modifies this
      ensures around.reply(0).Done? && around.reply(1).Done? ==> Lists(list, AtListing(old(w), around))
      ensures PassOf(old(w), list, around) == Pass(r, w)
      ensures AtRaising(old(w), list, around).harmless ==> Watched(old(w)) && Protects(old(w), w)
      ensures !Raises(old(w), list, around) ==> Watched(old(w)) && Protects(old(w), w)
    {
      hide Protects, Underway, Settled, Act, ActAll, Harmless, AllHarmless, VaultKeyVersion, LoopAfter, Handled;
      ghost var w0 := w;
      StartUnderway(w0);
      list := [];
      BeforeListing(w0, around);
      Others(around.steps(0), w0, w0, w0.latest, {});
      if !around.reply(0).Done? {
        return Err(VersionsUnread), list;
      }
      var latest, minDec := w.latest, w.minDec;
      ReadingUnderway(w0, around);
      Others(around.steps(1), w0, w, latest, {});
      if !around.reply(1).Done? {
        return Err(SealsUnlisted), list;
      }
      var seals := ListLiveSessionSeals();
      list := seals;
      PassProtectsIff(w0, list, around);
      var rewrapped, failed;
      ghost var l;
      rewrapped, failed, l := HandleAll(seals, latest, minDec, around, w0);
      if failed > 0 {
        return Err(SealsLeft(failed)), list;
      }
      Others(around.steps(2 + 2 * |seals|), w0, AtListing(w0, around), latest, l.pending);
      r := Ok(rewrapped);
      if minDec < latest {
        if !around.reply(2).Failed? {
          w := w.(minDec := latest);
          history := history + [w];
        }
        if !around.reply(2).Done? {
          return Err(MinimumUnraised), list;
        }
      }
    }

    // The loop over the listed seals.
    method HandleAll(seals: seq<(string, Row)>, latest: int, minDec: int, around: Surroundings, ghost w0: World)
      returns (rewrapped: nat, failed: nat, ghost l: Loop)
      requires w0.Valid() && w == AtListing(w0, around) && Lists(seals, w) && Watched(w0)
      requires latest == AtReading(w0, around).latest && minDec == AtReading(w0, around).minDec
      modifies this
      ensures l == LoopAfter(Loop(old(w), IdsOf(seals), 0, 0, true), seals, |seals|, latest, minDec, around)
      ensures w == l.w && rewrapped == l.rewrapped && failed == l.failed && Watched(w0)
      ensures Underway(w0, old(w), latest, l.pending, w)
    {
      hide Protects, Act, ActAll, Harmless, AllHarmless, VaultKeyVersion, Handled, Going, AtListing, AtReading;
      ghost var listed, start := w, Loop(w, IdsOf(seals), 0, 0, true);
      ListingIsSafe(w0, seals, around);
      rewrapped, failed, l := 0, 0, start;
      for i := 0 to |seals|
        invariant l == LoopAfter(start, seals, i, latest, minDec, around) && w == l.w
        invariant Going(w0, listed, latest, l) && Watched(w0)
        invariant rewrapped == l.rewrapped && failed == l.failed
      {
        var n := i + 1;
        var done, lost;
        done, lost, l := HandleSeal(seals[i].0, seals[i].1, latest, minDec,
          around.steps(2 * n), around.steps(2 * n + 1), around.reply(2 * n + 1), around.reply(2 * n + 2),
          around.payload(i), w0, listed, l);
        rewrapped, failed := rewrapped + done, failed + lost;
      }
      GoingIsUnderway(w0, listed, latest, l);
    }
  }

  lemma StartUnderway(w0: World)
    requires w0.Valid()
    ensures Underway(w0, w0, w0.latest, {}, w0)
  {
  }

  lemma ReadingUnderway(w0: World, around: Surroundings)
    requires w0.Valid()
    ensures var read := AtReading(w0, around); Underway(w0, read, read.latest, {}, read)
  {
    ActAllKeepsUnderway(w0, w0, w0.latest, {}, w0, around.steps(0));
  }

  lemma GoingIsUnderway(w0: World, listed: World, latest: int, l: Loop)
    requires Going(w0, listed, latest, l)
    ensures Underway(w0, listed, latest, l.pending, l.w)
  {
  }
}
