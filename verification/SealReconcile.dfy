// One reconcile pass of a replica that keeps keys unlocked by stored seals: drop the keys whose seals are
// gone, restore the keys some seal opens, sweep what has expired. Sign-ins may renew a lease at any time.
module SealReconcile {
  import opened Wrappers

  const MODE_SPLIT := "split"

  datatype SessionStatus = Live | Ended | Unknown

  // secret is the private key the replica's sealer gets out of the blob, if any.
  datatype SealRow = SealRow(
    user: string, pubkey: string, session: string, mode: string, expiresAt: int, secret: Option<string>)

  datatype Lease = Lease(user: string, at: int)

  // What a replica is given: its sealer's mode, the session store, the key of a secret, the stored keys.
  datatype Setting = Setting(
    mode: string, sessions: map<string, SessionStatus>, keyOf: string -> Option<string>, keyRows: set<string>)
  {
    function Status(session: string): SessionStatus {
      if session in sessions then sessions[session] else Ended
    }

    predicate Openable(row: SealRow) {
      && row.mode != MODE_SPLIT && row.mode == mode
      && row.secret.Some? && keyOf(row.secret.value) == Some(row.pubkey)
      && row.pubkey in keyRows
    }
  }

  // ----- what a pass does, key by key

  function Filter(rows: seq<SealRow>, keep: SealRow -> bool): (kept: seq<SealRow>)
    ensures forall row :: row in kept <==> row in rows && keep(row)
  {
    if rows == [] then []
    else
      var last := rows[|rows| - 1];
      Filter(rows[..|rows| - 1], keep) + if keep(last) then [last] else []
  }

  // The live seals of a key, in the order stored.
  function LiveFor(e: Setting, rows: seq<SealRow>, now: int, pubkey: string): seq<SealRow> {
    Filter(rows, (row: SealRow) => row.expiresAt > now && row.pubkey == pubkey && e.Status(row.session).Live?)
  }

  predicate IsUnsure(e: Setting, rows: seq<SealRow>, now: int, pubkey: string) {
    exists row :: row in rows && row.expiresAt > now && row.pubkey == pubkey && e.Status(row.session).Unknown?
  }

  function FirstOpenable(e: Setting, rows: seq<SealRow>): (found: Option<SealRow>)
    ensures found.Some? ==> found.value in rows && e.Openable(found.value)
    ensures found.None? <==> forall row :: row in rows ==> !e.Openable(row)
    ensures found.Some? ==>
      exists i :: 0 <= i < |rows| && rows[i] == found.value && forall j :: 0 <= j < i ==> !e.Openable(rows[j])
  {
    if rows == [] then None
    else if e.Openable(rows[0]) then Some(rows[0])
    else FirstOpenable(e, rows[1..])
  }

  datatype State = State(
    rows: seq<SealRow>, leases: map<string, Lease>, loaded: set<string>, missUntil: map<string, int>)

  // A lease to drop: nothing backs it, and it is older than the pass.
  predicate Stale(e: Setting, s: State, start: int, pubkey: string) {
    && pubkey in s.leases && s.leases[pubkey].at < start
    && LiveFor(e, s.rows, start, pubkey) == [] && !IsUnsure(e, s.rows, start, pubkey)
  }

  predicate Restored(e: Setting, s: State, start: int, pubkey: string) {
    pubkey !in s.loaded && FirstOpenable(e, LiveFor(e, s.rows, start, pubkey)).Some?
  }

  // The keys that have a live seal.
  function Sealed(e: Setting, rows: seq<SealRow>, now: int): set<string> {
    set row | row in rows && row.expiresAt > now && e.Status(row.session).Live? :: row.pubkey
  }

  function Remaining(e: Setting, rows: seq<SealRow>, later: int): seq<SealRow> {
    Filter(rows, (row: SealRow) => row.expiresAt > later && !e.Status(row.session).Ended?)
  }

  function RestoredKeys(e: Setting, s: State, start: int): set<string> {
    set pubkey | pubkey in Sealed(e, s.rows, start) && Restored(e, s, start, pubkey)
  }

  function StaleKeys(e: Setting, s: State, start: int): set<string> {
    set pubkey | pubkey in s.leases && Stale(e, s, start, pubkey)
  }

  // A pass that reads at start and installs and sweeps at later.
  function Pass(e: Setting, s: State, start: int, later: int): State {
    var restored, stale := RestoredKeys(e, s, start), StaleKeys(e, s, start);
    State(
      Remaining(e, s.rows, later),
      map pubkey | pubkey in (s.leases.Keys - stale) + restored ::
        if pubkey in restored then Lease(FirstOpenable(e, LiveFor(e, s.rows, start, pubkey)).value.user, later)
        else s.leases[pubkey],
      (s.loaded - stale) + restored,
      map pubkey | pubkey in s.missUntil && pubkey !in restored && start <= s.missUntil[pubkey] :: s.missUntil[pubkey])
  }

  // ----- what a pass achieves

  lemma SealedIffLive(e: Setting, rows: seq<SealRow>, now: int, pubkey: string)
    ensures pubkey in Sealed(e, rows, now) <==> LiveFor(e, rows, now, pubkey) != []
  {
    if row :| row in rows && row.expiresAt > now && row.pubkey == pubkey && e.Status(row.session).Live? {
      assert row in LiveFor(e, rows, now, pubkey);
    }
    if LiveFor(e, rows, now, pubkey) != [] {
      assert LiveFor(e, rows, now, pubkey)[0] in LiveFor(e, rows, now, pubkey);
    }
  }

  // A seal of the key that is not expired, with its session in the given state.
  predicate SealOf(e: Setting, row: SealRow, start: int, pubkey: string, status: SessionStatus) {
    && row.pubkey == pubkey && row.expiresAt > start
    && status == if row.session in e.sessions then e.sessions[row.session] else Ended
  }

  // The replica's sealer makes its secret out of a blob of its own mode, and the secret is that of a key it
  // has stored.
  predicate OpensHere(e: Setting, row: SealRow) {
    && row.mode == e.mode && row.mode != "split" && row.pubkey in e.keyRows
    && row.secret.Some? && e.keyOf(row.secret.value) == Some(row.pubkey)
  }

  lemma LiveForIs(e: Setting, rows: seq<SealRow>, start: int, pubkey: string)
    ensures LiveFor(e, rows, start, pubkey) == [] <==>
      forall row :: row in rows ==> !SealOf(e, row, start, pubkey, Live)
    ensures FirstOpenable(e, LiveFor(e, rows, start, pubkey)).Some? <==>
      exists row :: row in rows && SealOf(e, row, start, pubkey, Live) && OpensHere(e, row)
    ensures IsUnsure(e, rows, start, pubkey) <==> exists row :: row in rows && SealOf(e, row, start, pubkey, Unknown)
  {
    var live := LiveFor(e, rows, start, pubkey);
    assert forall row :: row in live <==> row in rows && SealOf(e, row, start, pubkey, Live);
    if live != [] {
      assert live[0] in live;
    }
  }

  // A key is loaded after a pass exactly if some live seal of it opens here, or it was loaded and its lease
  // was not stale; it is leased exactly if it was and the lease was not stale, or the pass loaded it. A lease
  // is stale if it is older than the pass and no seal of the key is live or unsure. Exactly the unexpired
  // seals of sessions that have not ended remain.
  lemma PassSettles(e: Setting, s: State, start: int, later: int, pubkey: string)
    requires start <= later
    ensures var s' := Pass(e, s, start, later);
            var opens := exists row :: row in s.rows && SealOf(e, row, start, pubkey, Live) && OpensHere(e, row);
            var stale := Older(s, pubkey, start)
              && forall row :: row in s.rows ==>
                   !SealOf(e, row, start, pubkey, Live) && !SealOf(e, row, start, pubkey, Unknown);
            && (pubkey in s'.loaded <==> opens || (pubkey in s.loaded && !stale))
            && (pubkey in s'.leases <==> (pubkey in s.leases && !stale) || (opens && pubkey !in s.loaded))
            && (pubkey in s'.leases && pubkey in s.leases && !(opens && pubkey !in s.loaded) ==>
                  s'.leases[pubkey] == s.leases[pubkey])
            && (opens && pubkey !in s.loaded ==> s'.leases[pubkey].at == later)
            && (pubkey in s'.missUntil <==>
                  pubkey in s.missUntil && start <= s.missUntil[pubkey] && !(opens && pubkey !in s.loaded))
  {
    SealedIffLive(e, s.rows, start, pubkey);
    LiveForIs(e, s.rows, start, pubkey);
    hide LiveFor, IsUnsure, FirstOpenable, SealOf, Remaining;
  }

  lemma PassSweeps(e: Setting, s: State, start: int, later: int, row: SealRow)
    ensures row in Pass(e, s, start, later).rows <==>
      row in s.rows && row.expiresAt > later && !e.Status(row.session).Ended?
  {
  }

  // Between two passes nothing read by the first has run out.
  predicate Immediate(e: Setting, s: State, start: int, again: int) {
    && (forall row :: row in s.rows && row.expiresAt > start ==> row.expiresAt > again)
    && (forall pubkey :: pubkey in s.missUntil && s.missUntil[pubkey] >= start ==> s.missUntil[pubkey] >= again)
    && (forall pubkey :: pubkey in s.leases ==> s.leases[pubkey].at < start)
  }

  // What the first pass leaves behind reads the same to the second.
  lemma RemainingReadsTheSame(e: Setting, rows: seq<SealRow>, start: int, later: int, again: int, pubkey: string)
    requires start <= later <= again
    requires forall row :: row in rows && row.expiresAt > start ==> row.expiresAt > again
    ensures LiveFor(e, Remaining(e, rows, later), again, pubkey) == LiveFor(e, rows, start, pubkey)
    ensures IsUnsure(e, Remaining(e, rows, later), again, pubkey) == IsUnsure(e, rows, start, pubkey)
  {
    FilterTwice(rows, (row: SealRow) => row.expiresAt > later && !e.Status(row.session).Ended?,
      (row: SealRow) => row.expiresAt > again && row.pubkey == pubkey && e.Status(row.session).Live?,
      (row: SealRow) => row.expiresAt > start && row.pubkey == pubkey && e.Status(row.session).Live?);
  }

  lemma RemainingTwice(e: Setting, rows: seq<SealRow>, later: int, again: int)
    requires later <= again && forall row :: row in rows && row.expiresAt > later ==> row.expiresAt > again
    ensures Remaining(e, Remaining(e, rows, later), again) == Remaining(e, rows, later)
  {
    FilterTwice(rows, (row: SealRow) => row.expiresAt > later && !e.Status(row.session).Ended?,
      (row: SealRow) => row.expiresAt > again && !e.Status(row.session).Ended?,
      (row: SealRow) => row.expiresAt > later && !e.Status(row.session).Ended?);
  }

  // With nothing to drop, restore or sweep, a pass changes nothing.
  lemma IdlePass(e: Setting, s: State, now: int)
    requires forall pubkey :: !Stale(e, s, now, pubkey) && !Restored(e, s, now, pubkey)
    requires Remaining(e, s.rows, now) == s.rows
    requires forall pubkey :: pubkey in s.missUntil ==> now <= s.missUntil[pubkey]
    ensures Pass(e, s, now, now) == s
  {
    hide Stale, Restored, Remaining, Sealed, LiveFor, FirstOpenable;
    var s' := Pass(e, s, now, now);
    assert s'.loaded == s.loaded;
    assert s'.leases == s.leases;
    assert s'.missUntil == s.missUntil;
  }

  // After a pass, no key is left for an immediate second one to drop or restore.
  lemma NothingLeft(e: Setting, s: State, start: int, later: int, again: int, pubkey: string)
    requires start <= later <= again && Immediate(e, s, start, again)
    ensures !Stale(e, Pass(e, s, start, later), again, pubkey) && !Restored(e, Pass(e, s, start, later), again, pubkey)
  {
    hide IsUnsure, FirstOpenable;
    RemainingReadsTheSame(e, s.rows, start, later, again, pubkey);
    SealedIffLive(e, s.rows, start, pubkey);
    EmptyOpensNothing(e);
    hide LiveFor, Remaining;
  }

  lemma EmptyOpensNothing(e: Setting)
    ensures FirstOpenable(e, []) == None
  {
  }

  // An immediate second pass changes nothing.
  lemma SecondPassIdle(e: Setting, s: State, start: int, later: int, again: int)
    requires start <= later <= again && Immediate(e, s, start, again)
    ensures Pass(e, Pass(e, s, start, later), again, again) == Pass(e, s, start, later)
  {
    hide Stale, Restored, LiveFor;
    var s' := Pass(e, s, start, later);
    RemainingTwice(e, s.rows, later, again);
    forall pubkey
      ensures !Stale(e, s', again, pubkey) && !Restored(e, s', again, pubkey)
    {
      NothingLeft(e, s, start, later, again, pubkey);
    }
    IdlePass(e, s', again);
  }

  // ----- the steps of the pass that others can come between

  // What sign-ins and restores do to a key: register it, and take its lease. A sign-in seals in between, and
  // an unseal of a registered key only takes the lease.
  datatype Touch = Load(pubkey: string) | Take(pubkey: string, user: string, at: int)

  function AfterTouch(s: State, t: Touch): State {
    match t
    case Load(pubkey) => s.(loaded := s.loaded + {pubkey})
    case Take(pubkey, user, at) =>
      s.(leases := s.leases[pubkey := Lease(user, at)], missUntil := s.missUntil - {pubkey})
  }

  function AfterTouches(s: State, touches: seq<Touch>): State {
    if touches == [] then s
    else AfterTouch(AfterTouches(s, touches[..|touches| - 1]), touches[|touches| - 1])
  }

  predicate TakesSince(touches: seq<Touch>, start: int) {
    forall t :: t in touches && t.Take? ==> t.at >= start
  }

  // The keys whose lease is taken.
  function Taken(touches: seq<Touch>): set<string> {
    set t | t in touches && t.Take? :: t.pubkey
  }

  function AfterDelete(s: State, pubkey: string, start: int): State {
    if pubkey in s.leases && s.leases[pubkey].at < start then s.(leases := s.leases - {pubkey}) else s
  }

  function AfterUnload(s: State, pubkey: string): State {
    s.(loaded := s.loaded - {pubkey})
  }

  predicate Older(s: State, pubkey: string, start: int) {
    pubkey in s.leases && s.leases[pubkey].at < start
  }

  // Dropping a stale key, with others between the two lock holds.
  function Locked(s: State, pubkey: string, start: int, between: seq<Touch>): State {
    var s' := AfterTouches(AfterDelete(s, pubkey, start), between);
    if Older(s, pubkey, start) then AfterUnload(s', pubkey) else s'
  }

  // What touches since start do to one key.
  lemma {:induction false} TouchesOf(s: State, touches: seq<Touch>, pubkey: string, start: int)
    requires TakesSince(touches, start)
    ensures var s' := AfterTouches(s, touches);
            && (pubkey in s'.loaded <==> pubkey in s.loaded || Load(pubkey) in touches)
            && (pubkey in s'.leases <==> pubkey in s.leases || pubkey in Taken(touches))
            && (pubkey in Taken(touches) ==> s'.leases[pubkey].at >= start)
            && (pubkey !in Taken(touches) && pubkey in s.leases ==> s'.leases[pubkey] == s.leases[pubkey])
  {
    if touches != [] {
      var rest, last := touches[..|touches| - 1], touches[|touches| - 1];
      assert touches == rest + [last] && last in touches;
      TouchesOf(s, rest, pubkey, start);
      assert Taken(touches) == Taken(rest) + if last.Take? then {last.pubkey} else {};
    }
  }

  // Dropping a stale key while others touch it before, between and after the two steps: a lease taken
  // survives, whenever it was; the key is loaded at the end exactly if it was loaded after the unload, or
  // its lease was taken before the delete and the key was loaded by then or in between.
  lemma TouchedKeyIff(s: State, pubkey: string, start: int, before: seq<Touch>, between: seq<Touch>, after: seq<Touch>)
    requires Older(s, pubkey, start) && TakesSince(before + between + after, start)
    ensures var s' := AfterTouches(Locked(AfterTouches(s, before), pubkey, start, between), after);
            && (pubkey in s'.leases <==> pubkey in Taken(before + between + after))
            && (pubkey in s'.leases ==> s'.leases[pubkey].at >= start)
            && (pubkey in s'.loaded <==>
                  || Load(pubkey) in after
                  || (pubkey in Taken(before) && (pubkey in s.loaded || Load(pubkey) in before + between)))
  {
    assert forall t :: t in before || t in between || t in after <==> t in before + between + after;
    assert Taken(before + between + after) == Taken(before) + Taken(between) + Taken(after);
    var s1 := AfterTouches(s, before);
    TouchesOf(s, before, pubkey, start);
    TouchesOf(AfterDelete(s1, pubkey, start), between, pubkey, start);
    TouchesOf(Locked(s1, pubkey, start, between), after, pubkey, start);
    hide AfterTouches, Taken;
  }

  // A sign-in that registered the key before the pass unloaded it, and takes the lease after it, leaves the
  // key leased and not loaded.
  lemma LeasedButUnloaded(s: State, pubkey: string, user: string, start: int, at: int)
    requires Older(s, pubkey, start) && at >= start
    ensures var before, after := [Load(pubkey)], [Take(pubkey, user, at)];
            var s' := AfterTouches(Locked(AfterTouches(s, before), pubkey, start, []), after);
            pubkey in s'.leases && s'.leases[pubkey].at >= start && pubkey !in s'.loaded
  {
    TouchedKeyIff(s, pubkey, start, [Load(pubkey)], [], [Take(pubkey, user, at)]);
    assert Take(pubkey, user, at) in [Load(pubkey)] + [] + [Take(pubkey, user, at)];
    assert forall t :: t in [Load(pubkey)] ==> !t.Take?;
  }

  // A later pass loads such a key exactly if a live seal of it opens there.
  lemma LoadedByNextPassIff(e: Setting, s: State, start: int, later: int, pubkey: string)
    requires pubkey !in s.loaded
    ensures pubkey in Pass(e, s, start, later).loaded
            <==> FirstOpenable(e, LiveFor(e, s.rows, start, pubkey)).Some?
  {
    SealedIffLive(e, s.rows, start, pubkey);
  }

  // ----- a whole pass, others acting throughout

  // What others do: before the drop list is made, around each drop, and around each restore.
  datatype Disturbance = Disturbance(early: seq<Touch>, dropping: nat -> seq<Touch>, restoring: nat -> seq<Touch>)
  {
    ghost predicate Since(start: int) {
      && TakesSince(early, start)
      && (forall i :: TakesSince(dropping(i), start))
      && (forall i :: TakesSince(restoring(i), start))
    }

    ghost predicate Quiet() {
      early == [] && (forall i :: dropping(i) == []) && forall i :: restoring(i) == []
    }
  }

  // Keys dropped in this order, others acting before each drop and within it.
  function AfterDrops(s: State, order: seq<string>, start: int, env: nat -> seq<Touch>): State {
    if order == [] then s
    else
      var i := |order| - 1;
      Locked(AfterTouches(AfterDrops(s, order[..i], start, env), env(2 * i)), order[i], start, env(2 * i + 1))
  }

  // A key restored from its seal: registered and, after what others do, leased.
  function Installed(s: State, row: SealRow, later: int, between: seq<Touch>): State {
    AfterTouch(AfterTouches(AfterTouch(s, Load(row.pubkey)), between), Take(row.pubkey, row.user, later))
  }

  // One key of the restore loop; others act before the check, after it, and during the restore.
  function AfterRestore(e: Setting, s: State, pubkey: string, seals: seq<SealRow>, later: int, first: seq<Touch>,
                        second: seq<Touch>, third: seq<Touch>): State
  {
    var s1, found := AfterTouches(s, first), FirstOpenable(e, seals);
    var s2 := AfterTouches(s1, second);
    if pubkey in s1.loaded || found.None? then AfterTouches(s2, third) else Installed(s2, found.value, later, third)
  }

  function AfterRestores(e: Setting, s: State, live: map<string, seq<SealRow>>, order: seq<string>, later: int,
                         env: nat -> seq<Touch>): State
    requires forall pubkey :: pubkey in order ==> pubkey in live
  {
    if order == [] then s
    else
      var i := |order| - 1;
      RestoreAt(e, AfterRestores(e, s, live, order[..i], later, env), order[i], live[order[i]], later, env, i)
  }

  // The restore at place i of the loop.
  function RestoreAt(e: Setting, s: State, pubkey: string, seals: seq<SealRow>, later: int, env: nat -> seq<Touch>,
                     i: nat): State
  {
    AfterRestore(e, s, pubkey, seals, later, env(3 * i), env(3 * i + 1), env(3 * i + 2))
  }

  predicate Distinct(order: seq<string>) {
    forall i, j :: 0 <= i < j < |order| ==> order[i] != order[j]
  }

  ghost predicate Enumerates(order: seq<string>, keys: set<string>) {
    Distinct(order) && forall pubkey :: pubkey in order <==> pubkey in keys
  }

  // What a pass read, and the orders it dropped and restored in.
  datatype Course = Course(live: map<string, seq<SealRow>>, unsure: set<string>, drops: seq<string>,
                           restores: seq<string>)

  // The course is one the pass may take.
  ghost predicate Possible(e: Setting, s: State, start: int, env: Disturbance, c: Course) {
    && Grouped(e, s.rows, start, c.live, c.unsure)
    && Enumerates(c.drops, Droppable(AfterTouches(s, env.early).leases, c.live, c.unsure, start))
    && Enumerates(c.restores, c.live.Keys)
  }

  // Up to the sweep.
  function AfterLoops(e: Setting, s: State, start: int, later: int, env: Disturbance, c: Course): State
    requires forall pubkey :: pubkey in c.restores ==> pubkey in c.live
  {
    AfterRestores(e, AfterDrops(AfterTouches(s, env.early), c.drops, start, env.dropping), c.live, c.restores, later,
                  env.restoring)
  }

  // A pass that read rows before.
  ghost predicate IsPass(e: Setting, s: State, start: int, later: int, env: Disturbance, c: Course, s': State) {
    && Possible(e, s, start, env, c)
    && var unlisted := s.(rows := Unended(e, s.rows, start));
       var swept := AfterLoops(e, unlisted, start, later, env, c);
       s' == State(Filter(swept.rows, (row: SealRow) => row.expiresAt > later), swept.leases, swept.loaded,
                   Misses(swept.missUntil, start))
  }

  // The rows that are left once the seals of every session found ended are deleted.
  function Unended(e: Setting, rows: seq<SealRow>, start: int): seq<SealRow> {
    Filter(rows, (row: SealRow) => row.session !in EndedSessions(e, rows, start))
  }

  function EndedSessions(e: Setting, rows: seq<SealRow>, start: int): set<string> {
    set row | row in rows && row.expiresAt > start && e.Status(row.session).Ended? :: row.session
  }

  function Misses(missUntil: map<string, int>, start: int): map<string, int> {
    map pubkey | pubkey in missUntil && start <= missUntil[pubkey] :: missUntil[pubkey]
  }

  // ----- one key of a whole pass

  // What the replica holds of one key.
  datatype Key = Key(lease: Option<Lease>, loaded: bool, miss: Option<int>)

  function KeyOf(s: State, pubkey: string): Key {
    Key(if pubkey in s.leases then Some(s.leases[pubkey]) else None, pubkey in s.loaded,
        if pubkey in s.missUntil then Some(s.missUntil[pubkey]) else None)
  }

  // What others do from the i-th to before the j-th point.
  function Joined(env: nat -> seq<Touch>, i: nat, j: nat): seq<Touch>
    requires i <= j
  {
    if i == j then [] else Joined(env, i, j - 1) + env(j - 1)
  }

  lemma {:induction false} JoinedIn(env: nat -> seq<Touch>, i: nat, j: nat, k: nat)
    requires i <= j <= k
    ensures Joined(env, i, k) == Joined(env, i, j) + Joined(env, j, k)
  {
    if j < k {
      JoinedIn(env, i, j, k - 1);
    }
  }

  lemma {:induction false} TouchesJoin(s: State, a: seq<Touch>, b: seq<Touch>)
    ensures AfterTouches(AfterTouches(s, a), b) == AfterTouches(s, a + b)
  {
    if b == [] {
      assert a + b == a;
    } else {
      var rest := b[..|b| - 1];
      TouchesJoin(s, a, rest);
      assert (a + b)[..|a + b| - 1] == a + rest;
    }
  }

  // What touches do to a key depends on that key only.
  lemma {:induction false} KeyTouched(s: State, s': State, touches: seq<Touch>, pubkey: string)
    requires KeyOf(s, pubkey) == KeyOf(s', pubkey)
    ensures KeyOf(AfterTouches(s, touches), pubkey) == KeyOf(AfterTouches(s', touches), pubkey)
  {
    if touches != [] {
      KeyTouched(s, s', touches[..|touches| - 1], pubkey);
    }
  }

  // Dropping another key is no more to this one than what others do meanwhile.
  lemma KeyLocked(s: State, s': State, other: string, start: int, between: seq<Touch>, pubkey: string)
    requires KeyOf(s, pubkey) == KeyOf(s', pubkey)
    ensures KeyOf(Locked(s, pubkey, start, between), pubkey) == KeyOf(Locked(s', pubkey, start, between), pubkey)
    ensures other != pubkey ==>
      KeyOf(Locked(s, other, start, between), pubkey) == KeyOf(AfterTouches(s', between), pubkey)
  {
    KeyTouched(AfterDelete(s, pubkey, start), AfterDelete(s', pubkey, start), between, pubkey);
    if other != pubkey {
      KeyTouched(AfterDelete(s, other, start), s', between, pubkey);
    }
    hide AfterTouches;
  }

  lemma {:induction false} KeyNotDropped(s: State, order: seq<string>, start: int, env: nat -> seq<Touch>,
                                         pubkey: string)
    requires pubkey !in order
    ensures KeyOf(AfterDrops(s, order, start, env), pubkey)
         == KeyOf(AfterTouches(s, Joined(env, 0, 2 * |order|)), pubkey)
  {
    if order != [] {
      var i := |order| - 1;
      KeyNotDropped(s, order[..i], start, env, pubkey);
      AnotherDrop(s, order, start, env, pubkey, s, 0);
    }
  }

  // To a key that since s1 has seen only touches, the drop of another is no more than that.
  lemma AnotherDrop(s: State, order: seq<string>, start: int, env: nat -> seq<Touch>, pubkey: string, s1: State,
                    from: nat)
    requires order != [] && order[|order| - 1] != pubkey && from <= 2 * (|order| - 1)
    requires KeyOf(AfterDrops(s, order[..|order| - 1], start, env), pubkey)
          == KeyOf(AfterTouches(s1, Joined(env, from, 2 * (|order| - 1))), pubkey)
    ensures KeyOf(AfterDrops(s, order, start, env), pubkey)
         == KeyOf(AfterTouches(s1, Joined(env, from, 2 * |order|)), pubkey)
  {
    var i := |order| - 1;
    hide AfterTouches, AfterDrops, KeyOf, Joined;
    DropStep(s, order, start, env, pubkey, AfterTouches(s1, Joined(env, from, 2 * i)));
    JoinedIn(env, from, 2 * i, 2 * i + 2);
    TouchesJoin(s1, Joined(env, from, 2 * i), Joined(env, 2 * i, 2 * i + 2));
  }

  // The last of several drops, seen from a key.
  lemma DropStep(s: State, order: seq<string>, start: int, env: nat -> seq<Touch>, pubkey: string, s1: State)
    requires order != []
    requires KeyOf(AfterDrops(s, order[..|order| - 1], start, env), pubkey) == KeyOf(s1, pubkey)
    ensures var i := |order| - 1;
            var s2 := AfterTouches(s1, env(2 * i));
            KeyOf(AfterDrops(s, order, start, env), pubkey) ==
              if order[i] == pubkey then KeyOf(Locked(s2, pubkey, start, env(2 * i + 1)), pubkey)
              else KeyOf(AfterTouches(s1, Joined(env, 2 * i, 2 * i + 2)), pubkey)
  {
    var i := |order| - 1;
    JoinedTwo(env, 2 * i);
    TouchesJoin(s1, env(2 * i), env(2 * i + 1));
    var before := AfterDrops(s, order[..i], start, env);
    KeyTouched(before, s1, env(2 * i), pubkey);
    KeyLocked(AfterTouches(before, env(2 * i)), AfterTouches(s1, env(2 * i)), order[i], start, env(2 * i + 1), pubkey);
    hide AfterTouches, Locked, KeyOf;
  }

  // The k-th drop as its key sees it: after what others did before it.
  function LockedKth(s: State, pubkey: string, start: int, env: nat -> seq<Touch>, k: nat): State {
    Locked(AfterTouches(s, Joined(env, 0, 2 * k + 1)), pubkey, start, env(2 * k + 1))
  }

  lemma KeyDroppedLast(s: State, order: seq<string>, start: int, env: nat -> seq<Touch>)
    requires order != [] && order[|order| - 1] !in order[..|order| - 1]
    ensures var i := |order| - 1;
            KeyOf(AfterDrops(s, order, start, env), order[i])
            == KeyOf(AfterTouches(LockedKth(s, order[i], start, env, i), Joined(env, 2 * i + 2, 2 * |order|)), order[i])
  {
    var i := |order| - 1;
    JoinedStep(env, 0, 2 * i);
    NoMore(LockedKth(s, order[i], start, env, i), env, 2 * |order|);
    hide AfterTouches, AfterDrops, Locked, KeyOf, Joined;
    KeyNotDropped(s, order[..i], start, env, order[i]);
    DropStep(s, order, start, env, order[i], AfterTouches(s, Joined(env, 0, 2 * i)));
    TouchesJoin(s, Joined(env, 0, 2 * i), env(2 * i));
  }

  lemma {:induction false} KeyDropped(s: State, order: seq<string>, start: int, env: nat -> seq<Touch>, k: nat)
    requires k < |order| && Distinct(order)
    ensures KeyOf(AfterDrops(s, order, start, env), order[k])
         == KeyOf(AfterTouches(LockedKth(s, order[k], start, env, k), Joined(env, 2 * k + 2, 2 * |order|)), order[k])
  {
    var pubkey, i := order[k], |order| - 1;
    var locked := LockedKth(s, pubkey, start, env, k);
    if k == i {
      KeyDroppedLast(s, order, start, env);
    } else {
      hide AfterTouches, AfterDrops, LockedKth, KeyOf, Joined;
      KeyDropped(s, order[..i], start, env, k);
      AnotherDrop(s, order, start, env, pubkey, locked, 2 * k + 2);
    }
  }

  // Likewise for restores.
  lemma KeyRestored(e: Setting, s: State, s': State, other: string, seals: seq<SealRow>, later: int,
                    first: seq<Touch>, second: seq<Touch>, third: seq<Touch>, pubkey: string)
    requires KeyOf(s, pubkey) == KeyOf(s', pubkey) && forall row :: row in seals ==> row.pubkey == other
    ensures other == pubkey ==>
      KeyOf(AfterRestore(e, s, pubkey, seals, later, first, second, third), pubkey)
      == KeyOf(AfterRestore(e, s', pubkey, seals, later, first, second, third), pubkey)
    ensures other != pubkey ==>
      KeyOf(AfterRestore(e, s, other, seals, later, first, second, third), pubkey)
      == KeyOf(AfterTouches(AfterTouches(AfterTouches(s', first), second), third), pubkey)
  {
    var s1, s1' := AfterTouches(s, first), AfterTouches(s', first);
    var s2, s2' := AfterTouches(s1, second), AfterTouches(s1', second);
    KeyTouched(s, s', first, pubkey);
    KeyTouched(s1, s1', second, pubkey);
    KeyTouched(s2, s2', third, pubkey);
    KeyTouched(AfterTouch(s2, Load(other)), AfterTouch(s2', Load(other)), third, pubkey);
    if other != pubkey {
      KeyTouched(AfterTouch(s2, Load(other)), s2', third, pubkey);
    }
    hide AfterTouches;
  }

  lemma KeyRestoredAt(e: Setting, s: State, s': State, other: string, seals: seq<SealRow>, later: int,
                      env: nat -> seq<Touch>, i: nat, pubkey: string)
    requires KeyOf(s, pubkey) == KeyOf(s', pubkey) && forall row :: row in seals ==> row.pubkey == other
    ensures other == pubkey ==>
      KeyOf(RestoreAt(e, s, pubkey, seals, later, env, i), pubkey)
      == KeyOf(RestoreAt(e, s', pubkey, seals, later, env, i), pubkey)
    ensures other != pubkey ==>
      KeyOf(RestoreAt(e, s, other, seals, later, env, i), pubkey)
      == KeyOf(AfterTouches(s', Joined(env, 3 * i, 3 * i + 3)), pubkey)
  {
    JoinedThree(s', env, 3 * i);
    hide AfterTouches, AfterRestore, KeyOf, Joined;
    KeyRestored(e, s, s', other, seals, later, env(3 * i), env(3 * i + 1), env(3 * i + 2), pubkey);
  }

  // The last of several restores, seen from its key and from any other.
  lemma RestoreStep(e: Setting, s: State, live: map<string, seq<SealRow>>, order: seq<string>, later: int,
                    env: nat -> seq<Touch>, pubkey: string, s1: State)
    requires order != [] && SealsOfKeys(live, order)
    requires KeyOf(AfterRestores(e, s, live, order[..|order| - 1], later, env), pubkey) == KeyOf(s1, pubkey)
    ensures order[|order| - 1] in live
    ensures var i, last := |order| - 1, order[|order| - 1];
            KeyOf(AfterRestores(e, s, live, order, later, env), pubkey)
            == KeyOf(if last == pubkey then RestoreAt(e, s1, pubkey, live[last], later, env, i)
                     else AfterTouches(s1, Joined(env, 3 * i, 3 * i + 3)), pubkey)
  {
    var i, last := |order| - 1, order[|order| - 1];
    SealsOfPrefix(live, order);
    hide SealsOfKeys, AfterTouches, RestoreAt, KeyOf, Joined;
    KeyRestoredAt(e, AfterRestores(e, s, live, order[..i], later, env), s1, last, live[last], later, env, i, pubkey);
  }

  lemma JoinedStep(env: nat -> seq<Touch>, i: nat, j: nat)
    requires i <= j
    ensures Joined(env, i, j + 1) == Joined(env, i, j) + env(j)
  {
  }

  lemma JoinedTwo(env: nat -> seq<Touch>, i: nat)
    ensures Joined(env, i, i + 2) == env(i) + env(i + 1)
  {
    assert Joined(env, i, i + 1) == env(i);
  }

  lemma JoinedThree(s: State, env: nat -> seq<Touch>, i: nat)
    ensures AfterTouches(s, Joined(env, i, i + 3))
         == AfterTouches(AfterTouches(AfterTouches(s, env(i)), env(i + 1)), env(i + 2))
  {
    JoinedStep(env, i, i + 2);
    JoinedTwo(env, i);
    hide Joined, AfterTouches;
    TouchesJoin(s, env(i), env(i + 1));
    TouchesJoin(s, env(i) + env(i + 1), env(i + 2));
  }

  ghost predicate SealsOfKeys(live: map<string, seq<SealRow>>, order: seq<string>) {
    forall q :: q in order ==> q in live && forall row :: row in live[q] ==> row.pubkey == q
  }

  lemma SealsOfPrefix(live: map<string, seq<SealRow>>, order: seq<string>)
    requires order != [] && SealsOfKeys(live, order)
    ensures var last := order[|order| - 1];
            && SealsOfKeys(live, order[..|order| - 1]) && last in live
            && forall row :: row in live[last] ==> row.pubkey == last
    ensures forall q :: q in order ==> q in live
    ensures forall q :: q in order[..|order| - 1] ==> q in live
  {
    assert order[|order| - 1] in order;
  }

  lemma {:induction false} KeyNotRestored(e: Setting, s: State, live: map<string, seq<SealRow>>, order: seq<string>,
                                          later: int, env: nat -> seq<Touch>, pubkey: string)
    requires pubkey !in order && SealsOfKeys(live, order)
    ensures KeyOf(AfterRestores(e, s, live, order, later, env), pubkey)
         == KeyOf(AfterTouches(s, Joined(env, 0, 3 * |order|)), pubkey)
  {
    if order != [] {
      var i := |order| - 1;
      SealsOfPrefix(live, order);
      hide AfterTouches, AfterRestores, KeyOf, Joined, SealsOfKeys;
      KeyNotRestored(e, s, live, order[..i], later, env, pubkey);
      AnotherRestore(e, s, live, order, later, env, pubkey, s, 0);
    }
  }

  lemma AnotherRestore(e: Setting, s: State, live: map<string, seq<SealRow>>, order: seq<string>, later: int,
                       env: nat -> seq<Touch>, pubkey: string, s1: State, from: nat)
    requires order != [] && order[|order| - 1] != pubkey && SealsOfKeys(live, order) && from <= 3 * (|order| - 1)
    requires KeyOf(AfterRestores(e, s, live, order[..|order| - 1], later, env), pubkey)
          == KeyOf(AfterTouches(s1, Joined(env, from, 3 * (|order| - 1))), pubkey)
    ensures KeyOf(AfterRestores(e, s, live, order, later, env), pubkey)
         == KeyOf(AfterTouches(s1, Joined(env, from, 3 * |order|)), pubkey)
  {
    var i := |order| - 1;
    hide AfterTouches, AfterRestores, KeyOf, Joined;
    RestoreStep(e, s, live, order, later, env, pubkey, AfterTouches(s1, Joined(env, from, 3 * i)));
    JoinedIn(env, from, 3 * i, 3 * i + 3);
    TouchesJoin(s1, Joined(env, from, 3 * i), Joined(env, 3 * i, 3 * i + 3));
  }

  // The k-th restore as its key sees it.
  function RestoredKth(e: Setting, s: State, pubkey: string, seals: seq<SealRow>, later: int, env: nat -> seq<Touch>,
                       k: nat): State
  {
    RestoreAt(e, AfterTouches(s, Joined(env, 0, 3 * k)), pubkey, seals, later, env, k)
  }

  lemma NoMore(s: State, env: nat -> seq<Touch>, i: nat)
    ensures AfterTouches(s, Joined(env, i, i)) == s
  {
  }

  lemma KeyRestoredLast(e: Setting, s: State, live: map<string, seq<SealRow>>, order: seq<string>, later: int,
                        env: nat -> seq<Touch>)
    requires order != [] && order[|order| - 1] !in order[..|order| - 1] && SealsOfKeys(live, order)
    ensures var i := |order| - 1;
            && order[i] in live
            && KeyOf(AfterRestores(e, s, live, order, later, env), order[i])
               == KeyOf(AfterTouches(RestoredKth(e, s, order[i], live[order[i]], later, env, i),
                                     Joined(env, 3 * i + 3, 3 * |order|)), order[i])
  {
    var i := |order| - 1;
    SealsOfPrefix(live, order);
    NoMore(RestoredKth(e, s, order[i], live[order[i]], later, env, i), env, 3 * |order|);
    hide AfterTouches, AfterRestores, RestoreAt, KeyOf, Joined, SealsOfKeys;
    KeyNotRestored(e, s, live, order[..i], later, env, order[i]);
    RestoreStep(e, s, live, order, later, env, order[i], AfterTouches(s, Joined(env, 0, 3 * i)));
  }

  lemma {:induction false} KeyInRestores(e: Setting, s: State, live: map<string, seq<SealRow>>, order: seq<string>,
                                         later: int, env: nat -> seq<Touch>, k: nat)
    requires k < |order| && SealsOfKeys(live, order) && Distinct(order)
    ensures order[k] in live
    ensures KeyOf(AfterRestores(e, s, live, order, later, env), order[k])
         == KeyOf(AfterTouches(RestoredKth(e, s, order[k], live[order[k]], later, env, k),
                               Joined(env, 3 * k + 3, 3 * |order|)), order[k])
  {
    var i := |order| - 1;
    SealsOfPrefix(live, order);
    assert order[k] in order && Distinct(order[..i]);
    hide AfterTouches, AfterRestores, RestoredKth, KeyOf, Joined, SealsOfKeys;
    if k == i {
      KeyRestoredLast(e, s, live, order, later, env);
    } else {
      KeyInRestores(e, s, live, order[..i], later, env, k);
      assert order[..i][k] == order[k];
      hide Distinct;
      AnotherRestore(e, s, live, order, later, env, order[k],
        RestoredKth(e, s, order[k], live[order[k]], later, env, k), 3 * k + 3);
    }
  }

  // ----- what a whole pass comes to, whatever others do meanwhile

  lemma {:induction false} JoinedSince(env: nat -> seq<Touch>, i: nat, j: nat, start: int)
    requires i <= j && forall k :: TakesSince(env(k), start)
    ensures TakesSince(Joined(env, i, j), start)
  {
    if i < j {
      JoinedSince(env, i, j - 1, start);
      assert TakesSince(env(j - 1), start);
    }
  }

  lemma BothSince(a: seq<Touch>, b: seq<Touch>, start: int)
    requires TakesSince(a, start) && TakesSince(b, start)
    ensures TakesSince(a + b, start)
  {
  }

  // What others do before, within and after the k-th drop.
  function BeforeDrop(env: Disturbance, k: nat): seq<Touch> {
    env.early + Joined(env.dropping, 0, 2 * k + 1)
  }

  function AfterDrop(env: Disturbance, c: Course, k: nat): seq<Touch>
    requires k < |c.drops|
  {
    Joined(env.dropping, 2 * k + 2, 2 * |c.drops|) + Joined(env.restoring, 0, 3 * |c.restores|)
  }

  // All that others do.
  function Throughout(env: Disturbance, c: Course): seq<Touch> {
    env.early + Joined(env.dropping, 0, 2 * |c.drops|) + Joined(env.restoring, 0, 3 * |c.restores|)
  }

  // A key the pass drops is leased in the end exactly if somebody took its lease meanwhile; it is loaded
  // exactly if it was loaded after the unload, or its lease was taken before the delete and it was loaded by
  // the unload.
  lemma DroppedKeyIff(e: Setting, s: State, start: int, later: int, env: Disturbance, c: Course, s': State, k: nat)
    requires start <= later && env.Since(start) && IsPass(e, s, start, later, env, c, s') && k < |c.drops|
    ensures var pubkey, before, between := c.drops[k], BeforeDrop(env, k), env.dropping(2 * k + 1);
            var after := AfterDrop(env, c, k);
            && (pubkey in s'.leases <==> pubkey in Taken(before + between + after))
            && (pubkey in s'.leases ==> s'.leases[pubkey].at >= start)
            && (pubkey in s'.loaded <==>
                  || Load(pubkey) in after
                  || (pubkey in Taken(before) && (pubkey in s.loaded || Load(pubkey) in before + between)))
  {
    var pubkey, u := c.drops[k], s.(rows := Unended(e, s.rows, start));
    var before, between, after := BeforeDrop(env, k), env.dropping(2 * k + 1), AfterDrop(env, c, k);
    assert pubkey in c.drops;
    DroppedIsOlder(e, s, start, env, c, pubkey);
    DroppedKeyEnd(e, u, start, later, env, c, k);
    DropsSince(env, c, k, start);
    BothSince(before, between, start);
    BothSince(before + between, after, start);
    hide AfterTouches, AfterDrop, BeforeDrop, AfterLoops, Locked, TakesSince, Possible, Taken;
    TouchedKeyIff(u, pubkey, start, before, between, after);
  }

  lemma DropsSince(env: Disturbance, c: Course, k: nat, start: int)
    requires env.Since(start) && k < |c.drops|
    ensures TakesSince(BeforeDrop(env, k), start) && TakesSince(env.dropping(2 * k + 1), start)
    ensures TakesSince(AfterDrop(env, c, k), start)
  {
    JoinedSince(env.dropping, 0, 2 * k + 1, start);
    JoinedSince(env.dropping, 2 * k + 2, 2 * |c.drops|, start);
    JoinedSince(env.restoring, 0, 3 * |c.restores|, start);
    BothSince(env.early, Joined(env.dropping, 0, 2 * k + 1), start);
    BothSince(Joined(env.dropping, 2 * k + 2, 2 * |c.drops|), Joined(env.restoring, 0, 3 * |c.restores|), start);
  }

  // Which keys a pass drops: those whose lease is stale at its beginning and is not taken before the list is
  // made.
  lemma DroppedIff(e: Setting, s: State, start: int, env: Disturbance, c: Course, pubkey: string)
    requires Possible(e, s, start, env, c) && TakesSince(env.early, start)
    ensures pubkey in c.drops <==> Stale(e, s, start, pubkey) && pubkey !in Taken(env.early)
    ensures pubkey in c.restores <==> LiveFor(e, s.rows, start, pubkey) != []
  {
    TouchesOf(s, env.early, pubkey, start);
    hide AfterTouches, LiveFor, IsUnsure, Taken;
  }

  lemma DroppedIsOlder(e: Setting, s: State, start: int, env: Disturbance, c: Course, pubkey: string)
    requires Possible(e, s, start, env, c) && TakesSince(env.early, start) && pubkey in c.drops
    ensures Older(s, pubkey, start) && pubkey !in c.live && pubkey !in c.restores
  {
    TouchesOf(s, env.early, pubkey, start);
  }

  // The end of a dropped key, as TouchedKeyIff has it.
  lemma DroppedKeyEnd(e: Setting, s: State, start: int, later: int, env: Disturbance, c: Course, k: nat)
    requires k < |c.drops| && Distinct(c.drops) && c.drops[k] !in c.restores && SealsOfKeys(c.live, c.restores)
    ensures var locked := Locked(AfterTouches(s, BeforeDrop(env, k)), c.drops[k], start, env.dropping(2 * k + 1));
            KeyOf(AfterLoops(e, s, start, later, env, c), c.drops[k])
            == KeyOf(AfterTouches(locked, AfterDrop(env, c, k)), c.drops[k])
  {
    var pubkey, s1 := c.drops[k], AfterTouches(s, env.early);
    var dropped, locked := AfterDrops(s1, c.drops, start, env.dropping), LockedKth(s1, pubkey, start, env.dropping, k);
    var rest, restoring := Joined(env.dropping, 2 * k + 2, 2 * |c.drops|), Joined(env.restoring, 0, 3 * |c.restores|);
    TouchesJoin(s, env.early, Joined(env.dropping, 0, 2 * k + 1));
    hide AfterTouches, AfterDrops, AfterRestores, KeyOf, Joined, Locked;
    KeyDropped(s1, c.drops, start, env.dropping, k);
    KeyNotRestored(e, dropped, c.live, c.restores, later, env.restoring, pubkey);
    KeyTouched(dropped, AfterTouches(locked, rest), restoring, pubkey);
    TouchesJoin(locked, rest, restoring);
  }

  // A key that is neither dropped nor has a live seal is only touched by others.
  lemma OtherKeyIff(e: Setting, s: State, start: int, later: int, env: Disturbance, c: Course, s': State,
                    pubkey: string)
    requires start <= later && env.Since(start) && IsPass(e, s, start, later, env, c, s')
    requires pubkey !in c.drops && pubkey !in c.live
    ensures var all := Throughout(env, c);
            && (pubkey in s'.loaded <==> pubkey in s.loaded || Load(pubkey) in all)
            && (pubkey in s'.leases <==> pubkey in s.leases || pubkey in Taken(all))
            && (pubkey in Taken(all) ==> s'.leases[pubkey].at >= start)
            && (pubkey !in Taken(all) && pubkey in s.leases ==> s'.leases[pubkey] == s.leases[pubkey])
  {
    var u := s.(rows := Unended(e, s.rows, start));
    KeysOfSeals(e, s, start, env, c);
    OtherKeyEnd(e, u, start, later, env, c, pubkey);
    ThroughoutSince(env, c, start);
    hide AfterTouches, AfterLoops, TakesSince, Possible, Throughout, Taken;
    TouchesOf(u, Throughout(env, c), pubkey, start);
  }

  lemma ThroughoutSince(env: Disturbance, c: Course, start: int)
    requires env.Since(start)
    ensures TakesSince(Throughout(env, c), start)
  {
    JoinedSince(env.dropping, 0, 2 * |c.drops|, start);
    JoinedSince(env.restoring, 0, 3 * |c.restores|, start);
    BothSince(env.early, Joined(env.dropping, 0, 2 * |c.drops|), start);
    BothSince(env.early + Joined(env.dropping, 0, 2 * |c.drops|), Joined(env.restoring, 0, 3 * |c.restores|), start);
  }

  lemma KeysOfSeals(e: Setting, s: State, start: int, env: Disturbance, c: Course)
    requires Possible(e, s, start, env, c)
    ensures SealsOfKeys(c.live, c.restores) && Distinct(c.drops) && Distinct(c.restores)
    ensures forall pubkey :: pubkey in c.live <==> pubkey in c.restores
  {
  }

  lemma OtherKeyEnd(e: Setting, s: State, start: int, later: int, env: Disturbance, c: Course, pubkey: string)
    requires pubkey !in c.drops && pubkey !in c.restores && SealsOfKeys(c.live, c.restores)
    ensures KeyOf(AfterLoops(e, s, start, later, env, c), pubkey)
         == KeyOf(AfterTouches(s, Throughout(env, c)), pubkey)
  {
    var s1 := AfterTouches(s, env.early);
    var dropped := AfterDrops(s1, c.drops, start, env.dropping);
    var dropping, restoring := Joined(env.dropping, 0, 2 * |c.drops|), Joined(env.restoring, 0, 3 * |c.restores|);
    hide AfterTouches, AfterDrops, AfterRestores, KeyOf, Joined;
    KeyNotDropped(s1, c.drops, start, env.dropping, pubkey);
    KeyNotRestored(e, dropped, c.live, c.restores, later, env.restoring, pubkey);
    KeyTouched(dropped, AfterTouches(s1, dropping), restoring, pubkey);
    TouchesJoin(s, env.early, dropping);
    TouchesJoin(s, env.early + dropping, restoring);
  }

  // What others do before the check of the k-th restore, and from there on.
  function BeforeCheck(env: Disturbance, c: Course, k: nat): seq<Touch> {
    env.early + Joined(env.dropping, 0, 2 * |c.drops|) + Joined(env.restoring, 0, 3 * k + 1)
  }

  function AfterCheck(env: Disturbance, c: Course, k: nat): seq<Touch>
    requires k < |c.restores|
  {
    Joined(env.restoring, 3 * k + 1, 3 * |c.restores|)
  }

  // A key with live seals is loaded in the end exactly if it was, or somebody loaded it, or a seal opens
  // here; its lease is taken by the pass exactly if a seal opens and nobody had loaded it by the check.
  lemma LiveKeyIff(e: Setting, s: State, start: int, later: int, env: Disturbance, c: Course, s': State, k: nat)
    requires start <= later && env.Since(start) && IsPass(e, s, start, later, env, c, s') && k < |c.restores|
    ensures var pubkey, prior, rest := c.restores[k], BeforeCheck(env, c, k), AfterCheck(env, c, k);
            var opens := FirstOpenable(e, LiveFor(e, s.rows, start, pubkey)).Some?;
            var mine := opens && pubkey !in s.loaded && Load(pubkey) !in prior;
            && (pubkey in s'.loaded <==> pubkey in s.loaded || Load(pubkey) in prior + rest || opens)
            && (pubkey in s'.leases <==> pubkey in s.leases || pubkey in Taken(prior + rest) || mine)
            && (pubkey in Taken(prior + rest) || mine ==> s'.leases[pubkey].at >= start)
            && (pubkey !in Taken(prior + rest) && !mine && pubkey in s.leases ==>
                  s'.leases[pubkey] == s.leases[pubkey])
  {
    var pubkey, u := c.restores[k], s.(rows := Unended(e, s.rows, start));
    var prior, rest, seals := BeforeCheck(env, c, k), AfterCheck(env, c, k), c.live[c.restores[k]];
    assert pubkey in c.restores;
    KeysOfSeals(e, s, start, env, c);
    NotDroppedIfLive(e, s, start, env, c, pubkey);
    LiveKeyEnd(e, u, start, later, env, c, k);
    ChecksSince(env, c, k, start);
    assert seals == LiveFor(e, s.rows, start, pubkey);
    hide AfterTouches, AfterLoops, TakesSince, Possible, BeforeCheck, AfterCheck, Taken, FirstOpenable, LiveFor, Joined;
    var second, third := env.restoring(3 * k + 1), env.restoring(3 * k + 2);
    RestoredKeyIff(e, u, pubkey, seals, start, later, prior, rest, second, third,
      Joined(env.restoring, 3 * k + 3, 3 * |c.restores|));
  }

  lemma NotDroppedIfLive(e: Setting, s: State, start: int, env: Disturbance, c: Course, pubkey: string)
    requires Possible(e, s, start, env, c) && pubkey in c.live
    ensures pubkey !in c.drops
  {
  }

  lemma ChecksSince(env: Disturbance, c: Course, k: nat, start: int)
    requires env.Since(start) && k < |c.restores|
    ensures TakesSince(BeforeCheck(env, c, k), start) && TakesSince(AfterCheck(env, c, k), start)
    ensures AfterCheck(env, c, k)
         == env.restoring(3 * k + 1) + env.restoring(3 * k + 2) + Joined(env.restoring, 3 * k + 3, 3 * |c.restores|)
  {
    JoinedSince(env.dropping, 0, 2 * |c.drops|, start);
    JoinedSince(env.restoring, 0, 3 * k + 1, start);
    JoinedSince(env.restoring, 3 * k + 1, 3 * |c.restores|, start);
    BothSince(env.early, Joined(env.dropping, 0, 2 * |c.drops|), start);
    BothSince(env.early + Joined(env.dropping, 0, 2 * |c.drops|), Joined(env.restoring, 0, 3 * k + 1), start);
    JoinedIn(env.restoring, 3 * k + 1, 3 * k + 3, 3 * |c.restores|);
    JoinedTwo(env.restoring, 3 * k + 1);
  }

  // A restore of the key after prior, then what others do to the end.
  lemma RestoredKeyIff(e: Setting, s: State, pubkey: string, seals: seq<SealRow>, start: int, later: int,
                       prior: seq<Touch>, rest: seq<Touch>, second: seq<Touch>, third: seq<Touch>, last: seq<Touch>)
    requires start <= later && rest == second + third + last && forall row :: row in seals ==> row.pubkey == pubkey
    requires TakesSince(prior, start) && TakesSince(rest, start)
    ensures var restored := AfterRestore(e, AfterTouches(s, prior), pubkey, seals, later, [], second, third);
            var s' := AfterTouches(restored, last);
            var opens := FirstOpenable(e, seals).Some?;
            var mine := opens && pubkey !in s.loaded && Load(pubkey) !in prior;
            && (pubkey in s'.loaded <==> pubkey in s.loaded || Load(pubkey) in prior + rest || opens)
            && (pubkey in s'.leases <==> pubkey in s.leases || pubkey in Taken(prior + rest) || mine)
            && (pubkey in Taken(prior + rest) || mine ==> s'.leases[pubkey].at >= start)
            && (pubkey !in Taken(prior + rest) && !mine && pubkey in s.leases ==>
                  s'.leases[pubkey] == s.leases[pubkey])
  {
    var s1 := AfterTouches(s, prior);
    var s2 := AfterTouches(s1, second);
    var restored := AfterRestore(e, s1, pubkey, seals, later, [], second, third);
    assert forall t :: t in second || t in third || t in last <==> t in rest;
    assert Taken(prior + rest) == Taken(prior) + Taken(second) + Taken(third) + Taken(last);
    assert AfterTouches(s1, []) == s1;
    TouchesOf(s, prior, pubkey, start);
    TouchesOf(s1, second, pubkey, start);
    TouchesOf(s2, third, pubkey, start);
    TouchesOf(AfterTouch(s2, Load(pubkey)), third, pubkey, start);
    TouchesOf(restored, last, pubkey, start);
    hide AfterTouches, Taken, FirstOpenable;
  }

  lemma LiveKeyEnd(e: Setting, s: State, start: int, later: int, env: Disturbance, c: Course, k: nat)
    requires k < |c.restores| && Distinct(c.restores) && c.restores[k] !in c.drops && SealsOfKeys(c.live, c.restores)
    ensures c.restores[k] in c.live
    ensures var pubkey := c.restores[k];
            var restored := AfterRestore(e, AfterTouches(s, BeforeCheck(env, c, k)), pubkey, c.live[pubkey], later,
                                         [], env.restoring(3 * k + 1), env.restoring(3 * k + 2));
            KeyOf(AfterLoops(e, s, start, later, env, c), pubkey)
            == KeyOf(AfterTouches(restored, Joined(env.restoring, 3 * k + 3, 3 * |c.restores|)), pubkey)
  {
    var pubkey, s1 := c.restores[k], AfterTouches(s, env.early);
    assert pubkey in c.restores;
    var dropped := AfterDrops(s1, c.drops, start, env.dropping);
    var dropping, before := Joined(env.dropping, 0, 2 * |c.drops|), Joined(env.restoring, 0, 3 * k);
    var s2, seals := AfterTouches(s, env.early + dropping + before), c.live[pubkey];
    var first, second, third := env.restoring(3 * k), env.restoring(3 * k + 1), env.restoring(3 * k + 2);
    var restored := AfterRestore(e, s2, pubkey, seals, later, first, second, third);
    var last := Joined(env.restoring, 3 * k + 3, 3 * |c.restores|);
    FirstFirst(e, s2, pubkey, seals, later, first, second, third);
    JoinedStep(env.restoring, 0, 3 * k);
    assert env.early + dropping + before + first == BeforeCheck(env, c, k);
    hide AfterTouches, AfterDrops, AfterRestores, AfterRestore, KeyOf, Joined, BeforeCheck;
    KeyNotDropped(s1, c.drops, start, env.dropping, pubkey);
    KeyInRestores(e, dropped, c.live, c.restores, later, env.restoring, k);
    KeyTouched(dropped, AfterTouches(s1, dropping), before, pubkey);
    TouchesJoin(s, env.early, dropping);
    TouchesJoin(s, env.early + dropping, before);
    KeyRestored(e, AfterTouches(dropped, before), s2, pubkey, seals, later, first, second, third, pubkey);
    KeyTouched(RestoredKth(e, dropped, pubkey, seals, later, env.restoring, k), restored, last, pubkey);
    TouchesJoin(s, env.early + dropping + before, first);
  }

  lemma FirstFirst(e: Setting, s: State, pubkey: string, seals: seq<SealRow>, later: int, first: seq<Touch>,
                   second: seq<Touch>, third: seq<Touch>)
    ensures AfterRestore(e, s, pubkey, seals, later, first, second, third)
         == AfterRestore(e, AfterTouches(s, first), pubkey, seals, later, [], second, third)
  {
    assert AfterTouches(AfterTouches(s, first), []) == AfterTouches(s, first);
  }

  // A lease taken since the pass began survives it, whenever it is taken.
  lemma NewLeasesSurvive(e: Setting, s: State, start: int, later: int, env: Disturbance, c: Course, s': State,
                         pubkey: string)
    requires start <= later && env.Since(start) && IsPass(e, s, start, later, env, c, s')
    requires pubkey in Taken(Throughout(env, c)) || (pubkey in s.leases && s.leases[pubkey].at >= start)
    ensures pubkey in s'.leases && s'.leases[pubkey].at >= start
  {
    KeysOfSeals(e, s, start, env, c);
    if pubkey in c.drops {
      var k :| 0 <= k < |c.drops| && c.drops[k] == pubkey;
      DroppedIsOlder(e, s, start, env, c, pubkey);
      DropParts(env, c, k);
      hide Taken, IsPass, Possible, Throughout, BeforeDrop, AfterDrop;
      DroppedKeyIff(e, s, start, later, env, c, s', k);
    } else if pubkey in c.live {
      var k :| 0 <= k < |c.restores| && c.restores[k] == pubkey;
      CheckParts(env, c, k);
      hide Taken, IsPass, Possible, Throughout, BeforeCheck, AfterCheck;
      LiveKeyIff(e, s, start, later, env, c, s', k);
    } else {
      hide Taken, IsPass, Possible, Throughout;
      OtherKeyIff(e, s, start, later, env, c, s', pubkey);
    }
  }

  lemma DropParts(env: Disturbance, c: Course, k: nat)
    requires k < |c.drops|
    ensures BeforeDrop(env, k) + env.dropping(2 * k + 1) + AfterDrop(env, c, k) == Throughout(env, c)
  {
    JoinedIn(env.dropping, 0, 2 * k + 2, 2 * |c.drops|);
    JoinedStep(env.dropping, 0, 2 * k + 1);
  }

  lemma CheckParts(env: Disturbance, c: Course, k: nat)
    requires k < |c.restores|
    ensures BeforeCheck(env, c, k) + AfterCheck(env, c, k) == Throughout(env, c)
  {
    JoinedIn(env.restoring, 0, 3 * k + 1, 3 * |c.restores|);
  }

  // ----- an undisturbed pass

  lemma {:induction false} NothingJoined(env: nat -> seq<Touch>, i: nat, j: nat)
    requires i <= j && forall k :: env(k) == []
    ensures Joined(env, i, j) == []
  {
    if i < j {
      NothingJoined(env, i, j - 1);
    }
  }

  lemma NothingThroughout(env: Disturbance, i: nat, j: nat)
    requires env.Quiet() && i <= j
    ensures Joined(env.dropping, i, j) == [] && Joined(env.restoring, i, j) == []
  {
    NothingJoined(env.dropping, i, j);
    NothingJoined(env.restoring, i, j);
  }

  // What an undisturbed pass makes of one key.
  function SettledKey(e: Setting, s: State, start: int, later: int, pubkey: string): Key {
    if Stale(e, s, start, pubkey) then Key(None, false, KeyOf(s, pubkey).miss)
    else if Restored(e, s, start, pubkey) then
      Key(Some(Lease(FirstOpenable(e, LiveFor(e, s.rows, start, pubkey)).value.user, later)), true, None)
    else KeyOf(s, pubkey)
  }

  lemma QuietKey(e: Setting, s: State, start: int, later: int, env: Disturbance, c: Course, pubkey: string)
    requires env.Quiet() && Possible(e, s, start, env, c) && start <= later
    ensures KeyOf(AfterLoops(e, s.(rows := Unended(e, s.rows, start)), start, later, env, c), pubkey)
         == SettledKey(e, s, start, later, pubkey)
  {
    var u := s.(rows := Unended(e, s.rows, start));
    KeysOfSeals(e, s, start, env, c);
    QuietCase(e, s, start, later, env, c, pubkey);
    hide AfterLoops, Possible, LiveFor, Unended, FirstOpenable, Stale, IsUnsure, SealsOfKeys, SettledKey, Restored,
      Distinct;
    if pubkey in c.drops {
      var k :| 0 <= k < |c.drops| && c.drops[k] == pubkey;
      QuietDrop(e, u, start, later, env, c, k);
    } else if pubkey in c.live {
      var k :| 0 <= k < |c.restores| && c.restores[k] == pubkey;
      QuietRestore(e, u, start, later, env, c, k);
    } else {
      QuietOther(e, u, start, later, env, c, pubkey);
    }
  }

  lemma QuietDrop(e: Setting, s: State, start: int, later: int, env: Disturbance, c: Course, k: nat)
    requires env.Quiet() && k < |c.drops| && Older(s, c.drops[k], start)
    requires Distinct(c.drops) && c.drops[k] !in c.restores && SealsOfKeys(c.live, c.restores)
    ensures KeyOf(AfterLoops(e, s, start, later, env, c), c.drops[k]) == Key(None, false, KeyOf(s, c.drops[k]).miss)
  {
    NothingThroughout(env, 0, 2 * k + 1);
    NothingThroughout(env, 2 * k + 2, 2 * |c.drops|);
    NothingThroughout(env, 0, 3 * |c.restores|);
    assert AfterTouches(s, []) == s;
    hide AfterLoops, SealsOfKeys, Joined;
    DroppedKeyEnd(e, s, start, later, env, c, k);
  }

  lemma QuietRestore(e: Setting, s: State, start: int, later: int, env: Disturbance, c: Course, k: nat)
    requires env.Quiet() && k < |c.restores| && Distinct(c.restores)
    requires c.restores[k] !in c.drops && SealsOfKeys(c.live, c.restores)
    ensures c.restores[k] in c.live
    ensures var pubkey, found := c.restores[k], FirstOpenable(e, c.live[c.restores[k]]);
            KeyOf(AfterLoops(e, s, start, later, env, c), pubkey) ==
              if pubkey !in s.loaded && found.Some? then Key(Some(Lease(found.value.user, later)), true, None)
              else KeyOf(s, pubkey)
  {
    assert c.restores[k] in c.restores;
    NothingThroughout(env, 0, 2 * |c.drops|);
    NothingThroughout(env, 0, 3 * k + 1);
    NothingThroughout(env, 3 * k + 3, 3 * |c.restores|);
    assert AfterTouches(s, []) == s;
    hide FirstOpenable, Joined, AfterLoops;
    LiveKeyEnd(e, s, start, later, env, c, k);
  }

  lemma QuietOther(e: Setting, s: State, start: int, later: int, env: Disturbance, c: Course, pubkey: string)
    requires env.Quiet() && pubkey !in c.drops && pubkey !in c.restores && SealsOfKeys(c.live, c.restores)
    ensures KeyOf(AfterLoops(e, s, start, later, env, c), pubkey) == KeyOf(s, pubkey)
  {
    NothingThroughout(env, 0, 2 * |c.drops|);
    NothingThroughout(env, 0, 3 * |c.restores|);
    assert AfterTouches(s, []) == s;
    OtherKeyEnd(e, s, start, later, env, c, pubkey);
  }

  lemma QuietCase(e: Setting, s: State, start: int, later: int, env: Disturbance, c: Course, pubkey: string)
    requires env.early == [] && Possible(e, s, start, env, c)
    ensures pubkey in c.drops ==> Older(s, pubkey, start) && pubkey !in c.live
    ensures SettledKey(e, s, start, later, pubkey) ==
      if pubkey in c.drops then Key(None, false, KeyOf(s, pubkey).miss)
      else if pubkey in c.live && pubkey !in s.loaded && FirstOpenable(e, c.live[pubkey]).Some? then
        Key(Some(Lease(FirstOpenable(e, c.live[pubkey]).value.user, later)), true, None)
      else KeyOf(s, pubkey)
  {
    assert AfterTouches(s, env.early) == s;
    EmptyOpensNothing(e);
    hide IsUnsure, FirstOpenable, LiveFor;
  }

  // Undisturbed, a pass does what Pass says.
  lemma QuietPass(e: Setting, s: State, start: int, later: int, env: Disturbance, c: Course, s': State)
    requires env.Quiet() && start <= later && IsPass(e, s, start, later, env, c, s')
    ensures s' == Pass(e, s, start, later)
  {
    var u := s.(rows := Unended(e, s.rows, start));
    KeysOfSeals(e, s, start, env, c);
    LoopsKeepRows(e, u, start, later, env, c);
    EndedSwept(e, s.rows, start, later);
    hide AfterLoops, Possible, Filter, Unended, SettledKey, Remaining, RestoredKeys;
    var swept := AfterLoops(e, u, start, later, env, c);
    forall pubkey
      ensures KeyOf(s', pubkey) == KeyOf(Pass(e, s, start, later), pubkey)
    {
      KeyOfPass(e, s, start, later, pubkey);
      QuietKey(e, s, start, later, env, c, pubkey);
      KeySwept(swept, s', start, pubkey);
    }
    SameByKeys(s', Pass(e, s, start, later));
  }

  lemma KeyOfPass(e: Setting, s: State, start: int, later: int, pubkey: string)
    ensures KeyOf(Pass(e, s, start, later), pubkey) == Swept(SettledKey(e, s, start, later, pubkey), start)
  {
    RestoredIsSealed(e, s, start, pubkey);
    hide Stale, Restored, LiveFor, FirstOpenable, RestoredKeys, Remaining;
  }

  // A miss that has run out is forgotten.
  function Swept(key: Key, start: int): Key {
    if key.miss.Some? && key.miss.value < start then key.(miss := None) else key
  }

  lemma KeySwept(s: State, s': State, start: int, pubkey: string)
    requires s'.leases == s.leases && s'.loaded == s.loaded && s'.missUntil == Misses(s.missUntil, start)
    ensures KeyOf(s', pubkey) == Swept(KeyOf(s, pubkey), start)
  {
  }

  // A state is its rows and its keys.
  lemma SameByKeys(s: State, s': State)
    requires s.rows == s'.rows && forall pubkey :: KeyOf(s, pubkey) == KeyOf(s', pubkey)
    ensures s == s'
  {
    forall pubkey
      ensures pubkey in s.leases <==> pubkey in s'.leases
      ensures pubkey in s.leases ==> s.leases[pubkey] == s'.leases[pubkey]
      ensures pubkey in s.loaded <==> pubkey in s'.loaded
      ensures pubkey in s.missUntil <==> pubkey in s'.missUntil
      ensures pubkey in s.missUntil ==> s.missUntil[pubkey] == s'.missUntil[pubkey]
    {
      assert KeyOf(s, pubkey) == KeyOf(s', pubkey);
    }
    assert s.leases == s'.leases && s.loaded == s'.loaded && s.missUntil == s'.missUntil;
  }

  lemma RestoredIsSealed(e: Setting, s: State, start: int, pubkey: string)
    ensures pubkey in RestoredKeys(e, s, start) <==> Restored(e, s, start, pubkey)
    ensures Stale(e, s, start, pubkey) ==> !Restored(e, s, start, pubkey) && pubkey in s.leases
  {
    SealedIffLive(e, s.rows, start, pubkey);
    EmptyOpensNothing(e);
    hide LiveFor, IsUnsure;
  }

  lemma {:induction false} TouchesKeepRows(s: State, touches: seq<Touch>)
    ensures AfterTouches(s, touches).rows == s.rows
  {
    if touches != [] {
      TouchesKeepRows(s, touches[..|touches| - 1]);
    }
  }

  lemma {:induction false} DropsKeepRows(s: State, order: seq<string>, start: int, env: nat -> seq<Touch>)
    ensures AfterDrops(s, order, start, env).rows == s.rows
  {
    if order != [] {
      var i := |order| - 1;
      var before := AfterDrops(s, order[..i], start, env);
      DropsKeepRows(s, order[..i], start, env);
      TouchesKeepRows(before, env(2 * i));
      TouchesKeepRows(AfterDelete(AfterTouches(before, env(2 * i)), order[i], start), env(2 * i + 1));
      hide AfterTouches;
    }
  }

  lemma RestoreKeepsRows(e: Setting, s: State, pubkey: string, seals: seq<SealRow>, later: int, first: seq<Touch>,
                         second: seq<Touch>, third: seq<Touch>)
    ensures AfterRestore(e, s, pubkey, seals, later, first, second, third).rows == s.rows
  {
    var s2 := AfterTouches(AfterTouches(s, first), second);
    TouchesKeepRows(s, first);
    TouchesKeepRows(AfterTouches(s, first), second);
    TouchesKeepRows(s2, third);
    if FirstOpenable(e, seals).Some? {
      TouchesKeepRows(AfterTouch(s2, Load(FirstOpenable(e, seals).value.pubkey)), third);
    }
    hide AfterTouches;
  }

  lemma {:induction false} RestoresKeepRows(e: Setting, s: State, live: map<string, seq<SealRow>>, order: seq<string>,
                                            later: int, env: nat -> seq<Touch>)
    requires forall pubkey :: pubkey in order ==> pubkey in live
    ensures AfterRestores(e, s, live, order, later, env).rows == s.rows
  {
    if order != [] {
      var i := |order| - 1;
      assert order[i] in order;
      hide AfterRestore;
      RestoresKeepRows(e, s, live, order[..i], later, env);
      RestoreKeepsRows(e, AfterRestores(e, s, live, order[..i], later, env), order[i], live[order[i]], later,
        env(3 * i), env(3 * i + 1), env(3 * i + 2));
    }
  }

  lemma LoopsKeepRows(e: Setting, s: State, start: int, later: int, env: Disturbance, c: Course)
    requires forall pubkey :: pubkey in c.restores ==> pubkey in c.live
    ensures AfterLoops(e, s, start, later, env, c).rows == s.rows
  {
    var s1 := AfterTouches(s, env.early);
    TouchesKeepRows(s, env.early);
    DropsKeepRows(s1, c.drops, start, env.dropping);
    RestoresKeepRows(e, AfterDrops(s1, c.drops, start, env.dropping), c.live, c.restores, later, env.restoring);
  }

  // ----- filtering

  lemma FilterSnoc(rows: seq<SealRow>, row: SealRow, keep: SealRow -> bool)
    ensures Filter(rows + [row], keep) == Filter(rows, keep) + if keep(row) then [row] else []
  {
    assert (rows + [row])[..|rows|] == rows;
  }

  lemma {:induction false} FilterTwice(rows: seq<SealRow>, p: SealRow -> bool, q: SealRow -> bool,
                                       both: SealRow -> bool)
    requires forall row :: row in rows ==> (both(row) <==> p(row) && q(row))
    ensures Filter(Filter(rows, p), q) == Filter(rows, both)
  {
    if rows != [] {
      var rest, last := rows[..|rows| - 1], rows[|rows| - 1];
      assert last in rows && both(last) == (p(last) && q(last)) && rows == rest + [last];
      FilterTwice(rest, p, q, both);
      FilterSnoc(rest, last, p);
      FilterSnoc(rest, last, both);
      hide Filter;
      if p(last) {
        FilterSnoc(Filter(rest, p), last, q);
      } else {
        assert Filter(rows, p) == Filter(rest, p);
      }
    }
  }

  lemma FilterAll(rows: seq<SealRow>, p: SealRow -> bool)
    requires forall row :: row in rows ==> p(row)
    ensures Filter(rows, p) == rows
  {
  }

  // ----- the replica

  class Replica {
    const e: Setting
    var rows: seq<SealRow>
    var leases: map<string, Lease>
    var loaded: set<string>
    var missUntil: map<string, int>

    ghost function View(): State
      reads this
    {
      State(rows, leases, loaded, missUntil)
    }

    method DeleteSessionSeals(session: string)
      modifies this`rows
      ensures rows == Filter(old(rows), (row: SealRow) => row.session != session)
    {
      rows := Filter(rows, (row: SealRow) => row.session != session);
    }

    ghost predicate Checked(known: map<string, SessionStatus>, before: seq<SealRow>, ended: set<string>)
      reads this
    {
      && (forall session :: session in known ==> known[session] == e.Status(session))
      && (forall session :: session in ended <==> session in known && known[session].Ended?)
      && rows == Filter(before, (row: SealRow) => row.session !in ended)
    }

    // Looks a session up once; the seals of one that has ended are deleted.
    method CheckSession(session: string, known: map<string, SessionStatus>, ghost before: seq<SealRow>,
                        ghost ended: set<string>)
      returns (known': map<string, SessionStatus>, ghost ended': set<string>)
      requires Checked(known, before, ended)
      modifies this`rows
      ensures Checked(known', before, ended') && known' == known[session := e.Status(session)]
    {
      known', ended' := known, ended;
      if session !in known {
        if e.Status(session).Ended? {
          DeleteSessionSeals(session);
          FilterTwice(before, (row: SealRow) => row.session !in ended, (row: SealRow) => row.session != session,
            (row: SealRow) => row.session !in ended + {session});
          ended' := ended + {session};
        }
        known' := known[session := e.Status(session)];
      }
    }

    // Lists the live seals by key, asking about each session once; seals of ended sessions are deleted.
    method LiveSeals(start: int) returns (live: map<string, seq<SealRow>>, unsure: set<string>)
      modifies this`rows
      ensures Grouped(e, old(rows), start, live, unsure)
      ensures rows == Unended(e, old(rows), start)
    {
      hide LiveFor, IsUnsure, Filter, Grouped;
      var list := Filter(rows, (row: SealRow) => row.expiresAt > start);
      live, unsure := map[], {};
      var known: map<string, SessionStatus> := map[];
      ghost var ended: set<string> := {};
      FilterAll(rows, (row: SealRow) => row.session !in ended);
      NothingGrouped(e, start);
      for i := 0 to |list|
        invariant Grouped(e, list[..i], start, live, unsure)
        invariant Checked(known, old(rows), ended)
        invariant forall j :: 0 <= j < i ==> list[j].session in known
        invariant forall session :: session in known ==> exists row :: row in list && row.session == session
      {
        var row := list[i];
        known, ended := CheckSession(row.session, known, old(rows), ended);
        assert list[..i + 1] == list[..i] + [row] && row in list;
        ghost var live', unsure' := GroupOneMore(e, list[..i], row, start, live, unsure);
        match known[row.session]
        case Unknown => unsure := unsure + {row.pubkey};
        case Live => live := WithSeal(live, row);
        case Ended =>
      }
      assert list[..|list|] == list;
      GroupedUnexpired(e, old(rows), start, live, unsure);
      assert ended == EndedSessions(e, old(rows), start);
    }

    // ----- leases

    method RegisterKey(pubkey: string)
      modifies this`loaded
      ensures View() == AfterTouch(old(View()), Load(pubkey))
    {
      loaded := loaded + {pubkey};
    }

    method TakeLease(pubkey: string, user: string, at: int)
      modifies this`leases, this`missUntil
      ensures View() == AfterTouch(old(View()), Take(pubkey, user, at))
    {
      leases := leases[pubkey := Lease(user, at)];
      missUntil := missUntil - {pubkey};
    }

    // Others touch keys between two steps of the pass.
    method Others(touches: seq<Touch>)
      modifies this`leases, this`loaded, this`missUntil
      ensures View() == AfterTouches(old(View()), touches)
    {
      assert touches[..0] == [];
      for i := 0 to |touches|
        invariant View() == AfterTouches(old(View()), touches[..i])
      {
        assert touches[..i + 1][..i] == touches[..i];
        match touches[i]
        case Load(pubkey) => RegisterKey(pubkey);
        case Take(pubkey, user, at) => TakeLease(pubkey, user, at);
      }
      assert touches[..|touches|] == touches;
    }

    // The check and the delete happen under one lock hold.
    method DeleteIfStale(pubkey: string, start: int) returns (deleted: bool)
      modifies this`leases
      ensures deleted <==> pubkey in old(leases) && old(leases)[pubkey].at < start
      ensures View() == AfterDelete(old(View()), pubkey, start)
    {
      deleted := pubkey in leases && leases[pubkey].at < start;
      if deleted {
        leases := leases - {pubkey};
      }
    }

    method UnloadSealedKey(pubkey: string)
      modifies this`loaded
      ensures View() == AfterUnload(old(View()), pubkey)
    {
      loaded := loaded - {pubkey};
    }

    // Drops lease and key if the lease is older than the pass; others may touch keys in between.
    method LockSealedKeyIfStale(pubkey: string, start: int, between: seq<Touch>)
      modifies this`leases, this`loaded, this`missUntil
      ensures View() == Locked(old(View()), pubkey, start, between)
    {
      var deleted := DeleteIfStale(pubkey, start);
      Others(between);
      if deleted {
        UnloadSealedKey(pubkey);
      }
    }

    // Drops the listed keys in some order, unless their lease is no longer older than the pass.
    method DropStale(drop: set<string>, start: int, env: nat -> seq<Touch>) returns (ghost order: seq<string>)
      modifies this`leases, this`loaded, this`missUntil
      ensures Enumerates(order, drop) && View() == AfterDrops(old(View()), order, start, env)
    {
      order := [];
      var rest, i := drop, 0;
      while rest != {}
        invariant rest <= drop && |order| == i && Enumerates(order, drop - rest)
        invariant View() == AfterDrops(old(View()), order, start, env)
      {
        var pubkey :| pubkey in rest;
        rest := rest - {pubkey};
        Others(env(2 * i));
        LockSealedKeyIfStale(pubkey, start, env(2 * i + 1));
        assert (order + [pubkey])[..i] == order;
        order, i := order + [pubkey], i + 1;
      }
    }

    // ----- restoring

    // Registers a key that is its seal's and is stored, and takes its lease; others may act in between.
    method InstallSealedKey(row: SealRow, priv: string, later: int, between: seq<Touch>) returns (ok: bool)
      modifies this`leases, this`loaded, this`missUntil
      ensures ok <==> e.keyOf(priv) == Some(row.pubkey) && row.pubkey in e.keyRows
      ensures View() == if ok then Installed(old(View()), row, later, between) else old(View())
    {
      if e.keyOf(priv) != Some(row.pubkey) || row.pubkey !in e.keyRows {
        return false;
      }
      RegisterKey(row.pubkey);
      Others(between);
      TakeLease(row.pubkey, row.user, later);
      return true;
    }

    // Installs the first seal of the key that opens here.
    method RestoreFromSeals(pubkey: string, seals: seq<SealRow>, later: int, between: seq<Touch>) returns (ok: bool)
      modifies this`leases, this`loaded, this`missUntil
      ensures ok <==> FirstOpenable(e, seals).Some?
      ensures View() ==
        if ok then Installed(old(View()), FirstOpenable(e, seals).value, later, between) else old(View())
    {
      for i := 0 to |seals|
        invariant FirstOpenable(e, seals) == FirstOpenable(e, seals[i..])
        invariant View() == old(View())
      {
        var row := seals[i];
        assert seals[i..][0] == row && seals[i..][1..] == seals[i + 1..];
        if row.mode != MODE_SPLIT && row.mode == e.mode && row.secret.Some? {
          var installed := InstallSealedKey(row, row.secret.value, later, between);
          if installed {
            return true;
          }
        }
      }
      return false;
    }

    // Restores one key unless it is loaded. Others may act before the check, between it and the restore, and
    // while the key is installed.
    method RestoreOne(pubkey: string, seals: seq<SealRow>, later: int, first: seq<Touch>, second: seq<Touch>,
                      third: seq<Touch>)
      modifies this`leases, this`loaded, this`missUntil
      ensures View() == AfterRestore(e, old(View()), pubkey, seals, later, first, second, third)
    {
      Others(first);
      var isLoaded := pubkey in loaded;
      Others(second);
      var restored := false;
      if !isLoaded {
        restored := RestoreFromSeals(pubkey, seals, later, third);
      }
      if !restored {
        Others(third);
      }
    }

    // Restores every listed key that is not loaded, in some order.
    method RestoreAll(live: map<string, seq<SealRow>>, later: int, env: nat -> seq<Touch>)
      returns (ghost order: seq<string>)
      modifies this`leases, this`loaded, this`missUntil
      ensures Enumerates(order, live.Keys) && View() == AfterRestores(e, old(View()), live, order, later, env)
    {
      hide AfterRestore;
      order := [];
      var rest, i := live.Keys, 0;
      while rest != {}
        invariant rest <= live.Keys && |order| == i && Enumerates(order, live.Keys - rest)
        invariant View() == AfterRestores(e, old(View()), live, order, later, env)
      {
        var pubkey :| pubkey in rest;
        rest := rest - {pubkey};
        RestoreOne(pubkey, live[pubkey], later, env(3 * i), env(3 * i + 1), env(3 * i + 2));
        assert (order + [pubkey])[..i] == order;
        order, i := order + [pubkey], i + 1;
      }
    }

    // The pass. Whatever others do meanwhile, it is the drops and restores of its course; a lease taken since
    // it began is never dropped; undisturbed, it does what Pass says.
    method ReconcileSeals(start: int, later: int, env: Disturbance) returns (ghost c: Course)
      requires start <= later && env.Since(start)
      modifies this
      ensures IsPass(e, old(View()), start, later, env, c, View())
      ensures forall pubkey ::
        pubkey in Taken(Throughout(env, c)) || (pubkey in old(leases) && old(leases)[pubkey].at >= start) ==>
          pubkey in leases && leases[pubkey].at >= start
      ensures env.Quiet() ==> View() == Pass(e, old(View()), start, later)
    {
      hide LiveFor, IsUnsure, Filter, Remaining, FirstOpenable, Pass, Grouped, Unended, AfterDrops, AfterRestores,
        Taken, Throughout;
      ghost var before := View();
      var live, unsure := LiveSeals(start);
      ghost var unlisted := View();
      Others(env.early);
      SameLeases(before, unlisted, env.early);
      var drop := Droppable(leases, live, unsure, start);
      ghost var drops := DropStale(drop, start, env.dropping);
      ghost var restores := RestoreAll(live, later, env.restoring);
      missUntil := map pubkey | pubkey in missUntil && start <= missUntil[pubkey] :: missUntil[pubkey];
      rows := Filter(rows, (row: SealRow) => row.expiresAt > later);
      c := Course(live, unsure, drops, restores);
      assert IsPass(e, before, start, later, env, c, View());
      hide IsPass;
      forall pubkey |
        pubkey in Taken(Throughout(env, c)) || (pubkey in before.leases && before.leases[pubkey].at >= start)
        ensures pubkey in leases && leases[pubkey].at >= start
      {
        NewLeasesSurvive(e, before, start, later, env, c, View(), pubkey);
      }
      if env.Quiet() {
        QuietPass(e, before, start, later, env, c, View());
      }
    }
  }

  // Touches do the same to the leases whatever the rows.
  lemma {:induction false} SameLeases(s: State, s': State, touches: seq<Touch>)
    requires s.leases == s'.leases
    ensures AfterTouches(s, touches).leases == AfterTouches(s', touches).leases
  {
    if touches != [] {
      SameLeases(s, s', touches[..|touches| - 1]);
    }
  }

  // The leases that nothing backs, from before start.
  function Droppable(leases: map<string, Lease>, live: map<string, seq<SealRow>>, unsure: set<string>, start: int)
    : set<string>
  {
    set pubkey | pubkey in leases && pubkey !in live && pubkey !in unsure && leases[pubkey].at < start
  }

  // live and unsure are what rows say about every key.
  ghost predicate Grouped(e: Setting, rows: seq<SealRow>, now: int, live: map<string, seq<SealRow>>,
                          unsure: set<string>) {
    && (forall pubkey :: pubkey in live <==> LiveFor(e, rows, now, pubkey) != [])
    && (forall pubkey :: pubkey in live ==> live[pubkey] == LiveFor(e, rows, now, pubkey))
    && (forall pubkey :: pubkey in unsure <==> IsUnsure(e, rows, now, pubkey))
  }

  lemma NothingGrouped(e: Setting, now: int)
    ensures Grouped(e, [], now, map[], {})
  {
  }

  function WithSeal(live: map<string, seq<SealRow>>, row: SealRow): map<string, seq<SealRow>> {
    live[row.pubkey := (if row.pubkey in live then live[row.pubkey] else []) + [row]]
  }

  // One more unexpired row falls to its own key only.
  lemma GroupOneMore(e: Setting, rest: seq<SealRow>, row: SealRow, now: int, live: map<string, seq<SealRow>>,
                     unsure: set<string>)
    returns (live': map<string, seq<SealRow>>, unsure': set<string>)
    requires row.expiresAt > now && Grouped(e, rest, now, live, unsure)
    ensures unsure' == if e.Status(row.session).Unknown? then unsure + {row.pubkey} else unsure
    ensures live' == if e.Status(row.session).Live? then WithSeal(live, row) else live
    ensures Grouped(e, rest + [row], now, live', unsure')
  {
    hide LiveFor, IsUnsure;
    unsure' := if e.Status(row.session).Unknown? then unsure + {row.pubkey} else unsure;
    live' := if e.Status(row.session).Live? then WithSeal(live, row) else live;
    forall pubkey
      ensures pubkey in live' <==> LiveFor(e, rest + [row], now, pubkey) != []
      ensures pubkey in live' ==> live'[pubkey] == LiveFor(e, rest + [row], now, pubkey)
      ensures pubkey in unsure' <==> IsUnsure(e, rest + [row], now, pubkey)
    {
      KeyOneMore(e, rest, row, now, pubkey);
    }
  }

  lemma KeyOneMore(e: Setting, rest: seq<SealRow>, row: SealRow, now: int, pubkey: string)
    requires row.expiresAt > now
    ensures LiveFor(e, rest + [row], now, pubkey) ==
      LiveFor(e, rest, now, pubkey) + if row.pubkey == pubkey && e.Status(row.session).Live? then [row] else []
    ensures IsUnsure(e, rest + [row], now, pubkey) <==>
      IsUnsure(e, rest, now, pubkey) || (row.pubkey == pubkey && e.Status(row.session).Unknown?)
  {
    FilterSnoc(rest, row, (r: SealRow) => r.expiresAt > now && r.pubkey == pubkey && e.Status(r.session).Live?);
    hide Filter;
  }

  // Listing only the unexpired rows loses nothing.
  lemma GroupedUnexpired(e: Setting, rows: seq<SealRow>, now: int, live: map<string, seq<SealRow>>, unsure: set<string>)
    requires Grouped(e, Filter(rows, (row: SealRow) => row.expiresAt > now), now, live, unsure)
    ensures Grouped(e, rows, now, live, unsure)
  {
    var list := Filter(rows, (row: SealRow) => row.expiresAt > now);
    forall pubkey
      ensures LiveFor(e, list, now, pubkey) == LiveFor(e, rows, now, pubkey)
      ensures IsUnsure(e, list, now, pubkey) <==> IsUnsure(e, rows, now, pubkey)
    {
      var p := (row: SealRow) => row.expiresAt > now && row.pubkey == pubkey && e.Status(row.session).Live?;
      FilterTwice(rows, (row: SealRow) => row.expiresAt > now, p, p);
    }
    hide LiveFor, IsUnsure;
  }

  // Deleting the seals of ended sessions and sweeping leaves what a pass leaves.
  lemma EndedSwept(e: Setting, rows: seq<SealRow>, start: int, later: int)
    requires start <= later
    ensures Filter(Unended(e, rows, start), (row: SealRow) => row.expiresAt > later) == Remaining(e, rows, later)
  {
    FilterTwice(rows, (row: SealRow) => row.session !in EndedSessions(e, rows, start),
      (row: SealRow) => row.expiresAt > later,
      (row: SealRow) => row.expiresAt > later && !e.Status(row.session).Ended?);
  }
}
