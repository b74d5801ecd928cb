// Cross-replica handling of one request over a shared record: a lease that its owner renews, a done
// marker that replaces it, and watchers that take over when the lease lapses. Every store operation is
// one step; replicas, the clock and crashes interleave freely between steps.
module Claim {
  import opened Wrappers

  const DONE := "done"

  // Times in milliseconds. latency bounds a store operation of a live replica, from request to reply; it
  // takes effect in between.
  datatype Config = Config(lease: int, ttl: int, beat: int, poll: int, budget: int, latency: int)
  {
    predicate Valid() {
      0 < lease && 0 < ttl && 0 < beat && 0 < poll && 0 < budget && 0 <= latency
    }
  }

  const DEFAULTS := Config(8000, 60000, 8000 / 3, 1000, 25000, 2000)

  // ----- the record and the store operations on it

  datatype Record = Free | Held(value: string, expiry: int)

  function Read(r: Record, now: int): Option<string> {
    if r.Held? && now < r.expiry then Some(r.value) else None
  }

  function SetIfAbsent(r: Record, now: int, value: string, ttl: int): Record {
    if Read(r, now).None? then Held(value, now + ttl) else r
  }

  // The renewal script.
  function Renewed(r: Record, now: int, owner: string, lease: int): Record {
    if Read(r, now) == Some(owner) then Held(owner, now + lease) else r
  }

  // The completion script.
  function MarkedDone(r: Record, now: int, owner: string, ttl: int): Record {
    if Read(r, now) == Some(owner) then Held(DONE, now + ttl) else r
  }

  // ----- the replicas

  datatype Phase =
    | Idle
    | Running(beat: int)                    // processing; the next heartbeat is sent by beat
    | Stopping(since: int, beat: int)       // processed; one heartbeat may be under way, the marker is to come
    | Finished
    | Watching(deadline: int, wake: int)    // asleep until wake, then reads the record
    | Claiming(deadline: int, seen: int)    // found no record at time seen; about to claim it
    | Exited
    | Crashed
  {
    predicate Owner() {
      Running? || Stopping?
    }

    predicate Watcher() {
      Watching? || Claiming?
    }
  }

  datatype Cluster = Cluster(now: int, record: Record, pods: map<string, Phase>, starts: nat, ownerCrashes: nat)

  datatype Action =
    | Tick(time: int)
    | Coordinate(pod: string)
    | Beat(pod: string)
    | Return(pod: string)
    | MarkDone(pod: string)
    | Poll(pod: string)
    | TakeOver(pod: string)
    | Crash(pod: string)

  predicate Enabled(s: Cluster, a: Action) {
    if a.Tick? then s.now <= a.time
    else a.pod in s.pods && EnabledFor(s.pods[a.pod], s.now, a)
  }

  predicate EnabledFor(phase: Phase, now: int, a: Action)
    requires !a.Tick?
  {
    match a
    case Coordinate(_) => phase.Idle?
    case Beat(_) => phase.Running? || phase.Stopping? || phase.Finished?
    case Return(_) => phase.Running?
    case MarkDone(_) => phase.Stopping?
    case Poll(_) => phase.Watching? && phase.wake <= now
    case TakeOver(_) => phase.Claiming?
    case Crash(_) => !phase.Crashed?
  }

  // The head of the watch loop.
  function KeepWatching(cfg: Config, deadline: int, now: int): Phase {
    if now < deadline then Watching(deadline, now + cfg.poll) else Exited
  }

  // What a watcher does with the value it read.
  function AfterRead(cfg: Config, deadline: int, now: int, value: Option<string>): Phase {
    if value.None? then Claiming(deadline, now)
    else if value.value == DONE then Exited
    else KeepWatching(cfg, deadline, now)
  }

  // The latest time for the first heartbeat of a claim that took effect now, and for one after another.
  function FirstBeat(cfg: Config, now: int): int {
    now + cfg.latency + cfg.beat
  }

  function NextBeat(cfg: Config, now: int): int {
    now + if cfg.beat < cfg.latency then cfg.latency else cfg.beat
  }

  function AfterBeat(cfg: Config, phase: Phase, now: int): Phase {
    match phase
    case Running(_) => Running(NextBeat(cfg, now))
    case Stopping(since, _) => Stopping(since, since)
    case _ => phase
  }

  function Moved(s: Cluster, p: string, phase: Phase): Cluster {
    s.(pods := s.pods[p := phase])
  }

  // An attempt to take the lease; the loser does as told.
  function Claimed(cfg: Config, s: Cluster, p: string, otherwise: Phase): Cluster {
    if Read(s.record, s.now).None? then
      Moved(s, p, Running(FirstBeat(cfg, s.now)))
        .(record := SetIfAbsent(s.record, s.now, p, cfg.lease), starts := s.starts + 1)
    else
      Moved(s, p, otherwise)
  }

  function Apply(cfg: Config, s: Cluster, a: Action): Cluster
    requires Enabled(s, a)
  {
    match a
    case Tick(time) => s.(now := time)
    case Coordinate(p) => Claimed(cfg, s, p, KeepWatching(cfg, s.now + cfg.budget, s.now))
    case Beat(p) =>
      Moved(s, p, AfterBeat(cfg, s.pods[p], s.now)).(record := Renewed(s.record, s.now, p, cfg.lease))
    case Return(p) => Moved(s, p, Stopping(s.now, s.pods[p].beat))
    case MarkDone(p) => Moved(s, p, Finished).(record := MarkedDone(s.record, s.now, p, cfg.ttl))
    case Poll(p) => Moved(s, p, AfterRead(cfg, s.pods[p].deadline, s.now, Read(s.record, s.now)))
    case TakeOver(p) => Claimed(cfg, s, p, KeepWatching(cfg, s.pods[p].deadline, s.now))
    case Crash(p) =>
      Moved(s, p, Crashed).(ownerCrashes := s.ownerCrashes + if s.pods[p].Owner() then 1 else 0)
  }

  predicate Initial(s: Cluster) {
    s.record == Free && s.starts == 0 && s.ownerCrashes == 0 && DONE !in s.pods
    && forall p :: p in s.pods ==> s.pods[p] == Idle
  }

  // ----- runs

  predicate Legal(cfg: Config, s: Cluster, run: seq<Action>)
    decreases |run|
  {
    run == [] || (Enabled(s, run[0]) && Legal(cfg, Apply(cfg, s, run[0]), run[1..]))
  }

  function After(cfg: Config, s: Cluster, run: seq<Action>): Cluster
    requires Legal(cfg, s, run)
    decreases |run|
  {
    if run == [] then s else After(cfg, Apply(cfg, s, run[0]), run[1..])
  }

  // Time does not reach the end of a lease whose owner is alive.
  ghost predicate RenewsInTime(s: Cluster, a: Action) {
    a.Tick? ==>
      forall p :: p in s.pods && s.pods[p].Owner() && s.record.Held? && s.record.value == p ==>
        a.time < s.record.expiry
  }

  // Time does not pass an operation that a live replica has pending: it is sent once the reply to the one
  // before is there, and then takes effect within the latency.
  ghost predicate Prompt(cfg: Config, s: Cluster, a: Action) {
    a.Tick? ==> forall p :: p in s.pods ==> a.time <= Due(cfg, s.pods[p], a.time)
  }

  function Due(cfg: Config, phase: Phase, otherwise: int): int {
    match phase
    case Running(beat) => beat + cfg.latency
    case Stopping(since, beat) => (if since <= beat then since else beat) + cfg.latency
    case Watching(_, wake) => wake + 2 * cfg.latency
    case Claiming(_, seen) => seen + 2 * cfg.latency
    case _ => otherwise
  }

  // The done marker is still there.
  predicate MarkerStands(s: Cluster, a: Action) {
    a.Tick? && s.record.Held? && s.record.value == DONE ==> a.time < s.record.expiry
  }

  ghost predicate LiveOwnersRenew(cfg: Config, s: Cluster, run: seq<Action>)
    requires Legal(cfg, s, run)
    decreases |run|
  {
    run == [] || (RenewsInTime(s, run[0]) && LiveOwnersRenew(cfg, Apply(cfg, s, run[0]), run[1..]))
  }

  ghost predicate AllPrompt(cfg: Config, s: Cluster, run: seq<Action>)
    requires Legal(cfg, s, run)
    decreases |run|
  {
    run == [] || (Prompt(cfg, s, run[0]) && AllPrompt(cfg, Apply(cfg, s, run[0]), run[1..]))
  }

  ghost predicate DoneNotLapsed(cfg: Config, s: Cluster, run: seq<Action>)
    requires Legal(cfg, s, run)
    decreases |run|
  {
    run == [] || (MarkerStands(s, run[0]) && DoneNotLapsed(cfg, Apply(cfg, s, run[0]), run[1..]))
  }

  // ----- safety

  // Every live owner holds the lease.
  ghost predicate OwnersHold(s: Cluster) {
    && DONE !in s.pods
    && forall p :: p in s.pods && s.pods[p].Owner() ==> Read(s.record, s.now) == Some(p)
  }

  lemma OwnersHoldStep(cfg: Config, s: Cluster, a: Action)
    requires cfg.Valid() && OwnersHold(s) && Enabled(s, a) && RenewsInTime(s, a)
    ensures OwnersHold(Apply(cfg, s, a))
  {
  }

  lemma {:induction false} OwnersHoldAfter(cfg: Config, s: Cluster, run: seq<Action>)
    requires cfg.Valid() && OwnersHold(s) && Legal(cfg, s, run) && LiveOwnersRenew(cfg, s, run)
    ensures OwnersHold(After(cfg, s, run))
    decreases |run|
  {
    if run != [] {
      OwnersHoldStep(cfg, s, run[0]);
      OwnersHoldAfter(cfg, Apply(cfg, s, run[0]), run[1..]);
    }
  }

  // At most one live replica processes the request at any time.
  lemma AtMostOneRunner(cfg: Config, s: Cluster, run: seq<Action>, p: string, q: string)
    requires cfg.Valid() && Initial(s) && Legal(cfg, s, run) && LiveOwnersRenew(cfg, s, run)
    requires p in After(cfg, s, run).pods && After(cfg, s, run).pods[p].Running?
    requires q in After(cfg, s, run).pods && After(cfg, s, run).pods[q].Running?
    ensures p == q
  {
    OwnersHoldAfter(cfg, s, run);
  }

  ghost predicate HasOwner(s: Cluster) {
    exists p :: p in s.pods && s.pods[p].Owner()
  }

  predicate Marked(s: Cluster) {
    s.record.Held? && s.record.value == DONE
  }

  // Every start is accounted for by an owner's crash, by the live owner, or by the done marker.
  ghost predicate StartsCounted(s: Cluster) {
    && (Marked(s) ==> s.now < s.record.expiry)
    && s.starts == s.ownerCrashes + if HasOwner(s) || Marked(s) then 1 else 0
  }

  lemma StartsCountedStep(cfg: Config, s: Cluster, a: Action)
    requires cfg.Valid() && OwnersHold(s) && StartsCounted(s) && Enabled(s, a) && RenewsInTime(s, a)
    requires MarkerStands(s, a)
    ensures StartsCounted(Apply(cfg, s, a))
  {
    var s' := Apply(cfg, s, a);
    OwnersHoldStep(cfg, s, a);
    if a.Tick? {
      assert HasOwner(s') == HasOwner(s);
    } else {
      var p := a.pod;
      assert s'.pods == s.pods[p := s'.pods[p]];
      if s'.pods[p].Owner() {
        assert HasOwner(s');
      }
      if s.pods[p].Owner() {
        assert HasOwner(s);
      }
      if q :| q in s.pods && s.pods[q].Owner() && q != p {
        assert HasOwner(s) && s'.pods[q].Owner() && HasOwner(s');
      }
    }
  }

  // The request is started at most once more often than owners crash.
  lemma {:induction false} StartsCountedAfter(cfg: Config, s: Cluster, run: seq<Action>)
    requires cfg.Valid() && OwnersHold(s) && StartsCounted(s) && Legal(cfg, s, run)
    requires LiveOwnersRenew(cfg, s, run) && DoneNotLapsed(cfg, s, run)
    ensures StartsCounted(After(cfg, s, run))
    decreases |run|
  {
    if run != [] {
      OwnersHoldStep(cfg, s, run[0]);
      StartsCountedStep(cfg, s, run[0]);
      StartsCountedAfter(cfg, Apply(cfg, s, run[0]), run[1..]);
    }
  }

  lemma StartsBounded(cfg: Config, s: Cluster, run: seq<Action>)
    requires cfg.Valid() && Initial(s) && Legal(cfg, s, run) && LiveOwnersRenew(cfg, s, run)
    requires DoneNotLapsed(cfg, s, run)
    ensures After(cfg, s, run).starts <= 1 + After(cfg, s, run).ownerCrashes
    ensures Marked(After(cfg, s, run)) ==> After(cfg, s, run).starts == 1 + After(cfg, s, run).ownerCrashes
  {
    StartsCountedAfter(cfg, s, run);
  }

  // ----- heartbeats keep the lease

  // A prompt owner's next renewal, or its done marker, comes before the lease ends.
  predicate Ahead(cfg: Config, s: Cluster, p: string)
    requires p in s.pods
  {
    && Read(s.record, s.now) == Some(p)
    && s.now <= Due(cfg, s.pods[p], s.now) && (s.pods[p].Stopping? ==> s.pods[p].since <= s.now)
    && Due(cfg, s.pods[p], s.now) < s.record.expiry
  }

  ghost predicate OwnersAhead(cfg: Config, s: Cluster) {
    DONE !in s.pods && forall p :: p in s.pods && s.pods[p].Owner() ==> Ahead(cfg, s, p)
  }

  lemma AheadStep(cfg: Config, s: Cluster, a: Action, p: string)
    requires cfg.Valid() && cfg.beat + 2 * cfg.latency < cfg.lease
    requires OwnersAhead(cfg, s) && Enabled(s, a) && Prompt(cfg, s, a)
    requires p in Apply(cfg, s, a).pods && Apply(cfg, s, a).pods[p].Owner()
    ensures Ahead(cfg, Apply(cfg, s, a), p)
  {
  }

  lemma OwnersAheadStep(cfg: Config, s: Cluster, a: Action)
    requires cfg.Valid() && cfg.beat + 2 * cfg.latency < cfg.lease
    requires OwnersAhead(cfg, s) && Enabled(s, a) && Prompt(cfg, s, a)
    ensures RenewsInTime(s, a) && OwnersAhead(cfg, Apply(cfg, s, a))
  {
    var s' := Apply(cfg, s, a);
    forall p | p in s'.pods && s'.pods[p].Owner()
      ensures Ahead(cfg, s', p)
    {
      AheadStep(cfg, s, a, p);
    }
  }

  // With heartbeats well inside the lease, promptness alone makes live owners renew in time.
  lemma {:induction false} PromptOwnersRenew(cfg: Config, s: Cluster, run: seq<Action>)
    requires cfg.Valid() && cfg.beat + 2 * cfg.latency < cfg.lease
    requires OwnersAhead(cfg, s) && Legal(cfg, s, run) && AllPrompt(cfg, s, run)
    ensures LiveOwnersRenew(cfg, s, run)
    decreases |run|
  {
    if run != [] {
      OwnersAheadStep(cfg, s, run[0]);
      PromptOwnersRenew(cfg, Apply(cfg, s, run[0]), run[1..]);
    }
  }

  // The shipped timings leave that room: prompt replicas never process a request side by side.
  lemma DefaultsAreSafe(s: Cluster, run: seq<Action>, p: string, q: string)
    requires Initial(s) && Legal(DEFAULTS, s, run) && AllPrompt(DEFAULTS, s, run)
    requires p in After(DEFAULTS, s, run).pods && After(DEFAULTS, s, run).pods[p].Running?
    requires q in After(DEFAULTS, s, run).pods && After(DEFAULTS, s, run).pods[q].Running?
    ensures p == q
  {
    PromptOwnersRenew(DEFAULTS, s, run);
    AtMostOneRunner(DEFAULTS, s, run, p, q);
  }

  // ----- a replaced owner

  // p had its one chance, and the record is not its own.
  ghost predicate Replaced(s: Cluster, p: string) {
    && p in s.pods && p != DONE && !s.pods[p].Idle? && !s.pods[p].Watcher()
    && (s.record.Held? ==> s.record.value != p)
  }

  // In any run, timely or not, a replica whose record was replaced never changes the record again.
  lemma {:induction false} ReplacedOwnerHarmless(cfg: Config, s: Cluster, run: seq<Action>, p: string, a: Action)
    requires Replaced(s, p) && Legal(cfg, s, run)
    requires !a.Tick? && a.pod == p && Enabled(After(cfg, s, run), a)
    ensures Replaced(After(cfg, s, run), p)
    ensures Apply(cfg, After(cfg, s, run), a).record == After(cfg, s, run).record
    decreases |run|
  {
    if run != [] {
      ReplacedOwnerHarmless(cfg, Apply(cfg, s, run[0]), run[1..], p, a);
    }
  }

  // ----- failover

  // Leases and sleeps end when the operations that set them said.
  ghost predicate Scheduled(cfg: Config, s: Cluster) {
    && (s.record.Held? && s.record.value != DONE ==> s.record.expiry <= s.now + cfg.lease)
    && DONE !in s.pods
    && forall p :: p in s.pods ==>
         && (s.pods[p].Watching? ==> s.pods[p].wake <= s.now + cfg.poll)
         && (s.pods[p].Claiming? ==> s.pods[p].seen <= s.now)
  }

  lemma {:induction false} ScheduledAfter(cfg: Config, s: Cluster, run: seq<Action>)
    requires cfg.Valid() && Scheduled(cfg, s) && Legal(cfg, s, run)
    ensures Scheduled(cfg, After(cfg, s, run))
    decreases |run|
  {
    if run != [] {
      var s' := Apply(cfg, s, run[0]);
      assert Scheduled(cfg, s');
      ScheduledAfter(cfg, s', run[1..]);
    }
  }

  // Nothing pending is overdue.
  ghost predicate OnTime(cfg: Config, s: Cluster) {
    forall p :: p in s.pods ==> s.now <= Due(cfg, s.pods[p], s.now)
  }

  lemma {:induction false} OnTimeAfter(cfg: Config, s: Cluster, run: seq<Action>)
    requires cfg.Valid() && OnTime(cfg, s) && Legal(cfg, s, run) && AllPrompt(cfg, s, run)
    ensures OnTime(cfg, After(cfg, s, run))
    decreases |run|
  {
    if run != [] {
      var s' := Apply(cfg, s, run[0]);
      assert OnTime(cfg, s');
      OnTimeAfter(cfg, s', run[1..]);
    }
  }

  // No replica started since the owner o died at time t, and the watcher w is on schedule.
  ghost predicate Orphaned(cfg: Config, s: Cluster, o: string, w: string, t: int) {
    && o in s.pods && s.pods[o].Crashed? && o != DONE && w in s.pods && t <= s.now
    && s.record.Held? && s.record.value == o && s.record.expiry <= t + cfg.lease
    && match s.pods[w]
       case Watching(deadline, wake) =>
         && deadline >= t + cfg.lease && wake <= t + cfg.lease + cfg.poll
         && s.now <= wake + 2 * cfg.latency
       case Claiming(deadline, seen) =>
         && deadline >= t + cfg.lease && seen <= t + cfg.lease + cfg.poll + 2 * cfg.latency
         && s.now <= seen + 2 * cfg.latency
         && (seen <= t || s.record.expiry <= seen)
       case _ => false
  }

  lemma OrphanedStep(cfg: Config, s: Cluster, a: Action, o: string, w: string, t: int)
    requires cfg.Valid() && Orphaned(cfg, s, o, w, t) && Enabled(s, a) && Prompt(cfg, s, a) && a != Crash(w)
    ensures Apply(cfg, s, a).starts >= s.starts
    ensures Apply(cfg, s, a).starts == s.starts ==> Orphaned(cfg, Apply(cfg, s, a), o, w, t)
  {
  }

  lemma {:induction false} StartsGrow(cfg: Config, s: Cluster, run: seq<Action>)
    requires Legal(cfg, s, run)
    ensures After(cfg, s, run).starts >= s.starts
    decreases |run|
  {
    if run != [] {
      StartsGrow(cfg, Apply(cfg, s, run[0]), run[1..]);
    }
  }

  lemma {:induction false} OrphanedAfter(cfg: Config, s: Cluster, run: seq<Action>, o: string, w: string, t: int)
    requires cfg.Valid() && Orphaned(cfg, s, o, w, t) && Legal(cfg, s, run) && AllPrompt(cfg, s, run)
    requires Crash(w) !in run
    ensures After(cfg, s, run).starts > s.starts || After(cfg, s, run).now <= t + cfg.lease + cfg.poll + 4 * cfg.latency
    decreases |run|
  {
    if run != [] {
      var s' := Apply(cfg, s, run[0]);
      assert run[0] in run;
      OrphanedStep(cfg, s, run[0], o, w, t);
      if s'.starts == s.starts {
        OrphanedAfter(cfg, s', run[1..], o, w, t);
      } else {
        StartsGrow(cfg, s', run[1..]);
      }
    }
  }

  // When an owner dies and some watcher has a lease's worth of budget left and stays alive, the request
  // is claimed again within a lease, one poll and four operation times.
  lemma FailoverBound(cfg: Config, init: Cluster, before: seq<Action>, o: string, w: string, run: seq<Action>)
    requires cfg.Valid() && Initial(init) && Legal(cfg, init, before) && AllPrompt(cfg, init, before)
    requires var s := After(cfg, init, before);
             && o in s.pods && s.pods[o].Owner() && Read(s.record, s.now) == Some(o)
             && w in s.pods && s.pods[w].Watcher() && s.pods[w].deadline >= s.now + cfg.lease
             && Legal(cfg, s, [Crash(o)] + run) && AllPrompt(cfg, s, [Crash(o)] + run) && Crash(w) !in run
    ensures var s, s' := After(cfg, init, before), After(cfg, After(cfg, init, before), [Crash(o)] + run);
            s'.starts > s.starts || s'.now <= s.now + cfg.lease + cfg.poll + 4 * cfg.latency
  {
    var s := After(cfg, init, before);
    ScheduledAfter(cfg, init, before);
    OnTimeAfter(cfg, init, before);
    assert ([Crash(o)] + run)[1..] == run;
    OrphanedAfter(cfg, Apply(cfg, s, Crash(o)), run, o, w, s.now);
  }

  // ----- after completion

  predicate MarkerOf(cfg: Config, s: Cluster, t: int) {
    s.record == Held(DONE, t + cfg.ttl) && t <= s.now
  }

  // The request was completed at time t, and the watcher w has not run it.
  ghost predicate Settled(cfg: Config, s: Cluster, w: string, t: int) {
    && DONE !in s.pods && w in s.pods
    && match s.pods[w]
       case Watching(_, wake) =>
         MarkerOf(cfg, s, t) && wake <= t + 2 * cfg.latency + cfg.poll && s.now <= wake + 2 * cfg.latency
       case Claiming(_, seen) => MarkerOf(cfg, s, t) && seen <= t && s.now <= seen + 2 * cfg.latency
       case phase => phase.Exited? || phase.Crashed?
  }

  lemma SettledStep(cfg: Config, s: Cluster, a: Action, w: string, t: int)
    requires cfg.Valid() && cfg.poll + 4 * cfg.latency < cfg.ttl
    requires Settled(cfg, s, w, t) && Enabled(s, a) && Prompt(cfg, s, a)
    ensures Settled(cfg, Apply(cfg, s, a), w, t)
  {
  }

  lemma {:induction false} SettledAfter(cfg: Config, s: Cluster, run: seq<Action>, w: string, t: int)
    requires cfg.Valid() && cfg.poll + 4 * cfg.latency < cfg.ttl
    requires Settled(cfg, s, w, t) && Legal(cfg, s, run) && AllPrompt(cfg, s, run)
    ensures Settled(cfg, After(cfg, s, run), w, t)
    decreases |run|
  {
    if run != [] {
      SettledStep(cfg, s, run[0], w, t);
      SettledAfter(cfg, Apply(cfg, s, run[0]), run[1..], w, t);
    }
  }

  // After before, o writes the done marker while w watches; run follows.
  ghost predicate CompletedUnder(cfg: Config, init: Cluster, before: seq<Action>, o: string, w: string,
                                 run: seq<Action>) {
    && Initial(init) && Legal(cfg, init, before) && AllPrompt(cfg, init, before)
    && var s := After(cfg, init, before);
       && o in s.pods && s.pods[o].Stopping? && Read(s.record, s.now) == Some(o)
       && w in s.pods && s.pods[w].Watcher()
       && Legal(cfg, Apply(cfg, s, MarkDone(o)), run) && AllPrompt(cfg, Apply(cfg, s, MarkDone(o)), run)
  }

  ghost function Outcome(cfg: Config, init: Cluster, before: seq<Action>, o: string, w: string, run: seq<Action>): Phase
    requires CompletedUnder(cfg, init, before, o, w, run)
  {
    StaysIn(cfg, Apply(cfg, After(cfg, init, before), MarkDone(o)), run, w);
    After(cfg, Apply(cfg, After(cfg, init, before), MarkDone(o)), run).pods[w]
  }

  lemma {:induction false} StaysIn(cfg: Config, s: Cluster, run: seq<Action>, w: string)
    requires Legal(cfg, s, run) && w in s.pods
    ensures w in After(cfg, s, run).pods
    decreases |run|
  {
    if run != [] {
      StaysIn(cfg, Apply(cfg, s, run[0]), run[1..], w);
    }
  }

  // No watcher present at the completion ever processes the request.
  lemma WatchersNeverRunCompleted(cfg: Config, init: Cluster, before: seq<Action>, o: string, w: string,
                                  run: seq<Action>)
    requires cfg.Valid() && cfg.poll + 4 * cfg.latency < cfg.ttl && CompletedUnder(cfg, init, before, o, w, run)
    ensures !Outcome(cfg, init, before, o, w, run).Running?
  {
    var s := After(cfg, init, before);
    ScheduledAfter(cfg, init, before);
    OnTimeAfter(cfg, init, before);
    SettledAfter(cfg, Apply(cfg, s, MarkDone(o)), run, w, s.now);
  }

  ghost predicate CompletionIsFinal(cfg: Config) {
    forall init, before, o, w, run ::
      CompletedUnder(cfg, init, before, o, w, run) ==> !Outcome(cfg, init, before, o, w, run).Running?
  }

  // One more step at the end of a run that leads to s.
  lemma {:induction false} Extend(cfg: Config, init: Cluster, run: seq<Action>, s: Cluster, a: Action)
    returns (longer: seq<Action>, s': Cluster)
    requires Legal(cfg, init, run) && AllPrompt(cfg, init, run) && After(cfg, init, run) == s
    requires Enabled(s, a) && Prompt(cfg, s, a)
    ensures longer == run + [a] && s' == Apply(cfg, s, a)
    ensures Legal(cfg, init, longer) && AllPrompt(cfg, init, longer) && After(cfg, init, longer) == s'
    decreases |run|
  {
    longer, s' := run + [a], Apply(cfg, s, a);
    if run == [] {
      assert longer[1..] == [];
    } else {
      var rest, _ := Extend(cfg, Apply(cfg, init, run[0]), run[1..], s, a);
      assert longer[0] == run[0] && longer[1..] == rest;
    }
  }

  // An owner crashes, and its lease has one instant left.
  lemma CrashedOwner(cfg: Config) returns (init: Cluster, run: seq<Action>, s: Cluster)
    requires cfg.Valid()
    ensures Initial(init) && Legal(cfg, init, run) && AllPrompt(cfg, init, run) && After(cfg, init, run) == s
    ensures s == Cluster(cfg.lease - 1, Held("a", cfg.lease), map["a" := Crashed, "b" := Idle, "c" := Idle], 1, 1)
  {
    init := Cluster(0, Free, map["a" := Idle, "b" := Idle, "c" := Idle], 0, 0);
    run, s := [], init;
    assert Legal(cfg, init, run) && AllPrompt(cfg, init, run) && After(cfg, init, run) == s;
    hide Legal, AllPrompt, After;
    run, s := Extend(cfg, init, run, s, Coordinate("a"));
    run, s := Extend(cfg, init, run, s, Crash("a"));
    assert s.pods == map["a" := Crashed, "b" := Idle, "c" := Idle];
    run, s := Extend(cfg, init, run, s, Tick(cfg.lease - 1));
  }

  // The watcher b wakes just after the lease has lapsed.
  lemma AbandonedRequest(cfg: Config) returns (init: Cluster, run: seq<Action>, s: Cluster)
    requires cfg.Valid()
    ensures Initial(init) && Legal(cfg, init, run) && AllPrompt(cfg, init, run) && After(cfg, init, run) == s
    ensures s.pods == map["a" := Crashed, "b" := Watching(cfg.lease - 1 + cfg.budget, s.now), "c" := Idle]
    ensures s.now == cfg.lease - 1 + cfg.poll && Read(s.record, s.now) == None
  {
    hide Legal, AllPrompt, After, Initial;
    init, run, s := CrashedOwner(cfg);
    run, s := Extend(cfg, init, run, s, Coordinate("b"));
    var watching := Watching(cfg.lease - 1 + cfg.budget, cfg.lease - 1 + cfg.poll);
    assert s.pods == map["a" := Crashed, "b" := watching, "c" := Idle] && s.now == cfg.lease - 1;
    run, s := Extend(cfg, init, run, s, Tick(cfg.lease - 1 + cfg.poll));
  }

  // The watcher b is about to claim at the very moment c claims and completes the request.
  lemma RacedCompletion(cfg: Config) returns (init: Cluster, run: seq<Action>, s: Cluster)
    requires cfg.Valid() && cfg.poll + 2 * cfg.latency < cfg.budget
    ensures Initial(init) && Legal(cfg, init, run) && AllPrompt(cfg, init, run) && After(cfg, init, run) == s
    ensures s.pods.Keys == {"a", "b", "c"} && s.pods["a"] == Crashed && s.pods["c"].Stopping?
    ensures Read(s.record, s.now) == Some("c")
    ensures s.pods["b"].Claiming? && s.pods["b"].seen == s.now && s.now + 2 * cfg.latency < s.pods["b"].deadline
  {
    hide Legal, AllPrompt, After;
    init, run, s := AbandonedRequest(cfg);
    run, s := Extend(cfg, init, run, s, Poll("b"));
    run, s := Extend(cfg, init, run, s, Coordinate("c"));
    run, s := Extend(cfg, init, run, s, Return("c"));
  }

  // If the marker can lapse before a slow watcher looks, that watcher processes the request again.
  lemma LateWatcherRuns(cfg: Config)
    requires cfg.Valid() && cfg.poll + 2 * cfg.latency < cfg.budget && cfg.poll + 4 * cfg.latency >= cfg.ttl
    ensures !CompletionIsFinal(cfg)
  {
    var init, before, s := RacedCompletion(cfg);
    var done := Apply(cfg, s, MarkDone("c"));
    var run, s1 := Extend(cfg, done, [], done, Tick(s.now + 2 * cfg.latency));
    run, s1 := Extend(cfg, done, run, s1, TakeOver("b"));
    if 2 * cfg.latency < cfg.ttl {
      run, s1 := Extend(cfg, done, run, s1, Tick(s.now + 4 * cfg.latency + cfg.poll));
      run, s1 := Extend(cfg, done, run, s1, Poll("b"));
      run, s1 := Extend(cfg, done, run, s1, TakeOver("b"));
    }
    assert CompletedUnder(cfg, init, before, "c", "b", run);
    assert Outcome(cfg, init, before, "c", "b", run).Running?;
  }

  // Completion is final for every watcher exactly when the marker outlives one poll and four operation times.
  lemma CompletionFinalIff(cfg: Config)
    requires cfg.Valid() && cfg.poll + 2 * cfg.latency < cfg.budget
    ensures CompletionIsFinal(cfg) <==> cfg.poll + 4 * cfg.latency < cfg.ttl
  {
    if cfg.poll + 4 * cfg.latency < cfg.ttl {
      forall init, before, o, w, run | CompletedUnder(cfg, init, before, o, w, run)
        ensures !Outcome(cfg, init, before, o, w, run).Running?
      {
        WatchersNeverRunCompleted(cfg, init, before, o, w, run);
      }
    } else {
      LateWatcherRuns(cfg);
    }
  }

  // With the shipped timings only the marker's lifetime varies: completion is final exactly above nine
  // seconds, so for every lifetime of at least the watch budget.
  lemma ShippedTimingsFinalIff(ttl: int)
    requires ttl > 0
    ensures CompletionIsFinal(DEFAULTS.(ttl := ttl)) <==> ttl > 9000
    ensures ttl >= DEFAULTS.budget ==> CompletionIsFinal(DEFAULTS.(ttl := ttl))
  {
    CompletionFinalIff(DEFAULTS.(ttl := ttl));
  }

  // ----- one replica's code

  class ClaimStore {
    var now: int
    var record: Record

    method SetNX(value: string, ttl: int) returns (won: bool)
      modifies this`record
      ensures record == SetIfAbsent(old(record), now, value, ttl) && (won <==> Read(old(record), now).None?)
    {
      won := record.Free? || now >= record.expiry;
      if won {
        record := Held(value, now + ttl);
      }
    }

    method Get() returns (value: Option<string>)
      ensures value == Read(record, now)
    {
      if record.Free? || now >= record.expiry {
        return None;
      }
      return Some(record.value);
    }

    method RunRenewScript(owner: string, lease: int)
      modifies this`record
      ensures record == Renewed(old(record), now, owner, lease)
    {
      var value := Get();
      if value == Some(owner) {
        record := record.(expiry := now + lease);
      }
    }

    method RunDoneScript(owner: string, done: string, ttl: int)
      requires done == DONE
      modifies this`record
      ensures record == MarkedDone(old(record), now, owner, ttl)
    {
      var value := Get();
      if value == Some(owner) {
        record := Held(done, now + ttl);
      }
    }

    // Time passes, and the other replicas leave the record as the gap says.
    method Elapse(gap: Gap)
      modifies this
      ensures now == old(now) + gap.elapsed && record == gap.record
    {
      now := now + gap.elapsed;
      record := gap.record;
    }
  }

  // What happens between two operations of one replica.
  datatype Gap = Gap(elapsed: nat, record: Record)

  class Claimer {
    const cfg: Config
    const podID: string
    const store: ClaimStore
    // this replica's place in the protocol, and how often it started the request
    ghost var phase: Phase
    ghost var starts: nat

    constructor (cfg: Config, podID: string, store: ClaimStore)
      requires cfg.Valid() && podID != DONE
      ensures this.cfg == cfg && this.podID == podID && this.store == store && phase == Idle && starts == 0
    {
      this.cfg, this.podID, this.store := cfg, podID, store;
      phase, starts := Idle, 0;
    }

    // The cluster as far as this replica is concerned.
    ghost function View(): Cluster
      reads this, store
    {
      Cluster(store.now, store.record, map[podID := phase], starts, 0)
    }

    // The winner's part stops before the request is processed; the loser's before its first sleep.
    method Coordinate() returns (won: bool)
      requires cfg.Valid() && phase.Idle?
      modifies this, store`record
      ensures View() == Apply(cfg, old(View()), Action.Coordinate(podID)) && (won <==> phase.Running?)
    {
      won := store.SetNX(podID, cfg.lease);
      phase := if won then Running(FirstBeat(cfg, store.now)) else KeepWatching(cfg, store.now + cfg.budget, store.now);
      starts := starts + if won then 1 else 0;
    }

    method Heartbeat()
      requires Enabled(View(), Beat(podID))
      modifies this`phase, store`record
      ensures View() == Apply(cfg, old(View()), Beat(podID))
      ensures phase == AfterBeat(cfg, old(phase), store.now)
    {
      store.RunRenewScript(podID, cfg.lease);
      phase := AfterBeat(cfg, phase, store.now);
    }

    method MarkDone()
      requires phase.Stopping?
      modifies this`phase, store`record
      ensures View() == Apply(cfg, old(View()), Action.MarkDone(podID)) && phase == Finished
    {
      store.RunDoneScript(podID, DONE, cfg.ttl);
      phase := Finished;
    }

    // One claim attempt of the watcher.
    method TryTakeOver() returns (won: bool)
      requires phase.Claiming?
      modifies this, store`record
      ensures View() == Apply(cfg, old(View()), TakeOver(podID)) && (won <==> phase.Running?)
      ensures won ==> store.record == Held(podID, store.now + cfg.lease) && starts == old(starts) + 1
      ensures !won ==> phase == KeepWatching(cfg, old(phase.deadline), store.now) && starts == old(starts)
      ensures !won ==> store.record == old(store.record)
    {
      won := store.SetNX(podID, cfg.lease);
      phase := if won then Running(FirstBeat(cfg, store.now)) else KeepWatching(cfg, phase.deadline, store.now);
      starts := starts + if won then 1 else 0;
    }

    // One read of the watcher.
    method PollRecord() returns (value: Option<string>)
      requires Enabled(View(), Poll(podID))
      modifies this`phase
      ensures value == Read(store.record, store.now)
      ensures phase == AfterRead(cfg, old(phase.deadline), store.now, value)
      ensures View() == Apply(cfg, old(View()), Poll(podID))
    {
      value := store.Get();
      phase := AfterRead(cfg, phase.deadline, store.now, value);
    }

    // One round of the watch: sleep, read, and a claim if there is no record.
    method WatchRound(gaps: (Gap, Gap)) returns (value: Option<string>, won: bool, ghost round: Round)
      requires cfg.Valid() && phase.Watching? && phase == KeepWatching(cfg, phase.deadline, store.now)
      modifies this, store
      ensures IsRound(cfg, podID, old(View()), gaps, round) && View() == round.next
      ensures store.now >= old(store.now) + cfg.poll
      ensures won <==> phase.Running?
      ensures won ==> store.record == Held(podID, store.now + cfg.lease) && starts == old(starts) + 1
      ensures !won ==> starts == old(starts)
      ensures value == Some(DONE) ==> !won && phase == Exited && Read(store.record, store.now) == Some(DONE)
      ensures !won && value != Some(DONE) ==> phase == KeepWatching(cfg, old(phase.deadline), store.now)
    {
      var (asleep, between) := gaps;
      won := false;
      store.Elapse(Gap(cfg.poll + asleep.elapsed, asleep.record));
      ghost var woken := View();
      value := PollRecord();
      ghost var read := View();
      if value.None? {
        store.Elapse(between);
        won := TryTakeOver();
      }
      round := Round(woken, read, View());
    }

    // Each round sleeps at least one poll, so the loop ends whatever the others do. It ends by taking
    // over, by seeing the done marker, or by running out of budget; every round takes the machine's steps.
    method WatchAndTakeOver(env: nat -> (Gap, Gap)) returns (won: bool, polls: nat, ghost rounds: seq<Round>)
      requires cfg.Valid() && phase == Watching(store.now + cfg.budget, store.now + cfg.poll)
      modifies this, store
      ensures |rounds| == polls > 0 && IsWatch(cfg, podID, old(View()), env, rounds)
      ensures View() == rounds[polls - 1].next
      ensures won <==> phase.Running?
      ensures won ==> store.record == Held(podID, store.now + cfg.lease) && starts == old(starts) + 1
      ensures !won ==> phase.Exited? && starts == old(starts)
      ensures !won ==> Read(store.record, store.now) == Some(DONE) || store.now >= old(store.now) + cfg.budget
      ensures (polls - 1) * cfg.poll < cfg.budget
    {
      var start, deadline := store.now, store.now + cfg.budget;
      polls, rounds := 0, [];
      while store.now < deadline
        invariant phase == KeepWatching(cfg, deadline, store.now) && starts == old(starts)
        invariant start + polls * cfg.poll <= store.now
        invariant polls > 0 ==> start + (polls - 1) * cfg.poll < deadline
        invariant |rounds| == polls && (polls == 0 ==> store.now == start)
        invariant View() == Beginning(old(View()), rounds, polls)
        invariant AreRounds(cfg, podID, old(View()), env, rounds)
        decreases deadline - store.now
      {
        hide IsRound, AreRounds;
        ghost var round;
        var value;
        value, won, round := WatchRound(env(polls));
        rounds := WithRound(cfg, podID, old(View()), env, rounds, round);
        polls := polls + 1;
        if won || value == Some(DONE) {
          return won, polls, rounds;
        }
      }
      return false, polls, rounds;
    }

    // Renews the lease while the request is processed, then marks it done, unless another took over.
    method RunOwned(env: nat -> Gap, beats: nat) returns (ghost views: seq<Cluster>)
      requires cfg.Valid() && phase.Running?
      modifies this, store
      ensures |views| == beats + 1 && views[0] == old(View()) && AreBeats(cfg, podID, env, views)
      ensures podID in views[beats].pods && views[beats].pods[podID].Running?
      ensures View() == Completed(cfg, podID, Elapsed(views[beats], 0, env(beats)))
      ensures phase == Finished && starts == old(starts)
      ensures store.record == MarkedDone(env(beats).record, store.now, podID, cfg.ttl)
    {
      views := [View()];
      for i := 0 to beats
        invariant phase.Running? && starts == old(starts)
        invariant |views| == i + 1 && views[0] == old(View()) && views[i] == View()
        invariant AreBeats(cfg, podID, env, views)
      {
        hide AreBeats;
        ghost var before := View();
        store.Elapse(env(i));
        assert View() == Elapsed(before, 0, env(i));
        Heartbeat();
        views := WithBeat(cfg, podID, env, views, View());
      }
      store.Elapse(env(beats));
      phase := Stopping(store.now, phase.beat);
      MarkDone();
    }
  }

  // ----- what the steps of a watch and of an owner come to

  // The replica's view after a gap that is longer by a time it slept.
  function Elapsed(s: Cluster, slept: nat, gap: Gap): Cluster {
    s.(now := s.now + slept + gap.elapsed, record := gap.record)
  }

  function PhaseOf(s: Cluster, pod: string): Phase {
    if pod in s.pods then s.pods[pod] else Idle
  }

  // One round of a watch: awake after the sleep, after the read, and at its end.
  datatype Round = Round(woken: Cluster, read: Cluster, next: Cluster)

  // Sleep, read, and a claim exactly after reading none.
  predicate IsRound(cfg: Config, pod: string, s: Cluster, gaps: (Gap, Gap), r: Round)
    requires cfg.Valid()
  {
    && r.woken == Elapsed(s, cfg.poll, gaps.0)
    && Enabled(r.woken, Poll(pod)) && r.read == Apply(cfg, r.woken, Poll(pod))
    && if Read(r.woken.record, r.woken.now).None? then
         var claiming := Elapsed(r.read, 0, gaps.1);
         Enabled(claiming, TakeOver(pod)) && r.next == Apply(cfg, claiming, TakeOver(pod))
       else
         r.next == r.read
  }

  function Beginning(s: Cluster, rounds: seq<Round>, i: nat): Cluster
    requires i <= |rounds|
  {
    if i == 0 then s else rounds[i - 1].next
  }

  predicate RoundAt(cfg: Config, pod: string, s: Cluster, env: nat -> (Gap, Gap), rounds: seq<Round>, i: nat)
    requires cfg.Valid() && i < |rounds|
  {
    && IsRound(cfg, pod, Beginning(s, rounds, i), env(i), rounds[i])
    && (i < |rounds| - 1 ==> PhaseOf(rounds[i].next, pod).Watching?)
  }

  predicate AreRounds(cfg: Config, pod: string, s: Cluster, env: nat -> (Gap, Gap), rounds: seq<Round>)
    requires cfg.Valid()
  {
    forall i :: 0 <= i < |rounds| ==> RoundAt(cfg, pod, s, env, rounds, i)
  }

  // A whole watch: rounds until the replica no longer watches.
  predicate IsWatch(cfg: Config, pod: string, s: Cluster, env: nat -> (Gap, Gap), rounds: seq<Round>)
    requires cfg.Valid()
  {
    && rounds != [] && AreRounds(cfg, pod, s, env, rounds)
    && !PhaseOf(rounds[|rounds| - 1].next, pod).Watching?
  }

  lemma WithRound(cfg: Config, pod: string, s: Cluster, env: nat -> (Gap, Gap), rounds: seq<Round>, r: Round)
    returns (rounds': seq<Round>)
    requires cfg.Valid() && AreRounds(cfg, pod, s, env, rounds)
    requires IsRound(cfg, pod, Beginning(s, rounds, |rounds|), env(|rounds|), r)
    requires rounds != [] ==> PhaseOf(rounds[|rounds| - 1].next, pod).Watching?
    ensures rounds' == rounds + [r] && AreRounds(cfg, pod, s, env, rounds')
  {
    rounds' := rounds + [r];
    hide IsRound;
    forall i | 0 <= i < |rounds'|
      ensures RoundAt(cfg, pod, s, env, rounds', i)
    {
      if i < |rounds| {
        assert RoundAt(cfg, pod, s, env, rounds, i);
      }
    }
  }

  // The round read no record, and there was none when its claim took effect.
  predicate FoundFree(r: Round, between: Gap) {
    Read(r.woken.record, r.woken.now).None? && Read(between.record, r.woken.now + between.elapsed).None?
  }

  // A watch ends in taking over exactly if some round finds the record free twice. Otherwise it ends on the
  // done marker or after the deadline, and not before.
  lemma WatchWinsIff(cfg: Config, pod: string, s: Cluster, env: nat -> (Gap, Gap), rounds: seq<Round>)
    requires cfg.Valid() && IsWatch(cfg, pod, s, env, rounds)
    requires PhaseOf(s, pod).Watching? && PhaseOf(s, pod).deadline == s.now + cfg.budget
    ensures var end := rounds[|rounds| - 1];
            && (PhaseOf(end.next, pod).Running? <==>
                  exists i :: 0 <= i < |rounds| && FoundFree(rounds[i], env(i).1))
            && (PhaseOf(end.next, pod).Running? ==> end.next.record == Held(pod, end.next.now + cfg.lease))
            && (!PhaseOf(end.next, pod).Running? ==>
                  || Read(end.woken.record, end.woken.now) == Some(DONE)
                  || end.next.now >= s.now + cfg.budget)
  {
    RoundOfWatch(cfg, pod, s, env, rounds, |rounds| - 1);
    hide FoundFree;
    forall i | 0 <= i < |rounds| && FoundFree(rounds[i], env(i).1)
      ensures i == |rounds| - 1
    {
      RoundOfWatch(cfg, pod, s, env, rounds, i);
      assert RoundAt(cfg, pod, s, env, rounds, i);
    }
  }

  // What one round of a watch comes to.
  lemma RoundOfWatch(cfg: Config, pod: string, s: Cluster, env: nat -> (Gap, Gap), rounds: seq<Round>, i: nat)
    requires cfg.Valid() && AreRounds(cfg, pod, s, env, rounds) && i < |rounds|
    requires PhaseOf(s, pod).Watching?
    ensures var phase, deadline := PhaseOf(rounds[i].next, pod), PhaseOf(s, pod).deadline;
            && IsRound(cfg, pod, Beginning(s, rounds, i), env(i), rounds[i])
            && (phase.Running? <==> FoundFree(rounds[i], env(i).1))
            && (phase.Running? ==> rounds[i].next.record == Held(pod, rounds[i].next.now + cfg.lease))
            && (phase.Watching? ==> phase.deadline == deadline && rounds[i].next.now < deadline)
            && (!phase.Running? && !phase.Watching? ==>
                  || Read(rounds[i].woken.record, rounds[i].woken.now) == Some(DONE)
                  || rounds[i].next.now >= deadline)
  {
    DeadlineStays(cfg, pod, s, env, rounds, i);
    assert RoundAt(cfg, pod, s, env, rounds, i);
    RoundWinsIff(cfg, pod, Beginning(s, rounds, i), env(i), rounds[i]);
    hide IsRound, FoundFree, AreRounds;
  }

  lemma RoundWinsIff(cfg: Config, pod: string, s: Cluster, gaps: (Gap, Gap), r: Round)
    requires cfg.Valid() && IsRound(cfg, pod, s, gaps, r) && PhaseOf(s, pod).Watching?
    ensures var phase, deadline := PhaseOf(r.next, pod), PhaseOf(s, pod).deadline;
            && (phase.Running? <==> FoundFree(r, gaps.1))
            && (phase.Running? ==> r.next.record == Held(pod, r.next.now + cfg.lease))
            && (phase.Watching? ==> phase.deadline == deadline && r.next.now < deadline)
            && (!phase.Running? && !phase.Watching? ==>
                  Read(r.woken.record, r.woken.now) == Some(DONE) || r.next.now >= deadline)
  {
  }

  lemma {:induction false} DeadlineStays(cfg: Config, pod: string, s: Cluster, env: nat -> (Gap, Gap),
                                         rounds: seq<Round>, i: nat)
    requires cfg.Valid() && AreRounds(cfg, pod, s, env, rounds) && i < |rounds|
    requires PhaseOf(s, pod).Watching?
    ensures PhaseOf(Beginning(s, rounds, i), pod).Watching?
    ensures PhaseOf(Beginning(s, rounds, i), pod).deadline == PhaseOf(s, pod).deadline
  {
    if i > 0 {
      DeadlineStays(cfg, pod, s, env, rounds, i - 1);
      assert RoundAt(cfg, pod, s, env, rounds, i - 1);
      RoundWinsIff(cfg, pod, Beginning(s, rounds, i - 1), env(i - 1), rounds[i - 1]);
    }
    hide IsRound, FoundFree;
  }

  // If the owner has died and nobody else touches the record, the watch takes over, at most a poll and the
  // last round's delays after the lease has run out, provided it runs out within the budget.
  lemma LoneWatcherWins(cfg: Config, pod: string, s: Cluster, env: nat -> (Gap, Gap), rounds: seq<Round>)
    requires cfg.Valid() && IsWatch(cfg, pod, s, env, rounds)
    requires PhaseOf(s, pod).Watching? && PhaseOf(s, pod).deadline == s.now + cfg.budget
    requires s.record.Held? && s.record.value != DONE && s.now < s.record.expiry <= s.now + cfg.budget
    requires forall i :: env(i).0.record == s.record && env(i).1.record == s.record
    ensures var end, last := rounds[|rounds| - 1].next, env(|rounds| - 1);
            PhaseOf(end, pod).Running? && end.now < s.record.expiry + cfg.poll + last.0.elapsed + last.1.elapsed
  {
    var end := |rounds| - 1;
    RoundOfWatch(cfg, pod, s, env, rounds, end);
    if end > 0 {
      RoundOfWatch(cfg, pod, s, env, rounds, end - 1);
      assert RoundAt(cfg, pod, s, env, rounds, end - 1);
    }
    assert Beginning(s, rounds, end).now < s.record.expiry;
    assert FoundFree(rounds[end], env(end).1) <==> rounds[end].woken.now >= s.record.expiry;
  }

  // Each view is the one before after a gap and a heartbeat.
  predicate AreBeats(cfg: Config, pod: string, env: nat -> Gap, views: seq<Cluster>) {
    forall i :: 0 <= i < |views| - 1 ==>
      && Enabled(Elapsed(views[i], 0, env(i)), Beat(pod))
      && views[i + 1] == Apply(cfg, Elapsed(views[i], 0, env(i)), Beat(pod))
  }

  lemma WithBeat(cfg: Config, pod: string, env: nat -> Gap, views: seq<Cluster>, next: Cluster)
    returns (views': seq<Cluster>)
    requires views != [] && AreBeats(cfg, pod, env, views)
    requires var s := Elapsed(views[|views| - 1], 0, env(|views| - 1));
             Enabled(s, Beat(pod)) && next == Apply(cfg, s, Beat(pod))
    ensures views' == views + [next] && AreBeats(cfg, pod, env, views')
  {
    views' := views + [next];
    hide Apply, Enabled, Elapsed;
  }

  // The end of the processing and the marker, at one instant.
  function Completed(cfg: Config, pod: string, s: Cluster): Cluster
    requires pod in s.pods && s.pods[pod].Running?
  {
    Apply(cfg, Apply(cfg, s, Return(pod)), MarkDone(pod))
  }

  // An owner whose record nobody touches keeps it from beat to beat and leaves the done marker, if no gap
  // between its operations reaches the lease.
  lemma UndisturbedOwnerFinishes(cfg: Config, pod: string, env: nat -> Gap, views: seq<Cluster>)
    requires cfg.Valid() && views != [] && AreBeats(cfg, pod, env, views)
    requires pod in views[0].pods && views[0].pods[pod].Running?
    requires views[0].record == Held(pod, views[0].now + cfg.lease)
    requires forall i :: 0 <= i < |views| ==> env(i).record == views[i].record && env(i).elapsed < cfg.lease
    ensures forall i :: 0 <= i < |views| ==> views[i].record == Held(pod, views[i].now + cfg.lease)
    ensures pod in views[|views| - 1].pods && views[|views| - 1].pods[pod].Running?
    ensures var end := Completed(cfg, pod, Elapsed(views[|views| - 1], 0, env(|views| - 1)));
            end.record == Held(DONE, end.now + cfg.ttl)
  {
    for i := 0 to |views| - 1
      invariant pod in views[i].pods && views[i].pods[pod].Running?
      invariant forall j :: 0 <= j <= i ==> views[j].record == Held(pod, views[j].now + cfg.lease)
    {
    }
  }
}
