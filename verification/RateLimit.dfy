// Fixed-window counters, in process memory and in the shared store, and the per-address budget that
// spans two epochs of rotating bucket keys.
module RateLimit {

  // ----- one counter table

  datatype Backend = Memory | Shared

  datatype Window = Window(count: int, expiresAt: int)

  type Table<!K> = map<K, Window>

  function CountAt<K>(t: Table<K>, key: K, now: int): int {
    if key in t && now < t[key].expiresAt then t[key].count else 0
  }

  // The window an attempt finds itself counted in. Memory keeps a window through its last instant; the
  // shared store starts a new one whenever the count goes from zero to one.
  function Taken<K>(b: Backend, t: Table<K>, key: K, now: int, length: int): Window {
    if key !in t || now > t[key].expiresAt || (b.Shared? && now == t[key].expiresAt) then Window(1, now + length)
    else if b.Shared? && t[key].count == 0 then Window(1, now + length)
    else Window(t[key].count + 1, t[key].expiresAt)
  }

  function AfterTake<K>(b: Backend, t: Table<K>, key: K, now: int, length: int): Table<K> {
    t[key := Taken(b, t, key, now, length)]
  }

  function AfterRelease<K>(t: Table<K>, key: K, now: int): Table<K> {
    if CountAt(t, key, now) > 0 then t[key := t[key].(count := t[key].count - 1)] else t
  }

  // The key's window, as far as anyone can still tell, is the same in both tables.
  predicate Untouched<K>(t: Table<K>, t': Table<K>, key: K, now: int) {
    && (key in t && now <= t[key].expiresAt ==> key in t' && t'[key] == t[key])
    && (key in t' && now <= t'[key].expiresAt ==> key in t && t'[key] == t[key])
  }

  ghost predicate NonNegative<K(!new)>(t: Table<K>) {
    forall k :: k in t ==> t[k].count >= 0
  }

  // An attempt and its refund leave every counter as it was, from that instant on.
  lemma TakeThenRelease<K(!new)>(b: Backend, t: Table<K>, key: K, now: int, length: int, k: K)
    requires NonNegative(t) && length > 0
    ensures CountAt(AfterRelease(AfterTake(b, t, key, now, length), key, now), k, now) == CountAt(t, k, now)
  {
  }

  // Memory still counts an attempt in a window at the window's very last instant, when it no longer shows.
  predicate AtLastInstant<K>(b: Backend, t: Table<K>, key: K, now: int) {
    b.Memory? && key in t && t[key].expiresAt == now
  }

  // The attempts that the next one is counted with.
  function Spent<K>(b: Backend, t: Table<K>, key: K, now: int): int {
    if AtLastInstant(b, t, key, now) then t[key].count else CountAt(t, key, now)
  }

  function AfterTakes<K>(b: Backend, t: Table<K>, key: K, times: seq<int>, length: int): Table<K> {
    if times == [] then t
    else
      var i := |times| - 1;
      AfterTake(b, AfterTakes(b, t, key, times[..i], length), key, times[i], length)
  }

  // Attempts that follow one another within a window share it: it counts them all and ends a length after
  // the first, however many come; an attempt past its end opens a new one.
  lemma {:induction false} WindowFixedByFirst<K>(b: Backend, t: Table<K>, key: K, times: seq<int>, length: int)
    requires times != [] && (key in t ==> t[key].expiresAt < times[0])
    requires forall i, j :: 0 <= i < j < |times| ==> times[i] <= times[j] < times[0] + length
    ensures var t' := AfterTakes(b, t, key, times, length);
            && key in t' && t'[key] == Window(|times|, times[0] + length)
            && forall now :: now > times[0] + length ==> Taken(b, t', key, now, length) == Window(1, now + length)
  {
    var i := |times| - 1;
    if i == 0 {
      assert AfterTakes(b, t, key, times[..0], length) == t;
    } else {
      WindowFixedByFirst(b, t, key, times[..i], length);
      assert times[i] < times[0] + length;
    }
  }

  // ----- the memory limiter

  const SWEEP_ABOVE := 4096

  class MemoryLimiter {
    var windows: map<string, Window>

    ghost predicate Valid()
      reads this
    {
      NonNegative(windows)
    }

    constructor ()
      ensures Valid() && windows == map[]
    {
      windows := map[];
    }

    // Sweeping never changes a count that anyone can still see.
    method Allow(key: string, limit: int, length: int, now: int) returns (allowed: bool)
      requires Valid()
      modifies this
      ensures Valid() && key in windows && windows[key] == Taken(Memory, old(windows), key, now, length)
      ensures allowed <==> windows[key].count <= limit
      ensures forall k :: k != key ==> Untouched(old(windows), windows, k, now)
      ensures forall k :: k != key ==> CountAt(windows, k, now) == CountAt(old(windows), k, now)
    {
      if |windows| > SWEEP_ABOVE {
        Sweep(now);
      }
      if key !in windows || now > windows[key].expiresAt {
        windows := windows[key := Window(1, now + length)];
        return 1 <= limit;
      }
      var w := windows[key].(count := windows[key].count + 1);
      windows := windows[key := w];
      return w.count <= limit;
    }

    method Sweep(now: int)
      requires Valid()
      modifies this
      ensures windows == map k | k in old(windows) && now <= old(windows)[k].expiresAt :: old(windows)[k]
    {
      var rest := windows.Keys;
      while rest != {}
        invariant rest <= windows.Keys
        invariant forall k :: k in windows ==> k in old(windows) && windows[k] == old(windows)[k]
        invariant forall k :: k in old(windows) && now <= old(windows)[k].expiresAt ==> k in windows
        invariant forall k :: k in windows && k !in rest ==> now <= windows[k].expiresAt
      {
        var k :| k in rest;
        rest := rest - {k};
        if now > windows[k].expiresAt {
          windows := windows - {k};
        }
      }
    }

    method Count(key: string, now: int) returns (count: int)
      ensures count == CountAt(windows, key, now)
    {
      if key in windows && now < windows[key].expiresAt {
        return windows[key].count;
      }
      return 0;
    }

    method Release(key: string, now: int)
      requires Valid()
      modifies this
      ensures Valid() && windows == AfterRelease(old(windows), key, now)
    {
      if key in windows && now < windows[key].expiresAt && windows[key].count > 0 {
        windows := windows[key := windows[key].(count := windows[key].count - 1)];
      }
    }
  }

  // Whether an address with these keys is granted an attempt.
  predicate GrantsIP(t: Table<string>, current: string, previous: string, limit: int, length: int, now: int) {
    var used := if previous != "" then CountAt(t, previous, now) else 0;
    used < limit && Taken(Memory, t, current, now, length).count <= limit - used
  }

  // An address is granted an attempt exactly if the attempts of both epochs that still count are below its
  // limit.
  lemma GrantsIPIff(t: Table<string>, current: string, previous: string, limit: int, length: int, now: int)
    requires NonNegative(t)
    ensures GrantsIP(t, current, previous, limit, length, now) <==>
      Spent(Memory, t, current, now) + (if previous != "" then CountAt(t, previous, now) else 0) < limit
  {
  }

  // One address's budget. previous is empty when the bucket keys of earlier epochs are unknown. The
  // counts of both keys stay within the limit on a grant, and a refusal reserves nothing.
  method AllowIP(limiter: MemoryLimiter, current: string, previous: string, limit: int, length: int, now: int)
    returns (allowed: bool, key: string)
    requires limiter.Valid() && current != previous && length > 0
    modifies limiter
    ensures limiter.Valid()
    ensures allowed <==> GrantsIP(old(limiter.windows), current, previous, limit, length, now)
    ensures allowed ==>
      && key == current && current in limiter.windows
      && limiter.windows[current] == Taken(Memory, old(limiter.windows), current, now, length)
      && (var earlier := if previous != "" then CountAt(limiter.windows, previous, now) else 0;
          CountAt(limiter.windows, current, now) + earlier <= limit)
      && forall k :: k != current ==> Untouched(old(limiter.windows), limiter.windows, k, now)
    ensures !allowed ==>
      key == "" && forall k :: CountAt(limiter.windows, k, now) == CountAt(old(limiter.windows), k, now)
  {
    var used := 0;
    if previous != "" {
      used := limiter.Count(previous, now);
    }
    if used >= limit {
      return false, "";
    }
    allowed := limiter.Allow(current, limit - used, length, now);
    if !allowed {
      limiter.Release(current, now);
      return false, "";
    }
    return true, current;
  }

  // ----- many callers at once

  // The keys of one address are named by their epochs. length is the window, period the rotation period.
  datatype Config = Config(backend: Backend, limit: int, length: int, period: int)
  {
    predicate Valid() {
      0 < length <= period
    }
  }

  // A caller between its steps: keys derived, previous count read, reserved, refused and about to hand
  // its unit back.
  datatype Caller =
    | Hashed(epoch: int)
    | Counted(epoch: int, used: int)
    | Granted(epoch: int)
    | Refusing(epoch: int)
    | Gone

  datatype State = State(now: int, table: Table<int>, callers: map<nat, Caller>)

  datatype Action =
    | Tick(time: int)
    | DeriveKeys(caller: nat)
    | ReadPrevious(caller: nat)
    | Reserve(caller: nat)
    | HandBack(caller: nat)
    | Refund(caller: nat)

  function Epoch(cfg: Config, now: int): int
    requires cfg.period > 0
  {
    now / cfg.period
  }

  predicate Enabled(s: State, a: Action) {
    match a
    case Tick(time) => s.now <= time
    case DeriveKeys(c) => c !in s.callers
    case ReadPrevious(c) => c in s.callers && s.callers[c].Hashed?
    case Reserve(c) => c in s.callers && s.callers[c].Counted?
    case HandBack(c) => c in s.callers && s.callers[c].Refusing?
    case Refund(c) => c in s.callers && s.callers[c].Granted?
  }

  function Apply(cfg: Config, s: State, a: Action): State
    requires cfg.period > 0 && Enabled(s, a)
  {
    match a
    case Tick(time) => s.(now := time)
    case DeriveKeys(c) => s.(callers := s.callers[c := Hashed(Epoch(cfg, s.now))])
    case ReadPrevious(c) =>
      var e := s.callers[c].epoch;
      var used := CountAt(s.table, e - 1, s.now);
      s.(callers := s.callers[c := if used >= cfg.limit then Gone else Counted(e, used)])
    case Reserve(c) =>
      var e := s.callers[c].epoch;
      var granted := Taken(cfg.backend, s.table, e, s.now, cfg.length).count <= cfg.limit - s.callers[c].used;
      s.(table := AfterTake(cfg.backend, s.table, e, s.now, cfg.length),
         callers := s.callers[c := if granted then Granted(e) else Refusing(e)])
    case HandBack(c) => s.(table := AfterRelease(s.table, s.callers[c].epoch, s.now), callers := s.callers[c := Gone])
    case Refund(c) => s.(table := AfterRelease(s.table, s.callers[c].epoch, s.now), callers := s.callers[c := Gone])
  }

  // A caller that nobody comes between is granted exactly if the attempts of both epochs that still count
  // are below the limit; otherwise it leaves every count as it was.
  lemma UndisturbedCallerIff(cfg: Config, s: State, c: nat) returns (run: seq<Action>)
    requires cfg.Valid() && NonNegative(s.table) && c !in s.callers
    ensures Legal(cfg, s, run)
    ensures var e, end := Epoch(cfg, s.now), After(cfg, s, run);
            && c in end.callers
            && (end.callers[c].Granted? <==>
                  Spent(cfg.backend, s.table, e, s.now) + CountAt(s.table, e - 1, s.now) < cfg.limit)
            && (end.callers[c].Granted? ==> end.table == AfterTake(cfg.backend, s.table, e, s.now, cfg.length))
            && (!end.callers[c].Granted? ==>
                  end.callers[c].Gone? && forall k :: CountAt(end.table, k, s.now) == CountAt(s.table, k, s.now))
  {
    hide Epoch;
    var e := Epoch(cfg, s.now);
    var s1 := Apply(cfg, s, DeriveKeys(c));
    var s2 := Apply(cfg, s1, ReadPrevious(c));
    if s2.callers[c].Gone? {
      run := [DeriveKeys(c), ReadPrevious(c)];
      Unfold(cfg, s1, run[1..]);
    } else {
      var s3 := Apply(cfg, s2, Reserve(c));
      if s3.callers[c].Granted? {
        run := [DeriveKeys(c), ReadPrevious(c), Reserve(c)];
      } else {
        run := [DeriveKeys(c), ReadPrevious(c), Reserve(c), HandBack(c)];
        Unfold(cfg, s3, run[3..]);
        HandedBack(cfg, s, e);
      }
      Unfold(cfg, s2, run[2..]);
      Unfold(cfg, s1, run[1..]);
    }
    Unfold(cfg, s, run);
  }

  lemma HandedBack(cfg: Config, s: State, e: int)
    requires cfg.Valid() && NonNegative(s.table)
    ensures forall k ::
      CountAt(AfterRelease(AfterTake(cfg.backend, s.table, e, s.now, cfg.length), e, s.now), k, s.now)
      == CountAt(s.table, k, s.now)
  {
    forall k
      ensures CountAt(AfterRelease(AfterTake(cfg.backend, s.table, e, s.now, cfg.length), e, s.now), k, s.now)
           == CountAt(s.table, k, s.now)
    {
      TakeThenRelease(cfg.backend, s.table, e, s.now, cfg.length, k);
    }
  }

  // A reservation lands in the epoch its keys were derived in.
  predicate InItsEpoch(cfg: Config, s: State, a: Action)
    requires cfg.period > 0 && Enabled(s, a)
  {
    a.Reserve? ==> s.callers[a.caller].epoch == Epoch(cfg, s.now)
  }

  predicate Legal(cfg: Config, s: State, run: seq<Action>)
    requires cfg.period > 0
    decreases |run|
  {
    run == [] || (Enabled(s, run[0]) && Legal(cfg, Apply(cfg, s, run[0]), run[1..]))
  }

  function After(cfg: Config, s: State, run: seq<Action>): State
    requires cfg.period > 0 && Legal(cfg, s, run)
    decreases |run|
  {
    if run == [] then s else After(cfg, Apply(cfg, s, run[0]), run[1..])
  }

  predicate NoStraddling(cfg: Config, s: State, run: seq<Action>)
    requires cfg.period > 0 && Legal(cfg, s, run)
    decreases |run|
  {
    run == [] || (InItsEpoch(cfg, s, run[0]) && NoStraddling(cfg, Apply(cfg, s, run[0]), run[1..]))
  }

  // Windows end before the epoch after next begins.
  ghost predicate WindowsEnd(cfg: Config, t: Table<int>) {
    NonNegative(t) && forall k :: k in t ==> t[k].expiresAt <= (k + 2) * cfg.period
  }

  // A caller about to reserve has not read too low a previous count.
  predicate ReadingHolds(cfg: Config, s: State, caller: Caller)
    requires cfg.period > 0
  {
    && (!caller.Gone? ==> caller.epoch <= Epoch(cfg, s.now))
    && (caller.Counted? && caller.epoch == Epoch(cfg, s.now) ==>
          CountAt(s.table, caller.epoch - 1, s.now) <= caller.used)
  }

  ghost predicate Sound(cfg: Config, s: State)
    requires cfg.period > 0
  {
    WindowsEnd(cfg, s.table) && forall c :: c in s.callers ==> ReadingHolds(cfg, s, s.callers[c])
  }

  lemma WindowEnds(cfg: Config, now: int)
    requires cfg.Valid()
    ensures now + cfg.length <= (Epoch(cfg, now) + 2) * cfg.period
  {
  }

  lemma EpochMonotone(cfg: Config, now: int, later: int)
    requires cfg.period > 0 && now <= later
    ensures Epoch(cfg, now) <= Epoch(cfg, later)
  {
    var e, e' := now / cfg.period, later / cfg.period;
    if e' < e {
      Scaled(e' + 1, e, cfg.period);
      assert false;
    }
  }

  lemma ReadingStep(cfg: Config, s: State, a: Action, c: nat)
    requires cfg.Valid() && Sound(cfg, s) && Enabled(s, a) && InItsEpoch(cfg, s, a)
    requires c in Apply(cfg, s, a).callers
    ensures ReadingHolds(cfg, Apply(cfg, s, a), Apply(cfg, s, a).callers[c])
  {
    hide Epoch;
    if a.Tick? {
      EpochMonotone(cfg, s.now, a.time);
    }
  }

  lemma SoundStep(cfg: Config, s: State, a: Action)
    requires cfg.Valid() && Sound(cfg, s) && Enabled(s, a) && InItsEpoch(cfg, s, a)
    ensures Sound(cfg, Apply(cfg, s, a))
  {
    WindowEnds(cfg, s.now);
    hide Epoch, ReadingHolds;
    forall c | c in Apply(cfg, s, a).callers
      ensures ReadingHolds(cfg, Apply(cfg, s, a), Apply(cfg, s, a).callers[c])
    {
      ReadingStep(cfg, s, a, c);
    }
  }

  lemma {:induction false} SoundAfter(cfg: Config, s: State, run: seq<Action>)
    requires cfg.Valid() && Sound(cfg, s) && Legal(cfg, s, run) && NoStraddling(cfg, s, run)
    ensures Sound(cfg, After(cfg, s, run))
    decreases |run|
  {
    if run != [] {
      SoundStep(cfg, s, run[0]);
      SoundAfter(cfg, Apply(cfg, s, run[0]), run[1..]);
    }
  }

  // Only the current and the previous epoch's counters are alive.
  lemma OlderWindowsGone(cfg: Config, s: State, k: int)
    requires cfg.Valid() && WindowsEnd(cfg, s.table) && k <= Epoch(cfg, s.now) - 2
    ensures CountAt(s.table, k, s.now) == 0
  {
    if k in s.table {
      Scaled(k + 2, Epoch(cfg, s.now), cfg.period);
    }
  }

  lemma Scaled(a: int, b: int, p: int)
    requires a <= b && p > 0
    ensures a * p <= b * p
  {
  }

  // The address is within budget: the live counters of all epochs together.
  ghost predicate WithinBudget(cfg: Config, s: State)
    requires cfg.period > 0
  {
    var e := Epoch(cfg, s.now);
    && CountAt(s.table, e, s.now) + CountAt(s.table, e - 1, s.now) <= cfg.limit
    && forall k :: k < e - 1 ==> CountAt(s.table, k, s.now) == 0
  }

  // However the callers interleave and the keys rotate, a grant leaves the address within budget.
  lemma GrantWithinBudget(cfg: Config, run: seq<Action>, c: nat)
    requires cfg.Valid() && Legal(cfg, State(0, map[], map[]), run) && NoStraddling(cfg, State(0, map[], map[]), run)
    requires var s := After(cfg, State(0, map[], map[]), run);
             Enabled(s, Reserve(c)) && InItsEpoch(cfg, s, Reserve(c)) && Apply(cfg, s, Reserve(c)).callers[c].Granted?
    ensures WithinBudget(cfg, Apply(cfg, After(cfg, State(0, map[], map[]), run), Reserve(c)))
  {
    var s := After(cfg, State(0, map[], map[]), run);
    SoundAfter(cfg, State(0, map[], map[]), run);
    hide Epoch;
    assert ReadingHolds(cfg, s, s.callers[c]);
    forall k | k < Epoch(cfg, s.now) - 1
      ensures CountAt(s.table, k, s.now) == 0
    {
      OlderWindowsGone(cfg, s, k);
    }
    CoveredGrant(cfg, s, c);
  }

  // The state with another window in place of the current epoch's.
  function WithCurrent(cfg: Config, s: State, window: Window): State
    requires cfg.period > 0
  {
    s.(table := s.table[Epoch(cfg, s.now) := window])
  }

  // If the caller is granted its reservation, the address is within budget.
  ghost predicate GrantWithin(cfg: Config, s: State, c: nat)
    requires cfg.period > 0 && Enabled(s, Reserve(c))
  {
    var s' := Apply(cfg, s, Reserve(c));
    s'.callers[c].Granted? ==> WithinBudget(cfg, s')
  }

  // Whatever the current epoch's counter holds up to the limit, a grant leaves the address within budget.
  ghost predicate GrantsWithinBudget(cfg: Config, s: State, c: nat)
    requires cfg.period > 0 && Enabled(s, Reserve(c))
  {
    forall window: Window | 0 <= window.count <= cfg.limit && window.expiresAt <= s.now + cfg.length ::
      GrantWithin(cfg, WithCurrent(cfg, s, window), c)
  }

  // What holds in every run, straddling or not.
  ghost predicate Ordinary(cfg: Config, s: State)
    requires cfg.period > 0
  {
    && NonNegative(s.table)
    && forall c :: c in s.callers && !s.callers[c].Gone? ==>
         && s.callers[c].epoch <= Epoch(cfg, s.now)
         && (s.callers[c].Counted? ==> 0 <= s.callers[c].used < cfg.limit)
  }

  lemma {:induction false} OrdinaryAfter(cfg: Config, s: State, run: seq<Action>)
    requires cfg.Valid() && Ordinary(cfg, s) && Legal(cfg, s, run)
    ensures Ordinary(cfg, After(cfg, s, run))
    decreases |run|
  {
    hide Epoch;
    if run != [] {
      if run[0].Tick? {
        EpochMonotone(cfg, s.now, run[0].time);
      }
      assert Ordinary(cfg, Apply(cfg, s, run[0]));
      OrdinaryAfter(cfg, Apply(cfg, s, run[0]), run[1..]);
    }
  }

  // No counter of an epoch before k is alive.
  ghost predicate NoneAliveBefore(s: State, k: int) {
    forall j :: j < k ==> CountAt(s.table, j, s.now) == 0
  }

  // When a reservation is safe, for every caller about to reserve. In the epoch of its keys: exactly if the
  // previous epoch's count has not grown since the caller read it and no older counter is alive. After that
  // epoch: only if it is refused, or counts in nothing while no other earlier counter is alive either.
  ghost predicate SafeToReserve(cfg: Config, s: State, c: nat)
    requires cfg.period > 0 && Enabled(s, Reserve(c))
  {
    var e := Epoch(cfg, s.now);
    if InItsEpoch(cfg, s, Reserve(c)) then
      CountAt(s.table, e - 1, s.now) <= s.callers[c].used && NoneAliveBefore(s, e - 1)
    else
      || Apply(cfg, s, Reserve(c)).callers[c].Refusing?
      || (AtLastInstant(cfg.backend, s.table, s.callers[c].epoch, s.now) && NoneAliveBefore(s, e))
  }

  lemma GrantSafeIff(cfg: Config, run: seq<Action>, c: nat)
    requires cfg.Valid() && Legal(cfg, State(0, map[], map[]), run)
    requires Enabled(After(cfg, State(0, map[], map[]), run), Reserve(c))
    ensures var s := After(cfg, State(0, map[], map[]), run);
            GrantsWithinBudget(cfg, s, c) <==> SafeToReserve(cfg, s, c)
  {
    var s := After(cfg, State(0, map[], map[]), run);
    OrdinaryAfter(cfg, State(0, map[], map[]), run);
    hide Epoch, GrantsWithinBudget, SafeToReserve;
    if InItsEpoch(cfg, s, Reserve(c)) {
      SafeInEpochIff(cfg, s, c);
    } else {
      SafeAfterEpochIff(cfg, s, c);
    }
  }

  lemma SafeInEpochIff(cfg: Config, s: State, c: nat)
    requires cfg.Valid() && Ordinary(cfg, s) && Enabled(s, Reserve(c)) && InItsEpoch(cfg, s, Reserve(c))
    ensures GrantsWithinBudget(cfg, s, c) <==> SafeToReserve(cfg, s, c)
  {
    var e, used := Epoch(cfg, s.now), s.callers[c].used;
    hide Epoch;
    if SafeToReserve(cfg, s, c) {
      forall window: Window | 0 <= window.count <= cfg.limit && window.expiresAt <= s.now + cfg.length
        ensures GrantWithin(cfg, WithCurrent(cfg, s, window), c)
      {
        OneCounter(s.table, WithCurrent(cfg, s, window).table, e, s.now);
        CoveredGrant(cfg, WithCurrent(cfg, s, window), c);
      }
    } else {
      var window := Window(cfg.limit - used - 1, s.now + cfg.length);
      var s' := Apply(cfg, WithCurrent(cfg, s, window), Reserve(c));
      assert s'.callers[c].Granted? && CountAt(s'.table, e, s.now) == cfg.limit - used;
      OneCounter(s.table, s'.table, e, s.now);
      assert !GrantWithin(cfg, WithCurrent(cfg, s, window), c);
    }
  }

  // A grant in the epoch of its keys, on a reading that covers the previous epoch's count.
  lemma CoveredGrant(cfg: Config, s: State, c: nat)
    requires cfg.Valid() && Enabled(s, Reserve(c)) && InItsEpoch(cfg, s, Reserve(c))
    requires CountAt(s.table, Epoch(cfg, s.now) - 1, s.now) <= s.callers[c].used
    requires NonNegative(s.table) && NoneAliveBefore(s, Epoch(cfg, s.now) - 1)
    ensures GrantWithin(cfg, s, c)
  {
    hide Epoch;
    var s' := Apply(cfg, s, Reserve(c));
    OneCounter(s.table, s'.table, Epoch(cfg, s.now), s.now);
  }

  // Changing one window changes no other count.
  lemma OneCounter(t: Table<int>, t': Table<int>, k: int, now: int)
    requires k in t' && t' == t[k := t'[k]]
    ensures forall j :: j != k ==> CountAt(t', j, now) == CountAt(t, j, now)
  {
  }

  lemma SafeAfterEpochIff(cfg: Config, s: State, c: nat)
    requires cfg.Valid() && Ordinary(cfg, s) && Enabled(s, Reserve(c)) && !InItsEpoch(cfg, s, Reserve(c))
    ensures GrantsWithinBudget(cfg, s, c) <==> SafeToReserve(cfg, s, c)
  {
    var e, k, s1 := Epoch(cfg, s.now), s.callers[c].epoch, Apply(cfg, s, Reserve(c));
    hide Epoch;
    OneCounter(s.table, s1.table, k, s.now);
    assert CountAt(s1.table, k, s.now) == 0 <==> AtLastInstant(cfg.backend, s.table, k, s.now);
    assert AtLastInstant(cfg.backend, s.table, k, s.now) ==> CountAt(s.table, k, s.now) == 0;
    assert NoneAliveBefore(s1, e) <==> AtLastInstant(cfg.backend, s.table, k, s.now) && NoneAliveBefore(s, e);
    if s1.callers[c].Refusing? || NoneAliveBefore(s1, e) {
      forall window: Window | 0 <= window.count <= cfg.limit && window.expiresAt <= s.now + cfg.length
        ensures GrantWithin(cfg, WithCurrent(cfg, s, window), c)
      {
        StraddledFares(cfg, s, c, window);
      }
    } else {
      var window := Window(cfg.limit, s.now + cfg.length);
      StraddledFares(cfg, s, c, window);
      assert !GrantWithin(cfg, WithCurrent(cfg, s, window), c);
    }
  }

  // A straddling reservation fares the same whatever the current window is, and leaves that window alone.
  lemma StraddledFares(cfg: Config, s: State, c: nat, window: Window)
    requires cfg.Valid() && Ordinary(cfg, s) && Enabled(s, Reserve(c)) && !InItsEpoch(cfg, s, Reserve(c))
    requires 0 <= window.count <= cfg.limit
    ensures var e, s1 := Epoch(cfg, s.now), Apply(cfg, s, Reserve(c));
            var s' := Apply(cfg, WithCurrent(cfg, s, window), Reserve(c));
            && s'.callers == s1.callers && s'.now == s.now
            && CountAt(s'.table, e, s.now) == (if s.now < window.expiresAt then window.count else 0)
            && (NoneAliveBefore(s1, e) ==> WithinBudget(cfg, s'))
            && (window.count == cfg.limit && s.now < window.expiresAt && !NoneAliveBefore(s1, e) ==>
                  !WithinBudget(cfg, s'))
  {
    var e, k, s1 := Epoch(cfg, s.now), s.callers[c].epoch, Apply(cfg, s, Reserve(c));
    var s' := Apply(cfg, WithCurrent(cfg, s, window), Reserve(c));
    hide Epoch;
    assert s'.table == s1.table[e := window];
    OneCounter(s1.table, s'.table, e, s.now);
    if !NoneAliveBefore(s1, e) {
      var j :| j < e && CountAt(s1.table, j, s.now) != 0;
      assert CountAt(s'.table, j, s.now) > 0 && CountAt(s'.table, e - 1, s.now) >= 0;
    }
  }

  // One caller that derives its keys just before an epoch ends and reserves just after is enough to let
  // another past the budget.
  lemma StraddlerBreaksBudget(b: Backend) returns (cfg: Config, run: seq<Action>)
    ensures cfg.Valid() && cfg.backend == b && cfg.limit == 1 && Legal(cfg, State(0, map[], map[]), run)
    ensures !NoStraddling(cfg, State(0, map[], map[]), run)
    ensures var s := After(cfg, State(0, map[], map[]), run);
            && Enabled(s, Reserve(1)) && InItsEpoch(cfg, s, Reserve(1))
            && Apply(cfg, s, Reserve(1)).callers[1].Granted? && !WithinBudget(cfg, Apply(cfg, s, Reserve(1)))
  {
    cfg := Config(b, 1, 10, 10);
    var s0 := State(0, map[], map[]);
    run := [DeriveKeys(0), Tick(10), DeriveKeys(1), ReadPrevious(1), ReadPrevious(0), Reserve(0)];
    var s1 := Apply(cfg, s0, run[0]);
    var s2 := Apply(cfg, s1, run[1]);
    var s3 := Apply(cfg, s2, run[2]);
    var s4 := Apply(cfg, s3, run[3]);
    var s5 := Apply(cfg, s4, run[4]);
    var s6 := Apply(cfg, s5, run[5]);
    Unfold(cfg, s5, run[5..]);
    Unfold(cfg, s4, run[4..]);
    Unfold(cfg, s3, run[3..]);
    Unfold(cfg, s2, run[2..]);
    Unfold(cfg, s1, run[1..]);
    Unfold(cfg, s0, run);
  }

  lemma Unfold(cfg: Config, s: State, run: seq<Action>)
    requires cfg.period > 0 && run != [] && Enabled(s, run[0]) && Legal(cfg, Apply(cfg, s, run[0]), run[1..])
    ensures Legal(cfg, s, run) && After(cfg, s, run) == After(cfg, Apply(cfg, s, run[0]), run[1..])
    ensures NoStraddling(cfg, s, run) <==>
      InItsEpoch(cfg, s, run[0]) && NoStraddling(cfg, Apply(cfg, s, run[0]), run[1..])
  {
  }

  // ----- what stays reserved

  predicate HoldsUnit(caller: Caller, k: int) {
    (caller.Granted? || caller.Refusing?) && caller.epoch == k
  }

  function Holders(s: State, k: int): set<nat> {
    set c | c in s.callers && HoldsUnit(s.callers[c], k)
  }

  // No unit is reserved but by a caller that was granted it or is about to hand it back.
  ghost predicate AllAccounted(s: State) {
    NonNegative(s.table) && forall k :: CountAt(s.table, k, s.now) <= |Holders(s, k)|
  }

  lemma HoldersAfterMove(s: State, s': State, c: nat, k: int)
    requires c in s'.callers && s'.callers == s.callers[c := s'.callers[c]]
    ensures var before := c in s.callers && HoldsUnit(s.callers[c], k);
            |Holders(s', k)|
            == |Holders(s, k)| - (if before then 1 else 0) + (if HoldsUnit(s'.callers[c], k) then 1 else 0)
  {
    var rest := Holders(s, k) - {c};
    var before := c in s.callers && HoldsUnit(s.callers[c], k);
    forall x
      ensures x in Holders(s, k) <==> x in rest || (x == c && before)
      ensures x in Holders(s', k) <==> x in rest || (x == c && HoldsUnit(s'.callers[c], k))
    {
    }
    OneMember(Holders(s, k), rest, c, before);
    OneMember(Holders(s', k), rest, c, HoldsUnit(s'.callers[c], k));
  }

  lemma OneMember(whole: set<nat>, rest: set<nat>, c: nat, member: bool)
    requires c !in rest && forall x :: x in whole <==> x in rest || (x == c && member)
    ensures |whole| == |rest| + if member then 1 else 0
  {
    assert whole == if member then rest + {c} else rest;
  }

  lemma AccountedStep(cfg: Config, s: State, a: Action)
    requires cfg.Valid() && AllAccounted(s) && Enabled(s, a)
    ensures AllAccounted(Apply(cfg, s, a))
  {
    var s' := Apply(cfg, s, a);
    forall k
      ensures CountAt(s'.table, k, s'.now) <= |Holders(s', k)|
    {
      if a.Tick? {
        assert Holders(s', k) == Holders(s, k);
      } else {
        HoldersAfterMove(s, s', a.caller, k);
      }
    }
  }

  // Over any run, straddling or not, refused callers that are gone leave nothing behind.
  lemma {:induction false} NothingLeftReserved(cfg: Config, s: State, run: seq<Action>)
    requires cfg.Valid() && AllAccounted(s) && Legal(cfg, s, run)
    ensures AllAccounted(After(cfg, s, run))
    decreases |run|
  {
    if run != [] {
      AccountedStep(cfg, s, run[0]);
      NothingLeftReserved(cfg, Apply(cfg, s, run[0]), run[1..]);
    }
  }
}
