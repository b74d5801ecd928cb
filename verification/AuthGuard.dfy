// Attempt budgets for credential checks: a unit is reserved up front, handed back when the attempt is
// refused or turns out fine, and kept when it fails.
module AuthGuard {
  import opened Wrappers
  import opened RateLimit

  const ACCOUNT_PREFIX := "auth:acct:"
  const ADDRESS_PREFIX := "auth:ip:"
  const DEFAULT_WINDOW_MINUTES: int := 15

  function WindowLength(minutes: int): int {
    if minutes <= 0 then DEFAULT_WINDOW_MINUTES else minutes
  }

  // ----- lockout

  datatype Login = Login(failures: nat, lockedUntil: Option<int>)

  class UserStore {
    var users: map<string, Login>

    method IncrementFailedLogins(id: string)
      requires id in users
      modifies this
      ensures users == old(users)[id := old(users)[id].(failures := old(users)[id].failures + 1)]
    {
      users := users[id := users[id].(failures := users[id].failures + 1)];
    }

    method LockUser(id: string, until: int)
      requires id in users
      modifies this
      ensures users == old(users)[id := old(users)[id].(lockedUntil := Some(until))]
    {
      users := users[id := users[id].(lockedUntil := Some(until))];
    }
  }

  // ----- one attempt

  class Attempt {
    const limiter: MemoryLimiter?
    var keys: seq<string>
    var failed: bool

    ghost predicate Valid()
      reads this, limiter
    {
      && (limiter != null ==> limiter.Valid())
      && (limiter == null ==> keys == [])
      && (forall i, j :: 0 <= i < j < |keys| ==> keys[i] != keys[j])
    }

    constructor (limiter: MemoryLimiter?)
      requires limiter != null ==> limiter.Valid()
      ensures Valid() && this.limiter == limiter && keys == [] && !failed
    {
      this.limiter, keys, failed := limiter, [], false;
    }

    // A failed attempt keeps its units. A known user's failure is counted, and locks the account when it
    // is one too many by the attempt's own copy of the user.
    method Fail(store: UserStore, user: Option<(string, nat)>, maxFailed: nat, lockout: int, now: int)
      requires user.Some? ==> user.value.0 in store.users
      modifies this`failed, store
      ensures failed
      ensures user.None? ==> store.users == old(store.users)
      ensures user.Some? ==>
        var id, was := user.value.0, old(store.users)[user.value.0];
        store.users == old(store.users)[id := Login(was.failures + 1,
          if user.value.1 + 1 >= maxFailed then Some(now + lockout) else was.lockedUntil)]
    {
      failed := true;
      if user.None? {
        return;
      }
      store.IncrementFailedLogins(user.value.0);
      if user.value.1 + 1 >= maxFailed {
        store.LockUser(user.value.0, now + lockout);
      }
    }

    // Refunds every unit unless the attempt failed.
    method End(now: int)
      requires Valid()
      modifies this`keys, limiter
      ensures Valid()
      ensures failed && limiter != null ==> limiter.windows == old(limiter.windows)
      ensures !failed ==> keys == []
      ensures !failed && limiter != null ==> Refunded(old(limiter.windows), limiter.windows, old(keys), now)
    {
      if !failed {
        Release(now);
      }
    }

    method Release(now: int)
      requires Valid()
      modifies this`keys, limiter
      ensures Valid() && keys == []
      ensures limiter != null ==> Refunded(old(limiter.windows), limiter.windows, old(keys), now)
    {
      for i := 0 to |keys|
        invariant Valid() && keys == old(keys)
        invariant limiter != null ==> Refunded(old(limiter.windows), limiter.windows, keys[..i], now)
      {
        limiter.Release(keys[i], now);
        assert keys[..i + 1] == keys[..i] + [keys[i]];
      }
      assert keys[..|keys|] == keys;
      keys := [];
    }
  }

  // Each listed key lost one unit, if it had any left; no other counter changed.
  ghost predicate Refunded(before: Table<string>, after: Table<string>, keys: seq<string>, now: int) {
    forall k :: CountAt(after, k, now) ==
      if k in keys && CountAt(before, k, now) > 0 then CountAt(before, k, now) - 1 else CountAt(before, k, now)
  }

  // Each listed key was charged one attempt; no other counter changed.
  ghost predicate Charged(before: Table<string>, after: Table<string>, keys: seq<string>, now: int, length: int) {
    && (forall k :: k in keys ==> k in after && after[k] == Taken(Memory, before, k, now, length))
    && (forall k :: k !in keys ==> Untouched(before, after, k, now))
  }

  // Ending an attempt that did not fail undoes its beginning.
  lemma BeginThenEnd(before: Table<string>, during: Table<string>, after: Table<string>, keys: seq<string>, now: int,
                     length: int)
    requires NonNegative(before) && length > 0
    requires Charged(before, during, keys, now, length) && Refunded(during, after, keys, now)
    ensures forall k :: CountAt(after, k, now) == CountAt(before, k, now)
  {
  }

  // One more key charged, after the others.
  lemma ChargeOneMore(before: Table<string>, during: Table<string>, after: Table<string>, keys: seq<string>,
                      key: string,
                      now: int, length: int)
    requires length > 0 && Charged(before, during, keys, now, length) && key !in keys
    requires key in after && after[key] == Taken(Memory, during, key, now, length)
    requires forall k :: k != key ==> Untouched(during, after, k, now)
    ensures Charged(before, after, keys + [key], now, length)
  {
    assert Untouched(before, during, key, now);
    forall k | k in keys + [key]
      ensures k in after && after[k] == Taken(Memory, before, k, now, length)
    {
      if k != key {
        assert Untouched(during, after, k, now);
      }
    }
    forall k | k !in keys + [key]
      ensures Untouched(before, after, k, now)
    {
      assert Untouched(before, during, k, now) && Untouched(during, after, k, now);
    }
  }

  lemma PrefixesDiffer(account: string, address: string)
    ensures ACCOUNT_PREFIX + account != ADDRESS_PREFIX + address
  {
    assert (ACCOUNT_PREFIX + account)[5] == 'a' && (ADDRESS_PREFIX + address)[5] == 'i';
  }

  function PreviousKey(previous: string): string {
    if previous == "" then "" else ADDRESS_PREFIX + previous
  }

  // Charging other keys does not change whether an address is granted.
  lemma ChargesApart(before: Table<string>, during: Table<string>, keys: seq<string>, current: string, previous: string,
                     limit: int, length: int, now: int)
    requires Charged(before, during, keys, now, length) && current !in keys && previous !in keys
    ensures GrantsIP(before, current, previous, limit, length, now) <==>
            GrantsIP(during, current, previous, limit, length, now)
  {
    assert Untouched(before, during, current, now) && Untouched(before, during, previous, now);
  }

  // Both budgets have a unit left.
  predicate Grants(t: Table<string>, account: string, perAccount: int, address: AddressKeys, perAddress: int,
                   length: int, now: int)
  {
    && (perAccount > 0 ==> Taken(Memory, t, ACCOUNT_PREFIX + account, now, length).count <= perAccount)
    && (perAddress > 0 && address.Some? ==>
          GrantsIP(t, ADDRESS_PREFIX + address.value.0, PreviousKey(address.value.1), perAddress, length, now))
  }

  // The attempts of the account, and those of the address in both epochs, that still count.
  lemma GrantsIff(t: Table<string>, account: string, perAccount: int, address: AddressKeys, perAddress: int,
                  length: int, now: int)
    requires NonNegative(t)
    ensures Grants(t, account, perAccount, address, perAddress, length, now) <==>
      && (perAccount > 0 ==> Spent(Memory, t, ACCOUNT_PREFIX + account, now) < perAccount)
      && (perAddress > 0 && address.Some? ==>
            var (current, previous) := address.value;
            Spent(Memory, t, ADDRESS_PREFIX + current, now)
              + (if previous == "" then 0 else CountAt(t, ADDRESS_PREFIX + previous, now)) < perAddress)
  {
    if address.Some? {
      var (current, previous) := address.value;
      assert |PreviousKey(previous)| > 0 <==> previous != "";
      GrantsIPIff(t, ADDRESS_PREFIX + current, PreviousKey(previous), perAddress, length, now);
    }
  }

  // The address's two bucket hashes, if the address is known; the second is empty if earlier epochs are not.
  type AddressKeys = Option<(string, string)>

  // Reserves a unit of each budget. A refused attempt leaves every counter as it was.
  method Begin(limiter: MemoryLimiter?, account: string, perAccount: int, address: AddressKeys, perAddress: int,
               minutes: int, now: int)
    returns (attempt: Attempt?)
    requires limiter != null ==> limiter.Valid()
    requires address.Some? ==> address.value.0 != address.value.1
    modifies limiter
    ensures limiter != null ==> limiter.Valid()
    ensures attempt != null ==>
      fresh(attempt) && attempt.limiter == limiter && attempt.Valid() && !attempt.failed
    ensures limiter == null ==> attempt != null && attempt.keys == []
    ensures limiter != null ==>
      (attempt != null <==>
        Grants(old(limiter.windows), account, perAccount, address, perAddress, WindowLength(minutes), now))
    ensures limiter != null && attempt == null ==>
      forall k :: CountAt(limiter.windows, k, now) == CountAt(old(limiter.windows), k, now)
    ensures limiter != null && attempt != null ==>
      && Charged(old(limiter.windows), limiter.windows, attempt.keys, now, WindowLength(minutes))
      && attempt.keys == (if perAccount > 0 then [ACCOUNT_PREFIX + account] else [])
                         + (if perAddress > 0 && address.Some? then [ADDRESS_PREFIX + address.value.0] else [])
      && (perAccount > 0 ==> CountAt(limiter.windows, ACCOUNT_PREFIX + account, now) <= perAccount)
      && (perAddress > 0 && address.Some? ==>
            CountAt(limiter.windows, ADDRESS_PREFIX + address.value.0, now) <= perAddress)
  {
    attempt := new Attempt(limiter);
    if limiter == null {
      return;
    }
    var length := WindowLength(minutes);
    ghost var before := limiter.windows;
    if perAccount > 0 {
      var allowed := ReserveAccount(attempt, ACCOUNT_PREFIX + account, perAccount, length, now);
      if !allowed {
        return null;
      }
    }
    if perAddress > 0 && address.Some? {
      PrefixesDiffer(account, address.value.0);
      var (current, previous) := address.value;
      var allowed := ReserveAddress(attempt, current, previous, perAddress, length, now, account, before);
      if !allowed {
        return null;
      }
    }
  }

  method ReserveAccount(attempt: Attempt, key: string, limit: int, length: int, now: int) returns (allowed: bool)
    requires attempt.Valid() && attempt.limiter != null && attempt.keys == [] && length > 0
    modifies attempt`keys, attempt.limiter
    ensures attempt.Valid()
    ensures allowed <==> Taken(Memory, old(attempt.limiter.windows), key, now, length).count <= limit
    ensures allowed ==>
      && attempt.keys == [key] && Charged(old(attempt.limiter.windows), attempt.limiter.windows, [key], now, length)
      && CountAt(attempt.limiter.windows, key, now) <= limit
    ensures !allowed ==>
      forall k :: CountAt(attempt.limiter.windows, k, now) == CountAt(old(attempt.limiter.windows), k, now)
  {
    ghost var before := attempt.limiter.windows;
    allowed := attempt.limiter.Allow(key, limit, length, now);
    attempt.keys := attempt.keys + [key];
    ghost var during := attempt.limiter.windows;
    assert Charged(before, during, [key], now, length);
    if !allowed {
      attempt.Release(now);
      BeginThenEnd(before, during, attempt.limiter.windows, [key], now, length);
    }
  }

  method ReserveAddress(attempt: Attempt, current: string, previous: string, limit: int, length: int, now: int,
                        ghost account: string, ghost before: Table<string>)
    returns (allowed: bool)
    requires attempt.Valid() && attempt.limiter != null && length > 0 && current != previous && NonNegative(before)
    requires attempt.keys == [] || attempt.keys == [ACCOUNT_PREFIX + account]
    requires Charged(before, attempt.limiter.windows, attempt.keys, now, length)
    modifies attempt`keys, attempt.limiter
    ensures attempt.Valid()
    ensures allowed <==>
      GrantsIP(before, ADDRESS_PREFIX + current, PreviousKey(previous), limit, length, now)
    ensures allowed ==>
      && attempt.keys == old(attempt.keys) + [ADDRESS_PREFIX + current]
      && Charged(before, attempt.limiter.windows, attempt.keys, now, length)
      && CountAt(attempt.limiter.windows, ADDRESS_PREFIX + current, now) <= limit
      && forall k :: k in old(attempt.keys) ==> Untouched(old(attempt.limiter.windows), attempt.limiter.windows, k, now)
    ensures !allowed ==>
      forall k :: CountAt(attempt.limiter.windows, k, now) == CountAt(before, k, now)
  {
    PrefixesDiffer(account, current);
    PrefixesDiffer(account, previous);
    assert (ADDRESS_PREFIX + current)[|ADDRESS_PREFIX|..] == current;
    assert (ADDRESS_PREFIX + previous)[|ADDRESS_PREFIX|..] == previous;
    assert |ADDRESS_PREFIX + current| > 0;
    ghost var during, keys := attempt.limiter.windows, attempt.keys;
    ChargesApart(before, during, keys, ADDRESS_PREFIX + current, PreviousKey(previous), limit, length, now);
    var key;
    allowed, key := AllowIP(attempt.limiter, ADDRESS_PREFIX + current, PreviousKey(previous), limit, length, now);
    if !allowed {
      attempt.Release(now);
    } else {
      ChargeOneMore(before, during, attempt.limiter.windows, keys, key, now, length);
      attempt.keys := attempt.keys + [key];
    }
  }

  // ----- failed attempts spend both budgets

  // Attempts that were granted and failed, by the keys each charged.
  datatype Failure = Failure(keys: seq<string>, at: int)

  function FailuresOf(failures: seq<Failure>, key: string): nat {
    if failures == [] then 0
    else
      var i := |failures| - 1;
      FailuresOf(failures[..i], key) + if key in failures[i].keys then 1 else 0
  }

  // The tables before, between and after failed attempts, each charged as its beginning says.
  ghost predicate Follows(ts: seq<Table<string>>, failures: seq<Failure>, length: int) {
    && |ts| == |failures| + 1
    && forall i :: 0 <= i < |failures| ==> Charged(ts[i], ts[i + 1], failures[i].keys, failures[i].at, length)
  }

  // All failures on a key within the window of the first are counted in it, whatever else they charge and
  // whatever failures on other keys come between.
  lemma {:induction false} FailuresCounted(ts: seq<Table<string>>, failures: seq<Failure>, length: int, key: string)
    requires Follows(ts, failures, length) && failures != [] && key in failures[0].keys
    requires key in ts[0] ==> ts[0][key].expiresAt < failures[0].at
    requires forall i, j :: 0 <= i < j < |failures| ==> failures[i].at <= failures[j].at < failures[0].at + length
    ensures key in ts[|failures|]
    ensures ts[|failures|][key] == Window(FailuresOf(failures, key), failures[0].at + length)
  {
    var i := |failures| - 1;
    assert FailuresOf(failures[..0], key) == 0;
    if i > 0 {
      var earlier, before := failures[..i], ts[..i + 1];
      assert Follows(before, earlier, length) && before[0] == ts[0] && earlier[0] == failures[0];
      FailuresCounted(before, earlier, length, key);
      assert before[i] == ts[i] && failures[i].at < failures[0].at + length;
      if key !in failures[i].keys {
        assert Untouched(ts[i], ts[i + 1], key, failures[i].at);
      }
    }
    assert Charged(ts[i], ts[i + 1], failures[i].keys, failures[i].at, length);
  }

  // Once the failures from one address within a window reach its limit, every further attempt from it in the
  // window is refused, whatever the account; likewise for an account, whatever the address.
  lemma SpentBudgetRefuses(ts: seq<Table<string>>, failures: seq<Failure>, length: int, key: string, account: string,
                           perAccount: int, address: AddressKeys, perAddress: int, now: int)
    requires Follows(ts, failures, length) && failures != [] && key in failures[0].keys
    requires key in ts[0] ==> ts[0][key].expiresAt < failures[0].at
    requires forall i, j :: 0 <= i < j < |failures| ==> failures[i].at <= failures[j].at < failures[0].at + length
    requires failures[|failures| - 1].at <= now < failures[0].at + length && NonNegative(ts[|failures|])
    requires
      || (address.Some? && key == ADDRESS_PREFIX + address.value.0 && 0 < perAddress <= FailuresOf(failures, key))
      || (key == ACCOUNT_PREFIX + account && 0 < perAccount <= FailuresOf(failures, key))
    ensures !Grants(ts[|failures|], account, perAccount, address, perAddress, length, now)
  {
    FailuresCounted(ts, failures, length, key);
    hide Follows, FailuresOf;
  }

  // ----- all attempts on one account, within one window

  // Attempts by id: holding their unit undecided, failed, and refused but not yet refunded.
  datatype Budget = Budget(now: int, table: Table<string>, inFlight: set<nat>, failed: set<nat>, refused: set<nat>)

  datatype Action =
    | Tick(time: int)
    | Reserve(id: nat)      // the account step of Begin
    | RefusedByIP(id: nat)  // the address step of Begin refuses
    | HandBack(id: nat)     // a refused attempt releases its unit
    | Fail(id: nat)
    | End(id: nat)          // of an attempt that did not fail

  predicate Enabled(s: Budget, key: string, a: Action) {
    match a
    case Tick(time) => s.now <= time && (key in s.table ==> time < s.table[key].expiresAt)
    case Reserve(id) => id !in s.inFlight + s.failed + s.refused
    case RefusedByIP(id) => id in s.inFlight
    case HandBack(id) => id in s.refused
    case Fail(id) => id in s.inFlight
    case End(id) => id in s.inFlight
  }

  function Apply(b: Backend, key: string, limit: int, length: int, s: Budget, a: Action): Budget
    requires Enabled(s, key, a)
  {
    match a
    case Tick(time) => s.(now := time)
    case Reserve(id) =>
      var s' := s.(table := AfterTake(b, s.table, key, s.now, length));
      if s'.table[key].count <= limit then s'.(inFlight := s.inFlight + {id}) else s'.(refused := s.refused + {id})
    case RefusedByIP(id) => s.(inFlight := s.inFlight - {id}, refused := s.refused + {id})
    case HandBack(id) => s.(table := AfterRelease(s.table, key, s.now), refused := s.refused - {id})
    case Fail(id) => s.(inFlight := s.inFlight - {id}, failed := s.failed + {id})
    case End(id) => s.(table := AfterRelease(s.table, key, s.now), inFlight := s.inFlight - {id})
  }

  // The counter is exactly the units out, and the attempts that may still fail or did are within the limit.
  ghost predicate Balanced(s: Budget, key: string, limit: int) {
    && (key in s.table ==> s.now < s.table[key].expiresAt)
    && s.inFlight !! s.failed && s.inFlight !! s.refused && s.failed !! s.refused
    && CountAt(s.table, key, s.now) == |s.inFlight| + |s.failed| + |s.refused|
    && |s.inFlight| + |s.failed| <= limit
  }

  lemma BalancedStep(b: Backend, key: string, limit: int, length: int, s: Budget, a: Action)
    requires length > 0 && Balanced(s, key, limit) && Enabled(s, key, a)
    ensures Balanced(Apply(b, key, limit, length, s, a), key, limit)
  {
  }

  predicate Legal(b: Backend, key: string, limit: int, length: int, s: Budget, run: seq<Action>)
    decreases |run|
  {
    run == []
    || (Enabled(s, key, run[0]) && Legal(b, key, limit, length, Apply(b, key, limit, length, s, run[0]), run[1..]))
  }

  function After(b: Backend, key: string, limit: int, length: int, s: Budget, run: seq<Action>): Budget
    requires Legal(b, key, limit, length, s, run)
    decreases |run|
  {
    if run == [] then s else After(b, key, limit, length, Apply(b, key, limit, length, s, run[0]), run[1..])
  }

  // Any interleaving of any number of attempts keeps the books, from an empty table on.
  lemma {:induction false} BudgetKept(b: Backend, key: string, limit: int, length: int, s: Budget, run: seq<Action>)
    requires length > 0 && Balanced(s, key, limit) && Legal(b, key, limit, length, s, run)
    ensures Balanced(After(b, key, limit, length, s, run), key, limit)
    ensures CountAt(After(b, key, limit, length, s, run).table, key, After(b, key, limit, length, s, run).now) >= 0
    decreases |run|
  {
    if run != [] {
      BalancedStep(b, key, limit, length, s, run[0]);
      BudgetKept(b, key, limit, length, Apply(b, key, limit, length, s, run[0]), run[1..]);
    }
  }

  lemma EmptyBudgetBalanced(key: string, limit: nat, now: int)
    ensures Balanced(Budget(now, map[], {}, {}, {}), key, limit)
  {
  }
}
