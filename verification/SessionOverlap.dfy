// Completions of one-shot sessions when the lookup and the drop are separate steps, each under its own
// lock. What a completion finds it may use, until it drops the session; one that gives up leaves it.
module SessionOverlap {

  // found tells which session each completion got hold of; the open ones have neither dropped theirs nor
  // given up; uses are the completions that signed, or handed the key out.
  datatype Table =
    Table(sessions: set<string>, issued: set<string>, found: map<nat, string>, open: set<nat>, uses: set<nat>)

  const EMPTY := Table({}, {}, map[], {}, {})

  datatype Action =
    | Open(id: string)
    | LookUp(completion: nat, id: string)
    | Use(completion: nat)
    | Drop(completion: nat)
    | GiveUp(completion: nat)
    | Expire(id: string)

  predicate Enabled(t: Table, a: Action) {
    match a
    case Open(id) => id !in t.issued
    case LookUp(completion, _) => completion !in t.found
    case Use(completion) => completion in t.open && completion in t.found
    case Drop(completion) => completion in t.open && completion in t.found
    case GiveUp(completion) => completion in t.open && completion !in t.uses
    case Expire(_) => true
  }

  function Apply(t: Table, a: Action): Table
    requires Enabled(t, a)
  {
    match a
    case Open(id) => t.(sessions := t.sessions + {id}, issued := t.issued + {id})
    case LookUp(completion, id) =>
      if id in t.sessions then t.(found := t.found[completion := id], open := t.open + {completion}) else t
    case Use(completion) => t.(uses := t.uses + {completion})
    case Drop(completion) =>
      t.(sessions := t.sessions - {t.found[completion]}, open := t.open - {completion})
    case GiveUp(completion) => t.(open := t.open - {completion})
    case Expire(id) => t.(sessions := t.sessions - {id})
  }

  predicate Legal(t: Table, run: seq<Action>)
    decreases |run|
  {
    run == [] || (Enabled(t, run[0]) && Legal(Apply(t, run[0]), run[1..]))
  }

  function After(t: Table, run: seq<Action>): Table
    requires Legal(t, run)
    decreases |run|
  {
    if run == [] then t else After(Apply(t, run[0]), run[1..])
  }

  // Both completions used, and the session they used is the same.
  predicate UseTheSame(t: Table, j: nat, k: nat) {
    j in t.uses && k in t.uses && j in t.found && k in t.found && t.found[j] == t.found[k]
  }

  // k finds a session that j has found and not let go of.
  predicate Overlaps(t: Table, a: Action, j: nat, k: nat) {
    && a.LookUp? && a.completion == k && a.id in t.sessions
    && j in t.open && j in t.found && t.found[j] == a.id
  }

  predicate Overlap(t: Table, run: seq<Action>, j: nat, k: nat)
    requires Legal(t, run)
    decreases |run|
  {
    run != [] && (Overlaps(t, run[0], j, k) || Overlap(Apply(t, run[0]), run[1..], j, k))
  }

  // A session that was used is either still being completed or gone for good.
  ghost predicate Consistent(t: Table) {
    && t.sessions <= t.issued && t.open <= t.found.Keys && t.uses <= t.found.Keys
    && (forall k :: k in t.found ==> t.found[k] in t.issued)
    && (forall k :: k in t.uses ==> k in t.open || t.found[k] !in t.sessions)
  }

  lemma ConsistentStep(t: Table, a: Action)
    requires Consistent(t) && Enabled(t, a)
    ensures Consistent(Apply(t, a))
  {
  }

  // A completion that let go of its session without using it never does.
  lemma {:induction false} NeverUses(t: Table, run: seq<Action>, k: nat)
    requires Consistent(t) && Legal(t, run) && k in t.found && k !in t.open && k !in t.uses
    ensures k !in After(t, run).uses
    decreases |run|
  {
    if run != [] {
      ConsistentStep(t, run[0]);
      NeverUses(Apply(t, run[0]), run[1..], k);
    }
  }

  // Both found the same session by now.
  predicate FoundTheSame(t: Table, j: nat, k: nat) {
    j in t.found && k in t.found && t.found[j] == t.found[k]
  }

  // For two completions that both come to use what they found.
  lemma {:induction false} OverlapRun(t: Table, run: seq<Action>, j: nat, k: nat)
    requires Consistent(t) && Legal(t, run) && j != k
    requires j in After(t, run).uses && k in After(t, run).uses
    ensures UseTheSame(After(t, run), j, k) <==>
      FoundTheSame(t, j, k) || Overlap(t, run, j, k) || Overlap(t, run, k, j)
    decreases |run|
  {
    if run == [] {
      assert j in t.found && k in t.found;
    } else {
      var t' := Apply(t, run[0]);
      ConsistentStep(t, run[0]);
      OverlapRun(t', run[1..], j, k);
      FoundStep(t, run, j, k);
    }
  }

  // One step makes them hold the same session exactly if it is an overlap.
  lemma FoundStep(t: Table, run: seq<Action>, j: nat, k: nat)
    requires Consistent(t) && run != [] && Legal(t, run) && j != k
    requires j in After(t, run).uses && k in After(t, run).uses
    ensures FoundTheSame(Apply(t, run[0]), j, k) <==>
      FoundTheSame(t, j, k) || Overlaps(t, run[0], j, k) || Overlaps(t, run[0], k, j)
  {
    ConsistentStep(t, run[0]);
    if j in t.found && j !in t.open && j !in t.uses {
      NeverUses(t, run, j);
    }
    if k in t.found && k !in t.open && k !in t.uses {
      NeverUses(t, run, k);
    }
  }

  // In any run, two completions use the same session exactly if both come to use what they found and one
  // of them looked it up between the other's lookup and drop.
  lemma UsedTwiceIffOverlap(run: seq<Action>, j: nat, k: nat)
    requires Legal(EMPTY, run) && j != k
    ensures UseTheSame(After(EMPTY, run), j, k) <==>
      && j in After(EMPTY, run).uses && k in After(EMPTY, run).uses
      && (Overlap(EMPTY, run, j, k) || Overlap(EMPTY, run, k, j))
  {
    if j in After(EMPTY, run).uses && k in After(EMPTY, run).uses {
      OverlapRun(EMPTY, run, j, k);
    }
  }

  // There is a run in which both do.
  lemma OverlapHappens() returns (run: seq<Action>)
    ensures Legal(EMPTY, run) && UseTheSame(After(EMPTY, run), 0, 1)
  {
    run := [Open("s"), LookUp(0, "s"), LookUp(1, "s"), Use(0), Use(1)];
    var t1 := Apply(EMPTY, run[0]);
    var t2 := Apply(t1, run[1]);
    var t3 := Apply(t2, run[2]);
    var t4 := Apply(t3, run[3]);
    Unfold(t4, run[4..]);
    Unfold(t3, run[3..]);
    Unfold(t2, run[2..]);
    Unfold(t1, run[1..]);
    Unfold(EMPTY, run);
  }

  // A completion that gives up, before another that uses: one use.
  lemma GivingUpIsNoUse() returns (run: seq<Action>)
    ensures Legal(EMPTY, run) && After(EMPTY, run).uses == {1} && FoundTheSame(After(EMPTY, run), 0, 1)
  {
    run := [Open("s"), LookUp(0, "s"), GiveUp(0), LookUp(1, "s"), Use(1)];
    var t1 := Apply(EMPTY, run[0]);
    var t2 := Apply(t1, run[1]);
    var t3 := Apply(t2, run[2]);
    var t4 := Apply(t3, run[3]);
    Unfold(t4, run[4..]);
    Unfold(t3, run[3..]);
    Unfold(t2, run[2..]);
    Unfold(t1, run[1..]);
    Unfold(EMPTY, run);
  }

  lemma Unfold(t: Table, run: seq<Action>)
    requires run != [] && Enabled(t, run[0]) && Legal(Apply(t, run[0]), run[1..])
    ensures Legal(t, run) && After(t, run) == After(Apply(t, run[0]), run[1..])
  {
  }
}
