// The self-reclaiming table of per-key locks of sim/keyed_locks.go, as an
// interleaving of any number of threads.

module KeyedLockTable {

  type Key = string

  datatype Holder = Free | HeldBy(thread: nat)

  /** One keyedLock: its mutex and the number of threads that entered and have not left. */
  datatype Entry = Entry(users: int, mutex: Holder)

  /** Where a thread is in Lock and in the release it returns. */
  datatype Pc =
    | Outside
    | Waiting(key: Key, entry: nat)  // counted as a user, awaiting the entry's mutex
    | Holding(key: Key, entry: nat)  // Lock returned
    | Leaving(key: Key, entry: nat)  // release unlocked the entry, not yet the table

  /**
   * The table, every entry ever allocated, and the threads. An entry keeps its
   * identity after the table drops it, as a Go pointer would.
   */
  datatype Table = Table(held: map<Key, nat>, entries: seq<Entry>, threads: seq<Pc>)

  /** The atomic steps: each is one critical section of the table's mutex or one mutex operation. */
  datatype Step = Enter(t: nat, key: Key) | Acquire(t: nat) | Unlock(t: nat) | Leave(t: nat)

  predicate Enabled(s: Table, step: Step) {
    && step.t < |s.threads|
    && match step
       case Enter(t, key) => s.threads[t].Outside? && (key in s.held ==> s.held[key] < |s.entries|)
       case Acquire(t) =>
         s.threads[t].Waiting? && s.threads[t].entry < |s.entries| && s.entries[s.threads[t].entry].mutex == Free
       case Unlock(t) => s.threads[t].Holding? && s.threads[t].entry < |s.entries|
       case Leave(t) => s.threads[t].Leaving? && s.threads[t].entry < |s.entries|
  }

  /** Lock's first critical section: find or create the key's entry and count in. */
  function AfterEnter(s: Table, t: nat, key: Key): (s': Table)
    requires Enabled(s, Enter(t, key))
  {
    var e := if key in s.held then s.held[key] else |s.entries|;
    var entries := if key in s.held then s.entries else s.entries + [Entry(0, Free)];
    Table(s.held[key := e],
          entries[e := entries[e].(users := entries[e].users + 1)],
          s.threads[t := Waiting(key, e)])
  }

  /** release's critical section: count out and drop the key with its last user. */
  function AfterLeave(s: Table, t: nat): (s': Table)
    requires Enabled(s, Leave(t))
  {
    var key, e := s.threads[t].key, s.threads[t].entry;
    var users := s.entries[e].users - 1;
    Table(if users == 0 then s.held - {key} else s.held,
          s.entries[e := s.entries[e].(users := users)],
          s.threads[t := Outside])
  }

  function Apply(s: Table, step: Step): (s': Table)
    requires Enabled(s, step)
  {
    match step
    case Enter(t, key) => AfterEnter(s, t, key)
    case Acquire(t) =>
      var e := s.threads[t].entry;
      s.(entries := s.entries[e := s.entries[e].(mutex := HeldBy(t))],
         threads := s.threads[t := Holding(s.threads[t].key, e)])
    case Unlock(t) =>
      var e := s.threads[t].entry;
      s.(entries := s.entries[e := s.entries[e].(mutex := Free)],
         threads := s.threads[t := Leaving(s.threads[t].key, e)])
    case Leave(t) => AfterLeave(s, t)
  }

  /** A run of any number of threads from the empty table. */
  ghost predicate Run(states: seq<Table>, steps: seq<Step>) {
    && |states| == |steps| + 1
    && states[0].held == map[] && states[0].entries == []
    && (forall t :: 0 <= t < |states[0].threads| ==> states[0].threads[t] == Outside)
    && forall i :: 0 <= i < |steps| ==> Enabled(states[i], steps[i]) && states[i + 1] == Apply(states[i], steps[i])
  }

  function Counts(pc: Pc, e: nat): (n: nat) {
    if !pc.Outside? && pc.entry == e then 1 else 0
  }

  /** How many threads are on entry e. */
  function ThreadsOn(threads: seq<Pc>, e: nat): (n: nat) {
    if threads == [] then 0 else ThreadsOn(threads[1..], e) + Counts(threads[0], e)
  }

  lemma {:induction false} ThreadsOnUpdate(threads: seq<Pc>, t: nat, pc: Pc, e: nat)
    requires t < |threads|
    ensures ThreadsOn(threads[t := pc], e) == ThreadsOn(threads, e) - Counts(threads[t], e) + Counts(pc, e)
    decreases |threads|
  {
    if t > 0 {
      ThreadsOnUpdate(threads[1..], t - 1, pc, e);
      assert threads[t := pc][1..] == threads[1..][t - 1 := pc];
    } else {
      assert threads[t := pc][1..] == threads[1..];
    }
  }

  /** A positive count has a thread behind it, and a thread makes the count positive. */
  lemma {:induction false} ThreadsOnWitness(threads: seq<Pc>, e: nat)
    ensures ThreadsOn(threads, e) > 0 <==> exists t :: 0 <= t < |threads| && Counts(threads[t], e) == 1
    decreases |threads|
  {
    if threads != [] {
      ThreadsOnWitness(threads[1..], e);
      assert forall t :: 0 < t < |threads| ==> threads[t] == threads[1..][t - 1];
      if ThreadsOn(threads[1..], e) > 0 {
        var t :| 0 <= t < |threads[1..]| && Counts(threads[1..][t], e) == 1;
        assert Counts(threads[t + 1], e) == 1;
      }
    }
  }

  ghost predicate Registered(s: Table) {
    && (forall k :: k in s.held ==> s.held[k] < |s.entries|)
    && (forall k, k' :: k in s.held && k' in s.held && s.held[k] == s.held[k'] ==> k == k')
    && (forall t :: 0 <= t < |s.threads| && !s.threads[t].Outside? ==>
          s.threads[t].key in s.held && s.held[s.threads[t].key] == s.threads[t].entry)
  }

  ghost predicate Counted(s: Table) {
    && (forall e: nat :: e < |s.entries| ==> s.entries[e].users == ThreadsOn(s.threads, e))
    && (forall k :: k in s.held && s.held[k] < |s.entries| ==> s.entries[s.held[k]].users > 0)
  }

  ghost predicate Owned(s: Table) {
    && (forall t :: 0 <= t < |s.threads| && s.threads[t].Holding? ==>
          s.threads[t].entry < |s.entries| && s.entries[s.threads[t].entry].mutex == HeldBy(t))
    && (forall e :: 0 <= e < |s.entries| && s.entries[e].mutex.HeldBy? ==>
          var t := s.entries[e].mutex.thread;
          t < |s.threads| && s.threads[t].Holding? && s.threads[t].entry == e)
  }

  ghost predicate Inv(s: Table) {
    Registered(s) && Counted(s) && Owned(s)
  }

  lemma NobodyOnNewEntry(s: Table)
    requires Registered(s)
    ensures ThreadsOn(s.threads, |s.entries|) == 0
  {
    ThreadsOnWitness(s.threads, |s.entries|);
  }

  lemma EnterCounts(s: Table, t: nat, key: Key)
    requires Registered(s) && Counted(s) && Enabled(s, Enter(t, key))
    ensures Counted(AfterEnter(s, t, key))
  {
    var s' := AfterEnter(s, t, key);
    NobodyOnNewEntry(s);
    forall e: nat | e < |s'.entries|
      ensures s'.entries[e].users == ThreadsOn(s'.threads, e)
    {
      ThreadsOnUpdate(s.threads, t, s'.threads[t], e);
    }
  }

  lemma EnterRegisters(s: Table, t: nat, key: Key)
    requires Registered(s) && Enabled(s, Enter(t, key))
    ensures Registered(AfterEnter(s, t, key))
  {
  }

  lemma EnterOwns(s: Table, t: nat, key: Key)
    requires Owned(s) && Enabled(s, Enter(t, key))
    ensures Owned(AfterEnter(s, t, key))
  {
    var s' := AfterEnter(s, t, key);
    forall e | 0 <= e < |s'.entries| && s'.entries[e].mutex.HeldBy?
      ensures e < |s.entries| && s'.entries[e].mutex == s.entries[e].mutex
    {
    }
  }

  /** Moving within Lock and release changes no count. */
  lemma MutexStepCounts(s: Table, s': Table, t: nat)
    requires Counted(s) && t < |s.threads| && !s.threads[t].Outside?
    requires s'.held == s.held && |s'.entries| == |s.entries|
    requires forall e: nat :: e < |s.entries| ==> s'.entries[e].users == s.entries[e].users
    requires |s'.threads| == |s.threads| && s'.threads == s.threads[t := s'.threads[t]]
    requires !s'.threads[t].Outside? && s'.threads[t].entry == s.threads[t].entry
    ensures Counted(s')
  {
    forall e: nat | e < |s'.entries|
      ensures s'.entries[e].users == ThreadsOn(s'.threads, e)
    {
      ThreadsOnUpdate(s.threads, t, s'.threads[t], e);
    }
  }

  lemma MutexStepRegisters(s: Table, step: Step)
    requires Registered(s) && Enabled(s, step) && (step.Acquire? || step.Unlock?)
    ensures Registered(Apply(s, step))
  {
  }

  lemma AcquireOwns(s: Table, t: nat)
    requires Owned(s) && Enabled(s, Acquire(t))
    ensures Owned(Apply(s, Acquire(t)))
  {
  }

  lemma UnlockOwns(s: Table, t: nat)
    requires Owned(s) && Enabled(s, Unlock(t))
    ensures Owned(Apply(s, Unlock(t)))
  {
  }

  lemma LeaveCounts(s: Table, t: nat)
    requires Registered(s) && Counted(s) && Enabled(s, Leave(t))
    ensures Counted(AfterLeave(s, t))
  {
    var s' := AfterLeave(s, t);
    forall e: nat | e < |s'.entries|
      ensures s'.entries[e].users == ThreadsOn(s'.threads, e)
    {
      ThreadsOnUpdate(s.threads, t, Outside, e);
    }
  }

  lemma LeaveRegisters(s: Table, t: nat)
    requires Registered(s) && Enabled(s, Leave(t)) && Counted(AfterLeave(s, t))
    ensures Registered(AfterLeave(s, t))
  {
    var s' := AfterLeave(s, t);
    var gone := s.threads[t].entry;
    ThreadsOnWitness(s'.threads, gone);
    if s'.entries[gone].users == 0 {
      forall u | 0 <= u < |s'.threads| && !s'.threads[u].Outside?
        ensures s'.threads[u].key in s'.held
      {
        assert Counts(s'.threads[u], gone) != 1;
      }
    }
  }

  lemma LeaveOwns(s: Table, t: nat)
    requires Owned(s) && Enabled(s, Leave(t))
    ensures Owned(AfterLeave(s, t))
  {
  }

  lemma StepKeeps(s: Table, step: Step)
    requires Inv(s) && Enabled(s, step)
    ensures Inv(Apply(s, step))
  {
    match step
    case Enter(t, key) =>
      EnterRegisters(s, t, key);
      EnterCounts(s, t, key);
      EnterOwns(s, t, key);
    case Acquire(t) =>
      MutexStepRegisters(s, step);
      MutexStepCounts(s, Apply(s, step), t);
      AcquireOwns(s, t);
    case Unlock(t) =>
      MutexStepRegisters(s, step);
      MutexStepCounts(s, Apply(s, step), t);
      UnlockOwns(s, t);
    case Leave(t) =>
      LeaveCounts(s, t);
      LeaveRegisters(s, t);
      LeaveOwns(s, t);
  }

  lemma {:induction false} RunKeepsInv(states: seq<Table>, steps: seq<Step>, i: nat)
    requires Run(states, steps) && i < |states|
    ensures Inv(states[i])
    decreases i
  {
    if i > 0 {
      RunKeepsInv(states, steps, i - 1);
      StepKeeps(states[i - 1], steps[i - 1]);
    }
  }

  /** At every moment of every run at most one thread holds a key. */
  lemma AtMostOneHolder(states: seq<Table>, steps: seq<Step>, i: nat, t: nat, u: nat)
    requires Run(states, steps) && i < |states| && t < |states[i].threads| && u < |states[i].threads|
    requires states[i].threads[t].Holding? && states[i].threads[u].Holding?
    requires states[i].threads[t].key == states[i].threads[u].key
    ensures t == u
  {
    RunKeepsInv(states, steps, i);
  }

  /**
   * Threads on one key share one entry, threads on two keys never do, the
   * entry's counter is the number of threads on it, and the table holds exactly
   * the keys some thread is on.
   */
  lemma TableIsExactlyTheKeysInUse(states: seq<Table>, steps: seq<Step>, i: nat)
    requires Run(states, steps) && i < |states|
    ensures var s := states[i];
      && (forall t, u :: 0 <= t < |s.threads| && 0 <= u < |s.threads| && !s.threads[t].Outside? && !s.threads[u].Outside? ==>
            (s.threads[t].key == s.threads[u].key <==> s.threads[t].entry == s.threads[u].entry))
      && (forall k :: k in s.held <==> exists t :: 0 <= t < |s.threads| && !s.threads[t].Outside? && s.threads[t].key == k)
      && (forall k :: k in s.held ==>
            s.held[k] < |s.entries| && s.entries[s.held[k]].users == ThreadsOn(s.threads, s.held[k]))
  {
    RunKeepsInv(states, steps, i);
    var s := states[i];
    forall k | k in s.held
      ensures exists t :: 0 <= t < |s.threads| && !s.threads[t].Outside? && s.threads[t].key == k
    {
      ThreadsOnWitness(s.threads, s.held[k]);
      var t :| 0 <= t < |s.threads| && Counts(s.threads[t], s.held[k]) == 1;
      assert s.threads[t].key == k;
    }
  }

  /** A waiting thread is blocked only by a thread that holds its key. */
  lemma WaitersAreNotForgotten(states: seq<Table>, steps: seq<Step>, i: nat, t: nat)
    requires Run(states, steps) && i < |states| && t < |states[i].threads|
    requires states[i].threads[t].Waiting?
    ensures Enabled(states[i], Acquire(t))
         || exists u :: 0 <= u < |states[i].threads| && states[i].threads[u] == Holding(states[i].threads[t].key, states[i].threads[t].entry)
  {
    RunKeepsInv(states, steps, i);
    var s := states[i];
    var e := s.threads[t].entry;
    if s.entries[e].mutex.HeldBy? {
      assert s.threads[s.entries[e].mutex.thread].entry == e;
    }
  }

  // The key a thread asked for.

  /** Thread t takes no step in or out of the table between the two positions. */
  ghost predicate StaysIn(steps: seq<Step>, t: nat, m: nat, n: nat)
    requires n <= |steps|
  {
    forall k :: m < k < n && steps[k].t == t ==> !steps[k].Enter? && !steps[k].Leave?
  }

  lemma StepKeepsKey(s: Table, step: Step, t: nat, key: Key)
    requires Enabled(s, step) && t < |s.threads| && !s.threads[t].Outside? && s.threads[t].key == key
    requires step.t == t ==> !step.Enter? && !step.Leave?
    ensures var s' := Apply(s, step); |s'.threads| == |s.threads| && !s'.threads[t].Outside? && s'.threads[t].key == key
  {
  }

  lemma EntersOnItsKey(s: Table, t: nat, key: Key)
    requires Enabled(s, Enter(t, key))
    ensures var s' := Apply(s, Enter(t, key)); t < |s'.threads| && !s'.threads[t].Outside? && s'.threads[t].key == key
  {
  }

  /** From the step in which a thread asks for a key to the one in which it leaves, it is on that key. */
  lemma {:induction false} AThreadIsOnTheKeyItAskedFor(states: seq<Table>, steps: seq<Step>, m: nat, n: nat, t: nat, key: Key)
    requires Run(states, steps) && m < n <= |steps| && steps[m] == Enter(t, key) && StaysIn(steps, t, m, n)
    ensures t < |states[n].threads| && !states[n].threads[t].Outside? && states[n].threads[t].key == key
    decreases n
  {
    hide Apply;
    if n == m + 1 {
      EntersOnItsKey(states[m], t, key);
    } else {
      AThreadIsOnTheKeyItAskedFor(states, steps, m, n - 1, t, key);
      StepKeepsKey(states[n - 1], steps[n - 1], t, key);
    }
  }

  /** Of two threads that asked for one key and have not left, at most one has it. */
  lemma OneOfTwoCallersHolds(states: seq<Table>, steps: seq<Step>, m: nat, m': nat, n: nat, t: nat, u: nat, key: Key)
    requires Run(states, steps) && m < n <= |steps| && m' < n && t != u
    requires steps[m] == Enter(t, key) && StaysIn(steps, t, m, n)
    requires steps[m'] == Enter(u, key) && StaysIn(steps, u, m', n)
    ensures t < |states[n].threads| && u < |states[n].threads|
    ensures !(states[n].threads[t].Holding? && states[n].threads[u].Holding?)
  {
    hide Run, StaysIn;
    AThreadIsOnTheKeyItAskedFor(states, steps, m, n, t, key);
    AThreadIsOnTheKeyItAskedFor(states, steps, m', n, u, key);
    HasState(states, steps, n);
    if states[n].threads[t].Holding? && states[n].threads[u].Holding? {
      AtMostOneHolder(states, steps, n, t, u);
    }
  }

  lemma HasState(states: seq<Table>, steps: seq<Step>, n: nat)
    requires Run(states, steps) && n <= |steps|
    ensures n < |states|
  {
  }

  /** The four steps of a thread that locks a key nobody is on, and releases it. */
  ghost predicate LocksAndReleases(s: Table, t: nat, key: Key, s1: Table, s2: Table, s3: Table, s': Table) {
    && Enabled(s, Enter(t, key)) && s1 == Apply(s, Enter(t, key))
    && Enabled(s1, Acquire(t)) && s2 == Apply(s1, Acquire(t))
    && Enabled(s2, Unlock(t)) && s3 == Apply(s2, Unlock(t))
    && Enabled(s3, Leave(t)) && s' == Apply(s3, Leave(t))
  }

  /** From every reachable state a thread gets a key nobody is on at once, and releasing it leaves no trace in the table. */
  lemma AFreeKeyIsLockedAndForgotten(states: seq<Table>, steps: seq<Step>, i: nat, t: nat, key: Key) returns (s1: Table, s2: Table, s3: Table, s': Table)
    requires Run(states, steps) && i < |states| && t < |states[i].threads| && states[i].threads[t].Outside?
    requires forall u :: 0 <= u < |states[i].threads| && !states[i].threads[u].Outside? ==> states[i].threads[u].key != key
    ensures LocksAndReleases(states[i], t, key, s1, s2, s3, s')
    ensures t < |s2.threads| && s2.threads[t].Holding? && s2.threads[t].key == key
    ensures s'.held == states[i].held && s'.threads == states[i].threads
  {
    TableIsExactlyTheKeysInUse(states, steps, i);
    hide Run;
    var s := states[i];
    s1 := AfterEnter(s, t, key);
    s2 := Apply(s1, Acquire(t));
    s3 := Apply(s2, Unlock(t));
    s' := Apply(s3, Leave(t));
  }
}
