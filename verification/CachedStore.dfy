// The write-through cache of sim/state_cached.go, write by write: the disk
// first, then memory, then the id order, with a crash or a failed database
// call possible between any two of them.

module CachedStores {
  import opened ByteOrder
  import opened OrderedIdLists

  /** The operations that change a store, prune's batches included. */
  datatype Op<!V> =
    | Put(id: Id, item: V)
    | Delete(id: Id)
    | Update(id: Id, fn: V -> V)
    | Upsert(id: Id, zero: V, fn: V -> V)
    | PruneBatch(keys: seq<Id>, expired: V -> bool)

  /** What the operation means on a plain map. */
  function Effect<V>(op: Op<V>, m: map<Id, V>): (m': map<Id, V>) {
    match op
    case Put(id, item) => m[id := item]
    case Delete(id) => m - {id}
    case Update(id, fn) => if id in m then m[id := fn(m[id])] else m
    case Upsert(id, zero, fn) => m[id := fn(if id in m then m[id] else zero)]
    case PruneBatch(keys, expired) => map id | id in m && !(id in keys && expired(m[id])) :: m[id]
  }

  /** The rows one operation writes and the ids it drops, decided once under the lock. */
  datatype Write<V> = Write(rows: map<Id, V>, gone: set<Id>)

  function Written<V>(m: map<Id, V>, w: Write<V>): (m': map<Id, V>) {
    m + w.rows - w.gone
  }

  /**
   * How the code decides: new values are computed from memory, except that a
   * prune batch reads its candidates from the disk transaction.
   */
  function Plan<V>(op: Op<V>, disk: map<Id, V>, items: map<Id, V>): (w: Write<V>) {
    match op
    case Put(id, item) => Write(map[id := item], {})
    case Delete(id) => Write(map[], {id})
    case Update(id, fn) => if id in items then Write(map[id := fn(items[id])], {}) else Write(map[], {})
    case Upsert(id, zero, fn) => Write(map[id := fn(if id in items then items[id] else zero)], {})
    case PruneBatch(keys, expired) => Write(map[], set id | id in disk && id in keys && expired(disk[id]))
  }

  /** The write lock: who holds it and how far the operation is. `start` is the disk when it took the lock. */
  datatype Phase<!V> =
    | Unlocked
    | Locked(op: Op<V>, start: map<Id, V>)
    | OnDisk(op: Op<V>, start: map<Id, V>, w: Write<V>)
    | InMemory(op: Op<V>, start: map<Id, V>, w: Write<V>)

  datatype State<!V> = State(disk: map<Id, V>, items: map<Id, V>, order: seq<Id>, phase: Phase<V>)

  datatype Step<!V> = Begin(op: Op<V>) | Fail | WriteDisk | WriteMemory | WriteOrder | Crash

  predicate Enabled<V>(s: State<V>, step: Step<V>) {
    match step
    case Begin(_) => s.phase.Unlocked?
    case Fail => s.phase.Locked?
    case WriteDisk => s.phase.Locked?
    case WriteMemory => s.phase.OnDisk?
    case WriteOrder => s.phase.InMemory?
    case Crash => true
  }

  /** NewCachedSQLiteStore: memory and order from whatever the table holds. */
  function Reload<V>(disk: map<Id, V>): (s: State<V>) {
    State(disk, disk, Sorted(disk.Keys), Unlocked)
  }

  function Apply<V>(s: State<V>, step: Step<V>): (s': State<V>)
    requires Enabled(s, step)
  {
    match step
    case Begin(op) => s.(phase := Locked(op, s.disk))
    case Fail => s.(phase := Unlocked)
    case WriteDisk =>
      var w := Plan(s.phase.op, s.disk, s.items);
      s.(disk := Written(s.disk, w), phase := OnDisk(s.phase.op, s.phase.start, w))
    case WriteMemory =>
      s.(items := Written(s.items, s.phase.w), phase := InMemory(s.phase.op, s.phase.start, s.phase.w))
    case WriteOrder =>
      var held := set id | id in s.order;
      s.(order := Sorted(held + s.phase.w.rows.Keys - s.phase.w.gone), phase := Unlocked)
    case Crash => Reload(s.disk)
  }

  ghost predicate Run<V>(states: seq<State<V>>, steps: seq<Step<V>>) {
    && |states| == |steps| + 1
    && states[0] == Reload(states[0].disk)
    && forall i :: 0 <= i < |steps| ==> Enabled(states[i], steps[i]) && states[i + 1] == Apply(states[i], steps[i])
  }

  /** Planned from equal copies, the write is the operation's meaning. */
  lemma PlanIsEffect<V>(op: Op<V>, m: map<Id, V>)
    ensures Written(m, Plan(op, m, m)) == Effect(op, m)
  {
  }

  /** How disk, memory and order relate at each point of an operation. */
  ghost predicate Inv<V>(s: State<V>) {
    match s.phase
    case Unlocked => s.items == s.disk && s.order == Sorted(s.disk.Keys)
    case Locked(op, start) => start == s.disk && s.items == s.disk && s.order == Sorted(s.disk.Keys)
    case OnDisk(op, start, w) =>
      && s.disk == Effect(op, start) && w == Plan(op, start, start)
      && s.items == start && s.order == Sorted(start.Keys)
    case InMemory(op, start, w) =>
      && s.disk == Effect(op, start) && w == Plan(op, start, start)
      && s.items == s.disk && s.order == Sorted(start.Keys)
  }

  lemma OrderFollows<V>(m: map<Id, V>, w: Write<V>)
    ensures Sorted((set id | id in Sorted(m.Keys)) + w.rows.Keys - w.gone) == Sorted(Written(m, w).Keys)
  {
    SortedIsAscending(m.Keys);
    assert (set id | id in Sorted(m.Keys)) + w.rows.Keys - w.gone == Written(m, w).Keys;
  }

  lemma StepKeeps<V>(s: State<V>, step: Step<V>)
    requires Inv(s) && Enabled(s, step)
    ensures Inv(Apply(s, step))
  {
    match step
    case WriteDisk => PlanIsEffect(s.phase.op, s.disk);
    case WriteMemory => PlanIsEffect(s.phase.op, s.items);
    case WriteOrder =>
      PlanIsEffect(s.phase.op, s.phase.start);
      OrderFollows(s.phase.start, s.phase.w);
    case _ =>
  }

  lemma {:induction false} RunKeepsInv<V>(states: seq<State<V>>, steps: seq<Step<V>>, i: nat)
    requires Run(states, steps) && i < |states|
    ensures Inv(states[i])
    decreases i
  {
    if i > 0 {
      RunKeepsInv(states, steps, i - 1);
      StepKeeps(states[i - 1], steps[i - 1]);
    }
  }

  /**
   * Whenever the lock is free, so whenever a reader looks, memory, id order and
   * disk agree: whatever a reader sees has already reached the disk.
   */
  lemma ReadersSeeTheDisk<V>(states: seq<State<V>>, steps: seq<Step<V>>, i: nat)
    requires Run(states, steps) && i < |states| && states[i].phase.Unlocked?
    ensures states[i].items == states[i].disk && states[i].order == Sorted(states[i].items.Keys)
  {
    RunKeepsInv(states, steps, i);
  }

  /** A crash at any point, then a reload, leaves the state before or after the interrupted operation. */
  lemma CrashIsAllOrNothing<V>(states: seq<State<V>>, steps: seq<Step<V>>, i: nat)
    requires Run(states, steps) && i < |states|
    ensures var s := states[i]; var reloaded := Apply(s, Crash);
      && reloaded.phase.Unlocked? && reloaded.items == reloaded.disk && reloaded.order == Sorted(reloaded.items.Keys)
      && (s.phase.Unlocked? ==> reloaded == s)
      && (s.phase.Locked? ==> reloaded.items == s.phase.start)
      && (s.phase.OnDisk? || s.phase.InMemory? ==> reloaded.items == Effect(s.phase.op, s.phase.start))
  {
    RunKeepsInv(states, steps, i);
  }

  // Refinement of a plain map.

  /** The operations whose row write reached the disk in the first n steps, in order. */
  function Committed<V>(states: seq<State<V>>, steps: seq<Step<V>>, n: nat): (ops: seq<Op<V>>)
    requires |states| == |steps| + 1 && n <= |steps|
  {
    if n == 0 then []
    else
      var now := if steps[n - 1].WriteDisk? && states[n - 1].phase.Locked? then [states[n - 1].phase.op] else [];
      Committed(states, steps, n - 1) + now
  }

  /** A plain map after a sequence of operations. */
  function AfterAll<V>(m: map<Id, V>, ops: seq<Op<V>>): (m': map<Id, V>) {
    if ops == [] then m else Effect(ops[|ops| - 1], AfterAll(m, ops[..|ops| - 1]))
  }

  lemma UnlockedAgrees<V>(s: State<V>)
    requires Inv(s)
    ensures s.phase.Unlocked? ==> s.items == s.disk
  {
  }

  /** Only the row write changes the disk, and it does what the operation means. */
  lemma StepWritesEffect<V>(s: State<V>, step: Step<V>)
    requires Inv(s) && Enabled(s, step)
    ensures step.WriteDisk? ==> s.phase.Locked?
    ensures Apply(s, step).disk == if step.WriteDisk? then Effect(s.phase.op, s.disk) else s.disk
  {
    hide Effect, Plan, Written;
    if step.WriteDisk? {
      PlanIsEffect(s.phase.op, s.disk);
    }
  }

  lemma NothingCommitted<V>(states: seq<State<V>>, steps: seq<Step<V>>)
    requires |states| == |steps| + 1
    ensures Committed(states, steps, 0) == [] && AfterAll(states[0].disk, []) == states[0].disk
  {
  }

  lemma CommitsOneMore<V>(states: seq<State<V>>, steps: seq<Step<V>>, n: nat)
    requires |states| == |steps| + 1 && 0 < n <= |steps|
    ensures var before := Committed(states, steps, n - 1);
      Committed(states, steps, n) == if steps[n - 1].WriteDisk? && states[n - 1].phase.Locked? then before + [states[n - 1].phase.op] else before
  {
  }

  lemma AfterOneMore<V>(m: map<Id, V>, before: seq<Op<V>>, now: seq<Op<V>>)
    ensures now != [] && now[..|now| - 1] == before ==> AfterAll(m, now) == Effect(now[|now| - 1], AfterAll(m, before))
  {
  }

  /**
   * Every run is a run of a plain map: the disk is the committed operations
   * applied one after another, through crashes and failures, and once the lock
   * is free that is what readers see.
   */
  lemma {:induction false} CacheRefinesAPlainMap<V>(states: seq<State<V>>, steps: seq<Step<V>>, n: nat)
    requires Run(states, steps) && n < |states|
    ensures states[n].disk == AfterAll(states[0].disk, Committed(states, steps, n))
    ensures states[n].phase.Unlocked? ==> states[n].items == AfterAll(states[0].disk, Committed(states, steps, n))
    decreases n
  {
    RunKeepsInv(states, steps, n);
    UnlockedAgrees(states[n]);
    hide Inv, Effect, Enabled, Apply, AfterAll;
    if n == 0 {
      NothingCommitted(states, steps);
    } else {
      CacheRefinesAPlainMap(states, steps, n - 1);
      RunKeepsInv(states, steps, n - 1);
      StepWritesEffect(states[n - 1], steps[n - 1]);
      CommitsOneMore(states, steps, n);
      AfterOneMore(states[0].disk, Committed(states, steps, n - 1), Committed(states, steps, n));
    }
  }

  /** A phase is entered only from the one before it. */
  lemma PhaseComesFrom<V>(states: seq<State<V>>, steps: seq<Step<V>>, n: nat)
    requires Run(states, steps) && n < |states|
    ensures states[n].phase.InMemory? ==>
      && n > 0 && steps[n - 1].WriteMemory? && states[n - 1].phase.OnDisk?
      && states[n - 1].phase.op == states[n].phase.op && states[n - 1].disk == states[n].disk
    ensures states[n].phase.OnDisk? ==>
      && n > 0 && steps[n - 1].WriteDisk? && states[n - 1].phase.Locked?
      && states[n - 1].phase.op == states[n].phase.op
    ensures states[n].phase.Locked? ==>
      && n > 0 && steps[n - 1] == Begin(states[n].phase.op) && states[n - 1].phase.Unlocked?
      && states[n - 1].disk == states[n].disk
  {
  }

  /**
   * An operation that runs to its end is four steps, one of which changes the
   * disk: to the operation's effect on what was there when it took the lock.
   */
  lemma OperationTakesEffectOnce<V>(states: seq<State<V>>, steps: seq<Step<V>>, n: nat)
    requires Run(states, steps) && 0 < n < |states| && steps[n - 1].WriteOrder?
    ensures n >= 4 && steps[n - 4].Begin? && steps[n - 3].WriteDisk? && steps[n - 2].WriteMemory?
    ensures states[n - 3].disk == states[n - 4].disk == states[n - 4].items
    ensures states[n - 2].disk == Effect(steps[n - 4].op, states[n - 4].disk)
    ensures states[n].items == states[n].disk == states[n - 1].disk == states[n - 2].disk
  {
    PhaseComesFrom(states, steps, n - 1);
    PhaseComesFrom(states, steps, n - 2);
    PhaseComesFrom(states, steps, n - 3);
    RunKeepsInv(states, steps, n - 4);
    RunKeepsInv(states, steps, n - 2);
    RunKeepsInv(states, steps, n - 3);
    RunKeepsInv(states, steps, n);
  }
}
