// Sweeps of expired rows (sim/state_prune.go): batches of keys after a cursor,
// a second look at each candidate inside the deleting transaction, and other
// writers or a busy database before any database call.

module Pruning {
  import opened Common
  import opened ByteOrder
  import opened OrderedIdLists
  import opened MemoryStores

  /** How many rows one sweep step decodes and deletes. */
  const PRUNE_BATCH: nat := 500

  /** One row another caller puts or deletes. */
  datatype Write<V> = Set(id: Id, item: V) | Unset(id: Id)

  /** One database call: the writes others did before it, in order, and whether the database was busy. */
  datatype Event<V> = Event(writes: seq<Write<V>>, busy: bool)

  /** The schedule of a sweep's database calls; past its end nothing interferes. */
  type Schedule<V> = seq<Event<V>>

  function EventAt<V>(schedule: Schedule<V>, n: nat): (e: Event<V>) {
    if n < |schedule| then schedule[n] else Event([], false)
  }

  function WriteOne<V>(rows: map<Id, V>, w: Write<V>): (after: map<Id, V>) {
    match w case Set(id, item) => rows[id := item] case Unset(id) => rows - {id}
  }

  function Written<V>(rows: map<Id, V>, writes: seq<Write<V>>): (after: map<Id, V>) {
    if writes == [] then rows else WriteOne(Written(rows, writes[..|writes| - 1]), writes[|writes| - 1])
  }

  ghost predicate Undisturbed<V>(schedule: Schedule<V>) {
    forall i :: 0 <= i < |schedule| ==> schedule[i] == Event([], false)
  }

  // The history of a table during a sweep: every change, in order, and who made it.

  /** A write of another caller, or a row the sweep deleted with the value it had. */
  datatype Change<V> = ByOther(w: Write<V>) | BySweep(id: Id, item: V)

  function Replay<V>(rows: map<Id, V>, history: seq<Change<V>>): (after: map<Id, V>) {
    if history == [] then rows
    else
      var before := Replay(rows, history[..|history| - 1]);
      match history[|history| - 1] case ByOther(w) => WriteOne(before, w) case BySweep(id, _) => before - {id}
  }

  /** What the sweep deleted at k was there with the recorded value, and that value was expired. */
  ghost predicate ExpiredAt<V>(rows: map<Id, V>, history: seq<Change<V>>, k: nat, expired: V -> bool)
    requires k < |history|
  {
    history[k].BySweep? ==>
      var now := Replay(rows, history[..k]);
      history[k].id in now && now[history[k].id] == history[k].item && expired(history[k].item)
  }

  ghost predicate OnlyExpired<V>(rows: map<Id, V>, history: seq<Change<V>>, expired: V -> bool) {
    forall k :: 0 <= k < |history| ==> ExpiredAt(rows, history, k, expired)
  }

  /** The writes of others in a history, in order. */
  function Others<V>(history: seq<Change<V>>): (writes: seq<Write<V>>) {
    if history == [] then []
    else
      var last := history[|history| - 1];
      Others(history[..|history| - 1]) + if last.ByOther? then [last.w] else []
  }

  /** How many rows the sweep deleted. */
  function Swept<V>(history: seq<Change<V>>): (n: nat) {
    if history == [] then 0 else Swept(history[..|history| - 1]) + if history[|history| - 1].BySweep? then 1 else 0
  }

  /** The writes others did before the first n calls. */
  function Scheduled<V>(schedule: Schedule<V>, n: nat): (writes: seq<Write<V>>) {
    if n == 0 then [] else Scheduled(schedule, n - 1) + EventAt(schedule, n - 1).writes
  }

  /**
   * The history explains the table: replayed from the start it gives the table,
   * others did in it exactly what the schedule says, and the sweep deleted only
   * what was expired at that moment, as many rows as it counts.
   */
  ghost predicate Explains<V>(start: map<Id, V>, schedule: Schedule<V>, calls: nat, rows: map<Id, V>, expired: V -> bool,
                              history: seq<Change<V>>, pruned: nat) {
    && rows == Replay(start, history) && OnlyExpired(start, history, expired)
    && Others(history) == Scheduled(schedule, calls) && Swept(history) == pruned
  }

  /** Every change of the table since the start is accounted for. */
  ghost predicate Accounted<V(!new)>(start: map<Id, V>, schedule: Schedule<V>, calls: nat, rows: map<Id, V>, expired: V -> bool, pruned: nat) {
    exists history :: Explains(start, schedule, calls, rows, expired, history, pruned)
  }

  /** What one call adds: the writes before it, then the deletions of its transaction. */
  function Recorded<V>(writes: seq<Write<V>>): (history: seq<Change<V>>) {
    seq(|writes|, i requires 0 <= i < |writes| => ByOther(writes[i]))
  }

  function Deletions<V>(rows: map<Id, V>, deleted: seq<Id>): (history: seq<Change<V>>)
    requires forall id :: id in deleted ==> id in rows
  {
    seq(|deleted|, i requires 0 <= i < |deleted| => BySweep(deleted[i], rows[deleted[i]]))
  }

  lemma LastChange<V>(rows: map<Id, V>, history: seq<Change<V>>, fewer: seq<Change<V>>, change: Change<V>)
    requires history == fewer + [change]
    ensures Replay(rows, history) ==
      match change
      case ByOther(w) => WriteOne(Replay(rows, fewer), w)
      case BySweep(id, _) => Replay(rows, fewer) - {id}
    ensures Others(history) == Others(fewer) + if change.ByOther? then [change.w] else []
    ensures Swept(history) == Swept(fewer) + if change.BySweep? then 1 else 0
  {
    assert history[..|history| - 1] == fewer && history[|history| - 1] == change;
  }

  lemma {:induction false} ReplayOn<V>(rows: map<Id, V>, h: seq<Change<V>>, g: seq<Change<V>>)
    ensures Replay(rows, h + g) == Replay(Replay(rows, h), g)
    ensures Others(h + g) == Others(h) + Others(g) && Swept(h + g) == Swept(h) + Swept(g)
    decreases |g|
  {
    hide Replay, Others, Swept, WriteOne;
    if g == [] {
      ReplayNothing(rows, h);
    } else {
      var fewer, change := g[..|g| - 1], g[|g| - 1];
      ReplayOn(rows, h, fewer);
      assert h + g == h + fewer + [change] && g == fewer + [change];
      LastChange(rows, h + g, h + fewer, change);
      LastChange(Replay(rows, h), g, fewer, change);
    }
  }

  lemma ReplayNothing<V>(rows: map<Id, V>, h: seq<Change<V>>)
    ensures var none: seq<Change<V>> := [];
      && h + none == h && Replay(Replay(rows, h), none) == Replay(rows, h)
      && Others(h) + Others(none) == Others(h) && Swept(h) + Swept(none) == Swept(h)
  {
  }

  lemma ExpiredBefore<V>(rows: map<Id, V>, h: seq<Change<V>>, g: seq<Change<V>>, k: nat, expired: V -> bool)
    requires k < |h| && ExpiredAt(rows, h, k, expired)
    ensures ExpiredAt(rows, h + g, k, expired)
  {
    hide Replay;
    assert (h + g)[..k] == h[..k] && (h + g)[k] == h[k];
  }

  lemma ExpiredAfter<V>(rows: map<Id, V>, h: seq<Change<V>>, g: seq<Change<V>>, k: nat, expired: V -> bool)
    requires k < |g| && ExpiredAt(Replay(rows, h), g, k, expired)
    ensures ExpiredAt(rows, h + g, |h| + k, expired)
  {
    ReplayOn(rows, h, g[..k]);
    hide Replay;
    assert (h + g)[..|h| + k] == h + g[..k] && (h + g)[|h| + k] == g[k];
  }

  lemma OnlyExpiredOn<V>(rows: map<Id, V>, h: seq<Change<V>>, g: seq<Change<V>>, expired: V -> bool)
    requires OnlyExpired(rows, h, expired) && OnlyExpired(Replay(rows, h), g, expired)
    ensures OnlyExpired(rows, h + g, expired)
  {
    hide Replay, ExpiredAt;
    forall k | 0 <= k < |h + g|
      ensures ExpiredAt(rows, h + g, k, expired)
    {
      if k < |h| {
        ExpiredBefore(rows, h, g, k, expired);
      } else {
        ExpiredAfter(rows, h, g, k - |h|, expired);
      }
    }
  }

  lemma {:induction false} RecordedReplays<V>(rows: map<Id, V>, writes: seq<Write<V>>, expired: V -> bool)
    ensures Replay(rows, Recorded(writes)) == Written(rows, writes) && OnlyExpired(rows, Recorded(writes), expired)
    ensures Others(Recorded(writes)) == writes && Swept(Recorded(writes)) == 0
    decreases |writes|
  {
    if writes != [] {
      var fewer := writes[..|writes| - 1];
      RecordedReplays(rows, fewer, expired);
      assert Recorded(writes)[..|writes| - 1] == Recorded(fewer);
      assert writes == fewer + [writes[|writes| - 1]];
    }
  }

  ghost predicate Distinct(ids: seq<Id>) {
    forall i, j :: 0 <= i < j < |ids| ==> ids[i] != ids[j]
  }

  lemma LastDeletion<V>(rows: map<Id, V>, deleted: seq<Id>)
    requires deleted != [] && forall id :: id in deleted ==> id in rows
    ensures var fewer, last := deleted[..|deleted| - 1], deleted[|deleted| - 1];
      && (forall id :: id in fewer ==> id in rows) && last in rows
      && (set id | id in deleted) == (set id | id in fewer) + {last}
      && Deletions(rows, deleted) == Deletions(rows, fewer) + [BySweep(last, rows[last])]
  {
    var fewer, last := deleted[..|deleted| - 1], deleted[|deleted| - 1];
    assert deleted == fewer + [last];
    assert forall id :: id in fewer ==> id in deleted;
  }

  lemma ReplayOneMore<V>(rows: map<Id, V>, history: seq<Change<V>>, id: Id, item: V)
    ensures Replay(rows, history + [BySweep(id, item)]) == Replay(rows, history) - {id}
    ensures Others(history + [BySweep(id, item)]) == Others(history) && Swept(history + [BySweep(id, item)]) == Swept(history) + 1
  {
    LastChange(rows, history + [BySweep(id, item)], history, BySweep(id, item));
  }

  lemma {:induction false} DeletionsReplay<V>(rows: map<Id, V>, deleted: seq<Id>)
    requires forall id :: id in deleted ==> id in rows
    ensures Replay(rows, Deletions(rows, deleted)) == rows - (set id | id in deleted)
    ensures Others(Deletions(rows, deleted)) == [] && Swept(Deletions(rows, deleted)) == |deleted|
    decreases |deleted|
  {
    if deleted == [] {
      assert rows - (set id | id in deleted) == rows;
    } else {
      hide Replay, Others, Swept, Deletions;
      var fewer, last := deleted[..|deleted| - 1], deleted[|deleted| - 1];
      LastDeletion(rows, deleted);
      DeletionsReplay(rows, fewer);
      ReplayOneMore(rows, Deletions(rows, fewer), last, rows[last]);
    }
  }

  lemma DeletionIsOfExpired<V>(rows: map<Id, V>, deleted: seq<Id>, k: nat, expired: V -> bool)
    requires Distinct(deleted) && (forall id :: id in deleted ==> id in rows && expired(rows[id])) && k < |deleted|
    ensures ExpiredAt(rows, Deletions(rows, deleted), k, expired)
  {
    hide Replay;
    var before := deleted[..k];
    assert forall id :: id in before ==> id in deleted;
    assert Deletions(rows, deleted)[..k] == Deletions(rows, before);
    DeletionsReplay(rows, before);
    assert deleted[k] in deleted && deleted[k] !in before;
  }

  lemma DeletionsAreOfExpired<V>(rows: map<Id, V>, deleted: seq<Id>, expired: V -> bool)
    requires Distinct(deleted) && forall id :: id in deleted ==> id in rows && expired(rows[id])
    ensures OnlyExpired(rows, Deletions(rows, deleted), expired)
  {
    hide Replay, ExpiredAt;
    forall k | 0 <= k < |Deletions(rows, deleted)|
      ensures ExpiredAt(rows, Deletions(rows, deleted), k, expired)
    {
      DeletionIsOfExpired(rows, deleted, k, expired);
    }
  }

  lemma DeletedAreExpired<V>(before: map<Id, V>, rows: map<Id, V>, deleted: seq<Id>, expired: V -> bool)
    requires Distinct(deleted) && PrunedFrom(before, rows, expired) && forall id :: id in deleted <==> id in before && id !in rows
    ensures Deleted(before, rows, deleted, expired)
  {
  }

  lemma NothingHappened<V(!new)>(rows: map<Id, V>, schedule: Schedule<V>, expired: V -> bool)
    ensures Accounted(rows, schedule, 0, rows, expired, 0)
  {
    assert Explains(rows, schedule, 0, rows, expired, [], 0);
  }

  /** What one transaction did: `deleted` is what it took out of `before`, each row once and each expired. */
  ghost predicate Deleted<V>(before: map<Id, V>, rows: map<Id, V>, deleted: seq<Id>, expired: V -> bool) {
    && Distinct(deleted) && rows == before - (set id | id in deleted)
    && forall id :: id in deleted ==> id in before && expired(before[id])
  }

  lemma NothingDeleted<V>(rows: map<Id, V>, expired: V -> bool)
    ensures Deleted(rows, rows, [], expired)
  {
    assert rows - (set id | id in []) == rows;
  }

  /** One more call is accounted for by the writes before it and its deletions. */
  lemma CallIsAccounted<V(!new)>(start: map<Id, V>, schedule: Schedule<V>, calls: nat, rows: map<Id, V>, rows': map<Id, V>, expired: V -> bool,
                           pruned: nat, deleted: seq<Id>)
    requires Accounted(start, schedule, calls, rows, expired, pruned)
    requires Deleted(Written(rows, EventAt(schedule, calls).writes), rows', deleted, expired)
    ensures Accounted(start, schedule, calls + 1, rows', expired, pruned + |deleted|)
  {
    hide Replay, Written, Others, Swept, OnlyExpired, Recorded, Deletions, Distinct;
    var history :| Explains(start, schedule, calls, rows, expired, history, pruned);
    var writes := EventAt(schedule, calls).writes;
    var before := Written(rows, writes);
    RecordedReplays(rows, writes, expired);
    DeletionsReplay(before, deleted);
    DeletionsAreOfExpired(before, deleted, expired);
    ReplayOn(start, history, Recorded(writes));
    OnlyExpiredOn(start, history, Recorded(writes), expired);
    ReplayOn(start, history + Recorded(writes), Deletions(before, deleted));
    OnlyExpiredOn(start, history + Recorded(writes), Deletions(before, deleted), expired);
    assert Others(history) + writes + [] == Others(history) + writes;
    assert Explains(start, schedule, calls + 1, rows', expired, history + Recorded(writes) + Deletions(before, deleted), pruned + |deleted|);
  }

  /** Rows were only deleted, and only rows whose value was expired. */
  ghost predicate PrunedFrom<V>(base: map<Id, V>, rows: map<Id, V>, expired: V -> bool) {
    && (forall id :: id in rows ==> id in base && rows[id] == base[id])
    && (forall id :: id in base && id !in rows ==> expired(base[id]))
  }

  /** The keys after the cursor. */
  function Remaining<V>(rows: map<Id, V>, started: bool, after: Id): (keys: set<Id>) {
    set id | id in rows && (!started || Less(after, id))
  }

  /** The first batch of keys after the cursor, in order. */
  function Batch<V>(rows: map<Id, V>, started: bool, after: Id): (keys: seq<Id>) {
    var all := Sorted(Remaining(rows, started, after));
    if |all| <= PRUNE_BATCH then all else all[..PRUNE_BATCH]
  }

  lemma BatchIsTheNextKeys<V>(rows: map<Id, V>, started: bool, after: Id)
    ensures var keys := Batch(rows, started, after);
      && (keys == [] <==> Remaining(rows, started, after) == {})
      && (forall id :: id in keys ==> id in Remaining(rows, started, after))
      && (keys != [] ==> forall id :: id in Remaining(rows, started, after) && !Less(keys[|keys| - 1], id) ==> id in keys)
  {
    var left := Remaining(rows, started, after);
    SortedIsAscending(left);
    var all, keys := Sorted(left), Batch(rows, started, after);
    assert forall id :: id in keys ==> id in all;
    if left != {} {
      var id :| id in left;
      assert id in all;
    }
    assert all != [] ==> all[0] in left;
    if keys != [] {
      forall id | id in left && !Less(keys[|keys| - 1], id)
        ensures id in keys
      {
        assert id in all;
        var i :| 0 <= i < |all| && all[i] == id;
        assert keys[|keys| - 1] == all[|keys| - 1];
        assert i < |keys|;
        assert keys[i] == id;
      }
    }
  }

  lemma BatchIsHeld<V>(rows: map<Id, V>, started: bool, after: Id)
    ensures var keys := Batch(rows, started, after); forall i :: 0 <= i < |keys| ==> keys[i] in rows
  {
    hide Batch;
    BatchIsTheNextKeys(rows, started, after);
    var keys := Batch(rows, started, after);
    assert forall i :: 0 <= i < |keys| ==> keys[i] in keys;
  }

  /** The cursor moves forward over keys it has read. */
  lemma CursorAdvances<V>(rows: map<Id, V>, started: bool, after: Id)
    requires Batch(rows, started, after) != []
    ensures var keys := Batch(rows, started, after); var last := keys[|keys| - 1];
      && last in rows
      && (started ==> Less(after, last))
      && Remaining(rows, true, last) <= Remaining(rows, started, after) - {last}
  {
    var keys := Batch(rows, started, after);
    var last := keys[|keys| - 1];
    BatchIsTheNextKeys(rows, started, after);
    assert last in keys;
    LessIsStrict(last, last);
    forall id | id in Remaining(rows, true, last)
      ensures id in Remaining(rows, started, after)
    {
      if started {
        LessIsTransitive(after, last, id);
      }
    }
  }

  /** Every row up to the cursor has been swept. */
  ghost predicate SweptTo<V>(rows: map<Id, V>, expired: V -> bool, started: bool, after: Id) {
    forall id :: id in rows && expired(rows[id]) ==> id in Remaining(rows, started, after)
  }

  lemma SweepAdvances<V>(before: map<Id, V>, rows: map<Id, V>, expired: V -> bool, started: bool, after: Id)
    requires SweptTo(before, expired, started, after) && Batch(before, started, after) != []
    requires forall id :: id in rows ==> id in before && rows[id] == before[id]
    requires forall id :: id in Batch(before, started, after) && id in rows ==> !expired(rows[id])
    ensures SweptTo(rows, expired, true, Batch(before, started, after)[|Batch(before, started, after)| - 1])
  {
    BatchIsTheNextKeys(before, started, after);
    var keys := Batch(before, started, after);
    forall id | id in rows && expired(rows[id])
      ensures Less(keys[|keys| - 1], id)
    {
      assert id in Remaining(before, started, after);
    }
  }

  // What a sweep that began with `start` has achieved after some database calls.

  ghost predicate Complete<V>(start: map<Id, V>, rows: map<Id, V>, expired: V -> bool, started: bool, after: Id, pruned: int) {
    PrunedFrom(start, rows, expired) && SweptTo(rows, expired, started, after) && pruned == |start| - |rows|
  }

  lemma StartsUnswept<V>(rows: map<Id, V>, expired: V -> bool)
    ensures Complete(rows, rows, expired, false, [], 0)
  {
  }

  /** The expired ones among the keys read. */
  ghost predicate Expired<V>(rows: map<Id, V>, keys: seq<Id>, doomed: seq<Id>, expired: V -> bool) {
    forall id :: id in doomed <==> id in keys && id in rows && expired(rows[id])
  }

  /** What deleteExpired does in its one transaction: of the keys, exactly those expired go, unless the database is busy. */
  ghost predicate Transacted<V>(before: map<Id, V>, rows: map<Id, V>, keys: seq<Id>, deleted: seq<Id>, busy: bool, expired: V -> bool) {
    && Deleted(before, rows, deleted, expired) && PrunedFrom(before, rows, expired) && |before| == |rows| + |deleted|
    && (busy ==> deleted == [])
    && (!busy ==> forall id :: id in before && id in keys && expired(before[id]) ==> id !in rows)
    && (forall id :: id in before && id !in keys ==> id in rows)
  }

  /** Mid-transaction: the first i keys have been looked at again. */
  ghost predicate Deleting<V>(before: map<Id, V>, tx: map<Id, V>, keys: seq<Id>, i: nat, deleted: seq<Id>, expired: V -> bool)
    requires i <= |keys|
  {
    && PrunedFrom(before, tx, expired) && |before| == |tx| + |deleted| && Distinct(deleted)
    && (forall k :: 0 <= k < i && keys[k] in before && expired(before[keys[k]]) ==> keys[k] !in tx)
    && (forall id :: id in before && id !in keys ==> id in tx)
    && (forall id :: id in deleted <==> id in before && id !in tx)
  }

  lemma NothingLookedAt<V>(rows: map<Id, V>, keys: seq<Id>, expired: V -> bool)
    ensures Deleting(rows, rows, keys, 0, [], expired) && Transacted(rows, rows, keys, [], true, expired)
  {
    NothingDeleted(rows, expired);
  }

  lemma LooksAtOneMore<V>(before: map<Id, V>, tx: map<Id, V>, keys: seq<Id>, i: nat, deleted: seq<Id>, expired: V -> bool)
    requires i < |keys| && Deleting(before, tx, keys, i, deleted, expired)
    ensures var key := keys[i];
      if key in tx && expired(tx[key]) then Deleting(before, tx - {key}, keys, i + 1, deleted + [key], expired)
      else Deleting(before, tx, keys, i + 1, deleted, expired)
  {
    var key := keys[i];
    if key in tx && expired(tx[key]) {
      assert (tx - {key}).Keys == tx.Keys - {key};
      assert |tx - {key}| == |(tx - {key}).Keys| && |tx| == |tx.Keys|;
    }
  }

  lemma LookedAtAll<V>(before: map<Id, V>, tx: map<Id, V>, keys: seq<Id>, deleted: seq<Id>, expired: V -> bool)
    requires Deleting(before, tx, keys, |keys|, deleted, expired)
    ensures Transacted(before, tx, keys, deleted, false, expired)
  {
    DeletedAreExpired(before, tx, deleted, expired);
  }

  lemma TransactionIsAccounted<V(!new)>(start: map<Id, V>, schedule: Schedule<V>, calls: nat, rows: map<Id, V>, rows': map<Id, V>,
                                        expired: V -> bool, pruned: nat, keys: seq<Id>, deleted: seq<Id>)
    requires Accounted(start, schedule, calls, rows, expired, pruned)
    requires Transacted(Written(rows, EventAt(schedule, calls).writes), rows', keys, deleted, EventAt(schedule, calls).busy, expired)
    ensures Accounted(start, schedule, calls + 1, rows', expired, pruned + |deleted|)
  {
    hide Accounted, Deleted, PrunedFrom;
    CallIsAccounted(start, schedule, calls, rows, rows', expired, pruned, deleted);
  }

  lemma ScanIsAccounted<V(!new)>(start: map<Id, V>, schedule: Schedule<V>, calls: nat, rows: map<Id, V>, rows': map<Id, V>,
                                 expired: V -> bool, pruned: nat)
    requires Accounted(start, schedule, calls, rows, expired, pruned) && rows' == Written(rows, EventAt(schedule, calls).writes)
    ensures Accounted(start, schedule, calls + 1, rows', expired, pruned)
  {
    hide Accounted, Deleted, Written;
    NothingDeleted(rows', expired);
    CallIsAccounted(start, schedule, calls, rows, rows', expired, pruned, []);
  }

  lemma UndisturbedCall<V>(schedule: Schedule<V>, calls: nat, rows: map<Id, V>)
    requires Undisturbed(schedule)
    ensures EventAt(schedule, calls) == Event([], false) && Written(rows, EventAt(schedule, calls).writes) == rows
  {
  }

  lemma ScanStaysComplete<V>(start: map<Id, V>, schedule: Schedule<V>, calls: nat, before: map<Id, V>, rows: map<Id, V>, expired: V -> bool,
                             started: bool, after: Id, pruned: int)
    requires Undisturbed(schedule) && rows == Written(before, EventAt(schedule, calls).writes)
    requires Complete(start, before, expired, started, after, pruned)
    ensures Complete(start, rows, expired, started, after, pruned) && !EventAt(schedule, calls).busy
  {
    UndisturbedCall(schedule, calls, before);
  }

  /** The cursor after a batch. */
  function LastOf(keys: seq<Id>): (last: Id)
    requires keys != []
  {
    keys[|keys| - 1]
  }

  lemma CleanBatchStaysComplete<V>(start: map<Id, V>, rows: map<Id, V>, expired: V -> bool, started: bool, after: Id,
                                   keys: seq<Id>, doomed: seq<Id>, pruned: int)
    requires Complete(start, rows, expired, started, after, pruned) && keys == Batch(rows, started, after) != []
    requires Expired(rows, keys, doomed, expired) && doomed == []
    ensures Complete(start, rows, expired, true, LastOf(keys), pruned)
  {
    SweepAdvances(rows, rows, expired, started, after);
  }

  lemma BatchStaysComplete<V>(start: map<Id, V>, schedule: Schedule<V>, calls: nat, scanned: map<Id, V>, rows: map<Id, V>, expired: V -> bool,
                              started: bool, after: Id, keys: seq<Id>, doomed: seq<Id>, pruned: int, deleted: seq<Id>)
    requires Undisturbed(schedule)
    requires Complete(start, scanned, expired, started, after, pruned) && keys == Batch(scanned, started, after) != []
    requires Expired(scanned, keys, doomed, expired)
    requires Transacted(Written(scanned, EventAt(schedule, calls).writes), rows, doomed, deleted, EventAt(schedule, calls).busy, expired)
    ensures Complete(start, rows, expired, true, LastOf(keys), pruned + |deleted|) && !EventAt(schedule, calls).busy
  {
    UndisturbedCall(schedule, calls, scanned);
    SweepAdvances(scanned, rows, expired, started, after);
  }

  lemma CompleteSweepIsExact<V>(start: map<Id, V>, rows: map<Id, V>, expired: V -> bool, started: bool, after: Id, pruned: int)
    requires Complete(start, rows, expired, started, after, pruned) && Batch(rows, started, after) == []
    ensures rows == Unexpired(start, expired)
  {
    BatchIsTheNextKeys(rows, started, after);
  }

  /** How many keys are after the cursor. */
  ghost function Left<V>(rows: map<Id, V>, started: bool, after: Id): (n: nat) {
    |Remaining(rows, started, after)|
  }

  lemma FewerIds(fewer: set<Id>, more: set<Id>, id: Id)
    requires fewer <= more - {id} && id in more
    ensures |fewer| < |more|
  {
    SubsetIsNoLarger(fewer, more - {id});
  }

  lemma CursorConsumes<V>(scanned: map<Id, V>, rows: map<Id, V>, started: bool, after: Id, keys: seq<Id>)
    requires keys == Batch(scanned, started, after) != [] && rows.Keys <= scanned.Keys
    ensures Left(rows, true, LastOf(keys)) < Left(scanned, started, after)
  {
    var last := keys[|keys| - 1];
    CursorAdvances(scanned, started, after);
    BatchIsTheNextKeys(scanned, started, after);
    assert last in keys;
    assert Remaining(rows, true, last) <= Remaining(scanned, true, last);
    FewerIds(Remaining(rows, true, last), Remaining(scanned, started, after), last);
  }

  lemma NothingPastTheSchedule<V>(schedule: Schedule<V>, calls: nat, rows: map<Id, V>)
    ensures calls >= |schedule| ==> Written(rows, EventAt(schedule, calls).writes) == rows
  {
  }

  lemma PastTheSchedule<V>(schedule: Schedule<V>, calls: nat, scanned: map<Id, V>, rows: map<Id, V>,
                           keys: seq<Id>, deleted: seq<Id>, expired: V -> bool)
    requires calls >= |schedule|
    requires Transacted(Written(scanned, EventAt(schedule, calls).writes), rows, keys, deleted, EventAt(schedule, calls).busy, expired)
    ensures rows.Keys <= scanned.Keys
  {
  }

  // What a sweep does to the keys nobody else writes, whatever happens to the others.

  ghost predicate Touched<V>(schedule: Schedule<V>, id: Id) {
    exists i, j :: 0 <= i < |schedule| && 0 <= j < |schedule[i].writes| && schedule[i].writes[j].id == id
  }

  ghost predicate NeverBusy<V>(schedule: Schedule<V>) {
    forall i :: 0 <= i < |schedule| ==> !schedule[i].busy
  }

  lemma {:induction false} WritesElsewhere<V>(rows: map<Id, V>, writes: seq<Write<V>>, id: Id)
    requires forall j :: 0 <= j < |writes| ==> writes[j].id != id
    ensures id in Written(rows, writes) <==> id in rows
    ensures id in rows ==> Written(rows, writes)[id] == rows[id]
    decreases |writes|
  {
    if writes != [] {
      WritesElsewhere(rows, writes[..|writes| - 1], id);
    }
  }

  /** A call leaves an untouched key as it was, and no call is busy in a schedule that never is. */
  lemma UntouchedCall<V>(schedule: Schedule<V>, calls: nat, rows: map<Id, V>, id: Id)
    requires !Touched(schedule, id)
    ensures var after := Written(rows, EventAt(schedule, calls).writes);
      (id in after <==> id in rows) && (id in rows ==> after[id] == rows[id])
  {
    hide Written;
    var writes := EventAt(schedule, calls).writes;
    assert forall j :: 0 <= j < |writes| ==> writes[j].id != id;
    WritesElsewhere(rows, writes, id);
  }

  lemma NotBusyNow<V>(schedule: Schedule<V>, calls: nat)
    requires NeverBusy(schedule)
    ensures !EventAt(schedule, calls).busy
  {
  }

  /** An untouched key has its first value or none, none only if that was expired, and if it still has an expired one the cursor is before it. */
  ghost predicate SweptAt<V>(start: map<Id, V>, rows: map<Id, V>, expired: V -> bool, started: bool, after: Id, id: Id) {
    && (id in rows ==> id in start && rows[id] == start[id] && (expired(rows[id]) ==> id in Remaining(rows, started, after)))
    && (id in start && !expired(start[id]) ==> id in rows)
  }

  ghost predicate SweptUntouched<V>(start: map<Id, V>, schedule: Schedule<V>, rows: map<Id, V>, expired: V -> bool, started: bool, after: Id) {
    forall id: Id :: !Touched(schedule, id) ==> SweptAt(start, rows, expired, started, after, id)
  }

  /** Of the keys nobody else writes, exactly those with unexpired rows are left, with their rows. */
  ghost predicate ExactUntouched<V>(start: map<Id, V>, schedule: Schedule<V>, rows: map<Id, V>, expired: V -> bool) {
    forall id: Id :: !Touched(schedule, id) ==>
      && (id in rows <==> id in start && !expired(start[id]))
      && (id in rows ==> rows[id] == start[id])
  }

  lemma StartsUntouched<V>(rows: map<Id, V>, schedule: Schedule<V>, expired: V -> bool)
    ensures SweptUntouched(rows, schedule, rows, expired, false, [])
  {
  }

  lemma ScanKeepsUntouched<V>(start: map<Id, V>, schedule: Schedule<V>, calls: nat, before: map<Id, V>, rows: map<Id, V>, expired: V -> bool,
                              started: bool, after: Id)
    requires SweptUntouched(start, schedule, before, expired, started, after) && rows == Written(before, EventAt(schedule, calls).writes)
    ensures SweptUntouched(start, schedule, rows, expired, started, after)
  {
    hide Written, EventAt, Touched;
    forall id: Id | !Touched(schedule, id)
      ensures SweptAt(start, rows, expired, started, after, id)
    {
      UntouchedCall(schedule, calls, before, id);
    }
  }

  /** One key over a batch: read with the batch and expired it is deleted, otherwise it is past the new cursor or unexpired. */
  lemma BatchSweepsAt<V>(start: map<Id, V>, scanned: map<Id, V>, found: map<Id, V>, rows: map<Id, V>, expired: V -> bool,
                         started: bool, after: Id, keys: seq<Id>, doomed: seq<Id>, deleted: seq<Id>, id: Id)
    requires SweptAt(start, scanned, expired, started, after, id) && keys == Batch(scanned, started, after) != []
    requires Expired(scanned, keys, doomed, expired) && Transacted(found, rows, doomed, deleted, false, expired)
    requires (id in found <==> id in scanned) && (id in scanned ==> found[id] == scanned[id])
    ensures SweptAt(start, rows, expired, true, LastOf(keys), id)
  {
    hide Batch, Deleted;
    BatchIsTheNextKeys(scanned, started, after);
    assert id in rows ==> id in found && rows[id] == found[id];
  }

  lemma BatchKeepsUntouched<V>(start: map<Id, V>, schedule: Schedule<V>, calls: nat, scanned: map<Id, V>, rows: map<Id, V>, expired: V -> bool,
                               started: bool, after: Id, keys: seq<Id>, doomed: seq<Id>, deleted: seq<Id>)
    requires NeverBusy(schedule)
    requires SweptUntouched(start, schedule, scanned, expired, started, after) && keys == Batch(scanned, started, after) != []
    requires Expired(scanned, keys, doomed, expired)
    requires Transacted(Written(scanned, EventAt(schedule, calls).writes), rows, doomed, deleted, EventAt(schedule, calls).busy, expired)
    ensures SweptUntouched(start, schedule, rows, expired, true, LastOf(keys))
  {
    hide Written, EventAt, Touched, NeverBusy, SweptAt, Batch, Expired, Transacted;
    NotBusyNow(schedule, calls);
    var found := Written(scanned, EventAt(schedule, calls).writes);
    forall id: Id | !Touched(schedule, id)
      ensures SweptAt(start, rows, expired, true, LastOf(keys), id)
    {
      UntouchedCall(schedule, calls, scanned, id);
      BatchSweepsAt(start, scanned, found, rows, expired, started, after, keys, doomed, deleted, id);
    }
  }

  lemma CleanBatchKeepsUntouched<V>(start: map<Id, V>, schedule: Schedule<V>, rows: map<Id, V>, expired: V -> bool,
                                    started: bool, after: Id, keys: seq<Id>, doomed: seq<Id>)
    requires SweptUntouched(start, schedule, rows, expired, started, after) && keys == Batch(rows, started, after) != []
    requires Expired(rows, keys, doomed, expired) && doomed == []
    ensures SweptUntouched(start, schedule, rows, expired, true, LastOf(keys))
  {
    hide Touched, Batch;
    BatchIsTheNextKeys(rows, started, after);
    forall id: Id | !Touched(schedule, id)
      ensures SweptAt(start, rows, expired, true, LastOf(keys), id)
    {
      assert SweptAt(start, rows, expired, started, after, id);
    }
  }

  lemma EmptyBatchIsExactUntouched<V>(start: map<Id, V>, schedule: Schedule<V>, rows: map<Id, V>, expired: V -> bool, started: bool, after: Id)
    requires SweptUntouched(start, schedule, rows, expired, started, after) && Batch(rows, started, after) == []
    ensures ExactUntouched(start, schedule, rows, expired)
  {
    hide Touched, Batch;
    BatchIsTheNextKeys(rows, started, after);
    forall id: Id | !Touched(schedule, id)
      ensures (id in rows <==> id in start && !expired(start[id])) && (id in rows ==> rows[id] == start[id])
    {
      assert SweptAt(start, rows, expired, started, after, id);
    }
  }

  // The same for the cached sweep, whose candidates are chosen at the start.

  /** An untouched key has its first value or none, none only if that was expired, and none if it is among the first n candidates. */
  ghost predicate GoneAt<V>(start: map<Id, V>, items: map<Id, V>, expired: V -> bool, doomed: seq<Id>, n: nat, id: Id)
    requires n <= |doomed|
  {
    && (id in items ==> id in start && items[id] == start[id] && id !in doomed[..n])
    && (id in start && !expired(start[id]) ==> id in items)
  }

  ghost predicate GoneUntouched<V>(start: map<Id, V>, schedule: Schedule<V>, items: map<Id, V>, expired: V -> bool, doomed: seq<Id>, n: nat)
    requires n <= |doomed|
  {
    && (forall id :: id in doomed <==> id in start && expired(start[id]))
    && (forall id: Id :: !Touched(schedule, id) ==> GoneAt(start, items, expired, doomed, n, id))
  }

  lemma NoneGoneUntouched<V>(items: map<Id, V>, schedule: Schedule<V>, expired: V -> bool, doomed: seq<Id>)
    requires forall id :: id in doomed <==> id in items && expired(items[id])
    ensures GoneUntouched(items, schedule, items, expired, doomed, 0)
  {
  }

  lemma MoreGoneAt<V>(start: map<Id, V>, before: map<Id, V>, found: map<Id, V>, items: map<Id, V>, expired: V -> bool,
                      doomed: seq<Id>, n: nat, m: nat, deleted: seq<Id>, id: Id)
    requires n <= m <= |doomed| && GoneAt(start, before, expired, doomed, n, id)
    requires forall id :: id in doomed <==> id in start && expired(start[id])
    requires Transacted(found, items, doomed[n..m], deleted, false, expired)
    requires (id in found <==> id in before) && (id in before ==> found[id] == before[id])
    ensures GoneAt(start, items, expired, doomed, m, id)
  {
    hide Deleted;
    assert id in items ==> id in found && items[id] == found[id];
    assert doomed[..m] == doomed[..n] + doomed[n..m];
    assert id in doomed[n..m] ==> id in doomed;
  }

  lemma MoreGoneUntouched<V>(start: map<Id, V>, schedule: Schedule<V>, calls: nat, before: map<Id, V>, items: map<Id, V>, expired: V -> bool,
                             doomed: seq<Id>, n: nat, m: nat, deleted: seq<Id>)
    requires NeverBusy(schedule) && n <= m <= |doomed| && GoneUntouched(start, schedule, before, expired, doomed, n)
    requires Transacted(Written(before, EventAt(schedule, calls).writes), items, doomed[n..m], deleted, EventAt(schedule, calls).busy, expired)
    ensures GoneUntouched(start, schedule, items, expired, doomed, m)
  {
    hide Written, EventAt, Touched, NeverBusy, GoneAt, Transacted;
    NotBusyNow(schedule, calls);
    var found := Written(before, EventAt(schedule, calls).writes);
    forall id: Id | !Touched(schedule, id)
      ensures GoneAt(start, items, expired, doomed, m, id)
    {
      UntouchedCall(schedule, calls, before, id);
      MoreGoneAt(start, before, found, items, expired, doomed, n, m, deleted, id);
    }
  }

  lemma AllGoneIsExactUntouched<V>(start: map<Id, V>, schedule: Schedule<V>, items: map<Id, V>, expired: V -> bool, doomed: seq<Id>)
    requires GoneUntouched(start, schedule, items, expired, doomed, |doomed|)
    ensures ExactUntouched(start, schedule, items, expired)
  {
    hide Touched;
    assert doomed[..|doomed|] == doomed;
    forall id: Id | !Touched(schedule, id)
      ensures (id in items <==> id in start && !expired(start[id])) && (id in items ==> items[id] == start[id])
    {
      assert GoneAt(start, items, expired, doomed, |doomed|, id);
    }
  }

  /** The first n candidates, all expired in `start`, are gone and nothing else is. */
  ghost predicate CandidatesGone<V>(start: map<Id, V>, items: map<Id, V>, expired: V -> bool, doomed: seq<Id>, n: nat, pruned: int)
    requires n <= |doomed|
  {
    && PrunedFrom(start, items, expired) && pruned == |start| - |items|
    && (forall id :: id in doomed <==> id in start && expired(start[id]))
    && (forall i :: 0 <= i < n ==> doomed[i] !in items)
  }

  lemma NoCandidatesGone<V>(items: map<Id, V>, expired: V -> bool, doomed: seq<Id>)
    requires forall id :: id in doomed <==> id in items && expired(items[id])
    ensures CandidatesGone(items, items, expired, doomed, 0, 0)
  {
  }

  lemma MoreCandidatesGone<V>(start: map<Id, V>, schedule: Schedule<V>, calls: nat, before: map<Id, V>, items: map<Id, V>, expired: V -> bool,
                              doomed: seq<Id>, n: nat, m: nat, pruned: int, deleted: seq<Id>)
    requires Undisturbed(schedule) && n <= m <= |doomed| && CandidatesGone(start, before, expired, doomed, n, pruned)
    requires Transacted(Written(before, EventAt(schedule, calls).writes), items, doomed[n..m], deleted, EventAt(schedule, calls).busy, expired)
    ensures CandidatesGone(start, items, expired, doomed, m, pruned + |deleted|) && !EventAt(schedule, calls).busy
  {
    UndisturbedCall(schedule, calls, before);
    forall i | 0 <= i < m
      ensures doomed[i] !in items
    {
      assert doomed[i] in doomed;
      if n <= i {
        assert doomed[i] == doomed[n..m][i - n];
      }
    }
  }

  lemma AllCandidatesGone<V>(start: map<Id, V>, items: map<Id, V>, expired: V -> bool, doomed: seq<Id>, pruned: int)
    requires CandidatesGone(start, items, expired, doomed, |doomed|, pruned)
    ensures items == Unexpired(start, expired) && pruned == |start| - |items|
  {
    assert forall id :: id in start && expired(start[id]) ==> id in doomed;
  }
}
