// The SQLite store of sim/state_sqlite.go and the cached store of
// sim/state_cached.go, with their sweeps in sim/state_prune.go, as objects. A
// database call may find writes of other callers done before it, or the
// database busy.

module SqliteStores {
  import opened ByteOrder
  import opened OrderedIdLists
  import opened PrefixRanges
  import opened MemoryStores
  import opened Pruning
  import Cached = CachedStores

  /** The keys whose rows are expired, in their order. */
  method ExpiredAmong<V>(rows: map<Id, V>, keys: seq<Id>, expired: V -> bool) returns (doomed: seq<Id>)
    requires forall i :: 0 <= i < |keys| ==> keys[i] in rows
    ensures Expired(rows, keys, doomed, expired)
  {
    doomed := [];
    var n: nat := 0;
    while n < |keys|
      invariant n <= |keys| && forall id :: id in doomed <==> exists i :: 0 <= i < n && keys[i] == id && expired(rows[keys[i]])
    {
      if expired(rows[keys[n]]) {
        doomed := doomed + [keys[n]];
      }
      n := n + 1;
    }
  }

  class SqliteStore<V(!new)> {
    var rows: map<Id, V>
    var generation: nat
    const generations: StoreGenerations

    constructor (rows: map<Id, V>, generations: StoreGenerations)
      modifies generations
      ensures this.rows == rows && this.generations == generations && generation == generations.counter > old(generations.counter)
    {
      this.rows, this.generations := rows, generations;
      var g := generations.Next();
      this.generation := g;
    }

    method Put(id: Id, item: V)
      requires generation <= generations.counter
      modifies this, generations
      ensures rows == old(rows)[id := item] && generation == generations.counter > old(generations.counter)
    {
      rows := rows[id := item];
      generation := generations.Next();
    }

    method Delete(id: Id) returns (removed: bool)
      requires generation <= generations.counter
      modifies this, generations
      ensures rows == old(rows) - {id} && removed == (id in old(rows))
      ensures if removed then generation == generations.counter > old(generations.counter)
              else generation == old(generation) && generations.counter == old(generations.counter)
    {
      removed := id in rows;
      rows := rows - {id};
      if removed {
        generation := generations.Next();
      }
    }

    method Update(id: Id, fn: V -> V) returns (found: bool)
      requires generation <= generations.counter
      modifies this, generations
      ensures rows == Cached.Effect(Cached.Update(id, fn), old(rows)) && found == (id in old(rows))
      ensures if found then generation == generations.counter > old(generations.counter) else generation == old(generation)
    {
      if id !in rows {
        return false;
      }
      rows := rows[id := fn(rows[id])];
      generation := generations.Next();
      return true;
    }

    method Upsert(id: Id, zero: V, fn: V -> V)
      requires generation <= generations.counter
      modifies this, generations
      ensures rows == Cached.Effect(Cached.Upsert(id, zero, fn), old(rows)) && generation == generations.counter > old(generations.counter)
    {
      rows := rows[id := fn(if id in rows then rows[id] else zero)];
      generation := generations.Next();
    }

    /** The range query and the decoding of its rows: exactly the items under the prefix, in id order. */
    method ListPrefix(prefix: Id) returns (out: seq<Keyed<V>>)
      ensures IsPrefixListing(rows, prefix, out)
    {
      hide ExactBound, InRange, Sorted, IsPrefixListing;
      var bound := PrefixEnd(prefix);
      var keys := set id | id in rows && InRange(prefix, bound, id);
      var ids := Sorted(keys);
      SortedIsAscending(keys);
      assert forall i :: 0 <= i < |ids| ==> ids[i] in ids;
      out := [];
      while |out| < |ids|
        invariant |out| <= |ids|
        invariant forall i :: 0 <= i < |out| ==> out[i].id == ids[i] && out[i].id in rows && out[i].item == rows[out[i].id]
        decreases |ids| - |out|
      {
        out := out + [Keyed(ids[|out|], rows[ids[|out|]])];
      }
      forall id | id in rows && InRange(prefix, bound, id)
        ensures exists i :: 0 <= i < |out| && out[i].id == id
      {
        assert id in keys;
        var i :| 0 <= i < |ids| && ids[i] == id;
        assert out[i].id == id;
      }
      RangeAnswerIsPrefixListing(rows, prefix, bound, out);
    }

    /** pruneScan: one batch of keys after the cursor, and the expired ones among them. */
    method PruneScan(started: bool, after: Id, expired: V -> bool, e: Event<V>)
      returns (keys: seq<Id>, doomed: seq<Id>, busy: bool)
      modifies this`rows
      ensures rows == Written(old(rows), e.writes) && busy == e.busy
      ensures busy ==> keys == [] && doomed == []
      ensures !busy ==> keys == Batch(rows, started, after)
      ensures !busy ==> Expired(rows, keys, doomed, expired)
    {
      hide Written, Batch, Expired;
      rows := Written(rows, e.writes);
      if e.busy {
        return [], [], true;
      }
      keys, busy := Batch(rows, started, after), false;
      BatchIsHeld(rows, started, after);
      doomed := ExpiredAmong(rows, keys, expired);
    }

    /** deleteExpired: one transaction that reads each candidate again and deletes it if it is still expired. */
    method DeleteExpired(keys: seq<Id>, expired: V -> bool, e: Event<V>) returns (deleted: seq<Id>, busy: bool)
      modifies this, generations
      ensures busy == e.busy
      ensures Transacted(Written(old(rows), e.writes), rows, keys, deleted, busy, expired)
      ensures if deleted == [] then generation == old(generation) && generations.counter == old(generations.counter)
              else generation == generations.counter > old(generations.counter)
    {
      hide Deleting, Transacted, Written;
      rows := Written(rows, e.writes);
      ghost var before := rows;
      NothingLookedAt(before, keys, expired);
      if e.busy {
        return [], true;
      }
      var tx := rows;
      deleted, busy := [], false;
      var i: nat := 0;
      while i < |keys|
        invariant i <= |keys| && Deleting(before, tx, keys, i, deleted, expired)
        invariant generation == old(generation) && generations.counter == old(generations.counter)
      {
        LooksAtOneMore(before, tx, keys, i, deleted, expired);
        if keys[i] in tx && expired(tx[keys[i]]) {
          tx := tx - {keys[i]};
          deleted := deleted + [keys[i]];
        }
        i := i + 1;
      }
      LookedAtAll(before, tx, keys, deleted, expired);
      rows := tx;
      if |deleted| > 0 {
        generation := generations.Next();
      }
    }

    /**
     * Whatever other writers do and whenever the database is busy, the sweep
     * ends and the table is accounted for: every change of it was another
     * caller's scheduled write or the deletion of a row expired at that moment,
     * and the deletions are counted. Undisturbed, they are the expired rows; and
     * unless a call is busy, of the keys nobody else writes exactly those with
     * expired rows are gone.
     */
    method Prune(expired: V -> bool, schedule: Schedule<V>) returns (pruned: nat, calls: nat)
      modifies this, generations
      ensures Accounted(old(rows), schedule, calls, rows, expired, pruned)
      ensures Undisturbed(schedule) ==> rows == Unexpired(old(rows), expired) && pruned == |old(rows)| - |rows|
      ensures NeverBusy(schedule) ==> ExactUntouched(old(rows), schedule, rows, expired)
    {
      hide SweptTo, Left, Batch, Unexpired, Undisturbed, Accounted, Written, Complete, EventAt, Expired, Transacted;
      hide NeverBusy, SweptUntouched, ExactUntouched;
      StartsUnswept(rows, expired);
      StartsUntouched(rows, schedule, expired);
      NothingHappened(rows, schedule, expired);
      pruned, calls := 0, 0;
      var after: Id, started := [], false;
      while true
        invariant Accounted(old(rows), schedule, calls, rows, expired, pruned)
        invariant Undisturbed(schedule) ==> Complete(old(rows), rows, expired, started, after, pruned)
        invariant NeverBusy(schedule) ==> SweptUntouched(old(rows), schedule, rows, expired, started, after)
        decreases if calls < |schedule| then |schedule| - calls else 0, Left(rows, started, after)
      {
        ghost var before := rows;
        var keys, doomed, busy := PruneScan(started, after, expired, EventAt(schedule, calls));
        NothingPastTheSchedule(schedule, calls, before);
        ScanIsAccounted(old(rows), schedule, calls, before, rows, expired, pruned);
        if Undisturbed(schedule) {
          ScanStaysComplete(old(rows), schedule, calls, before, rows, expired, started, after, pruned);
        }
        if NeverBusy(schedule) {
          NotBusyNow(schedule, calls);
          ScanKeepsUntouched(old(rows), schedule, calls, before, rows, expired, started, after);
        }
        calls := calls + 1;
        if busy || keys == [] {
          if Undisturbed(schedule) {
            CompleteSweepIsExact(old(rows), rows, expired, started, after, pruned);
          }
          if NeverBusy(schedule) {
            EmptyBatchIsExactUntouched(old(rows), schedule, rows, expired, started, after);
          }
          return;
        }
        if |doomed| > 0 {
          ghost var scanned := rows;
          var deleted, stopped := DeleteExpired(doomed, expired, EventAt(schedule, calls));
          TransactionIsAccounted(old(rows), schedule, calls, scanned, rows, expired, pruned, doomed, deleted);
          if Undisturbed(schedule) {
            BatchStaysComplete(old(rows), schedule, calls, scanned, rows, expired, started, after, keys, doomed, pruned, deleted);
          }
          if NeverBusy(schedule) {
            NotBusyNow(schedule, calls);
            BatchKeepsUntouched(old(rows), schedule, calls, scanned, rows, expired, started, after, keys, doomed, deleted);
          }
          if calls >= |schedule| {
            PastTheSchedule(schedule, calls, scanned, rows, doomed, deleted, expired);
            CursorConsumes(scanned, rows, started, after, keys);
          }
          calls := calls + 1;
          pruned := pruned + |deleted|;
          if stopped {
            return;
          }
        } else {
          if Undisturbed(schedule) {
            CleanBatchStaysComplete(old(rows), rows, expired, started, after, keys, doomed, pruned);
          }
          if NeverBusy(schedule) {
            CleanBatchKeepsUntouched(old(rows), schedule, rows, expired, started, after, keys, doomed);
          }
          CursorConsumes(rows, rows, started, after, keys);
        }
        after, started := LastOf(keys), true;
      }
    }
  }

  /** Every row read by its key, and the keys in the order they came. */
  method LoadRows<V>(rows: map<Id, V>) returns (loaded: map<Id, V>, keys: seq<Id>)
    ensures loaded == rows && (forall id :: id in keys <==> id in rows) && Distinct(keys)
  {
    loaded, keys := map[], [];
    var unread := rows.Keys;
    while unread != {}
      invariant unread <= rows.Keys && loaded.Keys == rows.Keys - unread
      invariant forall id :: id in loaded ==> loaded[id] == rows[id]
      invariant (forall id :: id in keys <==> id in loaded) && Distinct(keys)
      decreases |unread|
    {
      var key :| key in unread;
      unread := unread - {key};
      loaded := loaded[key := rows[key]];
      keys := keys + [key];
    }
    assert loaded == rows;
  }

  class CachedStore<V(!new)> {
    const disk: SqliteStore<V>
    var items: map<Id, V>
    const order: OrderedIds

    /** Memory and id order agree with the disk. */
    ghost predicate Valid()
      reads this, disk, order, disk.generations
    {
      items == disk.rows && order.Holds(items.Keys) && disk.generation <= disk.generations.counter
    }

    /** NewCachedSQLiteStore: every row the table holds is loaded, and the ids are put in order. */
    constructor (disk: SqliteStore<V>)
      requires disk.generation <= disk.generations.counter
      ensures Valid() && this.disk == disk && fresh(order) && disk.rows == old(disk.rows)
    {
      var loaded, keys := LoadRows(disk.rows);
      this.disk, this.items := disk, loaded;
      this.order := new OrderedIds(keys, loaded.Keys);
    }

    method Get(id: Id) returns (found: Found<V>)
      requires Valid()
      ensures found == Lookup(disk.rows, id)
    {
      found := if id in items then Present(items[id]) else Absent;
    }

    method Put(id: Id, item: V)
      requires Valid()
      modifies this, disk, order, disk.generations
      ensures Valid() && items == Cached.Effect(Cached.Put(id, item), old(items)) && disk.generation > old(disk.generations.counter)
    {
      ghost var keys := items.Keys;
      disk.Put(id, item);
      items := items[id := item];
      order.Add(id, keys);
      assert items.Keys == keys + {id};
    }

    method Delete(id: Id) returns (removed: bool)
      requires Valid()
      modifies this, disk, order, disk.generations
      ensures Valid() && items == Cached.Effect(Cached.Delete(id), old(items)) && removed == (id in old(items))
      ensures if removed then disk.generation > old(disk.generations.counter) else disk.generation == old(disk.generation)
    {
      ghost var keys := items.Keys;
      removed := disk.Delete(id);
      items := items - {id};
      order.Remove(id, keys);
      assert items.Keys == keys - {id};
    }

    method Update(id: Id, fn: V -> V) returns (found: bool)
      requires Valid()
      modifies this, disk, disk.generations
      ensures Valid() && items == Cached.Effect(Cached.Update(id, fn), old(items)) && found == (id in old(items))
      ensures if found then disk.generation > old(disk.generations.counter) else disk.generation == old(disk.generation)
    {
      if id !in items {
        return false;
      }
      ghost var keys := items.Keys;
      var v := fn(items[id]);
      disk.Put(id, v);
      items := items[id := v];
      assert items.Keys == keys;
      return true;
    }

    method Upsert(id: Id, zero: V, fn: V -> V)
      requires Valid()
      modifies this, disk, order, disk.generations
      ensures Valid() && items == Cached.Effect(Cached.Upsert(id, zero, fn), old(items)) && disk.generation > old(disk.generations.counter)
    {
      ghost var keys := items.Keys;
      var v := fn(if id in items then items[id] else zero);
      disk.Put(id, v);
      items := items[id := v];
      order.Add(id, keys);
      assert items.Keys == keys + {id};
    }

    method ListPrefix(prefix: Id) returns (out: seq<Keyed<V>>)
      requires Valid()
      ensures IsPrefixListing(disk.rows, prefix, out)
    {
      out := SnapshotPrefix(items, order, prefix);
    }

    /** The writes of other callers, which go through the same lock and keep the two copies equal. */
    method Interfere(writes: seq<Write<V>>)
      requires Valid()
      modifies this`items, disk`rows, order
      ensures Valid() && items == Written(old(items), writes)
    {
      var i: nat := 0;
      while i < |writes|
        invariant i <= |writes| && Valid() && items == Written(old(items), writes[..i])
      {
        ghost var keys := items.Keys;
        assert writes[..i + 1][..i] == writes[..i];
        items := WriteOne(items, writes[i]);
        disk.rows := WriteOne(disk.rows, writes[i]);
        if writes[i].Set? {
          order.Add(writes[i].id, keys);
          assert items.Keys == keys + {writes[i].id};
        } else {
          order.Remove(writes[i].id, keys);
          assert items.Keys == keys - {writes[i].id};
        }
        i := i + 1;
      }
      assert writes[..i] == writes;
    }

    /** The memory half of one batch: forget what the transaction deleted. */
    method Forget(deleted: seq<Id>)
      requires order.Holds(items.Keys)
      modifies this`items, order
      ensures items == old(items) - (set id | id in deleted) && order.Holds(items.Keys)
    {
      ghost var before := items;
      assert before - {} == before;
      for i := 0 to |deleted|
        invariant items == before - (set id | id in deleted[..i])
        invariant order.Holds(items.Keys)
      {
        ghost var keys := items.Keys;
        items := items - {deleted[i]};
        order.Remove(deleted[i], keys);
        assert items.Keys == keys - {deleted[i]};
        assert deleted[..i + 1] == deleted[..i] + [deleted[i]];
      }
      assert deleted[..|deleted|] == deleted;
    }

    /** The candidates, picked from memory under the read lock. */
    method Candidates(expired: V -> bool) returns (doomed: seq<Id>)
      ensures forall id :: id in doomed <==> id in items && expired(items[id])
    {
      doomed := [];
      var unseen := items.Keys;
      while unseen != {}
        invariant unseen <= items.Keys
        invariant forall id :: id in doomed <==> id in items && id !in unseen && expired(items[id])
        decreases |unseen|
      {
        var key :| key in unseen;
        unseen := unseen - {key};
        if expired(items[key]) {
          doomed := doomed + [key];
        }
      }
    }

    /** One batch under the write lock: the transaction, then memory. */
    method PruneBatch(keys: seq<Id>, expired: V -> bool, e: Event<V>) returns (deleted: seq<Id>, busy: bool)
      requires Valid()
      modifies this`items, disk, order, disk.generations
      ensures Valid() && busy == e.busy
      ensures Transacted(Written(old(items), e.writes), items, keys, deleted, busy, expired)
    {
      Interfere(e.writes);
      ghost var before := items;
      deleted, busy := disk.DeleteExpired(keys, expired, Event([], e.busy));
      Forget(deleted);
    }

    /**
     * Memory and disk agree after every batch and are accounted for as in the
     * plain sweep; undisturbed, exactly the expired rows go.
     */
    method Prune(expired: V -> bool, schedule: Schedule<V>) returns (pruned: nat, calls: nat)
      requires Valid()
      modifies this`items, disk, order, disk.generations
      ensures Valid() && Accounted(old(items), schedule, calls, items, expired, pruned)
      ensures Undisturbed(schedule) ==> items == Unexpired(old(items), expired) && pruned == |old(items)| - |items|
      ensures NeverBusy(schedule) ==> ExactUntouched(old(items), schedule, items, expired)
    {
      hide Unexpired, Undisturbed, CandidatesGone, Valid, Accounted, Written, EventAt, Transacted, NeverBusy, GoneUntouched, ExactUntouched;
      var doomed := Candidates(expired);
      pruned, calls := 0, 0;
      var start: nat := 0;
      NothingHappened(items, schedule, expired);
      NoCandidatesGone(items, expired, doomed);
      NoneGoneUntouched(items, schedule, expired, doomed);
      while start < |doomed|
        invariant Valid() && start <= |doomed|
        invariant Accounted(old(items), schedule, calls, items, expired, pruned)
        invariant Undisturbed(schedule) ==> CandidatesGone(old(items), items, expired, doomed, start, pruned)
        invariant NeverBusy(schedule) ==> GoneUntouched(old(items), schedule, items, expired, doomed, start)
      {
        var end := if start + PRUNE_BATCH < |doomed| then start + PRUNE_BATCH else |doomed|;
        ghost var was := items;
        var deleted, busy := PruneBatch(doomed[start..end], expired, EventAt(schedule, calls));
        TransactionIsAccounted(old(items), schedule, calls, was, items, expired, pruned, doomed[start..end], deleted);
        if Undisturbed(schedule) {
          MoreCandidatesGone(old(items), schedule, calls, was, items, expired, doomed, start, end, pruned, deleted);
        }
        if NeverBusy(schedule) {
          NotBusyNow(schedule, calls);
          MoreGoneUntouched(old(items), schedule, calls, was, items, expired, doomed, start, end, deleted);
        }
        calls := calls + 1;
        pruned := pruned + |deleted|;
        if busy {
          return;
        }
        start := end;
      }
      if Undisturbed(schedule) {
        AllCandidatesGone(old(items), items, expired, doomed, pruned);
      }
      if NeverBusy(schedule) {
        AllGoneIsExactUntouched(old(items), schedule, items, expired, doomed);
      }
    }
  }
}
