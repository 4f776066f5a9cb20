// The in-memory store of sim/state.go and its prune in sim/state_prune.go.

module MemoryStores {
  import opened ByteOrder
  import opened OrderedIdLists
  import opened PrefixRanges

  /** The process-wide counter every store draws its generations from. */
  class StoreGenerations {
    var counter: nat

    constructor ()
      ensures counter == 0
    {
      counter := 0;
    }

    method Next() returns (g: nat)
      modifies this
      ensures g == counter == old(counter) + 1
    {
      counter := counter + 1;
      g := counter;
    }
  }

  datatype Found<V> = Absent | Present(item: V)

  function Lookup<V>(items: map<Id, V>, id: Id): (found: Found<V>) {
    if id in items then Present(items[id]) else Absent
  }

  /** The rows a prune must leave. */
  function Unexpired<V>(items: map<Id, V>, expired: V -> bool): (rest: map<Id, V>) {
    map id | id in items && !expired(items[id]) :: items[id]
  }

  /** Part of the way: of the items seen, exactly the expired ones are gone. */
  ghost predicate Midway<V>(all: map<Id, V>, items: map<Id, V>, unseen: set<Id>, expired: V -> bool, pruned: nat) {
    && unseen <= items.Keys <= all.Keys && pruned + |items| == |all|
    && (forall id :: id in items ==> items[id] == all[id])
    && (forall id :: id in all && id !in items ==> expired(all[id]))
    && (forall id :: id in items && id !in unseen ==> !expired(items[id]))
  }

  lemma NothingSeen<V>(items: map<Id, V>, expired: V -> bool)
    ensures Midway(items, items, items.Keys, expired, 0)
  {
  }

  lemma SeesOneMore<V>(all: map<Id, V>, items: map<Id, V>, unseen: set<Id>, expired: V -> bool, pruned: nat, key: Id)
    requires Midway(all, items, unseen, expired, pruned) && key in unseen
    ensures key in items
    ensures
      if expired(items[key]) then Midway(all, items - {key}, unseen - {key}, expired, pruned + 1)
      else Midway(all, items, unseen - {key}, expired, pruned)
  {
    assert (items - {key}).Keys == items.Keys - {key};
    assert |items| == |items.Keys| && |items - {key}| == |(items - {key}).Keys|;
  }

  lemma AllSeen<V>(all: map<Id, V>, items: map<Id, V>, expired: V -> bool, pruned: nat)
    requires Midway(all, items, {}, expired, pruned)
    ensures items == Unexpired(all, expired) && pruned == |all| - |items|
  {
  }

  class MemoryStore<V> {
    var items: map<Id, V>
    const order: OrderedIds
    var generation: nat
    const generations: StoreGenerations

    ghost predicate Valid()
      reads this, order, generations
    {
      order.Holds(items.Keys) && generation <= generations.counter
    }

    constructor (generations: StoreGenerations)
      modifies generations
      ensures Valid() && items == map[] && fresh(order) && this.generations == generations
      ensures generation == old(generations.counter) + 1
    {
      var none: seq<Id> := [];
      this.order := new OrderedIds(none, {});
      this.items := map[];
      this.generations := generations;
      var g := generations.Next();
      this.generation := g;
    }

    method Get(id: Id) returns (found: Found<V>)
      requires Valid()
      ensures found == Lookup(items, id)
    {
      found := if id in items then Present(items[id]) else Absent;
    }

    method Put(id: Id, item: V)
      requires Valid()
      modifies this, order, generations
      ensures Valid() && items == old(items)[id := item] && generation > old(generations.counter)
    {
      ghost var keys := items.Keys;
      items := items[id := item];
      order.Add(id, keys);
      assert items.Keys == keys + {id};
      generation := generations.Next();
    }

    method Delete(id: Id) returns (removed: bool)
      requires Valid()
      modifies this, order, generations
      ensures Valid() && items == old(items) - {id} && removed == (id in old(items))
      ensures if removed then generation > old(generations.counter) else generation == old(generation)
    {
      removed := id in items;
      if removed {
        ghost var keys := items.Keys;
        items := items - {id};
        order.Remove(id, keys);
        assert items.Keys == keys - {id};
        generation := generations.Next();
      } else {
        assert items - {id} == items;
      }
    }

    method Update(id: Id, fn: V -> V) returns (found: bool)
      requires Valid()
      modifies this, generations
      ensures Valid() && found == (id in old(items))
      ensures items == if found then old(items)[id := fn(old(items)[id])] else old(items)
      ensures if found then generation > old(generations.counter) else generation == old(generation)
    {
      found := id in items;
      if found {
        ghost var keys := items.Keys;
        items := items[id := fn(items[id])];
        assert items.Keys == keys;
        generation := generations.Next();
      }
    }

    method Upsert(id: Id, zero: V, fn: V -> V)
      requires Valid()
      modifies this, order, generations
      ensures Valid() && generation > old(generations.counter)
      ensures items == old(items)[id := fn(if id in old(items) then old(items)[id] else zero)]
    {
      ghost var keys := items.Keys;
      items := items[id := fn(if id in items then items[id] else zero)];
      order.Add(id, keys);
      assert items.Keys == keys + {id};
      generation := generations.Next();
    }

    method ListPrefix(prefix: Id) returns (out: seq<Keyed<V>>)
      requires Valid()
      ensures IsPrefixListing(items, prefix, out)
    {
      out := SnapshotPrefix(items, order, prefix);
    }

    /** Deletes exactly the expired items, whatever order the map is walked in. */
    method Prune(expired: V -> bool) returns (pruned: nat)
      requires Valid()
      modifies this, order, generations
      ensures Valid() && items == Unexpired(old(items), expired)
      ensures pruned == |old(items)| - |items|
      ensures if pruned > 0 then generation > old(generations.counter) else generation == old(generation)
    {
      hide Midway, Unexpired, Sorted;
      pruned := 0;
      var unseen := items.Keys;
      ghost var all := items;
      NothingSeen(items, expired);
      while unseen != {}
        invariant Midway(all, items, unseen, expired, pruned)
        invariant Valid() && generation == old(generation) && generations.counter == old(generations.counter)
        decreases |unseen|
      {
        var key :| key in unseen;
        SeesOneMore(all, items, unseen, expired, pruned, key);
        unseen := unseen - {key};
        if expired(items[key]) {
          ghost var keys := items.Keys;
          items := items - {key};
          order.Remove(key, keys);
          assert items.Keys == keys - {key};
          pruned := pruned + 1;
        }
      }
      AllSeen(all, items, expired, pruned);
      if pruned > 0 {
        generation := generations.Next();
      }
    }
  }
}
