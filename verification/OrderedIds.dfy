// Store ids in bytewise order: the sorted id list of sim/ordered_ids.go and the
// key-range bound of sim/state_sqlite.go, each against the plain meaning of a
// prefix listing.

module ByteOrder {

  type Byte = b: int | 0 <= b < 256

  /** A Go string is its bytes; both Go and SQLite order strings by the first byte that differs. */
  type Id = seq<Byte>

  /** The order of byte strings, and of any other strings by their codes. */
  predicate Less(a: seq<int>, b: seq<int>) {
    b != [] && (a == [] || a[0] < b[0] || (a[0] == b[0] && Less(a[1..], b[1..])))
  }

  lemma {:induction false} LessIsStrict(a: seq<int>, b: seq<int>)
    ensures !(Less(a, b) && Less(b, a)) && !Less(a, a)
    decreases |a|
  {
    if a != [] {
      LessIsStrict(a[1..], if b == [] then [] else b[1..]);
    }
  }

  lemma {:induction false} LessIsTotal(a: seq<int>, b: seq<int>)
    ensures Less(a, b) || a == b || Less(b, a)
    decreases |a|
  {
    if a != [] && b != [] {
      LessIsTotal(a[1..], b[1..]);
      assert a == [a[0]] + a[1..] && b == [b[0]] + b[1..];
    }
  }

  lemma {:induction false} LessIsTransitive(a: seq<int>, b: seq<int>, c: seq<int>)
    requires Less(a, b) && Less(b, c)
    ensures Less(a, c)
    decreases |a|
  {
    if a != [] && a[0] == b[0] == c[0] {
      LessIsTransitive(a[1..], b[1..], c[1..]);
    }
  }

  /** a <= b < c and a < b <= c order a before c. */
  lemma LessOrEqualIsTransitive(a: Id, b: Id, c: Id)
    requires !Less(b, a) && !Less(c, b)
    ensures !Less(c, a)
    ensures Less(a, b) || Less(b, c) ==> Less(a, c)
  {
    LessIsTotal(a, b);
    LessIsTotal(b, c);
    if a != b && b != c {
      LessIsTransitive(a, b, c);
    }
    LessIsStrict(a, c);
  }

  /** An id with a prefix is not before the prefix. */
  lemma {:induction false} PrefixComesFirst(prefix: Id, id: Id)
    requires prefix <= id
    ensures !Less(id, prefix)
    decreases |prefix|
  {
    if prefix != [] {
      PrefixComesFirst(prefix[1..], id[1..]);
    }
  }

  /** The ids with a prefix are an interval: nothing else falls between the prefix and one of them. */
  lemma {:induction false} PrefixesAreAnInterval(prefix: Id, id: Id, later: Id)
    requires !Less(id, prefix) && !Less(later, id) && prefix <= later
    ensures prefix <= id
    decreases |prefix|
  {
    if prefix != [] {
      PrefixesAreAnInterval(prefix[1..], id[1..], later[1..]);
      assert prefix == [prefix[0]] + prefix[1..] && id == [id[0]] + id[1..];
    }
  }

  // Ascending lists.

  ghost predicate Ascending(ids: seq<Id>) {
    forall i, j :: 0 <= i < j < |ids| ==> Less(ids[i], ids[j])
  }

  predicate IsSmallest(s: set<Id>, id: Id) {
    id in s && forall other :: other in s ==> !Less(other, id)
  }

  lemma {:induction false} SmallestExists(s: set<Id>)
    requires s != {}
    ensures exists id: Id :: IsSmallest(s, id)
    decreases |s|
  {
    var id :| id in s;
    var rest := s - {id};
    LessIsStrict(id, id);
    if rest == {} {
      assert s == {id};
      assert IsSmallest(s, id);
    } else {
      SmallestExists(rest);
      var least: Id :| IsSmallest(rest, least);
      if Less(id, least) {
        forall other | other in s
          ensures !Less(other, id)
        {
          if other != id {
            LessIsStrict(id, least);
            LessOrEqualIsTransitive(id, least, other);
          }
        }
        assert IsSmallest(s, id);
      } else {
        assert IsSmallest(s, least);
      }
    }
  }

  lemma SmallestIsUnique(s: set<Id>)
    ensures forall a: Id, b: Id :: IsSmallest(s, a) && IsSmallest(s, b) ==> a == b
  {
    forall a: Id, b: Id | IsSmallest(s, a) && IsSmallest(s, b)
      ensures a == b
    {
      LessIsTotal(a, b);
    }
  }

  function Smallest(s: set<Id>): (id: Id)
    requires s != {}
    ensures IsSmallest(s, id)
  {
    SmallestExists(s);
    SmallestIsUnique(s);
    var id :| IsSmallest(s, id);
    id
  }

  /** The ids of a set in order, which is what a sort of them gives. */
  function Sorted(s: set<Id>): (ids: seq<Id>)
    decreases |s|
  {
    if s == {} then [] else [Smallest(s)] + Sorted(s - {Smallest(s)})
  }

  lemma {:induction false} SortedIsAscending(s: set<Id>)
    ensures Ascending(Sorted(s)) && forall id :: id in Sorted(s) <==> id in s
    decreases |s|
  {
    if s != {} {
      var least := Smallest(s);
      SortedIsAscending(s - {least});
      var ids := Sorted(s);
      assert ids[0] == least && ids[1..] == Sorted(s - {least});
      forall i, j | 0 <= i < j < |ids|
        ensures Less(ids[i], ids[j])
      {
        assert ids[j] == ids[1..][j - 1];
        if i == 0 {
          assert ids[j] in Sorted(s - {least});
          LessIsTotal(least, ids[j]);
        } else {
          assert ids[i] == ids[1..][i - 1];
        }
      }
    }
  }

  /** An ascending list is determined by its members. */
  lemma {:induction false} AscendingIsUnique(a: seq<Id>, b: seq<Id>)
    requires Ascending(a) && Ascending(b)
    requires forall id :: id in a <==> id in b
    ensures a == b
    decreases |a|
  {
    assert b != [] ==> b[0] in b;
    if a != [] {
      assert a[0] in a;
      AscendingHeadsAgree(a, b);
      forall id
        ensures id in a[1..] <==> id in b[1..]
      {
        TailMembers(a, id);
        TailMembers(b, id);
      }
      AscendingIsUnique(a[1..], b[1..]);
      assert a == [a[0]] + a[1..] && b == [b[0]] + b[1..];
    }
  }

  lemma AscendingHeadsAgree(a: seq<Id>, b: seq<Id>)
    requires Ascending(a) && Ascending(b) && a != [] && b != []
    requires forall id :: id in a <==> id in b
    ensures a[0] == b[0]
  {
    assert a[0] in a && b[0] in b;
    var i :| 0 <= i < |b| && b[i] == a[0];
    var j :| 0 <= j < |a| && a[j] == b[0];
    LessIsStrict(a[0], b[0]);
  }

  lemma TailMembers(a: seq<Id>, id: Id)
    requires Ascending(a) && a != []
    ensures id in a[1..] <==> id in a && id != a[0]
  {
    LessIsStrict(a[0], a[0]);
    if id in a && id != a[0] {
      var i :| 0 <= i < |a| && a[i] == id;
      assert a[1..][i - 1] == id;
    }
    if id in a[1..] {
      var i :| 0 <= i < |a[1..]| && a[1..][i] == id;
      assert a[i + 1] == id;
    }
  }

  lemma AscendingIsSorted(ids: seq<Id>, s: set<Id>)
    requires Ascending(ids) && forall id :: id in ids <==> id in s
    ensures ids == Sorted(s)
  {
    SortedIsAscending(s);
    AscendingIsUnique(ids, Sorted(s));
  }
}

module OrderedIdLists {
  import opened ByteOrder

  /** The ids of a set that begin with a prefix. */
  ghost function Under(ids: set<Id>, prefix: Id): (s: set<Id>) {
    set id | id in ids && prefix <= id
  }

  ghost function Members(ids: seq<Id>): (s: set<Id>) {
    set id | id in ids
  }

  lemma {:induction false} SearchSplits(ids: seq<Id>, x: Id, i: nat)
    requires Ascending(ids) && i <= |ids|
    requires i > 0 ==> Less(ids[i - 1], x)
    requires i < |ids| ==> !Less(ids[i], x)
    ensures forall j :: 0 <= j < i ==> Less(ids[j], x)
    ensures forall j :: i <= j < |ids| ==> !Less(ids[j], x)
  {
    forall j | 0 <= j < i - 1
      ensures Less(ids[j], x)
    {
      LessIsTransitive(ids[j], ids[i - 1], x);
    }
    forall j | i < j < |ids|
      ensures !Less(ids[j], x)
    {
      if Less(ids[j], x) {
        LessIsTransitive(ids[i], ids[j], x);
      }
    }
  }

  /** sort.SearchStrings: the binary search for the first id not before x. */
  method Search(ids: seq<Id>, x: Id) returns (i: nat)
    requires Ascending(ids)
    ensures i <= |ids|
    ensures forall j :: 0 <= j < i ==> Less(ids[j], x)
    ensures forall j :: i <= j < |ids| ==> !Less(ids[j], x)
  {
    i := 0;
    var n: nat := |ids|;
    while i < n
      invariant i <= n <= |ids|
      invariant i > 0 ==> Less(ids[i - 1], x)
      invariant n < |ids| ==> !Less(ids[n], x)
    {
      var h := (i + n) / 2;
      if Less(ids[h], x) {
        i := h + 1;
      } else {
        n := h;
      }
    }
    SearchSplits(ids, x, i);
  }

  lemma InsertKeepsOrder(ids: seq<Id>, x: Id, i: nat)
    requires Ascending(ids) && i <= |ids|
    requires forall j :: 0 <= j < i ==> Less(ids[j], x)
    requires forall j :: i <= j < |ids| ==> !Less(ids[j], x) && ids[j] != x
    ensures var more := ids[..i] + [x] + ids[i..];
      more == Sorted(Members(ids) + {x})
  {
    var more := ids[..i] + [x] + ids[i..];
    forall j | i <= j < |ids|
      ensures Less(x, ids[j])
    {
      LessIsTotal(x, ids[j]);
    }
    forall a, b | 0 <= a < b < |more|
      ensures Less(more[a], more[b])
    {
    }
    AscendingIsSorted(more, Members(ids) + {x});
  }

  lemma RemoveKeepsOrder(ids: seq<Id>, i: nat)
    requires Ascending(ids) && i < |ids|
    ensures ids[..i] + ids[i + 1..] == Sorted(Members(ids) - {ids[i]})
  {
    var fewer := ids[..i] + ids[i + 1..];
    LessIsStrict(ids[i], ids[i]);
    forall id
      ensures id in fewer <==> id in Members(ids) - {ids[i]}
    {
      if id in ids && id != ids[i] {
        var j :| 0 <= j < |ids| && ids[j] == id;
        assert id == fewer[if j < i then j else j - 1];
      }
      if id in fewer {
        var j :| 0 <= j < |fewer| && fewer[j] == id;
        assert id == ids[if j < i then j else j + 1];
      }
    }
    AscendingIsSorted(fewer, Members(ids) - {ids[i]});
  }

  /** The ids from the first one not before the prefix, up to the first without it, are all that have it. */
  lemma RunIsThePrefixSet(ids: seq<Id>, prefix: Id, start: nat, end: nat)
    requires Ascending(ids) && start <= end <= |ids|
    requires forall j :: 0 <= j < start ==> Less(ids[j], prefix)
    requires forall j :: start <= j < |ids| ==> !Less(ids[j], prefix)
    requires forall j :: start <= j < end ==> prefix <= ids[j]
    requires end < |ids| ==> !(prefix <= ids[end])
    ensures ids[start..end] == Sorted(Under(Members(ids), prefix))
  {
    var run := ids[start..end];
    forall id
      ensures id in run <==> id in Under(Members(ids), prefix)
    {
      if id in ids && prefix <= id {
        var j :| 0 <= j < |ids| && ids[j] == id;
        PrefixComesFirst(prefix, id);
        if end <= j {
          LessIsStrict(ids[end], ids[j]);
          PrefixesAreAnInterval(prefix, ids[end], ids[j]);
        }
        assert id == run[j - start];
      }
    }
    AscendingIsSorted(run, Under(Members(ids), prefix));
  }

  lemma OneMoreMember(keys: seq<Id>, n: nat)
    requires n < |keys|
    ensures Members(keys[..n + 1]) == Members(keys[..n]) + {keys[n]}
  {
    assert keys[..n + 1] == keys[..n] + [keys[n]];
  }

  /** A new id, inserted where the search found its place, keeps a list the sorted form of its ids. */
  lemma InsertsNew(s: set<Id>, ids: seq<Id>, x: Id, i: nat)
    requires ids == Sorted(s) && x !in s && i <= |ids|
    requires (forall j :: 0 <= j < i ==> Less(ids[j], x)) && (forall j :: i <= j < |ids| ==> !Less(ids[j], x))
    ensures ids[..i] + [x] + ids[i..] == Sorted(s + {x})
  {
    SortedIsAscending(s);
    assert Members(ids) == s;
    assert forall j :: 0 <= j < |ids| ==> ids[j] in ids;
    hide Sorted;
    InsertKeepsOrder(ids, x, i);
  }

  lemma NothingSorted(keys: seq<Id>)
    ensures Members(keys[..0]) == {} && Sorted(Members(keys[..0])) == []
  {
  }

  /** A sort of distinct ids, one insertion after the other. */
  method Sort(keys: seq<Id>) returns (ids: seq<Id>)
    requires forall i, j :: 0 <= i < j < |keys| ==> keys[i] != keys[j]
    ensures ids == Sorted(Members(keys)) && |ids| == |keys|
  {
    hide Sorted, Less, Ascending;
    ids := [];
    var n: nat := 0;
    NothingSorted(keys);
    while n < |keys|
      invariant n <= |keys| && |ids| == n && ids == Sorted(Members(keys[..n]))
    {
      SortedIsAscending(Members(keys[..n]));
      OneMoreMember(keys, n);
      var i := Search(ids, keys[n]);
      assert keys[n] !in Members(keys[..n]);
      InsertsNew(Members(keys[..n]), ids, keys[n], i);
      ids := ids[..i] + [keys[n]] + ids[i..];
      n := n + 1;
    }
    assert keys[..n] == keys;
  }

  class OrderedIds {
    var ids: seq<Id>

    ghost predicate Holds(s: set<Id>)
      reads this
    {
      ids == Sorted(s)
    }

    /** orderedIDsOf: the keys of a store, which come in any order, are sorted. */
    constructor (keys: seq<Id>, ghost s: set<Id>)
      requires forall id :: id in keys <==> id in s
      requires forall i, j :: 0 <= i < j < |keys| ==> keys[i] != keys[j]
      ensures Holds(s)
    {
      var sorted := Sort(keys);
      assert Members(keys) == s;
      ids := sorted;
    }

    method Add(id: Id, ghost s: set<Id>)
      requires Holds(s)
      modifies this
      ensures Holds(s + {id})
    {
      SortedIsAscending(s);
      assert Members(ids) == s;
      var i := Search(ids, id);
      if i < |ids| && ids[i] == id {
        assert s + {id} == s;
        return;
      }
      forall j | i <= j < |ids|
        ensures ids[j] != id
      {
        LessIsTotal(ids[i], id);
        LessIsStrict(ids[i], ids[j]);
      }
      InsertKeepsOrder(ids, id, i);
      ids := ids[..i] + [id] + ids[i..];
    }

    method Remove(id: Id, ghost s: set<Id>)
      requires Holds(s)
      modifies this
      ensures Holds(s - {id})
    {
      SortedIsAscending(s);
      assert Members(ids) == s;
      var i := Search(ids, id);
      if i < |ids| && ids[i] == id {
        RemoveKeepsOrder(ids, i);
        ids := ids[..i] + ids[i + 1..];
      } else {
        forall j | 0 <= j < |ids|
          ensures ids[j] != id
        {
          LessIsStrict(id, id);
          if i < |ids| {
            LessIsTotal(ids[i], id);
            LessIsStrict(ids[i], ids[j]);
          }
        }
        assert s - {id} == s;
      }
    }

    /** The run of ids with the prefix: a binary search and a walk, and all of them in order. */
    method WithPrefix(prefix: Id, ghost s: set<Id>) returns (run: seq<Id>)
      requires Holds(s)
      ensures run == Sorted(Under(s, prefix))
    {
      SortedIsAscending(s);
      assert Members(ids) == s;
      var start := Search(ids, prefix);
      var end := start;
      while end < |ids| && prefix <= ids[end]
        invariant start <= end <= |ids|
        invariant forall j :: start <= j < end ==> prefix <= ids[j]
      {
        end := end + 1;
      }
      RunIsThePrefixSet(ids, prefix, start, end);
      run := ids[start..end];
    }
  }
}

module PrefixRanges {
  import opened ByteOrder
  import opened OrderedIdLists

  datatype Bound = Below(end: Id) | Unbounded

  /** A key range as the query states it: not before the prefix, and before the bound if there is one. */
  predicate InRange(prefix: Id, bound: Bound, id: Id) {
    !Less(id, prefix) && (bound.Below? ==> Less(id, bound.end))
  }

  /** Every byte from i on is 0xff. */
  ghost predicate MaximalFrom(prefix: Id, i: nat) {
    forall j :: i <= j < |prefix| ==> prefix[j] == 255
  }

  /** The prefix cut after byte i, with that byte raised by one. */
  function Raised(prefix: Id, i: nat): (end: Id)
    requires i < |prefix| && prefix[i] < 255
  {
    prefix[..i] + [prefix[i] + 1]
  }

  lemma {:induction false} RaisedBoundsThePrefix(prefix: Id, i: nat, id: Id)
    requires i < |prefix| && prefix[i] < 255 && MaximalFrom(prefix, i + 1)
    ensures !Less(id, prefix) && Less(id, Raised(prefix, i)) <==> prefix <= id
    decreases i
  {
    var end := Raised(prefix, i);
    if prefix <= id {
      PrefixComesFirst(prefix, id);
    }
    if id == [] {
    } else if i == 0 {
      assert end[1..] == [];
      if id[0] == prefix[0] {
        MaximalTailIsPrefix(prefix[1..], id[1..]);
        assert prefix == [prefix[0]] + prefix[1..] && id == [id[0]] + id[1..];
      }
    } else {
      RaisedBoundsThePrefix(prefix[1..], i - 1, id[1..]);
      assert end[1..] == Raised(prefix[1..], i - 1);
      assert prefix == [prefix[0]] + prefix[1..] && id == [id[0]] + id[1..];
    }
  }

  /** Nothing but 0xff: every later id begins with it. */
  lemma {:induction false} MaximalTailIsPrefix(prefix: Id, id: Id)
    requires MaximalFrom(prefix, 0)
    ensures !Less(id, prefix) <==> prefix <= id
    decreases |prefix|
  {
    if prefix != [] && id != [] {
      MaximalTailIsPrefix(prefix[1..], id[1..]);
      assert prefix == [prefix[0]] + prefix[1..] && id == [id[0]] + id[1..];
    }
  }

  /** No smaller bound would do: an id with the prefix lies at or past anything before the raised bound. */
  lemma {:induction false} RaisedIsTheLeastBound(prefix: Id, i: nat, b: Id) returns (id: Id)
    requires i < |prefix| && prefix[i] < 255 && MaximalFrom(prefix, i + 1)
    requires Less(b, Raised(prefix, i))
    ensures prefix <= id && !Less(id, b)
  {
    if Less(b, prefix) {
      id := prefix;
      LessIsStrict(b, prefix);
    } else {
      RaisedBoundsThePrefix(prefix, i, b);
      id := b;
      LessIsStrict(b, b);
    }
  }

  lemma {:induction false} MaximalHasNoBound(prefix: Id, b: Id) returns (id: Id)
    requires MaximalFrom(prefix, 0)
    ensures prefix <= id && !Less(id, b)
  {
    if Less(b, prefix) {
      id := prefix;
      LessIsStrict(b, prefix);
    } else {
      MaximalTailIsPrefix(prefix, b);
      id := b;
      LessIsStrict(b, b);
    }
  }

  /** Some id with the prefix is not before b, so b bounds none of them. */
  ghost predicate ReachesPast(prefix: Id, b: Id) {
    exists id: Id :: prefix <= id && !Less(id, b)
  }

  /** The bound is exact for the prefix, and the least one; without a bound, none exists. */
  ghost predicate ExactBound(prefix: Id, bound: Bound) {
    && (forall id: Id :: InRange(prefix, bound, id) <==> prefix <= id)
    && (bound.Below? ==> forall b: Id :: Less(b, bound.end) ==> ReachesPast(prefix, b))
    && (bound.Unbounded? ==> forall b: Id :: ReachesPast(prefix, b))
  }

  lemma RaisedIsExact(prefix: Id, i: nat)
    requires i < |prefix| && prefix[i] < 255 && MaximalFrom(prefix, i + 1)
    ensures ExactBound(prefix, Below(Raised(prefix, i)))
  {
    forall id: Id
      ensures InRange(prefix, Below(Raised(prefix, i)), id) <==> prefix <= id
    {
      RaisedBoundsThePrefix(prefix, i, id);
    }
    forall b: Id | Less(b, Raised(prefix, i))
      ensures ReachesPast(prefix, b)
    {
      var id := RaisedIsTheLeastBound(prefix, i, b);
    }
  }

  lemma MaximalIsUnbounded(prefix: Id)
    requires MaximalFrom(prefix, 0)
    ensures ExactBound(prefix, Unbounded)
  {
    forall id: Id
      ensures InRange(prefix, Unbounded, id) <==> prefix <= id
    {
      MaximalTailIsPrefix(prefix, id);
    }
    forall b: Id
      ensures ReachesPast(prefix, b)
    {
      var id := MaximalHasNoBound(prefix, b);
    }
  }

  /** prefixEnd: from the last byte down, raise the first that is not 0xff. */
  method PrefixEnd(prefix: Id) returns (bound: Bound)
    ensures ExactBound(prefix, bound)
  {
    var i: int := |prefix| - 1;
    while i >= 0
      invariant -1 <= i < |prefix|
      invariant MaximalFrom(prefix, i + 1)
    {
      if prefix[i] < 255 {
        RaisedIsExact(prefix, i);
        return Below(Raised(prefix, i));
      }
      i := i - 1;
    }
    MaximalIsUnbounded(prefix);
    return Unbounded;
  }

  /** A listed item with its id. */
  datatype Keyed<V> = Keyed(id: Id, item: V)

  /** What each form of ListPrefix owes its caller: all ids under the prefix, ascending, each with its item. */
  ghost predicate IsPrefixListing<V>(items: map<Id, V>, prefix: Id, out: seq<Keyed<V>>) {
    && |out| == |Sorted(Under(items.Keys, prefix))|
    && forall i :: 0 <= i < |out| ==>
         out[i].id == Sorted(Under(items.Keys, prefix))[i] && out[i].id in items && out[i].item == items[out[i].id]
  }

  /** What the database answers to a key-range query ordered by key. */
  ghost predicate IsRangeAnswer<V>(table: map<Id, V>, prefix: Id, bound: Bound, rows: seq<Keyed<V>>) {
    && (forall i, j :: 0 <= i < j < |rows| ==> Less(rows[i].id, rows[j].id))
    && (forall i :: 0 <= i < |rows| ==>
          rows[i].id in table && rows[i].item == table[rows[i].id] && InRange(prefix, bound, rows[i].id))
    && (forall id :: id in table && InRange(prefix, bound, id) ==> exists i :: 0 <= i < |rows| && rows[i].id == id)
  }

  /** The SQLite form: with the exact bound, the range answer is the prefix listing. */
  lemma RangeAnswerIsPrefixListing<V>(table: map<Id, V>, prefix: Id, bound: Bound, rows: seq<Keyed<V>>)
    requires ExactBound(prefix, bound) && IsRangeAnswer(table, prefix, bound, rows)
    ensures IsPrefixListing(table, prefix, rows)
  {
    hide Less, Sorted;
    var ids := seq(|rows|, i requires 0 <= i < |rows| => rows[i].id);
    forall id
      ensures id in ids <==> id in Under(table.Keys, prefix)
    {
      if id in Under(table.Keys, prefix) {
        assert InRange(prefix, bound, id);
        var i :| 0 <= i < |rows| && rows[i].id == id;
        assert ids[i] == id;
      }
      if id in ids {
        var i :| 0 <= i < |ids| && ids[i] == id;
        assert InRange(prefix, bound, rows[i].id);
      }
    }
    AscendingIsSorted(ids, Under(table.Keys, prefix));
  }

  /** The memory and cached form: the items of the id run. */
  method SnapshotPrefix<V>(items: map<Id, V>, order: OrderedIds, prefix: Id) returns (out: seq<Keyed<V>>)
    requires order.Holds(items.Keys)
    ensures IsPrefixListing(items, prefix, out)
  {
    var ids := order.WithPrefix(prefix, items.Keys);
    SortedIsAscending(Under(items.Keys, prefix));
    assert forall i :: 0 <= i < |ids| ==> ids[i] in ids;
    out := [];
    var n: nat := 0;
    while n < |ids|
      invariant n == |out| <= |ids|
      invariant forall i :: 0 <= i < n ==> out[i].id == ids[i] && out[i].id in items && out[i].item == items[out[i].id]
    {
      assert ids[n] in Under(items.Keys, prefix);
      out := out + [Keyed(ids[n], items[ids[n]])];
      n := n + 1;
    }
  }

  /** All forms of ListPrefix agree: a store's contents leave one possible answer. */
  lemma PrefixListingIsUnique<V>(items: map<Id, V>, prefix: Id, a: seq<Keyed<V>>, b: seq<Keyed<V>>)
    requires IsPrefixListing(items, prefix, a) && IsPrefixListing(items, prefix, b)
    ensures a == b
  {
    forall i | 0 <= i < |a|
      ensures a[i] == b[i]
    {
    }
  }
}
