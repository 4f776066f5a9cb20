// The whole-store rewrite of sim/store_scan.go: keys are renamed, and strings
// are edited wherever they sit inside a stored value.

module StoreRemap {
  import opened Common

  /** A stored value as reflection sees it. Get hands out a deep copy, so it is a tree. */
  datatype Value =
    | Str(text: string)
    | Nil                          // a nil pointer, interface, map or slice
    | Ref(target: Value)           // a pointer or interface that is not nil
    | Struct(fields: seq<Field>)
    | List(elems: seq<Value>)      // a slice or array of anything but bytes
    | Bytes(data: seq<int>)
    | Dict(entries: seq<Entry>)    // a map, under its keys
    | Scalar(n: int)

  /** Reflection can set an exported field only. */
  datatype Field = Field(exported: bool, value: Value)

  datatype Entry = Entry(key: string, value: Value)

  datatype Remapped = Remapped(changed: bool, value: Value)

  type Edit = string -> string

  /** remapStrings: the rewritten value, and whether any string changed. */
  function RemapStrings(v: Value, edit: Edit): (r: Remapped)
    decreases v
  {
    match v
    case Str(text) =>
      var edited := edit(text);
      if edited == text then Remapped(false, v) else Remapped(true, Str(edited))
    case Ref(target) =>
      var r := RemapStrings(target, edit);
      if r.changed then Remapped(true, Ref(r.value)) else Remapped(false, v)
    case Struct(fields) =>
      var rs := RemapFields(v, fields, edit, |fields|);
      Remapped(exists i :: 0 <= i < |fields| && fields[i].exported && rs[i].changed,
               Struct(seq(|fields|, i requires 0 <= i < |fields| => Field(fields[i].exported, rs[i].value))))
    case List(elems) =>
      var rs := RemapElems(v, elems, edit, |elems|);
      Remapped(exists i :: 0 <= i < |elems| && rs[i].changed,
               List(seq(|elems|, i requires 0 <= i < |elems| => rs[i].value)))
    case Dict(entries) =>
      var rs := RemapEntries(v, entries, edit, |entries|);
      Remapped(exists i :: 0 <= i < |entries| && rs[i].changed,
               Dict(seq(|entries|, i requires 0 <= i < |entries| => Entry(entries[i].key, rs[i].value))))
    case _ => Remapped(false, v)
  }

  function RemapFields(ghost v: Value, fields: seq<Field>, edit: Edit, n: nat): (rs: seq<Remapped>)
    requires n <= |fields| && v == Struct(fields)
    ensures |rs| == n
    ensures forall i :: 0 <= i < n ==> rs[i] == if fields[i].exported then RemapStrings(fields[i].value, edit) else Remapped(false, fields[i].value)
    decreases v, n
  {
    if n == 0 then [] else
      RemapFields(v, fields, edit, n - 1) +
      [if fields[n - 1].exported then RemapStrings(fields[n - 1].value, edit) else Remapped(false, fields[n - 1].value)]
  }

  function RemapElems(ghost v: Value, elems: seq<Value>, edit: Edit, n: nat): (rs: seq<Remapped>)
    requires n <= |elems| && v == List(elems)
    ensures |rs| == n
    ensures forall i :: 0 <= i < n ==> rs[i] == RemapStrings(elems[i], edit)
    decreases v, n
  {
    if n == 0 then [] else RemapElems(v, elems, edit, n - 1) + [RemapStrings(elems[n - 1], edit)]
  }

  function RemapEntries(ghost v: Value, entries: seq<Entry>, edit: Edit, n: nat): (rs: seq<Remapped>)
    requires n <= |entries| && v == Dict(entries)
    ensures |rs| == n
    ensures forall i :: 0 <= i < n ==> rs[i] == RemapStrings(entries[i].value, edit)
    decreases v, n
  {
    if n == 0 then [] else RemapEntries(v, entries, edit, n - 1) + [RemapStrings(entries[n - 1].value, edit)]
  }

  // What it should do, said by paths into the value.

  /** One step down; a reference has one child, at index 0. */
  function Child(v: Value, i: nat): (c: Option<Value>) {
    match v
    case Ref(target) => if i == 0 then Some(target) else None
    case Struct(fields) => if i < |fields| then Some(fields[i].value) else None
    case List(elems) => if i < |elems| then Some(elems[i]) else None
    case Dict(entries) => if i < |entries| then Some(entries[i].value) else None
    case _ => None
  }

  function At(v: Value, path: seq<nat>): (node: Option<Value>)
    decreases |path|
  {
    if path == [] then Some(v)
    else match Child(v, path[0]) case None => None case Some(c) => At(c, path[1..])
  }

  /** The path passes through no unexported field. */
  predicate Settable(v: Value, path: seq<nat>)
    decreases |path|
  {
    path == [] ||
    match Child(v, path[0])
    case None => true
    case Some(c) => (v.Struct? ==> v.fields[path[0]].exported) && Settable(c, path[1..])
  }

  /** The same node apart from what hangs below it and from a string's text. */
  predicate SameKind(a: Value, b: Value) {
    match (a, b)
    case (Str(_), Str(_)) => true
    case (Ref(_), Ref(_)) => true
    case (Struct(f), Struct(g)) => |f| == |g| && forall i :: 0 <= i < |f| ==> f[i].exported == g[i].exported
    case (List(e), List(g)) => |e| == |g|
    case (Dict(e), Dict(g)) => |e| == |g| && forall i :: 0 <= i < |e| ==> e[i].key == g[i].key
    case (_, _) => a == b
  }

  lemma ChildFollows(v: Value, edit: Edit, i: nat)
    ensures var w := RemapStrings(v, edit).value;
      match Child(v, i)
      case None => Child(w, i) == None
      case Some(c) =>
        Child(w, i) == Some(if v.Struct? && !v.fields[i].exported then c else RemapStrings(c, edit).value)
    ensures SameKind(v, RemapStrings(v, edit).value)
  {
    if v.Ref? {
      ChangedExactlyWhenDifferent(v.target, edit);
    }
  }

  /** It reports a change exactly when the value changed. */
  lemma {:induction false} ChangedExactlyWhenDifferent(v: Value, edit: Edit)
    ensures RemapStrings(v, edit).changed <==> RemapStrings(v, edit).value != v
    decreases v
  {
    var w := RemapStrings(v, edit).value;
    match v
    case Ref(target) => ChangedExactlyWhenDifferent(target, edit);
    case Struct(fields) =>
      forall i | 0 <= i < |fields| && fields[i].exported
        ensures RemapStrings(fields[i].value, edit).changed <==> RemapStrings(fields[i].value, edit).value != fields[i].value
      {
        ChangedExactlyWhenDifferent(fields[i].value, edit);
      }
      if !RemapStrings(v, edit).changed {
        assert w.fields == fields;
      }
    case List(elems) =>
      forall i | 0 <= i < |elems|
        ensures RemapStrings(elems[i], edit).changed <==> RemapStrings(elems[i], edit).value != elems[i]
      {
        ChangedExactlyWhenDifferent(elems[i], edit);
      }
      if !RemapStrings(v, edit).changed {
        assert w.elems == elems;
      }
    case Dict(entries) =>
      forall i | 0 <= i < |entries|
        ensures RemapStrings(entries[i].value, edit).changed <==> RemapStrings(entries[i].value, edit).value != entries[i].value
      {
        ChangedExactlyWhenDifferent(entries[i].value, edit);
      }
      if !RemapStrings(v, edit).changed {
        assert w.entries == entries;
      }
    case _ =>
  }

  /**
   * At every path: nothing appears or vanishes, a string is edited exactly when
   * every field on the way can be set, and everything else, map keys and byte
   * slices included, stays as it was.
   */
  lemma {:induction false} RemapEditsExactlyTheReachableStrings(v: Value, edit: Edit, path: seq<nat>)
    ensures var w := RemapStrings(v, edit).value;
      match At(v, path)
      case None => At(w, path) == None
      case Some(node) =>
        && At(w, path).Some? && SameKind(node, At(w, path).value)
        && (node.Str? ==> At(w, path).value == Str(if Settable(v, path) then edit(node.text) else node.text))
    decreases |path|
  {
    ChildFollows(v, edit, if path == [] then 0 else path[0]);
    if path != [] {
      match Child(v, path[0])
      case None =>
      case Some(c) =>
        if !(v.Struct? && !v.fields[path[0]].exported) {
          RemapEditsExactlyTheReachableStrings(c, edit, path[1..]);
        } else if At(c, path[1..]).Some? {
          SameKindIsReflexive(At(c, path[1..]).value);
        }
    }
  }

  lemma SameKindIsReflexive(v: Value)
    ensures SameKind(v, v)
  {
  }

  // The pass over a store.

  type Rows = map<string, Value>

  function Edited(v: Value, edit: Edit): (w: Value) {
    RemapStrings(v, edit).value
  }

  /** What one key of the snapshot does to the store. */
  function Visit(rows: Rows, key: string, rekey: string -> string, edit: Edit): (after: Rows) {
    if key !in rows then rows
    else
      var r := RemapStrings(rows[key], edit);
      if !r.changed && rekey(key) == key then rows
      else (if rekey(key) != key then rows - {key} else rows)[rekey(key) := r.value]
  }

  function VisitAll(rows: Rows, keys: seq<string>, rekey: string -> string, edit: Edit, n: nat): (after: Rows)
    requires n <= |keys|
  {
    if n == 0 then rows else Visit(VisitAll(rows, keys, rekey, edit, n - 1), keys[n - 1], rekey, edit)
  }

  /** A snapshot of the keys, in any order. */
  ghost predicate Snapshot(keys: seq<string>, rows: Rows) {
    && (forall i, j :: 0 <= i < j < |keys| ==> keys[i] != keys[j])
    && forall k :: k in keys <==> k in rows
  }

  class Store {
    var rows: Rows

    method Remap(keys: seq<string>, rekey: string -> string, edit: Edit)
      modifies this
      ensures rows == VisitAll(old(rows), keys, rekey, edit, |keys|)
    {
      for n := 0 to |keys|
        invariant rows == VisitAll(old(rows), keys, rekey, edit, n)
      {
        var key := keys[n];
        if key in rows {
          var r := RemapStrings(rows[key], edit);
          var newKey := rekey(key);
          if r.changed || newKey != key {
            if newKey != key {
              rows := rows - {key};
            }
            rows := rows[newKey := r.value];
          }
        }
      }
    }
  }

  /** Exactly the old rows under their new keys with their strings edited: none lost, none doubled. */
  ghost predicate Exact(rows: Rows, after: Rows, rekey: string -> string, edit: Edit) {
    && |after| == |rows|
    && (forall k :: k in rows ==> rekey(k) in after && after[rekey(k)] == Edited(rows[k], edit))
    && (forall x :: x in after ==> exists k :: k in rows && x == rekey(k))
  }

  /** A moved key lands on a key the store did not hold, and no two land together. */
  ghost predicate LandsApart(rows: Rows, rekey: string -> string) {
    && (forall k :: k in rows && rekey(k) != k ==> rekey(k) !in rows)
    && (forall k, l :: k in rows && l in rows && k != l ==> rekey(k) != rekey(l))
  }

  /** Where the i-th key's row is once n keys have been visited. */
  function Place(keys: seq<string>, n: nat, rekey: string -> string, i: nat): (k: string)
    requires i < |keys|
  {
    if i < n then rekey(keys[i]) else keys[i]
  }

  /** Visited rows have moved and changed, the others have not. */
  ghost predicate InPlace(rows: Rows, cur: Rows, keys: seq<string>, n: nat, rekey: string -> string, edit: Edit, i: nat)
    requires i < |keys|
  {
    && keys[i] in rows && Place(keys, n, rekey, i) in cur
    && cur[Place(keys, n, rekey, i)] == if i < n then Edited(rows[keys[i]], edit) else rows[keys[i]]
  }

  ghost predicate HasPlace(keys: seq<string>, n: nat, rekey: string -> string, k: string) {
    exists i: nat :: i < |keys| && k == Place(keys, n, rekey, i)
  }

  /** Part of the way: every row is in its place and there is nothing else. */
  ghost predicate Midway(rows: Rows, cur: Rows, keys: seq<string>, n: nat, rekey: string -> string, edit: Edit) {
    && |cur| == |rows|
    && (forall i: nat :: i < |keys| ==> InPlace(rows, cur, keys, n, rekey, edit, i))
    && (forall k :: k in cur ==> HasPlace(keys, n, rekey, k))
  }

  /** Two rows never meet, moved or not. */
  lemma RowsStayApart(rows: Rows, keys: seq<string>, rekey: string -> string, n: nat, m: nat, i: nat, j: nat)
    requires Snapshot(keys, rows) && LandsApart(rows, rekey) && i < |keys| && j < |keys| && i != j
    ensures Place(keys, n, rekey, i) != Place(keys, m, rekey, j)
  {
    assert keys[i] in keys && keys[j] in keys;
    assert keys[i] in rows && keys[j] in rows && keys[i] != keys[j];
  }

  function Moved(rows: Rows, key: string, newKey: string, v: Value): (after: Rows) {
    (rows - {key})[newKey := v]
  }

  lemma VisitIsAMove(rows: Rows, key: string, rekey: string -> string, edit: Edit)
    requires key in rows
    ensures Visit(rows, key, rekey, edit) == Moved(rows, key, rekey(key), Edited(rows[key], edit))
  {
    ChangedExactlyWhenDifferent(rows[key], edit);
  }

  lemma MoveKeepsCount(rows: Rows, key: string, newKey: string, v: Value)
    requires key in rows && (newKey == key || newKey !in rows)
    ensures |Moved(rows, key, newKey, v)| == |rows|
  {
    assert Moved(rows, key, newKey, v).Keys == rows.Keys - {key} + {newKey};
    assert |rows.Keys - {key}| == |rows.Keys| - 1;
  }

  lemma NothingVisited(rows: Rows, keys: seq<string>, rekey: string -> string, edit: Edit)
    requires Snapshot(keys, rows)
    ensures Midway(rows, rows, keys, 0, rekey, edit)
  {
    forall i: nat | i < |keys|
      ensures InPlace(rows, rows, keys, 0, rekey, edit, i)
    {
      assert keys[i] in keys;
    }
    forall k | k in rows
      ensures HasPlace(keys, 0, rekey, k)
    {
      assert k in keys;
      var i :| 0 <= i < |keys| && keys[i] == k;
      assert k == Place(keys, 0, rekey, i);
    }
  }

  lemma NewPlaceIsFree(rows: Rows, cur: Rows, keys: seq<string>, n: nat, rekey: string -> string)
    requires Snapshot(keys, rows) && LandsApart(rows, rekey) && n < |keys|
    requires rekey(keys[n]) in cur ==> HasPlace(keys, n, rekey, rekey(keys[n]))
    ensures rekey(keys[n]) == keys[n] || rekey(keys[n]) !in cur
  {
    hide Snapshot, LandsApart;
    if rekey(keys[n]) in cur {
      var i: nat :| i < |keys| && rekey(keys[n]) == Place(keys, n, rekey, i);
      assert rekey(keys[n]) == Place(keys, n + 1, rekey, n);
      if i != n {
        RowsStayApart(rows, keys, rekey, n, n + 1, i, n);
      }
    }
  }

  lemma MoveKeepsPlace(rows: Rows, cur: Rows, keys: seq<string>, n: nat, rekey: string -> string, edit: Edit, i: nat)
    requires Snapshot(keys, rows) && LandsApart(rows, rekey) && n < |keys| && i < |keys| && keys[n] in rows
    requires InPlace(rows, cur, keys, n, rekey, edit, i)
    ensures InPlace(rows, Moved(cur, keys[n], rekey(keys[n]), Edited(rows[keys[n]], edit)), keys, n + 1, rekey, edit, i)
  {
    hide Edited, Snapshot, LandsApart;
    assert keys[n] == Place(keys, n, rekey, n) && rekey(keys[n]) == Place(keys, n + 1, rekey, n);
    if i != n {
      RowsStayApart(rows, keys, rekey, n, n, i, n);
      RowsStayApart(rows, keys, rekey, n, n + 1, i, n);
    }
  }

  lemma MoveLeavesNothingElse(cur: Rows, keys: seq<string>, n: nat, rekey: string -> string, v: Value, k: string)
    requires n < |keys| && k in Moved(cur, keys[n], rekey(keys[n]), v) && (k in cur ==> HasPlace(keys, n, rekey, k))
    ensures HasPlace(keys, n + 1, rekey, k)
  {
    if k == rekey(keys[n]) {
      assert k == Place(keys, n + 1, rekey, n);
    } else {
      var i: nat :| i < |keys| && k == Place(keys, n, rekey, i);
      assert k == Place(keys, n + 1, rekey, i);
    }
  }

  lemma VisitKeepsMidway(rows: Rows, cur: Rows, keys: seq<string>, n: nat, rekey: string -> string, edit: Edit)
    requires Snapshot(keys, rows) && LandsApart(rows, rekey) && n < |keys| && Midway(rows, cur, keys, n, rekey, edit)
    ensures Midway(rows, Visit(cur, keys[n], rekey, edit), keys, n + 1, rekey, edit)
  {
    hide Visit, Edited, Snapshot, LandsApart, HasPlace, Moved;
    var key, next := keys[n], n + 1;
    assert InPlace(rows, cur, keys, n, rekey, edit, n);
    var after := Moved(cur, key, rekey(key), Edited(rows[key], edit));
    VisitIsAMove(cur, key, rekey, edit);
    NewPlaceIsFree(rows, cur, keys, n, rekey);
    MoveKeepsCount(cur, key, rekey(key), Edited(rows[key], edit));
    forall i: nat | i < |keys|
      ensures InPlace(rows, after, keys, next, rekey, edit, i)
    {
      MoveKeepsPlace(rows, cur, keys, n, rekey, edit, i);
    }
    forall k | k in after
      ensures HasPlace(keys, next, rekey, k)
    {
      MoveLeavesNothingElse(cur, keys, n, rekey, Edited(rows[key], edit), k);
    }
  }

  lemma {:induction false} VisitsStayMidway(rows: Rows, keys: seq<string>, rekey: string -> string, edit: Edit, n: nat)
    requires Snapshot(keys, rows) && LandsApart(rows, rekey) && n <= |keys|
    ensures Midway(rows, VisitAll(rows, keys, rekey, edit, n), keys, n, rekey, edit)
    decreases n
  {
    hide Midway, Visit, Snapshot, LandsApart;
    if n == 0 {
      NothingVisited(rows, keys, rekey, edit);
    } else {
      VisitsStayMidway(rows, keys, rekey, edit, n - 1);
      VisitKeepsMidway(rows, VisitAll(rows, keys, rekey, edit, n - 1), keys, n - 1, rekey, edit);
    }
  }

  lemma RemapIsExact(rows: Rows, keys: seq<string>, rekey: string -> string, edit: Edit)
    requires Snapshot(keys, rows) && LandsApart(rows, rekey)
    ensures Exact(rows, VisitAll(rows, keys, rekey, edit, |keys|), rekey, edit)
  {
    var after := VisitAll(rows, keys, rekey, edit, |keys|);
    VisitsStayMidway(rows, keys, rekey, edit, |keys|);
    forall k | k in rows
      ensures rekey(k) in after && after[rekey(k)] == Edited(rows[k], edit)
    {
      assert k in keys;
      var i :| 0 <= i < |keys| && keys[i] == k;
      assert InPlace(rows, after, keys, |keys|, rekey, edit, i);
    }
    forall x | x in after
      ensures exists k :: k in rows && x == rekey(k)
    {
      assert HasPlace(keys, |keys|, rekey, x);
      var i: nat :| i < |keys| && x == Place(keys, |keys|, rekey, i);
      assert InPlace(rows, after, keys, |keys|, rekey, edit, i);
    }
  }

  /** Visiting never gains a row, and landing on a held key loses one. */
  lemma VisitNeverGains(rows: Rows, key: string, rekey: string -> string, edit: Edit)
    ensures |Visit(rows, key, rekey, edit)| <= |rows|
    ensures key in rows && rekey(key) != key && rekey(key) in rows ==> |Visit(rows, key, rekey, edit)| < |rows|
  {
    var after := Visit(rows, key, rekey, edit);
    if key in rows && rekey(key) != key {
      assert after.Keys == rows.Keys - {key} + {rekey(key)};
      assert |rows.Keys - {key}| == |rows.Keys| - 1;
      if rekey(key) in rows {
        assert after.Keys == rows.Keys - {key};
      }
      assert |after.Keys| <= |rows.Keys - {key}| + 1;
    } else {
      assert after.Keys == rows.Keys;
    }
    assert |after| == |after.Keys| && |rows| == |rows.Keys|;
  }

  lemma {:induction false} VisitsNeverGain(rows: Rows, keys: seq<string>, rekey: string -> string, edit: Edit, n: nat)
    requires 1 <= n <= |keys|
    ensures |VisitAll(rows, keys, rekey, edit, n)| <= |Visit(rows, keys[0], rekey, edit)|
    decreases n
  {
    if n > 1 {
      VisitsNeverGain(rows, keys, rekey, edit, n - 1);
      VisitNeverGains(VisitAll(rows, keys, rekey, edit, n - 1), keys[n - 1], rekey, edit);
    } else {
      assert VisitAll(rows, keys, rekey, edit, 0) == rows;
    }
  }

  lemma {:induction false} KeysInSomeOrder(held: set<string>) returns (keys: seq<string>)
    ensures (forall i, j :: 0 <= i < j < |keys| ==> keys[i] != keys[j]) && forall k :: k in keys <==> k in held
    decreases |held|
  {
    if held == {} {
      keys := [];
    } else {
      var k :| k in held;
      var rest := KeysInSomeOrder(held - {k});
      assert forall i :: 0 <= i < |rest| ==> rest[i] in rest;
      keys := [k] + rest;
    }
  }

  /** An order that visits one given key first. */
  lemma SnapshotStartingWith(rows: Rows, first: string) returns (keys: seq<string>)
    requires first in rows
    ensures Snapshot(keys, rows) && keys != [] && keys[0] == first
  {
    var rest := KeysInSomeOrder(rows.Keys - {first});
    assert forall i :: 0 <= i < |rest| ==> rest[i] in rest;
    keys := [first] + rest;
  }

  lemma {:induction false} CollisionLosesARow(rows: Rows, after: Rows, rekey: string -> string, edit: Edit, k: string, l: string)
    requires k in rows && l in rows && k != l && rekey(k) == rekey(l)
    requires forall x :: x in after ==> exists y :: y in rows && x == rekey(y)
    ensures |after| < |rows|
  {
    var image := set y | y in rows - {l} :: rekey(y);
    forall x | x in after
      ensures x in image
    {
      var y :| y in rows && x == rekey(y);
      assert (if y == l then k else y) in rows - {l};
    }
    assert after.Keys <= image;
    SubsetIsNoLarger(after.Keys, image);
    ImageIsNoLarger(rows.Keys - {l}, rekey, image);
    assert (rows - {l}).Keys == rows.Keys - {l};
  }

  lemma {:induction false} ImageIsNoLarger(s: set<string>, f: string -> string, image: set<string>)
    requires image == set y | y in s :: f(y)
    ensures |image| <= |s|
    decreases |s|
  {
    if s != {} {
      var x :| x in s;
      var rest := set y | y in s - {x} :: f(y);
      ImageIsNoLarger(s - {x}, f, rest);
      assert image == rest + {f(x)};
    }
  }

  ghost predicate ExactInEveryOrder(rows: Rows, rekey: string -> string, edit: Edit) {
    forall keys: seq<string> :: Snapshot(keys, rows) ==> Exact(rows, VisitAll(rows, keys, rekey, edit, |keys|), rekey, edit)
  }

  lemma LandingOnAHeldKeyIsNotExact(rows: Rows, rekey: string -> string, edit: Edit, k: string)
    requires k in rows && rekey(k) != k && rekey(k) in rows
    ensures !ExactInEveryOrder(rows, rekey, edit)
  {
    var keys := SnapshotStartingWith(rows, k);
    VisitsNeverGain(rows, keys, rekey, edit, |keys|);
    VisitNeverGains(rows, k, rekey, edit);
    assert !Exact(rows, VisitAll(rows, keys, rekey, edit, |keys|), rekey, edit);
  }

  /** Two keys that land together lose a row whatever the order. */
  lemma CollidingKeysAreNotExact(rows: Rows, keys: seq<string>, rekey: string -> string, edit: Edit, k: string, l: string)
    requires k in rows && l in rows && k != l && rekey(k) == rekey(l) && Snapshot(keys, rows)
    ensures !Exact(rows, VisitAll(rows, keys, rekey, edit, |keys|), rekey, edit)
  {
    var after := VisitAll(rows, keys, rekey, edit, |keys|);
    if Exact(rows, after, rekey, edit) {
      CollisionLosesARow(rows, after, rekey, edit, k, l);
    }
  }

  /**
   * The rewrite is exact, whatever order the keys are visited in, if and only
   * if moved keys land on distinct keys the store did not hold.
   */
  lemma RemapIsExactExactlyWhen(rows: Rows, rekey: string -> string, edit: Edit)
    ensures ExactInEveryOrder(rows, rekey, edit) <==> LandsApart(rows, rekey)
  {
    if LandsApart(rows, rekey) {
      forall keys: seq<string> | Snapshot(keys, rows)
        ensures Exact(rows, VisitAll(rows, keys, rekey, edit, |keys|), rekey, edit)
      {
        RemapIsExact(rows, keys, rekey, edit);
      }
    } else if k :| k in rows && rekey(k) != k && rekey(k) in rows {
      LandingOnAHeldKeyIsNotExact(rows, rekey, edit, k);
    } else {
      var k, l :| k in rows && l in rows && k != l && rekey(k) == rekey(l);
      var keys := SnapshotStartingWith(rows, k);
      CollidingKeysAreNotExact(rows, keys, rekey, edit, k, l);
    }
  }
}
