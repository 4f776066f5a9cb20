// The generation-keyed index of sim/index.go over the stores of sim/state.go,
// sim/state_sqlite.go and sim/state_cached.go. The stores share one generation
// counter; writes and lookups interleave step by step.

module GenerationIndexes {
  import opened Common

  // What a lookup should answer.

  /** The first n keys of a row, kept where they name the key and the key is not empty. */
  function RowUnder<T>(row: T, keys: seq<string>, key: string, n: nat): (rows: seq<T>)
    requires n <= |keys|
  {
    if n == 0 then []
    else RowUnder(row, keys, key, n - 1) + (if keys[n - 1] == key && key != "" then [row] else [])
  }

  /** A full scan of the first n listed rows: the rows that answer on the key, in listed order. */
  function Scan<T>(rows: seq<T>, keysOf: T -> seq<string>, key: string, n: nat): (found: seq<T>)
    requires n <= |rows|
  {
    if n == 0 then []
    else Scan(rows, keysOf, key, n - 1) + RowUnder(rows[n - 1], keysOf(rows[n - 1]), key, |keysOf(rows[n - 1])|)
  }

  function Under<T>(byKey: map<string, seq<T>>, key: string): (rows: seq<T>) {
    if key in byKey then byKey[key] else []
  }

  /** The map holds, for every key, what a scan of the first n rows finds. */
  ghost predicate IndexesRows<T>(byKey: map<string, seq<T>>, rows: seq<T>, keysOf: T -> seq<string>, n: nat)
    requires n <= |rows|
  {
    forall key: string :: Under(byKey, key) == Scan(rows, keysOf, key, n)
  }

  /** The map holds, for every key, what a full scan finds. */
  ghost predicate Indexes<T>(byKey: map<string, seq<T>>, rows: seq<T>, keysOf: T -> seq<string>) {
    IndexesRows(byKey, rows, keysOf, |rows|)
  }

  /** The map after the first n rows and the first m keys of the next one. */
  ghost predicate IndexesSoFar<T>(byKey: map<string, seq<T>>, rows: seq<T>, keysOf: T -> seq<string>, n: nat, m: nat)
    requires n < |rows| && m <= |keysOf(rows[n])|
  {
    forall key: string ::
      Under(byKey, key) == Scan(rows, keysOf, key, n) + RowUnder(rows[n], keysOf(rows[n]), key, m)
  }

  function Append<T>(byKey: map<string, seq<T>>, k: string, row: T): (byKey': map<string, seq<T>>) {
    if k == "" then byKey else byKey[k := Under(byKey, k) + [row]]
  }

  lemma AppendIndexesOneMore<T>(byKey: map<string, seq<T>>, rows: seq<T>, keysOf: T -> seq<string>, n: nat, m: nat)
    requires n < |rows| && m < |keysOf(rows[n])| && IndexesSoFar(byKey, rows, keysOf, n, m)
    ensures IndexesSoFar(Append(byKey, keysOf(rows[n])[m], rows[n]), rows, keysOf, n, m + 1)
  {
    var keys := keysOf(rows[n]);
    var byKey' := Append(byKey, keys[m], rows[n]);
    forall key: string
      ensures Under(byKey', key) == Scan(rows, keysOf, key, n) + RowUnder(rows[n], keys, key, m + 1)
    {
      assert Under(byKey, key) == Scan(rows, keysOf, key, n) + RowUnder(rows[n], keys, key, m);
      assert RowUnder(rows[n], keys, key, m + 1)
          == RowUnder(rows[n], keys, key, m) + (if keys[m] == key && key != "" then [rows[n]] else []);
    }
  }

  lemma NoRowsYet<T>(rows: seq<T>, keysOf: T -> seq<string>)
    ensures IndexesRows(map[], rows, keysOf, 0)
  {
  }

  lemma RowStarts<T>(byKey: map<string, seq<T>>, rows: seq<T>, keysOf: T -> seq<string>, n: nat)
    requires n < |rows| && IndexesRows(byKey, rows, keysOf, n)
    ensures IndexesSoFar(byKey, rows, keysOf, n, 0)
  {
    forall key: string
      ensures Under(byKey, key) == Scan(rows, keysOf, key, n) + RowUnder(rows[n], keysOf(rows[n]), key, 0)
    {
      assert RowUnder(rows[n], keysOf(rows[n]), key, 0) == [];
    }
  }

  lemma RowEnds<T>(byKey: map<string, seq<T>>, rows: seq<T>, keysOf: T -> seq<string>, n: nat)
    requires n < |rows| && IndexesSoFar(byKey, rows, keysOf, n, |keysOf(rows[n])|)
    ensures IndexesRows(byKey, rows, keysOf, n + 1)
  {
  }

  /** LookupAll's rebuild: one pass over the rows and their keys. */
  method Rebuild<T>(rows: seq<T>, keysOf: T -> seq<string>) returns (byKey: map<string, seq<T>>)
    ensures Indexes(byKey, rows, keysOf)
  {
    hide IndexesRows, IndexesSoFar;
    byKey := map[];
    var i: nat := 0;
    NoRowsYet(rows, keysOf);
    while i < |rows|
      invariant i <= |rows|
      invariant IndexesRows(byKey, rows, keysOf, i)
    {
      var keys := keysOf(rows[i]);
      var j: nat := 0;
      RowStarts(byKey, rows, keysOf, i);
      while j < |keys|
        invariant j <= |keys|
        invariant IndexesSoFar(byKey, rows, keysOf, i, j)
      {
        AppendIndexesOneMore(byKey, rows, keysOf, i, j);
        byKey := Append(byKey, keys[j], rows[i]);
        j := j + 1;
      }
      RowEnds(byKey, rows, keysOf, i);
      i := i + 1;
    }
  }

  // The stores and the index.

  /** How a store orders its row write and its generation bump. */
  datatype Kind =
    | Memory   // both under one write lock
    | SQLite   // the row first, then the bump, with readers let in between
    | Cached   // the bump first, then the rows readers see, with readers kept out between

  datatype Pending<T> = Quiet | Unbumped | Unpublished(next: map<string, T>)

  /** `versions` are all contents readers could see, oldest first; those up to `acked` were written by writes that returned. */
  datatype Store<T> = Store(kind: Kind, versions: seq<map<string, T>>, generation: nat, acked: nat, pending: Pending<T>)

  /** The store a generation was drawn for, and the version it was drawn to announce. */
  datatype Birth = Birth(store: nat, version: nat)

  /** The index fields, with the listing they came from. */
  datatype Index<T> = Index(built: bool, generation: nat, byKey: map<string, seq<T>>, listing: seq<T>, store: nat, version: nat)

  datatype Writer = NoWriter | HeldBy(thread: nat)

  /** Where a store stood when a call began. */
  datatype Ticket = Ticket(version: nat, acked: nat, unbumped: bool)

  /** Where a thread is in LookupAll. */
  datatype Pc<T> =
    | Idle
    | Called(store: nat, key: string, ticket: Ticket)
    | Read(store: nat, key: string, ticket: Ticket, generation: nat)
    | Missed(store: nat, key: string, ticket: Ticket, generation: nat)
    | Building(store: nat, key: string, ticket: Ticket, generation: nat)
    | Listed(store: nat, key: string, ticket: Ticket, generation: nat, listing: seq<T>, version: nat)
    | Returned(store: nat, key: string, ticket: Ticket, rows: seq<T>, listing: seq<T>, version: nat)

  datatype State<T> = State(
    counter: nat, born: map<nat, Birth>, stores: seq<Store<T>>,
    index: Index<T>, writer: Writer, threads: seq<Pc<T>>)

  datatype Step<T> =
    | Create(kind: Kind, contents: map<string, T>)
    | MemoryWrite(i: nat, contents: map<string, T>)
    | RowWrite(i: nat, contents: map<string, T>)
    | Bump(i: nat)
    | CachedWrite(i: nat, contents: map<string, T>)
    | Publish(i: nat)
    | Call(t: nat, store: nat, key: string)
    | ReadGeneration(t: nat)
    | Hit(t: nat)
    | Miss(t: nat)
    | LockAndRebuild(t: nat)
    | List(t: nat, listing: seq<T>)
    | Install(t: nat, byKey: map<string, seq<T>>)

  /** A listing of a store's contents: each row once, in any order. */
  ghost predicate Lists<T>(listing: seq<T>, contents: map<string, T>) {
    exists ids: seq<string> ::
      && |ids| == |listing|
      && (forall i, j :: 0 <= i < j < |ids| ==> ids[i] != ids[j])
      && (forall id :: id in ids <==> id in contents)
      && (forall i :: 0 <= i < |ids| ==> ids[i] in contents && listing[i] == contents[ids[i]])
  }

  predicate Current<T>(s: State<T>, generation: nat) {
    s.index.built && s.index.generation == generation
  }

  ghost predicate StoreStepEnabled<T>(s: State<T>, step: Step<T>) {
    match step
    case MemoryWrite(i, _) => i < |s.stores| && s.stores[i].kind == Memory
    case RowWrite(i, _) => i < |s.stores| && s.stores[i].kind == SQLite && s.stores[i].pending == Quiet
    case Bump(i) => i < |s.stores| && s.stores[i].pending == Unbumped
    case CachedWrite(i, _) => i < |s.stores| && s.stores[i].kind == Cached && s.stores[i].pending == Quiet
    case Publish(i) => i < |s.stores| && s.stores[i].pending.Unpublished?
    case Create(_, _) => true
    case _ => false
  }

  ghost predicate LookupStepEnabled<T>(s: State<T>, keysOf: T -> seq<string>, step: Step<T>) {
    match step
    case Call(t, store, _) =>
      t < |s.threads| && (s.threads[t].Idle? || s.threads[t].Returned?) && store < |s.stores| && s.stores[store].versions != []
    case ReadGeneration(t) => t < |s.threads| && s.threads[t].Called? && s.threads[t].store < |s.stores|
    case Hit(t) =>
      t < |s.threads| && (s.threads[t].Read? || s.threads[t].Missed?) && s.writer == NoWriter && Current(s, s.threads[t].generation)
    case Miss(t) =>
      t < |s.threads| && s.threads[t].Read? && s.writer == NoWriter && !Current(s, s.threads[t].generation)
    case LockAndRebuild(t) =>
      t < |s.threads| && s.threads[t].Missed? && s.writer == NoWriter && !Current(s, s.threads[t].generation)
    case List(t, listing) =>
      && t < |s.threads| && s.threads[t].Building? && s.threads[t].store < |s.stores|
      && var store := s.stores[s.threads[t].store];
         store.versions != [] && !store.pending.Unpublished? && Lists(listing, store.versions[|store.versions| - 1])
    case Install(t, byKey) =>
      t < |s.threads| && s.threads[t].Listed? && Indexes(byKey, s.threads[t].listing, keysOf)
    case _ => false
  }

  ghost predicate Enabled<T>(s: State<T>, keysOf: T -> seq<string>, step: Step<T>) {
    StoreStepEnabled(s, step) || LookupStepEnabled(s, keysOf, step)
  }

  /** Replaces store i, drawing a fresh generation that announces the given version. */
  function Draw<T>(s: State<T>, i: nat, store: Store<T>, version: nat): (s': State<T>)
    requires i <= |s.stores|
  {
    var g := s.counter + 1;
    var stamped := store.(generation := g);
    s.(counter := g, born := s.born[g := Birth(i, version)],
       stores := if i == |s.stores| then s.stores + [stamped] else s.stores[i := stamped])
  }

  function ApplyStoreStep<T>(s: State<T>, step: Step<T>): (s': State<T>)
    requires StoreStepEnabled(s, step)
  {
    match step
    case Create(kind, contents) => Draw(s, |s.stores|, Store(kind, [contents], 0, 0, Quiet), 0)
    case MemoryWrite(i, contents) =>
      var v := s.stores[i].versions;
      Draw(s, i, s.stores[i].(versions := v + [contents], acked := |v|), |v|)
    case RowWrite(i, contents) =>
      s.(stores := s.stores[i := s.stores[i].(versions := s.stores[i].versions + [contents], pending := Unbumped)])
    case Bump(i) =>
      var last := if s.stores[i].versions == [] then 0 else |s.stores[i].versions| - 1;
      Draw(s, i, s.stores[i].(acked := last, pending := Quiet), last)
    case CachedWrite(i, contents) =>
      Draw(s, i, s.stores[i].(pending := Unpublished(contents)), |s.stores[i].versions|)
    case Publish(i) =>
      var v := s.stores[i].versions;
      s.(stores := s.stores[i := s.stores[i].(versions := v + [s.stores[i].pending.next], acked := |v|, pending := Quiet)])
  }

  function Move<T>(s: State<T>, t: nat, pc: Pc<T>): (s': State<T>)
    requires t < |s.threads|
  {
    s.(threads := s.threads[t := pc])
  }

  ghost function ApplyLookupStep<T>(s: State<T>, keysOf: T -> seq<string>, step: Step<T>): (s': State<T>)
    requires LookupStepEnabled(s, keysOf, step)
  {
    var pc := s.threads[step.t];
    match step
    case Call(t, store, key) =>
      var st := s.stores[store];
      Move(s, t, Called(store, key, Ticket(|st.versions| - 1, st.acked, st.pending == Unbumped)))
    case ReadGeneration(t) => Move(s, t, Read(pc.store, pc.key, pc.ticket, s.stores[pc.store].generation))
    case Hit(t) => Move(s, t, Returned(pc.store, pc.key, pc.ticket, Under(s.index.byKey, pc.key), s.index.listing, s.index.version))
    case Miss(t) => Move(s, t, Missed(pc.store, pc.key, pc.ticket, pc.generation))
    case LockAndRebuild(t) => Move(s.(writer := HeldBy(t)), t, Building(pc.store, pc.key, pc.ticket, pc.generation))
    case List(t, listing) =>
      Move(s, t, Listed(pc.store, pc.key, pc.ticket, pc.generation, listing, |s.stores[pc.store].versions| - 1))
    case Install(t, byKey) =>
      Move(s.(index := Index(true, pc.generation, byKey, pc.listing, pc.store, pc.version), writer := NoWriter),
           t, Returned(pc.store, pc.key, pc.ticket, Under(byKey, pc.key), pc.listing, pc.version))
  }

  ghost function Apply<T>(s: State<T>, keysOf: T -> seq<string>, step: Step<T>): (s': State<T>)
    requires Enabled(s, keysOf, step)
  {
    if StoreStepEnabled(s, step) then ApplyStoreStep(s, step) else ApplyLookupStep(s, keysOf, step)
  }

  /** A fresh process: no store, an index never built, any number of idle threads. */
  ghost predicate Start<T>(s: State<T>) {
    && s.counter == 0 && s.born == map[] && s.stores == [] && !s.index.built && s.writer == NoWriter
    && forall t :: 0 <= t < |s.threads| ==> s.threads[t] == Idle
  }

  ghost predicate Path<T>(states: seq<State<T>>, keysOf: T -> seq<string>, steps: seq<Step<T>>) {
    && |states| == |steps| + 1
    && forall i :: 0 <= i < |steps| ==>
         Enabled(states[i], keysOf, steps[i]) && states[i + 1] == Apply(states[i], keysOf, steps[i])
  }

  ghost predicate Run<T>(states: seq<State<T>>, keysOf: T -> seq<string>, steps: seq<Step<T>>) {
    Path(states, keysOf, steps) && Start(states[0])
  }

  // The invariant, piece by piece.

  ghost predicate StoreOk<T>(s: State<T>, i: nat)
    requires i < |s.stores|
  {
    var st := s.stores[i];
    && st.versions != []
    && st.generation in s.born && s.born[st.generation].store == i
    && var version := s.born[st.generation].version;
       match st.pending
       case Quiet => version == st.acked == |st.versions| - 1
       case Unbumped => st.kind == SQLite && version == st.acked == |st.versions| - 2
       case Unpublished(_) => st.kind == Cached && st.acked == |st.versions| - 1 && version == |st.versions|
  }

  ghost predicate BirthOk<T>(s: State<T>, g: nat)
    requires g in s.born
  {
    && g <= s.counter
    && s.born[g].store < |s.stores|
    && var st := s.stores[s.born[g].store];
       s.born[g].version < |st.versions| || (st.pending.Unpublished? && s.born[g].version == |st.versions|)
  }

  ghost predicate StoresOk<T>(s: State<T>) {
    && (forall i :: 0 <= i < |s.stores| ==> StoreOk(s, i))
    && (forall g :: g in s.born ==> BirthOk(s, g))
  }

  /** A version of a store, at or past the one the generation announced, and a listing of it. */
  ghost predicate Announced<T>(s: State<T>, generation: nat, store: nat, version: nat, listing: seq<T>) {
    && generation in s.born && s.born[generation].store == store
    && store < |s.stores| && s.born[generation].version <= version < |s.stores[store].versions|
    && Lists(listing, s.stores[store].versions[version])
  }

  ghost predicate IndexOk<T>(s: State<T>, keysOf: T -> seq<string>) {
    s.index.built ==>
      && Announced(s, s.index.generation, s.index.store, s.index.version, s.index.listing)
      && Indexes(s.index.byKey, s.index.listing, keysOf)
  }

  ghost predicate TicketOk<T>(s: State<T>, store: nat, ticket: Ticket) {
    && store < |s.stores|
    && ticket.acked <= s.stores[store].acked
    && ticket.version < |s.stores[store].versions|
    && (ticket.version == ticket.acked || (ticket.unbumped && s.stores[store].kind == SQLite && ticket.version == ticket.acked + 1))
  }

  ghost predicate ReadOk<T>(s: State<T>, store: nat, ticket: Ticket, generation: nat) {
    generation in s.born && s.born[generation].store == store && ticket.acked <= s.born[generation].version
  }

  ghost predicate ThreadOk<T>(s: State<T>, keysOf: T -> seq<string>, pc: Pc<T>) {
    match pc
    case Idle => true
    case Called(store, _, ticket) => TicketOk(s, store, ticket)
    case Read(store, _, ticket, g) => TicketOk(s, store, ticket) && ReadOk(s, store, ticket, g)
    case Missed(store, _, ticket, g) => TicketOk(s, store, ticket) && ReadOk(s, store, ticket, g)
    case Building(store, _, ticket, g) => TicketOk(s, store, ticket) && ReadOk(s, store, ticket, g)
    case Listed(store, _, ticket, g, listing, version) =>
      TicketOk(s, store, ticket) && ReadOk(s, store, ticket, g) && Announced(s, g, store, version, listing)
    case Returned(store, key, ticket, rows, listing, version) =>
      && TicketOk(s, store, ticket)
      && ticket.acked <= version < |s.stores[store].versions|
      && Lists(listing, s.stores[store].versions[version])
      && rows == Scan(listing, keysOf, key, |listing|)
  }

  ghost predicate ThreadsOk<T>(s: State<T>, keysOf: T -> seq<string>) {
    forall t :: 0 <= t < |s.threads| ==> ThreadOk(s, keysOf, s.threads[t])
  }

  ghost predicate WriterOk<T>(s: State<T>) {
    forall t :: 0 <= t < |s.threads| ==> ((s.threads[t].Building? || s.threads[t].Listed?) <==> s.writer == HeldBy(t))
  }

  ghost predicate Inv<T>(s: State<T>, keysOf: T -> seq<string>) {
    StoresOk(s) && IndexOk(s, keysOf) && ThreadsOk(s, keysOf) && WriterOk(s)
  }

  /** Stores only grow: no version a reader saw is rewritten, and no generation is drawn twice. */
  ghost predicate Grows<T>(s: State<T>, s': State<T>) {
    && |s.stores| <= |s'.stores|
    && (forall i :: 0 <= i < |s.stores| ==>
          && s.stores[i].versions <= s'.stores[i].versions
          && s.stores[i].acked <= s'.stores[i].acked
          && s.stores[i].kind == s'.stores[i].kind)
    && (forall g :: g in s.born ==> g in s'.born && s'.born[g] == s.born[g])
  }

  lemma StoreStepGrows<T>(s: State<T>, step: Step<T>)
    requires StoresOk(s) && StoreStepEnabled(s, step)
    ensures Grows(s, ApplyStoreStep(s, step))
  {
    if !step.Create? {
      assert StoreOk(s, step.i);
    }
    forall g | g in s.born
      ensures g != s.counter + 1
    {
      assert BirthOk(s, g);
    }
  }

  lemma DrawKeepsStores<T>(s: State<T>, i: nat, store: Store<T>, version: nat)
    requires StoresOk(s) && i <= |s.stores|
    requires i < |s.stores| ==>
      && |s.stores[i].versions| <= |store.versions|
      && (s.stores[i].pending.Unpublished? ==> store.pending == s.stores[i].pending)
    requires StoreOk(Draw(s, i, store, version), i)
    requires BirthOk(Draw(s, i, store, version), s.counter + 1)
    ensures StoresOk(Draw(s, i, store, version))
  {
    var s' := Draw(s, i, store, version);
    forall j | 0 <= j < |s'.stores| && j != i
      ensures StoreOk(s', j)
    {
      assert StoreOk(s, j);
      assert BirthOk(s, s.stores[j].generation);
    }
    forall g | g in s'.born
      ensures BirthOk(s', g)
    {
      if g != s.counter + 1 {
        assert BirthOk(s, g);
      }
    }
  }

  lemma StoreStepKeepsStores<T>(s: State<T>, step: Step<T>)
    requires StoresOk(s) && StoreStepEnabled(s, step)
    ensures StoresOk(ApplyStoreStep(s, step))
  {
    hide BirthOk;
    var s' := ApplyStoreStep(s, step);
    match step
    case Create(kind, contents) => DrawKeepsStores(s, |s.stores|, Store(kind, [contents], 0, 0, Quiet), 0);
    case MemoryWrite(i, contents) =>
      assert StoreOk(s, i);
      var v := s.stores[i].versions;
      DrawKeepsStores(s, i, s.stores[i].(versions := v + [contents], acked := |v|), |v|);
    case Bump(i) =>
      assert StoreOk(s, i);
      var last := |s.stores[i].versions| - 1;
      DrawKeepsStores(s, i, s.stores[i].(acked := last, pending := Quiet), last);
    case CachedWrite(i, contents) =>
      assert StoreOk(s, i);
      DrawKeepsStores(s, i, s.stores[i].(pending := Unpublished(contents)), |s.stores[i].versions|);
    case RowWrite(i, _) =>
      assert StoreOk(s, i);
      WriteKeepsStores(s, s', i);
    case Publish(i) =>
      assert StoreOk(s, i);
      WriteKeepsStores(s, s', i);
  }

  lemma WriteKeepsStores<T>(s: State<T>, s': State<T>, i: nat)
    requires StoresOk(s) && i < |s.stores| && |s'.stores| == |s.stores|
    requires s'.born == s.born && s'.counter == s.counter
    requires s'.stores == s.stores[i := s'.stores[i]]
    requires |s'.stores[i].versions| == |s.stores[i].versions| + 1
    requires StoreOk(s', i)
    ensures StoresOk(s')
  {
    forall j | 0 <= j < |s'.stores| && j != i
      ensures StoreOk(s', j)
    {
      assert StoreOk(s, j);
    }
    forall g | g in s'.born
      ensures BirthOk(s', g)
    {
      assert BirthOk(s, g);
    }
  }

  lemma GrowthKeepsAnnounced<T>(s: State<T>, s': State<T>, generation: nat, store: nat, version: nat, listing: seq<T>)
    requires Grows(s, s') && Announced(s, generation, store, version, listing)
    ensures Announced(s', generation, store, version, listing)
  {
    assert s'.stores[store].versions[version] == s.stores[store].versions[version];
  }

  lemma GrowthKeepsThread<T>(s: State<T>, s': State<T>, keysOf: T -> seq<string>, pc: Pc<T>)
    requires Grows(s, s') && ThreadOk(s, keysOf, pc)
    ensures ThreadOk(s', keysOf, pc)
  {
    match pc
    case Listed(store, _, _, g, listing, version) => GrowthKeepsAnnounced(s, s', g, store, version, listing);
    case Returned(store, _, _, _, _, version) =>
      assert s'.stores[store].versions[version] == s.stores[store].versions[version];
    case _ =>
  }

  lemma StoreStepKeeps<T>(s: State<T>, keysOf: T -> seq<string>, step: Step<T>)
    requires Inv(s, keysOf) && StoreStepEnabled(s, step)
    ensures Inv(ApplyStoreStep(s, step), keysOf)
  {
    var s' := ApplyStoreStep(s, step);
    StoreStepGrows(s, step);
    StoreStepKeepsStores(s, step);
    if s.index.built {
      GrowthKeepsAnnounced(s, s', s.index.generation, s.index.store, s.index.version, s.index.listing);
    }
    forall t | 0 <= t < |s'.threads|
      ensures ThreadOk(s', keysOf, s'.threads[t])
    {
      GrowthKeepsThread(s, s', keysOf, s.threads[t]);
    }
  }

  lemma SameStoresOk<T>(s: State<T>, s': State<T>)
    requires StoresOk(s) && s'.stores == s.stores && s'.born == s.born && s'.counter == s.counter
    ensures StoresOk(s') && Grows(s, s')
  {
    forall i | 0 <= i < |s'.stores|
      ensures StoreOk(s', i)
    {
      assert StoreOk(s, i);
    }
    forall g | g in s'.born
      ensures BirthOk(s', g)
    {
      assert BirthOk(s, g);
    }
  }

  /** The step's own thread comes out right. */
  lemma MoverOk<T>(s: State<T>, keysOf: T -> seq<string>, step: Step<T>)
    requires StoresOk(s) && IndexOk(s, keysOf) && LookupStepEnabled(s, keysOf, step)
    requires ThreadOk(s, keysOf, s.threads[step.t])
    ensures ThreadOk(s, keysOf, ApplyLookupStep(s, keysOf, step).threads[step.t])
  {
    hide Lists, Scan;
    var pc := s.threads[step.t];
    match step
    case Call(_, store, _) => assert StoreOk(s, store);
    case ReadGeneration(_) => assert StoreOk(s, pc.store);
    case List(_, _) => assert StoreOk(s, pc.store) && BirthOk(s, pc.generation);
    case _ =>
  }

  lemma LookupStepKeepsWriter<T>(s: State<T>, keysOf: T -> seq<string>, step: Step<T>)
    requires WriterOk(s) && LookupStepEnabled(s, keysOf, step)
    ensures WriterOk(ApplyLookupStep(s, keysOf, step))
  {
  }

  lemma LookupStepKeepsIndex<T>(s: State<T>, keysOf: T -> seq<string>, step: Step<T>)
    requires IndexOk(s, keysOf) && LookupStepEnabled(s, keysOf, step)
    requires ThreadOk(s, keysOf, s.threads[step.t])
    ensures IndexOk(ApplyLookupStep(s, keysOf, step), keysOf)
  {
  }

  lemma LookupStepKeeps<T>(s: State<T>, keysOf: T -> seq<string>, step: Step<T>)
    requires Inv(s, keysOf) && LookupStepEnabled(s, keysOf, step)
    ensures Inv(ApplyLookupStep(s, keysOf, step), keysOf)
  {
    var s' := ApplyLookupStep(s, keysOf, step);
    SameStoresOk(s, s');
    assert ThreadOk(s, keysOf, s.threads[step.t]);
    hide ThreadOk, IndexOk, WriterOk, StoresOk, Lists, Indexes, Under;
    MoverOk(s, keysOf, step);
    LookupStepKeepsWriter(s, keysOf, step);
    LookupStepKeepsIndex(s, keysOf, step);
    forall t | 0 <= t < |s'.threads|
      ensures ThreadOk(s', keysOf, s'.threads[t])
    {
      GrowthKeepsThread(s, s', keysOf, s'.threads[t]);
    }
  }

  lemma StepKeeps<T>(s: State<T>, keysOf: T -> seq<string>, step: Step<T>)
    requires Inv(s, keysOf) && Enabled(s, keysOf, step)
    ensures Inv(Apply(s, keysOf, step), keysOf)
  {
    if StoreStepEnabled(s, step) {
      StoreStepKeeps(s, keysOf, step);
    } else {
      LookupStepKeeps(s, keysOf, step);
    }
  }

  lemma {:induction false} RunKeepsInv<T>(states: seq<State<T>>, keysOf: T -> seq<string>, steps: seq<Step<T>>, n: nat)
    requires Run(states, keysOf, steps) && n < |states|
    ensures Inv(states[n], keysOf)
    decreases n
  {
    if n > 0 {
      RunKeepsInv(states, keysOf, steps, n - 1);
      StepKeeps(states[n - 1], keysOf, steps[n - 1]);
    }
  }

  /** The answer is what a full scan finds in one version of the store that was asked. */
  ghost predicate AnswersFrom<T(!new)>(s: State<T>, keysOf: T -> seq<string>, pc: Pc<T>, version: nat)
    requires pc.Returned?
  {
    && pc.store < |s.stores| && version < |s.stores[pc.store].versions|
    && exists listing: seq<T> ::
         Lists(listing, s.stores[pc.store].versions[version]) && pc.rows == Scan(listing, keysOf, pc.key, |listing|)
  }

  /**
   * Whatever interleaves, and whichever store replaces another: a lookup
   * answers from one version of its own store, no older than every write that
   * returned before the call, and for a memory or cached store no older than
   * what a reader saw when the call began.
   */
  lemma LookupIsAScanOfRecentContents<T(!new)>(states: seq<State<T>>, keysOf: T -> seq<string>, steps: seq<Step<T>>, n: nat, t: nat)
    requires Run(states, keysOf, steps) && n < |states| && t < |states[n].threads| && states[n].threads[t].Returned?
    ensures var s := states[n]; var pc := s.threads[t];
      && AnswersFrom(s, keysOf, pc, pc.version)
      && pc.ticket.acked <= pc.version
      && (s.stores[pc.store].kind != SQLite ==> pc.ticket.version <= pc.version)
      && (!pc.ticket.unbumped ==> pc.ticket.version <= pc.version)
      && pc.ticket.version <= pc.version + 1
  {
    RunKeepsInv(states, keysOf, steps, n);
    assert ThreadOk(states[n], keysOf, states[n].threads[t]);
  }

  // When a lookup can be older than the call. A SQLite store shows a row before
  // its generation moves; an index already built at the old generation, or
  // about to be installed at it, answers without that row.

  ghost predicate ServesStale<T>(s: State<T>, i: nat) {
    && i < |s.stores| && s.stores[i].pending == Unbumped
    && var g, newest := s.stores[i].generation, |s.stores[i].versions| - 1;
       if s.writer == NoWriter then
         Current(s, g) && s.index.version < newest
       else
         var u := s.writer.thread;
         u < |s.threads| && s.threads[u].Listed? && s.threads[u].generation == g && s.threads[u].version < newest
  }

  /** A path on which thread t's one call of the store begins at s and has returned at the end. */
  ghost predicate Completes<T>(s: State<T>, keysOf: T -> seq<string>, t: nat, i: nat, key: string,
                               states: seq<State<T>>, steps: seq<Step<T>>)
  {
    && Path(states, keysOf, steps) && |steps| > 0
    && states[0] == s && steps[0] == Call(t, i, key)
    && (forall n :: 0 < n < |steps| ==> !(steps[n].Call? && steps[n].t == t))
    && t < |states[|steps|].threads| && states[|steps|].threads[t].Returned?
  }

  /** The listing a stale answer comes from. */
  ghost function StaleListing<T>(s: State<T>, i: nat): (listing: seq<T>)
    requires ServesStale(s, i)
  {
    if s.writer == NoWriter then s.index.listing else s.threads[s.writer.thread].listing
  }

  /** A scan of some listing of the contents gives the rows. */
  ghost predicate ScansTo<T(!new)>(contents: map<string, T>, keysOf: T -> seq<string>, key: string, rows: seq<T>) {
    exists listing: seq<T> :: Lists(listing, contents) && rows == Scan(listing, keysOf, key, |listing|)
  }

  /** The rows are those of a version of store i that was current at some time between s and s'. */
  ghost predicate OfCurrentContents<T(!new)>(s: State<T>, s': State<T>, keysOf: T -> seq<string>, i: nat, key: string, rows: seq<T>)
    requires i < |s.stores|
  {
    && i < |s'.stores|
    && exists v :: |s.stores[i].versions| - 1 <= v && 0 <= v < |s'.stores[i].versions| && ScansTo(s'.stores[i].versions[v], keysOf, key, rows)
  }

  /** Every way the call can go, its answer is a scan of contents that were current during the call. */
  ghost predicate AlwaysRight<T(!new)>(s: State<T>, keysOf: T -> seq<string>, t: nat, i: nat, key: string)
    requires i < |s.stores|
  {
    forall states: seq<State<T>>, steps: seq<Step<T>> ::
      Completes(s, keysOf, t, i, key, states, steps) ==>
        OfCurrentContents(s, states[|steps|], keysOf, i, key, states[|steps|].threads[t].rows)
  }

  /** The stale listing answers the key with rows no scan of the store's contents gives. */
  ghost predicate AnswersWrong<T(!new)>(s: State<T>, keysOf: T -> seq<string>, i: nat, key: string) {
    && ServesStale(s, i) && s.stores[i].versions != []
    && var listing := StaleListing(s, i);
       !ScansTo(s.stores[i].versions[|s.stores[i].versions| - 1], keysOf, key, Scan(listing, keysOf, key, |listing|))
  }

  /** A listing of `newest` or later, or the one stale listing there is. */
  ghost predicate Acceptable<T>(version: nat, listing: seq<T>, newest: nat, stale: Option<seq<T>>) {
    version >= newest || stale == Some(listing)
  }

  /** What keeps a call fresh: all that is recorded at generation g0 is acceptable. */
  ghost predicate FreshSoFar<T>(s: State<T>, t: nat, i: nat, g0: nat, newest: nat, stale: Option<seq<T>>) {
    && i < |s.stores| && newest < |s.stores[i].versions|
    && g0 in s.born && s.born[g0].store == i
    && IndexFresh(s, g0, newest, stale)
    && GenerationFresh(s, i, s.stores[i].generation, g0, newest)
    && t < |s.threads| && CallFresh(s, s.threads[t], i, g0, newest, stale)
  }

  ghost predicate IndexFresh<T>(s: State<T>, g0: nat, newest: nat, stale: Option<seq<T>>) {
    if s.writer == NoWriter then
      Current(s, g0) ==> Acceptable(s.index.version, s.index.listing, newest, stale)
    else
      s.writer.thread < |s.threads| && s.threads[s.writer.thread].Listed? && s.threads[s.writer.thread].generation == g0 ==>
        Acceptable(s.threads[s.writer.thread].version, s.threads[s.writer.thread].listing, newest, stale)
  }

  ghost predicate GenerationFresh<T>(s: State<T>, i: nat, g: nat, g0: nat, newest: nat) {
    g in s.born && s.born[g].store == i && (g == g0 || s.born[g].version >= newest)
  }

  ghost predicate CallFresh<T>(s: State<T>, pc: Pc<T>, i: nat, g0: nat, newest: nat, stale: Option<seq<T>>) {
    match pc
    case Idle => false
    case Called(store, _, _) => store == i
    case Read(store, _, _, g) => store == i && GenerationFresh(s, i, g, g0, newest)
    case Missed(store, _, _, g) => store == i && GenerationFresh(s, i, g, g0, newest)
    case Building(store, _, _, g) => store == i && GenerationFresh(s, i, g, g0, newest)
    case Listed(store, _, _, g, listing, version) => store == i && GenerationFresh(s, i, g, g0, newest) && Acceptable(version, listing, newest, stale)
    case Returned(store, _, _, _, listing, version) => store == i && Acceptable(version, listing, newest, stale)
  }

  /** What is fresh stays so while stores only grow and the index and the threads stay as they are. */
  lemma FreshGrows<T>(s: State<T>, s': State<T>, t: nat, i: nat, g0: nat, newest: nat, stale: Option<seq<T>>)
    requires Grows(s, s') && s'.index == s.index && s'.writer == s.writer && s'.threads == s.threads
    requires FreshSoFar(s, t, i, g0, newest, stale) && GenerationFresh(s', i, s'.stores[i].generation, g0, newest)
    ensures FreshSoFar(s', t, i, g0, newest, stale)
  {
    assert s.stores[i].versions <= s'.stores[i].versions;
  }

  /** A store's generation announces the newest version or a later one once it moves. */
  lemma StoreStepGeneration<T>(s: State<T>, step: Step<T>, i: nat, g0: nat, newest: nat)
    requires StoresOk(s) && StoreStepEnabled(s, step) && i < |s.stores| && newest < |s.stores[i].versions|
    requires GenerationFresh(s, i, s.stores[i].generation, g0, newest) && Grows(s, ApplyStoreStep(s, step))
    ensures var s' := ApplyStoreStep(s, step);
      && s'.index == s.index && s'.writer == s.writer && s'.threads == s.threads
      && GenerationFresh(s', i, s'.stores[i].generation, g0, newest)
  {
    assert StoreOk(s, i);
    hide StoresOk, Grows, StoreOk;
  }

  lemma StoreStepStaysFresh<T>(s: State<T>, keysOf: T -> seq<string>, step: Step<T>, t: nat, i: nat, g0: nat, newest: nat, stale: Option<seq<T>>)
    requires Inv(s, keysOf) && StoreStepEnabled(s, step) && FreshSoFar(s, t, i, g0, newest, stale)
    ensures FreshSoFar(ApplyStoreStep(s, step), t, i, g0, newest, stale)
  {
    hide StoresOk, IndexOk, ThreadsOk, WriterOk, Grows, ApplyStoreStep, StoreStepEnabled, IndexFresh, CallFresh, GenerationFresh;
    StoreStepGrows(s, step);
    StoreStepGeneration(s, step, i, g0, newest);
    FreshGrows(s, ApplyStoreStep(s, step), t, i, g0, newest, stale);
  }

  lemma LookupStepKeepsIndexFresh<T>(s: State<T>, keysOf: T -> seq<string>, step: Step<T>, i: nat, g0: nat, newest: nat, stale: Option<seq<T>>)
    requires WriterOk(s) && LookupStepEnabled(s, keysOf, step) && ThreadOk(s, keysOf, s.threads[step.t])
    requires i < |s.stores| && newest < |s.stores[i].versions| && g0 in s.born && s.born[g0].store == i
    requires IndexFresh(s, g0, newest, stale)
    ensures IndexFresh(ApplyLookupStep(s, keysOf, step), g0, newest, stale)
  {
    assert s.threads[step.t].Listed? || s.threads[step.t].Building? <==> s.writer == HeldBy(step.t);
  }

  lemma LookupStepKeepsCallFresh<T>(s: State<T>, keysOf: T -> seq<string>, step: Step<T>, i: nat, g0: nat, newest: nat, stale: Option<seq<T>>)
    requires IndexOk(s, keysOf) && LookupStepEnabled(s, keysOf, step) && ThreadOk(s, keysOf, s.threads[step.t])
    requires FreshSoFar(s, step.t, i, g0, newest, stale) && !step.Call?
    ensures CallFresh(s, ApplyLookupStep(s, keysOf, step).threads[step.t], i, g0, newest, stale)
  {
  }

  /** A lookup step touches no store, and of the threads only its own. */
  lemma LookupStepMovesOne<T>(s: State<T>, keysOf: T -> seq<string>, step: Step<T>)
    requires LookupStepEnabled(s, keysOf, step)
    ensures var s' := ApplyLookupStep(s, keysOf, step);
      && s'.stores == s.stores && s'.born == s.born && step.t < |s.threads| == |s'.threads|
      && forall u :: 0 <= u < |s.threads| && u != step.t ==> s'.threads[u] == s.threads[u]
  {
    hide Lists, Indexes, Under;
  }

  lemma SameBirthsStayFresh<T>(s: State<T>, s': State<T>, pc: Pc<T>, i: nat, g0: nat, newest: nat, stale: Option<seq<T>>)
    requires s'.born == s.born && CallFresh(s, pc, i, g0, newest, stale)
    ensures CallFresh(s', pc, i, g0, newest, stale)
  {
  }

  lemma LookupStepStaysFresh<T>(s: State<T>, keysOf: T -> seq<string>, step: Step<T>, t: nat, i: nat, g0: nat, newest: nat, stale: Option<seq<T>>)
    requires Inv(s, keysOf) && LookupStepEnabled(s, keysOf, step) && FreshSoFar(s, t, i, g0, newest, stale)
    requires !(step.Call? && step.t == t)
    ensures FreshSoFar(ApplyLookupStep(s, keysOf, step), t, i, g0, newest, stale)
  {
    var s' := ApplyLookupStep(s, keysOf, step);
    LookupStepMovesOne(s, keysOf, step);
    assert ThreadOk(s, keysOf, s.threads[step.t]) by { InvThread(s, keysOf, step.t); }
    hide StoresOk, IndexOk, ThreadsOk, ThreadOk, WriterOk, ApplyLookupStep, LookupStepEnabled, IndexFresh, CallFresh;
    LookupStepKeepsIndexFresh(s, keysOf, step, i, g0, newest, stale);
    if step.t == t {
      LookupStepKeepsCallFresh(s, keysOf, step, i, g0, newest, stale);
    }
    SameBirthsStayFresh(s, s', s'.threads[t], i, g0, newest, stale);
  }

  lemma StepStaysFresh<T>(s: State<T>, keysOf: T -> seq<string>, step: Step<T>, t: nat, i: nat, g0: nat, newest: nat, stale: Option<seq<T>>)
    requires Inv(s, keysOf) && Enabled(s, keysOf, step) && FreshSoFar(s, t, i, g0, newest, stale)
    requires !(step.Call? && step.t == t)
    ensures FreshSoFar(Apply(s, keysOf, step), t, i, g0, newest, stale)
  {
    if StoreStepEnabled(s, step) {
      StoreStepStaysFresh(s, keysOf, step, t, i, g0, newest, stale);
    } else {
      LookupStepStaysFresh(s, keysOf, step, t, i, g0, newest, stale);
    }
  }

  lemma StepGrows<T>(s: State<T>, keysOf: T -> seq<string>, step: Step<T>)
    requires Inv(s, keysOf) && Enabled(s, keysOf, step)
    ensures Grows(s, Apply(s, keysOf, step))
  {
    if StoreStepEnabled(s, step) {
      StoreStepGrows(s, step);
    }
  }

  lemma GrowthIsTransitive<T>(a: State<T>, b: State<T>, c: State<T>)
    requires Grows(a, b) && Grows(b, c)
    ensures Grows(a, c)
  {
  }

  /** A call of store i that began at s has got to `now` fresh. */
  ghost predicate OnCourse<T>(s: State<T>, now: State<T>, keysOf: T -> seq<string>, t: nat, i: nat, stale: Option<seq<T>>)
    requires i < |s.stores| && s.stores[i].versions != []
  {
    Inv(now, keysOf) && Grows(s, now) && FreshSoFar(now, t, i, s.stores[i].generation, |s.stores[i].versions| - 1, stale)
  }

  lemma CallSetsOut<T>(s: State<T>, keysOf: T -> seq<string>, t: nat, i: nat, key: string, stale: Option<seq<T>>)
    requires Inv(s, keysOf) && Enabled(s, keysOf, Call(t, i, key)) && i < |s.stores| && s.stores[i].versions != []
    requires ServesStale(s, i) ==> stale == Some(StaleListing(s, i))
    ensures OnCourse(s, Apply(s, keysOf, Call(t, i, key)), keysOf, t, i, stale)
  {
    hide Inv, FreshSoFar, Grows, ServesStale, StaleListing;
    StepKeeps(s, keysOf, Call(t, i, key));
    StepGrows(s, keysOf, Call(t, i, key));
    CallStartsFresh(s, keysOf, t, i, key, stale);
  }

  lemma StepStaysOnCourse<T>(s: State<T>, now: State<T>, keysOf: T -> seq<string>, step: Step<T>, t: nat, i: nat, stale: Option<seq<T>>)
    requires i < |s.stores| && s.stores[i].versions != [] && OnCourse(s, now, keysOf, t, i, stale)
    requires Enabled(now, keysOf, step) && !(step.Call? && step.t == t)
    ensures OnCourse(s, Apply(now, keysOf, step), keysOf, t, i, stale)
  {
    hide Inv, FreshSoFar, Grows, Enabled, Apply;
    StepKeeps(now, keysOf, step);
    StepGrows(now, keysOf, step);
    GrowthIsTransitive(s, now, Apply(now, keysOf, step));
    StepStaysFresh(now, keysOf, step, t, i, s.stores[i].generation, |s.stores[i].versions| - 1, stale);
  }

  lemma {:induction false} PathStaysFresh<T>(s: State<T>, keysOf: T -> seq<string>, t: nat, i: nat, key: string,
                                             states: seq<State<T>>, steps: seq<Step<T>>, n: nat, stale: Option<seq<T>>)
    requires Inv(s, keysOf) && Completes(s, keysOf, t, i, key, states, steps) && 0 < n < |states|
    requires i < |s.stores| && s.stores[i].versions != [] && (ServesStale(s, i) ==> stale == Some(StaleListing(s, i)))
    ensures OnCourse(s, states[n], keysOf, t, i, stale)
    decreases n
  {
    hide Inv, ServesStale, StaleListing, Enabled, Apply, OnCourse;
    if n == 1 {
      CallSetsOut(s, keysOf, t, i, key, stale);
    } else {
      PathStaysFresh(s, keysOf, t, i, key, states, steps, n - 1, stale);
      StepStaysOnCourse(s, states[n - 1], keysOf, steps[n - 1], t, i, stale);
    }
  }

  lemma CallStartsFresh<T>(s: State<T>, keysOf: T -> seq<string>, t: nat, i: nat, key: string, stale: Option<seq<T>>)
    requires Inv(s, keysOf) && LookupStepEnabled(s, keysOf, Call(t, i, key)) && (ServesStale(s, i) ==> stale == Some(StaleListing(s, i)))
    ensures FreshSoFar(ApplyLookupStep(s, keysOf, Call(t, i, key)), t, i, s.stores[i].generation, |s.stores[i].versions| - 1, stale)
  {
    assert StoreOk(s, i);
    if s.writer.HeldBy? && s.writer.thread < |s.threads| {
      assert ThreadOk(s, keysOf, s.threads[s.writer.thread]);
    }
  }

  lemma {:induction false} NothingOutsideTheKeys<T>(rows: seq<T>, keysOf: T -> seq<string>, key: string, n: nat)
    requires n <= |rows|
    requires forall i, j :: 0 <= i < |rows| && 0 <= j < |keysOf(rows[i])| ==> keysOf(rows[i])[j] != key
    ensures Scan(rows, keysOf, key, n) == []
    decreases n
  {
    if n > 0 {
      NothingOutsideTheKeys(rows, keysOf, key, n - 1);
      NothingUnderOtherKeys(rows[n - 1], keysOf(rows[n - 1]), key, |keysOf(rows[n - 1])|);
    }
  }

  lemma {:induction false} NothingUnderOtherKeys<T>(row: T, keys: seq<string>, key: string, n: nat)
    requires n <= |keys| && forall j :: 0 <= j < |keys| ==> keys[j] != key
    ensures RowUnder(row, keys, key, n) == []
    decreases n
  {
    if n > 0 {
      NothingUnderOtherKeys(row, keys, key, n - 1);
    }
  }

  lemma AnIndexExists<T>(rows: seq<T>, keysOf: T -> seq<string>) returns (byKey: map<string, seq<T>>)
    ensures Indexes(byKey, rows, keysOf)
  {
    var keys := set i, j | 0 <= i < |rows| && 0 <= j < |keysOf(rows[i])| :: keysOf(rows[i])[j];
    byKey := map key | key in keys :: Scan(rows, keysOf, key, |rows|);
    forall key: string | key !in keys
      ensures Scan(rows, keysOf, key, |rows|) == []
    {
      NothingOutsideTheKeys(rows, keysOf, key, |rows|);
    }
  }

  lemma CallReads<T>(s: State<T>, keysOf: T -> seq<string>, t: nat, i: nat, key: string) returns (s1: State<T>, s2: State<T>)
    requires t < |s.threads| && (s.threads[t].Idle? || s.threads[t].Returned?)
    requires i < |s.stores| && s.stores[i].versions != []
    ensures Enabled(s, keysOf, Call(t, i, key)) && s1 == Apply(s, keysOf, Call(t, i, key))
    ensures Enabled(s1, keysOf, ReadGeneration(t)) && s2 == Apply(s1, keysOf, ReadGeneration(t))
    ensures |s2.threads| == |s.threads| && s2.threads[t].Read? && s2.threads[t].generation == s.stores[i].generation
    ensures s2 == s.(threads := s.threads[t := s2.threads[t]]) && s2.threads[t].key == key
  {
    s1 := Apply(s, keysOf, Call(t, i, key));
    s2 := Apply(s1, keysOf, ReadGeneration(t));
  }

  lemma IndexedKey<T>(byKey: map<string, seq<T>>, listing: seq<T>, keysOf: T -> seq<string>, key: string)
    requires Indexes(byKey, listing, keysOf)
    ensures Under(byKey, key) == Scan(listing, keysOf, key, |listing|)
  {
  }

  /** The path on which the call reads the old generation and hits. */
  lemma StaleHit<T>(s: State<T>, keysOf: T -> seq<string>, t: nat, i: nat, key: string)
    returns (states: seq<State<T>>, steps: seq<Step<T>>)
    requires i < |s.stores| && s.stores[i].versions != [] && s.writer == NoWriter && ServesStale(s, i)
    requires t < |s.threads| && (s.threads[t].Idle? || s.threads[t].Returned?) && IndexOk(s, keysOf)
    ensures Completes(s, keysOf, t, i, key, states, steps) && states[|steps|].stores == s.stores
    ensures var listing := StaleListing(s, i); states[|steps|].threads[t].rows == Scan(listing, keysOf, key, |listing|)
  {
    hide Scan, Lists, Indexes, Announced, Under;
    IndexedKey(s.index.byKey, s.index.listing, keysOf, key);
    var s1, s2 := CallReads(s, keysOf, t, i, key);
    assert s2.threads[t].key == key;
    assert Enabled(s2, keysOf, Hit(t));
    var s3 := Apply(s2, keysOf, Hit(t));
    states, steps := [s, s1, s2, s3], [Call(t, i, key), ReadGeneration(t), Hit(t)];
  }

  lemma FourSteps<T>(states: seq<State<T>>, keysOf: T -> seq<string>, steps: seq<Step<T>>)
    requires |states| == 5 && |steps| == 4
    requires Enabled(states[0], keysOf, steps[0]) && states[1] == Apply(states[0], keysOf, steps[0])
    requires Enabled(states[1], keysOf, steps[1]) && states[2] == Apply(states[1], keysOf, steps[1])
    requires Enabled(states[2], keysOf, steps[2]) && states[3] == Apply(states[2], keysOf, steps[2])
    requires Enabled(states[3], keysOf, steps[3]) && states[4] == Apply(states[3], keysOf, steps[3])
    ensures Path(states, keysOf, steps)
  {
    hide Enabled, Apply;
  }

  /** A reader that has read the generation of a listing waiting to be installed finds it installed. */
  lemma InstallThenHit<T>(s: State<T>, keysOf: T -> seq<string>, t: nat, u: nat, byKey: map<string, seq<T>>)
    returns (s': State<T>, s'': State<T>)
    requires t < |s.threads| && s.threads[t].Read? && u < |s.threads| && s.threads[u].Listed?
    requires s.threads[u].generation == s.threads[t].generation && Indexes(byKey, s.threads[u].listing, keysOf)
    ensures Enabled(s, keysOf, Install(u, byKey)) && s' == Apply(s, keysOf, Install(u, byKey))
    ensures Enabled(s', keysOf, Hit(t)) && s'' == Apply(s', keysOf, Hit(t))
    ensures s''.stores == s.stores && t < |s''.threads| && s''.threads[t].Returned?
    ensures s''.threads[t].rows == Under(byKey, s.threads[t].key)
  {
    hide Indexes, Under;
    s' := Apply(s, keysOf, Install(u, byKey));
    assert s'.threads[t] == s.threads[t] && Current(s', s.threads[t].generation);
    s'' := Apply(s', keysOf, Hit(t));
  }

  /** The path on which an older listing is installed between the read and the hit. */
  lemma StaleInstall<T>(s: State<T>, keysOf: T -> seq<string>, t: nat, i: nat, key: string)
    returns (states: seq<State<T>>, steps: seq<Step<T>>)
    requires i < |s.stores| && s.stores[i].versions != [] && s.writer.HeldBy? && ServesStale(s, i)
    requires t < |s.threads| && (s.threads[t].Idle? || s.threads[t].Returned?) && IndexOk(s, keysOf)
    ensures Completes(s, keysOf, t, i, key, states, steps) && states[|steps|].stores == s.stores
    ensures var listing := StaleListing(s, i); states[|steps|].threads[t].rows == Scan(listing, keysOf, key, |listing|)
  {
    hide Scan, Lists, Indexes, IndexOk, Under, Path, Enabled, Apply;
    var u := s.writer.thread;
    var listing := s.threads[u].listing;
    var byKey := AnIndexExists(listing, keysOf);
    IndexedKey(byKey, listing, keysOf, key);
    var s1, s2 := CallReads(s, keysOf, t, i, key);
    assert s2.threads[u] == s.threads[u];
    var s3, s4 := InstallThenHit(s2, keysOf, t, u, byKey);
    states, steps := [s, s1, s2, s3, s4], [Call(t, i, key), ReadGeneration(t), Install(u, byKey), Hit(t)];
    FourSteps(states, keysOf, steps);
  }

  /** A returned call with an acceptable listing is right. */
  lemma ReturnedIsRight<T(!new)>(s: State<T>, end: State<T>, keysOf: T -> seq<string>, t: nat, i: nat, key: string, stale: Option<seq<T>>)
    requires i < |s.stores| && s.stores[i].versions != [] && Grows(s, end) && t < |end.threads| && end.threads[t].Returned?
    requires ThreadOk(end, keysOf, end.threads[t]) && end.threads[t].key == key
    requires FreshSoFar(end, t, i, s.stores[i].generation, |s.stores[i].versions| - 1, stale)
    requires stale.Some? ==>
      ScansTo(s.stores[i].versions[|s.stores[i].versions| - 1], keysOf, key, Scan(stale.value, keysOf, key, |stale.value|))
    ensures OfCurrentContents(s, end, keysOf, i, key, end.threads[t].rows)
  {
    hide Scan, Lists;
    var pc, newest := end.threads[t], |s.stores[i].versions| - 1;
    if pc.version >= newest {
      assert ScansTo(end.stores[i].versions[pc.version], keysOf, key, pc.rows);
    } else {
      assert end.stores[i].versions[newest] == s.stores[i].versions[newest];
      assert ScansTo(end.stores[i].versions[newest], keysOf, key, pc.rows);
    }
  }

  /** What a state that answers nothing wrong has as its stale listing, if any. */
  lemma NotWrong<T(!new)>(s: State<T>, keysOf: T -> seq<string>, i: nat, key: string) returns (stale: Option<seq<T>>)
    requires i < |s.stores| && s.stores[i].versions != [] && !AnswersWrong(s, keysOf, i, key)
    ensures ServesStale(s, i) ==> stale == Some(StaleListing(s, i))
    ensures stale.Some? ==>
      ScansTo(s.stores[i].versions[|s.stores[i].versions| - 1], keysOf, key, Scan(stale.value, keysOf, key, |stale.value|))
  {
    hide Scan, ScansTo;
    stale := if ServesStale(s, i) then Some(StaleListing(s, i)) else None;
  }

  /** A call that began without a wrong answer at hand comes back with a right one. */
  lemma CompletedIsRight<T(!new)>(s: State<T>, keysOf: T -> seq<string>, t: nat, i: nat, key: string,
                                  states: seq<State<T>>, steps: seq<Step<T>>)
    requires Inv(s, keysOf) && Completes(s, keysOf, t, i, key, states, steps) && i < |s.stores| && s.stores[i].versions != []
    requires !AnswersWrong(s, keysOf, i, key)
    ensures OfCurrentContents(s, states[|steps|], keysOf, i, key, states[|steps|].threads[t].rows)
  {
    hide Inv, AnswersWrong, ServesStale, StaleListing, Scan, ScansTo, Lists, Enabled, Apply, FreshSoFar, Grows, ThreadOk, OfCurrentContents;
    var stale := NotWrong(s, keysOf, i, key);
    PathStaysFresh(s, keysOf, t, i, key, states, steps, |steps|, stale);
    PathKeepsKey(s, keysOf, t, i, key, states, steps, |steps|);
    InvThread(states[|steps|], keysOf, t);
    ReturnedIsRight(s, states[|steps|], keysOf, t, i, key, stale);
  }

  lemma InvThread<T>(s: State<T>, keysOf: T -> seq<string>, t: nat)
    requires Inv(s, keysOf) && t < |s.threads|
    ensures ThreadOk(s, keysOf, s.threads[t])
  {
  }

  lemma StepKeepsKey<T>(s: State<T>, keysOf: T -> seq<string>, step: Step<T>, t: nat)
    requires Enabled(s, keysOf, step) && t < |s.threads| && !s.threads[t].Idle? && !(step.Call? && step.t == t)
    ensures var s' := Apply(s, keysOf, step);
      t < |s'.threads| && !s'.threads[t].Idle? && s'.threads[t].key == s.threads[t].key
  {
    hide Lists, Indexes, Under, Draw;
    if StoreStepEnabled(s, step) {
      StoreStepMovesNoThread(s, step);
    } else if step.t != t {
      LookupStepMovesOne(s, keysOf, step);
    }
  }

  lemma StoreStepMovesNoThread<T>(s: State<T>, step: Step<T>)
    requires StoreStepEnabled(s, step)
    ensures ApplyStoreStep(s, step).threads == s.threads
  {
  }

  /** A call keeps the key it was made with. */
  lemma {:induction false} PathKeepsKey<T>(s: State<T>, keysOf: T -> seq<string>, t: nat, i: nat, key: string,
                                           states: seq<State<T>>, steps: seq<Step<T>>, n: nat)
    requires Completes(s, keysOf, t, i, key, states, steps) && 0 < n < |states|
    ensures t < |states[n].threads| && !states[n].threads[t].Idle? && states[n].threads[t].key == key
    decreases n
  {
    if n == 1 {
      CallSetsKey(s, keysOf, t, i, key);
    } else {
      hide Enabled, Apply;
      PathKeepsKey(s, keysOf, t, i, key, states, steps, n - 1);
      StepKeepsKey(states[n - 1], keysOf, steps[n - 1], t);
    }
  }

  lemma CallSetsKey<T>(s: State<T>, keysOf: T -> seq<string>, t: nat, i: nat, key: string)
    requires Enabled(s, keysOf, Call(t, i, key))
    ensures var s' := Apply(s, keysOf, Call(t, i, key)); t < |s'.threads| && !s'.threads[t].Idle? && s'.threads[t].key == key
  {
  }

  /**
   * Exactly when a lookup can answer with rows that no contents current during
   * the call would give: in any reachable state, if and only if the store shows
   * a row its generation does not announce yet, the index holds or is about to
   * be given the contents from before that row at that generation, and for the
   * key the two differ.
   */
  lemma LookupIsRightExactlyWhen<T(!new)>(states: seq<State<T>>, keysOf: T -> seq<string>, steps: seq<Step<T>>, n: nat,
                                          t: nat, i: nat, key: string)
    requires Run(states, keysOf, steps) && n < |states| && i < |states[n].stores|
    requires t < |states[n].threads| && (states[n].threads[t].Idle? || states[n].threads[t].Returned?)
    ensures AlwaysRight(states[n], keysOf, t, i, key) <==> !AnswersWrong(states[n], keysOf, i, key)
  {
    RunKeepsInv(states, keysOf, steps, n);
    var s := states[n];
    assert StoreOk(s, i);
    hide Inv, AnswersWrong, ServesStale, StaleListing, ScansTo, Scan, OfCurrentContents;
    if AnswersWrong(s, keysOf, i, key) {
      WrongMeansStale(s, keysOf, i, key);
      var path, taken, rows := StalePath(s, keysOf, t, i, key);
      OnlyTheNewestIsCurrent(s, path[|taken|], keysOf, i, key, rows);
      assert Completes(s, keysOf, t, i, key, path, taken);
    } else {
      forall path: seq<State<T>>, taken: seq<Step<T>> | Completes(s, keysOf, t, i, key, path, taken)
        ensures OfCurrentContents(s, path[|taken|], keysOf, i, key, path[|taken|].threads[t].rows)
      {
        CompletedIsRight(s, keysOf, t, i, key, path, taken);
      }
    }
  }

  lemma OnlyTheNewestIsCurrent<T(!new)>(s: State<T>, s': State<T>, keysOf: T -> seq<string>, i: nat, key: string, rows: seq<T>)
    requires i < |s.stores| && s'.stores == s.stores && s.stores[i].versions != []
    requires !ScansTo(s.stores[i].versions[|s.stores[i].versions| - 1], keysOf, key, rows)
    ensures !OfCurrentContents(s, s', keysOf, i, key, rows)
  {
    hide ScansTo;
  }

  lemma StalePath<T(!new)>(s: State<T>, keysOf: T -> seq<string>, t: nat, i: nat, key: string)
    returns (path: seq<State<T>>, taken: seq<Step<T>>, rows: seq<T>)
    requires Inv(s, keysOf) && ServesStale(s, i) && s.stores[i].versions != []
    requires t < |s.threads| && (s.threads[t].Idle? || s.threads[t].Returned?)
    ensures Completes(s, keysOf, t, i, key, path, taken) && path[|taken|].stores == s.stores && path[|taken|].threads[t].rows == rows
    ensures var listing := StaleListing(s, i); rows == Scan(listing, keysOf, key, |listing|)
  {
    assert IndexOk(s, keysOf);
    hide Inv, Scan, StaleListing, IndexOk, Path;
    if s.writer == NoWriter {
      path, taken := StaleHit(s, keysOf, t, i, key);
    } else {
      path, taken := StaleInstall(s, keysOf, t, i, key);
    }
    rows := path[|taken|].threads[t].rows;
  }

  lemma WrongMeansStale<T(!new)>(s: State<T>, keysOf: T -> seq<string>, i: nat, key: string)
    requires AnswersWrong(s, keysOf, i, key)
    ensures ServesStale(s, i) && i < |s.stores| && s.stores[i].versions != []
    ensures var listing := StaleListing(s, i);
      !ScansTo(s.stores[i].versions[|s.stores[i].versions| - 1], keysOf, key, Scan(listing, keysOf, key, |listing|))
  {
  }

  lemma NothingIsAListingOfNothing()
    ensures Lists<string>([], map[])
  {
    var ids: seq<string> := [];
    assert |ids| == 0;
  }

  /** One run of one thread: an index built of an empty SQLite table, then a row without its bump. */
  ghost function StaleRun(n: nat): (s: State<string>)
    requires n <= 8
  {
    var never: Index<string> := Index(false, 0, map[], [], 0, 0);
    var table: Store<string> := Store(SQLite, [map[]], 1, 0, Quiet);
    var built: Index<string> := Index(true, 1, map[], [], 0, 0);
    var ticket := Ticket(0, 0, false);
    var pc: Pc<string> :=
      if n <= 1 then Idle
      else if n == 2 then Called(0, "k", ticket)
      else if n == 3 then Read(0, "k", ticket, 1)
      else if n == 4 then Missed(0, "k", ticket, 1)
      else if n == 5 then Building(0, "k", ticket, 1)
      else if n == 6 then Listed(0, "k", ticket, 1, [], 0)
      else Returned(0, "k", ticket, [], [], 0);
    if n == 0 then State(0, map[], [], never, NoWriter, [pc])
    else State(1, map[1 := Birth(0, 0)],
               [if n < 8 then table else table.(versions := [map[], map["id" := "k"]], pending := Unbumped)],
               if n < 7 then never else built, if n == 5 || n == 6 then HeldBy(0) else NoWriter, [pc])
  }

  ghost function StaleStep(n: nat): (step: Step<string>)
    requires n < 8
  {
    if n == 0 then Create(SQLite, map[])
    else if n == 1 then Call(0, 0, "k")
    else if n == 2 then ReadGeneration(0)
    else if n == 3 then Miss(0)
    else if n == 4 then LockAndRebuild(0)
    else if n == 5 then List(0, [])
    else if n == 6 then Install(0, map[])
    else RowWrite(0, map["id" := "k"])
  }

  lemma StaleRunSteps(keysOf: string -> seq<string>, n: nat)
    requires n < 8
    ensures Enabled(StaleRun(n), keysOf, StaleStep(n))
    ensures StaleRun(n + 1) == Apply(StaleRun(n), keysOf, StaleStep(n))
  {
    if n == 5 {
      NothingIsAListingOfNothing();
    } else if n == 6 {
      NoRowsYet<string>([], keysOf);
    } else if n == 7 {
      assert [map[]] + [map["id" := "k"]] == [map[], map["id" := "k"]];
    }
  }

  /** The stale state is reachable, whatever keysOf is. */
  lemma StaleAnswersAreReachable(keysOf: string -> seq<string>) returns (states: seq<State<string>>, steps: seq<Step<string>>)
    ensures Run(states, keysOf, steps) && states[|steps|] == StaleRun(8) && ServesStale(StaleRun(8), 0)
  {
    states := seq(9, n requires 0 <= n < 9 => StaleRun(n));
    steps := seq(8, n requires 0 <= n < 8 => StaleStep(n));
    assert Start(states[0]) && ServesStale(states[8], 0);
    hide Apply, Enabled, StaleRun, StaleStep;
    forall n | 0 <= n < 8
      ensures Enabled(states[n], keysOf, steps[n]) && states[n + 1] == Apply(states[n], keysOf, steps[n])
    {
      StaleRunSteps(keysOf, n);
    }
  }

  lemma OneIdOnly(ids: seq<string>, x: string)
    requires (forall i :: 0 <= i < |ids| ==> ids[i] == x) && (forall i, j :: 0 <= i < j < |ids| ==> ids[i] != ids[j]) && x in ids
    ensures ids == [x]
  {
    assert ids[0] == x && ids[|ids| - 1] == x;
  }

  /** One row is listed one way. */
  lemma OneRowIsListedOneWay(listing: seq<string>)
    requires Lists(listing, map["id" := "k"])
    ensures listing == ["k"]
  {
    var contents := map["id" := "k"];
    var ids: seq<string> :|
      && |ids| == |listing| && (forall i, j :: 0 <= i < j < |ids| ==> ids[i] != ids[j])
      && (forall id :: id in ids <==> id in contents)
      && (forall i :: 0 <= i < |ids| ==> ids[i] in contents && listing[i] == contents[ids[i]]);
    OneIdOnly(ids, "id");
    assert contents[ids[0]] == "k";
  }

  lemma OneRowAnswersItsKey(keysOf: string -> seq<string>)
    requires keysOf("k") == ["k"]
    ensures Scan(["k"], keysOf, "k", 1) == ["k"]
  {
    assert RowUnder("k", ["k"], "k", 0) == [];
    assert RowUnder("k", ["k"], "k", 1) == ["k"];
    assert Scan(["k"], keysOf, "k", 0) == [];
  }

  /** A wrong answer: the table shows the row under its key before the call, and the call finds nothing. */
  lemma AVisibleRowIsMissed(keysOf: string -> seq<string>)
    returns (states: seq<State<string>>, steps: seq<Step<string>>, path: seq<State<string>>, taken: seq<Step<string>>)
    requires keysOf("k") == ["k"]
    ensures Run(states, keysOf, steps) && Completes(states[|steps|], keysOf, 0, 0, "k", path, taken)
    ensures states[|steps|].stores[0].versions == [map[], map["id" := "k"]]
    ensures forall listing :: Lists(listing, map["id" := "k"]) ==> Scan(listing, keysOf, "k", |listing|) == ["k"]
    ensures path[|taken|].threads[0].rows == [] && path[|taken|].stores == states[|steps|].stores
  {
    states, steps := StaleAnswersAreReachable(keysOf);
    var s := StaleRun(8);
    RunKeepsInv(states, keysOf, steps, |steps|);
    assert s.stores[0].versions == [map[], map["id" := "k"]] && s.writer == NoWriter && s.threads == [s.threads[0]] && s.threads[0].Returned?;
    assert s.index.listing == [];
    path, taken := StaleHit(s, keysOf, 0, 0, "k");
    forall listing | Lists(listing, map["id" := "k"])
      ensures Scan(listing, keysOf, "k", |listing|) == ["k"]
    {
      OneRowIsListedOneWay(listing);
      OneRowAnswersItsKey(keysOf);
    }
  }

  // PathPrefixes, the keysOf of rows addressed by a parent's identifier.

  /** The prefixes of the first n characters that end at a separator, shortest first. */
  function PrefixesOf(id: string, n: nat): (prefixes: seq<string>)
    requires n <= |id|
  {
    if n == 0 then [] else PrefixesOf(id, n - 1) + (if id[n - 1] == '/' then [id[..n]] else [])
  }

  method PathPrefixes(id: string) returns (prefixes: seq<string>)
    ensures prefixes == PrefixesOf(id, |id|)
  {
    prefixes := [];
    for i := 0 to |id|
      invariant prefixes == PrefixesOf(id, i)
    {
      if id[i] == '/' {
        prefixes := prefixes + [id[..i + 1]];
      }
    }
  }

  lemma {:induction false} RowUnderFirstKeys<T>(row: T, keys: seq<string>, more: seq<string>, key: string, n: nat)
    requires n <= |keys|
    ensures RowUnder(row, keys + more, key, n) == RowUnder(row, keys, key, n)
    decreases n
  {
    if n > 0 {
      RowUnderFirstKeys(row, keys, more, key, n - 1);
    }
  }

  lemma RowUnderOneMore<T>(row: T, keys: seq<string>, last: string, key: string)
    ensures RowUnder(row, keys + [last], key, |keys| + 1) == RowUnder(row, keys, key, |keys|) + (if last == key && key != "" then [row] else [])
  {
    RowUnderFirstKeys(row, keys, [last], key, |keys|);
  }

  /** Of the prefixes up to n, only the one that ends at n can be a key of that length. */
  lemma PrefixEndsHere(id: string, parent: string, n: nat)
    requires 0 < n <= |id|
    ensures var key := parent + "/";
      |key| <= n && key <= id <==> (|key| <= n - 1 && key <= id) || (id[n - 1] == '/' && id[..n] == key)
  {
    var key := parent + "/";
    assert key[|key| - 1] == '/';
    if |key| == n && key <= id {
      assert key == id[..n] && key[n - 1] == id[n - 1];
    }
    if id[..n] == key {
      assert |key| == n && key <= id;
    }
  }

  lemma {:induction false} RowAnswersOncePerPrefix<T>(row: T, id: string, parent: string, n: nat)
    requires n <= |id|
    ensures var keys := PrefixesOf(id, n); var key := parent + "/";
      RowUnder(row, keys, key, |keys|) == if |key| <= n && key <= id then [row] else []
    decreases n
  {
    if n > 0 {
      var keys, key := PrefixesOf(id, n - 1), parent + "/";
      RowAnswersOncePerPrefix(row, id, parent, n - 1);
      PrefixEndsHere(id, parent, n);
      RowUnderOneMore(row, keys, id[..n], key);
      hide RowUnder;
      assert PrefixesOf(id, n) == if id[n - 1] == '/' then keys + [id[..n]] else keys;
      assert id[..n] == key ==> |key| == n;
    }
  }

  /** The rows whose identifier lies below the parent, at any depth, in listed order. */
  function Below<T>(rows: seq<T>, idOf: T -> string, parent: string, n: nat): (below: seq<T>)
    requires n <= |rows|
  {
    if n == 0 then []
    else Below(rows, idOf, parent, n - 1) + (if parent + "/" <= idOf(rows[n - 1]) then [rows[n - 1]] else [])
  }

  /** Indexed under all its path prefixes, a row answers "is it below this parent" exactly, once, at every depth. */
  lemma {:induction false} PathIndexAnswersBelow<T>(rows: seq<T>, keysOf: T -> seq<string>, idOf: T -> string, parent: string, n: nat)
    requires n <= |rows|
    requires forall i :: 0 <= i < |rows| ==> keysOf(rows[i]) == PrefixesOf(idOf(rows[i]), |idOf(rows[i])|)
    ensures Scan(rows, keysOf, parent + "/", n) == Below(rows, idOf, parent, n)
    decreases n
  {
    hide PrefixesOf, RowUnder;
    if n > 0 {
      PathIndexAnswersBelow(rows, keysOf, idOf, parent, n - 1);
      RowAnswersOncePerPrefix(rows[n - 1], idOf(rows[n - 1]), parent, |idOf(rows[n - 1])|);
    }
  }
}
