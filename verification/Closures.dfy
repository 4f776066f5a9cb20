// The closures the repository's checkers and generators compute by growing a
// set until nothing changes, or by marking as they recurse: for every graph,
// cycles included, and every order of visiting a map, they end with exactly
// the reachable names.

module CallGraphs {

  /** The names a function's body calls, for each function of the package that has one. */
  type Calls = map<string, set<string>>

  predicate CallsName(calls: Calls, caller: string, callee: string) {
    caller in calls && callee in calls[caller]
  }

  /** path goes from call to call. */
  predicate IsPath(calls: Calls, path: seq<string>) {
    && path != []
    && forall k :: 0 <= k < |path| - 1 ==> CallsName(calls, path[k], path[k + 1])
  }

  ghost predicate Leads(calls: Calls, from: string, to: string) {
    exists path :: IsPath(calls, path) && path[0] == from && path[|path| - 1] == to
  }

  lemma LeadsToItself(calls: Calls, name: string)
    ensures Leads(calls, name, name)
  {
    assert IsPath(calls, [name]);
  }

  lemma OneStepFirst(calls: Calls, from: string, next: string, to: string)
    requires CallsName(calls, from, next) && Leads(calls, next, to)
    ensures Leads(calls, from, to)
  {
    var path :| IsPath(calls, path) && path[0] == next && path[|path| - 1] == to;
    var longer := [from] + path;
    forall k | 0 <= k < |longer| - 1
      ensures CallsName(calls, longer[k], longer[k + 1])
    {
      if k > 0 {
        assert CallsName(calls, path[k - 1], path[(k - 1) + 1]);
      }
    }
    assert IsPath(calls, longer);
  }

  lemma OneStepLast(calls: Calls, from: string, last: string, to: string)
    requires Leads(calls, from, last) && CallsName(calls, last, to)
    ensures Leads(calls, from, to)
  {
    var path :| IsPath(calls, path) && path[0] == from && path[|path| - 1] == last;
    var longer := path + [to];
    assert forall k :: 0 <= k < |longer| - 1 ==> longer[k] == path[k];
    assert IsPath(calls, longer);
  }

  /** A set closed backwards under calls holds all that leads into it. */
  lemma {:induction false} ClosedBackwards(calls: Calls, names: set<string>, path: seq<string>, k: nat)
    requires IsPath(calls, path) && k < |path| && path[|path| - 1] in names
    requires forall caller, callee :: CallsName(calls, caller, callee) && callee in names ==> caller in names
    ensures path[k] in names
    decreases |path| - k
  {
    if k < |path| - 1 {
      ClosedBackwards(calls, names, path, k + 1);
      assert CallsName(calls, path[k], path[k + 1]);
    }
  }

  /** A set closed forwards under calls holds all it leads to. */
  lemma {:induction false} ClosedForwards(calls: Calls, names: set<string>, path: seq<string>, k: nat)
    requires IsPath(calls, path) && k < |path| && path[0] in names
    requires forall caller, callee :: CallsName(calls, caller, callee) && caller in names ==> callee in names
    ensures path[k] in names
  {
    if k > 0 {
      ClosedForwards(calls, names, path, k - 1);
      assert CallsName(calls, path[k - 1], path[(k - 1) + 1]);
    }
  }
}

/** scripts/check-parallel-tests.go: the functions that change the process, directly or through others. */
module ProcessChangers {
  import opened Common
  import opened CallGraphs

  ghost predicate Reaches(calls: Calls, seeds: set<string>, name: string) {
    exists seed :: seed in seeds && Leads(calls, name, seed)
  }

  lemma CallerReaches(calls: Calls, seeds: set<string>, caller: string, callee: string)
    requires CallsName(calls, caller, callee) && Reaches(calls, seeds, callee)
    ensures Reaches(calls, seeds, caller)
  {
    var seed :| seed in seeds && Leads(calls, callee, seed);
    OneStepFirst(calls, caller, callee, seed);
  }

  lemma ClosedIsEverything(calls: Calls, seeds: set<string>, names: set<string>)
    requires seeds <= names
    requires forall caller, callee :: CallsName(calls, caller, callee) && callee in names ==> caller in names
    ensures forall name :: Reaches(calls, seeds, name) ==> name in names
  {
    forall name | Reaches(calls, seeds, name)
      ensures name in names
    {
      var seed :| seed in seeds && Leads(calls, name, seed);
      var path :| IsPath(calls, path) && path[0] == name && path[|path| - 1] == seed;
      ClosedBackwards(calls, names, path, 0);
    }
  }

  /** The fixpoint of processChangers, for every order of visiting the functions and their calls. */
  method Close(calls: Calls, seeds: set<string>) returns (changers: set<string>)
    ensures forall name :: name in changers <==> Reaches(calls, seeds, name)
  {
    hide Reaches;
    changers := seeds;
    SeedsReach(calls, seeds);
    var grew := true;
    while grew
      invariant seeds <= changers && forall name :: name in changers ==> Reaches(calls, seeds, name)
      invariant !grew ==> forall caller, callee :: CallsName(calls, caller, callee) && callee in changers ==> caller in changers
      decreases |calls.Keys - changers|, if grew then 1 else 0
    {
      grew := false;
      ghost var start := changers;
      var left := calls.Keys;
      while left != {}
        invariant left <= calls.Keys && seeds <= changers && start <= changers
        invariant if grew then (exists name :: name in calls && name in changers && name !in start) else changers == start
        invariant forall name :: name in changers ==> Reaches(calls, seeds, name)
        invariant !grew ==> forall caller, callee :: caller !in left && CallsName(calls, caller, callee) && callee in changers ==> caller in changers
        decreases |left|
      {
        var name :| name in left;
        left := left - {name};
        if name !in changers {
          if callee :| callee in calls[name] && callee in changers {
            CallerReaches(calls, seeds, name, callee);
            changers := changers + {name};
            grew := true;
          }
        }
      }
      if grew {
        ghost var name :| name in calls && name in changers && name !in start;
        assert name in calls.Keys - start && name !in calls.Keys - changers;
        FewerLeft(calls.Keys - changers, calls.Keys - start, name);
      }
    }
    ClosedIsEverything(calls, seeds, changers);
  }

  lemma SeedsReach(calls: Calls, seeds: set<string>)
    ensures forall name :: name in seeds ==> Reaches(calls, seeds, name)
  {
    forall name | name in seeds
      ensures Reaches(calls, seeds, name)
    {
      LeadsToItself(calls, name);
    }
  }

  lemma FewerLeft(now: set<string>, before: set<string>, name: string)
    requires now <= before && name in before && name !in now
    ensures |now| < |before|
  {
    assert now <= before - {name};
    SubsetIsNoLarger(now, before - {name});
  }
}

/** scripts/check-store-scans.go: the functions every request reaches, each with the reason of a seed that leads to it. */
module StoreScans {
  import opened Common
  import opened CallGraphs

  /** The names called in a body, in the order of a walk over it. */
  type Bodies = map<string, seq<string>>

  type Reasons = map<string, string>

  /** The calls between functions of the package. */
  function Known(bodies: Bodies): (calls: Calls) {
    map caller | caller in bodies :: set callee | callee in bodies[caller] && callee in bodies
  }

  /** name has the reason of a seed that leads to it. */
  ghost predicate Justified(bodies: Bodies, seeds: Reasons, name: string, why: string) {
    exists seed :: seed in seeds && seeds[seed] == why && Leads(Known(bodies), seed, name)
  }

  ghost predicate AllJustified(bodies: Bodies, seeds: Reasons, reachable: Reasons) {
    forall name :: name in reachable ==> Justified(bodies, seeds, name, reachable[name])
  }

  /** The functions of the package not among names. */
  ghost function Missing(bodies: Bodies, names: set<string>): nat {
    |bodies.Keys - names|
  }

  lemma SeedsAreJustified(bodies: Bodies, seeds: Reasons)
    ensures forall name :: name in seeds ==> Justified(bodies, seeds, name, seeds[name])
  {
    forall name | name in seeds
      ensures Justified(bodies, seeds, name, seeds[name])
    {
      LeadsToItself(Known(bodies), name);
    }
  }

  lemma CalleeIsJustified(bodies: Bodies, seeds: Reasons, caller: string, callee: string, why: string)
    requires Justified(bodies, seeds, caller, why) && CallsName(Known(bodies), caller, callee)
    ensures Justified(bodies, seeds, callee, why)
  {
    var seed :| seed in seeds && seeds[seed] == why && Leads(Known(bodies), seed, caller);
    OneStepLast(Known(bodies), seed, caller, callee);
  }

  lemma ClosedIsEverything(bodies: Bodies, seeds: Reasons, names: set<string>)
    requires seeds.Keys <= names
    requires forall caller, callee :: CallsName(Known(bodies), caller, callee) && caller in names ==> callee in names
    ensures forall name, why :: Justified(bodies, seeds, name, why) ==> name in names
  {
    forall name, why | Justified(bodies, seeds, name, why)
      ensures name in names
    {
      var seed :| seed in seeds && seeds[seed] == why && Leads(Known(bodies), seed, name);
      var path :| IsPath(Known(bodies), path) && path[0] == seed && path[|path| - 1] == name;
      ClosedForwards(Known(bodies), names, path, |path| - 1);
    }
  }

  /** One function's walk: its known callees that are not reachable yet become so, with its reason. */
  method Walk(bodies: Bodies, seeds: Reasons, reachable: Reasons, name: string) returns (grown: Reasons)
    requires name in reachable && name in bodies
    requires AllJustified(bodies, seeds, reachable)
    ensures AllJustified(bodies, seeds, grown)
    ensures reachable.Keys <= grown.Keys && grown.Keys <= reachable.Keys + bodies.Keys
    ensures forall n :: n in reachable ==> grown[n] == reachable[n]
    ensures forall callee :: CallsName(Known(bodies), name, callee) ==> callee in grown
  {
    hide Justified;
    var body, why := bodies[name], reachable[name];
    grown := reachable;
    var k: nat := 0;
    while k < |body|
      invariant k <= |body| && reachable.Keys <= grown.Keys && grown.Keys <= reachable.Keys + bodies.Keys
      invariant forall n :: n in grown ==> Justified(bodies, seeds, n, grown[n])
      invariant forall n :: n in reachable ==> grown[n] == reachable[n]
      invariant forall m :: 0 <= m < k && body[m] in bodies ==> body[m] in grown
    {
      var callee := body[k];
      if callee in bodies && callee !in grown {
        CalleeIsJustified(bodies, seeds, name, callee, why);
        grown := grown[callee := why];
      }
      k := k + 1;
    }
  }

  /** The callees of every caller in `names` but not in `left` are in `names`. */
  ghost predicate ClosedBut(bodies: Bodies, names: set<string>, left: set<string>) {
    forall caller, callee :: CallsName(Known(bodies), caller, callee) && caller in names && caller !in left ==> callee in names
  }

  /**
   * One pass over the map of the closure in scanPackage. Ranging over a map
   * while it grows visits the names it held at the start and any of those
   * added meanwhile.
   */
  method Pass(bodies: Bodies, seeds: Reasons, start: Reasons) returns (reachable: Reasons, changed: bool)
    requires AllJustified(bodies, seeds, start)
    ensures start.Keys <= reachable.Keys && AllJustified(bodies, seeds, reachable)
    ensures
      if changed then Missing(bodies, reachable.Keys) < Missing(bodies, start.Keys)
      else reachable == start && ClosedBut(bodies, reachable.Keys, {})
  {
    hide AllJustified, Known, ClosedBut, Missing;
    reachable, changed := start, false;
    var left := reachable.Keys;
    NothingVisited(bodies, left);
    while left != {}
      invariant left <= reachable.Keys && start.Keys <= reachable.Keys
      invariant AllJustified(bodies, seeds, reachable)
      invariant
        if changed then Missing(bodies, reachable.Keys) < Missing(bodies, start.Keys)
        else reachable == start && ClosedBut(bodies, reachable.Keys, left)
      decreases Missing(bodies, reachable.Keys), |left|
    {
      var name :| name in left;
      ghost var before := left;
      left := left - {name};
      if name in bodies {
        var grown := Walk(bodies, seeds, reachable, name);
        if grown.Keys != reachable.Keys {
          NewNames(bodies, reachable.Keys, grown.Keys);
          var visited: set<string> :| visited <= grown.Keys - reachable.Keys;
          left := left + visited;
          reachable, changed := grown, true;
        } else if !changed {
          Visited(bodies, reachable.Keys, before, name);
        }
      } else if !changed {
        NoBody(bodies, name);
        Visited(bodies, reachable.Keys, before, name);
      }
    }
  }

  lemma NothingVisited(bodies: Bodies, names: set<string>)
    ensures ClosedBut(bodies, names, names)
  {
  }

  lemma Visited(bodies: Bodies, names: set<string>, left: set<string>, name: string)
    requires ClosedBut(bodies, names, left) && forall callee :: CallsName(Known(bodies), name, callee) ==> callee in names
    ensures ClosedBut(bodies, names, left - {name})
  {
    hide Known;
  }

  /** The closure in scanPackage: exactly the functions a seed leads to, each with the reason of such a seed. */
  method Close(bodies: Bodies, seeds: Reasons) returns (reachable: Reasons)
    ensures forall name :: name in reachable ==> Justified(bodies, seeds, name, reachable[name])
    ensures forall name, why :: Justified(bodies, seeds, name, why) ==> name in reachable
  {
    hide Justified, Known;
    reachable := seeds;
    SeedsAreJustified(bodies, seeds);
    var changed := true;
    while changed
      invariant seeds.Keys <= reachable.Keys && AllJustified(bodies, seeds, reachable)
      invariant !changed ==> ClosedBut(bodies, reachable.Keys, {})
      decreases Missing(bodies, reachable.Keys), if changed then 1 else 0
    {
      reachable, changed := Pass(bodies, seeds, reachable);
    }
    ClosedIsEverything(bodies, seeds, reachable.Keys);
  }

  lemma NoBody(bodies: Bodies, name: string)
    requires name !in bodies
    ensures forall callee :: !CallsName(Known(bodies), name, callee)
  {
  }

  lemma NewNames(bodies: Bodies, before: set<string>, now: set<string>)
    requires before <= now <= before + bodies.Keys && now != before
    ensures Missing(bodies, now) < Missing(bodies, before)
  {
    var name :| name in now && name !in before;
    var all := bodies.Keys;
    assert all - now <= (all - before) - {name};
    SubsetIsNoLarger(all - now, (all - before) - {name});
  }
}

/** scripts/gen-cloudwatch-cbor-shapes.go: the shapes an operation's input or output leads to, marked by recursion. */
module CborShapes {
  import opened Common
  import opened CallGraphs

  const Unit := "smithy.api#Unit"

  /** A shape of the model; `member`, `item` and `members` name the shapes it is made of. */
  datatype Shape = Shape(operation: bool, input: Option<string>, output: Option<string>,
                         member: Option<string>, item: Option<string>, members: map<string, string>)

  type Shapes = map<string, Shape>

  function OneOf(target: Option<string>): (r: set<string>) {
    if target.Some? then {target.value} else {}
  }

  function Parts(s: Shape): (r: set<string>) {
    OneOf(s.member) + OneOf(s.item) + s.members.Values
  }

  /** The references between shapes, as a graph. */
  function Graph(shapes: Shapes): (g: Calls) {
    map id | id in shapes :: Parts(shapes[id])
  }

  /** The input and output shapes of an operation. */
  function Ends(s: Shape): (r: set<string>) {
    if s.operation then OneOf(s.input) + OneOf(s.output) - {Unit} else {}
  }

  ghost predicate Wanted(shapes: Shapes, name: string) {
    exists id, end :: id in shapes && end in Ends(shapes[id]) && Leads(Graph(shapes), end, name)
  }

  /** Every name the model mentions. */
  ghost function Names(shapes: Shapes): set<string> {
    shapes.Keys + (set id, t | id in shapes && t in Parts(shapes[id]) :: t) + (set id, t | id in shapes && t in Ends(shapes[id]) :: t)
  }

  /** The shapes still to be marked. */
  ghost function Unmarked(shapes: Shapes, reached: set<string>): nat {
    |Names(shapes) - reached|
  }

  /** A marked shape has its parts marked, unless its own visit is still under way. */
  ghost predicate Closed(shapes: Shapes, reached: set<string>, underWay: set<string>) {
    forall a, b :: a in reached && a !in underWay && CallsName(Graph(shapes), a, b) ==> b in reached
  }

  lemma MarkingOne(shapes: Shapes, reached: set<string>, underWay: set<string>, id: string)
    requires Closed(shapes, reached, underWay) && id in Names(shapes) && id !in reached
    ensures Closed(shapes, reached + {id}, underWay + {id})
    ensures id !in shapes ==> Closed(shapes, reached + {id}, underWay)
    ensures Unmarked(shapes, reached + {id}) < Unmarked(shapes, reached)
  {
    var all := Names(shapes);
    assert all - (reached + {id}) == (all - reached) - {id};
  }

  lemma MarkingMore(shapes: Shapes, reached: set<string>, more: set<string>)
    requires reached <= more
    ensures Unmarked(shapes, more) <= Unmarked(shapes, reached)
  {
    SubsetIsNoLarger(Names(shapes) - more, Names(shapes) - reached);
  }

  lemma VisitOver(shapes: Shapes, reached: set<string>, underWay: set<string>, id: string)
    requires Closed(shapes, reached, underWay + {id}) && (id in shapes ==> Parts(shapes[id]) <= reached)
    ensures Closed(shapes, reached, underWay)
  {
  }

  /** All that is new is led to from id. */
  ghost predicate NewFrom(shapes: Shapes, before: set<string>, now: set<string>, id: string) {
    forall n :: n in now && n !in before ==> Leads(Graph(shapes), id, n)
  }

  lemma NewThroughPart(shapes: Shapes, before: set<string>, now: set<string>, more: set<string>, id: string, part: string)
    requires id in shapes && part in Parts(shapes[id])
    requires NewFrom(shapes, before, now, id) && NewFrom(shapes, now, more, part)
    ensures NewFrom(shapes, before, more, id)
  {
    forall n | n in more && n !in before
      ensures Leads(Graph(shapes), id, n)
    {
      if n !in now {
        OneStepFirst(Graph(shapes), id, part, n);
      }
    }
  }

  class Reacher {
    const shapes: Shapes
    var reached: set<string>

    constructor (shapes: Shapes)
      ensures this.shapes == shapes && reached == {}
    {
      this.shapes := shapes;
      reached := {};
    }

    /** reach: marks id and all it leads to, and nothing else that was not marked before. */
    method Reach(id: string, ghost underWay: set<string>)
      requires id in Names(shapes) && Closed(shapes, reached, underWay)
      modifies this
      ensures old(reached) + {id} <= reached
      ensures Closed(shapes, reached, underWay) && NewFrom(shapes, old(reached), reached, id)
      decreases Unmarked(shapes, reached)
    {
      hide Names, Unmarked, Closed, NewFrom, Parts;
      NothingNew(shapes, reached, id);
      if id in reached {
        return;
      }
      MarkingOne(shapes, reached, underWay, id);
      reached := reached + {id};
      if id !in shapes {
        return;
      }
      ghost var marked, now := reached, underWay + {id};
      var s := shapes[id];
      PartsAreNames(shapes, id);
      if s.member.Some? {
        ghost var before := reached;
        Reach(s.member.value, now);
        NewThroughPart(shapes, old(reached), before, reached, id, s.member.value);
      }
      MarkingMore(shapes, marked, reached);
      if s.item.Some? {
        ghost var before := reached;
        Reach(s.item.value, now);
        NewThroughPart(shapes, old(reached), before, reached, id, s.item.value);
      }
      MarkingMore(shapes, marked, reached);
      var left := s.members.Keys;
      while left != {}
        invariant left <= s.members.Keys && marked <= reached
        invariant OneOf(s.member) <= reached && OneOf(s.item) <= reached
        invariant forall m :: m in s.members && m !in left ==> s.members[m] in reached
        invariant Closed(shapes, reached, now) && NewFrom(shapes, old(reached), reached, id)
        invariant Unmarked(shapes, reached) <= Unmarked(shapes, marked)
        decreases |left|
      {
        var m :| m in left;
        left := left - {m};
        ghost var before := reached;
        Reach(s.members[m], now);
        NewThroughPart(shapes, old(reached), before, reached, id, s.members[m]);
        MarkingMore(shapes, marked, reached);
      }
      AllParts(s, reached);
      VisitOver(shapes, reached, underWay, id);
    }

    /** The marking from an operation's input or output, if it has one. */
    method ReachEnd(id: string, end: Option<string>)
      requires id in shapes && shapes[id].operation && (end == shapes[id].input || end == shapes[id].output)
      requires Closed(shapes, reached, {}) && forall name :: name in reached ==> Wanted(shapes, name)
      modifies this
      ensures Closed(shapes, reached, {}) && forall name :: name in reached ==> Wanted(shapes, name)
      ensures old(reached) + (OneOf(end) - {Unit}) <= reached
    {
      hide Names, Unmarked, Closed, NewFrom, Wanted, Graph, Parts;
      if end.Some? && end.value != Unit {
        EndsAreNames(shapes, id);
        Reach(end.value, {});
        WantedThroughEnd(shapes, old(reached), reached, id, end.value);
      }
    }

    /** The marking of main, for every order of visiting the shapes. */
    method ReachOperations()
      requires reached == {}
      modifies this
      ensures forall name :: name in reached <==> Wanted(shapes, name)
    {
      hide Names, Unmarked, Closed, NewFrom, Wanted, Graph, Parts, Ends, OneOf;
      var left := shapes.Keys;
      NothingMarked(shapes);
      while left != {}
        invariant left <= shapes.Keys && Closed(shapes, reached, {})
        invariant forall id :: id in shapes && id !in left ==> Ends(shapes[id]) <= reached
        invariant forall name :: name in reached ==> Wanted(shapes, name)
        decreases |left|
      {
        var id :| id in left;
        left := left - {id};
        if shapes[id].operation {
          ReachEnd(id, shapes[id].input);
          ReachEnd(id, shapes[id].output);
        }
        BothEnds(shapes[id], reached);
      }
      ClosedHasAllWanted(shapes, reached);
    }
  }

  lemma BothEnds(s: Shape, reached: set<string>)
    requires s.operation ==> OneOf(s.input) - {Unit} <= reached && OneOf(s.output) - {Unit} <= reached
    ensures Ends(s) <= reached
  {
  }

  lemma NothingNew(shapes: Shapes, reached: set<string>, id: string)
    ensures NewFrom(shapes, reached, reached, id) && NewFrom(shapes, reached, reached + {id}, id)
  {
    LeadsToItself(Graph(shapes), id);
  }

  lemma NothingMarked(shapes: Shapes)
    ensures Closed(shapes, {}, {})
  {
  }

  lemma PartsAreNames(shapes: Shapes, id: string)
    requires id in shapes
    ensures var s := shapes[id];
      && (s.member.Some? ==> s.member.value in Names(shapes) && s.member.value in Parts(s))
      && (s.item.Some? ==> s.item.value in Names(shapes) && s.item.value in Parts(s))
      && (forall m :: m in s.members ==> s.members[m] in Names(shapes) && s.members[m] in Parts(s))
  {
    assert forall t :: t in Parts(shapes[id]) ==> t in Names(shapes);
  }

  lemma EndsAreNames(shapes: Shapes, id: string)
    requires id in shapes
    ensures forall t :: t in Ends(shapes[id]) ==> t in Names(shapes)
  {
  }

  lemma AllParts(s: Shape, reached: set<string>)
    requires OneOf(s.member) <= reached && OneOf(s.item) <= reached && forall m :: m in s.members ==> s.members[m] in reached
    ensures Parts(s) <= reached
  {
  }

  lemma WantedThroughEnd(shapes: Shapes, before: set<string>, now: set<string>, id: string, end: string)
    requires id in shapes && end in Ends(shapes[id]) && NewFrom(shapes, before, now, end)
    requires forall name :: name in before ==> Wanted(shapes, name)
    ensures forall name :: name in now ==> Wanted(shapes, name)
  {
  }

  lemma ClosedHasAllWanted(shapes: Shapes, reached: set<string>)
    requires Closed(shapes, reached, {}) && forall id :: id in shapes ==> Ends(shapes[id]) <= reached
    ensures forall name :: Wanted(shapes, name) ==> name in reached
  {
    forall name | Wanted(shapes, name)
      ensures name in reached
    {
      var id, end :| id in shapes && end in Ends(shapes[id]) && Leads(Graph(shapes), end, name);
      var path :| IsPath(Graph(shapes), path) && path[0] == end && path[|path| - 1] == name;
      ClosedForwards(Graph(shapes), reached, path, |path| - 1);
    }
  }
}
