// The freeze and thaw counters of sim/volume_snapshot.go: volume captures that
// pause a volume's writers, commands that hold a container thawed, and the
// channel each count change that can unblock a waiter closes. Every critical
// section of the one lock, engine calls included, is one step; a waiter is
// parked on the channel between two of its critical sections.

module VolumeFreezes {

  type Container = string

  /** A Go counter map: an absent key reads as zero. */
  type Counters = map<Container, int>

  function At(m: Counters, c: Container): (n: int) {
    if c in m then m[c] else 0
  }

  /** How an engine call ended; a failed call may or may not have taken effect. */
  datatype Engine = Succeeded | Failed(tookEffect: bool)

  /** What a thread is doing; `channel` numbers the channel a parked thread waits on. */
  datatype Thread =
    | Idle
    | AwaitingThaw(c: Container, channel: nat)                  // HoldThawed, parked
    | HoldingThawed(c: Container)                               // HoldThawed returned
    | Freezing(todo: seq<Container>, frozen: seq<Container>)    // freezeVolumeWriters, between writers
    | AwaitingFreeze(todo: seq<Container>, frozen: seq<Container>, channel: nat)
    | Copying(frozen: seq<Container>)                           // every writer frozen, copy under way
    | Thawing(frozen: seq<Container>)                           // releaseVolumeFreeze, one by one

  /**
   * `channel` is the number of the open `changed` channel: a thread parked on a
   * smaller number has been woken. `trusted` records that every engine call so
   * far succeeded.
   */
  datatype State = State(
    holds: Counters, thawed: Counters, channel: nat,
    paused: set<Container>, trusted: bool, threads: seq<Thread>)

  datatype Step =
    | HoldThawed(t: nat, container: Container)   // the first look, or a look after a wake-up
    | GiveUpThaw(t: nat)                         // the context ended while parked
    | ReleaseThawed(t: nat)
    | StartCapture(t: nat, writers: seq<Container>)
    | HoldFreeze(t: nat, call: Engine)           // holdVolumeFreeze's critical section
    | GiveUpFreeze(t: nat)
    | StartCopy(t: nat)
    | EndCopy(t: nat)
    | ReleaseFreeze(t: nat, call: Engine)
    | EndCapture(t: nat)
    | ThawAbandoned(container: Container, call: Engine)

  predicate Enabled(s: State, step: Step) {
    match step
    case HoldThawed(t, c) =>
      t < |s.threads| &&
      (s.threads[t].Idle? || (s.threads[t].AwaitingThaw? && s.threads[t].c == c && s.threads[t].channel != s.channel))
    case GiveUpThaw(t) => t < |s.threads| && s.threads[t].AwaitingThaw?
    case ReleaseThawed(t) => t < |s.threads| && s.threads[t].HoldingThawed?
    case StartCapture(t, _) => t < |s.threads| && s.threads[t].Idle?
    case HoldFreeze(t, _) =>
      t < |s.threads| &&
      ((s.threads[t].Freezing? && s.threads[t].todo != []) ||
       (s.threads[t].AwaitingFreeze? && s.threads[t].todo != [] && s.threads[t].channel != s.channel))
    case GiveUpFreeze(t) => t < |s.threads| && s.threads[t].AwaitingFreeze?
    case StartCopy(t) => t < |s.threads| && s.threads[t].Freezing? && s.threads[t].todo == []
    case EndCopy(t) => t < |s.threads| && s.threads[t].Copying?
    case ReleaseFreeze(t, _) => t < |s.threads| && s.threads[t].Thawing? && s.threads[t].frozen != []
    case EndCapture(t) => t < |s.threads| && s.threads[t].Thawing? && s.threads[t].frozen == []
    case ThawAbandoned(c, _) => true
  }

  function Move(s: State, t: nat, thread: Thread): (s': State)
    requires t < |s.threads|
  {
    s.(threads := s.threads[t := thread])
  }

  function Decrement(m: Counters, c: Container): (m': Counters) {
    if At(m, c) - 1 == 0 then m - {c} else m[c := At(m, c) - 1]
  }

  function AfterHoldThawed(s: State, t: nat, c: Container): (s': State)
    requires t < |s.threads|
  {
    if At(s.holds, c) > 0 then
      Move(s, t, AwaitingThaw(c, s.channel))
    else
      Move(s.(thawed := s.thawed[c := At(s.thawed, c) + 1]), t, HoldingThawed(c))
  }

  function AfterReleaseThawed(s: State, t: nat): (s': State)
    requires Enabled(s, ReleaseThawed(t))
  {
    Move(s.(thawed := Decrement(s.thawed, s.threads[t].c), channel := s.channel + 1), t, Idle)
  }

  /** The engine's pause of c: what it leaves paused. */
  function Paused(paused: set<Container>, c: Container, call: Engine): (p: set<Container>) {
    if call.Succeeded? || call.tookEffect then paused + {c} else paused
  }

  function Unpaused(paused: set<Container>, c: Container, call: Engine): (p: set<Container>) {
    if call.Succeeded? || call.tookEffect then paused - {c} else paused
  }

  function AfterHoldFreeze(s: State, t: nat, call: Engine): (s': State)
    requires Enabled(s, HoldFreeze(t, call))
  {
    var todo, frozen := s.threads[t].todo, s.threads[t].frozen;
    var c := todo[0];
    var counted := s.holds[c := At(s.holds, c) + 1];
    if At(s.thawed, c) > 0 then
      Move(s, t, AwaitingFreeze(todo, frozen, s.channel))
    else if At(s.holds, c) != 0 then
      Move(s.(holds := counted), t, Freezing(todo[1..], frozen + [c]))
    else if call.Succeeded? then
      Move(s.(holds := counted, paused := Paused(s.paused, c, call)), t, Freezing(todo[1..], frozen + [c]))
    else
      Move(s.(paused := Paused(s.paused, c, call), trusted := false), t, Thawing(frozen))
  }

  function AfterReleaseFreeze(s: State, t: nat, call: Engine): (s': State)
    requires Enabled(s, ReleaseFreeze(t, call))
  {
    var frozen := s.threads[t].frozen;
    var c := frozen[0];
    if At(s.holds, c) - 1 > 0 then
      Move(s.(holds := s.holds[c := At(s.holds, c) - 1]), t, Thawing(frozen[1..]))
    else
      Move(s.(holds := s.holds - {c}, paused := Unpaused(s.paused, c, call),
              trusted := s.trusted && call.Succeeded?, channel := s.channel + 1),
           t, Thawing(frozen[1..]))
  }

  function AfterThawAbandoned(s: State, c: Container, call: Engine): (s': State) {
    if At(s.holds, c) > 0 || c !in s.paused then s
    else s.(paused := Unpaused(s.paused, c, call), trusted := s.trusted && call.Succeeded?)
  }

  function Apply(s: State, step: Step): (s': State)
    requires Enabled(s, step)
  {
    match step
    case HoldThawed(t, c) => AfterHoldThawed(s, t, c)
    case GiveUpThaw(t) => Move(s, t, Idle)
    case ReleaseThawed(t) => AfterReleaseThawed(s, t)
    case StartCapture(t, writers) => Move(s, t, Freezing(writers, []))
    case HoldFreeze(t, call) => AfterHoldFreeze(s, t, call)
    case GiveUpFreeze(t) => Move(s, t, Thawing(s.threads[t].frozen))
    case StartCopy(t) => Move(s, t, Copying(s.threads[t].frozen))
    case EndCopy(t) => Move(s, t, Thawing(s.threads[t].frozen))
    case ReleaseFreeze(t, call) => AfterReleaseFreeze(s, t, call)
    case EndCapture(t) => Move(s, t, Idle)
    case ThawAbandoned(c, call) => AfterThawAbandoned(s, c, call)
  }

  /** Any number of idle threads; containers paused by an earlier process may remain. */
  ghost predicate Start(s: State) {
    && s.holds == map[] && s.thawed == map[]
    && (s.trusted ==> s.paused == {})
    && forall t :: 0 <= t < |s.threads| ==> s.threads[t] == Idle
  }

  ghost predicate Run(states: seq<State>, steps: seq<Step>) {
    && |states| == |steps| + 1
    && Start(states[0])
    && forall i :: 0 <= i < |steps| ==> Enabled(states[i], steps[i]) && states[i + 1] == Apply(states[i], steps[i])
  }

  // Who holds what.

  /** The freeze holds one thread has on c: one for each time its capture froze c. */
  function FreezeHolds(th: Thread, c: Container): (n: nat) {
    if th.Freezing? || th.AwaitingFreeze? || th.Copying? || th.Thawing? then multiset(th.frozen)[c] else 0
  }

  function ThawHolds(th: Thread, c: Container): (n: nat) {
    if th.HoldingThawed? && th.c == c then 1 else 0
  }

  function AllFreezeHolds(threads: seq<Thread>, c: Container): (n: nat) {
    if threads == [] then 0 else FreezeHolds(threads[0], c) + AllFreezeHolds(threads[1..], c)
  }

  function AllThawHolds(threads: seq<Thread>, c: Container): (n: nat) {
    if threads == [] then 0 else ThawHolds(threads[0], c) + AllThawHolds(threads[1..], c)
  }

  lemma {:induction false} HoldsUpdate(threads: seq<Thread>, t: nat, th: Thread, c: Container)
    requires t < |threads|
    ensures AllFreezeHolds(threads[t := th], c) == AllFreezeHolds(threads, c) - FreezeHolds(threads[t], c) + FreezeHolds(th, c)
    ensures AllThawHolds(threads[t := th], c) == AllThawHolds(threads, c) - ThawHolds(threads[t], c) + ThawHolds(th, c)
    decreases |threads|
  {
    if t > 0 {
      HoldsUpdate(threads[1..], t - 1, th, c);
      assert threads[t := th][1..] == threads[1..][t - 1 := th];
    } else {
      assert threads[t := th][1..] == threads[1..];
    }
  }

  lemma {:induction false} HoldsBound(threads: seq<Thread>, t: nat, c: Container)
    requires t < |threads|
    ensures FreezeHolds(threads[t], c) <= AllFreezeHolds(threads, c)
    ensures ThawHolds(threads[t], c) <= AllThawHolds(threads, c)
    decreases |threads|
  {
    if t > 0 {
      HoldsBound(threads[1..], t - 1, c);
    }
  }

  lemma {:induction false} IdleHoldsNothing(threads: seq<Thread>, c: Container)
    requires forall t :: 0 <= t < |threads| ==> threads[t] == Idle
    ensures AllFreezeHolds(threads, c) == 0 && AllThawHolds(threads, c) == 0
    decreases |threads|
  {
    if threads != [] {
      IdleHoldsNothing(threads[1..], c);
    }
  }

  /** The counters are exactly the live holds, and keep no zero entries. */
  ghost predicate Counted(s: State) {
    && (forall c: Container :: At(s.holds, c) == AllFreezeHolds(s.threads, c))
    && (forall c: Container :: At(s.thawed, c) == AllThawHolds(s.threads, c))
    && (forall c :: c in s.holds ==> s.holds[c] > 0)
    && (forall c :: c in s.thawed ==> s.thawed[c] > 0)
  }

  ghost predicate Exclusive(s: State) {
    forall c: Container :: At(s.holds, c) <= 0 || At(s.thawed, c) <= 0
  }

  ghost predicate PausedWhileHeld(s: State) {
    && (forall c: Container :: At(s.holds, c) > 0 ==> c in s.paused)
    && (s.trusted ==> forall c: Container :: c in s.paused ==> At(s.holds, c) > 0)
  }

  /** A thread parked on the open channel waits on a count that is still positive. */
  ghost predicate ParkedRightly(s: State, th: Thread) {
    match th
    case AwaitingThaw(c, channel) => channel <= s.channel && (channel == s.channel ==> At(s.holds, c) > 0)
    case AwaitingFreeze(todo, _, channel) =>
      channel <= s.channel && todo != [] && (channel == s.channel ==> At(s.thawed, todo[0]) > 0)
    case _ => true
  }

  ghost predicate NoLostWakeup(s: State) {
    forall t :: 0 <= t < |s.threads| ==> ParkedRightly(s, s.threads[t])
  }

  ghost predicate Inv(s: State) {
    Counted(s) && Exclusive(s) && PausedWhileHeld(s) && NoLostWakeup(s)
  }

  /** A step that moves one thread changes exactly that thread's holds. */
  ghost predicate HoldsMoved(s: State, s': State, t: nat, c: Container)
    requires t < |s.threads| && t < |s'.threads|
  {
    && At(s'.holds, c) == At(s.holds, c) - FreezeHolds(s.threads[t], c) + FreezeHolds(s'.threads[t], c)
    && At(s'.thawed, c) == At(s.thawed, c) - ThawHolds(s.threads[t], c) + ThawHolds(s'.threads[t], c)
  }

  lemma MoveCounts(s: State, s': State, t: nat)
    requires Counted(s) && t < |s.threads| && |s'.threads| == |s.threads|
    requires s'.threads == s.threads[t := s'.threads[t]]
    requires forall c: Container :: HoldsMoved(s, s', t, c)
    requires forall c :: c in s'.holds ==> s'.holds[c] > 0
    requires forall c :: c in s'.thawed ==> s'.thawed[c] > 0
    ensures Counted(s')
  {
    forall c: Container
      ensures At(s'.holds, c) == AllFreezeHolds(s'.threads, c) && At(s'.thawed, c) == AllThawHolds(s'.threads, c)
    {
      assert HoldsMoved(s, s', t, c);
      HoldsUpdate(s.threads, t, s'.threads[t], c);
    }
  }

  /** What a step takes away is there to take. */
  ghost predicate TakesWhatIsHeld(s: State, step: Step)
    requires Enabled(s, step)
  {
    && (step.ReleaseFreeze? ==> At(s.holds, s.threads[step.t].frozen[0]) > 0)
    && (step.ReleaseThawed? ==> At(s.thawed, s.threads[step.t].c) > 0)
  }

  lemma ReleasesAreHeld(s: State, step: Step)
    requires Counted(s) && Enabled(s, step)
    ensures TakesWhatIsHeld(s, step)
  {
    if step.ReleaseFreeze? {
      HoldsBound(s.threads, step.t, s.threads[step.t].frozen[0]);
    } else if step.ReleaseThawed? {
      HoldsBound(s.threads, step.t, s.threads[step.t].c);
    }
  }

  lemma ReleaseFreezeMoves(s: State, t: nat, call: Engine, c: Container)
    requires Enabled(s, ReleaseFreeze(t, call)) && TakesWhatIsHeld(s, ReleaseFreeze(t, call))
    ensures HoldsMoved(s, AfterReleaseFreeze(s, t, call), t, c)
  {
    var frozen := s.threads[t].frozen;
    assert frozen == [frozen[0]] + frozen[1..];
  }

  /** Before and after its copy a capture's holds are its list. */
  predicate Lists(th: Thread) {
    th.Freezing? || th.AwaitingFreeze? || th.Thawing?
  }

  lemma SameList(th: Thread, th': Thread, c: Container)
    requires Lists(th) && Lists(th') && th'.frozen == th.frozen
    ensures FreezeHolds(th', c) == FreezeHolds(th, c) && ThawHolds(th', c) == ThawHolds(th, c)
  {
  }

  lemma LongerList(th: Thread, th': Thread, d: Container, c: Container)
    requires Lists(th) && Lists(th') && th'.frozen == th.frozen + [d]
    ensures FreezeHolds(th', c) == FreezeHolds(th, c) + (if c == d then 1 else 0) && ThawHolds(th', c) == ThawHolds(th, c)
  {
  }

  lemma CountsOneMore(m: Counters, d: Container, c: Container)
    ensures At(m[d := At(m, d) + 1], c) == At(m, c) + if c == d then 1 else 0
  {
  }

  /** Either nothing is held anew and the list stays, or one container is held and listed once more. */
  lemma HoldFreezeOutcomes(s: State, t: nat, call: Engine)
    requires Enabled(s, HoldFreeze(t, call))
    ensures t < |s.threads| == |AfterHoldFreeze(s, t, call).threads|
    ensures (s.threads[t].Freezing? || s.threads[t].AwaitingFreeze?) && s.threads[t].todo != []
    ensures var s' := AfterHoldFreeze(s, t, call); var th, th' := s.threads[t], s'.threads[t]; var d := th.todo[0];
      && s'.thawed == s.thawed && Lists(th')
      && (|| (s'.holds == s.holds && th'.frozen == th.frozen)
          || (s'.holds == s.holds[d := At(s.holds, d) + 1] && th'.frozen == th.frozen + [d]))
  {
    hide Paused;
  }

  lemma HoldFreezeMoves(s: State, t: nat, call: Engine, c: Container)
    requires Enabled(s, HoldFreeze(t, call))
    ensures HoldsMoved(s, AfterHoldFreeze(s, t, call), t, c)
  {
    hide Enabled, AfterHoldFreeze, FreezeHolds, ThawHolds, At;
    HoldFreezeOutcomes(s, t, call);
    var s' := AfterHoldFreeze(s, t, call);
    var th, th', d := s.threads[t], s'.threads[t], s.threads[t].todo[0];
    if s'.holds == s.holds && th'.frozen == th.frozen {
      SameList(th, th', c);
    } else {
      CountsOneMore(s.holds, d, c);
      LongerList(th, th', d, c);
    }
  }

  lemma ThawStepMoves(s: State, step: Step, c: Container)
    requires Enabled(s, step) && TakesWhatIsHeld(s, step)
    requires step.HoldThawed? || step.ReleaseThawed? || step.GiveUpThaw?
    ensures HoldsMoved(s, Apply(s, step), step.t, c)
  {
  }

  lemma StepMoves(s: State, step: Step, c: Container)
    requires Enabled(s, step) && TakesWhatIsHeld(s, step) && !step.ThawAbandoned?
    ensures HoldsMoved(s, Apply(s, step), step.t, c)
  {
    match step
    case HoldFreeze(t, call) => HoldFreezeMoves(s, t, call, c);
    case ReleaseFreeze(t, call) => ReleaseFreezeMoves(s, t, call, c);
    case HoldThawed(_, _) => ThawStepMoves(s, step, c);
    case ReleaseThawed(_) => ThawStepMoves(s, step, c);
    case GiveUpThaw(_) => ThawStepMoves(s, step, c);
    case _ =>
  }

  lemma StepKeepsNoZeros(s: State, step: Step)
    requires Enabled(s, step) && TakesWhatIsHeld(s, step)
    requires forall c :: c in s.holds ==> s.holds[c] > 0
    requires forall c :: c in s.thawed ==> s.thawed[c] > 0
    ensures forall c :: c in Apply(s, step).holds ==> Apply(s, step).holds[c] > 0
    ensures forall c :: c in Apply(s, step).thawed ==> Apply(s, step).thawed[c] > 0
  {
  }

  lemma OnlyMoverMoves(s: State, step: Step)
    requires Enabled(s, step) && !step.ThawAbandoned?
    ensures step.t < |s.threads| == |Apply(s, step).threads|
    ensures Apply(s, step).threads == s.threads[step.t := Apply(s, step).threads[step.t]]
  {
    hide Paused, Unpaused, At;
  }

  lemma AbandonedCounts(s: State, c: Container, call: Engine)
    requires Counted(s)
    ensures Counted(Apply(s, ThawAbandoned(c, call)))
  {
  }

  lemma StepCounts(s: State, step: Step)
    requires Counted(s) && Enabled(s, step)
    ensures Counted(Apply(s, step))
  {
    hide Apply, Enabled, TakesWhatIsHeld, HoldsMoved, At;
    ReleasesAreHeld(s, step);
    if step.ThawAbandoned? {
      AbandonedCounts(s, step.container, step.call);
    } else {
      OnlyMoverMoves(s, step);
      forall c: Container
        ensures HoldsMoved(s, Apply(s, step), step.t, c)
      {
        StepMoves(s, step, c);
      }
      StepKeepsNoZeros(s, step);
      MoveCounts(s, Apply(s, step), step.t);
    }
  }

  lemma StepExcludes(s: State, step: Step)
    requires Exclusive(s) && Enabled(s, step) && TakesWhatIsHeld(s, step)
    ensures Exclusive(Apply(s, step))
  {
  }

  lemma FreezeStepPauses(s: State, step: Step)
    requires PausedWhileHeld(s) && Enabled(s, step) && TakesWhatIsHeld(s, step) && (step.HoldFreeze? || step.ReleaseFreeze?)
    ensures PausedWhileHeld(Apply(s, step))
  {
  }

  lemma StepPauses(s: State, step: Step)
    requires PausedWhileHeld(s) && Enabled(s, step) && TakesWhatIsHeld(s, step)
    ensures PausedWhileHeld(Apply(s, step))
  {
    hide AfterHoldFreeze, AfterReleaseFreeze, Paused;
    if step.HoldFreeze? || step.ReleaseFreeze? {
      FreezeStepPauses(s, step);
    }
  }

  /** A count a waiter waits on reaches zero only together with a new channel. */
  ghost predicate EndsOnlyWithBroadcast(s: State, s': State, c: Container) {
    s'.channel == s.channel ==>
      && (At(s.holds, c) > 0 ==> At(s'.holds, c) > 0)
      && (At(s.thawed, c) > 0 ==> At(s'.thawed, c) > 0)
  }

  lemma FreezeStepBroadcasts(s: State, step: Step, c: Container)
    requires Enabled(s, step) && TakesWhatIsHeld(s, step) && (step.HoldFreeze? || step.ReleaseFreeze?)
    ensures Apply(s, step).channel >= s.channel
    ensures EndsOnlyWithBroadcast(s, Apply(s, step), c)
  {
    hide Paused, Unpaused;
  }

  lemma StepBroadcasts(s: State, step: Step, c: Container)
    requires Enabled(s, step) && TakesWhatIsHeld(s, step)
    ensures Apply(s, step).channel >= s.channel
    ensures EndsOnlyWithBroadcast(s, Apply(s, step), c)
  {
    hide AfterHoldFreeze, AfterReleaseFreeze, Paused, Unpaused;
    if step.HoldFreeze? || step.ReleaseFreeze? {
      FreezeStepBroadcasts(s, step, c);
    }
  }

  lemma MoverParksRightly(s: State, step: Step)
    requires Enabled(s, step) && !step.ThawAbandoned?
    ensures ParkedRightly(Apply(s, step), Apply(s, step).threads[step.t])
  {
    hide Paused, Unpaused;
  }

  /** A step moves at most its own thread. */
  lemma OthersStay(s: State, step: Step)
    requires Enabled(s, step)
    ensures |Apply(s, step).threads| == |s.threads|
    ensures forall u :: 0 <= u < |s.threads| && (step.ThawAbandoned? || u != step.t) ==> Apply(s, step).threads[u] == s.threads[u]
  {
    hide Paused, Unpaused, At;
  }

  /** A thread that stays parked waits rightly, since a count it waits on ends only with a broadcast. */
  lemma ParkedStaysRight(s: State, step: Step, th: Thread)
    requires Enabled(s, step) && TakesWhatIsHeld(s, step) && ParkedRightly(s, th)
    ensures ParkedRightly(Apply(s, step), th)
  {
    hide Apply, TakesWhatIsHeld, At;
    match th
    case AwaitingThaw(c, _) => StepBroadcasts(s, step, c);
    case AwaitingFreeze(todo, _, _) => StepBroadcasts(s, step, todo[0]);
    case _ =>
  }

  lemma StepWakes(s: State, step: Step)
    requires NoLostWakeup(s) && Enabled(s, step) && TakesWhatIsHeld(s, step)
    ensures NoLostWakeup(Apply(s, step))
  {
    hide Apply, TakesWhatIsHeld, ParkedRightly;
    OthersStay(s, step);
    forall u | 0 <= u < |s.threads|
      ensures ParkedRightly(Apply(s, step), Apply(s, step).threads[u])
    {
      if !step.ThawAbandoned? && u == step.t {
        MoverParksRightly(s, step);
      } else {
        ParkedStaysRight(s, step, s.threads[u]);
      }
    }
  }

  lemma StepKeepsInv(s: State, step: Step)
    requires Inv(s) && Enabled(s, step)
    ensures Inv(Apply(s, step))
  {
    ReleasesAreHeld(s, step);
    StepCounts(s, step);
    StepExcludes(s, step);
    StepPauses(s, step);
    StepWakes(s, step);
  }

  lemma {:induction false} RunKeepsInv(states: seq<State>, steps: seq<Step>, i: nat)
    requires Run(states, steps) && i < |states|
    ensures Inv(states[i])
    decreases i
  {
    if i == 0 {
      forall c: Container
        ensures AllFreezeHolds(states[0].threads, c) == 0 && AllThawHolds(states[0].threads, c) == 0
      {
        IdleHoldsNothing(states[0].threads, c);
      }
    } else {
      RunKeepsInv(states, steps, i - 1);
      StepKeepsInv(states[i - 1], steps[i - 1]);
    }
  }

  /**
   * In every reachable state each counter is the number of live holds, no
   * container has both kinds of hold, and every held container is paused even
   * if engine calls failed; while all of them succeeded, paused and held agree.
   */
  lemma FreezeSafety(states: seq<State>, steps: seq<Step>, i: nat, c: Container)
    requires Run(states, steps) && i < |states|
    ensures At(states[i].holds, c) == AllFreezeHolds(states[i].threads, c)
    ensures At(states[i].thawed, c) == AllThawHolds(states[i].threads, c)
    ensures !(AllFreezeHolds(states[i].threads, c) > 0 && AllThawHolds(states[i].threads, c) > 0)
    ensures AllFreezeHolds(states[i].threads, c) > 0 ==> c in states[i].paused
    ensures states[i].trusted ==> (c in states[i].paused <==> AllFreezeHolds(states[i].threads, c) > 0)
  {
    RunKeepsInv(states, steps, i);
  }

  /** Every writer a capture froze is paused for the whole of its copy, whatever the other threads do. */
  lemma WritersStayPausedDuringCopy(states: seq<State>, steps: seq<Step>, i: nat, t: nat, c: Container)
    requires Run(states, steps) && i < |states| && t < |states[i].threads|
    requires states[i].threads[t].Copying? && c in states[i].threads[t].frozen
    ensures c in states[i].paused
    ensures forall u :: 0 <= u < |states[i].threads| ==> states[i].threads[u] != HoldingThawed(c)
  {
    FreezeSafety(states, steps, i, c);
    HoldsBound(states[i].threads, t, c);
    forall u | 0 <= u < |states[i].threads|
      ensures states[i].threads[u] != HoldingThawed(c)
    {
      HoldsBound(states[i].threads, u, c);
    }
  }

  /** A command under a thaw hold never meets a container some capture froze. */
  lemma ThawedStaysThawed(states: seq<State>, steps: seq<Step>, i: nat, t: nat)
    requires Run(states, steps) && i < |states| && t < |states[i].threads|
    requires states[i].threads[t].HoldingThawed? && states[i].trusted
    ensures states[i].threads[t].c !in states[i].paused
  {
    FreezeSafety(states, steps, i, states[i].threads[t].c);
    HoldsBound(states[i].threads, t, states[i].threads[t].c);
  }

  /** A thread whose wait is over can take its next look: no wake-up is lost. */
  lemma WaitersWakeUp(states: seq<State>, steps: seq<Step>, i: nat, t: nat)
    requires Run(states, steps) && i < |states| && t < |states[i].threads|
    ensures var s := states[i];
      match s.threads[t]
      case AwaitingThaw(c, _) => At(s.holds, c) > 0 || Enabled(s, HoldThawed(t, c))
      case AwaitingFreeze(todo, _, _) => todo != [] && (At(s.thawed, todo[0]) > 0 || Enabled(s, HoldFreeze(t, Succeeded)))
      case _ => true
  {
    RunKeepsInv(states, steps, i);
  }

  // What a capture froze against the writers it was started with.

  /** What a thread has frozen and has still to freeze are its capture's writers, in order; a copy starts with all of them. */
  ghost predicate OnWriters(th: Thread, writers: seq<Container>) {
    match th
    case Freezing(todo, frozen) => frozen + todo == writers
    case AwaitingFreeze(todo, frozen, _) => frozen + todo == writers
    case Copying(frozen) => frozen == writers
    case _ => true
  }

  lemma OneMoreFrozen(frozen: seq<Container>, todo: seq<Container>)
    requires todo != []
    ensures (frozen + [todo[0]]) + todo[1..] == frozen + todo
  {
  }

  lemma StepKeepsWriters(s: State, step: Step, t: nat, writers: seq<Container>)
    requires Enabled(s, step) && t < |s.threads| && OnWriters(s.threads[t], writers)
    requires !(step.StartCapture? && step.t == t)
    ensures |Apply(s, step).threads| == |s.threads| && OnWriters(Apply(s, step).threads[t], writers)
  {
    hide At, Paused, Unpaused;
    OthersStay(s, step);
    if step.HoldFreeze? && step.t == t {
      OneMoreFrozen(s.threads[t].frozen, s.threads[t].todo);
    }
  }

  lemma StartsOnWriters(s: State, t: nat, writers: seq<Container>)
    requires Enabled(s, StartCapture(t, writers))
    ensures var s' := Apply(s, StartCapture(t, writers)); t < |s'.threads| && OnWriters(s'.threads[t], writers)
  {
  }

  /** Thread t starts no capture between the two positions. */
  ghost predicate SameCapture(steps: seq<Step>, t: nat, m: nat, n: nat)
    requires n <= |steps|
  {
    forall k :: m < k < n ==> !(steps[k].StartCapture? && steps[k].t == t)
  }

  lemma {:induction false} RunKeepsWriters(states: seq<State>, steps: seq<Step>, m: nat, n: nat, t: nat, writers: seq<Container>)
    requires Run(states, steps) && m < n <= |steps| && steps[m] == StartCapture(t, writers) && SameCapture(steps, t, m, n)
    ensures t < |states[n].threads| && OnWriters(states[n].threads[t], writers)
    decreases n
  {
    hide Apply, OnWriters;
    if n == m + 1 {
      StartsOnWriters(states[m], t, writers);
    } else {
      RunKeepsWriters(states, steps, m, n - 1, t, writers);
      StepKeepsWriters(states[n - 1], steps[n - 1], t, writers);
    }
  }

  /**
   * A capture copies only after it has frozen every writer it was started with,
   * and each of them is paused, and no command has it thawed, for as long as the
   * copy lasts.
   */
  lemma EveryWriterIsPausedDuringCopy(states: seq<State>, steps: seq<Step>, m: nat, n: nat, t: nat, writers: seq<Container>)
    requires Run(states, steps) && m < n <= |steps| && steps[m] == StartCapture(t, writers) && SameCapture(steps, t, m, n)
    requires t < |states[n].threads| && states[n].threads[t].Copying?
    ensures states[n].threads[t].frozen == writers
    ensures forall c :: c in writers ==> c in states[n].paused
    ensures forall c, u :: c in writers && 0 <= u < |states[n].threads| ==> states[n].threads[u] != HoldingThawed(c)
  {
    RunKeepsWriters(states, steps, m, n, t, writers);
    forall c | c in writers
      ensures c in states[n].paused
      ensures forall u :: 0 <= u < |states[n].threads| ==> states[n].threads[u] != HoldingThawed(c)
    {
      WritersStayPausedDuringCopy(states, steps, n, t, c);
    }
  }

  // What the calls achieve when nothing is in their way.

  /** Waiting is for the other kind of hold alone: a thaw hold is taken exactly when no capture has the container frozen. */
  lemma ThawIsHeldExactlyWhen(s: State, t: nat, c: Container)
    requires Enabled(s, HoldThawed(t, c))
    ensures var s' := Apply(s, HoldThawed(t, c));
      && t < |s'.threads|
      && (s'.threads[t] == HoldingThawed(c) <==> At(s.holds, c) <= 0)
      && (s'.threads[t].AwaitingThaw? <==> At(s.holds, c) > 0)
      && (s'.threads[t].AwaitingThaw? ==> s'.threads[t].c == c)
  {
  }

  /** A capture gets past its next writer exactly when no command holds it thawed and it is frozen already or the pause succeeds. */
  lemma FreezeAdvancesExactlyWhen(s: State, t: nat, call: Engine)
    requires Enabled(s, HoldFreeze(t, call))
    ensures var th, s' := s.threads[t], Apply(s, HoldFreeze(t, call)); var c := th.todo[0];
      && t < |s'.threads|
      && (s'.threads[t] == Freezing(th.todo[1..], th.frozen + [c]) <==> At(s.thawed, c) <= 0 && (At(s.holds, c) != 0 || call.Succeeded?))
      && (s'.threads[t].AwaitingFreeze? <==> At(s.thawed, c) > 0)
  {
    assert |s.threads[t].todo| > |s.threads[t].todo[1..]|;
  }

  /** A container no capture holds is running again after the call, if the engine carried it out. */
  lemma AbandonedPausesEnd(s: State, c: Container, call: Engine)
    ensures var s' := Apply(s, ThawAbandoned(c, call));
      && (c in s'.paused <==> c in s.paused && (At(s.holds, c) > 0 || call == Failed(false)))
      && forall d :: d != c ==> (d in s'.paused <==> d in s.paused)
  {
  }

  /** The steps lead from s to s'. */
  ghost predicate LeadTo(s: State, steps: seq<Step>, s': State)
    decreases |steps|
  {
    if steps == [] then s' == s
    else Enabled(s, steps[0]) && LeadTo(Apply(s, steps[0]), steps[1..], s')
  }

  lemma {:induction false} LeadsOn(s: State, first: seq<Step>, mid: State, second: seq<Step>, s': State)
    requires LeadTo(s, first, mid) && LeadTo(mid, second, s')
    ensures LeadTo(s, first + second, s')
    decreases |first|
  {
    if first == [] {
      assert first + second == second;
    } else {
      LeadsOn(Apply(s, first[0]), first[1..], mid, second, s');
      assert (first + second)[1..] == first[1..] + second;
    }
  }

  lemma {:induction false} StepsKeepInv(s: State, steps: seq<Step>, s': State)
    requires Inv(s) && LeadTo(s, steps, s')
    ensures Inv(s')
    decreases |steps|
  {
    hide Inv, Enabled, Apply;
    if steps != [] {
      StepKeepsInv(s, steps[0]);
      StepsKeepInv(Apply(s, steps[0]), steps[1..], s');
    }
  }

  function Repeated(n: nat, step: Step): (steps: seq<Step>) {
    if n == 0 then [] else [step] + Repeated(n - 1, step)
  }

  lemma FreezesNext(s: State, t: nat)
    requires t < |s.threads| && s.threads[t].Freezing? && s.threads[t].todo != [] && At(s.thawed, s.threads[t].todo[0]) <= 0
    ensures Enabled(s, HoldFreeze(t, Succeeded))
    ensures var th, s' := s.threads[t], Apply(s, HoldFreeze(t, Succeeded));
      s'.threads == s.threads[t := Freezing(th.todo[1..], th.frozen + [th.todo[0]])] && s'.trusted == s.trusted && s'.thawed == s.thawed
  {
    hide Paused;
  }

  /** A freezing thread with no command in its way gets to the end of its writers. */
  lemma {:induction false} FreezesAll(s: State, t: nat) returns (s': State)
    requires t < |s.threads| && s.threads[t].Freezing? && forall c :: c in s.threads[t].todo ==> At(s.thawed, c) <= 0
    ensures LeadTo(s, Repeated(|s.threads[t].todo|, HoldFreeze(t, Succeeded)), s')
    ensures s'.threads == s.threads[t := Freezing([], s.threads[t].frozen + s.threads[t].todo)] && s'.trusted == s.trusted
    decreases |s.threads[t].todo|
  {
    hide Apply, Enabled, At;
    var todo, frozen, step := s.threads[t].todo, s.threads[t].frozen, HoldFreeze(t, Succeeded);
    if todo == [] {
      s' := s;
      assert frozen + todo == frozen;
    } else {
      FreezesNext(s, t);
      OneMoreFrozen(frozen, todo);
      s' := FreezesAll(Apply(s, step), t);
      assert Repeated(|todo|, step)[1..] == Repeated(|todo| - 1, step);
    }
  }

  lemma {:induction false} ThawsAll(s: State, t: nat) returns (s': State)
    requires t < |s.threads| && s.threads[t].Thawing?
    ensures LeadTo(s, Repeated(|s.threads[t].frozen|, ReleaseFreeze(t, Succeeded)), s')
    ensures s'.threads == s.threads[t := Thawing([])] && s'.trusted == s.trusted
    decreases |s.threads[t].frozen|
  {
    var frozen, step := s.threads[t].frozen, ReleaseFreeze(t, Succeeded);
    if frozen == [] {
      s' := s;
    } else {
      s' := ThawsAll(Apply(s, step), t);
      assert Repeated(|frozen|, step)[1..] == Repeated(|frozen| - 1, step);
    }
  }

  lemma SameCounters(m: Counters, m': Counters)
    requires forall c: Container :: At(m, c) == At(m', c)
    requires (forall c :: c in m ==> m[c] > 0) && forall c :: c in m' ==> m'[c] > 0
    ensures m == m'
  {
    assert forall c :: c in m ==> m[c] == At(m, c) == At(m', c);
    assert forall c :: c in m' ==> m'[c] == At(m', c) == At(m, c);
  }

  /** The counters and the paused set are decided by the threads. */
  lemma ThreadsDecide(s: State, s': State)
    requires Inv(s) && Inv(s') && s.threads == s'.threads
    ensures s.holds == s'.holds && s.thawed == s'.thawed && (s.trusted && s'.trusted ==> s.paused == s'.paused)
  {
    hide At, NoLostWakeup, Exclusive, AllFreezeHolds, AllThawHolds;
    SameCounters(s.holds, s'.holds);
    SameCounters(s.thawed, s'.thawed);
  }

  /** The steps of a whole capture, up to its copy and after it. */
  function BeforeCopy(t: nat, writers: seq<Container>): (steps: seq<Step>) {
    [StartCapture(t, writers)] + Repeated(|writers|, HoldFreeze(t, Succeeded)) + [StartCopy(t)]
  }

  function AfterCopy(t: nat, writers: seq<Container>): (steps: seq<Step>) {
    [EndCopy(t)] + Repeated(|writers|, ReleaseFreeze(t, Succeeded)) + [EndCapture(t)]
  }

  lemma OneStep(s: State, step: Step)
    requires Enabled(s, step)
    ensures LeadTo(s, [step], Apply(s, step))
  {
    assert [step][1..] == [];
  }

  lemma ReachesItsCopy(s: State, t: nat, writers: seq<Container>) returns (mid: State)
    requires t < |s.threads| && s.threads[t].Idle? && forall c :: c in writers ==> At(s.thawed, c) <= 0
    ensures LeadTo(s, BeforeCopy(t, writers), mid)
    ensures mid.threads == s.threads[t := Copying(writers)] && mid.trusted == s.trusted
  {
    hide LeadTo, At;
    var started := Apply(s, StartCapture(t, writers));
    OneStep(s, StartCapture(t, writers));
    var frozen := FreezesAll(started, t);
    assert [] + writers == writers;
    LeadsOn(s, [StartCapture(t, writers)], started, Repeated(|writers|, HoldFreeze(t, Succeeded)), frozen);
    mid := Apply(frozen, StartCopy(t));
    OneStep(frozen, StartCopy(t));
    LeadsOn(s, [StartCapture(t, writers)] + Repeated(|writers|, HoldFreeze(t, Succeeded)), frozen, [StartCopy(t)], mid);
  }

  lemma ComesToItsEnd(mid: State, t: nat, writers: seq<Container>) returns (s': State)
    requires t < |mid.threads| && mid.threads[t] == Copying(writers)
    ensures LeadTo(mid, AfterCopy(t, writers), s')
    ensures s'.threads == mid.threads[t := Idle] && s'.trusted == mid.trusted
  {
    hide LeadTo, At;
    var ended := Apply(mid, EndCopy(t));
    OneStep(mid, EndCopy(t));
    var thawed := ThawsAll(ended, t);
    LeadsOn(mid, [EndCopy(t)], ended, Repeated(|writers|, ReleaseFreeze(t, Succeeded)), thawed);
    s' := Apply(thawed, EndCapture(t));
    OneStep(thawed, EndCapture(t));
    LeadsOn(mid, [EndCopy(t)] + Repeated(|writers|, ReleaseFreeze(t, Succeeded)), thawed, [EndCapture(t)], s');
  }

  lemma {:induction false} NobodyHoldsThawed(threads: seq<Thread>, c: Container)
    requires forall u :: 0 <= u < |threads| ==> threads[u] != HoldingThawed(c)
    ensures AllThawHolds(threads, c) == 0
    decreases |threads|
  {
    if threads != [] {
      NobodyHoldsThawed(threads[1..], c);
    }
  }

  lemma NobodyThaws(s: State, c: Container)
    requires Inv(s) && forall u :: 0 <= u < |s.threads| ==> s.threads[u] != HoldingThawed(c)
    ensures At(s.thawed, c) <= 0
  {
    NobodyHoldsThawed(s.threads, c);
  }

  lemma FrozenArePaused(s: State, t: nat, c: Container)
    requires Inv(s) && t < |s.threads| && s.threads[t].Copying? && c in s.threads[t].frozen
    ensures c in s.paused
  {
    HoldsBound(s.threads, t, c);
  }

  /**
   * From every reachable state in which no command holds a writer thawed, a
   * capture can pause all its writers, copy and thaw them, and leaves counters,
   * paused containers and the other threads as it found them.
   */
  lemma ACaptureLeavesNoTrace(states: seq<State>, steps: seq<Step>, i: nat, t: nat, writers: seq<Container>)
      returns (mid: State, s': State)
    requires Run(states, steps) && i < |states| && t < |states[i].threads| && states[i].threads[t].Idle?
    requires forall c, u :: c in writers && 0 <= u < |states[i].threads| ==> states[i].threads[u] != HoldingThawed(c)
    ensures LeadTo(states[i], BeforeCopy(t, writers), mid) && LeadTo(mid, AfterCopy(t, writers), s')
    ensures forall c :: c in writers ==> c in mid.paused
    ensures s'.threads == states[i].threads && s'.holds == states[i].holds && s'.thawed == states[i].thawed
    ensures states[i].trusted ==> s'.trusted && s'.paused == states[i].paused
  {
    hide LeadTo, Inv, Run, BeforeCopy, AfterCopy;
    var s := states[i];
    RunKeepsInv(states, steps, i);
    forall c | c in writers
      ensures At(s.thawed, c) <= 0
    {
      NobodyThaws(s, c);
    }
    mid := ReachesItsCopy(s, t, writers);
    StepsKeepInv(s, BeforeCopy(t, writers), mid);
    forall c | c in writers
      ensures c in mid.paused
    {
      FrozenArePaused(mid, t, c);
    }
    s' := ComesToItsEnd(mid, t, writers);
    StepsKeepInv(mid, AfterCopy(t, writers), s');
    ThreadsDecide(s, s');
  }
}
