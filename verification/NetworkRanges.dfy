// The range renumberer of scripts/check-test-network-ranges.go: where ranges of
// two placing functions overlap in 10.0.0.0/8, the second one's octet is
// exchanged for a free one.

module NetworkRanges {
  import opened Common

  function Pow2(n: nat): (p: nat)
    ensures p > 0
  {
    if n == 0 then 1 else 2 * Pow2(n - 1)
  }

  /**
   * An IPv4 range a.b.x/bits with 16 to 29 prefix bits, so that it lies within
   * one second octet; `rest` is its address within that octet, already masked.
   */
  datatype Range = Range(a: nat, b: nat, rest: nat, bits: nat)

  function Size(bits: nat): (size: nat)
    requires bits <= 32
    ensures size > 0
  {
    Pow2(32 - bits)
  }

  predicate RangeOk(p: Range) {
    p.a < 256 && p.b < 256 && 16 <= p.bits <= 29 && p.rest < 65536 && p.rest % Size(p.bits) == 0
  }

  /** netip.Prefix.Overlaps: the addresses agree under the shorter of the two masks. */
  predicate Overlaps(p: Range, q: Range)
    requires p.bits <= 32 && q.bits <= 32
  {
    var size := Size(if p.bits <= q.bits then p.bits else q.bits);
    p.a == q.a && p.b == q.b && p.rest / size == q.rest / size
  }

  /** The address a.b.x belongs to the range. */
  predicate Holds(p: Range, a: nat, b: nat, x: nat)
    requires p.bits <= 32
  {
    a == p.a && b == p.b && p.rest <= x < p.rest + Size(p.bits)
  }

  predicate Within(lo: nat, size: nat, x: nat) {
    lo <= x < lo + size
  }

  lemma {:induction false} Pow2Splits(m: nat, n: nat)
    ensures Pow2(m + n) == Pow2(m) * Pow2(n)
  {
    if n > 0 {
      Pow2Splits(m, n - 1);
      assert Pow2(m + n) == 2 * Pow2(m + n - 1);
      DoublesRight(Pow2(m), Pow2(n - 1));
    }
  }

  lemma DoublesRight(x: nat, y: nat)
    ensures x * (2 * y) == 2 * (x * y)
  {
  }

  lemma TimesKeepsOrder(t: nat, i: nat, j: nat)
    requires i <= j
    ensures t * i <= t * j
  {
  }

  lemma QuotientIs(q: nat, s: nat, i: nat)
    requires s > 0
    ensures q / s == i <==> s * i <= q < s * i + s
  {
    var d := q / s;
    assert s * d <= q < s * d + s;
    if d < i {
      TimesKeepsOrder(s, d + 1, i);
    } else if d > i {
      TimesKeepsOrder(s, i + 1, d);
    }
  }

  /** Blocks of sizes t and t * k at multiples of their sizes share an x only when the small one starts inside the big one. */
  lemma SmallBlockStartsInside(i: nat, j: nat, t: nat, k: nat, x: nat)
    requires t > 0 && Within(t * (k * i), t * k, x) && Within(t * j, t, x)
    ensures Within(t * (k * i), t * k, t * j)
  {
    assert t * (j + 1) == t * j + t;
    if j < k * i {
      TimesKeepsOrder(t, j + 1, k * i);
    }
  }

  /** Of a multiple of s = t * k and a multiple of t: the quotients by s say whether the blocks meet. */
  lemma BlocksMeet(p: nat, q: nat, t: nat, k: nat)
    requires t > 0 && k > 0 && t * k > 0 && p % (t * k) == 0 && q % t == 0
    ensures p / (t * k) == q / (t * k) <==> exists x: nat :: Within(p, t * k, x) && Within(q, t, x)
  {
    var s := t * k;
    var i, j := p / s, q / t;
    assert p == s * i && q == t * j;
    assert s * i == t * (k * i) by { TimesAssociates(t, k, i); }
    QuotientIs(q, s, i);
    if p / s == q / s {
      assert Within(p, s, q) && Within(q, t, q);
    }
    if x: nat :| Within(p, s, x) && Within(q, t, x) {
      SmallBlockStartsInside(i, j, t, k, x);
    }
  }

  lemma TimesAssociates(t: nat, k: nat, i: nat)
    ensures t * k * i == t * (k * i)
  {
  }

  /** The mask test says exactly whether the ranges share an address. */
  lemma OverlapsMeansASharedAddress(p: Range, q: Range)
    requires RangeOk(p) && RangeOk(q)
    ensures Overlaps(p, q) <==> exists a, b, x :: Holds(p, a, b, x) && Holds(q, a, b, x)
  {
    if p.bits <= q.bits {
      LongerMaskSecond(p, q);
    } else {
      LongerMaskSecond(q, p);
    }
  }

  lemma LongerMaskSecond(p: Range, q: Range)
    requires RangeOk(p) && RangeOk(q) && p.bits <= q.bits
    ensures Overlaps(p, q) <==> exists a, b, x :: Holds(p, a, b, x) && Holds(q, a, b, x)
    ensures Overlaps(p, q) == Overlaps(q, p)
  {
    hide Pow2;
    var t, k := Size(q.bits), Pow2(q.bits - p.bits);
    Pow2Splits(32 - q.bits, q.bits - p.bits);
    assert Size(p.bits) == t * k;
    BlocksMeet(p.rest, q.rest, t, k);
    if Overlaps(p, q) {
      var x: nat :| Within(p.rest, t * k, x) && Within(q.rest, t, x);
      assert Holds(p, p.a, p.b, x) && Holds(q, p.a, p.b, x);
    }
    if a, b, x :| Holds(p, a, b, x) && Holds(q, a, b, x) {
      assert Within(p.rest, t * k, x) && Within(q.rest, t, x);
    }
  }

  // The suite.

  /** A test function: whether it places a workload, and the ranges it names. */
  datatype Function = Function(places: bool, ranges: seq<Range>)

  type Suite = seq<Function>

  /** What a function's octets are renumbered to. */
  type Moves = map<nat, nat>

  predicate SuiteOk(fns: Suite) {
    forall i, k :: 0 <= i < |fns| && 0 <= k < |fns[i].ranges| ==> RangeOk(fns[i].ranges[k])
  }

  /** A range of 10.0.0.0/8 in second octet b. */
  predicate InOctet(p: Range, b: nat) {
    p.a == 10 && p.b == b
  }

  /** Some function of the suite, placing or not, names a range of the octet. */
  ghost predicate OctetUsed(fns: Suite, b: nat) {
    exists i, k :: 0 <= i < |fns| && 0 <= k < |fns[i].ranges| && InOctet(fns[i].ranges[k], b)
  }

  function MoveRange(p: Range, moves: Moves): (q: Range)
    ensures q.bits == p.bits && q.rest == p.rest && q.a == p.a
  {
    if p.a == 10 && p.b in moves then p.(b := moves[p.b]) else p
  }

  function Moved(ranges: seq<Range>, moves: Moves): (r: seq<Range>)
    ensures |r| == |ranges|
  {
    seq(|ranges|, k requires 0 <= k < |ranges| => MoveRange(ranges[k], moves))
  }

  /** p meets a range of the function. */
  ghost predicate Meets(p: Range, fn: Function) {
    p.bits <= 32 && exists k :: 0 <= k < |fn.ranges| && fn.ranges[k].bits <= 32 && Overlaps(p, fn.ranges[k])
  }

  /** p meets a placing function before i. */
  ghost predicate MeetsBefore(p: Range, fns: Suite, i: nat) {
    exists j :: 0 <= j < i && j < |fns| && fns[j].places && Meets(p, fns[j])
  }

  /** A range of ranges in octet b meets a placing function before i. */
  ghost predicate OctetMeets(ranges: seq<Range>, n: nat, fns: Suite, i: nat, b: nat) {
    exists k :: 0 <= k < n && k < |ranges| && InOctet(ranges[k], b) && MeetsBefore(ranges[k], fns, i)
  }

  // What the pass does, as a relation of the suites before and after it.

  /** Function i went through the pass: an octet moves exactly when a range in it meets an earlier function. */
  ghost predicate Renumbered(before: Suite, after: Suite, moves: seq<Moves>, i: nat)
    requires i < |before| && i < |after| && i < |moves|
  {
    && after[i] == before[i].(ranges := Moved(before[i].ranges, moves[i]))
    && (!before[i].places ==> moves[i] == map[])
    && (before[i].places ==> forall b :: b in moves[i] <==> OctetMeets(before[i].ranges, |before[i].ranges|, after, i, b))
  }

  /** An octet handed out is one of 1 to 255 that no function names. */
  ghost predicate FreshFor(before: Suite, moves: Moves) {
    forall b :: b in moves ==> 0 < moves[b] < 256 && !OctetUsed(before, moves[b])
  }

  ghost predicate Apart(moves: seq<Moves>, i: nat, j: nat)
    requires i < |moves| && j < |moves|
  {
    forall b, c :: b in moves[i] && c in moves[j] && moves[i][b] == moves[j][c] ==> i == j && b == c
  }

  /** The whole pass: every function renumbered, with octets that are new and handed out once. */
  ghost predicate Pass(before: Suite, after: Suite, moves: seq<Moves>) {
    && |before| == |after| == |moves| && SuiteOk(before)
    && (forall i :: 0 <= i < |before| ==> Renumbered(before, after, moves, i) && FreshFor(before, moves[i]))
    && (forall i, j :: 0 <= i < |moves| && 0 <= j < |moves| ==> Apart(moves, i, j))
  }

  // What follows from the relation.

  lemma OverlapsInOneOctet(p: Range, q: Range)
    requires p.bits <= 32 && q.bits <= 32 && Overlaps(p, q)
    ensures p.a == q.a && p.b == q.b && Overlaps(q, p)
  {
  }

  lemma MovedRange(before: Suite, after: Suite, moves: seq<Moves>, i: nat, k: nat)
    requires Pass(before, after, moves) && i < |after| && k < |after[i].ranges|
    ensures after[i].places == before[i].places && k < |before[i].ranges|
    ensures RangeOk(before[i].ranges[k]) && after[i].ranges[k] == MoveRange(before[i].ranges[k], moves[i])
    ensures after[i].ranges[k].bits <= 32
    ensures InOctet(before[i].ranges[k], before[i].ranges[k].b) ==> OctetUsed(before, before[i].ranges[k].b)
  {
    hide OctetMeets, FreshFor, Size;
    assert Renumbered(before, after, moves, i);
  }

  /** A range at a moved octet meets no range of another function. */
  lemma NewOctetsAreAlone(before: Suite, after: Suite, moves: seq<Moves>, i: nat, k: nat, j: nat, l: nat)
    requires Pass(before, after, moves) && i < |after| && k < |after[i].ranges| && j < |after| && l < |after[j].ranges| && i != j
    requires k < |before[i].ranges| && before[i].ranges[k].a == 10 && before[i].ranges[k].b in moves[i]
    ensures after[i].ranges[k].bits <= 32 && after[j].ranges[l].bits <= 32
    ensures !Overlaps(after[i].ranges[k], after[j].ranges[l]) && !Overlaps(after[j].ranges[l], after[i].ranges[k])
  {
    hide RangeOk, Renumbered, OctetUsed;
    MovedRange(before, after, moves, i, k);
    MovedRange(before, after, moves, j, l);
    assert FreshFor(before, moves[i]) && FreshFor(before, moves[j]) && Apart(moves, i, j);
  }

  lemma OverlapMovesTheOctet(ranges: seq<Range>, k: nat, fns: Suite, i: nat, j: nat, l: nat)
    requires k < |ranges| && j < i && j < |fns| && fns[j].places && l < |fns[j].ranges|
    requires ranges[k].a == 10 && ranges[k].bits <= 32 && fns[j].ranges[l].bits <= 32
    ensures Overlaps(ranges[k], fns[j].ranges[l]) ==> OctetMeets(ranges, |ranges|, fns, i, ranges[k].b)
  {
    hide Overlaps;
    if Overlaps(ranges[k], fns[j].ranges[l]) {
      assert Meets(ranges[k], fns[j]);
      assert MeetsBefore(ranges[k], fns, i) && InOctet(ranges[k], ranges[k].b);
    }
  }

  /** A range of function i that stays meets an earlier placing function only outside 10.0.0.0/8. */
  lemma StayingMeansClear(before: Suite, after: Suite, moves: seq<Moves>, i: nat, k: nat, j: nat, l: nat)
    requires Pass(before, after, moves) && j < i < |after| && k < |after[i].ranges| && l < |after[j].ranges|
    requires after[i].places && after[j].places && after[i].ranges[k].a == 10
    requires k < |before[i].ranges| && before[i].ranges[k].b !in moves[i]
    ensures after[i].ranges[k].bits <= 32 && after[j].ranges[l].bits <= 32 && !Overlaps(after[i].ranges[k], after[j].ranges[l])
  {
    hide RangeOk, Overlaps, FreshFor, Apart, OctetUsed;
    MovedRange(before, after, moves, i, k);
    MovedRange(before, after, moves, j, l);
    OverlapMovesTheOctet(before[i].ranges, k, after, i, j, l);
    assert Renumbered(before, after, moves, i);
  }

  /** After the pass no two placing functions hold overlapping ranges in 10.0.0.0/8. */
  lemma NoOverlapRemains(before: Suite, after: Suite, moves: seq<Moves>, i: nat, j: nat, k: nat, l: nat)
    requires Pass(before, after, moves) && i < |after| && j < |after| && i != j && after[i].places && after[j].places
    requires k < |after[i].ranges| && l < |after[j].ranges| && after[i].ranges[k].a == 10
    ensures after[i].ranges[k].bits <= 32 && after[j].ranges[l].bits <= 32 && !Overlaps(after[i].ranges[k], after[j].ranges[l])
  {
    hide RangeOk, Renumbered, FreshFor, Apart, Overlaps;
    MovedRange(before, after, moves, i, k);
    MovedRange(before, after, moves, j, l);
    if Overlaps(after[i].ranges[k], after[j].ranges[l]) {
      OverlapsInOneOctet(after[i].ranges[k], after[j].ranges[l]);
      var later, m, earlier, n := if i > j then i else j, if i > j then k else l, if i > j then j else i, if i > j then l else k;
      if before[later].ranges[m].b in moves[later] {
        NewOctetsAreAlone(before, after, moves, later, m, earlier, n);
      } else {
        StayingMeansClear(before, after, moves, later, m, earlier, n);
      }
    }
  }

  // Which octets move, said of the suite before the pass alone.

  /** The two ranges lie in octet b and overlap. */
  predicate OverlapIn(p: Range, q: Range, b: nat) {
    InOctet(p, b) && p.bits <= 32 && q.bits <= 32 && Overlaps(p, q)
  }

  /**
   * Octet b leaves function i: the function places a workload, and one of its
   * ranges in the octet overlaps a range of an earlier placing function that
   * the octet does not leave.
   */
  ghost predicate Leaves(before: Suite, i: nat, b: nat)
    decreases i
  {
    && i < |before| && before[i].places
    && exists k, j, l ::
         && 0 <= k < |before[i].ranges| && 0 <= j < i && before[j].places && 0 <= l < |before[j].ranges|
         && OverlapIn(before[i].ranges[k], before[j].ranges[l], b) && !Leaves(before, j, b)
  }

  /** A range of an earlier function that the pass left in octet b was in it before, and the octet did not move. */
  lemma LeftInPlace(before: Suite, after: Suite, moves: seq<Moves>, i: nat, k: nat, j: nat, l: nat, b: nat)
    requires Pass(before, after, moves) && i < |after| && k < |before[i].ranges| && j < |after| && l < |after[j].ranges|
    requires OverlapIn(before[i].ranges[k], after[j].ranges[l], b)
    ensures l < |before[j].ranges| && after[j].ranges[l] == before[j].ranges[l] && b !in moves[j]
  {
    hide RangeOk, Renumbered, Apart;
    MovedRange(before, after, moves, j, l);
    OverlapsInOneOctet(before[i].ranges[k], after[j].ranges[l]);
    assert OctetUsed(before, b) by {
      assert InOctet(before[i].ranges[k], b);
    }
    assert FreshFor(before, moves[j]);
  }

  lemma StaysInPlace(before: Suite, after: Suite, moves: seq<Moves>, j: nat, l: nat)
    requires Pass(before, after, moves) && j < |after| && l < |before[j].ranges|
    requires before[j].ranges[l].b !in moves[j]
    ensures after[j].places == before[j].places && l < |after[j].ranges| && after[j].ranges[l] == before[j].ranges[l]
  {
    hide RangeOk, OctetMeets, FreshFor, Apart;
    assert Renumbered(before, after, moves, j);
  }

  /** An octet that moves leaves, given that this is settled for the earlier functions. */
  lemma MovedLeaves(before: Suite, after: Suite, moves: seq<Moves>, i: nat, b: nat)
    requires Pass(before, after, moves) && i < |after| && b in moves[i]
    requires forall j :: 0 <= j < i ==> (b in moves[j] <==> Leaves(before, j, b))
    ensures Leaves(before, i, b)
  {
    hide RangeOk, Overlaps, FreshFor, Apart, OctetUsed;
    assert Renumbered(before, after, moves, i);
    var k :| 0 <= k < |before[i].ranges| && InOctet(before[i].ranges[k], b) && MeetsBefore(before[i].ranges[k], after, i);
    var j :| 0 <= j < i && after[j].places && Meets(before[i].ranges[k], after[j]);
    var l :| 0 <= l < |after[j].ranges| && after[j].ranges[l].bits <= 32 && Overlaps(before[i].ranges[k], after[j].ranges[l]);
    LeftInPlace(before, after, moves, i, k, j, l, b);
    MovedRange(before, after, moves, j, l);
    assert OverlapIn(before[i].ranges[k], before[j].ranges[l], b) && !Leaves(before, j, b);
  }

  lemma LeavingMoves(before: Suite, after: Suite, moves: seq<Moves>, i: nat, b: nat)
    requires Pass(before, after, moves) && i < |after| && Leaves(before, i, b)
    requires forall j :: 0 <= j < i ==> (b in moves[j] <==> Leaves(before, j, b))
    ensures b in moves[i]
  {
    hide RangeOk, Overlaps, FreshFor, Apart, OctetUsed, OctetMeets;
    assert Renumbered(before, after, moves, i);
    var k, j, l :|
      && 0 <= k < |before[i].ranges| && 0 <= j < i && before[j].places && 0 <= l < |before[j].ranges|
      && OverlapIn(before[i].ranges[k], before[j].ranges[l], b) && !Leaves(before, j, b);
    OverlapsInOneOctet(before[i].ranges[k], before[j].ranges[l]);
    StaysInPlace(before, after, moves, j, l);
    OverlapMovesTheOctet(before[i].ranges, k, after, i, j, l);
  }

  /** The octets the pass moves are exactly those that leave. */
  lemma {:induction false} MovesExactlyWhatLeaves(before: Suite, after: Suite, moves: seq<Moves>, i: nat, b: nat)
    requires Pass(before, after, moves) && i < |after|
    ensures b in moves[i] <==> Leaves(before, i, b)
    decreases i
  {
    hide Leaves, Renumbered, FreshFor, Apart, SuiteOk;
    forall j | 0 <= j < i
      ensures b in moves[j] <==> Leaves(before, j, b)
    {
      MovesExactlyWhatLeaves(before, after, moves, j, b);
    }
    if b in moves[i] {
      MovedLeaves(before, after, moves, i, b);
    }
    if Leaves(before, i, b) {
      LeavingMoves(before, after, moves, i, b);
    }
  }

  /**
   * A range keeps its place exactly when it lies outside 10.0.0.0/8 or its
   * octet does not leave its function, which can be told before the pass: a
   * range that met nothing moves along with one of its octet that did.
   */
  lemma StaysExactlyWhen(before: Suite, after: Suite, moves: seq<Moves>, i: nat, k: nat)
    requires Pass(before, after, moves) && i < |after| && k < |before[i].ranges|
    ensures |after[i].ranges| == |before[i].ranges|
    ensures after[i].ranges[k] == before[i].ranges[k] <==> before[i].ranges[k].a != 10 || !Leaves(before, i, before[i].ranges[k].b)
  {
    hide RangeOk, OctetMeets, Apart, Leaves;
    MovesExactlyWhatLeaves(before, after, moves, i, before[i].ranges[k].b);
    assert Renumbered(before, after, moves, i) && FreshFor(before, moves[i]);
    MovedRange(before, after, moves, i, k);
  }

  lemma BlockOf24()
    ensures Size(24) == 256
  {
    assert Pow2(8) == 2 * Pow2(7) && Pow2(7) == 2 * Pow2(6) && Pow2(6) == 2 * Pow2(5) && Pow2(5) == 2 * Pow2(4);
  }

  /** 10.1.0.0/24 is named twice and so moves, and 10.1.9.0/24 beside it overlaps nothing. */
  lemma NeighboursOverlapNothing()
    ensures var x, y := Range(10, 1, 0, 24), Range(10, 1, 9 * 256, 24);
      RangeOk(x) && RangeOk(y) && Overlaps(x, x) && !Overlaps(y, x)
  {
    BlockOf24();
    hide Size;
  }

  lemma MeetsOneRange(p: Range, q: Range)
    requires p.bits <= 32 && q.bits <= 32
    ensures Meets(p, Function(true, [q])) <==> Overlaps(p, q)
  {
    hide Overlaps;
    var fn := Function(true, [q]);
    assert fn.ranges[0] == q;
  }

  lemma MeetsBeforeOne(p: Range, fns: Suite)
    requires |fns| > 0 && fns[0].places
    ensures MeetsBefore(p, fns, 1) <==> Meets(p, fns[0])
  {
    hide Meets;
  }

  /** Ranges that met nothing do move: 10.1.9.0/24 meets no other function, and leaves with 10.1.0.0/24 that does. */
  lemma ARangeThatMeetsNothingCanMove() returns (before: Suite, after: Suite, moves: seq<Moves>)
    ensures Pass(before, after, moves) && |before| == 2 && |before[1].ranges| == |after[1].ranges| == 2
    ensures !MeetsBefore(before[1].ranges[1], after, 1) && !MeetsBefore(before[1].ranges[1], before, 1)
    ensures after[1].ranges[1] != before[1].ranges[1]
  {
    hide RangeOk, Overlaps, Meets, MeetsBefore;
    var x, y := Range(10, 1, 0, 24), Range(10, 1, 9 * 256, 24);
    NeighboursOverlapNothing();
    before := [Function(true, [x]), Function(true, [x, y])];
    moves := [map[], map[1 := 255]];
    after := [Function(true, [x]), Function(true, [x.(b := 255), y.(b := 255)])];
    MeetsOneRange(x, x);
    MeetsOneRange(y, x);
    MeetsBeforeOne(x, after);
    MeetsBeforeOne(y, after);
    MeetsBeforeOne(y, before);
    FirstFunctionStays(before, after, moves, x);
    SecondFunctionMoves(before, after, moves, x, y);
  }

  lemma FirstFunctionStays(before: Suite, after: Suite, moves: seq<Moves>, x: Range)
    requires |before| == |after| == |moves| == 2 && before[0] == after[0] == Function(true, [x]) && moves[0] == map[]
    ensures Renumbered(before, after, moves, 0)
  {
    hide Meets;
    assert Moved([x], map[]) == [x];
  }

  lemma SecondFunctionMoves(before: Suite, after: Suite, moves: seq<Moves>, x: Range, y: Range)
    requires |before| == |after| == |moves| == 2 && InOctet(x, 1) && InOctet(y, 1) && moves[1] == map[1 := 255]
    requires before[1] == Function(true, [x, y]) && after[1] == Function(true, [x.(b := 255), y.(b := 255)])
    requires MeetsBefore(x, after, 1)
    ensures Renumbered(before, after, moves, 1)
  {
    hide MeetsBefore;
    assert Moved([x, y], moves[1]) == after[1].ranges;
    assert before[1].ranges[0] == x;
    assert OctetMeets(before[1].ranges, 2, after, 1, 1);
  }

  /** Within a function the ranges keep their layout: two overlap after the pass exactly when they did before. */
  lemma LayoutWithinAFunctionIsKept(before: Suite, after: Suite, moves: seq<Moves>, i: nat, k: nat, l: nat)
    requires Pass(before, after, moves) && i < |after| && k < |after[i].ranges| && l < |after[i].ranges|
    ensures k < |before[i].ranges| && l < |before[i].ranges|
    ensures after[i].ranges[k].bits <= 32 && after[i].ranges[l].bits <= 32
    ensures before[i].ranges[k].bits <= 32 && before[i].ranges[l].bits <= 32
    ensures Overlaps(after[i].ranges[k], after[i].ranges[l]) <==> Overlaps(before[i].ranges[k], before[i].ranges[l])
  {
    hide RangeOk, Renumbered, OctetUsed, Size;
    MovedRange(before, after, moves, i, k);
    MovedRange(before, after, moves, i, l);
    assert FreshFor(before, moves[i]) && Apart(moves, i, i);
  }

  /** Running the pass again on its result moves nothing. */
  lemma {:induction false} ASecondPassMovesNothing(before: Suite, after: Suite, moves: seq<Moves>, again: Suite, moves': seq<Moves>, i: nat)
    requires Pass(before, after, moves) && Pass(after, again, moves') && i < |again|
    ensures again[i] == after[i] && moves'[i] == map[]
    decreases i
  {
    forall j | 0 <= j < i
      ensures again[j] == after[j]
    {
      ASecondPassMovesNothing(before, after, moves, again, moves', j);
    }
    hide RangeOk, Overlaps, FreshFor, Apart, OctetUsed;
    assert Renumbered(after, again, moves', i);
    if b :| b in moves'[i] {
      var k :| 0 <= k < |after[i].ranges| && InOctet(after[i].ranges[k], b) && MeetsBefore(after[i].ranges[k], again, i);
      var j :| 0 <= j < i && again[j].places && Meets(after[i].ranges[k], again[j]);
      var l :| 0 <= l < |again[j].ranges| && again[j].ranges[l].bits <= 32 && Overlaps(after[i].ranges[k], again[j].ranges[l]);
      NoOverlapRemains(before, after, moves, i, j, k, l);
    }
    assert Moved(after[i].ranges, map[]) == after[i].ranges;
  }

  // The pass itself.

  /** What a function is given was not in use, is given once, and is in use from then on. */
  ghost predicate GivenFrom(used: set<nat>, used': set<nat>, moves: Moves) {
    && used' == used + moves.Values
    && (forall b :: b in moves ==> 0 < moves[b] < 256 && moves[b] !in used)
    && (forall b, c :: b in moves && c in moves && moves[b] == moves[c] ==> b == c)
  }

  /** freeOctet: the highest octet not in use, or None where the program stops because every one is. */
  method FreeOctet(used: set<nat>) returns (octet: Option<nat>)
    ensures octet.Some? ==> 0 < octet.value < 256 && octet.value !in used
    ensures octet.Some? ==> forall o :: octet.value < o < 256 ==> o in used
    ensures octet.None? ==> forall o :: 0 < o < 256 ==> o in used
  {
    var o := 255;
    while o > 0
      invariant 0 <= o <= 255 && forall above :: o < above < 256 ==> above in used
    {
      if o !in used {
        return Some(o);
      }
      o := o - 1;
    }
    return None;
  }

  /** The octets of 10.0.0.0/8 named anywhere in the suite. */
  method UsedOctets(fns: Suite) returns (used: set<nat>)
    ensures forall b :: b in used <==> OctetUsed(fns, b)
  {
    used := {};
    var i: nat := 0;
    while i < |fns|
      invariant i <= |fns| && forall b :: b in used <==> OctetUsed(fns[..i], b)
    {
      var ranges := fns[i].ranges;
      var k: nat := 0;
      ghost var before := used;
      while k < |ranges|
        invariant k <= |ranges|
        invariant forall b :: b in used <==> b in before || exists m :: 0 <= m < k && InOctet(ranges[m], b)
      {
        if ranges[k].a == 10 {
          used := used + {ranges[k].b};
        }
        k := k + 1;
      }
      OneMoreFunction(fns, i);
      i := i + 1;
    }
    assert fns[..i] == fns;
  }

  lemma OneMoreFunction(fns: Suite, i: nat)
    requires i < |fns|
    ensures forall b :: OctetUsed(fns[..i + 1], b) <==> OctetUsed(fns[..i], b) || exists m :: 0 <= m < |fns[i].ranges| && InOctet(fns[i].ranges[m], b)
  {
    var next := i + 1;
    forall b
      ensures OctetUsed(fns[..next], b) <==> OctetUsed(fns[..i], b) || exists m :: 0 <= m < |fns[i].ranges| && InOctet(fns[i].ranges[m], b)
    {
      if OctetUsed(fns[..i], b) {
        var j, m :| 0 <= j < i && 0 <= m < |fns[..i][j].ranges| && InOctet(fns[..i][j].ranges[m], b);
        assert fns[..next][j] == fns[j];
      }
      if m :| 0 <= m < |fns[i].ranges| && InOctet(fns[i].ranges[m], b) {
        assert InOctet(fns[..next][i].ranges[m], b);
      }
      if OctetUsed(fns[..next], b) {
        var j, m :| 0 <= j < next && 0 <= m < |fns[..next][j].ranges| && InOctet(fns[..next][j].ranges[m], b);
        assert j < i ==> InOctet(fns[..i][j].ranges[m], b);
      }
    }
  }

  method MeetsAny(p: Range, fn: Function) returns (meets: bool)
    requires RangeOk(p) && forall k :: 0 <= k < |fn.ranges| ==> fn.ranges[k].bits <= 32
    ensures meets <==> Meets(p, fn)
  {
    var k: nat := 0;
    while k < |fn.ranges|
      invariant k <= |fn.ranges| && forall m :: 0 <= m < k ==> !Overlaps(p, fn.ranges[m])
    {
      if Overlaps(p, fn.ranges[k]) {
        return true;
      }
      k := k + 1;
    }
    return false;
  }

  /** The claimed functions: those before i that place a workload and name a range. */
  ghost predicate Claims(claimed: seq<nat>, fns: Suite, i: nat) {
    && (forall c :: 0 <= c < |claimed| ==> claimed[c] < i && claimed[c] < |fns| && fns[claimed[c]].places)
    && (forall j :: 0 <= j < i && j < |fns| && fns[j].places && fns[j].ranges != [] ==> j in claimed)
  }

  /** The earlier functions p meets. */
  method Collisions(p: Range, fns: array<Function>, claimed: seq<nat>, i: nat) returns (hits: set<nat>)
    requires RangeOk(p) && i <= fns.Length && Claims(claimed, fns[..], i)
    requires forall j, k :: 0 <= j < i && 0 <= k < |fns[j].ranges| ==> fns[j].ranges[k].bits <= 32
    ensures forall j :: j in hits <==> 0 <= j < i && fns[j].places && Meets(p, fns[j])
    ensures hits != {} <==> MeetsBefore(p, fns[..], i)
  {
    hits := {};
    var c: nat := 0;
    while c < |claimed|
      invariant c <= |claimed|
      invariant forall j :: j in hits <==> j in claimed[..c] && Meets(p, fns[j])
    {
      var meets := MeetsAny(p, fns[claimed[c]]);
      if meets {
        hits := hits + {claimed[c]};
      }
      c := c + 1;
    }
    assert claimed[..c] == claimed;
    assert forall j :: 0 <= j < i && fns[j].places && Meets(p, fns[j]) ==> j in claimed;
  }

  lemma NothingGiven(used: set<nat>, ranges: seq<Range>, fns: Suite, i: nat)
    ensures GivenFrom(used, used, map[]) && forall b :: !OctetMeets(ranges, 0, fns, i, b)
  {
  }

  lemma GivenOneMore(used: set<nat>, used': set<nat>, moves: Moves, b: nat, octet: nat)
    requires GivenFrom(used, used', moves) && b !in moves && 0 < octet < 256 && octet !in used'
    ensures GivenFrom(used, used' + {octet}, moves[b := octet])
  {
    var moves' := moves[b := octet];
    forall o | o in moves.Values + {octet}
      ensures o in moves'.Values
    {
      if o in moves.Values {
        var c :| c in moves && moves[c] == o;
        assert moves'[c] == o;
      } else {
        assert moves'[b] == o;
      }
    }
    assert moves'.Values == moves.Values + {octet};
  }

  lemma OneMoreRange(ranges: seq<Range>, k: nat, fns: Suite, i: nat)
    requires k < |ranges|
    ensures forall b :: OctetMeets(ranges, k + 1, fns, i, b) <==>
      OctetMeets(ranges, k, fns, i, b) || (InOctet(ranges[k], b) && MeetsBefore(ranges[k], fns, i))
  {
  }

  /** The octets of one function to renumber, with what each becomes; not ok where the octets run out. */
  method Renumbering(ranges: seq<Range>, fns: array<Function>, claimed: seq<nat>, i: nat, used: set<nat>, fix: bool)
    returns (moves: Moves, used': set<nat>, hits: set<nat>, ok: bool)
    requires i <= fns.Length && Claims(claimed, fns[..], i)
    requires forall k :: 0 <= k < |ranges| ==> RangeOk(ranges[k])
    requires forall j, k :: 0 <= j < i && 0 <= k < |fns[j].ranges| ==> fns[j].ranges[k].bits <= 32
    ensures GivenFrom(used, used', moves)
    ensures !fix ==> ok && moves == map[]
    ensures ok && fix ==> forall b :: b in moves <==> OctetMeets(ranges, |ranges|, fns[..], i, b)
    ensures !ok ==> forall o :: 0 < o < 256 ==> o in used'
    ensures ok ==> forall j :: j in hits <==> 0 <= j < i && fns[j].places && exists k :: 0 <= k < |ranges| && Meets(ranges[k], fns[j])
  {
    hide Meets, MeetsBefore, Claims, RangeOk, GivenFrom, OctetMeets;
    NothingGiven(used, ranges, fns[..], i);
    moves, used', hits, ok := map[], used, {}, true;
    var k: nat := 0;
    while k < |ranges|
      invariant k <= |ranges| && ok && GivenFrom(used, used', moves) && (!fix ==> moves == map[])
      invariant fix ==> forall b :: b in moves <==> OctetMeets(ranges, k, fns[..], i, b)
      invariant forall j :: j in hits <==> 0 <= j < i && fns[j].places && exists m :: 0 <= m < k && Meets(ranges[m], fns[j])
    {
      var p := ranges[k];
      var here := Collisions(p, fns, claimed, i);
      hits := hits + here;
      if fix && here != {} && p.a == 10 && p.b !in moves {
        var octet := FreeOctet(used');
        if octet.None? {
          return moves, used', hits, false;
        }
        GivenOneMore(used, used', moves, p.b, octet.value);
        moves := moves[p.b := octet.value];
        used' := used' + {octet.value};
      }
      var next := k + 1;
      OneMoreRange(ranges, k, fns[..], i);
      k := next;
    }
  }

  /** The moves of one function applied to its ranges one after the other, in any order. */
  method ApplyMoves(ranges: seq<Range>, moves: Moves) returns (r: seq<Range>)
    requires forall b :: b in moves ==> moves[b] !in moves
    ensures r == Moved(ranges, moves)
  {
    r := ranges;
    var left := moves.Keys;
    while left != {}
      invariant left <= moves.Keys && |r| == |ranges|
      invariant forall k :: 0 <= k < |r| ==> r[k] == if ranges[k].b in left then ranges[k] else MoveRange(ranges[k], moves)
      decreases |left|
    {
      var from :| from in left;
      var to := moves[from];
      ghost var start := r;
      var k: nat := 0;
      while k < |r|
        invariant k <= |r| == |ranges|
        invariant forall m :: 0 <= m < k ==> r[m] == if InOctet(start[m], from) then start[m].(b := to) else start[m]
        invariant forall m :: k <= m < |r| ==> r[m] == start[m]
      {
        if r[k].a == 10 && r[k].b == from {
          r := r[k := r[k].(b := to)];
        }
        k := k + 1;
      }
      left := left - {from};
    }
    assert r == Moved(ranges, moves);
  }

  // The whole pass.

  /** Function x, as it was, meets the earlier function y, as the pass left it. */
  ghost predicate Collided(before: Suite, after: Suite, x: nat, y: nat) {
    && y < x < |before| && y < |after| && before[x].places && after[y].places
    && exists k :: 0 <= k < |before[x].ranges| && Meets(before[x].ranges[k], after[y])
  }

  /** What has been given to the functions so far: nothing any function names, nothing twice, and all of it in use. */
  ghost predicate Handed(before: Suite, moves: seq<Moves>, used: set<nat>) {
    && (forall o :: OctetUsed(before, o) ==> o in used)
    && (forall o :: o in used ==> OctetUsed(before, o) || exists i :: 0 <= i < |moves| && o in moves[i].Values)
    && (forall i, b :: 0 <= i < |moves| && b in moves[i] ==> moves[i][b] in used)
    && (forall i :: 0 <= i < |moves| ==> FreshFor(before, moves[i]))
    && (forall i, j :: 0 <= i < |moves| && 0 <= j < |moves| ==> Apart(moves, i, j))
  }

  lemma HandedOneMore(before: Suite, moves: seq<Moves>, used: set<nat>, given: Moves, used': set<nat>)
    requires Handed(before, moves, used) && GivenFrom(used, used', given)
    ensures Handed(before, moves + [given], used')
  {
    hide OctetUsed;
    var moves' := moves + [given];
    forall o | o in used'
      ensures OctetUsed(before, o) || exists i :: 0 <= i < |moves'| && o in moves'[i].Values
    {
      if o in used {
        if i :| 0 <= i < |moves| && o in moves[i].Values {
          assert o in moves'[i].Values;
        }
      } else {
        assert o in moves'[|moves|].Values;
      }
    }
    assert forall b :: b in given ==> given[b] in given.Values;
    forall i, j | 0 <= i < |moves'| && 0 <= j < |moves'|
      ensures Apart(moves', i, j)
    {
      if i < |moves| && j < |moves| {
        assert Apart(moves, i, j);
      }
    }
  }

  /** What function i did depends only on the functions up to it. */
  lemma RenumberedLasts(before: Suite, after: Suite, after': Suite, moves: seq<Moves>, moves': seq<Moves>, i: nat)
    requires i < |before| == |after| == |after'| && i < |moves| <= |moves'| && moves'[..|moves|] == moves
    requires Renumbered(before, after, moves, i) && forall j :: 0 <= j <= i ==> after'[j] == after[j]
    ensures Renumbered(before, after', moves', i)
  {
    hide OctetMeets;
    assert moves'[i] == moves'[..|moves|][i] == moves[i];
    OctetMeetsIsLocal(before[i].ranges, after, after', i);
  }

  /** The second half of check: the collisions of the suite, and with -fix the renumbered suite. */
  method Check(fns: array<Function>, fix: bool) returns (collisions: set<(nat, nat)>, ghost moves: seq<Moves>, ok: bool)
    requires SuiteOk(fns[..])
    modifies fns
    ensures ok && fix ==> Pass(old(fns[..]), fns[..], moves)
    ensures !fix ==> ok && fns[..] == old(fns[..])
    ensures ok ==> forall x: nat, y: nat :: (x, y) in collisions <==> Collided(old(fns[..]), fns[..], x, y)
    ensures !ok ==> forall o :: 0 < o < 256 ==> OctetUsed(old(fns[..]), o) || exists i :: 0 <= i < |moves| && o in moves[i].Values
  {
    hide RangeOk, SuiteOk, OctetUsed, OctetMeets, MeetsBefore, Meets, GivenFrom, Handed, Claims, Pass, Collided, Moved, Midway, Reported;
    ghost var before := fns[..];
    var used := UsedOctets(fns[..]);
    moves, collisions, ok := [], {}, true;
    var claimed: seq<nat> := [];
    NothingHanded(before, used, fix);
    var i: nat := 0;
    while i < fns.Length
      invariant i <= fns.Length && Handed(before, moves, used) && Claims(claimed, fns[..], i)
      invariant Midway(before, fns[..], moves, fix, i) && Reported(before, fns[..], i, collisions)
    {
      var fn := fns[i];
      ghost var given: Moves, start, claims, reported := map[], fns[..], claimed, collisions;
      ghost var met: set<nat> := {};
      MidwayFacts(before, fns[..], moves, fix, i);
      NothingGiven(used, fn.ranges, fns[..], i);
      MovedByNothing(fn.ranges);
      if fn.places && fn.ranges != [] {
        var moved, used', hits, fine := Renumbering(fn.ranges, fns, claimed, i, used, fix);
        HandedOneMore(before, moves, used, moved, used');
        if !fine {
          moves := moves + [moved];
          AllInUse(before, moves, used');
          return collisions, moves, false;
        }
        given, met := moved, hits;
        TargetsAreNotSources(before, moves, start, i, used, used', moved);
        collisions := collisions + set j | j in hits :: (i, j);
        var ranges := ApplyMoves(fn.ranges, moved);
        fns[i] := fn.(ranges := ranges);
        claimed := claimed + [i];
        used := used';
      } else {
        HandedOneMore(before, moves, used, map[], used);
      }
      assert fns[..] == start[i := fn.(ranges := Moved(fn.ranges, given))];
      ClaimsOneMore(claims, claimed, start, fns[..], i);
      StepMidway(before, start, moves, given, fix, i);
      StepReported(before, start, fns[..], i, met, reported, collisions);
      moves := moves + [given];
      i := i + 1;
    }
    Finished(before, fns[..], moves, used, fix, collisions);
  }

  /** The functions before i are through the pass, the others as they were. */
  ghost predicate Midway(before: Suite, now: Suite, moves: seq<Moves>, fix: bool, i: nat) {
    && |before| == |now| && i <= |now| && |moves| == i && SuiteOk(before)
    && (forall j :: i <= j < |now| ==> now[j] == before[j])
    && (forall j :: 0 <= j < i ==> now[j] == before[j].(ranges := Moved(before[j].ranges, moves[j])))
    && (fix ==> forall j :: 0 <= j < i ==> Renumbered(before, now, moves, j))
    && (!fix ==> forall j :: 0 <= j < i ==> moves[j] == map[])
  }

  ghost predicate Reported(before: Suite, now: Suite, i: nat, collisions: set<(nat, nat)>) {
    forall x: nat, y: nat :: (x, y) in collisions <==> x < i && Collided(before, now, x, y)
  }

  lemma MidwayFacts(before: Suite, now: Suite, moves: seq<Moves>, fix: bool, i: nat)
    requires Midway(before, now, moves, fix, i) && i < |now|
    ensures |before| == |now| && |moves| == i && now[i] == before[i]
    ensures forall j, k :: 0 <= j < i && 0 <= k < |now[j].ranges| ==> now[j].ranges[k].bits <= 32
    ensures forall k :: 0 <= k < |now[i].ranges| ==> RangeOk(now[i].ranges[k])
  {
    EarlierBits(before, now, moves, i);
  }

  lemma MovedByNothing(ranges: seq<Range>)
    ensures Moved(ranges, map[]) == ranges
  {
  }

  lemma ClaimsOneMore(claimed: seq<nat>, claimed': seq<nat>, start: Suite, after: Suite, i: nat)
    requires Claims(claimed, start, i) && i < |start| == |after| && forall j :: 0 <= j < i ==> after[j] == start[j]
    requires after[i].places == start[i].places && |after[i].ranges| == |start[i].ranges|
    requires claimed' == if start[i].places && start[i].ranges != [] then claimed + [i] else claimed
    ensures Claims(claimed', after, i + 1)
  {
    forall j | 0 <= j < i + 1 && after[j].places && after[j].ranges != []
      ensures j in claimed'
    {
      assert j < i ==> j in claimed;
      assert j == i ==> claimed'[|claimed|] == i;
    }
  }

  lemma MeetsBeforeIsLocal(fns: Suite, fns': Suite, i: nat)
    requires i <= |fns| == |fns'| && forall j :: 0 <= j < i ==> fns'[j] == fns[j]
    ensures forall p :: MeetsBefore(p, fns', i) == MeetsBefore(p, fns, i)
  {
    hide Meets;
  }

  lemma OctetMeetsIsLocal(ranges: seq<Range>, fns: Suite, fns': Suite, i: nat)
    requires i <= |fns| == |fns'| && forall j :: 0 <= j < i ==> fns'[j] == fns[j]
    ensures forall b :: OctetMeets(ranges, |ranges|, fns', i, b) == OctetMeets(ranges, |ranges|, fns, i, b)
  {
    hide MeetsBefore;
    MeetsBeforeIsLocal(fns, fns', i);
  }

  lemma StepMidway(before: Suite, start: Suite, moves: seq<Moves>, given: Moves, fix: bool, i: nat)
    requires Midway(before, start, moves, fix, i) && i < |start|
    requires !fix || !start[i].places ==> given == map[]
    requires fix && start[i].places ==> forall b :: b in given <==> OctetMeets(start[i].ranges, |start[i].ranges|, start, i, b)
    ensures Midway(before, start[i := start[i].(ranges := Moved(start[i].ranges, given))], moves + [given], fix, i + 1)
  {
    hide OctetMeets, SuiteOk;
    var after, moves' := start[i := start[i].(ranges := Moved(start[i].ranges, given))], moves + [given];
    if fix {
      forall j | 0 <= j < i + 1
        ensures Renumbered(before, after, moves', j)
      {
        if j < i {
          RenumberedLasts(before, start, after, moves, moves', j);
        } else {
          OctetMeetsIsLocal(before[i].ranges, start, after, i);
        }
      }
    }
  }

  lemma StepReported(before: Suite, start: Suite, after: Suite, i: nat, met: set<nat>, collisions: set<(nat, nat)>, collisions': set<(nat, nat)>)
    requires i < |before| == |start| == |after| && (forall j :: 0 <= j < |start| && j != i ==> after[j] == start[j])
    requires start[i] == before[i] && Reported(before, start, i, collisions)
    requires before[i].places && before[i].ranges != [] ==>
      forall j :: j in met <==> 0 <= j < i && start[j].places && exists k :: 0 <= k < |before[i].ranges| && Meets(before[i].ranges[k], start[j])
    requires !(before[i].places && before[i].ranges != []) ==> met == {}
    requires collisions' == collisions + set j | j in met :: (i, j)
    ensures Reported(before, after, i + 1, collisions')
  {
    hide Meets;
    forall x: nat, y: nat
      ensures (x, y) in collisions' <==> x < i + 1 && Collided(before, after, x, y)
    {
      assert (x, y) in collisions' <==> (x, y) in collisions || (x == i && y in met);
    }
  }

  lemma Finished(before: Suite, after: Suite, moves: seq<Moves>, used: set<nat>, fix: bool, collisions: set<(nat, nat)>)
    requires Midway(before, after, moves, fix, |before|) && Handed(before, moves, used) && Reported(before, after, |before|, collisions)
    ensures if fix then Pass(before, after, moves) else after == before
    ensures forall x: nat, y: nat :: (x, y) in collisions <==> Collided(before, after, x, y)
  {
    if !fix {
      forall j | 0 <= j < |before|
        ensures after[j] == before[j]
      {
        MovedByNothing(before[j].ranges);
      }
    }
  }

  lemma EarlierBits(before: Suite, fns: Suite, moves: seq<Moves>, i: nat)
    requires SuiteOk(before) && |before| == |fns| && i <= |fns| && |moves| == i
    requires forall j :: 0 <= j < i ==> fns[j] == before[j].(ranges := Moved(before[j].ranges, moves[j]))
    ensures forall j, k :: 0 <= j < i && 0 <= k < |fns[j].ranges| ==> fns[j].ranges[k].bits <= 32
    ensures i < |before| ==> forall k :: 0 <= k < |before[i].ranges| ==> RangeOk(before[i].ranges[k])
  {
    hide Size;
    forall j, k | 0 <= j < i && 0 <= k < |fns[j].ranges|
      ensures fns[j].ranges[k].bits <= 32
    {
      assert RangeOk(before[j].ranges[k]);
    }
  }

  lemma AllInUse(before: Suite, moves: seq<Moves>, used: set<nat>)
    requires Handed(before, moves, used) && forall o :: 0 < o < 256 ==> o in used
    ensures forall o :: 0 < o < 256 ==> OctetUsed(before, o) || exists i :: 0 <= i < |moves| && o in moves[i].Values
  {
  }

  /** An octet that moves is one the suite names, so never one that was handed out. */
  lemma TargetsAreNotSources(before: Suite, moves: seq<Moves>, fns: Suite, i: nat, used: set<nat>, used': set<nat>, given: Moves)
    requires Handed(before, moves, used) && GivenFrom(used, used', given) && i < |before|
    requires forall b :: b in given ==> OctetMeets(before[i].ranges, |before[i].ranges|, fns, i, b)
    ensures forall b :: b in given ==> given[b] !in given
  {
    hide MeetsBefore, FreshFor, Apart;
    forall b | b in given
      ensures OctetUsed(before, b)
    {
      var k :| 0 <= k < |before[i].ranges| && InOctet(before[i].ranges[k], b) && MeetsBefore(before[i].ranges[k], fns, i);
      assert InOctet(before[i].ranges[k], b);
    }
  }

  lemma NothingHanded(before: Suite, used: set<nat>, fix: bool)
    requires SuiteOk(before) && forall b :: b in used <==> OctetUsed(before, b)
    ensures Handed(before, [], used) && Claims([], before, 0) && Midway(before, before, [], fix, 0) && Reported(before, before, 0, {})
  {
  }

  lemma ReportedWasThere(before: Suite, after: Suite, moves: seq<Moves>, x: nat, y: nat)
    requires Pass(before, after, moves) && Collided(before, after, x, y)
    ensures Collided(before, before, x, y)
  {
    hide RangeOk, Overlaps, Apart;
    assert Renumbered(before, after, moves, y);
    var k :| 0 <= k < |before[x].ranges| && Meets(before[x].ranges[k], after[y]);
    var l :| 0 <= l < |after[y].ranges| && after[y].ranges[l].bits <= 32 && Overlaps(before[x].ranges[k], after[y].ranges[l]);
    OverlapsInOneOctet(before[x].ranges[k], after[y].ranges[l]);
    MovedRange(before, after, moves, y, l);
    if before[x].ranges[k].a == 10 {
      LeftInPlace(before, after, moves, x, k, y, l, before[x].ranges[k].b);
    }
    assert after[y].ranges[l] == before[y].ranges[l];
    assert Meets(before[x].ranges[k], before[y]);
  }

  lemma OverlapIsReported(before: Suite, after: Suite, moves: seq<Moves>, x: nat, y: nat)
    requires Pass(before, after, moves) && Collided(before, before, x, y)
    ensures exists v: nat, w: nat :: Collided(before, after, v, w)
  {
    hide RangeOk, Overlaps, Apart, FreshFor, Meets;
    assert Renumbered(before, after, moves, y);
    if moves[y] == map[] {
      MovedByNothing(before[y].ranges);
      assert Collided(before, after, x, y);
    } else {
      var b :| b in moves[y];
      var k :| 0 <= k < |before[y].ranges| && InOctet(before[y].ranges[k], b) && MeetsBefore(before[y].ranges[k], after, y);
      var j :| 0 <= j < y && after[j].places && Meets(before[y].ranges[k], after[j]);
      assert Collided(before, after, y, j);
    }
  }

  /** Something is reported exactly when two placing functions of the suite, as they were, hold overlapping ranges. */
  lemma ReportedExactlyWhenOverlapping(before: Suite, after: Suite, moves: seq<Moves>)
    requires Pass(before, after, moves)
    ensures (exists x: nat, y: nat :: Collided(before, after, x, y)) <==> exists x: nat, y: nat :: Collided(before, before, x, y)
  {
    hide Pass, Collided;
    if x: nat, y: nat :| Collided(before, after, x, y) {
      ReportedWasThere(before, after, moves, x, y);
    }
    if x: nat, y: nat :| Collided(before, before, x, y) {
      OverlapIsReported(before, after, moves, x, y);
    }
  }
}
