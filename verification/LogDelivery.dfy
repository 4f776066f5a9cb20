// Log delivery in sim/container.go: a follow stream writes lines as the
// workload does, and up to three drains of the finished log write what it
// missed, each skipping what is already written.

module LogDelivery {

  datatype Stream = Stdout | Stderr

  datatype Line = Line(stream: Stream, text: string)

  /** The engine's buffer: the lines of each stream, in order. */
  datatype Log = Log(out: seq<string>, err: seq<string>)

  function Of(log: Log, s: Stream): (texts: seq<string>) {
    match s case Stdout => log.out case Stderr => log.err
  }

  /** One stream's texts in the first n lines. */
  function Texts(lines: seq<Line>, s: Stream, n: nat): (texts: seq<string>)
    requires n <= |lines|
  {
    if n == 0 then []
    else Texts(lines, s, n - 1) + (if lines[n - 1].stream == s then [lines[n - 1].text] else [])
  }

  function AllTexts(lines: seq<Line>, s: Stream): (texts: seq<string>) {
    Texts(lines, s, |lines|)
  }

  /** A read of the buffer: some first lines of each stream, the two readers interleaved in any way. */
  ghost predicate IsRead(read: seq<Line>, log: Log) {
    forall s: Stream :: AllTexts(read, s) <= Of(log, s)
  }

  ghost predicate ReadsToTheEnd(read: seq<Line>, log: Log) {
    forall s: Stream :: AllTexts(read, s) == Of(log, s)
  }

  type Counts = map<Stream, nat>

  function At(m: Counts, s: Stream): (n: nat) {
    if s in m then m[s] else 0
  }

  function Sum(a: Counts, b: Counts): (m: Counts) {
    map s | s in a.Keys + b.Keys :: At(a, s) + At(b, s)
  }

  lemma {:induction false} TextsOfFirst(lines: seq<Line>, more: seq<Line>, s: Stream, n: nat)
    requires n <= |lines|
    ensures Texts(lines + more, s, n) == Texts(lines, s, n)
    decreases n
  {
    if n > 0 {
      TextsOfFirst(lines, more, s, n - 1);
    }
  }

  lemma TextsAppend(lines: seq<Line>, line: Line, s: Stream)
    ensures AllTexts(lines + [line], s) == AllTexts(lines, s) + (if line.stream == s then [line.text] else [])
  {
    TextsOfFirst(lines, [line], s, |lines|);
  }

  /** Where the delivered lines end up. */
  class LogSink {
    var lines: seq<Line>

    constructor ()
      ensures lines == []
    {
      lines := [];
    }

    method WriteLog(line: Line)
      modifies this
      ensures lines == old(lines) + [line]
    {
      lines := lines + [line];
    }
  }

  /** Forwards every line and counts it by stream. */
  class LineCountingSink {
    const sink: LogSink
    var counts: Counts

    constructor (sink: LogSink)
      ensures this.sink == sink && counts == map[]
    {
      this.sink := sink;
      counts := map[];
    }

    method WriteLog(line: Line)
      modifies this, sink
      ensures sink.lines == old(sink.lines) + [line]
      ensures forall s: Stream :: At(counts, s) == At(old(counts), s) + (if s == line.stream then 1 else 0)
    {
      counts := counts[line.stream := At(counts, line.stream) + 1];
      sink.WriteLog(line);
    }
  }

  /** Lets a stream's lines through once as many of them as it was told have gone by. */
  class LineSkippingSink {
    const sink: LineCountingSink
    var skip: Counts

    constructor (sink: LineCountingSink, skip: Counts)
      ensures this.sink == sink && this.skip == skip
    {
      this.sink := sink;
      this.skip := skip;
    }

    method WriteLog(line: Line)
      modifies this, sink, sink.sink
      ensures At(old(skip), line.stream) > 0 ==>
        && sink.sink.lines == old(sink.sink.lines) && sink.counts == old(sink.counts)
        && forall s: Stream :: At(skip, s) == At(old(skip), s) - (if s == line.stream then 1 else 0)
      ensures At(old(skip), line.stream) == 0 ==>
        && sink.sink.lines == old(sink.sink.lines) + [line] && skip == old(skip)
        && forall s: Stream :: At(sink.counts, s) == At(old(sink.counts), s) + (if s == line.stream then 1 else 0)
    {
      if At(skip, line.stream) > 0 {
        skip := skip[line.stream := At(skip, line.stream) - 1];
        return;
      }
      sink.WriteLog(line);
    }
  }

  /** What one stream has delivered when n of its lines were read past a skip of k. */
  function Past(texts: seq<string>, k: nat): (rest: seq<string>) {
    if k <= |texts| then texts[k..] else []
  }

  /** Mid-drain: n lines of the read have gone through a sink that began with the given skips. */
  ghost predicate Draining(before: seq<Line>, lines: seq<Line>, read: seq<Line>, n: nat, skip0: Counts, skip: Counts,
                           counts0: Counts, counts: Counts, s: Stream)
    requires n <= |read|
  {
    var texts := Texts(read, s, n);
    && At(skip, s) == (if |texts| <= At(skip0, s) then At(skip0, s) - |texts| else 0)
    && AllTexts(lines, s) == AllTexts(before, s) + Past(texts, At(skip0, s))
    && At(counts, s) == At(counts0, s) + |Past(texts, At(skip0, s))|
  }

  lemma PastGrows(texts: seq<string>, text: string, k: nat)
    ensures Past(texts + [text], k) == if k <= |texts| then Past(texts, k) + [text] else []
  {
  }

  lemma SkipsOneMore(before: seq<Line>, lines: seq<Line>, read: seq<Line>, n: nat, skip0: Counts,
                     skip: Counts, skip': Counts, counts0: Counts, counts: Counts, s: Stream)
    requires n < |read| && Draining(before, lines, read, n, skip0, skip, counts0, counts, s)
    requires At(skip, read[n].stream) > 0 && At(skip', s) == At(skip, s) - (if s == read[n].stream then 1 else 0)
    ensures Draining(before, lines, read, n + 1, skip0, skip', counts0, counts, s)
  {
    PastGrows(Texts(read, s, n), read[n].text, At(skip0, s));
  }

  lemma ForwardsOneMore(before: seq<Line>, lines: seq<Line>, read: seq<Line>, n: nat, skip0: Counts,
                        skip: Counts, counts0: Counts, counts: Counts, counts': Counts, s: Stream)
    requires n < |read| && Draining(before, lines, read, n, skip0, skip, counts0, counts, s)
    requires At(skip, read[n].stream) == 0 && At(counts', s) == At(counts, s) + (if s == read[n].stream then 1 else 0)
    ensures Draining(before, lines + [read[n]], read, n + 1, skip0, skip, counts0, counts', s)
  {
    hide AllTexts, Past;
    TextsAppend(lines, read[n], s);
    var texts, k := Texts(read, s, n), At(skip0, s);
    PastGrows(texts, read[n].text, k);
    if s == read[n].stream {
      assert Texts(read, s, n + 1) == texts + [read[n].text];
      assert AllTexts(before, s) + (Past(texts, k) + [read[n].text]) == (AllTexts(before, s) + Past(texts, k)) + [read[n].text];
    } else {
      assert Texts(read, s, n + 1) == texts;
      assert AllTexts(lines + [read[n]], s) == AllTexts(lines, s);
    }
  }

  /** drainContainerLogs: every line of one read through the skipping sink. */
  method Drain(read: seq<Line>, sink: LineSkippingSink)
    modifies sink, sink.sink, sink.sink.sink
    ensures forall s: Stream ::
      Draining(old(sink.sink.sink.lines), sink.sink.sink.lines, read, |read|, old(sink.skip), sink.skip,
               old(sink.sink.counts), sink.sink.counts, s)
  {
    for n := 0 to |read|
      invariant forall s: Stream ::
        Draining(old(sink.sink.sink.lines), sink.sink.sink.lines, read, n, old(sink.skip), sink.skip,
                 old(sink.sink.counts), sink.sink.counts, s)
    {
      ghost var lines, skip, counts, next := sink.sink.sink.lines, sink.skip, sink.sink.counts, n + 1;
      sink.WriteLog(read[n]);
      forall s: Stream
        ensures Draining(old(sink.sink.sink.lines), sink.sink.sink.lines, read, next, old(sink.skip), sink.skip,
                         old(sink.sink.counts), sink.sink.counts, s)
      {
        assert Draining(old(sink.sink.sink.lines), lines, read, n, old(sink.skip), skip, old(sink.sink.counts), counts, s);
        if At(skip, read[n].stream) > 0 {
          SkipsOneMore(old(sink.sink.sink.lines), lines, read, n, old(sink.skip), skip, sink.skip,
                       old(sink.sink.counts), counts, s);
        } else {
          ForwardsOneMore(old(sink.sink.sink.lines), lines, read, n, old(sink.skip), skip,
                          old(sink.sink.counts), counts, sink.sink.counts, s);
        }
      }
    }
  }

  /** followContainerLogs: every line of the live stream, counted. */
  method Follow(read: seq<Line>, counting: LineCountingSink)
    requires counting.counts == map[] && counting.sink.lines == []
    modifies counting, counting.sink
    ensures counting.sink.lines == read
    ensures forall s: Stream :: At(counting.counts, s) == |AllTexts(read, s)|
  {
    for n := 0 to |read|
      invariant counting.sink.lines == read[..n]
      invariant forall s: Stream :: At(counting.counts, s) == |AllTexts(read[..n], s)|
    {
      counting.WriteLog(read[n]);
      assert read[..n + 1] == read[..n] + [read[n]];
      forall s: Stream
        ensures At(counting.counts, s) == |AllTexts(read[..n + 1], s)|
      {
        TextsAppend(read[..n], read[n], s);
      }
    }
    assert read[..|read|] == read;
  }

  /** One drain attempt: what it read, whether the read failed, and whether the deadline has passed. */
  datatype Attempt = Attempt(read: seq<Line>, failed: bool, late: bool)

  /** Each stream so far is the first so many lines of the log, each exactly once. */
  ghost predicate DeliveredSoFar(lines: seq<Line>, log: Log, followed: Counts, written: Counts, s: Stream) {
    && At(followed, s) + At(written, s) <= |Of(log, s)|
    && AllTexts(lines, s) == Of(log, s)[..At(followed, s) + At(written, s)]
  }

  /** Past the first k lines of a read of the log, what follows the first k of the log is the rest of the read. */
  lemma PastExtends(full: seq<string>, texts: seq<string>, k: nat)
    requires k <= |full| && texts <= full
    ensures full[..k] + Past(texts, k) == full[..if k <= |texts| then |texts| else k]
  {
    if k <= |texts| {
      assert full[..k] == texts[..k];
      assert texts[..k] + texts[k..] == texts == full[..|texts|];
    }
  }

  lemma PrefixesNest(full: seq<string>, k: nat, m: nat)
    requires k <= m <= |full|
    ensures full[..k] <= full[..m]
  {
    assert full[..m][..k] == full[..k];
  }

  /** What a finished drain has added to a stream. */
  lemma Drained(before: seq<Line>, lines: seq<Line>, read: seq<Line>, skip0: Counts, skip: Counts, counts0: Counts, counts: Counts, s: Stream)
    requires Draining(before, lines, read, |read|, skip0, skip, counts0, counts, s)
    ensures AllTexts(lines, s) == AllTexts(before, s) + Past(AllTexts(read, s), At(skip0, s))
    ensures At(counts, s) == At(counts0, s) + |Past(AllTexts(read, s), At(skip0, s))|
  {
  }

  lemma SumAt(a: Counts, b: Counts, s: Stream)
    ensures At(Sum(a, b), s) == At(a, s) + At(b, s)
  {
  }

  lemma DrainDelivers(before: seq<Line>, lines: seq<Line>, read: seq<Line>, log: Log, followed: Counts,
                      written: Counts, skip: Counts, written': Counts, s: Stream)
    requires DeliveredSoFar(before, log, followed, written, s) && AllTexts(read, s) <= Of(log, s)
    requires Draining(before, lines, read, |read|, Sum(followed, written), skip, written, written', s)
    ensures DeliveredSoFar(lines, log, followed, written', s)
    ensures AllTexts(before, s) <= AllTexts(lines, s) && AllTexts(read, s) <= AllTexts(lines, s)
  {
    hide Draining, AllTexts, Texts, Past, Of, Sum, At;
    SumAt(followed, written, s);
    Drained(before, lines, read, Sum(followed, written), skip, written, written', s);
    var k, full, texts := At(followed, s) + At(written, s), Of(log, s), AllTexts(read, s);
    var m := if k <= |texts| then |texts| else k;
    PastExtends(full, texts, k);
    PrefixesNest(full, k, m);
    PrefixesNest(full, |texts|, m);
    assert texts == full[..|texts|];
    assert |full[..k] + Past(texts, k)| == k + |Past(texts, k)|;
  }

  /** Delivered so far: a prefix of each stream's log that covers the follow stream and the drains that ran. */
  ghost predicate Captured(lines: seq<Line>, log: Log, follow: seq<Line>, attempts: seq<Attempt>, ran: nat,
                           followed: Counts, written: Counts, s: Stream)
    requires ran <= |attempts|
  {
    && DeliveredSoFar(lines, log, followed, written, s)
    && AllTexts(follow, s) <= AllTexts(lines, s)
    && forall i :: 0 <= i < ran ==> AllTexts(attempts[i].read, s) <= AllTexts(lines, s)
  }

  lemma CapturesOneMore(before: seq<Line>, lines: seq<Line>, log: Log, follow: seq<Line>, attempts: seq<Attempt>, ran: nat,
                        followed: Counts, written: Counts, skip: Counts, written': Counts, s: Stream)
    requires ran < |attempts| && Captured(before, log, follow, attempts, ran, followed, written, s)
    requires IsRead(attempts[ran].read, log)
    requires Draining(before, lines, attempts[ran].read, |attempts[ran].read|, Sum(followed, written), skip, written, written', s)
    ensures Captured(lines, log, follow, attempts, ran + 1, followed, written', s)
  {
    hide Draining, DeliveredSoFar, AllTexts, Sum;
    DrainDelivers(before, lines, attempts[ran].read, log, followed, written, skip, written', s);
    PrefixOfPrefix(AllTexts(follow, s), AllTexts(before, s), AllTexts(lines, s));
    forall i | 0 <= i < ran
      ensures AllTexts(attempts[i].read, s) <= AllTexts(lines, s)
    {
      PrefixOfPrefix(AllTexts(attempts[i].read, s), AllTexts(before, s), AllTexts(lines, s));
    }
  }

  lemma PrefixOfPrefix(a: seq<string>, b: seq<string>, c: seq<string>)
    requires a <= b <= c
    ensures a <= c
  {
  }

  lemma CapturedIsDelivered(lines: seq<Line>, log: Log, follow: seq<Line>, attempts: seq<Attempt>, ran: nat,
                            followed: Counts, written: Counts)
    requires ran <= |attempts|
    requires forall s: Stream :: Captured(lines, log, follow, attempts, ran, followed, written, s)
    ensures Delivers(lines, log, follow, attempts, ran)
  {
    forall s: Stream
      ensures AllTexts(lines, s) <= Of(log, s) && AllTexts(follow, s) <= AllTexts(lines, s)
    {
      assert Captured(lines, log, follow, attempts, ran, followed, written, s);
    }
    forall i, s: Stream | 0 <= i < ran
      ensures AllTexts(attempts[i].read, s) <= AllTexts(lines, s)
    {
      assert Captured(lines, log, follow, attempts, ran, followed, written, s);
    }
  }

  /** The drains stop at the first that succeeds or finds the deadline past, and at the third in any case. */
  ghost predicate RanUntilDone(attempts: seq<Attempt>, ran: nat) {
    && |attempts| == 3 && 1 <= ran <= 3
    && (forall i :: 0 <= i < ran - 1 ==> attempts[i].failed && !attempts[i].late)
    && (ran == 3 || !attempts[ran - 1].failed || attempts[ran - 1].late)
  }

  /**
   * What delivery promises: every stream a prefix of its log, no line twice and
   * none out of order, at least as far as anything that was read, and whole if
   * any drain that ran reached the end.
   */
  ghost predicate Delivers(lines: seq<Line>, log: Log, follow: seq<Line>, attempts: seq<Attempt>, ran: nat)
    requires ran <= |attempts|
  {
    && IsRead(lines, log)
    && (forall s: Stream :: AllTexts(follow, s) <= AllTexts(lines, s))
    && (forall i, s: Stream :: 0 <= i < ran ==> AllTexts(attempts[i].read, s) <= AllTexts(lines, s))
  }

  lemma AnyCompleteDrainDeliversAll(lines: seq<Line>, log: Log, follow: seq<Line>, attempts: seq<Attempt>, ran: nat, i: nat)
    requires i < ran <= |attempts| && Delivers(lines, log, follow, attempts, ran) && ReadsToTheEnd(attempts[i].read, log)
    ensures ReadsToTheEnd(lines, log)
  {
    forall s: Stream
      ensures AllTexts(lines, s) == Of(log, s)
    {
      assert AllTexts(attempts[i].read, s) <= AllTexts(lines, s) <= Of(log, s);
    }
  }

  lemma FollowIsCaptured(log: Log, follow: seq<Line>, attempts: seq<Attempt>, followed: Counts, s: Stream)
    requires IsRead(follow, log) && At(followed, s) == |AllTexts(follow, s)|
    ensures Captured(follow, log, follow, attempts, 0, followed, map[], s)
  {
    assert AllTexts(follow, s) <= Of(log, s);
  }

  /** waitAndCaptureLogs' delivery, whatever the follow stream and each drain managed to read. */
  method CaptureLogs(log: Log, follow: seq<Line>, attempts: seq<Attempt>) returns (sink: LogSink, ran: nat)
    requires IsRead(follow, log) && |attempts| == 3
    requires forall i :: 0 <= i < |attempts| ==> IsRead(attempts[i].read, log)
    ensures RanUntilDone(attempts, ran) && Delivers(sink.lines, log, follow, attempts, ran)
    ensures (exists i :: 0 <= i < ran && ReadsToTheEnd(attempts[i].read, log)) ==> ReadsToTheEnd(sink.lines, log)
  {
    hide Captured, Draining, Delivers, AllTexts, IsRead, ReadsToTheEnd;
    sink := new LogSink();
    var counting := new LineCountingSink(sink);
    Follow(follow, counting);
    var written := new LineCountingSink(sink);
    ran := 0;
    forall s: Stream
      ensures Captured(sink.lines, log, follow, attempts, ran, counting.counts, written.counts, s)
    {
      FollowIsCaptured(log, follow, attempts, counting.counts, s);
    }
    while ran < 3
      invariant ran <= 3
      invariant written != counting && written.sink == sink && counting.sink == sink
      invariant forall s: Stream :: Captured(sink.lines, log, follow, attempts, ran, counting.counts, written.counts, s)
      invariant forall i :: 0 <= i < ran ==> attempts[i].failed && !attempts[i].late
    {
      var skipping := new LineSkippingSink(written, Sum(counting.counts, written.counts));
      ghost var before, counts, next := sink.lines, written.counts, ran + 1;
      var attempt := attempts[ran];
      Drain(attempt.read, skipping);
      forall s: Stream
        ensures Captured(sink.lines, log, follow, attempts, next, counting.counts, written.counts, s)
      {
        CapturesOneMore(before, sink.lines, log, follow, attempts, ran, counting.counts, counts, skipping.skip, written.counts, s);
      }
      ran := ran + 1;
      if !attempt.failed || attempt.late {
        break;
      }
    }
    CapturedIsDelivered(sink.lines, log, follow, attempts, ran, counting.counts, written.counts);
    forall i | 0 <= i < ran && ReadsToTheEnd(attempts[i].read, log)
      ensures ReadsToTheEnd(sink.lines, log)
    {
      AnyCompleteDrainDeliversAll(sink.lines, log, follow, attempts, ran, i);
    }
  }
}
