/**
 * The parallel pipeline that evaluates log entries for followers
 * (cluster_follow.go).
 *
 * One goroutine passes requests on in batches, several map them at the same time
 * and finish in any order, and one collects a whole batch, sorts it by offset
 * and sends it out before the next batch begins.  Whatever the schedule, the
 * results of each stream come out in the order of its log, each exactly once
 * (`RunKeepsOrder`), and there is always a way on to where all have (`CanFinish`).
 */
module Pipelining {

  datatype Request = Request(stream: int, offset: nat)

  /** What the enqueuing goroutine and the reducer are at: filling a batch, collecting or sending out. */
  datatype Phase =
    | Filling
    | Collecting(missing: nat, buf: seq<Request>)
    | Sending(sent: seq<Request>, pending: seq<Request>)

  /**
   * The requests submitted so far, how many of them were done in earlier batches
   * and how many passed on, the channels, what workers hold, and the results.
   */
  datatype State = State(submitted: seq<Request>, start: nat, taken: nat, queue: seq<Request>,
                         busy: multiset<Request>, mapped: seq<Request>, phase: Phase, results: seq<Request>)

  datatype Event =
    | Submit(request: Request)
    | Enqueue
    | Announce
    | Take
    | Finish(request: Request)
    | Collect
    | Sort(order: seq<Request>)
    | Send
    | Drain

  /** The requests of a stream. */
  function Of(stream: int, requests: seq<Request>): seq<Request> {
    if requests == [] then [] else
      var n := |requests| - 1;
      Of(stream, requests[..n]) + if requests[n].stream == stream then [requests[n]] else []
  }

  /** Each stream is read in the order of its log. */
  predicate InLogOrder(requests: seq<Request>) {
    forall i, j | 0 <= i < j < |requests| :: requests[i].stream == requests[j].stream
      ==> requests[i].offset < requests[j].offset
  }

  predicate ByOffset(requests: seq<Request>) {
    forall i, j | 0 <= i < j < |requests| :: requests[i].offset <= requests[j].offset
  }

  /** A batch has at most as many requests as there are workers. */
  predicate Enabled(parallelism: nat, st: State, ev: Event) {
    match ev
    case Submit(r) => InLogOrder(st.submitted + [r])
    case Enqueue => st.phase.Filling? && st.taken < |st.submitted| && st.taken < st.start + parallelism
    case Announce => st.phase.Filling? && st.start < st.taken
    case Take => st.queue != []
    case Finish(r) => r in st.busy
    case Collect => st.phase.Collecting? && st.phase.missing > 0 && st.mapped != []
    case Sort(order) => st.phase.Collecting? && st.phase.missing == 0 && multiset(order) == multiset(st.phase.buf)
      && ByOffset(order)
    case Send => st.phase.Sending? && st.phase.pending != []
    case Drain => st.phase.Sending? && st.phase.pending == []
  }

  function Apply(parallelism: nat, st: State, ev: Event): State
    requires Enabled(parallelism, st, ev) && st.start <= st.taken
  {
    match ev
    case Submit(r) => st.(submitted := st.submitted + [r])
    case Enqueue => st.(queue := st.queue + [st.submitted[st.taken]], taken := st.taken + 1)
    case Announce => st.(phase := Collecting(st.taken - st.start, []))
    case Take => st.(queue := st.queue[1..], busy := st.busy + multiset{st.queue[0]})
    case Finish(r) => st.(busy := st.busy - multiset{r}, mapped := st.mapped + [r])
    case Collect => st.(mapped := st.mapped[1..], phase := Collecting(st.phase.missing - 1,
      st.phase.buf + [st.mapped[0]]))
    case Sort(order) => st.(phase := Sending([], order))
    case Send =>
      var Sending(sent, pending) := st.phase;
      st.(phase := Sending(sent + [pending[0]], pending[1..]), results := st.results + [pending[0]])
    case Drain => st.(phase := Filling, start := st.taken)
  }

  /** Everything between the enqueuing goroutine and the reducer. */
  function InFlight(st: State): multiset<Request> {
    multiset(st.queue) + st.busy + multiset(st.mapped)
  }

  function Batch(st: State): seq<Request>
    requires st.start <= st.taken <= |st.submitted|
  {
    st.submitted[st.start..st.taken]
  }

  /** The current batch is in flight, collected, or sorted and partly sent. */
  ghost predicate BatchOk(st: State)
    requires st.start <= st.taken <= |st.submitted|
  {
    match st.phase
    case Filling => InFlight(st) == multiset(Batch(st))
    case Collecting(missing, buf) =>
      missing + |buf| == |Batch(st)| && InFlight(st) + multiset(buf) == multiset(Batch(st))
    case Sending(sent, pending) =>
      InFlight(st) == multiset{} && multiset(sent + pending) == multiset(Batch(st)) && ByOffset(sent + pending)
  }

  /** What was sent of the current batch. */
  function SentNow(st: State): seq<Request> {
    if st.phase.Sending? then st.phase.sent else []
  }

  /** Earlier batches came out, each stream in log order, followed by what was sent of the current one. */
  ghost predicate ResultsOk(st: State)
    requires st.start <= st.taken <= |st.submitted|
  {
    exists done :: st.results == done + SentNow(st) && multiset(done) == multiset(st.submitted[..st.start])
      && SameStreams(done, st.submitted[..st.start])
  }

  ghost predicate SameStreams(a: seq<Request>, b: seq<Request>) {
    forall stream :: Of(stream, a) == Of(stream, b)
  }

  ghost predicate Invariant(st: State)
    ensures Invariant(st) ==> st.start <= st.taken <= |st.submitted|
  {
    InLogOrder(st.submitted) && st.start <= st.taken <= |st.submitted| && BatchOk(st) && ResultsOk(st)
  }

  // ---------------------------------------------------------------- sorting keeps streams

  lemma {:induction false} OfConcat(stream: int, a: seq<Request>, b: seq<Request>)
    ensures Of(stream, a + b) == Of(stream, a) + Of(stream, b)
  {
    if b == [] {
      assert a + b == a;
    } else {
      var n := |b| - 1;
      assert (a + b)[..|a| + n] == a + b[..n];
      OfConcat(stream, a, b[..n]);
    }
  }

  /** A stream's requests, as often as in the list. */
  lemma {:induction false} OfCounts(stream: int, a: seq<Request>, r: Request)
    ensures multiset(Of(stream, a))[r] == if r.stream == stream then multiset(a)[r] else 0
  {
    if a != [] {
      var n := |a| - 1;
      OfCounts(stream, a[..n], r);
      assert a == a[..n] + [a[n]];
    }
  }

  lemma OfSame(stream: int, a: seq<Request>, b: seq<Request>)
    requires multiset(a) == multiset(b)
    ensures multiset(Of(stream, a)) == multiset(Of(stream, b))
  {
    forall r ensures multiset(Of(stream, a))[r] == multiset(Of(stream, b))[r] {
      OfCounts(stream, a, r);
      OfCounts(stream, b, r);
    }
  }

  predicate Rising(a: seq<Request>) {
    forall i, j | 0 <= i < j < |a| :: a[i].offset < a[j].offset
  }

  /** The last of a rising list is its only element that late. */
  lemma SameLast(a: seq<Request>, b: seq<Request>)
    requires Rising(a) && ByOffset(b) && a != [] && b != [] && forall r :: r in a <==> r in b
    ensures b[|b| - 1] == a[|a| - 1]
  {
    var x, y := a[|a| - 1], b[|b| - 1];
    assert x in a && y in b;
    var k :| 0 <= k < |b| && b[k] == x;
    var m :| 0 <= m < |a| && a[m] == y;
    assert m < |a| - 1 ==> y.offset < x.offset;
    assert k < |b| - 1 ==> x.offset <= y.offset;
  }

  lemma RisingLast(a: seq<Request>, b: seq<Request>)
    requires Rising(a) && ByOffset(b) && multiset(a) == multiset(b) && a != []
    ensures b != [] && b[|b| - 1] == a[|a| - 1] && multiset(a[..|a| - 1]) == multiset(b[..|b| - 1])
  {
    hide Rising, ByOffset;
    assert |multiset(a)| == |a| && |multiset(b)| == |b|;
    forall r ensures r in a <==> r in b { assert r in a <==> r in multiset(a); }
    SameLast(a, b);
    WithoutLast(a);
    WithoutLast(b);
  }

  lemma WithoutLast(a: seq<Request>)
    requires a != []
    ensures multiset(a[..|a| - 1]) == multiset(a) - multiset{a[|a| - 1]}
  {
    assert a == a[..|a| - 1] + [a[|a| - 1]];
  }

  /** A list sorted by offset that has the elements of a rising one is that list. */
  lemma {:induction false} SortedIsRising(a: seq<Request>, b: seq<Request>)
    requires Rising(a) && ByOffset(b) && multiset(a) == multiset(b)
    ensures a == b
  {
    if a == [] {
      assert |multiset(b)| == 0;
    } else {
      RisingLast(a, b);
      SortedIsRising(a[..|a| - 1], b[..|b| - 1]);
      assert a == a[..|a| - 1] + [a[|a| - 1]] && b == b[..|b| - 1] + [b[|b| - 1]];
    }
  }

  lemma {:induction false} OfElements(stream: int, a: seq<Request>)
    ensures forall r | r in Of(stream, a) :: r in a && r.stream == stream
  {
    if a != [] { OfElements(stream, a[..|a| - 1]); }
  }

  lemma {:induction false} OfRises(stream: int, a: seq<Request>)
    requires InLogOrder(a)
    ensures Rising(Of(stream, a))
  {
    if a != [] {
      var n := |a| - 1;
      OfRises(stream, a[..n]);
      OfElements(stream, a[..n]);
      forall i | 0 <= i < |Of(stream, a[..n])| ensures Of(stream, a[..n])[i] in a[..n]
        && Of(stream, a[..n])[i].stream == stream {}
    }
  }

  lemma {:induction false} OfSorted(stream: int, a: seq<Request>)
    requires ByOffset(a)
    ensures ByOffset(Of(stream, a))
  {
    if a != [] {
      var n := |a| - 1;
      OfSorted(stream, a[..n]);
      OfElements(stream, a[..n]);
      forall i | 0 <= i < |Of(stream, a[..n])| ensures Of(stream, a[..n])[i] in a[..n] {}
    }
  }

  /** Sorting a batch by offset leaves each stream in log order. */
  lemma SortKeepsStreams(batch: seq<Request>, order: seq<Request>)
    requires InLogOrder(batch) && ByOffset(order) && multiset(order) == multiset(batch)
    ensures SameStreams(order, batch)
  {
    forall stream ensures Of(stream, order) == Of(stream, batch) {
      OfRises(stream, batch);
      OfSorted(stream, order);
      OfSame(stream, batch, order);
      SortedIsRising(Of(stream, batch), Of(stream, order));
    }
  }

  // ---------------------------------------------------------------- steps keep the invariant

  lemma SameStreamsConcat(a: seq<Request>, b: seq<Request>, c: seq<Request>, d: seq<Request>)
    requires SameStreams(a, c) && SameStreams(b, d)
    ensures SameStreams(a + b, c + d)
  {
    forall stream ensures Of(stream, a + b) == Of(stream, c + d) {
      OfConcat(stream, a, b);
      OfConcat(stream, c, d);
    }
  }

  /** Steps that only move requests along leave the results as they are. */
  lemma ResultsStay(st: State, now: State)
    requires Invariant(st) && now.start == st.start && now.start <= now.taken <= |now.submitted|
             && st.submitted <= now.submitted
    requires now.results == st.results && SentNow(now) == SentNow(st)
    ensures ResultsOk(now)
  {
    hide InLogOrder, ByOffset, SameStreams, BatchOk, Of;
    assert now.submitted[..now.start] == st.submitted[..st.start];
  }

  lemma SubmitKeeps(parallelism: nat, st: State, r: Request)
    requires Invariant(st) && Enabled(parallelism, st, Submit(r))
    ensures Invariant(Apply(parallelism, st, Submit(r)))
  {
    hide InLogOrder, ByOffset, SameStreams;
    var now := Apply(parallelism, st, Submit(r));
    ResultsStay(st, now);
    assert Batch(now) == Batch(st);
  }

  lemma EnqueueKeeps(parallelism: nat, st: State)
    requires Invariant(st) && Enabled(parallelism, st, Enqueue)
    ensures Invariant(Apply(parallelism, st, Enqueue))
  {
    hide InLogOrder, ByOffset, SameStreams, ResultsOk;
    var now := Apply(parallelism, st, Enqueue);
    ResultsStay(st, now);
    assert Batch(now) == Batch(st) + [st.submitted[st.taken]];
  }

  lemma AnnounceKeeps(parallelism: nat, st: State)
    requires Invariant(st) && Enabled(parallelism, st, Announce)
    ensures Invariant(Apply(parallelism, st, Announce))
  {
    hide InLogOrder, ByOffset, SameStreams, ResultsOk;
    ResultsStay(st, Apply(parallelism, st, Announce));
  }

  /** Requests that move between channels and workers stay in flight. */
  lemma FlightKeeps(st: State, now: State)
    requires Invariant(st) && InFlight(now) == InFlight(st)
    requires now.submitted == st.submitted && now.start == st.start && now.taken == st.taken && now.phase == st.phase
             && now.results == st.results
    ensures Invariant(now)
  {
    hide InLogOrder, ByOffset, SameStreams, ResultsOk, InFlight;
    ResultsStay(st, now);
  }

  lemma TakeKeeps(parallelism: nat, st: State)
    requires Invariant(st) && Enabled(parallelism, st, Take)
    ensures Invariant(Apply(parallelism, st, Take))
  {
    hide Invariant;
    assert st.queue == [st.queue[0]] + st.queue[1..];
    FlightKeeps(st, Apply(parallelism, st, Take));
  }

  lemma FinishKeeps(parallelism: nat, st: State, r: Request)
    requires Invariant(st) && Enabled(parallelism, st, Finish(r))
    ensures Invariant(Apply(parallelism, st, Finish(r)))
  {
    hide Invariant;
    FlightKeeps(st, Apply(parallelism, st, Finish(r)));
  }

  lemma CollectKeeps(parallelism: nat, st: State)
    requires Invariant(st) && Enabled(parallelism, st, Collect)
    ensures Invariant(Apply(parallelism, st, Collect))
  {
    hide InLogOrder, ByOffset, SameStreams, ResultsOk;
    var now := Apply(parallelism, st, Collect);
    ResultsStay(st, now);
    assert st.mapped == [st.mapped[0]] + st.mapped[1..];
  }

  lemma SortKeeps(parallelism: nat, st: State, order: seq<Request>)
    requires Invariant(st) && Enabled(parallelism, st, Sort(order))
    ensures Invariant(Apply(parallelism, st, Sort(order)))
  {
    hide InLogOrder, ByOffset, SameStreams;
    var buf := st.phase.buf;
    assert |multiset(buf)| == |buf| && |multiset(Batch(st))| == |Batch(st)|;
    assert InFlight(st) == multiset{};
    assert [] + order == order;
  }

  lemma SendKeeps(parallelism: nat, st: State)
    requires Invariant(st) && Enabled(parallelism, st, Send)
    ensures Invariant(Apply(parallelism, st, Send))
  {
    hide InLogOrder, ByOffset, SameStreams;
    var Sending(sent, pending) := st.phase;
    var now := Apply(parallelism, st, Send);
    assert (sent + [pending[0]]) + pending[1..] == sent + pending;
    var done :| st.results == done + sent && multiset(done) == multiset(st.submitted[..st.start])
      && SameStreams(done, st.submitted[..st.start]);
    assert now.results == done + SentNow(now);
  }

  lemma DrainKeeps(parallelism: nat, st: State)
    requires Invariant(st) && Enabled(parallelism, st, Drain)
    ensures Invariant(Apply(parallelism, st, Drain))
  {
    hide ByOffset, SameStreams, InLogOrder, Of, ResultsOk;
    var now := Apply(parallelism, st, Drain);
    DrainedResults(st, now);
    assert Batch(now) == [];
  }

  lemma DrainedResults(st: State, now: State)
    requires Invariant(st) && st.phase.Sending? && st.phase.pending == []
    requires now.submitted == st.submitted && now.start == now.taken == st.taken && now.results == st.results
             && now.phase.Filling?
    ensures ResultsOk(now)
  {
    hide ByOffset, SameStreams, InLogOrder, Of, InFlight;
    var before, sent, batch := st.submitted[..st.start], st.phase.sent, Batch(st);
    assert sent + [] == sent;
    PartInLogOrder(st.submitted, st.start, st.taken);
    assert st.submitted[..st.taken] == before + batch;
    var done :| st.results == done + sent && multiset(done) == multiset(before) && SameStreams(done, before);
    BatchDone(done, sent, before, batch);
    ResultsAre(now, done + sent);
  }

  /** A batch that was sent out completes what is done. */
  lemma BatchDone(done: seq<Request>, sent: seq<Request>, before: seq<Request>, batch: seq<Request>)
    requires multiset(done) == multiset(before) && SameStreams(done, before)
    requires InLogOrder(batch) && ByOffset(sent) && multiset(sent) == multiset(batch)
    ensures multiset(done + sent) == multiset(before + batch) && SameStreams(done + sent, before + batch)
  {
    hide ByOffset, SameStreams, InLogOrder, Of;
    SortKeepsStreams(batch, sent);
    SameStreamsConcat(done, sent, before, batch);
    assert multiset(done + sent) == multiset(done) + multiset(sent)
      && multiset(before + batch) == multiset(before) + multiset(batch);
  }

  lemma ResultsAre(st: State, done: seq<Request>)
    requires st.start <= st.taken <= |st.submitted| && st.results == done && st.phase.Filling?
    requires multiset(done) == multiset(st.submitted[..st.start]) && SameStreams(done, st.submitted[..st.start])
    ensures ResultsOk(st)
  {
    hide SameStreams;
    assert st.results == done + SentNow(st);
  }

  lemma PartInLogOrder(requests: seq<Request>, a: nat, b: nat)
    requires InLogOrder(requests) && a <= b <= |requests|
    ensures InLogOrder(requests[a..b])
  {
  }

  // ---------------------------------------------------------------- runs

  function Started(): State {
    State([], 0, 0, [], multiset{}, [], Filling, [])
  }

  ghost predicate Reaches(parallelism: nat, events: seq<Event>, st: State)
    decreases |events|
  {
    if events == [] then st == Started()
    else
      var init, last := events[..|events| - 1], events[|events| - 1];
      exists before :: Reaches(parallelism, init, before) && Steps(parallelism, before, last, st)
  }

  ghost predicate Steps(parallelism: nat, before: State, ev: Event, st: State) {
    before.start <= before.taken && Enabled(parallelism, before, ev) && st == Apply(parallelism, before, ev)
  }

  lemma StepKeeps(parallelism: nat, st: State, ev: Event)
    requires Invariant(st) && Enabled(parallelism, st, ev) && st.start <= st.taken
    ensures Invariant(Apply(parallelism, st, ev))
  {
    hide Invariant, Apply, Enabled;
    match ev
    case Submit(r) => SubmitKeeps(parallelism, st, r);
    case Enqueue => EnqueueKeeps(parallelism, st);
    case Announce => AnnounceKeeps(parallelism, st);
    case Take => TakeKeeps(parallelism, st);
    case Finish(r) => FinishKeeps(parallelism, st, r);
    case Collect => CollectKeeps(parallelism, st);
    case Sort(order) => SortKeeps(parallelism, st, order);
    case Send => SendKeeps(parallelism, st);
    case Drain => DrainKeeps(parallelism, st);
  }

  lemma {:induction false} RunKeepsInvariant(parallelism: nat, events: seq<Event>, st: State)
    requires Reaches(parallelism, events, st)
    ensures Invariant(st)
    decreases |events|
  {
    if events == [] {
      assert st.results == [] + SentNow(st);
    } else {
      hide Invariant, Apply, Enabled;
      var init, ev := events[..|events| - 1], events[|events| - 1];
      var before :| Reaches(parallelism, init, before) && Steps(parallelism, before, ev, st);
      RunKeepsInvariant(parallelism, init, before);
      StepKeeps(parallelism, before, ev);
    }
  }

  /** What was sent of a batch is, for each stream, the beginning of that stream's part of it. */
  lemma SentIsPrefix(st: State, stream: int)
    requires Invariant(st)
    ensures Of(stream, SentNow(st)) <= Of(stream, Batch(st))
  {
    hide ByOffset, SameStreams, ResultsOk, Of, InLogOrder;
    if st.phase.Sending? {
      var Sending(sent, pending) := st.phase;
      PartInLogOrder(st.submitted, st.start, st.taken);
      SortKeepsStreams(Batch(st), sent + pending);
      StreamsAt(sent + pending, Batch(st), stream);
      OfConcat(stream, sent, pending);
    } else {
      OfNone(stream);
    }
  }

  lemma OfNone(stream: int)
    ensures Of(stream, []) == []
  {
  }

  lemma StreamsAt(a: seq<Request>, b: seq<Request>, stream: int)
    requires SameStreams(a, b)
    ensures Of(stream, a) == Of(stream, b)
  {
  }

  /** After every schedule, the results of each stream are the first ones of its log, in order. */
  lemma RunKeepsOrder(parallelism: nat, events: seq<Event>, st: State, stream: int)
    requires Reaches(parallelism, events, st)
    ensures Of(stream, st.results) <= Of(stream, st.submitted)
  {
    hide ByOffset, SameStreams, Reaches, BatchOk, Of, InLogOrder;
    RunKeepsInvariant(parallelism, events, st);
    SentIsPrefix(st, stream);
    var before := st.submitted[..st.start];
    var done :| st.results == done + SentNow(st) && multiset(done) == multiset(before) && SameStreams(done, before);
    StreamsAt(done, before, stream);
    OfConcat(stream, done, SentNow(st));
    OfConcat(stream, before, Batch(st));
    OfConcat(stream, before + Batch(st), st.submitted[st.taken..]);
    assert st.submitted == (before + Batch(st)) + st.submitted[st.taken..];
  }

  lemma DoneCounts(st: State)
    requires Invariant(st)
    ensures multiset(st.results) == multiset(st.submitted[..st.start]) + multiset(SentNow(st))
    ensures multiset(st.submitted[..st.taken]) == multiset(st.submitted[..st.start]) + multiset(Batch(st))
  {
    hide ByOffset, SameStreams, BatchOk, Of, InLogOrder;
    assert st.submitted[..st.taken] == st.submitted[..st.start] + Batch(st);
  }

  /** What the reducer holds. */
  function Held(st: State): multiset<Request> {
    match st.phase
    case Filling => multiset{}
    case Collecting(_, buf) => multiset(buf)
    case Sending(_, pending) => multiset(pending)
  }

  /** Nothing is lost or doubled: results and what is under way are the requests taken so far, each once. */
  lemma RunKeepsContent(parallelism: nat, events: seq<Event>, st: State)
    requires Reaches(parallelism, events, st)
    ensures st.taken <= |st.submitted| && multiset(st.submitted[..st.taken])
            == multiset(st.results) + InFlight(st) + Held(st)
  {
    hide ByOffset, SameStreams, Reaches, Of, InLogOrder, ResultsOk, InFlight;
    RunKeepsInvariant(parallelism, events, st);
    DoneCounts(st);
    if st.phase.Sending? { assert multiset(st.phase.sent + st.phase.pending)
      == multiset(st.phase.sent) + multiset(st.phase.pending); }
  }

  // ---------------------------------------------------------------- no schedule gets stuck

  /** Only batches with requests are announced. */
  ghost predicate HasBatch(st: State) {
    st.phase.Filling? || st.start < st.taken
  }

  /** All that was submitted has come out. */
  predicate IsDone(st: State) {
    st.phase.Filling? && st.start == st.taken == |st.submitted|
  }

  function PhaseRank(st: State): nat {
    match st.phase
    case Filling => 2
    case Collecting(_, _) => 1
    case Sending(_, _) => 0
  }

  function StepsLeft(st: State): int {
    match st.phase
    case Filling => |st.submitted| - st.taken
    case Collecting(_, _) => 3 * |st.queue| + 2 * |st.busy| + |st.mapped|
    case Sending(_, pending) => |pending|
  }

  lemma {:induction false} CanBeSorted(buf: seq<Request>) returns (order: seq<Request>)
    ensures multiset(order) == multiset(buf) && ByOffset(order)
  {
    if buf == [] {
      order := [];
    } else {
      var n := |buf| - 1;
      var init := CanBeSorted(buf[..n]);
      order := CanBePlaced(init, buf[n]);
      assert buf == buf[..n] + [buf[n]];
    }
  }

  lemma {:induction false} CanBePlaced(order: seq<Request>, r: Request) returns (now: seq<Request>)
    requires ByOffset(order)
    ensures multiset(now) == multiset(order) + multiset{r} && ByOffset(now)
    ensures forall x | x in now :: x == r || x in order
  {
    if order == [] || order[|order| - 1].offset <= r.offset {
      now := order + [r];
    } else {
      var n := |order| - 1;
      var init := CanBePlaced(order[..n], r);
      now := init + [order[n]];
      assert order == order[..n] + [order[n]];
      AppendLast(init, order[n]) by {
        forall x | x in init ensures x.offset <= order[n].offset { assert x == r || x in order[..n]; }
      }
    }
  }

  lemma AppendLast(init: seq<Request>, last: Request)
    requires ByOffset(init) && forall x | x in init :: x.offset <= last.offset
    ensures ByOffset(init + [last])
  {
    forall i | 0 <= i < |init| ensures init[i].offset <= last.offset { assert init[i] in init; }
  }

  /** If something is missing of a batch, a worker or a channel has it. */
  lemma SomethingMoves(st: State)
    requires Invariant(st) && st.phase.Collecting? && st.phase.missing > 0
    ensures st.mapped != [] || st.queue != [] || exists r :: r in st.busy
  {
    hide ResultsOk, InLogOrder;
    var flight, buf := InFlight(st), st.phase.buf;
    assert |multiset(buf)| == |buf| && |multiset(Batch(st))| == |Batch(st)|;
    assert |flight + multiset(buf)| == |flight| + |multiset(buf)|;
    assert |flight| == |st.queue| + |st.busy| + |st.mapped|;
    Inhabited(st.busy);
  }

  lemma Inhabited(bag: multiset<Request>)
    ensures |bag| == 0 || exists r :: r in bag
  {
    if |bag| != 0 {
      var r :| r in bag;
    }
  }

  /** A step that can be taken, and after which less is left to do. */
  lemma NextStep(parallelism: nat, st: State) returns (ev: Event)
    requires parallelism > 0 && Invariant(st) && HasBatch(st) && !IsDone(st)
    ensures Enabled(parallelism, st, ev) && !ev.Submit?
    ensures var now := Apply(parallelism, st, ev);
            && now.submitted == st.submitted && HasBatch(now)
            && (now.start > st.start || (now.start == st.start && (PhaseRank(now) < PhaseRank(st)
              || (PhaseRank(now) == PhaseRank(st) && 0 <= StepsLeft(now) < StepsLeft(st)))))
  {
    hide ResultsOk, InLogOrder, ByOffset, BatchOk;
    match st.phase
    case Filling => if st.start < st.taken { ev := Announce; } else { ev := Enqueue; }
    case Collecting(missing, buf) =>
      if missing == 0 {
        var order := CanBeSorted(buf);
        ev := Sort(order);
      } else {
        SomethingMoves(st);
        if st.mapped != [] {
          ev := Collect;
        } else if st.queue != [] {
          ev := Take;
        } else {
          var r :| r in st.busy;
          ev := Finish(r);
        }
      }
    case Sending(_, pending) => if pending == [] { ev := Drain; } else { ev := Send; }
  }

  lemma {:induction false} RunHasBatch(parallelism: nat, events: seq<Event>, st: State)
    requires Reaches(parallelism, events, st)
    ensures HasBatch(st)
    decreases |events|
  {
    if events != [] {
      var init, ev := events[..|events| - 1], events[|events| - 1];
      var before :| Reaches(parallelism, init, before) && Steps(parallelism, before, ev, st);
      RunHasBatch(parallelism, init, before);
    }
  }

  /** After every schedule there are further steps after which all that was submitted has come out, in order. */
  lemma {:induction false} CanFinish(parallelism: nat, events: seq<Event>, st: State)
    returns (more: seq<Event>, end: State)
    requires parallelism > 0 && Reaches(parallelism, events, st)
    ensures Reaches(parallelism, events + more, end) && end.submitted == st.submitted
    ensures forall stream :: Of(stream, end.results) == Of(stream, st.submitted)
    decreases |st.submitted| - st.start, PhaseRank(st), StepsLeft(st)
  {
    hide Invariant, Apply, Enabled, Of, Reaches;
    RunKeepsInvariant(parallelism, events, st);
    RunHasBatch(parallelism, events, st);
    if IsDone(st) {
      more, end := [], st;
      assert events + more == events;
      AllCameOut(st);
    } else {
      var ev := NextStep(parallelism, st);
      var now := Apply(parallelism, st, ev);
      Extends(parallelism, events, st, ev, now);
      StepKeeps(parallelism, st, ev);
      var rest;
      rest, end := CanFinish(parallelism, events + [ev], now);
      more := [ev] + rest;
      assert events + more == (events + [ev]) + rest;
    }
  }

  lemma Extends(parallelism: nat, events: seq<Event>, st: State, ev: Event, now: State)
    requires Reaches(parallelism, events, st) && Steps(parallelism, st, ev, now)
    ensures Reaches(parallelism, events + [ev], now)
  {
    hide Steps;
    var all := events + [ev];
    assert all[..|all| - 1] == events && all[|all| - 1] == ev;
  }

  lemma AllCameOut(st: State)
    requires Invariant(st) && IsDone(st)
    ensures forall stream :: Of(stream, st.results) == Of(stream, st.submitted)
  {
    hide BatchOk, InLogOrder, Of;
    assert st.submitted[..st.start] == st.submitted;
    var done :| st.results == done + SentNow(st) && multiset(done) == multiset(st.submitted[..st.start])
      && SameStreams(done, st.submitted[..st.start]);
    assert done + [] == done;
    forall stream ensures Of(stream, st.results) == Of(stream, st.submitted) { StreamsAt(done, st.submitted, stream); }
  }
}
