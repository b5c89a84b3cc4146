/**
 * The follow protocol (cluster_follow.go, server/server.go).
 *
 * A leader reads its log and sends entries to followers, remembering for every
 * table of every follower how far it got.  Connections break, followers rejoin
 * and entries are sent again; a follower's table takes an entry only if it is
 * later than the last one it took.  Over every interleaving, each table takes
 * entries in strictly increasing order and misses none that it should have
 * between where it joined and where it is (`RunKeepsInvariant`).  Followers are only
 * sent what some table of theirs should have (`RunIsEconomical`), and those that
 * join and stay connected can get all of it (`CanCatchUp`).
 */
module Following {
  import opened Wrappers
  import Accumulators

  type Dims = Accumulators.Dims

  /** A table of a follower. */
  datatype Spec = Spec(follower: int, table: nat)

  /**
   * Which entries concern which tables: the entry is in the follower's partition
   * for the table's partition keys, and passes the table's WHERE clause.  Each
   * follower has a number of tables, and the log so many entries.
   */
  datatype Config = Config(inPartition: (Spec, nat) -> bool, passes: (Spec, nat) -> bool, tables: map<int, nat>,
    entries: nat)

  function Matches(cfg: Config, s: Spec, o: nat): bool {
    cfg.inPartition(s, o) && cfg.passes(s, o)
  }

  /** The leader's end of a connection; the frontier is how far it was read since the follower joined. */
  datatype Link = Link(connected: bool, queue: seq<nat>, frontier: nat)

  /**
   * The follower's end: how far each table is, from where on it follows, and,
   * for the record, what each table took and where it joined.
   */
  datatype Side = Side(offsets: seq<nat>, earliest: nat, received: seq<seq<nat>>, joined: seq<nat>)

  datatype Net = Net(specs: map<Spec, nat>, cursor: nat, links: map<int, Link>, sides: map<int, Side>)

  function Max(a: nat, b: nat): nat {
    if a < b then b else a
  }

  // ---------------------------------------------------------------- joining

  /** The earliest offset of any table of any follower. */
  ghost predicate IsEarliest(specs: map<Spec, nat>, e: nat) {
    (forall s | s in specs :: e <= specs[s]) && (specs != map[] ==> exists s :: s in specs && specs[s] == e)
  }

  /** Where the log has to be read from again. */
  method EarliestOffset(specs: map<Spec, nat>) returns (e: nat)
    ensures IsEarliest(specs, e)
  {
    var left := specs.Keys;
    var hasOffset := false;
    e := 0;
    while left != {}
      invariant left <= specs.Keys && (hasOffset <==> left != specs.Keys)
      invariant forall s | s in specs && s !in left :: e <= specs[s]
      invariant hasOffset ==> exists s :: s in specs && specs[s] == e
      decreases left
    {
      var s :| s in left;
      if !hasOffset || e > specs[s] {
        e, hasOffset := specs[s], true;
      }
      left := left - {s};
    }
    if specs != map[] { assert specs.Keys != {}; }
  }

  /**
   * The tables of a joining follower start at what they reported or, if that is
   * later, at the earliest offset asked for.
   */
  function JoinedSpecs(specs: map<Spec, nat>, f: int, reported: seq<nat>, earliest: nat): map<Spec, nat> {
    map s | s in specs.Keys + (set i | 0 <= i < |reported| :: Spec(f, i)) ::
      if s.follower == f && s.table < |reported| then Max(reported[s.table], earliest) else specs[s]
  }

  method JoinSpecs(specs: map<Spec, nat>, f: int, reported: seq<nat>, earliest: nat) returns (r: map<Spec, nat>)
    ensures r == JoinedSpecs(specs, f, reported, earliest)
    ensures forall i | 0 <= i < |reported| ::
              && Spec(f, i) in r && reported[i] <= r[Spec(f, i)] && earliest <= r[Spec(f, i)]
              && r[Spec(f, i)] in {reported[i], earliest}
    ensures forall s: Spec | s.follower != f || s.table >= |reported| ::
              if s in specs then s in r && r[s] == specs[s] else s !in r
  {
    r := specs;
    for i := 0 to |reported|
      invariant r.Keys == specs.Keys + (set k | 0 <= k < i :: Spec(f, k))
      invariant forall s | s in r :: r[s] == if s.follower == f
        && s.table < i then Max(reported[s.table], earliest) else specs[s]
    {
      var offset := reported[i];
      if earliest > offset { offset := earliest; }
      r := r[Spec(f, i) := offset];
    }
  }

  // ---------------------------------------------------------------- dispatching

  /** The tables an entry is new for move on to it, whether or not it passes their WHERE clause. */
  function DispatchedSpecs(cfg: Config, specs: map<Spec, nat>, o: nat): map<Spec, nat> {
    map s | s in specs :: if cfg.inPartition(s, o) && o > specs[s] then o else specs[s]
  }

  predicate Includes(cfg: Config, specs: map<Spec, nat>, s: Spec, o: nat) {
    s in specs && Matches(cfg, s, o) && o > specs[s]
  }

  /** How often an entry is sent to a follower: once for each of its first n tables that it is for. */
  function Copies(cfg: Config, specs: map<Spec, nat>, f: int, n: nat, o: nat): nat {
    if n == 0 then 0 else Copies(cfg, specs, f, n - 1, o) + if Includes(cfg, specs, Spec(f, n - 1), o) then 1 else 0
  }

  /** The tables, of a follower's first n, that an entry matches and is new for. */
  function NewFor(cfg: Config, specs: map<Spec, nat>, f: int, n: nat, o: nat): set<nat> {
    set i: nat | i < n && Spec(f, i) in specs && cfg.inPartition(Spec(f, i), o) && cfg.passes(Spec(f, i), o)
      && specs[Spec(f, i)] < o
  }

  lemma {:induction false} CopiesCount(cfg: Config, specs: map<Spec, nat>, f: int, n: nat, o: nat)
    ensures Copies(cfg, specs, f, n, o) == |NewFor(cfg, specs, f, n, o)|
  {
    if n == 0 {
      assert NewFor(cfg, specs, f, 0, o) == {};
    } else {
      CopiesCount(cfg, specs, f, n - 1, o);
      var before := NewFor(cfg, specs, f, n - 1, o);
      assert NewFor(cfg, specs, f, n, o) == before + (if Includes(cfg, specs, Spec(f, n - 1), o) then {n - 1} else {});
    }
  }

  function Tables(cfg: Config, f: int): nat {
    if f in cfg.tables then cfg.tables[f] else 0
  }

  function Sent(cfg: Config, net: Net, f: int, o: nat): seq<nat> {
    seq(Copies(cfg, net.specs, f, Tables(cfg, f), o), _ => o)
  }

  // ---------------------------------------------------------------- delivering

  /** The first k tables of a follower are given an entry. */
  function Given(side: Side, o: nat, k: nat): (r: Side)
    requires |side.offsets| == |side.received|
    ensures |r.offsets| == |side.offsets| && |r.received| == |side.received|
  {
    side.(offsets := seq(|side.offsets|, i requires 0 <= i < |side.offsets| =>
                       if i < k && o > side.offsets[i] then o else side.offsets[i]),
          received := seq(|side.received|, i requires 0 <= i < |side.received| =>
                       if i < k && o > side.offsets[i] then side.received[i] + [o] else side.received[i]))
  }

  /** The callback of doFollowLeaders: gives an entry to the tables in turn, until it is cancelled. */
  method Give(side: Side, o: nat, k: nat) returns (r: Side)
    requires |side.offsets| == |side.received| && k <= |side.offsets|
    ensures r == Given(side, o, k)
  {
    var offsets, received := side.offsets, side.received;
    for i := 0 to k
      invariant |offsets| == |side.offsets| && |received| == |side.received|
      invariant forall j | 0 <= j < |offsets| ::
        && offsets[j] == (if j < i && o > side.offsets[j] then o else side.offsets[j])
        && received[j] == (if j < i && o > side.offsets[j] then side.received[j] + [o] else side.received[j])
    {
      var priorOffset := offsets[i];
      if o > priorOffset {
        received := received[i := received[i] + [o]];
        offsets := offsets[i := o];
      }
    }
    r := side.(offsets := offsets, received := received);
    assert r.offsets == Given(side, o, k).offsets && r.received == Given(side, o, k).received;
  }

  // ---------------------------------------------------------------- steps

  /**
   * Joining reports, for each table, an offset no later than where it is; the
   * leader then reads again from an earliest offset of all tables.  A delivery
   * may be interrupted after some tables, which breaks the connection.
   */
  datatype Event =
    | Join(follower: int, reported: seq<nat>, cursor: nat)
    | Dispatch
    | Deliver(follower: int)
    | Interrupt(follower: int, after: nat)
    | Disconnect(follower: int)

  predicate Fits(cfg: Config, net: Net) {
    && net.sides.Keys == cfg.tables.Keys == net.links.Keys
    && forall f | f in cfg.tables ::
         |net.sides[f].offsets| == |net.sides[f].received| == |net.sides[f].joined| == cfg.tables[f]
  }

  ghost predicate Enabled(cfg: Config, net: Net, ev: Event)
    requires Fits(cfg, net)
  {
    match ev
    case Join(f, reported, cursor) =>
      && f in cfg.tables && |reported| == cfg.tables[f]
      && (forall i | 0 <= i < |reported| :: reported[i] <= net.sides[f].offsets[i])
      && IsEarliest(JoinedSpecs(net.specs, f, reported, net.sides[f].earliest), cursor)
    case Dispatch => net.cursor < cfg.entries
    case Deliver(f) => f in cfg.tables && net.links[f].connected && net.links[f].queue != []
    case Interrupt(f, k) => f in cfg.tables && net.links[f].connected && net.links[f].queue != [] && k <= cfg.tables[f]
    case Disconnect(f) => f in cfg.tables
  }

  /** Reading again from the cursor on leaves out what nobody needs any more. */
  function Skipped(link: Link, cursor: nat): Link {
    link.(frontier := Max(link.frontier, cursor))
  }

  function Broken(link: Link): Link {
    Link(false, [], link.frontier)
  }

  /** A connected follower is sent the entry; its end of the log is read at least that far. */
  function DispatchedLink(cfg: Config, net: Net, f: int, o: nat): Link
    requires f in net.links
  {
    var link := net.links[f];
    if link.connected then Link(true, link.queue + Sent(cfg, net, f, o), Max(link.frontier, o)) else link
  }

  function Apply(cfg: Config, net: Net, ev: Event): (r: Net)
    requires Fits(cfg, net)
    requires ev.Deliver? || ev.Interrupt? ==> ev.follower in cfg.tables && net.links[ev.follower].queue != []
    requires ev.Join? || ev.Disconnect? ==> ev.follower in cfg.tables
    ensures Fits(cfg, r)
  {
    match ev
    case Join(f, reported, cursor) =>
      net.(specs := JoinedSpecs(net.specs, f, reported, net.sides[f].earliest), cursor := cursor,
           links := map g | g in net.links :: if g == f then Link(true, [], cursor) else Skipped(net.links[g], cursor))
    case Dispatch =>
      var o := net.cursor + 1;
      net.(specs := DispatchedSpecs(cfg, net.specs, o), cursor := o,
           links := map f | f in net.links :: DispatchedLink(cfg, net, f, o))
    case Deliver(f) =>
      var link, side := net.links[f], net.sides[f];
      net.(links := net.links[f := link.(queue := link.queue[1..])],
           sides := net.sides[f := Given(side, link.queue[0], |side.offsets|).(earliest := link.queue[0])])
    case Interrupt(f, k) =>
      net.(links := net.links[f := Broken(net.links[f])],
        sides := net.sides[f := Given(net.sides[f], net.links[f].queue[0], k)])
    case Disconnect(f) => net.(links := net.links[f := Broken(net.links[f])])
  }

  // ---------------------------------------------------------------- invariant

  predicate Increasing(xs: seq<nat>) {
    forall i, j | 0 <= i < j < |xs| :: xs[i] < xs[j]
  }

  predicate Sorted(xs: seq<nat>) {
    forall i, j | 0 <= i < j < |xs| :: xs[i] <= xs[j]
  }

  /** Where a table is, or where it joined if it has taken nothing since. */
  function Reached(side: Side, i: nat): nat
    requires i < |side.offsets| == |side.joined|
  {
    Max(side.offsets[i], side.joined[i])
  }

  /** A table took entries in order, and every one it should have between where it joined and where it is. */
  ghost predicate TableOk(cfg: Config, side: Side, s: Spec)
    requires s.table < |side.offsets| == |side.received| == |side.joined|
  {
    var i := s.table;
    && Increasing(side.received[i])
    && (forall o | o in side.received[i] :: o <= side.offsets[i])
    && (forall o: nat | Matches(cfg, s, o) && side.joined[i] < o <= side.offsets[i] :: o in side.received[i])
    && side.earliest <= Reached(side, i)
  }

  /** While connected: what a table should have been sent since is queued. */
  ghost predicate LinkOk(cfg: Config, net: Net, s: Spec)
    requires Fits(cfg, net) && s.follower in cfg.tables && s.table < cfg.tables[s.follower]
  {
    var link, side := net.links[s.follower], net.sides[s.follower];
    && s in net.specs
    && (forall o: nat | Matches(cfg, s, o) && o <= link.frontier :: o <= net.specs[s])
    && (forall o: nat | Matches(cfg, s, o) && Reached(side, s.table) < o <= net.specs[s] :: o in link.queue)
  }

  predicate QueueOk(net: Net, f: int)
    requires f in net.links
  {
    var link := net.links[f];
    net.cursor <= link.frontier && Sorted(link.queue) && forall o | o in link.queue :: o <= link.frontier
  }

  predicate IsTable(cfg: Config, s: Spec) {
    s.follower in cfg.tables && s.table < cfg.tables[s.follower]
  }

  ghost predicate Invariant(cfg: Config, net: Net) {
    && Fits(cfg, net)
    && (forall s | IsTable(cfg, s) :: TableOk(cfg, net.sides[s.follower], s))
    && (forall s | IsTable(cfg, s) && net.links[s.follower].connected :: LinkOk(cfg, net, s))
    && (forall f | f in net.links && net.links[f].connected :: QueueOk(net, f))
  }

  // ---------------------------------------------------------------- steps keep the invariant

  lemma Appended(xs: seq<nat>, h: nat)
    requires Increasing(xs) && forall x | x in xs :: x < h
    ensures Increasing(xs + [h])
  {
    forall i | 0 <= i < |xs| ensures xs[i] < h { assert xs[i] in xs; }
  }

  /** A table that is given the head of the queue misses nothing before it. */
  lemma GivenTable(cfg: Config, net: Net, s: Spec, k: nat)
    requires Invariant(cfg, net) && IsTable(cfg, s) && net.links[s.follower].connected
             && net.links[s.follower].queue != []
    ensures var side := net.sides[s.follower];
            var r := Given(side, net.links[s.follower].queue[0], k);
            && TableOk(cfg, r, s) && Reached(side, s.table) <= Reached(r, s.table)
            && (s.table < k ==> net.links[s.follower].queue[0] <= Reached(r, s.table))
  {
    var link, side := net.links[s.follower], net.sides[s.follower];
    var i, h := s.table, link.queue[0];
    var r := Given(side, h, k);
    assert TableOk(cfg, side, s) && LinkOk(cfg, net, s) && QueueOk(net, s.follower);
    if i < k && h > side.offsets[i] {
      assert r.received[i] == side.received[i] + [h];
      Appended(side.received[i], h);
      forall o: nat | Matches(cfg, s, o) && r.joined[i] < o <= r.offsets[i] ensures o in r.received[i] {
        if o > side.offsets[i] {
          assert h in link.queue;
          assert o <= net.specs[s];
          assert o in link.queue;
          assert h <= o;
        }
      }
    }
  }

  lemma DeliverKeeps(cfg: Config, net: Net, f: int)
    requires Invariant(cfg, net) && Enabled(cfg, net, Deliver(f))
    ensures Invariant(cfg, Apply(cfg, net, Deliver(f)))
  {
    var now := Apply(cfg, net, Deliver(f));
    var link, side := net.links[f], net.sides[f];
    var h, r := link.queue[0], Given(side, link.queue[0], |side.offsets|);
    forall s | IsTable(cfg, s) ensures TableOk(cfg, now.sides[s.follower], s) {
      assert TableOk(cfg, net.sides[s.follower], s);
      if s.follower == f { GivenTable(cfg, net, s, |side.offsets|); }
    }
    forall s | IsTable(cfg, s) && now.links[s.follower].connected ensures LinkOk(cfg, now, s) {
      assert LinkOk(cfg, net, s);
      if s.follower == f { GivenTable(cfg, net, s, |side.offsets|); }
    }
    assert forall o | o in link.queue[1..] :: o in link.queue;
    forall g | g in now.links && now.links[g].connected ensures QueueOk(now, g) {
      assert QueueOk(net, g);
    }
  }

  lemma InterruptKeeps(cfg: Config, net: Net, f: int, k: nat)
    requires Invariant(cfg, net) && Enabled(cfg, net, Interrupt(f, k))
    ensures Invariant(cfg, Apply(cfg, net, Interrupt(f, k)))
  {
    var now := Apply(cfg, net, Interrupt(f, k));
    forall s | IsTable(cfg, s) ensures TableOk(cfg, now.sides[s.follower], s) {
      assert TableOk(cfg, net.sides[s.follower], s);
      if s.follower == f { GivenTable(cfg, net, s, k); }
    }
    forall s | IsTable(cfg, s) && now.links[s.follower].connected
      ensures LinkOk(cfg, now, s)
    {
      assert LinkOk(cfg, net, s);
    }
    forall g | g in now.links && now.links[g].connected ensures QueueOk(now, g) { assert QueueOk(net, g); }
  }

  lemma DisconnectKeeps(cfg: Config, net: Net, f: int)
    requires Invariant(cfg, net) && f in cfg.tables
    ensures Invariant(cfg, Apply(cfg, net, Disconnect(f)))
  {
    var now := Apply(cfg, net, Disconnect(f));
    forall s | IsTable(cfg, s) && now.links[s.follower].connected
      ensures LinkOk(cfg, now, s)
    {
      assert LinkOk(cfg, net, s);
    }
    forall g | g in now.links && now.links[g].connected ensures QueueOk(now, g) { assert QueueOk(net, g); }
  }

  lemma JoinKeeps(cfg: Config, net: Net, f: int, reported: seq<nat>, cursor: nat)
    requires Invariant(cfg, net) && Enabled(cfg, net, Join(f, reported, cursor))
    ensures Invariant(cfg, Apply(cfg, net, Join(f, reported, cursor)))
  {
    var now := Apply(cfg, net, Join(f, reported, cursor));
    var side := net.sides[f];
    forall s | IsTable(cfg, s) && now.links[s.follower].connected ensures LinkOk(cfg, now, s) {
      if s.follower == f {
        assert TableOk(cfg, side, s);
        assert now.specs[s] == Max(reported[s.table], side.earliest);
      } else {
        assert LinkOk(cfg, net, s);
        assert now.specs[s] == net.specs[s];
      }
    }
    forall g | g in now.links && now.links[g].connected ensures QueueOk(now, g) {
      if g != f { assert QueueOk(net, g); }
    }
  }

  /** What was sent is the entry, as often as there are tables it is for. */
  lemma {:induction false} SentIncludes(cfg: Config, specs: map<Spec, nat>, f: int, n: nat, o: nat, i: nat)
    requires i < n && Includes(cfg, specs, Spec(f, i), o)
    ensures Copies(cfg, specs, f, n, o) > 0
  {
    if i < n - 1 { SentIncludes(cfg, specs, f, n - 1, o, i); }
  }

  lemma {:induction false} SentNeeds(cfg: Config, specs: map<Spec, nat>, f: int, n: nat, o: nat) returns (i: nat)
    requires Copies(cfg, specs, f, n, o) > 0
    ensures i < n && Includes(cfg, specs, Spec(f, i), o)
  {
    if Includes(cfg, specs, Spec(f, n - 1), o) { i := n - 1; } else { i := SentNeeds(cfg, specs, f, n - 1, o); }
  }

  lemma DispatchedTable(cfg: Config, net: Net, s: Spec)
    requires Invariant(cfg, net) && Enabled(cfg, net, Dispatch) && IsTable(cfg, s) && net.links[s.follower].connected
    ensures LinkOk(cfg, Apply(cfg, net, Dispatch), s)
  {
    hide TableOk;
    var now, o := Apply(cfg, net, Dispatch), net.cursor + 1;
    var link, f := net.links[s.follower], s.follower;
    assert LinkOk(cfg, net, s) && QueueOk(net, f);
    if Includes(cfg, net.specs, s, o) {
      SentIncludes(cfg, net.specs, f, Tables(cfg, f), o, s.table);
      assert Sent(cfg, net, f, o)[0] == o;
      assert o in now.links[f].queue;
    }
  }

  lemma DispatchedQueue(cfg: Config, net: Net, f: int)
    requires Invariant(cfg, net) && Enabled(cfg, net, Dispatch) && f in net.links && net.links[f].connected
    ensures QueueOk(Apply(cfg, net, Dispatch), f)
  {
    hide TableOk;
    var link, o := net.links[f], net.cursor + 1;
    assert QueueOk(net, f);
    if Copies(cfg, net.specs, f, Tables(cfg, f), o) > 0 {
      var i := SentNeeds(cfg, net.specs, f, Tables(cfg, f), o);
      assert LinkOk(cfg, net, Spec(f, i));
      assert o > link.frontier;
      QueueGrows(link.queue, link.frontier, o, Sent(cfg, net, f, o));
    } else {
      assert link.queue + Sent(cfg, net, f, o) == link.queue;
    }
  }

  lemma QueueGrows(queue: seq<nat>, frontier: nat, o: nat, more: seq<nat>)
    requires Sorted(queue) && (forall x | x in queue :: x <= frontier) && frontier < o && forall x | x in more :: x == o
    ensures Sorted(queue + more) && forall x | x in queue + more :: x <= o
  {
    var r := queue + more;
    forall i | 0 <= i < |r| ensures r[i] <= o && (i < |queue| ==> r[i] == queue[i] <= frontier)
      && (i >= |queue| ==> r[i] == o) {
      if i < |queue| { assert queue[i] in queue; } else { assert more[i - |queue|] in more; }
    }
  }

  lemma DispatchKeeps(cfg: Config, net: Net)
    requires Invariant(cfg, net) && Enabled(cfg, net, Dispatch)
    ensures Invariant(cfg, Apply(cfg, net, Dispatch))
  {
    hide TableOk, LinkOk, QueueOk, Sent;
    var now := Apply(cfg, net, Dispatch);
    forall s | IsTable(cfg, s) && now.links[s.follower].connected
      ensures LinkOk(cfg, now, s)
    {
      DispatchedTable(cfg, net, s);
    }
    forall f | f in now.links && now.links[f].connected ensures QueueOk(now, f) { DispatchedQueue(cfg, net, f); }
  }

  // ---------------------------------------------------------------- the leader's event loop

  /** processFollowers: the specs of all tables, and the queues of the connected followers. */
  class Leader {
    const cfg: Config
    var specs: map<Spec, nat>
    var cursor: nat
    var queues: map<int, seq<nat>>

    constructor (cfg: Config)
      ensures this.cfg == cfg && specs == map[] && queues == map[]
    {
      this.cfg, specs, cursor, queues := cfg, map[], 0, map[];
    }

    /** The leader's part of a state of the protocol. */
    ghost predicate Plays(net: Net)
      reads this
    {
      && Fits(cfg, net) && specs == net.specs && cursor == net.cursor
      && queues.Keys == (set f | f in net.links && net.links[f].connected)
      && forall f | f in queues :: queues[f] == net.links[f].queue
    }

    /** A follower joins: its specs are set, its queue is new, and the log is read from the earliest spec on. */
    method OnFollowerJoined(f: int, reported: seq<nat>, earliest: nat, ghost net: Net)
      requires Plays(net) && f in cfg.tables && |reported| == cfg.tables[f] && earliest == net.sides[f].earliest
      requires forall i | 0 <= i < |reported| :: reported[i] <= net.sides[f].offsets[i]
      modifies this
      ensures Enabled(cfg, net, Join(f, reported, cursor)) && Plays(Apply(cfg, net, Join(f, reported, cursor)))
    {
      hide JoinedSpecs, IsEarliest;
      specs := JoinSpecs(specs, f, reported, earliest);
      queues := queues[f := []];
      cursor := EarliestOffset(specs);
    }

    /** How an entry is queued for a follower: once for each table that it is new for and matches. */
    method Included(f: int, o: nat) returns (sent: seq<nat>)
      ensures sent == seq(Copies(cfg, specs, f, Tables(cfg, f), o), _ => o)
      ensures |sent| == |NewFor(cfg, specs, f, Tables(cfg, f), o)| && forall x | x in sent :: x == o
    {
      sent := [];
      for i := 0 to Tables(cfg, f)
        invariant sent == seq(Copies(cfg, specs, f, i, o), _ => o)
      {
        var s := Spec(f, i);
        if s in specs && cfg.inPartition(s, o) && cfg.passes(s, o) && o > specs[s] { sent := sent + [o]; }
      }
      CopiesCount(cfg, specs, f, Tables(cfg, f), o);
    }

    /** Submits an entry to the followers that are connected. */
    method Submit(followers: seq<int>, o: nat, ghost net: Net)
      requires specs == net.specs && forall i, j | 0 <= i < j < |followers| :: followers[i] != followers[j]
      modifies `queues
      ensures queues.Keys == old(queues).Keys
      ensures forall f | f in queues :: queues[f] == if f in followers then old(queues)[f] + Sent(cfg, net, f, o)
              else old(queues)[f]
    {
      hide Copies, Sent;
      ghost var was := queues;
      for k := 0 to |followers|
        invariant queues.Keys == was.Keys
        invariant forall f | f in queues :: queues[f] == if f in followers[..k] then was[f] + Sent(cfg, net, f, o)
          else was[f]
      {
        var f := followers[k];
        if f in queues {
          var sent := Included(f, o);
          SentIs(cfg, net, f, o, sent);
          queues := queues[f := queues[f] + sent];
        }
      }
      assert followers[..|followers|] == followers;
    }

    /** The next entry of the log comes out of the pipeline. */
    method OnResult(followers: seq<int>, ghost net: Net)
      requires Plays(net) && net.cursor < cfg.entries
      requires (forall f :: f in followers <==> f in cfg.tables)
               && forall i, j | 0 <= i < j < |followers| :: followers[i] != followers[j]
      modifies this
      ensures Plays(Apply(cfg, net, Dispatch))
    {
      hide Copies, Sent, DispatchedSpecs;
      var o := cursor + 1;
      Submit(followers, o, net);
      specs := Moved(specs, o);
      cursor := o;
    }

    /** All specs that an entry is new for move on to it. */
    method Moved(specs: map<Spec, nat>, o: nat) returns (r: map<Spec, nat>)
      ensures r == DispatchedSpecs(cfg, specs, o)
    {
      r := specs;
      var left := specs.Keys;
      while left != {}
        invariant left <= specs.Keys == r.Keys
        invariant forall s | s in specs :: r[s] == if s !in left && cfg.inPartition(s, o)
          && o > specs[s] then o else specs[s]
        decreases left
      {
        var s :| s in left;
        if cfg.inPartition(s, o) && o > specs[s] { r := r[s := o]; }
        left := left - {s};
      }
    }
  }

  lemma SentIs(cfg: Config, net: Net, f: int, o: nat, sent: seq<nat>)
    requires sent == seq(Copies(cfg, net.specs, f, Tables(cfg, f), o), _ => o)
    ensures sent == Sent(cfg, net, f, o)
  {
  }

  // ---------------------------------------------------------------- runs

  /**
   * Followers that have not been connected yet; each table joins where it is, or at
   * the earliest offset it asks for.
   */
  ghost predicate Initial(cfg: Config, net: Net) {
    && Fits(cfg, net) && net.specs == map[]
    && (forall f | f in net.links :: !net.links[f].connected)
    && forall s | IsTable(cfg, s) ::
         var side := net.sides[s.follower];
         side.received[s.table] == [] && side.joined[s.table] == Max(side.offsets[s.table], side.earliest)
  }

  ghost predicate Reaches(cfg: Config, events: seq<Event>, start: Net, net: Net)
    decreases |events|
  {
    if events == [] then net == start
    else
      var init, last := events[..|events| - 1], events[|events| - 1];
      exists before :: Reaches(cfg, init, start, before) && Steps(cfg, before, last, net)
  }

  ghost predicate Steps(cfg: Config, before: Net, ev: Event, net: Net) {
    Fits(cfg, before) && Enabled(cfg, before, ev) && net == Apply(cfg, before, ev)
  }

  lemma StepKeeps(cfg: Config, net: Net, ev: Event)
    requires Invariant(cfg, net) && Enabled(cfg, net, ev)
    ensures Invariant(cfg, Apply(cfg, net, ev))
  {
    match ev
    case Join(f, reported, cursor) => JoinKeeps(cfg, net, f, reported, cursor);
    case Dispatch => DispatchKeeps(cfg, net);
    case Deliver(f) => DeliverKeeps(cfg, net, f);
    case Interrupt(f, k) => InterruptKeeps(cfg, net, f, k);
    case Disconnect(f) => DisconnectKeeps(cfg, net, f);
  }

  /** Over every interleaving, tables take entries in order and miss none. */
  lemma {:induction false} RunKeepsInvariant(cfg: Config, events: seq<Event>, start: Net, net: Net)
    requires Initial(cfg, start) && Reaches(cfg, events, start, net)
    ensures Invariant(cfg, net)
    decreases |events|
  {
    if events != [] {
      hide Invariant, Apply, Enabled;
      var init, ev := events[..|events| - 1], events[|events| - 1];
      var before :| Reaches(cfg, init, start, before) && Steps(cfg, before, ev, net);
      RunKeepsInvariant(cfg, init, start, before);
      StepKeeps(cfg, before, ev);
    }
  }

  // ---------------------------------------------------------------- nothing is sent in vain

  /** Some table of the follower should have the entry. */
  predicate Wanted(cfg: Config, f: int, o: nat) {
    exists j :: 0 <= j < Tables(cfg, f) && Matches(cfg, Spec(f, j), o)
  }

  /** What the tables of a follower took was for one of them. */
  predicate TookWanted(cfg: Config, net: Net, f: int)
    requires Fits(cfg, net) && f in cfg.tables
  {
    forall i, o | 0 <= i < cfg.tables[f] && o in net.sides[f].received[i] :: Wanted(cfg, f, o)
  }

  /** What is queued is for one of the tables, and not from before the last entry that all of them were given. */
  predicate QueuedWanted(cfg: Config, net: Net, f: int)
    requires Fits(cfg, net) && f in cfg.tables
  {
    var link, side := net.links[f], net.sides[f];
    && (forall o | o in link.queue :: Wanted(cfg, f, o) && side.earliest <= o)
    && (side.earliest <= link.frontier || forall i | 0 <= i < cfg.tables[f] ::
         Spec(f, i) in net.specs && side.earliest <= net.specs[Spec(f, i)])
  }

  ghost predicate Economical(cfg: Config, net: Net) {
    && Fits(cfg, net)
    && (forall f | f in cfg.tables :: TookWanted(cfg, net, f))
    && (forall f | f in cfg.tables && net.links[f].connected :: QueuedWanted(cfg, net, f))
  }

  lemma DispatchWanted(cfg: Config, net: Net, f: int)
    requires Invariant(cfg, net) && Enabled(cfg, net, Dispatch) && f in cfg.tables && net.links[f].connected
    requires QueuedWanted(cfg, net, f)
    ensures QueuedWanted(cfg, Apply(cfg, net, Dispatch), f)
  {
    hide TableOk, Wanted;
    var link, side, o := net.links[f], net.sides[f], net.cursor + 1;
    if Copies(cfg, net.specs, f, Tables(cfg, f), o) > 0 {
      var i := SentNeeds(cfg, net.specs, f, Tables(cfg, f), o);
      assert LinkOk(cfg, net, Spec(f, i));
      assert o > link.frontier;
      assert Wanted(cfg, f, o) by { assert Matches(cfg, Spec(f, i), o); WantedBy(cfg, f, i, o); }
      forall x | x in link.queue + Sent(cfg, net, f, o) ensures x in link.queue || x == o {}
    } else {
      assert link.queue + Sent(cfg, net, f, o) == link.queue;
    }
  }

  lemma WantedBy(cfg: Config, f: int, i: nat, o: nat)
    requires i < Tables(cfg, f) && Matches(cfg, Spec(f, i), o)
    ensures Wanted(cfg, f, o)
  {
  }

  lemma GivenWanted(cfg: Config, net: Net, f: int, k: nat)
    requires Fits(cfg, net) && f in cfg.tables && net.links[f].queue != [] && TookWanted(cfg, net, f)
    requires QueuedWanted(cfg, net, f)
    ensures var side := Given(net.sides[f], net.links[f].queue[0], k);
            forall i, o | 0 <= i < cfg.tables[f] && o in side.received[i] :: Wanted(cfg, f, o)
  {
    hide Wanted;
    assert net.links[f].queue[0] in net.links[f].queue;
  }

  lemma DeliverWanted(cfg: Config, net: Net, f: int)
    requires Invariant(cfg, net) && Enabled(cfg, net, Deliver(f)) && QueuedWanted(cfg, net, f)
    ensures QueuedWanted(cfg, Apply(cfg, net, Deliver(f)), f)
  {
    hide TableOk, LinkOk, Wanted;
    var queue := net.links[f].queue;
    assert QueueOk(net, f);
    assert queue[0] in queue;
    forall o | o in queue[1..] ensures o in queue && queue[0] <= o {
      var i :| 0 <= i < |queue| - 1 && queue[1..][i] == o;
      assert queue[i + 1] == o;
    }
  }

  lemma JoinIsEconomical(cfg: Config, net: Net, f: int, reported: seq<nat>, cursor: nat)
    requires Economical(cfg, net) && Enabled(cfg, net, Join(f, reported, cursor))
    ensures Economical(cfg, Apply(cfg, net, Join(f, reported, cursor)))
  {
    hide Wanted, IsEarliest, TookWanted;
    var now := Apply(cfg, net, Join(f, reported, cursor));
    SameTakings(cfg, net, now);
    assert QueuedWanted(cfg, now, f);
    forall g | g in cfg.tables && g != f && net.links[g].connected ensures QueuedWanted(cfg, now, g) {
      assert QueuedWanted(cfg, net, g);
    }
  }

  lemma SameTakings(cfg: Config, net: Net, now: Net)
    requires Fits(cfg, net) && Fits(cfg, now) && now.sides == net.sides
    ensures forall f | f in cfg.tables :: TookWanted(cfg, net, f) == TookWanted(cfg, now, f)
  {
    hide Wanted;
  }

  lemma DispatchIsEconomical(cfg: Config, net: Net)
    requires Invariant(cfg, net) && Enabled(cfg, net, Dispatch) && Economical(cfg, net)
    ensures Economical(cfg, Apply(cfg, net, Dispatch))
  {
    hide TableOk, LinkOk, QueueOk, Wanted, Sent, DispatchedSpecs, TookWanted, QueuedWanted;
    var now := Apply(cfg, net, Dispatch);
    SameTakings(cfg, net, now);
    forall f | f in cfg.tables && now.links[f].connected ensures QueuedWanted(cfg, now, f) {
      DispatchWanted(cfg, net, f);
    }
  }

  /** A step that concerns one follower only. */
  lemma OthersStay(cfg: Config, net: Net, now: Net, f: int)
    requires Economical(cfg, net) && Fits(cfg, now) && f in cfg.tables && now.specs == net.specs
    requires forall g | g in cfg.tables && g != f :: now.links[g] == net.links[g] && now.sides[g] == net.sides[g]
    requires TookWanted(cfg, now, f) && (now.links[f].connected ==> QueuedWanted(cfg, now, f))
    ensures Economical(cfg, now)
  {
    hide Wanted;
    forall g | g in cfg.tables && g != f ensures TookWanted(cfg, now, g) { assert TookWanted(cfg, net, g); }
    forall g | g in cfg.tables && g != f && now.links[g].connected ensures QueuedWanted(cfg, now, g) {
      assert QueuedWanted(cfg, net, g);
    }
  }

  lemma StepIsEconomical(cfg: Config, net: Net, ev: Event)
    requires Invariant(cfg, net) && Enabled(cfg, net, ev) && Economical(cfg, net)
    ensures Economical(cfg, Apply(cfg, net, ev))
  {
    hide TableOk, LinkOk, QueueOk, Wanted, Sent, IsEarliest, QueuedWanted;
    var now := Apply(cfg, net, ev);
    match ev
    case Join(f, reported, cursor) => JoinIsEconomical(cfg, net, f, reported, cursor);
    case Dispatch => DispatchIsEconomical(cfg, net);
    case Deliver(f) =>
      GivenWanted(cfg, net, f, |net.sides[f].offsets|);
      DeliverWanted(cfg, net, f);
      OthersStay(cfg, net, now, f);
    case Interrupt(f, k) =>
      GivenWanted(cfg, net, f, k);
      OthersStay(cfg, net, now, f);
    case Disconnect(f) =>
      assert TookWanted(cfg, net, f);
      OthersStay(cfg, net, now, f);
  }

  /**
   * Over every interleaving, followers are only sent what some table of theirs should
   * have, and never again what came before an entry that all of their tables were
   * given.
   */
  lemma {:induction false} RunIsEconomical(cfg: Config, events: seq<Event>, start: Net, net: Net)
    requires Initial(cfg, start) && Reaches(cfg, events, start, net)
    ensures Economical(cfg, net)
    decreases |events|
  {
    hide Invariant, Apply, Enabled, Economical;
    if events == [] {
      StartsEconomical(cfg, start);
    } else {
      var init, ev := events[..|events| - 1], events[|events| - 1];
      var before :| Reaches(cfg, init, start, before) && Steps(cfg, before, ev, net);
      RunIsEconomical(cfg, init, start, before);
      RunKeepsInvariant(cfg, init, start, before);
      StepIsEconomical(cfg, before, ev);
    }
  }

  lemma StartsEconomical(cfg: Config, net: Net)
    requires Initial(cfg, net)
    ensures Economical(cfg, net)
  {
    forall f, i: nat | f in cfg.tables && i < cfg.tables[f] ensures net.sides[f].received[i] == [] {
      assert IsTable(cfg, Spec(f, i));
    }
  }

  // ---------------------------------------------------------------- followers can catch up

  lemma EarliestExists(specs: map<Spec, nat>, keys: set<Spec>) returns (e: nat)
    requires keys <= specs.Keys
    ensures (forall s | s in keys :: e <= specs[s]) && (keys != {} ==> exists s :: s in keys && specs[s] == e)
  {
    if keys == {} {
      e := 0;
    } else {
      var s :| s in keys;
      var rest := keys - {s};
      e := EarliestExists(specs, rest);
      if rest == {} || specs[s] < e { e := specs[s]; }
      assert keys == rest + {s};
    }
  }

  lemma Extends(cfg: Config, events: seq<Event>, start: Net, net: Net, ev: Event)
    requires Reaches(cfg, events, start, net) && Fits(cfg, net) && Enabled(cfg, net, ev)
    ensures Reaches(cfg, events + [ev], start, Apply(cfg, net, ev))
  {
    hide Apply, IsEarliest;
    var all := events + [ev];
    assert all[..|all| - 1] == events && all[|all| - 1] == ev;
    assert Steps(cfg, net, ev, Apply(cfg, net, ev));
  }

  /** The follower joins anew. */
  lemma CanJoin(cfg: Config, events: seq<Event>, start: Net, net: Net, f: int) returns (ev: Event, now: Net)
    requires Reaches(cfg, events, start, net) && Fits(cfg, net) && f in cfg.tables
    ensures Reaches(cfg, events + [ev], start, now) && Fits(cfg, now) && now.links[f].connected
    ensures now.sides == net.sides
  {
    hide Reaches;
    var side := net.sides[f];
    var specs := JoinedSpecs(net.specs, f, side.offsets, side.earliest);
    var cursor := EarliestExists(specs, specs.Keys);
    assert IsEarliest(specs, cursor) by { if specs != map[] { assert specs.Keys != {}; } }
    ev := Join(f, side.offsets, cursor);
    now := Apply(cfg, net, ev);
    Extends(cfg, events, start, net, ev);
  }

  /** The leader reads to the end of its log. */
  lemma {:induction false} CanReadOn(cfg: Config, events: seq<Event>, start: Net, net: Net, f: int)
    returns (more: seq<Event>, end: Net)
    requires Reaches(cfg, events, start, net) && Fits(cfg, net) && f in cfg.tables && net.links[f].connected
    ensures Reaches(cfg, events + more, start, end) && Fits(cfg, end) && end.links[f].connected
    ensures end.sides == net.sides && end.cursor >= cfg.entries
    decreases cfg.entries - net.cursor
  {
    hide Reaches, Copies, DispatchedSpecs;
    if net.cursor >= cfg.entries {
      more, end := [], net;
      assert events + more == events;
    } else {
      var now := Apply(cfg, net, Dispatch);
      Extends(cfg, events, start, net, Dispatch);
      var rest;
      rest, end := CanReadOn(cfg, events + [Dispatch], start, now, f);
      more := [Dispatch] + rest;
      assert events + more == (events + [Dispatch]) + rest;
    }
  }

  /** The follower takes what is queued for it. */
  lemma {:induction false} CanTakeAll(cfg: Config, events: seq<Event>, start: Net, net: Net, f: int)
    returns (more: seq<Event>, end: Net)
    requires Reaches(cfg, events, start, net) && Fits(cfg, net) && f in cfg.tables && net.links[f].connected
    ensures Reaches(cfg, events + more, start, end) && Fits(cfg, end) && end.links[f].connected
    ensures end.links[f].queue == [] && end.cursor == net.cursor
    ensures end.sides.Keys == net.sides.Keys && end.sides[f].joined == net.sides[f].joined
    decreases |net.links[f].queue|
  {
    hide Reaches;
    if net.links[f].queue == [] {
      more, end := [], net;
      assert events + more == events;
    } else {
      var now := Apply(cfg, net, Deliver(f));
      Extends(cfg, events, start, net, Deliver(f));
      var rest;
      rest, end := CanTakeAll(cfg, events + [Deliver(f)], start, now, f);
      more := [Deliver(f)] + rest;
      assert events + more == (events + [Deliver(f)]) + rest;
    }
  }

  /** After every interleaving, a follower that joins and stays connected can get all that its tables should have. */
  lemma CanCatchUp(cfg: Config, events: seq<Event>, start: Net, net: Net, f: int) returns (more: seq<Event>, end: Net)
    requires Initial(cfg, start) && Reaches(cfg, events, start, net) && f in cfg.tables
    ensures Reaches(cfg, events + more, start, end) && Fits(cfg, net) && Fits(cfg, end)
    ensures end.sides[f].joined == net.sides[f].joined
    ensures forall i, o: nat | 0 <= i < cfg.tables[f] && Matches(cfg, Spec(f, i), o)
              && net.sides[f].joined[i] < o <= cfg.entries :: o in end.sides[f].received[i]
  {
    hide Reaches, Invariant, Apply;
    RunKeepsInvariant(cfg, events, start, net);
    InvariantFits(cfg, net);
    var ev, joined := CanJoin(cfg, events, start, net, f);
    var reading, read := CanReadOn(cfg, events + [ev], start, joined, f);
    var taking;
    taking, end := CanTakeAll(cfg, events + [ev] + reading, start, read, f);
    more := [ev] + reading + taking;
    assert events + more == events + [ev] + reading + taking;
    RunKeepsInvariant(cfg, events + more, start, end);
    forall i, o: nat | 0 <= i < cfg.tables[f] && Matches(cfg, Spec(f, i), o)
      && net.sides[f].joined[i] < o <= cfg.entries ensures o in end.sides[f].received[i]
    {
      NothingOwed(cfg, end, Spec(f, i), o);
    }
  }

  lemma InvariantFits(cfg: Config, net: Net)
    requires Invariant(cfg, net)
    ensures Fits(cfg, net)
  {
  }

  /** A connected table for which nothing is queued has all that was read. */
  lemma NothingOwed(cfg: Config, net: Net, s: Spec, o: nat)
    requires Invariant(cfg, net) && IsTable(cfg, s) && net.links[s.follower].connected
    requires net.links[s.follower].queue == [] && o <= net.cursor
    requires Matches(cfg, s, o) && net.sides[s.follower].joined[s.table] < o
    ensures o in net.sides[s.follower].received[s.table]
  {
    assert LinkOk(cfg, net, s) && QueueOk(net, s.follower) && TableOk(cfg, net.sides[s.follower], s);
  }

  // ---------------------------------------------------------------- where a follower starts

  function Recorded(os: map<int, nat>, source: int): nat {
    if source in os then os[source] else 0
  }

  /** makeFollows: the earliest offset that any table has recorded for a source. */
  method EarliestRecorded(offsets: seq<map<int, nat>>, source: int) returns (e: Option<nat>)
    ensures e.None? <==> forall os | os in offsets :: source !in os
    ensures e.Some? ==> (exists os :: os in offsets && source in os && os[source] == e.value)
                        && forall os | os in offsets && source in os :: e.value <= os[source]
  {
    e := None;
    for i := 0 to |offsets|
      invariant e.None? <==> forall os | os in offsets[..i] :: source !in os
      invariant e.Some? ==> (exists os :: os in offsets[..i] && source in os && os[source] == e.value)
                            && forall os | os in offsets[..i] && source in os :: e.value <= os[source]
    {
      assert offsets[..i + 1] == offsets[..i] + [offsets[i]];
      if source in offsets[i] && (e.None? || e.value > offsets[i][source]) { e := Some(offsets[i][source]); }
    }
    assert offsets[..|offsets|] == offsets;
  }

  /**
   * The earliest recorded offset covers every table, so that each joins where it
   * is, exactly when all tables have recorded one, or the earliest is the start.
   */
  lemma StartCovers(offsets: seq<map<int, nat>>, source: int, e: nat)
    requires exists os :: os in offsets && source in os && os[source] == e
    requires forall os | os in offsets && source in os :: e <= os[source]
    ensures (forall os | os in offsets :: Max(Recorded(os, source), e) == Recorded(os, source))
            <==> e == 0 || forall os | os in offsets :: source in os
  {
    if e != 0 && exists os :: os in offsets && source !in os {
      var os :| os in offsets && source !in os;
      assert Max(Recorded(os, source), e) != Recorded(os, source);
    }
  }

  /**
   * A table that has recorded nothing for the source, next to one that is at 5:
   * it joins at 5 and is not sent the entries before, although it has none.
   */
  lemma NewTableIsNotCovered()
    ensures var offsets: seq<map<int, nat>> := [map[7 := 5], map[]];
            && (exists os :: os in offsets && 7 in os && os[7] == 5)
               && (forall os | os in offsets && 7 in os :: 5 <= os[7])
            && Recorded(offsets[1], 7) == 0
            && JoinedSpecs(map[], 0, [Recorded(offsets[0], 7), Recorded(offsets[1], 7)], 5)[Spec(0, 1)] == 5
  {
    var offsets: seq<map<int, nat>> := [map[7 := 5], map[]];
    assert offsets[0] in offsets && 7 in offsets[0] && offsets[0][7] == 5;
    var specs := JoinedSpecs(map[], 0, [5, 0], 5);
    assert Spec(0, 1) in specs;
  }

  // ---------------------------------------------------------------- evaluating WHERE clauses

  /** What a table asks of entries: nothing, or a condition on their dimensions, known by its text. */
  datatype Where = Anything | Cond(text: string, eval: Dims -> bool)

  predicate Passes(w: Where, d: Dims) {
    w.Cond? ==> w.eval(d)
  }

  function LowerChar(c: char): char {
    if 'A' <= c <= 'Z' then c - 'A' + 'a' else c
  }

  function Lower(text: string): (r: string)
    ensures |r| == |text|
  {
    seq(|text|, i requires 0 <= i < |text| => LowerChar(text[i]))
  }

  /** The text by which the result of a condition is remembered. */
  function MemoKey(w: Where): string {
    if w.Anything? then "" else Lower(w.text)
  }

  /** The result remembered for a text: that of the first table with it. */
  function Remembered(wheres: seq<Where>, d: Dims, text: string): Option<bool> {
    if wheres == [] then None else
      var n := |wheres| - 1;
      var before := Remembered(wheres[..n], d, text);
      if before.Some? then before else if MemoKey(wheres[n]) == text then Some(Passes(wheres[n], d)) else None
  }

  /** mapPartitionRequest: evaluates each lower-cased condition text once for an entry, tables coming in any order. */
  method WherePassed(wheres: seq<Where>, d: Dims) returns (passed: seq<bool>)
    ensures |passed| == |wheres| && forall i | 0 <= i < |passed| ::
            Some(passed[i]) == Remembered(wheres, d, MemoKey(wheres[i]))
  {
    hide MemoKey, Passes;
    passed := [];
    var results: map<string, bool> := map[];
    for i := 0 to |wheres|
      invariant |passed| == i
      invariant forall k | 0 <= k < i :: Some(passed[k]) == Remembered(wheres[..i], d, MemoKey(wheres[k]))
      invariant forall text :: Remembered(wheres[..i], d, text) == if text in results then Some(results[text]) else None
    {
      assert wheres[..i + 1][..i] == wheres[..i] && wheres[..i + 1][i] == wheres[i];
      var key := MemoKey(wheres[i]);
      if key !in results { results := results[key := Passes(wheres[i], d)]; }
      passed := passed + [results[key]];
    }
    assert wheres[..|wheres|] == wheres;
  }

  lemma {:induction false} RememberedIs(wheres: seq<Where>, d: Dims, text: string)
    ensures Remembered(wheres, d, text).None? <==> forall w | w in wheres :: MemoKey(w) != text
    ensures Remembered(wheres, d, text).Some? ==>
              exists w :: w in wheres && MemoKey(w) == text && Passes(w, d) == Remembered(wheres, d, text).value
  {
    hide MemoKey, Passes;
    if wheres != [] {
      var n := |wheres| - 1;
      RememberedIs(wheres[..n], d, text);
      assert wheres == wheres[..n] + [wheres[n]];
    }
  }

  /** Every table gets the outcome of its own condition, for every entry. */
  ghost predicate MemoIsRight(wheres: seq<Where>) {
    forall w, d | w in wheres :: Remembered(wheres, d, MemoKey(w)) == Some(Passes(w, d))
  }

  /** Conditions whose texts differ at most in upper and lower case are the same condition. */
  ghost predicate CaseIsIdle(wheres: seq<Where>) {
    forall v, w, d | v in wheres && w in wheres && MemoKey(v) == MemoKey(w) :: Passes(v, d) == Passes(w, d)
  }

  /**
   * Remembering results is right for all entries exactly when conditions that differ
   * only in case agree on all dimensions.
   */
  lemma MemoIsRightIff(wheres: seq<Where>)
    ensures MemoIsRight(wheres) <==> CaseIsIdle(wheres)
  {
    hide Remembered, MemoKey, Passes;
    if MemoIsRight(wheres) {
      forall v, w, d | v in wheres && w in wheres && MemoKey(v) == MemoKey(w) ensures Passes(v, d) == Passes(w, d) {
        assert Remembered(wheres, d, MemoKey(v)) == Some(Passes(v, d))
          && Remembered(wheres, d, MemoKey(w)) == Some(Passes(w, d));
      }
    }
    if CaseIsIdle(wheres) {
      forall w, d | w in wheres ensures Remembered(wheres, d, MemoKey(w)) == Some(Passes(w, d)) {
        RememberedIs(wheres, d, MemoKey(w));
        var v :| v in wheres && MemoKey(v) == MemoKey(w) && Passes(v, d) == Remembered(wheres, d, MemoKey(w)).value;
      }
    }
  }

  /** The condition that a dimension has a given text as its value. */
  function Is(name: string, value: string): Where {
    Cond(name + " = '" + value + "'", d => name in d && d[name] == Accumulators.Text(value))
  }

  /** Two tables that ask for values in different case: the second gets what the first asked for. */
  lemma CaseIsMistaken()
    ensures var upper, lower, d := Is("c", "EU"), Is("c", "eu"), map["c" := Accumulators.Text("EU")];
            && Passes(upper, d) && !Passes(lower, d)
            && Remembered([upper, lower], d, MemoKey(lower)) == Some(true)
  {
    var upper, lower, d := Is("c", "EU"), Is("c", "eu"), map["c" := Accumulators.Text("EU")];
    assert upper.text == "c = 'EU'" && lower.text == "c = 'eu'";
    assert MemoKey(upper) == "c = 'eu'" && MemoKey(lower) == "c = 'eu'";
    assert [upper, lower][..1] == [upper];
    assert [upper][..0] == [];
    assert Remembered([upper], d, MemoKey(lower)) == Some(true);
  }
}
