/**
 * Runs of a row store: inserts, skips, flushes, failures, crashes and reopening
 * (row_store.go, insert.go, common/common.go).
 *
 * The write-ahead log of each source is a list of entries, and an offset says how
 * many of them were processed.  After every run over logs with safe keys, each cell
 * on disk within retention is the state of exactly the points among the entries up
 * to the recovered offsets (`RunKeepsInvariant`): replaying the log from there loses
 * nothing and counts nothing twice.  Keys are safe if none but the empty one is the
 * beginning of another; `LostRows` says what a flush does to others.
 */
module RowRuns {
  import opened Wrappers
  import opened Arithmetic
  import opened Accumulators
  import opened RowJoin
  import opened RowStore
  import opened Arrivals
  import Sequences
  import Columns
  import RadixShapes
  import RowCodec

  // ---------------------------------------------------------------- offsets

  /** The offset up to which each source was processed; no offset is before every offset. */
  type Offsets = map<int, nat>

  function Pos(offsets: Offsets, source: int): nat {
    if source in offsets then offsets[source] else 0
  }

  lemma Nonempty(s: set<int>)
    ensures s == {} || exists x :: x in s
  {
    if !exists x :: x in s {
      assert forall x :: x !in s;
      assert s == {};
    }
  }

  function Max(a: nat, b: nat): nat {
    if a < b then b else a
  }

  /** OffsetsBySource.Advance: for every source the later of both offsets. */
  method Advance(offsets: Offsets, newer: Offsets) returns (r: Offsets)
    ensures r == Advanced(offsets, newer)
  {
    r := offsets;
    var left := newer.Keys;
    while left != {}
      invariant left <= newer.Keys && r.Keys == offsets.Keys + (newer.Keys - left)
      invariant forall s :: Pos(r, s) == if s in left then Pos(offsets, s) else Max(Pos(offsets, s), Pos(newer, s))
      decreases left
    {
      Nonempty(left);
      var s :| s in left;
      if s !in r || newer[s] > r[s] { r := r[s := newer[s]]; }
      left := left - {s};
    }
  }

  function Advanced(offsets: Offsets, newer: Offsets): (r: Offsets)
    ensures forall s :: Pos(r, s) == Max(Pos(offsets, s), Pos(newer, s))
  {
    map s | s in offsets.Keys + newer.Keys :: Max(Pos(offsets, s), Pos(newer, s))
  }

  /** OffsetsBySource.LimitAge: no offset is earlier than the limit. */
  method LimitAge(offsets: Offsets, limit: nat) returns (r: Offsets)
    ensures r.Keys == offsets.Keys
    ensures forall s | s in offsets :: limit <= r[s] && offsets[s] <= r[s] && (r[s] == limit || r[s] == offsets[s])
  {
    r := map[];
    var left := offsets.Keys;
    while left != {}
      invariant left <= offsets.Keys && r.Keys == offsets.Keys - left
      invariant forall s | s in r :: r[s] == Max(offsets[s], limit)
      decreases left
    {
      Nonempty(left);
      var s :| s in left;
      r := r[s := if limit > offsets[s] then limit else offsets[s]];
      left := left - {s};
    }
  }

  // ---------------------------------------------------------------- logs

  /** The points of an entry: one, or several where values are arrays. */
  datatype Insertion = Insertion(ts: Time, key: Key, points: seq<Point>)

  /** An entry of the log that passed the table's WHERE clause and partition, or did not. */
  type Entry = Option<Insertion>

  datatype Table = Table(sem: Conditions, fields: seq<Field>, res: Resolution, sources: seq<int>)

  type Logs = map<int, seq<Entry>>

  function Log(logs: Logs, source: int): seq<Entry> {
    if source in logs then logs[source] else []
  }

  ghost predicate WellFormedTable(tbl: Table) {
    && tbl.fields != [] && DistinctIds(tbl.fields) && (forall f | f in tbl.fields :: Storable(f))
    && RadixShapes.NoRepeats(tbl.sources)
  }

  /** Timestamps lie after the zero time, and only the table's sources have logs. */
  ghost predicate WellFormedLogs(tbl: Table, logs: Logs) {
    && (forall s | s in logs :: s in tbl.sources)
    && forall s, i | s in logs && 0 <= i < |logs[s]| :: logs[s][i].Some? ==> logs[s][i].value.ts > 0
  }

  /** The entry falls into a key's period. */
  predicate Lands(res: Resolution, e: Entry, key: Key, t: Time): (yes: bool)
    ensures yes ==> e.Some?
  {
    e.Some? && e.value.key == key && Sequences.RoundTimeUp(e.value.ts, res) == t
  }

  /** The period is the one that holds the entry's time. */
  lemma LandsIff(res: Resolution, e: Entry, key: Key, t: Time)
    requires t % res == 0
    ensures Lands(res, e, key, t) <==> e.Some? && e.value.key == key && t - res < e.value.ts <= t
  {
    if e.Some? {
      var up := Sequences.RoundTimeUp(e.value.ts, res);
      Sequences.RoundUpIsCeiling(e.value.ts, res);
      Sequences.GridDifference(up, t, res);
      Sequences.GridDifference(t, up, res);
      if up < t { Sequences.AlignedLess(up, t, res); } else if t < up { Sequences.AlignedLess(t, up, res); }
    }
  }

  /** The points among entries that fall into a key's period. */
  function Landed(res: Resolution, entries: seq<Entry>, key: Key, t: Time): seq<Point> {
    if entries == [] then [] else
      var n := |entries| - 1;
      Landed(res, entries[..n], key, t) + if Lands(res, entries[n], key, t) then entries[n].value.points else []
  }

  ghost predicate InOrder(logs: Logs, lo: Offsets, hi: Offsets) {
    forall s :: Pos(lo, s) <= Pos(hi, s) <= |Log(logs, s)|
  }

  lemma OrderAt(logs: Logs, lo: Offsets, hi: Offsets, s: int)
    requires InOrder(logs, lo, hi)
    ensures Pos(lo, s) <= Pos(hi, s) <= |Log(logs, s)|
  {
  }

  /** The points of all sources between two sets of offsets. */
  ghost function Between(tbl: Table, logs: Logs, sources: seq<int>, lo: Offsets, hi: Offsets, key: Key,
                         t: Time): seq<Point>
    requires InOrder(logs, lo, hi)
  {
    if sources == [] then [] else
      var n := |sources| - 1;
      var s := sources[n];
      OrderAt(logs, lo, hi, s);
      Between(tbl, logs, sources[..n], lo, hi, key, t) + Landed(tbl.res, Log(logs, s)[Pos(lo, s)..Pos(hi, s)], key, t)
  }

  lemma {:induction false} LandedConcat(res: Resolution, a: seq<Entry>, b: seq<Entry>, key: Key, t: Time)
    ensures Landed(res, a + b, key, t) == Landed(res, a, key, t) + Landed(res, b, key, t)
  {
    if b == [] {
      assert a + b == a;
    } else {
      var n := |b| - 1;
      assert (a + b)[..|a| + n] == a + b[..n];
      LandedConcat(res, a, b[..n], key, t);
    }
  }

  lemma BetweenLast(tbl: Table, logs: Logs, sources: seq<int>, lo: Offsets, hi: Offsets, key: Key, t: Time)
    requires InOrder(logs, lo, hi) && sources != []
    ensures var n := |sources| - 1; var s := sources[n];
            && Pos(lo, s) <= Pos(hi, s) <= |Log(logs, s)|
            && Between(tbl, logs, sources, lo, hi, key, t)
               == Between(tbl, logs, sources[..n], lo, hi, key, t) + Landed(tbl.res,
                 Log(logs, s)[Pos(lo, s)..Pos(hi, s)], key, t)
  {
  }

  /** Only positions matter. */
  lemma {:induction false} BetweenAlike(tbl: Table, logs: Logs, sources: seq<int>, lo: Offsets, hi: Offsets,
                                        lo': Offsets, hi': Offsets, key: Key, t: Time)
    requires InOrder(logs, lo, hi) && InOrder(logs, lo', hi') && SamePositions(lo, lo') && SamePositions(hi, hi')
    ensures Between(tbl, logs, sources, lo, hi, key, t) == Between(tbl, logs, sources, lo', hi', key, t)
  {
    if sources != [] {
      var n := |sources| - 1;
      assert Pos(lo, sources[n]) == Pos(lo', sources[n]) && Pos(hi, sources[n]) == Pos(hi', sources[n]);
      BetweenAlike(tbl, logs, sources[..n], lo, hi, lo', hi', key, t);
    }
  }

  ghost predicate SamePositions(a: Offsets, b: Offsets) {
    forall s :: Pos(a, s) == Pos(b, s)
  }

  lemma BetweenNone(tbl: Table, logs: Logs, lo: Offsets, hi: Offsets, key: Key, t: Time)
    requires InOrder(logs, lo, hi)
    ensures Between(tbl, logs, [], lo, hi, key, t) == []
  {
  }

  lemma Shuffle<T>(a: seq<T>, b: seq<T>, c: seq<T>, d: seq<T>, e: seq<T>, f: seq<T>)
    requires multiset(a) == multiset(b) + multiset(c) && d == e + f
    ensures multiset(a + d) == multiset(b + e) + multiset(c + f)
  {
  }

  /** Points up to the later offsets are those up to the earlier ones and those between, in some order. */
  lemma {:induction false} BetweenSplits(tbl: Table, logs: Logs, sources: seq<int>, lo: Offsets, mid: Offsets,
                                         hi: Offsets, key: Key, t: Time)
    requires InOrder(logs, lo, mid) && InOrder(logs, mid, hi) && InOrder(logs, lo, hi)
    ensures multiset(Between(tbl, logs, sources, lo, hi, key, t))
            == multiset(Between(tbl, logs, sources, lo, mid, key, t)) + multiset(Between(tbl, logs, sources, mid, hi,
              key, t))
  {
    hide Between, Landed, InOrder, Pos, Log;
    if sources == [] {
      BetweenNone(tbl, logs, lo, mid, key, t);
      BetweenNone(tbl, logs, mid, hi, key, t);
      BetweenNone(tbl, logs, lo, hi, key, t);
    } else {
      var n := |sources| - 1;
      var init, s := sources[..n], sources[n];
      BetweenLast(tbl, logs, sources, lo, mid, key, t);
      BetweenLast(tbl, logs, sources, mid, hi, key, t);
      BetweenLast(tbl, logs, sources, lo, hi, key, t);
      var log, a, b, c := Log(logs, s), Pos(lo, s), Pos(mid, s), Pos(hi, s);
      BetweenSplits(tbl, logs, init, lo, mid, hi, key, t);
      assert log[a..c] == log[a..b] + log[b..c];
      LandedConcat(tbl.res, log[a..b], log[b..c], key, t);
      Shuffle(Between(tbl, logs, init, lo, hi, key, t), Between(tbl, logs, init, lo, mid, key, t),
        Between(tbl, logs, init, mid, hi, key, t),
              Landed(tbl.res, log[a..c], key, t), Landed(tbl.res, log[a..b], key, t),
                Landed(tbl.res, log[b..c], key, t));
    }
  }

  /** Nothing lies between an offset and itself. */
  lemma {:induction false} BetweenSame(tbl: Table, logs: Logs, sources: seq<int>, at: Offsets, also: Offsets, key: Key,
                                       t: Time)
    requires InOrder(logs, at, also) && SamePositions(at, also)
    ensures Between(tbl, logs, sources, at, also, key, t) == []
  {
    if sources != [] { BetweenSame(tbl, logs, sources[..|sources| - 1], at, also, key, t); }
  }

  /** The offset of one source is one further. */
  ghost predicate Bumped(hi: Offsets, next: Offsets, s: int) {
    forall x :: Pos(next, x) == if x == s then Pos(hi, s) + 1 else Pos(hi, x)
  }

  lemma BumpedAt(hi: Offsets, next: Offsets, s: int, x: int)
    requires Bumped(hi, next, s)
    ensures Pos(next, x) == if x == s then Pos(hi, s) + 1 else Pos(hi, x)
  {
  }

  lemma NoRepeatsInit<T>(xs: seq<T>)
    requires xs != [] && RadixShapes.NoRepeats(xs)
    ensures RadixShapes.NoRepeats(xs[..|xs| - 1]) && xs[|xs| - 1] !in xs[..|xs| - 1]
  {
    RadixShapes.NotBefore(xs, |xs| - 1);
  }

  /** One more entry of one source adds its point, if it falls into the period. */
  lemma {:induction false} BetweenNext(tbl: Table, logs: Logs, sources: seq<int>, lo: Offsets, hi: Offsets,
                                       next: Offsets, s: int, key: Key, t: Time)
    requires InOrder(logs, lo, hi) && InOrder(logs, lo, next)
    requires Bumped(hi, next, s) && RadixShapes.NoRepeats(sources)
    requires Pos(hi, s) < |Log(logs, s)|
    ensures var e := Log(logs, s)[Pos(hi, s)];
            multiset(Between(tbl, logs, sources, lo, next, key, t))
            == multiset(Between(tbl, logs, sources, lo, hi, key, t))
               + (if s in sources && Lands(tbl.res, e, key, t) then multiset(e.value.points) else multiset{})
  {
    hide Between, Landed, InOrder, Log, Lands, Pos, Bumped, RadixShapes.NoRepeats;
    if sources == [] {
      BetweenNone(tbl, logs, lo, hi, key, t);
      BetweenNone(tbl, logs, lo, next, key, t);
    } else {
      var n := |sources| - 1;
      var x, log := sources[n], Log(logs, sources[n]);
      BetweenLast(tbl, logs, sources, lo, hi, key, t);
      BetweenLast(tbl, logs, sources, lo, next, key, t);
      NoRepeatsInit(sources);
      BetweenNext(tbl, logs, sources[..n], lo, hi, next, s, key, t);
      assert sources == sources[..n] + [x];
      BumpedAt(hi, next, s, x);
      if x == s {
        LandedNext(tbl.res, log, Pos(lo, s), Pos(hi, s), key, t);
      }
    }
  }

  lemma LandedNext(res: Resolution, log: seq<Entry>, a: nat, b: nat, key: Key, t: Time)
    requires a <= b < |log|
    ensures Landed(res, log[a..b + 1], key, t)
            == Landed(res, log[a..b], key, t) + if Lands(res, log[b], key, t) then log[b].value.points else []
  {
    assert log[a..b + 1][..b - a] == log[a..b];
  }

  // ---------------------------------------------------------------- the store

  datatype File = File(offsets: Offsets, rows: seq<Row>)

  /** Memory with the order in which its keys came, and what is on disk: the latest data file and the offset file. */
  datatype Store = Store(tree: Memory, arrived: seq<Key>, offsets: Offsets, changed: bool,
                         file: Option<File>, offsetFile: Option<Offsets>, flushCount: nat)

  function FileRows(st: Store): seq<Row> {
    if st.file.None? then [] else st.file.value.rows
  }

  /** The offsets found on opening: those of the data file, advanced by the offset file. */
  function Recovered(st: Store): Offsets {
    Advanced(if st.file.None? then map[] else st.file.value.offsets, if st.offsetFile.None? then map[]
      else st.offsetFile.value)
  }

  ghost predicate RowGood(tbl: Table, cols: seq<Column>)
    requires WellFormedTable(tbl)
  {
    |cols| == |tbl.fields| && forall o | 0 <= o < |cols| :: Good(tbl.fields[o], cols[o], tbl.res)
  }

  ghost predicate Shaped(tbl: Table, st: Store)
    requires WellFormedTable(tbl)
  {
    && RadixShapes.NoRepeats(Keys(FileRows(st))) && (forall r | r in FileRows(st) :: RowGood(tbl, r.cols))
    && forall k | k in st.tree :: RowGood(tbl, st.tree[k])
  }

  /** The column of a field after a point was added to the memstore, which truncates nothing. */
  function UpdatedCol(tbl: Table, f: Field, c: Column, ts: Time, p: Point): (r: Column)
    requires Storable(f) && Sequences.OnGrid(c, tbl.res) && ts > 0
    ensures Sequences.OnGrid(r, tbl.res)
  {
    WidthZeroOrWide(f.expr);
    Sequences.UpdateStaysOnGrid(c, EncodedWidth(f.expr), tbl.res, ts, 0, Columns.Unset(f.expr),
      Columns.Updater(tbl.sem, f.expr, p));
    Sequences.UpdateValue(c, EncodedWidth(f.expr), tbl.res, ts, 0, Columns.Unset(f.expr),
      Columns.Updater(tbl.sem, f.expr, p))
  }

  function UpdatedAll(tbl: Table, f: Field, c: Column, ts: Time, points: seq<Point>): (r: Column)
    requires Storable(f) && Sequences.OnGrid(c, tbl.res) && ts > 0
    ensures Sequences.OnGrid(r, tbl.res)
  {
    if points == [] then c else
      var n := |points| - 1;
      UpdatedCol(tbl, f, UpdatedAll(tbl, f, c, ts, points[..n]), ts, points[n])
  }

  ghost function UpdatedCols(tbl: Table, was: Option<seq<Column>>, ins: Insertion): (r: seq<Column>)
    requires WellFormedTable(tbl) && (was.Some? ==> RowGood(tbl, was.value)) && ins.ts > 0
    ensures |r| == |tbl.fields|
  {
    seq(|tbl.fields|, o requires 0 <= o < |tbl.fields| =>
      UpdatedAll(tbl, tbl.fields[o], if was.Some? then was.value[o] else Sequences.Nil, ins.ts, ins.points))
  }

  /** A key that comes to memory. */
  function Arriving(arrived: seq<Key>, key: Key): seq<Key> {
    if key in arrived then arrived else arrived + [key]
  }

  /** Processing one entry: its offset is remembered, and its point is added unless it is older than the cutoff. */
  ghost function Inserted(tbl: Table, st: Store, source: int, e: Entry, cutoff: Time): Store
    requires WellFormedTable(tbl) && Shaped(tbl, st) && (e.Some? ==> e.value.ts > 0)
  {
    var offsets := st.offsets[source := Pos(st.offsets, source) + 1];
    if e.None? || e.value.ts < cutoff then st.(offsets := offsets, changed := true)
    else
      var cols := UpdatedCols(tbl, Lookup(st.tree, e.value.key), e.value);
      st.(offsets := offsets, changed := true, tree := st.tree[e.value.key := cols],
        arrived := Arriving(st.arrived, e.value.key))
  }

  function FlushJoin(tbl: Table, mergeCutoff: Time): Join {
    Join(tbl.fields, Known(tbl.fields), tbl.fields, tbl.res, mergeCutoff)
  }

  function FlushWriting(tbl: Table, writeCutoff: Time): Writing {
    Writing(tbl.fields, tbl.res, writeCutoff, false)
  }

  /** Every tenth flush does not pass rows on raw, so that old data is truncated. */
  predicate RawAllowed(st: Store) {
    st.flushCount % 10 != 9
  }

  lemma FlushReady(tbl: Table, st: Store, mergeCutoff: Time, writeCutoff: Time, order: seq<Key>)
    requires WellFormedTable(tbl) && Shaped(tbl, st) && IsOrder(order, st.tree)
    ensures CanFlush(FlushJoin(tbl, mergeCutoff), FlushWriting(tbl, writeCutoff), RawAllowed(st), FileRows(st),
            st.tree, order)
    ensures KeepsFile(FlushJoin(tbl, mergeCutoff))
  {
    hide Good, Storable, RadixShapes.NoRepeats;
    var j := FlushJoin(tbl, mergeCutoff);
    assert OutIdx(j.outFields, j.fileFields[0]) >= 0;
  }

  /** A store whose memory was joined with its file. */
  ghost function JoinedStore(tbl: Table, st: Store, mergeCutoff: Time, writeCutoff: Time, order: seq<Key>): Store
    requires WellFormedTable(tbl) && Shaped(tbl, st) && IsOrder(order, st.tree)
  {
    FlushReady(tbl, st, mergeCutoff, writeCutoff, order);
    var rows := Flushed(FlushJoin(tbl, mergeCutoff), FlushWriting(tbl, writeCutoff), RawAllowed(st), FileRows(st),
      st.tree, order);
    Store(map[], [], st.offsets, false, Some(File(st.offsets, rows)), st.offsetFile, st.flushCount + 1)
  }

  /** The format of rows has room for the key and the number of columns (`RowCodec.RowRoundTripsIff`). */
  predicate RowHasRoom(row: Row) {
    |row.key| < RowCodec.LIMIT16 && |row.cols| < RowCodec.LIMIT16
  }

  /** What is read of written rows: what was written, or anything if a row had no room. */
  function ReadBack(rows: seq<Row>, misread: seq<Row>): seq<Row> {
    if forall r | r in rows :: RowHasRoom(r) then rows else misread
  }

  lemma NamedFits(tbl: Table, st: Store, mergeCutoff: Time, writeCutoff: Time, order: seq<Key>)
    requires WellFormedTable(tbl) && Shaped(tbl, st) && IsOrder(order, st.tree)
    ensures var j, w := FlushJoin(tbl, mergeCutoff), FlushWriting(tbl, writeCutoff);
            && WellFormed(j) && RowsFit(j, FileRows(st)) && MemoryFits(j, st.tree) && CanWrite(w)
            && forall e | e in NamedJoin(j, RawAllowed(st), FileRows(st), st.tree, st.arrived, order) :: Fits(w, e)
  {
    hide Good, JoinedCols, NameOf, Remaining;
    FlushReady(tbl, st, mergeCutoff, writeCutoff, order);
  }

  /** The rows of the file that a flush writes. */
  ghost function WrittenRows(tbl: Table, st: Store, mergeCutoff: Time, writeCutoff: Time, order: seq<Key>): seq<Row>
    requires WellFormedTable(tbl) && Shaped(tbl, st) && IsOrder(order, st.tree)
  {
    NamedFits(tbl, st, mergeCutoff, writeCutoff, order);
    WrittenAll(FlushWriting(tbl, writeCutoff), NamedJoin(FlushJoin(tbl, mergeCutoff), RawAllowed(st), FileRows(st),
      st.tree, st.arrived, order))
  }

  /**
   * A flush writes rows that are only in memory under the keys that are reported for
   * them, and reads them as the format lets it.
   */
  ghost function FlushedStore(tbl: Table, st: Store, mergeCutoff: Time, writeCutoff: Time,
                              order: seq<Key>, misread: seq<Row>): Store
    requires WellFormedTable(tbl) && Shaped(tbl, st) && IsOrder(order, st.tree)
  {
    var rows := ReadBack(WrittenRows(tbl, st, mergeCutoff, writeCutoff, order), misread);
    Store(map[], [], st.offsets, false, Some(File(st.offsets, rows)), st.offsetFile, st.flushCount + 1)
  }

  /** No row that is only in memory lost its key, and there is room for all. */
  ghost predicate Faithful(tbl: Table, st: Store) {
    && |tbl.fields| < RowCodec.LIMIT16 && NothingLost(FileRows(st), st.tree, st.arrived)
    && forall k | k in Keys(FileRows(st)) || k in st.tree :: |k| < RowCodec.LIMIT16
  }

  /** Then a flush leaves the join of the file with memory. */
  lemma FlushIsJoin(tbl: Table, st: Store, mergeCutoff: Time, writeCutoff: Time, order: seq<Key>, misread: seq<Row>)
    requires WellFormedTable(tbl) && Shaped(tbl, st) && IsOrder(order, st.tree) && Faithful(tbl, st)
    ensures FlushedStore(tbl, st, mergeCutoff, writeCutoff, order, misread)
            == JoinedStore(tbl, st, mergeCutoff, writeCutoff, order)
    ensures forall r | r in FileRows(JoinedStore(tbl, st, mergeCutoff, writeCutoff, order)) ::
            r.key in Keys(FileRows(st)) || r.key in st.tree
  {
    hide Good, WellFormedTable, Shaped, NamedJoin, AllJoined, WrittenAll, IsLost, RadixShapes.NoRepeats, WellFormed,
      CanWrite;
    var j, w, raw, rows := FlushJoin(tbl, mergeCutoff), FlushWriting(tbl, writeCutoff), RawAllowed(st), FileRows(st);
    FlushReady(tbl, st, mergeCutoff, writeCutoff, order);
    NamedFits(tbl, st, mergeCutoff, writeCutoff, order);
    NamedJoinIff(j, raw, rows, st.tree, st.arrived, order);
    FlushedFits(j, w, raw, rows, st.tree, order);
    FlushedFrom(j, w, raw, rows, st.tree, order);
  }

  /** The keys of a new file are those of the old one and of memory. */
  lemma FlushedFrom(j: Join, w: Writing, raw: bool, rows: seq<Row>, tree: Memory, order: seq<Key>)
    requires CanFlush(j, w, raw, rows, tree, order)
    ensures forall r | r in Flushed(j, w, raw, rows, tree, order) :: r.key in Keys(rows) || r.key in tree
  {
    hide WellFormed, CanWrite, AllJoined, WrittenAll, RadixShapes.NoRepeats;
    var out := AllJoined(j, raw, rows, tree, order);
    JoinedFits(j, w, raw, rows, tree, order);
    OuterJoin(j, raw, rows, tree, order);
    WrittenKeys(w, out);
    var now := Flushed(j, w, raw, rows, tree, order);
    forall r | r in now ensures r.key in Keys(rows) || r.key in tree {
      var i :| 0 <= i < |now| && now[i] == r;
      assert Keys(now)[i] == r.key;
    }
  }

  /** What can happen to a store. */
  datatype Event =
    | Insert(source: int, cutoff: Time)
    | WriteOffsets(ok: bool)
    | FailedAttempt
    | Flush(mergeCutoff: Time, writeCutoff: Time, order: seq<Key>, misread: seq<Row>)
    | Crash

  ghost predicate Enabled(tbl: Table, logs: Logs, st: Store, ev: Event) {
    match ev
    case Insert(source, _) =>
      && source in tbl.sources && Pos(st.offsets, source) < |Log(logs, source)|
      && var e := Log(logs, source)[Pos(st.offsets, source)]; e.Some? ==> e.value.ts > 0
    case WriteOffsets(_) => st.tree == map[]
    case FailedAttempt => st.tree != map[]
    case Flush(_, _, order, _) => st.tree != map[] && IsOrder(order, st.tree)
    case Crash => true
  }

  ghost function Apply(tbl: Table, logs: Logs, st: Store, ev: Event): Store
    requires WellFormedTable(tbl) && Shaped(tbl, st) && Enabled(tbl, logs, st, ev)
  {
    match ev
    case Insert(source, cutoff) => Inserted(tbl, st, source, Log(logs, source)[Pos(st.offsets, source)], cutoff)
    case WriteOffsets(ok) => st.(offsetFile := if ok then Some(st.offsets) else st.offsetFile, changed := false)
    case FailedAttempt => st.(flushCount := st.flushCount + 1)
    case Flush(mergeCutoff, writeCutoff, order, misread) => FlushedStore(tbl, st, mergeCutoff, writeCutoff, order,
      misread)
    case Crash => Store(map[], [], Recovered(st), false, st.file, st.offsetFile, 0)
  }

  // ---------------------------------------------------------------- what the store holds

  ghost function FileCell(tbl: Table, st: Store, key: Key, o: nat, t: Time): Bytes
    requires WellFormedTable(tbl) && Shaped(tbl, st) && o < |tbl.fields|
  {
    Cell(tbl.fields[o], FileCol(FlushJoin(tbl, 0), FileRows(st), key, o), tbl.res, t)
  }

  ghost function MemCell(tbl: Table, st: Store, key: Key, o: nat, t: Time): Bytes
    requires WellFormedTable(tbl) && Shaped(tbl, st) && o < |tbl.fields|
  {
    Cell(tbl.fields[o], MemoryCol(FlushJoin(tbl, 0), st.tree, key, o), tbl.res, t)
  }

  lemma FieldIsStorable(tbl: Table, o: nat)
    requires WellFormedTable(tbl) && o < |tbl.fields|
    ensures Storable(tbl.fields[o])
  {
    assert tbl.fields[o] in tbl.fields;
  }

  /** The state of a field for the points of all sources between two sets of offsets. */
  ghost function StateBetween(tbl: Table, logs: Logs, lo: Offsets, hi: Offsets, key: Key, o: nat, t: Time): Bytes
    requires WellFormedTable(tbl) && InOrder(logs, lo, hi) && o < |tbl.fields|
  {
    FieldIsStorable(tbl, o);
    State(tbl.sem, tbl.fields[o].expr, Between(tbl, logs, tbl.sources, lo, hi, key, t))
  }

  /** Positions on disk are at or before those in memory, which are within the logs. */
  ghost predicate Positioned(tbl: Table, logs: Logs, st: Store) {
    InOrder(logs, map[], Recovered(st)) && InOrder(logs, Recovered(st), st.offsets)
  }

  /** Disk holds what was logged up to the recovered offsets, memory what was processed since. */
  ghost predicate HoldsAt(tbl: Table, logs: Logs, st: Store, key: Key, o: nat, t: Time)
    requires WellFormedTable(tbl) && Shaped(tbl, st) && Positioned(tbl, logs, st) && o < |tbl.fields|
  {
    && FileCell(tbl, st, key, o, t) == StateBetween(tbl, logs, map[], Recovered(st), key, o, t)
    && MemCell(tbl, st, key, o, t) == StateBetween(tbl, logs, Recovered(st), st.offsets, key, o, t)
  }

  /** The invariant of a run in which no cutoff was later than the horizon. */
  ghost predicate Invariant(tbl: Table, logs: Logs, st: Store, horizon: Time)
    requires WellFormedTable(tbl)
  {
    && Shaped(tbl, st) && Positioned(tbl, logs, st)
    && forall key: Key, o: nat, t: Time | o < |tbl.fields|
       && Live(t, tbl.res, horizon) :: HoldsAt(tbl, logs, st, key, o, t)
  }

  // ---------------------------------------------------------------- inserting

  /** Adding a point to a column updates the cell of its period. */
  lemma UpdatedCell(tbl: Table, f: Field, c: Column, ts: Time, p: Point, t: Time)
    requires Storable(f) && Good(f, c, tbl.res) && ts > 0 && Live(t, tbl.res, 0)
    ensures |Cell(f, c, tbl.res, t)| == EncodedWidth(f.expr)
    ensures Cell(f, UpdatedCol(tbl, f, c, ts, p), tbl.res, t)
            == if Sequences.RoundTimeUp(ts, tbl.res) == t then Update(tbl.sem, f.expr, Cell(f, c, tbl.res, t), p)
               else Cell(f, c, tbl.res, t)
  {
    hide Sequences.UpdateValue, Sequences.At, Update, IsState, Sequences.RoundTimeUp, Sequences.AllCells;
    WidthZeroOrWide(f.expr);
    CellIsState(f, c, tbl.res, t);
    Sequences.RoundUpIsCeiling(ts, tbl.res);
    Sequences.UpdateValueMeaning(c, EncodedWidth(f.expr), tbl.res, ts, 0, Sequences.RoundTimeUp(ts, tbl.res), t,
      Columns.Unset(f.expr), Columns.Updater(tbl.sem, f.expr, p));
  }

  lemma UpdatedIsGood(tbl: Table, f: Field, c: Column, ts: Time, p: Point)
    requires Storable(f) && Good(f, c, tbl.res) && ts > 0
    ensures Good(f, UpdatedCol(tbl, f, c, ts, p), tbl.res)
  {
    hide IsState, Sequences.RoundTimeUp;
    WidthZeroOrWide(f.expr);
    var update, zero := Columns.Updater(tbl.sem, f.expr, p), Columns.Unset(f.expr);
    Sequences.UpdateStaysOnGrid(c, EncodedWidth(f.expr), tbl.res, ts, 0, zero, update);
    ZerosAreState(f.expr);
    forall b | IsState(f.expr, b) ensures IsState(f.expr, update(b)) { UpdateIsState(tbl.sem, f.expr, b, p); }
    Sequences.UpdateKeepsCells(c, EncodedWidth(f.expr), tbl.res, ts, 0, zero, update, Columns.Proper(f.expr));
  }

  /** A state after further points. */
  function Folded(sem: Conditions, e: Expr, b: Bytes, points: seq<Point>): (r: Bytes)
    requires Sized(e) && |b| == EncodedWidth(e)
    ensures |r| == EncodedWidth(e)
  {
    if points == [] then b else
      var n := |points| - 1;
      Update(sem, e, Folded(sem, e, b, points[..n]), points[n])
  }

  lemma {:induction false} StateAppend(sem: Conditions, e: Expr, points: seq<Point>, more: seq<Point>)
    requires Sized(e)
    ensures State(sem, e, points + more) == Folded(sem, e, State(sem, e, points), more)
  {
    if more == [] {
      assert points + more == points;
    } else {
      var n := |more| - 1;
      StateAppend(sem, e, points, more[..n]);
      assert (points + more)[..|points| + n] == points + more[..n];
    }
  }

  lemma {:induction false} AllUpdated(tbl: Table, f: Field, c: Column, ts: Time, points: seq<Point>, t: Time)
    requires Storable(f) && Good(f, c, tbl.res) && ts > 0 && Live(t, tbl.res, 0)
    ensures Good(f, UpdatedAll(tbl, f, c, ts, points), tbl.res) && |Cell(f, c, tbl.res, t)| == EncodedWidth(f.expr)
    ensures Cell(f, UpdatedAll(tbl, f, c, ts, points), tbl.res, t)
            == if Sequences.RoundTimeUp(ts, tbl.res) == t then Folded(tbl.sem, f.expr, Cell(f, c, tbl.res, t), points)
               else Cell(f, c, tbl.res, t)
  {
    hide UpdatedCol, Update, Cell, Sequences.AllCells, Sequences.RoundTimeUp, Sized, EncodedWidth;
    CellIsState(f, c, tbl.res, t);
    if points != [] {
      var n := |points| - 1;
      AllUpdated(tbl, f, c, ts, points[..n], t);
      UpdatedCell(tbl, f, UpdatedAll(tbl, f, c, ts, points[..n]), ts, points[n], t);
      UpdatedIsGood(tbl, f, UpdatedAll(tbl, f, c, ts, points[..n]), ts, points[n]);
    }
  }

  lemma LiveTime(res: Resolution)
    ensures Live(res, res, 0)
  {
    MultipleDivides(1, res);
  }

  lemma InsertedIsShaped(tbl: Table, st: Store, source: int, e: Entry, cutoff: Time)
    requires WellFormedTable(tbl) && Shaped(tbl, st) && (e.Some? ==> e.value.ts > 0)
    ensures Shaped(tbl, Inserted(tbl, st, source, e, cutoff))
  {
    hide Good, UpdatedAll, RadixShapes.NoRepeats;
    if e.Some? {
      var was := Lookup(st.tree, e.value.key);
      var cols := UpdatedCols(tbl, was, e.value);
      forall o | 0 <= o < |cols| ensures Good(tbl.fields[o], cols[o], tbl.res) {
        FieldIsStorable(tbl, o);
        GoodNothing(tbl.fields[o], tbl.res, 0);
        LiveTime(tbl.res);
        AllUpdated(tbl, tbl.fields[o], if was.Some? then was.value[o]
          else Sequences.Nil, e.value.ts, e.value.points, tbl.res);
      }
    }
  }

  /** Whether an entry is taken in for a key's period: it falls into it, and is no older than the cutoff. */
  predicate IsTaken(res: Resolution, e: Entry, cutoff: Time, key: Key, t: Time): (yes: bool)
    ensures yes ==> e.Some?
  {
    e.Some? && cutoff <= e.value.ts && e.value.key == key && t - res < e.value.ts <= t
  }

  /** The cell in memory after an entry was processed. */
  lemma InsertedCell(tbl: Table, st: Store, source: int, e: Entry, cutoff: Time, key: Key, o: nat, t: Time)
    requires WellFormedTable(tbl) && Shaped(tbl, st) && (e.Some? ==> e.value.ts > 0)
    requires o < |tbl.fields| && Live(t, tbl.res, 0)
    ensures var now := Inserted(tbl, st, source, e, cutoff);
            && Shaped(tbl, now) && FileCell(tbl, now, key, o, t) == FileCell(tbl, st, key, o, t)
            && |MemCell(tbl, st, key, o, t)| == EncodedWidth(tbl.fields[o].expr) && Storable(tbl.fields[o])
            && MemCell(tbl, now, key, o, t)
               == if IsTaken(tbl.res, e, cutoff, key, t)
                  then Folded(tbl.sem, tbl.fields[o].expr, MemCell(tbl, st, key, o, t), e.value.points)
                  else MemCell(tbl, st, key, o, t)
  {
    hide Good, UpdatedAll, RadixShapes.NoRepeats, ColOf, Cell, Folded, Sized, EncodedWidth, Sequences.RoundTimeUp;
    InsertedIsShaped(tbl, st, source, e, cutoff);
    FieldIsStorable(tbl, o);
    var f, was := tbl.fields[o], Lookup(st.tree, key);
    MemoryColumn(tbl, st.tree, key, o);
    var c := if was.Some? then was.value[o] else Sequences.Nil;
    GoodNothing(f, tbl.res, t);
    CellIsState(f, c, tbl.res, t);
    LandsIff(tbl.res, e, key, t);
    if e.Some? && e.value.ts >= cutoff {
      var now := Inserted(tbl, st, source, e, cutoff);
      MemoryColumn(tbl, now.tree, key, o);
      if e.value.key == key { AllUpdated(tbl, f, c, e.value.ts, e.value.points, t); }
    }
  }

  /** An entry that is older than the cutoff, or did not pass, only moves the offset of its source. */
  lemma OldIsSkipped(tbl: Table, st: Store, source: int, e: Entry, cutoff: Time)
    requires WellFormedTable(tbl) && Shaped(tbl, st) && (e.Some? ==> e.value.ts > 0)
    requires e.None? || e.value.ts < cutoff
    ensures var now := Inserted(tbl, st, source, e, cutoff);
            && now.tree == st.tree && now.arrived == st.arrived && now.file == st.file
            && now.offsetFile == st.offsetFile && now.flushCount == st.flushCount
            && forall s :: Pos(now.offsets, s) == Pos(st.offsets, s) + if s == source then 1 else 0
  {
  }

  /** A field's column in memory. */
  lemma MemoryColumn(tbl: Table, tree: Memory, key: Key, o: nat)
    requires WellFormedTable(tbl) && o < |tbl.fields| && forall k | k in tree :: |tree[k]| == |tbl.fields|
    ensures MemoryCol(FlushJoin(tbl, 0), tree, key, o) == if key in tree then tree[key][o] else Sequences.Nil
  {
    if key in tree {
      assert Known(tbl.fields)[o] == Some(tbl.fields[o]);
      ColOfAt(Known(tbl.fields), tree[key], o);
    }
  }

  lemma InsertKeeps(tbl: Table, logs: Logs, st: Store, source: int, cutoff: Time, horizon: Time)
    requires WellFormedTable(tbl) && WellFormedLogs(tbl, logs) && Invariant(tbl, logs, st, horizon)
    requires Enabled(tbl, logs, st, Insert(source, cutoff)) && 0 <= horizon && cutoff <= horizon
    ensures Invariant(tbl, logs, Apply(tbl, logs, st, Insert(source, cutoff)), horizon)
  {
    hide Good, Inserted, HoldsAt, Shaped, Lands;
    var pos := Pos(st.offsets, source);
    var e := Log(logs, source)[pos];
    assert e.Some? ==> e.value.ts > 0;
    var now := Inserted(tbl, st, source, e, cutoff);
    InsertedIsShaped(tbl, st, source, e, cutoff);
    InsertedOffsets(tbl, logs, st, source, e, cutoff);
    forall key: Key, o: nat, t: Time | o < |tbl.fields|
      && Live(t, tbl.res, horizon) ensures HoldsAt(tbl, logs, now, key, o, t) {
      InsertHolds(tbl, logs, st, source, cutoff, key, o, t);
    }
  }

  lemma InsertedOffsets(tbl: Table, logs: Logs, st: Store, source: int, e: Entry, cutoff: Time)
    requires WellFormedTable(tbl) && Shaped(tbl, st) && Positioned(tbl, logs, st)
             && Pos(st.offsets, source) < |Log(logs, source)|
    requires e.Some? ==> e.value.ts > 0
    ensures var now := Inserted(tbl, st, source, e, cutoff);
            && Positioned(tbl, logs, now) && Recovered(now) == Recovered(st) && Bumped(st.offsets, now.offsets, source)
  {
    hide Shaped, UpdatedCols;
  }

  lemma InsertHolds(tbl: Table, logs: Logs, st: Store, source: int, cutoff: Time, key: Key, o: nat, t: Time)
    requires WellFormedTable(tbl) && Shaped(tbl, st) && Positioned(tbl, logs, st) && o < |tbl.fields|
    requires source in tbl.sources && Pos(st.offsets, source) < |Log(logs, source)|
    requires var e := Log(logs, source)[Pos(st.offsets, source)]; e.Some? ==> e.value.ts > 0
    requires Live(t, tbl.res, 0) && Live(t, tbl.res, cutoff) && HoldsAt(tbl, logs, st, key, o, t)
    ensures var now := Inserted(tbl, st, source, Log(logs, source)[Pos(st.offsets, source)], cutoff);
            Shaped(tbl, now) && Positioned(tbl, logs, now) && HoldsAt(tbl, logs, now, key, o, t)
  {
    hide Shaped, Good, Inserted, Lands, FileCell, MemCell, Between, Bumped, InOrder, RadixShapes.NoRepeats, Folded,
      State, Storable;
    var e := Log(logs, source)[Pos(st.offsets, source)];
    var now := Inserted(tbl, st, source, e, cutoff);
    InsertedCell(tbl, st, source, e, cutoff, key, o, t);
    InsertedOffsets(tbl, logs, st, source, e, cutoff);
    var rec, sem, ex := Recovered(st), tbl.sem, tbl.fields[o].expr;
    var was, after := Between(tbl, logs, tbl.sources, rec, st.offsets, key, t),
      Between(tbl, logs, tbl.sources, rec, now.offsets, key, t);
    BetweenNext(tbl, logs, tbl.sources, rec, st.offsets, now.offsets, source, key, t);
    LandsIff(tbl.res, e, key, t);
    FieldIsStorable(tbl, o);
    if Lands(tbl.res, e, key, t) {
      StateOfPermutation(sem, ex, after, was + e.value.points);
      StateAppend(sem, ex, was, e.value.points);
    } else {
      StateOfPermutation(sem, ex, after, was);
    }
  }

  // ---------------------------------------------------------------- flushing

  /** Merging what disk and memory hold gives what was logged up to the later offsets. */
  lemma HeldTogether(tbl: Table, logs: Logs, mid: Offsets, hi: Offsets, key: Key, o: nat, t: Time)
    requires WellFormedTable(tbl) && o < |tbl.fields| && InOrder(logs, map[], mid) && InOrder(logs, mid, hi)
             && InOrder(logs, map[], hi)
    requires Storable(tbl.fields[o])
    ensures Merge(tbl.fields[o].expr, StateBetween(tbl, logs, map[], mid, key, o, t),
            StateBetween(tbl, logs, mid, hi, key, o, t))
            == StateBetween(tbl, logs, map[], hi, key, o, t)
  {
    hide Between, InOrder, Merge, State, WellFormedTable;
    var a, b := Between(tbl, logs, tbl.sources, map[], mid, key, t), Between(tbl, logs, tbl.sources, mid, hi, key, t);
    MergeIsConcat(tbl.sem, tbl.fields[o].expr, a, b);
    BetweenSplits(tbl, logs, tbl.sources, map[], mid, hi, key, t);
    StateOfPermutation(tbl.sem, tbl.fields[o].expr, Between(tbl, logs, tbl.sources, map[], hi, key, t), a + b);
  }

  /** No points, no state. */
  lemma NothingBetween(tbl: Table, logs: Logs, at: Offsets, also: Offsets, key: Key, o: nat, t: Time)
    requires WellFormedTable(tbl) && o < |tbl.fields| && InOrder(logs, at, also) && SamePositions(at, also)
    ensures StateBetween(tbl, logs, at, also, key, o, t) == Columns.Unset(tbl.fields[o].expr)
  {
    BetweenSame(tbl, logs, tbl.sources, at, also, key, t);
  }

  lemma StateAlike(tbl: Table, logs: Logs, lo: Offsets, hi: Offsets, lo': Offsets, hi': Offsets, key: Key, o: nat,
                   t: Time)
    requires WellFormedTable(tbl) && o < |tbl.fields|
    requires InOrder(logs, lo, hi) && InOrder(logs, lo', hi') && SamePositions(lo, lo') && SamePositions(hi, hi')
    ensures StateBetween(tbl, logs, lo, hi, key, o, t) == StateBetween(tbl, logs, lo', hi', key, o, t)
  {
    BetweenAlike(tbl, logs, tbl.sources, lo, hi, lo', hi', key, t);
  }

  /** A store with nothing in memory whose offsets are those recovered holds what it should if its file does. */
  lemma EmptyHolds(tbl: Table, logs: Logs, st: Store, key: Key, o: nat, t: Time)
    requires WellFormedTable(tbl) && Shaped(tbl, st) && Positioned(tbl, logs, st) && o < |tbl.fields|
    requires st.tree == map[] && SamePositions(Recovered(st), st.offsets)
    requires FileCell(tbl, st, key, o, t) == StateBetween(tbl, logs, map[], Recovered(st), key, o, t)
    ensures HoldsAt(tbl, logs, st, key, o, t)
  {
    hide StateBetween, FileCell, ColOf, Cell, Good;
    NothingBetween(tbl, logs, Recovered(st), st.offsets, key, o, t);
    FieldIsStorable(tbl, o);
    GoodNothing(tbl.fields[o], tbl.res, t);
  }

  /** The columns of a shaped store are good. */
  lemma ShapedColumns(tbl: Table, st: Store, key: Key, o: nat)
    requires WellFormedTable(tbl) && Shaped(tbl, st) && o < |tbl.fields|
    ensures RowsFit(FlushJoin(tbl, 0), FileRows(st)) && MemoryFits(FlushJoin(tbl, 0), st.tree)
            && Storable(tbl.fields[o])
    ensures Good(tbl.fields[o], FileCol(FlushJoin(tbl, 0), FileRows(st), key, o), tbl.res)
    ensures Good(tbl.fields[o], MemoryCol(FlushJoin(tbl, 0), st.tree, key, o), tbl.res)
  {
    hide Good, RadixShapes.NoRepeats, ColOf, Storable;
    FieldIsStorable(tbl, o);
    GoodNothing(tbl.fields[o], tbl.res, 0);
    MemoryColumn(tbl, st.tree, key, o);
    var row := RowOf(FileRows(st), key);
    if row.Some? {
      assert Known(tbl.fields)[o] == Some(tbl.fields[o]);
      ColOfAt(Known(tbl.fields), row.value.cols, o);
    }
  }

  lemma FlushedIsShaped(tbl: Table, st: Store, mergeCutoff: Time, writeCutoff: Time, order: seq<Key>)
    requires WellFormedTable(tbl) && Shaped(tbl, st) && IsOrder(order, st.tree)
    ensures Shaped(tbl, JoinedStore(tbl, st, mergeCutoff, writeCutoff, order))
  {
    hide Good, CanFlush, Flushed, RadixShapes.NoRepeats, ColOf, RowOf, Storable;
    FlushReady(tbl, st, mergeCutoff, writeCutoff, order);
    var j, w := FlushJoin(tbl, mergeCutoff), FlushWriting(tbl, writeCutoff);
    var raw, rows := RawAllowed(st), FileRows(st);
    var now := Flushed(j, w, raw, rows, st.tree, order);
    FlushedFits(j, w, raw, rows, st.tree, order);
    forall r | r in now ensures RowGood(tbl, r.cols) {
      forall o | 0 <= o < |r.cols| ensures Good(tbl.fields[o], r.cols[o], tbl.res) {
        ShapedColumns(tbl, st, r.key, o);
        FlushedIsGood(j, w, raw, rows, st.tree, order, r.key, o);
        RowColumn(tbl, now, r, o);
      }
    }
  }

  /** A field's column in a row of a file. */
  lemma RowColumn(tbl: Table, rows: seq<Row>, r: Row, o: nat)
    requires WellFormedTable(tbl) && o < |tbl.fields| && r in rows && RadixShapes.NoRepeats(Keys(rows))
    requires forall x | x in rows :: |x.cols| == |tbl.fields|
    ensures ColIn(Known(tbl.fields), rows, r.key, tbl.fields[o].id) == r.cols[o]
  {
    var i :| 0 <= i < |rows| && rows[i] == r;
    RowOfAt(rows, i);
    assert Known(tbl.fields)[o] == Some(tbl.fields[o]);
    ColOfAt(Known(tbl.fields), r.cols, o);
  }

  lemma FlushHolds(tbl: Table, logs: Logs, st: Store, mergeCutoff: Time, writeCutoff: Time, order: seq<Key>, key: Key,
                   o: nat, t: Time)
    requires WellFormedTable(tbl) && Shaped(tbl, st) && Positioned(tbl, logs, st) && o < |tbl.fields|
             && IsOrder(order, st.tree)
    requires Live(t, tbl.res, mergeCutoff) && Live(t, tbl.res, writeCutoff) && HoldsAt(tbl, logs, st, key, o, t)
    ensures var now := JoinedStore(tbl, st, mergeCutoff, writeCutoff, order);
            Shaped(tbl, now) && Positioned(tbl, logs, now) && HoldsAt(tbl, logs, now, key, o, t)
  {
    hide Good, CanFlush, Flushed, RadixShapes.NoRepeats, ColOf, RowOf, Sized, EncodedWidth, Merge, IsState, InOrder,
      Cell, ColIn, StateBetween, Shaped;
    FlushReady(tbl, st, mergeCutoff, writeCutoff, order);
    FlushedIsShaped(tbl, st, mergeCutoff, writeCutoff, order);
    FlushedOffsets(tbl, logs, st, mergeCutoff, writeCutoff, order);
    ShapedColumns(tbl, st, key, o);
    var now := JoinedStore(tbl, st, mergeCutoff, writeCutoff, order);
    FlushedCell(FlushJoin(tbl, mergeCutoff), FlushWriting(tbl, writeCutoff), RawAllowed(st), FileRows(st), st.tree,
      order, key, o, t);
    HeldTogether(tbl, logs, Recovered(st), st.offsets, key, o, t);
    StateAlike(tbl, logs, map[], st.offsets, map[], Recovered(now), key, o, t);
    EmptyHolds(tbl, logs, now, key, o, t);
  }

  lemma FlushedOffsets(tbl: Table, logs: Logs, st: Store, mergeCutoff: Time, writeCutoff: Time, order: seq<Key>)
    requires WellFormedTable(tbl) && Shaped(tbl, st) && Positioned(tbl, logs, st) && IsOrder(order, st.tree)
    ensures var now := JoinedStore(tbl, st, mergeCutoff, writeCutoff, order);
            && Positioned(tbl, logs, now) && SamePositions(Recovered(now), now.offsets)
               && SamePositions(st.offsets, Recovered(now))
            && now.tree == map[] && InOrder(logs, map[], st.offsets) && SamePositions(map[], map[])
  {
    hide Shaped, Flushed, CanFlush, FlushJoin, FlushWriting, WellFormedTable, Advanced, SamePositions, InOrder;
    var off := if st.offsetFile.None? then map[] else st.offsetFile.value;
    CatchesUp(logs, if st.file.None? then map[] else st.file.value.offsets, off, st.offsets);
  }

  /** Offsets at or after the recovered ones are recovered once they are in the data file. */
  lemma CatchesUp(logs: Logs, file: Offsets, off: Offsets, hi: Offsets)
    requires InOrder(logs, Advanced(file, off), hi)
    ensures SamePositions(Advanced(hi, off), hi) && SamePositions(hi, Advanced(hi, off)) && SamePositions(map[], map[])
    ensures InOrder(logs, map[], Advanced(hi, off)) && InOrder(logs, Advanced(hi, off), hi) && InOrder(logs, map[], hi)
  {
    forall s
      ensures Pos(Advanced(hi, off), s) == Pos(hi, s) && Pos(hi, s) <= |Log(logs, s)|
    {
      OrderAt(logs, Advanced(file, off), hi, s);
    }
  }

  lemma FlushKeeps(tbl: Table, logs: Logs, st: Store, mergeCutoff: Time, writeCutoff: Time,
                   order: seq<Key>, misread: seq<Row>, horizon: Time)
    requires WellFormedTable(tbl) && Invariant(tbl, logs, st, horizon) && mergeCutoff <= horizon
             && writeCutoff <= horizon
    requires Enabled(tbl, logs, st, Flush(mergeCutoff, writeCutoff, order, misread)) && Faithful(tbl, st)
    ensures Invariant(tbl, logs, Apply(tbl, logs, st, Flush(mergeCutoff, writeCutoff, order, misread)), horizon)
  {
    hide Shaped, Positioned, HoldsAt, JoinedStore, FlushedStore, WellFormedTable, Faithful;
    var now := JoinedStore(tbl, st, mergeCutoff, writeCutoff, order);
    FlushIsJoin(tbl, st, mergeCutoff, writeCutoff, order, misread);
    FlushedIsShaped(tbl, st, mergeCutoff, writeCutoff, order);
    FlushedOffsets(tbl, logs, st, mergeCutoff, writeCutoff, order);
    forall key: Key, o: nat, t: Time | o < |tbl.fields|
      && Live(t, tbl.res, horizon) ensures HoldsAt(tbl, logs, now, key, o, t) {
      FlushHolds(tbl, logs, st, mergeCutoff, writeCutoff, order, key, o, t);
    }
  }

  // ---------------------------------------------------------------- offset file, failures and crashes

  /** Recording offsets while memory is empty does not move the disk past data. */
  lemma WriteOffsetsKeeps(tbl: Table, logs: Logs, st: Store, ok: bool, horizon: Time)
    requires WellFormedTable(tbl) && Invariant(tbl, logs, st, horizon) && Enabled(tbl, logs, st, WriteOffsets(ok))
    ensures Invariant(tbl, logs, Apply(tbl, logs, st, WriteOffsets(ok)), horizon)
  {
    hide HoldsAt, WellFormedTable, Shaped, Positioned;
    var now := Apply(tbl, logs, st, WriteOffsets(ok));
    assert Shaped(tbl, now) by { SameShape(tbl, st, now); }
    WrittenOffsets(tbl, logs, st, ok);
    forall key: Key, o: nat, t: Time | o < |tbl.fields|
      && Live(t, tbl.res, horizon) ensures HoldsAt(tbl, logs, now, key, o, t) {
      WriteOffsetsHolds(tbl, logs, st, ok, key, o, t);
    }
  }

  /** Shape only depends on the rows of the file and on memory. */
  lemma SameShape(tbl: Table, st: Store, now: Store)
    requires WellFormedTable(tbl) && Shaped(tbl, st) && now.file == st.file
             && (now.tree == st.tree || now.tree == map[])
    ensures Shaped(tbl, now)
  {
  }

  lemma WrittenOffsets(tbl: Table, logs: Logs, st: Store, ok: bool)
    requires WellFormedTable(tbl) && Shaped(tbl, st) && Positioned(tbl, logs, st) && st.tree == map[]
    ensures var now := Apply(tbl, logs, st, WriteOffsets(ok));
            && Positioned(tbl, logs, now) && InOrder(logs, map[], st.offsets)
            && if ok then SamePositions(Recovered(now), now.offsets) && SamePositions(st.offsets, Recovered(now))
               && SamePositions(map[], map[])
               else Recovered(now) == Recovered(st)
  {
    hide Shaped, WellFormedTable, Advanced, SamePositions, InOrder;
    var file := if st.file.None? then map[] else st.file.value.offsets;
    CatchesUpToo(logs, file, if st.offsetFile.None? then map[] else st.offsetFile.value, st.offsets);
  }

  lemma CatchesUpToo(logs: Logs, file: Offsets, off: Offsets, hi: Offsets)
    requires InOrder(logs, Advanced(file, off), hi)
    ensures SamePositions(Advanced(file, hi), hi) && SamePositions(hi, Advanced(file, hi))
            && SamePositions(map[], map[])
    ensures InOrder(logs, map[], Advanced(file, hi)) && InOrder(logs, Advanced(file, hi), hi)
            && InOrder(logs, map[], hi)
  {
    forall s
      ensures Pos(Advanced(file, hi), s) == Pos(hi, s) && Pos(hi, s) <= |Log(logs, s)|
    {
      OrderAt(logs, Advanced(file, off), hi, s);
    }
  }

  lemma WriteOffsetsHolds(tbl: Table, logs: Logs, st: Store, ok: bool, key: Key, o: nat, t: Time)
    requires WellFormedTable(tbl) && Shaped(tbl, st) && Positioned(tbl, logs, st) && o < |tbl.fields|
             && st.tree == map[]
    requires HoldsAt(tbl, logs, st, key, o, t)
    ensures var now := Apply(tbl, logs, st, WriteOffsets(ok));
            Shaped(tbl, now) && Positioned(tbl, logs, now) && HoldsAt(tbl, logs, now, key, o, t)
  {
    hide StateBetween, Shaped, Positioned, Recovered, Cell, Good, Merge, WellFormedTable, ColOf, Sized, EncodedWidth,
      IsState, InOrder, SamePositions, Advanced, ColIn;
    var now := Apply(tbl, logs, st, WriteOffsets(ok));
    SameShape(tbl, st, now);
    WrittenOffsets(tbl, logs, st, ok);
    if ok {
      ShapedColumns(tbl, st, key, o);
      var f := tbl.fields[o];
      GoodNothing(f, tbl.res, t);
      CellIsState(f, FileCol(FlushJoin(tbl, 0), FileRows(st), key, o), tbl.res, t);
      MergeIdentity(f.expr, FileCell(tbl, st, key, o, t));
      InMiddle(tbl, logs, st);
      InMiddle(tbl, logs, now);
      HeldTogether(tbl, logs, Recovered(st), st.offsets, key, o, t);
      StateAlike(tbl, logs, map[], st.offsets, map[], Recovered(now), key, o, t);
      EmptyHolds(tbl, logs, now, key, o, t);
    }
  }

  lemma InMiddle(tbl: Table, logs: Logs, st: Store)
    requires Positioned(tbl, logs, st)
    ensures InOrder(logs, map[], Recovered(st)) && InOrder(logs, Recovered(st), st.offsets)
  {
  }

  /** A crash loses memory; what is on disk is what the store goes on from. */
  lemma CrashKeeps(tbl: Table, logs: Logs, st: Store, horizon: Time)
    requires WellFormedTable(tbl) && Invariant(tbl, logs, st, horizon)
    ensures Invariant(tbl, logs, Apply(tbl, logs, st, Crash), horizon)
  {
    hide WellFormedTable, Shaped, Positioned, FileCell, MemCell, StateBetween;
    var now := Apply(tbl, logs, st, Crash);
    SameShape(tbl, st, now);
    CrashOffsets(tbl, logs, st);
    forall key: Key, o: nat, t: Time | o < |tbl.fields|
      && Live(t, tbl.res, horizon) ensures HoldsAt(tbl, logs, now, key, o, t) {
      assert HoldsAt(tbl, logs, st, key, o, t);
      SameFileCell(tbl, st, now, key, o, t);
      EmptyHolds(tbl, logs, now, key, o, t);
    }
  }

  lemma CrashOffsets(tbl: Table, logs: Logs, st: Store)
    requires WellFormedTable(tbl) && Shaped(tbl, st) && Positioned(tbl, logs, st)
    ensures var now := Apply(tbl, logs, st, Crash);
            Positioned(tbl, logs, now) && Recovered(now) == Recovered(st) && SamePositions(Recovered(now), now.offsets)
  {
    hide WellFormedTable, Shaped, Advanced;
  }

  lemma SameFileCell(tbl: Table, st: Store, now: Store, key: Key, o: nat, t: Time)
    requires WellFormedTable(tbl) && Shaped(tbl, st) && Shaped(tbl, now) && now.file == st.file && o < |tbl.fields|
    ensures FileCell(tbl, now, key, o, t) == FileCell(tbl, st, key, o, t)
  {
  }

  lemma FailureKeeps(tbl: Table, logs: Logs, st: Store, horizon: Time)
    requires WellFormedTable(tbl) && Invariant(tbl, logs, st, horizon) && Enabled(tbl, logs, st, FailedAttempt)
    ensures Invariant(tbl, logs, Apply(tbl, logs, st, FailedAttempt), horizon)
  {
    hide WellFormedTable, Shaped, Positioned, StateBetween, Cell, FileCol, MemoryCol;
    var now := Apply(tbl, logs, st, FailedAttempt);
    SameShape(tbl, st, now);
    assert Positioned(tbl, logs, now) by { SamePlace(tbl, logs, st, now); }
    forall key: Key, o: nat, t: Time | o < |tbl.fields|
      && Live(t, tbl.res, horizon) ensures HoldsAt(tbl, logs, now, key, o, t) {
      assert HoldsAt(tbl, logs, st, key, o, t);
    }
  }

  lemma SamePlace(tbl: Table, logs: Logs, st: Store, now: Store)
    requires Positioned(tbl, logs, st) && now.file == st.file && now.offsetFile == st.offsetFile
             && now.offsets == st.offsets
    ensures Positioned(tbl, logs, now)
  {
  }

  // ---------------------------------------------------------------- runs

  function Later(a: Time, b: Time): Time {
    if a < b then b else a
  }

  /** The latest cutoff used in an event; events that use none leave the horizon at the zero time. */
  function Cutoff(ev: Event): Time {
    match ev
    case Insert(_, cutoff) => Later(cutoff, 0)
    case Flush(mergeCutoff, writeCutoff, _, _) => Later(Later(mergeCutoff, writeCutoff), 0)
    case _ => 0
  }

  function Horizon(events: seq<Event>): (h: Time)
    ensures h >= 0
  {
    if events == [] then 0 else Later(Horizon(events[..|events| - 1]), Cutoff(events[|events| - 1]))
  }

  predicate Uses(ev: Event, cutoff: Time) {
    || (ev.Insert? && ev.cutoff == cutoff)
    || (ev.Flush? && (ev.mergeCutoff == cutoff || ev.writeCutoff == cutoff))
  }

  /** The horizon is the zero time, or a cutoff that was used. */
  lemma {:induction false} HorizonIsUsed(events: seq<Event>)
    ensures Horizon(events) == 0 || exists ev :: ev in events && Uses(ev, Horizon(events))
  {
    if events != [] {
      var n := |events| - 1;
      HorizonIsUsed(events[..n]);
      assert forall ev | ev in events[..n] :: ev in events;
      assert events[n] in events;
    }
  }

  /** A store that was just created. */
  function Created(): Store {
    Store(map[], [], map[], false, None, None, 0)
  }

  /** The stores that a run of events can lead to. */
  ghost predicate Reaches(tbl: Table, logs: Logs, events: seq<Event>, st: Store)
    requires WellFormedTable(tbl)
    decreases |events|
  {
    if events == [] then st == Created()
    else
      var init, last := events[..|events| - 1], events[|events| - 1];
      exists before :: Reaches(tbl, logs, init, before) && Steps(tbl, logs, before, last, st)
  }

  ghost predicate Steps(tbl: Table, logs: Logs, before: Store, ev: Event, st: Store)
    requires WellFormedTable(tbl)
  {
    Shaped(tbl, before) && Enabled(tbl, logs, before, ev) && st == Apply(tbl, logs, before, ev)
  }

  lemma HorizonGrows(tbl: Table, logs: Logs, st: Store, h: Time, h': Time)
    requires WellFormedTable(tbl) && Invariant(tbl, logs, st, h) && h <= h'
    ensures Invariant(tbl, logs, st, h')
  {
    hide WellFormedTable, Shaped, Positioned, HoldsAt;
  }

  // ---------------------------------------------------------------- keys

  /** The key of some entry of the logs. */
  ghost predicate Logged(logs: Logs, key: Key) {
    exists s, i :: s in logs && 0 <= i < |logs[s]| && logs[s][i].Some? && logs[s][i].value.key == key
  }

  /** No logged key but the empty one is the beginning of another, and rows have room for keys and columns. */
  ghost predicate SafeKeys(tbl: Table, logs: Logs) {
    && |tbl.fields| < RowCodec.LIMIT16 && (forall k | Logged(logs, k) :: |k| < RowCodec.LIMIT16)
    && forall a, b | Logged(logs, a) && Logged(logs, b) && a != [] :: !(a < b)
  }

  /** All keys were logged, and those in memory came to it. */
  ghost predicate Keyed(logs: Logs, st: Store) {
    && (forall k :: k in st.arrived <==> k in st.tree)
    && forall k | k in Keys(FileRows(st)) || k in st.tree :: Logged(logs, k)
  }

  /** With safe keys no flush loses a row. */
  lemma SafeIsFaithful(tbl: Table, logs: Logs, st: Store)
    requires SafeKeys(tbl, logs) && Keyed(logs, st)
    ensures Faithful(tbl, st)
  {
    hide Logged;
    forall k | k in st.tree ensures !IsLost(st.arrived, k) {
      assert Logged(logs, k);
      forall i | 0 <= i < |st.arrived| ensures Logged(logs, st.arrived[i]) { assert st.arrived[i] in st.arrived; }
    }
  }

  lemma StepIsKeyed(tbl: Table, logs: Logs, st: Store, ev: Event)
    requires WellFormedTable(tbl) && Shaped(tbl, st) && Enabled(tbl, logs, st, ev) && SafeKeys(tbl, logs)
             && Keyed(logs, st)
    ensures Keyed(logs, Apply(tbl, logs, st, ev))
  {
    hide WellFormedTable, Shaped, SafeKeys, UpdatedCols, JoinedStore, FlushedStore, Faithful;
    var now := Apply(tbl, logs, st, ev);
    match ev
    case Insert(source, cutoff) =>
      var e := Log(logs, source)[Pos(st.offsets, source)];
      if e.Some? && e.value.ts >= cutoff { assert Logged(logs, e.value.key); }
    case Flush(mergeCutoff, writeCutoff, order, misread) =>
      SafeIsFaithful(tbl, logs, st);
      FlushIsJoin(tbl, st, mergeCutoff, writeCutoff, order, misread);
      var rows := FileRows(now);
      forall k | k in Keys(rows) ensures Logged(logs, k) {
        var i :| 0 <= i < |rows| && Keys(rows)[i] == k;
        assert rows[i] in rows;
      }
      assert now.tree == map[] && now.arrived == [] by { EmptyAfterFlush(tbl, st, mergeCutoff, writeCutoff, order); }
    case _ =>
  }

  lemma EmptyAfterFlush(tbl: Table, st: Store, mergeCutoff: Time, writeCutoff: Time, order: seq<Key>)
    requires WellFormedTable(tbl) && Shaped(tbl, st) && IsOrder(order, st.tree)
    ensures var now := JoinedStore(tbl, st, mergeCutoff, writeCutoff, order); now.tree == map[] && now.arrived == []
  {
    hide WellFormedTable, Shaped;
  }

  lemma StepKeeps(tbl: Table, logs: Logs, st: Store, ev: Event, horizon: Time)
    requires WellFormedTable(tbl) && WellFormedLogs(tbl, logs) && Invariant(tbl, logs, st, horizon)
    requires Enabled(tbl, logs, st, ev) && Cutoff(ev) <= horizon && (ev.Flush? ==> Faithful(tbl, st))
    ensures Invariant(tbl, logs, Apply(tbl, logs, st, ev), horizon)
  {
    hide WellFormedTable, Shaped, Positioned, HoldsAt, Invariant, Apply, Enabled, Faithful;
    match ev
    case Insert(source, cutoff) => InsertKeeps(tbl, logs, st, source, cutoff, horizon);
    case WriteOffsets(ok) => WriteOffsetsKeeps(tbl, logs, st, ok, horizon);
    case FailedAttempt => FailureKeeps(tbl, logs, st, horizon);
    case Flush(mergeCutoff, writeCutoff, order, misread) => FlushKeeps(tbl, logs, st, mergeCutoff, writeCutoff, order,
      misread, horizon);
    case Crash => CrashKeeps(tbl, logs, st, horizon);
  }

  lemma CreatedHolds(tbl: Table, logs: Logs)
    requires WellFormedTable(tbl)
    ensures Invariant(tbl, logs, Created(), 0)
  {
    hide StateBetween, Cell, ColOf;
    var st := Created();
    forall key: Key, o: nat, t: Time | o < |tbl.fields|
      && Live(t, tbl.res, 0) ensures HoldsAt(tbl, logs, st, key, o, t) {
      NothingBetween(tbl, logs, map[], Recovered(st), key, o, t);
      FieldIsStorable(tbl, o);
      GoodNothing(tbl.fields[o], tbl.res, t);
      EmptyHolds(tbl, logs, st, key, o, t);
    }
  }

  /**
   * After every run over logs with safe keys, each cell on disk of a period that no
   * cutoff has reached is the state of exactly the points logged up to the
   * recovered offsets, and memory holds exactly those processed since.
   */
  lemma {:induction false} RunKeepsInvariant(tbl: Table, logs: Logs, events: seq<Event>, st: Store)
    requires WellFormedTable(tbl) && WellFormedLogs(tbl, logs) && SafeKeys(tbl, logs) && Reaches(tbl, logs, events, st)
    ensures Invariant(tbl, logs, st, Horizon(events)) && Keyed(logs, st)
    decreases |events|
  {
    hide WellFormedTable, Shaped, Positioned, HoldsAt, Invariant, Apply, Enabled, WellFormedLogs, SafeKeys, Keyed,
      Faithful;
    if events == [] {
      CreatedHolds(tbl, logs);
      CreatedIsKeyed(logs);
    } else {
      var init, ev := events[..|events| - 1], events[|events| - 1];
      var before :| Reaches(tbl, logs, init, before) && Steps(tbl, logs, before, ev, st);
      RunKeepsInvariant(tbl, logs, init, before);
      HorizonGrows(tbl, logs, before, Horizon(init), Horizon(events));
      SafeIsFaithful(tbl, logs, before);
      StepKeeps(tbl, logs, before, ev, Horizon(events));
      StepIsKeyed(tbl, logs, before, ev);
    }
  }

  lemma CreatedIsKeyed(logs: Logs)
    ensures Keyed(logs, Created())
  {
  }

  /** Whenever offsets were to be recorded, they were. */
  predicate OffsetsWritten(events: seq<Event>) {
    forall ev | ev in events :: ev.WriteOffsets? ==> ev.ok
  }

  /** If nothing has come since offsets were last on disk, reopening goes on from where the store is. */
  ghost predicate CaughtUp(st: Store) {
    !st.changed ==> SamePositions(Recovered(st), st.offsets)
  }

  /**
   * After every run over logs with safe keys in which offsets could be written, a
   * store without changes has caught up.
   */
  lemma {:induction false} RunCatchesUp(tbl: Table, logs: Logs, events: seq<Event>, st: Store)
    requires WellFormedTable(tbl) && WellFormedLogs(tbl, logs) && SafeKeys(tbl, logs) && Reaches(tbl, logs, events, st)
    requires OffsetsWritten(events)
    ensures CaughtUp(st)
    decreases |events|
  {
    hide WellFormedTable, Shaped, Invariant, WellFormedLogs, SafeKeys, Keyed, CaughtUp, Steps;
    if events == [] {
      CreatedCaughtUp();
    } else {
      var init, ev := events[..|events| - 1], events[|events| - 1];
      var before :| Reaches(tbl, logs, init, before) && Steps(tbl, logs, before, ev, st);
      assert ev in events && forall x | x in init :: x in events;
      RunCatchesUp(tbl, logs, init, before);
      RunKeepsInvariant(tbl, logs, init, before);
      SafeIsFaithful(tbl, logs, before);
      StepCatchesUp(tbl, logs, before, ev, st, Horizon(init));
    }
  }

  lemma CreatedCaughtUp()
    ensures CaughtUp(Created())
  {
  }

  lemma StepCatchesUp(tbl: Table, logs: Logs, before: Store, ev: Event, st: Store, horizon: Time)
    requires WellFormedTable(tbl) && Invariant(tbl, logs, before, horizon) && Steps(tbl, logs, before, ev, st)
    requires CaughtUp(before) && (ev.WriteOffsets? ==> ev.ok) && (ev.Flush? ==> Faithful(tbl, before))
    ensures CaughtUp(st)
  {
    hide WellFormedTable, Shaped, Positioned, HoldsAt, Recovered, UpdatedCols, JoinedStore, FlushedStore, Faithful,
      SamePositions, InOrder;
    match ev
    case Insert(_, _) =>
    case WriteOffsets(_) => WrittenOffsets(tbl, logs, before, true);
    case FailedAttempt => SameRecovery(before, st);
    case Flush(mergeCutoff, writeCutoff, order, misread) =>
      FlushIsJoin(tbl, before, mergeCutoff, writeCutoff, order, misread);
      FlushedOffsets(tbl, logs, before, mergeCutoff, writeCutoff, order);
    case Crash => CrashOffsets(tbl, logs, before);
  }

  lemma SameRecovery(a: Store, b: Store)
    requires a.file == b.file && a.offsetFile == b.offsetFile
    ensures Recovered(a) == Recovered(b)
  {
  }

  /** A query over file and memory sees exactly what was processed. */
  lemma ProcessedIsSeen(tbl: Table, logs: Logs, st: Store, horizon: Time, key: Key, o: nat, t: Time)
    requires WellFormedTable(tbl) && Invariant(tbl, logs, st, horizon) && o < |tbl.fields| && Live(t, tbl.res, horizon)
    ensures InOrder(logs, map[], st.offsets) && Storable(tbl.fields[o])
    ensures IsState(tbl.fields[o].expr, FileCell(tbl, st, key, o, t))
            && IsState(tbl.fields[o].expr, MemCell(tbl, st, key, o, t))
    ensures Merge(tbl.fields[o].expr, FileCell(tbl, st, key, o, t), MemCell(tbl, st, key, o, t))
            == StateBetween(tbl, logs, map[], st.offsets, key, o, t)
  {
    hide Good, Merge, IsState, Cell, ColIn, StateBetween, Sized, EncodedWidth;
    ShapedColumns(tbl, st, key, o);
    CellIsState(tbl.fields[o], FileCol(FlushJoin(tbl, 0), FileRows(st), key, o), tbl.res, t);
    CellIsState(tbl.fields[o], MemoryCol(FlushJoin(tbl, 0), st.tree, key, o), tbl.res, t);
    assert HoldsAt(tbl, logs, st, key, o, t);
    HeldTogether(tbl, logs, Recovered(st), st.offsets, key, o, t);
  }
}
