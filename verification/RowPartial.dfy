/**
 * A flush between the points of one entry (insert.go, row_store.go).
 *
 * An entry with an array value becomes several inserts at one offset.  The offset
 * is taken over with the first of them, so a flush between them leaves a disk
 * that claims the whole entry.  If no row loses its key (`LostRows`),
 * `FlushInsideEntry` says exactly when that loses nothing, and `FlushLosesValue`
 * gives a case in which it does.
 */
module RowPartial {
  import opened Wrappers
  import opened Arithmetic
  import opened Accumulators
  import opened RowJoin
  import opened RowStore
  import opened Arrivals
  import opened RowRuns
  import opened Additions
  import Sequences

  /** Both logs have the same entries up to some offsets. */
  ghost predicate AgreeUpTo(logs: Logs, logs': Logs, hi: Offsets) {
    forall s :: Pos(hi, s) <= |Log(logs, s)| && Pos(hi, s) <= |Log(logs', s)|
      && Log(logs, s)[..Pos(hi, s)] == Log(logs', s)[..Pos(hi, s)]
  }

  lemma AgreeAt(logs: Logs, logs': Logs, hi: Offsets, s: int)
    requires AgreeUpTo(logs, logs', hi)
    ensures Pos(hi, s) <= |Log(logs, s)| && Pos(hi, s) <= |Log(logs', s)|
            && Log(logs, s)[..Pos(hi, s)] == Log(logs', s)[..Pos(hi, s)]
  {
  }

  lemma {:induction false} BetweenAgree(tbl: Table, logs: Logs, logs': Logs, sources: seq<int>, lo: Offsets,
                                        hi: Offsets, key: Key, t: Time)
    requires InOrder(logs, lo, hi) && InOrder(logs', lo, hi) && AgreeUpTo(logs, logs', hi)
    ensures Between(tbl, logs, sources, lo, hi, key, t) == Between(tbl, logs', sources, lo, hi, key, t)
  {
    hide Landed, InOrder, AgreeUpTo, Pos, Log;
    if sources != [] {
      var n := |sources| - 1;
      var s := sources[n];
      var a, b := Pos(lo, s), Pos(hi, s);
      OrderAt(logs, lo, hi, s);
      OrderAt(logs', lo, hi, s);
      AgreeAt(logs, logs', hi, s);
      assert Log(logs, s)[a..b] == Log(logs, s)[..b][a..] == Log(logs', s)[..b][a..] == Log(logs', s)[a..b];
      BetweenAgree(tbl, logs, logs', sources[..n], lo, hi, key, t);
    }
  }

  /** A store does not depend on entries it has not processed. */
  lemma InvariantAgrees(tbl: Table, logs: Logs, logs': Logs, st: Store, horizon: Time)
    requires WellFormedTable(tbl) && Invariant(tbl, logs, st, horizon) && AgreeUpTo(logs, logs', st.offsets)
    ensures Invariant(tbl, logs', st, horizon)
  {
    hide WellFormedTable, Shaped, FileCell, MemCell, Between, Recovered;
    AgreeOrder(tbl, logs, logs', st);
    forall key: Key, o: nat, t: Time | o < |tbl.fields|
      && Live(t, tbl.res, horizon) ensures HoldsAt(tbl, logs', st, key, o, t) {
      assert HoldsAt(tbl, logs, st, key, o, t);
      BetweenAgree(tbl, logs, logs', tbl.sources, map[], Recovered(st), key, t);
      BetweenAgree(tbl, logs, logs', tbl.sources, Recovered(st), st.offsets, key, t);
    }
  }

  lemma AgreeOrder(tbl: Table, logs: Logs, logs': Logs, st: Store)
    requires Positioned(tbl, logs, st) && AgreeUpTo(logs, logs', st.offsets)
    ensures Positioned(tbl, logs', st) && AgreeUpTo(logs, logs', Recovered(st))
  {
    hide Recovered;
    forall s ensures Pos(Recovered(st), s) <= Pos(st.offsets, s) <= |Log(logs', s)| {
      OrderAt(logs, Recovered(st), st.offsets, s);
      AgreeAt(logs, logs', st.offsets, s);
    }
    forall s ensures Log(logs, s)[..Pos(Recovered(st), s)] == Log(logs', s)[..Pos(Recovered(st), s)] {
      AgreeAt(logs, logs', st.offsets, s);
      var a, b := Pos(Recovered(st), s), Pos(st.offsets, s);
      assert Log(logs, s)[..a] == Log(logs, s)[..b][..a] && Log(logs', s)[..a] == Log(logs', s)[..b][..a];
    }
  }

  /** The log in which an entry has only its first k points. */
  function CutEntry(logs: Logs, source: int, pos: nat, k: nat): Logs
    requires pos < |Log(logs, source)| && Log(logs, source)[pos].Some? && k <= |Log(logs, source)[pos].value.points|
  {
    var e := Log(logs, source)[pos].value;
    logs[source := Log(logs, source)[pos := Some(e.(points := e.points[..k]))]]
  }

  /** What was processed after one more entry. */
  lemma NextState(tbl: Table, logs: Logs, at: Offsets, next: Offsets, source: int, key: Key, o: nat, t: Time)
    requires WellFormedTable(tbl) && o < |tbl.fields| && Storable(tbl.fields[o]) && source in tbl.sources
    requires InOrder(logs, map[], at) && InOrder(logs, map[], next) && Bumped(at, next, source)
             && Pos(at, source) < |Log(logs, source)|
    requires Lands(tbl.res, Log(logs, source)[Pos(at, source)], key, t)
    ensures |StateBetween(tbl, logs, map[], at, key, o, t)| == EncodedWidth(tbl.fields[o].expr)
    ensures StateBetween(tbl, logs, map[], next, key, o, t)
            == Folded(tbl.sem, tbl.fields[o].expr, StateBetween(tbl, logs, map[], at, key, o, t),
              Log(logs, source)[Pos(at, source)].value.points)
  {
    hide Between, InOrder, Folded, State, Lands, Bumped;
    var points := Log(logs, source)[Pos(at, source)].value.points;
    var was, after := Between(tbl, logs, tbl.sources, map[], at, key, t),
      Between(tbl, logs, tbl.sources, map[], next, key, t);
    BetweenNext(tbl, logs, tbl.sources, map[], at, next, source, key, t);
    StateOfPermutation(tbl.sem, tbl.fields[o].expr, after, was + points);
    StateAppend(tbl.sem, tbl.fields[o].expr, was, points);
  }

  ghost predicate InsideEntry(tbl: Table, logs: Logs, st: Store, source: int, k: nat, horizon: Time)
    requires WellFormedTable(tbl)
  {
    && WellFormedLogs(tbl, logs) && Invariant(tbl, logs, st, horizon) && 0 <= horizon && source in tbl.sources
    && Pos(st.offsets, source) < |Log(logs, source)|
    && var e := Log(logs, source)[Pos(st.offsets, source)]; e.Some? && k <= |e.value.points| && e.value.ts > 0
  }

  /** The store after only the first k points of the next entry were added; its offset is already taken over. */
  ghost function InsertedPart(tbl: Table, logs: Logs, st: Store, source: int, cutoff: Time, k: nat,
                              horizon: Time): Store
    requires WellFormedTable(tbl) && InsideEntry(tbl, logs, st, source, k, horizon)
  {
    var pos := Pos(st.offsets, source);
    Inserted(tbl, st, source, Log(CutEntry(logs, source, pos, k), source)[pos], cutoff)
  }

  lemma CutLogs(tbl: Table, logs: Logs, st: Store, source: int, k: nat, horizon: Time)
    requires WellFormedTable(tbl) && InsideEntry(tbl, logs, st, source, k, horizon)
    ensures var cut := CutEntry(logs, source, Pos(st.offsets, source), k);
            && WellFormedLogs(tbl, cut) && AgreeUpTo(logs, cut, st.offsets)
               && (forall s :: |Log(cut, s)| == |Log(logs, s)|)
            && InOrder(logs, map[], st.offsets) && InOrder(cut, map[], st.offsets)
  {
    hide WellFormedTable, Shaped, HoldsAt, Recovered;
    var pos := Pos(st.offsets, source);
    var cut := CutEntry(logs, source, pos, k);
    forall s ensures Pos(st.offsets, s) <= |Log(logs, s)| { OrderAt(logs, Recovered(st), st.offsets, s); }
    assert Log(cut, source)[..pos] == Log(logs, source)[..pos];
  }

  /** What disk holds and claims after a flush between the points of one entry. */
  lemma FlushedPart(tbl: Table, logs: Logs, st: Store, source: int, cutoff: Time, k: nat,
                         mergeCutoff: Time, writeCutoff: Time, order: seq<Key>, misread: seq<Row>, horizon: Time,
                           o: nat)
    requires WellFormedTable(tbl) && InsideEntry(tbl, logs, st, source, k, horizon) && o < |tbl.fields|
    requires cutoff <= horizon && mergeCutoff <= horizon && writeCutoff <= horizon
    requires var mid := InsertedPart(tbl, logs, st, source, cutoff, k, horizon);
             Shaped(tbl, mid) && IsOrder(order, mid.tree) && Faithful(tbl, mid)
    requires Live(Sequences.RoundTimeUp(Log(logs, source)[Pos(st.offsets, source)].value.ts, tbl.res), tbl.res, horizon)
    ensures var e, f := Log(logs, source)[Pos(st.offsets, source)].value, tbl.fields[o];
            var t := Sequences.RoundTimeUp(e.ts, tbl.res);
            var now := FlushedStore(tbl, InsertedPart(tbl, logs, st, source, cutoff, k, horizon), mergeCutoff,
              writeCutoff, order, misread);
            && Shaped(tbl, now) && InOrder(logs, map[], Recovered(now)) && InOrder(logs, map[], st.offsets)
               && Storable(f)
            && var was := StateBetween(tbl, logs, map[], st.offsets, e.key, o, t);
            && |was| == EncodedWidth(f.expr)
            && FileCell(tbl, now, e.key, o, t) == Folded(tbl.sem, f.expr, was, e.points[..k])
            && StateBetween(tbl, logs, map[], Recovered(now), e.key, o, t) == Folded(tbl.sem, f.expr, was, e.points)
  {
    hide Shaped, FileCell, MemCell, StateBetween, JoinedStore, FlushedStore, Faithful, Inserted, AgreeUpTo,
      WellFormedLogs, Folded, Sized, EncodedWidth,
      InOrder, Bumped, SamePositions, Recovered, Invariant;
    var pos := Pos(st.offsets, source);
    var cut, e := CutEntry(logs, source, pos, k), Log(logs, source)[pos].value;
    var t := Sequences.RoundTimeUp(e.ts, tbl.res);
    CutLogs(tbl, logs, st, source, k, horizon);
    InvariantAgrees(tbl, logs, cut, st, horizon);
    PartRuns(tbl, cut, st, source, cutoff, mergeCutoff, writeCutoff, order, horizon, e.key, o, t);
    FieldIsStorable(tbl, o);
    var mid := InsertedPart(tbl, logs, st, source, cutoff, k, horizon);
    var now := JoinedStore(tbl, mid, mergeCutoff, writeCutoff, order);
    FlushIsJoin(tbl, mid, mergeCutoff, writeCutoff, order, misread);
    SameBounds(logs, cut, Recovered(now));
    NextState(tbl, logs, st.offsets, Recovered(now), source, e.key, o, t);
    NextState(tbl, cut, st.offsets, Recovered(now), source, e.key, o, t);
    SameBefore(tbl, logs, cut, st.offsets, e.key, o, t);
  }

  lemma SameBounds(logs: Logs, cut: Logs, hi: Offsets)
    requires (forall s :: |Log(cut, s)| == |Log(logs, s)|) && InOrder(cut, map[], hi)
    ensures InOrder(logs, map[], hi)
  {
    forall s ensures Pos(hi, s) <= |Log(logs, s)| { OrderAt(cut, map[], hi, s); }
  }

  lemma SameBefore(tbl: Table, logs: Logs, cut: Logs, at: Offsets, key: Key, o: nat, t: Time)
    requires WellFormedTable(tbl) && o < |tbl.fields| && InOrder(logs, map[], at) && InOrder(cut, map[], at)
             && AgreeUpTo(logs, cut, at)
    ensures StateBetween(tbl, logs, map[], at, key, o, t) == StateBetween(tbl, cut, map[], at, key, o, t)
  {
    BetweenAgree(tbl, logs, cut, tbl.sources, map[], at, key, t);
  }

  /** Inserting the next entry and flushing: what is on disk, and up to where. */
  lemma PartRuns(tbl: Table, logs: Logs, st: Store, source: int, cutoff: Time, mergeCutoff: Time, writeCutoff: Time,
                 order: seq<Key>, horizon: Time, key: Key, o: nat, t: Time)
    requires WellFormedTable(tbl) && WellFormedLogs(tbl, logs) && Invariant(tbl, logs, st, horizon) && 0 <= horizon
    requires Enabled(tbl, logs, st, Insert(source, cutoff)) && o < |tbl.fields| && Live(t, tbl.res, horizon)
    requires cutoff <= horizon && mergeCutoff <= horizon && writeCutoff <= horizon
    requires var mid := Inserted(tbl, st, source, Log(logs, source)[Pos(st.offsets, source)], cutoff);
             Shaped(tbl, mid) && IsOrder(order, mid.tree)
    ensures var mid := Inserted(tbl, st, source, Log(logs, source)[Pos(st.offsets, source)], cutoff);
            var now := JoinedStore(tbl, mid, mergeCutoff, writeCutoff, order);
            && Shaped(tbl, now) && InOrder(logs, map[], Recovered(now)) && Bumped(st.offsets, Recovered(now), source)
            && FileCell(tbl, now, key, o, t) == StateBetween(tbl, logs, map[], Recovered(now), key, o, t)
  {
    hide Shaped, FileCell, MemCell, StateBetween, JoinedStore, Inserted, WellFormedLogs, InOrder, WellFormedTable,
      Recovered;
    var e := Log(logs, source)[Pos(st.offsets, source)];
    var mid := Inserted(tbl, st, source, e, cutoff);
    InsertKeeps(tbl, logs, st, source, cutoff, horizon);
    InsertedOffsets(tbl, logs, st, source, e, cutoff);
    FlushedOffsets(tbl, logs, mid, mergeCutoff, writeCutoff, order);
    FlushHolds(tbl, logs, mid, mergeCutoff, writeCutoff, order, key, o, t);
    var now := JoinedStore(tbl, mid, mergeCutoff, writeCutoff, order);
    InMiddle(tbl, logs, now);
    assert HoldsAt(tbl, logs, now, key, o, t);
  }

  /**
   * A flush between the points of one entry leaves, for good, a disk that claims
   * the whole entry; it holds what it claims exactly when the remaining points add
   * nothing to the field after those logged before and the first ones.
   */
  lemma FlushInsideEntry(tbl: Table, logs: Logs, st: Store, source: int, cutoff: Time, k: nat,
                         mergeCutoff: Time, writeCutoff: Time, order: seq<Key>, misread: seq<Row>, horizon: Time,
                           o: nat)
    requires WellFormedTable(tbl) && InsideEntry(tbl, logs, st, source, k, horizon) && o < |tbl.fields|
    requires cutoff <= horizon && mergeCutoff <= horizon && writeCutoff <= horizon
    requires var mid := InsertedPart(tbl, logs, st, source, cutoff, k, horizon);
             Shaped(tbl, mid) && IsOrder(order, mid.tree) && Faithful(tbl, mid)
    requires Live(Sequences.RoundTimeUp(Log(logs, source)[Pos(st.offsets, source)].value.ts, tbl.res), tbl.res, horizon)
    ensures var e, f := Log(logs, source)[Pos(st.offsets, source)].value, tbl.fields[o];
            var t := Sequences.RoundTimeUp(e.ts, tbl.res);
            var now := FlushedStore(tbl, InsertedPart(tbl, logs, st, source, cutoff, k, horizon), mergeCutoff,
              writeCutoff, order, misread);
            && Shaped(tbl, now) && InOrder(logs, map[], Recovered(now)) && InOrder(logs, map[], st.offsets)
               && Storable(f)
            && var before := Between(tbl, logs, tbl.sources, map[], st.offsets, e.key, t);
            && (FileCell(tbl, now, e.key, o, t) == StateBetween(tbl, logs, map[], Recovered(now), e.key, o, t)
                <==> AddNothing(tbl.sem, f.expr, before + e.points[..k], e.points[k..]))
            && (AddNothing(tbl.sem, f.expr, e.points[..k], e.points[k..])
                ==> AddNothing(tbl.sem, f.expr, before + e.points[..k], e.points[k..]))
  {
    hide Shaped, FileCell, JoinedStore, FlushedStore, Faithful, InOrder, Recovered, Folded, State, AddNothing,
      Invariant, Between, WellFormedLogs, Inserted, EncodedWidth, Sized;
    FlushedPart(tbl, logs, st, source, cutoff, k, mergeCutoff, writeCutoff, order, misread, horizon, o);
    var e, f := Log(logs, source)[Pos(st.offsets, source)].value, tbl.fields[o];
    var before := Between(tbl, logs, tbl.sources, map[], st.offsets, e.key, Sequences.RoundTimeUp(e.ts, tbl.res));
    var part, rest := e.points[..k], e.points[k..];
    StateAppend(tbl.sem, f.expr, before, part);
    StateAppend(tbl.sem, f.expr, before, e.points);
    assert e.points == part + rest && before + e.points == before + part + rest;
    AddNothingIff(tbl.sem, f.expr, before + part, rest);
    if AddNothing(tbl.sem, f.expr, part, rest) { StillNothing(tbl.sem, f.expr, before, part, rest); }
  }

  // ---------------------------------------------------------------- a value that is lost

  /** A table that keeps SUM(a) for every period of one time unit. */
  function SumTable(sem: Conditions): Table {
    Table(sem, [RowJoin.Field("a", Aggregate(Sum, Accumulators.Field("a")))], 1, [0])
  }

  /** A log with one entry, in which a is the array [1, 2]. */
  function ArrayLog(): Logs {
    map[0 := [Some(Insertion(5, [], [Point(map["a" := 1.0], None), Point(map["a" := 2.0], None)]))]]
  }

  lemma SumTableIsWellFormed(sem: Conditions)
    ensures WellFormedTable(SumTable(sem)) && WellFormedLogs(SumTable(sem), ArrayLog())
  {
  }

  lemma ArrayPoints(sem: Conditions)
    ensures var e, points := Aggregate(Sum, Accumulators.Field("a")), ArrayLog()[0][0].value.points;
            && Sized(e) && Folded(sem, e, Zeros(EncodedWidth(e)), points[..1]) == Saved(1.0)
            && Folded(sem, e, Zeros(EncodedWidth(e)), points) == Saved(3.0)
  {
    var e, points := Aggregate(Sum, Accumulators.Field("a")), ArrayLog()[0][0].value.points;
    var zero := Zeros(EncodedWidth(e));
    var one := points[..1];
    assert one[..0] == [] && points[..1] == one;
    LoadSaved(0.0, 0.0, 0.0);
    LoadSaved(1.0, 0.0, 0.0);
    LoadSaved(3.0, 0.0, 0.0);
    assert Folded(sem, e, zero, one) == Update(sem, e, zero, points[0]) == Saved(1.0);
    assert Folded(sem, e, zero, points) == Update(sem, e, Saved(1.0), points[1]) == Saved(3.0);
  }

  /** The store after the first of both values was added. */
  ghost function HalfInserted(sem: Conditions): Store
    requires WellFormedTable(SumTable(sem)) && InsideEntry(SumTable(sem), ArrayLog(), Created(), 0, 1, 0)
  {
    InsertedPart(SumTable(sem), ArrayLog(), Created(), 0, 0, 1, 0)
  }

  lemma ArrayIsNext(sem: Conditions)
    ensures WellFormedTable(SumTable(sem)) && InsideEntry(SumTable(sem), ArrayLog(), Created(), 0, 1, 0)
    ensures var mid := HalfInserted(sem);
            && Shaped(SumTable(sem), mid) && IsOrder([[]], mid.tree) && mid.offsets == map[0 := 1]
               && mid.offsetFile.None?
            && Faithful(SumTable(sem), mid)
  {
    hide Invariant, Shaped, UpdatedCols, UpdatedAll;
    var tbl := SumTable(sem);
    SumTableIsWellFormed(sem);
    CreatedHolds(tbl, ArrayLog());
    assert InsideEntry(tbl, ArrayLog(), Created(), 0, 1, 0);
    var e := Log(CutEntry(ArrayLog(), 0, 0, 1), 0)[0];
    assert Shaped(tbl, Created()) by { assert Invariant(tbl, ArrayLog(), Created(), 0); ShapedNow(tbl, ArrayLog(),
      Created()); }
    InsertedIsShaped(tbl, Created(), 0, e, 0);
  }

  lemma ShapedNow(tbl: Table, logs: Logs, st: Store)
    requires WellFormedTable(tbl) && Invariant(tbl, logs, st, 0)
    ensures Shaped(tbl, st)
  {
  }

  lemma FlushedAt(tbl: Table, st: Store, order: seq<Key>)
    requires WellFormedTable(tbl) && Shaped(tbl, st) && IsOrder(order, st.tree) && st.offsetFile.None?
    ensures Pos(Recovered(FlushedStore(tbl, st, 0, 0, order, [])), 0) == Pos(st.offsets, 0)
  {
  }

  /** Flushed after the first of both values, disk claims the entry, whose sum is 3, and holds 1. */
  lemma FlushLosesValue(sem: Conditions)
    ensures WellFormedTable(SumTable(sem)) && InsideEntry(SumTable(sem), ArrayLog(), Created(), 0, 1, 0)
    ensures var tbl, mid := SumTable(sem), HalfInserted(sem);
            && Shaped(tbl, mid) && IsOrder([[]], mid.tree)
            && var now := FlushedStore(tbl, mid, 0, 0, [[]], []);
            && Shaped(tbl, now) && InOrder(ArrayLog(), map[], Recovered(now)) && Pos(Recovered(now), 0) == 1
            && FileCell(tbl, now, [], 0, 5) == Saved(1.0)
            && StateBetween(tbl, ArrayLog(), map[], Recovered(now), [], 0, 5) == Saved(3.0)
  {
    hide Invariant, Shaped, FlushedStore, Faithful, FileCell, StateBetween, Between, Inserted, Folded, InOrder;
    var tbl := SumTable(sem);
    ArrayIsNext(sem);
    assert Sequences.RoundTimeUp(5, 1) == 5;
    FlushedPart(tbl, ArrayLog(), Created(), 0, 0, 1, 0, 0, [[]], [], 0, 0);
    NothingBetween(tbl, ArrayLog(), map[], map[], [], 0, 5);
    ArrayPoints(sem);
    FlushedAt(tbl, HalfInserted(sem), [[]]);
  }
}
