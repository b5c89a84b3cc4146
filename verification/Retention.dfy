/**
 * Data that has expired (row_store.go).
 *
 * Rows that nothing was added to are copied as they are by most flushes, with what
 * has expired of them.  Every tenth attempt to flush since the store was opened
 * copies none: after it, disk has no period that ended by the cutoff, and no row of
 * which nothing is left (`RunForgets`).
 */
module Retention {
  import opened Wrappers
  import opened Arithmetic
  import opened Accumulators
  import opened RowJoin
  import opened RowStore
  import opened Arrivals
  import opened RowRuns
  import opened LostRows
  import Sequences
  import Columns
  import RadixShapes

  /** A row with something after the cutoff, and nothing before. */
  ghost predicate IsCurrent(tbl: Table, cols: seq<Column>, cutoff: Time) {
    && |cols| == |tbl.fields|
    && (exists o :: 0 <= o < |cols| && Outlasts(cols[o], cutoff))
    && forall o, t | 0 <= o < |cols| && 0 < t <= cutoff ::
         Cell(tbl.fields[o], cols[o], tbl.res, t) == Columns.Unset(tbl.fields[o].expr)
  }

  /** What is joined of good rows is good. */
  lemma JoinedIsGood(tbl: Table, mergeCutoff: Time, file: seq<Column>, mem: Option<seq<Column>>)
    requires WellFormedTable(tbl) && |file| == |tbl.fields| && (mem.Some? ==> RowGood(tbl, mem.value))
    requires RowGood(tbl, file)
    ensures WellFormed(FlushJoin(tbl, mergeCutoff))
            && RowGood(tbl, JoinedCols(FlushJoin(tbl, mergeCutoff), file, mem))
  {
    hide Good, ColOf, Merged, Storable;
    var j := FlushJoin(tbl, mergeCutoff);
    var cols := JoinedCols(j, file, mem);
    forall o | 0 <= o < |tbl.fields| ensures Good(tbl.fields[o], cols[o], tbl.res) {
      FieldIsStorable(tbl, o);
      GoodNothing(tbl.fields[o], tbl.res, 0);
      assert Known(tbl.fields)[o] == Some(tbl.fields[o]);
      ColOfAt(Known(tbl.fields), file, o);
      if mem.Some? { ColOfAt(Known(tbl.fields), mem.value, o); }
      MergedIsGood(tbl.fields[o], file[o], if mem.Some? then mem.value[o] else Sequences.Nil, tbl.res, mergeCutoff);
    }
  }

  lemma NothingIsGood(tbl: Table)
    requires WellFormedTable(tbl)
    ensures RowGood(tbl, NoCols(|tbl.fields|))
  {
    hide Good, Storable;
    forall o | 0 <= o < |tbl.fields| ensures Good(tbl.fields[o], Sequences.Nil, tbl.res) {
      FieldIsStorable(tbl, o);
      GoodNothing(tbl.fields[o], tbl.res, 0);
    }
  }

  /** The columns of a row that is not copied are good. */
  lemma PassedOnIsGood(tbl: Table, st: Store, mergeCutoff: Time, order: seq<Key>, i: nat)
    requires WellFormedTable(tbl) && Shaped(tbl, st) && IsOrder(order, st.tree) && !RawAllowed(st)
    requires i < |PassedOn(tbl, st, mergeCutoff, order)|
    ensures var e := PassedOn(tbl, st, mergeCutoff, order)[i];
            e.Joined? && |e.cols| == |tbl.fields| && RowGood(tbl, e.cols)
  {
    hide RowGood, ColOf, Merged, RadixShapes.NoRepeats, Remaining, NameOf, Storable, JoinedCols;
    FlushReady(tbl, st, mergeCutoff, 0, order);
    var rows := FileRows(st);
    if i < |rows| {
      assert rows[i] in rows;
      FitsRow(tbl, rows[i].cols);
      JoinedIsGood(tbl, mergeCutoff, rows[i].cols, Lookup(st.tree, rows[i].key));
    } else {
      var rest := RestOf(rows, order);
      assert rest[i - |rows|] in rest;
      NothingIsGood(tbl);
      JoinedIsGood(tbl, mergeCutoff, NoCols(|tbl.fields|), Some(st.tree[rest[i - |rows|]]));
    }
    FitsRow(tbl, PassedOn(tbl, st, mergeCutoff, order)[i].cols);
  }

  lemma FitsRow(tbl: Table, cols: seq<Column>)
    requires WellFormedTable(tbl) && RowGood(tbl, cols)
    ensures |cols| == |tbl.fields|
  {
  }

  /** A flush that copies no row leaves nothing on disk that ended by its cutoff, whatever names rows go by. */
  lemma FlushForgets(tbl: Table, st: Store, mergeCutoff: Time, writeCutoff: Time, order: seq<Key>)
    requires WellFormedTable(tbl) && Shaped(tbl, st) && IsOrder(order, st.tree) && !RawAllowed(st)
    ensures forall r | r in WrittenRows(tbl, st, mergeCutoff, writeCutoff, order) :: IsCurrent(tbl, r.cols, writeCutoff)
  {
    hide Good, NamedJoin, WrittenAll, Written, Cell, RowGood, Outlasts, RadixShapes.NoRepeats, Storable, IsCurrent;
    var w, out := FlushWriting(tbl, writeCutoff), PassedOn(tbl, st, mergeCutoff, order);
    NamedFits(tbl, st, mergeCutoff, writeCutoff, order);
    WrittenFrom(w, out);
    forall r | r in WrittenRows(tbl, st, mergeCutoff, writeCutoff, order) ensures IsCurrent(tbl, r.cols, writeCutoff) {
      var e :| e in out && Written(w, e) == Some(r);
      var i :| 0 <= i < |out| && out[i] == e;
      PassedOnIsGood(tbl, st, mergeCutoff, order, i);
      GoodIsCurrent(tbl, w, e);
    }
  }

  lemma GoodIsCurrent(tbl: Table, w: Writing, e: Emitted)
    requires WellFormedTable(tbl) && CanWrite(w) && w.fields == tbl.fields && w.res == tbl.res
    requires e.Joined? && |e.cols| == |tbl.fields| && RowGood(tbl, e.cols) && Written(w, e).Some?
    ensures IsCurrent(tbl, Written(w, e).value.cols, w.truncateBefore)
  {
    hide Good, Written, Cell, Storable;
    WrittenMeaning(w, e);
    WrittenLasts(w, e);
  }

  /** Truncating leaves the ends of columns. */
  lemma WrittenLasts(w: Writing, e: Emitted)
    requires CanWrite(w) && e.Joined? && |e.cols| == |w.fields| && Written(w, e).Some? && AreGood(w, e.cols)
    ensures var cols := Written(w, e).value.cols;
            exists o :: 0 <= o < |cols| && Outlasts(cols[o], w.truncateBefore)
  {
    hide TruncatedCol, Good, Storable, DistinctIds;
    var cols := TruncatedCols(w, e.cols);
    var o :| 0 <= o < |cols| && cols[o].Seq?;
    var f := w.fields[o];
    assert f in w.fields;
    Leaves(f, e.cols[o], w.res, w.truncateBefore);
    EndIsKept(f, e.cols[o], w.res, w.truncateBefore);
    assert Outlasts(cols[o], w.truncateBefore);
  }

  lemma EndIsKept(f: Field, c: Column, res: Resolution, truncateBefore: Time)
    requires Storable(f)
    ensures var r := TruncatedCol(f, c, res, truncateBefore); r.Seq? ==> c.Seq? && r.until == c.until
  {
    Sequences.TruncateIsPrefix(c, EncodedWidth(f.expr), res, truncateBefore);
  }


  // ---------------------------------------------------------------- runs

  /** How often a flush was attempted since the store was last opened. */
  function Attempts(events: seq<Event>): nat {
    if events == [] then 0 else
      var n := |events| - 1;
      match events[n]
      case FailedAttempt => Attempts(events[..n]) + 1
      case Flush(_, _, _, _) => Attempts(events[..n]) + 1
      case Crash => 0
      case _ => Attempts(events[..n])
  }

  lemma {:induction false} AttemptsAreCounted(tbl: Table, logs: Logs, events: seq<Event>, st: Store)
    requires WellFormedTable(tbl) && Reaches(tbl, logs, events, st)
    ensures st.flushCount == Attempts(events)
    decreases |events|
  {
    hide WellFormedTable, Shaped, Enabled, WrittenRows, UpdatedCols, ReadBack, Recovered;
    if events != [] {
      var init, ev := events[..|events| - 1], events[|events| - 1];
      var before :| Reaches(tbl, logs, init, before) && Steps(tbl, logs, before, ev, st);
      AttemptsAreCounted(tbl, logs, init, before);
    }
  }

  /**
   * After every run over logs with safe keys that ends with a flush, and in which that
   * was the tenth attempt, or the twentieth and so on, all rows on disk are current.
   */
  lemma RunForgets(tbl: Table, logs: Logs, events: seq<Event>, st: Store, mergeCutoff: Time, writeCutoff: Time,
                   order: seq<Key>, misread: seq<Row>)
    requires WellFormedTable(tbl) && WellFormedLogs(tbl, logs) && SafeKeys(tbl, logs)
    requires Reaches(tbl, logs, events + [Flush(mergeCutoff, writeCutoff, order, misread)], st)
    requires Attempts(events + [Flush(mergeCutoff, writeCutoff, order, misread)]) % 10 == 0
    ensures forall r | r in FileRows(st) :: IsCurrent(tbl, r.cols, writeCutoff)
    ensures Shaped(tbl, st) && forall key, o, t | 0 <= o < |tbl.fields| && 0 < t <= writeCutoff ::
              FileCell(tbl, st, key, o, t) == Columns.Unset(tbl.fields[o].expr)
  {
    hide WellFormedTable, Shaped, Invariant, WellFormedLogs, SafeKeys, Keyed, Faithful, IsCurrent, FileCell, Steps;
    var ev := Flush(mergeCutoff, writeCutoff, order, misread);
    var all := events + [ev];
    assert all[..|all| - 1] == events && all[|all| - 1] == ev;
    var before :| Reaches(tbl, logs, events, before) && Steps(tbl, logs, before, ev, st);
    AttemptsAreCounted(tbl, logs, events, before);
    RunKeepsInvariant(tbl, logs, events, before);
    RunKeepsInvariant(tbl, logs, all, st);
    InvariantIsShaped(tbl, logs, st, Horizon(all));
    SafeIsFaithful(tbl, logs, before);
    StepForgets(tbl, logs, before, st, mergeCutoff, writeCutoff, order, misread);
    forall key, o, t | 0 <= o < |tbl.fields| && 0 < t <= writeCutoff
      ensures FileCell(tbl, st, key, o, t) == Columns.Unset(tbl.fields[o].expr)
    {
      CurrentCell(tbl, st, writeCutoff, key, o, t);
    }
  }

  lemma StepForgets(tbl: Table, logs: Logs, before: Store, st: Store, mergeCutoff: Time, writeCutoff: Time,
                    order: seq<Key>, misread: seq<Row>)
    requires WellFormedTable(tbl) && Steps(tbl, logs, before, Flush(mergeCutoff, writeCutoff, order, misread), st)
    requires Faithful(tbl, before) && !RawAllowed(before)
    ensures forall r | r in FileRows(st) :: IsCurrent(tbl, r.cols, writeCutoff)
  {
    hide WellFormedTable, Shaped, Faithful, IsCurrent, WrittenRows, FlushedStore, JoinedStore, RawAllowed, IsOrder;
    FlushIsJoin(tbl, before, mergeCutoff, writeCutoff, order, misread);
    FlushForgets(tbl, before, mergeCutoff, writeCutoff, order);
    FaithfulIsRead(tbl, before, mergeCutoff, writeCutoff, order);
  }

  lemma InvariantIsShaped(tbl: Table, logs: Logs, st: Store, horizon: Time)
    requires WellFormedTable(tbl) && Invariant(tbl, logs, st, horizon)
    ensures Shaped(tbl, st)
  {
  }

  /** A flush that loses no key has room for the rows that it writes. */
  lemma FaithfulIsRead(tbl: Table, st: Store, mergeCutoff: Time, writeCutoff: Time, order: seq<Key>)
    requires WellFormedTable(tbl) && Shaped(tbl, st) && IsOrder(order, st.tree) && Faithful(tbl, st)
    ensures FileRows(JoinedStore(tbl, st, mergeCutoff, writeCutoff, order))
            == WrittenRows(tbl, st, mergeCutoff, writeCutoff, order)
  {
    hide Good, WellFormedTable, Shaped, NamedJoin, AllJoined, WrittenAll, IsLost, RadixShapes.NoRepeats, WellFormed,
      CanWrite;
    var j, w, raw, rows := FlushJoin(tbl, mergeCutoff), FlushWriting(tbl, writeCutoff), RawAllowed(st), FileRows(st);
    FlushReady(tbl, st, mergeCutoff, writeCutoff, order);
    NamedFits(tbl, st, mergeCutoff, writeCutoff, order);
    NamedJoinIff(j, raw, rows, st.tree, st.arrived, order);
  }

  lemma CurrentCell(tbl: Table, st: Store, cutoff: Time, key: Key, o: nat, t: Time)
    requires WellFormedTable(tbl) && Shaped(tbl, st) && o < |tbl.fields| && 0 < t <= cutoff
    requires forall r | r in FileRows(st) :: IsCurrent(tbl, r.cols, cutoff)
    ensures FileCell(tbl, st, key, o, t) == Columns.Unset(tbl.fields[o].expr)
  {
    hide Good, ColOf, Storable, Cell, RadixShapes.NoRepeats;
    FieldIsStorable(tbl, o);
    GoodNothing(tbl.fields[o], tbl.res, t);
    var row := RowOf(FileRows(st), key);
    if row.Some? {
      assert Known(tbl.fields)[o] == Some(tbl.fields[o]);
      ColOfAt(Known(tbl.fields), row.value.cols, o);
      assert row.value in FileRows(st);
    }
  }
}
