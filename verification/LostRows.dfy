/**
 * Rows that a flush writes without their key (row_store.go, bytetree/bytetree.go).
 *
 * A row that is only in memory, and whose key came after a longer one, is written
 * under the empty key.  For every other key a flush leaves what it should
 * (`FlushHoldsIff`); `RunLosesRow` is a run of three steps after which disk claims
 * a point that it does not hold.
 */
module LostRows {
  import opened Wrappers
  import opened Arithmetic
  import opened Accumulators
  import opened RowJoin
  import opened RowStore
  import opened Arrivals
  import opened RowRuns
  import Sequences
  import Columns
  import RadixShapes
  import RowCodec
  import RowPartial

  /** The row of the key is only in memory and lost its key. */
  ghost predicate LosesKey(st: Store, key: Key) {
    key in st.tree && key !in Keys(FileRows(st)) && IsLost(st.arrived, key)
  }

  /** What is passed on for a key is the same in both lists, place by place. */
  ghost predicate AlikeFor(a: seq<Emitted>, b: seq<Emitted>, key: Key) {
    |a| == |b| && forall i | 0 <= i < |a| :: a[i] == b[i] || (KeyOf(a[i]) != key && KeyOf(b[i]) != key)
  }

  lemma {:induction false} SameRow(w: Writing, a: seq<Emitted>, b: seq<Emitted>, key: Key)
    requires CanWrite(w) && AlikeFor(a, b, key) && (forall e | e in a :: Fits(w, e)) && forall e | e in b :: Fits(w, e)
    ensures RowOf(WrittenAll(w, a), key) == RowOf(WrittenAll(w, b), key)
  {
    hide Written, CanWrite, Fits;
    if a != [] {
      var n := |a| - 1;
      assert a[n] in a && b[n] in b;
      SameRow(w, a[..n], b[..n], key);
      LastRow(w, a, key);
      LastRow(w, b, key);
    }
  }

  lemma LastRow(w: Writing, out: seq<Emitted>, key: Key)
    requires CanWrite(w) && out != [] && forall e | e in out :: Fits(w, e)
    ensures var n := |out| - 1;
            && out[n] in out && (forall e | e in out[..n] :: Fits(w, e))
            && RowOf(WrittenAll(w, out), key)
               == if KeyOf(out[n]) == key && Written(w, out[n]).Some? then Written(w, out[n])
                 else RowOf(WrittenAll(w, out[..n]), key)
  {
    hide Written, CanWrite, Fits;
    var n := |out| - 1;
    assert out[n] in out;
    var before, last := WrittenAll(w, out[..n]), Written(w, out[n]);
    if last.Some? { assert (before + [last.value])[..|before|] == before; }
  }

  /** A key that is not lost is passed on as the join has it. */
  lemma NamedAlike(j: Join, raw: bool, rows: seq<Row>, tree: Memory, arrived: seq<Key>, order: seq<Key>, key: Key)
    requires WellFormed(j) && RowsFit(j, rows) && MemoryFits(j, tree) && IsOrder(order, tree)
    requires key != [] && (key in tree && key !in Keys(rows) ==> !IsLost(arrived, key))
    ensures AlikeFor(NamedJoin(j, raw, rows, tree, arrived, order), AllJoined(j, raw, rows, tree, order), key)
  {
    hide WellFormed, JoinedCols, EmittedFor, Remaining, IsLost, RadixShapes.NoRepeats;
    var rest := RestOf(rows, order);
    var a, b := FromNamed(j, rest, NamesOf(arrived, rest), tree), FromMemory(j, rest, tree);
    forall i | 0 <= i < |rest| ensures a[i] == b[i] || (KeyOf(a[i]) != key && KeyOf(b[i]) != key) {
      assert rest[i] in rest;
    }
  }

  /** A lost key is not passed on. */
  lemma LostIsAbsent(j: Join, raw: bool, rows: seq<Row>, tree: Memory, arrived: seq<Key>, order: seq<Key>, key: Key)
    requires WellFormed(j) && RowsFit(j, rows) && MemoryFits(j, tree) && IsOrder(order, tree)
    requires key !in Keys(rows) && IsLost(arrived, key)
    ensures key !in EmittedKeys(NamedJoin(j, raw, rows, tree, arrived, order))
  {
    hide WellFormed, JoinedCols, EmittedFor, Remaining, IsLost, RadixShapes.NoRepeats;
    var out, rest := NamedJoin(j, raw, rows, tree, arrived, order), RestOf(rows, order);
    forall i | 0 <= i < |out| ensures KeyOf(out[i]) != key {
      if i < |rows| { assert Keys(rows)[i] == KeyOf(out[i]); }
        else { assert KeyOf(out[i]) == NameOf(arrived, rest[i - |rows|]); }
    }
  }

  lemma AbsentRow(w: Writing, out: seq<Emitted>, key: Key)
    requires CanWrite(w) && (forall e | e in out :: Fits(w, e)) && key !in EmittedKeys(out)
    ensures RowOf(WrittenAll(w, out), key) == None
  {
    hide Written, CanWrite, Fits;
    WrittenFrom(w, out);
    var rows := WrittenAll(w, out);
    forall i | 0 <= i < |rows| ensures rows[i].key != key {
      assert rows[i] in rows;
      var e :| e in out && Written(w, e) == Some(rows[i]);
      var l :| 0 <= l < |out| && out[l] == e;
      assert EmittedKeys(out)[l] == KeyOf(e);
    }
    RowOfAbsent(rows, key);
  }

  /** What disk has for a key after a flush: nothing if the key was lost, else what the join has. */
  lemma FlushedRow(tbl: Table, st: Store, mergeCutoff: Time, writeCutoff: Time, order: seq<Key>, key: Key)
    requires WellFormedTable(tbl) && Shaped(tbl, st) && IsOrder(order, st.tree) && key != []
    ensures RowOf(WrittenRows(tbl, st, mergeCutoff, writeCutoff, order), key)
            == if LosesKey(st, key) then None else RowOf(FileRows(JoinedStore(tbl, st, mergeCutoff, writeCutoff,
              order)), key)
  {
    hide Good, WellFormedTable, Shaped, NamedJoin, AllJoined, WrittenAll, IsLost, RadixShapes.NoRepeats, WellFormed,
      CanWrite, AlikeFor, EmittedKeys, RowOf;
    var j, w, raw, rows := FlushJoin(tbl, mergeCutoff), FlushWriting(tbl, writeCutoff), RawAllowed(st), FileRows(st);
    FlushReady(tbl, st, mergeCutoff, writeCutoff, order);
    NamedFits(tbl, st, mergeCutoff, writeCutoff, order);
    JoinedFits(j, w, raw, rows, st.tree, order);
    var out := NamedJoin(j, raw, rows, st.tree, st.arrived, order);
    if LosesKey(st, key) {
      LostIsAbsent(j, raw, rows, st.tree, st.arrived, order, key);
      AbsentRow(w, out, key);
    } else {
      NamedAlike(j, raw, rows, st.tree, st.arrived, order, key);
      SameRow(w, out, AllJoined(j, raw, rows, st.tree, order), key);
    }
  }

  /** A cell of the file only depends on the row of its key. */
  lemma SameCell(tbl: Table, a: Store, b: Store, key: Key, o: nat, t: Time)
    requires WellFormedTable(tbl) && Shaped(tbl, a) && Shaped(tbl, b) && o < |tbl.fields|
    ensures RowOf(FileRows(a), key) == RowOf(FileRows(b), key)
            ==> FileCell(tbl, a, key, o, t) == FileCell(tbl, b, key, o, t)
    ensures RowOf(FileRows(a), key).None? ==> FileCell(tbl, a, key, o, t) == Columns.Unset(tbl.fields[o].expr)
  {
    hide Good, RowOf, ColOf;
  }

  /** All rows that a flush writes have room in the file. */
  ghost predicate HaveRoom(tbl: Table, st: Store, mergeCutoff: Time, writeCutoff: Time, order: seq<Key>)
    requires WellFormedTable(tbl) && Shaped(tbl, st) && IsOrder(order, st.tree)
  {
    forall r | r in WrittenRows(tbl, st, mergeCutoff, writeCutoff, order) :: RowHasRoom(r)
  }

  /** Rows with more than 16 bits for the length of the key or the number of columns are not read as written. */
  lemma ReadIffRoom(tbl: Table, st: Store, mergeCutoff: Time, writeCutoff: Time, order: seq<Key>, misread: seq<Row>)
    requires WellFormedTable(tbl) && Shaped(tbl, st) && IsOrder(order, st.tree)
    ensures var rows := WrittenRows(tbl, st, mergeCutoff, writeCutoff, order);
            FileRows(FlushedStore(tbl, st, mergeCutoff, writeCutoff, order, misread))
            == if forall r | r in rows :: |r.key| <= 65535 && |r.cols| <= 65535 then rows else misread
  {
    hide WellFormedTable, Shaped, IsOrder, WrittenRows;
  }

  // ---------------------------------------------------------------- files with lost rows

  /** What a flush passes on. */
  ghost function PassedOn(tbl: Table, st: Store, mergeCutoff: Time, order: seq<Key>): seq<Emitted>
    requires WellFormedTable(tbl) && Shaped(tbl, st) && IsOrder(order, st.tree)
  {
    NamedFits(tbl, st, mergeCutoff, 0, order);
    NamedJoin(FlushJoin(tbl, mergeCutoff), RawAllowed(st), FileRows(st), st.tree, st.arrived, order)
  }

  /** Rows that differ in their key at most. */
  predicate SameCols(a: Emitted, b: Emitted) {
    a == b || (a.Joined? && b.Joined? && a.cols == b.cols)
  }

  lemma NamedCols(j: Join, raw: bool, rows: seq<Row>, tree: Memory, arrived: seq<Key>, order: seq<Key>)
    requires WellFormed(j) && RowsFit(j, rows) && MemoryFits(j, tree) && IsOrder(order, tree)
    ensures var a, b := NamedJoin(j, raw, rows, tree, arrived, order), AllJoined(j, raw, rows, tree, order);
            |a| == |b| && forall i | 0 <= i < |a| :: SameCols(a[i], b[i])
  {
    hide WellFormed, JoinedCols, EmittedFor, Remaining, NameOf, RadixShapes.NoRepeats;
  }

  /** A file of rows that go by different names is one that can be gone on with. */
  lemma LossIsShaped(tbl: Table, st: Store, mergeCutoff: Time, writeCutoff: Time, order: seq<Key>, misread: seq<Row>)
    requires WellFormedTable(tbl) && Shaped(tbl, st) && IsOrder(order, st.tree)
             && HaveRoom(tbl, st, mergeCutoff, writeCutoff, order)
    requires RadixShapes.NoRepeats(EmittedKeys(PassedOn(tbl, st, mergeCutoff, order)))
    ensures Shaped(tbl, FlushedStore(tbl, st, mergeCutoff, writeCutoff, order, misread))
  {
    hide Good, RowGood, WellFormedTable, NamedJoin, AllJoined, WrittenAll, IsLost, RadixShapes.NoRepeats, WellFormed,
      CanWrite, EmittedKeys, RowOf;
    var j, w, raw, rows := FlushJoin(tbl, mergeCutoff), FlushWriting(tbl, writeCutoff), RawAllowed(st), FileRows(st);
    FlushReady(tbl, st, mergeCutoff, writeCutoff, order);
    NamedFits(tbl, st, mergeCutoff, writeCutoff, order);
    JoinedFits(j, w, raw, rows, st.tree, order);
    FlushedIsShaped(tbl, st, mergeCutoff, writeCutoff, order);
    var a, b := NamedJoin(j, raw, rows, st.tree, st.arrived, order), AllJoined(j, raw, rows, st.tree, order);
    NamedCols(j, raw, rows, st.tree, st.arrived, order);
    WrittenKeys(w, a);
    WrittenFrom(w, a);
    forall r | r in WrittenAll(w, a) ensures RowGood(tbl, r.cols) {
      var e :| e in a && Written(w, e) == Some(r);
      var i :| 0 <= i < |a| && a[i] == e;
      WrittenTwin(w, a[i], b, i);
    }
  }

  /** What is written of a row does not depend on its key. */
  lemma WrittenTwin(w: Writing, e: Emitted, b: seq<Emitted>, i: nat)
    requires CanWrite(w) && i < |b| && SameCols(e, b[i]) && Fits(w, e) && (forall x | x in b :: Fits(w, x))
             && Written(w, e).Some?
    ensures exists r :: r in WrittenAll(w, b) && r.cols == Written(w, e).value.cols
  {
    hide TruncatedCols, CanWrite;
    assert b[i] in b;
    WrittenAt(w, b, i);
  }

  lemma {:induction false} WrittenAt(w: Writing, out: seq<Emitted>, i: nat)
    requires CanWrite(w) && i < |out| && (forall e | e in out :: Fits(w, e)) && out[i] in out
    ensures Written(w, out[i]).Some? ==> Written(w, out[i]).value in WrittenAll(w, out)
  {
    hide Written, CanWrite, Fits;
    var n := |out| - 1;
    if i < n { assert out[i] == out[..n][i]; WrittenAt(w, out[..n], i); }
  }

  // ---------------------------------------------------------------- what disk holds

  /**
   * After a flush, disk holds what it claims for a key but the empty one exactly if
   * the row of the key was not lost, or has nothing in that period.
   */
  lemma FlushHoldsIff(tbl: Table, logs: Logs, st: Store, mergeCutoff: Time, writeCutoff: Time,
                      order: seq<Key>,
                      misread: seq<Row>, key: Key, o: nat, t: Time)
    requires WellFormedTable(tbl) && Shaped(tbl, st) && Positioned(tbl, logs, st) && o < |tbl.fields|
             && IsOrder(order, st.tree)
    requires Live(t, tbl.res, mergeCutoff) && Live(t, tbl.res, writeCutoff) && HoldsAt(tbl, logs, st, key, o, t)
             && key != []
    requires HaveRoom(tbl, st, mergeCutoff, writeCutoff, order)
             && RadixShapes.NoRepeats(EmittedKeys(PassedOn(tbl, st, mergeCutoff, order)))
    ensures var now := FlushedStore(tbl, st, mergeCutoff, writeCutoff, order, misread);
            && Shaped(tbl, now) && Positioned(tbl, logs, now)
            && (HoldsAt(tbl, logs, now, key, o, t)
               <==> !LosesKey(st, key) || MemCell(tbl, st, key, o, t) == Columns.Unset(tbl.fields[o].expr))
  {
    hide Shaped, FileCell, MemCell, StateBetween, JoinedStore, WrittenRows, Positioned, RowOf, LosesKey,
      WellFormedTable, InOrder, SamePositions, Recovered,
      PassedOn, EmittedKeys, RadixShapes.NoRepeats;
    LossIsShaped(tbl, st, mergeCutoff, writeCutoff, order, misread);
    var now, joined := FlushedStore(tbl, st, mergeCutoff, writeCutoff, order, misread),
      JoinedStore(tbl, st, mergeCutoff, writeCutoff, order);
    SameRecovered(tbl, logs, st, mergeCutoff, writeCutoff, order, misread);
    FlushHolds(tbl, logs, st, mergeCutoff, writeCutoff, order, key, o, t);
    FlushedRow(tbl, st, mergeCutoff, writeCutoff, order, key);
    SameCell(tbl, now, joined, key, o, t);
    EmptyMemory(tbl, now, joined, key, o, t);
    if LosesKey(st, key) { LostCell(tbl, logs, st, mergeCutoff, writeCutoff, order, key, o, t); }
  }

  lemma SameRecovered(tbl: Table, logs: Logs, st: Store, mergeCutoff: Time, writeCutoff: Time,
                      order: seq<Key>, misread: seq<Row>)
    requires WellFormedTable(tbl) && Shaped(tbl, st) && Positioned(tbl, logs, st) && IsOrder(order, st.tree)
    ensures var now, joined := FlushedStore(tbl, st, mergeCutoff, writeCutoff, order, misread),
            JoinedStore(tbl, st, mergeCutoff, writeCutoff, order);
            && Positioned(tbl, logs, now) && Positioned(tbl, logs, joined) && Recovered(now) == Recovered(joined)
               && now.offsets == joined.offsets
            && now.tree == joined.tree == map[]
  {
    hide Shaped, WrittenRows, Flushed, CanFlush, WellFormedTable;
    FlushedOffsets(tbl, logs, st, mergeCutoff, writeCutoff, order);
  }

  lemma EmptyMemory(tbl: Table, a: Store, b: Store, key: Key, o: nat, t: Time)
    requires WellFormedTable(tbl) && Shaped(tbl, a) && Shaped(tbl, b) && o < |tbl.fields| && a.tree == b.tree
    ensures MemCell(tbl, a, key, o, t) == MemCell(tbl, b, key, o, t)
  {
  }

  /** What the join has for a key that is only in memory is what memory has. */
  lemma LostCell(tbl: Table, logs: Logs, st: Store, mergeCutoff: Time, writeCutoff: Time, order: seq<Key>, key: Key,
                 o: nat, t: Time)
    requires WellFormedTable(tbl) && Shaped(tbl, st) && Positioned(tbl, logs, st) && o < |tbl.fields|
             && IsOrder(order, st.tree)
    requires Live(t, tbl.res, mergeCutoff) && Live(t, tbl.res, writeCutoff) && HoldsAt(tbl, logs, st, key, o, t)
             && LosesKey(st, key)
    ensures var joined := JoinedStore(tbl, st, mergeCutoff, writeCutoff, order);
            && Shaped(tbl, joined) && Positioned(tbl, logs, joined)
            && StateBetween(tbl, logs, map[], Recovered(joined), key, o, t) == MemCell(tbl, st, key, o, t)
  {
    hide Shaped, FileCell, MemCell, StateBetween, JoinedStore, RowOf, WellFormedTable, InOrder, SamePositions,
      Recovered, Merge, IsState, Cell, ColIn, EncodedWidth, Sized;
    var joined := JoinedStore(tbl, st, mergeCutoff, writeCutoff, order);
    FlushHolds(tbl, logs, st, mergeCutoff, writeCutoff, order, key, o, t);
    FlushedOffsets(tbl, logs, st, mergeCutoff, writeCutoff, order);
    InMiddle(tbl, logs, st);
    InMiddle(tbl, logs, joined);
    RowOfAbsent(FileRows(st), key);
    SameCell(tbl, st, st, key, o, t);
    ShapedColumns(tbl, st, key, o);
    MemoryIsState(tbl, st, key, o, t);
    HeldTogether(tbl, logs, Recovered(st), st.offsets, key, o, t);
    StateAlike(tbl, logs, map[], st.offsets, map[], Recovered(joined), key, o, t);
  }

  lemma MemoryIsState(tbl: Table, st: Store, key: Key, o: nat, t: Time)
    requires WellFormedTable(tbl) && Shaped(tbl, st) && o < |tbl.fields| && Storable(tbl.fields[o])
    ensures var e, b := tbl.fields[o].expr, MemCell(tbl, st, key, o, t);
            |b| == EncodedWidth(e) && Merge(e, Columns.Unset(e), b) == b
  {
    hide Shaped, Good, Merge, IsState, MemoryCol, Cell;
    ShapedColumns(tbl, st, key, o);
    CellIsState(tbl.fields[o], MemoryCol(FlushJoin(tbl, 0), st.tree, key, o), tbl.res, t);
    MergeIdentity(tbl.fields[o].expr, MemCell(tbl, st, key, o, t));
  }

  // ---------------------------------------------------------------- a run that loses a row

  /** A log with two entries, for a key and for one that it starts with. */
  function PrefixLog(): Logs {
    map[0 := [Some(Insertion(5, [1, 2], [Point(map["a" := 1.0], None)])),
      Some(Insertion(5, [1], [Point(map["a" := 2.0], None)]))]]
  }

  const LONG: Key := [1, 2]
  const SHORT: Key := [1]

  /** Both entries, one after the other. */
  ghost function BothInserted(sem: Conditions): Store
    requires WellFormedTable(RowPartial.SumTable(sem)) && Shaped(RowPartial.SumTable(sem), Created())
    requires Shaped(RowPartial.SumTable(sem), FirstInserted(sem))
  {
    Inserted(RowPartial.SumTable(sem), FirstInserted(sem), 0, PrefixLog()[0][1], 0)
  }

  ghost function FirstInserted(sem: Conditions): Store
    requires WellFormedTable(RowPartial.SumTable(sem)) && Shaped(RowPartial.SumTable(sem), Created())
  {
    Inserted(RowPartial.SumTable(sem), Created(), 0, PrefixLog()[0][0], 0)
  }

  lemma PrefixIsInserted(sem: Conditions)
    ensures var tbl := RowPartial.SumTable(sem);
            && WellFormedTable(tbl) && WellFormedLogs(tbl, PrefixLog()) && Shaped(tbl, Created())
               && Shaped(tbl, FirstInserted(sem))
            && Enabled(tbl, PrefixLog(), Created(), Insert(0, 0))
               && Apply(tbl, PrefixLog(), Created(), Insert(0, 0)) == FirstInserted(sem)
            && Enabled(tbl, PrefixLog(), FirstInserted(sem), Insert(0, 0))
            && Apply(tbl, PrefixLog(), FirstInserted(sem), Insert(0, 0)) == BothInserted(sem)
            && Invariant(tbl, PrefixLog(), BothInserted(sem), 0)
  {
    hide Invariant, UpdatedCols, RadixShapes.NoRepeats, RowGood, HoldsAt;
    var tbl := RowPartial.SumTable(sem);
    RowPartial.SumTableIsWellFormed(sem);
    CreatedHolds(tbl, PrefixLog());
    RowPartial.ShapedNow(tbl, PrefixLog(), Created());
    InsertedIsShaped(tbl, Created(), 0, PrefixLog()[0][0], 0);
    InsertKeeps(tbl, PrefixLog(), Created(), 0, 0, 0);
    InsertKeeps(tbl, PrefixLog(), FirstInserted(sem), 0, 0, 0);
  }

  lemma PrefixMemory(sem: Conditions)
    requires WellFormedTable(RowPartial.SumTable(sem)) && Shaped(RowPartial.SumTable(sem), Created())
    requires Shaped(RowPartial.SumTable(sem), FirstInserted(sem))
    ensures var st := BothInserted(sem);
            && st.tree.Keys == {LONG, SHORT} && st.arrived == [LONG, SHORT] && st.file.None? && st.offsetFile.None?
               && st.offsets == map[0 := 2]
            && IsOrder([LONG, SHORT], st.tree)
  {
    hide UpdatedCols, RowGood;
    assert [LONG, SHORT][0] == LONG && [LONG, SHORT][1] == SHORT;
  }

  lemma PrefixNames()
    ensures NamesOf([LONG, SHORT], RestOf([], [LONG, SHORT])) == [LONG, []] && IsLost([LONG, SHORT], SHORT)
  {
    var keys: seq<Key> := [LONG, SHORT];
    assert Keys([]) == [] && (set k | k in Keys([])) == {};
    AllRemain(keys);
    assert keys[1] == SHORT && SHORT !in keys[..1] && SHORT < keys[0];
    assert !IsLost(keys, LONG);
  }

  lemma {:induction false} AllRemain(order: seq<Key>)
    ensures Remaining(order, {}) == order
  {
    if order != [] { AllRemain(order[..|order| - 1]); }
  }

  /** What was logged for the shorter key. */
  lemma PrefixState(sem: Conditions, hi: Offsets)
    requires WellFormedTable(RowPartial.SumTable(sem)) && InOrder(PrefixLog(), map[], hi) && Pos(hi, 0) == 2
    ensures StateBetween(RowPartial.SumTable(sem), PrefixLog(), map[], hi, SHORT, 0, 5) == Saved(2.0)
  {
    hide InOrder, Between;
    var p := PrefixLog()[0][1].value.points[0];
    PrefixPoints(sem, hi);
    assert [p][..0] == [];
    LoadSaved(2.0, 0.0, 0.0);
  }

  lemma PrefixPoints(sem: Conditions, hi: Offsets)
    requires InOrder(PrefixLog(), map[], hi) && Pos(hi, 0) == 2
    ensures var tbl := RowPartial.SumTable(sem);
            Between(tbl, PrefixLog(), tbl.sources, map[], hi, SHORT, 5) == [PrefixLog()[0][1].value.points[0]]
  {
    hide InOrder, Landed;
    var tbl, log := RowPartial.SumTable(sem), PrefixLog()[0];
    assert tbl.sources[..0] == [] && log[0..2] == log;
    PrefixLands();
  }

  lemma PrefixLands()
    ensures Landed(1, PrefixLog()[0], SHORT, 5) == PrefixLog()[0][1].value.points
  {
    var log := PrefixLog()[0];
    assert log[..1] == [log[0]] && log[..1][..0] == [];
    assert Sequences.RoundTimeUp(5, 1) == 5;
    assert Landed(1, log[..1], SHORT, 5) == [];
  }

  lemma PrefixHasRoom(sem: Conditions)
    requires WellFormedTable(RowPartial.SumTable(sem)) && Shaped(RowPartial.SumTable(sem), Created())
    requires Shaped(RowPartial.SumTable(sem), FirstInserted(sem)) && Shaped(RowPartial.SumTable(sem), BothInserted(sem))
    requires IsOrder([LONG, SHORT], BothInserted(sem).tree)
    ensures var tbl, st := RowPartial.SumTable(sem), BothInserted(sem);
            && EmittedKeys(PassedOn(tbl, st, 0, [LONG, SHORT])) == [LONG, []] && HaveRoom(tbl, st, 0, 0, [LONG, SHORT])
  {
    hide Shaped, Inserted, WellFormedTable, HaveRoom, PassedOn, IsLost, Remaining, NamesOf, EmittedKeys;
    var tbl, st, order := RowPartial.SumTable(sem), BothInserted(sem), [LONG, SHORT];
    PrefixMemory(sem);
    PrefixNames();
    MemoryNames(tbl, st, order);
    RoomForNames(tbl, st, 0, 0, order);
  }

  /** Without a file, what is passed on goes by the names of what is in memory. */
  lemma MemoryNames(tbl: Table, st: Store, order: seq<Key>)
    requires WellFormedTable(tbl) && Shaped(tbl, st) && IsOrder(order, st.tree) && st.file.None?
    ensures EmittedKeys(PassedOn(tbl, st, 0, order)) == NamesOf(st.arrived, RestOf([], order))
  {
    hide Shaped, WellFormedTable, JoinedCols, NameOf, Remaining, WellFormed;
  }

  lemma RoomForNames(tbl: Table, st: Store, mergeCutoff: Time, writeCutoff: Time, order: seq<Key>)
    requires WellFormedTable(tbl) && Shaped(tbl, st) && IsOrder(order, st.tree) && |tbl.fields| < RowCodec.LIMIT16
    requires forall k | k in EmittedKeys(PassedOn(tbl, st, mergeCutoff, order)) :: |k| < RowCodec.LIMIT16
    ensures HaveRoom(tbl, st, mergeCutoff, writeCutoff, order)
  {
    hide Shaped, WellFormedTable, NamedJoin, WrittenAll, TruncatedCols, WellFormed, CanWrite, RadixShapes.NoRepeats;
    NamedFits(tbl, st, mergeCutoff, writeCutoff, order);
    var out, w := PassedOn(tbl, st, mergeCutoff, order), FlushWriting(tbl, writeCutoff);
    WrittenFrom(w, out);
    RawRows(FlushJoin(tbl, mergeCutoff), RawAllowed(st), FileRows(st), st.tree, st.arrived, order);
    forall r | r in WrittenRows(tbl, st, mergeCutoff, writeCutoff, order) ensures RowHasRoom(r) {
      var e :| e in out && Written(w, e) == Some(r);
      var i :| 0 <= i < |out| && out[i] == e;
      assert EmittedKeys(out)[i] == r.key;
    }
  }

  lemma RawRows(j: Join, raw: bool, rows: seq<Row>, tree: Memory, arrived: seq<Key>, order: seq<Key>)
    requires WellFormed(j) && RowsFit(j, rows) && MemoryFits(j, tree) && IsOrder(order, tree)
    ensures forall e | e in NamedJoin(j, raw, rows, tree, arrived, order) :: e.Raw? ==> |e.row.cols| == |j.fileFields|
  {
    hide WellFormed, JoinedCols, NameOf, Remaining, RadixShapes.NoRepeats;
  }

  /**
   * Two inserts and a flush: disk claims both entries, whose sum for the shorter key
   * is 2, and has nothing for that key.
   */
  lemma RunLosesRow(sem: Conditions) returns (events: seq<Event>, st: Store)
    ensures var tbl := RowPartial.SumTable(sem);
            && WellFormedTable(tbl) && WellFormedLogs(tbl, PrefixLog()) && Reaches(tbl, PrefixLog(), events, st)
            && Shaped(tbl, st) && Positioned(tbl, PrefixLog(), st) && Pos(Recovered(st), 0) == 2
            && StateBetween(tbl, PrefixLog(), map[], Recovered(st), SHORT, 0, 5) == Saved(2.0)
            && FileCell(tbl, st, SHORT, 0, 5) == Zeros(EncodedWidth(tbl.fields[0].expr))
  {
    hide Shaped, WellFormedTable, WellFormedLogs, Invariant, Enabled, Apply, Inserted, FileCell, MemCell, StateBetween,
      HoldsAt, Positioned;
    var tbl, order := RowPartial.SumTable(sem), [LONG, SHORT];
    PrefixIsInserted(sem);
    PrefixMemory(sem);
    var mid := BothInserted(sem);
    assert Shaped(tbl, mid) && Positioned(tbl, PrefixLog(), mid)
      && HoldsAt(tbl, PrefixLog(), mid, SHORT, 0, 5) by { HoldsNow(tbl, PrefixLog(), mid); }
    PrefixHasRoom(sem);
    PrefixNames();
    FlushHoldsIff(tbl, PrefixLog(), mid, 0, 0, order, [], SHORT, 0, 5);
    st := FlushedStore(tbl, mid, 0, 0, order, []);
    events := [Insert(0, 0), Insert(0, 0), Flush(0, 0, order, [])];
    FlushedRow(tbl, mid, 0, 0, order, SHORT);
    SameCell(tbl, st, st, SHORT, 0, 5);
    PrefixRun(sem, st);
    RecoveredNow(tbl, PrefixLog(), st, mid);
    PrefixState(sem, Recovered(st));
  }

  lemma ReachesNext(tbl: Table, logs: Logs, init: seq<Event>, before: Store, ev: Event, st: Store)
    requires WellFormedTable(tbl) && Reaches(tbl, logs, init, before) && Steps(tbl, logs, before, ev, st)
    ensures Reaches(tbl, logs, init + [ev], st)
  {
    hide Steps;
    assert (init + [ev])[..|init|] == init;
  }

  lemma PrefixRun(sem: Conditions, st: Store)
    requires var tbl := RowPartial.SumTable(sem);
             && WellFormedTable(tbl) && Shaped(tbl, Created()) && Shaped(tbl, FirstInserted(sem))
                && Shaped(tbl, BothInserted(sem))
             && IsOrder([LONG, SHORT], BothInserted(sem).tree)
                && st == FlushedStore(tbl, BothInserted(sem), 0, 0, [LONG, SHORT], [])
    ensures Reaches(RowPartial.SumTable(sem), PrefixLog(),
            [Insert(0, 0), Insert(0, 0), Flush(0, 0, [LONG, SHORT], [])], st)
  {
    hide Shaped, WellFormedTable, Inserted, FlushedStore, Reaches, RadixShapes.NoRepeats;
    var tbl, logs, flush := RowPartial.SumTable(sem), PrefixLog(), Flush(0, 0, [LONG, SHORT], []);
    PrefixIsInserted(sem);
    PrefixMemory(sem);
    NoRun(tbl, logs);
    assert [] + [Insert(0, 0)] == [Insert(0, 0)] && [Insert(0, 0)] + [Insert(0, 0)] == [Insert(0, 0), Insert(0, 0)];
    assert [Insert(0, 0), Insert(0, 0)] + [flush] == [Insert(0, 0), Insert(0, 0), flush];
    ReachesNext(tbl, logs, [], Created(), Insert(0, 0), FirstInserted(sem));
    ReachesNext(tbl, logs, [Insert(0, 0)], FirstInserted(sem), Insert(0, 0), BothInserted(sem));
    assert BothInserted(sem).tree != map[];
    ReachesNext(tbl, logs, [Insert(0, 0), Insert(0, 0)], BothInserted(sem), flush, st);
  }

  lemma NoRun(tbl: Table, logs: Logs)
    requires WellFormedTable(tbl)
    ensures Reaches(tbl, logs, [], Created())
  {
  }

  lemma RecoveredNow(tbl: Table, logs: Logs, st: Store, mid: Store)
    requires Positioned(tbl, logs, st) && mid.offsetFile.None? && mid.offsets == map[0 := 2]
    requires st.file.Some? && st.file.value.offsets == mid.offsets && st.offsetFile == mid.offsetFile
    ensures Pos(Recovered(st), 0) == 2 && InOrder(logs, map[], Recovered(st))
  {
  }

  lemma HoldsNow(tbl: Table, logs: Logs, st: Store)
    requires WellFormedTable(tbl) && Invariant(tbl, logs, st, 0) && |tbl.fields| > 0 && tbl.res == 1
    ensures Shaped(tbl, st) && Positioned(tbl, logs, st) && HoldsAt(tbl, logs, st, SHORT, 0, 5)
  {
    assert Live(5, 1, 0);
  }
}
