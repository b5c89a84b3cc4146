/**
 * Flushing memory to a new data file (row_store.go).
 *
 * A flush iterates over the current file joined with memory and writes what is
 * passed on.  Rows without changes may be copied as they are; all others are
 * truncated to the retention cutoff, and dropped once nothing is left of them.
 * A flush keeps every cell within retention: it holds the merge of the cell in
 * the file with the cell in memory (`FlushedCell`).  Of rows that are not copied it
 * leaves nothing that ended by the cutoff (`FlushedDrops`), and no row if that is
 * all there was (`FlushedRowIff`).
 */
module RowStore {
  import opened Wrappers
  import opened Arithmetic
  import opened Accumulators
  import opened RowJoin
  import Sequences
  import Columns
  import RadixShapes

  // ---------------------------------------------------------------- writing rows

  /** How rows are written: the fields, the cutoff and whether the file is sorted. */
  datatype Writing = Writing(fields: seq<Field>, res: Resolution, truncateBefore: Time, sort: bool)

  predicate CanWrite(w: Writing) {
    DistinctIds(w.fields) && forall f | f in w.fields :: Storable(f)
  }

  function TruncatedCol(f: Field, c: Column, res: Resolution, truncateBefore: Time): Column
    requires Storable(f)
  {
    Sequences.Truncate(c, EncodedWidth(f.expr), res, truncateBefore, 0)
  }

  function TruncatedCols(w: Writing, cols: seq<Column>): (r: seq<Column>)
    requires CanWrite(w) && |cols| == |w.fields|
    ensures |r| == |cols|
  {
    seq(|cols|, i requires 0 <= i < |cols| => TruncatedCol(w.fields[i], cols[i], w.res, w.truncateBefore))
  }

  predicate Active(cols: seq<Column>) {
    exists i :: 0 <= i < |cols| && cols[i].Seq?
  }

  predicate Fits(w: Writing, e: Emitted) {
    e.Joined? ==> |e.cols| == |w.fields|
  }

  /** The row written for what was passed on; a raw row has no columns to look at when sorting. */
  function Written(w: Writing, e: Emitted): (r: Option<Row>)
    requires CanWrite(w) && Fits(w, e)
    ensures r.Some? ==> r.value.key == KeyOf(e)
  {
    if e.Raw? then (if w.sort then None else Some(e.row))
    else
      var cols := TruncatedCols(w, e.cols);
      if Active(cols) then Some(Row(e.key, cols)) else None
  }

  /**
   * fileStore.doWrite: a raw row is copied, or dropped when sorting.  Any other is
   * written if one of its columns has something after the cutoff, without what is
   * not.
   */
  method DoWrite(w: Writing, e: Emitted) returns (row: Option<Row>)
    requires CanWrite(w) && Fits(w, e)
    ensures row == Written(w, e)
    ensures e.Raw? ==> row == if w.sort then None else Some(e.row)
    ensures e.Joined? && AreGood(w, e.cols) ==> IsTruncation(w, e.key, e.cols, row)
  {
    if e.Joined? && AreGood(w, e.cols) { WrittenMeaning(w, e); }
    hide TruncatedCol, Storable, AreGood, IsTruncation;
    if !w.sort && e.Raw? { return Some(e.row); }
    var columns := if e.Raw? then [] else e.cols;
    var hasActiveSequence := false;
    for i := 0 to |columns|
      invariant |columns| == if e.Raw? then 0 else |e.cols|
      invariant e.Joined? ==> forall k | 0 <= k < |columns| :: columns[k] == if k < i then TruncatedCols(w, e.cols)[k]
        else e.cols[k]
      invariant hasActiveSequence <==> exists k :: 0 <= k < i && columns[k].Seq?
    {
      var c := TruncatedCol(w.fields[i], columns[i], w.res, w.truncateBefore);
      columns := columns[i := c];
      if c.Seq? { hasActiveSequence := true; }
    }
    assert e.Joined? ==> columns == TruncatedCols(w, e.cols);
    if !hasActiveSequence { return None; }
    return Some(Row(KeyOf(e), columns));
  }

  function WrittenAll(w: Writing, out: seq<Emitted>): (rows: seq<Row>)
    requires CanWrite(w) && forall e | e in out :: Fits(w, e)
  {
    if out == [] then [] else
      var n := |out| - 1;
      assert out[n] in out;
      var before, last := WrittenAll(w, out[..n]), Written(w, out[n]);
      if last.None? then before else before + [last.value]
  }

  method WriteAll(w: Writing, out: seq<Emitted>) returns (rows: seq<Row>)
    requires CanWrite(w) && forall e | e in out :: Fits(w, e)
    ensures rows == WrittenAll(w, out)
  {
    rows := [];
    for i := 0 to |out|
      invariant rows == WrittenAll(w, out[..i])
    {
      assert out[..i + 1][..i] == out[..i] && out[i] in out;
      var row := DoWrite(w, out[i]);
      if row.Some? { rows := rows + [row.value]; }
    }
    assert out[..|out|] == out;
  }

  /** The rows written have the keys of what was passed on, each at most once. */
  lemma {:induction false} WrittenKeys(w: Writing, out: seq<Emitted>)
    requires CanWrite(w) && forall e | e in out :: Fits(w, e)
    requires RadixShapes.NoRepeats(EmittedKeys(out))
    ensures RadixShapes.NoRepeats(Keys(WrittenAll(w, out)))
    ensures forall k | k in Keys(WrittenAll(w, out)) :: k in EmittedKeys(out)
  {
    if out != [] {
      hide Written;
      var n := |out| - 1;
      var before, last := WrittenAll(w, out[..n]), Written(w, out[n]);
      assert EmittedKeys(out[..n]) == EmittedKeys(out)[..n] && EmittedKeys(out)[n] == KeyOf(out[n]);
      WrittenKeys(w, out[..n]);
      RadixShapes.NotBefore(EmittedKeys(out), n);
      if last.Some? { assert Keys(before + [last.value]) == Keys(before) + [last.value.key]; }
    }
  }

  lemma {:induction false} WrittenOf(w: Writing, out: seq<Emitted>, key: Key)
    requires CanWrite(w) && forall e | e in out :: Fits(w, e)
    requires RadixShapes.NoRepeats(EmittedKeys(out))
    ensures var e := EmittedOf(out, key); RowOf(WrittenAll(w, out), key) == if e.None? then None
            else Written(w, e.value)
  {
    if out != [] {
      hide Written;
      var n := |out| - 1;
      var before, last := WrittenAll(w, out[..n]), Written(w, out[n]);
      assert EmittedKeys(out[..n]) == EmittedKeys(out)[..n] && EmittedKeys(out)[n] == KeyOf(out[n]);
      WrittenOf(w, out[..n], key);
      RadixShapes.NotBefore(EmittedKeys(out), n);
      if last.Some? {
        assert (before + [last.value])[..|before|] == before;
      } else if KeyOf(out[n]) == key {
        WrittenKeys(w, out[..n]);
        RowOfAbsent(before, key);
      }
    }
  }

  // ---------------------------------------------------------------- what cells hold

  /** A column on the grid whose cells are states of the field's expression. */
  ghost predicate Good(f: Field, c: Column, res: Resolution)
    requires Storable(f)
  {
    Sequences.OnGrid(c, res) && Sequences.AllCells(c, Columns.Proper(f.expr))
  }

  /** The end of a period that starts at or after a cutoff. */
  predicate Live(t: Time, res: Resolution, cutoff: Time) {
    t % res == 0 && t > 0 && cutoff <= t - res
  }

  function Cell(f: Field, c: Column, res: Resolution, t: Time): Bytes {
    Sequences.At(c, res, t, Columns.Unset(f.expr))
  }

  lemma GoodNothing(f: Field, res: Resolution, t: Time)
    requires Storable(f)
    ensures Good(f, Sequences.Nil, res) && Cell(f, Sequences.Nil, res, t) == Columns.Unset(f.expr)
  {
  }

  lemma CellIsState(f: Field, c: Column, res: Resolution, t: Time)
    requires Storable(f) && Good(f, c, res)
    ensures IsState(f.expr, Cell(f, c, res, t))
  {
    Columns.MergerIsLawful(f.expr);
    Sequences.AtIsOk(c, res, t, Columns.Proper(f.expr), Columns.Unset(f.expr));
  }

  /** Merging columns merges their cells. */
  lemma MergedCell(f: Field, a: Column, b: Column, res: Resolution, truncateBefore: Time, t: Time)
    requires Storable(f) && Good(f, a, res) && Good(f, b, res) && Live(t, res, truncateBefore)
    ensures IsState(f.expr, Cell(f, a, res, t)) && IsState(f.expr, Cell(f, b, res, t))
    ensures Cell(f, Merged(f, a, b, res, truncateBefore), res, t)
            == Merge(f.expr, Cell(f, a, res, t), Cell(f, b, res, t))
  {
    hide Sequences.Merge, Merge, IsState;
    var ok, zero, merge := Columns.Proper(f.expr), Columns.Unset(f.expr), Columns.Merger(f.expr);
    Columns.MergerIsLawful(f.expr);
    if a.Seq? { Sequences.GridDifference(a.until, t, res); }
    if b.Seq? { Sequences.GridDifference(b.until, t, res); }
    Sequences.MergeMeaning(a, b, res, truncateBefore, t, ok, zero, merge);
    CellIsState(f, a, res, t);
    CellIsState(f, b, res, t);
  }

  lemma MergedIsGood(f: Field, a: Column, b: Column, res: Resolution, truncateBefore: Time)
    requires Storable(f) && Good(f, a, res) && Good(f, b, res)
    ensures Good(f, Merged(f, a, b, res, truncateBefore), res)
  {
    var ok, zero, merge := Columns.Proper(f.expr), Columns.Unset(f.expr), Columns.Merger(f.expr);
    Columns.MergerIsLawful(f.expr);
    Sequences.MergeIsOk(a, b, res, truncateBefore, ok, zero, merge);
    hide Sequences.Lawful, Sequences.AllCells;
    assert Sequences.OnGrid(Sequences.Merge(a, b, res, truncateBefore, zero, merge), res);
  }

  /** Truncating keeps the cells after the cutoff and no others; a cutoff of zero is none. */
  lemma TruncatedCell(f: Field, c: Column, res: Resolution, truncateBefore: Time, t: Time)
    requires Storable(f) && Good(f, c, res) && t > 0
    ensures Cell(f, TruncatedCol(f, c, res, truncateBefore), res, t)
            == if truncateBefore == 0 || truncateBefore < t then Cell(f, c, res, t) else Columns.Unset(f.expr)
  {
    hide Sequences.Truncate, Sized, EncodedWidth, Sequences.AllCells;
    var width, zero := EncodedWidth(f.expr), Columns.Unset(f.expr);
    if c.Seq? {
      if Sequences.Aligned(c.until, t, res) {
        Sequences.TruncateMeaning(c, width, res, truncateBefore, 0, t, zero);
      } else {
        Sequences.TruncateIsPrefix(c, width, res, truncateBefore);
      }
    } else {
      TruncatedNothing(f, res, truncateBefore);
    }
  }

  /** Something is left of a column exactly if it reaches past the cutoff. */
  lemma Leaves(f: Field, c: Column, res: Resolution, truncateBefore: Time)
    requires Storable(f) && Good(f, c, res)
    ensures TruncatedCol(f, c, res, truncateBefore).Seq? <==> Outlasts(c, truncateBefore)
  {
    hide Sequences.Truncate, Sized, EncodedWidth, Sequences.AllCells;
    Sequences.TruncateLeaves(c, EncodedWidth(f.expr), res, truncateBefore);
  }

  lemma TruncatedIsGood(f: Field, c: Column, res: Resolution, truncateBefore: Time)
    requires Storable(f) && Good(f, c, res)
    ensures Good(f, TruncatedCol(f, c, res, truncateBefore), res)
  {
    Sequences.TruncateIsPrefix(c, EncodedWidth(f.expr), res, truncateBefore);
    hide IsState, Sequences.Truncate;
  }

  // ---------------------------------------------------------------- the cells of a file

  /** The column that a list of rows has for a key and a field. */
  function ColIn(fields: seq<Option<Field>>, rows: seq<Row>, key: Key, id: string): Column
    requires forall r | r in rows :: |r.cols| == |fields|
  {
    var row := RowOf(rows, key);
    if row.None? then Sequences.Nil else ColOf(fields, row.value.cols, id)
  }

  predicate SameIds(fields: seq<Option<Field>>, out: seq<Field>) {
    |fields| == |out| && forall i | 0 <= i < |out| :: fields[i].Some? && fields[i].value.id == out[i].id
  }

  lemma {:induction false} ColOfSameIds(fields: seq<Option<Field>>, out: seq<Field>, cols: seq<Column>, id: string)
    requires SameIds(fields, out) && |cols| == |out|
    ensures ColOf(fields, cols, id) == ColOf(Known(out), cols, id)
  {
    if out != [] {
      var n := |out| - 1;
      ColOfSameIds(fields[..n], out[..n], cols[..n], id);
      assert Known(out)[..n] == Known(out[..n]);
    }
  }

  lemma {:induction false} ColOfNone(fields: seq<Option<Field>>, id: string)
    ensures ColOf(fields, NoCols(|fields|), id) == Sequences.Nil
  {
    if fields != [] {
      var n := |fields| - 1;
      assert NoCols(|fields|)[..n] == NoCols(n);
      ColOfNone(fields[..n], id);
    }
  }

  /** The column written for a field of a joined row; it is missing only when it would be empty. */
  lemma WrittenCol(w: Writing, e: Emitted, o: nat)
    requires CanWrite(w) && e.Joined? && |e.cols| == |w.fields| && o < |w.fields|
    ensures var r := Written(w, e);
            var c := TruncatedCol(w.fields[o], e.cols[o], w.res, w.truncateBefore);
            && (r.Some? ==> |r.value.cols| == |w.fields|)
            && (if r.None? then c == Sequences.Nil else ColOf(Known(w.fields), r.value.cols, w.fields[o].id) == c)
  {
    hide TruncatedCol, Storable, ColOf;
    var cols := TruncatedCols(w, e.cols);
    assert cols[o] == TruncatedCol(w.fields[o], e.cols[o], w.res, w.truncateBefore);
    if Active(cols) {
      assert Known(w.fields)[o] == Some(w.fields[o]);
      ColOfAt(Known(w.fields), cols, o);
    }
  }

  // ---------------------------------------------------------------- flushing

  /** A flush of memory over a file: raw rows are passed on only if the file has the outbound fields. */
  ghost predicate CanFlush(j: Join, w: Writing, raw: bool, rows: seq<Row>, tree: Memory, order: seq<Key>) {
    && WellFormed(j) && RowsFit(j, rows) && MemoryFits(j, tree) && IsOrder(order, tree)
    && CanWrite(w) && w.fields == j.outFields && w.res == j.res
    && (raw ==> SameIds(j.fileFields, j.outFields))
  }

  ghost function Flushed(j: Join, w: Writing, raw: bool, rows: seq<Row>, tree: Memory, order: seq<Key>): (r: seq<Row>)
    requires CanFlush(j, w, raw, rows, tree, order)
  {
    JoinedFits(j, w, raw, rows, tree, order);
    WrittenAll(w, AllJoined(j, raw, rows, tree, order))
  }

  lemma JoinedFits(j: Join, w: Writing, raw: bool, rows: seq<Row>, tree: Memory, order: seq<Key>)
    requires CanFlush(j, w, raw, rows, tree, order)
    ensures forall e | e in AllJoined(j, raw, rows, tree, order) ::
      Fits(w, e) && (e.Raw? ==> raw && e.row in rows && e.row.key !in tree)
  {
    hide JoinedCols, Remaining, WellFormed;
  }

  /** fileStore.flush, for an iteration that is complete. */
  method FlushRows(j: Join, w: Writing, raw: bool, rows: seq<Row>, tree: Memory, order: seq<Key>)
    returns (written: seq<Row>, complete: bool)
    requires CanFlush(j, w, raw, rows, tree, order)
    ensures complete <==> forall r | r in rows :: Continues(j, raw, Lookup(tree, r.key))
    ensures complete ==> written == Flushed(j, w, raw, rows, tree, order)
  {
    hide WellFormed, CanWrite, JoinedCols, Remaining, FromMemory, Continues;
    JoinedFits(j, w, raw, rows, tree, order);
    var out;
    out, complete := Iterate(j, raw, rows, tree, order);
    written := [];
    if complete { written := WriteAll(w, out); }
  }

  /** The rows of the new file fit its fields. */
  lemma FlushedFits(j: Join, w: Writing, raw: bool, rows: seq<Row>, tree: Memory, order: seq<Key>)
    requires CanFlush(j, w, raw, rows, tree, order)
    ensures var now := Flushed(j, w, raw, rows, tree, order);
            RadixShapes.NoRepeats(Keys(now)) && forall r | r in now :: |r.cols| == |w.fields|
  {
    hide WellFormed, CanWrite, JoinedCols, Remaining, FromMemory, AllJoined;
    var out := AllJoined(j, raw, rows, tree, order);
    JoinedFits(j, w, raw, rows, tree, order);
    OuterJoin(j, raw, rows, tree, order);
    WrittenKeys(w, out);
    forall e | e in out && Written(w, e).Some? ensures |Written(w, e).value.cols| == |w.fields| {}
    WrittenFrom(w, out);
  }

  lemma {:induction false} WrittenFrom(w: Writing, out: seq<Emitted>)
    requires CanWrite(w) && forall e | e in out :: Fits(w, e)
    ensures forall r | r in WrittenAll(w, out) :: exists e :: e in out && Written(w, e) == Some(r)
  {
    if out != [] {
      hide Written;
      var n := |out| - 1;
      assert out[n] in out;
      WrittenFrom(w, out[..n]);
      assert forall e | e in out[..n] :: e in out;
    }
  }

  /** Nothing is merged into the row, and it may be copied. */
  predicate Copied(raw: bool, rows: seq<Row>, tree: Memory, key: Key) {
    raw && key in Keys(rows) && key !in tree
  }

  ghost function FileCol(j: Join, rows: seq<Row>, key: Key, o: nat): Column
    requires RowsFit(j, rows) && o < |j.outFields|
  {
    ColIn(j.fileFields, rows, key, j.outFields[o].id)
  }

  ghost function MemoryCol(j: Join, tree: Memory, key: Key, o: nat): Column
    requires MemoryFits(j, tree) && o < |j.outFields|
  {
    MemCol(j, Lookup(tree, key), j.outFields[o].id)
  }

  /** The column of the new file, for every key and field. */
  lemma FlushedCol(j: Join, w: Writing, raw: bool, rows: seq<Row>, tree: Memory, order: seq<Key>, key: Key, o: nat)
    requires CanFlush(j, w, raw, rows, tree, order) && o < |w.fields|
    ensures var f, now := w.fields[o], Flushed(j, w, raw, rows, tree, order);
            && (forall r | r in now :: |r.cols| == |w.fields|)
            && ColIn(Known(w.fields), now, key, f.id)
               == (if !Copied(raw, rows, tree, key)
                   then TruncatedCol(f, Merged(f, FileCol(j, rows, key, o), MemoryCol(j, tree, key, o), j.res,
                     j.truncateBefore), w.res, w.truncateBefore)
                   else if w.sort then Sequences.Nil
                   else FileCol(j, rows, key, o))
  {
    assert w.fields[o] in w.fields && Storable(w.fields[o]);
    hide WellFormed, CanWrite, Remaining, FromMemory, AllJoined, ColOf, TruncatedCol, Merged, Written, WrittenAll,
      EmittedOf, RowOf, Storable;
    var out, row, mem, f := AllJoined(j, raw, rows, tree, order), RowOf(rows, key), Lookup(tree, key), w.fields[o];
    JoinedFits(j, w, raw, rows, tree, order);
    OuterJoin(j, raw, rows, tree, order);
    FlushedFits(j, w, raw, rows, tree, order);
    WrittenOf(w, out, key);
    JoinedOf(j, raw, rows, tree, order, key);
    KeyIsThere(rows, key);
    if Copied(raw, rows, tree, key) {
      WrittenRaw(w, row.value);
      ColOfSameIds(j.fileFields, w.fields, row.value.cols, f.id);
    } else if row.Some? {
      WrittenCol(w, EmittedFor(j, raw, row.value, mem), o);
    } else {
      ColOfNone(j.fileFields, f.id);
      if mem.Some? {
        WrittenCol(w, Joined(key, JoinedCols(j, NoCols(|j.fileFields|), mem)), o);
      } else {
        MergedWithNothing(f, Sequences.Nil, j.res, j.truncateBefore);
        TruncatedNothing(f, w.res, w.truncateBefore);
      }
    }
  }

  lemma KeyIsThere(rows: seq<Row>, key: Key)
    requires RadixShapes.NoRepeats(Keys(rows))
    ensures RowOf(rows, key).Some? <==> key in Keys(rows)
  {
    if key in Keys(rows) {
      var i :| 0 <= i < |rows| && Keys(rows)[i] == key;
      RowOfAt(rows, i);
    } else {
      RowOfAbsent(rows, key);
    }
  }

  lemma WrittenRaw(w: Writing, row: Row)
    requires CanWrite(w)
    ensures Written(w, Raw(row)) == if w.sort then None else Some(row)
  {
  }

  lemma TruncatedNothing(f: Field, res: Resolution, truncateBefore: Time)
    requires Storable(f)
    ensures TruncatedCol(f, Sequences.Nil, res, truncateBefore) == Sequences.Nil
  {
  }

  /** A flush that is not sorted, or not raw, gives every cell within retention the merge of file and memory. */
  lemma FlushedCell(j: Join, w: Writing, raw: bool, rows: seq<Row>, tree: Memory, order: seq<Key>, key: Key, o: nat,
                    t: Time)
    requires CanFlush(j, w, raw, rows, tree, order) && o < |w.fields| && !(w.sort && Copied(raw, rows, tree, key))
    requires var f := w.fields[o];
             Storable(f) && Good(f, FileCol(j, rows, key, o), j.res) && Good(f, MemoryCol(j, tree, key, o), j.res)
    requires Live(t, j.res, j.truncateBefore) && Live(t, j.res, w.truncateBefore)
    ensures var f, now := w.fields[o], Flushed(j, w, raw, rows, tree, order);
            && (forall r | r in now :: |r.cols| == |w.fields|)
            && IsState(f.expr, Cell(f, FileCol(j, rows, key, o), j.res, t))
               && IsState(f.expr, Cell(f, MemoryCol(j, tree, key, o), j.res, t))
            && Cell(f, ColIn(Known(w.fields), now, key, f.id), j.res, t)
               == Merge(f.expr, Cell(f, FileCol(j, rows, key, o), j.res, t),
                 Cell(f, MemoryCol(j, tree, key, o), j.res, t))
  {
    hide WellFormed, RowsFit, MemoryFits, IsOrder, CanWrite, SameIds, Good, Flushed, ColIn, Cell, TruncatedCol, Merged,
      Merge, IsState, Sized, EncodedWidth;
    var f, a, b := w.fields[o], FileCol(j, rows, key, o), MemoryCol(j, tree, key, o);
    FlushedCol(j, w, raw, rows, tree, order, key, o);
    MergedCell(f, a, b, j.res, j.truncateBefore, t);
    if Copied(raw, rows, tree, key) {
      MergeIdentity(f.expr, Cell(f, a, j.res, t));
      GoodNothing(f, j.res, t);
    } else {
      MergedIsGood(f, a, b, j.res, j.truncateBefore);
      TruncatedCell(f, Merged(f, a, b, j.res, j.truncateBefore), j.res, w.truncateBefore, t);
    }
  }

  /** A flush leaves nothing of a row, unless it copies it, in periods that ended by the cutoff. */
  lemma FlushedDrops(j: Join, w: Writing, raw: bool, rows: seq<Row>, tree: Memory, order: seq<Key>, key: Key, o: nat,
                     t: Time)
    requires CanFlush(j, w, raw, rows, tree, order) && o < |w.fields| && !Copied(raw, rows, tree, key)
    requires var f := w.fields[o];
             Storable(f) && Good(f, FileCol(j, rows, key, o), j.res) && Good(f, MemoryCol(j, tree, key, o), j.res)
    requires 0 < t <= w.truncateBefore
    ensures var f, now := w.fields[o], Flushed(j, w, raw, rows, tree, order);
            && (forall r | r in now :: |r.cols| == |w.fields|)
            && Cell(f, ColIn(Known(w.fields), now, key, f.id), j.res, t) == Columns.Unset(f.expr)
  {
    hide WellFormed, RowsFit, MemoryFits, IsOrder, CanWrite, SameIds, Good, Flushed, ColIn, Cell, TruncatedCol, Merged,
      Sized, EncodedWidth;
    var f, a, b := w.fields[o], FileCol(j, rows, key, o), MemoryCol(j, tree, key, o);
    FlushedCol(j, w, raw, rows, tree, order, key, o);
    MergedIsGood(f, a, b, j.res, j.truncateBefore);
    TruncatedCell(f, Merged(f, a, b, j.res, j.truncateBefore), j.res, w.truncateBefore, t);
  }

  /** Whether a column has periods that end after a cutoff. */
  predicate Outlasts(c: Column, cutoff: Time) {
    c.Seq? && (cutoff == 0 || cutoff < c.until)
  }

  lemma MergedOutlasts(f: Field, a: Column, b: Column, res: Resolution, truncateBefore: Time, cutoff: Time)
    requires Storable(f)
    ensures Outlasts(Merged(f, a, b, res, truncateBefore), cutoff) <==> Outlasts(a, cutoff) || Outlasts(b, cutoff)
  {
    hide Sized, EncodedWidth, Sequences.RoundTimeUntilUp;
  }

  ghost predicate AreGood(w: Writing, cols: seq<Column>)
    requires CanWrite(w) && |cols| == |w.fields|
  {
    forall o | 0 <= o < |cols| :: Good(w.fields[o], cols[o], w.res)
  }

  /** What is left of a row: the cells after the cutoff as they were, and nothing if no column has any. */
  ghost predicate IsTruncation(w: Writing, key: Key, cols: seq<Column>, row: Option<Row>)
    requires |cols| == |w.fields|
  {
    && (row.Some? <==> exists o :: 0 <= o < |cols| && Outlasts(cols[o], w.truncateBefore))
    && (row.Some? ==> row.value.key == key && |row.value.cols| == |cols|)
    && (row.Some? ==> forall o, t | 0 <= o < |cols| && t > 0 ::
         Cell(w.fields[o], row.value.cols[o], w.res, t)
         == if w.truncateBefore == 0 || w.truncateBefore < t then Cell(w.fields[o], cols[o], w.res, t)
            else Columns.Unset(w.fields[o].expr))
  }

  lemma WrittenMeaning(w: Writing, e: Emitted)
    requires CanWrite(w) && e.Joined? && |e.cols| == |w.fields| && AreGood(w, e.cols)
    ensures IsTruncation(w, e.key, e.cols, Written(w, e))
  {
    hide TruncatedCol, Good, Storable, Cell, Outlasts, DistinctIds;
    var cols := TruncatedCols(w, e.cols);
    forall o | 0 <= o < |cols|
      ensures cols[o].Seq? <==> Outlasts(e.cols[o], w.truncateBefore)
      ensures forall t | t > 0 ::
                Cell(w.fields[o], cols[o], w.res, t)
                == if w.truncateBefore == 0 || w.truncateBefore < t then Cell(w.fields[o], e.cols[o], w.res, t)
                   else Columns.Unset(w.fields[o].expr)
    {
      var f := w.fields[o];
      assert f in w.fields;
      Leaves(f, e.cols[o], w.res, w.truncateBefore);
      forall t | t > 0
        ensures Cell(f, cols[o], w.res, t)
                == if w.truncateBefore == 0 || w.truncateBefore < t then Cell(f, e.cols[o], w.res, t)
                   else Columns.Unset(f.expr)
      {
        TruncatedCell(f, e.cols[o], w.res, w.truncateBefore, t);
      }
    }
  }

  ghost predicate ColumnsAreGood(j: Join, rows: seq<Row>, tree: Memory, key: Key, o: nat)
    requires RowsFit(j, rows) && MemoryFits(j, tree) && o < |j.outFields|
  {
    var f := j.outFields[o];
    Storable(f) && Good(f, FileCol(j, rows, key, o), j.res) && Good(f, MemoryCol(j, tree, key, o), j.res)
  }

  ghost predicate EitherOutlasts(j: Join, rows: seq<Row>, tree: Memory, key: Key, o: nat, cutoff: Time)
    requires RowsFit(j, rows) && MemoryFits(j, tree) && o < |j.outFields|
  {
    Outlasts(FileCol(j, rows, key, o), cutoff) || Outlasts(MemoryCol(j, tree, key, o), cutoff)
  }

  /**
   * The new file has a row for a key that is not copied exactly if some column of
   * file or memory outlasts the cutoff.
   */
  lemma FlushedRowIff(j: Join, w: Writing, raw: bool, rows: seq<Row>, tree: Memory, order: seq<Key>, key: Key)
    requires CanFlush(j, w, raw, rows, tree, order) && !Copied(raw, rows, tree, key)
    requires forall o | 0 <= o < |j.outFields| :: ColumnsAreGood(j, rows, tree, key, o)
    ensures key in Keys(Flushed(j, w, raw, rows, tree, order)) <==>
            exists o :: 0 <= o < |j.outFields| && EitherOutlasts(j, rows, tree, key, o, w.truncateBefore)
  {
    hide WellFormed, CanWrite, Remaining, FromMemory, AllJoined, ColOf, TruncatedCol, Merged, Written, WrittenAll,
      EmittedOf, RowOf, Storable, Good, Outlasts, IsOrder, SameIds;
    var out, row, mem := AllJoined(j, raw, rows, tree, order), RowOf(rows, key), Lookup(tree, key);
    JoinedFits(j, w, raw, rows, tree, order);
    OuterJoin(j, raw, rows, tree, order);
    FlushedFits(j, w, raw, rows, tree, order);
    WrittenOf(w, out, key);
    JoinedOf(j, raw, rows, tree, order, key);
    KeyIsThere(rows, key);
    KeyIsThere(Flushed(j, w, raw, rows, tree, order), key);
    if row.Some? || mem.Some? {
      var file := if row.Some? then row.value.cols else NoCols(|j.fileFields|);
      JoinedOutlasts(j, w, rows, tree, key, file);
      WrittenMeaning(w, Joined(key, JoinedCols(j, file, mem)));
    } else {
      forall o | 0 <= o < |j.outFields|
        ensures !EitherOutlasts(j, rows, tree, key, o, w.truncateBefore)
      {
        NothingOutlasts(w.truncateBefore);
      }
    }
  }

  lemma NothingOutlasts(cutoff: Time)
    ensures !Outlasts(Sequences.Nil, cutoff)
  {
  }

  lemma JoinedOutlasts(j: Join, w: Writing, rows: seq<Row>, tree: Memory, key: Key, file: seq<Column>)
    requires WellFormed(j) && RowsFit(j, rows) && MemoryFits(j, tree) && w.fields == j.outFields && w.res == j.res
    requires |file| == |j.fileFields|
             && file == (if RowOf(rows, key).Some? then RowOf(rows, key).value.cols else NoCols(|j.fileFields|))
    requires forall o | 0 <= o < |j.outFields| :: ColumnsAreGood(j, rows, tree, key, o)
    ensures var cols := JoinedCols(j, file, Lookup(tree, key));
            forall o | 0 <= o < |cols| ::
              && Good(w.fields[o], cols[o], w.res)
              && (Outlasts(cols[o], w.truncateBefore) <==> EitherOutlasts(j, rows, tree, key, o, w.truncateBefore))
  {
    hide WellFormed, ColOf, Merged, RowOf, Storable, Good, Outlasts;
    var mem := Lookup(tree, key);
    var cols := JoinedCols(j, file, mem);
    forall o | 0 <= o < |cols|
      ensures Storable(w.fields[o]) && Good(w.fields[o], cols[o], w.res)
      ensures Outlasts(cols[o], w.truncateBefore) <==> EitherOutlasts(j, rows, tree, key, o, w.truncateBefore)
    {
      var f, a, b := j.outFields[o], FileCol(j, rows, key, o), MemoryCol(j, tree, key, o);
      assert ColumnsAreGood(j, rows, tree, key, o);
      ColOfNone(j.fileFields, f.id);
      assert cols[o] == Merged(f, a, b, j.res, j.truncateBefore);
      MergedIsGood(f, a, b, j.res, j.truncateBefore);
      MergedOutlasts(f, a, b, j.res, j.truncateBefore, w.truncateBefore);
    }
  }

  lemma FlushedIsGood(j: Join, w: Writing, raw: bool, rows: seq<Row>, tree: Memory, order: seq<Key>, key: Key, o: nat)
    requires CanFlush(j, w, raw, rows, tree, order) && o < |w.fields|
    requires var f := w.fields[o];
             Storable(f) && Good(f, FileCol(j, rows, key, o), j.res) && Good(f, MemoryCol(j, tree, key, o), j.res)
    ensures var f, now := w.fields[o], Flushed(j, w, raw, rows, tree, order);
            && (forall r | r in now :: |r.cols| == |w.fields|)
            && Good(f, ColIn(Known(w.fields), now, key, f.id), j.res)
  {
    hide WellFormed, RowsFit, MemoryFits, IsOrder, CanWrite, SameIds, Good, Flushed, ColIn, TruncatedCol, Merged,
      Storable;
    var f, a, b := w.fields[o], FileCol(j, rows, key, o), MemoryCol(j, tree, key, o);
    FlushedCol(j, w, raw, rows, tree, order, key, o);
    MergedIsGood(f, a, b, j.res, j.truncateBefore);
    TruncatedIsGood(f, Merged(f, a, b, j.res, j.truncateBefore), j.res, w.truncateBefore);
    GoodNothing(f, j.res, 0);
  }

  /**
   * A sorted flush that is given raw rows keeps a cell within retention exactly
   * when the row was not passed on raw, or the cell was unset anyway.
   */
  lemma SortedFlushKeeps(j: Join, w: Writing, raw: bool, rows: seq<Row>, tree: Memory, order: seq<Key>, key: Key,
                         o: nat, t: Time)
    requires CanFlush(j, w, raw, rows, tree, order) && o < |w.fields| && w.sort
    requires var f := w.fields[o];
             Storable(f) && Good(f, FileCol(j, rows, key, o), j.res) && Good(f, MemoryCol(j, tree, key, o), j.res)
    requires Live(t, j.res, j.truncateBefore) && Live(t, j.res, w.truncateBefore)
    ensures var f, now := w.fields[o], Flushed(j, w, raw, rows, tree, order);
            var was := Cell(f, FileCol(j, rows, key, o), j.res, t);
            && (forall r | r in now :: |r.cols| == |w.fields|)
            && IsState(f.expr, was) && IsState(f.expr, Cell(f, MemoryCol(j, tree, key, o), j.res, t))
            && (Cell(f, ColIn(Known(w.fields), now, key, f.id), j.res, t)
                == Merge(f.expr, was, Cell(f, MemoryCol(j, tree, key, o), j.res, t))
                <==> !Copied(raw, rows, tree, key) || was == Columns.Unset(f.expr))
  {
    hide WellFormed, RowsFit, MemoryFits, IsOrder, CanWrite, SameIds, Good, Flushed, ColIn, Cell, TruncatedCol, Merged,
      Merge, IsState, Sized, EncodedWidth;
    var f, a, b := w.fields[o], FileCol(j, rows, key, o), MemoryCol(j, tree, key, o);
    if Copied(raw, rows, tree, key) {
      FlushedCol(j, w, raw, rows, tree, order, key, o);
      CellIsState(f, a, j.res, t);
      GoodNothing(f, j.res, t);
      MergedCell(f, a, b, j.res, j.truncateBefore, t);
      MergeIdentity(f.expr, Cell(f, a, j.res, t));
    } else {
      FlushedCell(j, w, raw, rows, tree, order, key, o, t);
    }
  }

  /** With nothing in memory, a sorted flush that is given raw rows writes no row at all. */
  lemma SortedFlushLosesFile(j: Join, w: Writing, rows: seq<Row>)
    requires CanFlush(j, w, true, rows, map[], []) && w.sort
    ensures Flushed(j, w, true, rows, map[], []) == []
  {
    var out := AllJoined(j, true, rows, map[], []);
    JoinedFits(j, w, true, rows, map[], []);
    assert forall e | e in out :: e.Raw?;
    AllDropped(w, out);
  }

  lemma {:induction false} AllDropped(w: Writing, out: seq<Emitted>)
    requires CanWrite(w) && w.sort && forall e | e in out :: e.Raw?
    ensures WrittenAll(w, out) == []
  {
    if out != [] {
      assert out[|out| - 1] in out;
      AllDropped(w, out[..|out| - 1]);
    }
  }
}
