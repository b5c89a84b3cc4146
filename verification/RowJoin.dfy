/**
 * Joining the rows of a data file with the rows in memory (row_store.go).
 *
 * Columns are matched by the printed identity of their fields.  `Iterate` reads
 * the file once, merging each row with the one in memory that has its key, and
 * then adds the rows that are only in memory: a full outer join by key.
 */
module RowJoin {
  import opened Wrappers
  import opened Arithmetic
  import opened Accumulators
  import Sequences
  import Columns
  import RadixShapes

  type Key = RadixShapes.Key
  type Column = Columns.Column
  type Time = Sequences.Time

  /** A field is identified by its printed form, which names it and its expression. */
  datatype Field = Field(id: string, expr: Expr)

  /** Fields whose columns can be stored: their cells have a width. */
  predicate Storable(f: Field) {
    Sized(f.expr) && EncodedWidth(f.expr) > 0
  }

  predicate DistinctIds(fields: seq<Field>) {
    forall i, j | 0 <= i < j < |fields| :: fields[i].id != fields[j].id
  }

  /** The first field with an identity, or -1. */
  function IndexOf(fields: seq<Field>, id: string): (i: int)
    ensures -1 <= i < |fields|
    ensures i >= 0 ==> fields[i].id == id
    ensures forall j | 0 <= j < |fields| && (i < 0 || j < i) :: fields[j].id != id
  {
    IndexFrom(fields, id, 0)
  }

  function IndexFrom(fields: seq<Field>, id: string, k: nat): (i: int)
    requires k <= |fields|
    ensures i == -1 || k <= i < |fields|
    ensures i >= 0 ==> fields[i].id == id
    ensures forall j | k <= j < |fields| && (i < 0 || j < i) :: fields[j].id != id
    decreases |fields| - k
  {
    if k == |fields| then -1 else if fields[k].id == id then k else IndexFrom(fields, id, k + 1)
  }

  /** The fields named in a file's header; a name that is not known gives no field. */
  method KnownFields(ids: seq<string>, known: seq<Field>) returns (fields: seq<Option<Field>>)
    ensures |fields| == |ids|
    ensures forall i | 0 <= i < |ids| ::
      var k := IndexOf(known, ids[i]); fields[i] == if k < 0 then None else Some(known[k])
  {
    fields := [];
    for i := 0 to |ids|
      invariant |fields| == i
      invariant forall j | 0 <= j < i ::
        var k := IndexOf(known, ids[j]); fields[j] == if k < 0 then None else Some(known[k])
    {
      var found: Option<Field> := None;
      var k := 0;
      while k < |known| && found.None?
        invariant k <= |known|
        invariant found.None? ==> IndexFrom(known, ids[i], k) == IndexOf(known, ids[i])
        invariant found.Some? ==> var n := IndexOf(known, ids[i]); n >= 0 && found == Some(known[n])
        decreases |known| - k, found.None?
      {
        if known[k].id == ids[i] { found := Some(known[k]); } else { k := k + 1; }
      }
      fields := fields + [found];
    }
  }

  /** Where each inbound field goes in the outbound row. */
  function OutIdx(outFields: seq<Field>, f: Option<Field>): (o: int)
    ensures -1 <= o < |outFields|
  {
    if f.None? then -1 else IndexOf(outFields, f.value.id)
  }

  method OutIdxsFor(outFields: seq<Field>, inFields: seq<Option<Field>>) returns (idxs: seq<int>)
    ensures |idxs| == |inFields| && forall i | 0 <= i < |idxs| :: idxs[i] == OutIdx(outFields, inFields[i])
  {
    idxs := [];
    for i := 0 to |inFields|
      invariant |idxs| == i && forall j | 0 <= j < i :: idxs[j] == OutIdx(outFields, inFields[j])
    {
      var o, k := -1, 0;
      while k < |outFields| && o < 0
        invariant 0 <= k <= |outFields|
        invariant o < 0 ==>
          inFields[i].None? || IndexFrom(outFields, inFields[i].value.id, k) == IndexOf(outFields, inFields[i].value.id)
        invariant o >= 0 ==> o == OutIdx(outFields, inFields[i])
        decreases |outFields| - k, o < 0
      {
        if inFields[i].Some? && inFields[i].value.id == outFields[k].id { o := k; } else { k := k + 1; }
      }
      idxs := idxs + [if o < 0 then -1 else o];
    }
  }

  predicate DistinctKnown(fields: seq<Option<Field>>) {
    forall i, j | 0 <= i < j < |fields| && fields[i].Some?
      && fields[j].Some? :: fields[i].value.id != fields[j].value.id
  }

  /** The column of the field with an identity; no column where there is no such field. */
  function ColOf(fields: seq<Option<Field>>, cols: seq<Column>, id: string): (c: Column)
    requires |cols| == |fields|
  {
    if fields == [] then Sequences.Nil
    else
      var n := |fields| - 1;
      if fields[n].Some? && fields[n].value.id == id then cols[n] else ColOf(fields[..n], cols[..n], id)
  }

  lemma ColOfNext(fields: seq<Option<Field>>, cols: seq<Column>, id: string, i: nat)
    requires |cols| == |fields| && i < |fields|
    ensures ColOf(fields[..i + 1], cols[..i + 1], id)
            == if fields[i].Some? && fields[i].value.id == id then cols[i] else ColOf(fields[..i], cols[..i], id)
  {
    assert fields[..i + 1][..i] == fields[..i] && cols[..i + 1][..i] == cols[..i];
  }

  lemma {:induction false} ColOfAbsent(fields: seq<Option<Field>>, cols: seq<Column>, id: string)
    requires |cols| == |fields| && forall i | 0 <= i < |fields| :: fields[i].Some? ==> fields[i].value.id != id
    ensures ColOf(fields, cols, id) == Sequences.Nil
  {
    if fields != [] { ColOfAbsent(fields[..|fields| - 1], cols[..|fields| - 1], id); }
  }

  /** A field's column is the one at its place. */
  lemma {:induction false} ColOfAt(fields: seq<Option<Field>>, cols: seq<Column>, i: nat)
    requires |cols| == |fields| && i < |fields| && fields[i].Some? && DistinctKnown(fields)
    ensures ColOf(fields, cols, fields[i].value.id) == cols[i]
  {
    var n := |fields| - 1;
    if i < n { ColOfAt(fields[..n], cols[..n], i); }
  }

  function Known(fields: seq<Field>): (r: seq<Option<Field>>)
    ensures |r| == |fields|
  {
    seq(|fields|, i requires 0 <= i < |fields| => Some(fields[i]))
  }

  /** What a join works with: the outbound fields, those of the file and of memory, and the cutoff for merging. */
  datatype Join = Join(outFields: seq<Field>, fileFields: seq<Option<Field>>, memFields: seq<Field>, res: Resolution,
    truncateBefore: Time)

  predicate WellFormed(j: Join) {
    && DistinctIds(j.outFields) && DistinctKnown(j.fileFields) && DistinctIds(j.memFields)
    && forall f | f in j.outFields :: Storable(f)
  }

  function Merged(f: Field, a: Column, b: Column, res: Resolution, truncateBefore: Time): (c: Column)
    requires Storable(f)
  {
    Sequences.Merge(a, b, res, truncateBefore, Columns.Unset(f.expr), Columns.Merger(f.expr))
  }

  lemma MergedWithNothing(f: Field, a: Column, res: Resolution, truncateBefore: Time)
    requires Storable(f)
    ensures Merged(f, a, Sequences.Nil, res, truncateBefore) == a
  {
  }

  function MemCol(j: Join, mem: Option<seq<Column>>, id: string): Column
    requires mem.Some? ==> |mem.value| == |j.memFields|
  {
    if mem.None? then Sequences.Nil else ColOf(Known(j.memFields), mem.value, id)
  }

  /** The outbound column of a field: the file's column merged with the one in memory. */
  function JoinedCol(j: Join, file: seq<Column>, mem: Option<seq<Column>>, o: nat): Column
    requires o < |j.outFields| && Storable(j.outFields[o])
    requires |file| == |j.fileFields| && (mem.Some? ==> |mem.value| == |j.memFields|)
  {
    var f := j.outFields[o];
    Merged(f, ColOf(j.fileFields, file, f.id), MemCol(j, mem, f.id), j.res, j.truncateBefore)
  }

  function JoinedCols(j: Join, file: seq<Column>, mem: Option<seq<Column>>): (r: seq<Column>)
    requires WellFormed(j)
    requires |file| == |j.fileFields| && (mem.Some? ==> |mem.value| == |j.memFields|)
    ensures |r| == |j.outFields|
  {
    seq(|j.outFields|, o requires 0 <= o < |j.outFields| => JoinedCol(j, file, mem, o))
  }

  /** Some column of the file, or of memory if it has the row, is kept. */
  predicate KeepsFile(j: Join) {
    exists i :: 0 <= i < |j.fileFields| && OutIdx(j.outFields, j.fileFields[i]) >= 0
  }

  predicate KeepsMem(j: Join) {
    exists i :: 0 <= i < |j.memFields| && OutIdx(j.outFields, Some(j.memFields[i])) >= 0
  }

  /** Maps the file's columns to their places (rowMapper). */
  method MapColumns(j: Join, file: seq<Column>) returns (cols: seq<Column>, includes: bool)
    requires WellFormed(j) && |file| == |j.fileFields|
    ensures |cols| == |j.outFields| && (includes <==> KeepsFile(j))
    ensures forall o | 0 <= o < |cols| :: cols[o] == ColOf(j.fileFields, file, j.outFields[o].id)
  {
    var idxs := OutIdxsFor(j.outFields, j.fileFields);
    cols, includes := seq(|j.outFields|, _ => Sequences.Nil), false;
    for i := 0 to |file|
      invariant |cols| == |j.outFields|
      invariant includes <==> exists k :: 0 <= k < i && OutIdx(j.outFields, j.fileFields[k]) >= 0
      invariant forall o | 0 <= o < |cols| :: cols[o] == ColOf(j.fileFields[..i], file[..i], j.outFields[o].id)
    {
      forall o | 0 <= o < |cols| ensures ColOf(j.fileFields[..i + 1], file[..i + 1], j.outFields[o].id)
        == if j.fileFields[i].Some? && j.fileFields[i].value.id == j.outFields[o].id then file[i] else cols[o]
      {
        ColOfNext(j.fileFields, file, j.outFields[o].id, i);
      }
      var o := idxs[i];
      if o >= 0 {
        cols := cols[o := file[i]];
        includes := true;
      }
    }
    assert j.fileFields[..|file|] == j.fileFields && file[..|file|] == file;
  }

  /** Merges the columns in memory into their places (rowMerger). */
  method MergeColumns(j: Join, base: seq<Column>, mem: seq<Column>) returns (cols: seq<Column>, includes: bool)
    requires WellFormed(j) && |mem| == |j.memFields| && |base| == |j.outFields|
    ensures |cols| == |j.outFields| && (includes <==> KeepsMem(j))
    ensures forall o | 0 <= o < |cols| ::
      cols[o] == Merged(j.outFields[o], base[o], ColOf(Known(j.memFields), mem, j.outFields[o].id), j.res,
        j.truncateBefore)
  {
    hide Merged, Storable, ColOf;
    var fields := Known(j.memFields);
    var idxs := OutIdxsFor(j.outFields, fields);
    cols, includes := base, false;
    forall o | 0 <= o < |cols|
      ensures cols[o] == Merged(j.outFields[o], base[o], ColOf(fields[..0], mem[..0], j.outFields[o].id), j.res,
              j.truncateBefore)
    {
      ColOfAbsent(fields[..0], mem[..0], j.outFields[o].id);
      MergedWithNothing(j.outFields[o], base[o], j.res, j.truncateBefore);
    }
    for i := 0 to |mem|
      invariant |cols| == |j.outFields|
      invariant includes <==> exists k :: 0 <= k < i && OutIdx(j.outFields, Some(j.memFields[k])) >= 0
      invariant forall o | 0 <= o < |cols| ::
        cols[o] == Merged(j.outFields[o], base[o], ColOf(fields[..i], mem[..i], j.outFields[o].id), j.res,
          j.truncateBefore)
    {
      assert fields[i] == Some(j.memFields[i]);
      forall o | 0 <= o < |cols| ensures j.memFields[i].id != j.outFields[o].id ==>
        ColOf(fields[..i + 1], mem[..i + 1], j.outFields[o].id) == ColOf(fields[..i], mem[..i], j.outFields[o].id)
      {
        ColOfNext(fields, mem, j.outFields[o].id, i);
      }
      var o := idxs[i];
      if o >= 0 {
        ColOfAbsent(fields[..i], mem[..i], j.outFields[o].id);
        ColOfNext(fields, mem, j.outFields[o].id, i);
        MergedWithNothing(j.outFields[o], base[o], j.res, j.truncateBefore);
        cols := cols[o := Merged(j.outFields[o], cols[o], mem[i], j.res, j.truncateBefore)];
        includes := true;
      }
    }
    assert fields[..|mem|] == fields && mem[..|mem|] == mem;
  }

  // ---------------------------------------------------------------- iterating over file and memory

  datatype Row = Row(key: Key, cols: seq<Column>)

  /** The memstore's tree: the columns of each key. */
  type Memory = map<Key, seq<Column>>

  /** What an iteration passes on: a file row as it was read, or the columns of a row. */
  datatype Emitted = Raw(row: Row) | Joined(key: Key, cols: seq<Column>)

  function KeyOf(e: Emitted): Key {
    if e.Raw? then e.row.key else e.key
  }

  function Keys(rows: seq<Row>): (r: seq<Key>)
    ensures |r| == |rows|
  {
    seq(|rows|, i requires 0 <= i < |rows| => rows[i].key)
  }

  ghost predicate RowsFit(j: Join, rows: seq<Row>) {
    RadixShapes.NoRepeats(Keys(rows)) && forall r | r in rows :: |r.cols| == |j.fileFields|
  }

  predicate MemoryFits(j: Join, tree: Memory) {
    forall k | k in tree :: |tree[k]| == |j.memFields|
  }

  function Lookup(tree: Memory, key: Key): Option<seq<Column>> {
    if key in tree then Some(tree[key]) else None
  }

  /** A file row goes on as it is if it may and nothing is to be merged into it. */
  function EmittedFor(j: Join, raw: bool, row: Row, mem: Option<seq<Column>>): (e: Emitted)
    requires WellFormed(j) && |row.cols| == |j.fileFields| && (mem.Some? ==> |mem.value| == |j.memFields|)
    ensures KeyOf(e) == row.key
  {
    if mem.None? && raw then Raw(row) else Joined(row.key, JoinedCols(j, row.cols, mem))
  }

  /** A file row of which no column is kept ends the iteration. */
  predicate Continues(j: Join, raw: bool, mem: Option<seq<Column>>) {
    (mem.None? && raw) || KeepsFile(j) || (mem.Some? && KeepsMem(j))
  }

  ghost function FromFile(j: Join, raw: bool, rows: seq<Row>, tree: Memory): (r: seq<Emitted>)
    requires WellFormed(j) && RowsFit(j, rows) && MemoryFits(j, tree)
    ensures |r| == |rows| && forall i | 0 <= i < |r| :: KeyOf(r[i]) == rows[i].key
  {
    seq(|rows|, i requires 0 <= i < |rows| => EmittedFor(j, raw, rows[i], Lookup(tree, rows[i].key)))
  }

  /** No columns at all. */
  function NoCols(n: nat): (r: seq<Column>)
    ensures |r| == n
  {
    seq(n, _ => Sequences.Nil)
  }

  ghost function FromMemory(j: Join, keys: seq<Key>, tree: Memory): (r: seq<Emitted>)
    requires WellFormed(j) && MemoryFits(j, tree) && forall k | k in keys :: k in tree
    ensures |r| == |keys| && forall i | 0 <= i < |r| :: KeyOf(r[i]) == keys[i]
  {
    seq(|keys|, i requires 0 <= i < |keys| => Joined(keys[i],
      JoinedCols(j, NoCols(|j.fileFields|), Some(tree[keys[i]]))))
  }

  /** The keys of a walk that were not removed. */
  function Remaining(order: seq<Key>, removed: set<Key>): (r: seq<Key>)
    ensures forall k | k in r :: k in order && k !in removed
    ensures forall k | k in order && k !in removed :: k in r
  {
    if order == [] then [] else
      var n := |order| - 1;
      var before := Remaining(order[..n], removed);
      assert order == order[..n] + [order[n]];
      if order[n] in removed then before else before + [order[n]]
  }

  /** The order in which a walk would report the keys in memory. */
  ghost predicate IsOrder(order: seq<Key>, tree: Memory) {
    RadixShapes.NoRepeats(order) && forall k :: k in order <==> k in tree
  }

  /** Joins one row of the file. */
  method JoinRow(j: Join, file: seq<Column>, mem: Option<seq<Column>>) returns (cols: seq<Column>, includes: bool)
    requires WellFormed(j) && |file| == |j.fileFields| && (mem.Some? ==> |mem.value| == |j.memFields|)
    ensures cols == JoinedCols(j, file, mem) && (includes <==> KeepsFile(j) || (mem.Some? && KeepsMem(j)))
  {
    hide Merged, ColOf, KeepsFile, KeepsMem;
    cols, includes := MapColumns(j, file);
    if mem.Some? {
      var more;
      cols, more := MergeColumns(j, cols, mem.value);
      includes := includes || more;
    } else {
      forall o | 0 <= o < |cols| ensures cols[o] == JoinedCol(j, file, mem, o) {
        MergedWithNothing(j.outFields[o], cols[o], j.res, j.truncateBefore);
      }
    }
  }

  /** fileStore.iterate: the file's rows joined with memory, then what is only in memory. */
  method Iterate(j: Join, raw: bool, rows: seq<Row>, tree: Memory, order: seq<Key>)
    returns (out: seq<Emitted>, complete: bool)
    requires WellFormed(j) && RowsFit(j, rows) && MemoryFits(j, tree) && IsOrder(order, tree)
    ensures complete <==> forall r | r in rows :: Continues(j, raw, Lookup(tree, r.key))
    ensures complete ==> out == FromFile(j, raw, rows, tree) + FromMemory(j, Remaining(order, set k | k in Keys(rows)),
            tree)
    ensures !complete ==> exists n ::
            0 <= n < |rows| && out == FromFile(j, raw, rows, tree)[..n] && !Continues(j, raw, Lookup(tree, rows[n].key))
  {
    hide KeepsFile, KeepsMem, JoinedCols, WellFormed;
    ghost var all := FromFile(j, raw, rows, tree);
    out := [];
    var removed: set<Key> := {};
    for i := 0 to |rows|
      invariant out == all[..i] && removed == (set k | k in Keys(rows)[..i])
      invariant forall k | 0 <= k < i :: Continues(j, raw, Lookup(tree, rows[k].key))
    {
      var row := rows[i];
      assert row in rows && Keys(rows)[i] == row.key;
      RadixShapes.NotBefore(Keys(rows), i);
      var mem := if row.key in removed then None else Lookup(tree, row.key);
      removed := removed + {row.key};
      assert Keys(rows)[..i + 1] == Keys(rows)[..i] + [row.key];
      if mem.None? && raw {
        out := out + [Raw(row)];
      } else {
        var cols, includes := JoinRow(j, row.cols, mem);
        if !includes { return out, false; }
        out := out + [Joined(row.key, cols)];
      }
    }
    assert Keys(rows)[..|rows|] == Keys(rows) && all[..|rows|] == all;
    var rest := IterateMemory(j, tree, order, removed);
    return out + rest, true;
  }

  /** Walks the rows left in memory. */
  method IterateMemory(j: Join, tree: Memory, order: seq<Key>, removed: set<Key>) returns (out: seq<Emitted>)
    requires WellFormed(j) && MemoryFits(j, tree) && IsOrder(order, tree)
    ensures out == FromMemory(j, Remaining(order, removed), tree)
  {
    hide KeepsFile, KeepsMem, JoinedCols, WellFormed;
    out := [];
    for i := 0 to |order|
      invariant forall k | k in order[..i] :: k in tree
      invariant out == FromMemory(j, Remaining(order[..i], removed), tree)
    {
      assert order[..i + 1][..i] == order[..i];
      var key := order[i];
      if key !in removed {
        var cols, _ := JoinRow(j, NoCols(|j.fileFields|), Some(tree[key]));
        out := out + [Joined(key, cols)];
      }
    }
    assert order[..|order|] == order;
  }

  // ---------------------------------------------------------------- a full outer join

  /** All that a complete iteration passes on. */
  ghost function AllJoined(j: Join, raw: bool, rows: seq<Row>, tree: Memory, order: seq<Key>): seq<Emitted>
    requires WellFormed(j) && RowsFit(j, rows) && MemoryFits(j, tree) && IsOrder(order, tree)
  {
    FromFile(j, raw, rows, tree) + FromMemory(j, Remaining(order, set k | k in Keys(rows)), tree)
  }

  function EmittedKeys(out: seq<Emitted>): (r: seq<Key>)
    ensures |r| == |out|
  {
    seq(|out|, i requires 0 <= i < |out| => KeyOf(out[i]))
  }

  lemma {:induction false} RemainingOnce(order: seq<Key>, removed: set<Key>)
    requires RadixShapes.NoRepeats(order)
    ensures RadixShapes.NoRepeats(Remaining(order, removed))
  {
    if order != [] {
      var n := |order| - 1;
      RadixShapes.NotBefore(order, n);
      RemainingOnce(order[..n], removed);
    }
  }

  /** Every key of the file or of memory is passed on exactly once, and no other. */
  lemma OuterJoin(j: Join, raw: bool, rows: seq<Row>, tree: Memory, order: seq<Key>)
    requires WellFormed(j) && RowsFit(j, rows) && MemoryFits(j, tree) && IsOrder(order, tree)
    ensures var keys := EmittedKeys(AllJoined(j, raw, rows, tree, order));
            RadixShapes.NoRepeats(keys) && forall k :: k in keys <==> k in Keys(rows) || k in tree
  {
    hide WellFormed, EmittedFor, JoinedCols, FromFile, FromMemory, Remaining;
    var removed := set k | k in Keys(rows);
    var rest := Remaining(order, removed);
    var keys := EmittedKeys(AllJoined(j, raw, rows, tree, order));
    RemainingOnce(order, removed);
    assert keys == Keys(rows) + rest;
    forall a, b | 0 <= a < b < |keys| ensures keys[a] != keys[b] {
      if a < |rows| <= b { assert rest[b - |rows|] in rest; }
    }
  }

  /** The row of a key in a list of rows. */
  function RowOf(rows: seq<Row>, key: Key): (r: Option<Row>)
    ensures r.Some? ==> r.value in rows && r.value.key == key
  {
    if rows == [] then None else
      var n := |rows| - 1;
      if rows[n].key == key then Some(rows[n]) else RowOf(rows[..n], key)
  }

  function EmittedOf(out: seq<Emitted>, key: Key): (r: Option<Emitted>)
    ensures r.Some? ==> r.value in out && KeyOf(r.value) == key
  {
    if out == [] then None else
      var n := |out| - 1;
      if KeyOf(out[n]) == key then Some(out[n]) else EmittedOf(out[..n], key)
  }

  lemma {:induction false} RowOfAt(rows: seq<Row>, i: nat)
    requires i < |rows| && RadixShapes.NoRepeats(Keys(rows))
    ensures RowOf(rows, rows[i].key) == Some(rows[i])
  {
    var n := |rows| - 1;
    assert Keys(rows)[i] == rows[i].key && Keys(rows)[n] == rows[n].key;
    if i < n {
      assert Keys(rows[..n]) == Keys(rows)[..n];
      RowOfAt(rows[..n], i);
    }
  }

  lemma {:induction false} RowOfAbsent(rows: seq<Row>, key: Key)
    requires key !in Keys(rows)
    ensures RowOf(rows, key) == None
  {
    if rows != [] {
      var n := |rows| - 1;
      assert Keys(rows)[n] == rows[n].key;
      assert Keys(rows[..n]) == Keys(rows)[..n];
      RowOfAbsent(rows[..n], key);
    }
  }

  lemma {:induction false} EmittedOfAt(out: seq<Emitted>, i: nat)
    requires i < |out| && RadixShapes.NoRepeats(EmittedKeys(out))
    ensures EmittedOf(out, KeyOf(out[i])) == Some(out[i])
  {
    var n := |out| - 1;
    assert EmittedKeys(out)[i] == KeyOf(out[i]) && EmittedKeys(out)[n] == KeyOf(out[n]);
    if i < n {
      assert EmittedKeys(out[..n]) == EmittedKeys(out)[..n];
      EmittedOfAt(out[..n], i);
    }
  }

  lemma {:induction false} EmittedOfAbsent(out: seq<Emitted>, key: Key)
    requires key !in EmittedKeys(out)
    ensures EmittedOf(out, key) == None
  {
    if out != [] {
      var n := |out| - 1;
      assert EmittedKeys(out)[n] == KeyOf(out[n]);
      assert EmittedKeys(out[..n]) == EmittedKeys(out)[..n];
      EmittedOfAbsent(out[..n], key);
    }
  }

  /** What is passed on for each key. */
  lemma JoinedOf(j: Join, raw: bool, rows: seq<Row>, tree: Memory, order: seq<Key>, key: Key)
    requires WellFormed(j) && RowsFit(j, rows) && MemoryFits(j, tree) && IsOrder(order, tree)
    ensures var row, mem := RowOf(rows, key), Lookup(tree, key);
            EmittedOf(AllJoined(j, raw, rows, tree, order), key)
            == (if row.Some? then Some(EmittedFor(j, raw, row.value, mem))
                else if mem.Some? then Some(Joined(key, JoinedCols(j, NoCols(|j.fileFields|), mem)))
                else None)
  {
    hide WellFormed, EmittedFor, JoinedCols, Remaining;
    var out := AllJoined(j, raw, rows, tree, order);
    OuterJoin(j, raw, rows, tree, order);
    if key in Keys(rows) {
      var i :| 0 <= i < |rows| && Keys(rows)[i] == key;
      RowOfAt(rows, i);
      EmittedOfAt(out, i);
    } else {
      RowOfAbsent(rows, key);
      if key in tree {
        var rest := Remaining(order, set k | k in Keys(rows));
        var i :| 0 <= i < |rest| && rest[i] == key;
        EmittedOfAt(out, |rows| + i);
      } else {
        EmittedOfAbsent(out, key);
      }
    }
  }

  const SUM_FIELD := Field.Field("sum", Aggregate(Sum, Expr.Field("a")))

  /** A table with a sum, and a file whose only field is not known. */
  const UNKNOWN := Join([SUM_FIELD], [None], [SUM_FIELD], 1, 0)

  /** With a row of that file, the iteration ends without the row in memory that the join has. */
  method UnknownFieldEndsIteration() returns (out: seq<Emitted>)
    ensures out == []
    ensures var rows, tree: Memory := [Row([1], [Sequences.Nil])], map[[2] := [Sequences.Nil]];
            && WellFormed(UNKNOWN) && RowsFit(UNKNOWN, rows) && MemoryFits(UNKNOWN, tree) && IsOrder([[2]], tree)
            && [2] in EmittedKeys(AllJoined(UNKNOWN, false, rows, tree, [[2]]))
  {
    var rows, tree: Memory := [Row([1], [Sequences.Nil])], map[[2] := [Sequences.Nil]];
    var complete;
    out, complete := Iterate(UNKNOWN, false, rows, tree, [[2]]);
    assert !Continues(UNKNOWN, false, Lookup(tree, rows[0].key)) && rows[0] in rows;
    OuterJoin(UNKNOWN, false, rows, tree, [[2]]);
  }
}
