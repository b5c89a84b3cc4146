/**
 * The goroutine that owns a row store (row_store.go, insert.go): it takes inserts
 * into the tree of its memstore, flushes the tree to a new data file, records
 * offsets and opens what is on disk.  Every method is a step, or a few steps, of the
 * runs in RowRuns.
 */
module RowProcess {
  import opened Wrappers
  import opened Arithmetic
  import opened Accumulators
  import opened RowJoin
  import opened RowStore
  import opened Arrivals
  import opened TreeJoin
  import opened RowRuns
  import Sequences
  import RadixShapes
  import ByteTree

  class Processor {
    const tbl: Table
    var ms: TreeJoin.Tree
    var offsets: Offsets
    var changed: bool
    var file: Option<File>
    var offsetFile: Option<Offsets>
    var flushCount: nat
    ghost var mem: Memory
    ghost var arrived: seq<Key>

    ghost function Abs(): Store
      reads this
    {
      Store(mem, arrived, offsets, changed, file, offsetFile, flushCount)
    }

    /** The tree holds what memory does, by the order in which keys came, and its length tells if there are any. */
    ghost predicate TreeOk()
      reads `ms, `mem, `arrived, ms, ms.repr
    {
      && ms.Valid() && Holds(ms, mem) && Arrived(ms, arrived) && (ms.length == 0 <==> arrived == [])
      && (arrived == [] ==> forall k :: ms.NodeAt(k).None?)
    }

    /** No context has removed anything. */
    ghost predicate Untouched()
      reads `ms, ms, ms.repr
    {
      forall n | n in ms.repr :: n.removedFor == []
    }

    ghost predicate Valid()
      reads this, ms, ms.repr
    {
      WellFormedTable(tbl) && Shaped(tbl, Abs()) && TreeOk() && Untouched()
    }

    /** table.openRowStore: goes on from the newest data file and the offset file, with nothing in memory. */
    constructor Open(tbl: Table, file: Option<File>, offsetFile: Option<Offsets>)
      requires WellFormedTable(tbl) && Shaped(tbl, Store(map[], [], map[], false, file, offsetFile, 0))
      ensures Valid() && this.tbl == tbl && fresh(ms) && fresh(ms.repr)
      ensures Abs() == Store(map[], [], Recovered(Store(map[], [], map[], false, file, offsetFile, 0)), false, file,
              offsetFile, 0)
    {
      hide WellFormedTable, ByteTree.Tree.Valid, ByteTree.Tree.Value;
      var recovered: Offsets := map[];
      if offsetFile.Some? { recovered := offsetFile.value; }
      var fileOffsets: Offsets := map[];
      if file.Some? { fileOffsets := file.value.offsets; }
      recovered := RowRuns.Advance(fileOffsets, recovered);
      this.tbl, offsets, changed, this.file, this.offsetFile, flushCount := tbl, recovered, false, file, offsetFile, 0;
      ms := new ByteTree.Tree<seq<Column>>();
      mem, arrived := map[], [];
    }

    /** Updates the columns of a row in memory with a point. */
    method UpdateColumns(cols: seq<Column>, ts: Time, p: Point) returns (r: seq<Column>)
      requires WellFormedTable(tbl) && RowGood(tbl, cols) && ts > 0
      ensures |r| == |cols| && forall o | 0 <= o < |r| :: r[o] == UpdatedCol(tbl, tbl.fields[o], cols[o], ts, p)
    {
      hide UpdatedCol, Sequences.AllCells, Storable;
      r := cols;
      for o := 0 to |tbl.fields|
        invariant |r| == |cols| && forall k | 0 <= k < |r| :: r[k] == if k < o
          then UpdatedCol(tbl, tbl.fields[k], cols[k], ts, p) else cols[k]
      {
        r := r[o := UpdatedCol(tbl, tbl.fields[o], r[o], ts, p)];
      }
    }

    /** The columns that the tree has for a key. */
    method Current(key: Key) returns (cols: Option<seq<Column>>)
      requires TreeOk()
      ensures cols == Lookup(mem, key)
    {
      var node := ms.Lookup(key);
      NodeOf(ms, key);
      cols := if node.None? then None else node.value.data;
    }

    /** One message of processInserts: the offset is taken over, and the point added unless there is none. */
    method ProcessInsert(source: int, offset: nat, ins: Option<(Key, Time, Point)>)
      requires Valid() && (ins.Some? ==> ins.value.1 > 0)
      modifies this, ms, ms.repr
      ensures Valid() && ms == old(ms) && fresh(ms.repr - old(ms.repr))
      ensures Abs() == old(Abs()).(offsets := old(offsets)[source := offset], changed := true, tree := mem,
              arrived := arrived)
      ensures ins.None? ==> mem == old(mem) && arrived == old(arrived)
      ensures ins.Some? ==>
        && mem == old(mem)[ins.value.0 := UpdatedCols(tbl, Lookup(old(mem), ins.value.0),
           Insertion(ins.value.1, ins.value.0, [ins.value.2]))]
        && arrived == Arriving(old(arrived), ins.value.0)
    {
      hide UpdatedCol, UpdatedCols, Storable, Good, RadixShapes.NoRepeats, ByteTree.Tree.Valid, Holds, Arrived,
        WellFormedTable, RowGood;
      offsets := offsets[source := offset];
      changed := true;
      if ins.Some? {
        var (key, ts, p) := ins.value;
        EmptyRowIsGood(tbl);
        var found := Current(key);
        var was := if found.Some? then found.value else NoCols(|tbl.fields|);
        var cols := UpdateColumns(was, ts, p);
        OnePoint(tbl, Lookup(mem, key), was, Insertion(ts, key, [p]), cols);
        InsertedIsShaped(tbl, Abs(), source, Some(Insertion(ts, key, [p])), ts);
        PutRow(key, cols);
      }
    }

    /** Puts a row into the tree. */
    method PutRow(key: Key, cols: seq<Column>)
      requires TreeOk() && Untouched()
      modifies this`mem, this`arrived, ms, ms.repr
      ensures TreeOk() && Untouched() && ms == old(ms) && old(ms.repr) <= ms.repr && fresh(ms.repr - old(ms.repr))
      ensures mem == old(mem)[key := cols] && arrived == Arriving(old(arrived), key)
    {
      hide ByteTree.Tree.Valid, ByteTree.Tree.Value, ByteTree.Tree.Reported, NameOf;
      Put(ms, key, cols, arrived);
      mem := mem[key := cols];
      if key in arrived { AgainArrived(ms, arrived, key); }
      arrived := Arriving(arrived, key);
    }

    /** One insert for each point of an entry, all at its offset. */
    method ProcessPoints(source: int, offset: nat, ins: Insertion)
      requires Valid() && ins.ts > 0 && ins.points != []
      modifies this, ms, ms.repr
      ensures Valid() && ms == old(ms) && fresh(ms.repr - old(ms.repr))
      ensures Abs() == old(Abs()).(offsets := old(offsets)[source := offset], changed := true, tree := mem,
              arrived := arrived)
      ensures mem == old(mem)[ins.key := UpdatedCols(tbl, Lookup(old(mem), ins.key), ins)]
              && arrived == Arriving(old(arrived), ins.key)
    {
      hide UpdatedCol, UpdatedCols, Storable, RowGood, RadixShapes.NoRepeats, WellFormedTable, TreeOk, Untouched;
      ghost var was := Lookup(mem, ins.key);
      ProcessInsert(source, offset, Some((ins.key, ins.ts, ins.points[0])));
      assert Insertion(ins.ts, ins.key, [ins.points[0]]) == ins.(points := ins.points[..1]);
      assert ins.(points := ins.points[..|ins.points|]) == ins;
      for i := 1 to |ins.points|
        invariant Valid() && ms == old(ms) && fresh(ms.repr - old(ms.repr))
        invariant Abs() == old(Abs()).(offsets := old(offsets)[source := offset], changed := true, tree := mem,
          arrived := arrived)
        invariant mem == old(mem)[ins.key := UpdatedCols(tbl, was, ins.(points := ins.points[..i]))]
        invariant arrived == Arriving(old(arrived), ins.key)
      {
        NextPoint(tbl, was, ins, i);
        assert Insertion(ins.ts, ins.key, [ins.points[i]]) == ins.(points := [ins.points[i]]);
        ProcessInsert(source, offset, Some((ins.key, ins.ts, ins.points[i])));
      }
    }

    /**
     * table.processInserts and doInsert for one entry: skipped if it was filtered
     * or is too old, else one insert for each of its points.
     */
    method ProcessEntry(source: int, e: Entry, cutoff: Time)
      requires Valid() && (e.Some? ==> e.value.ts > 0 && e.value.points != [])
      modifies this, ms, ms.repr
      ensures Valid() && ms == old(ms) && fresh(ms.repr - old(ms.repr))
              && Abs() == Inserted(tbl, old(Abs()), source, e, cutoff)
    {
      hide UpdatedCols, RowGood, RadixShapes.NoRepeats, WellFormedTable, TreeOk, Untouched;
      var offset := Pos(offsets, source) + 1;
      if e.None? || e.value.ts < cutoff { ProcessInsert(source, offset, None); }
        else { ProcessPoints(source, offset, e.value); }
    }

    /** What contexts from the given one on see: everything. */
    ghost predicate SeenFrom(ctx: int)
      reads `ms, ms, ms.repr
    {
      forall c, k | c >= ctx :: ms.Seen(c, k) == ms.Value(k)
    }

    /** Nothing has changed but what contexts before the given one have removed. */
    ghost predicate Flushable(ctx: int)
      reads this, ms, ms.repr
    {
      WellFormedTable(tbl) && Shaped(tbl, Abs()) && TreeOk() && SeenFrom(ctx)
    }

    /**
     * The flush of processInserts, with the given number of attempts failing: with
     * nothing in memory only the offsets are recorded, if they can be written.  Each
     * attempt iterates under a later context; one that fails stops where its reader
     * does, and what it has removed is there again for the next.
     */
    method Flush(mergeCutoff: Time, writeCutoff: Time, ctx: int, failures: nat, readers: nat -> (Emitted -> bool),
                 writable: bool, misread: seq<Row>)
      returns (panicked: bool, ghost order: seq<Key>)
      requires Valid() && ctx > 0
      modifies this, ms, ms.repr
      ensures panicked <==> old(mem) != map[] && failures >= 3
      ensures old(mem) == map[] ==> Valid() && ms == old(ms)
      ensures old(mem) == map[] && old(changed) ==>
        Abs() == old(Abs()).(offsetFile := if writable then Some(old(offsets)) else old(offsetFile), changed := false)
      ensures old(mem) == map[] && !old(changed) ==> Abs() == old(Abs())
      ensures old(mem) != map[] && !panicked ==>
        && IsOrder(order, old(mem)) && TreeOk() && Untouched() && fresh(ms) && fresh(ms.repr)
           && (Faithful(tbl, old(Abs())) ==> Valid())
        && Abs() == FlushedStore(tbl, old(Abs()).(flushCount := old(flushCount) + failures), mergeCutoff, writeCutoff,
           order, misread)
    {
      hide WrittenRows, RadixShapes.NoRepeats, WellFormedTable, RowGood, TreeOk, SeenFrom, Untouched, ReadBack,
        JoinedStore, NothingLost;
      order := [];
      var empty := IsEmpty();
      if empty {
        if changed {
          if writable { offsetFile := Some(offsets); }
          changed := false;
        }
        return false, order;
      }
      AllSeen(ctx);
      for i := 0 to 3
        invariant i <= failures && Flushable(ctx + i) && ms == old(ms) && ms.repr == old(ms.repr)
        invariant Abs() == old(Abs()).(flushCount := old(flushCount) + i)
      {
        if i == failures {
          order := Replace(mergeCutoff, writeCutoff, ctx + i, misread);
          return false, order;
        }
        TryFlush(mergeCutoff, ctx + i, readers(i));
        flushCount := flushCount + 1;
      }
      return true, order;
    }

    /** The length of the tree tells if there is anything in memory. */
    method IsEmpty() returns (empty: bool)
      requires TreeOk()
      ensures empty <==> mem == map[]
    {
      hide ByteTree.Tree.Valid, ByteTree.Tree.NodeAt, NameOf;
      empty := ms.length == 0;
      ghost var keys := arrived;
      if keys != [] {
        assert keys[0] in arrived && ms.Value(keys[0]) == Lookup(mem, keys[0]);
      } else {
        forall k ensures k !in mem { assert ms.Value(k) == Lookup(mem, k); }
        assert mem == map[];
      }
    }

    lemma AllSeen(ctx: int)
      requires Untouched()
      ensures SeenFrom(ctx)
    {
      hide ByteTree.Tree.Seen, ByteTree.Tree.Value;
      ms.NothingRemoved();
    }

    /** An attempt that fails. */
    method TryFlush(mergeCutoff: Time, ctx: int, more: Emitted -> bool)
      requires Flushable(ctx) && ctx > 0
      modifies ms.repr`removedFor
      ensures Flushable(ctx + 1)
    {
      hide WellFormed, RadixShapes.NoRepeats, Good, ByteTree.Tree.Valid, ByteTree.Tree.Value, ByteTree.Tree.Seen,
        ByteTree.Tree.NodeAt, NameOf, UpTo, Stop, FromFile;
      var j := FlushJoin(tbl, mergeCutoff);
      ghost var others: Views := (c, k) => old(ms.Seen(c, k));
      ReadyToJoin(tbl, Abs(), mergeCutoff);
      var _, _, _ := IterateTree(j, flushCount % 10 != 9, if file.None? then []
        else file.value.rows, ms, ctx, more, mem, others);
    }

    /** An attempt that succeeds: the new data file takes over, and memory starts anew. */
    method Replace(mergeCutoff: Time, writeCutoff: Time, ctx: int, misread: seq<Row>) returns (ghost order: seq<Key>)
      requires Flushable(ctx) && ctx > 0
      modifies this, ms.repr`removedFor
      ensures IsOrder(order, old(mem)) && TreeOk() && Untouched() && fresh(ms) && fresh(ms.repr)
              && (Faithful(tbl, old(Abs())) ==> Valid())
      ensures Abs() == FlushedStore(tbl, old(Abs()), mergeCutoff, writeCutoff, order, misread)
    {
      hide WrittenRows, RadixShapes.NoRepeats, WellFormedTable, RowGood, ReadBack, JoinedStore, Faithful, TreeOk,
        Untouched, SeenFrom;
      var rows;
      rows, order := WriteFile(mergeCutoff, writeCutoff, ctx);
      if Faithful(tbl, Abs()) {
        FlushIsJoin(tbl, Abs(), mergeCutoff, writeCutoff, order, misread);
        FlushedIsShaped(tbl, Abs(), mergeCutoff, writeCutoff, order);
      }
      file, changed, flushCount := Some(File(offsets, ReadBack(rows, misread))), false, flushCount + 1;
      Renew();
    }

    /** rowStore.newMemStore. */
    method Renew()
      modifies `ms, `mem, `arrived
      ensures TreeOk() && Untouched() && fresh(ms) && fresh(ms.repr) && mem == map[] && arrived == []
    {
      hide ByteTree.Tree.Valid, ByteTree.Tree.Value, ByteTree.Tree.NodeAt;
      ms := new ByteTree.Tree<seq<Column>>();
      mem, arrived := map[], [];
    }

    /** The rows of the new data file. */
    method WriteFile(mergeCutoff: Time, writeCutoff: Time, ctx: int) returns (rows: seq<Row>, ghost order: seq<Key>)
      requires Flushable(ctx) && ctx > 0
      modifies ms.repr`removedFor
      ensures Abs() == old(Abs()) && IsOrder(order, mem)
              && rows == WrittenRows(tbl, Abs(), mergeCutoff, writeCutoff, order)
    {
      hide WellFormed, CanWrite, RadixShapes.NoRepeats, Good, ByteTree.Tree.Valid, ByteTree.Tree.Value,
        ByteTree.Tree.Seen, ByteTree.Tree.NodeAt, NamedJoin, KeepsFile,
        WrittenAll, Arrived, WellFormedTable;
      var j, w, current := FlushJoin(tbl, mergeCutoff), FlushWriting(tbl, writeCutoff), if file.None? then []
        else file.value.rows;
      ReadyToJoin(tbl, Abs(), mergeCutoff);
      var out;
      out, order := IterateAll(j, flushCount % 10 != 9, current, ms, ctx, mem, arrived);
      NamedFits(tbl, Abs(), mergeCutoff, writeCutoff, order);
      rows := WriteAll(w, out);
    }
  }

  lemma ReadyToJoin(tbl: Table, st: Store, mergeCutoff: Time)
    requires WellFormedTable(tbl) && Shaped(tbl, st)
    ensures var j := FlushJoin(tbl, mergeCutoff);
            WellFormed(j) && RowsFit(j, FileRows(st)) && MemoryFits(j, st.tree) && KeepsFile(j)
  {
    hide Good, Storable, RadixShapes.NoRepeats;
    var j := FlushJoin(tbl, mergeCutoff);
    assert OutIdx(j.outFields, j.fileFields[0]) >= 0;
  }

  /** The data of a key is at its node. */
  lemma NodeOf(ms: TreeJoin.Tree, key: Key)
    requires ms.Valid()
    ensures var n := ms.NodeAt(key); ms.Value(key) == if n.None? then None else n.value.data
  {
    hide RadixShapes.Find, RadixShapes.Nodes, RadixShapes.SubNodes, ByteTree.Sound;
    RadixShapes.NodesOfSub(ms.shape);
  }

  /** A key that comes again changes nothing about which keys are reported. */
  lemma AgainArrived(ms: TreeJoin.Tree, arrived: seq<Key>, key: Key)
    requires Arrived(ms, arrived + [key]) && key in arrived
    ensures Arrived(ms, arrived)
  {
    hide ByteTree.Tree.Value, ByteTree.Tree.Reported, CameAfterLonger;
    forall k { CameNext(arrived, key, k); }
  }

  lemma EmptyRowIsGood(tbl: Table)
    requires WellFormedTable(tbl)
    ensures RowGood(tbl, NoCols(|tbl.fields|))
  {
    forall o: nat | o < |tbl.fields| ensures Good(tbl.fields[o], Sequences.Nil, tbl.res) {
      FieldIsStorable(tbl, o);
      GoodNothing(tbl.fields[o], tbl.res, 0);
    }
  }

  lemma OnePoint(tbl: Table, mem: Option<seq<Column>>, was: seq<Column>, ins: Insertion, cols: seq<Column>)
    requires WellFormedTable(tbl) && RowGood(tbl, was) && ins.ts > 0 && |ins.points| == 1
    requires if mem.Some? then was == mem.value else was == NoCols(|tbl.fields|)
    requires |cols| == |was| && forall o | 0 <= o < |cols| ::
             cols[o] == UpdatedCol(tbl, tbl.fields[o], was[o], ins.ts, ins.points[0])
    ensures cols == UpdatedCols(tbl, mem, ins)
  {
    hide UpdatedCol, Storable, Sequences.AllCells;
    forall o: nat | o < |cols| ensures cols[o] == UpdatedCols(tbl, mem, ins)[o] {
      OnePointColumn(tbl, tbl.fields[o], was[o], ins.ts, ins.points);
    }
  }

  lemma OnePointColumn(tbl: Table, f: Field, c: Column, ts: Time, points: seq<Point>)
    requires Storable(f) && Sequences.OnGrid(c, tbl.res) && ts > 0 && |points| == 1
    ensures UpdatedAll(tbl, f, c, ts, points) == UpdatedCol(tbl, f, c, ts, points[0])
  {
    hide UpdatedCol;
    assert UpdatedAll(tbl, f, c, ts, points[..0]) == c;
  }

  /** Adding a point to a row to which others were added before. */
  lemma NextPoint(tbl: Table, mem: Option<seq<Column>>, ins: Insertion, i: nat)
    requires WellFormedTable(tbl) && (mem.Some? ==> RowGood(tbl, mem.value)) && ins.ts > 0 && i < |ins.points|
    ensures RowGood(tbl, UpdatedCols(tbl, mem, ins.(points := ins.points[..i])))
    ensures UpdatedCols(tbl, Some(UpdatedCols(tbl, mem, ins.(points := ins.points[..i]))),
            ins.(points := [ins.points[i]]))
            == UpdatedCols(tbl, mem, ins.(points := ins.points[..i + 1]))
  {
    hide UpdatedCol, UpdatedAll, Storable, Sequences.AllCells;
    forall o: nat | o < |tbl.fields|
      ensures Good(tbl.fields[o], UpdatedCols(tbl, mem, ins.(points := ins.points[..i]))[o], tbl.res)
    {
      FieldIsStorable(tbl, o);
      GoodNothing(tbl.fields[o], tbl.res, 0);
      LiveTime(tbl.res);
      AllUpdated(tbl, tbl.fields[o], if mem.Some? then mem.value[o]
        else Sequences.Nil, ins.ts, ins.points[..i], tbl.res);
    }
    forall o: nat | o < |tbl.fields|
      ensures UpdatedCols(tbl, Some(UpdatedCols(tbl, mem, ins.(points := ins.points[..i]))),
              ins.(points := [ins.points[i]]))[o]
              == UpdatedCols(tbl, mem, ins.(points := ins.points[..i + 1]))[o]
    {
      FieldIsStorable(tbl, o);
      var c := if mem.Some? then mem.value[o] else Sequences.Nil;
      NextPointColumn(tbl, tbl.fields[o], c, ins.ts, ins.points, i);
    }
  }

  lemma NextPointColumn(tbl: Table, f: Field, c: Column, ts: Time, points: seq<Point>, i: nat)
    requires Storable(f) && Sequences.OnGrid(c, tbl.res) && ts > 0 && i < |points|
    ensures UpdatedAll(tbl, f, UpdatedAll(tbl, f, c, ts, points[..i]), ts, [points[i]])
            == UpdatedAll(tbl, f, c, ts, points[..i + 1])
  {
    hide UpdatedCol;
    assert points[..i + 1][..i] == points[..i];
    OnePointColumn(tbl, f, UpdatedAll(tbl, f, c, ts, points[..i]), ts, [points[i]]);
  }
}
