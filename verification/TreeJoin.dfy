/**
 * Joining a data file with the memstore's tree itself (row_store.go, bytetree/bytetree.go).
 *
 * An iteration removes the keys of the file from the tree, under a context of its
 * own, and then walks what is left under that context, until its reader has had
 * enough.  It is the full outer join of `RowJoin`, and other iterations of the same
 * tree do not notice (`IterateTree`).  But rows that are only in memory go by the
 * key that the walk reports: the join is right exactly if no such row was put into
 * the tree after a row with a longer key that starts with its own (`JoinFilled`).
 */
module TreeJoin {
  import opened Wrappers
  import opened RowJoin
  import opened Arrivals
  import RadixShapes
  import ByteTree

  type Tree = ByteTree.Tree<seq<Column>>
  type Node = ByteTree.Node<seq<Column>>

  /** The tree holds what a map does. */
  ghost predicate Holds(ms: Tree, tree: Memory)
    reads ms`shape, ms`repr, ms.repr`data
  {
    forall k :: ms.Value(k) == Lookup(tree, k)
  }

  /** What is seen of the tree under a context once some keys were removed. */
  ghost predicate SeesRest(ms: Tree, ctx: int, tree: Memory, removed: set<Key>)
    reads ms`shape, ms`repr, ms.repr`data, ms.repr`removedFor
  {
    forall k :: ms.Seen(ctx, k) == if k in removed then None else Lookup(tree, k)
  }

  /** What other iterations see of the tree. */
  type Views = (int, Key) -> Option<seq<Column>>

  ghost predicate OthersSee(ms: Tree, ctx: int, others: Views)
    reads ms`shape, ms`repr, ms.repr`data, ms.repr`removedFor
  {
    forall c, k | c != ctx :: ms.Seen(c, k) == others(c, k)
  }

  /** The key that a row goes by if a walk reports the given one. */
  function Named(key: Option<Key>): Key {
    if key.Some? then key.value else []
  }

  /** The keys by which rows go on. */
  ghost predicate AreNames(ms: Tree, keys: seq<Key>, names: seq<Key>)
    reads ms`shape, ms`repr, ms.repr`key
  {
    |names| == |keys| && forall i | 0 <= i < |keys| :: names[i] == Named(ms.Reported(keys[i]))
  }

  /** The keys of the tree that are not removed, each once. */
  ghost predicate IsRest(rest: seq<Key>, tree: Memory, removed: set<Key>) {
    RadixShapes.NoRepeats(rest) && forall k :: k in rest <==> k in tree && k !in removed
  }

  // ---------------------------------------------------------------- readers that have enough

  /** What a reader gets: all up to the first with which it has enough. */
  function UpTo(all: seq<Emitted>, more: Emitted -> bool): (r: seq<Emitted>)
    ensures r <= all
  {
    if all == [] || !more(all[0]) then all[..if all == [] then 0 else 1] else [all[0]] + UpTo(all[1..], more)
  }

  predicate Wants(all: seq<Emitted>, more: Emitted -> bool) {
    forall i | 0 <= i < |all| :: more(all[i])
  }

  /** A reader gets what it wants more of, and the one after. */
  lemma {:induction false} UpToIs(all: seq<Emitted>, n: nat, more: Emitted -> bool)
    requires n <= |all| && Wants(all[..n], more) && (n < |all| ==> !more(all[n]))
    ensures UpTo(all, more) == all[..if n < |all| then n + 1 else n]
  {
    if all != [] && n > 0 {
      assert more(all[..n][0]);
      assert all[1..][..n - 1] == all[..n][1..];
      UpToIs(all[1..], n - 1, more);
    }
  }

  /** The file row that ends an iteration, or all of them. */
  ghost function Stop(j: Join, raw: bool, rows: seq<Row>, tree: Memory): (n: nat)
    ensures n <= |rows| && (n < |rows| ==> !Continues(j, raw, Lookup(tree, rows[n].key)))
    ensures forall i | 0 <= i < n :: Continues(j, raw, Lookup(tree, rows[i].key))
  {
    if rows == [] then 0
    else
      var n := Stop(j, raw, rows[..|rows| - 1], tree);
      if n < |rows| - 1 then n else if Continues(j, raw, Lookup(tree, rows[n].key)) then n + 1 else n
  }

  // ---------------------------------------------------------------- iterating

  /** The keys of the first rows. */
  ghost function KeysTo(rows: seq<Row>, n: nat): set<Key>
    requires n <= |rows|
  {
    set k | k in Keys(rows)[..n]
  }

  lemma KeysNext(rows: seq<Row>, i: nat)
    requires i < |rows| && RadixShapes.NoRepeats(Keys(rows))
    ensures rows[i].key !in KeysTo(rows, i) && KeysTo(rows, i + 1) == KeysTo(rows, i) + {rows[i].key}
  {
    assert Keys(rows)[i] == rows[i].key;
    RadixShapes.NotBefore(Keys(rows), i);
    assert Keys(rows)[..i + 1] == Keys(rows)[..i] + [rows[i].key];
  }

  lemma KeysAll(rows: seq<Row>)
    ensures KeysTo(rows, 0) == {} && KeysTo(rows, |rows|) == set k | k in Keys(rows)
  {
    assert Keys(rows)[..|rows|] == Keys(rows);
  }

  /** Removes a file row's key from the tree, as seen by this iteration. */
  method TakeRow(ms: Tree, ctx: int, key: Key, ghost tree: Memory, ghost removed: set<Key>, ghost others: Views)
    returns (mem: Option<seq<Column>>)
    requires ms.Valid() && ctx != 0 && Holds(ms, tree) && OthersSee(ms, ctx, others)
             && SeesRest(ms, ctx, tree, removed) && key !in removed
    modifies ms.repr`removedFor
    ensures ms.Valid() && Holds(ms, tree) && OthersSee(ms, ctx, others) && SeesRest(ms, ctx, tree, removed + {key})
            && mem == Lookup(tree, key)
  {
    mem := ms.Remove(ctx, key);
  }

  /** Joins one row of the file with the tree; without a kept column there is nothing to pass on. */
  method NextRow(j: Join, raw: bool, row: Row, ms: Tree, ctx: int, ghost tree: Memory,
                 ghost removed: set<Key>, ghost others: Views)
    returns (next: Option<Emitted>)
    requires WellFormed(j) && MemoryFits(j, tree) && |row.cols| == |j.fileFields|
    requires ms.Valid() && ctx != 0 && Holds(ms, tree) && OthersSee(ms, ctx, others)
             && SeesRest(ms, ctx, tree, removed) && row.key !in removed
    modifies ms.repr`removedFor
    ensures ms.Valid() && Holds(ms, tree) && OthersSee(ms, ctx, others) && SeesRest(ms, ctx, tree, removed + {row.key})
    ensures next == if Continues(j, raw, Lookup(tree, row.key))
            then Some(EmittedFor(j, raw, row, Lookup(tree, row.key))) else None
  {
    hide KeepsFile, KeepsMem, JoinedCols, WellFormed, Holds, SeesRest, OthersSee, ByteTree.Tree.Valid;
    var mem := TakeRow(ms, ctx, row.key, tree, removed, others);
    if mem.None? && raw { return Some(Raw(row)); }
    var cols, includes := JoinRow(j, row.cols, mem);
    next := if includes then Some(Joined(row.key, cols)) else None;
  }

  /** Joins the rows of the file, until a row has no kept column or the reader has enough. */
  method JoinFile(j: Join, raw: bool, rows: seq<Row>, ms: Tree, ctx: int, more: Emitted -> bool, ghost tree: Memory,
                  ghost others: Views)
    returns (out: seq<Emitted>, done: bool)
    requires WellFormed(j) && RowsFit(j, rows) && MemoryFits(j, tree) && ms.Valid() && Holds(ms, tree)
             && OthersSee(ms, ctx, others) && ctx != 0 && SeesRest(ms, ctx, tree, {})
    modifies ms.repr`removedFor
    ensures ms.Valid() && Holds(ms, tree) && OthersSee(ms, ctx, others)
    ensures var file, n := FromFile(j, raw, rows, tree), Stop(j, raw, rows, tree);
            && (done <==> n == |rows| && Wants(file, more)) && out == UpTo(file[..n], more)
    ensures done ==> out == FromFile(j, raw, rows, tree) && SeesRest(ms, ctx, tree, set k | k in Keys(rows))
  {
    hide JoinedCols, WellFormed, Holds, SeesRest, OthersSee, UpTo, EmittedFor, Continues, Stop, ByteTree.Tree.Valid,
      KeysTo, RadixShapes.NoRepeats;
    ghost var file, n, removed: set<Key> := FromFile(j, raw, rows, tree), Stop(j, raw, rows, tree), {};
    KeysAll(rows);
    out := [];
    for i := 0 to |rows|
      invariant ms.Valid() && Holds(ms, tree) && OthersSee(ms, ctx, others) && SeesRest(ms, ctx, tree, removed)
        && removed == KeysTo(rows, i)
      invariant i <= n && out == file[..i] && Wants(out, more)
    {
      assert rows[i] in rows;
      KeysNext(rows, i);
      var next := NextRow(j, raw, rows[i], ms, ctx, tree, removed, others);
      removed := removed + {rows[i].key};
      if next.None? {
        UpToIs(file[..n], n, more);
        return out, false;
      }
      out := out + [next.value];
      if !more(next.value) {
        assert file[..n][..i] == file[..i] && file[..n][..i + 1] == out;
        UpToIs(file[..n], i, more);
        return out, false;
      }
    }
    assert file[..|rows|] == file && file[..n] == file;
    UpToIs(file[..n], n, more);
    done := true;
  }

  /** What a walk's reader gets for a node, and what it says. */
  function Says(j: Join, more: Emitted -> bool): (Option<Key>, seq<Column>) -> ByteTree.Verdict
    requires WellFormed(j)
  {
    (key, cols) => ByteTree.Verdict(|cols| == |j.memFields| ==> more(MemoryRow(j, Named(key), cols)), false)
  }

  /** The nodes that a walk under a context will meet. */
  ghost function Left(ms: Tree, ctx: int): seq<Node>
    reads ms`shape, ms`repr, ms.repr`data, ms.repr`removedFor
  {
    RadixShapes.Among(RadixShapes.Breadth([ms.shape]), ms.Live(ctx))
  }

  /** The keys that lead to some nodes. */
  ghost predicate LeadTo(ms: Tree, keys: seq<Key>, nodes: seq<Node>)
    reads ms`shape
  {
    |keys| == |nodes| && forall i | 0 <= i < |keys| :: ms.NodeAt(keys[i]) == Some(nodes[i])
  }

  lemma {:induction false} KeysOfNodes(ms: Tree, nodes: seq<Node>) returns (keys: seq<Key>)
    requires forall n | n in nodes :: exists k :: ms.NodeAt(k) == Some(n)
    ensures LeadTo(ms, keys, nodes)
    decreases |nodes|
  {
    hide ByteTree.Tree.NodeAt;
    if nodes == [] { return []; }
    var n := |nodes| - 1;
    assert forall m | m in nodes[..n] :: m in nodes;
    keys := KeysOfNodes(ms, nodes[..n]);
    assert nodes[n] in nodes;
    var k :| ms.NodeAt(k) == Some(nodes[n]);
    keys := keys + [k];
  }

  /** The walk will meet the nodes of the keys that are left. */
  lemma KeysLeft(ms: Tree, ctx: int, tree: Memory, removed: set<Key>) returns (rest: seq<Key>)
    requires ms.Valid() && Holds(ms, tree) && SeesRest(ms, ctx, tree, removed)
    ensures LeadTo(ms, rest, Left(ms, ctx)) && IsRest(rest, tree, removed)
  {
    hide Left, ByteTree.Tree.Valid, RadixShapes.Find;
    var nodes := Left(ms, ctx);
    assert RadixShapes.NoRepeats(nodes)
      && (forall k | ms.Seen(ctx, k).Some? :: ms.NodeAt(k).value in nodes)
      && (forall n | n in nodes :: exists k ::
         ms.NodeAt(k) == Some(n) && ms.Seen(ctx, k) == n.data && n.data.Some?) by { LeftAre(ms, ctx); }
    rest := KeysOfNodes(ms, nodes);
    forall k ensures k in rest <==> k in tree && k !in removed {
      ms.OtherNodes(k);
      if k in rest { LeftKey(ms, ctx, tree, removed, nodes, rest, k); }
      if k in tree && k !in removed {
        assert ms.Seen(ctx, k).Some?;
        var i :| 0 <= i < |nodes| && nodes[i] == ms.NodeAt(k).value;
        assert rest[i] == k;
      }
    }
  }

  lemma LeftAre(ms: Tree, ctx: int)
    requires ms.Valid()
    ensures var nodes := Left(ms, ctx);
            && RadixShapes.NoRepeats(nodes)
            && (forall k | ms.Seen(ctx, k).Some? :: ms.NodeAt(k).value in nodes)
            && (forall n | n in nodes :: exists k ::
               ms.NodeAt(k) == Some(n) && ms.Seen(ctx, k) == n.data && n.data.Some?)
  {
    ms.WalkReports(ctx);
  }

  lemma LeftKey(ms: Tree, ctx: int, tree: Memory, removed: set<Key>, nodes: seq<Node>, rest: seq<Key>, k: Key)
    requires ms.Valid() && SeesRest(ms, ctx, tree, removed) && LeadTo(ms, rest, nodes) && k in rest
    requires forall n | n in nodes :: exists k :: ms.NodeAt(k) == Some(n) && ms.Seen(ctx, k) == n.data && n.data.Some?
    ensures k in tree && k !in removed
  {
    hide ByteTree.Tree.Valid, RadixShapes.Find;
    var i :| 0 <= i < |rest| && rest[i] == k;
    assert nodes[i] in nodes;
    var other :| ms.NodeAt(other) == Some(nodes[i]) && ms.Seen(ctx, other).Some?;
    ms.OtherNodes(k);
    assert other == k;
  }

  /** A node has the data of a key, and its name. */
  ghost predicate IsRow(n: Node, key: Key, name: Key, tree: Memory)
    reads n`key, n`data
  {
    Named(n.key) == name && key in tree && n.data == Some(tree[key])
  }

  lemma LeftRows(ms: Tree, nodes: seq<Node>, rest: seq<Key>, names: seq<Key>, tree: Memory, removed: set<Key>)
    requires ms.Valid() && Holds(ms, tree) && LeadTo(ms, rest, nodes) && IsRest(rest, tree, removed)
             && AreNames(ms, rest, names)
    ensures forall i | 0 <= i < |nodes| :: nodes[i] in ms.repr && IsRow(nodes[i], rest[i], names[i], tree)
  {
    hide RadixShapes.Find, RadixShapes.Nodes, RadixShapes.SubNodes, ByteTree.Sound;
    RadixShapes.NodesOfSub(ms.shape);
    forall i | 0 <= i < |nodes| ensures nodes[i] in ms.repr && IsRow(nodes[i], rest[i], names[i], tree) {
      assert rest[i] in rest && ms.NodeAt(rest[i]) == Some(nodes[i]) && ms.Value(rest[i]) == Lookup(tree, rest[i]);
    }
  }

  /** What is seen of a node under a context, given the removals. */
  ghost function SeenIn(n: Option<Node>, removed: map<Node, seq<int>>,
                        data: map<Node, Option<seq<Column>>>, ctx: int): Option<seq<Column>> {
    if n.Some? && n.value in removed && n.value in data
      && (ctx == 0 || ctx !in removed[n.value]) then data[n.value] else None
  }

  lemma SeenIs(ms: Tree)
    ensures forall c, k :: ms.Seen(c, k) == SeenIn(ms.NodeAt(k), ms.RemovedOf(), ms.DataOf(), c)
  {
    hide RadixShapes.Find;
  }

  /** A walk removes for its own context only. */
  lemma OthersUnmarked(n: Option<Node>, was: map<Node, seq<int>>,
                       data: map<Node, Option<seq<Column>>>, visited: seq<Node>, ctx: int,
                       answers: map<Node, ByteTree.Verdict>, c: int)
    requires c != ctx
    ensures SeenIn(n, ByteTree.Marked(was, visited, ctx, answers), data, c) == SeenIn(n, was, data, c)
  {
  }

  /** A reader of a walk gets what it wants more of, and one more. */
  lemma WalkIsUpTo(all: seq<Emitted>, n: nat, more: Emitted -> bool)
    requires n <= |all| && (n == 0 ==> all == []) && (n > 0
             ==> Wants(all[..n - 1], more) && (more(all[n - 1]) ==> n == |all|))
    ensures UpTo(all, more) == all[..n]
  {
    hide UpTo;
    if n == 0 { UpToIs(all, 0, more); } else if more(all[n - 1]) { UpToIs(all, n, more); }
      else { UpToIs(all, n - 1, more); }
  }

  /** What the visited nodes say is what the reader says of their rows. */
  lemma WalkEnds(j: Join, ms: Tree, nodes: seq<Node>, visited: seq<Node>, rest: seq<Key>,
                 names: seq<Key>, tree: Memory, more: Emitted -> bool)
    requires WellFormed(j) && MemoryFits(j, tree) && |rest| == |nodes| == |names| && forall k | k in rest :: k in tree
    requires forall i | 0 <= i < |nodes| :: nodes[i] in ms.repr && IsRow(nodes[i], rest[i], names[i], tree)
    requires ByteTree.IsWalk(visited, nodes, ms.Answers(Says(j, more)))
    ensures UpTo(FromNamed(j, rest, names, tree), more) == FromNamed(j, rest, names, tree)[..|visited|]
  {
    hide UpTo, JoinedCols, WellFormed, ByteTree.IsWalk;
    var all, n, answers := FromNamed(j, rest, names, tree), |visited|, ms.Answers(Says(j, more));
    forall i | 0 <= i < |nodes| ensures nodes[i] in answers && answers[nodes[i]].more == more(all[i]) {
      assert IsRow(nodes[i], rest[i], names[i], tree);
    }
    WalkIs(visited, nodes, answers);
    WalkIsUpTo(all, n, more);
  }

  lemma WalkIs(visited: seq<Node>, nodes: seq<Node>, answers: map<Node, ByteTree.Verdict>)
    requires ByteTree.IsWalk(visited, nodes, answers)
    ensures visited <= nodes && (visited == [] ==> nodes == [])
    ensures visited != [] ==> var n := |visited| - 1;
              && (forall i | 0 <= i < n :: nodes[i] in answers && answers[nodes[i]].more)
              && nodes[n] in answers && (answers[nodes[n]].more ==> visited == nodes)
  {
    if visited != [] {
      var init := visited[..|visited| - 1];
      assert forall i | 0 <= i < |init| :: init[i] in init && init[i] == nodes[i];
    }
  }

  /** Walks the rows left in the tree. */
  method WalkRest(j: Join, ms: Tree, ctx: int, more: Emitted -> bool, ghost tree: Memory,
                  ghost removed: set<Key>, ghost others: Views)
    returns (out: seq<Emitted>, ghost rest: seq<Key>, ghost names: seq<Key>)
    requires WellFormed(j) && MemoryFits(j, tree) && ms.Valid() && Holds(ms, tree) && OthersSee(ms, ctx, others)
             && SeesRest(ms, ctx, tree, removed)
    modifies ms.repr`removedFor
    ensures ms.Valid() && Holds(ms, tree) && OthersSee(ms, ctx, others)
    ensures IsRest(rest, tree, removed) && AreNames(ms, rest, names)
            && out == UpTo(FromNamed(j, rest, names, tree), more)
  {
    hide JoinedCols, WellFormed, UpTo, ByteTree.Tree.Valid, ByteTree.Tree.RemovedOf, ByteTree.Tree.DataOf,
      ByteTree.Tree.Answers, ByteTree.Marked, SeesRest,
      ByteTree.Tree.NodeAt, ByteTree.IsWalk, Says, SeenIn, ByteTree.Tree.Seen, ByteTree.Tree.Reported,
        RadixShapes.NoRepeats, ByteTree.Tree.Live, Holds;
    rest := KeysLeft(ms, ctx, tree, removed);
    names := seq(|rest|, i reads ms, ms.repr requires 0 <= i < |rest| => Named(ms.Reported(rest[i])));
    ghost var nodes, was := Left(ms, ctx), ms.RemovedOf();
    LeftRows(ms, nodes, rest, names, tree, removed);
    SeenIs(ms);
    var visited := ms.Walk(ctx, Says(j, more));
    SeenIs(ms);
    forall c, k | c != ctx ensures ms.Seen(c, k) == others(c, k) {
      OthersUnmarked(ms.NodeAt(k), was, ms.DataOf(), visited, ctx, ms.Answers(Says(j, more)), c);
    }
    WalkEnds(j, ms, nodes, visited, rest, names, tree, more);
    WalkIs(visited, nodes, ms.Answers(Says(j, more)));
    out := RowsOf(j, visited, nodes, rest, names, tree);
  }

  /** The rows of the nodes that a walk visited. */
  method RowsOf(j: Join, visited: seq<Node>, ghost nodes: seq<Node>, ghost rest: seq<Key>,
                ghost names: seq<Key>, ghost tree: Memory)
    returns (out: seq<Emitted>)
    requires WellFormed(j) && MemoryFits(j, tree) && |rest| == |nodes| == |names|
             && (forall k | k in rest :: k in tree) && visited <= nodes
    requires forall i | 0 <= i < |nodes| :: IsRow(nodes[i], rest[i], names[i], tree)
    ensures out == FromNamed(j, rest, names, tree)[..|visited|]
  {
    hide JoinedCols, WellFormed;
    out := [];
    for i := 0 to |visited|
      invariant out == FromNamed(j, rest, names, tree)[..i]
    {
      var n := visited[i];
      assert n == nodes[i] && IsRow(nodes[i], rest[i], names[i], tree);
      out := out + [MemoryRow(j, Named(n.key), n.data.value)];
    }
  }

  /** fileStore.iterate with a memstore: joins the file's rows, then walks what is left in the tree. */
  method IterateTree(j: Join, raw: bool, rows: seq<Row>, ms: Tree, ctx: int, more: Emitted -> bool, ghost tree: Memory,
                     ghost others: Views)
    returns (out: seq<Emitted>, ghost rest: seq<Key>, ghost names: seq<Key>)
    requires WellFormed(j) && RowsFit(j, rows) && MemoryFits(j, tree) && ms.Valid() && Holds(ms, tree)
             && OthersSee(ms, ctx, others) && ctx != 0 && SeesRest(ms, ctx, tree, {})
    modifies ms.repr`removedFor
    ensures ms.Valid() && Holds(ms, tree) && OthersSee(ms, ctx, others)
    ensures var file, n := FromFile(j, raw, rows, tree), Stop(j, raw, rows, tree);
            if n < |rows| || !Wants(file, more) then out == UpTo(file[..n], more)
            else
              && IsRest(rest, tree, set k | k in Keys(rows)) && AreNames(ms, rest, names)
              && out == file + UpTo(FromNamed(j, rest, names, tree), more)
  {
    hide WellFormed, Holds, SeesRest, OthersSee, UpTo, EmittedFor, Continues, Stop, JoinedCols, ByteTree.Tree.Valid;
    var done;
    rest, names := [], [];
    out, done := JoinFile(j, raw, rows, ms, ctx, more, tree, others);
    if done {
      var left;
      left, rest, names := WalkRest(j, ms, ctx, more, tree, (set k | k in Keys(rows)), others);
      out := out + left;
    }
  }

  // ---------------------------------------------------------------- when it is the outer join

  /** The keys that are in memory too. */
  ghost function Shared(rows: seq<Row>, tree: Memory): (r: seq<Key>)
    ensures forall k | k in r :: k in tree && k in Keys(rows)
    ensures forall k | k in tree && k in Keys(rows) :: k in r
  {
    if rows == [] then []
    else
      var n := |rows| - 1;
      var before := Shared(rows[..n], tree);
      assert Keys(rows) == Keys(rows[..n]) + [rows[n].key];
      if rows[n].key in tree then before + [rows[n].key] else before
  }

  lemma {:induction false} SharedOnce(rows: seq<Row>, tree: Memory)
    requires RadixShapes.NoRepeats(Keys(rows))
    ensures RadixShapes.NoRepeats(Shared(rows, tree))
  {
    if rows != [] {
      var n := |rows| - 1;
      assert Keys(rows) == Keys(rows[..n]) + [rows[n].key];
      assert Keys(rows[..n]) == Keys(rows)[..n];
      SharedOnce(rows[..n], tree);
      RadixShapes.NotBefore(Keys(rows), n);
    }
  }

  lemma {:induction false} RemainingFirst(rest: seq<Key>, more: seq<Key>, removed: set<Key>)
    requires (forall k | k in rest :: k !in removed) && forall k | k in more :: k in removed
    ensures Remaining(rest + more, removed) == rest
  {
    var order := rest + more;
    if order != [] {
      var n := |order| - 1;
      if more != [] {
        assert order[..n] == rest + more[..|more| - 1];
        RemainingFirst(rest, more[..|more| - 1], removed);
      } else {
        assert order == rest && order[..n] == rest[..n] + [];
        RemainingFirst(rest[..n], [], removed);
      }
    }
  }

  /** The walk of the rest can be seen as one of the whole tree. */
  lemma RestIsOrder(rows: seq<Row>, tree: Memory, rest: seq<Key>)
    requires RadixShapes.NoRepeats(Keys(rows)) && IsRest(rest, tree, set k | k in Keys(rows))
    ensures var order := rest + Shared(rows, tree);
            IsOrder(order, tree) && Remaining(order, set k | k in Keys(rows)) == rest
  {
    SharedOnce(rows, tree);
    var order := rest + Shared(rows, tree);
    forall a, b | 0 <= a < b < |order| ensures order[a] != order[b] {
      if a < |rest| <= b { assert order[a] in rest && order[b] in Shared(rows, tree); }
    }
    RemainingFirst(rest, Shared(rows, tree), set k | k in Keys(rows));
  }

  // ---------------------------------------------------------------- which keys are reported

  /** Keys came to the tree in some order. */
  ghost predicate Arrived(ms: Tree, arrived: seq<Key>)
    reads ms`shape, ms`repr, ms.repr`data, ms.repr`key
  {
    && (forall k :: ms.Value(k).Some? <==> k in arrived)
    && forall k | k in arrived :: Named(ms.Reported(k)) == NameOf(arrived, k)
  }

  /** Puts the columns of a key into the tree. */
  method Put(ms: Tree, key: Key, cols: seq<Column>, ghost arrived: seq<Key>)
    requires ms.Valid() && Arrived(ms, arrived)
    modifies ms, ms.repr
    ensures ms.Valid() && old(ms.repr) <= ms.repr && fresh(ms.repr - old(ms.repr)) && Arrived(ms, arrived + [key])
    ensures forall k :: ms.Value(k) == if k == key then Some(cols) else old(ms.Value(k))
    ensures ms.length == old(ms.length) + if old(ms.NodeAt(key)).None? then 1 else 0
    ensures (forall n | n in old(ms.repr) :: n.removedFor == old(n.removedFor))
            && forall n | n in ms.repr - old(ms.repr) :: n.removedFor == []
  {
    hide ByteTree.Tree.Valid, RadixShapes.Crowded, ByteTree.Tree.Value, ByteTree.Tree.Reported, ByteTree.Tree.NodeAt,
      CameAfterLonger;
    if key !in arrived && key != [] {
      ms.CrowdedKeys(key);
      Longer(arrived, key);
    }
    forall k { CameNext(arrived, key, k); }
    var _ := ms.Update(key, _ => cols);
  }

  lemma Longer(keys: seq<Key>, key: Key)
    ensures (exists l :: 0 <= l < |keys| && key < keys[l]) <==> exists longer :: key < longer && longer in keys
  {
    if l :| 0 <= l < |keys| && key < keys[l] { assert keys[l] in keys; }
  }

  /** What memory holds after rows were put in one after the other. */
  function Filled(rows: seq<Row>): (tree: Memory)
    ensures forall k :: k in tree <==> k in Keys(rows)
  {
    if rows == [] then map[]
    else
      var n := |rows| - 1;
      assert Keys(rows) == Keys(rows[..n]) + [rows[n].key];
      Filled(rows[..n])[rows[n].key := rows[n].cols]
  }

  lemma FilledNext(rows: seq<Row>, i: nat)
    requires i < |rows|
    ensures Filled(rows[..i + 1]) == Filled(rows[..i])[rows[i].key := rows[i].cols]
            && Keys(rows[..i + 1]) == Keys(rows[..i]) + [rows[i].key]
  {
    assert rows[..i + 1][..i] == rows[..i];
  }

  /**
   * A tree that rows were put into, in any order and any number of times: their keys
   * are reported unless they came after a longer one.
   */
  method Fill(rows: seq<Row>) returns (ms: Tree)
    ensures ms.Valid() && fresh(ms) && fresh(ms.repr) && Holds(ms, Filled(rows)) && Arrived(ms, Keys(rows))
    ensures forall c, k :: ms.Seen(c, k) == ms.Value(k)
  {
    hide ByteTree.Tree.Valid, ByteTree.Tree.Value, ByteTree.Tree.Reported, NameOf, Filled, Keys;
    ms := new ByteTree.Tree<seq<Column>>();
    NoFill();
    assert rows[..0] == [];
    for i := 0 to |rows|
      invariant ms.Valid() && fresh(ms) && fresh(ms.repr) && Holds(ms, Filled(rows[..i]))
        && Arrived(ms, Keys(rows[..i]))
      invariant forall n | n in ms.repr :: n.removedFor == []
    {
      Put(ms, rows[i].key, rows[i].cols, Keys(rows[..i]));
      FilledNext(rows, i);
    }
    assert rows[..|rows|] == rows;
    ms.NothingRemoved();
  }

  lemma NoFill()
    ensures Filled([]) == map[] && Keys([]) == []
  {
  }

  /** The iteration of a tree is that of rows whose keys came in the order in which they did. */
  lemma ArrivedJoin(j: Join, raw: bool, rows: seq<Row>, ms: Tree, tree: Memory, arrived: seq<Key>,
                    rest: seq<Key>, names: seq<Key>)
    requires WellFormed(j) && RowsFit(j, rows) && MemoryFits(j, tree) && Holds(ms, tree) && Arrived(ms, arrived)
    requires IsRest(rest, tree, set k | k in Keys(rows)) && AreNames(ms, rest, names)
    ensures var order := rest + Shared(rows, tree);
            && IsOrder(order, tree)
            && FromFile(j, raw, rows, tree) + FromNamed(j, rest, names, tree)
               == NamedJoin(j, raw, rows, tree, arrived, order)
  {
    hide WellFormed, EmittedFor, JoinedCols, Remaining, Shared, RadixShapes.NoRepeats, NameOf, ByteTree.Tree.Value,
      ByteTree.Tree.Reported;
    RestIsOrder(rows, tree, rest);
    forall i | 0 <= i < |rest| ensures names[i] == NamesOf(arrived, rest)[i] {
      assert rest[i] in rest && ms.Value(rest[i]) == Lookup(tree, rest[i]);
    }
    assert names == NamesOf(arrived, rest);
  }

  predicate Everything(e: Emitted) {
    true
  }

  /** An iteration that is read to the end passes on all rows, by the names that their order of arrival gives them. */
  method IterateAll(j: Join, raw: bool, rows: seq<Row>, ms: Tree, ctx: int, ghost tree: Memory, ghost arrived: seq<Key>)
    returns (out: seq<Emitted>, ghost order: seq<Key>)
    requires WellFormed(j) && RowsFit(j, rows) && MemoryFits(j, tree) && ms.Valid() && Holds(ms, tree)
             && Arrived(ms, arrived)
    requires ctx != 0 && SeesRest(ms, ctx, tree, {}) && forall r | r in rows :: Continues(j, raw, Lookup(tree, r.key))
    modifies ms.repr`removedFor
    ensures ms.Valid() && Holds(ms, tree) && Arrived(ms, arrived)
            && forall c, k | c != ctx :: ms.Seen(c, k) == old(ms.Seen(c, k))
    ensures IsOrder(order, tree) && out == NamedJoin(j, raw, rows, tree, arrived, order)
  {
    hide WellFormed, UpTo, EmittedFor, Continues, JoinedCols, ByteTree.Tree.Valid, ByteTree.Tree.Seen,
      ByteTree.Tree.Value, RadixShapes.NoRepeats, NamedJoin,
      Shared, SeesRest;
    ghost var rest, names;
    ghost var others: Views := (c, k) => old(ms.Seen(c, k));
    assert Stop(j, raw, rows, tree) == |rows| by { NoStop(j, raw, rows, tree); }
    out, rest, names := IterateTree(j, raw, rows, ms, ctx, Everything, tree, others);
    UpToIs(FromNamed(j, rest, names, tree), |rest|, Everything);
    ArrivedJoin(j, raw, rows, ms, tree, arrived, rest, names);
    order := rest + Shared(rows, tree);
  }

  lemma NoStop(j: Join, raw: bool, rows: seq<Row>, tree: Memory)
    requires forall r | r in rows :: Continues(j, raw, Lookup(tree, r.key))
    ensures Stop(j, raw, rows, tree) == |rows|
  {
    hide Continues, Stop;
    assert forall i | 0 <= i < |rows| :: rows[i] in rows;
  }

  /**
   * Rows are put into a tree in any order, and the tree is joined with a file: that
   * is the outer join of both exactly if no key that is only in memory came after a
   * longer one that starts with it.
   */
  method JoinFilled(j: Join, raw: bool, rows: seq<Row>, filled: seq<Row>, ctx: int)
    returns (out: seq<Emitted>, ghost order: seq<Key>)
    requires WellFormed(j) && RowsFit(j, rows) && ctx != 0 && forall r | r in filled :: |r.cols| == |j.memFields|
    requires forall r | r in rows :: Continues(j, raw, Lookup(Filled(filled), r.key))
    ensures MemoryFits(j, Filled(filled)) && IsOrder(order, Filled(filled))
    ensures out == AllJoined(j, raw, rows, Filled(filled), order)
            <==> forall k | k in Keys(filled) && k !in Keys(rows) :: !IsLost(Keys(filled), k)
  {
    hide WellFormed, Continues, ByteTree.Tree.Valid, ByteTree.Tree.Seen, ByteTree.Tree.Value, RadixShapes.NoRepeats,
      NamedJoin, AllJoined, IsLost, Filled, Arrived;
    FilledFits(j, filled);
    var ms := Fill(filled);
    out, order := IterateAll(j, raw, rows, ms, ctx, Filled(filled), Keys(filled));
    NamedJoinIff(j, raw, rows, Filled(filled), Keys(filled), order);
  }

  lemma {:induction false} FilledFits(j: Join, filled: seq<Row>)
    requires forall r | r in filled :: |r.cols| == |j.memFields|
    ensures MemoryFits(j, Filled(filled))
  {
    if filled != [] {
      var n := |filled| - 1;
      assert filled[n] in filled && forall r | r in filled[..n] :: r in filled;
      FilledFits(j, filled[..n]);
    }
  }

  /**
   * Put in after a row with a longer key, a row goes on without its key: the
   * iteration has the empty key and not its own.
   */
  method RowLosesKey(j: Join, cols: seq<Column>) returns (out: seq<Emitted>)
    requires WellFormed(j) && |cols| == |j.memFields|
    ensures |out| == 2 && [] in EmittedKeys(out) && [1, 2] in EmittedKeys(out) && [1] !in EmittedKeys(out)
  {
    hide WellFormed, ByteTree.Tree.Valid, ByteTree.Tree.Seen, ByteTree.Tree.Value, RadixShapes.NoRepeats, Filled,
      Arrived, NamedJoin, EmittedKeys;
    var short: Key, long: Key := [1], [1, 2];
    var filled := [Row(long, cols), Row(short, cols)];
    FilledFits(j, filled);
    NoRows(j);
    var ms := Fill(filled);
    ghost var order;
    out, order := IterateAll(j, false, [], ms, 1, Filled(filled), Keys(filled));
    assert Keys(filled) == [long, short];
    KeyIsLost(j, filled, order, short, long);
  }

  lemma KeyIsLost(j: Join, filled: seq<Row>, order: seq<Key>, short: Key, long: Key)
    requires WellFormed(j) && RowsFit(j, []) && MemoryFits(j, Filled(filled)) && IsOrder(order, Filled(filled))
    requires Keys(filled) == [long, short] && [] != short < long
    ensures EmittedKeys(NamedJoin(j, false, [], Filled(filled), Keys(filled), order)) in {[[], long], [long, []]}
  {
    hide WellFormed, JoinedCols, EmittedFor, RadixShapes.NoRepeats, Remaining, Filled, NameOf;
    RemainingOnce(order, set k | k in Keys([]));
    var out := NamedJoin(j, false, [], Filled(filled), Keys(filled), order);
    assert EmittedKeys(out) == NamesOf([long, short], RestOf([], order));
    LostNames(RestOf([], order), short, long);
  }

  lemma LostNames(rest: seq<Key>, short: Key, long: Key)
    requires RadixShapes.NoRepeats(rest) && (forall k :: k in rest <==> k == short || k == long) && [] != short < long
    ensures NamesOf([long, short], rest) in {[[], long], [long, []]}
  {
    hide RadixShapes.NoRepeats, NameOf;
    ShortAfterLong(short, long);
    TwoKeys(rest, short, long);
    assert NamesOf([long, short], [short, long]) == [[], long] && NamesOf([long, short], [long, short]) == [long, []];
  }

  lemma NoRows(j: Join)
    ensures RowsFit(j, [])
  {
  }

  lemma ShortAfterLong(short: Key, long: Key)
    requires [] != short < long
    ensures NameOf([long, short], short) == [] && NameOf([long, short], long) == long
  {
    var keys := [long, short];
    assert keys[1] == short && short !in keys[..1] && short < keys[0];
  }

  lemma TwoKeys(rest: seq<Key>, a: Key, b: Key)
    requires RadixShapes.NoRepeats(rest) && a != b && forall k :: k in rest <==> k == a || k == b
    ensures |rest| == 2 && (rest == [a, b] || rest == [b, a])
  {
    assert a in rest && b in rest;
    var i :| 0 <= i < |rest| && rest[i] == a;
    var l :| 0 <= l < |rest| && rest[l] == b;
    OneOfTwo(rest, a, b, 0);
    OneOfTwo(rest, a, b, 1);
    if |rest| > 2 { OneOfTwo(rest, a, b, 2); }
  }

  lemma OneOfTwo(rest: seq<Key>, a: Key, b: Key, i: nat)
    requires i < |rest| && forall k | k in rest :: k == a || k == b
    ensures rest[i] == a || rest[i] == b
  {
    assert rest[i] in rest;
  }
}
