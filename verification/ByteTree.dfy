/**
 * Package bytetree: a radix tree from byte keys to data, changed in place.
 *
 * The tree is a graph of `Node` objects.  A ghost shape says which nodes belong to
 * it and by which labels they are reached; `Tree.Valid` ties the edge lists of the
 * nodes to it.  Every operation is stated by what keys lead to afterwards.
 */
module ByteTree {
  import opened Wrappers
  import opened RadixShapes

  // ---------------------------------------------------------------- shapes with data

  /** The data found by a key. */
  ghost function DataAt<N, D>(s: Shape<N>, data: map<N, Option<D>>, key: Key): Option<D>
    requires Even(s) && Nodes(s) <= data.Keys
  {
    match Find(s, key)
    case None => None
    case Some(n) => data[n]
  }

  ghost function FilledNodes<N, D>(s: Shape<N>, data: map<N, Option<D>>): set<N>
    requires Nodes(s) <= data.Keys
  {
    set n | n in Nodes(s) && data[n].Some?
  }

  /** The nodes' edges and data make up the shape. */
  ghost predicate Sound<N, D>(s: Shape<N>, edges: map<N, seq<Edge<N>>>, data: map<N, Option<D>>)
    ensures Sound(s, edges, data) ==> Even(s) && Nodes(s) <= data.Keys
  {
    && Wf(s, true) && Distinct(s) && Matches(s, edges)
    && Nodes(s) <= data.Keys && data[s.node].None? && Full(s, true, FilledNodes(s, data))
  }

  lemma {:induction false} FullMore<N>(s: Shape<N>, root: bool, filled: set<N>, more: set<N>)
    requires Full(s, root, filled) && filled <= more
    ensures Full(s, root, more)
    decreases s
  {
    forall i | 0 <= i < |s.subs| ensures Full(s.subs[i], false, more) {
      FullMore(s.subs[i], false, filled, more);
    }
  }

  lemma {:induction false} InsertIsFull<N>(s: Shape<N>, root: bool, key: Key, leaf: N, mid: N,
                                           filled: set<N>, more: set<N>)
    requires Even(s) && Full(s, root, filled) && filled <= more && Target(s, key, leaf, mid) in more
    ensures Full(Insert(s, key, leaf, mid), root, more)
    decreases s
  {
    hide StepFrom, CommonPrefix, Nodes, SubNodes;
    FullMore(s, root, filled, more);
    var r := Insert(s, key, leaf, mid);
    var step := StepAt(s.labels, key);
    if step.Down? {
      InsertIsFull(s.subs[step.i], false, key[|s.labels[step.i]|..], leaf, mid, filled, more);
    } else if step.Split? {
      var sub := SplitShape(s.labels[step.i], s.subs[step.i], key, step.at, leaf, mid);
      assert Full(sub, false, more);
    }
  }

  /** After a key was added its data is what was put at its node; all other keys keep theirs. */
  lemma InsertedData<N, D>(s: Shape<N>, key: Key, leaf: N, mid: N, data: map<N, Option<D>>,
                           now: map<N, Option<D>>, other: Key)
    requires Even(s) && Distinct(s) && leaf != mid && Nodes(s) <= data.Keys && Added(s, key, leaf, mid) !! Nodes(s)
    requires Nodes(s) <= now.Keys && Nodes(Insert(s, key, leaf, mid)) <= now.Keys
    requires var target := Target(s, key, leaf, mid);
             && (forall n | n in Nodes(s) :: n != target ==> now[n] == data[n])
             && (mid != target && mid in now ==> now[mid].None?)
    ensures var target := Target(s, key, leaf, mid);
            && (other == key ==> Find(Insert(s, key, leaf, mid), key) == Some(target))
            && (other != key ==> DataAt(Insert(s, key, leaf, mid), now, other) == DataAt(s, data, other))
  {
    hide StepFrom, CommonPrefix, Nodes, SubNodes, Insert, Target, Find;
    var r := Insert(s, key, leaf, mid);
    FindInserted(s, key, leaf, mid, other);
    FindInserted(s, key, leaf, mid, key);
    InsertNodes(s, key, leaf, mid);
    InsertIsDistinct(s, key, leaf, mid);
    NodesOfSub(s);
    NodesOfSub(r);
    if other != key && Find(r, other).Some? && Find(r, other) == Find(r, key) {
      FindInjective(r, other, key);
    }
  }

  /** Changing the edges where the key leaves the tree, and the data at its node, keeps the tree sound. */
  lemma InsertIsSound<N, D>(s: Shape<N>, key: Key, leaf: N, mid: N,
                            edges: map<N, seq<Edge<N>>>,
                            data: map<N, Option<D>>, edgesNow: map<N, seq<Edge<N>>>, dataNow: map<N, Option<D>>)
    requires Sound(s, edges, data) && leaf != mid && Added(s, key, leaf, mid) !! Nodes(s)
    requires var (spot, rest) := Spot(s, key); Matches(Insert(spot, rest, leaf, mid), edgesNow)
    requires forall n | n in Nodes(s) :: n != Spot(s, key).0.node ==>
             n in edges && n in edgesNow && edgesNow[n] == edges[n]
    requires Nodes(s) + Added(s, key, leaf, mid) <= dataNow.Keys
    requires var target := Target(s, key, leaf, mid);
             && target in dataNow && dataNow[target].Some? && target != s.node
             && forall n | n in Nodes(s) :: n != target ==> dataNow[n] == data[n]
    ensures Sound(Insert(s, key, leaf, mid), edgesNow, dataNow)
  {
    hide StepFrom, CommonPrefix, Nodes, SubNodes, Insert, Target, Find, Spot, Added, Wf, Distinct, Matches, Full,
      DataAt;
    var r := Insert(s, key, leaf, mid);
    InsertIsWf(s, true, key, leaf, mid);
    InsertNodes(s, key, leaf, mid);
    InsertIsDistinct(s, key, leaf, mid);
    InsertMatches(s, key, leaf, mid, edges, edgesNow);
    TargetIsNode(s, key, leaf, mid);
    InsertIsFull(s, true, key, leaf, mid, FilledNodes(s, data), FilledNodes(r, dataNow));
    NodesOfSub(s);
    NodesOfSub(r);
  }

  /** Only the deciding node's edges differ. */
  ghost predicate SameButAt<N>(nodes: set<N>, spot: N, edges: map<N, seq<Edge<N>>>, edgesNow: map<N, seq<Edge<N>>>) {
    forall n | n in nodes :: n in edges && n in edgesNow && (n != spot ==> edgesNow[n] == edges[n])
  }

  /** Only one node's data differs. */
  ghost predicate SameDataBut<N, D>(nodes: set<N>, target: N, data: map<N, Option<D>>, dataNow: map<N, Option<D>>) {
    forall n | n in nodes :: n in data && n in dataNow && (n != target ==> dataNow[n] == data[n])
  }

  /** All keys but one lead to what they led to, and that one to `target`. */
  ghost predicate Rerouted<N, D>(s: Shape<N>, data: map<N, Option<D>>, r: Shape<N>,
                                 dataNow: map<N, Option<D>>, key: Key, target: N) {
    && Even(s) && Even(r) && Nodes(s) <= data.Keys && Nodes(r) <= dataNow.Keys && Find(r, key) == Some(target)
    && (forall other | other != key :: DataAt(r, dataNow, other) == DataAt(s, data, other))
    && (forall other | other != key && Find(s, other).Some? :: Find(r, other) == Find(s, other))
  }

  /** What all keys lead to after one was added. */
  lemma InsertedValues<N, D>(s: Shape<N>, key: Key, leaf: N, mid: N, data: map<N, Option<D>>,
                             dataNow: map<N, Option<D>>)
    requires Even(s) && Distinct(s) && leaf != mid && Nodes(s) <= data.Keys && Added(s, key, leaf, mid) !! Nodes(s)
    requires Nodes(s) + Added(s, key, leaf, mid) <= dataNow.Keys
    requires var target := Target(s, key, leaf, mid);
             && (forall n | n in Nodes(s) :: n != target ==> dataNow[n] == data[n])
             && (mid != target && mid in dataNow ==> dataNow[mid].None?)
    ensures Nodes(Insert(s, key, leaf, mid)) == Nodes(s) + Added(s, key, leaf, mid)
    ensures Rerouted(s, data, Insert(s, key, leaf, mid), dataNow, key, Target(s, key, leaf, mid))
  {
    hide StepFrom, CommonPrefix, Nodes, SubNodes, Insert, Target, Find, DataAt, Added, Distinct;
    InsertNodes(s, key, leaf, mid);
    InsertedData(s, key, leaf, mid, data, dataNow, key);
    var r := Insert(s, key, leaf, mid);
    forall other | other != key
      ensures DataAt(r, dataNow, other) == DataAt(s, data, other)
      ensures Find(s, other).Some? ==> Find(r, other) == Find(s, other)
    {
      InsertedData(s, key, leaf, mid, data, dataNow, other);
      FindInserted(s, key, leaf, mid, other);
    }
  }

  lemma SoundFrame<N, D>(s: Shape<N>, edges: map<N, seq<Edge<N>>>,
                         data: map<N, Option<D>>, edgesNow: map<N, seq<Edge<N>>>, dataNow: map<N, Option<D>>)
    requires Sound(s, edges, data)
    requires forall n | n in Nodes(s) ::
             n in edges && n in edgesNow && edgesNow[n] == edges[n] && n in dataNow && dataNow[n] == data[n]
    ensures Sound(s, edgesNow, dataNow)
  {
    hide Wf, Distinct, Matches, Full, Nodes, SubNodes;
    NodesOfSub(s);
    MatchesFrame(s, edges, edgesNow);
    assert FilledNodes(s, dataNow) == FilledNodes(s, data);
  }

  lemma TargetIsNode<N>(s: Shape<N>, key: Key, leaf: N, mid: N)
    requires Even(s) && leaf != mid
    ensures Target(s, key, leaf, mid) in Nodes(Insert(s, key, leaf, mid))
  {
    hide StepFrom, CommonPrefix, Nodes, SubNodes, Insert, Target, Find;
    FindInserted(s, key, leaf, mid, key);
    NodesOfSub(Insert(s, key, leaf, mid));
  }

  lemma AfterNewEdge<N, D>(s: Shape<N>, key: Key, leaf: N, edges: map<N, seq<Edge<N>>>,
                           data: map<N, Option<D>>, edgesNow: map<N, seq<Edge<N>>>, dataNow: map<N, Option<D>>)
    requires Sound(s, edges, data) && leaf !in Nodes(s)
    requires SameButAt(Nodes(s), Spot(s, key).0.node, edges, edgesNow) && SameDataBut(Nodes(s), leaf, data, dataNow)
    requires var (at, rest) := Spot(s, key);
             && StepAt(at.labels, rest).NewEdge?
             && at.node in edgesNow && edgesNow[at.node] == Edges(at) + [Edge(rest, leaf)]
             && leaf in edgesNow && edgesNow[leaf] == [] && leaf in dataNow && dataNow[leaf].Some?
    ensures var r := Insert(s, key, leaf, s.node);
            Nodes(r) == Nodes(s) + {leaf} && Sound(r, edgesNow, dataNow) && Rerouted(s, data, r, dataNow, key, leaf)
  {
    hide StepFrom, CommonPrefix, Nodes, SubNodes, Insert, Find, DataAt, Spot, Distinct, Full, Wf, Matches, Edges,
      FilledNodes, StepAt;
    var (at, rest) := Spot(s, key);
    NodesOfSub(s);
    SpotDecides(s, key, leaf, s.node);
    SpotIsSound(s, key, edges);
    EdgeAdded(at, rest, leaf, s.node, edges, edgesNow);
    InsertedValues(s, key, leaf, s.node, data, dataNow);
    InsertIsSound(s, key, leaf, s.node, edges, data, edgesNow, dataNow);
  }

  lemma AfterFound<N, D>(s: Shape<N>, key: Key, target: N, edges: map<N, seq<Edge<N>>>,
                         data: map<N, Option<D>>, edgesNow: map<N, seq<Edge<N>>>, dataNow: map<N, Option<D>>)
    requires Sound(s, edges, data) && Find(s, key) == Some(target)
    requires forall n | n in Nodes(s) :: n in edges && n in edgesNow && edgesNow[n] == edges[n]
    requires SameDataBut(Nodes(s), target, data, dataNow) && target in dataNow && dataNow[target].Some?
    ensures Sound(s, edgesNow, dataNow) && Rerouted(s, data, s, dataNow, key, target)
  {
    hide StepFrom, CommonPrefix, Nodes, SubNodes, Insert, Find, DataAt, Spot, Full, Wf, Matches, Edges, FilledNodes,
      StepAt;
    NodesOfSub(s);
    InsertExisting(s, key, target, s.node);
    SpotDecides(s, key, target, s.node);
    SpotIsSound(s, key, edges);
    InsertExisting(Spot(s, key).0, Spot(s, key).1, target, s.node);
    MatchesFrame(Spot(s, key).0, edges, edgesNow);
    InsertedValues(s, key, target, s.node, data, dataNow);
    InsertIsSound(s, key, target, s.node, edges, data, edgesNow, dataNow);
  }

  lemma {:induction false} InsertExisting<N>(s: Shape<N>, key: Key, leaf: N, mid: N)
    requires Even(s) && Find(s, key).Some?
    ensures Insert(s, key, leaf, mid) == s && Added(s, key, leaf, mid) == {}
            && Target(s, key, leaf, mid) == Find(s, key).value
    decreases s
  {
    hide StepFrom, CommonPrefix, Nodes, SubNodes;
    var step := StepAt(s.labels, key);
    if step.Down? { InsertExisting(s.subs[step.i], key[|s.labels[step.i]|..], leaf, mid); }
  }

  lemma {:induction false} SpotCrowded<N>(s: Shape<N>, key: Key)
    requires Even(s)
    ensures var (at, rest) := Spot(s, key);
            var step := StepAt(at.labels, rest);
            && (Crowded(s, key) <==> step.Found? || (step.Split? && step.at == |rest|))
            && (Find(s, key).Some? <==> step.Found?)
    decreases s
  {
    hide StepFrom, CommonPrefix, Nodes, SubNodes;
    var step := StepAt(s.labels, key);
    if step.Down? { SpotCrowded(s.subs[step.i], key[|s.labels[step.i]|..]); }
  }

  /** `leaf` is only used when the key goes on after the split; otherwise the data is at `mid`. */
  lemma AfterSplit<N, D>(s: Shape<N>, key: Key, leaf: N, mid: N, edges: map<N, seq<Edge<N>>>,
                         data: map<N, Option<D>>, edgesNow: map<N, seq<Edge<N>>>, dataNow: map<N, Option<D>>)
    requires Sound(s, edges, data) && mid !in Nodes(s) && leaf != mid
    requires SameButAt(Nodes(s), Spot(s, key).0.node, edges, edgesNow) && SameDataBut(Nodes(s), mid, data, dataNow)
    requires var (at, rest) := Spot(s, key);
             && StepAt(at.labels, rest).Split?
             && var Split(i, n) := StepAt(at.labels, rest);
             && at.node in edgesNow && edgesNow[at.node] == Edges(at)[i := Edge(at.labels[i][..n], mid)]
             && mid in edgesNow && edgesNow[mid] == [Edge(at.labels[i][n..], at.subs[i].node)]
                                                   + (if n == |rest| then [] else [Edge(rest[n..], leaf)])
             && mid in dataNow && (n == |rest| <==> dataNow[mid].Some?)
             && (n != |rest| ==>
                leaf !in Nodes(s) && leaf in edgesNow && edgesNow[leaf] == [] && leaf in dataNow && dataNow[leaf].Some?)
    ensures var (at, rest) := Spot(s, key);
            var r := Insert(s, key, leaf, mid);
            var more := if StepAt(at.labels, rest).at == |rest| then {mid} else {leaf, mid};
            && Nodes(r) == Nodes(s) + more && Sound(r, edgesNow, dataNow)
            && Rerouted(s, data, r, dataNow, key, if StepAt(at.labels, rest).at == |rest| then mid else leaf)
  {
    hide StepFrom, CommonPrefix, Nodes, SubNodes, Insert, Find, DataAt, Spot, Distinct, Full, Wf, Matches, Edges,
      FilledNodes, StepAt;
    var (at, rest) := Spot(s, key);
    NodesOfSub(s);
    SpotDecides(s, key, leaf, mid);
    SpotIsSound(s, key, edges);
    EdgeSplit(at, rest, leaf, mid, edges, edgesNow);
    InsertedValues(s, key, leaf, mid, data, dataNow);
    InsertIsSound(s, key, leaf, mid, edges, data, edgesNow, dataNow);
  }

  ghost predicate DataCopied<N, D>(nodes: set<N>, names: map<N, N>, data: map<N, Option<D>>,
                                   copied: map<N, Option<D>>) {
    forall n | n in nodes :: n in data && Name(names, n) in copied && copied[Name(names, n)] == data[n]
  }

  /** A finished copy is a tree, and keys lead to the copies of the nodes they led to. */
  lemma CopyIsSound<N, D>(s: Shape<N>, names: map<N, N>, edges: map<N, seq<Edge<N>>>,
                          data: map<N, Option<D>>, edgesNow: map<N, seq<Edge<N>>>, dataNow: map<N, Option<D>>)
    requires Sound(s, edges, data) && Copying(Nodes(s), [], Nodes(s), names, edges, edgesNow)
    requires DataCopied(Nodes(s), names, data, dataNow)
    ensures var r := Renamed(s, names);
            && Nodes(r) == Image(Nodes(s), names) && Sound(r, edgesNow, dataNow)
            && forall k :: Find(r, k) == if Find(s, k).None? then None else Some(Name(names, Find(s, k).value))
  {
    hide Nodes, SubNodes, Renamed, Wf, Distinct, Matches, Full, Find, Copying, Name;
    var r := Renamed(s, names);
    CopyDone(s, names, edges, edgesNow);
    NodesOfSub(s);
    NodesOfSub(r);
    RenamedFull(s, true, names, FilledNodes(s, data), FilledNodes(r, dataNow));
    forall k ensures Find(r, k) == if Find(s, k).None? then None else Some(Name(names, Find(s, k).value)) {
      RenamedFind(s, names, k);
    }
  }

  // ---------------------------------------------------------------- nodes

  class Node<D> {
    var key: Option<Key>
    var edges: seq<Edge<Node<D>>>
    var data: Option<D>
    var removedFor: seq<int>

    constructor (key: Option<Key>, edges: seq<Edge<Node<D>>>, data: Option<D>)
      ensures this.key == key && this.edges == edges && this.data == data && removedFor == []
    {
      this.key, this.edges, this.data, removedFor := key, edges, data, [];
    }

    /** A node is gone for the contexts it was removed for; context 0 removes nothing. */
    predicate RemovedFor(ctx: int)
      reads `removedFor
    {
      ctx != 0 && ctx in removedFor
    }
  }

  /** The number of leading bytes two keys share. */
  method MatchLength(a: Key, b: Key) returns (i: nat)
    ensures i == CommonPrefix(a, b)
  {
    i := 0;
    while i < |b| && i < |a| && a[i] == b[i]
      invariant i <= |a| && i <= |b| && a[..i] == b[..i]
    {
      assert a[..i + 1] == a[..i] + [a[i]] && b[..i + 1] == b[..i] + [b[i]];
      i := i + 1;
    }
    CommonPrefixIs(a, b, i);
  }

  function Labels<N>(edges: seq<Edge<N>>): (r: seq<Key>)
    ensures |r| == |edges|
  {
    seq(|edges|, i requires 0 <= i < |edges| => edges[i].prefix)
  }

  /** Scans a node's edges for the one that decides about a key. */
  method Scan<N>(edges: seq<Edge<N>>, key: Key) returns (step: Step)
    ensures step == StepAt(Labels(edges), key)
  {
    var i := 0;
    while i < |edges|
      invariant i <= |edges| && StepFrom(Labels(edges), key, i) == StepAt(Labels(edges), key)
    {
      var n := MatchLength(edges[i].prefix, key);
      if n == |key| && |key| == |edges[i].prefix| {
        return Found(i);
      } else if n == |edges[i].prefix| && |edges[i].prefix| < |key| {
        return Down(i);
      } else if n > 0 {
        return Split(i, n);
      }
      i := i + 1;
    }
    return NewEdge;
  }

  /** Scans a node's edges for an exact match or one to descend along. */
  method Seek<N>(edges: seq<Edge<N>>, key: Key) returns (step: Step)
    ensures step == SeekFrom(Labels(edges), key, 0)
  {
    var i := 0;
    while i < |edges|
      invariant i <= |edges| && SeekFrom(Labels(edges), key, i) == SeekFrom(Labels(edges), key, 0)
    {
      var n := MatchLength(edges[i].prefix, key);
      if n == |key| && |key| == |edges[i].prefix| {
        return Found(i);
      } else if n == |edges[i].prefix| && |edges[i].prefix| < |key| {
        return Down(i);
      }
      i := i + 1;
    }
    return NewEdge;
  }

  /** What a copy shares with its original, and whether it was removed for anyone. */
  datatype Contents<D> = Contents(key: Option<Key>, data: Option<D>)

  ghost function ContentsIn<D>(nodes: set<Node<D>>): map<Node<D>, Contents<D>>
    reads nodes`key, nodes`data
  {
    map n | n in nodes :: Contents(n.key, n.data)
  }

  /** Copies have the keys and data of their originals. */
  ghost predicate Alike<N, D>(names: map<N, N>, c: map<N, Contents<D>>, copied: map<N, Contents<D>>) {
    forall n | n in names :: n in c && names[n] in copied && copied[names[n]] == c[n]
  }

  lemma FirstCopy<D>(n: Node<D>, copy: Node<D>, nodes: set<Node<D>>, names: map<Node<D>, Node<D>>)
    requires n in nodes && copy.key == n.key && copy.data == n.data && copy.edges == [] && names == map[n := copy]
    ensures Copies([n], names) == [copy] && EdgesIn({copy}) == map[copy := []]
    ensures Alike(names, ContentsIn(nodes), ContentsIn({copy}))
  {
  }

  /** The new copies are filled from the targets of the edges, the old ones stay. */
  ghost predicate OneFilled<N, D>(edges: seq<Edge<N>>, copies: seq<N>, c: map<N, Contents<D>>,
                                  was: map<N, Contents<D>>, now: map<N, Contents<D>>) {
    && |copies| == |edges|
    && (forall m | m in was :: m in now && now[m] == was[m])
    && (forall i | 0 <= i < |copies| ::
       edges[i].target in c && copies[i] in now && now[copies[i]] == c[edges[i].target])
  }

  lemma AlikeNext<N, D>(names: map<N, N>, edges: seq<Edge<N>>, copies: seq<N>, c: map<N, Contents<D>>,
                        was: map<N, Contents<D>>, now: map<N, Contents<D>>)
    requires Alike(names, c, was) && OneFilled(edges, copies, c, was, now)
    requires NoRepeats(Targets(edges)) && forall t | t in Targets(edges) :: t !in names
    ensures Alike(Extend(names, Targets(edges), copies), c, now)
  {
    hide Extend;
    var r := Extend(names, Targets(edges), copies);
    ExtendIs(names, Targets(edges), copies);
    forall n | n in r ensures n in c && r[n] in now && now[r[n]] == c[n] {
      if n in Targets(edges) {
        var i :| 0 <= i < |edges| && Targets(edges)[i] == n;
        assert Name(r, Targets(edges)[i]) == copies[i];
      } else {
        assert Name(r, n) == Name(names, n);
      }
    }
  }

  lemma CopyKeysDone<N>(nodes: set<N>, names: map<N, N>, g: map<N, seq<Edge<N>>>, h: map<N, seq<Edge<N>>>)
    requires Copying(nodes, [], nodes, names, g, h)
    ensures names.Keys == nodes
  {
  }

  lemma AllDone<N>(nodes: set<N>, done: set<N>, names: map<N, N>, g: map<N, seq<Edge<N>>>, h: map<N, seq<Edge<N>>>)
    requires Copying(nodes, [], done, names, g, h)
    ensures done == nodes
  {
  }

  lemma WaitingHead<N>(queue: seq<Shape<N>>, nodes: set<N>, g: map<N, seq<Edge<N>>>)
    requires queue != [] && Waiting(queue, nodes, g)
    ensures var s := queue[0]; |s.labels| == |s.subs| && s.node in g && g[s.node] == Edges(s)
    ensures Targets(g[queue[0].node]) == Roots(queue[0].subs)
    ensures forall e | e in g[queue[0].node] :: e.target in nodes
  {
    hide Nodes, SubNodes;
    var s := queue[0];
    NodesOfSub(s);
    forall i | 0 <= i < |s.subs| ensures s.subs[i].node in nodes { NodesOfSub(s.subs[i]); }
  }

  lemma NameIs<N>(names: map<N, N>, n: N)
    requires n in names
    ensures Name(names, n) == names[n]
  {
  }

  lemma MadeNodes<D>(made: set<Node<D>>, m: Node<D>)
    requires m in EdgesIn(made)
    ensures m in made && m.edges == EdgesIn(made)[m]
  {
  }

  /** The head of the queue in a copy. */
  lemma CopyHead<N>(nodes: set<N>, queue: seq<Shape<N>>, done: set<N>, names: map<N, N>,
                    g: map<N, seq<Edge<N>>>, h: map<N, seq<Edge<N>>>)
    requires queue != [] && Copying(nodes, queue, done, names, g, h) && Waiting(queue, nodes, g)
    ensures var n := queue[0].node;
            && n in nodes && n in g && n in names && names[n] in h && h[names[n]] == []
            && Roots(queue)[0] == n && Copies(Roots(queue), names)[0] == names[n]
            && forall e | e in g[n] :: e.target in nodes
  {
    hide Nodes, SubNodes, Copying, Waiting, Roots, Copies;
    WalkStep(queue, nodes, g);
    WaitingHead(queue, nodes, g);
    HeadWaits(nodes, queue, done, names, g, h);
  }

  /** One round of a copy. */
  lemma CopyRound<N, D>(nodes: set<N>, queue: seq<Shape<N>>, done: set<N>, names: map<N, N>,
                        g: map<N, seq<Edge<N>>>, h: map<N, seq<Edge<N>>>, hNow: map<N, seq<Edge<N>>>,
                        targets: seq<N>, c: map<N, Contents<D>>, full: map<N, Contents<D>>,
                        fullNow: map<N, Contents<D>>)
    requires queue != [] && Waiting(queue, nodes, g) && Copying(nodes, queue, done, names, g, h)
             && Alike(names, c, full)
    requires var n := queue[0].node;
             && n in names && n in g && |targets| == |g[n]| && NoRepeats(targets)
             && OneCopied(names[n], g[n], targets, h, hNow) && OneFilled(g[n], targets, c, full, fullNow)
    ensures |Roots(queue[0].subs)| == |targets|
    ensures var n, next := queue[0].node, queue[1..] + queue[0].subs;
            var r := Extend(names, Roots(queue[0].subs), targets);
            && Copying(nodes, next, done + {n}, r, g, hNow) && Alike(r, c, fullNow) && Waiting(next, nodes, g)
            && Roots(next) == Roots(queue)[1..] + Targets(g[n]) && Sizes(next) < Sizes(queue)
            && Copies(Roots(next), r) == Copies(Roots(queue), names)[1..] + targets
            && forall m | m in names :: m in r && r[m] == names[m]
  {
    hide Nodes, SubNodes, Copying, Waiting, Roots, Targets, Copies, Alike, OneCopied, OneFilled, NoRepeats, Extend,
      Sizes, Name, Edges, Breadth;
    WalkStep(queue, nodes, g);
    WalkOrder(queue);
    WaitingHead(queue, nodes, g);
    PartsAreNew(nodes, queue, done, names, g, h);
    NameIs(names, queue[0].node);
    CopyStep(nodes, queue, done, names, g, h, hNow, targets);
    CopiesNext(nodes, queue, done, names, g, h, targets);
    AlikeNext(names, g[queue[0].node], targets, c, full, fullNow);
  }

  /** Copies the targets of one node. */
  method CopyOne<D>(n: Node<D>, cpn: Node<D>, ghost made: set<Node<D>>, ghost nodes: set<Node<D>>)
    returns (targets: seq<Node<D>>, ghost now: set<Node<D>>)
    requires n in nodes && made !! nodes && cpn in made && cpn.edges == []
    requires forall e | e in n.edges :: e.target in nodes
    modifies cpn`edges
    ensures now == made + (set t | t in targets) && fresh(now - made) && NoRepeats(targets) && |targets| == |n.edges|
    ensures OneCopied(cpn, n.edges, targets, old(EdgesIn(made)), EdgesIn(now))
    ensures OneFilled(n.edges, targets, ContentsIn(nodes), old(ContentsIn(made)), ContentsIn(now))
    ensures forall t | t in targets :: t.removedFor == []
  {
    hide CopiedEdges, NoRepeats;
    targets := CopyEdges(n, cpn);
    now := made + set t | t in targets;
    assert forall i | 0 <= i < |targets| :: n.edges[i] in n.edges;
  }

  /** Gives a copy of a node edges to new copies of its targets. */
  method CopyEdges<D>(n: Node<D>, cpn: Node<D>) returns (copies: seq<Node<D>>)
    requires n != cpn && cpn.edges == []
    modifies cpn`edges
    ensures |copies| == |n.edges| && cpn.edges == CopiedEdges(n.edges, copies) && NoRepeats(copies)
    ensures forall c | c in copies :: fresh(c) && c.edges == [] && c.removedFor == []
    ensures forall i | 0 <= i < |copies| ::
            copies[i].key == n.edges[i].target.key && copies[i].data == n.edges[i].target.data
  {
    copies := [];
    for i := 0 to |n.edges|
      invariant |copies| == i && cpn.edges == CopiedEdges(n.edges[..i], copies) && NoRepeats(copies)
      invariant forall c | c in copies :: fresh(c) && c.edges == [] && c.removedFor == []
      invariant forall j | 0 <= j < i ::
        copies[j].key == n.edges[j].target.key && copies[j].data == n.edges[j].target.data
    {
      var e := n.edges[i];
      var cpt := new Node<D>(e.target.key, [], e.target.data);
      cpn.edges := cpn.edges + [Edge(e.prefix, cpt)];
      copies := copies + [cpt];
    }
  }

  ghost function EdgesIn<D>(nodes: set<Node<D>>): map<Node<D>, seq<Edge<Node<D>>>>
    reads nodes`edges
  {
    map n | n in nodes :: n.edges
  }

  ghost function DataIn<D>(nodes: set<Node<D>>): map<Node<D>, Option<D>>
    reads nodes`data
  {
    map n | n in nodes :: n.data
  }

  method AppendTargets<N>(nodes: seq<N>, edges: seq<Edge<N>>) returns (r: seq<N>)
    ensures r == nodes + Targets(edges)
  {
    r := nodes;
    for i := 0 to |edges|
      invariant r == nodes + Targets(edges)[..i]
    {
      r := r + [edges[i].target];
    }
  }

  /** What the caller of a walk answers for a node; an error stops the walk like `more` being false. */
  datatype Verdict = Verdict(more: bool, keep: bool)

  /** The contexts a node is newly removed for after an answer. */
  function Mark(ctx: int, v: Verdict): seq<int> {
    if ctx != 0 && !v.keep then [ctx] else []
  }

  ghost predicate AllMore<N>(visited: seq<N>, answers: map<N, Verdict>) {
    forall n | n in visited :: n in answers && answers[n].more
  }

  /** The nodes with data that were not removed for a context. */
  ghost function LiveNodes<N, D>(removed: map<N, seq<int>>, data: map<N, Option<D>>, ctx: int): set<N> {
    set n | n in removed && n in data && data[n].Some? && (ctx == 0 || ctx !in removed[n])
  }

  /** A walk over candidates goes on as long as the answers say so. */
  ghost predicate IsWalk<N>(visited: seq<N>, candidates: seq<N>, answers: map<N, Verdict>) {
    && visited <= candidates
    && if visited == [] then candidates == [] else
         var last := visited[|visited| - 1];
         && AllMore(visited[..|visited| - 1], answers)
         && last in answers && (answers[last].more ==> visited == candidates)
  }

  lemma NobodyVisited<N>(answers: map<N, Verdict>)
    ensures AllMore([], answers)
  {
  }

  lemma WalkDone<N>(visited: seq<N>, answers: map<N, Verdict>)
    requires AllMore(visited, answers)
    ensures IsWalk(visited, visited, answers)
  {
  }

  lemma WalkNext<N>(visited: seq<N>, n: N, candidates: seq<N>, answers: map<N, Verdict>)
    requires AllMore(visited, answers) && n in answers
    ensures !answers[n].more && visited + [n] <= candidates ==> IsWalk(visited + [n], candidates, answers)
    ensures answers[n].more ==> AllMore(visited + [n], answers)
  {
    assert (visited + [n])[..|visited|] == visited;
  }

  /** The removals after a walk: visited nodes not to be kept are gone for the context. */
  ghost function Marked<N>(was: map<N, seq<int>>, visited: seq<N>, ctx: int, answers: map<N, Verdict>): (r: map<N,
                           seq<int>>)
    ensures r.Keys == was.Keys
    ensures forall n | n in was && n !in visited :: r[n] == was[n]
  {
    map n | n in was :: was[n] + if n in visited && n in answers then Mark(ctx, answers[n]) else []
  }

  lemma MarkedNone<N>(was: map<N, seq<int>>, ctx: int, answers: map<N, Verdict>)
    ensures Marked(was, [], ctx, answers) == was
  {
  }

  lemma MarkedNext<N>(was: map<N, seq<int>>, visited: seq<N>, ctx: int, answers: map<N, Verdict>, n: N)
    requires n in was && n !in visited && n in answers
    ensures Marked(was, visited + [n], ctx, answers) == Marked(was, visited, ctx,
            answers)[n := was[n] + Mark(ctx, answers[n])]
  {
    hide Mark;
  }

  /** The two halves of a split: a node for the rest of the edge, and a leaf unless the key ends there. */
  method Fork<D>(e: Edge<Node<D>>, splitOn: nat, key: Key, fullKey: Key, value: D)
    returns (newNode: Node<D>, newLeaf: Node<D>)
    requires splitOn <= |e.prefix| && splitOn <= |key|
    ensures fresh(newNode) && fresh(newLeaf) && (newNode == newLeaf <==> splitOn == |key|)
    ensures newNode.edges == [Edge(e.prefix[splitOn..], e.target)]
                             + (if splitOn == |key| then [] else [Edge(key[splitOn..], newLeaf)])
    ensures newNode.key.None? && (newNode != newLeaf ==> newLeaf.edges == [] && newNode.data.None?)
    ensures newLeaf.data == Some(value) && newLeaf.key == if splitOn == |key| then None else Some(fullKey)
    ensures newNode.removedFor == newLeaf.removedFor == []
  {
    newNode := new Node<D>(None, [Edge(e.prefix[splitOn..], e.target)], None);
    newLeaf := newNode;
    if splitOn != |key| {
      newLeaf := new Node<D>(Some(fullKey), [], None);
      newNode.edges := newNode.edges + [Edge(key[splitOn..], newLeaf)];
    }
    newLeaf.data := Some(value);
  }

  // ---------------------------------------------------------------- trees

  class Tree<D> {
    var root: Node<D>
    var length: nat
    ghost var shape: Shape<Node<D>>
    ghost var repr: set<Node<D>>

    ghost function EdgesOf(): map<Node<D>, seq<Edge<Node<D>>>>
      reads `repr, repr`edges
    {
      map n | n in repr :: n.edges
    }

    ghost function DataOf(): map<Node<D>, Option<D>>
      reads `repr, repr`data
    {
      map n | n in repr :: n.data
    }

    ghost predicate Valid()
      reads `root, `shape, `repr, repr`edges, repr`data, repr`key
    {
      && repr == Nodes(shape) && shape.node == root && Sound(shape, EdgesOf(), DataOf())
      && forall n | n in repr :: n.data.None? ==> n.key.None?
    }

    ghost function NodeAt(key: Key): Option<Node<D>>
      reads `shape
    {
      if Even(shape) then Find(shape, key) else None
    }

    /** The data stored under a key. */
    ghost function Value(key: Key): Option<D>
      reads `shape, `repr, repr`data
    {
      var n := NodeAt(key);
      if n.Some? && n.value in repr then n.value.data else None
    }

    /** The key that a walk reports for the node of a key. */
    ghost function Reported(key: Key): Option<Key>
      reads `shape, `repr, repr`key
    {
      var n := NodeAt(key);
      if n.Some? && n.value in repr then n.value.key else None
    }

    constructor ()
      ensures Valid() && length == 0 && fresh(repr) && (forall n | n in repr :: n.removedFor == [])
      ensures forall k :: NodeAt(k) == None && Value(k) == None
      ensures root in repr && root.edges == [] && root.removedFor == [] && root.key.None? && root.data.None?
    {
      var r := new Node<D>(None, [], None);
      root, length, shape, repr := r, 0, Leaf(r), {r};
      new;
      LeafNodes(r);
    }

    /** Follows a key from the root to the node whose edges decide about it. */
    method Descend(fullKey: Key) returns (n: Node<D>, key: Key, step: Step, ghost at: Shape<Node<D>>)
      requires Valid()
      ensures (at, key) == Spot(shape, fullKey) && at.node == n && n in repr
      ensures n.edges == Edges(at) && step == StepAt(at.labels, key)
    {
      hide Wf, Distinct, Full, Matches, Nodes, SubNodes, StepFrom, CommonPrefix, FilledNodes;
      ghost var g := EdgesOf();
      n, key, at := root, fullKey, shape;
      NodesOfSub(at);
      MatchesParts(at, g);
      assert Labels(n.edges) == at.labels;
      step := Scan(n.edges, key);
      while step.Down?
        invariant forall m | m in repr :: m in g && m.edges == g[m]
        invariant Even(at) && at.node == n && Nodes(at) <= Nodes(shape) && n in Nodes(at) && Matches(at, g)
        invariant Spot(at, key) == Spot(shape, fullKey) && n.edges == Edges(at) && step == StepAt(at.labels, key)
        decreases at
      {
        key := key[|n.edges[step.i].prefix|..];
        n := n.edges[step.i].target;
        NodesOfSub(at);
        MatchesParts(at, g);
        at := at.subs[step.i];
        NodesOfSub(at);
        MatchesParts(at, g);
        assert Labels(n.edges) == at.labels;
        step := Scan(n.edges, key);
      }
    }

    /** Adds an edge to a new node for the key. */
    method AddEdge(n: Node<D>, key: Key, fullKey: Key, value: D, ghost at: Shape<Node<D>>) returns (leaf: Node<D>)
      requires Valid() && (at, key) == Spot(shape, fullKey) && at.node == n && n in repr
      requires n.edges == Edges(at) && StepAt(at.labels, key).NewEdge?
      modifies this, n
      ensures Valid() && repr == old(repr) + {leaf} && fresh(leaf) && unchanged(`root, `length)
      ensures shape == Insert(old(shape), fullKey, leaf, root)
      ensures Rerouted(old(shape), old(DataOf()), shape, DataOf(), fullKey, leaf) && leaf.data == Some(value)
      ensures leaf.key == Some(fullKey) && leaf.removedFor == []
      ensures n.key == old(n.key) && n.removedFor == old(n.removedFor)
    {
      hide StepFrom, CommonPrefix, Nodes, SubNodes, Insert, Target, Find, Spot, Edges, Sound, Rerouted, DataAt, StepAt;
      ghost var s, g, d := shape, EdgesOf(), DataOf();
      leaf := new Node<D>(Some(fullKey), [], Some(value));
      n.edges := n.edges + [Edge(key, leaf)];
      shape, repr := Insert(shape, fullKey, leaf, root), repr + {leaf};
      AfterNewEdge(s, fullKey, leaf, g, d, EdgesOf(), DataOf());
    }

    /** Splits an edge where the key leaves it. */
    method SplitEdge(n: Node<D>, i: nat, splitOn: nat, key: Key, fullKey: Key, value: D, ghost at: Shape<Node<D>>)
      returns (newLeaf: Node<D>)
      requires Valid() && (at, key) == Spot(shape, fullKey) && at.node == n && n in repr
      requires n.edges == Edges(at) && StepAt(at.labels, key) == Split(i, splitOn)
      modifies this, n
      ensures Valid() && repr >= old(repr) && fresh(repr - old(repr)) && unchanged(`root, `length)
      ensures Rerouted(old(shape), old(DataOf()), shape, DataOf(), fullKey, newLeaf) && newLeaf.data == Some(value)
      ensures newLeaf.key == if splitOn == |key| then None else Some(fullKey)
      ensures forall m | m in repr - old(repr) :: m.removedFor == []
      ensures n.key == old(n.key) && n.removedFor == old(n.removedFor)
    {
      hide StepFrom, CommonPrefix, Nodes, SubNodes, Insert, Target, Find, Spot, Edges, Sound, Rerouted, DataAt, StepAt;
      ghost var s, g, d := shape, EdgesOf(), DataOf();
      var e := n.edges[i];
      assert e == Edge(at.labels[i], at.subs[i].node) by { EdgeAt(at, i); }
      var newNode;
      newNode, newLeaf := Fork(e, splitOn, key, fullKey, value);
      n.edges := n.edges[i := Edge(e.prefix[..splitOn], newNode)];
      ghost var leaf := if splitOn == |key| then root else newLeaf;
      ghost var more := if splitOn == |key| then {newNode} else {leaf, newNode};
      assert forall m | m in more :: fresh(m) && (m.data.None? ==> m.key.None?);
      shape, repr := Insert(shape, fullKey, leaf, newNode), repr + more;
      assert SameButAt(Nodes(s), n, g, EdgesOf());
      assert SameDataBut(Nodes(s), newNode, d, DataOf());
      hide SameButAt, SameDataBut;
      AfterSplit(s, fullKey, leaf, newNode, g, d, EdgesOf(), DataOf());
    }

    /** Applies a change to the data of an existing node. */
    method Change(n: Node<D>, i: nat, key: Key, fullKey: Key, apply: Option<D> -> D, ghost at: Shape<Node<D>>)
      returns (target: Node<D>)
      requires Valid() && (at, key) == Spot(shape, fullKey) && at.node == n && n in repr
      requires n.edges == Edges(at) && StepAt(at.labels, key) == Found(i)
      modifies repr
      ensures Valid() && old(Find(shape, fullKey)) == Some(target) && target in repr
      ensures Rerouted(old(shape), old(DataOf()), shape, DataOf(), fullKey, target)
      ensures target.data == Some(apply(old(target.data)))
      ensures forall m | m in repr :: m.key == old(m.key) && m.removedFor == old(m.removedFor)
    {
      hide StepFrom, CommonPrefix, Nodes, SubNodes, Insert, Target, Spot, Edges, Sound, Rerouted, DataAt, StepAt,
        CommonPrefix;
      ghost var g, d := EdgesOf(), DataOf();
      target := n.edges[i].target;
      EdgeAt(at, i);
      SpotDecides(shape, fullKey, n, n);
      NodesOfSub(shape);
      target.data := Some(apply(target.data));
      AfterFound(shape, fullKey, target, g, d, EdgesOf(), DataOf());
    }

    /** Tree.doUpdate: finds or makes the key's node and changes its data. */
    method DoUpdate(fullKey: Key, apply: Option<D> -> D) returns (newNode: bool, ghost target: Node<D>)
      requires Valid()
      modifies this, repr
      ensures Valid() && unchanged(`root, `length) && old(repr) <= repr && fresh(repr - old(repr))
      ensures Rerouted(old(shape), old(DataOf()), shape, DataOf(), fullKey, target)
      ensures target.data == Some(apply(old(Value(fullKey))))
      ensures forall m | m in old(repr) :: m.key == old(m.key) && m.removedFor == old(m.removedFor)
      ensures forall m | m in repr - old(repr) :: m.removedFor == []
      ensures newNode <==> old(NodeAt(fullKey)).None?
      ensures old(Value(fullKey)).None? ==> target.key == if old(Crowded(shape, fullKey)) then None else Some(fullKey)
      ensures old(Value(fullKey)).Some? ==> old(NodeAt(fullKey)) == Some(target)
    {
      hide StepFrom, CommonPrefix, Nodes, SubNodes, Insert, Target, Spot, Edges, Sound, StepAt, Rerouted, Crowded,
        Find, DataOf, EdgesOf;
      var n, key, step;
      ghost var at;
      n, key, step, at := Descend(fullKey);
      SpotDecides(shape, fullKey, n, n);
      SpotCrowded(shape, fullKey);
      NodesOfSub(shape);
      if step.Found? {
        target := Change(n, step.i, key, fullKey, apply, at);
        newNode := false;
      } else if step.Split? {
        target := SplitEdge(n, step.i, step.at, key, fullKey, apply(None), at);
        newNode := true;
      } else {
        target := AddEdge(n, key, fullKey, apply(None), at);
        newNode := true;
      }
    }

    /** In a valid tree data is what the shape and the nodes say. */
    lemma ValueIs()
      requires Valid()
      ensures Nodes(shape) <= DataOf().Keys && forall k :: Value(k) == DataAt(shape, DataOf(), k)
    {
      hide Nodes, SubNodes, Sound, Find;
      NodesOfSub(shape);
    }

    /** Tree.Update: changes the data of one key and of no other. */
    method Update(fullKey: Key, apply: Option<D> -> D) returns (newNode: bool)
      requires Valid()
      modifies this, repr
      ensures Valid() && root == old(root) && old(repr) <= repr && fresh(repr - old(repr))
      ensures forall k :: Value(k) == if k == fullKey then Some(apply(old(Value(fullKey)))) else old(Value(k))
      ensures forall k | old(Value(k)).Some? :: NodeAt(k) == old(NodeAt(k)) && Reported(k) == old(Reported(k))
      ensures old(Value(fullKey)).None? ==> Reported(fullKey) == if old(Crowded(shape, fullKey)) then None
              else Some(fullKey)
      ensures length == old(length) + (if newNode then 1 else 0) && (newNode <==> old(NodeAt(fullKey)).None?)
      ensures forall m | m in old(repr) :: m.key == old(m.key) && m.removedFor == old(m.removedFor)
      ensures forall m | m in repr - old(repr) :: m.removedFor == []
    {
      hide Nodes, SubNodes, Sound, Find, Crowded;
      ValueIs();
      ghost var target;
      newNode, target := DoUpdate(fullKey, apply);
      ValueIs();
      NodesOfSub(shape);
      if newNode { length := length + 1; }
    }

    /** The data that a walk under a context still reports for a key. */
    ghost function Seen(ctx: int, key: Key): Option<D>
      reads `shape, `repr, repr`data, repr`removedFor
    {
      var n := NodeAt(key);
      if n.Some? && n.value in repr && !n.value.RemovedFor(ctx) then n.value.data else None
    }

    /** Looks up the node of a key. */
    method Lookup(fullKey: Key) returns (target: Option<Node<D>>)
      requires Valid()
      ensures target == NodeAt(fullKey)
    {
      hide Wf, Distinct, Full, Matches, Nodes, SubNodes, StepFrom, SeekFrom, CommonPrefix, FilledNodes, Find;
      ghost var g := EdgesOf();
      var n, key := root, fullKey;
      ghost var at, top := shape, true;
      NodesOfSub(at);
      MatchesParts(at, g);
      assert Labels(n.edges) == at.labels;
      var step := Seek(n.edges, key);
      SeekFinds(at, true, key);
      while step.Down?
        invariant forall m | m in repr :: m in g && m.edges == g[m]
        invariant Wf(at, top) && at.node == n && Nodes(at) <= Nodes(shape) && n in Nodes(at) && Matches(at, g)
        invariant Find(at, key) == Find(shape, fullKey) && n.edges == Edges(at) && step == SeekFrom(at.labels, key, 0)
        decreases at
      {
        SeekFinds(at, top, key);
        key := key[|n.edges[step.i].prefix|..];
        n := n.edges[step.i].target;
        NodesOfSub(at);
        MatchesParts(at, g);
        WfParts(at, top);
        at, top := at.subs[step.i], false;
        NodesOfSub(at);
        MatchesParts(at, g);
        assert Labels(n.edges) == at.labels;
        step := Seek(n.edges, key);
      }
      SeekFinds(at, top, key);
      if step.Found? { return Some(n.edges[step.i].target); }
      return None;
    }

    /** Tree.Remove: takes a key's data out of the tree as seen under one context. */
    method Remove(ctx: int, fullKey: Key) returns (data: Option<D>)
      requires Valid()
      modifies repr`removedFor
      ensures Valid() && data == old(Seen(ctx, fullKey))
      ensures forall k :: Value(k) == old(Value(k)) && Reported(k) == old(Reported(k))
      ensures forall c, k :: Seen(c, k) == if c == ctx && ctx != 0 && k == fullKey then None else old(Seen(c, k))
    {
      hide Nodes, SubNodes, Sound, Find;
      var target := Lookup(fullKey);
      NodesOfSub(shape);
      OtherNodes(fullKey);
      if target.None? { return None; }
      if target.value.RemovedFor(ctx) { return None; }
      if ctx != 0 { target.value.removedFor := target.value.removedFor + [ctx]; }
      data := target.value.data;
    }

    /** No two keys share a node. */
    lemma OtherNodes(key: Key)
      requires Valid()
      ensures forall k | k != key && NodeAt(k).Some? :: NodeAt(k) != NodeAt(key)
    {
      hide Nodes, SubNodes, Find, Wf, Matches, Full;
      forall k | k != key && NodeAt(k).Some? ensures NodeAt(k) != NodeAt(key) {
        if NodeAt(k) == NodeAt(key) { FindInjective(shape, k, key); }
      }
    }

    /** The nodes a walk under a context has to report. */
    ghost function Live(ctx: int): set<Node<D>>
      reads `repr, repr`data, repr`removedFor
    {
      LiveNodes(RemovedOf(), DataOf(), ctx)
    }

    /** The caller's answer for a node. */
    static function Answer(n: Node<D>, fn: (Option<Key>, D) -> Verdict): Verdict
      reads n`data, n`key
    {
      if n.data.Some? then fn(n.key, n.data.value) else Verdict(true, true)
    }

    /** Reports a node if it is there for the context, and drops it if it is not to be kept. */
    static method Visit(n: Node<D>, ctx: int, fn: (Option<Key>, D) -> Verdict) returns (reported: bool, more: bool)
      modifies n`removedFor
      ensures reported <==> n.data.Some? && !old(n.RemovedFor(ctx))
      ensures more <==> !reported || Answer(n, fn).more
      ensures reported ==> n.removedFor == old(n.removedFor) + Mark(ctx, Answer(n, fn))
      ensures !reported ==> n.removedFor == old(n.removedFor)
    {
      reported, more := false, true;
      if n.data.Some? && !n.RemovedFor(ctx) {
        reported := true;
        var v := fn(n.key, n.data.value);
        more := v.more;
        if !v.keep && ctx != 0 { n.removedFor := n.removedFor + [ctx]; }
      }
    }

    /** The contexts each node was removed for. */
    ghost function RemovedOf(): map<Node<D>, seq<int>>
      reads `repr, repr`removedFor
    {
      map n | n in repr :: n.removedFor
    }

    ghost function Answers(fn: (Option<Key>, D) -> Verdict): map<Node<D>, Verdict>
      reads `repr, repr`data, repr`key
    {
      map n | n in repr :: Answer(n, fn)
    }

    /** Visits the next node of a walk. */
    method VisitNext(n: Node<D>, ctx: int, fn: (Option<Key>, D) -> Verdict,
                     visited: seq<Node<D>>, ghost was: map<Node<D>, seq<int>>)
      returns (now: seq<Node<D>>, more: bool)
      requires n in repr && n !in visited && RemovedOf() == Marked(was, visited, ctx, Answers(fn))
      modifies n`removedFor
      ensures now == visited + if n in LiveNodes(was, DataOf(), ctx) then [n] else []
      ensures n in Answers(fn) && (more <==> now == visited || Answers(fn)[n].more)
      ensures RemovedOf() == Marked(was, now, ctx, Answers(fn))
    {
      hide Marked, Mark;
      MarkedNext(was, visited, ctx, Answers(fn), n);
      ghost var before := RemovedOf();
      assert before[n] == was[n];
      var reported;
      reported, more := Visit(n, ctx, fn);
      assert RemovedOf() == before[n := n.removedFor];
      now := if reported then visited + [n] else visited;
    }

    /** Tree.Walk: reports the nodes with data, breadth first, until told to stop; drops those not kept. */
    method Walk(ctx: int, fn: (Option<Key>, D) -> Verdict) returns (visited: seq<Node<D>>)
      requires Valid()
      modifies repr`removedFor
      ensures Valid()
      ensures IsWalk(visited, Among(Breadth([shape]), old(Live(ctx))), Answers(fn))
      ensures RemovedOf() == Marked(old(RemovedOf()), visited, ctx, Answers(fn))
    {
      hide Sound, Nodes, SubNodes, Breadth, Matches, Waiting, Among, Roots, Targets, Sizes, Find, NoRepeats, Marked,
        IsWalk,
        AllMore, LiveNodes, EdgesOf, DataOf, RemovedOf, Answers;
      ghost var g, order, live, was, data, answers := EdgesOf(), Breadth([shape]), Live(ctx), RemovedOf(), DataOf(),
        Answers(fn);
      ghost var queue, passed := [shape], 0;
      WalkStarts();
      MarkedNone(was, ctx, answers);
      NobodyVisited(answers);
      var nodes := [root];
      visited := [];
      while |nodes| > 0
        invariant EdgesOf() == g && DataOf() == data && Answers(fn) == answers
          && RemovedOf() == Marked(was, visited, ctx, answers)
        invariant nodes == Roots(queue) && Waiting(queue, repr, g) && passed <= |order|
          && order[passed..] == Breadth(queue)
        invariant visited == Among(order[..passed], live) && AllMore(visited, answers)
        decreases Sizes(queue)
      {
        var n := nodes[0];
        WalkStep(queue, repr, g);
        WalkOrder(queue);
        assert n == order[passed..][0] == order[passed];
        assert order[passed + 1..] == order[passed..][1..];
        NotBefore(order, passed);
        AmongStep(order, live, passed);
        AmongPrefix(order, live, passed + 1);
        ThereAre(n, fn);
        WalkNext(visited, n, Among(order, live), answers);
        var more;
        visited, more := VisitNext(n, ctx, fn, visited, was);
        if !more { return; }
        nodes := AppendTargets(nodes[1..], n.edges);
        queue, passed := queue[1..] + queue[0].subs, passed + 1;
      }
      assert order[..passed] == order;
      WalkDone(visited, answers);
    }

    lemma ThereAre(n: Node<D>, fn: (Option<Key>, D) -> Verdict)
      requires n in repr
      ensures n in EdgesOf() && EdgesOf()[n] == n.edges && n in Answers(fn)
    {
    }

    /** A walk starts with the root and will meet every node once. */
    lemma WalkStarts()
      requires Valid()
      ensures Roots([shape]) == [root] && Waiting([shape], repr, EdgesOf())
      ensures NoRepeats(Breadth([shape])) && Distinct(shape)
    {
      hide Nodes, SubNodes, Wf, Matches, Full, Breadth, Distinct;
      SubNodesOfOne(shape);
      BreadthOnce([shape]);
    }

    /** What an undisturbed walk reports: every key still seen under the context, once. */
    lemma WalkReports(ctx: int)
      requires Valid()
      ensures var all := Among(Breadth([shape]), Live(ctx));
              && NoRepeats(all)
              && (forall k | Seen(ctx, k).Some? :: NodeAt(k).value in all)
              && (forall n | n in all :: exists k :: NodeAt(k) == Some(n) && Seen(ctx, k) == n.data && n.data.Some?)
    {
      hide Nodes, SubNodes, Wf, Matches, Full, Breadth, Distinct, Find, FilledNodes;
      var all := Among(Breadth([shape]), Live(ctx));
      SubNodesOfOne(shape);
      BreadthOnce([shape]);
      AmongNoRepeats(Breadth([shape]), Live(ctx));
      NodesOfSub(shape);
      forall n | n in all ensures exists k :: NodeAt(k) == Some(n) && Seen(ctx, k) == n.data && n.data.Some? {
        var k := PathTo(shape, true, n);
        assert NodeAt(k) == Some(n);
      }
    }

    /** The key of a new node is not reported exactly when it is a proper prefix of a stored key. */
    lemma CrowdedKeys(key: Key)
      requires Valid() && key != [] && Value(key).None?
      ensures Crowded(shape, key) <==> exists longer :: key < longer && Value(longer).Some?
    {
      hide Nodes, SubNodes, Wf, Matches, Full, Crowded, Distinct, Find;
      NodesOfSub(shape);
      var filled := FilledNodes(shape, DataOf());
      assert forall k :: Stored(shape, filled, k) <==> Value(k).Some?;
      CrowdedMeansPrefix(shape, filled, key);
    }

    /** Copies all nodes below the root, breadth first. */
    method CopyNodes(copy: Node<D>) returns (ghost names: map<Node<D>, Node<D>>, ghost made: set<Node<D>>)
      requires Valid() && copy !in repr && copy.edges == [] && copy.removedFor == [] && copy.key == root.key
               && copy.data == root.data
      modifies copy`edges
      ensures Copying(repr, [], repr, names, EdgesOf(), EdgesIn(made))
              && Alike(names, ContentsIn(repr), ContentsIn(made))
      ensures root in names && names[root] == copy && copy in made && fresh(made - {copy})
              && forall m | m in made :: m.removedFor == []
    {
      hide Sound, Nodes, SubNodes, Matches, Waiting, Roots, Targets, Sizes, Copying, EdgesOf, EdgesIn, ContentsIn,
        Extend, Find,
        Copies, CopiedEdges, Name, Distinct, NoRepeats, Breadth, Alike, OneCopied, Edges, OneFilled;
      ghost var g, c := EdgesOf(), ContentsIn(repr);
      ghost var queue, done := [shape], {};
      names, made := map[root := copy], {copy};
      WalkStarts();
      CopyStarts(shape, copy, g);
      var nodes, copies := [root], [copy];
      NodesOfSub(shape);
      FirstCopy(root, copy, repr, names);
      while |nodes| > 0
        invariant EdgesOf() == g && ContentsIn(repr) == c && nodes == Roots(queue) && Waiting(queue, repr, g)
          && copies == Copies(nodes, names)
        invariant root in names && names[root] == copy && copy in made && fresh(made - {copy}) && made !! repr
        invariant forall m | m in made :: m.removedFor == []
        invariant Copying(repr, queue, done, names, g, EdgesIn(made)) && Alike(names, c, ContentsIn(made))
        decreases Sizes(queue)
      {
        ghost var h, full := EdgesIn(made), ContentsIn(made);
        CopyHead(repr, queue, done, names, g, h);
        ThereAre(nodes[0], (k, d) => Verdict(true, true));
        MadeNodes(made, copies[0]);
        ghost var now;
        var n, targets := nodes[0], [];
        targets, now := CopyOne(n, copies[0], made, repr);
        CopyRound(repr, queue, done, names, g, h, EdgesIn(now), targets, c, full, ContentsIn(now));
        nodes, copies := nodes[1..] + Targets(n.edges), copies[1..] + targets;
        names, made := Extend(names, Roots(queue[0].subs), targets), now;
        queue, done := queue[1..] + queue[0].subs, done + {n};
      }
      AllDone(repr, done, names, g, EdgesIn(made));
    }

    /** Tree.Copy: a tree of new nodes in which every key has the same data and nothing is removed. */
    method Copy() returns (cp: Tree<D>)
      requires Valid()
      ensures fresh(cp) && fresh(cp.repr) && cp.Valid() && cp.length == length
      ensures forall k :: cp.Value(k) == Value(k) && cp.Reported(k) == Reported(k)
      ensures (forall n | n in cp.repr :: n.removedFor == []) && forall c, k :: cp.Seen(c, k) == Value(k)
    {
      hide Sound, Nodes, SubNodes, Copying, EdgesOf, EdgesIn, DataOf, DataIn, Find, Renamed, Image, Alike, ContentsIn,
        Value, Reported, Seen, NodeAt, Name;
      RootIsBlank();
      cp := new Tree<D>();
      ghost var names, made := CopyNodes(cp.root);
      CopyIsTree(names, made);
      NameIs(names, root);
      cp.length := length;
      cp.shape, cp.repr := Renamed(shape, names), Image(repr, names);
      cp.MapsAre();
      CopyValues(cp, names);
      cp.NothingRemoved();
    }

    /** Where nothing is removed, every context sees everything. */
    lemma NothingRemoved()
      requires forall n | n in repr :: n.removedFor == []
      ensures forall c, k :: Seen(c, k) == Value(k)
    {
      hide Find;
    }

    lemma MapsAre()
      ensures EdgesOf() == EdgesIn(repr) && DataOf() == DataIn(repr)
    {
    }

    /** Keys lead to the same data in a copy. */
    lemma CopyValues(cp: Tree<D>, names: map<Node<D>, Node<D>>)
      requires Valid() && Even(cp.shape)
      requires forall k :: Find(cp.shape, k) == if Find(shape, k).None? then None
               else Some(Name(names, Find(shape, k).value))
      requires forall n | n in repr ::
               Name(names, n) in cp.repr && Name(names, n).data == n.data && Name(names, n).key == n.key
      ensures forall k :: cp.Value(k) == Value(k) && cp.Reported(k) == Reported(k)
    {
      hide Nodes, SubNodes, Sound, Find, Name;
      NodesOfSub(shape);
    }

    /** The copies make up a tree in which keys lead to the copies of their nodes. */
    lemma CopyIsTree(names: map<Node<D>, Node<D>>, made: set<Node<D>>)
      requires Valid() && Copying(repr, [], repr, names, EdgesOf(), EdgesIn(made))
               && Alike(names, ContentsIn(repr), ContentsIn(made))
      ensures var r, image := Renamed(shape, names), Image(repr, names);
              && image <= made && image == Nodes(r) && Sound(r, EdgesIn(image), DataIn(image))
              && (forall k :: Find(r, k) == if Find(shape, k).None? then None
                 else Some(Name(names, Find(shape, k).value)))
              && (forall n | n in repr ::
                 Name(names, n) in image && Name(names, n).data == n.data && Name(names, n).key == n.key)
              && (forall n | n in image :: n.data.None? ==> n.key.None?)
    {
      hide Nodes, SubNodes, Sound, Find, Renamed;
      MapsAre();
      assert names.Keys == repr by { CopyKeysDone(repr, names, EdgesOf(), EdgesIn(made)); }
      assert forall n | n in repr ::
        Name(names, n) in made && Name(names, n).data == n.data && Name(names, n).key == n.key;
      hide Copying, Alike;
      CopyIsSound(shape, names, EdgesOf(), DataOf(), EdgesIn(made), DataIn(made));
      var image := Image(repr, names);
      SoundFrame(Renamed(shape, names), EdgesIn(made), DataIn(made), EdgesIn(image), DataIn(image));
    }

    lemma RootIsBlank()
      requires Valid()
      ensures root in repr && root.data.None? && root.key.None?
    {
      hide Nodes, SubNodes, Wf, Distinct, Matches, Full;
      NodesOfSub(shape);
    }
  }

  /** A key added after one that it is a prefix of has data but is reported without its key. */
  method PrefixIsReportedWithoutKey() returns (t: Tree<int>)
    ensures t.Valid() && t.Value([1]) == Some(7) && t.Reported([1]) == None && t.Reported([1, 2]) == Some([1, 2])
  {
    hide Crowded, Find, Nodes, SubNodes, Sound;
    var short: Key, long: Key := [1], [1, 2];
    t := new Tree<int>();
    t.CrowdedKeys(long);
    var _ := t.Update(long, _ => 5);
    assert short < long && t.Value(long).Some?;
    t.CrowdedKeys(short);
    var _ := t.Update(short, _ => 7);
  }
}
