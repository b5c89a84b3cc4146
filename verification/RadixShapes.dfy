/**
 * The shape of a radix tree: which node is reached by which bytes.
 *
 * Nodes are identities of some type N.  The functions here follow the edges of a
 * tree as package bytetree does, and say what its shape is after a key was
 * added.  Lookup by path behaves like a map: adding a key gives it a node and
 * leaves all other keys where they were (`FindInserted`).
 */
module RadixShapes {
  import opened Wrappers

  type Byte = b: int | 0 <= b < 256 witness 0
  type Key = seq<Byte>

  datatype Edge<N> = Edge(prefix: Key, target: N)

  /** A node and the labels and shapes below it. */
  datatype Shape<N> = Shape(node: N, labels: seq<Key>, subs: seq<Shape<N>>)

  /** What the edges of a node say about a key. */
  datatype Step = Found(i: nat) | Down(i: nat) | Split(i: nat, at: nat) | NewEdge

  function CommonPrefix(a: Key, b: Key): (n: nat)
    ensures n <= |a| && n <= |b| && a[..n] == b[..n]
    ensures n < |a| && n < |b| ==> a[n] != b[n]
  {
    if a == [] || b == [] || a[0] != b[0] then 0 else 1 + CommonPrefix(a[1..], b[1..])
  }

  /** The common prefix is the only number with its two properties. */
  lemma {:induction false} CommonPrefixIs(a: Key, b: Key, n: nat)
    requires n <= |a| && n <= |b| && a[..n] == b[..n] && (n < |a| && n < |b| ==> a[n] != b[n])
    ensures CommonPrefix(a, b) == n
  {
    if n > 0 {
      assert a[0] == a[..n][0] == b[..n][0] == b[0];
      assert a[1..][..n - 1] == a[..n][1..] == b[..n][1..] == b[1..][..n - 1];
      CommonPrefixIs(a[1..], b[1..], n - 1);
    }
  }

  /** The label and the key have no byte in common, and the label is not empty. */
  predicate Passes(prefix: Key, key: Key) {
    prefix != [] && (key == [] || key[0] != prefix[0])
  }

  /** What the i-th edge says about a key it does not let pass. */
  function Hit(prefix: Key, key: Key, i: nat): (s: Step)
    requires !Passes(prefix, key)
  {
    var n := CommonPrefix(prefix, key);
    if n == |key| && |key| == |prefix| then Found(i)
    else if n == |prefix| then Down(i)
    else Split(i, n)
  }

  /** Scans the edges from the i-th on: an exact match, a label to descend along, or a common prefix to split on. */
  function StepFrom(labels: seq<Key>, key: Key, i: nat): (s: Step)
    requires i <= |labels|
    ensures s.NewEdge? ==> forall j | i <= j < |labels| :: Passes(labels[j], key)
    ensures !s.NewEdge? ==> i <= s.i < |labels| && !Passes(labels[s.i], key) && s == Hit(labels[s.i], key, s.i)
                            && forall j | i <= j < s.i :: Passes(labels[j], key)
    decreases |labels| - i
  {
    if i == |labels| then NewEdge else
      var n := CommonPrefix(labels[i], key);
      if n == |key| && |key| == |labels[i]| then Found(i)
      else if n == |labels[i]| && |labels[i]| < |key| then Down(i)
      else if n > 0 then Split(i, n)
      else StepFrom(labels, key, i + 1)
  }

  function StepAt(labels: seq<Key>, key: Key): (s: Step)
    ensures s.NewEdge? ==> forall j | 0 <= j < |labels| :: Passes(labels[j], key)
    ensures !s.NewEdge? ==> s.i < |labels| && !Passes(labels[s.i], key) && s == Hit(labels[s.i], key, s.i)
                            && forall j | 0 <= j < s.i :: Passes(labels[j], key)
  {
    StepFrom(labels, key, 0)
  }

  /** The first edge that does not let the key pass decides. */
  lemma StepIs(labels: seq<Key>, key: Key, i: nat)
    requires i < |labels| && !Passes(labels[i], key) && forall j | 0 <= j < i :: Passes(labels[j], key)
    ensures StepAt(labels, key) == Hit(labels[i], key, i)
  {
    assert !StepAt(labels, key).NewEdge?;
  }

  // ---------------------------------------------------------------- lookup

  /** The node reached by a key; the root itself is reached by none. */
  function Find<N>(s: Shape<N>, key: Key): (r: Option<N>)
    requires Even(s)
    ensures r.Some? ==> r.value in SubNodes(s.subs)
    decreases s
  {
    match StepAt(s.labels, key)
    case Found(i) => assert s.subs[i].node in Nodes(s.subs[i]); Some(s.subs[i].node)
    case Down(i) =>
      var r := Find(s.subs[i], key[|s.labels[i]|..]);
      assert r.Some? ==> r.value in Nodes(s.subs[i]);
      r
    case _ => None
  }

  /** Every label leads to one shape. */
  predicate Even<N>(s: Shape<N>)
    decreases s
  {
    |s.labels| == |s.subs| && forall i | 0 <= i < |s.subs| :: Even(s.subs[i])
  }

  ghost function Nodes<N>(s: Shape<N>): set<N>
    decreases s
  {
    {s.node} + SubNodes(s.subs)
  }

  ghost function SubNodes<N>(subs: seq<Shape<N>>): set<N>
    decreases subs
  {
    set i, n | 0 <= i < |subs| && n in Nodes(subs[i]) :: n
  }

  /** No node occurs twice. */
  ghost predicate Distinct<N>(s: Shape<N>)
    decreases s
  {
    && s.node !in SubNodes(s.subs)
    && (forall i, j | 0 <= i < j < |s.subs| :: Nodes(s.subs[i]) !! Nodes(s.subs[j]))
    && forall i | 0 <= i < |s.subs| :: Distinct(s.subs[i])
  }

  /** Different keys reach different nodes. */
  lemma {:induction false} FindInjective<N>(s: Shape<N>, k1: Key, k2: Key)
    requires Even(s) && Distinct(s)
    requires Find(s, k1).Some? && Find(s, k1) == Find(s, k2)
    ensures k1 == k2
    decreases s
  {
    hide CommonPrefix, StepFrom;
    var n := Find(s, k1).value;
    var i1, i2 := StepAt(s.labels, k1).i, StepAt(s.labels, k2).i;
    assert n in Nodes(s.subs[i1]) && n in Nodes(s.subs[i2]);
    assert i1 == i2;
    var l := s.labels[i1];
    assert l <= k1 && l <= k2;
    if StepAt(s.labels, k1).Down? && StepAt(s.labels, k2).Down? {
      FindInjective(s.subs[i1], k1[|l|..], k2[|l|..]);
      assert k1 == l + k1[|l|..] && k2 == l + k2[|l|..];
    }
  }

  // ---------------------------------------------------------------- adding a key

  function Leaf<N>(node: N): Shape<N> {
    Shape(node, [], [])
  }

  /** The node put between a label and its target: it keeps the rest of both. */
  function SplitShape<N>(l: Key, sub: Shape<N>, key: Key, at: nat, leaf: N, mid: N): (r: Shape<N>)
    requires at <= |l| && at <= |key|
    ensures Even(sub) ==> Even(r)
  {
    if at == |key| then Shape(mid, [l[at..]], [sub])
    else Shape(mid, [l[at..], key[at..]], [sub, Leaf(leaf)])
  }

  /** The shape after a key was added; new nodes are `leaf` for the key and `mid` where a label was split. */
  function Insert<N>(s: Shape<N>, key: Key, leaf: N, mid: N): (r: Shape<N>)
    requires Even(s)
    ensures Even(r) && r.node == s.node
    decreases s
  {
    match StepAt(s.labels, key)
    case Found(_) => s
    case Down(i) => Shape(s.node, s.labels, s.subs[i := Insert(s.subs[i], key[|s.labels[i]|..], leaf, mid)])
    case Split(i, at) =>
      Shape(s.node, s.labels[i := s.labels[i][..at]], s.subs[i := SplitShape(s.labels[i], s.subs[i], key, at, leaf,
        mid)])
    case NewEdge => Shape(s.node, s.labels + [key], s.subs + [Leaf(leaf)])
  }

  /** The node that holds the data of a key just added. */
  function Target<N>(s: Shape<N>, key: Key, leaf: N, mid: N): (r: N)
    requires Even(s)
    decreases s
  {
    match StepAt(s.labels, key)
    case Found(i) => s.subs[i].node
    case Down(i) => Target(s.subs[i], key[|s.labels[i]|..], leaf, mid)
    case Split(_, at) => if at == |key| then mid else leaf
    case NewEdge => leaf
  }

  /** Only the key itself and the place of a split are looked up differently after a key was added. */
  ghost predicate FoundAlike<N>(was: Option<N>, now: Option<N>, mid: N, target: N) {
    now == was || (was.None? && now == Some(mid) && mid != target)
  }

  lemma CommonPrefixDrops(a: Key, b: Key, at: nat)
    requires at <= |a| && at <= |b| && a[..at] == b[..at]
    ensures CommonPrefix(a, b) == at + CommonPrefix(a[at..], b[at..])
  {
    hide CommonPrefix;
    var n := CommonPrefix(a[at..], b[at..]);
    assert a[..at + n] == a[..at] + a[at..][..n] == b[..at] + b[at..][..n] == b[..at + n];
    CommonPrefixIs(a, b, at + n);
  }

  lemma ShorterPrefix(a: Key, b: Key, n: nat, at: nat)
    requires n <= |a| && n <= |b| && a[..n] == b[..n]
    ensures at <= n ==> a[..at] == b[..at]
  {
    if at <= n { assert a[..at] == a[..n][..at] && b[..at] == b[..n][..at]; }
  }

  /** Keys that agree with the split label go where they went. */
  lemma FindKept<N>(l: Key, sub: Shape<N>, key: Key, at: nat, leaf: N, mid: N, other: Key)
    requires Even(sub) && 0 < at < |l| && at <= |key|
    requires at < |other| && l[..at] == other[..at] && l[at] == other[at]
    ensures Find(SplitShape(l, sub, key, at, leaf, mid), other[at..]) == Find(Shape(mid, [l], [sub]), other)
  {
    hide Nodes, SubNodes, StepFrom, CommonPrefix;
    var fork := SplitShape(l, sub, key, at, leaf, mid);
    var rest := other[at..];
    assert l[0] == l[..at][0] == other[..at][0] == other[0];
    StepIs(fork.labels, rest, 0);
    StepIs([l], other, 0);
    CommonPrefixDrops(l, other, at);
    if StepAt([l], other).Down? {
      assert rest[|l| - at..] == other[|l|..];
    }
  }

  /** Keys that leave the split label reach the new leaf or nothing. */
  lemma FindNew<N>(l: Key, sub: Shape<N>, key: Key, at: nat, leaf: N, mid: N, other: Key)
    requires Even(sub) && 0 < at < |l| && at <= |key| && l[..at] == key[..at] && (at < |key| ==> l[at] != key[at])
    requires at < |other| && l[..at] == other[..at] && l[at] != other[at]
    ensures Find(SplitShape(l, sub, key, at, leaf, mid), other[at..]) == if other == key then Some(leaf) else None
  {
    hide Nodes, SubNodes, StepFrom, CommonPrefix;
    var fork := SplitShape(l, sub, key, at, leaf, mid);
    var rest := other[at..];
    if at < |key| {
      assert other == other[..at] + rest && key == key[..at] + key[at..];
      if rest[0] == key[at] {
        StepIs(fork.labels, rest, 1);
        FindLeafBelow(fork, key[at..], rest, leaf);
      }
    }
  }

  /** Below an edge that leads to a leaf there is only the leaf. */
  lemma FindLeafBelow<N>(s: Shape<N>, l: Key, rest: Key, leaf: N)
    requires Even(s)
    requires !StepAt(s.labels, rest).NewEdge?
    requires var i := StepAt(s.labels, rest).i; s.labels[i] == l && s.subs[i] == Leaf(leaf)
    ensures Find(s, rest) == if rest == l then Some(leaf) else None
  {
    hide Nodes, SubNodes, StepFrom;
    if rest == l { CommonPrefixIs(l, rest, |l|); }
  }

  /** Where two shapes agree on the edge that decides, they agree on the key. */
  lemma FindAlong<N>(s: Shape<N>, t: Shape<N>, key: Key, i: nat)
    requires Even(s) && Even(t) && i < |s.labels| && i < |t.labels|
    requires s.labels[i] == t.labels[i] && s.subs[i] == t.subs[i] && !Passes(s.labels[i], key)
    requires forall j | 0 <= j < i :: Passes(s.labels[j], key) && Passes(t.labels[j], key)
    ensures Find(s, key) == Find(t, key)
  {
    hide Nodes, SubNodes, StepFrom, CommonPrefix;
    StepIs(s.labels, key, i);
    StepIs(t.labels, key, i);
  }

  lemma FindPastNewEdge<N>(s: Shape<N>, key: Key, leaf: N, mid: N, other: Key)
    requires Even(s) && StepAt(s.labels, key).NewEdge?
    ensures Find(Insert(s, key, leaf, mid), other) == if other == key then Some(leaf) else Find(s, other)
  {
    hide Nodes, SubNodes, StepFrom, CommonPrefix;
    var r := Insert(s, key, leaf, mid);
    if StepAt(s.labels, other).NewEdge? {
      if !Passes(key, other) {
        StepIs(r.labels, other, |s.labels|);
        FindLeafBelow(r, key, other, leaf);
      }
    } else {
      FindAlong(s, r, other, StepAt(s.labels, other).i);
    }
  }

  lemma FindPastSplit<N>(s: Shape<N>, key: Key, leaf: N, mid: N, other: Key)
    requires Even(s) && StepAt(s.labels, key).Split? && leaf != mid
    ensures var target, now := Target(s, key, leaf, mid), Find(Insert(s, key, leaf, mid), other);
            if other == key then now == Some(target) else FoundAlike(Find(s, other), now, mid, target)
  {
    hide Nodes, SubNodes, StepFrom, CommonPrefix;
    var r := Insert(s, key, leaf, mid);
    var i := StepAt(s.labels, key).i;
    var step := StepAt(s.labels, other);
    if !step.NewEdge? && step.i < i {
      FindAlong(s, r, other, step.i);
    } else if Passes(s.labels[i], other) {
      if !step.NewEdge? { FindAlong(s, r, other, step.i); }
    } else {
      StepIs(s.labels, other, i);
      StepIs(r.labels, other, i);
      FindAtSplit(s, key, leaf, mid, other);
    }
  }

  lemma FindAtSplit<N>(s: Shape<N>, key: Key, leaf: N, mid: N, other: Key)
    requires Even(s) && StepAt(s.labels, key).Split? && leaf != mid
    requires var i := StepAt(s.labels, key).i; var r := Insert(s, key, leaf, mid);
             && !Passes(s.labels[i], other)
             && StepAt(s.labels, other) == Hit(s.labels[i], other, i)
             && !Passes(r.labels[i], other)
             && StepAt(r.labels, other) == Hit(r.labels[i], other, i)
    ensures var target, now := Target(s, key, leaf, mid), Find(Insert(s, key, leaf, mid), other);
            if other == key then now == Some(target) else FoundAlike(Find(s, other), now, mid, target)
  {
    hide Nodes, SubNodes, StepFrom, CommonPrefix, StepAt, Find;
    var Split(i, at) := StepAt(s.labels, key);
    if at <= |other| && s.labels[i][..at] == other[..at] {
      FindPastLabel(s, key, leaf, mid, other);
    } else {
      FindInLabel(s, key, leaf, mid, other);
    }
  }

  /** A key that leaves the label before the split is found nowhere. */
  lemma FindInLabel<N>(s: Shape<N>, key: Key, leaf: N, mid: N, other: Key)
    requires Even(s) && StepAt(s.labels, key).Split? && leaf != mid
    requires var i := StepAt(s.labels, key).i; var r := Insert(s, key, leaf, mid);
             && !Passes(s.labels[i], other)
             && StepAt(s.labels, other) == Hit(s.labels[i], other, i)
             && !Passes(r.labels[i], other)
             && StepAt(r.labels, other) == Hit(r.labels[i], other, i)
    requires var Split(i, at) := StepAt(s.labels, key); !(at <= |other| && s.labels[i][..at] == other[..at])
    ensures Find(Insert(s, key, leaf, mid), other) == None && Find(s, other) == None && other != key
  {
    hide Nodes, SubNodes, StepFrom, CommonPrefix, StepAt;
    var Split(i, at) := StepAt(s.labels, key);
    var l := s.labels[i];
    var n := CommonPrefix(l, other);
    ShorterPrefix(l, other, n, at);
    assert l[..n] == l[..at][..n];
    CommonPrefixIs(l[..at], other, n);
  }

  /** A key that shares the label up to the split. */
  lemma FindPastLabel<N>(s: Shape<N>, key: Key, leaf: N, mid: N, other: Key)
    requires Even(s) && StepAt(s.labels, key).Split? && leaf != mid
    requires var i := StepAt(s.labels, key).i; var r := Insert(s, key, leaf, mid);
             && !Passes(s.labels[i], other)
             && StepAt(s.labels, other) == Hit(s.labels[i], other, i)
             && !Passes(r.labels[i], other)
             && StepAt(r.labels, other) == Hit(r.labels[i], other, i)
    requires var Split(i, at) := StepAt(s.labels, key); at <= |other| && s.labels[i][..at] == other[..at]
    ensures var target, now := Target(s, key, leaf, mid), Find(Insert(s, key, leaf, mid), other);
            if other == key then now == Some(target) else FoundAlike(Find(s, other), now, mid, target)
  {
    hide Nodes, SubNodes, StepFrom, CommonPrefix, StepAt, Find, Hit;
    var Split(i, at) := StepAt(s.labels, key);
    var l, sub, r := s.labels[i], s.subs[i], Insert(s, key, leaf, mid);
    SplitFacts(s.labels, key);
    assert r.labels[i] == l[..at] <= other;
    assert l[0] == l[..at][0] == other[..at][0] == other[0];
    OneEdge(s, i, mid, other);
    AlongEdge(r, i, other);
    if at == |other| {
      if |key| == at { assert key == key[..at] == other[..at] == other; }
      ShortKeyMisses(l, sub, mid, other);
    } else if l[at] == other[at] {
      FindKept(l, sub, key, at, leaf, mid, other);
    } else {
      FindNew(l, sub, key, at, leaf, mid, other);
      OffKeyMisses(l, sub, mid, other, at);
    }
  }

  lemma SplitFacts(labels: seq<Key>, key: Key)
    requires StepAt(labels, key).Split?
    ensures var Split(i, at) := StepAt(labels, key); var l := labels[i];
            0 < at < |l| && at <= |key| && l[..at] == key[..at] && (at < |key| ==> l[at] != key[at])
  {
    hide StepFrom, CommonPrefix;
  }

  /** The edge that decides is all that matters. */
  lemma OneEdge<N>(s: Shape<N>, i: nat, mid: N, other: Key)
    requires Even(s) && i < |s.labels| && !Passes(s.labels[i], other)
             && StepAt(s.labels, other) == Hit(s.labels[i], other, i)
    ensures Find(s, other) == Find(Shape(mid, [s.labels[i]], [s.subs[i]]), other)
  {
    hide Nodes, SubNodes, StepFrom, CommonPrefix;
    StepIs([s.labels[i]], other, 0);
  }

  /** Following a label that is a prefix of the key. */
  lemma AlongEdge<N>(s: Shape<N>, i: nat, other: Key)
    requires Even(s) && i < |s.labels| && !Passes(s.labels[i], other)
             && StepAt(s.labels, other) == Hit(s.labels[i], other, i)
    requires s.labels[i] <= other
    ensures Find(s, other) == if |other| == |s.labels[i]| then Some(s.subs[i].node)
            else Find(s.subs[i], other[|s.labels[i]|..])
  {
    hide Nodes, SubNodes, StepFrom, CommonPrefix;
    CommonPrefixIs(s.labels[i], other, |s.labels[i]|);
  }

  lemma ShortKeyMisses<N>(l: Key, sub: Shape<N>, mid: N, other: Key)
    requires Even(sub) && other != [] && |other| < |l| && l[0] == other[0]
    ensures Find(Shape(mid, [l], [sub]), other) == None
  {
    hide Nodes, SubNodes, StepFrom, CommonPrefix;
    StepIs([l], other, 0);
  }

  lemma OffKeyMisses<N>(l: Key, sub: Shape<N>, mid: N, other: Key, at: nat)
    requires Even(sub) && 0 < at < |l| && at < |other| && l[..at] == other[..at] && l[at] != other[at]
    ensures Find(Shape(mid, [l], [sub]), other) == None
  {
    hide Nodes, SubNodes, StepFrom, CommonPrefix;
    assert l[0] == l[..at][0] == other[..at][0] == other[0];
    StepIs([l], other, 0);
    CommonPrefixIs(l, other, at);
  }

  /** Adding a key gives it its node and leaves every other key where it was. */
  lemma {:induction false} FindInserted<N>(s: Shape<N>, key: Key, leaf: N, mid: N, other: Key)
    requires Even(s) && leaf != mid
    ensures var target, now := Target(s, key, leaf, mid), Find(Insert(s, key, leaf, mid), other);
            if other == key then now == Some(target) else FoundAlike(Find(s, other), now, mid, target)
    decreases s
  {
    hide Nodes, SubNodes, StepFrom, CommonPrefix;
    match StepAt(s.labels, key)
    case Found(i) =>
    case Down(i) =>
      var l := s.labels[i];
      var r := Insert(s, key, leaf, mid);
      if StepAt(s.labels, other).Down? && StepAt(s.labels, other).i == i {
        FindInserted(s.subs[i], key[|l|..], leaf, mid, other[|l|..]);
        assert key == key[..|l|] + key[|l|..] && other == other[..|l|] + other[|l|..];
        assert key[..|l|] == l == other[..|l|];
      }
    case Split(_, _) => FindPastSplit(s, key, leaf, mid, other);
    case NewEdge => FindPastNewEdge(s, key, leaf, mid, other);
  }

  // ---------------------------------------------------------------- well-formed shapes

  /** Labels are not empty and start with different bytes; the root may end with one empty label. */
  predicate WfLabels(labels: seq<Key>, root: bool) {
    && (forall i | 0 <= i < |labels| :: labels[i] == [] ==> root && i == |labels| - 1)
    && (forall i, j | 0 <= i < j < |labels| :: labels[i] != [] && labels[j] != [] ==> labels[i][0] != labels[j][0])
  }

  /** No label below the empty edge starts like one of the labels beside it. */
  predicate WfEmptyEdge<N>(s: Shape<N>)
    requires |s.labels| == |s.subs|
  {
    forall i, j, k | 0 <= j < i < |s.labels| && 0 <= k < |s.subs[i].labels| ::
      s.labels[i] == [] ==> Passes(s.labels[j], s.subs[i].labels[k])
  }

  predicate Wf<N>(s: Shape<N>, root: bool)
    ensures Wf(s, root) ==> Even(s)
    decreases s
  {
    && |s.labels| == |s.subs| && WfLabels(s.labels, root) && WfEmptyEdge(s)
    && forall i | 0 <= i < |s.subs| :: Wf(s.subs[i], false)
  }

  lemma SplitIsWf<N>(l: Key, sub: Shape<N>, key: Key, at: nat, leaf: N, mid: N)
    requires Wf(sub, false) && at < |l| && at <= |key| && (at < |key| ==> l[at] != key[at])
    ensures Wf(SplitShape(l, sub, key, at, leaf, mid), false)
  {
  }

  lemma {:induction false} InsertIsWf<N>(s: Shape<N>, root: bool, key: Key, leaf: N, mid: N)
    requires Wf(s, root) && (root || key != [])
    ensures Wf(Insert(s, key, leaf, mid), root)
    decreases s
  {
    hide Nodes, SubNodes, StepFrom, CommonPrefix;
    match StepAt(s.labels, key)
    case Found(i) =>
    case Down(i) => InsertIsWf(s.subs[i], false, key[|s.labels[i]|..], leaf, mid);
    case Split(i, at) => SplitIsWf(s.labels[i], s.subs[i], key, at, leaf, mid);
    case NewEdge =>
  }

  // ---------------------------------------------------------------- nodes and edges

  /** The nodes that adding a key brings in. */
  function Added<N>(s: Shape<N>, key: Key, leaf: N, mid: N): (r: set<N>)
    requires Even(s)
    ensures r <= {leaf, mid}
    decreases s
  {
    match StepAt(s.labels, key)
    case Found(_) => {}
    case Down(i) => Added(s.subs[i], key[|s.labels[i]|..], leaf, mid)
    case Split(_, at) => if at == |key| then {mid} else {leaf, mid}
    case NewEdge => {leaf}
  }

  lemma SplitNodes<N>(l: Key, sub: Shape<N>, key: Key, at: nat, leaf: N, mid: N)
    requires at <= |l| && at <= |key|
    ensures Nodes(SplitShape(l, sub, key, at, leaf, mid))
            == Nodes(sub) + if at == |key| then {mid} else {leaf, mid}
  {
    var r := SplitShape(l, sub, key, at, leaf, mid);
    assert r.subs[0] == sub;
    if at != |key| { assert r.subs[1] == Leaf(leaf) && Nodes(Leaf(leaf)) == {leaf}; }
  }

  /** Replacing one of several shapes by one with more nodes adds these nodes. */
  lemma SubNodesReplaced<N>(subs: seq<Shape<N>>, i: nat, sub: Shape<N>, more: set<N>)
    requires i < |subs| && Nodes(sub) == Nodes(subs[i]) + more
    ensures SubNodes(subs[i := sub]) == SubNodes(subs) + more
  {
    var r := subs[i := sub];
    forall n | n in SubNodes(subs) + more ensures n in SubNodes(r) {
      if n in SubNodes(subs) {
        var j :| 0 <= j < |subs| && n in Nodes(subs[j]);
        assert n in Nodes(r[j]);
      } else {
        assert n in Nodes(r[i]);
      }
    }
    forall n | n in SubNodes(r) ensures n in SubNodes(subs) + more {
      var j :| 0 <= j < |r| && n in Nodes(r[j]);
      assert n in Nodes(subs[j]) + more;
    }
  }

  lemma {:induction false} InsertNodes<N>(s: Shape<N>, key: Key, leaf: N, mid: N)
    requires Even(s)
    ensures Nodes(Insert(s, key, leaf, mid)) == Nodes(s) + Added(s, key, leaf, mid)
    decreases s
  {
    hide StepFrom, CommonPrefix;
    var r := Insert(s, key, leaf, mid);
    match StepAt(s.labels, key)
    case Found(i) =>
    case Down(i) =>
      InsertNodes(s.subs[i], key[|s.labels[i]|..], leaf, mid);
      SubNodesReplaced(s.subs, i, r.subs[i], Added(s, key, leaf, mid));
    case Split(i, at) =>
      SplitNodes(s.labels[i], s.subs[i], key, at, leaf, mid);
      SubNodesReplaced(s.subs, i, r.subs[i], Added(s, key, leaf, mid));
    case NewEdge =>
      SubNodesAppended(s.subs, leaf);
  }

  lemma SubNodesAppended<N>(subs: seq<Shape<N>>, leaf: N)
    ensures SubNodes(subs + [Leaf(leaf)]) == SubNodes(subs) + {leaf}
  {
    var r := subs + [Leaf(leaf)];
    assert r[|subs|] == Leaf(leaf) && Nodes(Leaf(leaf)) == {leaf};
    forall n | n in SubNodes(subs) ensures n in SubNodes(r) {
      var j :| 0 <= j < |subs| && n in Nodes(subs[j]);
      assert r[j] == subs[j];
    }
  }

  lemma {:induction false} InsertIsDistinct<N>(s: Shape<N>, key: Key, leaf: N, mid: N)
    requires Even(s) && Distinct(s) && leaf != mid && Added(s, key, leaf, mid) !! Nodes(s)
    ensures Distinct(Insert(s, key, leaf, mid))
    decreases s
  {
    hide StepFrom, CommonPrefix, Nodes, SubNodes;
    var r := Insert(s, key, leaf, mid);
    InsertNodes(s, key, leaf, mid);
    NodesOfSub(s);
    match StepAt(s.labels, key)
    case Found(i) =>
    case Down(i) =>
      InsertIsDistinct(s.subs[i], key[|s.labels[i]|..], leaf, mid);
      InsertNodes(s.subs[i], key[|s.labels[i]|..], leaf, mid);
      DistinctReplaced(s, r, i, Added(s, key, leaf, mid));
    case Split(i, at) =>
      SplitIsDistinct(s.labels[i], s.subs[i], key, at, leaf, mid);
      SplitNodes(s.labels[i], s.subs[i], key, at, leaf, mid);
      DistinctReplaced(s, r, i, Added(s, key, leaf, mid));
    case NewEdge =>
      DistinctAppended(s, r, leaf);
  }

  lemma NodesOfSub<N>(s: Shape<N>)
    ensures forall i | 0 <= i < |s.subs| :: Nodes(s.subs[i]) <= SubNodes(s.subs)
    ensures Nodes(s) == {s.node} + SubNodes(s.subs)
  {
  }

  lemma SplitIsDistinct<N>(l: Key, sub: Shape<N>, key: Key, at: nat, leaf: N, mid: N)
    requires at <= |l| && at <= |key| && leaf != mid && Distinct(sub) && mid !in Nodes(sub)
    requires at != |key| ==> leaf !in Nodes(sub)
    ensures Distinct(SplitShape(l, sub, key, at, leaf, mid))
  {
    var r := SplitShape(l, sub, key, at, leaf, mid);
    assert r.subs[0] == sub;
    if at != |key| { assert r.subs[1] == Leaf(leaf) && Nodes(Leaf(leaf)) == {leaf}; }
  }

  lemma DistinctReplaced<N>(s: Shape<N>, r: Shape<N>, i: nat, more: set<N>)
    requires Distinct(s) && i < |s.subs| && r.node == s.node && |r.subs| == |s.subs| && r.subs == s.subs[i := r.subs[i]]
    requires Distinct(r.subs[i]) && Nodes(r.subs[i]) == Nodes(s.subs[i]) + more && more !! Nodes(s)
    ensures Distinct(r)
  {
    hide Nodes, SubNodes;
    SubNodesReplaced(s.subs, i, r.subs[i], more);
    NodesOfSub(s);
  }

  lemma DistinctAppended<N>(s: Shape<N>, r: Shape<N>, leaf: N)
    requires Distinct(s) && leaf !in Nodes(s) && r.node == s.node && r.subs == s.subs + [Leaf(leaf)]
    ensures Distinct(r)
  {
    hide Nodes, SubNodes;
    SubNodesAppended(s.subs, leaf);
    NodesOfSub(s);
    assert Nodes(Leaf(leaf)) == {leaf} && Distinct(Leaf(leaf)) by { LeafNodes(leaf); }
  }

  lemma LeafNodes<N>(leaf: N)
    ensures Nodes(Leaf(leaf)) == {leaf} && Distinct(Leaf(leaf))
  {
  }

  function Edges<N>(s: Shape<N>): (r: seq<Edge<N>>)
    requires |s.labels| == |s.subs|
    ensures |r| == |s.subs|
  {
    seq(|s.subs|, i requires 0 <= i < |s.subs| => Edge(s.labels[i], s.subs[i].node))
  }

  lemma EdgeAt<N>(s: Shape<N>, i: nat)
    requires |s.labels| == |s.subs| && i < |s.subs|
    ensures Edges(s)[i] == Edge(s.labels[i], s.subs[i].node)
  {
  }

  /** The edge lists kept by the nodes are those of the shape. */
  ghost predicate Matches<N>(s: Shape<N>, g: map<N, seq<Edge<N>>>)
    requires Even(s)
    decreases s
  {
    && s.node in g && g[s.node] == Edges(s)
    && forall i | 0 <= i < |s.subs| :: Matches(s.subs[i], g)
  }

  lemma MatchesParts<N>(s: Shape<N>, g: map<N, seq<Edge<N>>>)
    requires Even(s) && Matches(s, g)
    ensures s.node in g && g[s.node] == Edges(s)
    ensures forall i | 0 <= i < |s.subs| :: Matches(s.subs[i], g)
  {
  }

  lemma {:induction false} MatchesFrame<N>(s: Shape<N>, g: map<N, seq<Edge<N>>>, h: map<N, seq<Edge<N>>>)
    requires Even(s) && Matches(s, g)
    requires forall n | n in Nodes(s) :: n in g && n in h && h[n] == g[n]
    ensures Matches(s, h)
    decreases s
  {
    hide Nodes, SubNodes;
    NodesOfSub(s);
    forall i | 0 <= i < |s.subs| ensures Matches(s.subs[i], h) {
      MatchesFrame(s.subs[i], g, h);
    }
  }

  /** The place in the shape whose edges decide about a key, and what is left of the key there. */
  function Spot<N>(s: Shape<N>, key: Key): (r: (Shape<N>, Key))
    requires Even(s)
    ensures Even(r.0) && !StepAt(r.0.labels, r.1).Down?
    decreases s
  {
    var step := StepAt(s.labels, key);
    if step.Down? then Spot(s.subs[step.i], key[|s.labels[step.i]|..]) else (s, key)
  }

  /** The deciding place is part of the tree, and what is added there is what is added to the tree. */
  lemma {:induction false} SpotDecides<N>(s: Shape<N>, key: Key, leaf: N, mid: N)
    requires Even(s)
    ensures var (spot, rest) := Spot(s, key);
            && Nodes(spot) <= Nodes(s) && spot.node in Nodes(s)
            && Added(s, key, leaf, mid) == Added(spot, rest, leaf, mid)
            && Target(s, key, leaf, mid) == Target(spot, rest, leaf, mid)
            && Find(s, key) == Find(spot, rest)
    decreases s
  {
    hide StepFrom, CommonPrefix, Nodes, SubNodes;
    NodesOfSub(s);
    var step := StepAt(s.labels, key);
    if step.Down? { SpotDecides(s.subs[step.i], key[|s.labels[step.i]|..], leaf, mid); }
  }

  /** Changing the edges at the one deciding place makes the nodes match the new shape. */
  lemma {:induction false} InsertMatches<N>(s: Shape<N>, key: Key, leaf: N, mid: N, g: map<N, seq<Edge<N>>>,
                                            h: map<N, seq<Edge<N>>>)
    requires Even(s) && Distinct(s) && Matches(s, g)
    requires var (spot, rest) := Spot(s, key); Matches(Insert(spot, rest, leaf, mid), h)
    requires forall n | n in Nodes(s) :: n != Spot(s, key).0.node ==> n in g && n in h && h[n] == g[n]
    ensures Matches(Insert(s, key, leaf, mid), h)
    decreases s
  {
    hide StepFrom, CommonPrefix, Nodes, SubNodes;
    var step := StepAt(s.labels, key);
    if step.Down? {
      var i, rest := step.i, key[|s.labels[step.i]|..];
      NodesOfSub(s);
      SpotDecides(s.subs[i], rest, leaf, mid);
      InsertMatches(s.subs[i], rest, leaf, mid, g, h);
      var r := Insert(s, key, leaf, mid);
      assert Edges(r) == Edges(s);
      forall j | 0 <= j < |r.subs| ensures Matches(r.subs[j], h) {
        if j != i {
          assert Nodes(s.subs[i]) !! Nodes(s.subs[j]);
          MatchesFrame(s.subs[j], g, h);
        }
      }
      assert s.node != Spot(s, key).0.node;
    }
  }

  /** The deciding place of a sound shape is sound. */
  lemma {:induction false} SpotIsSound<N>(s: Shape<N>, key: Key, g: map<N, seq<Edge<N>>>)
    requires Even(s) && Distinct(s) && Matches(s, g)
    ensures Distinct(Spot(s, key).0) && Matches(Spot(s, key).0, g)
    decreases s
  {
    hide StepFrom, CommonPrefix, Nodes, SubNodes;
    var step := StepAt(s.labels, key);
    if step.Down? { SpotIsSound(s.subs[step.i], key[|s.labels[step.i]|..], g); }
  }

  /** Shapes below a node stay matched while only that node's edges change. */
  lemma SubsStayMatched<N>(s: Shape<N>, g: map<N, seq<Edge<N>>>, h: map<N, seq<Edge<N>>>)
    requires Even(s) && Distinct(s) && Matches(s, g)
    requires forall n | n in Nodes(s) :: n != s.node ==> n in g && n in h && h[n] == g[n]
    ensures forall i | 0 <= i < |s.subs| :: Matches(s.subs[i], h)
  {
    hide Nodes, SubNodes;
    NodesOfSub(s);
    MatchesParts(s, g);
    forall i | 0 <= i < |s.subs| ensures Matches(s.subs[i], h) {
      MatchesFrame(s.subs[i], g, h);
    }
  }

  /** Appending an edge to a fresh leaf. */
  lemma EdgeAdded<N>(s: Shape<N>, key: Key, leaf: N, mid: N, g: map<N, seq<Edge<N>>>, h: map<N, seq<Edge<N>>>)
    requires Even(s) && Distinct(s) && Matches(s, g) && StepAt(s.labels, key).NewEdge?
    requires forall n | n in Nodes(s) :: n != s.node ==> n in g && n in h && h[n] == g[n]
    requires s.node in h && h[s.node] == Edges(s) + [Edge(key, leaf)] && leaf in h && h[leaf] == []
    ensures Matches(Insert(s, key, leaf, mid), h)
  {
    hide StepFrom, CommonPrefix, Nodes, SubNodes, StepAt;
    SubsStayMatched(s, g, h);
    var r := Insert(s, key, leaf, mid);
    assert Edges(r) == Edges(s) + [Edge(key, leaf)];
    assert Matches(Leaf(leaf), h);
  }

  /** Putting a fresh node into the middle of an edge. */
  lemma EdgeSplit<N>(s: Shape<N>, key: Key, leaf: N, mid: N, g: map<N, seq<Edge<N>>>, h: map<N, seq<Edge<N>>>)
    requires Even(s) && Distinct(s) && Matches(s, g) && StepAt(s.labels, key).Split?
    requires forall n | n in Nodes(s) :: n != s.node ==> n in g && n in h && h[n] == g[n]
    requires var Split(i, at) := StepAt(s.labels, key);
             && mid in h && h[mid] == [Edge(s.labels[i][at..], s.subs[i].node)]
                                      + (if at == |key| then [] else [Edge(key[at..], leaf)])
             && (at != |key| ==> leaf in h && h[leaf] == [])
             && s.node in h && h[s.node] == Edges(s)[i := Edge(s.labels[i][..at], mid)]
    ensures Matches(Insert(s, key, leaf, mid), h)
  {
    hide StepFrom, CommonPrefix, Nodes, SubNodes, StepAt;
    SubsStayMatched(s, g, h);
    var Split(i, at) := StepAt(s.labels, key);
    var r := Insert(s, key, leaf, mid);
    assert Edges(r) == Edges(s)[i := Edge(s.labels[i][..at], mid)];
    var fork := SplitShape(s.labels[i], s.subs[i], key, at, leaf, mid);
    assert Edges(fork) == h[mid];
    if at != |key| { assert Matches(Leaf(leaf), h); }
    assert Matches(fork, h);
  }

  // ---------------------------------------------------------------- which keys there are

  /** The edges before one let pass what is found below it. */
  lemma EarlierPass<N>(s: Shape<N>, root: bool, i: nat, rest: Key)
    requires Wf(s, root) && i < |s.subs| && (rest == [] || Find(s.subs[i], rest).Some?)
    ensures forall j | 0 <= j < i :: Passes(s.labels[j], s.labels[i] + rest)
  {
    hide StepFrom, CommonPrefix, Nodes, SubNodes, Wf;
    WfParts(s, root);
    if s.labels[i] == [] && rest != [] {
      assert s.labels[i] + rest == rest;
      WfParts(s.subs[i], false);
      var m := StepAt(s.subs[i].labels, rest).i;
      assert s.subs[i].labels[m][0] == rest[0];
      assert forall j | 0 <= j < i :: Passes(s.labels[j], s.subs[i].labels[m]);
    }
  }

  /** What is found below an edge is found by its label and the rest. */
  lemma FindThrough<N>(s: Shape<N>, root: bool, i: nat, rest: Key)
    requires Wf(s, root) && i < |s.subs| && (rest == [] || Find(s.subs[i], rest).Some?)
    ensures Find(s, s.labels[i] + rest) == if rest == [] then Some(s.subs[i].node) else Find(s.subs[i], rest)
  {
    hide StepFrom, CommonPrefix, Nodes, SubNodes, Wf;
    var l := s.labels[i];
    var key := l + rest;
    EarlierPass(s, root, i, rest);
    StepIs(s.labels, key, i);
    CommonPrefixIs(l, key, |l|);
    assert key[|l|..] == rest;
  }

  lemma WfParts<N>(s: Shape<N>, root: bool)
    requires Wf(s, root)
    ensures |s.labels| == |s.subs| && WfLabels(s.labels, root) && WfEmptyEdge(s)
    ensures forall i | 0 <= i < |s.subs| :: Wf(s.subs[i], false)
    ensures !root ==> Find(s, []).None?
    ensures forall i, k | 0 <= i < |s.subs| && 0 <= k < |s.subs[i].labels| :: s.subs[i].labels[k] != []
  {
  }

  /** Every node but the root is reached by a key. */
  lemma {:induction false} PathTo<N>(s: Shape<N>, root: bool, n: N) returns (key: Key)
    requires Wf(s, root) && n in SubNodes(s.subs)
    ensures Find(s, key) == Some(n)
    decreases s
  {
    hide StepFrom, CommonPrefix, Wf;
    WfParts(s, root);
    var i :| 0 <= i < |s.subs| && n in Nodes(s.subs[i]);
    var rest: Key := [];
    if n != s.subs[i].node {
      rest := PathTo(s.subs[i], false, n);
      WfParts(s.subs[i], false);
    }
    key := s.labels[i] + rest;
    FindThrough(s, root, i, rest);
  }

  /** The key ends at a node or inside a label. */
  predicate Crowded<N>(s: Shape<N>, key: Key)
    requires Even(s)
    decreases s
  {
    match StepAt(s.labels, key)
    case Found(_) => true
    case Down(i) => Crowded(s.subs[i], key[|s.labels[i]|..])
    case Split(_, at) => at == |key|
    case NewEdge => false
  }

  /** Every node below the root has data or edges. */
  ghost predicate Full<N>(s: Shape<N>, root: bool, filled: set<N>)
    decreases s
  {
    (root || s.node in filled || s.subs != []) && forall i | 0 <= i < |s.subs| :: Full(s.subs[i], false, filled)
  }

  ghost predicate Stored<N>(s: Shape<N>, filled: set<N>, key: Key)
    requires Even(s)
  {
    Find(s, key).Some? && Find(s, key).value in filled
  }

  /** A node or one below it has data. */
  lemma {:induction false} FilledBelow<N>(s: Shape<N>, filled: set<N>) returns (rest: Key)
    requires Wf(s, false) && Full(s, false, filled)
    ensures if rest == [] then s.node in filled else Stored(s, filled, rest)
    decreases s
  {
    hide StepFrom, CommonPrefix, Nodes, SubNodes;
    rest := [];
    if s.node !in filled {
      var below := FilledBelow(s.subs[0], filled);
      FindThrough(s, false, 0, below);
      rest := s.labels[0] + below;
      assert s.labels[0] != [];
    }
  }

  /** A key that ends in the tree has a key with data that it is a prefix of. */
  lemma {:induction false} CrowdedBy<N>(s: Shape<N>, root: bool, filled: set<N>, key: Key) returns (longer: Key)
    requires Wf(s, root) && Full(s, root, filled) && Crowded(s, key)
    ensures (key == longer || key < longer) && Stored(s, filled, longer)
    decreases s
  {
    hide StepFrom, CommonPrefix, Nodes, SubNodes;
    var step := StepAt(s.labels, key);
    var sub, l := s.subs[step.i], s.labels[step.i];
    var rest: Key;
    if step.Down? {
      rest := CrowdedBy(sub, false, filled, key[|l|..]);
      assert l + key[|l|..] == key;
      WfParts(sub, false);
    } else {
      rest := FilledBelow(sub, filled);
    }
    longer := l + rest;
    FindThrough(s, root, step.i, rest);
    assert |longer| == |key| ==> longer == longer[..|key|];
  }

  /** A key that is a proper prefix of a key in the tree ends in the tree. */
  lemma {:induction false} PrefixIsCrowded<N>(s: Shape<N>, root: bool, key: Key, longer: Key)
    requires Wf(s, root) && key != [] && key < longer && Find(s, longer).Some?
    ensures Crowded(s, key)
    decreases s
  {
    hide StepFrom, CommonPrefix, Nodes, SubNodes;
    var i := StepAt(s.labels, longer).i;
    var l := s.labels[i];
    assert l <= longer && key[0] == longer[0];
    StepIs(s.labels, key, i);
    if |l| < |key| {
      CommonPrefixIs(l, key, |l|);
      PrefixIsCrowded(s.subs[i], false, key[|l|..], longer[|l|..]);
    } else {
      CommonPrefixIs(l, key, |key|);
    }
  }

  /**
   * A key without data ends in the tree exactly when it is a proper prefix of a
   * key that has data.
   */
  lemma CrowdedMeansPrefix<N>(s: Shape<N>, filled: set<N>, key: Key)
    requires Wf(s, true) && Full(s, true, filled) && key != [] && !Stored(s, filled, key)
    ensures Crowded(s, key) <==> exists longer :: key < longer && Stored(s, filled, longer)
  {
    hide Crowded, Find, Wf, Full;
    if Crowded(s, key) {
      var longer := CrowdedBy(s, true, filled, key);
    }
    forall longer | key < longer && Stored(s, filled, longer) ensures Crowded(s, key) {
      PrefixIsCrowded(s, true, key, longer);
    }
  }

  // ---------------------------------------------------------------- scanning without splits

  /** Scans the edges for an exact match or a label to descend along, past any other. */
  function SeekFrom(labels: seq<Key>, key: Key, i: nat): (s: Step)
    requires i <= |labels|
    ensures !s.Split? && (s.NewEdge? || i <= s.i < |labels|) && (s.Down? ==> |labels[s.i]| < |key|)
    decreases |labels| - i
  {
    if i == |labels| then NewEdge else
      var n := CommonPrefix(labels[i], key);
      if n == |key| && |key| == |labels[i]| then Found(i)
      else if n == |labels[i]| && |labels[i]| < |key| then Down(i)
      else SeekFrom(labels, key, i + 1)
  }

  lemma {:induction false} SeekPasses(labels: seq<Key>, key: Key, i: nat, j: nat)
    requires i <= j <= |labels| && forall m | i <= m < j :: Passes(labels[m], key)
    ensures SeekFrom(labels, key, i) == SeekFrom(labels, key, j)
    decreases j - i
  {
    if i < j { SeekPasses(labels, key, i + 1, j); }
  }

  /** Scanning past common prefixes finds the same nodes: nothing else starts with the key's first byte. */
  lemma SeekFinds<N>(s: Shape<N>, root: bool, key: Key)
    requires Wf(s, root)
    ensures var step := SeekFrom(s.labels, key, 0);
            Find(s, key) == (if step.Found? then Some(s.subs[step.i].node)
                             else if step.Down? then Find(s.subs[step.i], key[|s.labels[step.i]|..])
                             else None)
  {
    hide StepFrom, CommonPrefix, Nodes, SubNodes;
    var step := StepAt(s.labels, key);
    if step.NewEdge? {
      SeekPasses(s.labels, key, 0, |s.labels|);
    } else {
      SeekPasses(s.labels, key, 0, step.i);
      if step.Split? { SeekPastSplit(s, root, key, step.i); }
    }
  }

  lemma SeekPastSplit<N>(s: Shape<N>, root: bool, key: Key, i: nat)
    requires Wf(s, root) && i < |s.labels| && s.labels[i] != [] && key != [] && s.labels[i][0] == key[0]
             && !(s.labels[i] <= key)
    ensures var step := SeekFrom(s.labels, key, i);
            step.NewEdge? || (step.Down? && Find(s.subs[step.i], key[|s.labels[step.i]|..]) == None)
  {
    hide StepFrom, CommonPrefix, Nodes, SubNodes, Wf, Find, WfEmptyEdge, SeekFrom;
    WfParts(s, root);
    var last := |s.labels| - 1;
    SeekSkips(s.labels, key, i);
    if s.labels[last] != [] {
      SeekPasses(s.labels, key, i + 1, |s.labels|);
      SeekEnds(s.labels, key);
    } else {
      SeekPasses(s.labels, key, i + 1, last);
      SeekEmpty(s.labels, key, last);
      assert key[0..] == key;
      EmptyEdgeMisses(s, key, i, last);
    }
  }

  lemma SeekSkips(labels: seq<Key>, key: Key, i: nat)
    requires i < |labels| && !(labels[i] <= key)
    ensures SeekFrom(labels, key, i) == SeekFrom(labels, key, i + 1)
  {
  }

  lemma SeekEnds(labels: seq<Key>, key: Key)
    ensures SeekFrom(labels, key, |labels|) == NewEdge
  {
  }

  lemma SeekEmpty(labels: seq<Key>, key: Key, i: nat)
    requires i < |labels| && labels[i] == [] && key != []
    ensures SeekFrom(labels, key, i) == Down(i)
  {
  }

  /** Below the empty edge nothing starts like a label beside it. */
  lemma EmptyEdgeMisses<N>(s: Shape<N>, key: Key, i: nat, last: nat)
    requires Even(s) && WfEmptyEdge(s) && i < last < |s.labels| && s.labels[last] == []
    requires s.labels[i] != [] && key != [] && s.labels[i][0] == key[0]
    requires forall k | 0 <= k < |s.subs[last].labels| :: s.subs[last].labels[k] != []
    ensures Find(s.subs[last], key) == None
  {
    hide StepFrom, CommonPrefix, Nodes, SubNodes;
    var sub := s.subs[last];
    assert forall k | 0 <= k < |sub.labels| :: Passes(s.labels[i], sub.labels[k]);
  }

  // ---------------------------------------------------------------- order of a walk

  function Size<N>(s: Shape<N>): (n: nat)
    ensures n > 0
    decreases s
  {
    1 + Sizes(s.subs)
  }

  function Sizes<N>(subs: seq<Shape<N>>): nat
    decreases subs
  {
    if subs == [] then 0 else Size(subs[0]) + Sizes(subs[1..])
  }

  lemma {:induction false} SizesConcat<N>(a: seq<Shape<N>>, b: seq<Shape<N>>)
    ensures Sizes(a + b) == Sizes(a) + Sizes(b)
  {
    if a == [] {
      assert a + b == b;
    } else {
      assert (a + b)[1..] == a[1..] + b;
      SizesConcat(a[1..], b);
    }
  }

  /** The nodes of a list of shapes, breadth first. */
  function Breadth<N>(queue: seq<Shape<N>>): (r: seq<N>)
    ensures queue == [] ==> r == []
    decreases Sizes(queue)
  {
    if queue == [] then [] else
      SizesConcat(queue[1..], queue[0].subs);
      assert Size(queue[0]) == 1 + Sizes(queue[0].subs);
      [queue[0].node] + Breadth(queue[1..] + queue[0].subs)
  }

  ghost predicate Apart<N>(queue: seq<Shape<N>>) {
    && (forall i, j | 0 <= i < j < |queue| :: Nodes(queue[i]) !! Nodes(queue[j]))
    && forall i | 0 <= i < |queue| :: Distinct(queue[i])
  }

  lemma SubNodesConcat<N>(a: seq<Shape<N>>, b: seq<Shape<N>>)
    ensures SubNodes(a + b) == SubNodes(a) + SubNodes(b)
  {
    hide Nodes;
    var r := a + b;
    forall n | n in SubNodes(a) + SubNodes(b) ensures n in SubNodes(r) {
      if n in SubNodes(a) {
        var j :| 0 <= j < |a| && n in Nodes(a[j]);
        assert r[j] == a[j];
      } else {
        var j :| 0 <= j < |b| && n in Nodes(b[j]);
        assert r[|a| + j] == b[j];
      }
    }
  }

  /** What is left in the queue after its first shape gave way to its parts. */
  lemma ApartNext<N>(queue: seq<Shape<N>>)
    requires queue != [] && Apart(queue)
    ensures Apart(queue[1..] + queue[0].subs)
    ensures SubNodes(queue) == {queue[0].node} + SubNodes(queue[1..] + queue[0].subs)
    ensures queue[0].node !in SubNodes(queue[1..] + queue[0].subs)
  {
    hide Nodes, SubNodes;
    var s, rest := queue[0], queue[1..];
    assert queue == [s] + rest;
    SubNodesConcat([s], rest);
    SubNodesConcat(rest, s.subs);
    NodesOfSub(s);
    SubNodesOfOne(s);
    NodesApart(queue);
    assert Distinct(s);
  }

  lemma SubNodesOfOne<N>(s: Shape<N>)
    ensures SubNodes([s]) == Nodes(s)
  {
    assert [s][0] == s;
  }

  lemma NodesApart<N>(queue: seq<Shape<N>>)
    requires queue != [] && Apart(queue)
    ensures Nodes(queue[0]) !! SubNodes(queue[1..])
    ensures forall i | 0 <= i < |queue[1..]| :: Nodes(queue[1..][i]) <= SubNodes(queue[1..])
  {
    hide Nodes;
  }

  ghost predicate NoRepeats<N>(order: seq<N>) {
    forall i, j | 0 <= i < j < |order| :: order[i] != order[j]
  }

  lemma NotBefore<N>(order: seq<N>, i: nat)
    requires NoRepeats(order) && i < |order|
    ensures order[i] !in order[..i]
  {
  }

  /** A walk meets every node once. */
  lemma {:induction false} BreadthOnce<N>(queue: seq<Shape<N>>)
    requires Apart(queue)
    ensures forall n :: n in Breadth(queue) <==> n in SubNodes(queue)
    ensures NoRepeats(Breadth(queue))
    decreases Sizes(queue)
  {
    hide Nodes, Apart;
    if queue != [] {
      var rest := queue[1..] + queue[0].subs;
      SizesConcat(queue[1..], queue[0].subs);
      assert Size(queue[0]) == 1 + Sizes(queue[0].subs);
      ApartNext(queue);
      BreadthOnce(rest);
    }
  }

  function Roots<N>(queue: seq<Shape<N>>): (r: seq<N>)
    ensures |r| == |queue|
  {
    seq(|queue|, i requires 0 <= i < |queue| => queue[i].node)
  }

  function Targets<N>(edges: seq<Edge<N>>): (r: seq<N>)
    ensures |r| == |edges|
  {
    seq(|edges|, i requires 0 <= i < |edges| => edges[i].target)
  }

  /** The shapes waiting in a walk are parts of the tree. */
  ghost predicate Waiting<N>(queue: seq<Shape<N>>, nodes: set<N>, g: map<N, seq<Edge<N>>>) {
    forall i | 0 <= i < |queue| :: Even(queue[i]) && Matches(queue[i], g) && Nodes(queue[i]) <= nodes
  }

  /** One step of a walk: the first node gives way to its targets. */
  lemma WalkStep<N>(queue: seq<Shape<N>>, nodes: set<N>, g: map<N, seq<Edge<N>>>)
    requires queue != [] && Waiting(queue, nodes, g)
    ensures var n, next := queue[0].node, queue[1..] + queue[0].subs;
            && n in nodes && n in g && Roots(queue)[0] == n && Roots(next) == Roots(queue)[1..] + Targets(g[n])
            && Waiting(next, nodes, g)
  {
    hide Nodes, SubNodes, Matches;
    NodesOfSub(queue[0]);
    MatchesParts(queue[0], g);
    var next := queue[1..] + queue[0].subs;
    forall i | 0 <= i < |next| ensures Even(next[i]) && Matches(next[i], g) && Nodes(next[i]) <= nodes {
      if i < |queue| - 1 {
        assert next[i] == queue[i + 1];
      } else {
        assert next[i] == queue[0].subs[i - (|queue| - 1)];
      }
    }
  }

  lemma WalkOrder<N>(queue: seq<Shape<N>>)
    requires queue != []
    ensures var next := queue[1..] + queue[0].subs;
            Breadth(queue) == [queue[0].node] + Breadth(next) && Sizes(next) < Sizes(queue)
  {
    SizesConcat(queue[1..], queue[0].subs);
    assert Size(queue[0]) == 1 + Sizes(queue[0].subs);
  }

  /** The members of a list that belong to a set, in order. */
  ghost function Among<N>(order: seq<N>, chosen: set<N>): (r: seq<N>)
    ensures forall n | n in r :: n in order && n in chosen
    ensures forall n | n in order && n in chosen :: n in r
    ensures order == [] ==> r == []
  {
    if order == [] then [] else
      var before, last := Among(order[..|order| - 1], chosen), order[|order| - 1];
      assert order == order[..|order| - 1] + [last];
      if last in chosen then before + [last] else before
  }

  lemma AmongStep<N>(order: seq<N>, chosen: set<N>, i: nat)
    requires i < |order|
    ensures Among(order[..i + 1], chosen) == Among(order[..i], chosen) + if order[i] in chosen then [order[i]] else []
  {
    assert order[..i + 1][..i] == order[..i];
  }

  lemma {:induction false} AmongPrefix<N>(order: seq<N>, chosen: set<N>, i: nat)
    requires i <= |order|
    ensures Among(order[..i], chosen) <= Among(order, chosen)
  {
    if i < |order| {
      var shorter := order[..|order| - 1];
      AmongPrefix(shorter, chosen, i);
      assert shorter[..i] == order[..i];
    } else {
      assert order[..i] == order;
    }
  }

  lemma {:induction false} AmongNoRepeats<N>(order: seq<N>, chosen: set<N>)
    requires NoRepeats(order)
    ensures NoRepeats(Among(order, chosen))
  {
    if order != [] {
      var n := |order| - 1;
      assert order[..n + 1] == order;
      AmongNoRepeats(order[..n], chosen);
      AmongStep(order, chosen, n);
      NotBefore(order, n);
    }
  }

  // ---------------------------------------------------------------- copies

  /** The copy of a node. */
  ghost function Name<N>(names: map<N, N>, n: N): N {
    if n in names then names[n] else n
  }

  /** The same shape made of other nodes. */
  ghost function Renamed<N>(s: Shape<N>, names: map<N, N>): (r: Shape<N>)
    ensures |r.subs| == |s.subs| && r.labels == s.labels && r.node == Name(names, s.node)
    ensures forall i | 0 <= i < |s.subs| :: r.subs[i] == Renamed(s.subs[i], names)
    decreases s
  {
    Shape(Name(names, s.node), s.labels, seq(|s.subs|, i requires 0 <= i < |s.subs| => Renamed(s.subs[i], names)))
  }

  ghost predicate Injective<N>(nodes: set<N>, names: map<N, N>) {
    forall a, b | a in nodes && b in nodes :: a != b ==> Name(names, a) != Name(names, b)
  }

  ghost function Image<N>(nodes: set<N>, names: map<N, N>): set<N> {
    set n | n in nodes :: Name(names, n)
  }

  lemma {:induction false} RenamedWf<N>(s: Shape<N>, root: bool, names: map<N, N>)
    requires Wf(s, root)
    ensures Wf(Renamed(s, names), root)
    decreases s
  {
    hide Nodes, SubNodes, Renamed;
    var r := Renamed(s, names);
    forall i | 0 <= i < |s.subs| ensures Wf(r.subs[i], false) && r.subs[i].labels == s.subs[i].labels {
      RenamedWf(s.subs[i], false, names);
    }
  }

  lemma {:induction false} RenamedNodes<N>(s: Shape<N>, names: map<N, N>)
    ensures Nodes(Renamed(s, names)) == Image(Nodes(s), names)
    ensures SubNodes(Renamed(s, names).subs) == Image(SubNodes(s.subs), names)
    decreases s
  {
    hide Renamed;
    var r := Renamed(s, names);
    forall i | 0 <= i < |s.subs| ensures Nodes(r.subs[i]) == Image(Nodes(s.subs[i]), names) {
      RenamedNodes(s.subs[i], names);
    }
    RenamedParts(s.subs, r.subs, names);
  }

  lemma RenamedParts<N>(subs: seq<Shape<N>>, now: seq<Shape<N>>, names: map<N, N>)
    requires |now| == |subs| && forall i | 0 <= i < |subs| :: Nodes(now[i]) == Image(Nodes(subs[i]), names)
    ensures SubNodes(now) == Image(SubNodes(subs), names)
  {
    hide Nodes;
    forall m | m in SubNodes(now) ensures m in Image(SubNodes(subs), names) {
      var i :| 0 <= i < |now| && m in Nodes(now[i]);
      var n :| n in Nodes(subs[i]) && Name(names, n) == m;
      assert n in SubNodes(subs);
    }
    forall m | m in Image(SubNodes(subs), names) ensures m in SubNodes(now) {
      var n :| n in SubNodes(subs) && Name(names, n) == m;
      var i :| 0 <= i < |subs| && n in Nodes(subs[i]);
      assert m in Nodes(now[i]);
    }
  }

  lemma {:induction false} RenamedDistinct<N>(s: Shape<N>, names: map<N, N>)
    requires Distinct(s) && Injective(Nodes(s), names)
    ensures Distinct(Renamed(s, names))
    decreases s
  {
    hide Nodes, SubNodes, Renamed, Name;
    var r := Renamed(s, names);
    NodesOfSub(s);
    forall i | 0 <= i < |s.subs| ensures Distinct(r.subs[i]) && Nodes(r.subs[i]) == Image(Nodes(s.subs[i]), names) {
      RenamedDistinct(s.subs[i], names);
      RenamedNodes(s.subs[i], names);
    }
    RenamedNodes(s, names);
  }

  /** A key leads to the copy of the node it led to. */
  lemma {:induction false} RenamedFind<N>(s: Shape<N>, names: map<N, N>, key: Key)
    requires Even(s) && Even(Renamed(s, names))
    ensures var n := Find(s, key); Find(Renamed(s, names), key) == if n.None? then None else Some(Name(names, n.value))
    decreases s
  {
    hide Nodes, SubNodes, Renamed, StepFrom, CommonPrefix, Name;
    var step := StepAt(s.labels, key);
    if step.Down? { RenamedFind(s.subs[step.i], names, key[|s.labels[step.i]|..]); }
  }

  ghost function RenamedEdges<N>(edges: seq<Edge<N>>, names: map<N, N>): (r: seq<Edge<N>>)
    ensures |r| == |edges|
  {
    seq(|edges|, i requires 0 <= i < |edges| => Edge(edges[i].prefix, Name(names, edges[i].target)))
  }

  /** The copies' edges lead to copies. */
  ghost predicate EdgesCopied<N>(nodes: set<N>, names: map<N, N>, g: map<N, seq<Edge<N>>>, h: map<N, seq<Edge<N>>>) {
    forall n | n in nodes :: n in g && Name(names, n) in h && h[Name(names, n)] == RenamedEdges(g[n], names)
  }

  lemma {:induction false} RenamedMatches<N>(s: Shape<N>, names: map<N, N>, g: map<N, seq<Edge<N>>>,
                                             h: map<N, seq<Edge<N>>>)
    requires Even(s) && Matches(s, g) && EdgesCopied(Nodes(s), names, g, h) && Even(Renamed(s, names))
    ensures Matches(Renamed(s, names), h)
    decreases s
  {
    hide Nodes, SubNodes, Renamed, Name;
    var r := Renamed(s, names);
    NodesOfSub(s);
    forall i | 0 <= i < |s.subs| ensures Matches(r.subs[i], h) {
      RenamedMatches(s.subs[i], names, g, h);
    }
    assert Edges(r) == RenamedEdges(Edges(s), names);
  }

  lemma {:induction false} RenamedFull<N>(s: Shape<N>, root: bool, names: map<N, N>, filled: set<N>, copied: set<N>)
    requires Full(s, root, filled) && forall n | n in filled :: Name(names, n) in copied
    ensures Full(Renamed(s, names), root, copied)
    decreases s
  {
    hide Nodes, SubNodes, Renamed;
    var r := Renamed(s, names);
    forall i | 0 <= i < |s.subs| ensures Full(r.subs[i], false, copied) {
      RenamedFull(s.subs[i], false, names, filled, copied);
    }
  }

  /** Names for some more nodes. */
  ghost function Extend<N>(names: map<N, N>, targets: seq<N>, copies: seq<N>): (r: map<N, N>)
    requires |targets| == |copies|
  {
    map n | n in names.Keys + (set t | t in targets) ::
      if n in targets then (var i :| 0 <= i < |targets| && targets[i] == n; copies[i]) else names[n]
  }

  lemma ExtendIs<N>(names: map<N, N>, targets: seq<N>, copies: seq<N>)
    requires |targets| == |copies| && NoRepeats(targets)
    ensures var r := Extend(names, targets, copies);
            && r.Keys == names.Keys + (set t | t in targets)
            && (forall i | 0 <= i < |targets| :: Name(r, targets[i]) == copies[i])
            && (forall n | n in names && n !in targets :: Name(r, n) == Name(names, n))
  {
  }

  /**
   * A copy in progress: the nodes done have copies whose edges lead to copies,
   * the nodes waiting in the queue have copies without edges.
   */
  ghost predicate Copying<N>(nodes: set<N>, queue: seq<Shape<N>>, done: set<N>, names: map<N, N>,
                             g: map<N, seq<Edge<N>>>, h: map<N, seq<Edge<N>>>) {
    && nodes == done + SubNodes(queue) && done !! SubNodes(queue) && Apart(queue)
    && names.Keys == done + (set m | m in Roots(queue)) && Injective(names.Keys, names)
    && (forall n | n in names :: Name(names, n) in h)
    && EdgesCopied(done, names, g, h)
    && (forall n | n in done :: forall e | e in g[n] :: e.target in names)
    && (forall n | n in names && n !in done :: h[Name(names, n)] == [])
  }

  /** The edges of a copy of a node. */
  function CopiedEdges<N>(edges: seq<Edge<N>>, copies: seq<N>): seq<Edge<N>>
    requires |edges| == |copies|
  {
    seq(|edges|, i requires 0 <= i < |edges| => Edge(edges[i].prefix, copies[i]))
  }

  lemma RootsIn<N>(queue: seq<Shape<N>>)
    requires Apart(queue)
    ensures NoRepeats(Roots(queue)) && forall m | m in Roots(queue) :: m in SubNodes(queue)
  {
    hide SubNodes, Nodes;
    forall i | 0 <= i < |queue| ensures queue[i].node in Nodes(queue[i]) && Nodes(queue[i]) <= SubNodes(queue) {
      NodesOfSub(queue[i]);
      SubNodesHas(queue, i);
    }
  }

  lemma SubNodesHas<N>(queue: seq<Shape<N>>, i: nat)
    requires i < |queue|
    ensures Nodes(queue[i]) <= SubNodes(queue)
  {
  }

  /** The parts of the first waiting shape have no copies yet. */
  lemma PartsAreNew<N>(nodes: set<N>, queue: seq<Shape<N>>, done: set<N>, names: map<N, N>,
                       g: map<N, seq<Edge<N>>>, h: map<N, seq<Edge<N>>>)
    requires Copying(nodes, queue, done, names, g, h) && queue != []
    ensures NoRepeats(Roots(queue[0].subs)) && forall t | t in Roots(queue[0].subs) :: t !in names
    ensures Apart(queue[0].subs)
  {
    hide SubNodes, Nodes;
    var s := queue[0];
    assert Apart(s.subs) by { assert Distinct(s); }
    RootsIn(s.subs);
    NodesOfSub(s);
    NodesApart(queue);
    SubNodesHas(queue, 0);
    forall t | t in Roots(s.subs) ensures t !in names {
      if t in names && t !in done {
        var j :| 0 <= j < |queue| && t == Roots(queue)[j];
        NodesOfSub(queue[j]);
      }
    }
  }

  /** The keys of the new names. */
  lemma CopyKeys<N>(queue: seq<Shape<N>>, done: set<N>, names: map<N, N>, targets: seq<N>, copies: seq<N>)
    requires queue != [] && |targets| == |copies| && NoRepeats(targets) && targets == Roots(queue[0].subs)
    requires names.Keys == done + (set m | m in Roots(queue))
    ensures Extend(names, targets, copies).Keys
            == (done + {queue[0].node}) + (set m | m in Roots(queue[1..] + queue[0].subs))
  {
    hide Extend;
    ExtendIs(names, targets, copies);
    var n, next := queue[0].node, queue[1..] + queue[0].subs;
    assert Roots(queue) == [n] + Roots(queue[1..]);
    assert Roots(next) == Roots(queue[1..]) + targets;
  }

  /** New names keep the old copies and tell all copies apart. */
  lemma CopyNames<N>(names: map<N, N>, targets: seq<N>, copies: seq<N>, h: map<N, seq<Edge<N>>>)
    requires |targets| == |copies| && NoRepeats(targets) && NoRepeats(copies) && Injective(names.Keys, names)
    requires (forall t | t in targets :: t !in names) && (forall c | c in copies :: c !in h)
    requires forall n | n in names :: Name(names, n) in h
    ensures var r := Extend(names, targets, copies);
            && Injective(r.Keys, r)
            && (forall n | n in names :: n in r && Name(r, n) == Name(names, n))
            && (forall i | 0 <= i < |targets| :: targets[i] in r && Name(r, targets[i]) == copies[i])
            && (forall n | n in r && n !in names :: exists i :: 0 <= i < |targets| && n == targets[i])
  {
    hide Extend, Name;
    ExtendIs(names, targets, copies);
    var r := Extend(names, targets, copies);
    forall a, b | a in r && b in r && a != b ensures Name(r, a) != Name(r, b) {
      if a !in names { var i :| 0 <= i < |targets| && a == targets[i]; }
      if b !in names { var j :| 0 <= j < |targets| && b == targets[j]; }
    }
  }

  /** The edges after one more node was copied. */
  ghost predicate OneCopied<N>(copy: N, edges: seq<Edge<N>>, copies: seq<N>, h: map<N, seq<Edge<N>>>,
                               now: map<N, seq<Edge<N>>>)
    requires |edges| == |copies|
  {
    && copy in now && now[copy] == CopiedEdges(edges, copies)
    && (forall c | c in copies :: c !in h && c in now && now[c] == [])
    && (forall m | m in h && m != copy :: m in now && now[m] == h[m])
  }

  lemma CopyStep<N>(nodes: set<N>, queue: seq<Shape<N>>, done: set<N>, names: map<N, N>,
                    g: map<N, seq<Edge<N>>>, h: map<N, seq<Edge<N>>>, now: map<N, seq<Edge<N>>>, copies: seq<N>)
    requires queue != [] && Copying(nodes, queue, done, names, g, h) && NoRepeats(copies)
    requires var s := queue[0];
             && |s.labels| == |s.subs| && s.node in g && g[s.node] == Edges(s) && |copies| == |s.subs|
             && OneCopied(Name(names, s.node), g[s.node], copies, h, now)
    ensures Copying(nodes, queue[1..] + queue[0].subs, done + {queue[0].node},
            Extend(names, Roots(queue[0].subs), copies), g, now)
  {
    hide SubNodes, Nodes, Extend, Name, Apart, Roots;
    var s, next, targets := queue[0], queue[1..] + queue[0].subs, Roots(queue[0].subs);
    var r, after := Extend(names, targets, copies), done + {s.node};
    ApartNext(queue);
    PartsAreNew(nodes, queue, done, names, g, h);
    CopyKeys(queue, done, names, targets, copies);
    CopyNames(names, targets, copies, h);
    assert s.node in names by { assert s.node in Roots(queue) by { RootsHead(queue); } }
    CopyEdgesStep(queue, done, names, g, h, now, copies);
  }

  lemma RootsHead<N>(queue: seq<Shape<N>>)
    requires queue != []
    ensures queue[0].node in Roots(queue)
  {
    assert Roots(queue)[0] == queue[0].node;
  }

  lemma CopyEdgesStep<N>(queue: seq<Shape<N>>, done: set<N>, names: map<N, N>,
                         g: map<N, seq<Edge<N>>>, h: map<N, seq<Edge<N>>>, now: map<N, seq<Edge<N>>>, copies: seq<N>)
    requires queue != [] && var s := queue[0];
             && |s.labels| == |s.subs| && s.node in g && g[s.node] == Edges(s) && |copies| == |s.subs|
             && OneCopied(Name(names, s.node), g[s.node], copies, h, now)
             && s.node in names && s.node !in done && done <= names.Keys
    requires Injective(names.Keys, names) && (forall n | n in names :: Name(names, n) in h)
             && EdgesCopied(done, names, g, h)
    requires (forall n | n in done :: forall e | e in g[n] :: e.target in names)
             && (forall n | n in names && n !in done :: h[Name(names, n)] == [])
    requires var r, targets := Extend(names, Roots(queue[0].subs), copies), Roots(queue[0].subs);
             && (forall n | n in names :: n in r && Name(r, n) == Name(names, n))
             && (forall i | 0 <= i < |targets| :: targets[i] in r && Name(r, targets[i]) == copies[i])
             && (forall n | n in r && n !in names :: exists i :: 0 <= i < |targets| && n == targets[i])
    ensures var r, after := Extend(names, Roots(queue[0].subs), copies), done + {queue[0].node};
            && (forall n | n in r :: Name(r, n) in now)
            && EdgesCopied(after, r, g, now)
            && (forall n | n in after :: forall e | e in g[n] :: e.target in r)
            && (forall n | n in r && n !in after :: now[Name(r, n)] == [])
  {
    hide Extend, Name;
    var s, targets := queue[0], Roots(queue[0].subs);
    var r, after := Extend(names, targets, copies), done + {s.node};
    forall n | n in r ensures Name(r, n) in now && (n !in after ==> now[Name(r, n)] == []) {
      if n !in names { var i :| 0 <= i < |targets| && n == targets[i]; }
    }
    forall i | 0 <= i < |g[s.node]| ensures g[s.node][i].target == targets[i] { EdgeAt(s, i); }
    assert RenamedEdges(g[s.node], r) == CopiedEdges(g[s.node], copies);
    forall n | n in done ensures n in g && now[Name(r, n)] == RenamedEdges(g[n], r)
      && forall e | e in g[n] :: e.target in r {
      assert RenamedEdges(g[n], r) == RenamedEdges(g[n], names) by {
        forall i | 0 <= i < |g[n]|
          ensures Name(r, g[n][i].target) == Name(names, g[n][i].target)
        {
          assert g[n][i] in g[n];
        }
      }
    }
  }

  /** A finished copy has the shape of the original. */
  lemma CopyDone<N>(s: Shape<N>, names: map<N, N>, g: map<N, seq<Edge<N>>>, h: map<N, seq<Edge<N>>>)
    requires Wf(s, true) && Distinct(s) && Matches(s, g) && Copying(Nodes(s), [], Nodes(s), names, g, h)
    ensures Wf(Renamed(s, names), true) && Distinct(Renamed(s, names)) && Matches(Renamed(s, names), h)
    ensures Nodes(Renamed(s, names)) == Image(Nodes(s), names)
  {
    hide SubNodes, Nodes, Name, Renamed, Wf, Distinct, Matches;
    RenamedWf(s, true, names);
    RenamedDistinct(s, names);
    RenamedNodes(s, names);
    RenamedMatches(s, names, g, h);
  }

  lemma CopyStarts<N>(s: Shape<N>, copy: N, g: map<N, seq<Edge<N>>>)
    requires Distinct(s)
    ensures Copying(Nodes(s), [s], {}, map[s.node := copy], g, map[copy := []])
  {
    SubNodesOfOne(s);
    assert Roots([s]) == [s.node];
  }

  /** The copies of a list of nodes. */
  ghost function Copies<N>(nodes: seq<N>, names: map<N, N>): (r: seq<N>)
    ensures |r| == |nodes|
  {
    seq(|nodes|, i requires 0 <= i < |nodes| => Name(names, nodes[i]))
  }

  /** The first waiting node has a copy without edges. */
  lemma HeadWaits<N>(nodes: set<N>, queue: seq<Shape<N>>, done: set<N>, names: map<N, N>,
                     g: map<N, seq<Edge<N>>>, h: map<N, seq<Edge<N>>>)
    requires queue != [] && Copying(nodes, queue, done, names, g, h)
    ensures var n := queue[0].node;
            n in names && names[n] in h && h[names[n]] == [] && Copies(Roots(queue), names)[0] == names[n]
  {
    hide SubNodes, Nodes;
    RootsHead(queue);
    RootsIn(queue);
  }

  /** New names name the targets by the new copies, and the rest as before. */
  lemma CopiesNext<N>(nodes: set<N>, queue: seq<Shape<N>>, done: set<N>, names: map<N, N>,
                      g: map<N, seq<Edge<N>>>, h: map<N, seq<Edge<N>>>, copies: seq<N>)
    requires queue != [] && Copying(nodes, queue, done, names, g, h) && |copies| == |queue[0].subs|
    ensures var targets := Roots(queue[0].subs);
            var r := Extend(names, targets, copies);
            && Copies(Roots(queue)[1..] + targets, r) == Copies(Roots(queue), names)[1..] + copies
            && (forall n | n in names :: n in r && r[n] == names[n])
            && (forall i | 0 <= i < |targets| :: targets[i] in r && r[targets[i]] == copies[i])
            && (forall n | n in r && n !in names :: exists i :: 0 <= i < |targets| && n == targets[i])
  {
    hide SubNodes, Nodes, Extend;
    PartsAreNew(nodes, queue, done, names, g, h);
    ExtendIs(names, Roots(queue[0].subs), copies);
    forall m | m in Roots(queue) ensures m in names {}
  }
}
