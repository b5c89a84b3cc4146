/**
 * Copies of the tree share the rows of their nodes (bytetree.go, row_store.go).
 *
 * A node holds a slice of sequences, one for each field.  `Tree.Copy` makes new
 * nodes but keeps the slices, and an update writes into the slice of its node.
 * So a copy, which queries read while inserts go on, is no snapshot: its keys
 * stay those of the moment it was made, but the rows of these keys go on to
 * change with the tree (`CopyFollows`, `CopyChangesIff`).
 */
module SharedRows {
  import opened Wrappers
  import opened ByteTree
  import opened RadixShapes

  /** Every key has a row of its own, with n fields. */
  ghost predicate Separate<V>(t: Tree<array<V>>, n: nat)
    reads t, t.repr
  {
    && (forall k | t.Value(k).Some? :: t.Value(k).value.Length == n)
    && forall k, l | k != l && t.Value(k).Some? :: t.Value(k) != t.Value(l)
  }

  /** The row of a key. */
  ghost function RowAt<V>(t: Tree<array<V>>, k: Key): Option<seq<V>>
    reads t, t.repr, if t.Value(k).Some? then {t.Value(k).value} else {}
  {
    if t.Value(k).Some? then Some(t.Value(k).value[..]) else None
  }

  /** A row after an update of all of its fields; a missing row starts out blank. */
  function Updated<V>(row: Option<seq<V>>, n: nat, blank: V, update: (nat, V) -> V): (r: seq<V>)
    ensures |r| == n
  {
    seq(n, o requires 0 <= o < n => update(o, if row.Some? && o < |row.value| then row.value[o] else blank))
  }

  /** node.doUpdate: writes the updated fields into the slice of the node. */
  method UpdateFields<V>(data: array<V>, update: (nat, V) -> V)
    modifies data
    ensures forall o | 0 <= o < data.Length :: data[o] == update(o, old(data[o]))
  {
    for o := 0 to data.Length
      invariant forall i | 0 <= i < data.Length :: data[i] == if i < o then update(i, old(data[i])) else old(data[i])
    {
      data[o] := update(o, data[o]);
    }
  }

  /** Tree.Update up to the update of the node: the slice of the key, or a new one. */
  method Place<V>(t: Tree<array<V>>, key: Key, n: nat, blank: V) returns (data: array<V>)
    requires t.Valid() && Separate(t, n)
    modifies t, t.repr
    ensures t.Valid() && Separate(t, n) && old(t.repr) <= t.repr && fresh(t.repr - old(t.repr))
    ensures forall k | old(t.Value(k)).Some? :: t.Value(k) == old(t.Value(k)) && t.Reported(k) == old(t.Reported(k))
    ensures forall k | k != key :: t.Value(k) == old(t.Value(k))
    ensures t.Value(key) == Some(data) && data.Length == n
    ensures old(t.Value(key)).None? ==> fresh(data) && forall o | 0 <= o < n :: data[o] == blank
  {
    hide Crowded, Find, Nodes, SubNodes, Sound, Tree.Value, Tree.Reported, Tree.NodeAt, Tree.Valid;
    var was := RowIfAny(t, key);
    var blanks := NewRow(t, n, blank);
    data := if was.Some? then was.value else blanks;
    var _ := t.Update(key, (was: Option<array<V>>) => if was.Some? then was.value else blanks);
  }

  /** Tree.Update with rows in place: the row of the key changes where it is, or is a new one. */
  method UpdateRow<V>(t: Tree<array<V>>, key: Key, n: nat, blank: V, update: (nat, V) -> V)
    requires t.Valid() && Separate(t, n)
    modifies t, t.repr, if t.Value(key).Some? then {t.Value(key).value} else {}
    ensures t.Valid() && Separate(t, n) && old(t.repr) <= t.repr && fresh(t.repr - old(t.repr))
    ensures forall k | old(t.Value(k)).Some? :: t.Value(k) == old(t.Value(k)) && t.Reported(k) == old(t.Reported(k))
    ensures forall k | k != key :: t.Value(k) == old(t.Value(k))
    ensures t.Value(key).Some? && (old(t.Value(key)).None? ==> fresh(t.Value(key).value))
    ensures t.Value(key).value[..] == Updated(old(RowAt(t, key)), n, blank, update)
  {
    hide Crowded, Find, Nodes, SubNodes, Sound, Tree.Reported, Tree.Valid;
    var data := Place(t, key, n, blank);
    assert old(t.Value(key)).Some? ==> data[..] == old(RowAt(t, key)).value;
    label before:
    UpdateFields(data, update);
    SameTree@before(t);
    assert data[..] == Updated(old(RowAt(t, key)), n, blank, update);
    assert t.Value(key) == Some(data);
  }

  /** Writing into a row changes nothing about the nodes. */
  twostate lemma SameTree<V>(t: Tree<array<V>>)
    requires unchanged(t) && unchanged(t.repr)
    ensures old(t.Valid()) == t.Valid() && forall k ::
            t.Value(k) == old(t.Value(k)) && t.Reported(k) == old(t.Reported(k))
  {
  }

  /** A blank row that no key has yet. */
  method NewRow<V>(t: Tree<array<V>>, n: nat, blank: V) returns (blanks: array<V>)
    ensures fresh(blanks) && blanks.Length == n && (forall o | 0 <= o < n :: blanks[o] == blank)
            && forall k :: t.Value(k) != Some(blanks)
  {
    blanks := new V[n](_ => blank);
  }

  /** The slice of a key's node, if it has one. */
  method RowIfAny<V>(t: Tree<array<V>>, key: Key) returns (data: Option<array<V>>)
    requires t.Valid()
    ensures data == t.Value(key)
  {
    hide Nodes, SubNodes, Sound, Find;
    var node := t.Lookup(key);
    NodesOfSub(t.shape);
    data := if node.None? then None else node.value.data;
  }

  // ---------------------------------------------------------------- copies

  /** One update: a key, and what to do with each field. */
  datatype Write<!V> = Write(key: Key, update: (nat, V) -> V)

  /** A row of a key after all updates of that key. */
  function Replayed<V>(row: Option<seq<V>>, writes: seq<Write<V>>, k: Key, n: nat, blank: V): Option<seq<V>> {
    if writes == [] then row else
      var last := |writes| - 1;
      var before := Replayed(row, writes[..last], k, n, blank);
      if writes[last].key == k then Some(Updated(before, n, blank, writes[last].update)) else before
  }

  /** The copy has the rows of the tree, for the keys that it has. */
  ghost predicate Views<V>(cp: Tree<array<V>>, t: Tree<array<V>>)
    reads cp, cp.repr, t, t.repr
  {
    cp != t && cp.repr !! t.repr && forall k | cp.Value(k).Some? :: t.Value(k) == cp.Value(k)
  }

  /**
   * One update of a tree after a copy was made.  The keys of the copy stay as
   * they are, and so do the keys it reports; its rows are those of the tree.
   */
  method UpdateCopied<V>(t: Tree<array<V>>, cp: Tree<array<V>>, w: Write<V>, n: nat, blank: V)
    requires t.Valid() && Separate(t, n) && cp.Valid() && Views(cp, t)
    modifies t, t.repr, if t.Value(w.key).Some? then {t.Value(w.key).value} else {}
    ensures t.Valid() && Separate(t, n) && cp.Valid() && Views(cp, t) && fresh(t.repr - old(t.repr))
    ensures forall k :: cp.Value(k) == old(cp.Value(k)) && cp.Reported(k) == old(cp.Reported(k))
    ensures forall k :: RowAt(t, k) == if k == w.key then Some(Updated(old(RowAt(t, k)), n, blank, w.update))
            else old(RowAt(t, k))
    ensures forall k | t.Value(k).Some? :: t.Value(k) == old(t.Value(k)) || fresh(t.Value(k).value)
    ensures forall k | cp.Value(k).Some? :: RowAt(cp, k) == RowAt(t, k)
  {
    hide Crowded, Find, Nodes, SubNodes, Sound, Tree.Reported, Tree.Valid, Updated;
    UpdateRow(t, w.key, n, blank, w.update);
  }

  /** The rows of all keys. */
  ghost function Arrays<V>(t: Tree<array<V>>): (r: set<array<V>>)
    reads t, t.repr
  {
    set m | m in t.repr && m.data.Some? :: m.data.value
  }

  lemma ValueIsInArrays<V>(t: Tree<array<V>>, k: Key)
    requires t.Value(k).Some?
    ensures t.Value(k).value in Arrays(t)
  {
  }

  /**
   * A copy of the tree, and any updates of the tree after it was made.  The copy
   * goes on to have the keys it was made with, reported as they were; but a row
   * that it has is that of the tree after all updates.
   */
  method CopyFollows<V>(t: Tree<array<V>>, writes: seq<Write<V>>, n: nat, blank: V) returns (cp: Tree<array<V>>)
    requires t.Valid() && Separate(t, n)
    modifies t, t.repr, Arrays(t)
    ensures t.Valid() && Separate(t, n) && cp.Valid() && fresh(cp)
    ensures forall k :: cp.Value(k) == old(t.Value(k)) && cp.Reported(k) == old(t.Reported(k))
    ensures forall k :: RowAt(t, k) == Replayed(old(RowAt(t, k)), writes, k, n, blank)
    ensures forall k :: RowAt(cp, k) == if old(t.Value(k)).Some? then Replayed(old(RowAt(t, k)), writes, k, n, blank)
            else None
  {
    hide Crowded, Find, Nodes, SubNodes, Sound, Tree.Reported, Tree.Valid, Updated, Tree.Value, Tree.NodeAt;
    ghost var rows := Arrays(t);
    forall k | t.Value(k).Some? ensures t.Value(k).value in rows { ValueIsInArrays(t, k); }
    cp := t.Copy();
    for i := 0 to |writes|
      invariant t.Valid() && Separate(t, n) && cp.Valid() && Views(cp, t) && fresh(t.repr - old(t.repr))
      invariant forall k :: cp.Value(k) == old(t.Value(k)) && cp.Reported(k) == old(t.Reported(k))
      invariant forall k | t.Value(k).Some? :: t.Value(k).value in rows || fresh(t.Value(k).value)
      invariant forall k :: RowAt(t, k) == Replayed(old(RowAt(t, k)), writes[..i], k, n, blank)
    {
      var w := writes[i];
      assert writes[..i + 1][..i] == writes[..i];
      UpdateCopied(t, cp, w, n, blank);
    }
    assert writes[..|writes|] == writes;
  }

  /**
   * A copy's row changes with an update exactly if it is of the updated key, was
   * there when copied, and the update changes it.
   */
  method CopyChangesIff<V>(t: Tree<array<V>>, w: Write<V>, n: nat, blank: V) returns (cp: Tree<array<V>>)
    requires t.Valid() && Separate(t, n)
    modifies t, t.repr, if t.Value(w.key).Some? then {t.Value(w.key).value} else {}
    ensures cp.Valid() && forall k :: cp.Value(k) == old(t.Value(k)) && cp.Reported(k) == old(t.Reported(k))
    ensures forall k :: RowAt(cp, k) != old(RowAt(t, k))
                        <==> k == w.key && old(t.Value(k)).Some?
                              && Updated(old(RowAt(t, k)), n, blank, w.update) != old(RowAt(t, k)).value
  {
    hide Crowded, Find, Nodes, SubNodes, Sound, Tree.Reported, Tree.Valid, Updated;
    cp := t.Copy();
    UpdateCopied(t, cp, w, n, blank);
  }

  /** A tree in which one key has a row of one 0. */
  method OneRow(key: Key) returns (t: Tree<array<int>>)
    ensures fresh(t) && fresh(t.repr) && t.Valid() && Separate(t, 1) && t.Value(key).Some? && fresh(t.Value(key).value)
    ensures RowAt(t, key) == Some([0])
  {
    hide Crowded, Find, Nodes, SubNodes, Sound, Tree.Reported, Tree.Valid, Updated, Tree.Value, Tree.NodeAt;
    t := new Tree<array<int>>();
    UpdateRow(t, key, 1, 0, (o, v) => v);
    UpdatedOne(None, 0, (o, v) => v);
  }

  /** A copy of that tree, and an update by 1: the copy then has 1. */
  method CopyIsNoSnapshot() returns (cp: Tree<array<int>>)
    ensures cp.Valid() && RowAt(cp, [7]) == Some([1])
  {
    hide Crowded, Find, Nodes, SubNodes, Sound, Tree.Reported, Tree.Valid, Updated;
    var t := OneRow([7]);
    var w := Write([7], (o, v: int) => v + 1);
    UpdatedOne(Some([0]), 0, w.update);
    cp := t.Copy();
    UpdateCopied(t, cp, w, 1, 0);
  }

  lemma UpdatedOne<V>(row: Option<seq<V>>, blank: V, update: (nat, V) -> V)
    requires row.Some? ==> |row.value| == 1
    ensures Updated(row, 1, blank, update) == [update(0, if row.Some? then row.value[0] else blank)]
  {
  }
}
