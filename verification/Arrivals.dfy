/**
 * The order in which keys come to the memstore, and what it does to their rows
 * (bytetree/bytetree.go, row_store.go).
 *
 * A key that comes after a longer one that starts with it splits an edge, and its
 * node is walked without a key.  A row that is only in memory then goes on under
 * the empty key.  The join of a file with memory is right exactly if no such row
 * lost its key (`NamedJoinIff`).
 */
module Arrivals {
  import opened Wrappers
  import opened RowJoin
  import RadixShapes

  /** The key came for the first time after a longer one that starts with it. */
  ghost predicate CameAfterLonger(keys: seq<Key>, key: Key) {
    exists i, l :: 0 <= i < |keys| && keys[i] == key && key !in keys[..i] && 0 <= l < i && key < keys[l]
  }

  lemma CameNext(keys: seq<Key>, last: Key, key: Key)
    ensures key in keys ==> (CameAfterLonger(keys + [last], key) <==> CameAfterLonger(keys, key))
    ensures last !in keys ==> (CameAfterLonger(keys + [last], last) <==> exists l :: 0 <= l < |keys| && last < keys[l])
  {
    var all := keys + [last];
    assert forall i | 0 <= i <= |keys| :: all[..i] == keys[..i];
    assert keys[..|keys|] == keys;
    if key in keys && CameAfterLonger(keys, key) {
      var i, l :| 0 <= i < |keys| && keys[i] == key && key !in keys[..i] && 0 <= l < i && key < keys[l];
      assert all[i] == key && key !in all[..i] && key < all[l];
    }
    if key in keys && CameAfterLonger(all, key) {
      var i, l :| 0 <= i < |all| && all[i] == key && key !in all[..i] && 0 <= l < i && key < all[l];
      assert keys[i] == key && key !in keys[..i] && key < keys[l];
    }
    if last !in keys && exists l :: 0 <= l < |keys| && last < keys[l] {
      var l :| 0 <= l < |keys| && last < keys[l];
      assert all[|keys|] == last && last !in all[..|keys|] && last < all[l];
    }
    if last !in keys && CameAfterLonger(all, last) {
      var i, l :| 0 <= i < |all| && all[i] == last && last !in all[..i] && 0 <= l < i && last < all[l];
      assert i == |keys| && last < keys[l];
    }
  }

  /** The empty key has no node to split, and is the name of rows without a key anyway. */
  ghost predicate IsLost(arrived: seq<Key>, key: Key): (lost: bool)
    ensures lost ==> key != []
  {
    key != [] && CameAfterLonger(arrived, key)
  }

  /** The key under which a row that is only in memory goes on. */
  ghost function NameOf(arrived: seq<Key>, key: Key): Key {
    if IsLost(arrived, key) then [] else key
  }

  ghost function NamesOf(arrived: seq<Key>, keys: seq<Key>): (r: seq<Key>)
    ensures |r| == |keys|
  {
    seq(|keys|, i requires 0 <= i < |keys| => NameOf(arrived, keys[i]))
  }

  function MemoryRow(j: Join, name: Key, cols: seq<Column>): (e: Emitted)
    requires WellFormed(j) && |cols| == |j.memFields|
    ensures KeyOf(e) == name && e.Joined? && |e.cols| == |j.outFields|
  {
    Joined(name, JoinedCols(j, NoCols(|j.fileFields|), Some(cols)))
  }

  /** What is passed on of rows that are only in memory, under the given names. */
  ghost function FromNamed(j: Join, keys: seq<Key>, names: seq<Key>, tree: Memory): (r: seq<Emitted>)
    requires WellFormed(j) && MemoryFits(j, tree) && |names| == |keys| && forall k | k in keys :: k in tree
    ensures |r| == |keys| && forall i | 0 <= i < |r| :: KeyOf(r[i]) == names[i]
  {
    seq(|keys|, i requires 0 <= i < |keys| => MemoryRow(j, names[i], tree[keys[i]]))
  }

  /** The keys of memory that the file does not have, in the order of a walk. */
  ghost function RestOf(rows: seq<Row>, order: seq<Key>): seq<Key> {
    Remaining(order, set k | k in Keys(rows))
  }

  /** All that an iteration passes on if keys came in some order. */
  ghost function NamedJoin(j: Join, raw: bool, rows: seq<Row>, tree: Memory,
                           arrived: seq<Key>, order: seq<Key>): seq<Emitted>
    requires WellFormed(j) && RowsFit(j, rows) && MemoryFits(j, tree) && IsOrder(order, tree)
  {
    FromFile(j, raw, rows, tree) + FromNamed(j, RestOf(rows, order), NamesOf(arrived, RestOf(rows, order)), tree)
  }

  /** No row that is only in memory lost its key. */
  ghost predicate NothingLost(rows: seq<Row>, tree: Memory, arrived: seq<Key>) {
    forall k | k in tree && k !in Keys(rows) :: !IsLost(arrived, k)
  }

  /** The iteration is the outer join of the file and memory exactly if no row that is only in memory lost its key. */
  lemma NamedJoinIff(j: Join, raw: bool, rows: seq<Row>, tree: Memory, arrived: seq<Key>, order: seq<Key>)
    requires WellFormed(j) && RowsFit(j, rows) && MemoryFits(j, tree) && IsOrder(order, tree)
    ensures NamedJoin(j, raw, rows, tree, arrived, order) == AllJoined(j, raw, rows, tree, order)
            <==> NothingLost(rows, tree, arrived)
  {
    hide WellFormed, FromFile, FromNamed, FromMemory, Remaining, IsLost, RadixShapes.NoRepeats;
    var rest := RestOf(rows, order);
    var file, left, right := FromFile(j, raw, rows, tree), FromNamed(j, rest, NamesOf(arrived, rest), tree),
      FromMemory(j, rest, tree);
    NamedIff(j, rest, arrived, tree);
    if file + left == file + right {
      assert left == (file + left)[|file|..] && right == (file + right)[|file|..];
    }
    assert (forall k | k in rest :: !IsLost(arrived, k)) <==> NothingLost(rows, tree, arrived);
  }

  lemma NamedIff(j: Join, rest: seq<Key>, arrived: seq<Key>, tree: Memory)
    requires WellFormed(j) && MemoryFits(j, tree) && forall k | k in rest :: k in tree
    ensures FromNamed(j, rest, NamesOf(arrived, rest), tree) == FromMemory(j, rest, tree)
            <==> forall k | k in rest :: !IsLost(arrived, k)
  {
    hide WellFormed, JoinedCols, IsLost;
    var left, right := FromNamed(j, rest, NamesOf(arrived, rest), tree), FromMemory(j, rest, tree);
    if left == right {
      forall k | k in rest ensures !IsLost(arrived, k) {
        var i :| 0 <= i < |rest| && rest[i] == k;
        assert KeyOf(left[i]) == NameOf(arrived, k) && KeyOf(right[i]) == k;
      }
    }
    if forall k | k in rest :: !IsLost(arrived, k) {
      forall i | 0 <= i < |rest| ensures left[i] == right[i] { assert rest[i] in rest; }
    }
  }
}
