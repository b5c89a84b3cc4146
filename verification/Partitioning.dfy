/**
 * Pushing down queries over tables that group their entries (planner/cluster.go,
 * insert.go, cluster_follow.go).
 *
 * Entries go to partitions by their own dimensions, and only then does a table
 * reslice them by its GROUP BY.  So a table is one more level at the bottom, which
 * the check for pushdown does not look at.  What is accepted is right for a table
 * exactly if the partition keys that are left in its rows tell where entries went
 * (`AcceptedAreSafeIff`).
 */
module Partitioning {
  import opened Wrappers
  import Accumulators
  import opened Grouping
  import opened Pushdown

  type Dims = Accumulators.Dims

  /** The level of a table: without GROUP BY it takes the dimensions of entries as they are. */
  function TableOf(groupBy: seq<Expression>): (t: Query<int>)
    ensures NeedsGroup(t) && !t.crosstab && !t.ordered && t.from.None?
  {
    Query(false, groupBy, true, false, false, (key, rows, all) => Some(0), rows => rows, None)
  }

  /** A query over the entries of a table. */
  function Over(q: Query<int>, groupBy: seq<Expression>): (r: Query<int>)
    ensures r == q.(from := r.from) && r.from.Some?
    decreases q
  {
    q.(from := Some(if q.from.None? then TableOf(groupBy) else Over(q.from.value, groupBy)))
  }

  /** The key of the table's row that an entry goes into. */
  function TableKey(groupBy: seq<Expression>, d: Dims): Dims {
    SliceKey(Groups(groupBy), d)
  }

  lemma {:induction false} OverIs(q: Query<int>, groupBy: seq<Expression>)
    ensures (forall d :: FinalKey(Over(q, groupBy), d) == FinalKey(q, TableKey(groupBy, d)))
    ensures (Untrimmed(Over(q, groupBy)) <==> Untrimmed(q)) && (Uncrossed(Over(q, groupBy)) <==> Uncrossed(q))
    decreases q
  {
    hide GroupKey, SliceKey;
    TableKeyIs(groupBy);
    var r := Over(q, groupBy);
    if q.from.Some? { OverIs(q.from.value, groupBy); }
    forall d ensures FinalKey(r, d) == FinalKey(q, TableKey(groupBy, d)) { SameLevel(q, r, FinalKey(r.from.value, d)); }
  }

  lemma TableKeyIs(groupBy: seq<Expression>)
    ensures forall d :: FinalKey(TableOf(groupBy), d) == TableKey(groupBy, d)
  {
  }

  lemma SameLevel(q: Query<int>, r: Query<int>, d: Dims)
    requires r == q.(from := r.from)
    ensures KeyAt(r, d) == KeyAt(q, d)
  {
  }

  /**
   * Running the query on every partition is right for all entries of the table,
   * however they hash, and whatever rows hold and limits keep.
   */
  ghost predicate MayBePushed(q: Query<int>, groupBy: seq<Expression>, partitionBy: seq<string>) {
    IsSafe(Over(q, groupBy), partitionBy)
  }

  /** The outermost key tells the partition keys of the entries behind it. */
  ghost predicate TellsEntries(q: Query<int>, groupBy: seq<Expression>, partitionBy: seq<string>) {
    forall c, d | FinalKey(q, TableKey(groupBy, c)) == FinalKey(q, TableKey(groupBy, d)) :: SamePlace(c, d, partitionBy)
  }

  /**
   * A query over a table may be pushed down exactly when no subquery orders or
   * limits, no level is a crosstab, and outermost keys tell the partition keys of
   * the entries.
   */
  lemma PushedIff(q: Query<int>, groupBy: seq<Expression>, partitionBy: seq<string>)
    ensures MayBePushed(q, groupBy, partitionBy)
            <==> Untrimmed(q) && Uncrossed(q) && TellsEntries(q, groupBy, partitionBy)
  {
    hide IsSafe, Untrimmed, Uncrossed, FinalKey, TableKey, SamePlace, Over;
    OverIs(q, groupBy);
    SafeIff(Over(q, groupBy), partitionBy);
  }

  // ---------------------------------------------------------------- what tables keep

  /** Rows of the table that agree on the partition keys come from entries that do. */
  ghost predicate KeepsPlaces(groupBy: seq<Expression>, partitionBy: seq<string>) {
    forall c, d | SamePlace(TableKey(groupBy, c), TableKey(groupBy, d), partitionBy) :: SamePlace(c, d, partitionBy)
  }

  /**
   * For a table that keeps places, accepted queries without expressions next to `*`
   * may be pushed down exactly when no subquery orders or limits and none is a
   * crosstab.
   */
  lemma AllowedIsSafeIff(q: Query<int>, groupBy: seq<Expression>, partitionBy: seq<string>)
    requires WellFormed(q) && Allowed(q, partitionBy) && Unmixed(q) && KeepsPlaces(groupBy, partitionBy)
    ensures MayBePushed(q, groupBy, partitionBy) <==> Untrimmed(q) && Uncrossed(q)
  {
    hide MayBePushed, WellFormed, Untrimmed, Uncrossed, Unmixed, Accepts, TableKey, FinalKey, SamePlace;
    PushedIff(q, groupBy, partitionBy);
    if Uncrossed(q) {
      AcceptedTells(q, partitionBy);
      assert TellsEntries(q, groupBy, partitionBy);
    }
  }

  /** What is accepted and not known to be wrong by its own clauses. */
  ghost predicate Unsuspected(q: Query<int>, partitionBy: seq<string>) {
    WellFormed(q) && Allowed(q, partitionBy) && Unmixed(q) && Untrimmed(q) && Uncrossed(q)
  }

  /** All of these may be pushed down for a table exactly if it keeps places. */
  lemma AcceptedAreSafeIff(groupBy: seq<Expression>, partitionBy: seq<string>)
    ensures (forall q | Unsuspected(q, partitionBy) :: MayBePushed(q, groupBy, partitionBy))
            <==> KeepsPlaces(groupBy, partitionBy)
  {
    hide MayBePushed, TableKey, SamePlace, FinalKey, Allowed, Unmixed, WellFormed, Untrimmed, Uncrossed;
    if KeepsPlaces(groupBy, partitionBy) {
      forall q | Unsuspected(q, partitionBy)
        ensures MayBePushed(q, groupBy, partitionBy)
      {
        AllowedIsSafeIff(q, groupBy, partitionBy);
      }
    }
    if forall q | Unsuspected(q, partitionBy) :: MayBePushed(q, groupBy, partitionBy) {
      var q := ByPartition(partitionBy);
      ByPartitionIs(partitionBy);
      PushedIff(q, groupBy, partitionBy);
      forall c, d | SamePlace(TableKey(groupBy, c), TableKey(groupBy, d), partitionBy)
        ensures SamePlace(c, d, partitionBy)
      {
        assert FinalKey(q, TableKey(groupBy, c)) == FinalKey(q, TableKey(groupBy, d));
      }
    }
  }

  /** The GROUP BY expression that is a dimension. */
  function Dimension(name: string): Expression {
    Expression(GroupBy(name, {name}, (d: Dims) => Get(d, name)), {name})
  }

  function Dimensions(names: seq<string>): (r: seq<Expression>)
    ensures |r| == |names|
  {
    seq(|names|, i requires 0 <= i < |names| => Dimension(names[i]))
  }

  /** The names without repetitions. */
  function Once(names: seq<string>): (r: seq<string>)
    ensures forall x :: x in r <==> x in names
    ensures forall i, j | 0 <= i < j < |r| :: r[i] != r[j]
  {
    if names == [] then []
    else
      var n := |names| - 1;
      var before := Once(names[..n]);
      assert names == names[..n] + [names[n]];
      if names[n] in before then before else before + [names[n]]
  }

  /** SELECT * for a table without partition keys, or else GROUP BY its partition keys. */
  function ByPartition(partitionBy: seq<string>): Query<int> {
    Query(partitionBy == [], Dimensions(Once(partitionBy)), false, false, false, (key, rows, all) => Some(0),
      rows => rows, None)
  }

  /** It is accepted, and its keys say no more than the partition keys. */
  lemma ByPartitionIs(partitionBy: seq<string>)
    ensures var q := ByPartition(partitionBy);
            && Unsuspected(q, partitionBy) && forall c, d | SamePlace(c, d, partitionBy) ::
               FinalKey(q, c) == FinalKey(q, d)
  {
    var q := ByPartition(partitionBy);
    if partitionBy != [] {
      var names := Once(partitionBy);
      forall k | k in partitionBy ensures k in Recovered(q.exprs, true, {}) {
        var i :| 0 <= i < |names| && names[i] == k;
        assert k in q.exprs[i].oneToOne;
      }
      forall c, d | SamePlace(c, d, partitionBy) ensures FinalKey(q, c) == FinalKey(q, d) { SameSlices(names, c, d); }
    }
  }

  lemma {:induction false} SameSlices(names: seq<string>, c: Dims, d: Dims)
    requires forall k | k in names :: Get(c, k) == Get(d, k)
    ensures Sliced(Groups(Dimensions(names)), c) == Sliced(Groups(Dimensions(names)), d)
  {
    if names != [] {
      var n := |names| - 1;
      assert names == names[..n] + [names[n]];
      SameSlices(names[..n], c, d);
      assert Groups(Dimensions(names))[..n] == Groups(Dimensions(names[..n]));
    }
  }

  /**
   * A table keeps places if it has no GROUP BY, or an expression for each partition
   * key that is named like it and one to one in it.
   */
  lemma KeyedTableKeepsPlaces(groupBy: seq<Expression>, partitionBy: seq<string>)
    requires NamedApart(groupBy) && forall i | 0 <= i < |groupBy| :: IsOneToOne(groupBy[i])
    requires groupBy == [] || (partitionBy != [] && forall k | k in partitionBy :: Keeps(groupBy, k))
    ensures KeepsPlaces(groupBy, partitionBy)
  {
    hide IsOneToOne, Sliced;
    forall c, d | groupBy != [] && SamePlace(TableKey(groupBy, c), TableKey(groupBy, d),
      partitionBy) ensures SamePlace(c, d, partitionBy) {
      forall k | k in partitionBy ensures Get(c, k) == Get(d, k) { KeepsValue(groupBy, k, c, d); }
    }
  }

  predicate Keeps(groupBy: seq<Expression>, k: string) {
    exists i :: 0 <= i < |groupBy| && KeepsAt(groupBy, k, i)
  }

  predicate KeepsAt(groupBy: seq<Expression>, k: string, i: int) {
    0 <= i < |groupBy| && groupBy[i].groupBy.name == k && k in groupBy[i].oneToOne
  }

  lemma KeepsValue(groupBy: seq<Expression>, k: string, c: Dims, d: Dims)
    requires NamedApart(groupBy) && (forall i | 0 <= i < |groupBy| :: IsOneToOne(groupBy[i])) && Keeps(groupBy, k)
    requires Get(Sliced(Groups(groupBy), c), k) == Get(Sliced(Groups(groupBy), d), k)
    ensures Get(c, k) == Get(d, k)
  {
    hide Sliced, Groups, IsOneToOne, NamedApart, Get;
    var i :| 0 <= i < |groupBy| && KeepsAt(groupBy, k, i);
    Holds(groupBy, c, i);
    Holds(groupBy, d, i);
    OneToOneAt(groupBy[i], k, c, d);
  }

  predicate NamedApart(groupBy: seq<Expression>) {
    forall i, j | 0 <= i < j < |groupBy| :: groupBy[i].groupBy.name != groupBy[j].groupBy.name
  }

  lemma Holds(groupBy: seq<Expression>, d: Dims, i: nat)
    requires NamedApart(groupBy) && i < |groupBy|
    ensures Get(Sliced(Groups(groupBy), d), groupBy[i].groupBy.name) == groupBy[i].groupBy.eval(d)
  {
    hide Sliced, Groups;
    SlicedHolds(groupBy, d, i);
  }

  lemma OneToOneAt(e: Expression, k: string, c: Dims, d: Dims)
    requires IsOneToOne(e) && k in e.oneToOne && e.groupBy.eval(c) == e.groupBy.eval(d)
    ensures Get(c, k) == Get(d, k)
  {
  }

  // ---------------------------------------------------------------- what is accepted and wrong

  /** SELECT * of a table or subquery, with the given extras. */
  function Star(exprs: seq<Expression>, regroups: bool, crosstab: bool, ordered: bool,
                from: Option<Query<int>>): Query<int> {
    Query(true, exprs, regroups, crosstab, ordered, (key, rows, all) => Some(0), rows => rows, from)
  }

  function Plain(from: Query<int>): Query<int> {
    Star([], false, false, false, Some(from))
  }

  /** `SELECT * FROM (SELECT * FROM (SELECT * FROM t LIMIT 1))` is accepted: only the first subquery is checked. */
  lemma NestedLimitIsAccepted()
    ensures var q := Plain(Plain(Star([], false, false, true, None)));
            Allowed(q, ["x"]) && Unmixed(q) && Uncrossed(q) && !MayBePushed(q, [], ["x"])
  {
    hide MayBePushed, TellsEntries;
    var q := Plain(Plain(Star([], false, false, true, None)));
    assert !Untrimmed(q.from.value);
    PushedIff(q, [], ["x"]);
  }

  /** `SELECT * FROM (SELECT * FROM (SELECT SUM(a) AS a FROM t GROUP BY *, CROSSTAB(x)))` is accepted. */
  lemma NestedCrosstabIsAccepted()
    ensures var q := Plain(Plain(Star([], true, true, false, None)));
            Allowed(q, ["x"]) && Unmixed(q) && Untrimmed(q) && !MayBePushed(q, [], ["x"])
  {
    hide MayBePushed, TellsEntries;
    var q := Plain(Plain(Star([], true, true, false, None)));
    assert !Uncrossed(q.from.value);
    PushedIff(q, [], ["x"]);
  }

  /** Entries that differ in x only. */
  lemma TwoXs()
    ensures var c: Dims, d: Dims := map["x" := Accumulators.Text("1")], map["x" := Accumulators.Text("2")];
            && Sliced(Groups([Dimension("y")]), c) == map[] && Sliced(Groups([Dimension("y")]), d) == map[]
            && c != d && Get(c, "x") != Get(d, "x")
  {
    var c: Dims, d: Dims := map["x" := Accumulators.Text("1")], map["x" := Accumulators.Text("2")];
    assert Groups([Dimension("y")])[..0] == [];
    assert Get(c, "x") != Get(d, "x");
  }

  /**
   * `SELECT SUM(a) AS a FROM t GROUP BY *, y` is accepted as grouping by all, but
   * groups by y alone: two partitions answer with a row for the same y.
   */
  lemma MixedStarIsAccepted()
    ensures var q := Star([Dimension("y")], true, false, false, None);
            Allowed(q, ["x"]) && WellFormed(q) && Untrimmed(q) && Uncrossed(q) && !MayBePushed(q, [], ["x"])
  {
    hide MayBePushed, Sliced;
    var q := Star([Dimension("y")], true, false, false, None);
    var c: Dims, d: Dims := map["x" := Accumulators.Text("1")], map["x" := Accumulators.Text("2")];
    TwoXs();
    assert "x" in ["x"] && !SamePlace(c, d, ["x"]);
    assert FinalKey(q, TableKey([], c)) == FinalKey(q, TableKey([], d));
    PushedIff(q, [], ["x"]);
  }

  /**
   * `SELECT * FROM t` is accepted, but t groups by y and has no partition keys: its
   * entries are partitioned by all their dimensions, and two partitions have a row
   * for the same y.
   */
  lemma GroupedTableIsAccepted()
    ensures var q := Star([], false, false, false, None);
            Unsuspected(q, []) && !KeepsPlaces([Dimension("y")], []) && !MayBePushed(q, [Dimension("y")], [])
  {
    hide MayBePushed, Sliced;
    var q, groupBy := Star([], false, false, false, None), [Dimension("y")];
    var c: Dims, d: Dims := map["x" := Accumulators.Text("1")], map["x" := Accumulators.Text("2")];
    TwoXs();
    assert TableKey(groupBy, c) == TableKey(groupBy, d) && !SamePlace(c, d, []);
    assert FinalKey(q, TableKey(groupBy, c)) == FinalKey(q, TableKey(groupBy, d));
    PushedIff(q, groupBy, []);
  }
}
