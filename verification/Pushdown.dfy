/**
 * When a query may run on every partition by itself (planner/cluster.go).
 *
 * A query groups the rows below it, or those of a subquery.  Running it on each
 * partition and uniting the results is right exactly when the outermost keys tell
 * the partition keys, no subquery orders or limits, and no level is a crosstab
 * (`SafeIff`).  `PushdownAllowed` accepts only queries whose keys would tell, but
 * takes `*` next to other expressions for grouping by all, and looks for limits
 * and crosstabs only in the first subquery.  It does not look at the GROUP BY of
 * the table itself; `Partitioning` does.
 */
module Pushdown {
  import opened Wrappers
  import opened Accumulators
  import opened Grouping

  /** Rows by their dimensions; C is what they hold. */
  type Rows<C> = map<Dims, C>

  /** A GROUP BY expression together with the parameters it maps one to one. */
  datatype Expression = Expression(groupBy: GroupBy, oneToOne: set<string>)

  /**
   * One level of a query, over a table or a subquery.  Rows of a group give one
   * row, or none if HAVING or WHERE leaves nothing of it; the columns of a
   * crosstab depend on all rows that come in.  ORDER BY, LIMIT and OFFSET are
   * together a function of all rows; `ordered` says if there are any.  A level
   * that groups by `*` regroups its rows only if it selects fields, has HAVING or
   * asks for other times or periods.
   */
  datatype Query<!C> = Query(groupByAll: bool, exprs: seq<Expression>, regroups: bool, crosstab: bool, ordered: bool,
                             rowOf: (Dims, Rows<C>, Rows<C>) -> Option<C>, trim: Rows<C> -> Rows<C>,
                               from: Option<Query<C>>)

  function Groups(exprs: seq<Expression>): (r: seq<GroupBy>)
    ensures |r| == |exprs|
  {
    seq(|exprs|, i requires 0 <= i < |exprs| => exprs[i].groupBy)
  }

  /** The key of the group that a row falls into. */
  function KeyAt<C>(q: Query<C>, d: Dims): Dims {
    if NeedsGroup(q) then GroupKey(Groups(q.exprs), if q.crosstab then ByValue else NoCrosstab, d) else d
  }

  predicate NeedsGroup<C>(q: Query<C>) {
    !q.groupByAll || q.crosstab || q.regroups
  }

  /** The key of the outermost group that a row of the table ends up in. */
  function FinalKey<C>(q: Query<C>, d: Dims): Dims
    decreases q
  {
    KeyAt(q, if q.from.None? then d else FinalKey(q.from.value, d))
  }

  /** The rows of a group. */
  function GroupOf<C>(q: Query<C>, rows: Rows<C>, key: Dims): Rows<C> {
    map d | d in rows && KeyAt(q, d) == key :: rows[d]
  }

  function GroupKeys<C>(q: Query<C>, rows: Rows<C>): set<Dims> {
    set d | d in rows :: KeyAt(q, d)
  }

  function Grouped<C>(q: Query<C>, rows: Rows<C>): (r: Rows<C>) {
    map key | key in GroupKeys(q, rows) && q.rowOf(key, GroupOf(q, rows, key), rows).Some? ::
      q.rowOf(key, GroupOf(q, rows, key), rows).value
  }

  /** The rows of a query, before ORDER BY, LIMIT and OFFSET of its outermost level. */
  function Answer<C>(q: Query<C>, rows: Rows<C>): Rows<C>
    decreases q
  {
    Grouped(q, if q.from.None? then rows else q.from.value.trim(Answer(q.from.value, rows)))
  }

  // ---------------------------------------------------------------- what partitions see

  function PartOf<C>(rows: Rows<C>, partition: Dims -> int, p: int): Rows<C> {
    map d | d in rows && partition(d) == p :: rows[d]
  }

  /** Rows that end up in the same outermost group are in the same partition. */
  ghost predicate Separates<C>(q: Query<C>, partition: Dims -> int) {
    forall d, e :: FinalKey(q, d) == FinalKey(q, e) ==> partition(d) == partition(e)
  }

  /** Subqueries do not order or limit. */
  predicate Untrimmed<C>(q: Query<C>)
    decreases q
  {
    q.from.Some? ==> !q.from.value.ordered && Untrimmed(q.from.value)
  }

  /** Without ORDER BY, LIMIT and OFFSET all rows stay. */
  ghost predicate TrimsOk<C(!new)>(q: Query<C>)
    decreases q
  {
    q.from.Some? ==> (!q.from.value.ordered ==> forall rows :: q.from.value.trim(rows) == rows) && TrimsOk(q.from.value)
  }

  /** No level is a crosstab. */
  predicate Uncrossed<C>(q: Query<C>)
    decreases q
  {
    !q.crosstab && (q.from.Some? ==> Uncrossed(q.from.value))
  }

  /** Without a crosstab, the row of a group depends on the rows of that group only. */
  ghost predicate Local<C(!new)>(q: Query<C>)
    decreases q
  {
    && (!q.crosstab ==> forall key, rows, all, all' :: q.rowOf(key, rows, all) == q.rowOf(key, rows, all'))
    && (q.from.Some? ==> Local(q.from.value))
  }

  /** A key of the answer is the final key of some row. */
  lemma {:induction false} AnswerKeys<C(!new)>(q: Query<C>, rows: Rows<C>, key: Dims)
    requires key in Answer(q, rows) && Untrimmed(q) && TrimsOk(q)
    ensures exists d :: d in rows && FinalKey(q, d) == key
    decreases q
  {
    if q.from.Some? {
      var inner := Answer(q.from.value, rows);
      var k :| k in inner && KeyAt(q, k) == key;
      AnswerKeys(q.from.value, rows, k);
      var d :| d in rows && FinalKey(q.from.value, d) == k;
      assert FinalKey(q, d) == key;
    } else {
      var d :| d in rows && KeyAt(q, d) == key;
      assert FinalKey(q, d) == key;
    }
  }

  /** A key that belongs to a partition: a row of that partition ends up there. */
  ghost predicate Belongs<C>(q: Query<C>, rows: Rows<C>, partition: Dims -> int, p: int, key: Dims) {
    exists d :: d in rows && partition(d) == p && FinalKey(q, d) == key
  }

  /** What a row is, if there is one. */
  function At<C>(rows: Rows<C>, key: Dims): Option<C> {
    if key in rows then Some(rows[key]) else None
  }

  lemma SeparatesInside<C>(q: Query<C>, partition: Dims -> int)
    requires q.from.Some? && Separates(q, partition)
    ensures Separates(q.from.value, partition)
  {
    hide KeyAt;
    forall d, e | FinalKey(q.from.value, d) == FinalKey(q.from.value, e) ensures partition(d) == partition(e) {
      assert FinalKey(q, d) == FinalKey(q, e);
    }
  }

  /** A group that belongs to a partition looks the same to that partition. */
  lemma SameGroup<C(!new)>(q: Query<C>, all: Rows<C>, part: Rows<C>, key: Dims)
    requires !q.crosstab && Local(q)
    requires forall k :: KeyAt(q, k) == key ==> At(all, k) == At(part, k)
    ensures GroupOf(q, all, key) == GroupOf(q, part, key) && (key in GroupKeys(q, all) <==> key in GroupKeys(q, part))
    ensures At(Grouped(q, all), key) == At(Grouped(q, part), key)
  {
    hide KeyAt;
    forall k
      ensures k in GroupOf(q, all, key) <==> k in GroupOf(q, part, key)
    {
      assert KeyAt(q, k) == key ==> At(all, k) == At(part, k);
    }
    forall k | k in GroupOf(q, all, key) ensures all[k] == part[k] { assert At(all, k) == At(part, k); }
    assert GroupOf(q, all, key) == GroupOf(q, part, key);
    if key in GroupKeys(q, all) {
      var d :| d in all && KeyAt(q, d) == key;
      assert At(all, d) == At(part, d);
    }
    if key in GroupKeys(q, part) {
      var d :| d in part && KeyAt(q, d) == key;
      assert At(all, d) == At(part, d);
    }
  }

  /** A partition answers for the keys that belong to it just as the whole table does. */
  lemma {:induction false} PartSeesItsKeys<C(!new)>(q: Query<C>, rows: Rows<C>, partition: Dims -> int, p: int,
                                             key: Dims)
    requires Separates(q, partition) && Untrimmed(q) && TrimsOk(q) && Uncrossed(q) && Local(q)
             && Belongs(q, rows, partition, p, key)
    ensures At(Answer(q, rows), key) == At(Answer(q, PartOf(rows, partition, p)), key)
    decreases q
  {
    hide KeyAt, Grouped, GroupOf, GroupKeys, Separates;
    var mine := PartOf(rows, partition, p);
    if q.from.None? {
      forall k | KeyAt(q, k) == key ensures At(rows, k) == At(mine, k) {
        if k in rows { SamePartition(q, rows, partition, p, key, k); }
      }
      SameGroup(q, rows, mine, key);
    } else {
      var sub := q.from.value;
      var all, part := Answer(sub, rows), Answer(sub, mine);
      SeparatesInside(q, partition);
      forall k | KeyAt(q, k) == key ensures At(all, k) == At(part, k) {
        if Belongs(sub, rows, partition, p, k) {
          PartSeesItsKeys(sub, rows, partition, p, k);
        } else {
          Elsewhere(q, rows, partition, p, key, k);
        }
      }
      SameGroup(q, all, part, key);
    }
  }

  lemma SamePartition<C>(q: Query<C>, rows: Rows<C>, partition: Dims -> int, p: int, key: Dims, d: Dims)
    requires Separates(q, partition) && Belongs(q, rows, partition, p, key) && FinalKey(q, d) == key
    ensures partition(d) == p
  {
    hide FinalKey;
  }

  /** A key of a subquery that leads to a partition's group, but is not that partition's, does not occur. */
  lemma Elsewhere<C(!new)>(q: Query<C>, rows: Rows<C>, partition: Dims -> int, p: int, key: Dims, k: Dims)
    requires q.from.Some? && Separates(q, partition) && Untrimmed(q) && TrimsOk(q)
             && Belongs(q, rows, partition, p, key)
    requires KeyAt(q, k) == key && !Belongs(q.from.value, rows, partition, p, k)
    ensures k !in Answer(q.from.value, rows) && k !in Answer(q.from.value, PartOf(rows, partition, p))
  {
    hide KeyAt, Separates, Answer;
    var sub := q.from.value;
    if k in Answer(sub, rows) {
      AnswerKeys(sub, rows, k);
      var d :| d in rows && FinalKey(sub, d) == k;
      SamePartition(q, rows, partition, p, key, d);
    }
    if k in Answer(sub, PartOf(rows, partition, p)) {
      PartKeysBelong(sub, rows, partition, p, k);
    }
  }

  /** The answer is the disjoint union of the partitions' answers. */
  ghost predicate IsUnion<C(!new)>(q: Query<C>, rows: Rows<C>, partition: Dims -> int) {
    && (forall key | key in Answer(q, rows) :: exists p ::
       At(Answer(q, PartOf(rows, partition, p)), key) == At(Answer(q, rows), key))
    && (forall key, p | key in Answer(q, PartOf(rows, partition, p)) ::
       At(Answer(q, rows), key) == At(Answer(q, PartOf(rows, partition, p)), key))
    && (forall key, p, r | key in Answer(q, PartOf(rows, partition, p))
       && key in Answer(q, PartOf(rows, partition, r)) :: p == r)
  }

  /** If outermost keys tell partitions apart, the union of the partitions' answers is the whole answer. */
  lemma PushdownIsSound<C(!new)>(q: Query<C>, rows: Rows<C>, partition: Dims -> int)
    requires Separates(q, partition) && Untrimmed(q) && TrimsOk(q) && Uncrossed(q) && Local(q)
    ensures IsUnion(q, rows, partition)
  {
    hide FinalKey, Answer, Untrimmed, TrimsOk, Uncrossed, Local;
    forall key | key in Answer(q, rows) ensures exists p ::
      At(Answer(q, PartOf(rows, partition, p)), key) == At(Answer(q, rows), key) {
      AnswerKeys(q, rows, key);
      var d :| d in rows && FinalKey(q, d) == key;
      assert Belongs(q, rows, partition, partition(d), key);
      PartSeesItsKeys(q, rows, partition, partition(d), key);
    }
    forall key, p | key in Answer(q, PartOf(rows, partition, p))
      ensures Belongs(q, rows, partition, p, key) && At(Answer(q, rows), key)
              == At(Answer(q, PartOf(rows, partition, p)), key)
    {
      PartKeysBelong(q, rows, partition, p, key);
      PartSeesItsKeys(q, rows, partition, p, key);
    }
    forall key, p, r | key in Answer(q, PartOf(rows, partition, p))
      && key in Answer(q, PartOf(rows, partition, r)) ensures p == r {
      assert Belongs(q, rows, partition, p, key) && Belongs(q, rows, partition, r, key);
      var d :| d in rows && partition(d) == p && FinalKey(q, d) == key;
      SamePartition(q, rows, partition, r, key, d);
    }
  }

  lemma PartKeysBelong<C(!new)>(q: Query<C>, rows: Rows<C>, partition: Dims -> int, p: int, key: Dims)
    requires Untrimmed(q) && TrimsOk(q) && key in Answer(q, PartOf(rows, partition, p))
    ensures Belongs(q, rows, partition, p, key)
  {
    hide FinalKey, Answer;
    AnswerKeys(q, PartOf(rows, partition, p), key);
  }

  // ---------------------------------------------------------------- deciding

  /** The parameters that can be told from the known part of a level's keys. */
  function Recovered(exprs: seq<Expression>, all: bool, names: set<string>): set<string> {
    set i, x | 0 <= i < |exprs| && (all || exprs[i].groupBy.name in names) && x in exprs[i].oneToOne :: x
  }

  /** The check of all levels, from the outermost in. */
  predicate Accepts<C>(q: Query<C>, parentAll: bool, parentParams: set<string>, partitionBy: seq<string>)
    decreases q
  {
    var mine := if q.groupByAll then parentParams else Recovered(q.exprs, parentAll, parentParams);
    if q.from.None? then (q.groupByAll && parentAll) || (partitionBy != [] && forall k | k in partitionBy :: k in mine)
    else Accepts(q.from.value, q.groupByAll && parentAll, mine, partitionBy)
  }

  /** All levels group by `*`. */
  predicate AllStar<C>(q: Query<C>)
    decreases q
  {
    q.groupByAll && (q.from.Some? ==> AllStar(q.from.value))
  }

  /**
   * A dimension of the table can be told from one of the query's answer: through each
   * level by an expression with that name that is one to one in the next, or by `*`.
   */
  ghost predicate Traces<C>(q: Query<C>, x: string, k: string)
    decreases q
  {
    if q.groupByAll then (if q.from.None? then x == k else Traces(q.from.value, x, k))
    else exists i, y :: Links(q, i, x, y) && if q.from.None? then y == k else Traces(q.from.value, y, k)
  }

  /** The i-th expression is named x, and tells y. */
  predicate Links<C>(q: Query<C>, i: int, x: string, y: string) {
    0 <= i < |q.exprs| && q.exprs[i].groupBy.name == x && y in q.exprs[i].oneToOne
  }

  /** It can be told from some dimension of which the value is known. */
  ghost predicate IsTraced<C>(q: Query<C>, all: bool, names: set<string>, k: string) {
    exists x :: (all || x in names) && Traces(q, x, k)
  }

  ghost predicate AllTraced<C>(q: Query<C>, all: bool, names: set<string>, partitionBy: seq<string>) {
    forall k | k in partitionBy :: IsTraced(q, all, names, k)
  }

  /** The check accepts queries that group by `*` throughout, and those that all partition keys can be told from. */
  lemma {:induction false} AcceptsIff<C>(q: Query<C>, all: bool, names: set<string>, partitionBy: seq<string>)
    ensures Accepts(q, all, names, partitionBy) <==>
            (all && AllStar(q)) || (partitionBy != [] && AllTraced(q, all, names, partitionBy))
    decreases q
  {
    hide Traces, Recovered, IsTraced;
    var mine := if q.groupByAll then names else Recovered(q.exprs, all, names);
    if q.from.Some? {
      AcceptsIff(q.from.value, q.groupByAll && all, mine, partitionBy);
      forall k ensures IsTraced(q, all, names, k) <==> IsTraced(q.from.value, q.groupByAll && all, mine, k) {
        TracedInside(q, all, names, k);
      }
    } else {
      forall k ensures IsTraced(q, all, names, k) <==> (q.groupByAll && all) || k in mine {
        TracedAtBottom(q, all, names, k);
      }
    }
  }

  lemma TracedAtBottom<C>(q: Query<C>, all: bool, names: set<string>, k: string)
    requires q.from.None?
    ensures var mine := if q.groupByAll then names else Recovered(q.exprs, all, names);
            IsTraced(q, all, names, k) <==> (q.groupByAll && all) || k in mine
  {
    if q.groupByAll {
      assert Traces(q, k, k);
    } else if k in Recovered(q.exprs, all, names) {
      var i :| 0 <= i < |q.exprs| && (all || q.exprs[i].groupBy.name in names) && k in q.exprs[i].oneToOne;
      assert Links(q, i, q.exprs[i].groupBy.name, k);
      assert Traces(q, q.exprs[i].groupBy.name, k);
    }
  }

  lemma TracedInside<C>(q: Query<C>, all: bool, names: set<string>, k: string)
    requires q.from.Some?
    ensures var mine := if q.groupByAll then names else Recovered(q.exprs, all, names);
            IsTraced(q, all, names, k) <==> IsTraced(q.from.value, q.groupByAll && all, mine, k)
  {
    var inner := q.from.value;
    if q.groupByAll {
      assert forall x :: Traces(q, x, k) == Traces(inner, x, k);
    } else {
      var mine := Recovered(q.exprs, all, names);
      if IsTraced(q, all, names, k) {
        var x :| (all || x in names) && Traces(q, x, k);
        var i, y :| Links(q, i, x, y) && Traces(inner, y, k);
        assert y in mine;
      }
      if IsTraced(inner, false, mine, k) {
        var y :| y in mine && Traces(inner, y, k);
        var i :| 0 <= i < |q.exprs| && (all || q.exprs[i].groupBy.name in names) && y in q.exprs[i].oneToOne;
        assert Links(q, i, q.exprs[i].groupBy.name, y);
        assert Traces(q, q.exprs[i].groupBy.name, k);
      }
    }
  }

  /** What pushdownAllowed accepts, for a table that can be found. */
  predicate Allowed<C>(q: Query<C>, partitionBy: seq<string>) {
    && !q.crosstab && (q.from.Some? ==> !q.from.value.ordered && !q.from.value.crosstab)
    && Accepts(q, true, {}, partitionBy)
  }

  /** pushdownAllowed; a table that cannot be found is an error. */
  method PushdownAllowed<C>(query: Query<C>, partitionBy: Option<seq<string>>) returns (allowed: bool, failed: bool)
    ensures allowed <==> partitionBy.Some? && Allowed(query, partitionBy.value)
    ensures allowed <==>
              && partitionBy.Some? && !query.crosstab
              && (query.from.Some? ==> !query.from.value.ordered && !query.from.value.crosstab)
              && (AllStar(query) || (partitionBy.value != [] && AllTraced(query, true, {}, partitionBy.value)))
    ensures failed <==>
              && partitionBy.None? && !query.crosstab
              && (query.from.Some? ==> !query.from.value.ordered && !query.from.value.crosstab)
  {
    if partitionBy.Some? { AcceptsIff(query, true, {}, partitionBy.value); }
    if query.crosstab { return false, false; }
    if query.from.Some? && (query.from.value.ordered || query.from.value.crosstab) { return false, false; }
    var parentGroupByAll, parentGroupParams := true, {};
    var current := query;
    while current.from.Some?
      invariant partitionBy.Some? ==>
        (Accepts(query, true, {}, partitionBy.value) <==> Accepts(current, parentGroupByAll, parentGroupParams,
          partitionBy.value))
      decreases current
    {
      if !current.groupByAll {
        parentGroupParams := GroupParams(current.exprs, parentGroupByAll, parentGroupParams);
        parentGroupByAll := false;
      }
      current := current.from.value;
    }
    if partitionBy.None? { return false, true; }
    if current.groupByAll && parentGroupByAll { return true, false; }
    if partitionBy.value == [] { return false, false; }
    var groupParams := parentGroupParams;
    if !current.groupByAll { groupParams := GroupParams(current.exprs, parentGroupByAll, parentGroupParams); }
    for i := 0 to |partitionBy.value|
      invariant forall k | 0 <= k < i :: partitionBy.value[k] in groupParams
    {
      if partitionBy.value[i] !in groupParams {
        assert partitionBy.value[i] in partitionBy.value;
        return false, false;
      }
    }
    return true, false;
  }

  method GroupParams(exprs: seq<Expression>, all: bool, names: set<string>) returns (params: set<string>)
    ensures params == Recovered(exprs, all, names)
  {
    params := {};
    for i := 0 to |exprs|
      invariant params == Recovered(exprs[..i], all, names)
    {
      assert forall k | 0 <= k < i :: exprs[..i + 1][k] == exprs[..i][k];
      if all || exprs[i].groupBy.name in names { params := params + exprs[i].oneToOne; }
    }
    assert exprs[..|exprs|] == exprs;
  }

  // ---------------------------------------------------------------- what keys tell

  function Get(d: Dims, name: string): Option<Value> {
    if name in d then Some(d[name]) else None
  }

  /** The value of the expression tells the values of these parameters. */
  ghost predicate IsOneToOne(e: Expression) {
    forall c, d :: e.groupBy.eval(c) == e.groupBy.eval(d) ==> forall x | x in e.oneToOne :: Get(c, x) == Get(d, x)
  }

  /** The expressions of each level have different names and are one to one in what they claim. */
  ghost predicate WellFormed<C>(q: Query<C>)
    decreases q
  {
    && (forall i, j | 0 <= i < j < |q.exprs| :: q.exprs[i].groupBy.name != q.exprs[j].groupBy.name)
    && (forall i | 0 <= i < |q.exprs| :: IsOneToOne(q.exprs[i]))
    && (q.from.Some? ==> WellFormed(q.from.value))
  }

  /** Agree on the partition keys, or on all dimensions if there are none. */
  predicate SamePlace(c: Dims, d: Dims, partitionBy: seq<string>) {
    if partitionBy == [] then c == d else forall k | k in partitionBy :: Get(c, k) == Get(d, k)
  }

  /** Partitions depend only on the partition keys, or on all dimensions if there are none. */
  ghost predicate PartitionedBy(partition: Dims -> int, partitionBy: seq<string>) {
    forall c, d | SamePlace(c, d, partitionBy) :: partition(c) == partition(d)
  }

  /** The outermost key tells the partition keys of the rows behind it. */
  ghost predicate Tells<C>(q: Query<C>, partitionBy: seq<string>) {
    forall c, d | FinalKey(q, c) == FinalKey(q, d) :: SamePlace(c, d, partitionBy)
  }

  /** No level that regroups its rows has expressions next to `*`. */
  predicate Unmixed<C>(q: Query<C>)
    decreases q
  {
    (q.groupByAll && q.exprs != [] ==> !NeedsGroup(q)) && (q.from.Some? ==> Unmixed(q.from.value))
  }

  /** Two keys agree on what is known of them. */
  predicate Agree(c: Dims, d: Dims, all: bool, names: set<string>) {
    if all then c == d else forall x | x in names :: Get(c, x) == Get(d, x)
  }

  /** A group's key holds the value of each expression under its name. */
  lemma {:induction false} SlicedHolds(exprs: seq<Expression>, d: Dims, i: nat)
    requires i < |exprs| && forall j, k | 0 <= j < k < |exprs| :: exprs[j].groupBy.name != exprs[k].groupBy.name
    ensures Get(Sliced(Groups(exprs), d), exprs[i].groupBy.name) == exprs[i].groupBy.eval(d)
  {
    var n := |exprs| - 1;
    assert Groups(exprs)[..n] == Groups(exprs[..n]);
    if i < n {
      SlicedHolds(exprs[..n], d, i);
    } else {
      SlicedLacks(exprs[..n], d, exprs[n].groupBy.name);
    }
  }

  lemma {:induction false} SlicedLacks(exprs: seq<Expression>, d: Dims, name: string)
    requires forall j | 0 <= j < |exprs| :: exprs[j].groupBy.name != name
    ensures name !in Sliced(Groups(exprs), d)
  {
    if exprs != [] {
      var n := |exprs| - 1;
      assert Groups(exprs)[..n] == Groups(exprs[..n]);
      SlicedLacks(exprs[..n], d, name);
    }
  }

  /** Keys that agree come from rows that agree on what can be recovered. */
  lemma AgreeInside<C>(q: Query<C>, c: Dims, d: Dims, all: bool, names: set<string>)
    requires WellFormed(q) && !q.crosstab && Unmixed(q) && Agree(KeyAt(q, c), KeyAt(q, d), all, names)
    ensures Agree(c, d, q.groupByAll && all, if q.groupByAll then names else Recovered(q.exprs, all, names))
  {
    if !q.groupByAll {
      forall x | x in Recovered(q.exprs, all, names) ensures Get(c, x) == Get(d, x) {
        var i :| 0 <= i < |q.exprs| && (all || q.exprs[i].groupBy.name in names) && x in q.exprs[i].oneToOne;
        SlicedHolds(q.exprs, c, i);
        SlicedHolds(q.exprs, d, i);
        assert IsOneToOne(q.exprs[i]);
      }
    }
  }

  lemma {:induction false} AcceptedAgree<C>(q: Query<C>, partitionBy: seq<string>, c: Dims, d: Dims, all: bool,
                                            names: set<string>)
    requires WellFormed(q) && Uncrossed(q) && Unmixed(q) && Accepts(q, all, names, partitionBy)
    requires Agree(FinalKey(q, c), FinalKey(q, d), all, names)
    ensures SamePlace(c, d, partitionBy)
    decreases q
  {
    hide KeyAt, Recovered, IsOneToOne;
    var mine := if q.groupByAll then names else Recovered(q.exprs, all, names);
    if q.from.None? {
      AgreeInside(q, c, d, all, names);
    } else {
      AgreeInside(q, FinalKey(q.from.value, c), FinalKey(q.from.value, d), all, names);
      AcceptedAgree(q.from.value, partitionBy, c, d, q.groupByAll && all, mine);
    }
  }

  /**
   * Accepted queries have outermost keys that tell partitions apart, unless a level
   * has expressions next to `*` or is a crosstab.
   */
  lemma AcceptedTells<C>(q: Query<C>, partitionBy: seq<string>)
    requires WellFormed(q) && Uncrossed(q) && Unmixed(q) && Accepts(q, true, {}, partitionBy)
    ensures Tells(q, partitionBy)
  {
    hide FinalKey, Accepts, WellFormed, Uncrossed, Unmixed;
    forall c, d | FinalKey(q, c) == FinalKey(q, d) ensures SamePlace(c, d, partitionBy) {
      AcceptedAgree(q, partitionBy, c, d, true, {});
    }
  }

  lemma TellsSeparates<C>(q: Query<C>, partition: Dims -> int, partitionBy: seq<string>)
    requires Tells(q, partitionBy) && PartitionedBy(partition, partitionBy)
    ensures Separates(q, partition)
  {
    hide FinalKey, SamePlace;
  }

  // ---------------------------------------------------------------- queries of the same shape

  /** Queries that the planner cannot tell apart: they differ in what rows hold and in what limits keep. */
  ghost predicate SameShape<C>(q: Query<C>, r: Query<C>)
    decreases q
  {
    && q.groupByAll == r.groupByAll && q.exprs == r.exprs && q.regroups == r.regroups && q.crosstab == r.crosstab
       && q.ordered == r.ordered
    && (q.from.Some? <==> r.from.Some?) && (q.from.Some? ==> SameShape(q.from.value, r.from.value))
  }

  lemma {:induction false} ShapeDecides<C>(q: Query<C>, r: Query<C>, d: Dims)
    requires SameShape(q, r)
    ensures FinalKey(q, d) == FinalKey(r, d) && (Untrimmed(q) <==> Untrimmed(r)) && (Uncrossed(q) <==> Uncrossed(r))
    decreases q
  {
    if q.from.Some? { ShapeDecides(q.from.value, r.from.value, d); }
  }

  /** Pushing the query down is right, however it is partitioned and whatever rows hold and limits keep. */
  ghost predicate IsSafe(q: Query<int>, partitionBy: seq<string>) {
    forall partition, r, rows | PartitionedBy(partition, partitionBy) && SameShape(q, r) && TrimsOk(r)
      && Local(r) :: IsUnion(r, rows, partition)
  }

  /** Some data on which a query of this shape goes wrong. */
  lemma IsNotSafe(q: Query<int>, partitionBy: seq<string>, partition: Dims -> int, r: Query<int>, rows: Rows<int>)
    requires PartitionedBy(partition, partitionBy) && SameShape(q, r) && TrimsOk(r) && Local(r)
             && !IsUnion(r, rows, partition)
    ensures !IsSafe(q, partitionBy)
  {
  }

  // ---------------------------------------------------------------- keys that do not tell

  /** A limit that keeps the row of a given key before any other. */
  function Keep(first: Dims): Rows<int> -> Rows<int> {
    rows => if first in rows then map[first := rows[first]] else rows
  }

  /** The query of the same shape that keeps all groups, and of limited ones first that of a given row. */
  function Keeping(q: Query<int>, a: Dims): (r: Query<int>)
    ensures SameShape(q, r)
    decreases q
  {
    Query(q.groupByAll, q.exprs, q.regroups, q.crosstab, q.ordered, (key, rows, all) => Some(0),
          if q.ordered then Keep(FinalKey(q, a)) else rows => rows,
          if q.from.None? then None else Some(Keeping(q.from.value, a)))
  }

  lemma {:induction false} KeepingTrims(q: Query<int>, a: Dims)
    ensures TrimsOk(Keeping(q, a)) && Local(Keeping(q, a))
    decreases q
  {
    if q.from.Some? { KeepingTrims(q.from.value, a); }
  }

  lemma GroupedKeeps(q: Query<int>, a: Dims, rows: Rows<int>)
    ensures Grouped(Keeping(q, a), rows).Keys == set d | d in rows :: KeyAt(q, d)
  {
    assert forall d :: KeyAt(Keeping(q, a), d) == KeyAt(q, d);
  }

  /** The answer of a partition with a single row. */
  lemma {:induction false} KeepingOne(q: Query<int>, a: Dims, x: Dims, rows: Rows<int>)
    requires rows.Keys == {x}
    ensures Answer(Keeping(q, a), rows).Keys == {FinalKey(q, x)}
    decreases q
  {
    hide KeyAt, Grouped;
    var r := Keeping(q, a);
    if q.from.None? {
      GroupedKeeps(q, a, rows);
    } else {
      KeepingOne(q.from.value, a, x, rows);
      GroupedKeeps(q, a, r.from.value.trim(Answer(r.from.value, rows)));
    }
  }

  /** Rows with the same outermost key and different partition keys can be in different partitions. */
  lemma SplitBy(c: Dims, d: Dims, partitionBy: seq<string>) returns (partition: Dims -> int)
    requires !SamePlace(c, d, partitionBy)
    ensures PartitionedBy(partition, partitionBy) && partition(c) != partition(d)
  {
    if partitionBy == [] {
      partition := x => if x == c then 0 else 1;
    } else {
      var k :| k in partitionBy && Get(c, k) != Get(d, k);
      partition := x => if Get(x, k) == Get(c, k) then 0 else 1;
    }
  }

  /** Two partitions answer with rows of the same key. */
  lemma CollisionIsNotUnion(q: Query<int>, partition: Dims -> int, c: Dims, d: Dims)
    requires FinalKey(q, c) == FinalKey(q, d) && partition(c) != partition(d)
    ensures !IsUnion(Keeping(q, c), map[c := 1, d := 2], partition)
  {
    hide FinalKey, Answer;
    var rows: Rows<int> := map[c := 1, d := 2];
    var one, other := PartOf(rows, partition, partition(c)), PartOf(rows, partition, partition(d));
    assert one.Keys == {c} && other.Keys == {d};
    KeepingOne(q, c, c, one);
    KeepingOne(q, c, d, other);
    var key := FinalKey(q, c);
    assert key in Answer(Keeping(q, c), one) && key in Answer(Keeping(q, c), other);
  }

  // ---------------------------------------------------------------- limits further down

  /** A limited subquery leaves only the group of the first row, unless that row is not there. */
  lemma {:induction false} KeepingAnswers(q: Query<int>, a: Dims, b: Dims, partition: Dims -> int, rows: Rows<int>)
    requires Separates(q, partition) && partition(a) != partition(b) && (rows.Keys == {a, b} || rows.Keys == {b})
    ensures Answer(Keeping(q, a), rows).Keys
            == if a !in rows then {FinalKey(q, b)} else if Untrimmed(q) then {FinalKey(q, a), FinalKey(q, b)}
              else {FinalKey(q, a)}
    decreases q
  {
    hide KeyAt, Separates, Grouped;
    var r := Keeping(q, a);
    if q.from.None? {
      GroupedKeeps(q, a, rows);
    } else {
      var sub := q.from.value;
      SeparatesInside(q, partition);
      KeepingAnswers(sub, a, b, partition, rows);
      Apart(sub, a, b, partition);
      GroupedKeeps(q, a, r.from.value.trim(Answer(r.from.value, rows)));
    }
  }

  lemma Apart(q: Query<int>, a: Dims, b: Dims, partition: Dims -> int)
    requires Separates(q, partition) && partition(a) != partition(b)
    ensures FinalKey(q, a) != FinalKey(q, b)
  {
    hide FinalKey;
  }

  /** The partition of the other row answers with a row that the whole table's limit drops. */
  lemma LimitedIsNotUnion(q: Query<int>, partition: Dims -> int, a: Dims, b: Dims)
    requires Separates(q, partition) && partition(a) != partition(b) && !Untrimmed(q)
    ensures !IsUnion(Keeping(q, a), map[a := 1, b := 2], partition)
  {
    hide FinalKey, Separates, Answer, Untrimmed;
    var rows: Rows<int> := map[a := 1, b := 2];
    var part := PartOf(rows, partition, partition(b));
    assert part.Keys == {b};
    KeepingAnswers(q, a, b, partition, rows);
    KeepingAnswers(q, a, b, partition, part);
    Apart(q, a, b, partition);
    var r, key := Keeping(q, a), FinalKey(q, b);
    assert key in Answer(r, part) && At(Answer(r, rows), key) != At(Answer(r, part), key);
  }

  // ---------------------------------------------------------------- crosstabs further down

  predicate HasTwo(rows: Rows<int>) {
    exists d :: d in rows && rows[d] == 2
  }

  /**
   * The query of the same shape whose crosstabs tell if they saw more than one row,
   * and whose other levels pass that on.
   */
  function Counting(q: Query<int>): (r: Query<int>)
    ensures SameShape(q, r)
    decreases q
  {
    Query(q.groupByAll, q.exprs, q.regroups, q.crosstab, q.ordered,
          if q.crosstab then (key, rows, all) => Some(if |all| >= 2 then 2 else 1)
            else (key, rows, all) => Some(if HasTwo(rows) then 2 else 1),
          rows => rows, if q.from.None? then None else Some(Counting(q.from.value)))
  }

  lemma {:induction false} CountingTrims(q: Query<int>)
    ensures TrimsOk(Counting(q)) && Local(Counting(q))
    decreases q
  {
    if q.from.Some? { CountingTrims(q.from.value); }
  }

  /** One level, over a row of b and possibly one of a that it keeps apart. */
  lemma CountedLevel(q: Query<int>, a: Dims, b: Dims, rows: Rows<int>)
    requires KeyAt(q, a) != KeyAt(q, b) && (rows.Keys == {a, b} || rows.Keys == {b})
    ensures var r := Grouped(Counting(q), rows);
            && r.Keys == (if a in rows then {KeyAt(q, a), KeyAt(q, b)} else {KeyAt(q, b)})
            && r[KeyAt(q, b)] == (if (q.crosstab && a in rows) || (!q.crosstab && rows[b] == 2) then 2 else 1)
  {
    hide KeyAt, GroupOf, GroupKeys, HasTwo;
    var r, key := Counting(q), KeyAt(q, b);
    SameKeys(q);
    OwnGroup(r, a, b, rows);
    TwoOrOne(a, b, rows);
    assert HasTwo(map[b := rows[b]]) <==> rows[b] == 2 by { SingleHasTwo(b, rows[b]); }
    assert r.rowOf(key, map[b := rows[b]], rows)
           == Some(if (q.crosstab && a in rows) || (!q.crosstab && rows[b] == 2) then 2 else 1);
    assert forall k :: r.rowOf(k, GroupOf(r, rows, k), rows).Some?;
  }

  lemma OwnGroup(q: Query<int>, a: Dims, b: Dims, rows: Rows<int>)
    requires KeyAt(q, a) != KeyAt(q, b) && (rows.Keys == {a, b} || rows.Keys == {b})
    ensures GroupOf(q, rows, KeyAt(q, b)) == map[b := rows[b]]
    ensures GroupKeys(q, rows) == if a in rows then {KeyAt(q, a), KeyAt(q, b)} else {KeyAt(q, b)}
  {
    hide KeyAt;
  }

  lemma TwoOrOne(a: Dims, b: Dims, rows: Rows<int>)
    requires a != b && (rows.Keys == {a, b} || rows.Keys == {b})
    ensures |rows| >= 2 <==> a in rows
  {
    assert |rows| == |rows.Keys|;
    assert |{a, b}| == 2 && |{b}| == 1;
  }

  lemma SingleHasTwo(b: Dims, v: int)
    ensures HasTwo(map[b := v]) <==> v == 2
  {
    assert b in map[b := v];
  }

  lemma SameKeys(q: Query<int>)
    ensures forall d :: KeyAt(Counting(q), d) == KeyAt(q, d)
  {
  }

  /** A crosstab anywhere sees both rows of the whole table, and one row of a partition. */
  lemma {:induction false} CountingAnswers(q: Query<int>, a: Dims, b: Dims, partition: Dims -> int, rows: Rows<int>)
    requires Separates(q, partition) && partition(a) != partition(b) && (rows.Keys == {a, b} || rows.Keys == {b})
             && rows[b] == 1
    ensures var r := Answer(Counting(q), rows);
            && r.Keys == (if a in rows then {FinalKey(q, a), FinalKey(q, b)} else {FinalKey(q, b)})
            && r[FinalKey(q, b)] == (if a in rows && !Uncrossed(q) then 2 else 1)
    decreases q
  {
    hide KeyAt, Separates, Grouped;
    Apart(q, a, b, partition);
    if q.from.None? {
      CountedLevel(q, a, b, rows);
    } else {
      var sub := q.from.value;
      SeparatesInside(q, partition);
      CountingAnswers(sub, a, b, partition, rows);
      CountedLevel(q, FinalKey(sub, a), FinalKey(sub, b), Answer(Counting(sub), rows));
    }
  }

  lemma CrossedIsNotUnion(q: Query<int>, partition: Dims -> int, a: Dims, b: Dims)
    requires Separates(q, partition) && partition(a) != partition(b) && !Uncrossed(q)
    ensures !IsUnion(Counting(q), map[a := 1, b := 1], partition)
  {
    hide FinalKey, Separates, Answer, Uncrossed;
    var rows: Rows<int> := map[a := 1, b := 1];
    var part := PartOf(rows, partition, partition(b));
    assert part.Keys == {b} && part[b] == 1;
    CountingAnswers(q, a, b, partition, rows);
    CountingAnswers(q, a, b, partition, part);
    var r, key := Counting(q), FinalKey(q, b);
    assert key in Answer(r, part) && At(Answer(r, rows), key) != At(Answer(r, part), key);
  }

  // ---------------------------------------------------------------- exactly when

  /** Two rows that may be in different partitions. */
  lemma SomePlaces(partitionBy: seq<string>)
    ensures exists a, b :: !SamePlace(a, b, partitionBy)
  {
    var a: Dims := map[];
    if partitionBy == [] {
      var b: Dims := map["" := Text("")];
      assert "" in b;
      assert !SamePlace(a, b, partitionBy);
    } else {
      var b: Dims := map[partitionBy[0] := Text("")];
      assert partitionBy[0] in partitionBy && Get(a, partitionBy[0]) != Get(b, partitionBy[0]);
      assert !SamePlace(a, b, partitionBy);
    }
  }

  /**
   * A query may be pushed down, whatever rows hold and limits keep, exactly when no
   * subquery orders or limits, no level is a crosstab and the outermost key tells
   * the partition keys.
   */
  lemma SafeIff(q: Query<int>, partitionBy: seq<string>)
    ensures IsSafe(q, partitionBy) <==> Untrimmed(q) && Uncrossed(q) && Tells(q, partitionBy)
  {
    hide IsUnion, FinalKey, TrimsOk, SameShape, Untrimmed, Uncrossed, Local, SamePlace, PartitionedBy, Tells, IsSafe;
    if Untrimmed(q) && Uncrossed(q) && Tells(q, partitionBy) {
      SafeIf(q, partitionBy);
    } else {
      UnsafeIf(q, partitionBy);
    }
  }

  lemma SafeIf(q: Query<int>, partitionBy: seq<string>)
    requires Untrimmed(q) && Uncrossed(q) && Tells(q, partitionBy)
    ensures IsSafe(q, partitionBy)
  {
    hide IsUnion, FinalKey, TrimsOk, SameShape, Untrimmed, Uncrossed, Local, PartitionedBy, Tells;
    forall partition, r, rows | PartitionedBy(partition, partitionBy) && SameShape(q, r) && TrimsOk(r) && Local(r)
      ensures IsUnion(r, rows, partition)
    {
      TellsSeparates(q, partition, partitionBy);
      forall d ensures FinalKey(q, d) == FinalKey(r, d) { ShapeDecides(q, r, d); }
      ShapeDecides(q, r, map[]);
      PushdownIsSound(r, rows, partition);
    }
  }

  lemma UnsafeIf(q: Query<int>, partitionBy: seq<string>)
    requires !Untrimmed(q) || !Uncrossed(q) || !Tells(q, partitionBy)
    ensures !IsSafe(q, partitionBy)
  {
    hide IsUnion, FinalKey, TrimsOk, SameShape, Untrimmed, Uncrossed, Local, SamePlace, PartitionedBy, IsSafe,
      Separates;
    if !Tells(q, partitionBy) {
      var c, d :| FinalKey(q, c) == FinalKey(q, d) && !SamePlace(c, d, partitionBy);
      var partition := SplitBy(c, d, partitionBy);
      CollisionIsNotUnion(q, partition, c, d);
      KeepingTrims(q, c);
      IsNotSafe(q, partitionBy, partition, Keeping(q, c), map[c := 1, d := 2]);
    } else {
      SomePlaces(partitionBy);
      var a, b :| !SamePlace(a, b, partitionBy);
      var partition := SplitBy(a, b, partitionBy);
      TellsSeparates(q, partition, partitionBy);
      if !Untrimmed(q) {
        LimitedIsNotUnion(q, partition, a, b);
        KeepingTrims(q, a);
        IsNotSafe(q, partitionBy, partition, Keeping(q, a), map[a := 1, b := 2]);
      } else {
        CrossedIsNotUnion(q, partition, a, b);
        CountingTrims(q);
        IsNotSafe(q, partitionBy, partition, Counting(q), map[a := 1, b := 1]);
      }
    }
  }
}
