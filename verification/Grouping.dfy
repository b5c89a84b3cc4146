/**
 * Grouping rows, in one phase or two, and crosstabs (core/group.go,
 * planner/cluster.go).
 *
 * For one period, a row adds a state to each output field of the group it
 * belongs to.  A query that cannot run on each partition by itself groups each
 * partition by the parameters of the GROUP BY expressions first and the union of
 * the results by the expressions; that is grouping all rows directly
 * (`TwoPhasesAreOne`).
 */
module Grouping {
  import opened Wrappers
  import opened Arithmetic
  import opened Accumulators
  import opened SubMergers
  import opened Columns

  /** The dimensions of a row, and what it adds to each output field. */
  datatype Part = Part(dims: Dims, cells: seq<Bytes>)

  predicate FieldsOk(fields: seq<Expr>) {
    forall i | 0 <= i < |fields| :: Sized(fields[i])
  }

  predicate Fits(fields: seq<Expr>, p: Part)
    requires FieldsOk(fields)
  {
    |p.cells| == |fields| && forall i | 0 <= i < |fields| :: IsState(fields[i], p.cells[i])
  }

  predicate AllFit(fields: seq<Expr>, rows: seq<Part>)
    requires FieldsOk(fields)
  {
    forall i | 0 <= i < |rows| :: Fits(fields, rows[i])
  }

  /** The merge of what the chosen rows add to a field. */
  function Total(fields: seq<Expr>, i: nat, rows: seq<Part>, keep: Dims -> bool): (r: Bytes)
    requires FieldsOk(fields) && AllFit(fields, rows) && i < |fields|
    ensures IsState(fields[i], r)
  {
    if rows == [] then
      ZerosAreState(fields[i]);
      Unset(fields[i])
    else
      var n := |rows| - 1;
      assert Fits(fields, rows[n]) && AllFit(fields, rows[..n]);
      var before := Total(fields, i, rows[..n], keep);
      MergeInPlace(fields[i], before, rows[n].cells[i]);
      if keep(rows[n].dims) then Merge(fields[i], before, rows[n].cells[i]) else before
  }

  // ---------------------------------------------------------------- laws of totals

  lemma TotalLast(fields: seq<Expr>, i: nat, rows: seq<Part>, keep: Dims -> bool)
    requires FieldsOk(fields) && AllFit(fields, rows) && i < |fields| && rows != []
    ensures var n := |rows| - 1;
            && AllFit(fields, rows[..n]) && Fits(fields, rows[n])
            && Total(fields, i, rows, keep)
               == if keep(rows[n].dims) then Merge(fields[i], Total(fields, i, rows[..n], keep), rows[n].cells[i])
                 else Total(fields, i, rows[..n], keep)
  {
    var n := |rows| - 1;
    assert Fits(fields, rows[n]);
  }

  lemma NothingTotal(fields: seq<Expr>, i: nat, keep: Dims -> bool)
    requires FieldsOk(fields) && i < |fields|
    ensures Total(fields, i, [], keep) == Unset(fields[i])
  {
  }

  lemma Swap(e: Expr, a: Bytes, b: Bytes, c: Bytes)
    requires Sized(e) && IsState(e, a) && IsState(e, b) && IsState(e, c)
    ensures Merge(e, Merge(e, a, b), c) == Merge(e, Merge(e, a, c), b)
    ensures Merge(e, Merge(e, a, b), c) == Merge(e, a, Merge(e, b, c))
  {
    hide Merge, IsState;
    MergeAssociates(e, a, b, c);
    MergeAssociates(e, a, c, b);
    MergeCommutes(e, b, c);
  }

  /** Choosing rows of either of two kinds adds up both. */
  lemma {:induction false} TotalSplits(fields: seq<Expr>, i: nat, rows: seq<Part>, p: Dims -> bool, q: Dims -> bool,
                                       r: Dims -> bool)
    requires FieldsOk(fields) && AllFit(fields, rows) && i < |fields|
    requires forall k | 0 <= k < |rows| :: var d := rows[k].dims; (r(d) <==> p(d) || q(d)) && !(p(d) && q(d))
    ensures Total(fields, i, rows, r) == Merge(fields[i], Total(fields, i, rows, p), Total(fields, i, rows, q))
  {
    hide Merge, IsState, Total, Fits;
    var e := fields[i];
    if rows == [] {
      NothingTotal(fields, i, p);
      NothingTotal(fields, i, q);
      NothingTotal(fields, i, r);
      ZerosAreState(e);
      MergeIdentity(e, Unset(e));
    } else {
      var n := |rows| - 1;
      TotalLast(fields, i, rows, p);
      TotalLast(fields, i, rows, q);
      TotalLast(fields, i, rows, r);
      TotalSplits(fields, i, rows[..n], p, q, r);
      CellIsState(fields, i, rows[n]);
      Swap(e, Total(fields, i, rows[..n], p), Total(fields, i, rows[..n], q), rows[n].cells[i]);
    }
  }

  lemma CellIsState(fields: seq<Expr>, i: nat, p: Part)
    requires FieldsOk(fields) && Fits(fields, p) && i < |fields|
    ensures |p.cells| == |fields| && IsState(fields[i], p.cells[i])
  {
  }

  /** Only which rows are chosen matters. */
  lemma {:induction false} TotalSame(fields: seq<Expr>, i: nat, rows: seq<Part>, p: Dims -> bool, q: Dims -> bool)
    requires FieldsOk(fields) && AllFit(fields, rows) && i < |fields|
    requires forall k | 0 <= k < |rows| :: p(rows[k].dims) == q(rows[k].dims)
    ensures Total(fields, i, rows, p) == Total(fields, i, rows, q)
  {
    hide Merge, IsState, Total, Fits;
    if rows == [] {
      NothingTotal(fields, i, p);
      NothingTotal(fields, i, q);
    } else {
      TotalLast(fields, i, rows, p);
      TotalLast(fields, i, rows, q);
      TotalSame(fields, i, rows[..|rows| - 1], p, q);
    }
  }

  /** No row chosen, nothing added. */
  lemma {:induction false} TotalOfNone(fields: seq<Expr>, i: nat, rows: seq<Part>, p: Dims -> bool)
    requires FieldsOk(fields) && AllFit(fields, rows) && i < |fields|
    requires forall k | 0 <= k < |rows| :: !p(rows[k].dims)
    ensures Total(fields, i, rows, p) == Unset(fields[i])
  {
    hide Merge, IsState, Total, Fits;
    if rows == [] {
      NothingTotal(fields, i, p);
    } else {
      TotalLast(fields, i, rows, p);
      TotalOfNone(fields, i, rows[..|rows| - 1], p);
    }
  }

  lemma {:induction false} TotalConcat(fields: seq<Expr>, i: nat, a: seq<Part>, b: seq<Part>, keep: Dims -> bool)
    requires FieldsOk(fields) && AllFit(fields, a) && AllFit(fields, b) && i < |fields|
    ensures AllFit(fields, a + b)
    ensures Total(fields, i, a + b, keep) == Merge(fields[i], Total(fields, i, a, keep), Total(fields, i, b, keep))
  {
    hide Merge, IsState, Total, Fits;
    var e := fields[i];
    if b == [] {
      assert a + b == a;
      NothingTotal(fields, i, keep);
      MergeIdentity(e, Total(fields, i, a, keep));
    } else {
      var n := |b| - 1;
      assert (a + b)[..|a| + n] == a + b[..n] && (a + b)[|a| + n] == b[n];
      TotalLast(fields, i, b, keep);
      TotalConcat(fields, i, a, b[..n], keep);
      TotalLast(fields, i, a + b, keep);
      CellIsState(fields, i, b[n]);
      Swap(e, Total(fields, i, a, keep), Total(fields, i, b[..n], keep), b[n].cells[i]);
    }
  }

  /** A row in the middle can be merged last. */
  lemma TotalMovesLast(fields: seq<Expr>, i: nat, a: seq<Part>, x: Part, b: seq<Part>, keep: Dims -> bool)
    requires FieldsOk(fields) && AllFit(fields, a) && AllFit(fields, b) && Fits(fields, x) && i < |fields|
    ensures AllFit(fields, a + [x] + b) && AllFit(fields, a + b + [x])
    ensures Total(fields, i, a + [x] + b, keep) == Total(fields, i, a + b + [x], keep)
  {
    hide Merge, IsState, Total, Fits;
    var e := fields[i];
    TotalConcat(fields, i, a, [x], keep);
    TotalConcat(fields, i, a + [x], b, keep);
    TotalConcat(fields, i, a, b, keep);
    TotalConcat(fields, i, a + b, [x], keep);
    Swap(e, Total(fields, i, a, keep), Total(fields, i, [x], keep), Total(fields, i, b, keep));
  }

  /** The order of rows does not matter. */
  lemma {:induction false} TotalPermutes(fields: seq<Expr>, i: nat, a: seq<Part>, b: seq<Part>, keep: Dims -> bool)
    requires FieldsOk(fields) && AllFit(fields, a) && AllFit(fields, b) && i < |fields| && multiset(a) == multiset(b)
    ensures Total(fields, i, a, keep) == Total(fields, i, b, keep)
    decreases |a|
  {
    hide Merge, IsState, Total, Fits;
    if a == [] {
      assert |multiset(b)| == 0;
    } else {
      var n := |a| - 1;
      var k := Place(b, a[n], a);
      Removed(a, n, b, k);
      PermuteStep(fields, i, a, b, k, keep);
      TotalPermutes(fields, i, a[..n], b[..k] + b[k + 1..], keep);
    }
  }

  lemma Place(b: seq<Part>, x: Part, a: seq<Part>) returns (k: nat)
    requires multiset(a) == multiset(b) && x in a
    ensures k < |b| && b[k] == x
  {
    assert x in multiset(b);
    k :| 0 <= k < |b| && b[k] == x;
  }

  lemma PermuteStep(fields: seq<Expr>, i: nat, a: seq<Part>, b: seq<Part>, k: nat, keep: Dims -> bool)
    requires FieldsOk(fields) && AllFit(fields, a) && AllFit(fields, b) && i < |fields| && a != [] && k < |b|
             && b[k] == a[|a| - 1]
    ensures var rest := b[..k] + b[k + 1..];
            && AllFit(fields, rest) && AllFit(fields, a[..|a| - 1])
            && (Total(fields, i, a[..|a| - 1], keep) == Total(fields, i, rest, keep)
               ==> Total(fields, i, a, keep) == Total(fields, i, b, keep))
  {
    hide Merge, IsState, Total, Fits;
    var x, b1, b2 := b[k], b[..k], b[k + 1..];
    assert b == b1 + [x] + b2;
    TotalMovesLast(fields, i, b1, x, b2, keep);
    assert (b1 + b2 + [x])[..|b1 + b2|] == b1 + b2;
    TotalLast(fields, i, a, keep);
    TotalLast(fields, i, b1 + b2 + [x], keep);
  }

  lemma Without(b: seq<Part>, k: nat)
    requires k < |b|
    ensures multiset(b[..k] + b[k + 1..]) == multiset(b) - multiset{b[k]}
  {
    var b1, b2 := b[..k], b[k + 1..];
    assert b == (b1 + [b[k]]) + b2;
    assert multiset(b) == multiset(b1 + [b[k]]) + multiset(b2);
    assert multiset(b1 + [b[k]]) == multiset(b1) + multiset{b[k]};
    assert multiset(b1 + b2) == multiset(b1) + multiset(b2);
  }

  lemma Removed(a: seq<Part>, n: nat, b: seq<Part>, k: nat)
    requires |a| == n + 1 && k < |b| && a[n] == b[k] && multiset(a) == multiset(b)
    ensures multiset(a[..n]) == multiset(b[..k] + b[k + 1..])
  {
    Without(a, n);
    Without(b, k);
    assert a[..n] + a[n + 1..] == a[..n];
  }

  // ---------------------------------------------------------------- keys of groups

  /** A GROUP BY expression: a name, the dimensions it looks at, and its value. */
  datatype GroupBy = GroupBy(name: string, params: set<string>, eval: Dims -> Option<Value>)

  function Restrict(d: Dims, names: set<string>): Dims {
    map k | k in d && k in names :: d[k]
  }

  /** The value depends on no other dimensions. */
  ghost predicate DependsOnParams(g: GroupBy) {
    forall d :: g.eval(d) == g.eval(Restrict(d, g.params))
  }

  function Sliced(gbs: seq<GroupBy>, d: Dims): Dims {
    if gbs == [] then map[] else
      var n := |gbs| - 1;
      var val := gbs[n].eval(d);
      if val.Some? then Sliced(gbs[..n], d)[gbs[n].name := val.value] else Sliced(gbs[..n], d)
  }

  /** The key of a row's group; without expressions all dimensions are kept. */
  function SliceKey(gbs: seq<GroupBy>, d: Dims): Dims {
    if gbs == [] then d else Sliced(gbs, d)
  }

  /** A query's crosstab: none, one whose values partitions put under `_crosstab`, or one to evaluate. */
  datatype Crosstab = NoCrosstab | ByCluster | ByValue

  const CROSSTAB := "_crosstab"

  /** The key of a row's group: without expressions, a crosstab leaves no dimensions, or all but its own. */
  function GroupKey(gbs: seq<GroupBy>, crosstab: Crosstab, d: Dims): Dims {
    if gbs != [] || crosstab.NoCrosstab? then SliceKey(gbs, d)
    else if crosstab.ByCluster? then d - {CROSSTAB}
    else map[]
  }

  /** The k-th expression is the last with a name that has a value, and that is v. */
  predicate IsLast(gbs: seq<GroupBy>, k: int, d: Dims, name: string, v: Value) {
    && 0 <= k < |gbs| && gbs[k].name == name && gbs[k].eval(d) == Some(v)
    && forall l | k < l < |gbs| && gbs[l].name == name :: gbs[l].eval(d) == None
  }

  predicate HasValue(gbs: seq<GroupBy>, d: Dims, name: string, v: Value) {
    exists k :: 0 <= k < |gbs| && IsLast(gbs, k, d, name, v)
  }

  lemma {:induction false} SlicedAt(gbs: seq<GroupBy>, d: Dims, name: string, v: Value)
    ensures HasValue(gbs, d, name, v) <==> name in Sliced(gbs, d) && Sliced(gbs, d)[name] == v
  {
    if gbs != [] {
      var n := |gbs| - 1;
      SlicedAt(gbs[..n], d, name, v);
      if gbs[n].name == name && gbs[n].eval(d).Some? {
        assert gbs[n].eval(d) == Some(v) ==> IsLast(gbs, n, d, name, v);
      } else {
        assert forall k :: IsLast(gbs[..n], k, d, name, v) <==> IsLast(gbs, k, d, name, v);
      }
    }
  }

  /**
   * sliceKey of group.Iterate: the values of the expressions that have one.  Without
   * expressions all dimensions are left, with a crosstab none, and with the crosstab
   * of a cluster all but its own.
   */
  method SliceRow(gbs: seq<GroupBy>, crosstab: Crosstab, d: Dims) returns (key: Dims)
    ensures key == GroupKey(gbs, crosstab, d)
    ensures gbs == [] && crosstab.NoCrosstab? ==> key == d
    ensures gbs == [] && crosstab.ByValue? ==> forall name :: name !in key
    ensures gbs == [] && crosstab.ByCluster? ==>
              forall name :: (name in key <==> name in d && name != "_crosstab")
                             && (name in key ==> key[name] == d[name])
    ensures gbs != [] ==> forall name, v ::
              HasValue(gbs, d, name, v) <==> name in key && key[name] == v
  {
    if gbs == [] {
      match crosstab
      case ByCluster => return d - {CROSSTAB};
      case ByValue => return map[];
      case NoCrosstab => return d;
    }
    key := map[];
    for i := 0 to |gbs|
      invariant key == Sliced(gbs[..i], d)
    {
      assert gbs[..i + 1][..i] == gbs[..i];
      var val := gbs[i].eval(d);
      if val.Some? { key := key[gbs[i].name := val.value]; }
    }
    assert gbs[..|gbs|] == gbs;
    forall name, v ensures HasValue(gbs, d, name, v) <==> name in key && key[name] == v {
      SlicedAt(gbs, d, name, v);
    }
  }

  function Params(gbs: seq<GroupBy>): set<string> {
    if gbs == [] then {} else Params(gbs[..|gbs| - 1]) + gbs[|gbs| - 1].params
  }

  /** What partitions group by: the parameters of the expressions, or everything if there are none. */
  function InnerKey(gbs: seq<GroupBy>, d: Dims): Dims {
    if Params(gbs) == {} then d else Restrict(d, Params(gbs))
  }

  lemma {:induction false} SlicedOfRestricted(gbs: seq<GroupBy>, d: Dims, names: set<string>)
    requires (forall g | g in gbs :: DependsOnParams(g)) && Params(gbs) <= names
    ensures Sliced(gbs, Restrict(d, names)) == Sliced(gbs, d)
  {
    if gbs != [] {
      var n := |gbs| - 1;
      var g := gbs[n];
      assert g in gbs;
      SlicedOfRestricted(gbs[..n], d, names);
      assert Restrict(Restrict(d, names), g.params) == Restrict(d, g.params);
      assert g.eval(Restrict(d, names)) == g.eval(Restrict(Restrict(d, names), g.params));
      assert g.eval(d) == g.eval(Restrict(d, g.params));
    }
  }

  /** Grouping what was grouped by parameters gives the same key. */
  lemma KeyOfKey(gbs: seq<GroupBy>, d: Dims)
    requires forall g | g in gbs :: DependsOnParams(g)
    ensures SliceKey(gbs, InnerKey(gbs, d)) == SliceKey(gbs, d)
  {
    if Params(gbs) != {} { SlicedOfRestricted(gbs, d, Params(gbs)); }
  }

  /** Grouping by dimensions themselves. */
  function ParamGroups(names: seq<string>): (r: seq<GroupBy>)
    ensures |r| == |names|
  {
    seq(|names|, i requires 0 <= i < |names| => GroupBy(names[i], {names[i]}, (d: Dims) => if names[i] in d
      then Some(d[names[i]]) else None))
  }

  /** The key by dimensions is what is left of the dimensions. */
  lemma {:induction false} SlicedByParams(names: seq<string>, d: Dims)
    ensures Sliced(ParamGroups(names), d) == Restrict(d, set x | x in names)
  {
    if names != [] {
      var n := |names| - 1;
      SlicedByParams(names[..n], d);
      assert ParamGroups(names)[..n] == ParamGroups(names[..n]);
      assert names == names[..n] + [names[n]];
    }
  }

  // ---------------------------------------------------------------- grouping

  function Slicing(gbs: seq<GroupBy>, key: Dims): Dims -> bool {
    d => SliceKey(gbs, d) == key
  }

  ghost predicate HasKey(gbs: seq<GroupBy>, rows: seq<Part>, key: Dims) {
    exists k :: 0 <= k < |rows| && SliceKey(gbs, rows[k].dims) == key
  }

  /** What grouping rows comes to: the keys of all rows, and for each the merge of what its rows add. */
  ghost predicate IsGrouping(fields: seq<Expr>, gbs: seq<GroupBy>, rows: seq<Part>, tree: map<Dims, seq<Bytes>>)
    requires FieldsOk(fields) && AllFit(fields, rows)
  {
    && (forall key :: key in tree <==> HasKey(gbs, rows, key))
    && forall key | key in tree ::
         |tree[key]| == |fields| && forall i | 0 <= i < |fields| ::
           tree[key][i] == Total(fields, i, rows, Slicing(gbs, key))
  }

  /** A cell after a state was merged into it. */
  predicate Added(e: Expr, was: Bytes, more: Bytes, now: Bytes)
    requires Sized(e)
  {
    IsState(e, was) && IsState(e, more) && now == Merge(e, was, more)
  }

  lemma GroupNext(fields: seq<Expr>, gbs: seq<GroupBy>, rows: seq<Part>, n: nat,
                  tree: map<Dims, seq<Bytes>>, key: Dims, cells: seq<Bytes>)
    requires FieldsOk(fields) && AllFit(fields, rows) && n < |rows| && AllFit(fields, rows[..n])
             && IsGrouping(fields, gbs, rows[..n], tree)
    requires key == SliceKey(gbs, rows[n].dims) && Fits(fields, rows[n]) && |cells| == |fields|
    requires forall i | 0 <= i < |fields| :: Added(fields[i], if key in tree then tree[key][i]
             else Unset(fields[i]), rows[n].cells[i], cells[i])
    ensures AllFit(fields, rows[..n + 1]) && IsGrouping(fields, gbs, rows[..n + 1], tree[key := cells])
  {
    hide Merge, IsState, Total, SliceKey, Fits;
    var now := rows[..n + 1];
    assert now[..n] == rows[..n] && now[n] == rows[n];
    assert AllFit(fields, now);
    forall k, i: nat | i < |fields| && (k in tree || k == key)
      ensures Total(fields, i, now, Slicing(gbs, k)) == if k == key then cells[i] else tree[k][i]
    {
      TotalLast(fields, i, now, Slicing(gbs, k));
      if k !in tree {
        TotalOfNone(fields, i, rows[..n], Slicing(gbs, k));
      }
    }
    forall k ensures HasKey(gbs, now, k) <==> k in tree || k == key {
      if HasKey(gbs, rows[..n], k) {
        var m :| 0 <= m < n && SliceKey(gbs, rows[..n][m].dims) == k;
        assert now[m] == rows[..n][m];
      }
      if k == key { assert SliceKey(gbs, now[n].dims) == k; }
      if HasKey(gbs, now, k) && k != key {
        var m :| 0 <= m < |now| && SliceKey(gbs, now[m].dims) == k;
        assert m < n && rows[..n][m] == now[m];
      }
    }
  }

  // ---------------------------------------------------------------- two phases

  /** The rows that a partition sends on: one for each key of its own grouping, in some order. */
  ghost predicate IsPhaseOne(fields: seq<Expr>, gbs: seq<GroupBy>, rows: seq<Part>, out: seq<Part>)
    requires FieldsOk(fields) && AllFit(fields, rows)
  {
    && AllFit(fields, out)
    && (forall j, k | 0 <= j < k < |out| :: out[j].dims != out[k].dims)
    && (forall k | 0 <= k < |rows| :: IsSent(out, InnerKey(gbs, rows[k].dims)))
    && (forall j | 0 <= j < |out| :: ComesFrom(gbs, rows, out[j].dims))
    && forall j | 0 <= j < |out| :: SendsTotals(fields, gbs, rows, out[j])
  }

  predicate IsSent(out: seq<Part>, key: Dims) {
    exists j :: 0 <= j < |out| && out[j].dims == key
  }

  predicate ComesFrom(gbs: seq<GroupBy>, rows: seq<Part>, key: Dims) {
    exists k :: 0 <= k < |rows| && InnerKey(gbs, rows[k].dims) == key
  }

  predicate SendsTotals(fields: seq<Expr>, gbs: seq<GroupBy>, rows: seq<Part>, p: Part)
    requires FieldsOk(fields) && AllFit(fields, rows)
  {
    |p.cells| == |fields| && forall i | 0 <= i < |fields| ::
      p.cells[i] == Total(fields, i, rows, Restricting(gbs, p.dims))
  }

  function Restricting(gbs: seq<GroupBy>, key: Dims): Dims -> bool {
    d => InnerKey(gbs, d) == key
  }

  /** A tree's rows in the order of a walk. */
  ghost predicate Walked(fields: seq<Expr>, tree: map<Dims, seq<Bytes>>, out: seq<Part>) {
    && (forall j, k | 0 <= j < k < |out| :: out[j].dims != out[k].dims)
    && (forall j | 0 <= j < |out| :: out[j].dims in tree && out[j].cells == tree[out[j].dims])
    && forall key | key in tree :: exists j :: 0 <= j < |out| && out[j].dims == key
  }

  lemma InnerIsSliced(gbs: seq<GroupBy>, names: seq<string>, d: Dims)
    requires names != [] && (set x | x in names) == Params(gbs)
    ensures SliceKey(ParamGroups(names), d) == InnerKey(gbs, d)
  {
    assert names[0] in Params(gbs);
    SlicedByParams(names, d);
  }

  /** Grouping a partition by the parameters is the first phase. */
  lemma PhaseOneGroups(fields: seq<Expr>, gbs: seq<GroupBy>, names: seq<string>, rows: seq<Part>,
                       tree: map<Dims, seq<Bytes>>, out: seq<Part>)
    requires FieldsOk(fields) && AllFit(fields, rows) && names != [] && (set x | x in names) == Params(gbs)
    requires IsGrouping(fields, ParamGroups(names), rows, tree) && Walked(fields, tree, out)
    ensures IsPhaseOne(fields, gbs, rows, out)
  {
    hide Total, SliceKey, InnerKey, Fits, IsState, ParamGroups;
    var inner := ParamGroups(names);
    forall k | 0 <= k < |rows|
      ensures SliceKey(inner, rows[k].dims) == InnerKey(gbs, rows[k].dims)
    {
      InnerIsSliced(gbs, names, rows[k].dims);
    }
    forall j | 0 <= j < |out| ensures Fits(fields, out[j]) && |out[j].cells| == |fields| {
      TreeFits(fields, inner, rows, tree, out[j].dims);
    }
    assert AllFit(fields, out);
    forall j | 0 <= j < |out| ensures SendsTotals(fields, gbs, rows, out[j]) && ComesFrom(gbs, rows, out[j].dims) {
      forall i: nat | i < |fields| ensures out[j].cells[i] == Total(fields, i, rows, Restricting(gbs, out[j].dims)) {
        TotalSame(fields, i, rows, Slicing(inner, out[j].dims), Restricting(gbs, out[j].dims));
      }
      assert HasKey(inner, rows, out[j].dims);
    }
    forall k | 0 <= k < |rows| ensures IsSent(out, InnerKey(gbs, rows[k].dims)) {
      assert HasKey(inner, rows, InnerKey(gbs, rows[k].dims));
    }
  }

  lemma TreeFits(fields: seq<Expr>, gbs: seq<GroupBy>, rows: seq<Part>, tree: map<Dims, seq<Bytes>>, key: Dims)
    requires FieldsOk(fields) && AllFit(fields, rows) && IsGrouping(fields, gbs, rows, tree) && key in tree
    ensures Fits(fields, Part(key, tree[key]))
  {
    hide IsState, SliceKey;
  }

  /** Rows whose inner key is one of the first m sent on, and is chosen. */
  function Covered(gbs: seq<GroupBy>, out: seq<Part>, m: nat, keep: Dims -> bool): Dims -> bool
    requires m <= |out|
  {
    d => (exists j :: 0 <= j < m && out[j].dims == InnerKey(gbs, d)) && keep(InnerKey(gbs, d))
  }

  /** Totals of what a partition sends on are totals of its rows. */
  lemma {:induction false} RegroupedUpTo(fields: seq<Expr>, gbs: seq<GroupBy>, i: nat, rows: seq<Part>,
                                         out: seq<Part>, m: nat, keep: Dims -> bool)
    requires FieldsOk(fields) && AllFit(fields, rows) && i < |fields| && IsPhaseOne(fields, gbs, rows, out)
             && m <= |out|
    ensures AllFit(fields, out[..m])
    ensures Total(fields, i, out[..m], keep) == Total(fields, i, rows, Covered(gbs, out, m, keep))
    decreases m
  {
    hide Merge, IsState, Total, InnerKey, Fits;
    if m == 0 {
      NothingTotal(fields, i, keep);
      TotalOfNone(fields, i, rows, Covered(gbs, out, 0, keep));
    } else {
      var n := m - 1;
      RegroupedUpTo(fields, gbs, i, rows, out, n, keep);
      assert out[..m][..n] == out[..n] && out[..m][n] == out[n];
      TotalLast(fields, i, out[..m], keep);
      var p, q, r := Covered(gbs, out, n, keep), Restricting(gbs, out[n].dims), Covered(gbs, out, m, keep);
      CoveredNext(gbs, rows, out, n, keep);
      if keep(out[n].dims) {
        TotalSplits(fields, i, rows, p, q, r);
      } else {
        TotalSame(fields, i, rows, p, r);
      }
    }
  }

  lemma CoveredNext(gbs: seq<GroupBy>, rows: seq<Part>, out: seq<Part>, n: nat, keep: Dims -> bool)
    requires n < |out| && forall j, k | 0 <= j < k < |out| :: out[j].dims != out[k].dims
    ensures forall k | 0 <= k < |rows| ::
      var d := rows[k].dims;
      var p, q, r := Covered(gbs, out, n, keep)(d), Restricting(gbs, out[n].dims)(d), Covered(gbs, out, n + 1, keep)(d);
      if keep(out[n].dims) then (r <==> p || q) && !(p && q) else p == r
  {
    hide InnerKey;
  }

  lemma Regrouped(fields: seq<Expr>, gbs: seq<GroupBy>, i: nat, rows: seq<Part>, out: seq<Part>, keep: Dims -> bool)
    requires FieldsOk(fields) && AllFit(fields, rows) && i < |fields| && IsPhaseOne(fields, gbs, rows, out)
    ensures Total(fields, i, out, keep) == Total(fields, i, rows, d => keep(InnerKey(gbs, d)))
  {
    hide Total, InnerKey, Fits, IsState;
    assert out[..|out|] == out;
    RegroupedUpTo(fields, gbs, i, rows, out, |out|, keep);
    TotalSame(fields, i, rows, Covered(gbs, out, |out|, keep), d => keep(InnerKey(gbs, d)));
  }

  /** The union of what all partitions send on. */
  function Union(parts: seq<seq<Part>>): seq<Part> {
    if parts == [] then [] else Union(parts[..|parts| - 1]) + parts[|parts| - 1]
  }

  ghost predicate ArePhaseOnes(fields: seq<Expr>, gbs: seq<GroupBy>, parts: seq<seq<Part>>, outs: seq<seq<Part>>)
    requires FieldsOk(fields)
  {
    |outs| == |parts| && forall p | 0 <= p < |parts| ::
      AllFit(fields, parts[p]) && IsPhaseOne(fields, gbs, parts[p], outs[p])
  }

  lemma {:induction false} UnionTotals(fields: seq<Expr>, gbs: seq<GroupBy>, i: nat,
                                       parts: seq<seq<Part>>, outs: seq<seq<Part>>, keep: Dims -> bool)
    requires FieldsOk(fields) && i < |fields| && ArePhaseOnes(fields, gbs, parts, outs)
    ensures AllFit(fields, Union(parts)) && AllFit(fields, Union(outs))
    ensures Total(fields, i, Union(outs), keep) == Total(fields, i, Union(parts), d => keep(InnerKey(gbs, d)))
  {
    hide Total, InnerKey, Fits, IsState, Merge, IsPhaseOne;
    var inner := d => keep(InnerKey(gbs, d));
    if parts == [] {
      NothingTotal(fields, i, keep);
      NothingTotal(fields, i, inner);
    } else {
      var n := |parts| - 1;
      UnionTotals(fields, gbs, i, parts[..n], outs[..n], keep);
      assert AllFit(fields, outs[n]) by { PhaseOneFits(fields, gbs, parts[n], outs[n]); }
      Regrouped(fields, gbs, i, parts[n], outs[n], keep);
      TotalConcat(fields, i, Union(parts[..n]), parts[n], inner);
      TotalConcat(fields, i, Union(outs[..n]), outs[n], keep);
    }
  }

  lemma PhaseOneFits(fields: seq<Expr>, gbs: seq<GroupBy>, rows: seq<Part>, out: seq<Part>)
    requires FieldsOk(fields) && AllFit(fields, rows) && IsPhaseOne(fields, gbs, rows, out)
    ensures AllFit(fields, out)
  {
  }

  lemma {:induction false} UnionKeys(fields: seq<Expr>, gbs: seq<GroupBy>, parts: seq<seq<Part>>,
                                     outs: seq<seq<Part>>, key: Dims)
    requires FieldsOk(fields) && ArePhaseOnes(fields, gbs, parts, outs) && forall g | g in gbs :: DependsOnParams(g)
    ensures HasKey(gbs, Union(outs), key) <==> HasKey(gbs, Union(parts), key)
  {
    hide InnerKey, Fits, Total, SliceKey, DependsOnParams;
    if parts != [] {
      var n := |parts| - 1;
      UnionKeys(fields, gbs, parts[..n], outs[..n], key);
      HasKeyConcat(gbs, Union(parts[..n]), parts[n], key);
      HasKeyConcat(gbs, Union(outs[..n]), outs[n], key);
      PhaseOneKeys(fields, gbs, parts[n], outs[n], key);
    }
  }

  lemma HasKeyConcat(gbs: seq<GroupBy>, a: seq<Part>, b: seq<Part>, key: Dims)
    ensures HasKey(gbs, a + b, key) <==> HasKey(gbs, a, key) || HasKey(gbs, b, key)
  {
    hide SliceKey;
    if HasKey(gbs, a, key) {
      var k :| 0 <= k < |a| && SliceKey(gbs, a[k].dims) == key;
      assert (a + b)[k] == a[k];
    }
    if HasKey(gbs, b, key) {
      var k :| 0 <= k < |b| && SliceKey(gbs, b[k].dims) == key;
      assert (a + b)[|a| + k] == b[k];
    }
  }

  lemma PhaseOneKeys(fields: seq<Expr>, gbs: seq<GroupBy>, rows: seq<Part>, out: seq<Part>, key: Dims)
    requires FieldsOk(fields) && AllFit(fields, rows) && IsPhaseOne(fields, gbs, rows, out)
             && forall g | g in gbs :: DependsOnParams(g)
    ensures HasKey(gbs, out, key) <==> HasKey(gbs, rows, key)
  {
    hide InnerKey, Fits, Total, SliceKey, DependsOnParams;
    forall k | 0 <= k < |rows|
      ensures SliceKey(gbs, InnerKey(gbs, rows[k].dims)) == SliceKey(gbs, rows[k].dims)
    {
      KeyOfKey(gbs, rows[k].dims);
    }
    if HasKey(gbs, out, key) {
      var j :| 0 <= j < |out| && SliceKey(gbs, out[j].dims) == key;
      assert ComesFrom(gbs, rows, out[j].dims);
      var k :| 0 <= k < |rows| && InnerKey(gbs, rows[k].dims) == out[j].dims;
    }
    if HasKey(gbs, rows, key) {
      var k :| 0 <= k < |rows| && SliceKey(gbs, rows[k].dims) == key;
      assert IsSent(out, InnerKey(gbs, rows[k].dims));
      var j :| 0 <= j < |out| && out[j].dims == InnerKey(gbs, rows[k].dims);
    }
  }

  /**
   * Grouping each partition by the parameters of the GROUP BY expressions and
   * then the union by the expressions is grouping all rows by the expressions.
   */
  lemma TwoPhasesAreOne(fields: seq<Expr>, gbs: seq<GroupBy>, parts: seq<seq<Part>>,
                        outs: seq<seq<Part>>, tree: map<Dims, seq<Bytes>>)
    requires FieldsOk(fields) && ArePhaseOnes(fields, gbs, parts, outs) && AllFit(fields, Union(outs))
             && AllFit(fields, Union(parts))
    requires forall g | g in gbs :: DependsOnParams(g)
    requires IsGrouping(fields, gbs, Union(outs), tree)
    ensures IsGrouping(fields, gbs, Union(parts), tree)
  {
    hide InnerKey, Fits, Total, SliceKey, DependsOnParams, Union, ArePhaseOnes, IsState;
    forall key
      ensures HasKey(gbs, Union(outs), key) <==> HasKey(gbs, Union(parts), key)
    {
      UnionKeys(fields, gbs, parts, outs, key);
    }
    forall key, i: nat | key in tree && i < |fields| ensures tree[key][i]
      == Total(fields, i, Union(parts), Slicing(gbs, key)) {
      UnionTotals(fields, gbs, i, parts, outs, Slicing(gbs, key));
      var inner := d => Slicing(gbs, key)(InnerKey(gbs, d));
      forall k | 0 <= k < |Union(parts)| ensures inner(Union(parts)[k].dims)
        == Slicing(gbs, key)(Union(parts)[k].dims) {
        KeyOfKey(gbs, Union(parts)[k].dims);
      }
      TotalSame(fields, i, Union(parts), inner, Slicing(gbs, key));
    }
  }

  // ---------------------------------------------------------------- crosstabs

  /** Rows of a group with a given crosstab value. */
  function WithValue(crosstab: Dims -> string, v: string, keep: Dims -> bool): Dims -> bool {
    d => crosstab(d) == v && keep(d)
  }

  function WithValues(crosstab: Dims -> string, values: seq<string>, keep: Dims -> bool): Dims -> bool {
    d => crosstab(d) in values && keep(d)
  }

  /** The merge of a field's columns for all crosstab values. */
  function CrosstabTotal(fields: seq<Expr>, i: nat, rows: seq<Part>, crosstab: Dims -> string,
                         values: seq<string>, keep: Dims -> bool): (r: Bytes)
    requires FieldsOk(fields) && AllFit(fields, rows) && i < |fields|
    ensures IsState(fields[i], r)
  {
    if values == [] then
      ZerosAreState(fields[i]);
      Unset(fields[i])
    else
      var n := |values| - 1;
      var before, column := CrosstabTotal(fields, i, rows, crosstab, values[..n], keep),
        Total(fields, i, rows, WithValue(crosstab, values[n], keep));
      MergeInPlace(fields[i], before, column);
      Merge(fields[i], before, column)
  }

  lemma {:induction false} CrosstabCovers(fields: seq<Expr>, i: nat, rows: seq<Part>, crosstab: Dims -> string,
                                          values: seq<string>, keep: Dims -> bool)
    requires FieldsOk(fields) && AllFit(fields, rows) && i < |fields|
    requires forall j, k | 0 <= j < k < |values| :: values[j] != values[k]
    ensures CrosstabTotal(fields, i, rows, crosstab, values, keep)
            == Total(fields, i, rows, WithValues(crosstab, values, keep))
  {
    hide Merge, IsState, Total, Fits;
    if values == [] {
      TotalOfNone(fields, i, rows, WithValues(crosstab, values, keep));
    } else {
      var n := |values| - 1;
      CrosstabCovers(fields, i, rows, crosstab, values[..n], keep);
      assert values == values[..n] + [values[n]];
      assert values[n] !in values[..n];
      TotalSplits(fields, i, rows, WithValues(crosstab, values[..n], keep), WithValue(crosstab, values[n], keep),
        WithValues(crosstab, values, keep));
    }
  }

  /**
   * A crosstab conserves data: for every group and field, merging the columns of
   * all crosstab values that occur gives the total column.
   */
  lemma CrosstabConserves(fields: seq<Expr>, i: nat, rows: seq<Part>, crosstab: Dims -> string,
                          values: seq<string>, keep: Dims -> bool)
    requires FieldsOk(fields) && AllFit(fields, rows) && i < |fields|
    requires forall j, k | 0 <= j < k < |values| :: values[j] != values[k]
    requires forall k | 0 <= k < |rows| :: crosstab(rows[k].dims) in values
    ensures CrosstabTotal(fields, i, rows, crosstab, values, keep) == Total(fields, i, rows, keep)
  {
    hide Total, CrosstabTotal, Fits, IsState;
    CrosstabCovers(fields, i, rows, crosstab, values, keep);
    TotalSame(fields, i, rows, WithValues(crosstab, values, keep), keep);
  }
}
