/**
 * Crosstabs (core/group.go).
 *
 * A crosstab turns each field into one column for each value of the crosstab
 * expression, the IF of "crosstab = value" over the field, and into a total.  The
 * columns are ordinary fields: they are submerged from what is stored, row by row.
 * Merging the columns of a field gives its total, for every group
 * (`CrosstabConserves`).
 */
module Crosstabs {
  import opened Wrappers
  import opened Arithmetic
  import opened Accumulators
  import opened SubMergers
  import opened Columns
  import opened StoredLeaves
  import opened Regrouping
  import Passthrough
  import Grouping

  /** How a crosstab is written in a condition, and what it is for a row. */
  datatype Crosstab = Crosstab(cond: string -> string, eval: Dims -> string)

  /** Conditions compare what the crosstab is for the row. */
  ghost predicate Compares(sem: Conditions, ct: Crosstab) {
    forall v, d :: sem(ct.cond(v), d) == Some(Truth(ct.eval(d) == v))
  }

  function Column(ct: Crosstab, v: string, e: Expr): Expr {
    If(Some(ct.cond(v)), e)
  }

  // ---------------------------------------------------------------- values and columns

  predicate Distinct(values: seq<string>) {
    forall j, k | 0 <= j < k < |values| :: values[j] != values[k]
  }

  /** The values of the crosstab that occur, each once. */
  method CollectValues(ct: Crosstab, rows: seq<Record>) returns (values: seq<string>)
    ensures Distinct(values) && forall v :: v in values <==> exists k :: 0 <= k < |rows| && ct.eval(rows[k].dims) == v
  {
    values := [];
    for i := 0 to |rows|
      invariant Distinct(values)
      invariant forall v :: v in values <==> exists k :: 0 <= k < i && ct.eval(rows[k].dims) == v
    {
      var v := ct.eval(rows[i].dims);
      if v !in values { values := values + [v]; }
    }
  }

  /** The columns of all fields for all values, value by value. */
  function ColumnsFor(ct: Crosstab, values: seq<string>, fields: seq<Expr>): (r: seq<Expr>)
    ensures |r| == |values| * |fields|
  {
    if values == [] then []
    else
      var n := |values| - 1;
      Product(n, |fields|);
      ColumnsFor(ct, values[..n], fields) + ColumnsOf(ct, values[n], fields)
  }

  function ColumnsOf(ct: Crosstab, v: string, fields: seq<Expr>): (r: seq<Expr>)
    ensures |r| == |fields|
  {
    seq(|fields|, i requires 0 <= i < |fields| => Column(ct, v, fields[i]))
  }

  lemma Product(n: nat, m: nat)
    ensures (n + 1) * m == n * m + m
  {
  }

  /** Where the column of a value and field is. */
  function Place(m: nat, v: nat, i: nat): nat {
    v * m + i
  }

  lemma {:induction false} ColumnAt(ct: Crosstab, values: seq<string>, fields: seq<Expr>, v: nat, i: nat)
    requires v < |values| && i < |fields|
    ensures Place(|fields|, v, i) < |values| * |fields|
            && ColumnsFor(ct, values, fields)[Place(|fields|, v, i)] == Column(ct, values[v], fields[i])
  {
    var n := |values| - 1;
    Product(n, |fields|);
    if v < n { ColumnAt(ct, values[..n], fields, v, i); }
  }

  /**
   * The fields of a crosstab: the columns, the totals if they are asked for, and
   * what HAVING needs, which is no column.
   */
  method CrosstabFields(ct: Crosstab, values: seq<string>, fields: seq<Expr>, having: Option<Expr>, totals: bool)
    returns (outs: seq<Expr>)
    ensures outs == ColumnsFor(ct, values, fields) + (if totals then fields else []) + (if values != []
            && having.Some? then [having.value] else [])
    ensures forall v, i | 0 <= v < |values| && 0 <= i < |fields| ::
              Place(|fields|, v, i) < |outs| && outs[Place(|fields|, v, i)] == If(Some(ct.cond(values[v])), fields[i])
    ensures values != [] && having.Some? ==> outs != [] && outs[|outs| - 1] == having.value
  {
    forall v, i | 0 <= v < |values| && 0 <= i < |fields|
      ensures Place(|fields|, v, i) < |values| * |fields|
              && ColumnsFor(ct, values, fields)[Place(|fields|, v, i)] == If(Some(ct.cond(values[v])), fields[i])
    {
      ColumnAt(ct, values, fields, v, i);
    }
    outs := [];
    for v := 0 to |values|
      invariant outs == ColumnsFor(ct, values[..v], fields)
    {
      for i := 0 to |fields|
        invariant outs == ColumnsFor(ct, values[..v], fields) + ColumnsOf(ct, values[v], fields)[..i]
      {
        outs := outs + [Column(ct, values[v], fields[i])];
      }
      assert values[..v + 1][..v] == values[..v];
    }
    assert values[..|values|] == values;
    if totals { outs := outs + fields; }
    if values != [] && having.Some? { outs := outs + [having.value]; }
  }

  // ---------------------------------------------------------------- totals of columns

  /** The total of what the kept rows add to an expression. */
  function ColumnTotal(w: World, e: Expr, subs: seq<Expr>, n: nat, rows: seq<Record>, keep: Dims -> bool): (r: Bytes)
    requires Sized(e) && AllSized(subs) && RowsFit(subs, n, rows)
    ensures IsState(e, r)
  {
    ContributionsFit(w, [e], subs, n, rows);
    Grouping.Total([e], 0, Regrouping.Contributions(w, [e], subs, rows), keep)
  }

  lemma ColumnLast(w: World, e: Expr, subs: seq<Expr>, n: nat, rows: seq<Record>, keep: Dims -> bool)
    requires Sized(e) && AllSized(subs) && RowsFit(subs, n, rows) && rows != []
    ensures var last := |rows| - 1;
            && RowsFit(subs, n, rows[..last]) && IsState(e, Adds(w, e, subs, rows[last]))
            && (keep(rows[last].dims) ==>
               ColumnTotal(w, e, subs, n, rows, keep)
               == Merge(e, ColumnTotal(w, e, subs, n, rows[..last], keep), Adds(w, e, subs, rows[last])))
            && (!keep(rows[last].dims) ==>
               ColumnTotal(w, e, subs, n, rows, keep) == ColumnTotal(w, e, subs, n, rows[..last], keep))
  {
    hide IsState, Merge, Adds, RowFits, Grouping.Total;
    var last := |rows| - 1;
    ContributionsFit(w, [e], subs, n, rows);
    assert Regrouping.Contributions(w, [e], subs, rows)[..last] == Regrouping.Contributions(w, [e], subs, rows[..last]);
    Grouping.TotalLast([e], 0, Regrouping.Contributions(w, [e], subs, rows), keep);
  }

  lemma NoColumn(w: World, e: Expr, subs: seq<Expr>, n: nat, keep: Dims -> bool)
    requires Sized(e) && AllSized(subs)
    ensures ColumnTotal(w, e, subs, n, [], keep) == Unset(e)
  {
    Grouping.NothingTotal([e], 0, keep);
  }

  /** The column of a value has what the rows with that value add to the field. */
  lemma {:induction false} ColumnIsPart(w: World, ct: Crosstab, v: string, e: Expr, subs: seq<Expr>, n: nat,
                                        rows: seq<Record>, keep: Dims -> bool)
    requires Compares(w.sem, ct) && Sized(e) && AllSized(subs) && RowsFit(subs, n, rows)
             && FirstMatch(Column(ct, v, e), subs) == |subs|
    ensures ColumnTotal(w, Column(ct, v, e), subs, n, rows, keep)
            == ColumnTotal(w, e, subs, n, rows, Grouping.WithValue(ct.eval, v, keep))
  {
    hide IsState, Merge, Adds, RowFits, ColumnTotal, FirstMatch;
    var col, part := Column(ct, v, e), Grouping.WithValue(ct.eval, v, keep);
    if rows == [] {
      NoColumn(w, col, subs, n, keep);
      NoColumn(w, e, subs, n, part);
    } else {
      var last := |rows| - 1;
      var row := rows[last];
      ColumnLast(w, col, subs, n, rows, keep);
      ColumnLast(w, e, subs, n, rows, part);
      ColumnIsPart(w, ct, v, e, subs, n, rows[..last], keep);
      var before := ColumnTotal(w, e, subs, n, rows[..last], part);
      Passthrough.IfAdds(w, Some(ct.cond(v)), e, subs, row);
      assert Include(w.sem, Some(ct.cond(v)), Some(row.dims)) <==> ct.eval(row.dims) == v;
      MergeWraps(col, before, Adds(w, col, subs, row));
      MergeIdentity(e, before);
    }
  }

  /** The merge of the columns of a field. */
  function MergedColumns(w: World, ct: Crosstab, values: seq<string>, e: Expr, subs: seq<Expr>, n: nat,
                         rows: seq<Record>, keep: Dims -> bool): (r: Bytes)
    requires Sized(e) && AllSized(subs) && RowsFit(subs, n, rows)
    ensures IsState(e, r)
  {
    if values == [] then
      ZerosAreState(e);
      Unset(e)
    else
      var last := |values| - 1;
      var before, column := MergedColumns(w, ct, values[..last], e, subs, n, rows, keep),
        ColumnTotal(w, Column(ct, values[last], e), subs, n, rows, keep);
      MergeInPlace(e, before, column);
      Merge(e, before, column)
  }

  /** Merging columns is merging the parts of a classification of the rows. */
  lemma {:induction false} ColumnsAreParts(w: World, ct: Crosstab, values: seq<string>, e: Expr,
                                           subs: seq<Expr>, n: nat, rows: seq<Record>, keep: Dims -> bool)
    requires Compares(w.sem, ct) && Sized(e) && AllSized(subs) && RowsFit(subs, n, rows)
    requires forall v | v in values :: FirstMatch(Column(ct, v, e), subs) == |subs|
    ensures Grouping.AllFit([e], Regrouping.Contributions(w, [e], subs, rows))
    ensures MergedColumns(w, ct, values, e, subs, n, rows, keep)
            == Grouping.CrosstabTotal([e], 0, Regrouping.Contributions(w, [e], subs, rows), ct.eval, values, keep)
  {
    hide IsState, Merge, Grouping.Total, Adds, RowFits, FirstMatch, Compares, Grouping.Fits, Column;
    ContributionsFit(w, [e], subs, n, rows);
    if values != [] {
      var last := |values| - 1;
      ColumnsAreParts(w, ct, values[..last], e, subs, n, rows, keep);
      ColumnIsPart(w, ct, values[last], e, subs, n, rows, keep);
    }
  }

  /**
   * A crosstab conserves data: the columns of a field for all values that occur
   * merge into its total, for any group of rows.
   */
  lemma CrosstabConserves(w: World, ct: Crosstab, values: seq<string>, e: Expr, subs: seq<Expr>, n: nat,
                          rows: seq<Record>, keep: Dims -> bool)
    requires Compares(w.sem, ct) && Sized(e) && AllSized(subs) && RowsFit(subs, n, rows)
    requires forall v | v in values :: FirstMatch(Column(ct, v, e), subs) == |subs|
    requires Distinct(values) && forall k | 0 <= k < |rows| :: ct.eval(rows[k].dims) in values
    ensures MergedColumns(w, ct, values, e, subs, n, rows, keep) == ColumnTotal(w, e, subs, n, rows, keep)
  {
    hide IsState, Merge, Grouping.Total, Adds, RowFits, FirstMatch, Compares, Grouping.Fits, Column, MergedColumns,
      Grouping.CrosstabTotal;
    ContributionsFit(w, [e], subs, n, rows);
    ColumnsAreParts(w, ct, values, e, subs, n, rows, keep);
    Grouping.CrosstabConserves([e], 0, Regrouping.Contributions(w, [e], subs, rows), ct.eval, values, keep);
  }

  // ---------------------------------------------------------------- in the tree

  /** What a grouping has for a field is the total of that field alone. */
  lemma {:induction false} FieldAlone(w: World, outs: seq<Expr>, c: nat, subs: seq<Expr>, n: nat,
                                      rows: seq<Record>, keep: Dims -> bool)
    requires Ready(outs, subs) && c < |outs| && RowsFit(subs, n, rows)
    ensures Grouping.AllFit(outs, Regrouping.Contributions(w, outs, subs, rows))
    ensures Grouping.Total(outs, c, Regrouping.Contributions(w, outs, subs, rows), keep)
            == ColumnTotal(w, outs[c], subs, n, rows, keep)
  {
    hide IsState, Merge, Adds, RowFits, ColumnTotal, Grouping.Total;
    ContributionsFit(w, outs, subs, n, rows);
    if rows == [] {
      NoColumn(w, outs[c], subs, n, keep);
      Grouping.NothingTotal(outs, c, keep);
    } else {
      var last := |rows| - 1;
      ColumnLast(w, outs[c], subs, n, rows, keep);
      assert Regrouping.Contributions(w, outs, subs, rows)[..last]
        == Regrouping.Contributions(w, outs, subs, rows[..last]);
      Grouping.TotalLast(outs, c, Regrouping.Contributions(w, outs, subs, rows), keep);
      FieldAlone(w, outs, c, subs, n, rows[..last], keep);
    }
  }

  /** A row has a cell for each column of a field. */
  predicate HasColumns(e: Expr, m: nat, i: nat, cells: seq<Bytes>, count: nat) {
    forall v: nat | v < count :: HasColumn(e, m, v, i, cells)
  }

  predicate HasColumn(e: Expr, m: nat, v: nat, i: nat, cells: seq<Bytes>) {
    Place(m, v, i) < |cells| && |cells[Place(m, v, i)]| == EncodedWidth(e)
  }

  /** The merge of a row's cells for the columns of a field. */
  function MergedCells(e: Expr, m: nat, i: nat, cells: seq<Bytes>, count: nat): (r: Bytes)
    requires Sized(e) && HasColumns(e, m, i, cells, count)
    ensures |r| == EncodedWidth(e)
  {
    if count == 0 then Unset(e)
    else
      assert HasColumn(e, m, count - 1, i, cells);
      Merge(e, MergedCells(e, m, i, cells, count - 1), cells[Place(m, count - 1, i)])
  }

  /** The row's cell for a column is the total of that column. */
  predicate HoldsColumn(w: World, ct: Crosstab, values: seq<string>, fields: seq<Expr>, v: nat, i: nat,
                        subs: seq<Expr>, n: nat,
                        rows: seq<Record>, keep: Dims -> bool, cells: seq<Bytes>)
    requires AllSized(fields) && AllSized(subs) && RowsFit(subs, n, rows) && i < |fields| && v < |values|
  {
    assert fields[i] in fields;
    && HasColumn(fields[i], |fields|, v, i, cells)
    && cells[Place(|fields|, v, i)] == ColumnTotal(w, Column(ct, values[v], fields[i]), subs, n, rows, keep)
  }

  lemma {:induction false} CellsAreColumns(w: World, ct: Crosstab, values: seq<string>, fields: seq<Expr>, i: nat,
                                           count: nat,
                                           subs: seq<Expr>, n: nat, rows: seq<Record>, keep: Dims -> bool,
                                             cells: seq<Bytes>)
    requires AllSized(fields) && AllSized(subs) && RowsFit(subs, n, rows) && i < |fields| && count <= |values|
             && fields[i] in fields
    requires forall v: nat | v < |values| :: HoldsColumn(w, ct, values, fields, v, i, subs, n, rows, keep, cells)
    ensures HasColumns(fields[i], |fields|, i, cells, count)
    ensures MergedCells(fields[i], |fields|, i, cells, count)
            == MergedColumns(w, ct, values[..count], fields[i], subs, n, rows, keep)
  {
    hide IsState, Merge, RowFits, ColumnTotal, Place, HasColumn, Column, Sized;
    forall v: nat | v < count ensures HasColumn(fields[i], |fields|, v, i, cells) {
      assert HoldsColumn(w, ct, values, fields, v, i, subs, n, rows, keep, cells);
    }
    if count > 0 {
      assert HoldsColumn(w, ct, values, fields, count - 1, i, subs, n, rows, keep, cells);
      CellsAreColumns(w, ct, values, fields, i, count - 1, subs, n, rows, keep, cells);
      assert values[..count][..count - 1] == values[..count - 1];
    }
  }

  /** The columns, the totals, and what else there is. */
  function OutFields(ct: Crosstab, values: seq<string>, fields: seq<Expr>, rest: seq<Expr>): seq<Expr> {
    ColumnsFor(ct, values, fields) + fields + rest
  }

  lemma OutFieldAt(ct: Crosstab, values: seq<string>, fields: seq<Expr>, rest: seq<Expr>, v: nat, i: nat)
    requires v <= |values| && i < |fields|
    ensures var c := Place(|fields|, v, i);
            && c < |OutFields(ct, values, fields, rest)|
            && (v < |values| ==> OutFields(ct, values, fields, rest)[c] == Column(ct, values[v], fields[i]))
            && (v == |values| ==> OutFields(ct, values, fields, rest)[c] == fields[i])
  {
    hide ColumnsFor, Column;
    if v < |values| { ColumnAt(ct, values, fields, v, i); }
  }

  function Keying(gbs: seq<Grouping.GroupBy>, kind: Grouping.Crosstab, key: Dims): Dims -> bool {
    d => Grouping.GroupKey(gbs, kind, d) == key
  }

  ghost predicate HasKey(gbs: seq<Grouping.GroupBy>, kind: Grouping.Crosstab, parts: seq<Grouping.Part>, key: Dims) {
    exists k :: 0 <= k < |parts| && Grouping.GroupKey(gbs, kind, parts[k].dims) == key
  }

  /**
   * The rows of a crosstab: the keys of all rows, without what the crosstab takes
   * out, and the merge of what their rows add.
   */
  ghost predicate IsTable(outs: seq<Expr>, gbs: seq<Grouping.GroupBy>, kind: Grouping.Crosstab,
                          parts: seq<Grouping.Part>, tree: map<Dims, seq<Bytes>>)
    requires Grouping.FieldsOk(outs) && Grouping.AllFit(outs, parts)
  {
    && (forall key :: key in tree <==> HasKey(gbs, kind, parts, key))
    && forall key | key in tree ::
         |tree[key]| == |outs| && forall i | 0 <= i < |outs| ::
           tree[key][i] == Grouping.Total(outs, i, parts, Keying(gbs, kind, key))
  }

  lemma TableNext(outs: seq<Expr>, gbs: seq<Grouping.GroupBy>, kind: Grouping.Crosstab, parts: seq<Grouping.Part>,
                  n: nat,
                  tree: map<Dims, seq<Bytes>>, key: Dims, cells: seq<Bytes>)
    requires Grouping.FieldsOk(outs) && Grouping.AllFit(outs, parts) && n < |parts| && Grouping.AllFit(outs, parts[..n])
    requires IsTable(outs, gbs, kind, parts[..n], tree) && key == Grouping.GroupKey(gbs, kind, parts[n].dims)
             && Grouping.Fits(outs, parts[n]) && |cells| == |outs|
    requires forall i | 0 <= i < |outs| :: Grouping.Added(outs[i], if key in tree then tree[key][i]
             else Unset(outs[i]), parts[n].cells[i], cells[i])
    ensures Grouping.AllFit(outs, parts[..n + 1]) && IsTable(outs, gbs, kind, parts[..n + 1], tree[key := cells])
  {
    hide Merge, IsState, Grouping.Total, Grouping.GroupKey, Grouping.Fits, HasKey;
    var now := parts[..n + 1];
    assert now[..n] == parts[..n] && now[n] == parts[n];
    assert Grouping.AllFit(outs, now);
    forall k, i: nat | i < |outs| && (k in tree || k == key)
      ensures Grouping.Total(outs, i, now, Keying(gbs, kind, k)) == if k == key then cells[i] else tree[k][i]
    {
      CellNext(outs, gbs, kind, parts, n, tree, key, cells, k, i);
    }
    forall k ensures HasKey(gbs, kind, now, k) <==> k in tree || k == key { KeyNext(gbs, kind, parts, n, k); }
  }

  lemma CellNext(outs: seq<Expr>, gbs: seq<Grouping.GroupBy>, kind: Grouping.Crosstab, parts: seq<Grouping.Part>,
                 n: nat,
                 tree: map<Dims, seq<Bytes>>, key: Dims, cells: seq<Bytes>, k: Dims, i: nat)
    requires Grouping.FieldsOk(outs) && n < |parts| && Grouping.AllFit(outs, parts[..n])
             && Grouping.AllFit(outs, parts[..n + 1])
    requires IsTable(outs, gbs, kind, parts[..n], tree) && key == Grouping.GroupKey(gbs, kind, parts[n].dims)
             && Grouping.Fits(outs, parts[n]) && |cells| == |outs|
    requires i < |outs| && Grouping.Added(outs[i], if key in tree then tree[key][i]
             else Unset(outs[i]), parts[n].cells[i], cells[i])
    requires k in tree || k == key
    ensures Grouping.Total(outs, i, parts[..n + 1], Keying(gbs, kind, k)) == if k == key then cells[i] else tree[k][i]
  {
    hide Merge, IsState, Grouping.Total, Grouping.GroupKey, Grouping.Fits, HasKey;
    var now := parts[..n + 1];
    assert now[..n] == parts[..n] && now[n] == parts[n];
    Grouping.TotalLast(outs, i, now, Keying(gbs, kind, k));
    if k !in tree {
      KeyLacks(gbs, kind, parts[..n], k);
      Grouping.TotalOfNone(outs, i, parts[..n], Keying(gbs, kind, k));
    }
  }

  lemma KeyLacks(gbs: seq<Grouping.GroupBy>, kind: Grouping.Crosstab, parts: seq<Grouping.Part>, k: Dims)
    requires !HasKey(gbs, kind, parts, k)
    ensures forall m | 0 <= m < |parts| :: !Keying(gbs, kind, k)(parts[m].dims)
  {
    hide Grouping.GroupKey;
  }

  lemma KeyNext(gbs: seq<Grouping.GroupBy>, kind: Grouping.Crosstab, parts: seq<Grouping.Part>, n: nat, k: Dims)
    requires n < |parts|
    ensures HasKey(gbs, kind, parts[..n + 1], k)
            <==> HasKey(gbs, kind, parts[..n], k) || k == Grouping.GroupKey(gbs, kind, parts[n].dims)
  {
    hide Grouping.GroupKey;
    var now := parts[..n + 1];
    if HasKey(gbs, kind, parts[..n], k) {
      var m :| 0 <= m < n && Grouping.GroupKey(gbs, kind, parts[..n][m].dims) == k;
      assert now[m] == parts[..n][m];
    }
    if k == Grouping.GroupKey(gbs, kind, parts[n].dims) { assert now[n] == parts[n]; }
    if HasKey(gbs, kind, now, k) && k != Grouping.GroupKey(gbs, kind, parts[n].dims) {
      var m :| 0 <= m < |now| && Grouping.GroupKey(gbs, kind, now[m].dims) == k;
      assert m < n && parts[..n][m] == now[m];
    }
  }

  /**
   * group.Iterate for a crosstab: rows are held back until all values are known, and
   * then grouped with the columns of all of them.
   */
  method GroupCrosstab(w: World, ct: Crosstab, fields: seq<Expr>, having: Option<Expr>, totals: bool,
                       subs: seq<Expr>, gbs: seq<Grouping.GroupBy>,
                       kind: Grouping.Crosstab, n: nat, rows: seq<Record>)
                         returns (values: seq<string>, outs: seq<Expr>, tree: map<Dims, seq<Bytes>>)
    requires AllSized(fields) && AllSized(subs) && RowsFit(subs, n, rows) && (having.Some? ==> Sized(having.value))
    ensures Distinct(values) && (forall v :: v in values <==> exists k :: 0 <= k < |rows| && ct.eval(rows[k].dims) == v)
    ensures outs == ColumnsFor(ct, values, fields) + (if totals then fields else []) + (if values != []
            && having.Some? then [having.value] else [])
    ensures Ready(outs, subs) && Grouping.AllFit(outs, Regrouping.Contributions(w, outs, subs, rows))
    ensures IsTable(outs, gbs, kind, Regrouping.Contributions(w, outs, subs, rows), tree)
  {
    hide Merge, IsState, Grouping.Total, Grouping.GroupKey, Grouping.Fits, Contribution, ColFits, AreStates,
      ColumnsFor, Sized, Distinct, Grouping.HasValue, Place, IsTable;
    values := CollectValues(ct, rows);
    outs := CrosstabFields(ct, values, fields, having, totals);
    OutsAreSized(ct, values, fields, having, totals, outs);
    ghost var parts := Regrouping.Contributions(w, outs, subs, rows);
    ContributionsFit(w, outs, subs, n, rows);
    tree := map[];
    EmptyTable(outs, gbs, kind, parts[..0]);
    for k := 0 to |rows|
      invariant Grouping.AllFit(outs, parts[..k]) && IsTable(outs, gbs, kind, parts[..k], tree)
    {
      var row := rows[k];
      var key := Grouping.SliceRow(gbs, kind, row.dims);
      if key in tree { TableStates(outs, gbs, kind, parts[..k], tree, key); }
      var cells := Regrouping.AddRow(w, outs, subs, n, if key in tree then tree[key] else [], key in tree, row);
      TableNext(outs, gbs, kind, parts, k, tree, key, cells);
      tree := tree[key := cells];
    }
    assert parts[..|rows|] == parts;
  }

  lemma EmptyTable(outs: seq<Expr>, gbs: seq<Grouping.GroupBy>, kind: Grouping.Crosstab, parts: seq<Grouping.Part>)
    requires Grouping.FieldsOk(outs) && parts == []
    ensures Grouping.AllFit(outs, parts) && IsTable(outs, gbs, kind, parts, map[])
  {
    hide Grouping.GroupKey;
  }

  lemma TableStates(outs: seq<Expr>, gbs: seq<Grouping.GroupBy>, kind: Grouping.Crosstab, parts: seq<Grouping.Part>,
                    tree: map<Dims, seq<Bytes>>, key: Dims)
    requires Grouping.FieldsOk(outs) && AllSized(outs) && Grouping.AllFit(outs, parts)
             && IsTable(outs, gbs, kind, parts, tree) && key in tree
    ensures AreStates(outs, tree[key])
  {
    hide IsState, Grouping.GroupKey, Grouping.Total;
  }

  lemma OutsAreSized(ct: Crosstab, values: seq<string>, fields: seq<Expr>, having: Option<Expr>, totals: bool,
                     outs: seq<Expr>)
    requires AllSized(fields) && (having.Some? ==> Sized(having.value))
    requires outs == ColumnsFor(ct, values, fields) + (if totals then fields else []) + (if values != []
             && having.Some? then [having.value] else [])
    ensures AllSized(outs) && Grouping.FieldsOk(outs)
  {
    hide ColumnsFor, Sized;
    ColumnsAreSized(ct, values, fields);
  }

  lemma {:induction false} ColumnsAreSized(ct: Crosstab, values: seq<string>, fields: seq<Expr>)
    requires AllSized(fields)
    ensures AllSized(ColumnsFor(ct, values, fields))
  {
    if values != [] {
      var n := |values| - 1;
      ColumnsAreSized(ct, values[..n], fields);
      forall i | 0 <= i < |fields| ensures Sized(ColumnsOf(ct, values[n], fields)[i]) { assert fields[i] in fields; }
    }
  }

  /** A row of the tree holds the total of each of its fields. */
  lemma TreeHolds(w: World, outs: seq<Expr>, c: nat, subs: seq<Expr>, gbs: seq<Grouping.GroupBy>,
                  kind: Grouping.Crosstab, n: nat, rows: seq<Record>, tree: map<Dims, seq<Bytes>>, key: Dims)
    requires Ready(outs, subs) && RowsFit(subs, n, rows)
             && Grouping.AllFit(outs, Regrouping.Contributions(w, outs, subs, rows)) && c < |outs|
    requires IsTable(outs, gbs, kind, Regrouping.Contributions(w, outs, subs, rows), tree) && key in tree
    ensures |tree[key]| == |outs| && tree[key][c] == ColumnTotal(w, outs[c], subs, n, rows, Keying(gbs, kind, key))
    ensures |tree[key][c]| == EncodedWidth(outs[c])
  {
    hide IsState, RowFits, ColumnTotal, Grouping.Total, Grouping.GroupKey, Contribution, Keying;
    FieldAlone(w, outs, c, subs, n, rows, Keying(gbs, kind, key));
  }

  /** In every row of a crosstab, the cells of a field's columns merge into the cell of its total. */
  lemma TreeConserves(w: World, ct: Crosstab, values: seq<string>, fields: seq<Expr>, rest: seq<Expr>, i: nat,
                      subs: seq<Expr>,
                      gbs: seq<Grouping.GroupBy>, kind: Grouping.Crosstab, n: nat, rows: seq<Record>,
                        tree: map<Dims, seq<Bytes>>, key: Dims)
    requires Compares(w.sem, ct) && AllSized(fields) && Ready(OutFields(ct, values, fields, rest), subs)
             && RowsFit(subs, n, rows) && i < |fields|
    requires forall v | v in values :: FirstMatch(Column(ct, v, fields[i]), subs) == |subs|
    requires Distinct(values) && forall k | 0 <= k < |rows| :: ct.eval(rows[k].dims) in values
    requires var outs := OutFields(ct, values, fields, rest);
             && Grouping.AllFit(outs, Regrouping.Contributions(w, outs, subs, rows))
             && IsTable(outs, gbs, kind, Regrouping.Contributions(w, outs, subs, rows), tree) && key in tree
    ensures fields[i] in fields && HasColumns(fields[i], |fields|, i, tree[key], |values|)
            && Place(|fields|, |values|, i) < |tree[key]|
    ensures MergedCells(fields[i], |fields|, i, tree[key], |values|) == tree[key][Place(|fields|, |values|, i)]
  {
    hide IsState, RowFits, ColumnTotal, Compares, FirstMatch, MergedCells, MergedColumns, OutFields, Place, Sized,
      IsTable, Grouping.AllFit,
      HasColumns, Column, Keying, Grouping.FieldsOk, HoldsColumn, Distinct;
    var keep := Keying(gbs, kind, key);
    forall v: nat | v < |values| ensures HoldsColumn(w, ct, values, fields, v, i, subs, n, rows, keep, tree[key]) {
      TreeColumn(w, ct, values, fields, rest, v, i, subs, gbs, kind, n, rows, tree, key);
    }
    CellsAreColumns(w, ct, values, fields, i, |values|, subs, n, rows, keep, tree[key]);
    assert values[..|values|] == values;
    OutFieldAt(ct, values, fields, rest, |values|, i);
    TreeHolds(w, OutFields(ct, values, fields, rest), Place(|fields|, |values|, i), subs, gbs, kind, n, rows, tree,
      key);
    CrosstabConserves(w, ct, values, fields[i], subs, n, rows, keep);
  }

  lemma TreeColumn(w: World, ct: Crosstab, values: seq<string>, fields: seq<Expr>, rest: seq<Expr>, v: nat, i: nat,
                   subs: seq<Expr>,
                   gbs: seq<Grouping.GroupBy>, kind: Grouping.Crosstab, n: nat, rows: seq<Record>,
                     tree: map<Dims, seq<Bytes>>, key: Dims)
    requires AllSized(fields) && Ready(OutFields(ct, values, fields, rest), subs) && RowsFit(subs, n, rows)
             && v < |values| && i < |fields|
    requires var outs := OutFields(ct, values, fields, rest);
             && Grouping.AllFit(outs, Regrouping.Contributions(w, outs, subs, rows))
             && IsTable(outs, gbs, kind, Regrouping.Contributions(w, outs, subs, rows), tree) && key in tree
    ensures HoldsColumn(w, ct, values, fields, v, i, subs, n, rows, Keying(gbs, kind, key), tree[key])
  {
    hide RowFits, ColumnTotal, OutFields, Place, Sized, IsTable, Grouping.AllFit, Column, Keying, Grouping.FieldsOk;
    OutFieldAt(ct, values, fields, rest, v, i);
    TreeHolds(w, OutFields(ct, values, fields, rest), Place(|fields|, v, i), subs, gbs, kind, n, rows, tree, key);
    ColumnWidth(ct, values[v], fields[i]);
  }

  lemma ColumnWidth(ct: Crosstab, v: string, e: Expr)
    ensures EncodedWidth(Column(ct, v, e)) == EncodedWidth(e)
  {
  }
}
