/**
 * Which aggregates pass through the second phase of a query (planner/cluster.go,
 * expr/aggregate.go, expr/avg.go, expr/bounded.go).
 *
 * An aggregate takes all fields that print like it.  It passes exactly if there
 * is one, or several and it is an extreme: one that is only selected inside of
 * BOUNDED is lost, one that is selected twice is doubled (`LeafPassesIff`).
 */
module PassingLeaves {
  import opened Wrappers
  import opened Arithmetic
  import opened Accumulators
  import opened SubMergers
  import opened Columns
  import opened StoredLeaves
  import opened Regrouping
  import opened Passthrough
  import Grouping

  // ---------------------------------------------------------------- states of leaves

  function Taken(e: Expr, b: Bytes): (t: Taking)
    requires IsLeaf(e) && |b| == EncodedWidth(e)
    ensures Fitting(e, t)
  {
    if b[0] != Lit(1) then None else if e.Average? then Some((LoadAverage(b).0, LoadAverage(b).1))
      else Some((0.0, Load(b).0))
  }

  lemma StateIsCell(e: Expr, b: Bytes)
    requires IsLeaf(e) && IsState(e, b)
    ensures b == Cell(e, Taken(e, b))
  {
  }

  /** What the first cells of the columns of all matches make of a state, if these cells are the same. */
  lemma {:induction false} MatchesTake(c: Context, e: Expr, fs: seq<Expr>, cols: seq<seq<Bytes>>, x: Taking, t: Taking)
    requires IsLeaf(e) && |cols| == |fs| && forall i | 0 <= i < |fs| && Matches(e, fs[i]) ::
             cols[i] != [] && cols[i][0] == Cell(e, t)
    ensures ApplyAll(c, AllMatches(e, fs), Cell(e, x), cols) == Cell(e, Join(e, x, Times(e, |Matching(e, fs)|, t)))
  {
    hide Cell, Matches, Sized;
    if fs != [] {
      assert AllMatches(e, fs)[1..] == AllMatches(e, fs[1..]);
      if Matches(e, fs[0]) {
        assert cols[0] != [] && cols[0][0] == Cell(e, t);
        TakeWhole(c, e, cols[0], x, t);
        MatchesTake(c, e, fs[1..], cols[1..], Join(e, x, t), t);
        JoinAssociates(e, x, t, Times(e, |Matching(e, fs[1..])|, t));
        assert |Matching(e, fs)| == 1 + |Matching(e, fs[1..])|;
      } else {
        MatchesTake(c, e, fs[1..], cols[1..], x, t);
        assert Matching(e, fs) == Matching(e, fs[1..]);
      }
    }
  }

  lemma TakeWhole(c: Context, e: Expr, col: seq<Bytes>, x: Taking, t: Taking)
    requires IsLeaf(e) && col != [] && col[0] == Cell(e, t)
    ensures Apply(c, Whole(e), Cell(e, x), col) == Cell(e, Join(e, x, t))
  {
    hide Cell, MergeInto, Merge;
    MergeCells(e, x, t);
    MergeCells(e, t, x);
    MergeInPlace(e, Cell(e, x), Cell(e, t));
  }

  lemma JoinAssociates(e: Expr, x: Taking, y: Taking, z: Taking)
    requires IsLeaf(e)
    ensures Join(e, Join(e, x, y), z) == Join(e, x, Join(e, y, z))
  {
  }

  // ---------------------------------------------------------------- what fields that print alike take

  /** Leaves that print alike take the same from a row. */
  lemma {:induction false} AlikeApply(c: Context, e: Expr, f: Expr, subs: seq<Expr>, n: nat,
                                      cols: seq<seq<Bytes>>, x: Bytes)
    requires IsLeaf(e) && IsLeaf(f) && Matches(e, f) && ColsFit(subs, n, cols) && IsState(e, x)
    ensures ApplyAll(c, AllMatches(e, subs), x, cols) == ApplyAll(c, AllMatches(f, subs), x, cols)
  {
    hide IsState, Merge, MergeInto, ColFits, Sized;
    if subs != [] {
      assert AllMatches(e, subs)[1..] == AllMatches(e, subs[1..])
        && AllMatches(f, subs)[1..] == AllMatches(f, subs[1..]);
      AlikeWhole(c, e, f, subs, n, cols, x);
      AlikeApply(c, e, f, subs[1..], n, cols[1..], Apply(c, AllMatches(e, subs)[0], x, cols[0]));
    }
  }

  lemma AlikeWhole(c: Context, e: Expr, f: Expr, subs: seq<Expr>, n: nat, cols: seq<seq<Bytes>>, x: Bytes)
    requires IsLeaf(e) && IsLeaf(f) && Matches(e, f) && ColsFit(subs, n, cols) && IsState(e, x) && subs != []
    ensures Apply(c, AllMatches(e, subs)[0], x, cols[0]) == Apply(c, AllMatches(f, subs)[0], x, cols[0])
    ensures IsState(e, Apply(c, AllMatches(e, subs)[0], x, cols[0]))
  {
    hide IsState, Merge, MergeInto;
    if Matches(e, subs[0]) && cols[0] != [] {
      var y := cols[0][0];
      assert ColFits(subs[0], n, cols[0]);
      AlikeStates(e, subs[0], y, y);
      AlikeStates(e, f, x, y);
      AlikeStates(e, f, y, x);
      MergeInPlace(e, x, y);
      MergeInPlace(f, x, y);
    }
  }

  lemma AlikeAdds(w: World, e: Expr, f: Expr, subs: seq<Expr>, n: nat, row: Record)
    requires IsLeaf(e) && IsLeaf(f) && Matches(e, f) && AllSized(subs) && RowFits(subs, n, row)
    ensures Adds(w, e, subs, row) == Adds(w, f, subs, row)
  {
    hide IsState, Merge, ApplyAll, AllMatches, Printed, ColFits;
    MatchingWidths(e, f);
    ZerosAreState(e);
    FieldsFit(subs, n, row);
    AlikeApply(Ctx(w, row.dims), e, f, subs, n, row.cols, Unset(e));
  }

  // ---------------------------------------------------------------- when a leaf passes

  /** The fields that a leaf takes hold what it takes, so it comes out as often as there are such fields. */
  lemma LeafSent(w: World, fields: seq<Expr>, subs: seq<Expr>, gbs: seq<Grouping.GroupBy>, n: nat, e: Expr,
                 row: Record) returns (t: Taking)
    requires Ready(fields, subs) && IsLeaf(e) && n > 0 && RowFits(subs, n, row)
    ensures Fitting(e, t) && Adds(w, e, subs, row) == Cell(e, t)
    ensures Adds(w, e, fields, OneSent(w, fields, subs, gbs, n, row)) == Cell(e, Times(e, |Matching(e, fields)|, t))
  {
    hide IsState, Merge, ApplyAll, Cell, Matches, Adds, Earlier, Times;
    var one := OneSent(w, fields, subs, gbs, n, row);
    ZerosAreState(e);
    AddsMerges(w, e, subs, n, row, Unset(e));
    t := Taken(e, Adds(w, e, subs, row));
    StateIsCell(e, Adds(w, e, subs, row));
    forall i | 0 <= i < |fields| && Matches(e, fields[i]) ensures one.cols[i] != [] && one.cols[i][0] == Cell(e, t) {
      assert fields[i] in fields;
      LeafMatches(e, fields[i]);
      NowIsEarlier(subs, n, row);
      AlikeAdds(w, e, fields[i], subs, n, row);
    }
    LeafAdds(w, e, fields, one, t);
  }

  lemma LeafMatches(e: Expr, f: Expr)
    requires IsLeaf(e) && Sized(f) && Matches(e, f)
    ensures IsLeaf(f)
  {
  }

  lemma LeafAdds(w: World, e: Expr, fs: seq<Expr>, row: Record, t: Taking)
    requires IsLeaf(e) && |row.cols| == |fs| && forall i | 0 <= i < |fs| && Matches(e, fs[i]) ::
             row.cols[i] != [] && row.cols[i][0] == Cell(e, t)
    ensures Adds(w, e, fs, row) == Cell(e, Times(e, |Matching(e, fs)|, t))
  {
    hide ApplyAll, Matches, AllMatches, Times;
    NothingTaken(e);
    MatchesTake(Ctx(w, row.dims), e, fs, row.cols, None, t);
  }

  /** One unit: a value of 1, or of weight 1. */
  function Unit(e: Expr): Taking {
    Some((if e.Average? then 1.0 else 0.0, 1.0))
  }

  /** A row with the given dimensions that adds one unit for each match, and nothing else. */
  lemma UnitRow(w: World, e: Expr, subs: seq<Expr>, n: nat, d: Dims) returns (row: Record)
    requires IsLeaf(e) && AllSized(subs) && n > 0
    ensures RowFits(subs, n, row) && row.dims == d && Adds(w, e, subs, row)
            == Cell(e, Times(e, |Matching(e, subs)|, Unit(e)))
  {
    hide Cell, Matches, Adds, Sized, Times, IsState;
    row := Record(d, seq(|subs|, i requires 0 <= i < |subs| => seq(n, _ => if Matches(e, subs[i]) then Cell(e, Unit(e))
      else Unset(subs[i]))));
    forall i | 0 <= i < |subs| ensures ColFits(subs[i], n, row.cols[i]) {
      assert subs[i] in subs;
      ZerosAreState(subs[i]);
      if Matches(e, subs[i]) {
        MergeCells(e, Unit(e), None);
        AlikeStates(e, subs[i], Cell(e, Unit(e)), Cell(e, Unit(e)));
      }
    }
    LeafAdds(w, e, subs, row, Unit(e));
  }

  /** Units add up to something. */
  lemma UnitsAdd(e: Expr, k: nat)
    requires IsLeaf(e) && k > 0
    ensures Times(e, k, Unit(e)).Some? && Times(e, k, Unit(e)).value != (0.0, 0.0)
            && Cell(e, Times(e, k, Unit(e))) != Unset(e)
    ensures Fitting(e, Times(e, k, Unit(e)))
  {
    hide Cell;
    TimesIs(e, k, Unit(e));
    MultipleIs(k, 1.0);
    MultipleIs(k, 0.0);
    NothingTaken(e);
    if Cell(e, Times(e, k, Unit(e))) == Cell(e, None) { CellsDiffer(e, Times(e, k, Unit(e)), None); }
  }

  /**
   * An aggregate or average passes exactly if nothing of it is stored, or one field
   * prints like it, or several do and it is an extreme.
   */
  lemma LeafPassesIff(w: World, fields: seq<Expr>, subs: seq<Expr>, gbs: seq<Grouping.GroupBy>, n: nat, e: Expr)
    requires Ready(fields, subs) && IsLeaf(e) && n > 0
    ensures PassesExpr(w, fields, subs, gbs, n, e) <==> var k := |Matching(e, fields)|;
            Matching(e, subs) == [] || k == 1 || (k >= 1 && IsExtreme(e))
  {
    hide RowFits, Cell, OneSent, Adds, Matching, Times;
    var k, stored := |Matching(e, fields)|, |Matching(e, subs)|;
    if stored == 0 || k == 1 || (k >= 1 && IsExtreme(e)) {
      forall row | RowFits(subs, n, row) ensures Comes(w, fields, subs, gbs, n, e, row) {
        var t := LeafSent(w, fields, subs, gbs, n, e, row);
        if stored == 0 { NothingStored(w, e, subs, row, t); }
        CopiesOf(e, k, t);
      }
    } else {
      var row := UnitRow(w, e, subs, n, map[]);
      var t := LeafSent(w, fields, subs, gbs, n, e, row);
      UnitsAdd(e, stored);
      CellsDiffer(e, t, Times(e, stored, Unit(e)));
      CopiesOf(e, k, t);
      FittingTimes(e, k, t);
      if Comes(w, fields, subs, gbs, n, e, row) { CellsDiffer(e, Times(e, k, t), t); }
    }
  }

  lemma FittingTimes(e: Expr, k: nat, t: Taking)
    requires IsLeaf(e) && Fitting(e, t)
    ensures Fitting(e, Times(e, k, t))
  {
    TimesIs(e, k, t);
    MultipleIs(k, 0.0);
  }

  lemma NothingStored(w: World, e: Expr, subs: seq<Expr>, row: Record, t: Taking)
    requires IsLeaf(e) && |row.cols| == |subs| && Matching(e, subs) == [] && Fitting(e, t)
             && Adds(w, e, subs, row) == Cell(e, t)
    ensures t.None?
  {
    hide Cell, Adds, Matches;
    NoMatch(e, subs);
    LeafAdds(w, e, subs, row, t);
    CellsDiffer(e, t, None);
  }

  lemma NoMatch(e: Expr, subs: seq<Expr>)
    requires Matching(e, subs) == []
    ensures forall i | 0 <= i < |subs| :: !Matches(e, subs[i])
  {
    hide Matches;
    if subs != [] {
      NoMatch(e, subs[1..]);
      forall i | 0 <= i < |subs| ensures !Matches(e, subs[i]) { if i > 0 { assert subs[i] == subs[1..][i - 1]; } }
    }
  }

  // ---------------------------------------------------------------- whole queries

  /** Aggregates and averages, bounded or not. */
  predicate IsPlain(e: Expr) {
    IsLeaf(Core(e))
  }

  /** Nothing of it is stored, or its core is selected once, or is an extreme and selected at all. */
  predicate SelectedRight(fields: seq<Expr>, subs: seq<Expr>, e: Expr) {
    var k := |Matching(Core(e), fields)|;
    Matching(Core(e), subs) == [] || k == 1 || (k >= 1 && IsExtreme(Core(e)))
  }

  /**
   * A query for aggregates is the same in two phases as in one exactly if what they
   * bound is selected too, and sums only once.
   */
  lemma PlainIff(w: World, fields: seq<Expr>, subs: seq<Expr>, gbs: seq<Grouping.GroupBy>, n: nat)
    requires Ready(fields, subs) && (forall g | g in gbs :: Grouping.DependsOnParams(g)) && n > 0
             && forall i | 0 <= i < |fields| :: IsPlain(fields[i])
    ensures PhasesAgree(w, fields, subs, gbs, n) <==> forall i | 0 <= i < |fields| ::
            SelectedRight(fields, subs, fields[i])
  {
    hide PhasesAgree, Passes, PassesExpr, Matching, Grouping.DependsOnParams, AllSized, Grouping.FieldsOk;
    TwoPhasesAreOneIff(w, fields, subs, gbs, n);
    forall i | 0 <= i < |fields| ensures Passes(w, fields, subs, gbs, n, i)
      <==> SelectedRight(fields, subs, fields[i]) {
      PassesIs(w, fields, subs, gbs, n, i);
      BoundedPasses(w, fields, subs, gbs, n, fields[i]);
      LeafPassesIff(w, fields, subs, gbs, n, Core(fields[i]));
    }
  }

  /** A query is the same in two phases as in one if what its fields bound, or are, is selected once. */
  lemma OwnFieldsAgree(w: World, fields: seq<Expr>, subs: seq<Expr>, gbs: seq<Grouping.GroupBy>, n: nat)
    requires Ready(fields, subs) && (forall g | g in gbs :: Grouping.DependsOnParams(g)) && n > 0
    requires forall i | 0 <= i < |fields| :: IsOwn(fields, Core(fields[i])) || EncodedWidth(Core(fields[i])) == 0
    ensures PhasesAgree(w, fields, subs, gbs, n)
  {
    hide PhasesAgree, Passes, PassesExpr, IsOwn, Grouping.DependsOnParams, AllSized, Grouping.FieldsOk;
    TwoPhasesAreOneIff(w, fields, subs, gbs, n);
    forall i | 0 <= i < |fields| ensures Passes(w, fields, subs, gbs, n, i) {
      PassesIs(w, fields, subs, gbs, n, i);
      BoundedPasses(w, fields, subs, gbs, n, fields[i]);
      OwnPasses(w, fields, subs, gbs, n, Core(fields[i]));
    }
  }

  /** A leaf that is stored can be added to by rows with any dimensions. */
  lemma StoredIsLive(w: World, subs: seq<Expr>, n: nat, e: Expr, d: Dims)
    requires IsLeaf(e) && AllSized(subs) && n > 0 && Matching(e, subs) != []
    ensures Live(w, subs, n, e, d)
  {
    hide RowFits, Cell, Adds, Matching, Times;
    var row := UnitRow(w, e, subs, n, d);
    UnitsAdd(e, |Matching(e, subs)|);
  }

  /**
   * A conditional aggregate inside BOUNDED passes, next to the aggregate, exactly if
   * the GROUP BY tells its condition.
   */
  lemma ConditionalIff(w: World, fields: seq<Expr>, subs: seq<Expr>, gbs: seq<Grouping.GroupBy>, n: nat,
                       cond: Option<string>, e: Expr)
    requires Ready(fields, subs) && IsLeaf(e) && n > 0 && Matching(e, subs) != [] && |Matching(e, fields)| == 1
             && IsNew(fields, subs, If(cond, e))
    ensures PassesExpr(w, fields, subs, gbs, n, If(cond, e)) <==> forall d :: DecidedByKey(w, gbs, cond, d)
  {
    hide PassesExpr, Matching, DecidedByKey, Live, IsNew;
    LeafPassesIff(w, fields, subs, gbs, n, e);
    IfPassesIff(w, fields, subs, gbs, n, cond, e);
    forall d ensures Live(w, subs, n, e, d) { StoredIsLive(w, subs, n, e, d); }
  }

  // ---------------------------------------------------------------- cases that go wrong

  const SUM_A := Aggregate(Sum, Field("a"))

  /** A row with a = 2. */
  const TWO := Record(map["x" := Text("1")], [[Saved(2.0)]])

  lemma TwoFits(w: World)
    ensures IsLeaf(SUM_A) && RowFits([SUM_A], 1, TWO) && Saved(2.0) == Cell(SUM_A, Some((0.0, 2.0)))
    ensures Matching(SUM_A, [SUM_A]) == [SUM_A] && Adds(w, SUM_A, [SUM_A], TWO) == Saved(2.0)
            && Load(Saved(2.0)) == (2.0, true)
  {
    hide Adds;
    LoadSaved(2.0, 0.0, 0.0);
    assert [SUM_A][1..] == [];
    LeafAdds(w, SUM_A, [SUM_A], TWO, Some((0.0, 2.0)));
    assert Times(SUM_A, 1, Some((0.0, 2.0))) == Some((0.0, 2.0)) by { TimesIs(SUM_A, 1, Some((0.0, 2.0))); }
  }

  /** BOUNDED(SUM(a), 0, 10) alone: one row with a = 2 comes out as 2 in one phase and as nothing in two. */
  lemma BoundedSumIsLost(w: World, gbs: seq<Grouping.GroupBy>)
    ensures var e := Bounded(SUM_A, 0.0, 10.0);
            && RowFits([SUM_A], 1, TWO) && Get(e, Adds(w, e, [SUM_A], TWO)) == (2.0, true)
            && Get(e, Adds(w, e, [e], OneSent(w, [e], [SUM_A], gbs, 1, TWO))) == (0.0, false)
  {
    hide Adds, OneSent, RowFits;
    var e := Bounded(SUM_A, 0.0, 10.0);
    TwoFits(w);
    CoreAdds(w, e, [SUM_A], TWO);
    var one := OneSent(w, [e], [SUM_A], gbs, 1, TWO);
    CoreAdds(w, e, [e], one);
    assert Matching(SUM_A, [e]) == [] by { assert [e][1..] == []; }
    LeafAdds(w, SUM_A, [e], one, None);
    NothingTaken(SUM_A);
  }

  /** SUM(a) selected twice: one row with a = 2 comes out as 2 in one phase and as 4 in two. */
  lemma SumIsDoubled(w: World, gbs: seq<Grouping.GroupBy>)
    ensures && RowFits([SUM_A], 1, TWO) && Get(SUM_A, Adds(w, SUM_A, [SUM_A], TWO)) == (2.0, true)
            && Get(SUM_A, Adds(w, SUM_A, [SUM_A, SUM_A], OneSent(w, [SUM_A, SUM_A], [SUM_A], gbs, 1, TWO)))
               == (4.0, true)
  {
    hide Adds, OneSent, RowFits;
    TwoFits(w);
    LoadSaved(4.0, 0.0, 0.0);
    var fields := [SUM_A, SUM_A];
    assert Ready(fields, [SUM_A]);
    var t := LeafSent(w, fields, [SUM_A], gbs, 1, SUM_A, TWO);
    CellsDiffer(SUM_A, t, Some((0.0, 2.0)));
    assert |Matching(SUM_A, fields)| == 2 by { assert fields[1..] == [SUM_A] && [SUM_A][1..] == []; }
    TimesIs(SUM_A, 2, t);
    assert Multiple(2, 2.0) == 4.0 && Multiple(2, 0.0) == 0.0;
  }

  /** The condition asks for a dimension x. */
  const HAS_X: Conditions := (_, d) => Some(Truth("x" in d))

  /**
   * BOUNDED(IF(x IS NOT NULL, SUM(a)), 0, 10) next to SUM(a), grouped by y:
   * partitions drop x, and with it the value.
   */
  lemma ConditionIsLost(res: Resolution)
    ensures var w, e := World(HAS_X, res), Bounded(If(Some("x"), SUM_A), 0.0, 10.0);
            && RowFits([SUM_A], 1, TWO) && Get(e, Adds(w, e, [SUM_A], TWO)) == (2.0, true)
            && Get(e, Adds(w, e, [e, SUM_A], OneSent(w, [e, SUM_A], [SUM_A], Grouping.ParamGroups(["y"]), 1, TWO)))
               == (0.0, false)
  {
    hide Adds, RowFits, OneSent;
    var w, f := World(HAS_X, res), If(Some("x"), SUM_A);
    var e := Bounded(f, 0.0, 10.0);
    TwoFits(w);
    var one := OneSent(w, [e, SUM_A], [SUM_A], Grouping.ParamGroups(["y"]), 1, TWO);
    CoreAdds(w, e, [SUM_A], TWO);
    CoreAdds(w, e, [e, SUM_A], one);
    assert FirstMatch(f, [SUM_A]) == 1 && FirstMatch(f, [e, SUM_A]) == 2;
    IfAdds(w, Some("x"), SUM_A, [SUM_A], TWO);
    IfAdds(w, Some("x"), SUM_A, [e, SUM_A], one);
    assert "x" !in one.dims by { assert Grouping.Params(Grouping.ParamGroups(["y"])) == {"y"}; }
    NothingTaken(SUM_A);
  }
}
