/**
 * When further points add nothing to a state.
 *
 * Points add nothing to an aggregate that takes nothing from them, or, once it
 * is set, if what it takes cancels out or is no new extreme.  `AddNothingIff`
 * says so for every expression, by its aggregates and conditions.
 */
module Additions {
  import opened Wrappers
  import opened Accumulators
  import opened SubMergers
  import Columns

  /** Every new value is matched by one that was there, no greater for MIN and no less for MAX. */
  predicate Dominated(fn: Aggregator, had: seq<real>, more: seq<real>) {
    forall v | v in more :: exists u :: u in had && if fn.Min? then u <= v else v <= u
  }

  /** Whether values that an aggregate takes leave it as the values before did. */
  predicate TakesNothing(fn: Aggregator, had: seq<real>, more: seq<real>) {
    more == [] || (had != [] && match fn
                                case Sum => Total(more) == 0.0
                                case Count => false
                                case _ => Dominated(fn, had, more))
  }

  /** Whether more points add nothing to the state that an expression has after some points. */
  predicate AddNothing(sem: Conditions, e: Expr, points: seq<Point>, more: seq<Point>)
    requires Sized(e)
  {
    match e
    case Field(_) => true
    case Const(_) => true
    case Bounded(w, _, _) => AddNothing(sem, w, points, more)
    case Aggregate(fn, w) => TakesNothing(fn, Contributions(sem, w, points), Contributions(sem, w, more))
    case Average(v, weight) =>
      var (count, total, any) := WeightedTotals(sem, v, weight, more);
      !any || (WeightedTotals(sem, v, weight, points).2 && count == 0.0 && total == 0.0)
    case Binary(_, l, r) => AddNothing(sem, l, points, more) && AddNothing(sem, r, points, more)
    case If(cond, w) => AddNothing(sem, w, Filter(sem, cond, points), Filter(sem, cond, more))
    case Shift(w, _) => AddNothing(sem, w, points, more)
  }

  // ---------------------------------------------------------------- leaves

  lemma {:induction false} ContributionsConcat(sem: Conditions, w: Expr, us: seq<Point>, vs: seq<Point>)
    requires EncodedWidth(w) == 0
    ensures Contributions(sem, w, us + vs) == Contributions(sem, w, us) + Contributions(sem, w, vs)
  {
    if vs == [] {
      assert us + vs == us;
    } else {
      var n := |vs| - 1;
      assert (us + vs)[..|us| + n] == us + vs[..n];
      ContributionsConcat(sem, w, us, vs[..n]);
    }
  }

  lemma {:induction false} TotalConcat(us: seq<real>, vs: seq<real>)
    ensures Total(us + vs) == Total(us) + Total(vs)
  {
    if vs == [] {
      assert us + vs == us;
    } else {
      var n := |vs| - 1;
      assert (us + vs)[..|us| + n] == us + vs[..n];
      TotalConcat(us, vs[..n]);
    }
  }

  /** Two summaries agree exactly when the added values leave the first as it was. */
  lemma SameSummary(fn: Aggregator, had: seq<real>, more: seq<real>, u: real, v: real)
    requires had != [] && Summarizes(fn, had, u) && Summarizes(fn, had + more, v)
    ensures u == v <==> TakesNothing(fn, had, more)
  {
    TotalConcat(had, more);
    if more == [] {
      assert had + more == had;
      SameExtreme(fn, had, more, u, v);
    } else if fn.Min? || fn.Max? {
      SameExtreme(fn, had, more, u, v);
    }
  }

  lemma SameExtreme(fn: Aggregator, had: seq<real>, more: seq<real>, u: real, v: real)
    requires had != [] && Summarizes(fn, had, u) && Summarizes(fn, had + more, v)
    ensures fn.Min? || fn.Max? ==> (u == v <==> Dominated(fn, had, more))
  {
    if fn.Min? || fn.Max? {
      assert u in had + more;
      if u == v {
        forall x | x in more ensures exists y :: y in had && if fn.Min? then y <= x else x <= y {
          assert x in had + more && u in had;
        }
      }
      if Dominated(fn, had, more) && v in more {
        var y :| y in had && if fn.Min? then y <= v else v <= y;
      }
    }
  }

  lemma AggregateAdds(sem: Conditions, e: Expr, points: seq<Point>, more: seq<Point>)
    requires Sized(e) && e.Aggregate?
    ensures State(sem, e, points + more) == State(sem, e, points) <==> AddNothing(sem, e, points, more)
  {
    hide State, Summarizes, Load, Contributions, Total, Dominated, AggregateCell;
    var had, got := Contributions(sem, e.wrapped, points), Contributions(sem, e.wrapped, more);
    ContributionsConcat(sem, e.wrapped, points, more);
    AggregateMeaning(sem, e.fn, e.wrapped, points);
    AggregateMeaning(sem, e.fn, e.wrapped, points + more);
    var a, b := State(sem, e, points), State(sem, e, points + more);
    SameAggregate(sem, e, points, points + more);
    if had == [] {
      assert had + got == got;
    } else {
      SameSummary(e.fn, had, got, Load(a).0, Load(b).0);
    }
  }

  lemma SameAggregate(sem: Conditions, e: Expr, us: seq<Point>, vs: seq<Point>)
    requires Sized(e) && e.Aggregate?
    ensures State(sem, e, us) == State(sem, e, vs) <==> Load(State(sem, e, us)) == Load(State(sem, e, vs))
  {
    hide State;
    StateIsState(sem, e, us);
    StateIsState(sem, e, vs);
    AggregateIsCell(e, State(sem, e, us));
    AggregateIsCell(e, State(sem, e, vs));
  }

  lemma WeightedStart(sem: Conditions, v: Expr, weight: Expr)
    requires EncodedWidth(v) == 0 && EncodedWidth(weight) == 0
    ensures WeightedTotals(sem, v, weight, []) == (0.0, 0.0, false)
  {
  }

  lemma WeightedLast(sem: Conditions, v: Expr, weight: Expr, points: seq<Point>)
    requires EncodedWidth(v) == 0 && EncodedWidth(weight) == 0 && points != []
    ensures var init, last := points[..|points| - 1], points[|points| - 1];
            var (n, t, any) := WeightedTotals(sem, v, weight, init);
            var (value, updated) := Delta(sem, v, last);
            var w := Delta(sem, weight, last).0;
            WeightedTotals(sem, v, weight, points)
            == if updated then (n + w, t + Weigh(value, w), true) else (n, t, any)
  {
  }

  lemma {:induction false} WeightedConcat(sem: Conditions, v: Expr, weight: Expr, us: seq<Point>, vs: seq<Point>)
    requires EncodedWidth(v) == 0 && EncodedWidth(weight) == 0
    ensures var (n, t, any) := WeightedTotals(sem, v, weight, us); var (m, s, more) := WeightedTotals(sem, v, weight,
            vs);
            WeightedTotals(sem, v, weight, us + vs) == (n + m, t + s, any || more)
  {
    hide Weigh, Delta, WeightedTotals;
    if vs == [] {
      assert us + vs == us;
      WeightedStart(sem, v, weight);
    } else {
      var n := |vs| - 1;
      assert (us + vs)[..|us| + n] == us + vs[..n];
      WeightedConcat(sem, v, weight, us, vs[..n]);
      WeightedLast(sem, v, weight, vs);
      WeightedLast(sem, v, weight, us + vs);
    }
  }

  lemma {:induction false} WeightedNothing(sem: Conditions, v: Expr, weight: Expr, points: seq<Point>)
    requires EncodedWidth(v) == 0 && EncodedWidth(weight) == 0
    ensures var (n, t, any) := WeightedTotals(sem, v, weight, points); !any ==> n == 0.0 && t == 0.0
  {
    if points != [] { WeightedNothing(sem, v, weight, points[..|points| - 1]); }
  }

  lemma AverageAdds(sem: Conditions, e: Expr, points: seq<Point>, more: seq<Point>)
    requires Sized(e) && e.Average?
    ensures State(sem, e, points + more) == State(sem, e, points) <==> AddNothing(sem, e, points, more)
  {
    hide State, LoadAverage, WeightedTotals, AverageCell, Get;
    WeightedConcat(sem, e.val, e.weight, points, more);
    WeightedNothing(sem, e.val, e.weight, points);
    WeightedNothing(sem, e.val, e.weight, more);
    AverageMeaning(sem, e.val, e.weight, points);
    AverageMeaning(sem, e.val, e.weight, points + more);
    StateIsState(sem, e, points);
    StateIsState(sem, e, points + more);
    AverageIsCell(e, State(sem, e, points));
    AverageIsCell(e, State(sem, e, points + more));
  }

  // ---------------------------------------------------------------- all expressions

  lemma {:induction false} FilterConcat(sem: Conditions, cond: Option<string>, us: seq<Point>, vs: seq<Point>)
    ensures Filter(sem, cond, us + vs) == Filter(sem, cond, us) + Filter(sem, cond, vs)
  {
    if us == [] {
      assert us + vs == vs;
    } else {
      assert (us + vs)[1..] == us[1..] + vs;
      FilterConcat(sem, cond, us[1..], vs);
    }
  }

  /** More points leave a state as it was exactly when they add nothing to any of its aggregates. */
  lemma {:induction false} AddNothingIff(sem: Conditions, e: Expr, points: seq<Point>, more: seq<Point>)
    requires Sized(e)
    ensures State(sem, e, points + more) == State(sem, e, points) <==> AddNothing(sem, e, points, more)
  {
    hide State, Filter, TakesNothing, WeightedTotals, Contributions;
    match e
    case Field(_) => Columns.StatelessState(sem, e, points); Columns.StatelessState(sem, e, points + more);
    case Const(_) => Columns.StatelessState(sem, e, points); Columns.StatelessState(sem, e, points + more);
    case Aggregate(_, _) => AggregateAdds(sem, e, points, more);
    case Average(_, _) => AverageAdds(sem, e, points, more);
    case Binary(_, l, r) =>
      Columns.BinaryState(sem, e, points);
      Columns.BinaryState(sem, e, points + more);
      AddNothingIff(sem, l, points, more);
      AddNothingIff(sem, r, points, more);
      SameHalves(State(sem, l, points), State(sem, r, points), State(sem, l, points + more),
        State(sem, r, points + more));
    case If(cond, w) =>
      Columns.IfState(sem, e, points);
      Columns.IfState(sem, e, points + more);
      FilterConcat(sem, cond, points, more);
      AddNothingIff(sem, w, Filter(sem, cond, points), Filter(sem, cond, more));
    case _ =>
      Columns.WrappedState(sem, e, points);
      Columns.WrappedState(sem, e, points + more);
      AddNothingIff(sem, e.wrapped, points, more);
  }

  lemma SameHalves(a: Bytes, b: Bytes, x: Bytes, y: Bytes)
    requires |a| == |x| && |b| == |y|
    ensures a + b == x + y <==> a == x && b == y
  {
    if a + b == x + y { assert (a + b)[..|a|] == a && (x + y)[..|a|] == x && (a + b)[|a|..] == b
      && (x + y)[|a|..] == y; }
  }

  /** What adds nothing after some points adds nothing after points before those. */
  lemma {:induction false} StillNothing(sem: Conditions, e: Expr, before: seq<Point>,
                                        points: seq<Point>, more: seq<Point>)
    requires Sized(e) && AddNothing(sem, e, points, more)
    ensures AddNothing(sem, e, before + points, more)
  {
    hide Filter, WeightedTotals, Contributions;
    match e
    case Field(_) =>
    case Const(_) =>
    case Aggregate(fn, w) =>
      ContributionsConcat(sem, w, before, points);
      var older, had, got := Contributions(sem, w, before), Contributions(sem, w, points), Contributions(sem, w, more);
      if Dominated(fn, had, got) {
        forall v | v in got ensures exists u :: u in older + had && if fn.Min? then u <= v else v <= u {
          var u :| u in had && if fn.Min? then u <= v else v <= u;
          assert u in older + had;
        }
      }
    case Average(v, weight) => WeightedConcat(sem, v, weight, before, points);
    case Binary(_, l, r) => StillNothing(sem, l, before, points, more); StillNothing(sem, r, before, points, more);
    case If(cond, w) =>
      FilterConcat(sem, cond, before, points);
      StillNothing(sem, w, Filter(sem, cond, before), Filter(sem, cond, points), Filter(sem, cond, more));
    case _ => StillNothing(sem, e.wrapped, before, points, more);
  }

  /**
   * Whatever was there before, leaving out the rest of some points goes unnoticed
   * exactly when it adds nothing to the first ones.
   */
  lemma RestIsIdleIff(sem: Conditions, e: Expr, points: seq<Point>, rest: seq<Point>)
    requires Sized(e)
    ensures (forall before :: State(sem, e, before + points + rest) == State(sem, e, before + points))
            <==> AddNothing(sem, e, points, rest)
  {
    hide State, AddNothing;
    if AddNothing(sem, e, points, rest) {
      forall before ensures State(sem, e, before + points + rest) == State(sem, e, before + points) {
        StillNothing(sem, e, before, points, rest);
        AddNothingIff(sem, e, before + points, rest);
      }
    }
    if forall before :: State(sem, e, before + points + rest) == State(sem, e, before + points) {
      assert State(sem, e, [] + points + rest) == State(sem, e, [] + points);
      assert [] + points == points;
      AddNothingIff(sem, e, points, rest);
    }
  }
}
