/**
 * The oldest period of a query (encoding/seq.go, expr/shift.go).
 *
 * A query's window need not be a multiple of its periods, so the oldest period
 * may start before the window.  Without shifts it takes in only what is inside
 * the window.  With a shift the input is kept from before the window, for the
 * shifted parts to read; other parts of the expression then read it too, so that
 * the oldest period takes in input from before the window.  `StopsIff` says
 * exactly when it does not, and `SpillsBefore` gives a case in which it does.
 */
module OldestPeriod {
  import opened Wrappers
  import opened Arithmetic
  import opened Accumulators
  import opened SubMergers
  import opened Columns
  import Sequences
  import Rebucketing

  /** How many periods back the parts of a submerger read that are merged for a row. */
  function Depths(c: Context, sm: SubMerge): set<nat>
    decreases sm
  {
    match sm
    case NoMerge => {}
    case Whole(e) => if EncodedWidth(e) > 0 then {0} else {}
    case Combined(left, _, right) => Depths(c, left) + Depths(c, right)
    case Conditional(cond, w) => if Include(c.sem, cond, c.metadata) then Depths(c, w) else {}
    case Shifted(offset, w) => Deeper(-Quot(offset, c.otherRes), Depths(c, w))
  }

  function Deeper(n: int, depths: set<nat>): set<nat> {
    if n < 0 then {} else set d | d in depths :: d + n
  }

  function Shallower(n: int, depths: set<nat>): set<nat> {
    if n < 0 then {} else set d | d in depths && d >= n :: d - n
  }

  // ---------------------------------------------------------------- parts that read nothing

  /** A submerger that reads only unset cells adds nothing. */
  lemma {:induction false} ReadsUnset(c: Context, sm: SubMerge, e: Expr, width: nat, x: Bytes, cells: seq<Bytes>)
    requires Sized(e) && Fits(sm, e, width) && IsState(e, x)
    requires forall d | d in Depths(c, sm) && d < |cells| :: cells[d] == Zeros(width)
    ensures Apply(c, sm, x, cells) == x
    decreases e, sm
  {
    if sm.NoMerge? {
    } else if e.Bounded? {
      ReadsUnset(c, sm, e.wrapped, width, x, cells);
    } else {
      match sm
      case Whole(_) =>
        if cells != [] && |x| == |cells[0]| {
          ZerosAreState(e);
          if width > 0 {
            assert 0 in Depths(c, sm);
            MergeInPlace(e, x, cells[0]);
            MergeIdentity(e, x);
          }
        }
      case Combined(left, n, right) =>
        ReadsUnset(c, left, e.left, width, x[..n], cells);
        ReadsUnset(c, right, e.right, width, x[n..], cells);
        assert x == x[..n] + x[n..];
      case Conditional(cond, w) => if Include(c.sem, cond, c.metadata) { ReadsUnset(c, w, e.wrapped, width, x, cells); }
      case Shifted(offset, w) =>
        var n := -Quot(offset, c.otherRes);
        if 0 <= n < |cells| {
          forall d | d in Depths(c, w) && d < |cells[n..]|
            ensures cells[n..][d] == Zeros(width)
          {
            assert d + n in Depths(c, sm);
          }
          ReadsUnset(c, w, e.wrapped, width, x, cells[n..]);
        }
    }
  }

  // ---------------------------------------------------------------- exactly when

  /** No result period takes in anything from before asOf, whatever the column and the state before. */
  ghost predicate AlwaysStops(m: Rebucketing.Job<Bytes, Bytes>, e: Expr, sm: SubMerge, t: int)
    requires Sized(e) && m.otherWidth > 0
  {
    forall column: Column, x: Bytes | Rebucketing.Fits(column, m.until, m.otherRes)
      && Sequences.AllCells(column, Feeder(sm)) && IsState(e, x) ::
      Rebucketing.StopsAtAsOf(m, column, t, x)
  }

  /** The situation: a submerger of the queried expression, on a column of the stored one. */
  predicate Situation(q: Query, c: Context, e: Expr, sub: Expr, sm: SubMerge, t: int) {
    && Sized(e) && Sized(sub) && Fits(sm, e, EncodedWidth(sub)) && OnlyMerges(sm, sub) && ShiftsBack(e, c.otherRes)
    && Rebucketing.WellPosed(JobFor(q, c, e, sub, sm))
    && q.asOf < t <= q.until && Sequences.Aligned(q.until, t, q.res)
  }

  /** The j-th newest input period of a result period adds nothing to any state. */
  ghost predicate IdleAt(m: Rebucketing.Job<Bytes, Bytes>, e: Expr, column: Column, t: int, j: nat)
    requires Sized(e)
  {
    forall y | IsState(e, y) :: m.submerge(y, Rebucketing.Look(m, column, t - j * m.otherRes)) == y
  }

  lemma {:induction false} FoldIdle(q: Query, c: Context, e: Expr, sub: Expr, sm: SubMerge, column: Column, t: int,
                                    n: nat, n': nat, x: Bytes)
    requires Sized(e) && Fits(sm, e, EncodedWidth(sub)) && ShiftsBack(e, c.otherRes) && n <= n' && IsState(e, x)
    requires Sequences.AllCells(column, Feeder(sm)) && forall j | n <= j < n' ::
             IdleAt(JobFor(q, c, e, sub, sm), e, column, t, j)
    ensures var m := JobFor(q, c, e, sub, sm);
            Rebucketing.FoldBucket(m, column, t, n', x) == Rebucketing.FoldBucket(m, column, t, n, x)
  {
    hide IsState, Apply, Rebucketing.Look, Rebucketing.Lawful, Rebucketing.InStride;
    if n < n' {
      FoldIdle(q, c, e, sub, sm, column, t, n, n' - 1, x);
      JobIsLawful(q, c, e, sub, sm);
      Rebucketing.FoldIsOk(JobFor(q, c, e, sub, sm), column, t, n' - 1, x, Proper(e), Feeder(sm));
      assert IdleAt(JobFor(q, c, e, sub, sm), e, column, t, n' - 1);
    }
  }

  /** If all parts read as far back as the shift, they read nothing from before asOf. */
  lemma DeepestIsIdle(q: Query, c: Context, e: Expr, sub: Expr, sm: SubMerge, column: Column, t: int, j: nat)
    requires Sized(e) && Fits(sm, e, EncodedWidth(sub))
    requires var m := JobFor(q, c, e, sub, sm);
             && Rebucketing.WellPosed(m) && Rebucketing.Fits(column, q.until, c.otherRes)
                && t - j * c.otherRes <= q.asOf
             && forall d | d in Depths(c, sm) :: d >= Rebucketing.Lookback(m)
    ensures var m := JobFor(q, c, e, sub, sm); IdleAt(m, e, Rebucketing.Within(m, column), t, j)
  {
    hide IsState, Rebucketing.Within, Sequences.At, Fits, Sized;
    var m := JobFor(q, c, e, sub, sm);
    var look := Rebucketing.Look(m, Rebucketing.Within(m, column), t - j * m.otherRes);
    Rebucketing.LookbackIsExact(m);
    forall d | d in Depths(c, sm) && d < |look| ensures look[d] == Zeros(EncodedWidth(sub)) {
      BeforeReach(m, column, t - j * m.otherRes - d * m.otherRes);
    }
    forall y | IsState(e, y) ensures m.submerge(y, look) == y { ReadsUnset(c, sm, e, EncodedWidth(sub), y, look); }
  }

  /** Then nothing from before asOf is taken in. */
  lemma DeepestStops(q: Query, c: Context, e: Expr, sub: Expr, sm: SubMerge, t: int, column: Column, x: Bytes)
    requires Situation(q, c, e, sub, sm, t)
    requires var m := JobFor(q, c, e, sub, sm); forall d | d in Depths(c, sm) :: d >= Rebucketing.Lookback(m)
    requires Rebucketing.Fits(column, q.until, c.otherRes) && Sequences.AllCells(column, Feeder(sm)) && IsState(e, x)
    ensures Rebucketing.StopsAtAsOf(JobFor(q, c, e, sub, sm), column, t, x)
  {
    hide IsState, Apply, Rebucketing.Within, Rebucketing.After, Rebucketing.Scale, Rebucketing.FoldBucket, Fits,
      OnlyMerges, IdleAt, Sized;
    var m := JobFor(q, c, e, sub, sm);
    var n := Rebucketing.After(m, t);
    Rebucketing.AfterIs(m, t);
    Rebucketing.FoldsAll(m, column, t, n, x);
    Rebucketing.WithinIsOk(m, column, Feeder(sm));
    forall j | n <= j < Rebucketing.Scale(m) ensures IdleAt(m, e, Rebucketing.Within(m, column), t, j) {
      ScaleLe(n, j, m.otherRes);
      DeepestIsIdle(q, c, e, sub, sm, column, t, j);
    }
    FoldIdle(q, c, e, sub, sm, Rebucketing.Within(m, column), t, n, Rebucketing.Scale(m), x);
  }

  // ---------------------------------------------------------------- a spike before asOf

  /** A state with everything set. */
  function FullState(e: Expr): (b: Bytes)
    requires Sized(e)
    ensures |b| == EncodedWidth(e)
  {
    match e
    case Field(_) => []
    case Const(_) => []
    case Bounded(w, _, _) => FullState(w)
    case Aggregate(_, _) => Saved(1.0)
    case Average(_, _) => SavedAverage(1.0, 1.0)
    case Binary(_, l, r) => FullState(l) + FullState(r)
    case If(_, w) => FullState(w)
    case Shift(w, _) => FullState(w)
  }

  lemma {:induction false} FullIsState(e: Expr)
    requires Sized(e)
    ensures IsState(e, FullState(e)) && (EncodedWidth(e) > 0 ==> FullState(e)[0] == Lit(1))
  {
    LoadSaved(1.0, 1.0, 1.0);
    match e
    case Bounded(w, _, _) => FullIsState(w);
    case Binary(_, l, r) =>
      FullIsState(l);
      FullIsState(r);
      assert FullState(e)[..EncodedWidth(l)] == FullState(l) && FullState(e)[EncodedWidth(l)..] == FullState(r);
    case If(_, w) => FullIsState(w);
    case Shift(w, _) => FullIsState(w);
    case _ =>
  }

  /** The state in which the parts that read at the given depths are set, and no others. */
  function Painted(c: Context, sm: SubMerge, e: Expr, width: nat, depths: set<nat>): (b: Bytes)
    requires Sized(e) && Fits(sm, e, width)
    ensures |b| == EncodedWidth(e)
    decreases e, sm
  {
    if sm.NoMerge? then Zeros(EncodedWidth(e))
    else if e.Bounded? then Painted(c, sm, e.wrapped, width, depths)
    else match sm
      case Whole(_) => if 0 in depths then FullState(e) else Zeros(EncodedWidth(e))
      case Combined(left, _, right) => Painted(c, left, e.left, width, depths) + Painted(c, right, e.right, width,
        depths)
      case Conditional(cond, w) =>
        if Include(c.sem, cond, c.metadata) then Painted(c, w, e.wrapped, width, depths) else Zeros(EncodedWidth(e))
      case Shifted(offset, w) => Painted(c, w, e.wrapped, width, Shallower(-Quot(offset, c.otherRes), depths))
  }

  lemma {:induction false} PaintedIsState(c: Context, sm: SubMerge, e: Expr, width: nat, depths: set<nat>)
    requires Sized(e) && Fits(sm, e, width)
    ensures IsState(e, Painted(c, sm, e, width, depths))
    decreases e, sm
  {
    ZerosAreState(e);
    FullIsState(e);
    if sm.NoMerge? {
    } else if e.Bounded? {
      PaintedIsState(c, sm, e.wrapped, width, depths);
    } else {
      match sm
      case Whole(_) =>
      case Combined(left, n, right) =>
        PaintedIsState(c, left, e.left, width, depths);
        PaintedIsState(c, right, e.right, width, depths);
        var b := Painted(c, sm, e, width, depths);
        assert b[..n] == Painted(c, left, e.left, width, depths) && b[n..] == Painted(c, right, e.right, width, depths);
      case Conditional(cond, w) => PaintedIsState(c, w, e.wrapped, width, depths);
      case Shifted(offset, w) => PaintedIsState(c, w, e.wrapped, width, Shallower(-Quot(offset, c.otherRes), depths));
    }
  }

  lemma {:induction false} PaintedNothing(c: Context, sm: SubMerge, e: Expr, width: nat)
    requires Sized(e) && Fits(sm, e, width)
    ensures Painted(c, sm, e, width, {}) == Zeros(EncodedWidth(e))
    decreases e, sm
  {
    if sm.NoMerge? {
    } else if e.Bounded? {
      PaintedNothing(c, sm, e.wrapped, width);
    } else {
      match sm
      case Whole(_) =>
      case Combined(left, n, right) =>
        PaintedNothing(c, left, e.left, width);
        PaintedNothing(c, right, e.right, width);
        ZerosSplit(EncodedWidth(e.left), EncodedWidth(e.right));
      case Conditional(cond, w) => PaintedNothing(c, w, e.wrapped, width);
      case Shifted(offset, w) =>
        assert Shallower(-Quot(offset, c.otherRes), {}) == {};
        PaintedNothing(c, w, e.wrapped, width);
    }
  }

  /** A part that reads at a depth is set in one state and not in the other. */
  lemma {:induction false} PaintedDiffers(c: Context, sm: SubMerge, e: Expr, width: nat,
                                          less: set<nat>, more: set<nat>, d: nat)
    requires Sized(e) && Fits(sm, e, width) && d in Depths(c, sm) && d !in less && d in more
    ensures Painted(c, sm, e, width, less) != Painted(c, sm, e, width, more)
    decreases e, sm
  {
    if e.Bounded? {
      PaintedDiffers(c, sm, e.wrapped, width, less, more, d);
    } else {
      match sm
      case Whole(_) => FullIsState(e);
      case Combined(left, n, right) =>
        var a, b := Painted(c, sm, e, width, less), Painted(c, sm, e, width, more);
        assert a[..n] == Painted(c, left, e.left, width, less) && a[n..] == Painted(c, right, e.right, width, less);
        assert b[..n] == Painted(c, left, e.left, width, more) && b[n..] == Painted(c, right, e.right, width, more);
        if d in Depths(c, left) { PaintedDiffers(c, left, e.left, width, less, more, d); }
          else { PaintedDiffers(c, right, e.right, width, less, more, d); }
      case Conditional(cond, w) => PaintedDiffers(c, w, e.wrapped, width, less, more, d);
      case Shifted(offset, w) =>
        var n := -Quot(offset, c.otherRes);
        PaintedDiffers(c, w, e.wrapped, width, Shallower(n, less), Shallower(n, more), d - n);
    }
  }

  /** Cells that are unset but for one. */
  function OnlyAt(sub: Expr, d: int, n: nat): (r: seq<Bytes>)
    requires Sized(sub)
    ensures |r| == n
  {
    seq(n, i requires 0 <= i < n => if i == d then FullState(sub) else Zeros(EncodedWidth(sub)))
  }

  /** A submerger that sees one set cell sets the parts that read it. */
  lemma {:induction false} PaintStep(c: Context, sm: SubMerge, e: Expr, sub: Expr, depths: set<nat>, d: nat, n: nat)
    requires Sized(e) && Sized(sub) && Fits(sm, e, EncodedWidth(sub)) && OnlyMerges(sm, sub) && d !in depths && d < n
    ensures Apply(c, sm, Painted(c, sm, e, EncodedWidth(sub), depths), OnlyAt(sub, d, n))
            == Painted(c, sm, e, EncodedWidth(sub), depths + {d})
    decreases e, sm
  {
    var width := EncodedWidth(sub);
    if sm.NoMerge? {
    } else if e.Bounded? {
      PaintStep(c, sm, e.wrapped, sub, depths, d, n);
    } else {
      match sm
      case Whole(_) => PaintWhole(c, e, depths, d, n);
      case Combined(left, k, right) =>
        PaintStep(c, left, e.left, sub, depths, d, n);
        PaintStep(c, right, e.right, sub, depths, d, n);
        var b := Painted(c, sm, e, width, depths);
        assert b[..k] == Painted(c, left, e.left, width, depths) && b[k..] == Painted(c, right, e.right, width, depths);
      case Conditional(cond, w) =>
        if Include(c.sem, cond, c.metadata) {
          PaintStep(c, w, e.wrapped, sub, depths, d, n);
        }
      case Shifted(offset, w) => PaintShifted(c, sm, e, sub, depths, d, n);
    }
  }

  lemma PaintWhole(c: Context, e: Expr, depths: set<nat>, d: nat, n: nat)
    requires Sized(e) && d !in depths && d < n && !e.Bounded?
    ensures var sm, width := Whole(e), EncodedWidth(e);
            Apply(c, sm, Painted(c, sm, e, width, depths), OnlyAt(e, d, n)) == Painted(c, sm, e, width, depths + {d})
  {
    hide Merge, MergeInto, IsState;
    var sm, width := Whole(e), EncodedWidth(e);
    var x, cell := Painted(c, sm, e, width, depths), OnlyAt(e, d, n)[0];
    PaintedIsState(c, sm, e, width, depths);
    ZerosAreState(e);
    FullIsState(e);
    MergeInPlace(e, x, cell);
    MergeIdentity(e, x);
    MergeIdentity(e, cell);
  }

  lemma {:induction false} PaintShifted(c: Context, sm: SubMerge, e: Expr, sub: Expr, depths: set<nat>, d: nat, n: nat)
    requires Sized(e) && Sized(sub) && Fits(sm, e, EncodedWidth(sub)) && OnlyMerges(sm, sub) && d !in depths && d < n
    requires sm.Shifted? && !e.Bounded?
    ensures Apply(c, sm, Painted(c, sm, e, EncodedWidth(sub), depths), OnlyAt(sub, d, n))
            == Painted(c, sm, e, EncodedWidth(sub), depths + {d})
    decreases e, sm, 0
  {
    hide Apply, Painted, FullState;
    var width, k := EncodedWidth(sub), -Quot(sm.offset, c.otherRes);
    var less := Shallower(k, depths);
    var x := Painted(c, sm.wrapped, e.wrapped, width, less);
    assert Painted(c, sm, e, width, depths) == x by { PaintedShifted(c, sm, e, width, depths); }
    PaintedShifted(c, sm, e, width, depths + {d});
    ApplyShift(c, sm, x, OnlyAt(sub, d, n));
    if d >= k >= 0 {
      assert Shallower(k, depths + {d}) == less + {d - k};
      assert OnlyAt(sub, d, n)[k..] == OnlyAt(sub, d - k, n - k);
      PaintStep(c, sm.wrapped, e.wrapped, sub, less, d - k, n - k);
    } else {
      assert Shallower(k, depths + {d}) == less;
      if 0 <= k < n {
        PaintedIsState(c, sm.wrapped, e.wrapped, width, less);
        ReadsUnset(c, sm.wrapped, e.wrapped, width, x, OnlyAt(sub, d, n)[k..]);
      }
    }
  }

  lemma PaintedShifted(c: Context, sm: SubMerge, e: Expr, width: nat, depths: set<nat>)
    requires Sized(e) && Fits(sm, e, width) && sm.Shifted? && !e.Bounded?
    ensures Painted(c, sm, e, width, depths) == Painted(c, sm.wrapped, e.wrapped, width,
            Shallower(-Quot(sm.offset, c.otherRes), depths))
  {
  }

  lemma ApplyShift(c: Context, sm: SubMerge, x: Bytes, cells: seq<Bytes>)
    requires sm.Shifted?
    ensures var k := -Quot(sm.offset, c.otherRes);
            Apply(c, sm, x, cells) == if 0 <= k < |cells| then Apply(c, sm.wrapped, x, cells[k..]) else x
  {
  }

  // ---------------------------------------------------------------- folding over the spike

  /**
   * The depths at which the first n input periods of a result period read a cell
   * that is `back` periods before its end.
   */
  function ReadDepths(m: Rebucketing.Job<Bytes, Bytes>, back: int, n: nat): set<nat> {
    set j: nat | j < n && Rebucketing.InStride(m, j) && 0 <= back - j <= Rebucketing.Lookback(m) :: back - j
  }

  lemma ReadNext(m: Rebucketing.Job<Bytes, Bytes>, back: int, n: nat)
    ensures var hits := Rebucketing.InStride(m, n) && 0 <= back - n <= Rebucketing.Lookback(m);
            && ReadDepths(m, back, n + 1) == ReadDepths(m, back, n) + (if hits then {back - n} else {})
            && back - n !in ReadDepths(m, back, n)
  {
    hide Rebucketing.InStride, Rebucketing.Lookback;
    var hits := Rebucketing.InStride(m, n) && 0 <= back - n <= Rebucketing.Lookback(m);
    forall d ensures d in ReadDepths(m, back, n + 1) <==> d in ReadDepths(m, back, n) || (hits && d == back - n) {
      if d in ReadDepths(m, back, n) { var j: nat :| j < n && Rebucketing.InStride(m, j)
        && 0 <= back - j <= Rebucketing.Lookback(m) && d == back - j; }
      if d in ReadDepths(m, back, n + 1) {
        var j: nat :| j < n + 1 && Rebucketing.InStride(m, j) && 0 <= back - j <= Rebucketing.Lookback(m)
          && d == back - j;
      }
      if hits && d == back - n { assert n < n + 1; }
    }
  }

  /** A column with one cell, of the period that ends at the given time. */
  function Spike(sub: Expr, end: int): Column
    requires Sized(sub)
  {
    Sequences.Seq(end, [FullState(sub)])
  }

  lemma SpikeAt(sub: Expr, end: int, res: Resolution, v: int)
    requires Sized(sub)
    ensures Sequences.At(Spike(sub, end), res, v, Unset(sub)) == if v == end then FullState(sub) else Unset(sub)
  {
    if v == end {
      Sequences.AtPeriod(Spike(sub, end), res, v, Unset(sub), 0);
    } else if Sequences.Aligned(end, v, res) {
      Exact(end - v, res);
      Sequences.AtPeriod(Spike(sub, end), res, v, Unset(sub), (end - v) / res);
    }
  }

  /** What the input periods of a result period see of a spike. */
  lemma SpikeLook(q: Query, c: Context, e: Expr, sub: Expr, sm: SubMerge, t: int, back: nat, j: nat)
    requires Situation(q, c, e, sub, sm, t)
    requires var m, end := JobFor(q, c, e, sub, sm), t - back * c.otherRes;
             m.asOf + m.shift < end <= m.until && Rebucketing.Fits(Spike(sub, end), m.until, m.otherRes)
    ensures var m, end := JobFor(q, c, e, sub, sm), t - back * c.otherRes;
            Rebucketing.Look(m, Rebucketing.Within(m, Spike(sub, end)), t - j * c.otherRes)
              == OnlyAt(sub, back - j, Rebucketing.Lookback(m) + 1)
  {
    hide Rebucketing.Within, Sequences.At, Fits, OnlyMerges, Sized, FullState, Apply, Spike;
    var m, end := JobFor(q, c, e, sub, sm), t - back * c.otherRes;
    var kept := Rebucketing.Within(m, Spike(sub, end));
    Rebucketing.InBucket(m, Sequences.Seq(t, [m.zero]), 0, j);
    forall i | 0 <= i <= Rebucketing.Lookback(m)
      ensures Sequences.At(kept, c.otherRes, t - j * c.otherRes - i * c.otherRes, m.otherZero)
              == if i == back - j then FullState(sub) else Zeros(EncodedWidth(sub))
    {
      var v := t - j * c.otherRes - i * c.otherRes;
      Rebucketing.SeenTime(m, t - j * c.otherRes, i);
      Distribute(j, i, c.otherRes);
      assert v == end <==> i + j == back by { SameMultiple(i + j, back, c.otherRes); }
      if v <= m.asOf + m.shift {
        BeforeReach(m, Spike(sub, end), v);
      } else {
        Rebucketing.WithinMeaning(m, Spike(sub, end), v);
        SpikeAt(sub, end, c.otherRes, v);
      }
    }
  }

  lemma SameMultiple(a: int, b: int, r: Resolution)
    ensures a * r == b * r <==> a == b
  {
    if a * r == b * r { CancelEq(a, b, r); }
  }

  /** The fold over a spike sets the parts that read it. */
  lemma {:induction false} SpikeFold(q: Query, c: Context, e: Expr, sub: Expr, sm: SubMerge, t: int, back: nat, n: nat)
    requires Situation(q, c, e, sub, sm, t)
    requires var m, end := JobFor(q, c, e, sub, sm), t - back * c.otherRes;
             m.asOf + m.shift < end <= m.until && Rebucketing.Fits(Spike(sub, end), m.until, m.otherRes)
    ensures var m, end := JobFor(q, c, e, sub, sm), t - back * c.otherRes;
            Rebucketing.FoldBucket(m, Rebucketing.Within(m, Spike(sub, end)), t, n, Unset(e))
            == Painted(c, sm, e, EncodedWidth(sub), ReadDepths(m, back, n))
  {
    hide Rebucketing.Within, Rebucketing.Look, Rebucketing.FoldBucket, Apply, Painted, OnlyMerges, ReadDepths, Spike,
      Fits, Sized, OnlyAt,
      Rebucketing.InStride;
    var m, end := JobFor(q, c, e, sub, sm), t - back * c.otherRes;
    var kept := Rebucketing.Within(m, Spike(sub, end));
    if n == 0 {
      NoDepths(m, back);
      PaintedNothing(c, sm, e, EncodedWidth(sub));
      NothingFolded(m, kept, t, Unset(e));
    } else {
      SpikeFold(q, c, e, sub, sm, t, back, n - 1);
      SpikeLook(q, c, e, sub, sm, t, back, n - 1);
      SpikeStep(q, c, e, sub, sm, back, n - 1);
      Rebucketing.FoldNext(m, kept, t, n - 1, Unset(e));
    }
  }

  lemma NothingFolded(m: Rebucketing.Job<Bytes, Bytes>, column: Column, t: int, x: Bytes)
    ensures Rebucketing.FoldBucket(m, column, t, 0, x) == x
  {
  }

  lemma SpikeStep(q: Query, c: Context, e: Expr, sub: Expr, sm: SubMerge, back: nat, k: nat)
    requires Sized(e) && Sized(sub) && Fits(sm, e, EncodedWidth(sub)) && OnlyMerges(sm, sub)
    ensures var m := JobFor(q, c, e, sub, sm);
            var was := Painted(c, sm, e, EncodedWidth(sub), ReadDepths(m, back, k));
            Painted(c, sm, e, EncodedWidth(sub), ReadDepths(m, back, k + 1))
            == if Rebucketing.InStride(m, k) then Apply(c, sm, was, OnlyAt(sub, back - k, Rebucketing.Lookback(m) + 1))
              else was
  {
    hide Apply, Painted, ReadDepths, IsState, Fits, OnlyMerges, Rebucketing.InStride, Rebucketing.Lookback;
    var m, width := JobFor(q, c, e, sub, sm), EncodedWidth(sub);
    var depths, n := ReadDepths(m, back, k), Rebucketing.Lookback(m) + 1;
    ReadNext(m, back, k);
    if 0 <= back - k < n {
      PaintStep(c, sm, e, sub, depths, back - k, n);
    } else {
      PaintedIsState(c, sm, e, width, depths);
      ReadsUnset(c, sm, e, width, Painted(c, sm, e, width, depths), OnlyAt(sub, back - k, n));
    }
    assert depths + {} == depths;
  }

  lemma NoDepths(m: Rebucketing.Job<Bytes, Bytes>, back: int)
    ensures ReadDepths(m, back, 0) == {}
  {
  }

  /** A part that reads less far back than the shift takes in a cell from before asOf. */
  lemma Spills(q: Query, c: Context, e: Expr, sub: Expr, sm: SubMerge, t: int, d: nat)
    requires Situation(q, c, e, sub, sm, t)
    requires var m := JobFor(q, c, e, sub, sm);
             && Rebucketing.After(m, t) < Rebucketing.Scale(m) && Rebucketing.InStride(m, Rebucketing.After(m, t))
             && d in Depths(c, sm) && d < Rebucketing.Lookback(m)
    ensures var m, column := JobFor(q, c, e, sub, sm), Spike(sub, q.asOf - d * c.otherRes);
            && Rebucketing.Fits(column, m.until, m.otherRes) && Sequences.AllCells(column, Feeder(sm))
            && !Rebucketing.StopsAtAsOf(m, column, t, Unset(e))
  {
    hide Rebucketing.Within, Rebucketing.FoldBucket, Rebucketing.After, Rebucketing.Scale, Fits, OnlyMerges, Sized,
      Apply, Painted, ReadDepths,
      Depths, IsState, Rebucketing.InStride;
    var m, end, n := JobFor(q, c, e, sub, sm), q.asOf - d * c.otherRes, Rebucketing.After(JobFor(q, c, e, sub, sm), t);
    SpikeFits(q, c, e, sub, sm, t, d);
    Rebucketing.AfterIs(m, t);
    Distribute(n, d, c.otherRes);
    SpikeFold(q, c, e, sub, sm, t, n + d, n);
    SpikeFold(q, c, e, sub, sm, t, n + d, Rebucketing.Scale(m));
    Rebucketing.FoldsAll(m, Spike(sub, end), t, n, Unset(e));
    DepthsRead(m, n, d, Rebucketing.Scale(m));
    PaintedDiffers(c, sm, e, EncodedWidth(sub), ReadDepths(m, n + d, n), ReadDepths(m, n + d, Rebucketing.Scale(m)), d);
  }

  lemma DepthsRead(m: Rebucketing.Job<Bytes, Bytes>, n: nat, d: nat, scale: nat)
    requires n < scale && Rebucketing.InStride(m, n) && d <= Rebucketing.Lookback(m)
    ensures d !in ReadDepths(m, n + d, n) && d in ReadDepths(m, n + d, scale)
  {
    assert n + d - n == d;
  }

  lemma SpikeFits(q: Query, c: Context, e: Expr, sub: Expr, sm: SubMerge, t: int, d: nat)
    requires Situation(q, c, e, sub, sm, t) && d < Rebucketing.Lookback(JobFor(q, c, e, sub, sm))
    ensures var m, end := JobFor(q, c, e, sub, sm), q.asOf - d * c.otherRes;
            && m.asOf + m.shift < end <= m.until && Rebucketing.Fits(Spike(sub, end), m.until, m.otherRes)
            && Sequences.AllCells(Spike(sub, end), Feeder(sm))
  {
    hide Fits, Sized, Apply, IsState;
    var m, end := JobFor(q, c, e, sub, sm), q.asOf - d * c.otherRes;
    Rebucketing.LookbackIsExact(m);
    ScaleLe(d + 1, Rebucketing.Lookback(m), c.otherRes);
    Distribute(d, 1, c.otherRes);
    ScaleLe(0, d, c.otherRes);
    Sequences.AlignedBy(q.asOf, end, d, c.otherRes);
    Sequences.AlignedTrans(q.until, q.asOf, end, c.otherRes);
    FullIsState(sub);
    StateFeeds(sm, sub, FullState(sub));
  }

  /**
   * The period starts at asOf or later, the stride ends before, or all parts read as
   * far back as the whole expression.
   */
  predicate Stopping(m: Rebucketing.Job<Bytes, Bytes>, c: Context, sm: SubMerge, t: int) {
    || Rebucketing.After(m, t) == Rebucketing.Scale(m) || !Rebucketing.InStride(m, Rebucketing.After(m, t))
    || forall d | d in Depths(c, sm) :: d >= Rebucketing.Lookback(m)
  }

  /**
   * Whatever the column and the state before, a period of the query takes in nothing
   * from before its start exactly when it starts no earlier, the stride ends before,
   * or all parts that are merged read as far back as the whole expression.
   */
  lemma StopsIff(q: Query, c: Context, e: Expr, sub: Expr, sm: SubMerge, t: int)
    requires Situation(q, c, e, sub, sm, t)
    ensures var m := JobFor(q, c, e, sub, sm);
            AlwaysStops(m, e, sm, t) <==> Stopping(m, c, sm, t)
  {
    hide Rebucketing.After, Rebucketing.Scale, Fits, OnlyMerges, Sized, Apply, Depths, IsState, Rebucketing.InStride,
      Rebucketing.StopsAtAsOf;
    var m := JobFor(q, c, e, sub, sm);
    Rebucketing.AfterIs(m, t);
    if Stopping(m, c, sm, t) {
      forall column: Column, x: Bytes | Rebucketing.Fits(column, m.until, m.otherRes)
        && Sequences.AllCells(column, Feeder(sm)) && IsState(e, x)
        ensures Rebucketing.StopsAtAsOf(m, column, t, x)
      {
        StoppingStops(q, c, e, sub, sm, t, column, x);
      }
    } else {
      var d :| d in Depths(c, sm) && d < Rebucketing.Lookback(m);
      Spills(q, c, e, sub, sm, t, d);
      ZerosAreState(e);
      assert !Rebucketing.StopsAtAsOf(m, Spike(sub, q.asOf - d * c.otherRes), t, Unset(e));
    }
  }

  lemma StoppingStops(q: Query, c: Context, e: Expr, sub: Expr, sm: SubMerge, t: int, column: Column, x: Bytes)
    requires Situation(q, c, e, sub, sm, t) && Stopping(JobFor(q, c, e, sub, sm), c, sm, t)
    requires Rebucketing.Fits(column, q.until, c.otherRes) && Sequences.AllCells(column, Feeder(sm)) && IsState(e, x)
    ensures Rebucketing.StopsAtAsOf(JobFor(q, c, e, sub, sm), column, t, x)
  {
    hide Rebucketing.After, Rebucketing.Scale, Fits, OnlyMerges, Sized, Apply, Depths, IsState, Rebucketing.InStride,
      Rebucketing.StopsAtAsOf, Rebucketing.Lawful;
    var m := JobFor(q, c, e, sub, sm);
    if forall d | d in Depths(c, sm) :: d >= Rebucketing.Lookback(m) {
      DeepestStops(q, c, e, sub, sm, t, column, x);
    } else {
      JobIsLawful(q, c, e, sub, sm);
      Rebucketing.StopsIf(m, column, t, x, Proper(e), Feeder(sm));
    }
  }

  // ---------------------------------------------------------------- a case

  /** SUM(a) - SHIFT(SUM(a), -1): what was summed, less that of the period before. */
  function Change(): Expr {
    var sum := Aggregate(Sum, Field("a"));
    Binary(Sub, sum, Shift(sum, -1))
  }

  /** What was summed at 90, and nothing else. */
  const BEFORE := Sequences.Seq(90, [Saved(2.0)])

  /** Periods of 3 over a window of 10, (90, 100]; the oldest one ends at 91 and starts at 88. */
  function ChangeJob(c: Context): Rebucketing.Job<Bytes, Bytes> {
    JobFor(Query(3, 90, 100, 0), c, Change(), Aggregate(Sum, Field("a")),
      SubMergersOf(Change(), [Aggregate(Sum, Field("a"))])[0])
  }

  /**
   * Of a sum of 2 at 90, before the window, the oldest period should take the
   * shifted part only and come to -2.  It takes in both parts and comes to 0.
   */
  lemma SpillsBefore(c: Context)
    requires c.otherRes == 1
    ensures var sum, m := Aggregate(Sum, Field("a")), ChangeJob(c);
            && Situation(Query(3, 90, 100, 0), c, Change(), sum, SubMergersOf(Change(), [sum])[0], 91)
               && Rebucketing.Scale(m) == 3 && Rebucketing.After(m, 91) == 1
            && var should, does := Rebucketing.FoldBucket(m, BEFORE, 91, 1, Unset(Change())),
               Rebucketing.FoldBucket(m, Rebucketing.Within(m, BEFORE), 91, 3, Unset(Change()));
            && |should| == |does| == EncodedWidth(Change()) && Get(Change(), should) == (-2.0, true)
               && Get(Change(), does) == (0.0, true)
    ensures !AlwaysStops(ChangeJob(c), Change(), SubMergersOf(Change(), [Aggregate(Sum, Field("a"))])[0], 91)
  {
    hide AlwaysStops, SubMergersOf, Stopping, Rebucketing.FoldBucket, Get, Rebucketing.Within;
    var q, sum := Query(3, 90, 100, 0), Aggregate(Sum, Field("a"));
    var sm := SubMergersOf(Change(), [sum])[0];
    ChangeMergers();
    var m := ChangeJob(c);
    assert Situation(q, c, Change(), sum, sm, 91);
    assert !Stopping(m, c, sm, 91) by {
      assert Rebucketing.Lookback(m) == 1 && Rebucketing.Scale(m) == 3 && Rebucketing.After(m, 91) == 1;
      assert 0 in Depths(c, sm);
      NotStopping(m, c, sm, 91);
    }
    StopsIff(q, c, Change(), sum, sm, 91);
    SpikeIsWithin(c);
    SpikeFolds(c, BEFORE);
    SpikeFolds(c, Rebucketing.Within(m, BEFORE));
    ChangeValues();
  }

  /** A column with a sum of 2 at 90, around the oldest period. */
  predicate IsSpike(w: Column) {
    var zero := Zeros(AGGREGATE_WIDTH);
    && Sequences.At(w, 1, 91, zero) == zero && Sequences.At(w, 1, 90, zero) == Saved(2.0)
    && Sequences.At(w, 1, 89, zero) == zero && Sequences.At(w, 1, 88, zero) == zero
  }

  lemma SpikeIsWithin(c: Context)
    requires c.otherRes == 1
    ensures var m := ChangeJob(c);
            && m.otherWidth > 0 && Rebucketing.Lookback(m) == 1 && m.otherRes == 1
               && m.otherZero == Zeros(AGGREGATE_WIDTH) && m.strideSlice == 0
            && IsSpike(BEFORE) && IsSpike(Rebucketing.Within(m, BEFORE))
  {
    hide Rebucketing.Within, Sequences.At, SubMergersOf, Saved;
    var m := ChangeJob(c);
    assert Rebucketing.WellPosed(m) && Rebucketing.Fits(BEFORE, m.until, 1);
    Rebucketing.WithinMeaning(m, BEFORE, 91);
    Rebucketing.WithinMeaning(m, BEFORE, 90);
    Rebucketing.WithinMeaning(m, BEFORE, 89);
    Rebucketing.WithinMeaning(m, BEFORE, 88);
    OneSpike();
  }

  lemma OneSpike()
    ensures IsSpike(BEFORE)
  {
  }

  lemma SpikeFolds(c: Context, w: Column)
    requires c.otherRes == 1 && IsSpike(w)
    requires var m := ChangeJob(c);
             Rebucketing.Lookback(m) == 1 && m.otherRes == 1 && m.otherZero == Zeros(AGGREGATE_WIDTH)
             && m.strideSlice == 0
    ensures var m, zero := ChangeJob(c), Zeros(AGGREGATE_WIDTH);
            && Rebucketing.FoldBucket(m, w, 91, 1, Unset(Change())) == zero + Saved(2.0)
            && Rebucketing.FoldBucket(m, w, 91, 3, Unset(Change())) == Saved(2.0) + Saved(2.0)
  {
    hide SubMergersOf, Apply, Merge, Quot, Saved, IsSpike, Rebucketing.Look, IsState;
    var m, zero, two := ChangeJob(c), Zeros(AGGREGATE_WIDTH), Saved(2.0);
    ChangeMergers();
    SpikeLooks(m, w);
    ZerosSplit(AGGREGATE_WIDTH, AGGREGATE_WIDTH);
    SumsOfTwo();
    ChangeStep(c, zero, zero, zero, two);
    ChangeStep(c, zero, two, two, zero);
    ChangeStep(c, two, two, zero, zero);
    var start := Unset(Change());
    assert Rebucketing.FoldBucket(m, w, 91, 0, start) == zero + zero;
    assert Rebucketing.FoldBucket(m, w, 91, 1, start) == m.submerge(zero + zero, [zero, two]) == zero + two;
    assert Rebucketing.FoldBucket(m, w, 91, 2, start) == m.submerge(zero + two, [two, zero]) == two + two;
  }

  lemma SpikeLooks(m: Rebucketing.Job<Bytes, Bytes>, w: Column)
    requires m.otherRes == 1 && Rebucketing.Lookback(m) == 1 && m.otherZero == Zeros(AGGREGATE_WIDTH) && IsSpike(w)
    ensures var zero, two := Zeros(AGGREGATE_WIDTH), Saved(2.0);
            && Rebucketing.Look(m, w, 91) == [zero, two] && Rebucketing.Look(m, w, 90) == [two, zero]
               && Rebucketing.Look(m, w, 89) == [zero, zero]
  {
    hide Sequences.At, Saved, Rebucketing.Lookback;
  }

  /** One input period of the change: the sum takes its own cell, the shifted one that of the period before. */
  lemma ChangeStep(c: Context, a: Bytes, b: Bytes, now: Bytes, before: Bytes)
    requires c.otherRes == 1
    requires var sum := Aggregate(Sum, Field("a"));
             IsState(sum, a) && IsState(sum, b) && IsState(sum, now) && IsState(sum, before)
    ensures var sum := Aggregate(Sum, Field("a"));
            Apply(c, Combined(Whole(sum), AGGREGATE_WIDTH, Shifted(-1, Whole(sum))), a + b, [now, before])
              == Merge(sum, a, now) + Merge(sum, b, before)
  {
    hide IsState, Merge, MergeInto;
    var sum := Aggregate(Sum, Field("a"));
    assert (a + b)[..AGGREGATE_WIDTH] == a && (a + b)[AGGREGATE_WIDTH..] == b && [now, before][1..] == [before];
    assert Quot(-1, 1) == -1;
    MergeInPlace(sum, a, now);
    MergeInPlace(sum, b, before);
  }

  lemma SumsOfTwo()
    ensures var sum, zero, two := Aggregate(Sum, Field("a")), Zeros(AGGREGATE_WIDTH), Saved(2.0);
            && IsState(sum, zero) && IsState(sum, two) && Merge(sum, zero, zero) == zero
               && Merge(sum, zero, two) == two && Merge(sum, two, zero) == two
  {
    hide Merge;
    var sum, zero, two := Aggregate(Sum, Field("a")), Zeros(AGGREGATE_WIDTH), Saved(2.0);
    LoadSaved(2.0, 0.0, 0.0);
    ZerosAreState(sum);
    MergeIdentity(sum, zero);
    MergeIdentity(sum, two);
  }

  lemma ChangeValues()
    ensures var zero, two := Zeros(AGGREGATE_WIDTH), Saved(2.0);
            && Get(Change(), zero + two) == (-2.0, true) && Get(Change(), two + two) == (0.0, true)
  {
    var zero, two := Zeros(AGGREGATE_WIDTH), Saved(2.0);
    LoadSaved(2.0, 0.0, 0.0);
    assert (zero + two)[..AGGREGATE_WIDTH] == zero && (zero + two)[AGGREGATE_WIDTH..] == two;
    assert (two + two)[..AGGREGATE_WIDTH] == two && (two + two)[AGGREGATE_WIDTH..] == two;
  }

  lemma NotStopping(m: Rebucketing.Job<Bytes, Bytes>, c: Context, sm: SubMerge, t: int)
    requires m.strideSlice == 0 && Rebucketing.After(m, t) < Rebucketing.Scale(m) && 0 in Depths(c, sm)
             && Rebucketing.Lookback(m) == 1
    ensures !Stopping(m, c, sm, t)
  {
  }

  lemma ChangeMergers()
    ensures var sum := Aggregate(Sum, Field("a"));
            SubMergersOf(Change(), [sum]) == [Combined(Whole(sum), AGGREGATE_WIDTH, Shifted(-1, Whole(sum)))]
  {
    var sum := Aggregate(Sum, Field("a"));
    assert Matches(sum, sum);
    assert SubMergersOf(sum, [sum]) == [Whole(sum)];
    assert !Matches(Change(), sum) && !Matches(Shift(sum, -1), sum);
    assert FirstMatch(Change(), [sum]) == 1 && FirstMatch(Shift(sum, -1), [sum]) == 1;
    assert SubMergersOf(Shift(sum, -1), [sum]) == ShiftAll(-1, [Whole(sum)]) == [Shifted(-1, Whole(sum))];
    assert SubMergersOf(Change(), [sum]) == CombineAll([Whole(sum)], EncodedWidth(sum), [Shifted(-1, Whole(sum))]);
  }
}
