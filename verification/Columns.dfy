/**
 * Columns of a row: sequences whose cells are states of an expression.
 *
 * This module supplies the laws that Sequences and Rebucketing ask of their
 * cells, and puts the pieces together: adding a stored row to a result row, one
 * stored column after the other and one input period after the other, gives
 * every result period the state that the queried expression should have for
 * the points of that row (`RowAddsExpected`).
 */
module Columns {
  import opened Wrappers
  import opened Arithmetic
  import opened Accumulators
  import opened SubMergers
  import Sequences
  import Rebucketing

  type Column = Sequences.Sequence<Bytes>

  function Proper(e: Expr): Bytes -> bool
    requires Sized(e)
  {
    b => IsState(e, b)
  }

  function Unset(e: Expr): Bytes {
    Zeros(EncodedWidth(e))
  }

  /** The merge of an expression, on any bytes. */
  function Merger(e: Expr): (Bytes, Bytes) -> Bytes
    requires Sized(e)
  {
    (x, y) => if |x| == |y| == EncodedWidth(e) then Merge(e, x, y) else x
  }

  function Updater(sem: Conditions, e: Expr, pt: Point): Bytes -> Bytes
    requires Sized(e)
  {
    b => if |b| == EncodedWidth(e) then Update(sem, e, b, pt) else b
  }

  /** The merge of every expression meets the laws that merging sequences relies on. */
  lemma MergerIsLawful(e: Expr)
    requires Sized(e)
    ensures Sequences.Lawful(Proper(e), Unset(e), Merger(e)) && Sequences.Associative(Proper(e), Merger(e))
  {
    var ok, zero, merge := Proper(e), Unset(e), Merger(e);
    ZerosAreState(e);
    forall x, y | ok(x) && ok(y) ensures ok(merge(x, y)) && merge(x, y) == merge(y, x) {
      MergeInPlace(e, x, y);
      MergeCommutes(e, x, y);
    }
    forall x | ok(x) ensures merge(x, zero) == x { MergeIdentity(e, x); }
    forall x, y, z | ok(x) && ok(y) && ok(z) ensures merge(merge(x, y), z) == merge(x, merge(y, z)) {
      MergeInPlace(e, x, y);
      MergeInPlace(e, y, z);
      MergeAssociates(e, x, y, z);
    }
  }

  // ---------------------------------------------------------------- expected states

  predicate ShiftFree(e: Expr) {
    match e
    case Field(_) => true
    case Const(_) => true
    case Bounded(w, _, _) => ShiftFree(w)
    case Aggregate(_, _) => true
    case Average(_, _) => true
    case Binary(_, l, r) => ShiftFree(l) && ShiftFree(r)
    case If(_, w) => ShiftFree(w)
    case Shift(_, _) => false
  }

  /** Without shifts, the expected state is that of updating the expression with the points of the period. */
  lemma {:induction false} ExpectedIsUpdated(sem: Conditions, e: Expr, otherRes: Resolution, h: seq<seq<Point>>)
    requires Sized(e) && ShiftFree(e) && h != []
    ensures Expected(sem, e, otherRes, h) == State(sem, e, h[0])
  {
    match e
    case Field(_) => StatelessState(sem, e, h[0]);
    case Const(_) => StatelessState(sem, e, h[0]);
    case Bounded(w, _, _) => ExpectedIsUpdated(sem, w, otherRes, h); WrappedState(sem, e, h[0]);
    case Binary(_, l, r) =>
      ExpectedIsUpdated(sem, l, otherRes, h);
      ExpectedIsUpdated(sem, r, otherRes, h);
      BinaryState(sem, e, h[0]);
    case If(cond, w) =>
      ExpectedIsUpdated(sem, w, otherRes, FilterPeriods(sem, cond, h));
      IfState(sem, e, h[0]);
    case _ =>
  }

  /** SHIFT by some periods looks at the points of the period that much earlier. */
  lemma ShiftedState(sem: Conditions, w: Expr, offset: int, otherRes: Resolution, points: int -> seq<Point>, u: int,
                     n: nat)
    requires Sized(w) && ShiftFree(w) && offset <= 0 && offset % otherRes == 0 && -offset < n * otherRes
    ensures Expected(sem, Shift(w, offset), otherRes, History(points, u, n, otherRes))
            == State(sem, w, points(u + offset))
  {
    hide Expected, Quot, State;
    var h, k := History(points, u, n, otherRes), -Quot(offset, otherRes);
    QuotExact(offset, otherRes);
    Distribute(0, k, otherRes);
    if k >= n { ScaleLe(n, k, otherRes); }
    if k < 0 { ScaleLe(k + 1, 0, otherRes); Distribute(k, 1, otherRes); }
    assert h[k..][0] == points(u + offset);
    ShiftedExpected(sem, w, offset, otherRes, h);
    ExpectedIsUpdated(sem, w, otherRes, h[k..]);
  }

  lemma ShiftedExpected(sem: Conditions, w: Expr, offset: int, otherRes: Resolution, h: seq<seq<Point>>)
    requires Sized(w) && 0 <= -Quot(offset, otherRes) < |h|
    ensures Expected(sem, Shift(w, offset), otherRes, h) == Expected(sem, w, otherRes, h[-Quot(offset, otherRes)..])
  {
    hide Quot, State, EncodedWidth, Filter, FilterPeriods;
    var n := -Quot(offset, otherRes);
    var rest := if 0 <= n < |h| then h[n..] else [];
    assert rest == h[n..];
  }

  lemma StatelessState(sem: Conditions, e: Expr, points: seq<Point>)
    requires Sized(e) && EncodedWidth(e) == 0
    ensures State(sem, e, points) == []
  {
  }

  lemma {:induction false} WrappedState(sem: Conditions, e: Expr, points: seq<Point>)
    requires Sized(e) && (e.Bounded? || e.Shift?)
    ensures State(sem, e, points) == State(sem, e.wrapped, points)
  {
    if points != [] {
      WrappedState(sem, e, points[..|points| - 1]);
      UpdateWraps(sem, e, State(sem, e, points[..|points| - 1]), points[|points| - 1]);
    }
  }

  lemma {:induction false} BinaryState(sem: Conditions, e: Expr, points: seq<Point>)
    requires Sized(e) && e.Binary?
    ensures State(sem, e, points) == State(sem, e.left, points) + State(sem, e.right, points)
  {
    var n := EncodedWidth(e.left);
    if points == [] {
      ZerosSplit(n, EncodedWidth(e.right));
    } else {
      var init, last := points[..|points| - 1], points[|points| - 1];
      BinaryState(sem, e, init);
      var b := State(sem, e, init);
      assert b[..n] == State(sem, e.left, init) && b[n..] == State(sem, e.right, init);
      UpdateSplits(sem, e, b, last);
    }
  }

  /** IF keeps the state of the points that pass its condition. */
  lemma {:induction false} IfState(sem: Conditions, e: Expr, points: seq<Point>)
    requires Sized(e) && e.If?
    ensures State(sem, e, points) == State(sem, e.wrapped, Filter(sem, e.cond, points))
  {
    if points != [] {
      var init, last := points[..|points| - 1], points[|points| - 1];
      IfState(sem, e, init);
      FilterAppend(sem, e.cond, init, last);
      assert points == init + [last];
      UpdateWraps(sem, e, State(sem, e, init), last);
      if Include(sem, e.cond, last.metadata) {
        var kept := Filter(sem, e.cond, init);
        assert (kept + [last])[..|kept|] == kept;
      } else {
        assert Filter(sem, e.cond, points) == Filter(sem, e.cond, init);
      }
    }
  }

  lemma {:induction false} FilterAppend(sem: Conditions, cond: Option<string>, points: seq<Point>, p: Point)
    ensures Filter(sem, cond, points + [p])
            == Filter(sem, cond, points) + if Include(sem, cond, p.metadata) then [p] else []
  {
    if points != [] {
      assert (points + [p])[1..] == points[1..] + [p];
      FilterAppend(sem, cond, points[1..], p);
    }
  }

  // ---------------------------------------------------------------- submerging columns

  datatype Query = Query(res: Resolution, asOf: Sequences.Time, until: Sequences.Time, strideSlice: int)

  /** Submerging a column of the stored expression into one of the queried expression. */
  function JobFor(q: Query, c: Context, e: Expr, sub: Expr, sm: SubMerge): Rebucketing.Job<Bytes, Bytes> {
    Rebucketing.Job(EncodedWidth(e), EncodedWidth(sub), q.res, c.otherRes, ShiftOf(e), q.asOf, q.until, q.strideSlice,
                    Unset(e), Unset(sub), (data, other) => Apply(c, sm, data, other))
  }

  function Feeder(sm: SubMerge): Bytes -> bool {
    b => Feeds(sm, [b])
  }

  lemma {:induction false} FeedsAll(sm: SubMerge, other: seq<Bytes>)
    ensures Feeds(sm, other) <== Feeds(sm, []) && Rebucketing.AllOk(other, Feeder(sm))
  {
    if Feeds(sm, []) && Rebucketing.AllOk(other, Feeder(sm)) {
      forall i | 0 <= i < |other| ensures Feeds(sm, [other[i]]) { assert Feeder(sm)(other[i]); }
      match sm
      case Whole(e) => forall b | b in other ensures IsState(e, b) { assert b in [b]; }
      case Combined(left, _, right) => FeedsAll(left, other); FeedsAll(right, other);
      case Conditional(_, w) => FeedsAll(w, other);
      case Shifted(_, w) => FeedsAll(w, other);
      case _ =>
    }
  }

  lemma {:induction false} FeedsZeros(sm: SubMerge, e: Expr, width: nat)
    requires Sized(e) && Fits(sm, e, width)
    ensures Feeds(sm, []) && Feeds(sm, [Zeros(width)])
    decreases e, sm
  {
    if e.Bounded? && !sm.NoMerge? {
      FeedsZeros(sm, e.wrapped, width);
    } else {
      match sm
      case Whole(_) => ZerosAreState(e);
      case Combined(left, _, right) => FeedsZeros(left, e.left, width); FeedsZeros(right, e.right, width);
      case Conditional(_, w) => FeedsZeros(w, e.wrapped, width);
      case Shifted(_, w) => FeedsZeros(w, e.wrapped, width);
      case _ =>
    }
  }

  lemma {:induction false} ShiftIsMultiple(e: Expr, otherRes: Resolution)
    requires ShiftsBack(e, otherRes)
    ensures ShiftOf(e) <= 0 && ShiftOf(e) % otherRes == 0
  {
    match e
    case Bounded(w, _, _) => ShiftIsMultiple(w, otherRes);
    case Aggregate(_, w) => ShiftIsMultiple(w, otherRes);
    case Average(v, weight) => ShiftIsMultiple(v, otherRes); ShiftIsMultiple(weight, otherRes);
    case Binary(_, l, r) => ShiftIsMultiple(l, otherRes); ShiftIsMultiple(r, otherRes);
    case If(_, w) => ShiftIsMultiple(w, otherRes);
    case Shift(w, offset) =>
      ShiftIsMultiple(w, otherRes);
      Sequences.AlignedSym(ShiftOf(w), 0, otherRes);
      Sequences.AlignedTrans(offset, 0, -ShiftOf(w), otherRes);
    case _ =>
  }

  lemma JobReads(q: Query, c: Context, e: Expr, sub: Expr, sm: SubMerge, x: Bytes, cells: seq<Bytes>)
    requires Sized(e) && Fits(sm, e, EncodedWidth(sub)) && ShiftsBack(e, c.otherRes)
    requires IsState(e, x) && Rebucketing.AllOk(cells, Feeder(sm))
    ensures Rebucketing.Reads(JobFor(q, c, e, sub, sm), Proper(e), x, cells)
  {
    var m := JobFor(q, c, e, sub, sm);
    var k := Rebucketing.Lookback(m);
    ShiftIsMultiple(e, c.otherRes);
    Rebucketing.LookbackIsExact(m);
    FeedsZeros(sm, e, EncodedWidth(sub));
    FeedsAll(sm, cells);
    ApplyIsAddition(c, sm, e, EncodedWidth(sub), x, cells);
    ApplyReach(c, sm, e, EncodedWidth(sub), x, cells, k);
    assert Window(cells, k + 1, EncodedWidth(sub)) == Rebucketing.Window(cells, k + 1, Unset(sub));
  }

  lemma JobIgnoresUnset(q: Query, c: Context, e: Expr, sub: Expr, sm: SubMerge, x: Bytes)
    requires Sized(e) && Fits(sm, e, EncodedWidth(sub)) && ShiftsBack(e, c.otherRes) && IsState(e, x)
    ensures var m := JobFor(q, c, e, sub, sm);
            m.submerge(x, Sequences.Repeat(m.otherZero, Rebucketing.Lookback(m) + 1)) == x
  {
    var m := JobFor(q, c, e, sub, sm);
    var k := Rebucketing.Lookback(m);
    ShiftIsMultiple(e, c.otherRes);
    Rebucketing.LookbackIsExact(m);
    FeedsZeros(sm, e, EncodedWidth(sub));
    ApplyReach(c, sm, e, EncodedWidth(sub), x, [], k);
    ApplyEmpty(c, sm, x);
    assert Window([], k + 1, EncodedWidth(sub)) == Sequences.Repeat(m.otherZero, k + 1);
  }

  /** The submergers of every expression meet the laws that rebucketing relies on. */
  lemma JobIsLawful(q: Query, c: Context, e: Expr, sub: Expr, sm: SubMerge)
    requires Sized(e) && Fits(sm, e, EncodedWidth(sub)) && ShiftsBack(e, c.otherRes)
    ensures Rebucketing.Lawful(JobFor(q, c, e, sub, sm), Proper(e), Feeder(sm))
  {
    hide Apply, Rebucketing.Reads;
    var m := JobFor(q, c, e, sub, sm);
    ZerosAreState(e);
    FeedsZeros(sm, e, EncodedWidth(sub));
    forall x, cells | Proper(e)(x) && Rebucketing.AllOk(cells, Feeder(sm))
      ensures Rebucketing.Reads(m, Proper(e), x, cells)
    {
      JobReads(q, c, e, sub, sm, x, cells);
    }
    forall x | Proper(e)(x) ensures m.submerge(x, Sequences.Repeat(m.otherZero, Rebucketing.Lookback(m) + 1)) == x {
      JobIgnoresUnset(q, c, e, sub, sm, x);
    }
  }

  // ---------------------------------------------------------------- sums of states

  predicate AllStates(e: Expr, xs: seq<Bytes>)
    requires Sized(e)
  {
    forall i | 0 <= i < |xs| :: IsState(e, xs[i])
  }

  /** The merge of a list of states. */
  function Sum(e: Expr, xs: seq<Bytes>): (r: Bytes)
    requires Sized(e) && AllStates(e, xs)
    ensures IsState(e, r)
  {
    if xs == [] then
      ZerosAreState(e);
      Unset(e)
    else
      assert AllStates(e, xs[1..]);
      MergeInPlace(e, xs[0], Sum(e, xs[1..]));
      Merge(e, xs[0], Sum(e, xs[1..]))
  }

  /** Sums of pairwise merges are merges of sums. */
  lemma {:induction false} SumOfMerges(e: Expr, xs: seq<Bytes>, ys: seq<Bytes>, zs: seq<Bytes>)
    requires Sized(e) && AllStates(e, xs) && AllStates(e, ys) && AllStates(e, zs) && |xs| == |ys| == |zs|
    requires forall i | 0 <= i < |xs| :: zs[i] == Merge(e, xs[i], ys[i])
    ensures Sum(e, zs) == Merge(e, Sum(e, xs), Sum(e, ys))
  {
    hide Merge, IsState;
    if xs == [] {
      ZerosAreState(e);
      MergeIdentity(e, Unset(e));
    } else {
      var xs', ys', zs' := xs[1..], ys[1..], zs[1..];
      assert AllStates(e, xs') && AllStates(e, ys') && AllStates(e, zs');
      SumOfMerges(e, xs', ys', zs');
      Interchange(e, xs[0], ys[0], Sum(e, xs'), Sum(e, ys'));
    }
  }

  lemma Interchange(e: Expr, a: Bytes, b: Bytes, c: Bytes, d: Bytes)
    requires Sized(e) && IsState(e, a) && IsState(e, b) && IsState(e, c) && IsState(e, d)
    ensures Merge(e, Merge(e, a, b), Merge(e, c, d)) == Merge(e, Merge(e, a, c), Merge(e, b, d))
  {
    hide Merge, IsState;
    MergeInPlace(e, b, c);
    MergeInPlace(e, c, d);
    MergeInPlace(e, b, d);
    MergeAssociates(e, a, b, Merge(e, c, d));
    MergeAssociates(e, b, c, d);
    MergeCommutes(e, b, c);
    MergeAssociates(e, c, b, d);
    MergeAssociates(e, a, c, Merge(e, b, d));
  }

  // ---------------------------------------------------------------- rows

  /** The points of the periods that end at u and before, newest first. */
  function History(points: int -> seq<Point>, u: int, n: nat, res: Resolution): (h: seq<seq<Point>>)
    ensures |h| == n
  {
    seq(n, i requires 0 <= i => points(u - i * res))
  }

  /** A row being added to a result: its context, the queried and stored expressions, and its columns. */
  datatype Row = Row(q: Query, c: Context, e: Expr, subs: seq<Expr>, columns: seq<Column>)

  predicate WellFormed(row: Row) {
    && Sized(row.e) && ShiftsBack(row.e, row.c.otherRes) && |row.columns| == |row.subs|
    && (forall i | 0 <= i < |row.subs| :: Sized(row.subs[i]) && ShiftFree(row.subs[i]))
  }

  function RowJob(row: Row, i: nat): Rebucketing.Job<Bytes, Bytes>
    requires i < |row.subs|
  {
    JobFor(row.q, row.c, row.e, row.subs[i], SubMergersOf(row.e, row.subs)[i])
  }

  /** What column i adds to the result period ending at t through its n newest input periods. */
  function Part(row: Row, i: nat, t: int, n: nat): Bytes
    requires i < |row.subs| == |row.columns|
  {
    Rebucketing.FoldBucket(RowJob(row, i), row.columns[i], t, n, Unset(row.e))
  }

  /** The columns hold the states of the given points, period by period. */
  ghost predicate Holds(row: Row, points: int -> seq<Point>)
    requires WellFormed(row)
  {
    forall i, v | 0 <= i < |row.subs| :: HoldsAt(row, points, i, v)
  }

  predicate HoldsAt(row: Row, points: int -> seq<Point>, i: nat, v: int)
    requires WellFormed(row) && i < |row.subs|
  {
    Sequences.At(row.columns[i], row.c.otherRes, v, Unset(row.subs[i])) == State(row.c.sem, row.subs[i], points(v))
  }

  function Depth(row: Row): nat {
    Rebucketing.Lookback(JobFor(row.q, row.c, row.e, Field(""), NoMerge)) + 1
  }

  /** What the submergers see from u is the stored history of each expression. */
  lemma LookIsStored(row: Row, points: int -> seq<Point>, i: nat, u: int)
    requires WellFormed(row) && Holds(row, points) && i < |row.subs|
    ensures var h := History(points, u, Depth(row), row.c.otherRes);
            Rebucketing.Look(RowJob(row, i), row.columns[i], u) == Stored(row.c.sem, row.subs[i], row.c.otherRes, h)
  {
    var h := History(points, u, Depth(row), row.c.otherRes);
    var look := Rebucketing.Look(RowJob(row, i), row.columns[i], u);
    forall p | 0 <= p < |h| ensures look[p] == Expected(row.c.sem, row.subs[i], row.c.otherRes, h[p..]) {
      assert HoldsAt(row, points, i, u - p * row.c.otherRes);
      ExpectedIsUpdated(row.c.sem, row.subs[i], row.c.otherRes, h[p..]);
    }
  }

  /** The columns can feed the submergers made for them. */
  lemma {:induction false} StoredFeeds(sem: Conditions, sm: SubMerge, e: Expr, sub: Expr, otherRes: Resolution,
                                       h: seq<seq<Point>>)
    requires Sized(sub) && Sized(e) && OnlyMerges(sm, sub)
    ensures Feeds(sm, Stored(sem, sub, otherRes, h))
    decreases sm
  {
    match sm
    case Whole(w) =>
      forall b | b in Stored(sem, sub, otherRes, h) ensures IsState(w, b) {
        var p :| 0 <= p < |h| && Stored(sem, sub, otherRes, h)[p] == b;
        ExpectedIsState(sem, sub, otherRes, h[p..]);
      }
    case Combined(left, _, right) => StoredFeeds(sem, left, e, sub, otherRes, h); StoredFeeds(sem, right, e, sub,
      otherRes, h);
    case Conditional(_, w) => StoredFeeds(sem, w, e, sub, otherRes, h);
    case Shifted(_, w) => StoredFeeds(sem, w, e, sub, otherRes, h);
    case _ =>
  }

  /** The submerger merges nothing whole but the stored expression itself. */
  predicate OnlyMerges(sm: SubMerge, sub: Expr) {
    match sm
    case NoMerge => true
    case Whole(e) => e == sub
    case Combined(left, _, right) => OnlyMerges(left, sub) && OnlyMerges(right, sub)
    case Conditional(_, w) => OnlyMerges(w, sub)
    case Shifted(_, w) => OnlyMerges(w, sub)
  }

  lemma {:induction false} CoveredOnlyMerges(e: Expr, subs: seq<Expr>, i: nat)
    requires Covers(subs, e) && DistinctNames(subs) && i < |subs|
    ensures OnlyMerges(SubMergersOf(e, subs)[i], subs[i])
  {
    UnlikeIff(e, subs);
    if e in subs {
      var j :| 0 <= j < |subs| && subs[j] == e;
      NamesTell(subs, j, i);
    }
    match e
    case Bounded(w, _, _) => CoveredOnlyMerges(w, subs, i);
    case Binary(_, l, r) =>
      if FirstMatch(e, subs) == |subs| {
        assert e !in subs;
        CoveredOnlyMerges(l, subs, i);
        CoveredOnlyMerges(r, subs, i);
      }
    case If(_, w) => if FirstMatch(e, subs) == |subs| { assert e !in subs; CoveredOnlyMerges(w, subs, i); }
    case Shift(w, _) => if FirstMatch(e, subs) == |subs| { assert e !in subs; CoveredOnlyMerges(w, subs, i); }
    case _ =>
  }

  /**
   * A row that can answer the query: its columns hold the states of the points,
   * they cover the queried expression, and the row decides its conditions.
   */
  ghost predicate Answers(row: Row, points: int -> seq<Point>) {
    && WellFormed(row) && Holds(row, points) && Covers(row.subs, row.e) && DistinctNames(row.subs)
    && forall u :: DecidedAt(row, points, u)
  }

  predicate DecidedAt(row: Row, points: int -> seq<Point>, u: int) {
    Decided(row.c.sem, row.e, row.subs, History(points, u, Depth(row), row.c.otherRes), row.c.metadata)
  }

  /** What column i adds when the submerger looks from u. */
  function AdditionAt(row: Row, i: nat, u: int): Bytes
    requires i < |row.subs| == |row.columns|
  {
    Addition(row.c, SubMergersOf(row.e, row.subs)[i], row.e, Rebucketing.Look(RowJob(row, i), row.columns[i], u))
  }

  lemma AdditionIsState(row: Row, points: int -> seq<Point>, i: nat, u: int, x: Bytes)
    requires Answers(row, points) && i < |row.subs| && IsState(row.e, x)
    ensures IsState(row.e, AdditionAt(row, i, u))
    ensures var m := RowJob(row, i);
            m.submerge(x, Rebucketing.Look(m, row.columns[i], u)) == Merge(row.e, x, AdditionAt(row, i, u))
  {
    hide Apply, Merge;
    var sm := SubMergersOf(row.e, row.subs)[i];
    var h := History(points, u, Depth(row), row.c.otherRes);
    LookIsStored(row, points, i, u);
    CoveredOnlyMerges(row.e, row.subs, i);
    StoredFeeds(row.c.sem, sm, row.e, row.subs[i], row.c.otherRes, h);
    SubMergersFit(row.e, row.subs, i);
    ApplyIsAddition(row.c, sm, row.e, EncodedWidth(row.subs[i]), x, Stored(row.c.sem, row.subs[i], row.c.otherRes, h));
  }

  predicate RowInStride(row: Row, j: nat) {
    Rebucketing.InStride(JobFor(row.q, row.c, row.e, Field(""), NoMerge), j)
  }

  lemma PartNext(row: Row, points: int -> seq<Point>, i: nat, t: int, n: nat)
    requires Answers(row, points) && i < |row.subs| && IsState(row.e, Part(row, i, t, n))
    ensures var u := t - n * row.c.otherRes;
            && IsState(row.e, AdditionAt(row, i, u))
            && Part(row, i, t, n + 1)
               == if RowInStride(row, n) then Merge(row.e, Part(row, i, t, n), AdditionAt(row, i, u))
                 else Part(row, i, t, n)
  {
    hide Merge, Rebucketing.FoldBucket, Rebucketing.Look, AdditionAt;
    AdditionIsState(row, points, i, t - n * row.c.otherRes, Part(row, i, t, n));
    Rebucketing.FoldNext(RowJob(row, i), row.columns[i], t, n, Unset(row.e));
  }

  lemma {:induction false} PartIsState(row: Row, points: int -> seq<Point>, i: nat, t: int, n: nat)
    requires Answers(row, points) && i < |row.subs|
    ensures IsState(row.e, Part(row, i, t, n))
  {
    hide Merge, RowInStride, AdditionAt, Rebucketing.Look, Rebucketing.InStride, IsState;
    if n == 0 {
      ZerosAreState(row.e);
    } else {
      PartIsState(row, points, i, t, n - 1);
      PartNext(row, points, i, t, n - 1);
      MergeInPlace(row.e, Part(row, i, t, n - 1), AdditionAt(row, i, t - (n - 1) * row.c.otherRes));
    }
  }

  /** Folding a column into any state adds its part. */
  lemma {:induction false} FoldAddsPart(row: Row, points: int -> seq<Point>, i: nat, t: int, n: nat, x: Bytes)
    requires Answers(row, points) && i < |row.subs| && IsState(row.e, x)
    ensures IsState(row.e, Part(row, i, t, n))
    ensures Rebucketing.FoldBucket(RowJob(row, i), row.columns[i], t, n, x) == Merge(row.e, x, Part(row, i, t, n))
  {
    hide Merge, Rebucketing.Look, AdditionAt, IsState;
    PartIsState(row, points, i, t, n);
    if n == 0 {
      MergeIdentity(row.e, x);
    } else {
      var u := t - (n - 1) * row.c.otherRes;
      FoldAddsPart(row, points, i, t, n - 1, x);
      PartNext(row, points, i, t, n - 1);
      var y := Merge(row.e, x, Part(row, i, t, n - 1));
      MergeInPlace(row.e, x, Part(row, i, t, n - 1));
      AdditionIsState(row, points, i, u, y);
      MergeAssociates(row.e, x, Part(row, i, t, n - 1), AdditionAt(row, i, u));
      Rebucketing.FoldNext(RowJob(row, i), row.columns[i], t, n - 1, x);
    }
  }

  /** What all columns together add to a result period. */
  function Parts(row: Row, t: int, n: nat): (r: seq<Bytes>)
    requires |row.subs| == |row.columns|
    ensures |r| == |row.subs|
  {
    seq(|row.subs|, i requires 0 <= i < |row.subs| => Part(row, i, t, n))
  }

  function Additions(row: Row, u: int): (r: seq<Bytes>)
    requires |row.subs| == |row.columns|
    ensures |r| == |row.subs|
  {
    seq(|row.subs|, i requires 0 <= i < |row.subs| => AdditionAt(row, i, u))
  }

  /** The expected states of the n newest input periods of a result period, merged. */
  function ExpectedBucket(row: Row, points: int -> seq<Point>, t: int, n: nat): (r: Bytes)
    requires WellFormed(row)
    ensures IsState(row.e, r)
  {
    if n == 0 then
      ZerosAreState(row.e);
      Unset(row.e)
    else if RowInStride(row, n - 1) then
      var h := History(points, t - (n - 1) * row.c.otherRes, Depth(row), row.c.otherRes);
      ExpectedIsState(row.c.sem, row.e, row.c.otherRes, h);
      MergeInPlace(row.e, ExpectedBucket(row, points, t, n - 1), Expected(row.c.sem, row.e, row.c.otherRes, h));
      Merge(row.e, ExpectedBucket(row, points, t, n - 1), Expected(row.c.sem, row.e, row.c.otherRes, h))
    else ExpectedBucket(row, points, t, n - 1)
  }

  /** The points of the n newest input periods of a result period; with a stride, of those that lie in it. */
  function Pooled(row: Row, points: int -> seq<Point>, t: int, n: nat): seq<Point> {
    if n == 0 then [] else
      var counts := row.q.strideSlice > 0 ==> n * row.c.otherRes <= row.q.strideSlice;
      Pooled(row, points, t, n - 1) + if counts then points(t - (n - 1) * row.c.otherRes) else []
  }

  /** Without shifts, a result period should hold the state of all points that fall into it. */
  lemma {:induction false} BucketIsState(row: Row, points: int -> seq<Point>, t: int, n: nat)
    requires WellFormed(row) && ShiftFree(row.e)
    ensures ExpectedBucket(row, points, t, n) == State(row.c.sem, row.e, Pooled(row, points, t, n))
  {
    hide Merge, State, Expected, IsState;
    if n == 0 {
      NoPoints(row.c.sem, row.e);
    } else {
      BucketIsState(row, points, t, n - 1);
      var u, before := t - (n - 1) * row.c.otherRes, Pooled(row, points, t, n - 1);
      if RowInStride(row, n - 1) {
        var h := History(points, u, Depth(row), row.c.otherRes);
        ExpectedIsUpdated(row.c.sem, row.e, row.c.otherRes, h);
        assert h[0] == points(u);
        MergeIsConcat(row.c.sem, row.e, before, points(u));
      } else {
        assert before + [] == before;
      }
    }
  }

  /** Running all submergers adds the sum of what each adds. */
  lemma {:induction false} ApplyAllIsSum(c: Context, e: Expr, sms: seq<SubMerge>,
                                         others: seq<seq<Bytes>>, adds: seq<Bytes>, x: Bytes)
    requires Sized(e) && |sms| == |others| == |adds| && IsState(e, x) && AllStates(e, adds)
    requires forall i, y | 0 <= i < |sms| && IsState(e, y) :: Apply(c, sms[i], y, others[i]) == Merge(e, y, adds[i])
    ensures ApplyAll(c, sms, x, others) == Merge(e, x, Sum(e, adds))
  {
    hide Apply, Merge, IsState;
    if sms == [] {
      MergeIdentity(e, x);
    } else {
      var y := Merge(e, x, adds[0]);
      MergeInPlace(e, x, adds[0]);
      assert AllStates(e, adds[1..]);
      ApplyAllIsSum(c, e, sms[1..], others[1..], adds[1..], y);
      MergeAssociates(e, x, adds[0], Sum(e, adds[1..]));
    }
  }

  /** Looking from u, the columns together add the expected state of the expression. */
  lemma AdditionsSum(row: Row, points: int -> seq<Point>, u: int)
    requires Answers(row, points)
    ensures AllStates(row.e, Additions(row, u))
    ensures Sum(row.e, Additions(row, u))
            == Expected(row.c.sem, row.e, row.c.otherRes, History(points, u, Depth(row), row.c.otherRes))
  {
    hide Apply, Merge, IsState, AdditionAt;
    var h := History(points, u, Depth(row), row.c.otherRes);
    var zero, sms := Unset(row.e), SubMergersOf(row.e, row.subs);
    var others := StoredAll(row.c.sem, row.subs, row.c.otherRes, h);
    var adds := Additions(row, u);
    ZerosAreState(row.e);
    forall i, y | 0 <= i < |sms| && IsState(row.e, y)
      ensures IsState(row.e, adds[i]) && Apply(row.c, sms[i], y, others[i]) == Merge(row.e, y, adds[i])
    {
      AdditionIsState(row, points, i, u, y);
      LookIsStored(row, points, i, u);
    }
    forall i | 0 <= i < |adds| ensures IsState(row.e, adds[i]) { AdditionIsState(row, points, i, u, zero); }
    ApplyAllIsSum(row.c, row.e, sms, others, adds, zero);
    assert DecidedAt(row, points, u);
    SubMergersRebuild(row.c, row.e, row.subs, h, zero);
    ExpectedIsState(row.c.sem, row.e, row.c.otherRes, h);
    MergeIdentity(row.e, Sum(row.e, adds));
    MergeIdentity(row.e, Expected(row.c.sem, row.e, row.c.otherRes, h));
  }

  lemma PartsAreStates(row: Row, points: int -> seq<Point>, t: int, n: nat)
    requires Answers(row, points)
    ensures AllStates(row.e, Parts(row, t, n))
  {
    hide Part, IsState;
    forall i | 0 <= i < |row.subs| ensures IsState(row.e, Parts(row, t, n)[i]) { PartIsState(row, points, i, t, n); }
  }

  /** One more input period adds what the columns add from it, if it counts. */
  lemma PartsNext(row: Row, points: int -> seq<Point>, t: int, n: nat)
    requires Answers(row, points)
    ensures AllStates(row.e, Parts(row, t, n)) && AllStates(row.e, Parts(row, t, n + 1))
    ensures var adds := Additions(row, t - n * row.c.otherRes);
            && AllStates(row.e, adds)
            && Sum(row.e, Parts(row, t, n + 1))
               == if RowInStride(row, n) then Merge(row.e, Sum(row.e, Parts(row, t, n)), Sum(row.e, adds))
                  else Sum(row.e, Parts(row, t, n))
  {
    hide Merge, IsState, AdditionAt, Part, Sum, RowInStride;
    var adds := Additions(row, t - n * row.c.otherRes);
    AdditionsSum(row, points, t - n * row.c.otherRes);
    PartsAreStates(row, points, t, n);
    PartsAreStates(row, points, t, n + 1);
    forall i | 0 <= i < |row.subs|
      ensures Parts(row, t, n + 1)[i]
              == if RowInStride(row, n) then Merge(row.e, Parts(row, t, n)[i], adds[i]) else Parts(row, t, n)[i]
    {
      PartIsState(row, points, i, t, n);
      PartNext(row, points, i, t, n);
    }
    if RowInStride(row, n) {
      SumOfMerges(row.e, Parts(row, t, n), adds, Parts(row, t, n + 1));
    } else {
      assert Parts(row, t, n + 1) == Parts(row, t, n);
    }
  }

  lemma {:induction false} PartsSum(row: Row, points: int -> seq<Point>, t: int, n: nat)
    requires Answers(row, points)
    ensures AllStates(row.e, Parts(row, t, n))
    ensures Sum(row.e, Parts(row, t, n)) == ExpectedBucket(row, points, t, n)
  {
    hide Merge, IsState, Parts, Additions, Sum, RowInStride;
    if n == 0 {
      NoParts(row, t);
    } else {
      PartsSum(row, points, t, n - 1);
      PartsNext(row, points, t, n - 1);
      AdditionsSum(row, points, t - (n - 1) * row.c.otherRes);
    }
  }

  lemma NoParts(row: Row, t: int)
    requires WellFormed(row)
    ensures AllStates(row.e, Parts(row, t, 0)) && Sum(row.e, Parts(row, t, 0)) == Unset(row.e)
  {
    ZerosAreState(row.e);
    ZeroSum(row.e, Parts(row, t, 0));
  }

  lemma {:induction false} ZeroSum(e: Expr, xs: seq<Bytes>)
    requires Sized(e) && forall i | 0 <= i < |xs| :: xs[i] == Unset(e)
    ensures AllStates(e, xs) && Sum(e, xs) == Unset(e)
  {
    ZerosAreState(e);
    if xs != [] {
      ZeroSum(e, xs[1..]);
      MergeIdentity(e, Unset(e));
    }
  }

  /** Adds the columns from the i-th on to a result period, as a tree node does for a row. */
  function AddColumns(row: Row, t: int, n: nat, i: nat, x: Bytes): Bytes
    requires i <= |row.subs| == |row.columns|
    decreases |row.subs| - i
  {
    if i == |row.subs| then x
    else AddColumns(row, t, n, i + 1, Rebucketing.FoldBucket(RowJob(row, i), row.columns[i], t, n, x))
  }

  lemma {:induction false} ColumnsAddSum(row: Row, points: int -> seq<Point>, t: int, n: nat, i: nat, x: Bytes)
    requires Answers(row, points) && i <= |row.subs| && IsState(row.e, x) && AllStates(row.e, Parts(row, t, n))
    ensures AddColumns(row, t, n, i, x) == Merge(row.e, x, Sum(row.e, Parts(row, t, n)[i..]))
    decreases |row.subs| - i
  {
    hide Merge, IsState, Rebucketing.FoldBucket, RowJob, Part;
    var parts := Parts(row, t, n);
    if i == |row.subs| {
      MergeIdentity(row.e, x);
    } else {
      FoldAddsPart(row, points, i, t, n, x);
      MergeInPlace(row.e, x, parts[i]);
      var y := Merge(row.e, x, parts[i]);
      ColumnsAddSum(row, points, t, n, i + 1, y);
      assert parts[i..][1..] == parts[i + 1..];
      MergeAssociates(row.e, x, parts[i], Sum(row.e, parts[i + 1..]));
    }
  }

  /**
   * Adding a stored row to a result period, column by column, adds the state that
   * the queried expression should have for the row's points in that period.
   */
  lemma RowAddsExpected(row: Row, points: int -> seq<Point>, t: int, n: nat, x: Bytes)
    requires Answers(row, points) && IsState(row.e, x)
    ensures AddColumns(row, t, n, 0, x) == Merge(row.e, x, ExpectedBucket(row, points, t, n))
  {
    PartsSum(row, points, t, n);
    ColumnsAddSum(row, points, t, n, 0, x);
    assert Parts(row, t, n)[0..] == Parts(row, t, n);
  }

  // ---------------------------------------------------------------- adding a row

  /** The situation in which a tree adds a row to a group: the grids nest, and every column lies on its own. */
  predicate Posed(row: Row)
    requires |row.columns| == |row.subs|
  {
    && (forall i | 0 <= i < |row.subs| :: Rebucketing.WellPosed(RowJob(row, i)))
    && (forall i | 0 <= i < |row.subs| :: Rebucketing.Fits(row.columns[i], row.q.until, row.c.otherRes))
  }

  /** Every cell of a column is a state that its submerger takes. */
  lemma ColumnFeeds(row: Row, points: int -> seq<Point>, i: nat)
    requires Answers(row, points) && i < |row.subs|
    ensures Sequences.AllCells(row.columns[i], Feeder(SubMergersOf(row.e, row.subs)[i]))
  {
    hide State, IsState, SubMergersOf, Covers, DecidedAt;
    var column, sub, sm := row.columns[i], row.subs[i], SubMergersOf(row.e, row.subs)[i];
    CoveredOnlyMerges(row.e, row.subs, i);
    if column.Seq? {
      forall k | 0 <= k < |column.cells| ensures Feeder(sm)(column.cells[k]) {
        var v := column.until - k * row.c.otherRes;
        Sequences.AtPeriod(column, row.c.otherRes, v, Unset(sub), k);
        assert HoldsAt(row, points, i, v);
        StateIsState(row.c.sem, sub, points(v));
        StateFeeds(sm, sub, column.cells[k]);
      }
    }
  }

  lemma {:induction false} StateFeeds(sm: SubMerge, sub: Expr, b: Bytes)
    requires Sized(sub) && OnlyMerges(sm, sub) && IsState(sub, b)
    ensures Feeds(sm, [b])
  {
    match sm
    case Combined(left, _, right) => StateFeeds(left, sub, b); StateFeeds(right, sub, b);
    case Conditional(_, w) => StateFeeds(w, sub, b);
    case Shifted(_, w) => StateFeeds(w, sub, b);
    case _ =>
  }

  /** Columns without a submerger are passed over. */
  lemma {:induction false} NoMergeAdds(row: Row, i: nat, t: int, n: nat, x: Bytes)
    requires i < |row.subs| == |row.columns| && SubMergersOf(row.e, row.subs)[i].NoMerge?
    ensures Rebucketing.FoldBucket(RowJob(row, i), row.columns[i], t, n, x) == x
  {
    if n > 0 { NoMergeAdds(row, i, t, n - 1, x); }
  }

  /** What a result column holds for a period. */
  function CellOf(row: Row, column: Column, t: int): Bytes {
    Sequences.At(column, row.q.res, t, Unset(row.e))
  }

  /** Whether a time ends a period of the query. */
  predicate Asked(row: Row, t: int) {
    row.q.asOf < t <= row.q.until && Sequences.Aligned(row.q.until, t, row.q.res)
  }

  /** A period that starts at the start of the query or later. */
  predicate IsFull(row: Row, t: int) {
    row.subs != [] && row.q.asOf + row.q.res <= t
  }

  /** How many input periods a period of the query holds. */
  function InputPeriods(row: Row): nat {
    Quot(row.q.res, row.c.otherRes)
  }

  /** The row as far as it is within reach of the query. */
  function Cut(row: Row): (r: Row)
    requires |row.columns| == |row.subs| && Posed(row)
    ensures |r.columns| == |r.subs|
  {
    row.(columns := seq(|row.subs|, i requires 0 <= i < |row.subs| => Rebucketing.Within(RowJob(row, i),
      row.columns[i])))
  }

  /** The points within reach of the query: with a shift, from before its start. */
  function CutPoints(row: Row, points: int -> seq<Point>): int -> seq<Point> {
    v => if row.q.asOf + ShiftOf(row.e) < v <= row.q.until then points(v) else []
  }

  /** What is within reach of a column are the states of the points within reach. */
  lemma CutHolds(row: Row, points: int -> seq<Point>, i: nat, v: int)
    requires Answers(row, points) && Posed(row) && i < |row.subs|
    ensures WellFormed(Cut(row)) && HoldsAt(Cut(row), CutPoints(row, points), i, v)
  {
    hide State, Rebucketing.Within, Sequences.At, SubMergersOf, Covers, DecidedAt;
    var m, column, res := RowJob(row, i), row.columns[i], row.c.otherRes;
    assert HoldsAt(row, points, i, v);
    assert State(row.c.sem, row.subs[i], []) == Unset(row.subs[i]) by { NoPoints(row.c.sem, row.subs[i]); }
    if m.asOf + m.shift >= v {
      BeforeReach(m, column, v);
    } else if Sequences.Aligned(row.q.until, v, res) {
      Rebucketing.WithinMeaning(m, column, v);
    } else {
      OffGrid(m, column, v);
    }
  }

  /** A shifted result period should hold the state of the points that fall into the period that much earlier. */
  lemma {:induction false} ShiftedBucket(row: Row, points: int -> seq<Point>, t: int, n: nat)
    requires WellFormed(row) && row.e.Shift? && ShiftFree(row.e.wrapped)
    ensures ExpectedBucket(row, points, t, n)
            == State(row.c.sem, row.e.wrapped, Pooled(row, (v: int) => points(v + row.e.offset), t, n))
  {
    hide Merge, MergeInto, State, Expected, IsState;
    var w, earlier := row.e.wrapped, (v: int) => points(v + row.e.offset);
    if n == 0 {
      NoPoints(row.c.sem, w);
    } else {
      ShiftedBucket(row, points, t, n - 1);
      var u, before := t - (n - 1) * row.c.otherRes, Pooled(row, earlier, t, n - 1);
      if RowInStride(row, n - 1) {
        DeepEnough(row);
        ShiftedState(row.c.sem, w, row.e.offset, row.c.otherRes, points, u, Depth(row));
        MergeIsConcat(row.c.sem, w, before, earlier(u));
        MergeWraps(row.e, State(row.c.sem, w, before), State(row.c.sem, w, earlier(u)));
      } else {
        assert before + [] == before;
      }
    }
  }

  lemma DeepEnough(row: Row)
    requires WellFormed(row) && row.e.Shift?
    ensures -row.e.offset < Depth(row) * row.c.otherRes
  {
    hide Quot;
    ShiftIsBack(row.e.wrapped, row.c.otherRes);
    ShiftIsBack(row.e, row.c.otherRes);
    var k := Quot(-ShiftOf(row.e), row.c.otherRes);
    QuotBound(-ShiftOf(row.e), row.c.otherRes);
    Distribute(k, 1, row.c.otherRes);
  }

  lemma QuotBound(a: int, r: Resolution)
    requires a >= 0
    ensures a < Quot(a, r) * r + r
  {
    Euclid(a, r);
  }

  lemma NoPoints(sem: Conditions, e: Expr)
    requires Sized(e)
    ensures State(sem, e, []) == Unset(e)
  {
  }

  lemma BeforeReach(m: Rebucketing.Job<Bytes, Bytes>, column: Column, v: int)
    requires Rebucketing.WellPosed(m) && Rebucketing.Fits(column, m.until, m.otherRes) && v <= m.asOf + m.shift
    ensures Sequences.At(Rebucketing.Within(m, column), m.otherRes, v, m.otherZero) == m.otherZero
  {
    hide Rebucketing.Within;
    if Rebucketing.Within(m, column).Seq? { Rebucketing.WithinOldest(m, column); }
    Rebucketing.BeforeOldest(Rebucketing.Within(m, column), m.otherRes, v, m.otherZero);
  }

  /** Times off the grid have no cells, neither before nor after cutting. */
  lemma OffGrid(m: Rebucketing.Job<Bytes, Bytes>, column: Column, v: int)
    requires Rebucketing.WellPosed(m) && Rebucketing.Fits(column, m.until, m.otherRes)
             && !Sequences.Aligned(m.until, v, m.otherRes)
    ensures Sequences.At(Rebucketing.Within(m, column), m.otherRes, v, m.otherZero) == m.otherZero
    ensures Sequences.At(column, m.otherRes, v, m.otherZero) == m.otherZero
  {
    hide Rebucketing.Within, Sequences.CellAt;
    Rebucketing.WithinEnds(m, column);
    var kept := Rebucketing.Within(m, column);
    if column.Seq? && Sequences.Aligned(column.until, v, m.otherRes) {
      Sequences.AlignedTrans(m.until, column.until, v, m.otherRes);
    }
    if kept.Seq? && Sequences.Aligned(kept.until, v, m.otherRes) { Sequences.AlignedTrans(m.until, kept.until, v,
      m.otherRes); }
  }

  /** Fewer points are decided if all are. */
  lemma {:induction false} DecidedFewer(sem: Conditions, e: Expr, subs: seq<Expr>,
                                        h: seq<seq<Point>>, fewer: seq<seq<Point>>, metadata: Option<Dims>)
    requires |h| == |fewer| && (forall p | 0 <= p < |h| :: fewer[p] == h[p] || fewer[p] == [])
             && Decided(sem, e, subs, h, metadata)
    ensures Decided(sem, e, subs, fewer, metadata)
  {
    match e
    case Bounded(w, _, _) => DecidedFewer(sem, w, subs, h, fewer, metadata);
    case Binary(_, l, r) =>
      if e !in subs {
        DecidedFewer(sem, l, subs, h, fewer, metadata);
        DecidedFewer(sem, r, subs, h, fewer, metadata);
      }
    case If(_, w) => if e !in subs { DecidedFewer(sem, w, subs, h, fewer, metadata); }
    case Shift(w, _) => if e !in subs { DecidedFewer(sem, w, subs, h, fewer, metadata); }
    case _ =>
  }

  lemma CutAnswers(row: Row, points: int -> seq<Point>)
    requires Answers(row, points) && Posed(row)
    ensures Answers(Cut(row), CutPoints(row, points))
  {
    hide HoldsAt, Decided, SubMergersOf, Covers, DistinctNames;
    var cut, fewer := Cut(row), CutPoints(row, points);
    forall i: nat, v | i < |row.subs|
      ensures WellFormed(cut) && HoldsAt(cut, fewer, i, v)
    {
      CutHolds(row, points, i, v);
    }
    forall u ensures DecidedAt(cut, fewer, u) {
      assert DecidedAt(row, points, u);
      DecidedFewer(row.c.sem, row.e, row.subs, History(points, u, Depth(row), row.c.otherRes),
        History(fewer, u, Depth(row), row.c.otherRes), row.c.metadata);
    }
  }

  /** Adds one stored column, if the queried expression takes anything from it. */
  method AddColumn(row: Row, i: nat, s: Column, ghost points: int -> seq<Point>) returns (r: Column)
    requires Answers(row, points) && Posed(row) && i < |row.subs|
    requires Rebucketing.Fits(s, row.q.until, row.q.res) && Sequences.AllCells(s, Proper(row.e))
    ensures Rebucketing.Fits(r, row.q.until, row.q.res) && Sequences.AllCells(r, Proper(row.e))
    ensures forall t | Asked(row, t) ::
              CellOf(row, r, t) == Rebucketing.FoldBucket(RowJob(row, i), Cut(row).columns[i], t, InputPeriods(row),
                CellOf(row, s, t))
  {
    hide IsState, Merge, Rebucketing.FoldBucket, Sequences.At, Quot, SubMergersOf, Apply, Rebucketing.Lawful, Holds,
      Covers, DecidedAt, Rebucketing.Within;
    var sm := SubMergersOf(row.e, row.subs)[i];
    if sm.NoMerge? {
      r := s;
      forall t | Asked(row, t)
        ensures CellOf(row, r, t) == Rebucketing.FoldBucket(RowJob(row, i), Cut(row).columns[i], t, InputPeriods(row),
                CellOf(row, s, t))
      {
        NoMergeAdds(Cut(row), i, t, InputPeriods(row), CellOf(row, s, t));
      }
    } else {
      SubMergersFit(row.e, row.subs, i);
      JobIsLawful(row.q, row.c, row.e, row.subs[i], sm);
      ColumnFeeds(row, points, i);
      r := Rebucketing.SubMerge(RowJob(row, i), s, row.columns[i], Proper(row.e), Feeder(sm));
    }
  }

  /**
   * node.doUpdate for one queried expression and a stored row: every period of
   * the query gains the state that the expression should have for the row's
   * points in that period, as far as they are within reach: for all of them unless
   * the period starts before the query does.
   */
  method AddRow(row: Row, s: Column, ghost points: int -> seq<Point>) returns (r: Column)
    requires Answers(row, points) && Posed(row)
    requires Rebucketing.Fits(s, row.q.until, row.q.res) && Sequences.AllCells(s, Proper(row.e))
    ensures Rebucketing.Fits(r, row.q.until, row.q.res) && Sequences.AllCells(r, Proper(row.e))
    ensures forall t | Asked(row, t) :: IsState(row.e, CellOf(row, s, t))
    ensures forall t | Asked(row, t) ::
              CellOf(row, r, t) == Merge(row.e, CellOf(row, s, t),
                ExpectedBucket(row, CutPoints(row, points), t, InputPeriods(row)))
    ensures forall t | Asked(row, t) && IsFull(row, t) ::
              CellOf(row, r, t) == Merge(row.e, CellOf(row, s, t), ExpectedBucket(row, points, t, InputPeriods(row)))
  {
    hide IsState, Merge, ExpectedBucket, Rebucketing.FoldBucket, Sequences.At, Asked, IsFull, InputPeriods,
      SubMergersOf, Posed, RowJob, Holds, Covers, DecidedAt, Cut, CutPoints;
    r := s;
    ghost var cut := Cut(row);
    SameJobs(row);
    for i := 0 to |row.subs|
      invariant Rebucketing.Fits(r, row.q.until, row.q.res) && Sequences.AllCells(r, Proper(row.e))
      invariant forall t | Asked(row, t) ::
        AddColumns(cut, t, InputPeriods(row), i, CellOf(row, r, t))
          == AddColumns(cut, t, InputPeriods(row), 0, CellOf(row, s, t))
    {
      r := AddColumn(row, i, r, points);
    }
    forall t | Asked(row, t)
      ensures IsState(row.e, CellOf(row, s, t))
      ensures CellOf(row, r, t) == Merge(row.e, CellOf(row, s, t),
              ExpectedBucket(row, CutPoints(row, points), t, InputPeriods(row)))
    {
      ZerosAreState(row.e);
      Sequences.AtIsOk(s, row.q.res, t, Proper(row.e), Unset(row.e));
      CutAnswers(row, points);
      RowAddsExpected(cut, CutPoints(row, points), t, InputPeriods(row), CellOf(row, s, t));
      SameExpected(row, CutPoints(row, points), t, InputPeriods(row));
    }
    forall t | Asked(row, t) && IsFull(row, t)
      ensures ExpectedBucket(row, CutPoints(row, points), t, InputPeriods(row))
              == ExpectedBucket(row, points, t, InputPeriods(row))
    {
      AllInFull(row, t);
      FullPeriods(row, points, t, InputPeriods(row));
    }
  }

  lemma AllInFull(row: Row, t: int)
    requires WellFormed(row) && Posed(row) && Asked(row, t) && IsFull(row, t)
    ensures row.subs != [] && InputPeriods(row) == Rebucketing.After(RowJob(row, 0), t)
  {
  }

  lemma SameJobs(row: Row)
    requires |row.columns| == |row.subs| && Posed(row)
    ensures var cut := Cut(row); cut.subs == row.subs && cut.e == row.e && forall i | 0 <= i < |row.subs| ::
            RowJob(cut, i) == RowJob(row, i)
  {
  }

  lemma {:induction false} SameExpected(row: Row, points: int -> seq<Point>, t: int, n: nat)
    requires WellFormed(row) && Posed(row)
    ensures WellFormed(Cut(row)) && ExpectedBucket(Cut(row), points, t, n) == ExpectedBucket(row, points, t, n)
  {
    if n > 0 { SameExpected(row, points, t, n - 1); }
  }

  /** Periods that start at the start of the query or later get what their points come to, all of them. */
  lemma {:induction false} FullPeriods(row: Row, points: int -> seq<Point>, t: int, n: nat)
    requires WellFormed(row) && Posed(row) && row.subs != [] && Asked(row, t)
             && n <= Rebucketing.After(RowJob(row, 0), t)
    ensures ExpectedBucket(row, CutPoints(row, points), t, n) == ExpectedBucket(row, points, t, n)
  {
    hide Expected, Merge, IsState, Rebucketing.After;
    if n > 0 {
      FullPeriods(row, points, t, n - 1);
      var m := RowJob(row, 0);
      Rebucketing.AfterIs(m, t);
      Rebucketing.InBucket(m, Sequences.Seq(t, [m.zero]), 0, n - 1);
      var u := t - (n - 1) * row.c.otherRes;
      forall i | 0 <= i < Depth(row) ensures CutPoints(row, points)(u - i * row.c.otherRes)
        == points(u - i * row.c.otherRes) {
        Rebucketing.SeenTime(m, u, i);
      }
      assert History(CutPoints(row, points), u, Depth(row), row.c.otherRes)
        == History(points, u, Depth(row), row.c.otherRes);
    }
  }
}
