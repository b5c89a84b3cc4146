/**
 * Grouping stored rows with submergers, in one phase or two (core/group.go,
 * bytetree/bytetree.go, planner/cluster.go).
 *
 * A row adds to each output field what the submergers of the field make of its
 * stored cells.  In two phases, partitions group by the parameters of the GROUP
 * BY expressions, and the leader regroups the result with the fields passed
 * through: each field is submerged from the fields of the first phase.  That is
 * right exactly when it is right for every single row (`TwoPhasesAreOneIff`).
 * Fields that are among the fields, once, pass; a bounded expression passes if
 * what it bounds does, which it does not if that is no field of its own.
 */
module Regrouping {
  import opened Wrappers
  import opened Arithmetic
  import opened Accumulators
  import opened SubMergers
  import opened Columns
  import opened StoredLeaves
  import Grouping
  import OldestPeriod

  /** A row: its dimensions, and for each stored field the cells of some periods, newest first. */
  datatype Record = Record(dims: Dims, cols: seq<seq<Bytes>>)

  /** How conditions evaluate, and the length of periods. */
  datatype World = World(sem: Conditions, res: Resolution)

  predicate RowFits(subs: seq<Expr>, n: nat, row: Record): (ok: bool)
    requires AllSized(subs)
    ensures ok ==> |row.cols| == |subs|
  {
    |row.cols| == |subs| && forall i | 0 <= i < |subs| :: ColFits(subs[i], n, row.cols[i])
  }

  predicate ColFits(sub: Expr, n: nat, col: seq<Bytes>)
    requires Sized(sub)
  {
    |col| == n && forall j | 0 <= j < n :: IsState(sub, col[j])
  }

  predicate RowsFit(subs: seq<Expr>, n: nat, rows: seq<Record>)
    requires AllSized(subs)
  {
    forall k | 0 <= k < |rows| :: RowFits(subs, n, rows[k])
  }

  /** The row as seen from an earlier period. */
  function Earlier(row: Record, j: nat): (r: Record)
    requires forall i | 0 <= i < |row.cols| :: j <= |row.cols[i]|
    ensures |r.cols| == |row.cols|
  {
    Record(row.dims, seq(|row.cols|, i requires 0 <= i < |row.cols| => row.cols[i][j..]))
  }

  function Ctx(w: World, d: Dims): Context {
    Context(w.sem, w.res, Some(d))
  }

  /** What a row adds to an expression. */
  function Adds(w: World, e: Expr, subs: seq<Expr>, row: Record): (r: Bytes)
    requires |row.cols| == |subs|
    ensures |r| == EncodedWidth(e)
  {
    ApplyAll(Ctx(w, row.dims), SubMergersOf(e, subs), Unset(e), row.cols)
  }

  // ---------------------------------------------------------------- submergers and states

  /** Expressions that print alike have the same states, and merge them alike. */
  lemma {:induction false} AlikeStates(a: Expr, b: Expr, x: Bytes, y: Bytes)
    requires Matches(a, b) && Sized(a) && Sized(b)
    ensures EncodedWidth(a) == EncodedWidth(b) && IsState(a, x) == IsState(b, x)
    ensures IsState(a, x) && IsState(a, y) ==> Merge(a, x, y) == Merge(b, x, y)
  {
    MatchingWidths(a, b);
    match a
    case Bounded(w, _, _) =>
      AlikeStates(w, b.wrapped, x, y);
      if IsState(a, x) && IsState(a, y) {
        MergeWraps(a, x, y);
        MergeWraps(b, x, y);
      }
    case Binary(_, l, r) =>
      var n := EncodedWidth(l);
      MatchingWidths(l, b.left);
      if |x| == EncodedWidth(a) && |y| == EncodedWidth(a) {
        AlikeStates(l, b.left, x[..n], y[..n]);
        AlikeStates(r, b.right, x[n..], y[n..]);
        if IsState(a, x) && IsState(a, y) {
          MergeSplits(a, x, y);
          MergeSplits(b, x, y);
          SplitEquality(Merge(a, x, y), Merge(b, x, y), n);
        }
      } else if |x| == EncodedWidth(a) {
        AlikeStates(l, b.left, x[..n], x[..n]);
        AlikeStates(r, b.right, x[n..], x[n..]);
      }
    case If(_, w) =>
      AlikeStates(w, b.wrapped, x, y);
      if IsState(a, x) && IsState(a, y) {
        MergeWraps(a, x, y);
        MergeWraps(b, x, y);
      }
    case Shift(w, _) =>
      AlikeStates(w, b.wrapped, x, y);
      if IsState(a, x) && IsState(a, y) {
        MergeWraps(a, x, y);
        MergeWraps(b, x, y);
      }
    case _ =>
  }

  /** What the submergers of an expression merge whole prints like the stored expression. */
  predicate MergesAlike(sm: SubMerge, sub: Expr) {
    match sm
    case NoMerge => true
    case Whole(e) => Sized(e) && Matches(e, sub)
    case Combined(left, _, right) => MergesAlike(left, sub) && MergesAlike(right, sub)
    case Conditional(_, w) => MergesAlike(w, sub)
    case Shifted(_, w) => MergesAlike(w, sub)
  }

  lemma {:induction false} SubMergersAlike(e: Expr, subs: seq<Expr>, i: nat)
    requires Sized(e) && i < |subs|
    ensures MergesAlike(SubMergersOf(e, subs)[i], subs[i])
  {
    match e
    case Bounded(w, _, _) => SubMergersAlike(w, subs, i);
    case Binary(_, l, r) => SubMergersAlike(l, subs, i); SubMergersAlike(r, subs, i);
    case If(_, w) => SubMergersAlike(w, subs, i);
    case Shift(w, _) => SubMergersAlike(w, subs, i);
    case _ =>
  }

  lemma {:induction false} AlikeFeeds(sm: SubMerge, sub: Expr, col: seq<Bytes>)
    requires MergesAlike(sm, sub) && Sized(sub) && forall j | 0 <= j < |col| :: IsState(sub, col[j])
    ensures Feeds(sm, col)
  {
    match sm
    case Whole(e) => forall b | b in col ensures IsState(e, b) { AlikeStates(e, sub, b, b); }
    case Combined(left, _, right) => AlikeFeeds(left, sub, col); AlikeFeeds(right, sub, col);
    case Conditional(_, w) => AlikeFeeds(w, sub, col);
    case Shifted(_, w) => AlikeFeeds(w, sub, col);
    case _ =>
  }

  /** Submergers made for an expression and stored ones, with columns of these. */
  predicate Fed(e: Expr, sms: seq<SubMerge>, subs: seq<Expr>, n: nat, cols: seq<seq<Bytes>>) {
    |sms| == |subs| == |cols| && forall i | 0 <= i < |sms| :: FedAt(e, sms[i], subs[i], n, cols[i])
  }

  predicate FedAt(e: Expr, sm: SubMerge, sub: Expr, n: nat, col: seq<Bytes>) {
    Sized(sub) && Fits(sm, e, EncodedWidth(sub)) && MergesAlike(sm, sub) && ColFits(sub, n, col)
  }

  lemma RowIsFed(e: Expr, subs: seq<Expr>, n: nat, row: Record)
    requires Sized(e) && AllSized(subs) && RowFits(subs, n, row)
    ensures Fed(e, SubMergersOf(e, subs), subs, n, row.cols)
  {
    hide IsState, SubMergersOf, Fits, MergesAlike, Sized;
    forall i | 0 <= i < |subs| ensures FedAt(e, SubMergersOf(e, subs)[i], subs[i], n, row.cols[i]) {
      assert subs[i] in subs;
      SubMergersFit(e, subs, i);
      SubMergersAlike(e, subs, i);
    }
  }

  lemma FedAdds(c: Context, e: Expr, sm: SubMerge, sub: Expr, n: nat, col: seq<Bytes>, x: Bytes)
    requires Sized(e) && FedAt(e, sm, sub, n, col) && IsState(e, x)
    ensures IsState(e, Apply(c, sm, x, col)) && IsState(e, Addition(c, sm, e, col))
    ensures Apply(c, sm, x, col) == Merge(e, x, Addition(c, sm, e, col))
  {
    AlikeFeeds(sm, sub, col);
    ApplyIsAddition(c, sm, e, EncodedWidth(sub), x, col);
  }

  /** Submerging a row into a state adds the same as into an unset one. */
  lemma {:induction false} AllAdd(c: Context, e: Expr, sms: seq<SubMerge>, subs: seq<Expr>, n: nat,
                                  cols: seq<seq<Bytes>>, x: Bytes)
    requires Sized(e) && Fed(e, sms, subs, n, cols) && IsState(e, x)
    ensures IsState(e, ApplyAll(c, sms, Unset(e), cols))
    ensures ApplyAll(c, sms, x, cols) == Merge(e, x, ApplyAll(c, sms, Unset(e), cols))
  {
    hide Apply, IsState, Merge, FedAt, Sized;
    ZerosAreState(e);
    MergeIdentity(e, x);
    if sms != [] {
      var add, rest := Addition(c, sms[0], e, cols[0]), ApplyAll(c, sms[1..], Unset(e), cols[1..]);
      assert FedAt(e, sms[0], subs[0], n, cols[0]);
      FedAdds(c, e, sms[0], subs[0], n, cols[0], x);
      FedAdds(c, e, sms[0], subs[0], n, cols[0], Unset(e));
      AllAdd(c, e, sms[1..], subs[1..], n, cols[1..], Apply(c, sms[0], x, cols[0]));
      AllAdd(c, e, sms[1..], subs[1..], n, cols[1..], add);
      MergeAssociates(e, x, add, rest);
      MergeInPlace(e, add, rest);
    }
  }

  lemma AddsMerges(w: World, e: Expr, subs: seq<Expr>, n: nat, row: Record, x: Bytes)
    requires Sized(e) && AllSized(subs) && RowFits(subs, n, row) && IsState(e, x)
    ensures IsState(e, Adds(w, e, subs, row))
    ensures ApplyAll(Ctx(w, row.dims), SubMergersOf(e, subs), x, row.cols) == Merge(e, x, Adds(w, e, subs, row))
  {
    hide IsState, Merge, Fed, ApplyAll, SubMergersOf;
    RowIsFed(e, subs, n, row);
    AllAdd(Ctx(w, row.dims), e, SubMergersOf(e, subs), subs, n, row.cols, x);
  }

  // ---------------------------------------------------------------- rows merged cell by cell

  function MergeCols(sub: Expr, a: seq<Bytes>, b: seq<Bytes>): (r: seq<Bytes>)
    requires Sized(sub) && |a| == |b| && ColFits(sub, |a|, a) && ColFits(sub, |b|, b)
    ensures |r| == |a|
  {
    seq(|a|, j requires 0 <= j < |a| => Merge(sub, a[j], b[j]))
  }

  lemma MergeColsFit(sub: Expr, a: seq<Bytes>, b: seq<Bytes>)
    requires Sized(sub) && |a| == |b| && ColFits(sub, |a|, a) && ColFits(sub, |b|, b)
    ensures ColFits(sub, |a|, MergeCols(sub, a, b))
  {
    hide IsState, Merge;
    forall j | 0 <= j < |a| ensures IsState(sub, MergeCols(sub, a, b)[j]) { MergeInPlace(sub, a[j], b[j]); }
  }

  /** Submerging merged cells is merging what is submerged. */
  lemma {:induction false} ApplyMerged(c: Context, e: Expr, sm: SubMerge, sub: Expr, a: seq<Bytes>, b: seq<Bytes>)
    requires Sized(e) && |a| == |b| && FedAt(e, sm, sub, |a|, a) && FedAt(e, sm, sub, |b|, b)
    ensures IsState(e, Addition(c, sm, e, a)) && IsState(e, Addition(c, sm, e, b))
    ensures Addition(c, sm, e, MergeCols(sub, a, b)) == Merge(e, Addition(c, sm, e, a), Addition(c, sm, e, b))
    decreases e, sm, 1
  {
    hide Merge, IsState;
    ZerosAreState(e);
    MergeIdentity(e, Unset(e));
    FedAdds(c, e, sm, sub, |a|, a, Unset(e));
    FedAdds(c, e, sm, sub, |b|, b, Unset(e));
    if sm.NoMerge? {
    } else if e.Bounded? {
      ApplyMerged(c, e.wrapped, sm, sub, a, b);
      MergeWraps(e, Addition(c, sm, e, a), Addition(c, sm, e, b));
    } else {
      match sm
      case Whole(_) => MergedWhole(c, e, sub, a, b);
      case Combined(_, _, _) => MergedCombined(c, e, sm, sub, a, b);
      case Conditional(cond, w) =>
        MergeWraps(e, Addition(c, sm, e, a), Addition(c, sm, e, b));
        if Include(c.sem, cond, c.metadata) { ApplyMerged(c, e.wrapped, w, sub, a, b); }
      case Shifted(_, _) => MergedShifted(c, e, sm, sub, a, b);
    }
  }

  lemma {:induction false} MergedShifted(c: Context, e: Expr, sm: SubMerge, sub: Expr, a: seq<Bytes>, b: seq<Bytes>)
    requires Sized(e) && !e.Bounded? && sm.Shifted? && |a| == |b| && FedAt(e, sm, sub, |a|, a)
             && FedAt(e, sm, sub, |b|, b)
    requires Merge(e, Unset(e), Unset(e)) == Unset(e)
    ensures Addition(c, sm, e, MergeCols(sub, a, b)) == Merge(e, Addition(c, sm, e, a), Addition(c, sm, e, b))
    decreases e, sm, 0
  {
    hide Merge, IsState;
    MergeWraps(e, Addition(c, sm, e, a), Addition(c, sm, e, b));
    var k := -Quot(sm.offset, c.otherRes);
    if 0 <= k < |a| {
      assert MergeCols(sub, a, b)[k..] == MergeCols(sub, a[k..], b[k..]);
      ApplyMerged(c, e.wrapped, sm.wrapped, sub, a[k..], b[k..]);
    }
  }

  lemma MergedWhole(c: Context, e: Expr, sub: Expr, a: seq<Bytes>, b: seq<Bytes>)
    requires Sized(e) && !e.Bounded? && |a| == |b| && FedAt(e, Whole(e), sub, |a|, a) && FedAt(e, Whole(e), sub, |b|, b)
    ensures Addition(c, Whole(e), e, MergeCols(sub, a, b))
            == Merge(e, Addition(c, Whole(e), e, a), Addition(c, Whole(e), e, b))
  {
    hide Merge, MergeInto, IsState;
    ZerosAreState(e);
    MergeIdentity(e, Unset(e));
    if a != [] {
      AlikeStates(e, sub, a[0], b[0]);
      AlikeStates(e, sub, b[0], a[0]);
      var ab := Merge(e, a[0], b[0]);
      MergeInPlace(e, a[0], b[0]);
      MergeInPlace(e, Unset(e), a[0]);
      MergeInPlace(e, Unset(e), b[0]);
      MergeInPlace(e, Unset(e), ab);
      MergeIdentity(e, a[0]);
      MergeIdentity(e, b[0]);
      MergeIdentity(e, ab);
    }
  }

  lemma {:induction false} MergedCombined(c: Context, e: Expr, sm: SubMerge, sub: Expr, a: seq<Bytes>, b: seq<Bytes>)
    requires Sized(e) && !e.Bounded? && sm.Combined? && |a| == |b| && FedAt(e, sm, sub, |a|, a)
             && FedAt(e, sm, sub, |b|, b)
    requires IsState(e, Addition(c, sm, e, a)) && IsState(e, Addition(c, sm, e, b))
    ensures Addition(c, sm, e, MergeCols(sub, a, b)) == Merge(e, Addition(c, sm, e, a), Addition(c, sm, e, b))
    decreases e, sm, 0
  {
    hide Merge, IsState, MergeCols, ColFits;
    var n := EncodedWidth(e.left);
    ZerosSplit(n, EncodedWidth(e.right));
    ApplyMerged(c, e.left, sm.left, sub, a, b);
    ApplyMerged(c, e.right, sm.right, sub, a, b);
    var x, y, z := Addition(c, sm, e, a), Addition(c, sm, e, b), Addition(c, sm, e, MergeCols(sub, a, b));
    assert x[..n] == Addition(c, sm.left, e.left, a) && x[n..] == Addition(c, sm.right, e.right, a);
    assert y[..n] == Addition(c, sm.left, e.left, b) && y[n..] == Addition(c, sm.right, e.right, b);
    MergeSplits(e, x, y);
    SplitEquality(z, Merge(e, x, y), n);
  }

  predicate ColsFit(subs: seq<Expr>, n: nat, cols: seq<seq<Bytes>>) {
    |cols| == |subs| && forall i | 0 <= i < |subs| :: Sized(subs[i]) && ColFits(subs[i], n, cols[i])
  }

  function MergeAllCols(subs: seq<Expr>, n: nat, a: seq<seq<Bytes>>, b: seq<seq<Bytes>>): (r: seq<seq<Bytes>>)
    requires ColsFit(subs, n, a) && ColsFit(subs, n, b)
    ensures |r| == |subs|
  {
    seq(|subs|, i requires 0 <= i < |subs| => MergeCols(subs[i], a[i], b[i]))
  }

  lemma {:induction false} AllMerged(c: Context, e: Expr, sms: seq<SubMerge>, subs: seq<Expr>, n: nat,
                                     a: seq<seq<Bytes>>, b: seq<seq<Bytes>>)
    requires Sized(e) && ColsFit(subs, n, a) && ColsFit(subs, n, b) && Fed(e, sms, subs, n, a)
             && Fed(e, sms, subs, n, b)
    ensures IsState(e, ApplyAll(c, sms, Unset(e), a)) && IsState(e, ApplyAll(c, sms, Unset(e), b))
    ensures ApplyAll(c, sms, Unset(e), MergeAllCols(subs, n, a, b))
            == Merge(e, ApplyAll(c, sms, Unset(e), a), ApplyAll(c, sms, Unset(e), b))
  {
    hide Apply, IsState, Merge, FedAt, Sized, MergeCols, ColFits;
    ZerosAreState(e);
    MergeIdentity(e, Unset(e));
    AllAdd(c, e, sms, subs, n, a, Unset(e));
    AllAdd(c, e, sms, subs, n, b, Unset(e));
    if sms != [] {
      var rest := subs[1..];
      assert MergeAllCols(subs, n, a, b)[1..] == MergeAllCols(rest, n, a[1..], b[1..]);
      AllMerged(c, e, sms[1..], rest, n, a[1..], b[1..]);
      MergedStep(c, e, sms, subs, n, a, b);
    }
  }

  lemma MergedStep(c: Context, e: Expr, sms: seq<SubMerge>, subs: seq<Expr>, n: nat,
                   a: seq<seq<Bytes>>, b: seq<seq<Bytes>>)
    requires Sized(e) && ColsFit(subs, n, a) && ColsFit(subs, n, b) && Fed(e, sms, subs, n, a)
             && Fed(e, sms, subs, n, b) && sms != []
    requires ColsFit(subs[1..], n, a[1..]) && ColsFit(subs[1..], n, b[1..])
    requires var ra, rb := ApplyAll(c, sms[1..], Unset(e), a[1..]), ApplyAll(c, sms[1..], Unset(e), b[1..]);
             && IsState(e, ra) && IsState(e, rb)
             && ApplyAll(c, sms[1..], Unset(e), MergeAllCols(subs[1..], n, a[1..], b[1..])) == Merge(e, ra, rb)
    ensures ApplyAll(c, sms[1..], Addition(c, sms[0], e, MergeCols(subs[0], a[0], b[0])),
            MergeAllCols(subs[1..], n, a[1..], b[1..]))
            == Merge(e, ApplyAll(c, sms, Unset(e), a), ApplyAll(c, sms, Unset(e), b))
  {
    hide Apply, IsState, Merge, Sized, MergeCols, FedAt;
    var rest, tail := subs[1..], MergeAllCols(subs[1..], n, a[1..], b[1..]);
    var xa, xb := Addition(c, sms[0], e, a[0]), Addition(c, sms[0], e, b[0]);
    var ra, rb := ApplyAll(c, sms[1..], Unset(e), a[1..]), ApplyAll(c, sms[1..], Unset(e), b[1..]);
    assert FedAt(e, sms[0], subs[0], n, a[0]) && FedAt(e, sms[0], subs[0], n, b[0]) && |a[0]| == |b[0]| == n;
    ApplyMerged(c, e, sms[0], subs[0], a[0], b[0]);
    MergeInPlace(e, xa, xb);
    TailFed(e, sms, subs, n, a, b);
    AllAdd(c, e, sms[1..], rest, n, tail, Merge(e, xa, xb));
    AllAdd(c, e, sms[1..], rest, n, a[1..], xa);
    AllAdd(c, e, sms[1..], rest, n, b[1..], xb);
    StoredLeaves.Swap(e, xa, xb, ra, rb);
  }

  lemma TailFed(e: Expr, sms: seq<SubMerge>, subs: seq<Expr>, n: nat, a: seq<seq<Bytes>>, b: seq<seq<Bytes>>)
    requires ColsFit(subs, n, a) && ColsFit(subs, n, b) && Fed(e, sms, subs, n, a) && sms != []
    requires ColsFit(subs[1..], n, a[1..]) && ColsFit(subs[1..], n, b[1..])
    ensures Fed(e, sms[1..], subs[1..], n, MergeAllCols(subs[1..], n, a[1..], b[1..]))
    ensures Fed(e, sms[1..], subs[1..], n, a[1..])
  {
    hide IsState, Sized, MergeCols, ColFits, Fits, MergesAlike;
    var tail := MergeAllCols(subs[1..], n, a[1..], b[1..]);
    forall i | 0 <= i < |subs[1..]| ensures FedAt(e, sms[1..][i], subs[1..][i], n, tail[i]) {
      assert FedAt(e, sms[i + 1], subs[i + 1], n, a[i + 1]);
      MergedFit(subs[i + 1], n, a[i + 1], b[i + 1]);
    }
  }

  lemma MergedFit(sub: Expr, n: nat, a: seq<Bytes>, b: seq<Bytes>)
    requires Sized(sub) && ColFits(sub, n, a) && ColFits(sub, n, b)
    ensures |a| == |b| == n && ColFits(sub, n, MergeCols(sub, a, b))
  {
    hide IsState;
    MergeColsFit(sub, a, b);
  }

  // ---------------------------------------------------------------- grouping

  predicate Ready(fields: seq<Expr>, subs: seq<Expr>) {
    Grouping.FieldsOk(fields) && AllSized(fields) && AllSized(subs)
  }

  /** What a row adds to all fields. */
  function Contribution(w: World, fields: seq<Expr>, subs: seq<Expr>, row: Record): (p: Grouping.Part)
    requires |row.cols| == |subs|
    ensures |p.cells| == |fields| && p.dims == row.dims
  {
    Grouping.Part(row.dims, seq(|fields|, i requires 0 <= i < |fields| => Adds(w, fields[i], subs, row)))
  }

  function Contributions(w: World, fields: seq<Expr>, subs: seq<Expr>, rows: seq<Record>): (r: seq<Grouping.Part>)
    requires forall k | 0 <= k < |rows| :: |rows[k].cols| == |subs|
    ensures |r| == |rows| && forall k | 0 <= k < |rows| :: r[k] == Contribution(w, fields, subs, rows[k])
  {
    seq(|rows|, k requires 0 <= k < |rows| => Contribution(w, fields, subs, rows[k]))
  }

  lemma ContributionFits(w: World, fields: seq<Expr>, subs: seq<Expr>, n: nat, row: Record)
    requires Ready(fields, subs) && RowFits(subs, n, row)
    ensures Grouping.Fits(fields, Contribution(w, fields, subs, row))
  {
    hide IsState, Adds;
    forall i | 0 <= i < |fields| ensures IsState(fields[i], Contribution(w, fields, subs, row).cells[i]) {
      ZerosAreState(fields[i]);
      AddsMerges(w, fields[i], subs, n, row, Unset(fields[i]));
    }
  }

  lemma ContributionsFit(w: World, fields: seq<Expr>, subs: seq<Expr>, n: nat, rows: seq<Record>)
    requires Ready(fields, subs) && RowsFit(subs, n, rows)
    ensures Grouping.AllFit(fields, Contributions(w, fields, subs, rows))
  {
    hide Contribution, Grouping.Fits, ColFits;
    forall k | 0 <= k < |rows| ensures Grouping.Fits(fields, Contributions(w, fields, subs, rows)[k]) {
      ContributionFits(w, fields, subs, n, rows[k]);
    }
  }

  predicate AreStates(fields: seq<Expr>, cells: seq<Bytes>)
    requires AllSized(fields)
  {
    |cells| == |fields| && forall i | 0 <= i < |fields| :: IsState(fields[i], cells[i])
  }

  lemma TreeStates(fields: seq<Expr>, gbs: seq<Grouping.GroupBy>, parts: seq<Grouping.Part>,
                   tree: map<Dims, seq<Bytes>>, key: Dims)
    requires Grouping.FieldsOk(fields) && AllSized(fields) && Grouping.AllFit(fields, parts)
             && Grouping.IsGrouping(fields, gbs, parts, tree) && key in tree
    ensures AreStates(fields, tree[key])
  {
    hide IsState, Grouping.SliceKey, Grouping.Total;
    Grouping.TreeFits(fields, gbs, parts, tree, key);
  }

  /** group.Iterate: submerges each row into its group in the tree. */
  method GroupRows(w: World, fields: seq<Expr>, subs: seq<Expr>, gbs: seq<Grouping.GroupBy>, n: nat, rows: seq<Record>)
    returns (tree: map<Dims, seq<Bytes>>)
    requires Ready(fields, subs) && RowsFit(subs, n, rows)
    ensures Grouping.AllFit(fields, Contributions(w, fields, subs, rows))
    ensures Grouping.IsGrouping(fields, gbs, Contributions(w, fields, subs, rows), tree)
  {
    hide Merge, IsState, Grouping.Total, Grouping.SliceKey, Grouping.Fits, Contribution, ColFits, AreStates;
    ghost var parts := Contributions(w, fields, subs, rows);
    ContributionsFit(w, fields, subs, n, rows);
    tree := map[];
    for k := 0 to |rows|
      invariant Grouping.AllFit(fields, parts[..k]) && Grouping.IsGrouping(fields, gbs, parts[..k], tree)
    {
      var row := rows[k];
      var key := Grouping.SliceRow(gbs, Grouping.NoCrosstab, row.dims);
      if key in tree { TreeStates(fields, gbs, parts[..k], tree, key); }
      var cells := AddRow(w, fields, subs, n, if key in tree then tree[key] else [], key in tree, row);
      Grouping.GroupNext(fields, gbs, parts, k, tree, key, cells);
      tree := tree[key := cells];
    }
    assert parts[..|rows|] == parts;
  }

  /** node.doUpdate: runs the submergers of all fields on a row, from the states of its group or from unset ones. */
  method AddRow(w: World, fields: seq<Expr>, subs: seq<Expr>, n: nat, was: seq<Bytes>, found: bool, row: Record)
    returns (cells: seq<Bytes>)
    requires Ready(fields, subs) && RowFits(subs, n, row) && (found ==> AreStates(fields, was))
    ensures |cells| == |fields| && Grouping.Fits(fields, Contribution(w, fields, subs, row))
            && (found ==> |was| == |fields|)
    ensures forall i | 0 <= i < |fields| ::
              Grouping.Added(fields[i], if found then was[i]
                else Unset(fields[i]), Contribution(w, fields, subs, row).cells[i], cells[i])
  {
    hide IsState, Merge, SubMergersOf, ApplyAll, ColFits;
    ContributionFits(w, fields, subs, n, row);
    cells := [];
    for i := 0 to |fields|
      invariant |cells| == i
      invariant forall k | 0 <= k < i ::
        Grouping.Added(fields[k], if found then was[k]
          else Unset(fields[k]), Contribution(w, fields, subs, row).cells[k], cells[k])
    {
      var x := if found then was[i] else Unset(fields[i]);
      ZerosAreState(fields[i]);
      AddsMerges(w, fields[i], subs, n, row, x);
      cells := cells + [ApplyAll(Ctx(w, row.dims), SubMergersOf(fields[i], subs), x, row.cols)];
    }
  }

  // ---------------------------------------------------------------- the first phase

  lemma EarlierFits(subs: seq<Expr>, n: nat, row: Record, j: nat)
    requires AllSized(subs) && RowFits(subs, n, row) && j <= n
    ensures RowFits(subs, n - j, Earlier(row, j))
  {
    hide IsState;
  }

  function EarlierRows(rows: seq<Record>, subs: seq<Expr>, n: nat, j: nat): (r: seq<Record>)
    requires AllSized(subs) && RowsFit(subs, n, rows) && j <= n
    ensures |r| == |rows| && RowsFit(subs, n - j, r)
  {
    assert forall k | 0 <= k < |rows| :: RowFits(subs, n, rows[k]);
    var r := seq(|rows|, k requires 0 <= k < |rows| => Earlier(rows[k], j));
    assert RowsFit(subs, n - j, r) by {
      forall k | 0 <= k < |rows| ensures RowFits(subs, n - j, r[k]) { EarlierFits(subs, n, rows[k], j); }
    }
    r
  }

  /** What a partition sends for a key: for each field and period, the total of its rows with that inner key. */
  ghost function SentCell(w: World, fields: seq<Expr>, subs: seq<Expr>, gbs: seq<Grouping.GroupBy>, n: nat,
                          rows: seq<Record>, key: Dims, i: nat, j: nat): (b: Bytes)
    requires Ready(fields, subs) && RowsFit(subs, n, rows) && i < |fields| && j <= n
    ensures IsState(fields[i], b)
  {
    ContributionsFit(w, fields, subs, n - j, EarlierRows(rows, subs, n, j));
    Grouping.Total(fields, i, Contributions(w, fields, subs, EarlierRows(rows, subs, n, j)),
      Grouping.Restricting(gbs, key))
  }

  ghost function SentRow(w: World, fields: seq<Expr>, subs: seq<Expr>, gbs: seq<Grouping.GroupBy>, n: nat,
                         rows: seq<Record>, key: Dims): (r: Record)
    requires Ready(fields, subs) && RowsFit(subs, n, rows)
    ensures r.dims == key && RowFits(fields, n, r)
  {
    Record(key, seq(|fields|, i requires 0 <= i < |fields| =>
      seq(n, j requires 0 <= j < n => SentCell(w, fields, subs, gbs, n, rows, key, i, j))))
  }

  /** What a partition sends on: one row for each inner key, in some order. */
  ghost predicate IsSent(w: World, fields: seq<Expr>, subs: seq<Expr>, gbs: seq<Grouping.GroupBy>, n: nat,
                         rows: seq<Record>, out: seq<Record>)
    requires Ready(fields, subs) && RowsFit(subs, n, rows)
  {
    && (forall j, k | 0 <= j < k < |out| :: out[j].dims != out[k].dims)
    && (forall k | 0 <= k < |rows| :: exists j :: 0 <= j < |out| && out[j].dims == Grouping.InnerKey(gbs, rows[k].dims))
    && (forall j | 0 <= j < |out| :: exists k :: 0 <= k < |rows| && Grouping.InnerKey(gbs, rows[k].dims) == out[j].dims)
    && (forall j | 0 <= j < |out| :: out[j] == SentRow(w, fields, subs, gbs, n, rows, out[j].dims))
  }

  /** What a partition sends for a single row. */
  function OneSent(w: World, fields: seq<Expr>, subs: seq<Expr>, gbs: seq<Grouping.GroupBy>, n: nat,
                   row: Record): (r: Record)
    requires AllSized(subs) && RowFits(subs, n, row)
    ensures |r.cols| == |fields| && r.dims == Grouping.InnerKey(gbs, row.dims)
  {
    Record(Grouping.InnerKey(gbs, row.dims), seq(|fields|, i requires 0 <= i < |fields| =>
      seq(n, j requires 0 <= j < n => Adds(w, fields[i], subs, Earlier(row, j)))))
  }

  lemma OneSentFits(w: World, fields: seq<Expr>, subs: seq<Expr>, gbs: seq<Grouping.GroupBy>, n: nat, row: Record)
    requires Ready(fields, subs) && RowFits(subs, n, row)
    ensures RowFits(fields, n, OneSent(w, fields, subs, gbs, n, row))
  {
    hide IsState, Adds, Earlier;
    forall i, j: nat | 0 <= i < |fields| && j < n
      ensures IsState(fields[i], OneSent(w, fields, subs, gbs, n, row).cols[i][j])
    {
      EarlierFits(subs, n, row, j);
      ZerosAreState(fields[i]);
      AddsMerges(w, fields[i], subs, n - j, Earlier(row, j), Unset(fields[i]));
    }
  }

  /** One more row adds its cells to those sent for its key. */
  lemma SentNext(w: World, fields: seq<Expr>, subs: seq<Expr>, gbs: seq<Grouping.GroupBy>, n: nat,
                 rows: seq<Record>, key: Dims, i: nat, j: nat)
    requires Ready(fields, subs) && RowsFit(subs, n, rows) && rows != [] && i < |fields| && j <= n
    ensures var m := |rows| - 1;
            && RowsFit(subs, n, rows[..m]) && RowFits(subs, n, rows[m])
            && var before, cell := SentCell(w, fields, subs, gbs, n, rows[..m], key, i, j),
               Adds(w, fields[i], subs, Earlier(rows[m], j));
            && IsState(fields[i], cell)
            && SentCell(w, fields, subs, gbs, n, rows, key, i, j)
               == if Grouping.InnerKey(gbs, rows[m].dims) == key then Merge(fields[i], before, cell) else before
  {
    hide IsState, Merge, Adds, Grouping.Total, Grouping.InnerKey, Grouping.Fits;
    var m := |rows| - 1;
    assert RowFits(subs, n, rows[m]);
    var all := Contributions(w, fields, subs, EarlierRows(rows, subs, n, j));
    assert EarlierRows(rows, subs, n, j)[m] == Earlier(rows[m], j);
    ContributionsFit(w, fields, subs, n - j, EarlierRows(rows, subs, n, j));
    ContributionsFit(w, fields, subs, n - j, EarlierRows(rows[..m], subs, n, j));
    assert all[..m] == Contributions(w, fields, subs, EarlierRows(rows[..m], subs, n, j));
    Grouping.TotalLast(fields, i, all, Grouping.Restricting(gbs, key));
    Grouping.CellIsState(fields, i, all[m]);
  }

  lemma NothingSent(w: World, fields: seq<Expr>, subs: seq<Expr>, gbs: seq<Grouping.GroupBy>, n: nat, key: Dims,
                    i: nat, j: nat)
    requires Ready(fields, subs) && i < |fields| && j <= n
    ensures SentCell(w, fields, subs, gbs, n, [], key, i, j) == Unset(fields[i])
  {
    var none := EarlierRows([], subs, n, j);
    assert Contributions(w, fields, subs, none) == [];
    Grouping.NothingTotal(fields, i, Grouping.Restricting(gbs, key));
  }

  // ---------------------------------------------------------------- the second phase

  predicate UnsetCols(subs: seq<Expr>, cols: seq<seq<Bytes>>) {
    |cols| == |subs| && forall i, j | 0 <= i < |subs| && 0 <= j < |cols[i]| :: cols[i][j] == Unset(subs[i])
  }

  /** A row without anything set adds nothing. */
  lemma {:induction false} UnsetAdds(c: Context, e: Expr, sms: seq<SubMerge>, subs: seq<Expr>, n: nat,
                                     cols: seq<seq<Bytes>>)
    requires Sized(e) && Fed(e, sms, subs, n, cols) && UnsetCols(subs, cols)
    ensures ApplyAll(c, sms, Unset(e), cols) == Unset(e)
  {
    hide Apply, IsState, Fits, MergesAlike, ColFits, Sized;
    if sms != [] {
      ZerosAreState(e);
      assert FedAt(e, sms[0], subs[0], n, cols[0]);
      OldestPeriod.ReadsUnset(c, sms[0], e, EncodedWidth(subs[0]), Unset(e), cols[0]);
      UnsetAdds(c, e, sms[1..], subs[1..], n, cols[1..]);
    }
  }

  /** What two rows with the same dimensions add together is what their merged cells add. */
  lemma AddsOfMerged(w: World, e: Expr, subs: seq<Expr>, n: nat, a: Record, b: Record)
    requires Sized(e) && AllSized(subs) && RowFits(subs, n, a) && RowFits(subs, n, b) && a.dims == b.dims
    requires ColsFit(subs, n, a.cols) && ColsFit(subs, n, b.cols)
    ensures IsState(e, Adds(w, e, subs, a)) && IsState(e, Adds(w, e, subs, b))
    ensures Adds(w, e, subs, Record(a.dims, MergeAllCols(subs, n, a.cols, b.cols)))
            == Merge(e, Adds(w, e, subs, a), Adds(w, e, subs, b))
  {
    hide IsState, Merge, SubMergersOf, ApplyAll, RowFits, ColsFit, Fed, MergeAllCols;
    RowIsFed(e, subs, n, a);
    RowIsFed(e, subs, n, b);
    AllMerged(Ctx(w, a.dims), e, SubMergersOf(e, subs), subs, n, a.cols, b.cols);
  }

  /** A row of the first phase is submerged into its own field as it is, if it comes from a single row. */
  ghost predicate Passes(w: World, fields: seq<Expr>, subs: seq<Expr>, gbs: seq<Grouping.GroupBy>, n: nat, i: nat)
    requires Ready(fields, subs) && i < |fields|
  {
    forall row | RowFits(subs, n, row) :: PassesRow(w, fields, subs, gbs, n, i, row)
  }

  predicate PassesRow(w: World, fields: seq<Expr>, subs: seq<Expr>, gbs: seq<Grouping.GroupBy>, n: nat, i: nat,
                      row: Record)
    requires AllSized(subs) && RowFits(subs, n, row) && i < |fields|
  {
    Adds(w, fields[i], fields, OneSent(w, fields, subs, gbs, n, row)) == Adds(w, fields[i], subs, row)
  }

  lemma FieldsFit(fields: seq<Expr>, n: nat, row: Record)
    requires AllSized(fields) && RowFits(fields, n, row)
    ensures ColsFit(fields, n, row.cols)
  {
    hide IsState;
  }

  /** What is sent for a key after one more row of it: the cells sent before, merged with those of the row. */
  lemma SentMerges(w: World, fields: seq<Expr>, subs: seq<Expr>, gbs: seq<Grouping.GroupBy>, n: nat,
                   rows: seq<Record>, key: Dims)
    requires Ready(fields, subs) && RowsFit(subs, n, rows) && rows != []
             && Grouping.InnerKey(gbs, rows[|rows| - 1].dims) == key
    ensures var m := |rows| - 1;
            && RowsFit(subs, n, rows[..m]) && RowFits(subs, n, rows[m])
            && var a, b := SentRow(w, fields, subs, gbs, n, rows[..m], key), OneSent(w, fields, subs, gbs, n, rows[m]);
            && ColsFit(fields, n, a.cols) && ColsFit(fields, n, b.cols)
            && SentRow(w, fields, subs, gbs, n, rows, key) == Record(key, MergeAllCols(fields, n, a.cols, b.cols))
  {
    hide IsState, Merge, Adds, Grouping.InnerKey, SentCell, ColFits, Earlier;
    var m := |rows| - 1;
    assert RowFits(subs, n, rows[m]);
    OneSentFits(w, fields, subs, gbs, n, rows[m]);
    var a, b, now := SentRow(w, fields, subs, gbs, n, rows[..m], key), OneSent(w, fields, subs, gbs, n, rows[m]),
      SentRow(w, fields, subs, gbs, n, rows, key);
    FieldsFit(fields, n, a);
    FieldsFit(fields, n, b);
    var merged := MergeAllCols(fields, n, a.cols, b.cols);
    forall i | 0 <= i < |fields| ensures now.cols[i] == merged[i] {
      forall j | 0 <= j < n
        ensures now.cols[i][j] == merged[i][j]
      {
        SentNext(w, fields, subs, gbs, n, rows, key, i, j);
      }
    }
    assert now.cols == merged;
  }

  /** A field that passes for single rows passes for all that a partition sends. */
  lemma {:induction false} SentPasses(w: World, fields: seq<Expr>, subs: seq<Expr>, gbs: seq<Grouping.GroupBy>, n: nat,
                                      rows: seq<Record>, key: Dims, i: nat)
    requires Ready(fields, subs) && RowsFit(subs, n, rows) && i < |fields| && Passes(w, fields, subs, gbs, n, i)
    ensures Adds(w, fields[i], fields, SentRow(w, fields, subs, gbs, n, rows, key))
            == SentCell(w, fields, subs, gbs, n, rows, key, i, 0)
    decreases |rows|
  {
    hide IsState, Merge, Adds, Grouping.InnerKey, SentCell, SentRow, OneSent, RowFits, ColsFit, Earlier;
    if rows == [] {
      NothingPasses(w, fields, subs, gbs, n, key, i);
    } else {
      var m := |rows| - 1;
      SentNext(w, fields, subs, gbs, n, rows, key, i, 0);
      SentPasses(w, fields, subs, gbs, n, rows[..m], key, i);
      NowIsEarlier(subs, n, rows[m]);
      if Grouping.InnerKey(gbs, rows[m].dims) == key {
        SentMerges(w, fields, subs, gbs, n, rows, key);
        OneSentFits(w, fields, subs, gbs, n, rows[m]);
        var a, b := SentRow(w, fields, subs, gbs, n, rows[..m], key), OneSent(w, fields, subs, gbs, n, rows[m]);
        AddsOfMerged(w, fields[i], fields, n, a, b);
        assert PassesRow(w, fields, subs, gbs, n, i, rows[m]);
      } else {
        SentSame(w, fields, subs, gbs, n, rows, key);
      }
    }
  }

  lemma NowIsEarlier(subs: seq<Expr>, n: nat, row: Record)
    requires AllSized(subs) && RowFits(subs, n, row)
    ensures Earlier(row, 0) == row
  {
    hide IsState;
    assert forall i | 0 <= i < |row.cols| :: row.cols[i][0..] == row.cols[i];
    assert Earlier(row, 0).cols == row.cols;
  }

  lemma NothingPasses(w: World, fields: seq<Expr>, subs: seq<Expr>, gbs: seq<Grouping.GroupBy>, n: nat, key: Dims,
                      i: nat)
    requires Ready(fields, subs) && i < |fields|
    ensures Adds(w, fields[i], fields, SentRow(w, fields, subs, gbs, n, [], key))
            == SentCell(w, fields, subs, gbs, n, [], key, i, 0)
  {
    hide IsState, SentCell, SubMergersOf, ApplyAll, Fed, ColFits;
    var row := SentRow(w, fields, subs, gbs, n, [], key);
    RowIsFed(fields[i], fields, n, row);
    forall k, j | 0 <= k < |fields| && 0 <= j < n
      ensures row.cols[k][j] == Unset(fields[k])
    {
      NothingSent(w, fields, subs, gbs, n, key, k, j);
    }
    NothingSent(w, fields, subs, gbs, n, key, i, 0);
    assert UnsetCols(fields, row.cols) by { SentLength(w, fields, subs, gbs, n, [], key); }
    UnsetAdds(Ctx(w, key), fields[i], SubMergersOf(fields[i], fields), fields, n, row.cols);
  }

  lemma SentLength(w: World, fields: seq<Expr>, subs: seq<Expr>, gbs: seq<Grouping.GroupBy>, n: nat,
                   rows: seq<Record>, key: Dims)
    requires Ready(fields, subs) && RowsFit(subs, n, rows)
    ensures var row := SentRow(w, fields, subs, gbs, n, rows, key);
            |row.cols| == |fields| && forall k | 0 <= k < |fields| :: |row.cols[k]| == n
  {
    hide SentCell;
  }

  lemma SentSame(w: World, fields: seq<Expr>, subs: seq<Expr>, gbs: seq<Grouping.GroupBy>, n: nat,
                 rows: seq<Record>, key: Dims)
    requires Ready(fields, subs) && RowsFit(subs, n, rows) && rows != []
             && Grouping.InnerKey(gbs, rows[|rows| - 1].dims) != key
    ensures RowsFit(subs, n, rows[..|rows| - 1])
    ensures SentRow(w, fields, subs, gbs, n, rows, key) == SentRow(w, fields, subs, gbs, n, rows[..|rows| - 1], key)
  {
    hide IsState, Merge, Adds, Grouping.InnerKey, SentCell, ColFits, Earlier;
    var before, now := SentRow(w, fields, subs, gbs, n, rows[..|rows| - 1], key),
      SentRow(w, fields, subs, gbs, n, rows, key);
    forall i | 0 <= i < |fields| ensures now.cols[i] == before.cols[i] {
      forall j | 0 <= j < n
        ensures now.cols[i][j] == before.cols[i][j]
      {
        SentNext(w, fields, subs, gbs, n, rows, key, i, j);
      }
    }
    assert now.cols == before.cols;
  }

  // ---------------------------------------------------------------- two phases

  /** A tree is the grouping of some rows. */
  ghost predicate Groups(w: World, fields: seq<Expr>, subs: seq<Expr>, gbs: seq<Grouping.GroupBy>, n: nat,
                         rows: seq<Record>, tree: map<Dims, seq<Bytes>>)
    requires Ready(fields, subs)
  {
    RowsFit(subs, n, rows) && (ContributionsFit(w, fields, subs, n, rows); Grouping.IsGrouping(fields, gbs,
      Contributions(w, fields, subs, rows), tree))
  }

  /** The rows of partitions, and what these send on. */
  ghost predicate AllSent(w: World, fields: seq<Expr>, subs: seq<Expr>, gbs: seq<Grouping.GroupBy>, n: nat,
                          parts: seq<seq<Record>>, outs: seq<seq<Record>>)
    requires Ready(fields, subs)
  {
    |parts| == |outs| && forall p | 0 <= p < |parts| ::
      RowsFit(subs, n, parts[p]) && IsSent(w, fields, subs, gbs, n, parts[p], outs[p])
  }

  function Flat(parts: seq<seq<Record>>): seq<Record> {
    if parts == [] then [] else Flat(parts[..|parts| - 1]) + parts[|parts| - 1]
  }

  /**
   * Whatever the rows are and however they are partitioned, regrouping what
   * partitions send on is grouping all rows.
   */
  ghost predicate PhasesAgree(w: World, fields: seq<Expr>, subs: seq<Expr>, gbs: seq<Grouping.GroupBy>, n: nat)
    requires Ready(fields, subs)
  {
    forall parts, outs, tree | AllSent(w, fields, subs, gbs, n, parts, outs)
      && Groups(w, fields, fields, gbs, n, Flat(outs), tree) ::
      Groups(w, fields, subs, gbs, n, Flat(parts), tree)
  }

  lemma NowRows(rows: seq<Record>, subs: seq<Expr>, n: nat)
    requires AllSized(subs) && RowsFit(subs, n, rows)
    ensures EarlierRows(rows, subs, n, 0) == rows
  {
    hide RowFits;
    forall k | 0 <= k < |rows| ensures EarlierRows(rows, subs, n, 0)[k] == rows[k] { NowIsEarlier(subs, n, rows[k]); }
  }

  lemma SentFit(w: World, fields: seq<Expr>, subs: seq<Expr>, gbs: seq<Grouping.GroupBy>, n: nat,
                rows: seq<Record>, out: seq<Record>)
    requires Ready(fields, subs) && RowsFit(subs, n, rows) && IsSent(w, fields, subs, gbs, n, rows, out)
    ensures RowsFit(fields, n, out)
  {
    hide SentRow, RowFits;
    forall j | 0 <= j < |out|
      ensures RowFits(fields, n, out[j])
    {
      assert out[j] == SentRow(w, fields, subs, gbs, n, rows, out[j].dims);
    }
  }

  /** If all fields pass, a row that is sent on adds the totals of the rows behind it. */
  lemma SendsTotals(w: World, fields: seq<Expr>, subs: seq<Expr>, gbs: seq<Grouping.GroupBy>, n: nat,
                    rows: seq<Record>, key: Dims)
    requires Ready(fields, subs) && RowsFit(subs, n, rows)
             && forall i | 0 <= i < |fields| :: Passes(w, fields, subs, gbs, n, i)
    ensures Grouping.AllFit(fields, Contributions(w, fields, subs, rows))
    ensures Grouping.SendsTotals(fields, gbs, Contributions(w, fields, subs, rows),
                                 Contribution(w, fields, fields, SentRow(w, fields, subs, gbs, n, rows, key)))
  {
    hide IsState, Adds, SentRow, RowFits, Passes, Grouping.Total, Grouping.Fits, Contributions;
    ContributionsFit(w, fields, subs, n, rows);
    var parts, sent := Contributions(w, fields, subs, rows),
      Contribution(w, fields, fields, SentRow(w, fields, subs, gbs, n, rows, key));
    forall i | 0 <= i < |fields| ensures sent.cells[i]
      == Grouping.Total(fields, i, parts, Grouping.Restricting(gbs, key)) {
      SentPasses(w, fields, subs, gbs, n, rows, key, i);
      NowRows(rows, subs, n);
    }
  }

  lemma SendsKeys(w: World, fields: seq<Expr>, subs: seq<Expr>, gbs: seq<Grouping.GroupBy>, n: nat,
                  rows: seq<Record>, out: seq<Record>)
    requires Ready(fields, subs) && RowsFit(subs, n, rows) && RowsFit(fields, n, out)
             && IsSent(w, fields, subs, gbs, n, rows, out)
    ensures var parts, sent := Contributions(w, fields, subs, rows), Contributions(w, fields, fields, out);
            && (forall j, k | 0 <= j < k < |sent| :: sent[j].dims != sent[k].dims)
            && (forall k | 0 <= k < |parts| :: Grouping.IsSent(sent, Grouping.InnerKey(gbs, parts[k].dims)))
            && (forall j | 0 <= j < |sent| :: Grouping.ComesFrom(gbs, parts, sent[j].dims))
  {
    hide Adds, Grouping.InnerKey, SentRow, RowFits, Contribution, Ready, Grouping.IsSent, Grouping.ComesFrom;
    var parts, sent := Contributions(w, fields, subs, rows), Contributions(w, fields, fields, out);
    forall k | 0 <= k < |parts| ensures Grouping.IsSent(sent, Grouping.InnerKey(gbs, parts[k].dims)) {
      var j :| 0 <= j < |out| && out[j].dims == Grouping.InnerKey(gbs, rows[k].dims);
      IsSentAt(sent, j);
    }
    forall j | 0 <= j < |sent| ensures Grouping.ComesFrom(gbs, parts, sent[j].dims) {
      var k :| 0 <= k < |rows| && Grouping.InnerKey(gbs, rows[k].dims) == out[j].dims;
      ComesFromAt(gbs, parts, k);
    }
  }

  lemma IsSentAt(sent: seq<Grouping.Part>, j: nat)
    requires j < |sent|
    ensures Grouping.IsSent(sent, sent[j].dims)
  {
  }

  lemma ComesFromAt(gbs: seq<Grouping.GroupBy>, parts: seq<Grouping.Part>, k: nat)
    requires k < |parts|
    ensures Grouping.ComesFrom(gbs, parts, Grouping.InnerKey(gbs, parts[k].dims))
  {
  }

  /** If all fields pass, what a partition sends on is the first phase of what its rows add. */
  lemma SendsPhaseOne(w: World, fields: seq<Expr>, subs: seq<Expr>, gbs: seq<Grouping.GroupBy>, n: nat,
                      rows: seq<Record>, out: seq<Record>)
    requires Ready(fields, subs) && RowsFit(subs, n, rows) && IsSent(w, fields, subs, gbs, n, rows, out)
             && forall i | 0 <= i < |fields| :: Passes(w, fields, subs, gbs, n, i)
    ensures RowsFit(fields, n, out)
    ensures Grouping.AllFit(fields, Contributions(w, fields, subs, rows))
            && Grouping.AllFit(fields, Contributions(w, fields, fields, out))
    ensures Grouping.IsPhaseOne(fields, gbs, Contributions(w, fields, subs, rows),
            Contributions(w, fields, fields, out))
  {
    hide SentRow, RowFits, Passes, Grouping.Fits, Contribution, Grouping.IsSent, Grouping.ComesFrom,
      Grouping.SendsTotals;
    SentFit(w, fields, subs, gbs, n, rows, out);
    ContributionsFit(w, fields, subs, n, rows);
    ContributionsFit(w, fields, fields, n, out);
    SendsKeys(w, fields, subs, gbs, n, rows, out);
    var parts, sent := Contributions(w, fields, subs, rows), Contributions(w, fields, fields, out);
    forall j | 0 <= j < |sent|
      ensures Grouping.SendsTotals(fields, gbs, parts, sent[j])
    {
      SendsTotals(w, fields, subs, gbs, n, rows, out[j].dims);
    }
  }

  lemma {:induction false} FlatFits(subs: seq<Expr>, n: nat, parts: seq<seq<Record>>)
    requires AllSized(subs) && forall p | 0 <= p < |parts| :: RowsFit(subs, n, parts[p])
    ensures RowsFit(subs, n, Flat(parts))
  {
    hide RowFits;
    if parts != [] { FlatFits(subs, n, parts[..|parts| - 1]); }
  }

  function EachContributes(w: World, fields: seq<Expr>, subs: seq<Expr>, n: nat,
                           parts: seq<seq<Record>>): (r: seq<seq<Grouping.Part>>)
    requires AllSized(subs) && forall p | 0 <= p < |parts| :: RowsFit(subs, n, parts[p])
    ensures |r| == |parts|
  {
    seq(|parts|, p requires 0 <= p < |parts| && RowsFit(subs, n, parts[p]) => Contributions(w, fields, subs, parts[p]))
  }

  lemma {:induction false} FlatContributes(w: World, fields: seq<Expr>, subs: seq<Expr>, n: nat,
                                           parts: seq<seq<Record>>)
    requires AllSized(subs) && forall p | 0 <= p < |parts| :: RowsFit(subs, n, parts[p])
    ensures RowsFit(subs, n, Flat(parts))
    ensures Contributions(w, fields, subs, Flat(parts)) == Grouping.Union(EachContributes(w, fields, subs, n, parts))
  {
    hide RowFits, Contribution;
    FlatFits(subs, n, parts);
    if parts != [] {
      var m := |parts| - 1;
      FlatContributes(w, fields, subs, n, parts[..m]);
      assert EachContributes(w, fields, subs, n, parts)[..m] == EachContributes(w, fields, subs, n, parts[..m]);
      ContributionsConcat(w, fields, subs, n, Flat(parts[..m]), parts[m]);
    }
  }

  lemma ContributionsConcat(w: World, fields: seq<Expr>, subs: seq<Expr>, n: nat, a: seq<Record>, b: seq<Record>)
    requires AllSized(subs) && RowsFit(subs, n, a) && RowsFit(subs, n, b)
    ensures RowsFit(subs, n, a + b) && Contributions(w, fields, subs, a + b)
            == Contributions(w, fields, subs, a) + Contributions(w, fields, subs, b)
  {
    hide RowFits, Contribution;
  }

  /** Fields that pass make two phases one. */
  lemma PassingAgrees(w: World, fields: seq<Expr>, subs: seq<Expr>, gbs: seq<Grouping.GroupBy>, n: nat,
                      parts: seq<seq<Record>>,
                      outs: seq<seq<Record>>, tree: map<Dims, seq<Bytes>>)
    requires Ready(fields, subs) && (forall g | g in gbs :: Grouping.DependsOnParams(g))
             && forall i | 0 <= i < |fields| :: Passes(w, fields, subs, gbs, n, i)
    requires AllSent(w, fields, subs, gbs, n, parts, outs) && Groups(w, fields, fields, gbs, n, Flat(outs), tree)
    ensures Groups(w, fields, subs, gbs, n, Flat(parts), tree)
  {
    hide RowFits, Passes, IsSent, Contributions, Grouping.IsGrouping, Grouping.AllFit, Grouping.IsPhaseOne,
      Grouping.DependsOnParams, Flat, Grouping.Union;
    forall p | 0 <= p < |parts|
      ensures RowsFit(fields, n, outs[p]) && Grouping.AllFit(fields, Contributions(w, fields, subs, parts[p]))
      ensures Grouping.IsPhaseOne(fields, gbs, Contributions(w, fields, subs, parts[p]),
              Contributions(w, fields, fields, outs[p]))
    {
      SendsPhaseOne(w, fields, subs, gbs, n, parts[p], outs[p]);
    }
    FlatContributes(w, fields, subs, n, parts);
    FlatContributes(w, fields, fields, n, outs);
    ContributionsFit(w, fields, subs, n, Flat(parts));
    ContributionsFit(w, fields, fields, n, Flat(outs));
    Grouping.TwoPhasesAreOne(fields, gbs, EachContributes(w, fields, subs, n, parts),
      EachContributes(w, fields, fields, n, outs), tree);
  }
}
