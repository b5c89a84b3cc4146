/**
 * Which fields pass through the second phase of a query (planner/cluster.go,
 * expr/bounded.go, core/group.go).
 *
 * The leader submerges every field from the fields that partitions send.  Two
 * phases are one, for all rows and partitions, exactly if every field passes for
 * every single row (`TwoPhasesAreOneIff`), and that can be told from the
 * expression: one that is a field, once, passes (`OwnPasses`); a bounded one passes
 * if what it bounds does; others are put together again, and pass exactly if their
 * parts do and keys decide their conditions.
 */
module Passthrough {
  import opened Wrappers
  import opened Arithmetic
  import opened Accumulators
  import opened SubMergers
  import opened Columns
  import opened StoredLeaves
  import opened Regrouping
  import Grouping

  // ---------------------------------------------------------------- exactly when two phases are one

  /** The grouping of what a single row adds. */
  lemma SingleGrouping(fields: seq<Expr>, gbs: seq<Grouping.GroupBy>, part: Grouping.Part)
    requires Grouping.FieldsOk(fields) && Grouping.Fits(fields, part)
    ensures Grouping.AllFit(fields, [part])
    ensures Grouping.IsGrouping(fields, gbs, [part], map[Grouping.SliceKey(gbs, part.dims) := part.cells])
  {
    hide IsState, Merge, Grouping.SliceKey, Grouping.Total;
    var key := Grouping.SliceKey(gbs, part.dims);
    assert forall k :: Grouping.HasKey(gbs, [part], k) <==> k == key by {
      assert [part][0] == part;
      forall k | k == key
        ensures Grouping.HasKey(gbs, [part], k)
      {
        assert Grouping.SliceKey(gbs, [part][0].dims) == k;
      }
    }
    forall i | 0 <= i < |fields| ensures part.cells[i]
      == Grouping.Total(fields, i, [part], Grouping.Slicing(gbs, key)) {
      SingleTotal(fields, part, i, Grouping.Slicing(gbs, key));
    }
  }

  lemma SingleTotal(fields: seq<Expr>, part: Grouping.Part, i: nat, keep: Dims -> bool)
    requires Grouping.FieldsOk(fields) && Grouping.Fits(fields, part) && i < |fields| && keep(part.dims)
    ensures Grouping.AllFit(fields, [part]) && Grouping.Total(fields, i, [part], keep) == part.cells[i]
  {
    hide IsState, Merge, Grouping.Total;
    assert [part][..0] == [];
    Grouping.TotalLast(fields, i, [part], keep);
    Grouping.NothingTotal(fields, i, keep);
    MergeIdentity(fields[i], part.cells[i]);
  }

  /** A partition with a single row sends what that row adds, period by period. */
  lemma OneIsSent(w: World, fields: seq<Expr>, subs: seq<Expr>, gbs: seq<Grouping.GroupBy>, n: nat, row: Record)
    requires Ready(fields, subs) && RowFits(subs, n, row)
    ensures RowsFit(subs, n, [row]) && IsSent(w, fields, subs, gbs, n, [row], [OneSent(w, fields, subs, gbs, n, row)])
  {
    hide IsState, Merge, Adds, Grouping.InnerKey, SentCell, Earlier;
    var one, key := OneSent(w, fields, subs, gbs, n, row), Grouping.InnerKey(gbs, row.dims);
    assert [row][..0] == [];
    var sent := SentRow(w, fields, subs, gbs, n, [row], key);
    forall i | 0 <= i < |fields| ensures sent.cols[i] == one.cols[i] {
      forall j | 0 <= j < n ensures sent.cols[i][j] == one.cols[i][j] {
        SentNext(w, fields, subs, gbs, n, [row], key, i, j);
        NothingSent(w, fields, subs, gbs, n, key, i, j);
        MergeIdentity(fields[i], Adds(w, fields[i], subs, Earlier(row, j)));
      }
    }
    assert sent.cols == one.cols;
    assert [one][0].dims == key && [row][0].dims == row.dims;
  }

  /** If two phases are one for all rows, every field passes for a single row. */
  lemma AgreementPasses(w: World, fields: seq<Expr>, subs: seq<Expr>, gbs: seq<Grouping.GroupBy>, n: nat, row: Record,
                        i: nat)
    requires Ready(fields, subs) && (forall g | g in gbs :: Grouping.DependsOnParams(g))
             && PhasesAgree(w, fields, subs, gbs, n)
    requires RowFits(subs, n, row) && i < |fields|
    ensures PassesRow(w, fields, subs, gbs, n, i, row)
  {
    hide IsState, Adds, Grouping.InnerKey, RowFits, OneSent, IsSent, Grouping.SliceKey, Grouping.Total, Grouping.Fits;
    var one := OneSent(w, fields, subs, gbs, n, row);
    OneIsSent(w, fields, subs, gbs, n, row);
    OneSentFits(w, fields, subs, gbs, n, row);
    ContributionFits(w, fields, fields, n, one);
    ContributionFits(w, fields, subs, n, row);
    var sent, part := Contribution(w, fields, fields, one), Contribution(w, fields, subs, row);
    var tree := map[Grouping.SliceKey(gbs, sent.dims) := sent.cells];
    SingleGrouping(fields, gbs, sent);
    OneFlat(row);
    OneFlat(one);
    assert Regrouping.Contributions(w, fields, fields, [one]) == [sent]
      && Regrouping.Contributions(w, fields, subs, [row]) == [part];
    assert AllSent(w, fields, subs, gbs, n, [[row]], [[one]]) && Groups(w, fields, fields, gbs, n, Flat([[one]]), tree);
    assert Groups(w, fields, subs, gbs, n, Flat([[row]]), tree);
    Grouping.KeyOfKey(gbs, row.dims);
    SingleTotal(fields, part, i, Grouping.Slicing(gbs, Grouping.SliceKey(gbs, sent.dims)));
  }

  lemma OneFlat(row: Record)
    ensures Flat([[row]]) == [row]
  {
    assert [[row]][..0] == [];
  }

  /**
   * Regrouping what partitions send on is grouping all rows, whatever they are and
   * however they are partitioned, exactly if every field passes for every single row.
   */
  lemma TwoPhasesAreOneIff(w: World, fields: seq<Expr>, subs: seq<Expr>, gbs: seq<Grouping.GroupBy>, n: nat)
    requires Ready(fields, subs) && forall g | g in gbs :: Grouping.DependsOnParams(g)
    ensures PhasesAgree(w, fields, subs, gbs, n) <==> forall i | 0 <= i < |fields| :: Passes(w, fields, subs, gbs, n, i)
  {
    hide RowFits, AllSent, Groups, Flat, PassesRow, Grouping.DependsOnParams;
    if PhasesAgree(w, fields, subs, gbs, n) {
      forall i, row | 0 <= i < |fields| && RowFits(subs, n, row) ensures PassesRow(w, fields, subs, gbs, n, i, row) {
        AgreementPasses(w, fields, subs, gbs, n, row, i);
      }
    }
    if forall i | 0 <= i < |fields| :: Passes(w, fields, subs, gbs, n, i) {
      forall parts, outs, tree | AllSent(w, fields, subs, gbs, n, parts, outs)
        && Groups(w, fields, fields, gbs, n, Flat(outs), tree)
        ensures Groups(w, fields, subs, gbs, n, Flat(parts), tree)
      {
        PassingAgrees(w, fields, subs, gbs, n, parts, outs, tree);
      }
    }
  }

  // ---------------------------------------------------------------- expressions that pass

  /** An expression comes out of both phases as it should, for every single row. */
  ghost predicate PassesExpr(w: World, fields: seq<Expr>, subs: seq<Expr>, gbs: seq<Grouping.GroupBy>, n: nat, e: Expr)
    requires AllSized(subs)
  {
    forall row | RowFits(subs, n, row) :: Comes(w, fields, subs, gbs, n, e, row)
  }

  predicate Comes(w: World, fields: seq<Expr>, subs: seq<Expr>, gbs: seq<Grouping.GroupBy>, n: nat, e: Expr,
                  row: Record)
    requires AllSized(subs) && RowFits(subs, n, row)
  {
    Adds(w, e, fields, OneSent(w, fields, subs, gbs, n, row)) == Adds(w, e, subs, row)
  }

  lemma PassesIs(w: World, fields: seq<Expr>, subs: seq<Expr>, gbs: seq<Grouping.GroupBy>, n: nat, i: nat)
    requires Ready(fields, subs) && i < |fields|
    ensures Passes(w, fields, subs, gbs, n, i) <==> PassesExpr(w, fields, subs, gbs, n, fields[i])
  {
    hide RowFits, Adds, OneSent;
    if Passes(w, fields, subs, gbs, n, i) {
      forall row | RowFits(subs, n, row)
        ensures Comes(w, fields, subs, gbs, n, fields[i], row)
      {
        assert PassesRow(w, fields, subs, gbs, n, i, row);
      }
    }
    if PassesExpr(w, fields, subs, gbs, n, fields[i]) {
      forall row | RowFits(subs, n, row)
        ensures PassesRow(w, fields, subs, gbs, n, i, row)
      {
        assert Comes(w, fields, subs, gbs, n, fields[i], row);
      }
    }
  }

  /** What bounds wrap: bounded expressions have the state of what they wrap, and ask for its submergers. */
  function Core(e: Expr): Expr {
    if e.Bounded? then Core(e.wrapped) else e
  }

  lemma {:induction false} CoreAdds(w: World, e: Expr, subs: seq<Expr>, row: Record)
    requires |row.cols| == |subs|
    ensures Adds(w, e, subs, row) == Adds(w, Core(e), subs, row)
  {
    if e.Bounded? { CoreAdds(w, e.wrapped, subs, row); }
  }

  /** A bounded expression passes exactly if what it bounds does. */
  lemma BoundedPasses(w: World, fields: seq<Expr>, subs: seq<Expr>, gbs: seq<Grouping.GroupBy>, n: nat, e: Expr)
    requires AllSized(subs)
    ensures PassesExpr(w, fields, subs, gbs, n, e) <==> PassesExpr(w, fields, subs, gbs, n, Core(e))
  {
    hide RowFits, Adds, OneSent, Core;
    forall row | RowFits(subs, n, row) ensures Comes(w, fields, subs, gbs, n, e, row)
      == Comes(w, fields, subs, gbs, n, Core(e), row) {
      CoreAdds(w, e, subs, row);
      CoreAdds(w, e, fields, OneSent(w, fields, subs, gbs, n, row));
    }
  }

  /** An expression is one of the fields, and the only one that is taken for it; the first is for binary ones. */
  predicate IsOwn(fields: seq<Expr>, e: Expr) {
    var j := FirstMatch(e, fields);
    && !e.Field? && !e.Const? && !e.Bounded? && j < |fields| && fields[j] == e
    && (e.Binary? || forall k | 0 <= k < |fields| && k != j :: !Matches(e, fields[k]))
  }

  lemma OwnMergers(fields: seq<Expr>, e: Expr)
    requires IsOwn(fields, e)
    ensures SubMergersOf(e, fields) == Nothing(|fields|)[FirstMatch(e, fields) := Whole(e)]
  {
    hide Printed, FirstMatch;
    if !e.Binary? { assert AllMatches(e, fields) == Nothing(|fields|)[FirstMatch(e, fields) := Whole(e)]; }
  }

  /** An expression that is one of the fields once passes, whatever it is; so does one without a state. */
  lemma OwnPasses(w: World, fields: seq<Expr>, subs: seq<Expr>, gbs: seq<Grouping.GroupBy>, n: nat, e: Expr)
    requires Ready(fields, subs) && n > 0 && (IsOwn(fields, e) || EncodedWidth(e) == 0)
    ensures PassesExpr(w, fields, subs, gbs, n, e)
  {
    hide RowFits, Adds, OneSent, IsOwn;
    forall row | RowFits(subs, n, row) ensures Comes(w, fields, subs, gbs, n, e, row) {
      if IsOwn(fields, e) { OwnComes(w, fields, subs, gbs, n, e, row); }
        else { NoState(w, e, fields, OneSent(w, fields, subs, gbs, n, row), subs, row); }
    }
  }

  lemma NoState(w: World, e: Expr, fields: seq<Expr>, one: Record, subs: seq<Expr>, row: Record)
    requires EncodedWidth(e) == 0 && |one.cols| == |fields| && |row.cols| == |subs|
    ensures Adds(w, e, fields, one) == Adds(w, e, subs, row)
  {
    hide ApplyAll, SubMergersOf;
  }

  lemma OwnComes(w: World, fields: seq<Expr>, subs: seq<Expr>, gbs: seq<Grouping.GroupBy>, n: nat, e: Expr, row: Record)
    requires Ready(fields, subs) && n > 0 && IsOwn(fields, e) && RowFits(subs, n, row)
    ensures Comes(w, fields, subs, gbs, n, e, row)
  {
    hide IsState, Merge, MergeInto, ApplyAll, SubMergersOf, Printed, FirstMatch, ColFits;
    var one, j := OneSent(w, fields, subs, gbs, n, row), FirstMatch(e, fields);
    OwnMergers(fields, e);
    ApplyOne(Ctx(w, one.dims), SubMergersOf(e, fields), j, Unset(e), one.cols);
    NowIsEarlier(subs, n, row);
    ZerosAreState(e);
    AddsMerges(w, e, subs, n, row, Unset(e));
    MergeInPlace(e, Unset(e), Adds(w, e, subs, row));
    MergeIdentity(e, Adds(w, e, subs, row));
  }

  // ---------------------------------------------------------------- expressions that are put together again

  /** Neither the fields nor what is stored is taken for the expression. */
  predicate IsNew(fields: seq<Expr>, subs: seq<Expr>, e: Expr) {
    FirstMatch(e, fields) == |fields| && FirstMatch(e, subs) == |subs|
  }

  /** Without a match, an IF takes what its operand does, from rows that pass. */
  lemma IfAdds(w: World, cond: Option<string>, e: Expr, subs: seq<Expr>, row: Record)
    requires |row.cols| == |subs| && FirstMatch(If(cond, e), subs) == |subs|
    ensures Adds(w, If(cond, e), subs, row) == if Include(w.sem, cond, Some(row.dims)) then Adds(w, e, subs, row)
            else Unset(e)
  {
    hide ApplyAll, FirstMatch;
    ApplyConditional(Ctx(w, row.dims), cond, SubMergersOf(e, subs), Unset(e), row.cols);
  }

  /** Without a match, a binary expression takes what its operands do. */
  lemma BinaryAdds(w: World, e: Expr, subs: seq<Expr>, row: Record)
    requires e.Binary? && |row.cols| == |subs| && FirstMatch(e, subs) == |subs|
    ensures Adds(w, e, subs, row) == Adds(w, e.left, subs, row) + Adds(w, e.right, subs, row)
  {
    hide ApplyAll, FirstMatch;
    var n := EncodedWidth(e.left);
    ZerosSplit(n, EncodedWidth(e.right));
    ApplyCombined(Ctx(w, row.dims), SubMergersOf(e.left, subs), n, SubMergersOf(e.right, subs), Unset(e), row.cols);
  }

  /** A binary expression that is put together again passes exactly if its operands do. */
  lemma BinaryPasses(w: World, fields: seq<Expr>, subs: seq<Expr>, gbs: seq<Grouping.GroupBy>, n: nat, e: Expr)
    requires AllSized(subs) && e.Binary? && IsNew(fields, subs, e)
    ensures PassesExpr(w, fields, subs, gbs, n, e)
            <==> PassesExpr(w, fields, subs, gbs, n, e.left) && PassesExpr(w, fields, subs, gbs, n, e.right)
  {
    hide RowFits, Adds, OneSent, FirstMatch;
    forall row | RowFits(subs, n, row)
      ensures Comes(w, fields, subs, gbs, n, e, row)
              <==> Comes(w, fields, subs, gbs, n, e.left, row) && Comes(w, fields, subs, gbs, n, e.right, row)
    {
      var one := OneSent(w, fields, subs, gbs, n, row);
      BinaryAdds(w, e, subs, row);
      BinaryAdds(w, e, fields, one);
      var a, b, x, y := Adds(w, e.left, fields, one), Adds(w, e.right, fields, one), Adds(w, e.left, subs, row),
        Adds(w, e.right, subs, row);
      if a + b == x + y { assert (a + b)[..|a|] == a && (x + y)[..|a|] == x && (a + b)[|a|..] == b
        && (x + y)[|a|..] == y; }
    }
  }

  /** The condition has the same outcome for dimensions and for the key that partitions group them under. */
  predicate DecidedByKey(w: World, gbs: seq<Grouping.GroupBy>, cond: Option<string>, d: Dims) {
    Include(w.sem, cond, Some(Grouping.InnerKey(gbs, d))) == Include(w.sem, cond, Some(d))
  }

  /** Some row with the dimensions adds something to the expression. */
  ghost predicate Live(w: World, subs: seq<Expr>, n: nat, e: Expr, d: Dims)
    requires AllSized(subs)
  {
    exists row :: RowFits(subs, n, row) && row.dims == d && Adds(w, e, subs, row) != Unset(e)
  }

  /**
   * An IF that is put together again of what passes does so itself exactly if the
   * key decides its condition, for all dimensions that rows can add something for.
   */
  lemma IfPassesIff(w: World, fields: seq<Expr>, subs: seq<Expr>, gbs: seq<Grouping.GroupBy>, n: nat,
                    cond: Option<string>, e: Expr)
    requires AllSized(subs) && IsNew(fields, subs, If(cond, e)) && PassesExpr(w, fields, subs, gbs, n, e)
    ensures PassesExpr(w, fields, subs, gbs, n, If(cond, e))
            <==> forall d | Live(w, subs, n, e, d) :: DecidedByKey(w, gbs, cond, d)
  {
    hide RowFits, Adds, FirstMatch, OneSent, DecidedByKey;
    var f := If(cond, e);
    forall row | RowFits(subs, n, row)
      ensures Comes(w, fields, subs, gbs, n, f, row)
              <==> Adds(w, e, subs, row) == Unset(e) || DecidedByKey(w, gbs, cond, row.dims)
    {
      IfComes(w, fields, subs, gbs, n, cond, e, row);
    }
    if PassesExpr(w, fields, subs, gbs, n, f) {
      forall d | Live(w, subs, n, e, d) ensures DecidedByKey(w, gbs, cond, d) {
        var row :| RowFits(subs, n, row) && row.dims == d && Adds(w, e, subs, row) != Unset(e);
        assert Comes(w, fields, subs, gbs, n, f, row);
      }
    }
    if forall d | Live(w, subs, n, e, d) :: DecidedByKey(w, gbs, cond, d) {
      forall row | RowFits(subs, n, row) ensures Comes(w, fields, subs, gbs, n, f, row) {
        if Adds(w, e, subs, row) != Unset(e) { assert Live(w, subs, n, e, row.dims); }
      }
    }
  }

  lemma IfComes(w: World, fields: seq<Expr>, subs: seq<Expr>, gbs: seq<Grouping.GroupBy>, n: nat,
                cond: Option<string>, e: Expr, row: Record)
    requires AllSized(subs) && IsNew(fields, subs, If(cond, e)) && RowFits(subs, n, row)
             && Comes(w, fields, subs, gbs, n, e, row)
    ensures Comes(w, fields, subs, gbs, n, If(cond, e), row)
            <==> Adds(w, e, subs, row) == Unset(e) || DecidedByKey(w, gbs, cond, row.dims)
  {
    hide RowFits, Adds, FirstMatch, Grouping.InnerKey, Include;
    IfAdds(w, cond, e, subs, row);
    IfAdds(w, cond, e, fields, OneSent(w, fields, subs, gbs, n, row));
  }

  /** Without a match, a SHIFT takes what its operand does, of an earlier period. */
  lemma ShiftAdds(w: World, e: Expr, offset: int, subs: seq<Expr>, n: nat, row: Record)
    requires AllSized(subs) && RowFits(subs, n, row) && FirstMatch(Shift(e, offset), subs) == |subs|
    ensures var k := -Quot(offset, w.res);
            && (0 <= k < n ==> Adds(w, Shift(e, offset), subs, row) == Adds(w, e, subs, Earlier(row, k)))
            && (!(0 <= k < n) ==> Adds(w, Shift(e, offset), subs, row) == Unset(e))
  {
    hide FirstMatch, SubMergersOf, Quot, ApplyAll, ShiftAll, Sized, ColFits, Earlier, Suffixes, Adds, Unset;
    var k, sms := -Quot(offset, w.res), SubMergersOf(e, subs);
    ColsAreLong(subs, n, row);
    ApplyShiftAll(Ctx(w, row.dims), offset, sms, Unset(e), n, row.cols);
    AddsShifted(w, e, offset, subs, row);
    if 0 <= k < n { EarlierAdds(w, e, subs, n, row, k); }
  }

  lemma ColsAreLong(subs: seq<Expr>, n: nat, row: Record)
    requires AllSized(subs) && RowFits(subs, n, row)
    ensures forall i | 0 <= i < |row.cols| :: |row.cols[i]| == n
  {
    hide IsState, Sized;
  }

  lemma AddsShifted(w: World, e: Expr, offset: int, subs: seq<Expr>, row: Record)
    requires |row.cols| == |subs| && FirstMatch(Shift(e, offset), subs) == |subs|
    ensures Adds(w, Shift(e, offset), subs, row) == ApplyAll(Ctx(w, row.dims), ShiftAll(offset, SubMergersOf(e, subs)),
            Unset(e), row.cols)
  {
    hide FirstMatch, ApplyAll, ShiftAll;
  }

  lemma EarlierAdds(w: World, e: Expr, subs: seq<Expr>, n: nat, row: Record, k: nat)
    requires |row.cols| == |subs| && k <= n && forall i | 0 <= i < |row.cols| :: |row.cols[i]| == n
    ensures Adds(w, e, subs, Earlier(row, k)) == ApplyAll(Ctx(w, row.dims), SubMergersOf(e, subs), Unset(e),
            Suffixes(row.cols, n, k))
  {
    hide SubMergersOf, ApplyAll;
    assert Suffixes(row.cols, n, k) == Earlier(row, k).cols;
  }

  lemma {:induction false} ApplyShiftAll(c: Context, offset: int, sms: seq<SubMerge>, x: Bytes, n: nat,
                                         cols: seq<seq<Bytes>>)
    requires |sms| == |cols| && forall i | 0 <= i < |cols| :: |cols[i]| == n
    ensures var k := -Quot(offset, c.otherRes);
            && (0 <= k < n ==> ApplyAll(c, ShiftAll(offset, sms), x, cols) == ApplyAll(c, sms, x, Suffixes(cols, n, k)))
            && (!(0 <= k < n) ==> ApplyAll(c, ShiftAll(offset, sms), x, cols) == x)
  {
    hide Quot;
    var k := -Quot(offset, c.otherRes);
    if sms != [] {
      assert ShiftAll(offset, sms)[1..] == ShiftAll(offset, sms[1..]);
      if 0 <= k < n { assert Suffixes(cols, n, k)[1..] == Suffixes(cols[1..], n, k); }
      ApplyShiftAll(c, offset, sms[1..], Apply(c, ShiftAll(offset, sms)[0], x, cols[0]), n, cols[1..]);
    }
  }

  function Suffixes(cols: seq<seq<Bytes>>, n: nat, k: nat): (r: seq<seq<Bytes>>)
    requires k <= n && forall i | 0 <= i < |cols| :: |cols[i]| == n
    ensures |r| == |cols|
  {
    seq(|cols|, i requires 0 <= i < |cols| => cols[i][k..])
  }

  /**
   * A SHIFT that is put together again passes exactly if it points past the end, or
   * its operand passes for the rest.
   */
  lemma ShiftPassesIff(w: World, fields: seq<Expr>, subs: seq<Expr>, gbs: seq<Grouping.GroupBy>, n: nat, e: Expr,
                       offset: int)
    requires Ready(fields, subs) && IsNew(fields, subs, Shift(e, offset))
    ensures var k := -Quot(offset, w.res);
            PassesExpr(w, fields, subs, gbs, n, Shift(e, offset))
            <==> (0 <= k < n ==> PassesExpr(w, fields, subs, gbs, n - k, e))
  {
    hide RowFits, Adds, FirstMatch, OneSent, Earlier, Quot, Comes;
    var k := -Quot(offset, w.res);
    if !(0 <= k < n) {
      forall row | RowFits(subs, n, row)
        ensures Comes(w, fields, subs, gbs, n, Shift(e, offset), row)
      {
        ShiftPastEnd(w, fields, subs, gbs, n, e, offset, row);
      }
    } else if PassesExpr(w, fields, subs, gbs, n - k, e) {
      forall row | RowFits(subs, n, row)
        ensures Comes(w, fields, subs, gbs, n, Shift(e, offset), row)
      {
        ShiftComes(w, fields, subs, gbs, n, e, offset, row);
      }
    } else {
      var rest :| RowFits(subs, n - k, rest) && !Comes(w, fields, subs, gbs, n - k, e, rest);
      var row := Later(subs, n - k, rest, k);
      ShiftComes(w, fields, subs, gbs, n, e, offset, row);
    }
  }

  lemma ShiftPastEnd(w: World, fields: seq<Expr>, subs: seq<Expr>, gbs: seq<Grouping.GroupBy>, n: nat, e: Expr,
                     offset: int, row: Record)
    requires Ready(fields, subs) && IsNew(fields, subs, Shift(e, offset)) && RowFits(subs, n, row)
             && !(0 <= -Quot(offset, w.res) < n)
    ensures Comes(w, fields, subs, gbs, n, Shift(e, offset), row)
  {
    hide RowFits, Adds, FirstMatch, OneSent, Earlier, Quot;
    OneSentFits(w, fields, subs, gbs, n, row);
    ShiftAdds(w, e, offset, subs, n, row);
    ShiftAdds(w, e, offset, fields, n, OneSent(w, fields, subs, gbs, n, row));
  }

  lemma ShiftComes(w: World, fields: seq<Expr>, subs: seq<Expr>, gbs: seq<Grouping.GroupBy>, n: nat, e: Expr,
                   offset: int, row: Record)
    requires Ready(fields, subs) && IsNew(fields, subs, Shift(e, offset)) && RowFits(subs, n, row)
             && 0 <= -Quot(offset, w.res) < n
    ensures var k := -Quot(offset, w.res);
            && (forall i | 0 <= i < |row.cols| :: k <= |row.cols[i]|) && RowFits(subs, n - k, Earlier(row, k))
            && (Comes(w, fields, subs, gbs, n, Shift(e, offset), row)
               <==> Comes(w, fields, subs, gbs, n - k, e, Earlier(row, k)))
  {
    hide Adds, FirstMatch, OneSent, Earlier, Quot, IsState;
    var k := -Quot(offset, w.res);
    OneSentFits(w, fields, subs, gbs, n, row);
    ShiftAdds(w, e, offset, subs, n, row);
    ShiftAdds(w, e, offset, fields, n, OneSent(w, fields, subs, gbs, n, row));
    SentEarlier(w, fields, subs, gbs, n, row, k);
  }

  /** A row that looks like the given one from k periods earlier. */
  lemma Later(subs: seq<Expr>, n: nat, rest: Record, k: nat) returns (row: Record)
    requires AllSized(subs) && RowFits(subs, n, rest)
    ensures RowFits(subs, n + k, row) && Earlier(row, k) == rest
  {
    hide IsState, Sized;
    row := Record(rest.dims, seq(|subs|, i requires 0 <= i < |subs| => seq(k, _ => Unset(subs[i])) + rest.cols[i]));
    forall i | 0 <= i < |subs| ensures ColFits(subs[i], n + k, row.cols[i]) && row.cols[i][k..] == rest.cols[i] {
      assert subs[i] in subs;
      ZerosAreState(subs[i]);
    }
    assert Earlier(row, k).cols == rest.cols;
  }

  /** What is sent for an earlier period is what is sent, seen from that period. */
  lemma SentEarlier(w: World, fields: seq<Expr>, subs: seq<Expr>, gbs: seq<Grouping.GroupBy>, n: nat, row: Record,
                    k: nat)
    requires Ready(fields, subs) && RowFits(subs, n, row) && k <= n
    ensures RowFits(subs, n - k, Earlier(row, k)) && RowFits(fields, n, OneSent(w, fields, subs, gbs, n, row))
    ensures Earlier(OneSent(w, fields, subs, gbs, n, row), k) == OneSent(w, fields, subs, gbs, n - k, Earlier(row, k))
  {
    hide Adds, IsState;
    EarlierFits(subs, n, row, k);
    OneSentFits(w, fields, subs, gbs, n, row);
    var a, b := Earlier(OneSent(w, fields, subs, gbs, n, row), k),
      OneSent(w, fields, subs, gbs, n - k, Earlier(row, k));
    forall i | 0 <= i < |fields| ensures a.cols[i] == b.cols[i] {
      forall j | 0 <= j < n - k ensures a.cols[i][j] == b.cols[i][j] { EarlierTwice(subs, n, row, k, j); }
    }
    assert a.cols == b.cols;
  }

  lemma EarlierTwice(subs: seq<Expr>, n: nat, row: Record, k: nat, j: nat)
    requires AllSized(subs) && RowFits(subs, n, row) && k + j <= n
    ensures RowFits(subs, n - k, Earlier(row, k)) && Earlier(Earlier(row, k), j) == Earlier(row, k + j)
  {
    hide IsState;
    EarlierFits(subs, n, row, k);
    assert forall i | 0 <= i < |row.cols| :: row.cols[i][k..][j..] == row.cols[i][k + j..];
    assert Earlier(Earlier(row, k), j).cols == Earlier(row, k + j).cols;
  }
}
