/**
 * When an aggregate is rebuilt right from what is stored.
 *
 * An aggregate or average takes the states of all stored expressions that print
 * like it.  This is right only if exactly one does and takes the same from every
 * point: one that is stored twice is counted twice, and averages print without
 * their weight.  `IsRightIff`, `CopiesIff` and `WeightIff` give the exact
 * conditions, for all histories and prior states.
 */
module StoredLeaves {
  import opened Wrappers
  import opened Accumulators
  import opened SubMergers

  predicate IsLeaf(e: Expr) {
    Sized(e) && (e.Aggregate? || e.Average?)
  }

  /** A weight and an amount, or nothing; aggregates have no weight. */
  type Taking = Option<(real, real)>

  /** What a leaf takes from a point. */
  function Takes(sem: Conditions, e: Expr, p: Point): Taking
    requires IsLeaf(e)
  {
    var (value, updated) := Delta(sem, if e.Aggregate? then e.wrapped else e.val, p);
    if !updated then None
    else if e.Aggregate? then Some((0.0, if e.fn.Count? then 1.0 else value))
    else var weight := Delta(sem, e.weight, p).0; Some((weight, Weigh(value, weight)))
  }

  predicate Fitting(e: Expr, t: Taking) {
    e.Aggregate? && t.Some? ==> t.value.0 == 0.0
  }

  /** The state that holds what was taken. */
  function Cell(e: Expr, t: Taking): (b: Bytes)
    requires IsLeaf(e)
    ensures |b| == EncodedWidth(e)
  {
    if e.Average? then AverageCell(t) else AggregateCell(if t.Some? then Some(t.value.1) else None)
  }

  /** Taking twice. */
  function Join(e: Expr, a: Taking, b: Taking): Taking
    requires IsLeaf(e)
  {
    if a.None? then b else if b.None? then a
    else if e.Average? then Some((a.value.0 + b.value.0, a.value.1 + b.value.1))
    else Some((0.0, MergeValue(e.fn, true, a.value.1, b.value.1)))
  }

  lemma MergeCells(e: Expr, a: Taking, b: Taking)
    requires IsLeaf(e)
    ensures IsState(e, Cell(e, a)) && Merge(e, Cell(e, a), Cell(e, b)) == Cell(e, Join(e, a, b))
  {
    hide Merge;
    if e.Average? {
      MergeAverages(e, a, b);
      LoadSaved(0.0, if a.Some? then a.value.0 else 0.0, if a.Some? then a.value.1 else 0.0);
    } else {
      MergeAggregates(e, if a.Some? then Some(a.value.1) else None, if b.Some? then Some(b.value.1) else None);
      LoadSaved(if a.Some? then a.value.1 else 0.0, 0.0, 0.0);
    }
  }

  lemma CellsDiffer(e: Expr, a: Taking, b: Taking)
    requires IsLeaf(e) && Fitting(e, a) && Fitting(e, b) && Cell(e, a) == Cell(e, b)
    ensures a == b
  {
    hide AverageCell, AggregateCell;
    assert e.Average? ==> LoadAverage(Cell(e, a)) == LoadAverage(Cell(e, b));
    assert e.Aggregate? ==> Load(Cell(e, a)) == Load(Cell(e, b));
  }

  lemma StateOfPoint(sem: Conditions, e: Expr, p: Point)
    requires IsLeaf(e)
    ensures State(sem, e, [p]) == Cell(e, Takes(sem, e, p)) && Fitting(e, Takes(sem, e, p))
  {
    assert [p][..0] == [];
    assert State(sem, e, [p]) == Update(sem, e, Zeros(EncodedWidth(e)), p);
    LoadSaved(0.0, 0.0, 0.0);
  }

  // ---------------------------------------------------------------- what the matches hold

  /** The stored expressions that an expression takes for itself. */
  function Matching(e: Expr, subs: seq<Expr>): (r: seq<Expr>)
    ensures forall m | m in r :: m in subs && Matches(e, m)
  {
    if subs == [] then [] else (if Matches(e, subs[0]) then [subs[0]] else []) + Matching(e, subs[1..])
  }

  predicate AllSized(subs: seq<Expr>) {
    forall s | s in subs :: Sized(s)
  }

  /** Stored expressions of the same kind as a leaf. */
  predicate AllKin(e: Expr, ms: seq<Expr>)
    requires IsLeaf(e)
  {
    forall i | 0 <= i < |ms| :: Kin(e, ms[i])
  }

  predicate Kin(e: Expr, m: Expr)
    requires IsLeaf(e)
  {
    IsLeaf(m) && (e.Average? <==> m.Average?) && (e.Aggregate? ==> e.fn == m.fn)
  }

  lemma MatchesAreKin(e: Expr, subs: seq<Expr>)
    requires IsLeaf(e) && AllSized(subs)
    ensures AllKin(e, Matching(e, subs))
  {
    forall i | 0 <= i < |Matching(e, subs)| ensures Kin(e, Matching(e, subs)[i]) {
      assert Matching(e, subs)[i] in Matching(e, subs);
    }
  }

  lemma KinCells(e: Expr, m: Expr, t: Taking)
    requires IsLeaf(e) && Kin(e, m)
    ensures Cell(e, t) == Cell(m, t) && EncodedWidth(e) == EncodedWidth(m)
  {
  }

  /** What matching expressions hold together after some points. */
  function Held(sem: Conditions, e: Expr, ms: seq<Expr>, points: seq<Point>): (r: Bytes)
    requires IsLeaf(e) && AllKin(e, ms)
    ensures |r| == EncodedWidth(e)
  {
    if ms == [] then Zeros(EncodedWidth(e))
    else
      assert Kin(e, ms[0]);
      Merge(e, State(sem, ms[0], points), Held(sem, e, ms[1..], points))
  }

  /** What they take from one point together. */
  function TakeAll(sem: Conditions, e: Expr, ms: seq<Expr>, p: Point): Taking
    requires IsLeaf(e) && AllKin(e, ms)
  {
    if ms == [] then None
    else
      assert Kin(e, ms[0]);
      Join(e, Takes(sem, ms[0], p), TakeAll(sem, e, ms[1..], p))
  }

  lemma KinState(sem: Conditions, e: Expr, m: Expr, points: seq<Point>)
    requires IsLeaf(e) && Kin(e, m)
    ensures IsState(e, State(sem, m, points))
  {
    StateIsState(sem, m, points);
  }

  lemma {:induction false} HeldIsState(sem: Conditions, e: Expr, ms: seq<Expr>, points: seq<Point>)
    requires IsLeaf(e) && AllKin(e, ms)
    ensures IsState(e, Held(sem, e, ms, points))
  {
    hide Merge, IsState;
    if ms == [] {
      ZerosAreState(e);
    } else {
      HeldIsState(sem, e, ms[1..], points);
      assert Kin(e, ms[0]);
      KinState(sem, e, ms[0], points);
      MergeInPlace(e, State(sem, ms[0], points), Held(sem, e, ms[1..], points));
    }
  }

  /** Submerging all matches adds what they hold. */
  lemma {:induction false} MatchesAdd(c: Context, e: Expr, subs: seq<Expr>, h: seq<seq<Point>>, x: Bytes)
    requires IsLeaf(e) && AllSized(subs) && h != [] && IsState(e, x)
    ensures AllKin(e, Matching(e, subs))
    ensures ApplyAll(c, AllMatches(e, subs), x, StoredAll(c.sem, subs, c.otherRes, h))
            == Merge(e, x, Held(c.sem, e, Matching(e, subs), h[0]))
  {
    hide Merge, MergeInto, Expected, IsState, State, Matches, Kin;
    MatchesAreKin(e, subs);
    if subs == [] {
      MergeIdentity(e, x);
      assert Held(c.sem, e, Matching(e, subs), h[0]) == Zeros(EncodedWidth(e));
    } else {
      var sms, others := AllMatches(e, subs), StoredAll(c.sem, subs, c.otherRes, h);
      assert sms[1..] == AllMatches(e, subs[1..]);
      assert others[1..] == StoredAll(c.sem, subs[1..], c.otherRes, h);
      if Matches(e, subs[0]) {
        FirstMatchAdds(c, e, subs, h, x);
        var y, ms := State(c.sem, subs[0], h[0]), Matching(e, subs);
        assert ms[1..] == Matching(e, subs[1..]);
        MatchesAdd(c, e, subs[1..], h, Merge(e, x, y));
        HeldIsState(c.sem, e, ms[1..], h[0]);
        MergeAssociates(e, x, y, Held(c.sem, e, ms[1..], h[0]));
      } else {
        assert Matching(e, subs) == Matching(e, subs[1..]);
        MatchesAdd(c, e, subs[1..], h, x);
      }
    }
  }

  lemma FirstMatchAdds(c: Context, e: Expr, subs: seq<Expr>, h: seq<seq<Point>>, x: Bytes)
    requires IsLeaf(e) && AllSized(subs) && h != [] && IsState(e, x) && subs != [] && Matches(e, subs[0])
    ensures Kin(e, subs[0]) && IsState(e, State(c.sem, subs[0], h[0]))
            && IsState(e, Merge(e, x, State(c.sem, subs[0], h[0])))
    ensures Apply(c, AllMatches(e, subs)[0], x, StoredAll(c.sem, subs, c.otherRes, h)[0])
            == Merge(e, x, State(c.sem, subs[0], h[0]))
  {
    hide Merge, MergeInto, IsState, State;
    var m := subs[0];
    assert m in subs;
    var stored := StoredAll(c.sem, subs, c.otherRes, h)[0];
    assert h[0..] == h;
    assert stored[0] == State(c.sem, m, h[0]);
    KinState(c.sem, e, m, h[0]);
    MergeInPlace(e, x, stored[0]);
  }

  /** What is held after two lists of points is the merge of what is held after each. */
  lemma {:induction false} HeldConcat(sem: Conditions, e: Expr, ms: seq<Expr>, us: seq<Point>, vs: seq<Point>)
    requires IsLeaf(e) && AllKin(e, ms)
    ensures Held(sem, e, ms, us + vs) == Merge(e, Held(sem, e, ms, us), Held(sem, e, ms, vs))
  {
    hide Merge, IsState, State;
    if ms == [] {
      ZerosAreState(e);
      MergeIdentity(e, Zeros(EncodedWidth(e)));
    } else {
      var m, rest := ms[0], ms[1..];
      assert Kin(e, m);
      HeldConcat(sem, e, rest, us, vs);
      KinConcat(sem, e, m, us, vs);
      KinState(sem, e, m, us);
      KinState(sem, e, m, vs);
      HeldIsState(sem, e, rest, us);
      HeldIsState(sem, e, rest, vs);
      Swap(e, State(sem, m, us), State(sem, m, vs), Held(sem, e, rest, us), Held(sem, e, rest, vs));
    }
  }

  lemma KinConcat(sem: Conditions, e: Expr, m: Expr, us: seq<Point>, vs: seq<Point>)
    requires IsLeaf(e) && Kin(e, m)
    ensures State(sem, m, us + vs) == Merge(e, State(sem, m, us), State(sem, m, vs))
  {
    hide State;
    MergeIsConcat(sem, m, us, vs);
  }

  lemma Swap(e: Expr, a: Bytes, b: Bytes, x: Bytes, y: Bytes)
    requires Sized(e) && IsState(e, a) && IsState(e, b) && IsState(e, x) && IsState(e, y)
    ensures Merge(e, Merge(e, a, b), Merge(e, x, y)) == Merge(e, Merge(e, a, x), Merge(e, b, y))
  {
    hide Merge, IsState;
    MergeInPlace(e, x, y);
    MergeInPlace(e, b, y);
    MergeInPlace(e, b, x);
    MergeAssociates(e, a, b, Merge(e, x, y));
    MergeAssociates(e, b, x, y);
    MergeCommutes(e, b, x);
    MergeAssociates(e, x, b, y);
    MergeAssociates(e, a, x, Merge(e, b, y));
  }

  lemma {:induction false} HeldPoint(sem: Conditions, e: Expr, ms: seq<Expr>, p: Point)
    requires IsLeaf(e) && AllKin(e, ms)
    ensures Held(sem, e, ms, [p]) == Cell(e, TakeAll(sem, e, ms, p)) && Fitting(e, TakeAll(sem, e, ms, p))
  {
    hide Merge, State, Takes, Cell;
    if ms == [] {
      NothingTaken(e);
    } else {
      assert Kin(e, ms[0]);
      HeldPoint(sem, e, ms[1..], p);
      StateOfPoint(sem, ms[0], p);
      KinCells(e, ms[0], Takes(sem, ms[0], p));
      MergeCells(e, Takes(sem, ms[0], p), TakeAll(sem, e, ms[1..], p));
    }
  }

  lemma NothingTaken(e: Expr)
    requires IsLeaf(e)
    ensures Cell(e, None) == Zeros(EncodedWidth(e))
  {
  }

  // ---------------------------------------------------------------- when it is right

  /** Rebuilding adds what should be added, whatever was stored and was there before. */
  ghost predicate IsRight(c: Context, e: Expr, subs: seq<Expr>)
    requires Sized(e) && AllSized(subs)
  {
    forall h: seq<seq<Point>>, x: Bytes | h != [] && IsState(e, x) ::
      ApplyAll(c, SubMergersOf(e, subs), x, StoredAll(c.sem, subs, c.otherRes, h))
        == Merge(e, x, Expected(c.sem, e, c.otherRes, h))
  }

  /** Rebuilding a leaf is right exactly when, from every single point, the matches together take what it takes. */
  lemma IsRightIff(c: Context, e: Expr, subs: seq<Expr>)
    requires IsLeaf(e) && AllSized(subs)
    ensures AllKin(e, Matching(e, subs))
    ensures IsRight(c, e, subs) <==> forall p :: TakeAll(c.sem, e, Matching(e, subs), p) == Takes(c.sem, e, p)
  {
    hide Merge, IsState, State, Takes, ApplyAll, TakeAll, Held;
    var ms := Matching(e, subs);
    MatchesAreKin(e, subs);
    if IsRight(c, e, subs) {
      forall p ensures TakeAll(c.sem, e, ms, p) == Takes(c.sem, e, p) { RightTakes(c, e, subs, p); }
    }
    if forall p :: TakeAll(c.sem, e, ms, p) == Takes(c.sem, e, p) {
      forall h: seq<seq<Point>>, x: Bytes | h != [] && IsState(e, x)
        ensures ApplyAll(c, SubMergersOf(e, subs), x, StoredAll(c.sem, subs, c.otherRes, h))
                == Merge(e, x, Expected(c.sem, e, c.otherRes, h))
      {
        MatchesAdd(c, e, subs, h, x);
        HeldIsHeld(c.sem, e, ms, h[0]);
      }
    }
  }

  lemma RightTakes(c: Context, e: Expr, subs: seq<Expr>, p: Point)
    requires IsLeaf(e) && AllSized(subs) && IsRight(c, e, subs)
    ensures AllKin(e, Matching(e, subs)) && TakeAll(c.sem, e, Matching(e, subs), p) == Takes(c.sem, e, p)
  {
    hide Merge, IsState, State, Takes, ApplyAll, TakeAll, Held, Cell;
    var ms, x, h := Matching(e, subs), Zeros(EncodedWidth(e)), [[p]];
    ZerosAreState(e);
    MatchesAdd(c, e, subs, h, x);
    HeldIsState(c.sem, e, ms, [p]);
    StateIsState(c.sem, e, [p]);
    MergeIdentity(e, Held(c.sem, e, ms, [p]));
    MergeIdentity(e, State(c.sem, e, [p]));
    assert Expected(c.sem, e, c.otherRes, h) == State(c.sem, e, [p]);
    HeldPoint(c.sem, e, ms, p);
    StateOfPoint(c.sem, e, p);
    CellsDiffer(e, TakeAll(c.sem, e, ms, p), Takes(c.sem, e, p));
  }

  /** If every point is taken as it should be, every list of points is. */
  lemma {:induction false} HeldIsHeld(sem: Conditions, e: Expr, ms: seq<Expr>, points: seq<Point>)
    requires IsLeaf(e) && AllKin(e, ms) && forall p :: TakeAll(sem, e, ms, p) == Takes(sem, e, p)
    ensures Held(sem, e, ms, points) == State(sem, e, points)
  {
    hide Merge, IsState, Takes, TakeAll, Held, Cell, Update;
    if points == [] {
      HeldNothing(sem, e, ms);
    } else {
      var n := |points| - 1;
      var init, p := points[..n], points[n];
      HeldIsHeld(sem, e, ms, init);
      assert points == init + [p];
      HeldConcat(sem, e, ms, init, [p]);
      HeldPoint(sem, e, ms, p);
      StateOfPoint(sem, e, p);
      MergeIsConcat(sem, e, init, [p]);
    }
  }

  lemma {:induction false} HeldNothing(sem: Conditions, e: Expr, ms: seq<Expr>)
    requires IsLeaf(e) && AllKin(e, ms)
    ensures Held(sem, e, ms, []) == Zeros(EncodedWidth(e))
  {
    if ms != [] {
      HeldNothing(sem, e, ms[1..]);
      assert Kin(e, ms[0]);
      ZerosAreState(e);
      MergeIdentity(e, Zeros(EncodedWidth(e)));
    }
  }

  // ---------------------------------------------------------------- stored more than once

  /** Takes the same from every point. */
  ghost predicate Alike(sem: Conditions, e: Expr, m: Expr)
    requires IsLeaf(e) && IsLeaf(m)
  {
    forall p :: Takes(sem, e, p) == Takes(sem, m, p)
  }

  /** Takes nothing from any point, like SUM(1). */
  ghost predicate Silent(sem: Conditions, e: Expr)
    requires IsLeaf(e)
  {
    forall p :: Takes(sem, e, p).None?
  }

  /** Takes only zeros, like an average with weight 0. */
  ghost predicate Weightless(sem: Conditions, e: Expr)
    requires IsLeaf(e)
  {
    forall p :: Takes(sem, e, p).None? || Takes(sem, e, p).value == (0.0, 0.0)
  }

  predicate IsExtreme(e: Expr) {
    e.Aggregate? && (e.fn.Min? || e.fn.Max?)
  }

  function Times(e: Expr, k: nat, t: Taking): Taking
    requires IsLeaf(e)
  {
    if k == 0 then None else Join(e, t, Times(e, k - 1, t))
  }

  function Multiple(k: nat, v: real): real {
    if k == 0 then 0.0 else v + Multiple(k - 1, v)
  }

  lemma {:induction false} TimesIs(e: Expr, k: nat, t: Taking)
    requires IsLeaf(e) && Fitting(e, t)
    ensures Times(e, k, t) == if k == 0 || t.None? then None else if IsExtreme(e) then t
                              else Some((Multiple(k, t.value.0), Multiple(k, t.value.1)))
  {
    if k > 0 { TimesIs(e, k - 1, t); }
  }

  lemma {:induction false} MultipleIs(k: nat, v: real)
    ensures Multiple(k, v) == k as real * v
  {
    if k > 0 { MultipleIs(k - 1, v); }
  }

  lemma {:induction false} AlikeTakeAll(sem: Conditions, e: Expr, ms: seq<Expr>, p: Point)
    requires IsLeaf(e) && AllKin(e, ms) && forall i | 0 <= i < |ms| :: Takes(sem, ms[i], p) == Takes(sem, e, p)
    ensures TakeAll(sem, e, ms, p) == Times(e, |ms|, Takes(sem, e, p))
  {
    if ms != [] { AlikeTakeAll(sem, e, ms[1..], p); }
  }

  /**
   * If all matches take what the leaf takes, rebuilding is right exactly when
   * there is one, or several that do not add up: extremes, or only zeros.
   */
  lemma CopiesIff(c: Context, e: Expr, subs: seq<Expr>)
    requires IsLeaf(e) && AllSized(subs) && AllKin(e, Matching(e, subs))
             && forall m | m in Matching(e, subs) :: Alike(c.sem, e, m)
    ensures IsRight(c, e, subs) <==>
            var k := |Matching(e, subs)|;
            k == 1 || Silent(c.sem, e) || (k >= 1 && (IsExtreme(e) || Weightless(c.sem, e)))
  {
    hide IsRight, TakeAll, Takes, Times, Join;
    IsRightIff(c, e, subs);
    var ms := Matching(e, subs);
    var k := |ms|;
    forall p ensures TakeAll(c.sem, e, ms, p) == Times(e, k, Takes(c.sem, e, p)) && Fitting(e, Takes(c.sem, e, p)) {
      assert forall i | 0 <= i < |ms| :: ms[i] in ms && Alike(c.sem, e, ms[i]);
      AlikeTakeAll(c.sem, e, ms, p);
      StateOfPoint(c.sem, e, p);
    }
    forall p ensures Times(e, k, Takes(c.sem, e, p)) == Takes(c.sem, e, p) <==>
                     var t := Takes(c.sem, e, p);
                       t.None? || k == 1 || (k >= 1 && (IsExtreme(e) || t.value == (0.0, 0.0)))
    {
      CopiesOf(e, k, Takes(c.sem, e, p));
    }
  }

  lemma CopiesOf(e: Expr, k: nat, t: Taking)
    requires IsLeaf(e) && Fitting(e, t)
    ensures Times(e, k, t) == t <==> t.None? || k == 1 || (k >= 1 && (IsExtreme(e) || t.value == (0.0, 0.0)))
  {
    TimesIs(e, k, t);
    if t.Some? && k >= 2 {
      SameMultiple(k, t.value.0);
      SameMultiple(k, t.value.1);
    }
  }

  lemma SameMultiple(k: nat, v: real)
    requires k >= 2
    ensures Multiple(k, v) == v <==> v == 0.0
  {
    MultipleIs(k, v);
    assert k as real * v - v == (k - 1) as real * v;
  }

  /** An aggregate of a field is rebuilt right exactly when it is stored once, or an extreme at least once. */
  lemma FieldIff(c: Context, fn: Aggregator, name: string, subs: seq<Expr>)
    requires AllSized(subs)
    ensures var e := Aggregate(fn, Field(name)); var k := |Matching(e, subs)|;
            IsRight(c, e, subs) <==> k == 1 || (k >= 1 && IsExtreme(e))
  {
    hide IsRight, Takes;
    var e, p := Aggregate(fn, Field(name)), Point(map[name := 1.0], None);
    MatchesAreKin(e, subs);
    forall m | m in Matching(e, subs) ensures m == e { FieldMatches(fn, name, m); }
    assert Takes(c.sem, e, p) == Some((0.0, 1.0)) by { FieldTakes(c.sem, fn, name); }
    CopiesIff(c, e, subs);
  }

  lemma FieldMatches(fn: Aggregator, name: string, m: Expr)
    requires Matches(Aggregate(fn, Field(name)), m)
    ensures m == Aggregate(fn, Field(name))
  {
    var e := Aggregate(fn, Field(name));
    MatchesIff(e, m);
    assert PrintAlike(Field(name), m.wrapped);
  }

  lemma FieldTakes(sem: Conditions, fn: Aggregator, name: string)
    ensures Takes(sem, Aggregate(fn, Field(name)), Point(map[name := 1.0], None)) == Some((0.0, 1.0))
  {
  }

  // ---------------------------------------------------------------- names that mistake

  /** With one match, rebuilding is right exactly when it takes the same from every point, weights included. */
  lemma WeightIff(c: Context, e: Expr, subs: seq<Expr>, m: Expr)
    requires IsLeaf(e) && IsLeaf(m) && AllSized(subs) && Matching(e, subs) == [m]
    ensures IsRight(c, e, subs) <==> Alike(c.sem, e, m)
  {
    hide IsRight, Takes;
    IsRightIff(c, e, subs);
    forall p ensures TakeAll(c.sem, e, [m], p) == Takes(c.sem, m, p) { assert [m][1..] == []; }
  }

  /** Weights that are read off a point. */
  predicate IsWeight(e: Expr) {
    e.Field? || e.Const?
  }

  /**
   * With one match, an average of a field weighted by a field or a constant is
   * rebuilt right exactly when the weights are the same.
   */
  lemma FieldWeightIff(c: Context, name: string, asked: Expr, stored: Expr, subs: seq<Expr>)
    requires IsWeight(asked) && IsWeight(stored) && AllSized(subs)
    requires Matching(Average(Field(name), asked), subs) == [Average(Field(name), stored)]
    ensures IsRight(c, Average(Field(name), asked), subs) <==> asked == stored
  {
    hide IsRight, Matching;
    var e, m := Average(Field(name), asked), Average(Field(name), stored);
    WeightIff(c, e, subs, m);
    if asked != stored {
      var p := TellWeights(name, asked, stored);
      WeightsTell(c.sem, name, asked, stored, p);
    }
  }

  /** A point from which both weights are different. */
  lemma TellWeights(name: string, asked: Expr, stored: Expr) returns (p: Point)
    requires IsWeight(asked) && IsWeight(stored) && asked != stored
    ensures name in p.params && forall sem :: Delta(sem, asked, p).0 != Delta(sem, stored, p).0
  {
    var values: map<string, real> := map[name := 1.0];
    if asked.Field? {
      var other := if stored.Const? then stored.value else if stored.name == name then 1.0 else 0.0;
      values := values[asked.name := other + 1.0];
      if stored.Field? && stored.name != name { values := values[stored.name := 0.0]; }
    } else if stored.Field? {
      values := values[stored.name := asked.value + 1.0];
    }
    p := Point(values, None);
  }

  lemma WeightsTell(sem: Conditions, name: string, asked: Expr, stored: Expr, p: Point)
    requires IsWeight(asked) && IsWeight(stored) && name in p.params
             && Delta(sem, asked, p).0 != Delta(sem, stored, p).0
    ensures Takes(sem, Average(Field(name), asked), p) != Takes(sem, Average(Field(name), stored), p)
  {
  }

  lemma MatchingFirst(e: Expr, rest: seq<Expr>)
    ensures Matching(e, [e] + rest) == [e] + Matching(e, rest)
  {
    assert ([e] + rest)[1..] == rest;
  }

  /** SUM(a) stored twice: one point with a = 2 is rebuilt as 4. */
  lemma SumStoredTwice(c: Context)
    ensures var e, h := Aggregate(Sum, Field("a")), [[Point(map["a" := 2.0], None)]];
            && Get(e, Expected(c.sem, e, c.otherRes, h)) == (2.0, true)
            && Get(e, ApplyAll(c, SubMergersOf(e, [e, e]), Zeros(EncodedWidth(e)),
               StoredAll(c.sem, [e, e], c.otherRes, h))) == (4.0, true)
  {
    var e, p := Aggregate(Sum, Field("a")), Point(map["a" := 2.0], None);
    var ms := Matching(e, [e, e]);
    MatchingFirst(e, [e]);
    MatchingFirst(e, []);
    assert [e, e] == [e] + [e] && [e] == [e] + [];
    Rebuilt(c, e, [e, e], p);
    assert ms[1..] == [e] && [e][1..] == [];
    assert TakeAll(c.sem, e, [e], p) == Some((0.0, 2.0));
    assert TakeAll(c.sem, e, ms, p) == Some((0.0, 4.0));
  }

  /** AVG(a) asked of a table that stores WAVG(a, w): from a = 10 with weight 0 it gets the mean of nothing. */
  lemma WeightIsMistaken(c: Context)
    ensures var avg, wavg, h := Average(Field("a"), Const(1.0)), Average(Field("a"), Field("w")),
            [[Point(map["a" := 10.0, "w" := 0.0], None)]];
            && Get(avg, Expected(c.sem, avg, c.otherRes, h)) == (10.0, true)
            && Get(avg, ApplyAll(c, SubMergersOf(avg, [wavg]), Zeros(EncodedWidth(avg)),
               StoredAll(c.sem, [wavg], c.otherRes, h))) == (0.0, true)
  {
    var avg, wavg, p := Average(Field("a"), Const(1.0)), Average(Field("a"), Field("w")),
      Point(map["a" := 10.0, "w" := 0.0], None);
    var ms := Matching(avg, [wavg]);
    assert Matches(avg, wavg);
    assert [wavg][1..] == [] && Matching(avg, []) == [];
    assert ms == [wavg] + [];
    Rebuilt(c, avg, [wavg], p);
    assert ms[1..] == [];
    assert TakeAll(c.sem, avg, ms, p) == Some((0.0, 0.0));
    assert Takes(c.sem, avg, p) == Some((1.0, 10.0));
  }

  /** What is expected of one point, and what is rebuilt. */
  lemma Rebuilt(c: Context, e: Expr, subs: seq<Expr>, p: Point)
    requires IsLeaf(e) && AllSized(subs)
    ensures AllKin(e, Matching(e, subs))
    ensures Expected(c.sem, e, c.otherRes, [[p]]) == Cell(e, Takes(c.sem, e, p))
    ensures ApplyAll(c, SubMergersOf(e, subs), Zeros(EncodedWidth(e)), StoredAll(c.sem, subs, c.otherRes, [[p]]))
            == Cell(e, TakeAll(c.sem, e, Matching(e, subs), p))
  {
    hide Merge, State, Takes, TakeAll, Held, ApplyAll, Cell, IsState;
    var x := Zeros(EncodedWidth(e));
    ZerosAreState(e);
    MatchesAdd(c, e, subs, [[p]], x);
    HeldIsState(c.sem, e, Matching(e, subs), [p]);
    MergeIdentity(e, Held(c.sem, e, Matching(e, subs), [p]));
    HeldPoint(c.sem, e, Matching(e, subs), p);
    StateOfPoint(c.sem, e, p);
  }
}
