/**
 * Rebuilding the state of a composite expression from stored states.
 *
 * A query does not see points, only the states of the expressions a table
 * stores.  `SubMergers` turns each stored expression into an instruction for
 * merging its states into a state of the queried expression.  The main result,
 * `SubMergersRebuild`, is that applying all of them adds exactly what updating
 * the queried expression with the original points would have added.
 */
module SubMergers {
  import opened Wrappers
  import opened Accumulators
  import opened Arithmetic

  /** The closures that SubMergers builds; NoMerge stands for nil. */
  datatype SubMerge =
    | NoMerge
    | Whole(e: Expr)
    | Combined(left: SubMerge, width: nat, right: SubMerge)
    | Conditional(cond: Option<string>, wrapped: SubMerge)
    | Shifted(offset: int, wrapped: SubMerge)

  /** What an expression prints as; constants are printed with six decimals, and averages without their weight. */
  datatype Text =
    | NameText(name: string)
    | NumberText(negative: bool, millionths: nat)
    | BoundedText(wrapped: Text, min: real, max: real)
    | AggregateText(fn: Aggregator, wrapped: Text)
    | AverageText(val: Text)
    | BinaryText(left: Text, op: Operator, right: Text)
    | IfText(cond: Option<string>, wrapped: Text)
    | ShiftText(wrapped: Text, offset: int)

  function Abs(v: real): (r: real)
    ensures r >= 0.0
  {
    if v < 0.0 then -v else v
  }

  /** The nearest whole number, the even one of two. */
  function Nearest(x: real): (n: nat)
    requires x >= 0.0
  {
    var n := x.Floor;
    var rest := x - n as real;
    if rest < 0.5 || (rest == 0.5 && n % 2 == 0) then n else n + 1
  }

  function Printed(e: Expr): Text {
    match e
    case Field(name) => NameText(name)
    case Const(v) => NumberText(v < 0.0, Nearest(Abs(v) * 1000000.0))
    case Bounded(w, min, max) => BoundedText(Printed(w), min, max)
    case Aggregate(fn, w) => AggregateText(fn, Printed(w))
    case Average(v, _) => AverageText(Printed(v))
    case Binary(op, l, r) => BinaryText(Printed(l), op, Printed(r))
    case If(cond, w) => IfText(cond, Printed(w))
    case Shift(w, offset) => ShiftText(Printed(w), offset)
  }

  predicate Matches(e: Expr, sub: Expr) {
    Printed(e) == Printed(sub)
  }

  /** A whole number of millionths that a number is rounded to: none is closer, and of two the even one. */
  predicate RoundsTo(v: real, n: nat) {
    var off := Abs(v) * 1000000.0 - n as real;
    -0.5 <= off <= 0.5 && (off == -0.5 || off == 0.5 ==> n % 2 == 0)
  }

  /** Numbers of the same sign with the same rounding. */
  ghost predicate RoundAlike(v: real, w: real) {
    (v < 0.0) == (w < 0.0) && exists n: nat :: RoundsTo(v, n) && RoundsTo(w, n)
  }

  /** Expressions that are the same but for the weights of averages, and constants that round alike. */
  ghost predicate PrintAlike(e: Expr, s: Expr) {
    match e
    case Field(name) => s == Field(name)
    case Const(v) => s.Const? && RoundAlike(v, s.value)
    case Bounded(w, min, max) => s.Bounded? && s.min == min && s.max == max && PrintAlike(w, s.wrapped)
    case Aggregate(fn, w) => s.Aggregate? && s.fn == fn && PrintAlike(w, s.wrapped)
    case Average(v, _) => s.Average? && PrintAlike(v, s.val)
    case Binary(op, l, r) => s.Binary? && s.op == op && PrintAlike(l, s.left) && PrintAlike(r, s.right)
    case If(cond, w) => s.If? && s.cond == cond && PrintAlike(w, s.wrapped)
    case Shift(w, offset) => s.Shift? && s.offset == offset && PrintAlike(w, s.wrapped)
  }

  lemma NearestIsRounding(v: real)
    ensures forall n: nat :: RoundsTo(v, n) <==> n == Nearest(Abs(v) * 1000000.0)
  {
  }

  lemma RoundAlikeIff(v: real, w: real)
    ensures RoundAlike(v, w) <==>
            (v < 0.0) == (w < 0.0) && Nearest(Abs(v) * 1000000.0) == Nearest(Abs(w) * 1000000.0)
  {
    hide Nearest, RoundsTo;
    NearestIsRounding(v);
    NearestIsRounding(w);
    assert RoundsTo(v, Nearest(Abs(v) * 1000000.0));
  }

  /** Which expressions are taken for each other. */
  lemma {:induction false} MatchesIff(e: Expr, s: Expr)
    ensures Matches(e, s) <==> PrintAlike(e, s)
  {
    hide Nearest, RoundAlike;
    match e
    case Const(v) => if s.Const? { RoundAlikeIff(v, s.value); }
    case Bounded(w, _, _) => if s.Bounded? { MatchesIff(w, s.wrapped); }
    case Aggregate(_, w) => if s.Aggregate? { MatchesIff(w, s.wrapped); }
    case Average(v, _) => if s.Average? { MatchesIff(v, s.val); }
    case Binary(_, l, r) => if s.Binary? { MatchesIff(l, s.left); MatchesIff(r, s.right); }
    case If(_, w) => if s.If? { MatchesIff(w, s.wrapped); }
    case Shift(w, _) => if s.Shift? { MatchesIff(w, s.wrapped); }
    case Field(_) =>
  }

  /** The total shift of an expression, the furthest back of its parts. */
  function ShiftOf(e: Expr): int {
    match e
    case Field(_) => 0
    case Const(_) => 0
    case Bounded(w, _, _) => ShiftOf(w)
    case Aggregate(_, w) => ShiftOf(w)
    case Average(v, weight) => var a, b := ShiftOf(v), ShiftOf(weight); if a < b then a else b
    case Binary(_, l, r) => var a, b := ShiftOf(l), ShiftOf(r); if a < b then a else b
    case If(_, w) => ShiftOf(w)
    case Shift(w, offset) => offset + ShiftOf(w)
  }

  /** The offsets that the parts of an expression are shifted by. */
  function PartOffsets(e: Expr): set<int> {
    match e
    case Field(_) => {0}
    case Const(_) => {0}
    case Bounded(w, _, _) => PartOffsets(w)
    case Aggregate(_, w) => PartOffsets(w)
    case Average(v, weight) => PartOffsets(v) + PartOffsets(weight)
    case Binary(_, l, r) => PartOffsets(l) + PartOffsets(r)
    case If(_, w) => PartOffsets(w)
    case Shift(w, offset) => set o | o in PartOffsets(w) :: o + offset
  }

  /** The total shift is the least of them. */
  lemma {:induction false} ShiftIsLeast(e: Expr)
    ensures ShiftOf(e) in PartOffsets(e) && forall o | o in PartOffsets(e) :: ShiftOf(e) <= o
  {
    match e
    case Bounded(w, _, _) => ShiftIsLeast(w);
    case Aggregate(_, w) => ShiftIsLeast(w);
    case Average(v, weight) => ShiftIsLeast(v); ShiftIsLeast(weight);
    case Binary(_, l, r) => ShiftIsLeast(l); ShiftIsLeast(r);
    case If(_, w) => ShiftIsLeast(w);
    case Shift(w, offset) => ShiftIsLeast(w);
    case _ =>
  }

  function FirstMatch(e: Expr, subs: seq<Expr>): (i: nat)
    ensures i <= |subs|
    ensures i < |subs| ==> Matches(e, subs[i])
    ensures forall j | 0 <= j < i :: !Matches(e, subs[j])
  {
    if subs == [] || Matches(e, subs[0]) then 0 else 1 + FirstMatch(e, subs[1..])
  }

  function Nothing(n: nat): (r: seq<SubMerge>)
    ensures |r| == n
  {
    seq(n, _ => NoMerge)
  }

  function AllMatches(e: Expr, subs: seq<Expr>): (r: seq<SubMerge>)
    ensures |r| == |subs|
  {
    seq(|subs|, i requires 0 <= i < |subs| => if Matches(e, subs[i]) then Whole(e) else NoMerge)
  }

  function Combine(left: SubMerge, width: nat, right: SubMerge): SubMerge {
    if left.NoMerge? && right.NoMerge? then NoMerge else Combined(left, width, right)
  }

  function CombineAll(left: seq<SubMerge>, width: nat, right: seq<SubMerge>): (r: seq<SubMerge>)
    requires |left| == |right|
    ensures |r| == |left|
  {
    seq(|left|, i requires 0 <= i < |left| => Combine(left[i], width, right[i]))
  }

  function ConditionAll(cond: Option<string>, sms: seq<SubMerge>): (r: seq<SubMerge>)
    ensures |r| == |sms|
  {
    seq(|sms|, i requires 0 <= i < |sms| => if sms[i].NoMerge? then NoMerge else Conditional(cond, sms[i]))
  }

  function ShiftAll(offset: int, sms: seq<SubMerge>): (r: seq<SubMerge>)
    ensures |r| == |sms|
  {
    seq(|sms|, i requires 0 <= i < |sms| => if sms[i].NoMerge? then NoMerge else Shifted(offset, sms[i]))
  }

  /** One submerger for each stored expression. */
  function SubMergersOf(e: Expr, subs: seq<Expr>): (r: seq<SubMerge>)
    ensures |r| == |subs|
  {
    match e
    case Field(_) => Nothing(|subs|)
    case Const(_) => Nothing(|subs|)
    case Bounded(w, _, _) => SubMergersOf(w, subs)
    case Aggregate(_, _) => AllMatches(e, subs)
    case Average(_, _) => AllMatches(e, subs)
    case Binary(_, l, r) =>
      var i := FirstMatch(e, subs);
      if i < |subs| then Nothing(|subs|)[i := Whole(e)]
      else CombineAll(SubMergersOf(l, subs), EncodedWidth(l), SubMergersOf(r, subs))
    case If(cond, w) =>
      if FirstMatch(e, subs) < |subs| then AllMatches(e, subs) else ConditionAll(cond, SubMergersOf(w, subs))
    case Shift(w, offset) =>
      if FirstMatch(e, subs) < |subs| then AllMatches(e, subs) else ShiftAll(offset, SubMergersOf(w, subs))
  }

  /** What a submerger is told about a row: how conditions evaluate, the resolution and the dimensions. */
  datatype Context = Context(sem: Conditions, otherRes: Resolution, metadata: Option<Dims>)

  /**
   * Runs a submerger on a state and the periods of a stored sequence, newest
   * first.  A shift skips periods; one that points past the end does nothing.
   * Shapes that SubMergersOf never builds leave the state alone.
   */
  function Apply(c: Context, sm: SubMerge, data: Bytes, other: seq<Bytes>): (r: Bytes)
    ensures |r| == |data|
    decreases sm
  {
    match sm
    case NoMerge => data
    case Whole(e) =>
      if Sized(e) && other != [] && |data| == |other[0]| == EncodedWidth(e) then MergeInto(e, data, data, other[0])
      else data
    case Combined(left, width, right) =>
      if width <= |data| then
        Apply(c, left, data[..width], other)
        + Apply(c, right, data[width..], other)
      else data
    case Conditional(cond, w) =>
      if Include(c.sem, cond, c.metadata) then Apply(c, w, data, other) else data
    case Shifted(offset, w) =>
      var n := -Quot(offset, c.otherRes);
      if 0 <= n < |other| then Apply(c, w, data, other[n..]) else data
  }

  /** Runs all submergers, each on its own stored sequence, as a tree node does. */
  function ApplyAll(c: Context, sms: seq<SubMerge>, data: Bytes, others: seq<seq<Bytes>>): (r: Bytes)
    requires |sms| == |others|
    ensures |r| == |data|
  {
    if sms == [] then data
    else ApplyAll(c, sms[1..], Apply(c, sms[0], data, others[0]), others[1..])
  }

  /** The points of each period, newest period first, that pass a condition. */
  function Filter(sem: Conditions, cond: Option<string>, points: seq<Point>): (r: seq<Point>) {
    if points == [] then []
    else if Include(sem, cond, points[0].metadata) then [points[0]] + Filter(sem, cond, points[1..])
    else Filter(sem, cond, points[1..])
  }

  function FilterPeriods(sem: Conditions, cond: Option<string>, h: seq<seq<Point>>): (r: seq<seq<Point>>)
    ensures |r| == |h|
  {
    seq(|h|, i requires 0 <= i < |h| => Filter(sem, cond, h[i]))
  }

  /**
   * The state an expression should have in a period, given the points of that
   * period and of the ones before it: IF sees the points that pass, SHIFT the
   * points of an earlier period.
   */
  function Expected(sem: Conditions, e: Expr, otherRes: Resolution, h: seq<seq<Point>>): (r: Bytes)
    requires Sized(e)
    ensures |r| == EncodedWidth(e)
  {
    match e
    case Field(_) => []
    case Const(_) => []
    case Bounded(w, _, _) => Expected(sem, w, otherRes, h)
    case Aggregate(_, _) => State(sem, e, if h == [] then [] else h[0])
    case Average(_, _) => State(sem, e, if h == [] then [] else h[0])
    case Binary(_, l, r) => Expected(sem, l, otherRes, h) + Expected(sem, r, otherRes, h)
    case If(cond, w) => Expected(sem, w, otherRes, FilterPeriods(sem, cond, h))
    case Shift(w, offset) =>
      var n := -Quot(offset, otherRes);
      Expected(sem, w, otherRes, if 0 <= n < |h| then h[n..] else [])
  }

  /** The stored sequence of an expression: its state in every period. */
  function Stored(sem: Conditions, e: Expr, otherRes: Resolution, h: seq<seq<Point>>): (r: seq<Bytes>)
    requires Sized(e)
    ensures |r| == |h|
  {
    seq(|h|, p requires 0 <= p < |h| => Expected(sem, e, otherRes, h[p..]))
  }

  function StoredAll(sem: Conditions, subs: seq<Expr>, otherRes: Resolution, h: seq<seq<Point>>): (r: seq<seq<Bytes>>)
    requires forall s | s in subs :: Sized(s)
    ensures |r| == |subs|
  {
    seq(|subs|, i requires 0 <= i < |subs| => Stored(sem, subs[i], otherRes, h))
  }

  /** Every aggregate of the expression can be had from the stored ones, and no name is mistaken. */
  ghost predicate Covers(subs: seq<Expr>, e: Expr) {
    match e
    case Field(_) => true
    case Const(_) => true
    case Bounded(w, _, _) => Covers(subs, w)
    case Aggregate(_, _) => e in subs
    case Average(_, _) => e in subs
    case Binary(_, l, r) => e in subs || (IsUnlike(e, subs) && Covers(subs, l) && Covers(subs, r))
    case If(_, w) => e in subs || (IsUnlike(e, subs) && Covers(subs, w))
    case Shift(w, _) => e in subs || (IsUnlike(e, subs) && Covers(subs, w))
  }

  ghost predicate IsUnlike(e: Expr, subs: seq<Expr>) {
    forall s | s in subs :: !PrintAlike(e, s)
  }

  ghost predicate DistinctNames(subs: seq<Expr>) {
    forall i, j | 0 <= i < j < |subs| :: !PrintAlike(subs[i], subs[j])
  }

  lemma UnlikeIff(e: Expr, subs: seq<Expr>)
    ensures IsUnlike(e, subs) <==> FirstMatch(e, subs) == |subs|
  {
    hide Matches, PrintAlike;
    forall s ensures Matches(e, s) <==> PrintAlike(e, s) { MatchesIff(e, s); }
    var i := FirstMatch(e, subs);
    if i < |subs| { assert subs[i] in subs; }
  }

  /** Stored expressions are taken for no other. */
  lemma NamesTell(subs: seq<Expr>, i: nat, j: nat)
    requires DistinctNames(subs) && i < |subs| && j < |subs|
    ensures Matches(subs[i], subs[j]) <==> i == j
  {
    MatchesIff(subs[i], subs[j]);
    MatchesIff(subs[j], subs[i]);
  }

  /** The conditions that decide about a row hold of its metadata exactly when they hold of its points. */
  predicate Decided(sem: Conditions, e: Expr, subs: seq<Expr>, h: seq<seq<Point>>, metadata: Option<Dims>) {
    match e
    case Field(_) => true
    case Const(_) => true
    case Bounded(w, _, _) => Decided(sem, w, subs, h, metadata)
    case Aggregate(_, _) => true
    case Average(_, _) => true
    case Binary(_, l, r) =>
      e in subs || (Decided(sem, l, subs, h, metadata) && Decided(sem, r, subs, h, metadata))
    case If(cond, w) =>
      e in subs || (DecidedBy(sem, cond, h, metadata) && Decided(sem, w, subs, h, metadata))
    case Shift(w, _) => e in subs || Decided(sem, w, subs, h, metadata)
  }

  predicate DecidedBy(sem: Conditions, cond: Option<string>, h: seq<seq<Point>>, metadata: Option<Dims>) {
    forall p, i | 0 <= p < |h| && 0 <= i < |h[p]| ::
      Include(sem, cond, h[p][i].metadata) == Include(sem, cond, metadata)
  }

  // ---------------------------------------------------------------- lemmas about the pieces

  lemma {:induction false} ExpectedIsState(sem: Conditions, e: Expr, otherRes: Resolution, h: seq<seq<Point>>)
    requires Sized(e)
    ensures IsState(e, Expected(sem, e, otherRes, h))
  {
    match e
    case Bounded(w, _, _) => ExpectedIsState(sem, w, otherRes, h);
    case Aggregate(_, _) => StateIsState(sem, e, if h == [] then [] else h[0]);
    case Average(_, _) => StateIsState(sem, e, if h == [] then [] else h[0]);
    case Binary(_, l, r) =>
      ExpectedIsState(sem, l, otherRes, h);
      ExpectedIsState(sem, r, otherRes, h);
      var x := Expected(sem, e, otherRes, h);
      assert x[..EncodedWidth(l)] == Expected(sem, l, otherRes, h);
      assert x[EncodedWidth(l)..] == Expected(sem, r, otherRes, h);
    case If(cond, w) => ExpectedIsState(sem, w, otherRes, FilterPeriods(sem, cond, h));
    case Shift(w, offset) =>
      var n := -Quot(offset, otherRes);
      ExpectedIsState(sem, w, otherRes, if 0 <= n < |h| then h[n..] else []);
    case _ =>
  }

  /** Periods without points leave a state of zeros. */
  lemma {:induction false} ExpectedOfNoPoints(sem: Conditions, e: Expr, otherRes: Resolution, h: seq<seq<Point>>)
    requires Sized(e)
    requires forall p | 0 <= p < |h| :: h[p] == []
    ensures Expected(sem, e, otherRes, h) == Zeros(EncodedWidth(e))
  {
    match e
    case Bounded(w, _, _) => ExpectedOfNoPoints(sem, w, otherRes, h);
    case Binary(_, l, r) =>
      ExpectedOfNoPoints(sem, l, otherRes, h);
      ExpectedOfNoPoints(sem, r, otherRes, h);
      ZerosSplit(EncodedWidth(l), EncodedWidth(r));
    case If(cond, w) => ExpectedOfNoPoints(sem, w, otherRes, FilterPeriods(sem, cond, h));
    case Shift(w, offset) =>
      var n := -Quot(offset, otherRes);
      ExpectedOfNoPoints(sem, w, otherRes, if 0 <= n < |h| then h[n..] else []);
    case _ =>
  }

  lemma {:induction false} FilterAllOrNothing(sem: Conditions, cond: Option<string>, points: seq<Point>, keep: bool)
    requires forall i | 0 <= i < |points| :: Include(sem, cond, points[i].metadata) == keep
    ensures Filter(sem, cond, points) == if keep then points else []
  {
    if points != [] { FilterAllOrNothing(sem, cond, points[1..], keep); }
  }

  lemma {:induction false} ApplyNothing(c: Context, n: nat, data: Bytes, others: seq<seq<Bytes>>)
    requires |others| == n
    ensures ApplyAll(c, Nothing(n), data, others) == data
  {
    if n > 0 {
      assert Nothing(n)[1..] == Nothing(n - 1);
      ApplyNothing(c, n - 1, data, others[1..]);
    }
  }

  lemma {:induction false} ApplyConcat(c: Context, a: seq<SubMerge>, b: seq<SubMerge>, data: Bytes,
                                       oa: seq<seq<Bytes>>, ob: seq<seq<Bytes>>)
    requires |a| == |oa| && |b| == |ob|
    ensures ApplyAll(c, a + b, data, oa + ob)
            == ApplyAll(c, b, ApplyAll(c, a, data, oa), ob)
  {
    if a == [] {
      assert a + b == b && oa + ob == ob;
    } else {
      assert (a + b)[1..] == a[1..] + b && (oa + ob)[1..] == oa[1..] + ob;
      ApplyConcat(c, a[1..], b, Apply(c, a[0], data, oa[0]), oa[1..], ob);
    }
  }

  /** Only the submerger at i does anything. */
  lemma ApplyOne(c: Context, sms: seq<SubMerge>, i: nat, data: Bytes, others: seq<seq<Bytes>>)
    requires |sms| == |others| && i < |sms|
    requires forall j | 0 <= j < |sms| && j != i :: sms[j] == NoMerge
    ensures ApplyAll(c, sms, data, others) == Apply(c, sms[i], data, others[i])
  {
    var rest := |sms| - i - 1;
    assert sms == Nothing(i) + ([sms[i]] + Nothing(rest));
    assert others == others[..i] + ([others[i]] + others[i + 1..]);
    ApplyConcat(c, Nothing(i), [sms[i]] + Nothing(rest), data, others[..i], [others[i]] + others[i + 1..]);
    ApplyNothing(c, i, data, others[..i]);
    var next := Apply(c, sms[i], data, others[i]);
    assert ([sms[i]] + Nothing(rest))[1..] == Nothing(rest);
    assert ([others[i]] + others[i + 1..])[1..] == others[i + 1..];
    ApplyNothing(c, rest, next, others[i + 1..]);
  }

  lemma {:induction false} ApplyCombined(c: Context, left: seq<SubMerge>, n: nat, right: seq<SubMerge>, data: Bytes,
                                         others: seq<seq<Bytes>>)
    requires |left| == |right| == |others| && n <= |data|
    ensures ApplyAll(c, CombineAll(left, n, right), data, others)
            == ApplyAll(c, left, data[..n], others) + ApplyAll(c, right, data[n..], others)
  {
    if left == [] {
      assert data == data[..n] + data[n..];
    } else {
      var sms := CombineAll(left, n, right);
      assert sms[1..] == CombineAll(left[1..], n, right[1..]);
      var l, r := Apply(c, left[0], data[..n], others[0]), Apply(c, right[0], data[n..], others[0]);
      var next := Apply(c, sms[0], data, others[0]);
      assert next == l + r by { assert data == data[..n] + data[n..]; }
      assert next[..n] == l && next[n..] == r;
      ApplyCombined(c, left[1..], n, right[1..], next, others[1..]);
    }
  }

  lemma {:induction false} ApplyConditional(c: Context, cond: Option<string>, sms: seq<SubMerge>, data: Bytes,
                                            others: seq<seq<Bytes>>)
    requires |sms| == |others|
    ensures ApplyAll(c, ConditionAll(cond, sms), data, others)
            == if Include(c.sem, cond, c.metadata) then ApplyAll(c, sms, data, others) else data
  {
    if sms != [] {
      var next := Apply(c, ConditionAll(cond, sms)[0], data, others[0]);
      assert ConditionAll(cond, sms)[1..] == ConditionAll(cond, sms[1..]);
      ApplyConditional(c, cond, sms[1..], next, others[1..]);
    }
  }

  lemma {:induction false} ApplyShifted(c: Context, offset: int, sms: seq<SubMerge>, data: Bytes,
                                        subs: seq<Expr>, h: seq<seq<Point>>)
    requires |sms| == |subs| && forall s | s in subs :: Sized(s)
    ensures var n := -Quot(offset, c.otherRes);
            ApplyAll(c, ShiftAll(offset, sms), data, StoredAll(c.sem, subs, c.otherRes, h))
            == if 0 <= n < |h| then ApplyAll(c, sms, data, StoredAll(c.sem, subs, c.otherRes, h[n..])) else data
  {
    if sms != [] {
      var n := -Quot(offset, c.otherRes);
      var all := StoredAll(c.sem, subs, c.otherRes, h);
      var next := Apply(c, ShiftAll(offset, sms)[0], data, all[0]);
      assert ShiftAll(offset, sms)[1..] == ShiftAll(offset, sms[1..]);
      assert all[1..] == StoredAll(c.sem, subs[1..], c.otherRes, h);
      ApplyShifted(c, offset, sms[1..], next, subs[1..], h);
      if 0 <= n < |h| {
        StoredSuffix(c.sem, subs[0], c.otherRes, h, n);
        assert StoredAll(c.sem, subs, c.otherRes, h[n..])[1..] == StoredAll(c.sem, subs[1..], c.otherRes, h[n..]);
      }
    }
  }

  lemma StoredSuffix(sem: Conditions, e: Expr, otherRes: Resolution, h: seq<seq<Point>>, n: nat)
    requires Sized(e) && n <= |h|
    ensures Stored(sem, e, otherRes, h)[n..] == Stored(sem, e, otherRes, h[n..])
  {
    assert forall p | 0 <= p < |h| - n :: h[n..][p..] == h[n + p..];
  }

  // ---------------------------------------------------------------- rebuilding

  /** A stored expression is its own and only match, and merging it adds its state. */
  lemma WholeMerges(c: Context, e: Expr, sms: seq<SubMerge>, subs: seq<Expr>, h: seq<seq<Point>>, x: Bytes)
    requires Sized(e) && (forall s | s in subs :: Sized(s)) && h != [] && IsState(e, x)
    requires e in subs && DistinctNames(subs) && |sms| == |subs|
    requires forall i | 0 <= i < |subs| :: sms[i] == if Matches(e, subs[i]) then Whole(e) else NoMerge
    ensures ApplyAll(c, sms, x, StoredAll(c.sem, subs, c.otherRes, h)) == Merge(e, x, Expected(c.sem, e, c.otherRes, h))
  {
    hide Merge, MergeInto, ApplyAll, Expected, Printed, PrintAlike;
    var i :| 0 <= i < |subs| && subs[i] == e;
    forall j | 0 <= j < |subs| ensures Matches(e, subs[j]) <==> i == j { NamesTell(subs, i, j); }
    var others := StoredAll(c.sem, subs, c.otherRes, h);
    assert others[i][0] == Expected(c.sem, e, c.otherRes, h) by { assert h[0..] == h; }
    ApplyOne(c, sms, i, x, others);
    ExpectedIsState(c.sem, e, c.otherRes, h);
    MergeInPlace(e, x, Expected(c.sem, e, c.otherRes, h));
  }

  /** An expression that is stored is merged whole, from where it is stored. */
  lemma OwnMergers(e: Expr, subs: seq<Expr>)
    requires e in subs && DistinctNames(subs) && !e.Bounded? && !e.Field? && !e.Const?
    ensures forall i | 0 <= i < |subs| ::
              SubMergersOf(e, subs)[i] == if Matches(e, subs[i]) then Whole(e) else NoMerge
  {
    hide Matches, DistinctNames;
    var k :| 0 <= k < |subs| && subs[k] == e;
    forall j | 0 <= j < |subs| ensures Matches(e, subs[j]) <==> k == j { NamesTell(subs, k, j); }
    assert FirstMatch(e, subs) == k;
  }

  /**
   * Applying the submergers of all stored expressions to a state adds what
   * updating the composite expression with the stored points would have added;
   * a stored match of the whole expression is never counted again with its parts.
   */
  lemma {:induction false} SubMergersRebuild(c: Context, e: Expr, subs: seq<Expr>, h: seq<seq<Point>>, x: Bytes)
    requires Sized(e) && (forall s | s in subs :: Sized(s)) && h != [] && IsState(e, x)
    requires Covers(subs, e) && DistinctNames(subs) && Decided(c.sem, e, subs, h, c.metadata)
    ensures ApplyAll(c, SubMergersOf(e, subs), x, StoredAll(c.sem, subs, c.otherRes, h))
            == Merge(e, x, Expected(c.sem, e, c.otherRes, h))
    decreases e, 1
  {
    var sms := SubMergersOf(e, subs);
    var others := StoredAll(c.sem, subs, c.otherRes, h);
    if e in subs && !e.Bounded? && !e.Field? && !e.Const? {
      OwnMergers(e, subs);
      WholeMerges(c, e, sms, subs, h, x);
    } else {
      match e
      case Field(_) => ApplyNothing(c, |subs|, x, others);
      case Const(_) => ApplyNothing(c, |subs|, x, others);
      case Bounded(w, _, _) => SubMergersRebuild(c, w, subs, h, x);
      case Binary(_, l, r) => RebuildBinary(c, e, subs, h, x);
      case If(cond, w) => RebuildIf(c, e, subs, h, x);
      case Shift(w, offset) => RebuildShift(c, e, subs, h, x);
    }
  }

  /** How often an expression is stored. */
  function Copies(e: Expr, subs: seq<Expr>): nat {
    if subs == [] then 0 else (if subs[0] == e then 1 else 0) + Copies(e, subs[1..])
  }

  /** A state merged into another so many times. */
  function Repeated(e: Expr, x: Bytes, y: Bytes, k: nat): (r: Bytes)
    requires Sized(e) && |x| == |y| == EncodedWidth(e)
    ensures |r| == EncodedWidth(e)
    decreases k
  {
    if k == 0 then x else Repeated(e, Merge(e, x, y), y, k - 1)
  }

  /** Stored expressions are the queried one or unlike it. */
  ghost predicate OnlyCopies(e: Expr, subs: seq<Expr>) {
    forall s | s in subs :: s == e || !PrintAlike(e, s)
  }

  /** An expression is merged as often as it is stored, except for binary ones, which are merged once. */
  lemma CopiesAreMerged(c: Context, e: Expr, subs: seq<Expr>, h: seq<seq<Point>>, x: Bytes)
    requires Sized(e) && !e.Bounded? && !e.Field? && !e.Const? && (forall s | s in subs :: Sized(s))
    requires h != [] && IsState(e, x) && OnlyCopies(e, subs) && e in subs
    ensures ApplyAll(c, SubMergersOf(e, subs), x, StoredAll(c.sem, subs, c.otherRes, h))
            == Repeated(e, x, Expected(c.sem, e, c.otherRes, h), if e.Binary? then 1 else Copies(e, subs))
  {
    hide ApplyAll, Repeated, Merge, MergeInto, Expected, Matches, PrintAlike;
    var y := Expected(c.sem, e, c.otherRes, h);
    forall s ensures Matches(e, s) <==> PrintAlike(e, s) { MatchesIff(e, s); }
    var i := FirstMatch(e, subs);
    assert Matches(e, e) by { hide *; SelfMatches(e); }
    if i < |subs| { assert subs[i] in subs; }
    if e.Binary? {
      var others := StoredAll(c.sem, subs, c.otherRes, h);
      ApplyOne(c, SubMergersOf(e, subs), i, x, others);
      MergedOnce(c, e, h, x);
      assert others[i] == Stored(c.sem, e, c.otherRes, h);
      RepeatedOnce(e, x, y);
    } else {
      AllCopies(c, e, subs, h, x);
    }
  }

  lemma SelfMatches(e: Expr)
    ensures Matches(e, e)
  {
  }

  lemma RepeatedOnce(e: Expr, x: Bytes, y: Bytes)
    requires Sized(e) && |x| == |y| == EncodedWidth(e)
    ensures Repeated(e, x, y, 1) == Merge(e, x, y)
  {
    hide Merge;
  }

  lemma MergedOnce(c: Context, e: Expr, h: seq<seq<Point>>, x: Bytes)
    requires Sized(e) && h != [] && IsState(e, x)
    ensures var y := Expected(c.sem, e, c.otherRes, h);
            Apply(c, Whole(e), x, Stored(c.sem, e, c.otherRes, h)) == Merge(e, x, y) && IsState(e, Merge(e, x, y))
  {
    hide Merge, MergeInto, Expected;
    assert h[0..] == h;
    ExpectedIsState(c.sem, e, c.otherRes, h);
    MergeInPlace(e, x, Expected(c.sem, e, c.otherRes, h));
  }

  lemma {:induction false} AllCopies(c: Context, e: Expr, subs: seq<Expr>, h: seq<seq<Point>>, x: Bytes)
    requires Sized(e) && (forall s | s in subs :: Sized(s)) && h != [] && IsState(e, x)
    requires forall s | s in subs :: Matches(e, s) <==> s == e
    ensures ApplyAll(c, AllMatches(e, subs), x, StoredAll(c.sem, subs, c.otherRes, h))
            == Repeated(e, x, Expected(c.sem, e, c.otherRes, h), Copies(e, subs))
  {
    hide Merge, MergeInto, Expected, Matches;
    if subs != [] {
      assert subs[0] in subs;
      assert AllMatches(e, subs)[1..] == AllMatches(e, subs[1..]);
      assert StoredAll(c.sem, subs, c.otherRes, h)[1..] == StoredAll(c.sem, subs[1..], c.otherRes, h);
      MergedOnce(c, e, h, x);
      AllCopies(c, e, subs[1..], h,
        if subs[0] == e then Merge(e, x, Expected(c.sem, e, c.otherRes, h)) else x);
    }
  }

  lemma {:induction false} RebuildBinary(c: Context, e: Expr, subs: seq<Expr>, h: seq<seq<Point>>, x: Bytes)
    requires Sized(e) && (forall s | s in subs :: Sized(s)) && h != [] && IsState(e, x)
    requires Covers(subs, e) && DistinctNames(subs) && Decided(c.sem, e, subs, h, c.metadata)
    requires e.Binary? && e !in subs
    ensures ApplyAll(c, SubMergersOf(e, subs), x, StoredAll(c.sem, subs, c.otherRes, h))
            == Merge(e, x, Expected(c.sem, e, c.otherRes, h))
    decreases e, 0
  {
    UnlikeIff(e, subs);
    hide ApplyAll, Merge;
    var n := EncodedWidth(e.left);
    var y := Expected(c.sem, e, c.otherRes, h);
    ApplyCombined(c, SubMergersOf(e.left, subs), n, SubMergersOf(e.right, subs), x,
      StoredAll(c.sem, subs, c.otherRes, h));
    SubMergersRebuild(c, e.left, subs, h, x[..n]);
    SubMergersRebuild(c, e.right, subs, h, x[n..]);
    assert y[..n] == Expected(c.sem, e.left, c.otherRes, h);
    assert y[n..] == Expected(c.sem, e.right, c.otherRes, h);
    MergeSplits(e, x, y);
    SplitEquality(ApplyAll(c, SubMergersOf(e, subs), x, StoredAll(c.sem, subs, c.otherRes, h)), Merge(e, x, y), n);
  }

  lemma {:induction false} RebuildIf(c: Context, e: Expr, subs: seq<Expr>, h: seq<seq<Point>>, x: Bytes)
    requires Sized(e) && (forall s | s in subs :: Sized(s)) && h != [] && IsState(e, x)
    requires Covers(subs, e) && DistinctNames(subs) && Decided(c.sem, e, subs, h, c.metadata)
    requires e.If? && e !in subs
    ensures ApplyAll(c, SubMergersOf(e, subs), x, StoredAll(c.sem, subs, c.otherRes, h))
            == Merge(e, x, Expected(c.sem, e, c.otherRes, h))
    decreases e, 0
  {
    UnlikeIff(e, subs);
    hide ApplyAll, MergeInto;
    var keep := Include(c.sem, e.cond, c.metadata);
    var kept := FilterPeriods(c.sem, e.cond, h);
    forall p | 0 <= p < |h| ensures kept[p] == if keep then h[p] else [] {
      FilterAllOrNothing(c.sem, e.cond, h[p], keep);
    }
    ApplyConditional(c, e.cond, SubMergersOf(e.wrapped, subs), x, StoredAll(c.sem, subs, c.otherRes, h));
    MergeIntoWraps(e, Zeros(EncodedWidth(e)), x, Expected(c.sem, e, c.otherRes, h));
    if keep {
      assert kept == h;
      SubMergersRebuild(c, e.wrapped, subs, h, x);
    } else {
      ExpectedOfNoPoints(c.sem, e.wrapped, c.otherRes, kept);
      MergeIdentity(e.wrapped, x);
    }
  }

  lemma {:induction false} RebuildShift(c: Context, e: Expr, subs: seq<Expr>, h: seq<seq<Point>>, x: Bytes)
    requires Sized(e) && (forall s | s in subs :: Sized(s)) && h != [] && IsState(e, x)
    requires Covers(subs, e) && DistinctNames(subs) && Decided(c.sem, e, subs, h, c.metadata)
    requires e.Shift? && e !in subs
    ensures ApplyAll(c, SubMergersOf(e, subs), x, StoredAll(c.sem, subs, c.otherRes, h))
            == Merge(e, x, Expected(c.sem, e, c.otherRes, h))
    decreases e, 0
  {
    UnlikeIff(e, subs);
    hide ApplyAll, MergeInto;
    var n := -Quot(e.offset, c.otherRes);
    ApplyShifted(c, e.offset, SubMergersOf(e.wrapped, subs), x, subs, h);
    MergeIntoWraps(e, Zeros(EncodedWidth(e)), x, Expected(c.sem, e, c.otherRes, h));
    if 0 <= n < |h| {
      DecidedSuffix(c.sem, e.wrapped, subs, h, c.metadata, n);
      SubMergersRebuild(c, e.wrapped, subs, h[n..], x);
    } else {
      ExpectedOfNoPoints(c.sem, e.wrapped, c.otherRes, []);
      MergeIdentity(e.wrapped, x);
    }
  }

  lemma {:induction false} DecidedSuffix(sem: Conditions, e: Expr, subs: seq<Expr>,
                                         h: seq<seq<Point>>, metadata: Option<Dims>, n: nat)
    requires n <= |h| && Decided(sem, e, subs, h, metadata)
    ensures Decided(sem, e, subs, h[n..], metadata)
  {
    match e
    case Bounded(w, _, _) => DecidedSuffix(sem, w, subs, h, metadata, n);
    case Binary(_, l, r) =>
      if e !in subs {
        DecidedSuffix(sem, l, subs, h, metadata, n);
        DecidedSuffix(sem, r, subs, h, metadata, n);
      }
    case If(_, w) => if e !in subs { DecidedSuffix(sem, w, subs, h, metadata, n); }
    case Shift(w, _) => if e !in subs { DecidedSuffix(sem, w, subs, h, metadata, n); }
    case _ =>
  }

  // ---------------------------------------------------------------- what a submerger adds

  /** A submerger made for states of e, reading cells of the given width. */
  predicate Fits(sm: SubMerge, e: Expr, width: nat) {
    if sm.NoMerge? then true
    else if e.Bounded? then Fits(sm, e.wrapped, width)
    else if sm.Whole? then sm.e == e && EncodedWidth(e) == width
    else if sm.Combined? then
      e.Binary? && sm.width == EncodedWidth(e.left) && Fits(sm.left, e.left, width) && Fits(sm.right, e.right, width)
    else if sm.Conditional? then e.If? && Fits(sm.wrapped, e.wrapped, width)
    else e.Shift? && e.offset == sm.offset && Fits(sm.wrapped, e.wrapped, width)
  }

  /** The cells are states of every expression that the submerger merges whole. */
  predicate Feeds(sm: SubMerge, other: seq<Bytes>) {
    match sm
    case NoMerge => true
    case Whole(e) => Sized(e) && forall b | b in other :: IsState(e, b)
    case Combined(left, _, right) => Feeds(left, other) && Feeds(right, other)
    case Conditional(_, w) => Feeds(w, other)
    case Shifted(_, w) => Feeds(w, other)
  }

  lemma {:induction false} MatchingWidths(e: Expr, sub: Expr)
    requires Matches(e, sub)
    ensures EncodedWidth(e) == EncodedWidth(sub)
  {
    match e
    case Bounded(w, _, _) => MatchingWidths(w, sub.wrapped);
    case Aggregate(_, w) => MatchingWidths(w, sub.wrapped);
    case Average(v, _) => MatchingWidths(v, sub.val);
    case Binary(_, l, r) => MatchingWidths(l, sub.left); MatchingWidths(r, sub.right);
    case If(_, w) => MatchingWidths(w, sub.wrapped);
    case Shift(w, _) => MatchingWidths(w, sub.wrapped);
    case _ =>
  }

  lemma {:induction false} SubMergersFit(e: Expr, subs: seq<Expr>, i: nat)
    requires i < |subs|
    ensures Fits(SubMergersOf(e, subs)[i], e, EncodedWidth(subs[i]))
  {
    if Matches(e, subs[i]) { MatchingWidths(e, subs[i]); }
    match e
    case Bounded(w, _, _) => SubMergersFit(w, subs, i);
    case Binary(_, l, r) => SubMergersFit(l, subs, i); SubMergersFit(r, subs, i);
    case If(_, w) => SubMergersFit(w, subs, i);
    case Shift(w, _) => SubMergersFit(w, subs, i);
    case _ =>
  }

  lemma {:induction false} FeedsSuffix(sm: SubMerge, other: seq<Bytes>, n: nat)
    requires Feeds(sm, other) && n <= |other|
    ensures Feeds(sm, other[n..])
  {
    match sm
    case Combined(left, _, right) => FeedsSuffix(left, other, n); FeedsSuffix(right, other, n);
    case Conditional(_, w) => FeedsSuffix(w, other, n);
    case Shifted(_, w) => FeedsSuffix(w, other, n);
    case _ =>
  }

  /** Submerging into a merge is merging with a submerge, so a submerger only ever adds. */
  lemma {:induction false} ApplyAdds(c: Context, sm: SubMerge, e: Expr, width: nat, x: Bytes, y: Bytes,
                                     other: seq<Bytes>)
    requires Sized(e) && Fits(sm, e, width) && Feeds(sm, other) && IsState(e, x) && IsState(e, y)
    ensures IsState(e, Apply(c, sm, y, other))
    ensures Apply(c, sm, Merge(e, x, y), other) == Merge(e, x, Apply(c, sm, y, other))
    decreases e, 1
  {
    if sm.NoMerge? {
    } else if e.Bounded? {
      ApplyAdds(c, sm, e.wrapped, width, x, y, other);
      MergeWraps(e, x, y);
      MergeWraps(e, x, Apply(c, sm, y, other));
    } else {
      match sm
      case Whole(_) => AddWhole(c, sm, e, x, y, other);
      case Combined(_, _, _) => AddCombined(c, sm, e, width, x, y, other);
      case Conditional(cond, w) =>
        MergeWraps(e, x, y);
        MergeWraps(e, x, Apply(c, sm, y, other));
        if Include(c.sem, cond, c.metadata) { ApplyAdds(c, w, e.wrapped, width, x, y, other); }
      case Shifted(offset, w) =>
        MergeWraps(e, x, y);
        MergeWraps(e, x, Apply(c, sm, y, other));
        var n := -Quot(offset, c.otherRes);
        if 0 <= n < |other| {
          FeedsSuffix(w, other, n);
          ApplyAdds(c, w, e.wrapped, width, x, y, other[n..]);
        }
    }
  }

  lemma MergeWraps(e: Expr, x: Bytes, y: Bytes)
    requires Sized(e) && (e.Bounded? || e.If? || e.Shift?) && |x| == |y| == EncodedWidth(e)
    ensures Merge(e, x, y) == Merge(e.wrapped, x, y)
  {
    MergeIntoWraps(e, Zeros(EncodedWidth(e)), x, y);
  }

  lemma AddWhole(c: Context, sm: SubMerge, e: Expr, x: Bytes, y: Bytes, other: seq<Bytes>)
    requires Sized(e) && sm == Whole(e) && Feeds(sm, other) && IsState(e, x) && IsState(e, y)
    ensures IsState(e, Apply(c, sm, y, other))
    ensures Apply(c, sm, Merge(e, x, y), other) == Merge(e, x, Apply(c, sm, y, other))
  {
    hide Merge, MergeInto;
    if other != [] {
      MergeInPlace(e, x, y);
      MergeInPlace(e, y, other[0]);
      MergeInPlace(e, Merge(e, x, y), other[0]);
      MergeAssociates(e, x, y, other[0]);
    }
  }

  lemma AddCombined(c: Context, sm: SubMerge, e: Expr, width: nat, x: Bytes, y: Bytes, other: seq<Bytes>)
    requires Sized(e) && sm.Combined? && Fits(sm, e, width) && Feeds(sm, other) && !e.Bounded?
    requires IsState(e, x) && IsState(e, y)
    ensures IsState(e, Apply(c, sm, y, other))
    ensures Apply(c, sm, Merge(e, x, y), other) == Merge(e, x, Apply(c, sm, y, other))
    decreases e, 0
  {
    hide Merge;
    var n := EncodedWidth(e.left);
    ApplyAdds(c, sm.left, e.left, width, x[..n], y[..n], other);
    ApplyAdds(c, sm.right, e.right, width, x[n..], y[n..], other);
    var z := Apply(c, sm, y, other);
    assert z[..n] == Apply(c, sm.left, y[..n], other);
    assert z[n..] == Apply(c, sm.right, y[n..], other);
    MergeSplits(e, x, y);
    MergeSplits(e, x, z);
    SplitEquality(Apply(c, sm, Merge(e, x, y), other), Merge(e, x, z), n);
  }

  /** What a submerger adds to any state. */
  function Addition(c: Context, sm: SubMerge, e: Expr, other: seq<Bytes>): (r: Bytes)
    ensures |r| == EncodedWidth(e)
  {
    Apply(c, sm, Zeros(EncodedWidth(e)), other)
  }

  lemma ApplyIsAddition(c: Context, sm: SubMerge, e: Expr, width: nat, x: Bytes, other: seq<Bytes>)
    requires Sized(e) && Fits(sm, e, width) && Feeds(sm, other) && IsState(e, x)
    ensures IsState(e, Addition(c, sm, e, other))
    ensures Apply(c, sm, x, other) == Merge(e, x, Addition(c, sm, e, other))
    ensures IsState(e, Apply(c, sm, x, other))
  {
    var z := Zeros(EncodedWidth(e));
    ZerosAreState(e);
    MergeIdentity(e, x);
    ApplyAdds(c, sm, e, width, x, z, other);
    MergeInPlace(e, x, Addition(c, sm, e, other));
  }

  /** Submerging different rows gives the same state in either order. */
  lemma ApplyCommutes(c: Context, c': Context, sm: SubMerge, sm': SubMerge, e: Expr, width: nat, width': nat,
                      x: Bytes, other: seq<Bytes>, other': seq<Bytes>)
    requires Sized(e) && IsState(e, x)
    requires Fits(sm, e, width) && Feeds(sm, other) && Fits(sm', e, width') && Feeds(sm', other')
    ensures Apply(c', sm', Apply(c, sm, x, other), other') == Apply(c, sm, Apply(c', sm', x, other'), other)
  {
    hide Apply, Merge;
    ApplyIsAddition(c, sm, e, width, x, other);
    ApplyIsAddition(c', sm', e, width', x, other');
    ApplyIsAddition(c', sm', e, width', Apply(c, sm, x, other), other');
    ApplyIsAddition(c, sm, e, width, Apply(c', sm', x, other'), other);
    var a, b := Addition(c, sm, e, other), Addition(c', sm', e, other');
    MergeAssociates(e, x, a, b);
    MergeAssociates(e, x, b, a);
    MergeCommutes(e, a, b);
  }

  /** All shifts look back, by whole periods. */
  predicate ShiftsBack(e: Expr, otherRes: Resolution) {
    match e
    case Field(_) => true
    case Const(_) => true
    case Bounded(w, _, _) => ShiftsBack(w, otherRes)
    case Aggregate(_, w) => ShiftsBack(w, otherRes)
    case Average(v, weight) => ShiftsBack(v, otherRes) && ShiftsBack(weight, otherRes)
    case Binary(_, l, r) => ShiftsBack(l, otherRes) && ShiftsBack(r, otherRes)
    case If(_, w) => ShiftsBack(w, otherRes)
    case Shift(w, offset) => offset <= 0 && offset % otherRes == 0 && ShiftsBack(w, otherRes)
  }

  lemma {:induction false} ShiftIsBack(e: Expr, otherRes: Resolution)
    requires ShiftsBack(e, otherRes)
    ensures ShiftOf(e) <= 0
  {
    match e
    case Bounded(w, _, _) => ShiftIsBack(w, otherRes);
    case Aggregate(_, w) => ShiftIsBack(w, otherRes);
    case Average(v, weight) => ShiftIsBack(v, otherRes); ShiftIsBack(weight, otherRes);
    case Binary(_, l, r) => ShiftIsBack(l, otherRes); ShiftIsBack(r, otherRes);
    case If(_, w) => ShiftIsBack(w, otherRes);
    case Shift(w, _) => ShiftIsBack(w, otherRes);
    case _ =>
  }

  /** The first n cells, with zeros where there are none. */
  function Window(other: seq<Bytes>, n: nat, width: nat): (r: seq<Bytes>)
    ensures |r| == n
  {
    seq(n, i requires 0 <= i < n => if i < |other| then other[i] else Zeros(width))
  }

  /** A submerger reads no further back than the shift of its expression, and missing cells count as zeros. */
  lemma {:induction false} ApplyReach(c: Context, sm: SubMerge, e: Expr, width: nat, x: Bytes,
                                      other: seq<Bytes>, k: nat)
    requires Sized(e) && Fits(sm, e, width) && Feeds(sm, other) && IsState(e, x)
    requires ShiftsBack(e, c.otherRes) && -ShiftOf(e) <= k * c.otherRes
    ensures Apply(c, sm, x, other) == Apply(c, sm, x, Window(other, k + 1, width))
    decreases e, 1
  {
    var near := Window(other, k + 1, width);
    if sm.NoMerge? {
    } else if e.Bounded? {
      ApplyReach(c, sm, e.wrapped, width, x, other, k);
    } else {
      match sm
      case Whole(_) =>
        if other == [] {
          ZerosAreState(e);
          MergeInPlace(e, x, Zeros(width));
          MergeIdentity(e, x);
        }
      case Combined(left, _, right) =>
        ApplyReach(c, left, e.left, width, x[..EncodedWidth(e.left)], other, k);
        ApplyReach(c, right, e.right, width, x[EncodedWidth(e.left)..], other, k);
      case Conditional(cond, w) =>
        ApplyReach(c, w, e.wrapped, width, x, other, k);
      case Shifted(offset, w) =>
        ReachShifted(c, sm, e, width, x, other, k);
    }
  }

  lemma {:induction false} ApplyEmpty(c: Context, sm: SubMerge, x: Bytes)
    ensures Apply(c, sm, x, []) == x
  {
    match sm
    case Combined(left, width, right) =>
      if width <= |x| {
        ApplyEmpty(c, left, x[..width]);
        ApplyEmpty(c, right, x[width..]);
        assert x == x[..width] + x[width..];
      }
    case Conditional(_, w) => ApplyEmpty(c, w, x);
    case _ =>
  }

  lemma {:induction false} ReachShifted(c: Context, sm: SubMerge, e: Expr, width: nat, x: Bytes,
                                        other: seq<Bytes>, k: nat)
    requires Sized(e) && sm.Shifted? && e.Shift? && Fits(sm, e, width) && Feeds(sm, other) && IsState(e, x)
    requires ShiftsBack(e, c.otherRes) && -ShiftOf(e) <= k * c.otherRes
    ensures Apply(c, sm, x, other) == Apply(c, sm, x, Window(other, k + 1, width))
    decreases e, 0
  {
    hide Quot;
    var near := Window(other, k + 1, width);
    var n := -Quot(sm.offset, c.otherRes);
    ShiftIsBack(e.wrapped, c.otherRes);
    SkippedPeriods(sm.offset, c.otherRes, ShiftOf(e.wrapped), k);
    var rest := if n <= |other| then other[n..] else [];
    FeedsSuffix(sm.wrapped, other, if n <= |other| then n else |other|);
    assert n <= |other| || rest == other[|other|..];
    ApplyReach(c, sm.wrapped, e.wrapped, width, x, rest, k - n);
    assert near[n..] == Window(rest, k - n + 1, width);
    if n >= |other| { ApplyEmpty(c, sm.wrapped, x); }
  }

  lemma SkippedPeriods(offset: int, res: Resolution, deeper: int, k: nat)
    requires offset <= 0 && offset % res == 0 && deeper <= 0 && -(offset + deeper) <= k * res
    ensures var n := -Quot(offset, res); 0 <= n <= k && n * res == -offset && -deeper <= (k - n) * res
  {
    var n := -Quot(offset, res);
    QuotExact(offset, res);
    Distribute(0, Quot(offset, res), res);
    Distribute(k, n, res);
    CancelLe(n, k, res);
  }
}
