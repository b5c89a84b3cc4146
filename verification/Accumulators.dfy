/**
 * The accumulator expressions of package expr.
 *
 * An expression keeps its state in a byte buffer that it shares with its sub
 * expressions: an aggregate owns a flag byte and an eight byte float, an average
 * a flag and two floats, a binary expression the state of its left operand
 * followed by that of its right one.  `Update` folds one point into a state and
 * `Merge` combines two states.  The main result is that merging the states of
 * two lists of points is the state of their concatenation (`MergeIsConcat`), so
 * a state depends only on the multiset of points it has seen
 * (`StateOfPermutation`).
 */
module Accumulators {
  import opened Wrappers

  /** A byte of a buffer: a plain byte, or the index-th byte of an encoded float. */
  datatype Octet = Lit(n: nat) | Float(value: real, index: nat)

  type Bytes = seq<Octet>

  /** Values of dimensions, and results of evaluating conditions on them. */
  datatype Value = Text(text: string) | Number(number: real) | Truth(truth: bool)

  type Dims = map<string, Value>

  /** Conditions are goexpr expressions: named, and evaluated on dimensions. */
  type Conditions = (string, Dims) -> Option<Value>

  /** One point: named field values, and the dimensions it came with, if known. */
  datatype Point = Point(params: map<string, real>, metadata: Option<Dims>)

  datatype Aggregator = Sum | Min | Max | Count

  datatype Operator = Add | Sub | Mult | Div | Lt | Lte | Eq | Neq | Gte | Gt | And | Or

  datatype Expr =
    | Field(name: string)
    | Const(value: real)
    | Bounded(wrapped: Expr, min: real, max: real)
    | Aggregate(fn: Aggregator, wrapped: Expr)
    | Average(val: Expr, weight: Expr)
    | Binary(op: Operator, left: Expr, right: Expr)
    | If(cond: Option<string>, wrapped: Expr)
    | Shift(wrapped: Expr, offset: int)

  const FLOAT_WIDTH := 8
  const AGGREGATE_WIDTH := 9
  const AVERAGE_WIDTH := 17

  function Pow2(n: nat): real {
    if n == 0 then 1.0 else 2.0 * Pow2(n - 1)
  }

  /** The largest float64, the value of x / 0 for x != 0. */
  const MAX_FLOAT: real := (Pow2(53) - 1.0) * Pow2(971)

  // ---------------------------------------------------------------- widths

  function EncodedWidth(e: Expr): nat {
    match e
    case Field(_) => 0
    case Const(_) => 0
    case Bounded(w, _, _) => EncodedWidth(w)
    case Aggregate(_, w) => AGGREGATE_WIDTH + EncodedWidth(w)
    case Average(v, _) => AVERAGE_WIDTH + EncodedWidth(v)
    case Binary(_, l, r) => EncodedWidth(l) + EncodedWidth(r)
    case If(_, w) => EncodedWidth(w)
    case Shift(w, _) => EncodedWidth(w)
  }

  /** How far the cursors of Merge and Get move. */
  function Advance(e: Expr): nat {
    match e
    case Field(_) => 0
    case Const(_) => 0
    case Bounded(w, _, _) => Advance(w)
    case Aggregate(_, _) => AGGREGATE_WIDTH
    case Average(_, _) => AVERAGE_WIDTH
    case Binary(_, l, r) => Advance(l) + Advance(r)
    case If(_, w) => Advance(w)
    case Shift(w, _) => Advance(w)
  }

  /** What Validate accepts. */
  predicate Valid(e: Expr)
    decreases e, 0
  {
    match e
    case Field(_) => true
    case Const(_) => true
    case Bounded(w, _, _) => Valid(w)
    case Aggregate(_, w) => ValidInAggregate(w)
    case Average(v, weight) => ValidInAggregate(v) && EncodedWidth(weight) == 0
    case Binary(_, l, r) => ValidInBinary(l) && ValidInBinary(r)
    case If(_, w) => Valid(w)
    case Shift(w, _) => Valid(w)
  }

  predicate ValidInAggregate(w: Expr)
    decreases w, 1
  {
    (w.Field? || w.Const? || w.Bounded?) && Valid(w)
  }

  predicate ValidInBinary(w: Expr)
    decreases w, 1
  {
    w.Aggregate? || w.If? || w.Average? || w.Const? || w.Shift? || (w.Binary? && Valid(w))
  }

  /** No aggregate holds an expression that needs state of its own. */
  predicate Sized(e: Expr) {
    match e
    case Field(_) => true
    case Const(_) => true
    case Bounded(w, _, _) => Sized(w)
    case Aggregate(_, w) => EncodedWidth(w) == 0
    case Average(v, weight) => EncodedWidth(v) == 0 && EncodedWidth(weight) == 0
    case Binary(_, l, r) => Sized(l) && Sized(r)
    case If(_, w) => Sized(w)
    case Shift(w, _) => Sized(w)
  }

  /** Average weights are required by Validate to be stateless. */
  predicate StatelessWeights(e: Expr) {
    match e
    case Field(_) => true
    case Const(_) => true
    case Bounded(w, _, _) => StatelessWeights(w)
    case Aggregate(_, w) => StatelessWeights(w)
    case Average(v, weight) => StatelessWeights(v) && EncodedWidth(weight) == 0
    case Binary(_, l, r) => StatelessWeights(l) && StatelessWeights(r)
    case If(_, w) => StatelessWeights(w)
    case Shift(w, _) => StatelessWeights(w)
  }

  /** Cursors move by exactly the encoded width if and only if no aggregate has a stateful operand. */
  lemma {:induction false} AdvanceIsWidth(e: Expr)
    requires StatelessWeights(e)
    ensures Advance(e) <= EncodedWidth(e)
    ensures Advance(e) == EncodedWidth(e) <==> Sized(e)
  {
    match e
    case Bounded(w, _, _) => AdvanceIsWidth(w);
    case Binary(_, l, r) => AdvanceIsWidth(l); AdvanceIsWidth(r);
    case If(_, w) => AdvanceIsWidth(w);
    case Shift(w, _) => AdvanceIsWidth(w);
    case _ =>
  }

  /** Validate accepts an expression whose cursors fall short: SUM(BOUNDED(SUM(a), 0, 1)). */
  lemma ValidateMissesStatefulBounded()
    ensures var e := Aggregate(Sum, Bounded(Aggregate(Sum, Field("a")), 0.0, 1.0));
            Valid(e) && StatelessWeights(e) && Advance(e) < EncodedWidth(e)
  {
    var inner := Aggregate(Sum, Field("a"));
    assert EncodedWidth(inner) == 9;
    assert EncodedWidth(Bounded(inner, 0.0, 1.0)) == 9;
    assert Valid(Bounded(inner, 0.0, 1.0));
  }

  /** What Validate looks at: operands of aggregates all the way, those of binary expressions only by their kind. */
  lemma ValidatesIff(fn: Aggregator, op: Operator, l: Expr, r: Expr)
    ensures Valid(Aggregate(fn, l)) <==> l.Field? || l.Const? || (l.Bounded? && Valid(l.wrapped))
    ensures Valid(Average(l, r)) <==> Valid(Aggregate(fn, l)) && EncodedWidth(r) == 0
    ensures Valid(Binary(op, l, r)) <==> forall e | e in {l, r} ::
              !e.Field? && !e.Bounded? && (e.Binary? ==> Valid(e))
  {
    assert l in {l, r} && r in {l, r};
    assert l.Bounded? ==> Valid(l) == Valid(l.wrapped);
    assert l.Field? || l.Const? ==> Valid(l);
    assert Valid(Aggregate(fn, l)) == ValidInAggregate(l);
  }

  /** The operands of binary expressions are valid themselves. */
  predicate OperandsValid(e: Expr) {
    match e
    case Bounded(w, _, _) => OperandsValid(w)
    case Binary(_, l, r) => Valid(l) && Valid(r) && OperandsValid(l) && OperandsValid(r)
    case If(_, w) => OperandsValid(w)
    case Shift(w, _) => OperandsValid(w)
    case _ => true
  }

  /** No aggregate holds a bounded expression that needs state. */
  predicate BoundsStateless(e: Expr) {
    match e
    case Field(_) => true
    case Const(_) => true
    case Bounded(w, _, _) => BoundsStateless(w)
    case Aggregate(_, w) => w.Bounded? ==> EncodedWidth(w) == 0
    case Average(v, _) => v.Bounded? ==> EncodedWidth(v) == 0
    case Binary(_, l, r) => BoundsStateless(l) && BoundsStateless(r)
    case If(_, w) => BoundsStateless(w)
    case Shift(w, _) => BoundsStateless(w)
  }

  /** If it has looked at all operands, what Validate accepts is sized unless an aggregate holds a bounded state. */
  lemma {:induction false} ValidIsSizedIff(e: Expr)
    requires Valid(e) && OperandsValid(e)
    ensures Sized(e) <==> BoundsStateless(e)
  {
    match e
    case Bounded(w, _, _) => ValidIsSizedIff(w);
    case Binary(_, l, r) => ValidIsSizedIff(l); ValidIsSizedIff(r);
    case If(_, w) => ValidIsSizedIff(w);
    case Shift(w, _) => ValidIsSizedIff(w);
    case _ =>
  }

  /** Validate accepts SUM(SUM(a)) as an operand: of SUM(SUM(a)) + 1. */
  lemma ValidateMissesOperand()
    ensures var nested := Aggregate(Sum, Aggregate(Sum, Field("a")));
            var e := Binary(Add, nested, Const(1.0));
            !Valid(nested) && Valid(e) && Advance(e) < EncodedWidth(e)
  {
    var inner := Aggregate(Sum, Field("a"));
    assert EncodedWidth(inner) == 9;
    assert EncodedWidth(Aggregate(Sum, inner)) == 18;
  }

  /** A state is empty or at least as wide as the header of a sequence. */
  lemma {:induction false} WidthZeroOrWide(e: Expr)
    ensures EncodedWidth(e) == 0 || EncodedWidth(e) >= AGGREGATE_WIDTH
  {
    match e
    case Bounded(w, _, _) => WidthZeroOrWide(w);
    case Binary(_, l, r) => WidthZeroOrWide(l); WidthZeroOrWide(r);
    case If(_, w) => WidthZeroOrWide(w);
    case Shift(w, _) => WidthZeroOrWide(w);
    case _ =>
  }

  // ---------------------------------------------------------------- octets

  function Zeros(n: nat): (z: Bytes)
    ensures |z| == n
  {
    seq(n, _ => Lit(0))
  }

  function EncodeFloat(v: real): (b: Bytes)
    ensures |b| == FLOAT_WIDTH
  {
    seq(FLOAT_WIDTH, i requires 0 <= i => Float(v, i))
  }

  function DecodeFloat(b: Bytes): real
    requires |b| == FLOAT_WIDTH
  {
    if b[0].Float? then b[0].value else 0.0
  }

  function Saved(v: real): (b: Bytes)
    ensures |b| == AGGREGATE_WIDTH
  {
    [Lit(1)] + EncodeFloat(v)
  }

  /** The value of an aggregate state, and whether it was set. */
  function Load(b: Bytes): (r: (real, bool))
    requires |b| >= AGGREGATE_WIDTH
  {
    if b[0] == Lit(1) then (DecodeFloat(b[1..AGGREGATE_WIDTH]), true) else (0.0, false)
  }

  function SavedAverage(count: real, total: real): (b: Bytes)
    ensures |b| == AVERAGE_WIDTH
  {
    [Lit(1)] + EncodeFloat(count) + EncodeFloat(total)
  }

  /** Count, total and whether an average state was set. */
  function LoadAverage(b: Bytes): (r: (real, real, bool))
    requires |b| >= AVERAGE_WIDTH
  {
    if b[0] == Lit(1) then
      (DecodeFloat(b[1..AGGREGATE_WIDTH]), DecodeFloat(b[AGGREGATE_WIDTH..AVERAGE_WIDTH]), true)
    else
      (0.0, 0.0, false)
  }

  lemma LoadSaved(v: real, count: real, total: real)
    ensures Load(Saved(v)) == (v, true)
    ensures LoadAverage(SavedAverage(count, total)) == (count, total, true)
    ensures Load(Zeros(AGGREGATE_WIDTH)) == (0.0, false)
    ensures LoadAverage(Zeros(AVERAGE_WIDTH)) == (0.0, 0.0, false)
  {
    assert Saved(v)[1..AGGREGATE_WIDTH] == EncodeFloat(v);
    assert SavedAverage(count, total)[1..AGGREGATE_WIDTH] == EncodeFloat(count);
    assert SavedAverage(count, total)[AGGREGATE_WIDTH..AVERAGE_WIDTH] == EncodeFloat(total);
  }

  // ---------------------------------------------------------------- operators

  function UpdateValue(fn: Aggregator, wasSet: bool, current: real, next: real): real {
    match fn
    case Sum => current + next
    case Min => if !wasSet then next else if next < current then next else current
    case Max => if !wasSet then next else if next > current then next else current
    case Count => current + 1.0
  }

  function MergeValue(fn: Aggregator, wasSet: bool, current: real, next: real): real {
    match fn
    case Sum => current + next
    case Min => if !wasSet then next else if next < current then next else current
    case Max => if !wasSet then next else if next > current then next else current
    case Count => current + next
  }

  function Calc(op: Operator, left: real, right: real): real {
    match op
    case Add => left + right
    case Sub => left - right
    case Mult => left * right
    case Div => if right == 0.0 then (if left == 0.0 then 0.0 else MAX_FLOAT) else left / right
    case Lt => if left < right then 1.0 else 0.0
    case Lte => if left <= right then 1.0 else 0.0
    case Eq => if left == right then 1.0 else 0.0
    case Neq => if left != right then 1.0 else 0.0
    case Gte => if left >= right then 1.0 else 0.0
    case Gt => if left > right then 1.0 else 0.0
    case And => if left > 0.0 && right > 0.0 then 1.0 else 0.0
    case Or => if left > 0.0 || right > 0.0 then 1.0 else 0.0
  }

  /** Whether a point with the given dimensions passes an IF. */
  predicate Include(sem: Conditions, cond: Option<string>, metadata: Option<Dims>) {
    metadata.None? || cond.None? || sem(cond.value, metadata.value) == Some(Truth(true))
  }

  function Mean(count: real, total: real): real {
    if count == 0.0 then 0.0 else total / count
  }

  /** The value held by a state, and whether it was set. */
  function Get(e: Expr, b: Bytes): (r: (real, bool))
    requires Sized(e) && |b| == EncodedWidth(e)
  {
    match e
    case Field(_) => (0.0, false)
    case Const(v) => (v, true)
    case Bounded(w, min, max) =>
      var (v, wasSet) := Get(w, b);
      if !wasSet || !(min <= v <= max) then (0.0, false) else (v, wasSet)
    case Aggregate(_, _) => Load(b)
    case Average(_, _) =>
      var (count, total, wasSet) := LoadAverage(b);
      if !wasSet then (0.0, false) else (Mean(count, total), true)
    case Binary(op, l, r) =>
      var (vl, setL) := Get(l, b[..EncodedWidth(l)]);
      var (vr, setR) := Get(r, b[EncodedWidth(l)..]);
      if !setL && !setR then (0.0, false) else (Calc(op, vl, vr), true)
    case If(_, w) => Get(w, b)
    case Shift(w, _) => Get(w, b)
  }

  lemma {:induction false} StatelessIsSized(e: Expr)
    requires EncodedWidth(e) == 0
    ensures Sized(e)
  {
    match e
    case Bounded(w, _, _) => StatelessIsSized(w);
    case Binary(_, l, r) => StatelessIsSized(l); StatelessIsSized(r);
    case If(_, w) => StatelessIsSized(w);
    case Shift(w, _) => StatelessIsSized(w);
    case _ =>
  }

  /** What a point contributes through a stateless expression: a value, and whether it counts. */
  function Delta(sem: Conditions, e: Expr, pt: Point): (r: (real, bool))
    requires EncodedWidth(e) == 0
  {
    match e
    case Field(name) => if name in pt.params then (pt.params[name], true) else (0.0, false)
    case Const(v) => (v, false)
    case Bounded(w, min, max) =>
      var (v, updated) := Delta(sem, w, pt);
      if min <= v <= max then (v, updated) else (0.0, false)
    case Binary(op, l, r) =>
      var (vl, updatedL) := Delta(sem, l, pt);
      var (vr, updatedR) := Delta(sem, r, pt);
      (Calc(op, vl, vr), updatedL || updatedR)
    case If(cond, w) =>
      StatelessIsSized(w);
      if Include(sem, cond, pt.metadata) then Delta(sem, w, pt) else (Get(w, []).0, false)
    case Shift(w, _) => Delta(sem, w, pt)
  }

  /** Folds one point into the state of an expression. */
  function Update(sem: Conditions, e: Expr, b: Bytes, pt: Point): (r: Bytes)
    requires Sized(e) && |b| == EncodedWidth(e)
    ensures |r| == EncodedWidth(e)
  {
    match e
    case Field(_) => b
    case Const(_) => b
    case Bounded(w, _, _) => Update(sem, w, b, pt)
    case Aggregate(fn, w) =>
      var (value, updated) := Delta(sem, w, pt);
      if updated then Saved(UpdateValue(fn, Load(b).1, Load(b).0, value)) else b
    case Average(v, weight) =>
      var (value, updated) := Delta(sem, v, pt);
      if updated then AddWeighted(b, value, Delta(sem, weight, pt).0) else b
    case Binary(_, l, r) =>
      Update(sem, l, b[..EncodedWidth(l)], pt) + Update(sem, r, b[EncodedWidth(l)..], pt)
    case If(cond, w) => if Include(sem, cond, pt.metadata) then Update(sem, w, b, pt) else b
    case Shift(w, _) => Update(sem, w, b, pt)
  }

  function Weigh(value: real, weight: real): real {
    value * weight
  }

  function AddWeighted(b: Bytes, value: real, weight: real): (r: Bytes)
    requires |b| == AVERAGE_WIDTH
    ensures |r| == AVERAGE_WIDTH
  {
    var (count, total, _) := LoadAverage(b);
    SavedAverage(count + weight, total + Weigh(value, weight))
  }

  /** Merges states x and y over the contents b of the output; an unset leaf leaves b alone. */
  function MergeInto(e: Expr, b: Bytes, x: Bytes, y: Bytes): (r: Bytes)
    requires Sized(e) && |b| == |x| == |y| == EncodedWidth(e)
    ensures |r| == EncodedWidth(e)
  {
    match e
    case Field(_) => b
    case Const(_) => b
    case Bounded(w, _, _) => MergeInto(w, b, x, y)
    case Aggregate(fn, _) =>
      var (vx, setX) := Load(x);
      var (vy, setY) := Load(y);
      if !setX then (if setY then Saved(vy) else b)
      else Saved(if setY then MergeValue(fn, true, vx, vy) else vx)
    case Average(_, _) =>
      var (countX, totalX, setX) := LoadAverage(x);
      var (countY, totalY, setY) := LoadAverage(y);
      if !setX then (if setY then SavedAverage(countY, totalY) else b)
      else if setY then SavedAverage(countX + countY, totalX + totalY)
      else SavedAverage(countX, totalX)
    case Binary(_, l, r) =>
      var n := EncodedWidth(l);
      MergeInto(l, b[..n], x[..n], y[..n]) + MergeInto(r, b[n..], x[n..], y[n..])
    case If(_, w) => MergeInto(w, b, x, y)
    case Shift(w, _) => MergeInto(w, b, x, y)
  }

  /** The merge of two states into a zeroed buffer. */
  function Merge(e: Expr, x: Bytes, y: Bytes): (r: Bytes)
    requires Sized(e) && |x| == |y| == EncodedWidth(e)
    ensures |r| == EncodedWidth(e)
  {
    MergeInto(e, Zeros(EncodedWidth(e)), x, y)
  }

  /** States that updates and merges produce: every leaf is all zeros or properly saved. */
  predicate IsState(e: Expr, b: Bytes): (ok: bool)
    requires Sized(e)
    ensures ok ==> |b| == EncodedWidth(e)
  {
    && |b| == EncodedWidth(e)
    && match e
       case Field(_) => true
       case Const(_) => true
       case Bounded(w, _, _) => IsState(w, b)
       case Aggregate(_, _) => b == Zeros(AGGREGATE_WIDTH) || b == Saved(Load(b).0)
       case Average(_, _) =>
         b == Zeros(AVERAGE_WIDTH) || b == SavedAverage(LoadAverage(b).0, LoadAverage(b).1)
       case Binary(_, l, r) => IsState(l, b[..EncodedWidth(l)]) && IsState(r, b[EncodedWidth(l)..])
       case If(_, w) => IsState(w, b)
       case Shift(w, _) => IsState(w, b)
  }

  /** The state after a list of points. */
  function State(sem: Conditions, e: Expr, points: seq<Point>): (b: Bytes)
    requires Sized(e)
    ensures |b| == EncodedWidth(e)
  {
    if points == [] then Zeros(EncodedWidth(e))
    else Update(sem, e, State(sem, e, points[..|points| - 1]), points[|points| - 1])
  }

  // ---------------------------------------------------------------- laws

  lemma ZerosSplit(m: nat, n: nat)
    ensures Zeros(m + n)[..m] == Zeros(m)
    ensures Zeros(m + n)[m..] == Zeros(n)
    ensures Zeros(m) + Zeros(n) == Zeros(m + n)
  {
  }

  lemma {:induction false} ZerosAreState(e: Expr)
    requires Sized(e)
    ensures IsState(e, Zeros(EncodedWidth(e)))
  {
    match e
    case Bounded(w, _, _) => ZerosAreState(w);
    case Binary(_, l, r) =>
      ZerosSplit(EncodedWidth(l), EncodedWidth(r));
      ZerosAreState(l);
      ZerosAreState(r);
    case If(_, w) => ZerosAreState(w);
    case Shift(w, _) => ZerosAreState(w);
    case _ =>
  }

  lemma {:induction false} UpdateIsState(sem: Conditions, e: Expr, b: Bytes, pt: Point)
    requires Sized(e) && IsState(e, b)
    ensures IsState(e, Update(sem, e, b, pt))
  {
    match e
    case Bounded(w, _, _) => UpdateIsState(sem, w, b, pt);
    case Aggregate(fn, w) =>
      LoadSaved(UpdateValue(fn, Load(b).1, Load(b).0, Delta(sem, w, pt).0), 0.0, 0.0);
    case Average(v, weight) =>
      var (count, total, _) := LoadAverage(b);
      var value, w := Delta(sem, v, pt).0, Delta(sem, weight, pt).0;
      LoadSaved(0.0, count + w, total + Weigh(value, w));
    case Binary(_, l, r) =>
      var n := EncodedWidth(l);
      UpdateIsState(sem, l, b[..n], pt);
      UpdateIsState(sem, r, b[n..], pt);
      UpdateSplits(sem, e, b, pt);
    case If(cond, w) =>
      if Include(sem, cond, pt.metadata) { UpdateIsState(sem, w, b, pt); }
    case Shift(w, _) => UpdateIsState(sem, w, b, pt);
    case _ =>
  }

  /** A binary expression updates its operands independently. */
  lemma UpdateSplits(sem: Conditions, e: Expr, b: Bytes, pt: Point)
    requires Sized(e) && e.Binary? && |b| == EncodedWidth(e)
    ensures var n := EncodedWidth(e.left);
            && Update(sem, e, b, pt) == Update(sem, e.left, b[..n], pt) + Update(sem, e.right, b[n..], pt)
            && Update(sem, e, b, pt)[..n] == Update(sem, e.left, b[..n], pt)
            && Update(sem, e, b, pt)[n..] == Update(sem, e.right, b[n..], pt)
  {
  }

  lemma UpdateWraps(sem: Conditions, e: Expr, b: Bytes, pt: Point)
    requires Sized(e) && (e.Bounded? || e.If? || e.Shift?) && |b| == EncodedWidth(e)
    ensures Update(sem, e, b, pt) ==
            if e.If? && !Include(sem, e.cond, pt.metadata) then b else Update(sem, e.wrapped, b, pt)
  {
  }

  /** Merging over the left input, as submergers do, is merging into a fresh buffer. */
  lemma {:induction false} MergeInPlace(e: Expr, x: Bytes, y: Bytes)
    requires Sized(e) && IsState(e, x) && IsState(e, y)
    ensures MergeInto(e, x, x, y) == Merge(e, x, y)
    ensures IsState(e, Merge(e, x, y))
  {
    match e
    case Bounded(w, _, _) => MergeInPlace(w, x, y);
    case Aggregate(fn, _) =>
      LoadSaved(Load(x).0, 0.0, 0.0);
      LoadSaved(Load(y).0, 0.0, 0.0);
      LoadSaved(MergeValue(fn, true, Load(x).0, Load(y).0), 0.0, 0.0);
    case Average(_, _) =>
      var (countX, totalX, _) := LoadAverage(x);
      var (countY, totalY, _) := LoadAverage(y);
      LoadSaved(0.0, countX, totalX);
      LoadSaved(0.0, countY, totalY);
      LoadSaved(0.0, countX + countY, totalX + totalY);
    case Binary(_, l, r) =>
      var n := EncodedWidth(l);
      ZerosSplit(n, EncodedWidth(r));
      MergeInPlace(l, x[..n], y[..n]);
      MergeInPlace(r, x[n..], y[n..]);
      MergeSplits(e, x, y);
    case If(_, w) => MergeInPlace(w, x, y);
    case Shift(w, _) => MergeInPlace(w, x, y);
    case _ =>
  }

  lemma MergeIntoSplits(e: Expr, b: Bytes, x: Bytes, y: Bytes)
    requires Sized(e) && e.Binary? && |b| == |x| == |y| == EncodedWidth(e)
    ensures var n := EncodedWidth(e.left);
            MergeInto(e, b, x, y) == MergeInto(e.left, b[..n], x[..n], y[..n]) + MergeInto(e.right, b[n..], x[n..],
              y[n..])
  {
  }

  lemma MergeIntoWraps(e: Expr, b: Bytes, x: Bytes, y: Bytes)
    requires Sized(e) && (e.Bounded? || e.If? || e.Shift?) && |b| == |x| == |y| == EncodedWidth(e)
    ensures MergeInto(e, b, x, y) == MergeInto(e.wrapped, b, x, y)
  {
  }

  /** A binary expression merges its operands independently. */
  lemma MergeSplits(e: Expr, x: Bytes, y: Bytes)
    requires Sized(e) && e.Binary? && |x| == |y| == EncodedWidth(e)
    ensures var n := EncodedWidth(e.left);
            && Merge(e, x, y)[..n] == Merge(e.left, x[..n], y[..n])
            && Merge(e, x, y)[n..] == Merge(e.right, x[n..], y[n..])
  {
    ZerosSplit(EncodedWidth(e.left), EncodedWidth(e.right));
  }

  lemma SplitEquality(a: Bytes, b: Bytes, n: nat)
    requires n <= |a| && n <= |b|
    requires a[..n] == b[..n] && a[n..] == b[n..]
    ensures a == b
  {
    assert a == a[..n] + a[n..];
    assert b == b[..n] + b[n..];
  }

  /** Zero bytes are the identity of Merge. */
  lemma {:induction false} MergeIdentity(e: Expr, x: Bytes)
    requires Sized(e) && IsState(e, x)
    ensures Merge(e, x, Zeros(EncodedWidth(e))) == x
    ensures Merge(e, Zeros(EncodedWidth(e)), x) == x
  {
    match e
    case Bounded(w, _, _) => MergeIdentity(w, x);
    case Binary(_, l, r) =>
      var n := EncodedWidth(l);
      var z := Zeros(EncodedWidth(e));
      ZerosSplit(n, EncodedWidth(r));
      MergeIdentity(l, x[..n]);
      MergeIdentity(r, x[n..]);
      MergeSplits(e, x, z);
      MergeSplits(e, z, x);
      SplitEquality(Merge(e, x, z), x, n);
      SplitEquality(Merge(e, z, x), x, n);
    case If(_, w) => MergeIdentity(w, x);
    case Shift(w, _) => MergeIdentity(w, x);
    case _ =>
  }

  lemma {:induction false} MergeCommutes(e: Expr, x: Bytes, y: Bytes)
    requires Sized(e) && IsState(e, x) && IsState(e, y)
    ensures Merge(e, x, y) == Merge(e, y, x)
  {
    match e
    case Bounded(w, _, _) => MergeCommutes(w, x, y);
    case Binary(_, l, r) =>
      var n := EncodedWidth(l);
      MergeCommutes(l, x[..n], y[..n]);
      MergeCommutes(r, x[n..], y[n..]);
      MergeSplits(e, x, y);
      MergeSplits(e, y, x);
      SplitEquality(Merge(e, x, y), Merge(e, y, x), n);
    case If(_, w) => MergeCommutes(w, x, y);
    case Shift(w, _) => MergeCommutes(w, x, y);
    case _ =>
  }

  lemma {:induction false} MergeAssociates(e: Expr, x: Bytes, y: Bytes, z: Bytes)
    requires Sized(e) && IsState(e, x) && IsState(e, y) && IsState(e, z)
    ensures Merge(e, Merge(e, x, y), z) == Merge(e, x, Merge(e, y, z))
  {
    match e
    case Bounded(w, _, _) => MergeAssociates(w, x, y, z);
    case Aggregate(fn, _) =>
      AggregateAssociates(e, x, y, z);
    case Average(_, _) =>
      AverageAssociates(e, x, y, z);
    case Binary(_, l, r) =>
      var n := EncodedWidth(l);
      MergeAssociates(l, x[..n], y[..n], z[..n]);
      MergeAssociates(r, x[n..], y[n..], z[n..]);
      MergeSplits(e, x, y);
      MergeSplits(e, y, z);
      MergeSplits(e, Merge(e, x, y), z);
      MergeSplits(e, x, Merge(e, y, z));
      SplitEquality(Merge(e, Merge(e, x, y), z), Merge(e, x, Merge(e, y, z)), n);
    case If(_, w) => MergeAssociates(w, x, y, z);
    case Shift(w, _) => MergeAssociates(w, x, y, z);
    case _ =>
  }

  /** The aggregate state holding an optional value. */
  function AggregateCell(v: Option<real>): (b: Bytes)
    ensures |b| == AGGREGATE_WIDTH
    ensures Load(b) == if v.Some? then (v.value, true) else (0.0, false)
  {
    LoadSaved(if v.Some? then v.value else 0.0, 0.0, 0.0);
    if v.Some? then Saved(v.value) else Zeros(AGGREGATE_WIDTH)
  }

  function AggregateValue(b: Bytes): (v: Option<real>)
    requires |b| == AGGREGATE_WIDTH
  {
    if Load(b).1 then Some(Load(b).0) else None
  }

  function MergeOptions(fn: Aggregator, x: Option<real>, y: Option<real>): Option<real> {
    if x.None? then y else if y.None? then x else Some(MergeValue(fn, true, x.value, y.value))
  }

  lemma AggregateIsCell(e: Expr, x: Bytes)
    requires Sized(e) && e.Aggregate? && IsState(e, x)
    ensures x == AggregateCell(AggregateValue(x))
  {
    LoadSaved(Load(x).0, 0.0, 0.0);
  }

  lemma MergeAggregates(e: Expr, x: Option<real>, y: Option<real>)
    requires Sized(e) && e.Aggregate?
    ensures Merge(e, AggregateCell(x), AggregateCell(y)) == AggregateCell(MergeOptions(e.fn, x, y))
  {
  }

  lemma AggregateAssociates(e: Expr, x: Bytes, y: Bytes, z: Bytes)
    requires Sized(e) && e.Aggregate?
    requires IsState(e, x) && IsState(e, y) && IsState(e, z)
    ensures Merge(e, Merge(e, x, y), z) == Merge(e, x, Merge(e, y, z))
  {
    hide Merge, AggregateCell;
    var vx, vy, vz := AggregateValue(x), AggregateValue(y), AggregateValue(z);
    AggregateIsCell(e, x);
    AggregateIsCell(e, y);
    AggregateIsCell(e, z);
    MergeAggregates(e, vx, vy);
    MergeAggregates(e, vy, vz);
    MergeAggregates(e, MergeOptions(e.fn, vx, vy), vz);
    MergeAggregates(e, vx, MergeOptions(e.fn, vy, vz));
  }

  /** The average state holding an optional count and total. */
  function AverageCell(v: Option<(real, real)>): (b: Bytes)
    ensures |b| == AVERAGE_WIDTH
    ensures LoadAverage(b) == if v.Some? then (v.value.0, v.value.1, true) else (0.0, 0.0, false)
  {
    if v.Some? then
      LoadSaved(0.0, v.value.0, v.value.1);
      SavedAverage(v.value.0, v.value.1)
    else
      LoadSaved(0.0, 0.0, 0.0);
      Zeros(AVERAGE_WIDTH)
  }

  function AverageValue(b: Bytes): (v: Option<(real, real)>)
    requires |b| == AVERAGE_WIDTH
  {
    if LoadAverage(b).2 then Some((LoadAverage(b).0, LoadAverage(b).1)) else None
  }

  function AddOptions(x: Option<(real, real)>, y: Option<(real, real)>): Option<(real, real)> {
    if x.None? then y else if y.None? then x else Some((x.value.0 + y.value.0, x.value.1 + y.value.1))
  }

  lemma AverageIsCell(e: Expr, x: Bytes)
    requires Sized(e) && e.Average? && IsState(e, x)
    ensures x == AverageCell(AverageValue(x))
  {
    LoadSaved(0.0, LoadAverage(x).0, LoadAverage(x).1);
  }

  lemma MergeAverages(e: Expr, x: Option<(real, real)>, y: Option<(real, real)>)
    requires Sized(e) && e.Average?
    ensures Merge(e, AverageCell(x), AverageCell(y)) == AverageCell(AddOptions(x, y))
  {
  }

  lemma AverageAssociates(e: Expr, x: Bytes, y: Bytes, z: Bytes)
    requires Sized(e) && e.Average?
    requires IsState(e, x) && IsState(e, y) && IsState(e, z)
    ensures Merge(e, Merge(e, x, y), z) == Merge(e, x, Merge(e, y, z))
  {
    hide Merge, AverageCell;
    var vx, vy, vz := AverageValue(x), AverageValue(y), AverageValue(z);
    AverageIsCell(e, x);
    AverageIsCell(e, y);
    AverageIsCell(e, z);
    MergeAverages(e, vx, vy);
    MergeAverages(e, vy, vz);
    MergeAverages(e, AddOptions(vx, vy), vz);
    MergeAverages(e, vx, AddOptions(vy, vz));
  }

  /** Updating a merge is merging with an update. */
  lemma {:induction false} UpdateOfMerge(sem: Conditions, e: Expr, x: Bytes, y: Bytes, pt: Point)
    requires Sized(e) && IsState(e, x) && IsState(e, y)
    ensures Update(sem, e, Merge(e, x, y), pt) == Merge(e, x, Update(sem, e, y, pt))
  {
    match e
    case Bounded(w, _, _) => UpdateOfMerge(sem, w, x, y, pt);
    case Aggregate(fn, w) => AggregateUpdateOfMerge(sem, e, x, y, pt);
    case Average(_, _) => AverageUpdateOfMerge(sem, e, x, y, pt);
    case Binary(_, l, r) =>
      var n := EncodedWidth(l);
      UpdateOfMerge(sem, l, x[..n], y[..n], pt);
      UpdateOfMerge(sem, r, x[n..], y[n..], pt);
      var u := Update(sem, e, y, pt);
      UpdateSplits(sem, e, y, pt);
      MergeSplits(e, x, y);
      MergeSplits(e, x, u);
      var v := Update(sem, e, Merge(e, x, y), pt);
      UpdateSplits(sem, e, Merge(e, x, y), pt);
      SplitEquality(v, Merge(e, x, u), n);
    case If(cond, w) =>
      if Include(sem, cond, pt.metadata) { UpdateOfMerge(sem, w, x, y, pt); }
    case Shift(w, _) => UpdateOfMerge(sem, w, x, y, pt);
    case _ =>
  }

  lemma AggregateUpdateOfMerge(sem: Conditions, e: Expr, x: Bytes, y: Bytes, pt: Point)
    requires Sized(e) && e.Aggregate? && IsState(e, x) && IsState(e, y)
    ensures Update(sem, e, Merge(e, x, y), pt) == Merge(e, x, Update(sem, e, y, pt))
  {
    var (value, updated) := Delta(sem, e.wrapped, pt);
    var vx, vy := AggregateValue(x), AggregateValue(y);
    AggregateIsCell(e, x);
    AggregateIsCell(e, y);
    MergeAggregates(e, vx, vy);
    var next := UpdateValue(e.fn, vy.Some?, Load(y).0, value);
    assert AggregateCell(Some(next)) == Saved(next);
    MergeAggregates(e, vx, Some(next));
  }

  function AddWeight(v: Option<(real, real)>, value: real, weight: real): Option<(real, real)> {
    var (count, total) := if v.Some? then v.value else (0.0, 0.0);
    Some((count + weight, total + Weigh(value, weight)))
  }

  lemma UpdateAverage(sem: Conditions, e: Expr, v: Option<(real, real)>, pt: Point)
    requires Sized(e) && e.Average?
    ensures var (value, updated) := Delta(sem, e.val, pt);
            var weight := Delta(sem, e.weight, pt).0;
            Update(sem, e, AverageCell(v), pt) == AverageCell(if updated then AddWeight(v, value, weight) else v)
  {
  }

  lemma AverageUpdateOfMerge(sem: Conditions, e: Expr, x: Bytes, y: Bytes, pt: Point)
    requires Sized(e) && e.Average? && IsState(e, x) && IsState(e, y)
    ensures Update(sem, e, Merge(e, x, y), pt) == Merge(e, x, Update(sem, e, y, pt))
  {
    hide Merge, Update, AverageCell, Weigh;
    var (value, updated) := Delta(sem, e.val, pt);
    var weight := Delta(sem, e.weight, pt).0;
    var vx, vy := AverageValue(x), AverageValue(y);
    AverageIsCell(e, x);
    AverageIsCell(e, y);
    MergeAverages(e, vx, vy);
    UpdateAverage(sem, e, vy, pt);
    UpdateAverage(sem, e, AddOptions(vx, vy), pt);
    MergeAverages(e, vx, AddWeight(vy, value, weight));
  }

  // ---------------------------------------------------------------- lists of points

  lemma {:induction false} StateIsState(sem: Conditions, e: Expr, points: seq<Point>)
    requires Sized(e)
    ensures IsState(e, State(sem, e, points))
  {
    if points == [] {
      ZerosAreState(e);
    } else {
      StateIsState(sem, e, points[..|points| - 1]);
      UpdateIsState(sem, e, State(sem, e, points[..|points| - 1]), points[|points| - 1]);
    }
  }

  /** Merge is a homomorphism: merging two states is the state of both lists of points. */
  lemma {:induction false} MergeIsConcat(sem: Conditions, e: Expr, us: seq<Point>, vs: seq<Point>)
    requires Sized(e)
    ensures Merge(e, State(sem, e, us), State(sem, e, vs)) == State(sem, e, us + vs)
  {
    StateIsState(sem, e, us);
    if vs == [] {
      assert us + vs == us;
      MergeIdentity(e, State(sem, e, us));
    } else {
      var init, last := vs[..|vs| - 1], vs[|vs| - 1];
      StateIsState(sem, e, init);
      UpdateOfMerge(sem, e, State(sem, e, us), State(sem, e, init), last);
      MergeIsConcat(sem, e, us, init);
      assert (us + vs)[..|us + vs| - 1] == us + init;
    }
  }

  /** A state depends only on the multiset of points: their order does not matter. */
  lemma {:induction false} StateOfPermutation(sem: Conditions, e: Expr, us: seq<Point>, vs: seq<Point>)
    requires Sized(e)
    requires multiset(us) == multiset(vs)
    ensures State(sem, e, us) == State(sem, e, vs)
    decreases |us|
  {
    if us == [] {
      assert |multiset(vs)| == 0;
      assert vs == [];
    } else {
      var p := us[0];
      assert p in multiset(us);
      assert p in vs;
      var i :| 0 <= i < |vs| && vs[i] == p;
      var rest := vs[..i] + vs[i + 1..];
      assert us == [p] + us[1..];
      assert vs == vs[..i] + [p] + vs[i + 1..];
      assert multiset(us[1..]) == multiset(us) - multiset{p};
      assert multiset(rest) == multiset(vs) - multiset{p};
      StateOfPermutation(sem, e, us[1..], rest);
      MergeIsConcat(sem, e, [p], us[1..]);
      MoveToFront(sem, e, vs[..i], p, vs[i + 1..]);
    }
  }

  lemma MoveToFront(sem: Conditions, e: Expr, pre: seq<Point>, p: Point, post: seq<Point>)
    requires Sized(e)
    ensures State(sem, e, pre + [p] + post) == Merge(e, State(sem, e, [p]), State(sem, e, pre + post))
  {
    var a, b, c := State(sem, e, pre), State(sem, e, [p]), State(sem, e, post);
    StateIsState(sem, e, pre);
    StateIsState(sem, e, [p]);
    StateIsState(sem, e, post);
    MergeIsConcat(sem, e, pre + [p], post);
    MergeIsConcat(sem, e, pre, [p]);
    MergeIsConcat(sem, e, pre, post);
    MergeCommutes(e, a, b);
    MergeAssociates(e, b, a, c);
  }

  // ---------------------------------------------------------------- what the aggregates compute

  /** The values that the points contribute to an aggregate over w. */
  function Contributions(sem: Conditions, w: Expr, points: seq<Point>): seq<real>
    requires EncodedWidth(w) == 0
  {
    if points == [] then [] else
      var (value, updated) := Delta(sem, w, points[|points| - 1]);
      Contributions(sem, w, points[..|points| - 1]) + if updated then [value] else []
  }

  function Total(vs: seq<real>): real {
    if vs == [] then 0.0 else Total(vs[..|vs| - 1]) + vs[|vs| - 1]
  }

  /** SUM is the total of the contributed values, COUNT their number, MIN and MAX their extremes. */
  predicate Summarizes(fn: Aggregator, vs: seq<real>, v: real) {
    match fn
    case Sum => v == Total(vs)
    case Count => v == |vs| as real
    case Min => v in vs && forall x | x in vs :: v <= x
    case Max => v in vs && forall x | x in vs :: x <= v
  }

  /** An aggregate is set once some point contributed, and then holds the summary of the contributions. */
  lemma {:induction false} AggregateMeaning(sem: Conditions, fn: Aggregator, w: Expr, points: seq<Point>)
    requires EncodedWidth(w) == 0
    ensures var e := Aggregate(fn, w);
            var vs := Contributions(sem, w, points);
            var (v, wasSet) := Get(e, State(sem, e, points));
            && (wasSet <==> vs != [])
            && (wasSet ==> Summarizes(fn, vs, v))
            && (!wasSet ==> v == 0.0)
  {
    var e := Aggregate(fn, w);
    LoadSaved(0.0, 0.0, 0.0);
    if points != [] {
      var init, last := points[..|points| - 1], points[|points| - 1];
      AggregateMeaning(sem, fn, w, init);
      var (v, wasSet) := Load(State(sem, e, init));
      var (value, updated) := Delta(sem, w, last);
      if updated {
        LoadSaved(UpdateValue(fn, wasSet, v, value), 0.0, 0.0);
        SummaryStep(fn, Contributions(sem, w, init), wasSet, v, value);
      } else {
        assert Contributions(sem, w, points) == Contributions(sem, w, init);
      }
    }
  }

  /** One more contribution keeps the summary right. */
  lemma SummaryStep(fn: Aggregator, vs: seq<real>, wasSet: bool, v: real, value: real)
    requires if wasSet then vs != [] && Summarizes(fn, vs, v) else vs == [] && v == 0.0
    ensures Summarizes(fn, vs + [value], UpdateValue(fn, wasSet, v, value))
  {
    assert (vs + [value])[..|vs|] == vs;
    assert value in vs + [value];
  }

  /** Total weight and weighted total of the points that contribute a value. */
  function WeightedTotals(sem: Conditions, v: Expr, weight: Expr, points: seq<Point>): (r: (real, real, bool))
    requires EncodedWidth(v) == 0 && EncodedWidth(weight) == 0
  {
    if points == [] then (0.0, 0.0, false) else
      var last := points[|points| - 1];
      var (count, total, any) := WeightedTotals(sem, v, weight, points[..|points| - 1]);
      var (value, updated) := Delta(sem, v, last);
      var w := Delta(sem, weight, last).0;
      if updated then (count + w, total + value * w, true) else (count, total, any)
  }

  lemma {:induction false} AverageTotals(sem: Conditions, v: Expr, weight: Expr, points: seq<Point>)
    requires EncodedWidth(v) == 0 && EncodedWidth(weight) == 0
    ensures LoadAverage(State(sem, Average(v, weight), points)) == WeightedTotals(sem, v, weight, points)
  {
    LoadSaved(0.0, 0.0, 0.0);
    if points != [] {
      AverageTotals(sem, v, weight, points[..|points| - 1]);
      var (count, total, any) := WeightedTotals(sem, v, weight, points);
      LoadSaved(0.0, count, total);
    }
  }

  /** An average reads as the weighted mean of the points that contributed a value, or zero if they weigh nothing. */
  lemma AverageMeaning(sem: Conditions, v: Expr, weight: Expr, points: seq<Point>)
    requires EncodedWidth(v) == 0 && EncodedWidth(weight) == 0
    ensures var e := Average(v, weight);
            var (count, total, any) := WeightedTotals(sem, v, weight, points);
            var (mean, wasSet) := Get(e, State(sem, e, points));
            && LoadAverage(State(sem, e, points)) == (count, total, any) && wasSet == any
            && (any && count != 0.0 ==> mean * count == total) && (!any || count == 0.0 ==> mean == 0.0)
  {
    hide State, WeightedTotals, LoadAverage;
    AverageTotals(sem, v, weight, points);
    var (count, total, _) := WeightedTotals(sem, v, weight, points);
    if count != 0.0 { assert total / count * count == total; }
  }

  // ---------------------------------------------------------------- shared buffers

  /** The contents of a buffer after bytes were written at a position. */
  function Splice(s: Bytes, at: nat, bytes: Bytes): (r: Bytes)
    requires at + |bytes| <= |s|
    ensures |r| == |s|
  {
    seq(|s|, i requires 0 <= i < |s| => if at <= i < at + |bytes| then bytes[i - at] else s[i])
  }

  lemma SpliceNothing(s: Bytes, at: nat, n: nat)
    requires at + n <= |s|
    ensures Splice(s, at, s[at..at + n]) == s
  {
  }

  lemma SpliceTwice(s: Bytes, at: nat, a: Bytes, b: Bytes)
    requires at + |a| + |b| <= |s|
    ensures Splice(s, at, a)[at + |a|..at + |a| + |b|] == s[at + |a|..at + |a| + |b|]
    ensures Splice(Splice(s, at, a), at + |a|, b) == Splice(s, at, a + b)
  {
  }

  lemma SliceOfSlice(s: Bytes, at: nat, n: nat, end: nat)
    requires at + n <= end <= |s|
    ensures s[at..end][..n] == s[at..at + n] && s[at..end][n..] == s[at + n..end]
  {
  }

  /** Update on the bytes of a buffer, each leaf writing at its own position. */
  function UpdateBuffer(sem: Conditions, e: Expr, s: Bytes, at: nat, pt: Point): (r: Bytes)
    requires Sized(e) && at + EncodedWidth(e) <= |s|
    ensures |r| == |s|
  {
    match e
    case Bounded(w, _, _) => UpdateBuffer(sem, w, s, at, pt)
    case Binary(_, l, r) => UpdateBuffer(sem, r, UpdateBuffer(sem, l, s, at, pt), at + EncodedWidth(l), pt)
    case If(cond, w) => if Include(sem, cond, pt.metadata) then UpdateBuffer(sem, w, s, at, pt) else s
    case Shift(w, _) => UpdateBuffer(sem, w, s, at, pt)
    case Field(_) => s
    case Const(_) => s
    case _ => Splice(s, at, Update(sem, e, s[at..at + EncodedWidth(e)], pt))
  }

  /** Updating in a shared buffer changes exactly the state of the expression. */
  lemma {:induction false} UpdateBufferIsUpdate(sem: Conditions, e: Expr, s: Bytes, at: nat, pt: Point)
    requires Sized(e) && at + EncodedWidth(e) <= |s|
    ensures UpdateBuffer(sem, e, s, at, pt) == Splice(s, at, Update(sem, e, s[at..at + EncodedWidth(e)], pt))
  {
    hide Update, Splice;
    var n := EncodedWidth(e);
    var b := s[at..at + n];
    if e.Bounded? || e.Shift? || (e.If? && Include(sem, e.cond, pt.metadata)) {
      UpdateBufferIsUpdate(sem, e.wrapped, s, at, pt);
      UpdateWraps(sem, e, b, pt);
    } else if e.If? {
      UpdateWraps(sem, e, b, pt);
      SpliceNothing(s, at, n);
    } else if e.Binary? {
      var m := EncodedWidth(e.left);
      SliceOfSlice(s, at, m, at + n);
      UpdateSplits(sem, e, b, pt);
      UpdateBufferIsUpdate(sem, e.left, s, at, pt);
      UpdateBufferIsUpdate(sem, e.right, UpdateBuffer(sem, e.left, s, at, pt), at + m, pt);
      SpliceTwice(s, at, Update(sem, e.left, b[..m], pt), Update(sem, e.right, b[m..], pt));
    } else if e.Field? || e.Const? {
      SpliceNothing(s, at, 0);
      assert Update(sem, e, b, pt) == s[at..at + 0];
    }
  }

  /** Update writes through a shared buffer and returns the cursor after its own bytes. */
  method UpdateAt(sem: Conditions, e: Expr, buf: array<Octet>, at: nat, pt: Point) returns (remain: nat)
    requires Sized(e) && at + EncodedWidth(e) <= buf.Length
    modifies buf
    ensures remain == at + EncodedWidth(e)
    ensures buf[..] == UpdateBuffer(sem, e, old(buf[..]), at, pt)
  {
    hide Splice, Update;
    match e
    case Field(_) => remain := at;
    case Const(_) => remain := at;
    case Bounded(w, _, _) => remain := UpdateAt(sem, w, buf, at, pt);
    case Aggregate(_, _) => remain := UpdateLeafAt(sem, e, buf, at, pt);
    case Average(_, _) => remain := UpdateLeafAt(sem, e, buf, at, pt);
    case Binary(_, l, r) =>
      remain := UpdateAt(sem, l, buf, at, pt);
      remain := UpdateAt(sem, r, buf, remain, pt);
    case If(cond, w) =>
      remain := at + EncodedWidth(w);
      if Include(sem, cond, pt.metadata) { remain := UpdateAt(sem, w, buf, at, pt); }
    case Shift(w, _) => remain := UpdateAt(sem, w, buf, at, pt);
  }

  method UpdateLeafAt(sem: Conditions, e: Expr, buf: array<Octet>, at: nat, pt: Point) returns (remain: nat)
    requires Sized(e) && (e.Aggregate? || e.Average?) && at + EncodedWidth(e) <= buf.Length
    modifies buf
    ensures remain == at + EncodedWidth(e)
    ensures buf[..] == Splice(old(buf[..]), at, Update(sem, e, old(buf[..])[at..remain], pt))
  {
    hide Splice;
    remain := at + EncodedWidth(e);
    var b := buf[..][at..remain];
    SpliceNothing(buf[..], at, EncodedWidth(e));
    var (value, updated) := Delta(sem, if e.Aggregate? then e.wrapped else e.val, pt);
    if updated && e.Aggregate? {
      Store(buf, at, Saved(UpdateValue(e.fn, Load(b).1, Load(b).0, value)));
    } else if updated {
      Store(buf, at, AddWeighted(b, value, Delta(sem, e.weight, pt).0));
    }
  }

  /** A submerger's merge on the bytes of a buffer: the left input is the output itself. */
  function MergeBuffer(e: Expr, s: Bytes, at: nat, y: Bytes, yAt: nat): (r: Bytes)
    requires Sized(e) && at + EncodedWidth(e) <= |s| && yAt + EncodedWidth(e) <= |y|
    ensures |r| == |s|
  {
    match e
    case Bounded(w, _, _) => MergeBuffer(w, s, at, y, yAt)
    case Binary(_, l, r) =>
      MergeBuffer(r, MergeBuffer(l, s, at, y, yAt), at + EncodedWidth(l), y, yAt + EncodedWidth(l))
    case If(_, w) => MergeBuffer(w, s, at, y, yAt)
    case Shift(w, _) => MergeBuffer(w, s, at, y, yAt)
    case Field(_) => s
    case Const(_) => s
    case _ =>
      var x := s[at..at + EncodedWidth(e)];
      Splice(s, at, MergeInto(e, x, x, y[yAt..yAt + EncodedWidth(e)]))
  }

  /** Submerging in a shared buffer replaces the state by its merge with the other one, and nothing else. */
  lemma {:induction false} MergeBufferIsMerge(e: Expr, s: Bytes, at: nat, y: Bytes, yAt: nat)
    requires Sized(e) && at + EncodedWidth(e) <= |s| && yAt + EncodedWidth(e) <= |y|
    ensures var x, y' := s[at..at + EncodedWidth(e)], y[yAt..yAt + EncodedWidth(e)];
            MergeBuffer(e, s, at, y, yAt) == Splice(s, at, MergeInto(e, x, x, y'))
  {
    hide MergeInto, Splice;
    var n := EncodedWidth(e);
    var x, y' := s[at..at + n], y[yAt..yAt + n];
    if e.Bounded? || e.If? || e.Shift? {
      MergeBufferIsMerge(e.wrapped, s, at, y, yAt);
      MergeIntoWraps(e, x, x, y');
    } else if e.Binary? {
      var m := EncodedWidth(e.left);
      SliceOfSlice(s, at, m, at + n);
      SliceOfSlice(y, yAt, m, yAt + n);
      MergeIntoSplits(e, x, x, y');
      MergeBufferIsMerge(e.left, s, at, y, yAt);
      MergeBufferIsMerge(e.right, MergeBuffer(e.left, s, at, y, yAt), at + m, y, yAt + m);
      SpliceTwice(s, at, MergeInto(e.left, x[..m], x[..m], y'[..m]), MergeInto(e.right, x[m..], x[m..], y'[m..]));
    } else if e.Field? || e.Const? {
      SpliceNothing(s, at, 0);
      assert MergeInto(e, x, x, y') == s[at..at + 0];
    }
  }

  /** The merge of submergers: writes the left state in place and moves both cursors past it. */
  method SubMergeAt(e: Expr, data: array<Octet>, at: nat, other: array<Octet>, otherAt: nat)
    returns (remain: nat, otherRemain: nat)
    requires Sized(e) && data != other
    requires at + EncodedWidth(e) <= data.Length && otherAt + EncodedWidth(e) <= other.Length
    modifies data
    ensures remain == at + EncodedWidth(e) && otherRemain == otherAt + EncodedWidth(e)
    ensures data[..] == MergeBuffer(e, old(data[..]), at, other[..], otherAt)
  {
    hide Splice, MergeInto;
    match e
    case Field(_) => remain, otherRemain := at, otherAt;
    case Const(_) => remain, otherRemain := at, otherAt;
    case Bounded(w, _, _) => remain, otherRemain := SubMergeAt(w, data, at, other, otherAt);
    case Aggregate(_, _) => remain, otherRemain := SubMergeAggregateAt(e, data, at, other, otherAt);
    case Average(_, _) => remain, otherRemain := SubMergeAverageAt(e, data, at, other, otherAt);
    case Binary(_, l, r) =>
      remain, otherRemain := SubMergeAt(l, data, at, other, otherAt);
      remain, otherRemain := SubMergeAt(r, data, remain, other, otherRemain);
    case If(_, w) => remain, otherRemain := SubMergeAt(w, data, at, other, otherAt);
    case Shift(w, _) => remain, otherRemain := SubMergeAt(w, data, at, other, otherAt);
  }

  method SubMergeAggregateAt(e: Expr, data: array<Octet>, at: nat, other: array<Octet>, otherAt: nat)
    returns (remain: nat, otherRemain: nat)
    requires Sized(e) && e.Aggregate? && data != other
    requires at + EncodedWidth(e) <= data.Length && otherAt + EncodedWidth(e) <= other.Length
    modifies data
    ensures remain == at + EncodedWidth(e) && otherRemain == otherAt + EncodedWidth(e)
    ensures var x := old(data[..])[at..remain];
            data[..] == Splice(old(data[..]), at, MergeInto(e, x, x, other[..][otherAt..otherRemain]))
  {
    hide Splice;
    remain, otherRemain := at + AGGREGATE_WIDTH, otherAt + AGGREGATE_WIDTH;
    SpliceNothing(data[..], at, AGGREGATE_WIDTH);
    var (vx, setX) := Load(data[..][at..remain]);
    var (vy, setY) := Load(other[..][otherAt..otherRemain]);
    if !setX {
      if setY { Store(data, at, Saved(vy)); }
    } else {
      if setY { vx := MergeValue(e.fn, true, vx, vy); }
      Store(data, at, Saved(vx));
    }
  }

  method SubMergeAverageAt(e: Expr, data: array<Octet>, at: nat, other: array<Octet>, otherAt: nat)
    returns (remain: nat, otherRemain: nat)
    requires Sized(e) && e.Average? && data != other
    requires at + EncodedWidth(e) <= data.Length && otherAt + EncodedWidth(e) <= other.Length
    modifies data
    ensures remain == at + EncodedWidth(e) && otherRemain == otherAt + EncodedWidth(e)
    ensures var x := old(data[..])[at..remain];
            data[..] == Splice(old(data[..]), at, MergeInto(e, x, x, other[..][otherAt..otherRemain]))
  {
    hide Splice;
    remain, otherRemain := at + AVERAGE_WIDTH, otherAt + AVERAGE_WIDTH;
    SpliceNothing(data[..], at, AVERAGE_WIDTH);
    var (countX, totalX, setX) := LoadAverage(data[..][at..remain]);
    var (countY, totalY, setY) := LoadAverage(other[..][otherAt..otherRemain]);
    if !setX {
      if setY { Store(data, at, SavedAverage(countY, totalY)); }
    } else {
      if setY { countX, totalX := countX + countY, totalX + totalY; }
      Store(data, at, SavedAverage(countX, totalX));
    }
  }

  /** Copies bytes into a buffer. */
  method Store(buf: array<Octet>, at: nat, bytes: Bytes)
    requires at + |bytes| <= buf.Length
    modifies buf
    ensures buf[..] == Splice(old(buf[..]), at, bytes)
  {
    for i := 0 to |bytes|
      invariant buf[..] == Splice(old(buf[..]), at, bytes[..i])
    {
      buf[at + i] := bytes[i];
    }
    assert bytes[..|bytes|] == bytes;
  }
}
