/**
 * What expressions read as after a history of points.
 *
 * `Get` reads a value from the bytes of a state.  Here it is said for every kind of
 * expression what that value has to do with the points: which of them count, and
 * how the value of an expression follows from those of its parts.
 */
module Readings {
  import opened Wrappers
  import opened Accumulators
  import opened SubMergers
  import Columns

  /** What an expression reads as after some points, if it is set. */
  function Reading(sem: Conditions, e: Expr, points: seq<Point>): Option<real>
    requires Sized(e)
  {
    var (v, wasSet) := Get(e, State(sem, e, points));
    if wasSet then Some(v) else None
  }

  lemma {:induction false} UnsetIsZero(e: Expr, b: Bytes)
    requires Sized(e) && |b| == EncodedWidth(e)
    ensures !Get(e, b).1 ==> Get(e, b).0 == 0.0
  {
    match e
    case If(_, w) => UnsetIsZero(w, b);
    case Shift(w, _) => UnsetIsZero(w, b);
    case _ =>
  }

  /** An operand that is not set counts as zero. */
  function OrZero(r: Option<real>): real {
    if r.Some? then r.value else 0.0
  }

  lemma {:induction false} Pow2Adds(m: nat, n: nat)
    ensures Pow2(m + n) == Pow2(m) * Pow2(n)
  {
    if m > 0 { Pow2Adds(m - 1, n); }
  }

  /** The largest number of 53 bits is one unit in its last place below the 1024th power of two. */
  lemma LargestFloat()
    ensures Pow2(10) == 1024.0 && MAX_FLOAT == Pow2(1024) - Pow2(971)
  {
    Pow2Adds(53, 971);
  }

  /**
   * What an operator makes of two numbers.  Dividing by zero gives zero or the largest
   * number; comparisons are 1 if they hold and 0 if not, and a number counts as true
   * if it is positive.
   */
  predicate Computes(op: Operator, x: real, y: real, v: real) {
    match op
    case Add => v - y == x
    case Sub => v + y == x
    case Mult => v == x * y
    case Div => if y != 0.0 then v * y == x else v == if x == 0.0 then 0.0 else MAX_FLOAT
    case Lt => v == if x < y then 1.0 else 0.0
    case Lte => v == if y < x then 0.0 else 1.0
    case Eq => v == if x == y then 1.0 else 0.0
    case Neq => v == if x == y then 0.0 else 1.0
    case Gte => v == if x < y then 0.0 else 1.0
    case Gt => v == if y < x then 1.0 else 0.0
    case And => v == if x <= 0.0 || y <= 0.0 then 0.0 else 1.0
    case Or => v == if x <= 0.0 && y <= 0.0 then 0.0 else 1.0
  }

  lemma CalcComputes(op: Operator, x: real, y: real)
    ensures Computes(op, x, y, Calc(op, x, y))
  {
    if op.Div? && y != 0.0 { Divided(Calc(op, x, y), x, y); }
  }

  lemma Divided(v: real, x: real, y: real)
    requires y != 0.0 && v == x / y
    ensures v * y == x
  {
  }

  /** A binary expression is set once one of its operands is, and then holds what the operator makes of both. */
  lemma BinaryReads(sem: Conditions, op: Operator, l: Expr, r: Expr, points: seq<Point>)
    requires Sized(l) && Sized(r)
    ensures var left, right := Reading(sem, l, points), Reading(sem, r, points);
            var result := Reading(sem, Binary(op, l, r), points);
            && (result.Some? <==> left.Some? || right.Some?)
            && (result.Some? ==> Computes(op, OrZero(left), OrZero(right), result.value))
  {
    hide Computes, Calc, State;
    var e, a, b := Binary(op, l, r), State(sem, l, points), State(sem, r, points);
    Columns.BinaryState(sem, e, points);
    assert (a + b)[..EncodedWidth(l)] == a && (a + b)[EncodedWidth(l)..] == b;
    UnsetIsZero(l, a);
    UnsetIsZero(r, b);
    CalcComputes(op, Get(l, a).0, Get(r, b).0);
  }

  /** A bound lets through what lies within it, and nothing else. */
  lemma BoundedReads(sem: Conditions, w: Expr, min: real, max: real, points: seq<Point>)
    requires Sized(w)
    ensures var inner, result := Reading(sem, w, points), Reading(sem, Bounded(w, min, max), points);
            if inner.Some? && min <= inner.value && inner.value <= max then result == inner else result == None
  {
    Columns.WrappedState(sem, Bounded(w, min, max), points);
  }

  /** Constants are always set, and fields by themselves never. */
  lemma PlainReads(sem: Conditions, v: real, name: string, points: seq<Point>)
    ensures Reading(sem, Const(v), points) == Some(v) && Reading(sem, Field(name), points) == None
  {
  }

  /** The points whose dimensions meet a condition; a point without dimensions is not held to any. */
  function Passing(sem: Conditions, cond: Option<string>, points: seq<Point>): seq<Point> {
    if points == [] then [] else
      var p := points[0];
      var passes := if cond.Some? && p.metadata.Some?
        then sem(cond.value, p.metadata.value) == Some(Truth(true))
        else true;
      (if passes then [p] else []) + Passing(sem, cond, points[1..])
  }

  lemma {:induction false} PassingIsFilter(sem: Conditions, cond: Option<string>, points: seq<Point>)
    ensures Filter(sem, cond, points) == Passing(sem, cond, points)
  {
    if points != [] { PassingIsFilter(sem, cond, points[1..]); }
  }

  /** IF reads as its operand does after the points that pass. */
  lemma ConditionReads(sem: Conditions, cond: Option<string>, w: Expr, points: seq<Point>)
    requires Sized(w)
    ensures Reading(sem, If(cond, w), points) == Reading(sem, w, Passing(sem, cond, points))
  {
    Columns.IfState(sem, If(cond, w), points);
    PassingIsFilter(sem, cond, points);
  }

  /** SHIFT reads as its operand; it is submerging that looks at another time. */
  lemma ShiftReads(sem: Conditions, w: Expr, offset: int, points: seq<Point>)
    requires Sized(w)
    ensures Reading(sem, Shift(w, offset), points) == Reading(sem, w, points)
  {
    Columns.WrappedState(sem, Shift(w, offset), points);
  }

  // ---------------------------------------------------------------- which values count

  /** What a point gives to an expression without state, and whether it counts, by those of its parts. */
  lemma PartsGive(sem: Conditions, op: Operator, cond: Option<string>, offset: int, l: Expr, r: Expr, p: Point)
    requires EncodedWidth(l) == 0 && EncodedWidth(r) == 0
    ensures var (x, countsL), (y, countsR) := Delta(sem, l, p), Delta(sem, r, p);
            && Computes(op, x, y, Delta(sem, Binary(op, l, r), p).0)
            && (Delta(sem, Binary(op, l, r), p).1 <==> countsL || countsR)
    ensures Delta(sem, Shift(l, offset), p) == Delta(sem, l, p)
    ensures if Passing(sem, cond, [p]) == [p] then Delta(sem, If(cond, l), p) == Delta(sem, l, p)
            else !Delta(sem, If(cond, l), p).1
  {
    CalcComputes(op, Delta(sem, l, p).0, Delta(sem, r, p).0);
    assert Passing(sem, cond, [p]) == (if Include(sem, cond, p.metadata) then [p] else []) + Passing(sem, cond, [])
      by { assert [p][1..] == []; }
    assert [p] + [] == [p] && [] + [] != [p];
  }

  /** The values that points have for a field. */
  function Values(name: string, points: seq<Point>): seq<real> {
    if points == [] then [] else
      var p := points[|points| - 1];
      Values(name, points[..|points| - 1]) + if name in p.params then [p.params[name]] else []
  }

  function InRange(vs: seq<real>, min: real, max: real): seq<real> {
    if vs == [] then [] else
      var v := vs[|vs| - 1];
      InRange(vs[..|vs| - 1], min, max) + if v < min || max < v then [] else [v]
  }

  lemma {:induction false} FieldContributes(sem: Conditions, name: string, points: seq<Point>)
    ensures Contributions(sem, Field(name), points) == Values(name, points)
  {
    if points != [] { FieldContributes(sem, name, points[..|points| - 1]); }
  }

  lemma {:induction false} ConstContributes(sem: Conditions, v: real, points: seq<Point>)
    ensures Contributions(sem, Const(v), points) == []
  {
    if points != [] { ConstContributes(sem, v, points[..|points| - 1]); }
  }

  lemma {:induction false} BoundedContributes(sem: Conditions, w: Expr, min: real, max: real, points: seq<Point>)
    requires EncodedWidth(w) == 0
    ensures Contributions(sem, Bounded(w, min, max), points) == InRange(Contributions(sem, w, points), min, max)
  {
    if points != [] {
      var init, last := points[..|points| - 1], points[|points| - 1];
      BoundedContributes(sem, w, min, max, init);
      var had := Contributions(sem, w, init);
      var (v, updated) := Delta(sem, w, last);
      assert Contributions(sem, w, points) == had + if updated then [v] else [];
      if updated { assert (had + [v])[..|had|] == had; } else { assert had + [] == had; }
    }
  }

  /** An aggregate of a field summarizes the values that points have for it. */
  lemma FieldReads(sem: Conditions, fn: Aggregator, name: string, points: seq<Point>)
    ensures var vs, result := Values(name, points), Reading(sem, Aggregate(fn, Field(name)), points);
            if vs == [] then result == None else result.Some? && Summarizes(fn, vs, result.value)
  {
    FieldContributes(sem, name, points);
    AggregateMeaning(sem, fn, Field(name), points);
  }

  /** An aggregate of a bounded field summarizes those of them that lie within the bounds. */
  lemma RangeReads(sem: Conditions, fn: Aggregator, name: string, min: real, max: real, points: seq<Point>)
    ensures var vs := InRange(Values(name, points), min, max);
            var result := Reading(sem, Aggregate(fn, Bounded(Field(name), min, max)), points);
            if vs == [] then result == None else result.Some? && Summarizes(fn, vs, result.value)
  {
    FieldContributes(sem, name, points);
    BoundedContributes(sem, Field(name), min, max, points);
    AggregateMeaning(sem, fn, Bounded(Field(name), min, max), points);
  }
}
