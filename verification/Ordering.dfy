/**
 * ORDER BY, OFFSET and LIMIT, on one node and pushed down to partitions
 * (core/sort.go, core/offset.go, core/limit.go, planner/planner.go).
 *
 * Sorting is not stable, so the first rows of a sorted list are only determined
 * up to rows that compare equal: `IsTop` says what may come out.  Taking the top
 * of the union of the partitions' tops is taking the top of all rows
 * (`TopOfTops`).  Pushing an OFFSET down as well skips rows twice, and is right
 * only for an offset of 0 (`OffsetIsSafeIff`).
 */
module Ordering {

  // ---------------------------------------------------------------- comparing rows

  /** A row's time and its values by field or dimension, compared as numbers. */
  datatype Row = Row(ts: int, vals: string -> int)

  datatype OrderBy = Time(descending: bool) | Field(name: string, descending: bool)

  function Value(r: Row, o: OrderBy): int {
    var v := if o.Time? then r.ts else r.vals(o.name);
    if o.descending then -v else v
  }

  /** orderedRows.Less from the i-th criterion on: a later time is not decisive. */
  predicate LessFrom(orders: seq<OrderBy>, a: Row, b: Row, i: nat)
    requires i <= |orders|
    decreases |orders| - i
  {
    if i == |orders| then false
    else if Value(a, orders[i]) < Value(b, orders[i]) then true
    else if orders[i].Field? && Value(a, orders[i]) > Value(b, orders[i]) then false
    else LessFrom(orders, a, b, i + 1)
  }

  /**
   * orderedRows.Less: one row comes before another if some criterion puts it there,
   * and by all criteria before that they are alike, or are times that go the other way.
   */
  method Less(orders: seq<OrderBy>, a: Row, b: Row) returns (less: bool)
    ensures less == LessFrom(orders, a, b, 0)
    ensures less <==>
            exists k ::
              && 0 <= k < |orders|
              && (match orders[k]
                  case Time(down) => if down then b.ts < a.ts else a.ts < b.ts
                  case Field(name, down) => if down then b.vals(name) < a.vals(name) else a.vals(name) < b.vals(name))
              && forall i | 0 <= i < k ::
                   match orders[i]
                   case Time(down) => if down then a.ts <= b.ts else b.ts <= a.ts
                   case Field(name, _) => a.vals(name) == b.vals(name)
  {
    LessIff(orders, a, b, 0);
    for i := 0 to |orders|
      invariant LessFrom(orders, a, b, i) == LessFrom(orders, a, b, 0)
    {
      if orders[i].Time? {
        var ta, tb := a.ts, b.ts;
        if orders[i].descending { ta, tb := tb, ta; }
        if ta < tb { return true; }
      } else {
        var va, vb := a.vals(orders[i].name), b.vals(orders[i].name);
        if orders[i].descending { va, vb := vb, va; }
        if va < vb { return true; }
        if va > vb { return false; }
      }
    }
    return false;
  }

  /** The criterion that decides, if there is one. */
  lemma {:induction false} LessIff(orders: seq<OrderBy>, a: Row, b: Row, i: nat)
    requires i <= |orders|
    ensures LessFrom(orders, a, b, i) <==>
            exists k ::
              && i <= k < |orders| && Value(a, orders[k]) < Value(b, orders[k])
              && forall j | i <= j < k ::
                   Value(a, orders[j]) == Value(b, orders[j])
                   || (orders[j].Time? && Value(a, orders[j]) > Value(b, orders[j]))
    decreases |orders| - i
  {
    if i < |orders| {
      LessIff(orders, a, b, i + 1);
      if Value(a, orders[i]) < Value(b, orders[i]) {
      } else if orders[i].Field? && Value(a, orders[i]) > Value(b, orders[i]) {
      } else if LessFrom(orders, a, b, i + 1) {
        var k :| i + 1 <= k < |orders| && Value(a, orders[k]) < Value(b, orders[k])
          && forall j | i + 1 <= j < k ::
               Value(a, orders[j]) == Value(b, orders[j])
               || (orders[j].Time? && Value(a, orders[j]) > Value(b, orders[j]));
        assert i <= k < |orders| && Value(a, orders[k]) < Value(b, orders[k]);
      }
    }
  }

  /** Lexicographic comparison. */
  predicate LexFrom(orders: seq<OrderBy>, a: Row, b: Row, i: nat)
    requires i <= |orders|
    decreases |orders| - i
  {
    i < |orders| &&
    (Value(a, orders[i]) < Value(b, orders[i]) || (Value(a, orders[i]) == Value(b, orders[i])
      && LexFrom(orders, a, b, i + 1)))
  }

  /** A criterion that cannot tell rows apart once an earlier time criterion was reached. */
  predicate Idle(orders: seq<OrderBy>, i: nat, j: nat)
    requires i < j < |orders|
  {
    orders[j] == orders[i] || (orders[j].Field? && exists k ::
      0 <= k < i && orders[k].Field? && orders[k].name == orders[j].name)
  }

  /** After a time criterion nothing follows but repetitions of it, or of fields before it. */
  predicate TimeLast(orders: seq<OrderBy>) {
    forall i, j | 0 <= i < j < |orders| :: orders[i].Time? ==> Idle(orders, i, j)
  }

  /** The rows do not differ in the fields of the first i criteria. */
  predicate AlikeBefore(orders: seq<OrderBy>, a: Row, b: Row, i: nat)
    requires i <= |orders|
  {
    forall k | 0 <= k < i && orders[k].Field? :: a.vals(orders[k].name) == b.vals(orders[k].name)
  }

  lemma {:induction false} NotLess(orders: seq<OrderBy>, a: Row, b: Row, i: nat)
    requires i <= |orders| && forall j | i <= j < |orders| :: Value(a, orders[j]) >= Value(b, orders[j])
    ensures !LessFrom(orders, a, b, i)
    decreases |orders| - i
  {
    if i < |orders| { NotLess(orders, a, b, i + 1); }
  }

  /** With time last, rows are compared lexicographically. */
  lemma {:induction false} LessIsLex(orders: seq<OrderBy>, a: Row, b: Row, i: nat)
    requires TimeLast(orders) && i <= |orders| && AlikeBefore(orders, a, b, i)
    ensures LessFrom(orders, a, b, i) == LexFrom(orders, a, b, i)
    decreases |orders| - i
  {
    if i < |orders| {
      if Value(a, orders[i]) == Value(b, orders[i]) {
        LessIsLex(orders, a, b, i + 1);
      } else if orders[i].Time? && Value(a, orders[i]) > Value(b, orders[i]) {
        forall j | i < j < |orders| ensures Value(a, orders[j]) >= Value(b, orders[j]) { assert Idle(orders, i, j); }
        NotLess(orders, a, b, i + 1);
      }
    }
  }

  /**
   * With time last, a row comes before another exactly if it does by the first
   * criterion in which they differ: the smaller value first, or the larger one when
   * descending.
   */
  lemma LessMeaning(orders: seq<OrderBy>, a: Row, b: Row)
    requires TimeLast(orders)
    ensures LessFrom(orders, a, b, 0) <==>
            exists k ::
              && 0 <= k < |orders|
              && (match orders[k]
                  case Time(down) => if down then b.ts < a.ts else a.ts < b.ts
                  case Field(name, down) => if down then b.vals(name) < a.vals(name) else a.vals(name) < b.vals(name))
              && forall i | 0 <= i < k ::
                   match orders[i]
                   case Time(_) => a.ts == b.ts
                   case Field(name, _) => a.vals(name) == b.vals(name)
  {
    LessIsLex(orders, a, b, 0);
    LexIff(orders, a, b, 0);
  }

  lemma {:induction false} LexIff(orders: seq<OrderBy>, a: Row, b: Row, i: nat)
    requires i <= |orders|
    ensures LexFrom(orders, a, b, i) <==>
            exists k ::
              && i <= k < |orders| && Value(a, orders[k]) < Value(b, orders[k])
              && forall j | i <= j < k :: Value(a, orders[j]) == Value(b, orders[j])
    decreases |orders| - i
  {
    if i < |orders| {
      LexIff(orders, a, b, i + 1);
      if Value(a, orders[i]) == Value(b, orders[i]) && LexFrom(orders, a, b, i + 1) {
        var k :| i + 1 <= k < |orders| && Value(a, orders[k]) < Value(b, orders[k])
          && forall j | i + 1 <= j < k :: Value(a, orders[j]) == Value(b, orders[j]);
        assert i <= k < |orders| && Value(a, orders[k]) < Value(b, orders[k]);
      }
    }
  }

  lemma {:induction false} LexIsStrict(orders: seq<OrderBy>, a: Row, b: Row, i: nat)
    requires i <= |orders| && LexFrom(orders, a, b, i)
    ensures !LexFrom(orders, b, a, i)
    decreases |orders| - i
  {
    if Value(a, orders[i]) == Value(b, orders[i]) { LexIsStrict(orders, a, b, i + 1); }
  }

  /** What is not less is transitive: lexicographic comparison is a strict weak order. */
  lemma {:induction false} LexIsWeak(orders: seq<OrderBy>, a: Row, b: Row, c: Row, i: nat)
    requires i <= |orders| && !LexFrom(orders, b, a, i) && !LexFrom(orders, c, b, i)
    ensures !LexFrom(orders, c, a, i)
    decreases |orders| - i
  {
    if i < |orders| && Value(a, orders[i]) == Value(b, orders[i]) == Value(c, orders[i]) {
      LexIsWeak(orders, a, b, c, i + 1);
    }
  }

  ghost predicate IsAsymmetric(orders: seq<OrderBy>) {
    forall a, b :: LessFrom(orders, a, b, 0) ==> !LessFrom(orders, b, a, 0)
  }

  /** Less is fit for sorting: asymmetric, and not-less is transitive. */
  ghost predicate IsStrictWeakOrder(orders: seq<OrderBy>) {
    && IsAsymmetric(orders)
    && (forall a, b, c :: !LessFrom(orders, b, a, 0) && !LessFrom(orders, c, b, 0) ==> !LessFrom(orders, c, a, 0))
  }

  /** The first criterion by which one row comes before the other decides, if only later times go before it. */
  lemma {:induction false} LessAt(orders: seq<OrderBy>, a: Row, b: Row, i: nat, j: nat)
    requires i <= j < |orders| && Value(a, orders[j]) < Value(b, orders[j])
    requires forall k | i <= k < j ::
             Value(a, orders[k]) == Value(b, orders[k])
             || (orders[k].Time? && Value(a, orders[k]) > Value(b, orders[k]))
    ensures LessFrom(orders, a, b, i)
    decreases j - i
  {
    if i < j { LessAt(orders, a, b, i + 1, j); }
  }

  /** The first time criterion that something else follows, and the first that does. */
  lemma FirstTrouble(orders: seq<OrderBy>) returns (i: nat, j: nat)
    requires !TimeLast(orders)
    ensures i < j < |orders| && orders[i].Time? && !Idle(orders, i, j)
    ensures (forall k | 0 <= k < i :: orders[k].Field?) && forall k | i < k < j :: Idle(orders, i, k)
  {
    var m, n :| 0 <= m < n < |orders| && orders[m].Time? && !Idle(orders, m, n);
    i := 0;
    while !orders[i].Time?
      invariant i <= m && forall k | 0 <= k < i :: orders[k].Field?
      decreases m - i
    {
      i := i + 1;
    }
    if forall k | i < k <= n :: Idle(orders, i, k) {
      IdleLater(orders, i, m, n);
    }
    j := i + 1;
    while Idle(orders, i, j)
      invariant i < j <= n && (forall k | i < k < j :: Idle(orders, i, k))
      invariant exists k :: j <= k <= n && !Idle(orders, i, k)
      decreases n - j
    {
      j := j + 1;
    }
  }

  /** If all that follows the first time criterion is idle, then also what follows a later one. */
  lemma IdleLater(orders: seq<OrderBy>, i: nat, m: nat, n: nat)
    requires i <= m < n < |orders| && orders[i].Time? && orders[m].Time? && forall k | i < k <= n :: Idle(orders, i, k)
    ensures Idle(orders, m, n)
  {
    assert m > i ==> Idle(orders, i, m);
    assert Idle(orders, i, n);
  }

  /** Otherwise there are two rows each of which comes before the other. */
  lemma TimeNotLast(orders: seq<OrderBy>)
    requires !TimeLast(orders)
    ensures !IsAsymmetric(orders)
  {
    var i, j := FirstTrouble(orders);
    var x, other := orders[i], orders[j];
    var sign := if other.descending then 1 else -1;
    var a := Row(if x.descending then 1 else 0, (name: string) => 0);
    var b := Row(if x.descending then 0 else 1, (name: string) => if other.Field?
      && name == other.name then sign else 0);
    forall k | 0 <= k < i ensures Value(a, orders[k]) == Value(b, orders[k]) {
      assert other.Field? ==> orders[k].name != other.name;
    }
    forall k | i < k < j ensures Value(b, orders[k]) == Value(a, orders[k])
      || (orders[k].Time? && Value(b, orders[k]) > Value(a, orders[k])) {
      assert Idle(orders, i, k);
    }
    LessAt(orders, a, b, 0, i);
    LessAt(orders, b, a, 0, j);
  }

  /** The comparison is a strict weak order exactly when nothing of effect follows a time criterion. */
  lemma OrderIsSoundIff(orders: seq<OrderBy>)
    ensures IsStrictWeakOrder(orders) <==> TimeLast(orders)
  {
    hide TimeLast;
    if TimeLast(orders) {
      forall a, b | LessFrom(orders, a, b, 0) ensures !LessFrom(orders, b, a, 0) {
        LessIsLex(orders, a, b, 0);
        LessIsLex(orders, b, a, 0);
        LexIsStrict(orders, a, b, 0);
      }
      forall a, b, c | !LessFrom(orders, b, a, 0) && !LessFrom(orders, c, b, 0) ensures !LessFrom(orders, c, a, 0) {
        LessIsLex(orders, b, a, 0);
        LessIsLex(orders, c, b, 0);
        LessIsLex(orders, c, a, 0);
        LexIsWeak(orders, a, b, c, 0);
      }
    } else {
      TimeNotLast(orders);
    }
  }

  /**
   * Ordered by time and then by a: an earlier row with a larger a and a later one
   * with a smaller a each come before the other.
   */
  lemma TimeFirstIsNoOrder()
    ensures var orders, early, late := [Time(false), Field("a", false)], Row(1, _ => 2), Row(2, _ => 1);
            LessFrom(orders, early, late, 0) && LessFrom(orders, late, early, 0)
  {
    var orders, early, late := [Time(false), Field("a", false)], Row(1, _ => 2), Row(2, _ => 1);
    LessAt(orders, early, late, 0, 0);
    LessAt(orders, late, early, 0, 1);
  }

  // ---------------------------------------------------------------- sorting and limiting

  /** An order for sorting: any two elements compare, and comparing is transitive. */
  ghost predicate IsOrder<T(!new)>(le: (T, T) -> bool) {
    (forall a, b :: le(a, b) || le(b, a)) && (forall a, b, c :: le(a, b) && le(b, c) ==> le(a, c))
  }

  /** Rows can be sorted by their criteria exactly if nothing of effect follows a time criterion. */
  lemma RowsAreOrderedIff(orders: seq<OrderBy>)
    ensures IsOrder((a: Row, b: Row) => !LessFrom(orders, b, a, 0)) <==> TimeLast(orders)
  {
    hide LessFrom, TimeLast;
    OrderIsSoundIff(orders);
    var le := (a: Row, b: Row) => !LessFrom(orders, b, a, 0);
    if IsOrder(le) {
      forall a, b ensures !(LessFrom(orders, a, b, 0) && LessFrom(orders, b, a, 0)) { assert le(a, b) || le(b, a); }
      forall a, b, c | !LessFrom(orders, b, a, 0) && !LessFrom(orders, c, b, 0) ensures !LessFrom(orders, c, a, 0) {
        assert le(a, b) && le(b, c);
      }
    }
  }

  ghost predicate Sorted<T(!new)>(le: (T, T) -> bool, rows: seq<T>) {
    forall i, j | 0 <= i < j < |rows| :: le(rows[i], rows[j])
  }

  function Min(a: nat, b: nat): nat {
    if a < b then a else b
  }

  /** The first k rows of some sorted list of all rows: nothing left out comes before anything kept. */
  ghost predicate IsTop<T(!new)>(le: (T, T) -> bool, top: seq<T>, all: multiset<T>, k: nat) {
    && Sorted(le, top) && multiset(top) <= all && |top| == Min(k, |all|)
    && forall x, y | x in all - multiset(top) && y in top :: le(y, x)
  }

  /** Limiting a sorted list gives a top. */
  lemma LimitIsTop<T(!new)>(le: (T, T) -> bool, sorted: seq<T>, k: nat)
    requires Sorted(le, sorted)
    ensures IsTop(le, sorted[..Min(k, |sorted|)], multiset(sorted), k)
  {
    var n := Min(k, |sorted|);
    var top, rest := sorted[..n], sorted[n..];
    assert sorted == top + rest;
    assert multiset(sorted) == multiset(top) + multiset(rest);
    assert multiset(sorted) - multiset(top) == multiset(rest);
    assert |multiset(sorted)| == |sorted|;
    forall x, y | x in multiset(rest) && y in top ensures le(y, x) {
      var i :| 0 <= i < |top| && top[i] == y;
      assert x in rest;
      var j :| 0 <= j < |rest| && rest[j] == x;
      assert sorted[i] == y && sorted[n + j] == x;
    }
  }

  function SumOf<T>(parts: seq<multiset<T>>): multiset<T> {
    if parts == [] then multiset{} else SumOf(parts[..|parts| - 1]) + parts[|parts| - 1]
  }

  function Bags<T>(lists: seq<seq<T>>): (r: seq<multiset<T>>)
    ensures |r| == |lists|
  {
    seq(|lists|, i requires 0 <= i < |lists| => multiset(lists[i]))
  }

  /** Each part counts into the sum. */
  lemma {:induction false} PartCounts<T>(parts: seq<multiset<T>>, i: nat)
    requires i < |parts|
    ensures parts[i] <= SumOf(parts) && |parts[i]| <= |SumOf(parts)|
  {
    var n := |parts| - 1;
    if i < n { PartCounts(parts[..n], i); }
  }

  lemma {:induction false} SumGrows<T>(small: seq<multiset<T>>, big: seq<multiset<T>>)
    requires |small| == |big| && forall i | 0 <= i < |small| :: small[i] <= big[i]
    ensures SumOf(small) <= SumOf(big)
  {
    if small != [] { SumGrows(small[..|small| - 1], big[..|big| - 1]); }
  }

  /** What the sums differ in, some parts differ in. */
  lemma {:induction false} SumDiffers<T>(small: seq<multiset<T>>, big: seq<multiset<T>>, x: T) returns (i: nat)
    requires |small| == |big| && SumOf(small)[x] < SumOf(big)[x]
    ensures i < |small| && small[i][x] < big[i][x]
  {
    var n := |small| - 1;
    if small[n][x] < big[n][x] { i := n; } else { i := SumDiffers(small[..n], big[..n], x); }
  }

  /** A part of which something was left out has a full top. */
  lemma FullTop<T(!new)>(le: (T, T) -> bool, top: seq<T>, all: multiset<T>, k: nat, x: T)
    requires IsTop(le, top, all, k) && multiset(top)[x] < all[x]
    ensures |top| == k && x in all - multiset(top)
  {
    if |top| == |all| { SameSize(multiset(top), all); }
  }

  lemma SameSize<T>(a: multiset<T>, b: multiset<T>)
    requires a <= b && |a| == |b|
    ensures a == b
  {
    assert b == a + (b - a);
    assert |b - a| == 0;
  }

  /** The result has as many rows as there should be. */
  lemma TopSize<T(!new)>(le: (T, T) -> bool, tops: seq<seq<T>>, parts: seq<multiset<T>>, k: nat)
    requires |tops| == |parts| && forall i | 0 <= i < |tops| :: IsTop(le, tops[i], parts[i], k)
    ensures SumOf(Bags(tops)) <= SumOf(parts) && Min(k, |SumOf(Bags(tops))|) == Min(k, |SumOf(parts)|)
  {
    hide IsTop, SumOf;
    forall i | 0 <= i < |tops| ensures Bags(tops)[i] <= parts[i] && (|tops[i]| == k || Bags(tops)[i] == parts[i]) {
      ShortTop(le, tops[i], parts[i], k);
    }
    SumGrows(Bags(tops), parts);
    Smaller(SumOf(Bags(tops)), SumOf(parts));
    if i :| 0 <= i < |tops| && |tops[i]| == k {
      PartCounts(Bags(tops), i);
      assert |multiset(tops[i])| == |tops[i]|;
    } else {
      assert Bags(tops) == parts;
    }
  }

  lemma ShortTop<T(!new)>(le: (T, T) -> bool, top: seq<T>, all: multiset<T>, k: nat)
    requires IsTop(le, top, all, k)
    ensures multiset(top) <= all && (|top| == k || multiset(top) == all)
  {
    hide Sorted;
    assert |multiset(top)| == |top|;
    if |top| != k { SameSize(multiset(top), all); }
  }

  lemma Smaller<T>(a: multiset<T>, b: multiset<T>)
    requires a <= b
    ensures |a| <= |b|
  {
    assert b == a + (b - a);
  }

  /** Nothing left out anywhere comes before what is kept in the end. */
  lemma NothingBefore<T(!new)>(le: (T, T) -> bool, tops: seq<seq<T>>, parts: seq<multiset<T>>, r: seq<T>, k: nat, x: T,
                        y: T)
    requires IsOrder(le) && |tops| == |parts| && forall i | 0 <= i < |tops| :: IsTop(le, tops[i], parts[i], k)
    requires IsTop(le, r, SumOf(Bags(tops)), k) && x in SumOf(parts) - multiset(r) && y in r
    ensures le(y, x)
  {
    var w := SumOf(Bags(tops));
    if w[x] > multiset(r)[x] {
      assert x in w - multiset(r);
    } else {
      var i := SumDiffers(Bags(tops), parts, x);
      FullTop(le, tops[i], parts[i], k, x);
      AfterFullTop(le, tops, i, r, k, x, y);
    }
  }

  /**
   * What is kept in the end comes before all that a full top comes before: it is
   * that top, or comes before some of it.
   */
  lemma AfterFullTop<T(!new)>(le: (T, T) -> bool, tops: seq<seq<T>>, i: nat, r: seq<T>, k: nat, x: T, y: T)
    requires IsOrder(le) && i < |tops| && |tops[i]| == k && (forall t | t in tops[i] :: le(t, x))
    requires IsTop(le, r, SumOf(Bags(tops)), k) && y in r
    ensures le(y, x)
  {
    hide Sorted;
    var w, top := SumOf(Bags(tops)), multiset(tops[i]);
    PartCounts(Bags(tops), i);
    if t :| t in tops[i] && t in w - multiset(r) {
      assert le(y, t) && le(t, x);
    } else {
      forall t ensures top[t] <= multiset(r)[t] {
        if t in top { assert t in tops[i]; }
      }
      assert top <= multiset(r) && |multiset(r)| == |r| && |top| == k;
      Smaller(top, multiset(r));
      SameSize(top, multiset(r));
      assert y in multiset(r);
    }
  }

  /** The top of the union of the partitions' tops is a top of all rows. */
  lemma TopOfTops<T(!new)>(le: (T, T) -> bool, tops: seq<seq<T>>, parts: seq<multiset<T>>, r: seq<T>, k: nat)
    requires IsOrder(le) && |tops| == |parts| && forall i | 0 <= i < |tops| :: IsTop(le, tops[i], parts[i], k)
    requires IsTop(le, r, SumOf(Bags(tops)), k)
    ensures IsTop(le, r, SumOf(parts), k)
  {
    TopSize(le, tops, parts, k);
    forall x, y | x in SumOf(parts) - multiset(r) && y in r
      ensures le(y, x)
    {
      NothingBefore(le, tops, parts, r, k, x, y);
    }
  }

  // ---------------------------------------------------------------- offset and limit

  /** offset.Iterate and limit.Iterate: the rows from an index on, and at most so many. */
  method Paged<T>(rows: seq<T>, offset: nat, limit: nat) returns (out: seq<T>)
    ensures out == Page(rows, offset, limit)
  {
    out := [];
    var seen, passed := 0, 0;
    for i := 0 to |rows|
      invariant seen == i && passed == (if i < offset then 0 else i - offset)
      invariant out == Page(rows[..i], offset, limit)
    {
      assert rows[..i + 1] == rows[..i] + [rows[i]];
      seen := seen + 1;
      if seen - 1 >= offset {
        passed := passed + 1;
        if limit == 0 || passed - 1 < limit { out := out + [rows[i]]; }
      }
    }
    assert rows[..|rows|] == rows;
  }

  function Skip<T>(rows: seq<T>, offset: nat): seq<T> {
    rows[Min(offset, |rows|)..]
  }

  /** A limit of 0 is none. */
  function Page<T>(rows: seq<T>, offset: nat, limit: nat): seq<T> {
    var rest := Skip(rows, offset);
    if limit == 0 then rest else rest[..Min(limit, |rest|)]
  }

  /** A page of all rows: what some top that is skipped is followed by, up to the end or the limit. */
  ghost predicate IsPage<T(!new)>(le: (T, T) -> bool, page: seq<T>, all: multiset<T>, offset: nat, limit: nat) {
    exists skipped :: IsTop(le, skipped, all, offset) && IsTop(le, skipped + page, all, if limit == 0 then |all|
      else offset + limit)
  }

  /** What the partitions send when ORDER BY, OFFSET and LIMIT are pushed down to them. */
  function Pages<T>(lists: seq<seq<T>>, offset: nat, limit: nat): (r: seq<seq<T>>)
    ensures |r| == |lists|
  {
    seq(|lists|, i requires 0 <= i < |lists| => Page(lists[i], offset, limit))
  }

  /** Sorted lists of the partitions' rows, and a sorted list of what they send. */
  ghost predicate IsPushed<T(!new)>(le: (T, T) -> bool, lists: seq<seq<T>>, sent: seq<T>, offset: nat, limit: nat) {
    (forall i | 0 <= i < |lists| :: Sorted(le, lists[i])) && Sorted(le, sent)
      && multiset(sent) == SumOf(Bags(Pages(lists, offset, limit)))
  }

  /** A top is a page from the start. */
  lemma TopIsPage<T(!new)>(le: (T, T) -> bool, page: seq<T>, all: multiset<T>, limit: nat)
    requires IsTop(le, page, all, if limit == 0 then |all| else limit)
    ensures IsPage(le, page, all, 0, limit)
  {
    assert [] + page == page;
    assert IsTop(le, [], all, 0);
  }

  /** Limiting a list from its start. */
  lemma FirstPage<T(!new)>(le: (T, T) -> bool, list: seq<T>, limit: nat)
    requires Sorted(le, list)
    ensures IsTop(le, Page(list, 0, limit), multiset(list), if limit == 0 then |multiset(list)| else limit)
  {
    hide Sorted, IsTop;
    assert |multiset(list)| == |list|;
    var k := if limit == 0 then |list| else limit;
    assert Page(list, 0, limit) == list[..Min(k, |list|)];
    LimitIsTop(le, list, k);
  }

  /** Without OFFSET, limiting on the partitions and again on the leader gives a page of all rows. */
  lemma PushedLimitIsPage<T(!new)>(le: (T, T) -> bool, lists: seq<seq<T>>, sent: seq<T>, limit: nat)
    requires IsOrder(le) && IsPushed(le, lists, sent, 0, limit)
    ensures IsPage(le, Page(sent, 0, limit), SumOf(Bags(lists)), 0, limit)
  {
    hide Sorted, IsTop, SumOf, IsPage, IsOrder;
    var tops := Pages(lists, 0, limit);
    FirstPage(le, sent, limit);
    if limit == 0 {
      assert forall i | 0 <= i < |lists| :: tops[i] == lists[i];
      assert tops == lists;
    } else {
      forall i | 0 <= i < |tops| ensures IsTop(le, tops[i], Bags(lists)[i], limit) { FirstPage(le, lists[i], limit); }
      TopOfTops(le, tops, Bags(lists), Page(sent, 0, limit), limit);
    }
    TopIsPage(le, Page(sent, 0, limit), SumOf(Bags(lists)), limit);
  }

  function Le(): (int, int) -> bool {
    (a, b) => a <= b
  }

  function UpTo(n: nat): (r: seq<int>)
    ensures |r| == n
  {
    seq(n, i => i)
  }

  /** One partition with the given rows, and n without any. */
  function OneFull<T>(rows: seq<T>, n: nat): (r: seq<seq<T>>)
    ensures |r| == n + 1
  {
    [rows] + seq(n, _ => [])
  }

  /** A page cannot be empty if there are rows after the offset. */
  lemma PageIsNotEmpty<T(!new)>(le: (T, T) -> bool, all: multiset<T>, offset: nat, limit: nat)
    requires offset < |all|
    ensures !IsPage(le, [], all, offset, limit)
  {
    hide Sorted;
    forall skipped | IsTop(le, skipped, all, offset)
      ensures !IsTop(le, skipped + [], all, if limit == 0 then |all| else offset + limit)
    {
      assert skipped + [] == skipped;
    }
  }

  /**
   * With an offset, each partition skips rows and the leader skips as many again:
   * if all rows are in one partition, one row that the query should give is lost.
   */
  lemma PushedOffsetLosesRow(n: nat, offset: nat, limit: nat)
    requires offset > 0
    ensures var lists, sent := OneFull(UpTo(offset + 1), n), [offset as int];
            IsPushed(Le(), lists, sent, offset, limit)
              && !IsPage(Le(), Page(sent, offset, limit), SumOf(Bags(lists)), offset, limit)
  {
    hide SumOf, IsPage;
    var rows, sent := UpTo(offset + 1), [offset as int];
    var lists := OneFull(rows, n);
    assert Page(rows, offset, limit) == sent;
    assert Pages(lists, offset, limit) == OneFull(sent, n);
    OneList(sent, n);
    OneList(rows, n);
    assert |multiset(rows)| == offset + 1;
    assert Page(sent, offset, limit) == [];
    PageIsNotEmpty(Le(), multiset(rows), offset, limit);
  }

  lemma {:induction false} OneList<T>(rows: seq<T>, n: nat)
    ensures SumOf(Bags(OneFull(rows, n))) == multiset(rows)
  {
    var lists := OneFull(rows, n);
    if n == 0 {
      assert Bags(lists)[..0] == [];
    } else {
      OneList(rows, n - 1);
      assert Bags(lists)[..n] == Bags(OneFull(rows, n - 1));
      assert Bags(lists)[n] == multiset([]);
    }
  }

  /** Pushing OFFSET and LIMIT down to n partitions gives a page of all rows, whatever the rows are. */
  ghost predicate PushIsSafe(n: nat, offset: nat, limit: nat) {
    forall lists: seq<seq<int>>, sent | |lists| == n && IsPushed(Le(), lists, sent, offset, limit) ::
      IsPage(Le(), Page(sent, offset, limit), SumOf(Bags(lists)), offset, limit)
  }

  /** That is so exactly when there is no offset. */
  lemma OffsetIsSafeIff(n: nat, offset: nat, limit: nat)
    requires n > 0
    ensures PushIsSafe(n, offset, limit) <==> offset == 0
  {
    hide IsPushed, IsPage, SumOf, Page;
    if offset == 0 {
      forall lists: seq<seq<int>>, sent | |lists| == n && IsPushed(Le(), lists, sent, offset, limit)
        ensures IsPage(Le(), Page(sent, offset, limit), SumOf(Bags(lists)), offset, limit)
      {
        PushedLimitIsPage(Le(), lists, sent, limit);
      }
    } else {
      PushedOffsetLosesRow(n - 1, offset, limit);
      var lists, sent := OneFull(UpTo(offset + 1), n - 1), [offset as int];
      assert |lists| == n && IsPushed(Le(), lists, sent, offset, limit);
      assert !IsPage(Le(), Page(sent, offset, limit), SumOf(Bags(lists)), offset, limit);
    }
  }
}
