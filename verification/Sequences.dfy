/**
 * Time-ordered sequences of accumulator states (package encoding).
 *
 * A sequence is a header holding the end of its newest period, followed by one
 * cell per period, going back in time.  Its meaning is a map from period ends to
 * cells (`At`).  Truncate, UpdateValue and Merge do their work by offset
 * arithmetic on cells and bytes; here each is proved to be a simple operation on
 * that map.  The cells, their merge and their updates are parameters.
 */
module Sequences {
  import opened Arithmetic

  /** Times are nanoseconds since Go's zero time, which is 0 and stands for "not given". */
  type Time = int

  datatype Sequence<C> = Nil | Seq(until: Time, cells: seq<C>)

  /** Bytes of the header, which holds the end of the newest period. */
  const HEADER: nat := 8

  /** Length in bytes of a sequence whose cells have the given width. */
  function Len<C>(s: Sequence<C>, width: nat): nat {
    if s.Nil? then 0 else HEADER + |s.cells| * width
  }

  // ---------------------------------------------------------------- rounding

  /** time.Time.Round: to the nearest multiple, halfway values up. */
  function Round(t: Time, res: Resolution): Time {
    var r := t % res;
    if r + r < res then t - r else t + (res - r)
  }

  function RoundTimeUp(t: Time, res: Resolution): Time {
    var rounded := Round(t, res);
    if rounded < t then rounded + res else rounded
  }

  function RoundTimeDown(t: Time, res: Resolution): Time {
    var rounded := Round(t, res);
    if rounded > t then rounded - res else rounded
  }

  function CeilDiv(a: int, b: Resolution): int {
    -((-a) / b)
  }

  function RoundTimeUntilUp(t: Time, res: Resolution, until: Time): Time {
    if t == 0 then t
    else if until == 0 then RoundTimeUp(t, res)
    else until - ((until - t) / res) * res
  }

  function RoundTimeUntilDown(t: Time, res: Resolution, until: Time): Time {
    if t == 0 then t
    else if until == 0 then RoundTimeDown(t, res)
    else until - CeilDiv(until - t, res) * res
  }

  /** Two times a whole number of periods apart. */
  predicate Aligned(t: Time, u: Time, res: Resolution) {
    (t - u) % res == 0
  }

  lemma AlignedBy(t: Time, u: Time, k: int, res: Resolution)
    requires t == u + k * res
    ensures Aligned(t, u, res) && (t - u) / res == k
  {
    MultipleDivides(k, res);
  }

  lemma AlignedTrans(t: Time, u: Time, v: Time, res: Resolution)
    requires Aligned(t, u, res) && Aligned(u, v, res)
    ensures Aligned(t, v, res) && Aligned(v, t, res)
  {
    Exact(t - u, res);
    Exact(u - v, res);
    var a, b := (t - u) / res, (u - v) / res;
    Distribute(a, b, res);
    AlignedBy(t, v, a + b, res);
    Distribute(0, a + b, res);
    AlignedBy(v, t, -(a + b), res);
  }

  lemma AlignedSym(t: Time, u: Time, res: Resolution)
    requires Aligned(t, u, res)
    ensures Aligned(u, t, res)
  {
    AlignedBy(u, u, 0, res);
    AlignedTrans(t, u, u, res);
  }

  /** Aligned times less than a period apart are equal. */
  lemma AlignedLess(t: Time, u: Time, res: Resolution)
    requires Aligned(t, u, res) && t < u
    ensures t + res <= u
  {
    Exact(t - u, res);
    var k := (t - u) / res;
    CancelLe(k, -1, res) by { if k >= 0 { ScaleLe(0, k, res); } else { ScaleLe(k, -1, res); } }
    ScaleLe(k, -1, res);
  }

  /** RoundTimeUp is the first multiple of the resolution at or after the time. */
  lemma RoundUpIsCeiling(t: Time, res: Resolution)
    ensures RoundTimeUp(t, res) % res == 0 && t <= RoundTimeUp(t, res) < t + res
  {
    Euclid(t, res);
    var q := t / res;
    Distribute(q, 1, res);
    MultipleDivides(q, res);
    MultipleDivides(q + 1, res);
  }

  /** RoundTimeDown is the last multiple of the resolution at or before the time. */
  lemma RoundDownIsFloor(t: Time, res: Resolution)
    ensures RoundTimeDown(t, res) % res == 0 && t - res < RoundTimeDown(t, res) <= t
  {
    Euclid(t, res);
    var q := t / res;
    Distribute(q, 1, res);
    MultipleDivides(q, res);
    MultipleDivides(q + 1, res);
  }

  /** Rounding up relative to `until` gives the first time of its grid at or after the given one. */
  lemma RoundUntilUp(t: Time, res: Resolution, until: Time)
    requires t != 0 && until != 0
    ensures var up := RoundTimeUntilUp(t, res, until); Aligned(up, until, res) && t <= up < t + res
  {
    var k := (until - t) / res;
    Euclid(until - t, res);
    Distribute(0, k, res);
    AlignedBy(until - k * res, until, -k, res);
  }

  /** Rounding down relative to `until` gives the last time of its grid at or before the given one. */
  lemma RoundUntilDown(t: Time, res: Resolution, until: Time)
    requires t != 0 && until != 0
    ensures var down := RoundTimeUntilDown(t, res, until); Aligned(down, until, res) && t - res < down <= t
  {
    var j := (t - until) / res;
    assert -(until - t) == t - until;
    Euclid(t - until, res);
    Distribute(0, -j, res);
    Distribute(0, j, res);
    AlignedBy(until + j * res, until, j, res);
  }

  // ---------------------------------------------------------------- meaning

  function CellAt<C>(s: Sequence<C>, p: int, zero: C): C {
    if s.Seq? && 0 <= p < |s.cells| then s.cells[p] else zero
  }

  /** The cell of the period that ends at t; zero where the sequence has none. */
  function At<C>(s: Sequence<C>, res: Resolution, t: Time, zero: C): C {
    if s.Seq? && Aligned(s.until, t, res) then CellAt(s, (s.until - t) / res, zero) else zero
  }

  lemma AtPeriod<C>(s: Sequence<C>, res: Resolution, t: Time, zero: C, p: int)
    requires s.Seq? && t == s.until - p * res
    ensures At(s, res, t, zero) == CellAt(s, p, zero)
  {
    AlignedBy(s.until, t, p, res);
  }

  /** Periods newer than the sequence, or older than its oldest cell, are unset. */
  lemma AtOutside<C>(s: Sequence<C>, res: Resolution, t: Time, zero: C)
    requires s.Seq? ==> t > s.until || t <= s.until - |s.cells| * res
    ensures At(s, res, t, zero) == zero
  {
    if s.Seq? && Aligned(s.until, t, res) {
      Exact(s.until - t, res);
      var p := (s.until - t) / res;
      if t > s.until {
        if p >= 0 { ScaleLe(0, p, res); }
      } else {
        CancelLe(|s.cells|, p, res);
      }
    }
  }

  // ---------------------------------------------------------------- Truncate

  /** Drops the periods after `until` and those at or before `asOf`. */
  function Truncate<C>(s: Sequence<C>, width: nat, res: Resolution, asOf: Time, until: Time): (r: Sequence<C>)
    requires width > 0
  {
    if s.Nil? then Nil else
      var newest := DropNewest(s, width, res, RoundTimeUntilDown(until, res, s.until));
      if newest.Nil? then Nil else
        DropOldest(newest, width, res, RoundTimeUntilDown(asOf, res, s.until))
  }

  function DropNewest<C>(s: Sequence<C>, width: nat, res: Resolution, until: Time): (r: Sequence<C>)
    requires width > 0 && s.Seq?
  {
    var periodsToRemove := Quot(s.until - until, res);
    if until == 0 || periodsToRemove <= 0 then s
    else if periodsToRemove * width + HEADER >= Len(s, width) then Nil
    else
      FewerPeriods(periodsToRemove, |s.cells|, width);
      Seq(until, s.cells[periodsToRemove..])
  }

  function DropOldest<C>(s: Sequence<C>, width: nat, res: Resolution, asOf: Time): (r: Sequence<C>)
    requires width > 0 && s.Seq?
  {
    var maxPeriods := Quot(s.until - asOf, res);
    if asOf == 0 then s
    else if maxPeriods <= 0 then Nil
    else if HEADER + maxPeriods * width >= Len(s, width) then s
    else
      FewerPeriods(maxPeriods, |s.cells|, width);
      Seq(s.until, s.cells[..maxPeriods])
  }

  /** Comparing lengths in bytes compares numbers of periods. */
  lemma FewerPeriods(k: int, n: int, width: nat)
    requires width > 0
    ensures HEADER + k * width >= HEADER + n * width <==> k >= n
  {
    if k >= n { ScaleLe(n, k, width); }
    if k * width >= n * width { CancelLe(n, k, width); }
  }

  lemma DropNewestMeaning<C>(s: Sequence<C>, width: nat, res: Resolution, until: Time, t: Time, zero: C)
    requires width > 0 && s.Seq? && s.until != 0 && until != 0
    requires Aligned(s.until, until, res) && Aligned(s.until, t, res)
    ensures var r := DropNewest(s, width, res, until);
            && (r.Seq? ==> Aligned(s.until, r.until, res) && r.until != 0)
            && At(r, res, t, zero) == if t <= until then At(s, res, t, zero) else zero
  {
    var r := DropNewest(s, width, res, until);
    var k := (s.until - until) / res;
    QuotExact(s.until - until, res);
    Exact(s.until - t, res);
    var p := (s.until - t) / res;
    FewerPeriods(k, |s.cells|, width);
    AtPeriod(s, res, t, zero, p);
    Distribute(p, k, res);
    if k <= 0 {
      ScaleLe(k, 0, res);
      if t > until { AtOutside(s, res, t, zero); }
    } else if r.Nil? {
      if t <= until { CancelLe(k, p, res); }
    } else {
      AtPeriod(r, res, t, zero, p - k);
      if t <= until { CancelLe(k, p, res); } else { AtOutside(r, res, t, zero); }
    }
  }

  lemma DropOldestMeaning<C>(s: Sequence<C>, width: nat, res: Resolution, asOf: Time, t: Time, zero: C)
    requires width > 0 && s.Seq? && asOf != 0
    requires Aligned(s.until, asOf, res) && Aligned(s.until, t, res)
    ensures var r := DropOldest(s, width, res, asOf);
            && (r.Seq? ==> r.until == s.until)
            && At(r, res, t, zero) == if t > asOf then At(s, res, t, zero) else zero
  {
    var r := DropOldest(s, width, res, asOf);
    var m := (s.until - asOf) / res;
    QuotExact(s.until - asOf, res);
    Exact(s.until - t, res);
    var p := (s.until - t) / res;
    FewerPeriods(m, |s.cells|, width);
    AtPeriod(s, res, t, zero, p);
    if p < m { ScaleLe(p + 1, m, res); Distribute(p, 1, res); }
    if p >= m { ScaleLe(m, p, res); }
    if r.Seq? { AtPeriod(r, res, t, zero, p); }
  }

  /** Truncate keeps exactly the periods in (asOf, until], a zero time being no bound. */
  lemma TruncateMeaning<C>(s: Sequence<C>, width: nat, res: Resolution, asOf: Time, until: Time, t: Time, zero: C)
    requires width > 0
    requires s.Seq? ==> s.until != 0 && Aligned(s.until, t, res)
    requires until == 0 || until >= res
    requires 0 < t
    ensures var r := Truncate(s, width, res, asOf, until);
            && (r.Seq? ==> Aligned(s.until, r.until, res) && r.until != 0)
            && At(r, res, t, zero) ==
               if (asOf == 0 || asOf < t) && (until == 0 || t <= until) then At(s, res, t, zero) else zero
  {
    if s.Seq? {
      var u, a := RoundTimeUntilDown(until, res, s.until), RoundTimeUntilDown(asOf, res, s.until);
      var newest := DropNewest(s, width, res, u);
      if until != 0 {
        RoundUntilDown(until, res, s.until);
        AlignedTrans(u, s.until, t, res);
        if u < t { AlignedLess(u, t, res); }
        AlignedSym(u, s.until, res);
        DropNewestMeaning(s, width, res, u, t, zero);
      } else {
        AlignedBy(s.until, s.until, 0, res);
      }
      assert u != 0 <==> until != 0;
      if newest.Seq? && asOf != 0 {
        RoundUntilDown(asOf, res, s.until);
        AlignedTrans(a, s.until, t, res);
        AlignedSym(s.until, newest.until, res);
        AlignedTrans(newest.until, s.until, t, res);
        AlignedSym(a, s.until, res);
        AlignedTrans(newest.until, s.until, a, res);
        if a < t { AlignedLess(a, t, res); }
        if a != 0 { DropOldestMeaning(newest, width, res, a, t, zero); }
      }
    }
  }

  /** Without an upper bound, truncating leaves nothing or the newest cells as they are. */
  lemma TruncateIsPrefix<C>(s: Sequence<C>, width: nat, res: Resolution, asOf: Time)
    requires width > 0
    ensures var r := Truncate(s, width, res, asOf, 0);
            r.Seq? ==> s.Seq? && r.until == s.until && r.cells <= s.cells
  {
    hide Quot;
    if s.Seq? {
      var maxPeriods := Quot(s.until - RoundTimeUntilDown(asOf, res, s.until), res);
      FewerPeriods(maxPeriods, |s.cells|, width);
    }
  }

  /** Without an upper bound, something is left exactly if the sequence ends after the cutoff. */
  lemma TruncateLeaves<C>(s: Sequence<C>, width: nat, res: Resolution, asOf: Time)
    requires width > 0 && (s.Seq? ==> s.until % res == 0 && s.until > 0)
    ensures Truncate(s, width, res, asOf, 0).Seq? <==> s.Seq? && (asOf == 0 || asOf < s.until)
  {
    hide RoundTimeUntilDown;
    if s.Seq? { RoundedZero(res, s.until); }
    if s.Seq? && asOf != 0 {
      var a := RoundTimeUntilDown(asOf, res, s.until);
      RoundUntilDown(asOf, res, s.until);
      AlignedSym(a, s.until, res);
      QuotExact(s.until - a, res);
      var k := Quot(s.until - a, res);
      if k <= 0 { ScaleLe(k, 0, res); } else { ScaleLe(1, k, res); }
      FewerPeriods(k, |s.cells|, width);
    }
  }

  lemma RoundedZero(res: Resolution, until: Time)
    ensures RoundTimeUntilDown(0, res, until) == 0
  {
  }

  // ---------------------------------------------------------------- UpdateValue

  /** Whether a sequence of n cells is grown to hold the given period; the test leaves out the header. */
  predicate Grows(period: int, n: nat, width: nat) {
    period * width + width >= HEADER + n * width
  }

  /** The test is exact for cells at least as wide as the header, and for no others. */
  lemma GrowTestIsExact(width: nat)
    ensures (forall period: nat, n: nat :: Grows(period, n, width) <==> period >= n) <==> width >= 8
  {
    if width >= HEADER {
      forall period: nat, n: nat ensures Grows(period, n, width) <==> period >= n { GrowTest(period, n, width); }
    } else {
      assert !Grows(0, 0, width);
    }
  }

  lemma GrowTest(period: nat, n: nat, width: nat)
    requires width >= HEADER
    ensures Grows(period, n, width) <==> period >= n
  {
    if period >= n {
      ScaleLe(n, period, width);
    } else {
      ScaleLe(period + 1, n, width);
      Distribute(period, 1, width);
    }
  }

  function Repeat<C>(c: C, n: nat): (r: seq<C>)
    ensures |r| == n
  {
    seq(n, _ => c)
  }

  /**
   * Applies an update to the period that contains ts, growing the sequence at
   * either end as needed, and drops periods that ended before truncateBefore.
   */
  function UpdateValue<C>(s: Sequence<C>, width: nat, res: Resolution, ts: Time, truncateBefore: Time, zero: C,
                          update: C -> C)
    : (r: Sequence<C>)
    requires width >= HEADER
    requires s.Seq? ==> s.until % res == 0
  {
    RoundUpIsCeiling(ts, res);
    var ts' := RoundTimeUp(ts, res);
    var cutoff := RoundTimeUntilUp(truncateBefore, res, if s.Nil? || s.until == 0 then ts' else s.until);
    if ts' <= cutoff then Truncate(s, width, res, cutoff, 0)
    else if s.Nil? then Seq(ts', [update(zero)])
    else
      var gapPeriods, maxPeriods := Quot(ts' - s.until, res), Quot(ts' - cutoff, res);
      if s.until < cutoff || gapPeriods > maxPeriods then Seq(ts', [update(zero)])
      else if ts' > s.until then Prepend(s, res, ts', gapPeriods, maxPeriods, zero, update)
      else UpdatePeriod(s, width, res, ts', zero, update)
  }

  lemma GapIsPositive(ts: Time, until: Time, res: Resolution)
    requires ts % res == 0 && until % res == 0 && ts > until
    ensures Quot(ts - until, res) >= 1
  {
    GridDifference(ts, until, res);
    AlignedSym(ts, until, res);
    AlignedLess(until, ts, res);
    CancelLe(1, (ts - until) / res, res);
  }

  function Prepend<C>(s: Sequence<C>, res: Resolution, ts: Time, gapPeriods: int, maxPeriods: int, zero: C,
                      update: C -> C)
    : (r: Sequence<C>)
    requires s.Seq? && s.until % res == 0 && ts % res == 0 && ts > s.until
    requires gapPeriods == Quot(ts - s.until, res) && gapPeriods <= maxPeriods
  {
    GapIsPositive(ts, s.until, res);
    var kept := if |s.cells| + gapPeriods > maxPeriods then s.cells[..maxPeriods - gapPeriods] else s.cells;
    Seq(ts, [update(zero)] + Repeat(zero, gapPeriods - 1) + kept)
  }

  function UpdatePeriod<C>(s: Sequence<C>, width: nat, res: Resolution, ts: Time, zero: C,
                           update: C -> C): (r: Sequence<C>)
    requires width >= HEADER && s.Seq? && ts <= s.until
  {
    var period := Quot(s.until - ts, res);
    GrowTest(period, |s.cells|, width);
    var cells :=
      if Grows(period, |s.cells|, width) then s.cells + Repeat(zero, period + 1 - |s.cells|) else s.cells;
    Seq(s.until, cells[period := update(cells[period])])
  }

  /** A sequence whose periods end on multiples of the resolution. */
  predicate OnGrid<C>(s: Sequence<C>, res: Resolution) {
    s.Seq? ==> s.until % res == 0 && s.until > 0
  }

  lemma PrependCell<C>(s: Sequence<C>, res: Resolution, ts: Time, gapPeriods: int, maxPeriods: int, zero: C,
                       update: C -> C, p: int)
    requires s.Seq? && s.until % res == 0 && ts % res == 0 && ts > s.until
    requires gapPeriods == Quot(ts - s.until, res) && gapPeriods <= maxPeriods
    ensures CellAt(Prepend(s, res, ts, gapPeriods, maxPeriods, zero, update), p, zero)
            == if p == 0 then update(zero) else if p >= maxPeriods then zero else CellAt(s, p - gapPeriods, zero)
  {
    hide Quot;
    GapIsPositive(ts, s.until, res);
  }

  lemma PrependMeaning<C>(s: Sequence<C>, res: Resolution, ts: Time, cutoff: Time, t: Time, zero: C, update: C -> C)
    requires s.Seq? && s.until % res == 0 && ts % res == 0 && ts > s.until && cutoff % res == 0 && cutoff < ts
    requires t % res == 0 && Quot(ts - s.until, res) <= Quot(ts - cutoff, res)
    ensures At(Prepend(s, res, ts, Quot(ts - s.until, res), Quot(ts - cutoff, res), zero, update), res, t, zero)
            == if t == ts then update(zero) else if t <= cutoff then zero else At(s, res, t, zero)
  {
    hide Quot, Prepend, CellAt, At;
    var gap, max := Quot(ts - s.until, res), Quot(ts - cutoff, res);
    GridDifference(ts, s.until, res);
    GridDifference(ts, cutoff, res);
    GridDifference(ts, t, res);
    var p := (ts - t) / res;
    var r := Prepend(s, res, ts, gap, max, zero, update);
    assert r.Seq? && r.until == ts by { PrependEnd(s, res, ts, gap, max, zero, update); }
    AtPeriod(r, res, t, zero, p);
    Distribute(p, gap, res);
    AtPeriod(s, res, t, zero, p - gap);
    PrependCell(s, res, ts, gap, max, zero, update, p);
    if t == ts { CancelEq(p, 0, res); }
    if p >= max { ScaleLe(max, p, res); } else { ScaleLe(p + 1, max, res); Distribute(p, 1, res); }
  }

  lemma PrependEnd<C>(s: Sequence<C>, res: Resolution, ts: Time, gapPeriods: int, maxPeriods: int, zero: C,
                      update: C -> C)
    requires s.Seq? && s.until % res == 0 && ts % res == 0 && ts > s.until
    requires gapPeriods == Quot(ts - s.until, res) && gapPeriods <= maxPeriods
    ensures var r := Prepend(s, res, ts, gapPeriods, maxPeriods, zero, update); r.Seq? && r.until == ts
  {
  }

  /** Multiples of the resolution are whole numbers of periods apart. */
  lemma GridDifference(t: Time, u: Time, res: Resolution)
    requires t % res == 0 && u % res == 0
    ensures Aligned(t, u, res) && (t - u) / res * res == t - u && Quot(t - u, res) == (t - u) / res
  {
    AlignedSym(u, 0, res);
    AlignedTrans(t, 0, u, res);
    QuotExact(t - u, res);
  }

  lemma UpdatePeriodMeaning<C>(s: Sequence<C>, width: nat, res: Resolution, ts: Time, t: Time, zero: C, update: C -> C)
    requires width >= HEADER && s.Seq? && s.until % res == 0 && ts % res == 0 && t % res == 0 && ts <= s.until
    ensures At(UpdatePeriod(s, width, res, ts, zero, update), res, t, zero)
            == if t == ts then update(At(s, res, t, zero)) else At(s, res, t, zero)
  {
    var r := UpdatePeriod(s, width, res, ts, zero, update);
    GridDifference(s.until, ts, res);
    GridDifference(s.until, t, res);
    var period, p := (s.until - ts) / res, (s.until - t) / res;
    GrowTest(period, |s.cells|, width);
    AtPeriod(r, res, t, zero, p);
    AtPeriod(s, res, t, zero, p);
    if t == ts { CancelEq(p, period, res); }
  }

  /** A period that started before the cutoff; a cutoff of zero is none. */
  predicate Expired(t: Time, res: Resolution, truncateBefore: Time) {
    truncateBefore != 0 && t - res < truncateBefore
  }

  /** On the grid, these are the periods that end by the rounded cutoff. */
  lemma ExpiredIff(t: Time, res: Resolution, truncateBefore: Time, until: Time)
    requires until % res == 0 && until > 0 && t % res == 0 && t > 0
    ensures var cutoff := RoundTimeUntilUp(truncateBefore, res, until);
            cutoff % res == 0 && (t <= cutoff <==> Expired(t, res, truncateBefore))
  {
    if truncateBefore != 0 {
      var cutoff := RoundTimeUntilUp(truncateBefore, res, until);
      RoundUntilUp(truncateBefore, res, until);
      AlignedTrans(cutoff, until, 0, res);
      GridDifference(cutoff, t, res);
      if cutoff < t { AlignedLess(cutoff, t, res); }
    } else {
      MultipleDivides(0, res);
    }
  }

  /**
   * UpdateValue updates the period that holds ts, unless that started before the
   * cutoff.  Other periods that did are dropped if so, or if the sequence has to grow
   * to a later end; an update of a period that it reaches leaves them.
   */
  lemma UpdateValueMeaning<C>(s: Sequence<C>, width: nat, res: Resolution, ts: Time, truncateBefore: Time, t0: Time,
                              t: Time, zero: C, update: C -> C)
    requires width >= HEADER && OnGrid(s, res) && ts > 0
    requires t0 % res == 0 && t0 - res < ts <= t0 && t % res == 0 && t > 0
    ensures var r := UpdateValue(s, width, res, ts, truncateBefore, zero, update);
            && OnGrid(r, res)
            && At(r, res, t, zero) ==
               if Expired(t, res, truncateBefore)
                  && (s.Nil? || s.until < t0 || Expired(t0, res, truncateBefore)) then zero
               else if t == t0 then update(At(s, res, t, zero))
               else At(s, res, t, zero)
  {
    hide RoundTimeUntilUp, Prepend, UpdatePeriod, At, RoundTimeUp, Truncate, Quot;
    RoundsUpTo(ts, res, t0);
    var base := if s.Nil? then t0 else s.until;
    var cutoff := RoundTimeUntilUp(truncateBefore, res, base);
    ExpiredIff(t, res, truncateBefore, base);
    ExpiredIff(t0, res, truncateBefore, base);
    AtLater(s, res, t, zero);
    if t0 <= cutoff {
      UpdateTooOld(s, width, res, cutoff, t, zero);
    } else if s.Nil? {
      SinglePeriod(t0, res, t, zero, update(zero));
    } else {
      GridDifference(t0, s.until, res);
      GridDifference(t0, cutoff, res);
      var gap, max := (t0 - s.until) / res, (t0 - cutoff) / res;
      if s.until < cutoff || gap > max {
        if gap > max { ScaleLe(max + 1, gap, res); Distribute(max, 1, res); }
        SinglePeriod(t0, res, t, zero, update(zero));
      } else if t0 > s.until {
        PrependMeaning(s, res, t0, cutoff, t, zero, update);
        PrependEnd(s, res, t0, gap, max, zero, update);
      } else {
        UpdatePeriodMeaning(s, width, res, t0, t, zero, update);
        UpdatePeriodEnd(s, width, res, t0, zero, update);
      }
    }
  }

  lemma UpdatePeriodEnd<C>(s: Sequence<C>, width: nat, res: Resolution, ts: Time, zero: C, update: C -> C)
    requires width >= HEADER && s.Seq? && ts <= s.until
    ensures var r := UpdatePeriod(s, width, res, ts, zero, update); r.Seq? && r.until == s.until
  {
  }

  /**
   * How long an updated sequence is: up to the updated period or where it ended, and
   * back to that period or where it started, but, if it ends later, not over the
   * cutoff.
   */
  lemma UpdateValueExtent<C>(s: Sequence<C>, width: nat, res: Resolution, ts: Time, truncateBefore: Time, t0: Time,
                             zero: C, update: C -> C)
    requires width >= HEADER && OnGrid(s, res) && ts > 0
    requires t0 % res == 0 && t0 - res < ts <= t0 && !Expired(t0, res, truncateBefore)
    ensures var r := UpdateValue(s, width, res, ts, truncateBefore, zero, update);
            var cutoff := RoundTimeUntilUp(truncateBefore, res, if s.Nil? then t0 else s.until);
            && r.Seq? && r.until == (if s.Nil? || s.until < t0 then t0 else s.until)
            && Oldest(r, res) == if s.Nil? || s.until < cutoff then t0 - res
                                 else if s.until < t0 then (if Oldest(s, res) < cutoff then cutoff else Oldest(s, res))
                                 else if t0 - res < Oldest(s, res) then t0 - res
                                 else Oldest(s, res)
  {
    hide RoundTimeUntilUp, RoundTimeUp, Truncate;
    RoundsUpTo(ts, res, t0);
    var base := if s.Nil? then t0 else s.until;
    var cutoff := RoundTimeUntilUp(truncateBefore, res, base);
    ExpiredIff(t0, res, truncateBefore, base);
    if s.Seq? {
      GridDifference(t0, s.until, res);
      GridDifference(t0, cutoff, res);
      GridDifference(s.until, t0, res);
      var gap, max, period, n := (t0 - s.until) / res, (t0 - cutoff) / res, (s.until - t0) / res, |s.cells|;
      if s.until < cutoff || gap > max {
        if gap > max { ScaleLe(max + 1, gap, res); Distribute(max, 1, res); }
      } else if t0 > s.until {
        GapIsPositive(t0, s.until, res);
        Distribute(n, gap, res);
        if n + gap > max { ScaleLe(max, n + gap, res); } else { ScaleLe(n + gap, max, res); }
      } else {
        GrowTest(period, n, width);
        Distribute(period, 1, res);
        if period >= n { ScaleLe(n, period, res); } else { ScaleLe(period + 1, n, res); }
      }
    }
  }

  lemma AtLater<C>(s: Sequence<C>, res: Resolution, t: Time, zero: C)
    ensures s.Nil? || s.until < t ==> At(s, res, t, zero) == zero
  {
    if s.Seq? && s.until < t { AtOutside(s, res, t, zero); }
  }

  lemma RoundsUpTo(ts: Time, res: Resolution, t0: Time)
    requires t0 % res == 0 && t0 - res < ts <= t0
    ensures RoundTimeUp(ts, res) == t0
  {
    var up := RoundTimeUp(ts, res);
    RoundUpIsCeiling(ts, res);
    GridDifference(up, t0, res);
    GridDifference(t0, up, res);
    if up < t0 { AlignedLess(up, t0, res); } else if t0 < up { AlignedLess(t0, up, res); }
  }

  lemma UpdateTooOld<C>(s: Sequence<C>, width: nat, res: Resolution, cutoff: Time, t: Time, zero: C)
    requires width > 0 && OnGrid(s, res) && t % res == 0 && t > 0 && cutoff > 0
    ensures var r := Truncate(s, width, res, cutoff, 0);
            OnGrid(r, res) && At(r, res, t, zero) == if t <= cutoff then zero else At(s, res, t, zero)
  {
    TruncateIsPrefix(s, width, res, cutoff);
    if s.Seq? {
      GridDifference(s.until, t, res);
      TruncateMeaning(s, width, res, cutoff, 0, t, zero);
    }
  }

  /** No period that started before the cutoff has a value. */
  ghost predicate NothingExpired<C(!new)>(s: Sequence<C>, res: Resolution, truncateBefore: Time, zero: C) {
    forall t | t % res == 0 && t > 0 && Expired(t, res, truncateBefore) :: At(s, res, t, zero) == zero
  }

  /**
   * An update omits all values that have expired exactly if it is for a period that
   * has, or is after the end of the sequence, or there were none.
   */
  lemma UpdateOmitsIff<C(!new)>(s: Sequence<C>, width: nat, res: Resolution, ts: Time, truncateBefore: Time, t0: Time,
                                zero: C, update: C -> C)
    requires width >= HEADER && OnGrid(s, res) && ts > 0 && t0 % res == 0 && t0 - res < ts <= t0
    ensures NothingExpired(UpdateValue(s, width, res, ts, truncateBefore, zero, update), res, truncateBefore, zero)
            <==> s.Nil? || s.until < t0 || Expired(t0, res, truncateBefore)
                 || NothingExpired(s, res, truncateBefore, zero)
  {
    hide UpdateValue, At;
    var r := UpdateValue(s, width, res, ts, truncateBefore, zero, update);
    forall t | t % res == 0 && t > 0
      ensures At(r, res, t, zero) ==
              if Expired(t, res, truncateBefore)
                 && (s.Nil? || s.until < t0 || Expired(t0, res, truncateBefore)) then zero
              else if t == t0 then update(At(s, res, t, zero))
              else At(s, res, t, zero)
    {
      UpdateValueMeaning(s, width, res, ts, truncateBefore, t0, t, zero, update);
    }
  }

  /** An update of a period within the sequence leaves a value that has expired: the update of 2, before 2, keeps 1. */
  lemma ExpiredIsKept<C>(x: C, y: C, zero: C, update: C -> C)
    requires x != zero
    ensures var s := Seq(2, [y, x]);
            Expired(1, 1, 1) && !Expired(2, 1, 1)
            && At(UpdateValue(s, HEADER, 1, 2, 1, zero, update), 1, 1, zero) == x
  {
    var s := Seq(2, [y, x]);
    UpdateValueMeaning(s, HEADER, 1, 2, 1, 2, 1, zero, update);
    AtPeriod(s, 1, 1, zero, 1);
  }

  lemma SinglePeriod<C>(until: Time, res: Resolution, t: Time, zero: C, c: C)
    requires until % res == 0 && t % res == 0
    ensures At(Seq(until, [c]), res, t, zero) == if t == until then c else zero
  {
    GridDifference(until, t, res);
    var p := (until - t) / res;
    AtPeriod(Seq(until, [c]), res, t, zero, p);
    if t == until { CancelEq(p, 0, res); }
  }

  // ---------------------------------------------------------------- histories of updates

  datatype Write<!C> = Write(ts: Time, truncateBefore: Time, update: C -> C)

  /** The sequence after a history of updates, each with its own cutoff. */
  function Replay<C>(history: seq<Write<C>>, width: nat, res: Resolution, zero: C): (s: Sequence<C>)
    requires width >= HEADER && forall w | w in history :: w.ts > 0
    ensures OnGrid(s, res)
  {
    if history == [] then Nil else
      var last := history[|history| - 1];
      var s := Replay(history[..|history| - 1], width, res, zero);
      UpdateStaysOnGrid(s, width, res, last.ts, last.truncateBefore, zero, last.update);
      UpdateValue(s, width, res, last.ts, last.truncateBefore, zero, last.update)
  }

  lemma UpdateStaysOnGrid<C>(s: Sequence<C>, width: nat, res: Resolution, ts: Time, truncateBefore: Time, zero: C,
                             update: C -> C)
    requires width >= HEADER && OnGrid(s, res) && ts > 0
    ensures OnGrid(UpdateValue(s, width, res, ts, truncateBefore, zero, update), res)
  {
    RoundUpIsCeiling(ts, res);
    var t0 := RoundTimeUp(ts, res);
    UpdateValueMeaning(s, width, res, ts, truncateBefore, t0, t0, zero, update);
  }

  lemma PrependKeepsCells<C(!new)>(s: Sequence<C>, res: Resolution, ts: Time, gapPeriods: int, maxPeriods: int,
                            zero: C, update: C -> C, ok: C -> bool)
    requires s.Seq? && s.until % res == 0 && ts % res == 0 && ts > s.until
    requires gapPeriods == Quot(ts - s.until, res) && gapPeriods <= maxPeriods
    requires AllCells(s, ok) && ok(zero) && ok(update(zero))
    ensures AllCells(Prepend(s, res, ts, gapPeriods, maxPeriods, zero, update), ok)
  {
    hide Quot;
    GapIsPositive(ts, s.until, res);
  }

  lemma UpdatePeriodKeepsCells<C(!new)>(s: Sequence<C>, width: nat, res: Resolution, ts: Time, zero: C, update: C -> C,
                                 ok: C -> bool)
    requires width >= HEADER && s.Seq? && ts <= s.until
    requires AllCells(s, ok) && ok(zero) && forall c :: ok(c) ==> ok(update(c))
    ensures AllCells(UpdatePeriod(s, width, res, ts, zero, update), ok)
  {
    hide Grows;
    var period := Quot(s.until - ts, res);
    GrowTest(period, |s.cells|, width);
  }

  /** An update keeps a property of cells that it preserves. */
  lemma UpdateKeepsCells<C(!new)>(s: Sequence<C>, width: nat, res: Resolution, ts: Time, truncateBefore: Time, zero: C,
                           update: C -> C, ok: C -> bool)
    requires width >= HEADER && OnGrid(s, res) && ts > 0 && AllCells(s, ok) && ok(zero) && forall c :: ok(c) ==>
             ok(update(c))
    ensures AllCells(UpdateValue(s, width, res, ts, truncateBefore, zero, update), ok)
  {
    hide Quot, RoundTimeUp, RoundTimeUntilUp, Prepend, UpdatePeriod, Truncate;
    var ts' := RoundTimeUp(ts, res);
    RoundUpIsCeiling(ts, res);
    var cutoff := RoundTimeUntilUp(truncateBefore, res, if s.Nil? || s.until == 0 then ts' else s.until);
    if ts' <= cutoff {
      TruncateIsPrefix(s, width, res, cutoff);
    } else if s.Seq? {
      var gapPeriods, maxPeriods := Quot(ts' - s.until, res), Quot(ts' - cutoff, res);
      if ts' > s.until && gapPeriods <= maxPeriods {
        PrependKeepsCells(s, res, ts', gapPeriods, maxPeriods, zero, update, ok);
      } else if ts' <= s.until {
        UpdatePeriodKeepsCells(s, width, res, ts', zero, update, ok);
      }
    }
  }

  /** The updates of a history that fell into the period ending at t, in order. */
  function Fold<C>(history: seq<Write<C>>, res: Resolution, t: Time, zero: C): C {
    if history == [] then zero else
      var last := history[|history| - 1];
      var c := Fold(history[..|history| - 1], res, t, zero);
      if t - res < last.ts <= t then last.update(c) else c
  }

  /** For every history, each period after all cutoffs holds the fold of the updates that fell into it. */
  lemma {:induction false} HistoryMeaning<C>(history: seq<Write<C>>, width: nat, res: Resolution, t: Time, zero: C)
    requires width >= HEADER && forall w | w in history :: w.ts > 0
    requires t % res == 0 && t > 0 && forall w | w in history :: w.truncateBefore <= t - res
    ensures At(Replay(history, width, res, zero), res, t, zero) == Fold(history, res, t, zero)
  {
    if history != [] {
      var init, last := history[..|history| - 1], history[|history| - 1];
      HistoryMeaning(init, width, res, t, zero);
      var t0 := RoundTimeUp(last.ts, res);
      RoundUpIsCeiling(last.ts, res);
      if t - res < last.ts <= t { RoundsUpTo(last.ts, res, t); }
      UpdateValueMeaning(Replay(init, width, res, zero), width, res, last.ts, last.truncateBefore, t0, t, zero,
        last.update);
    }
  }

  // ---------------------------------------------------------------- Merge

  /** Two cells of one period, either of which may be missing. */
  function MergeCells<C>(a: Sequence<C>, p: int, b: Sequence<C>, q: int, zero: C, merge: (C, C) -> C): C
    requires a.Seq? && b.Seq?
  {
    var inA, inB := 0 <= p < |a.cells|, 0 <= q < |b.cells|;
    if inA && inB then merge(a.cells[p], b.cells[q]) else if inA then a.cells[p] else if inB then b.cells[q] else zero
  }

  function Oldest<C>(s: Sequence<C>, res: Resolution): Time
    requires s.Seq?
  {
    s.until - |s.cells| * res
  }

  /** How many periods a merge spans: back to the oldest cell of either sequence. */
  function MergedPeriods<C>(a: Sequence<C>, b: Sequence<C>, res: Resolution): nat
    requires a.Seq? && b.Seq?
  {
    var end := if Oldest(a, res) < Oldest(b, res) then Oldest(a, res) else Oldest(b, res);
    OldestIsBefore(a, res);
    Quot(a.until - end, res)
  }

  /** The merge, cell by cell, of sequence a and the sequence b that ends no later. */
  function MergeOrdered<C>(a: Sequence<C>, b: Sequence<C>, res: Resolution, zero: C,
                           merge: (C, C) -> C): (r: Sequence<C>)
    requires a.Seq? && b.Seq? && a.until >= b.until
    ensures r.Seq? && r.until == a.until
  {
    var lead, total := Quot(a.until - b.until, res), MergedPeriods(a, b, res);
    Seq(a.until, seq(total, p requires 0 <= p < total => MergeCells(a, p, b, p - lead, zero, merge)))
  }

  lemma OldestIsBefore<C>(s: Sequence<C>, res: Resolution)
    requires s.Seq?
    ensures Oldest(s, res) <= s.until
  {
    ScaleLe(0, |s.cells|, res);
  }

  /** Merges two sequences; the result ends with the later one and starts with the earlier one. */
  function Merge<C>(s: Sequence<C>, other: Sequence<C>, res: Resolution, truncateBefore: Time, zero: C,
                    merge: (C, C) -> C)
    : (r: Sequence<C>)
  {
    if s.Nil? then other
    else if other.Nil? then s
    else
      var (a, b) := if other.until > s.until then (other, s) else (s, other);
      if b.until < RoundTimeUntilUp(truncateBefore, res, a.until) then a else MergeOrdered(a, b, res, zero, merge)
  }

  /** On proper states, merge is commutative with zero as its unit. */
  ghost predicate Lawful<C(!new)>(ok: C -> bool, zero: C, merge: (C, C) -> C) {
    && ok(zero)
    && (forall x, y :: ok(x) && ok(y) ==> ok(merge(x, y)) && merge(x, y) == merge(y, x))
    && (forall x :: ok(x) ==> merge(x, zero) == x)
  }

  ghost predicate Associative<C(!new)>(ok: C -> bool, merge: (C, C) -> C) {
    forall x, y, z :: ok(x) && ok(y) && ok(z) ==> merge(merge(x, y), z) == merge(x, merge(y, z))
  }

  predicate AllCells<C(!new)>(s: Sequence<C>, ok: C -> bool) {
    s.Seq? ==> forall i | 0 <= i < |s.cells| :: ok(s.cells[i])
  }

  lemma MergeCellsMeaning<C(!new)>(a: Sequence<C>, p: int, b: Sequence<C>, q: int, ok: C -> bool, zero: C,
                            merge: (C, C) -> C)
    requires a.Seq? && b.Seq? && Lawful(ok, zero, merge) && AllCells(a, ok) && AllCells(b, ok)
    ensures MergeCells(a, p, b, q, zero, merge) == merge(CellAt(a, p, zero), CellAt(b, q, zero))
  {
    var x, y := CellAt(a, p, zero), CellAt(b, q, zero);
    assert ok(x) && ok(y);
    assert merge(zero, y) == merge(y, zero);
  }

  /** Every period of the result merges the cells that the two sequences have for it. */
  lemma MergeOrderedCell<C>(a: Sequence<C>, b: Sequence<C>, res: Resolution, zero: C, merge: (C, C) -> C, p: int)
    requires a.Seq? && b.Seq? && a.until >= b.until && Aligned(a.until, b.until, res)
    ensures CellAt(MergeOrdered(a, b, res, zero, merge), p, zero)
            == MergeCells(a, p, b, p - (a.until - b.until) / res, zero, merge)
  {
    hide MergedPeriods, Quot;
    QuotExact(a.until - b.until, res);
    Windows(|a.cells|, |b.cells|, a.until, b.until, res);
    MergedLength(a, b, res);
  }

  lemma MergeOrderedMeaning<C(!new)>(a: Sequence<C>, b: Sequence<C>, res: Resolution, t: Time, ok: C -> bool, zero: C,
                              merge: (C, C) -> C)
    requires a.Seq? && b.Seq? && a.until >= b.until && Aligned(a.until, b.until, res) && Aligned(a.until, t, res)
    requires Lawful(ok, zero, merge) && AllCells(a, ok) && AllCells(b, ok)
    ensures At(MergeOrdered(a, b, res, zero, merge), res, t, zero) == merge(At(a, res, t, zero), At(b, res, t, zero))
  {
    hide MergeOrdered, MergeCells, CellAt, Lawful, AllCells;
    var r := MergeOrdered(a, b, res, zero, merge);
    var lead, p := (a.until - b.until) / res, (a.until - t) / res;
    Exact(a.until - b.until, res);
    Exact(a.until - t, res);
    Distribute(p, lead, res);
    MergeOrderedCell(a, b, res, zero, merge, p);
    AtPeriod(a, res, t, zero, p);
    AtPeriod(b, res, t, zero, p - lead);
    AtPeriod(r, res, t, zero, p);
    MergeCellsMeaning(a, p, b, p - lead, ok, zero, merge);
  }

  /** The result reaches back to the oldest cell of either sequence. */
  lemma MergedLength<C>(a: Sequence<C>, b: Sequence<C>, res: Resolution)
    requires a.Seq? && b.Seq? && a.until >= b.until && Aligned(a.until, b.until, res)
    ensures var lead := (a.until - b.until) / res;
            MergedPeriods(a, b, res) == if |a.cells| > lead + |b.cells| then |a.cells| else lead + |b.cells|
  {
    hide Quot;
    Windows(|a.cells|, |b.cells|, a.until, b.until, res);
  }

  /**
   * Merge is pointwise: each period holds the merge of both cells.  A sequence that
   * ends before the cutoff is left out, if the other ends no earlier.
   */
  lemma MergeExactly<C(!new)>(s: Sequence<C>, other: Sequence<C>, res: Resolution, truncateBefore: Time, t: Time,
                              ok: C -> bool, zero: C, merge: (C, C) -> C)
    requires s.Seq? ==> s.until > 0 && Aligned(s.until, t, res)
    requires other.Seq? ==> other.until > 0 && Aligned(other.until, t, res)
    requires Lawful(ok, zero, merge) && AllCells(s, ok) && AllCells(other, ok)
    ensures At(Merge(s, other, res, truncateBefore, zero, merge), res, t, zero) ==
            if s.Nil? || other.Nil? || truncateBefore == 0
               || (truncateBefore <= s.until && truncateBefore <= other.until)
            then merge(At(s, res, t, zero), At(other, res, t, zero))
            else if other.until <= s.until then At(s, res, t, zero) else At(other, res, t, zero)
  {
    AtIsOk(s, res, t, ok, zero);
    AtIsOk(other, res, t, ok, zero);
    if s.Seq? && other.Seq? {
      var (a, b) := if other.until > s.until then (other, s) else (s, other);
      AlignedSym(b.until, t, res);
      AlignedTrans(a.until, t, b.until, res);
      LeftOut(truncateBefore, res, a.until, b.until);
      if truncateBefore == 0 || truncateBefore <= b.until { MergeOrderedMeaning(a, b, res, t, ok, zero, merge); }
    }
  }

  /**
   * How long a merged sequence is: from the earlier start to the later end, or that of
   * one if the other is left out.
   */
  lemma MergeExtent<C>(s: Sequence<C>, other: Sequence<C>, res: Resolution, truncateBefore: Time, zero: C,
                       merge: (C, C) -> C)
    requires s.Seq? && other.Seq? && s.until > 0 && other.until > 0 && Aligned(s.until, other.until, res)
    ensures var r := Merge(s, other, res, truncateBefore, zero, merge);
            if truncateBefore == 0 || (truncateBefore <= s.until && truncateBefore <= other.until) then
              && r.Seq? && r.until == (if s.until < other.until then other.until else s.until)
              && Oldest(r, res) == if Oldest(s, res) < Oldest(other, res) then Oldest(s, res) else Oldest(other, res)
            else r == if other.until <= s.until then s else other
  {
    hide Quot, MergedPeriods, RoundTimeUntilUp;
    var (a, b) := if other.until > s.until then (other, s) else (s, other);
    AlignedSym(s.until, other.until, res);
    LeftOut(truncateBefore, res, a.until, b.until);
    if truncateBefore == 0 || truncateBefore <= b.until {
      var lead := (a.until - b.until) / res;
      MergedLength(a, b, res);
      Exact(a.until - b.until, res);
      Distribute(lead, |b.cells|, res);
      if |a.cells| > lead + |b.cells| { ScaleLe(lead + |b.cells|, |a.cells|, res); }
        else { ScaleLe(|a.cells|, lead + |b.cells|, res); }
    }
  }

  /** A time on the grid is before the cutoff exactly if it is before the rounded cutoff. */
  lemma LeftOut(truncateBefore: Time, res: Resolution, until: Time, u: Time)
    requires until != 0 && Aligned(until, u, res) && 0 < u <= until
    ensures u < RoundTimeUntilUp(truncateBefore, res, until) <==> truncateBefore != 0 && u < truncateBefore
  {
    if truncateBefore != 0 {
      var up := RoundTimeUntilUp(truncateBefore, res, until);
      RoundUntilUp(truncateBefore, res, until);
      AlignedTrans(up, until, u, res);
      if u < up { AlignedLess(u, up, res); }
    }
  }

  /** Merging sequences that end at 2 leaves the period that ends at 1, also with a cutoff of 2. */
  lemma ExpiredIsMerged<C(!new)>(s: Sequence<C>, other: Sequence<C>, ok: C -> bool, zero: C, merge: (C, C) -> C)
    requires s.Seq? && other.Seq? && s.until == 2 && other.until == 2
    requires Lawful(ok, zero, merge) && AllCells(s, ok) && AllCells(other, ok)
    ensures Expired(1, 1, 2)
            && At(Merge(s, other, 1, 2, zero, merge), 1, 1, zero) == merge(At(s, 1, 1, zero), At(other, 1, 1, zero))
  {
    MergeExactly(s, other, 1, 2, 1, ok, zero, merge);
  }

  /** Merge is pointwise: each period after the cutoff holds the merge of both cells, unset where neither has one. */
  lemma MergeMeaning<C(!new)>(s: Sequence<C>, other: Sequence<C>, res: Resolution, truncateBefore: Time, t: Time,
                              ok: C -> bool, zero: C, merge: (C, C) -> C)
    requires s.Seq? ==> s.until != 0 && Aligned(s.until, t, res)
    requires other.Seq? ==> other.until != 0 && Aligned(other.until, t, res)
    requires truncateBefore <= t - res && t > 0
    requires Lawful(ok, zero, merge) && AllCells(s, ok) && AllCells(other, ok)
    ensures At(Merge(s, other, res, truncateBefore, zero, merge), res, t, zero)
            == merge(At(s, res, t, zero), At(other, res, t, zero))
  {
    AtIsOk(s, res, t, ok, zero);
    AtIsOk(other, res, t, ok, zero);
    if s.Seq? && other.Seq? {
      var (a, b) := if other.until > s.until then (other, s) else (s, other);
      AlignedSym(b.until, t, res);
      AlignedTrans(a.until, t, b.until, res);
      if truncateBefore != 0 { RoundUntilUp(truncateBefore, res, a.until); }
      if b.until < RoundTimeUntilUp(truncateBefore, res, a.until) {
        AtOutside(b, res, t, zero);
      } else {
        MergeOrderedMeaning(a, b, res, t, ok, zero, merge);
      }
    }
  }

  lemma AtIsOk<C(!new)>(s: Sequence<C>, res: Resolution, t: Time, ok: C -> bool, zero: C)
    requires AllCells(s, ok) && ok(zero)
    ensures ok(At(s, res, t, zero))
  {
  }

  lemma MergeIsOk<C(!new)>(s: Sequence<C>, other: Sequence<C>, res: Resolution, truncateBefore: Time,
                           ok: C -> bool, zero: C, merge: (C, C) -> C)
    requires Lawful(ok, zero, merge) && AllCells(s, ok) && AllCells(other, ok)
    ensures AllCells(Merge(s, other, res, truncateBefore, zero, merge), ok)
  {
    if s.Seq? && other.Seq? {
      var (a, b) := if other.until > s.until then (other, s) else (s, other);
      MergeOrderedIsOk(a, b, res, ok, zero, merge);
    }
  }

  lemma MergeOrderedIsOk<C(!new)>(a: Sequence<C>, b: Sequence<C>, res: Resolution, ok: C -> bool, zero: C,
                           merge: (C, C) -> C)
    requires a.Seq? && b.Seq? && a.until >= b.until
    requires Lawful(ok, zero, merge) && AllCells(a, ok) && AllCells(b, ok)
    ensures AllCells(MergeOrdered(a, b, res, zero, merge), ok)
  {
    hide MergedPeriods, Quot, Lawful;
    var r := MergeOrdered(a, b, res, zero, merge);
    var lead := Quot(a.until - b.until, res);
    forall p | 0 <= p < |r.cells| ensures ok(r.cells[p]) {
      assert r.cells[p] == MergeCells(a, p, b, p - lead, zero, merge);
      MergeCellsIsOk(a, p, b, p - lead, ok, zero, merge);
    }
  }

  lemma MergeCellsIsOk<C(!new)>(a: Sequence<C>, p: int, b: Sequence<C>, q: int, ok: C -> bool, zero: C,
                         merge: (C, C) -> C)
    requires a.Seq? && b.Seq? && Lawful(ok, zero, merge) && AllCells(a, ok) && AllCells(b, ok)
    ensures ok(MergeCells(a, p, b, q, zero, merge))
  {
  }

  /** On meanings, Merge is commutative. */
  lemma MergeCommutes<C(!new)>(s: Sequence<C>, other: Sequence<C>, res: Resolution, truncateBefore: Time, t: Time,
                               ok: C -> bool, zero: C, merge: (C, C) -> C)
    requires s.Seq? ==> s.until != 0 && Aligned(s.until, t, res)
    requires other.Seq? ==> other.until != 0 && Aligned(other.until, t, res)
    requires truncateBefore <= t - res && t > 0
    requires Lawful(ok, zero, merge) && AllCells(s, ok) && AllCells(other, ok)
    ensures At(Merge(s, other, res, truncateBefore, zero, merge), res, t, zero)
            == At(Merge(other, s, res, truncateBefore, zero, merge), res, t, zero)
  {
    hide Merge;
    MergeMeaning(s, other, res, truncateBefore, t, ok, zero, merge);
    MergeMeaning(other, s, res, truncateBefore, t, ok, zero, merge);
    AtIsOk(s, res, t, ok, zero);
    AtIsOk(other, res, t, ok, zero);
  }

  /** On meanings, Merge is associative. */
  lemma MergeAssociates<C(!new)>(x: Sequence<C>, y: Sequence<C>, z: Sequence<C>, res: Resolution, truncateBefore: Time,
                          t: Time,
                                 ok: C -> bool, zero: C, merge: (C, C) -> C)
    requires forall s | s in [x, y, z] :: s.Seq? ==> s.until != 0 && Aligned(s.until, t, res)
    requires truncateBefore <= t - res && t > 0
    requires Lawful(ok, zero, merge) && Associative(ok, merge)
    requires AllCells(x, ok) && AllCells(y, ok) && AllCells(z, ok)
    ensures var xy := Merge(x, y, res, truncateBefore, zero, merge);
            var yz := Merge(y, z, res, truncateBefore, zero, merge);
            At(Merge(xy, z, res, truncateBefore, zero, merge), res, t, zero)
            == At(Merge(x, yz, res, truncateBefore, zero, merge), res, t, zero)
  {
    assert x in [x, y, z] && y in [x, y, z] && z in [x, y, z];
    var xy := Merge(x, y, res, truncateBefore, zero, merge);
    var yz := Merge(y, z, res, truncateBefore, zero, merge);
    MergeIsOk(x, y, res, truncateBefore, ok, zero, merge);
    MergeIsOk(y, z, res, truncateBefore, ok, zero, merge);
    MergeMeaning(x, y, res, truncateBefore, t, ok, zero, merge);
    MergeMeaning(y, z, res, truncateBefore, t, ok, zero, merge);
    MergeMeaning(xy, z, res, truncateBefore, t, ok, zero, merge);
    MergeMeaning(x, yz, res, truncateBefore, t, ok, zero, merge);
    AtIsOk(x, res, t, ok, zero);
    AtIsOk(y, res, t, ok, zero);
    AtIsOk(z, res, t, ok, zero);
  }

  // ---------------------------------------------------------------- Merge, window by window

  /** Copies cells into a buffer. */
  method Copy<C>(out: array<C>, at: nat, cells: seq<C>)
    requires at + |cells| <= out.Length
    modifies out
    ensures forall i | 0 <= i < out.Length ::
              out[i] == if at <= i < at + |cells| then cells[i - at] else old(out[i])
  {
    for i := 0 to |cells|
      invariant forall j | 0 <= j < out.Length :: out[j] == if at <= j < at + i then cells[j - at] else old(out[j])
    {
      out[at + i] := cells[i];
    }
  }

  /** The windows of a merge, counted in periods. */
  lemma Windows(na: nat, nb: nat, startA: Time, startB: Time, res: Resolution)
    requires startA >= startB && Aligned(startA, startB, res)
    ensures var lead := (startA - startB) / res;
            var endA, endB := startA - na * res, startB - nb * res;
            && lead >= 0
            && (startB < endA <==> na < lead) && (endA < startB <==> lead < na)
            && (endA < endB <==> lead + nb < na) && (endB < endA <==> na < lead + nb)
            && Quot(startA - startB, res) == lead && Quot(startA - endA, res) == na
            && Quot(startA - endB, res) == lead + nb
            && Quot(endA - startB, res) == lead - na
  {
    var lead := (startA - startB) / res;
    QuotExact(startA - startB, res);
    if lead < 0 { ScaleLe(lead, -1, res); }
    Distribute(lead, nb, res);
    Distribute(lead, na, res);
    Ordered(lead, na, res);
    Ordered(lead + nb, na, res);
    QuotOfMultiple(na, res);
    QuotOfMultiple(lead + nb, res);
    QuotOfMultiple(lead - na, res);
  }

  lemma QuotOfMultiple(k: int, res: Resolution)
    ensures Quot(k * res, res) == k
  {
    MultipleDivides(k, res);
    QuotExact(k * res, res);
  }

  lemma Ordered(x: int, y: int, res: Resolution)
    ensures x * res < y * res <==> x < y
    ensures y * res < x * res <==> y < x
  {
    if x * res <= y * res { CancelLe(x, y, res); }
    if y * res <= x * res { CancelLe(y, x, res); }
    if x <= y { ScaleLe(x, y, res); }
    if y <= x { ScaleLe(y, x, res); }
  }

  /**
   * Merge with cursors over the output and both inputs: a window with the later
   * sequence only, then either the overlap or the gap, then the rest of
   * whichever sequence reaches further back.
   */
  method MergeWindows<C>(s: Sequence<C>, other: Sequence<C>, res: Resolution, truncateBefore: Time, zero: C,
                         merge: (C, C) -> C)
    returns (r: Sequence<C>)
    requires s.Seq? && other.Seq? ==> Aligned(s.until, other.until, res)
    ensures r == Merge(s, other, res, truncateBefore, zero, merge)
  {
    if s.Nil? { return other; }
    if other.Nil? { return s; }
    var sa, sb := s, other;
    if sb.until > sa.until { sa, sb := sb, sa; }
    if sb.until < RoundTimeUntilUp(truncateBefore, res, sa.until) { return sa; }
    AlignedSym(s.until, other.until, res);
    r := MergeOrderedWindows(sa, sb, res, zero, merge);
  }

  lemma SameCells<C>(a: Sequence<C>, b: Sequence<C>, res: Resolution, zero: C, merge: (C, C) -> C, r: Sequence<C>)
    requires a.Seq? && b.Seq? && a.until >= b.until && Aligned(a.until, b.until, res)
    requires r.Seq? && r.until == a.until && |r.cells| == MergedPeriods(a, b, res)
    requires forall p | 0 <= p < |r.cells| ::
             r.cells[p] == MergeCells(a, p, b, p - (a.until - b.until) / res, zero, merge)
    ensures r == MergeOrdered(a, b, res, zero, merge)
  {
    hide MergedPeriods, Quot;
    QuotExact(a.until - b.until, res);
  }

  method MergeOrderedWindows<C>(a: Sequence<C>, b: Sequence<C>, res: Resolution, zero: C, merge: (C, C) -> C)
    returns (r: Sequence<C>)
    requires a.Seq? && b.Seq? && a.until >= b.until && Aligned(a.until, b.until, res)
    ensures r == MergeOrdered(a, b, res, zero, merge)
  {
    hide Quot, MergeOrdered;
    var startA, startB := a.until, b.until;
    var endA, endB := startA - |a.cells| * res, startB - |b.cells| * res;
    var end := if endA < endB then endA else endB;
    var totalPeriods := Quot(startA - end, res);
    ghost var lead := (startA - startB) / res;
    MergedLength(a, b, res);
    Windows(|a.cells|, |b.cells|, startA, startB, res);
    var out := new C[totalPeriods](_ => zero);
    var sout, ia, ib := 0, 0, 0;

    var leadEnd := if startB < endA then endA else startB;
    var leadNoOverlapPeriods := Quot(startA - leadEnd, res);
    if leadNoOverlapPeriods > 0 {
      Copy(out, 0, a.cells[..leadNoOverlapPeriods]);
      sout, ia := leadNoOverlapPeriods, leadNoOverlapPeriods;
    }

    if startB > endA {
      var overlapPeriods := if endB > endA then Quot(startA - endB, res) else Quot(startA - endA, res);
      overlapPeriods := overlapPeriods - leadNoOverlapPeriods;
      for i := 0 to overlapPeriods
        invariant sout == ia == leadNoOverlapPeriods + i && ib == i
        invariant forall p | 0 <= p < totalPeriods ::
                    out[p] == if p < sout then MergeCells(a, p, b, p - lead, zero, merge) else zero
      {
        out[sout] := merge(a.cells[ia], b.cells[ib]);
        sout, ia, ib := sout + 1, ia + 1, ib + 1;
      }
    } else if startB < endA {
      sout := sout + Quot(endA - startB, res);
    }

    if endA < endB {
      Copy(out, sout, a.cells[ia..]);
    } else if endB < endA {
      Copy(out, sout, b.cells[ib..]);
    }
    r := Seq(startA, out[..]);
    SameCells(a, b, res, zero, merge, r);
  }
}
