/**
 * Sequence.SubMerge: adding a stored sequence to a sequence of coarser periods.
 *
 * The input has periods of `otherRes`, the result periods of `res`, a multiple
 * of it.  Each input period must land in the result period that contains it;
 * when striding only the newest part of each result period counts; when the
 * expression is shifted back, the submerger also looks at older input periods,
 * and input that ends early is extended so that it gets the chance to.
 * `SubMerge` is proved to compute, for every result period, the fold
 * (`FoldBucket`) of the submerger over the input periods in it.
 */
module Rebucketing {
  import opened Arithmetic
  import opened Sequences

  datatype Job<!C, !D> = Job(
    width: nat,                      // encoded width of the result expression
    otherWidth: nat,                 // encoded width of the stored expression
    res: Resolution,
    otherRes: Resolution,
    shift: int,                      // total shift of the result expression
    asOf: Time,
    until: Time,
    strideSlice: int,
    zero: C,
    otherZero: D,
    submerge: (C, seq<D>) -> C)      // into a cell, from a cell and the ones before it

  /** The situation SubMerge is called in: grids that nest, and shifts that look back by whole periods. */
  predicate WellPosed<C, D>(m: Job<C, D>) {
    && m.width > 0 && m.otherWidth > 0
    && m.res % m.otherRes == 0
    && m.shift <= 0 && m.shift % m.otherRes == 0
    && 0 < m.asOf + m.shift && m.asOf < m.until && m.res <= m.until && m.otherRes <= m.until
    && Aligned(m.until, m.asOf, m.otherRes)
  }

  predicate Fits<C>(s: Sequence<C>, until: Time, res: Resolution) {
    s.Seq? ==> s.until > 0 && Aligned(until, s.until, res)
  }

  function Scale<C, D>(m: Job<C, D>): nat {
    Quot(m.res, m.otherRes)
  }

  lemma ScaleIsExact<C, D>(m: Job<C, D>)
    requires m.res % m.otherRes == 0
    ensures Scale(m) > 0 && Scale(m) * m.otherRes == m.res
  {
    QuotExact(m.res, m.otherRes);
    if Scale(m) <= 0 { ScaleLe(Scale(m), 0, m.otherRes); }
  }

  /** How many periods before the current one a submerger may look at. */
  function Lookback<C, D>(m: Job<C, D>): nat {
    if m.shift <= 0 then Quot(-m.shift, m.otherRes) else 0
  }

  lemma LookbackIsExact<C, D>(m: Job<C, D>)
    requires m.shift <= 0 && m.shift % m.otherRes == 0
    ensures (-m.shift) % m.otherRes == 0 && Lookback(m) * m.otherRes == -m.shift
  {
    AlignedSym(m.shift, 0, m.otherRes);
    QuotExact(-m.shift, m.otherRes);
  }

  /** The input cells that end at u and before, as far as a submerger may look. */
  function Look<C, D>(m: Job<C, D>, other: Sequence<D>, u: Time): (w: seq<D>)
    ensures |w| == Lookback(m) + 1
  {
    seq(Lookback(m) + 1, i requires 0 <= i => At(other, m.otherRes, u - i * m.otherRes, m.otherZero))
  }

  /** The j-th newest input period of a result period lies wholly in its newest part, if only that counts. */
  predicate InStride<C, D>(m: Job<C, D>, j: nat) {
    m.strideSlice <= 0 || (j + 1) * m.otherRes <= m.strideSlice
  }

  /** Comparing with the number of whole input periods in the stride. */
  lemma StrideIsExact<C, D>(m: Job<C, D>, j: nat)
    ensures InStride(m, j) <==> m.strideSlice <= 0 || j < Quot(m.strideSlice, m.otherRes)
  {
    if m.strideSlice > 0 {
      var k := m.strideSlice / m.otherRes;
      Euclid(m.strideSlice, m.otherRes);
      Distribute(k, 1, m.otherRes);
      if j < k { ScaleLe(j + 1, k, m.otherRes); } else { ScaleLe(k + 1, j + 1, m.otherRes); }
    }
  }

  /** The submerger folded over the n newest input periods of the result period ending at t. */
  function FoldBucket<C, D>(m: Job<C, D>, other: Sequence<D>, t: Time, n: nat, c: C): C {
    if n == 0 then c else
      var acc := FoldBucket(m, other, t, n - 1, c);
      if InStride(m, n - 1) then m.submerge(acc, Look(m, other, t - (n - 1) * m.otherRes)) else acc
  }

  /** The first n cells, with zeros where there are none. */
  function Window<D>(cells: seq<D>, n: nat, zero: D): (w: seq<D>)
    ensures |w| == n
  {
    seq(n, i requires 0 <= i => if i < |cells| then cells[i] else zero)
  }

  predicate AllOk<D>(cells: seq<D>, ok: D -> bool) {
    forall i | 0 <= i < |cells| :: ok(cells[i])
  }

  /** A submerger keeps states proper, and reads only its window, missing cells counting as zeros. */
  ghost predicate Reads<C, D>(m: Job<C, D>, ok: C -> bool, c: C, cells: seq<D>) {
    && ok(m.submerge(c, cells))
    && m.submerge(c, cells) == m.submerge(c, Window(cells, Lookback(m) + 1, m.otherZero))
  }

  /** What the submergers of an expression guarantee; unset input adds nothing. */
  ghost predicate Lawful<C(!new), D(!new)>(m: Job<C, D>, ok: C -> bool, okOther: D -> bool) {
    && ok(m.zero) && okOther(m.otherZero)
    && (forall c, cells :: ok(c) && AllOk(cells, okOther) ==> Reads(m, ok, c, cells))
    && (forall c :: ok(c) ==> m.submerge(c, Repeat(m.otherZero, Lookback(m) + 1)) == c)
  }

  // ---------------------------------------------------------------- preparing the input

  /** The input within reach of the query. */
  function Within<C, D>(m: Job<C, D>, other: Sequence<D>): (r: Sequence<D>)
    requires m.otherWidth > 0
  {
    Truncate(other, m.otherWidth, m.otherRes, m.asOf + m.shift, m.until)
  }

  /** The input within reach, extended by the shift up to `until`. */
  function Prepare<C, D>(m: Job<C, D>, other: Sequence<D>): (r: Sequence<D>)
    requires m.otherWidth > 0
  {
    var kept := Within(m, other);
    if kept.Nil? || kept.cells == [] then Nil else Extend(m, kept)
  }

  function ShiftedEnd<C, D>(m: Job<C, D>, end: Time): Time {
    if end - m.shift > m.until then m.until else end - m.shift
  }

  function Extend<C, D>(m: Job<C, D>, kept: Sequence<D>): (r: Sequence<D>)
    requires kept.Seq?
    ensures r.Seq?
  {
    var growBy := Quot(ShiftedEnd(m, kept.until) - kept.until, m.otherRes);
    if m.shift < 0 && growBy > 0 then Seq(ShiftedEnd(m, kept.until), Repeat(m.otherZero, growBy) + kept.cells) else kept
  }

  lemma ExtendEnd<C, D>(m: Job<C, D>, kept: Sequence<D>)
    requires WellPosed(m) && kept.Seq? && kept.until <= m.until && Aligned(m.until, kept.until, m.otherRes)
    ensures var r := Extend(m, kept);
            && r.until == ShiftedEnd(m, kept.until)
            && kept.until <= r.until <= m.until && Aligned(m.until, r.until, m.otherRes)
            && |r.cells| >= |kept.cells| && r.until - kept.until == (|r.cells| - |kept.cells|) * m.otherRes
            && r.cells == Repeat(m.otherZero, |r.cells| - |kept.cells|) + kept.cells
  {
    hide Quot;
    var shifted := ShiftedEnd(m, kept.until);
    LookbackIsExact(m);
    AlignedBy(kept.until - m.shift, kept.until, Lookback(m), m.otherRes);
    AlignedSym(kept.until - m.shift, kept.until, m.otherRes);
    AlignedTrans(m.until, kept.until, kept.until - m.shift, m.otherRes);
    AlignedBy(m.until, m.until, 0, m.otherRes);
    AlignedSym(m.until, shifted, m.otherRes);
    AlignedTrans(shifted, m.until, kept.until, m.otherRes);
    QuotExact(shifted - kept.until, m.otherRes);
    var growBy := Quot(shifted - kept.until, m.otherRes);
    if growBy <= 0 { ScaleLe(growBy, 0, m.otherRes); } else { ScaleLe(1, growBy, m.otherRes); }
    assert Repeat(m.otherZero, 0) + kept.cells == kept.cells;
  }

  /** What is within reach: the periods in (asOf + shift, until]. */
  lemma WithinMeaning<C, D>(m: Job<C, D>, other: Sequence<D>, v: Time)
    requires WellPosed(m) && Fits(other, m.until, m.otherRes) && 0 < v && Aligned(m.until, v, m.otherRes)
    ensures At(Within(m, other), m.otherRes, v, m.otherZero)
            == if m.asOf + m.shift < v <= m.until then At(other, m.otherRes, v, m.otherZero) else m.otherZero
  {
    if other.Seq? {
      AlignedSym(m.until, other.until, m.otherRes);
      AlignedTrans(other.until, m.until, v, m.otherRes);
      TruncateMeaning(other, m.otherWidth, m.otherRes, m.asOf + m.shift, m.until, v, m.otherZero);
    }
  }

  lemma WithinEnds<C, D>(m: Job<C, D>, other: Sequence<D>)
    requires WellPosed(m) && Fits(other, m.until, m.otherRes)
    ensures var kept := Within(m, other);
            && Fits(kept, m.until, m.otherRes)
            && (kept.Seq? ==>
               other.Seq? && kept.until <= m.until && Oldest(other, m.otherRes) <= Oldest(kept, m.otherRes))
  {
    var kept := Within(m, other);
    if other.Seq? {
      AlignedBy(m.until, m.until, 0, m.otherRes);
      AlignedSym(m.until, other.until, m.otherRes);
      AlignedTrans(other.until, m.until, m.until, m.otherRes);
      TruncateMeaning(other, m.otherWidth, m.otherRes, m.asOf + m.shift, m.until, m.until, m.otherZero);
      TruncateEnds(other, m.otherWidth, m.otherRes, m.asOf + m.shift, m.until);
      TruncateOldest(other, m.otherWidth, m.otherRes, m.asOf + m.shift, m.until);
      if kept.Seq? { AlignedTrans(m.until, other.until, kept.until, m.otherRes); }
    }
  }

  /** Truncating does not reach further back. */
  lemma TruncateOldest<C>(s: Sequence<C>, width: nat, res: Resolution, asOf: Time, until: Time)
    requires width > 0 && s.Seq? && s.until != 0 && until != 0
    ensures var r := Truncate(s, width, res, asOf, until); r.Seq? ==> Oldest(s, res) <= Oldest(r, res)
  {
    hide RoundTimeUntilDown, DropNewest, DropOldest, Oldest;
    var u := RoundTimeUntilDown(until, res, s.until);
    RoundUntilDown(until, res, s.until);
    NewestDropped(s, width, res, u);
    var newest := DropNewest(s, width, res, u);
    if newest.Seq? { OldestDropped(newest, width, res, RoundTimeUntilDown(asOf, res, s.until)); }
  }

  lemma NewestDropped<C>(s: Sequence<C>, width: nat, res: Resolution, u: Time)
    requires width > 0 && s.Seq? && Aligned(u, s.until, res)
    ensures var r := DropNewest(s, width, res, u); r.Seq? ==> Oldest(r, res) == Oldest(s, res)
  {
    hide Quot;
    var k, r := Quot(s.until - u, res), DropNewest(s, width, res, u);
    AlignedSym(u, s.until, res);
    QuotExact(s.until - u, res);
    if r.Seq? && r != s { Distribute(|r.cells|, k, res); }
  }

  lemma OldestDropped<C>(s: Sequence<C>, width: nat, res: Resolution, asOf: Time)
    requires width > 0 && s.Seq?
    ensures var r := DropOldest(s, width, res, asOf); r.Seq? ==> Oldest(s, res) <= Oldest(r, res)
  {
    hide Quot;
    var r := DropOldest(s, width, res, asOf);
    if r.Seq? { ScaleLe(|r.cells|, |s.cells|, res); }
  }

  /** A truncated sequence ends by `until`, and no later than before. */
  lemma TruncateEnds<C>(s: Sequence<C>, width: nat, res: Resolution, asOf: Time, until: Time)
    requires width > 0 && s.Seq? && s.until > 0 && until > 0 && until >= res
    ensures var r := Truncate(s, width, res, asOf, until);
            r.Seq? ==> 0 < r.until <= until && r.until <= s.until
  {
    var u := RoundTimeUntilDown(until, res, s.until);
    RoundUntilDown(until, res, s.until);
    AlignedSym(u, s.until, res);
    QuotExact(s.until - u, res);
    if u < s.until { AlignedLess(u, s.until, res); }
    if Quot(s.until - u, res) <= 0 { ScaleLe(Quot(s.until - u, res), 0, res); }
  }

  /** Extending leaves every period its cell. */
  lemma PreparedAt<C, D>(m: Job<C, D>, other: Sequence<D>, v: Time)
    requires WellPosed(m) && Fits(other, m.until, m.otherRes) && Aligned(m.until, v, m.otherRes)
    ensures At(Prepare(m, other), m.otherRes, v, m.otherZero) == At(Within(m, other), m.otherRes, v, m.otherZero)
  {
    hide Within, Extend;
    var kept, r := Within(m, other), Prepare(m, other);
    if r.Nil? {
      AtOutside(kept, m.otherRes, v, m.otherZero);
    } else {
      PreparedEnd(m, other);
      var g := |r.cells| - |kept.cells|;
      AlignedSym(m.until, kept.until, m.otherRes);
      AlignedTrans(kept.until, m.until, v, m.otherRes);
      Exact(kept.until - v, m.otherRes);
      var p := (kept.until - v) / m.otherRes;
      AtPeriod(kept, m.otherRes, v, m.otherZero, p);
      Distribute(p, g, m.otherRes);
      AtPeriod(r, m.otherRes, v, m.otherZero, p + g);
    }
  }

  /** Preparing changes nothing within reach: periods in (asOf + shift, until] keep their cells. */
  lemma PreparedMeaning<C, D>(m: Job<C, D>, other: Sequence<D>, v: Time)
    requires WellPosed(m) && Fits(other, m.until, m.otherRes) && 0 < v && Aligned(m.until, v, m.otherRes)
    ensures At(Prepare(m, other), m.otherRes, v, m.otherZero)
            == if m.asOf + m.shift < v <= m.until then At(other, m.otherRes, v, m.otherZero) else m.otherZero
  {
    hide Within, Prepare, At;
    PreparedAt(m, other, v);
    WithinMeaning(m, other, v);
  }

  /** The prepared input ends a shift later than the kept one, or at `until`. */
  lemma PreparedEnd<C, D>(m: Job<C, D>, other: Sequence<D>)
    requires WellPosed(m) && Fits(other, m.until, m.otherRes) && Prepare(m, other).Seq?
    ensures var kept, r := Within(m, other), Prepare(m, other);
            && kept.Seq? && kept.until > 0 && Aligned(m.until, kept.until, m.otherRes)
               && Aligned(m.until, r.until, m.otherRes)
            && r.until == ShiftedEnd(m, kept.until) && kept.until <= r.until <= m.until
            && |r.cells| >= |kept.cells| && r.until - kept.until == (|r.cells| - |kept.cells|) * m.otherRes
            && r.cells == Repeat(m.otherZero, |r.cells| - |kept.cells|) + kept.cells
  {
    hide Within, Extend;
    WithinEnds(m, other);
    ExtendEnd(m, Within(m, other));
  }

  lemma PreparedOldest<C, D>(m: Job<C, D>, other: Sequence<D>)
    requires WellPosed(m) && Fits(other, m.until, m.otherRes) && Prepare(m, other).Seq?
    ensures Within(m, other).Seq? && Oldest(Prepare(m, other), m.otherRes) == Oldest(Within(m, other), m.otherRes)
  {
    hide Within, Prepare;
    var kept, r := Within(m, other), Prepare(m, other);
    PreparedEnd(m, other);
    Distribute(|r.cells| - |kept.cells|, |kept.cells|, m.otherRes);
  }

  // ---------------------------------------------------------------- making room in the result

  /** The newest period of the result, once it has room for input that ends at the given time. */
  function ExtendNewer<C, D>(m: Job<C, D>, result: Sequence<C>, newUntil: Time): (r: Sequence<C>)
    ensures r.Seq? && r.cells != []
  {
    if result.Nil? || result.cells == [] then Seq(newUntil, [m.zero]) else
      var periodsToPrepend := Quot(newUntil - result.until, m.res);
      if periodsToPrepend > 0 then Seq(newUntil, Repeat(m.zero, periodsToPrepend) + result.cells) else result
  }

  function ExtendOlder<C, D>(m: Job<C, D>, result: Sequence<C>, otherAsOf: Time): (r: Sequence<C>)
    requires result.Seq?
    ensures r.Seq? && |r.cells| >= |result.cells|
  {
    var oldAsOf := RoundTimeUntilUp(Oldest(result, m.res), m.res, result.until);
    var newAsOf := RoundTimeUntilDown(otherAsOf, m.res, result.until);
    var periodsToAppend := Quot(oldAsOf - newAsOf, m.res);
    if periodsToAppend > 0 then Seq(result.until, result.cells + Repeat(m.zero, periodsToAppend)) else result
  }

  /** The oldest time to make room for: that of the input, or the start of the query. */
  function OtherAsOf<C, D>(m: Job<C, D>, other: Sequence<D>): Time {
    var asOf := if other.Nil? then 0 else Oldest(other, m.otherRes);
    if asOf < m.asOf then m.asOf else asOf
  }

  function MakeRoom<C, D>(m: Job<C, D>, s: Sequence<C>, other: Sequence<D>, otherUntil: Time): (r: Sequence<C>)
    requires m.width > 0
    ensures r.Seq? && r.cells != []
  {
    var kept := Truncate(s, m.width, m.res, m.asOf, m.until);
    var newer := ExtendNewer(m, kept, RoundTimeUntilUp(otherUntil, m.res, m.until));
    ExtendOlder(m, newer, OtherAsOf(m, other))
  }

  lemma NewerMeaning<C, D>(m: Job<C, D>, result: Sequence<C>, newUntil: Time, t: Time)
    requires newUntil > 0 && Aligned(m.until, newUntil, m.res) && Fits(result, m.until, m.res)
             && Aligned(m.until, t, m.res)
    ensures var r := ExtendNewer(m, result, newUntil);
            && Fits(r, m.until, m.res) && newUntil <= r.until
            && (result.Seq? && result.cells != [] ==> r.until == newUntil || r.until == result.until)
            && (result.Nil? || result.cells == [] ==> r.until == newUntil)
            && At(r, m.res, t, m.zero) == At(result, m.res, t, m.zero)
  {
    var r := ExtendNewer(m, result, newUntil);
    AlignedSym(m.until, newUntil, m.res);
    if result.Nil? || result.cells == [] {
      AtOutside(result, m.res, t, m.zero);
      AlignedTrans(newUntil, m.until, t, m.res);
      assert forall p :: CellAt(r, p, m.zero) == m.zero;
    } else {
      AlignedTrans(newUntil, m.until, result.until, m.res);
      QuotExact(newUntil - result.until, m.res);
      var k := Quot(newUntil - result.until, m.res);
      AlignedSym(m.until, result.until, m.res);
      AlignedTrans(result.until, m.until, t, m.res);
      Exact(result.until - t, m.res);
      var p := (result.until - t) / m.res;
      AtPeriod(result, m.res, t, m.zero, p);
      if k > 0 {
        Distribute(p, k, m.res);
        AtPeriod(r, m.res, t, m.zero, p + k);
        ScaleLe(1, k, m.res);
      } else {
        ScaleLe(k, 0, m.res);
      }
    }
  }

  lemma OlderMeaning<C, D>(m: Job<C, D>, result: Sequence<C>, otherAsOf: Time, t: Time)
    requires result.Seq? && result.until > 0 && otherAsOf > 0
    ensures var r := ExtendOlder(m, result, otherAsOf);
            && r.until == result.until && Oldest(r, m.res) <= otherAsOf
            && At(r, m.res, t, m.zero) == At(result, m.res, t, m.zero)
  {
    var r := ExtendOlder(m, result, otherAsOf);
    var oldAsOf := Oldest(result, m.res);
    var n := |result.cells|;
    Distribute(0, n, m.res);
    AlignedBy(oldAsOf, result.until, -n, m.res);
    OldestOnGrid(result, m.res);
    var newAsOf := RoundTimeUntilDown(otherAsOf, m.res, result.until);
    RoundUntilDown(otherAsOf, m.res, result.until);
    AlignedSym(newAsOf, result.until, m.res);
    AlignedTrans(oldAsOf, result.until, newAsOf, m.res);
    QuotExact(oldAsOf - newAsOf, m.res);
    var k := Quot(oldAsOf - newAsOf, m.res);
    if k > 0 { Distribute(n, k, m.res); } else { ScaleLe(k, 0, m.res); }
    assert forall p :: CellAt(r, p, m.zero) == CellAt(result, p, m.zero);
  }

  lemma OldestOnGrid<C>(s: Sequence<C>, res: Resolution)
    requires s.Seq? && s.until > 0
    ensures RoundTimeUntilUp(Oldest(s, res), res, s.until) == Oldest(s, res)
  {
    var n := |s.cells|;
    MultipleDivides(n, res);
    assert s.until - Oldest(s, res) == n * res;
  }

  /** The result has room from the end of the input back to its start, and every period keeps its cell. */
  lemma RoomMeaning<C, D>(m: Job<C, D>, s: Sequence<C>, other: Sequence<D>, otherUntil: Time, t: Time)
    requires WellPosed(m) && Fits(s, m.until, m.res)
    requires 0 < otherUntil <= m.until && m.asOf < t <= m.until && Aligned(m.until, t, m.res)
    ensures var r := MakeRoom(m, s, other, otherUntil);
            && Fits(r, m.until, m.res) && otherUntil <= r.until <= m.until
            && Oldest(r, m.res) <= OtherAsOf(m, other)
            && At(r, m.res, t, m.zero) == At(s, m.res, t, m.zero)
  {
    var kept := Truncate(s, m.width, m.res, m.asOf, m.until);
    if s.Seq? {
      AlignedSym(m.until, s.until, m.res);
      AlignedTrans(s.until, m.until, t, m.res);
      TruncateMeaning(s, m.width, m.res, m.asOf, m.until, t, m.zero);
      TruncateEnds(s, m.width, m.res, m.asOf, m.until);
      if kept.Seq? { AlignedTrans(m.until, s.until, kept.until, m.res); }
    }
    var newUntil := RoundTimeUntilUp(otherUntil, m.res, m.until);
    RoundUntilUp(otherUntil, m.res, m.until);
    AlignedSym(newUntil, m.until, m.res);
    if newUntil > m.until { AlignedLess(m.until, newUntil, m.res); }
    NewerMeaning(m, kept, newUntil, t);
    OlderMeaning(m, ExtendNewer(m, kept, newUntil), OtherAsOf(m, other), t);
  }

  lemma TruncateIsOk<C(!new)>(s: Sequence<C>, width: nat, res: Resolution, asOf: Time, until: Time, ok: C -> bool)
    requires width > 0 && AllCells(s, ok)
    ensures AllCells(Truncate(s, width, res, asOf, until), ok)
  {
    hide RoundTimeUntilDown, DropNewest, DropOldest;
    if s.Seq? {
      var end := RoundTimeUntilDown(until, res, s.until);
      var newest := DropNewest(s, width, res, end);
      NewestIsOk(s, width, res, end, ok);
      if newest.Seq? { OldestIsOk(newest, width, res, RoundTimeUntilDown(asOf, res, s.until), ok); }
    }
  }

  lemma NewestIsOk<C(!new)>(s: Sequence<C>, width: nat, res: Resolution, until: Time, ok: C -> bool)
    requires width > 0 && s.Seq? && AllCells(s, ok)
    ensures AllCells(DropNewest(s, width, res, until), ok)
  {
    hide Quot;
  }

  lemma OldestIsOk<C(!new)>(s: Sequence<C>, width: nat, res: Resolution, asOf: Time, ok: C -> bool)
    requires width > 0 && s.Seq? && AllCells(s, ok)
    ensures AllCells(DropOldest(s, width, res, asOf), ok)
  {
    hide Quot;
  }

  lemma RoomIsOk<C(!new), D(!new)>(m: Job<C, D>, s: Sequence<C>, other: Sequence<D>, otherUntil: Time, ok: C -> bool)
    requires m.width > 0 && AllCells(s, ok) && ok(m.zero)
    ensures AllCells(MakeRoom(m, s, other, otherUntil), ok)
  {
    hide Truncate, RoundTimeUntilUp, RoundTimeUntilDown, Quot, Oldest;
    TruncateIsOk(s, m.width, m.res, m.asOf, m.until, ok);
    var kept := Truncate(s, m.width, m.res, m.asOf, m.until);
    assert AllCells(ExtendNewer(m, kept, RoundTimeUntilUp(otherUntil, m.res, m.until)), ok);
  }

  lemma PreparedIsOk<C(!new), D(!new)>(m: Job<C, D>, other: Sequence<D>, okOther: D -> bool)
    requires m.otherWidth > 0 && AllCells(other, okOther) && okOther(m.otherZero)
    ensures AllCells(Prepare(m, other), okOther)
  {
    hide Truncate, Quot;
    TruncateIsOk(other, m.otherWidth, m.otherRes, m.asOf + m.shift, m.until, okOther);
  }

  // ---------------------------------------------------------------- folding

  lemma LookIsOk<C(!new), D(!new)>(m: Job<C, D>, other: Sequence<D>, u: Time, okOther: D -> bool)
    requires AllCells(other, okOther) && okOther(m.otherZero)
    ensures AllOk(Look(m, other, u), okOther)
  {
  }

  lemma {:induction false} FoldIsOk<C(!new), D(!new)>(m: Job<C, D>, other: Sequence<D>, t: Time, n: nat, c: C,
                                      ok: C -> bool, okOther: D -> bool)
    requires Lawful(m, ok, okOther) && AllCells(other, okOther) && ok(c)
    ensures ok(FoldBucket(m, other, t, n, c))
  {
    if n > 0 {
      FoldIsOk(m, other, t, n - 1, c, ok, okOther);
      var look := Look(m, other, t - (n - 1) * m.otherRes);
      LookIsOk(m, other, t - (n - 1) * m.otherRes, okOther);
      assert Reads(m, ok, FoldBucket(m, other, t, n - 1, c), look);
    }
  }

  /** Whether all cells that a submerger sees from a period are unset. */
  ghost predicate Unseen<C, D>(m: Job<C, D>, other: Sequence<D>, u: Time) {
    Look(m, other, u) == Repeat(m.otherZero, Lookback(m) + 1)
  }

  /** Periods that see nothing add nothing. */
  lemma {:induction false} FoldUnseen<C(!new), D(!new)>(m: Job<C, D>, other: Sequence<D>, t: Time, n: nat, n': nat,
                                        c: C, ok: C -> bool, okOther: D -> bool)
    requires Lawful(m, ok, okOther) && AllCells(other, okOther) && ok(c) && n <= n'
    requires forall j | n <= j < n' :: Unseen(m, other, t - j * m.otherRes)
    ensures FoldBucket(m, other, t, n', c) == FoldBucket(m, other, t, n, c)
  {
    if n < n' {
      FoldUnseen(m, other, t, n, n' - 1, c, ok, okOther);
      FoldIsOk(m, other, t, n' - 1, c, ok, okOther);
      assert Unseen(m, other, t - (n' - 1) * m.otherRes);
    }
  }

  /** A period after the prepared input, or before it or the stored input, sees nothing. */
  lemma SeesNothing<C, D>(m: Job<C, D>, other: Sequence<D>, u: Time)
    requires WellPosed(m) && Fits(other, m.until, m.otherRes) && u <= m.until && Aligned(m.until, u, m.otherRes)
    requires var input := Prepare(m, other);
             || input.Nil? || input.until < u || u <= Oldest(input, m.otherRes)
             || (other.Seq? && u <= Oldest(other, m.otherRes))
    ensures Unseen(m, Within(m, other), u)
  {
    hide Within, Prepare, Oldest;
    var input, kept := Prepare(m, other), Within(m, other);
    forall i | 0 <= i <= Lookback(m) ensures At(kept, m.otherRes, u - i * m.otherRes, m.otherZero) == m.otherZero {
      SeenTime(m, u, i);
      OutOfSight(m, other, u, u - i * m.otherRes);
    }
  }

  lemma OutOfSight<C, D>(m: Job<C, D>, other: Sequence<D>, u: Time, v: Time)
    requires WellPosed(m) && Fits(other, m.until, m.otherRes) && u <= m.until && u + m.shift <= v <= u
    requires var input := Prepare(m, other);
             || input.Nil? || input.until < u || u <= Oldest(input, m.otherRes)
             || (other.Seq? && u <= Oldest(other, m.otherRes))
    ensures At(Within(m, other), m.otherRes, v, m.otherZero) == m.otherZero
  {
    hide Within;
    WithinEnds(m, other);
    if Prepare(m, other).Seq? {
      PreparedEnd(m, other);
      PreparedOldest(m, other);
    }
    AtOutside(Within(m, other), m.otherRes, v, m.otherZero);
  }

  /** The i-th period before u lies within the shift. */
  lemma SeenTime<C, D>(m: Job<C, D>, u: Time, i: nat)
    requires WellPosed(m) && Aligned(m.until, u, m.otherRes) && i <= Lookback(m)
    ensures var v := u - i * m.otherRes; u + m.shift <= v <= u && Aligned(m.until, v, m.otherRes)
  {
    LookbackIsExact(m);
    ScaleLe(i, Lookback(m), m.otherRes);
    ScaleLe(0, i, m.otherRes);
    AlignedBy(u, u - i * m.otherRes, i, m.otherRes);
    AlignedTrans(m.until, u, u - i * m.otherRes, m.otherRes);
  }

  /** A submerger run on the remaining prepared input sees what is within reach at its time and before. */
  lemma SeesInput<C(!new), D(!new)>(m: Job<C, D>, other: Sequence<D>, po: nat, c: C, ok: C -> bool, okOther: D -> bool)
    requires WellPosed(m) && Fits(other, m.until, m.otherRes)
    requires Lawful(m, ok, okOther) && AllCells(other, okOther) && ok(c)
    requires Prepare(m, other).Seq? && po < |Prepare(m, other).cells|
    ensures var input := Prepare(m, other);
            && m.submerge(c, input.cells[po..]) == m.submerge(c,
               Look(m, Within(m, other), input.until - po * m.otherRes))
            && ok(m.submerge(c, input.cells[po..]))
  {
    hide Prepare, Within;
    var input := Prepare(m, other);
    var u := input.until - po * m.otherRes;
    PreparedEnd(m, other);
    PreparedIsOk(m, other, okOther);
    AlignedBy(input.until, u, po, m.otherRes);
    AlignedTrans(m.until, input.until, u, m.otherRes);
    var seen := Window(input.cells[po..], Lookback(m) + 1, m.otherZero);
    forall i | 0 <= i <= Lookback(m)
      ensures seen[i] == At(Within(m, other), m.otherRes, u - i * m.otherRes, m.otherZero)
    {
      SeenTime(m, u, i);
      PreparedAt(m, other, u - i * m.otherRes);
      Distribute(po, i, m.otherRes);
      AtPeriod(input, m.otherRes, u - i * m.otherRes, m.otherZero, po + i);
    }
    assert seen == Look(m, Within(m, other), u);
    assert Reads(m, ok, c, input.cells[po..]);
  }

  // ---------------------------------------------------------------- SubMerge

  /** How many of the periods of bucket p lie before position q. */
  function Done(p: nat, q: int, scale: nat): nat {
    var n := q - p * scale;
    if n < 0 then 0 else if n > scale then scale else n
  }

  /** The end of the p-th period of the result. */
  function BucketEnd<C, D>(m: Job<C, D>, room: Sequence<C>, p: int): Time
    requires room.Seq?
  {
    room.until - p * m.res
  }

  /** Every bucket after asOf holds the fold of its input periods before position q. */
  ghost predicate Folded<C, D>(m: Job<C, D>, room: Sequence<C>, other: Sequence<D>, cells: seq<C>, q: int)
    requires room.Seq?
  {
    && m.otherWidth > 0 && |cells| == |room.cells|
    && forall p | 0 <= p < |cells| && m.asOf < BucketEnd(m, room, p) ::
         cells[p] == FoldBucket(m, Within(m, other), BucketEnd(m, room, p), Done(p, q, Scale(m)), room.cells[p])
  }

  /** Input period po is the j-th newest of bucket p. */
  lemma Position<C, D>(m: Job<C, D>, room: Sequence<C>, inputUntil: Time, po: nat, p: int, j: int)
    requires WellPosed(m) && room.Seq? && Aligned(room.until, inputUntil, m.otherRes)
             && Aligned(m.until, room.until, m.res)
    requires po + (room.until - inputUntil) / m.otherRes == p * Scale(m) + j && 0 <= j < Scale(m)
    ensures BucketEnd(m, room, p) - j * m.otherRes == inputUntil - po * m.otherRes
  {
    var o := (room.until - inputUntil) / m.otherRes;
    Exact(room.until - inputUntil, m.otherRes);
    ScaleIsExact(m);
    Distribute(po, o, m.otherRes);
    Distribute(p * Scale(m), j, m.otherRes);
    assert p * Scale(m) * m.otherRes == p * m.res by { Regroup(p, Scale(m), m.otherRes); }
  }

  lemma Regroup(x: int, y: int, z: int)
    ensures x * y * z == x * (y * z)
  {
  }

  lemma BucketOnGrid<C, D>(m: Job<C, D>, room: Sequence<C>, p: int)
    requires room.Seq? && Aligned(m.until, room.until, m.res)
    ensures Aligned(m.until, BucketEnd(m, room, p), m.res)
  {
    var t := BucketEnd(m, room, p);
    AlignedBy(room.until, t, p, m.res);
    AlignedTrans(m.until, room.until, t, m.res);
  }

  /** What holds of the prepared input and of the room made for it. */
  ghost predicate Ready<C(!new), D(!new)>(m: Job<C, D>, other: Sequence<D>, input: Sequence<D>, room: Sequence<C>,
                          ok: C -> bool, okOther: D -> bool) {
    && WellPosed(m) && Fits(other, m.until, m.otherRes) && input == Prepare(m, other)
       && AllCells(Within(m, other), okOther)
    && input.Seq? && room.Seq? && 0 < input.until <= room.until <= m.until
    && Aligned(room.until, input.until, m.otherRes) && Aligned(m.until, room.until, m.res)
    && AllCells(other, okOther) && AllCells(room, ok)
    && Lawful(m, ok, okOther)
  }

  lemma MakeReady<C(!new), D(!new)>(m: Job<C, D>, s: Sequence<C>, other: Sequence<D>, ok: C -> bool, okOther: D -> bool)
    requires WellPosed(m) && Lawful(m, ok, okOther)
    requires Fits(s, m.until, m.res) && Fits(other, m.until, m.otherRes) && AllCells(s, ok) && AllCells(other, okOther)
    requires Prepare(m, other).Seq?
    ensures var input := Prepare(m, other); Ready(m, other, input, MakeRoom(m, s, other, input.until), ok, okOther)
  {
    hide Lawful, MakeRoom, Prepare;
    var input := Prepare(m, other);
    var room := MakeRoom(m, s, other, input.until);
    PreparedEnd(m, other);
    AlignedBy(m.until, m.until, 0, m.res);
    RoomMeaning(m, s, other, input.until, m.until);
    LawfulZero(m, ok, okOther);
    RoomIsOk(m, s, other, input.until, ok);
    TruncateIsOk(other, m.otherWidth, m.otherRes, m.asOf + m.shift, m.until, okOther);
    Coarser(m, m.until, room.until);
    AlignedSym(m.until, room.until, m.otherRes);
    AlignedTrans(room.until, m.until, input.until, m.otherRes);
  }

  lemma LawfulZero<C(!new), D(!new)>(m: Job<C, D>, ok: C -> bool, okOther: D -> bool)
    ensures Lawful(m, ok, okOther) ==> ok(m.zero) && okOther(m.otherZero)
  {
  }

  /** Times aligned on the coarse grid are aligned on the fine one. */
  lemma Coarser<C, D>(m: Job<C, D>, t: Time, u: Time)
    requires m.res % m.otherRes == 0 && Aligned(t, u, m.res)
    ensures Aligned(t, u, m.otherRes)
  {
    ScaleIsExact(m);
    Exact(t - u, m.res);
    var k := (t - u) / m.res;
    Regroup(k, Scale(m), m.otherRes);
    AlignedBy(t, u, k * Scale(m), m.otherRes);
  }

  lemma DoneStep(p: nat, q: int, scale: nat, p': nat)
    requires scale > 0 && p == q / scale && 0 <= q
    ensures var j := q % scale;
            q == p * scale + j && Done(p, q, scale) == j && Done(p, q + 1, scale) == j + 1
    ensures p' != p ==> Done(p', q + 1, scale) == Done(p', q, scale)
  {
    Euclid(q, scale);
    if p' < p {
      ScaleLe(p' + 1, p, scale);
      Distribute(p', 1, scale);
    } else if p' > p {
      ScaleLe(p + 1, p', scale);
      Distribute(p, 1, scale);
    }
  }

  lemma FoldedStart<C(!new), D(!new)>(m: Job<C, D>, other: Sequence<D>, input: Sequence<D>, room: Sequence<C>,
                      ok: C -> bool, okOther: D -> bool)
    requires Ready(m, other, input, room, ok, okOther)
    ensures Folded(m, room, other, room.cells, (room.until - input.until) / m.otherRes)
  {
    var q := (room.until - input.until) / m.otherRes;
    ScaleIsExact(m);
    forall p | 0 <= p < |room.cells| && m.asOf < BucketEnd(m, room, p)
      ensures room.cells[p] == FoldBucket(m, Within(m, other), BucketEnd(m, room, p), Done(p, q, Scale(m)),
              room.cells[p])
    {
      var t := BucketEnd(m, room, p);
      forall j | 0 <= j < Done(p, q, Scale(m)) ensures Unseen(m, Within(m, other), t - j * m.otherRes) {
        InBucket(m, room, p, j);
        BeforeInput(m, room, input, p, j);
        SeesNothing(m, other, t - j * m.otherRes);
      }
      FoldUnseen(m, Within(m, other), t, 0, Done(p, q, Scale(m)), room.cells[p], ok, okOther);
    }
  }

  /** The j-th newest period of a bucket is on the fine grid. */
  lemma InBucket<C, D>(m: Job<C, D>, room: Sequence<C>, p: nat, j: nat)
    requires WellPosed(m) && room.Seq? && Aligned(m.until, room.until, m.res) && room.until <= m.until
    ensures var u := BucketEnd(m, room, p) - j * m.otherRes;
            u <= m.until && Aligned(m.until, u, m.otherRes)
  {
    var t := BucketEnd(m, room, p);
    BucketOnGrid(m, room, p);
    ScaleLe(0, j, m.otherRes);
    ScaleLe(0, p, m.res);
    Coarser(m, m.until, t);
    AlignedBy(t, t - j * m.otherRes, j, m.otherRes);
    AlignedTrans(m.until, t, t - j * m.otherRes, m.otherRes);
  }

  /** Positions before the offset of the input are newer than it. */
  lemma BeforeInput<C, D>(m: Job<C, D>, room: Sequence<C>, input: Sequence<D>, p: nat, j: nat)
    requires WellPosed(m) && room.Seq? && input.Seq? && Aligned(room.until, input.until, m.otherRes)
    ensures var q, u := p * Scale(m) + j, BucketEnd(m, room, p) - j * m.otherRes;
            && (q < (room.until - input.until) / m.otherRes ==> input.until < u)
            && (q >= (room.until - input.until) / m.otherRes + |input.cells| ==> u <= Oldest(input, m.otherRes))
  {
    var o, q := (room.until - input.until) / m.otherRes, p * Scale(m) + j;
    Exact(room.until - input.until, m.otherRes);
    ScaleIsExact(m);
    Distribute(p * Scale(m), j, m.otherRes);
    Regroup(p, Scale(m), m.otherRes);
    Distribute(o, |input.cells|, m.otherRes);
    Distribute(q, 1, m.otherRes);
    if q < o { ScaleLe(q + 1, o, m.otherRes); }
    if q >= o + |input.cells| { ScaleLe(o + |input.cells|, q, m.otherRes); }
  }

  /** One round of the loop: the submerger runs on the bucket of the next input period. */
  lemma FoldedStep<C(!new), D(!new)>(m: Job<C, D>, other: Sequence<D>, input: Sequence<D>, room: Sequence<C>,
                     ok: C -> bool, okOther: D -> bool,
                                     cells: seq<C>, po: nat)
    requires Ready(m, other, input, room, ok, okOther) && AllOk(cells, ok) && po < |input.cells|
    requires Scale(m) > 0 && |cells| == |room.cells|
    requires var q := po + (room.until - input.until) / m.otherRes;
             q >= 0 && q / Scale(m) < |cells| && Folded(m, room, other, cells, q)
    ensures var q := po + (room.until - input.until) / m.otherRes;
            var p := q / Scale(m);
            var next := if InStride(m, q % Scale(m)) then cells[p := m.submerge(cells[p], input.cells[po..])]
              else cells;
            Folded(m, room, other, next, q + 1)
  {
    hide Lawful, Prepare, MakeRoom, FoldBucket, Scale, Done;
    var q := po + (room.until - input.until) / m.otherRes;
    var p, j := q / Scale(m), q % Scale(m);
    var next := if InStride(m, j) then cells[p := m.submerge(cells[p], input.cells[po..])] else cells;
    forall p' | 0 <= p' < |next| && m.asOf < BucketEnd(m, room, p')
      ensures next[p'] == FoldBucket(m, Within(m, other), BucketEnd(m, room, p'), Done(p', q + 1, Scale(m)),
              room.cells[p'])
    {
      DoneStep(p, q, Scale(m), p');
      if p' == p {
        var t := BucketEnd(m, room, p);
        Position(m, room, input.until, po, p, j);
        SeesInput(m, other, po, cells[p], ok, okOther);
        FoldNext(m, Within(m, other), t, j, room.cells[p]);
      }
    }
  }

  lemma FoldNext<C, D>(m: Job<C, D>, other: Sequence<D>, t: Time, n: nat, c: C)
    ensures FoldBucket(m, other, t, n + 1, c) ==
            var acc := FoldBucket(m, other, t, n, c);
            if InStride(m, n) then m.submerge(acc, Look(m, other, t - n * m.otherRes)) else acc
  {
  }

  /** When the loop ends, every bucket of the result has seen all of its input. */
  lemma FoldedEnd<C(!new), D(!new)>(m: Job<C, D>, s: Sequence<C>, other: Sequence<D>, input: Sequence<D>,
                    room: Sequence<C>, ok: C -> bool, okOther: D -> bool,
                                    cells: seq<C>, q: int, t: Time)
    requires Ready(m, other, input, room, ok, okOther) && Folded(m, room, other, cells, q)
    requires Fits(s, m.until, m.res) && room == MakeRoom(m, s, other, input.until)
    requires q >= (room.until - input.until) / m.otherRes + |input.cells| || q >= |cells| * Scale(m)
    requires m.asOf < t <= m.until && Aligned(m.until, t, m.res)
    ensures At(Seq(room.until, cells), m.res, t, m.zero)
            == FoldBucket(m, Within(m, other), t, Scale(m), At(s, m.res, t, m.zero))
  {
    hide Lawful, Prepare, MakeRoom, Scale, Done, FoldBucket, At;
    RoomMeaning(m, s, other, input.until, t);
    AlignedSym(m.until, room.until, m.res);
    AlignedTrans(room.until, m.until, t, m.res);
    Exact(room.until - t, m.res);
    var p := (room.until - t) / m.res;
    AtPeriod(room, m.res, t, m.zero, p);
    AtPeriod(Seq(room.until, cells), m.res, t, m.zero, p);
    if 0 <= p < |cells| {
      BucketIsDone(m, other, input, room, ok, okOther, cells, q, p);
    } else {
      BucketIsOutside(m, s, other, input, room, ok, okOther, t, p);
    }
  }

  lemma BucketIsDone<C(!new), D(!new)>(m: Job<C, D>, other: Sequence<D>, input: Sequence<D>, room: Sequence<C>,
                       ok: C -> bool, okOther: D -> bool,
                                       cells: seq<C>, q: int, p: nat)
    requires Ready(m, other, input, room, ok, okOther) && Folded(m, room, other, cells, q)
    requires q >= (room.until - input.until) / m.otherRes + |input.cells| || q >= |cells| * Scale(m)
    requires p < |cells| && m.asOf < BucketEnd(m, room, p)
    ensures cells[p] == FoldBucket(m, Within(m, other), BucketEnd(m, room, p), Scale(m), room.cells[p])
  {
    hide Lawful, Prepare, MakeRoom, Scale, FoldBucket;
    var t, scale := BucketEnd(m, room, p), Scale(m);
    ScaleIsExact(m);
    if q >= |cells| * scale {
      ScaleLe(p + 1, |cells|, scale);
      Distribute(p, 1, scale);
    } else {
      forall j | Done(p, q, scale) <= j < scale ensures Unseen(m, Within(m, other), t - j * m.otherRes) {
        InBucket(m, room, p, j);
        BeforeInput(m, room, input, p, j);
        SeesNothing(m, other, t - j * m.otherRes);
      }
      FoldUnseen(m, Within(m, other), t, Done(p, q, scale), scale, room.cells[p], ok, okOther);
    }
  }

  /** A period for which no room was made has no input. */
  lemma BucketIsOutside<C(!new), D(!new)>(m: Job<C, D>, s: Sequence<C>, other: Sequence<D>, input: Sequence<D>,
                          room: Sequence<C>, ok: C -> bool, okOther: D -> bool,
                                          t: Time, p: int)
    requires Ready(m, other, input, room, ok, okOther)
    requires Fits(s, m.until, m.res) && room == MakeRoom(m, s, other, input.until)
    requires m.asOf < t <= m.until && t == BucketEnd(m, room, p) && !(0 <= p < |room.cells|)
    ensures FoldBucket(m, Within(m, other), t, Scale(m), m.zero) == m.zero
  {
    hide Prepare, MakeRoom, Scale, Reads;
    ScaleIsExact(m);
    BucketOnGrid(m, room, p);
    RoomMeaning(m, s, other, input.until, t);
    if p >= |room.cells| { ScaleLe(|room.cells|, p, m.res); } else { ScaleLe(p, -1, m.res); }
    forall j | 0 <= j < Scale(m) ensures Unseen(m, Within(m, other), t - j * m.otherRes) {
      var at := Seq(t, [m.zero]);
      AlignedBy(t, t, 0, m.res);
      InBucket(m, at, 0, j);
      ScaleLe(j + 1, Scale(m), m.otherRes);
      Distribute(j, 1, m.otherRes);
      ScaleLe(0, j, m.otherRes);
      SeesNothing(m, other, t - j * m.otherRes);
    }
    FoldUnseen(m, Within(m, other), t, 0, Scale(m), m.zero, ok, okOther);
  }

  lemma StepIsOk<C(!new), D(!new)>(m: Job<C, D>, other: Sequence<D>, input: Sequence<D>, room: Sequence<C>,
                   ok: C -> bool, okOther: D -> bool,
                                   c: C, po: nat)
    requires Ready(m, other, input, room, ok, okOther) && ok(c) && po < |input.cells|
    ensures ok(m.submerge(c, input.cells[po..]))
  {
    hide Prepare, MakeRoom, WellPosed, Within;
    PreparedIsOk(m, other, okOther) by { assert m.otherWidth > 0 by { PosedWidths(m); } }
    assert Reads(m, ok, c, input.cells[po..]);
  }

  lemma PosedWidths<C, D>(m: Job<C, D>)
    requires WellPosed(m)
    ensures m.otherWidth > 0
  {
  }

  /** Without input in reach, no bucket changes. */
  lemma NoInput<C(!new), D(!new)>(m: Job<C, D>, other: Sequence<D>, t: Time, c: C, ok: C -> bool, okOther: D -> bool)
    requires WellPosed(m) && Lawful(m, ok, okOther) && Fits(other, m.until, m.otherRes) && AllCells(other, okOther)
             && ok(c)
    requires Prepare(m, other).Nil? && m.asOf < t <= m.until && Aligned(m.until, t, m.res)
    ensures FoldBucket(m, Within(m, other), t, Scale(m), c) == c
  {
    ScaleIsExact(m);
    TruncateIsOk(other, m.otherWidth, m.otherRes, m.asOf + m.shift, m.until, okOther);
    forall j | 0 <= j < Scale(m) ensures Unseen(m, Within(m, other), t - j * m.otherRes) {
      var at := Seq(t, [m.zero]);
      InBucket(m, at, 0, j);
      SeesNothing(m, other, t - j * m.otherRes);
    }
    FoldUnseen(m, Within(m, other), t, 0, Scale(m), c, ok, okOther);
  }

  lemma OffsetOf(t: Time, u: Time, r: Resolution)
    requires t >= u && Aligned(t, u, r)
    ensures Quot(t - u, r) == (t - u) / r >= 0
  {
    QuotExact(t - u, r);
    if Quot(t - u, r) < 0 { ScaleLe(Quot(t - u, r), -1, r); }
  }

  lemma PastTheEnd(q: nat, scale: nat, n: nat)
    requires scale > 0 && Bucket(q, scale) >= n
    ensures q >= n * scale
  {
    Euclid(q, scale);
    ScaleLe(n, q / scale, scale);
  }

  /**
   * Adds a stored sequence to a result sequence.  Every result period that ends
   * in (asOf, until] gets the submerger folded over the input periods it contains,
   * newest first, as far as they are within reach; with a shift the submerger sees
   * the input that many periods earlier, also where the input itself has ended.
   */
  method SubMerge<C(!new), D(!new)>(m: Job<C, D>, s: Sequence<C>, other: Sequence<D>, ghost ok: C -> bool,
                    ghost okOther: D -> bool)
    returns (r: Sequence<C>)
    requires WellPosed(m) && Lawful(m, ok, okOther)
    requires Fits(s, m.until, m.res) && Fits(other, m.until, m.otherRes) && AllCells(s, ok) && AllCells(other, okOther)
    ensures Fits(r, m.until, m.res) && AllCells(r, ok)
    ensures forall t | m.asOf < t <= m.until && Aligned(m.until, t, m.res) ::
              At(r, m.res, t, m.zero) == FoldBucket(m, Within(m, other), t, Scale(m), At(s, m.res, t, m.zero))
    ensures forall t | m.asOf < t <= m.until && Aligned(m.until, t, m.res) ::
              TakesIn(m, Within(m, other), t, At(s, m.res, t, m.zero), At(r, m.res, t, m.zero))
    ensures if IsEmpty(Within(m, other)) then r == s else forall t | 0 < t <= m.asOf || m.until < t ::
              At(r, m.res, t, m.zero) == m.zero
  {
    InputIffAny(m, other);
    hide Lawful, Prepare, MakeRoom, Scale, FoldBucket, At, InStride, Quot, Aligned, Folded, TakesIn, Oldest;
    AllTaken(m, s, other);
    var input := Prepare(m, other);
    if input.Nil? {
      NothingToFold(m, s, other, ok, okOther);
      return s;
    }
    MakeReady(m, s, other, ok, okOther);
    var room := MakeRoom(m, s, other, input.until);
    var cells := FoldInput(m, s, other, input, room, ok, okOther);
    r := Seq(room.until, cells);
    OutsideWindow(m, s, other, input, room, ok, okOther, cells);
  }

  /** Which result period a position belongs to, and the how many-th newest it is there. */
  function Bucket(q: nat, scale: nat): nat
    requires scale > 0
  {
    q / scale
  }

  function Rank(q: nat, scale: nat): nat
    requires scale > 0
  {
    q % scale
  }

  /** The loop of SubMerge over the periods of the prepared input. */
  method FoldInput<C(!new), D(!new)>(m: Job<C, D>, ghost s: Sequence<C>, ghost other: Sequence<D>, input: Sequence<D>,
                     room: Sequence<C>, ghost ok: C -> bool, ghost okOther: D -> bool)
    returns (cells: seq<C>)
    requires Ready(m, other, input, room, ok, okOther)
    requires Fits(s, m.until, m.res) && room == MakeRoom(m, s, other, input.until)
    ensures |cells| == |room.cells| && AllOk(cells, ok) && IsSubMerged(m, s, other, Seq(room.until, cells))
  {
    hide Ready, Prepare, MakeRoom, Scale, Quot, Aligned, Folded, IsSubMerged, WellPosed, InStride, Fits, Bucket, Rank;
    ReadyMeans(m, other, input, room, ok, okOther);
    ScaleIsExact(m);
    var scale := Scale(m);
    var untilOffset := Quot(room.until - input.until, m.otherRes);
    var strideSlicePeriods := Quot(m.strideSlice, m.otherRes);
    OffsetOf(room.until, input.until, m.otherRes);
    cells := room.cells;
    FoldedStart(m, other, input, room, ok, okOther);
    var po := 0;
    while po < |input.cells|
      invariant 0 <= po <= |input.cells|
      invariant |cells| == |room.cells| && AllOk(cells, ok)
      invariant Folded(m, room, other, cells, po + untilOffset)
    {
      var p := Bucket(po + untilOffset, scale);
      if p >= |cells| { break; }
      LoopStep(m, other, input, room, ok, okOther, cells, po, untilOffset, scale, strideSlicePeriods);
      if m.strideSlice <= 0 || Rank(po + untilOffset, scale) < strideSlicePeriods {
        cells := cells[p := m.submerge(cells[p], input.cells[po..])];
      }
      po := po + 1;
    }
    if po < |input.cells| { PastTheEnd(po + untilOffset, scale, |cells|); }
    AllFolded(m, s, other, input, room, ok, okOther, cells, po + untilOffset);
  }

  lemma LoopStep<C(!new), D(!new)>(m: Job<C, D>, other: Sequence<D>, input: Sequence<D>, room: Sequence<C>,
                   ok: C -> bool, okOther: D -> bool, cells: seq<C>, po: nat, untilOffset: nat, scale: nat,
                                   strideSlicePeriods: int)
    requires Ready(m, other, input, room, ok, okOther) && AllOk(cells, ok) && po < |input.cells|
    requires |cells| == |room.cells| && Folded(m, room, other, cells, po + untilOffset)
    requires untilOffset == Quot(room.until - input.until, m.otherRes) && scale == Scale(m)
    requires strideSlicePeriods == Quot(m.strideSlice, m.otherRes)
    requires scale > 0 && Bucket(po + untilOffset, scale) < |cells|
    ensures var p, j := Bucket(po + untilOffset, scale), Rank(po + untilOffset, scale);
            var next := if m.strideSlice <= 0 || j < strideSlicePeriods
              then cells[p := m.submerge(cells[p], input.cells[po..])] else cells;
            AllOk(next, ok) && Folded(m, room, other, next, po + 1 + untilOffset)
  {
    hide Lawful, Prepare, MakeRoom, Scale, InStride, Quot, Aligned, Folded, Within;
    OffsetOf(room.until, input.until, m.otherRes);
    FoldedStep(m, other, input, room, ok, okOther, cells, po);
    StrideIsExact(m, (po + untilOffset) % scale);
    StepIsOk(m, other, input, room, ok, okOther, cells[(po + untilOffset) / scale], po);
  }

  lemma ReadyMeans<C(!new), D(!new)>(m: Job<C, D>, other: Sequence<D>, input: Sequence<D>, room: Sequence<C>,
                     ok: C -> bool, okOther: D -> bool)
    requires Ready(m, other, input, room, ok, okOther)
    ensures input.Seq? && room.Seq? && input.until <= room.until && Aligned(room.until, input.until, m.otherRes)
    ensures m.res % m.otherRes == 0 && AllOk(room.cells, ok)
  {
    hide Lawful, Prepare;
  }

  predicate IsEmpty<C>(s: Sequence<C>) {
    s.Nil? || |s.cells| == 0
  }

  lemma InputIffAny<C, D>(m: Job<C, D>, other: Sequence<D>)
    requires m.otherWidth > 0
    ensures Prepare(m, other).Nil? <==> IsEmpty(Within(m, other))
  {
  }

  /** Input within reach, with the shift, ends after the start of the query. */
  lemma InputEnd<C, D>(m: Job<C, D>, other: Sequence<D>)
    requires WellPosed(m) && Fits(other, m.until, m.otherRes) && Prepare(m, other).Seq?
    ensures m.asOf < Prepare(m, other).until <= m.until && Prepare(m, other).until > 0
  {
    hide Extend;
    var kept := Within(m, other);
    PreparedEnd(m, other);
    WithinOldest(m, other);
    ScaleLe(1, |kept.cells|, m.otherRes);
  }

  /** What a sequence reaches back to: a time on its grid, after its start, is after the start of the query. */
  predicate StartsWithin<C, D>(m: Job<C, D>, q: Sequence<C>, t: Time) {
    q.Seq? && Aligned(q.until, t, m.res) && 0 < t && Oldest(q, m.res) < t ==> m.asOf < t
  }

  /** The result has no period that ends at the start of the query or before. */
  lemma RoomIsWithin<C, D>(m: Job<C, D>, s: Sequence<C>, other: Sequence<D>, otherUntil: Time, t: Time)
    requires WellPosed(m) && Fits(s, m.until, m.res) && m.asOf < otherUntil <= m.until && otherUntil > 0
    ensures StartsWithin(m, MakeRoom(m, s, other, otherUntil), t)
  {
    hide Truncate, RoundTimeUntilUp, RoundTimeUntilDown, Quot, StartsWithin, Aligned, OtherAsOf, ExtendNewer,
      ExtendOlder;
    var kept := Truncate(s, m.width, m.res, m.asOf, m.until);
    KeptIsWithin(m, s, t);
    KeptFits(m, s);
    var newUntil := RoundTimeUntilUp(otherUntil, m.res, m.until);
    RoundUntilUp(otherUntil, m.res, m.until);
    AlignedSym(newUntil, m.until, m.res);
    NewerIsWithin(m, kept, newUntil, t);
    AlignedBy(m.until, m.until, 0, m.res);
    NewerMeaning(m, kept, newUntil, m.until);
    StartsInQuery(m, other);
    OlderIsWithin(m, ExtendNewer(m, kept, newUntil), OtherAsOf(m, other), t);
  }

  /**
   * The room is as large as needed: up to the end of the input, or where the result
   * ended, and back to the start of the input, or where the result started.
   */
  lemma RoomExtent<C, D>(m: Job<C, D>, s: Sequence<C>, other: Sequence<D>, otherUntil: Time)
    requires WellPosed(m) && Fits(s, m.until, m.res) && 0 < otherUntil <= m.until
    ensures var kept := Truncate(s, m.width, m.res, m.asOf, m.until);
            var r := MakeRoom(m, s, other, otherUntil);
            && (r.until < otherUntil + m.res || (!IsEmpty(kept) && r.until == kept.until))
            && (OtherAsOf(m, other) < Oldest(r, m.res) + m.res
                || (!IsEmpty(kept) && Oldest(r, m.res) == Oldest(kept, m.res)) || |r.cells| == 1)
  {
    hide Truncate, RoundTimeUntilUp, RoundTimeUntilDown, Quot, Aligned, OtherAsOf, ExtendNewer, ExtendOlder, Oldest;
    var kept := Truncate(s, m.width, m.res, m.asOf, m.until);
    KeptFits(m, s);
    var newUntil := RoundTimeUntilUp(otherUntil, m.res, m.until);
    RoundUntilUp(otherUntil, m.res, m.until);
    AlignedSym(newUntil, m.until, m.res);
    NewerExtent(m, kept, newUntil);
    AlignedBy(m.until, m.until, 0, m.res);
    NewerMeaning(m, kept, newUntil, m.until);
    StartsInQuery(m, other);
    OlderExtent(m, ExtendNewer(m, kept, newUntil), OtherAsOf(m, other));
  }

  lemma NewerExtent<C, D>(m: Job<C, D>, kept: Sequence<C>, newUntil: Time)
    requires Aligned(m.until, newUntil, m.res) && Fits(kept, m.until, m.res)
    ensures var r := ExtendNewer(m, kept, newUntil);
            && (r.until == newUntil || (!IsEmpty(kept) && r.until == kept.until))
            && (|r.cells| == 1 || (!IsEmpty(kept) && Oldest(r, m.res) == Oldest(kept, m.res)))
  {
    hide Quot, Aligned;
    if !IsEmpty(kept) {
      var k := Quot(newUntil - kept.until, m.res);
      AlignedSym(m.until, newUntil, m.res);
      AlignedTrans(newUntil, m.until, kept.until, m.res);
      GridOf(newUntil, kept.until, m.res);
      QuotExact(newUntil - kept.until, m.res);
      if k > 0 { Distribute(k, |kept.cells|, m.res); }
    }
  }

  lemma OlderExtent<C, D>(m: Job<C, D>, result: Sequence<C>, otherAsOf: Time)
    requires result.Seq? && result.until > 0 && otherAsOf > 0
    ensures var r := ExtendOlder(m, result, otherAsOf);
            r.until == result.until && (r == result || otherAsOf < Oldest(r, m.res) + m.res)
  {
    hide Quot, RoundTimeUntilUp, RoundTimeUntilDown, Aligned;
    var r, n := ExtendOlder(m, result, otherAsOf), |result.cells|;
    if r != result {
      OldestOnGrid(result, m.res);
      var oldAsOf, newAsOf := Oldest(result, m.res), RoundTimeUntilDown(otherAsOf, m.res, result.until);
      RoundUntilDown(otherAsOf, m.res, result.until);
      Distribute(0, n, m.res);
      AlignedBy(oldAsOf, result.until, -n, m.res);
      AlignedSym(newAsOf, result.until, m.res);
      AlignedTrans(oldAsOf, result.until, newAsOf, m.res);
      GridOf(oldAsOf, newAsOf, m.res);
      QuotExact(oldAsOf - newAsOf, m.res);
      Distribute(n, Quot(oldAsOf - newAsOf, m.res), m.res);
    }
  }

  lemma StartsInQuery<C, D>(m: Job<C, D>, other: Sequence<D>)
    ensures OtherAsOf(m, other) >= m.asOf
  {
  }

  lemma KeptFits<C, D>(m: Job<C, D>, s: Sequence<C>)
    requires WellPosed(m) && Fits(s, m.until, m.res)
    ensures Fits(Truncate(s, m.width, m.res, m.asOf, m.until), m.until, m.res)
  {
    hide Truncate;
    if s.Seq? {
      var kept := Truncate(s, m.width, m.res, m.asOf, m.until);
      AlignedBy(m.until, m.until, 0, m.res);
      AlignedSym(m.until, s.until, m.res);
      AlignedTrans(s.until, m.until, m.until, m.res);
      TruncateMeaning(s, m.width, m.res, m.asOf, m.until, m.until, m.zero);
      TruncateEnds(s, m.width, m.res, m.asOf, m.until);
      if kept.Seq? { AlignedTrans(m.until, s.until, kept.until, m.res); }
    } else {
      TruncatedNil<C>(m.width, m.res, m.asOf, m.until);
    }
  }

  lemma TruncatedNil<C>(width: nat, res: Resolution, asOf: Time, until: Time)
    requires width > 0
    ensures Truncate<C>(Nil, width, res, asOf, until) == Nil
  {
  }

  /** On a grid, what is after a rounded time is after that time. */
  lemma AfterRounded(a: Time, time: Time, res: Resolution, t: Time)
    requires Aligned(a, t, res) && a < t && time < a + res
    ensures time < t
  {
    AlignedLess(a, t, res);
  }

  lemma KeptIsWithin<C, D>(m: Job<C, D>, s: Sequence<C>, t: Time)
    requires WellPosed(m) && Fits(s, m.until, m.res)
    ensures StartsWithin(m, Truncate(s, m.width, m.res, m.asOf, m.until), t)
  {
    hide Quot, RoundTimeUntilDown, DropNewest, DropOldest, Oldest, Aligned;
    var kept := Truncate(s, m.width, m.res, m.asOf, m.until);
    if s.Seq? && kept.Seq? && Aligned(kept.until, t, m.res) && 0 < t && Oldest(kept, m.res) < t {
      var u, a := RoundTimeUntilDown(m.until, m.res, s.until), RoundTimeUntilDown(m.asOf, m.res, s.until);
      RoundUntilDown(m.until, m.res, s.until);
      RoundUntilDown(m.asOf, m.res, s.until);
      var newest := DropNewest(s, m.width, m.res, u);
      NewestEnd(s, m.width, m.res, u);
      DroppedEnd(newest, m.width, m.res, a);
      AlignedSym(a, s.until, m.res);
      AlignedTrans(u, s.until, a, m.res);
      AlignedSym(newest.until, a, m.res);
      AlignedTrans(a, newest.until, t, m.res);
      if a != 0 { OldestKept(newest, m.width, m.res, a); }
      AfterRounded(a, m.asOf, m.res, t);
    }
  }

  lemma DroppedEnd<C>(s: Sequence<C>, width: nat, res: Resolution, asOf: Time)
    requires width > 0 && s.Seq?
    ensures var r := DropOldest(s, width, res, asOf); r.Seq? ==> r.until == s.until
  {
  }

  lemma NewerIsWithin<C, D>(m: Job<C, D>, kept: Sequence<C>, newUntil: Time, t: Time)
    requires m.asOf < newUntil && Aligned(m.until, newUntil, m.res) && Fits(kept, m.until, m.res)
    requires StartsWithin(m, kept, t)
    ensures StartsWithin(m, ExtendNewer(m, kept, newUntil), t)
  {
    hide Quot, Aligned;
    var r := ExtendNewer(m, kept, newUntil);
    if Aligned(r.until, t, m.res) && 0 < t && Oldest(r, m.res) < t {
      AlignedSym(m.until, newUntil, m.res);
      if kept.Seq? && kept.cells != [] {
        var k := Quot(newUntil - kept.until, m.res);
        AlignedTrans(newUntil, m.until, kept.until, m.res);
        GridOf(newUntil, kept.until, m.res);
        QuotExact(newUntil - kept.until, m.res);
        if k > 0 {
          Distribute(k, |kept.cells|, m.res);
          AlignedSym(newUntil, kept.until, m.res);
          AlignedTrans(kept.until, newUntil, t, m.res);
        }
      } else {
        AlignedBy(newUntil - m.res, newUntil, -1, m.res);
        AlignedTrans(newUntil - m.res, newUntil, t, m.res);
        AlignedLess(newUntil - m.res, t, m.res);
      }
    }
  }

  lemma GridOf(t: Time, u: Time, res: Resolution)
    requires Aligned(t, u, res)
    ensures (t - u) % res == 0
  {
  }

  lemma OlderIsWithin<C, D>(m: Job<C, D>, result: Sequence<C>, otherAsOf: Time, t: Time)
    requires result.Seq? && result.until > 0 && otherAsOf > 0 && m.asOf <= otherAsOf && StartsWithin(m, result, t)
    ensures StartsWithin(m, ExtendOlder(m, result, otherAsOf), t)
  {
    hide Quot, RoundTimeUntilUp, RoundTimeUntilDown, Aligned;
    var r, n := ExtendOlder(m, result, otherAsOf), |result.cells|;
    if Aligned(r.until, t, m.res) && 0 < t && Oldest(r, m.res) < t && r != result {
      OldestOnGrid(result, m.res);
      var oldAsOf, newAsOf := Oldest(result, m.res), RoundTimeUntilDown(otherAsOf, m.res, result.until);
      RoundUntilDown(otherAsOf, m.res, result.until);
      Distribute(0, n, m.res);
      AlignedBy(oldAsOf, result.until, -n, m.res);
      AlignedTrans(newAsOf, result.until, t, m.res);
      AlignedSym(newAsOf, result.until, m.res);
      AlignedTrans(oldAsOf, result.until, newAsOf, m.res);
      GridOf(oldAsOf, newAsOf, m.res);
      QuotExact(oldAsOf - newAsOf, m.res);
      Distribute(n, Quot(oldAsOf - newAsOf, m.res), m.res);
      AfterRounded(newAsOf, otherAsOf, m.res, t);
    }
  }

  /** Nothing is left outside of the query. */
  lemma OutsideWindow<C(!new), D(!new)>(m: Job<C, D>, s: Sequence<C>, other: Sequence<D>, input: Sequence<D>,
                        room: Sequence<C>, ok: C -> bool, okOther: D -> bool, cells: seq<C>)
    requires Ready(m, other, input, room, ok, okOther) && |cells| == |room.cells|
    requires Fits(s, m.until, m.res) && room == MakeRoom(m, s, other, input.until)
    ensures forall t | 0 < t <= m.asOf || m.until < t :: At(Seq(room.until, cells), m.res, t, m.zero) == m.zero
  {
    hide Prepare, MakeRoom, Within, Lawful, Quot;
    var r := Seq(room.until, cells);
    InputEnd(m, other);
    forall t | 0 < t <= m.asOf || m.until < t ensures At(r, m.res, t, m.zero) == m.zero {
      RoomIsWithin(m, s, other, input.until, t);
      if Aligned(r.until, t, m.res) { AtOutside(r, m.res, t, m.zero); }
    }
  }

  /**
   * Input periods on the fine grid, newest first: all that lie in a result period,
   * and in its newest part if striding.
   */
  ghost predicate AreTaken<C, D>(m: Job<C, D>, t: Time, times: seq<Time>) {
    && (forall i, j | 0 <= i < j < |times| :: times[j] < times[i])
    && forall u :: u in times <==>
         && u <= t && Aligned(t, u, m.otherRes) && t - m.res <= u - m.otherRes
         && (m.strideSlice > 0 ==> t - m.strideSlice <= u - m.otherRes)
  }

  /** The submerger run on what it sees from each of some times, one after the other. */
  function FoldOver<C, D>(m: Job<C, D>, other: Sequence<D>, times: seq<Time>, c: C): C {
    if times == [] then c
    else m.submerge(FoldOver(m, other, times[..|times| - 1], c), Look(m, other, times[|times| - 1]))
  }

  /** The ends of those of the n newest input periods that count. */
  function Ends<C, D>(m: Job<C, D>, t: Time, n: nat): seq<Time> {
    if n == 0 then [] else Ends(m, t, n - 1) + if InStride(m, n - 1) then [t - (n - 1) * m.otherRes] else []
  }

  lemma {:induction false} FoldsOver<C, D>(m: Job<C, D>, other: Sequence<D>, t: Time, n: nat, c: C)
    ensures FoldBucket(m, other, t, n, c) == FoldOver(m, other, Ends(m, t, n), c)
  {
    hide InStride, Look;
    if n > 0 {
      FoldsOver(m, other, t, n - 1, c);
      var before := Ends(m, t, n - 1);
      assert (before + [t - (n - 1) * m.otherRes])[..|before|] == before;
      assert before + [] == before;
    }
  }

  lemma {:induction false} EndsInOrder<C, D>(m: Job<C, D>, t: Time, n: nat)
    ensures forall i, j | 0 <= i < j < |Ends(m, t, n)| :: Ends(m, t, n)[j] < Ends(m, t, n)[i]
    ensures forall i | 0 <= i < |Ends(m, t, n)| :: t - n * m.otherRes < Ends(m, t, n)[i]
    ensures forall u :: u in Ends(m, t, n) <==> exists j :: 0 <= j < n && InStride(m, j) && u == t - j * m.otherRes
  {
    hide InStride;
    if n > 0 {
      EndsInOrder(m, t, n - 1);
      Distribute(n, 1, m.otherRes);
    }
  }

  /** These are the input periods that a result period takes in. */
  lemma EndsAreTaken<C, D>(m: Job<C, D>, t: Time)
    requires m.res % m.otherRes == 0
    ensures AreTaken(m, t, Ends(m, t, Scale(m)))
  {
    hide Scale, Ends;
    ScaleIsExact(m);
    EndsInOrder(m, t, Scale(m));
    forall u ensures u in Ends(m, t, Scale(m)) <==>
      && u <= t && Aligned(t, u, m.otherRes) && t - m.res <= u - m.otherRes
      && (m.strideSlice > 0 ==> t - m.strideSlice <= u - m.otherRes)
    {
      if u in Ends(m, t, Scale(m)) {
        var j :| 0 <= j < Scale(m) && InStride(m, j) && u == t - j * m.otherRes;
        PlaceInBucket(m, t, u, j);
      } else if u <= t && Aligned(t, u, m.otherRes) && t - m.res <= u - m.otherRes {
        var j := (t - u) / m.otherRes;
        Exact(t - u, m.otherRes);
        if j < 0 { ScaleLe(j, -1, m.otherRes); }
        if j >= Scale(m) { ScaleLe(Scale(m), j, m.otherRes); }
        PlaceInBucket(m, t, u, j);
      }
    }
  }

  lemma PlaceInBucket<C, D>(m: Job<C, D>, t: Time, u: Time, j: int)
    requires m.res % m.otherRes == 0 && 0 <= j < Scale(m) && u == t - j * m.otherRes
    ensures u <= t && Aligned(t, u, m.otherRes) && t - m.res <= u - m.otherRes
    ensures InStride(m, j) <==> m.strideSlice <= 0 || t - m.strideSlice <= u - m.otherRes
  {
    hide Scale;
    ScaleIsExact(m);
    ScaleLe(0, j, m.otherRes);
    ScaleLe(j + 1, Scale(m), m.otherRes);
    Distribute(j, 1, m.otherRes);
    AlignedBy(t, u, j, m.otherRes);
  }

  /** What a result period holds after it has taken in its input periods. */
  ghost predicate TakesIn<C, D>(m: Job<C, D>, other: Sequence<D>, t: Time, was: C, now: C) {
    exists times :: AreTaken(m, t, times) && now == FoldOver(m, other, times, was)
  }

  lemma AllTaken<C, D>(m: Job<C, D>, s: Sequence<C>, other: Sequence<D>)
    requires WellPosed(m)
    ensures forall t :: var was := At(s, m.res, t, m.zero);
              TakesIn(m, Within(m, other), t, was, FoldBucket(m, Within(m, other), t, Scale(m), was))
  {
    hide AreTaken, FoldOver, FoldBucket, Scale, Ends, At, Within;
    forall t ensures var was := At(s, m.res, t, m.zero);
      TakesIn(m, Within(m, other), t, was, FoldBucket(m, Within(m, other), t, Scale(m), was))
    {
      EndsAreTaken(m, t);
      FoldsOver(m, Within(m, other), t, Scale(m), At(s, m.res, t, m.zero));
    }
  }

  /** Every period of the query holds the fold of the input periods it contains. */
  ghost predicate IsSubMerged<C(!new), D>(m: Job<C, D>, s: Sequence<C>, other: Sequence<D>, r: Sequence<C>)
    requires WellPosed(m)
  {
    forall t | m.asOf < t <= m.until && Aligned(m.until, t, m.res) ::
      At(r, m.res, t, m.zero) == FoldBucket(m, Within(m, other), t, Scale(m), At(s, m.res, t, m.zero))
  }

  lemma NothingToFold<C(!new), D(!new)>(m: Job<C, D>, s: Sequence<C>, other: Sequence<D>, ok: C -> bool,
                        okOther: D -> bool)
    requires WellPosed(m) && Lawful(m, ok, okOther) && Prepare(m, other).Nil?
    requires Fits(s, m.until, m.res) && Fits(other, m.until, m.otherRes) && AllCells(s, ok) && AllCells(other, okOther)
    ensures IsSubMerged(m, s, other, s)
  {
    hide Lawful, Prepare, Scale, FoldBucket, At, Aligned;
    LawfulZero(m, ok, okOther);
    forall t | m.asOf < t <= m.until && Aligned(m.until, t, m.res)
      ensures At(s, m.res, t, m.zero) == FoldBucket(m, Within(m, other), t, Scale(m), At(s, m.res, t, m.zero))
    {
      AtIsOk(s, m.res, t, ok, m.zero);
      NoInput(m, other, t, At(s, m.res, t, m.zero), ok, okOther);
    }
  }

  lemma AllFolded<C(!new), D(!new)>(m: Job<C, D>, s: Sequence<C>, other: Sequence<D>, input: Sequence<D>,
                    room: Sequence<C>, ok: C -> bool, okOther: D -> bool,
                                    cells: seq<C>, q: int)
    requires Ready(m, other, input, room, ok, okOther) && Folded(m, room, other, cells, q)
    requires Fits(s, m.until, m.res) && room == MakeRoom(m, s, other, input.until)
    requires q >= (room.until - input.until) / m.otherRes + |input.cells| || q >= |cells| * Scale(m)
    ensures IsSubMerged(m, s, other, Seq(room.until, cells))
  {
    hide Lawful, Prepare, Folded, MakeRoom, Scale, FoldBucket, At, Aligned;
    forall t | m.asOf < t <= m.until && Aligned(m.until, t, m.res)
      ensures At(Seq(room.until, cells), m.res, t, m.zero)
              == FoldBucket(m, Within(m, other), t, Scale(m), At(s, m.res, t, m.zero))
    {
      FoldedEnd(m, s, other, input, room, ok, okOther, cells, q, t);
    }
  }

  // ---------------------------------------------------------------- the oldest period of the query

  /** How many of the input periods of a result period lie after asOf. */
  function After<C, D>(m: Job<C, D>, t: Time): nat {
    if m.asOf + m.res <= t then Scale(m) else if m.asOf < t then (t - m.asOf) / m.otherRes else 0
  }

  lemma AfterIs<C, D>(m: Job<C, D>, t: Time)
    requires WellPosed(m) && m.asOf < t && Aligned(m.until, t, m.res)
    ensures 0 < After(m, t) <= Scale(m)
    ensures forall j :: 0 <= j < After(m, t) ==> m.asOf < t - j * m.otherRes
    ensures After(m, t) < Scale(m) ==> m.asOf == t - After(m, t) * m.otherRes
  {
    hide Scale;
    ScaleIsExact(m);
    Coarser(m, m.until, t);
    AlignedSym(m.until, t, m.otherRes);
    AlignedTrans(t, m.until, m.asOf, m.otherRes);
    Exact(t - m.asOf, m.otherRes);
    var k := (t - m.asOf) / m.otherRes;
    if k <= 0 { ScaleLe(k, 0, m.otherRes); }
    if m.asOf + m.res > t { if k >= Scale(m) { ScaleLe(Scale(m), k, m.otherRes); } }
      else { CancelLe(Scale(m), k, m.otherRes); }
    forall j | 0 <= j < After(m, t) ensures m.asOf < t - j * m.otherRes {
      ScaleLe(j + 1, k, m.otherRes);
      Distribute(j, 1, m.otherRes);
    }
  }

  /** Nothing that is within reach ends before the reach starts. */
  lemma WithinOldest<C, D>(m: Job<C, D>, other: Sequence<D>)
    requires WellPosed(m) && Fits(other, m.until, m.otherRes) && Within(m, other).Seq?
    ensures m.asOf + m.shift <= Oldest(Within(m, other), m.otherRes)
  {
    hide Quot, RoundTimeUntilDown, DropNewest, DropOldest, Oldest;
    var reach := m.asOf + m.shift;
    LookbackIsExact(m);
    AlignedBy(m.asOf, reach, Lookback(m), m.otherRes);
    AlignedTrans(m.until, m.asOf, reach, m.otherRes);
    AlignedSym(m.until, other.until, m.otherRes);
    AlignedTrans(other.until, m.until, reach, m.otherRes);
    var u := RoundTimeUntilDown(m.until, m.otherRes, other.until);
    RoundsToItself(reach, m.otherRes, other.until);
    RoundUntilDown(m.until, m.otherRes, other.until);
    AlignedTrans(u, other.until, reach, m.otherRes);
    NewestEnd(other, m.otherWidth, m.otherRes, u);
    OldestKept(DropNewest(other, m.otherWidth, m.otherRes, u), m.otherWidth, m.otherRes, reach);
  }

  lemma RoundsToItself(t: Time, res: Resolution, until: Time)
    requires t != 0 && until != 0 && Aligned(until, t, res)
    ensures RoundTimeUntilDown(t, res, until) == t
  {
    hide RoundTimeUntilDown;
    RoundUntilDown(t, res, until);
    var down := RoundTimeUntilDown(t, res, until);
    AlignedTrans(down, until, t, res);
    if down < t { AlignedLess(down, t, res); }
  }

  lemma NewestEnd<C>(s: Sequence<C>, width: nat, res: Resolution, u: Time)
    requires width > 0 && s.Seq?
    ensures var r := DropNewest(s, width, res, u); r.Seq? ==> r.until == s.until || r.until == u
  {
  }

  lemma OldestKept<C>(s: Sequence<C>, width: nat, res: Resolution, asOf: Time)
    requires width > 0 && s.Seq? && asOf != 0 && Aligned(s.until, asOf, res)
    ensures var r := DropOldest(s, width, res, asOf); r.Seq? ==> asOf <= Oldest(r, res)
  {
    hide Quot;
    var r, k := DropOldest(s, width, res, asOf), Quot(s.until - asOf, res);
    QuotExact(s.until - asOf, res);
    if r.Seq? {
      if r == s { CancelLe(|s.cells|, k, width); }
      ScaleLe(|r.cells|, k, res);
    }
  }

  /** From a period after asOf, a submerger sees the input as it is. */
  lemma SeesAll<C, D>(m: Job<C, D>, other: Sequence<D>, u: Time)
    requires WellPosed(m) && Fits(other, m.until, m.otherRes) && m.asOf < u <= m.until
             && Aligned(m.until, u, m.otherRes)
    ensures Look(m, Within(m, other), u) == Look(m, other, u)
  {
    hide Within, At;
    forall i | 0 <= i <= Lookback(m)
      ensures At(Within(m, other), m.otherRes, u - i * m.otherRes, m.otherZero)
              == At(other, m.otherRes, u - i * m.otherRes, m.otherZero)
    {
      SeenTime(m, u, i);
      WithinMeaning(m, other, u - i * m.otherRes);
    }
  }

  /** From a period as far before asOf as the shift, it sees nothing. */
  lemma SeesNone<C, D>(m: Job<C, D>, other: Sequence<D>, u: Time)
    requires WellPosed(m) && Fits(other, m.until, m.otherRes) && u <= m.asOf + m.shift
             && Aligned(m.until, u, m.otherRes)
    ensures Unseen(m, Within(m, other), u)
  {
    hide Within, Oldest;
    forall i | 0 <= i <= Lookback(m) ensures At(Within(m, other), m.otherRes, u - i * m.otherRes, m.otherZero)
      == m.otherZero {
      SeenTime(m, u, i);
      if Within(m, other).Seq? { WithinOldest(m, other); }
      BeforeOldest(Within(m, other), m.otherRes, u - i * m.otherRes, m.otherZero);
    }
  }

  lemma BeforeOldest<C>(s: Sequence<C>, res: Resolution, v: Time, zero: C)
    requires s.Seq? ==> v <= Oldest(s, res)
    ensures At(s, res, v, zero) == zero
  {
    AtOutside(s, res, v, zero);
  }

  /** Periods after asOf are folded as if nothing were out of reach. */
  lemma {:induction false} FoldsAll<C, D>(m: Job<C, D>, other: Sequence<D>, t: Time, n: nat, c: C)
    requires WellPosed(m) && Fits(other, m.until, m.otherRes) && m.asOf < t <= m.until && Aligned(m.until, t, m.res)
             && n <= After(m, t)
    ensures FoldBucket(m, Within(m, other), t, n, c) == FoldBucket(m, other, t, n, c)
  {
    hide Within, Look, InStride, After;
    if n > 0 {
      FoldsAll(m, other, t, n - 1, c);
      AfterIs(m, t);
      InBucket(m, Seq(t, [c]), 0, n - 1);
      SeesAll(m, other, t - (n - 1) * m.otherRes);
    }
  }

  /** A result period takes nothing in from before asOf. */
  ghost predicate StopsAtAsOf<C, D>(m: Job<C, D>, other: Sequence<D>, t: Time, c: C)
    requires m.otherWidth > 0
  {
    FoldBucket(m, Within(m, other), t, Scale(m), c) == FoldBucket(m, other, t, After(m, t), c)
  }

  /** So it is for periods that start at asOf or later, without a shift, and if the stride ends before. */
  lemma StopsIf<C(!new), D(!new)>(m: Job<C, D>, other: Sequence<D>, t: Time, c: C, ok: C -> bool, okOther: D -> bool)
    requires WellPosed(m) && Fits(other, m.until, m.otherRes) && m.asOf < t <= m.until && Aligned(m.until, t, m.res)
    requires Lawful(m, ok, okOther) && AllCells(other, okOther) && ok(c)
    requires After(m, t) == Scale(m) || m.shift == 0 || !InStride(m, After(m, t))
    ensures StopsAtAsOf(m, other, t, c)
  {
    hide Within, FoldBucket, After, Scale, InStride, Lawful;
    AfterIs(m, t);
    FoldsAll(m, other, t, After(m, t), c);
    if After(m, t) < Scale(m) {
      if m.shift == 0 {
        WithinIsOk(m, other, okOther);
        forall j | After(m, t) <= j < Scale(m) ensures Unseen(m, Within(m, other), t - j * m.otherRes) {
          InBucket(m, Seq(t, [c]), 0, j);
          ScaleLe(After(m, t), j, m.otherRes);
          SeesNone(m, other, t - j * m.otherRes);
        }
        FoldUnseen(m, Within(m, other), t, After(m, t), Scale(m), c, ok, okOther);
      } else {
        PastStride(m, Within(m, other), t, After(m, t), Scale(m), c);
      }
    }
  }

  lemma WithinIsOk<C(!new), D(!new)>(m: Job<C, D>, other: Sequence<D>, okOther: D -> bool)
    requires m.otherWidth > 0 && AllCells(other, okOther)
    ensures AllCells(Within(m, other), okOther)
  {
    TruncateIsOk(other, m.otherWidth, m.otherRes, m.asOf + m.shift, m.until, okOther);
  }

  lemma {:induction false} PastStride<C, D>(m: Job<C, D>, other: Sequence<D>, t: Time, n: nat, n': nat, c: C)
    requires n <= n' && !InStride(m, n)
    ensures FoldBucket(m, other, t, n', c) == FoldBucket(m, other, t, n, c)
  {
    hide Look;
    if n < n' {
      PastStride(m, other, t, n, n' - 1, c);
      ScaleLe(n + 1, n', m.otherRes);
    }
  }
}
