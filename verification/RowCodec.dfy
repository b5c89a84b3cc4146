/**
 * The format of data files (row_store.go, encoding/encoding.go).
 *
 * A file is a header, which holds the offsets of all sources and the names of
 * the fields, and rows.  Numbers are big-endian; lengths of keys and numbers of
 * columns have 16 bits.  Reading what was written gives it back
 * (`FileRoundTrips`), a row exactly when its key and columns fit their lengths
 * (`RowRoundTripsIff`).
 */
module RowCodec {
  import opened Wrappers
  import Arithmetic
  import RadixShapes

  type Byte = RadixShapes.Byte
  type Bytes = seq<Byte>

  // ---------------------------------------------------------------- numbers

  function Pow256(n: nat): (p: nat)
    ensures p > 0
  {
    if n == 0 then 1 else 256 * Pow256(n - 1)
  }

  /** A number in so many bytes, most significant first; what does not fit is cut off. */
  function WriteUint(width: nat, i: nat): (b: Bytes)
    ensures |b| == width
  {
    if width == 0 then [] else WriteUint(width - 1, i / 256) + [i % 256]
  }

  function ReadUint(b: Bytes): nat {
    if b == [] then 0 else 256 * ReadUint(b[..|b| - 1]) + b[|b| - 1]
  }

  /** Reading a number gives what is left of it in its bytes. */
  lemma {:induction false} ReadWritten(width: nat, i: nat)
    ensures ReadUint(WriteUint(width, i)) == i % Pow256(width)
  {
    if width > 0 {
      var b := WriteUint(width, i);
      assert b[..width - 1] == WriteUint(width - 1, i / 256);
      ReadWritten(width - 1, i / 256);
      SplitMod(i, Pow256(width - 1));
    }
  }

  lemma SplitMod(i: nat, p: nat)
    requires p > 0
    ensures i % (256 * p) == 256 * ((i / 256) % p) + i % 256
  {
    var q, r := i / 256, i % 256;
    var a, b := q / p, q % p;
    assert q == a * p + b;
    assert i == 256 * q + r;
    var rest := 256 * b + r;
    assert i == a * (256 * p) + rest by { assert 256 * (a * p) == a * (256 * p); }
    assert 0 <= rest < 256 * p;
    ModIs(i, 256 * p, a, rest);
  }

  lemma ModIs(i: nat, m: nat, a: nat, r: nat)
    requires m > 0 && r < m && i == a * m + r
    ensures i % m == r
  {
    Arithmetic.DivMod(a, r, m);
  }

  const WIDTH16: nat := 2
  const WIDTH32: nat := 4
  const WIDTH64: nat := 8

  lemma NumberFits(width: nat, i: nat)
    requires i < Pow256(width)
    ensures ReadUint(WriteUint(width, i)) == i
  {
    ReadWritten(width, i);
    ModIs(i, Pow256(width), 0, i);
  }

  /** The bytes of a number, most significant first. */
  lemma {:induction false} BytesOfNumber(width: nat, i: nat, j: nat)
    requires j < width
    ensures WriteUint(width, i)[j] == (i / Pow256(width - 1 - j)) % 256
  {
    if j < width - 1 {
      BytesOfNumber(width - 1, i / 256, j);
      DivTwice(i, Pow256(width - 2 - j));
    }
  }

  lemma DivTwice(i: nat, p: nat)
    requires p > 0
    ensures i / 256 / p == i / (256 * p)
  {
    var q, r := i / 256, i % 256;
    var a, b := q / p, q % p;
    assert q == a * p + b;
    assert i == 256 * q + r;
    var rest := 256 * b + r;
    assert i == a * (256 * p) + rest by { assert 256 * (a * p) == a * (256 * p); }
    assert 0 <= rest < 256 * p;
    Arithmetic.DivMod(a, rest, 256 * p);
  }

  // ---------------------------------------------------------------- rows

  /** The columns are kept as bytes; what they mean does not matter here. */
  datatype Row = Row(key: Bytes, cols: seq<Bytes>)

  function Lengths(cols: seq<Bytes>): Bytes {
    if cols == [] then [] else WriteUint(WIDTH64, |cols[0]|) + Lengths(cols[1..])
  }

  function Concat(cols: seq<Bytes>): Bytes {
    if cols == [] then [] else cols[0] + Concat(cols[1..])
  }

  /**
   * A row after its length: the key behind its length, the number of columns, the
   * lengths of all columns, and then the columns.
   */
  function Body(row: Row): Bytes {
    WriteUint(WIDTH16, |row.key|) + row.key + WriteUint(WIDTH16, |row.cols|) + Lengths(row.cols) + Concat(row.cols)
  }

  /** A row behind the number of all its bytes, the eight of this number among them. */
  function RowBytes(row: Row): Bytes {
    WriteUint(WIDTH64, WIDTH64 + |Body(row)|) + Body(row)
  }

  /** doWrite: computes the row's length up front and then writes its parts. */
  method WriteRow(row: Row) returns (out: Bytes)
    ensures out == RowBytes(row)
  {
    hide Lengths, Concat, WriteUint;
    var rowLength := RowLength(row);
    var lengths := WriteLengths(row.cols);
    var columns := WriteColumns(row.cols);
    out := WriteUint(WIDTH64, rowLength);
    out := out + (WriteUint(WIDTH16, |row.key|) + row.key + WriteUint(WIDTH16, |row.cols|) + lengths + columns);
  }

  /** The length announced for a row is the number of bytes written for it. */
  method RowLength(row: Row) returns (n: nat)
    ensures n == |RowBytes(row)|
  {
    hide WriteUint;
    n := WIDTH64 + WIDTH16 + |row.key| + WIDTH16;
    for i := 0 to |row.cols|
      invariant n == WIDTH64 + WIDTH16 + |row.key| + WIDTH16 + |Lengths(row.cols[..i])| + |Concat(row.cols[..i])|
    {
      LengthsLast(row.cols[..i + 1]);
      assert row.cols[..i + 1][..i] == row.cols[..i];
      n := n + WIDTH64 + |row.cols[i]|;
    }
    assert row.cols[..|row.cols|] == row.cols;
  }

  method WriteLengths(cols: seq<Bytes>) returns (out: Bytes)
    ensures out == Lengths(cols)
  {
    hide WriteUint, Concat;
    out := [];
    for i := 0 to |cols|
      invariant out == Lengths(cols[..i])
    {
      LengthsLast(cols[..i + 1]);
      assert cols[..i + 1][..i] == cols[..i];
      out := out + WriteUint(WIDTH64, |cols[i]|);
    }
    assert cols[..|cols|] == cols;
  }

  method WriteColumns(cols: seq<Bytes>) returns (out: Bytes)
    ensures out == Concat(cols)
  {
    hide WriteUint, Lengths;
    out := [];
    for i := 0 to |cols|
      invariant out == Concat(cols[..i])
    {
      LengthsLast(cols[..i + 1]);
      assert cols[..i + 1][..i] == cols[..i];
      out := out + cols[i];
    }
    assert cols[..|cols|] == cols;
  }

  lemma {:induction false} LengthsLast(cols: seq<Bytes>)
    requires cols != []
    ensures var n := |cols| - 1;
            && Lengths(cols) == Lengths(cols[..n]) + WriteUint(WIDTH64, |cols[n]|)
            && Concat(cols) == Concat(cols[..n]) + cols[n]
  {
    hide WriteUint;
    var n := |cols| - 1;
    if n > 0 {
      LengthsLast(cols[1..]);
      assert cols[1..][..n - 1] == cols[..n][1..] && cols[..n][0] == cols[0];
    } else {
      assert cols[..0] == [] && cols[1..] == [];
    }
  }

  // ---------------------------------------------------------------- reading rows

  /** The column lengths, and what follows them; none if there are not enough bytes. */
  function ReadLengths(n: nat, b: Bytes): Option<(seq<nat>, Bytes)> {
    if n == 0 then Some(([], b))
    else if |b| < WIDTH64 then None
    else
      Prefixed([ReadUint(b[..WIDTH64])], ReadLengths(n - 1, b[WIDTH64..]))
  }

  function ReadCols(lengths: seq<nat>, b: Bytes): Option<(seq<Bytes>, Bytes)> {
    if lengths == [] then Some(([], b))
    else if |b| < lengths[0] then None
    else Prefixed([b[..lengths[0]]], ReadCols(lengths[1..], b[lengths[0]..]))
  }

  function Prefixed<T, U>(xs: seq<T>, r: Option<(seq<T>, U)>): Option<(seq<T>, U)> {
    if r.None? then None else Some((xs + r.value.0, r.value.1))
  }

  lemma PrefixedNext<T, U>(xs: seq<T>, x: T, r: Option<(seq<T>, U)>)
    ensures Prefixed(xs, Prefixed([x], r)) == Prefixed(xs + [x], r)
  {
    if r.Some? { assert xs + ([x] + r.value.0) == (xs + [x]) + r.value.0; }
  }

  lemma PrefixedNothing<T, U>(xs: seq<T>, r: Option<(seq<T>, U)>, u: U)
    ensures Prefixed([], r) == r && Prefixed(xs, Some(([], u))) == Some((xs, u))
  {
    if r.Some? { assert [] + r.value.0 == r.value.0; }
    assert xs + [] == xs;
  }

  function ReadBody(b: Bytes): Option<Row> {
    if |b| < WIDTH16 then None
    else
      var keyLength := ReadUint(b[..WIDTH16]);
      var b1 := b[WIDTH16..];
      if |b1| < keyLength + WIDTH16 then None
      else
        var numColumns := ReadUint(b1[keyLength..keyLength + WIDTH16]);
        var lengths := ReadLengths(numColumns, b1[keyLength + WIDTH16..]);
        if lengths.None? then None
        else
          var cols := ReadCols(lengths.value.0, lengths.value.1);
          if cols.None? then None else Some(Row(b1[..keyLength], cols.value.0))
  }

  /** iterate, for one row: splits off its bytes and decodes them. */
  method ReadRow(b: Bytes) returns (row: Option<Row>)
    ensures row == ReadBody(b)
  {
    if |b| < WIDTH16 { return None; }
    var keyLength := ReadUint(b[..WIDTH16]);
    var rest := b[WIDTH16..];
    if |rest| < keyLength + WIDTH16 { return None; }
    var key, numColumns := rest[..keyLength], ReadUint(rest[keyLength..keyLength + WIDTH16]);
    rest := rest[keyLength + WIDTH16..];
    var lengths := ReadColLengths(numColumns, rest);
    if lengths.None? { return None; }
    var cols := ReadColumns(lengths.value.0, lengths.value.1);
    if cols.None? { return None; }
    return Some(Row(key, cols.value.0));
  }

  method ReadColLengths(n: nat, b: Bytes) returns (r: Option<(seq<nat>, Bytes)>)
    ensures r == ReadLengths(n, b)
  {
    hide ReadUint;
    var rest, colLengths := b, [];
    PrefixedNothing([], ReadLengths(n, b), b);
    for i := 0 to n
      invariant ReadLengths(n, b) == Prefixed(colLengths, ReadLengths(n - i, rest))
    {
      if |rest| < WIDTH64 { return None; }
      PrefixedNext(colLengths, ReadUint(rest[..WIDTH64]), ReadLengths(n - i - 1, rest[WIDTH64..]));
      colLengths := colLengths + [ReadUint(rest[..WIDTH64])];
      rest := rest[WIDTH64..];
    }
    PrefixedNothing(colLengths, None, rest);
    return Some((colLengths, rest));
  }

  method ReadColumns(lengths: seq<nat>, b: Bytes) returns (r: Option<(seq<Bytes>, Bytes)>)
    ensures r == ReadCols(lengths, b)
  {
    var rest, cols := b, [];
    PrefixedNothing([], ReadCols(lengths, b), b);
    assert lengths[0..] == lengths;
    for i := 0 to |lengths|
      invariant ReadCols(lengths, b) == Prefixed(cols, ReadCols(lengths[i..], rest))
    {
      var colLength := lengths[i];
      assert lengths[i..][1..] == lengths[i + 1..];
      if colLength > |rest| { return None; }
      PrefixedNext(cols, rest[..colLength], ReadCols(lengths[i + 1..], rest[colLength..]));
      cols := cols + [rest[..colLength]];
      rest := rest[colLength..];
    }
    PrefixedNothing(cols, None, rest);
    return Some((cols, rest));
  }

  // ---------------------------------------------------------------- round trip of a row

  function Sizes(cols: seq<Bytes>): (r: seq<nat>)
    ensures |r| == |cols|
  {
    seq(|cols|, i requires 0 <= i < |cols| => |cols[i]|)
  }

  predicate ColsFit(cols: seq<Bytes>) {
    forall c | c in cols :: |c| < Pow256(WIDTH64)
  }

  lemma {:induction false} LengthsRead(cols: seq<Bytes>, rest: Bytes)
    requires ColsFit(cols)
    ensures ReadLengths(|cols|, Lengths(cols) + rest) == Some((Sizes(cols), rest))
  {
    hide WriteUint, ReadUint, Pow256;
    if cols == [] {
      assert Lengths(cols) + rest == rest;
    } else {
      var first, more := WriteUint(WIDTH64, |cols[0]|), Lengths(cols[1..]);
      var b := Lengths(cols) + rest;
      assert b == first + (more + rest);
      assert b[..WIDTH64] == first && b[WIDTH64..] == more + rest;
      NumberFits(WIDTH64, |cols[0]|);
      LengthsRead(cols[1..], rest);
      assert Sizes(cols) == [|cols[0]|] + Sizes(cols[1..]);
    }
  }

  lemma {:induction false} ColsRead(cols: seq<Bytes>, rest: Bytes)
    ensures ReadCols(Sizes(cols), Concat(cols) + rest) == Some((cols, rest))
  {
    if cols == [] {
      assert Concat(cols) + rest == rest;
    } else {
      var b := Concat(cols) + rest;
      assert b == cols[0] + (Concat(cols[1..]) + rest);
      assert b[..|cols[0]|] == cols[0] && b[|cols[0]|..] == Concat(cols[1..]) + rest;
      assert Sizes(cols)[1..] == Sizes(cols[1..]);
      ColsRead(cols[1..], rest);
      assert cols == [cols[0]] + cols[1..];
    }
  }

  const LIMIT16: nat := 65536

  lemma Limit16()
    ensures Pow256(WIDTH16) == LIMIT16
  {
    assert Pow256(1) == 256;
  }

  /** How a row's bytes are read: the key and the number of columns are what their 16 bits say. */
  lemma BodyParts(row: Row)
    ensures var b := Body(row);
            && |b| >= WIDTH16 && ReadUint(b[..WIDTH16]) == |row.key| % LIMIT16
            && b[WIDTH16..] == row.key + (WriteUint(WIDTH16, |row.cols|) + (Lengths(row.cols) + Concat(row.cols)))
            && ReadUint(WriteUint(WIDTH16, |row.cols|)) == |row.cols| % LIMIT16
  {
    hide WriteUint, ReadUint, Lengths, Concat;
    var n, m := WriteUint(WIDTH16, |row.key|), WriteUint(WIDTH16, |row.cols|);
    var tail := row.key + (m + (Lengths(row.cols) + Concat(row.cols)));
    assert Body(row) == n + tail;
    assert Body(row)[..WIDTH16] == n && Body(row)[WIDTH16..] == tail;
    ReadWritten(WIDTH16, |row.key|);
    ReadWritten(WIDTH16, |row.cols|);
    Limit16();
  }

  lemma RowRoundTrips(row: Row)
    requires |row.key| < LIMIT16 && |row.cols| < LIMIT16 && ColsFit(row.cols)
    ensures ReadBody(Body(row)) == Some(row)
  {
    hide WriteUint, ReadUint, Lengths, Concat, ReadLengths, ReadCols, Body, ColsFit;
    BodyParts(row);
    var k, m, tail := |row.key|, WriteUint(WIDTH16, |row.cols|), Lengths(row.cols) + Concat(row.cols);
    var b1 := Body(row)[WIDTH16..];
    assert b1[..k] == row.key && b1[k..k + WIDTH16] == m && b1[k + WIDTH16..] == tail;
    LengthsRead(row.cols, Concat(row.cols));
    assert Concat(row.cols) + [] == Concat(row.cols);
    ColsRead(row.cols, []);
  }

  lemma {:induction false} ReadCounts(n: nat, b: Bytes)
    ensures ReadLengths(n, b).Some? ==> |ReadLengths(n, b).value.0| == n
  {
    if n > 0 && |b| >= WIDTH64 { ReadCounts(n - 1, b[WIDTH64..]); }
  }

  lemma {:induction false} ReadColCounts(lengths: seq<nat>, b: Bytes)
    ensures ReadCols(lengths, b).Some? ==> |ReadCols(lengths, b).value.0| == |lengths|
  {
    if lengths != [] && |b| >= lengths[0] { ReadColCounts(lengths[1..], b[lengths[0]..]); }
  }

  /** A row reads back as it was written exactly when its key and its columns are fewer than 65536. */
  lemma RowRoundTripsIff(row: Row)
    requires ColsFit(row.cols)
    ensures ReadBody(Body(row)) == Some(row) <==> |row.key| < LIMIT16 && |row.cols| < LIMIT16
  {
    hide WriteUint, ReadUint, Lengths, Concat, ReadLengths, ReadCols, Body, ColsFit;
    if |row.key| < LIMIT16 && |row.cols| < LIMIT16 {
      RowRoundTrips(row);
    } else if ReadBody(Body(row)).Some? {
      BodyParts(row);
      var b1 := Body(row)[WIDTH16..];
      var k := |row.key| % LIMIT16;
      if |row.key| < LIMIT16 {
        var m := WriteUint(WIDTH16, |row.cols|);
        assert b1[k..k + WIDTH16] == m;
        var n := ReadUint(m);
        var lengths := ReadLengths(n, b1[k + WIDTH16..]);
        ReadCounts(n, b1[k + WIDTH16..]);
        ReadColCounts(lengths.value.0, lengths.value.1);
      }
    }
  }

  /** A row without columns whose key is 65536 zeros reads back as a row without a key. */
  lemma LongKeyIsMisread(row: Row)
    requires row == Row(seq(LIMIT16, _ => 0), [])
    ensures ReadBody(Body(row)) == Some(Row([], []))
  {
    hide WriteUint, ReadUint, Lengths, Concat, ReadLengths, ReadCols, Body;
    BodyParts(row);
    var b1 := Body(row)[WIDTH16..];
    assert b1[0..WIDTH16] == [0, 0];
    assert ReadUint([0, 0]) == 0 by { TwoZeros(); }
    NothingRead(b1[WIDTH16..]);
  }

  lemma TwoZeros()
    ensures ReadUint([0, 0]) == 0
  {
    assert [0, 0][..1] == [0] && [0][..0] == [];
  }

  lemma NothingRead(b: Bytes)
    ensures ReadLengths(0, b) == Some(([], b)) && ReadCols([], b) == Some(([], b))
  {
  }

  // ---------------------------------------------------------------- where things are

  lemma {:induction false} LengthAt(cols: seq<Bytes>, i: nat)
    requires i < |cols|
    ensures |Lengths(cols)| == 8 * |cols| && Lengths(cols)[8 * i..8 * i + 8] == WriteUint(8, |cols[i]|)
  {
    hide WriteUint;
    var first := WriteUint(8, |cols[0]|);
    if |cols| > 1 { LengthAt(cols[1..], if i == 0 then 0 else i - 1); }
    var rest := Lengths(cols[1..]);
    assert Lengths(cols) == first + rest;
    if i > 0 { assert (first + rest)[8 * i..8 * i + 8] == rest[8 * (i - 1)..8 * (i - 1) + 8]; }
  }

  lemma {:induction false} ColumnAt(cols: seq<Bytes>, i: nat)
    requires i < |cols|
    ensures var at := |Concat(cols[..i])|;
            at + |cols[i]| <= |Concat(cols)| && Concat(cols)[at..at + |cols[i]|] == cols[i]
  {
    if i > 0 {
      ColumnAt(cols[1..], i - 1);
      var rest, at := Concat(cols[1..]), |Concat(cols[1..][..i - 1])|;
      assert cols[..i][1..] == cols[1..][..i - 1] && cols[..i][0] == cols[0];
      assert (cols[0] + rest)[|cols[0]| + at..|cols[0]| + at + |cols[i]|] == rest[at..at + |cols[i]|];
    }
  }

  /**
   * The bytes of a row: eight with their number, two with the length of the key, the
   * key, two with the number of columns, eight for each column with its length, and
   * then the columns one after the other.
   */
  lemma RowLayout(row: Row)
    ensures var b, k, n := RowBytes(row), |row.key|, |row.cols|;
            && |b| == 12 + k + 8 * n + |Concat(row.cols)|
            && b[..8] == WriteUint(8, |b|) && b[8..10] == WriteUint(2, k) && b[10..10 + k] == row.key
            && b[10 + k..12 + k] == WriteUint(2, n)
            && (forall i | 0 <= i < n :: b[12 + k + 8 * i..12 + k + 8 * i + 8] == WriteUint(8, |row.cols[i]|))
            && b[12 + k + 8 * n..] == Concat(row.cols)
  {
    hide WriteUint, Lengths, Concat;
    var b, k, n := RowBytes(row), |row.key|, |row.cols|;
    var lengths, cols := Lengths(row.cols), Concat(row.cols);
    assert |lengths| == 8 * n by { if n > 0 { LengthAt(row.cols, 0); } else { NoLengths(); } }
    var head := WriteUint(8, 8 + |Body(row)|) + WriteUint(2, k) + row.key + WriteUint(2, n);
    assert b == head + (lengths + cols);
    assert b[..8] == WriteUint(8, |b|) && b[8..10] == WriteUint(2, k) && b[10..10 + k] == row.key;
    assert b[10 + k..12 + k] == WriteUint(2, n) && b[12 + k + 8 * n..] == cols;
    forall i | 0 <= i < n ensures b[12 + k + 8 * i..12 + k + 8 * i + 8] == WriteUint(8, |row.cols[i]|) {
      LengthAt(row.cols, i);
      assert b[12 + k + 8 * i..12 + k + 8 * i + 8] == lengths[8 * i..8 * i + 8];
    }
  }

  lemma NoLengths()
    ensures Lengths([]) == []
  {
  }

  /** A slice of what follows. */
  lemma SliceAfter(a: Bytes, b: Bytes, x: nat, y: nat)
    requires x <= y <= |b|
    ensures (a + b)[|a| + x..|a| + y] == b[x..y]
  {
  }

  lemma {:induction false} EntryAt(size: nat, entries: Entries, i: nat)
    requires i < |entries| && forall e | e in entries :: |e.1| == size
    ensures IsEntryAt(EntryBytes(entries), i * (8 + size), entries[i])
  {
    hide WriteUint;
    var first, rest := WriteUint(8, entries[0].0) + entries[0].1, EntryBytes(entries[1..]);
    assert entries[0] in entries && entries[i] in entries;
    assert EntryBytes(entries) == first + rest && |first| == 8 + size;
    if i > 0 {
      EntryAt(size, entries[1..], i - 1);
      Arithmetic.Distribute(i, 1, 8 + size);
      EntryAfter(first, rest, (i - 1) * (8 + size), entries[i]);
    }
  }

  lemma EntryAfter(first: Bytes, rest: Bytes, at: nat, e: (nat, Bytes))
    requires IsEntryAt(rest, at, e)
    ensures IsEntryAt(first + rest, |first| + at, e)
  {
    hide WriteUint;
    SliceAfter(first, rest, at, at + 8);
    SliceAfter(first, rest, at + 8, at + 8 + |e.1|);
  }

  /**
   * The bytes of a header: eight with the number of offsets, for each eight with its
   * source and then the offset, and the names of the fields with | between them.
   */
  lemma HeaderLayout(size: nat, entries: Entries, fields: seq<Bytes>)
    requires forall e | e in entries :: |e.1| == size
    ensures var b, names := HeaderBytes(entries, fields), 8 + |entries| * (8 + size);
            && names <= |b| && b[..8] == WriteUint(8, |entries|) && b[names..] == Join(fields)
            && forall i | 0 <= i < |entries| :: IsEntryAt(b, 8 + i * (8 + size), entries[i])
  {
    hide WriteUint, Join;
    EntryLength(size, entries);
    var b, head, es := HeaderBytes(entries, fields), WriteUint(8, |entries|), EntryBytes(entries);
    assert b == head + (es + Join(fields));
    forall i | 0 <= i < |entries| ensures IsEntryAt(b, 8 + i * (8 + size), entries[i]) {
      EntryAt(size, entries, i);
      EntryBefore(es, Join(fields), i * (8 + size), entries[i]);
      EntryAfter(head, es + Join(fields), i * (8 + size), entries[i]);
    }
  }

  lemma EntryBefore(es: Bytes, rest: Bytes, at: nat, e: (nat, Bytes))
    requires IsEntryAt(es, at, e)
    ensures IsEntryAt(es + rest, at, e)
  {
    hide WriteUint;
    assert (es + rest)[at..at + 8] == es[at..at + 8];
    assert (es + rest)[at + 8..at + 8 + |e.1|] == es[at + 8..at + 8 + |e.1|];
  }

  predicate IsEntryAt(b: Bytes, at: nat, e: (nat, Bytes)) {
    at + 8 + |e.1| <= |b| && b[at..at + 8] == WriteUint(8, e.0) && b[at + 8..at + 8 + |e.1|] == e.1
  }

  // ---------------------------------------------------------------- all rows of a file

  function RowsBytes(rows: seq<Row>): Bytes {
    if rows == [] then [] else RowBytes(rows[0]) + RowsBytes(rows[1..])
  }

  /** Reads rows until the end of the file; none if a row is cut off or cannot be decoded. */
  function ReadRows(b: Bytes): Option<seq<Row>>
    decreases |b|
  {
    if b == [] then Some([])
    else if |b| < WIDTH64 then None
    else
      var rowLength := ReadUint(b[..WIDTH64]);
      if rowLength < WIDTH64 || |b| < rowLength then None
      else
        var row, rest := ReadBody(b[WIDTH64..rowLength]), ReadRows(b[rowLength..]);
        if row.None? || rest.None? then None else Some([row.value] + rest.value)
  }

  predicate RowFits(row: Row) {
    |row.key| < LIMIT16 && |row.cols| < LIMIT16 && ColsFit(row.cols) && |RowBytes(row)| < Pow256(WIDTH64)
  }

  lemma {:induction false} RowsRoundTrip(rows: seq<Row>)
    requires forall r | r in rows :: RowFits(r)
    ensures ReadRows(RowsBytes(rows)) == Some(rows)
  {
    hide WriteUint, ReadUint, Body, ReadBody, ColsFit, Pow256;
    if rows != [] {
      var row := rows[0];
      assert row in rows;
      var n, body, more := WIDTH64 + |Body(row)|, Body(row), RowsBytes(rows[1..]);
      var b := RowsBytes(rows);
      assert b == WriteUint(WIDTH64, n) + (body + more);
      assert b[..WIDTH64] == WriteUint(WIDTH64, n) && b[WIDTH64..n] == body && b[n..] == more;
      NumberFits(WIDTH64, n);
      RowRoundTrips(row);
      RowsRoundTrip(rows[1..]);
      assert rows == [row] + rows[1..];
    }
  }

  // ---------------------------------------------------------------- offsets

  /** The offsets of sources in some order; all offsets have the same size. */
  type Entries = seq<(nat, Bytes)>

  function EntryBytes(entries: Entries): Bytes {
    if entries == [] then [] else WriteUint(WIDTH64, entries[0].0) + entries[0].1 + EntryBytes(entries[1..])
  }

  function OffsetBytes(entries: Entries): Bytes {
    WriteUint(WIDTH64, |entries|) + EntryBytes(entries)
  }

  function ReadEntries(n: nat, size: nat, b: Bytes): Option<(Entries, Bytes)> {
    if n == 0 then Some(([], b))
    else if |b| < WIDTH64 + size then None
    else Prefixed([(ReadUint(b[..WIDTH64]), b[WIDTH64..WIDTH64 + size])], ReadEntries(n - 1, size, b[WIDTH64 + size..]))
  }

  /** The map that entries give, later ones replacing earlier ones. */
  function MapOf(entries: Entries): map<nat, Bytes> {
    if entries == [] then map[]
      else MapOf(entries[..|entries| - 1])[entries[|entries| - 1].0 := entries[|entries| - 1].1]
  }

  /** readOffsets: the offsets by source, and what follows them in the header. */
  method ReadOffsets(size: nat, header: Bytes) returns (r: Option<(map<nat, Bytes>, Bytes)>)
    ensures r == (if |header| < WIDTH64 then None
                  else var all := ReadEntries(ReadUint(header[..WIDTH64]), size, header[WIDTH64..]);
                       if all.None? then None else Some((MapOf(all.value.0), all.value.1)))
  {
    hide ReadUint;
    if |header| < WIDTH64 { return None; }
    var n, rest := ReadUint(header[..WIDTH64]), header[WIDTH64..];
    ghost var b, entries: Entries := rest, [];
    var offsets: map<nat, Bytes> := map[];
    PrefixedNothing([], ReadEntries(n, size, b), b);
    for i := 0 to n
      invariant offsets == MapOf(entries) && ReadEntries(n, size, b)
        == Prefixed(entries, ReadEntries(n - i, size, rest))
    {
      if |rest| < WIDTH64 + size { return None; }
      var source, offset := ReadUint(rest[..WIDTH64]), rest[WIDTH64..WIDTH64 + size];
      PrefixedNext(entries, (source, offset), ReadEntries(n - i - 1, size, rest[WIDTH64 + size..]));
      assert (entries + [(source, offset)])[..|entries|] == entries;
      rest := rest[WIDTH64 + size..];
      offsets := offsets[source := offset];
      entries := entries + [(source, offset)];
    }
    PrefixedNothing(entries, None, rest);
    return Some((offsets, rest));
  }

  predicate EntriesFit(size: nat, entries: Entries) {
    forall e | e in entries :: e.0 < Pow256(WIDTH64) && |e.1| == size
  }

  lemma {:induction false} EntriesRead(size: nat, entries: Entries, rest: Bytes)
    requires EntriesFit(size, entries)
    ensures ReadEntries(|entries|, size, EntryBytes(entries) + rest) == Some((entries, rest))
  {
    hide WriteUint, ReadUint, Pow256;
    if entries == [] {
      assert EntryBytes(entries) + rest == rest;
    } else {
      var e, more := entries[0], EntryBytes(entries[1..]);
      assert e in entries;
      var b := EntryBytes(entries) + rest;
      assert b == WriteUint(WIDTH64, e.0) + (e.1 + (more + rest));
      assert b[..WIDTH64] == WriteUint(WIDTH64, e.0) && b[WIDTH64..WIDTH64 + size] == e.1
        && b[WIDTH64 + size..] == more + rest;
      NumberFits(WIDTH64, e.0);
      EntriesRead(size, entries[1..], rest);
      assert entries == [(e.0, e.1)] + entries[1..];
    }
  }

  /** The order in which a map's offsets are written: every source once. */
  ghost predicate Enumerates(entries: Entries, offsets: map<nat, Bytes>) {
    && (forall i, j | 0 <= i < j < |entries| :: entries[i].0 != entries[j].0)
    && (forall e | e in entries :: e.0 in offsets && offsets[e.0] == e.1)
    && (forall k | k in offsets :: exists e :: e in entries && e.0 == k)
  }

  lemma {:induction false} MapOfEntries(entries: Entries)
    requires forall i, j | 0 <= i < j < |entries| :: entries[i].0 != entries[j].0
    ensures forall e | e in entries :: e.0 in MapOf(entries) && MapOf(entries)[e.0] == e.1
    ensures forall k | k in MapOf(entries) :: exists e :: e in entries && e.0 == k
  {
    if entries != [] {
      var n := |entries| - 1;
      var init, last := entries[..n], entries[n];
      MapOfEntries(init);
      assert entries == init + [last];
      forall e | e in init ensures e.0 != last.0 {
        var i :| 0 <= i < n && entries[i] == e;
      }
      forall k | k in MapOf(entries) ensures exists e :: e in entries && e.0 == k {
        if k == last.0 { assert last in entries; } else {
          var e :| e in init && e.0 == k;
          assert e in entries;
        }
      }
    }
  }

  /** The offsets read do not depend on the order in which they were written. */
  lemma OrderDoesNotMatter(entries: Entries, offsets: map<nat, Bytes>)
    requires Enumerates(entries, offsets)
    ensures MapOf(entries) == offsets
  {
    MapOfEntries(entries);
    assert MapOf(entries).Keys == offsets.Keys;
  }

  // ---------------------------------------------------------------- field names

  /** The character | that separates the names of fields. */
  const DELIM: Byte := 124

  function Join(names: seq<Bytes>): Bytes {
    if names == [] then [] else if |names| == 1 then names[0] else names[0] + [DELIM] + Join(names[1..])
  }

  /** strings.Split: what lies between the separators, and at least one string. */
  function Split(b: Bytes): (r: seq<Bytes>)
    ensures r != []
  {
    if b == [] then [[]] else
      var rest := Split(b[1..]);
      if b[0] == DELIM then [[]] + rest else [[b[0]] + rest[0]] + rest[1..]
  }

  lemma {:induction false} SplitWord(word: Bytes, rest: Bytes)
    requires DELIM !in word
    ensures Split(word + [DELIM] + rest) == [word] + Split(rest) && Split(word) == [word]
  {
    var b := word + [DELIM] + rest;
    if word == [] {
      assert b == [DELIM] + rest;
      assert b[1..] == rest;
    } else {
      assert b[1..] == word[1..] + [DELIM] + rest;
      SplitWord(word[1..], rest);
      assert word == [word[0]] + word[1..];
    }
  }

  lemma {:induction false} SplitHasNoDelim(b: Bytes)
    ensures forall w | w in Split(b) :: DELIM !in w
  {
    if b != [] {
      SplitHasNoDelim(b[1..]);
      var rest := Split(b[1..]);
      assert rest[0] in rest;
      assert forall w | w in rest[1..] :: w in rest;
    }
  }

  lemma {:induction false} SplitJoined(names: seq<Bytes>)
    requires names != [] && forall w | w in names :: DELIM !in w
    ensures Split(Join(names)) == names
  {
    assert names[0] in names;
    if |names| == 1 {
      SplitWord(names[0], []);
    } else {
      SplitWord(names[0], Join(names[1..]));
      SplitJoined(names[1..]);
      assert names == [names[0]] + names[1..];
    }
  }

  /** Field names read back as written exactly when there are some and none contains the separator. */
  lemma NamesRoundTripIff(names: seq<Bytes>)
    ensures Split(Join(names)) == names <==> names != [] && forall w | w in names :: DELIM !in w
  {
    SplitHasNoDelim(Join(names));
    if names != [] && forall w | w in names :: DELIM !in w { SplitJoined(names); }
  }

  /** A single field whose name has the separator in it reads back as several. */
  lemma SeparatorIsMisread(a: Bytes, b: Bytes)
    ensures var names := [a + [DELIM] + b]; Split(Join(names)) != names && |Split(Join(names))| >= 2
  {
    var name := a + [DELIM] + b;
    assert name[|a|] == DELIM && [name][0] == name;
    NamesRoundTripIff([name]);
    SplitTwice(name);
  }

  lemma {:induction false} SplitTwice(b: Bytes)
    requires DELIM in b
    ensures |Split(b)| >= 2
  {
    if b[0] != DELIM { SplitTwice(b[1..]); }
  }

  // ---------------------------------------------------------------- whole files

  datatype File = File(offsets: map<nat, Bytes>, fields: seq<Bytes>, rows: seq<Row>)

  function HeaderBytes(entries: Entries, fields: seq<Bytes>): Bytes {
    OffsetBytes(entries) + Join(fields)
  }

  /** The length announced for a header is the number of bytes written for it. */
  method HeaderLength(size: nat, entries: Entries, fields: seq<Bytes>) returns (n: nat)
    requires forall e | e in entries :: |e.1| == size
    ensures n == |HeaderBytes(entries, fields)|
  {
    n := WIDTH64 + |entries| * (WIDTH64 + size) + |Join(fields)|;
    EntryLength(size, entries);
  }

  lemma {:induction false} EntryLength(size: nat, entries: Entries)
    requires forall e | e in entries :: |e.1| == size
    ensures |EntryBytes(entries)| == |entries| * (WIDTH64 + size)
  {
    if entries != [] {
      assert entries[0] in entries;
      EntryLength(size, entries[1..]);
      Arithmetic.Distribute(1, |entries| - 1, WIDTH64 + size);
    }
  }

  /** createOutWriter and the rows that follow. */
  function FileBytes(entries: Entries, fields: seq<Bytes>, rows: seq<Row>): Bytes {
    WriteUint(WIDTH32, |HeaderBytes(entries, fields)|) + HeaderBytes(entries, fields) + RowsBytes(rows)
  }

  /** The bytes of a file: four with the length of the header, the header, and then the rows. */
  lemma FileLayout(entries: Entries, fields: seq<Bytes>, rows: seq<Row>)
    ensures var b, h := FileBytes(entries, fields, rows), HeaderBytes(entries, fields);
            && |b| >= 4 + |h| && b[..4] == WriteUint(4, |h|) && b[4..4 + |h|] == h && b[4 + |h|..] == RowsBytes(rows)
  {
    hide WriteUint;
  }

  function ReadHeader(size: nat, header: Bytes): Option<(map<nat, Bytes>, seq<Bytes>)> {
    if |header| < WIDTH64 then None
    else
      var all := ReadEntries(ReadUint(header[..WIDTH64]), size, header[WIDTH64..]);
      if all.None? then None else Some((MapOf(all.value.0), Split(all.value.1)))
  }

  function ReadFile(size: nat, b: Bytes): Option<File> {
    if |b| < WIDTH32 then None
    else
      var headerLength := ReadUint(b[..WIDTH32]);
      if |b| < WIDTH32 + headerLength then None
      else
        var header, rows := ReadHeader(size, b[WIDTH32..WIDTH32 + headerLength]), ReadRows(b[WIDTH32 + headerLength..]);
        if header.None? || rows.None? then None else Some(File(header.value.0, header.value.1, rows.value))
  }

  lemma HeaderRoundTrips(size: nat, offsets: map<nat, Bytes>, entries: Entries, fields: seq<Bytes>)
    requires Enumerates(entries, offsets) && EntriesFit(size, entries) && |entries| < Pow256(WIDTH64)
    requires fields != [] && forall w | w in fields :: DELIM !in w
    ensures ReadHeader(size, HeaderBytes(entries, fields)) == Some((offsets, fields))
  {
    hide WriteUint, ReadUint, Pow256, Enumerates, EntriesFit, EntryBytes, ReadEntries, MapOf, Join, Split;
    var n, e, f := WriteUint(WIDTH64, |entries|), EntryBytes(entries), Join(fields);
    var header := HeaderBytes(entries, fields);
    assert header == n + (e + f);
    assert header[..WIDTH64] == n && header[WIDTH64..] == e + f;
    NumberFits(WIDTH64, |entries|);
    EntriesRead(size, entries, f);
    OrderDoesNotMatter(entries, offsets);
    SplitJoined(fields);
  }

  /**
   * A file reads back as it was written, in whatever order the offsets were
   * written, for field names without the separator and rows within the limits.
   */
  lemma FileRoundTrips(size: nat, offsets: map<nat, Bytes>, entries: Entries, fields: seq<Bytes>, rows: seq<Row>)
    requires Enumerates(entries, offsets) && EntriesFit(size, entries) && |entries| < Pow256(WIDTH64)
    requires fields != [] && forall w | w in fields :: DELIM !in w
    requires |HeaderBytes(entries, fields)| < Pow256(WIDTH32) && forall r | r in rows :: RowFits(r)
    ensures ReadFile(size, FileBytes(entries, fields, rows)) == Some(File(offsets, fields, rows))
  {
    hide WriteUint, ReadUint, Pow256, Enumerates, EntriesFit, HeaderBytes, ReadHeader, RowsBytes, ReadRows, RowFits;
    var header, more := HeaderBytes(entries, fields), RowsBytes(rows);
    var n := WriteUint(WIDTH32, |header|);
    var b := FileBytes(entries, fields, rows);
    assert b == n + (header + more);
    assert b[..WIDTH32] == n && b[WIDTH32..WIDTH32 + |header|] == header && b[WIDTH32 + |header|..] == more;
    NumberFits(WIDTH32, |header|);
    HeaderRoundTrips(size, offsets, entries, fields);
    RowsRoundTrip(rows);
  }
}
