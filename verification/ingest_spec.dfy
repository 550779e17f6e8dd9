/**
 Ingestion of one spec's rows into blocks.

 Every row gets a `_time_` value from the time function chosen by the
 table's time spec; a wrapper row answers reads of `_time_` with that value
 and forwards every other read. The wrapped rows are cut into blocks of at
 most `bRows` rows, each labelled with a sequence id and the (min, max) of
 its rows' times, read as unsigned 64-bit values. The Kafka path builds a
 single block and drops rows whose time is zero.
 */
module Ingest {
  import opened Common
  import opened SpecRepository

  const TIME_COLUMN: string := "_time_"

  /** The time of a row whose time column is null; zero is kept out of query ranges. */
  const NULL_TIME: int := 1

  /** The pattern that marks a time column holding unix seconds as a long. */
  const UNIX_TS: string := "UNIXTIME"

  /**
   A source row: which fields are null, and what a long or a string read of
   each field returns.
   */
  datatype Row = Row(nulls: set<string>, longs: string -> int, strings: string -> string)

  datatype TimeSpec = TimeSpec(kind: TimeType, unixTimeValue: int, colName: string, pattern: string)

  /** A provided time has no time function; every other kind has one. */
  predicate SupportedTime(ts: TimeSpec) {
    ts.kind != PROVIDED
  }

  /**
   The time function's value for a row at the `n`-th read of `_time_`.
   The function returns int64_t, so every kind's value is narrowed to 64
   signed bits. `mdate` is the spec's macro date, `parse` the date-string
   parser for a pattern, and `clock(n)` what the clock says at read `n`:
   a CURRENT time reads the clock afresh on every call.
   */
  function TimeFunc(ts: TimeSpec, mdate: nat, clock: nat -> int, parse: (string, string) -> int,
                    row: Row, n: nat): (t: int)
    requires SupportedTime(ts)
    ensures -0x8000_0000_0000_0000 <= t < 0x8000_0000_0000_0000
  {
    var raw :=
      match ts.kind
      case STATIC => ts.unixTimeValue
      case CURRENT => clock(n)
      case COLUMN =>
        if ts.colName in row.nulls then NULL_TIME
        else if ts.pattern == UNIX_TS then row.longs(ts.colName)
        else parse(row.strings(ts.colName), ts.pattern)
      case MACRO => if ts.pattern == "date" then mdate else 0;
    ToInt64(raw)
  }

  /**
   What each time kind depends on. STATIC and MACRO give a constant: the
   same for every row, every read and every clock. CURRENT gives the clock
   at that read, whatever the row. COLUMN looks only at the row's time
   column, so rows that agree there get the same time at any read; a null
   column gives the non-zero null marker.
   */
  lemma TimeFuncDepends(ts: TimeSpec, mdate: nat, clock: nat -> int, clock': nat -> int,
                        parse: (string, string) -> int, a: Row, b: Row, n: nat, n': nat)
    requires SupportedTime(ts)
    ensures ts.kind == STATIC ==> TimeFunc(ts, mdate, clock, parse, a, n) == ToInt64(ts.unixTimeValue)
    ensures ts.kind == MACRO ==>
      TimeFunc(ts, mdate, clock, parse, a, n) == if ts.pattern == "date" then ToInt64(mdate) else 0
    ensures ts.kind == STATIC || ts.kind == MACRO ==>
      TimeFunc(ts, mdate, clock, parse, a, n) == TimeFunc(ts, mdate, clock', parse, b, n')
    ensures ts.kind == CURRENT ==> TimeFunc(ts, mdate, clock, parse, a, n) == ToInt64(clock(n))
    ensures ts.kind == CURRENT ==> TimeFunc(ts, mdate, clock, parse, a, n) == TimeFunc(ts, mdate, clock, parse, b, n)
    ensures ts.kind == COLUMN && (ts.colName in a.nulls <==> ts.colName in b.nulls)
              && a.longs(ts.colName) == b.longs(ts.colName) && a.strings(ts.colName) == b.strings(ts.colName) ==>
            TimeFunc(ts, mdate, clock, parse, a, n) == TimeFunc(ts, mdate, clock', parse, b, n')
    ensures ts.kind == COLUMN && ts.colName in a.nulls ==> TimeFunc(ts, mdate, clock, parse, a, n) == NULL_TIME != 0
  {
  }

  /**
   The row seen through the time wrapper at one read: `_time_` is never
   null and reads as `time`; every other field answers as the wrapped row
   does.
   */
  function Wrap(row: Row, time: int): (w: Row)
    ensures TIME_COLUMN !in w.nulls && w.longs(TIME_COLUMN) == time
    ensures forall f :: f != TIME_COLUMN ==> (f in w.nulls <==> f in row.nulls)
    ensures forall f :: f != TIME_COLUMN ==> w.longs(f) == row.longs(f)
    ensures forall f :: w.strings(f) == row.strings(f)
  {
    Row(row.nulls - {TIME_COLUMN}, f => if f == TIME_COLUMN then time else row.longs(f), row.strings)
  }

  /** A long read of the time column. */
  function ReadTime(row: Row): int {
    row.longs(TIME_COLUMN)
  }

  /**
   A row as ingestion handles it: `row` is the wrapped row as the batch
   stores it, and `seen` the `_time_` value the range loop read for it
   just before.
   */
  datatype Timed = Timed(row: Row, seen: int)

  /** The time a block's range is built from. */
  function Seen(t: Timed): int {
    t.seen
  }

  /**
   The rows of a file as the ingestion loop reads them: row `k`'s time is
   read twice, first for the block range (read 2k) and then when the batch
   stores the row (read 2k+1).
   */
  function Stamp(ts: TimeSpec, mdate: nat, clock: nat -> int, parse: (string, string) -> int,
                 rows: seq<Row>): (w: seq<Timed>)
    requires SupportedTime(ts)
    ensures |w| == |rows|
    ensures forall k :: 0 <= k < |rows| ==>
      w[k] == Timed(Wrap(rows[k], TimeFunc(ts, mdate, clock, parse, rows[k], 2 * k + 1)),
                    TimeFunc(ts, mdate, clock, parse, rows[k], 2 * k))
  {
    if |rows| == 0 then []
    else
      var k := |rows| - 1;
      Stamp(ts, mdate, clock, parse, rows[..k])
      + [Timed(Wrap(rows[k], TimeFunc(ts, mdate, clock, parse, rows[k], 2 * k + 1)),
               TimeFunc(ts, mdate, clock, parse, rows[k], 2 * k))]
  }

  // ---------------------------------------------------------------------------
  // Blocks

  /** A block: its sequence id, its time range, and its rows. */
  datatype Block<R> = Block(id: nat, low: nat, high: nat, rows: seq<R>)

  function Min(a: nat, b: nat): nat { if a <= b then a else b }
  function Max(a: nat, b: nat): nat { if a >= b then a else b }

  /** The running low end of a range that starts at the largest size_t. */
  function Low<R>(rows: seq<R>, time: R -> int): nat {
    if |rows| == 0 then SIZE_MAX
    else Min(Low(rows[..|rows| - 1], time), AsUnsigned64(time(rows[|rows| - 1])))
  }

  /** The running high end of a range that starts at zero. */
  function High<R>(rows: seq<R>, time: R -> int): nat {
    if |rows| == 0 then 0
    else Max(High(rows[..|rows| - 1], time), AsUnsigned64(time(rows[|rows| - 1])))
  }

  /** A block's range is the (min, max) of its own rows' times. */
  predicate Ranged<R>(b: Block<R>, time: R -> int) {
    b.low == Low(b.rows, time) && b.high == High(b.rows, time)
  }

  /** The blocks' rows, in order. */
  function Flatten<R>(blocks: seq<Block<R>>): seq<R> {
    if |blocks| == 0 then [] else Flatten(blocks[..|blocks| - 1]) + blocks[|blocks| - 1].rows
  }

  /**
   The range of a run of rows contains every row's time, and for a
   non-empty run both ends are times of rows in it.
   */
  lemma {:induction false} RangeBounds<R>(rows: seq<R>, time: R -> int)
    ensures forall i :: 0 <= i < |rows| ==> Low(rows, time) <= AsUnsigned64(time(rows[i])) <= High(rows, time)
    ensures |rows| > 0 ==> exists i :: 0 <= i < |rows| && Low(rows, time) == AsUnsigned64(time(rows[i]))
    ensures |rows| > 0 ==> exists i :: 0 <= i < |rows| && High(rows, time) == AsUnsigned64(time(rows[i]))
  {
    if |rows| > 0 {
      var p := rows[..|rows| - 1];
      var n := |rows| - 1;
      RangeBounds(p, time);
      forall i | 0 <= i < |rows| ensures Low(rows, time) <= AsUnsigned64(time(rows[i])) <= High(rows, time) {
        if i < n {
          assert rows[i] == p[i];
        }
      }
      if Low(rows, time) != AsUnsigned64(time(rows[n])) {
        var i :| 0 <= i < |p| && Low(p, time) == AsUnsigned64(time(p[i]));
        assert rows[i] == p[i];
      }
      if High(rows, time) != AsUnsigned64(time(rows[n])) {
        var i :| 0 <= i < |p| && High(p, time) == AsUnsigned64(time(p[i]));
        assert rows[i] == p[i];
      }
    }
  }

  lemma FlattenSnoc<R>(blocks: seq<Block<R>>, b: Block<R>)
    ensures Flatten(blocks + [b]) == Flatten(blocks) + b.rows
  {
    assert (blocks + [b])[..|blocks|] == blocks;
  }

  lemma RangeSnoc<R>(rows: seq<R>, r: R, time: R -> int)
    ensures Low(rows + [r], time) == Min(Low(rows, time), AsUnsigned64(time(r)))
    ensures High(rows + [r], time) == Max(High(rows, time), AsUnsigned64(time(r)))
  {
    assert (rows + [r])[..|rows|] == rows;
  }

  /** The blocks are numbered 0, 1, 2, ... and each carries its own rows' range. */
  predicate Numbered<R>(blocks: seq<Block<R>>, time: R -> int) {
    forall b :: 0 <= b < |blocks| ==> blocks[b].id == b && Ranged(blocks[b], time)
  }

  /** Every block holds exactly `n` rows. */
  predicate AllOfSize<R>(blocks: seq<Block<R>>, n: nat) {
    forall b :: 0 <= b < |blocks| ==> |blocks[b].rows| == n
  }

  /**
   The state of the splitting loop after `i` rows: the emitted blocks and
   the open batch hold those rows in order; every emitted block is full
   (when `bRows` is positive); with `bRows` zero the first block is empty
   and every later one holds a single row.
   */
  ghost predicate SplitState<R>(rows: seq<R>, i: nat, bRows: nat, blocks: seq<Block<R>>, batch: seq<R>, time: R -> int) {
    && i <= |rows|
    && Flatten(blocks) + batch == rows[..i]
    && Numbered(blocks, time)
    && (i == 0 ==> blocks == [] && batch == [])
    && (i > 0 ==> |batch| > 0)
    && (bRows > 0 ==> |batch| <= bRows && AllOfSize(blocks, bRows))
    && (bRows == 0 && i > 0 ==> |blocks| == i && |batch| == 1 && blocks[0].rows == [] && AllOfSize(blocks[1..], 1))
  }

  /** The loop state just before row `i` joins the open batch, which has room for it. */
  ghost predicate ReadyToAdd<R>(rows: seq<R>, i: nat, bRows: nat, blocks: seq<Block<R>>, batch: seq<R>, time: R -> int) {
    && i < |rows|
    && Flatten(blocks) + batch == rows[..i]
    && Numbered(blocks, time)
    && (bRows > 0 ==> |batch| < bRows && AllOfSize(blocks, bRows))
    && (bRows == 0 ==> |batch| == 0 && |blocks| == i + 1 && blocks[0].rows == [] && AllOfSize(blocks[1..], 1))
  }

  /** Flushing appends the batch as the next numbered, ranged block. */
  lemma FlushBlocks<R>(blocks: seq<Block<R>>, batch: seq<R>, time: R -> int)
    requires Numbered(blocks, time)
    ensures var next := blocks + [Block(|blocks|, Low(batch, time), High(batch, time), batch)];
      && Numbered(next, time)
      && Flatten(next) == Flatten(blocks) + batch
      && next[..|blocks|] == blocks
      && next[|blocks|].rows == batch
  {
    FlattenSnoc(blocks, Block(|blocks|, Low(batch, time), High(batch, time), batch));
  }

  /** With block size zero, the blocks after a flush keep their shape: an empty first block, then single rows. */
  lemma FlushZero<R>(i: nat, blocks: seq<Block<R>>, batch: seq<R>, b: Block<R>)
    requires i == 0 ==> blocks == [] && batch == []
    requires i > 0 ==> |blocks| == i && |batch| == 1 && blocks[0].rows == [] && AllOfSize(blocks[1..], 1)
    requires b.rows == batch
    ensures |blocks + [b]| == i + 1 && (blocks + [b])[0].rows == [] && AllOfSize((blocks + [b])[1..], 1)
  {
    var next := blocks + [b];
    if i > 0 {
      assert next[1..] == blocks[1..] + [b];
    } else {
      assert next[1..] == [];
    }
  }

  /** Flushing a full batch leaves room for the next row, with an empty batch. */
  lemma FlushStep<R>(rows: seq<R>, i: nat, bRows: nat, blocks: seq<Block<R>>, batch: seq<R>, time: R -> int)
    requires SplitState(rows, i, bRows, blocks, batch, time) && i < |rows| && |batch| >= bRows
    ensures ReadyToAdd(rows, i, bRows, blocks + [Block(|blocks|, Low(batch, time), High(batch, time), batch)], [], time)
  {
    var b := Block(|blocks|, Low(batch, time), High(batch, time), batch);
    FlushBlocks(blocks, batch, time);
    if bRows == 0 {
      FlushZero(i, blocks, batch, b);
    }
  }

  /** A batch with room needs no flush. */
  lemma NoFlushStep<R>(rows: seq<R>, i: nat, bRows: nat, blocks: seq<Block<R>>, batch: seq<R>, time: R -> int)
    requires SplitState(rows, i, bRows, blocks, batch, time) && i < |rows| && |batch| < bRows
    ensures ReadyToAdd(rows, i, bRows, blocks, batch, time)
  {
  }

  /** Adding the next row to the open batch keeps the loop state. */
  lemma AddStep<R>(rows: seq<R>, i: nat, bRows: nat, blocks: seq<Block<R>>, batch: seq<R>, time: R -> int)
    requires ReadyToAdd(rows, i, bRows, blocks, batch, time)
    ensures SplitState(rows, i + 1, bRows, blocks, batch + [rows[i]], time)
    ensures Low(batch + [rows[i]], time) == Min(Low(batch, time), AsUnsigned64(time(rows[i])))
    ensures High(batch + [rows[i]], time) == Max(High(batch, time), AsUnsigned64(time(rows[i])))
  {
    assert rows[..i + 1] == rows[..i] + [rows[i]];
    RangeSnoc(batch, rows[i], time);
  }

  /** The blocks after the final flush of a non-empty batch. */
  function Closed<R>(blocks: seq<Block<R>>, batch: seq<R>, time: R -> int): seq<Block<R>> {
    if |batch| > 0 then blocks + [Block(|blocks|, Low(batch, time), High(batch, time), batch)] else blocks
  }

  /** After the last row and the final flush, the blocks hold exactly the rows, numbered and ranged. */
  lemma FinalRows<R>(rows: seq<R>, bRows: nat, blocks: seq<Block<R>>, batch: seq<R>, time: R -> int)
    requires SplitState(rows, |rows|, bRows, blocks, batch, time)
    ensures Flatten(Closed(blocks, batch, time)) == rows
    ensures Numbered(Closed(blocks, batch, time), time)
    ensures |Closed(blocks, batch, time)| == 0 <==> |rows| == 0
  {
    assert rows[..|rows|] == rows;
    if |batch| > 0 {
      FlattenSnoc(blocks, Block(|blocks|, Low(batch, time), High(batch, time), batch));
    }
  }

  /** With a positive block size, every final block is non-empty and all but the last are full. */
  lemma FinalSizes<R>(rows: seq<R>, bRows: nat, blocks: seq<Block<R>>, batch: seq<R>, time: R -> int)
    requires SplitState(rows, |rows|, bRows, blocks, batch, time) && bRows > 0
    ensures forall b :: 0 <= b < |Closed(blocks, batch, time)| - 1 ==> |Closed(blocks, batch, time)[b].rows| == bRows
    ensures forall b :: 0 <= b < |Closed(blocks, batch, time)| ==> 0 < |Closed(blocks, batch, time)[b].rows| <= bRows
  {
  }

  /** The split's final blocks, gathered. */
  ghost predicate SplitOutcome<R>(rows: seq<R>, bRows: nat, blocks: seq<Block<R>>, time: R -> int) {
    && Flatten(blocks) == rows
    && Numbered(blocks, time)
    && (|blocks| == 0 <==> |rows| == 0)
    && (bRows > 0 ==> forall b :: 0 <= b < |blocks| - 1 ==> |blocks[b].rows| == bRows)
    && (bRows > 0 ==> forall b :: 0 <= b < |blocks| ==> 0 < |blocks[b].rows| <= bRows)
    && (bRows == 0 && |rows| > 0 ==>
          && |blocks| == |rows| + 1 && blocks[0].rows == []
          && forall b :: 1 <= b < |blocks| ==> |blocks[b].rows| == 1)
  }

  lemma FinalSplit<R>(rows: seq<R>, bRows: nat, blocks: seq<Block<R>>, batch: seq<R>, time: R -> int)
    requires SplitState(rows, |rows|, bRows, blocks, batch, time)
    ensures SplitOutcome(rows, bRows, Closed(blocks, batch, time), time)
  {
    FinalRows(rows, bRows, blocks, batch, time);
    if bRows > 0 {
      FinalSizes(rows, bRows, blocks, batch, time);
    } else if |rows| > 0 {
      FinalZero(rows, blocks, batch, time);
    }
  }

  /** With block size zero, the first final block is empty and every later one holds one row. */
  lemma FinalZero<R>(rows: seq<R>, blocks: seq<Block<R>>, batch: seq<R>, time: R -> int)
    requires SplitState(rows, |rows|, 0, blocks, batch, time) && |rows| > 0
    ensures var last := Closed(blocks, batch, time);
      && |last| == |rows| + 1 && last[0].rows == []
      && forall b :: 1 <= b < |last| ==> |last[b].rows| == 1
  {
    var last := Closed(blocks, batch, time);
    forall b | 1 <= b < |last| ensures |last[b].rows| == 1 {
      if b < |blocks| {
        assert last[b] == blocks[1..][b - 1];
      }
    }
  }

  /** Widens a running (low, high) range to include `t`. */
  method Widen(low: nat, high: nat, t: nat) returns (low': nat, high': nat)
    ensures low' == Min(low, t) && high' == Max(high, t)
    ensures low' <= t <= high'
  {
    low', high' := low, high;
    if t < low' {
      low' := t;
    }
    if t > high' {
      high' := t;
    }
  }

  /**
   The block-splitting loop. Before a row is added, a batch already holding
   `bRows` rows is flushed as the next block and the range restarts. The
   loop ends with the last batch still open.
   */
  method SplitLoop<R>(rows: seq<R>, time: R -> int, bRows: nat) returns (blocks: seq<Block<R>>, batch: seq<R>, low: nat, high: nat)
    ensures SplitState(rows, |rows|, bRows, blocks, batch, time)
    ensures low == Low(batch, time) && high == High(batch, time)
  {
    blocks, batch := [], [];
    low, high := SIZE_MAX, 0;
    var blockId := 0;
    var i := 0;
    while i < |rows|
      invariant SplitState(rows, i, bRows, blocks, batch, time)
      invariant blockId == |blocks|
      invariant low == Low(batch, time) && high == High(batch, time)
    {
      if |batch| >= bRows {
        FlushStep(rows, i, bRows, blocks, batch, time);
        blocks := blocks + [Block(blockId, low, high, batch)];
        blockId := blockId + 1;
        batch := [];
        low, high := SIZE_MAX, 0;
      } else {
        NoFlushStep(rows, i, bRows, blocks, batch, time);
      }
      low, high := Widen(low, high, AsUnsigned64(time(rows[i])));
      AddStep(rows, i, bRows, blocks, batch, time);
      batch := batch + [rows[i]];
      i := i + 1;
    }
  }

  /**
   Splits rows into blocks of at most `bRows` rows: after the loop, a
   non-empty open batch is flushed as the last block.
   */
  method SplitBlocks<R>(rows: seq<R>, time: R -> int, bRows: nat) returns (blocks: seq<Block<R>>)
    ensures Flatten(blocks) == rows
    ensures Numbered(blocks, time)
    ensures |blocks| == 0 <==> |rows| == 0
    ensures bRows > 0 ==> forall b :: 0 <= b < |blocks| - 1 ==> |blocks[b].rows| == bRows
    ensures bRows > 0 ==> forall b :: 0 <= b < |blocks| ==> 0 < |blocks[b].rows| <= bRows
    ensures bRows == 0 && |rows| > 0 ==>
      && |blocks| == |rows| + 1 && blocks[0].rows == []
      && forall b :: 1 <= b < |blocks| ==> |blocks[b].rows| == 1
  {
    var batch, low, high;
    blocks, batch, low, high := SplitLoop(rows, time, bRows);
    FinalSplit(rows, bRows, blocks, batch, time);
    if |batch| > 0 {
      blocks := blocks + [Block(|blocks|, low, high, batch)];
    }
  }

  /**
   Ingests one file's rows. An unsupported time type or file format fails
   with no blocks; otherwise the rows, each stamped with its two `_time_`
   reads, are split into blocks ranged by the reads the loop made.
   */
  method IngestFile(ts: TimeSpec, format: string, mdate: nat, clock: nat -> int, parse: (string, string) -> int,
                    rows: seq<Row>, bRows: nat) returns (ok: bool, blocks: seq<Block<Timed>>)
    ensures ok <==> SupportedTime(ts) && (format == "csv" || format == "parquet")
    ensures !ok ==> blocks == []
    ensures ok ==> Flatten(blocks) == Stamp(ts, mdate, clock, parse, rows)
    ensures ok ==> Numbered(blocks, Seen)
    ensures ok ==> (|blocks| == 0 <==> |rows| == 0)
    ensures ok && bRows > 0 ==> forall b :: 0 <= b < |blocks| ==> 0 < |blocks[b].rows| <= bRows
    ensures ok && bRows > 0 ==> forall b :: 0 <= b < |blocks| - 1 ==> |blocks[b].rows| == bRows
    ensures ok && bRows == 0 && |rows| > 0 ==>
      |blocks| == |rows| + 1 && blocks[0].rows == [] && forall b :: 1 <= b < |blocks| ==> |blocks[b].rows| == 1
  {
    if !SupportedTime(ts) {
      return false, [];
    }
    if format != "csv" && format != "parquet" {
      return false, [];
    }
    var stamped := Stamp(ts, mdate, clock, parse, rows);
    blocks := SplitBlocks(stamped, Seen, bRows);
    ok := true;
  }

  /**
   Every row of an ingested file lands in some block, in order, stored
   with the time its second read gives; the time of its first read lies
   within the block's range. For every kind but CURRENT the two reads
   agree, so the stored time lies within the range too.
   */
  lemma IngestedTimes(ts: TimeSpec, mdate: nat, clock: nat -> int, parse: (string, string) -> int,
                      rows: seq<Row>, blocks: seq<Block<Timed>>, b: nat, j: nat)
    requires SupportedTime(ts)
    requires Flatten(blocks) == Stamp(ts, mdate, clock, parse, rows) && Numbered(blocks, Seen)
    requires b < |blocks| && j < |blocks[b].rows|
    ensures |Flatten(blocks[..b])| + j < |rows|
    ensures var k := |Flatten(blocks[..b])| + j;
      && blocks[b].rows[j].row == Wrap(rows[k], TimeFunc(ts, mdate, clock, parse, rows[k], 2 * k + 1))
      && blocks[b].low <= AsUnsigned64(TimeFunc(ts, mdate, clock, parse, rows[k], 2 * k)) <= blocks[b].high
    ensures ts.kind != CURRENT ==>
      blocks[b].low <= AsUnsigned64(ReadTime(blocks[b].rows[j].row)) <= blocks[b].high
  {
    FlattenAt(blocks, b, j);
    RangeBounds(blocks[b].rows, Seen);
  }

  /**
   With a CURRENT time the stored time can fall outside the block's
   range: for a one-row file whose clock reads 5 and then 6, the block
   holding the row has range (5, 5) but stores 6.
   */
  lemma CurrentTimeMayLeaveRange(ts: TimeSpec, mdate: nat, parse: (string, string) -> int, r: Row,
                                 blocks: seq<Block<Timed>>, b: nat)
    requires ts.kind == CURRENT
    requires Flatten(blocks) == Stamp(ts, mdate, n => 5 + n, parse, [r]) && Numbered(blocks, Seen)
    requires b < |blocks| && |blocks[b].rows| > 0
    ensures blocks[b].low == 5 && blocks[b].high == 5
    ensures ReadTime(blocks[b].rows[0].row) == 6
  {
    FlattenAt(blocks, b, 0);
    if |blocks[b].rows| > 1 {
      FlattenAt(blocks, b, 1);
    }
    var rs := blocks[b].rows;
    assert rs == [rs[0]] && rs[..0] == [];
    assert Seen(rs[0]) == 5;
    assert Low(rs, Seen) == Min(SIZE_MAX, 5);
    assert High(rs, Seen) == Max(0, 5);
  }

  /** Row `j` of block `b` sits in the flattened rows after the rows of the blocks before it. */
  lemma {:induction false} FlattenAt<R>(blocks: seq<Block<R>>, b: nat, j: nat)
    requires b < |blocks| && j < |blocks[b].rows|
    ensures |Flatten(blocks[..b])| + j < |Flatten(blocks)|
    ensures Flatten(blocks)[|Flatten(blocks[..b])| + j] == blocks[b].rows[j]
  {
    var n := |blocks| - 1;
    assert blocks[..n] == blocks[..|blocks| - 1];
    if b < n {
      assert blocks[..n][..b] == blocks[..b];
      FlattenAt(blocks[..n], b, j);
    } else {
      assert blocks[..b] == blocks[..n];
    }
  }

  // ---------------------------------------------------------------------------
  // Kafka

  /** The time a Kafka row reports, as an unsigned 64-bit value; zero marks a corrupt row. */
  function KafkaTime(row: Row): nat {
    AsUnsigned64(ReadTime(row))
  }

  /** The rows whose time is not zero, in order. */
  function Kept(rows: seq<Row>): (k: seq<Row>)
    ensures |k| <= |rows|
  {
    if |rows| == 0 then []
    else Kept(rows[..|rows| - 1]) + (if KafkaTime(rows[|rows| - 1]) == 0 then [] else [rows[|rows| - 1]])
  }

  /** Every kept row has a non-zero time. */
  lemma {:induction false} KeptNonZero(rows: seq<Row>)
    ensures forall i :: 0 <= i < |Kept(rows)| ==> KafkaTime(Kept(rows)[i]) != 0
  {
    if |rows| > 0 {
      var p := rows[..|rows| - 1];
      KeptNonZero(p);
      var k := Kept(rows);
      forall i | 0 <= i < |k| ensures KafkaTime(k[i]) != 0 {
        if i < |Kept(p)| {
          assert k[i] == Kept(p)[i];
        }
      }
    }
  }

  /** Every row with a non-zero time is kept. */
  lemma {:induction false} KeptComplete(rows: seq<Row>, i: nat)
    requires i < |rows| && KafkaTime(rows[i]) != 0
    ensures exists j :: 0 <= j < |Kept(rows)| && Kept(rows)[j] == rows[i]
  {
    var p := rows[..|rows| - 1];
    var k := Kept(rows);
    if i < |p| {
      KeptComplete(p, i);
      var j :| 0 <= j < |Kept(p)| && Kept(p)[j] == p[i];
      assert k[j] == Kept(p)[j];
    } else {
      assert k[|k| - 1] == rows[i];
    }
  }

  /** When no row has time zero nothing is dropped. */
  lemma {:induction false} KeptAll(rows: seq<Row>)
    requires forall i :: 0 <= i < |rows| ==> KafkaTime(rows[i]) != 0
    ensures Kept(rows) == rows
  {
    if |rows| > 0 {
      var p := rows[..|rows| - 1];
      assert forall i :: 0 <= i < |p| ==> p[i] == rows[i];
      KeptAll(p);
      assert rows == p + [rows[|rows| - 1]];
    }
  }

  /**
   The Kafka loop: rows with time zero are skipped; the rest go into one
   block with id 0 whose range covers only them. With no kept row the range
   stays at its starting (largest size_t, 0).
   */
  method LoadKafka(rows: seq<Row>) returns (block: Block<Row>)
    ensures block.id == 0
    ensures block.rows == Kept(rows)
    ensures Ranged(block, ReadTime)
    ensures |block.rows| == 0 ==> block.low == SIZE_MAX && block.high == 0
  {
    var batch: seq<Row> := [];
    var low, high := SIZE_MAX, 0;
    var i := 0;
    while i < |rows|
      invariant 0 <= i <= |rows|
      invariant batch == Kept(rows[..i])
      invariant low == Low(batch, ReadTime) && high == High(batch, ReadTime)
    {
      assert rows[..i + 1][..i] == rows[..i];
      var row := rows[i];
      var time := AsUnsigned64(row.longs(TIME_COLUMN));
      if time != 0 {
        if time < low {
          low := time;
        }
        if time > high {
          high := time;
        }
        RangeSnoc(batch, row, ReadTime);
        batch := batch + [row];
      }
      i := i + 1;
    }
    assert rows[..i] == rows;
    block := Block(0, low, high, batch);
  }
}
