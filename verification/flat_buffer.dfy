/**
 The row encoder's bookkeeping: three write-offset buffers (main, data,
 list), the per-row metadata, the single-level undo checkpoint, the
 serialized size and the serialized layout its size accounts for.

 The per-column encoders that produce a row's bytes are generated at run
 time from the schema; here a row arrives already encoded (`EncodedRow`),
 and the model fixes what the encoder does with it.
 */
module FlatBuffers {
  import opened Common
  import opened Kinds

  const SIZET_SIZE: nat := 8

  /** Five 8-byte header fields: row count, main size, data size, list size, reserved. */
  const HEADER_FIELDS: nat := 5

  // ---------------------------------------------------------------------------
  // Main-region slots

  /**
   Width of a column's slot in the main region when it holds a value:
   scalars take their native width, strings and lists an 8-byte descriptor,
   maps and structs are not supported.
   */
  function WidthInMain(k: Kind): (w: Option<nat>)
    ensures IsScalar(k) ==> w == Some(NativeWidth(k))
    ensures k == VARCHAR || k == ARRAY ==> w == Some(8)
    ensures w.None? <==> k == MAP || k == STRUCT
  {
    match k
    case VARCHAR => Some(8)
    case ARRAY => Some(8)
    case MAP => None
    case STRUCT => None
    case _ => Some(NativeWidth(k))
  }

  /**
   The descriptor stored in a string or list slot:
   a string is [4 bytes offset, 4 bytes length] into the data region,
   a list is [4 bytes item count, 4 bytes offset] into the list region.
   */
  datatype Slot = StringSlot(offset: nat, length: nat) | ListSlot(count: nat, offset: nat)

  predicate SlotFits(s: Slot) {
    match s
    case StringSlot(o, l) => o < TWO_32 && l < TWO_32
    case ListSlot(c, o) => c < TWO_32 && o < TWO_32
  }

  function EncodeSlot(s: Slot): (r: seq<byte>)
    requires SlotFits(s)
    ensures Some(|r|) == WidthInMain(VARCHAR) == WidthInMain(ARRAY)
  {
    match s
    case StringSlot(o, l) => EncodeU32(o) + EncodeU32(l)
    case ListSlot(c, o) => EncodeU32(c) + EncodeU32(o)
  }

  /** Reads an 8-byte slot back as a descriptor of the given kind. */
  function DecodeSlot(k: Kind, b: seq<byte>): (s: Slot)
    requires k == VARCHAR || k == ARRAY
    requires |b| == 8
    ensures SlotFits(s)
    ensures k == VARCHAR <==> s.StringSlot?
  {
    Pow256Widths();
    DecodeLEBound(b[..4]);
    DecodeLEBound(b[4..]);
    var first := DecodeLE(b[..4]);
    var second := DecodeLE(b[4..]);
    if k == VARCHAR then StringSlot(first, second) else ListSlot(first, second)
  }

  lemma SlotRoundTrip(s: Slot)
    requires SlotFits(s)
    ensures DecodeSlot(if s.StringSlot? then VARCHAR else ARRAY, EncodeSlot(s)) == s
  {
    var e := EncodeSlot(s);
    match s
    case StringSlot(o, l) =>
      assert e[..4] == EncodeU32(o);
      assert e[4..] == EncodeU32(l);
    case ListSlot(c, o) =>
      assert e[..4] == EncodeU32(c);
      assert e[4..] == EncodeU32(o);
  }

  // ---------------------------------------------------------------------------
  // Buffers

  /**
   A paged slice paired with its write offset. Everything below `offset` is
   the buffer's content; bytes beyond it (left by a rollback) are stale.
   */
  datatype Buffer = Buffer(offset: nat, slice: seq<byte>) {
    predicate Valid() {
      offset <= |slice|
    }

    function Content(): (c: seq<byte>)
      requires Valid()
      ensures |c| == offset
    {
      slice[..offset]
    }
  }

  /** A buffer over a freshly allocated page: nothing written yet. */
  function PagedBuffer(page: nat): (b: Buffer)
    ensures b.Valid()
    ensures b.offset == 0 && b.Content() == []
  {
    Buffer(0, [])
  }

  /** A fixed buffer over existing bytes: its offset is their size. */
  function BorrowedBuffer(bytes: seq<byte>): (b: Buffer)
    ensures b.Valid()
    ensures b.offset == |bytes| && b.Content() == bytes
  {
    Buffer(|bytes|, bytes)
  }

  /** Writes `bytes` at the write offset and advances it. */
  function Write(b: Buffer, bytes: seq<byte>): (r: Buffer)
    requires b.Valid()
    ensures r.Valid()
    ensures r.offset == b.offset + |bytes|
    ensures r.Content() == b.Content() + bytes
  {
    Buffer(b.offset + |bytes|, b.slice[..b.offset] + bytes)
  }

  // ---------------------------------------------------------------------------
  // Row metadata and the encoder state

  /** Whether a column of a row is null and its relative offset in the row's main slot. */
  datatype ColumnProps = ColumnProps(isNull: bool, offset: nat)

  /** A row's offset in the main region and the properties of each of its columns. */
  datatype RowProps = RowProps(offset: nat, colProps: seq<ColumnProps>)

  /** The three write offsets captured before a row is added. */
  datatype Snapshot = Snapshot(main: nat, data: nat, list: nat)

  /** The bytes a row's column encoders produce for each region, with its column properties. */
  datatype EncodedRow = EncodedRow(main: seq<byte>, data: seq<byte>, list: seq<byte>, cols: seq<ColumnProps>)

  /**
   The encoder: schema, row index, the three regions, and the checkpoint of
   the most recent `add` that has not been rolled back (if any).
   */
  datatype Flat = Flat(
    schema: seq<Kind>,
    rows: seq<RowProps>,
    main: Buffer,
    data: Buffer,
    list: Buffer,
    last: Option<Snapshot>)
  {
    predicate Valid() {
      && main.Valid() && data.Valid() && list.Valid()
      && (forall i :: 0 <= i < |rows| ==> |rows[i].colProps| == |schema|)
      && (forall i :: 0 <= i < |rows| ==> rows[i].offset <= main.offset)
      && (forall i, j :: 0 <= i <= j < |rows| ==> rows[i].offset <= rows[j].offset)
      && (last.Some? ==>
            && |rows| > 0
            && rows[|rows| - 1].offset == last.value.main
            && last.value.main <= main.offset
            && last.value.data <= data.offset
            && last.value.list <= list.offset)
    }
  }

  function NewFlat(schema: seq<Kind>): (f: Flat)
    ensures f.Valid()
    ensures GetRows(f) == 0 && BinSize(f) == 40
    ensures f.last.None?
  {
    Flat(schema, [], PagedBuffer(0), PagedBuffer(0), PagedBuffer(0), None)
  }

  function GetRows(f: Flat): nat {
    |f.rows|
  }

  /**
   Appends one encoded row: the checkpoint records the offsets before the
   row, each region receives the row's bytes, and exactly one row entry is
   recorded, starting at the old main offset. Returns the new row's index.
   */
  function Add(f: Flat, row: EncodedRow): (r: (Flat, nat))
    requires f.Valid()
    requires |row.cols| == |f.schema|
    ensures r.0.Valid()
    ensures r.1 == GetRows(f) && GetRows(r.0) == GetRows(f) + 1
    ensures r.0.schema == f.schema
    ensures r.0.rows[..GetRows(f)] == f.rows
    ensures r.0.rows[r.1] == RowProps(f.main.offset, row.cols)
    ensures r.0.main.Content() == f.main.Content() + row.main
    ensures r.0.data.Content() == f.data.Content() + row.data
    ensures r.0.list.Content() == f.list.Content() + row.list
    ensures r.0.last == Some(Snapshot(f.main.offset, f.data.offset, f.list.offset))
  {
    var g := Flat(
      f.schema,
      f.rows + [RowProps(f.main.offset, row.cols)],
      Write(f.main, row.main),
      Write(f.data, row.data),
      Write(f.list, row.list),
      Some(Snapshot(f.main.offset, f.data.offset, f.list.offset)));
    assert g.rows[..|f.rows|] == f.rows;
    (g, |f.rows|)
  }

  /**
   Undoes the most recent `add`, once: restores the three write offsets to
   the checkpoint and drops that row. Without a pending checkpoint it
   returns false and changes nothing.
   */
  function Rollback(f: Flat): (r: (bool, Flat))
    requires f.Valid()
    ensures r.1.Valid()
    ensures r.0 <==> f.last.Some?
    ensures !r.0 ==> r.1 == f
    ensures r.0 ==> && GetRows(r.1) == GetRows(f) - 1
                    && r.1.rows == f.rows[..GetRows(f) - 1]
                    && r.1.main.offset == f.last.value.main
                    && r.1.data.offset == f.last.value.data
                    && r.1.list.offset == f.last.value.list
                    && r.1.last.None?
  {
    match f.last
    case None => (false, f)
    case Some(s) =>
      var rows := f.rows[..|f.rows| - 1];
      (true, Flat(f.schema, rows,
                  Buffer(s.main, f.main.slice),
                  Buffer(s.data, f.data.slice),
                  Buffer(s.list, f.list.slice),
                  None))
  }

  /**
   Rolling back right after an add restores the row index and the content of
   all three regions, and leaves nothing further to roll back.
   */
  lemma AddThenRollback(f: Flat, row: EncodedRow)
    requires f.Valid()
    requires |row.cols| == |f.schema|
    ensures var g := Rollback(Add(f, row).0);
      && g.0
      && g.1.rows == f.rows
      && GetRows(g.1) == GetRows(f)
      && g.1.main.Content() == f.main.Content()
      && g.1.data.Content() == f.data.Content()
      && g.1.list.Content() == f.list.Content()
      && BinSize(g.1) == BinSize(f)
      && !Rollback(g.1).0
  {
    var a := Add(f, row).0;
    var g := Rollback(a);
    assert a.main.slice[..f.main.offset] == f.main.Content();
    assert a.data.slice[..f.data.offset] == f.data.Content();
    assert a.list.slice[..f.list.offset] == f.list.Content();
  }

  /** Total bytes a serialization of the encoder occupies. */
  function BinSize(f: Flat): nat {
    SIZET_SIZE                          // number of rows
    + |f.rows| * SIZET_SIZE             // offset of each row
    + SIZET_SIZE                        // main block size
    + SIZET_SIZE                        // data block size
    + SIZET_SIZE                        // list block size
    + SIZET_SIZE                        // reserved
    + f.main.offset + f.data.offset + f.list.offset
  }

  lemma BinSizeFormula(f: Flat)
    ensures BinSize(f) == 40 + 8 * GetRows(f) + f.main.offset + f.data.offset + f.list.offset
    ensures BinSize(f) == SIZET_SIZE * (HEADER_FIELDS + GetRows(f)) + f.main.offset + f.data.offset + f.list.offset
  {
  }

  /** Adding a row grows the serialized size by one offset entry plus the row's bytes. */
  lemma BinSizeAfterAdd(f: Flat, row: EncodedRow)
    requires f.Valid()
    requires |row.cols| == |f.schema|
    ensures BinSize(Add(f, row).0) == BinSize(f) + 8 + |row.main| + |row.data| + |row.list|
  {
  }

  // ---------------------------------------------------------------------------
  // Serialized layout

  /** Every quantity written as a size_t field fits in 64 bits. */
  predicate Representable(f: Flat) {
    && |f.rows| < TWO_64
    && f.main.offset < TWO_64 && f.data.offset < TWO_64 && f.list.offset < TWO_64
    && (forall i :: 0 <= i < |f.rows| ==> f.rows[i].offset < TWO_64)
  }

  function RowOffsets(rows: seq<RowProps>): (offs: seq<nat>)
    ensures |offs| == |rows|
    ensures forall i :: 0 <= i < |rows| ==> offs[i] == rows[i].offset
  {
    if |rows| == 0 then [] else RowOffsets(rows[..|rows| - 1]) + [rows[|rows| - 1].offset]
  }

  function EncodeOffsets(offs: seq<nat>): (r: seq<byte>)
    requires forall i :: 0 <= i < |offs| ==> offs[i] < TWO_64
    ensures |r| == 8 * |offs|
  {
    if |offs| == 0 then [] else EncodeOffsets(offs[..|offs| - 1]) + EncodeU64(offs[|offs| - 1])
  }

  function DecodeOffsets(b: seq<byte>, n: nat): (offs: seq<nat>)
    requires |b| == 8 * n
    ensures |offs| == n
  {
    if n == 0 then [] else DecodeOffsets(b[..|b| - 8], n - 1) + [DecodeLE(b[|b| - 8..])]
  }

  lemma {:induction false} DecodeEncodeOffsets(offs: seq<nat>)
    requires forall i :: 0 <= i < |offs| ==> offs[i] < TWO_64
    ensures DecodeOffsets(EncodeOffsets(offs), |offs|) == offs
  {
    if |offs| > 0 {
      var init, x := offs[..|offs| - 1], offs[|offs| - 1];
      var e := EncodeOffsets(offs);
      assert e == EncodeOffsets(init) + EncodeU64(x);
      assert e[..|e| - 8] == EncodeOffsets(init);
      assert e[|e| - 8..] == EncodeU64(x);
      DecodeEncodeOffsets(init);
      assert DecodeOffsets(e, |offs|) == DecodeOffsets(EncodeOffsets(init), |init|) + [DecodeLE(EncodeU64(x))];
      assert DecodeOffsets(e, |offs|) == init + [x];
      assert init + [x] == offs;
    }
  }

  /**
   The serialized form: row count, the row offset table, the three block
   sizes and a reserved field, then the main, data and list blocks.
   The reserved field is written as zero.
   */
  function Serialize(f: Flat): (b: seq<byte>)
    requires f.Valid() && Representable(f)
  {
    Layout(RowOffsets(f.rows), f.main.Content(), f.data.Content(), f.list.Content())
  }

  /** `binSize` is exactly the length of the serialized form. */
  lemma BinSizeIsSerializedLength(f: Flat)
    requires f.Valid() && Representable(f)
    ensures |Serialize(f)| == BinSize(f)
  {
  }

  /** The serialized layout, over plain row offsets and block contents. */
  function Layout(offs: seq<nat>, m: seq<byte>, d: seq<byte>, l: seq<byte>): (b: seq<byte>)
    requires |offs| < TWO_64 && |m| < TWO_64 && |d| < TWO_64 && |l| < TWO_64
    requires forall i :: 0 <= i < |offs| ==> offs[i] < TWO_64
  {
    (EncodeU64(|offs|) + EncodeOffsets(offs))
    + (EncodeU64(|m|) + EncodeU64(|d|) + EncodeU64(|l|) + EncodeU64(0))
    + (m + d + l)
  }

  /**
   Each field of the serialized form sits where the reader expects it: the
   row count first, then the offset table, the three block sizes, and the
   blocks back to back after the 40-byte-plus-table header.
   */
  lemma SerializedFields(f: Flat)
    requires f.Valid() && Representable(f)
    ensures var b := Serialize(f);
      var n := GetRows(f);
      var t := 8 + 8 * n;
      var m, d, l := f.main.Content(), f.data.Content(), f.list.Content();
      && |b| == BinSize(f)
      && b[..8] == EncodeU64(n)
      && b[8..t] == EncodeOffsets(RowOffsets(f.rows))
      && b[t..t + 8] == EncodeU64(|m|)
      && b[t + 8..t + 16] == EncodeU64(|d|)
      && b[t + 16..t + 24] == EncodeU64(|l|)
  {
    var offs := RowOffsets(f.rows);
    var m, d, l := f.main.Content(), f.data.Content(), f.list.Content();
    LayoutHeader(offs, m, d, l);
  }

  /** The main, data and list blocks follow the header back to back, in that order. */
  lemma SerializedBlocks(f: Flat)
    requires f.Valid() && Representable(f)
    ensures var b := Serialize(f);
      var h := 8 * (HEADER_FIELDS + GetRows(f));
      var m, d, l := f.main.Content(), f.data.Content(), f.list.Content();
      && h + |m| + |d| + |l| == |b|
      && b[h..h + |m|] == m
      && b[h + |m|..h + |m| + |d|] == d
      && b[h + |m| + |d|..] == l
  {
    var offs := RowOffsets(f.rows);
    var m, d, l := f.main.Content(), f.data.Content(), f.list.Content();
    LayoutHeader(offs, m, d, l);
    LayoutBlocks(offs, m, d, l);
  }

  lemma LayoutHeader(offs: seq<nat>, m: seq<byte>, d: seq<byte>, l: seq<byte>)
    requires |offs| < TWO_64 && |m| < TWO_64 && |d| < TWO_64 && |l| < TWO_64
    requires forall i :: 0 <= i < |offs| ==> offs[i] < TWO_64
    ensures var b := Layout(offs, m, d, l);
      var t := 8 + 8 * |offs|;
      && |b| == 8 * (HEADER_FIELDS + |offs|) + |m| + |d| + |l|
      && b[..8] == EncodeU64(|offs|)
      && b[8..t] == EncodeOffsets(offs)
      && b[t..t + 8] == EncodeU64(|m|)
      && b[t + 8..t + 16] == EncodeU64(|d|)
      && b[t + 16..t + 24] == EncodeU64(|l|)
  {
    var x, y := EncodeU64(|offs|), EncodeOffsets(offs);
    var s1, s2, s3, s4 := EncodeU64(|m|), EncodeU64(|d|), EncodeU64(|l|), EncodeU64(0);
    var b := Layout(offs, m, d, l);
    HeaderFields(b, x, y, s1, s2, s3, s4, m + d + l);
    var t := 8 + 8 * |offs|;
    assert 8 + |y| == t;
    assert b[t..t + 8] == s1 && b[t + 8..t + 16] == s2 && b[t + 16..t + 24] == s3;
  }

  lemma LayoutBlocks(offs: seq<nat>, m: seq<byte>, d: seq<byte>, l: seq<byte>)
    requires |offs| < TWO_64 && |m| < TWO_64 && |d| < TWO_64 && |l| < TWO_64
    requires forall i :: 0 <= i < |offs| ==> offs[i] < TWO_64
    ensures var b := Layout(offs, m, d, l);
      var h := 8 * (HEADER_FIELDS + |offs|);
      && b[h..h + |m|] == m
      && b[h + |m|..h + |m| + |d|] == d
      && b[h + |m| + |d|..] == l
  {
    var head := EncodeU64(|offs|) + EncodeOffsets(offs);
    var sizes := EncodeU64(|m|) + EncodeU64(|d|) + EncodeU64(|l|) + EncodeU64(0);
    BlockFields(Layout(offs, m, d, l), head + sizes, m, d, l);
  }

  /** Reading the fields back: the row count, the row offsets and the three sizes decode to what was written. */
  lemma SerializedFieldsDecode(f: Flat)
    requires f.Valid() && Representable(f)
    ensures var b := Serialize(f);
      var n := GetRows(f);
      var t := 8 + 8 * n;
      && DecodeLE(b[..8]) == n
      && DecodeOffsets(b[8..t], n) == RowOffsets(f.rows)
      && DecodeLE(b[t..t + 8]) == f.main.offset
      && DecodeLE(b[t + 8..t + 16]) == f.data.offset
      && DecodeLE(b[t + 16..t + 24]) == f.list.offset
  {
    SerializedFields(f);
    DecodeEncodeOffsets(RowOffsets(f.rows));
  }

  lemma HeaderFields(b: seq<byte>, x: seq<byte>, y: seq<byte>, s1: seq<byte>, s2: seq<byte>,
                     s3: seq<byte>, s4: seq<byte>, rest: seq<byte>)
    requires b == ((x + y) + (s1 + s2 + s3 + s4)) + rest
    requires |x| == 8 && |s1| == 8 && |s2| == 8 && |s3| == 8 && |s4| == 8
    ensures |b| == 40 + |y| + |rest|
    ensures var t := 8 + |y|;
      && b[..8] == x
      && b[8..t] == y
      && b[t..t + 8] == s1
      && b[t + 8..t + 16] == s2
      && b[t + 16..t + 24] == s3
  {
    assert b == x + (y + (s1 + (s2 + (s3 + (s4 + rest)))));
  }

  lemma BlockFields(b: seq<byte>, head: seq<byte>, x: seq<byte>, y: seq<byte>, z: seq<byte>)
    requires b == head + (x + y + z)
    ensures b[|head|..|head| + |x|] == x
    ensures b[|head| + |x|..|head| + |x| + |y|] == y
    ensures b[|head| + |x| + |y|..] == z
  {
    assert b == head + (x + (y + z));
  }
}
