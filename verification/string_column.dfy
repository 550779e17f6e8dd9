/**
 A string column written through its store and its metadata: a non-null
 value appends its bytes to the string store and records its length in the
 offset array; a null marks the row null and writes zero bytes, leaving a
 hole the next value fills. The column is then read back through
 `OffsetSizeDirect` and the store's bytes.
 */
module StringColumn {
  import opened Common
  import opened Kinds
  import opened TypeMeta
  import opened TypeStore

  /** A row of a string column: `None` is a null. */
  type Row = Option<seq<byte>>

  /** The bytes a row contributes to the store. */
  function Bytes(r: Row): seq<byte> {
    match r
    case None => []
    case Some(v) => v
  }

  /** All the bytes the rows contribute, in row order. */
  function Concat(rows: seq<Row>): (c: seq<byte>)
  {
    if |rows| == 0 then [] else Concat(rows[..|rows| - 1]) + Bytes(rows[|rows| - 1])
  }

  /** The uint32 keys of the null rows. */
  function NullKeys(rows: seq<Row>): set<uint32>
  {
    if |rows| == 0 then {}
    else NullKeys(rows[..|rows| - 1]) + (if rows[|rows| - 1].None? then {ToUint32(|rows| - 1)} else {})
  }

  /** Rows that a column can hold: fewer than 2^64 - 1 of them, fewer than 2^64 bytes in all. */
  predicate Writable(rows: seq<Row>) {
    |rows| < SIZE_MAX && |Concat(rows)| < TWO_64
  }

  /** A column's metadata and its string store. */
  datatype ColumnState = ColumnState(meta: Meta, store: Store)

  predicate StateOk(st: ColumnState) {
    && st.meta.offsetSize.Some? && OffsetArray(st.meta.offsetSize.value)
    && st.store.kind == VARCHAR
  }

  /** Writes row `index`. */
  function WriteRow(st: ColumnState, index: nat, row: Row): (r: ColumnState)
    requires StateOk(st)
    requires index < SIZE_MAX
    requires row.Some? ==> |row.value| < TWO_64
    ensures StateOk(r)
  {
    match row
    case None => ColumnState(SetNull(st.meta, index), StringAddVoid(st.store))
    case Some(v) => ColumnState(SetOffsetSize(st.meta, index, |v|), StringAdd(st.store, v))
  }

  /** Writes rows 0 .. |rows|-1 in order into a fresh column. */
  function WriteAll(start: ColumnState, rows: seq<Row>): (r: ColumnState)
    requires StateOk(start)
    requires Writable(rows)
    ensures StateOk(r)
  {
    if |rows| == 0 then start
    else
      var p := rows[..|rows| - 1];
      ConcatPrefix(rows);
      WriteRow(WriteAll(start, p), |rows| - 1, rows[|rows| - 1])
  }

  lemma ConcatPrefix(rows: seq<Row>)
    requires |rows| > 0
    ensures |Concat(rows[..|rows| - 1])| + |Bytes(rows[|rows| - 1])| == |Concat(rows)|
  {
  }

  /** The store's bytes are the concatenation of two row ranges' bytes. */
  lemma {:induction false} ConcatAppend(x: seq<Row>, y: seq<Row>)
    ensures Concat(x + y) == Concat(x) + Concat(y)
    decreases |y|
  {
    if |y| == 0 {
      assert x + y == x;
    } else {
      var y', last := y[..|y| - 1], y[|y| - 1];
      assert (x + y)[..|x + y| - 1] == x + y';
      assert (x + y)[|x + y| - 1] == last;
      ConcatAppend(x, y');
      assert Concat(x + y) == Concat(x + y') + Bytes(last);
      assert Concat(y) == Concat(y') + Bytes(last);
    }
  }

  /** Row `i`'s bytes sit right after those of the rows before it. */
  lemma ConcatAt(rows: seq<Row>, i: nat)
    requires i < |rows|
    ensures Concat(rows[..i + 1]) == Concat(rows[..i]) + Bytes(rows[i])
    ensures |Concat(rows[..i + 1])| <= |Concat(rows)|
    ensures Concat(rows)[|Concat(rows[..i])|..|Concat(rows[..i + 1])|] == Bytes(rows[i])
  {
    assert rows[..i + 1][..i] == rows[..i];
    assert rows == rows[..i + 1] + rows[i + 1..];
    ConcatAppend(rows[..i + 1], rows[i + 1..]);
  }

  /** Null rows contribute no bytes. */
  lemma {:induction false} NullRunLength(rows: seq<Row>, lo: nat, hi: nat)
    requires lo <= hi <= |rows|
    requires forall j :: lo <= j < hi ==> rows[j].None?
    ensures Concat(rows[..hi]) == Concat(rows[..lo])
    decreases hi - lo
  {
    if lo < hi {
      NullRunLength(rows, lo, hi - 1);
      assert rows[..hi][..hi - 1] == rows[..hi - 1];
    }
  }

  /**
   The state after writing `rows`: the store holds their bytes in order;
   entry `k` of the offset array is the byte count of the rows before `k`;
   the array ends at the last non-null row, so the rows past it are nulls;
   and the null set gained exactly the null rows.
   */
  predicate Written(start: ColumnState, rows: seq<Row>, st: ColumnState)
    requires StateOk(st)
  {
    && st.store.bytes == start.store.bytes + Concat(rows)
    && RunningTotals(rows, st.meta.offsetSize.value)
    && st.meta.nulls == start.meta.nulls + NullKeys(rows)
    && st.meta.hasDefault == start.meta.hasDefault
  }

  /**
   Entry `k` of `a` is the byte count of the rows before `k`, and the rows
   past the last entry are nulls.
   */
  predicate RunningTotals(rows: seq<Row>, a: seq<nat>) {
    && 1 <= |a| <= |rows| + 1
    && (forall k :: 0 <= k < |a| ==> a[k] == |Concat(rows[..k])|)
    && (forall j :: |a| - 1 <= j < |rows| ==> rows[j].None?)
  }

  /** A fresh string column: metadata and store as the column setup makes them. */
  function Fresh(column: Column, batchSize: nat): (st: ColumnState)
    ensures StateOk(st)
    ensures st.meta.offsetSize == Some([0]) && st.store.bytes == [] && st.meta.nulls == {}
  {
    ColumnState(NewMeta(VARCHAR, column), NewStore(VARCHAR, column, batchSize, _ => VoidV, {}))
  }

  lemma WriteNullStep(start: ColumnState, rows: seq<Row>, st: ColumnState)
    requires StateOk(start) && StateOk(st) && |rows| > 0 && |rows| < SIZE_MAX
    requires rows[|rows| - 1].None?
    requires Written(start, rows[..|rows| - 1], st)
    ensures Written(start, rows, WriteRow(st, |rows| - 1, None))
  {
    var p := rows[..|rows| - 1];
    var a := st.meta.offsetSize.value;
    assert RunningTotals(p, a);
    forall k | 0 <= k < |a| ensures a[k] == |Concat(rows[..k])| {
      assert rows[..k] == p[..k];
    }
    assert Concat(rows) == Concat(p) + [];
  }

  lemma WriteValueStep(start: ColumnState, rows: seq<Row>, st: ColumnState, v: seq<byte>)
    requires StateOk(start) && StateOk(st) && Writable(rows) && |rows| > 0
    requires rows[|rows| - 1] == Some(v)
    requires Written(start, rows[..|rows| - 1], st)
    ensures |v| < TWO_64
    ensures Written(start, rows, WriteRow(st, |rows| - 1, Some(v)))
  {
    ConcatPrefix(rows);
    var r := WriteRow(st, |rows| - 1, Some(v));
    assert r.meta == SetOffsetSize(st.meta, |rows| - 1, |v|);
    assert r.store.bytes == st.store.bytes + v;
    ValueWritten(start, rows, st, r, v);
  }

  /** The written-state facts for a value row, over the state's parts. */
  lemma ValueWritten(start: ColumnState, rows: seq<Row>, st: ColumnState, r: ColumnState, v: seq<byte>)
    requires StateOk(st) && StateOk(r) && Writable(rows) && |rows| > 0
    requires rows[|rows| - 1] == Some(v) && |v| < TWO_64
    requires Written(start, rows[..|rows| - 1], st)
    requires r.meta.offsetSize == Some(AppendOffset(st.meta.offsetSize.value, |rows| - 1, |v|))
    requires r.store.bytes == st.store.bytes + v
    requires r.meta.nulls == st.meta.nulls && r.meta.hasDefault == st.meta.hasDefault
    ensures Written(start, rows, r)
  {
    var p := rows[..|rows| - 1];
    assert r.store.bytes == start.store.bytes + Concat(rows) by {
      assert Concat(rows) == Concat(p) + v;
    }
    assert RunningTotals(rows, r.meta.offsetSize.value) by {
      ValueOffsets(rows, st.meta.offsetSize.value, v);
    }
    assert r.meta.nulls == start.meta.nulls + NullKeys(rows) by {
      assert NullKeys(rows) == NullKeys(p);
    }
  }

  /** Recording a value row's length keeps the running totals. */
  lemma ValueOffsets(rows: seq<Row>, a: seq<nat>, v: seq<byte>)
    requires |rows| > 0 && rows[|rows| - 1] == Some(v) && Writable(rows)
    requires OffsetArray(a) && RunningTotals(rows[..|rows| - 1], a)
    ensures |v| < TWO_64
    ensures RunningTotals(rows, AppendOffset(a, |rows| - 1, |v|))
  {
    var n := |rows|;
    var p := rows[..n - 1];
    ConcatPrefix(rows);
    var last := a[|a| - 1];
    NullRunLength(p, |a| - 1, |p|);
    assert p[..|p|] == p;
    assert last + |v| == |Concat(rows)|;
    var b := AppendOffset(a, n - 1, |v|);
    forall k | 0 <= k < |b| ensures b[k] == |Concat(rows[..k])| {
      ValueStepEntry(rows, a, b, k);
    }
  }

  /** One entry of the offset array after a value row: old entries, hole entries, and the new total. */
  lemma ValueStepEntry(rows: seq<Row>, a: seq<nat>, b: seq<nat>, k: nat)
    requires |rows| > 0 && 1 <= |a| <= |rows| && |b| == |rows| + 1 && k < |b|
    requires forall j :: 0 <= j < |a| ==> a[j] == |Concat(rows[..|rows| - 1][..j])|
    requires forall j :: |a| - 1 <= j < |rows| - 1 ==> rows[j].None?
    requires b[..|a|] == a
    requires forall j :: |a| <= j < |b| - 1 ==> b[j] == a[|a| - 1]
    requires b[|b| - 1] == |Concat(rows)|
    ensures b[k] == |Concat(rows[..k])|
  {
    var p := rows[..|rows| - 1];
    if k < |a| {
      assert b[k] == a[k];
      assert rows[..k] == p[..k];
    } else if k < |rows| {
      assert b[k] == a[|a| - 1];
      assert rows[..k] == p[..k];
      NullRunLength(p, |a| - 1, k);
    } else {
      assert rows[..k] == rows;
    }
  }

  /** Writing rows in order from a fresh column keeps `Written`. */
  lemma {:induction false} WriteAllWritten(start: ColumnState, rows: seq<Row>)
    requires StateOk(start) && Writable(rows)
    requires start.meta.offsetSize == Some([0]) && start.store.bytes == []
    ensures Written(start, rows, WriteAll(start, rows))
  {
    if |rows| == 0 {
      assert rows[..0] == [];
    } else {
      var p := rows[..|rows| - 1];
      ConcatPrefix(rows);
      WriteAllWritten(start, p);
      var st := WriteAll(start, p);
      match rows[|rows| - 1]
      case None => WriteNullStep(start, rows, st);
      case Some(v) => WriteValueStep(start, rows, st, v);
    }
  }

  /**
   Reading a written string column: every non-null row's bytes are exactly
   the store bytes at the row's offset and length; a null row followed by a
   later value is a hole of length 0; every null row is reported null
   unless the column has a default, in which case it is a masked null.
   */
  lemma StringColumnRoundTrip(column: Column, batchSize: nat, rows: seq<Row>, i: nat)
    requires Writable(rows) && i < |rows|
    ensures var st := WriteAll(Fresh(column, batchSize), rows);
      && (rows[i].Some? ==> StoredValue(st.meta.offsetSize.value, st.store.bytes, i) == Some(rows[i].value))
      && (rows[i].Some? ==> OffsetSizeDirect(st.meta, i) == Some((|Concat(rows[..i])|, |rows[i].value|)))
      && (rows[i].None? && i + 1 < |st.meta.offsetSize.value| ==>
            StoredValue(st.meta.offsetSize.value, st.store.bytes, i) == Some([]))
      && (rows[i].None? ==> (IsNull(st.meta, i) <==> |column.defaultValue| == 0))
      && (rows[i].None? ==> (IsRealNull(st.meta, i) <==> |column.defaultValue| > 0))
      && (rows[i].Some? && |rows| <= TWO_32 ==> !IsNull(st.meta, i) && !IsRealNull(st.meta, i))
      && Size(st.store) == |Concat(rows)|
  {
    var start := Fresh(column, batchSize);
    WriteAllWritten(start, rows);
    var st := WriteAll(start, rows);
    var a := st.meta.offsetSize.value;
    NullKeyOf(rows, i);
    if ToUint32(i) in NullKeys(rows) && |rows| <= TWO_32 {
      var j := NullKeySource(rows, ToUint32(i));
      assert Low32(j) == j && Low32(i) == i;
    }
    assert st.store.bytes == Concat(rows);
    if i + 1 < |a| {
      ConcatAt(rows, i);
      ReadBack(a, st.meta, st.store.bytes, i, Bytes(rows[i]));
    } else if rows[i].Some? {
      assert false;
    }
  }

  /** Reading row `i` through an offset array whose entries `i` and `i + 1` delimit bytes `x`. */
  lemma ReadBack(a: seq<nat>, m: Meta, bytes: seq<byte>, i: nat, x: seq<byte>)
    requires m.offsetSize == Some(a) && OffsetArray(a)
    requires i + 1 < |a| && i < SIZE_MAX
    requires a[i] <= a[i + 1] <= |bytes| && bytes[a[i]..a[i + 1]] == x
    ensures OffsetSizeDirect(m, i) == Some((a[i], |x|))
    ensures StoredValue(a, bytes, i) == Some(x)
  {
    assert Meta(Some(a), None, None, false, {}).offsetSize == m.offsetSize;
  }

  /** A prefix's bytes are no more than all the bytes. */
  lemma ConcatPrefixLength(rows: seq<Row>, k: nat)
    requires k <= |rows|
    ensures |Concat(rows[..k])| <= |Concat(rows)|
  {
    assert rows == rows[..k] + rows[k..];
    ConcatAppend(rows[..k], rows[k..]);
  }

  /** A null row's key is in the null keys. */
  lemma {:induction false} NullKeyOf(rows: seq<Row>, i: nat)
    requires i < |rows|
    ensures rows[i].None? ==> ToUint32(i) in NullKeys(rows)
  {
    if i < |rows| - 1 {
      NullKeyOf(rows[..|rows| - 1], i);
    }
  }

  /** Every null key comes from a null row whose index truncates to it. */
  lemma {:induction false} NullKeySource(rows: seq<Row>, k: uint32) returns (j: nat)
    requires k in NullKeys(rows)
    ensures j < |rows| && rows[j].None? && ToUint32(j) == k
  {
    var p := rows[..|rows| - 1];
    if k in NullKeys(p) {
      j := NullKeySource(p, k);
      assert rows[j] == p[j];
    } else {
      j := |rows| - 1;
    }
  }

  /**
   Row indexes are kept as 32-bit keys, so past 2^32 rows a null row's key
   collides with an earlier row's: a value in row 0 is reported null when
   row 2^32 is null and the column has no default.
   */
  lemma NullKeyAliasing(column: Column, batchSize: nat, rows: seq<Row>)
    requires Writable(rows) && |rows| > TWO_32
    requires rows[0].Some? && rows[TWO_32].None? && |column.defaultValue| == 0
    ensures IsNull(WriteAll(Fresh(column, batchSize), rows).meta, 0)
  {
    WriteAllWritten(Fresh(column, batchSize), rows);
    NullKeyOf(rows, TWO_32);
  }
}
