/**
 Per-column metadata of the columnar serde: the null set, the cumulative
 offset array of variable-sized values, the hash index used to find an
 already stored value, and the dictionary linking a row to the row that
 holds its value.

 The null set is a 32-bit Roaring bitmap (a set of uint32), so every index
 stored in it or looked up in it is truncated to 32 bits; dictionary keys
 and targets are uint32 too. Offset entries are 64-bit and wrap.
 */
module TypeMeta {
  import opened Common
  import opened Kinds

  /** The largest index value, returned by `Find` when nothing matches. */
  const INVALID_INDEX: nat := TWO_64 - 1

  /** One entry of the hash index: a value hash and the row index holding the value. */
  datatype HashEntry = HashEntry(hash: nat, index: nat)

  /**
   `offsetSize` is present only for non-scalar kinds, `hashItems` only while
   the dictionary is being built (until `Seal`), `dict` only for columns with
   a dictionary. Hash entries are kept as a sequence, oldest first. The hash
   index is a multimap, whose order among equal keys the C++ standard leaves
   open; the model fixes one visiting order for an equal-hash lookup, the
   oldest entry first.
   */
  datatype Meta = Meta(
    offsetSize: Option<seq<nat>>,
    hashItems: Option<seq<HashEntry>>,
    dict: Option<map<uint32, uint32>>,
    hasDefault: bool,
    nulls: set<uint32>)

  /** A cumulative offset array: never empty, every entry a 64-bit value. */
  predicate OffsetArray(a: seq<nat>) {
    |a| >= 1 && forall k :: 0 <= k < |a| ==> a[k] < TWO_64
  }

  predicate Nondecreasing(a: seq<nat>) {
    forall i, j :: 0 <= i <= j < |a| ==> a[i] <= a[j]
  }

  function NewMeta(kind: Kind, column: Column): (m: Meta)
    ensures m.offsetSize.None? <==> IsScalar(kind)
    ensures m.offsetSize.Some? ==> m.offsetSize.value == [0]
    ensures m.hashItems.Some? <==> column.withDict
    ensures m.dict.Some? <==> column.withDict
    ensures m.hashItems.Some? ==> m.hashItems.value == []
    ensures m.dict.Some? ==> m.dict.value == map[]
    ensures m.hasDefault <==> |column.defaultValue| > 0
    ensures m.nulls == {}
  {
    Meta(
      if IsScalar(kind) then None else Some([0]),
      if column.withDict then Some([]) else None,
      if column.withDict then Some(map[]) else None,
      |column.defaultValue| > 0,
      {})
  }

  function HasDict(m: Meta): bool {
    m.dict.Some?
  }

  function HasDefault(m: Meta): bool {
    m.hasDefault
  }

  // ---------------------------------------------------------------------------
  // Nulls

  function SetNull(m: Meta, index: nat): (r: Meta)
    ensures r.nulls == m.nulls + {ToUint32(index)}
    ensures r.(nulls := m.nulls) == m
  {
    m.(nulls := m.nulls + {ToUint32(index)})
  }

  /** A column with a default value is never reported null. */
  function IsNull(m: Meta, index: nat): (b: bool)
    ensures m.hasDefault ==> !b
    ensures !m.hasDefault ==> (b <==> ToUint32(index) in m.nulls)
  {
    if m.hasDefault then false else ToUint32(index) in m.nulls
  }

  /** A null that a default value masks. */
  function IsRealNull(m: Meta, index: nat): (b: bool)
    ensures b <==> m.hasDefault && ToUint32(index) in m.nulls
  {
    m.hasDefault && ToUint32(index) in m.nulls
  }

  /**
   After marking a row null, exactly one of the two null views reports it,
   depending on the default; rows differing by a multiple of 2^32 share the
   mark, since the bitmap stores uint32.
   */
  lemma SetNullThenQuery(m: Meta, index: nat, other: nat)
    requires ToUint32(other) == ToUint32(index)
    ensures IsNull(SetNull(m, index), other) <==> !m.hasDefault
    ensures IsRealNull(SetNull(m, index), other) <==> m.hasDefault
    ensures !(IsNull(SetNull(m, index), other) && IsRealNull(SetNull(m, index), other))
  {
  }

  /** The two null views never both hold, and a fresh column has no nulls. */
  lemma NullViewsExclusive(m: Meta, index: nat)
    ensures !(IsNull(m, index) && IsRealNull(m, index))
    ensures ToUint32(index) in m.nulls <==> IsNull(m, index) || IsRealNull(m, index)
  {
  }

  // ---------------------------------------------------------------------------
  // The cumulative offset array

  /**
   Records that row `index` has `items` items (or bytes). Rows skipped since
   the last call are holes: they get the previous total again, so their
   length reads as 0. The new total wraps at 2^64. A call for a row at or
   before the last recorded one just appends the new total.
   */
  function SetOffsetSize(m: Meta, index: nat, items: nat): (r: Meta)
    requires m.offsetSize.Some? && OffsetArray(m.offsetSize.value)
    requires index < SIZE_MAX && items < TWO_64
    ensures r.offsetSize == Some(AppendOffset(m.offsetSize.value, index, items))
    ensures r.(offsetSize := m.offsetSize) == m
  {
    m.(offsetSize := Some(AppendOffset(m.offsetSize.value, index, items)))
  }

  /** The offset array after `SetOffsetSize(index, items)`. */
  function AppendOffset(a: seq<nat>, index: nat, items: nat): (b: seq<nat>)
    requires OffsetArray(a)
    requires index < SIZE_MAX && items < TWO_64
    ensures OffsetArray(b)
    ensures |b| == (if index >= |a| then index + 2 else |a| + 1)
    ensures b[..|a|] == a
    ensures forall k :: |a| <= k < |b| - 1 ==> b[k] == a[|a| - 1]
    ensures b[|b| - 1] == (a[|a| - 1] + items) % TWO_64
    ensures a[|a| - 1] + items < TWO_64 ==> b[|b| - 1] == a[|a| - 1] + items
  {
    var last := a[|a| - 1];
    var holes := if index >= |a| then seq(index - |a| + 1, _ => last) else [];
    var b := a + holes + [(last + items) % TWO_64];
    assert b[..|a|] == a;
    b
  }

  /**
   Offset and length of row `index`: the entry at `index` and the difference
   to the next one, as 64-bit unsigned arithmetic. `None` when either read
   is out of range (the source throws).
   */
  function OffsetSizeDirect(m: Meta, index: nat): (r: Option<(nat, nat)>)
    requires m.offsetSize.Some? && OffsetArray(m.offsetSize.value)
    requires index < TWO_64
    ensures var a := m.offsetSize.value;
      r.Some? <==> index < |a| && (index + 1) % TWO_64 < |a|
    ensures r.Some? ==> r.value.0 < TWO_64 && r.value.1 < TWO_64
    ensures r.Some? && index + 1 < TWO_64 ==> var a := m.offsetSize.value;
      r.value.0 == a[index] && (a[index] <= a[index + 1] ==> r.value.1 == a[index + 1] - a[index])
  {
    var a := m.offsetSize.value;
    if index < |a| && (index + 1) % TWO_64 < |a| then
      Some((a[index], AsUnsigned64(a[(index + 1) % TWO_64] as int - a[index] as int)))
    else
      None
  }

  /** Offset and length of row `index`, following its dictionary link when it has one. */
  function OffsetSize(m: Meta, index: nat): (r: Option<(nat, nat)>)
    requires m.offsetSize.Some? && OffsetArray(m.offsetSize.value)
    requires index < TWO_64
    ensures m.dict.Some? && ToUint32(index) in m.dict.value ==>
      r == OffsetSizeDirect(m, m.dict.value[ToUint32(index)] as nat)
    ensures (m.dict.None? || ToUint32(index) !in m.dict.value) ==> r == OffsetSizeDirect(m, index)
  {
    if m.dict.Some? && ToUint32(index) in m.dict.value then
      OffsetSizeDirect(m, m.dict.value[ToUint32(index)] as nat)
    else
      OffsetSizeDirect(m, index)
  }

  /**
   When `index` is at or after the last recorded row, the rows skipped are
   holes of length 0 starting at the old total, row `index` starts at the old
   total with length `items` (when the total does not overflow), and every
   earlier row reads as before.
   */
  lemma SetOffsetSizeRows(m: Meta, index: nat, items: nat)
    requires m.offsetSize.Some? && OffsetArray(m.offsetSize.value)
    requires index < SIZE_MAX && items < TWO_64
    requires index + 1 >= |m.offsetSize.value|
    requires m.offsetSize.value[|m.offsetSize.value| - 1] + items < TWO_64
    ensures var r, a := SetOffsetSize(m, index, items), m.offsetSize.value;
      && |r.offsetSize.value| == index + 2
      && (forall k :: |a| - 1 <= k < index ==> OffsetSizeDirect(r, k) == Some((a[|a| - 1], 0)))
      && OffsetSizeDirect(r, index) == Some((a[|a| - 1], items))
      && (forall k :: 0 <= k < |a| - 1 ==> OffsetSizeDirect(r, k) == OffsetSizeDirect(m, k))
  {
    KeptRows(m, index, items);
    HoleRows(m, index, items);
    IndexRow(m, index, items);
  }

  /** The recorded row reads as a run of `items` starting at the previous total. */
  lemma IndexRow(m: Meta, index: nat, items: nat)
    requires m.offsetSize.Some? && OffsetArray(m.offsetSize.value)
    requires index < SIZE_MAX && items < TWO_64
    requires index + 1 >= |m.offsetSize.value|
    requires m.offsetSize.value[|m.offsetSize.value| - 1] + items < TWO_64
    ensures var a := m.offsetSize.value;
      OffsetSizeDirect(SetOffsetSize(m, index, items), index) == Some((a[|a| - 1], items))
  {
    var a, b := m.offsetSize.value, AppendOffset(m.offsetSize.value, index, items);
    assert b[index + 1] == a[|a| - 1] + items;
    assert b[index] == a[|a| - 1] by {
      if index < |a| { assert b[index] == b[..|a|][index]; }
    }
  }

  /** Rows recorded before the call read as they did. */
  lemma KeptRows(m: Meta, index: nat, items: nat)
    requires m.offsetSize.Some? && OffsetArray(m.offsetSize.value)
    requires index < SIZE_MAX && items < TWO_64
    requires index + 1 >= |m.offsetSize.value|
    ensures var a := m.offsetSize.value;
      forall k :: 0 <= k < |a| - 1 ==> OffsetSizeDirect(SetOffsetSize(m, index, items), k) == OffsetSizeDirect(m, k)
  {
    var r, a := SetOffsetSize(m, index, items), m.offsetSize.value;
    var b := AppendOffset(a, index, items);
    forall k | 0 <= k < |a| - 1
      ensures OffsetSizeDirect(r, k) == OffsetSizeDirect(m, k)
    {
      assert b[k] == b[..|a|][k] && b[k + 1] == b[..|a|][k + 1];
    }
  }

  /** Rows skipped by the call read as empty runs at the previous total. */
  lemma HoleRows(m: Meta, index: nat, items: nat)
    requires m.offsetSize.Some? && OffsetArray(m.offsetSize.value)
    requires index < SIZE_MAX && items < TWO_64
    requires index + 1 >= |m.offsetSize.value|
    ensures var a := m.offsetSize.value;
      forall k :: |a| - 1 <= k < index ==> OffsetSizeDirect(SetOffsetSize(m, index, items), k) == Some((a[|a| - 1], 0))
  {
    var r, a := SetOffsetSize(m, index, items), m.offsetSize.value;
    var b := AppendOffset(a, index, items);
    var last := a[|a| - 1];
    forall k | |a| - 1 <= k < index
      ensures OffsetSizeDirect(r, k) == Some((last, 0))
    {
      assert b[k] == last && b[k + 1] == last by {
        if k < |a| { assert b[k] == b[..|a|][k]; }
      }
    }
  }

  /** Recording rows in order keeps the array nondecreasing while the total does not overflow. */
  lemma SetOffsetSizeMonotone(m: Meta, index: nat, items: nat)
    requires m.offsetSize.Some? && OffsetArray(m.offsetSize.value)
    requires Nondecreasing(m.offsetSize.value)
    requires index < SIZE_MAX && items < TWO_64
    requires m.offsetSize.value[|m.offsetSize.value| - 1] + items < TWO_64
    ensures Nondecreasing(SetOffsetSize(m, index, items).offsetSize.value)
  {
    var a, b := m.offsetSize.value, SetOffsetSize(m, index, items).offsetSize.value;
    var last := a[|a| - 1];
    assert forall k :: 0 <= k < |b| ==> b[k] <= last + items by {
      forall k | 0 <= k < |b| ensures b[k] <= last + items {
        if k < |a| { assert b[k] == a[k]; }
      }
    }
    forall i, j | 0 <= i <= j < |b| ensures b[i] <= b[j] {
      if j < |a| {
        assert b[i] == a[i] && b[j] == a[j];
      } else if i < |a| {
        assert b[i] == a[i] && a[i] <= last;
      }
    }
  }

  /** The array `[0, s0, s0+s1, ...]` of running totals of `sizes`. */
  function PrefixSums(sizes: seq<nat>): (a: seq<nat>)
    ensures |a| == |sizes| + 1
  {
    if |sizes| == 0 then [0]
    else var p := PrefixSums(sizes[..|sizes| - 1]); p + [p[|p| - 1] + sizes[|sizes| - 1]]
  }

  function Sum(sizes: seq<nat>): nat {
    if |sizes| == 0 then 0 else Sum(sizes[..|sizes| - 1]) + sizes[|sizes| - 1]
  }

  /** The running totals start at 0, end at the sum, and each row reads back its own size. */
  lemma {:induction false} PrefixSumsShape(sizes: seq<nat>)
    ensures PrefixSums(sizes)[0] == 0
    ensures PrefixSums(sizes)[|sizes|] == Sum(sizes)
    ensures Nondecreasing(PrefixSums(sizes))
    ensures forall i :: 0 <= i < |sizes| ==> PrefixSums(sizes)[i + 1] - PrefixSums(sizes)[i] == sizes[i]
  {
    if |sizes| > 0 {
      var s := sizes[..|sizes| - 1];
      PrefixSumsShape(s);
      var p := PrefixSums(s);
      assert PrefixSums(sizes) == p + [p[|p| - 1] + sizes[|sizes| - 1]];
      forall i | 0 <= i < |sizes| - 1
        ensures PrefixSums(sizes)[i + 1] - PrefixSums(sizes)[i] == sizes[i]
      {
        assert s[i] == sizes[i];
      }
    }
  }

  /** The metadata after recording the sizes of rows 0 .. |sizes|-1 one after the other. */
  function Fill(m: Meta, sizes: seq<nat>): (r: Meta)
    requires m.offsetSize.Some? && OffsetArray(m.offsetSize.value)
    requires |sizes| < SIZE_MAX && forall k :: 0 <= k < |sizes| ==> sizes[k] < TWO_64
    ensures r.offsetSize.Some? && OffsetArray(r.offsetSize.value)
  {
    if |sizes| == 0 then m
    else SetOffsetSize(Fill(m, sizes[..|sizes| - 1]), |sizes| - 1, sizes[|sizes| - 1])
  }

  /**
   Recording every row in order from a fresh array yields the running totals:
   the last entry is the total item count and each row reads back its size.
   */
  lemma {:induction false} FillPrefixSums(m: Meta, sizes: seq<nat>)
    requires m.offsetSize == Some([0])
    requires |sizes| < SIZE_MAX && forall k :: 0 <= k < |sizes| ==> sizes[k] < TWO_64
    requires Sum(sizes) < TWO_64
    ensures Fill(m, sizes).offsetSize.value == PrefixSums(sizes)
    ensures Fill(m, sizes).offsetSize.value[|sizes|] == Sum(sizes)
  {
    PrefixSumsShape(sizes);
    if |sizes| > 0 {
      var s := sizes[..|sizes| - 1];
      SumPrefix(sizes);
      FillPrefixSums(m, s);
      var f := Fill(m, s);
      var a := f.offsetSize.value;
      assert a == PrefixSums(s);
      assert a[|a| - 1] == Sum(s);
      var b := Fill(m, sizes).offsetSize.value;
      assert |b| == |a| + 1;
      assert b[..|a|] == a;
      assert b == a + [b[|a|]];
    }
  }

  lemma SumPrefix(sizes: seq<nat>)
    requires |sizes| > 0
    ensures Sum(sizes[..|sizes| - 1]) <= Sum(sizes)
    ensures Sum(sizes) == Sum(sizes[..|sizes| - 1]) + sizes[|sizes| - 1]
  {
  }

  /** The documented example: totals 0,5,6,6,8,14,20 give rows of 5,1,0,2,6,6 items. */
  lemma DocumentedExample(m: Meta)
    requires m.offsetSize == Some([0, 5, 6, 6, 8, 14, 20])
    ensures OffsetSizeDirect(m, 0) == Some((0, 5))
    ensures OffsetSizeDirect(m, 1) == Some((5, 1))
    ensures OffsetSizeDirect(m, 2) == Some((6, 0))
    ensures OffsetSizeDirect(m, 3) == Some((6, 2))
    ensures OffsetSizeDirect(m, 4) == Some((8, 6))
    ensures OffsetSizeDirect(m, 5) == Some((14, 6))
    ensures OffsetSizeDirect(m, 6).None?
    ensures m.offsetSize == Some(PrefixSums([5, 1, 0, 2, 6, 6]))
  {
    assert [5, 1, 0, 2, 6, 6][..5] == [5, 1, 0, 2, 6];
    assert [5, 1, 0, 2, 6][..4] == [5, 1, 0, 2];
    assert [5, 1, 0, 2][..3] == [5, 1, 0];
    assert [5, 1, 0][..2] == [5, 1];
    assert [5, 1][..1] == [5];
    assert [5][..0] == [];
    assert PrefixSums([]) == [0];
    assert PrefixSums([5]) == [0, 5];
    assert PrefixSums([5, 1]) == [0, 5, 6];
    assert PrefixSums([5, 1, 0]) == [0, 5, 6, 6];
    assert PrefixSums([5, 1, 0, 2]) == [0, 5, 6, 6, 8];
    assert PrefixSums([5, 1, 0, 2, 6]) == [0, 5, 6, 6, 8, 14];
    assert PrefixSums([5, 1, 0, 2, 6, 6]) == [0, 5, 6, 6, 8, 14, 20];
  }

  // ---------------------------------------------------------------------------
  // Dictionary

  /** Reads `length` bytes at `offset` of a store's byte slice; `None` when out of range. */
  function ReadSlice(data: seq<byte>, offset: nat, length: nat): (r: Option<seq<byte>>)
    ensures r.Some? <==> offset + length <= |data|
    ensures r.Some? ==> |r.value| == length
  {
    if offset + length <= |data| then Some(data[offset..offset + length]) else None
  }

  /** The bytes stored for row `index`, or `None` when its offsets or bytes cannot be read. */
  function StoredValue(offs: seq<nat>, data: seq<byte>, index: nat): (r: Option<seq<byte>>)
    requires OffsetArray(offs)
  {
    if index >= TWO_64 then None
    else
      match OffsetSizeDirect(Meta(Some(offs), None, None, false, {}), index)
      case None => None
      case Some(os) => ReadSlice(data, os.0, os.1)
  }

  /**
   The first entry, in insertion order, recorded under `hash` whose stored
   bytes equal `val`; `INVALID_INDEX` when none does; `None` when an entry
   visited before any match cannot be read.
   */
  function FindIn(entries: seq<HashEntry>, offs: seq<nat>, hash: nat, val: seq<byte>, data: seq<byte>): (r: Option<nat>)
    requires OffsetArray(offs)
  {
    if |entries| == 0 then Some(INVALID_INDEX)
    else
      var e := entries[0];
      if e.hash != hash then FindIn(entries[1..], offs, hash, val, data)
      else
        match StoredValue(offs, data, e.index)
        case None => None
        case Some(s) => if s == val then Some(e.index) else FindIn(entries[1..], offs, hash, val, data)
  }

  function Find(m: Meta, hash: nat, val: seq<byte>, data: seq<byte>): (r: Option<nat>)
    requires m.hashItems.Some?
    requires m.offsetSize.Some? && OffsetArray(m.offsetSize.value)
  {
    FindIn(m.hashItems.value, m.offsetSize.value, hash, val, data)
  }

  /** Entry `k` is recorded under `hash` and its stored bytes are `val`. */
  predicate Matches(entries: seq<HashEntry>, k: nat, offs: seq<nat>, hash: nat, val: seq<byte>, data: seq<byte>)
    requires OffsetArray(offs)
    requires k < |entries|
  {
    entries[k].hash == hash && StoredValue(offs, data, entries[k].index) == Some(val)
  }

  /** Every entry recorded under `hash` has readable bytes. */
  predicate Readable(entries: seq<HashEntry>, offs: seq<nat>, hash: nat, data: seq<byte>)
    requires OffsetArray(offs)
  {
    forall k :: 0 <= k < |entries| && entries[k].hash == hash ==> StoredValue(offs, data, entries[k].index).Some?
  }

  /**
   A found index belongs to the first matching entry; with every entry
   readable the lookup does not fail, and it reports `INVALID_INDEX` exactly
   when no entry matches (readable rows are below `INVALID_INDEX` once the
   array is shorter than 2^64).
   */
  lemma {:induction false} FindInSpec(entries: seq<HashEntry>, offs: seq<nat>, hash: nat, val: seq<byte>, data: seq<byte>)
    requires OffsetArray(offs) && |offs| < TWO_64
    ensures var r := FindIn(entries, offs, hash, val, data);
      && (r.Some? && r.value != INVALID_INDEX ==>
            exists k :: 0 <= k < |entries| && entries[k].index == r.value
              && Matches(entries, k, offs, hash, val, data)
              && forall j :: 0 <= j < k ==> !Matches(entries, j, offs, hash, val, data))
      && (Readable(entries, offs, hash, data) ==> r.Some?)
      && (Readable(entries, offs, hash, data) ==>
            (r == Some(INVALID_INDEX) <==> forall k :: 0 <= k < |entries| ==> !Matches(entries, k, offs, hash, val, data)))
  {
    if |entries| > 0 {
      var rest := entries[1..];
      FindInSpec(rest, offs, hash, val, data);
      var r := FindIn(entries, offs, hash, val, data);
      var e := entries[0];
      forall k | 0 <= k < |rest|
        ensures Matches(rest, k, offs, hash, val, data) == Matches(entries, k + 1, offs, hash, val, data)
      {
        assert rest[k] == entries[k + 1];
      }
      if Readable(entries, offs, hash, data) {
        forall k | 0 <= k < |rest| && rest[k].hash == hash
          ensures StoredValue(offs, data, rest[k].index).Some?
        {
          assert rest[k] == entries[k + 1];
        }
        assert Readable(rest, offs, hash, data);
      }
      if Matches(entries, 0, offs, hash, val, data) {
        assert r == Some(e.index);
        assert e.index < INVALID_INDEX;
      } else {
        if Readable(entries, offs, hash, data) {
          assert e.hash == hash ==> StoredValue(offs, data, e.index).Some?;
          assert r == FindIn(rest, offs, hash, val, data);
          if forall k :: 0 <= k < |rest| ==> !Matches(rest, k, offs, hash, val, data) {
            forall k | 0 <= k < |entries| ensures !Matches(entries, k, offs, hash, val, data) {
              if k > 0 { assert !Matches(rest, k - 1, offs, hash, val, data); }
            }
          }
        }
      }
      if !Matches(entries, 0, offs, hash, val, data) && r.Some? && r.value != INVALID_INDEX {
        var k :| 0 <= k < |rest| && rest[k].index == r.value
          && Matches(rest, k, offs, hash, val, data)
          && forall j :: 0 <= j < k ==> !Matches(rest, j, offs, hash, val, data);
        assert entries[k + 1].index == r.value;
        forall j | 0 <= j < k + 1 ensures !Matches(entries, j, offs, hash, val, data) {
          if j > 0 { assert !Matches(rest, j - 1, offs, hash, val, data); }
        }
      }
    }
  }

  /** Links row `index` to row `target`, both truncated to uint32; an existing link is kept. */
  function Link(m: Meta, index: nat, target: nat): (r: Meta)
    requires m.dict.Some?
    ensures r.dict.Some? && r.(dict := m.dict) == m
    ensures ToUint32(index) in m.dict.value ==> r == m
    ensures ToUint32(index) !in m.dict.value ==> r.dict.value == m.dict.value[ToUint32(index) := ToUint32(target)]
  {
    if ToUint32(index) in m.dict.value then m
    else m.(dict := Some(m.dict.value[ToUint32(index) := ToUint32(target)]))
  }

  /** Appends `(hash, index)` to the hash index, after every earlier entry. */
  function Record(m: Meta, hash: nat, index: nat): (r: Meta)
    requires m.hashItems.Some?
    ensures r.hashItems.Some? && r.(hashItems := m.hashItems) == m
    ensures r.hashItems.value == m.hashItems.value + [HashEntry(hash, index)]
  {
    m.(hashItems := Some(m.hashItems.value + [HashEntry(hash, index)]))
  }

  /** Releases the hash index; links, offsets and nulls stay. */
  function Seal(m: Meta): (r: Meta)
    ensures r.hashItems.None?
    ensures r.(hashItems := m.hashItems) == m
  {
    m.(hashItems := None)
  }

  /**
   A fresh link makes every row with the same 32-bit index read the target's
   offset and size; other rows read as before. A second link for the same
   row changes nothing.
   */
  lemma LinkThenOffsetSize(m: Meta, index: nat, target: nat, other: nat)
    requires m.dict.Some? && m.offsetSize.Some? && OffsetArray(m.offsetSize.value)
    requires ToUint32(index) !in m.dict.value
    requires other < TWO_64
    ensures ToUint32(other) == ToUint32(index) ==>
      OffsetSize(Link(m, index, target), other) == OffsetSizeDirect(m, Low32(target))
    ensures ToUint32(other) != ToUint32(index) ==>
      OffsetSize(Link(m, index, target), other) == OffsetSize(m, other)
    ensures forall t :: Link(Link(m, index, target), index, t) == Link(m, index, target)
  {
  }

  /**
   Recording keeps earlier answers: a value already found is still found at
   the same index, and a value that was missing is found at the new entry
   when the new entry holds it.
   */
  lemma RecordThenFind(m: Meta, hash: nat, index: nat, val: seq<byte>, data: seq<byte>)
    requires m.hashItems.Some? && m.offsetSize.Some? && OffsetArray(m.offsetSize.value)
    requires |m.offsetSize.value| < TWO_64
    requires Find(m, hash, val, data).Some?
    ensures var before, after := Find(m, hash, val, data), Find(Record(m, hash, index), hash, val, data);
      && (before.value != INVALID_INDEX ==> after == before)
      && (before.value == INVALID_INDEX && StoredValue(m.offsetSize.value, data, index) == Some(val) ==>
            after == Some(index))
  {
    FindInAppend(m.hashItems.value, m.offsetSize.value, hash, index, val, data);
  }

  lemma {:induction false} FindInAppend(entries: seq<HashEntry>, offs: seq<nat>, hash: nat, index: nat, val: seq<byte>, data: seq<byte>)
    requires OffsetArray(offs) && |offs| < TWO_64
    requires FindIn(entries, offs, hash, val, data).Some?
    ensures var before := FindIn(entries, offs, hash, val, data);
      var after := FindIn(entries + [HashEntry(hash, index)], offs, hash, val, data);
      && (before.value != INVALID_INDEX ==> after == before)
      && (before.value == INVALID_INDEX ==> after == FindIn([HashEntry(hash, index)], offs, hash, val, data))
  {
    var all := entries + [HashEntry(hash, index)];
    if |entries| > 0 {
      assert all[0] == entries[0];
      assert all[1..] == entries[1..] + [HashEntry(hash, index)];
      var e := entries[0];
      if e.hash == hash && StoredValue(offs, data, e.index) == Some(val) {
      } else {
        FindInAppend(entries[1..], offs, hash, index, val, data);
      }
    } else {
      assert all == [HashEntry(hash, index)];
    }
  }

  /** Sealing keeps the dictionary and therefore every offset lookup. */
  lemma SealKeepsLookups(m: Meta, index: nat)
    requires m.offsetSize.Some? && OffsetArray(m.offsetSize.value)
    requires index < TWO_64
    ensures HasDict(Seal(m)) == HasDict(m)
    ensures OffsetSize(Seal(m), index) == OffsetSize(m, index)
    ensures IsNull(Seal(m), index) == IsNull(m, index)
  {
  }

  /** A fresh column: a dictionary exactly when configured, no nulls, nothing to find. */
  lemma NewMetaState(kind: Kind, column: Column, index: nat, hash: nat, val: seq<byte>, data: seq<byte>)
    ensures HasDict(NewMeta(kind, column)) <==> column.withDict
    ensures HasDefault(NewMeta(kind, column)) <==> |column.defaultValue| > 0
    ensures !IsNull(NewMeta(kind, column), index) && !IsRealNull(NewMeta(kind, column), index)
    ensures !IsScalar(kind) && index < TWO_64 ==> OffsetSizeDirect(NewMeta(kind, column), index).None?
    ensures !IsScalar(kind) && column.withDict ==> Find(NewMeta(kind, column), hash, val, data) == Some(INVALID_INDEX)
  {
  }
}
