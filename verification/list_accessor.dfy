/**
 Item offsets of a list stored in the list region of a flat row buffer.
 Every item starts with one header byte; a null item is that byte alone, a
 non-null item is the header followed by `width` value bytes. The accessor
 walks the headers once to find where each item starts.
 */
module ListAccess {
  import opened Common

  /** The null flag of an item header: bit 6, i.e. 0x40. */
  const HIGH6_1: nat := 64

  /** Whether a header byte marks a null item (bit 6 set; the sign bit is irrelevant). */
  predicate IsNullHeader(h: byte) {
    h as int % (2 * HIGH6_1) >= HIGH6_1
  }

  /** Bytes an item occupies, given its header. */
  function Step(h: byte, width: nat): (n: nat)
    ensures n >= 1
    ensures n == 1 <==> IsNullHeader(h) || width == 0
  {
    if IsNullHeader(h) then 1 else 1 + width
  }

  /**
   The walk of `k` items starting at relative offset `at` reads only bytes
   inside the buffer.
   */
  predicate Walkable(buf: seq<byte>, base: nat, width: nat, at: nat, k: nat)
    decreases k
  {
    k == 0 || (base + at < |buf| && Walkable(buf, base, width, at + Step(buf[base + at], width), k - 1))
  }

  /** `offs` is a walk: every listed item header is inside the buffer and each next offset steps over the previous item. */
  predicate IsWalk(buf: seq<byte>, base: nat, width: nat, offs: seq<nat>) {
    && (forall i :: 0 <= i < |offs| ==> base + offs[i] < |buf|)
    && (|offs| > 0 ==> offs[0] == 0)
    && (forall i :: 0 <= i < |offs| - 1 ==> offs[i + 1] == offs[i] + Step(buf[base + offs[i]], width))
  }

  /** Number of non-null items among the walked offsets. */
  function NonNullCount(buf: seq<byte>, base: nat, offs: seq<nat>): (c: nat)
    requires forall i :: 0 <= i < |offs| ==> base + offs[i] < |buf|
    ensures c <= |offs|
  {
    if |offs| == 0 then 0
    else NonNullCount(buf, base, offs[..|offs| - 1])
         + (if IsNullHeader(buf[base + offs[|offs| - 1]]) then 0 else 1)
  }

  /** Bytes the walked items occupy: the sum of their steps. */
  function Footprint(buf: seq<byte>, base: nat, width: nat, offs: seq<nat>): nat
    requires forall i :: 0 <= i < |offs| ==> base + offs[i] < |buf|
  {
    if |offs| == 0 then 0
    else Footprint(buf, base, width, offs[..|offs| - 1]) + Step(buf[base + offs[|offs| - 1]], width)
  }

  /** Every item takes its header byte; non-null items also take `width` value bytes. */
  lemma {:induction false} FootprintCount(buf: seq<byte>, base: nat, width: nat, offs: seq<nat>)
    requires forall i :: 0 <= i < |offs| ==> base + offs[i] < |buf|
    ensures Footprint(buf, base, width, offs) == |offs| + width * NonNullCount(buf, base, offs)
  {
    if |offs| > 0 {
      var init := offs[..|offs| - 1];
      FootprintCount(buf, base, width, init);
      var c := NonNullCount(buf, base, init);
      if !IsNullHeader(buf[base + offs[|offs| - 1]]) {
        MulSucc(width, c);
      }
    }
  }

  lemma MulSucc(w: nat, c: nat)
    ensures w * (c + 1) == w * c + w
  {
  }

  /**
   The accessor's constructor: the offset of each of the `items` items,
   and the end of the walk (the bytes the list occupies).
   */
  method ItemOffsets(buf: seq<byte>, base: nat, items: nat, width: nat) returns (offs: seq<nat>, end: nat)
    requires Walkable(buf, base, width, 0, items)
    ensures |offs| == items
    ensures IsWalk(buf, base, width, offs)
    ensures end == Footprint(buf, base, width, offs)
    ensures items > 0 ==> end == offs[items - 1] + Step(buf[base + offs[items - 1]], width)
  {
    offs := [];
    var itemOffset: nat := 0;
    var i := 0;
    while i < items
      invariant i <= items
      invariant WalkState(buf, base, width, items - i, offs, itemOffset)
      invariant |offs| == i
    {
      WalkStep(buf, base, width, items - i, offs, itemOffset);
      var header := buf[base + itemOffset];
      ghost var left := items - i - 1;
      offs := offs + [itemOffset];
      var next := itemOffset;
      if !IsNullHeader(header) {
        next := next + width;
      }
      next := next + 1;
      assert next == itemOffset + Step(header, width);
      itemOffset := next;
      i := i + 1;
      assert items - i == left;
    }
    end := itemOffset;
  }

  /**
   The walk's state with `left` items to go: the offsets found so far form
   a walk, the next offset follows the last one, and the rest of the list
   is walkable from it.
   */
  predicate WalkState(buf: seq<byte>, base: nat, width: nat, left: nat, offs: seq<nat>, next: nat) {
    && IsWalk(buf, base, width, offs)
    && Walkable(buf, base, width, next, left)
    && next == Footprint(buf, base, width, offs)
    && (|offs| > 0 ==> next == offs[|offs| - 1] + Step(buf[base + offs[|offs| - 1]], width))
    && (|offs| == 0 ==> next == 0)
  }

  /** Reading one more header keeps the walk's state. */
  lemma WalkStep(buf: seq<byte>, base: nat, width: nat, left: nat, offs: seq<nat>, next: nat)
    requires WalkState(buf, base, width, left, offs, next) && left > 0
    ensures base + next < |buf|
    ensures WalkState(buf, base, width, left - 1, offs + [next], next + Step(buf[base + next], width))
  {
    WalkExtend(buf, base, width, offs, next);
  }

  /** Appending the next header offset extends a walk and its footprint by one step. */
  lemma WalkExtend(buf: seq<byte>, base: nat, width: nat, offs: seq<nat>, x: nat)
    requires IsWalk(buf, base, width, offs)
    requires base + x < |buf|
    requires |offs| == 0 ==> x == 0
    requires |offs| > 0 ==> x == offs[|offs| - 1] + Step(buf[base + offs[|offs| - 1]], width)
    ensures IsWalk(buf, base, width, offs + [x])
    ensures Footprint(buf, base, width, offs + [x]) == Footprint(buf, base, width, offs) + Step(buf[base + x], width)
  {
    var o := offs + [x];
    forall i | 0 <= i < |o| ensures base + o[i] < |buf| {
      if i < |offs| {
        assert o[i] == offs[i];
      }
    }
    forall i | 0 <= i < |o| - 1 ensures o[i + 1] == o[i] + Step(buf[base + o[i]], width) {
      assert o[i] == offs[i];
      if i + 1 < |offs| {
        assert o[i + 1] == offs[i + 1];
      }
    }
    FootprintSnoc(buf, base, width, offs, x);
  }

  /** The footprint of one more offset adds that item's step. */
  lemma FootprintSnoc(buf: seq<byte>, base: nat, width: nat, offs: seq<nat>, x: nat)
    requires forall i :: 0 <= i < |offs| ==> base + offs[i] < |buf|
    requires base + x < |buf|
    ensures forall i :: 0 <= i < |offs + [x]| ==> base + (offs + [x])[i] < |buf|
    ensures Footprint(buf, base, width, offs + [x]) == Footprint(buf, base, width, offs) + Step(buf[base + x], width)
  {
    var o := offs + [x];
    assert o[..|offs|] == offs;
    forall i | 0 <= i < |o| ensures base + o[i] < |buf| {
      if i < |offs| {
        assert o[i] == offs[i];
      }
    }
  }

  /** Offsets of a walk strictly increase. */
  lemma {:induction false} WalkIncreasing(buf: seq<byte>, base: nat, width: nat, offs: seq<nat>, i: nat, j: nat)
    requires IsWalk(buf, base, width, offs)
    requires i < j < |offs|
    ensures offs[i] < offs[j]
    decreases j - i
  {
    if j > i + 1 {
      WalkIncreasing(buf, base, width, offs, i, j - 1);
    }
  }

  /** A walk is determined by the buffer: two walks of the same length are equal. */
  lemma WalkUnique(buf: seq<byte>, base: nat, width: nat, a: seq<nat>, b: seq<nat>)
    requires IsWalk(buf, base, width, a) && IsWalk(buf, base, width, b)
    requires |a| == |b|
    ensures a == b
  {
    forall i | 0 <= i < |a|
      ensures a[i] == b[i]
    {
      WalkAgree(buf, base, width, a, b, i);
    }
  }

  lemma {:induction false} WalkAgree(buf: seq<byte>, base: nat, width: nat, a: seq<nat>, b: seq<nat>, i: nat)
    requires IsWalk(buf, base, width, a) && IsWalk(buf, base, width, b)
    requires i < |a| && i < |b|
    ensures a[i] == b[i]
  {
    if i > 0 {
      WalkAgree(buf, base, width, a, b, i - 1);
    }
  }

  /** One list item as its writer lays it out. */
  datatype Item = NullItem | ValueItem(bytes: seq<byte>)

  predicate ItemFits(it: Item, width: nat) {
    it.ValueItem? ==> |it.bytes| == width
  }

  /** A null item is the header 0x40 alone; a value item is a clear header then its bytes. */
  function EncodeItem(it: Item): (r: seq<byte>)
    ensures |r| >= 1
  {
    match it
    case NullItem => [HIGH6_1 as byte]
    case ValueItem(bytes) => [0 as byte] + bytes
  }

  /** The header of an encoded item reads as null exactly for a null item, and its step spans the item. */
  lemma EncodeItemHeader(it: Item, width: nat)
    requires ItemFits(it, width)
    ensures IsNullHeader(EncodeItem(it)[0]) <==> it.NullItem?
    ensures Step(EncodeItem(it)[0], width) == |EncodeItem(it)|
  {
  }

  function EncodeItems(its: seq<Item>): (r: seq<byte>)
  {
    if |its| == 0 then [] else EncodeItem(its[0]) + EncodeItems(its[1..])
  }

  /** Start of item `i` within the encoding of `its`: the length of everything before it. */
  function ItemStart(its: seq<Item>, i: nat): (s: nat)
    requires i <= |its|
  {
    |EncodeItems(its[..i])|
  }

  /** Encoding distributes over concatenation of item lists. */
  lemma {:induction false} EncodeItemsAppend(a: seq<Item>, b: seq<Item>)
    ensures EncodeItems(a + b) == EncodeItems(a) + EncodeItems(b)
  {
    if |a| == 0 {
      assert a + b == b;
    } else {
      EncodeItemsAppend(a[1..], b);
      assert (a + b)[1..] == a[1..] + b;
      assert (a + b)[0] == a[0];
      var h, x, y := EncodeItem(a[0]), EncodeItems(a[1..]), EncodeItems(b);
      assert EncodeItems(a + b) == h + EncodeItems(a[1..] + b);
      Associative(h, x, y);
    }
  }

  /** Item `i`'s encoding sits at its start within the encoding of the whole list. */
  lemma EncodeItemsAt(its: seq<Item>, i: nat)
    requires i < |its|
    ensures ItemStart(its, i) + |EncodeItem(its[i])| <= |EncodeItems(its)|
    ensures EncodeItems(its)[ItemStart(its, i)..ItemStart(its, i) + |EncodeItem(its[i])|] == EncodeItem(its[i])
  {
    EncodeSplit(its, i);
    MiddleSlice(EncodeItems(its[..i]), EncodeItem(its[i]), EncodeItems(its[i + 1..]));
  }

  /** The encoding of a list is the encoding of the items before `i`, item `i`, then the rest. */
  lemma EncodeSplit(its: seq<Item>, i: nat)
    requires i < |its|
    ensures EncodeItems(its) == EncodeItems(its[..i]) + (EncodeItem(its[i]) + EncodeItems(its[i + 1..]))
  {
    var pre, it, post := its[..i], its[i], its[i + 1..];
    calc {
      EncodeItems(its);
      { SplitAt(its, i); }
      EncodeItems(pre + ([it] + post));
      { EncodeItemsAppend(pre, [it] + post); }
      EncodeItems(pre) + EncodeItems([it] + post);
      { EncodeCons(it, post); }
      EncodeItems(pre) + (EncodeItem(it) + EncodeItems(post));
    }
  }

  lemma SplitAt<T>(s: seq<T>, i: nat)
    requires i < |s|
    ensures s == s[..i] + ([s[i]] + s[i + 1..])
  {
  }

  lemma EncodeCons(it: Item, post: seq<Item>)
    ensures EncodeItems([it] + post) == EncodeItem(it) + EncodeItems(post)
  {
    assert ([it] + post)[1..] == post;
  }

  /** Consecutive item starts differ by the size of the item between them. */
  lemma NextItemStart(its: seq<Item>, i: nat)
    requires i < |its|
    ensures ItemStart(its, i + 1) == ItemStart(its, i) + |EncodeItem(its[i])|
  {
    assert its[..i + 1] == its[..i] + [its[i]];
    EncodeItemsAppend(its[..i], [its[i]]);
    assert EncodeItems([its[i]]) == EncodeItem(its[i]) by {
      assert [its[i]][1..] == [];
    }
  }

  lemma Associative(x: seq<byte>, y: seq<byte>, z: seq<byte>)
    ensures x + (y + z) == (x + y) + z
  {
  }

  lemma MiddleSlice(x: seq<byte>, y: seq<byte>, z: seq<byte>)
    ensures (x + (y + z))[|x|..|x| + |y|] == y
  {
  }

  /** Item starts of an encoded list, followed by its end. */
  function Starts(its: seq<Item>): (r: seq<nat>)
    ensures |r| == |its| + 1
  {
    seq(|its| + 1, k requires 0 <= k <= |its| => ItemStart(its, k))
  }

  /** Every item start of an encoded list of well-sized items holds a header whose step reaches the next start. */
  lemma StartsStep(its: seq<Item>, width: nat)
    requires forall k :: 0 <= k < |its| ==> ItemFits(its[k], width)
    ensures Starts(its)[0] == 0
    ensures forall k :: 0 <= k < |its| ==> Starts(its)[k] < |EncodeItems(its)|
    ensures forall k :: 0 <= k < |its| ==>
      Starts(its)[k + 1] == Starts(its)[k] + Step(EncodeItems(its)[Starts(its)[k]], width)
  {
    var b, starts := EncodeItems(its), Starts(its);
    assert its[..0] == [];
    forall k | 0 <= k < |its|
      ensures starts[k] < |b|
      ensures starts[k + 1] == starts[k] + Step(b[starts[k]], width)
    {
      EncodedHeader(its, width, k);
      NextItemStart(its, k);
    }
  }

  /** From any of `n` header-to-header starts, the remaining items can be walked. */
  lemma {:induction false} WalkableFrom(b: seq<byte>, width: nat, starts: seq<nat>, j: nat)
    requires |starts| >= 1 && j < |starts|
    requires forall k :: 0 <= k < |starts| - 1 ==> starts[k] < |b|
    requires forall k :: 0 <= k < |starts| - 1 ==> starts[k + 1] == starts[k] + Step(b[starts[k]], width)
    ensures Walkable(b, 0, width, starts[j], |starts| - 1 - j)
    decreases |starts| - j
  {
    if j < |starts| - 1 {
      WalkableFrom(b, width, starts, j + 1);
    }
  }

  /** The accessor can walk every encoded list of well-sized items. */
  lemma EncodedWalkable(its: seq<Item>, width: nat)
    requires forall i :: 0 <= i < |its| ==> ItemFits(its[i], width)
    ensures Walkable(EncodeItems(its), 0, width, 0, |its|)
  {
    StartsStep(its, width);
    WalkableFrom(EncodeItems(its), width, Starts(its), 0);
  }

  /**
   On an encoded list of well-sized items, any walk of the accessor (in
   particular the offsets it computes) lands exactly on the item starts,
   and a header reads as null exactly for the null items.
   */
  lemma EncodedWalk(its: seq<Item>, width: nat, offs: seq<nat>, i: nat)
    requires forall k :: 0 <= k < |its| ==> ItemFits(its[k], width)
    requires |offs| == |its| && IsWalk(EncodeItems(its), 0, width, offs)
    requires i < |its|
    ensures offs[i] == ItemStart(its, i)
    ensures IsNullHeader(EncodeItems(its)[offs[i]]) <==> its[i].NullItem?
  {
    var b := EncodeItems(its);
    StartsStep(its, width);
    var starts := Starts(its)[..|its|];
    WalkFollows(b, width, offs, starts, i);
    EncodedHeader(its, width, i);
  }

  /** A walk follows any sequence of offsets that starts at 0 and steps from header to header. */
  lemma {:induction false} WalkFollows(b: seq<byte>, width: nat, offs: seq<nat>, starts: seq<nat>, i: nat)
    requires |offs| == |starts| && IsWalk(b, 0, width, offs)
    requires |starts| > 0 ==> starts[0] == 0
    requires forall k :: 0 <= k < |starts| ==> starts[k] < |b|
    requires forall k :: 0 <= k < |starts| - 1 ==> starts[k + 1] == starts[k] + Step(b[starts[k]], width)
    requires i < |offs|
    ensures offs[i] == starts[i]
  {
    if i > 0 {
      WalkFollows(b, width, offs, starts, i - 1);
      assert offs[i] == offs[i - 1] + Step(b[offs[i - 1]], width);
    }
  }

  /** The byte at an item's start is its header. */
  lemma EncodedHeader(its: seq<Item>, width: nat, i: nat)
    requires forall k :: 0 <= k < |its| ==> ItemFits(its[k], width)
    requires i < |its|
    ensures ItemStart(its, i) < |EncodeItems(its)|
    ensures IsNullHeader(EncodeItems(its)[ItemStart(its, i)]) <==> its[i].NullItem?
    ensures Step(EncodeItems(its)[ItemStart(its, i)], width) == |EncodeItem(its[i])|
  {
    EncodeItemsAt(its, i);
    EncodeItemHeader(its[i], width);
    assert EncodeItems(its)[ItemStart(its, i)] == EncodeItem(its[i])[0];
  }

  /** A header with only the high-nibble bit 0x80 set is not null: the null test is bit 6 alone. */
  lemma HighNibbleIsNotNull()
    ensures !IsNullHeader(0x80 as byte)
    ensures IsNullHeader(0x40 as byte)
    ensures IsNullHeader(0xC0 as byte)
  {
  }
}
