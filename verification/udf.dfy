/**
 User-defined functions of the query layer: the IN / NOT IN membership
 tests, the prefix match, and the MIN and SUM aggregate merges.

 A scalar function receives its input value together with a `valid` flag
 (false when the input could not be evaluated) and answers false for an
 invalid input. An aggregate combines two partial results with its merge.
 */
module Udf {
  import opened Common
  import opened Kinds

  // ---------------------------------------------------------------------------
  // IN / NOT IN

  /** Some listed value equals `source`, checked value by value from the front. */
  function AnyEqual<T(==)>(values: seq<T>, source: T): bool {
    if |values| == 0 then false else values[0] == source || AnyEqual(values[1..], source)
  }

  /** No listed value equals `source`, checked value by value from the front. */
  function NoneEqual<T(==)>(values: seq<T>, source: T): bool {
    if |values| == 0 then true else values[0] != source && NoneEqual(values[1..], source)
  }

  lemma {:induction false} AnyEqualSpec<T>(values: seq<T>, source: T)
    ensures AnyEqual(values, source) <==> source in values
    ensures NoneEqual(values, source) <==> source !in values
  {
    if |values| > 0 {
      AnyEqualSpec(values[1..], source);
      assert values == [values[0]] + values[1..];
    }
  }

  /** A membership test over a fixed list: IN, or NOT IN when `negated`. */
  datatype InUdf<T> = InUdf(values: seq<T>, negated: bool)

  /** The IN constructor. */
  function MakeIn<T>(values: seq<T>): (u: InUdf<T>)
    ensures u.values == values && !u.negated
  {
    InUdf(values, false)
  }

  /** The NOT IN constructor; it refuses (`None`) a call that asks for IN. */
  function MakeNotIn<T>(values: seq<T>, isIn: bool): (u: Option<InUdf<T>>)
    ensures u.Some? <==> !isIn
    ensures u.Some? ==> u.value.values == values && u.value.negated
  {
    if isIn then None else Some(InUdf(values, true))
  }

  /** Evaluates the test on one input; an invalid input is false either way. */
  function EvalIn<T(==)>(u: InUdf<T>, source: T, valid: bool): (r: bool)
    ensures !valid ==> !r
    ensures valid && !u.negated ==> (r <==> exists i :: 0 <= i < |u.values| && u.values[i] == source)
    ensures valid && u.negated ==> (r <==> forall i :: 0 <= i < |u.values| ==> u.values[i] != source)
  {
    AnyEqualSpec(u.values, source);
    if !valid then false
    else if u.negated then NoneEqual(u.values, source)
    else AnyEqual(u.values, source)
  }

  /**
   On a valid input, IN and NOT IN over the same list are complements; an
   empty list makes IN false and NOT IN true.
   */
  lemma InNotInComplement<T>(values: seq<T>, source: T, valid: bool)
    ensures MakeNotIn(values, false).Some?
    ensures valid ==> EvalIn(MakeNotIn(values, false).value, source, valid) == !EvalIn(MakeIn(values), source, valid)
    ensures !valid ==> !EvalIn(MakeNotIn(values, false).value, source, valid) && !EvalIn(MakeIn(values), source, valid)
    ensures valid && values == [] ==>
      !EvalIn(MakeIn(values), source, valid) && EvalIn(MakeNotIn(values, false).value, source, valid)
  {
  }

  // ---------------------------------------------------------------------------
  // Prefix

  /** ASCII lower case; other characters are unchanged. */
  function ToLower(c: char): char {
    if 'A' <= c <= 'Z' then (c as int + 32) as char else c
  }

  /** Character equality of the match: exact, or ignoring ASCII case. */
  predicate CharEq(caseSensitive: bool, a: char, b: char) {
    if caseSensitive then a == b else ToLower(a) == ToLower(b)
  }

  /** The first |prefix| characters of `source` match `prefix` position by position. */
  predicate Matches(prefix: string, caseSensitive: bool, source: string) {
    |prefix| <= |source| && forall i :: 0 <= i < |prefix| ==> CharEq(caseSensitive, source[i], prefix[i])
  }

  /**
   The prefix test on one input: false for an invalid input or a source
   shorter than the prefix, otherwise a left-to-right comparison that stops
   at the first mismatch.
   */
  method EvalPrefix(prefix: string, caseSensitive: bool, source: string, valid: bool) returns (r: bool)
    ensures r <==> valid && Matches(prefix, caseSensitive, source)
    ensures caseSensitive ==> (r <==> valid && prefix <= source)
  {
    if !valid {
      return false;
    }
    var prefixSize := |prefix|;
    if |source| < prefixSize {
      return false;
    }
    var i := 0;
    while i < prefixSize
      invariant 0 <= i <= prefixSize
      invariant forall j :: 0 <= j < i ==> CharEq(caseSensitive, source[j], prefix[j])
    {
      if !CharEq(caseSensitive, source[i], prefix[i]) {
        return false;
      }
      i := i + 1;
    }
    r := true;
    if caseSensitive {
      assert source[..|prefix|] == prefix;
    }
  }

  /**
   An empty prefix matches every source; the answer depends only on the
   first |prefix| characters of the source; a case-sensitive match is also
   a case-insensitive one.
   */
  lemma PrefixProperties(prefix: string, caseSensitive: bool, source: string, other: string)
    ensures Matches([], caseSensitive, source)
    ensures |prefix| <= |source| && |prefix| <= |other| && source[..|prefix|] == other[..|prefix|] ==>
      (Matches(prefix, caseSensitive, source) <==> Matches(prefix, caseSensitive, other))
    ensures Matches(prefix, true, source) ==> Matches(prefix, false, source)
  {
    if |prefix| <= |source| && |prefix| <= |other| && source[..|prefix|] == other[..|prefix|] {
      forall i | 0 <= i < |prefix| ensures source[i] == other[i] {
        assert source[..|prefix|][i] == other[..|prefix|][i];
      }
    }
  }

  // ---------------------------------------------------------------------------
  // MIN

  /** The merge of two partial minimums. */
  function MinMerge(ov: int, nv: int): (r: int)
    ensures r <= ov && r <= nv
    ensures r == ov || r == nv
  {
    if nv < ov then nv else ov
  }

  /** The merge is commutative, idempotent and associative. */
  lemma MinMergeLaws(a: int, b: int, c: int)
    ensures MinMerge(a, b) == MinMerge(b, a)
    ensures MinMerge(a, a) == a
    ensures MinMerge(MinMerge(a, b), c) == MinMerge(a, MinMerge(b, c))
  {
  }

  /** Merging a non-empty run of values from the left. */
  function MinFold(xs: seq<int>): int
    requires |xs| > 0
  {
    if |xs| == 1 then xs[0] else MinMerge(MinFold(xs[..|xs| - 1]), xs[|xs| - 1])
  }

  /** The fold is the least value of the run. */
  lemma {:induction false} MinFoldIsLeast(xs: seq<int>)
    requires |xs| > 0
    ensures forall i :: 0 <= i < |xs| ==> MinFold(xs) <= xs[i]
    ensures exists i :: 0 <= i < |xs| && MinFold(xs) == xs[i]
  {
    if |xs| == 1 {
      assert MinFold(xs) == xs[0];
    } else {
      var p := xs[..|xs| - 1];
      MinFoldIsLeast(p);
      var i :| 0 <= i < |p| && MinFold(p) == p[i];
      assert xs[i] == p[i];
      if MinFold(xs) == xs[|xs| - 1] {
        assert exists i :: 0 <= i < |xs| && MinFold(xs) == xs[i];
      }
      forall j | 0 <= j < |xs| ensures MinFold(xs) <= xs[j] {
        if j < |p| {
          assert xs[j] == p[j];
        }
      }
    }
  }

  /** Partial minimums of any split of a run merge into the minimum of the whole run. */
  lemma MinFoldSplit(xs: seq<int>, ys: seq<int>)
    requires |xs| > 0 && |ys| > 0
    ensures MinFold(xs + ys) == MinMerge(MinFold(xs), MinFold(ys))
  {
    MinFoldIsLeast(xs);
    MinFoldIsLeast(ys);
    MinFoldIsLeast(xs + ys);
    var zs := xs + ys;
    forall i | 0 <= i < |zs| ensures MinMerge(MinFold(xs), MinFold(ys)) <= zs[i] {
      if i < |xs| {
        assert zs[i] == xs[i];
      } else {
        assert zs[i] == ys[i - |xs|];
      }
    }
    var i :| 0 <= i < |xs| && MinFold(xs) == xs[i];
    var j :| 0 <= j < |ys| && MinFold(ys) == ys[j];
    assert zs[i] == xs[i];
    assert zs[|xs| + j] == ys[j];
  }

  // ---------------------------------------------------------------------------
  // SUM

  /** Two's-complement wrap of an integer into the value range of an integral kind. */
  function WrapTo(k: Kind, x: int): (r: int)
    requires IsIntegral(k)
    ensures InRange(k, r)
    ensures InRange(k, x) ==> r == x
    ensures (r - x) % Modulus(k) == 0
  {
    var h := Modulus(k) / 2;
    ShiftedModulo(x, h, Modulus(k));
    (x + h) % Modulus(k) - h
  }

  /** Shifting by `h`, reducing modulo `m` and shifting back stays congruent to `x`. */
  lemma ShiftedModulo(x: int, h: int, m: int)
    requires m > 0
    ensures ((x + h) % m - h - x) % m == 0
  {
    var q := (x + h) / m;
    assert (x + h) % m - h - x == -q * m + 0;
    ModuloUnique(-q * m, -q, 0, m);
  }

  /** Euclidean division is unique: a quotient and a remainder in range are the ones `/` and `%` give. */
  lemma ModuloUnique(b: int, d: int, r: int, m: int)
    requires m > 0 && b == d * m + r && 0 <= r < m
    ensures b % m == r
  {
    var d', r' := b / m, b % m;
    assert (d - d') * m == r' - r;
    MultipleSize(d - d', m);
  }

  /** A non-zero multiple of `m` is at least `m` away from zero. */
  lemma MultipleSize(a: int, m: int)
    requires m > 0
    ensures a >= 1 ==> a * m >= m
    ensures a <= -1 ==> a * m <= -m
  {
    if a >= 1 {
      PositiveMultiple(a, m);
    } else if a <= -1 {
      PositiveMultiple(-a, m);
      assert a * m == -((-a) * m);
    }
  }

  lemma {:induction false} PositiveMultiple(a: nat, m: int)
    requires m > 0 && a >= 1
    ensures a * m >= m
  {
    if a > 1 {
      PositiveMultiple(a - 1, m);
      assert a * m == (a - 1) * m + m;
    }
  }

  /** Reducing `x + h` modulo `m` before adding `y` leaves the residue of the sum unchanged. */
  lemma ShiftedSum(x: int, y: int, h: int, m: int)
    requires m > 0
    ensures ((x + h) % m - h + y + h) % m == (x + y + h) % m
  {
    var q := (x + h) / m;
    var s := x + y + h;
    var e := (x + h) % m - h + y + h;
    assert x + h == q * m + (x + h) % m;
    assert s == (s / m) * m + s % m;
    assert e == (s / m - q) * m + s % m;
    ModuloUnique(e, s / m - q, s % m, m);
  }

  /** Wrapping an intermediate result does not change the wrapped total. */
  lemma WrapAdd(k: Kind, x: int, y: int)
    requires IsIntegral(k)
    ensures WrapTo(k, WrapTo(k, x) + y) == WrapTo(k, x + y)
  {
    var m := Modulus(k);
    ShiftedSum(x, y, m / 2, m);
  }

  /**
   The merge of two partial sums of an integral kind: their sum, wrapped to
   the kind's width.
   */
  function SumMerge(k: Kind, ov: int, nv: int): (r: int)
    requires IsIntegral(k)
    ensures InRange(k, r)
    ensures InRange(k, ov + nv) ==> r == ov + nv
  {
    WrapTo(k, ov + nv)
  }

  /**
   The merge is commutative and, with the wrap, associative: partial sums
   combine in any grouping to the wrapped total.
   */
  lemma SumMergeLaws(k: Kind, a: int, b: int, c: int)
    requires IsIntegral(k)
    ensures SumMerge(k, a, b) == SumMerge(k, b, a)
    ensures SumMerge(k, SumMerge(k, a, b), c) == WrapTo(k, a + b + c)
    ensures SumMerge(k, a, SumMerge(k, b, c)) == WrapTo(k, a + b + c)
    ensures InRange(k, a + b + c) ==> SumMerge(k, SumMerge(k, a, b), c) == a + b + c
  {
    assert b + a == a + b;
    SumMergeLeft(k, a, b, c);
    SumMergeRight(k, a, b, c);
  }

  /** Merging `a` and `b` first, then `c`, gives the wrapped total. */
  lemma SumMergeLeft(k: Kind, a: int, b: int, c: int)
    requires IsIntegral(k)
    ensures SumMerge(k, SumMerge(k, a, b), c) == WrapTo(k, a + b + c)
  {
    WrapAdd(k, a + b, c);
  }

  /** Merging `b` and `c` first, then `a`, gives the wrapped total. */
  lemma SumMergeRight(k: Kind, a: int, b: int, c: int)
    requires IsIntegral(k)
    ensures SumMerge(k, a, SumMerge(k, b, c)) == WrapTo(k, a + b + c)
  {
    var bc := SumMerge(k, b, c);
    WrapAdd(k, b + c, a);
    assert a + bc == bc + a && b + c + a == a + b + c;
  }
}
