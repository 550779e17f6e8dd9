/**
 The typed value stores behind a column and the proxy that dispatches to
 them.

 A store is created per column kind: fixed-width stores keep one value per
 row and may carry a bloom filter; the string store is an append-only byte
 slice whose write offset is its size; compound kinds get an empty store
 that holds nothing. The proxy wraps one store, binds once to its concrete
 kind, and forwards every typed call to it.
 */
module TypeStore {
  import opened Common
  import opened Kinds

  /** A value of a store: booleans, integers (any integral width), byte strings, and the null pointer. */
  datatype Native = BoolV(b: bool) | IntV(i: int) | StrV(s: seq<byte>) | VoidV

  /** `v` is a value of the native type of kind `k`. Floating-point kinds have none in the model. */
  predicate Fits(k: Kind, v: Native) {
    match v
    case BoolV(_) => k == BOOLEAN
    case IntV(i) => IsIntegral(k) && InRange(k, i)
    case StrV(_) => k == VARCHAR
    case VoidV => false
  }

  /**
   A bloom filter as an over-approximating set: every added value, plus
   the values its hash collisions make it wrongly accept. `capacity` is the
   expected item count it was sized for.
   */
  datatype Bloom = Bloom(capacity: nat, added: set<Native>, collisions: set<Native>)

  function BloomAdd(f: Bloom, v: Native): (r: Bloom)
    ensures r.capacity == f.capacity && r.collisions == f.collisions
    ensures r.added == f.added + {v}
  {
    f.(added := f.added + {v})
  }

  function BloomProbably(f: Bloom, v: Native): bool {
    v in f.added || v in f.collisions
  }

  /**
   The kinds whose store builds a bloom filter when the column asks for
   one: the fixed-width kinds other than boolean. Strings have no hash for
   the filter, and a two-valued filter would filter nothing.
   */
  predicate Filterable(k: Kind) {
    IsScalar(k) && k != BOOLEAN
  }

  /** Compound kinds have no concrete store; their data object holds nothing. */
  predicate IsCompound(k: Kind) {
    k in {ARRAY, MAP, STRUCT}
  }

  /**
   A store of one kind. `values` holds the value written for each row of a
   fixed-width store; `bytes` is the string store's slice up to its size.
   */
  datatype Store = Store(
    kind: Kind,
    bf: Option<Bloom>,
    defaultValue: Option<Native>,
    values: map<nat, Native>,
    bytes: seq<byte>)

  /**
   A fresh store for `kind`. A bloom filter sized for `batchSize` exists
   only when the column asks for one and the kind is filterable. A default
   exists only for a non-empty default literal: the string store keeps the
   literal itself, compound kinds a null pointer, the rest its parsed value.
   */
  function NewStore(kind: Kind, column: Column, batchSize: nat,
                    parse: seq<byte> -> Native, collisions: set<Native>): (s: Store)
    ensures s.kind == kind && s.values == map[] && s.bytes == []
    ensures s.bf.Some? <==> column.withBloomFilter && Filterable(kind)
    ensures s.bf.Some? ==> s.bf.value == Bloom(batchSize, {}, collisions)
    ensures s.defaultValue.Some? <==> |column.defaultValue| > 0
    ensures s.defaultValue.Some? && kind == VARCHAR ==> s.defaultValue.value == StrV(column.defaultValue)
    ensures s.defaultValue.Some? && IsCompound(kind) ==> s.defaultValue.value == VoidV
    ensures s.defaultValue.Some? && IsScalar(kind) ==> s.defaultValue.value == parse(column.defaultValue)
  {
    var bf := if column.withBloomFilter && Filterable(kind) then Some(Bloom(batchSize, {}, collisions)) else None;
    var dv :=
      if |column.defaultValue| == 0 then None
      else if kind == VARCHAR then Some(StrV(column.defaultValue))
      else if IsCompound(kind) then Some(VoidV)
      else Some(parse(column.defaultValue));
    Store(kind, bf, dv, map[], [])
  }

  function HasBloomFilter(s: Store): bool {
    s.bf.Some?
  }

  /** The string store's write offset. */
  function Size(s: Store): nat {
    |s.bytes|
  }

  /** Appends a string's bytes at the write offset; the bloom filter is not touched. */
  function StringAdd(s: Store, value: seq<byte>): (r: Store)
    requires s.kind == VARCHAR
    ensures r.kind == VARCHAR
    ensures Size(r) == Size(s) + |value|
    ensures r.bytes[..Size(s)] == s.bytes
    ensures r.bytes[Size(s)..] == value
    ensures r.(bytes := s.bytes) == s
  {
    var b := s.bytes + value;
    assert b[..|s.bytes|] == s.bytes;
    s.(bytes := b)
  }

  /** A null string writes zero bytes. */
  function StringAddVoid(s: Store): (r: Store)
    requires s.kind == VARCHAR
    ensures Size(r) == Size(s)
    ensures r == StringAdd(s, [])
  {
    s
  }

  /** Writes a row's value in a fixed-width store and feeds the bloom filter, if any. */
  function ScalarAdd(s: Store, index: nat, v: Native): (r: Store)
    requires IsScalar(s.kind) && Fits(s.kind, v)
    ensures r.kind == s.kind && r.defaultValue == s.defaultValue && r.bytes == s.bytes
    ensures r.values == s.values[index := v]
    ensures r.bf.Some? <==> s.bf.Some?
    ensures r.bf.Some? ==> r.bf.value == BloomAdd(s.bf.value, v)
  {
    var bf := match s.bf case None => None case Some(f) => Some(BloomAdd(f, v));
    s.(values := s.values[index := v], bf := bf)
  }

  /**
   Writes a null into a row of a fixed-width store: the row holds no value
   afterwards, and neither the filter nor the default changes.
   */
  function ScalarAddVoid(s: Store, index: nat): (r: Store)
    requires IsScalar(s.kind)
    ensures r.kind == s.kind && r.bf == s.bf && r.defaultValue == s.defaultValue && r.bytes == s.bytes
    ensures index !in r.values
    ensures forall i :: i != index ==> (i in r.values <==> i in s.values)
    ensures forall i :: i != index && i in s.values ==> r.values[i] == s.values[i]
  {
    s.(values := s.values - {index})
  }

  /** The value of a row of a fixed-width store; `None` for a row never written. */
  function Read(s: Store, index: nat): (r: Option<Native>)
    requires IsScalar(s.kind)
    ensures r.Some? <==> index in s.values
  {
    if index in s.values then Some(s.values[index]) else None
  }

  /** Without a bloom filter every value may be present; with one, the filter answers. */
  function Probably(s: Store, v: Native): (b: bool)
    requires IsScalar(s.kind)
    ensures s.bf.None? ==> b
    ensures s.bf.Some? ==> (b <==> BloomProbably(s.bf.value, v))
  {
    match s.bf
    case None => true
    case Some(f) => BloomProbably(f, v)
  }

  /** A row reads back the value last written to it; other rows keep theirs. */
  lemma ReadAfterAdd(s: Store, index: nat, v: Native, other: nat)
    requires IsScalar(s.kind) && Fits(s.kind, v)
    ensures Read(ScalarAdd(s, index, v), index) == Some(v)
    ensures other != index ==> Read(ScalarAdd(s, index, v), other) == Read(s, other)
  {
  }

  /**
   A value added to a fixed-width store is reported as probably present,
   and stays so after any further add; a value the filter rejects was never
   added. This rests on the filter never forgetting an added value.
   */
  lemma NoFalseNegatives(s: Store, index: nat, v: Native, index2: nat, w: Native)
    requires IsScalar(s.kind) && Fits(s.kind, v) && Fits(s.kind, w)
    ensures Probably(ScalarAdd(s, index, v), v)
    ensures Probably(ScalarAdd(ScalarAdd(s, index, v), index2, w), v)
    ensures Probably(s, w) ==> Probably(ScalarAdd(s, index, v), w)
  {
  }

  /** String adds never change a store's filter or default. */
  lemma StringAddKeepsFilter(s: Store, value: seq<byte>)
    requires s.kind == VARCHAR
    ensures StringAdd(s, value).bf == s.bf
    ensures StringAdd(s, value).defaultValue == s.defaultValue
    ensures StringAdd(s, value).values == s.values
  {
  }

  // ---------------------------------------------------------------------------
  // Proxy

  /**
   The proxy over one store: the concrete kind it bound to (none for
   compound data), whether that store has a bloom filter, and whether the
   null writer was set.
   */
  datatype Proxy = Proxy(data: Store, bound: Option<Kind>, hasBf: bool, voidSet: bool)

  /**
   Binds to the store's concrete kind, when it has one, recording its
   filter flag and the null writer; compound data leaves both unset.
   */
  function Bind(s: Store): (p: Proxy)
    ensures p.data == s
    ensures p.bound.Some? <==> !IsCompound(s.kind)
    ensures p.bound.Some? ==> p.bound.value == s.kind
    ensures p.hasBf <==> p.bound.Some? && HasBloomFilter(s)
    ensures p.voidSet <==> p.bound.Some?
  {
    if IsCompound(s.kind) then Proxy(s, None, false, false)
    else Proxy(s, Some(s.kind), HasBloomFilter(s), true)
  }

  /**
   Forwards an add of a value of kind `t` to the bound store of that kind:
   a string is appended to the string store, any other value is written
   into its row of the fixed-width store. The proxy's own flags stay.
   */
  function ProxyAdd(p: Proxy, t: Kind, index: nat, v: Native): (r: Proxy)
    requires p.bound == Some(t) && p.data.kind == t && Fits(t, v)
    ensures r.bound == p.bound && r.hasBf == p.hasBf && r.voidSet == p.voidSet
    ensures r.data.kind == t
    ensures t == VARCHAR ==> r.data == StringAdd(p.data, v.s)
    ensures t != VARCHAR ==> r.data == ScalarAdd(p.data, index, v)
  {
    if t == VARCHAR then p.(data := StringAdd(p.data, v.s))
    else p.(data := ScalarAdd(p.data, index, v))
  }

  /**
   Writes a null into row `index` through the null writer: the string
   store writes zero bytes, a fixed-width store leaves the row without a
   value; an unset writer (compound data) fails. The flags stay.
   */
  function ProxyAddVoid(p: Proxy, index: nat): (r: Option<Proxy>)
    requires p.bound.Some? ==> p.data.kind == p.bound.value
    ensures r.Some? <==> p.voidSet
    ensures r.Some? ==> r.value.bound == p.bound && r.value.hasBf == p.hasBf && r.value.voidSet
    ensures r.Some? && p.bound == Some(VARCHAR) ==> r.value.data == StringAddVoid(p.data)
    ensures r.Some? && p.bound.Some? && IsScalar(p.bound.value) ==> r.value.data == ScalarAddVoid(p.data, index)
    ensures r.Some? && p.bound.None? ==> r.value.data == p.data
  {
    if !p.voidSet then None
    else match p.bound
      case None => Some(p)
      case Some(k) =>
        if k == VARCHAR then Some(p.(data := StringAddVoid(p.data)))
        else if IsScalar(k) then Some(p.(data := ScalarAddVoid(p.data, index)))
        else Some(p)
  }

  /** Forwards a bloom-filter query; fixed-width kinds only. */
  function ProxyProbably(p: Proxy, t: Kind, v: Native): (b: bool)
    requires p.bound == Some(t) && p.data.kind == t && IsScalar(t)
    ensures b == Probably(p.data, v)
  {
    Probably(p.data, v)
  }

  /** Forwards a default-value query, strings included. */
  function ProxyDefaultValue(p: Proxy, t: Kind): (r: Option<Native>)
    requires p.bound == Some(t) && p.data.kind == t
    ensures r == p.data.defaultValue
  {
    p.data.defaultValue
  }

  /** Forwards a row read; fixed-width kinds only. */
  function ProxyRead(p: Proxy, t: Kind, index: nat): (r: Option<Native>)
    requires p.bound == Some(t) && p.data.kind == t && IsScalar(t)
    ensures r == Read(p.data, index)
  {
    Read(p.data, index)
  }

  /**
   Through a bound proxy, a fixed-width value added to a row reads back
   from it, is probably present, and the filter flag matches the store.
   */
  lemma ProxyScalarRoundTrip(s: Store, index: nat, v: Native)
    requires IsScalar(s.kind) && Fits(s.kind, v)
    ensures var p := Bind(s);
      && p.bound == Some(s.kind)
      && ProxyRead(ProxyAdd(p, s.kind, index, v), s.kind, index) == Some(v)
      && ProxyProbably(ProxyAdd(p, s.kind, index, v), s.kind, v)
      && (ProxyAdd(p, s.kind, index, v).hasBf <==> HasBloomFilter(ProxyAdd(p, s.kind, index, v).data))
      && ProxyDefaultValue(ProxyAdd(p, s.kind, index, v), s.kind) == s.defaultValue
  {
  }

  /**
   Through any bound fixed-width proxy, an add is read back from its row,
   leaves every other row as it was, and is probably present; a null
   written afterwards empties that row only.
   */
  lemma ProxyAddForwards(p: Proxy, t: Kind, index: nat, v: Native, other: nat)
    requires p.bound == Some(t) && p.data.kind == t && IsScalar(t) && Fits(t, v) && p.voidSet
    ensures ProxyRead(ProxyAdd(p, t, index, v), t, index) == Some(v)
    ensures other != index ==> ProxyRead(ProxyAdd(p, t, index, v), t, other) == ProxyRead(p, t, other)
    ensures ProxyProbably(ProxyAdd(p, t, index, v), t, v)
    ensures var q := ProxyAddVoid(ProxyAdd(p, t, index, v), index);
      && q.Some?
      && ProxyRead(q.value, t, index).None?
      && (other != index ==> ProxyRead(q.value, t, other) == ProxyRead(p, t, other))
  {
    ReadAfterAdd(p.data, index, v, other);
    NoFalseNegatives(p.data, index, v, index, v);
  }

  /** Through a bound string proxy, an added string is the last bytes of the store. */
  lemma ProxyStringAppend(s: Store, value: seq<byte>)
    requires s.kind == VARCHAR
    ensures Bind(s).bound == Some(VARCHAR)
    ensures var q := ProxyAdd(Bind(s), VARCHAR, 0, StrV(value));
      && q.data.bytes == s.bytes + value
      && q.data.bf == s.bf
      && ProxyDefaultValue(q, VARCHAR) == s.defaultValue
  {
  }

  /**
   A store created by the column setup never carries a filter for strings
   or booleans, so their proxies report none; a compound proxy is unbound
   and its null write fails.
   */
  lemma StringProxyHasNoFilter(column: Column, batchSize: nat, parse: seq<byte> -> Native, collisions: set<Native>)
    ensures !Bind(NewStore(VARCHAR, column, batchSize, parse, collisions)).hasBf
    ensures Bind(NewStore(VARCHAR, column, batchSize, parse, collisions)).voidSet
    ensures Bind(NewStore(ARRAY, column, batchSize, parse, collisions)).bound.None?
    ensures !Bind(NewStore(ARRAY, column, batchSize, parse, collisions)).voidSet
    ensures !Bind(NewStore(BOOLEAN, column, batchSize, parse, collisions)).hasBf
    ensures forall i: nat :: ProxyAddVoid(Bind(NewStore(ARRAY, column, batchSize, parse, collisions)), i).None?
  {
  }
}
