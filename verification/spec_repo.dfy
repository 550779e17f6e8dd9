/**
 The ingestion-spec repository: a map from spec signature to spec, merged
 with each newly generated spec list, and the assignment of specs to
 cluster nodes.

 A spec's signature is computed by its constructor; the model carries it as
 a field. A spec is assigned when its affinity names a node; the invalid
 node is `None`. Two nodes are the same node when their servers agree.
 */
module SpecRepository {
  import opened Common

  datatype Node = Node(server: string, active: bool)

  /** The lifecycle states the repository distinguishes; the others are kept as given. */
  datatype SpecState = NEW | RENEW | OtherState(name: string)

  datatype Spec = Spec(
    signature: string,
    table: string,
    version: string,
    id: string,
    domain: string,
    size: nat,
    state: SpecState,
    affinity: Option<Node>,
    mdate: nat)

  type Repo = map<string, Spec>

  predicate Assigned(s: Spec) {
    s.affinity.Some?
  }

  predicate SameNode(a: Node, b: Node) {
    a.server == b.server
  }

  // ---------------------------------------------------------------------------
  // Spec generation

  datatype FileInfo = FileInfo(isDir: bool, name: string, domain: string, size: nat)

  /** The files of a listing that are not directories, in listing order. */
  function NonDirs(files: seq<FileInfo>): (r: seq<FileInfo>)
    ensures |r| <= |files|
    ensures forall k :: 0 <= k < |r| ==> !r[k].isDir && r[k] in files
  {
    if |files| == 0 then []
    else (if files[0].isDir then [] else [files[0]]) + NonDirs(files[1..])
  }

  /** The NEW, unassigned spec for one file, identified by its name. */
  function FileSpec(table: string, version: string, f: FileInfo, mdate: nat, sign: string -> string): (s: Spec)
    ensures s.id == f.name && s.domain == f.domain && s.size == f.size
    ensures s.state == NEW && !Assigned(s)
  {
    Spec(sign(f.name), table, version, f.name, f.domain, f.size, NEW, None, mdate)
  }

  /** One spec per non-directory file, in listing order. */
  function GenSpecPerFile(table: string, version: string, files: seq<FileInfo>, mdate: nat,
                          sign: string -> string): (r: seq<Spec>)
    ensures |r| == |NonDirs(files)|
    ensures forall k :: 0 <= k < |r| ==> r[k] == FileSpec(table, version, NonDirs(files)[k], mdate, sign)
  {
    if |files| == 0 then []
    else
      var rest := GenSpecPerFile(table, version, files[1..], mdate, sign);
      if files[0].isDir then rest else [FileSpec(table, version, files[0], mdate, sign)] + rest
  }

  /** Every generated spec is NEW and unassigned; a listing of directories only yields none. */
  lemma GenSpecPerFileState(table: string, version: string, files: seq<FileInfo>, mdate: nat, sign: string -> string)
    ensures forall s :: s in GenSpecPerFile(table, version, files, mdate, sign) ==>
      s.state == NEW && !Assigned(s) && s.mdate == mdate && s.version == version
    ensures (forall k :: 0 <= k < |files| ==> files[k].isDir) ==> GenSpecPerFile(table, version, files, mdate, sign) == []
  {
    var r := GenSpecPerFile(table, version, files, mdate, sign);
    if forall k :: 0 <= k < |files| ==> files[k].isDir {
      NoNonDirs(files);
    }
  }

  lemma {:induction false} NoNonDirs(files: seq<FileInfo>)
    requires forall k :: 0 <= k < |files| ==> files[k].isDir
    ensures NonDirs(files) == []
  {
    if |files| > 0 {
      NoNonDirs(files[1..]);
    }
  }

  // ---------------------------------------------------------------------------
  // Identity of a test-loader spec

  datatype TimeType = STATIC | CURRENT | COLUMN | MACRO | PROVIDED

  predicate AllDigits(s: string) {
    forall k :: 0 <= k < |s| ==> '0' <= s[k] <= '9'
  }

  /** An optional '-' followed by at least one digit. */
  predicate Numeral(s: string) {
    |s| >= 1 && if s[0] == '-' then |s| >= 2 && AllDigits(s[1..]) else AllDigits(s)
  }

  /** Decimal digits of a natural number, most significant first. */
  function Digits(n: nat): (r: string)
    ensures |r| >= 1 && AllDigits(r)
  {
    if n < 10 then [DigitChar(n)] else Digits(n / 10) + [DigitChar(n % 10)]
  }

  function DigitChar(d: nat): (c: char)
    requires d < 10
    ensures '0' <= c <= '9'
    ensures c as int - '0' as int == d
  {
    (d + '0' as int) as char
  }

  /** Decimal rendering of a signed integer, with a leading '-' when negative. */
  function Decimal(v: int): (r: string)
    ensures Numeral(r)
  {
    if v < 0 then
      var d := Digits(-v);
      assert ("-" + d)[1..] == d;
      "-" + d
    else Digits(v)
  }

  function ParseDigits(s: string): nat
    requires AllDigits(s)
  {
    if |s| == 0 then 0 else 10 * ParseDigits(s[..|s| - 1]) + ((s[|s| - 1] as int) - ('0' as int))
  }

  function ParseDecimal(s: string): int
    requires Numeral(s)
  {
    if s[0] == '-' then -(ParseDigits(s[1..]) as int) else ParseDigits(s)
  }

  lemma {:induction false} DigitsRoundTrip(n: nat)
    ensures ParseDigits(Digits(n)) == n
  {
    if n >= 10 {
      DigitsRoundTrip(n / 10);
      var d := Digits(n);
      assert d[..|d| - 1] == Digits(n / 10);
    }
  }

  /** Reading the rendering back gives the value, so distinct values have distinct renderings. */
  lemma DecimalRoundTrip(v: int)
    ensures ParseDecimal(Decimal(v)) == v
  {
    if v < 0 {
      DigitsRoundTrip(-v);
      assert Decimal(v)[1..] == Digits(-v);
    } else {
      DigitsRoundTrip(v);
    }
  }

  /**
   The identity of a test-loader spec: the static time value for a STATIC
   time spec, the current time (given) for CURRENT, empty otherwise.
   */
  function BuildIdentityByTime(t: TimeType, unixTimeValue: int, now: int): (r: string)
    ensures t == STATIC ==> Numeral(r) && ParseDecimal(r) == unixTimeValue
    ensures t == CURRENT ==> Numeral(r) && ParseDecimal(r) == now
    ensures t != STATIC && t != CURRENT <==> r == ""
  {
    DecimalRoundTrip(unixTimeValue);
    DecimalRoundTrip(now);
    match t
    case STATIC => Decimal(unixTimeValue)
    case CURRENT => Decimal(now)
    case _ => ""
  }

  /** Two static time specs give the same identity only when their time values agree. */
  lemma StaticIdentityInjective(a: int, b: int, now: int)
    ensures BuildIdentityByTime(STATIC, a, now) == BuildIdentityByTime(STATIC, b, now) <==> a == b
  {
  }

  // ---------------------------------------------------------------------------
  // Update

  /**
   A new spec as it enters the next version: one that the repository
   already has inherits the old spec's affinity and state, becomes RENEW
   when its size changed, and loses an affinity to an inactive node.
   */
  function Carry(repo: Repo, s: Spec): (r: Spec)
    ensures r.(affinity := s.affinity, state := s.state) == s
    ensures s.signature !in repo ==> r == s
    ensures s.signature in repo ==> var prev := repo[s.signature];
      && (r.state == if s.size != prev.size then RENEW else prev.state)
      && (r.affinity == if prev.affinity.Some? && prev.affinity.value.active then prev.affinity else None)
  {
    if s.signature !in repo then s
    else
      var prev := repo[s.signature];
      var state := if s.size != prev.size then RENEW else prev.state;
      var node := prev.affinity;
      var affinity := if node.None? || !node.value.active then None else node;
      s.(affinity := affinity, state := state)
  }

  /** The next version: each new spec under its signature, the first of duplicates winning. */
  function Next(repo: Repo, specs: seq<Spec>): (m: Repo)
    ensures forall k :: k in m ==> m[k].signature == k
  {
    if |specs| == 0 then map[]
    else
      var m := Next(repo, specs[..|specs| - 1]);
      var s := specs[|specs| - 1];
      if s.signature in m then m else m[s.signature := Carry(repo, s)]
  }

  /** Number of new specs whose signature the repository lacks. */
  function BrandNew(repo: Repo, specs: seq<Spec>): nat {
    if |specs| == 0 then 0
    else BrandNew(repo, specs[..|specs| - 1]) + (if specs[|specs| - 1].signature !in repo then 1 else 0)
  }

  /** Number of new specs the repository has with a different size. */
  function Renew(repo: Repo, specs: seq<Spec>): nat {
    if |specs| == 0 then 0
    else
      var s := specs[|specs| - 1];
      Renew(repo, specs[..|specs| - 1]) + (if s.signature in repo && s.size != repo[s.signature].size then 1 else 0)
  }

  /** Merges a new spec list: the next version replaces the map only when something is new or resized. */
  function Update(repo: Repo, specs: seq<Spec>): (r: Repo)
    ensures BrandNew(repo, specs) > 0 || Renew(repo, specs) > 0 ==> r == Next(repo, specs)
    ensures BrandNew(repo, specs) == 0 && Renew(repo, specs) == 0 ==> r == repo
  {
    if BrandNew(repo, specs) > 0 || Renew(repo, specs) > 0 then Next(repo, specs) else repo
  }

  /** Spec `i` is the first one with its signature. */
  predicate FirstOf(specs: seq<Spec>, i: nat)
    requires i < |specs|
  {
    forall j :: 0 <= j < i ==> specs[j].signature != specs[i].signature
  }

  /** The next version's keys are exactly the new signatures. */
  lemma {:induction false} NextKeys(repo: Repo, specs: seq<Spec>, k: string)
    ensures k in Next(repo, specs) <==> exists i :: 0 <= i < |specs| && specs[i].signature == k
  {
    if |specs| > 0 {
      var p := specs[..|specs| - 1];
      NextKeys(repo, p, k);
      var s := specs[|specs| - 1];
      if k != s.signature {
        if k in Next(repo, specs) {
          var i :| 0 <= i < |p| && p[i].signature == k;
          assert specs[i] == p[i];
        }
        if exists i :: 0 <= i < |specs| && specs[i].signature == k {
          var i :| 0 <= i < |specs| && specs[i].signature == k;
          assert i < |p| && p[i] == specs[i];
        }
      }
    }
  }

  /** Each key of the next version maps to the carried form of the first spec with that signature. */
  lemma {:induction false} NextFirst(repo: Repo, specs: seq<Spec>, i: nat)
    requires i < |specs| && FirstOf(specs, i)
    ensures specs[i].signature in Next(repo, specs)
    ensures Next(repo, specs)[specs[i].signature] == Carry(repo, specs[i])
  {
    var p := specs[..|specs| - 1];
    var s := specs[|specs| - 1];
    if i < |p| {
      assert p[i] == specs[i];
      assert FirstOf(p, i) by {
        forall j | 0 <= j < i ensures p[j].signature != p[i].signature {
          assert p[j] == specs[j];
        }
      }
      NextFirst(repo, p, i);
    } else {
      forall j | 0 <= j < |p| ensures p[j].signature != s.signature {
        assert specs[j] == p[j];
      }
      NextKeys(repo, p, s.signature);
    }
  }

  /** The map is swapped exactly when some new spec is unknown or has a different size. */
  lemma {:induction false} SwapCondition(repo: Repo, specs: seq<Spec>)
    ensures BrandNew(repo, specs) > 0 || Renew(repo, specs) > 0 <==>
      exists i :: 0 <= i < |specs| &&
        (specs[i].signature !in repo || specs[i].size != repo[specs[i].signature].size)
  {
    if |specs| > 0 {
      var p := specs[..|specs| - 1];
      SwapCondition(repo, p);
      if exists i :: 0 <= i < |p| && (p[i].signature !in repo || p[i].size != repo[p[i].signature].size) {
        var i :| 0 <= i < |p| && (p[i].signature !in repo || p[i].size != repo[p[i].signature].size);
        assert specs[i] == p[i];
      }
      if exists i :: 0 <= i < |specs| &&
          (specs[i].signature !in repo || specs[i].size != repo[specs[i].signature].size) {
        var i :| 0 <= i < |specs| &&
          (specs[i].signature !in repo || specs[i].size != repo[specs[i].signature].size);
        if i < |p| { assert p[i] == specs[i]; }
      }
    }
  }

  /**
   When nothing is new or resized the repository is untouched, including
   specs that no longer appear; otherwise it becomes exactly the new list.
   */
  lemma UpdateEffect(repo: Repo, specs: seq<Spec>, i: nat)
    requires i < |specs|
    ensures (forall j :: 0 <= j < |specs| ==>
              specs[j].signature in repo && specs[j].size == repo[specs[j].signature].size) ==>
            Update(repo, specs) == repo
    ensures specs[i].signature !in repo || specs[i].size != repo[specs[i].signature].size ==>
            && (forall k :: k in Update(repo, specs) <==> exists j :: 0 <= j < |specs| && specs[j].signature == k)
            && (FirstOf(specs, i) ==> Update(repo, specs)[specs[i].signature] == Carry(repo, specs[i]))
  {
    SwapCondition(repo, specs);
    forall k ensures k in Next(repo, specs) <==> exists j :: 0 <= j < |specs| && specs[j].signature == k {
      NextKeys(repo, specs, k);
    }
    if FirstOf(specs, i) {
      NextFirst(repo, specs, i);
    }
  }

  // ---------------------------------------------------------------------------
  // Assignment

  /**
   Assigns one spec to `node`: an unknown signature fails; an unassigned
   spec takes the node; an assigned spec stays put and succeeds only when
   it is on that node.
   */
  function AssignOne(repo: Repo, sig: string, node: Node): (r: (bool, Repo))
    ensures sig !in repo ==> r == (false, repo)
    ensures sig in repo && !Assigned(repo[sig]) ==>
      r.0 && r.1 == repo[sig := repo[sig].(affinity := Some(node))]
    ensures sig in repo && Assigned(repo[sig]) ==>
      r.1 == repo && (r.0 <==> SameNode(repo[sig].affinity.value, node))
  {
    if sig !in repo then (false, repo)
    else
      var sp := repo[sig];
      if !Assigned(sp) then (true, repo[sig := sp.(affinity := Some(node))])
      else if !SameNode(sp.affinity.value, node) then (false, repo)
      else (true, repo)
  }

  /** Asking again for the node a spec was just given succeeds and changes nothing. */
  lemma AssignOneStable(repo: Repo, sig: string, node: Node, other: Node)
    requires sig in repo
    ensures var r := AssignOne(repo, sig, node);
      r.0 ==> AssignOne(r.1, sig, node) == (true, r.1)
    ensures var r := AssignOne(repo, sig, node);
      r.0 && !SameNode(node, other) && !Assigned(repo[sig]) ==> !AssignOne(r.1, sig, other).0
  {
  }

  predicate HasActive(nodes: seq<Node>) {
    exists i :: 0 <= i < |nodes| && nodes[i].active
  }

  /** `order` lists each key of the repository once: the map's iteration order. */
  predicate IsOrder(repo: Repo, order: seq<string>) {
    && (forall i, j :: 0 <= i < j < |order| ==> order[i] != order[j])
    && (forall k :: k in repo ==> k in order)
    && (forall i :: 0 <= i < |order| ==> order[i] in repo)
  }

  /** Position `s` steps after `start` in a cyclic scan of `size` entries. */
  function Cyclic(start: nat, s: nat, size: nat): (p: nat)
    requires start < size && s < size
    ensures p < size
  {
    if start + s < size then start + s else start + s - size
  }

  /**
   The scan for an active node starting at `start`: it visits positions
   cyclically and stops at the first active node, or reports none after a
   full round.
   */
  method FindActive(nodes: seq<Node>, start: nat) returns (found: bool, pos: nat)
    requires start < |nodes|
    ensures found ==> pos < |nodes| && nodes[pos].active
    ensures found ==> exists s :: 0 <= s < |nodes| && pos == Cyclic(start, s, |nodes|) &&
                                 (forall s' :: 0 <= s' < s ==> !nodes[Cyclic(start, s', |nodes|)].active)
    ensures !found <==> !HasActive(nodes)
  {
    var size := |nodes|;
    var idx := start;
    var steps := 0;
    while true
      invariant 0 <= steps < size
      invariant idx == Cyclic(start, steps, size)
      invariant forall s :: 0 <= s < steps ==> !nodes[Cyclic(start, s, size)].active
      decreases size - steps
    {
      if nodes[idx].active {
        return true, idx;
      }
      CyclicStep(start, steps, size);
      idx := (idx + 1) % size;
      if idx == start {
        NoActiveNode(nodes, start);
        return false, 0;
      }
      steps := steps + 1;
    }
  }

  /** One more step of the scan moves to the next position, and returns to the start after a full round. */
  lemma CyclicStep(start: nat, s: nat, size: nat)
    requires start < size && s < size
    ensures s + 1 < size ==> (Cyclic(start, s, size) + 1) % size == Cyclic(start, s + 1, size) != start
    ensures s + 1 == size ==> (Cyclic(start, s, size) + 1) % size == start
  {
    var x := Cyclic(start, s, size);
    if x + 1 < size {
      assert (x + 1) % size == x + 1;
    } else {
      assert x + 1 == size;
      assert (x + 1) % size == 0;
    }
  }

  /** A full round from any start that meets no active node means there is none. */
  lemma NoActiveNode(nodes: seq<Node>, start: nat)
    requires start < |nodes|
    requires forall s :: 0 <= s < |nodes| ==> !nodes[Cyclic(start, s, |nodes|)].active
    ensures !HasActive(nodes)
  {
    var size := |nodes|;
    forall i | 0 <= i < size ensures !nodes[i].active {
      var s := if i >= start then i - start else i + size - start;
      assert Cyclic(start, s, size) == i;
    }
  }

  /**
   Gives every unassigned spec, in iteration order, the next active node in
   a round-robin over `nodes`. With no nodes, or when a full round finds no
   active node, it stops and nothing changes.
   */
  method AssignAll(repo: Repo, nodes: seq<Node>, order: seq<string>) returns (r: Repo)
    requires IsOrder(repo, order)
    ensures |nodes| == 0 || !HasActive(nodes) ==> r == repo
    ensures r.Keys == repo.Keys
    ensures forall k :: k in repo && Assigned(repo[k]) ==> r[k] == repo[k]
    ensures HasActive(nodes) ==> forall k :: k in repo && !Assigned(repo[k]) ==> AssignedTo(repo, r, k, nodes)
  {
    r := repo;
    var size := |nodes|;
    if size == 0 {
      return;
    }
    var idx := 0;
    var t := 0;
    while t < |order|
      invariant 0 <= t <= |order| && 0 <= idx < size
      invariant AssignState(repo, r, order, t, nodes)
      invariant !HasActive(nodes) ==> r == repo
    {
      var key := order[t];
      var sp := r[key];
      if !Assigned(sp) {
        var found, pos := FindActive(nodes, idx);
        if !found {
          return;
        }
        AssignStep(repo, r, order, t, nodes, pos);
        r := r[key := sp.(affinity := Some(nodes[pos]))];
        idx := (pos + 1) % size;
      } else {
        KeepStep(repo, r, order, t, nodes);
      }
      t := t + 1;
    }
    AssignFinal(repo, r, order, nodes);
  }

  /** The round-robin loop's state after the first `t` keys of `order`. */
  predicate AssignState(repo: Repo, r: Repo, order: seq<string>, t: nat, nodes: seq<Node>) {
    && IsOrder(repo, order) && t <= |order|
    && r.Keys == repo.Keys
    && (forall k :: k in repo && Assigned(repo[k]) ==> r[k] == repo[k])
    && (forall i :: t <= i < |order| ==> r[order[i]] == repo[order[i]])
    && (forall i :: 0 <= i < t && !Assigned(repo[order[i]]) ==> AssignedTo(repo, r, order[i], nodes))
  }

  /** Giving the next unassigned key an active node keeps the loop state. */
  lemma AssignStep(repo: Repo, r: Repo, order: seq<string>, t: nat, nodes: seq<Node>, pos: nat)
    requires AssignState(repo, r, order, t, nodes) && t < |order| && !Assigned(r[order[t]])
    requires pos < |nodes| && nodes[pos].active
    ensures AssignState(repo, r[order[t] := r[order[t]].(affinity := Some(nodes[pos]))], order, t + 1, nodes)
  {
    var r' := r[order[t] := r[order[t]].(affinity := Some(nodes[pos]))];
    assert r[order[t]] == repo[order[t]];
    forall i | t + 1 <= i < |order| ensures r'[order[i]] == repo[order[i]] {
      assert order[i] != order[t];
    }
    forall i | 0 <= i < t && !Assigned(repo[order[i]]) ensures AssignedTo(repo, r', order[i], nodes) {
      assert order[i] != order[t];
    }
  }

  /** Passing over an already assigned key keeps the loop state. */
  lemma KeepStep(repo: Repo, r: Repo, order: seq<string>, t: nat, nodes: seq<Node>)
    requires AssignState(repo, r, order, t, nodes) && t < |order| && Assigned(r[order[t]])
    ensures AssignState(repo, r, order, t + 1, nodes)
  {
    assert r[order[t]] == repo[order[t]];
  }

  /** After every key of `order`, each unassigned spec has been given an active node. */
  lemma AssignFinal(repo: Repo, r: Repo, order: seq<string>, nodes: seq<Node>)
    requires AssignState(repo, r, order, |order|, nodes)
    ensures r.Keys == repo.Keys
    ensures forall k :: k in repo && Assigned(repo[k]) ==> r[k] == repo[k]
    ensures forall k :: k in repo && !Assigned(repo[k]) ==> AssignedTo(repo, r, k, nodes)
  {
    forall k | k in repo && !Assigned(repo[k]) ensures AssignedTo(repo, r, k, nodes) {
      var i :| 0 <= i < |order| && order[i] == k;
    }
  }

  /** Spec `k` kept everything but its affinity, which now names an active node of `nodes`. */
  predicate AssignedTo(repo: Repo, r: Repo, k: string, nodes: seq<Node>)
    requires k in repo && k in r
  {
    && r[k] == repo[k].(affinity := r[k].affinity)
    && r[k].affinity.Some? && r[k].affinity.value in nodes && r[k].affinity.value.active
  }
}
