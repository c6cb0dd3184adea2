/** Every run of insertions and deletions on a digest-free trie is a run on a finite map. */
module TrieRuns {
  import opened Bytes
  import opened HexPrefix
  import opened Mpt
  import opened TrieMap

  /** The trie answers every lookup as the map does. */
  ghost predicate Represents(n: Node, m: map<Key, Value>)
  {
    forall k: Key :: GetNibs(n, k) == Ok(if k in m then Some(m[k]) else None)
  }

  // ----- When an insertion is refused -----

  predicate Comparable(a: Key, b: Key)
  {
    a != b && (a <= b || b <= a)
  }

  /** A refused insertion has met a key that is a proper prefix of the new one or extends it. */
  lemma {:induction false} InsertErrWitness(n: Node, k: Key, v: Value) returns (q: Key)
    requires Canon(n) && Full(n) && InsertNibs(n, k, v).1.Err?
    ensures InsertNibs(n, k, v).1 == Err(ValueInBranch)
    ensures Holds(n, q) && Comparable(q, k)
  {
    hide PrefixNibs, IsNormal, LeafAt, Fork;
    match n
    case Branch(cs) =>
      if k == [] {
        q := SomeKey(n);
        MeetsHolds(n, q);
      } else {
        assert Occupied(cs, k[0]);
        var t := InsertErrWitness(cs[k[0]].value, k[1..], v);
        q := [k[0]] + t;
        assert q[1..] == t && k == [k[0]] + k[1..];
      }
    case Leaf(prefix, _) => q := PrefixNibs(prefix); InsertErrLeaf(q, k);
    case Extension(prefix, child) =>
      var nibs := PrefixNibs(prefix);
      var l := Lcp(nibs, k);
      if l == |nibs| {
        var t := InsertErrWitness(child, k[l..], v);
        q := nibs + t;
        assert q[l..] == t && k == nibs + k[l..];
      } else {
        q := SomeKey(n);
        MeetsHolds(n, q);
        assert nibs <= q && k <= nibs;
      }
  }

  lemma InsertErrLeaf(nibs: Key, k: Key)
    requires var l := Lcp(nibs, k); (l == |nibs|) != (l == |k|)
    ensures Comparable(nibs, k)
  {
  }

  /** A key comparable with one already there is refused. */
  lemma {:induction false} InsertClash(n: Node, k: Key, v: Value, q: Key)
    requires Canon(n) && Full(n) && Holds(n, q) && Comparable(q, k)
    ensures InsertNibs(n, k, v).1.Err?
  {
    hide PrefixNibs, IsNormal, LeafAt, Fork, Lcp;
    match n
    case Branch(cs) =>
      if k != [] {
        assert Occupied(cs, q[0]) && q == [q[0]] + q[1..] && k == [k[0]] + k[1..];
        InsertClash(cs[q[0]].value, k[1..], v, q[1..]);
      }
    case Leaf(prefix, _) => LcpComparable(q, k);
    case Extension(prefix, child) =>
      var nibs := PrefixNibs(prefix);
      var l := Lcp(nibs, k);
      assert nibs <= q && q == nibs + q[|nibs|..];
      LcpPrefix(nibs, q, k);
      if l == |nibs| {
        assert k == nibs + k[l..];
        InsertClash(child, k[l..], v, q[l..]);
      }
  }

  lemma LcpComparable(a: Key, b: Key)
    requires Comparable(a, b)
    ensures var l := Lcp(a, b); (l == |a|) != (l == |b|)
  {
  }

  /** A path that begins a key comparable with `k` either begins `k` or is begun by it. */
  lemma LcpPrefix(p: Key, q: Key, k: Key)
    requires p <= q && Comparable(q, k)
    ensures Lcp(p, k) == |p| || Lcp(p, k) == |k|
  {
  }

  // ----- When a deletion is refused -----

  /** Two keys pass through `k` and part right after it. */
  predicate PartAt(k: Key, a: Key, b: Key)
  {
    k < a && k < b && a[|k|] != b[|k|]
  }

  /** A refused deletion ends on a branch, so two keys part there. */
  lemma {:induction false} DeleteErrWitness(n: Node, k: Key) returns (a: Key, b: Key)
    requires Canon(n) && Full(n) && DeleteNibs(n, k).1.Err?
    ensures DeleteNibs(n, k).1 == Err(ValueInBranch)
    ensures Holds(n, a) && Holds(n, b) && PartAt(k, a, b)
  {
    hide PrefixNibs, IsNormal, Collapse, Rejoin;
    match n
    case Branch(cs) =>
      if k == [] {
        a, b := BranchKeys(cs);
      } else {
        assert Occupied(cs, k[0]);
        var x, y := DeleteErrWitness(cs[k[0]].value, k[1..]);
        a, b := [k[0]] + x, [k[0]] + y;
        assert a[1..] == x && b[1..] == y && k == [k[0]] + k[1..];
      }
    case Extension(prefix, child) =>
      var nibs := PrefixNibs(prefix);
      var x, y := DeleteErrWitness(child, k[|nibs|..]);
      a, b := nibs + x, nibs + y;
      assert a[|nibs|..] == x && b[|nibs|..] == y && k == nibs + k[|nibs|..];
  }

  lemma {:induction false} DeleteParted(n: Node, k: Key, a: Key, b: Key)
    requires Canon(n) && Full(n) && Holds(n, a) && Holds(n, b) && PartAt(k, a, b)
    ensures DeleteNibs(n, k).1.Err?
  {
    hide PrefixNibs, IsNormal, Collapse, Rejoin;
    match n
    case Branch(cs) =>
      if k != [] {
        assert Occupied(cs, k[0]) && k == [k[0]] + k[1..];
        assert a == [k[0]] + a[1..] && b == [k[0]] + b[1..];
        DeleteParted(cs[k[0]].value, k[1..], a[1..], b[1..]);
      }
    case Leaf(prefix, _) =>
    case Extension(prefix, child) =>
      var nibs := PrefixNibs(prefix);
      assert nibs <= a && nibs <= b;
      assert nibs <= k;
      assert k == nibs + k[|nibs|..] && a == nibs + a[|nibs|..] && b == nibs + b[|nibs|..];
      DeleteParted(child, k[|nibs|..], a[|nibs|..], b[|nibs|..]);
  }

  // ----- Refinement of a finite map -----

  datatype Op = Put(key: Key, value: Value) | Remove(key: Key)

  function Apply(n: Node, op: Op): (Node, Result<bool>)
  {
    match op
    case Put(k, v) => InsertNibs(n, k, v)
    case Remove(k) => DeleteNibs(n, k)
  }

  /** What the operation does to the map, and what it answers. */
  ghost function MapApply(m: map<Key, Value>, op: Op): (map<Key, Value>, Result<bool>)
  {
    match op
    case Put(k, v) =>
      if exists q :: q in m && Comparable(q, k) then (m, Err(ValueInBranch))
      else (m[k := v], Ok(m[k := v] != m))
    case Remove(k) =>
      if exists a, b :: a in m && b in m && PartAt(k, a, b) then (m, Err(ValueInBranch))
      else (m - {k}, Ok(m - {k} != m))
  }

  lemma ApplyRefines(n: Node, m: map<Key, Value>, op: Op)
    requires Canon(n) && Full(n) && Represents(n, m)
    ensures var (n', r), (m', s) := Apply(n, op), MapApply(m, op);
            r == s && Canon(n') && Full(n') && Represents(n', m')
  {
    match op
    case Put(k, v) => PutRefines(n, m, k, v);
    case Remove(k) => RemoveRefines(n, m, k);
  }

  lemma PutRefines(n: Node, m: map<Key, Value>, k: Key, v: Value)
    requires Canon(n) && Full(n) && Represents(n, m)
    ensures var (n', r), (m', s) := InsertNibs(n, k, v), MapApply(m, Put(k, v));
            r == s && Canon(n') && Full(n') && Represents(n', m')
  {
    hide InsertNibs, GetNibs, Canon, Full;
    InsertUnchanged(n, k, v);
    if InsertNibs(n, k, v).1.Err? {
      var q := InsertErrWitness(n, k, v);
      assert q in m && Comparable(q, k);
    } else {
      forall q | q in m ensures !Comparable(q, k) {
        if Comparable(q, k) { InsertClash(n, k, v, q); }
      }
      forall q ensures GetNibs(InsertNibs(n, k, v).0, q) == Ok(if q in m[k := v] then Some(m[k := v][q]) else None) {
        GetAfterInsert(n, k, v, q);
      }
      GetAfterInsert(n, k, v, k);
      InsertCanon(n, k, v);
      assert m[k := v] == m <==> k in m && m[k] == v;
    }
  }

  lemma RemoveRefines(n: Node, m: map<Key, Value>, k: Key)
    requires Canon(n) && Full(n) && Represents(n, m)
    ensures var (n', r), (m', s) := DeleteNibs(n, k), MapApply(m, Remove(k));
            r == s && Canon(n') && Full(n') && Represents(n', m')
  {
    hide DeleteNibs, GetNibs, Canon, Full;
    DeleteUnchanged(n, k);
    DeleteCanon(n, k);
    if DeleteNibs(n, k).1.Err? {
      var a, b := DeleteErrWitness(n, k);
      assert a in m && b in m && PartAt(k, a, b);
    } else {
      forall a, b | a in m && b in m ensures !PartAt(k, a, b) {
        if PartAt(k, a, b) { DeleteParted(n, k, a, b); }
      }
      forall q ensures GetNibs(DeleteNibs(n, k).0, q) == Ok(if q in m - {k} then Some((m - {k})[q]) else None) {
        GetAfterDelete(n, k, q);
      }
      GetAfterDelete(n, k, k);
      assert m - {k} == m <==> k !in m;
    }
  }

  // ----- Runs -----

  function Run(n: Node, ops: seq<Op>): Node
    decreases |ops|
  {
    if ops == [] then n else Run(Apply(n, ops[0]).0, ops[1..])
  }

  function Answers(n: Node, ops: seq<Op>): seq<Result<bool>>
    decreases |ops|
  {
    if ops == [] then [] else
      var (n', r) := Apply(n, ops[0]);
      [r] + Answers(n', ops[1..])
  }

  ghost function MapRun(m: map<Key, Value>, ops: seq<Op>): map<Key, Value>
    decreases |ops|
  {
    if ops == [] then m else MapRun(MapApply(m, ops[0]).0, ops[1..])
  }

  ghost function MapAnswers(m: map<Key, Value>, ops: seq<Op>): seq<Result<bool>>
    decreases |ops|
  {
    if ops == [] then [] else
      var (m', r) := MapApply(m, ops[0]);
      [r] + MapAnswers(m', ops[1..])
  }

  /** Lookups and answers of every run, from any canonical trie, are those of the map. */
  lemma {:induction false} RunRefines(n: Node, m: map<Key, Value>, ops: seq<Op>)
    requires Canon(n) && Full(n) && Represents(n, m)
    ensures Represents(Run(n, ops), MapRun(m, ops))
    ensures Answers(n, ops) == MapAnswers(m, ops)
    ensures Canon(Run(n, ops)) && Full(Run(n, ops))
    decreases |ops|
  {
    hide Apply, MapApply, Canon, Full, Represents;
    if ops != [] {
      ApplyRefines(n, m, ops[0]);
      RunRefines(Apply(n, ops[0]).0, MapApply(m, ops[0]).0, ops[1..]);
    }
  }

  /** The canonical trie of a map is unique. */
  lemma RepresentsUnique(a: Node, b: Node, m: map<Key, Value>)
    requires Canon(a) && Full(a) && Canon(b) && Full(b) && Represents(a, m) && Represents(b, m)
    ensures a == b
  {
    hide Canon, Full;
    assert SameMap(a, b);
    Unique(a, b);
  }

  /** The trie, and so its root hash, depends on the final map alone and not on how it came about. */
  lemma HistoryIndependent(ops: seq<Op>, ops': seq<Op>)
    requires MapRun(map[], ops) == MapRun(map[], ops')
    ensures Run(Null, ops) == Run(Null, ops')
  {
    RunRefines(Null, map[], ops);
    RunRefines(Null, map[], ops');
    RepresentsUnique(Run(Null, ops), Run(Null, ops'), MapRun(map[], ops));
  }

  /** With keys of one length no operation is refused, and the map is updated plainly. */
  lemma {:induction false} UniformRun(n: Node, m: map<Key, Value>, ops: seq<Op>, length: nat)
    requires Canon(n) && Full(n) && Represents(n, m)
    requires forall k :: k in m ==> |k| == length
    requires forall i :: 0 <= i < |ops| ==> |ops[i].key| == length
    ensures forall r :: r in Answers(n, ops) ==> r.Ok?
    ensures Represents(Run(n, ops), PlainRun(m, ops))
    decreases |ops|
  {
    hide Apply, Canon, Full, Represents;
    if ops != [] {
      ApplyRefines(n, m, ops[0]);
      assert MapApply(m, ops[0]).0 == PlainApply(m, ops[0]);
      UniformRun(Apply(n, ops[0]).0, PlainApply(m, ops[0]), ops[1..], length);
    }
  }

  function PlainApply(m: map<Key, Value>, op: Op): map<Key, Value>
  {
    if op.Put? then m[op.key := op.value] else m - {op.key}
  }

  function PlainRun(m: map<Key, Value>, ops: seq<Op>): map<Key, Value>
    decreases |ops|
  {
    if ops == [] then m else PlainRun(PlainApply(m, ops[0]), ops[1..])
  }

  // ----- A batch of updates, in any order -----

  /** New values by key; `None` removes the key. */
  type Updates = map<Key, Option<Value>>

  function Overlay(m: map<Key, Value>, u: Updates): map<Key, Value>
  {
    map k | k in m.Keys + u.Keys && (k in u ==> u[k].Some?) :: if k in u then u[k].value else m[k]
  }

  function OpFor(u: Updates, k: Key): Op
    requires k in u
  {
    if u[k].Some? then Put(k, u[k].value) else Remove(k)
  }

  function Batch(u: Updates, order: seq<Key>): (ops: seq<Op>)
    requires forall i :: 0 <= i < |order| ==> order[i] in u
    ensures |ops| == |order| && forall i :: 0 <= i < |order| ==> ops[i] == OpFor(u, order[i])
  {
    seq(|order|, i requires 0 <= i < |order| => OpFor(u, order[i]))
  }

  ghost predicate Distinct<T>(s: seq<T>)
  {
    forall i, j :: 0 <= i < j < |s| ==> s[i] != s[j]
  }

  /** A listing of a set, each element once, in some order. */
  ghost predicate Lists<T(!new)>(order: seq<T>, s: set<T>)
  {
    Distinct(order) && forall x :: x in order <==> x in s
  }

  /** The updates of the keys in `ks`. */
  function Only(u: Updates, ks: set<Key>): Updates
  {
    map k | k in u && k in ks :: u[k]
  }

  lemma PlainStep(m: map<Key, Value>, u: Updates, done: set<Key>, k: Key)
    requires k in u
    ensures PlainApply(Overlay(m, Only(u, done)), OpFor(u, k)) == Overlay(m, Only(u, done + {k}))
  {
    assert Only(u, done + {k}) == Only(u, done)[k := u[k]];
    OverlayOne(m, Only(u, done), k, u[k]);
  }

  lemma OverlayOne(m: map<Key, Value>, u: Updates, k: Key, v: Option<Value>)
    ensures v.Some? ==> Overlay(m, u[k := v]) == Overlay(m, u)[k := v.value]
    ensures v.None? ==> Overlay(m, u[k := v]) == Overlay(m, u) - {k}
  {
  }

  lemma {:induction false} BatchPlain(m: map<Key, Value>, u: Updates, done: set<Key>, order: seq<Key>)
    requires forall i :: 0 <= i < |order| ==> order[i] in u
    ensures PlainRun(Overlay(m, Only(u, done)), Batch(u, order)) == Overlay(m, Only(u, done + Elements(order)))
    decreases |order|
  {
    var ops := Batch(u, order);
    if order == [] {
      assert done + Elements(order) == done;
    } else {
      var k := order[0];
      assert ops[1..] == Batch(u, order[1..]);
      PlainStep(m, u, done, k);
      hide Overlay, Only, PlainApply;
      BatchPlain(m, u, done + {k}, order[1..]);
      assert order == [k] + order[1..];
      assert done + {k} + Elements(order[1..]) == done + Elements(order);
    }
  }

  ghost function Elements(order: seq<Key>): set<Key>
  {
    set k | k in order
  }

  /** A batch with keys of one length succeeds, and its meaning does not depend on its order. */
  lemma BatchMeaning(n: Node, m: map<Key, Value>, u: Updates, order: seq<Key>, length: nat)
    requires Canon(n) && Full(n) && Represents(n, m)
    requires (forall k :: k in m ==> |k| == length) && (forall k :: k in u ==> |k| == length)
    requires forall i :: 0 <= i < |order| ==> order[i] in u
    ensures var n' := Run(n, Batch(u, order));
            Canon(n') && Full(n') && Represents(n', Overlay(m, Only(u, Elements(order))))
    ensures forall r :: r in Answers(n, Batch(u, order)) ==> r.Ok?
  {
    hide Canon, Full, Represents;
    var ops := Batch(u, order);
    RunRefines(n, m, ops);
    UniformRun(n, m, ops, length);
    BatchPlain(m, u, {}, order);
    assert Overlay(m, Only(u, {})) == m;
    assert {} + Elements(order) == Elements(order);
  }

  /** A batch that lists all its updates. */
  lemma BatchAll(n: Node, m: map<Key, Value>, u: Updates, order: seq<Key>, length: nat)
    requires Canon(n) && Full(n) && Represents(n, m)
    requires (forall k :: k in m ==> |k| == length) && (forall k :: k in u ==> |k| == length)
    requires forall i :: 0 <= i < |order| ==> order[i] in u
    requires forall k :: k in u ==> k in order
    ensures var n' := Run(n, Batch(u, order));
            Canon(n') && Full(n') && Represents(n', Overlay(m, u))
  {
    hide Canon, Full, Represents, Overlay, Run;
    BatchMeaning(n, m, u, order, length);
    assert Only(u, Elements(order)) == u;
  }

  /** Two listings of the same updates give the same trie. */
  lemma BatchOrder(n: Node, m: map<Key, Value>, u: Updates, order: seq<Key>, order': seq<Key>, length: nat)
    requires Canon(n) && Full(n) && Represents(n, m)
    requires (forall k :: k in m ==> |k| == length) && (forall k :: k in u ==> |k| == length)
    requires Lists(order, u.Keys) && Lists(order', u.Keys)
    ensures Run(n, Batch(u, order)) == Run(n, Batch(u, order'))
  {
    BatchMeaning(n, m, u, order, length);
    BatchMeaning(n, m, u, order', length);
    hide Run, Batch, Overlay, Only, Represents, Canon, Full;
    assert Elements(order) == u.Keys == Elements(order');
    RepresentsUnique(Run(n, Batch(u, order)), Run(n, Batch(u, order')), Overlay(m, Only(u, Elements(order))));
  }

  lemma {:induction false} RunAppend(n: Node, ops: seq<Op>, op: Op)
    ensures Run(n, ops + [op]) == Apply(Run(n, ops), op).0
    ensures Answers(n, ops + [op]) == Answers(n, ops) + [Apply(Run(n, ops), op).1]
    decreases |ops|
  {
    hide Apply;
    if ops == [] {
      assert ops + [op] == [op] && [op][1..] == [];
    } else {
      RunAppend(Apply(n, ops[0]).0, ops[1..], op);
      assert (ops + [op])[1..] == ops[1..] + [op];
    }
  }

  /** One more key of a batch. */
  lemma BatchStep(n: Node, m: map<Key, Value>, u: Updates, done: seq<Key>, k: Key, length: nat)
    requires Canon(n) && Full(n) && Represents(n, m) && k in u
    requires (forall q :: q in m ==> |q| == length) && (forall q :: q in u ==> |q| == length)
    requires forall i :: 0 <= i < |done| ==> done[i] in u
    ensures Apply(Run(n, Batch(u, done)), OpFor(u, k)).1.Ok?
    ensures Apply(Run(n, Batch(u, done)), OpFor(u, k)).0 == Run(n, Batch(u, done + [k]))
  {
    hide Canon, Full, Represents, Apply, OpFor, Overlay, Only;
    BatchMeaning(n, m, u, done + [k], length);
    var ops := Batch(u, done);
    assert Batch(u, done + [k]) == ops + [OpFor(u, k)];
    RunAppend(n, ops, OpFor(u, k));
    var answers := Answers(n, ops + [OpFor(u, k)]);
    assert answers[|answers| - 1] in answers;
  }
}
