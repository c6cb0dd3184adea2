/** The sparse Merkle Patricia trie: nodes, lookup, insertion and deletion on values.

    A node is the value of an `MptNode` without its reference cache, which is what `==` compares on
    the Rust side. An operation that mutates a node returns the node as it stands afterwards, also
    when it fails, so that "an error changes nothing" is a theorem and not a convention. */
module Mpt {
  import opened Bytes
  import opened HexPrefix

  type Key = seq<nibble>
  type Value = seq<byte>

  /** Sixteen optional slots, one per nibble. */
  type Slots<T> = cs: seq<Option<T>> | |cs| == 16 witness seq(16, _ => None)

  datatype Node =
    | Null
    | Branch(children: Slots<Node>)
    | Leaf(prefix: Path, value: Value)
    | Extension(prefix: Path, child: Node)
    | Digest(digest: Bytes32)

  datatype Error = NodeNotResolved(digest: Bytes32) | ValueInBranch

  /** `Panic` stands for an `unwrap` of nothing or an `unreachable!` that is reached. */
  datatype Result<+T> = Ok(value: T) | Err(error: Error) | Panic

  function EmptySlots(): (cs: Slots<Node>)
  {
    seq(16, _ => None)
  }

  function LeafAt(k: Key, v: Value): Node
  {
    Leaf(ToEncodedPath(k, true), v)
  }

  function ExtensionAt(k: Key, child: Node): Node
  {
    Extension(ToEncodedPath(k, false), child)
  }

  // ----- get_internal -----

  function GetNibs(n: Node, k: Key): Result<Option<Value>>
  {
    match n
    case Null => Ok(None)
    case Branch(cs) =>
      if k == [] || cs[k[0]].None? then Ok(None) else GetNibs(cs[k[0]].value, k[1..])
    case Leaf(prefix, value) => if PrefixNibs(prefix) == k then Ok(Some(value)) else Ok(None)
    case Extension(prefix, child) =>
      var nibs := PrefixNibs(prefix);
      if nibs <= k then GetNibs(child, k[|nibs|..]) else Ok(None)
    case Digest(digest) => Err(NodeNotResolved(digest))
  }

  // ----- insert_internal -----

  /** A branch with the two given children, below an extension if they share a non-empty path. */
  function Fork(common: Key, i: nibble, a: Node, j: nibble, b: Node): Node
  {
    var branch := Branch(EmptySlots()[i := Some(a)][j := Some(b)]);
    if common == [] then branch else ExtensionAt(common, branch)
  }

  function InsertNibs(n: Node, k: Key, v: Value): (Node, Result<bool>)
  {
    match n
    case Null => (LeafAt(k, v), Ok(true))
    case Branch(cs) =>
      if k == [] then (n, Err(ValueInBranch))
      else if cs[k[0]].None? then (Branch(cs[k[0] := Some(LeafAt(k[1..], v))]), Ok(true))
      else
        var (c, r) := InsertNibs(cs[k[0]].value, k[1..], v);
        (Branch(cs[k[0] := Some(c)]), r)
    case Leaf(prefix, prior) =>
      var nibs := PrefixNibs(prefix);
      var l := Lcp(nibs, k);
      if l == |nibs| && l == |k| then
        if prior == v then (n, Ok(false)) else (Leaf(prefix, v), Ok(true))
      else if l == |nibs| || l == |k| then (n, Err(ValueInBranch))
      else
        (Fork(nibs[..l], nibs[l], LeafAt(nibs[l + 1..], prior), k[l], LeafAt(k[l + 1..], v)), Ok(true))
    case Extension(prefix, child) =>
      var nibs := PrefixNibs(prefix);
      var l := Lcp(nibs, k);
      if l == |nibs| then
        var (c, r) := InsertNibs(child, k[l..], v);
        (Extension(prefix, c), r)
      else if l == |k| then (n, Err(ValueInBranch))
      else
        var rest := if l + 1 < |nibs| then ExtensionAt(nibs[l + 1..], child) else child;
        (Fork(nibs[..l], nibs[l], rest, k[l], LeafAt(k[l + 1..], v)), Ok(true))
    case Digest(digest) => (n, Err(NodeNotResolved(digest)))
  }

  // ----- delete_internal -----

  /** The first occupied slot at or after `from`, or 16. */
  function FirstSome(cs: Slots<Node>, from: nat): (r: nat)
    requires from <= 16
    ensures from <= r <= 16
    ensures forall j :: from <= j < r ==> cs[j].None?
    ensures r < 16 ==> cs[r].Some?
    decreases 16 - from
  {
    if from == 16 || cs[from].Some? then from else FirstSome(cs, from + 1)
  }

  /** The node that takes the place of a branch whose only remaining child is `orphan`. */
  function Adopt(index: nibble, orphan: Node): (s: (Node, Result<bool>))
    ensures s.1 == if orphan.Null? then Panic else Ok(true)
  {
    match orphan
    case Leaf(prefix, value) => (LeafAt([index] + PrefixNibs(prefix), value), Ok(true))
    case Extension(prefix, child) => (ExtensionAt([index] + PrefixNibs(prefix), child), Ok(true))
    case Branch(_) => (ExtensionAt([index], orphan), Ok(true))
    case Digest(_) => (ExtensionAt([index], orphan), Ok(true))
    case Null => (Null, Panic)
  }

  /** A branch after one of its children was modified or removed. */
  function Collapse(cs: Slots<Node>): (s: (Node, Result<bool>))
    ensures s.1 == Ok(true) || s.1.Panic?
  {
    var index := FirstSome(cs, 0);
    if index == 16 then (Branch(cs), Panic)
    else if FirstSome(cs, index + 1) < 16 then (Branch(cs), Ok(true))
    else Adopt(index, cs[index].value)
  }

  /** An extension after its child was modified. */
  function Rejoin(prefix: Path, child: Node): Node
  {
    var nibs := PrefixNibs(prefix);
    match child
    case Null => Null
    case Leaf(p, value) => LeafAt(nibs + PrefixNibs(p), value)
    case Extension(p, grandchild) => ExtensionAt(nibs + PrefixNibs(p), grandchild)
    case Branch(_) => Extension(prefix, child)
    case Digest(_) => Extension(prefix, child)
  }

  function Slot(n: Node): Option<Node>
  {
    if n.Null? then None else Some(n)
  }

  function DeleteNibs(n: Node, k: Key): (Node, Result<bool>)
  {
    match n
    case Null => (n, Ok(false))
    case Branch(cs) =>
      if k == [] then (n, Err(ValueInBranch))
      else if cs[k[0]].None? then (n, Ok(false))
      else
        var (c, r) := DeleteNibs(cs[k[0]].value, k[1..]);
        if r != Ok(true) then (Branch(cs[k[0] := Some(c)]), r)
        else Collapse(cs[k[0] := Slot(c)])
    case Leaf(prefix, _) => if PrefixNibs(prefix) != k then (n, Ok(false)) else (Null, Ok(true))
    case Extension(prefix, child) =>
      var nibs := PrefixNibs(prefix);
      if nibs <= k then
        var (c, r) := DeleteNibs(child, k[|nibs|..]);
        if r != Ok(true) then (Extension(prefix, c), r) else (Rejoin(prefix, c), Ok(true))
      else (n, Ok(false))
    case Digest(digest) => (n, Err(NodeNotResolved(digest)))
  }

  // ----- A failing operation changes nothing -----

  lemma {:induction false} InsertUnchanged(n: Node, k: Key, v: Value)
    ensures InsertNibs(n, k, v).1 != Ok(true) ==> InsertNibs(n, k, v).0 == n
    ensures !InsertNibs(n, k, v).1.Panic?
  {
    match n
    case Branch(cs) =>
      if k != [] && cs[k[0]].Some? { InsertUnchanged(cs[k[0]].value, k[1..], v); }
    case Extension(prefix, child) =>
      InsertUnchanged(child, k[Lcp(PrefixNibs(prefix), k)..], v);
    case _ =>
  }

  lemma {:induction false} DeleteUnchanged(n: Node, k: Key)
    ensures var (n', r) := DeleteNibs(n, k); r != Ok(true) && !r.Panic? ==> n' == n
  {
    hide PrefixNibs, Collapse, Rejoin;
    match n
    case Branch(cs) =>
      if k != [] && cs[k[0]].Some? { DeleteUnchanged(cs[k[0]].value, k[1..]); }
    case Extension(prefix, child) =>
      if PrefixNibs(prefix) <= k { DeleteUnchanged(child, k[|PrefixNibs(prefix)|..]); }
    case _ =>
  }

  // ----- Lookup after an operation -----

  /** Lookup below a path. */
  lemma GetLeafAt(p: Key, v: Value, k: Key)
    ensures GetNibs(LeafAt(p, v), k) == Ok(if p == k then Some(v) else None)
  {
    PathRoundTrip(p, true);
  }

  lemma GetExtensionAt(p: Key, c: Node, k: Key)
    ensures GetNibs(ExtensionAt(p, c), k) == if p <= k then GetNibs(c, k[|p|..]) else Ok(None)
  {
    PathRoundTrip(p, false);
  }

  lemma GetFork(common: Key, i: nibble, a: Node, j: nibble, b: Node, k: Key)
    requires i != j
    ensures GetNibs(Fork(common, i, a, j, b), k) ==
            if common + [i] <= k then GetNibs(a, k[|common| + 1..])
            else if common + [j] <= k then GetNibs(b, k[|common| + 1..])
            else Ok(None)
  {
    hide PrefixNibs, ToEncodedPath;
    var branch := Branch(EmptySlots()[i := Some(a)][j := Some(b)]);
    GetExtensionAt(common, branch, k);
    if common <= k {
      var tail := k[|common|..];
      assert k == common + tail;
      if tail != [] {
        assert tail[1..] == k[|common| + 1..];
        assert tail[0] == k[|common|];
        assert k[..|common| + 1] == common + [tail[0]];
      }
    }
  }

  /** After an insertion the key has the value and every other lookup is as before. */
  lemma {:induction false} GetAfterInsert(n: Node, k: Key, v: Value, q: Key)
    requires InsertNibs(n, k, v).1.Ok?
    ensures GetNibs(InsertNibs(n, k, v).0, q) == if q == k then Ok(Some(v)) else GetNibs(n, q)
    ensures InsertNibs(n, k, v).1.value <==> GetNibs(n, k) != Ok(Some(v))
    decreases n, 1
  {
    hide PrefixNibs, ToEncodedPath, LeafAt, Fork, Lcp;
    match n
    case Null => GetLeafAt(k, v, q);
    case Branch(cs) =>
      if cs[k[0]].Some? {
        GetAfterInsert(cs[k[0]].value, k[1..], v, if q != [] && q[0] == k[0] then q[1..] else k[1..]);
      } else {
        GetLeafAt(k[1..], v, if q != [] then q[1..] else []);
      }
      if q != [] { assert q == [q[0]] + q[1..]; }
      assert k == [k[0]] + k[1..];
    case Leaf(prefix, prior) => GetAfterInsertLeaf(n, k, v, q);
    case Extension(prefix, child) => GetAfterInsertExtension(n, k, v, q);
  }

  lemma PrefixSplit(p: Key, l: nat, q: Key)
    requires l < |p|
    ensures p <= q <==> p[..l] + [p[l]] <= q && p[l + 1..] <= q[l + 1..]
    ensures p <= q ==> q[|p|..] == q[l + 1..][|p| - l - 1..]
  {
    assert p == p[..l] + [p[l]] + p[l + 1..];
    if p[..l] + [p[l]] <= q && p[l + 1..] <= q[l + 1..] {
      assert q == q[..l + 1] + q[l + 1..];
    }
    if p <= q {
      assert q[..l + 1] == p[..l + 1];
      assert q[l + 1..][..|p| - l - 1] == p[l + 1..];
    }
  }

  lemma GetAfterInsertLeaf(n: Node, k: Key, v: Value, q: Key)
    requires n.Leaf? && InsertNibs(n, k, v).1.Ok?
    ensures GetNibs(InsertNibs(n, k, v).0, q) == if q == k then Ok(Some(v)) else GetNibs(n, q)
    ensures InsertNibs(n, k, v).1.value <==> GetNibs(n, k) != Ok(Some(v))
  {
    hide PrefixNibs, ToEncodedPath, LeafAt, Fork, Lcp;
    var nibs := PrefixNibs(n.prefix);
    var l := Lcp(nibs, k);
    if l < |nibs| && l < |k| {
      var common := nibs[..l];
      GetFork(common, nibs[l], LeafAt(nibs[l + 1..], n.value), k[l], LeafAt(k[l + 1..], v), q);
      PrefixSplit(nibs, l, q);
      PrefixSplit(k, l, q);
      if l < |q| {
        GetLeafAt(nibs[l + 1..], n.value, q[l + 1..]);
        GetLeafAt(k[l + 1..], v, q[l + 1..]);
        assert q == q[..l] + [q[l]] + q[l + 1..];
        assert k == k[..l] + [k[l]] + k[l + 1..];
        assert nibs == nibs[..l] + [nibs[l]] + nibs[l + 1..];
      }
    } else {
      assert nibs == nibs[..|nibs|] && k == k[..|k|];
    }
  }

  lemma {:induction false} GetAfterInsertExtension(n: Node, k: Key, v: Value, q: Key)
    requires n.Extension? && InsertNibs(n, k, v).1.Ok?
    ensures GetNibs(InsertNibs(n, k, v).0, q) == if q == k then Ok(Some(v)) else GetNibs(n, q)
    ensures InsertNibs(n, k, v).1.value <==> GetNibs(n, k) != Ok(Some(v))
    decreases n, 0
  {
    hide PrefixNibs, ToEncodedPath, LeafAt, ExtensionAt, Fork, Lcp;
    var nibs, child := PrefixNibs(n.prefix), n.child;
    var l := Lcp(nibs, k);
    if l == |nibs| {
      assert k == nibs + k[l..] && nibs <= k;
      if nibs <= q {
        assert q == nibs + q[l..];
        GetAfterInsert(child, k[l..], v, q[l..]);
      } else {
        GetAfterInsert(child, k[l..], v, k[l..]);
      }
    } else {
      assert !(nibs <= k);
      var rest := if l + 1 < |nibs| then ExtensionAt(nibs[l + 1..], child) else child;
      GetFork(nibs[..l], nibs[l], rest, k[l], LeafAt(k[l + 1..], v), q);
      PrefixSplit(nibs, l, q);
      PrefixSplit(k, l, q);
      if l < |q| {
        GetExtensionAt(nibs[l + 1..], child, q[l + 1..]);
        GetLeafAt(k[l + 1..], v, q[l + 1..]);
        assert k == k[..l] + [k[l]] + k[l + 1..];
        assert q == q[..l] + [q[l]] + q[l + 1..];
      }
    }
  }

  lemma GetAdopt(index: nibble, orphan: Node, q: Key)
    requires !orphan.Null?
    ensures GetNibs(Adopt(index, orphan).0, q) ==
            if [index] <= q then GetNibs(orphan, q[1..]) else Ok(None)
  {
    if q != [] { assert q == [q[0]] + q[1..]; }
    match orphan
    case Leaf(prefix, value) => GetLeafAt([index] + PrefixNibs(prefix), value, q);
    case Extension(prefix, child) =>
      GetExtensionAt([index] + PrefixNibs(prefix), child, q);
      PrefixSplit([index] + PrefixNibs(prefix), 0, q);
    case _ => GetExtensionAt([index], orphan, q);
  }

  lemma GetCollapse(cs: Slots<Node>, q: Key)
    requires Collapse(cs).1.Ok?
    ensures GetNibs(Collapse(cs).0, q) == GetNibs(Branch(cs), q)
  {
    var index := FirstSome(cs, 0);
    if FirstSome(cs, index + 1) == 16 {
      GetAdopt(index, cs[index].value, q);
      if q != [] { assert [index] <= q <==> q[0] == index; }
    }
  }

  lemma GetRejoin(prefix: Path, child: Node, q: Key)
    ensures GetNibs(Rejoin(prefix, child), q) ==
            if PrefixNibs(prefix) <= q then GetNibs(child, q[|PrefixNibs(prefix)|..]) else Ok(None)
  {
    hide PrefixNibs, ToEncodedPath;
    var nibs := PrefixNibs(prefix);
    if nibs <= q { assert q == nibs + q[|nibs|..]; }
    match child
    case Leaf(p, value) => GetLeafAt(nibs + PrefixNibs(p), value, q);
    case Extension(p, grandchild) =>
      GetExtensionAt(nibs + PrefixNibs(p), grandchild, q);
      if nibs <= q {
        var tail := q[|nibs|..];
        if PrefixNibs(p) <= tail { assert tail[|PrefixNibs(p)|..] == q[|nibs + PrefixNibs(p)|..]; }
        if nibs + PrefixNibs(p) <= q { assert tail[..|PrefixNibs(p)|] == PrefixNibs(p); }
      }
    case _ =>
  }

  /** After a deletion the key is gone and every other lookup is as before. */
  lemma {:induction false} GetAfterDelete(n: Node, k: Key, q: Key)
    requires DeleteNibs(n, k).1.Ok?
    ensures GetNibs(DeleteNibs(n, k).0, q) == if q == k then Ok(None) else GetNibs(n, q)
    ensures DeleteNibs(n, k).1.value <==> GetNibs(n, k) != Ok(None)
  {
    hide PrefixNibs, Collapse, Rejoin;
    match n
    case Null =>
    case Leaf(prefix, _) =>
    case Branch(cs) =>
      assert k == [k[0]] + k[1..];
      if q != [] { assert q == [q[0]] + q[1..]; }
      if cs[k[0]].Some? {
        GetAfterDelete(cs[k[0]].value, k[1..], if q != [] && q[0] == k[0] then q[1..] else k[1..]);
        var (c, r) := DeleteNibs(cs[k[0]].value, k[1..]);
        if r == Ok(true) { GetCollapse(cs[k[0] := Slot(c)], q); }
      }
    case Extension(prefix, child) =>
      var nibs := PrefixNibs(prefix);
      if nibs <= k {
        assert k == nibs + k[|nibs|..];
        if nibs <= q { assert q == nibs + q[|nibs|..]; }
        GetAfterDelete(child, k[|nibs|..], if nibs <= q then q[|nibs|..] else k[|nibs|..]);
        GetRejoin(prefix, DeleteNibs(child, k[|nibs|..]).0, q);
      }
  }
}
