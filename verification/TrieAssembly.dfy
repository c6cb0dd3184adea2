/** Tries assembled from the multiproofs before and after a block: collecting the nodes, with the shortened
    nodes of the proofs after it, resolving the root over them, and checking its hash. */
module TrieAssembly {
  import opened Bytes
  import opened HexPrefix
  import opened Mpt
  import opened TrieMap
  import opened TrieHash
  import opened TrieSparse
  import opened Rlp
  import opened TrieCodec
  import opened TrieSize
  import opened TrieLoose
  import opened TrieProofs
  import opened TrieOrphans
  import opened StateUpdate

  // ----- Collecting nodes -----

  /** The node and everything it shortens to can be looked up. */
  ghost predicate AtHand(H: Hasher, store: Store, n: Node)
  {
    RefOf(H, n) in store && forall o :: ShortensTo(n, o) ==> RefOf(H, o) in store
  }

  /** The node is one that was supplied, or a shortening of one. */
  ghost predicate Stems(n: Node, before: seq<seq<byte>>, after: seq<seq<byte>>)
  {
    || (exists b :: b in before && Decode(b) == Some(n))
    || (exists b :: b in after && Decode(b).Some? && (Decode(b).value == n || ShortensTo(Decode(b).value, n)))
  }

  /** What has been collected: each node under its own reference; nothing that was not supplied; every node of
      the proofs before; and every node of the proofs after with all its shortenings. */
  ghost predicate Collected(H: Hasher, store: Store, before: seq<seq<byte>>, after: seq<seq<byte>>)
  {
    && Filed(H, store)
    && (forall r :: r in store ==> Stems(store[r], before, after))
    && (forall b :: b in before ==> Decode(b).Some? && RefOf(H, Decode(b).value) in store)
    && (forall b :: b in after ==> Decode(b).Some? && AtHand(H, store, Decode(b).value))
  }

  /** File a node unless its place is taken. */
  function OrInsert(H: Hasher, store: Store, n: Node): (r: Store)
    requires Filed(H, store)
    ensures Filed(H, r) && r.Keys == store.Keys + {RefOf(H, n)}
    ensures forall x :: x in store ==> r[x] == store[x]
    ensures forall x :: x in r && x !in store ==> r[x] == n
  {
    if RefOf(H, n) in store then store else store[RefOf(H, n) := n]
  }

  method FileOrphans(H: Hasher, store: Store, n: Node) returns (r: Store)
    requires Filed(H, store)
    ensures Filed(H, r) && AtHand(H, r, n)
    ensures forall x :: x in store ==> x in r && r[x] == store[x]
    ensures forall x :: x in r && x !in store ==> r[x] == n || ShortensTo(n, r[x])
  {
    hide RefOf, PrefixNibs, ToEncodedPath;
    r := OrInsert(H, store, n);
    var short := ShortenNodePath(n);
    for i := 0 to |short|
      invariant Filed(H, r) && RefOf(H, n) in r
      invariant forall x :: x in store ==> x in r && r[x] == store[x]
      invariant forall x :: x in r && x !in store ==> r[x] == n || ShortensTo(n, r[x])
      invariant forall j :: 0 <= j < i ==> RefOf(H, short[j]) in r
    {
      assert ShortensTo(n, short[i]);
      r := OrInsert(H, r, short[i]);
    }
    forall o | ShortensTo(n, o) ensures RefOf(H, o) in r {
      var i :| 0 <= i <= |PrefixNibs(n.prefix)| && Shortened(n, i) == o;
      assert short[i] == o;
    }
  }

  /** A node of the proofs before that has the root hash, or the empty node if there is none. */
  ghost predicate Picked(H: Hasher, root: Bytes32, n: Node, before: seq<seq<byte>>)
  {
    || (HashOf(H, n) == root && exists b :: b in before && Decode(b) == Some(n))
    || (n == Null && forall b :: b in before && Decode(b).Some? ==> HashOf(H, Decode(b).value) != root)
  }

  /** The first loop: decode and file the nodes before the block and pick the root among them. `None` if a node
      cannot be decoded. */
  method CollectBefore(H: Hasher, root: Bytes32, before: seq<seq<byte>>) returns (r: Option<(Node, Store)>)
    ensures r.None? <==> exists b :: b in before && Decode(b).None?
    ensures r.Some? ==> Picked(H, root, r.value.0, before) && Collected(H, r.value.1, before, [])
  {
    hide RefOf, HashOf, Decode, ShortensTo, Collected, Picked;
    var n, store: Store := Null, map[];
    NothingCollected(H, root);
    for i := 0 to |before|
      invariant forall j :: 0 <= j < i ==> Decode(before[j]).Some?
      invariant Collected(H, store, before[..i], []) && Picked(H, root, n, before[..i])
    {
      var node := Decode(before[i]);
      if node.None? {
        assert before[i] in before;
        return None;
      }
      FiledBefore(H, store, before[..i], before[i]);
      PickNext(H, root, n, before[..i], before[i]);
      assert before[..i + 1] == before[..i] + [before[i]];
      if HashOf(H, node.value) == root {
        n := node.value;
      }
      store := store[RefOf(H, node.value) := node.value];
    }
    assert before[..|before|] == before;
    return Some((n, store));
  }

  /** The second loop: decode the nodes after the block and file them with all their shortenings. */
  method CollectAfter(H: Hasher, store: Store, before: seq<seq<byte>>, after: seq<seq<byte>>) returns (r: Option<Store>)
    requires Collected(H, store, before, [])
    ensures r.None? <==> exists b :: b in after && Decode(b).None?
    ensures r.Some? ==> Collected(H, r.value, before, after)
  {
    hide RefOf, Decode, ShortensTo, Stems, AtHand;
    var all := store;
    for i := 0 to |after|
      invariant forall j :: 0 <= j < i ==> Decode(after[j]).Some?
      invariant Collected(H, all, before, after[..i])
    {
      var node := Decode(after[i]);
      if node.None? {
        assert after[i] in after;
        return None;
      }
      var more := FileOrphans(H, all, node.value);
      FiledAfter(H, all, more, before, after[..i], after[i]);
      assert after[..i + 1] == after[..i] + [after[i]];
      all := more;
    }
    assert after[..|after|] == after;
    return Some(all);
  }

  lemma NothingCollected(H: Hasher, root: Bytes32)
    ensures Collected(H, map[], [], []) && Picked(H, root, Null, [])
  {
    hide Decode;
  }

  lemma PickNext(H: Hasher, root: Bytes32, n: Node, before: seq<seq<byte>>, b: seq<byte>)
    requires Picked(H, root, n, before) && Decode(b).Some?
    ensures Picked(H, root, if HashOf(H, Decode(b).value) == root then Decode(b).value else n, before + [b])
  {
    hide HashOf, Decode;
    var more := before + [b];
    assert b in more && forall x :: x in more <==> x in before || x == b;
  }

  lemma FiledBefore(H: Hasher, store: Store, before: seq<seq<byte>>, b: seq<byte>)
    requires Collected(H, store, before, []) && Decode(b).Some?
    ensures Collected(H, store[RefOf(H, Decode(b).value) := Decode(b).value], before + [b], [])
  {
    hide RefOf, Decode, ShortensTo;
    var store' := store[RefOf(H, Decode(b).value) := Decode(b).value];
    forall r | r in store' ensures Stems(store'[r], before + [b], []) {
      if store'[r] != Decode(b).value { assert Stems(store[r], before, []); } else { assert b in before + [b]; }
    }
  }

  lemma FiledAfter(H: Hasher, store: Store, store': Store, before: seq<seq<byte>>, after: seq<seq<byte>>,
                   a: seq<byte>)
    requires Collected(H, store, before, after) && Decode(a).Some? && Filed(H, store')
    requires AtHand(H, store', Decode(a).value)
    requires forall x :: x in store ==> x in store' && store'[x] == store[x]
    requires forall x :: x in store' && x !in store ==>
      store'[x] == Decode(a).value || ShortensTo(Decode(a).value, store'[x])
    ensures Collected(H, store', before, after + [a])
  {
    hide RefOf, Decode, ShortensTo;
    forall r | r in store' ensures Stems(store'[r], before, after + [a]) {
      if r in store { assert Stems(store[r], before, after); } else { assert a in after + [a]; }
    }
    forall b | b in after + [a] ensures Decode(b).Some? && AtHand(H, store', Decode(b).value) {
      if b != a { assert b in after; }
    }
  }

  // ----- Decoded nodes stay decoded nodes -----

  lemma StemsTagged(n: Node, before: seq<seq<byte>>, after: seq<seq<byte>>)
    requires Stems(n, before, after)
    ensures Tagged(n)
  {
    hide Decode, PrefixNibs, ToEncodedPath;
    if b :| b in before && Decode(b) == Some(n) {
      DecodeTagged(b);
    } else {
      var b :| b in after && Decode(b).Some? && (Decode(b).value == n || ShortensTo(Decode(b).value, n));
      DecodeTagged(b);
      var m := Decode(b).value;
      if m != n {
        var i :| 0 <= i <= |PrefixNibs(m.prefix)| && Shortened(m, i) == n;
        LeafBit(PrefixNibs(m.prefix)[i..], m.Leaf?);
      }
    }
  }

  lemma {:induction false} ResolveTagged(H: Hasher, n: Node, store: Store, rank: Bytes32 -> nat, bound: nat)
    requires Filed(H, store) && Acyclic(store, rank) && Below(n, store, rank, bound)
    requires Tagged(n) && forall r :: r in store ==> Tagged(store[r])
    ensures Tagged(ResolveNodes(n, store, rank, bound)) && (ResolveNodes(n, store, rank, bound).Null? <==> n.Null?)
    decreases bound, n
  {
    match n
    case Branch(cs) =>
      var x := ResolveNodes(n, store, rank, bound).children;
      forall i: nibble | Occupied(x, i) ensures !x[i].value.Null? && Tagged(x[i].value) {
        assert Occupied(cs, i);
        ResolveTagged(H, cs[i].value, store, rank, bound);
      }
    case Extension(_, child) => ResolveTagged(H, child, store, rank, bound);
    case Digest(d) =>
      if DigestRef(d) in store { ResolveTagged(H, store[DigestRef(d)], store, rank, rank(d)); }
    case _ =>
  }

  // ----- Assembling -----

  function NodeFromDigest(H: Hasher, d: Bytes32): Node
  {
    if d == HashOf(H, Null) || d == ZERO then Null else Digest(d)
  }

  /** Without proofs a lookup finds nothing if the root is that of the empty trie or zero, and fails otherwise; and the
      trie has the given root unless that is zero. */
  lemma WithoutProofs(H: Hasher, d: Bytes32, k: Key)
    ensures GetNibs(NodeFromDigest(H, d), k)
         == if d == H([0x80]) || AllZero(d) then Ok(None) else Err(NodeNotResolved(d))
    ensures HashOf(H, NodeFromDigest(H, d)) == if AllZero(d) then H([0x80]) else d
  {
    assert AllZero(d) <==> d == ZERO;
  }

  /** Resolve the root over the collected nodes and check its hash. The check fails exactly if no node before
      the block has the root hash; a trie that passes stands for nothing less than that node, is made of decoded
      nodes, leaves no digest that could have been resolved, and is not itself a digest. */
  method Assemble(H: Hasher, root: Bytes32, n: Node, store: Store, before: seq<seq<byte>>, after: seq<seq<byte>>,
                  ghost rank: Bytes32 -> nat, ghost bound: nat)
    returns (r: Option<Node>)
    requires Collected(H, store, before, after) && Acyclic(store, rank) && Below(n, store, rank, bound)
    requires Picked(H, root, n, before)
    ensures r.Some? <==> HashOf(H, n) == root
    ensures r.Some? ==> Sparse(H, n, r.value) && HashOf(H, r.value) == root && Tagged(r.value)
    ensures r.Some? ==> Resolved(r.value, store) && !r.value.Digest?
  {
    hide RefOf, HashOf, Decode, Acyclic, Below, AtHand, Stems, Tagged;
    var trie := ResolveNodes(n, store, rank, bound);
    ResolveKeeps(H, n, store, rank, bound);
    ResolveCompletes(n, store, rank, bound);
    if HashOf(H, trie) != root {
      return None;
    }
    AssembledTagged(H, n, store, before, after, rank, bound);
    NoDigestLeft(H, n, store, rank, bound);
    return Some(trie);
  }

  lemma AssembledTagged(H: Hasher, n: Node, store: Store, before: seq<seq<byte>>, after: seq<seq<byte>>,
                        rank: Bytes32 -> nat, bound: nat)
    requires Collected(H, store, before, after) && Acyclic(store, rank) && Below(n, store, rank, bound)
    requires n == Null || exists b :: b in before && Decode(b) == Some(n)
    ensures Tagged(ResolveNodes(n, store, rank, bound))
  {
    hide RefOf, Decode, Acyclic, Below, AtHand, ResolveNodes;
    assert Tagged(n) by {
      if n != Null {
        var b :| b in before && Decode(b) == Some(n);
        DecodeTagged(b);
      }
    }
    hide Tagged, Stems;
    forall r | r in store ensures Tagged(store[r]) {
      StemsTagged(store[r], before, after);
    }
    ResolveTagged(H, n, store, rank, bound);
  }

  lemma NoDigestLeft(H: Hasher, n: Node, store: Store, rank: Bytes32 -> nat, bound: nat)
    requires Filed(H, store) && Acyclic(store, rank) && Below(n, store, rank, bound)
    requires n == Null || RefOf(H, n) in store
    ensures !ResolveNodes(n, store, rank, bound).Digest?
  {
    hide Acyclic;
    if n.Digest? {
      ResolveKeeps(H, n, store, rank, bound);
      ResolveCompletes(n, store, rank, bound);
      SparseReference(H, n, ResolveNodes(n, store, rank, bound));
    }
  }

  /** No digest of the nodes supplied resolves, over any number of steps, to a trie that contains it. */
  ghost predicate Grounded(H: Hasher, before: seq<seq<byte>>, after: seq<seq<byte>>, rank: Bytes32 -> nat, bound: nat)
  {
    forall store :: Collected(H, store, before, after) ==> Acyclic(store, rank) && Bounded(store, rank, bound)
  }

  ghost predicate Bounded(store: Store, rank: Bytes32 -> nat, bound: nat)
  {
    forall d: Bytes32 :: DigestRef(d) in store ==> rank(d) < bound
  }

  lemma {:induction false} AllBelow(n: Node, store: Store, rank: Bytes32 -> nat, bound: nat)
    requires Bounded(store, rank, bound)
    ensures Below(n, store, rank, bound)
  {
    match n
    case Extension(_, child) => AllBelow(child, store, rank, bound);
    case Branch(cs) =>
      forall i: nibble | Occupied(cs, i) ensures Below(cs[i].value, store, rank, bound) {
        AllBelow(cs[i].value, store, rank, bound);
      }
    case _ =>
  }

  datatype Assembly = Built(trie: Node) | DecodingError | MismatchedRoot

  /** What comes of the proofs of one trie: without any, a digest of the root, or the empty node; otherwise a
      trie with that root, of decoded nodes, in which no digest is left that could have been resolved. */
  ghost predicate FromProofs(H: Hasher, n: Node, root: Bytes32, before: seq<seq<byte>>, after: seq<seq<byte>>)
  {
    if before == [] then n == NodeFromDigest(H, root) else
      && HashOf(H, n) == root && Tagged(n) && !n.Digest?
      && exists store :: Collected(H, store, before, after) && Resolved(n, store)
  }

  /** The trie of the proofs before and after a block, state or storage. It is refused exactly if a node cannot
      be decoded, or if no node before the block has the root hash. */
  method TrieFromProofs(H: Hasher, root: Bytes32, before: seq<seq<byte>>, after: seq<seq<byte>>,
                        ghost rank: Bytes32 -> nat, ghost bound: nat)
    returns (r: Assembly)
    requires Grounded(H, before, after, rank, bound)
    ensures r.Built? ==> FromProofs(H, r.trie, root, before, after)
    ensures r.DecodingError? <==> before != [] && exists b :: b in before + after && Decode(b).None?
    ensures r.MismatchedRoot? <==>
              && before != [] && root != HashOf(H, Null)
              && (forall b :: b in before + after ==> Decode(b).Some?)
              && (forall b :: b in before ==> HashOf(H, Decode(b).value) != root)
  {
    hide RefOf, HashOf, Decode, Acyclic, Below, Resolved, Collected, Bounded, Tagged;
    if before == [] {
      return Built(NodeFromDigest(H, root));
    }
    var first := CollectBefore(H, root, before);
    if first.None? {
      var b :| b in before && Decode(b).None?;
      assert b in before + after;
      return DecodingError;
    }
    var (n, some) := first.value;
    var store := CollectAfter(H, some, before, after);
    if store.None? {
      var b :| b in after && Decode(b).None?;
      assert b in before + after;
      return DecodingError;
    }
    assert forall b :: b in before ==> b in before + after;
    assert forall b :: b in before + after ==> Decode(b).Some?;
    AllBelow(n, store.value, rank, bound);
    var trie := Assemble(H, root, n, store.value, before, after, rank, bound);
    if trie.None? {
      return MismatchedRoot;
    }
    return Built(trie.value);
  }

  // ----- The proofs after the block supply the orphans -----

  lemma {:induction false} LastNodeCanon(H: Hasher, t: Node, q: Key)
    requires Canon(t) && Fits(H, t)
    ensures Canon(LastNode(t, q)) && Fits(H, LastNode(t, q))
  {
    hide PrefixNibs, IsNormal, Encode;
    match t
    case Extension(prefix, child) =>
      if PrefixNibs(prefix) <= q { LastNodeCanon(H, child, q[|PrefixNibs(prefix)|..]); }
    case Branch(cs) =>
      if q != [] && cs[q[0]].Some? {
        assert Occupied(cs, q[0]);
        LastNodeCanon(H, cs[q[0]].value, q[1..]);
      }
    case _ =>
  }

  /** Shortening the decoded encoding of a node gives nodes with the references of the node's own
      shortenings. */
  lemma ShortenedAlike(H: Hasher, n: Node, o: Node) returns (o': Node)
    requires Canon(n) && Fits(H, n) && ShortensTo(n, o)
    ensures Decode(Encode(H, n)).Some? && ShortensTo(Decode(Encode(H, n)).value, o') && RefOf(H, o') == RefOf(H, o)
  {
    hide Encode, Decode, PrefixNibs, ToEncodedPath, IsNormal, RefOf, Fits;
    DecodeList(H, n);
    var m := Decode(Encode(H, n)).value;
    var i :| 0 <= i <= |PrefixNibs(n.prefix)| && Shortened(n, i) == o;
    o' := Shortened(m, i);
    SparseReference(H, o', o);
  }

  /** The last node of a proof of absence is a leaf or an extension that is not inlined in its parent. */
  ghost predicate Merging(H: Hasher, n: Node)
  {
    (n.Leaf? || n.Extension?) && RefOf(H, n).DigestRef?
  }

  /** The proofs after the block hold the last node of each proof of absence, where it is such a node. */
  ghost predicate Proved(H: Hasher, t: Node, gone: set<Key>, after: seq<seq<byte>>)
  {
    && Fits(H, t)
    && forall q :: q in gone && GetNibs(t, q) == Ok(None) && Merging(H, LastNode(t, q)) ==>
         Encode(H, LastNode(t, q)) in after
  }

  /** Shortening a path makes no encoding longer, so a node whose shortening is hashed is hashed itself. */
  lemma ShortenedSize(H: Hasher, n: Node, o: Node)
    requires Canon(n) && ShortensTo(n, o) && RefOf(H, o).DigestRef?
    ensures Merging(H, n)
  {
    hide ToEncodedPath, PrefixNibs, IsNormal, RefBytes, EncodeString, HeaderBytes;
    var nibs := PrefixNibs(n.prefix);
    var i :| 0 <= i <= |nibs| && Shortened(n, i) == o;
    NormalPath(n);
    PathEncodingSize(nibs, n.Leaf?);
    PathEncodingSize(nibs[i..], n.Leaf?);
    var rest := if n.Leaf? then EncodeString(n.value) else RefBytes(H, n.child);
    var x, y := EncodeString(n.prefix) + rest, EncodeString(o.prefix) + rest;
    assert Encode(H, n) == EncodeList(x) && Encode(H, o) == EncodeList(y);
    ListSize(x);
  }

  lemma PathEncodingSize(nibs: Key, isLeaf: bool)
    ensures var e := EncodeString(ToEncodedPath(nibs, isLeaf));
            |e| == (if |nibs| < 2 then 1 else |nibs| / 2 + 1 + LengthOfLength(|nibs| / 2 + 1))
  {
    PathSize(nibs, isLeaf);
  }

  lemma ProvedOrphans(H: Hasher, t: Node, gone: set<Key>, store: Store, before: seq<seq<byte>>, after: seq<seq<byte>>)
    requires Canon(t) && Proved(H, t, gone, after) && Collected(H, store, before, after)
    ensures Orphans(H, t, [], gone, store)
  {
    hide Canon, Fits, Encode, Decode, GetNibs, LastNode, ShortensTo, RefOf, Filed, Stems;
    forall q: Key, o: Node |
      [] + q in gone && GetNibs(t, q) == Ok(None) && ShortensTo(LastNode(t, q), o) && RefOf(H, o).DigestRef?
      ensures RefOf(H, o) in store
    {
      assert [] + q == q;
      LastNodeCanon(H, t, q);
      ShortenedSize(H, LastNode(t, q), o);
      var o' := ShortenedAlike(H, LastNode(t, q), o);
      assert AtHand(H, store, Decode(Encode(H, LastNode(t, q))).value);
    }
  }
}
