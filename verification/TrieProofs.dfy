/** Tries assembled from proof nodes: resolving digests, chaining a proof, and the orphans that make
    a deletion possible. */
module TrieProofs {
  import opened Bytes
  import opened HexPrefix
  import opened Mpt
  import opened TrieMap
  import opened TrieHash
  import opened TrieSparse
  import opened TrieCodec
  import opened TrieSize
  import opened TrieLoose

  // ----- resolve_nodes -----

  type Store = map<Reference, Node>

  /** Every node is filed under its own reference. */
  ghost predicate Filed(H: Hasher, store: Store)
  {
    forall r :: r in store ==> RefOf(H, store[r]) == r
  }

  /** The digests of `n` that the store resolves rank below `bound`. */
  ghost predicate Below(n: Node, store: Store, rank: Bytes32 -> nat, bound: nat)
  {
    match n
    case Digest(d) => DigestRef(d) in store ==> rank(d) < bound
    case Extension(_, child) => Below(child, store, rank, bound)
    case Branch(cs) => forall i: nibble :: Occupied(cs, i) ==> Below(cs[i].value, store, rank, bound)
    case _ => true
  }

  /** No digest resolves, over any number of steps, to a trie that contains it. */
  ghost predicate Acyclic(store: Store, rank: Bytes32 -> nat)
  {
    forall d: Bytes32 :: DigestRef(d) in store ==> Below(store[DigestRef(d)], store, rank, rank(d))
  }

  function ResolveNodes(n: Node, store: Store, ghost rank: Bytes32 -> nat, ghost bound: nat): Node
    requires Acyclic(store, rank) && Below(n, store, rank, bound)
    decreases bound, n
  {
    match n
    case Null => n
    case Leaf(_, _) => n
    case Branch(cs) =>
      assert forall i :: 0 <= i < 16 && cs[i].Some? ==> Occupied(cs, i);
      Branch(ResolveKids(cs, store, rank, bound))
    case Extension(prefix, child) => Extension(prefix, ResolveNodes(child, store, rank, bound))
    case Digest(d) =>
      if DigestRef(d) in store then ResolveNodes(store[DigestRef(d)], store, rank, rank(d)) else n
  }

  function ResolveKids(cs: seq<Option<Node>>, store: Store, ghost rank: Bytes32 -> nat, ghost bound: nat)
    : (r: seq<Option<Node>>)
    requires Acyclic(store, rank)
    requires forall i :: 0 <= i < |cs| && cs[i].Some? ==> Below(cs[i].value, store, rank, bound)
    ensures |r| == |cs|
    ensures forall i :: 0 <= i < |cs| ==>
              r[i] == ResolveKid(cs[i], store, rank, bound)
    decreases bound, cs
  {
    if cs == [] then [] else
      [ResolveKid(cs[0], store, rank, bound)] + ResolveKids(cs[1..], store, rank, bound)
  }

  function ResolveKid(c: Option<Node>, store: Store, ghost rank: Bytes32 -> nat, ghost bound: nat): Option<Node>
    requires Acyclic(store, rank) && (c.Some? ==> Below(c.value, store, rank, bound))
    decreases bound, c
  {
    if c.None? then None else Some(ResolveNodes(c.value, store, rank, bound))
  }

  /** Resolving keeps the root hash and every lookup that already succeeded: the trie it starts from
      stands for the trie it gives. */
  lemma {:induction false} ResolveKeeps(H: Hasher, n: Node, store: Store, rank: Bytes32 -> nat, bound: nat)
    requires Filed(H, store) && Acyclic(store, rank) && Below(n, store, rank, bound)
    ensures Sparse(H, n, ResolveNodes(n, store, rank, bound))
    ensures HashOf(H, n) == HashOf(H, ResolveNodes(n, store, rank, bound))
    decreases bound, n
  {
    hide RefOf;
    var n' := ResolveNodes(n, store, rank, bound);
    match n {
      case Branch(cs) =>
        forall i: nibble ensures SparseSlot(H, cs[i], n'.children[i]) {
          if cs[i].Some? {
            assert Occupied(cs, i);
            ResolveKeeps(H, cs[i].value, store, rank, bound);
          }
        }
      case Extension(_, child) => ResolveKeeps(H, child, store, rank, bound);
      case Digest(d) =>
        if DigestRef(d) in store {
          ResolveKeeps(H, store[DigestRef(d)], store, rank, rank(d));
          SparseReference(H, store[DigestRef(d)], n');
        } else {
          SparseReflexive(H, n);
        }
      case _ => SparseReflexive(H, n);
    }
    SparseReference(H, n, n');
  }

  /** No digest that the store knows is left. */
  ghost predicate Resolved(n: Node, store: Store)
  {
    match n
    case Digest(d) => DigestRef(d) !in store
    case Extension(_, child) => Resolved(child, store)
    case Branch(cs) => forall i: nibble :: Occupied(cs, i) ==> Resolved(cs[i].value, store)
    case _ => true
  }

  /** A lookup that succeeded before is answered in the same way after. */
  lemma ResolveLookup(H: Hasher, n: Node, store: Store, rank: Bytes32 -> nat, bound: nat, k: Key)
    requires Filed(H, store) && Acyclic(store, rank) && Below(n, store, rank, bound) && GetNibs(n, k).Ok?
    ensures GetNibs(ResolveNodes(n, store, rank, bound), k) == GetNibs(n, k)
  {
    ResolveKeeps(H, n, store, rank, bound);
    GetSimulates(H, n, ResolveNodes(n, store, rank, bound), k);
  }

  lemma {:induction false} ResolveCompletes(n: Node, store: Store, rank: Bytes32 -> nat, bound: nat)
    requires Acyclic(store, rank) && Below(n, store, rank, bound)
    ensures Resolved(ResolveNodes(n, store, rank, bound), store)
    decreases bound, n
  {
    match n
    case Branch(cs) =>
      var cs' := ResolveNodes(n, store, rank, bound).children;
      forall i: nibble | Occupied(cs', i) ensures Resolved(cs'[i].value, store) {
        assert Occupied(cs, i);
        ResolveCompletes(cs[i].value, store, rank, bound);
      }
    case Extension(_, child) => ResolveCompletes(child, store, rank, bound);
    case Digest(d) =>
      if DigestRef(d) in store { ResolveCompletes(store[DigestRef(d)], store, rank, rank(d)); }
    case _ =>
  }

  // ----- mpt_from_proof -----

  datatype ProofError = NodeNotFoundByHash(i: nat) | NodeHasInvalidSuccessor(i: nat) | NodeCannotHaveChildren(i: nat)
  datatype ProofResult = Trie(node: Node) | Fail(error: ProofError)

  predicate IsDigest(c: Option<Node>, d: Bytes32)
  {
    c.Some? && c.value == Digest(d)
  }

  /** The first child that is the given digest, or 16. */
  function FindDigest(cs: Slots<Node>, d: Bytes32, from: nat): (r: nat)
    requires from <= 16
    ensures from <= r <= 16
    ensures r < 16 ==> IsDigest(cs[r], d)
    ensures forall i :: from <= i < r ==> !IsDigest(cs[i], d)
    decreases 16 - from
  {
    if from == 16 || IsDigest(cs[from], d) then from else FindDigest(cs, d, from + 1)
  }

  /** One proof node refers to the next by hash. */
  ghost predicate Links(H: Hasher, n: Node, next: Node)
  {
    && RefOf(H, next).DigestRef?
    && var d := RefOf(H, next).digest;
       match n
       case Branch(cs) => exists i: nibble :: IsDigest(cs[i], d)
       case Extension(_, child) => child == Digest(d)
       case _ => false
  }

  ghost predicate Chained(H: Hasher, proof: seq<Node>)
  {
    forall i :: 0 <= i < |proof| - 1 ==> Links(H, proof[i], proof[i + 1])
  }

  /** Which error a broken link gives. */
  function LinkError(H: Hasher, n: Node, next: Node, i: nat): ProofError
  {
    if RefOf(H, next).BytesRef? then NodeNotFoundByHash(i + 1)
    else if n.Branch? || n.Extension? then NodeHasInvalidSuccessor(i)
    else NodeCannotHaveChildren(i)
  }

  /** The last broken link, for which the proof is refused. */
  ghost predicate BreaksAt(H: Hasher, proof: seq<Node>, i: nat)
  {
    && i < |proof| - 1 && !Links(H, proof[i], proof[i + 1])
    && forall j :: i < j < |proof| - 1 ==> Links(H, proof[j], proof[j + 1])
  }

  /** The node with the given one in the place of its digest, the first place if there are several. */
  function Graft(n: Node, d: Bytes32, below: Node): Node
  {
    match n
    case Branch(cs) =>
      var at := FindDigest(cs, d, 0);
      if at == 16 then n else Branch(cs[at := Some(below)])
    case Extension(prefix, _) => Extension(prefix, below)
    case _ => n
  }

  /** The nodes of a proof, each in the place where the one before refers to it. */
  function Weave(H: Hasher, proof: seq<Node>): Node
  {
    if proof == [] then Null
    else if |proof| == 1 || RefOf(H, proof[1]).BytesRef? then proof[0]
    else Graft(proof[0], RefOf(H, proof[1]).digest, Weave(H, proof[1..]))
  }

  /** Put the rest of the proof in the place of its digest. */
  method Attach(H: Hasher, node: Node, i: nat, replacement: Node) returns (r: ProofResult)
    ensures r.Trie? <==> Links(H, node, replacement)
    ensures r.Trie? ==> Sparse(H, node, r.node) && r.node == Graft(node, RefOf(H, replacement).digest, replacement)
    ensures r.Fail? ==> r.error == LinkError(H, node, replacement, i)
  {
    var ref := RefOf(H, replacement);
    if ref.BytesRef? {
      return Fail(NodeNotFoundByHash(i + 1));
    }
    match node {
      case Branch(cs) =>
        var at := FindDigest(cs, ref.digest, 0);
        if at == 16 {
          return Fail(NodeHasInvalidSuccessor(i));
        }
        r := Trie(Branch(cs[at := Some(replacement)]));
        assert IsDigest(cs[at], ref.digest);
        AttachKeeps(H, cs, at, replacement);
      case Extension(prefix, child) =>
        if child != Digest(ref.digest) {
          return Fail(NodeHasInvalidSuccessor(i));
        }
        r := Trie(Extension(prefix, replacement));
      case _ =>
        return Fail(NodeCannotHaveChildren(i));
    }
  }

  lemma AttachKeeps(H: Hasher, cs: Slots<Node>, at: nibble, replacement: Node)
    requires RefOf(H, replacement).DigestRef? && IsDigest(cs[at], RefOf(H, replacement).digest)
    ensures Sparse(H, Branch(cs), Branch(cs[at := Some(replacement)]))
  {
    SparseReflexive(H, Branch(cs));
    SparseBranchUpdate(H, cs, cs, at, cs[at], Some(replacement));
    assert cs[at := cs[at]] == cs;
  }

  /** A proof gives a trie exactly when each node refers to the next by hash; the trie has the hash
      of the first node, and consists of the nodes, each in the place of its digest. */
  method MptFromProof(H: Hasher, proof: seq<Node>) returns (r: ProofResult)
    ensures r.Trie? <==> Chained(H, proof)
    ensures r.Fail? ==> exists i: nat :: BreaksAt(H, proof, i) && r.error == LinkError(H, proof[i], proof[i + 1], i)
    ensures r.Trie? ==> r.node == Weave(H, proof)
    ensures r.Trie? && proof != [] ==> Sparse(H, proof[0], r.node) && HashOf(H, proof[0]) == HashOf(H, r.node)
  {
    var next: Option<Node> := None;
    for i := |proof| downto 0
      invariant next.None? <==> i == |proof|
      invariant next.Some? ==> Sparse(H, proof[i], next.value) && next.value == Weave(H, proof[i..])
      invariant forall j :: i <= j < |proof| - 1 ==> Links(H, proof[j], proof[j + 1])
    {
      if next.None? {
        next := Some(proof[i]);
        SparseReflexive(H, proof[i]);
      } else {
        var resolved := Attach(H, proof[i], i, next.value);
        SparseReference(H, proof[i + 1], next.value);
        assert Links(H, proof[i], next.value) <==> Links(H, proof[i], proof[i + 1]);
        assert proof[i..][1..] == proof[i + 1..];
        if resolved.Fail? {
          assert BreaksAt(H, proof, i);
          return resolved;
        }
        next := Some(resolved.node);
      }
    }
    r := Trie(if next.Some? then next.value else Null);
    assert proof[0..] == proof;
    if proof != [] { SparseReference(H, proof[0], r.node); }
  }

  /** The path from a node of a proof to the place of the next. */
  function Way(H: Hasher, n: Node, next: Node): Key
    requires RefOf(H, next).DigestRef?
  {
    match n
    case Branch(cs) =>
      var at := FindDigest(cs, RefOf(H, next).digest, 0);
      if at == 16 then [] else [at]
    case Extension(prefix, _) => PrefixNibs(prefix)
    case _ => []
  }

  lemma ChainedRest(H: Hasher, proof: seq<Node>)
    requires Chained(H, proof) && proof != []
    ensures Chained(H, proof[1..])
  {
    hide Links;
    var rest := proof[1..];
    forall j | 0 <= j < |rest| - 1 ensures Links(H, rest[j], rest[j + 1]) {
      assert Links(H, proof[j + 1], proof[j + 1 + 1]);
    }
  }

  /** The path from the root to a node of a proof. */
  function Route(H: Hasher, proof: seq<Node>, i: nat): Key
    requires Chained(H, proof) && i < |proof|
    decreases i
  {
    if i == 0 then [] else
      ChainedRest(H, proof);
      assert Links(H, proof[0], proof[0 + 1]);
      Way(H, proof[0], proof[1]) + Route(H, proof[1..], i - 1)
  }

  /** The trie of a proof answers, below the place of each node, whatever that node alone answers. */
  lemma {:induction false} WeaveAnswers(H: Hasher, proof: seq<Node>, i: nat, k: Key)
    requires Chained(H, proof) && i < |proof| && GetNibs(proof[i], k).Ok?
    ensures GetNibs(Weave(H, proof), Route(H, proof, i) + k) == GetNibs(proof[i], k)
    decreases i
  {
    hide PrefixNibs, RefOf;
    if i == 0 {
      WeaveKeeps(H, proof);
      GetSimulates(H, proof[0], Weave(H, proof), k);
      assert [] + k == k;
    } else {
      var rest := proof[1..];
      ChainedRest(H, proof);
      WeaveAnswers(H, rest, i - 1, k);
      assert Links(H, proof[0], proof[0 + 1]);
      var way := Way(H, proof[0], proof[1]);
      GraftAnswers(H, proof[0], proof[1], Weave(H, rest), Route(H, rest, i - 1) + k);
      assert way + Route(H, rest, i - 1) + k == way + (Route(H, rest, i - 1) + k);
    }
  }

  lemma GraftAnswers(H: Hasher, n: Node, next: Node, below: Node, k: Key)
    requires Links(H, n, next)
    ensures GetNibs(Graft(n, RefOf(H, next).digest, below), Way(H, n, next) + k) == GetNibs(below, k)
  {
    hide PrefixNibs, RefOf;
    var way := Way(H, n, next);
    assert (way + k)[|way|..] == k;
  }

  lemma {:induction false} WeaveKeeps(H: Hasher, proof: seq<Node>)
    requires Chained(H, proof) && proof != []
    ensures Sparse(H, proof[0], Weave(H, proof))
    decreases |proof|
  {
    hide RefOf;
    if |proof| == 1 {
      SparseReflexive(H, proof[0]);
    } else {
      var rest := proof[1..];
      ChainedRest(H, proof);
      WeaveKeeps(H, rest);
      var below := Weave(H, rest);
      SparseReference(H, proof[1], below);
      assert Links(H, proof[0], proof[0 + 1]);
      if proof[0].Branch? {
        var cs := proof[0].children;
        AttachKeeps(H, cs, FindDigest(cs, RefOf(H, proof[1]).digest, 0), below);
      }
    }
  }

  function LeafCount(n: Node): nat
    decreases n, 0
  {
    match n
    case Leaf(_, _) => 1
    case Extension(_, child) => LeafCount(child)
    case Branch(cs) => KidsLeaves(cs)
    case _ => 0
  }

  function KidsLeaves(cs: seq<Option<Node>>): nat
    decreases cs, 1
  {
    if cs == [] then 0 else KidLeaves(cs[0]) + KidsLeaves(cs[1..])
  }

  function KidLeaves(c: Option<Node>): nat
    decreases c, 1
  {
    if c.None? then 0 else LeafCount(c.value)
  }

  function LeavesOf(proof: seq<Node>): nat
  {
    if proof == [] then 0 else LeafCount(proof[0]) + LeavesOf(proof[1..])
  }

  lemma {:induction false} KidReplaced(cs: seq<Option<Node>>, at: nat, c: Option<Node>)
    requires at < |cs| && KidLeaves(cs[at]) == 0
    ensures KidsLeaves(cs[at := c]) == KidsLeaves(cs) + KidLeaves(c)
  {
    hide LeafCount;
    if at > 0 {
      KidReplaced(cs[1..], at - 1, c);
      assert cs[at := c][1..] == cs[1..][at - 1 := c];
    } else {
      assert cs[at := c][1..] == cs[1..];
    }
  }

  /** The trie of a proof has the leaves of its nodes and no others. So the trie of an inclusion proof has exactly one
      leaf, as the documentation says, if and only if no node of the proof has another leaf within it. */
  lemma {:induction false} WeaveLeaves(H: Hasher, proof: seq<Node>)
    requires Chained(H, proof)
    ensures LeafCount(Weave(H, proof)) == LeavesOf(proof)
    decreases |proof|
  {
    hide RefOf;
    if |proof| == 1 {
      assert proof[1..] == [];
    } else if |proof| > 1 {
      ChainedRest(H, proof);
      WeaveLeaves(H, proof[1..]);
      assert Links(H, proof[0], proof[0 + 1]);
      if proof[0].Branch? {
        var cs := proof[0].children;
        KidReplaced(cs, FindDigest(cs, RefOf(H, proof[1]).digest, 0), Some(Weave(H, proof[1..])));
      } else {
        assert LeafCount(proof[0]) == LeafCount(proof[0].child) == 0;
      }
    }
  }

  lemma {:induction false} NoKids(cs: seq<Option<Node>>)
    requires forall i :: 0 <= i < |cs| ==> cs[i].None?
    ensures KidsLeaves(cs) == 0
  {
    if cs != [] { NoKids(cs[1..]); }
  }

  /** A branch with two short leaves within it. */
  function ShortLeaves(v: Value): Node
  {
    Branch(EmptySlots()[0 := Some(LeafAt([], v))][1 := Some(LeafAt([], v))])
  }

  /** It may have one: the branch alone proves the value of either key, and the trie has two leaves. */
  lemma SecondLeaf(H: Hasher, v: Value)
    ensures Chained(H, [ShortLeaves(v)]) && GetNibs(Weave(H, [ShortLeaves(v)]), [0]) == Ok(Some(v))
    ensures LeafCount(Weave(H, [ShortLeaves(v)])) == 2
  {
    hide GetNibs, LeafCount, ShortLeaves;
    ShortLeafFound(v);
    ShortLeafCount(v);
  }

  lemma ShortLeafFound(v: Value)
    ensures GetNibs(ShortLeaves(v), [0]) == Ok(Some(v))
  {
    hide ToEncodedPath, PrefixNibs, LeafCount;
    PathRoundTrip([], true);
    var key: Key := [0];
    assert key[1..] == [];
    assert GetNibs(LeafAt([], v), []) == Ok(Some(v));
  }

  lemma ShortLeafCount(v: Value)
    ensures LeafCount(ShortLeaves(v)) == 2
  {
    var cs: Slots<Node> := EmptySlots();
    var leaf := Some(LeafAt([], v));
    assert KidLeaves(leaf) == 1;
    assert LeafCount(ShortLeaves(v)) == KidsLeaves(cs[0 := leaf][1 := leaf]);
    hide LeafCount, KidsLeaves, LeafAt;
    assert KidLeaves(cs[0]) == 0 && KidLeaves(cs[0 := leaf][1]) == 0;
    NoKids(cs);
    KidReplaced(cs, 0, leaf);
    KidReplaced(cs[0 := leaf], 1, leaf);
  }

  // ----- shorten_node_path -----

  method ShortenNodePath(n: Node) returns (res: seq<Node>)
    ensures if n.Leaf? || n.Extension?
            then |res| == |PrefixNibs(n.prefix)| + 1 && forall i :: 0 <= i < |res| ==> res[i] == Shortened(n, i)
            else res == []
  {
    hide PrefixNibs, ToEncodedPath;
    res := [];
    if n.Leaf? || n.Extension? {
      var nibs := PrefixNibs(n.prefix);
      for i := 0 to |nibs| + 1
        invariant |res| == i && forall j :: 0 <= j < i ==> res[j] == Shortened(n, j)
      {
        res := res + [if n.Leaf? then LeafAt(nibs[i..], n.value) else ExtensionAt(nibs[i..], n.child)];
      }
    }
  }

  /** `o` is one of the nodes that shortening `n` gives. */
  ghost predicate ShortensTo(n: Node, o: Node)
  {
    && (n.Leaf? || n.Extension?)
    && exists i :: 0 <= i <= |PrefixNibs(n.prefix)| && Shortened(n, i) == o
  }

  /** Lengthening the path of a canonical leaf or extension is undone by shortening. */
  lemma LengthenedShortens(q: Key, o: Node)
    requires Canon(o) && (o.Leaf? || o.Extension?)
    ensures ShortensTo(if o.Leaf? then LeafAt(q + PrefixNibs(o.prefix), o.value)
                       else ExtensionAt(q + PrefixNibs(o.prefix), o.child), o)
  {
    hide PrefixNibs, ToEncodedPath;
    var nibs := PrefixNibs(o.prefix);
    PathRoundTrip(q + nibs, o.Leaf?);
    var n := if o.Leaf? then LeafAt(q + nibs, o.value) else ExtensionAt(q + nibs, o.child);
    assert (q + nibs)[|q|..] == nibs;
    NormalPath(o);
    assert Shortened(n, |q|) == o;
  }

  // ----- The sibling a deletion merges -----

  /** The sibling that moves up when the leaf of `k` is deleted, if its branch is left with one. */
  function SiblingOf(n: Node, k: Key): Option<Node>
  {
    match n
    case Extension(prefix, child) =>
      if PrefixNibs(prefix) <= k then SiblingOf(child, k[|PrefixNibs(prefix)|..]) else None
    case Branch(cs) =>
      if k == [] || cs[k[0]].None? then None
      else if IsLeafFor(cs[k[0]].value, k[1..]) then
        var j := LoneSibling(cs, k[0]);
        if j < 16 then Some(cs[j].value) else None
      else SiblingOf(cs[k[0]].value, k[1..])
    case _ => None
  }

  /** The last node a lookup of `k` visits: the last node of a proof that `k` is absent. */
  function LastNode(n: Node, k: Key): Node
  {
    match n
    case Extension(prefix, child) =>
      if PrefixNibs(prefix) <= k then LastNode(child, k[|PrefixNibs(prefix)|..]) else n
    case Branch(cs) =>
      if k == [] || cs[k[0]].None? then n else LastNode(cs[k[0]].value, k[1..])
    case _ => n
  }

  lemma LoneSiblingIsLeft(cs: Slots<Node>, i: nibble)
    requires LoneSibling(cs, i) < 16
    ensures var j := LoneSibling(cs, i); Collapse(cs[i := None]) == Adopt(j, cs[j].value)
  {
    hide Adopt;
  }

  /** A node whose path is a proper lengthening of `o`, off the path of `k`. */
  ghost predicate Merged(n: Node, o: Node, k: Key)
  {
    (n.Leaf? || n.Extension?) && ShortensTo(n, o) && !(PrefixNibs(n.prefix) <= k)
  }

  lemma AdoptMerges(j: nibble, o: Node, k: Key)
    requires Canon(o) && (o.Leaf? || o.Extension?) && k != [] && k[0] != j
    ensures Merged(Adopt(j, o).0, o, k)
  {
    hide PrefixNibs, ToEncodedPath, ShortensTo;
    LengthenedShortens([j], o);
    PathRoundTrip([j] + PrefixNibs(o.prefix), o.Leaf?);
  }

  /** The sibling merged by a deletion is one of the shortenings of the last node of the proof of
      absence in the resulting trie. */
  lemma {:induction false} OrphanIsShortened(t: Node, k: Key)
    requires Canon(t) && SiblingOf(t, k).Some?
    requires SiblingOf(t, k).value.Leaf? || SiblingOf(t, k).value.Extension?
    ensures DeleteNibs(t, k).1 == Ok(true)
    ensures ShortensTo(LastNode(DeleteNibs(t, k).0, k), SiblingOf(t, k).value)
    ensures var t' := DeleteNibs(t, k).0;
            t.Branch? && !t'.Branch? ==> Merged(t', SiblingOf(t, k).value, k)
    decreases t, 0
  {
    hide PrefixNibs, ToEncodedPath, IsNormal, ShortensTo, Collapse, Rejoin;
    match t
    case Extension(prefix, child) =>
      OrphanUnderExtension(prefix, child, k);
    case Branch(cs) =>
      var i, tail := k[0], k[1..];
      assert Occupied(cs, i);
      var c := cs[i].value;
      DeleteEmpties(c, tail);
      if IsLeafFor(c, tail) {
        var j := LoneSibling(cs, i);
        LoneSiblingIsLeft(cs, i);
        assert Occupied(cs, j);
        AdoptMerges(j, cs[j].value, k);
      } else {
        OrphanIsShortened(c, tail);
        var c' := DeleteNibs(c, tail).0;
        ForkedUpdate(cs, i, c');
        CollapseForked(cs[i := Some(c')]);
      }
    case _ =>
  }

  lemma {:induction false} OrphanUnderExtension(prefix: Path, child: Node, k: Key)
    requires var t := Extension(prefix, child);
             && Canon(t) && SiblingOf(t, k).Some?
             && (SiblingOf(t, k).value.Leaf? || SiblingOf(t, k).value.Extension?)
    ensures var t := Extension(prefix, child);
            && DeleteNibs(t, k).1 == Ok(true)
            && ShortensTo(LastNode(DeleteNibs(t, k).0, k), SiblingOf(t, k).value)
    decreases child, 1
  {
    hide PrefixNibs, ToEncodedPath, IsNormal, ShortensTo, LeafAt, ExtensionAt;
    var nibs := PrefixNibs(prefix);
    var tail := k[|nibs|..];
    OrphanIsShortened(child, tail);
    DeleteEmpties(child, tail);
    var c, o := DeleteNibs(child, tail).0, SiblingOf(child, tail).value;
    if !c.Branch? { RejoinMerges(prefix, c, o, k); }
  }

  lemma RejoinMerges(prefix: Path, c: Node, o: Node, k: Key)
    requires IsNormal(prefix, false) && PrefixNibs(prefix) <= k
    requires Merged(c, o, k[|PrefixNibs(prefix)|..])
    ensures Merged(Rejoin(prefix, c), o, k)
  {
    hide PrefixNibs, ToEncodedPath, IsNormal;
    var nibs, p := PrefixNibs(prefix), PrefixNibs(c.prefix);
    RejoinPath(prefix, c);
    var n := Rejoin(prefix, c);
    assert k == nibs + k[|nibs|..];
    var i :| 0 <= i <= |p| && Shortened(c, i) == o;
    assert (nibs + p)[|nibs| + i..] == p[i..];
    assert Shortened(n, |nibs| + i) == o;
  }

  /** A blind deletion does not go unnoticed: its root hash is not that of the full trie. */
  lemma BlindDeleteShows(H: Hasher, p: Node, t: Node, k: Key)
    requires Canon(t) && Full(t) && Sparse(H, p, t) && Blind(p, t, k)
    requires !Unresolved(DeleteNibs(p, k).1)
    requires var p', t' := DeleteNibs(p, k).0, DeleteNibs(t, k).0;
             Fits(H, p') && Fits(H, t') && CollisionFree(H, p', t')
    ensures HashOf(H, DeleteNibs(p, k).0) != HashOf(H, DeleteNibs(t, k).0)
  {
    SparseCanon(H, p, t);
    assert !p.Null? && !p.Digest?;
    hide RefOf, HashOf, DeleteNibs, Fits, CollisionFree, Canon, Full, Sparse, Blind, Tagged;
    var p', t' := DeleteNibs(p, k).0, DeleteNibs(t, k).0;
    DeleteSimulates(H, p, t, k);
    DeleteCanon(p, k);
    DeleteCanon(t, k);
    DeleteEmpties(p, k);
    CanonTagged(p');
    if HashOf(H, p') == HashOf(H, t') { RootBinds(H, p', t'); }
  }

  // ----- A blind deletion happens -----

  function Pair(a: Node, b: Node): Slots<Node>
  {
    EmptySlots()[0 := Some(a)][1 := Some(b)]
  }

  lemma PairFacts(a: Node, b: Node)
    requires Canon(a) && Canon(b) && !a.Null? && !b.Null?
    ensures Canon(Branch(Pair(a, b))) && LoneSibling(Pair(a, b), 0) == 1
  {
    hide IsNormal, PrefixNibs;
    var cs := Pair(a, b);
    assert Occupied(cs, 0) && Occupied(cs, 1);
    var rest := cs[0 := None];
    assert FirstSome(rest, 0) == 1 && FirstSome(rest, 2) == 16;
  }

  lemma LeafKeys(k: Key, v: Value, q: Key)
    ensures Canon(LeafAt(k, v)) && Full(LeafAt(k, v)) && PrefixNibs(LeafAt(k, v).prefix) == k
    ensures GetNibs(LeafAt(k, v), q) == Ok(if q == k then Some(v) else None)
  {
    hide ToEncodedPath, PrefixNibs, IsNormal;
    PathRoundTrip(k, true);
    CanonLeafAt(k, v);
  }

  lemma PairGet(a: Node, b: Node, q: Key)
    ensures GetNibs(Branch(Pair(a, b)), q)
         == if q == [] || q[0] > 1 then Ok(None) else GetNibs(if q[0] == 0 then a else b, q[1..])
  {
    hide PrefixNibs;
  }

  lemma PairFull(a: Node, b: Node)
    requires Full(a) && Full(b)
    ensures Full(Branch(Pair(a, b)))
  {
  }

  lemma PairKeys(k: Key, v: Value, w: Value, q: Key)
    ensures Holds(Branch(Pair(LeafAt(k, v), LeafAt(k, w))), q) ==> |q| == |k| + 1
    ensures GetNibs(Branch(Pair(LeafAt(k, v), LeafAt(k, w))), [0] + k) == Ok(Some(v))
    ensures Full(Branch(Pair(LeafAt(k, v), LeafAt(k, w))))
  {
    hide LeafAt, GetNibs, Pair, Full, Canon;
    assert ([0] + k)[1..] == k;
    LeafKeys(k, v, k);
    LeafKeys(k, w, k);
    PairFull(LeafAt(k, v), LeafAt(k, w));
    PairGet(LeafAt(k, v), LeafAt(k, w), [0] + k);
    PairGet(LeafAt(k, v), LeafAt(k, w), q);
    if q != [] {
      LeafKeys(k, v, q[1..]);
      LeafKeys(k, w, q[1..]);
    }
  }

  lemma PairSparse(H: Hasher, a: Node, b: Node)
    requires RefOf(H, b).DigestRef?
    ensures Sparse(H, Branch(Pair(a, Digest(RefOf(H, b).digest))), Branch(Pair(a, b)))
  {
    hide RefOf;
    SparseReflexive(H, a);
    var d := Digest(RefOf(H, b).digest);
    assert forall i: nibble :: SparseSlot(H, Pair(a, d)[i], Pair(a, b)[i]);
  }

  lemma PairBlind(a: Node, b: Node, d: Bytes32, k: Key)
    requires IsLeafFor(a, k) && b.Leaf? && Canon(a) && Canon(b)
    ensures Blind(Branch(Pair(a, Digest(d))), Branch(Pair(a, b)), [0] + k)
  {
    PairFacts(a, Digest(d));
    hide IsNormal, PrefixNibs;
    assert ([0] + k)[1..] == k;
  }

  /** A full trie of two keys that part at once. */
  function TwoLeaves(tail: Key, v: Value, w: Value): Node
  {
    Branch(Pair(LeafAt(tail, v), LeafAt(tail, w)))
  }

  /** The same with the second key known only by its digest. */
  function OneHidden(H: Hasher, tail: Key, v: Value, w: Value): Node
  {
    Branch(Pair(LeafAt(tail, v), Digest(HashOf(H, LeafAt(tail, w)))))
  }

  /** The smallest case, over hashed keys and for any hash function and values: the full trie holds two keys
      that part at once, and the witness knows the second only by its digest. Deleting the first collapses
      the branch onto the digest, and the result is no part of what the full trie becomes. */
  lemma BlindHappens(H: Hasher, v: Value, w: Value, tail: Key) returns (p: Node, t: Node, k: Key)
    requires |tail| == 63
    ensures p == OneHidden(H, tail, v, w) && t == TwoLeaves(tail, v, w) && k == [0] + tail
    ensures Canon(p) && Canon(t) && Full(t) && KeyLength(t, 64) && |k| == 64
    ensures Sparse(H, p, t) && Blind(p, t, k)
    ensures DeleteNibs(p, k).1 == Ok(true) && DeleteNibs(t, k).1 == Ok(true)
    ensures !Sparse(H, DeleteNibs(p, k).0, DeleteNibs(t, k).0)
  {
    var a, b := LeafAt(tail, v), LeafAt(tail, w);
    LeafKeys(tail, v, tail);
    LeafKeys(tail, w, tail);
    forall q: Key | Holds(b, q) ensures |q| == 63 { LeafKeys(tail, w, q); }
    ReferredByHash(H, b, 63);
    hide Canon, Full, Sparse, Blind, DeleteNibs, RefOf, HashOf, GetNibs;
    p, t, k := Branch(Pair(a, Digest(HashOf(H, b)))), Branch(Pair(a, b)), [0] + tail;
    assert Canon(Digest(HashOf(H, b))) by { CanonDigest(HashOf(H, b)); }
    PairFacts(a, Digest(HashOf(H, b)));
    PairFacts(a, b);
    PairSparse(H, a, b);
    PairBlind(a, b, HashOf(H, b), tail);
    forall q: Key ensures Holds(t, q) ==> |q| == 64 { PairKeys(tail, v, w, q); }
    PairKeys(tail, v, w, []);
    DeleteIsOk(t, k);
    PairReads(a, Digest(HashOf(H, b)), b, tail);
    DeleteIsOk(p, k);
    DeleteSimulates(H, p, t, k);
  }

  lemma CanonDigest(d: Bytes32)
    ensures Canon(Digest(d))
  {
  }

  lemma PairReads(a: Node, d: Node, b: Node, k: Key)
    ensures GetNibs(Branch(Pair(a, d)), [0] + k) == GetNibs(Branch(Pair(a, b)), [0] + k)
  {
    assert ([0] + k)[1..] == k;
  }

  /** A key that is found is deleted. */
  lemma {:induction false} DeleteIsOk(n: Node, k: Key)
    requires Canon(n) && GetNibs(n, k).Ok? && GetNibs(n, k).value.Some?
    ensures DeleteNibs(n, k).1 == Ok(true)
  {
    hide PrefixNibs, IsNormal, Collapse, Rejoin;
    DeleteCanon(n, k);
    match n
    case Branch(cs) =>
      assert Occupied(cs, k[0]);
      DeleteIsOk(cs[k[0]].value, k[1..]);
    case Extension(prefix, child) => DeleteIsOk(child, k[|PrefixNibs(prefix)|..]);
    case Leaf(_, _) =>
  }
}
