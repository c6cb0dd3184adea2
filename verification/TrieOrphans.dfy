/** The orphans that proofs of the final state supply are enough for every deletion of a block: no node hangs
    at the end. */
module TrieOrphans {
  import opened Bytes
  import opened HexPrefix
  import opened Mpt
  import opened TrieMap
  import opened TrieRuns
  import opened TrieHash
  import opened TrieSparse
  import opened TrieLoose
  import opened TrieProofs
  import opened TrieSize
  import opened TrieWitness

  // ----- No operation brings up a new digest -----

  lemma ResolvedBranch(cs: Slots<Node>, i: nibble, c: Node, store: Store)
    requires Resolved(Branch(cs), store) && Resolved(c, store)
    ensures Resolved(Branch(cs[i := Slot(c)]), store)
  {
    var x := cs[i := Slot(c)];
    forall j: nibble | Occupied(x, j) ensures Resolved(x[j].value, store) {
      assert j != i ==> Occupied(cs, j);
    }
  }

  lemma ResolvedFork(common: Key, i: nibble, a: Node, j: nibble, b: Node, store: Store)
    requires Resolved(a, store) && Resolved(b, store)
    ensures Resolved(Fork(common, i, a, j, b), store)
  {
    hide ToEncodedPath;
    var x := EmptySlots()[i := Some(a)][j := Some(b)];
    assert forall s: nibble :: Occupied(x, s) ==> Resolved(x[s].value, store);
  }

  lemma {:induction false} InsertResolved(n: Node, k: Key, v: Value, store: Store)
    requires Resolved(n, store)
    ensures Resolved(InsertNibs(n, k, v).0, store)
  {
    hide PrefixNibs, ToEncodedPath, Lcp, Fork;
    match n
    case Branch(cs) =>
      if k != [] {
        var c := if cs[k[0]].Some? then InsertNibs(cs[k[0]].value, k[1..], v).0 else LeafAt(k[1..], v);
        if cs[k[0]].Some? {
          assert Occupied(cs, k[0]);
          InsertResolved(cs[k[0]].value, k[1..], v, store);
        }
        if c.Null? { assert cs[k[0]].Some?; InsertNotNull(cs[k[0]].value, k[1..], v); }
        ResolvedBranch(cs, k[0], c, store);
      }
    case Leaf(prefix, prior) =>
      var nibs := PrefixNibs(prefix);
      var l := Lcp(nibs, k);
      if l < |nibs| && l < |k| {
        ResolvedFork(nibs[..l], nibs[l], LeafAt(nibs[l + 1..], prior), k[l], LeafAt(k[l + 1..], v), store);
      }
    case Extension(prefix, child) =>
      var nibs := PrefixNibs(prefix);
      var l := Lcp(nibs, k);
      if l == |nibs| {
        InsertResolved(child, k[l..], v, store);
      } else if l < |k| {
        var rest := if l + 1 < |nibs| then ExtensionAt(nibs[l + 1..], child) else child;
        ResolvedFork(nibs[..l], nibs[l], rest, k[l], LeafAt(k[l + 1..], v), store);
      }
    case _ =>
  }

  lemma InsertNotNull(n: Node, k: Key, v: Value)
    ensures !InsertNibs(n, k, v).0.Null?
  {
    hide PrefixNibs, ToEncodedPath, Lcp;
  }

  lemma CollapseResolved(cs: Slots<Node>, store: Store)
    requires Resolved(Branch(cs), store)
    ensures Resolved(Collapse(cs).0, store)
  {
    hide PrefixNibs, ToEncodedPath, FirstSome;
    var i := FirstSome(cs, 0);
    if i < 16 { assert Occupied(cs, i); }
  }

  lemma {:induction false} DeleteResolved(n: Node, k: Key, store: Store)
    requires Resolved(n, store)
    ensures Resolved(DeleteNibs(n, k).0, store)
  {
    hide PrefixNibs, ToEncodedPath, Collapse;
    match n
    case Branch(cs) =>
      if k != [] && cs[k[0]].Some? {
        assert Occupied(cs, k[0]);
        var (c, r) := DeleteNibs(cs[k[0]].value, k[1..]);
        DeleteResolved(cs[k[0]].value, k[1..], store);
        ResolvedBranch(cs, k[0], c, store);
        if r == Ok(true) {
          CollapseResolved(cs[k[0] := Slot(c)], store);
        } else {
          ResolvedSome(cs, k[0], c, store);
        }
      }
    case Extension(prefix, child) =>
      if PrefixNibs(prefix) <= k { DeleteResolved(child, k[|PrefixNibs(prefix)|..], store); }
    case _ =>
  }

  lemma ResolvedSome(cs: Slots<Node>, i: nibble, c: Node, store: Store)
    requires Resolved(Branch(cs), store) && Resolved(c, store)
    ensures Resolved(Branch(cs[i := Some(c)]), store)
  {
    var x := cs[i := Some(c)];
    forall j: nibble | Occupied(x, j) ensures Resolved(x[j].value, store) {
      assert j != i ==> Occupied(cs, j);
    }
  }

  lemma {:induction false} RunResolved(n: Node, ops: seq<Op>, store: Store)
    requires Resolved(n, store)
    ensures Resolved(Run(n, ops), store)
    decreases |ops|
  {
    hide Resolved, InsertNibs, DeleteNibs;
    if ops != [] {
      match ops[0] {
        case Put(k, v) => InsertResolved(n, k, v, store);
        case Remove(k) => DeleteResolved(n, k, store);
      }
      RunResolved(Apply(n, ops[0]).0, ops[1..], store);
    }
  }

  // ----- Orphans -----

  /** For every deleted key that is absent at the end, the store holds all shortenings of the last node on its
      path at the end, of the last node of the proof that it is absent, that are referred to by hash. `t` is the
      trie below `path`. */
  ghost predicate Orphans(H: Hasher, t: Node, path: Key, gone: set<Key>, store: Store)
  {
    forall q: Key, o: Node ::
      path + q in gone && GetNibs(t, q) == Ok(None) && ShortensTo(LastNode(t, q), o) && RefOf(H, o).DigestRef?
      ==> RefOf(H, o) in store
  }

  lemma OrphansBelow(H: Hasher, t: Node, path: Key, gone: set<Key>, store: Store, step: Key, c: Node)
    requires Orphans(H, t, path, gone, store)
    requires forall q: Key :: GetNibs(t, step + q) == GetNibs(c, q) && LastNode(t, step + q) == LastNode(c, q)
    ensures Orphans(H, c, path + step, gone, store)
  {
    hide GetNibs, LastNode, RefOf, ShortensTo;
    forall q: Key, o: Node |
      path + step + q in gone && GetNibs(c, q) == Ok(None) && ShortensTo(LastNode(c, q), o) && RefOf(H, o).DigestRef?
      ensures RefOf(H, o) in store
    {
      assert path + (step + q) == path + step + q;
      assert GetNibs(t, step + q) == Ok(None) && ShortensTo(LastNode(t, step + q), o);
    }
  }

  /** A node that hangs would have been resolved. */
  lemma HangingIsOrphan(H: Hasher, p: Node, t: Node, path: Key, gone: set<Key>, store: Store)
    requires Hanging(H, p, t, path, gone) && Orphans(H, t, path, gone, store)
    ensures DigestRef(p.child.digest) in store
  {
    hide PrefixNibs, RefOf, IsNormal, ToEncodedPath;
    var nibs, all := PrefixNibs(p.prefix), PrefixNibs(t.prefix);
    var s := path + nibs;
    var k :| k in gone && Beside(k, s);
    var n := |s| - 1;
    assert k[..n][..|path|] == path by { assert s[..n][..|path|] == path; }
    var q := k[|path|..];
    assert k == path + q by { assert k[..|path|] == path; }
    assert q[|nibs| - 1] != all[|nibs| - 1];
    assert !(all <= q);
    assert LastNode(t, q) == t && GetNibs(t, q) == Ok(None);
    assert ShortensTo(t, Shortened(t, |nibs|));
    assert RefOf(H, Shortened(t, |nibs|)) in store;
  }

  lemma {:induction false} NothingHangs(H: Hasher, p: Node, t: Node, path: Key, gone: set<Key>, store: Store)
    requires Loose(H, p, t, path, gone) && Resolved(p, store) && Orphans(H, t, path, gone, store)
    ensures Sparse(H, p, t)
    decreases t
  {
    if Hanging(H, p, t, path, gone) {
      HangingIsOrphan(H, p, t, path, gone, store);
    } else {
      hide PrefixNibs, RefOf, Hanging, Orphans;
      match (p, t) {
        case (Extension(a, c), Extension(_, d)) =>
          var step := PrefixNibs(a);
          forall q: Key ensures GetNibs(t, step + q) == GetNibs(d, q) && LastNode(t, step + q) == LastNode(d, q) {
            assert (step + q)[|step|..] == q;
          }
          OrphansBelow(H, t, path, gone, store, step, d);
          NothingHangs(H, c, d, path + step, gone, store);
        case (Branch(a), Branch(b)) =>
          forall i: nibble ensures SparseSlot(H, a[i], b[i]) {
            assert LooseSlot(H, a[i], b[i], path + [i], gone);
            if a[i].Some? {
              assert Occupied(a, i);
              BranchOrphans(H, b, i, path, gone, store);
              NothingHangs(H, a[i].value, b[i].value, path + [i], gone, store);
            }
          }
        case _ =>
      }
    }
  }

  lemma BranchOrphans(H: Hasher, b: Slots<Node>, i: nibble, path: Key, gone: set<Key>, store: Store)
    requires Orphans(H, Branch(b), path, gone, store) && b[i].Some?
    ensures Orphans(H, b[i].value, path + [i], gone, store)
  {
    hide RefOf, Orphans, PrefixNibs;
    var t, d := Branch(b), b[i].value;
    forall q: Key ensures GetNibs(t, [i] + q) == GetNibs(d, q) && LastNode(t, [i] + q) == LastNode(d, q) {
      assert ([i] + q)[1..] == q;
    }
    OrphansBelow(H, t, path, gone, store, [i], d);
  }

  /** For a whole block: a trie that was resolved over a store with the orphans of the final trie gives the
      full trie's answers, and after the run it stands for the final trie and has its root. */
  lemma OrphansMakeRunSound(H: Hasher, p: Node, t: Node, ops: seq<Op>, store: Store)
    requires Canon(t) && Sparse(H, p, t) && Resolved(p, store) && Known(p, ops)
    requires Orphans(H, Run(t, ops), [], Removed(ops), store)
    ensures Answers(p, ops) == Answers(t, ops)
    ensures Sparse(H, Run(p, ops), Run(t, ops)) && HashOf(H, Run(p, ops)) == HashOf(H, Run(t, ops))
  {
    hide Canon, Sparse, Resolved, Known, Orphans, Run, Answers, Loose, HashOf;
    SparseIsLoose(H, p, t, [], Removed(ops));
    RunLoose(H, p, t, ops, Removed(ops));
    RunResolved(p, ops, store);
    NothingHangs(H, Run(p, ops), Run(t, ops), [], Removed(ops), store);
    SparseReference(H, Run(p, ops), Run(t, ops));
  }

  // ----- A blind deletion that is put right -----

  lemma PairDeletes(tail: Key, v: Value, b: Node)
    requires Canon(b) && !b.Null?
    ensures DeleteNibs(Branch(Pair(LeafAt(tail, v), b)), [0] + tail) == (Adopt(1, b).0, Ok(true))
  {
    var a := LeafAt(tail, v);
    LeafKeys(tail, v, tail);
    PairFacts(a, b);
    hide Canon, Full, PrefixNibs, ToEncodedPath, Collapse, Adopt;
    var k := [0] + tail;
    assert k[1..] == tail && Pair(a, b)[0] == Some(a) && Pair(a, b)[1] == Some(b);
    assert DeleteNibs(a, tail) == (Null, Ok(true));
    LoneSiblingIsLeft(Pair(a, b), 0);
  }

  lemma ForkAtOnce(b: Node, tail: Key, w: Value, u: Value, d: Bytes32)
    requires b == Digest(d) || b == LeafAt(tail, w)
    ensures InsertNibs(Adopt(1, b).0, [2] + tail, u) == (Fork([], 1, b, 2, LeafAt(tail, u)), Ok(true))
  {
    hide PrefixNibs, ToEncodedPath, Fork;
    PathRoundTrip(tail, true);
    PathRoundTrip([1] + tail, true);
    PathRoundTrip([1], false);
    var nibs := if b.Digest? then [1] else [1] + tail;
    var k := [2] + tail;
    assert Lcp(nibs, k) == 0;
    assert nibs[..0] == [] && k[1..] == tail && ([1] + tail)[1..] == tail;
  }

  /** Blindness along the way does not decide the end: the deletion of `BlindHappens`, followed by an
      insertion that parts from the merged path at its first nibble, is blind at its first step, and yet all
      answers and the final root are the full trie's. */
  lemma BlindHeals(H: Hasher, v: Value, w: Value, u: Value, tail: Key)
    requires |tail| == 63
    ensures var p, t, k, o := OneHidden(H, tail, v, w), TwoLeaves(tail, v, w), [0] + tail, [2] + tail;
            var ops := [Remove(k), Put(o, u)];
            && Canon(t) && Full(t) && Sparse(H, p, t) && Blind(p, t, k)
            && !Sparse(H, DeleteNibs(p, k).0, DeleteNibs(t, k).0)
            && Known(p, ops) && Answers(p, ops) == Answers(t, ops)
            && Sparse(H, Run(p, ops), Run(t, ops)) && HashOf(H, Run(p, ops)) == HashOf(H, Run(t, ops))
  {
    hide Canon, Full, Sparse, Blind, InsertNibs, DeleteNibs, HashOf, LeafAt, Fork, Adopt, Pair, GetNibs;
    var p, t, k := BlindHappens(H, v, w, tail);
    var ops := [Remove(k), Put([2] + tail, u)];
    var b, d := LeafAt(tail, w), Digest(HashOf(H, LeafAt(tail, w)));
    LeafKeys(tail, w, tail);
    LeafIsHashed(H, tail, w);
    CanonDigest(d.digest);
    PairDeletes(tail, v, b);
    PairDeletes(tail, v, d);
    ForkAtOnce(b, tail, w, u, d.digest);
    ForkAtOnce(d, tail, w, u, d.digest);
    SparseFork(H, [], 1, d, b, 2, LeafAt(tail, u));
    TwoSteps(p, ops);
    TwoSteps(t, ops);
    SparseReference(H, Run(p, ops), Run(t, ops));
  }

  lemma LeafIsHashed(H: Hasher, tail: Key, w: Value)
    requires |tail| >= 60
    ensures LeafAt(tail, w).Leaf? && Sparse(H, Digest(HashOf(H, LeafAt(tail, w))), LeafAt(tail, w))
  {
    LeafKeys(tail, w, tail);
    forall q: Key | Holds(LeafAt(tail, w), q) ensures |q| == |tail| { LeafKeys(tail, w, q); }
    ReferredByHash(H, LeafAt(tail, w), |tail|);
  }

  lemma TwoSteps(n: Node, ops: seq<Op>)
    requires |ops| == 2
    ensures var (m, r) := Apply(n, ops[0]);
            var (o, s) := Apply(m, ops[1]);
            Run(n, ops) == o && Answers(n, ops) == [r, s]
  {
    hide InsertNibs, DeleteNibs;
    var (m, r) := Apply(n, ops[0]);
    var (o, s) := Apply(m, ops[1]);
    assert ops[1..] == [ops[1]] && [ops[1]][1..] == [];
    assert Run(m, [ops[1]]) == Run(o, []) == o;
    assert Answers(m, [ops[1]]) == [s] + Answers(o, []) == [s];
  }
}
