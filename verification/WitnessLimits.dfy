/** Where a witness that the client accepts gives another state root than the full state: the failing sides of the
    two conditions under which it does not. */
module WitnessLimits {
  import opened Bytes
  import opened HexPrefix
  import opened Rlp
  import opened Mpt
  import opened TrieMap
  import opened TrieRuns
  import opened TrieHash
  import opened TrieSparse
  import opened TrieCodec
  import opened TrieSize
  import opened TrieLoose
  import opened TrieProofs
  import opened StateUpdate
  import opened Stateless
  import opened WitnessCheck

  /** A post-state that destroys one account. */
  function Destroy(k: HashedKey): HashedPostState
  {
    HashedPostState(map[k := None], map[])
  }

  function NoSlots(a: HashedKey): seq<HashedKey>
  {
    []
  }

  lemma DestroyRun(H: Hasher, n: Node, k: HashedKey)
    requires DeleteNibs(n, k).1.Ok?
    ensures Lists([k], Destroy(k).accounts.Keys) && AllListed(Destroy(k), NoSlots)
    ensures UpdateRun(H, State(n, map[]), Destroy(k), [k], NoSlots) == Some(State(DeleteNibs(n, k).0, map[]))
    ensures forall a: HashedKey :: !Kept(Destroy(k), a)
  {
    hide DeleteNibs;
    var post := Destroy(k);
    forall a: HashedKey ensures Listed(post, NoSlots, a) {
      assert SlotUpdates(StorageOf(post, a).storage).Keys == {};
    }
    assert Listed(post, NoSlots, k) && AllListed(post, NoSlots);
    assert [k][1..] == [];
    assert UpdateRun(H, State(DeleteNibs(n, k).0, map[]), post, [], NoSlots) == Some(State(DeleteNibs(n, k).0, map[]));
  }

  /** The two keys of a branch over two leaves. */
  function PairMap(tail: Key, v: Value, w: Value): map<Key, Value>
  {
    map[[0] + tail := v, [1] + tail := w]
  }

  lemma PairRepresents(tail: Key, v: Value, w: Value)
    ensures Represents(TwoLeaves(tail, v, w), PairMap(tail, v, w))
  {
    hide LeafAt, Pair, GetNibs;
    var m := PairMap(tail, v, w);
    forall q: Key
      ensures GetNibs(Branch(Pair(LeafAt(tail, v), LeafAt(tail, w))), q) == Ok(if q in m then Some(m[q]) else None)
    {
      PairGet(LeafAt(tail, v), LeafAt(tail, w), q);
      assert ([0] + tail)[0] == 0 && ([1] + tail)[0] == 1;
      if q != [] {
        LeafKeys(tail, v, q[1..]);
        LeafKeys(tail, w, q[1..]);
        assert q == [q[0]] + q[1..];
        assert ([0] + tail)[1..] == tail && ([1] + tail)[1..] == tail;
      }
    }
  }

  // ----- Nodes that hang -----

  /** A witness with tags in order, with the root of the full state and accepted for it, on which the account
      that is destroyed had a neighbour known by its digest alone: the update succeeds on both sides, a node
      hangs, and the state roots after it are different, for any hash function and values, up to collisions. */
  lemma HangingUpdate(H: Hasher, v: Value, w: Value, tail: Key)
    requires |tail| == 63
    ensures var sp, st := State(OneHidden(H, tail, v, w), map[]), State(TwoLeaves(tail, v, w), map[]);
            var k: HashedKey := [0] + tail;
            && Holding(st.stateTrie, PairMap(tail, v, w)) && Checked(H, sp, HashOf(H, st.stateTrie))
            && WellTagged(sp, Destroy(k)) && Lists([k], Destroy(k).accounts.Keys) && AllListed(Destroy(k), NoSlots)
            && var p, t := UpdateRun(H, sp, Destroy(k), [k], NoSlots), UpdateRun(H, st, Destroy(k), [k], NoSlots);
               && p.Some? && t.Some?
               && (Distinguished(H, p.value.stateTrie, t.value.stateTrie) ==>
                     && SomeHangs(p.value, t.value, Destroy(k))
                     && HashOf(H, p.value.stateTrie) != HashOf(H, t.value.stateTrie))
  {
    hide Canon, Full, Sparse, DeleteNibs, HashOf, GetNibs, LeafAt, Pair, Tagged, Fits, CollisionFree, Hangs, Blind;
    hide UpdateRun, AllListed, Lists, Represents, KeyLength, Destroy, OneHidden, TwoLeaves;
    var p, t, k := BlindHappens(H, v, w, tail);
    PairRepresents(tail, v, w);
    SparseReference(H, p, t);
    CanonTagged(p);
    DestroyRun(H, p, k);
    DestroyRun(H, t, k);
    if Distinguished(H, DeleteNibs(p, k).0, DeleteNibs(t, k).0) {
      BlindDeleteShows(H, p, t, k);
      HangsAfter(H, p, t, k);
    }
  }

  lemma HangsAfter(H: Hasher, p: Node, t: Node, k: HashedKey)
    requires Canon(t) && Full(t) && Sparse(H, p, t) && !Unresolved(DeleteNibs(p, k).1)
    requires !Sparse(H, DeleteNibs(p, k).0, DeleteNibs(t, k).0)
    ensures Hangs(DeleteNibs(p, k).0, DeleteNibs(t, k).0)
  {
    hide Canon, Full, Sparse, DeleteNibs, Hangs, Loose;
    SparseIsLoose(H, p, t, [], {k});
    assert [] + k == k;
    DeleteLoose(H, p, t, k, [], {k});
    LooseExact(H, DeleteNibs(p, k).0, DeleteNibs(t, k).0, [], {k});
  }

  // ----- Nodes without their tags -----

  /** An extension onto a node that is referred to by hash has the encoding of a leaf with the same path, whose
      value is that hash. Decoding never gives this leaf, for its path has the flag of an extension. */
  function Disguised(H: Hasher, path: Key, c: Node): Node
  {
    Leaf(ToEncodedPath(path, false), HashOf(H, c))
  }

  lemma DisguisedEncoding(H: Hasher, path: Key, c: Node)
    requires RefOf(H, c) == DigestRef(HashOf(H, c))
    ensures Encode(H, Disguised(H, path, c)) == Encode(H, ExtensionAt(path, c))
    ensures HashOf(H, Disguised(H, path, c)) == HashOf(H, ExtensionAt(path, c))
    ensures !Tagged(Disguised(H, path, c))
  {
    hide ToEncodedPath, RefOf;
    LeafBit(path, false);
    assert EncodeString(HashOf(H, c)) == RefBytes(H, c);
    hide HashOf;
    HashOfEncoding(H, Disguised(H, path, c));
    HashOfEncoding(H, ExtensionAt(path, c));
  }

  /** It knows no key longer than its path, and deletes none. */
  lemma DisguisedAnswers(H: Hasher, path: Key, c: Node, k: Key)
    requires k != path
    ensures GetNibs(Disguised(H, path, c), k) == Ok(None)
    ensures DeleteNibs(Disguised(H, path, c), k) == (Disguised(H, path, c), Ok(false))
  {
    hide HashOf, ToEncodedPath, PrefixNibs;
    PathRoundTrip(path, false);
  }

  /** Leaves with different paths have different encodings. */
  lemma LeavesApart(H: Hasher, a: Node, b: Node)
    requires a.Leaf? && b.Leaf? && Distinguished(H, a, b) && PrefixNibs(a.prefix) != PrefixNibs(b.prefix)
    ensures HashOf(H, a) != HashOf(H, b)
  {
    hide PrefixNibs, Encode, HashOf, Items, EncodeString, EncodeList;
    HashOfEncoding(H, a);
    HashOfEncoding(H, b);
    assert Encode(H, a) in Encodings(H, a) && Encode(H, b) in Encodings(H, b);
    if HashOf(H, a) == HashOf(H, b) {
      var x, xs := EncodingItems(H, a);
      var y, ys := EncodingItems(H, b);
      EncodeListInjective(x, y);
      EncodeStringInjective(a.prefix, b.prefix);
    }
  }

  /** A full trie of two accounts under one extension. */
  function UnderOne(tail: Key, v: Value, w: Value): Node
  {
    ExtensionAt([0], TwoLeaves(tail, v, w))
  }

  function UnderOneMap(tail: Key, v: Value, w: Value): map<Key, Value>
  {
    map[[0, 0] + tail := v, [0, 1] + tail := w]
  }

  lemma TwoLeavesHashed(H: Hasher, v: Value, w: Value, tail: Key)
    requires |tail| == 62
    ensures var c := TwoLeaves(tail, v, w);
            c.Branch? && Canon(c) && Full(c) && RefOf(H, c) == DigestRef(HashOf(H, c))
  {
    var a, b := LeafAt(tail, v), LeafAt(tail, w);
    LeafKeys(tail, v, tail);
    LeafKeys(tail, w, tail);
    assert !a.Null? && !b.Null?;
    hide Canon, Full, HashOf, RefOf, GetNibs, LeafAt, Pair;
    PairFacts(a, b);
    forall q: Key ensures Holds(TwoLeaves(tail, v, w), q) ==> |q| == 63 { PairKeys(tail, v, w, q); }
    PairKeys(tail, v, w, []);
    ReferredByHash(H, TwoLeaves(tail, v, w), 63);
  }

  /** What it is, and what becomes of it when the first account is deleted. */
  lemma UnderOneFacts(H: Hasher, v: Value, w: Value, tail: Key)
    requires |tail| == 62
    ensures RefOf(H, TwoLeaves(tail, v, w)) == DigestRef(HashOf(H, TwoLeaves(tail, v, w)))
    ensures Holding(UnderOne(tail, v, w), UnderOneMap(tail, v, w))
    ensures DeleteNibs(UnderOne(tail, v, w), [0, 0] + tail) == (LeafAt([0, 1] + tail, w), Ok(true))
  {
    hide Canon, Full, HashOf, RefOf, GetNibs, LeafAt, DeleteNibs, Represents, TwoLeaves, ToEncodedPath;
    TwoLeavesHashed(H, v, w, tail);
    CanonExtensionAt([0], TwoLeaves(tail, v, w));
    PairRepresents(tail, v, w);
    LiftRepresents(tail, v, w, TwoLeaves(tail, v, w));
    DeleteTwo(tail, v, w, UnderOne(tail, v, w));
  }

  lemma LiftRepresents(tail: Key, v: Value, w: Value, c: Node)
    requires Represents(c, PairMap(tail, v, w))
    ensures Represents(ExtensionAt([0], c), UnderOneMap(tail, v, w))
  {
    hide GetNibs, ExtensionAt;
    var m := UnderOneMap(tail, v, w);
    assert [0, 0] + tail == [0] + ([0] + tail) && [0, 1] + tail == [0] + ([1] + tail);
    forall q: Key ensures GetNibs(ExtensionAt([0], c), q) == Ok(if q in m then Some(m[q]) else None) {
      GetExtensionAt([0], c, q);
      if [0] <= q { assert q == [0] + q[1..]; }
      assert ([0] + ([0] + tail))[1..] == [0] + tail && ([0] + ([1] + tail))[1..] == [1] + tail;
    }
  }

  lemma DeleteTwo(tail: Key, v: Value, w: Value, t: Node)
    requires Canon(t) && Full(t) && Represents(t, UnderOneMap(tail, v, w))
    ensures DeleteNibs(t, [0, 0] + tail) == (LeafAt([0, 1] + tail, w), Ok(true))
  {
    hide Canon, Full, LeafAt, DeleteNibs, GetNibs;
    var k, o := [0, 0] + tail, [0, 1] + tail;
    assert k[1] == 0 && o[1] == 1;
    assert GetNibs(t, k) == Ok(Some(v));
    DeleteIsOk(t, k);
    DeleteCanon(t, k);
    CanonLeafAt(o, w);
    var t', leaf, m := DeleteNibs(t, k).0, LeafAt(o, w), map[o := w];
    forall q: Key
      ensures GetNibs(t', q) == Ok(if q in m then Some(m[q]) else None) == GetNibs(leaf, q)
    {
      GetAfterDelete(t, k, q);
      LeafKeys(o, w, q);
    }
    RepresentsUnique(t', leaf, m);
    GetAfterDelete(t, k, k);
  }

  /** A witness that the client accepts, with an extension in the disguise of a leaf. It reports stored accounts
      absent. When one of them is destroyed, the update succeeds on both sides and nothing hangs, and yet the
      witness keeps its root, which is not the full state's; for any hash function and values, up to
      collisions. */
  lemma UntaggedUpdate(H: Hasher, v: Value, w: Value, tail: Key)
    requires |tail| == 62
    ensures var p, t := Disguised(H, [0], TwoLeaves(tail, v, w)), UnderOne(tail, v, w);
            var sp, st := State(p, map[]), State(t, map[]);
            var k: HashedKey := [0, 0] + tail;
            && Holding(t, UnderOneMap(tail, v, w)) && Checked(H, sp, HashOf(H, t))
            && Encode(H, p) == Encode(H, t) && !Tagged(p)
            && GetNibs(p, k) == Ok(None) && GetNibs(t, k) == Ok(Some(v))
            && DeleteNibs(p, k).1 == Ok(false) && DeleteNibs(t, k).1 == Ok(true)
            && Lists([k], Destroy(k).accounts.Keys) && AllListed(Destroy(k), NoSlots)
            && UpdateRun(H, sp, Destroy(k), [k], NoSlots) == Some(sp)
            && var end := UpdateRun(H, st, Destroy(k), [k], NoSlots);
               && end.Some? && !SomeHangs(sp, end.value, Destroy(k))
               && (Distinguished(H, p, end.value.stateTrie) ==> HashOf(H, p) != HashOf(H, end.value.stateTrie))
  {
    hide Canon, Full, DeleteNibs, HashOf, GetNibs, ToEncodedPath, Pair, Tagged, Fits, CollisionFree, UpdateRun;
    hide AllListed, Lists, Destroy, Encode, RefOf, PrefixNibs, TwoLeaves;
    UnderOneFacts(H, v, w, tail);
    var c, t := TwoLeaves(tail, v, w), UnderOne(tail, v, w);
    var p := Disguised(H, [0], c);
    var k: HashedKey := [0, 0] + tail;
    UnderOneAt(tail, v, w);
    DisguisedEncoding(H, [0], c);
    DisguisedAnswers(H, [0], c, k);
    DestroyRun(H, p, k);
    DestroyRun(H, t, k);
    var leaf := LeafAt([0, 1] + tail, w);
    if Distinguished(H, p, leaf) {
      PathRoundTrip([0], false);
      LeafKeys([0, 1] + tail, w, k);
      LeavesApart(H, p, leaf);
    }
  }

  lemma UnderOneAt(tail: Key, v: Value, w: Value)
    ensures var m, k := UnderOneMap(tail, v, w), [0, 0] + tail; k in m && m[k] == v
  {
    assert ([0, 0] + tail)[1] != ([0, 1] + tail)[1];
  }
}
