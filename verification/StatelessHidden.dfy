/** The stateless update, foreseen: whether a node will hang, and so whether the state roots will differ, said of the
    witness, the full state and the post-state before the update. */
module StatelessHidden {
  import opened Bytes
  import opened Mpt
  import opened TrieMap
  import opened TrieRuns
  import opened TrieHash
  import opened TrieLoose
  import opened TrieWitness
  import opened TrieHidden
  import opened StateUpdate
  import opened Stateless

  // ----- What is left at the end -----

  /** The account is there after the update. */
  predicate AccountStays(m: map<Key, Value>, post: HashedPostState, k: Key)
  {
    if k in post.accounts then post.accounts[k].Some? else k in m
  }

  /** The slot is there after the update. */
  predicate SlotStays(H: Hasher, st: State, post: HashedPostState, a: HashedKey, k: Key)
  {
    var written := StorageOf(post, a).storage;
    if k in written then written[k] != 0 else Holds(StartOf(H, st, post, a), k)
  }

  lemma AccountsLeft(H: Hasher, st: State, m: map<Key, Value>, post: HashedPostState, order: seq<HashedKey>,
                     slots: SlotOrder, t: State, k: Key)
    requires Lists(order, post.accounts.Keys) && AllListed(post, slots) && Represents(st.stateTrie, m)
    requires Splits(H, st, post, order, slots, st.stateTrie, t)
    ensures Holds(t.stateTrie, k) <==> AccountStays(m, post, k)
  {
    hide StorageStep, HashOf, EncodeAccount, Listed, TryRun, AccountOps, GetNibs, AccountOp;
    var ops := AccountOps(H, st, post, order, slots);
    if k in post.accounts {
      assert k in order;
      var i :| 0 <= i < |order| && order[i] == k;
      AccountOpKeys(H, st, post, order, slots, i);
      TryRunAt(st.stateTrie, ops, i);
    } else {
      forall i | 0 <= i < |ops| ensures ops[i].key != k {
        AccountOpKeys(H, st, post, order, slots, i);
        assert order[i] in order;
      }
      TryRunOthers(st.stateTrie, ops, k);
    }
  }

  lemma SlotsLeft(H: Hasher, st: State, post: HashedPostState, a: HashedKey, slots: SlotOrder, k: Key)
    requires Listed(post, slots, a) && StorageStep(H, st, post, a, slots).Some?
    ensures Holds(StorageStep(H, st, post, a, slots).value, k) <==> SlotStays(H, st, post, a, k)
  {
    hide Recover, TryRun, GetNibs;
    var ops := SlotOps(post, a, slots);
    var written := StorageOf(post, a).storage;
    if k in written {
      assert k in slots(a);
      var i :| 0 <= i < |slots(a)| && slots(a)[i] == k;
      TryRunAt(StartOf(H, st, post, a), ops, i);
    } else {
      forall i | 0 <= i < |ops| ensures ops[i].key != k { assert slots(a)[i] in slots(a); }
      TryRunOthers(StartOf(H, st, post, a), ops, k);
    }
  }

  // ----- What will hang -----

  /** A digest of the witness's state trie hides a leaf or an extension and keeps no neighbour. */
  ghost predicate StateExposed(sp: State, st: State, m: map<Key, Value>, post: HashedPostState)
  {
    exists s :: Hidden(sp.stateTrie, st.stateTrie, s) && forall k :: AccountStays(m, post, k) ==> !Beside(k, s)
  }

  /** The same of the storage trie that an account starts from. */
  ghost predicate StorageExposed(H: Hasher, sp: State, st: State, post: HashedPostState, a: HashedKey)
  {
    exists s :: Hidden(StartOf(H, sp, post, a), StartOf(H, st, post, a), s)
             && forall k :: SlotStays(H, st, post, a, k) ==> !Beside(k, s)
  }

  ghost predicate Exposed(H: Hasher, sp: State, st: State, m: map<Key, Value>, post: HashedPostState)
  {
    StateExposed(sp, st, m, post) || exists a :: Kept(post, a) && StorageExposed(H, sp, st, post, a)
  }

  /** For one trie. */
  lemma TryRunExposed(H: Hasher, p: Node, t: Node, ops: seq<Op>)
    requires Canon(t) && Full(t) && Sparse(H, p, t) && TryRun(p, ops).Some? && TryRun(t, ops).Some?
    ensures Hangs(TryRun(p, ops).value, TryRun(t, ops).value)
       <==> exists s :: Hidden(p, t, s) && !Accompanied(TryRun(t, ops).value, s)
  {
    hide Canon, Full, Sparse, TryRun, Hangs, Hidden, Accompanied, Run;
    TryRunIs(p, ops);
    TryRunIs(t, ops);
    HangsExact(H, p, t, ops);
  }

  lemma StorageForeseen(H: Hasher, sp: State, st: State, post: HashedPostState, a: HashedKey, slots: SlotOrder)
    requires Backed(H, sp, st, a) && Listed(post, slots, a)
    requires StorageStep(H, sp, post, a, slots).Some? && StorageStep(H, st, post, a, slots).Some?
    ensures Hangs(StorageStep(H, sp, post, a, slots).value, StorageStep(H, st, post, a, slots).value)
       <==> StorageExposed(H, sp, st, post, a)
  {
    hide Recover, Batch, Listed, Canon, Full, Sparse, HashOf, Hidden, Accompanied, SlotStays, TryRun, Holds, StartOf;
    hide Beside;
    var p, t, ops := StartOf(H, sp, post, a), StartOf(H, st, post, a), SlotOps(post, a, slots);
    var t' := StorageStep(H, st, post, a, slots).value;
    StartBacked(H, sp, st, post, a);
    forall k ensures Holds(t', k) <==> SlotStays(H, st, post, a, k) { SlotsLeft(H, st, post, a, slots, k); }
    AccompaniedMeans(t');
    if EmptyDigest(H, p, t) {
      DigestRun(p, ops);
      NothingRun(p);
      DigestHidesNone(p, t);
    } else {
      TryRunExposed(H, p, t, ops);
    }
  }

  lemma AccompaniedMeans(t: Node)
    ensures forall s :: Accompanied(t, s) <==> exists k: Key :: Holds(t, k) && Beside(k, s)
  {
  }

  lemma DigestHidesNone(p: Node, t: Node)
    requires p.Digest?
    ensures forall s :: !Hidden(p, t, s)
    ensures forall n: Node :: !Hangs(p, n)
  {
  }

  lemma NothingRun(n: Node)
    ensures TryRun(n, []) == Some(n)
  {
  }

  lemma StateForeseen(H: Hasher, sp: State, st: State, m: map<Key, Value>, post: HashedPostState,
                      order: seq<HashedKey>, slots: SlotOrder, p: State, t: State)
    requires Lists(order, post.accounts.Keys) && AllListed(post, slots) && Represents(st.stateTrie, m)
    requires Splits(H, sp, post, order, slots, sp.stateTrie, p) && Splits(H, st, post, order, slots, st.stateTrie, t)
    requires Canon(st.stateTrie) && Full(st.stateTrie) && Sparse(H, sp.stateTrie, st.stateTrie)
    requires forall a :: Kept(post, a) ==> Stands(H, TrieOf(p, a), TrieOf(t, a))
    ensures Hangs(p.stateTrie, t.stateTrie) <==> StateExposed(sp, st, m, post)
  {
    hide Canon, Full, Sparse, Hangs, Hidden, Accompanied, AccountStays, Holds, Beside, AccountOps, TryRun, Stands;
    hide Represents;
    StateLoose(H, sp, st, post, order, slots, p, t);
    forall k: Key ensures Holds(t.stateTrie, k) <==> AccountStays(m, post, k) {
      AccountsLeft(H, st, m, post, order, slots, t, k);
    }
    AccompaniedMeans(t.stateTrie);
    TryRunExposed(H, sp.stateTrie, st.stateTrie, AccountOps(H, st, post, order, slots));
  }

  lemma KeptForeseen(H: Hasher, sp: State, st: State, post: HashedPostState, order: seq<HashedKey>, slots: SlotOrder,
                     p: State, t: State, a: HashedKey)
    requires Lists(order, post.accounts.Keys) && AllListed(post, slots) && AllBacked(H, sp, st, post)
    requires Splits(H, sp, post, order, slots, sp.stateTrie, p) && Splits(H, st, post, order, slots, st.stateTrie, t)
    requires StorageLoosely(H, p, t, post, slots) && Kept(post, a)
    ensures Hangs(TrieOf(p, a), TrieOf(t, a)) <==> StorageExposed(H, sp, st, post, a)
    ensures !Hangs(TrieOf(p, a), TrieOf(t, a)) ==> Stands(H, TrieOf(p, a), TrieOf(t, a))
  {
    hide StorageStep, Listed, Loose, Canon, Full, Removed, SlotOps, Backed, GetNibs, TryRun, AccountOps, Hangs, Sparse;
    hide StorageExposed;
    assert a in order;
    SplitReads(H, sp, post, order, slots, p, a);
    StorageForeseen(H, sp, st, post, a, slots);
    if Loose(H, TrieOf(p, a), TrieOf(t, a), [], Removed(SlotOps(post, a, slots))) {
      LooseExact(H, TrieOf(p, a), TrieOf(t, a), [], Removed(SlotOps(post, a, slots)));
    }
  }

  /** Whether the state roots will be equal, said before the update and of what goes into it: they are if and only
      if every digest of the witness that hides a leaf or an extension keeps a neighbour, in the state trie and in
      the storage trie of each account that is kept; up to collisions among the nodes at the end. */
  lemma UpdateForeseen(H: Hasher, sp: State, st: State, m: map<Key, Value>, post: HashedPostState,
                       order: seq<HashedKey>, slots: SlotOrder)
    requires Lists(order, post.accounts.Keys) && AllListed(post, slots) && AllBacked(H, sp, st, post)
    requires Holding(st.stateTrie, m) && Sparse(H, sp.stateTrie, st.stateTrie)
    requires UpdateRun(H, sp, post, order, slots).Some?
    ensures UpdateRun(H, st, post, order, slots).Some?
    ensures var p, t := UpdateRun(H, sp, post, order, slots).value, UpdateRun(H, st, post, order, slots).value;
            && (SomeHangs(p, t, post) <==> Exposed(H, sp, st, m, post))
            && (AllDistinguished(H, p, t, post) ==>
                  (HashOf(H, p.stateTrie) == HashOf(H, t.stateTrie) <==> !Exposed(H, sp, st, m, post)))
  {
    StatelessUpdate(H, sp, st, m, post, order, slots);
    UpdateLoose(H, sp, st, m, post, order, slots);
    var p, t := UpdateRun(H, sp, post, order, slots).value, UpdateRun(H, st, post, order, slots).value;
    hide UpdateRun, Splits, StorageLoosely, HashOf, Hangs, Canon, Full, Sparse, AllDistinguished, AllBacked, Stands;
    hide StateExposed, StorageExposed, Represents;
    forall a | Kept(post, a)
      ensures Hangs(TrieOf(p, a), TrieOf(t, a)) <==> StorageExposed(H, sp, st, post, a)
      ensures !Hangs(TrieOf(p, a), TrieOf(t, a)) ==> Stands(H, TrieOf(p, a), TrieOf(t, a))
    {
      KeptForeseen(H, sp, st, post, order, slots, p, t, a);
    }
    if forall a :: Kept(post, a) ==> Stands(H, TrieOf(p, a), TrieOf(t, a)) {
      StateForeseen(H, sp, st, m, post, order, slots, p, t);
    }
  }
}
