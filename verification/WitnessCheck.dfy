/** What the client checks of a witness before it executes a block, and what that check is worth: the stateless
    update from root hashes alone. */
module WitnessCheck {
  import opened Bytes
  import opened Mpt
  import opened TrieMap
  import opened TrieRuns
  import opened TrieHash
  import opened TrieSparse
  import opened TrieCodec
  import opened TrieSize
  import opened TrieLoose
  import opened TrieWitness
  import opened TrieProofs
  import opened TrieOrphans
  import opened TrieAssembly
  import opened StateUpdate
  import opened TrieHidden
  import opened Stateless
  import opened StatelessHidden
  import opened StatelessOrder

  // ----- The check -----

  datatype Verdict = Accepted | MismatchedStateRoot | MismatchedStorageRoot | Unwrapped

  /** The storage root on record, the empty root for an account that is not there; `None` if the lookup or the
      decoding fails and is unwrapped. */
  function RootOnRecord(H: Hasher, stateTrie: Node, a: HashedKey): Option<Bytes32>
  {
    match GetNibs(stateTrie, a)
    case Ok(None) => Some(HashOf(H, Null))
    case Ok(Some(v)) => (match DecodeAccount(v) case Some(e) => Some(e.storageRoot) case None => None)
    case _ => None
  }

  /** The state trie has the anchored root, and every storage trie the root on record. */
  ghost predicate Checked(H: Hasher, sp: State, anchor: Bytes32)
  {
    && HashOf(H, sp.stateTrie) == anchor
    && forall a :: a in sp.storageTries ==> RootOnRecord(H, sp.stateTrie, a) == Some(HashOf(H, sp.storageTries[a]))
  }

  /** A storage trie whose root is not the one on record. */
  ghost predicate Misfiled(H: Hasher, sp: State, a: HashedKey)
  {
    && a in sp.storageTries && RootOnRecord(H, sp.stateTrie, a).Some?
    && RootOnRecord(H, sp.stateTrie, a).value != HashOf(H, sp.storageTries[a])
  }

  method Check(H: Hasher, sp: State, anchor: Bytes32, order: seq<HashedKey>) returns (r: Verdict)
    requires Lists(order, sp.storageTries.Keys)
    ensures r.Accepted? <==> Checked(H, sp, anchor)
    ensures r.MismatchedStateRoot? <==> HashOf(H, sp.stateTrie) != anchor
    ensures r.MismatchedStorageRoot? ==> exists a :: Misfiled(H, sp, a)
    ensures r.Unwrapped? ==> exists a :: a in sp.storageTries && RootOnRecord(H, sp.stateTrie, a).None?
  {
    hide HashOf, RootOnRecord;
    if HashOf(H, sp.stateTrie) != anchor {
      return MismatchedStateRoot;
    }
    for i := 0 to |order|
      invariant forall j :: 0 <= j < i ==>
        order[j] in sp.storageTries
        && RootOnRecord(H, sp.stateTrie, order[j]) == Some(HashOf(H, sp.storageTries[order[j]]))
    {
      var a := order[i];
      assert a in order && a in sp.storageTries.Keys;
      var root := RootOnRecord(H, sp.stateTrie, a);
      if root.None? {
        return Unwrapped;
      }
      if root.value != HashOf(H, sp.storageTries[a]) {
        assert Misfiled(H, sp, a);
        return MismatchedStorageRoot;
      }
    }
    forall a | a in sp.storageTries
      ensures RootOnRecord(H, sp.stateTrie, a) == Some(HashOf(H, sp.storageTries[a]))
    {
      assert a in order;
      var j :| 0 <= j < |order| && order[j] == a;
    }
    return Accepted;
  }

  // ----- What a trie with the right hash is -----

  /** A trie with the hash of a full trie over hashed keys stands for it if and only if it is tagged; a bare
      digest always does. */
  lemma HashBinds(H: Hasher, x: Node, t: Node)
    requires Canon(t) && Full(t) && KeyLength(t, 64) && Distinguished(H, x, t)
    requires HashOf(H, x) == HashOf(H, t)
    ensures Stands(H, x, t) <==> Tagged(x)
  {
    hide Canon, Full, Fits, CollisionFree, Sparse, HashOf, KeyLength;
    if x.Digest? {
      HashOfDigest(H, x.digest);
      if !t.Null? { ReferredByHash(H, t, 64); }
    } else {
      RootBinds(H, x, t);
    }
  }

  // ----- Consistent full states -----

  ghost predicate Records(st: State, a: HashedKey, e: TrieAccount)
  {
    GetNibs(st.stateTrie, a) == Ok(Some(EncodeAccount(e)))
  }

  /** The full state holds the whole storage of the account, over hashed slots, and records its root; an
      account that is not recorded has no storage. */
  ghost predicate Consistent(H: Hasher, st: State, a: HashedKey)
  {
    var t := TrieOf(st, a);
    && Canon(t) && Full(t) && KeyLength(t, 64) && HashOf(H, t) != ZERO
    && ((GetNibs(st.stateTrie, a) == Ok(None) && t.Null?)
        || exists e: TrieAccount :: Records(st, a, e) && e.storageRoot == HashOf(H, t))
  }

  /** What the full state has on record is the root of the storage trie it holds. */
  lemma RecordIsRoot(H: Hasher, st: State, a: HashedKey)
    requires Consistent(H, st, a)
    ensures RootOnRecord(H, st.stateTrie, a) == Some(HashOf(H, TrieOf(st, a)))
  {
    hide GetNibs, DecodeAccount, EncodeAccount, HashOf, Canon, Full;
    if GetNibs(st.stateTrie, a) != Ok(None) {
      var e: TrieAccount :| Records(st, a, e) && e.storageRoot == HashOf(H, TrieOf(st, a));
      AccountRoundTrip(e);
    }
  }

  /** On the full state an account starts from its own storage trie. */
  lemma RecoverFull(H: Hasher, st: State, a: HashedKey)
    requires Consistent(H, st, a)
    ensures Recover(H, st, a) == TrieOf(st, a)
  {
    hide GetNibs, DecodeAccount, EncodeAccount, HashOf, Canon, Full;
    if GetNibs(st.stateTrie, a) != Ok(None) {
      var e: TrieAccount :| Records(st, a, e) && e.storageRoot == HashOf(H, TrieOf(st, a));
      AccountRoundTrip(e);
    }
  }

  lemma NullBinds(H: Hasher, t: Node)
    requires Canon(t) && Full(t) && Distinguished(H, Null, t) && HashOf(H, t) == HashOf(H, Null)
    ensures t.Null?
  {
    hide Encode, HashOf;
    RootBinds(H, Null, t);
  }

  /** With a storage trie supplied: the check of its root makes it a part of the full one if and only if it is
      tagged. */
  lemma SuppliedBacked(H: Hasher, sp: State, st: State, a: HashedKey)
    requires Sparse(H, sp.stateTrie, st.stateTrie) && Consistent(H, st, a)
    requires !TrieOf(sp, a).Null? && Distinguished(H, TrieOf(sp, a), TrieOf(st, a))
    requires RootOnRecord(H, sp.stateTrie, a) == Some(HashOf(H, TrieOf(sp, a)))
    ensures Backed(H, sp, st, a) <==> Tagged(TrieOf(sp, a))
  {
    hide Canon, Full, Fits, CollisionFree, Sparse, HashOf, GetNibs, KeyLength, Tagged, Stands;
    RecoverFull(H, st, a);
    RecordIsRoot(H, st, a);
    GetSimulates(H, sp.stateTrie, st.stateTrie, a);
    HashBinds(H, TrieOf(sp, a), TrieOf(st, a));
  }

  /** With none, or an empty one: the root on record stands in for it. */
  lemma UnsuppliedBacked(H: Hasher, sp: State, st: State, a: HashedKey)
    requires Sparse(H, sp.stateTrie, st.stateTrie) && Consistent(H, st, a) && GetNibs(sp.stateTrie, a).Ok?
    requires TrieOf(sp, a).Null? && Distinguished(H, TrieOf(sp, a), TrieOf(st, a))
    ensures Backed(H, sp, st, a)
  {
    hide Full, Fits, CollisionFree, Sparse, HashOf, GetNibs, KeyLength, DecodeAccount, EncodeAccount;
    var t := TrieOf(st, a);
    RecoverFull(H, st, a);
    GetSimulates(H, sp.stateTrie, st.stateTrie, a);
    SparseReflexive(H, Null);
    if GetNibs(st.stateTrie, a) != Ok(None) {
      var e: TrieAccount :| Records(st, a, e) && e.storageRoot == HashOf(H, t);
      AccountRoundTrip(e);
      if !t.Null? {
        if HashOf(H, t) == HashOf(H, Null) { NullBinds(H, t); }
        ReferredByHash(H, t, 64);
      }
    }
  }

  // ----- The stateless update -----

  /** The witness is accepted by the check, and no node of it collides with one of the full state. */
  ghost predicate Witnesses(H: Hasher, sp: State, st: State, post: HashedPostState)
  {
    Checked(H, sp, HashOf(H, st.stateTrie)) && AllDistinguished(H, sp, st, post)
  }

  /** What the check leaves open: the flag of every path, and that no slot holds an empty node. */
  ghost predicate WellTagged(sp: State, post: HashedPostState)
  {
    Tagged(sp.stateTrie) && forall a :: Kept(post, a) ==> Tagged(TrieOf(sp, a))
  }

  /** The tries of the witness are parts of the full state's. */
  ghost predicate Part(H: Hasher, sp: State, st: State, post: HashedPostState)
  {
    Stands(H, sp.stateTrie, st.stateTrie) && AllBacked(H, sp, st, post)
  }

  lemma BareDigest(H: Hasher, sp: State, anchor: Bytes32)
    requires sp.stateTrie.Digest? && Checked(H, sp, anchor)
    ensures sp.storageTries == map[] && forall a: HashedKey :: !GetNibs(sp.stateTrie, a).Ok?
  {
    hide HashOf, DecodeAccount;
    assert forall a: HashedKey :: RootOnRecord(H, sp.stateTrie, a).None?;
  }

  /** An account of a witness that is accepted, whose state trie is a part of the full one, is backed if and only
      if its storage trie is tagged. */
  lemma AccountBacked(H: Hasher, sp: State, st: State, post: HashedPostState, a: HashedKey)
    requires Sparse(H, sp.stateTrie, st.stateTrie) && Consistent(H, st, a) && Kept(post, a)
    requires Witnesses(H, sp, st, post)
    ensures a in sp.storageTries ==> GetNibs(sp.stateTrie, a).Ok?
    ensures GetNibs(sp.stateTrie, a).Ok? ==> (Backed(H, sp, st, a) <==> Tagged(TrieOf(sp, a)))
  {
    hide Fits, CollisionFree, Sparse, HashOf, GetNibs, Consistent, Backed, DecodeAccount;
    if GetNibs(sp.stateTrie, a).Ok? {
      if TrieOf(sp, a).Null? {
        UnsuppliedBacked(H, sp, st, a);
      } else {
        SuppliedBacked(H, sp, st, a);
      }
    }
  }

  /** The check makes the tries of the witness parts of the full state's if and only if they are tagged. */
  lemma CheckedIsPart(H: Hasher, sp: State, st: State, m: map<Key, Value>, post: HashedPostState)
    requires Holding(st.stateTrie, m) && (forall a :: Kept(post, a) ==> Consistent(H, st, a))
    requires Witnesses(H, sp, st, post)
    ensures Part(H, sp, st, post) <==> WellTagged(sp, post)
    ensures Stands(H, sp.stateTrie, st.stateTrie) <==> Tagged(sp.stateTrie)
  {
    HoldingKeys(st.stateTrie, m);
    hide Canon, Full, Sparse, HashOf, GetNibs, KeyLength, Holding, Consistent, Backed, RootOnRecord, Distinguished;
    HashBinds(H, sp.stateTrie, st.stateTrie);
    if sp.stateTrie.Digest? {
      BareDigest(H, sp, HashOf(H, st.stateTrie));
    } else if Tagged(sp.stateTrie) {
      forall a: HashedKey | Kept(post, a)
        ensures a in sp.storageTries ==> GetNibs(sp.stateTrie, a).Ok?
        ensures GetNibs(sp.stateTrie, a).Ok? ==> (Backed(H, sp, st, a) <==> Tagged(TrieOf(sp, a)))
      {
        AccountBacked(H, sp, st, post, a);
      }
    }
  }

  lemma HoldingKeys(t: Node, m: map<Key, Value>)
    requires Holding(t, m)
    ensures Canon(t) && Full(t) && KeyLength(t, 64)
  {
    hide Canon, Full, GetNibs;
  }

  /** A bare digest for a state trie lets nothing be written. */
  lemma DigestUpdate(H: Hasher, sp: State, st: State, post: HashedPostState, order: seq<HashedKey>, slots: SlotOrder)
    requires Lists(order, post.accounts.Keys) && AllListed(post, slots)
    requires sp.stateTrie.Digest? && UpdateRun(H, sp, post, order, slots).Some?
    ensures UpdateRun(H, sp, post, order, slots) == Some(sp) && UpdateRun(H, st, post, order, slots) == Some(st)
    ensures forall a: HashedKey :: !Kept(post, a)
  {
    hide StorageStep, HashOf, EncodeAccount;
    assert order == [];
    assert forall a: HashedKey :: Kept(post, a) ==> a in order;
  }

  /** The stateless update from root hashes alone. Whatever the witness, the post-state and the order in which
      it is visited, let the witness pass the check and the update succeed on it. The tries of the witness are
      parts of the full ones if and only if they are tagged. If they are, then the update succeeds on the full
      state, and the two state roots are equal if and only if no node of the updated witness hangs, which is so if
      and only if every digest that hides a leaf or an extension keeps a neighbour; up to collisions among the
      nodes at hand. */
  lemma StatelessRoot(H: Hasher, sp: State, st: State, m: map<Key, Value>, post: HashedPostState,
                      order: seq<HashedKey>, slots: SlotOrder)
    requires Holding(st.stateTrie, m) && (forall a :: Kept(post, a) ==> Consistent(H, st, a))
    requires Witnesses(H, sp, st, post) && Lists(order, post.accounts.Keys) && AllListed(post, slots)
    requires UpdateRun(H, sp, post, order, slots).Some?
    ensures Part(H, sp, st, post) <==> WellTagged(sp, post)
    ensures WellTagged(sp, post) ==> UpdateRun(H, st, post, order, slots).Some?
    ensures WellTagged(sp, post) ==>
      var p, t := UpdateRun(H, sp, post, order, slots).value, UpdateRun(H, st, post, order, slots).value;
      && (SomeHangs(p, t, post) <==> Exposed(H, sp, st, m, post))
      && (AllDistinguished(H, p, t, post) ==>
            (HashOf(H, p.stateTrie) == HashOf(H, t.stateTrie) <==> !Exposed(H, sp, st, m, post)))
  {
    hide Holding, Consistent, Sparse, AllBacked, UpdateRun, AllDistinguished, HashOf, WellTagged;
    CheckedIsPart(H, sp, st, m, post);
    if WellTagged(sp, post) {
      if sp.stateTrie.Digest? {
        hide Hidden, StorageExposed, Hangs;
        DigestUpdate(H, sp, st, post, order, slots);
        DigestHidesNone(sp.stateTrie, st.stateTrie);
      } else {
        hide Checked, SomeHangs, Exposed;
        UpdateForeseen(H, sp, st, m, post, order, slots);
      }
    }
  }

  /** And if the witness was resolved with the orphans of the final state, then none hangs, and the state roots
      are equal. */
  lemma StatelessRootWithOrphans(H: Hasher, sp: State, st: State, m: map<Key, Value>, post: HashedPostState,
                                 order: seq<HashedKey>, slots: SlotOrder)
    requires Holding(st.stateTrie, m) && (forall a :: Kept(post, a) ==> Consistent(H, st, a))
    requires Witnesses(H, sp, st, post) && Lists(order, post.accounts.Keys) && AllListed(post, slots)
    requires UpdateRun(H, sp, post, order, slots).Some?
    ensures WellTagged(sp, post) ==> UpdateRun(H, st, post, order, slots).Some?
    ensures WellTagged(sp, post) ==>
      var p, t := UpdateRun(H, sp, post, order, slots).value, UpdateRun(H, st, post, order, slots).value;
      AllCovered(H, sp, t, post) ==> HashOf(H, p.stateTrie) == HashOf(H, t.stateTrie)
  {
    hide Holding, Consistent, Sparse, AllBacked, UpdateRun, AllDistinguished, HashOf, WellTagged, AllCovered;
    CheckedIsPart(H, sp, st, m, post);
    if WellTagged(sp, post) {
      if sp.stateTrie.Digest? {
        DigestUpdate(H, sp, st, post, order, slots);
      } else {
        hide Checked;
        StatelessOrphans(H, sp, st, m, post, order, slots);
      }
    }
  }

  /** On a witness that is accepted and tagged, whether the update succeeds and the state it ends in do not depend
      on the order in which accounts and slots are visited. */
  lemma CheckedOrder(H: Hasher, sp: State, st: State, m: map<Key, Value>, post: HashedPostState,
                     order: seq<HashedKey>, slots: SlotOrder, order': seq<HashedKey>, slots': SlotOrder)
    requires Holding(st.stateTrie, m) && (forall a :: Kept(post, a) ==> Consistent(H, st, a))
    requires Witnesses(H, sp, st, post) && WellTagged(sp, post)
    requires Visits(post, order, slots) && Visits(post, order', slots')
    ensures UpdateRun(H, sp, post, order, slots) == UpdateRun(H, sp, post, order', slots')
  {
    forall a | Kept(post, a) ensures KeyLength(Recover(H, st, a), 64) { RecoverFull(H, st, a); }
    hide Holding, Consistent, Sparse, AllBacked, UpdateRun, AllDistinguished, HashOf, WellTagged, Recover, KeyLength;
    CheckedIsPart(H, sp, st, m, post);
    WitnessOrder(H, sp, st, m, post, order, slots, order', slots');
  }

  // ----- A witness made from proofs -----

  lemma FromProofsTagged(H: Hasher, n: Node, root: Bytes32, before: seq<seq<byte>>, after: seq<seq<byte>>)
    requires FromProofs(H, n, root, before, after)
    ensures Tagged(n)
  {
    hide HashOf, Collected, Resolved;
  }

  /** The proofs of one trie supply what it needs, where a digest alone needs that nothing is deleted. */
  lemma ProofsCover(H: Hasher, p: Node, root: Bytes32, before: seq<seq<byte>>, after: seq<seq<byte>>, t: Node,
                    gone: set<Key>)
    requires p.Null? || (p.Digest? && gone == {}) || (!p.Digest? && FromProofs(H, p, root, before, after))
    requires Canon(t) && Proved(H, t, gone, after)
    ensures Covered(H, p, t, gone)
  {
    hide HashOf, Collected, Canon, Orphans, Tagged, Proved;
    if p.Digest? {
      NoOrphans(H, t);
      assert Resolved(p, map[]);
    } else if !p.Null? {
      var store :| Collected(H, store, before, after) && Resolved(p, store);
      ProvedOrphans(H, t, gone, store, before, after);
    }
  }

  lemma NoOrphans(H: Hasher, t: Node)
    ensures Orphans(H, t, [], {}, map[])
  {
  }

  /** Where the storage of an account starts from, on a witness made from proofs. */
  lemma StartFromProofs(H: Hasher, sp: State, post: HashedPostState, a: HashedKey, slots: SlotOrder, root: Bytes32,
                        before: seq<seq<byte>>, after: seq<seq<byte>>)
    requires a in sp.storageTries ==> FromProofs(H, sp.storageTries[a], root, before, after)
    requires Listed(post, slots, a) && StorageStep(H, sp, post, a, slots).Some?
    ensures var p := StartOf(H, sp, post, a);
            p.Null? || (p.Digest? && GoneSlots(post, a) == {}) || (!p.Digest? && FromProofs(H, p, root, before, after))
  {
    hide FromProofs, HashOf, GetNibs, DecodeAccount, GoneSlots, Listed, Batch;
    var p := StartOf(H, sp, post, a);
    if p.Digest? {
      DigestRun(p, SlotOps(post, a, slots));
      RemovedSlots(post, a, slots);
    }
  }

  /** The proofs after the block hold, for each account it destroys and each slot it clears, the last node of a
      proof that the key is absent from the final trie. */
  ghost predicate AllProved(H: Hasher, t: State, post: HashedPostState, after: seq<seq<byte>>,
                            afters: HashedKey -> seq<seq<byte>>)
  {
    && Proved(H, t.stateTrie, GoneAccounts(post), after)
    && forall a :: Kept(post, a) ==> Proved(H, TrieOf(t, a), GoneSlots(post, a), afters(a))
  }

  /** The tries of the witness come from proofs before and after the block. */
  ghost predicate ProofState(H: Hasher, sp: State, root: Bytes32, before: seq<seq<byte>>, after: seq<seq<byte>>,
                             roots: HashedKey -> Bytes32, befores: HashedKey -> seq<seq<byte>>,
                             afters: HashedKey -> seq<seq<byte>>)
  {
    && FromProofs(H, sp.stateTrie, root, before, after)
    && forall a :: a in sp.storageTries ==> FromProofs(H, sp.storageTries[a], roots(a), befores(a), afters(a))
  }

  lemma ProofsCoverAll(H: Hasher, sp: State, st: State, post: HashedPostState, order: seq<HashedKey>,
                       slots: SlotOrder, p: State, t: State, root: Bytes32, before: seq<seq<byte>>,
                       after: seq<seq<byte>>, roots: HashedKey -> Bytes32, befores: HashedKey -> seq<seq<byte>>,
                       afters: HashedKey -> seq<seq<byte>>)
    requires Lists(order, post.accounts.Keys) && AllListed(post, slots) && Canon(st.stateTrie)
    requires Splits(H, sp, post, order, slots, sp.stateTrie, p) && Splits(H, st, post, order, slots, st.stateTrie, t)
    requires StorageLoosely(H, p, t, post, slots)
    requires ProofState(H, sp, root, before, after, roots, befores, afters) && AllProved(H, t, post, after, afters)
    ensures AllCovered(H, sp, t, post)
  {
    hide FromProofs, HashOf, TryRun, GoneSlots, GoneAccounts, Listed, Covered, Proved, Canon, Full, Loose, Removed;
    hide SlotOps, StorageStep, AccountOps, StartOf;
    var ops := AccountOps(H, sp, post, order, slots);
    if sp.stateTrie.Digest? {
      DigestRun(sp.stateTrie, ops);
    }
    RemovedAccounts(H, sp, post, order, slots);
    NoneRemoved();
    TryRunIs(st.stateTrie, AccountOps(H, st, post, order, slots));
    RunCanon(st.stateTrie, AccountOps(H, st, post, order, slots));
    ProofsCover(H, sp.stateTrie, root, before, after, t.stateTrie, GoneAccounts(post));
    forall a | Kept(post, a) ensures Covered(H, StartOf(H, sp, post, a), TrieOf(t, a), GoneSlots(post, a)) {
      assert a in order;
      StartFromProofs(H, sp, post, a, slots, roots(a), befores(a), afters(a));
      ProofsCover(H, StartOf(H, sp, post, a), roots(a), befores(a), afters(a), TrieOf(t, a), GoneSlots(post, a));
    }
  }

  lemma NoneRemoved()
    ensures Removed([]) == {}
  {
  }

  /** From proofs to the state root. The tries of a witness are made from proofs before and after a block, the
      client accepts it, and the proofs after the block show the deleted keys absent. Then an update that succeeds
      on the witness succeeds on the full state, with the same state root. */
  lemma ProvedBlock(H: Hasher, sp: State, st: State, m: map<Key, Value>, post: HashedPostState,
                    order: seq<HashedKey>, slots: SlotOrder, root: Bytes32, before: seq<seq<byte>>,
                    after: seq<seq<byte>>, roots: HashedKey -> Bytes32, befores: HashedKey -> seq<seq<byte>>,
                    afters: HashedKey -> seq<seq<byte>>)
    requires Holding(st.stateTrie, m) && (forall a :: Kept(post, a) ==> Consistent(H, st, a))
    requires ProofState(H, sp, root, before, after, roots, befores, afters)
    requires Checked(H, sp, HashOf(H, st.stateTrie)) && AllDistinguished(H, sp, st, post)
    requires Lists(order, post.accounts.Keys) && AllListed(post, slots) && UpdateRun(H, sp, post, order, slots).Some?
    ensures UpdateRun(H, st, post, order, slots).Some?
    ensures var p, t := UpdateRun(H, sp, post, order, slots).value, UpdateRun(H, st, post, order, slots).value;
            AllProved(H, t, post, after, afters) ==> HashOf(H, p.stateTrie) == HashOf(H, t.stateTrie)
  {
    assert Canon(st.stateTrie);
    hide Holding, Consistent, Sparse, AllBacked, UpdateRun, AllCovered, HashOf, AllProved, FromProofs;
    hide AllDistinguished, Tagged, Splits, StorageLoosely, Canon;
    FromProofsTagged(H, sp.stateTrie, root, before, after);
    forall a | Kept(post, a) ensures Tagged(TrieOf(sp, a)) {
      if a in sp.storageTries { FromProofsTagged(H, TrieOf(sp, a), roots(a), befores(a), afters(a)); }
      else { NullTagged(); }
    }
    CheckedIsPart(H, sp, st, m, post);
    if sp.stateTrie.Digest? {
      DigestUpdate(H, sp, st, post, order, slots);
    } else {
      hide Checked;
      UpdateLoose(H, sp, st, m, post, order, slots);
      var p, t := UpdateRun(H, sp, post, order, slots).value, UpdateRun(H, st, post, order, slots).value;
      StatelessOrphans(H, sp, st, m, post, order, slots);
      if AllProved(H, t, post, after, afters) {
        ProofsCoverAll(H, sp, st, post, order, slots, p, t, root, before, after, roots, befores, afters);
      }
    }
  }

  lemma NullTagged()
    ensures Tagged(Null)
  {
  }
}
