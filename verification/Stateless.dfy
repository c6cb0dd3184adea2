/** The stateless update: what `EthereumState::update` on a witness says about the same update on the full
    state. */
module Stateless {
  import opened Bytes
  import opened HexPrefix
  import opened Mpt
  import opened TrieMap
  import opened TrieRuns
  import opened TrieHash
  import opened TrieSparse
  import opened TrieCodec
  import opened TrieLoose
  import opened TrieWitness
  import opened TrieHidden
  import opened TrieProofs
  import opened TrieOrphans
  import opened StateUpdate

  // ----- Runs that succeed -----

  lemma {:induction false} TryRunIs(n: Node, ops: seq<Op>)
    requires TryRun(n, ops).Some?
    ensures TryRun(n, ops).value == Run(n, ops) && Known(n, ops)
    ensures forall r :: r in Answers(n, ops) ==> r.Ok?
    decreases |ops|
  {
    hide Apply;
    if ops != [] { TryRunIs(Apply(n, ops[0]).0, ops[1..]); }
  }

  /** A key that no operation of the run touches. */
  lemma {:induction false} TryRunOthers(n: Node, ops: seq<Op>, k: Key)
    requires TryRun(n, ops).Some? && forall i :: 0 <= i < |ops| ==> ops[i].key != k
    ensures GetNibs(TryRun(n, ops).value, k) == GetNibs(n, k)
    decreases |ops|
  {
    hide InsertNibs, DeleteNibs, GetNibs;
    if ops != [] {
      match ops[0] {
        case Put(q, v) => GetAfterInsert(n, q, v, k);
        case Remove(q) => GetAfterDelete(n, q, k);
      }
      TryRunOthers(Apply(n, ops[0]).0, ops[1..], k);
    }
  }

  function Found(op: Op): Option<Value>
  {
    if op.Put? then Some(op.value) else None
  }

  /** A key that one operation writes or removes. */
  lemma {:induction false} TryRunAt(n: Node, ops: seq<Op>, i: nat)
    requires TryRun(n, ops).Some? && i < |ops|
    requires forall j :: 0 <= j < |ops| && j != i ==> ops[j].key != ops[i].key
    ensures GetNibs(TryRun(n, ops).value, ops[i].key) == Ok(Found(ops[i]))
    decreases |ops|
  {
    hide InsertNibs, DeleteNibs, GetNibs;
    if i == 0 {
      match ops[0] {
        case Put(q, v) => GetAfterInsert(n, q, v, q);
        case Remove(q) => GetAfterDelete(n, q, q);
      }
      TryRunOthers(Apply(n, ops[0]).0, ops[1..], ops[0].key);
    } else {
      TryRunAt(Apply(n, ops[0]).0, ops[1..], i - 1);
    }
  }

  // ----- The update, trie by trie -----

  ghost function SlotOps(post: HashedPostState, a: HashedKey, slots: SlotOrder): seq<Op>
    requires Listed(post, slots, a)
  {
    Batch(SlotUpdates(StorageOf(post, a).storage), slots(a))
  }

  /** What the update does to the state trie for one account, given the storage step from the start. */
  ghost function AccountOp(H: Hasher, s: State, post: HashedPostState, a: HashedKey, slots: SlotOrder): Op
    requires a in post.accounts && Listed(post, slots, a)
  {
    match post.accounts[a]
    case None => Remove(a)
    case Some(account) =>
      var t := StorageStep(H, s, post, a, slots);
      Put(a, EncodeAccount(AccountOf(account, if t.Some? then HashOf(H, t.value) else ZERO)))
  }

  ghost function AccountOps(H: Hasher, s: State, post: HashedPostState, order: seq<HashedKey>, slots: SlotOrder)
    : (ops: seq<Op>)
    requires (forall a :: a in order ==> a in post.accounts) && AllListed(post, slots)
    ensures |ops| == |order|
    ensures forall i :: 0 <= i < |order| ==>
      order[i] in post.accounts && Listed(post, slots, order[i]) && ops[i] == AccountOp(H, s, post, order[i], slots)
  {
    if order == [] then [] else
      assert Listed(post, slots, order[0]);
      [AccountOp(H, s, post, order[0], slots)] + AccountOps(H, s, post, order[1..], slots)
  }

  lemma AccountOpKeys(H: Hasher, s: State, post: HashedPostState, order: seq<HashedKey>, slots: SlotOrder, i: nat)
    requires Distinct(order) && (forall a :: a in order ==> a in post.accounts) && AllListed(post, slots)
    requires i < |order|
    ensures var ops := AccountOps(H, s, post, order, slots);
            && (ops[i].Put? <==> post.accounts[order[i]].Some?) && ops[i].key == order[i]
            && forall j :: 0 <= j < |ops| && j != i ==> ops[j].key != ops[i].key
  {
    hide StorageStep, HashOf, EncodeAccount, Listed, AccountOps;
    var ops := AccountOps(H, s, post, order, slots);
    assert forall j :: 0 <= j < |ops| ==> ops[j].key == order[j];
  }

  /** A step for one account leaves where every other starts from. */
  lemma RecoverKept(H: Hasher, s: State, post: HashedPostState, a: HashedKey, slots: SlotOrder, b: HashedKey)
    requires a in post.accounts && Listed(post, slots, a) && a != b && AccountStep(H, s, post, a, slots).Some?
    ensures Recover(H, AccountStep(H, s, post, a, slots).value, b) == Recover(H, s, b)
  {
    hide InsertNibs, DeleteNibs, GetNibs, StorageStep, Listed, EncodeAccount, DecodeAccount, HashOf;
    var s' := AccountStep(H, s, post, a, slots).value;
    assert GetNibs(s'.stateTrie, b) == GetNibs(s.stateTrie, b) by {
      if post.accounts[a].None? {
        GetAfterDelete(s.stateTrie, a, b);
      } else {
        var root := HashOf(H, StorageStep(H, s, post, a, slots).value);
        GetAfterInsert(s.stateTrie, a, EncodeAccount(AccountOf(post.accounts[a].value, root)), b);
      }
    }
  }

  lemma SameStorageStep(H: Hasher, s: State, s': State, post: HashedPostState, a: HashedKey, slots: SlotOrder)
    requires Recover(H, s, a) == Recover(H, s', a) && Listed(post, slots, a)
    ensures StorageStep(H, s, post, a, slots) == StorageStep(H, s', post, a, slots)
  {
    hide Recover, TryRun, Batch, Listed;
  }

  /** The state a successful update ends with: every storage trie as its own slots leave it, and the state trie
      after one operation per account. This holds of any state, on a witness as on the full state. */
  ghost predicate Splits(H: Hasher, s: State, post: HashedPostState, order: seq<HashedKey>, slots: SlotOrder,
                         from: Node, end: State)
    requires (forall a :: a in order ==> a in post.accounts) && AllListed(post, slots)
  {
    && TryRun(from, AccountOps(H, s, post, order, slots)) == Some(end.stateTrie)
    && forall a :: a in order && post.accounts[a].Some? ==>
         && Listed(post, slots, a) && StorageStep(H, s, post, a, slots).Some?
         && a in end.storageTries && end.storageTries[a] == StorageStep(H, s, post, a, slots).value
  }

  lemma {:induction false} UpdateSplits(H: Hasher, s: State, now: State, post: HashedPostState,
                                        order: seq<HashedKey>, slots: SlotOrder)
    requires Distinct(order) && (forall a :: a in order ==> a in post.accounts) && AllListed(post, slots)
    requires forall a :: a in order ==> Recover(H, now, a) == Recover(H, s, a)
    requires UpdateRun(H, now, post, order, slots).Some?
    ensures Splits(H, s, post, order, slots, now.stateTrie, UpdateRun(H, now, post, order, slots).value)
    ensures forall b :: b !in order || !Kept(post, b) ==>
      SameAt(UpdateRun(H, now, post, order, slots).value.storageTries, now.storageTries, b)
    decreases |order|
  {
    hide Recover, StorageStep, HashOf, EncodeAccount, Listed, InsertNibs, DeleteNibs;
    if order != [] {
      var a, rest := order[0], order[1..];
      assert Listed(post, slots, a);
      SameStorageStep(H, now, s, post, a, slots);
      var next := AccountStep(H, now, post, a, slots).value;
      forall b | b in rest ensures Recover(H, next, b) == Recover(H, s, b) {
        assert b in order && b != a;
        RecoverKept(H, now, post, a, slots, b);
      }
      UpdateSplits(H, s, next, post, rest, slots);
      var ops := AccountOps(H, s, post, order, slots);
      assert ops[0] == AccountOp(H, s, post, a, slots) && ops[1..] == AccountOps(H, s, post, rest, slots);
      assert Apply(now.stateTrie, ops[0]).1.Ok? && Apply(now.stateTrie, ops[0]).0 == next.stateTrie;
      assert a !in rest;
      var end := UpdateRun(H, next, post, rest, slots).value;
      assert UpdateRun(H, now, post, order, slots).value == end;
      forall b | b in order && post.accounts[b].Some?
        ensures Listed(post, slots, b) && StorageStep(H, s, post, b, slots).Some?
        ensures b in end.storageTries && end.storageTries[b] == StorageStep(H, s, post, b, slots).value
      {
        if b == a {
          assert SameAt(end.storageTries, next.storageTries, a);
        } else {
          assert b in rest;
        }
      }
      forall b | b !in order || !Kept(post, b) ensures SameAt(end.storageTries, now.storageTries, b) {
        assert SameAt(end.storageTries, next.storageTries, b);
      }
    }
  }

  lemma HoldingStep(n: Node, m: map<Key, Value>, op: Op) returns (m': map<Key, Value>)
    requires Holding(n, m) && |op.key| == 64
    ensures Apply(n, op).1.Ok? && Holding(Apply(n, op).0, m')
  {
    hide Canon, Full, Represents, Apply;
    var ops := [op];
    UniformRun(n, m, ops, 64);
    RunRefines(n, m, ops);
    assert ops[1..] == [];
    assert Answers(n, ops)[0] == Apply(n, op).1;
    m' := PlainRun(m, ops);
    assert m' == PlainApply(m, op);
  }

  /** On the full state trie nothing but a storage trie can make the update fail. */
  lemma {:induction false} FullSucceeds(H: Hasher, s: State, now: State, m: map<Key, Value>, post: HashedPostState,
                                        order: seq<HashedKey>, slots: SlotOrder)
    requires Distinct(order) && (forall a :: a in order ==> a in post.accounts) && AllListed(post, slots)
    requires Holding(now.stateTrie, m) && forall a :: a in order ==> Recover(H, now, a) == Recover(H, s, a)
    requires forall a :: a in order && post.accounts[a].Some? ==>
      Listed(post, slots, a) && StorageStep(H, s, post, a, slots).Some?
    ensures UpdateRun(H, now, post, order, slots).Some?
    decreases |order|
  {
    hide Recover, StorageStep, HashOf, EncodeAccount, Listed, InsertNibs, DeleteNibs, Holding;
    if order != [] {
      var a, rest := order[0], order[1..];
      assert Listed(post, slots, a);
      SameStorageStep(H, now, s, post, a, slots);
      var m' := HoldingStep(now.stateTrie, m, AccountOp(H, now, post, a, slots));
      var next := AccountStep(H, now, post, a, slots).value;
      forall b | b in rest ensures Recover(H, next, b) == Recover(H, s, b) {
        assert b in order && b != a;
        RecoverKept(H, now, post, a, slots, b);
      }
      FullSucceeds(H, s, next, m', post, rest, slots);
    }
  }

  // ----- Witness and full state -----

  /** A bare digest of the empty trie: no write passes it, and it has the right root. */
  ghost predicate EmptyDigest(H: Hasher, p: Node, t: Node)
  {
    p == Digest(HashOf(H, Null)) && t.Null?
  }

  ghost predicate Stands(H: Hasher, p: Node, t: Node)
  {
    Sparse(H, p, t) || EmptyDigest(H, p, t)
  }

  ghost predicate Loosely(H: Hasher, p: Node, t: Node, gone: set<Key>)
  {
    Loose(H, p, t, [], gone) || EmptyDigest(H, p, t)
  }

  lemma StandsReference(H: Hasher, p: Node, t: Node)
    requires Stands(H, p, t)
    ensures HashOf(H, p) == HashOf(H, t)
  {
    hide Sparse, HashOf;
    if Sparse(H, p, t) { SparseReference(H, p, t); } else { HashOfDigest(H, p.digest); }
  }

  lemma LooselyRoot(H: Hasher, p: Node, t: Node, gone: set<Key>)
    requires Loosely(H, p, t, gone) && Canon(t) && Full(t) && Distinguished(H, p, t)
    ensures HashOf(H, p) == HashOf(H, t) <==> !Hangs(p, t)
    ensures !Hangs(p, t) <==> Stands(H, p, t)
  {
    if EmptyDigest(H, p, t) {
      StandsReference(H, p, t);
    } else {
      hide Canon, Full, Fits, CollisionFree, HashOf, Hangs;
      LooseRoot(H, p, t, [], gone);
    }
  }

  /** The storage trie the update starts from on the witness is a part of the one it starts from on the full
      state. */
  ghost predicate Backed(H: Hasher, sp: State, st: State, a: HashedKey)
  {
    var p, t := Recover(H, sp, a), Recover(H, st, a);
    Canon(t) && Full(t) && Stands(H, p, t)
  }

  /** Each account that is kept is backed, if it can be read on the witness, as it must be for its update to
      succeed. */
  ghost predicate AllBacked(H: Hasher, sp: State, st: State, post: HashedPostState)
  {
    forall a: HashedKey :: Kept(post, a) && GetNibs(sp.stateTrie, a).Ok? ==> Backed(H, sp, st, a)
  }

  /** The slots of an account, on both sides: the run succeeds on the full trie too, and nothing is wrong but
      that nodes may hang. */
  lemma StorageLoose(H: Hasher, sp: State, st: State, post: HashedPostState, a: HashedKey, slots: SlotOrder)
    requires Backed(H, sp, st, a) && Listed(post, slots, a) && StorageStep(H, sp, post, a, slots).Some?
    ensures StorageStep(H, st, post, a, slots).Some?
    ensures var p, t := StorageStep(H, sp, post, a, slots).value, StorageStep(H, st, post, a, slots).value;
            Canon(t) && Full(t) && Loosely(H, p, t, Removed(SlotOps(post, a, slots)))
  {
    hide Recover, Batch, Listed, Loose, Canon, Full, Removed, Run, Known, Answers, Sparse;
    var p, t, ops := StartOf(H, sp, post, a), StartOf(H, st, post, a), SlotOps(post, a, slots);
    StartBacked(H, sp, st, post, a);
    if EmptyDigest(H, p, t) {
      DigestRun(p, ops);
    } else {
      hide TryRun;
      TryRunIs(p, ops);
      SparseIsLoose(H, p, t, [], Removed(ops));
      RunLoose(H, p, t, ops, Removed(ops));
      RunCanon(t, ops);
      TryRunIsRun(t, ops);
    }
  }

  lemma DigestRun(n: Node, ops: seq<Op>)
    requires n.Digest? && TryRun(n, ops).Some?
    ensures ops == []
  {
  }

  lemma StartBacked(H: Hasher, sp: State, st: State, post: HashedPostState, a: HashedKey)
    requires Backed(H, sp, st, a)
    ensures var p, t := StartOf(H, sp, post, a), StartOf(H, st, post, a);
            Canon(t) && Full(t) && Stands(H, p, t)
  {
    hide Recover, RefOf;
  }

  /** An account whose update succeeded could be read before. */
  lemma SplitReads(H: Hasher, s: State, post: HashedPostState, order: seq<HashedKey>, slots: SlotOrder, end: State,
                   a: HashedKey)
    requires Distinct(order) && (forall a :: a in order ==> a in post.accounts) && AllListed(post, slots)
    requires Splits(H, s, post, order, slots, s.stateTrie, end) && a in order && post.accounts[a].Some?
    ensures GetNibs(s.stateTrie, a).Ok?
  {
    hide StorageStep, HashOf, EncodeAccount, Listed, GetNibs, TryRun, AccountOps, AccountOp;
    var i :| 0 <= i < |order| && order[i] == a;
    AccountOpKeys(H, s, post, order, slots, i);
    TryRunReads(s.stateTrie, AccountOps(H, s, post, order, slots), i);
  }

  lemma {:induction false} TryRunReads(n: Node, ops: seq<Op>, i: nat)
    requires TryRun(n, ops).Some? && i < |ops| && ops[i].Put?
    requires forall j :: 0 <= j < |ops| && j != i ==> ops[j].key != ops[i].key
    ensures GetNibs(n, ops[i].key).Ok?
    decreases |ops|
  {
    hide InsertNibs, DeleteNibs, GetNibs;
    if i == 0 {
      InsertStops(n, ops[0].key, ops[0].value);
      NeverPanics(n, ops[0].key);
    } else {
      TryRunReads(Apply(n, ops[0]).0, ops[1..], i - 1);
      match ops[0] {
        case Put(q, v) => GetAfterInsert(n, q, v, ops[i].key);
        case Remove(q) => GetAfterDelete(n, q, ops[i].key);
      }
    }
  }

  /** The storage tries of the accounts that are kept, at the end: nothing is wrong but that nodes may hang. */
  ghost predicate StorageLoosely(H: Hasher, p: State, t: State, post: HashedPostState, slots: SlotOrder)
  {
    forall a :: Kept(post, a) ==>
      && Listed(post, slots, a) && Canon(TrieOf(t, a)) && Full(TrieOf(t, a))
      && Loosely(H, TrieOf(p, a), TrieOf(t, a), Removed(SlotOps(post, a, slots)))
  }

  lemma KeptLoose(H: Hasher, sp: State, st: State, post: HashedPostState, order: seq<HashedKey>, slots: SlotOrder,
                  end: State, a: HashedKey)
    requires Lists(order, post.accounts.Keys) && AllListed(post, slots) && AllBacked(H, sp, st, post)
    requires Splits(H, sp, post, order, slots, sp.stateTrie, end) && Kept(post, a)
    ensures a in order && Listed(post, slots, a) && StorageStep(H, st, post, a, slots).Some?
    ensures var t := StorageStep(H, st, post, a, slots).value;
            Canon(t) && Full(t) && Loosely(H, TrieOf(end, a), t, Removed(SlotOps(post, a, slots)))
  {
    hide StorageStep, Listed, Loosely, Canon, Full, Removed, SlotOps, Backed, GetNibs, TryRun, AccountOps;
    assert a in order && Listed(post, slots, a);
    SplitReads(H, sp, post, order, slots, end, a);
    StorageLoose(H, sp, st, post, a, slots);
  }

  /** What both updates have in common, whatever hangs. */
  lemma UpdateLoose(H: Hasher, sp: State, st: State, m: map<Key, Value>, post: HashedPostState,
                    order: seq<HashedKey>, slots: SlotOrder)
    requires Lists(order, post.accounts.Keys) && AllListed(post, slots) && AllBacked(H, sp, st, post)
    requires Holding(st.stateTrie, m) && UpdateRun(H, sp, post, order, slots).Some?
    ensures UpdateRun(H, st, post, order, slots).Some?
    ensures var p, t := UpdateRun(H, sp, post, order, slots).value, UpdateRun(H, st, post, order, slots).value;
            && Splits(H, sp, post, order, slots, sp.stateTrie, p) && Splits(H, st, post, order, slots, st.stateTrie, t)
            && StorageLoosely(H, p, t, post, slots)
  {
    hide Recover, StorageStep, Listed, Loosely, Canon, Full, Removed, SlotOps, UpdateRun, Holding, AllBacked;
    hide TryRun, AccountOps;
    UpdateSplits(H, sp, sp, post, order, slots);
    var end := UpdateRun(H, sp, post, order, slots).value;
    forall a | Kept(post, a)
      ensures a in order && Listed(post, slots, a) && StorageStep(H, st, post, a, slots).Some?
      ensures var t := StorageStep(H, st, post, a, slots).value;
              Canon(t) && Full(t) && Loosely(H, TrieOf(end, a), t, Removed(SlotOps(post, a, slots)))
    {
      KeptLoose(H, sp, st, post, order, slots, end, a);
    }
    FullSucceeds(H, st, st, m, post, order, slots);
    UpdateSplits(H, st, st, post, order, slots);
  }

  /** Some node hangs, in the state trie or in the storage trie of an account that is kept. */
  ghost predicate SomeHangs(p: State, t: State, post: HashedPostState)
  {
    Hangs(p.stateTrie, t.stateTrie) || exists a :: Kept(post, a) && Hangs(TrieOf(p, a), TrieOf(t, a))
  }

  ghost predicate AllDistinguished(H: Hasher, p: State, t: State, post: HashedPostState)
  {
    && Distinguished(H, p.stateTrie, t.stateTrie)
    && forall a :: Kept(post, a) ==> Distinguished(H, TrieOf(p, a), TrieOf(t, a))
  }

  /** If all storage roots agree, the two state tries undergo the same operations. */
  lemma SameRoots(H: Hasher, sp: State, st: State, post: HashedPostState, order: seq<HashedKey>, slots: SlotOrder,
                  p: State, t: State)
    requires Lists(order, post.accounts.Keys) && AllListed(post, slots)
    requires Splits(H, sp, post, order, slots, sp.stateTrie, p) && Splits(H, st, post, order, slots, st.stateTrie, t)
    requires forall a :: Kept(post, a) ==> HashOf(H, TrieOf(p, a)) == HashOf(H, TrieOf(t, a))
    ensures AccountOps(H, sp, post, order, slots) == AccountOps(H, st, post, order, slots)
  {
    hide StorageStep, HashOf, EncodeAccount, Listed, TryRun;
    forall i | 0 <= i < |order|
      ensures order[i] in post.accounts && Listed(post, slots, order[i])
      ensures AccountOp(H, sp, post, order[i], slots) == AccountOp(H, st, post, order[i], slots)
    {
      assert order[i] in order;
      assert Listed(post, slots, order[i]);
      if post.accounts[order[i]].Some? { assert Kept(post, order[i]); }
    }
  }

  lemma TryRunLoose(H: Hasher, p: Node, t: Node, ops: seq<Op>)
    requires Canon(t) && Full(t) && Sparse(H, p, t) && TryRun(p, ops).Some? && TryRun(t, ops).Some?
    ensures Canon(TryRun(t, ops).value) && Full(TryRun(t, ops).value)
    ensures Loose(H, TryRun(p, ops).value, TryRun(t, ops).value, [], Removed(ops))
  {
    hide Canon, Full, Sparse, Loose, TryRun, Run, Known, Answers, Removed;
    TryRunIs(p, ops);
    TryRunIs(t, ops);
    SparseIsLoose(H, p, t, [], Removed(ops));
    RunLoose(H, p, t, ops, Removed(ops));
    RunCanon(t, ops);
  }

  /** With all storage tries of the kept accounts standing for the full ones, nothing is wrong with the state
      trie either but that nodes may hang. */
  lemma StateLoose(H: Hasher, sp: State, st: State, post: HashedPostState, order: seq<HashedKey>, slots: SlotOrder,
                   p: State, t: State)
    requires Lists(order, post.accounts.Keys) && AllListed(post, slots)
    requires Splits(H, sp, post, order, slots, sp.stateTrie, p) && Splits(H, st, post, order, slots, st.stateTrie, t)
    requires Canon(st.stateTrie) && Full(st.stateTrie) && Sparse(H, sp.stateTrie, st.stateTrie)
    requires forall a :: Kept(post, a) ==> Stands(H, TrieOf(p, a), TrieOf(t, a))
    ensures AccountOps(H, sp, post, order, slots) == AccountOps(H, st, post, order, slots)
    ensures Canon(t.stateTrie) && Full(t.stateTrie)
    ensures Loose(H, p.stateTrie, t.stateTrie, [], Removed(AccountOps(H, st, post, order, slots)))
  {
    hide StorageStep, HashOf, EncodeAccount, Listed, TryRun, Canon, Full, Sparse, Loose, Stands, Removed;
    forall a | Kept(post, a) ensures HashOf(H, TrieOf(p, a)) == HashOf(H, TrieOf(t, a)) {
      StandsReference(H, TrieOf(p, a), TrieOf(t, a));
    }
    SameRoots(H, sp, st, post, order, slots, p, t);
    TryRunLoose(H, sp.stateTrie, st.stateTrie, AccountOps(H, st, post, order, slots));
  }

  // ----- Equal roots exactly when nothing hangs -----

  lemma {:induction false} TryRunNotDigest(n: Node, ops: seq<Op>)
    requires Canon(n) && TryRun(n, ops).Some? && !n.Digest?
    ensures Canon(TryRun(n, ops).value) && !TryRun(n, ops).value.Digest?
    decreases |ops|
  {
    if ops != [] {
      hide Canon, Apply;
      ApplyNotDigest(n, ops[0]);
      ApplyCanon(n, ops[0]);
      TryRunNotDigest(Apply(n, ops[0]).0, ops[1..]);
    }
  }

  lemma ApplyNotDigest(n: Node, op: Op)
    requires Canon(n) && !n.Digest?
    ensures !Apply(n, op).0.Digest?
  {
    hide PrefixNibs, ToEncodedPath, Lcp, Canon;
    if op.Remove? && !n.Null? { DeleteEmpties(n, op.key); }
  }

  lemma SparseHangsNot(H: Hasher, p: Node, t: Node)
    requires Sparse(H, p, t)
    ensures !Hangs(p, t)
  {
    SparseIsLoose(H, p, t, [], {});
    LooseExact(H, p, t, [], {});
  }

  /** The account that a successful update has written is found with the root of its storage trie. */
  lemma WrittenAccount(H: Hasher, s: State, post: HashedPostState, order: seq<HashedKey>, slots: SlotOrder, end: State,
                       a: HashedKey) returns (e: TrieAccount)
    requires Lists(order, post.accounts.Keys) && AllListed(post, slots) && Kept(post, a)
    requires Splits(H, s, post, order, slots, s.stateTrie, end)
    ensures e.storageRoot == HashOf(H, TrieOf(end, a)) && GetNibs(end.stateTrie, a) == Ok(Some(EncodeAccount(e)))
  {
    hide StorageStep, HashOf, EncodeAccount, Listed, GetNibs, TryRun, AccountOps;
    assert a in order;
    var i :| 0 <= i < |order| && order[i] == a;
    AccountOpKeys(H, s, post, order, slots, i);
    TryRunAt(s.stateTrie, AccountOps(H, s, post, order, slots), i);
    e := AccountOf(post.accounts[a].value, HashOf(H, StorageStep(H, s, post, a, slots).value));
  }

  /** The state root commits to every storage root. */
  lemma RootsAgree(H: Hasher, sp: State, st: State, post: HashedPostState, order: seq<HashedKey>, slots: SlotOrder,
                   p: State, t: State, a: HashedKey)
    requires Lists(order, post.accounts.Keys) && AllListed(post, slots) && Kept(post, a)
    requires Splits(H, sp, post, order, slots, sp.stateTrie, p) && Splits(H, st, post, order, slots, st.stateTrie, t)
    requires Sparse(H, p.stateTrie, t.stateTrie)
    ensures HashOf(H, TrieOf(p, a)) == HashOf(H, TrieOf(t, a))
  {
    hide HashOf, EncodeAccount, Splits, GetNibs, Sparse;
    var e := WrittenAccount(H, sp, post, order, slots, p, a);
    var f := WrittenAccount(H, st, post, order, slots, t, a);
    GetSimulates(H, p.stateTrie, t.stateTrie, a);
    AccountRoundTrip(e);
    AccountRoundTrip(f);
  }

  /** Equal state roots: the final state trie of the witness stands for the full one. */
  lemma EqualIsSparse(H: Hasher, sp: State, st: State, post: HashedPostState, order: seq<HashedKey>,
                      slots: SlotOrder, p: State, t: State)
    requires Lists(order, post.accounts.Keys) && AllListed(post, slots)
    requires Splits(H, sp, post, order, slots, sp.stateTrie, p) && Splits(H, st, post, order, slots, st.stateTrie, t)
    requires Canon(st.stateTrie) && Full(st.stateTrie) && Sparse(H, sp.stateTrie, st.stateTrie)
    requires Distinguished(H, p.stateTrie, t.stateTrie) && HashOf(H, p.stateTrie) == HashOf(H, t.stateTrie)
    ensures Sparse(H, p.stateTrie, t.stateTrie)
  {
    hide HashOf, Full, Fits, CollisionFree, Apply;
    var ops := AccountOps(H, sp, post, order, slots);
    if sp.stateTrie.Digest? {
      assert ops == [] by { DigestRun(sp.stateTrie, ops); }
      assert AccountOps(H, st, post, order, slots) == [];
    } else {
      hide Sparse, TryRun, Canon, Tagged;
      SparseCanon(H, sp.stateTrie, st.stateTrie);
      TryRunNotDigest(sp.stateTrie, ops);
      CanonTagged(p.stateTrie);
      TryRunIs(st.stateTrie, AccountOps(H, st, post, order, slots));
      RunCanon(st.stateTrie, AccountOps(H, st, post, order, slots));
      RootBinds(H, p.stateTrie, t.stateTrie);
    }
  }

  /** An update that succeeds on a witness succeeds on the full state. The storage tries it leaves are the full
      ones, except that nodes may hang. The two state roots are equal if and only if no node hangs, in the state
      trie or in the storage trie of any account that is kept; up to collisions among the nodes at the end. */
  lemma StatelessUpdate(H: Hasher, sp: State, st: State, m: map<Key, Value>, post: HashedPostState,
                        order: seq<HashedKey>, slots: SlotOrder)
    requires Lists(order, post.accounts.Keys) && AllListed(post, slots) && AllBacked(H, sp, st, post)
    requires Holding(st.stateTrie, m) && Sparse(H, sp.stateTrie, st.stateTrie)
    requires UpdateRun(H, sp, post, order, slots).Some?
    ensures UpdateRun(H, st, post, order, slots).Some?
    ensures var p, t := UpdateRun(H, sp, post, order, slots).value, UpdateRun(H, st, post, order, slots).value;
            && StorageLoosely(H, p, t, post, slots)
            && (AllDistinguished(H, p, t, post) ==>
                  (HashOf(H, p.stateTrie) == HashOf(H, t.stateTrie) <==> !SomeHangs(p, t, post)))
  {
    UpdateLoose(H, sp, st, m, post, order, slots);
    var p, t := UpdateRun(H, sp, post, order, slots).value, UpdateRun(H, st, post, order, slots).value;
    hide UpdateRun, Splits, Loosely, Loose, Stands, Removed, SlotOps, Listed, HashOf, Hangs, Canon, Full, Sparse;
    hide Fits, CollisionFree, AllBacked;
    if AllDistinguished(H, p, t, post) {
      if HashOf(H, p.stateTrie) == HashOf(H, t.stateTrie) {
        EqualIsSparse(H, sp, st, post, order, slots, p, t);
        SparseHangsNot(H, p.stateTrie, t.stateTrie);
        forall a | Kept(post, a) ensures !Hangs(TrieOf(p, a), TrieOf(t, a)) {
          RootsAgree(H, sp, st, post, order, slots, p, t, a);
          LooselyRoot(H, TrieOf(p, a), TrieOf(t, a), Removed(SlotOps(post, a, slots)));
        }
      }
      if !SomeHangs(p, t, post) {
        forall a | Kept(post, a) ensures Stands(H, TrieOf(p, a), TrieOf(t, a)) {
          LooselyRoot(H, TrieOf(p, a), TrieOf(t, a), Removed(SlotOps(post, a, slots)));
        }
        StateLoose(H, sp, st, post, order, slots, p, t);
        LooseRoot(H, p.stateTrie, t.stateTrie, [], Removed(AccountOps(H, st, post, order, slots)));
      }
    }
  }

  // ----- With the orphans of the final state -----

  /** The accounts a post-state destroys, and the slots it clears. */
  ghost function GoneAccounts(post: HashedPostState): set<Key>
  {
    set a | a in post.accounts && post.accounts[a].None?
  }

  ghost function GoneSlots(post: HashedPostState, a: HashedKey): set<Key>
  {
    set k | k in StorageOf(post, a).storage && StorageOf(post, a).storage[k] == 0
  }

  lemma RemovedAccounts(H: Hasher, s: State, post: HashedPostState, order: seq<HashedKey>, slots: SlotOrder)
    requires Lists(order, post.accounts.Keys) && AllListed(post, slots)
    ensures Removed(AccountOps(H, s, post, order, slots)) == GoneAccounts(post)
  {
    hide StorageStep, HashOf, EncodeAccount, Listed, AccountOps, GoneAccounts;
    var ops := AccountOps(H, s, post, order, slots);
    forall i | 0 <= i < |order|
      ensures ops[i].key == order[i] && (ops[i].Remove? <==> ops[i].key in GoneAccounts(post))
    {
      AccountOpKind(H, s, post, order[i], slots);
    }
    hide AccountOp, AllListed;
    forall k | k in GoneAccounts(post) ensures k in Removed(ops) {
      GoneListed(post, order, k);
      var i :| 0 <= i < |order| && order[i] == k;
      assert ops[i] in ops;
    }
    forall k | k in Removed(ops) ensures k in GoneAccounts(post) {
      var i :| 0 <= i < |ops| && ops[i].Remove? && ops[i].key == k;
    }
  }

  lemma GoneListed(post: HashedPostState, order: seq<HashedKey>, k: Key)
    requires Lists(order, post.accounts.Keys) && k in GoneAccounts(post)
    ensures k in order
  {
  }

  lemma AccountOpKind(H: Hasher, s: State, post: HashedPostState, a: HashedKey, slots: SlotOrder)
    requires a in post.accounts && Listed(post, slots, a)
    ensures AccountOp(H, s, post, a, slots).key == a
    ensures AccountOp(H, s, post, a, slots).Remove? <==> a in GoneAccounts(post)
  {
  }

  lemma RemovedSlots(post: HashedPostState, a: HashedKey, slots: SlotOrder)
    requires Listed(post, slots, a)
    ensures Removed(SlotOps(post, a, slots)) == GoneSlots(post, a)
  {
    var ops := SlotOps(post, a, slots);
    forall k | k in Removed(ops) ensures k in GoneSlots(post, a) {
      var i :| 0 <= i < |ops| && ops[i].Remove? && ops[i].key == k;
    }
    forall k | k in GoneSlots(post, a) ensures k in Removed(ops) {
      assert k in slots(a);
      var i :| 0 <= i < |slots(a)| && slots(a)[i] == k;
      assert ops[i] in ops;
    }
  }

  /** What is at hand for one trie that ends as `t`: all of it, or the orphans of `t`, with which it was
      resolved. */
  ghost predicate Covered(H: Hasher, p: Node, t: Node, gone: set<Key>)
  {
    Full(p) || exists store :: Resolved(p, store) && Orphans(H, t, [], gone, store)
  }

  lemma {:induction false} FullHangsNot(H: Hasher, p: Node, t: Node, path: Key, gone: set<Key>)
    requires Full(p) && Loose(H, p, t, path, gone)
    ensures Sparse(H, p, t)
    decreases t
  {
    hide PrefixNibs, RefOf;
    match (p, t)
    case (Extension(a, c), Extension(_, d)) => FullHangsNot(H, c, d, path + PrefixNibs(a), gone);
    case (Branch(a), Branch(b)) =>
      forall i: nibble ensures SparseSlot(H, a[i], b[i]) {
        assert LooseSlot(H, a[i], b[i], path + [i], gone);
        if a[i].Some? {
          assert Occupied(a, i);
          FullHangsNot(H, a[i].value, b[i].value, path + [i], gone);
        }
      }
    case _ =>
  }

  /** A run on a trie that is covered leaves nothing hanging. */
  lemma CoveredRun(H: Hasher, p: Node, t: Node, ops: seq<Op>)
    requires Canon(t) && Full(t) && Sparse(H, p, t) && TryRun(p, ops).Some? && TryRun(t, ops).Some?
    requires Covered(H, p, TryRun(t, ops).value, Removed(ops))
    ensures Sparse(H, TryRun(p, ops).value, TryRun(t, ops).value)
  {
    hide Canon, Full, Sparse, Loose, TryRun, Run, Removed, Resolved, Orphans, Known, Answers;
    TryRunLoose(H, p, t, ops);
    TryRunIs(p, ops);
    if Full(p) {
      SparseCanon(H, p, t);
      RunCanon(p, ops);
      FullHangsNot(H, Run(p, ops), TryRun(t, ops).value, [], Removed(ops));
    } else {
      var store :| Resolved(p, store) && Orphans(H, TryRun(t, ops).value, [], Removed(ops), store);
      RunResolved(p, ops, store);
      NothingHangs(H, Run(p, ops), TryRun(t, ops).value, [], Removed(ops), store);
    }
  }

  lemma StorageCovered(H: Hasher, sp: State, st: State, post: HashedPostState, a: HashedKey, slots: SlotOrder)
    requires Backed(H, sp, st, a) && Listed(post, slots, a)
    requires StorageStep(H, sp, post, a, slots).Some? && StorageStep(H, st, post, a, slots).Some?
    requires Covered(H, StartOf(H, sp, post, a), StorageStep(H, st, post, a, slots).value, GoneSlots(post, a))
    ensures Stands(H, StorageStep(H, sp, post, a, slots).value, StorageStep(H, st, post, a, slots).value)
  {
    hide Recover, Batch, Listed, Canon, Full, Removed, Covered, GoneSlots, Backed, Sparse, HashOf;
    var p, t, ops := StartOf(H, sp, post, a), StartOf(H, st, post, a), SlotOps(post, a, slots);
    StartBacked(H, sp, st, post, a);
    if EmptyDigest(H, p, t) {
      DigestRun(p, ops);
    } else {
      hide TryRun;
      RemovedSlots(post, a, slots);
      CoveredRun(H, p, t, ops);
    }
  }

  /** The state trie and the storage tries of the accounts that are kept are covered, given the state `t` in
      which the full update ends. */
  ghost predicate AllCovered(H: Hasher, sp: State, t: State, post: HashedPostState)
  {
    && Covered(H, sp.stateTrie, t.stateTrie, GoneAccounts(post))
    && forall a :: Kept(post, a) ==> Covered(H, StartOf(H, sp, post, a), TrieOf(t, a), GoneSlots(post, a))
  }

  /** With the orphans of the final state at hand no node hangs: the update ends with the state root of the full
      update, whatever collides. */
  lemma StatelessOrphans(H: Hasher, sp: State, st: State, m: map<Key, Value>, post: HashedPostState,
                         order: seq<HashedKey>, slots: SlotOrder)
    requires Lists(order, post.accounts.Keys) && AllListed(post, slots) && AllBacked(H, sp, st, post)
    requires Holding(st.stateTrie, m) && Sparse(H, sp.stateTrie, st.stateTrie)
    requires UpdateRun(H, sp, post, order, slots).Some?
    ensures UpdateRun(H, st, post, order, slots).Some?
    ensures var p, t := UpdateRun(H, sp, post, order, slots).value, UpdateRun(H, st, post, order, slots).value;
            AllCovered(H, sp, t, post) ==>
              && HashOf(H, p.stateTrie) == HashOf(H, t.stateTrie)
              && Sparse(H, p.stateTrie, t.stateTrie)
              && forall a :: Kept(post, a) ==> Stands(H, TrieOf(p, a), TrieOf(t, a))
  {
    UpdateLoose(H, sp, st, m, post, order, slots);
    var p, t := UpdateRun(H, sp, post, order, slots).value, UpdateRun(H, st, post, order, slots).value;
    hide UpdateRun, Stands, Removed, SlotOps, Listed, HashOf, Canon, Full, Sparse, StorageStep, TryRun, StorageLoosely;
    hide Covered, GoneSlots, GoneAccounts, Backed, GetNibs, AccountOps;
    if AllCovered(H, sp, t, post) {
      forall a | Kept(post, a) ensures Stands(H, TrieOf(p, a), TrieOf(t, a)) {
        assert a in order;
        SplitReads(H, sp, post, order, slots, p, a);
        StorageCovered(H, sp, st, post, a, slots);
      }
      StateLoose(H, sp, st, post, order, slots, p, t);
      RemovedAccounts(H, st, post, order, slots);
      CoveredRun(H, sp.stateTrie, st.stateTrie, AccountOps(H, st, post, order, slots));
      SparseReference(H, p.stateTrie, t.stateTrie);
    }
  }
}
