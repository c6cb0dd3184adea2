/** The stateless update does not depend on the order in which accounts and slots are visited: neither whether it
    succeeds nor the state it ends in, on any part of a full state. */
module StatelessOrder {
  import opened Bytes
  import opened Mpt
  import opened TrieMap
  import opened TrieRuns
  import opened TrieHash
  import opened TrieSparse
  import opened TrieSize
  import opened TrieLoose
  import opened TrieWitness
  import opened TrieHidden
  import opened StateUpdate
  import opened Stateless

  // ----- One trie -----

  ghost predicate Hashed(ops: seq<Op>)
  {
    forall i :: 0 <= i < |ops| ==> |ops[i].key| == 64
  }

  lemma UniformApply(t: Node, op: Op)
    requires Canon(t) && Full(t) && KeyLength(t, 64) && |op.key| == 64
    ensures Apply(t, op).1.Ok? && KeyLength(Apply(t, op).0, 64)
  {
    hide Canon, Full, GetNibs, InsertNibs, DeleteNibs;
    match op
    case Put(k, v) =>
      InsertUnchanged(t, k, v);
      if InsertNibs(t, k, v).1.Err? {
        var q := InsertErrWitness(t, k, v);
      }
      forall q: Key | Holds(InsertNibs(t, k, v).0, q) ensures |q| == 64 { GetAfterInsert(t, k, v, q); }
    case Remove(k) =>
      DeleteCanon(t, k);
      if DeleteNibs(t, k).1.Err? {
        var a, b := DeleteErrWitness(t, k);
      }
      forall q: Key | Holds(DeleteNibs(t, k).0, q) ensures |q| == 64 { GetAfterDelete(t, k, q); }
  }

  /** A run on a part of a full trie succeeds exactly if each of its keys can be looked up at the start. */
  lemma {:induction false} TryRunExact(H: Hasher, p: Node, t: Node, ops: seq<Op>, gone: set<Key>)
    requires Canon(t) && Full(t) && KeyLength(t, 64) && Loose(H, p, t, [], gone)
    requires Hashed(ops) && Removed(ops) <= gone
    ensures TryRun(p, ops).Some? <==> forall i :: 0 <= i < |ops| ==> !GetNibs(p, ops[i].key).Err?
    decreases |ops|
  {
    hide Canon, Full, GetNibs, Loose, KeyLength, Apply;
    if ops != [] {
      var op, rest := ops[0], ops[1..];
      ApplyStops(p, op);
      if !GetNibs(p, op.key).Err? {
        var p', t' := Apply(p, op).0, Apply(t, op).0;
        assert op.Remove? ==> op.key in Removed(ops);
        assert Removed(rest) <= Removed(ops);
        LooseCanon(H, p, t, [], gone);
        ApplyLoose(H, p, t, op, gone);
        UniformApply(t, op);
        ApplyCanon(t, op);
        TryRunExact(H, p', t', rest, gone);
        forall i | 0 <= i < |rest| ensures GetNibs(p', rest[i].key).Err? <==> GetNibs(p, ops[i + 1].key).Err? {
          ApplyKeepsStops(p, op, rest[i].key);
        }
        assert forall i :: 0 < i < |ops| ==> ops[i] == rest[i - 1];
      }
    }
  }

  ghost predicate Keyed(ops: seq<Op>)
  {
    forall i, j :: 0 <= i < j < |ops| ==> ops[i].key != ops[j].key
  }

  /** The same operations, one per key, in some order. */
  ghost predicate SameOps(ops: seq<Op>, ops': seq<Op>)
  {
    Keyed(ops) && Keyed(ops') && forall op :: op in ops <==> op in ops'
  }

  lemma SameLookup(p: Node, ops: seq<Op>, ops': seq<Op>, k: Key)
    requires SameOps(ops, ops') && TryRun(p, ops).Some? && TryRun(p, ops').Some?
    ensures GetNibs(TryRun(p, ops).value, k) == GetNibs(TryRun(p, ops').value, k)
  {
    hide GetNibs, TryRun;
    if i :| 0 <= i < |ops| && ops[i].key == k {
      assert ops[i] in ops;
      var j :| 0 <= j < |ops'| && ops'[j] == ops[i];
      TryRunAt(p, ops, i);
      TryRunAt(p, ops', j);
    } else {
      forall j | 0 <= j < |ops'| ensures ops'[j].key != k { assert ops'[j] in ops'; }
      TryRunOthers(p, ops, k);
      TryRunOthers(p, ops', k);
    }
  }

  lemma SameTrie(p: Node, ops: seq<Op>, ops': seq<Op>)
    requires Canon(p) && SameOps(ops, ops') && TryRun(p, ops).Some? && TryRun(p, ops').Some?
    ensures TryRun(p, ops) == TryRun(p, ops')
  {
    hide GetNibs, TryRun, Canon, SameOps, Run;
    TryRunIs(p, ops);
    TryRunIs(p, ops');
    RunCanon(p, ops);
    RunCanon(p, ops');
    var a, b := TryRun(p, ops).value, TryRun(p, ops').value;
    forall k: Key ensures GetNibs(a, k) == GetNibs(b, k) { SameLookup(p, ops, ops', k); }
    Unique(a, b);
  }

  /** On a part of a full trie, the order of a batch changes neither its success nor its result. */
  lemma OrderSame(H: Hasher, p: Node, t: Node, ops: seq<Op>, ops': seq<Op>)
    requires Stands(H, p, t) && Canon(t) && Full(t) && KeyLength(t, 64)
    requires Hashed(ops) && Hashed(ops') && SameOps(ops, ops')
    ensures TryRun(p, ops) == TryRun(p, ops')
  {
    hide Canon, Full, KeyLength, Sparse, GetNibs, Loose, Removed;
    if EmptyDigest(H, p, t) {
      if ops != [] { assert ops[0] in ops; }
      if ops' != [] { assert ops'[0] in ops'; }
    } else {
      hide TryRun;
      var gone := Removed(ops) + Removed(ops');
      SparseCanon(H, p, t);
      SparseIsLoose(H, p, t, [], gone);
      TryRunExact(H, p, t, ops, gone);
      TryRunExact(H, p, t, ops', gone);
      SameKeys(p, ops, ops');
      if TryRun(p, ops).Some? { SameTrie(p, ops, ops'); }
    }
  }

  lemma SameKeys(p: Node, ops: seq<Op>, ops': seq<Op>)
    requires SameOps(ops, ops')
    ensures (forall i :: 0 <= i < |ops| ==> !GetNibs(p, ops[i].key).Err?)
       <==> (forall i :: 0 <= i < |ops'| ==> !GetNibs(p, ops'[i].key).Err?)
  {
    hide GetNibs;
    forall i | 0 <= i < |ops| ensures exists j :: 0 <= j < |ops'| && ops'[j] == ops[i] { assert ops[i] in ops; }
    forall i | 0 <= i < |ops'| ensures exists j :: 0 <= j < |ops| && ops[j] == ops'[i] { assert ops'[i] in ops'; }
  }

  // ----- One account -----

  lemma SlotOpsSame(post: HashedPostState, a: HashedKey, slots: SlotOrder, slots': SlotOrder)
    requires Listed(post, slots, a) && Listed(post, slots', a)
    ensures SameOps(SlotOps(post, a, slots), SlotOps(post, a, slots')) && Hashed(SlotOps(post, a, slots))
  {
    hide SlotUpdates;
    var u := SlotUpdates(StorageOf(post, a).storage);
    SlotOpsWithin(u, slots(a), slots'(a));
    SlotOpsWithin(u, slots'(a), slots(a));
  }

  lemma SlotOpsWithin(u: Updates, order: seq<HashedKey>, order': seq<HashedKey>)
    requires Lists(order, u.Keys) && Lists(order', u.Keys)
    ensures Keyed(Batch(u, order)) && Hashed(Batch(u, order))
    ensures forall op :: op in Batch(u, order) ==> op in Batch(u, order')
  {
    var ops, ops' := Batch(u, order), Batch(u, order');
    forall op | op in ops ensures op in ops' {
      var i :| 0 <= i < |ops| && ops[i] == op;
      assert order[i] in order;
      var j :| 0 <= j < |order'| && order'[j] == order[i];
      assert ops'[j] == op;
    }
  }

  lemma NullUniform()
    ensures KeyLength(Null, 64)
  {
  }

  lemma StorageOrder(H: Hasher, sp: State, st: State, post: HashedPostState, a: HashedKey, slots: SlotOrder,
                     slots': SlotOrder)
    requires Backed(H, sp, st, a) && KeyLength(Recover(H, st, a), 64)
    requires Listed(post, slots, a) && Listed(post, slots', a)
    ensures StorageStep(H, sp, post, a, slots) == StorageStep(H, sp, post, a, slots')
  {
    hide Recover, Batch, Canon, Full, TryRun, Stands, Backed, SameOps, Hashed, Listed, GetNibs;
    NullUniform();
    StartBacked(H, sp, st, post, a);
    SlotOpsSame(post, a, slots, slots');
    SlotOpsSame(post, a, slots', slots);
    OrderSame(H, StartOf(H, sp, post, a), StartOf(H, st, post, a), SlotOps(post, a, slots), SlotOps(post, a, slots'));
  }

  // ----- Every account -----

  /** An update succeeds if its storage steps and its operations on the state trie do. */
  lemma {:induction false} SplitsSucceed(H: Hasher, s: State, now: State, post: HashedPostState,
                                         order: seq<HashedKey>, slots: SlotOrder)
    requires Distinct(order) && (forall a :: a in order ==> a in post.accounts) && AllListed(post, slots)
    requires forall a :: a in order ==> Recover(H, now, a) == Recover(H, s, a)
    requires forall a :: a in order && post.accounts[a].Some? ==>
      Listed(post, slots, a) && StorageStep(H, s, post, a, slots).Some?
    requires TryRun(now.stateTrie, AccountOps(H, s, post, order, slots)).Some?
    ensures UpdateRun(H, now, post, order, slots).Some?
    decreases |order|
  {
    hide Recover, StorageStep, HashOf, EncodeAccount, Listed, InsertNibs, DeleteNibs;
    if order != [] {
      var a, rest := order[0], order[1..];
      assert Listed(post, slots, a);
      SameStorageStep(H, now, s, post, a, slots);
      var ops := AccountOps(H, s, post, order, slots);
      assert ops[0] == AccountOp(H, s, post, a, slots) && ops[1..] == AccountOps(H, s, post, rest, slots);
      var next := AccountStep(H, now, post, a, slots).value;
      assert Apply(now.stateTrie, ops[0]).0 == next.stateTrie;
      forall b | b in rest ensures Recover(H, next, b) == Recover(H, s, b) {
        assert b in order && b != a;
        RecoverKept(H, now, post, a, slots, b);
      }
      SplitsSucceed(H, s, next, post, rest, slots);
    }
  }

  /** The two ways of visiting. */
  ghost predicate Visits(post: HashedPostState, order: seq<HashedKey>, slots: SlotOrder)
  {
    Lists(order, post.accounts.Keys) && AllListed(post, slots)
  }

  ghost predicate UniformStorage(H: Hasher, st: State, post: HashedPostState)
  {
    forall a :: Kept(post, a) ==> KeyLength(Recover(H, st, a), 64)
  }

  lemma AccountOpsWithin(H: Hasher, s: State, post: HashedPostState, order: seq<HashedKey>, slots: SlotOrder,
                         order': seq<HashedKey>, slots': SlotOrder)
    requires Visits(post, order, slots) && Visits(post, order', slots')
    requires SameSteps(H, s, post, slots, slots')
    ensures Keyed(AccountOps(H, s, post, order, slots)) && Hashed(AccountOps(H, s, post, order, slots))
    ensures forall op :: op in AccountOps(H, s, post, order, slots) ==> op in AccountOps(H, s, post, order', slots')
  {
    hide StorageStep, HashOf, EncodeAccount, Listed, AccountOps;
    var ops, ops' := AccountOps(H, s, post, order, slots), AccountOps(H, s, post, order', slots');
    assert forall i :: 0 <= i < |ops| ==> ops[i].key == order[i];
    forall op | op in ops ensures op in ops' {
      var i :| 0 <= i < |ops| && ops[i] == op;
      assert order[i] in order;
      var j :| 0 <= j < |order'| && order'[j] == order[i];
      assert post.accounts[order[i]].Some? ==> Kept(post, order[i]);
      assert ops'[j] == op;
    }
  }

  lemma SameStepsBack(H: Hasher, s: State, post: HashedPostState, slots: SlotOrder, slots': SlotOrder)
    requires SameSteps(H, s, post, slots, slots')
    ensures SameSteps(H, s, post, slots', slots)
  {
    hide StorageStep, Listed;
  }

  lemma AccountOpsSame(H: Hasher, s: State, post: HashedPostState, order: seq<HashedKey>, slots: SlotOrder,
                       order': seq<HashedKey>, slots': SlotOrder)
    requires Visits(post, order, slots) && Visits(post, order', slots')
    requires SameSteps(H, s, post, slots, slots')
    ensures SameOps(AccountOps(H, s, post, order, slots), AccountOps(H, s, post, order', slots'))
    ensures Hashed(AccountOps(H, s, post, order, slots)) && Hashed(AccountOps(H, s, post, order', slots'))
  {
    hide AccountOps, Lists, AllListed;
    SameStepsBack(H, s, post, slots, slots');
    hide SameSteps;
    AccountOpsWithin(H, s, post, order, slots, order', slots');
    AccountOpsWithin(H, s, post, order', slots', order, slots);
  }

  ghost predicate SameSteps(H: Hasher, s: State, post: HashedPostState, slots: SlotOrder, slots': SlotOrder)
  {
    forall a :: Kept(post, a) ==>
      && Listed(post, slots, a) && Listed(post, slots', a)
      && StorageStep(H, s, post, a, slots) == StorageStep(H, s, post, a, slots')
  }

  lemma StepsSame(H: Hasher, sp: State, st: State, post: HashedPostState, order: seq<HashedKey>, slots: SlotOrder,
                  slots': SlotOrder, end: State)
    requires Visits(post, order, slots) && AllListed(post, slots')
    requires AllBacked(H, sp, st, post) && UniformStorage(H, st, post)
    requires Splits(H, sp, post, order, slots, sp.stateTrie, end)
    ensures SameSteps(H, sp, post, slots, slots')
  {
    hide Recover, StorageStep, Listed, GetNibs, TryRun, AccountOps, Backed, KeyLength;
    forall a | Kept(post, a)
      ensures Listed(post, slots, a) && Listed(post, slots', a)
      ensures StorageStep(H, sp, post, a, slots) == StorageStep(H, sp, post, a, slots')
    {
      assert a in order && Listed(post, slots, a) && Listed(post, slots', a);
      SplitReads(H, sp, post, order, slots, end, a);
      StorageOrder(H, sp, st, post, a, slots, slots');
    }
  }

  lemma StepsSucceed(H: Hasher, s: State, post: HashedPostState, order: seq<HashedKey>, slots: SlotOrder,
                     order': seq<HashedKey>, slots': SlotOrder, end: State)
    requires Visits(post, order, slots) && Visits(post, order', slots') && SameSteps(H, s, post, slots, slots')
    requires Splits(H, s, post, order, slots, s.stateTrie, end)
    requires TryRun(s.stateTrie, AccountOps(H, s, post, order', slots')).Some?
    ensures UpdateRun(H, s, post, order', slots').Some?
  {
    hide Recover, StorageStep, Listed, TryRun, AccountOps, UpdateRun;
    forall a | a in order' && post.accounts[a].Some?
      ensures Listed(post, slots', a) && StorageStep(H, s, post, a, slots').Some?
    {
      assert Kept(post, a) && a in order;
    }
    SplitsSucceed(H, s, s, post, order', slots');
  }

  lemma OneOrder(H: Hasher, sp: State, st: State, m: map<Key, Value>, post: HashedPostState,
                 order: seq<HashedKey>, slots: SlotOrder, order': seq<HashedKey>, slots': SlotOrder)
    requires Visits(post, order, slots) && Visits(post, order', slots')
    requires Holding(st.stateTrie, m) && Stands(H, sp.stateTrie, st.stateTrie)
    requires AllBacked(H, sp, st, post) && UniformStorage(H, st, post)
    requires UpdateRun(H, sp, post, order, slots).Some?
    ensures UpdateRun(H, sp, post, order', slots') == UpdateRun(H, sp, post, order, slots)
  {
    assert KeyLength(st.stateTrie, 64);
    hide UpdateRun, TryRun, AccountOps, Stands, KeyLength, Canon, Full, Splits, SameSteps, Represents, AllBacked;
    hide UniformStorage, SameOps, Hashed, Recover;
    UpdateSplits(H, sp, sp, post, order, slots);
    var end := UpdateRun(H, sp, post, order, slots).value;
    StepsSame(H, sp, st, post, order, slots, slots', end);
    AccountOpsSame(H, sp, post, order, slots, order', slots');
    OrderSame(H, sp.stateTrie, st.stateTrie, AccountOps(H, sp, post, order, slots),
              AccountOps(H, sp, post, order', slots'));
    SplitsRun(H, sp, post, order, slots, end);
    StepsSucceed(H, sp, post, order, slots, order', slots', end);
    UpdateSplits(H, sp, sp, post, order', slots');
    SameEnd(H, sp, post, order, slots, order', slots');
  }

  lemma SplitsRun(H: Hasher, s: State, post: HashedPostState, order: seq<HashedKey>, slots: SlotOrder, end: State)
    requires Visits(post, order, slots) && Splits(H, s, post, order, slots, s.stateTrie, end)
    ensures TryRun(s.stateTrie, AccountOps(H, s, post, order, slots)) == Some(end.stateTrie)
  {
  }

  lemma SameEnd(H: Hasher, s: State, post: HashedPostState, order: seq<HashedKey>, slots: SlotOrder,
                order': seq<HashedKey>, slots': SlotOrder)
    requires Visits(post, order, slots) && Visits(post, order', slots')
    requires UpdateRun(H, s, post, order, slots).Some? && UpdateRun(H, s, post, order', slots').Some?
    requires var x, y := UpdateRun(H, s, post, order, slots).value, UpdateRun(H, s, post, order', slots').value;
             && Splits(H, s, post, order, slots, s.stateTrie, x) && Splits(H, s, post, order', slots', s.stateTrie, y)
             && (forall b :: b !in order || !Kept(post, b) ==> SameAt(x.storageTries, s.storageTries, b))
             && (forall b :: b !in order' || !Kept(post, b) ==> SameAt(y.storageTries, s.storageTries, b))
    requires TryRun(s.stateTrie, AccountOps(H, s, post, order, slots))
          == TryRun(s.stateTrie, AccountOps(H, s, post, order', slots'))
    requires SameSteps(H, s, post, slots, slots')
    ensures UpdateRun(H, s, post, order, slots) == UpdateRun(H, s, post, order', slots')
  {
    hide StorageStep, Listed, UpdateRun, TryRun, AccountOps;
    var x, y := UpdateRun(H, s, post, order, slots).value, UpdateRun(H, s, post, order', slots').value;
    forall b: HashedKey ensures SameAt(x.storageTries, y.storageTries, b) {
      if Kept(post, b) {
        assert b in order && b in order';
      } else {
        assert SameAt(x.storageTries, s.storageTries, b) && SameAt(y.storageTries, s.storageTries, b);
      }
    }
    assert x.storageTries == y.storageTries by { MapsAgree(x.storageTries, y.storageTries); }
  }

  lemma MapsAgree(x: map<HashedKey, Node>, y: map<HashedKey, Node>)
    requires forall b: HashedKey :: SameAt(x, y, b)
    ensures x == y
  {
    forall b | b in x ensures b in y && x[b] == y[b] { assert SameAt(x, y, b); }
    forall b | b in y ensures b in x { assert SameAt(x, y, b); }
    assert x.Keys == y.Keys;
  }

  /** On any part of a full state over hashed keys: whether the update succeeds, and the state it ends in, are the
      same for every order of accounts and slots. */
  lemma WitnessOrder(H: Hasher, sp: State, st: State, m: map<Key, Value>, post: HashedPostState,
                     order: seq<HashedKey>, slots: SlotOrder, order': seq<HashedKey>, slots': SlotOrder)
    requires Visits(post, order, slots) && Visits(post, order', slots')
    requires Holding(st.stateTrie, m) && Stands(H, sp.stateTrie, st.stateTrie)
    requires AllBacked(H, sp, st, post) && UniformStorage(H, st, post)
    ensures UpdateRun(H, sp, post, order, slots) == UpdateRun(H, sp, post, order', slots')
  {
    hide UpdateRun, Holding, Stands, AllBacked, UniformStorage;
    if UpdateRun(H, sp, post, order, slots).Some? {
      OneOrder(H, sp, st, m, post, order, slots, order', slots');
    } else if UpdateRun(H, sp, post, order', slots').Some? {
      OneOrder(H, sp, st, m, post, order', slots', order, slots);
    }
  }
}
