/** `EthereumState` as it is in memory: a state trie and storage tries that share no node, changed in place,
    with their cached references. */
module StateHeap {
  import opened Bytes
  import opened Rlp
  import opened Mpt
  import opened TrieRuns
  import opened TrieHash
  import opened StateUpdate
  import opened TH = TrieHeap

  /** Writes the slots in the given order, up to the first error. */
  method WriteSlots(ghost H: Hasher, trie: MptNode, storage: map<HashedKey, u256>, order: seq<HashedKey>)
    returns (ok: bool)
    requires trie.Valid(H) && Lists(order, SlotUpdates(storage).Keys)
    modifies trie.Repr
    ensures TryRun(old(trie.Model), Batch(SlotUpdates(storage), order)) == if ok then Some(trie.Model) else None
    ensures ok ==> trie.Valid(H) && fresh(trie.Repr - old(trie.Repr))
  {
    hide InsertNibs, DeleteNibs, RefOf;
    ghost var u := SlotUpdates(storage);
    ghost var ops := Batch(u, order);
    for i := 0 to |order|
      invariant trie.Valid(H) && fresh(trie.Repr - old(trie.Repr))
      invariant TryRun(old(trie.Model), ops) == TryRun(trie.Model, ops[i..])
    {
      var key := order[i];
      assert key in u.Keys;
      assert ops[i..][0] == OpFor(u, key) && ops[i..][1..] == ops[i + 1..];
      var r;
      if storage[key] == 0 {
        r := trie.DeleteInternal(H, key);
      } else {
        r := trie.InsertInternal(H, key, EncodeString(BigEndian(storage[key])));
      }
      if !r.Ok? {
        return false;
      }
    }
    ok := true;
  }

  /** The node's tree is valid, made of exactly these nodes, and has this value. */
  ghost predicate Owns(H: Hasher, n: MptNode, nodes: set<MptNode>, model: Mpt.Node)
    requires n in nodes
    reads nodes
  {
    n.Repr == nodes && n.Valid(H) && n.Model == model
  }

  /** The trees lie in `repr`, and no two of them share a node. */
  ghost predicate Apart(repr: set<MptNode>, root: set<MptNode>, feet: map<HashedKey, set<MptNode>>)
  {
    && root <= repr
    && (forall a :: a in feet ==> feet[a] <= repr && feet[a] !! root)
    && (forall a, b :: a in feet && b in feet && a != b ==> feet[a] !! feet[b])
  }

  lemma StillApart(repr: set<MptNode>, mine: set<MptNode>, other: set<MptNode>, nodes: set<MptNode>)
    requires nodes * repr <= mine && other <= repr && other !! mine
    ensures other !! nodes
  {
    assert forall x :: x in other && x in nodes ==> x in nodes * repr;
  }

  /** A tree that is new, or is one of them grown by new nodes, keeps them apart. */
  lemma ApartGrows(repr: set<MptNode>, root: set<MptNode>, feet: map<HashedKey, set<MptNode>>, a: HashedKey,
                   nodes: set<MptNode>)
    requires Apart(repr, root, feet) && nodes * repr <= if a in feet then feet[a] else {}
    ensures Apart(repr + nodes, root, feet[a := nodes])
  {
    var mine := if a in feet then feet[a] else {};
    forall b | b in feet && b != a ensures feet[b] !! nodes { StillApart(repr, mine, feet[b], nodes); }
    StillApart(repr, mine, root, nodes);
  }

  lemma ApartRoot(repr: set<MptNode>, root: set<MptNode>, feet: map<HashedKey, set<MptNode>>, nodes: set<MptNode>)
    requires Apart(repr, root, feet) && nodes * repr <= root
    ensures Apart(repr + nodes, nodes, feet)
  {
    forall a | a in feet ensures feet[a] !! nodes { StillApart(repr, root, feet[a], nodes); }
  }

  /** All tries but that of account `a` are valid, and lie in `others`. */
  ghost predicate Rest(H: Hasher, trie: MptNode, root: set<MptNode>, tries: map<HashedKey, MptNode>,
                       feet: map<HashedKey, set<MptNode>>, value: State, a: HashedKey, others: set<MptNode>)
    reads others
  {
    && trie in root && root <= others && Owns(H, trie, root, value.stateTrie)
    && forall b :: b in tries && b != a ==>
         && b in feet && b in value.storageTries && feet[b] <= others && tries[b] in feet[b]
         && Owns(H, tries[b], feet[b], value.storageTries[b])
  }

  /** `Rest` says nothing about account `a`. */
  lemma RestWith(H: Hasher, trie: MptNode, root: set<MptNode>, tries: map<HashedKey, MptNode>,
                 feet: map<HashedKey, set<MptNode>>, value: State, a: HashedKey, others: set<MptNode>,
                 n: MptNode, nodes: set<MptNode>, model: Mpt.Node)
    requires Rest(H, trie, root, tries, feet, value, a, others)
    ensures Rest(H, trie, root, tries[a := n], feet[a := nodes],
                 value.(storageTries := value.storageTries[a := model]), a, others)
  {
    hide Owns;
  }

  /** All storage tries are valid, and lie in `others`. */
  ghost predicate Stores(H: Hasher, tries: map<HashedKey, MptNode>, feet: map<HashedKey, set<MptNode>>,
                         models: map<HashedKey, Mpt.Node>, others: set<MptNode>)
    reads others
  {
    tries.Keys == feet.Keys == models.Keys &&
    forall b :: b in tries ==> feet[b] <= others && tries[b] in feet[b] && Owns(H, tries[b], feet[b], models[b])
  }

  class EthereumState {
    var stateTrie: MptNode
    var storageTries: map<HashedKey, MptNode>
    ghost var Repr: set<MptNode>
    ghost var Root: set<MptNode>
    ghost var Feet: map<HashedKey, set<MptNode>>
    ghost var Value: State

    /** Every trie is valid, no two share a node, and `Value` holds their values. */
    ghost predicate Valid(H: Hasher)
      reads this, Repr
    {
      && Apart(Repr, Root, Feet) && stateTrie in Root && Owns(H, stateTrie, Root, Value.stateTrie)
      && storageTries.Keys == Feet.Keys == Value.storageTries.Keys
      && forall a :: a in storageTries ==>
           storageTries[a] in Feet[a] && Owns(H, storageTries[a], Feet[a], Value.storageTries[a])
    }

    ghost function FootOf(a: HashedKey): set<MptNode>
      reads this
    {
      if a in Feet then Feet[a] else {}
    }

    lemma Split(H: Hasher, a: HashedKey)
      requires Valid(H)
      ensures Rest(H, stateTrie, Root, storageTries, Feet, Value, a, Repr - FootOf(a))
      ensures Apart(Repr, Root, Feet) && storageTries.Keys == Feet.Keys == Value.storageTries.Keys
      ensures a in storageTries ==>
        storageTries[a] in Feet[a] && Owns(H, storageTries[a], Feet[a], Value.storageTries[a])
      ensures stateTrie in Root && Owns(H, stateTrie, Root, Value.stateTrie) && Root !! FootOf(a)
    {
      hide Owns;
      assert forall b :: b in Feet && b != a ==> Feet[b] !! FootOf(a);
    }

    lemma Join(H: Hasher, a: HashedKey, others: set<MptNode>)
      requires Rest(H, stateTrie, Root, storageTries, Feet, Value, a, others) && others <= Repr
      requires Apart(Repr, Root, Feet) && storageTries.Keys == Feet.Keys == Value.storageTries.Keys
      requires a in storageTries && storageTries[a] in Feet[a]
      requires Owns(H, storageTries[a], Feet[a], Value.storageTries[a])
      ensures Valid(H)
    {
      hide Owns, Apart;
    }

    constructor (ghost H: Hasher, state: MptNode, storage: map<HashedKey, MptNode>,
                 ghost feet: map<HashedKey, set<MptNode>>, ghost repr: set<MptNode>, ghost value: State)
      requires state in state.Repr && Owns(H, state, state.Repr, value.stateTrie) && Apart(repr, state.Repr, feet)
      requires storage.Keys == feet.Keys == value.storageTries.Keys
      requires forall a :: a in storage ==>
        storage[a] in feet[a] && Owns(H, storage[a], feet[a], value.storageTries[a])
      ensures Valid(H) && stateTrie == state && storageTries == storage && Value == value
    {
      stateTrie, storageTries := state, storage;
      Repr, Root, Feet, Value := repr, state.Repr, feet, value;
    }

    /** `entry(..).or_default()` */
    method Entry(ghost H: Hasher, a: HashedKey)
      requires Valid(H)
      modifies this
      ensures Valid(H) && fresh(Repr - old(Repr)) && a in storageTries
      ensures Value == old(Value).(storageTries := old(Value).storageTries[a := TrieOf(old(Value), a)])
    {
      Split(H, a);
      if a in storageTries {
        return;
      }
      hide Owns, Rest, EthereumState.Valid;
      var trie := new MptNode.MakeNull(H);
      Put(H, a, trie);
    }

    /** The account gets this trie, which is new or was its own before. */
    method Put(ghost H: Hasher, a: HashedKey, trie: MptNode)
      requires Rest(H, stateTrie, Root, storageTries, Feet, Value, a, Repr - FootOf(a)) && Apart(Repr, Root, Feet)
      requires storageTries.Keys == Feet.Keys == Value.storageTries.Keys
      requires trie.Valid(H) && trie.Repr * Repr <= FootOf(a)
      modifies this
      ensures Valid(H) && Repr == old(Repr) + trie.Repr && stateTrie == old(stateTrie)
      ensures storageTries == old(storageTries)[a := trie]
      ensures Value == old(Value).(storageTries := old(Value).storageTries[a := trie.Model])
    {
      hide Owns, Rest, Apart, EthereumState.Valid, MptNode.Valid;
      ghost var others := Repr - FootOf(a);
      OwnsAll(H, trie);
      ApartGrows(Repr, Root, Feet, a, trie.Repr);
      RestWith(H, stateTrie, Root, storageTries, Feet, Value, a, others, trie, trie.Repr, trie.Model);
      storageTries := storageTries[a := trie];
      Feet := Feet[a := trie.Repr];
      Value := Value.(storageTries := Value.storageTries[a := trie.Model]);
      Repr := Repr + trie.Repr;
      Join(H, a, others);
    }

    /** The storage part of an account whose trie is there. */
    method ChangeStorage(H: Hasher, post: HashedPostState, a: HashedKey, slots: SlotOrder)
      returns (ok: bool, root: Bytes32)
      requires Valid(H) && Listed(post, slots, a) && a in storageTries && a in Feet
      modifies this, Feet[a]
      ensures ok <==> StorageStep(H, old(Value), post, a, slots).Some?
      ensures ok ==> Valid(H) && fresh(Repr - old(Repr))
      ensures ok ==> root == HashOf(H, StorageStep(H, old(Value), post, a, slots).value)
      ensures ok ==> Value == State(old(Value).stateTrie,
        old(Value).storageTries[a := StorageStep(H, old(Value), post, a, slots).value])
    {
      Split(H, a);
      hide StorageStep, Listed, HashOf, Owns, Rest, Apart, EthereumState.Valid, MptNode.Valid;
      var trie := storageTries[a];
      OwnsFacts(H, trie, Feet[a], Value.storageTries[a]);
      OwnsFacts(H, stateTrie, Root, Value.stateTrie);
      ok, root := RunStorage(H, trie, stateTrie, post, a, slots, Value);
      if ok {
        Put(H, a, trie);
      }
    }

    /** The storage part of one account; `root` is the hash of its storage trie afterwards. */
    method UpdateStorage(H: Hasher, post: HashedPostState, a: HashedKey, slots: SlotOrder)
      returns (ok: bool, root: Bytes32)
      requires Valid(H) && Listed(post, slots, a)
      modifies this, Repr
      ensures ok <==> StorageStep(H, old(Value), post, a, slots).Some?
      ensures ok ==> Valid(H) && fresh(Repr - old(Repr))
      ensures ok ==> root == HashOf(H, StorageStep(H, old(Value), post, a, slots).value)
      ensures ok ==> Value == State(old(Value).stateTrie,
        old(Value).storageTries[a := StorageStep(H, old(Value), post, a, slots).value])
    {
      hide StorageStep, Listed, HashOf, Owns, EthereumState.Valid, MptNode.Valid;
      Entry(H, a);
      SameStart(H, old(Value), Value, post, a, slots);
      Split(H, a);
      ok, root := ChangeStorage(H, post, a, slots);
    }

    lemma SplitRoot(H: Hasher)
      requires Valid(H)
      ensures Stores(H, storageTries, Feet, Value.storageTries, Repr - Root) && Apart(Repr, Root, Feet)
      ensures stateTrie in Root && Owns(H, stateTrie, Root, Value.stateTrie)
    {
      hide Owns;
    }

    lemma JoinRoot(H: Hasher, others: set<MptNode>)
      requires Stores(H, storageTries, Feet, Value.storageTries, others) && others <= Repr
      requires Apart(Repr, Root, Feet) && stateTrie in Root && Owns(H, stateTrie, Root, Value.stateTrie)
      ensures Valid(H)
    {
      hide Owns, Apart;
    }

    /** The state trie has been changed in place. */
    ghost method PutRoot(H: Hasher)
      requires Stores(H, storageTries, Feet, Value.storageTries, Repr - Root) && Apart(Repr, Root, Feet)
      requires stateTrie.Valid(H) && stateTrie.Repr * Repr <= Root
      modifies this`Repr, this`Root, this`Value
      ensures Valid(H) && Repr == old(Repr) + stateTrie.Repr
      ensures Value == old(Value).(stateTrie := stateTrie.Model)
    {
      var others := Repr - Root;
      OwnsAll(H, stateTrie);
      ApartRoot(Repr, Root, Feet, stateTrie.Repr);
      hide Owns, Stores, Apart, EthereumState.Valid, MptNode.Valid;
      Repr := Repr + stateTrie.Repr;
      Root := stateTrie.Repr;
      Value := Value.(stateTrie := stateTrie.Model);
      JoinRoot(H, others);
    }

    method InsertAccount(H: Hasher, a: HashedKey, v: Mpt.Value) returns (ok: bool)
      requires Valid(H)
      modifies this, Repr
      ensures ok <==> InsertNibs(old(Value).stateTrie, a, v).1.Ok?
      ensures ok ==> Valid(H) && fresh(Repr - old(Repr))
      ensures ok ==> Value == old(Value).(stateTrie := InsertNibs(old(Value).stateTrie, a, v).0)
    {
      SplitRoot(H);
      hide Owns, Stores, Apart, EthereumState.Valid, MptNode.Valid, InsertNibs;
      OwnsFacts(H, stateTrie, Root, Value.stateTrie);
      ApartFacts(Repr, Root, Feet);
      var r := stateTrie.InsertInternal(H, a, v);
      PutRoot(H);
      ok := r.Ok?;
    }

    method DeleteAccount(H: Hasher, a: HashedKey) returns (ok: bool)
      requires Valid(H)
      modifies this, Repr
      ensures ok <==> DeleteNibs(old(Value).stateTrie, a).1.Ok?
      ensures ok ==> Valid(H) && fresh(Repr - old(Repr))
      ensures ok ==> Value == old(Value).(stateTrie := DeleteNibs(old(Value).stateTrie, a).0)
    {
      SplitRoot(H);
      hide Owns, Stores, Apart, EthereumState.Valid, MptNode.Valid, DeleteNibs;
      OwnsFacts(H, stateTrie, Root, Value.stateTrie);
      ApartFacts(Repr, Root, Feet);
      var r := stateTrie.DeleteInternal(H, a);
      if r.Ok? {
        PutRoot(H);
      }
      ok := r.Ok?;
    }

    method UpdateAccount(H: Hasher, post: HashedPostState, a: HashedKey, slots: SlotOrder) returns (ok: bool)
      requires Valid(H) && a in post.accounts && Listed(post, slots, a)
      modifies this, Repr
      ensures AccountStep(H, old(Value), post, a, slots) == if ok then Some(Value) else None
      ensures ok ==> Valid(H) && fresh(Repr - old(Repr))
    {
      hide StorageStep, Listed, HashOf, Owns, EthereumState.Valid, MptNode.Valid, InsertNibs, DeleteNibs, EncodeAccount;
      if post.accounts[a].None? {
        ok := DeleteAccount(H, a);
      } else {
        var root;
        ok, root := UpdateStorage(H, post, a, slots);
        if ok {
          ok := InsertAccount(H, a, EncodeAccount(AccountOf(post.accounts[a].value, root)));
        }
      }
    }

    /** `false` stands for a panic on an unwrapped error. */
    method Update(H: Hasher, post: HashedPostState, order: seq<HashedKey>, slots: SlotOrder) returns (ok: bool)
      requires Valid(H) && Lists(order, post.accounts.Keys) && AllListed(post, slots)
      modifies this, Repr
      ensures UpdateRun(H, old(Value), post, order, slots) == if ok then Some(Value) else None
      ensures ok ==> Valid(H) && fresh(Repr - old(Repr))
    {
      hide AccountStep, EthereumState.Valid, Listed;
      for i := 0 to |order|
        invariant Valid(H) && fresh(Repr - old(Repr))
        invariant forall a :: a in order[i..] ==> a in post.accounts
        invariant UpdateRun(H, old(Value), post, order, slots) == UpdateRun(H, Value, post, order[i..], slots)
      {
        assert order[i..][0] == order[i] && order[i..][1..] == order[i + 1..];
        assert Listed(post, slots, order[i]);
        ok := UpdateAccount(H, post, order[i], slots);
        if !ok {
          return;
        }
      }
      ok := true;
    }

    /** The hash of the state trie, through its caches; no value changes. */
    method StateRoot(H: Hasher) returns (root: Bytes32)
      requires Valid(H)
      modifies this, Repr`cachedReference
      ensures Valid(H) && root == HashOf(H, Value.stateTrie) && Value == old(Value) && Repr == old(Repr)
    {
      SplitRoot(H);
      hide Owns, Stores, Apart, EthereumState.Valid, MptNode.Valid, HashOf;
      OwnsFacts(H, stateTrie, Root, Value.stateTrie);
      ApartFacts(Repr, Root, Feet);
      root := stateTrie.Hash(H);
      PutRoot(H);
    }
  }

  lemma ApartFacts(repr: set<MptNode>, root: set<MptNode>, feet: map<HashedKey, set<MptNode>>)
    requires Apart(repr, root, feet)
    ensures root <= repr
  {
  }

  lemma OwnsFacts(H: Hasher, n: MptNode, nodes: set<MptNode>, model: Mpt.Node)
    requires n in nodes && Owns(H, n, nodes, model)
    ensures n.Repr == nodes && n.Valid(H) && n.Model == model
  {
  }

  lemma OwnsAll(H: Hasher, n: MptNode)
    requires n.Valid(H)
    ensures n in n.Repr && Owns(H, n, n.Repr, n.Model)
  {
  }

  /** Creating an empty storage trie does not change what the account starts from. */
  lemma SameStart(H: Hasher, st: State, st': State, post: HashedPostState, a: HashedKey, slots: SlotOrder)
    requires st'.stateTrie == st.stateTrie && TrieOf(st', a) == TrieOf(st, a) && Listed(post, slots, a)
    ensures StorageStep(H, st', post, a, slots) == StorageStep(H, st, post, a, slots)
  {
    hide GetNibs, DecodeAccount, HashOf, TryRun, Batch, Listed, TrieOf;
  }

  /** The trie an account starts from: an empty one is replaced by a digest of the root on record, and a
      wiped one is cleared. */
  method StartTrie(H: Hasher, trie: MptNode, stateTrie: MptNode, post: HashedPostState, a: HashedKey, ghost st: State)
    requires trie.Valid(H) && stateTrie.Valid(H) && trie.Repr !! stateTrie.Repr
    requires st.stateTrie == stateTrie.Model && TrieOf(st, a) == trie.Model
    modifies trie
    ensures trie.Valid(H) && trie.Repr == old(trie.Repr) && trie.Model == StartOf(H, st, post, a)
  {
    hide GetNibs, DecodeAccount, HashOf, RefOf;
    if trie.data.Null? {
      var found := stateTrie.GetInternal(H, a);
      if found.Ok? && found.value.Some? {
        var existing := DecodeAccount(found.value.value);
        if existing.Some? && existing.value.storageRoot != HashOf(H, Mpt.Null) && existing.value.storageRoot != ZERO {
          trie.BecomeDigest(H, existing.value.storageRoot);
        }
      }
    }
    assert trie.Model == Recover(H, st, a);
    if StorageOf(post, a).wiped {
      trie.Clear(H);
    }
  }

  method RunStorage(H: Hasher, trie: MptNode, stateTrie: MptNode, post: HashedPostState, a: HashedKey, slots: SlotOrder,
                    ghost st: State)
    returns (ok: bool, root: Bytes32)
    requires trie.Valid(H) && stateTrie.Valid(H) && trie.Repr !! stateTrie.Repr && Listed(post, slots, a)
    requires st.stateTrie == stateTrie.Model && TrieOf(st, a) == trie.Model
    modifies trie.Repr
    ensures StorageStep(H, st, post, a, slots) == if ok then Some(trie.Model) else None
    ensures ok ==> trie.Valid(H) && fresh(trie.Repr - old(trie.Repr)) && root == HashOf(H, trie.Model)
  {
    hide StartOf, TryRun, Batch, HashOf, RefOf, SlotUpdates;
    root := ZERO;
    StartTrie(H, trie, stateTrie, post, a, st);
    ok := WriteSlots(H, trie, StorageOf(post, a).storage, slots(a));
    if ok {
      root := trie.Hash(H);
    }
  }
}
