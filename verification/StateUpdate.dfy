/** Applying a block's state diff to the state trie and the storage tries.

    Hashed addresses and hashed slots are 32 bytes; they appear here as the 64 nibbles the trie works
    with. The iteration order of a hash map is a parameter. */
module StateUpdate {
  import opened Bytes
  import opened Rlp
  import opened Mpt
  import opened TrieMap
  import opened TrieRuns
  import opened TrieHash

  const ZERO: Bytes32 :=
    [0, 0, 0, 0, 0, 0, 0, 0, 0, 0, 0, 0, 0, 0, 0, 0, 0, 0, 0, 0, 0, 0, 0, 0, 0, 0, 0, 0, 0, 0, 0, 0]

  type HashedKey = k: Key | |k| == 64 witness seq(64, _ => 0)

  const U64_END: nat := 0x1_0000_0000_0000_0000
  const U256_END: nat := 0x1_0000_0000_0000_0000_0000_0000_0000_0000_0000_0000_0000_0000_0000_0000_0000_0000
  type u64 = x: int | 0 <= x < U64_END
  type u256 = x: int | 0 <= x < U256_END

  datatype Account = Account(nonce: u64, balance: u256, codeHash: Bytes32)
  datatype TrieAccount = TrieAccount(nonce: u64, balance: u256, storageRoot: Bytes32, codeHash: Bytes32)
  datatype HashedStorage = HashedStorage(wiped: bool, storage: map<HashedKey, u256>)
  datatype HashedPostState = HashedPostState(
    accounts: map<HashedKey, Option<Account>>,
    storages: map<HashedKey, HashedStorage>)

  // ----- Account values -----

  function EncodeAccount(a: TrieAccount): seq<byte>
  {
    EncodeList(EncodeString(BigEndian(a.nonce)) + (EncodeString(BigEndian(a.balance)) +
               (EncodeString(a.storageRoot) + EncodeString(a.codeHash))))
  }

  function DecodeUint(item: seq<byte>, width: nat): Option<nat>
  {
    match StringOf(item)
    case None => None
    case Some(s) => if |s| > width || (s != [] && s[0] == 0) then None else Some(FromBigEndian(s))
  }

  function DecodeHash(item: seq<byte>): Option<Bytes32>
  {
    match StringOf(item)
    case None => None
    case Some(s) => if |s| == 32 then Some(s) else None
  }

  function DecodeFields(items: seq<seq<byte>>): Option<TrieAccount>
  {
    if |items| != 4 then None else
      var nonce, balance := DecodeUint(items[0], 8), DecodeUint(items[1], 32);
      var root, code := DecodeHash(items[2]), DecodeHash(items[3]);
      if nonce.None? || balance.None? || root.None? || code.None? then None
      else if nonce.value >= U64_END || balance.value >= U256_END then None
      else Some(TrieAccount(nonce.value, balance.value, root.value, code.value))
  }

  function DecodeAccount(b: seq<byte>): Option<TrieAccount>
  {
    match ParseHeader(b)
    case None => None
    case Some(h) =>
      if !h.list then None else
        match Items(b[h.prefix..h.prefix + h.payload])
        case None => None
        case Some(items) => DecodeFields(items)
  }

  lemma Pow256Word()
    ensures Pow256(32) == U256_END
  {
    Pow256Add(8, 8);
    Pow256Add(16, 16);
    Pow256Values();
  }

  lemma {:induction false} Pow256Add(a: nat, b: nat)
    ensures Pow256(a + b) == Pow256(a) * Pow256(b)
  {
    if a > 0 { Pow256Add(a - 1, b); }
  }

  lemma UintRoundTrip(n: nat, width: nat)
    requires n < Pow256(width) && width <= 32
    ensures DecodeUint(EncodeString(BigEndian(n)), width) == Some(n)
  {
    hide EncodeString, StringOf;
    BigEndianSize(n, width);
    BigEndianRoundTrip(n);
    StringOfEncode(BigEndian(n));
  }

  /** A stored account is read back as it was written. */
  lemma AccountRoundTrip(a: TrieAccount)
    ensures DecodeAccount(EncodeAccount(a)) == Some(a)
  {
    hide EncodeString, StringOf, Items, HeaderBytes, ParseHeader, BigEndian, FromBigEndian;
    Pow256Word();
    Pow256Values();
    BigEndianSize(a.nonce, 8);
    BigEndianSize(a.balance, 32);
    UintRoundTrip(a.nonce, 8);
    UintRoundTrip(a.balance, 32);
    StringOfEncode(a.storageRoot);
    StringOfEncode(a.codeHash);
    var x, y, z, w := EncodeString(BigEndian(a.nonce)), EncodeString(BigEndian(a.balance)),
                      EncodeString(a.storageRoot), EncodeString(a.codeHash);
    ItemsFour(BigEndian(a.nonce), BigEndian(a.balance), a.storageRoot, a.codeHash);
    var payload := x + (y + (z + w));
    ParseList(payload, []);
    var e := EncodeList(payload);
    assert e + [] == e;
    assert e[|e| - |payload|..|e|] == payload;
  }

  lemma StringSize(s: seq<byte>)
    requires |s| <= 32
    ensures |EncodeString(s)| <= 33
  {
  }

  lemma ItemsFour(a: seq<byte>, b: seq<byte>, c: seq<byte>, d: seq<byte>)
    requires |a| <= 32 && |b| <= 32 && |c| <= 32 && |d| <= 32
    ensures var x, y, z, w := EncodeString(a), EncodeString(b), EncodeString(c), EncodeString(d);
            && Items(x + (y + (z + w))) == Some([x, y, z, w])
            && |x + (y + (z + w))| < WORD
  {
    hide Items, EncodeString, ParseHeader;
    var x, y, z, w := EncodeString(a), EncodeString(b), EncodeString(c), EncodeString(d);
    StringSize(a);
    StringSize(b);
    StringSize(c);
    StringSize(d);
    ParseString(a, []);
    ParseString(b, []);
    ParseString(c, []);
    ParseString(d, []);
    ItemsTwo(z, w);
    ItemsCons(y, z + w);
    ItemsCons(x, y + (z + w));
    assert [x] + ([y] + [z, w]) == [x, y, z, w];
  }

  // ----- The steps of the update -----

  datatype State = State(stateTrie: Node, storageTries: map<HashedKey, Node>)

  function StorageOf(post: HashedPostState, a: HashedKey): HashedStorage
  {
    if a in post.storages then post.storages[a] else HashedStorage(false, map[])
  }

  function TrieOf(st: State, a: HashedKey): Node
  {
    if a in st.storageTries then st.storageTries[a] else Null
  }

  /** The storage trie to start from: the supplied one, or, if that is empty, a digest of the root
      the state trie records. */
  function Recover(H: Hasher, st: State, a: HashedKey): Node
  {
    var t := TrieOf(st, a);
    if t.Null? && GetNibs(st.stateTrie, a).Ok? && GetNibs(st.stateTrie, a).value.Some? then
      match DecodeAccount(GetNibs(st.stateTrie, a).value.value)
      case Some(existing) =>
        if existing.storageRoot != HashOf(H, Null) && existing.storageRoot != ZERO
        then Digest(existing.storageRoot) else t
      case None => t
    else t
  }

  function SlotUpdates(slots: map<HashedKey, u256>): Updates
  {
    map k: Key | k in slots :: if slots[k] == 0 then None else Some(EncodeString(BigEndian(slots[k])))
  }

  /** The storage trie before the slots are written. */
  function StartOf(H: Hasher, st: State, post: HashedPostState, a: HashedKey): Node
  {
    if StorageOf(post, a).wiped then Null else Recover(H, st, a)
  }

  /** The operations, or `None` when one of them fails and is unwrapped. */
  function TryRun(n: Node, ops: seq<Op>): Option<Node>
    decreases |ops|
  {
    if ops == [] then Some(n)
    else if Apply(n, ops[0]).1.Ok? then TryRun(Apply(n, ops[0]).0, ops[1..])
    else None
  }

  /** For each account, the order in which its slots are visited. */
  type SlotOrder = HashedKey -> seq<HashedKey>

  ghost predicate Listed(post: HashedPostState, slots: SlotOrder, a: HashedKey)
  {
    Lists(slots(a), SlotUpdates(StorageOf(post, a).storage).Keys)
  }

  ghost predicate AllListed(post: HashedPostState, slots: SlotOrder)
  {
    forall a: HashedKey :: Listed(post, slots, a)
  }

  function AccountOf(account: Account, root: Bytes32): TrieAccount
  {
    TrieAccount(account.nonce, account.balance, root, account.codeHash)
  }

  function StorageStep(H: Hasher, st: State, post: HashedPostState, a: HashedKey, slots: SlotOrder): Option<Node>
    requires Listed(post, slots, a)
  {
    TryRun(StartOf(H, st, post, a), Batch(SlotUpdates(StorageOf(post, a).storage), slots(a)))
  }

  /** One account; `None` is a panic. */
  function AccountStep(H: Hasher, st: State, post: HashedPostState, a: HashedKey, slots: SlotOrder): Option<State>
    requires a in post.accounts
    requires Listed(post, slots, a)
  {
    match post.accounts[a]
    case None =>
      var (n, r) := DeleteNibs(st.stateTrie, a);
      if r.Ok? then Some(State(n, st.storageTries)) else None
    case Some(account) =>
      match StorageStep(H, st, post, a, slots)
      case None => None
      case Some(t) =>
        var (n, r) := InsertNibs(st.stateTrie, a, EncodeAccount(AccountOf(account, HashOf(H, t))));
        if r.Ok? then Some(State(n, st.storageTries[a := t])) else None
  }

  ghost function UpdateRun(H: Hasher, st: State, post: HashedPostState, order: seq<HashedKey>, slots: SlotOrder)
    : Option<State>
    requires forall a :: a in order ==> a in post.accounts
    requires AllListed(post, slots)
    decreases |order|
  {
    if order == [] then Some(st) else
      match AccountStep(H, st, post, order[0], slots)
      case None => None
      case Some(st') => UpdateRun(H, st', post, order[1..], slots)
  }

  // ----- What the update computes -----

  /** The tries are canonical, digest-free and hold the given maps of 64-nibble keys. */
  ghost predicate Good(st: State, m: map<Key, Value>, ms: map<Key, map<Key, Value>>)
  {
    && Holding(st.stateTrie, m)
    && st.storageTries.Keys == ms.Keys
    && forall a :: a in ms ==> Holding(st.storageTries[a], ms[a])
  }

  ghost predicate Holding(n: Node, m: map<Key, Value>)
  {
    Canon(n) && Full(n) && Represents(n, m) && forall k :: k in m ==> |k| == 64
  }

  /** The account has slot changes, no wipe, and a recorded storage root but no storage trie. */
  ghost predicate Stuck(H: Hasher, st: State, post: HashedPostState, a: HashedKey)
  {
    && a in post.accounts && post.accounts[a].Some?
    && StartOf(H, st, post, a).Digest? && StorageOf(post, a).storage != map[]
  }

  /** The storage trie of the account after the update. */
  ghost function FinalStorage(H: Hasher, st: State, post: HashedPostState, a: HashedKey, slots: SlotOrder): Node
    requires Listed(post, slots, a)
  {
    Run(StartOf(H, st, post, a), Batch(SlotUpdates(StorageOf(post, a).storage), slots(a)))
  }

  /** What the update writes into the state trie, by account. */
  ghost function StateUpdates(H: Hasher, st: State, post: HashedPostState, slots: SlotOrder): Updates
    requires AllListed(post, slots)
  {
    map a: Key | a in post.accounts ::
      match post.accounts[a]
      case None => None
      case Some(account) => Some(EncodeAccount(AccountOf(account, HashOf(H, FinalStorage(H, st, post, a, slots)))))
  }

  /** The storage tries of all accounts that are kept. */
  ghost function Finals(H: Hasher, st: State, post: HashedPostState, slots: SlotOrder): map<HashedKey, Node>
    requires AllListed(post, slots)
  {
    map a: HashedKey | a in post.accounts && post.accounts[a].Some? :: FinalStorage(H, st, post, a, slots)
  }

  ghost function Overwrite(base: map<HashedKey, Node>, finals: map<HashedKey, Node>, done: set<Key>)
    : map<HashedKey, Node>
  {
    base + (map a: HashedKey | a in finals && a in done :: finals[a])
  }

  lemma OverwriteStep(base: map<HashedKey, Node>, finals: map<HashedKey, Node>, done: set<Key>, a: HashedKey)
    ensures Overwrite(base, finals, done + {a})
         == if a in finals then Overwrite(base, finals, done)[a := finals[a]] else Overwrite(base, finals, done)
  {
  }

  lemma {:induction false} TryRunIsRun(n: Node, ops: seq<Op>)
    ensures (forall r :: r in Answers(n, ops) ==> r.Ok?) ==> TryRun(n, ops) == Some(Run(n, ops))
    decreases |ops|
  {
    hide Apply;
    if ops != [] {
      var (n', r) := Apply(n, ops[0]);
      TryRunIsRun(n', ops[1..]);
      assert Answers(n, ops)[0] == r;
      assert forall x :: x in Answers(n', ops[1..]) ==> x in Answers(n, ops);
    }
  }

  /** The slots of an account are written in full, unless the account is stuck. */
  lemma StorageStepMeaning(H: Hasher, st: State, m: map<Key, Value>, ms: map<Key, map<Key, Value>>,
                           post: HashedPostState, a: HashedKey, slots: SlotOrder)
    requires Good(st, m, ms) && Listed(post, slots, a)
    requires a in post.accounts && post.accounts[a].Some?
    ensures StorageStep(H, st, post, a, slots)
         == if Stuck(H, st, post, a) then None else Some(FinalStorage(H, st, post, a, slots))
  {
    hide Canon, Full, Represents, GetNibs, DecodeAccount, HashOf, EncodeString;
    var u := SlotUpdates(StorageOf(post, a).storage);
    var start := StartOf(H, st, post, a);
    var ops := Batch(u, slots(a));
    if start.Digest? {
      if StorageOf(post, a).storage == map[] {
        assert forall k :: k in slots(a) ==> k in u.Keys;
      } else {
        var k :| k in StorageOf(post, a).storage;
        assert k in u.Keys && k in slots(a);
        DigestRefuses(start, ops[0]);
      }
    } else {
      StartHolding(H, st, m, ms, post, a);
      var m0 :| Holding(start, m0);
      BatchMeaning(start, m0, u, slots(a), 64);
      TryRunIsRun(start, ops);
    }
  }

  lemma DigestRefuses(n: Node, op: Op)
    requires n.Digest?
    ensures Apply(n, op).1.Err?
  {
  }

  lemma StartHolding(H: Hasher, st: State, m: map<Key, Value>, ms: map<Key, map<Key, Value>>,
                     post: HashedPostState, a: HashedKey)
    requires Good(st, m, ms) && !StartOf(H, st, post, a).Digest?
    ensures exists m0 :: Holding(StartOf(H, st, post, a), m0)
  {
    hide GetNibs, DecodeAccount, HashOf, Canon, Full, Represents;
    NullHolds();
    if StartOf(H, st, post, a).Null? {
      assert Holding(StartOf(H, st, post, a), map[]);
    } else {
      assert Holding(st.storageTries[a], ms[a]);
    }
  }

  lemma NullHolds()
    ensures Holding(Null, map[])
  {
  }

  /** An account not yet processed is seen as it was at the start. */
  lemma RecoverUnchanged(H: Hasher, st: State, st': State, m: map<Key, Value>, m': map<Key, Value>, a: HashedKey)
    requires Represents(st.stateTrie, m) && Represents(st'.stateTrie, m')
    requires (a in m <==> a in m') && (a in m ==> m[a] == m'[a])
    requires (a in st.storageTries <==> a in st'.storageTries)
    requires a in st.storageTries ==> st.storageTries[a] == st'.storageTries[a]
    ensures Recover(H, st, a) == Recover(H, st', a)
  {
    hide GetNibs, DecodeAccount, HashOf;
    assert GetNibs(st.stateTrie, a) == GetNibs(st'.stateTrie, a);
  }

  /** The state once the accounts in `done` have been processed. */
  ghost function Closed(H: Hasher, st: State, post: HashedPostState, done: seq<HashedKey>, slots: SlotOrder): State
    requires forall a :: a in done ==> a in post.accounts
    requires AllListed(post, slots)
  {
    State(Run(st.stateTrie, Batch(StateUpdates(H, st, post, slots), done)),
          Overwrite(st.storageTries, Finals(H, st, post, slots), Elements(done)))
  }

  /** The state trie after the accounts in `done`: its map, and the answer to the next operation. */
  lemma StateTrieStep(H: Hasher, st: State, m: map<Key, Value>, ms: map<Key, map<Key, Value>>,
                      post: HashedPostState, done: seq<HashedKey>, a: HashedKey, slots: SlotOrder)
    requires Good(st, m, ms) && a !in done && a in post.accounts && AllListed(post, slots)
    requires forall x :: x in done ==> x in post.accounts
    ensures var u := StateUpdates(H, st, post, slots);
            && Apply(Closed(H, st, post, done, slots).stateTrie, OpFor(u, a)).1.Ok?
            && Apply(Closed(H, st, post, done, slots).stateTrie, OpFor(u, a)).0
               == Closed(H, st, post, done + [a], slots).stateTrie
            && Represents(Closed(H, st, post, done, slots).stateTrie, Overlay(m, Only(u, Elements(done))))
  {
    hide Canon, Full, Represents, Apply, OpFor, Overwrite, Run, Overlay, Only;
    var u := StateUpdates(H, st, post, slots);
    assert u.Keys == post.accounts.Keys;
    BatchMeaning(st.stateTrie, m, u, done, 64);
    BatchStep(st.stateTrie, m, u, done, a, 64);
  }

  lemma StorageStepSame(H: Hasher, st: State, m: map<Key, Value>, ms: map<Key, map<Key, Value>>,
                        post: HashedPostState, done: seq<HashedKey>, a: HashedKey, slots: SlotOrder)
    requires Good(st, m, ms) && a !in done && a in post.accounts && AllListed(post, slots)
    requires forall x :: x in done ==> x in post.accounts
    ensures Listed(post, slots, a)
    ensures StorageStep(H, Closed(H, st, post, done, slots), post, a, slots) == StorageStep(H, st, post, a, slots)
  {
    hide Canon, Full, Represents, Recover, Run, TryRun;
    var now := Closed(H, st, post, done, slots);
    var u := StateUpdates(H, st, post, slots);
    StateTrieStep(H, st, m, ms, post, done, a, slots);
    RecoverUnchanged(H, st, now, m, Overlay(m, Only(u, Elements(done))), a);
    assert Listed(post, slots, a);
  }

  lemma StorageTriesStep(H: Hasher, st: State, post: HashedPostState, done: seq<HashedKey>, a: HashedKey,
                         slots: SlotOrder)
    requires a !in done && a in post.accounts && AllListed(post, slots)
    requires forall x :: x in done ==> x in post.accounts
    ensures var now, next := Closed(H, st, post, done, slots), Closed(H, st, post, done + [a], slots);
            next.storageTries == if post.accounts[a].Some?
                                 then now.storageTries[a := FinalStorage(H, st, post, a, slots)]
                                 else now.storageTries
  {
    hide FinalStorage, Run, Overwrite, StateUpdates;
    assert Elements(done + [a]) == Elements(done) + {a};
    OverwriteStep(st.storageTries, Finals(H, st, post, slots), Elements(done), a);
  }

  lemma AccountStepMeaning(H: Hasher, st: State, m: map<Key, Value>, ms: map<Key, map<Key, Value>>,
                           post: HashedPostState, done: seq<HashedKey>, a: HashedKey, slots: SlotOrder)
    requires Good(st, m, ms) && a !in done && a in post.accounts && AllListed(post, slots)
    requires forall x :: x in done ==> x in post.accounts
    ensures Listed(post, slots, a)
    ensures AccountStep(H, Closed(H, st, post, done, slots), post, a, slots)
         == if Stuck(H, st, post, a) then None else Some(Closed(H, st, post, done + [a], slots))
  {
    hide Good, HashOf, Closed, StorageStep, FinalStorage, DeleteNibs, InsertNibs, EncodeAccount, AllListed, StartOf;
    StateTrieStep(H, st, m, ms, post, done, a, slots);
    StorageStepSame(H, st, m, ms, post, done, a, slots);
    StorageTriesStep(H, st, post, done, a, slots);
    if post.accounts[a].Some? { StorageStepMeaning(H, st, m, ms, post, a, slots); }
  }

  /** The whole update panics exactly when some account is stuck; otherwise it ends in one state that
      the accounts and their slots determine. */
  lemma {:induction false} UpdateFrom(H: Hasher, st: State, m: map<Key, Value>, ms: map<Key, map<Key, Value>>,
                                      post: HashedPostState, done: seq<HashedKey>, rest: seq<HashedKey>,
                                      slots: SlotOrder)
    requires Good(st, m, ms) && Distinct(done + rest)
    requires forall x :: x in done + rest ==> x in post.accounts
    requires AllListed(post, slots)
    ensures UpdateRun(H, Closed(H, st, post, done, slots), post, rest, slots)
         == if exists a :: a in rest && Stuck(H, st, post, a) then None
            else Some(Closed(H, st, post, done + rest, slots))
    decreases |rest|
  {
    hide AccountStep, Closed, Good, Stuck;
    if rest == [] {
      assert done + rest == done;
    } else {
      var a := rest[0];
      assert (done + rest)[|done|] == a;
      assert forall i :: 0 <= i < |done| ==> (done + rest)[i] == done[i];
      AccountStepMeaning(H, st, m, ms, post, done, a, slots);
      assert done + [a] + rest[1..] == done + rest;
      UpdateFrom(H, st, m, ms, post, done + [a], rest[1..], slots);
      assert rest == [a] + rest[1..];
    }
  }

  lemma ClosedStart(H: Hasher, st: State, post: HashedPostState, slots: SlotOrder)
    requires AllListed(post, slots)
    ensures Closed(H, st, post, [], slots) == st
  {
    hide StateUpdates, Finals;
    assert Batch(StateUpdates(H, st, post, slots), []) == [];
    assert Overwrite(st.storageTries, Finals(H, st, post, slots), {}) == st.storageTries;
    assert Elements([]) == {};
  }

  // ----- The state rebuilt from the updated maps -----

  /** The slots an account has before its changes are written. */
  function OldSlots(ms: map<Key, map<Key, Value>>, post: HashedPostState, a: HashedKey): map<Key, Value>
  {
    if StorageOf(post, a).wiped || a !in ms then map[] else ms[a]
  }

  /** The storage root on record for an account, if it stands for some storage. */
  function RecordedRoot(H: Hasher, m: map<Key, Value>, a: HashedKey): Option<Bytes32>
  {
    if a !in m || DecodeAccount(m[a]).None? then None else
      var root := DecodeAccount(m[a]).value.storageRoot;
      if root == HashOf(H, Null) || root == ZERO then None else Some(root)
  }

  /** Of this account's storage nothing but the root is at hand. */
  predicate OnlyRoot(H: Hasher, m: map<Key, Value>, ms: map<Key, map<Key, Value>>, post: HashedPostState, a: HashedKey)
  {
    !StorageOf(post, a).wiped && (a !in ms || ms[a] == map[]) && RecordedRoot(H, m, a).Some?
  }

  predicate Kept(post: HashedPostState, a: HashedKey)
  {
    a in post.accounts && post.accounts[a].Some?
  }

  predicate SameAt(x: map<HashedKey, Node>, y: map<HashedKey, Node>, a: HashedKey)
  {
    (a in x <==> a in y) && (a in x ==> x[a] == y[a])
  }

  /** For each account that is kept, a trie built by any means from its slots overlaid with the new ones. */
  ghost predicate Rebuilds(tries: map<HashedKey, Node>, ms: map<Key, map<Key, Value>>, post: HashedPostState)
  {
    forall a: HashedKey :: Kept(post, a) ==>
      && a in tries && Canon(tries[a]) && Full(tries[a])
      && Represents(tries[a], Overlay(OldSlots(ms, post, a), SlotUpdates(StorageOf(post, a).storage)))
  }

  /** The rebuilt storage trie, or a digest of the recorded root where only that is at hand. */
  function RebuiltStorage(H: Hasher, m: map<Key, Value>, ms: map<Key, map<Key, Value>>, post: HashedPostState,
                          tries: map<HashedKey, Node>, a: HashedKey): Node
    requires a in tries
  {
    if OnlyRoot(H, m, ms, post, a) then Digest(RecordedRoot(H, m, a).value) else tries[a]
  }

  function RebuiltRoot(H: Hasher, m: map<Key, Value>, ms: map<Key, map<Key, Value>>, post: HashedPostState,
                       tries: map<HashedKey, Node>, a: HashedKey): Bytes32
    requires a in tries
  {
    if OnlyRoot(H, m, ms, post, a) then RecordedRoot(H, m, a).value else HashOf(H, tries[a])
  }

  /** The account values that go with those tries. */
  ghost function RebuiltAccounts(H: Hasher, m: map<Key, Value>, ms: map<Key, map<Key, Value>>, post: HashedPostState,
                                 tries: map<HashedKey, Node>): Updates
    requires Rebuilds(tries, ms, post)
  {
    map a: Key | a in post.accounts ::
      match post.accounts[a]
      case None => None
      case Some(account) =>
        assert Kept(post, a);
        Some(EncodeAccount(AccountOf(account, RebuiltRoot(H, m, ms, post, tries, a))))
  }

  lemma EntryNotNull(n: Node, m: map<Key, Value>, k: Key)
    requires Represents(n, m) && k in m
    ensures !n.Null?
  {
  }

  lemma EmptyTrie(n: Node, m: map<Key, Value>)
    requires Holding(n, m)
    ensures n.Null? <==> m == map[]
  {
    if m != map[] {
      var k :| k in m;
      EntryNotNull(n, m, k);
    }
    if !n.Null? {
      NonEmpty(n);
      var k: Key :| Holds(n, k);
      assert k in m;
    }
  }

  /** Where the update starts, in terms of the maps. */
  lemma StartIs(H: Hasher, st: State, m: map<Key, Value>, ms: map<Key, map<Key, Value>>,
                post: HashedPostState, a: HashedKey)
    requires Good(st, m, ms)
    ensures OnlyRoot(H, m, ms, post, a) ==> StartOf(H, st, post, a) == Digest(RecordedRoot(H, m, a).value)
    ensures !OnlyRoot(H, m, ms, post, a) ==> Holding(StartOf(H, st, post, a), OldSlots(ms, post, a))
  {
    hide DecodeAccount, HashOf, Canon, Full, GetNibs;
    NullHolds();
    if a in ms {
      assert Holding(st.storageTries[a], ms[a]);
      EmptyTrie(st.storageTries[a], ms[a]);
    }
    assert GetNibs(st.stateTrie, a) == Ok(if a in m then Some(m[a]) else None);
  }

  lemma FinalOfDigest(H: Hasher, st: State, post: HashedPostState, a: HashedKey, slots: SlotOrder)
    requires StartOf(H, st, post, a).Digest? && StorageOf(post, a).storage == map[] && Listed(post, slots, a)
    ensures FinalStorage(H, st, post, a, slots) == StartOf(H, st, post, a)
  {
    hide StartOf;
    assert SlotUpdates(StorageOf(post, a).storage).Keys == {};
    if slots(a) != [] { HasElement(slots(a)); }
  }

  /** The storage trie the run ends with is the rebuilt one. */
  lemma FinalIsRebuilt(H: Hasher, st: State, m: map<Key, Value>, ms: map<Key, map<Key, Value>>,
                       post: HashedPostState, a: HashedKey, slots: SlotOrder, tries: map<HashedKey, Node>)
    requires Good(st, m, ms) && Rebuilds(tries, ms, post) && Kept(post, a) && Listed(post, slots, a)
    requires !Stuck(H, st, post, a)
    ensures a in tries
    ensures FinalStorage(H, st, post, a, slots) == RebuiltStorage(H, m, ms, post, tries, a)
    ensures HashOf(H, FinalStorage(H, st, post, a, slots)) == RebuiltRoot(H, m, ms, post, tries, a)
  {
    assert a in tries;
    hide Canon, Full, Represents, Overlay, StartOf, RecordedRoot, OldSlots, Good, FinalStorage, Stuck, HashOf;
    hide Rebuilds, Listed, Kept;
    StartIs(H, st, m, ms, post, a);
    StuckIs(H, st, m, ms, post, a);
    if OnlyRoot(H, m, ms, post, a) {
      FinalOfDigest(H, st, post, a, slots);
      HashOfDigest(H, RecordedRoot(H, m, a).value);
    } else {
      FinalIsTrie(H, st, ms, post, a, slots, tries);
    }
  }

  lemma HashOfDigest(H: Hasher, d: Bytes32)
    ensures HashOf(H, Digest(d)) == d
  {
  }

  lemma FinalIsTrie(H: Hasher, st: State, ms: map<Key, map<Key, Value>>, post: HashedPostState, a: HashedKey,
                    slots: SlotOrder, tries: map<HashedKey, Node>)
    requires Rebuilds(tries, ms, post) && Kept(post, a) && Listed(post, slots, a)
    requires Holding(StartOf(H, st, post, a), OldSlots(ms, post, a))
    ensures FinalStorage(H, st, post, a, slots) == tries[a]
  {
    hide Canon, Full, Represents, Overlay, StartOf, OldSlots, FinalStorage, Listed, Kept, SlotUpdates, Holding;
    FinalStorageMeaning(H, st, post, a, slots, OldSlots(ms, post, a));
    RepresentsUnique(FinalStorage(H, st, post, a, slots), tries[a],
                     Overlay(OldSlots(ms, post, a), SlotUpdates(StorageOf(post, a).storage)));
  }

  lemma StuckIs(H: Hasher, st: State, m: map<Key, Value>, ms: map<Key, map<Key, Value>>,
                post: HashedPostState, a: HashedKey)
    requires Good(st, m, ms)
    ensures Stuck(H, st, post, a)
       <==> Kept(post, a) && OnlyRoot(H, m, ms, post, a) && StorageOf(post, a).storage != map[]
  {
    StartIs(H, st, m, ms, post, a);
    hide OnlyRoot, StartOf, RecordedRoot, Good;
    if !OnlyRoot(H, m, ms, post, a) { assert Full(StartOf(H, st, post, a)); }
  }

  /** The update panics exactly when some account that is kept has slot changes and only a root at hand.
      Otherwise the state trie is the one rebuilt, by any means, from the old accounts overlaid with the new
      ones, whose storage roots are those of storage tries rebuilt from the overlaid slots, or the recorded
      roots where only these are at hand; and the storage tries are these, or digests of these roots. */
  lemma UpdateMeaning(H: Hasher, st: State, m: map<Key, Value>, ms: map<Key, map<Key, Value>>,
                      post: HashedPostState, order: seq<HashedKey>, slots: SlotOrder,
                      tries: map<HashedKey, Node>, rebuilt: Node)
    requires Good(st, m, ms) && Lists(order, post.accounts.Keys) && AllListed(post, slots)
    requires Rebuilds(tries, ms, post) && Canon(rebuilt) && Full(rebuilt)
    requires Represents(rebuilt, Overlay(m, RebuiltAccounts(H, m, ms, post, tries)))
    ensures UpdateRun(H, st, post, order, slots).None?
       <==> exists a :: Kept(post, a) && OnlyRoot(H, m, ms, post, a) && StorageOf(post, a).storage != map[]
    ensures UpdateRun(H, st, post, order, slots).Some? ==>
      var st' := UpdateRun(H, st, post, order, slots).value;
      && st'.stateTrie == rebuilt
      && (forall a :: Kept(post, a) ==>
            a in st'.storageTries && st'.storageTries[a] == RebuiltStorage(H, m, ms, post, tries, a))
      && (forall a :: !Kept(post, a) ==> SameAt(st'.storageTries, st.storageTries, a))
  {
    hide Stuck, UpdateRun, Canon, Full, Represents, Overlay, Closed, Good, StateUpdates, OnlyRoot;
    assert [] + order == order;
    UpdateFrom(H, st, m, ms, post, [], order, slots);
    ClosedStart(H, st, post, slots);
    assert forall a: HashedKey :: a in order <==> a in post.accounts;
    forall a: HashedKey ensures Stuck(H, st, post, a)
      <==> Kept(post, a) && OnlyRoot(H, m, ms, post, a) && StorageOf(post, a).storage != map[]
    {
      StuckIs(H, st, m, ms, post, a);
    }
    if !exists a :: a in order && Stuck(H, st, post, a) {
      forall a: HashedKey | Kept(post, a) ensures !Stuck(H, st, post, a) { assert a in order; }
      SameUpdates(H, st, m, ms, post, slots, tries);
      ClosedRebuilt(H, st, m, ms, post, order, slots, rebuilt);
      ClosedStorage(H, st, m, ms, post, order, slots, tries);
    }
  }

  lemma SameUpdates(H: Hasher, st: State, m: map<Key, Value>, ms: map<Key, map<Key, Value>>,
                    post: HashedPostState, slots: SlotOrder, tries: map<HashedKey, Node>)
    requires Good(st, m, ms) && AllListed(post, slots) && Rebuilds(tries, ms, post)
    requires forall a :: Kept(post, a) ==> !Stuck(H, st, post, a)
    ensures StateUpdates(H, st, post, slots) == RebuiltAccounts(H, m, ms, post, tries)
  {
    hide Stuck, Good, Canon, Full, Represents, Overlay, FinalStorage, RebuiltRoot, HashOf, EncodeAccount;
    forall a: HashedKey | Kept(post, a)
      ensures Listed(post, slots, a) && a in tries
      ensures HashOf(H, FinalStorage(H, st, post, a, slots)) == RebuiltRoot(H, m, ms, post, tries, a)
    {
      assert Listed(post, slots, a);
      FinalIsRebuilt(H, st, m, ms, post, a, slots, tries);
    }
    assert forall a: HashedKey :: a in post.accounts && post.accounts[a].Some? ==> Kept(post, a);
  }

  lemma ClosedStorage(H: Hasher, st: State, m: map<Key, Value>, ms: map<Key, map<Key, Value>>,
                      post: HashedPostState, order: seq<HashedKey>, slots: SlotOrder, tries: map<HashedKey, Node>)
    requires Good(st, m, ms) && Lists(order, post.accounts.Keys) && AllListed(post, slots) && Rebuilds(tries, ms, post)
    requires forall a :: Kept(post, a) ==> !Stuck(H, st, post, a)
    ensures var after := Closed(H, st, post, order, slots).storageTries;
            && (forall a :: Kept(post, a) ==>
                  a in after && a in tries && after[a] == RebuiltStorage(H, m, ms, post, tries, a))
            && (forall a :: !Kept(post, a) ==> SameAt(after, st.storageTries, a))
  {
    hide Stuck, Good, FinalStorage, Run, StateUpdates, OnlyRoot, HashOf, Batch, Overwrite, Rebuilds, Kept, Listed;
    hide Finals;
    var base, finals, done := st.storageTries, Finals(H, st, post, slots), Elements(order);
    forall a: HashedKey | Kept(post, a)
      ensures a in Overwrite(base, finals, done) && a in tries
      ensures Overwrite(base, finals, done)[a] == RebuiltStorage(H, m, ms, post, tries, a)
    {
      assert Listed(post, slots, a);
      FinalIsRebuilt(H, st, m, ms, post, a, slots, tries);
      FinalsAt(H, st, post, slots, a);
      OverwriteAt(base, finals, done, a);
    }
    forall a: HashedKey | !Kept(post, a) ensures SameAt(Overwrite(base, finals, done), base, a) {
      FinalsAt(H, st, post, slots, a);
      OverwriteAt(base, finals, done, a);
    }
  }

  lemma FinalsAt(H: Hasher, st: State, post: HashedPostState, slots: SlotOrder, a: HashedKey)
    requires AllListed(post, slots)
    ensures a in Finals(H, st, post, slots) <==> Kept(post, a)
    ensures Kept(post, a) ==> a in post.accounts
    ensures Kept(post, a) ==>
      Listed(post, slots, a) && Finals(H, st, post, slots)[a] == FinalStorage(H, st, post, a, slots)
  {
    hide FinalStorage;
  }

  lemma OverwriteAt(base: map<HashedKey, Node>, finals: map<HashedKey, Node>, done: set<Key>, a: HashedKey)
    ensures a in finals && a in done ==>
      a in Overwrite(base, finals, done) && Overwrite(base, finals, done)[a] == finals[a]
    ensures a !in finals || a !in done ==> SameAt(Overwrite(base, finals, done), base, a)
  {
  }

  lemma ClosedRebuilt(H: Hasher, st: State, m: map<Key, Value>, ms: map<Key, map<Key, Value>>,
                      post: HashedPostState, order: seq<HashedKey>, slots: SlotOrder, rebuilt: Node)
    requires Good(st, m, ms) && Lists(order, post.accounts.Keys) && AllListed(post, slots)
    requires Canon(rebuilt) && Full(rebuilt) && Represents(rebuilt, Overlay(m, StateUpdates(H, st, post, slots)))
    ensures Closed(H, st, post, order, slots).stateTrie == rebuilt
  {
    hide Canon, Full, Represents, Overlay, Overwrite, Finals, Run, FinalStorage, Batch;
    var u := StateUpdates(H, st, post, slots);
    assert u.Keys == post.accounts.Keys;
    BatchAll(st.stateTrie, m, u, order, 64);
    RepresentsUnique(Run(st.stateTrie, Batch(u, order)), rebuilt, Overlay(m, u));
  }

  /** The storage trie of an account is the canonical trie of its slots overlaid with the new ones. */
  lemma FinalStorageMeaning(H: Hasher, st: State, post: HashedPostState, a: HashedKey, slots: SlotOrder,
                            m: map<Key, Value>)
    requires Holding(StartOf(H, st, post, a), m) && Listed(post, slots, a)
    ensures var t := FinalStorage(H, st, post, a, slots);
            Canon(t) && Full(t) && Represents(t, Overlay(m, SlotUpdates(StorageOf(post, a).storage)))
  {
    hide Canon, Full, Represents, Recover, EncodeString, Overlay, StartOf, Run, Batch;
    var u := SlotUpdates(StorageOf(post, a).storage);
    BatchAll(StartOf(H, st, post, a), m, u, slots(a), 64);
  }

  /** The order of the slots does not change a storage trie. */
  lemma FinalStorageOrder(H: Hasher, st: State, m: map<Key, Value>, ms: map<Key, map<Key, Value>>,
                          post: HashedPostState, a: HashedKey, slots: SlotOrder, slots': SlotOrder)
    requires Good(st, m, ms) && Listed(post, slots, a) && Listed(post, slots', a)
    requires !(StartOf(H, st, post, a).Digest? && StorageOf(post, a).storage != map[])
    ensures FinalStorage(H, st, post, a, slots) == FinalStorage(H, st, post, a, slots')
  {
    hide Canon, Full, Represents, Recover, EncodeString;
    var u, start := SlotUpdates(StorageOf(post, a).storage), StartOf(H, st, post, a);
    if start.Digest? {
      assert forall k :: k in slots(a) ==> k in u.Keys;
      assert forall k :: k in slots'(a) ==> k in u.Keys;
    } else {
      StartHolding(H, st, m, ms, post, a);
      var m0 :| Holding(start, m0);
      BatchOrder(start, m0, u, slots(a), slots'(a), 64);
    }
  }

  /** The result of the update, panic or state, is the same for every order of accounts and slots. */
  lemma UpdateOrder(H: Hasher, st: State, m: map<Key, Value>, ms: map<Key, map<Key, Value>>, post: HashedPostState,
                    order: seq<HashedKey>, slots: SlotOrder, order': seq<HashedKey>, slots': SlotOrder)
    requires Good(st, m, ms)
    requires Lists(order, post.accounts.Keys) && AllListed(post, slots)
    requires Lists(order', post.accounts.Keys) && AllListed(post, slots')
    ensures UpdateRun(H, st, post, order, slots) == UpdateRun(H, st, post, order', slots')
  {
    hide UpdateRun, Stuck, Closed, Good;
    assert [] + order == order && [] + order' == order';
    UpdateFrom(H, st, m, ms, post, [], order, slots);
    UpdateFrom(H, st, m, ms, post, [], order', slots');
    ClosedStart(H, st, post, slots);
    ClosedStart(H, st, post, slots');
    assert forall a: HashedKey :: a in order <==> a in order';
    if !exists a :: a in order && Stuck(H, st, post, a) {
      ClosedOrder(H, st, m, ms, post, order, slots, order', slots');
    }
  }

  lemma ClosedOrder(H: Hasher, st: State, m: map<Key, Value>, ms: map<Key, map<Key, Value>>, post: HashedPostState,
                    order: seq<HashedKey>, slots: SlotOrder, order': seq<HashedKey>, slots': SlotOrder)
    requires Good(st, m, ms)
    requires Lists(order, post.accounts.Keys) && AllListed(post, slots)
    requires Lists(order', post.accounts.Keys) && AllListed(post, slots')
    requires forall a :: a in order ==> !Stuck(H, st, post, a)
    ensures Closed(H, st, post, order, slots) == Closed(H, st, post, order', slots')
  {
    hide Canon, Full, Represents, StartOf, FinalStorage, Run, Overwrite, EncodeAccount, HashOf;
    forall a: HashedKey | a in post.accounts && post.accounts[a].Some?
      ensures Listed(post, slots, a) && Listed(post, slots', a)
      ensures FinalStorage(H, st, post, a, slots) == FinalStorage(H, st, post, a, slots')
    {
      assert a in order && !Stuck(H, st, post, a);
      assert Listed(post, slots, a) && Listed(post, slots', a);
      FinalStorageOrder(H, st, m, ms, post, a, slots, slots');
    }
    var u := StateUpdates(H, st, post, slots);
    assert u == StateUpdates(H, st, post, slots');
    assert Finals(H, st, post, slots) == Finals(H, st, post, slots');
    assert u.Keys == post.accounts.Keys;
    assert Elements(order) == Elements(order');
    BatchOrder(st.stateTrie, m, u, order, order', 64);
  }

  lemma HasElement(order: seq<HashedKey>)
    requires order != []
    ensures exists k :: k in order
  {
    assert order[0] in order;
  }

  /** An account without a storage trie and without slot changes keeps its recorded storage root; a
      recorded root of zero is replaced by the root of the empty trie. */
  lemma UntouchedStorageRoot(H: Hasher, st: State, m: map<Key, Value>, post: HashedPostState, a: HashedKey,
                             slots: SlotOrder, existing: TrieAccount)
    requires Represents(st.stateTrie, m) && a in m && m[a] == EncodeAccount(existing)
    requires a !in st.storageTries || st.storageTries[a].Null?
    requires StorageOf(post, a) == HashedStorage(false, map[]) && Listed(post, slots, a)
    ensures HashOf(H, FinalStorage(H, st, post, a, slots))
         == if existing.storageRoot == ZERO then HashOf(H, Null) else existing.storageRoot
  {
    hide DecodeAccount, EncodeAccount;
    AccountRoundTrip(existing);
    assert GetNibs(st.stateTrie, a) == Ok(Some(m[a]));
    assert SlotUpdates(StorageOf(post, a).storage).Keys == {};
    if slots(a) != [] { HasElement(slots(a)); }
  }
}
