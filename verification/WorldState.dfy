/** What a state update writes, said in the terms of the Yellow Paper and not of the update: which bytes are found
    under each account and each slot, and which root that makes. */
module WorldState {
  import opened Bytes
  import opened Rlp
  import opened Mpt
  import opened TrieMap
  import opened TrieRuns
  import opened TrieHash
  import opened StateUpdate
  import opened Stateless
  import opened TrieWitness
  import opened YellowPaper

  // ----- The bytes of an account and of a slot -----

  /** The account state of section 4.1 of the Yellow Paper. */
  function AccountRlp(nonce: u64, balance: u256, storageRoot: Bytes32, codeHash: Bytes32): seq<byte>
  {
    RlpList(RlpBytes(BE(nonce)) + RlpBytes(BE(balance)) + RlpBytes(storageRoot) + RlpBytes(codeHash))
  }

  function SlotRlp(v: u256): seq<byte>
  {
    RlpBytes(BE(v))
  }

  lemma AccountBytes(e: TrieAccount)
    ensures EncodeAccount(e) == AccountRlp(e.nonce, e.balance, e.storageRoot, e.codeHash)
    ensures DecodeAccount(AccountRlp(e.nonce, e.balance, e.storageRoot, e.codeHash)) == Some(e)
  {
    hide BE, BigEndian, RlpBytes, EncodeString, RlpList, EncodeList, DecodeAccount;
    AccountRoundTrip(e);
    BigEndianIs(e.nonce);
    BigEndianIs(e.balance);
    EncodeStringIs(BE(e.nonce));
    EncodeStringIs(BE(e.balance));
    EncodeStringIs(e.storageRoot);
    EncodeStringIs(e.codeHash);
    var x, y, z, w := RlpBytes(BE(e.nonce)), RlpBytes(BE(e.balance)), RlpBytes(e.storageRoot), RlpBytes(e.codeHash);
    assert x + (y + (z + w)) == x + y + z + w;
    EncodeListIs(x + y + z + w);
  }

  lemma SlotBytes(v: u256)
    ensures EncodeString(BigEndian(v)) == SlotRlp(v)
    ensures StringOf(SlotRlp(v)).Some? && FromBigEndian(StringOf(SlotRlp(v)).value) == v
  {
    hide BE, BigEndian, RlpBytes, EncodeString, StringOf, FromBigEndian;
    BigEndianIs(v);
    BigEndianRoundTrip(v);
    EncodeStringIs(BE(v));
    SlotSize(v);
    StringOfEncode(BigEndian(v));
  }

  lemma SlotSize(v: u256)
    ensures |BigEndian(v)| < WORD
  {
    hide BigEndian;
    Pow256Word();
    BigEndianSize(v, 32);
  }

  // ----- What is found after an update -----

  /** Under every key of the state trie after an update that succeeded, on a witness or on the full state: what was
      there, if the account is not of the post-state; nothing, if it is destroyed; and otherwise the nonce, the
      balance and the code hash given, with the root of the storage trie the account now has. */
  lemma AccountsWritten(H: Hasher, s: State, post: HashedPostState, order: seq<HashedKey>, slots: SlotOrder, k: Key)
    requires Lists(order, post.accounts.Keys) && AllListed(post, slots) && UpdateRun(H, s, post, order, slots).Some?
    ensures var end := UpdateRun(H, s, post, order, slots).value;
            var found := GetNibs(end.stateTrie, k);
            if k !in post.accounts then found == GetNibs(s.stateTrie, k)
            else match post.accounts[k]
              case None => found == Ok(None)
              case Some(x) =>
                && k in end.storageTries
                && var root := HashOf(H, end.storageTries[k]);
                   && found == Ok(Some(AccountRlp(x.nonce, x.balance, root, x.codeHash)))
                   && DecodeAccount(found.value.value) == Some(TrieAccount(x.nonce, x.balance, root, x.codeHash))
  {
    hide StorageStep, HashOf, EncodeAccount, Listed, TryRun, AccountOps, GetNibs, UpdateRun, Recover, DecodeAccount;
    hide AccountRlp;
    UpdateSplits(H, s, s, post, order, slots);
    var end, ops := UpdateRun(H, s, post, order, slots).value, AccountOps(H, s, post, order, slots);
    if k in post.accounts {
      assert k in order;
      var i :| 0 <= i < |order| && order[i] == k;
      AccountOpKeys(H, s, post, order, slots, i);
      TryRunAt(s.stateTrie, ops, i);
      match post.accounts[k] {
        case None =>
        case Some(x) =>
          AccountBytes(TrieAccount(x.nonce, x.balance, HashOf(H, end.storageTries[k]), x.codeHash));
      }
    } else {
      forall i | 0 <= i < |ops| ensures ops[i].key != k {
        AccountOpKeys(H, s, post, order, slots, i);
        assert order[i] in order;
      }
      TryRunOthers(s.stateTrie, ops, k);
    }
  }

  /** Under every key of the storage trie of an account that is kept: nothing for a slot written as zero, the bytes
      of the number for any other slot written, and for the rest what was there, or nothing if the storage was
      wiped. */
  lemma SlotsWritten(H: Hasher, s: State, post: HashedPostState, order: seq<HashedKey>, slots: SlotOrder,
                     a: HashedKey, k: Key)
    requires Lists(order, post.accounts.Keys) && AllListed(post, slots) && UpdateRun(H, s, post, order, slots).Some?
    requires Kept(post, a)
    ensures var end := UpdateRun(H, s, post, order, slots).value;
            a in end.storageTries &&
            var found := GetNibs(end.storageTries[a], k);
            if a in post.storages && k in post.storages[a].storage then
              var v := post.storages[a].storage[k];
              found == Ok(if v == 0 then None else Some(SlotRlp(v)))
            else if a in post.storages && post.storages[a].wiped then found == Ok(None)
            else found == GetNibs(Recover(H, s, a), k)
  {
    hide TryRun, GetNibs, UpdateRun, Recover, SlotRlp, SlotOps;
    AccountsWritten(H, s, post, order, slots, a);
    StorageRun(H, s, post, order, slots, a);
    SlotFound(StartOf(H, s, post, a), post, a, slots, k);
    NullEmpty(k);
  }

  /** The storage trie of an account that is kept is what its own slots make of the one it starts from. */
  lemma StorageRun(H: Hasher, s: State, post: HashedPostState, order: seq<HashedKey>, slots: SlotOrder, a: HashedKey)
    requires Lists(order, post.accounts.Keys) && AllListed(post, slots) && UpdateRun(H, s, post, order, slots).Some?
    requires Kept(post, a)
    ensures Listed(post, slots, a)
    ensures TryRun(StartOf(H, s, post, a), SlotOps(post, a, slots))
         == Some(TrieOf(UpdateRun(H, s, post, order, slots).value, a))
  {
    hide TryRun, UpdateRun, Recover, AccountOps, Batch, StartOf;
    UpdateSplits(H, s, s, post, order, slots);
    assert a in order && Listed(post, slots, a);
  }

  lemma SlotFound(start: Node, post: HashedPostState, a: HashedKey, slots: SlotOrder, k: Key)
    requires Listed(post, slots, a) && TryRun(start, SlotOps(post, a, slots)).Some?
    ensures var found := GetNibs(TryRun(start, SlotOps(post, a, slots)).value, k);
            var written := StorageOf(post, a).storage;
            if k !in written then found == GetNibs(start, k)
            else if written[k] == 0 then found == Ok(None)
            else found == Ok(Some(SlotRlp(written[k])))
  {
    hide TryRun, GetNibs, SlotRlp, BigEndian, EncodeString, StorageOf;
    var ops, written := SlotOps(post, a, slots), StorageOf(post, a).storage;
    if k in written {
      SlotBytes(written[k]);
      assert k in slots(a);
      var i :| 0 <= i < |slots(a)| && slots(a)[i] == k;
      TryRunAt(start, ops, i);
    } else {
      forall i | 0 <= i < |ops| ensures ops[i].key != k { assert slots(a)[i] in slots(a); }
      TryRunOthers(start, ops, k);
    }
  }

  lemma NullEmpty(k: Key)
    ensures GetNibs(Null, k) == Ok(None)
  {
  }

  // ----- The roots -----

  /** The slots of an account after the update, as the Yellow Paper stores them. */
  function SlotsAfter(m: map<Key, Value>, written: map<HashedKey, u256>): map<Key, Value>
  {
    map k | k in m.Keys + written.Keys && (k in written ==> written[k] != 0) ::
      if k in written then SlotRlp(written[k]) else m[k]
  }

  /** The accounts after the update, with these storage tries. */
  function AccountsAfter(H: Hasher, m: map<Key, Value>, post: HashedPostState, end: State): map<Key, Value>
  {
    map k | k in m.Keys + post.accounts.Keys && (k in post.accounts ==> post.accounts[k].Some?) ::
      if k in post.accounts then
        var x := post.accounts[k].value;
        AccountRlp(x.nonce, x.balance, HashOf(H, TrieOf(end, k)), x.codeHash)
      else m[k]
  }

  /** On a state trie that holds all accounts, the state root after the update is the Yellow Paper's root of the
      accounts there were, overlaid with those of the post-state. */
  lemma StateRootIs(H: Hasher, st: State, m: map<Key, Value>, post: HashedPostState, order: seq<HashedKey>,
                    slots: SlotOrder)
    requires Lists(order, post.accounts.Keys) && AllListed(post, slots) && UpdateRun(H, st, post, order, slots).Some?
    requires Holding(st.stateTrie, m)
    ensures var end := UpdateRun(H, st, post, order, slots).value;
            HashOf(H, end.stateTrie) == Trie(H, AccountsAfter(H, m, post, end))
  {
    hide HashOf, TryRun, AccountOps, GetNibs, UpdateRun, Recover, DecodeAccount, AccountRlp, Canon, Full, Run, Trie;
    UpdateSplits(H, st, st, post, order, slots);
    var end, ops := UpdateRun(H, st, post, order, slots).value, AccountOps(H, st, post, order, slots);
    TryRunIs(st.stateTrie, ops);
    RunCanon(st.stateTrie, ops);
    var J := AccountsAfter(H, m, post, end);
    forall k: Key ensures GetNibs(end.stateTrie, k) == Ok(if k in J then Some(J[k]) else None) {
      AccountsWritten(H, st, post, order, slots, k);
    }
    RootIs(H, end.stateTrie, J);
  }

  /** On a storage trie that holds all slots, the storage root recorded for an account is the Yellow Paper's root of
      the slots there were, or of none if they were wiped, overlaid with those written. */
  lemma StorageRootIs(H: Hasher, st: State, m: map<Key, Value>, post: HashedPostState, order: seq<HashedKey>,
                      slots: SlotOrder, a: HashedKey)
    requires Lists(order, post.accounts.Keys) && AllListed(post, slots) && UpdateRun(H, st, post, order, slots).Some?
    requires Kept(post, a)
    requires Holding(Recover(H, st, a), m) || (a in post.storages && post.storages[a].wiped)
    ensures var before := if a in post.storages && post.storages[a].wiped then map[] else m;
            var written := if a in post.storages then post.storages[a].storage else map[];
            HashOf(H, TrieOf(UpdateRun(H, st, post, order, slots).value, a)) == Trie(H, SlotsAfter(before, written))
  {
    hide HashOf, TryRun, UpdateRun, Recover, Canon, Full, Trie, SlotOps, Represents, SlotsAfter;
    StorageRun(H, st, post, order, slots, a);
    NullCanon();
    var before := if StorageOf(post, a).wiped then map[] else m;
    StorageAfter(StartOf(H, st, post, a), before, post, a, slots);
    var t := TrieOf(UpdateRun(H, st, post, order, slots).value, a);
    RootIs(H, t, SlotsAfter(before, StorageOf(post, a).storage));
  }

  lemma StorageAfter(start: Node, m: map<Key, Value>, post: HashedPostState, a: HashedKey, slots: SlotOrder)
    requires Listed(post, slots, a) && TryRun(start, SlotOps(post, a, slots)).Some?
    requires Canon(start) && Full(start) && Represents(start, m)
    ensures var t := TryRun(start, SlotOps(post, a, slots)).value;
            Canon(t) && Full(t) && Represents(t, SlotsAfter(m, StorageOf(post, a).storage))
  {
    hide TryRun, GetNibs, Canon, Full, Run, SlotOps, StorageOf, SlotRlp;
    var ops := SlotOps(post, a, slots);
    TryRunIs(start, ops);
    RunCanon(start, ops);
    var t, J := TryRun(start, ops).value, SlotsAfter(m, StorageOf(post, a).storage);
    forall k: Key ensures GetNibs(t, k) == Ok(if k in J then Some(J[k]) else None) {
      SlotFound(start, post, a, slots, k);
    }
  }

  lemma NullCanon()
    ensures Canon(Null) && Full(Null) && Represents(Null, map[])
  {
  }

  // ----- Storage that was not supplied -----

  /** The account that the state trie records, if it does. */
  function Recorded(st: State, a: HashedKey): Option<TrieAccount>
  {
    match GetNibs(st.stateTrie, a)
    case Ok(Some(v)) => DecodeAccount(v)
    case _ => None
  }

  /** The storage trie an update starts from: the one supplied unless it is empty; then one with the root on record, in
      which a lookup finds nothing if that is the root of the empty trie and fails otherwise; and the empty one if no
      account is on record, or one whose root is zero. */
  lemma RecoverExact(H: Hasher, st: State, a: HashedKey, k: Key)
    ensures a in st.storageTries && !st.storageTries[a].Null? ==> Recover(H, st, a) == st.storageTries[a]
    ensures a !in st.storageTries || st.storageTries[a].Null? ==>
              match Recorded(st, a)
              case None => Recover(H, st, a) == Null
              case Some(e) =>
                if AllZero(e.storageRoot) then Recover(H, st, a) == Null else
                  && HashOf(H, Recover(H, st, a)) == e.storageRoot
                  && GetNibs(Recover(H, st, a), k)
                  == if e.storageRoot == H([0x80]) then Ok(None) else Err(NodeNotResolved(e.storageRoot))
  {
    hide DecodeAccount;
    if TrieOf(st, a).Null? && Recorded(st, a).Some? {
      var root := Recorded(st, a).value.storageRoot;
      assert AllZero(root) <==> root == ZERO;
    }
  }
}
