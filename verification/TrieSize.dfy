/** How small an encoding can be: a trie over long keys is always referred to by its hash. */
module TrieSize {
  import opened Bytes
  import opened HexPrefix
  import opened Rlp
  import opened Mpt
  import opened TrieMap
  import opened TrieHash
  import opened TrieSparse

  ghost predicate KeyLength(t: Node, length: nat)
  {
    forall k: Key :: Holds(t, k) ==> |k| == length
  }

  /** What an encoding over keys of this length takes at least. */
  function AtLeast(length: nat): nat
  {
    if length >= 60 then 32 else length / 2 + 2
  }

  lemma PathSize(nibs: Key, isLeaf: bool)
    ensures |ToEncodedPath(nibs, isLeaf)| == |nibs| / 2 + 1
  {
  }

  lemma ListSize(payload: seq<byte>)
    ensures |EncodeList(payload)| > |payload|
  {
  }

  lemma StringSize(s: seq<byte>)
    ensures |EncodeString(s)| >= |s|
  {
  }

  lemma RefSize(H: Hasher, n: Node)
    requires !n.Null? && !n.Digest?
    ensures |RefBytes(H, n)| == if RefOf(H, n).DigestRef? then 33 else |Encode(H, n)|
  {
    hide Encode;
  }

  lemma {:induction false} KidsSize(H: Hasher, cs: seq<Option<Node>>, i: nat)
    requires i < |cs|
    ensures |KidsBytes(H, cs)| >= |KidBytes(H, cs[i])|
  {
    hide KidBytes;
    if i > 0 { KidsSize(H, cs[1..], i - 1); }
  }

  lemma ExtensionKeyLength(n: Node, length: nat)
    requires n.Extension? && Canon(n) && Full(n) && KeyLength(n, length)
    ensures |PrefixNibs(n.prefix)| <= length && KeyLength(n.child, length - |PrefixNibs(n.prefix)|)
  {
    hide PrefixNibs;
    var p := PrefixNibs(n.prefix);
    forall k: Key | Holds(n.child, k) ensures |p| + |k| == length {
      assert (p + k)[|p|..] == k;
      assert Holds(n, p + k);
    }
    NonEmpty(n.child);
    var k: Key :| Holds(n.child, k);
  }

  lemma BranchKeyLength(n: Node, length: nat, i: nibble)
    requires n.Branch? && Canon(n) && Full(n) && KeyLength(n, length) && Occupied(n.children, i)
    ensures length > 0 && KeyLength(n.children[i].value, length - 1)
  {
    var c := n.children[i].value;
    forall k: Key | Holds(c, k) ensures 1 + |k| == length {
      assert ([i] + k)[1..] == k;
      assert Holds(n, [i] + k);
    }
    NonEmpty(c);
    var k: Key :| Holds(c, k);
  }

  lemma {:induction false} EncodingSize(H: Hasher, n: Node, length: nat)
    requires Canon(n) && Full(n) && !n.Null? && KeyLength(n, length)
    ensures |Encode(H, n)| >= AtLeast(length)
  {
    hide PrefixNibs, ToEncodedPath, EncodeString, EncodeList, RefOf, IsNormal;
    NormalPath(n);
    match n
    case Leaf(prefix, value) =>
      var p := PrefixNibs(prefix);
      assert Holds(n, p);
      PathSize(p, true);
      StringSize(prefix);
      ListSize(EncodeString(prefix) + EncodeString(value));
    case Extension(prefix, child) =>
      ExtensionKeyLength(n, length);
      EncodingSize(H, child, length - |PrefixNibs(prefix)|);
      PathSize(PrefixNibs(prefix), false);
      StringSize(prefix);
      RefSize(H, child);
      ListSize(EncodeString(prefix) + RefBytes(H, child));
    case Branch(cs) =>
      var i: nibble, j: nibble :| i != j && Occupied(cs, i) && Occupied(cs, j);
      BranchKeyLength(n, length, i);
      EncodingSize(H, cs[i].value, length - 1);
      RefSize(H, cs[i].value);
      KidsSize(H, cs, i);
      ListSize(KidsBytes(H, cs) + EMPTY_STRING);
  }

  /** A trie over keys of 60 nibbles or more, so any trie over hashed keys, is referred to by its hash. */
  lemma ReferredByHash(H: Hasher, n: Node, length: nat)
    requires Canon(n) && Full(n) && !n.Null? && KeyLength(n, length) && length >= 60
    ensures RefOf(H, n) == DigestRef(HashOf(H, n)) && HashOf(H, n) == H(Encode(H, n))
    ensures Sparse(H, Digest(HashOf(H, n)), n)
  {
    EncodingSize(H, n, length);
  }
}
