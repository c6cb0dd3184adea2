/** The root of a finite map as the Yellow Paper defines it: RLP (Appendix B), hex prefix (Appendix C) and the trie
    (Appendix D), written down from the paper, on maps and without reference to nodes. The encodings, references and
    hashes of the trie are proved to be these. */
module YellowPaper {
  import opened Bytes
  import opened HexPrefix
  import opened Rlp
  import opened Mpt
  import opened TrieMap
  import opened TrieRuns
  import opened TrieHash
  import opened TrieSparse
  import opened TrieCodec

  // ----- Appendix B -----

  /** The shortest big-endian form of a number. */
  function BE(x: nat): seq<byte>
  {
    if x < 256 then if x == 0 then [] else [x] else BE(x / 256) + [x % 256]
  }

  /** A string. Where the paper leaves lengths of 2^64 bytes and more undefined, the first byte wraps. */
  function RlpBytes(x: seq<byte>): seq<byte>
  {
    if |x| == 1 && x[0] < 128 then x
    else if |x| < 56 then [128 + |x|] + x
    else [(183 + |BE(|x|)|) % 256] + BE(|x|) + x
  }

  /** A list, given its encoded items one after the other. */
  function RlpList(s: seq<byte>): seq<byte>
  {
    if |s| < 56 then [192 + |s|] + s else [(247 + |BE(|s|)|) % 256] + BE(|s|) + s
  }

  // ----- Appendix C -----

  function Flag(t: bool): nat
  {
    if t then 2 else 0
  }

  function Pairs(x: Key): seq<byte>
  {
    seq(|x| / 2, j requires 0 <= j < |x| / 2 => 16 * x[2 * j] as int + x[2 * j + 1])
  }

  function HP(x: Key, t: bool): seq<byte>
  {
    if |x| % 2 == 0 then [16 * Flag(t)] + Pairs(x) else [16 * (Flag(t) + 1) + x[0]] + Pairs(x[1..])
  }

  // ----- Appendix D -----

  /** All keys begin with this path. */
  ghost predicate Shared(J: map<Key, Value>, l: Key)
  {
    forall k :: k in J ==> l <= k
  }

  /** The longest such path. */
  ghost function Longest(J: map<Key, Value>): (l: Key)
    requires J != map[]
    ensures Shared(J, l) && forall x: Key :: Shared(J, x) ==> x <= l
  {
    var k :| k in J;
    LongestWithin(J, k)
  }

  ghost function LongestWithin(J: map<Key, Value>, k: Key): (l: Key)
    requires forall x: Key :: Shared(J, x) ==> x <= k
    ensures Shared(J, l) && forall x: Key :: Shared(J, x) ==> x <= l
  {
    if Shared(J, k) then k else
      assert k != [];
      assert forall x: Key :: Shared(J, x) ==> x != k && x <= k[..|k| - 1];
      LongestWithin(J, k[..|k| - 1])
  }

  /** The entries whose key has this nibble at this position. */
  ghost function Sub(J: map<Key, Value>, i: nat, x: nibble): map<Key, Value>
  {
    map k | k in J && |k| > i && k[i] == x :: J[k]
  }

  lemma SubSmaller(J: map<Key, Value>, x: nibble)
    requires J != map[]
    ensures var i, S := |Longest(J)|, Sub(J, |Longest(J)|, x);
            && |S| < |J| && (S != map[] ==> i + 1 <= |Longest(S)|)
  {
    var l := Longest(J);
    var i, S := |l|, Sub(J, |l|, x);
    if S.Keys == J.Keys {
      forall k | k in J ensures l + [x] <= k { assert k in S.Keys; }
      assert Shared(J, l + [x]);
    }
    SmallerMap(S, J);
    if S != map[] {
      forall k | k in S ensures l + [x] <= k { assert l <= k; }
      assert Shared(S, l + [x]);
    }
  }

  lemma SmallerMap(S: map<Key, Value>, J: map<Key, Value>)
    requires S.Keys < J.Keys
    ensures |S| < |J|
  {
    SubsetCard(S.Keys, J.Keys);
    assert |S| == |S.Keys| && |J| == |J.Keys|;
  }

  lemma SubsetCard(a: set<Key>, b: set<Key>)
    requires a < b
    ensures |a| < |b|
  {
    assert b == a + (b - a) && |b| == |a| + |b - a|;
  }

  /** The node at depth `i`, encoded: a leaf, an extension or a branch. */
  ghost function C(H: Hasher, J: map<Key, Value>, i: nat): seq<byte>
    requires J != map[] && i <= |Longest(J)|
    decreases |J|, if i == |Longest(J)| then 1 else 3, 0
  {
    var l := Longest(J);
    if |J| == 1 then
      var k :| k in J;
      RlpList(RlpBytes(HP(k[i..], true)) + RlpBytes(J[k]))
    else if i != |l| then
      RlpList(RlpBytes(HP(l[i..], false)) + N(H, J, |l|))
    else
      RlpList(U(H, J, 0) + RlpBytes(if l in J then J[l] else []))
  }

  /** A reference to it: itself if it takes less than 32 bytes, or else its hash. */
  ghost function N(H: Hasher, J: map<Key, Value>, i: nat): seq<byte>
    requires J != map[] ==> i <= |Longest(J)|
    decreases |J|, if J == map[] || i == |Longest(J)| then 2 else 4, 0
  {
    if J == map[] then RlpBytes([]) else
      var c := C(H, J, i);
      if |c| < 32 then c else RlpBytes(H(c))
  }

  /** The references for the nibbles from `x` on, after the longest shared path. */
  ghost function U(H: Hasher, J: map<Key, Value>, x: nat): seq<byte>
    requires J != map[] && x <= 16
    decreases |J|, 0, 16 - x
  {
    if x == 16 then [] else
      SubSmaller(J, x);
      N(H, Sub(J, |Longest(J)|, x), |Longest(J)| + 1) + U(H, J, x + 1)
  }

  ghost function Trie(H: Hasher, J: map<Key, Value>): Bytes32
  {
    if J == map[] then H(RlpBytes([])) else H(C(H, J, 0))
  }

  // ----- The encodings are those of the paper -----

  lemma {:induction false} BigEndianIs(x: nat)
    ensures BigEndian(x) == BE(x)
  {
    if x >= 256 {
      BigEndianIs(x / 256);
    } else if x > 0 {
      assert BigEndian(x) == BigEndian(0) + [x];
    }
  }

  lemma EncodeStringIs(x: seq<byte>)
    ensures EncodeString(x) == RlpBytes(x)
  {
    hide BE, BigEndian;
    BigEndianIs(|x|);
  }

  lemma EncodeListIs(s: seq<byte>)
    ensures EncodeList(s) == RlpList(s)
  {
    hide BE, BigEndian;
    BigEndianIs(|s|);
  }

  lemma {:induction false} PackAt(x: Key, j: nat)
    requires j < |x| / 2
    ensures Pack(x)[j] == 16 * x[2 * j] as int + x[2 * j + 1]
  {
    if j > 0 { PackAt(x[2..], j - 1); }
  }

  lemma PackIs(x: Key)
    ensures Pack(x) == Pairs(x)
  {
    hide Pack;
    forall j | 0 <= j < |x| / 2 ensures Pack(x)[j] == Pairs(x)[j] { PackAt(x, j); }
  }

  lemma EncodedPathIs(x: Key, t: bool)
    ensures ToEncodedPath(x, t) == HP(x, t)
  {
    hide Pack, Pairs;
    if |x| % 2 == 1 { PackIs(x[1..]); } else { PackIs(x); }
  }

  // ----- The trie is that of the paper -----

  /** The trie below this path holds the entries, all of which begin with the path. */
  ghost predicate Stored(t: Node, J: map<Key, Value>, p: Key)
  {
    Shared(J, p) && forall q: Key :: GetNibs(t, q) == Ok(if p + q in J then Some(J[p + q]) else None)
  }

  lemma StoredKey(t: Node, J: map<Key, Value>, p: Key, k: Key)
    requires Stored(t, J, p) && k in J
    ensures p <= k && GetNibs(t, k[|p|..]) == Ok(Some(J[k]))
  {
    hide GetNibs;
    assert k == p + k[|p|..];
  }

  lemma StoredSome(t: Node, J: map<Key, Value>, p: Key)
    requires Stored(t, J, p) && Canon(t) && Full(t) && !t.Null?
    ensures J != map[] && p <= Longest(J)
  {
    hide GetNibs, Canon, Full;
    NonEmpty(t);
    var q: Key :| Holds(t, q);
    assert p + q in J;
  }

  /** Two keys that part after the path are enough to know the longest shared path. */
  lemma LongestIs(J: map<Key, Value>, l: Key, a: Key, b: Key)
    requires Shared(J, l) && a in J && b in J && PartAt(l, a, b)
    ensures J != map[] && Longest(J) == l && |J| >= 2
  {
    var m := Longest(J);
    assert l <= m && m <= a && m <= b;
    assert {a, b} <= J.Keys;
    if |J| < 2 {
      assert |{a, b}| == 2;
      CardLess({a, b}, J.Keys);
    }
  }

  lemma CardLess(a: set<Key>, b: set<Key>)
    requires a <= b
    ensures |a| <= |b|
  {
    if a != b { SubsetCard(a, b); }
  }

  lemma LeafStored(t: Node, J: map<Key, Value>, p: Key)
    requires t.Leaf? && Stored(t, J, p)
    ensures J == map[p + PrefixNibs(t.prefix) := t.value]
  {
    hide PrefixNibs;
    var k := p + PrefixNibs(t.prefix);
    assert GetNibs(t, PrefixNibs(t.prefix)) == Ok(Some(t.value));
    forall x | x in J ensures x == k && J[x] == t.value { StoredKey(t, J, p, x); assert x == p + x[|p|..]; }
  }

  lemma ExtensionStored(t: Node, J: map<Key, Value>, p: Key)
    requires t.Extension? && Canon(t) && Full(t) && Stored(t, J, p)
    ensures var l := p + PrefixNibs(t.prefix);
            J != map[] && Longest(J) == l && |J| >= 2 && Stored(t.child, J, l)
  {
    hide PrefixNibs, IsNormal;
    var nibs := PrefixNibs(t.prefix);
    var l := p + nibs;
    forall k | k in J ensures l <= k {
      StoredKey(t, J, p, k);
      assert nibs <= k[|p|..] && k == p + k[|p|..];
    }
    forall q: Key ensures GetNibs(t.child, q) == Ok(if l + q in J then Some(J[l + q]) else None) {
      assert (nibs + q)[|nibs|..] == q && p + (nibs + q) == l + q;
      assert GetNibs(t, nibs + q) == GetNibs(t.child, q);
    }
    var x, y := BranchKeys(t.child.children);
    assert Holds(t.child, x) && Holds(t.child, y);
    assert l + x in J && l + y in J;
    LongestIs(J, l, l + x, l + y);
  }

  lemma BranchStored(cs: Slots<Node>, J: map<Key, Value>, p: Key)
    requires Canon(Branch(cs)) && Full(Branch(cs)) && Stored(Branch(cs), J, p)
    ensures J != map[] && Longest(J) == p && |J| >= 2 && p !in J
  {
    hide PrefixNibs, IsNormal;
    var t := Branch(cs);
    var x, y := BranchKeys(cs);
    assert Holds(t, x) && Holds(t, y);
    assert p + x in J && p + y in J;
    LongestIs(J, p, p + x, p + y);
    assert GetNibs(t, []) == Ok(None) && p + [] == p;
  }

  lemma SlotStored(cs: Slots<Node>, J: map<Key, Value>, p: Key, x: nibble)
    requires Stored(Branch(cs), J, p)
    ensures cs[x].None? ==> Sub(J, |p|, x) == map[]
    ensures cs[x].Some? ==> Stored(cs[x].value, Sub(J, |p|, x), p + [x])
  {
    hide PrefixNibs;
    var t, S := Branch(cs), Sub(J, |p|, x);
    forall k | k in S ensures p + [x] <= k && cs[x].Some? {
      StoredKey(t, J, p, k);
      assert k == p + k[|p|..];
    }
    if cs[x].Some? {
      forall q: Key
        ensures GetNibs(cs[x].value, q) == Ok(if p + [x] + q in S then Some(S[p + [x] + q]) else None)
      {
        assert ([x] + q)[1..] == q && p + ([x] + q) == p + [x] + q;
        assert GetNibs(t, [x] + q) == GetNibs(cs[x].value, q);
      }
    }
  }

  /** Encoding and reference of a canonical trie are those the paper gives for its entries. */
  lemma {:induction false} EncodedAs(H: Hasher, t: Node, J: map<Key, Value>, p: Key)
    requires Canon(t) && Full(t) && !t.Null? && Stored(t, J, p)
    ensures J != map[] && |p| <= |Longest(J)|
    ensures Encode(H, t) == C(H, J, |p|) && RefBytes(H, t) == N(H, J, |p|)
    decreases t, 1
  {
    hide Canon, PrefixNibs, ToEncodedPath, IsNormal, GetNibs, HP, RlpBytes, RlpList, EncodeString, EncodeList, Stored;
    StoredSome(t, J, p);
    match t {
      case Leaf(_, _) => EncodedLeaf(H, t, J, p);
      case Extension(_, _) => EncodedExtension(H, t, J, p);
      case Branch(cs) => EncodedBranch(H, cs, J, p);
    }
    ReferredAs(H, t, J, |p|);
  }

  lemma ReferredAs(H: Hasher, t: Node, J: map<Key, Value>, i: nat)
    requires !t.Null? && !t.Digest? && J != map[] && i <= |Longest(J)| && Encode(H, t) == C(H, J, i)
    ensures RefBytes(H, t) == N(H, J, i)
  {
    hide Encode, C;
  }

  lemma EncodedLeaf(H: Hasher, t: Node, J: map<Key, Value>, p: Key)
    requires t.Leaf? && Canon(t) && Stored(t, J, p) && J != map[] && p <= Longest(J)
    ensures Encode(H, t) == C(H, J, |p|)
  {
    hide PrefixNibs, ToEncodedPath, GetNibs, HP, RlpBytes, RlpList, EncodeString, EncodeList;
    var nibs := PrefixNibs(t.prefix);
    LeafStored(t, J, p);
    var k := p + nibs;
    assert J.Keys == {k} && k[|p|..] == nibs;
    NormalPath(t);
    EncodedPathIs(nibs, true);
    EncodeStringIs(t.prefix);
    EncodeStringIs(t.value);
    EncodeListIs(EncodeString(t.prefix) + EncodeString(t.value));
  }

  lemma {:induction false} EncodedExtension(H: Hasher, t: Node, J: map<Key, Value>, p: Key)
    requires t.Extension? && Canon(t) && Full(t) && Stored(t, J, p) && J != map[] && p <= Longest(J)
    ensures Encode(H, t) == C(H, J, |p|)
    decreases t, 0
  {
    hide PrefixNibs, ToEncodedPath, GetNibs, HP, RlpBytes, RlpList, EncodeString, EncodeList, RefBytes, N, Stored;
    var nibs := PrefixNibs(t.prefix);
    NormalPath(t);
    ExtensionStored(t, J, p);
    var l := p + nibs;
    assert l[|p|..] == nibs;
    EncodedAs(H, t.child, J, l);
    EncodedPathIs(nibs, false);
    EncodeStringIs(t.prefix);
    EncodeListIs(EncodeString(t.prefix) + RefBytes(H, t.child));
  }

  lemma {:induction false} EncodedBranch(H: Hasher, cs: Slots<Node>, J: map<Key, Value>, p: Key)
    requires Canon(Branch(cs)) && Full(Branch(cs)) && Stored(Branch(cs), J, p) && J != map[]
    ensures p <= Longest(J) && Encode(H, Branch(cs)) == C(H, J, |p|)
    decreases cs, 1
  {
    BranchStored(cs, J, p);
    EncodedKids(H, cs, J, p, 0);
    hide Canon, Full, Stored, RlpBytes, RlpList, EncodeString, EncodeList, U, KidsBytes;
    assert cs[0..] == cs;
    EmptyBytes();
    EncodeListIs(KidsBytes(H, cs) + EMPTY_STRING);
  }

  lemma EmptyBytes()
    ensures RlpBytes([]) == EMPTY_STRING
  {
  }

  lemma {:induction false} EncodedKids(H: Hasher, cs: Slots<Node>, J: map<Key, Value>, p: Key, x: nat)
    requires Canon(Branch(cs)) && Full(Branch(cs)) && Stored(Branch(cs), J, p)
    requires J != map[] && Longest(J) == p && x <= 16
    ensures KidsBytes(H, cs[x..]) == U(H, J, x)
    decreases cs, 0, 16 - x, 1
  {
    hide Canon, Full, Stored, N, KidBytes;
    if x < 16 {
      EncodedKids(H, cs, J, p, x + 1);
      SubSmaller(J, x);
      EncodedKid(H, cs, J, p, x);
      assert cs[x..][1..] == cs[x + 1..] && cs[x..][0] == cs[x];
    }
  }

  lemma {:induction false} EncodedKid(H: Hasher, cs: Slots<Node>, J: map<Key, Value>, p: Key, x: nibble)
    requires Canon(Branch(cs)) && Full(Branch(cs)) && Stored(Branch(cs), J, p)
    requires J != map[] && Longest(J) == p
    ensures var S := Sub(J, |p|, x);
            (S != map[] ==> |p| + 1 <= |Longest(S)|) && KidBytes(H, cs[x]) == N(H, S, |p| + 1)
    decreases cs, 0, 16 - x, 0
  {
    hide Canon, Full, Stored, N, RefBytes, RlpBytes, Sub;
    SubSmaller(J, x);
    SlotStored(cs, J, p, x);
    if cs[x].Some? {
      KidIsCanon(cs, x);
      EncodedAs(H, cs[x].value, Sub(J, |p|, x), p + [x]);
    } else {
      EmptyReference(H, |p| + 1);
    }
  }

  lemma KidIsCanon(cs: Slots<Node>, x: nibble)
    requires Canon(Branch(cs)) && Full(Branch(cs)) && cs[x].Some?
    ensures Canon(cs[x].value) && Full(cs[x].value) && !cs[x].value.Null?
  {
    hide PrefixNibs, IsNormal;
    assert Occupied(cs, x);
  }

  lemma EmptyReference(H: Hasher, i: nat)
    ensures N(H, map[], i) == EMPTY_STRING
  {
    EmptyBytes();
  }

  /** The root hash of a canonical trie is the root that the Yellow Paper defines for the map it represents. */
  lemma RootIs(H: Hasher, t: Node, J: map<Key, Value>)
    requires Canon(t) && Full(t) && Represents(t, J)
    ensures HashOf(H, t) == Trie(H, J)
  {
    hide Canon, GetNibs, C, RlpBytes, Encode;
    forall q: Key ensures [] + q == q {}
    if t.Null? {
      NullStored(J);
      EmptyBytes();
    } else {
      assert Stored(t, J, []);
      EncodedAs(H, t, J, []);
      HashOfEncoding(H, t);
    }
  }

  lemma NullStored(J: map<Key, Value>)
    requires Represents(Null, J)
    ensures J == map[]
  {
    forall k: Key ensures k !in J { assert GetNibs(Null, k) == Ok(None); }
  }

  /** So is the root after every run. */
  lemma RunRootIs(H: Hasher, t: Node, m: map<Key, Value>, ops: seq<Op>)
    requires Canon(t) && Full(t) && Represents(t, m)
    ensures HashOf(H, Run(t, ops)) == Trie(H, MapRun(m, ops))
  {
    hide Canon, Full, Represents, HashOf, Trie, Run;
    RunRefines(t, m, ops);
    RootIs(H, Run(t, ops), MapRun(m, ops));
  }
}
