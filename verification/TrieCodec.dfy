/** The RLP codec of trie nodes, and what a root hash says about the trie behind it. */
module TrieCodec {
  import opened Bytes
  import opened HexPrefix
  import opened Rlp
  import opened Mpt
  import opened TrieMap
  import opened TrieHash
  import opened TrieSparse

  // ----- length -----

  function RefLength(H: Hasher, n: Node): nat
  {
    match RefOf(H, n)
    case BytesRef(bytes) => |bytes|
    case DigestRef(_) => 33
  }

  function KidsLength(H: Hasher, cs: seq<Option<Node>>): nat
  {
    if cs == [] then 0 else (if cs[0].None? then 1 else RefLength(H, cs[0].value)) + KidsLength(H, cs[1..])
  }

  function PayloadLength(H: Hasher, n: Node): nat
  {
    match n
    case Null => 0
    case Branch(cs) => 1 + KidsLength(H, cs)
    case Leaf(prefix, value) => StringLength(prefix) + StringLength(value)
    case Extension(prefix, child) => StringLength(prefix) + RefLength(H, child)
    case Digest(_) => 32
  }

  /** `length()`: the payload and its header. */
  function Length(H: Hasher, n: Node): nat
  {
    PayloadLength(H, n) + LengthOfLength(PayloadLength(H, n))
  }

  lemma RefLengthMatches(H: Hasher, n: Node)
    ensures RefLength(H, n) == |RefBytes(H, n)|
  {
    hide RefOf;
  }

  lemma {:induction false} KidsLengthMatches(H: Hasher, cs: seq<Option<Node>>)
    ensures KidsLength(H, cs) == |KidsBytes(H, cs)|
  {
    if cs != [] {
      KidsLengthMatches(H, cs[1..]);
      if cs[0].Some? { RefLengthMatches(H, cs[0].value); }
    }
  }

  /** `length()` is the number of bytes `encode` writes. */
  lemma LengthMatches(H: Hasher, n: Node)
    ensures Length(H, n) == |Encode(H, n)|
  {
    if n.Branch? { KidsLengthMatches(H, n.children); }
  }

  // ----- decode -----

  /** `None` is a decoding error, or the panic on an empty path. */
  function Decode(b: seq<byte>): Option<Node>
    decreases |b|, 1, 0
  {
    if b == [] then Some(Null) else
      match ParseHeader(b)
      case None => None
      case Some(h) =>
        var payload := b[h.prefix..h.prefix + h.payload];
        if !h.list then
          if |payload| == 0 then Some(Null)
          else if |payload| == 32 then Some(Digest(payload))
          else None
        else if h.prefix == 0 then None
        else match Items(payload)
          case None => None
          case Some(items) =>
            if |items| == 2 then DecodePair(items[0], items[1])
            else if |items| == 17 && StringOf(items[16]) == Some([]) then
              match DecodeKids(items[..16], |b|)
              case None => None
              case Some(kids) => Some(Branch(kids))
            else None
  }

  /** A list of two items is a leaf or an extension, by the flag in its path. */
  function DecodePair(first: seq<byte>, second: seq<byte>): Option<Node>
    decreases |second|, 2, 0
  {
    match StringOf(first)
    case None => None
    case Some(path) =>
      if path == [] then None
      else if (path[0] / 32) % 2 == 0 then
        match Decode(second)
        case None => None
        case Some(child) => Some(Extension(path, child))
      else
        match StringOf(second)
        case None => None
        case Some(value) => Some(Leaf(path, value))
  }

  function DecodeKid(item: seq<byte>): Option<Option<Node>>
    decreases |item|, 2, 0
  {
    if item == [] || StringOf(item) == Some([]) then Some(None) else
      match Decode(item)
      case None => None
      case Some(n) => Some(Some(n))
  }

  function DecodeKids(items: seq<seq<byte>>, bound: nat): (r: Option<seq<Option<Node>>>)
    requires forall i :: 0 <= i < |items| ==> |items[i]| < bound
    ensures r.Some? ==> |r.value| == |items|
    ensures r.Some? ==> forall i :: 0 <= i < |items| ==> DecodeKid(items[i]) == Some(r.value[i])
    ensures r.None? ==> exists i :: 0 <= i < |items| && DecodeKid(items[i]).None?
    decreases bound, 0, |items|
  {
    if items == [] then Some([]) else
      match DecodeKid(items[0])
      case None => None
      case Some(kid) =>
        match DecodeKids(items[1..], bound)
        case None => None
        case Some(kids) => Some([kid] + kids)
  }

  // ----- What an encoding consists of -----

  /** All encodings are shorter than a machine word can count. */
  ghost predicate Fits(H: Hasher, n: Node)
  {
    && |Encode(H, n)| < WORD
    && match n
       case Extension(_, child) => Fits(H, child)
       case Branch(cs) => forall i: nibble :: Occupied(cs, i) ==> Fits(H, cs[i].value)
       case _ => true
  }

  lemma EncodingIsList(H: Hasher, n: Node)
    requires Fits(H, n) && (n.Leaf? || n.Extension? || n.Branch?)
    ensures IsItem(Encode(H, n)) && Encode(H, n)[0] >= 0xc0
  {
    hide BigEndian, ParseHeader;
    EncodingFirst(H, n);
    match n
    case Leaf(prefix, value) => ParseList(EncodeString(prefix) + EncodeString(value), []);
    case Extension(prefix, child) => ParseList(EncodeString(prefix) + RefBytes(H, child), []);
    case Branch(cs) => ParseList(KidsBytes(H, cs) + EMPTY_STRING, []);
  }

  lemma EncodingFirst(H: Hasher, n: Node)
    requires |Encode(H, n)| < WORD && (n.Leaf? || n.Extension? || n.Branch?)
    ensures Encode(H, n)[0] >= 0xc0
  {
    hide EncodeString, RefBytes, KidsBytes;
    var payload := match n
      case Leaf(prefix, value) => EncodeString(prefix) + EncodeString(value)
      case Extension(prefix, child) => EncodeString(prefix) + RefBytes(H, child)
      case Branch(cs) => KidsBytes(H, cs) + EMPTY_STRING;
    assert Encode(H, n) == EncodeList(payload);
    if |payload| >= 56 {
      Pow256Values();
      BigEndianSize(|payload|, 8);
    }
  }

  lemma RefBytesIsItem(H: Hasher, n: Node)
    requires Fits(H, n)
    ensures IsItem(RefBytes(H, n))
    ensures !n.Null? && RefOf(H, n).BytesRef? ==> RefBytes(H, n)[0] >= 0xc0
    ensures RefOf(H, n).DigestRef? ==> RefBytes(H, n)[0] == 0xa0 && |RefBytes(H, n)| == 33
  {
    hide Encode;
    if n.Leaf? || n.Extension? || n.Branch? { EncodingIsList(H, n); }
  }

  lemma RefBytesInjective(H: Hasher, a: Node, b: Node)
    requires Fits(H, a) && Fits(H, b) && !a.Null? && !b.Null? && RefBytes(H, a) == RefBytes(H, b)
    ensures RefOf(H, a) == RefOf(H, b)
  {
    hide Encode, ParseHeader;
    RefBytesIsItem(H, a);
    RefBytesIsItem(H, b);
    var d := RefBytes(H, a);
    if RefOf(H, a).DigestRef? {
      assert d[1..] == RefOf(H, a).digest && d[1..] == RefOf(H, b).digest;
    }
  }

  /** The children of a branch, each as one item. */
  ghost function KidItems(H: Hasher, cs: seq<Option<Node>>): (r: seq<seq<byte>>)
    ensures |r| == |cs| && forall i :: 0 <= i < |cs| ==> r[i] == KidBytes(H, cs[i])
  {
    if cs == [] then [] else [KidBytes(H, cs[0])] + KidItems(H, cs[1..])
  }

  lemma ItemsEmptyString()
    ensures IsItem(EMPTY_STRING) && Items(EMPTY_STRING) == Some([EMPTY_STRING])
  {
    ItemsCons(EMPTY_STRING, []);
    assert EMPTY_STRING + [] == EMPTY_STRING && [EMPTY_STRING] + [] == [EMPTY_STRING];
  }

  lemma KidIsItem(H: Hasher, c: Option<Node>)
    requires c.Some? ==> Fits(H, c.value)
    ensures IsItem(KidBytes(H, c))
  {
    hide IsItem, Fits, RefBytes;
    if c.Some? { RefBytesIsItem(H, c.value); } else { ItemsEmptyString(); }
  }

  lemma {:induction false} ItemsKids(H: Hasher, cs: seq<Option<Node>>)
    requires forall i :: 0 <= i < |cs| && cs[i].Some? ==> Fits(H, cs[i].value)
    ensures Items(KidsBytes(H, cs) + EMPTY_STRING) == Some(KidItems(H, cs) + [EMPTY_STRING])
  {
    hide KidBytes, Items, IsItem, Fits;
    if cs == [] {
      ItemsEmptyString();
      assert KidsBytes(H, cs) + EMPTY_STRING == EMPTY_STRING;
      assert KidItems(H, cs) + [EMPTY_STRING] == [EMPTY_STRING];
    } else {
      ItemsKids(H, cs[1..]);
      var e := KidBytes(H, cs[0]);
      KidIsItem(H, cs[0]);
      ItemsCons(e, KidsBytes(H, cs[1..]) + EMPTY_STRING);
      assert KidsBytes(H, cs) + EMPTY_STRING == e + (KidsBytes(H, cs[1..]) + EMPTY_STRING);
      assert KidItems(H, cs) + [EMPTY_STRING] == [e] + (KidItems(H, cs[1..]) + [EMPTY_STRING]);
    }
  }

  /** The payload of an encoded node, and its items. */
  lemma EncodingItems(H: Hasher, n: Node) returns (payload: seq<byte>, items: seq<seq<byte>>)
    requires Fits(H, n) && (n.Leaf? || n.Extension? || n.Branch?)
    ensures Encode(H, n) == EncodeList(payload) && |payload| < WORD
    ensures Items(payload) == Some(items)
    ensures match n
      case Leaf(prefix, value) =>
        items == [EncodeString(prefix), EncodeString(value)] && |prefix| < WORD && |value| < WORD
      case Extension(prefix, child) => items == [EncodeString(prefix), RefBytes(H, child)] && |prefix| < WORD
      case Branch(cs) => items == KidItems(H, cs) + [EMPTY_STRING] && |items| == 17
      case _ => true
  {
    hide RefBytes, KidBytes, Items, HeaderBytes;
    match n
    case Leaf(prefix, value) =>
      payload, items := EncodeString(prefix) + EncodeString(value), [EncodeString(prefix), EncodeString(value)];
      ParseString(prefix, []);
      ParseString(value, []);
      ItemsTwo(EncodeString(prefix), EncodeString(value));
    case Extension(prefix, child) =>
      payload, items := EncodeString(prefix) + RefBytes(H, child), [EncodeString(prefix), RefBytes(H, child)];
      ParseString(prefix, []);
      RefBytesIsItem(H, child);
      ItemsTwo(EncodeString(prefix), RefBytes(H, child));
    case Branch(cs) =>
      payload, items := KidsBytes(H, cs) + EMPTY_STRING, KidItems(H, cs) + [EMPTY_STRING];
      assert forall i: nibble :: Occupied(cs, i) ==> Fits(H, cs[i].value);
      forall i | 0 <= i < 16 && cs[i].Some? ensures Fits(H, cs[i].value) { assert Occupied(cs, i); }
      ItemsKids(H, cs);
  }

  // ----- Round trip -----

  /** Reading back an encoded node gives a node that stands for it: the same node, except that
      children referred to by hash have become digests. */
  lemma {:induction false} DecodeEncode(H: Hasher, n: Node)
    requires Canon(n) && Fits(H, n)
    ensures Decode(Encode(H, n)).Some?
    ensures var m := Decode(Encode(H, n)).value;
            Sparse(H, m, n) && HashOf(H, m) == HashOf(H, n) && (n.Null? <==> m.Null?)
    decreases n, 1
  {
    match n
    case Null =>
    case Digest(d) =>
      var e := [0xa0] + d;
      assert e[1..33] == d;
    case _ =>
      DecodeList(H, n);
      SparseReference(H, Decode(Encode(H, n)).value, n);
  }

  lemma {:induction false} DecodeList(H: Hasher, n: Node)
    requires Canon(n) && Fits(H, n) && (n.Leaf? || n.Extension? || n.Branch?)
    ensures var m := Decode(Encode(H, n)); m.Some? && !m.value.Null? && !m.value.Digest? && Sparse(H, m.value, n)
    decreases n, 0
  {
    hide Encode, RefOf, RefBytes, KidBytes, PrefixNibs, ToEncodedPath, IsNormal, Items, EncodeString, HeaderBytes;
    hide ParseHeader;
    var payload, items := EncodingItems(H, n);
    var e := Encode(H, n);
    ParseList(payload, []);
    assert e + [] == e;
    var h := ParseHeader(e).value;
    assert e[h.prefix..h.prefix + h.payload] == payload;
    assert h.prefix != 0 by { HeaderNonEmpty(payload); }
    match n
    case Leaf(prefix, value) =>
      DecodeLeaf(prefix, value);
    case Extension(prefix, child) =>
      DecodeExtension(H, prefix, child);
    case Branch(cs) =>
      assert items[..16] == KidItems(H, cs);
      assert items[16] == EMPTY_STRING;
      StringOfEmpty();
      DecodeBranch(H, cs, items[..16], |e|);
  }

  lemma HeaderNonEmpty(payload: seq<byte>)
    ensures |EncodeList(payload)| > |payload|
  {
  }

  lemma DecodeLeaf(prefix: Path, value: Value)
    requires |prefix| < WORD && |value| < WORD && IsNormal(prefix, true)
    ensures DecodePair(EncodeString(prefix), EncodeString(value)) == Some(Leaf(prefix, value))
  {
    hide ParseHeader, EncodeString, PrefixNibs;
    StringOfEncode(prefix);
    StringOfEncode(value);
    LeafBit(PrefixNibs(prefix), true);
  }

  lemma StringOfEmpty()
    ensures StringOf(EMPTY_STRING) == Some([])
  {
    assert EMPTY_STRING[1..1] == [];
  }

  /** The reference of a child is read back as the child or as its digest. */
  lemma {:induction false} DecodeRef(H: Hasher, c: Node)
    requires Canon(c) && Fits(H, c) && !c.Null?
    ensures var m := Decode(RefBytes(H, c)); m.Some? && !m.value.Null? && Sparse(H, m.value, c)
    decreases c, 2
  {
    hide Encode, PrefixNibs, IsNormal;
    match RefOf(H, c)
    case BytesRef(b) => DecodeEncode(H, c);
    case DigestRef(d) =>
      var e := [0xa0] + d;
      assert e[1..33] == d;
  }

  lemma {:induction false} DecodeExtension(H: Hasher, prefix: Path, child: Node)
    requires Canon(Extension(prefix, child)) && Fits(H, child) && |prefix| < WORD
    ensures var m := DecodePair(EncodeString(prefix), RefBytes(H, child));
            m.Some? && m.value.Extension? && Sparse(H, m.value, Extension(prefix, child))
    decreases child, 3
  {
    hide ParseHeader, EncodeString, PrefixNibs, Decode, RefBytes, RefOf, Fits, StringOf, ToEncodedPath;
    StringOfEncode(prefix);
    LeafBit(PrefixNibs(prefix), false);
    DecodeRef(H, child);
  }

  lemma {:induction false} DecodeBranch(H: Hasher, cs: Slots<Node>, items: seq<seq<byte>>, bound: nat)
    requires Canon(Branch(cs)) && Fits(H, Branch(cs)) && items == KidItems(H, cs)
    requires forall i :: 0 <= i < |items| ==> |items[i]| < bound
    ensures var m := DecodeKids(items, bound); m.Some? && Sparse(H, Branch(m.value), Branch(cs))
    decreases cs
  {
    hide Encode, RefOf, RefBytes, PrefixNibs, IsNormal, Decode, DecodeKids;
    forall i: nibble
      ensures DecodeKid(items[i]).Some? && SparseSlot(H, DecodeKid(items[i]).value, cs[i])
    {
      if cs[i].Some? {
        assert Occupied(cs, i);
        DecodeRef(H, cs[i].value);
        RefBytesIsItem(H, cs[i].value);
        RefNotEmpty(H, cs[i].value);
      }
    }
    var m := DecodeKids(items, bound);
    assert m.Some?;
    forall i: nibble ensures SparseSlot(H, m.value[i], cs[i]) {
      assert DecodeKid(items[i]) == Some(m.value[i]);
    }
  }

  lemma RefNotEmpty(H: Hasher, c: Node)
    requires Fits(H, c) && !c.Null?
    ensures RefBytes(H, c) != [] && StringOf(RefBytes(H, c)) != Some([])
  {
    hide Encode;
    RefBytesIsItem(H, c);
  }

  // ----- What decoding guarantees -----

  /** The flag of each path tells leaf from extension, and no slot of a branch holds the empty trie. This is
      all that decoding checks; it is far from canonical form. */
  ghost predicate Tagged(n: Node)
  {
    match n
    case Leaf(prefix, _) => (prefix[0] / 32) % 2 == 1
    case Extension(prefix, child) => (prefix[0] / 32) % 2 == 0 && Tagged(child)
    case Branch(cs) => forall i: nibble :: Occupied(cs, i) ==> !cs[i].value.Null? && Tagged(cs[i].value)
    case _ => true
  }

  /** Whatever bytes are decoded, the node is tagged. */
  lemma {:induction false} DecodeTagged(b: seq<byte>)
    requires Decode(b).Some?
    ensures Tagged(Decode(b).value)
    ensures Decode(b).value.Null? ==> b == [] || StringOf(b) == Some([])
    decreases |b|, 1
  {
    hide ParseHeader, Items;
    if b != [] {
      var h := ParseHeader(b).value;
      if h.list {
        var items := Items(b[h.prefix..h.prefix + h.payload]).value;
        if |items| == 2 {
          PairTagged(items[0], items[1]);
        } else {
          KidsTagged(items[..16], |b|);
        }
      }
    }
  }

  lemma {:induction false} PairTagged(first: seq<byte>, second: seq<byte>)
    requires DecodePair(first, second).Some?
    ensures var n := DecodePair(first, second).value; !n.Null? && Tagged(n)
    decreases |second|, 2
  {
    hide ParseHeader, Items;
    if Decode(second).Some? { DecodeTagged(second); }
  }

  lemma {:induction false} KidsTagged(items: seq<seq<byte>>, bound: nat)
    requires |items| == 16 && forall i :: 0 <= i < |items| ==> |items[i]| < bound
    requires DecodeKids(items, bound).Some?
    ensures Tagged(Branch(DecodeKids(items, bound).value))
    decreases bound, 0
  {
    hide ParseHeader, Items, Decode, DecodeKids;
    var cs: Slots<Node> := DecodeKids(items, bound).value;
    forall i: nibble | Occupied(cs, i) ensures !cs[i].value.Null? && Tagged(cs[i].value) {
      assert DecodeKid(items[i]) == Some(cs[i]);
      DecodeTagged(items[i]);
    }
  }

  lemma {:induction false} CanonTagged(n: Node)
    requires Canon(n)
    ensures Tagged(n)
  {
    hide PrefixNibs, ToEncodedPath;
    match n
    case Leaf(prefix, _) => LeafBit(PrefixNibs(prefix), true);
    case Extension(prefix, child) =>
      LeafBit(PrefixNibs(prefix), false);
      CanonTagged(child);
    case Branch(cs) =>
      forall i: nibble | Occupied(cs, i) ensures !cs[i].value.Null? && Tagged(cs[i].value) {
        CanonTagged(cs[i].value);
      }
    case _ =>
  }

  // ----- What a root hash says -----

  /** Every encoding that is hashed, or could be, somewhere in the trie. */
  ghost function Encodings(H: Hasher, n: Node): set<seq<byte>>
  {
    {Encode(H, n)} +
    match n
    case Extension(_, child) => Encodings(H, child)
    case Branch(cs) => set i: nibble, e | Occupied(cs, i) && e in Encodings(H, cs[i].value) :: e
    case _ => {}
  }

  /** The two tries exhibit no keccak collision. */
  ghost predicate CollisionFree(H: Hasher, p: Node, t: Node)
  {
    forall x, y :: x in Encodings(H, p) && y in Encodings(H, t) && H(x) == H(y) ==> x == y
  }

  /** No collision between the nodes of the two tries, and no encoding too long to count. */
  ghost predicate Distinguished(H: Hasher, p: Node, t: Node)
  {
    Fits(H, p) && Fits(H, t) && CollisionFree(H, p, t)
  }

  lemma {:induction false} TaggedBinds(H: Hasher, p: Node, t: Node)
    requires Tagged(p) && Canon(t) && Full(t) && Fits(H, p) && Fits(H, t) && CollisionFree(H, p, t)
    requires RefOf(H, p) == RefOf(H, t)
    ensures Sparse(H, p, t)
    decreases t, 1
  {
    hide PrefixNibs, IsNormal;
    if !p.Digest? {
      if p.Null? || t.Null? {
        NullReference(H, p);
        NullReference(H, t);
      } else {
        assert Encode(H, p) in Encodings(H, p) && Encode(H, t) in Encodings(H, t);
        assert Encode(H, p) == Encode(H, t);
        EncodingBinds(H, p, t);
      }
    }
  }

  lemma NullReference(H: Hasher, n: Node)
    requires Fits(H, n)
    ensures RefOf(H, n) == BytesRef(EMPTY_STRING) <==> n.Null?
  {
    hide Encode;
    if !n.Null? && !n.Digest? { EncodingIsList(H, n); }
  }

  lemma {:induction false} EncodingBinds(H: Hasher, p: Node, t: Node)
    requires Tagged(p) && Canon(t) && Full(t) && Fits(H, p) && Fits(H, t) && CollisionFree(H, p, t)
    requires !p.Digest? && !p.Null? && !t.Null? && Encode(H, p) == Encode(H, t)
    ensures Sparse(H, p, t)
    decreases t, 0
  {
    hide PrefixNibs, IsNormal, Encode, RefOf, RefBytes, KidBytes, Items, EncodeString;
    var x, xs := EncodingItems(H, p);
    var y, ys := EncodingItems(H, t);
    EncodeListInjective(x, y);
    assert xs == ys;
    match (p, t) {
      case (Leaf(a, v), Leaf(b, w)) =>
        EncodeStringInjective(a, b);
        EncodeStringInjective(v, w);
      case (Extension(a, c), Extension(b, d)) =>
        EncodeStringInjective(a, b);
        NullRef(H, c, d);
        RefBytesInjective(H, c, d);
        TaggedBinds(H, c, d);
      case (Branch(a), Branch(b)) =>
        forall i: nibble ensures SparseSlot(H, a[i], b[i]) {
          assert xs[i] == KidBytes(H, a[i]) && ys[i] == KidBytes(H, b[i]);
          SlotBinds(H, a, b, i);
        }
      case (Leaf(a, _), Extension(b, _)) => EncodeStringInjective(a, b); CanonTagged(t);
      case (Extension(a, _), Leaf(b, _)) => EncodeStringInjective(a, b); CanonTagged(t);
      case _ =>
    }
  }

  lemma NullRef(H: Hasher, c: Node, d: Node)
    requires Fits(H, d) && !d.Null? && RefBytes(H, c) == RefBytes(H, d)
    ensures !c.Null?
  {
    hide Encode;
    RefBytesIsItem(H, d);
  }

  lemma {:induction false} SlotBinds(H: Hasher, a: Slots<Node>, b: Slots<Node>, i: nibble)
    requires Tagged(Branch(a)) && Canon(Branch(b)) && Full(Branch(b))
    requires Fits(H, Branch(a)) && Fits(H, Branch(b)) && CollisionFree(H, Branch(a), Branch(b))
    requires KidBytes(H, a[i]) == KidBytes(H, b[i])
    ensures SparseSlot(H, a[i], b[i])
    decreases b, 0
  {
    hide PrefixNibs, IsNormal, Encode, RefOf, RefBytes;
    if a[i].Some? { assert Occupied(a, i); RefNotEmpty(H, a[i].value); }
    if b[i].Some? { assert Occupied(b, i); RefNotEmpty(H, b[i].value); }
    if a[i].Some? && b[i].Some? {
      RefBytesInjective(H, a[i].value, b[i].value);
      TaggedBinds(H, a[i].value, b[i].value);
    }
  }

  lemma HashOfEncoding(H: Hasher, n: Node)
    requires !n.Digest?
    ensures HashOf(H, n) == H(Encode(H, n))
  {
  }

  /** A trie with the reference of a full trie stands for that trie if and only if it is tagged, unless the two
      exhibit a collision. */
  lemma ReferenceBinds(H: Hasher, p: Node, t: Node)
    requires Canon(t) && Full(t) && Fits(H, p) && Fits(H, t) && CollisionFree(H, p, t)
    requires RefOf(H, p) == RefOf(H, t)
    ensures Sparse(H, p, t) <==> Tagged(p)
  {
    hide Canon, Full, Fits, CollisionFree, Sparse, RefOf, Tagged;
    if Tagged(p) {
      TaggedBinds(H, p, t);
    } else if Sparse(H, p, t) {
      SparseCanon(H, p, t);
      CanonTagged(p);
    }
  }

  /** So does one with its root hash; then every lookup it can answer has the answer of the full trie. */
  lemma RootBinds(H: Hasher, p: Node, t: Node)
    requires Canon(t) && Full(t) && Fits(H, p) && Fits(H, t) && CollisionFree(H, p, t)
    requires !p.Digest? && HashOf(H, p) == HashOf(H, t)
    ensures Sparse(H, p, t) <==> Tagged(p)
  {
    hide Encode, HashOf, Canon, Sparse, Tagged;
    HashOfEncoding(H, p);
    HashOfEncoding(H, t);
    assert Encode(H, p) in Encodings(H, p) && Encode(H, t) in Encodings(H, t);
    SameEncoding(H, p, t);
    ReferenceBinds(H, p, t);
  }

  lemma SameEncoding(H: Hasher, p: Node, t: Node)
    requires Fits(H, p) && Fits(H, t) && !p.Digest? && !t.Digest? && Encode(H, p) == Encode(H, t)
    ensures RefOf(H, p) == RefOf(H, t)
  {
    hide Encode;
    if !p.Null? { EncodingFirst(H, p); }
    if !t.Null? { EncodingFirst(H, t); }
    NullEncoding(H);
  }

  lemma NullEncoding(H: Hasher)
    ensures Encode(H, Null) == EMPTY_STRING
  {
  }
}
