/** Node encodings, references and hashes, and sparse tries as stand-ins for full ones. */
module TrieHash {
  import opened Bytes
  import opened Rlp
  import opened Mpt

  /** keccak256, of which nothing is assumed. */
  type Hasher = seq<byte> -> Bytes32

  /** How a node is referred to from its parent: short encodings inline, longer ones by hash. */
  datatype Reference = BytesRef(bytes: seq<byte>) | DigestRef(digest: Bytes32)

  const EMPTY_STRING: seq<byte> := [0x80]

  function Encode(H: Hasher, n: Node): seq<byte>
    decreases n, 0
  {
    match n
    case Null => EMPTY_STRING
    case Branch(cs) => EncodeList(KidsBytes(H, cs) + EMPTY_STRING)
    case Leaf(prefix, value) => EncodeList(EncodeString(prefix) + EncodeString(value))
    case Extension(prefix, child) => EncodeList(EncodeString(prefix) + RefBytes(H, child))
    case Digest(digest) => [0xa0] + digest
  }

  /** `calc_reference`. */
  function RefOf(H: Hasher, n: Node): Reference
    decreases n, 1
  {
    match n
    case Null => BytesRef(EMPTY_STRING)
    case Digest(digest) => DigestRef(digest)
    case _ =>
      var e := Encode(H, n);
      if |e| < 32 then BytesRef(e) else DigestRef(H(e))
  }

  /** `reference_encode`. */
  function RefBytes(H: Hasher, n: Node): seq<byte>
    decreases n, 2
  {
    match RefOf(H, n)
    case BytesRef(bytes) => bytes
    case DigestRef(digest) => [0xa0] + digest
  }

  function KidBytes(H: Hasher, c: Option<Node>): seq<byte>
    decreases c
  {
    if c.None? then EMPTY_STRING else RefBytes(H, c.value)
  }

  function KidsBytes(H: Hasher, cs: seq<Option<Node>>): seq<byte>
    decreases cs
  {
    if cs == [] then [] else KidBytes(H, cs[0]) + KidsBytes(H, cs[1..])
  }

  /** The root hash. `EMPTY_ROOT` is the keccak of the encoding of the empty node. */
  function HashOf(H: Hasher, n: Node): Bytes32
  {
    match RefOf(H, n)
    case DigestRef(digest) => digest
    case BytesRef(bytes) => H(bytes)
  }

  // ----- Sparse tries -----

  /** `p` is `t` with some hash-referenced subtries replaced by their digests. */
  ghost predicate Sparse(H: Hasher, p: Node, t: Node)
    decreases t
  {
    || (p.Digest? && RefOf(H, t) == DigestRef(p.digest))
    || match (p, t)
       case (Null, Null) => true
       case (Leaf(_, _), Leaf(_, _)) => p == t
       case (Extension(a, c), Extension(b, d)) => a == b && Sparse(H, c, d)
       case (Branch(a), Branch(b)) => forall i: nibble :: SparseSlot(H, a[i], b[i])
       case _ => false
  }

  ghost predicate SparseSlot(H: Hasher, a: Option<Node>, b: Option<Node>)
    decreases b
  {
    a.Some? == b.Some? && (a.Some? ==> Sparse(H, a.value, b.value))
  }

  /** Equal references of the children make equal encodings. */
  lemma {:induction false} KidsAgree(H: Hasher, a: seq<Option<Node>>, b: seq<Option<Node>>)
    requires |a| == |b|
    requires forall i :: 0 <= i < |a| ==> KidBytes(H, a[i]) == KidBytes(H, b[i])
    ensures KidsBytes(H, a) == KidsBytes(H, b)
  {
    if a != [] { KidsAgree(H, a[1..], b[1..]); }
  }

  lemma {:induction false} KidsBytesAppend(H: Hasher, cs: seq<Option<Node>>, c: Option<Node>)
    ensures KidsBytes(H, cs + [c]) == KidsBytes(H, cs) + KidBytes(H, c)
  {
    if cs == [] {
      assert cs + [c] == [c];
    } else {
      KidsBytesAppend(H, cs[1..], c);
      assert (cs + [c])[1..] == cs[1..] + [c];
    }
  }

  /** A sparse trie has the reference, and so the root hash, of the trie it stands for. */
  lemma {:induction false} SparseReference(H: Hasher, p: Node, t: Node)
    requires Sparse(H, p, t)
    ensures RefOf(H, p) == RefOf(H, t)
    ensures HashOf(H, p) == HashOf(H, t)
    decreases t
  {
    match (p, t) {
      case (Extension(_, c), Extension(_, d)) =>
        SparseReference(H, c, d);
        assert RefBytes(H, c) == RefBytes(H, d);
        assert Encode(H, p) == Encode(H, t);
      case (Branch(a), Branch(b)) =>
        forall i: nibble ensures KidBytes(H, a[i]) == KidBytes(H, b[i]) {
          assert SparseSlot(H, a[i], b[i]);
          if a[i].Some? { SparseReference(H, a[i].value, b[i].value); }
        }
        KidsAgree(H, a, b);
      case _ =>
    }
  }

  lemma {:induction false} SparseReflexive(H: Hasher, t: Node)
    ensures Sparse(H, t, t)
  {
    match t
    case Extension(_, c) => SparseReflexive(H, c);
    case Branch(cs) =>
      forall i: nibble ensures SparseSlot(H, cs[i], cs[i]) {
        if cs[i].Some? { SparseReflexive(H, cs[i].value); }
      }
    case _ =>
  }

  lemma {:induction false} SparseTransitive(H: Hasher, p: Node, q: Node, t: Node)
    requires Sparse(H, p, q) && Sparse(H, q, t)
    ensures Sparse(H, p, t)
    decreases t
  {
    SparseReference(H, q, t);
    match (p, q, t) {
      case (Extension(_, a), Extension(_, b), Extension(_, c)) => SparseTransitive(H, a, b, c);
      case (Branch(a), Branch(b), Branch(c)) =>
        forall i: nibble ensures SparseSlot(H, a[i], c[i]) {
          assert SparseSlot(H, a[i], b[i]) && SparseSlot(H, b[i], c[i]);
          if a[i].Some? { SparseTransitive(H, a[i].value, b[i].value, c[i].value); }
        }
      case _ =>
    }
  }
}
