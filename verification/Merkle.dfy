/** Two implementations of one Merkle root, and what the root commits to. */
module Merkle {
  import opened Bytes

  type Hasher = seq<byte> -> Bytes32
  type Hashes = seq<Bytes32>

  function PairHash(H: Hasher, a: Bytes32, b: Bytes32): Bytes32
  {
    H(a + b)
  }

  // ----- The reference definition -----

  /** Neighbours hashed in pairs; an odd last element is hashed with itself. */
  function NextLayer(H: Hasher, s: Hashes): (r: Hashes)
    ensures |r| == (|s| + 1) / 2
  {
    if s == [] then []
    else if |s| == 1 then [PairHash(H, s[0], s[0])]
    else [PairHash(H, s[0], s[1])] + NextLayer(H, s[2..])
  }

  function Root(H: Hasher, s: Hashes): Bytes32
    requires s != []
    decreases |s|
  {
    if |s| == 1 then s[0] else Root(H, NextLayer(H, s))
  }

  /** The bytes hashed for element `i` of the next layer. */
  function PairInput(s: Hashes, i: nat): seq<byte>
    requires 2 * i < |s|
  {
    var a, b: seq<byte> := s[2 * i], if 2 * i + 1 < |s| then s[2 * i + 1] else s[2 * i];
    a + b
  }

  lemma {:induction false} NextLayerAt(H: Hasher, s: Hashes, i: nat)
    requires 2 * i < |s|
    ensures NextLayer(H, s)[i] == H(PairInput(s, i))
  {
    if i > 0 {
      NextLayerAt(H, s[2..], i - 1);
      assert PairInput(s[2..], i - 1) == PairInput(s, i);
    }
  }

  // ----- The tree, node by node -----

  /** How many nodes there are `d` levels above `n` leaves. */
  function Width(n: nat, d: nat): nat
  {
    if d == 0 then n else (Width(n, d - 1) + 1) / 2
  }

  /** The right child of node `i`, when there are this many nodes a level below: its left child's neighbour, or the
      left child itself if it has none. */
  function RightChild(width: nat, i: nat): (r: nat)
    requires 2 * i < width
    ensures r < width
  {
    if 2 * i + 1 < width then 2 * i + 1 else 2 * i
  }

  /** Node `i` at level `d`: a leaf, or the hash of its left child followed by its right child. */
  function NodeAt(H: Hasher, s: Hashes, d: nat, i: nat): Bytes32
    requires i < Width(|s|, d)
    decreases d
  {
    if d == 0 then s[i] else
      var left: seq<byte> := NodeAt(H, s, d - 1, 2 * i);
      var right: seq<byte> := NodeAt(H, s, d - 1, RightChild(Width(|s|, d - 1), i));
      H(left + right)
  }

  lemma {:induction false} WidthAbove(n: nat, d: nat)
    ensures Width((n + 1) / 2, d) == Width(n, d + 1)
  {
    if d > 0 { WidthAbove(n, d - 1); }
  }

  lemma {:induction false} NodeAbove(H: Hasher, s: Hashes, d: nat, i: nat)
    requires i < Width(|s|, d + 1)
    ensures i < Width(|NextLayer(H, s)|, d) && NodeAt(H, NextLayer(H, s), d, i) == NodeAt(H, s, d + 1, i)
  {
    WidthAbove(|s|, d);
    if d == 0 {
      FirstNode(H, s, i);
    } else {
      WidthAbove(|s|, d - 1);
      assert 2 * i < Width(|s|, d);
      hide NextLayer, Width;
      NodeAbove(H, s, d - 1, 2 * i);
      NodeAbove(H, s, d - 1, RightChild(Width(|s|, d), i));
    }
  }

  lemma FirstNode(H: Hasher, s: Hashes, i: nat)
    requires 2 * i < |s|
    ensures NextLayer(H, s)[i] == NodeAt(H, s, 1, i)
  {
    hide NextLayer;
    NextLayerAt(H, s, i);
    assert Width(|s|, 0) == |s|;
  }

  /** The root is the one node of the first level that has only one. */
  lemma {:induction false} RootIsTop(H: Hasher, s: Hashes, d: nat)
    requires s != [] && Width(|s|, d) == 1 && (d > 0 ==> Width(|s|, d - 1) > 1)
    ensures Root(H, s) == NodeAt(H, s, d, 0)
    decreases |s|
  {
    if d == 0 {
    } else if |s| == 1 {
      OneLeaf(d - 1);
    } else {
      hide NextLayer;
      WidthAbove(|s|, d - 1);
      if d > 1 { WidthAbove(|s|, d - 2); }
      RootIsTop(H, NextLayer(H, s), d - 1);
      NodeAbove(H, s, d - 1, 0);
    }
  }

  lemma {:induction false} OneLeaf(d: nat)
    ensures Width(1, d) == 1
  {
    if d > 0 { OneLeaf(d - 1); }
  }

  // ----- events_hash.rs: in place -----

  /** One pass: the first half of the vector becomes the next layer while the second half is still
      being read. */
  method HashPairsInPlace(H: Hasher, input: Hashes) returns (leaves: Hashes)
    requires |input| % 2 == 0
    ensures leaves == NextLayer(H, input)
  {
    leaves := input;
    for i := 0 to |input| / 2
      invariant |leaves| == |input|
      invariant forall j :: 0 <= j < i ==> leaves[j] == NextLayer(H, input)[j]
      invariant forall j :: i <= j < |input| ==> leaves[j] == input[j]
    {
      NextLayerAt(H, input, i);
      leaves := leaves[i := PairHash(H, leaves[i * 2], leaves[i * 2 + 1])];
    }
    leaves := leaves[..|leaves| / 2];
  }

  method MerkleRoot(H: Hasher, input: Hashes) returns (root: Bytes32)
    ensures root == if input == [] then H([]) else Root(H, input)
  {
    if input == [] {
      return H([]);
    }
    hide NextLayer;
    var leaves := input;
    while |leaves| > 1
      invariant leaves != [] && Root(H, leaves) == Root(H, input)
      decreases |leaves|
    {
      assert Root(H, leaves) == Root(H, NextLayer(H, leaves));
      if |leaves| % 2 == 1 {
        DuplicateLast(H, leaves);
        leaves := leaves + [leaves[|leaves| - 1]];
      }
      assert Root(H, NextLayer(H, leaves)) == Root(H, input);
      leaves := HashPairsInPlace(H, leaves);
    }
    root := leaves[0];
  }

  // ----- nitro/mod.rs: layer by layer -----

  method HashChunks(H: Hasher, layer: Hashes) returns (next: Hashes)
    ensures next == NextLayer(H, layer)
  {
    next := [];
    var at := 0;
    while at < |layer|
      invariant 0 <= at <= |layer| && next + NextLayer(H, layer[at..]) == NextLayer(H, layer)
    {
      if at + 1 < |layer| {
        assert layer[at..][2..] == layer[at + 2..];
        next := next + [PairHash(H, layer[at], layer[at + 1])];
        at := at + 2;
      } else {
        assert layer[at..] == [layer[at]] && layer[|layer|..] == [];
        next := next + [PairHash(H, layer[at], layer[at])];
        at := |layer|;
      }
    }
    assert layer[at..] == [];
  }

  method CalculateMerkleRoot(H: Hasher, leaves: Hashes) returns (root: Option<Bytes32>)
    ensures root == if leaves == [] then None else Some(Root(H, leaves))
  {
    if leaves == [] {
      return None;
    }
    if |leaves| == 1 {
      return Some(leaves[0]);
    }
    var layer := HashChunks(H, leaves);
    while |layer| > 1
      invariant layer != [] && Root(H, layer) == Root(H, leaves)
      decreases |layer|
    {
      layer := HashChunks(H, layer);
    }
    root := Some(layer[0]);
  }

  // ----- What the root says -----

  /** Repeating the last of an odd number of elements does not change the next layer, so the root
      does not tell such lists apart. */
  lemma {:induction false} DuplicateLast(H: Hasher, s: Hashes)
    requires |s| % 2 == 1
    ensures NextLayer(H, s + [s[|s| - 1]]) == NextLayer(H, s)
    decreases |s|
  {
    var t := s + [s[|s| - 1]];
    if |s| == 1 {
      assert t[2..] == [];
    } else {
      DuplicateLast(H, s[2..]);
      assert t[2..] == s[2..] + [s[|s| - 1]];
    }
  }

  /** The inputs hashed to form the next layer. */
  ghost function LayerInputs(s: Hashes): set<seq<byte>>
  {
    set i | 0 <= i < (|s| + 1) / 2 :: PairInput(s, i)
  }

  /** All inputs hashed on the way to the root. */
  ghost function Inputs(H: Hasher, s: Hashes): set<seq<byte>>
    decreases |s|
  {
    if |s| <= 1 then {} else LayerInputs(s) + Inputs(H, NextLayer(H, s))
  }

  ghost predicate CollisionFree(H: Hasher, xs: set<seq<byte>>, ys: set<seq<byte>>)
  {
    forall x, y :: x in xs && y in ys && H(x) == H(y) ==> x == y
  }

  lemma PairSame(s: Hashes, t: Hashes, i: nat)
    requires |s| == |t| && i < (|s| + 1) / 2 && PairInput(s, i) == PairInput(t, i)
    ensures s[2 * i] == t[2 * i] && (2 * i + 1 < |s| ==> s[2 * i + 1] == t[2 * i + 1])
  {
    var x := PairInput(s, i);
    assert x[..32] == s[2 * i] && x[..32] == t[2 * i];
    assert 2 * i + 1 < |s| ==> x[32..] == s[2 * i + 1] && x[32..] == t[2 * i + 1];
  }

  lemma PairAt(H: Hasher, s: Hashes, t: Hashes, i: nat)
    requires |s| == |t| && CollisionFree(H, LayerInputs(s), LayerInputs(t)) && NextLayer(H, s) == NextLayer(H, t)
    requires i < (|s| + 1) / 2
    ensures s[2 * i] == t[2 * i] && (2 * i + 1 < |s| ==> s[2 * i + 1] == t[2 * i + 1])
  {
    hide NextLayer, PairInput;
    NextLayerAt(H, s, i);
    NextLayerAt(H, t, i);
    assert PairInput(s, i) in LayerInputs(s) && PairInput(t, i) in LayerInputs(t);
    PairSame(s, t, i);
  }

  lemma LayerInjective(H: Hasher, s: Hashes, t: Hashes)
    requires |s| == |t| && CollisionFree(H, LayerInputs(s), LayerInputs(t)) && NextLayer(H, s) == NextLayer(H, t)
    ensures s == t
  {
    hide NextLayer, CollisionFree, LayerInputs;
    forall i | 0 <= i < |s| ensures s[i] == t[i] {
      assert i == 2 * (i / 2) || i == 2 * (i / 2) + 1;
      PairAt(H, s, t, i / 2);
    }
  }

  /** Lists of one length with equal roots are equal, unless the two exhibit a collision. */
  lemma {:induction false} RootInjective(H: Hasher, s: Hashes, t: Hashes)
    requires s != [] && |s| == |t| && Root(H, s) == Root(H, t)
    requires CollisionFree(H, Inputs(H, s), Inputs(H, t))
    ensures s == t
    decreases |s|
  {
    if |s| > 1 {
      RootInjective(H, NextLayer(H, s), NextLayer(H, t));
      LayerInjective(H, s, t);
    }
  }
}
