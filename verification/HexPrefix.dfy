/** Nibble paths and the hex-prefix encoding (Yellow Paper, Appendix C). */
module HexPrefix {
  import opened Bytes

  // ----- Specification functions -----

  /** Each byte split into its high and its low nibble. */
  function Nibbles(s: seq<byte>): (r: seq<nibble>)
    ensures |r| == 2 * |s|
  {
    if s == [] then [] else [s[0] / 16, s[0] % 16] + Nibbles(s[1..])
  }

  /** Pairs of nibbles joined to bytes; a trailing single nibble is dropped (`chunks_exact`). */
  function Pack(nibs: seq<nibble>): (r: seq<byte>)
    ensures |r| == |nibs| / 2
  {
    if |nibs| < 2 then [] else [nibs[0] as int * 16 + nibs[1]] + Pack(nibs[2..])
  }

  type Path = p: seq<byte> | |p| > 0 witness [0]

  function ToEncodedPath(nibs: seq<nibble>, isLeaf: bool): Path
  {
    var flag: byte := if isLeaf then 0x20 else 0;
    if |nibs| % 2 == 1 then
      [flag + 0x10 + nibs[0]] + Pack(nibs[1..])
    else
      [flag] + Pack(nibs)
  }

  function PrefixNibs(prefix: Path): seq<nibble>
  {
    (if (prefix[0] / 16) % 2 == 1 then [prefix[0] % 16] else []) + Nibbles(prefix[1..])
  }

  /** The path is the one the encoder itself would write. */
  predicate IsNormal(prefix: Path, isLeaf: bool)
  {
    prefix == ToEncodedPath(PrefixNibs(prefix), isLeaf)
  }

  /** Length of the longest common prefix. */
  function Lcp(a: seq<nibble>, b: seq<nibble>): (r: nat)
    ensures r <= |a| && r <= |b|
    ensures a[..r] == b[..r]
    ensures r < |a| && r < |b| ==> a[r] != b[r]
  {
    if a == [] || b == [] || a[0] != b[0] then 0 else
      var r := 1 + Lcp(a[1..], b[1..]);
      assert a[..r] == [a[0]] + a[1..][..r - 1];
      assert b[..r] == [b[0]] + b[1..][..r - 1];
      r
  }

  // ----- Round trips -----

  lemma {:induction false} NibblesOfPack(nibs: seq<nibble>)
    requires |nibs| % 2 == 0
    ensures Nibbles(Pack(nibs)) == nibs
  {
    if nibs != [] {
      NibblesOfPack(nibs[2..]);
      assert Pack(nibs)[1..] == Pack(nibs[2..]);
    }
  }

  lemma {:induction false} PackOfNibbles(s: seq<byte>)
    ensures Pack(Nibbles(s)) == s
  {
    if s != [] {
      PackOfNibbles(s[1..]);
      assert Nibbles(s)[2..] == Nibbles(s[1..]);
    }
  }

  /** `prefix_nibs` undoes `to_encoded_path`. */
  lemma PathRoundTrip(nibs: seq<nibble>, isLeaf: bool)
    ensures PrefixNibs(ToEncodedPath(nibs, isLeaf)) == nibs
    ensures IsNormal(ToEncodedPath(nibs, isLeaf), isLeaf)
  {
    var p := ToEncodedPath(nibs, isLeaf);
    if |nibs| % 2 == 1 {
      NibblesOfPack(nibs[1..]);
      assert p[1..] == Pack(nibs[1..]);
    } else {
      NibblesOfPack(nibs);
      assert p[1..] == Pack(nibs);
    }
  }

  /** The leaf bit of the first byte tells a normal leaf path from a normal extension path. */
  lemma LeafBit(nibs: seq<nibble>, isLeaf: bool)
    ensures ((ToEncodedPath(nibs, isLeaf)[0] / 16) / 2) % 2 == (if isLeaf then 1 else 0)
  {
  }

  lemma {:induction false} NibblesPrefix(a: seq<byte>, b: seq<byte>)
    ensures Nibbles(a) <= Nibbles(b) <==> a <= b
  {
    if a != [] && b != [] {
      NibblesPrefix(a[1..], b[1..]);
      var na, nb := Nibbles(a), Nibbles(b);
      assert na[2..] == Nibbles(a[1..]) && nb[2..] == Nibbles(b[1..]);
      if na <= nb {
        assert na[0] == nb[0] && na[1] == nb[1];
        assert na[2..] == nb[2..][..|na| - 2];
        assert a == [a[0]] + a[1..] && b == [b[0]] + b[1..];
      }
      if a <= b {
        assert a[1..] <= b[1..];
        assert na == [na[0], na[1]] + na[2..] && nb == [nb[0], nb[1]] + nb[2..];
      }
    }
  }

  // ----- The loops of the source -----

  method ToNibs(slice: seq<byte>) returns (result: seq<nibble>)
    ensures result == Nibbles(slice)
    ensures Pack(result) == slice
  {
    result := [];
    for i := 0 to |slice|
      invariant result + Nibbles(slice[i..]) == Nibbles(slice)
    {
      assert slice[i..][1..] == slice[i + 1..];
      result := result + [slice[i] / 16];
      result := result + [slice[i] % 16];
    }
    PackOfNibbles(slice);
  }

  method PrefixNibsLoop(prefix: Path) returns (result: seq<nibble>)
    ensures result == PrefixNibs(prefix)
  {
    var extension, tail := prefix[0], prefix[1..];
    result := [];
    if (extension / 16) % 2 == 1 {
      result := result + [extension % 16];
    }
    assert result + Nibbles(tail[0..]) == PrefixNibs(prefix) by { assert tail[0..] == tail; }
    for i := 0 to |tail|
      invariant result + Nibbles(tail[i..]) == PrefixNibs(prefix)
    {
      hide PrefixNibs;
      assert Nibbles(tail[i..]) == [tail[i] / 16, tail[i] % 16] + Nibbles(tail[i + 1..]) by {
        assert tail[i..][1..] == tail[i + 1..];
      }
      result := result + [tail[i] / 16];
      result := result + [tail[i] % 16];
    }
  }

  method LcpLoop(a: seq<nibble>, b: seq<nibble>) returns (r: nat)
    ensures r == Lcp(a, b)
  {
    var n := if |a| < |b| then |a| else |b|;
    for i := 0 to n
      invariant Lcp(a, b) == i + Lcp(a[i..], b[i..])
    {
      if a[i] != b[i] {
        return i;
      }
      assert a[i..][1..] == a[i + 1..] && b[i..][1..] == b[i + 1..];
    }
    return n;
  }
}
