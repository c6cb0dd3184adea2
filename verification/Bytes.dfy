/** Bytes, nibbles, 32-byte hashes and the small wrappers every other module uses. */
module Bytes {

  type byte = x: int | 0 <= x < 256
  type nibble = x: int | 0 <= x < 16
  type Bytes32 = s: seq<byte> | |s| == 32 witness seq(32, _ => 0 as byte)

  datatype Option<+T> = None | Some(value: T)

  /** All its bytes are zero. */
  predicate AllZero(d: Bytes32)
  {
    forall i :: 0 <= i < 32 ==> d[i] == 0
  }

  /** Minimal big-endian representation; zero is the empty sequence. */
  function BigEndian(n: nat): (s: seq<byte>)
    ensures n == 0 <==> s == []
    ensures s != [] ==> s[0] != 0
  {
    if n == 0 then [] else BigEndian(n / 256) + [n % 256]
  }

  function FromBigEndian(s: seq<byte>): nat
  {
    if s == [] then 0 else FromBigEndian(s[..|s| - 1]) * 256 + s[|s| - 1]
  }

  lemma {:induction false} BigEndianRoundTrip(n: nat)
    ensures FromBigEndian(BigEndian(n)) == n
  {
    if n != 0 {
      BigEndianRoundTrip(n / 256);
      assert BigEndian(n)[..|BigEndian(n)| - 1] == BigEndian(n / 256);
    }
  }

  function Pow256(k: nat): (r: nat)
    ensures r >= 1
  {
    if k == 0 then 1 else 256 * Pow256(k - 1)
  }

  /** A number below 256^k needs at most k bytes. */
  lemma {:induction false} BigEndianSize(n: nat, k: nat)
    requires n < Pow256(k)
    ensures |BigEndian(n)| <= k
  {
    if n != 0 {
      BigEndianSize(n / 256, k - 1);
    }
  }

  /** Fixed-width big-endian: the `to_be_bytes` of an unsigned integer of k bytes. */
  function ToBeBytes(n: nat, k: nat): (s: seq<byte>)
    ensures |s| == k
  {
    if k == 0 then [] else ToBeBytes(n / 256, k - 1) + [n % 256]
  }

  lemma {:induction false} ToBeBytesRoundTrip(n: nat, k: nat)
    requires n < Pow256(k)
    ensures FromBigEndian(ToBeBytes(n, k)) == n
  {
    if k != 0 {
      ToBeBytesRoundTrip(n / 256, k - 1);
      assert ToBeBytes(n, k)[..k - 1] == ToBeBytes(n / 256, k - 1);
    }
  }

  lemma {:induction false} FromBigEndianBound(s: seq<byte>)
    ensures FromBigEndian(s) < Pow256(|s|)
  {
    if s != [] { FromBigEndianBound(s[..|s| - 1]); }
  }

  /** Bytes without a leading zero are the shortest form of the number they stand for. */
  lemma {:induction false} ShortestForm(s: seq<byte>)
    requires s != [] ==> s[0] != 0
    ensures BigEndian(FromBigEndian(s)) == s
  {
    if s != [] {
      var front := s[..|s| - 1];
      ShortestForm(front);
      assert front != [] ==> front[0] == s[0];
      assert FromBigEndian(s) / 256 == FromBigEndian(front) && FromBigEndian(s) % 256 == s[|s| - 1];
    }
  }

  lemma {:induction false} FixedForm(s: seq<byte>)
    ensures ToBeBytes(FromBigEndian(s), |s|) == s
  {
    if s != [] {
      var front := s[..|s| - 1];
      FixedForm(front);
      assert FromBigEndian(s) / 256 == FromBigEndian(front) && FromBigEndian(s) % 256 == s[|s| - 1];
    }
  }

  lemma Pow256Values()
    ensures Pow256(1) == 0x100
    ensures Pow256(2) == 0x1_0000
    ensures Pow256(4) == 0x1_0000_0000
    ensures Pow256(8) == 0x1_0000_0000_0000_0000
  {
    assert Pow256(3) == 0x100_0000;
    assert Pow256(6) == 256 * 256 * Pow256(4);
  }
}
