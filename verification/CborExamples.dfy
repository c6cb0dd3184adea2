/** Encodings against the examples of RFC 8949, Appendix A. */
module CborExamples {
  import opened Bytes
  import opened Cbor

  function Small(n: nat): Enc
  {
    Num(0, W0, n)
  }

  function Byte(s: Bs): Chunk
  {
    Chunk(W0, s)
  }

  lemma Numbers()
    ensures Encoded(Num(0, W0, 23)) == [0x17] && Encoded(Num(0, W1, 24)) == [0x18, 0x18]
    ensures Encoded(Num(0, W2, 1000)) == [0x19, 0x03, 0xe8]
    ensures Encoded(Num(0, W4, 1000000)) == [0x1a, 0x00, 0x0f, 0x42, 0x40]
    ensures Encoded(Num(1, W0, 9)) == [0x29] && Encoded(Num(7, W0, 20)) == [0xf4]
  {
    Pow256Values();
    assert ToBeBytes(24, 1) == [0x18];
    assert ToBeBytes(3, 1) == [0x03] && ToBeBytes(1000, 2) == [0x03, 0xe8];
    assert ToBeBytes(0, 1) == [0x00] && ToBeBytes(15, 2) == [0x00, 0x0f];
    assert ToBeBytes(3906, 3) == [0x00, 0x0f, 0x42] && ToBeBytes(1000000, 4) == [0x00, 0x0f, 0x42, 0x40];
  }

  lemma Wide()
    ensures 1000000000000 < Pow256(8)
    ensures Encoded(Num(0, W8, 1000000000000)) == [0x1b, 0x00, 0x00, 0x00, 0xe8, 0xd4, 0xa5, 0x10, 0x00]
  {
    Pow256Values();
    assert ToBeBytes(0, 3) == [0x00, 0x00, 0x00] by { assert ToBeBytes(0, 2) == [0x00, 0x00]; }
    assert ToBeBytes(232, 4) == [0x00, 0x00, 0x00, 0xe8] && ToBeBytes(59604, 5) == [0x00, 0x00, 0x00, 0xe8, 0xd4];
    assert ToBeBytes(15258789, 6) == [0x00, 0x00, 0x00, 0xe8, 0xd4, 0xa5];
    assert ToBeBytes(3906250000, 7) == [0x00, 0x00, 0x00, 0xe8, 0xd4, 0xa5, 0x10];
  }

  lemma Strings()
    ensures Encoded(Str(2, Whole(Byte([1, 2, 3, 4])))) == [0x44, 1, 2, 3, 4]
    ensures Encoded(Str(3, Whole(Byte(Ascii("IETF"))))) == [0x64, 0x49, 0x45, 0x54, 0x46]
  {
    assert Ascii("IETF") == [0x49, 0x45, 0x54, 0x46];
  }

  lemma Chunked()
    ensures Encoded(Str(2, Pieces([Byte([1, 2]), Byte([3, 4, 5])]))) == [0x5f, 0x42, 1, 2, 0x43, 3, 4, 5, 0xff]
  {
    var cs := [Byte([1, 2]), Byte([3, 4, 5])];
    assert cs[1..] == [Byte([3, 4, 5])] && cs[1..][1..] == [];
    assert ChunkBytes(2, Byte([1, 2])) == [0x42, 1, 2] && ChunkBytes(2, Byte([3, 4, 5])) == [0x43, 3, 4, 5];
    hide ChunkBytes;
    assert PiecesBytes(2, cs[1..]) == [0x43, 3, 4, 5] + BREAK;
    assert PiecesBytes(2, cs) == [0x42, 1, 2] + PiecesBytes(2, cs[1..]);
  }

  lemma Two(a: Enc, b: Enc)
    requires WellEncoded(a) && WellEncoded(b)
    ensures EncodedAll([a, b]) == Encoded(a) + Encoded(b)
  {
    hide Encoded, WellEncoded;
    assert [a, b][1..] == [b] && [b][1..] == [];
    assert EncodedAll([b]) == Encoded(b) + EncodedAll([]) == Encoded(b);
  }

  lemma Containers()
    ensures Encoded(Arr(Some(W0), [Small(2), Small(3)])) == [0x82, 0x02, 0x03]
    ensures Encoded(Arr(None, [Small(4), Small(5)])) == [0x9f, 0x04, 0x05, 0xff]
    ensures Encoded(Dict(Some(W0), [Small(1), Small(2)])) == [0xa1, 0x01, 0x02]
    ensures Encoded(Dict(None, [Small(1), Small(2)])) == [0xbf, 0x01, 0x02, 0xff]
  {
    Two(Small(2), Small(3));
    Two(Small(4), Small(5));
    Two(Small(1), Small(2));
  }
}
