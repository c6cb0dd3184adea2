/** Reading RLP the other way round: whatever header is read, the bytes it speaks of are the ones that would be
    written. */
module RlpExact {
  import opened Bytes
  import opened Rlp

  // ----- What a header says -----

  /** A long length that is read is the one that would be written. */
  lemma LongExact(b: seq<byte>, list: bool, l: nat)
    requires b != [] && 0 < l <= 8 && ParseLong(b, list, l).Some?
    ensures var h := ParseLong(b, list, l).value;
            && h.payload < WORD && h.list == list && h.prefix == 1 + l
            && BigEndian(h.payload) == b[1..1 + l] && h.payload >= 56
  {
    var s := b[1..1 + l];
    assert s[0] == b[1];
    ShortestForm(s);
    FromBigEndianBound(s);
    Pow256Up(l);
    Pow256Values();
  }

  lemma {:induction false} Pow256Up(l: nat)
    requires l <= 8
    ensures Pow256(l) <= Pow256(8)
    decreases 8 - l
  {
    if l < 8 { Pow256Up(l + 1); }
  }

  /** The bytes of the first item. */
  function FirstItem(b: seq<byte>): seq<byte>
    requires ParseHeader(b).Some?
  {
    b[..ParseHeader(b).value.prefix + ParseHeader(b).value.payload]
  }

  function FirstPayload(b: seq<byte>): seq<byte>
    requires ParseHeader(b).Some?
  {
    b[ParseHeader(b).value.prefix..ParseHeader(b).value.prefix + ParseHeader(b).value.payload]
  }

  lemma LongBytes(b: seq<byte>, list: bool, l: nat)
    requires b != [] && 0 < l <= 8 && ParseLong(b, list, l).Some? && b[0] == (if list then 0xf7 else 0xb7) + l
    ensures var h := ParseLong(b, list, l).value;
            var s := b[h.prefix..h.prefix + h.payload];
            h.list == list && 56 <= |s| < WORD && b[..h.prefix + h.payload] == HeaderBytes(list, |s|) + s
  {
    hide ParseLong, BigEndian;
    LongExact(b, list, l);
    var h := ParseLong(b, list, l).value;
    var s := b[h.prefix..h.prefix + h.payload];
    assert b[..h.prefix + h.payload] == [b[0]] + b[1..h.prefix] + s;
  }

  lemma ShortBytes(b: seq<byte>, list: bool, n: nat)
    requires n < 56 && |b| >= 1 + n && b[0] == (if list then 0xc0 else 0x80) + n
    ensures b[..1 + n] == HeaderBytes(list, n) + b[1..1 + n]
  {
  }

  /** Whatever header is read, the bytes it speaks of are the encoding of their payload. */
  lemma HeaderExact(b: seq<byte>)
    requires ParseHeader(b).Some?
    ensures |FirstPayload(b)| < WORD
    ensures FirstItem(b)
         == if ParseHeader(b).value.list then EncodeList(FirstPayload(b)) else EncodeString(FirstPayload(b))
  {
    hide ParseLong, HeaderBytes;
    if 0xb7 < b[0] <= 0xbf {
      LongBytes(b, false, b[0] as int - 0xb7);
    } else if 0xf7 < b[0] {
      LongBytes(b, true, b[0] as int - 0xf7);
    } else if b[0] >= 0xc0 {
      ShortBytes(b, true, b[0] as int - 0xc0);
    } else if b[0] >= 0x80 {
      ShortBytes(b, false, b[0] as int - 0x80);
    } else {
      assert FirstItem(b) == FirstPayload(b);
    }
  }

  /** So those bytes are one item. */
  lemma FirstIsItem(b: seq<byte>)
    requires ParseHeader(b).Some?
    ensures IsItem(FirstItem(b)) && ParseHeader(FirstItem(b)) == ParseHeader(b)
  {
    hide ParseHeader, EncodeList, EncodeString;
    HeaderExact(b);
    var h, x, s := ParseHeader(b).value, FirstItem(b), FirstPayload(b);
    if h.list { ParseList(s, []); } else { ParseString(s, []); }
    assert x + [] == x;
  }

  /** A string that is read is the string that was written. */
  lemma StringOfExact(item: seq<byte>)
    requires IsItem(item) && StringOf(item).Some?
    ensures var s := StringOf(item).value; |s| < WORD && item == EncodeString(s)
  {
    hide ParseHeader, EncodeString;
    HeaderExact(item);
    assert FirstItem(item) == item;
  }

  function Joined(items: seq<seq<byte>>): seq<byte>
  {
    if items == [] then [] else items[0] + Joined(items[1..])
  }

  /** The items that are read are all there is, and each is complete. */
  lemma {:induction false} ItemsExact(b: seq<byte>)
    requires Items(b).Some?
    ensures Joined(Items(b).value) == b
    ensures forall i :: 0 <= i < |Items(b).value| ==> IsItem(Items(b).value[i])
    decreases |b|
  {
    hide ParseHeader, IsItem;
    if b != [] {
      var first := FirstItem(b);
      FirstIsItem(b);
      ItemsExact(b[|first|..]);
      assert Items(b).value[1..] == Items(b[|first|..]).value;
      assert b == first + b[|first|..];
    }
  }

  lemma {:induction false} JoinedSplit(xs: seq<seq<byte>>, y: seq<byte>)
    ensures Joined(xs + [y]) == Joined(xs) + y
  {
    if xs == [] {
      assert xs + [y] == [y] && [y][1..] == [] && Joined([y]) == y + Joined([]);
    } else {
      JoinedSplit(xs[1..], y);
      assert (xs + [y])[1..] == xs[1..] + [y];
    }
  }

  lemma JoinedTwo(items: seq<seq<byte>>)
    requires |items| == 2
    ensures Joined(items) == items[0] + items[1]
  {
    JoinedSplit(items[..1], items[1]);
    assert items[..1] + [items[1]] == items && items[..1][1..] == [] && Joined(items[..1]) == items[0];
  }
}
