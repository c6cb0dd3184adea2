/** Recursive length prefix (Yellow Paper, Appendix B): headers, strings and lists.

    `HeaderBytes`, `EncodeString` and `ParseHeader` stand for `alloy_rlp::Header::encode`,
    `<[u8]>::encode` and `alloy_rlp::Header::decode`. */
module Rlp {
  import opened Bytes

  /** Payload lengths are machine words. */
  const WORD: nat := 0x1_0000_0000_0000_0000

  function HeaderBytes(list: bool, length: nat): (s: seq<byte>)
    ensures |s| == LengthOfLength(length)
  {
    if length < 56 then
      [(if list then 0xc0 else 0x80) + length]
    else
      var be := BigEndian(length);
      [((if list then 0xf7 else 0xb7) + |be|) % 256] + be
  }

  /** `alloy_rlp::length_of_length`. */
  function LengthOfLength(length: nat): nat
  {
    if length < 56 then 1 else 1 + |BigEndian(length)|
  }

  function EncodeString(s: seq<byte>): (r: seq<byte>)
    ensures |r| == StringLength(s)
  {
    if |s| == 1 && s[0] < 0x80 then s else HeaderBytes(false, |s|) + s
  }

  /** The `length()` of a byte slice: what its encoding will take. */
  function StringLength(s: seq<byte>): nat
  {
    if |s| == 1 && s[0] < 0x80 then 1 else |s| + LengthOfLength(|s|)
  }

  function EncodeList(payload: seq<byte>): seq<byte>
  {
    HeaderBytes(true, |payload|) + payload
  }

  /** `prefix` header bytes, then `payload` bytes of content. */
  datatype Header = Header(list: bool, prefix: nat, payload: nat)

  function ParseHeader(b: seq<byte>): (h: Option<Header>)
    ensures h.Some? ==> h.value.prefix + h.value.payload <= |b| && 0 < h.value.prefix + h.value.payload
  {
    if b == [] then None
    else if b[0] < 0x80 then Some(Header(false, 0, 1))
    else if b[0] <= 0xb7 then
      var n := b[0] as int - 0x80;
      if |b| < 1 + n || (n == 1 && b[1] < 0x80) then None else Some(Header(false, 1, n))
    else if b[0] <= 0xbf then ParseLong(b, false, b[0] as int - 0xb7)
    else if b[0] <= 0xf7 then
      var n := b[0] as int - 0xc0;
      if |b| < 1 + n then None else Some(Header(true, 1, n))
    else ParseLong(b, true, b[0] as int - 0xf7)
  }

  /** A length of `lenOfLen` bytes follows the first byte; it must be minimal and at least 56. */
  function ParseLong(b: seq<byte>, list: bool, lenOfLen: nat): (h: Option<Header>)
    requires b != [] && lenOfLen > 0
    ensures h.Some? ==> h.value.prefix + h.value.payload <= |b|
  {
    if |b| < 1 + lenOfLen || b[1] == 0 then None else
      var n := FromBigEndian(b[1..1 + lenOfLen]);
      if n < 56 || |b| < 1 + lenOfLen + n then None else Some(Header(list, 1 + lenOfLen, n))
  }

  /** The bytes are one complete item. */
  predicate IsItem(e: seq<byte>)
  {
    ParseHeader(e).Some? && ParseHeader(e).value.prefix + ParseHeader(e).value.payload == |e|
  }

  // ----- Reading back what was written -----

  lemma ParseHeaderBytes(list: bool, payload: seq<byte>, rest: seq<byte>)
    requires |payload| < WORD
    requires !list && |payload| == 1 ==> payload[0] >= 0x80
    ensures ParseHeader(HeaderBytes(list, |payload|) + payload + rest)
         == Some(Header(list, LengthOfLength(|payload|), |payload|))
  {
    if |payload| < 56 {
      var b := HeaderBytes(list, |payload|) + payload + rest;
      assert |payload| == 1 ==> b[1] == payload[0];
    } else {
      ParseLongHeader(list, |payload|, payload + rest);
      assert HeaderBytes(list, |payload|) + payload + rest
          == HeaderBytes(list, |payload|) + (payload + rest);
    }
  }

  lemma ParseLongHeader(list: bool, n: nat, tail: seq<byte>)
    requires 56 <= n < WORD && n <= |tail|
    ensures ParseHeader(HeaderBytes(list, n) + tail) == Some(Header(list, LengthOfLength(n), n))
  {
    hide FromBigEndian;
    var be := BigEndian(n);
    Pow256Values();
    BigEndianSize(n, 8);
    BigEndianRoundTrip(n);
    var b := HeaderBytes(list, n) + tail;
    var code := if list then 0xf7 else 0xb7;
    assert b[0] == code + |be| && b[1] == be[0];
    assert b[1..1 + |be|] == be;
    assert ParseLong(b, list, |be|) == Some(Header(list, 1 + |be|, n));
  }

  lemma ParseString(s: seq<byte>, rest: seq<byte>)
    requires |s| < WORD
    ensures var e := EncodeString(s);
            && ParseHeader(e + rest) == Some(Header(false, |e| - |s|, |s|))
            && IsItem(e) && e[|e| - |s|..] == s
  {
    var e := EncodeString(s);
    if !(|s| == 1 && s[0] < 0x80) {
      ParseHeaderBytes(false, s, rest);
      ParseHeaderBytes(false, s, []);
      assert e + [] == e;
    }
  }

  lemma ParseList(payload: seq<byte>, rest: seq<byte>)
    requires |payload| < WORD
    ensures var e := EncodeList(payload);
            && ParseHeader(e + rest) == Some(Header(true, |e| - |payload|, |payload|))
            && IsItem(e) && e[|e| - |payload|..] == payload
  {
    ParseHeaderBytes(true, payload, rest);
    ParseHeaderBytes(true, payload, []);
    assert EncodeList(payload) + [] == EncodeList(payload);
  }

  /** What follows an item does not change how it is read. */
  lemma ParseExtend(e: seq<byte>, rest: seq<byte>)
    requires IsItem(e)
    ensures ParseHeader(e + rest) == ParseHeader(e)
  {
    var b := e + rest;
    assert b[0] == e[0];
    if 0xb7 < e[0] <= 0xbf || 0xf7 < e[0] {
      var l := if e[0] <= 0xbf then e[0] as int - 0xb7 else e[0] as int - 0xf7;
      assert b[1..1 + l] == e[1..1 + l];
    }
  }

  lemma EncodeStringInjective(s: seq<byte>, t: seq<byte>)
    requires |s| < WORD && |t| < WORD && EncodeString(s) == EncodeString(t)
    ensures s == t
  {
    ParseString(s, []);
    ParseString(t, []);
    var e := EncodeString(s);
    assert e + [] == e;
  }

  lemma EncodeListInjective(s: seq<byte>, t: seq<byte>)
    requires |s| < WORD && |t| < WORD && EncodeList(s) == EncodeList(t)
    ensures s == t
  {
    ParseList(s, []);
    ParseList(t, []);
    var e := EncodeList(s);
    assert e + [] == e;
  }

  // ----- Items of a list -----

  /** The items a list payload consists of. */
  function Items(b: seq<byte>): (r: Option<seq<seq<byte>>>)
    ensures r.Some? ==> forall i :: 0 <= i < |r.value| ==> |r.value[i]| <= |b|
    decreases |b|
  {
    if b == [] then Some([]) else
      match ParseHeader(b)
      case None => None
      case Some(h) =>
        var l := h.prefix + h.payload;
        match Items(b[l..])
        case None => None
        case Some(rest) => Some([b[..l]] + rest)
  }

  function StringOf(item: seq<byte>): Option<seq<byte>>
  {
    match ParseHeader(item)
    case None => None
    case Some(h) => if h.list then None else Some(item[h.prefix..h.prefix + h.payload])
  }

  lemma ItemsCons(e: seq<byte>, rest: seq<byte>)
    requires IsItem(e)
    ensures Items(rest).Some? ==> Items(e + rest) == Some([e] + Items(rest).value)
  {
    ParseExtend(e, rest);
    assert (e + rest)[|e|..] == rest && (e + rest)[..|e|] == e;
  }

  lemma ItemsTwo(a: seq<byte>, b: seq<byte>)
    requires IsItem(a) && IsItem(b)
    ensures Items(a + b) == Some([a, b])
  {
    ItemsCons(b, []);
    assert b + [] == b && [b] + [] == [b];
    ItemsCons(a, b);
    assert [a] + [b] == [a, b];
  }

  lemma StringOfEncode(s: seq<byte>)
    requires |s| < WORD
    ensures StringOf(EncodeString(s)) == Some(s)
  {
    hide ParseHeader, EncodeString;
    ParseString(s, []);
    var e := EncodeString(s);
    assert e + [] == e;
    assert e[|e| - |s|..|e|] == s;
  }
}
