/** The CBOR reader (RFC 8949) and the attestation document it walks.

    The specification reads from the front of the remaining bytes and returns what is left; `None`
    stands for a panic. */
module Cbor {
  import opened Bytes

  type Bs = seq<byte>

  // ----- Heads -----

  /** `len` is `None` for an indefinite length, or for a break. */
  datatype Head = Head(major: nat, len: Option<nat>, rest: Bs)

  function HeadOf(s: Bs): (h: Option<Head>)
    ensures h.Some? ==> |h.value.rest| < |s| && h.value.rest == s[|s| - |h.value.rest|..]
  {
    if s == [] then None else
      var major, info, tail := s[0] as nat / 32, s[0] as nat % 32, s[1..];
      if info < 24 then Some(Head(major, Some(info), tail))
      else if info == 31 then Some(Head(major, None, tail))
      else if info > 27 then None
      else
        var k := if info == 24 then 1 else if info == 25 then 2 else if info == 26 then 4 else 8;
        if |tail| < k then None else Some(Head(major, Some(FromBigEndian(tail[..k])), tail[k..]))
  }

  /** How an argument is written: in the initial byte, or in 1, 2, 4 or 8 bytes after it. */
  datatype Width = W0 | W1 | W2 | W4 | W8

  function Size(w: Width): nat
  {
    match w case W0 => 0 case W1 => 1 case W2 => 2 case W4 => 4 case W8 => 8
  }

  function Info(w: Width): nat
  {
    match w case W0 => 0 case W1 => 24 case W2 => 25 case W4 => 26 case W8 => 27
  }

  predicate Fits(w: Width, n: nat)
  {
    if w.W0? then n < 24 else n < Pow256(Size(w))
  }

  function HeadBytes(major: nat, w: Width, n: nat): Bs
    requires major < 8 && Fits(w, n)
  {
    if w.W0? then [major * 32 + n] else [major * 32 + Info(w)] + ToBeBytes(n, Size(w))
  }

  lemma HeadRoundTrip(major: nat, w: Width, n: nat, rest: Bs)
    requires major < 8 && Fits(w, n)
    ensures HeadOf(HeadBytes(major, w, n) + rest) == Some(Head(major, Some(n), rest))
    ensures HeadBytes(major, w, n)[0] != 0xff
  {
    hide FromBigEndian, ToBeBytes, Pow256, HeadOf;
    var s := HeadBytes(major, w, n) + rest;
    if w.W0? {
      assert s[0] == major * 32 + n && s[1..] == rest;
      ShortHead(s, major, n);
    } else {
      var k, be := Size(w), ToBeBytes(n, Size(w));
      ToBeBytesRoundTrip(n, k);
      assert s[0] == major * 32 + Info(w) && s[1..] == be + rest;
      WideHead(s, major, w, be, rest);
    }
  }

  lemma ShortHead(s: Bs, major: nat, n: nat)
    requires major < 8 && n < 24 && s != [] && s[0] == major * 32 + n
    ensures HeadOf(s) == Some(Head(major, Some(n), s[1..]))
  {
    assert s[0] as nat / 32 == major && s[0] as nat % 32 == n;
  }

  lemma WideHead(s: Bs, major: nat, w: Width, be: Bs, rest: Bs)
    requires major < 8 && !w.W0? && |be| == Size(w)
    requires s != [] && s[0] == major * 32 + Info(w) && s[1..] == be + rest
    ensures HeadOf(s) == Some(Head(major, Some(FromBigEndian(be)), rest))
  {
    hide FromBigEndian;
    var tail, k := s[1..], Size(w);
    assert s[0] as nat / 32 == major && s[0] as nat % 32 == Info(w);
    assert tail[..k] == be && tail[k..] == rest;
  }

  /** A head of indefinite length. */
  function OpenHead(major: nat): Bs
    requires major < 7
  {
    [major * 32 + 31]
  }

  const BREAK: Bs := [0xff]

  predicate AtBreak(s: Bs)
  {
    s != [] && s[0] == 0xff
  }

  /** The shortest width. */
  function Shortest(n: nat): Width
    requires n < 0x1_0000_0000_0000_0000
  {
    if n < 24 then W0 else if n <= 0xff then W1 else if n <= 0xffff then W2 else if n <= 0xffff_ffff then W4 else W8
  }

  method PushCborHead(start: Bs, major: nat, arg: nat) returns (out: Bs)
    requires major < 8 && arg < 0x1_0000_0000_0000_0000
    ensures Fits(Shortest(arg), arg)
    ensures out == start + HeadBytes(major, Shortest(arg), arg)
    ensures forall rest :: HeadOf(out[|start|..] + rest) == Some(Head(major, Some(arg), rest))
  {
    hide HeadOf;
    Pow256Values();
    ghost var w := Shortest(arg);
    if arg < 24 {
      out := start + [major * 32 + arg];
    } else if arg <= 0xff {
      out := start + [major * 32 + 24];
      out := out + ToBeBytes(arg, 1);
    } else if arg <= 0xffff {
      out := start + [major * 32 + 25];
      out := out + ToBeBytes(arg, 2);
    } else if arg <= 0xffff_ffff {
      out := start + [major * 32 + 26];
      out := out + ToBeBytes(arg, 4);
    } else {
      out := start + [major * 32 + 27];
      out := out + ToBeBytes(arg, 8);
    }
    assert out[|start|..] == HeadBytes(major, w, arg);
    forall rest: Bs ensures HeadOf(out[|start|..] + rest) == Some(Head(major, Some(arg), rest)) {
      HeadRoundTrip(major, w, arg, rest);
    }
  }

  // ----- Strings -----

  datatype Read = Read(bytes: Bs, rest: Bs)

  function Take(s: Bs, n: nat): (r: Option<Read>)
    ensures r.Some? ==> r.value.bytes + r.value.rest == s
  {
    if n > |s| then None else Some(Read(s[..n], s[n..]))
  }

  /** The chunks of an indefinite string up to its break. */
  function Chunks(s: Bs, major: nat): (r: Option<Read>)
    ensures r.Some? ==> |r.value.rest| < |s|
    decreases |s|
  {
    if AtBreak(s) then Some(Read([], s[1..])) else
      match HeadOf(s)
      case None => None
      case Some(h) =>
        if h.major != major || h.len.None? then None else
          match Take(h.rest, h.len.value)
          case None => None
          case Some(chunk) =>
            match Chunks(chunk.rest, major)
            case None => None
            case Some(more) => Some(Read(chunk.bytes + more.bytes, more.rest))
  }

  /** `read_str_contents` */
  function StrContents(s: Bs, major: nat, len: Option<nat>): (r: Option<Read>)
    ensures r.Some? ==> |r.value.rest| <= |s|
  {
    if len.Some? then Take(s, len.value) else Chunks(s, major)
  }

  // ----- Skipping -----

  /** `skip_item`: what is left after one item. */
  function Skip(s: Bs): (r: Option<Bs>)
    ensures r.Some? ==> |r.value| < |s|
    decreases |s|, 0, 0
  {
    match HeadOf(s)
    case None => None
    case Some(h) =>
      if h.major <= 1 then Some(h.rest)
      else if h.major <= 3 then
        match StrContents(h.rest, h.major, h.len)
        case None => None
        case Some(r) => Some(r.rest)
      else if h.major == 4 then
        if h.len.Some? then SkipN(h.rest, h.len.value) else SkipUntilBreak(h.rest, 1)
      else if h.major == 5 then
        if h.len.Some? then SkipN(h.rest, 2 * h.len.value) else SkipUntilBreak(h.rest, 2)
      else if h.major == 7 && h.len.Some? then Some(h.rest)
      else None
  }

  function SkipN(s: Bs, n: nat): (r: Option<Bs>)
    ensures r.Some? ==> |r.value| <= |s|
    decreases |s|, 1, n
  {
    if n == 0 then Some(s) else
      match Skip(s)
      case None => None
      case Some(rest) => SkipN(rest, n - 1)
  }

  /** Items, `stride` at a time, up to a break. */
  function SkipUntilBreak(s: Bs, stride: nat): (r: Option<Bs>)
    requires stride > 0
    ensures r.Some? ==> |r.value| < |s|
    decreases |s|, 2, 0
  {
    if AtBreak(s) then Some(s[1..]) else
      match Skip(s)
      case None => None
      case Some(rest) =>
        match SkipN(rest, stride - 1)
        case None => None
        case Some(rest') => SkipUntilBreak(rest', stride)
  }

  // ----- Encodings -----

  function Ascii(s: string): Bs
  {
    seq(|s|, i requires 0 <= i < |s| => s[i] as int % 256)
  }

  /** A string in one piece or in chunks. */
  datatype Chunk = Chunk(w: Width, bytes: Bs)
  datatype Body = Whole(chunk: Chunk) | Pieces(chunks: seq<Chunk>)

  /** One way of writing a document without tags: `w` is the width of a head, `None` an indefinite
      length. A map lists its keys and values alternately. `Loose` is a number of indefinite length, which section 3.2
      of RFC 8949 rules out and the reader skips like any other. */
  datatype Enc =
    | Num(major: nat, w: Width, n: nat)
    | Str(major: nat, body: Body)
    | Arr(len: Option<Width>, items: seq<Enc>)
    | Dict(len: Option<Width>, flat: seq<Enc>)
    | Loose(major: nat)

  predicate ChunkOk(c: Chunk)
  {
    Fits(c.w, |c.bytes|)
  }

  predicate BodyOk(b: Body)
  {
    match b
    case Whole(c) => ChunkOk(c)
    case Pieces(cs) => forall i :: 0 <= i < |cs| ==> ChunkOk(cs[i])
  }

  predicate WellEncoded(e: Enc)
  {
    match e
    case Num(major, w, n) => (major == 0 || major == 1 || major == 7) && Fits(w, n)
    case Str(major, body) => (major == 2 || major == 3) && BodyOk(body)
    case Arr(w, items) =>
      && (w.Some? ==> Fits(w.value, |items|))
      && forall i :: 0 <= i < |items| ==> WellEncoded(items[i])
    case Dict(w, flat) =>
      && |flat| % 2 == 0 && (w.Some? ==> Fits(w.value, |flat| / 2))
      && forall i :: 0 <= i < |flat| ==> WellEncoded(flat[i])
    case Loose(major) => major <= 1
  }

  function ChunkBytes(major: nat, c: Chunk): Bs
    requires major < 8 && ChunkOk(c)
  {
    HeadBytes(major, c.w, |c.bytes|) + c.bytes
  }

  function PiecesBytes(major: nat, cs: seq<Chunk>): Bs
    requires major < 8 && forall i :: 0 <= i < |cs| ==> ChunkOk(cs[i])
  {
    if cs == [] then BREAK else ChunkBytes(major, cs[0]) + PiecesBytes(major, cs[1..])
  }

  function Encoded(e: Enc): Bs
    requires WellEncoded(e)
    decreases e, 0
  {
    match e
    case Num(major, w, n) => HeadBytes(major, w, n)
    case Str(major, Whole(c)) => ChunkBytes(major, c)
    case Str(major, Pieces(cs)) => OpenHead(major) + PiecesBytes(major, cs)
    case Arr(w, items) =>
      if w.Some? then HeadBytes(4, w.value, |items|) + EncodedAll(items) else OpenHead(4) + EncodedAll(items) + BREAK
    case Dict(w, flat) =>
      if w.Some? then HeadBytes(5, w.value, |flat| / 2) + EncodedAll(flat) else OpenHead(5) + EncodedAll(flat) + BREAK
    case Loose(major) => OpenHead(major)
  }

  function EncodedAll(es: seq<Enc>): Bs
    requires forall i :: 0 <= i < |es| ==> WellEncoded(es[i])
    decreases es, 1
  {
    if es == [] then [] else Encoded(es[0]) + EncodedAll(es[1..])
  }

  lemma EncodedFirst(e: Enc, rest: Bs)
    requires WellEncoded(e)
    ensures Encoded(e) != [] && !AtBreak(Encoded(e) + rest)
  {
    match e
    case Num(major, w, n) => HeadRoundTrip(major, w, n, []);
    case Str(major, Whole(c)) => HeadRoundTrip(major, c.w, |c.bytes|, []);
    case Str(major, Pieces(cs)) =>
    case Arr(w, items) => if w.Some? { HeadRoundTrip(4, w.value, |items|, []); }
    case Dict(w, flat) => if w.Some? { HeadRoundTrip(5, w.value, |flat| / 2, []); }
    case Loose(_) =>
  }

  lemma OpenHeadReads(major: nat, rest: Bs)
    requires major < 7
    ensures HeadOf(OpenHead(major) + rest) == Some(Head(major, None, rest))
  {
    var s := OpenHead(major) + rest;
    assert s[1..] == rest;
  }

  lemma ChunksEnd(major: nat, rest: Bs)
    ensures Chunks(BREAK + rest, major) == Some(Read([], rest))
  {
    assert (BREAK + rest)[1..] == rest;
  }

  lemma ChunkFirst(major: nat, c: Chunk, more: Bs, r: Read)
    requires major < 7 && ChunkOk(c) && Chunks(more, major) == Some(r)
    ensures Chunks(ChunkBytes(major, c) + more, major) == Some(Read(c.bytes + r.bytes, r.rest))
  {
    hide HeadOf, HeadBytes, Fits;
    var after := c.bytes + more;
    var s := ChunkBytes(major, c) + more;
    assert s == HeadBytes(major, c.w, |c.bytes|) + after;
    HeadRoundTrip(major, c.w, |c.bytes|, after);
    assert after[..|c.bytes|] == c.bytes && after[|c.bytes|..] == more;
    assert Take(after, |c.bytes|) == Some(Read(c.bytes, more));
  }

  lemma {:induction false} PiecesRead(major: nat, cs: seq<Chunk>, rest: Bs)
    requires major < 7 && forall i :: 0 <= i < |cs| ==> ChunkOk(cs[i])
    ensures Chunks(PiecesBytes(major, cs) + rest, major) == Some(Read(Concat(cs), rest))
  {
    hide Chunks, ChunkBytes, ChunkOk;
    var s := PiecesBytes(major, cs) + rest;
    if cs == [] {
      assert s == BREAK + rest;
      ChunksEnd(major, rest);
    } else {
      PiecesRead(major, cs[1..], rest);
      var more := PiecesBytes(major, cs[1..]) + rest;
      assert s == ChunkBytes(major, cs[0]) + more;
      ChunkFirst(major, cs[0], more, Read(Concat(cs[1..]), rest));
    }
  }

  function Concat(cs: seq<Chunk>): Bs
  {
    if cs == [] then [] else cs[0].bytes + Concat(cs[1..])
  }

  function Contents(b: Body): Bs
  {
    match b case Whole(c) => c.bytes case Pieces(cs) => Concat(cs)
  }

  /** A string is read back whichever way it was written. */
  lemma StringRead(e: Enc, rest: Bs)
    requires WellEncoded(e) && e.Str?
    ensures HeadOf(Encoded(e) + rest).Some?
    ensures var h := HeadOf(Encoded(e) + rest).value;
            h.major == e.major && StrContents(h.rest, e.major, h.len) == Some(Read(Contents(e.body), rest))
  {
    hide HeadOf, HeadBytes, Chunks;
    match e.body
    case Whole(c) =>
      assert Encoded(e) + rest == HeadBytes(e.major, c.w, |c.bytes|) + (c.bytes + rest);
      HeadRoundTrip(e.major, c.w, |c.bytes|, c.bytes + rest);
      assert (c.bytes + rest)[..|c.bytes|] == c.bytes && (c.bytes + rest)[|c.bytes|..] == rest;
    case Pieces(cs) =>
      var more := PiecesBytes(e.major, cs) + rest;
      assert Encoded(e) + rest == OpenHead(e.major) + more;
      OpenHeadReads(e.major, more);
      PiecesRead(e.major, cs, rest);
  }

  /** Skipping ends exactly after the item, whichever way it was written. */
  lemma {:induction false} SkipEncoded(e: Enc, rest: Bs)
    requires WellEncoded(e)
    ensures Skip(Encoded(e) + rest) == Some(rest)
    decreases e, 0
  {
    hide HeadOf, HeadBytes, StrContents, SkipN, SkipUntilBreak;
    match e
    case Num(major, w, n) => HeadRoundTrip(major, w, n, rest);
    case Str(_, _) => StringRead(e, rest);
    case Arr(w, items) => SkipContainer(4, w, |items|, 1, items, rest);
      ContainerBytes(e, rest);
    case Dict(w, flat) => SkipContainer(5, w, |flat| / 2, 2, flat, rest);
      ContainerBytes(e, rest);
    case Loose(major) => OpenHeadReads(major, rest);
  }

  /** The bytes of an array or of a map, by its elements. */
  function Container(major: nat, w: Option<Width>, count: nat, es: seq<Enc>): Bs
    requires major < 7 && (w.Some? ==> Fits(w.value, count)) && forall i :: 0 <= i < |es| ==> WellEncoded(es[i])
  {
    if w.Some? then HeadBytes(major, w.value, count) + EncodedAll(es) else OpenHead(major) + EncodedAll(es) + BREAK
  }

  lemma ContainerBytes(e: Enc, rest: Bs)
    requires WellEncoded(e) && (e.Arr? || e.Dict?)
    ensures e.Arr? ==> Encoded(e) + rest == Container(4, e.len, |e.items|, e.items) + rest
    ensures e.Dict? ==> Encoded(e) + rest == Container(5, e.len, |e.flat| / 2, e.flat) + rest
  {
  }

  /** What is read after the head of a container. */
  lemma ContainerHead(major: nat, w: Option<Width>, count: nat, es: seq<Enc>, rest: Bs)
    requires major < 7 && (w.Some? ==> Fits(w.value, count)) && forall i :: 0 <= i < |es| ==> WellEncoded(es[i])
    ensures HeadOf(Container(major, w, count, es) + rest)
         == Some(if w.Some? then Head(major, Some(count), EncodedAll(es) + rest)
                 else Head(major, None, EncodedAll(es) + BREAK + rest))
  {
    hide HeadOf, HeadBytes, EncodedAll, Fits, OpenHead, WellEncoded;
    var body := EncodedAll(es);
    if w.Some? {
      var head := HeadBytes(major, w.value, count);
      assert head + body + rest == head + (body + rest);
      HeadRoundTrip(major, w.value, count, body + rest);
    } else {
      var head := OpenHead(major);
      assert head + body + BREAK + rest == head + (body + BREAK + rest);
      OpenHeadReads(major, body + BREAK + rest);
    }
  }

  lemma {:induction false} SkipContainer(major: nat, w: Option<Width>, count: nat, stride: nat, es: seq<Enc>, rest: Bs)
    requires 4 <= major <= 5 && stride == major - 3 && |es| == stride * count
    requires (w.Some? ==> Fits(w.value, count)) && forall i :: 0 <= i < |es| ==> WellEncoded(es[i])
    ensures Skip(Container(major, w, count, es) + rest) == Some(rest)
    decreases es, 2
  {
    hide HeadOf, SkipN, SkipUntilBreak, Container, EncodedAll;
    ContainerHead(major, w, count, es, rest);
    if w.Some? { SkipAll(es, rest); } else { SkipOpen(es, stride, rest); }
  }

  lemma {:induction false} SkipAll(es: seq<Enc>, rest: Bs)
    requires forall i :: 0 <= i < |es| ==> WellEncoded(es[i])
    ensures SkipN(EncodedAll(es) + rest, |es|) == Some(rest)
    decreases es, 1
  {
    hide Skip, Encoded;
    if es == [] {
      assert EncodedAll(es) + rest == rest;
    } else {
      var more := EncodedAll(es[1..]) + rest;
      assert EncodedAll(es) + rest == Encoded(es[0]) + more;
      SkipEncoded(es[0], more);
      SkipAll(es[1..], rest);
    }
  }

  lemma {:induction false} SkipOpen(es: seq<Enc>, stride: nat, rest: Bs)
    requires 1 <= stride <= 2 && |es| % stride == 0 && forall i :: 0 <= i < |es| ==> WellEncoded(es[i])
    ensures SkipUntilBreak(EncodedAll(es) + BREAK + rest, stride) == Some(rest)
    decreases es, 1
  {
    hide Skip, Encoded;
    var s := EncodedAll(es) + BREAK + rest;
    if es == [] {
      assert s == BREAK + rest && s[1..] == rest;
    } else {
      var after := EncodedAll(es[stride..]) + BREAK + rest;
      SkipOpen(es[stride..], stride, rest);
      if stride == 1 {
        assert s == Encoded(es[0]) + after;
        SkipEncoded(es[0], after);
        EncodedFirst(es[0], after);
      } else {
        var second := Encoded(es[1]) + after;
        assert es[1..][1..] == es[2..];
        assert EncodedAll(es[1..]) == Encoded(es[1]) + EncodedAll(es[2..]);
        assert s == Encoded(es[0]) + second;
        SkipEncoded(es[0], second);
        EncodedFirst(es[0], second);
        SkipEncoded(es[1], after);
        assert SkipN(second, 1) == Some(after);
      }
    }
  }
}
