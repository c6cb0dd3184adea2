/** The reader with its moving position, as the source runs it, and the signed structure of RFC 9052.
    A method that returns `None` or `false` has panicked; nothing is promised about the position then. */
module CborReader {
  import opened Bytes
  import opened Cbor
  import opened Attestation

  /** What is read after `out` was read already. */
  ghost function After(out: Bs, more: Option<Read>): Option<Read>
  {
    match more case None => None case Some(m) => Some(Read(out + m.bytes, m.rest))
  }

  lemma AfterNothing(more: Option<Read>)
    ensures After([], more) == more
  {
    assert more.Some? ==> [] + more.value.bytes == more.value.bytes;
  }

  lemma AfterAll(out: Bs, rest: Bs)
    ensures After(out, Some(Read([], rest))) == Some(Read(out, rest))
  {
    assert out + [] == out;
  }

  lemma AfterPanic(out: Bs)
    ensures After(out, None) == None
  {
  }

  lemma AfterIs(out: Bs, more: Option<Read>)
    ensures After(out, more) == match more case None => None case Some(m) => Some(Read(out + m.bytes, m.rest))
  {
  }

  lemma AfterTwo(a: Bs, b: Bs, more: Option<Read>)
    ensures After(a, After(b, more)) == After(a + b, more)
  {
    assert more.Some? ==> a + (b + more.value.bytes) == (a + b) + more.value.bytes;
  }

  class Reader {
    const buf: Bs
    var pos: nat

    ghost predicate Valid()
      reads this
    {
      pos <= |buf|
    }

    ghost function Rest(): Bs
      requires Valid()
      reads this
    {
      buf[pos..]
    }

    constructor (bytes: Bs)
      ensures Valid() && buf == bytes && pos == 0
    {
      buf, pos := bytes, 0;
    }

    method ReadBytes(n: nat) returns (r: Option<Bs>)
      requires Valid()
      modifies this
      ensures Valid() && (r.Some? <==> Take(old(Rest()), n).Some?)
      ensures r.Some? ==> Take(old(Rest()), n).value == Read(r.value, Rest())
    {
      if pos + n > |buf| {
        return None;
      }
      r := Some(buf[pos..pos + n]);
      pos := pos + n;
    }

    method ReadHead() returns (r: Option<(nat, Option<nat>)>)
      requires Valid()
      modifies this
      ensures Valid() && (r.Some? <==> HeadOf(old(Rest())).Some?)
      ensures r.Some? ==> HeadOf(old(Rest())).value == Head(r.value.0, r.value.1, Rest()) && pos > old(pos)
    {
      hide FromBigEndian;
      if pos == |buf| {
        return None;
      }
      var ib := buf[pos];
      pos := pos + 1;
      assert old(Rest())[1..] == Rest();
      var major, info := ib as nat / 32, ib as nat % 32;
      if info < 24 {
        return Some((major, Some(info)));
      } else if info == 31 {
        return Some((major, None));
      } else if info > 27 {
        return None;
      }
      var k := if info == 24 then 1 else if info == 25 then 2 else if info == 26 then 4 else 8;
      var b := ReadBytes(k);
      if b.None? {
        return None;
      }
      r := Some((major, Some(FromBigEndian(b.value))));
    }

    method TryBreak() returns (b: bool)
      requires Valid()
      modifies this
      ensures Valid() && b == AtBreak(old(Rest()))
      ensures b ==> Rest() == old(Rest())[1..] && pos > old(pos)
      ensures !b ==> pos == old(pos)
    {
      b := pos < |buf| && buf[pos] == 0xff;
      if b {
        pos := pos + 1;
      }
    }

    method ReadStrContents(major: nat, len: Option<nat>) returns (r: Option<Bs>)
      requires Valid()
      modifies this
      ensures Valid() && (r.Some? <==> StrContents(old(Rest()), major, len).Some?)
      ensures r.Some? ==> StrContents(old(Rest()), major, len).value == Read(r.value, Rest()) && pos >= old(pos)
    {
      hide Chunks, Take;
      if len.Some? {
        r := ReadBytes(len.value);
      } else {
        r := ReadChunks(major);
      }
    }

    /** Chunks of definite length up to a break. */
    method ReadChunks(major: nat) returns (r: Option<Bs>)
      requires Valid()
      modifies this
      ensures Valid() && (r.Some? <==> Chunks(old(Rest()), major).Some?)
      ensures r.Some? ==> Chunks(old(Rest()), major).value == Read(r.value, Rest()) && pos >= old(pos)
    {
      hide HeadOf, Take, After;
      var out := [];
      AfterNothing(Chunks(Rest(), major));
      while true
        invariant Valid() && pos >= old(pos)
        invariant Chunks(old(Rest()), major) == After(out, Chunks(Rest(), major))
        decreases |buf| - pos
      {
        var b := TryBreak();
        if b {
          AfterAll(out, Rest());
          return Some(out);
        }
        AfterPanic(out);
        var h := ReadHead();
        if h.None? || h.value.0 != major || h.value.1.None? {
          return None;
        }
        var chunk := ReadBytes(h.value.1.value);
        if chunk.None? {
          return None;
        }
        ghost var more := Chunks(Rest(), major);
        AfterTwo(out, chunk.value, more);
        AfterIs(chunk.value, more);
        out := out + chunk.value;
      }
    }

    method SkipItem() returns (ok: bool)
      requires Valid()
      modifies this
      ensures Valid() && (ok <==> Skip(old(Rest())).Some?)
      ensures ok ==> Skip(old(Rest())).value == Rest() && pos > old(pos)
      decreases |buf| - pos, 0
    {
      hide HeadOf, StrContents;
      var h := ReadHead();
      if h.None? {
        return false;
      }
      var (major, len) := h.value;
      if major <= 1 {
        return true;
      } else if major <= 3 {
        var s := ReadStrContents(major, len);
        return s.Some?;
      } else if major == 4 {
        if len.Some? {
          ok := SkipMany(len.value);
        } else {
          ok := SkipOpen(1);
        }
      } else if major == 5 {
        if len.Some? {
          ok := SkipMany(2 * len.value);
        } else {
          ok := SkipOpen(2);
        }
      } else {
        return major == 7 && len.Some?;
      }
    }

    /** `n` items, one after the other. */
    method SkipMany(n: nat) returns (ok: bool)
      requires Valid()
      modifies this
      ensures Valid() && (ok <==> SkipN(old(Rest()), n).Some?)
      ensures ok ==> SkipN(old(Rest()), n).value == Rest() && pos >= old(pos)
      decreases |buf| - pos, 1
    {
      hide Skip;
      var left := n;
      while left > 0
        invariant Valid() && pos >= old(pos) && SkipN(old(Rest()), n) == SkipN(Rest(), left)
        decreases left
      {
        var one := SkipItem();
        if !one {
          return false;
        }
        left := left - 1;
      }
      ok := true;
    }

    /** Items, `stride` at a time, up to a break. */
    method SkipOpen(stride: nat) returns (ok: bool)
      requires Valid() && stride > 0
      modifies this
      ensures Valid() && (ok <==> SkipUntilBreak(old(Rest()), stride).Some?)
      ensures ok ==> SkipUntilBreak(old(Rest()), stride).value == Rest() && pos > old(pos)
      decreases |buf| - pos, 2
    {
      hide Skip, SkipN;
      while true
        invariant Valid() && pos >= old(pos)
        invariant SkipUntilBreak(old(Rest()), stride) == SkipUntilBreak(Rest(), stride)
        decreases |buf| - pos
      {
        var b := TryBreak();
        if b {
          return true;
        }
        var one := SkipItem();
        if !one {
          return false;
        }
        var others := SkipMany(stride - 1);
        if !others {
          return false;
        }
      }
    }

    method ReadString(major: nat) returns (r: Option<Bs>)
      requires Valid()
      modifies this
      ensures Valid() && (r.Some? <==> ExpectString(old(Rest()), major).Some?)
      ensures r.Some? ==> ExpectString(old(Rest()), major).value == Read(r.value, Rest()) && pos > old(pos)
    {
      hide HeadOf, StrContents;
      var h := ReadHead();
      if h.None? || h.value.0 != major {
        return None;
      }
      r := ReadStrContents(major, h.value.1);
    }

    method ReadUint() returns (r: Option<nat>)
      requires Valid()
      modifies this
      ensures Valid() && (r.Some? <==> ExpectUint(old(Rest())).Some?)
      ensures r.Some? ==> ExpectUint(old(Rest())).value == (r.value, Rest()) && pos > old(pos)
    {
      hide HeadOf;
      var h := ReadHead();
      if h.None? || h.value.0 != 0 {
        return None;
      }
      r := h.value.1;
    }

    method ReadBstr() returns (r: Option<Bs>)
      requires Valid()
      modifies this
      ensures Valid() && (r.Some? <==> ExpectBstr(old(Rest())).Some?)
      ensures r.Some? ==> ExpectBstr(old(Rest())).value == Read(r.value, Rest()) && pos > old(pos)
    {
      hide ExpectString;
      if pos < |buf| && buf[pos] == 0xf6 {
        return None;
      }
      r := ReadString(2);
    }

    method PcrsLoop(len: Option<nat>, start: Fields) returns (r: Option<Fields>)
      requires Valid()
      modifies this
      ensures Valid() && (r.Some? <==> ParsePcrs(old(Rest()), len, start).Some?)
      ensures r.Some? ==>
        ParsePcrs(old(Rest()), len, start).value == Attestation.Step(r.value, Rest()) && pos >= old(pos)
    {
      hide ExpectUint, ExpectBstr;
      var f, left := start, len;
      while true
        invariant Valid() && pos >= old(pos)
        invariant ParsePcrs(old(Rest()), len, start) == ParsePcrs(Rest(), left, f)
        decreases |buf| - pos
      {
        if left == Some(0) {
          return Some(f);
        }
        if left.None? {
          var b := TryBreak();
          if b {
            return Some(f);
          }
        }
        var idx := ReadUint();
        if idx.None? {
          return None;
        }
        var val := ReadBstr();
        if val.None? || (idx.value == 0 && f.pcr0.Some?) {
          return None;
        }
        if idx.value == 0 {
          f := f.(pcr0 := val);
        }
        left := if left.None? then None else Some(left.value - 1);
      }
    }

    method EntryStep(start: Fields) returns (r: Option<Fields>)
      requires Valid()
      modifies this
      ensures Valid() && (r.Some? <==> ParseEntry(old(Rest()), start).Some?)
      ensures r.Some? ==> ParseEntry(old(Rest()), start).value == Attestation.Step(r.value, Rest()) && pos > old(pos)
    {
      hide ExpectUint, ExpectBstr, ExpectString, HeadOf, Skip, ParsePcrs;
      var key := ReadString(3);
      if key.None? {
        return None;
      }
      if key.value == PCRS {
        var h := ReadHead();
        if h.None? || h.value.0 != 5 {
          return None;
        }
        r := PcrsLoop(h.value.1, start);
      } else if key.value == USER_DATA {
        var v := ReadBstr();
        if v.None? || start.userData.Some? {
          return None;
        }
        return Some(start.(userData := v));
      } else if key.value == TIMESTAMP {
        var v := ReadUint();
        if v.None? || start.timestamp.Some? {
          return None;
        }
        return Some(start.(timestamp := v));
      } else {
        var ok := SkipItem();
        return if ok then Some(start) else None;
      }
    }

    method EntriesLoop(len: Option<nat>) returns (r: Option<Fields>)
      requires Valid()
      modifies this
      ensures Valid() && (r.Some? <==> ParseEntries(old(Rest()), len, NOTHING).Some?)
      ensures r.Some? ==> ParseEntries(old(Rest()), len, NOTHING).value == Attestation.Step(r.value, Rest())
    {
      hide ParseEntry;
      var f, left := NOTHING, len;
      while true
        invariant Valid() && pos >= old(pos)
        invariant ParseEntries(old(Rest()), len, NOTHING) == ParseEntries(Rest(), left, f)
        decreases |buf| - pos
      {
        if left == Some(0) {
          return Some(f);
        }
        if left.None? {
          var b := TryBreak();
          if b {
            return Some(f);
          }
        }
        var g := EntryStep(f);
        if g.None? {
          return None;
        }
        f := g.value;
        left := if left.None? then None else Some(left.value - 1);
      }
    }
  }

  method ParseAttestationDoc(payload: Bs) returns (r: Option<Attested>)
    ensures r == ParseAttestation(payload)
  {
    hide HeadOf, ParseEntries;
    var c := new Reader(payload);
    assert c.Rest() == payload;
    var h := c.ReadHead();
    if h.None? || h.value.0 != 5 {
      return None;
    }
    var f := c.EntriesLoop(h.value.1);
    r := if f.None? then None else Finish(f.value);
  }

  // ----- The signed structure -----

  /** array(4), then the text "Signature1". */
  const CONTEXT: Bs := [0x84, 0x6a, 0x53, 0x69, 0x67, 0x6e, 0x61, 0x74, 0x75, 0x72, 0x65, 0x31]
  const EMPTY_BSTR: Bs := [0x40]

  function ByteString(s: Bs): Bs
    requires |s| < 0x1_0000_0000_0000_0000
  {
    ShortestFits(|s|);
    HeadBytes(2, Shortest(|s|), |s|) + s
  }

  lemma ShortestFits(n: nat)
    requires n < 0x1_0000_0000_0000_0000
    ensures Fits(Shortest(n), n)
  {
    Pow256Values();
  }

  function SigStructure(protected: Bs, payload: Bs): Bs
    requires |protected| < 0x1_0000_0000_0000_0000 && |payload| < 0x1_0000_0000_0000_0000
  {
    CONTEXT + (ByteString(protected) + (EMPTY_BSTR + ByteString(payload)))
  }

  method BuildSigStructure(protected: Bs, payload: Bs) returns (out: Bs)
    requires |protected| < 0x1_0000_0000_0000_0000 && |payload| < 0x1_0000_0000_0000_0000
    ensures out == SigStructure(protected, payload)
  {
    hide HeadBytes, HeadOf, Shortest, Fits;
    ShortestFits(|protected|);
    ShortestFits(|payload|);
    out := CONTEXT;
    out := PushCborHead(out, 2, |protected|);
    out := out + protected;
    out := out + EMPTY_BSTR;
    out := PushCborHead(out, 2, |payload|);
    out := out + payload;
  }

  /** The structure as an item: an array of the text "Signature1", the header, an empty byte string and the payload, in
      this order. */
  function SigItem(protected: Bs, payload: Bs): Enc
    requires |protected| < 0x1_0000_0000_0000_0000 && |payload| < 0x1_0000_0000_0000_0000
  {
    Arr(Some(W0), [Str(3, Whole(Chunk(W0, Ascii("Signature1")))),
                   Str(2, Whole(Chunk(Shortest(|protected|), protected))),
                   Str(2, Whole(Chunk(W0, []))),
                   Str(2, Whole(Chunk(Shortest(|payload|), payload)))])
  }

  lemma SigItemOk(protected: Bs, payload: Bs)
    requires |protected| < 0x1_0000_0000_0000_0000 && |payload| < 0x1_0000_0000_0000_0000
    ensures WellEncoded(SigItem(protected, payload))
  {
    hide Shortest;
    ShortestFits(|protected|);
    ShortestFits(|payload|);
  }

  lemma FourItems(a: Enc, b: Enc, c: Enc, d: Enc)
    requires WellEncoded(a) && WellEncoded(b) && WellEncoded(c) && WellEncoded(d)
    ensures EncodedAll([a, b, c, d]) == Encoded(a) + (Encoded(b) + (Encoded(c) + Encoded(d)))
  {
    hide Encoded, WellEncoded;
    assert [a, b, c, d][1..] == [b, c, d] && [b, c, d][1..] == [c, d] && [c, d][1..] == [d] && [d][1..] == [];
    assert EncodedAll([d]) == Encoded(d) + EncodedAll([]) == Encoded(d);
    assert EncodedAll([c, d]) == Encoded(c) + EncodedAll([d]);
    assert EncodedAll([b, c, d]) == Encoded(b) + EncodedAll([c, d]);
  }

  lemma ByteStringIs(s: Bs)
    requires |s| < 0x1_0000_0000_0000_0000
    ensures WellEncoded(Str(2, Whole(Chunk(Shortest(|s|), s))))
    ensures Encoded(Str(2, Whole(Chunk(Shortest(|s|), s)))) == ByteString(s)
  {
    hide Shortest, HeadBytes;
    ShortestFits(|s|);
  }

  /** What is signed is that item, encoded. */
  lemma SigStructureIs(protected: Bs, payload: Bs)
    requires |protected| < 0x1_0000_0000_0000_0000 && |payload| < 0x1_0000_0000_0000_0000
    ensures WellEncoded(SigItem(protected, payload))
    ensures SigStructure(protected, payload) == Encoded(SigItem(protected, payload))
  {
    hide Shortest, HeadBytes, ByteString, EncodedAll, Ascii;
    SigItemOk(protected, payload);
    ByteStringIs(protected);
    ByteStringIs(payload);
    SigContext();
    var items := SigItem(protected, payload).items;
    assert Encoded(SigItem(protected, payload)) == HeadBytes(4, W0, 4) + EncodedAll(items);
    hide Encoded;
    FourItems(items[0], items[1], items[2], items[3]);
  }

  lemma SigContext()
    ensures HeadBytes(4, W0, 4) + Encoded(Str(3, Whole(Chunk(W0, Ascii("Signature1"))))) == CONTEXT
    ensures Encoded(Str(2, Whole(Chunk(W0, [])))) == EMPTY_BSTR
  {
    var text := Ascii("Signature1");
    assert text == CONTEXT[2..] && |text| == 10;
    hide Ascii;
    assert HeadBytes(3, W0, 10) == [0x6a] && HeadBytes(4, W0, 4) == [0x84];
    assert Encoded(Str(3, Whole(Chunk(W0, text)))) == [0x6a] + text;
    assert [0x40] + [] == EMPTY_BSTR;
  }

  lemma ByteStringSplits(s: Bs, x: Bs, t: Bs, y: Bs)
    requires |s| < 0x1_0000_0000_0000_0000 && |t| < 0x1_0000_0000_0000_0000
    requires ByteString(s) + x == ByteString(t) + y
    ensures s == t && x == y
  {
    hide HeadOf, HeadBytes, Shortest, Fits;
    ShortestFits(|s|);
    ShortestFits(|t|);
    var a, b := HeadBytes(2, Shortest(|s|), |s|), HeadBytes(2, Shortest(|t|), |t|);
    assert ByteString(s) + x == a + (s + x) && ByteString(t) + y == b + (t + y);
    HeadRoundTrip(2, Shortest(|s|), |s|, s + x);
    HeadRoundTrip(2, Shortest(|t|), |t|, t + y);
    assert s == (s + x)[..|s|] && t == (t + y)[..|t|];
    assert x == (s + x)[|s|..] && y == (t + y)[|t|..];
  }

  /** Different headers or payloads are signed as different bytes. */
  lemma SigStructureInjective(protected: Bs, payload: Bs, protected': Bs, payload': Bs)
    requires |protected| < 0x1_0000_0000_0000_0000 && |payload| < 0x1_0000_0000_0000_0000
    requires |protected'| < 0x1_0000_0000_0000_0000 && |payload'| < 0x1_0000_0000_0000_0000
    requires SigStructure(protected, payload) == SigStructure(protected', payload')
    ensures protected == protected' && payload == payload'
  {
    hide ByteString;
    var x, x' := EMPTY_BSTR + ByteString(payload), EMPTY_BSTR + ByteString(payload');
    var out := SigStructure(protected, payload);
    assert out[|CONTEXT|..] == ByteString(protected) + x;
    assert out[|CONTEXT|..] == ByteString(protected') + x';
    ByteStringSplits(protected, x, protected', x');
    assert x[1..] == ByteString(payload) && x'[1..] == ByteString(payload');
    assert ByteString(payload) + [] == ByteString(payload) && ByteString(payload') + [] == ByteString(payload');
    ByteStringSplits(payload, [], payload', []);
  }
}
