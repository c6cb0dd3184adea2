/** Which bytes the CBOR reader lets pass: exactly the encodings. So an attestation is accepted, of all bytes, exactly
    where they encode a document that says so. */
module CborExact {
  import opened Bytes
  import opened Cbor
  import opened Attestation
  import opened AttestMeaning

  // ----- Heads and strings -----

  lemma HeadExact(s: Bs) returns (w: Width)
    requires HeadOf(s).Some? && HeadOf(s).value.len.Some?
    ensures var h := HeadOf(s).value;
            h.major < 8 && Fits(w, h.len.value) && s == HeadBytes(h.major, w, h.len.value) + h.rest
  {
    hide FromBigEndian, ToBeBytes, Pow256;
    var info := s[0] as nat % 32;
    w := if info < 24 then W0 else if info == 24 then W1 else if info == 25 then W2 else if info == 26 then W4 else W8;
    if info >= 24 {
      var be := s[1..1 + Size(w)];
      assert s[1..][..Size(w)] == be;
      FromBigEndianBound(be);
      FixedForm(be);
      assert s == [s[0]] + be + s[1 + Size(w)..];
    } else {
      assert s == [s[0]] + s[1..];
    }
  }

  lemma OpenExact(s: Bs)
    requires HeadOf(s).Some? && HeadOf(s).value.len.None?
    ensures var h := HeadOf(s).value; h.major < 8 && (h.major < 7 ==> s == OpenHead(h.major) + h.rest)
  {
    assert s == [s[0]] + s[1..];
  }

  lemma BreakExact(s: Bs)
    requires AtBreak(s)
    ensures s == BREAK + s[1..]
  {
  }

  predicate ChunksOk(cs: seq<Chunk>)
  {
    forall i :: 0 <= i < |cs| ==> ChunkOk(cs[i])
  }

  /** The first chunk, and what is read after it. */
  lemma ChunkExact(s: Bs, major: nat) returns (c: Chunk)
    requires major < 7 && Chunks(s, major).Some? && !AtBreak(s)
    ensures ChunkOk(c) && |ChunkBytes(major, c)| > 0 && ChunkBytes(major, c) <= s
    ensures var more := Chunks(s[|ChunkBytes(major, c)|..], major);
            more.Some? && more.value.rest == Chunks(s, major).value.rest
  {
    hide HeadOf, HeadBytes, Fits;
    var h := HeadOf(s).value;
    var w := HeadExact(s);
    var chunk := Take(h.rest, h.len.value).value;
    c := Chunk(w, chunk.bytes);
    var head := HeadBytes(major, w, h.len.value);
    assert s == head + (chunk.bytes + chunk.rest);
    assert head + (chunk.bytes + chunk.rest) == ChunkBytes(major, c) + chunk.rest;
    Cut(s, ChunkBytes(major, c), chunk.rest);
  }

  lemma Cut(s: Bs, a: Bs, b: Bs)
    requires s == a + b
    ensures a <= s && s[|a|..] == b
  {
  }

  lemma {:induction false} ChunksExact(s: Bs, major: nat) returns (cs: seq<Chunk>)
    requires major < 7 && Chunks(s, major).Some?
    ensures ChunksOk(cs) && s == PiecesBytes(major, cs) + Chunks(s, major).value.rest
    decreases |s|
  {
    hide ChunkBytes, ChunkOk, Chunks;
    if AtBreak(s) {
      cs := [];
      ChunksEnd(major, s[1..]);
      BreakExact(s);
    } else {
      var c := ChunkExact(s, major);
      var after := s[|ChunkBytes(major, c)|..];
      var more := ChunksExact(after, major);
      cs := [c] + more;
      assert cs[1..] == more && s == ChunkBytes(major, c) + after;
    }
  }

  lemma StringExact(s: Bs, major: nat) returns (b: Body)
    requires 2 <= major <= 3 && ExpectString(s, major).Some?
    ensures BodyOk(b) && s == Encoded(Str(major, b)) + ExpectString(s, major).value.rest
  {
    hide HeadOf, HeadBytes, Chunks;
    var h := HeadOf(s).value;
    if h.len.Some? {
      var w := HeadExact(s);
      b := Whole(Chunk(w, h.rest[..h.len.value]));
      assert h.rest == h.rest[..h.len.value] + h.rest[h.len.value..];
    } else {
      OpenExact(s);
      var cs := ChunksExact(h.rest, major);
      b := Pieces(cs);
    }
  }

  // ----- Items -----

  predicate AllWell(es: seq<Enc>)
  {
    forall i :: 0 <= i < |es| ==> WellEncoded(es[i])
  }

  /** What is skipped is one item, encoded. */
  lemma {:induction false} SkippedIsItem(s: Bs) returns (e: Enc)
    requires Skip(s).Some?
    ensures WellEncoded(e) && s == Encoded(e) + Skip(s).value
    decreases |s|, 1, 0
  {
    hide HeadOf, HeadBytes, StrContents, SkipN, SkipUntilBreak, Fits;
    var h := HeadOf(s).value;
    if 2 <= h.major <= 3 {
      var b := StringExact(s, h.major);
      e := Str(h.major, b);
    } else if h.len.None? {
      OpenExact(s);
      if h.major <= 1 {
        e := Loose(h.major);
      } else {
        e := OpenSkipped(s);
      }
    } else {
      var w := HeadExact(s);
      if 4 <= h.major <= 5 {
        e := ListSkipped(s, w);
      } else {
        e := Num(h.major, w, h.len.value);
      }
    }
  }

  lemma {:induction false} ListSkipped(s: Bs, w: Width) returns (e: Enc)
    requires HeadOf(s).Some? && HeadOf(s).value.len.Some? && 4 <= HeadOf(s).value.major <= 5 && Skip(s).Some?
    requires var h := HeadOf(s).value; Fits(w, h.len.value) && s == HeadBytes(h.major, w, h.len.value) + h.rest
    ensures WellEncoded(e) && s == Encoded(e) + Skip(s).value
    decreases |s|, 0, 0
  {
    hide HeadOf, Skip, SkipN, HeadBytes, Fits, Encoded, WellEncoded, EncodedAll;
    var h, rest := HeadOf(s).value, Skip(s).value;
    var n := h.len.value;
    var m := if h.major == 4 then n else 2 * n;
    SkipList(s);
    var es := ManySkipped(h.rest, m);
    e := if h.major == 4 then Arr(Some(w), es) else Dict(Some(w), es);
    ListEncoded(e, h.major, w, n, es);
    assert HeadBytes(h.major, w, n) + EncodedAll(es) + rest == HeadBytes(h.major, w, n) + (EncodedAll(es) + rest);
  }

  lemma SkipList(s: Bs)
    requires HeadOf(s).Some? && 4 <= HeadOf(s).value.major && Skip(s).Some?
    requires HeadOf(s).value.major <= 5 || HeadOf(s).value.len.None?
    ensures var h := HeadOf(s).value;
            && h.major <= 5
            && Skip(s) == if h.len.None? then SkipUntilBreak(h.rest, h.major - 3)
                          else SkipN(h.rest, if h.major == 4 then h.len.value else 2 * h.len.value)
  {
    hide HeadOf, SkipN, SkipUntilBreak, StrContents;
  }

  lemma ListEncoded(e: Enc, major: nat, w: Width, n: nat, es: seq<Enc>)
    requires AllWell(es) && Fits(w, n) && 4 <= major <= 5
    requires || (major == 4 && |es| == n && e == Arr(Some(w), es))
             || (major == 5 && |es| == 2 * n && e == Dict(Some(w), es))
    ensures WellEncoded(e) && Encoded(e) == HeadBytes(major, w, n) + EncodedAll(es)
  {
    hide HeadBytes, Fits, EncodedAll;
  }

  lemma {:induction false} OpenSkipped(s: Bs) returns (e: Enc)
    requires HeadOf(s).Some? && HeadOf(s).value.len.None? && Skip(s).Some? && 4 <= HeadOf(s).value.major
    requires HeadOf(s).value.major < 7 ==> s == OpenHead(HeadOf(s).value.major) + HeadOf(s).value.rest
    ensures WellEncoded(e) && s == Encoded(e) + Skip(s).value
    decreases |s|, 0, 0
  {
    hide HeadOf, Skip, SkipUntilBreak, Encoded, WellEncoded, OpenHead, EncodedAll;
    var h, rest := HeadOf(s).value, Skip(s).value;
    SkipList(s);
    var es := UntilBreakSkipped(h.rest, h.major - 3);
    e := if h.major == 4 then Arr(None, es) else Dict(None, es);
    OpenEncoded(e, h.major, es);
    var head, body := OpenHead(h.major), EncodedAll(es);
    assert head + body + BREAK + rest == head + (body + BREAK + rest);
  }

  lemma OpenEncoded(e: Enc, major: nat, es: seq<Enc>)
    requires AllWell(es) && 4 <= major <= 5
    requires (major == 4 && e == Arr(None, es)) || (major == 5 && |es| % 2 == 0 && e == Dict(None, es))
    ensures WellEncoded(e) && Encoded(e) == OpenHead(major) + EncodedAll(es) + BREAK
  {
    hide EncodedAll;
  }

  lemma {:induction false} ManySkipped(s: Bs, n: nat) returns (es: seq<Enc>)
    requires SkipN(s, n).Some?
    ensures |es| == n && AllWell(es) && s == EncodedAll(es) + SkipN(s, n).value
    decreases |s|, 2, n
  {
    hide Skip, Encoded, WellEncoded;
    if n == 0 {
      es := [];
    } else {
      var e := SkippedIsItem(s);
      var more := ManySkipped(Skip(s).value, n - 1);
      es := [e] + more;
      assert es[1..] == more;
    }
  }

  lemma {:induction false} UntilBreakSkipped(s: Bs, stride: nat) returns (es: seq<Enc>)
    requires 1 <= stride <= 2 && SkipUntilBreak(s, stride).Some?
    ensures |es| % stride == 0 && AllWell(es) && s == EncodedAll(es) + BREAK + SkipUntilBreak(s, stride).value
    decreases |s|, 3, 0
  {
    hide Skip, Encoded, WellEncoded;
    if AtBreak(s) {
      es := [];
      BreakExact(s);
    } else {
      SkipOne(s, stride);
      var after := SkipN(s, stride).value;
      assert SkipUntilBreak(after, stride) == SkipUntilBreak(s, stride);
      hide SkipN, SkipUntilBreak, EncodedAll;
      var some := ManySkipped(s, stride);
      var more := UntilBreakSkipped(after, stride);
      es := some + more;
      AllJoin(some, more);
    }
  }

  lemma SkipOne(s: Bs, n: nat)
    requires n > 0 && Skip(s).Some?
    ensures SkipN(s, n) == SkipN(Skip(s).value, n - 1)
    ensures SkipN(s, n).Some? ==> |SkipN(s, n).value| < |s|
  {
    hide Skip;
  }

  lemma {:induction false} AllJoin(a: seq<Enc>, b: seq<Enc>)
    requires AllWell(a) && AllWell(b)
    ensures AllWell(a + b) && EncodedAll(a + b) == EncodedAll(a) + EncodedAll(b)
  {
    hide Encoded, WellEncoded;
    if a == [] {
      assert a + b == b;
    } else {
      AllJoin(a[1..], b);
      assert (a + b)[1..] == a[1..] + b;
    }
  }

  ghost predicate Encodes(s: Bs, e: Enc, rest: Bs)
  {
    WellEncoded(e) && s == Encoded(e) + rest
  }

  /** Skipping gets past some bytes if and only if they are the encoding of an item. */
  lemma SkipExact(s: Bs, rest: Bs)
    ensures Skip(s) == Some(rest) <==> exists e :: Encodes(s, e, rest)
  {
    hide Skip, Encoded, WellEncoded;
    if Skip(s) == Some(rest) {
      var e := SkippedIsItem(s);
      assert Encodes(s, e, rest);
    }
    if e :| Encodes(s, e, rest) {
      SkipEncoded(e, rest);
    }
  }

  // ----- The attestation document -----

  lemma UintSpelled(s: Bs) returns (e: Enc)
    requires ExpectUint(s).Some?
    ensures Encodes(s, e, ExpectUint(s).value.1)
  {
    hide HeadOf, HeadBytes, Fits;
    var w := HeadExact(s);
    e := Num(0, w, HeadOf(s).value.len.value);
  }

  lemma StringSpelled(s: Bs, major: nat) returns (e: Enc)
    requires 2 <= major <= 3 && ExpectString(s, major).Some?
    ensures Encodes(s, e, ExpectString(s, major).value.rest)
  {
    hide ExpectString, Encoded, BodyOk;
    var b := StringExact(s, major);
    e := Str(major, b);
  }

  /** A map, by its head, its keys and values, and its end. */
  lemma MapSpelled(s: Bs, es: seq<Enc>, rest: Bs) returns (e: Enc)
    requires HeadOf(s).Some? && HeadOf(s).value.major == 5 && AllWell(es)
    requires var h := HeadOf(s).value;
             && h.rest == EncodedAll(es) + (Close(h.len) + rest) && |es| % 2 == 0
             && (h.len.Some? ==> |es| == 2 * h.len.value)
    ensures Encodes(s, e, rest)
  {
    hide HeadOf, HeadBytes, Fits, Encoded, WellEncoded, EncodedAll, OpenHead;
    var h, body := HeadOf(s).value, EncodedAll(es);
    CloseBytes(body, h.len, rest);
    if h.len.Some? {
      var w := HeadExact(s);
      e := Dict(Some(w), es);
      ListEncoded(e, 5, w, h.len.value, es);
      assert HeadBytes(5, w, h.len.value) + (body + rest) == HeadBytes(5, w, h.len.value) + body + rest;
    } else {
      OpenExact(s);
      e := Dict(None, es);
      OpenEncoded(e, 5, es);
      assert OpenHead(5) + (body + BREAK + rest) == OpenHead(5) + body + BREAK + rest;
    }
  }

  lemma TwoSpelled(s: Bs, k: Enc, middle: Bs, v: Enc, rest: Bs) returns (es: seq<Enc>)
    requires Encodes(s, k, middle) && Encodes(middle, v, rest)
    ensures |es| == 2 && AllWell(es) && s == EncodedAll(es) + rest
  {
    hide Encoded, WellEncoded;
    es := [k, v];
    assert es[1..] == [v] && EncodedAll([v]) == Encoded(v) + EncodedAll([v][1..]);
    assert EncodedAll(es) == Encoded(k) + Encoded(v);
  }

  lemma PcrSpelled(s: Bs, f: Fields) returns (es: seq<Enc>)
    requires ParsePcr(s, f).Some?
    ensures |es| == 2 && AllWell(es) && s == EncodedAll(es) + ParsePcr(s, f).value.rest
  {
    hide ExpectUint, ExpectString, Encodes;
    var middle := ExpectUint(s).value.1;
    var k := UintSpelled(s);
    var v := StringSpelled(middle, 2);
    es := TwoSpelled(s, k, middle, v, ParsePcr(s, f).value.rest);
  }

  /** Two more in front of those that close it. */
  lemma TwoMore(s: Bs, two: seq<Enc>, middle: Bs, more: seq<Enc>, tail: Bs) returns (es: seq<Enc>)
    requires |two| == 2 && AllWell(two) && AllWell(more) && s == EncodedAll(two) + middle
    requires middle == EncodedAll(more) + tail && |more| % 2 == 0
    ensures |es| == 2 + |more| && |es| % 2 == 0 && AllWell(es) && s == EncodedAll(es) + tail
  {
    hide EncodedAll, WellEncoded;
    es := two + more;
    AllJoin(two, more);
  }

  lemma {:induction false} PcrsSpelled(s: Bs, n: Option<nat>, f: Fields) returns (es: seq<Enc>)
    requires ParsePcrs(s, n, f).Some?
    ensures |es| % 2 == 0 && AllWell(es) && (n.Some? ==> |es| == 2 * n.value)
    ensures s == EncodedAll(es) + (Close(n) + ParsePcrs(s, n, f).value.rest)
    decreases |s|
  {
    hide ParsePcr, WellEncoded;
    if n == Some(0) {
      es := [];
    } else if n.None? && AtBreak(s) {
      es := [];
      BreakExact(s);
    } else {
      var st := ParsePcr(s, f).value;
      var two := PcrSpelled(s, f);
      var more := PcrsSpelled(st.rest, Less(n), st.fields);
      es := TwoMore(s, two, st.rest, more, Close(n) + ParsePcrs(s, n, f).value.rest);
    }
  }

  /** The value of an entry. */
  lemma ValueSpelled(s: Bs, f: Fields) returns (v: Enc)
    requires ParseEntry(s, f).Some?
    ensures Encodes(ExpectString(s, 3).value.rest, v, ParseEntry(s, f).value.rest)
  {
    hide HeadOf, ExpectString, ExpectUint, ParsePcrs, Skip, Encodes;
    var key := ExpectString(s, 3).value;
    if key.bytes == PCRS {
      var h := HeadOf(key.rest).value;
      var es := PcrsSpelled(h.rest, h.len, f);
      v := MapSpelled(key.rest, es, ParseEntry(s, f).value.rest);
    } else if key.bytes == USER_DATA {
      v := StringSpelled(key.rest, 2);
    } else if key.bytes == TIMESTAMP {
      v := UintSpelled(key.rest);
    } else {
      v := SkipSpelled(key.rest);
    }
  }

  lemma SkipSpelled(s: Bs) returns (e: Enc)
    requires Skip(s).Some?
    ensures Encodes(s, e, Skip(s).value)
  {
    hide Skip, Encoded, WellEncoded;
    e := SkippedIsItem(s);
  }

  lemma EntrySpelled(s: Bs, f: Fields) returns (es: seq<Enc>)
    requires ParseEntry(s, f).Some?
    ensures |es| == 2 && AllWell(es) && s == EncodedAll(es) + ParseEntry(s, f).value.rest
  {
    hide ExpectString, Encodes;
    assert ExpectString(s, 3).Some?;
    var k := StringSpelled(s, 3);
    var v := ValueSpelled(s, f);
    es := TwoSpelled(s, k, ExpectString(s, 3).value.rest, v, ParseEntry(s, f).value.rest);
  }

  lemma {:induction false} EntriesSpelled(s: Bs, n: Option<nat>, f: Fields) returns (es: seq<Enc>)
    requires ParseEntries(s, n, f).Some?
    ensures |es| % 2 == 0 && AllWell(es) && (n.Some? ==> |es| == 2 * n.value)
    ensures s == EncodedAll(es) + (Close(n) + ParseEntries(s, n, f).value.rest)
    decreases |s|
  {
    hide ParseEntry, WellEncoded;
    if n == Some(0) {
      es := [];
    } else if n.None? && AtBreak(s) {
      es := [];
      BreakExact(s);
    } else {
      var st := ParseEntry(s, f).value;
      var two := EntrySpelled(s, f);
      var more := EntriesSpelled(st.rest, Less(n), st.fields);
      es := TwoMore(s, two, st.rest, more, Close(n) + ParseEntries(s, n, f).value.rest);
    }
  }

  /** The bytes begin with the encoding of a document that says this. */
  ghost predicate Presents(s: Bs, e: Enc, rest: Bs, r: Attested)
  {
    Encodes(s, e, rest) && Says(DocOf(e), r)
  }

  /** For all bytes: they are read with this result if and only if they begin with the encoding of a document that says
      so. */
  lemma AcceptedExact(s: Bs, r: Attested)
    ensures ParseAttestation(s) == Some(r) <==> exists e, rest :: Presents(s, e, rest, r)
  {
    hide HeadOf, ParseEntries, Encoded, WellEncoded, Says, Finish;
    if ParseAttestation(s) == Some(r) {
      var h := HeadOf(s).value;
      var es := EntriesSpelled(h.rest, h.len, NOTHING);
      var rest := ParseEntries(h.rest, h.len, NOTHING).value.rest;
      var e := MapSpelled(s, es, rest);
      ParsedExact(e, rest, r);
      assert Presents(s, e, rest, r);
    }
    if e, rest :| Presents(s, e, rest, r) {
      ParsedExact(e, rest, r);
    }
  }
}
