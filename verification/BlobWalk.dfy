/** What the client accepts of a decoded payload, for all bytes: which lists of header hashes it agrees with. */
module BlobWalk {
  import opened Bytes
  import opened Rlp
  import opened RlpExact
  import opened Blobs

  /** A block entry as the walk sees it: the fields of a header, and bytes that it does not look at. */
  datatype View = View(fields: seq<byte>, tail: seq<byte>)

  function HeaderOf(v: View): seq<byte>
  {
    EncodeList(v.fields)
  }

  function EntriesOf(vs: seq<View>): seq<byte>
  {
    if vs == [] then [] else EncodeList(HeaderOf(vs[0]) + vs[0].tail) + EntriesOf(vs[1..])
  }

  predicate Short(vs: seq<View>)
  {
    forall i :: 0 <= i < |vs| ==> |HeaderOf(vs[i]) + vs[i].tail| < WORD
  }

  function HashesSeen(H: Hasher, vs: seq<View>): seq<Bytes32>
  {
    if vs == [] then [] else [H(HeaderOf(vs[0]))] + HashesSeen(H, vs[1..])
  }

  /** These bytes are entries with these header hashes. */
  ghost predicate Shows(H: Hasher, c: seq<byte>, vs: seq<View>, hashes: seq<Bytes32>)
  {
    Short(vs) && c == EntriesOf(vs) && hashes == HashesSeen(H, vs)
  }

  function Standing(c: seq<byte>): Iter
  {
    Iter(c, true, |c|, false)
  }

  /** One entry that is read is one entry written down. */
  lemma EntryExact(H: Hasher, c: seq<byte>) returns (v: View)
    requires NextBlock(H, Standing(c)).1.Some? && NextBlock(H, Standing(c)).1.value.BlockHash?
    ensures var e := EncodeList(HeaderOf(v) + v.tail);
            && |HeaderOf(v) + v.tail| < WORD && e <= c && e != []
            && NextBlock(H, Standing(c)) == (Standing(c[|e|..]), Some(BlockHash(H(HeaderOf(v)))))
  {
    hide ParseHeader, EncodeList;
    HeaderExact(c);
    var inner := FirstPayload(c);
    HeaderExact(inner);
    var header := FirstItem(inner);
    v := View(FirstPayload(inner), inner[|header|..]);
    assert header + v.tail == inner;
    EncodeListSize(inner);
  }

  lemma EntryReads(H: Hasher, v: View, rest: seq<byte>)
    requires |HeaderOf(v) + v.tail| < WORD
    ensures NextBlock(H, Standing(EncodeList(HeaderOf(v) + v.tail) + rest))
         == (Standing(rest), Some(BlockHash(H(HeaderOf(v)))))
  {
    hide ParseHeader, EncodeList, NextBlock;
    var header, inner := HeaderOf(v), HeaderOf(v) + v.tail;
    var e := EncodeList(inner);
    var c := e + rest;
    EncodeListSize(v.fields);
    EncodeListSize(inner);
    ParseList(inner, rest);
    ParseList(v.fields, []);
    ParseList(v.fields, v.tail);
    assert header + [] == header;
    assert c[|e| - |inner|..|e|] == e[|e| - |inner|..] && c[|e|..] == rest;
    NextBlockReads(H, Standing(c), |e|, inner, header);
  }

  lemma {:induction false} WalkShows(H: Hasher, c: seq<byte>, hashes: seq<Bytes32>) returns (vs: seq<View>)
    requires Lockstep(H, Standing(c), hashes)
    ensures Shows(H, c, vs, hashes)
    decreases |hashes|
  {
    hide NextBlock, EncodeList;
    if hashes == [] {
      vs := [];
      AtEnd(H, c);
    } else {
      var v := EntryExact(H, c);
      var e := EncodeList(HeaderOf(v) + v.tail);
      var more := WalkShows(H, c[|e|..], hashes[1..]);
      vs := [v] + more;
      assert vs[1..] == more && c == e + c[|e|..] && hashes == [hashes[0]] + hashes[1..];
    }
  }

  lemma AtEnd(H: Hasher, c: seq<byte>)
    requires NextBlock(H, Standing(c)).1.None?
    ensures c == []
  {
    hide ParseHeader;
  }

  lemma {:induction false} ShowsWalks(H: Hasher, vs: seq<View>)
    requires Short(vs)
    ensures Lockstep(H, Standing(EntriesOf(vs)), HashesSeen(H, vs))
    decreases |vs|
  {
    hide NextBlock, EncodeList;
    if vs == [] {
      NothingLeft(H);
    } else {
      ShowsWalks(H, vs[1..]);
      EntryReads(H, vs[0], EntriesOf(vs[1..]));
      assert HashesSeen(H, vs)[1..] == HashesSeen(H, vs[1..]);
    }
  }

  lemma NothingLeft(H: Hasher)
    ensures NextBlock(H, Standing([])) == (Standing([]), None)
  {
  }

  /** The walk starts inside a list that is the whole payload. */
  lemma WalkStarts(H: Hasher, c: seq<byte>)
    requires |c| < WORD
    ensures Next(H, Iter(EncodeList(c), false, 0, false)) == NextBlock(H, Standing(c))
  {
    hide ParseHeader, EncodeList, NextBlock;
    ParseList(c, []);
    EncodeListSize(c);
    var e := EncodeList(c);
    assert e + [] == e;
  }

  /** The payload is one list of these entries, and these are the hashes of their headers. */
  ghost predicate Holds(H: Hasher, p: seq<byte>, vs: seq<View>, hashes: seq<Bytes32>)
  {
    |EntriesOf(vs)| < WORD && p == EncodeList(EntriesOf(vs)) && Shows(H, EntriesOf(vs), vs, hashes)
  }

  /** For all bytes and all hashes: the check passes if and only if there are no bytes and no hash is expected, or the
      bytes are one list of entries, each a list that begins with a header, and the hashes are those of the headers, in
      order. What follows a header in its entry makes no difference. */
  lemma WalkExact(H: Hasher, p: seq<byte>, hashes: seq<Bytes32>)
    ensures Lockstep(H, Iter(p, false, 0, false), hashes) <==>
              (p == [] && hashes == []) || exists vs :: Holds(H, p, vs, hashes)
  {
    hide ParseHeader, EncodeList, NextBlock, EntriesOf, Shows;
    var start := Iter(p, false, 0, false);
    if Lockstep(H, start, hashes) && p != [] {
      var c := Started(H, p);
      SameWalk(H, start, Standing(c), hashes);
      var vs := WalkShows(H, c, hashes);
      ShownAre(H, c, vs, hashes);
      assert Holds(H, p, vs, hashes);
    }
    if vs :| Holds(H, p, vs, hashes) {
      var c := EntriesOf(vs);
      WalkStarts(H, c);
      ShownWalks(H, vs, hashes);
      SameWalk(H, start, Standing(c), hashes);
    }
  }

  lemma ShownAre(H: Hasher, c: seq<byte>, vs: seq<View>, hashes: seq<Bytes32>)
    requires Shows(H, c, vs, hashes)
    ensures c == EntriesOf(vs) && Shows(H, EntriesOf(vs), vs, hashes)
  {
  }

  lemma ShownWalks(H: Hasher, vs: seq<View>, hashes: seq<Bytes32>)
    requires Shows(H, EntriesOf(vs), vs, hashes)
    ensures Lockstep(H, Standing(EntriesOf(vs)), hashes)
  {
    hide Lockstep;
    ShowsWalks(H, vs);
  }

  /** A walk that does not fail at once starts on a list that is all there is. */
  lemma Started(H: Hasher, p: seq<byte>) returns (c: seq<byte>)
    requires p != [] && Next(H, Iter(p, false, 0, false)).1 != Some(Bad)
    ensures |c| < WORD && p == EncodeList(c)
    ensures Next(H, Iter(p, false, 0, false)) == NextBlock(H, Standing(c))
  {
    hide ParseHeader, EncodeList, NextBlock;
    HeaderExact(p);
    c := FirstPayload(p);
    assert FirstItem(p) == p;
    WalkStarts(H, c);
  }

  lemma SameWalk(H: Hasher, a: Iter, b: Iter, hashes: seq<Bytes32>)
    requires Next(H, a) == Next(H, b)
    ensures Lockstep(H, a, hashes) == Lockstep(H, b, hashes)
  {
    hide Next;
  }
}
