/** What is in the blobs, read back from the bytes alone: every block with its header and its transactions in order,
    and where each byte of the stream lies. */
module BlobContents {
  import opened Bytes
  import opened Rlp
  import opened Blobs

  // ----- Reading a payload -----

  /** The payload of a list that takes all the bytes. */
  function ListOf(e: seq<byte>): Option<seq<byte>>
  {
    match ParseHeader(e)
    case None => None
    case Some(h) => if h.list && h.prefix + h.payload == |e| then Some(e[h.prefix..]) else None
  }

  function ReadStrings(items: seq<seq<byte>>): Option<seq<seq<byte>>>
  {
    if items == [] then Some([]) else
      match (StringOf(items[0]), ReadStrings(items[1..]))
      case (Some(x), Some(xs)) => Some([x] + xs)
      case _ => None
  }

  /** A list of strings. */
  function ReadTxs(e: seq<byte>): Option<seq<seq<byte>>>
  {
    match ListOf(e)
    case None => None
    case Some(p) => match Items(p) case None => None case Some(items) => ReadStrings(items)
  }

  /** A list of two: the header as it is, and the list of transactions. */
  function ReadBlock(e: seq<byte>): Option<FetchedBlock>
  {
    match ListOf(e)
    case None => None
    case Some(p) =>
      match Items(p)
      case None => None
      case Some(items) =>
        if |items| != 2 then None else
          match ReadTxs(items[1])
          case None => None
          case Some(txs) => Some(FetchedBlock(items[0], txs))
  }

  function ReadBlocks(items: seq<seq<byte>>): Option<seq<FetchedBlock>>
  {
    if items == [] then Some([]) else
      match (ReadBlock(items[0]), ReadBlocks(items[1..]))
      case (Some(b), Some(bs)) => Some([b] + bs)
      case _ => None
  }

  /** A list of blocks. */
  function ReadPayload(e: seq<byte>): Option<seq<FetchedBlock>>
  {
    match ListOf(e)
    case None => None
    case Some(p) => match Items(p) case None => None case Some(items) => ReadBlocks(items)
  }

  // ----- Read back -----

  lemma ListOfEncode(p: seq<byte>)
    requires |p| < WORD
    ensures ListOf(EncodeList(p)) == Some(p) && IsItem(EncodeList(p))
  {
    hide ParseHeader, HeaderBytes;
    ParseList(p, []);
    assert EncodeList(p) + [] == EncodeList(p);
  }

  lemma {:induction false} TxsBytesCons(t: seq<byte>, ts: seq<seq<byte>>)
    ensures TxsBytes([t] + ts) == EncodeString(t) + TxsBytes(ts)
    decreases |ts|
  {
    hide EncodeString;
    var all := [t] + ts;
    if ts == [] {
      assert all[..0] == [] && all == [t];
    } else {
      TxsBytesCons(t, ts[..|ts| - 1]);
      assert all[..|all| - 1] == [t] + ts[..|ts| - 1];
    }
  }

  lemma {:induction false} TxsRead(ts: seq<seq<byte>>)
    requires |TxsBytes(ts)| < WORD
    ensures Items(TxsBytes(ts)).Some? && ReadStrings(Items(TxsBytes(ts)).value) == Some(ts)
  {
    hide Items, ParseHeader, EncodeString, StringOf, IsItem;
    if ts == [] {
      NoItems();
    } else {
      var t, rest := ts[0], ts[1..];
      assert ts == [t] + rest;
      TxsBytesCons(t, rest);
      StringShorter(t);
      TxsRead(rest);
      ParseString(t, []);
      ItemsCons(EncodeString(t), TxsBytes(rest));
      StringOfEncode(t);
      var items := Items(TxsBytes(ts)).value;
      assert items[0] == EncodeString(t) && items[1..] == Items(TxsBytes(rest)).value;
    }
  }

  lemma NoItems()
    ensures Items([]) == Some([])
  {
  }

  lemma StringShorter(t: seq<byte>)
    ensures |t| <= |EncodeString(t)|
  {
  }

  lemma BlockRead(b: FetchedBlock)
    requires IsItem(b.headerRlp) && |BlockPayload(b)| < WORD
    ensures ReadBlock(EncodeList(BlockPayload(b))) == Some(b) && IsItem(EncodeList(BlockPayload(b)))
  {
    hide Items, ParseHeader, IsItem, ReadStrings, EncodeList, TxsBytes, ListOf;
    var txs := TxsBytes(b.txEnvelopes);
    ListLonger(txs);
    ListOfEncode(BlockPayload(b));
    ListOfEncode(txs);
    ItemsTwo(b.headerRlp, EncodeList(txs));
    TxsRead(b.txEnvelopes);
  }

  lemma ListLonger(p: seq<byte>)
    ensures |p| < |EncodeList(p)|
  {
  }

  lemma {:induction false} BlocksRead(bs: seq<FetchedBlock>)
    requires (forall i :: 0 <= i < |bs| ==> IsItem(bs[i].headerRlp)) && |BlocksBytes(bs)| < WORD
    ensures Items(BlocksBytes(bs)).Some? && ReadBlocks(Items(BlocksBytes(bs)).value) == Some(bs)
  {
    hide Items, EncodeList, ReadBlock, IsItem, BlockPayload;
    if bs == [] {
      NoItems();
    } else {
      var b, rest := bs[0], bs[1..];
      assert bs == [b] + rest;
      BlocksBytesCons(b, rest);
      ListLonger(BlockPayload(b));
      BlocksRead(rest);
      BlockRead(b);
      ItemsCons(EncodeList(BlockPayload(b)), BlocksBytes(rest));
      var items := Items(BlocksBytes(bs)).value;
      assert items[0] == EncodeList(BlockPayload(b)) && items[1..] == Items(BlocksBytes(rest)).value;
    }
  }

  /** The payload holds the blocks: read from its bytes, it gives every block in order, with its header and exactly
      its transactions in order. */
  lemma PayloadRead(bs: seq<FetchedBlock>)
    requires ListHeaders(bs) && |BlocksBytes(bs)| < WORD
    ensures ReadPayload(Payload(bs)) == Some(bs)
  {
    hide Items, ListOf, ReadBlocks, EncodeList, BlocksBytes;
    ListOfEncode(BlocksBytes(bs));
    BlocksRead(bs);
  }

  /** So no two lists of blocks have one payload. */
  lemma PayloadInjective(bs: seq<FetchedBlock>, bs': seq<FetchedBlock>)
    requires ListHeaders(bs) && |BlocksBytes(bs)| < WORD && ListHeaders(bs') && |BlocksBytes(bs')| < WORD
    requires Payload(bs) == Payload(bs')
    ensures bs == bs'
  {
    hide Payload, ReadPayload, BlocksBytes;
    PayloadRead(bs);
    PayloadRead(bs');
  }

  /** From blocks to blobs and back: what decoding gives can be read, and gives the blocks. */
  lemma BlocksRoundTrip(compress: Compressor, decompress: Decompressor, bs: seq<FetchedBlock>)
    requires Inverse(compress, decompress) && ListHeaders(bs) && |BlocksBytes(bs)| < WORD
    ensures var raw := AllRaw(CanonicalAll(Chunks(Stream(compress, bs))));
            raw != [] && decompress(raw[1..]).Some? && ReadPayload(decompress(raw[1..]).value) == Some(bs)
  {
    hide Payload, ReadPayload, BlocksBytes, AllRaw, CanonicalAll, Chunks, Stream, AllWellFormed;
    BlobsRoundTrip(compress, decompress, bs);
    PayloadRead(bs);
  }

  // ----- Where the bytes lie -----

  lemma {:induction false} ChunkAt(stream: seq<byte>, n: nat)
    requires 126976 * n < |stream|
    ensures var cs := Chunks(stream);
            && n < |cs| && |CanonicalAll(cs)| == |cs| && CanonicalAll(cs)[n] == Canonical(cs[n])
            && cs[n] == stream[126976 * n..if 126976 * (n + 1) < |stream| then 126976 * (n + 1) else |stream|]
    decreases |stream|
  {
    hide Canonical;
    var cs := Chunks(stream);
    if n > 0 {
      var rest := stream[MAX_RAW..];
      ChunkAt(rest, n - 1);
      assert cs == [stream[..MAX_RAW]] + Chunks(rest) && cs[1..] == Chunks(rest);
      assert CanonicalAll(cs)[n] == CanonicalAll(Chunks(rest))[n - 1];
      var end := if 126976 * n < |rest| then 126976 * n else |rest|;
      assert rest[126976 * (n - 1)..end] == stream[126976 * n..end + 126976];
    } else {
      assert CanonicalAll(cs)[0] == Canonical(cs[0]);
      assert |stream| <= MAX_RAW ==> cs[0] == stream[0..|stream|];
    }
  }

  lemma {:induction false} ChunkCount(stream: seq<byte>)
    ensures |Chunks(stream)| == (|stream| + 126975) / 126976
    decreases |stream|
  {
    if |stream| > MAX_RAW { ChunkCount(stream[MAX_RAW..]); }
  }

  /** The stream begins with the version byte 1. Each blob takes 126976 bytes of it, 31 to a field element, behind a
      zero byte; what is left over is zero. */
  lemma BlobLayout(compress: Compressor, bs: seq<FetchedBlock>, n: nat, field: nat, j: nat)
    requires field < 4096 && j < 31
    ensures var stream := [1] + compress(Payload(bs));
            var blobs := CanonicalAll(Chunks(Stream(compress, bs)));
            && |blobs| == (|stream| + 126975) / 126976
            && (n < |blobs| ==>
                  && |blobs[n]| == 131072 && blobs[n][32 * field] == 0
                  && var at := 126976 * n + 31 * field + j;
                     blobs[n][32 * field + 1 + j] == if at < |stream| then stream[at] else 0)
  {
    hide Payload, Chunks, CanonicalAll;
    var stream := Stream(compress, bs);
    ChunkCount(stream);
    var blobs := CanonicalAll(Chunks(stream));
    if n < |blobs| {
      ChunkAt(stream, n);
      FieldLayout(Chunks(stream)[n], field, j);
    }
  }

  lemma FieldLayout(raw: seq<byte>, field: nat, j: nat)
    requires field < 4096 && j < 31
    ensures Canonical(raw)[32 * field] == 0
    ensures Canonical(raw)[32 * field + 1 + j] == if 31 * field + j < |raw| then raw[31 * field + j] else 0
  {
    var k := 32 * field + 1 + j;
    assert k / 32 == field && k % 32 == 1 + j;
    assert (32 * field) % 32 == 0;
  }

  // ----- Which blobs are read -----

  lemma {:induction false} RawAt(blob: seq<byte>, fields: nat, field: nat, j: nat)
    requires 32 * fields <= |blob| && field < fields && j < 31
    ensures RawBytes(blob, fields)[31 * field + j] == blob[32 * field + 1 + j]
  {
    if field < fields - 1 { RawAt(blob, fields - 1, field, j); }
  }

  /** The bytes of a blob that are looked at. */
  function Looked(blob: seq<byte>): nat
  {
    if |blob| < 131072 then |blob| else 131072
  }

  /** Behind the first byte of each field element, the canonical blob of what is read is the blob. */
  lemma SameBehind(blob: seq<byte>, field: nat, r: nat)
    requires field < FieldsRead(blob) && r < 32
    ensures Canonical(RawBytes(blob, FieldsRead(blob)))[32 * field + r] == if r == 0 then 0 else blob[32 * field + r]
  {
    hide Canonical, RawBytes, FieldsRead;
    var n := FieldsRead(blob);
    var raw := RawBytes(blob, n);
    if r == 0 {
      FieldLayout(raw, field, 0);
    } else {
      FieldLayout(raw, field, r - 1);
      RawAt(blob, n, field, r - 1);
    }
  }

  lemma FieldOf(blob: seq<byte>, k: nat)
    requires |blob| % 32 == 0 && k < Looked(blob)
    ensures k / 32 < FieldsRead(blob) && k == 32 * (k / 32) + k % 32
  {
  }

  lemma FirstBytes(blob: seq<byte>)
    requires |blob| % 32 == 0
    ensures WellFormedBlob(blob) <==> forall k :: 0 <= k < Looked(blob) && k % 32 == 0 ==> blob[k] == 0
  {
    if WellFormedBlob(blob) {
      forall k | 0 <= k < Looked(blob) && k % 32 == 0 ensures blob[k] == 0 {
        assert blob[32 * (k / 32)] == 0;
      }
    }
    forall f | 0 <= f < FieldsRead(blob) ensures 32 * f < Looked(blob) && (32 * f) % 32 == 0 {
    }
  }

  /** A blob of any length is read if and only if it consists of whole field elements and is, as far as it is looked at,
      the canonical blob of what is read. */
  lemma ReadExact(blob: seq<byte>)
    ensures WellFormedBlob(blob) <==>
              && |blob| % 32 == 0
              && Canonical(RawBytes(blob, FieldsRead(blob)))[..Looked(blob)] == blob[..Looked(blob)]
  {
    if |blob| % 32 == 0 {
      var l, c := Looked(blob), Canonical(RawBytes(blob, FieldsRead(blob)));
      hide Canonical, RawBytes, WellFormedBlob, Looked;
      assert l <= |blob| && l <= |c| by { Bounded(blob); }
      FirstBytes(blob);
      forall k | 0 <= k < l ensures c[k] == if k % 32 == 0 then 0 else blob[k] {
        FieldOf(blob, k);
        SameBehind(blob, k / 32, k % 32);
      }
      assert c[..l] == blob[..l] <==> forall k :: 0 <= k < l ==> c[k] == blob[k] by { SamePrefix(c, blob, l); }
    }
  }

  lemma Bounded(blob: seq<byte>)
    ensures Looked(blob) <= |blob| && Looked(blob) <= 131072
  {
  }

  lemma SamePrefix(a: seq<byte>, b: seq<byte>, l: nat)
    requires l <= |a| && l <= |b|
    ensures a[..l] == b[..l] <==> forall k :: 0 <= k < l ==> a[k] == b[k]
  {
    if a[..l] == b[..l] {
      forall k | 0 <= k < l ensures a[k] == b[k] { assert a[..l][k] == b[..l][k]; }
    }
  }
}
