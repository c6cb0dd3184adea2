/** Building EIP-4844 blobs from blocks and reading them back inside the enclave.

    Brotli is a pair of parameters; all that is asked of it is that decompression gives back what was
    compressed, also when zero bytes follow. */
module Blobs {
  import opened Bytes
  import opened Rlp

  const BYTES_PER_BLOB := 131072
  const BYTES_PER_FIELD := 31
  const FIELDS_PER_BLOB := 4096
  const MAX_RAW := 126976
  const VERSION: byte := 0x01

  type Hasher = seq<byte> -> Bytes32
  datatype FetchedBlock = FetchedBlock(headerRlp: seq<byte>, txEnvelopes: seq<seq<byte>>)
  datatype Result<+T> = Ok(value: T) | Err(message: string)

  function Zeros(n: nat): (s: seq<byte>)
    ensures |s| == n && forall i :: 0 <= i < n ==> s[i] == 0
  {
    seq(n, _ => 0)
  }

  // ----- The payload -----

  function TxsBytes(txs: seq<seq<byte>>): seq<byte>
  {
    if txs == [] then [] else TxsBytes(txs[..|txs| - 1]) + EncodeString(txs[|txs| - 1])
  }

  function BlockPayload(b: FetchedBlock): seq<byte>
  {
    b.headerRlp + EncodeList(TxsBytes(b.txEnvelopes))
  }

  function BlocksBytes(bs: seq<FetchedBlock>): seq<byte>
  {
    if bs == [] then [] else BlocksBytes(bs[..|bs| - 1]) + EncodeList(BlockPayload(bs[|bs| - 1]))
  }

  /** The wire format: a list of blocks, each the verbatim header and the list of its transactions. */
  function Payload(bs: seq<FetchedBlock>): seq<byte>
  {
    EncodeList(BlocksBytes(bs))
  }

  /** What the transactions of a block will take, by their `length()`. */
  method TxsLength(txs: seq<seq<byte>>) returns (n: nat)
    ensures n == |TxsBytes(txs)|
  {
    hide EncodeString;
    n := 0;
    for i := 0 to |txs|
      invariant n == |TxsBytes(txs[..i])|
    {
      n := n + StringLength(txs[i]);
      assert txs[..i + 1][..i] == txs[..i];
    }
    assert txs[..|txs|] == txs;
  }

  method BlockLength(b: FetchedBlock) returns (txs: nat, block: nat)
    ensures txs == |TxsBytes(b.txEnvelopes)| && block == |BlockPayload(b)|
  {
    hide HeaderBytes, LengthOfLength;
    txs := TxsLength(b.txEnvelopes);
    block := |b.headerRlp| + LengthOfLength(txs) + txs;
  }

  method BlocksLength(bs: seq<FetchedBlock>) returns (outer: nat)
    ensures outer == |BlocksBytes(bs)|
  {
    hide HeaderBytes, LengthOfLength, BlockPayload;
    outer := 0;
    for i := 0 to |bs|
      invariant outer == |BlocksBytes(bs[..i])|
    {
      var _, block := BlockLength(bs[i]);
      outer := outer + LengthOfLength(block) + block;
      assert bs[..i + 1][..i] == bs[..i];
    }
    assert bs[..|bs|] == bs;
  }

  method AppendBlock(start: seq<byte>, b: FetchedBlock) returns (out: seq<byte>)
    ensures out == start + EncodeList(BlockPayload(b))
  {
    hide HeaderBytes, TxsBytes;
    var txs, block := BlockLength(b);
    out := start + HeaderBytes(true, block);
    out := out + b.headerRlp;
    out := out + HeaderBytes(true, txs);
    out := AppendTxs(out, b.txEnvelopes);
  }

  /** Lengths first, then the bytes: the lengths announced are the lengths written. */
  method EncodeBatchPayload(bs: seq<FetchedBlock>) returns (out: seq<byte>)
    ensures out == Payload(bs)
  {
    hide HeaderBytes, BlockPayload;
    var outer := BlocksLength(bs);
    var header := HeaderBytes(true, outer);
    out := header;
    for i := 0 to |bs|
      invariant out == header + BlocksBytes(bs[..i])
    {
      out := AppendBlock(out, bs[i]);
      assert bs[..i + 1][..i] == bs[..i];
    }
    assert bs[..|bs|] == bs;
  }

  method AppendTxs(start: seq<byte>, txs: seq<seq<byte>>) returns (out: seq<byte>)
    ensures out == start + TxsBytes(txs)
  {
    hide EncodeString;
    out := start;
    for i := 0 to |txs|
      invariant out == start + TxsBytes(txs[..i])
    {
      out := out + EncodeString(txs[i]);
      assert txs[..i + 1][..i] == txs[..i];
    }
    assert txs[..|txs|] == txs;
  }

  // ----- Field elements -----

  /** Byte `k` of the blob that holds `raw`: every 32nd byte is zero, the others are filled in order. */
  function CanonicalByte(raw: seq<byte>, k: nat): byte
  {
    if k % 32 == 0 || k / 32 * 31 + k % 32 - 1 >= |raw| then 0 else raw[k / 32 * 31 + k % 32 - 1]
  }

  function Canonical(raw: seq<byte>): (s: seq<byte>)
    ensures |s| == BYTES_PER_BLOB && forall k :: 0 <= k < BYTES_PER_BLOB ==> s[k] == CanonicalByte(raw, k)
  {
    seq(BYTES_PER_BLOB, k requires 0 <= k => CanonicalByte(raw, k))
  }

  method Canonicalize(raw: seq<byte>) returns (blob: seq<byte>)
    requires |raw| <= MAX_RAW
    ensures blob == Canonical(raw)
  {
    hide CanonicalByte;
    var out := new byte[BYTES_PER_BLOB](_ => 0);
    var src, field := 0, 0;
    while src < |raw|
      invariant src == if field * 31 < |raw| then field * 31 else |raw|
      invariant field <= FIELDS_PER_BLOB && (src == |raw| || field < FIELDS_PER_BLOB)
      invariant forall k :: 0 <= k < 32 * field ==> out[k] == CanonicalByte(raw, k)
      invariant forall k :: 32 * field <= k < BYTES_PER_BLOB ==> out[k] == 0
    {
      var dst := 32 * field + 1;
      var take := if BYTES_PER_FIELD < |raw| - src then BYTES_PER_FIELD else |raw| - src;
      forall j | 0 <= j < take {
        out[dst + j] := raw[src + j];
      }
      forall k | 32 * field <= k < 32 * field + 32 ensures out[k] == CanonicalByte(raw, k) {
        CanonicalInField(raw, field, k - 32 * field);
        if 1 <= k - 32 * field < 1 + take { assert out[dst + (k - dst)] == raw[src + (k - dst)]; }
      }
      src := src + take;
      field := field + 1;
    }
    forall k | 32 * field <= k < BYTES_PER_BLOB ensures out[k] == CanonicalByte(raw, k) {
      CanonicalInField(raw, k / 32, k % 32);
    }
    blob := out[..];
  }

  lemma CanonicalInField(raw: seq<byte>, field: nat, r: nat)
    requires r < 32
    ensures CanonicalByte(raw, 32 * field + r)
         == if r == 0 || field * 31 + r - 1 >= |raw| then 0 else raw[field * 31 + r - 1]
  {
    assert (32 * field + r) / 32 == field && (32 * field + r) % 32 == r;
  }

  /** How many field elements of a blob are read. */
  function FieldsRead(blob: seq<byte>): (n: nat)
    ensures n <= FIELDS_PER_BLOB && 32 * n <= |blob|
  {
    if |blob| / 32 < FIELDS_PER_BLOB then |blob| / 32 else FIELDS_PER_BLOB
  }

  /** The payload bytes of the field elements. */
  function RawBytes(blob: seq<byte>, fields: nat): (s: seq<byte>)
    requires 32 * fields <= |blob|
    ensures |s| == 31 * fields
  {
    if fields == 0 then [] else RawBytes(blob, fields - 1) + blob[32 * fields - 31..32 * fields]
  }

  ghost predicate WellFormedBlob(blob: seq<byte>)
  {
    |blob| % 32 == 0 && forall f :: 0 <= f < FieldsRead(blob) ==> blob[32 * f] == 0
  }

  method Decanonicalize(blob: seq<byte>) returns (r: Result<seq<byte>>)
    ensures r.Ok? <==> WellFormedBlob(blob)
    ensures r.Ok? ==> r.value == RawBytes(blob, FieldsRead(blob))
  {
    if |blob| % 32 != 0 {
      return Err("blob length is not a multiple of 32");
    }
    var result, offset := [], 0;
    ghost var f := 0;
    while offset < |blob| && |result| < MAX_RAW
      invariant offset == 32 * f && f <= FieldsRead(blob)
      invariant result == RawBytes(blob, f)
      invariant forall g :: 0 <= g < f ==> blob[32 * g] == 0
    {
      if blob[offset] != 0 {
        return Err("non-canonical field element");
      }
      offset := offset + 1;
      var remaining := MAX_RAW - |result|;
      var take := Min(Min(remaining, BYTES_PER_FIELD), |blob| - offset);
      result := result + blob[offset..offset + take];
      offset := offset + BYTES_PER_FIELD;
      f := f + 1;
    }
    r := Ok(result);
  }

  function Min(a: int, b: int): int
  {
    if a < b then a else b
  }

  lemma {:induction false} RawOfCanonical(raw: seq<byte>, fields: nat)
    requires fields <= FIELDS_PER_BLOB
    ensures RawBytes(Canonical(raw), fields) == (raw + Zeros(MAX_RAW))[..31 * fields]
  {
    hide CanonicalByte;
    if fields > 0 {
      RawOfCanonical(raw, fields - 1);
      var blob, all := Canonical(raw), raw + Zeros(MAX_RAW);
      var x, y := blob[32 * fields - 31..32 * fields], all[31 * (fields - 1)..31 * fields];
      forall j | 0 <= j < 31 ensures x[j] == y[j] {
        CanonicalInField(raw, fields - 1, 1 + j);
        assert x[j] == blob[32 * (fields - 1) + (1 + j)];
      }
      assert x == y;
      assert all[..31 * fields] == all[..31 * (fields - 1)] + all[31 * (fields - 1)..31 * fields];
    }
  }

  /** Reading a blob gives its raw bytes, followed by zeros up to its capacity. */
  lemma CanonicalRoundTrip(raw: seq<byte>)
    requires |raw| <= MAX_RAW
    ensures WellFormedBlob(Canonical(raw))
    ensures RawBytes(Canonical(raw), FieldsRead(Canonical(raw))) == raw + Zeros(MAX_RAW - |raw|)
  {
    RawOfCanonical(raw, FIELDS_PER_BLOB);
    assert (raw + Zeros(MAX_RAW))[..MAX_RAW] == raw + Zeros(MAX_RAW - |raw|);
    hide CanonicalByte;
    forall f | 0 <= f < FIELDS_PER_BLOB ensures Canonical(raw)[32 * f] == 0 {
      CanonicalInField(raw, f, 0);
    }
  }

  // ----- Building and decoding a sequence of blobs -----

  /** `chunks(MAX_RAW)` */
  function Chunks(stream: seq<byte>): (cs: seq<seq<byte>>)
    ensures forall i :: 0 <= i < |cs| ==> 0 < |cs[i]| <= MAX_RAW
    decreases |stream|
  {
    if stream == [] then []
    else if |stream| <= MAX_RAW then [stream]
    else [stream[..MAX_RAW]] + Chunks(stream[MAX_RAW..])
  }

  function CanonicalAll(cs: seq<seq<byte>>): (bs: seq<seq<byte>>)
    ensures |bs| == |cs|
  {
    if cs == [] then [] else [Canonical(cs[0])] + CanonicalAll(cs[1..])
  }

  type Compressor = seq<byte> -> seq<byte>
  type Decompressor = seq<byte> -> Option<seq<byte>>

  function Stream(compress: Compressor, bs: seq<FetchedBlock>): seq<byte>
  {
    [VERSION] + compress(Payload(bs))
  }

  method BuildBlobs(compress: Compressor, bs: seq<FetchedBlock>) returns (blobs: seq<seq<byte>>)
    ensures blobs == CanonicalAll(Chunks(Stream(compress, bs)))
  {
    hide Canonical, Payload, Chunks;
    var payload := EncodeBatchPayload(bs);
    var chunks := Chunks([VERSION] + compress(payload));
    blobs := [];
    for i := 0 to |chunks|
      invariant blobs + CanonicalAll(chunks[i..]) == CanonicalAll(chunks)
    {
      assert chunks[i..][1..] == chunks[i + 1..];
      var blob := Canonicalize(chunks[i]);
      blobs := blobs + [blob];
    }
    assert chunks[|chunks|..] == [];
  }

  /** The raw bytes of all the blobs in order. */
  function AllRaw(blobs: seq<seq<byte>>): seq<byte>
  {
    if blobs == [] then [] else
      var last := blobs[|blobs| - 1];
      AllRaw(blobs[..|blobs| - 1]) + RawBytes(last, FieldsRead(last))
  }

  ghost predicate AllWellFormed(blobs: seq<seq<byte>>)
  {
    forall i :: 0 <= i < |blobs| ==> WellFormedBlob(blobs[i])
  }

  method DecodeBlobPayload(decompress: Decompressor, blobs: seq<seq<byte>>) returns (r: Result<seq<byte>>)
    ensures r.Ok? <==> && AllWellFormed(blobs) && AllRaw(blobs) != [] && AllRaw(blobs)[0] == VERSION
                       && decompress(AllRaw(blobs)[1..]).Some?
    ensures r.Ok? ==> decompress(AllRaw(blobs)[1..]) == Some(r.value)
  {
    hide WellFormedBlob, RawBytes;
    if blobs == [] {
      return Err("no blobs provided");
    }
    var raw := [];
    for i := 0 to |blobs|
      invariant raw == AllRaw(blobs[..i])
      invariant forall j :: 0 <= j < i ==> WellFormedBlob(blobs[j])
    {
      var one := Decanonicalize(blobs[i]);
      if one.Err? {
        return Err(one.message);
      }
      raw := raw + one.value;
      assert blobs[..i + 1][..i] == blobs[..i];
    }
    assert blobs[..|blobs|] == blobs;
    if raw == [] {
      return Err("empty raw stream after decanonicalization");
    }
    if raw[0] != VERSION {
      return Err("unsupported blob format version");
    }
    var decompressed := decompress(raw[1..]);
    r := if decompressed.Some? then Ok(decompressed.value) else Err("brotli decompression failed");
  }

  lemma {:induction false} AllRawCons(b: seq<byte>, bs: seq<seq<byte>>)
    ensures AllRaw([b] + bs) == RawBytes(b, FieldsRead(b)) + AllRaw(bs)
    decreases |bs|
  {
    hide RawBytes, FieldsRead;
    var all := [b] + bs;
    if bs == [] {
      assert all[..0] == [] && all == [b];
      assert AllRaw(all) == AllRaw([]) + RawBytes(b, FieldsRead(b));
    } else {
      AllRawCons(b, bs[..|bs| - 1]);
      var before, last := bs[..|bs| - 1], bs[|bs| - 1];
      assert all[..|all| - 1] == [b] + before && all[|all| - 1] == last;
      assert AllRaw(all) == AllRaw([b] + before) + RawBytes(last, FieldsRead(last));
      assert AllRaw(bs) == AllRaw(before) + RawBytes(last, FieldsRead(last));
    }
  }

  /** Reading all blobs gives the stream, followed by zeros. */
  lemma {:induction false} ChunksRoundTrip(stream: seq<byte>) returns (padding: nat)
    ensures AllWellFormed(CanonicalAll(Chunks(stream)))
    ensures AllRaw(CanonicalAll(Chunks(stream))) == stream + Zeros(padding)
    decreases |stream|
  {
    hide Canonical, WellFormedBlob, RawBytes, FieldsRead;
    var blobs := CanonicalAll(Chunks(stream));
    if stream == [] {
      padding := 0;
    } else if |stream| <= MAX_RAW {
      padding := MAX_RAW - |stream|;
      CanonicalRoundTrip(stream);
      AllRawCons(Canonical(stream), []);
      assert Chunks(stream)[1..] == [];
      assert blobs == [Canonical(stream)] + [];
    } else {
      var head, tail := stream[..MAX_RAW], stream[MAX_RAW..];
      padding := ChunksRoundTrip(tail);
      CanonicalRoundTrip(head);
      assert Chunks(stream)[1..] == Chunks(tail);
      assert blobs == [Canonical(head)] + CanonicalAll(Chunks(tail));
      AllRawCons(Canonical(head), CanonicalAll(Chunks(tail)));
      assert head + Zeros(0) == head;
      assert stream == head + tail;
    }
  }

  ghost predicate Inverse(compress: Compressor, decompress: Decompressor)
  {
    forall x, n: nat :: decompress(compress(x) + Zeros(n)) == Some(x)
  }

  /** Built blobs decode, without error, to the payload they were built from. */
  lemma BlobsRoundTrip(compress: Compressor, decompress: Decompressor, bs: seq<FetchedBlock>)
    requires Inverse(compress, decompress)
    ensures var blobs := CanonicalAll(Chunks(Stream(compress, bs)));
            && AllWellFormed(blobs) && AllRaw(blobs) != [] && AllRaw(blobs)[0] == VERSION
            && decompress(AllRaw(blobs)[1..]) == Some(Payload(bs))
  {
    hide Payload, Chunks, CanonicalAll, AllRaw, AllWellFormed;
    var stream := Stream(compress, bs);
    var padding := ChunksRoundTrip(stream);
    var raw := AllRaw(CanonicalAll(Chunks(stream)));
    assert raw[1..] == compress(Payload(bs)) + Zeros(padding);
  }

  // ----- Walking the blocks -----

  datatype Iter = Iter(cursor: seq<byte>, initialized: bool, remaining: nat, done: bool)
  datatype Item = BlockHash(hash: Bytes32) | Bad

  function Failed(it: Iter): (Iter, Option<Item>)
  {
    (it.(initialized := true, done := true), Some(Bad))
  }

  /** One block entry at the cursor. */
  function NextBlock(H: Hasher, it: Iter): (Iter, Option<Item>)
  {
    if it.remaining == 0 then (it, None) else
      match ParseHeader(it.cursor)
      case None => Failed(it)
      case Some(h) =>
        if !h.list || h.prefix + h.payload > it.remaining then Failed(it) else
          var inner := it.cursor[h.prefix..h.prefix + h.payload];
          match ParseHeader(inner)
          case None => Failed(it)
          case Some(header) =>
            if !header.list then Failed(it) else
              (it.(cursor := it.cursor[h.prefix + h.payload..], remaining := it.remaining - (h.prefix + h.payload)),
               Some(BlockHash(H(inner[..header.prefix + header.payload]))))
  }

  function Next(H: Hasher, it: Iter): (Iter, Option<Item>)
  {
    if it.done then (it, None)
    else if it.initialized then NextBlock(H, it)
    else if it.cursor == [] then (it.(initialized := true), None)
    else
      match ParseHeader(it.cursor)
      case None => Failed(it)
      case Some(outer) =>
        if !outer.list || outer.prefix + outer.payload < |it.cursor| then Failed(it)
        else NextBlock(H, Iter(it.cursor[outer.prefix..], true, outer.payload, false))
  }

  class BlockIter {
    var cursor: seq<byte>
    var initialized: bool
    var remaining: nat
    var done: bool

    ghost function Value(): Iter
      reads this
    {
      Iter(cursor, initialized, remaining, done)
    }

    constructor (payload: seq<byte>)
      ensures Value() == Iter(payload, false, 0, false)
    {
      cursor, initialized, remaining, done := payload, false, 0, false;
    }

    method Advance(H: Hasher) returns (item: Option<Item>)
      modifies this
      ensures (Value(), item) == Next(H, old(Value()))
    {
      hide ParseHeader, NextBlock;
      if done {
        return None;
      }
      if !initialized {
        initialized := true;
        if cursor == [] {
          return None;
        }
        var outer := ParseHeader(cursor);
        if outer.None? || !outer.value.list || outer.value.prefix + outer.value.payload < |cursor| {
          done := true;
          return Some(Bad);
        }
        cursor, remaining := cursor[outer.value.prefix..], outer.value.payload;
      }
      item := AdvanceBlock(H);
    }

    method AdvanceBlock(H: Hasher) returns (item: Option<Item>)
      requires initialized && !done
      modifies this
      ensures (Value(), item) == NextBlock(H, old(Value()))
    {
      hide ParseHeader;
      if remaining == 0 {
        return None;
      }
      var block := ParseHeader(cursor);
      if block.None? || !block.value.list || block.value.prefix + block.value.payload > remaining {
        done := true;
        return Some(Bad);
      }
      var total := block.value.prefix + block.value.payload;
      var inner := cursor[block.value.prefix..total];
      var header := ParseHeader(inner);
      if header.None? || !header.value.list {
        done := true;
        return Some(Bad);
      }
      item := Some(BlockHash(H(inner[..header.value.prefix + header.value.payload])));
      cursor := cursor[total..];
      remaining := remaining - total;
    }
  }

  /** The walk yields exactly these hashes and then ends. */
  function Lockstep(H: Hasher, it: Iter, hashes: seq<Bytes32>): bool
    decreases |hashes|
  {
    var (it', item) := Next(H, it);
    if hashes == [] then item.None?
    else item == Some(BlockHash(hashes[0])) && Lockstep(H, it', hashes[1..])
  }

  method VerifyBlobs(H: Hasher, decompress: Decompressor, blobs: seq<seq<byte>>, hashes: seq<Bytes32>)
    returns (ok: bool)
    ensures ok <==> && AllWellFormed(blobs) && AllRaw(blobs) != [] && AllRaw(blobs)[0] == VERSION
                    && decompress(AllRaw(blobs)[1..]).Some?
                    && Lockstep(H, Iter(decompress(AllRaw(blobs)[1..]).value, false, 0, false), hashes)
  {
    hide AllWellFormed, AllRaw, Next;
    var payload := DecodeBlobPayload(decompress, blobs);
    if payload.Err? {
      return false;
    }
    var iter := new BlockIter(payload.value);
    ghost var start := iter.Value();
    for i := 0 to |hashes|
      invariant Lockstep(H, start, hashes) == Lockstep(H, iter.Value(), hashes[i..])
    {
      assert hashes[i..][1..] == hashes[i + 1..];
      var item := iter.Advance(H);
      if item != Some(BlockHash(hashes[i])) {
        return false;
      }
    }
    var last := iter.Advance(H);
    ok := last.None?;
  }

  // ----- The walk over built blobs -----

  /** The header of every block is one complete RLP list. */
  predicate ListHeaders(bs: seq<FetchedBlock>)
  {
    forall i :: 0 <= i < |bs| ==> IsItem(bs[i].headerRlp) && ParseHeader(bs[i].headerRlp).value.list
  }

  function HashesOf(H: Hasher, bs: seq<FetchedBlock>): seq<Bytes32>
  {
    if bs == [] then [] else [H(bs[0].headerRlp)] + HashesOf(H, bs[1..])
  }

  lemma {:induction false} BlocksBytesCons(b: FetchedBlock, bs: seq<FetchedBlock>)
    ensures BlocksBytes([b] + bs) == EncodeList(BlockPayload(b)) + BlocksBytes(bs)
    decreases |bs|
  {
    hide EncodeList, BlockPayload;
    var all := [b] + bs;
    if bs == [] {
      assert all[..0] == [] && all == [b];
    } else {
      BlocksBytesCons(b, bs[..|bs| - 1]);
      assert all[..|all| - 1] == [b] + bs[..|bs| - 1];
    }
  }

  ghost function At(bs: seq<FetchedBlock>): Iter
  {
    Iter(BlocksBytes(bs), true, |BlocksBytes(bs)|, false)
  }

  /** The walk reads one block and stands at the next. */
  lemma BlockAt(b: FetchedBlock, rest: seq<byte>)
    requires IsItem(b.headerRlp) && ParseHeader(b.headerRlp).value.list
    requires |EncodeList(BlockPayload(b)) + rest| < WORD
    ensures var e, body := EncodeList(BlockPayload(b)), BlockPayload(b);
            && ParseHeader(e + rest) == Some(Header(true, |e| - |body|, |body|)) && |e| > |body|
            && (e + rest)[|e| - |body|..|e|] == body && (e + rest)[|e|..] == rest
            && ParseHeader(body) == ParseHeader(b.headerRlp)
            && |b.headerRlp| <= |body| && body[..|b.headerRlp|] == b.headerRlp
  {
    hide ParseHeader, HeaderBytes, TxsBytes;
    var body := BlockPayload(b);
    ParseList(body, rest);
    ParseExtend(b.headerRlp, EncodeList(TxsBytes(b.txEnvelopes)));
    EncodeListSize(body);
  }

  lemma NextBlockReads(H: Hasher, it: Iter, e: nat, body: seq<byte>, header: seq<byte>)
    requires |body| < e <= it.remaining && e <= |it.cursor| && it.cursor[e - |body|..e] == body
    requires ParseHeader(it.cursor) == Some(Header(true, e - |body|, |body|))
    requires IsItem(header) && ParseHeader(header).value.list && ParseHeader(body) == ParseHeader(header)
    requires |header| <= |body| && body[..|header|] == header
    ensures NextBlock(H, it)
         == (it.(cursor := it.cursor[e..], remaining := it.remaining - e), Some(BlockHash(H(header))))
  {
    hide ParseHeader;
  }

  lemma NextBlockAt(H: Hasher, bs: seq<FetchedBlock>)
    requires bs != [] && ListHeaders(bs) && |BlocksBytes(bs)| < WORD
    ensures NextBlock(H, At(bs)) == (At(bs[1..]), Some(BlockHash(H(bs[0].headerRlp))))
  {
    hide ParseHeader, BlockPayload, EncodeList, NextBlock, BlocksBytes, IsItem;
    var b, rest := bs[0], BlocksBytes(bs[1..]);
    assert bs == [b] + bs[1..];
    BlocksBytesCons(b, bs[1..]);
    var e := EncodeList(BlockPayload(b));
    assert BlocksBytes(bs) == e + rest;
    BlockAt(b, rest);
    NextBlockReads(H, At(bs), |e|, BlockPayload(b), b.headerRlp);
  }

  lemma EncodeListSize(payload: seq<byte>)
    ensures |EncodeList(payload)| > |payload|
  {
  }

  lemma NextStart(H: Hasher, bs: seq<FetchedBlock>)
    requires |BlocksBytes(bs)| < WORD
    ensures Next(H, Iter(Payload(bs), false, 0, false)) == NextBlock(H, At(bs))
  {
    hide ParseHeader, HeaderBytes, NextBlock;
    var body, e := BlocksBytes(bs), Payload(bs);
    ParseList(body, []);
    assert e + [] == e;
    EncodeListSize(body);
  }

  /** From the start of block `i` on, the check passes for the remaining hashes and for no other list. */
  lemma {:induction false} LockstepAt(H: Hasher, bs: seq<FetchedBlock>, hashes: seq<Bytes32>)
    requires ListHeaders(bs) && |BlocksBytes(bs)| < WORD
    ensures Lockstep(H, At(bs), hashes) <==> hashes == HashesOf(H, bs)
    decreases |bs|
  {
    hide NextBlock, ParseHeader, IsItem, EncodeList, BlockPayload;
    if bs == [] {
      NextBlockEnd(H);
    } else {
      NextBlockAt(H, bs);
      assert bs == [bs[0]] + bs[1..];
      BlocksBytesCons(bs[0], bs[1..]);
      if hashes != [] {
        LockstepAt(H, bs[1..], hashes[1..]);
        assert hashes == [hashes[0]] + hashes[1..];
      }
    }
  }

  lemma NextBlockEnd(H: Hasher)
    ensures NextBlock(H, At([])) == (At([]), None)
  {
  }

  /** On the payload of a list of blocks the check passes for the keccaks of their headers, in order,
      and for no other list of hashes. */
  lemma LockstepExact(H: Hasher, bs: seq<FetchedBlock>, hashes: seq<Bytes32>)
    requires ListHeaders(bs) && |BlocksBytes(bs)| < WORD
    ensures Lockstep(H, Iter(Payload(bs), false, 0, false), hashes) <==> hashes == HashesOf(H, bs)
  {
    hide NextBlock, Payload;
    NextStart(H, bs);
    var start := Iter(Payload(bs), false, 0, false);
    assert Next(H, start) == Next(H, At(bs));
    LockstepAt(H, bs, hashes);
    assert Lockstep(H, start, hashes) == Lockstep(H, At(bs), hashes);
  }

  /** Blobs built from blocks pass verification for exactly the hash list of those blocks. */
  lemma BuiltBlobsVerify(H: Hasher, compress: Compressor, decompress: Decompressor, bs: seq<FetchedBlock>,
                         hashes: seq<Bytes32>)
    requires Inverse(compress, decompress) && ListHeaders(bs) && |BlocksBytes(bs)| < WORD
    ensures var blobs := CanonicalAll(Chunks(Stream(compress, bs)));
            && AllWellFormed(blobs) && AllRaw(blobs) != [] && AllRaw(blobs)[0] == VERSION
            && decompress(AllRaw(blobs)[1..]).Some?
            && (Lockstep(H, Iter(decompress(AllRaw(blobs)[1..]).value, false, 0, false), hashes)
                <==> hashes == HashesOf(H, bs))
  {
    hide AllWellFormed, AllRaw, CanonicalAll, Chunks, Payload, Lockstep, HashesOf, BlocksBytes, Stream;
    BlobsRoundTrip(compress, decompress, bs);
    LockstepExact(H, bs, hashes);
  }
}
