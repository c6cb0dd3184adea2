/** The life of a batch between the accumulator's memory and its database, as a state machine.

    One step is one completed accumulator operation, or a restart that reloads everything from the
    database. Bincode blobs and decimal fee columns are kept as the values they encode. */
module Lifecycle {
  import opened Bytes

  type u64 = x: int | 0 <= x < 0x1_0000_0000_0000_0000
  type u128 = x: int | 0 <= x < 0x1_0000_0000_0000_0000_0000_0000_0000_0000

  datatype Response = Response(blockNumber: u64, leaf: Bytes32, blockHash: Bytes32, signature: seq<byte>)
  datatype Signature = Signature(batchRoot: seq<byte>, versionedHashes: seq<Bytes32>, signature: seq<byte>)
  datatype PendingBatch = PendingBatch(batchIndex: u64, fromBlock: u64, toBlock: u64, blobsAccepted: bool)
  datatype DispatchedBatch = DispatchedBatch(
    batchIndex: u64, fromBlock: u64, toBlock: u64, txHash: Bytes32, l1Block: u64,
    nonce: Option<u64>, maxFeePerGas: Option<u128>, maxPriorityFeePerGas: Option<u128>)

  datatype Memory = Memory(
    batches: map<u64, PendingBatch>,
    responses: map<u64, Response>,
    pendingBlobsAccepted: set<u64>,
    signatures: map<u64, Signature>,
    dispatched: map<u64, DispatchedBatch>)

  /** Columns of a row; the key column is the key of the table. */
  datatype PendingRow = PendingRow(fromBlock: int, toBlock: int, blobsAccepted: int)
  datatype DispatchedRow = DispatchedRow(
    fromBlock: int, toBlock: int, txHash: seq<byte>, l1Block: int,
    nonce: Option<int>, maxFeePerGas: Option<u128>, maxPriorityFeePerGas: Option<u128>)

  datatype Tables = Tables(
    blockResponses: map<int, Response>,
    pendingBatches: map<int, PendingRow>,
    pendingBlobs: set<int>,
    batchSignatures: map<int, Signature>,
    dispatchedBatches: map<int, DispatchedRow>)

  datatype System = System(mem: Memory, db: Tables)

  /** An unsigned number is stored only if it is a signed 64-bit number; otherwise the statement fails
      and changes nothing. */
  predicate Storable(n: u64)
  {
    n < 0x8000_0000_0000_0000
  }

  // ----- Loading -----

  /** `as u64` of a signed column. */
  function AsU64(n: int): u64
  {
    n % 0x1_0000_0000_0000_0000
  }

  function LoadPending(db: Tables): map<u64, PendingBatch>
  {
    map i: u64 | i in db.pendingBatches ::
      var row := db.pendingBatches[i];
      PendingBatch(i, AsU64(row.fromBlock), AsU64(row.toBlock), row.blobsAccepted != 0)
  }

  /** Rows whose hash is not 32 bytes are skipped. */
  function LoadDispatched(db: Tables): map<u64, DispatchedBatch>
  {
    map i: u64 | i in db.dispatchedBatches && |db.dispatchedBatches[i].txHash| == 32 ::
      var row := db.dispatchedBatches[i];
      DispatchedBatch(i, AsU64(row.fromBlock), AsU64(row.toBlock), row.txHash, AsU64(row.l1Block),
                      if row.nonce.None? then None else Some(AsU64(row.nonce.value)),
                      row.maxFeePerGas, row.maxPriorityFeePerGas)
  }

  function LoadResponses(db: Tables): map<u64, Response>
  {
    map b: u64 | b in db.blockResponses :: db.blockResponses[b]
  }

  function Known(db: Tables): set<u64>
  {
    LoadPending(db).Keys + LoadDispatched(db).Keys
  }

  /** A signature row that no batch goes with. */
  predicate Stale(db: Tables, i: int)
  {
    0 <= i < 0x8000_0000_0000_0000 && i !in Known(db)
  }

  /** `with_db`: memory from the tables; signature rows without a batch are not loaded and are deleted. */
  function Reload(db: Tables): System
  {
    System(
      Memory(LoadPending(db), LoadResponses(db), set i: u64 | i in db.pendingBlobs,
             map i: u64 | i in db.batchSignatures && i in Known(db) :: db.batchSignatures[i],
             LoadDispatched(db)),
      db.(batchSignatures := map i | i in db.batchSignatures && !Stale(db, i) :: db.batchSignatures[i]))
  }

  // ----- Table operations -----

  function SaveBatch(db: Tables, b: PendingBatch): Tables
  {
    if Storable(b.batchIndex) && Storable(b.fromBlock) && Storable(b.toBlock)
    then db.(pendingBatches := db.pendingBatches[b.batchIndex :=
               PendingRow(b.fromBlock, b.toBlock, if b.blobsAccepted then 1 else 0)])
    else db
  }

  function UpdateBlobsAccepted(db: Tables, i: u64): Tables
  {
    if Storable(i) && i in db.pendingBatches
    then db.(pendingBatches := db.pendingBatches[i := db.pendingBatches[i].(blobsAccepted := 1)]) else db
  }

  function SavePendingBlobs(db: Tables, i: u64): Tables
  {
    if Storable(i) then db.(pendingBlobs := db.pendingBlobs + {i}) else db
  }

  function DeletePendingBlobs(db: Tables, i: u64): Tables
  {
    if Storable(i) then db.(pendingBlobs := db.pendingBlobs - {i}) else db
  }

  function SaveResponse(db: Tables, r: Response): Tables
  {
    if Storable(r.blockNumber) then db.(blockResponses := db.blockResponses[r.blockNumber := r]) else db
  }

  function Listed(blocks: seq<u64>): set<u64>
  {
    set b | b in blocks
  }

  function DeleteResponses(db: Tables, blocks: set<u64>): Tables
  {
    db.(blockResponses := db.blockResponses - set b | b in blocks && Storable(b))
  }

  function SaveSignature(db: Tables, i: u64, s: Signature): Tables
  {
    if Storable(i) then db.(batchSignatures := db.batchSignatures[i := s]) else db
  }

  function DeleteSignature(db: Tables, i: u64): Tables
  {
    if Storable(i) then db.(batchSignatures := db.batchSignatures - {i}) else db
  }

  /** One transaction: out of the pending table, into the dispatched table. */
  function MoveToDispatched(db: Tables, d: DispatchedBatch): Tables
  {
    if Storable(d.batchIndex) && Storable(d.fromBlock) && Storable(d.toBlock) && Storable(d.l1Block)
       && (d.nonce.Some? ==> Storable(d.nonce.value))
    then db.(pendingBatches := db.pendingBatches - {d.batchIndex},
             dispatchedBatches := db.dispatchedBatches[d.batchIndex :=
               DispatchedRow(d.fromBlock, d.toBlock, d.txHash, d.l1Block,
                             if d.nonce.None? then None else Some(d.nonce.value),
                             d.maxFeePerGas, d.maxPriorityFeePerGas)])
    else db
  }

  function UpdateRbf(db: Tables, i: u64, tx: Bytes32, fee: u128, tip: u128): Tables
  {
    if Storable(i) && i in db.dispatchedBatches
    then db.(dispatchedBatches := db.dispatchedBatches[i :=
               db.dispatchedBatches[i].(txHash := tx, maxFeePerGas := Some(fee), maxPriorityFeePerGas := Some(tip))])
    else db
  }

  function UpdateL1Block(db: Tables, i: u64, l1: u64): Tables
  {
    if Storable(i) && Storable(l1) && i in db.dispatchedBatches
    then db.(dispatchedBatches := db.dispatchedBatches[i := db.dispatchedBatches[i].(l1Block := l1)]) else db
  }

  /** One transaction: the dispatched row, its responses and its signature are deleted. */
  function FinalizeBatch(db: Tables, i: u64, lo: u64, hi: u64): Tables
  {
    if Storable(i) && Storable(lo) && Storable(hi)
    then db.(dispatchedBatches := db.dispatchedBatches - {i},
             blockResponses := db.blockResponses - (set b | b in db.blockResponses && lo <= b <= hi),
             batchSignatures := db.batchSignatures - {i})
    else db
  }

  /** One transaction: out of the dispatched table, back into the pending table. */
  function UndispatchBatch(db: Tables, i: u64, lo: u64, hi: u64): Tables
  {
    if Storable(i) && Storable(lo) && Storable(hi)
    then db.(dispatchedBatches := db.dispatchedBatches - {i},
             pendingBatches := db.pendingBatches[i := PendingRow(lo, hi, 1)])
    else db
  }

  // ----- Steps -----

  datatype Op =
    | SetBatch(i: u64, lo: u64, hi: u64)
    | InsertResponse(response: Response)
    | MarkSubmitted(i: u64)
    | Purge(blocks: seq<u64>)
    | CacheSignature(i: u64, s: Signature)
    | StoreSignature(i: u64, s: Signature)
    | DropSignature(i: u64)
    | MarkDispatched(i: u64, tx: Bytes32, l1: u64, nonce: u64, fee: u128, tip: u128)
    | MarkDispatchedExternal(i: u64, tx: Bytes32, l1: u64)
    | RecordRbfBump(i: u64, tx: Bytes32, fee: u128, tip: u128)
    | RecordL1Block(i: u64, l1: u64)
    | Finalize(i: u64)
    | Undispatch(i: u64)
    | Restart

  function Dispatch(s: System, i: u64, d: DispatchedBatch, signatures: map<u64, Signature>): System
  {
    System(s.mem.(batches := s.mem.batches - {i}, dispatched := s.mem.dispatched[i := d], signatures := signatures),
           MoveToDispatched(s.db, d))
  }

  function Step(s: System, op: Op): System
  {
    var mem, db := s.mem, s.db;
    match op
    case SetBatch(i, lo, hi) =>
      if i in mem.dispatched || i in mem.batches then s else
        var accepted := i in mem.pendingBlobsAccepted;
        var b := PendingBatch(i, lo, hi, accepted);
        System(mem.(pendingBlobsAccepted := mem.pendingBlobsAccepted - {i}, batches := mem.batches[i := b]),
               SaveBatch(if accepted then DeletePendingBlobs(db, i) else db, b))
    case InsertResponse(r) =>
      System(mem.(responses := mem.responses[r.blockNumber := r]), SaveResponse(db, r))
    case MarkSubmitted(i) =>
      if i in mem.batches then
        System(mem.(batches := mem.batches[i := mem.batches[i].(blobsAccepted := true)]), UpdateBlobsAccepted(db, i))
      else
        System(mem.(pendingBlobsAccepted := mem.pendingBlobsAccepted + {i}), SavePendingBlobs(db, i))
    case Purge(blocks) =>
      var gone := Listed(blocks);
      System(mem.(responses := mem.responses - gone), DeleteResponses(db, gone))
    case CacheSignature(i, sig) => System(mem.(signatures := mem.signatures[i := sig]), db)
    case StoreSignature(i, sig) => System(mem, SaveSignature(db, i, sig))
    case DropSignature(i) => System(mem.(signatures := mem.signatures - {i}), DeleteSignature(db, i))
    case MarkDispatched(i, tx, l1, nonce, fee, tip) =>
      if i !in mem.batches then s else
        Dispatch(s, i, DispatchedBatch(i, mem.batches[i].fromBlock, mem.batches[i].toBlock, tx, l1,
                                       Some(nonce), Some(fee), Some(tip)), mem.signatures)
    case MarkDispatchedExternal(i, tx, l1) =>
      if i !in mem.batches then s else
        Dispatch(s, i, DispatchedBatch(i, mem.batches[i].fromBlock, mem.batches[i].toBlock, tx, l1,
                                       None, None, None), mem.signatures - {i})
    case RecordRbfBump(i, tx, fee, tip) =>
      System(if i in mem.dispatched
             then mem.(dispatched := mem.dispatched[i := mem.dispatched[i].(
                    txHash := tx, maxFeePerGas := Some(fee), maxPriorityFeePerGas := Some(tip))])
             else mem,
             UpdateRbf(db, i, tx, fee, tip))
    case RecordL1Block(i, l1) =>
      System(if i in mem.dispatched
             then mem.(dispatched := mem.dispatched[i := mem.dispatched[i].(l1Block := l1)]) else mem,
             UpdateL1Block(db, i, l1))
    case Finalize(i) =>
      if i !in mem.dispatched then s else
        var d := mem.dispatched[i];
        System(mem.(dispatched := mem.dispatched - {i},
                    responses := mem.responses - (set b | b in mem.responses && d.fromBlock <= b <= d.toBlock),
                    signatures := mem.signatures - {i}),
               FinalizeBatch(db, i, d.fromBlock, d.toBlock))
    case Undispatch(i) =>
      if i !in mem.dispatched || mem.dispatched[i].nonce.None? then s else
        var d := mem.dispatched[i];
        System(mem.(dispatched := mem.dispatched - {i},
                    batches := mem.batches[i := PendingBatch(i, d.fromBlock, d.toBlock, true)]),
               UndispatchBatch(db, i, d.fromBlock, d.toBlock))
    case Restart => Reload(db)
  }

  /** All numbers of the operation that reach the database. */
  predicate Small(op: Op)
  {
    match op
    case SetBatch(i, lo, hi) => Storable(i) && Storable(lo) && Storable(hi)
    case InsertResponse(r) => Storable(r.blockNumber)
    case MarkSubmitted(i) => Storable(i)
    case MarkDispatched(i, _, l1, nonce, _, _) => Storable(l1) && Storable(nonce)
    case MarkDispatchedExternal(i, _, l1) => Storable(l1)
    case RecordL1Block(i, l1) => Storable(l1)
    case _ => true
  }

  // ----- Restart equals memory -----

  function RowOf(b: PendingBatch): PendingRow
  {
    PendingRow(b.fromBlock, b.toBlock, if b.blobsAccepted then 1 else 0)
  }

  function DispatchedRowOf(d: DispatchedBatch): DispatchedRow
  {
    DispatchedRow(d.fromBlock, d.toBlock, d.txHash, d.l1Block,
                  if d.nonce.None? then None else Some(d.nonce.value), d.maxFeePerGas, d.maxPriorityFeePerGas)
  }

  predicate PendingStorable(i: u64, b: PendingBatch)
  {
    b.batchIndex == i && Storable(i) && Storable(b.fromBlock) && Storable(b.toBlock)
  }

  predicate DispatchedStorable(i: u64, d: DispatchedBatch)
  {
    && d.batchIndex == i && Storable(i) && Storable(d.fromBlock) && Storable(d.toBlock) && Storable(d.l1Block)
    && (d.nonce.Some? ==> Storable(d.nonce.value))
  }

  /** The table holds exactly the pending batches in memory, and can. */
  ghost predicate PendingMirror(bs: map<u64, PendingBatch>, rows: map<int, PendingRow>)
  {
    && (forall i: int :: i in rows ==> 0 <= i < 0x8000_0000_0000_0000)
    && (forall i: u64 :: i in rows <==> i in bs)
    && (forall i: u64 :: i in bs ==> PendingStorable(i, bs[i]) && rows[i] == RowOf(bs[i]))
  }

  ghost predicate DispatchedMirror(ds: map<u64, DispatchedBatch>, rows: map<int, DispatchedRow>)
  {
    && (forall i: int :: i in rows ==> 0 <= i < 0x8000_0000_0000_0000)
    && (forall i: u64 :: i in rows <==> i in ds)
    && (forall i: u64 :: i in ds ==> DispatchedStorable(i, ds[i]) && rows[i] == DispatchedRowOf(ds[i]))
  }

  ghost predicate ResponsesMirror(rs: map<u64, Response>, rows: map<int, Response>)
  {
    && (forall b: int :: b in rows ==> 0 <= b < 0x8000_0000_0000_0000)
    && (forall b: u64 :: b in rows <==> b in rs)
    && (forall b: u64 :: b in rs ==> Storable(b) && rs[b].blockNumber == b && rows[b] == rs[b])
  }

  ghost predicate BlobsMirror(ps: set<u64>, rows: set<int>)
  {
    && (forall i: int :: i in rows ==> 0 <= i < 0x8000_0000_0000_0000)
    && (forall i: u64 :: i in rows <==> i in ps)
    && (forall i: u64 :: i in ps ==> Storable(i))
  }

  /** No index is both pending and dispatched, and the tables hold exactly what the memory holds,
      signatures aside. */
  ghost predicate Inv(s: System)
  {
    && (forall i: u64 :: i in s.mem.batches ==> i !in s.mem.dispatched)
    && PendingMirror(s.mem.batches, s.db.pendingBatches)
    && DispatchedMirror(s.mem.dispatched, s.db.dispatchedBatches)
    && ResponsesMirror(s.mem.responses, s.db.blockResponses)
    && BlobsMirror(s.mem.pendingBlobsAccepted, s.db.pendingBlobs)
  }

  /** Everything but the signatures. */
  ghost predicate SameBatches(a: Memory, b: Memory)
  {
    && a.batches == b.batches && a.responses == b.responses
    && a.pendingBlobsAccepted == b.pendingBlobsAccepted && a.dispatched == b.dispatched
  }

  lemma PendingLoads(bs: map<u64, PendingBatch>, db: Tables)
    requires PendingMirror(bs, db.pendingBatches)
    ensures LoadPending(db) == bs
  {
  }

  lemma DispatchedLoads(ds: map<u64, DispatchedBatch>, db: Tables)
    requires DispatchedMirror(ds, db.dispatchedBatches)
    ensures LoadDispatched(db) == ds
  {
  }

  lemma ResponsesLoad(rs: map<u64, Response>, db: Tables)
    requires ResponsesMirror(rs, db.blockResponses)
    ensures LoadResponses(db) == rs
  {
  }

  /** In a mirrored system a restart loads exactly what was in memory. */
  lemma ReloadIsMemory(s: System)
    requires Inv(s)
    ensures SameBatches(Reload(s.db).mem, s.mem)
    ensures Inv(Reload(s.db))
  {
    PendingLoads(s.mem.batches, s.db);
    DispatchedLoads(s.mem.dispatched, s.db);
    ResponsesLoad(s.mem.responses, s.db);
    hide PendingMirror, DispatchedMirror, ResponsesMirror, LoadPending, LoadDispatched, LoadResponses, Known;
    assert Reload(s.db).mem.pendingBlobsAccepted == s.mem.pendingBlobsAccepted;
  }

  lemma PendingPut(bs: map<u64, PendingBatch>, rows: map<int, PendingRow>, i: u64, b: PendingBatch)
    requires PendingMirror(bs, rows) && PendingStorable(i, b)
    ensures PendingMirror(bs[i := b], rows[i := RowOf(b)])
  {
  }

  lemma PendingDrop(bs: map<u64, PendingBatch>, rows: map<int, PendingRow>, i: u64)
    requires PendingMirror(bs, rows)
    ensures PendingMirror(bs - {i}, rows - {i})
  {
  }

  lemma DispatchedPut(ds: map<u64, DispatchedBatch>, rows: map<int, DispatchedRow>, i: u64, d: DispatchedBatch)
    requires DispatchedMirror(ds, rows) && DispatchedStorable(i, d)
    ensures DispatchedMirror(ds[i := d], rows[i := DispatchedRowOf(d)])
  {
  }

  lemma DispatchedDrop(ds: map<u64, DispatchedBatch>, rows: map<int, DispatchedRow>, i: u64)
    requires DispatchedMirror(ds, rows)
    ensures DispatchedMirror(ds - {i}, rows - {i})
  {
  }

  lemma ResponsesDrop(rs: map<u64, Response>, rows: map<int, Response>, gone: set<u64>, deleted: set<int>)
    requires ResponsesMirror(rs, rows)
    requires forall b: u64 :: b in rs ==> (b in gone <==> b in deleted)
    ensures ResponsesMirror(rs - gone, rows - deleted)
  {
  }

  lemma DispatchKeeps(s: System, i: u64, d: DispatchedBatch, signatures: map<u64, Signature>)
    requires Inv(s) && i in s.mem.batches && DispatchedStorable(i, d)
    ensures Inv(Dispatch(s, i, d, signatures))
  {
    PendingDrop(s.mem.batches, s.db.pendingBatches, i);
    DispatchedPut(s.mem.dispatched, s.db.dispatchedBatches, i, d);
    hide PendingMirror, DispatchedMirror, ResponsesMirror, BlobsMirror;
  }

  lemma PendingRange(s: System, i: u64)
    requires Inv(s) && i in s.mem.batches
    ensures PendingStorable(i, s.mem.batches[i])
  {
  }

  lemma PurgeKeeps(s: System, blocks: seq<u64>)
    requires Inv(s)
    ensures Inv(Step(s, Purge(blocks)))
  {
    assert forall b: u64 :: b in s.mem.responses ==> Storable(b);
    var gone, deleted: set<int> := Listed(blocks), set b | b in blocks && Storable(b);
    hide PendingMirror, DispatchedMirror, BlobsMirror;
    ResponsesDrop(s.mem.responses, s.db.blockResponses, gone, deleted);
    assert (set b | b in gone && Storable(b)) == deleted;
    hide PendingMirror, DispatchedMirror, ResponsesMirror, BlobsMirror;
  }

  lemma BumpKeeps(s: System, i: u64, tx: Bytes32, fee: u128, tip: u128)
    requires Inv(s)
    ensures Inv(Step(s, RecordRbfBump(i, tx, fee, tip)))
  {
    if i in s.mem.dispatched {
      DispatchedPut(s.mem.dispatched, s.db.dispatchedBatches, i, s.mem.dispatched[i].(
        txHash := tx, maxFeePerGas := Some(fee), maxPriorityFeePerGas := Some(tip)));
    }
  }

  lemma L1BlockKeeps(s: System, i: u64, l1: u64)
    requires Inv(s) && Storable(l1)
    ensures Inv(Step(s, RecordL1Block(i, l1)))
  {
    if i in s.mem.dispatched {
      DispatchedPut(s.mem.dispatched, s.db.dispatchedBatches, i, s.mem.dispatched[i].(l1Block := l1));
    }
  }

  lemma SignaturesKeep(s: System, op: Op)
    requires Inv(s) && (op.CacheSignature? || op.StoreSignature? || op.DropSignature?)
    ensures Inv(Step(s, op))
  {
    hide PendingMirror, DispatchedMirror, ResponsesMirror, BlobsMirror;
  }

  /** Every operation with storable numbers, and every restart, keeps the invariant. */
  lemma StepKeepsInv(s: System, op: Op)
    requires Inv(s) && Small(op)
    ensures Inv(Step(s, op))
  {
    hide Inv;
    match op
    case Restart => ReloadIsMemory(s);
    case SetBatch(i, lo, hi) => SetBatchKeeps(s, i, lo, hi);
    case MarkSubmitted(i) => MarkSubmittedKeeps(s, i);
    case InsertResponse(r) => InsertKeeps(s, r);
    case Purge(blocks) => PurgeKeeps(s, blocks);
    case MarkDispatched(i, tx, l1, nonce, fee, tip) =>
      if i in s.mem.batches {
        PendingRange(s, i);
        DispatchKeeps(s, i, DispatchedBatch(i, s.mem.batches[i].fromBlock, s.mem.batches[i].toBlock, tx, l1,
                                            Some(nonce), Some(fee), Some(tip)), s.mem.signatures);
      }
    case MarkDispatchedExternal(i, tx, l1) =>
      if i in s.mem.batches {
        PendingRange(s, i);
        DispatchKeeps(s, i, DispatchedBatch(i, s.mem.batches[i].fromBlock, s.mem.batches[i].toBlock, tx, l1,
                                            None, None, None), s.mem.signatures - {i});
      }
    case RecordRbfBump(i, tx, fee, tip) => BumpKeeps(s, i, tx, fee, tip);
    case RecordL1Block(i, l1) => L1BlockKeeps(s, i, l1);
    case Finalize(i) => FinalizeKeeps(s, i);
    case Undispatch(i) => UndispatchKeeps(s, i);
    case _ => SignaturesKeep(s, op);
  }

  lemma SetBatchKeeps(s: System, i: u64, lo: u64, hi: u64)
    requires Inv(s) && Small(SetBatch(i, lo, hi))
    ensures Inv(Step(s, SetBatch(i, lo, hi)))
  {
    var b := PendingBatch(i, lo, hi, i in s.mem.pendingBlobsAccepted);
    PendingPut(s.mem.batches, s.db.pendingBatches, i, b);
    hide PendingMirror, DispatchedMirror, ResponsesMirror;
  }

  lemma MarkSubmittedKeeps(s: System, i: u64)
    requires Inv(s) && Storable(i)
    ensures Inv(Step(s, MarkSubmitted(i)))
  {
    if i in s.mem.batches {
      PendingPut(s.mem.batches, s.db.pendingBatches, i, s.mem.batches[i].(blobsAccepted := true));
    } else {
      hide PendingMirror, DispatchedMirror, ResponsesMirror;
    }
  }

  lemma InsertKeeps(s: System, r: Response)
    requires Inv(s) && Storable(r.blockNumber)
    ensures Inv(Step(s, InsertResponse(r)))
  {
    hide PendingMirror, DispatchedMirror, BlobsMirror;
  }

  lemma FinalizeKeeps(s: System, i: u64)
    requires Inv(s)
    ensures Inv(Step(s, Finalize(i)))
  {
    if i in s.mem.dispatched {
      var d := s.mem.dispatched[i];
      assert DispatchedStorable(i, d);
      DispatchedDrop(s.mem.dispatched, s.db.dispatchedBatches, i);
      ResponsesDrop(s.mem.responses, s.db.blockResponses,
                    set b | b in s.mem.responses && d.fromBlock <= b <= d.toBlock,
                    set b | b in s.db.blockResponses && d.fromBlock <= b <= d.toBlock);
      hide PendingMirror, DispatchedMirror, ResponsesMirror, BlobsMirror;
    }
  }

  lemma UndispatchKeeps(s: System, i: u64)
    requires Inv(s)
    ensures Inv(Step(s, Undispatch(i)))
  {
    if i in s.mem.dispatched && s.mem.dispatched[i].nonce.Some? {
      var d := s.mem.dispatched[i];
      assert DispatchedStorable(i, d);
      DispatchedDrop(s.mem.dispatched, s.db.dispatchedBatches, i);
      PendingPut(s.mem.batches, s.db.pendingBatches, i, PendingBatch(i, d.fromBlock, d.toBlock, true));
      hide PendingMirror, DispatchedMirror, ResponsesMirror, BlobsMirror;
    }
  }

  // ----- Exactly when a restart is faithful -----

  /** The operation finds nothing to do. */
  predicate Ignored(m: Memory, op: Op)
  {
    match op
    case SetBatch(i, _, _) => i in m.batches || i in m.dispatched
    case MarkDispatched(i, _, _, _, _, _) => i !in m.batches
    case MarkDispatchedExternal(i, _, _) => i !in m.batches
    case RecordL1Block(i, _) => i !in m.dispatched
    case _ => false
  }

  predicate Safe(m: Memory, op: Op)
  {
    Small(op) || Ignored(m, op)
  }

  lemma IgnoredKeeps(s: System, op: Op)
    requires Inv(s) && Ignored(s.mem, op)
    ensures Step(s, op) == s
  {
  }

  lemma SafeKeepsInv(s: System, op: Op)
    requires Inv(s) && Safe(s.mem, op)
    ensures Inv(Step(s, op))
  {
    hide Inv;
    if Small(op) { StepKeepsInv(s, op); } else { IgnoredKeeps(s, op); }
  }

  /** After an operation the database restores the memory if and only if all numbers the operation
      stores are below 2^63, or it stores nothing. */
  lemma RestartExact(s: System, op: Op)
    requires Inv(s)
    ensures SameBatches(Reload(Step(s, op).db).mem, Step(s, op).mem) <==> Safe(s.mem, op)
  {
    if Safe(s.mem, op) {
      SafeKeepsInv(s, op);
      ReloadIsMemory(Step(s, op));
    } else {
      UnsafeLoses(s, op);
    }
  }

  lemma UnsafeLoses(s: System, op: Op)
    requires Inv(s) && !Safe(s.mem, op)
    ensures !SameBatches(Reload(Step(s, op).db).mem, Step(s, op).mem)
  {
    var s' := Step(s, op);
    match op
    case SetBatch(i, lo, hi) =>
      PendingLoads(s.mem.batches, s'.db);
      assert i in s'.mem.batches && i !in LoadPending(s'.db);
    case InsertResponse(r) =>
      assert r.blockNumber in s'.mem.responses && r.blockNumber !in LoadResponses(s'.db);
    case MarkSubmitted(i) =>
      assert i in s'.mem.pendingBlobsAccepted && i !in s'.db.pendingBlobs;
    case MarkDispatched(i, _, _, _, _, _) =>
      DispatchedLoads(s.mem.dispatched, s'.db);
      assert i in s'.mem.dispatched && i !in LoadDispatched(s'.db);
    case MarkDispatchedExternal(i, _, _) =>
      DispatchedLoads(s.mem.dispatched, s'.db);
      assert i in s'.mem.dispatched && i !in LoadDispatched(s'.db);
    case RecordL1Block(i, l1) =>
      DispatchedLoads(s.mem.dispatched, s'.db);
      assert s'.mem.dispatched[i].l1Block == l1 && LoadDispatched(s'.db)[i].l1Block != l1;
  }

  /** It does happen: the first batch of all, with an index that does not fit, is gone after a restart. */
  lemma RestartLosesLarge()
    ensures Inv(Empty()) && !Safe(Empty().mem, SetBatch(0x8000_0000_0000_0000, 0, 0))
    ensures var s := Step(Empty(), SetBatch(0x8000_0000_0000_0000, 0, 0));
            0x8000_0000_0000_0000 in s.mem.batches && Reload(s.db).mem == Empty().mem
  {
    ReloadEmpty();
    hide Reload;
    var s := Step(Empty(), SetBatch(0x8000_0000_0000_0000, 0, 0));
    assert s.db == Empty().db;
  }

  lemma ReloadEmpty()
    ensures Reload(Empty().db).mem == Empty().mem
  {
    var db := Empty().db;
    assert LoadPending(db) == map[];
    assert LoadResponses(db) == map[];
    assert LoadDispatched(db) == map[];
    hide LoadPending, LoadResponses, LoadDispatched, Known;
    assert (set i: u64 | i in db.pendingBlobs) == {};
    assert Reload(db).mem.signatures == map[];
  }

  // ----- Runs -----

  function Run(s: System, ops: seq<Op>): System
  {
    if ops == [] then s else Step(Run(s, ops[..|ops| - 1]), ops[|ops| - 1])
  }

  /** Every operation of the run is safe where it happens. */
  predicate SafeRun(s: System, ops: seq<Op>)
  {
    ops == [] || (SafeRun(s, ops[..|ops| - 1]) && Safe(Run(s, ops[..|ops| - 1]).mem, ops[|ops| - 1]))
  }

  function Empty(): System
  {
    System(Memory(map[], map[], {}, map[], map[]), Tables(map[], map[], {}, map[], map[]))
  }

  /** At every point of every run no index is both pending and dispatched, and a restart would load
      exactly what is in memory. */
  lemma {:induction false} RunKeepsInv(s: System, ops: seq<Op>)
    requires Inv(s) && SafeRun(s, ops)
    ensures Inv(Run(s, ops))
    ensures SameBatches(Reload(Run(s, ops).db).mem, Run(s, ops).mem)
  {
    hide Inv, Step, Safe, Reload;
    if ops != [] {
      RunKeepsInv(s, ops[..|ops| - 1]);
      SafeKeepsInv(Run(s, ops[..|ops| - 1]), ops[|ops| - 1]);
    }
    ReloadIsMemory(Run(s, ops));
  }

  /** The answer to which signature is sent next: that of the lowest pending batch, if it has one in memory. */
  ghost predicate NextSigned(m: Memory, r: Option<(u64, seq<byte>)>)
  {
    match r
    case Some((i, bytes)) =>
      && i in m.batches && (forall j :: j in m.batches ==> i <= j)
      && i in m.signatures && bytes == m.signatures[i].signature
    case None => forall i :: i in m.batches && (forall j :: j in m.batches ==> i <= j) ==> i !in m.signatures
  }

  // ----- The life of one batch -----

  predicate Registered(m: Memory, i: u64)
  {
    i in m.batches || i in m.dispatched
  }

  function RangeOf(m: Memory, i: u64): (u64, u64)
    requires Registered(m, i)
  {
    if i in m.batches then (m.batches[i].fromBlock, m.batches[i].toBlock)
    else (m.dispatched[i].fromBlock, m.dispatched[i].toBlock)
  }

  /** Known to be submitted on L1: flagged so, or already sent on. */
  predicate Accepted(m: Memory, i: u64)
  {
    i in m.dispatched || (i in m.batches && m.batches[i].blobsAccepted)
  }

  predicate External(m: Memory, i: u64)
  {
    i in m.dispatched && m.dispatched[i].nonce.None?
  }

  ghost predicate OnePlace(m: Memory)
  {
    forall i: u64 :: i in m.batches ==> i !in m.dispatched
  }

  lemma KeepsRange(s: System, op: Op, i: u64)
    requires OnePlace(s.mem) && !op.Restart? && Registered(s.mem, i) && op != Finalize(i)
    ensures Registered(Step(s, op).mem, i) && RangeOf(Step(s, op).mem, i) == RangeOf(s.mem, i)
  {
    hide SaveBatch, UpdateBlobsAccepted, SavePendingBlobs, DeletePendingBlobs, SaveResponse, DeleteResponses,
         SaveSignature, DeleteSignature, MoveToDispatched, UpdateRbf, UpdateL1Block, FinalizeBatch, UndispatchBatch;
  }

  lemma KeepsAccepted(s: System, op: Op, i: u64)
    requires OnePlace(s.mem) && !op.Restart? && Accepted(s.mem, i) && op != Finalize(i)
    ensures Accepted(Step(s, op).mem, i)
  {
    hide SaveBatch, UpdateBlobsAccepted, SavePendingBlobs, DeletePendingBlobs, SaveResponse, DeleteResponses,
         SaveSignature, DeleteSignature, MoveToDispatched, UpdateRbf, UpdateL1Block, FinalizeBatch, UndispatchBatch;
  }

  lemma KeepsExternal(s: System, op: Op, i: u64)
    requires OnePlace(s.mem) && !op.Restart? && External(s.mem, i) && op != Finalize(i)
    ensures External(Step(s, op).mem, i)
  {
    hide SaveBatch, UpdateBlobsAccepted, SavePendingBlobs, DeletePendingBlobs, SaveResponse, DeleteResponses,
         SaveSignature, DeleteSignature, MoveToDispatched, UpdateRbf, UpdateL1Block, FinalizeBatch, UndispatchBatch;
  }

  /** What one operation may do to a registered batch. */
  lemma StepKeepsBatch(s: System, op: Op, i: u64)
    requires Inv(s) && Safe(s.mem, op) && Registered(s.mem, i) && op != Finalize(i)
    ensures var m := Step(s, op).mem;
            && Registered(m, i) && RangeOf(m, i) == RangeOf(s.mem, i)
            && (Accepted(s.mem, i) ==> Accepted(m, i))
            && (External(s.mem, i) ==> External(m, i))
  {
    hide PendingMirror, DispatchedMirror, ResponsesMirror, BlobsMirror, Reload;
    if op.Restart? {
      ReloadIsMemory(s);
    } else {
      hide Step;
      KeepsRange(s, op, i);
      if Accepted(s.mem, i) { KeepsAccepted(s, op, i); }
      if External(s.mem, i) { KeepsExternal(s, op, i); }
    }
  }

  lemma Registers(s: System, op: Op, i: u64)
    requires OnePlace(s.mem) && !op.Restart?
    ensures !Registered(s.mem, i) && Registered(Step(s, op).mem, i) ==> op.SetBatch? && op.i == i
    ensures op == Finalize(i) && i !in s.mem.dispatched && Registered(s.mem, i) ==> Registered(Step(s, op).mem, i)
  {
    hide SaveBatch, UpdateBlobsAccepted, SavePendingBlobs, DeletePendingBlobs, SaveResponse, DeleteResponses,
         SaveSignature, DeleteSignature, MoveToDispatched, UpdateRbf, UpdateL1Block, FinalizeBatch, UndispatchBatch;
  }

  /** A batch is registered by `set_batch` only, and leaves by `finalize_dispatched` only. */
  lemma StepRegisters(s: System, op: Op, i: u64)
    requires Inv(s) && Safe(s.mem, op)
    ensures !Registered(s.mem, i) && Registered(Step(s, op).mem, i) ==> op.SetBatch? && op.i == i
    ensures Registered(s.mem, i) && !Registered(Step(s, op).mem, i) ==> op == Finalize(i) && i in s.mem.dispatched
  {
    hide PendingMirror, DispatchedMirror, ResponsesMirror, BlobsMirror, Reload;
    if op.Restart? {
      ReloadIsMemory(s);
    } else {
      hide Step;
      Registers(s, op, i);
      if Registered(s.mem, i) && op != Finalize(i) { KeepsRange(s, op, i); }
    }
  }

  /** Over any run without its finalization a registered batch stays registered with its range, never
      loses its submitted state, and never returns to pending once dispatched by someone else. */
  lemma {:induction false} RunKeepsBatch(s: System, ops: seq<Op>, i: u64)
    requires Inv(s) && SafeRun(s, ops) && Registered(s.mem, i) && Finalize(i) !in ops
    ensures var m := Run(s, ops).mem;
            && Registered(m, i) && RangeOf(m, i) == RangeOf(s.mem, i)
            && (Accepted(s.mem, i) ==> Accepted(m, i))
            && (External(s.mem, i) ==> External(m, i) && i !in m.batches)
  {
    hide PendingMirror, DispatchedMirror, ResponsesMirror, BlobsMirror, Step;
    if ops != [] {
      var pre, op := ops[..|ops| - 1], ops[|ops| - 1];
      assert ops == pre + [op];
      RunKeepsBatch(s, pre, i);
      RunKeepsInv(s, pre);
      StepKeepsBatch(Run(s, pre), op, i);
    }
    RunKeepsInv(s, ops);
  }

  // ----- The order of events -----

  /** What reaches the accumulator before anything is dispatched. */
  datatype Event = Committed(index: u64) | Submitted(index: u64) | Responded(block: u64) | Restarted

  /** What L1 fixes for every batch and the enclave for every block. */
  datatype World = World(lo: u64 -> u64, hi: u64 -> u64, response: u64 -> Response)

  function OpOf(w: World, e: Event): Op
  {
    match e
    case Committed(i) => SetBatch(i, w.lo(i), w.hi(i))
    case Submitted(i) => MarkSubmitted(i)
    case Responded(b) => InsertResponse(w.response(b))
    case Restarted => Restart
  }

  function OpsOf(w: World, es: seq<Event>): (ops: seq<Op>)
    ensures |ops| == |es| && forall k :: 0 <= k < |es| ==> ops[k] == OpOf(w, es[k])
  {
    seq(|es|, k requires 0 <= k < |es| => OpOf(w, es[k]))
  }

  ghost function CommittedIn(es: seq<Event>): set<u64> { set e | e in es && e.Committed? :: e.index }
  ghost function SubmittedIn(es: seq<Event>): set<u64> { set e | e in es && e.Submitted? :: e.index }
  ghost function RespondedIn(es: seq<Event>): set<u64> { set e | e in es && e.Responded? :: e.block }

  /** The memory as a function of what has happened, whatever the order. */
  ghost function Outcome(w: World, committed: set<u64>, submitted: set<u64>, responded: set<u64>): Memory
  {
    Memory(map i | i in committed :: PendingBatch(i, w.lo(i), w.hi(i), i in submitted),
           map b | b in responded :: w.response(b),
           submitted - committed, map[], map[])
  }

  ghost predicate Storing(w: World, es: seq<Event>)
  {
    && (forall e :: e in es ==> Small(OpOf(w, e)))
    && (forall e :: e in es && e.Responded? ==> w.response(e.block).blockNumber == e.block)
  }

  lemma OutcomeStep(w: World, db: Tables, es: seq<Event>, e: Event)
    requires Inv(System(Outcome(w, CommittedIn(es), SubmittedIn(es), RespondedIn(es)), db))
    requires db.batchSignatures == map[]
    requires e.Responded? ==> w.response(e.block).blockNumber == e.block
    ensures var s' := Step(System(Outcome(w, CommittedIn(es), SubmittedIn(es), RespondedIn(es)), db), OpOf(w, e));
            var es' := es + [e];
            && s'.mem == Outcome(w, CommittedIn(es'), SubmittedIn(es'), RespondedIn(es'))
            && s'.db.batchSignatures == map[]
  {
    hide Inv, Step, Outcome;
    var s := System(Outcome(w, CommittedIn(es), SubmittedIn(es), RespondedIn(es)), db);
    var es' := es + [e];
    EventSets(es, e);
    if e.Restarted? {
      OutcomeUnsigned(w, CommittedIn(es), SubmittedIn(es), RespondedIn(es));
      RestartUnsigned(s);
    } else {
      OutcomeAdds(w, CommittedIn(es), SubmittedIn(es), RespondedIn(es), db, e);
    }
  }

  lemma EventSets(es: seq<Event>, e: Event)
    ensures CommittedIn(es + [e]) == if e.Committed? then CommittedIn(es) + {e.index} else CommittedIn(es)
    ensures SubmittedIn(es + [e]) == if e.Submitted? then SubmittedIn(es) + {e.index} else SubmittedIn(es)
    ensures RespondedIn(es + [e]) == if e.Responded? then RespondedIn(es) + {e.block} else RespondedIn(es)
  {
  }

  lemma OutcomeUnsigned(w: World, c: set<u64>, u: set<u64>, r: set<u64>)
    ensures Outcome(w, c, u, r).signatures == map[]
  {
  }

  lemma RestartUnsigned(s: System)
    requires Inv(s) && s.db.batchSignatures == map[] && s.mem.signatures == map[]
    ensures Step(s, Restart).mem == s.mem && Step(s, Restart).db.batchSignatures == map[]
  {
    ReloadIsMemory(s);
    hide Inv, LoadPending, LoadResponses, LoadDispatched, Known;
  }

  lemma OutcomeAdds(w: World, c: set<u64>, u: set<u64>, r: set<u64>, db: Tables, e: Event)
    requires !e.Restarted? && (e.Responded? ==> w.response(e.block).blockNumber == e.block)
    ensures Step(System(Outcome(w, c, u, r), db), OpOf(w, e)).mem
         == Outcome(w, if e.Committed? then c + {e.index} else c, if e.Submitted? then u + {e.index} else u,
                    if e.Responded? then r + {e.block} else r)
    ensures Step(System(Outcome(w, c, u, r), db), OpOf(w, e)).db.batchSignatures == db.batchSignatures
  {
    hide Outcome;
    OutcomeParts(w, c, u, r);
    match e
    case Committed(i) =>
      OutcomeParts(w, c + {i}, u, r);
      OutcomeCommits(w, c, u, r, i);
    case Submitted(i) =>
      OutcomeParts(w, c, u + {i}, r);
      OutcomeSubmits(w, c, u, r, i);
    case Responded(b) => OutcomeResponds(w, c, u, r, b);
  }

  lemma OutcomeParts(w: World, c: set<u64>, u: set<u64>, r: set<u64>)
    ensures var m := Outcome(w, c, u, r);
            m.dispatched == map[] && m.signatures == map[] && m.batches.Keys == c && m.pendingBlobsAccepted == u - c
  {
  }

  lemma OutcomeCommits(w: World, c: set<u64>, u: set<u64>, r: set<u64>, i: u64)
    ensures var m, m' := Outcome(w, c, u, r), Outcome(w, c + {i}, u, r);
            && m'.pendingBlobsAccepted == m.pendingBlobsAccepted - {i} && m'.responses == m.responses
            && (i in c ==> m' == m)
            && (i !in c ==>
                  m'.batches == m.batches[i := PendingBatch(i, w.lo(i), w.hi(i), i in m.pendingBlobsAccepted)])
  {
    assert i in c ==> c + {i} == c;
  }

  lemma OutcomeSubmits(w: World, c: set<u64>, u: set<u64>, r: set<u64>, i: u64)
    ensures var m, m' := Outcome(w, c, u, r), Outcome(w, c, u + {i}, r);
            && m'.responses == m.responses
            && (i in c ==> i in m.batches && m'.pendingBlobsAccepted == m.pendingBlobsAccepted
                           && m'.batches == m.batches[i := m.batches[i].(blobsAccepted := true)])
            && (i !in c ==> m'.pendingBlobsAccepted == m.pendingBlobsAccepted + {i} && m'.batches == m.batches)
  {
  }

  lemma OutcomeResponds(w: World, c: set<u64>, u: set<u64>, r: set<u64>, b: u64)
    ensures var m, m' := Outcome(w, c, u, r), Outcome(w, c, u, r + {b});
            m' == m.(responses := m.responses[b := w.response(b)])
  {
  }

  /** For any interleaving and repetition of commits, submissions and responses, with restarts
      anywhere, the accumulator is determined by which events have happened. */
  lemma {:induction false} EventsDetermine(w: World, es: seq<Event>)
    requires Storing(w, es)
    ensures var s := Run(Empty(), OpsOf(w, es));
            && s.mem == Outcome(w, CommittedIn(es), SubmittedIn(es), RespondedIn(es))
            && Inv(s) && s.db.batchSignatures == map[]
    decreases |es|
  {
    hide Inv, Step, Outcome;
    if es == [] {
      EmptyOutcome(w);
      assert OpsOf(w, es) == [];
    } else {
      var pre, e := es[..|es| - 1], es[|es| - 1];
      assert es == pre + [e];
      EventsDetermine(w, pre);
      assert OpsOf(w, es)[..|es| - 1] == OpsOf(w, pre);
      var s := Run(Empty(), OpsOf(w, pre));
      OutcomeStep(w, s.db, pre, e);
      StepKeepsInv(s, OpOf(w, e));
    }
  }

  lemma EmptyOutcome(w: World)
    ensures Empty().mem == Outcome(w, CommittedIn([]), SubmittedIn([]), RespondedIn([])) && Inv(Empty())
  {
  }

  lemma EventOrder(w: World, es: seq<Event>, es': seq<Event>)
    requires Storing(w, es) && Storing(w, es')
    requires forall e: Event :: !e.Restarted? ==> (e in es <==> e in es')
    ensures Run(Empty(), OpsOf(w, es)).mem == Run(Empty(), OpsOf(w, es')).mem
  {
    EventsDetermine(w, es);
    EventsDetermine(w, es');
    assert CommittedIn(es) == CommittedIn(es');
    assert SubmittedIn(es) == SubmittedIn(es');
    assert RespondedIn(es) == RespondedIn(es');
  }

  /** `is_batch_ready` */
  predicate Ready(m: Memory, b: PendingBatch)
  {
    b.blobsAccepted && forall n: u64 :: b.fromBlock <= n <= b.toBlock ==> n in m.responses
  }

  ghost predicate ReadyIn(m: Memory, i: u64)
  {
    i in m.batches && Ready(m, m.batches[i])
  }

  /** A batch is ready exactly when it was committed and submitted and all its blocks have responded. */
  lemma ReadyMeans(w: World, es: seq<Event>, i: u64)
    requires Storing(w, es)
    ensures ReadyIn(Run(Empty(), OpsOf(w, es)).mem, i)
       <==> Committed(i) in es && Submitted(i) in es && forall n: u64 :: w.lo(i) <= n <= w.hi(i) ==> Responded(n) in es
  {
    hide Run, Inv;
    EventsDetermine(w, es);
    EventIn(es, i);
    var m := Outcome(w, CommittedIn(es), SubmittedIn(es), RespondedIn(es));
    forall n: u64 ensures n in m.responses <==> Responded(n) in es {
      EventIn(es, n);
    }
    assert i in m.batches <==> Committed(i) in es;
    assert i in m.batches ==> m.batches[i] == PendingBatch(i, w.lo(i), w.hi(i), Submitted(i) in es);
  }

  lemma EventIn(es: seq<Event>, n: u64)
    ensures n in CommittedIn(es) <==> Committed(n) in es
    ensures n in SubmittedIn(es) <==> Submitted(n) in es
    ensures n in RespondedIn(es) <==> Responded(n) in es
  {
    if Committed(n) in es { assert Committed(n).index in CommittedIn(es); }
    if Submitted(n) in es { assert Submitted(n).index in SubmittedIn(es); }
    if Responded(n) in es { assert Responded(n).block in RespondedIn(es); }
  }
}
