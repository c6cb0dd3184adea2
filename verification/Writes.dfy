/** The database writes of each accumulator operation, statement by statement.

    A statement fails, and changes nothing, when a number it binds does not fit a signed 64-bit column. A
    write is what becomes durable at once: a statement of its own or a committed transaction. */
module Writes {
  import opened Bytes
  import opened Lifecycle

  datatype Stmt =
    | PutResponse(r: Response)
    | DeleteResponse(b: u64)
    | DeleteResponseRange(lo: u64, hi: u64)
    | PutPending(p: PendingBatch)
    | FlagPending(i: u64)
    | DeletePending(i: u64)
    | PutEarly(i: u64)
    | DeleteEarly(i: u64)
    | PutSignature(i: u64, s: Signature)
    | DropSignatureRow(i: u64)
    | PutDispatched(i: u64, lo: u64, hi: u64, tx: Bytes32, l1: u64, nonce: u64, fee: u128, tip: u128)
    | PutExternal(i: u64, lo: u64, hi: u64, tx: Bytes32, l1: u64)
    | DeleteDispatched(i: u64)
    | SetRbf(i: u64, tx: Bytes32, fee: u128, tip: u128)
    | SetL1Block(i: u64, l1: u64)

  /** Every number that the statement binds fits its column. */
  predicate Binds(s: Stmt)
  {
    match s
    case PutResponse(r) => Storable(r.blockNumber)
    case DeleteResponse(b) => Storable(b)
    case DeleteResponseRange(lo, hi) => Storable(lo) && Storable(hi)
    case PutPending(p) => Storable(p.batchIndex) && Storable(p.fromBlock) && Storable(p.toBlock)
    case PutDispatched(i, lo, hi, _, l1, nonce, _, _) =>
      Storable(i) && Storable(lo) && Storable(hi) && Storable(l1) && Storable(nonce)
    case PutExternal(i, lo, hi, _, l1) => Storable(i) && Storable(lo) && Storable(hi) && Storable(l1)
    case SetL1Block(i, l1) => Storable(i) && Storable(l1)
    case _ => Storable(s.i)
  }

  function Apply(db: Tables, s: Stmt): Tables
  {
    match s
    case PutResponse(r) => db.(blockResponses := db.blockResponses[r.blockNumber := r])
    case DeleteResponse(b) => db.(blockResponses := db.blockResponses - {b})
    case DeleteResponseRange(lo, hi) =>
      db.(blockResponses := db.blockResponses - set b | b in db.blockResponses && lo <= b <= hi)
    case PutPending(p) => db.(pendingBatches := db.pendingBatches[p.batchIndex := RowOf(p)])
    case FlagPending(i) =>
      if i in db.pendingBatches
      then db.(pendingBatches := db.pendingBatches[i := db.pendingBatches[i].(blobsAccepted := 1)]) else db
    case DeletePending(i) => db.(pendingBatches := db.pendingBatches - {i})
    case PutEarly(i) => db.(pendingBlobs := db.pendingBlobs + {i})
    case DeleteEarly(i) => db.(pendingBlobs := db.pendingBlobs - {i})
    case PutSignature(i, sig) => db.(batchSignatures := db.batchSignatures[i := sig])
    case DropSignatureRow(i) => db.(batchSignatures := db.batchSignatures - {i})
    case PutDispatched(i, lo, hi, tx, l1, nonce, fee, tip) =>
      var row := DispatchedRow(lo, hi, tx, l1, Some(nonce), Some(fee), Some(tip));
      db.(dispatchedBatches := db.dispatchedBatches[i := row])
    case PutExternal(i, lo, hi, tx, l1) =>
      db.(dispatchedBatches := db.dispatchedBatches[i := DispatchedRow(lo, hi, tx, l1, None, None, None)])
    case DeleteDispatched(i) => db.(dispatchedBatches := db.dispatchedBatches - {i})
    case SetRbf(i, tx, fee, tip) =>
      if i in db.dispatchedBatches
      then db.(dispatchedBatches := db.dispatchedBatches[i := db.dispatchedBatches[i].(
                 txHash := tx, maxFeePerGas := Some(fee), maxPriorityFeePerGas := Some(tip))])
      else db
    case SetL1Block(i, l1) =>
      if i in db.dispatchedBatches
      then db.(dispatchedBatches := db.dispatchedBatches[i := db.dispatchedBatches[i].(l1Block := l1)]) else db
  }

  function Execute(db: Tables, s: Stmt): Option<Tables>
  {
    if Binds(s) then Some(Apply(db, s)) else None
  }

  datatype Write =
    | Auto(s: Stmt)
    | Atomic(ss: seq<Stmt>)  // stops at the first failure, and is then rolled back
    | Each(ss: seq<Stmt>)    // goes on past failures, and is committed

  function ExecuteAll(db: Tables, ss: seq<Stmt>): Option<Tables>
    decreases |ss|
  {
    if ss == [] then Some(db) else
      match Execute(db, ss[0])
      case None => None
      case Some(t) => ExecuteAll(t, ss[1..])
  }

  function Or(r: Option<Tables>, db: Tables): Tables
  {
    if r.Some? then r.value else db
  }

  function ExecuteEach(db: Tables, ss: seq<Stmt>): Tables
    decreases |ss|
  {
    if ss == [] then db else ExecuteEach(Or(Execute(db, ss[0]), db), ss[1..])
  }

  function Durable(db: Tables, w: Write): Tables
  {
    match w
    case Auto(s) => Or(Execute(db, s), db)
    case Atomic(ss) => Or(ExecuteAll(db, ss), db)
    case Each(ss) => ExecuteEach(db, ss)
  }

  function DurableAll(db: Tables, ws: seq<Write>): Tables
    decreases |ws|
  {
    if ws == [] then db else DurableAll(Durable(db, ws[0]), ws[1..])
  }

  function Deletions(blocks: seq<u64>): (ss: seq<Stmt>)
    ensures |ss| == |blocks| && forall k :: 0 <= k < |ss| ==> ss[k] == DeleteResponse(blocks[k])
  {
    seq(|blocks|, k requires 0 <= k < |blocks| => DeleteResponse(blocks[k]))
  }

  function Move(i: u64, put: Stmt): Write
  {
    Atomic([DeletePending(i), put])
  }

  function Finish(i: u64, lo: u64, hi: u64): Write
  {
    Atomic([DeleteDispatched(i), DeleteResponseRange(lo, hi), DropSignatureRow(i)])
  }

  function MoveBack(i: u64, lo: u64, hi: u64): Write
  {
    Atomic([DeleteDispatched(i), PutPending(PendingBatch(i, lo, hi, true))])
  }

  /** The writes of an operation, in order. */
  function WritesOf(mem: Memory, op: Op): seq<Write>
    requires !op.Restart?
  {
    match op
    case SetBatch(i, lo, hi) =>
      if i in mem.dispatched || i in mem.batches then [] else
        var accepted := i in mem.pendingBlobsAccepted;
        (if accepted then [Auto(DeleteEarly(i))] else []) + [Auto(PutPending(PendingBatch(i, lo, hi, accepted)))]
    case InsertResponse(r) => [Auto(PutResponse(r))]
    case MarkSubmitted(i) => [Auto(if i in mem.batches then FlagPending(i) else PutEarly(i))]
    case Purge(blocks) => [Each(Deletions(blocks))]
    case CacheSignature(_, _) => []
    case StoreSignature(i, sig) => [Auto(PutSignature(i, sig))]
    case DropSignature(i) => [Auto(DropSignatureRow(i))]
    case MarkDispatched(i, tx, l1, nonce, fee, tip) =>
      if i !in mem.batches then [] else
        var b := mem.batches[i];
        [Move(i, PutDispatched(i, b.fromBlock, b.toBlock, tx, l1, nonce, fee, tip))]
    case MarkDispatchedExternal(i, tx, l1) =>
      if i !in mem.batches then [] else
        [Move(i, PutExternal(i, mem.batches[i].fromBlock, mem.batches[i].toBlock, tx, l1))]
    case RecordRbfBump(i, tx, fee, tip) => [Auto(SetRbf(i, tx, fee, tip))]
    case RecordL1Block(i, l1) => [Auto(SetL1Block(i, l1))]
    case Finalize(i) =>
      if i !in mem.dispatched then [] else [Finish(i, mem.dispatched[i].fromBlock, mem.dispatched[i].toBlock)]
    case Undispatch(i) =>
      if i !in mem.dispatched || mem.dispatched[i].nonce.None? then [] else
        [MoveBack(i, mem.dispatched[i].fromBlock, mem.dispatched[i].toBlock)]
  }

  // ----- Together they are the step -----

  lemma {:induction false} EachDeletes(db: Tables, blocks: seq<u64>)
    ensures ExecuteEach(db, Deletions(blocks)) == DeleteResponses(db, Listed(blocks))
    decreases |blocks|
  {
    var ss := Deletions(blocks);
    if blocks == [] {
      assert DeleteResponses(db, {}) == db;
    } else {
      var first := Or(Execute(db, ss[0]), db);
      assert ss[1..] == Deletions(blocks[1..]);
      EachDeletes(first, blocks[1..]);
      assert first == DeleteResponses(db, {blocks[0]}) by { OneDelete(db, blocks[0]); }
      assert Listed(blocks) == {blocks[0]} + Listed(blocks[1..]);
      DeleteTwice(db, {blocks[0]}, Listed(blocks[1..]));
    }
  }

  lemma OneDelete(db: Tables, b: u64)
    ensures Or(Execute(db, DeleteResponse(b)), db) == DeleteResponses(db, {b})
  {
    assert (set x | x in {b} && Storable(x)) == if Storable(b) then {b} else {};
  }

  lemma DeleteTwice(db: Tables, a: set<u64>, b: set<u64>)
    ensures DeleteResponses(DeleteResponses(db, a), b) == DeleteResponses(db, a + b)
  {
  }

  lemma AutoWrite(db: Tables, s: Stmt)
    ensures DurableAll(db, [Auto(s)]) == Durable(db, Auto(s))
    ensures Durable(db, Auto(s)) == if Binds(s) then Apply(db, s) else db
  {
  }

  lemma OneWrite(db: Tables, w: Write)
    ensures DurableAll(db, [w]) == Durable(db, w)
  {
  }

  lemma AtomicTwo(db: Tables, a: Stmt, b: Stmt)
    ensures Durable(db, Atomic([a, b]))
         == match Execute(db, a) case None => db case Some(t) => Or(Execute(t, b), db)
  {
    assert [a, b][1..] == [b] && [b][1..] == [];
    assert forall t :: ExecuteAll(t, [b]) == match Execute(t, b) case None => None case Some(u) => Some(u);
  }

  /** A dispatch moves the row or does nothing. */
  lemma MoveIs(db: Tables, d: DispatchedBatch)
    ensures d.nonce.Some? && d.maxFeePerGas.Some? && d.maxPriorityFeePerGas.Some? ==>
      Durable(db, Move(d.batchIndex, PutDispatched(d.batchIndex, d.fromBlock, d.toBlock, d.txHash, d.l1Block,
                                                   d.nonce.value, d.maxFeePerGas.value, d.maxPriorityFeePerGas.value)))
      == MoveToDispatched(db, d)
    ensures d.nonce.None? && d.maxFeePerGas.None? && d.maxPriorityFeePerGas.None? ==>
      Durable(db, Move(d.batchIndex, PutExternal(d.batchIndex, d.fromBlock, d.toBlock, d.txHash, d.l1Block)))
      == MoveToDispatched(db, d)
  {
    if d.nonce.Some? && d.maxFeePerGas.Some? && d.maxPriorityFeePerGas.Some? {
      AtomicTwo(db, DeletePending(d.batchIndex),
                PutDispatched(d.batchIndex, d.fromBlock, d.toBlock, d.txHash, d.l1Block,
                              d.nonce.value, d.maxFeePerGas.value, d.maxPriorityFeePerGas.value));
    } else if d.nonce.None? && d.maxFeePerGas.None? && d.maxPriorityFeePerGas.None? {
      AtomicTwo(db, DeletePending(d.batchIndex),
                PutExternal(d.batchIndex, d.fromBlock, d.toBlock, d.txHash, d.l1Block));
    }
  }

  lemma MoveBackIs(db: Tables, i: u64, lo: u64, hi: u64)
    ensures Durable(db, MoveBack(i, lo, hi)) == UndispatchBatch(db, i, lo, hi)
  {
    AtomicTwo(db, DeleteDispatched(i), PutPending(PendingBatch(i, lo, hi, true)));
  }

  lemma FinishIs(db: Tables, i: u64, lo: u64, hi: u64)
    ensures Durable(db, Finish(i, lo, hi)) == FinalizeBatch(db, i, lo, hi)
  {
    var a, b, c := DeleteDispatched(i), DeleteResponseRange(lo, hi), DropSignatureRow(i);
    assert [a, b, c][1..] == [b, c] && [b, c][1..] == [c] && [c][1..] == [];
    if Storable(i) && Storable(lo) && Storable(hi) {
      var t := Apply(db, a);
      assert ExecuteAll(db, [a, b, c]) == ExecuteAll(t, [b, c]);
      assert ExecuteAll(t, [b, c]) == ExecuteAll(Apply(t, b), [c]);
      assert ExecuteAll(Apply(t, b), [c]) == Some(Apply(Apply(t, b), c));
    } else if Storable(i) {
      assert ExecuteAll(db, [a, b, c]) == ExecuteAll(Apply(db, a), [b, c]);
    }
  }

  lemma SetBatchWrites(s: System, i: u64, lo: u64, hi: u64)
    ensures DurableAll(s.db, WritesOf(s.mem, SetBatch(i, lo, hi))) == Step(s, SetBatch(i, lo, hi)).db
  {
    if i !in s.mem.dispatched && i !in s.mem.batches {
      var put := Auto(PutPending(PendingBatch(i, lo, hi, i in s.mem.pendingBlobsAccepted)));
      if i in s.mem.pendingBlobsAccepted {
        var ws := [Auto(DeleteEarly(i)), put];
        assert WritesOf(s.mem, SetBatch(i, lo, hi)) == ws && ws[1..] == [put];
        assert DurableAll(s.db, ws) == DurableAll(DeletePendingBlobs(s.db, i), [put]);
        OneWrite(DeletePendingBlobs(s.db, i), put);
      } else {
        OneWrite(s.db, put);
      }
    }
  }

  /** The writes of an operation, all of them made, are its effect on the database. */
  lemma WritesAreStep(s: System, op: Op)
    requires !op.Restart?
    ensures DurableAll(s.db, WritesOf(s.mem, op)) == Step(s, op).db
  {
    hide Durable, MoveToDispatched, FinalizeBatch, UndispatchBatch, DeleteResponses;
    match op
    case SetBatch(i, lo, hi) => SetBatchWrites(s, i, lo, hi);
    case Purge(blocks) =>
      OneWrite(s.db, Each(Deletions(blocks)));
      PurgeWrites(s.db, blocks);
    case MarkDispatched(i, tx, l1, nonce, fee, tip) =>
      if i in s.mem.batches {
        var b := s.mem.batches[i];
        OneWrite(s.db, Move(i, PutDispatched(i, b.fromBlock, b.toBlock, tx, l1, nonce, fee, tip)));
        MoveIs(s.db, DispatchedBatch(i, b.fromBlock, b.toBlock, tx, l1, Some(nonce), Some(fee), Some(tip)));
      }
    case MarkDispatchedExternal(i, tx, l1) =>
      if i in s.mem.batches {
        var b := s.mem.batches[i];
        OneWrite(s.db, Move(i, PutExternal(i, b.fromBlock, b.toBlock, tx, l1)));
        MoveIs(s.db, DispatchedBatch(i, b.fromBlock, b.toBlock, tx, l1, None, None, None));
      }
    case Finalize(i) =>
      if i in s.mem.dispatched {
        var d := s.mem.dispatched[i];
        OneWrite(s.db, Finish(i, d.fromBlock, d.toBlock));
        FinishIs(s.db, i, d.fromBlock, d.toBlock);
      }
    case Undispatch(i) =>
      if i in s.mem.dispatched && s.mem.dispatched[i].nonce.Some? {
        var d := s.mem.dispatched[i];
        OneWrite(s.db, MoveBack(i, d.fromBlock, d.toBlock));
        MoveBackIs(s.db, i, d.fromBlock, d.toBlock);
      }
    case CacheSignature(_, _) =>
    case _ => SingleWrites(s, op);
  }

  lemma PurgeWrites(db: Tables, blocks: seq<u64>)
    ensures Durable(db, Each(Deletions(blocks))) == DeleteResponses(db, Listed(blocks))
  {
    EachDeletes(db, blocks);
  }

  lemma SingleWrites(s: System, op: Op)
    requires op.InsertResponse? || op.MarkSubmitted? || op.StoreSignature? || op.DropSignature? || op.RecordRbfBump?
          || op.RecordL1Block?
    ensures DurableAll(s.db, WritesOf(s.mem, op)) == Step(s, op).db
  {
    AutoWrite(s.db, WritesOf(s.mem, op)[0].s);
  }

  // ----- A crash between the writes -----

  /** The database when the process dies after the first `k` writes. */
  function Crashed(s: System, op: Op, k: nat): Tables
    requires !op.Restart? && k <= |WritesOf(s.mem, op)|
  {
    DurableAll(s.db, WritesOf(s.mem, op)[..k])
  }

  /** A batch is being registered, its early submission was deleted, and its row is not there yet. */
  predicate Torn(m: Memory, op: Op, k: nat)
  {
    && op.SetBatch? && k == 1
    && op.i !in m.batches && op.i !in m.dispatched && op.i in m.pendingBlobsAccepted
  }

  lemma CrashEnds(s: System, op: Op, k: nat)
    requires !op.Restart? && k <= |WritesOf(s.mem, op)| && !Torn(s.mem, op, k)
    ensures Crashed(s, op, k) == s.db || Crashed(s, op, k) == Step(s, op).db
  {
    hide Step, DurableAll;
    var ws := WritesOf(s.mem, op);
    WritesAreStep(s, op);
    NoWrite(s.db);
    if k == 0 {
      assert ws[..0] == [];
    } else {
      assert k == |ws|;
      assert ws[..k] == ws;
    }
  }

  lemma NoWrite(db: Tables)
    ensures DurableAll(db, []) == db
  {
  }

  lemma TornTables(s: System, op: Op)
    requires !op.Restart? && Torn(s.mem, op, 1)
    ensures |WritesOf(s.mem, op)| == 2 && Crashed(s, op, 1) == DeletePendingBlobs(s.db, op.i)
  {
    var ws := WritesOf(s.mem, op);
    assert ws[..1] == [Auto(DeleteEarly(op.i))];
    AutoWrite(s.db, DeleteEarly(op.i));
  }

  /** The torn state without its early submission. */
  lemma TornInv(s: System, op: Op)
    requires Inv(s) && !op.Restart? && Torn(s.mem, op, 1)
    ensures |WritesOf(s.mem, op)| == 2
    ensures Inv(System(s.mem.(pendingBlobsAccepted := s.mem.pendingBlobsAccepted - {op.i}), Crashed(s, op, 1)))
  {
    TornTables(s, op);
    hide PendingMirror, DispatchedMirror, ResponsesMirror;
  }

  /** Wherever a crash falls in a safe operation, the tables stay consistent: after the restart no index is
      both pending and dispatched, and memory and tables agree. */
  lemma CrashKeepsInv(s: System, op: Op, k: nat)
    requires Inv(s) && Safe(s.mem, op) && !op.Restart? && k <= |WritesOf(s.mem, op)|
    ensures Inv(Reload(Crashed(s, op, k)))
  {
    hide Inv, Step, Reload, Crashed, Safe;
    if Torn(s.mem, op, k) {
      TornInv(s, op);
      ReloadIsMemory(System(s.mem.(pendingBlobsAccepted := s.mem.pendingBlobsAccepted - {op.i}), Crashed(s, op, 1)));
    } else {
      CrashEnds(s, op, k);
      SafeKeepsInv(s, op);
      ReloadIsMemory(s);
      ReloadIsMemory(Step(s, op));
    }
  }

  /** A restart after a crash loads the memory from before the operation or from after it, if and only if
      the operation is not torn there. */
  lemma CrashExact(s: System, op: Op, k: nat)
    requires Inv(s) && Safe(s.mem, op) && !op.Restart? && k <= |WritesOf(s.mem, op)|
    ensures var m := Reload(Crashed(s, op, k)).mem;
            SameBatches(m, s.mem) || SameBatches(m, Step(s, op).mem) <==> !Torn(s.mem, op, k)
  {
    if Torn(s.mem, op, k) {
      TornInv(s, op);
      hide Inv, Reload, Crashed;
      ReloadIsMemory(System(s.mem.(pendingBlobsAccepted := s.mem.pendingBlobsAccepted - {op.i}), Crashed(s, op, 1)));
      assert op.i in s.mem.pendingBlobsAccepted && op.i in Step(s, op).mem.batches;
    } else {
      hide Inv, Step, Reload, Crashed, Safe;
      CrashEnds(s, op, k);
      SafeKeepsInv(s, op);
      ReloadIsMemory(s);
      ReloadIsMemory(Step(s, op));
    }
  }

  /** A torn operation does happen: a submission that arrived first is forgotten. */
  lemma TornHappens()
    ensures var s := Step(Empty(), MarkSubmitted(7));
            var op := SetBatch(7, 0, 0);
            && |WritesOf(s.mem, op)| == 2 && Torn(s.mem, op, 1)
            && Reload(Crashed(s, op, 1)).mem == Empty().mem
  {
    var s, op := Step(Empty(), MarkSubmitted(7)), SetBatch(7, 0, 0);
    TornTables(s, op);
    assert Crashed(s, op, 1) == Empty().db;
    ReloadEmpty();
  }
}
