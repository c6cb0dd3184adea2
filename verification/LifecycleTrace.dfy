/** What is in memory and in the tables after any run of operations, column by column: the value that the last
    operation to touch it left, or what was there at the start. */
module LifecycleTrace {
  import opened Bytes
  import opened Lifecycle

  // ----- The last operation that touches something -----

  type Touch = (System, Op) -> bool

  /** Operation `k` of the run touches it. */
  ghost predicate TouchedBy(touches: Touch, s: System, ops: seq<Op>, k: int)
  {
    0 <= k < |ops| && touches(Run(s, ops[..k]), ops[k])
  }

  /** And none after it does. */
  ghost predicate LastTouch(touches: Touch, s: System, ops: seq<Op>, k: int)
  {
    TouchedBy(touches, s, ops, k) && forall j :: TouchedBy(touches, s, ops, j) ==> j <= k
  }

  ghost predicate Untouched(touches: Touch, s: System, ops: seq<Op>)
  {
    forall k :: !TouchedBy(touches, s, ops, k)
  }

  /** After the run there is what the last operation to touch it left, or, if none did, what there was. */
  ghost predicate Decided<T>(see: System -> T, touches: Touch, leaves: (System, Op) -> T, s: System, ops: seq<Op>)
  {
    && (forall k :: LastTouch(touches, s, ops, k) ==> see(Run(s, ops)) == leaves(Run(s, ops[..k]), ops[k]))
    && (Untouched(touches, s, ops) ==> see(Run(s, ops)) == see(s))
  }

  /** One operation leaves what it should, if it touches, and nothing else changes it. */
  predicate Obeys<T(==)>(see: System -> T, touches: Touch, leaves: (System, Op) -> T, s: System, op: Op)
  {
    see(Step(s, op)) == if touches(s, op) then leaves(s, op) else see(s)
  }

  lemma {:induction false} SomeLast(touches: Touch, s: System, ops: seq<Op>)
    ensures Untouched(touches, s, ops) || exists k :: LastTouch(touches, s, ops, k)
  {
    if k :| TouchedBy(touches, s, ops, k) {
      var last := LastFrom(touches, s, ops, k);
    }
  }

  lemma {:induction false} LastFrom(touches: Touch, s: System, ops: seq<Op>, k: int) returns (last: int)
    requires TouchedBy(touches, s, ops, k)
    ensures LastTouch(touches, s, ops, last)
    decreases |ops| - k
  {
    if j :| TouchedBy(touches, s, ops, j) && j > k {
      last := LastFrom(touches, s, ops, j);
    } else {
      last := k;
    }
  }

  lemma TouchedPrefix(touches: Touch, s: System, front: seq<Op>, op: Op, k: int)
    ensures TouchedBy(touches, s, front + [op], k) <==>
              TouchedBy(touches, s, front, k) || (k == |front| && touches(Run(s, front), op))
    ensures 0 <= k < |front| ==> (front + [op])[..k] == front[..k] && (front + [op])[k] == front[k]
    ensures (front + [op])[..|front|] == front && (front + [op])[|front|] == op
  {
    hide Run;
    assert 0 <= k < |front| ==> (front + [op])[..k] == front[..k];
    assert (front + [op])[..|front|] == front;
  }

  lemma RunExtended(s: System, front: seq<Op>, op: Op)
    ensures Run(s, front + [op]) == Step(Run(s, front), op)
  {
    hide Step;
    assert (front + [op])[..|front|] == front;
  }

  lemma ExtendDecides<T>(see: System -> T, touches: Touch, leaves: (System, Op) -> T, s: System, front: seq<Op>, op: Op)
    requires Decided(see, touches, leaves, s, front) && Obeys(see, touches, leaves, Run(s, front), op)
    ensures Decided(see, touches, leaves, s, front + [op])
  {
    hide Step, Run;
    var ops := front + [op];
    RunExtended(s, front, op);
    if touches(Run(s, front), op) {
      TouchedPrefix(touches, s, front, op, |front|);
      forall k | LastTouch(touches, s, ops, k) ensures k == |front| { assert TouchedBy(touches, s, ops, |front|); }
    } else {
      forall k
        ensures TouchedBy(touches, s, ops, k) <==> TouchedBy(touches, s, front, k)
        ensures 0 <= k < |front| ==> ops[..k] == front[..k] && ops[k] == front[k]
      {
        TouchedPrefix(touches, s, front, op, k);
      }
      forall k | LastTouch(touches, s, ops, k) ensures LastTouch(touches, s, front, k) {
      }
    }
  }

  /** Operation `k` of the run obeys. */
  ghost predicate ObeysAt<T>(see: System -> T, touches: Touch, leaves: (System, Op) -> T, s: System, ops: seq<Op>,
                             k: int)
  {
    0 <= k < |ops| ==> Obeys(see, touches, leaves, Run(s, ops[..k]), ops[k])
  }

  lemma ObeysFront<T>(see: System -> T, touches: Touch, leaves: (System, Op) -> T, s: System, ops: seq<Op>, k: int)
    requires ops != [] && ObeysAt(see, touches, leaves, s, ops, k)
    ensures ObeysAt(see, touches, leaves, s, ops[..|ops| - 1], k)
  {
    hide Obeys, Run;
    if 0 <= k < |ops| - 1 { assert ops[..|ops| - 1][..k] == ops[..k]; }
  }

  lemma ObeysLast<T>(see: System -> T, touches: Touch, leaves: (System, Op) -> T, s: System, ops: seq<Op>)
    requires ops != [] && ObeysAt(see, touches, leaves, s, ops, |ops| - 1)
    ensures Obeys(see, touches, leaves, Run(s, ops[..|ops| - 1]), ops[|ops| - 1])
  {
  }

  lemma {:induction false} RunDecides<T>(see: System -> T, touches: Touch, leaves: (System, Op) -> T, s: System,
                                         ops: seq<Op>)
    requires forall k :: ObeysAt(see, touches, leaves, s, ops, k)
    ensures Decided(see, touches, leaves, s, ops)
    decreases |ops|
  {
    if ops != [] {
      hide Decided, Obeys, ObeysAt, Run;
      var n := |ops| - 1;
      var front := ops[..n];
      forall k ensures ObeysAt(see, touches, leaves, s, front, k) { ObeysFront(see, touches, leaves, s, ops, k); }
      RunDecides(see, touches, leaves, s, front);
      ObeysLast(see, touches, leaves, s, ops);
      ExtendDecides(see, touches, leaves, s, front, ops[n]);
      assert front + [ops[n]] == ops;
    }
  }

  function Lookup<K, V>(m: map<K, V>, k: K): Option<V>
  {
    if k in m then Some(m[k]) else None
  }

  // ----- Signatures in memory -----

  predicate TouchesSignature(s: System, op: Op, i: u64)
  {
    match op
    case CacheSignature(j, _) => j == i
    case DropSignature(j) => j == i
    case Finalize(j) => j == i && i in s.mem.dispatched
    case MarkDispatchedExternal(j, _, _) => j == i && i in s.mem.batches
    case Restart => true
    case _ => false
  }

  /** The tables know a batch of this index. */
  predicate HasBatch(db: Tables, i: u64)
  {
    i in db.pendingBatches || (i in db.dispatchedBatches && |db.dispatchedBatches[i].txHash| == 32)
  }

  /** Caching leaves the signature, a restart the row of a known batch; the others leave none. */
  function LeavesSignature(s: System, op: Op, i: u64): Option<Signature>
  {
    match op
    case CacheSignature(_, sig) => Some(sig)
    case Restart => if HasBatch(s.db, i) then Lookup(s.db.batchSignatures, i as int) else None
    case _ => None
  }

  lemma SignatureObeys(s: System, op: Op, i: u64)
    ensures Lookup(Step(s, op).mem.signatures, i)
         == if TouchesSignature(s, op, i) then LeavesSignature(s, op, i) else Lookup(s.mem.signatures, i)
  {
    hide SaveBatch, UpdateBlobsAccepted, SavePendingBlobs, DeletePendingBlobs, SaveResponse, DeleteResponses,
         SaveSignature, DeleteSignature, MoveToDispatched, UpdateRbf, UpdateL1Block, FinalizeBatch, UndispatchBatch;
  }

  function SignatureTouch(i: u64): Touch
  {
    (s, op) => TouchesSignature(s, op, i)
  }

  /** The operation, where it happens, leaves this signature. */
  predicate SetsSignature(s: System, op: Op, i: u64, sig: Signature)
  {
    || op == CacheSignature(i, sig)
    || (op == Restart && HasBatch(s.db, i) && Lookup(s.db.batchSignatures, i as int) == Some(sig))
  }

  lemma SignatureLeft(s: System, op: Op, i: u64, sig: Signature)
    requires TouchesSignature(s, op, i)
    ensures LeavesSignature(s, op, i) == Some(sig) <==> SetsSignature(s, op, i, sig)
  {
  }

  /** Over every run: the memory holds this signature for a batch if and only if the last operation to touch it was
      the caching of this signature, or a restart that found it in the table and a batch with it; or none touched it,
      and it was there. Dropping it, finalizing the batch and a dispatch by someone else remove it. */
  lemma SignatureExact(s: System, ops: seq<Op>, i: u64, sig: Signature)
    ensures Lookup(Run(s, ops).mem.signatures, i) == Some(sig) <==>
              || (exists k ::
                    LastTouch(SignatureTouch(i), s, ops, k) && SetsSignature(Run(s, ops[..k]), ops[k], i, sig))
              || (Untouched(SignatureTouch(i), s, ops) && Lookup(s.mem.signatures, i) == Some(sig))
  {
    hide Step, Run, TouchesSignature, LeavesSignature, SetsSignature;
    var touches := SignatureTouch(i);
    var see, leaves := (x: System) => Lookup(x.mem.signatures, i), (x, op) => LeavesSignature(x, op, i);
    forall k ensures ObeysAt(see, touches, leaves, s, ops, k) {
      if 0 <= k < |ops| { SignatureObeys(Run(s, ops[..k]), ops[k], i); }
    }
    RunDecides(see, touches, leaves, s, ops);
    SomeLast(touches, s, ops);
    forall k | LastTouch(touches, s, ops, k)
      ensures leaves(Run(s, ops[..k]), ops[k]) == Some(sig) <==> SetsSignature(Run(s, ops[..k]), ops[k], i, sig)
    {
      SignatureLeft(Run(s, ops[..k]), ops[k], i, sig);
    }
  }

  // ----- Signatures in the table -----

  predicate TouchesRow(s: System, op: Op, i: u64)
  {
    Storable(i) &&
    match op
    case StoreSignature(j, _) => j == i
    case DropSignature(j) => j == i
    case Finalize(j) =>
      && j == i && i in s.mem.dispatched
      && Storable(s.mem.dispatched[i].fromBlock) && Storable(s.mem.dispatched[i].toBlock)
    case Restart => !HasBatch(s.db, i)
    case _ => false
  }

  function LeavesRow(s: System, op: Op, i: u64): Option<Signature>
  {
    if op.StoreSignature? then Some(op.s) else None
  }

  function RowTouch(i: u64): Touch
  {
    (s, op) => TouchesRow(s, op, i)
  }

  lemma RowObeys(s: System, op: Op, i: u64)
    ensures Lookup(Step(s, op).db.batchSignatures, i as int)
         == if TouchesRow(s, op, i) then LeavesRow(s, op, i) else Lookup(s.db.batchSignatures, i as int)
  {
  }

  /** Over every run: the table holds this signature for a batch if and only if the last operation to touch its row
      stored it, or none touched the row, and it was there. Dropping it, finalizing the batch, and a restart that
      finds no batch of this index delete the row. */
  lemma SignatureRowExact(s: System, ops: seq<Op>, i: u64, sig: Signature)
    ensures Lookup(Run(s, ops).db.batchSignatures, i as int) == Some(sig) <==>
              || (exists k :: LastTouch(RowTouch(i), s, ops, k) && ops[k] == StoreSignature(i, sig))
              || (Untouched(RowTouch(i), s, ops) && Lookup(s.db.batchSignatures, i as int) == Some(sig))
  {
    hide Step, Run, LeavesRow, TouchesRow;
    var touches := RowTouch(i);
    var see, leaves := (x: System) => Lookup(x.db.batchSignatures, i as int), (x, op) => LeavesRow(x, op, i);
    forall k ensures ObeysAt(see, touches, leaves, s, ops, k) {
      if 0 <= k < |ops| { RowObeys(Run(s, ops[..k]), ops[k], i); }
    }
    RunDecides(see, touches, leaves, s, ops);
    SomeLast(touches, s, ops);
    forall k | LastTouch(touches, s, ops, k)
      ensures leaves(Run(s, ops[..k]), ops[k]) == Some(sig) <==> ops[k] == StoreSignature(i, sig)
    {
      RowLeft(Run(s, ops[..k]), ops[k], i, sig);
    }
  }

  lemma RowLeft(s: System, op: Op, i: u64, sig: Signature)
    requires TouchesRow(s, op, i)
    ensures LeavesRow(s, op, i) == Some(sig) <==> op == StoreSignature(i, sig)
  {
  }

  // ----- The signature that is sent next -----

  /** Caching the signature of the lowest pending batch makes it the one that is sent next. */
  lemma CachedIsNext(s: System, i: u64, sig: Signature, r: Option<(u64, seq<byte>)>)
    requires i in s.mem.batches && (forall j :: j in s.mem.batches ==> i <= j)
    requires NextSigned(Step(s, CacheSignature(i, sig)).mem, r)
    ensures r == Some((i, sig.signature))
  {
  }

  // ----- Batches and responses -----

  lemma {:induction false} SafePrefix(s: System, ops: seq<Op>, k: nat)
    requires Inv(s) && SafeRun(s, ops) && k < |ops|
    ensures Inv(Run(s, ops[..k])) && Safe(Run(s, ops[..k]).mem, ops[k])
    decreases |ops|
  {
    hide Inv, Safe, Step, Run, Reload;
    var n := |ops| - 1;
    if k == n {
      RunKeepsInv(s, ops[..n]);
    } else {
      SafePrefix(s, ops[..n], k);
      assert ops[..n][..k] == ops[..k];
    }
  }

  // Where a batch is.

  datatype Place = Nowhere | Waiting | Sent

  function PlaceOf(s: System, i: u64): Place
  {
    if i in s.mem.batches then Waiting else if i in s.mem.dispatched then Sent else Nowhere
  }

  predicate Fresh(s: System, i: u64)
  {
    i !in s.mem.batches && i !in s.mem.dispatched
  }

  predicate CanUndo(s: System, i: u64)
  {
    i in s.mem.dispatched && s.mem.dispatched[i].nonce.Some?
  }

  predicate TouchesPlace(s: System, op: Op, i: u64)
  {
    match op
    case SetBatch(j, _, _) => j == i && Fresh(s, i)
    case MarkDispatched(j, _, _, _, _, _) => j == i && i in s.mem.batches
    case MarkDispatchedExternal(j, _, _) => j == i && i in s.mem.batches
    case Undispatch(j) => j == i && CanUndo(s, i)
    case Finalize(j) => j == i && i in s.mem.dispatched
    case _ => false
  }

  function LeavesPlace(s: System, op: Op, i: u64): Place
  {
    match op
    case MarkDispatched(_, _, _, _, _, _) => Sent
    case MarkDispatchedExternal(_, _, _) => Sent
    case Finalize(_) => Nowhere
    case _ => Waiting
  }

  lemma MovesPlace(s: System, op: Op, i: u64)
    requires !op.Restart? && OnePlace(s.mem)
    ensures PlaceOf(Step(s, op), i) == if TouchesPlace(s, op, i) then LeavesPlace(s, op, i) else PlaceOf(s, i)
  {
    hide SaveBatch, UpdateBlobsAccepted, SavePendingBlobs, DeletePendingBlobs, SaveResponse, DeleteResponses,
         SaveSignature, DeleteSignature, MoveToDispatched, UpdateRbf, UpdateL1Block, FinalizeBatch, UndispatchBatch;
  }

  // The range of a batch.

  function RangeAtOf(s: System, i: u64): Option<(u64, u64)>
  {
    if Registered(s.mem, i) then Some(RangeOf(s.mem, i)) else None
  }

  predicate TouchesRangeAt(s: System, op: Op, i: u64)
  {
    match op
    case SetBatch(j, _, _) => j == i && Fresh(s, i)
    case Finalize(j) => j == i && i in s.mem.dispatched
    case _ => false
  }

  function LeavesRangeAt(s: System, op: Op, i: u64): Option<(u64, u64)>
  {
    if op.SetBatch? then Some((op.lo, op.hi)) else None
  }

  lemma MovesRangeAt(s: System, op: Op, i: u64)
    requires !op.Restart? && OnePlace(s.mem)
    ensures RangeAtOf(Step(s, op), i) == if TouchesRangeAt(s, op, i) then LeavesRangeAt(s, op, i) else RangeAtOf(s, i)
  {
    hide SaveBatch, UpdateBlobsAccepted, SavePendingBlobs, DeletePendingBlobs, SaveResponse, DeleteResponses,
         SaveSignature, DeleteSignature, MoveToDispatched, UpdateRbf, UpdateL1Block, FinalizeBatch, UndispatchBatch;
  }

  // Whether a batch that waits is known to be submitted, and submissions that came first.

  predicate SubmittedOf(s: System, i: u64)
  {
    i in s.mem.batches && s.mem.batches[i].blobsAccepted
  }

  predicate TouchesSubmitted(s: System, op: Op, i: u64)
  {
    match op
    case MarkSubmitted(j) => j == i && i in s.mem.batches
    case _ => TouchesPlace(s, op, i) && !op.Finalize?
  }

  predicate LeavesSubmitted(s: System, op: Op, i: u64)
  {
    match op
    case SetBatch(_, _, _) => i in s.mem.pendingBlobsAccepted
    case MarkSubmitted(_) => true
    case Undispatch(_) => true
    case _ => false
  }

  lemma MovesSubmitted(s: System, op: Op, i: u64)
    requires !op.Restart? && OnePlace(s.mem)
    ensures SubmittedOf(Step(s, op), i)
         == if TouchesSubmitted(s, op, i) then LeavesSubmitted(s, op, i) else SubmittedOf(s, i)
  {
    hide SaveBatch, UpdateBlobsAccepted, SavePendingBlobs, DeletePendingBlobs, SaveResponse, DeleteResponses,
         SaveSignature, DeleteSignature, MoveToDispatched, UpdateRbf, UpdateL1Block, FinalizeBatch, UndispatchBatch;
  }

  predicate EarlyOf(s: System, i: u64)
  {
    i in s.mem.pendingBlobsAccepted
  }

  predicate TouchesEarly(s: System, op: Op, i: u64)
  {
    match op
    case MarkSubmitted(j) => j == i && i !in s.mem.batches
    case SetBatch(j, _, _) => j == i && Fresh(s, i)
    case _ => false
  }

  predicate LeavesEarly(s: System, op: Op, i: u64)
  {
    op.MarkSubmitted?
  }

  lemma MovesEarly(s: System, op: Op, i: u64)
    requires !op.Restart? && OnePlace(s.mem)
    ensures EarlyOf(Step(s, op), i) == if TouchesEarly(s, op, i) then LeavesEarly(s, op, i) else EarlyOf(s, i)
  {
    hide SaveBatch, UpdateBlobsAccepted, SavePendingBlobs, DeletePendingBlobs, SaveResponse, DeleteResponses,
         SaveSignature, DeleteSignature, MoveToDispatched, UpdateRbf, UpdateL1Block, FinalizeBatch, UndispatchBatch;
  }

  // Hash and fees of a dispatched batch.

  datatype Fees = Fees(txHash: Bytes32, maxFeePerGas: Option<u128>, maxPriorityFeePerGas: Option<u128>)

  function FeesOf(s: System, i: u64): Option<Fees>
  {
    if i !in s.mem.dispatched then None else
      var d := s.mem.dispatched[i];
      Some(Fees(d.txHash, d.maxFeePerGas, d.maxPriorityFeePerGas))
  }

  predicate TouchesFees(s: System, op: Op, i: u64)
  {
    match op
    case RecordRbfBump(j, _, _, _) => j == i && i in s.mem.dispatched
    case _ => TouchesPlace(s, op, i) && !op.SetBatch?
  }

  function LeavesFees(s: System, op: Op, i: u64): Option<Fees>
  {
    match op
    case MarkDispatched(_, tx, _, _, fee, tip) => Some(Fees(tx, Some(fee), Some(tip)))
    case MarkDispatchedExternal(_, tx, _) => Some(Fees(tx, None, None))
    case RecordRbfBump(_, tx, fee, tip) => Some(Fees(tx, Some(fee), Some(tip)))
    case _ => None
  }

  lemma MovesFees(s: System, op: Op, i: u64)
    requires !op.Restart? && OnePlace(s.mem)
    ensures FeesOf(Step(s, op), i) == if TouchesFees(s, op, i) then LeavesFees(s, op, i) else FeesOf(s, i)
  {
    hide SaveBatch, UpdateBlobsAccepted, SavePendingBlobs, DeletePendingBlobs, SaveResponse, DeleteResponses,
         SaveSignature, DeleteSignature, MoveToDispatched, UpdateRbf, UpdateL1Block, FinalizeBatch, UndispatchBatch;
  }

  // L1 block and nonce of a dispatched batch.

  function L1BlockOf(s: System, i: u64): Option<u64>
  {
    if i in s.mem.dispatched then Some(s.mem.dispatched[i].l1Block) else None
  }

  predicate TouchesL1Block(s: System, op: Op, i: u64)
  {
    match op
    case RecordL1Block(j, _) => j == i && i in s.mem.dispatched
    case _ => TouchesPlace(s, op, i) && !op.SetBatch?
  }

  function LeavesL1Block(s: System, op: Op, i: u64): Option<u64>
  {
    match op
    case MarkDispatched(_, _, l1, _, _, _) => Some(l1)
    case MarkDispatchedExternal(_, _, l1) => Some(l1)
    case RecordL1Block(_, l1) => Some(l1)
    case _ => None
  }

  lemma MovesL1Block(s: System, op: Op, i: u64)
    requires !op.Restart? && OnePlace(s.mem)
    ensures L1BlockOf(Step(s, op), i) == if TouchesL1Block(s, op, i) then LeavesL1Block(s, op, i) else L1BlockOf(s, i)
  {
    hide SaveBatch, UpdateBlobsAccepted, SavePendingBlobs, DeletePendingBlobs, SaveResponse, DeleteResponses,
         SaveSignature, DeleteSignature, MoveToDispatched, UpdateRbf, UpdateL1Block, FinalizeBatch, UndispatchBatch;
  }

  function NonceOf(s: System, i: u64): Option<Option<u64>>
  {
    if i in s.mem.dispatched then Some(s.mem.dispatched[i].nonce) else None
  }

  predicate TouchesNonce(s: System, op: Op, i: u64)
  {
    TouchesPlace(s, op, i) && !op.SetBatch?
  }

  function LeavesNonce(s: System, op: Op, i: u64): Option<Option<u64>>
  {
    match op
    case MarkDispatched(_, _, _, nonce, _, _) => Some(Some(nonce))
    case MarkDispatchedExternal(_, _, _) => Some(None)
    case _ => None
  }

  lemma MovesNonce(s: System, op: Op, i: u64)
    requires !op.Restart? && OnePlace(s.mem)
    ensures NonceOf(Step(s, op), i) == if TouchesNonce(s, op, i) then LeavesNonce(s, op, i) else NonceOf(s, i)
  {
    hide SaveBatch, UpdateBlobsAccepted, SavePendingBlobs, DeletePendingBlobs, SaveResponse, DeleteResponses,
         SaveSignature, DeleteSignature, MoveToDispatched, UpdateRbf, UpdateL1Block, FinalizeBatch, UndispatchBatch;
  }

  // Responses.

  function ResponseOf(s: System, b: u64): Option<Response>
  {
    Lookup(s.mem.responses, b)
  }

  predicate TouchesResponse(s: System, op: Op, b: u64)
  {
    match op
    case InsertResponse(r) => r.blockNumber == b
    case Purge(blocks) => b in blocks
    case Finalize(j) =>
      j in s.mem.dispatched && s.mem.dispatched[j].fromBlock <= b <= s.mem.dispatched[j].toBlock
    case _ => false
  }

  function LeavesResponse(s: System, op: Op, b: u64): Option<Response>
  {
    if op.InsertResponse? then Some(op.response) else None
  }

  lemma MovesResponse(s: System, op: Op, i: u64)
    requires !op.Restart? && OnePlace(s.mem)
    ensures ResponseOf(Step(s, op), i)
         == if TouchesResponse(s, op, i) then LeavesResponse(s, op, i) else ResponseOf(s, i)
  {
    hide SaveBatch, UpdateBlobsAccepted, SavePendingBlobs, DeletePendingBlobs, SaveResponse, DeleteResponses,
         SaveSignature, DeleteSignature, MoveToDispatched, UpdateRbf, UpdateL1Block, FinalizeBatch, UndispatchBatch;
  }

  // ----- Every column -----

  datatype Column =
    | PlaceColumn | RangeColumn | SubmittedColumn | EarlyColumn | FeesColumn | L1BlockColumn | NonceColumn
    | ResponseColumn

  datatype Seen =
    | Placed(place: Place)
    | Ranged(range: Option<(u64, u64)>)
    | Flagged(flag: bool)
    | Charged(fees: Option<Fees>)
    | Numbered(number: Option<u64>)
    | Nonced(nonce: Option<Option<u64>>)
    | Answered(response: Option<Response>)

  function See(c: Column, s: System, i: u64): Seen
  {
    match c
    case PlaceColumn => Placed(PlaceOf(s, i))
    case RangeColumn => Ranged(RangeAtOf(s, i))
    case SubmittedColumn => Flagged(SubmittedOf(s, i))
    case EarlyColumn => Flagged(EarlyOf(s, i))
    case FeesColumn => Charged(FeesOf(s, i))
    case L1BlockColumn => Numbered(L1BlockOf(s, i))
    case NonceColumn => Nonced(NonceOf(s, i))
    case ResponseColumn => Answered(ResponseOf(s, i))
  }

  predicate Touches(c: Column, s: System, op: Op, i: u64)
  {
    match c
    case PlaceColumn => TouchesPlace(s, op, i)
    case RangeColumn => TouchesRangeAt(s, op, i)
    case SubmittedColumn => TouchesSubmitted(s, op, i)
    case EarlyColumn => TouchesEarly(s, op, i)
    case FeesColumn => TouchesFees(s, op, i)
    case L1BlockColumn => TouchesL1Block(s, op, i)
    case NonceColumn => TouchesNonce(s, op, i)
    case ResponseColumn => TouchesResponse(s, op, i)
  }

  function Leaves(c: Column, s: System, op: Op, i: u64): Seen
  {
    match c
    case PlaceColumn => Placed(LeavesPlace(s, op, i))
    case RangeColumn => Ranged(LeavesRangeAt(s, op, i))
    case SubmittedColumn => Flagged(LeavesSubmitted(s, op, i))
    case EarlyColumn => Flagged(LeavesEarly(s, op, i))
    case FeesColumn => Charged(LeavesFees(s, op, i))
    case L1BlockColumn => Numbered(LeavesL1Block(s, op, i))
    case NonceColumn => Nonced(LeavesNonce(s, op, i))
    case ResponseColumn => Answered(LeavesResponse(s, op, i))
  }

  lemma ColumnObeys(c: Column, s: System, op: Op, i: u64)
    requires Inv(s) && Safe(s.mem, op)
    ensures See(c, Step(s, op), i) == if Touches(c, s, op, i) then Leaves(c, s, op, i) else See(c, s, i)
  {
    hide PendingMirror, DispatchedMirror, ResponsesMirror, BlobsMirror, Reload;
    if op.Restart? {
      ReloadIsMemory(s);
    } else {
      hide Step, PlaceOf, TouchesPlace, LeavesPlace, RangeAtOf, TouchesRangeAt, LeavesRangeAt, SubmittedOf,
           TouchesSubmitted, LeavesSubmitted, EarlyOf, TouchesEarly, LeavesEarly, FeesOf, TouchesFees, LeavesFees,
           L1BlockOf, TouchesL1Block, LeavesL1Block, NonceOf, TouchesNonce, LeavesNonce, ResponseOf, TouchesResponse,
           LeavesResponse;
      match c
      case PlaceColumn => MovesPlace(s, op, i);
      case RangeColumn => MovesRangeAt(s, op, i);
      case SubmittedColumn => MovesSubmitted(s, op, i);
      case EarlyColumn => MovesEarly(s, op, i);
      case FeesColumn => MovesFees(s, op, i);
      case L1BlockColumn => MovesL1Block(s, op, i);
      case NonceColumn => MovesNonce(s, op, i);
      case ResponseColumn => MovesResponse(s, op, i);
    }
  }

  /** Over every safe run, restarts included, and for every column: there is what the last operation to touch it left.
      A batch waits, is sent or is gone as its last move left it, with the range it was registered with; it is known
      to be submitted if the submission came while it waited or before it was registered; once sent it has the hash,
      fee, tip, L1 block and nonce of its dispatch, or those recorded since; and the response of a block is the one
      inserted last, until it is purged or its batch is finalized. */
  lemma ColumnExact(c: Column, s: System, ops: seq<Op>, i: u64)
    requires Inv(s) && SafeRun(s, ops)
    ensures Decided((x: System) => See(c, x, i), (x, op) => Touches(c, x, op, i), (x, op) => Leaves(c, x, op, i),
                    s, ops)
  {
    hide Step, Run, Inv, Safe, Touches, Leaves, See, Decided;
    var see, touches := (x: System) => See(c, x, i), (x, op) => Touches(c, x, op, i);
    var leaves := (x, op) => Leaves(c, x, op, i);
    forall k ensures ObeysAt(see, touches, leaves, s, ops, k) {
      if 0 <= k < |ops| {
        SafePrefix(s, ops, k);
        ColumnObeys(c, Run(s, ops[..k]), ops[k], i);
      }
    }
    RunDecides(see, touches, leaves, s, ops);
  }

  // ----- The rows -----

  predicate RowHolds(row: DispatchedRow, d: DispatchedBatch)
  {
    && row.fromBlock == d.fromBlock && row.toBlock == d.toBlock && row.txHash == d.txHash && row.l1Block == d.l1Block
    && (row.nonce.Some? <==> d.nonce.Some?) && (d.nonce.Some? ==> row.nonce.value == d.nonce.value)
    && row.maxFeePerGas == d.maxFeePerGas && row.maxPriorityFeePerGas == d.maxPriorityFeePerGas
  }

  predicate PendingRowHolds(row: PendingRow, b: PendingBatch)
  {
    row.fromBlock == b.fromBlock && row.toBlock == b.toBlock && row.blobsAccepted == if b.blobsAccepted then 1 else 0
  }

  /** Column by column, the tables hold what the memory holds. */
  lemma RowsHold(s: System, i: u64)
    requires Inv(s)
    ensures i in s.mem.dispatched ==>
      i in s.db.dispatchedBatches && RowHolds(s.db.dispatchedBatches[i], s.mem.dispatched[i])
    ensures i in s.mem.batches ==>
      i in s.db.pendingBatches && PendingRowHolds(s.db.pendingBatches[i], s.mem.batches[i])
    ensures Lookup(s.db.blockResponses, i as int) == Lookup(s.mem.responses, i)
    ensures i in s.db.pendingBlobs <==> i in s.mem.pendingBlobsAccepted
  {
  }
}
