/** The database handle and the batch accumulator as the objects they are. Every method is proved to
    be one step of the state machine of module `Lifecycle`. */
module Accumulator {
  import opened Bytes
  import opened L = Lifecycle
  import opened Writes

  class Db {
    var tables: Tables

    constructor ()
      ensures tables == Empty().db
    {
      tables := Empty().db;
    }

    /** A statement of its own: a failure is logged and changes nothing. */
    method ExecuteOne(s: Stmt)
      modifies this
      ensures tables == Durable(old(tables), Auto(s))
    {
      var r := Execute(tables, s);
      if r.Some? {
        tables := r.value;
      }
    }

    method SaveBatch(b: PendingBatch)
      modifies this
      ensures tables == L.SaveBatch(old(tables), b)
    {
      ExecuteOne(PutPending(b));
    }

    method UpdateBlobsAccepted(i: u64)
      modifies this
      ensures tables == L.UpdateBlobsAccepted(old(tables), i)
    {
      ExecuteOne(FlagPending(i));
    }

    method SavePendingBlobsAccepted(i: u64)
      modifies this
      ensures tables == SavePendingBlobs(old(tables), i)
    {
      ExecuteOne(PutEarly(i));
    }

    method DeletePendingBlobsAccepted(i: u64)
      modifies this
      ensures tables == DeletePendingBlobs(old(tables), i)
    {
      ExecuteOne(DeleteEarly(i));
    }

    method SaveResponse(r: Response)
      modifies this
      ensures tables == L.SaveResponse(old(tables), r)
    {
      ExecuteOne(PutResponse(r));
    }

    /** One transaction over all the rows; a row that cannot be deleted is skipped. */
    method DeleteResponsesBatch(blocks: seq<u64>)
      modifies this
      ensures tables == DeleteResponses(old(tables), Listed(blocks))
    {
      hide Execute;
      var tx := tables;
      for k := 0 to |blocks|
        invariant tx == DeleteResponses(old(tables), Listed(blocks[..k])) && tables == old(tables)
      {
        var r := Execute(tx, DeleteResponse(blocks[k]));
        OneDelete(tx, blocks[k]);
        DeleteTwice(tables, Listed(blocks[..k]), {blocks[k]});
        assert Listed(blocks[..k + 1]) == Listed(blocks[..k]) + {blocks[k]};
        if r.Some? {
          tx := r.value;
        }
      }
      assert blocks[..|blocks|] == blocks;
      tables := tx;
    }

    method SaveBatchSignature(i: u64, s: Signature)
      modifies this
      ensures tables == SaveSignature(old(tables), i, s)
    {
      ExecuteOne(PutSignature(i, s));
    }

    method DeleteBatchSignature(i: u64)
      modifies this
      ensures tables == DeleteSignature(old(tables), i)
    {
      ExecuteOne(DropSignatureRow(i));
    }

    /** Out of the pending table and into the dispatched table, or neither. */
    method MoveToDispatched(i: u64, lo: u64, hi: u64, tx: Bytes32, l1: u64, nonce: u64, fee: u128, tip: u128)
      modifies this
      ensures tables == L.MoveToDispatched(old(tables),
        DispatchedBatch(i, lo, hi, tx, l1, Some(nonce), Some(fee), Some(tip)))
    {
      var r := Execute(tables, DeletePending(i));
      if r.Some? {
        r := Execute(r.value, PutDispatched(i, lo, hi, tx, l1, nonce, fee, tip));
      }
      if r.Some? {
        tables := r.value;
      }
    }

    /** The same without nonce and fees. */
    method MoveToDispatchedExternal(i: u64, lo: u64, hi: u64, tx: Bytes32, l1: u64)
      modifies this
      ensures tables == L.MoveToDispatched(old(tables), DispatchedBatch(i, lo, hi, tx, l1, None, None, None))
    {
      var r := Execute(tables, DeletePending(i));
      if r.Some? {
        r := Execute(r.value, PutExternal(i, lo, hi, tx, l1));
      }
      if r.Some? {
        tables := r.value;
      }
    }

    method UpdateRbfState(i: u64, tx: Bytes32, fee: u128, tip: u128)
      modifies this
      ensures tables == UpdateRbf(old(tables), i, tx, fee, tip)
    {
      ExecuteOne(SetRbf(i, tx, fee, tip));
    }

    method UpdateDispatchedL1Block(i: u64, l1: u64)
      modifies this
      ensures tables == UpdateL1Block(old(tables), i, l1)
    {
      ExecuteOne(SetL1Block(i, l1));
    }

    /** The dispatched row, the responses of its range and its signature are all deleted, or none is. */
    method FinalizeDispatchedBatch(i: u64, lo: u64, hi: u64)
      modifies this
      ensures tables == FinalizeBatch(old(tables), i, lo, hi)
    {
      var r := Execute(tables, DeleteDispatched(i));
      if r.Some? {
        r := Execute(r.value, DeleteResponseRange(lo, hi));
      }
      if r.Some? {
        r := Execute(r.value, DropSignatureRow(i));
      }
      if r.Some? {
        tables := r.value;
      }
    }

    /** Out of the dispatched table and back into the pending table, or neither. */
    method UndispatchBatch(i: u64, lo: u64, hi: u64)
      modifies this
      ensures tables == L.UndispatchBatch(old(tables), i, lo, hi)
    {
      var r := Execute(tables, DeleteDispatched(i));
      if r.Some? {
        r := Execute(r.value, PutPending(PendingBatch(i, lo, hi, true)));
      }
      if r.Some? {
        tables := r.value;
      }
    }
  }

  function Without(rows: map<int, Signature>, gone: seq<u64>): map<int, Signature>
  {
    map i | i in rows && !(0 <= i < 0x8000_0000_0000_0000 && i in gone) :: rows[i]
  }

  lemma WithoutOne(rows: map<int, Signature>, gone: seq<u64>, k: nat)
    requires k < |gone|
    ensures Without(rows, gone[..k + 1])
         == if Storable(gone[k]) then Without(rows, gone[..k]) - {gone[k]} else Without(rows, gone[..k])
  {
    assert gone[..k + 1] == gone[..k] + [gone[k]];
  }

  /** Signatures of known batches are loaded; the indexes of the others are returned. */
  method SplitSignatures(rows: map<int, Signature>, batches: map<u64, PendingBatch>,
                         dispatched: map<u64, DispatchedBatch>)
    returns (signatures: map<u64, Signature>, stale: seq<u64>)
    ensures signatures == map i: u64 | i in rows && i in batches.Keys + dispatched.Keys :: rows[i]
    ensures forall i: u64 :: i in stale <==> i in rows && i !in batches && i !in dispatched
  {
    signatures, stale := map[], [];
    var rest := set i: u64 | i in rows;
    while rest != {}
      invariant forall i :: i in rest ==> i in rows
      invariant forall i: u64 :: i in signatures <==> i in rows && i !in rest && (i in batches || i in dispatched)
      invariant forall i: u64 :: i in signatures ==> signatures[i] == rows[i]
      invariant forall i: u64 :: i in stale <==> i in rows && i !in rest && i !in batches && i !in dispatched
      decreases |rest|
    {
      var i: u64 :| i in rest;
      rest := rest - {i};
      if i in batches || i in dispatched {
        signatures := signatures[i := rows[i]];
      } else {
        stale := stale + [i];
      }
    }
  }

  class BatchAccumulator {
    const db: Db
    var batches: map<u64, PendingBatch>
    var responses: map<u64, Response>
    var pendingBlobsAccepted: set<u64>
    var signatures: map<u64, Signature>
    var dispatched: map<u64, DispatchedBatch>

    ghost function Value(): System
      reads this, db
    {
      System(Memory(batches, responses, pendingBlobsAccepted, signatures, dispatched), db.tables)
    }

    /** `with_db`: loads all state; signatures without a batch are left out and their rows deleted. */
    constructor WithDb(database: Db)
      modifies database
      ensures db == database && Value() == Reload(old(database.tables))
    {
      db := database;
      responses := LoadResponses(database.tables);
      batches := LoadPending(database.tables);
      pendingBlobsAccepted := set i: u64 | i in database.tables.pendingBlobs;
      dispatched := LoadDispatched(database.tables);
      signatures := map[];
      new;
      hide LoadPending, LoadDispatched, LoadResponses;
      assert Known(database.tables) == batches.Keys + dispatched.Keys;
      var stale;
      signatures, stale := SplitSignatures(database.tables.batchSignatures, batches, dispatched);
      ghost var rows := database.tables.batchSignatures;
      for k := 0 to |stale|
        invariant database.tables == old(database.tables).(batchSignatures := Without(rows, stale[..k]))
        invariant Value().mem == Reload(old(database.tables)).mem
      {
        WithoutOne(rows, stale, k);
        database.DeleteBatchSignature(stale[k]);
      }
      assert stale[..|stale|] == stale;
      assert Without(rows, stale) == Reload(old(database.tables)).db.batchSignatures;
    }

    method SetBatch(i: u64, lo: u64, hi: u64)
      modifies this, db
      ensures Value() == Step(old(Value()), Op.SetBatch(i, lo, hi))
    {
      if i in dispatched || i in batches {
        return;
      }
      var accepted := i in pendingBlobsAccepted;
      pendingBlobsAccepted := pendingBlobsAccepted - {i};
      if accepted {
        db.DeletePendingBlobsAccepted(i);
      }
      var batch := PendingBatch(i, lo, hi, accepted);
      db.SaveBatch(batch);
      batches := batches[i := batch];
    }

    method InsertResponse(r: Response)
      modifies this, db
      ensures Value() == Step(old(Value()), Op.InsertResponse(r))
    {
      db.SaveResponse(r);
      responses := responses[r.blockNumber := r];
    }

    method MarkBatchSubmitted(i: u64)
      modifies this, db
      ensures Value() == Step(old(Value()), MarkSubmitted(i))
    {
      if i in batches {
        batches := batches[i := batches[i].(blobsAccepted := true)];
        db.UpdateBlobsAccepted(i);
      } else {
        pendingBlobsAccepted := pendingBlobsAccepted + {i};
        db.SavePendingBlobsAccepted(i);
      }
    }

    method PurgeResponses(blocks: seq<u64>)
      modifies this, db
      ensures Value() == Step(old(Value()), Purge(blocks))
    {
      for k := 0 to |blocks|
        invariant responses == old(responses) - Listed(blocks[..k])
        invariant Value() == old(Value()).(mem := old(Value()).mem.(responses := responses))
      {
        responses := responses - {blocks[k]};
        assert blocks[..k + 1] == blocks[..k] + [blocks[k]];
      }
      assert blocks[..|blocks|] == blocks;
      db.DeleteResponsesBatch(blocks);
    }

    method CacheSignature(i: u64, s: Signature)
      modifies this
      ensures Value() == Step(old(Value()), Op.CacheSignature(i, s))
    {
      signatures := signatures[i := s];
    }

    /** The signing task does this through its own handle on the database, before the signature is cached. */
    method StoreSignature(i: u64, s: Signature)
      modifies db
      ensures Value() == Step(old(Value()), Op.StoreSignature(i, s))
    {
      db.SaveBatchSignature(i, s);
    }

    method DeleteBatchSignature(i: u64)
      modifies this, db
      ensures Value() == Step(old(Value()), DropSignature(i))
    {
      signatures := signatures - {i};
      db.DeleteBatchSignature(i);
    }

    method MarkDispatched(i: u64, tx: Bytes32, l1: u64, nonce: u64, fee: u128, tip: u128)
      modifies this, db
      ensures Value() == Step(old(Value()), Op.MarkDispatched(i, tx, l1, nonce, fee, tip))
    {
      if i !in batches {
        return;
      }
      var batch := batches[i];
      batches := batches - {i};
      var d := DispatchedBatch(i, batch.fromBlock, batch.toBlock, tx, l1, Some(nonce), Some(fee), Some(tip));
      db.MoveToDispatched(i, batch.fromBlock, batch.toBlock, tx, l1, nonce, fee, tip);
      dispatched := dispatched[i := d];
    }

    method MarkDispatchedExternal(i: u64, tx: Bytes32, l1: u64)
      modifies this, db
      ensures Value() == Step(old(Value()), Op.MarkDispatchedExternal(i, tx, l1))
    {
      if i !in batches {
        return;
      }
      var batch := batches[i];
      batches := batches - {i};
      signatures := signatures - {i};
      var d := DispatchedBatch(i, batch.fromBlock, batch.toBlock, tx, l1, None, None, None);
      db.MoveToDispatchedExternal(i, batch.fromBlock, batch.toBlock, tx, l1);
      dispatched := dispatched[i := d];
    }

    method RecordRbfBump(i: u64, tx: Bytes32, fee: u128, tip: u128)
      modifies this, db
      ensures Value() == Step(old(Value()), Op.RecordRbfBump(i, tx, fee, tip))
    {
      if i in dispatched {
        dispatched := dispatched[i := dispatched[i].(
          txHash := tx, maxFeePerGas := Some(fee), maxPriorityFeePerGas := Some(tip))];
      }
      db.UpdateRbfState(i, tx, fee, tip);
    }

    method RecordDispatchedL1Block(i: u64, l1: u64)
      modifies this, db
      ensures Value() == Step(old(Value()), RecordL1Block(i, l1))
    {
      if i in dispatched {
        dispatched := dispatched[i := dispatched[i].(l1Block := l1)];
      }
      db.UpdateDispatchedL1Block(i, l1);
    }

    method FinalizeDispatched(i: u64) returns (r: Option<DispatchedBatch>)
      modifies this, db
      ensures Value() == Step(old(Value()), Finalize(i))
      ensures r == if i in old(dispatched) then Some(old(dispatched)[i]) else None
    {
      if i !in dispatched {
        return None;
      }
      var d := dispatched[i];
      dispatched := dispatched - {i};
      db.FinalizeDispatchedBatch(i, d.fromBlock, d.toBlock);
      RemoveRange(d.fromBlock, d.toBlock);
      signatures := signatures - {i};
      r := Some(d);
    }

    method RemoveRange(lo: u64, hi: u64)
      modifies this`responses
      ensures responses == old(responses) - set b | b in old(responses) && lo <= b <= hi
    {
      var b: int := lo;
      while b <= hi
        invariant lo <= b
        invariant responses == old(responses) - set x | x in old(responses) && lo <= x < b && x <= hi
      {
        responses := responses - {b};
        b := b + 1;
      }
    }

    method Undispatch(i: u64) returns (r: bool)
      modifies this, db
      ensures Value() == Step(old(Value()), Op.Undispatch(i))
      ensures r <==> i in old(dispatched) && old(dispatched)[i].nonce.Some?
    {
      if i !in dispatched || dispatched[i].nonce.None? {
        return false;
      }
      var d := dispatched[i];
      dispatched := dispatched - {i};
      db.UndispatchBatch(i, d.fromBlock, d.toBlock);
      batches := batches[i := PendingBatch(i, d.fromBlock, d.toBlock, true)];
      r := true;
    }

    /** The least index that is ready and not signed yet. */
    method FirstReadyUnsigned() returns (r: Option<u64>)
      ensures r.Some? ==>
        && r.value in batches && Ready(Value().mem, batches[r.value]) && r.value !in signatures
        && forall j :: j in batches && Ready(Value().mem, batches[j]) && j !in signatures ==> r.value <= j
      ensures r.None? ==> forall j :: j in batches ==> !Ready(Value().mem, batches[j]) || j in signatures
    {
      var rest := batches.Keys;
      while rest != {}
        invariant rest <= batches.Keys
        invariant forall j :: j in batches && j !in rest ==> !Ready(Value().mem, batches[j]) || j in signatures
        invariant forall j, k :: j in batches && j !in rest && k in rest ==> j <= k
        decreases |rest|
      {
        var i := Least(rest);
        if batches[i].blobsAccepted && i !in signatures {
          var all := AllResponded(batches[i].fromBlock, batches[i].toBlock);
          if all {
            return Some(i);
          }
        }
        rest := rest - {i};
      }
      r := None;
    }

    method AllResponded(lo: u64, hi: u64) returns (all: bool)
      ensures all <==> forall n: u64 :: lo <= n <= hi ==> n in responses
    {
      var n: int := lo;
      while n <= hi
        invariant lo <= n && (n <= hi ==> n < 0x1_0000_0000_0000_0000)
        invariant forall x: u64 :: lo <= x < n && x <= hi ==> x in responses
      {
        if n !in responses {
          return false;
        }
        n := n + 1;
      }
      all := true;
    }

    /** The signature of the lowest pending batch, and of no other. */
    method FirstSequentialSigned() returns (r: Option<(u64, seq<byte>)>)
      ensures NextSigned(Value().mem, r)
    {
      if batches.Keys == {} {
        return None;
      }
      var first := Least(batches.Keys);
      if first !in signatures {
        return None;
      }
      r := Some((first, signatures[first].signature));
    }
  }

  method Least(s: set<u64>) returns (m: u64)
    requires s != {}
    ensures m in s && forall x :: x in s ==> m <= x
  {
    m :| m in s;
    var rest := s - {m};
    while rest != {}
      invariant rest <= s && m in s
      invariant forall x :: x in s && x !in rest ==> m <= x
      decreases |rest|
    {
      var x :| x in rest;
      if x < m {
        m := x;
      }
      rest := rest - {x};
    }
  }
}
