/** The cold witness store: a table of compressed payloads, a byte counter and a write buffer.

    Compression is a parameter, and so is decompression; every transaction of the table succeeds. */
module WitnessHub {
  import opened Bytes

  type Bs = seq<byte>

  const U64_MAX := 0xffff_ffff_ffff_ffff

  datatype Entry = Entry(block: nat, bytes: Bs)
  datatype Hub = Hub(cold: map<nat, Bs>, total: nat, buffer: seq<Entry>)
  datatype Config = Config(retention: nat, batchSize: nat)

  function SatSub(a: nat, b: nat): nat { if a < b then 0 else a - b }
  function SatAdd(a: nat, b: nat): nat { if a + b > U64_MAX then U64_MAX else a + b }

  function Lookup(m: map<nat, Bs>, b: nat): Option<Bs>
  {
    if b in m then Some(m[b]) else None
  }

  // ----- Bytes stored -----

  /** The sum of the stored lengths. */
  ghost function Total(m: map<nat, Bs>): nat
    decreases |m|
  {
    if m == map[] then 0 else
      var k :| k in m;
      assert (m - {k}).Keys == m.Keys - {k};
      |m[k]| + Total(m - {k})
  }

  lemma {:induction false} TotalSplit(m: map<nat, Bs>, k: nat)
    requires k in m
    ensures Total(m) == |m[k]| + Total(m - {k})
    decreases |m|
  {
    var j :| j in m && Total(m) == |m[j]| + Total(m - {j});
    if j != k {
      assert (m - {j}).Keys == m.Keys - {j} && (m - {k}).Keys == m.Keys - {k};
      TotalSplit(m - {j}, k);
      TotalSplit(m - {k}, j);
      assert m - {j} - {k} == m - {k} - {j};
    }
  }

  lemma TotalInsert(m: map<nat, Bs>, k: nat, v: Bs)
    ensures Total(m[k := v]) == Total(m - {k}) + |v|
    ensures Total(m) == Total(m - {k}) + PriorLength(m, k)
  {
    TotalSplit(m[k := v], k);
    assert m[k := v] - {k} == m - {k};
    if k in m {
      TotalSplit(m, k);
    } else {
      assert m - {k} == m;
    }
  }

  function PriorLength(m: map<nat, Bs>, k: nat): nat
  {
    if k in m then |m[k]| else 0
  }

  /** The rows at or above a key. */
  function AtLeast(m: map<nat, Bs>, cut: nat): map<nat, Bs>
  {
    map k | k in m && k >= cut :: m[k]
  }

  /** The rows below a key. */
  function Below(m: map<nat, Bs>, cut: nat): map<nat, Bs>
  {
    map k | k in m && k < cut :: m[k]
  }

  /** The rows under some keys. */
  function Rows(m: map<nat, Bs>, ks: set<nat>): map<nat, Bs>
  {
    map k | k in m && k in ks :: m[k]
  }

  lemma PartsWithout(m: map<nat, Bs>, k: nat, cut: nat)
    requires k in m
    ensures k >= cut ==> k in AtLeast(m, cut) && AtLeast(m, cut)[k] == m[k]
    ensures k < cut ==> k in Below(m, cut) && Below(m, cut)[k] == m[k]
    ensures AtLeast(m - {k}, cut) == AtLeast(m, cut) - {k}
    ensures Below(m - {k}, cut) == Below(m, cut) - {k}
    ensures k < cut ==> AtLeast(m, cut) - {k} == AtLeast(m, cut)
    ensures k >= cut ==> Below(m, cut) - {k} == Below(m, cut)
    ensures |m - {k}| < |m|
  {
    assert (m - {k}).Keys == m.Keys - {k};
  }

  lemma {:induction false} TotalParts(m: map<nat, Bs>, cut: nat)
    ensures Total(m) == Total(AtLeast(m, cut)) + Total(Below(m, cut))
    decreases |m|
  {
    if m == map[] {
      assert AtLeast(m, cut) == map[] && Below(m, cut) == map[];
    } else {
      hide Total, AtLeast, Below;
      var k :| k in m;
      PartsWithout(m, k, cut);
      TotalSplit(m, k);
      TotalParts(m - {k}, cut);
      if k >= cut {
        TotalSplit(AtLeast(m, cut), k);
      } else {
        TotalSplit(Below(m, cut), k);
      }
    }
  }

  // ----- Writing a batch -----

  /** The last entry for a block. */
  function LastOf(es: seq<Entry>, b: nat): Option<Bs>
  {
    if es == [] then None
    else if es[|es| - 1].block == b then Some(es[|es| - 1].bytes)
    else LastOf(es[..|es| - 1], b)
  }

  function Highest(es: seq<Entry>): nat
  {
    if es == [] then 0 else
      var h, b := Highest(es[..|es| - 1]), es[|es| - 1].block;
      if b > h then b else h
  }

  datatype Table = Table(cold: map<nat, Bs>, total: nat)

  function InsertOne(t: Table, e: Entry): Table
  {
    Table(t.cold[e.block := e.bytes], SatAdd(SatSub(t.total, PriorLength(t.cold, e.block)), |e.bytes|))
  }

  function InsertAll(t: Table, es: seq<Entry>): Table
  {
    if es == [] then t else InsertOne(InsertAll(t, es[..|es| - 1]), es[|es| - 1])
  }

  /** Rows below this are pruned; 0 prunes nothing. */
  function Cutoff(c: Config, es: seq<Entry>): nat
  {
    if c.retention == 0 then 0 else SatSub(Highest(es), c.retention)
  }

  ghost function Commit(c: Config, t: Table, es: seq<Entry>): Table
  {
    if es == [] then t else
      var full, cut := InsertAll(t, es), Cutoff(c, es);
      Table(AtLeast(full.cold, cut), SatSub(full.total, Total(Below(full.cold, cut))))
  }

  lemma {:induction false} InsertAllLookup(t: Table, es: seq<Entry>, b: nat)
    ensures Lookup(InsertAll(t, es).cold, b)
         == if LastOf(es, b).Some? then LastOf(es, b) else Lookup(t.cold, b)
  {
    if es != [] { InsertAllLookup(t, es[..|es| - 1], b); }
  }

  /** Which row a commit leaves under each block. */
  lemma CommitLookup(c: Config, t: Table, es: seq<Entry>, b: nat)
    ensures Lookup(Commit(c, t, es).cold, b)
         == if b < Cutoff(c, es) then None
            else if LastOf(es, b).Some? then LastOf(es, b) else Lookup(t.cold, b)
  {
    InsertAllLookup(t, es, b);
  }

  // ----- The counter -----

  ghost predicate Counted(t: Table)
  {
    t.total == Total(t.cold)
  }

  /** Writing a row keeps the counter exact if and only if the stored bytes still fit the counter. */
  lemma InsertCounted(t: Table, e: Entry)
    requires Counted(t)
    ensures Counted(InsertOne(t, e)) <==> Total(t.cold[e.block := e.bytes]) <= U64_MAX
  {
    TotalInsert(t.cold, e.block, e.bytes);
  }

  /** No insertion of the batch overflows the counter. */
  ghost predicate Fits(t: Table, es: seq<Entry>)
  {
    es == [] || (Fits(t, es[..|es| - 1]) && Total(InsertAll(t, es).cold) <= U64_MAX)
  }

  lemma {:induction false} InsertAllCounted(t: Table, es: seq<Entry>)
    requires Counted(t) && Fits(t, es)
    ensures Counted(InsertAll(t, es))
  {
    if es != [] {
      InsertAllCounted(t, es[..|es| - 1]);
      InsertCounted(InsertAll(t, es[..|es| - 1]), es[|es| - 1]);
    }
  }

  lemma CommitCounted(c: Config, t: Table, es: seq<Entry>)
    requires Counted(t) && Fits(t, es)
    ensures Counted(Commit(c, t, es))
  {
    InsertAllCounted(t, es);
    TotalParts(InsertAll(t, es).cold, Cutoff(c, es));
  }

  // ----- The newest row -----

  ghost predicate IsNewest(m: map<nat, Bs>, k: nat)
  {
    k in m && forall j :: j in m ==> j <= k
  }

  lemma {:induction false} HighestIsIn(es: seq<Entry>)
    requires es != []
    ensures LastOf(es, Highest(es)).Some?
    ensures forall b: nat :: LastOf(es, b).Some? ==> b <= Highest(es)
  {
    var front := es[..|es| - 1];
    if front != [] { HighestIsIn(front); }
  }

  /** A commit never prunes the newest row: it leaves the newest of what was there and what it wrote. */
  lemma CommitKeepsNewest(c: Config, t: Table, es: seq<Entry>, was: nat) returns (now: nat)
    requires es != [] && (IsNewest(t.cold, was) || (t.cold == map[] && was == 0))
    ensures IsNewest(Commit(c, t, es).cold, now)
    ensures now == if was > Highest(es) then was else Highest(es)
  {
    HighestIsIn(es);
    now := if was > Highest(es) then was else Highest(es);
    var after := Commit(c, t, es).cold;
    CommitLookup(c, t, es, now);
    forall j | j in after ensures j <= now {
      CommitLookup(c, t, es, j);
    }
  }

  // ----- The store -----

  ghost function AfterFlush(c: Config, h: Hub): Hub
  {
    var t := Commit(c, Table(h.cold, h.total), h.buffer);
    Hub(t.cold, t.total, [])
  }

  ghost function AfterPush(c: Config, h: Hub, e: Entry): Hub
  {
    var t := Commit(c, Table(h.cold, h.total), [e]);
    Hub(t.cold, t.total, h.buffer)
  }

  ghost function AfterPushBatched(c: Config, h: Hub, e: Entry): Hub
  {
    var h' := h.(buffer := h.buffer + [e]);
    if |h'.buffer| >= c.batchSize then AfterFlush(c, h') else h'
  }

  /** Boot-time removal of the rows above a block. */
  ghost function AfterUnwind(h: Hub, target: nat): Hub
  {
    h.(cold := Below(h.cold, target + 1), total := SatSub(h.total, Total(AtLeast(h.cold, target + 1))))
  }

  /** The bytes kept for a block: the last buffered write wins over the table. */
  function Raw(h: Hub, b: nat): Option<Bs>
  {
    if LastOf(h.buffer, b).Some? then LastOf(h.buffer, b) else Lookup(h.cold, b)
  }

  function Witness(h: Hub, decode: Bs -> Option<Bs>, b: nat): Option<Bs>
  {
    match Raw(h, b)
    case None => None
    case Some(bytes) => decode(bytes)
  }

  /** A flush changes no answer at or above its cutoff, and leaves none below it. */
  lemma FlushWitness(c: Config, h: Hub, decode: Bs -> Option<Bs>, b: nat)
    ensures Witness(AfterFlush(c, h), decode, b)
         == if b < Cutoff(c, h.buffer) then None else Witness(h, decode, b)
  {
    CommitLookup(c, Table(h.cold, h.total), h.buffer, b);
  }

  /** This is the greatest block of the batch. */
  ghost predicate Greatest(es: seq<Entry>, top: nat)
  {
    (exists i :: 0 <= i < |es| && es[i].block == top) && forall i :: 0 <= i < |es| ==> es[i].block <= top
  }

  lemma {:induction false} HighestIsGreatest(es: seq<Entry>)
    requires es != []
    ensures Greatest(es, Highest(es))
  {
    var n := |es| - 1;
    var front := es[..n];
    assert forall i :: 0 <= i < n ==> front[i] == es[i];
    if n > 0 {
      HighestIsGreatest(front);
      var i :| 0 <= i < n && front[i].block == Highest(front);
      assert es[i].block == Highest(front);
    }
    assert es[n].block <= Highest(es);
  }

  /** With the greatest buffered block at hand: a flush leaves every answer as it was, except for the blocks more than
      the retention window below that block, which are answered no more. */
  lemma FlushKeepsWindow(c: Config, h: Hub, decode: Bs -> Option<Bs>, b: nat, top: nat)
    requires Greatest(h.buffer, top)
    ensures Witness(AfterFlush(c, h), decode, b)
         == if c.retention > 0 && b + c.retention < top then None else Witness(h, decode, b)
  {
    HighestIsGreatest(h.buffer);
    FlushWitness(c, h, decode, b);
  }

  /** A block that was just written is answered with its payload, unless that write itself flushed the
      buffer and some buffered block is more than the retention window above it; every other block is
      answered as before, up to the same pruning. */
  lemma PushBatchedWitness(c: Config, h: Hub, encode: Bs -> Bs, decode: Bs -> Option<Bs>, b: nat, payload: Bs, x: nat)
    requires decode(encode(payload)) == Some(payload)
    ensures var e := Entry(b, encode(payload));
            var flushes, cut := |h.buffer| + 1 >= c.batchSize, Cutoff(c, h.buffer + [e]);
            Witness(AfterPushBatched(c, h, e), decode, x) ==
            if flushes && x < cut then None else if x == b then Some(payload) else Witness(h, decode, x)
  {
    var e := Entry(b, encode(payload));
    var h' := h.(buffer := h.buffer + [e]);
    assert h'.buffer[..|h.buffer|] == h.buffer;
    FlushWitness(c, h', decode, x);
  }

  /** An immediate write is answered at once, unless an older write of the same block is still buffered,
      which keeps being answered. */
  lemma PushWitness(c: Config, h: Hub, encode: Bs -> Bs, decode: Bs -> Option<Bs>, b: nat, payload: Bs, x: nat)
    requires decode(encode(payload)) == Some(payload)
    ensures Witness(AfterPush(c, h, Entry(b, encode(payload))), decode, x)
         == if LastOf(h.buffer, x).Some? then Witness(h, decode, x)
            else if x == b then Some(payload)
            else if x < SatSub(b, c.retention) && c.retention > 0 then None
            else Witness(h, decode, x)
  {
    var e := Entry(b, encode(payload));
    assert [e][..0] == [];
    assert LastOf([e], x) == if x == b then Some(e.bytes) else None;
    assert Highest([e]) == b;
    CommitLookup(c, Table(h.cold, h.total), [e], x);
  }

  /** Unwinding removes exactly the rows above the target and keeps the counter exact. */
  lemma UnwindExact(h: Hub, target: nat, b: nat)
    requires Counted(Table(h.cold, h.total))
    ensures Lookup(AfterUnwind(h, target).cold, b) == if b > target then None else Lookup(h.cold, b)
    ensures Counted(Table(AfterUnwind(h, target).cold, AfterUnwind(h, target).total))
  {
    TotalParts(h.cold, target + 1);
  }

  // ----- While a flush is under way -----

  /** The buffer has been taken and its rows are not committed yet. */
  function Taken(h: Hub): Hub
  {
    h.(buffer := [])
  }

  /** In that window a block is answered from the table alone. It is without an answer, although it has one
      before, exactly when it was buffered and is not in the table; and its answer is an older one exactly
      when the table holds other bytes for it. Committing what was taken completes the flush. */
  lemma FlushWindow(c: Config, h: Hub, b: nat)
    ensures Raw(Taken(h), b).None? && Raw(h, b).Some? <==> LastOf(h.buffer, b).Some? && b !in h.cold
    ensures Raw(Taken(h), b) != Raw(h, b) <==> LastOf(h.buffer, b).Some? && LastOf(h.buffer, b) != Lookup(h.cold, b)
    ensures var t := Commit(c, Table(h.cold, h.total), h.buffer);
            AfterFlush(c, h) == Taken(h).(cold := t.cold, total := t.total)
  {
  }

  // ----- Every run -----

  /** `Restart` loses the buffer. The last three are the halves of a buffered write or a flush, between
      which anything else may happen: entries are appended, or the buffer is taken, and later what was taken
      lands in the table. */
  datatype Op =
    | PushOp(e: Entry)
    | BatchedOp(e: Entry)
    | FlushOp
    | UnwindOp(target: nat)
    | Restart
    | AppendOp(e: Entry)
    | TakeOp
    | LandOp(taken: seq<Entry>)

  ghost function Step(c: Config, h: Hub, op: Op): Hub
  {
    match op
    case PushOp(e) => AfterPush(c, h, e)
    case BatchedOp(e) => AfterPushBatched(c, h, e)
    case FlushOp => AfterFlush(c, h)
    case UnwindOp(target) => AfterUnwind(h, target)
    case Restart => h.(buffer := [])
    case AppendOp(e) => if |h.buffer| + 1 >= c.batchSize then Taken(h) else h.(buffer := h.buffer + [e])
    case TakeOp => Taken(h)
    case LandOp(taken) =>
      var t := Commit(c, Table(h.cold, h.total), taken);
      h.(cold := t.cold, total := t.total)
  }

  /** The rows this operation inserts. */
  function Written(c: Config, h: Hub, op: Op): seq<Entry>
  {
    match op
    case PushOp(e) => [e]
    case BatchedOp(e) => if |h.buffer| + 1 >= c.batchSize then h.buffer + [e] else []
    case FlushOp => h.buffer
    case LandOp(taken) => taken
    case _ => []
  }

  ghost function Run(c: Config, h: Hub, ops: seq<Op>): Hub
    decreases |ops|
  {
    if ops == [] then h else Run(c, Step(c, h, ops[0]), ops[1..])
  }

  ghost predicate FitsRun(c: Config, h: Hub, ops: seq<Op>)
    decreases |ops|
  {
    ops == []
    || (Fits(Table(h.cold, h.total), Written(c, h, ops[0])) && FitsRun(c, Step(c, h, ops[0]), ops[1..]))
  }

  ghost predicate Inv(c: Config, h: Hub)
  {
    Counted(Table(h.cold, h.total)) && |h.buffer| < c.batchSize
  }

  lemma StepKeepsInv(c: Config, h: Hub, op: Op)
    requires c.batchSize > 0 && Inv(c, h) && Fits(Table(h.cold, h.total), Written(c, h, op))
    ensures Inv(c, Step(c, h, op))
  {
    hide Commit, Fits;
    if op.UnwindOp? {
      UnwindExact(h, op.target, 0);
    } else {
      var es := Written(c, h, op);
      if es != [] { CommitCounted(c, Table(h.cold, h.total), es); }
      CommitNothing(c, Table(h.cold, h.total));
    }
  }

  lemma CommitNothing(c: Config, t: Table)
    ensures Commit(c, t, []) == t
  {
  }

  /** Over every run in which no write overflows the counter, it is the sum of the stored lengths. */
  lemma {:induction false} RunKeepsInv(c: Config, h: Hub, ops: seq<Op>)
    requires c.batchSize > 0 && Inv(c, h) && FitsRun(c, h, ops)
    ensures Inv(c, Run(c, h, ops))
    decreases |ops|
  {
    hide Inv, Step, Fits;
    if ops != [] {
      StepKeepsInv(c, h, ops[0]);
      RunKeepsInv(c, Step(c, h, ops[0]), ops[1..]);
    }
  }

  /** Only unwinding lowers the newest block. */
  lemma StepKeepsNewest(c: Config, h: Hub, op: Op, was: nat) returns (now: nat)
    requires IsNewest(h.cold, was) && !op.UnwindOp?
    ensures IsNewest(Step(c, h, op).cold, now) && now >= was
  {
    hide Commit, IsNewest;
    var es := Written(c, h, op);
    CommitNothing(c, Table(h.cold, h.total));
    if es == [] {
      now := was;
    } else {
      now := CommitKeepsNewest(c, Table(h.cold, h.total), es, was);
    }
  }

  lemma {:induction false} RunKeepsNewest(c: Config, h: Hub, ops: seq<Op>, was: nat) returns (now: nat)
    requires IsNewest(h.cold, was) && forall i :: 0 <= i < |ops| ==> !ops[i].UnwindOp?
    ensures IsNewest(Run(c, h, ops).cold, now) && now >= was
    decreases |ops|
  {
    hide IsNewest, Step;
    if ops == [] {
      now := was;
    } else {
      var next := StepKeepsNewest(c, h, ops[0], was);
      now := RunKeepsNewest(c, Step(c, h, ops[0]), ops[1..], next);
    }
  }

  // ----- Writes in flight -----

  function Flat(ess: seq<seq<Entry>>): seq<Entry>
  {
    if ess == [] then [] else ess[0] + Flat(ess[1..])
  }

  /** The batches without one occurrence of the given one. */
  function Without(ess: seq<seq<Entry>>, es: seq<Entry>): seq<seq<Entry>>
  {
    if ess == [] then [] else if ess[0] == es then ess[1..] else [ess[0]] + Without(ess[1..], es)
  }

  /** The batches that have been taken and have not landed, after an operation. */
  function InAir(c: Config, h: Hub, air: seq<seq<Entry>>, op: Op): seq<seq<Entry>>
  {
    match op
    case AppendOp(e) => if |h.buffer| + 1 >= c.batchSize then air + [h.buffer + [e]] else air
    case TakeOp => air + [h.buffer]
    case LandOp(taken) => Without(air, taken)
    case Restart => []
    case _ => air
  }

  ghost function AirRun(c: Config, h: Hub, air: seq<seq<Entry>>, ops: seq<Op>): seq<seq<Entry>>
    decreases |ops|
  {
    if ops == [] then air else AirRun(c, Step(c, h, ops[0]), InAir(c, h, air, ops[0]), ops[1..])
  }

  /** Only what was taken lands. */
  ghost predicate Legal(c: Config, h: Hub, air: seq<seq<Entry>>, ops: seq<Op>)
    decreases |ops|
  {
    ops == []
    || ((ops[0].LandOp? ==> ops[0].taken in air)
        && Legal(c, Step(c, h, ops[0]), InAir(c, h, air, ops[0]), ops[1..]))
  }

  function Asked(op: Op): seq<Entry>
  {
    if op.PushOp? || op.BatchedOp? || op.AppendOp? then [op.e] else []
  }

  /** The writes asked for, in the order of the calls. */
  function Issued(ops: seq<Op>): seq<Entry>
  {
    if ops == [] then [] else Asked(ops[0]) + Issued(ops[1..])
  }

  /** The writes that are buffered or in the air. */
  ghost function Pending(h: Hub, air: seq<seq<Entry>>): multiset<Entry>
  {
    multiset(h.buffer) + multiset(Flat(air))
  }

  /** The writes committed, in the order of the commits. */
  ghost function Log(c: Config, h: Hub, ops: seq<Op>): seq<Entry>
    decreases |ops|
  {
    if ops == [] then [] else Written(c, h, ops[0]) + Log(c, Step(c, h, ops[0]), ops[1..])
  }

  lemma {:induction false} FlatWithout(ess: seq<seq<Entry>>, es: seq<Entry>)
    requires es in ess
    ensures multiset(Flat(ess)) == multiset(Flat(Without(ess, es))) + multiset(es)
  {
    if ess[0] != es { FlatWithout(ess[1..], es); }
  }

  lemma {:induction false} FlatAppend(ess: seq<seq<Entry>>, es: seq<Entry>)
    ensures Flat(ess + [es]) == Flat(ess) + es
  {
    if ess == [] {
      assert ess + [es] == [es] && Flat([es][1..]) == [];
    } else {
      assert (ess + [es])[1..] == ess[1..] + [es];
      FlatAppend(ess[1..], es);
    }
  }

  lemma StepConserves(c: Config, h: Hub, air: seq<seq<Entry>>, op: Op)
    requires !op.Restart? && (op.LandOp? ==> op.taken in air)
    ensures Pending(h, air) + multiset(Asked(op))
         == multiset(Written(c, h, op)) + Pending(Step(c, h, op), InAir(c, h, air, op))
  {
    hide Commit, Flat, Without;
    var m, f := multiset(h.buffer), multiset(Flat(air));
    if op.AppendOp? || op.BatchedOp? {
      var more := h.buffer + [op.e];
      assert multiset(more) == m + multiset([op.e]);
      FlatAppend(air, more);
      assert multiset(Flat(air) + more) == f + multiset(more);
    } else if op.TakeOp? {
      FlatAppend(air, h.buffer);
      assert multiset(Flat(air) + h.buffer) == f + m;
    } else if op.LandOp? {
      FlatWithout(air, op.taken);
    }
  }

  lemma Balance(a: multiset<Entry>, x: seq<Entry>, w: seq<Entry>, b: multiset<Entry>, y: seq<Entry>, v: seq<Entry>,
                d: multiset<Entry>)
    requires a + multiset(x) == multiset(w) + b && b + multiset(y) == multiset(v) + d
    ensures a + multiset(x + y) == multiset(w + v) + d
  {
    assert multiset(x + y) == multiset(x) + multiset(y) && multiset(w + v) == multiset(w) + multiset(v);
    forall e ensures (a + multiset(x + y))[e] == (multiset(w + v) + d)[e] {
      assert (a + multiset(x))[e] == (multiset(w) + b)[e] && (b + multiset(y))[e] == (multiset(v) + d)[e];
    }
  }

  /** No write is lost or doubled. Over every run without a restart in which only what was taken lands, the writes
      that were pending or are asked for are those that are committed or still pending, each as often. */
  lemma {:induction false} RunConserves(c: Config, h: Hub, air: seq<seq<Entry>>, ops: seq<Op>)
    requires Legal(c, h, air, ops) && Restart !in ops
    ensures Pending(h, air) + multiset(Issued(ops))
         == multiset(Log(c, h, ops)) + Pending(Run(c, h, ops), AirRun(c, h, air, ops))
    decreases |ops|
  {
    hide Step, InAir, Written, Asked, Pending;
    if ops != [] {
      var h', air' := Step(c, h, ops[0]), InAir(c, h, air, ops[0]);
      StepConserves(c, h, air, ops[0]);
      RunConserves(c, h', air', ops[1..]);
      Balance(Pending(h, air), Asked(ops[0]), Written(c, h, ops[0]), Pending(h', air'), Issued(ops[1..]),
              Log(c, h', ops[1..]), Pending(Run(c, h, ops), AirRun(c, h, air, ops)));
    }
  }

  lemma {:induction false} LastOfConcat(a: seq<Entry>, es: seq<Entry>, b: nat)
    ensures LastOf(a + es, b) == if LastOf(es, b).Some? then LastOf(es, b) else LastOf(a, b)
  {
    if es == [] {
      assert a + es == a;
    } else {
      assert (a + es)[..|a + es| - 1] == a + es[..|es| - 1];
      LastOfConcat(a, es[..|es| - 1], b);
    }
  }

  function Latest(m: map<nat, Bs>, es: seq<Entry>, b: nat): Option<Bs>
  {
    if LastOf(es, b).Some? then LastOf(es, b) else Lookup(m, b)
  }

  predicate NoUnwind(ops: seq<Op>)
  {
    forall i :: 0 <= i < |ops| ==> !ops[i].UnwindOp?
  }

  lemma StepTable(c: Config, h: Hub, op: Op, b: nat)
    ensures var row := Lookup(Step(c, h, op).cold, b);
            && (row.Some? ==> row == Latest(h.cold, Written(c, h, op), b))
            && (c.retention == 0 && !op.UnwindOp? ==> row == Latest(h.cold, Written(c, h, op), b))
  {
    hide Commit;
    CommitNothing(c, Table(h.cold, h.total));
    CommitLookup(c, Table(h.cold, h.total), Written(c, h, op), b);
  }

  /** Over every run, whatever is taken and lands when: a stored row is the last committed write of its block, or
      the row there was; and without pruning and unwinding that row is stored. */
  lemma {:induction false} TableIsLog(c: Config, h: Hub, ops: seq<Op>, b: nat)
    ensures var row := Lookup(Run(c, h, ops).cold, b);
            && (row.Some? ==> row == Latest(h.cold, Log(c, h, ops), b))
            && (c.retention == 0 && NoUnwind(ops) ==> row == Latest(h.cold, Log(c, h, ops), b))
    decreases |ops|
  {
    if ops != [] {
      hide Step, Written, LastOf;
      var h' := Step(c, h, ops[0]);
      StepTable(c, h, ops[0], b);
      TableIsLog(c, h', ops[1..], b);
      LastOfConcat(Written(c, h, ops[0]), Log(c, h', ops[1..]), b);
    }
  }

  /** A flush of which nothing is pruned lands after anything else has happened. It leaves the last write of a
      block it carries if and only if no other bytes were committed for that block while it was under way; it puts
      back the older ones otherwise. */
  lemma LandingExact(c: Config, h: Hub, ops: seq<Op>, b: nat)
    requires LastOf(h.buffer, b).Some? && b >= Cutoff(c, h.buffer)
    ensures var between := Log(c, Taken(h), ops);
            var end := Step(c, Run(c, Taken(h), ops), LandOp(h.buffer));
            && Lookup(end.cold, b) == LastOf(h.buffer, b)
            && (Lookup(end.cold, b) == LastOf(h.buffer + between, b)
                <==> LastOf(between, b).None? || LastOf(between, b) == LastOf(h.buffer, b))
  {
    hide Commit, Log, Run;
    var before := Run(c, Taken(h), ops);
    CommitLookup(c, Table(before.cold, before.total), h.buffer, b);
    LastOfConcat(h.buffer, Log(c, Taken(h), ops), b);
  }

  /** And this happens, from any state with an empty buffer: a block is buffered, the buffer is taken, the block is
      written again at once, and then the flush lands. The older bytes stay, for any two different ones. */
  lemma StaleLanding(c: Config, h: Hub, b: nat, older: Bs, newer: Bs) returns (ops: seq<Op>)
    requires older != newer && c.batchSize > 1 && h.buffer == []
    ensures Legal(c, h, [], ops) && Issued(ops) == [Entry(b, older), Entry(b, newer)]
    ensures Run(c, h, ops).buffer == [] && AirRun(c, h, [], ops) == [] && Raw(Run(c, h, ops), b) == Some(older)
  {
    var x, y := Entry(b, older), Entry(b, newer);
    hide Step, InAir, Raw, Run, AirRun, Legal, Issued;
    var h1, h3, end := h.(buffer := [x]), Step(c, h, PushOp(y)), Step(c, Step(c, h, PushOp(y)), LandOp([x]));
    StaleAppend(c, h, x);
    StalePush(c, h, x, y);
    StaleLand(c, h3, x);
    var o3, o2, o1 := [LandOp([x])], [PushOp(y), LandOp([x])], [TakeOp, PushOp(y), LandOp([x])];
    ops := [AppendOp(x), TakeOp, PushOp(y), LandOp([x])];
    assert o3[1..] == [] && o2[1..] == o3 && o1[1..] == o2 && ops[1..] == o1;
    Ended(c, end);
    Unroll(c, h3, [[x]], o3);
    Unroll(c, h, [[x]], o2);
    Unroll(c, h1, [], o1);
    Unroll(c, h, [], ops);
  }

  lemma StaleAppend(c: Config, h: Hub, x: Entry)
    requires c.batchSize > 1 && h.buffer == []
    ensures Step(c, h, AppendOp(x)) == h.(buffer := [x]) && InAir(c, h, [], AppendOp(x)) == []
    ensures Step(c, h.(buffer := [x]), TakeOp) == h && InAir(c, h.(buffer := [x]), [], TakeOp) == [[x]]
  {
    hide Commit;
    assert h.buffer + [x] == [x];
  }

  lemma StalePush(c: Config, h: Hub, x: Entry, y: Entry)
    requires h.buffer == []
    ensures Step(c, h, PushOp(y)).buffer == [] && InAir(c, h, [[x]], PushOp(y)) == [[x]]
  {
    hide Commit;
  }

  lemma StaleLand(c: Config, h: Hub, x: Entry)
    requires h.buffer == []
    ensures Step(c, h, LandOp([x])).buffer == [] && InAir(c, h, [[x]], LandOp([x])) == []
    ensures Raw(Step(c, h, LandOp([x])), x.block) == Some(x.bytes)
  {
    hide Commit;
    assert LastOf([x], x.block) == Some(x.bytes) && Highest([x]) == x.block;
    CommitLookup(c, Table(h.cold, h.total), [x], x.block);
  }

  lemma Ended(c: Config, h: Hub)
    ensures Run(c, h, []) == h && AirRun(c, h, [], []) == [] && Legal(c, h, [], []) && Issued([]) == []
  {
  }

  lemma Unroll(c: Config, h: Hub, air: seq<seq<Entry>>, ops: seq<Op>)
    requires ops != []
    ensures var h', air', rest := Step(c, h, ops[0]), InAir(c, h, air, ops[0]), ops[1..];
            && Run(c, h, ops) == Run(c, h', rest) && AirRun(c, h, air, ops) == AirRun(c, h', air', rest)
            && Issued(ops) == Asked(ops[0]) + Issued(rest)
            && (Legal(c, h, air, ops) <==> (ops[0].LandOp? ==> ops[0].taken in air) && Legal(c, h', air', rest))
  {
  }

  // ----- The store as the source runs it -----

  class Store {
    const retention: nat
    const batchSize: nat
    var cold: map<nat, Bs>
    var totalBytes: nat
    var buffer: seq<Entry>

    ghost function State(): Hub
      reads this
    {
      Hub(cold, totalBytes, buffer)
    }

    ghost function Setup(): Config
    {
      Config(retention, batchSize)
    }

    /** A fresh database; a batch size below 1 is taken as 1. */
    constructor (retentionBlocks: nat, size: nat)
      ensures retention == retentionBlocks && batchSize == (if size < 1 then 1 else size)
      ensures State() == Hub(map[], 0, []) && Inv(Setup(), State())
    {
      retention, batchSize := retentionBlocks, if size < 1 then 1 else size;
      cold, totalBytes, buffer := map[], 0, [];
    }

    method InsertRows(entries: seq<Entry>) returns (highest: nat)
      modifies this`cold, this`totalBytes
      ensures Table(cold, totalBytes) == InsertAll(old(Table(cold, totalBytes)), entries)
      ensures highest == Highest(entries)
    {
      highest := 0;
      for i := 0 to |entries|
        invariant Table(cold, totalBytes) == InsertAll(old(Table(cold, totalBytes)), entries[..i])
        invariant highest == Highest(entries[..i])
      {
        assert entries[..i + 1][..i] == entries[..i];
        var e := entries[i];
        var prior := if e.block in cold then |cold[e.block]| else 0;
        cold := cold[e.block := e.bytes];
        totalBytes := SatAdd(SatSub(totalBytes, prior), |e.bytes|);
        if e.block > highest {
          highest := e.block;
        }
      }
      assert entries[..|entries|] == entries;
    }

    /** Remove the listed rows one by one. */
    method RemoveRows(stale: set<nat>) returns (count: nat, freed: nat)
      requires stale <= cold.Keys
      modifies this`cold, this`totalBytes
      ensures cold == old(cold) - stale && count == |stale|
      ensures totalBytes == SatSub(old(totalBytes), Total(Rows(old(cold), stale)))
      ensures freed == SatAdd(0, Total(Rows(old(cold), stale)))
    {
      count, freed := 0, 0;
      var todo := stale;
      ghost var gone: map<nat, Bs> := map[];
      while todo != {}
        invariant todo <= stale && cold == old(cold) - (stale - todo) && count == |stale| - |todo|
        invariant gone == Rows(old(cold), stale - todo)
        invariant totalBytes == SatSub(old(totalBytes), Total(gone)) && freed == SatAdd(0, Total(gone))
        decreases |todo|
      {
        var k :| k in todo;
        var size := |cold[k]|;
        TotalInsert(gone, k, cold[k]);
        gone := gone[k := cold[k]];
        cold := cold - {k};
        totalBytes := SatSub(totalBytes, size);
        freed := SatAdd(freed, size);
        count := count + 1;
        todo := todo - {k};
      }
      assert stale - todo == stale;
    }

    method CommitEntries(entries: seq<Entry>)
      modifies this`cold, this`totalBytes
      ensures Table(cold, totalBytes) == Commit(Setup(), old(Table(cold, totalBytes)), entries)
    {
      if entries == [] {
        return;
      }
      hide Highest, InsertAll;
      var highest := InsertRows(entries);
      ghost var full := Table(cold, totalBytes);
      ghost var cut := Cutoff(Setup(), entries);
      if retention > 0 && SatSub(highest, retention) > 0 {
        var cutoff := SatSub(highest, retention);
        var stale := set k | k in cold && k < cutoff;
        assert Rows(full.cold, stale) == Below(full.cold, cut);
        var _, _ := RemoveRows(stale);
        assert cold == AtLeast(full.cold, cut);
      } else {
        assert AtLeast(full.cold, 0) == full.cold && Below(full.cold, 0) == map[];
      }
    }

    method Push(block: nat, compressed: Bs)
      modifies this
      ensures State() == AfterPush(Setup(), old(State()), Entry(block, compressed))
    {
      CommitEntries([Entry(block, compressed)]);
    }

    method PushBatched(block: nat, compressed: Bs)
      modifies this
      ensures State() == AfterPushBatched(Setup(), old(State()), Entry(block, compressed))
    {
      hide Commit;
      buffer := buffer + [Entry(block, compressed)];
      if |buffer| >= batchSize {
        var entries := TakeBuffer();
        CommitEntries(entries);
      }
    }

    /** Under the lock; the commit follows after it is released. */
    method TakeBuffer() returns (entries: seq<Entry>)
      modifies this`buffer
      ensures entries == old(buffer) && State() == Taken(old(State()))
    {
      entries := buffer;
      buffer := [];
    }

    method FlushPending()
      modifies this
      ensures State() == AfterFlush(Setup(), old(State()))
    {
      if buffer == [] {
        return;
      }
      var entries := TakeBuffer();
      CommitEntries(entries);
    }

    /** Buffered entries are not considered. */
    method UnwindAbove(target: nat) returns (count: nat, freed: nat)
      modifies this`cold, this`totalBytes
      ensures State() == AfterUnwind(old(State()), target)
      ensures count == |AtLeast(old(cold), target + 1)|
      ensures freed == SatAdd(0, Total(AtLeast(old(cold), target + 1)))
    {
      var stale := set k | k in cold && k >= target + 1;
      assert Rows(cold, stale) == AtLeast(cold, target + 1) && AtLeast(cold, target + 1).Keys == stale;
      count, freed := RemoveRows(stale);
      assert cold == Below(old(cold), target + 1);
    }

    method LastCommittedBlock() returns (r: Option<nat>)
      ensures r.None? <==> cold == map[]
      ensures r.Some? ==> IsNewest(cold, r.value)
    {
      r := None;
      var todo := cold.Keys;
      while todo != {}
        invariant todo <= cold.Keys
        invariant r.None? ==> todo == cold.Keys
        invariant r.Some? ==> r.value in cold && forall j :: j in cold && j !in todo ==> j <= r.value
        decreases |todo|
      {
        var k :| k in todo;
        if r.None? || k > r.value {
          r := Some(k);
        }
        todo := todo - {k};
      }
    }

    method GetWitness(decode: Bs -> Option<Bs>, block: nat) returns (r: Option<Bs>)
      ensures r == Witness(State(), decode, block)
    {
      var i := |buffer|;
      assert buffer[..i] == buffer;
      while i > 0
        invariant i <= |buffer| && LastOf(buffer, block) == LastOf(buffer[..i], block)
      {
        i := i - 1;
        assert buffer[..i + 1][..i] == buffer[..i];
        if buffer[i].block == block {
          return decode(buffer[i].bytes);
        }
      }
      r := if block in cold then decode(cold[block]) else None;
    }
  }
}
