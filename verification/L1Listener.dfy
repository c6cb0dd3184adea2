/** The paged L1 listener: which blocks have been delivered when a checkpoint is sent.

    The RPC node and the receiver are parameters: for each poll the chain height (or a failure to get it),
    the answer to each log query in turn, and whether the channel is still open. Block numbers are
    unbounded here. */
module L1Listener {
  import opened Bytes

  const MIN_PAGE := 100
  const MAX_PAGE := 10_000
  const INITIAL_PAGE := 2_000
  const MAX_POLL_BACKOFF_SECS := 120

  /** What one page query comes to; `cancelled` tells whether shutdown was requested by then. */
  datatype Answer = Fine | TooMany(cancelled: bool) | Failed

  datatype World = World(height: Option<nat>, answers: nat -> Answer, open: bool)

  /** What goes out on the channel: the events of a page that was processed to its end, or a checkpoint. */
  datatype Sent = Page(from: nat, to: nat) | Checkpoint(block: nat)

  datatype Outcome = Complete(block: nat) | Partial(block: nat)
  datatype Poll = Poll(outcome: Outcome, log: seq<Sent>, page: nat)

  function Min(a: nat, b: nat): nat { if a < b then a else b }
  function Max(a: nat, b: nat): nat { if a < b then b else a }
  function SatSub(a: nat, b: nat): nat { if a < b then 0 else a - b }

  predicate PageBounds(page: nat)
  {
    MIN_PAGE <= page <= MAX_PAGE
  }

  /** The paging loop from `current` on, with `q` queries asked before. */
  function Pages(current: nat, lastOk: nat, latest: nat, page: nat, answers: nat -> Answer, q: nat): Poll
    requires PageBounds(page)
    decreases SatSub(latest + 1, current), page
  {
    if current > latest then Poll(Complete(latest), [], page) else
      var end := Min(current + page - 1, latest);
      match answers(q)
      case Fine =>
        var r := Pages(end + 1, end, latest, Min(page + 100, MAX_PAGE), answers, q + 1);
        r.(log := [Page(current, end)] + r.log)
      case TooMany(cancelled) =>
        if cancelled then Poll(Partial(lastOk), [], page)
        else if page == MIN_PAGE then Poll(Partial(lastOk), [], MIN_PAGE)
        else Pages(current, lastOk, latest, Max(page / 2, MIN_PAGE), answers, q + 1)
      case Failed => Poll(Partial(lastOk), [], page)
  }

  /** `poll_once`; `None` when the chain height cannot be read. */
  function PollFrom(from: nat, page: nat, safeBlocks: nat, w: World): Option<Poll>
    requires PageBounds(page)
  {
    if w.height.None? then None else
      var latest := SatSub(w.height.value, safeBlocks);
      if from > latest then Some(Poll(Complete(SatSub(from, 1)), [], page))
      else Some(Pages(from, SatSub(from, 1), latest, page, w.answers, 0))
  }

  /** `next` is the block the next poll starts from; `log` is all that was sent. */
  datatype State = State(next: nat, page: nat, backoff: nat, log: seq<Sent>, stopped: bool)

  function Init(start: nat, interval: nat): State
  {
    State(start, INITIAL_PAGE, interval, [], false)
  }

  /** One turn of the listener. */
  function Turn(s: State, interval: nat, safeBlocks: nat, w: World): State
    requires PageBounds(s.page)
  {
    if s.stopped then s else
      match PollFrom(s.next, s.page, safeBlocks, w)
      case None => s.(backoff := Min(s.backoff * 2, MAX_POLL_BACKOFF_SECS))
      case Some(p) =>
        if !w.open then s.(page := p.page, log := s.log + p.log, stopped := true)
        else
          State(p.outcome.block + 1, p.page,
                if p.outcome.Complete? then interval else Min(s.backoff * 2, MAX_POLL_BACKOFF_SECS),
                s.log + p.log + [Checkpoint(p.outcome.block)], false)
  }

  function Turns(s: State, interval: nat, safeBlocks: nat, ws: seq<World>): State
    requires PageBounds(s.page)
    decreases |ws|
  {
    TurnKeepsBounds(s, interval, safeBlocks, if ws == [] then World(None, _ => Failed, true) else ws[0]);
    if ws == [] then s else Turns(Turn(s, interval, safeBlocks, ws[0]), interval, safeBlocks, ws[1..])
  }

  lemma {:induction false} PagesKeepBounds(current: nat, lastOk: nat, latest: nat, page: nat,
                                           answers: nat -> Answer, q: nat)
    requires PageBounds(page)
    ensures PageBounds(Pages(current, lastOk, latest, page, answers, q).page)
    decreases SatSub(latest + 1, current), page
  {
    if current <= latest {
      match answers(q)
      case Fine =>
        var end := Min(current + page - 1, latest);
        PagesKeepBounds(end + 1, end, latest, Min(page + 100, MAX_PAGE), answers, q + 1);
      case TooMany(cancelled) =>
        if !cancelled && page != MIN_PAGE {
          PagesKeepBounds(current, lastOk, latest, Max(page / 2, MIN_PAGE), answers, q + 1);
        }
      case Failed =>
    }
  }

  lemma TurnKeepsBounds(s: State, interval: nat, safeBlocks: nat, w: World)
    requires PageBounds(s.page)
    ensures PageBounds(Turn(s, interval, safeBlocks, w).page)
  {
    hide Pages;
    if w.height.Some? {
      var latest := SatSub(w.height.value, safeBlocks);
      PagesKeepBounds(s.next, SatSub(s.next, 1), latest, s.page, w.answers, 0);
    }
  }

  // ----- Delivery -----

  /** The block expected next when pages follow one another without gap or overlap from `start` and every
      checkpoint names the block before the next one; `None` for any other log. */
  function Delivered(start: nat, log: seq<Sent>): Option<nat>
    decreases |log|
  {
    if log == [] then Some(start) else
      match Delivered(start, log[..|log| - 1])
      case None => None
      case Some(next) =>
        match log[|log| - 1]
        case Page(from, to) => if from == next && from <= to then Some(to + 1) else None
        case Checkpoint(block) => if block + 1 == next then Some(next) else None
  }

  lemma NothingDelivered(start: nat)
    ensures Delivered(start, []) == Some(start)
  {
  }

  lemma PageDelivered(from: nat, to: nat)
    requires from <= to
    ensures Delivered(from, [Page(from, to)]) == Some(to + 1)
  {
    assert [Page(from, to)][..0] == [];
  }

  lemma {:induction false} DeliveredAppend(start: nat, log: seq<Sent>, more: seq<Sent>)
    requires Delivered(start, log).Some?
    ensures Delivered(start, log + more) == Delivered(Delivered(start, log).value, more)
    decreases |more|
  {
    if more == [] {
      assert log + more == log;
    } else {
      var n := |more| - 1;
      DeliveredAppend(start, log, more[..n]);
      assert (log + more)[..|log| + n] == log + more[..n];
    }
  }

  /** A poll delivers pages in order from its first block; its outcome names the last block delivered, the
      one before the first if none was, and the whole range when it is complete. */
  lemma {:induction false} PagesDeliver(current: nat, latest: nat, page: nat, answers: nat -> Answer, q: nat)
    requires PageBounds(page) && 0 < current <= latest + 1
    ensures var r := Pages(current, current - 1, latest, page, answers, q);
            && Delivered(current, r.log) == Some(r.outcome.block + 1)
            && (r.outcome.Complete? ==> r.outcome.block == latest)
            && current - 1 <= r.outcome.block <= latest
            && (forall k :: 0 <= k < |r.log| ==> r.log[k].Page?)
    decreases latest + 1 - current, page
  {
    hide Delivered;
    NothingDelivered(current);
    if current <= latest {
      match answers(q)
      case Fine =>
        var end := Min(current + page - 1, latest);
        PagesDeliver(end + 1, latest, Min(page + 100, MAX_PAGE), answers, q + 1);
        var r := Pages(end + 1, end, latest, Min(page + 100, MAX_PAGE), answers, q + 1);
        PageDelivered(current, end);
        DeliveredAppend(current, [Page(current, end)], r.log);
      case TooMany(cancelled) =>
        if !cancelled && page != MIN_PAGE {
          PagesDeliver(current, latest, Max(page / 2, MIN_PAGE), answers, q + 1);
        }
      case Failed =>
    }
  }

  /** A poll whose every query is answered reaches the chain height. */
  lemma {:induction false} PagesComplete(current: nat, lastOk: nat, latest: nat, page: nat,
                                         answers: nat -> Answer, q: nat)
    requires PageBounds(page) && forall k :: answers(k) == Fine
    ensures Pages(current, lastOk, latest, page, answers, q).outcome == Complete(latest)
    decreases SatSub(latest + 1, current)
  {
    if current <= latest {
      var end := Min(current + page - 1, latest);
      PagesComplete(end + 1, end, latest, Min(page + 100, MAX_PAGE), answers, q + 1);
    }
  }

  /** What every run keeps. */
  ghost predicate Inv(start: nat, s: State)
  {
    && s.next >= 1 && PageBounds(s.page)
    && Delivered(start, s.log).Some?
    && (!s.stopped ==> Delivered(start, s.log) == Some(s.next))
  }

  lemma TurnKeepsInv(start: nat, s: State, interval: nat, safeBlocks: nat, w: World)
    requires Inv(start, s)
    ensures Inv(start, Turn(s, interval, safeBlocks, w))
  {
    hide Pages, Delivered;
    TurnKeepsBounds(s, interval, safeBlocks, w);
    if !s.stopped && w.height.Some? {
      var latest := SatSub(w.height.value, safeBlocks);
      var p := PollFrom(s.next, s.page, safeBlocks, w).value;
      if s.next <= latest {
        PagesDeliver(s.next, latest, s.page, w.answers, 0);
      } else {
        NothingDelivered(s.next);
      }
      DeliveredAppend(start, s.log, p.log);
      CheckpointDelivered(start, s.log + p.log, p.outcome.block);
    }
  }

  lemma CheckpointDelivered(start: nat, log: seq<Sent>, block: nat)
    requires Delivered(start, log) == Some(block + 1)
    ensures Delivered(start, log + [Checkpoint(block)]) == Some(block + 1)
  {
    assert (log + [Checkpoint(block)])[..|log|] == log;
  }

  lemma {:induction false} TurnsKeepInv(start: nat, s: State, interval: nat, safeBlocks: nat, ws: seq<World>)
    requires Inv(start, s)
    ensures Inv(start, Turns(s, interval, safeBlocks, ws))
    decreases |ws|
  {
    if ws != [] {
      hide Inv, Turn;
      assert PageBounds(s.page) by { InvBounds(start, s); }
      TurnKeepsInv(start, s, interval, safeBlocks, ws[0]);
      TurnsKeepInv(start, Turn(s, interval, safeBlocks, ws[0]), interval, safeBlocks, ws[1..]);
    }
  }

  lemma InvBounds(start: nat, s: State)
    requires Inv(start, s)
    ensures PageBounds(s.page)
  {
  }

  ghost predicate Covers(log: seq<Sent>, k: nat, block: nat)
  {
    k < |log| && log[k].Page? && log[k].from <= block <= log[k].to
  }

  /** In a delivered log each block up to the next one lies in exactly one page, and no other block lies in
      any. */
  lemma {:induction false} CoveredOnce(start: nat, log: seq<Sent>, block: nat)
    requires Delivered(start, log).Some?
    ensures Delivered(start, log).value >= start
    ensures start <= block < Delivered(start, log).value ==> exists k :: Covers(log, k, block)
    ensures forall j, k :: Covers(log, j, block) && Covers(log, k, block) ==>
      j == k && start <= block < Delivered(start, log).value
    decreases |log|
  {
    if log != [] {
      var before := log[..|log| - 1];
      CoveredOnce(start, before, block);
      if start <= block < Delivered(start, before).value {
        var k :| Covers(before, k, block);
        assert Covers(log, k, block);
      } else if block < Delivered(start, log).value && start <= block {
        assert Covers(log, |log| - 1, block);
      }
      forall j: nat, k: nat | Covers(log, j, block) && Covers(log, k, block)
        ensures j == k && start <= block < Delivered(start, log).value
      {
        assert j < |log| - 1 ==> Covers(before, j, block);
        assert k < |log| - 1 ==> Covers(before, k, block);
      }
    }
  }

  lemma {:induction false} DeliveredPrefix(start: nat, log: seq<Sent>, k: nat)
    requires Delivered(start, log).Some? && k <= |log|
    ensures Delivered(start, log[..k]).Some?
    decreases |log|
  {
    if k == |log| {
      assert log[..k] == log;
    } else {
      var before := log[..|log| - 1];
      DeliveredPrefix(start, before, k);
      assert before[..k] == log[..k];
    }
  }

  /** Every checkpoint is sent only after each block from the start to it was delivered. */
  ghost predicate Sound(start: nat, log: seq<Sent>)
  {
    forall k, block :: 0 <= k < |log| && log[k].Checkpoint? && start <= block <= log[k].block
      ==> Reached(log[..k], block)
  }

  ghost predicate Reached(log: seq<Sent>, block: nat)
  {
    exists j :: Covers(log, j, block)
  }

  lemma DeliveredSound(start: nat, log: seq<Sent>)
    requires Delivered(start, log).Some?
    ensures Sound(start, log)
  {
    forall k, block | 0 <= k < |log| && log[k].Checkpoint? && start <= block <= log[k].block
      ensures Reached(log[..k], block)
    {
      DeliveredPrefix(start, log, k + 1);
      assert log[..k + 1][..k] == log[..k];
      CoveredOnce(start, log[..k], block);
    }
  }

  /** Every run from a start block of at least 1. */
  lemma RunDelivers(start: nat, interval: nat, safeBlocks: nat, ws: seq<World>)
    requires start >= 1
    ensures var s := Turns(Init(start, interval), interval, safeBlocks, ws);
            && PageBounds(s.page) && Sound(start, s.log)
            && Delivered(start, s.log).Some?
            && (!s.stopped ==> Delivered(start, s.log) == Some(s.next))
  {
    TurnsKeepInv(start, Init(start, interval), interval, safeBlocks, ws);
    DeliveredSound(start, Turns(Init(start, interval), interval, safeBlocks, ws).log);
  }

  /** Every checkpoint of every run is sound, whatever the node answers, exactly when the start block is at
      least 1: from block 0 a first query that fails still sends a checkpoint for block 0. */
  lemma SoundExact(start: nat, interval: nat, safeBlocks: nat)
    ensures (forall ws :: Sound(start, Turns(Init(start, interval), interval, safeBlocks, ws).log)) <==> start >= 1
  {
    if start >= 1 {
      forall ws ensures Sound(start, Turns(Init(start, interval), interval, safeBlocks, ws).log) {
        RunDelivers(start, interval, safeBlocks, ws);
      }
    } else {
      var ws := FromZero(interval, safeBlocks);
      CheckpointFirst();
    }
  }

  lemma FromZero(interval: nat, safeBlocks: nat) returns (ws: seq<World>)
    ensures Turns(Init(0, interval), interval, safeBlocks, ws).log == [Checkpoint(0)]
  {
    var w := World(Some(safeBlocks), _ => Failed, true);
    var s := Init(0, interval);
    assert Pages(0, 0, 0, INITIAL_PAGE, w.answers, 0) == Poll(Partial(0), [], INITIAL_PAGE);
    hide Pages;
    var t := Turn(s, interval, safeBlocks, w);
    assert t.log == [] + [] + [Checkpoint(0)];
    ws := [w];
    assert ws[1..] == [];
    assert Turns(t, interval, safeBlocks, []) == t;
  }

  lemma CheckpointFirst()
    ensures !Sound(0, [Checkpoint(0)])
  {
    var log := [Checkpoint(0)];
    assert !Reached(log[..0], 0);
    assert log[0].Checkpoint? && 0 <= 0 <= log[0].block;
  }

  // ----- How far, how much and how often -----

  lemma {:induction false} PagesBelow(current: nat, lastOk: nat, latest: nat, page: nat, answers: nat -> Answer, q: nat)
    requires PageBounds(page) && lastOk <= latest
    ensures var r := Pages(current, lastOk, latest, page, answers, q);
            r.outcome.block <= latest && forall k :: 0 <= k < |r.log| ==> r.log[k].Page? && r.log[k].to <= latest
    decreases SatSub(latest + 1, current), page
  {
    if current <= latest {
      match answers(q)
      case Fine =>
        var end := Min(current + page - 1, latest);
        PagesBelow(end + 1, end, latest, Min(page + 100, MAX_PAGE), answers, q + 1);
      case TooMany(cancelled) =>
        if !cancelled && page != MIN_PAGE {
          PagesBelow(current, lastOk, latest, Max(page / 2, MIN_PAGE), answers, q + 1);
        }
      case Failed =>
    }
  }

  predicate Below(sent: Sent, height: nat, safeBlocks: nat, next: nat)
  {
    match sent
    case Page(_, to) => to + safeBlocks <= height
    case Checkpoint(block) => block + safeBlocks <= height || block == next - 1
  }

  /** No page that a turn sends reaches above the chain height less the safety margin, and neither does its
      checkpoint, unless it repeats the block before the one the turn started from. */
  lemma TurnBelow(s: State, interval: nat, safeBlocks: nat, w: World, k: nat)
    requires PageBounds(s.page) && s.next >= 1
    ensures var log := Turn(s, interval, safeBlocks, w).log;
            && |s.log| <= |log| && log[..|s.log|] == s.log
            && (|s.log| <= k < |log| ==> w.height.Some? && Below(log[k], w.height.value, safeBlocks, s.next))
  {
    hide Pages;
    if !s.stopped && w.height.Some? {
      var latest := SatSub(w.height.value, safeBlocks);
      if s.next <= latest {
        PagesBelow(s.next, SatSub(s.next, 1), latest, s.page, w.answers, 0);
      }
    }
  }

  /** A turn in which every query is answered ends with a checkpoint for the chain height less the margin. */
  lemma TurnReaches(s: State, interval: nat, safeBlocks: nat, w: World)
    requires PageBounds(s.page) && !s.stopped && w.open && w.height.Some? && s.next + safeBlocks <= w.height.value
    requires forall k :: w.answers(k) == Fine
    ensures var t := Turn(s, interval, safeBlocks, w);
            && t.log != [] && t.log[|t.log| - 1] == Checkpoint(w.height.value - safeBlocks)
            && t.next == w.height.value - safeBlocks + 1
  {
    hide Pages;
    PagesComplete(s.next, SatSub(s.next, 1), SatSub(w.height.value, safeBlocks), s.page, w.answers, 0);
  }

  /** Each page that is answered makes the next ones longer by 100 blocks, up to 10000. */
  lemma {:induction false} PagesGrow(current: nat, lastOk: nat, latest: nat, page: nat, answers: nat -> Answer, q: nat)
    requires PageBounds(page) && forall k :: answers(k) == Fine
    ensures var r := Pages(current, lastOk, latest, page, answers, q);
            r.page == if page + 100 * |r.log| < 10000 then page + 100 * |r.log| else 10000
    decreases SatSub(latest + 1, current)
  {
    if current <= latest {
      var end := Min(current + page - 1, latest);
      PagesGrow(end + 1, end, latest, Min(page + 100, MAX_PAGE), answers, q + 1);
    }
  }

  /** How long a page is after this many answers that were too long: half as long each time, but at least 100. */
  function Halved(page: nat, n: nat): nat
  {
    if n == 0 then page else Max(Halved(page, n - 1) / 2, 100)
  }

  lemma {:induction false} HalvedTwice(page: nat, n: nat)
    ensures Halved(Max(page / 2, 100), n) == Halved(page, n + 1)
  {
    if n > 0 { HalvedTwice(page, n - 1); }
  }

  /** Answers that are too long make the page shorter, until one is answered. */
  lemma {:induction false} PagesShrink(current: nat, lastOk: nat, latest: nat, page: nat, answers: nat -> Answer,
                                       q: nat, n: nat)
    requires PageBounds(page) && current <= latest && answers(q + n) == Fine
    requires forall k :: q <= k < q + n ==> answers(k) == TooMany(false)
    requires n > 0 ==> Halved(page, n - 1) != 100
    ensures var r := Pages(current, lastOk, latest, page, answers, q);
            var size := Halved(page, n);
            r.log != [] && r.log[0] == Page(current, Min(current + size - 1, latest))
    decreases n
  {
    if n > 0 {
      StillLong(page, n - 1);
      if n > 1 { HalvedTwice(page, n - 2); }
      HalvedTwice(page, n - 1);
      PagesShrink(current, lastOk, latest, Max(page / 2, MIN_PAGE), answers, q + 1, n - 1);
    }
  }

  lemma {:induction false} StillLong(page: nat, n: nat)
    requires Halved(page, n) != 100 && page >= 100
    ensures page != 100
  {
    if n > 0 {
      if Halved(page, n - 1) == 100 {
      } else {
        StillLong(page, n - 1);
      }
    }
  }

  /** The wait after this many polls that failed: twice as long each time, but at most two minutes. */
  function Waited(interval: nat, n: nat): nat
  {
    if n == 0 then interval else Min(2 * Waited(interval, n - 1), 120)
  }

  lemma {:induction false} WaitedTwice(interval: nat, n: nat)
    ensures Waited(Min(2 * interval, 120), n) == Waited(interval, n + 1)
  {
    if n > 0 { WaitedTwice(interval, n - 1); }
  }

  lemma {:induction false} BackoffDoubles(s: State, interval: nat, safeBlocks: nat, ws: seq<World>)
    requires PageBounds(s.page) && !s.stopped && forall i :: 0 <= i < |ws| ==> ws[i].height.None?
    ensures Turns(s, interval, safeBlocks, ws) == s.(backoff := Waited(s.backoff, |ws|))
    decreases |ws|
  {
    if ws != [] {
      WaitedTwice(s.backoff, |ws| - 1);
      BackoffDoubles(Turn(s, interval, safeBlocks, ws[0]), interval, safeBlocks, ws[1..]);
    }
  }

  lemma {:induction false} PartialIsShort(current: nat, lastOk: nat, latest: nat, page: nat, answers: nat -> Answer,
                                          q: nat)
    requires PageBounds(page) && lastOk + 1 == current
    ensures var r := Pages(current, lastOk, latest, page, answers, q);
            r.outcome.Partial? ==> r.outcome.block < latest
    decreases SatSub(latest + 1, current), page
  {
    if current <= latest {
      match answers(q)
      case Fine =>
        var end := Min(current + page - 1, latest);
        PartialIsShort(end + 1, end, latest, Min(page + 100, MAX_PAGE), answers, q + 1);
      case TooMany(cancelled) =>
        if !cancelled && page != MIN_PAGE {
          PartialIsShort(current, lastOk, latest, Max(page / 2, MIN_PAGE), answers, q + 1);
        }
      case Failed =>
    }
  }

  /** The turn learned the height and got as far as it may. */
  predicate Caught(t: State, safeBlocks: nat, w: World)
  {
    w.height.Some? && t.next > SatSub(w.height.value, safeBlocks)
  }

  /** A turn that gets as far as it may is followed by the usual wait, any other by twice the wait before, up to two
      minutes. */
  lemma TurnWaits(s: State, interval: nat, safeBlocks: nat, w: World)
    requires PageBounds(s.page) && s.next >= 1 && !s.stopped && w.open
    ensures var t := Turn(s, interval, safeBlocks, w);
            !t.stopped && t.next >= 1
            && t.backoff == if Caught(t, safeBlocks, w) then interval else Min(2 * s.backoff, 120)
  {
    hide Pages;
    if w.height.Some? {
      var latest := SatSub(w.height.value, safeBlocks);
      if s.next <= latest {
        PartialIsShort(s.next, s.next - 1, latest, s.page, w.answers, 0);
        PagesDeliver(s.next, latest, s.page, w.answers, 0);
      }
    }
  }

  /** No turn of the run gets as far as it may. */
  predicate NoneCaught(s: State, interval: nat, safeBlocks: nat, ws: seq<World>)
    requires PageBounds(s.page)
    decreases |ws|
  {
    if ws == [] then true else
      TurnKeepsBounds(s, interval, safeBlocks, ws[0]);
      var t := Turn(s, interval, safeBlocks, ws[0]);
      ws[0].open && !Caught(t, safeBlocks, ws[0]) && NoneCaught(t, interval, safeBlocks, ws[1..])
  }

  /** Over any number of turns that fall short, some pages delivered or none, the wait doubles each time. */
  lemma {:induction false} WaitDoubles(s: State, interval: nat, safeBlocks: nat, ws: seq<World>)
    requires PageBounds(s.page) && s.next >= 1 && !s.stopped && NoneCaught(s, interval, safeBlocks, ws)
    ensures Turns(s, interval, safeBlocks, ws).backoff == Waited(s.backoff, |ws|)
    decreases |ws|
  {
    hide Turn;
    if ws != [] {
      TurnWaits(s, interval, safeBlocks, ws[0]);
      TurnKeepsBounds(s, interval, safeBlocks, ws[0]);
      WaitedTwice(s.backoff, |ws| - 1);
      WaitDoubles(Turn(s, interval, safeBlocks, ws[0]), interval, safeBlocks, ws[1..]);
    }
  }

  // ----- The loops -----

  method PollOnce(from: nat, safeBlocks: nat, start: nat, w: World) returns (r: Option<(Outcome, seq<Sent>)>, page: nat)
    requires PageBounds(start)
    ensures PollFrom(from, start, safeBlocks, w)
         == if r.None? then None else Some(Poll(r.value.0, r.value.1, page))
    ensures r.None? ==> page == start
  {
    page := start;
    if w.height.None? {
      return None, page;
    }
    var latest := SatSub(w.height.value, safeBlocks);
    if from > latest {
      return Some((Complete(SatSub(from, 1)), [])), page;
    }
    var current: nat, lastOk: nat, log, q: nat := from, SatSub(from, 1), [], 0;
    ghost var whole := Pages(from, lastOk, latest, page, w.answers, 0);
    AfterNone(whole);
    while current <= latest
      invariant PageBounds(page)
      invariant whole == After(log, Pages(current, lastOk, latest, page, w.answers, q))
      decreases SatSub(latest + 1, current), page
    {
      var pageEnd := Min(current + page - 1, latest);
      AfterAll(log, Poll(Partial(lastOk), [], page));
      match w.answers(q) {
        case Fine =>
          ghost var more := Pages(pageEnd + 1, pageEnd, latest, Min(page + 100, MAX_PAGE), w.answers, q + 1);
          AfterPage(log, Page(current, pageEnd), more);
          log := log + [Page(current, pageEnd)];
          lastOk := pageEnd;
          current := pageEnd + 1;
          page := Min(page + 100, MAX_PAGE);
        case TooMany(cancelled) =>
          if cancelled {
            return Some((Partial(lastOk), log)), page;
          }
          var prev := page;
          page := Max(page / 2, MIN_PAGE);
          if prev == MIN_PAGE {
            return Some((Partial(lastOk), log)), page;
          }
        case Failed =>
          return Some((Partial(lastOk), log)), page;
      }
      q := q + 1;
    }
    AfterAll(log, Poll(Complete(latest), [], page));
    r := Some((Complete(latest), log));
  }

  ghost function After(log: seq<Sent>, p: Poll): Poll
  {
    p.(log := log + p.log)
  }

  lemma AfterNone(p: Poll)
    ensures After([], p) == p
  {
    assert [] + p.log == p.log;
  }

  lemma AfterAll(log: seq<Sent>, p: Poll)
    requires p.log == []
    ensures After(log, p) == p.(log := log)
  {
    assert log + [] == log;
  }

  lemma AfterPage(log: seq<Sent>, one: Sent, p: Poll)
    ensures After(log, p.(log := [one] + p.log)) == After(log + [one], p)
  {
    assert log + ([one] + p.log) == (log + [one]) + p.log;
  }

  /** The listener's loop, for as many turns as there are worlds. */
  method Run(start: nat, interval: nat, safeBlocks: nat, ws: seq<World>)
    returns (log: seq<Sent>, from: nat, page: nat, backoff: nat)
    ensures var s := Turns(Init(start, interval), interval, safeBlocks, ws);
            log == s.log && from == s.next && page == s.page && backoff == s.backoff
  {
    hide Pages, PollFrom;
    log, from, page, backoff := [], start, INITIAL_PAGE, interval;
    ghost var whole := Turns(Init(start, interval), interval, safeBlocks, ws);
    var i := 0;
    while i < |ws|
      invariant i <= |ws| && PageBounds(page)
      invariant whole == Turns(State(from, page, backoff, log, false), interval, safeBlocks, ws[i..])
    {
      ghost var before := State(from, page, backoff, log, false);
      TurnKeepsBounds(before, interval, safeBlocks, ws[i]);
      assert ws[i..][1..] == ws[i + 1..];
      var r, size := PollOnce(from, safeBlocks, page, ws[i]);
      page := size;
      if r.None? {
        backoff := Min(backoff * 2, MAX_POLL_BACKOFF_SECS);
      } else {
        var (outcome, sent) := r.value;
        log := log + sent;
        if !ws[i].open {
          StoppedStays(before.(page := page, log := log, stopped := true), interval, safeBlocks, ws[i + 1..]);
          return;
        }
        log := log + [Checkpoint(outcome.block)];
        from := outcome.block + 1;
        backoff := if outcome.Complete? then interval else Min(backoff * 2, MAX_POLL_BACKOFF_SECS);
      }
      i := i + 1;
    }
  }

  lemma {:induction false} StoppedStays(s: State, interval: nat, safeBlocks: nat, ws: seq<World>)
    requires PageBounds(s.page) && s.stopped
    ensures Turns(s, interval, safeBlocks, ws) == s
    decreases |ws|
  {
    if ws != [] { StoppedStays(s, interval, safeBlocks, ws[1..]); }
  }
}
