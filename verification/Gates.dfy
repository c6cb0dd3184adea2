/** The in-flight gates of the orchestrator as a state machine.

    The main loop spawns at most one gated task at a time. A task ends by sending its result, which waits
    for room, or by panicking, when its guard tries to send a fallback and gives up if the channel is full.
    Receiving a result opens the gate. Workers resumed at startup share the dispatch channel but take no
    gate. Shutdown, when the channel closes, is not a step here. */
module Gates {
  import opened Bytes

  /** `byIndex`: only a result that carries the gate's own batch index opens it. */
  datatype Setup = Setup(capacity: nat, resumed: multiset<nat>, byIndex: bool)

  const SIGNING := Setup(8, multiset{}, false)
  const FINALIZATION := Setup(1, multiset{}, false)

  function Dispatching(resumed: multiset<nat>): Setup
  {
    Setup(8, resumed, true)
  }

  /** Tasks and results are known by their batch index. */
  datatype State = State(gate: Option<nat>, running: multiset<nat>, queue: seq<nat>)

  datatype Step = Start(batch: nat) | Finish(batch: nat) | Panic(batch: nat) | Receive

  function Init(c: Setup): State
  {
    State(None, c.resumed, [])
  }

  predicate Enabled(c: Setup, s: State, step: Step)
  {
    match step
    case Start(_) => true
    case Finish(i) => i in s.running && |s.queue| < c.capacity
    case Panic(i) => i in s.running
    case Receive => s.queue != []
  }

  predicate Opens(c: Setup, s: State, i: nat)
  {
    !c.byIndex || s.gate == Some(i)
  }

  function Next(c: Setup, s: State, step: Step): State
    requires Enabled(c, s, step)
  {
    match step
    case Start(i) =>
      if s.gate.Some? then s else s.(gate := Some(i), running := s.running + multiset{i})
    case Finish(i) => s.(running := s.running - multiset{i}, queue := s.queue + [i])
    case Panic(i) =>
      s.(running := s.running - multiset{i}, queue := if |s.queue| < c.capacity then s.queue + [i] else s.queue)
    case Receive =>
      s.(gate := if Opens(c, s, s.queue[0]) then None else s.gate, queue := s.queue[1..])
  }

  /** A run; `None` when some step is not enabled where it stands. */
  function Steps(c: Setup, s: State, steps: seq<Step>): Option<State>
    decreases |steps|
  {
    if steps == [] then Some(s)
    else if !Enabled(c, s, steps[0]) then None
    else Steps(c, Next(c, s, steps[0]), steps[1..])
  }

  lemma {:induction false} StepsAppend(c: Setup, s: State, xs: seq<Step>, ys: seq<Step>)
    requires Steps(c, s, xs).Some?
    ensures Steps(c, s, xs + ys) == Steps(c, Steps(c, s, xs).value, ys)
    decreases |xs|
  {
    if xs == [] {
      assert xs + ys == ys;
    } else {
      StepsAppend(c, Next(c, s, xs[0]), xs[1..], ys);
      assert (xs + ys)[0] == xs[0] && (xs + ys)[1..] == xs[1..] + ys;
    }
  }

  // ----- A gate with a channel to itself -----

  /** The gate is shut exactly while one task runs or one result waits, and they carry its index. */
  predicate Exclusive(s: State)
  {
    match s.gate
    case None => s.running == multiset{} && s.queue == []
    case Some(i) => (s.running == multiset{i} && s.queue == []) || (s.running == multiset{} && s.queue == [i])
  }

  lemma {:induction false} StepsKeepExclusive(c: Setup, s: State, steps: seq<Step>)
    requires c.capacity > 0 && Exclusive(s) && Steps(c, s, steps).Some?
    ensures Exclusive(Steps(c, s, steps).value)
    decreases |steps|
  {
    if steps != [] {
      StepsKeepExclusive(c, Next(c, s, steps[0]), steps[1..]);
    }
  }

  /** Signing and finalization: in every interleaving the gate is shut exactly while one task runs or one
      result waits, and a guard that sends its fallback finds room. */
  lemma OneInFlight(c: Setup, steps: seq<Step>)
    requires c.capacity > 0 && c.resumed == multiset{} && Steps(c, Init(c), steps).Some?
    ensures var s := Steps(c, Init(c), steps).value;
            && (s.gate.Some? <==> |s.running| + |s.queue| == 1)
            && (s.gate.None? <==> |s.running| + |s.queue| == 0)
            && (forall i :: i in s.running || i in s.queue ==> s.gate == Some(i))
            && (s.running != multiset{} ==> |s.queue| < c.capacity)
  {
    StepsKeepExclusive(c, Init(c), steps);
  }

  // ----- A channel shared with resumed workers -----

  /** At most one task beyond the resumed ones is under way, and what the gate waits for is. */
  ghost predicate Inv(c: Setup, s: State)
  {
    && |s.running| + |s.queue| <= |c.resumed| + (if s.gate.Some? then 1 else 0)
    && (s.gate.Some? ==> s.gate.value in s.running || s.gate.value in s.queue)
  }

  lemma InvRoom(c: Setup, s: State, i: nat)
    requires |c.resumed| < c.capacity && Inv(c, s) && i in s.running
    ensures |s.queue| < c.capacity
  {
    assert |s.running| == |s.running - multiset{i}| + 1;
  }

  lemma StepKeepsInv(c: Setup, s: State, step: Step)
    requires c.byIndex && |c.resumed| < c.capacity && Inv(c, s) && Enabled(c, s, step)
    ensures Inv(c, Next(c, s, step))
  {
    if step.Finish? || step.Panic? {
      InvRoom(c, s, step.batch);
      assert s.running == (s.running - multiset{step.batch}) + multiset{step.batch};
    } else if step.Receive? {
      assert s.queue == [s.queue[0]] + s.queue[1..];
    }
  }

  lemma {:induction false} StepsKeepInv(c: Setup, s: State, steps: seq<Step>)
    requires c.byIndex && |c.resumed| < c.capacity && Inv(c, s) && Steps(c, s, steps).Some?
    ensures Inv(c, Steps(c, s, steps).value)
    decreases |steps|
  {
    hide Inv;
    if steps != [] {
      StepKeepsInv(c, s, steps[0]);
      StepsKeepInv(c, Next(c, s, steps[0]), steps[1..]);
    }
  }

  ghost predicate OpensAfter(c: Setup, s: State, steps: seq<Step>)
  {
    var r := Steps(c, s, steps);
    r.Some? && r.value.gate.None?
  }

  /** The gate is open, or can still open. */
  ghost predicate CanOpen(c: Setup, s: State)
  {
    exists steps :: OpensAfter(c, s, steps)
  }

  lemma {:induction false} CanOpenFirst(c: Setup, s: State, step: Step)
    requires Enabled(c, s, step) && CanOpen(c, Next(c, s, step))
    ensures CanOpen(c, s)
  {
    var steps :| OpensAfter(c, Next(c, s, step), steps);
    assert ([step] + steps)[1..] == steps;
    assert OpensAfter(c, s, [step] + steps);
  }

  /** Receiving what is queued, then letting the awaited task finish, opens the gate. */
  lemma {:induction false} InvCanOpen(c: Setup, s: State)
    requires c.capacity > 0
    requires s.gate.Some? ==> s.gate.value in s.running || s.gate.value in s.queue
    ensures CanOpen(c, s)
    decreases |s.queue|, |s.running|
  {
    if s.gate.None? {
      assert OpensAfter(c, s, []);
    } else if s.queue != [] {
      InvCanOpen(c, Next(c, s, Receive));
      CanOpenFirst(c, s, Receive);
    } else {
      var i := s.gate.value;
      var t := Next(c, s, Finish(i));
      assert OpensAfter(c, Next(c, t, Receive), []);
      CanOpenFirst(c, t, Receive);
      CanOpenFirst(c, s, Finish(i));
    }
  }

  /** Every run from the start leaves the gate open or able to open. */
  ghost predicate NeverLatches(c: Setup)
  {
    forall steps :: Steps(c, Init(c), steps).Some? ==> CanOpen(c, Steps(c, Init(c), steps).value)
  }

  // ----- A latched gate -----

  /** Nothing under way carries the gate's index. */
  predicate Latched(s: State)
  {
    s.gate.Some? && s.gate.value !in s.running && s.gate.value !in s.queue
  }

  lemma {:induction false} LatchedForever(c: Setup, s: State, steps: seq<Step>)
    requires c.byIndex && Latched(s) && Steps(c, s, steps).Some?
    ensures Steps(c, s, steps).value.gate == s.gate
    decreases |steps|
  {
    if steps != [] {
      LatchedForever(c, Next(c, s, steps[0]), steps[1..]);
    }
  }

  /** Some of the resumed workers finish and their results stay queued. */
  lemma {:induction false} Fill(c: Setup, n: nat) returns (steps: seq<Step>)
    requires n <= |c.resumed| && n <= c.capacity
    ensures Steps(c, Init(c), steps).Some?
    ensures var s := Steps(c, Init(c), steps).value;
            s.gate.None? && |s.queue| == n && s.running + multiset(s.queue) == c.resumed
  {
    if n == 0 {
      steps := [];
    } else {
      var before := Fill(c, n - 1);
      var s := Steps(c, Init(c), before).value;
      assert |s.running| == |c.resumed| - (n - 1);
      var i :| i in s.running;
      steps := before + [Finish(i)];
      StepsAppend(c, Init(c), before, [Finish(i)]);
    }
  }

  lemma {:induction false} Unused(m: multiset<nat>) returns (i: nat)
    ensures forall k :: k in m ==> k < i
    decreases |m|
  {
    if m == multiset{} {
      i := 0;
    } else {
      var k :| k in m;
      var j := Unused(m - multiset{k});
      assert m == (m - multiset{k}) + multiset{k};
      i := if j <= k then k + 1 else j;
    }
  }

  /** With as many resumed workers as the channel has room for, their results can fill it, and then the
      fallback of a dispatch task that panics is lost. */
  lemma CanLatch(c: Setup) returns (steps: seq<Step>)
    requires c.byIndex && 0 < c.capacity <= |c.resumed|
    ensures Steps(c, Init(c), steps).Some? && Latched(Steps(c, Init(c), steps).value)
  {
    var before := Fill(c, c.capacity);
    var s := Steps(c, Init(c), before).value;
    var i := Unused(c.resumed);
    assert i !in c.resumed;
    var tail := [Start(i), Panic(i)];
    StepsAppend(c, Init(c), before, tail);
    steps := before + tail;
    var t := Next(c, s, Start(i));
    var u := Next(c, t, Panic(i));
    assert u == s.(gate := Some(i)) by { assert s.running + multiset{i} - multiset{i} == s.running; }
    assert Steps(c, s, tail) == Steps(c, t, [Panic(i)]) by { assert tail[1..] == [Panic(i)]; }
    assert Steps(c, t, [Panic(i)]) == Steps(c, u, []);
    assert i !in s.running + multiset(s.queue);
  }

  lemma SigningNeverLatches()
    ensures NeverLatches(SIGNING) && NeverLatches(FINALIZATION)
  {
    forall c, steps | c in {SIGNING, FINALIZATION} && Steps(c, Init(c), steps).Some?
      ensures CanOpen(c, Steps(c, Init(c), steps).value)
    {
      StepsKeepExclusive(c, Init(c), steps);
      InvCanOpen(c, Steps(c, Init(c), steps).value);
    }
  }

  /** The dispatch gate never latches, in any interleaving, exactly when fewer workers are resumed at
      startup than its channel can hold. */
  lemma LatchExact(c: Setup)
    requires c.byIndex && c.capacity > 0
    ensures NeverLatches(c) <==> |c.resumed| < c.capacity
  {
    if |c.resumed| < c.capacity {
      forall steps | Steps(c, Init(c), steps).Some?
        ensures CanOpen(c, Steps(c, Init(c), steps).value)
      {
        StepsKeepInv(c, Init(c), steps);
        InvCanOpen(c, Steps(c, Init(c), steps).value);
      }
    } else {
      var steps := CanLatch(c);
      var s := Steps(c, Init(c), steps).value;
      if CanOpen(c, s) {
        var more :| OpensAfter(c, s, more);
        LatchedForever(c, s, more);
        assert false;
      }
      assert !NeverLatches(c);
    }
  }

  lemma DispatchLatchExact(resumed: multiset<nat>)
    ensures NeverLatches(Dispatching(resumed)) <==> |resumed| < 8
  {
    LatchExact(Dispatching(resumed));
  }
}
