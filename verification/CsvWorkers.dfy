/** The workers behind the bounded channel: each takes batches one at a time, counts and
    sends them, while response readers count the answers. Steps interleave freely. */
module CsvWorkers {
  import opened Basics
  import opened Tickets

  datatype Phase =
    | Opening
    | Receiving
    | Taken      // a batch received, not counted as sent yet
    | Counted    // counted as sent, not handed to the stream yet
    | NotOpened  // could not open its stream
    | SendFailed // left the loop with a batch the stream did not take
    | Finished   // found the channel closed and empty

  datatype Channel = Channel(
    queued: nat,           // batches put into the channel so far, numbered from 0
    takers: seq<nat>,      // which worker took each batch, in channel order
    phases: seq<Phase>,
    hand: seq<nat>,        // the batch each worker took last
    closed: bool,
    aborted: bool,         // the program is returning early
    cancelled: set<nat>,   // workers the runtime dropped on the way out
    inFlight: nat,         // handed to a stream, not answered
    sent: nat, ack: nat, err: nat,
    handed: set<nat>,      // history: batches handed to a stream
    streamErrors: nat)     // history: errors reported by response streams

  function Start(workers: nat): Channel {
    Channel(0, [], seq(workers, _ => Opening), seq(workers, _ => 0), false, false, {},
            0, 0, 0, 0, {}, 0)
  }

  function Waiting(p: Channel): int {
    p.queued - |p.takers|
  }

  // ---- Steps of the reading loop ----

  predicate Push(depth: nat, p: Channel, q: Channel) {
    !p.closed && Waiting(p) < depth && q == p.(queued := p.queued + 1)
  }

  predicate Close(p: Channel, q: Channel) {
    !p.closed && q == p.(closed := true)
  }

  /** A read error returns from the program at once, without draining anything. */
  predicate Abort(p: Channel, q: Channel) {
    !p.closed && q == p.(closed := true, aborted := true)
  }

  // ---- Steps of worker `w` ----

  predicate At(p: Channel, w: nat, phase: Phase) {
    w < |p.phases| == |p.hand| && w !in p.cancelled && p.phases[w] == phase
  }

  predicate Opens(p: Channel, q: Channel, w: nat) {
    At(p, w, Opening) && q == p.(phases := p.phases[w := Receiving])
  }

  predicate OpenFails(p: Channel, q: Channel, w: nat) {
    At(p, w, Opening) && q == p.(phases := p.phases[w := NotOpened])
  }

  predicate Receive(p: Channel, q: Channel, w: nat) {
    && At(p, w, Receiving) && Waiting(p) > 0
    && q == p.(takers := p.takers + [w], phases := p.phases[w := Taken],
               hand := p.hand[w := |p.takers|])
  }

  predicate ChannelDone(p: Channel, q: Channel, w: nat) {
    && At(p, w, Receiving) && p.closed && Waiting(p) == 0
    && q == p.(phases := p.phases[w := Finished])
  }

  predicate CountSent(p: Channel, q: Channel, w: nat) {
    At(p, w, Taken) && q == p.(sent := p.sent + 1, phases := p.phases[w := Counted])
  }

  predicate SendOk(p: Channel, q: Channel, w: nat) {
    && At(p, w, Counted)
    && q == p.(inFlight := p.inFlight + 1, phases := p.phases[w := Receiving],
               handed := p.handed + {p.hand[w]})
  }

  predicate SendFails(p: Channel, q: Channel, w: nat) {
    At(p, w, Counted) && q == p.(err := p.err + 1, phases := p.phases[w := SendFailed])
  }

  /** After an abort the runtime may drop a worker at any point. */
  predicate Cancel(p: Channel, q: Channel, w: nat) {
    p.aborted && q == p.(cancelled := p.cancelled + {w})
  }

  // ---- Steps of the response readers ----

  predicate Respond(p: Channel, q: Channel) {
    p.inFlight > 0 && q == p.(inFlight := p.inFlight - 1, ack := p.ack + 1)
  }

  /** Some worker opened its stream. */
  predicate SomeOpened(p: Channel) {
    exists w | 0 <= w < |p.phases| :: !p.phases[w].Opening? && !p.phases[w].NotOpened?
  }

  /** A reader exists once its worker has opened the stream. */
  predicate StreamError(p: Channel, q: Channel) {
    SomeOpened(p) && q == p.(err := p.err + 1, streamErrors := p.streamErrors + 1)
  }

  ghost predicate WorkerStep(p: Channel, q: Channel, w: nat) {
    || Opens(p, q, w) || OpenFails(p, q, w) || Receive(p, q, w) || ChannelDone(p, q, w)
    || CountSent(p, q, w) || SendOk(p, q, w) || SendFails(p, q, w)
  }

  ghost predicate SharedStep(depth: nat, p: Channel, q: Channel) {
    || Push(depth, p, q) || Close(p, q) || Abort(p, q) || Respond(p, q) || StreamError(p, q)
    || (exists w: nat :: Cancel(p, q, w))
  }

  ghost predicate Next(depth: nat, p: Channel, q: Channel) {
    SharedStep(depth, p, q) || (exists w: nat :: WorkerStep(p, q, w))
  }

  // ---- The invariant ----

  function Number(phases: seq<Phase>, phase: Phase): nat {
    if phases == [] then 0
    else Number(phases[..|phases| - 1], phase)
         + (if phases[|phases| - 1] == phase then 1 else 0)
  }

  /** The worker has the batch it took last in its hand, or lost it. */
  predicate Holds(phase: Phase) {
    phase.Taken? || phase.Counted? || phase.SendFailed?
  }

  /** Worker `w` has `batch` in its hand, or left the loop with it. */
  predicate HeldBy(p: Channel, w: nat, batch: nat) {
    w < |p.phases| == |p.hand| && Holds(p.phases[w]) && p.hand[w] == batch
  }

  predicate Counters(depth: nat, p: Channel) {
    && 0 <= Waiting(p) <= depth
    && |p.takers| == p.sent + Number(p.phases, Taken)
    && p.sent + p.streamErrors == p.ack + p.err + p.inFlight + Number(p.phases, Counted)
    && p.err == p.streamErrors + Number(p.phases, SendFailed)
    && |p.handed| == p.ack + p.inFlight
  }

  /** Every batch taken is in its taker's hand or was handed to a stream. */
  predicate Batches(p: Channel) {
    && |p.hand| == |p.phases|
    && (forall b | 0 <= b < |p.takers| :: p.takers[b] < |p.phases|)
    && (forall b | b in p.handed :: b < |p.takers|)
    && (forall b | 0 <= b < |p.takers| :: b in p.handed <==> !HeldBy(p, p.takers[b], b))
    && (forall w | 0 <= w < |p.phases| && Holds(p.phases[w]) ::
          p.hand[w] < |p.takers| && p.takers[p.hand[w]] == w)
  }

  /** Who never opened took nothing; who finished found everything taken. */
  predicate Exits(p: Channel) {
    && (forall b | 0 <= b < |p.takers| :: p.takers[b] < |p.phases|
          && !p.phases[p.takers[b]].Opening? && !p.phases[p.takers[b]].NotOpened?)
    && (forall w | 0 <= w < |p.phases| && p.phases[w].Finished? :: p.closed && Waiting(p) == 0)
  }

  predicate Inv(depth: nat, p: Channel) {
    Counters(depth, p) && Batches(p) && Exits(p)
  }

  lemma {:induction false} NumberUpdate(phases: seq<Phase>, w: nat, phase: Phase, counted: Phase)
    requires w < |phases|
    ensures Number(phases[w := phase], counted) ==
      Number(phases, counted) - (if phases[w] == counted then 1 else 0)
      + (if phase == counted then 1 else 0)
  {
    var n := |phases| - 1;
    if w < n {
      NumberUpdate(phases[..n], w, phase, counted);
      assert phases[w := phase][..n] == phases[..n][w := phase];
    } else {
      assert phases[w := phase][..n] == phases[..n];
    }
  }

  lemma {:induction false} NoneAtStart(workers: nat, phase: Phase)
    requires phase != Opening
    ensures Number(seq(workers, _ => Opening), phase) == 0
  {
    if workers > 0 {
      NoneAtStart(workers - 1, phase);
      assert seq(workers, _ => Opening)[..workers - 1] == seq(workers - 1, _ => Opening);
    }
  }

  lemma StartInv(depth: nat, workers: nat)
    ensures Inv(depth, Start(workers))
  {
    NoneAtStart(workers, Taken);
    NoneAtStart(workers, Counted);
    NoneAtStart(workers, SendFailed);
  }

  lemma HandNotHanded(p: Channel, w: nat)
    requires Batches(p) && w < |p.phases| && Holds(p.phases[w])
    ensures p.hand[w] < |p.takers| && p.hand[w] !in p.handed
  {
    assert HeldBy(p, p.takers[p.hand[w]], p.hand[w]);
  }

  /** How the three counted phases change when worker `w` moves on. */
  lemma NumbersMove(p: Channel, q: Channel, w: nat)
    requires w < |p.phases| == |q.phases| && q.phases == p.phases[w := q.phases[w]]
    ensures forall phase ::
      Number(q.phases, phase) == Number(p.phases, phase)
        - (if p.phases[w] == phase then 1 else 0) + (if q.phases[w] == phase then 1 else 0)
  {
    forall phase ensures Number(q.phases, phase) == Number(p.phases, phase)
        - (if p.phases[w] == phase then 1 else 0) + (if q.phases[w] == phase then 1 else 0) {
      NumberUpdate(p.phases, w, q.phases[w], phase);
    }
  }

  lemma ReceiverKeepsCounters(depth: nat, p: Channel, q: Channel, w: nat)
    requires Counters(depth, p)
    requires Opens(p, q, w) || OpenFails(p, q, w) || Receive(p, q, w) || ChannelDone(p, q, w)
    ensures Counters(depth, q)
  {
    hide Number;
    NumbersMove(p, q, w);
  }

  lemma SenderKeepsCounters(depth: nat, p: Channel, q: Channel, w: nat)
    requires Counters(depth, p)
    requires CountSent(p, q, w) || SendFails(p, q, w) ||
      (SendOk(p, q, w) && p.hand[w] !in p.handed)
    ensures Counters(depth, q)
  {
    hide Number;
    NumbersMove(p, q, w);
  }

  lemma WorkerStepKeepsCounters(depth: nat, p: Channel, q: Channel, w: nat)
    requires Counters(depth, p) && WorkerStep(p, q, w)
    requires SendOk(p, q, w) ==> p.hand[w] !in p.handed
    ensures Counters(depth, q)
  {
    hide Counters, At;
    if CountSent(p, q, w) || SendOk(p, q, w) || SendFails(p, q, w) {
      SenderKeepsCounters(depth, p, q, w);
    } else {
      ReceiverKeepsCounters(depth, p, q, w);
    }
  }

  lemma ReceiveKeepsBatches(p: Channel, q: Channel, w: nat)
    requires Batches(p) && Receive(p, q, w)
    ensures Batches(q)
  {
    forall b | 0 <= b < |q.takers| ensures b in q.handed <==> !HeldBy(q, q.takers[b], b) {
      if b < |p.takers| {
        assert b in p.handed <==> !HeldBy(p, p.takers[b], b);
      }
    }
  }

  lemma SendOkKeepsBatches(p: Channel, q: Channel, w: nat)
    requires Batches(p) && SendOk(p, q, w)
    ensures Batches(q)
  {
    forall b | 0 <= b < |q.takers| ensures b in q.handed <==> !HeldBy(q, q.takers[b], b) {
      assert b in p.handed <==> !HeldBy(p, p.takers[b], b);
    }
  }

  /** Other steps move no batch: the worker holds one afterwards exactly when it did. */
  lemma PhaseKeepsBatches(p: Channel, q: Channel, w: nat, phase: Phase)
    requires Batches(p) && w < |p.phases| && (Holds(phase) <==> Holds(p.phases[w]))
    requires q.takers == p.takers && q.hand == p.hand && q.handed == p.handed
    requires q.phases == p.phases[w := phase]
    ensures Batches(q)
  {
    forall b | 0 <= b < |q.takers| ensures b in q.handed <==> !HeldBy(q, q.takers[b], b) {
      assert b in p.handed <==> !HeldBy(p, p.takers[b], b);
    }
  }

  lemma WorkerStepKeepsBatches(p: Channel, q: Channel, w: nat)
    requires Batches(p) && WorkerStep(p, q, w)
    ensures Batches(q)
  {
    hide Batches;
    if Receive(p, q, w) {
      ReceiveKeepsBatches(p, q, w);
    } else if SendOk(p, q, w) {
      SendOkKeepsBatches(p, q, w);
    } else {
      PhaseKeepsBatches(p, q, w, q.phases[w]);
    }
  }

  lemma WorkerStepKeepsExits(p: Channel, q: Channel, w: nat)
    requires Exits(p) && WorkerStep(p, q, w)
    ensures Exits(q)
  {
  }

  lemma WorkerStepKeepsInv(depth: nat, p: Channel, q: Channel, w: nat)
    requires Inv(depth, p) && WorkerStep(p, q, w)
    ensures Inv(depth, q) && |q.phases| == |p.phases|
  {
    if SendOk(p, q, w) {
      HandNotHanded(p, w);
    }
    hide Counters, Batches, Exits;
    WorkerStepKeepsCounters(depth, p, q, w);
    WorkerStepKeepsBatches(p, q, w);
    WorkerStepKeepsExits(p, q, w);
  }

  lemma SharedStepKeepsBatches(depth: nat, p: Channel, q: Channel)
    requires Batches(p) && SharedStep(depth, p, q)
    ensures Batches(q) && q.phases == p.phases
  {
    assert q.takers == p.takers && q.hand == p.hand && q.handed == p.handed;
    forall b | 0 <= b < |q.takers| ensures b in q.handed <==> !HeldBy(q, q.takers[b], b) {
      assert b in p.handed <==> !HeldBy(p, p.takers[b], b);
    }
  }

  lemma SharedStepKeepsCounters(depth: nat, p: Channel, q: Channel)
    requires Counters(depth, p) && Exits(p) && SharedStep(depth, p, q)
    ensures Counters(depth, q) && Exits(q)
  {
    hide Number;
    assert q.takers == p.takers && q.phases == p.phases;
  }

  lemma SharedStepKeepsInv(depth: nat, p: Channel, q: Channel)
    requires Inv(depth, p) && SharedStep(depth, p, q)
    ensures Inv(depth, q) && q.phases == p.phases
  {
    hide Counters, Batches, Exits, SharedStep;
    SharedStepKeepsBatches(depth, p, q);
    SharedStepKeepsCounters(depth, p, q);
  }

  lemma StepKeepsInv(depth: nat, p: Channel, q: Channel)
    requires Inv(depth, p) && Next(depth, p, q)
    ensures Inv(depth, q) && |q.phases| == |p.phases|
  {
    hide Inv, SharedStep;
    if w: nat :| WorkerStep(p, q, w) {
      WorkerStepKeepsInv(depth, p, q, w);
    } else {
      SharedStepKeepsInv(depth, p, q);
    }
  }

  ghost predicate Run(depth: nat, workers: nat, trace: seq<Channel>) {
    && trace != [] && trace[0] == Start(workers)
    && forall i | 0 <= i < |trace| - 1 :: Next(depth, trace[i], trace[i + 1])
  }

  lemma {:induction false} RunKeepsInv(depth: nat, workers: nat, trace: seq<Channel>)
    requires Run(depth, workers, trace)
    ensures Inv(depth, trace[|trace| - 1]) && |trace[|trace| - 1].phases| == workers
  {
    hide Inv;
    var n := |trace| - 1;
    if n == 0 {
      StartInv(depth, workers);
    } else {
      RunKeepsInv(depth, workers, trace[..n]);
      assert trace[..n][n - 1] == trace[n - 1];
      StepKeepsInv(depth, trace[n - 1], trace[n]);
    }
  }

  /** In every state of every run: the requests counted as sent are those answered, failed,
      in flight or about to be sent, up to the errors response streams reported. Hence
      `ack + err` stays within `sent` exactly as long as those errors do not outnumber the
      requests still open. */
  lemma EveryRequestAccounted(depth: nat, workers: nat, trace: seq<Channel>)
    requires Run(depth, workers, trace)
    ensures var p := trace[|trace| - 1];
      && (p.ack + p.err <= p.sent <==> p.streamErrors <= p.inFlight + Number(p.phases, Counted))
      && (p.streamErrors == 0 ==> p.ack + p.err <= p.sent)
      && p.sent <= |p.takers| <= p.queued <= |p.takers| + depth
  {
    RunKeepsInv(depth, workers, trace);
  }

  /** Some worker found the channel closed and empty. */
  predicate SomeFinished(p: Channel) {
    exists w | 0 <= w < |p.phases| :: p.phases[w].Finished?
  }

  /** Each batch taken from the channel went to exactly one worker, in channel order; these
      are all queued batches once some worker has found the channel closed and empty. */
  lemma EachBatchOnce(depth: nat, workers: nat, trace: seq<Channel>, w: nat, batch: nat)
    requires Run(depth, workers, trace)
    ensures var p := trace[|trace| - 1];
      && (forall i | 0 <= i < |p.takers| :: p.takers[i] < workers)
      && Increasing(TicketsOf(0, p.takers, w))
      && (batch in TicketsOf(0, p.takers, w) <==>
            batch < |p.takers| && p.takers[batch] == w)
      && Dealt(0, p.takers, workers) == |p.takers|
      && (SomeFinished(p) ==> p.closed && |p.takers| == p.queued)
  {
    var p := trace[|trace| - 1];
    RunKeepsInv(depth, workers, trace);
    TicketsIncrease(0, p.takers, w);
    TicketsOfExactly(0, p.takers, w, batch);
    AllDealt(0, p.takers, workers);
  }

  /** In every state of every run, aborted or not, a queued batch is in exactly one place:
      still in the channel, in the hand of the worker that took it, or with a stream. */
  lemma EveryBatchSomewhere(depth: nat, workers: nat, trace: seq<Channel>, batch: nat)
    requires Run(depth, workers, trace) && batch < trace[|trace| - 1].queued
    ensures var p := trace[|trace| - 1];
      && (batch in p.handed <==>
            batch < |p.takers| && !HeldBy(p, p.takers[batch], batch))
      && (forall w: nat | HeldBy(p, w, batch) :: batch < |p.takers| && p.takers[batch] == w)
  {
    RunKeepsInv(depth, workers, trace);
  }

  ghost predicate AllHanded(p: Channel) {
    forall b: nat | b < p.queued :: b in p.handed
  }

  lemma AllBelow(s: set<nat>, n: nat)
    requires forall b | b in s :: b < n
    ensures |s| <= n && (|s| == n <==> forall b: nat | b < n :: b in s)
  {
    var all := Workers(n);
    assert s <= all && all == s + (all - s);
    assert |all| == |s| + |all - s|;
    assert all <= s <==> all - s == {};
  }

  /** In every state of every run, aborted or not: all queued batches are acknowledged
      exactly when all were handed to a stream and nothing is in flight. */
  lemma AnsweredExactly(depth: nat, workers: nat, trace: seq<Channel>)
    requires Run(depth, workers, trace)
    ensures var p := trace[|trace| - 1];
      && |p.handed| == p.ack + p.inFlight <= p.queued
      && (p.ack == p.queued <==> AllHanded(p) && p.inFlight == 0)
  {
    var p := trace[|trace| - 1];
    RunKeepsInv(depth, workers, trace);
    AllBelow(p.handed, p.queued);
  }

  // ---- When all workers are done ----

  predicate Gone(phase: Phase) {
    phase.NotOpened? || phase.SendFailed? || phase.Finished?
  }

  predicate AllGone(p: Channel) {
    forall w | 0 <= w < |p.phases| :: Gone(p.phases[w])
  }

  predicate NoSendFailed(p: Channel) {
    forall w | 0 <= w < |p.phases| :: !p.phases[w].SendFailed?
  }

  lemma {:induction false} NoneAt(phases: seq<Phase>, phase: Phase)
    requires forall w | 0 <= w < |phases| :: phases[w] != phase
    ensures Number(phases, phase) == 0
  {
    if phases != [] {
      NoneAt(phases[..|phases| - 1], phase);
    }
  }

  lemma HandedExactly(depth: nat, p: Channel)
    requires Inv(depth, p) && AllGone(p)
    ensures AllHanded(p) <==> p.queued == 0 || (SomeOpened(p) && NoSendFailed(p))
  {
    forall w | 0 <= w < |p.phases| && p.phases[w].SendFailed? ensures !AllHanded(p) {
      HandNotHanded(p, w);
    }
    if AllHanded(p) && p.queued > 0 {
      assert 0 in p.handed;
      assert 0 <= p.takers[0] < |p.phases|;
    }
    if SomeOpened(p) && NoSendFailed(p) {
      var w :| 0 <= w < |p.phases| && !p.phases[w].Opening? && !p.phases[w].NotOpened?;
      assert p.phases[w].Finished?;
      forall b: nat | b < p.queued ensures b in p.handed {
        assert !Holds(p.phases[p.takers[b]]);
      }
    }
  }

  /** Once all workers are done: every queued batch was handed to a stream exactly when
      some worker opened its stream and no send failed, unless nothing was queued. */
  lemma DoneExactly(depth: nat, workers: nat, trace: seq<Channel>)
    requires Run(depth, workers, trace) && AllGone(trace[|trace| - 1])
    ensures var p := trace[|trace| - 1];
      && (AllHanded(p) <==> p.queued == 0 || (SomeOpened(p) && NoSendFailed(p)))
      && (AllHanded(p) ==> |p.takers| == p.queued)
  {
    RunKeepsInv(depth, workers, trace);
    var p := trace[|trace| - 1];
    HandedExactly(depth, p);
    if AllHanded(p) && p.queued > 0 {
      assert p.queued - 1 in p.handed;
    }
  }

  /** When all workers are done, everything is answered and no stream reported an error:
      every batch taken is acknowledged or counted as an error, and all queued batches are
      acknowledged exactly when some worker opened its stream and no send failed. */
  lemma QuietEnd(depth: nat, workers: nat, trace: seq<Channel>)
    requires Run(depth, workers, trace)
    requires var p := trace[|trace| - 1];
      AllGone(p) && p.inFlight == 0 && p.streamErrors == 0
    ensures var p := trace[|trace| - 1];
      && p.ack + p.err == p.sent == |p.takers|
      && (p.ack == p.queued <==> p.queued == 0 || (SomeOpened(p) && NoSendFailed(p)))
      && (SomeOpened(p) && NoSendFailed(p) ==> p.ack == p.sent == p.queued && p.err == 0)
  {
    var p := trace[|trace| - 1];
    RunKeepsInv(depth, workers, trace);
    NoneAt(p.phases, Taken);
    NoneAt(p.phases, Counted);
    DoneExactly(depth, workers, trace);
    AnsweredExactly(depth, workers, trace);
  }

  /** Once all workers have left, no batch is taken any more and at most the channel's depth
      can still be queued: a reading loop with more batches than that waits for ever. */
  lemma {:induction false} NobodyDrains(depth: nat, workers: nat, trace: seq<Channel>, i: nat)
    requires Run(depth, workers, trace) && i < |trace| && AllGone(trace[i])
    ensures var p := trace[|trace| - 1];
      && AllGone(p) && p.takers == trace[i].takers
      && p.queued <= |p.takers| + depth
  {
    hide Run, Next, AllGone, Number, SharedStep, WorkerStep;
    var n := |trace| - 1;
    if i < n {
      RunPrefix(depth, workers, trace);
      NobodyDrains(depth, workers, trace[..n], i);
      GoneStays(depth, trace[n - 1], trace[n]);
    }
    EveryRequestAccounted(depth, workers, trace);
  }

  lemma RunPrefix(depth: nat, workers: nat, trace: seq<Channel>)
    requires Run(depth, workers, trace) && |trace| > 1
    ensures var n := |trace| - 1;
      Run(depth, workers, trace[..n]) && Next(depth, trace[n - 1], trace[n])
  {
    hide Next;
    var n := |trace| - 1;
    forall k | 0 <= k < n - 1 ensures Next(depth, trace[..n][k], trace[..n][k + 1]) {
      assert Next(depth, trace[k], trace[k + 1]);
    }
    assert Next(depth, trace[n - 1], trace[n - 1 + 1]);
  }

  lemma GoneStays(depth: nat, p: Channel, q: Channel)
    requires AllGone(p) && Next(depth, p, q)
    ensures AllGone(q) && q.takers == p.takers
  {
    forall w: nat ensures !WorkerStep(p, q, w) {
      assert w < |p.phases| ==> Gone(p.phases[w]);
    }
  }

  // ---- Runs that lose something ----

  lemma OneMoreStep(depth: nat, workers: nat, trace: seq<Channel>, q: Channel)
    requires Run(depth, workers, trace) && Next(depth, trace[|trace| - 1], q)
    ensures Run(depth, workers, trace + [q])
  {
  }

  lemma ByWorker(depth: nat, workers: nat, trace: seq<Channel>, q: Channel, w: nat)
    returns (longer: seq<Channel>)
    requires Run(depth, workers, trace) && WorkerStep(trace[|trace| - 1], q, w)
    ensures Run(depth, workers, longer) && longer[|longer| - 1] == q
  {
    longer := ByAnyone(depth, workers, trace, q);
  }

  lemma ByAnyone(depth: nat, workers: nat, trace: seq<Channel>, q: Channel)
    returns (longer: seq<Channel>)
    requires Run(depth, workers, trace) && Next(depth, trace[|trace| - 1], q)
    ensures Run(depth, workers, longer) && longer[|longer| - 1] == q
  {
    longer := trace + [q];
    OneMoreStep(depth, workers, trace, q);
  }

  /** All went well: everything queued is acknowledged and the worker found the channel empty. */
  ghost predicate DeliversAll(p: Channel) {
    && p.closed && p.queued == 1 && p.ack == 1 && p.sent == 1 && p.err == 0
    && AllGone(p) && p.inFlight == 0 && AllHanded(p) && SomeOpened(p) && NoSendFailed(p)
  }

  lemma OneBatchDelivered()
    ensures exists trace :: Run(1, 1, trace) && DeliversAll(trace[|trace| - 1])
  {
    var s := Start(1);
    var ready := s.(queued := 1, phases := [Receiving]);
    var taken := ready.(takers := [0], phases := [Taken]);
    var counted := taken.(sent := 1, phases := [Counted]);
    var sent := counted.(inFlight := 1, phases := [Receiving], handed := {0});
    var answered := sent.(inFlight := 0, ack := 1);
    var finished := answered.(closed := true, phases := [Finished]);
    var trace := ByAnyone(1, 1, [s], s.(queued := 1));
    trace := ByWorker(1, 1, trace, ready, 0);
    trace := ByWorker(1, 1, trace, taken, 0);
    trace := ByWorker(1, 1, trace, counted, 0);
    trace := ByWorker(1, 1, trace, sent, 0);
    trace := ByAnyone(1, 1, trace, answered);
    trace := ByAnyone(1, 1, trace, answered.(closed := true));
    trace := ByWorker(1, 1, trace, finished, 0);
    assert finished.phases[0] == Finished;
  }

  /** No worker got a stream: what was queued stays in the channel. */
  predicate NobodyOpened(p: Channel) {
    p.closed && p.queued == 1 && AllGone(p) && !SomeOpened(p) && p.takers == []
  }

  lemma UnopenedStreamsStrandBatches()
    ensures exists trace :: Run(1, 1, trace) && NobodyOpened(trace[|trace| - 1])
  {
    var s := Start(1);
    var alone := s.(queued := 1, phases := [NotOpened]);
    var trace := ByAnyone(1, 1, [s], s.(queued := 1));
    trace := ByWorker(1, 1, trace, alone, 0);
    trace := ByAnyone(1, 1, trace, alone.(closed := true));
  }

  predicate Overshoots(p: Channel) {
    p.ack + p.err > p.sent
  }

  /** A stream error with no request open pushes the counters past `sent`. */
  lemma StreamErrorCanOvershoot()
    ensures exists trace :: Run(1, 1, trace) && Overshoots(trace[|trace| - 1])
  {
    var s := Start(1);
    var ready := s.(phases := [Receiving]);
    var trace := ByWorker(1, 1, [s], ready, 0);
    assert ready.phases[0] == Receiving;
    trace := ByAnyone(1, 1, trace, ready.(err := 1, streamErrors := 1));
  }

  /** The program ends normally and its counters balance, yet a queued batch was never
      taken: the only worker left after its send failed. */
  predicate EndsWithBatchLeft(p: Channel) {
    && p.closed && !p.aborted && AllGone(p)
    && p.inFlight == 0 && p.streamErrors == 0 && p.ack + p.err == p.sent
    && |p.takers| < p.queued
  }

  lemma FailedSendCanStrandBatches()
    ensures exists trace :: Run(4, 1, trace) && EndsWithBatchLeft(trace[|trace| - 1])
  {
    var s := Start(1);
    var ready := s.(queued := 2, phases := [Receiving]);
    var taken := ready.(takers := [0], phases := [Taken]);
    var counted := taken.(sent := 1, phases := [Counted]);
    var failed := counted.(err := 1, phases := [SendFailed]);
    var trace := ByAnyone(4, 1, [s], s.(queued := 1));
    trace := ByAnyone(4, 1, trace, s.(queued := 2));
    trace := ByWorker(4, 1, trace, ready, 0);
    trace := ByWorker(4, 1, trace, taken, 0);
    trace := ByWorker(4, 1, trace, counted, 0);
    trace := ByWorker(4, 1, trace, failed, 0);
    trace := ByAnyone(4, 1, trace, failed.(closed := true));
  }

  /** A read error abandoned a full batch that was already in the channel. */
  predicate AbandonsBatch(p: Channel) {
    p.aborted && 0 in p.cancelled && |p.phases| == 1 && p.queued == 1 && p.handed == {}
  }

  lemma AbortCanLoseQueuedBatch()
    ensures exists trace :: Run(4, 1, trace) && AbandonsBatch(trace[|trace| - 1])
  {
    var s := Start(1);
    var aborted := s.(queued := 1, closed := true, aborted := true);
    var trace := ByAnyone(4, 1, [s], s.(queued := 1));
    trace := ByAnyone(4, 1, trace, aborted);
    assert Cancel(aborted, aborted.(cancelled := {0}), 0);
    trace := ByAnyone(4, 1, trace, aborted.(cancelled := {0}));
  }
}
