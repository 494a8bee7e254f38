/** One credit-controlled ingest stream: a sender that spends one semaphore permit per
    message, the server, and the task that drains responses and gives permits back.
    Every step below is one atomic action; the steps interleave freely. */
module IngestProtocol {

  datatype Reply = Reply(id: nat, edges: nat)

  /** What the sender does with the permit it acquired. */
  datatype Sender =
    | Idle
    | Holding // acquired, nothing enqueued for it yet
    | Spent   // its message is enqueued, `mem::forget` has not run yet

  datatype Drain =
    | Reading
    | Counting(edges: nat) // permit given back, edge counter not bumped yet
    | Ended                // the response stream closed or failed

  datatype Session = Session(
    permits: nat,
    sender: Sender,
    barrier: nat,        // permits the barrier has taken and not restored
    wire: seq<nat>,      // enqueued, not answered
    replies: seq<Reply>, // answered, not drained
    drain: Drain,
    edgesDone: nat,      // sum over the counted responses
    answered: nat,       // number of counted responses
    sent: seq<nat>,      // history: everything enqueued
    acked: seq<Reply>)   // history: everything drained
  {
    function InFlight(): nat {
      |wire| + |replies|
    }

    function HeldBeforeEnqueue(): nat {
      if sender.Holding? then 1 else 0
    }
  }

  function Start(pipeline: nat): Session {
    Session(pipeline, Idle, 0, [], [], Reading, 0, 0, [], [])
  }

  // ---- Steps of the sender ----

  predicate Acquire(s: Session, t: Session) {
    s.sender.Idle? && s.permits > 0 && t == s.(permits := s.permits - 1, sender := Holding)
  }

  predicate Enqueue(s: Session, t: Session, id: nat) {
    s.sender.Holding? && t == s.(sender := Spent, wire := s.wire + [id], sent := s.sent + [id])
  }

  predicate Forget(s: Session, t: Session) {
    s.sender.Spent? && t == s.(sender := Idle)
  }

  /** `send` failed: leaving the loop drops the permit, which returns it. */
  predicate SendFails(s: Session, t: Session) {
    s.sender.Holding? && t == s.(sender := Idle, permits := s.permits + 1)
  }

  predicate BarrierTakes(s: Session, t: Session) {
    s.sender.Holding? && t == s.(sender := Idle, barrier := s.barrier + 1)
  }

  predicate BarrierRestores(pipeline: nat, s: Session, t: Session) {
    s.barrier == pipeline && t == s.(barrier := 0, permits := s.permits + pipeline)
  }

  // ---- Steps of the environment ----

  /** The server answers every request once, in request order. */
  predicate Serve(s: Session, t: Session, edges: nat) {
    && s.wire != []
    && t == s.(wire := s.wire[1..], replies := s.replies + [Reply(s.wire[0], edges)])
  }

  predicate DrainReply(s: Session, t: Session) {
    && s.drain.Reading? && s.replies != []
    && t == s.(replies := s.replies[1..], acked := s.acked + [s.replies[0]],
               permits := s.permits + 1, drain := Counting(s.replies[0].edges))
  }

  predicate CountEdges(s: Session, t: Session) {
    && s.drain.Counting?
    && t == s.(drain := Reading, edgesDone := s.edgesDone + s.drain.edges,
               answered := s.answered + 1)
  }

  predicate StreamEnds(s: Session, t: Session) {
    s.drain.Reading? && t == s.(drain := Ended)
  }

  ghost predicate SenderStep(pipeline: nat, s: Session, t: Session) {
    || Acquire(s, t)
    || (exists id: nat :: Enqueue(s, t, id))
    || Forget(s, t)
    || SendFails(s, t)
    || BarrierTakes(s, t)
    || BarrierRestores(pipeline, s, t)
  }

  ghost predicate EnvironmentStep(s: Session, t: Session) {
    || (exists edges: nat :: Serve(s, t, edges))
    || DrainReply(s, t)
    || CountEdges(s, t)
    || StreamEnds(s, t)
  }

  ghost predicate Next(pipeline: nat, s: Session, t: Session) {
    SenderStep(pipeline, s, t) || EnvironmentStep(s, t)
  }

  lemma ServeIsStep(s: Session, t: Session, edges: nat)
    requires Serve(s, t, edges)
    ensures EnvironmentStep(s, t)
  {
  }

  // ---- The invariant ----

  function Ids(replies: seq<Reply>): seq<nat> {
    seq(|replies|, i requires 0 <= i < |replies| => replies[i].id)
  }

  function Edges(replies: seq<Reply>): nat {
    if replies == [] then 0
    else Edges(replies[..|replies| - 1]) + replies[|replies| - 1].edges
  }

  function Uncounted(drain: Drain): nat {
    if drain.Counting? then drain.edges else 0
  }

  predicate PermitsConserved(pipeline: nat, s: Session) {
    s.permits + s.HeldBeforeEnqueue() + s.InFlight() + s.barrier == pipeline
  }

  predicate InOrder(s: Session) {
    s.sent == Ids(s.acked) + Ids(s.replies) + s.wire
  }

  predicate EdgesAccounted(s: Session) {
    && s.edgesDone + Uncounted(s.drain) == Edges(s.acked)
    && s.answered + (if s.drain.Counting? then 1 else 0) == |s.acked|
    && (s.drain.Counting? ==> s.acked != [] && s.acked[|s.acked| - 1].edges == s.drain.edges)
  }

  predicate Inv(pipeline: nat, s: Session) {
    PermitsConserved(pipeline, s) && InOrder(s) && EdgesAccounted(s)
  }

  lemma SenderStepKeepsInv(pipeline: nat, s: Session, t: Session)
    requires Inv(pipeline, s) && SenderStep(pipeline, s, t)
    ensures Inv(pipeline, t)
  {
    if !Acquire(s, t) && !Forget(s, t) && !SendFails(s, t) && !BarrierTakes(s, t)
       && !BarrierRestores(pipeline, s, t) {
      var id: nat :| Enqueue(s, t, id);
      assert InOrder(t);
    }
  }

  lemma DrainReplyKeepsInv(pipeline: nat, s: Session, t: Session)
    requires Inv(pipeline, s) && DrainReply(s, t)
    ensures Inv(pipeline, t)
  {
    var head := s.replies[0];
    assert Ids(t.acked) == Ids(s.acked) + [head.id];
    assert Ids(s.replies) == [head.id] + Ids(t.replies);
    assert t.acked[..|t.acked| - 1] == s.acked;
  }

  lemma ServeKeepsInv(pipeline: nat, s: Session, t: Session, edges: nat)
    requires Inv(pipeline, s) && Serve(s, t, edges)
    ensures Inv(pipeline, t)
  {
    assert Ids(t.replies) == Ids(s.replies) + [s.wire[0]];
    assert s.wire == [s.wire[0]] + t.wire;
  }

  lemma EnvironmentStepKeepsInv(pipeline: nat, s: Session, t: Session)
    requires Inv(pipeline, s) && EnvironmentStep(s, t)
    ensures Inv(pipeline, t)
  {
    if edges: nat :| Serve(s, t, edges) {
      ServeKeepsInv(pipeline, s, t, edges);
    } else if DrainReply(s, t) {
      DrainReplyKeepsInv(pipeline, s, t);
    }
  }

  // ---- Runs ----

  ghost predicate Path(pipeline: nat, trace: seq<Session>) {
    trace != [] && forall i | 0 <= i < |trace| - 1 :: Next(pipeline, trace[i], trace[i + 1])
  }

  ghost predicate Reaches(pipeline: nat, s: Session, t: Session) {
    exists trace :: Path(pipeline, trace) && trace[0] == s && trace[|trace| - 1] == t
  }

  lemma ReachesSelf(pipeline: nat, s: Session)
    ensures Reaches(pipeline, s, s)
  {
    assert Path(pipeline, [s]);
  }

  lemma ReachesStep(pipeline: nat, s: Session, t: Session, u: Session)
    requires Reaches(pipeline, s, t) && Next(pipeline, t, u)
    ensures Reaches(pipeline, s, u)
  {
    var trace :| Path(pipeline, trace) && trace[0] == s && trace[|trace| - 1] == t;
    assert Path(pipeline, trace + [u]);
  }

  lemma {:induction false} PathKeepsInv(pipeline: nat, trace: seq<Session>)
    requires Path(pipeline, trace) && Inv(pipeline, trace[0])
    ensures forall s | s in trace :: Inv(pipeline, s)
  {
    var n := |trace| - 1;
    if n > 0 {
      PathKeepsInv(pipeline, trace[..n]);
      assert trace[..n][n - 1] == trace[n - 1];
      assert Next(pipeline, trace[n - 1], trace[n]);
      if SenderStep(pipeline, trace[n - 1], trace[n]) {
        SenderStepKeepsInv(pipeline, trace[n - 1], trace[n]);
      } else {
        EnvironmentStepKeepsInv(pipeline, trace[n - 1], trace[n]);
      }
    }
  }

  lemma EveryReachableInv(pipeline: nat, s: Session)
    requires Reaches(pipeline, Start(pipeline), s)
    ensures Inv(pipeline, s)
  {
    var trace :| Path(pipeline, trace) && trace[0] == Start(pipeline) && trace[|trace| - 1] == s;
    PathKeepsInv(pipeline, trace);
    assert s in trace;
  }

  /** In every state of every interleaving: no permit is lost or made up, so at most
      `pipeline` messages are in flight; answers come back in the order of the sends; and
      `edgesDone` lacks at most the response drained last. */
  lemma EveryReachableState(pipeline: nat, s: Session)
    requires Reaches(pipeline, Start(pipeline), s)
    ensures s.permits + s.HeldBeforeEnqueue() + s.InFlight() + s.barrier == pipeline
    ensures s.InFlight() <= pipeline && s.permits <= pipeline
    ensures Ids(s.acked) <= s.sent && |s.sent| - |s.acked| == s.InFlight()
    ensures s.edgesDone + Uncounted(s.drain) == Edges(s.acked)
    ensures s.edgesDone == Edges(s.acked)
      || (s.acked != [] && s.edgesDone == Edges(s.acked[..|s.acked| - 1]))
  {
    EveryReachableInv(pipeline, s);
    assert Ids(s.acked) <= Ids(s.acked) + (Ids(s.replies) + s.wire);
    assert s.sent == Ids(s.acked) + (Ids(s.replies) + s.wire);
  }

  /** A completed barrier means that every message sent has been drained; the edge counter
      is complete then exactly when the drain task is not holding a response with edges. */
  lemma CompletedBarrierIsQuiet(pipeline: nat, s: Session)
    requires Reaches(pipeline, Start(pipeline), s) && s.barrier == pipeline
    ensures s.wire == [] && s.replies == [] && Ids(s.acked) == s.sent
    ensures s.permits == 0 && !s.sender.Holding?
    ensures s.edgesDone == Edges(s.acked) <==> Uncounted(s.drain) == 0
  {
    EveryReachableState(pipeline, s);
  }

  /** The state after one message was sent and drained but not counted, with `taken` permits
      in the barrier's hands. */
  function OneUncounted(pipeline: nat, id: nat, edges: nat, taken: nat): Session
    requires taken <= pipeline
  {
    Session(pipeline - taken, Idle, taken, [], [], Counting(edges), 0, 0, [id], [Reply(id, edges)])
  }

  lemma OneUncountedReached(pipeline: nat, id: nat, edges: nat)
    requires pipeline > 0
    ensures Reaches(pipeline, Start(pipeline), OneUncounted(pipeline, id, edges, 0))
  {
    var s0 := Start(pipeline);
    var s1 := s0.(permits := pipeline - 1, sender := Holding);
    var s2 := s1.(sender := Spent, wire := [id], sent := [id]);
    var s3 := s2.(sender := Idle);
    var s4 := s3.(wire := [], replies := [Reply(id, edges)]);
    ReachesSelf(pipeline, s0);
    ReachesStep(pipeline, s0, s0, s1);
    assert Enqueue(s1, s2, id);
    ReachesStep(pipeline, s0, s1, s2);
    ReachesStep(pipeline, s0, s2, s3);
    assert Serve(s3, s4, edges);
    ReachesStep(pipeline, s0, s3, s4);
    assert DrainReply(s4, OneUncounted(pipeline, id, edges, 0));
    ReachesStep(pipeline, s0, s4, OneUncounted(pipeline, id, edges, 0));
  }

  lemma {:induction false} BarrierTakesUncounted(pipeline: nat, id: nat, edges: nat, taken: nat)
    requires 0 < pipeline && taken <= pipeline
    ensures Reaches(pipeline, Start(pipeline), OneUncounted(pipeline, id, edges, taken))
  {
    hide Reaches;
    if taken == 0 {
      OneUncountedReached(pipeline, id, edges);
    } else {
      BarrierTakesUncounted(pipeline, id, edges, taken - 1);
      var s := OneUncounted(pipeline, id, edges, taken - 1);
      var held := s.(permits := s.permits - 1, sender := Holding);
      assert Acquire(s, held);
      ReachesStep(pipeline, Start(pipeline), s, held);
      assert BarrierTakes(held, OneUncounted(pipeline, id, edges, taken));
      ReachesStep(pipeline, Start(pipeline), held, OneUncounted(pipeline, id, edges, taken));
    }
  }

  /** At every pipeline depth the edge counter can still lack the last response, whatever it
      holds, when the barrier completes: the permit is returned before the counter is bumped. */
  lemma BarrierCanMissLastResponse(pipeline: nat, id: nat, edges: nat)
    requires pipeline > 0
    ensures exists s :: Reaches(pipeline, Start(pipeline), s) && s.barrier == pipeline
                        && s.edgesDone == 0 && Edges(s.acked) == edges
  {
    BarrierTakesUncounted(pipeline, id, edges, pipeline);
    var s := OneUncounted(pipeline, id, edges, pipeline);
    assert s.acked[..0] == [] && Edges(s.acked) == Edges(s.acked[..0]) + edges;
  }
}
