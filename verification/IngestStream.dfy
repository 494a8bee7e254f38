/** The stream as the client code holds it: a semaphore, a request channel, the response
    stream and the drain task's counter, changed in place. Each method performs the steps
    of `IngestProtocol`; what other tasks do meanwhile is `Interfere`. */
module IngestStream {
  import opened IngestProtocol

  class Stream {
    const pipeline: nat
    var permits: nat
    var sender: Sender
    var barrier: nat
    var wire: seq<nat>
    var replies: seq<Reply>
    var drain: Drain
    var edgesDone: nat
    var answered: nat
    ghost var sent: seq<nat>
    ghost var acked: seq<Reply>
    ghost var failures: nat // sends that failed

    ghost function Snapshot(): Session
      reads this
    {
      Session(permits, sender, barrier, wire, replies, drain, edgesDone, answered, sent, acked)
    }

    /** The stream is in a state that some interleaving reaches. */
    ghost predicate Valid()
      reads this
    {
      Reaches(pipeline, Start(pipeline), Snapshot())
    }

    constructor (pipeline: nat)
      ensures Valid() && Snapshot() == Start(pipeline) && this.pipeline == pipeline
      ensures failures == 0
    {
      this.pipeline := pipeline;
      permits, sender, barrier := pipeline, Idle, 0;
      wire, replies, drain, edgesDone, answered := [], [], Reading, 0, 0;
      sent, acked, failures := [], [], 0;
      new;
      ReachesSelf(pipeline, Snapshot());
    }

    /** Any number of steps of the server and of the drain task, in any order. */
    method Interfere()
      requires Valid()
      modifies `permits, `wire, `replies, `drain, `edgesDone, `answered, `acked
      ensures Valid()
      ensures permits >= old(permits) && edgesDone >= old(edgesDone) && old(acked) <= acked
    {
      var steps: nat := *;
      while steps > 0
        invariant Valid()
        invariant permits >= old(permits) && edgesDone >= old(edgesDone) && old(acked) <= acked
        decreases steps
      {
        ghost var before := Snapshot();
        if {
        case wire != [] =>
          var edges: nat := *;
          wire, replies := wire[1..], replies + [Reply(wire[0], edges)];
          ServeIsStep(before, Snapshot(), edges);
        case drain.Reading? && replies != [] =>
          acked := acked + [replies[0]];
          permits, drain, replies := permits + 1, Counting(replies[0].edges), replies[1..];
          assert EnvironmentStep(before, Snapshot());
        case drain.Counting? =>
          edgesDone, answered, drain := edgesDone + drain.edges, answered + 1, Reading;
          assert EnvironmentStep(before, Snapshot());
        case drain.Reading? =>
          drain := Ended;
          assert EnvironmentStep(before, Snapshot());
        case true =>
          break;
        }
        ReachesStep(pipeline, Start(pipeline), before, Snapshot());
        steps := steps - 1;
      }
    }

    /** `sem.acquire().await`. Not granted means that no permit became free while the
        others ran: the sender is still waiting. */
    method Acquire() returns (granted: bool)
      requires Valid() && sender.Idle?
      modifies `permits, `sender, `wire, `replies, `drain, `edgesDone, `answered, `acked
      ensures Valid()
      ensures granted ==> sender.Holding?
      ensures !granted ==> sender.Idle? && permits == 0
      ensures edgesDone >= old(edgesDone) && old(acked) <= acked
    {
      Interfere();
      if permits == 0 {
        return false;
      }
      ghost var before := Snapshot();
      permits, sender := permits - 1, Holding;
      ReachesStep(pipeline, Start(pipeline), before, Snapshot());
      return true;
    }

    /** Enqueue one message and forget its permit; on failure the permit is dropped.
        Others may run between the enqueue and the forget. The stream accepts the message
        unless the server has closed it. */
    method Send(id: nat, accepted: bool) returns (ok: bool)
      requires Valid() && sender.Holding?
      modifies `permits, `sender, `wire, `replies, `drain, `edgesDone, `answered, `sent, `acked,
        `failures
      ensures Valid() && sender.Idle? && ok == accepted
      ensures failures == old(failures) + (if ok then 0 else 1)
      ensures sent == if ok then old(sent) + [id] else old(sent)
      ensures edgesDone >= old(edgesDone) && old(acked) <= acked
    {
      ghost var before := Snapshot();
      ok := accepted;
      if !ok {
        sender, permits := Idle, permits + 1;
        failures := failures + 1;
        assert SendFails(before, Snapshot());
        ReachesStep(pipeline, Start(pipeline), before, Snapshot());
        return;
      }
      sender, wire := Spent, wire + [id];
      sent := sent + [id];
      assert Enqueue(before, Snapshot(), id);
      ReachesStep(pipeline, Start(pipeline), before, Snapshot());
      Interfere();
      before := Snapshot();
      sender := Idle;
      assert IngestProtocol.Forget(before, Snapshot());
      ReachesStep(pipeline, Start(pipeline), before, Snapshot());
    }

    /** The barrier forgets a permit it acquired, to restore it later. */
    method TakeForBarrier()
      requires Valid() && sender.Holding?
      modifies `sender, `barrier
      ensures Valid() && sender.Idle? && barrier == old(barrier) + 1
    {
      ghost var before := Snapshot();
      sender, barrier := Idle, barrier + 1;
      assert BarrierTakes(before, Snapshot());
      ReachesStep(pipeline, Start(pipeline), before, Snapshot());
    }

    method RestoreBarrier()
      requires Valid() && barrier == pipeline
      modifies `permits, `barrier
      ensures Valid() && barrier == 0 && permits == old(permits) + pipeline
    {
      ghost var before := Snapshot();
      permits, barrier := permits + pipeline, 0;
      assert BarrierRestores(pipeline, before, Snapshot());
      ReachesStep(pipeline, Start(pipeline), before, Snapshot());
    }

    /** `drop(tx)` and `drain.await`: the drain task runs to its end. */
    method Close()
      requires Valid() && sender.Idle?
      modifies `permits, `wire, `replies, `drain, `edgesDone, `answered, `acked
      ensures Valid() && drain.Ended? && old(acked) <= acked
      ensures edgesDone == Edges(acked) && answered == |acked|
      ensures |acked| <= |sent| <= |acked| + pipeline
    {
      Interfere();
      ghost var before := Snapshot();
      if drain.Counting? {
        edgesDone, answered, drain := edgesDone + drain.edges, answered + 1, Reading;
        assert CountEdges(before, Snapshot());
        ReachesStep(pipeline, Start(pipeline), before, Snapshot());
        before := Snapshot();
      }
      if drain.Reading? {
        drain := Ended;
        assert StreamEnds(before, Snapshot());
        ReachesStep(pipeline, Start(pipeline), before, Snapshot());
      }
      EveryReachableInv(pipeline, Snapshot());
      EveryReachableState(pipeline, Snapshot());
    }
  }
}
