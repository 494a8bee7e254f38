/** Work sharing by an atomic counter: every worker takes its next index with `fetch_add`
    and stops at the first index past the end. */
module Tickets {
  import opened Basics
  import opened Wrappers

  /** One finished piece of work. */
  datatype Job<R> = Job(ticket: nat, result: R)

  function TicketsDone<R>(jobs: seq<Job<R>>): seq<nat> {
    seq(|jobs|, (i: nat) requires i < |jobs| => jobs[i].ticket)
  }

  /** The tickets of worker `w` when ticket `start + i` went to worker `owner[i]`. */
  function TicketsOf(start: nat, owner: seq<nat>, w: nat): seq<nat> {
    if owner == [] then []
    else
      var n := |owner| - 1;
      TicketsOf(start, owner[..n], w) + (if owner[n] == w then [start + n] else [])
  }

  function DropLast(s: seq<nat>): seq<nat> {
    if s == [] then [] else s[..|s| - 1]
  }

  /** What a worker has finished, given whether it holds or lost its last ticket. */
  ghost predicate Kept<R>(jobs: seq<Job<R>>, taken: seq<nat>, unfinished: bool) {
    if unfinished then taken != [] && TicketsDone(jobs) == DropLast(taken)
    else TicketsDone(jobs) == taken
  }

  function Workers(n: nat): (r: set<nat>)
    ensures |r| == n && forall w: nat :: w in r <==> w < n
  {
    if n == 0 then {} else Workers(n - 1) + {n - 1}
  }

  /** The shared counter, and where each worker is in its loop. */
  datatype Pool<R> = Pool(
    counter: nat,
    running: set<nat>,
    hand: map<nat, nat>, // the ticket a running worker is busy with
    stopped: set<nat>,   // saw an index past the end
    lost: set<nat>,      // left on an error
    done: seq<seq<Job<R>>>,
    owner: seq<nat>)     // history: who got each ticket

  ghost predicate WorkerOk<R>(start: nat, p: Pool<R>, w: nat)
    requires w < |p.done|
  {
    var taken := TicketsOf(start, p.owner, w);
    && Kept(p.done[w], taken, w in p.hand || w in p.lost)
    && (w in p.hand ==> taken != [] && p.hand[w] == taken[|taken| - 1])
  }

  ghost predicate Inv<R>(start: nat, end: nat, p: Pool<R>) {
    var workers := |p.done|;
    && p.running + p.stopped + p.lost == Workers(workers)
    && p.running !! p.stopped !! p.lost && p.hand.Keys <= p.running
    && start <= p.counter && start + |p.owner| == Min(p.counter, end)
    && (forall i | 0 <= i < |p.owner| :: p.owner[i] < workers)
    && |p.stopped| == (if p.counter > end then p.counter - end else 0)
    && (forall w | 0 <= w < workers :: WorkerOk(start, p, w))
  }

  // ---- Atomic steps of worker `w` ----

  /** `counter.fetch_add(1)` and the test against the end. */
  function FetchAdd<R>(end: nat, p: Pool<R>, w: nat): Pool<R> {
    var q := p.(counter := p.counter + 1);
    if p.counter >= end
    then q.(running := p.running - {w}, stopped := p.stopped + {w})
    else q.(hand := p.hand[w := p.counter], owner := p.owner + [w])
  }

  function Finish<R>(p: Pool<R>, w: nat, result: R): Pool<R>
    requires w in p.hand && w < |p.done|
  {
    p.(hand := p.hand - {w}, done := p.done[w := p.done[w] + [Job(p.hand[w], result)]])
  }

  function Quit<R>(p: Pool<R>, w: nat): Pool<R> {
    p.(hand := p.hand - {w}, running := p.running - {w}, lost := p.lost + {w})
  }

  lemma OneMoreOwner(start: nat, owner: seq<nat>, w: nat)
    ensures TicketsOf(start, owner + [w], w) == TicketsOf(start, owner, w) + [start + |owner|]
    ensures forall v: nat | v != w :: TicketsOf(start, owner + [w], v) == TicketsOf(start, owner, v)
  {
    assert (owner + [w])[..|owner|] == owner;
  }

  lemma MoveWorker(from: set<nat>, to: set<nat>, rest: set<nat>, w: nat)
    requires w in from && from !! to !! rest
    ensures (from - {w}) + (to + {w}) + rest == from + to + rest
    ensures from - {w} !! to + {w} !! rest && |to + {w}| == |to| + 1
  {
  }

  lemma TicketKeepsInv<R>(start: nat, end: nat, p: Pool<R>, w: nat)
    requires Inv(start, end, p) && w in p.running && w !in p.hand && p.counter < end
    ensures Inv(start, end, FetchAdd(end, p, w))
  {
    hide TicketsOf;
    var q := FetchAdd(end, p, w);
    assert w in Workers(|p.done|);
    OneMoreOwner(start, p.owner, w);
    forall v | 0 <= v < |q.done| ensures WorkerOk(start, q, v) {
      assert WorkerOk(start, p, v);
    }
  }

  lemma StopKeepsInv<R>(start: nat, end: nat, p: Pool<R>, w: nat)
    requires start <= end && Inv(start, end, p)
    requires w in p.running && w !in p.hand && p.counter >= end
    ensures Inv(start, end, FetchAdd(end, p, w))
  {
    hide TicketsOf, Workers;
    var q := FetchAdd(end, p, w);
    MoveWorker(p.running, p.stopped, p.lost, w);
    forall v | 0 <= v < |q.done| ensures WorkerOk(start, q, v) {
      assert WorkerOk(start, p, v);
    }
  }

  lemma FetchAddKeepsInv<R>(start: nat, end: nat, p: Pool<R>, w: nat)
    requires start <= end && Inv(start, end, p) && w in p.running && w !in p.hand
    ensures Inv(start, end, FetchAdd(end, p, w))
  {
    if p.counter < end {
      TicketKeepsInv(start, end, p, w);
    } else {
      StopKeepsInv(start, end, p, w);
    }
  }

  lemma FinishKeepsInv<R>(start: nat, end: nat, p: Pool<R>, w: nat, result: R)
    requires Inv(start, end, p) && w in p.hand && w < |p.done|
    ensures Inv(start, end, Finish(p, w, result))
  {
    var q := Finish(p, w, result);
    forall v | 0 <= v < |q.done| ensures WorkerOk(start, q, v) {
      assert WorkerOk(start, p, v);
      if v == w {
        var taken := TicketsOf(start, p.owner, w);
        assert TicketsDone(q.done[w]) == TicketsDone(p.done[w]) + [p.hand[w]] == taken;
      }
    }
  }

  lemma QuitKeepsInv<R>(start: nat, end: nat, p: Pool<R>, w: nat)
    requires Inv(start, end, p) && w in p.running && w in p.hand
    ensures Inv(start, end, Quit(p, w))
  {
    var q := Quit(p, w);
    forall v | 0 <= v < |q.done| ensures WorkerOk(start, q, v) {
      assert WorkerOk(start, p, v);
    }
  }

  /** Every finished job holds the answer its ticket got. */
  ghost predicate Answered<R>(done: seq<seq<Job<R>>>, answer: nat -> Option<R>) {
    forall w, k | 0 <= w < |done| && 0 <= k < |done[w]| :: AnsweredBy(done[w][k], answer)
  }

  ghost predicate AnsweredBy<R>(job: Job<R>, answer: nat -> Option<R>) {
    answer(job.ticket).Some? && answer(job.ticket).value == job.result
  }

  /** A worker left on an error because its last ticket got none. */
  ghost predicate LostOnFailure<R>(start: nat, owner: seq<nat>, w: nat, answer: nat -> Option<R>) {
    var taken := TicketsOf(start, owner, w);
    taken != [] && answer(taken[|taken| - 1]).None?
  }

  /** The invariant together with what the answers were. */
  ghost predicate Sound<R>(start: nat, end: nat, p: Pool<R>, answer: nat -> Option<R>) {
    && Inv(start, end, p) && Answered(p.done, answer)
    && forall w | w in p.lost :: LostOnFailure(start, p.owner, w, answer)
  }

  lemma FetchAddKeepsSound<R>(start: nat, end: nat, p: Pool<R>, w: nat, answer: nat -> Option<R>)
    requires start <= end && Sound(start, end, p, answer) && w in p.running && w !in p.hand
    ensures Sound(start, end, FetchAdd(end, p, w), answer)
  {
    FetchAddKeepsInv(start, end, p, w);
    forall v | v in p.lost ensures LostOnFailure(start, p.owner + [w], v, answer) {
      OneMoreOwner(start, p.owner, w);
      assert LostOnFailure(start, p.owner, v, answer) && v != w;
    }
  }

  lemma FinishKeepsSound<R>(start: nat, end: nat, p: Pool<R>, w: nat, answer: nat -> Option<R>)
    requires Sound(start, end, p, answer) && w in p.hand && w < |p.done|
    requires answer(p.hand[w]).Some?
    ensures Sound(start, end, Finish(p, w, answer(p.hand[w]).value), answer)
  {
    hide Inv, LostOnFailure;
    FinishKeepsInv(start, end, p, w, answer(p.hand[w]).value);
    assert AnsweredBy(Job(p.hand[w], answer(p.hand[w]).value), answer);
  }

  lemma QuitKeepsSound<R>(start: nat, end: nat, p: Pool<R>, w: nat, answer: nat -> Option<R>)
    requires Sound(start, end, p, answer) && w in p.running && w in p.hand && w < |p.done|
    requires answer(p.hand[w]).None?
    ensures Sound(start, end, Quit(p, w), answer)
  {
    QuitKeepsInv(start, end, p, w);
    assert WorkerOk(start, p, w);
  }

  lemma SoundRunning<R>(start: nat, end: nat, p: Pool<R>, w: nat, answer: nat -> Option<R>)
    requires Sound(start, end, p, answer) && w in p.running
    ensures w < |p.done| && p.hand.Keys <= p.running
  {
    assert w in Workers(|p.done|);
  }

  /** Workers `0..workers` share the indices `start..end`. The next worker to run is chosen
      freely at every atomic step. `answer` says what the request for a ticket results in; a
      worker whose request fails leaves. */
  method RunWorkers<R>(start: nat, end: nat, workers: nat, answer: nat -> Option<R>)
    returns (counter: nat, done: seq<seq<Job<R>>>, lost: set<nat>, ghost owner: seq<nat>)
    requires start <= end
    ensures |done| == workers && lost <= Workers(workers) && |lost| <= workers
    ensures Answered(done, answer)
    ensures forall w | w in lost :: LostOnFailure(start, owner, w, answer)
    ensures |lost| < workers ==> counter == end + (workers - |lost|)
    ensures |lost| == workers ==> start <= counter <= end
    ensures start + |owner| == Min(counter, end)
    ensures forall i | 0 <= i < |owner| :: owner[i] < workers
    ensures forall w | 0 <= w < workers :: Kept(done[w], TicketsOf(start, owner, w), w in lost)
  {
    hide Sound, Kept, TicketsOf, Answered, LostOnFailure;
    counter, done, lost, owner := start, seq(workers, _ => []), {}, [];
    var running := Workers(workers);
    var hand: map<nat, nat> := map[];
    ghost var stopped: set<nat> := {};
    FreshSound<R>(start, end, workers, answer);
    while running != {}
      invariant |done| == workers
      invariant Sound(start, end, Pool(counter, running, hand, stopped, lost, done, owner), answer)
      decreases running, if counter < end then end - counter else 0, hand.Keys
    {
      ghost var p := Pool(counter, running, hand, stopped, lost, done, owner);
      var w :| w in running;
      SoundRunning(start, end, p, w, answer);
      if w !in hand {
        FetchAddKeepsSound(start, end, p, w, answer);
        var ticket := counter;
        counter := counter + 1;
        if ticket >= end {
          running, stopped := running - {w}, stopped + {w};
        } else {
          hand, owner := hand[w := ticket], owner + [w];
        }
      } else {
        match answer(hand[w]) {
          case None =>
            QuitKeepsSound(start, end, p, w, answer);
            running, lost := running - {w}, lost + {w};
          case Some(result) =>
            FinishKeepsSound(start, end, p, w, answer);
            done := done[w := done[w] + [Job(hand[w], result)]];
        }
        hand := hand - {w};
      }
    }
    AllStopped(start, end, Pool(counter, running, hand, stopped, lost, done, owner), answer);
  }

  lemma FreshSound<R>(start: nat, end: nat, workers: nat, answer: nat -> Option<R>)
    requires start <= end
    ensures Sound(start, end,
      Pool(start, Workers(workers), map[], {}, {}, seq<seq<Job<R>>>(workers, _ => []), []), answer)
  {
    FreshPool<R>(start, end, workers);
  }

  lemma FreshPool<R>(start: nat, end: nat, workers: nat)
    requires start <= end
    ensures Inv(start, end, Pool(start, Workers(workers), map[], {}, {}, seq<seq<Job<R>>>(workers, _ => []), []))
  {
  }

  lemma AllStopped<R>(start: nat, end: nat, p: Pool<R>, answer: nat -> Option<R>)
    requires start <= end && Sound(start, end, p, answer) && p.running == {}
    ensures Answered(p.done, answer)
    ensures forall w | w in p.lost :: LostOnFailure(start, p.owner, w, answer)
    ensures p.lost <= Workers(|p.done|) && |p.lost| <= |p.done|
    ensures |p.lost| < |p.done| ==> p.counter == end + (|p.done| - |p.lost|)
    ensures |p.lost| == |p.done| ==> start <= p.counter <= end
    ensures start + |p.owner| == Min(p.counter, end)
    ensures forall i | 0 <= i < |p.owner| :: p.owner[i] < |p.done|
    ensures forall w | 0 <= w < |p.done| ::
      Kept(p.done[w], TicketsOf(start, p.owner, w), w in p.lost)
  {
    assert Workers(|p.done|) == p.stopped + p.lost;
    assert |p.stopped + p.lost| == |p.stopped| + |p.lost|;
    forall w | 0 <= w < |p.done|
      ensures Kept(p.done[w], TicketsOf(start, p.owner, w), w in p.lost)
    {
      assert WorkerOk(start, p, w);
    }
  }

  // ---- What the split means ----

  lemma {:induction false} TicketsOfExactly(start: nat, owner: seq<nat>, w: nat, t: nat)
    ensures t in TicketsOf(start, owner, w) <==>
      start <= t < start + |owner| && owner[t - start] == w
  {
    if owner != [] {
      TicketsOfExactly(start, owner[..|owner| - 1], w, t);
    }
  }

  lemma {:induction false} TicketsIncrease(start: nat, owner: seq<nat>, w: nat)
    ensures Increasing(TicketsOf(start, owner, w))
    ensures forall t | t in TicketsOf(start, owner, w) :: start <= t < start + |owner|
  {
    if owner != [] {
      var before := TicketsOf(start, owner[..|owner| - 1], w);
      TicketsIncrease(start, owner[..|owner| - 1], w);
      assert forall i | 0 <= i < |before| :: before[i] in before;
    }
  }

  /** Every index was processed by exactly one worker, and by that worker once, unless the
      worker holding it left on an error. */
  lemma EachIndexOnce<R>(start: nat, owner: seq<nat>, done: seq<seq<Job<R>>>, lost: set<nat>, t: nat)
    requires forall i | 0 <= i < |owner| :: owner[i] < |done|
    requires forall w | 0 <= w < |done| :: Kept(done[w], TicketsOf(start, owner, w), w in lost)
    requires start <= t < start + |owner|
    ensures forall w | 0 <= w < |done| && w != owner[t - start] :: t !in TicketsDone(done[w])
    ensures Increasing(TicketsDone(done[owner[t - start]]))
    ensures owner[t - start] !in lost ==> t in TicketsDone(done[owner[t - start]])
  {
    forall w | 0 <= w < |done|
      ensures w != owner[t - start] ==> t !in TicketsDone(done[w])
      ensures Increasing(TicketsDone(done[w]))
    {
      assert Kept(done[w], TicketsOf(start, owner, w), w in lost);
      TicketsOfExactly(start, owner, w, t);
      TicketsIncrease(start, owner, w);
    }
    TicketsOfExactly(start, owner, owner[t - start], t);
  }

  /** How many tickets workers `0..workers` hold together. */
  function Dealt(start: nat, owner: seq<nat>, workers: nat): nat {
    if workers == 0 then 0
    else Dealt(start, owner, workers - 1) + |TicketsOf(start, owner, workers - 1)|
  }

  lemma {:induction false} DealtOneMore(start: nat, owner: seq<nat>, w: nat, workers: nat)
    ensures Dealt(start, owner + [w], workers) ==
      Dealt(start, owner, workers) + (if w < workers then 1 else 0)
  {
    if workers > 0 {
      DealtOneMore(start, owner, w, workers - 1);
      OneMoreOwner(start, owner, w);
    }
  }

  lemma {:induction false} NothingDealt(start: nat, workers: nat)
    ensures Dealt(start, [], workers) == 0
  {
    if workers > 0 {
      NothingDealt(start, workers - 1);
    }
  }

  lemma {:induction false} AllDealt(start: nat, owner: seq<nat>, workers: nat)
    requires forall i | 0 <= i < |owner| :: owner[i] < workers
    ensures Dealt(start, owner, workers) == |owner|
  {
    if owner == [] {
      NothingDealt(start, workers);
    } else {
      var n := |owner| - 1;
      AllDealt(start, owner[..n], workers);
      DealtOneMore(start, owner[..n], owner[n], workers);
      assert owner == owner[..n] + [owner[n]];
    }
  }

  /** Some worker finished this index. */
  ghost predicate Finished<R>(done: seq<seq<Job<R>>>, t: nat) {
    exists w :: 0 <= w < |done| && t in TicketsDone(done[w])
  }

  lemma LostTicket<R>(start: nat, owner: seq<nat>, done: seq<seq<Job<R>>>, lost: set<nat>, w: nat)
    returns (t: nat)
    requires w in lost && w < |done|
    requires forall i | 0 <= i < |owner| :: owner[i] < |done|
    requires forall v | 0 <= v < |done| :: Kept(done[v], TicketsOf(start, owner, v), v in lost)
    ensures start <= t < start + |owner| && !Finished(done, t)
  {
    var taken := TicketsOf(start, owner, w);
    assert Kept(done[w], taken, true);
    t := taken[|taken| - 1];
    assert t in taken;
    TicketsIncrease(start, owner, w);
    TicketsOfExactly(start, owner, w, t);
    assert forall i | 0 <= i < |TicketsDone(done[w])| :: TicketsDone(done[w])[i] == taken[i] < t;
    EachIndexOnce(start, owner, done, lost, t);
  }

  /** All of `start..end` was processed exactly when there was a worker and none failed. */
  lemma AllFinishedExactly<R>(start: nat, end: nat, owner: seq<nat>, done: seq<seq<Job<R>>>,
                              lost: set<nat>)
    requires start < end && lost <= Workers(|done|) && start + |owner| <= end
    requires |done| > 0 && lost == {} ==> start + |owner| == end
    requires forall i | 0 <= i < |owner| :: owner[i] < |done|
    requires forall w | 0 <= w < |done| :: Kept(done[w], TicketsOf(start, owner, w), w in lost)
    ensures (forall t: nat | start <= t < end :: Finished(done, t)) <==> |done| > 0 && lost == {}
  {
    if |done| > 0 && lost == {} {
      forall t: nat | start <= t < end ensures Finished(done, t) {
        EachIndexOnce(start, owner, done, lost, t);
      }
    } else if lost != {} {
      var w :| w in lost;
      assert w in Workers(|done|);
      var t := LostTicket(start, owner, done, lost, w);
    } else {
      assert !Finished(done, start);
    }
  }

  lemma LostMeansFailure<R>(start: nat, owner: seq<nat>, w: nat, answer: nat -> Option<R>)
    returns (t: nat)
    requires LostOnFailure(start, owner, w, answer)
    ensures start <= t < start + |owner| && answer(t).None?
  {
    var taken := TicketsOf(start, owner, w);
    t := taken[|taken| - 1];
    assert t in taken;
    TicketsOfExactly(start, owner, w, t);
  }

  lemma FinishedMeansAnswer<R>(done: seq<seq<Job<R>>>, t: nat, answer: nat -> Option<R>)
    requires Finished(done, t) && Answered(done, answer)
    ensures answer(t).Some?
  {
    var w :| 0 <= w < |done| && t in TicketsDone(done[w]);
    var k :| 0 <= k < |TicketsDone(done[w])| && TicketsDone(done[w])[k] == t;
    assert AnsweredBy(done[w][k], answer);
  }

  /** Some worker leaves exactly when there is one and some ticket of the range fails. */
  lemma LostExactly<R>(start: nat, end: nat, owner: seq<nat>, done: seq<seq<Job<R>>>,
                       lost: set<nat>, answer: nat -> Option<R>)
    requires start <= end && start + |owner| <= end && lost <= Workers(|done|)
    requires |done| > 0 && lost == {} ==> start + |owner| == end
    requires forall i | 0 <= i < |owner| :: owner[i] < |done|
    requires forall w | 0 <= w < |done| :: Kept(done[w], TicketsOf(start, owner, w), w in lost)
    requires Answered(done, answer)
    requires forall w | w in lost :: LostOnFailure(start, owner, w, answer)
    ensures lost == {} <==> |done| == 0 || forall t: nat | start <= t < end :: answer(t).Some?
  {
    if start < end {
      AllFinishedExactly(start, end, owner, done, lost);
    }
    hide *;
    if w :| w in lost {
      var t := LostMeansFailure(start, owner, w, answer);
      NobodyToLose(|done|, lost, w);
    } else if |done| > 0 {
      forall t: nat | start <= t < end ensures answer(t).Some? {
        FinishedMeansAnswer(done, t, answer);
      }
    }
  }

  lemma NobodyToLose(workers: nat, lost: set<nat>, w: nat)
    requires lost <= Workers(workers) && w in lost
    ensures workers > 0
  {
    assert w in Workers(workers);
  }
}
