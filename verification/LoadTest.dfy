/** The load test: node setup, upsert load and query load share their work by tickets. */
module LoadTest {
  import opened Basics
  import opened Wrappers
  import opened Tickets

  datatype Outcome = Hit | Miss | Failed

  datatype Reply = Reply(outcome: Outcome, micros: nat)

  datatype WorkerStats = WorkerStats(ok: nat, err: nat, miss: nat, latencies: seq<nat>)

  function Count(jobs: seq<Job<Reply>>, outcome: Outcome): nat {
    if jobs == [] then 0
    else Count(jobs[..|jobs| - 1], outcome)
         + (if jobs[|jobs| - 1].result.outcome == outcome then 1 else 0)
  }

  /** The places of the jobs with this outcome among the first `n`. */
  function Places(jobs: seq<Job<Reply>>, outcome: Outcome, n: nat): set<nat>
    requires n <= |jobs|
  {
    set i: nat | i < n && jobs[i].result.outcome == outcome
  }

  /** Counting finds each job with the outcome once, and no other. */
  lemma {:induction false} CountExactly(jobs: seq<Job<Reply>>, outcome: Outcome)
    ensures Count(jobs, outcome) == |Places(jobs, outcome, |jobs|)|
  {
    if jobs != [] {
      var n := |jobs| - 1;
      CountExactly(jobs[..n], outcome);
      var before := Places(jobs[..n], outcome, n);
      assert Places(jobs, outcome, n + 1) ==
        if jobs[n].result.outcome == outcome then before + {n} else before;
    }
  }

  function Latencies(jobs: seq<Job<Reply>>): seq<nat> {
    seq(|jobs|, (i: nat) requires i < |jobs| => jobs[i].result.micros)
  }

  /** The statistics describe these jobs and nothing else. */
  predicate Describes(s: WorkerStats, jobs: seq<Job<Reply>>, isQuery: bool) {
    && s.ok == Count(jobs, Hit) + Count(jobs, Miss)
    && s.err == Count(jobs, Failed)
    && s.miss == (if isQuery then Count(jobs, Miss) else 0)
    && s.latencies == Latencies(jobs)
  }

  /** A worker's counting; an upsert has no misses to count. */
  method Tally(jobs: seq<Job<Reply>>, isQuery: bool) returns (stats: WorkerStats)
    ensures Describes(stats, jobs, isQuery)
  {
    stats := WorkerStats(0, 0, 0, []);
    for i := 0 to |jobs|
      invariant Describes(stats, jobs[..i], isQuery)
    {
      assert jobs[..i + 1][..i] == jobs[..i];
      match jobs[i].result.outcome {
        case Hit => stats := stats.(ok := stats.ok + 1);
        case Miss =>
          stats := stats.(ok := stats.ok + 1);
          if isQuery { stats := stats.(miss := stats.miss + 1); }
        case Failed => stats := stats.(err := stats.err + 1);
      }
      stats := stats.(latencies := stats.latencies + [jobs[i].result.micros]);
    }
    assert jobs[..|jobs|] == jobs;
  }

  lemma {:induction false} CountsAddUp(jobs: seq<Job<Reply>>)
    ensures Count(jobs, Hit) + Count(jobs, Miss) + Count(jobs, Failed) == |jobs|
  {
    if jobs != [] {
      CountsAddUp(jobs[..|jobs| - 1]);
    }
  }

  function Flatten<T>(parts: seq<seq<T>>): seq<T> {
    if parts == [] then [] else Flatten(parts[..|parts| - 1]) + parts[|parts| - 1]
  }

  lemma {:induction false} FlattenJobs(parts: seq<seq<Job<Reply>>>, start: nat, owner: seq<nat>)
    requires forall w | 0 <= w < |parts| :: Kept(parts[w], TicketsOf(start, owner, w), false)
    ensures |Flatten(parts)| == Dealt(start, owner, |parts|)
  {
    if parts != [] {
      FlattenJobs(parts[..|parts| - 1], start, owner);
      assert Kept(parts[|parts| - 1], TicketsOf(start, owner, |parts| - 1), false);
    }
  }

  lemma {:induction false} CountAppend(a: seq<Job<Reply>>, b: seq<Job<Reply>>, outcome: Outcome)
    ensures Count(a + b, outcome) == Count(a, outcome) + Count(b, outcome)
  {
    if b == [] {
      assert a + b == a;
    } else {
      CountAppend(a, b[..|b| - 1], outcome);
      assert (a + b)[..|a + b| - 1] == a + b[..|b| - 1];
    }
  }

  // ---- Counting over all workers ----

  /** The jobs with this outcome, as pairs of worker and place. */
  function AllPlaces(done: seq<seq<Job<Reply>>>, outcome: Outcome, workers: nat): set<(nat, nat)>
    requires workers <= |done|
  {
    set w: nat, i: nat | w < workers && i < |done[w]| && done[w][i].result.outcome == outcome ::
      (w, i)
  }

  function Pairs(w: nat, s: set<nat>): set<(nat, nat)> {
    set i | i in s :: (w, i)
  }

  lemma PairsCount(w: nat, s: set<nat>)
    ensures |Pairs(w, s)| == |s|
    decreases |s|
  {
    if s == {} {
      assert Pairs(w, s) == {};
    } else {
      var i :| i in s;
      PairsCount(w, s - {i});
      assert Pairs(w, s) == Pairs(w, s - {i}) + {(w, i)};
    }
  }

  lemma OneMoreWorker(done: seq<seq<Job<Reply>>>, outcome: Outcome, w: nat)
    requires w < |done|
    ensures |AllPlaces(done, outcome, w + 1)| ==
      |AllPlaces(done, outcome, w)| + |Places(done[w], outcome, |done[w]|)|
  {
    var before, own := AllPlaces(done, outcome, w), Places(done[w], outcome, |done[w]|);
    PairsCount(w, own);
    assert AllPlaces(done, outcome, w + 1) == before + Pairs(w, own);
    assert before !! Pairs(w, own);
  }

  lemma {:induction false} CountAllExactly(done: seq<seq<Job<Reply>>>, outcome: Outcome, workers: nat)
    requires workers <= |done|
    ensures Count(Flatten(done[..workers]), outcome) == |AllPlaces(done, outcome, workers)|
  {
    if workers == 0 {
      assert AllPlaces(done, outcome, 0) == {};
    } else {
      hide Count, AllPlaces, Places;
      var w := workers - 1;
      CountAllExactly(done, outcome, w);
      assert done[..workers][..w] == done[..w];
      CountAppend(Flatten(done[..w]), done[w], outcome);
      CountExactly(done[w], outcome);
      OneMoreWorker(done, outcome, w);
    }
  }

  function Merged(s: WorkerStats, t: WorkerStats): WorkerStats {
    WorkerStats(s.ok + t.ok, s.err + t.err, s.miss + t.miss, s.latencies + t.latencies)
  }

  lemma MergeDescribes(s: WorkerStats, t: WorkerStats, done: seq<seq<Job<Reply>>>, w: nat, isQuery: bool)
    requires w < |done|
    requires Describes(s, Flatten(done[..w]), isQuery) && Describes(t, done[w], isQuery)
    ensures Describes(Merged(s, t), Flatten(done[..w + 1]), isQuery)
  {
    var a, b := Flatten(done[..w]), done[w];
    assert done[..w + 1][..w] == done[..w];
    assert Flatten(done[..w + 1]) == a + b;
    CountAppend(a, b, Hit);
    CountAppend(a, b, Miss);
    CountAppend(a, b, Failed);
    assert Latencies(a + b) == Latencies(a) + Latencies(b);
  }

  // ---- Counting over all requests ----

  /** The requests below `n` with this outcome. */
  function Asked(answer: nat -> Reply, n: nat, outcome: Outcome): set<nat> {
    set t: nat | t < n && answer(t).outcome == outcome
  }

  function HitsIn(tickets: seq<nat>, answer: nat -> Reply, outcome: Outcome): nat {
    if tickets == [] then 0
    else HitsIn(tickets[..|tickets| - 1], answer, outcome)
         + (if answer(tickets[|tickets| - 1]).outcome == outcome then 1 else 0)
  }

  /** The same over the tickets of workers `0..workers`. */
  function DealtHits(owner: seq<nat>, workers: nat, answer: nat -> Reply, outcome: Outcome): nat {
    if workers == 0 then 0
    else DealtHits(owner, workers - 1, answer, outcome)
         + HitsIn(TicketsOf(0, owner, workers - 1), answer, outcome)
  }

  function Total(answer: nat -> Reply): nat -> Option<Reply> {
    (t: nat) => Some(answer(t))
  }

  lemma {:induction false} CountIsHits(jobs: seq<Job<Reply>>, answer: nat -> Reply, outcome: Outcome)
    requires forall k | 0 <= k < |jobs| :: AnsweredBy(jobs[k], Total(answer))
    ensures Count(jobs, outcome) == HitsIn(TicketsDone(jobs), answer, outcome)
  {
    if jobs != [] {
      var n := |jobs| - 1;
      CountIsHits(jobs[..n], answer, outcome);
      assert TicketsDone(jobs)[..n] == TicketsDone(jobs[..n]);
      assert AnsweredBy(jobs[n], Total(answer));
    }
  }

  lemma {:induction false} CountIsDealtHits(done: seq<seq<Job<Reply>>>, owner: seq<nat>, workers: nat,
                                            answer: nat -> Reply, outcome: Outcome)
    requires workers <= |done| && Answered(done, Total(answer))
    requires forall w | 0 <= w < |done| :: Kept(done[w], TicketsOf(0, owner, w), false)
    ensures Count(Flatten(done[..workers]), outcome) == DealtHits(owner, workers, answer, outcome)
  {
    hide Count, TicketsOf, HitsIn;
    if workers == 0 {
      NothingCounted(outcome);
    } else {
      var w := workers - 1;
      CountIsDealtHits(done, owner, w, answer, outcome);
      assert done[..workers][..w] == done[..w];
      CountAppend(Flatten(done[..w]), done[w], outcome);
      CountIsHits(done[w], answer, outcome);
      assert Kept(done[w], TicketsOf(0, owner, w), false);
    }
  }

  lemma NothingCounted(outcome: Outcome)
    ensures Count([], outcome) == 0
  {
  }

  lemma {:induction false} DealtHitsOneMore(owner: seq<nat>, w: nat, workers: nat,
                                            answer: nat -> Reply, outcome: Outcome)
    ensures DealtHits(owner + [w], workers, answer, outcome) ==
      DealtHits(owner, workers, answer, outcome)
      + (if w < workers && answer(|owner|).outcome == outcome then 1 else 0)
  {
    if workers > 0 {
      var v := workers - 1;
      DealtHitsOneMore(owner, w, v, answer, outcome);
      OneMoreOwner(0, owner, w);
      var taken := TicketsOf(0, owner, v);
      assert (taken + [|owner|])[..|taken|] == taken;
    }
  }

  lemma {:induction false} NothingDealtHits(workers: nat, answer: nat -> Reply, outcome: Outcome)
    ensures DealtHits([], workers, answer, outcome) == 0
  {
    if workers > 0 {
      NothingDealtHits(workers - 1, answer, outcome);
    }
  }

  /** Over all workers every request is counted once, under its own outcome. */
  lemma {:induction false} DealtHitsExactly(owner: seq<nat>, workers: nat, answer: nat -> Reply,
                                            outcome: Outcome)
    requires forall i | 0 <= i < |owner| :: owner[i] < workers
    ensures DealtHits(owner, workers, answer, outcome) == |Asked(answer, |owner|, outcome)|
  {
    if owner == [] {
      NothingDealtHits(workers, answer, outcome);
      assert Asked(answer, 0, outcome) == {};
    } else {
      var n := |owner| - 1;
      DealtHitsExactly(owner[..n], workers, answer, outcome);
      DealtHitsOneMore(owner[..n], owner[n], workers, answer, outcome);
      assert owner == owner[..n] + [owner[n]];
      var before := Asked(answer, n, outcome);
      assert Asked(answer, n + 1, outcome) ==
        if answer(n).outcome == outcome then before + {n} else before;
    }
  }

  lemma AskedExactly(done: seq<seq<Job<Reply>>>, owner: seq<nat>, answer: nat -> Reply)
    requires Answered(done, Total(answer))
    requires forall i | 0 <= i < |owner| :: owner[i] < |done|
    requires forall w | 0 <= w < |done| :: Kept(done[w], TicketsOf(0, owner, w), false)
    ensures forall outcome :: Count(Flatten(done), outcome) == |Asked(answer, |owner|, outcome)|
  {
    hide Count, Flatten, Asked, Answered, Kept;
    assert done[..|done|] == done;
    forall outcome ensures Count(Flatten(done), outcome) == |Asked(answer, |owner|, outcome)| {
      CountIsDealtHits(done, owner, |done|, answer, outcome);
      DealtHitsExactly(owner, |done|, answer, outcome);
    }
  }

  lemma NobodyFails(owner: seq<nat>, lost: set<nat>, answer: nat -> Reply)
    requires forall w | w in lost :: LostOnFailure(0, owner, w, Total(answer))
    ensures lost == {}
  {
    assert forall w :: !LostOnFailure(0, owner, w, Total(answer));
  }

  /** `run_upsert_load` and `run_query_load`: whatever order the workers run in, the merged
      statistics count every request exactly once, under the outcome it had. */
  method RunLoad(requests: nat, concurrency: nat, isQuery: bool, answer: nat -> Reply)
    returns (merged: WorkerStats, counter: nat, done: seq<seq<Job<Reply>>>, ghost owner: seq<nat>)
    requires concurrency > 0
    ensures counter == requests + concurrency
    ensures |owner| == requests && |done| == concurrency
    ensures forall i | 0 <= i < |owner| :: owner[i] < concurrency
    ensures forall w | 0 <= w < concurrency :: Kept(done[w], TicketsOf(0, owner, w), false)
    ensures Describes(merged, Flatten(done), isQuery)
    ensures merged.ok + merged.err == requests == |merged.latencies| && merged.miss <= merged.ok
    ensures merged.err == |Asked(answer, requests, Failed)|
    ensures merged.ok == |Asked(answer, requests, Hit)| + |Asked(answer, requests, Miss)|
    ensures merged.miss == if isQuery then |Asked(answer, requests, Miss)| else 0
    ensures Answered(done, Total(answer))
    ensures merged.err == |AllPlaces(done, Failed, concurrency)|
    ensures merged.ok == |AllPlaces(done, Hit, concurrency)| + |AllPlaces(done, Miss, concurrency)|
    ensures merged.miss == if isQuery then |AllPlaces(done, Miss, concurrency)| else 0
    ensures |Flatten(done)| == requests
    ensures forall k | 0 <= k < requests :: merged.latencies[k] == Flatten(done)[k].result.micros
  {
    hide Describes, Flatten, Kept, TicketsOf, AllPlaces, Asked, Answered, LostOnFailure, Total,
      Workers;
    var lost: set<nat>;
    counter, done, lost, owner := RunWorkers<Reply>(0, requests, concurrency, Total(answer));
    NobodyFails(owner, lost, answer);
    merged := WorkerStats(0, 0, 0, []);
    NothingDescribed(done, isQuery);
    for w := 0 to concurrency
      invariant Describes(merged, Flatten(done[..w]), isQuery)
    {
      var s := Tally(done[w], isQuery);
      MergeDescribes(merged, s, done, w, isQuery);
      merged := WorkerStats(merged.ok + s.ok, merged.err + s.err, merged.miss + s.miss,
                            merged.latencies + s.latencies);
    }
    assert done[..concurrency] == done;
    LoadTotals(merged, done, owner, answer, isQuery);
  }

  lemma LoadTotals(merged: WorkerStats, done: seq<seq<Job<Reply>>>, owner: seq<nat>,
                   answer: nat -> Reply, isQuery: bool)
    requires Describes(merged, Flatten(done), isQuery) && Answered(done, Total(answer))
    requires forall i | 0 <= i < |owner| :: owner[i] < |done|
    requires forall w | 0 <= w < |done| :: Kept(done[w], TicketsOf(0, owner, w), false)
    ensures merged.ok + merged.err == |owner| == |merged.latencies| && merged.miss <= merged.ok
    ensures merged.err == |Asked(answer, |owner|, Failed)| == |AllPlaces(done, Failed, |done|)|
    ensures merged.ok == |Asked(answer, |owner|, Hit)| + |Asked(answer, |owner|, Miss)|
    ensures merged.ok == |AllPlaces(done, Hit, |done|)| + |AllPlaces(done, Miss, |done|)|
    ensures merged.miss == if isQuery then |Asked(answer, |owner|, Miss)| else 0
    ensures |Asked(answer, |owner|, Miss)| == |AllPlaces(done, Miss, |done|)|
    ensures |Flatten(done)| == |owner|
    ensures forall k | 0 <= k < |owner| :: merged.latencies[k] == Flatten(done)[k].result.micros
  {
    hide *;
    EveryRequestDone(done, owner);
    DescribedTotals(merged, Flatten(done), isQuery);
    CountsOfAll(done, |done|);
    AskedExactly(done, owner, answer);
    DescribedCounts(merged, Flatten(done), isQuery);
  }

  lemma CountsOfAll(done: seq<seq<Job<Reply>>>, workers: nat)
    requires workers == |done|
    ensures forall outcome :: Count(Flatten(done), outcome) == |AllPlaces(done, outcome, workers)|
  {
    assert done[..workers] == done;
    forall outcome
      ensures Count(Flatten(done), outcome) == |AllPlaces(done, outcome, workers)|
    {
      CountAllExactly(done, outcome, workers);
    }
  }

  lemma DescribedCounts(s: WorkerStats, jobs: seq<Job<Reply>>, isQuery: bool)
    requires Describes(s, jobs, isQuery)
    ensures s.err == Count(jobs, Failed) && s.ok == Count(jobs, Hit) + Count(jobs, Miss)
    ensures s.miss == (if isQuery then Count(jobs, Miss) else 0)
    ensures |s.latencies| == |jobs|
    ensures forall k | 0 <= k < |jobs| :: s.latencies[k] == jobs[k].result.micros
  {
  }

  /** Joining the workers' results keeps every one of them. */
  lemma {:induction false} FlattenKeeps<T>(parts: seq<seq<T>>, w: nat, i: nat) returns (k: nat)
    requires w < |parts| && i < |parts[w]|
    ensures k < |Flatten(parts)| && Flatten(parts)[k] == parts[w][i]
  {
    var n := |parts| - 1;
    if w == n {
      k := |Flatten(parts[..n])| + i;
    } else {
      k := FlattenKeeps(parts[..n], w, i);
    }
  }

  lemma NothingDescribed(done: seq<seq<Job<Reply>>>, isQuery: bool)
    ensures Describes(WorkerStats(0, 0, 0, []), Flatten(done[..0]), isQuery)
  {
  }

  lemma DescribedTotals(s: WorkerStats, jobs: seq<Job<Reply>>, isQuery: bool)
    requires Describes(s, jobs, isQuery)
    ensures s.ok + s.err == |jobs| == |s.latencies| && s.miss <= s.ok
  {
    CountsAddUp(jobs);
  }

  lemma EveryRequestDone(done: seq<seq<Job<Reply>>>, owner: seq<nat>)
    requires forall i | 0 <= i < |owner| :: owner[i] < |done|
    requires forall w | 0 <= w < |done| :: Kept(done[w], TicketsOf(0, owner, w), false)
    ensures |Flatten(done)| == |owner|
  {
    FlattenJobs(done, 0, owner);
    AllDealt(0, owner, |done|);
  }

  // ---- Node setup ----

  /** The node ids the server created for one index. */
  datatype Ids = Ids(src: nat, dst: nat)

  datatype SetupError = WorkerFailed

  /** The loop over one worker's results; `ids` are stored at their own index. */
  method FillSlots(slots: array<Option<Ids>>, jobs: seq<Job<Ids>>)
    requires Increasing(TicketsDone(jobs))
    requires forall k | 0 <= k < |jobs| :: jobs[k].ticket < slots.Length
    modifies slots
    ensures forall k | 0 <= k < |jobs| :: slots[jobs[k].ticket] == Some(jobs[k].result)
    ensures forall t | 0 <= t < slots.Length && t !in TicketsDone(jobs) :: slots[t] == old(slots[t])
  {
    for i := 0 to |jobs|
      invariant forall k | 0 <= k < i :: slots[jobs[k].ticket] == Some(jobs[k].result)
      invariant forall t | 0 <= t < slots.Length && t !in TicketsDone(jobs) :: slots[t] == old(slots[t])
    {
      var ticket := jobs[i].ticket;
      assert ticket == TicketsDone(jobs)[i];
      forall k | 0 <= k < i ensures jobs[k].ticket != ticket {
        assert TicketsDone(jobs)[k] == jobs[k].ticket;
      }
      slots[ticket] := Some(jobs[i].result);
    }
  }

  /** The results of workers `0..w` are in their slots. */
  ghost predicate Filled(slots: seq<Option<Ids>>, done: seq<seq<Job<Ids>>>, owner: seq<nat>, w: nat)
    requires w <= |done| && |slots| == |owner|
  {
    && (forall t | 0 <= t < |owner| && owner[t] < w :: slots[t].Some?)
    && (forall v, k | 0 <= v < w && 0 <= k < |done[v]| ::
          done[v][k].ticket < |slots| && slots[done[v][k].ticket] == Some(done[v][k].result))
  }

  lemma TicketsInRange(jobs: seq<Job<Ids>>, owner: seq<nat>, w: nat)
    requires Kept(jobs, TicketsOf(0, owner, w), false)
    ensures Increasing(TicketsDone(jobs))
    ensures forall k | 0 <= k < |jobs| :: jobs[k].ticket < |owner| && owner[jobs[k].ticket] == w
    ensures forall t | 0 <= t < |owner| && owner[t] == w :: t in TicketsDone(jobs)
  {
    TicketsIncrease(0, owner, w);
    forall t: nat
      ensures t in TicketsDone(jobs) <==> t < |owner| && owner[t] == w
    {
      TicketsOfExactly(0, owner, w, t);
    }
    forall k | 0 <= k < |jobs| ensures jobs[k].ticket < |owner| && owner[jobs[k].ticket] == w {
      assert TicketsDone(jobs)[k] in TicketsDone(jobs);
    }
  }

  lemma FilledOneMore(before: seq<Option<Ids>>, after: seq<Option<Ids>>,
                      done: seq<seq<Job<Ids>>>, owner: seq<nat>, w: nat)
    requires w < |done| && |before| == |after| == |owner| && Filled(before, done, owner, w)
    requires Kept(done[w], TicketsOf(0, owner, w), false)
    requires forall v | 0 <= v < w :: Kept(done[v], TicketsOf(0, owner, v), false)
    requires forall k | 0 <= k < |done[w]| ::
      done[w][k].ticket < |after| && after[done[w][k].ticket] == Some(done[w][k].result)
    requires forall t | 0 <= t < |after| && t !in TicketsDone(done[w]) :: after[t] == before[t]
    ensures Filled(after, done, owner, w + 1)
  {
    TicketsInRange(done[w], owner, w);
    forall t | 0 <= t < |owner| && owner[t] < w + 1 ensures after[t].Some? {
      if owner[t] == w {
        var k :| 0 <= k < |done[w]| && TicketsDone(done[w])[k] == t;
      } else {
        TicketsOfExactly(0, owner, w, t);
      }
    }
    forall v, k | 0 <= v < w && 0 <= k < |done[v]|
      ensures after[done[v][k].ticket] == Some(done[v][k].result)
    {
      TicketsInRange(done[v], owner, v);
      TicketsOfExactly(0, owner, w, done[v][k].ticket);
    }
  }

  lemma SomeoneStopped(lost: set<nat>, workers: nat, w: nat)
    requires lost <= Workers(workers) && w < workers && w !in lost
    ensures |lost| < workers
  {
    assert lost < Workers(workers);
    SmallerSet(lost, Workers(workers));
  }

  lemma SmallerSet(a: set<nat>, b: set<nat>)
    requires a < b
    ensures |a| < |b|
  {
    assert b == a + (b - a);
  }

  lemma NobodyLost(lost: set<nat>, workers: nat)
    requires lost <= Workers(workers) && forall v | v in lost :: workers <= v
    ensures lost == {}
  {
    assert forall v | v in lost :: v in Workers(workers);
  }

  lemma NothingFilled(slots: seq<Option<Ids>>, done: seq<seq<Job<Ids>>>, owner: seq<nat>)
    requires |slots| == |owner|
    ensures Filled(slots, done, owner, 0)
  {
  }

  lemma AllFilled(slots: seq<Option<Ids>>, done: seq<seq<Job<Ids>>>, owner: seq<nat>)
    requires |slots| == |owner| && Filled(slots, done, owner, |done|)
    requires forall i | 0 <= i < |owner| :: owner[i] < |done|
    ensures forall t | 0 <= t < |slots| :: slots[t].Some?
    ensures forall v, k | 0 <= v < |done| && 0 <= k < |done[v]| ::
      done[v][k].ticket < |slots| && slots[done[v][k].ticket] == Some(done[v][k].result)
  {
  }

  lemma SlotsAnswered(slots: seq<Option<Ids>>, done: seq<seq<Job<Ids>>>, owner: seq<nat>,
                      answer: nat -> Option<Ids>)
    requires |slots| == |owner| && Answered(done, answer)
    requires forall i | 0 <= i < |owner| :: owner[i] < |done|
    requires forall w | 0 <= w < |done| :: Kept(done[w], TicketsOf(0, owner, w), false)
    requires forall v, k | 0 <= v < |done| && 0 <= k < |done[v]| ::
      done[v][k].ticket < |slots| && slots[done[v][k].ticket] == Some(done[v][k].result)
    ensures forall t | 0 <= t < |slots| :: answer(t) == slots[t]
  {
    forall t | 0 <= t < |slots| ensures answer(t) == slots[t] {
      var w := owner[t];
      TicketsInRange(done[w], owner, w);
      var k :| 0 <= k < |TicketsDone(done[w])| && TicketsDone(done[w])[k] == t;
      assert AnsweredBy(done[w][k], answer);
    }
  }

  /** `prepare_workload_data`: it succeeds exactly when every index got its nodes, and then
      every slot holds the ids created for that very index. */
  method PrepareWorkload(pairCount: nat, concurrency: nat, answer: nat -> Option<Ids>)
    returns (r: Result<seq<Ids>, SetupError>, done: seq<seq<Job<Ids>>>, lost: set<nat>,
             ghost owner: seq<nat>)
    ensures |done| == if concurrency >= 2 then concurrency / 2 else 1
    ensures r.Ok? <==> lost == {}
    ensures r.Ok? <==> forall t: nat | t < pairCount :: answer(t).Some?
    ensures r.Err? ==> r.error == WorkerFailed
    ensures r.Ok? ==> |r.value| == pairCount == |owner|
    ensures r.Ok? ==> forall t | 0 <= t < pairCount :: answer(t) == Some(r.value[t])
    ensures forall i | 0 <= i < |owner| :: owner[i] < |done|
    ensures forall w | 0 <= w < |done| :: Kept(done[w], TicketsOf(0, owner, w), w in lost)
    ensures r.Ok? ==> forall w, k | 0 <= w < |done| && 0 <= k < |done[w]| ::
      done[w][k].ticket < pairCount && r.value[done[w][k].ticket] == done[w][k].result
  {
    hide Filled, Kept, TicketsOf, TicketsDone, Workers, Increasing, Answered, LostOnFailure;
    var workers := Max(1, concurrency / 2);
    assert workers > 0;
    hide Max;
    var counter: nat;
    counter, done, lost, owner := RunWorkers<Ids>(0, pairCount, workers, answer);
    LostExactly(0, pairCount, owner, done, lost, answer);
    var slots := new Option<Ids>[pairCount](_ => None);
    if |owner| == pairCount {
      NothingFilled(slots[..], done, owner);
    }
    for w := 0 to workers
      invariant forall v | v in lost :: w <= v
      invariant |owner| == pairCount ==> Filled(slots[..], done, owner, w)
    {
      if w in lost {
        return Err(WorkerFailed), done, lost, owner;
      }
      SomeoneStopped(lost, workers, w);
      TicketsInRange(done[w], owner, w);
      ghost var before := slots[..];
      FillSlots(slots, done[w]);
      FilledOneMore(before, slots[..], done, owner, w);
    }
    NobodyLost(lost, workers);
    AllFilled(slots[..], done, owner);
    SlotsAnswered(slots[..], done, owner, answer);
    var pairs: seq<Ids> := [];
    for i := 0 to pairCount
      invariant |pairs| == i
      invariant forall k | 0 <= k < i :: slots[k] == Some(pairs[k])
    {
      if slots[i].None? {
        assert false; // the program reports missing node ids here: it cannot happen
      }
      pairs := pairs + [slots[i].value];
    }
    return Ok(pairs), done, lost, owner;
  }
}
