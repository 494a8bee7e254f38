/** The growth test's main loop: users are ingested in chunks, with a checkpoint whenever
    enough records came in, and the chunks themselves share their users by tickets. */
module Growth {
  import opened Basics
  import opened Wrappers
  import opened Tickets

  datatype Config = Config(
    userCount: nat, edgeCount: nat, checkpointEvery: nat, concurrency: nat)

  /** One ingested chunk: the records the server reported for it, how many workers had a
      stream and how many of those left on a send error. */
  datatype Chunk = Chunk(
    userStart: nat, users: nat, nodes: nat, edges: nat, streams: nat, errors: nat)

  datatype Checkpoint = Checkpoint(
    index: nat, totalNodes: nat, totalEdges: nat, intervalOps: nat, usersKnown: nat)

  datatype GrowthError = WorkerPanicked

  function ChunkSize(cfg: Config): (size: nat)
    ensures size > 0
  {
    Min(Max(cfg.checkpointEvery / 4, 50_000), 500_000)
  }

  /** A quarter of a checkpoint's records, but at least 50000 and at most 500000 users. */
  lemma ChunkSizeExactly(cfg: Config)
    ensures 50_000 <= ChunkSize(cfg) <= 500_000
    ensures 200_000 <= cfg.checkpointEvery <= 2_000_000 ==>
      ChunkSize(cfg) * 4 <= cfg.checkpointEvery < ChunkSize(cfg) * 4 + 4
    ensures cfg.checkpointEvery < 200_000 ==> ChunkSize(cfg) == 50_000
    ensures cfg.checkpointEvery > 2_000_000 ==> ChunkSize(cfg) == 500_000
  {
  }

  function SaturatingSub(a: nat, b: nat): (r: nat)
    ensures a >= b ==> r + b == a
    ensures a <= b ==> r == 0
  {
    if a > b then a - b else 0
  }

  // ---- What a log of chunks adds up to ----

  function NodesOf(log: seq<Chunk>): nat {
    if log == [] then 0 else NodesOf(log[..|log| - 1]) + log[|log| - 1].nodes
  }

  function EdgesOf(log: seq<Chunk>): nat {
    if log == [] then 0 else EdgesOf(log[..|log| - 1]) + log[|log| - 1].edges
  }

  function UsersOf(log: seq<Chunk>): nat {
    if log == [] then 0 else UsersOf(log[..|log| - 1]) + log[|log| - 1].users
  }

  function Records(log: seq<Chunk>): nat {
    NodesOf(log) + EdgesOf(log)
  }

  function IntervalsOf(checkpoints: seq<Checkpoint>): nat {
    if checkpoints == [] then 0
    else IntervalsOf(checkpoints[..|checkpoints| - 1]) + checkpoints[|checkpoints| - 1].intervalOps
  }

  lemma LogGrows(log: seq<Chunk>, c: Chunk)
    ensures NodesOf(log + [c]) == NodesOf(log) + c.nodes
    ensures EdgesOf(log + [c]) == EdgesOf(log) + c.edges
    ensures UsersOf(log + [c]) == UsersOf(log) + c.users
  {
    assert (log + [c])[..|log|] == log;
  }

  /** The loop condition when `log` has been ingested. */
  predicate WantsMore(cfg: Config, log: seq<Chunk>) {
    UsersOf(log) < cfg.userCount && EdgesOf(log) < cfg.edgeCount
  }

  /** Each chunk starts where the one before ended, was started only while users and edges
      were still wanted, and is full unless the users ran out. */
  predicate ChunksInOrder(cfg: Config, log: seq<Chunk>) {
    forall i | 0 <= i < |log| ::
      && WantsMore(cfg, log[..i])
      && log[i].userStart == UsersOf(log[..i])
      && log[i].users == Min(ChunkSize(cfg), cfg.userCount - UsersOf(log[..i]))
  }

  /** Checkpoint `k` was taken right after some chunk and reports the totals up to it; its
      interval runs from the chunk of the checkpoint before. */
  predicate CheckpointAfter(initialNodes: nat, log: seq<Chunk>, checkpoints: seq<Checkpoint>,
                            marks: seq<nat>, k: nat)
    requires k < |checkpoints| == |marks|
  {
    var from := if k == 0 then 0 else marks[k - 1];
    && from < marks[k] <= |log|
    && checkpoints[k] == Checkpoint(
         k + 1, initialNodes + NodesOf(log[..marks[k]]), EdgesOf(log[..marks[k]]),
         SaturatingSub(Records(log[..marks[k]]), Records(log[..from])), UsersOf(log[..marks[k]]))
  }

  /** After `from` no chunk before `to` brought a checkpoint's worth of records: none was due. */
  predicate NoneDue(cfg: Config, log: seq<Chunk>, from: nat, to: nat) {
    && from <= |log| && to <= |log| + 1
    && forall n | from < n < to ::
         Records(log[..n]) < Records(log[..from]) + cfg.checkpointEvery
  }

  /** Where the stretch of chunks before checkpoint `k` starts. */
  function MarkBefore(marks: seq<nat>, k: nat): nat
    requires k <= |marks|
  {
    if k == 0 then 0 else marks[k - 1]
  }

  function LastMark(marks: seq<nat>): nat {
    if marks == [] then 0 else marks[|marks| - 1]
  }

  /** Every checkpoint was taken as soon as one was due, and none is due after the last. */
  predicate Prompt(cfg: Config, log: seq<Chunk>, marks: seq<nat>) {
    && (forall k | 0 <= k < |marks| :: NoneDue(cfg, log, MarkBefore(marks, k), marks[k]))
    && NoneDue(cfg, log, LastMark(marks), |log| + 1)
  }

  lemma NoneDueStays(cfg: Config, log: seq<Chunk>, c: Chunk, from: nat, to: nat)
    requires NoneDue(cfg, log, from, to)
    ensures NoneDue(cfg, log + [c], from, to)
  {
    var longer := log + [c];
    assert longer[..from] == log[..from];
    forall n | from < n < to
      ensures Records(longer[..n]) < Records(longer[..from]) + cfg.checkpointEvery
    {
      assert longer[..n] == log[..n];
    }
  }

  lemma NoneDueGrows(cfg: Config, log: seq<Chunk>, c: Chunk, from: nat)
    requires NoneDue(cfg, log, from, |log| + 1)
    requires Records(log + [c]) < Records(log[..from]) + cfg.checkpointEvery
    ensures NoneDue(cfg, log + [c], from, |log| + 2)
  {
    hide Records;
    var longer := log + [c];
    NoneDueStays(cfg, log, c, from, |log| + 1);
    assert longer[..|longer|] == longer && longer[..from] == log[..from];
  }

  lemma EarlierStaysPrompt(cfg: Config, log: seq<Chunk>, c: Chunk, marks: seq<nat>)
    requires Prompt(cfg, log, marks)
    ensures forall k | 0 <= k < |marks| ::
      NoneDue(cfg, log + [c], MarkBefore(marks, k), marks[k])
  {
    forall k | 0 <= k < |marks|
      ensures NoneDue(cfg, log + [c], MarkBefore(marks, k), marks[k])
    {
      NoneDueStays(cfg, log, c, MarkBefore(marks, k), marks[k]);
    }
  }

  /** One more chunk with no checkpoint due after it. */
  lemma PromptWithout(cfg: Config, log: seq<Chunk>, c: Chunk, marks: seq<nat>)
    requires Prompt(cfg, log, marks)
    requires LastMark(marks) <= |log|
    requires Records(log + [c]) < Records(log[..LastMark(marks)]) + cfg.checkpointEvery
    ensures Prompt(cfg, log + [c], marks)
  {
    hide NoneDue;
    EarlierStaysPrompt(cfg, log, c, marks);
    NoneDueGrows(cfg, log, c, LastMark(marks));
  }

  /** One more chunk and a checkpoint after it. */
  lemma PromptWith(cfg: Config, log: seq<Chunk>, c: Chunk, marks: seq<nat>)
    requires Prompt(cfg, log, marks)
    ensures Prompt(cfg, log + [c], marks + [|log| + 1])
  {
    var n, longer, newMarks := |log| + 1, log + [c], marks + [|log| + 1];
    NothingDueYet(cfg, longer);
    hide NoneDue;
    EarlierStaysPrompt(cfg, log, c, marks);
    NoneDueStays(cfg, log, c, LastMark(marks), n);
    forall k | 0 <= k < |newMarks|
      ensures NoneDue(cfg, longer, MarkBefore(newMarks, k), newMarks[k])
    {
      assert MarkBefore(newMarks, k) == MarkBefore(marks, k);
      if k < |marks| {
        assert newMarks[k] == marks[k];
      }
    }
  }

  lemma NothingDueYet(cfg: Config, log: seq<Chunk>)
    ensures NoneDue(cfg, log, |log|, |log| + 1)
  {
  }

  predicate CheckpointsReport(initialNodes: nat, log: seq<Chunk>, checkpoints: seq<Checkpoint>,
                              marks: seq<nat>)
  {
    |checkpoints| == |marks|
    && forall k | 0 <= k < |checkpoints| :: CheckpointAfter(initialNodes, log, checkpoints, marks, k)
  }

  /** All checkpoints but the last cover at least `checkpointEvery` records. */
  predicate IntervalsLongEnough(cfg: Config, checkpoints: seq<Checkpoint>, count: nat)
    requires count <= |checkpoints|
  {
    forall k | 0 <= k < count :: checkpoints[k].intervalOps >= cfg.checkpointEvery
  }

  // ---- One chunk ----

  /** Every user id of the range is among `sent`. */
  ghost predicate Covered(from: nat, end: nat, sent: set<nat>) {
    forall u: nat | from <= u < end :: u in sent
  }

  /** Some worker had a stream and none left on an error. */
  predicate Complete(c: Chunk) {
    c.streams > 0 && c.errors == 0
  }

  /** What happens while a chunk is ingested: how many workers get a stream, what the server
      reports, and whether all worker tasks can be joined. */
  datatype World = World(streams: nat, nodes: nat, edges: nat, joined: bool)

  /** The sends of all users of the range succeed. */
  ghost predicate AllSendsOk(from: nat, end: nat, sendOk: nat -> bool) {
    forall u: nat | from <= u < end :: sendOk(u)
  }

  function SendAnswer(sendOk: nat -> bool): nat -> Option<bool> {
    (u: nat) => if sendOk(u) then Some(true) else None
  }

  /** `ingest_user_chunk`. Workers that cannot open a stream take no tickets; a worker whose
      send fails leaves with its ticket. */
  method IngestChunk(userStart: nat, users: nat, concurrency: nat, world: World,
                     sendOk: nat -> bool)
    returns (r: Result<Chunk, GrowthError>, ghost sent: set<nat>)
    requires users > 0
    ensures r == Err(WorkerPanicked) || r.Ok?
    ensures r.Ok? <==> world.joined
    ensures r.Ok? ==> r.value.userStart == userStart && r.value.users == users
    ensures r.Ok? ==> r.value.nodes == world.nodes && r.value.edges == world.edges
    ensures r.Ok? ==> r.value.streams == Min(world.streams, concurrency)
    ensures r.Ok? ==> r.value.errors <= r.value.streams
    ensures r.Ok? ==> (Complete(r.value) <==>
      r.value.streams > 0 && AllSendsOk(userStart, userStart + users, sendOk))
    ensures forall t | t in sent :: userStart <= t < userStart + users
    ensures r.Ok? ==> (Covered(userStart, userStart + users, sent) <==> Complete(r.value))
  {
    var streams := Min(world.streams, concurrency);
    hide Kept, TicketsOf, Answered, LostOnFailure, Finished, SendAnswer, Workers, AllSendsOk;
    var counter: nat, lost: set<nat>;
    ghost var owner: seq<nat>;
    var done: seq<seq<Job<bool>>>;
    counter, done, lost, owner :=
      RunWorkers<bool>(userStart, userStart + users, streams, SendAnswer(sendOk));
    OwnersWithin(userStart, userStart + users, streams, counter, |owner|, lost);
    ChunkLost(userStart, userStart + users, owner, done, lost, sendOk);
    var errors := |lost|;
    sent := set t: nat | userStart <= t < userStart + users && Finished(done, t);
    assert Covered(userStart, userStart + users, sent) <==> streams > 0 && errors == 0 by {
      AllFinishedExactly(userStart, userStart + users, owner, done, lost);
      assert forall t: nat | userStart <= t < userStart + users :: t in sent <==> Finished(done, t);
    }
    r := if world.joined
      then Ok(Chunk(userStart, users, world.nodes, world.edges, streams, errors))
      else Err(WorkerPanicked);
  }

  lemma OwnersWithin(start: nat, end: nat, workers: nat, counter: nat, dealt: nat, lost: set<nat>)
    requires start + dealt == Min(counter, end) && |lost| <= workers
    requires |lost| < workers ==> counter == end + (workers - |lost|)
    ensures start + dealt <= end
    ensures workers > 0 && lost == {} ==> start + dealt == end
    ensures |lost| == 0 <==> lost == {}
  {
  }

  lemma ChunkLost(start: nat, end: nat, owner: seq<nat>, done: seq<seq<Job<bool>>>, lost: set<nat>,
                  sendOk: nat -> bool)
    requires start <= end && start + |owner| <= end && lost <= Workers(|done|)
    requires |done| > 0 && lost == {} ==> start + |owner| == end
    requires forall i | 0 <= i < |owner| :: owner[i] < |done|
    requires forall w | 0 <= w < |done| :: Kept(done[w], TicketsOf(start, owner, w), w in lost)
    requires Answered(done, SendAnswer(sendOk))
    requires forall w | w in lost :: LostOnFailure(start, owner, w, SendAnswer(sendOk))
    ensures lost == {} <==> |done| == 0 || AllSendsOk(start, end, sendOk)
  {
    LostExactly(start, end, owner, done, lost, SendAnswer(sendOk));
    assert forall u: nat :: SendAnswer(sendOk)(u).Some? <==> sendOk(u);
  }

  /** The chunk holds what happened, and it is complete exactly when some worker had a stream
      and all sends succeeded. */
  ghost predicate AsReported(cfg: Config, c: Chunk, world: World, sendOk: nat -> bool) {
    && world.joined && c.nodes == world.nodes && c.edges == world.edges
    && c.streams == Min(world.streams, cfg.concurrency)
    && (Complete(c) <==> c.streams > 0 && AllSendsOk(c.userStart, c.userStart + c.users, sendOk))
  }

  // ---- The loop ----

  /** The loop's counters. */
  datatype Totals = Totals(
    totalNodes: nat, totalEdges: nat, edgesRemaining: nat, userCursor: nat,
    cumulativeRecords: nat, intervalRecords: nat, nextCheckpoint: nat)

  /** The counters are what the chunks so far add up to. */
  predicate Tracked(cfg: Config, initialNodes: nat, log: seq<Chunk>, marks: seq<nat>, t: Totals) {
    && LastMark(marks) <= |log|
    && t.totalNodes == initialNodes + NodesOf(log)
    && t.totalEdges == EdgesOf(log)
    && t.edgesRemaining == SaturatingSub(cfg.edgeCount, EdgesOf(log))
    && t.userCursor == UsersOf(log) <= cfg.userCount
    && t.cumulativeRecords == Records(log)
    && t.intervalRecords + Records(log[..LastMark(marks)]) == Records(log)
    && t.nextCheckpoint == Records(log[..LastMark(marks)]) + cfg.checkpointEvery
  }

  predicate Checked(cfg: Config, initialNodes: nat, log: seq<Chunk>, marks: seq<nat>,
                    checkpoints: seq<Checkpoint>, t: Totals)
  {
    && CheckpointsReport(initialNodes, log, checkpoints, marks)
    && IntervalsOf(checkpoints) + t.intervalRecords == t.cumulativeRecords
    && IntervalsLongEnough(cfg, checkpoints, if checkpoints == [] then 0 else |checkpoints| - 1)
    && (WantsMore(cfg, log) ==> IntervalsLongEnough(cfg, checkpoints, |checkpoints|))
    && (!WantsMore(cfg, log) ==> t.intervalRecords == 0)
    && Prompt(cfg, log, marks)
  }

  function AddChunk(t: Totals, c: Chunk): Totals {
    Totals(t.totalNodes + c.nodes, t.totalEdges + c.edges,
           SaturatingSub(t.edgesRemaining, c.edges), t.userCursor + c.users,
           t.cumulativeRecords + (c.nodes + c.edges), t.intervalRecords + (c.nodes + c.edges),
           t.nextCheckpoint)
  }

  lemma ChunkTracked(cfg: Config, initialNodes: nat, log: seq<Chunk>, marks: seq<nat>, t: Totals,
                     c: Chunk)
    requires Tracked(cfg, initialNodes, log, marks, t) && ChunksInOrder(cfg, log)
    requires WantsMore(cfg, log) && c.userStart == t.userCursor
    requires c.users == Min(ChunkSize(cfg), cfg.userCount - t.userCursor)
    ensures Tracked(cfg, initialNodes, log + [c], marks, AddChunk(t, c))
    ensures ChunksInOrder(cfg, log + [c])
  {
    LogGrows(log, c);
    var longer := log + [c];
    assert longer[..LastMark(marks)] == log[..LastMark(marks)];
    forall i | 0 <= i < |longer|
      ensures WantsMore(cfg, longer[..i]) && longer[i].userStart == UsersOf(longer[..i])
      ensures longer[i].users == Min(ChunkSize(cfg), cfg.userCount - UsersOf(longer[..i]))
    {
      assert longer[..i] == log[..i];
      assert log[..|log|] == log;
    }
  }

  lemma ReportsStay(initialNodes: nat, log: seq<Chunk>, c: Chunk, checkpoints: seq<Checkpoint>,
                    marks: seq<nat>)
    requires CheckpointsReport(initialNodes, log, checkpoints, marks)
    ensures CheckpointsReport(initialNodes, log + [c], checkpoints, marks)
  {
    var longer := log + [c];
    forall k | 0 <= k < |checkpoints|
      ensures CheckpointAfter(initialNodes, longer, checkpoints, marks, k)
    {
      assert CheckpointAfter(initialNodes, log, checkpoints, marks, k);
      assert longer[..marks[k]] == log[..marks[k]];
      if k > 0 {
        assert CheckpointAfter(initialNodes, log, checkpoints, marks, k - 1);
        assert longer[..marks[k - 1]] == log[..marks[k - 1]];
      }
    }
  }

  /** The checkpoint taken after the last chunk of `log`. */
  function NewCheckpoint(index: nat, t: Totals): Checkpoint {
    Checkpoint(index, t.totalNodes, t.totalEdges, t.intervalRecords, t.userCursor)
  }

  lemma CheckpointReports(cfg: Config, initialNodes: nat, log: seq<Chunk>, marks: seq<nat>,
                          checkpoints: seq<Checkpoint>, t: Totals)
    requires Tracked(cfg, initialNodes, log, marks, t) && LastMark(marks) < |log|
    requires CheckpointsReport(initialNodes, log, checkpoints, marks)
    ensures CheckpointsReport(initialNodes, log,
      checkpoints + [NewCheckpoint(|checkpoints| + 1, t)], marks + [|log|])
  {
    var longer, newMarks := checkpoints + [NewCheckpoint(|checkpoints| + 1, t)], marks + [|log|];
    assert log[..|log|] == log;
    forall k | 0 <= k < |longer| ensures CheckpointAfter(initialNodes, log, longer, newMarks, k) {
      if k < |checkpoints| {
        assert CheckpointAfter(initialNodes, log, checkpoints, marks, k);
      }
    }
  }

  lemma IntervalsGrow(checkpoints: seq<Checkpoint>, cp: Checkpoint)
    ensures IntervalsOf(checkpoints + [cp]) == IntervalsOf(checkpoints) + cp.intervalOps
  {
    assert (checkpoints + [cp])[..|checkpoints|] == checkpoints;
  }

  function AfterCheckpoint(cfg: Config, t: Totals): Totals {
    t.(intervalRecords := 0, nextCheckpoint := t.cumulativeRecords + cfg.checkpointEvery)
  }

  /** One pass through the loop body keeps the accounts, with or without a checkpoint. */
  lemma PassKeepsAccounts(cfg: Config, initialNodes: nat, log: seq<Chunk>, marks: seq<nat>,
                          checkpoints: seq<Checkpoint>, t: Totals, c: Chunk)
    requires Tracked(cfg, initialNodes, log, marks, t) && ChunksInOrder(cfg, log)
    requires Checked(cfg, initialNodes, log, marks, checkpoints, t) && WantsMore(cfg, log)
    requires c.userStart == t.userCursor
    requires c.users == Min(ChunkSize(cfg), cfg.userCount - t.userCursor)
    ensures var longer, u := log + [c], AddChunk(t, c);
            var due := u.cumulativeRecords >= u.nextCheckpoint
              || u.userCursor >= cfg.userCount || u.edgesRemaining == 0;
      && ChunksInOrder(cfg, longer)
      && (!due ==> Tracked(cfg, initialNodes, longer, marks, u)
                   && Checked(cfg, initialNodes, longer, marks, checkpoints, u))
      && (due ==>
            var cps := checkpoints + [NewCheckpoint(|checkpoints| + 1, u)];
            Tracked(cfg, initialNodes, longer, marks + [|longer|], AfterCheckpoint(cfg, u))
            && Checked(cfg, initialNodes, longer, marks + [|longer|], cps, AfterCheckpoint(cfg, u)))
  {
    hide ChunksInOrder, CheckpointsReport, NodesOf, EdgesOf, UsersOf, IntervalsOf, ChunkSize, Prompt;
    var longer, u := log + [c], AddChunk(t, c);
    ChunkTracked(cfg, initialNodes, log, marks, t, c);
    PromptWith(cfg, log, c, marks);
    if u.cumulativeRecords < u.nextCheckpoint {
      PromptWithout(cfg, log, c, marks);
    }
    ReportsStay(initialNodes, log, c, checkpoints, marks);
    CheckpointReports(cfg, initialNodes, longer, marks, checkpoints, u);
    IntervalsGrow(checkpoints, NewCheckpoint(|checkpoints| + 1, u));
    assert longer[..|longer|] == longer;
  }

  /** The users below the cursor are those sent exactly when all chunks were complete. */
  ghost predicate SentUpTo(cursor: nat, sent: set<nat>, log: seq<Chunk>) {
    && (forall u | u in sent :: u < cursor)
    && (Covered(0, cursor, sent) <==> forall c | c in log :: Complete(c))
  }

  lemma SentGrows(cursor: nat, sent: set<nat>, log: seq<Chunk>, more: set<nat>, c: Chunk)
    requires SentUpTo(cursor, sent, log)
    requires forall u | u in more :: cursor <= u < cursor + c.users
    requires Covered(cursor, cursor + c.users, more) <==> Complete(c)
    ensures SentUpTo(cursor + c.users, sent + more, log + [c])
  {
    var end, all := cursor + c.users, sent + more;
    assert Covered(0, end, all) <==> Covered(0, cursor, sent) && Covered(cursor, end, more) by {
      if Covered(0, end, all) {
        forall u: nat | u < cursor ensures u in sent { assert u in all; }
        forall u: nat | cursor <= u < end ensures u in more { assert u in all; }
      }
    }
  }

  /** The loop of phase 3. The user cursor counts users that were sent only as long as no
      chunk lost a worker or had none. */
  method Grow(cfg: Config, initialNodes: nat, world: nat -> World, sendOk: nat -> bool)
    returns (r: Result<(), GrowthError>, t: Totals, checkpoints: seq<Checkpoint>,
             log: seq<Chunk>, ghost marks: seq<nat>, ghost sent: set<nat>)
    ensures Tracked(cfg, initialNodes, log, marks, t) && ChunksInOrder(cfg, log)
    ensures Checked(cfg, initialNodes, log, marks, checkpoints, t)
    ensures r.Ok? ==> !WantsMore(cfg, log)
    ensures r.Err? ==> WantsMore(cfg, log) && !world(|log|).joined
    ensures forall i | 0 <= i < |log| :: AsReported(cfg, log[i], world(i), sendOk)
    ensures Covered(0, t.userCursor, sent) <==> forall c | c in log :: Complete(c)
    ensures t.userCursor <= cfg.userCount
    ensures t.edgesRemaining == SaturatingSub(cfg.edgeCount, t.totalEdges)
    ensures t.totalNodes + t.totalEdges == initialNodes + t.cumulativeRecords
    ensures t.cumulativeRecords == IntervalsOf(checkpoints) + t.intervalRecords
    ensures IntervalsLongEnough(cfg, checkpoints, if checkpoints == [] then 0 else |checkpoints| - 1)
    ensures r.Ok? ==> t.userCursor == cfg.userCount || t.edgesRemaining == 0
    ensures r.Ok? ==> t.intervalRecords == 0
  {
    hide Tracked, Checked, ChunksInOrder, WantsMore, ChunkSize, Min, SaturatingSub, Complete;
    NothingIngested(cfg, initialNodes);
    var totalNodes: nat, totalEdges: nat, edgesRemaining: nat := initialNodes, 0, cfg.edgeCount;
    var userCursor: nat, cumulativeRecords: nat, intervalRecords: nat := 0, 0, 0;
    var nextCheckpoint: nat, checkpointIdx: nat := cfg.checkpointEvery, 0;
    checkpoints, log, marks, sent := [], [], [], {};
    t := Totals(totalNodes, totalEdges, edgesRemaining, userCursor,
                cumulativeRecords, intervalRecords, nextCheckpoint);
    while userCursor < cfg.userCount && edgesRemaining > 0
      invariant t == Totals(totalNodes, totalEdges, edgesRemaining, userCursor,
                            cumulativeRecords, intervalRecords, nextCheckpoint)
      invariant Tracked(cfg, initialNodes, log, marks, t) && ChunksInOrder(cfg, log)
      invariant Checked(cfg, initialNodes, log, marks, checkpoints, t)
      invariant checkpointIdx == |checkpoints|
      invariant SentUpTo(userCursor, sent, log)
      invariant forall i | 0 <= i < |log| :: AsReported(cfg, log[i], world(i), sendOk)
      decreases cfg.userCount - userCursor
    {
      GuardIsWantsMore(cfg, initialNodes, log, marks, t);
      var usersThisChunk := Min(ChunkSize(cfg), cfg.userCount - userCursor);
      ghost var more: set<nat>;
      var result: Result<Chunk, GrowthError>;
      result, more := IngestChunk(userCursor, usersThisChunk, cfg.concurrency,
                                  world(|log|), sendOk);
      if result.Err? {
        Accounts(cfg, initialNodes, log, marks, checkpoints, t);
        r := Err(result.error);
        return;
      }
      var chunk := result.value;
      PassKeepsAccounts(cfg, initialNodes, log, marks, checkpoints, t, chunk);
      SentGrows(userCursor, sent, log, more, chunk);
      sent := sent + more;
      totalNodes := totalNodes + chunk.nodes;
      totalEdges := totalEdges + chunk.edges;
      edgesRemaining := SaturatingSub(edgesRemaining, chunk.edges);
      userCursor := userCursor + usersThisChunk;
      intervalRecords := intervalRecords + (chunk.nodes + chunk.edges);
      cumulativeRecords := cumulativeRecords + (chunk.nodes + chunk.edges);
      log := log + [chunk];
      if cumulativeRecords >= nextCheckpoint || userCursor >= cfg.userCount || edgesRemaining == 0 {
        checkpointIdx := checkpointIdx + 1;
        var cp := Checkpoint(checkpointIdx, totalNodes, totalEdges, intervalRecords, userCursor);
        checkpoints := checkpoints + [cp];
        marks := marks + [|log|];
        intervalRecords := 0;
        nextCheckpoint := cumulativeRecords + cfg.checkpointEvery;
      }
      t := Totals(totalNodes, totalEdges, edgesRemaining, userCursor,
                  cumulativeRecords, intervalRecords, nextCheckpoint);
    }
    GuardIsWantsMore(cfg, initialNodes, log, marks, t);
    Accounts(cfg, initialNodes, log, marks, checkpoints, t);
    r := Ok(());
  }

  lemma NothingIngested(cfg: Config, initialNodes: nat)
    ensures var t := Totals(initialNodes, 0, cfg.edgeCount, 0, 0, 0, cfg.checkpointEvery);
      && Tracked(cfg, initialNodes, [], [], t) && ChunksInOrder(cfg, [])
      && Checked(cfg, initialNodes, [], [], [], t)
  {
  }

  lemma GuardIsWantsMore(cfg: Config, initialNodes: nat, log: seq<Chunk>, marks: seq<nat>, t: Totals)
    requires Tracked(cfg, initialNodes, log, marks, t)
    ensures t.userCursor < cfg.userCount && t.edgesRemaining > 0 <==> WantsMore(cfg, log)
    ensures t.userCursor < cfg.userCount ==>
      0 < Min(ChunkSize(cfg), cfg.userCount - t.userCursor) <= cfg.userCount - t.userCursor
  {
  }

  /** The accounts in terms of the counters alone. */
  lemma Accounts(cfg: Config, initialNodes: nat, log: seq<Chunk>, marks: seq<nat>,
                 checkpoints: seq<Checkpoint>, t: Totals)
    requires Tracked(cfg, initialNodes, log, marks, t)
    requires Checked(cfg, initialNodes, log, marks, checkpoints, t)
    ensures t.userCursor <= cfg.userCount
    ensures t.edgesRemaining == SaturatingSub(cfg.edgeCount, t.totalEdges)
    ensures t.totalNodes + t.totalEdges == initialNodes + t.cumulativeRecords
    ensures t.cumulativeRecords == IntervalsOf(checkpoints) + t.intervalRecords
    ensures IntervalsLongEnough(cfg, checkpoints, if checkpoints == [] then 0 else |checkpoints| - 1)
    ensures !WantsMore(cfg, log) ==> t.userCursor == cfg.userCount || t.edgesRemaining == 0
    ensures !WantsMore(cfg, log) ==> t.intervalRecords == 0
  {
  }

  // ---- A cursor that counts users nobody sent ----

  function OneWorker(): Pool<bool> {
    Pool(0, {0}, map[], {}, {}, [[]], [])
  }

  /** One worker takes the first user of two and leaves on its send error. */
  lemma OnlyWorkerFails()
    ensures var p := Quit(FetchAdd(2, OneWorker(), 0), 0);
      && Tickets.Inv(0, 2, OneWorker()) && Tickets.Inv(0, 2, p)
      && p.running == {} && p.lost == {0} && p.done == [[]]
  {
    FreshPool<bool>(0, 2, 1);
    assert Workers(1) == {0} && [[]] == seq<seq<Job<bool>>>(1, _ => []);
    hide *;
    OneWorkerSteps();
    FetchAddKeepsInv(0, 2, OneWorker(), 0);
    QuitKeepsInv(0, 2, FetchAdd(2, OneWorker(), 0), 0);
  }

  lemma OneWorkerSteps()
    ensures OneWorker() == Pool(0, {0}, map[], {}, {}, [[]], [])
    ensures FetchAdd(2, OneWorker(), 0) == Pool(1, {0}, map[0 := 0], {}, {}, [[]], [0])
    ensures Quit(FetchAdd(2, OneWorker(), 0), 0) == Pool(1, {}, map[], {}, {0}, [[]], [0])
  {
    assert FetchAdd(2, OneWorker(), 0).owner == [0];
  }

  function FailedChunk(): Chunk {
    Chunk(0, 2, 0, 0, 1, 1)
  }

  function StartTotals(cfg: Config): Totals {
    Totals(0, 0, cfg.edgeCount, 0, 0, 0, cfg.checkpointEvery)
  }

  /** After that chunk the loop's cursor stands behind both users, and none was sent. */
  lemma CursorCountsUnsentUsers(cfg: Config)
    requires cfg.userCount == 2 && cfg.edgeCount > 0
    ensures var t := AddChunk(StartTotals(cfg), FailedChunk());
      && ChunksInOrder(cfg, [FailedChunk()]) && Tracked(cfg, 0, [FailedChunk()], [], t)
      && t.userCursor == 2
    ensures SentUpTo(2, {}, [FailedChunk()]) && !Covered(0, 2, {}) && !Complete(FailedChunk())
    ensures var p := Quit(FetchAdd(2, OneWorker(), 0), 0);
      !Finished(p.done, 0) && !Finished(p.done, 1)
  {
    NothingSentOfTwo();
    assert AddChunk(StartTotals(cfg), FailedChunk()).userCursor == 2;
    assert 2 == Min(ChunkSize(cfg), 2) && FailedChunk().users == 2 && FailedChunk().userStart == 0;
    hide *;
    FirstChunkTracked(cfg, FailedChunk());
    OnlyWorkerFails();
    NothingFinished<bool>(0);
    NothingFinished<bool>(1);
  }

  lemma NothingFinished<R>(t: nat)
    ensures !Finished<R>([[]], t)
  {
  }

  lemma FirstChunkTracked(cfg: Config, c: Chunk)
    requires cfg.userCount > 0 && cfg.edgeCount > 0
    requires c.userStart == 0 && c.users == Min(ChunkSize(cfg), cfg.userCount)
    ensures ChunksInOrder(cfg, [c])
    ensures Tracked(cfg, 0, [c], [], AddChunk(StartTotals(cfg), c))
  {
    NothingIngested(cfg, 0);
    assert WantsMore(cfg, []);
    assert [] + [c] == [c];
    hide Tracked, ChunksInOrder, Checked, WantsMore, ChunkSize;
    ChunkTracked(cfg, 0, [], [], StartTotals(cfg), c);
  }

  lemma NothingSentOfTwo()
    ensures SentUpTo(2, {}, [FailedChunk()]) && !Covered(0, 2, {}) && !Complete(FailedChunk())
  {
    var none: set<nat> := {};
    assert FailedChunk() in [FailedChunk()];
    assert 0 !in none && !Covered(0, 2, none);
  }
}
