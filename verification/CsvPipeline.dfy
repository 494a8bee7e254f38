/** The reading loop and the workers together: what the acknowledged requests say about the
    graph. Batch number `b` of the channel is the `b`-th task that was queued. */
module CsvPipeline {
  import opened Wrappers
  import opened Basics
  import opened CsvRequest
  import opened CsvIngest
  import opened CsvWorkers

  /** What the tasks handed to a stream say, in queue order. */
  function HandedFacts(tasks: seq<Task>, handed: set<nat>): seq<Option<Fact>> {
    if tasks == [] then []
    else
      var n := |tasks| - 1;
      HandedFacts(tasks[..n], handed)
        + (if n in handed then Facts(tasks[n].nodes, tasks[n].edges) else [])
  }

  ghost predicate AllIn(n: nat, handed: set<nat>) {
    forall b: nat | b < n :: b in handed
  }

  lemma {:induction false} HandedFactsUpTo(rows: seq<Row>, handed: set<nat>, k: nat)
    requires k <= |Tasks(rows)|
    ensures var tasks := Tasks(rows)[..k];
      && |HandedFacts(tasks, handed)| <= |QueueFacts(tasks)|
      && (AllIn(k, handed) ==> HandedFacts(tasks, handed) == QueueFacts(tasks))
      && (!AllIn(k, handed) ==> |HandedFacts(tasks, handed)| < |QueueFacts(tasks)|)
  {
    hide Tasks, Batch;
    if k > 0 {
      HandedFactsUpTo(rows, handed, k - 1);
      assert Tasks(rows)[..k][..k - 1] == Tasks(rows)[..k - 1];
      BatchSizes(rows, k - 1);
      assert AllIn(k, handed) <==> AllIn(k - 1, handed) && k - 1 in handed;
    }
  }

  /** The handed tasks say everything the rows say exactly when no task is missing. */
  lemma HandedFactsExactly(rows: seq<Row>, handed: set<nat>)
    ensures HandedFacts(Tasks(rows), handed) == AllRowFacts(rows) <==> AllIn(|Tasks(rows)|, handed)
  {
    hide Tasks, HandedFacts, QueueFacts, AllRowFacts;
    HandedFactsUpTo(rows, handed, |Tasks(rows)|);
    QueueMeaning(rows);
    assert Tasks(rows)[..|Tasks(rows)|] == Tasks(rows);
  }

  lemma NoTasks(rows: seq<Row>)
    ensures Tasks(rows) == [] <==> rows == []
  {
    if rows != [] {
      Quotients(|rows|);
    }
  }

  /** When the file was read without an error, the workers are done, everything is answered
      and no stream reported an error: the acknowledged requests say exactly what the rows
      of the file say, in order, if and only if some worker opened its stream and no send
      failed, or there was no row. */
  lemma PipelineDelivers(records: seq<Option<Row>>, limit: nat, depth: nat, workers: nat,
                         trace: seq<Channel>)
    requires !ReadFails(records, limit) && Run(depth, workers, trace)
    requires var p := trace[|trace| - 1];
      && p.queued == |Tasks(RowsRead(records, Wanted(records, limit)))|
      && AllGone(p) && p.inFlight == 0 && p.streamErrors == 0
    ensures var p, rows := trace[|trace| - 1], RowsRead(records, Wanted(records, limit));
      && |p.handed| == p.ack
      && (HandedFacts(Tasks(rows), p.handed) == AllRowFacts(rows) <==>
            rows == [] || (SomeOpened(p) && NoSendFailed(p)))
  {
    var p, rows := trace[|trace| - 1], RowsRead(records, Wanted(records, limit));
    hide *;
    AnsweredExactly(depth, workers, trace);
    DoneExactly(depth, workers, trace);
    HandedFactsExactly(rows, p.handed);
    NoTasks(rows);
    AllInIs(p);
  }

  lemma AllInIs(p: Channel)
    ensures AllHanded(p) <==> AllIn(p.queued, p.handed)
  {
  }
}
