/** The CSV loop: rows are read, located through a per-IP cache, collected and queued as
    batches of 150. */
module CsvIngest {
  import opened Wrappers
  import opened Decimals
  import opened CsvRequest

  const ROWS_PER_REQUEST: nat := 150

  datatype ReadError = BadRecord

  datatype Task = Task(
    transactionId: string, nodes: seq<Node>, edges: seq<Edge>, nNodes: nat, nEdges: nat)

  // ---- Locations ----

  function GeoOf(row: Row): Geo {
    Geo(row.lat, row.lng)
  }

  /** The first row with the given address. */
  function FirstWithIp(rows: seq<Row>, ip: string): (i: nat)
    requires exists r :: r in rows && r.ipAddress == ip
    ensures i < |rows| && rows[i].ipAddress == ip
    ensures forall k | 0 <= k < i :: rows[k].ipAddress != ip
  {
    if rows[0].ipAddress == ip then 0 else 1 + FirstWithIp(rows[1..], ip)
  }

  /** Every row is placed where the first row of the file with its address was. */
  function GeoAt(rows: seq<Row>, j: nat): Geo
    requires j < |rows|
  {
    GeoOf(rows[FirstWithIp(rows, rows[j].ipAddress)])
  }

  function Geos(rows: seq<Row>): (r: seq<Geo>)
    ensures |r| == |rows|
  {
    seq(|rows|, (j: nat) requires j < |rows| => GeoAt(rows, j))
  }

  ghost predicate CacheOf(rows: seq<Row>, cache: map<string, Geo>) {
    && (forall ip :: ip in cache <==> exists r :: r in rows && r.ipAddress == ip)
    && (forall ip | ip in cache :: cache[ip] == GeoOf(rows[FirstWithIp(rows, ip)]))
  }

  lemma FirstIsUnique(rows: seq<Row>, ip: string, i: nat)
    requires i < |rows| && rows[i].ipAddress == ip
    requires forall k | 0 <= k < i :: rows[k].ipAddress != ip
    ensures rows[i] in rows && FirstWithIp(rows, ip) == i
  {
    assert rows[i] in rows;
  }

  lemma FirstStays(rows: seq<Row>, row: Row, ip: string)
    requires exists r :: r in rows && r.ipAddress == ip
    ensures exists r :: r in rows + [row] && r.ipAddress == ip
    ensures FirstWithIp(rows + [row], ip) == FirstWithIp(rows, ip)
  {
    var r :| r in rows && r.ipAddress == ip;
    assert r in rows + [row];
    FirstIsUnique(rows + [row], ip, FirstWithIp(rows, ip));
  }

  lemma GeosGrow(rows: seq<Row>, row: Row)
    ensures Geos(rows + [row]) == Geos(rows) + [GeoAt(rows + [row], |rows|)]
  {
    var longer := rows + [row];
    forall j | 0 <= j < |rows| ensures Geos(longer)[j] == Geos(rows)[j] {
      assert rows[j] in rows;
      FirstStays(rows, row, rows[j].ipAddress);
    }
  }

  /** One lookup with insertion keeps the cache and returns the promised location. */
  lemma CacheStep(rows: seq<Row>, cache: map<string, Geo>, row: Row)
    requires CacheOf(rows, cache)
    ensures var ip := row.ipAddress;
            var next := if ip in cache then cache else cache[ip := GeoOf(row)];
      CacheOf(rows + [row], next) && next[ip] == GeoAt(rows + [row], |rows|)
  {
    var ip, longer := row.ipAddress, rows + [row];
    var next := if ip in cache then cache else cache[ip := GeoOf(row)];
    assert row in longer;
    forall a ensures a in next <==> exists r :: r in longer && r.ipAddress == a {
      if r :| r in longer && r.ipAddress == a { assert r in rows || r == row; }
    }
    forall a | a in next ensures next[a] == GeoOf(longer[FirstWithIp(longer, a)]) {
      if a in cache {
        FirstStays(rows, row, a);
      } else {
        forall k | 0 <= k < |rows| ensures longer[k].ipAddress != a {
          assert rows[k] in rows;
        }
        FirstIsUnique(longer, a, |rows|);
      }
    }
  }

  // ---- What is read ----

  /** How many records come before the first unreadable one. */
  function Readable(records: seq<Option<Row>>): (n: nat)
    ensures n <= |records| && (n < |records| ==> records[n].None?)
    ensures forall i | 0 <= i < n :: records[i].Some?
  {
    if records == [] || records[0].None? then 0 else 1 + Readable(records[1..])
  }

  /** How many rows are processed: up to the limit, if there is one. */
  function Wanted(records: seq<Option<Row>>, limit: nat): (n: nat)
    ensures n <= Readable(records)
  {
    var readable := Readable(records);
    if limit != 0 && limit < readable then limit else readable
  }

  /** An unreadable record is reached before the limit. */
  predicate ReadFails(records: seq<Option<Row>>, limit: nat) {
    Readable(records) < |records| && (limit == 0 || Readable(records) < limit)
  }

  function RowsRead(records: seq<Option<Row>>, n: nat): (r: seq<Row>)
    requires n <= Readable(records)
    ensures |r| == n
  {
    seq(n, (i: nat) requires i < n => records[i].value)
  }

  /** Which rows are processed: all up to the limit, unless an unreadable record comes first;
      they are the records themselves, in order. */
  lemma RowsReadExactly(records: seq<Option<Row>>, limit: nat)
    ensures ReadFails(records, limit) <==>
      exists i: nat :: i < |records| && records[i].None? && (limit == 0 || i < limit)
    ensures var n := Wanted(records, limit);
      && (!ReadFails(records, limit) ==>
            n == if limit == 0 || |records| < limit then |records| else limit)
      && (ReadFails(records, limit) ==> n < |records| && records[n].None?)
      && n <= |records|
      && forall i | 0 <= i < n :: records[i] == Some(RowsRead(records, n)[i])
  {
    if ReadFails(records, limit) {
      assert records[Readable(records)].None?;
    }
  }

  // ---- What is queued ----

  function TaskFor(id: string, rows: seq<Row>, geos: seq<Geo>): Task
    requires |rows| == |geos|
  {
    Task(id, Nodes(rows, geos), Edges(rows), 6 * |rows|, 6 * |rows|)
  }

  /** The id of the full batch that ends with row number `n`. */
  function BatchId(n: nat): string {
    "batch-" + Decimal(n)
  }

  function FinalId(n: nat): string {
    "batch-" + Decimal(n) + "-final"
  }

  function RowsOf(rows: seq<Row>, k: nat): seq<Row>
    requires ROWS_PER_REQUEST * (k + 1) <= |rows|
  {
    rows[ROWS_PER_REQUEST * k..ROWS_PER_REQUEST * (k + 1)]
  }

  function GeosOf(rows: seq<Row>, k: nat): seq<Geo>
    requires ROWS_PER_REQUEST * (k + 1) <= |rows|
  {
    Geos(rows)[ROWS_PER_REQUEST * k..ROWS_PER_REQUEST * (k + 1)]
  }

  function FullTask(rows: seq<Row>, k: nat): Task
    requires ROWS_PER_REQUEST * (k + 1) <= |rows|
  {
    TaskFor(BatchId(ROWS_PER_REQUEST * (k + 1)), RowsOf(rows, k), GeosOf(rows, k))
  }

  /** The first `m` batches of `rows`, 150 rows each. */
  function FullTasks(rows: seq<Row>, m: nat): (r: seq<Task>)
    requires ROWS_PER_REQUEST * m <= |rows|
    ensures |r| == m
  {
    seq(m, (k: nat) requires k < m => FullTask(rows, k))
  }

  /** The rows after the last full batch. */
  function FinalTask(rows: seq<Row>): Task {
    var from := ROWS_PER_REQUEST * (|rows| / ROWS_PER_REQUEST);
    TaskFor(FinalId(|rows|), rows[from..], Geos(rows)[from..])
  }

  /** Everything queued for `rows` when the file was read without an error. */
  function Tasks(rows: seq<Row>): seq<Task> {
    FullTasks(rows, |rows| / ROWS_PER_REQUEST)
    + (if |rows| % ROWS_PER_REQUEST != 0 then [FinalTask(rows)] else [])
  }

  lemma TasksGrow(rows: seq<Row>, row: Row, m: nat)
    requires ROWS_PER_REQUEST * m <= |rows|
    ensures FullTasks(rows + [row], m) == FullTasks(rows, m)
  {
    GeosGrow(rows, row);
    var longer := rows + [row];
    forall k: nat | k < m ensures FullTask(longer, k) == FullTask(rows, k) {
      assert RowsOf(longer, k) == RowsOf(rows, k);
      assert GeosOf(longer, k) == GeosOf(rows, k);
    }
  }

  lemma OneMoreTask(rows: seq<Row>, m: nat)
    requires ROWS_PER_REQUEST * (m + 1) == |rows|
    ensures FullTasks(rows, m + 1) == FullTasks(rows, m) + [FullTask(rows, m)]
  {
    hide FullTask;
  }

  lemma LastSlice(rows: seq<Row>, m: nat)
    requires ROWS_PER_REQUEST * (m + 1) == |rows|
    ensures RowsOf(rows, m) == rows[ROWS_PER_REQUEST * m..]
    ensures GeosOf(rows, m) == Geos(rows)[ROWS_PER_REQUEST * m..]
  {
    hide Geos;
  }

  method Flush(id: string, batchRows: seq<Row>, batchGeos: seq<Geo>) returns (task: Task)
    requires |batchRows| == |batchGeos|
    ensures task == TaskFor(id, batchRows, batchGeos)
  {
    var nodes, edges := BuildBatch(batchRows, batchGeos);
    assert batchRows[..|batchRows|] == batchRows && batchGeos[..|batchRows|] == batchGeos;
    task := Task(id, nodes, edges, |nodes|, |edges|);
  }

  /** The loop's state after `rows`. */
  ghost predicate Collected(rows: seq<Row>, cache: map<string, Geo>, batchRows: seq<Row>,
                            batchGeos: seq<Geo>, queued: seq<Task>) {
    var m := |rows| / ROWS_PER_REQUEST;
    && CacheOf(rows, cache)
    && batchRows == rows[ROWS_PER_REQUEST * m..]
    && batchGeos == Geos(rows)[ROWS_PER_REQUEST * m..]
    && queued == FullTasks(rows, m)
  }

  lemma NothingCollected()
    ensures Collected([], map[], [], [], [])
  {
    assert Geos([])[0..] == [];
  }

  function Located(cache: map<string, Geo>, row: Row): map<string, Geo> {
    if row.ipAddress in cache then cache else cache[row.ipAddress := GeoOf(row)]
  }

  lemma Quotients(n: nat)
    ensures var m := n / ROWS_PER_REQUEST;
      && ROWS_PER_REQUEST * m <= n < ROWS_PER_REQUEST * (m + 1)
      && (n + 1 < ROWS_PER_REQUEST * (m + 1) ==> (n + 1) / ROWS_PER_REQUEST == m)
      && (n + 1 == ROWS_PER_REQUEST * (m + 1) ==> (n + 1) / ROWS_PER_REQUEST == m + 1)
  {
  }

  /** One more row joins the open batch. */
  lemma RowCollected(rows: seq<Row>, row: Row, cache: map<string, Geo>, batchRows: seq<Row>,
                     batchGeos: seq<Geo>, queued: seq<Task>)
    requires Collected(rows, cache, batchRows, batchGeos, queued)
    ensures |batchRows| == |batchGeos| == |rows| % ROWS_PER_REQUEST
    ensures row.ipAddress in Located(cache, row)
    ensures var geo := Located(cache, row)[row.ipAddress];
            var r, g := batchRows + [row], batchGeos + [geo];
            var longer, next := rows + [row], Located(cache, row);
      && (|r| < ROWS_PER_REQUEST ==> Collected(longer, next, r, g, queued))
      && (|r| >= ROWS_PER_REQUEST ==>
            Collected(longer, next, [], [],
                      queued + [TaskFor(BatchId(|longer|), r, g)]))
  {
    hide TaskFor, FullTask, FullTasks, Geos, GeoAt, CacheOf;
    var n := |rows|;
    var m, longer := n / ROWS_PER_REQUEST, rows + [row];
    var from := ROWS_PER_REQUEST * m;
    Quotients(n);
    CacheStep(rows, cache, row);
    GeosGrow(rows, row);
    TasksGrow(rows, row, m);
    assert longer[from..] == batchRows + [row];
    assert Geos(longer)[from..] == batchGeos + [GeoAt(longer, n)];
    if |batchRows| + 1 >= ROWS_PER_REQUEST {
      OneMoreTask(longer, m);
      FullTaskIs(longer, m);
      assert longer[n + 1..] == [] && Geos(longer)[n + 1..] == [];
    }
  }

  lemma FullTaskIs(rows: seq<Row>, m: nat)
    requires ROWS_PER_REQUEST * (m + 1) == |rows|
    ensures FullTask(rows, m) ==
      TaskFor(BatchId(|rows|), rows[ROWS_PER_REQUEST * m..],
              Geos(rows)[ROWS_PER_REQUEST * m..])
  {
    LastSlice(rows, m);
  }

  /** The rest of the rows, if any, becomes the final batch. */
  lemma AllCollected(rows: seq<Row>, cache: map<string, Geo>, batchRows: seq<Row>,
                     batchGeos: seq<Geo>, queued: seq<Task>)
    requires Collected(rows, cache, batchRows, batchGeos, queued)
    ensures |batchRows| == |batchGeos|
    ensures queued == FullTasks(rows, |rows| / ROWS_PER_REQUEST)
    ensures Tasks(rows) == if batchRows == [] then queued
      else queued + [TaskFor(FinalId(|rows|), batchRows, batchGeos)]
  {
    hide TaskFor, FullTask, FullTasks, Geos, CacheOf;
    Quotients(|rows|);
  }

  /** The reading loop of the program: `queued` is what reached the channel. */
  method Ingest(records: seq<Option<Row>>, limit: nat)
    returns (r: Result<nat, ReadError>, queued: seq<Task>)
    ensures var rows := RowsRead(records, Wanted(records, limit));
      if ReadFails(records, limit)
      then r == Err(BadRecord) && queued == FullTasks(rows, |rows| / ROWS_PER_REQUEST)
      else r == Ok(|rows|) && queued == Tasks(rows)
  {
    hide *;
    NothingCollected();
    NoRowsRead(records);
    var cache: map<string, Geo> := map[];
    var globalRow: nat, batchRows: seq<Row>, batchGeos: seq<Geo> := 0, [], [];
    queued := [];
    while true
      invariant globalRow <= Wanted(records, limit)
      invariant Collected(RowsRead(records, globalRow), cache, batchRows, batchGeos, queued)
      decreases |records| - globalRow
    {
      ghost var rows := RowsRead(records, globalRow);
      AllCollected(rows, cache, batchRows, batchGeos, queued);
      ReadStep(records, globalRow, limit);
      if limit != 0 && globalRow >= limit {
        break;
      }
      if globalRow == |records| {
        break;
      }
      if records[globalRow].None? {
        return Err(BadRecord), queued;
      }
      var f := records[globalRow].value;
      OneMoreRead(records, globalRow);
      RowCollected(rows, f, cache, batchRows, batchGeos, queued);
      LocatedIs(cache, f);
      if f.ipAddress !in cache {
        cache := cache[f.ipAddress := GeoOf(f)];
      }
      var geo := cache[f.ipAddress];
      batchRows, batchGeos := batchRows + [f], batchGeos + [geo];
      globalRow := globalRow + 1;
      if |batchRows| >= ROWS_PER_REQUEST {
        var task := Flush(BatchId(globalRow), batchRows, batchGeos);
        queued := queued + [task];
        batchRows, batchGeos := [], [];
      }
    }
    if batchRows != [] {
      var task := Flush(FinalId(globalRow), batchRows, batchGeos);
      queued := queued + [task];
    }
    return Ok(globalRow), queued;
  }

  lemma ReadStep(records: seq<Option<Row>>, n: nat, limit: nat)
    requires n <= Wanted(records, limit)
    ensures n <= |records|
    ensures (limit != 0 && n >= limit) || n == |records| ==>
      n == Wanted(records, limit) && !ReadFails(records, limit)
    ensures (limit == 0 || n < limit) && n < |records| && records[n].None? ==>
      n == Wanted(records, limit) && ReadFails(records, limit)
    ensures (limit == 0 || n < limit) && n < |records| && records[n].Some? ==>
      n < Readable(records) && n + 1 <= Wanted(records, limit)
  {
  }

  lemma NoRowsRead(records: seq<Option<Row>>)
    ensures RowsRead(records, 0) == []
  {
  }

  lemma OneMoreRead(records: seq<Option<Row>>, n: nat)
    requires n < Readable(records)
    ensures RowsRead(records, n + 1) == RowsRead(records, n) + [records[n].value]
  {
  }

  lemma LocatedIs(cache: map<string, Geo>, row: Row)
    ensures Located(cache, row) ==
      if row.ipAddress in cache then cache else cache[row.ipAddress := GeoOf(row)]
  {
  }

  // ---- What the queue holds ----

  /** The rows packed into task `k`. */
  function Batch(rows: seq<Row>, k: nat): seq<Row>
    requires ROWS_PER_REQUEST * k < |rows|
  {
    rows[ROWS_PER_REQUEST * k..
         if ROWS_PER_REQUEST * (k + 1) < |rows| then ROWS_PER_REQUEST * (k + 1) else |rows|]
  }

  function BatchGeos(rows: seq<Row>, k: nat): seq<Geo>
    requires ROWS_PER_REQUEST * k < |rows|
  {
    Geos(rows)[ROWS_PER_REQUEST * k..
         if ROWS_PER_REQUEST * (k + 1) < |rows| then ROWS_PER_REQUEST * (k + 1) else |rows|]
  }

  lemma TaskAt(rows: seq<Row>, k: nat)
    requires k < |Tasks(rows)|
    ensures ROWS_PER_REQUEST * k < |rows|
    ensures |Tasks(rows)| == (|rows| + ROWS_PER_REQUEST - 1) / ROWS_PER_REQUEST
    ensures var id := if ROWS_PER_REQUEST * (k + 1) <= |rows|
                      then BatchId(ROWS_PER_REQUEST * (k + 1)) else FinalId(|rows|);
      Tasks(rows)[k] == TaskFor(id, Batch(rows, k), BatchGeos(rows, k))
  {
    hide TaskFor, Geos, BatchId, FinalId;
    var m := |rows| / ROWS_PER_REQUEST;
    Quotients(|rows|);
    if k < m {
      assert Tasks(rows)[k] == FullTask(rows, k);
      assert RowsOf(rows, k) == Batch(rows, k) && GeosOf(rows, k) == BatchGeos(rows, k);
    } else {
      assert Tasks(rows)[k] == FinalTask(rows);
      assert rows[ROWS_PER_REQUEST * m..] == Batch(rows, k);
      assert Geos(rows)[ROWS_PER_REQUEST * m..] == BatchGeos(rows, k);
    }
  }

  /** Every queued batch holds at least one row and all but the last hold 150; all fit the
      engine's limits. */
  lemma BatchSizes(rows: seq<Row>, k: nat)
    requires k < |Tasks(rows)|
    ensures ROWS_PER_REQUEST * k < |rows| && 0 < |Batch(rows, k)| <= 150
    ensures k < |Tasks(rows)| - 1 ==> |Batch(rows, k)| == 150
    ensures Tasks(rows)[k].nNodes == |Tasks(rows)[k].nodes| == 6 * |Batch(rows, k)| <= MAX_NODES
    ensures Tasks(rows)[k].nEdges == |Tasks(rows)[k].edges| == 6 * |Batch(rows, k)| <= MAX_EDGES
  {
    hide Tasks, Geos, BatchId, FinalId;
    TaskAt(rows, k);
  }

  function QueueFacts(tasks: seq<Task>): seq<Option<Fact>> {
    if tasks == [] then []
    else
      var n := |tasks| - 1;
      QueueFacts(tasks[..n]) + Facts(tasks[n].nodes, tasks[n].edges)
  }

  lemma {:induction false} AllRowFactsAppend(a: seq<Row>, b: seq<Row>)
    ensures AllRowFacts(a + b) == AllRowFacts(a) + AllRowFacts(b)
  {
    hide RowFacts;
    if b == [] {
      assert a + b == a;
    } else {
      AllRowFactsAppend(a, b[..|b| - 1]);
      assert (a + b)[..|a + b| - 1] == a + b[..|b| - 1];
    }
  }

  lemma {:induction false} QueueFactsUpTo(rows: seq<Row>, k: nat)
    requires k <= |Tasks(rows)|
    ensures QueueFacts(Tasks(rows)[..k]) ==
      AllRowFacts(rows[..if ROWS_PER_REQUEST * k < |rows| then ROWS_PER_REQUEST * k else |rows|])
  {
    hide Tasks, Geos, Facts, AllRowFacts, BatchId, FinalId, Nodes, Edges;
    var tasks := Tasks(rows);
    if k == 0 {
      assert tasks[..0] == [] && rows[..0] == [];
      NoFacts();
    } else {
      QueueFactsUpTo(rows, k - 1);
      TaskAt(rows, k - 1);
      var from := ROWS_PER_REQUEST * (k - 1);
      assert tasks[..k][..k - 1] == tasks[..k - 1];
      BatchMeaning(Batch(rows, k - 1), BatchGeos(rows, k - 1));
      AllRowFactsAppend(rows[..from], Batch(rows, k - 1));
      assert rows[..from] + Batch(rows, k - 1)
        == rows[..if ROWS_PER_REQUEST * k < |rows| then ROWS_PER_REQUEST * k else |rows|];
    }
  }

  lemma NoFacts()
    ensures AllRowFacts([]) == []
  {
  }

  /** The queued requests together say exactly what the rows of the file say, in order. */
  lemma QueueMeaning(rows: seq<Row>)
    ensures QueueFacts(Tasks(rows)) == AllRowFacts(rows)
  {
    hide Geos, AllRowFacts, FullTask, QueueFacts, FinalTask;
    var n := |Tasks(rows)|;
    QueueFactsUpTo(rows, n);
    Quotients(|rows|);
    assert Tasks(rows)[..n] == Tasks(rows) && rows[..|rows|] == rows;
  }

  /** After a read error exactly the rows collected since the last full batch never reach the
      channel. What may be lost behind the channel is the matter of `CsvWorkers`. */
  lemma ReadErrorLosesOpenBatch(rows: seq<Row>)
    ensures QueueFacts(FullTasks(rows, |rows| / ROWS_PER_REQUEST)) ==
      AllRowFacts(rows[..|rows| - |rows| % ROWS_PER_REQUEST])
  {
    hide Geos, AllRowFacts, FullTask, QueueFacts, FinalTask;
    var m := |rows| / ROWS_PER_REQUEST;
    Quotients(|rows|);
    QueueFactsUpTo(rows, m);
    assert Tasks(rows)[..m] == FullTasks(rows, m);
  }

  /** In every queued request each row's IP node carries the location computed from the
      first row of the file with that address. */
  lemma LocationInTask(rows: seq<Row>, k: nat, i: nat)
    requires k < |Tasks(rows)| && ROWS_PER_REQUEST * k < |rows| && i < |Batch(rows, k)|
    ensures ROWS_PER_REQUEST * k + i < |rows|
    ensures Lookup(Tasks(rows)[k].nodes, Key(Ip, i)) ==
      Some(Node("ip_address", Batch(rows, k)[i].ipAddress, Key(Ip, i),
                Some(GeoAt(rows, ROWS_PER_REQUEST * k + i))))
  {
    hide Tasks, GeoAt, Key, BatchId, FinalId, Lookup, Nodes, Edges;
    TaskAt(rows, k);
    LookupInBatch(Batch(rows, k), BatchGeos(rows, k), Ip, i);
    assert BatchGeos(rows, k)[i] == Geos(rows)[ROWS_PER_REQUEST * k + i];
  }

  /** Row `j` is the first of the file with its address. */
  predicate FirstWithItsIp(rows: seq<Row>, j: nat)
    requires j < |rows|
  {
    forall l | 0 <= l < j :: rows[l].ipAddress != rows[j].ipAddress
  }

  lemma GeoOfFirst(rows: seq<Row>, j: nat, first: nat)
    requires j < |rows| && first < |rows| && FirstWithItsIp(rows, first)
    requires rows[j].ipAddress == rows[first].ipAddress
    ensures GeoAt(rows, j).lat == rows[first].lat && GeoAt(rows, j).lng == rows[first].lng
  {
    FirstIsUnique(rows, rows[j].ipAddress, first);
  }

  /** The coordinates under a row's IP key are those of the first row of the file with the
      same address. */
  lemma CoordinatesInTask(rows: seq<Row>, k: nat, i: nat, first: nat)
    requires k < |Tasks(rows)| && ROWS_PER_REQUEST * k < |rows| && i < |Batch(rows, k)|
    requires first < |rows| && FirstWithItsIp(rows, first)
    requires rows[first].ipAddress == Batch(rows, k)[i].ipAddress
    ensures var node := Lookup(Tasks(rows)[k].nodes, Key(Ip, i));
      && node.Some? && node.value.geo.Some?
      && node.value.geo.value.lat == rows[first].lat && node.value.geo.value.lng == rows[first].lng
  {
    hide Tasks, GeoAt, Key, Lookup, FirstWithItsIp;
    LocationInTask(rows, k, i);
    assert Batch(rows, k)[i] == rows[ROWS_PER_REQUEST * k + i];
    GeoOfFirst(rows, ROWS_PER_REQUEST * k + i, first);
  }

  lemma BatchIdInjective(n: nat, m: nat)
    ensures BatchId(n) == BatchId(m) ==> n == m
    ensures BatchId(n) != FinalId(m)
  {
    PrefixDropped("batch-", Decimal(n), Decimal(m));
    PrefixDropped("batch-", Decimal(n), Decimal(m) + "-final");
    if Decimal(n) == Decimal(m) { DecimalInjective(n, m); }
    assert "batch-" + (Decimal(m) + "-final") == FinalId(m);
    var t := Decimal(m) + "-final";
    assert t[|Decimal(m)|] == '-';
    assert !AllDigits(t);
  }

  lemma PrefixDropped(p: string, a: string, b: string)
    ensures p + a == p + b ==> a == b
  {
    assert (p + a)[|p|..] == a && (p + b)[|p|..] == b;
  }

  /** A full batch is named after the number of its last row, the rest after the number of
      rows with a suffix. */
  lemma TaskIdSpelled(rows: seq<Row>, k: nat)
    requires k < |Tasks(rows)|
    ensures Tasks(rows)[k].transactionId ==
      if 150 * (k + 1) <= |rows| then "batch-" + Decimal(150 * (k + 1))
      else "batch-" + Decimal(|rows|) + "-final"
  {
    hide Tasks, Geos, Nodes, Edges;
    TaskAt(rows, k);
  }

  /** No two requests of a run carry the same transaction id. */
  lemma TaskIdsDistinct(rows: seq<Row>, k: nat, l: nat)
    requires k < l < |Tasks(rows)|
    ensures Tasks(rows)[k].transactionId != Tasks(rows)[l].transactionId
  {
    hide Tasks, Geos, BatchId, FinalId, Nodes, Edges;
    TaskAt(rows, k);
    TaskAt(rows, l);
    BatchIdInjective(ROWS_PER_REQUEST * (k + 1), ROWS_PER_REQUEST * (l + 1));
    BatchIdInjective(ROWS_PER_REQUEST * (k + 1), |rows|);
  }
}
