/** Phases 3 and 8 of the stress test: a worker streams numbered transactions until a
    deadline, reconnecting with exponential backoff; its sequence number survives. */
module Reconnect {
  import opened Basics
  import opened Decimals
  import opened IngestProtocol
  import opened IngestStream

  datatype Event =
    | Connected
    | ConnectFailed(slept: nat)
    | OpenFailed(slept: nat)
    | StreamBroken(slept: nat)
    | Finished

  /** What differs between the phases; durations in milliseconds. */
  datatype Config = Config(prefix: string, base: nat, cap: nat, pause: nat, pipeline: nat)

  const PHASE_8: Config := Config("p8w", 50, 2_000, 50, 64)

  function Phase3(pipeline: nat): Config {
    Config("s", 100, 5_000, 100, pipeline)
  }

  predicate WellFormed(cfg: Config) {
    0 < cfg.base <= cfg.cap
  }

  // ---- Backoff ----

  function Pow2(k: nat): nat {
    if k == 0 then 1 else 2 * Pow2(k - 1)
  }

  /** The wait after `k` failures since the last successful connect. */
  function Backoff(cfg: Config, k: nat): nat {
    Min(cfg.base * Pow2(k), cfg.cap)
  }

  predicate IsFailure(e: Event) {
    e.ConnectFailed? || e.OpenFailed?
  }

  /** How many attempts have failed since the last successful connect. */
  function FailuresSinceConnect(events: seq<Event>): nat {
    if events == [] then 0
    else
      var last := events[|events| - 1];
      var before := FailuresSinceConnect(events[..|events| - 1]);
      if last.Connected? then 0 else if IsFailure(last) then before + 1 else before
  }

  lemma BackoffDoubles(cfg: Config, k: nat)
    requires WellFormed(cfg)
    ensures Min(Backoff(cfg, k) * 2, cfg.cap) == Backoff(cfg, k + 1)
    ensures Backoff(cfg, 0) == cfg.base
  {
    assert cfg.base * Pow2(k + 1) == cfg.base * Pow2(k) * 2;
  }

  lemma {:induction false} Pow2Grows(k: nat)
    requires k >= 6
    ensures Pow2(k) >= 64
  {
    if k > 6 {
      Pow2Grows(k - 1);
    } else {
      assert Pow2(3) == 8;
    }
  }

  /** The waits of the two phases: 100, 200, ..., 3200 and then 5000 ms in phase 3, and 50,
      100, ..., 1600 and then 2000 ms in phase 8. */
  lemma BackoffSchedule(pipeline: nat, k: nat)
    ensures WellFormed(Phase3(pipeline)) && WellFormed(PHASE_8)
    ensures Phase3(pipeline).pause == 100 && Phase3(pipeline).pipeline == pipeline
    ensures PHASE_8.pause == 50 && PHASE_8.pipeline == 64
    ensures Backoff(Phase3(pipeline), k) == if k < 6 then 100 * Pow2(k) else 5_000
    ensures Backoff(PHASE_8, k) == if k < 6 then 50 * Pow2(k) else 2_000
  {
    if k >= 6 {
      Pow2Grows(k);
    } else {
      SmallPowers(k);
    }
  }

  lemma {:induction false} SmallPowers(k: nat)
    requires k < 6
    ensures Pow2(k) <= 32
    decreases 5 - k
  {
    if k == 5 {
      assert Pow2(2) == 4;
    } else {
      SmallPowers(k + 1);
    }
  }

  /** Every wait after a failed attempt has the promised length. */
  predicate WaitsAsPromised(cfg: Config, events: seq<Event>) {
    forall i | 0 <= i < |events| && IsFailure(events[i]) ::
      events[i].slept == Backoff(cfg, FailuresSinceConnect(events[..i]))
  }

  /** A stream is opened only right after a connect, which has reset the backoff: failing
      to open always waits the base. A broken stream waits the fixed pause. */
  predicate OpenWaitsAreBase(cfg: Config, events: seq<Event>) {
    && (forall e | e in events && e.OpenFailed? :: e.slept == cfg.base)
    && (forall e | e in events && e.StreamBroken? :: e.slept == cfg.pause)
  }

  function BrokenStreams(events: seq<Event>): nat {
    if events == [] then 0
    else BrokenStreams(events[..|events| - 1])
         + (if events[|events| - 1].StreamBroken? then 1 else 0)
  }

  // How often each thing happened.

  function Connects(events: seq<Event>): nat {
    if events == [] then 0
    else Connects(events[..|events| - 1]) + (if events[|events| - 1].Connected? then 1 else 0)
  }

  function FailedConnects(events: seq<Event>): nat {
    if events == [] then 0
    else FailedConnects(events[..|events| - 1])
         + (if events[|events| - 1].ConnectFailed? then 1 else 0)
  }

  function FailedOpens(events: seq<Event>): nat {
    if events == [] then 0
    else FailedOpens(events[..|events| - 1])
         + (if events[|events| - 1].OpenFailed? then 1 else 0)
  }

  lemma CountsGrow(events: seq<Event>, e: Event)
    ensures Connects(events + [e]) == Connects(events) + (if e.Connected? then 1 else 0)
    ensures FailedConnects(events + [e]) ==
      FailedConnects(events) + (if e.ConnectFailed? then 1 else 0)
    ensures FailedOpens(events + [e]) == FailedOpens(events) + (if e.OpenFailed? then 1 else 0)
  {
    assert (events + [e])[..|events|] == events;
  }

  /** How many of the first `n` attempts fail. */
  function Fails(ok: nat -> bool, n: nat): nat {
    if n == 0 then 0 else Fails(ok, n - 1) + (if ok(n - 1) then 0 else 1)
  }

  /** Only the last event says that the worker finished. */
  predicate NotFinishedBefore(events: seq<Event>, n: int) {
    forall i | 0 <= i < n && i < |events| :: !events[i].Finished?
  }

  lemma OneMoreEvent(cfg: Config, events: seq<Event>, e: Event)
    requires WaitsAsPromised(cfg, events) && OpenWaitsAreBase(cfg, events)
    requires IsFailure(e) ==> e.slept == Backoff(cfg, FailuresSinceConnect(events))
    requires e.OpenFailed? ==> e.slept == cfg.base
    requires e.StreamBroken? ==> e.slept == cfg.pause
    ensures BrokenStreams(events + [e]) == BrokenStreams(events) + (if e.StreamBroken? then 1 else 0)
    ensures Connects(events + [e]) == Connects(events) + (if e.Connected? then 1 else 0)
    ensures FailedConnects(events + [e]) ==
      FailedConnects(events) + (if e.ConnectFailed? then 1 else 0)
    ensures FailedOpens(events + [e]) == FailedOpens(events) + (if e.OpenFailed? then 1 else 0)
    ensures NotFinishedBefore(events, |events|) ==> NotFinishedBefore(events + [e], |events|)
    ensures NotFinishedBefore(events, |events|) && !e.Finished? ==>
      NotFinishedBefore(events + [e], |events| + 1)
    ensures WaitsAsPromised(cfg, events + [e]) && OpenWaitsAreBase(cfg, events + [e])
    ensures FailuresSinceConnect(events + [e]) ==
      if e.Connected? then 0
      else if IsFailure(e) then FailuresSinceConnect(events) + 1
      else FailuresSinceConnect(events)
  {
    var longer := events + [e];
    CountsGrow(events, e);
    assert longer[..|events|] == events;
    forall i | 0 <= i < |longer| && IsFailure(longer[i])
      ensures longer[i].slept == Backoff(cfg, FailuresSinceConnect(longer[..i]))
    {
      if i < |events| { assert longer[..i] == events[..i]; }
    }
  }

  // ---- Transactions ----

  function TxId(cfg: Config, wid: nat, number: nat): string {
    cfg.prefix + Decimal(wid) + "-" + Decimal(number)
  }

  /** The ids of the first `n` transactions of a worker. */
  function TxIds(cfg: Config, wid: nat, n: nat): seq<string> {
    seq(n, (i: nat) requires i < n => TxId(cfg, wid, i))
  }

  /** The ids of transactions with the given numbers. */
  function TxIdsOf(cfg: Config, wid: nat, numbers: seq<nat>): seq<string> {
    seq(|numbers|, (i: nat) requires i < |numbers| => TxId(cfg, wid, numbers[i]))
  }

  function Numbers(from: nat, to: nat): (r: seq<nat>)
    requires from <= to
    ensures |r| == to - from
  {
    seq(to - from, (i: nat) requires i < to - from => NumberAt(from, i))
  }

  function NumberAt(from: nat, i: nat): nat {
    from + i
  }

  datatype SessionEnd = Waiting | Broken | Deadline

  /** One stream session: send until the deadline, the stream breaks, or the sender waits.
      The stream holds the numbers from `first` on, and `ids` are the ids they were sent under.
      `ticks` is the number of deadline checks that still find time left, `broken` how many
      sends failed in earlier sessions: the worker's send number `n + broken` carries `n`. */
  method RunSession(cfg: Config, wid: nat, first: nat, ticks: nat, broken: nat, sendOk: nat -> bool)
    returns (end: SessionEnd, next: nat, ids: seq<string>, answered: nat, left: nat, stream: Stream)
    ensures first <= next && left <= ticks
    ensures end.Deadline? ==> left == 0
    ensures end.Waiting? ==> stream.permits == 0
    ensures stream.failures == if end.Broken? then 1 else 0
    ensures forall a | first + broken <= a < next + broken :: sendOk(a)
    ensures end.Broken? ==> !sendOk(next + broken)
    ensures ticks == left + (next - first) + (if end.Deadline? then 0 else 1)
    ensures fresh(stream) && stream.Valid() && stream.pipeline == cfg.pipeline
    ensures stream.sent == Numbers(first, next) && ids == TxIdsOf(cfg, wid, stream.sent)
    ensures TxIds(cfg, wid, first) + ids == TxIds(cfg, wid, next)
    ensures !end.Waiting? ==> stream.drain.Ended? && answered == |stream.acked|
    ensures !end.Waiting? ==> answered <= next - first <= answered + cfg.pipeline
  {
    hide TxIds, TxIdsOf, Numbers, Reaches;
    NoNumbers(cfg, wid, first);
    stream := new Stream(cfg.pipeline);
    next, ids, left, answered := first, [], ticks, 0;
    while true
      invariant fresh(stream) && stream.Valid() && stream.pipeline == cfg.pipeline
      invariant stream.sender.Idle? && first <= next && stream.failures == 0
      invariant ticks == left + (next - first)
      invariant forall a | first + broken <= a < next + broken :: sendOk(a)
      invariant stream.sent == Numbers(first, next) && ids == TxIdsOf(cfg, wid, stream.sent)
      invariant TxIds(cfg, wid, first) + ids == TxIds(cfg, wid, next)
      decreases left
    {
      if left == 0 {
        end := Deadline;
        break;
      }
      left := left - 1;
      var granted := stream.Acquire();
      if !granted {
        end := Waiting;
        return;
      }
      var number := next;
      var txId := TxId(cfg, wid, number);
      var ok := stream.Send(number, sendOk(number + broken));
      if !ok {
        end := Broken;
        break;
      }
      OneMoreTransaction(cfg, wid, first, next);
      ids, next := ids + [txId], next + 1;
    }
    stream.Close();
    answered := stream.answered;
  }

  lemma NoNumbers(cfg: Config, wid: nat, first: nat)
    ensures Numbers(first, first) == [] && TxIdsOf(cfg, wid, []) == []
  {
  }

  lemma OneMoreTransaction(cfg: Config, wid: nat, first: nat, next: nat)
    requires first <= next
    ensures Numbers(first, next) + [next] == Numbers(first, next + 1)
    ensures TxIdsOf(cfg, wid, Numbers(first, next)) + [TxId(cfg, wid, next)]
      == TxIdsOf(cfg, wid, Numbers(first, next + 1))
    ensures TxIds(cfg, wid, next) + [TxId(cfg, wid, next)] == TxIds(cfg, wid, next + 1)
  {
  }

  /** What `sessions` streams can leave unanswered when they end. */
  function InFlightAtMost(cfg: Config, sessions: nat): nat {
    cfg.pipeline * sessions
  }

  lemma OneMoreSession(cfg: Config, sessions: nat)
    ensures InFlightAtMost(cfg, sessions + 1) == InFlightAtMost(cfg, sessions) + cfg.pipeline
  {
  }

  lemma NothingYet(cfg: Config, wid: nat)
    requires WellFormed(cfg)
    ensures WaitsAsPromised(cfg, []) && OpenWaitsAreBase(cfg, [])
    ensures Backoff(cfg, FailuresSinceConnect([])) == cfg.base
    ensures Connects([]) == FailedConnects([]) == FailedOpens([]) == 0
    ensures NotFinishedBefore([], 0)
    ensures BrokenStreams([]) == 0 && TxIds(cfg, wid, 0) == [] && InFlightAtMost(cfg, 0) == 0
  {
    BackoffDoubles(cfg, 0);
  }

  lemma NoSends(ok: nat -> bool)
    ensures Fails(ok, 0) == 0
  {
  }

  lemma OneMoreSend(ok: nat -> bool, n: nat)
    ensures Fails(ok, n + 1) == Fails(ok, n) + (if ok(n) then 0 else 1)
  {
  }

  lemma {:induction false} SendsOk(ok: nat -> bool, first: nat, last: nat)
    requires first <= last && forall n | first <= n < last :: ok(n)
    ensures Fails(ok, last) == Fails(ok, first)
    decreases last
  {
    if first < last {
      SendsOk(ok, first, last - 1);
    }
  }

  /** Everything enqueued on the streams, in order. */
  ghost function SentBy(streams: seq<Stream>): seq<nat>
    reads streams
  {
    if streams == [] then []
    else SentBy(streams[..|streams| - 1]) + streams[|streams| - 1].sent
  }

  lemma SentByOneMore(streams: seq<Stream>, stream: Stream)
    ensures SentBy(streams + [stream]) == SentBy(streams) + stream.sent
  {
    assert (streams + [stream])[..|streams|] == streams;
  }

  lemma NumbersJoin(first: nat, middle: nat, last: nat)
    requires first <= middle <= last
    ensures Numbers(first, middle) + Numbers(middle, last) == Numbers(first, last)
  {
  }

  lemma IdsOfNumbers(cfg: Config, wid: nat, n: nat)
    ensures TxIdsOf(cfg, wid, Numbers(0, n)) == TxIds(cfg, wid, n)
  {
  }

  /** The streams together hold the numbers below `totalSeq`, sent under `ids`. */
  ghost predicate Streamed(cfg: Config, wid: nat, streams: seq<Stream>, ids: seq<string>,
                           totalSeq: nat)
    reads streams
  {
    && (forall s | s in streams :: s.Valid() && s.pipeline == cfg.pipeline)
    && SentBy(streams) == Numbers(0, totalSeq)
    && ids == TxIds(cfg, wid, totalSeq)
  }

  lemma NothingStreamed(cfg: Config, wid: nat)
    ensures Streamed(cfg, wid, [], [], 0)
  {
  }

  lemma OneMoreStreamed(cfg: Config, wid: nat, streams: seq<Stream>, stream: Stream,
                        ids: seq<string>, sessionIds: seq<string>, totalSeq: nat, next: nat)
    requires Streamed(cfg, wid, streams, ids, totalSeq) && totalSeq <= next
    requires stream.Valid() && stream.pipeline == cfg.pipeline
    requires stream.sent == Numbers(totalSeq, next)
    requires TxIds(cfg, wid, totalSeq) + sessionIds == TxIds(cfg, wid, next)
    ensures Streamed(cfg, wid, streams + [stream], ids + sessionIds, next)
  {
    hide SentBy, Numbers, TxIds;
    SentByOneMore(streams, stream);
    NumbersJoin(0, totalSeq, next);
  }

  lemma StreamedMeans(cfg: Config, wid: nat, streams: seq<Stream>, ids: seq<string>, totalSeq: nat)
    requires Streamed(cfg, wid, streams, ids, totalSeq)
    ensures forall s | s in streams :: s.Valid() && s.pipeline == cfg.pipeline
    ensures SentBy(streams) == Numbers(0, totalSeq) && ids == TxIdsOf(cfg, wid, SentBy(streams))
    ensures ids == TxIds(cfg, wid, totalSeq)
  {
    hide SentBy;
    IdsOfNumbers(cfg, wid, totalSeq);
  }

  /** A worker's running totals: the next wait, its attempts to connect, how many succeeded,
      its attempts to open a stream, the sessions those led to and the broken ones. */
  datatype Book = Book(
    backoff: nat, attempts: nat, connects: nat, opens: nat, sessions: nat, reconnects: nat)

  /** The totals are those of the events, and the attempts went as the server answered. */
  ghost predicate Booked(cfg: Config, events: seq<Event>, b: Book, connectOk: nat -> bool,
                         openOk: nat -> bool) {
    && WaitsAsPromised(cfg, events) && OpenWaitsAreBase(cfg, events)
    && b.backoff == Backoff(cfg, FailuresSinceConnect(events))
    && b.connects == Connects(events)
    && b.attempts == b.connects + FailedConnects(events)
    && FailedConnects(events) == Fails(connectOk, b.attempts)
    && b.opens == b.sessions + FailedOpens(events)
    && FailedOpens(events) == Fails(openOk, b.opens)
    && b.reconnects == BrokenStreams(events)
    && NotFinishedBefore(events, |events|)
  }

  lemma NothingBooked(cfg: Config, wid: nat, connectOk: nat -> bool, openOk: nat -> bool)
    requires WellFormed(cfg)
    ensures Booked(cfg, [], Book(cfg.base, 0, 0, 0, 0, 0), connectOk, openOk)
  {
    NothingYet(cfg, wid);
  }

  lemma BookFailedConnect(cfg: Config, events: seq<Event>, b: Book, connectOk: nat -> bool,
                          openOk: nat -> bool)
    requires WellFormed(cfg) && Booked(cfg, events, b, connectOk, openOk)
    requires !connectOk(b.attempts)
    ensures Booked(cfg, events + [ConnectFailed(b.backoff)],
      b.(backoff := Min(b.backoff * 2, cfg.cap), attempts := b.attempts + 1), connectOk, openOk)
  {
    hide WaitsAsPromised, OpenWaitsAreBase, Backoff, NotFinishedBefore;
    BackoffDoubles(cfg, FailuresSinceConnect(events));
    OneMoreEvent(cfg, events, ConnectFailed(b.backoff));
  }

  lemma BookConnect(cfg: Config, events: seq<Event>, b: Book, connectOk: nat -> bool,
                    openOk: nat -> bool)
    requires WellFormed(cfg) && Booked(cfg, events, b, connectOk, openOk)
    requires connectOk(b.attempts)
    ensures Booked(cfg, events + [Connected],
      b.(backoff := cfg.base, attempts := b.attempts + 1, connects := b.connects + 1),
      connectOk, openOk)
    ensures FailuresSinceConnect(events + [Connected]) == 0
  {
    hide WaitsAsPromised, OpenWaitsAreBase, Backoff, NotFinishedBefore;
    BackoffDoubles(cfg, 0);
    OneMoreEvent(cfg, events, Connected);
  }

  lemma BookFailedOpen(cfg: Config, events: seq<Event>, b: Book, connectOk: nat -> bool,
                       openOk: nat -> bool)
    requires WellFormed(cfg) && Booked(cfg, events, b, connectOk, openOk)
    requires b.backoff == cfg.base && !openOk(b.opens)
    ensures Booked(cfg, events + [OpenFailed(b.backoff)],
      b.(backoff := Min(b.backoff * 2, cfg.cap), opens := b.opens + 1), connectOk, openOk)
  {
    hide WaitsAsPromised, OpenWaitsAreBase, Backoff, NotFinishedBefore;
    BackoffDoubles(cfg, FailuresSinceConnect(events));
    OneMoreEvent(cfg, events, OpenFailed(b.backoff));
  }

  lemma BookSession(cfg: Config, events: seq<Event>, b: Book, connectOk: nat -> bool,
                    openOk: nat -> bool)
    requires Booked(cfg, events, b, connectOk, openOk) && openOk(b.opens)
    ensures Booked(cfg, events, b.(opens := b.opens + 1, sessions := b.sessions + 1),
                   connectOk, openOk)
  {
  }

  lemma BookBrokenStream(cfg: Config, events: seq<Event>, b: Book, connectOk: nat -> bool,
                         openOk: nat -> bool)
    requires Booked(cfg, events, b, connectOk, openOk)
    ensures Booked(cfg, events + [StreamBroken(cfg.pause)],
      b.(reconnects := b.reconnects + 1), connectOk, openOk)
  {
    hide WaitsAsPromised, OpenWaitsAreBase, Backoff, NotFinishedBefore;
    OneMoreEvent(cfg, events, StreamBroken(cfg.pause));
  }

  /** What the books say about the events of a run. */
  ghost predicate Settled(cfg: Config, events: seq<Event>, b: Book, connectOk: nat -> bool,
                          openOk: nat -> bool) {
    && WaitsAsPromised(cfg, events) && OpenWaitsAreBase(cfg, events)
    && b.reconnects == BrokenStreams(events)
    && b.attempts == Connects(events) + FailedConnects(events)
    && FailedConnects(events) == Fails(connectOk, b.attempts)
    && Connects(events) == b.sessions + FailedOpens(events)
    && FailedOpens(events) == Fails(openOk, Connects(events))
  }

  lemma BookFinished(cfg: Config, events: seq<Event>, b: Book, connectOk: nat -> bool,
                     openOk: nat -> bool)
    requires Booked(cfg, events, b, connectOk, openOk) && b.connects == b.opens
    ensures Settled(cfg, events + [Finished], b, connectOk, openOk)
    ensures NotFinishedBefore(events + [Finished], |events|)
    ensures Settled(cfg, events, b, connectOk, openOk) && NotFinishedBefore(events, |events|)
  {
    hide WaitsAsPromised, OpenWaitsAreBase, Backoff, NotFinishedBefore;
    OneMoreEvent(cfg, events, Finished);
  }

  /** A worker's whole run, over any number of reconnects. `waiting` means that the run is
      observed while the sender still waits for a permit; `connectOk`, `openOk` and
      `sendOk` say which attempts to connect, to open a stream and to send succeed. */
  method RunWorker(cfg: Config, wid: nat, ticks: nat, connectOk: nat -> bool,
                   openOk: nat -> bool, sendOk: nat -> bool)
    returns (events: seq<Event>, ids: seq<string>, totalSeq: nat, answered: nat,
             reconnects: nat, waiting: bool, streams: seq<Stream>)
    requires WellFormed(cfg)
    ensures forall s | s in streams :: s.Valid() && s.pipeline == cfg.pipeline
    ensures SentBy(streams) == Numbers(0, totalSeq) && ids == TxIdsOf(cfg, wid, SentBy(streams))
    ensures ids == TxIds(cfg, wid, totalSeq)
    ensures WaitsAsPromised(cfg, events) && OpenWaitsAreBase(cfg, events)
    ensures reconnects == BrokenStreams(events)
    ensures Connects(events) == |streams| + FailedOpens(events)
    ensures FailedConnects(events) == Fails(connectOk, Connects(events) + FailedConnects(events))
    ensures FailedOpens(events) == Fails(openOk, Connects(events))
    ensures reconnects == Fails(sendOk, totalSeq + reconnects)
    ensures !waiting ==> ticks == FailedConnects(events) + FailedOpens(events) + |streams|
                                  + totalSeq + reconnects
    ensures NotFinishedBefore(events, if waiting then |events| else |events| - 1)
    ensures forall k | 0 <= k < |streams| - 1 :: streams[k].failures == 1
    ensures reconnects ==
      if streams == [] then 0 else |streams| - 1 + streams[|streams| - 1].failures
    ensures waiting ==> streams != [] && streams[|streams| - 1].permits == 0
    ensures !waiting ==> events != [] && events[|events| - 1].Finished?
    ensures !waiting ==> answered <= totalSeq <= answered + InFlightAtMost(cfg, reconnects + 1)
  {
    hide WaitsAsPromised, OpenWaitsAreBase, Backoff, TxIds, TxIdsOf, FailuresSinceConnect,
      InFlightAtMost, BrokenStreams, Reaches, Numbers, Connects, FailedConnects, FailedOpens,
      NotFinishedBefore, Fails, Booked, Min, Streamed, SentBy;
    NothingYet(cfg, wid);
    NothingBooked(cfg, wid, connectOk, openOk);
    NoSends(sendOk);
    NothingStreamed(cfg, wid);
    var left: nat, backoff: nat, attempts: nat, connects: nat := ticks, cfg.base, 0, 0;
    events, ids, totalSeq, answered, reconnects, waiting := [], [], 0, 0, 0, false;
    streams := [];
    while true
      invariant Streamed(cfg, wid, streams, ids, totalSeq)
      invariant forall s | s in streams :: s.failures == 1
      invariant reconnects == |streams|
      invariant Booked(cfg, events, Book(backoff, attempts, connects, connects, |streams|, reconnects),
                       connectOk, openOk)
      invariant ticks == left + attempts + totalSeq + reconnects
      invariant reconnects == Fails(sendOk, totalSeq + reconnects)
      invariant answered <= totalSeq <= answered + InFlightAtMost(cfg, reconnects)
      decreases left
    {
      OneMoreSession(cfg, reconnects);
      ghost var b := Book(backoff, attempts, connects, connects, |streams|, reconnects);
      if left == 0 {
        BookFinished(cfg, events, b, connectOk, openOk);
        StreamedMeans(cfg, wid, streams, ids, totalSeq);
        events := events + [Finished];
        return;
      }
      left := left - 1;
      var connected := connectOk(attempts);
      if !connected {
        BookFailedConnect(cfg, events, b, connectOk, openOk);
        events := events + [ConnectFailed(backoff)];
        backoff, attempts := Min(backoff * 2, cfg.cap), attempts + 1;
        continue;
      }
      BookConnect(cfg, events, b, connectOk, openOk);
      events, backoff, attempts := events + [Connected], cfg.base, attempts + 1;
      b := Book(backoff, attempts, connects + 1, connects, |streams|, reconnects);
      var streamOpen := openOk(connects);
      connects := connects + 1;
      if !streamOpen {
        BookFailedOpen(cfg, events, b, connectOk, openOk);
        events := events + [OpenFailed(backoff)];
        backoff := Min(backoff * 2, cfg.cap);
        continue;
      }
      BookSession(cfg, events, b, connectOk, openOk);
      var end, next, sessionIds, sessionAnswered, rest, stream :=
        RunSession(cfg, wid, totalSeq, left, reconnects, sendOk);
      SendsOk(sendOk, totalSeq + reconnects, next + reconnects);
      OneMoreStreamed(cfg, wid, streams, stream, ids, sessionIds, totalSeq, next);
      streams := streams + [stream];
      b := Book(backoff, attempts, connects, connects, |streams|, reconnects);
      ids, totalSeq, left := ids + sessionIds, next, rest;
      StreamedMeans(cfg, wid, streams, ids, totalSeq);
      if end.Waiting? {
        BookFinished(cfg, events, b, connectOk, openOk);
        waiting := true;
        return;
      }
      answered := answered + sessionAnswered;
      if end.Broken? {
        OneMoreSend(sendOk, totalSeq + reconnects);
        BookBrokenStream(cfg, events, b, connectOk, openOk);
        reconnects := reconnects + 1;
        events := events + [StreamBroken(cfg.pause)];
      } else {
        BookFinished(cfg, events, b, connectOk, openOk);
        events := events + [Finished];
        return;
      }
    }
  }

  // ---- Distinct transaction ids ----

  lemma TxIdSpelled(pipeline: nat, wid: nat, number: nat)
    ensures TxId(Phase3(pipeline), wid, number) == "s" + Decimal(wid) + "-" + Decimal(number)
    ensures TxId(PHASE_8, wid, number) == "p8w" + Decimal(wid) + "-" + Decimal(number)
  {
  }

  lemma TxIdInjective(cfg: Config, w: nat, n: nat, v: nat, m: nat)
    requires TxId(cfg, w, n) == TxId(cfg, v, m)
    ensures w == v && n == m
  {
    var x, y := "-" + Decimal(n), "-" + Decimal(m);
    assert TxId(cfg, w, n)[|cfg.prefix|..] == Decimal(w) + x;
    assert TxId(cfg, v, m)[|cfg.prefix|..] == Decimal(v) + y;
    DigitsDelimited(Decimal(w), x, Decimal(v), y);
    assert x[1..] == Decimal(n) && y[1..] == Decimal(m);
    DecimalInjective(w, v);
    DecimalInjective(n, m);
  }

  /** Workers `0..|counts|` of one round enqueued `counts[w]` transactions each. */
  ghost predicate UsedInRound(cfg: Config, counts: seq<nat>, w: nat, i: nat, id: string) {
    w < |counts| && i < counts[w] && TxIds(cfg, w, counts[w])[i] == id
  }

  /** Within a round no id is used twice, whatever the stream drops. */
  lemma RoundIdsDistinct(cfg: Config, counts: seq<nat>, w: nat, i: nat, v: nat, j: nat, id: string)
    requires UsedInRound(cfg, counts, w, i, id) && UsedInRound(cfg, counts, v, j, id)
    ensures w == v && i == j
  {
    TxIdInjective(cfg, w, i, v, j);
  }

  ghost predicate ShareAnId(cfg: Config, counts: seq<nat>, others: seq<nat>) {
    exists w: nat, i: nat, v: nat, j: nat, id ::
      UsedInRound(cfg, counts, w, i, id) && UsedInRound(cfg, others, v, j, id)
  }

  /** Across rounds the numbering restarts: two rounds reuse an id exactly when some worker
      enqueued something in both. */
  lemma RoundsShareIds(cfg: Config, counts: seq<nat>, others: seq<nat>)
    ensures ShareAnId(cfg, counts, others) <==>
      exists w: nat :: w < |counts| && w < |others| && counts[w] > 0 && others[w] > 0
  {
    if ShareAnId(cfg, counts, others) {
      var w: nat, i: nat, v: nat, j: nat, id :|
        UsedInRound(cfg, counts, w, i, id) && UsedInRound(cfg, others, v, j, id);
      TxIdInjective(cfg, w, i, v, j);
    }
    if w: nat :| w < |counts| && w < |others| && counts[w] > 0 && others[w] > 0 {
      assert UsedInRound(cfg, counts, w, 0, TxId(cfg, w, 0));
      assert UsedInRound(cfg, others, w, 0, TxId(cfg, w, 0));
    }
  }

  // ---- Cards and merchants ----

  /** The external ids a transaction names; workers own blocks of ids of a fixed stride. */
  function CardOf(stride: nat, wid: nat, number: nat): nat {
    wid * stride + number % 10_000
  }

  function MerchantOf(stride: nat, wid: nat, number: nat): nat {
    wid * stride + number % 50_000
  }

  /** Different workers never write to the same card or merchant, in phase 3 (strides
      100000 and 200000) and in phase 8 (50000 and 100000). */
  lemma WorkersDisjoint(cards: nat, merchants: nat, w: nat, n: nat, v: nat, m: nat)
    requires w != v && cards >= 10_000 && merchants >= 50_000
    ensures CardOf(cards, w, n) != CardOf(cards, v, m)
    ensures MerchantOf(merchants, w, n) != MerchantOf(merchants, v, m)
  {
    BlocksDisjoint(cards, w, n % 10_000, v, m % 10_000);
    BlocksDisjoint(merchants, w, n % 50_000, v, m % 50_000);
  }

  /** A worker goes round 10000 cards and 50000 merchants. */
  lemma CardsCycle(stride: nat, wid: nat, n: nat, m: nat)
    ensures CardOf(stride, wid, n) == CardOf(stride, wid, m) <==> (n - m) % 10_000 == 0
    ensures MerchantOf(stride, wid, n) == MerchantOf(stride, wid, m) <==> (n - m) % 50_000 == 0
    ensures CardOf(stride, wid, 0) == MerchantOf(stride, wid, 0) == wid * stride
    ensures n < 10_000 ==> CardOf(stride, wid, n) == wid * stride + n
    ensures n < 50_000 ==> MerchantOf(stride, wid, n) == wid * stride + n
  {
  }

  lemma BlocksDisjoint(stride: nat, w: nat, x: nat, v: nat, y: nat)
    requires w != v && x < stride && y < stride
    ensures w * stride + x != v * stride + y
  {
    if w < v {
      assert (w + 1) * stride <= v * stride;
    } else {
      assert (v + 1) * stride <= w * stride;
    }
  }
}
