/** Phase 9 of the stress test: three bands of cards stream to one hot merchant; between
    bands the sender takes back every permit, which waits for every answer. */
module HotNode {
  import opened Basics
  import opened IngestProtocol
  import opened IngestStream

  const PIPELINE: nat := 128
  const REQUEST_CHANNEL_DEPTH: nat := 1024
  const CARDS: nat := 20_000

  function BandOffset(b: nat): nat {
    if b == 0 then 0 else if b == 1 then 5_000 else if b == 2 then 10_000 else CARDS
  }

  function BandSize(b: nat): nat
    requires b < 3
  {
    if b < 2 then 5_000 else 10_000
  }

  function Range(n: nat): seq<nat> {
    seq(n, (i: nat) requires i < n => i)
  }

  function CardId(b: nat, i: nat): nat {
    BandOffset(b) + i
  }

  /** The first `n` cards of band `b`. */
  function Cards(b: nat, n: nat): seq<nat> {
    seq(n, (i: nat) requires i < n => CardId(b, i))
  }

  predicate Below(s: seq<nat>, bound: nat) {
    forall i | 0 <= i < |s| :: s[i] < bound
  }

  /** The two readings of the edge counter that bracket a band, and how many messages had
      been sent at each. */
  datatype Band = Band(from: nat, before: nat, to: nat, after: nat)

  /** `value` counts the first `n` responses, or all of them but the last. */
  predicate CountsUpTo(acked: seq<Reply>, n: nat, value: nat)
    requires n <= |acked|
  {
    value == Edges(acked[..n]) || (n > 0 && value == Edges(acked[..n - 1]))
  }

  predicate BandMeasured(acked: seq<Reply>, band: Band) {
    && band.from <= band.to <= |acked| && band.before <= band.after
    && CountsUpTo(acked, band.from, band.before) && CountsUpTo(acked, band.to, band.after)
  }

  /** Readings of consecutive bands: each starts where the one before ended, and only
      responses of earlier bands are counted late. */
  predicate BandsMeasured(acked: seq<Reply>, bands: seq<Band>) {
    && (forall b | 0 <= b < |bands| :: BandMeasured(acked, bands[b]))
    && (forall b | 0 <= b < |bands| - 1 ::
          bands[b].to == bands[b + 1].from && bands[b].after <= bands[b + 1].before)
    && (bands != [] ==> bands[0].from == 0 && bands[0].before == 0)
  }

  lemma QuietReading(s: Session)
    requires Reaches(PIPELINE, Start(PIPELINE), s) && s.permits == PIPELINE
    ensures Ids(s.acked) == s.sent && |s.acked| == |s.sent|
    ensures CountsUpTo(s.acked, |s.sent|, s.edgesDone)
  {
    EveryReachableState(PIPELINE, s);
    assert s.acked[..|s.acked|] == s.acked;
  }

  lemma NextCard(before: seq<nat>, sent: seq<nat>, b: nat, i: nat)
    requires Increasing(sent) && Below(sent, BandOffset(b) + i)
    requires sent == before + Cards(b, i)
    ensures var longer := sent + [BandOffset(b) + i];
      && Increasing(longer) && Below(longer, BandOffset(b) + i + 1)
      && longer == before + Cards(b, i + 1)
  {
  }

  /** The stream accepts the first `n` cards of band `b`. */
  ghost predicate Accepted(b: nat, n: nat, sendOk: nat -> bool) {
    forall i: nat | i < n :: sendOk(CardId(b, i))
  }

  /** The stream accepts the cards of the first `b` bands. */
  ghost predicate BandsAccepted(b: nat, sendOk: nat -> bool) {
    forall c: nat | c < BandOffset(b) :: sendOk(c)
  }

  lemma NoCards(sent: seq<nat>, b: nat, sendOk: nat -> bool)
    ensures sent == sent + Cards(b, 0) && Accepted(b, 0, sendOk)
  {
  }

  lemma NextAccepted(b: nat, i: nat, sendOk: nat -> bool)
    requires b < 3 && i < BandSize(b) && Accepted(b, i, sendOk)
    ensures Accepted(b, i + 1, sendOk) <==> sendOk(CardId(b, i))
    ensures !sendOk(CardId(b, i)) ==> !Accepted(b, BandSize(b), sendOk)
  {
  }

  lemma StillBelow(sent: seq<nat>, b: nat, i: nat)
    requires b < 3 && i <= BandSize(b) && Below(sent, BandOffset(b) + i)
    ensures Below(sent, BandOffset(b + 1))
  {
  }

  /** Send the cards of one band. Not `done`: the sender still waits for a permit. */
  method SendBand(stream: Stream, b: nat, sendOk: nat -> bool) returns (done: bool, broken: bool)
    requires b < 3 && stream.Valid() && stream.pipeline == PIPELINE && stream.sender.Idle?
    requires Increasing(stream.sent) && Below(stream.sent, BandOffset(b))
    modifies stream`permits, stream`sender, stream`wire, stream`replies, stream`drain,
      stream`edgesDone, stream`answered, stream`sent, stream`acked, stream`failures
    ensures stream.Valid() && stream.sender.Idle?
    ensures !done ==> !broken && stream.permits == 0
    ensures done ==> (broken <==> !Accepted(b, BandSize(b), sendOk))
    ensures stream.failures == old(stream.failures) + (if broken then 1 else 0)
    ensures old(stream.acked) <= stream.acked && old(stream.edgesDone) <= stream.edgesDone
    ensures Increasing(stream.sent) && Below(stream.sent, BandOffset(b + 1))
    ensures done && !broken ==> stream.sent == old(stream.sent) + Cards(b, BandSize(b))
  {
    hide Accepted, Increasing, Below, Cards, Reaches;
    done, broken := true, false;
    NoCards(stream.sent, b, sendOk);
    for i := 0 to BandSize(b)
      invariant stream.Valid() && stream.sender.Idle? && done && !broken
      invariant stream.failures == old(stream.failures) && Accepted(b, i, sendOk)
      invariant old(stream.acked) <= stream.acked && old(stream.edgesDone) <= stream.edgesDone
      invariant Increasing(stream.sent) && Below(stream.sent, BandOffset(b) + i)
      invariant stream.sent == old(stream.sent) + Cards(b, i)
    {
      var granted := stream.Acquire();
      if !granted {
        StillBelow(stream.sent, b, i);
        return false, false;
      }
      NextCard(old(stream.sent), stream.sent, b, i);
      NextAccepted(b, i, sendOk);
      var ok := stream.Send(BandOffset(b) + i, sendOk(CardId(b, i)));
      if !ok {
        StillBelow(stream.sent, b, i);
        return true, true;
      }
    }
  }

  /** Take back all permits, then restore them. */
  method Barrier(stream: Stream) returns (done: bool)
    requires stream.Valid() && stream.pipeline == PIPELINE
    requires stream.sender.Idle? && stream.barrier == 0
    modifies stream`permits, stream`sender, stream`barrier, stream`wire, stream`replies,
      stream`drain, stream`edgesDone, stream`answered, stream`acked
    ensures stream.Valid() && stream.sender.Idle?
    ensures old(stream.acked) <= stream.acked && old(stream.edgesDone) <= stream.edgesDone
    ensures done ==> stream.barrier == 0 && stream.permits == PIPELINE
    ensures !done ==> stream.permits == 0
    ensures done ==> Ids(stream.acked) == stream.sent
  {
    for taken := 0 to PIPELINE
      invariant stream.Valid() && stream.sender.Idle? && stream.barrier == taken
      invariant old(stream.acked) <= stream.acked && old(stream.edgesDone) <= stream.edgesDone
    {
      var granted := stream.Acquire();
      if !granted {
        return false;
      }
      stream.TakeForBarrier();
    }
    CompletedBarrierIsQuiet(PIPELINE, stream.Snapshot());
    stream.RestoreBarrier();
    return true;
  }

  /** While nothing is in flight the drain task can only finish counting. */
  lemma StillQuiet(s: Session, t: Session)
    requires Reaches(PIPELINE, Start(PIPELINE), s) && s.permits == PIPELINE
    requires Reaches(PIPELINE, Start(PIPELINE), t) && t.permits >= PIPELINE
    requires s.acked <= t.acked && s.sent == t.sent
    ensures t.permits == PIPELINE && t.acked == s.acked
    ensures CountsUpTo(s.acked, |s.acked|, t.edgesDone)
  {
    hide Reaches;
    EveryReachableState(PIPELINE, t);
    QuietReading(s);
    QuietReading(t);
  }

  datatype Progress = Blocked | Measured(acked: nat, broken: bool)

  /** One band: read the counter, send, wait for the barrier, read the counter again. The
      drain task may bump the counter before the first reading, too. */
  method RunBand(stream: Stream, b: nat, sendOk: nat -> bool)
    returns (progress: Progress, ghost band: Band)
    requires b < 3 && stream.Valid() && stream.pipeline == PIPELINE
    requires stream.sender.Idle? && stream.barrier == 0 && stream.permits == PIPELINE
    requires Increasing(stream.sent) && Below(stream.sent, BandOffset(b))
    modifies stream`permits, stream`sender, stream`barrier, stream`wire, stream`replies,
      stream`drain, stream`edgesDone, stream`answered, stream`sent, stream`acked, stream`failures
    ensures stream.Valid() && stream.sender.Idle? && old(stream.acked) <= stream.acked
    ensures Increasing(stream.sent) && Below(stream.sent, BandOffset(b + 1))
    ensures progress.Blocked? ==> stream.permits == 0
    ensures progress.Measured? ==> (progress.broken <==> !Accepted(b, BandSize(b), sendOk))
    ensures progress.Measured? ==>
      stream.failures == old(stream.failures) + (if progress.broken then 1 else 0)
    ensures progress.Measured? ==>
      && stream.barrier == 0 && stream.permits == PIPELINE
      && band == Band(|old(stream.acked)|, band.before, |stream.acked|, stream.edgesDone)
      && old(stream.edgesDone) <= band.before
      && CountsUpTo(old(stream.acked), |old(stream.acked)|, band.before)
      && band.before <= band.after && progress.acked == band.after - band.before
      && (!progress.broken ==> stream.sent == old(stream.sent) + Cards(b, BandSize(b)))
  {
    band := Band(0, 0, 0, 0);
    stream.Interfere();
    StillQuiet(old(stream.Snapshot()), stream.Snapshot());
    var before := stream.edgesDone;
    var done, broken := SendBand(stream, b, sendOk);
    if !done {
      return Blocked, band;
    }
    done := Barrier(stream);
    if !done {
      return Blocked, band;
    }
    stream.Interfere();
    EveryReachableState(PIPELINE, stream.Snapshot());
    var after := stream.edgesDone;
    band := Band(|old(stream.acked)|, before, |stream.acked|, after);
    progress := Measured(if after >= before then after - before else 0, broken);
  }

  /** The whole phase. `completed` means that every band passed its barrier. */
  method RunBands(sendOk: nat -> bool)
    returns (stream: Stream, acked: seq<nat>, completed: bool, broken: bool, ghost bands: seq<Band>)
    ensures stream.Valid() && stream.pipeline == 128
    ensures Increasing(stream.sent) && Below(stream.sent, CARDS)
    ensures |acked| == |bands| <= 3 && BandsMeasured(stream.acked, bands)
    ensures forall b | 0 <= b < |acked| :: acked[b] == bands[b].after - bands[b].before
    ensures completed ==> |bands| == 3 && bands[2].to == |stream.sent|
    ensures completed ==> Ids(stream.acked) == stream.sent && stream.drain.Ended?
    ensures completed && !broken ==> stream.sent == Range(20_000)
    ensures completed && !broken ==>
      bands[0].to == 5_000 && bands[1].to == 10_000 && bands[2].to == 20_000
    ensures completed ==> (broken <==> stream.failures > 0)
    ensures completed ==> (broken <==> exists c: nat :: c < 20_000 && !sendOk(c))
    ensures !completed ==> stream.permits == 0
  {
    hide BandsMeasured, CountsUpTo, Increasing, Cards, Range, Reaches, Accepted;
    NothingYet();
    stream := new Stream(PIPELINE);
    acked, completed, broken, bands := [], false, false, [];
    for b := 0 to 3
      invariant fresh(stream) && stream.Valid() && stream.pipeline == PIPELINE
      invariant stream.sender.Idle? && stream.barrier == 0 && stream.permits == PIPELINE
      invariant Increasing(stream.sent) && Below(stream.sent, BandOffset(b))
      invariant |acked| == |bands| == b && BandsMeasured(stream.acked, bands)
      invariant b == 0 ==> stream.acked == []
      invariant b > 0 ==> bands[b - 1].to == |stream.acked| && bands[b - 1].after == stream.edgesDone
      invariant forall k | 0 <= k < b :: acked[k] == bands[k].after - bands[k].before
      invariant !broken ==> stream.sent == Range(BandOffset(b))
      invariant !broken ==> forall k | 0 <= k < b :: bands[k].to == BandOffset(k + 1)
      invariant broken <==> stream.failures > 0
      invariant broken <==> !BandsAccepted(b, sendOk)
    {
      QuietReading(stream.Snapshot());
      ghost var atStart := stream.acked;
      ghost var band: Band;
      var progress: Progress;
      progress, band := RunBand(stream, b, sendOk);
      OneMoreAccepted(b, sendOk);
      StillMeasured(atStart, stream.acked, bands);
      if progress.Blocked? {
        return;
      }
      QuietReading(stream.Snapshot());
      OneMoreBand(atStart, stream.acked, bands, band);
      RangeGrows(b);
      RangeLength(BandOffset(b + 1));
      acked, bands := acked + [progress.acked], bands + [band];
      broken := broken || progress.broken;
    }
    QuietReading(stream.Snapshot());
    ghost var atEnd := stream.acked;
    stream.Close();
    StillMeasured(atEnd, stream.acked, bands);
    completed := true;
  }

  lemma NothingYet()
    ensures Increasing([]) && Below([], 0) && BandsMeasured([], []) && Range(0) == []
  {
  }

  lemma OneMoreAccepted(b: nat, sendOk: nat -> bool)
    requires b < 3
    ensures BandsAccepted(b + 1, sendOk) <==>
      BandsAccepted(b, sendOk) && Accepted(b, BandSize(b), sendOk)
  {
    if BandsAccepted(b, sendOk) && Accepted(b, BandSize(b), sendOk) {
      forall c: nat | c < BandOffset(b + 1) ensures sendOk(c) {
        if c >= BandOffset(b) {
          assert c == CardId(b, c - BandOffset(b));
        }
      }
    }
  }

  lemma RangeLength(n: nat)
    ensures |Range(n)| == n
  {
  }

  lemma RangeGrows(b: nat)
    requires b < 3
    ensures Range(BandOffset(b)) + Cards(b, BandSize(b)) == Range(BandOffset(b + 1))
  {
  }

  lemma StillMeasured(acked: seq<Reply>, longer: seq<Reply>, bands: seq<Band>)
    requires acked <= longer && BandsMeasured(acked, bands)
    ensures BandsMeasured(longer, bands)
  {
    forall b | 0 <= b < |bands| ensures BandMeasured(longer, bands[b]) {
      var band := bands[b];
      assert longer[..band.from] == acked[..band.from] && longer[..band.to] == acked[..band.to];
      assert band.from > 0 ==> longer[..band.from - 1] == acked[..band.from - 1];
      assert band.to > 0 ==> longer[..band.to - 1] == acked[..band.to - 1];
    }
  }

  lemma OneMoreBand(acked: seq<Reply>, longer: seq<Reply>, bands: seq<Band>, band: Band)
    requires acked <= longer && BandsMeasured(longer, bands)
    requires band.from == |acked| && CountsUpTo(acked, |acked|, band.before)
    requires band.to == |longer| && CountsUpTo(longer, |longer|, band.after)
    requires band.before <= band.after
    requires bands != [] ==> bands[|bands| - 1].to == band.from
                             && bands[|bands| - 1].after <= band.before
    requires bands == [] ==> acked == []
    ensures BandsMeasured(longer, bands + [band])
  {
    assert acked == [] ==> Edges(acked[..|acked|]) == 0;
    hide Edges;
    assert acked[..|acked|] == longer[..|acked|];
    assert acked != [] ==> acked[..|acked| - 1] == longer[..|acked| - 1];
    assert BandMeasured(longer, band);
  }

  function LastEdges(acked: seq<Reply>, n: nat): nat
    requires n <= |acked|
  {
    if n == 0 then 0 else acked[n - 1].edges
  }

  /** A band's printed count differs from the edges of its own responses by at most one
      response at either end. */
  lemma BandWithinOneResponse(acked: seq<Reply>, band: Band)
    requires BandMeasured(acked, band)
    ensures var own := Edges(acked[..band.to]) - Edges(acked[..band.from]);
            var count := band.after - band.before;
      own - LastEdges(acked, band.to) <= count <= own + LastEdges(acked, band.from)
  {
    if band.from > 0 {
      assert acked[..band.from][..band.from - 1] == acked[..band.from - 1];
    }
    if band.to > 0 {
      assert acked[..band.to][..band.to - 1] == acked[..band.to - 1];
    }
  }

  /** Between two bands the counter grows by nothing, or by the last response before them:
      edges that neither band counts. */
  lemma GapIsLastResponse(acked: seq<Reply>, bands: seq<Band>, b: nat)
    requires BandsMeasured(acked, bands) && b + 1 < |bands|
    ensures BandMeasured(acked, bands[b])
    ensures var gap := bands[b + 1].before - bands[b].after;
      gap == 0 || gap == LastEdges(acked, bands[b].to)
  {
    var n := bands[b].to;
    assert BandMeasured(acked, bands[b]) && BandMeasured(acked, bands[b + 1]);
    if n > 0 {
      assert acked[..n][..n - 1] == acked[..n - 1];
    }
  }

  /** The request channel of the stream never fills, so `send` never waits for it. */
  lemma RequestChannelNeverFull(s: Session)
    requires Reaches(PIPELINE, Start(PIPELINE), s)
    ensures |s.wire| <= 128 < REQUEST_CHANNEL_DEPTH == 1_024
  {
    EveryReachableState(PIPELINE, s);
  }
}
