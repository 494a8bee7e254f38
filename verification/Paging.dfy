/** Cursor paging over the neighbours of a node, with a filter between the page the server
    returns and the cursor the client is given. */
module Paging {
  import opened Wrappers

  const DEFAULT_PAGE: nat := 25
  const MAX_PAGE: nat := 100

  /** Payload of an edge as `get_edge_state` returns it. */
  datatype EdgeState = EdgeState(approxSum: real, txCount: nat, lastSeen: nat)

  datatype Edge = Edge(neighborId: nat, externalId: Option<string>, state: Option<EdgeState>)

  datatype Member = Member(customerId: nat, externalId: Option<string>, confidence: real, lastSeen: nat)

  datatype Page<T> = Page(items: seq<T>, hasMore: bool, nextCursor: Option<nat>)

  datatype PageError = ZeroLimit | LimitTooLarge | RequestFailed

  function ClampPage(limit: Option<nat>, default: nat, max: nat): Result<nat, PageError> {
    match limit
    case None => Ok(default)
    case Some(value) =>
      if value == 0 then Err(ZeroLimit)
      else if value > max then Err(LimitTooLarge)
      else Ok(value)
  }

  /** A limit is accepted exactly from 1 to `max`; without one the default is used. */
  lemma ClampExactly(value: nat, default: nat, max: nat)
    ensures ClampPage(Some(value), default, max) == Ok(value) <==> 1 <= value <= max
    ensures ClampPage(Some(value), default, max).Err? <==> value == 0 || value > max
    ensures ClampPage(Some(0), default, max) == Err(ZeroLimit)
    ensures ClampPage(None, DEFAULT_PAGE, MAX_PAGE) == Ok(25) && MAX_PAGE == 100
  {
  }

  // ---- The server ----

  /** Node ids start at 1, since cursor 0 asks for the first page; pages are in id order. */
  predicate ByPositiveId(edges: seq<Edge>) {
    && (forall i | 0 <= i < |edges| :: edges[i].neighborId > 0)
    && (forall i, j | 0 <= i < j < |edges| :: edges[i].neighborId < edges[j].neighborId)
  }

  /** The edges after the cursor. */
  function After(edges: seq<Edge>, cursor: nat): seq<Edge> {
    if edges == [] || edges[0].neighborId > cursor then edges else After(edges[1..], cursor)
  }

  /** A page of raw edges; limit 0 means no limit. */
  function Fetch(edges: seq<Edge>, limit: nat, cursor: nat): (seq<Edge>, bool) {
    var rest := After(edges, cursor);
    if limit == 0 || |rest| <= limit then (rest, false) else (rest[..limit], true)
  }

  lemma {:induction false} AfterExactly(edges: seq<Edge>, cursor: nat, e: Edge)
    requires ByPositiveId(edges)
    ensures e in After(edges, cursor) <==> e in edges && e.neighborId > cursor
  {
    if edges != [] && edges[0].neighborId <= cursor {
      AfterExactly(edges[1..], cursor, e);
      assert e in edges <==> e == edges[0] || e in edges[1..];
    } else if edges != [] && e in edges {
      var i :| 0 <= i < |edges| && edges[i] == e;
    }
  }

  /** A page is the edges after the cursor, cut at a limit that is not 0; there is more exactly
      when something was cut off. */
  lemma FetchExactly(edges: seq<Edge>, limit: nat, cursor: nat)
    ensures var (page, more) := Fetch(edges, limit, cursor);
      && page <= After(edges, cursor)
      && (more <==> page != After(edges, cursor))
      && (limit == 0 ==> !more)
      && (limit > 0 ==> |page| <= limit && (more ==> |page| == limit))
  {
  }

  // ---- The client ----

  function MembershipConfidence(approxSum: real, txCount: nat): real {
    if approxSum > 0.0 then approxSum else if txCount > 0 then 1.0 else 0.0
  }

  function ConfidenceOf(e: Edge): real {
    match e.state
    case None => 0.0
    case Some(s) => MembershipConfidence(s.approxSum, s.txCount)
  }

  predicate IsMember(e: Edge) {
    e.state.Some? && (e.state.value.approxSum > 0.0 || e.state.value.txCount > 0)
  }

  function ToMember(e: Edge): Member {
    Member(e.neighborId, e.externalId, ConfidenceOf(e),
           if e.state.Some? then e.state.value.lastSeen else 0)
  }

  /** The members among `edges`, in order. */
  function Members(edges: seq<Edge>): seq<Member> {
    if edges == [] then []
    else
      var n := |edges| - 1;
      Members(edges[..n]) + (if IsMember(edges[n]) then [ToMember(edges[n])] else [])
  }

  /** `m` reports the edge `e`: its neighbour, when it was seen last, and as confidence the
      positive sum of the edge, or 1 for an edge without one that has transactions. */
  predicate Reports(m: Member, e: Edge) {
    && e.state.Some?
    && m.customerId == e.neighborId && m.externalId == e.externalId
    && m.lastSeen == e.state.value.lastSeen
    && (e.state.value.approxSum > 0.0 ==> m.confidence == e.state.value.approxSum)
    && (e.state.value.approxSum <= 0.0 ==> e.state.value.txCount > 0 && m.confidence == 1.0)
  }

  /** Some edge on the page has a sum or transactions and is reported by `m`. */
  predicate OnPage(m: Member, page: seq<Edge>) {
    exists e :: e in page && Reports(m, e)
  }

  predicate Reported(e: Edge, members: seq<Member>) {
    exists m :: m in members && Reports(m, e)
  }

  /** Every member reports an edge of the page, and every edge with a positive sum or with
      transactions is reported. */
  lemma {:induction false} MembersReport(page: seq<Edge>)
    ensures forall m | m in Members(page) :: OnPage(m, page)
    ensures forall e | e in page && e.state.Some?
      && (e.state.value.approxSum > 0.0 || e.state.value.txCount > 0) :: Reported(e, Members(page))
  {
    if page != [] {
      var n := |page| - 1;
      MembersReport(page[..n]);
      var before, last := Members(page[..n]), page[n];
      assert page == page[..n] + [last];
      assert IsMember(last) ==> Reports(ToMember(last), last) && ToMember(last) in Members(page);
      forall m | m in Members(page) ensures OnPage(m, page) {
        if m in before {
          var e :| e in page[..n] && Reports(m, e);
          assert e in page;
        } else {
          assert last in page && Reports(m, last);
        }
      }
      forall e | e in page && e.state.Some?
        && (e.state.value.approxSum > 0.0 || e.state.value.txCount > 0)
        ensures Reported(e, Members(page))
      {
        if e in page[..n] {
          var m :| m in before && Reports(m, e);
          assert m in Members(page);
        }
      }
    }
  }

  /** `get_segment_members`: one page of edges, read and filtered. A request that fails ends
      the call without a page: that of the page itself, or the state of an edge at one of the
      places in `unread`. */
  method GetSegmentMembers(edges: seq<Edge>, limit: nat, cursor: nat, fetched: bool,
                           unread: set<nat>)
    returns (r: Result<(seq<Member>, bool), PageError>)
    ensures r.Ok? <==> fetched && forall i | i in unread :: |Fetch(edges, limit, cursor).0| <= i
    ensures r.Ok? ==> r.value.0 == Members(Fetch(edges, limit, cursor).0)
    ensures r.Ok? ==> r.value.1 == Fetch(edges, limit, cursor).1
    ensures r.Ok? ==> forall m | m in r.value.0 :: OnPage(m, Fetch(edges, limit, cursor).0)
    ensures r.Err? ==> r.error == RequestFailed
  {
    if !fetched {
      return Err(RequestFailed);
    }
    var (page, more) := Fetch(edges, limit, cursor);
    var members: seq<Member> := [];
    for i := 0 to |page|
      invariant members == Members(page[..i])
      invariant forall k | k in unread :: i <= k
    {
      assert page[..i + 1][..i] == page[..i];
      if i in unread {
        return Err(RequestFailed);
      }
      var confidence, lastSeen := 0.0, 0;
      if page[i].state.Some? {
        var s := page[i].state.value;
        confidence, lastSeen := MembershipConfidence(s.approxSum, s.txCount), s.lastSeen;
      }
      if confidence > 0.0 {
        members := members + [Member(page[i].neighborId, page[i].externalId, confidence, lastSeen)];
      }
    }
    assert page[..|page|] == page;
    MembersReport(page);
    return Ok((members, more));
  }

  /** `list_segment_members`: the next cursor is the last member that survived the filter. */
  function MembersPage(edges: seq<Edge>, limit: nat, cursor: nat): Page<Member> {
    var (page, more) := Fetch(edges, limit, cursor);
    var members := Members(page);
    Page(members, more, if members == [] then None else Some(members[|members| - 1].customerId))
  }

  /** `get_neighbors`: the next cursor is the last edge of the page. */
  function NeighborsPage(edges: seq<Edge>, limit: nat, cursor: nat): Page<Edge> {
    var (page, more) := Fetch(edges, limit, cursor);
    Page(page, more, if page == [] then None else Some(page[|page| - 1].neighborId))
  }

  // ---- Positions ----

  lemma {:induction false} AfterPosition(edges: seq<Edge>, p: nat)
    requires ByPositiveId(edges) && p <= |edges|
    ensures After(edges, if p == 0 then 0 else edges[p - 1].neighborId) == edges[p..]
  {
    if p > 0 {
      AfterTail(edges, p, edges[p - 1].neighborId);
    }
  }

  lemma {:induction false} AfterTail(edges: seq<Edge>, p: nat, cursor: nat)
    requires p <= |edges|
    requires forall i | 0 <= i < p :: edges[i].neighborId <= cursor
    requires forall i | p <= i < |edges| :: edges[i].neighborId > cursor
    ensures After(edges, cursor) == edges[p..]
  {
    if p > 0 {
      AfterTail(edges[1..], p - 1, cursor);
      assert edges[1..][p - 1..] == edges[p..];
    }
  }

  /** The cursor that stands at position `p`. */
  function CursorAt(edges: seq<Edge>, p: nat): nat
    requires p <= |edges|
  {
    if p == 0 then 0 else edges[p - 1].neighborId
  }

  lemma {:induction false} MembersAppend(a: seq<Edge>, b: seq<Edge>)
    ensures Members(a + b) == Members(a) + Members(b)
  {
    if b == [] {
      assert a + b == a;
    } else {
      MembersAppend(a, b[..|b| - 1]);
      assert (a + b)[..|a + b| - 1] == a + b[..|b| - 1];
    }
  }

  lemma {:induction false} NoMembers(edges: seq<Edge>)
    ensures Members(edges) == [] <==> forall e | e in edges :: !IsMember(e)
  {
    if edges != [] {
      NoMembers(edges[..|edges| - 1]);
      assert edges == edges[..|edges| - 1] + [edges[|edges| - 1]];
    }
  }

  /** Where the last member of a page stands. */
  lemma {:induction false} LastMember(edges: seq<Edge>) returns (q: nat)
    requires Members(edges) != []
    ensures q < |edges| && IsMember(edges[q])
    ensures forall j | q < j < |edges| :: !IsMember(edges[j])
    ensures Members(edges) == Members(edges[..q + 1])
    ensures Members(edges)[|Members(edges)| - 1].customerId == edges[q].neighborId
  {
    var n := |edges| - 1;
    if IsMember(edges[n]) {
      q := n;
      assert edges[..n + 1] == edges;
    } else {
      q := LastMember(edges[..n]);
      assert edges[..n][..q + 1] == edges[..q + 1];
    }
  }

  // ---- Walking by next_cursor ----

  /** What a client collects that follows `next_cursor` until a page has no more. Not
      `finished`: some page had more but no cursor to continue with. */
  datatype Walk<T> = Walk(items: seq<T>, finished: bool)

  ghost function MembersWalk(edges: seq<Edge>, limit: nat, cursor: nat): Walk<Member>
    requires ByPositiveId(edges) && limit > 0
    decreases |After(edges, cursor)|
  {
    var page := MembersPage(edges, limit, cursor);
    if !page.hasMore then Walk(page.items, true)
    else if page.nextCursor.None? then Walk(page.items, false)
    else
      MembersProgress(edges, limit, cursor);
      var rest := MembersWalk(edges, limit, page.nextCursor.value);
      Walk(page.items + rest.items, rest.finished)
  }

  ghost function NeighborsWalk(edges: seq<Edge>, limit: nat, cursor: nat): Walk<Edge>
    requires ByPositiveId(edges) && limit > 0
    decreases |After(edges, cursor)|
  {
    var page := NeighborsPage(edges, limit, cursor);
    if !page.hasMore then Walk(page.items, true)
    else if page.nextCursor.None? then Walk(page.items, false)
    else
      NeighborsProgress(edges, limit, cursor);
      var rest := NeighborsWalk(edges, limit, page.nextCursor.value);
      Walk(page.items + rest.items, rest.finished)
  }

  lemma {:induction false} AfterIsTail(edges: seq<Edge>, cursor: nat) returns (p: nat)
    ensures p <= |edges| && After(edges, cursor) == edges[p..]
  {
    if edges == [] || edges[0].neighborId > cursor {
      p := 0;
    } else {
      var q := AfterIsTail(edges[1..], cursor);
      p := q + 1;
      assert edges[1..][q..] == edges[p..];
    }
  }

  lemma MembersProgress(edges: seq<Edge>, limit: nat, cursor: nat)
    requires ByPositiveId(edges) && limit > 0
    requires MembersPage(edges, limit, cursor).nextCursor.Some?
    ensures |After(edges, MembersPage(edges, limit, cursor).nextCursor.value)|
      < |After(edges, cursor)|
  {
    var p := AfterIsTail(edges, cursor);
    var page := Fetch(edges, limit, cursor).0;
    var k := LastMember(page);
    assert page[k] == edges[p + k];
    AfterPosition(edges, p + k + 1);
  }

  lemma NeighborsProgress(edges: seq<Edge>, limit: nat, cursor: nat)
    requires ByPositiveId(edges) && limit > 0
    requires NeighborsPage(edges, limit, cursor).nextCursor.Some?
    ensures |After(edges, NeighborsPage(edges, limit, cursor).nextCursor.value)|
      < |After(edges, cursor)|
  {
    var p := AfterIsTail(edges, cursor);
    var page := Fetch(edges, limit, cursor).0;
    assert page[|page| - 1] == edges[p + |page| - 1];
    AfterPosition(edges, p + |page|);
  }

  /** Among `limit` consecutive edges from `i` on there is a member. */
  predicate MemberWithin(edges: seq<Edge>, i: nat, limit: nat)
    requires i + limit <= |edges|
  {
    exists j | i <= j < i + limit :: IsMember(edges[j])
  }

  /** No run of `limit` edges without a member has an edge after it. */
  predicate NoGap(edges: seq<Edge>, limit: nat, p: nat) {
    forall i: nat | p <= i && i + limit < |edges| :: MemberWithin(edges, i, limit)
  }

  /** No member stands behind a run of `limit` edges without one. */
  predicate NoHiddenMember(edges: seq<Edge>, limit: nat, p: nat) {
    forall i: nat, j: nat | p <= i && i + limit <= j < |edges| && IsMember(edges[j]) ::
      MemberWithin(edges, i, limit)
  }

  lemma HiddenAfterMember(edges: seq<Edge>, limit: nat, p: nat, q: nat)
    requires limit > 0 && p <= q < p + limit < |edges| && IsMember(edges[q])
    ensures NoHiddenMember(edges, limit, p) <==> NoHiddenMember(edges, limit, q + 1)
  {
    if NoHiddenMember(edges, limit, q + 1) {
      forall i: nat, j: nat | p <= i && i + limit <= j < |edges| && IsMember(edges[j])
        ensures MemberWithin(edges, i, limit)
      {
        if i <= q { assert IsMember(edges[q]); }
      }
    }
  }

  /** Behind a run of filtered edges every member is hidden. */
  lemma HiddenAfterGap(edges: seq<Edge>, limit: nat, p: nat)
    requires p + limit < |edges| && Members(edges[p..p + limit]) == []
    ensures NoHiddenMember(edges, limit, p) <==> Members(edges[p..]) == []
  {
    var page, rest := edges[p..p + limit], edges[p..];
    NoMembers(page);
    NoMembers(rest);
    assert forall j | p <= j < p + limit :: edges[j] == page[j - p] && page[j - p] in page;
    assert !MemberWithin(edges, p, limit);
    assert forall j | p <= j < |edges| :: edges[j] == rest[j - p] && rest[j - p] in rest;
    if NoHiddenMember(edges, limit, p) {
      forall e | e in rest ensures !IsMember(e) {
        var k :| 0 <= k < |rest| && rest[k] == e;
        assert edges[p + k] == e;
      }
    }
  }

  lemma SameTail<T>(a: seq<T>, b: seq<T>, c: seq<T>)
    ensures a + b == a + c <==> b == c
  {
    assert (a + b)[|a|..] == b && (a + c)[|a|..] == c;
  }

  lemma GapsAfterMember(edges: seq<Edge>, limit: nat, p: nat, q: nat)
    requires limit > 0 && p <= q < p + limit < |edges| && IsMember(edges[q])
    ensures NoGap(edges, limit, p) <==> NoGap(edges, limit, q + 1)
  {
    if NoGap(edges, limit, q + 1) {
      forall i: nat | p <= i && i + limit < |edges| ensures MemberWithin(edges, i, limit) {
        if i <= q { assert IsMember(edges[q]); }
      }
    }
  }

  /** A page with more behind it but without members: the walk ends here, unfinished. */
  lemma EmptyPage(edges: seq<Edge>, limit: nat, p: nat)
    requires ByPositiveId(edges) && limit > 0 && p + limit < |edges|
    requires Members(edges[p..p + limit]) == []
    ensures MembersWalk(edges, limit, CursorAt(edges, p)) == Walk([], false)
    ensures !NoGap(edges, limit, p)
  {
    var page := edges[p..p + limit];
    AfterPosition(edges, p);
    assert edges[p..][..limit] == page;
    NoMembers(page);
    assert forall j | p <= j < p + limit :: edges[j] == page[j - p] && page[j - p] in page;
    assert !MemberWithin(edges, p, limit);
  }

  /** A page with more behind it and a last member at `q`: the walk goes on after `q`. */
  lemma NextPage(edges: seq<Edge>, limit: nat, p: nat) returns (q: nat)
    requires ByPositiveId(edges) && limit > 0 && p + limit < |edges|
    requires Members(edges[p..p + limit]) != []
    ensures p <= q < p + limit && IsMember(edges[q])
    ensures var next := MembersWalk(edges, limit, CursorAt(edges, q + 1));
      MembersWalk(edges, limit, CursorAt(edges, p))
        == Walk(Members(edges[p..q + 1]) + next.items, next.finished)
  {
    hide ByPositiveId, Members, After;
    var page := edges[p..p + limit];
    AfterPosition(edges, p);
    assert edges[p..][..limit] == page;
    var k := LastMember(page);
    q := p + k;
    assert edges[q] == page[k] && page[..k + 1] == edges[p..q + 1];
  }

  lemma SplitMembers(edges: seq<Edge>, p: nat, q: nat)
    requires p <= q < |edges|
    ensures Members(edges[p..]) == Members(edges[p..q + 1]) + Members(edges[q + 1..])
  {
    MembersAppend(edges[p..q + 1], edges[q + 1..]);
    assert edges[p..] == edges[p..q + 1] + edges[q + 1..];
  }

  lemma LastPage(edges: seq<Edge>, limit: nat, p: nat)
    requires ByPositiveId(edges) && limit > 0 && p <= |edges| <= p + limit
    ensures MembersWalk(edges, limit, CursorAt(edges, p)) == Walk(Members(edges[p..]), true)
    ensures NoHiddenMember(edges, limit, p)
  {
    AfterPosition(edges, p);
  }

  /** The walk from the cursor at position `p`. */
  lemma {:induction false} MembersWalkFrom(edges: seq<Edge>, limit: nat, p: nat)
    requires ByPositiveId(edges) && limit > 0 && p <= |edges|
    ensures var walk := MembersWalk(edges, limit, CursorAt(edges, p));
      && walk.items <= Members(edges[p..])
      && (walk.finished ==> walk.items == Members(edges[p..]))
      && (walk.finished <==> NoGap(edges, limit, p))
      && (walk.items == Members(edges[p..]) <==> NoHiddenMember(edges, limit, p))
    decreases |edges| - p
  {
    hide MembersWalk, ByPositiveId, Members, MemberWithin, NoHiddenMember;
    if |edges| <= p + limit {
      LastPage(edges, limit, p);
    } else if Members(edges[p..p + limit]) == [] {
      EmptyPage(edges, limit, p);
      HiddenAfterGap(edges, limit, p);
    } else {
      var q := NextPage(edges, limit, p);
      MembersWalkFrom(edges, limit, q + 1);
      GapsAfterMember(edges, limit, p, q);
      HiddenAfterMember(edges, limit, p, q);
      SplitMembers(edges, p, q);
      SameTail(Members(edges[p..q + 1]), MembersWalk(edges, limit, CursorAt(edges, q + 1)).items,
               Members(edges[q + 1..]));
    }
  }

  /** Following `next_cursor` through the members of a segment: every page keeps id order and
      repeats nothing. The walk comes to an end exactly when no `limit` edges in a row are
      filtered out before the end, and it returns all members exactly when none stands behind
      such a run. */
  lemma MembersWalkExactly(edges: seq<Edge>, limit: nat)
    requires ByPositiveId(edges) && limit > 0
    ensures var walk := MembersWalk(edges, limit, 0);
      && walk.items <= Members(edges)
      && (walk.finished ==> walk.items == Members(edges))
      && (walk.finished <==> NoGap(edges, limit, 0))
      && (walk.items == Members(edges) <==> NoHiddenMember(edges, limit, 0))
  {
    MembersWalkFrom(edges, limit, 0);
    assert edges[0..] == edges;
  }

  /** A segment whose walk gets stuck: the first page is filtered out entirely. */
  lemma WalkCanGetStuck()
    ensures var edges := [Edge(1, None, None), Edge(2, None, Some(EdgeState(0.0, 1, 0)))];
      && ByPositiveId(edges) && Members(edges) != []
      && MembersWalk(edges, 1, 0) == Walk([], false)
  {
    var edges := [Edge(1, None, None), Edge(2, None, Some(EdgeState(0.0, 1, 0)))];
    assert edges[..1] == [edges[0]] && [edges[0]][..0] == [];
    assert Members(edges[..1]) == [];
  }

  lemma {:induction false} MembersInIdOrder(edges: seq<Edge>)
    requires ByPositiveId(edges)
    ensures forall i, j | 0 <= i < j < |Members(edges)| ::
      Members(edges)[i].customerId < Members(edges)[j].customerId
    ensures forall m | m in Members(edges) ::
      m.confidence > 0.0 && exists e :: e in edges && IsMember(e) && m == ToMember(e)
    ensures forall e | e in edges && IsMember(e) :: ToMember(e) in Members(edges)
  {
    if edges != [] {
      var n := |edges| - 1;
      var before := edges[..n];
      MembersInIdOrder(before);
      forall m | m in Members(before) ensures m.customerId < edges[n].neighborId {
        var e :| e in before && IsMember(e) && m == ToMember(e);
      }
      forall e | e in edges && IsMember(e) ensures ToMember(e) in Members(edges) {
        assert e in before || e == edges[n];
      }
      forall m | m in Members(edges)
        ensures m.confidence > 0.0 && exists e :: e in edges && IsMember(e) && m == ToMember(e)
      {
        if m in Members(before) {
          var e :| e in before && IsMember(e) && m == ToMember(e);
          assert e in edges;
        } else {
          assert edges[n] in edges && m == ToMember(edges[n]);
        }
      }
    }
  }

  lemma {:induction false} NeighborsWalkFrom(edges: seq<Edge>, limit: nat, p: nat)
    requires ByPositiveId(edges) && limit > 0 && p <= |edges|
    ensures NeighborsWalk(edges, limit, CursorAt(edges, p)) == Walk(edges[p..], true)
    decreases |edges| - p
  {
    hide ByPositiveId, NeighborsWalk;
    NeighborsStep(edges, limit, p);
    if |edges| > p + limit {
      NeighborsWalkFrom(edges, limit, p + limit);
      assert edges[p..] == edges[p..p + limit] + edges[p + limit..];
    }
  }

  lemma NeighborsStep(edges: seq<Edge>, limit: nat, p: nat)
    requires ByPositiveId(edges) && limit > 0 && p <= |edges|
    ensures |edges| <= p + limit ==>
      NeighborsWalk(edges, limit, CursorAt(edges, p)) == Walk(edges[p..], true)
    ensures |edges| > p + limit ==>
      var rest := NeighborsWalk(edges, limit, CursorAt(edges, p + limit));
      NeighborsWalk(edges, limit, CursorAt(edges, p))
        == Walk(edges[p..p + limit] + rest.items, rest.finished)
  {
    hide ByPositiveId, After;
    AfterPosition(edges, p);
    if |edges| > p + limit {
      assert edges[p..][..limit] == edges[p..p + limit];
    }
  }

  /** Without the filter the walk always returns every neighbour once, in id order: a limit
      that passed `clamp_page` is never 0. */
  lemma NeighborsWalkComplete(edges: seq<Edge>, requested: Option<nat>)
    requires ByPositiveId(edges) && ClampPage(requested, DEFAULT_PAGE, MAX_PAGE).Ok?
    ensures var limit := ClampPage(requested, DEFAULT_PAGE, MAX_PAGE).value;
      0 < limit <= MAX_PAGE && NeighborsWalk(edges, limit, 0) == Walk(edges, true)
  {
    NeighborsWalkFrom(edges, ClampPage(requested, DEFAULT_PAGE, MAX_PAGE).value, 0);
    assert edges[0..] == edges;
  }
}
