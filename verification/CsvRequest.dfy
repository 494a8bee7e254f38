/** `build_batch`: many CSV rows packed into one ingest request. Nodes carry a key that is
    unique within the request, edges name their ends by key. */
module CsvRequest {
  import opened Wrappers
  import opened Decimals

  const MAX_NODES: nat := 1024
  const MAX_EDGES: nat := 4096

  datatype Row = Row(
    customerId: string, cardNo: string, bin: string, deviceId: string, merchantId: string,
    ipAddress: string, lat: string, lng: string, amount: real)

  /** Location of an IP address, computed from a row's latitude and longitude text. */
  datatype Geo = Geo(lat: string, lng: string)

  datatype Kind = Customer | Card | Bin | Device | Merchant | Ip

  datatype Node = Node(nodeType: string, externalId: string, key: string, geo: Option<Geo>)

  datatype Edge = Edge(edgeType: string, src: string, dst: string, value: real)

  function KeyPrefix(kind: Kind): string {
    match kind
    case Customer => "customer"
    case Card => "card"
    case Bin => "bin"
    case Device => "device"
    case Merchant => "merchant"
    case Ip => "ip"
  }

  function NodeType(kind: Kind): string {
    if kind == Ip then "ip_address" else KeyPrefix(kind)
  }

  function Key(kind: Kind, i: nat): string {
    KeyPrefix(kind) + "-" + Decimal(i)
  }

  function ExternalId(kind: Kind, row: Row): string {
    match kind
    case Customer => row.customerId
    case Card => row.cardNo
    case Bin => row.bin
    case Device => row.deviceId
    case Merchant => row.merchantId
    case Ip => row.ipAddress
  }

  function NodeFor(kind: Kind, i: nat, row: Row, geo: Geo): Node {
    Node(NodeType(kind), ExternalId(kind, row), Key(kind, i),
         if kind == Ip then Some(geo) else None)
  }

  /** The nodes and edges `build_batch` pushes for the row at `i`. */
  function RowNodes(i: nat, row: Row, geo: Geo): seq<Node> {
    [NodeFor(Customer, i, row, geo), NodeFor(Card, i, row, geo), NodeFor(Bin, i, row, geo),
     NodeFor(Device, i, row, geo), NodeFor(Merchant, i, row, geo), NodeFor(Ip, i, row, geo)]
  }

  function RowEdges(i: nat, row: Row): seq<Edge> {
    [Edge("HAS_CARD", Key(Customer, i), Key(Card, i), 1.0),
     Edge("OWNS_DEVICE", Key(Customer, i), Key(Device, i), 1.0),
     Edge("HAS_BIN", Key(Card, i), Key(Bin, i), 1.0),
     Edge("TRANSACTS_AT", Key(Card, i), Key(Merchant, i), row.amount),
     Edge("USES_DEVICE", Key(Card, i), Key(Device, i), row.amount),
     Edge("USES_IP", Key(Card, i), Key(Ip, i), row.amount)]
  }

  function Nodes(rows: seq<Row>, geos: seq<Geo>): (r: seq<Node>)
    requires |rows| == |geos|
    ensures |r| == 6 * |rows|
  {
    if rows == [] then []
    else
      var n := |rows| - 1;
      Nodes(rows[..n], geos[..n]) + RowNodes(n, rows[n], geos[n])
  }

  function Edges(rows: seq<Row>): (r: seq<Edge>)
    ensures |r| == 6 * |rows|
  {
    if rows == [] then []
    else var n := |rows| - 1; Edges(rows[..n]) + RowEdges(n, rows[n])
  }

  /** The loop zips rows and locations, so the shorter of the two decides. */
  method BuildBatch(rows: seq<Row>, geos: seq<Geo>) returns (nodes: seq<Node>, edges: seq<Edge>)
    ensures var n := if |rows| <= |geos| then |rows| else |geos|;
      nodes == Nodes(rows[..n], geos[..n]) && edges == Edges(rows[..n])
  {
    nodes, edges := [], [];
    for i := 0 to if |rows| <= |geos| then |rows| else |geos|
      invariant nodes == Nodes(rows[..i], geos[..i]) && edges == Edges(rows[..i])
    {
      var f, geo := rows[i], geos[i];
      var sfx := Decimal(i);
      var customer, card, bin := "customer-" + sfx, "card-" + sfx, "bin-" + sfx;
      var device, merchant, ip := "device-" + sfx, "merchant-" + sfx, "ip-" + sfx;
      KeysSpelled(i);
      nodes := nodes + [
        Node("customer", f.customerId, customer, None),
        Node("card", f.cardNo, card, None),
        Node("bin", f.bin, bin, None),
        Node("device", f.deviceId, device, None),
        Node("merchant", f.merchantId, merchant, None),
        Node("ip_address", f.ipAddress, ip, Some(geo))];
      edges := edges + [
        Edge("HAS_CARD", customer, card, 1.0),
        Edge("OWNS_DEVICE", customer, device, 1.0),
        Edge("HAS_BIN", card, bin, 1.0),
        Edge("TRANSACTS_AT", card, merchant, f.amount),
        Edge("USES_DEVICE", card, device, f.amount),
        Edge("USES_IP", card, ip, f.amount)];
      assert rows[..i + 1][..i] == rows[..i] && geos[..i + 1][..i] == geos[..i];
    }
  }

  lemma KeysSpelled(i: nat)
    ensures Key(Customer, i) == "customer-" + Decimal(i) && Key(Card, i) == "card-" + Decimal(i)
    ensures Key(Bin, i) == "bin-" + Decimal(i) && Key(Device, i) == "device-" + Decimal(i)
    ensures Key(Merchant, i) == "merchant-" + Decimal(i) && Key(Ip, i) == "ip-" + Decimal(i)
  {
    forall kind ensures Key(kind, i) == (KeyPrefix(kind) + "-") + Decimal(i) {}
  }

  // ---- What a request says ----

  /** An edge with its ends resolved to external ids. */
  datatype Fact = Fact(
    edgeType: string, srcType: string, srcId: string, dstType: string, dstId: string, value: real)

  function Lookup(nodes: seq<Node>, key: string): Option<Node> {
    if nodes == [] then None
    else if nodes[|nodes| - 1].key == key then Some(nodes[|nodes| - 1])
    else Lookup(nodes[..|nodes| - 1], key)
  }

  function Resolve(nodes: seq<Node>, e: Edge): Option<Fact> {
    match (Lookup(nodes, e.src), Lookup(nodes, e.dst))
    case (Some(s), Some(d)) =>
      Some(Fact(e.edgeType, s.nodeType, s.externalId, d.nodeType, d.externalId, e.value))
    case _ => None
  }

  function Facts(nodes: seq<Node>, edges: seq<Edge>): seq<Option<Fact>> {
    seq(|edges|, (i: nat) requires i < |edges| => Resolve(nodes, edges[i]))
  }

  /** What one CSV row says about the graph. */
  function RowFacts(row: Row): seq<Option<Fact>> {
    [Some(Fact("HAS_CARD", "customer", row.customerId, "card", row.cardNo, 1.0)),
     Some(Fact("OWNS_DEVICE", "customer", row.customerId, "device", row.deviceId, 1.0)),
     Some(Fact("HAS_BIN", "card", row.cardNo, "bin", row.bin, 1.0)),
     Some(Fact("TRANSACTS_AT", "card", row.cardNo, "merchant", row.merchantId, row.amount)),
     Some(Fact("USES_DEVICE", "card", row.cardNo, "device", row.deviceId, row.amount)),
     Some(Fact("USES_IP", "card", row.cardNo, "ip_address", row.ipAddress, row.amount))]
  }

  function AllRowFacts(rows: seq<Row>): seq<Option<Fact>> {
    if rows == [] then []
    else AllRowFacts(rows[..|rows| - 1]) + RowFacts(rows[|rows| - 1])
  }

  lemma KeyInjective(kind: Kind, i: nat, other: Kind, j: nat)
    requires Key(kind, i) == Key(other, j)
    ensures kind == other && i == j
  {
    SeparatorSplits(KeyPrefix(kind), Decimal(i), KeyPrefix(other), Decimal(j), '-');
    DecimalInjective(i, j);
  }

  lemma {:induction false} LookupAppend(a: seq<Node>, b: seq<Node>, key: string)
    ensures Lookup(a + b, key) ==
      if Lookup(b, key).Some? then Lookup(b, key) else Lookup(a, key)
  {
    if b == [] {
      assert a + b == a;
    } else {
      LookupAppend(a, b[..|b| - 1], key);
      assert (a + b)[..|a + b| - 1] == a + b[..|b| - 1];
    }
  }

  lemma {:induction false} LookupInRow(kind: Kind, k: nat, i: nat, row: Row, geo: Geo)
    ensures Lookup(RowNodes(i, row, geo), Key(kind, k)) ==
      if k == i then Some(NodeFor(kind, i, row, geo)) else None
  {
    hide Key;
    if k != i {
      NoOtherKey(kind, k, i);
    } else {
      OnlyOwnKey(kind, i);
    }
    LookupSix(RowNodes(i, row, geo), Key(kind, k));
  }

  lemma NoOtherKey(kind: Kind, k: nat, i: nat)
    requires k != i
    ensures forall other :: Key(other, i) != Key(kind, k)
  {
    forall other ensures Key(other, i) != Key(kind, k) {
      if Key(other, i) == Key(kind, k) { KeyInjective(other, i, kind, k); }
    }
  }

  lemma OnlyOwnKey(kind: Kind, i: nat)
    ensures forall other :: Key(other, i) == Key(kind, i) ==> other == kind
  {
    forall other | Key(other, i) == Key(kind, i) ensures other == kind {
      KeyInjective(other, i, kind, i);
    }
  }

  lemma LookupSix(nodes: seq<Node>, key: string)
    requires |nodes| == 6
    ensures Lookup(nodes, key) ==
      if nodes[5].key == key then Some(nodes[5])
      else if nodes[4].key == key then Some(nodes[4])
      else if nodes[3].key == key then Some(nodes[3])
      else if nodes[2].key == key then Some(nodes[2])
      else if nodes[1].key == key then Some(nodes[1])
      else if nodes[0].key == key then Some(nodes[0])
      else None
  {
    assert nodes[..6] == nodes;
    LookupStep(nodes, key, 6);
    LookupStep(nodes, key, 5);
    LookupStep(nodes, key, 4);
    LookupStep(nodes, key, 3);
    LookupStep(nodes, key, 2);
    LookupStep(nodes, key, 1);
    assert nodes[..0] == [];
  }

  lemma LookupStep(nodes: seq<Node>, key: string, k: nat)
    requires 0 < k <= |nodes|
    ensures Lookup(nodes[..k], key) ==
      if nodes[k - 1].key == key then Some(nodes[k - 1]) else Lookup(nodes[..k - 1], key)
  {
    assert nodes[..k][..k - 1] == nodes[..k - 1];
  }

  /** Every key names the node of its own row, whatever the other rows contain. */
  lemma {:induction false} LookupInBatch(rows: seq<Row>, geos: seq<Geo>, kind: Kind, i: nat)
    requires i < |rows| == |geos|
    ensures Lookup(Nodes(rows, geos), Key(kind, i)) == Some(NodeFor(kind, i, rows[i], geos[i]))
  {
    hide Key, RowNodes;
    var n := |rows| - 1;
    LookupAppend(Nodes(rows[..n], geos[..n]), RowNodes(n, rows[n], geos[n]), Key(kind, i));
    LookupInRow(kind, i, n, rows[n], geos[n]);
    if i < n {
      LookupInBatch(rows[..n], geos[..n], kind, i);
    }
  }

  function KindAt(c: nat): Kind {
    if c == 0 then Customer else if c == 1 then Card else if c == 2 then Bin
    else if c == 3 then Device else if c == 4 then Merchant else Ip
  }

  lemma RowNodeAt(i: nat, row: Row, geo: Geo, c: nat)
    requires c < 6
    ensures |RowNodes(i, row, geo)| == 6
    ensures RowNodes(i, row, geo)[c] == NodeFor(KindAt(c), i, row, geo)
  {
  }

  lemma {:induction false} NodeAt(rows: seq<Row>, geos: seq<Geo>, i: nat, c: nat)
    requires i < |rows| == |geos| && c < 6
    ensures Nodes(rows, geos)[6 * i + c] == NodeFor(KindAt(c), i, rows[i], geos[i])
  {
    hide RowNodes, NodeFor, KindAt;
    var n := |rows| - 1;
    RowNodeAt(n, rows[n], geos[n], c);
    if i < n {
      NodeAt(rows[..n], geos[..n], i, c);
    }
  }

  /** No two nodes of a request share a key. */
  lemma KeysDistinct(rows: seq<Row>, geos: seq<Geo>, p: nat, q: nat)
    requires |rows| == |geos| && p < q < |Nodes(rows, geos)|
    ensures Nodes(rows, geos)[p].key != Nodes(rows, geos)[q].key
  {
    hide Key, Nodes;
    NodeAt(rows, geos, p / 6, p % 6);
    NodeAt(rows, geos, q / 6, q % 6);
    if Nodes(rows, geos)[p].key == Nodes(rows, geos)[q].key {
      KeyInjective(KindAt(p % 6), p / 6, KindAt(q % 6), q / 6);
    }
  }

  lemma RowEdgesResolve(rows: seq<Row>, geos: seq<Geo>, i: nat)
    requires i < |rows| == |geos|
    ensures Facts(Nodes(rows, geos), RowEdges(i, rows[i])) == RowFacts(rows[i])
  {
    hide Key, Nodes, Lookup;
    LookupInBatch(rows, geos, Customer, i);
    LookupInBatch(rows, geos, Card, i);
    LookupInBatch(rows, geos, Bin, i);
    LookupInBatch(rows, geos, Device, i);
    LookupInBatch(rows, geos, Merchant, i);
    LookupInBatch(rows, geos, Ip, i);
  }

  lemma {:induction false} PrefixResolves(rows: seq<Row>, geos: seq<Geo>, m: nat)
    requires |rows| == |geos| && m <= |rows|
    ensures Facts(Nodes(rows, geos), Edges(rows[..m])) == AllRowFacts(rows[..m])
  {
    hide RowEdges, RowFacts, Nodes, Resolve;
    if m > 0 {
      PrefixResolves(rows, geos, m - 1);
      RowEdgesResolve(rows, geos, m - 1);
      assert rows[..m][..m - 1] == rows[..m - 1];
      FactsAppend(Nodes(rows, geos), Edges(rows[..m - 1]), RowEdges(m - 1, rows[m - 1]));
    }
  }

  lemma FactsAppend(nodes: seq<Node>, a: seq<Edge>, b: seq<Edge>)
    ensures Facts(nodes, a + b) == Facts(nodes, a) + Facts(nodes, b)
  {
  }

  /** Every edge of a batched request resolves, to the relation its row states between the
      row's own nodes and with the node types the relation connects. */
  lemma BatchMeaning(rows: seq<Row>, geos: seq<Geo>)
    requires |rows| == |geos|
    ensures Facts(Nodes(rows, geos), Edges(rows)) == AllRowFacts(rows)
  {
    PrefixResolves(rows, geos, |rows|);
    assert rows[..|rows|] == rows;
  }

  /** One request per row, in order. */
  function OneByOne(rows: seq<Row>, geos: seq<Geo>): seq<Option<Fact>>
    requires |rows| == |geos|
  {
    if rows == [] then []
    else
      var n := |rows| - 1;
      OneByOne(rows[..n], geos[..n]) + Facts(Nodes([rows[n]], [geos[n]]), Edges([rows[n]]))
  }

  /** Batching changes nothing: one request for all rows says exactly what one request per
      row would have said. */
  lemma {:induction false} BatchingKeepsMeaning(rows: seq<Row>, geos: seq<Geo>)
    requires |rows| == |geos|
    ensures Facts(Nodes(rows, geos), Edges(rows)) == OneByOne(rows, geos)
  {
    BatchMeaning(rows, geos);
    if rows != [] {
      var n := |rows| - 1;
      BatchingKeepsMeaning(rows[..n], geos[..n]);
      BatchMeaning(rows[..n], geos[..n]);
      BatchMeaning([rows[n]], [geos[n]]);
      assert [rows[n]][..0] == [];
      assert AllRowFacts([rows[n]]) == RowFacts(rows[n]);
    }
  }

  /** A request of at most 150 rows stays within the engine's limits. */
  lemma WithinLimits(rows: seq<Row>, geos: seq<Geo>)
    requires |rows| == |geos| <= 150
    ensures |Nodes(rows, geos)| == |Edges(rows)| == 6 * |rows|
    ensures |Nodes(rows, geos)| <= 1_024 == MAX_NODES && |Edges(rows)| <= 4_096 == MAX_EDGES
  {
  }
}
