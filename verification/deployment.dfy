/** From the configured node types to delivered connections: placement, allocation and relays together. */
module Deployment {

  import opened Results
  import opened Text
  import opened Cluster
  import opened Tailnet
  import opened Relay
  import Placement

  /** No two machines of the cluster share a tailnet address. */
  ghost predicate OneAddressEach(tn: TailnetConfig, h: Hosts, workerIps: seq<string>) {
    forall a, b | (a == h.headIp || a in workerIps) && (b == h.headIp || b in workerIps)
                  && TailnetIp(tn, h, a) == TailnetIp(tn, h, b) :: a == b
  }

  /** The workers are planned on tailnet machines, and the allocator accepts the plan with `rows`. */
  ghost predicate Deploys(types: seq<Placement.NodeType>, workerIps: seq<string>, tn: TailnetConfig, h: Hosts,
                          rows: seq<Row>) {
    && Placement.Plan(types, workerIps).Ok? && Placement.DistinctNames(types) && Placement.TailnetOnly(h, workerIps)
    && ConfigError(tn).None? && RowsOf(rows, tn, h, Participants(h, Placement.Plan(types, workerIps).value))
    && tn.headAdvertiseIp != LOCAL && OneAddressEach(tn, h, workerIps)
  }

  lemma DeploysAllocates(types: seq<Placement.NodeType>, workerIps: seq<string>, tn: TailnetConfig, h: Hosts,
                         rows: seq<Row>)
    requires Deploys(types, workerIps, tn, h, rows)
    ensures var ks := Placement.Plan(types, workerIps).value;
            |rows| == |ks| && (forall j | 0 <= j < |rows| :: rows[j].key == ks[j]) && Safe(tn, h, rows)
  {
    hide Placement.Plan; hide Placement.Wanted; hide RowsOf; hide Safe; hide Participants; hide OneAddressEach;
    Placement.PlanAllocates(types, workerIps, tn, h, rows);
  }

  lemma PlannedOnPool(types: seq<Placement.NodeType>, workerIps: seq<string>, j: nat)
    requires Placement.Plan(types, workerIps).Ok? && j < |Placement.Plan(types, workerIps).value|
    ensures Placement.Plan(types, workerIps).value[j].ip in workerIps
  {
    Placement.PlacesAll(types, workerIps);
    hide Placement.Plan; hide Placement.Wanted;
    var k := Placement.Plan(types, workerIps).value[j];
    var i :| 0 <= i < |types| && Placement.KeyOf(k, types[i], workerIps);
  }

  lemma DeploysDeployable(types: seq<Placement.NodeType>, workerIps: seq<string>, net: Net)
    requires Deploys(types, workerIps, net.tn, net.h, net.rows)
    ensures Deployable(net)
  {
    var ks := Placement.Plan(types, workerIps).value;
    DeploysAllocates(types, workerIps, net.tn, net.h, net.rows);
    forall m | net.IsMachine(m) ensures m == net.h.headIp || m in workerIps {
      if m != net.h.headIp {
        var i :| 0 <= i < |net.rows| && net.rows[i].key.ip == m;
        PlannedOnPool(types, workerIps, i);
      }
    }
    hide Placement.Plan; hide RowsOf; hide Safe; hide Participants; hide HasTool; hide TailnetIp;
  }

  /** End to end, from the configuration: whenever the placement succeeds and the allocator accepts it, every planned
      worker has exactly its row; a machine's relay starts exactly if no tool of its participants is on one of the
      three ports taken there; and from every machine every participant's tools and ports are delivered to it alone,
      exactly as far as the two relays are up and the port is none of the three. */
  lemma PlanDelivers(types: seq<Placement.NodeType>, workerIps: seq<string>, net: Net, m: string, w: Who, port: int)
    requires Deploys(types, workerIps, net.tn, net.h, net.rows) && net.IsMachine(m) && Known(net, w)
    ensures var ks := Placement.Plan(types, workerIps).value;
            |net.rows| == |ks| == Placement.Wanted(types) && forall j | 0 <= j < |ks| :: net.rows[j].key == ks[j]
    ensures net.RelayUp(m) <==> PortsFree(net, m)
    ensures var ip := Advertised(net, w);
            HasTool(net, w, port) ==>
              && (Reaches(net, m, ip, port, w, 2)
                  <==> m == Machine(net, w) || (net.RelayUp(m) && net.RelayUp(Machine(net, w))))
              && (m == Machine(net, w) || net.RelayUp(m) ==> forall v, n | Reaches(net, m, ip, port, v, n) :: v == w)
    ensures HasPort(net, w, port) && port >= 0 ==>
              var target := Advertised(net, w) + ":" + Decimal(port);
              && (ConnectReaches(net, m, target, w, 2) <==> net.RelayUp(m) && Arrives(net, w, port))
              && (forall v, n: nat | ConnectReaches(net, m, target, v, n) :: v == w)
              && (AllUp(net) ==>
                    (ConnectReaches(net, m, target, w, 2)
                     <==> port != net.tn.connectProxyPort && port != net.tn.socksPort && port != net.tn.socksPort + 1))
  {
    hide *;
    PlanOf(types, workerIps, net.tn, net.h, net.rows);
    DeploysAllocates(types, workerIps, net.tn, net.h, net.rows);
    DeploysDeployable(types, workerIps, net);
    SafeOf(net);
    RelayUpIff(net, m);
    if HasTool(net, w, port) { ToolDelivery(net, m, w, port); }
    if HasPort(net, w, port) && port >= 0 { ConnectDelivery(net, m, w, port); }
  }

  lemma PlanOf(types: seq<Placement.NodeType>, workerIps: seq<string>, tn: TailnetConfig, h: Hosts, rows: seq<Row>)
    requires Deploys(types, workerIps, tn, h, rows)
    ensures Placement.Plan(types, workerIps).Ok?
    ensures |Placement.Plan(types, workerIps).value| == Placement.Wanted(types)
  {
    Placement.PlacesAll(types, workerIps);
    hide Placement.Plan; hide Placement.Wanted; hide RowsOf; hide Participants;
  }

  // ---------------------------------------------------------------- the default configuration

  lemma DefaultBlocks(head: string, h: Hosts, ps: seq<Key>, rows: seq<Row>, i: nat, p: int)
    requires RowsOf(rows, DefaultConfig(head), h, ps) && i < |rows| && rows[i].alloc.Owns(p)
    ensures p >= 24000
  {
    var tn := DefaultConfig(head);
    DefaultFits(head);
    hide DefaultConfig; hide StopOf; hide RowOf; hide NothingStops; hide DistinctKeys; hide Alloc.Owns; hide AllocFor;
    hide ConfigError;
    var j := RowIndex(tn, h, ps, rows[i]);
    StopFacts(tn, h, ps, j);
    BlockBounds(tn, h, ps[j].ip, j, Rank(ps, j), p);
    DefaultBase(head);
    assert Rank(ps, j) * tn.blockSize >= 0;
  }

  lemma DefaultBase(head: string)
    ensures DefaultConfig(head).blockBase == 24000 && DefaultConfig(head).blockSize == 256
    ensures DefaultConfig(head).connectProxyPort == 13129 && DefaultConfig(head).socksPort == 1055
    ensures DefaultConfig(head).headAdvertiseIp != LOCAL
    ensures !HeadOwns(DefaultConfig(head), 13129) && !HeadOwns(DefaultConfig(head), 1055)
            && !HeadOwns(DefaultConfig(head), 1056)
  {
    assert "127.200.0.1"[4] == '2';
  }

  /** With the default ports nobody has one of the three. */
  lemma DefaultApart(head: string, ps: seq<Key>, net: Net, w: Who, port: int)
    requires net.tn == DefaultConfig(head) && RowsOf(net.rows, net.tn, net.h, ps) && Known(net, w)
    requires port == net.tn.connectProxyPort || DaemonPort(net.tn, port)
    ensures !HasPort(net, w, port)
  {
    DefaultBase(head);
    hide DefaultConfig; hide RowsOf; hide Alloc.Owns; hide HeadOwns;
    if w.Worker? && net.rows[w.row].alloc.Owns(port) { DefaultBlocks(head, net.h, ps, net.rows, w.row, port); }
  }

  /** So every relay starts. */
  lemma DefaultUp(head: string, ps: seq<Key>, net: Net, m: string)
    requires net.tn == DefaultConfig(head) && RowsOf(net.rows, net.tn, net.h, ps) && Deployable(net)
    ensures net.RelayUp(m)
  {
    DefaultBase(head);
    forall w, port | Known(net, w) && (port == net.tn.connectProxyPort || DaemonPort(net.tn, port))
      ensures !HasTool(net, w, port)
    {
      DefaultApart(head, ps, net, w, port);
      if HasTool(net, w, port) { ToolIsPort(net, w, port); }
    }
    hide DefaultConfig; hide RowsOf; hide HasTool; hide HasPort; hide Deployable; hide NoClash;
    assert PortsFree(net, m);
    SafeOf(net);
    RelayUpIff(net, m);
  }

  /** With the default configuration nothing is left to check: from every machine, every tool and every port of every
      participant is reached, and nobody else. */
  lemma DefaultDelivers(types: seq<Placement.NodeType>, workerIps: seq<string>, head: string, net: Net, m: string,
                        w: Who, port: nat)
    requires net.tn == DefaultConfig(head) && Deploys(types, workerIps, net.tn, net.h, net.rows)
    requires net.IsMachine(m) && Known(net, w) && HasPort(net, w, port)
    ensures var ip := Advertised(net, w);
            HasTool(net, w, port) ==>
              Reaches(net, m, ip, port, w, 2) && forall v, n | Reaches(net, m, ip, port, v, n) :: v == w
    ensures var target := Advertised(net, w) + ":" + Decimal(port);
            ConnectReaches(net, m, target, w, 2) && forall v, n: nat | ConnectReaches(net, m, target, v, n) :: v == w
  {
    hide *;
    DeploysRows(types, workerIps, net.tn, net.h, net.rows);
    DeploysDeployable(types, workerIps, net);
    var ps := Participants(net.h, Placement.Plan(types, workerIps).value);
    DefaultUp(head, ps, net, m);
    DefaultUp(head, ps, net, Machine(net, w));
    ArrivesUp(net, w, port);
    PlanDelivers(types, workerIps, net, m, w, port);
    if port == net.tn.connectProxyPort || DaemonPort(net.tn, port) { DefaultApart(head, ps, net, w, port); }
    DaemonPortIs(net.tn, port);
  }

  lemma DeploysRows(types: seq<Placement.NodeType>, workerIps: seq<string>, tn: TailnetConfig, h: Hosts, rows: seq<Row>)
    requires Deploys(types, workerIps, tn, h, rows)
    ensures Placement.Plan(types, workerIps).Ok?
            && RowsOf(rows, tn, h, Participants(h, Placement.Plan(types, workerIps).value))
  {
    hide Placement.Plan; hide RowsOf; hide Participants;
  }
}
