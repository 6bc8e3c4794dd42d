/** The relay spec of each machine, the network the relays form, and end-to-end delivery. */
module Relay {

  import opened Results
  import opened Text
  import opened Cluster
  import opened Tailnet

  datatype Via = Socks | Direct | Connect | Daemon

  /** A listening socket and where what it accepts is forwarded to (the same port); tailscaled's own are `Daemon`. */
  datatype Listener = Listener(bindIp: string, port: int, destIp: string, via: Via)

  /** `routes` maps an advertise address to a tailnet address, or to None for this very machine. */
  datatype Spec = Spec(listeners: seq<Listener>, routes: map<string, Option<string>>)

  // ---------------------------------------------------------------- what a machine's relay must listen on

  function ToolListeners(bindIp: string, lo: int, hi: int, destIp: string, via: Via): (ls: seq<Listener>)
    ensures |ls| == if hi < lo then 0 else hi - lo + 1
    ensures forall i | 0 <= i < |ls| :: ls[i] == Listener(bindIp, lo + i, destIp, via)
  {
    if hi < lo then [] else seq(hi - lo + 1, i => Listener(bindIp, lo + i, destIp, via))
  }

  function HeadListeners(tn: TailnetConfig, isHead: bool): seq<Listener> {
    if isHead then ToolListeners(LOCAL, tn.headToolMin, tn.headToolMax, tn.headAdvertiseIp, Direct)
    else ToolListeners(tn.headAdvertiseIp, tn.headToolMin, tn.headToolMax, tn.headTailnetIp, Socks)
  }

  /** A worker's tools: a local bridge on its own machine, a forwarder everywhere else. */
  function RowListeners(row: Row, localIp: string): seq<Listener> {
    var a := row.alloc;
    if row.key.ip == localIp then ToolListeners(LOCAL, a.toolMin, a.toolMax, a.advertiseIp, Direct)
    else ToolListeners(a.advertiseIp, a.toolMin, a.toolMax, a.tailnetIp, Socks)
  }

  function Listeners(tn: TailnetConfig, localIp: string, isHead: bool, rows: seq<Row>): seq<Listener> {
    if rows == [] then [Listener(LOCAL, tn.connectProxyPort, "", Connect)] + HeadListeners(tn, isHead)
    else
      var n := |rows| - 1;
      Listeners(tn, localIp, isHead, rows[..n]) + RowListeners(rows[n], localIp)
  }

  function Routes(tn: TailnetConfig, localIp: string, isHead: bool, rows: seq<Row>): map<string, Option<string>> {
    if rows == [] then map[tn.headAdvertiseIp := if isHead then None else Some(tn.headTailnetIp)]
    else
      var n := |rows| - 1;
      var row := rows[n];
      Routes(tn, localIp, isHead,
        rows[..n])[row.alloc.advertiseIp := if row.key.ip == localIp then None else Some(row.alloc.tailnetIp)]
  }

  method AppendTools(listeners: seq<Listener>, bindIp: string, lo: int, hi: int, destIp: string, via: Via)
    returns (ls: seq<Listener>)
    ensures ls == listeners + ToolListeners(bindIp, lo, hi, destIp, via)
  {
    ls := listeners;
    var port := lo;
    while port < hi + 1
      invariant lo <= port && (if lo <= hi + 1 then port <= hi + 1 else port == lo)
      invariant ls == listeners + ToolListeners(bindIp, lo, port - 1, destIp, via)
    {
      assert ToolListeners(bindIp, lo, port, destIp, via)
          == ToolListeners(bindIp, lo, port - 1, destIp, via) + [Listener(bindIp, port, destIp, via)];
      ls := ls + [Listener(bindIp, port, destIp, via)];
      port := port + 1;
    }
  }

  /** The relay spec of one host; None stands for the head machine. */
  method BuildRelaySpec(tn: TailnetConfig, headIp: string, rows: seq<Row>, hostIp: Option<string>) returns (spec: Spec)
    ensures var localIp := if hostIp.None? then headIp else hostIp.value;
            spec == Spec(Listeners(tn, localIp, hostIp.None?, rows), Routes(tn, localIp, hostIp.None?, rows))
  {
    hide *;
    var localIp := if hostIp.None? then headIp else hostIp.value;
    var routes := map[tn.headAdvertiseIp := if hostIp.None? then None else Some(tn.headTailnetIp)];
    NoRowsYet(tn, localIp, hostIp.None?, rows);
    for i := 0 to |rows|
      invariant routes == Routes(tn, localIp, hostIp.None?, rows[..i])
    {
      NextRowOf(tn, localIp, hostIp.None?, rows, i);
      var alloc := rows[i].alloc;
      routes := routes[alloc.advertiseIp := if rows[i].key.ip == localIp then None else Some(alloc.tailnetIp)];
    }
    var listeners := [Listener(LOCAL, tn.connectProxyPort, "", Connect)];
    if hostIp.Some? {
      listeners := AppendTools(listeners, tn.headAdvertiseIp, tn.headToolMin, tn.headToolMax, tn.headTailnetIp, Socks);
    } else {
      listeners := AppendTools(listeners, LOCAL, tn.headToolMin, tn.headToolMax, tn.headAdvertiseIp, Direct);
    }
    for i := 0 to |rows|
      invariant listeners == Listeners(tn, localIp, hostIp.None?, rows[..i])
    {
      NextRowOf(tn, localIp, hostIp.None?, rows, i);
      var alloc := rows[i].alloc;
      if rows[i].key.ip == localIp {
        listeners := AppendTools(listeners, LOCAL, alloc.toolMin, alloc.toolMax, alloc.advertiseIp, Direct);
      } else {
        listeners := AppendTools(listeners, alloc.advertiseIp, alloc.toolMin, alloc.toolMax, alloc.tailnetIp, Socks);
      }
    }
    assert rows[..|rows|] == rows;
    spec := Spec(listeners, routes);
  }

  lemma NoRowsYet(tn: TailnetConfig, localIp: string, isHead: bool, rows: seq<Row>)
    ensures Routes(tn, localIp, isHead, rows[..0])
            == map[tn.headAdvertiseIp := if isHead then None else Some(tn.headTailnetIp)]
    ensures Listeners(tn, localIp, isHead, rows[..0])
            == [Listener(LOCAL, tn.connectProxyPort, "", Connect)]
               + if isHead then ToolListeners(LOCAL, tn.headToolMin, tn.headToolMax, tn.headAdvertiseIp, Direct)
                 else ToolListeners(tn.headAdvertiseIp, tn.headToolMin, tn.headToolMax, tn.headTailnetIp, Socks)
  {
    hide ToolListeners;
  }

  lemma NextRowOf(tn: TailnetConfig, localIp: string, isHead: bool, rows: seq<Row>, i: nat)
    requires i < |rows|
    ensures var a, mine := rows[i].alloc, rows[i].key.ip == localIp;
            && Routes(tn, localIp, isHead, rows[..i + 1])
               == Routes(tn, localIp, isHead, rows[..i])[a.advertiseIp := if mine then None else Some(a.tailnetIp)]
            && Listeners(tn, localIp, isHead, rows[..i + 1])
               == Listeners(tn, localIp, isHead, rows[..i])
                  + if mine then ToolListeners(LOCAL, a.toolMin, a.toolMax, a.advertiseIp, Direct)
                    else ToolListeners(a.advertiseIp, a.toolMin, a.toolMax, a.tailnetIp, Socks)
  {
    hide ToolListeners;
    assert rows[..i + 1][..i] == rows[..i];
  }

  // ---------------------------------------------------------------- sockets and clashes

  ghost predicate HasSocket(ls: seq<Listener>, ip: string, port: int) {
    exists i | 0 <= i < |ls| :: ls[i].bindIp == ip && ls[i].port == port
  }

  /** No two listeners on one (bind address, port). */
  ghost predicate NoClash(ls: seq<Listener>) {
    forall i, j | 0 <= i < j < |ls| :: !(ls[i].bindIp == ls[j].bindIp && ls[i].port == ls[j].port)
  }

  lemma SocketAppend(a: seq<Listener>, b: seq<Listener>, ip: string, port: int)
    ensures HasSocket(a + b, ip, port) <==> HasSocket(a, ip, port) || HasSocket(b, ip, port)
  {
    var c := a + b;
    assert forall i | 0 <= i < |a| :: c[i] == a[i];
    assert forall i | |a| <= i < |c| :: c[i] == b[i - |a|];
    if HasSocket(b, ip, port) {
      var i :| 0 <= i < |b| && b[i].bindIp == ip && b[i].port == port;
      assert c[|a| + i].port == port;
    }
  }

  lemma NoClashAppend(a: seq<Listener>, b: seq<Listener>)
    requires NoClash(a) && NoClash(b)
    requires forall i | 0 <= i < |b| :: !HasSocket(a, b[i].bindIp, b[i].port)
    ensures NoClash(a + b)
  {
  }

  lemma ToolSocket(bindIp: string, lo: int, hi: int, destIp: string, via: Via, ip: string, port: int)
    ensures HasSocket(ToolListeners(bindIp, lo, hi, destIp, via), ip, port) <==> ip == bindIp && lo <= port <= hi
    ensures NoClash(ToolListeners(bindIp, lo, hi, destIp, via))
  {
    var ls := ToolListeners(bindIp, lo, hi, destIp, via);
    if ip == bindIp && lo <= port <= hi { assert ls[port - lo].port == port; }
  }

  predicate OwnsTool(a: Alloc, port: int) {
    a.toolMin <= port <= a.toolMax
  }

  predicate HeadOwnsTool(tn: TailnetConfig, port: int) {
    tn.headToolMin <= port <= tn.headToolMax
  }

  ghost predicate RowSocket(row: Row, localIp: string, ip: string, port: int) {
    OwnsTool(row.alloc, port) && ip == if row.key.ip == localIp then LOCAL else row.alloc.advertiseIp
  }

  ghost predicate HeadSocket(tn: TailnetConfig, isHead: bool, ip: string, port: int) {
    HeadOwnsTool(tn, port) && ip == if isHead then LOCAL else tn.headAdvertiseIp
  }

  /** The sockets of a machine's relay: the CONNECT proxy, the head's tools and every worker's tools. */
  lemma {:induction false} SocketsAre(tn: TailnetConfig, localIp: string, isHead: bool, rows: seq<Row>, ip: string,
                                      port: int)
    ensures HasSocket(Listeners(tn, localIp, isHead, rows), ip, port)
            <==> (ip == LOCAL && port == tn.connectProxyPort) || HeadSocket(tn, isHead, ip, port)
                 || exists i | 0 <= i < |rows| :: RowSocket(rows[i], localIp, ip, port)
  {
    if rows == [] {
      var c := [Listener(LOCAL, tn.connectProxyPort, "", Connect)];
      assert HasSocket(c, ip, port) <==> ip == LOCAL && port == tn.connectProxyPort by { assert c[0].bindIp == LOCAL; }
      SocketAppend(c, HeadListeners(tn, isHead), ip, port);
      HeadSocketIs(tn, isHead, ip, port);
    } else {
      var n := |rows| - 1;
      SocketsAre(tn, localIp, isHead, rows[..n], ip, port);
      RowSocketIs(rows[n], localIp, ip, port);
      SocketAppend(Listeners(tn, localIp, isHead, rows[..n]), RowListeners(rows[n], localIp), ip, port);
      hide HasSocket; hide RowListeners; hide RowSocket; hide HeadSocket;
      assert forall i | 0 <= i < n :: rows[..n][i] == rows[i];
    }
  }

  lemma HeadSocketIs(tn: TailnetConfig, isHead: bool, ip: string, port: int)
    ensures HasSocket(HeadListeners(tn, isHead), ip, port) <==> HeadSocket(tn, isHead, ip, port)
    ensures NoClash(HeadListeners(tn, isHead))
  {
    hide ToolListeners; hide HasSocket; hide NoClash;
    ToolSocket(LOCAL, tn.headToolMin, tn.headToolMax, tn.headAdvertiseIp, Direct, ip, port);
    ToolSocket(tn.headAdvertiseIp, tn.headToolMin, tn.headToolMax, tn.headTailnetIp, Socks, ip, port);
  }

  lemma RowSocketIs(row: Row, localIp: string, ip: string, port: int)
    ensures HasSocket(RowListeners(row, localIp), ip, port) <==> RowSocket(row, localIp, ip, port)
    ensures NoClash(RowListeners(row, localIp))
  {
    hide ToolListeners; hide HasSocket; hide NoClash;
    var a := row.alloc;
    ToolSocket(LOCAL, a.toolMin, a.toolMax, a.advertiseIp, Direct, ip, port);
    ToolSocket(a.advertiseIp, a.toolMin, a.toolMax, a.tailnetIp, Socks, ip, port);
  }

  // ---------------------------------------------------------------- which listener takes a connection

  function Handler(ls: seq<Listener>, ip: string, port: int): Option<Listener> {
    if ls == [] then None
    else if ls[0].bindIp == ip && ls[0].port == port then Some(ls[0])
    else Handler(ls[1..], ip, port)
  }

  lemma {:induction false} HandlerIs(ls: seq<Listener>, i: nat)
    requires NoClash(ls) && i < |ls|
    ensures Handler(ls, ls[i].bindIp, ls[i].port) == Some(ls[i])
  {
    if i > 0 {
      assert forall j | 0 <= j < |ls| - 1 :: ls[1..][j] == ls[j + 1];
      HandlerIs(ls[1..], i - 1);
    }
  }

  lemma {:induction false} HandlerNone(ls: seq<Listener>, ip: string, port: int)
    requires !HasSocket(ls, ip, port)
    ensures Handler(ls, ip, port).None?
  {
    if ls != [] {
      assert forall j | 0 <= j < |ls| - 1 :: ls[1..][j] == ls[j + 1];
      HandlerNone(ls[1..], ip, port);
    }
  }

  // ---------------------------------------------------------------- the network

  /** tailscaled's SOCKS and HTTP proxies, on every machine. */
  function DaemonListeners(tn: TailnetConfig): seq<Listener> {
    [Listener(LOCAL, tn.socksPort, "", Daemon), Listener(LOCAL, tn.socksPort + 1, "", Daemon)]
  }

  predicate DaemonPort(tn: TailnetConfig, port: int) {
    port == tn.socksPort || port == tn.socksPort + 1
  }

  /** An allocation deployed: every machine runs tailscaled and its relay. */
  datatype Net = Net(tn: TailnetConfig, h: Hosts, rows: seq<Row>) {
    function ListenersAt(m: string): seq<Listener> {
      Listeners(tn, m, m == h.headIp, rows)
    }

    function RoutesAt(m: string): map<string, Option<string>> {
      Routes(tn, m, m == h.headIp, rows)
    }

    ghost predicate IsMachine(m: string) {
      m == h.headIp || exists i | 0 <= i < |rows| :: rows[i].key.ip == m
    }

    function Tailnet(m: string): string {
      TailnetIp(tn, h, m)
    }

    /** The relay of machine `m` can bind every listener of its spec beside tailscaled's. */
    ghost predicate RelayUp(m: string) {
      NoClash(DaemonListeners(tn) + ListenersAt(m))
    }

    /** Who listens on machine `m`: a relay that cannot bind one of its listeners exits. */
    ghost function SocketsAt(m: string): seq<Listener> {
      if RelayUp(m) then DaemonListeners(tn) + ListenersAt(m) else DaemonListeners(tn)
    }
  }

  /** The head, or the worker of one row. */
  datatype Who = Head | Worker(row: nat)

  predicate Known(net: Net, w: Who) {
    w.Worker? ==> w.row < |net.rows|
  }

  function Machine(net: Net, w: Who): string
    requires Known(net, w)
  {
    if w.Head? then net.h.headIp else net.rows[w.row].key.ip
  }

  function Advertised(net: Net, w: Who): string
    requires Known(net, w)
  {
    if w.Head? then net.tn.headAdvertiseIp else net.rows[w.row].alloc.advertiseIp
  }

  predicate HasPort(net: Net, w: Who, port: int)
    requires Known(net, w)
  {
    if w.Head? then HeadOwns(net.tn, port) else net.rows[w.row].alloc.Owns(port)
  }

  predicate HasTool(net: Net, w: Who, port: int)
    requires Known(net, w)
  {
    if w.Head? then HeadOwnsTool(net.tn, port) else OwnsTool(net.rows[w.row].alloc, port)
  }

  /** Tool servers bind their advertise address, Ray's services every address of their machine. */
  ghost predicate Serves(net: Net, m: string, ip: string, port: int, w: Who) {
    && Known(net, w) && Machine(net, w) == m && HasPort(net, w, port)
    && (HasTool(net, w, port) ==> ip == Advertised(net, w))
  }

  /** A connection dialled on machine `m` to (ip, port) ends at `w` after at most `hops` relay hops. */
  ghost predicate Reaches(net: Net, m: string, ip: string, port: int, w: Who, hops: nat)
    decreases hops
  {
    match Handler(net.SocketsAt(m), ip, port)
    case None => Serves(net, m, ip, port, w)
    case Some(l) =>
      hops > 0 &&
      match l.via
      case Direct => Reaches(net, m, l.destIp, port, w, hops - 1)
      case Socks => exists m' ::
        net.IsMachine(m') && net.Tailnet(m') == l.destIp && Reaches(net, m', LOCAL, port, w, hops - 1)
      case Connect => false
      case Daemon => false
  }

  /** The destination of a CONNECT request: everything before the last colon, and a port number. */
  function ParseTarget(target: string): Option<(string, nat)> {
    var i := LastColon(target);
    if 0 <= i < |target| then
      var digits := target[i + 1..];
      if digits != "" && AllDigits(digits) then Some((target[..i], DecimalValue(digits))) else None
    else None
  }

  lemma TargetRoundTrip(host: string, port: nat)
    ensures ParseTarget(host + ":" + Decimal(port)) == Some((host, port))
  {
    DigitsHaveNo(Decimal(port), ':');
    LastColonIs(host, Decimal(port));
    DecimalRoundTrip(port);
    var t := host + ":" + Decimal(port);
    assert t[..|host|] == host && t[|host| + 1..] == Decimal(port);
  }

  /** A CONNECT request sent to the proxy of machine `m`. */
  ghost predicate ConnectReaches(net: Net, m: string, target: string, w: Who, hops: nat) {
    var l := Handler(net.SocketsAt(m), LOCAL, net.tn.connectProxyPort);
    && l.Some? && l.value.via == Connect && hops > 0
    && ParseTarget(target).Some?
    && var (host, port) := ParseTarget(target).value;
       && host in net.RoutesAt(m)
       && match net.RoutesAt(m)[host]
          case None => Reaches(net, m, LOCAL, port, w, hops - 1)
          case Some(t) => exists m' ::
            net.IsMachine(m') && net.Tailnet(m') == t && Reaches(net, m', LOCAL, port, w, hops - 1)
  }

  /** What deployment relies on: a safe allocation, a head address of its own, and one tailnet address per machine. */
  ghost predicate Deployable(net: Net) {
    && Safe(net.tn, net.h, net.rows)
    && net.tn.headAdvertiseIp != LOCAL
    && (forall m, m' | net.IsMachine(m) && net.IsMachine(m') && net.Tailnet(m) == net.Tailnet(m') :: m == m')
  }

  // ---------------------------------------------------------------- no two listeners on one socket

  lemma RowVersusHead(tn: TailnetConfig, h: Hosts, row: Row, m: string, ip: string, port: int)
    requires RowSafe(tn, h, row) && tn.headAdvertiseIp != LOCAL
    ensures !(RowSocket(row, m, ip, port) && HeadSocket(tn, m == h.headIp, ip, port))
  {
    assert OwnsTool(row.alloc, port) ==> row.alloc.Owns(port);
    assert HeadOwnsTool(tn, port) ==> HeadOwns(tn, port);
  }

  lemma RowVersusRow(x: Row, y: Row, tn: TailnetConfig, h: Hosts, m: string, ip: string, port: int)
    requires RowSafe(tn, h, x) && RowSafe(tn, h, y) && (PairSafe(x, y) || PairSafe(y, x))
    ensures !(RowSocket(x, m, ip, port) && RowSocket(y, m, ip, port))
  {
    assert OwnsTool(x.alloc, port) ==> x.alloc.Owns(port);
    assert OwnsTool(y.alloc, port) ==> y.alloc.Owns(port);
  }

  lemma {:induction false} ClashFree(tn: TailnetConfig, h: Hosts, rows: seq<Row>, m: string)
    requires Safe(tn, h, rows) && tn.headAdvertiseIp != LOCAL
    requires m == h.headIp ==> !HeadOwnsTool(tn, tn.connectProxyPort)
    requires forall i | 0 <= i < |rows| && rows[i].key.ip == m :: !OwnsTool(rows[i].alloc, tn.connectProxyPort)
    ensures NoClash(Listeners(tn, m, m == h.headIp, rows))
  {
    hide *;
    if rows == [] {
      HeadClashFree(tn, m, m == h.headIp);
    } else {
      FirstRows(tn, h, rows, m);
      ClashFree(tn, h, rows[..|rows| - 1], m);
      RowClashFree(tn, h, rows, m);
      ListenersSnoc(tn, m, m == h.headIp, rows);
    }
  }

  /** A machine's own sockets and the head's tools. */
  lemma HeadClashFree(tn: TailnetConfig, m: string, isHead: bool)
    requires tn.headAdvertiseIp != LOCAL && (isHead ==> !HeadOwnsTool(tn, tn.connectProxyPort))
    ensures NoClash(Listeners(tn, m, isHead, []))
  {
    var c := [Listener(LOCAL, tn.connectProxyPort, "", Connect)];
    var hl := HeadListeners(tn, isHead);
    HeadSocketIs(tn, isHead, LOCAL, tn.connectProxyPort);
    assert NoClash(c);
    hide HeadListeners;
    forall i | 0 <= i < |hl| ensures !HasSocket(c, hl[i].bindIp, hl[i].port) {
      assert HasSocket(hl, hl[i].bindIp, hl[i].port);
    }
    NoClashAppend(c, hl);
  }

  lemma FirstRows(tn: TailnetConfig, h: Hosts, rows: seq<Row>, m: string)
    requires rows != [] && Safe(tn, h, rows)
    requires forall i | 0 <= i < |rows| && rows[i].key.ip == m :: !OwnsTool(rows[i].alloc, tn.connectProxyPort)
    ensures var first := rows[..|rows| - 1];
            Safe(tn, h, first) && forall i | 0 <= i < |first| && first[i].key.ip == m ::
              !OwnsTool(first[i].alloc, tn.connectProxyPort)
  {
    hide RowSafe; hide PairSafe; hide OwnsTool;
  }

  /** What the last row adds is free of clashes, among itself and with everything before. */
  lemma RowClashFree(tn: TailnetConfig, h: Hosts, rows: seq<Row>, m: string)
    requires rows != [] && Safe(tn, h, rows) && tn.headAdvertiseIp != LOCAL
    requires forall i | 0 <= i < |rows| && rows[i].key.ip == m :: !OwnsTool(rows[i].alloc, tn.connectProxyPort)
    requires NoClash(Listeners(tn, m, m == h.headIp, rows[..|rows| - 1]))
    ensures NoClash(Listeners(tn, m, m == h.headIp, rows[..|rows| - 1]) + RowListeners(rows[|rows| - 1], m))
  {
    var n := |rows| - 1;
    var before, mine := Listeners(tn, m, m == h.headIp, rows[..n]), RowListeners(rows[n], m);
    hide Listeners; hide RowListeners; hide RowSafe; hide PairSafe; hide HeadSocket; hide NoClash;
    RowSocketIs(rows[n], m, "", 0);
    forall j | 0 <= j < |mine| ensures !HasSocket(before, mine[j].bindIp, mine[j].port) {
      var ip, port := mine[j].bindIp, mine[j].port;
      assert HasSocket(mine, ip, port);
      RowSocketIs(rows[n], m, ip, port);
      SocketsAre(tn, m, m == h.headIp, rows[..n], ip, port);
      RowVersusHead(tn, h, rows[n], m, ip, port);
      RowNotLocal(tn, h, rows[n]);
      forall i | 0 <= i < n { RowVersusRow(rows[i], rows[n], tn, h, m, ip, port); }
    }
    NoClashAppend(before, mine);
  }

  lemma RowNotLocal(tn: TailnetConfig, h: Hosts, row: Row)
    requires RowSafe(tn, h, row)
    ensures row.alloc.advertiseIp != LOCAL
  {
  }

  lemma ListenersSnoc(tn: TailnetConfig, m: string, isHead: bool, rows: seq<Row>)
    requires rows != []
    ensures Listeners(tn, m, isHead, rows)
            == Listeners(tn, m, isHead, rows[..|rows| - 1]) + RowListeners(rows[|rows| - 1], m)
  {
  }

  /** The CONNECT port is the one thing safe allocations leave open: a machine's listeners clash
      exactly when a participant on that very machine has the proxy's port among its tool ports. */
  lemma ClashIffProxyTaken(net: Net, m: string)
    requires Safe(net.tn, net.h, net.rows) && net.tn.headAdvertiseIp != LOCAL
    ensures NoClash(net.ListenersAt(m))
            <==> forall w | Known(net, w) && Machine(net, w) == m :: !HasTool(net, w, net.tn.connectProxyPort)
  {
    var port := net.tn.connectProxyPort;
    if forall w | Known(net, w) && Machine(net, w) == m :: !HasTool(net, w, port) {
      assert m == net.h.headIp ==> Machine(net, Head) == m;
      forall i | 0 <= i < |net.rows| && net.rows[i].key.ip == m ensures !OwnsTool(net.rows[i].alloc, port) {
        assert Machine(net, Worker(i)) == m;
      }
      ClashFree(net.tn, net.h, net.rows, m);
    } else {
      var w :| Known(net, w) && Machine(net, w) == m && HasTool(net, w, port);
      ConnectListenerAt(net.tn, m, m == net.h.headIp, net.rows);
      var i: nat;
      if w.Head? {
        i := HeadListenerAt(net.tn, m, m == net.h.headIp, net.rows, port);
      } else {
        i := RowListenerAt(net.tn, m, m == net.h.headIp, net.rows, w.row, port);
      }
      hide Listeners;
      var ls := net.ListenersAt(m);
      assert 0 < i && ls[0].bindIp == ls[i].bindIp && ls[0].port == ls[i].port;
    }
  }

  /** What a relay shares 127.0.0.1 with: the CONNECT proxy's port is not tailscaled's, and no participant of the
      machine has a tool on any of the three. */
  ghost predicate PortsFree(net: Net, m: string) {
    && !DaemonPort(net.tn, net.tn.connectProxyPort)
    && forall w | Known(net, w) && Machine(net, w) == m ::
         && !HasTool(net, w, net.tn.connectProxyPort)
         && !HasTool(net, w, net.tn.socksPort) && !HasTool(net, w, net.tn.socksPort + 1)
  }

  ghost predicate ToolAt(net: Net, m: string, port: int) {
    exists w | Known(net, w) && Machine(net, w) == m :: HasTool(net, w, port)
  }

  /** A machine's relay has a port of 127.0.0.1 for the CONNECT proxy and for the tools of its own participants. */
  lemma LocalSocket(net: Net, m: string, port: int)
    requires Safe(net.tn, net.h, net.rows) && net.tn.headAdvertiseIp != LOCAL
    ensures HasSocket(net.ListenersAt(m), LOCAL, port) <==> port == net.tn.connectProxyPort || ToolAt(net, m, port)
  {
    SocketsAre(net.tn, m, m == net.h.headIp, net.rows, LOCAL, port);
    hide HasSocket; hide Listeners; hide RowSafe; hide PairSafe; hide OwnsTool; hide HeadOwnsTool;
    if HeadSocket(net.tn, m == net.h.headIp, LOCAL, port) {
      assert Machine(net, Head) == m && HasTool(net, Head, port);
    }
    forall i | 0 <= i < |net.rows| && RowSocket(net.rows[i], m, LOCAL, port) ensures ToolAt(net, m, port) {
      RowNotLocal(net.tn, net.h, net.rows[i]);
      assert Machine(net, Worker(i)) == m && HasTool(net, Worker(i), port);
    }
    if ToolAt(net, m, port) {
      var w :| Known(net, w) && Machine(net, w) == m && HasTool(net, w, port);
      assert w.Worker? ==> RowSocket(net.rows[w.row], m, LOCAL, port);
      assert w.Head? ==> HeadSocket(net.tn, m == net.h.headIp, LOCAL, port);
    }
  }

  lemma DaemonSocket(tn: TailnetConfig, ip: string, port: int)
    ensures HasSocket(DaemonListeners(tn), ip, port) <==> ip == LOCAL && DaemonPort(tn, port)
    ensures NoClash(DaemonListeners(tn))
  {
    var ls := DaemonListeners(tn);
    assert ls[0].bindIp == LOCAL && ls[0].port == tn.socksPort;
    assert ls[1].bindIp == LOCAL && ls[1].port == tn.socksPort + 1;
  }

  lemma ClashAppendIff(a: seq<Listener>, b: seq<Listener>)
    requires NoClash(a)
    ensures NoClash(a + b) <==> NoClash(b) && forall i | 0 <= i < |a| :: !HasSocket(b, a[i].bindIp, a[i].port)
  {
    var c := a + b;
    if NoClash(c) {
      forall i, j | 0 <= i < j < |b| ensures !(b[i].bindIp == b[j].bindIp && b[i].port == b[j].port) {
        assert c[|a| + i] == b[i] && c[|a| + j] == b[j];
      }
      forall i, j | 0 <= i < |a| && 0 <= j < |b| ensures !(b[j].bindIp == a[i].bindIp && b[j].port == a[i].port) {
        assert c[i] == a[i] && c[|a| + j] == b[j];
      }
    }
  }

  lemma DaemonsApart(net: Net, m: string)
    ensures net.RelayUp(m)
            <==> NoClash(net.ListenersAt(m)) && !HasSocket(net.ListenersAt(m), LOCAL, net.tn.socksPort)
                 && !HasSocket(net.ListenersAt(m), LOCAL, net.tn.socksPort + 1)
  {
    var d := DaemonListeners(net.tn);
    DaemonSocket(net.tn, LOCAL, 0);
    ClashAppendIff(d, net.ListenersAt(m));
    hide Listeners; hide HasSocket; hide NoClash;
    assert d[0] == Listener(LOCAL, net.tn.socksPort, "", Daemon)
           && d[1] == Listener(LOCAL, net.tn.socksPort + 1, "", Daemon);
  }

  lemma PortsFreeIff(net: Net, m: string)
    ensures PortsFree(net, m)
            <==> !DaemonPort(net.tn, net.tn.connectProxyPort) && !ToolAt(net, m, net.tn.connectProxyPort)
                 && !ToolAt(net, m, net.tn.socksPort) && !ToolAt(net, m, net.tn.socksPort + 1)
  {
    ToolAtNone(net, m, net.tn.connectProxyPort);
    ToolAtNone(net, m, net.tn.socksPort);
    ToolAtNone(net, m, net.tn.socksPort + 1);
    hide HasTool; hide DaemonPort; hide ToolAt;
  }

  /** Exactly when a machine's relay starts, which bring-up waits for: safe allocations leave open only the three ports
      of 127.0.0.1 that the CONNECT proxy and tailscaled take. */
  lemma RelayUpIff(net: Net, m: string)
    requires Safe(net.tn, net.h, net.rows) && net.tn.headAdvertiseIp != LOCAL
    ensures net.RelayUp(m) <==> PortsFree(net, m)
  {
    hide *;
    DaemonsApart(net, m);
    LocalSocket(net, m, net.tn.socksPort);
    LocalSocket(net, m, net.tn.socksPort + 1);
    ClashIffProxyTaken(net, m);
    ToolAtNone(net, m, net.tn.connectProxyPort);
    PortsFreeIff(net, m);
    DaemonPortIs(net.tn, net.tn.connectProxyPort);
  }

  lemma ToolAtNone(net: Net, m: string, port: int)
    ensures !ToolAt(net, m, port) <==> forall w | Known(net, w) && Machine(net, w) == m :: !HasTool(net, w, port)
  {
    hide HasTool;
  }

  lemma DaemonPortIs(tn: TailnetConfig, port: int)
    ensures DaemonPort(tn, port) <==> port == tn.socksPort || port == tn.socksPort + 1
  {
  }

  lemma SafeOf(net: Net)
    requires Deployable(net)
    ensures Safe(net.tn, net.h, net.rows) && net.tn.headAdvertiseIp != LOCAL
  {
    hide Safe;
  }

  /** A relay that is up answers with the listener it has on a socket. */
  lemma UpHandler(net: Net, m: string, i: nat)
    requires net.RelayUp(m) && i < |net.ListenersAt(m)|
    ensures var l := net.ListenersAt(m)[i]; Handler(net.SocketsAt(m), l.bindIp, l.port) == Some(l)
  {
    var d := DaemonListeners(net.tn);
    hide Listeners; hide Handler; hide NoClash;
    assert net.SocketsAt(m)[|d| + i] == net.ListenersAt(m)[i];
    HandlerIs(net.SocketsAt(m), |d| + i);
  }

  /** Whatever listens on a machine is tailscaled, or the relay if it is up. */
  lemma SocketAt(net: Net, m: string, ip: string, port: int)
    ensures HasSocket(net.SocketsAt(m), ip, port)
            <==> (ip == LOCAL && DaemonPort(net.tn, port))
                 || (net.RelayUp(m) && HasSocket(net.ListenersAt(m), ip, port))
  {
    DaemonSocket(net.tn, ip, port);
    SocketAppend(DaemonListeners(net.tn), net.ListenersAt(m), ip, port);
    hide HasSocket; hide Listeners; hide DaemonListeners; hide DaemonPort;
  }

  /** tailscaled takes what arrives on its own ports. */
  lemma {:induction false} DaemonHandler(net: Net, m: string, port: int)
    requires DaemonPort(net.tn, port)
    ensures Handler(net.SocketsAt(m), LOCAL, port) == Some(Listener(LOCAL, port, "", Daemon))
  {
    var d, ls := DaemonListeners(net.tn), net.SocketsAt(m);
    hide Listeners; hide NoClash;
    assert ls[0] == d[0] && ls[1] == d[1];
    assert ls[1..][0] == ls[1];
  }

  // ---------------------------------------------------------------- the listeners that matter

  lemma {:induction false} RowListenerAt(tn: TailnetConfig, m: string, isHead: bool, rows: seq<Row>, k: nat, port: int)
    returns (i: nat)
    requires k < |rows| && OwnsTool(rows[k].alloc, port)
    ensures i < |Listeners(tn, m, isHead, rows)|
    ensures var a := rows[k].alloc;
            Listeners(tn, m, isHead, rows)[i] ==
              if rows[k].key.ip == m then Listener(LOCAL, port, a.advertiseIp, Direct)
              else Listener(a.advertiseIp, port, a.tailnetIp, Socks)
  {
    var n := |rows| - 1;
    ListenersSnoc(tn, m, isHead, rows);
    if k == n {
      i := |Listeners(tn, m, isHead, rows[..n])| + (port - rows[k].alloc.toolMin);
    } else {
      i := RowListenerAt(tn, m, isHead, rows[..n], k, port);
    }
  }

  lemma {:induction false} HeadListenerAt(tn: TailnetConfig, m: string, isHead: bool, rows: seq<Row>, port: int)
    returns (i: nat)
    requires HeadOwnsTool(tn, port)
    ensures i < |Listeners(tn, m, isHead, rows)|
    ensures Listeners(tn, m, isHead, rows)[i] ==
              if isHead then Listener(LOCAL, port, tn.headAdvertiseIp, Direct)
              else Listener(tn.headAdvertiseIp, port, tn.headTailnetIp, Socks)
  {
    if rows == [] {
      i := 1 + (port - tn.headToolMin);
    } else {
      ListenersSnoc(tn, m, isHead, rows);
      i := HeadListenerAt(tn, m, isHead, rows[..|rows| - 1], port);
    }
  }

  lemma {:induction false} ConnectListenerAt(tn: TailnetConfig, m: string, isHead: bool, rows: seq<Row>)
    ensures |Listeners(tn, m, isHead, rows)| > 0
    ensures Listeners(tn, m, isHead, rows)[0] == Listener(LOCAL, tn.connectProxyPort, "", Connect)
  {
    if rows != [] { ConnectListenerAt(tn, m, isHead, rows[..|rows| - 1]); }
  }

  /** What machine `m`'s relay, if it is up, does with a connection to the tool port of `w`: forward it to `w`'s
      machine, or, on that machine, bridge what arrives at 127.0.0.1. */
  lemma ToolHandler(net: Net, m: string, w: Who, port: int)
    requires Deployable(net) && net.RelayUp(m) && Known(net, w) && HasTool(net, w, port)
    ensures Machine(net, w) == m ==>
              Handler(net.SocketsAt(m), LOCAL, port) == Some(Listener(LOCAL, port, Advertised(net, w), Direct))
    ensures Machine(net, w) != m ==>
              Handler(net.SocketsAt(m), Advertised(net, w), port)
              == Some(Listener(Advertised(net, w), port, net.Tailnet(Machine(net, w)), Socks))
  {
    var i: nat;
    if w.Head? {
      i := HeadListenerAt(net.tn, m, m == net.h.headIp, net.rows, port);
    } else {
      i := RowListenerAt(net.tn, m, m == net.h.headIp, net.rows, w.row, port);
      assert RowSafe(net.tn, net.h, net.rows[w.row]);
    }
    hide Listeners; hide Handler; hide NoClash;
    UpHandler(net, m, i);
  }

  /** The CONNECT proxy answers on a machine exactly if its relay is up. */
  lemma ProxyHandler(net: Net, m: string)
    ensures net.RelayUp(m) ==>
              Handler(net.SocketsAt(m), LOCAL, net.tn.connectProxyPort)
              == Some(Listener(LOCAL, net.tn.connectProxyPort, "", Connect))
    ensures !net.RelayUp(m) ==>
              var l := Handler(net.SocketsAt(m), LOCAL, net.tn.connectProxyPort); l.Some? ==> l.value.via == Daemon
  {
    if net.RelayUp(m) {
      ConnectListenerAt(net.tn, m, m == net.h.headIp, net.rows);
      hide Listeners; hide Handler; hide NoClash;
      UpHandler(net, m, 0);
    } else if DaemonPort(net.tn, net.tn.connectProxyPort) {
      DaemonHandler(net, m, net.tn.connectProxyPort);
    } else {
      SocketAt(net, m, LOCAL, net.tn.connectProxyPort);
      HandlerNone(net.SocketsAt(m), LOCAL, net.tn.connectProxyPort);
    }
  }

  lemma SafeWho(net: Net, w: Who, v: Who)
    requires Deployable(net) && Known(net, w) && Known(net, v)
    ensures w.Worker? ==> RowSafe(net.tn, net.h, net.rows[w.row])
    ensures v.Worker? ==> RowSafe(net.tn, net.h, net.rows[v.row])
    ensures w.Worker? && v.Worker? && w.row < v.row ==> PairSafe(net.rows[w.row], net.rows[v.row])
    ensures w.Worker? && v.Worker? && v.row < w.row ==> PairSafe(net.rows[v.row], net.rows[w.row])
  {
    hide RowSafe; hide PairSafe;
  }

  /** Participants of one machine share no port. */
  lemma OwnersApart(net: Net, w: Who, v: Who, port: int)
    requires Deployable(net) && Known(net, w) && Known(net, v) && Machine(net, w) == Machine(net, v)
    requires HasPort(net, w, port) && HasPort(net, v, port)
    ensures w == v
  {
    SafeWho(net, w, v);
  }

  lemma AdvertisedApart(net: Net, w: Who, v: Who)
    requires Deployable(net) && Known(net, w) && Known(net, v) && Advertised(net, w) == Advertised(net, v)
    ensures w == v
  {
    SafeWho(net, w, v);
  }

  lemma NotLocal(net: Net, w: Who)
    requires Deployable(net) && Known(net, w)
    ensures Advertised(net, w) != LOCAL
  {
    if w.Worker? { assert RowSafe(net.tn, net.h, net.rows[w.row]); }
  }

  /** Any relay socket belongs to the proxy or to the tool port of some participant. */
  lemma SocketOwner(net: Net, m: string, ip: string, port: int) returns (w: Option<Who>)
    requires HasSocket(net.ListenersAt(m), ip, port)
    ensures w.None? ==> ip == LOCAL && port == net.tn.connectProxyPort
    ensures w.Some? ==> Known(net, w.value) && HasTool(net, w.value, port)
                        && ip == if Machine(net, w.value) == m then LOCAL else Advertised(net, w.value)
  {
    SocketsAre(net.tn, m, m == net.h.headIp, net.rows, ip, port);
    if ip == LOCAL && port == net.tn.connectProxyPort {
      w := None;
    } else if HeadSocket(net.tn, m == net.h.headIp, ip, port) {
      w := Some(Head);
    } else {
      var i :| 0 <= i < |net.rows| && RowSocket(net.rows[i], m, ip, port);
      w := Some(Worker(i));
    }
  }

  lemma ToolIsPort(net: Net, w: Who, port: int)
    requires Known(net, w) && HasTool(net, w, port)
    ensures HasPort(net, w, port)
  {
  }

  /** On its own machine a participant's advertised tool socket is served directly, relay or not. */
  lemma ServedAtHome(net: Net, w: Who, port: int)
    requires Deployable(net) && Known(net, w) && HasTool(net, w, port)
    ensures Handler(net.SocketsAt(Machine(net, w)), Advertised(net, w), port).None?
    ensures Serves(net, Machine(net, w), Advertised(net, w), port, w)
  {
    var m := Machine(net, w);
    ToolIsPort(net, w, port);
    NotLocal(net, w);
    AdvertisedFree(net, w, port);
    SocketAt(net, m, Advertised(net, w), port);
    HandlerNone(net.SocketsAt(m), Advertised(net, w), port);
  }

  lemma AdvertisedFree(net: Net, w: Who, port: int)
    requires Deployable(net) && Known(net, w)
    ensures !HasSocket(net.ListenersAt(Machine(net, w)), Advertised(net, w), port)
  {
    var m := Machine(net, w);
    NotLocal(net, w);
    if HasSocket(net.ListenersAt(m), Advertised(net, w), port) {
      var v := SocketOwner(net, m, Advertised(net, w), port);
      AdvertisedApart(net, w, v.value);
      assert false;
    }
  }

  /** A Ray (non-tool) port of a participant is not taken on its machine, but for the CONNECT proxy's port, if the
      relay is up, and tailscaled's. */
  lemma RayPortFree(net: Net, w: Who, port: int)
    requires Deployable(net) && Known(net, w) && HasPort(net, w, port) && !HasTool(net, w, port)
    requires !DaemonPort(net.tn, port) && (net.RelayUp(Machine(net, w)) ==> port != net.tn.connectProxyPort)
    ensures Handler(net.SocketsAt(Machine(net, w)), LOCAL, port).None?
    ensures Serves(net, Machine(net, w), LOCAL, port, w)
  {
    var m := Machine(net, w);
    SocketAt(net, m, LOCAL, port);
    if net.RelayUp(m) { RayPortUnused(net, w, port); }
    HandlerNone(net.SocketsAt(m), LOCAL, port);
  }

  lemma RayPortUnused(net: Net, w: Who, port: int)
    requires Deployable(net) && Known(net, w) && HasPort(net, w, port) && !HasTool(net, w, port)
    requires port != net.tn.connectProxyPort
    ensures !HasSocket(net.ListenersAt(Machine(net, w)), LOCAL, port)
  {
    var m := Machine(net, w);
    if HasSocket(net.ListenersAt(m), LOCAL, port) {
      var v := SocketOwner(net, m, LOCAL, port);
      NotLocal(net, v.value);
      ToolIsPort(net, v.value, port);
      OwnersApart(net, w, v.value, port);
      assert false;
    }
  }

  // ---------------------------------------------------------------- delivery

  /** A connection ends at one participant at most. */
  lemma {:induction false} ReachesOne(net: Net, m: string, ip: string, port: int, w: Who, v: Who, i: nat, j: nat)
    requires Deployable(net) && net.IsMachine(m)
    requires Reaches(net, m, ip, port, w, i) && Reaches(net, m, ip, port, v, j)
    ensures w == v
    decreases i
  {
    hide Deployable; hide Listeners; hide Handler; hide Serves; hide NoClash; hide DaemonListeners;
    match Handler(net.SocketsAt(m), ip, port)
    case None =>
      ServesOne(net, m, ip, port, w, v);
    case Some(l) =>
      match l.via
      case Direct => ReachesOne(net, m, l.destIp, port, w, v, i - 1, j - 1);
      case Socks =>
        var x :| net.IsMachine(x) && net.Tailnet(x) == l.destIp && Reaches(net, x, LOCAL, port, w, i - 1);
        var y :| net.IsMachine(y) && net.Tailnet(y) == l.destIp && Reaches(net, y, LOCAL, port, v, j - 1);
        TailnetApart(net, x, y);
        ReachesOne(net, x, LOCAL, port, w, v, i - 1, j - 1);
  }

  lemma ServesOne(net: Net, m: string, ip: string, port: int, w: Who, v: Who)
    requires Deployable(net) && Serves(net, m, ip, port, w) && Serves(net, m, ip, port, v)
    ensures w == v
  {
    OwnersApart(net, w, v, port);
  }

  lemma TailnetApart(net: Net, x: string, y: string)
    requires Deployable(net) && net.IsMachine(x) && net.IsMachine(y) && net.Tailnet(x) == net.Tailnet(y)
    ensures x == y
  {
  }

  lemma MachineOf(net: Net, w: Who)
    requires Known(net, w)
    ensures net.IsMachine(Machine(net, w))
  {
  }

  /** A participant's port gets what arrives at 127.0.0.1 on its machine: not one of tailscaled's ports, nor the CONNECT
      proxy's if the relay is up; and a tool port needs the relay to bridge it. */
  ghost predicate Arrives(net: Net, w: Who, port: int)
    requires Known(net, w)
  {
    !DaemonPort(net.tn, port)
      && if net.RelayUp(Machine(net, w)) then port != net.tn.connectProxyPort else !HasTool(net, w, port)
  }

  lemma UpTools(net: Net, w: Who, port: int)
    requires Deployable(net) && Known(net, w) && HasTool(net, w, port)
    ensures Arrives(net, w, port) <==> net.RelayUp(Machine(net, w))
  {
    SafeOf(net);
    RelayUpIff(net, Machine(net, w));
    hide Deployable; hide Safe; hide NoClash; hide Listeners; hide HasTool;
  }

  /** What arrives at 127.0.0.1 on a participant's machine, on one of its ports, is handed to it exactly if Arrives,
      and otherwise to nobody. */
  lemma ArrivalDelivered(net: Net, w: Who, port: int)
    requires Deployable(net) && Known(net, w) && HasPort(net, w, port)
    ensures Reaches(net, Machine(net, w), LOCAL, port, w, 1) <==> Arrives(net, w, port)
    ensures !Arrives(net, w, port) ==> forall v, n :: !Reaches(net, Machine(net, w), LOCAL, port, v, n)
  {
    if DaemonPort(net.tn, port) {
      DaemonHandler(net, Machine(net, w), port);
      hide Deployable; hide HasPort; hide Handler; hide Listeners; hide NoClash;
    } else if net.RelayUp(Machine(net, w)) {
      UpArrival(net, w, port);
    } else {
      DownArrival(net, w, port);
    }
  }

  lemma UpArrival(net: Net, w: Who, port: int)
    requires Deployable(net) && Known(net, w) && HasPort(net, w, port)
    requires !DaemonPort(net.tn, port) && net.RelayUp(Machine(net, w))
    ensures Reaches(net, Machine(net, w), LOCAL, port, w, 1) <==> port != net.tn.connectProxyPort
    ensures port == net.tn.connectProxyPort ==> forall v, n :: !Reaches(net, Machine(net, w), LOCAL, port, v, n)
  {
    var m := Machine(net, w);
    if port == net.tn.connectProxyPort {
      ProxyHandler(net, m);
    } else if HasTool(net, w, port) {
      ToolHandler(net, m, w, port);
      ServedAtHome(net, w, port);
      assert Reaches(net, m, Advertised(net, w), port, w, 0);
    } else {
      RayPortFree(net, w, port);
    }
    hide Deployable; hide HasPort; hide HasTool; hide Handler; hide Listeners; hide NoClash;
  }

  lemma DownArrival(net: Net, w: Who, port: int)
    requires Deployable(net) && Known(net, w) && HasPort(net, w, port)
    requires !DaemonPort(net.tn, port) && !net.RelayUp(Machine(net, w))
    ensures Reaches(net, Machine(net, w), LOCAL, port, w, 1) <==> !HasTool(net, w, port)
    ensures HasTool(net, w, port) ==> forall v, n :: !Reaches(net, Machine(net, w), LOCAL, port, v, n)
  {
    var m := Machine(net, w);
    SocketAt(net, m, LOCAL, port);
    HandlerNone(net.SocketsAt(m), LOCAL, port);
    NotLocal(net, w);
    hide Handler; hide Listeners; hide NoClash; hide DaemonListeners;
    forall v, n | HasTool(net, w, port) ensures !Reaches(net, m, LOCAL, port, v, n) {
      if Serves(net, m, LOCAL, port, v) { OwnersApart(net, v, w, port); }
    }
  }

  /** End to end: from every machine, a dial to a participant's advertised tool port reaches that participant over at
      most two relay hops, exactly if the dial is made on its own machine or both machines' relays are up; and it
      reaches nobody else if the dialling one's is. */
  lemma ToolDelivery(net: Net, m: string, w: Who, port: int)
    requires Deployable(net) && net.IsMachine(m) && Known(net, w) && HasTool(net, w, port)
    ensures Reaches(net, m, Advertised(net, w), port, w, 2)
            <==> m == Machine(net, w) || (net.RelayUp(m) && net.RelayUp(Machine(net, w)))
    ensures m == Machine(net, w) || net.RelayUp(m) ==>
            forall v, n | Reaches(net, m, Advertised(net, w), port, v, n) :: v == w
  {
    if m == Machine(net, w) {
      ServedAtHome(net, w, port);
      hide Deployable; hide Listeners; hide Handler; hide Serves; hide NoClash;
      forall v, n | Reaches(net, m, Advertised(net, w), port, v, n) ensures v == w {
        ReachesOne(net, m, Advertised(net, w), port, v, w, n, 2);
      }
    } else if net.RelayUp(m) {
      ForwardedDial(net, m, w, port);
    } else {
      UnforwardedDial(net, m, w, port);
    }
  }

  /** A forwarded connection arrives at 127.0.0.1 on the machine of the tailnet address. */
  lemma Forwarded(net: Net, m: string, ip: string, port: int, home: string, v: Who, n: nat)
    requires Deployable(net) && net.IsMachine(home)
    requires Handler(net.SocketsAt(m), ip, port) == Some(Listener(ip, port, net.Tailnet(home), Socks))
    ensures Reaches(net, m, ip, port, v, n) <==> n > 0 && Reaches(net, home, LOCAL, port, v, n - 1)
  {
    hide Handler; hide Serves; hide Safe;
    forall x | net.IsMachine(x) && net.Tailnet(x) == net.Tailnet(home) ensures x == home { TailnetApart(net, x, home); }
    hide Deployable;
  }

  lemma ForwardedDial(net: Net, m: string, w: Who, port: int)
    requires Deployable(net) && net.IsMachine(m) && Known(net, w) && HasTool(net, w, port)
    requires m != Machine(net, w) && net.RelayUp(m)
    ensures Reaches(net, m, Advertised(net, w), port, w, 2) <==> net.RelayUp(Machine(net, w))
    ensures forall v, n: nat | Reaches(net, m, Advertised(net, w), port, v, n) :: v == w
  {
    hide *;
    var home := Machine(net, w);
    ToolHandler(net, m, w, port);
    ToolIsPort(net, w, port);
    MachineOf(net, w);
    ArrivalDelivered(net, w, port);
    UpTools(net, w, port);
    Forwarded(net, m, Advertised(net, w), port, home, w, 2);
    forall v, n: nat | Reaches(net, m, Advertised(net, w), port, v, n) ensures v == w {
      Forwarded(net, m, Advertised(net, w), port, home, v, n);
      assert Reaches(net, home, LOCAL, port, v, n - 1);
      ReachesOne(net, home, LOCAL, port, v, w, n - 1, 1);
    }
  }

  lemma UnforwardedDial(net: Net, m: string, w: Who, port: int)
    requires Deployable(net) && Known(net, w) && m != Machine(net, w) && !net.RelayUp(m)
    ensures !Reaches(net, m, Advertised(net, w), port, w, 2)
  {
    NotLocal(net, w);
    SocketAt(net, m, Advertised(net, w), port);
    HandlerNone(net.SocketsAt(m), Advertised(net, w), port);
    hide Handler; hide Listeners; hide NoClash; hide DaemonListeners; hide Deployable;
  }

  lemma {:induction false} RowRoute(net: Net, m: string, rows: seq<Row>, k: nat)
    requires Safe(net.tn, net.h, rows) && k < |rows|
    ensures var r := Routes(net.tn, m, m == net.h.headIp, rows);
            rows[k].alloc.advertiseIp in r
            && r[rows[k].alloc.advertiseIp] == if rows[k].key.ip == m then None else Some(net.Tailnet(rows[k].key.ip))
  {
    var n := |rows| - 1;
    assert RowSafe(net.tn, net.h, rows[k]);
    if k < n {
      assert PairSafe(rows[k], rows[n]);
      assert rows[..n][k] == rows[k];
      hide RowSafe; hide PairSafe;
      assert Safe(net.tn, net.h, rows[..n]) by { assert forall i | 0 <= i < n :: rows[..n][i] == rows[i]; }
      RowRoute(net, m, rows[..n], k);
    }
  }

  lemma {:induction false} HeadRoute(net: Net, m: string, rows: seq<Row>)
    requires Safe(net.tn, net.h, rows)
    ensures var r := Routes(net.tn, m, m == net.h.headIp, rows);
            net.tn.headAdvertiseIp in r
            && r[net.tn.headAdvertiseIp] == if net.h.headIp == m then None else Some(net.Tailnet(net.h.headIp))
  {
    if rows != [] {
      var n := |rows| - 1;
      assert RowSafe(net.tn, net.h, rows[n]);
      hide RowSafe; hide PairSafe;
      assert Safe(net.tn, net.h, rows[..n]) by { assert forall i | 0 <= i < n :: rows[..n][i] == rows[i]; }
      HeadRoute(net, m, rows[..n]);
    }
  }

  lemma RouteOf(net: Net, m: string, w: Who)
    requires Deployable(net) && Known(net, w)
    ensures Advertised(net, w) in net.RoutesAt(m)
    ensures net.RoutesAt(m)[Advertised(net, w)]
            == if Machine(net, w) == m then None else Some(net.Tailnet(Machine(net, w)))
  {
    if w.Head? { HeadRoute(net, m, net.rows); } else { RowRoute(net, m, net.rows, w.row); }
  }

  /** A CONNECT request for a participant's port goes to 127.0.0.1 on the participant's machine, if the asking
      machine's relay is up. */
  lemma ConnectGoesHome(net: Net, m: string, w: Who, port: nat, v: Who, n: nat)
    requires Deployable(net) && net.IsMachine(m) && Known(net, w)
    ensures ConnectReaches(net, m, Advertised(net, w) + ":" + Decimal(port), v, n)
            <==> net.RelayUp(m) && n > 0 && Reaches(net, Machine(net, w), LOCAL, port, v, n - 1)
  {
    hide *;
    TargetRoundTrip(Advertised(net, w), port);
    ProxyHandler(net, m);
    RouteOf(net, m, w);
    MachineOf(net, w);
    RequestGoes(net, m, Advertised(net, w) + ":" + Decimal(port), Advertised(net, w), port, Machine(net, w), v, n);
  }

  /** A request goes where the route of its host leads. */
  lemma RequestGoes(net: Net, m: string, target: string, host: string, port: nat, home: string, v: Who, n: nat)
    requires Deployable(net) && net.IsMachine(home) && ParseTarget(target) == Some((host, port))
             && host in net.RoutesAt(m)
    requires net.RoutesAt(m)[host] == if home == m then None else Some(net.Tailnet(home))
    requires var l := Handler(net.SocketsAt(m), LOCAL, net.tn.connectProxyPort);
             if net.RelayUp(m) then l.Some? && l.value.via == Connect else l.Some? ==> l.value.via == Daemon
    ensures ConnectReaches(net, m, target, v, n)
            <==> net.RelayUp(m) && n > 0 && Reaches(net, home, LOCAL, port, v, n - 1)
  {
    hide Handler; hide ParseTarget; hide Reaches; hide Safe; hide NoClash; hide Listeners; hide Routes;
    forall x | net.IsMachine(x) && net.Tailnet(x) == net.Tailnet(home) ensures x == home { TailnetApart(net, x, home); }
    hide Deployable;
  }

  /** All relays are up, as bring-up makes sure. */
  ghost predicate AllUp(net: Net) {
    forall m | net.IsMachine(m) :: net.RelayUp(m)
  }

  /** End to end through the CONNECT proxy (section 9.3.6 of RFC 9110): from every machine, a request
      for any port of a participant reaches it over at most two relay hops and reaches nobody else, exactly if the
      relay there is up and the port gets what arrives; otherwise it reaches nobody. With all relays up: exactly
      unless the port is the CONNECT proxy's or one of tailscaled's. */
  lemma ConnectDelivery(net: Net, m: string, w: Who, port: nat)
    requires Deployable(net) && net.IsMachine(m) && Known(net, w) && HasPort(net, w, port)
    ensures var target := Advertised(net, w) + ":" + Decimal(port);
            && (ConnectReaches(net, m, target, w, 2) <==> net.RelayUp(m) && Arrives(net, w, port))
            && (forall v, n: nat | ConnectReaches(net, m, target, v, n) ::
               v == w && net.RelayUp(m) && Arrives(net, w, port))
            && (AllUp(net) ==>
                  (ConnectReaches(net, m, target, w, 2)
                   <==> port != net.tn.connectProxyPort && port != net.tn.socksPort && port != net.tn.socksPort + 1))
  {
    var home := Machine(net, w);
    var target := Advertised(net, w) + ":" + Decimal(port);
    ConnectGoesHome(net, m, w, port, w, 2);
    ArrivalDelivered(net, w, port);
    MachineOf(net, w);
    ArrivesUp(net, w, port);
    hide Deployable; hide ConnectReaches; hide Reaches; hide Decimal; hide Arrives; hide HasPort; hide NoClash;
    hide Listeners;
    forall v, n: nat | ConnectReaches(net, m, target, v, n) ensures v == w && net.RelayUp(m) && Arrives(net, w, port) {
      ConnectGoesHome(net, m, w, port, v, n);
      assert Arrives(net, w, port);
      ReachesOne(net, home, LOCAL, port, v, w, n - 1, 1);
    }
  }

  lemma ArrivesUp(net: Net, w: Who, port: int)
    requires Known(net, w)
    ensures net.RelayUp(Machine(net, w)) ==>
              (Arrives(net, w, port)
               <==> port != net.tn.connectProxyPort && port != net.tn.socksPort && port != net.tn.socksPort + 1)
  {
    hide NoClash; hide Listeners;
  }

  // ---------------------------------------------------------------- what the conditions shut out

  /** The head alone, with the default settings but for three ports. */
  function HeadOnly(tailnetIp: string, headIp: string, gcsPort: int, proxyPort: int, socksPort: int): Net {
    Net(DefaultConfig(tailnetIp).(gcsPort := gcsPort, connectProxyPort := proxyPort, socksPort := socksPort),
        Hosts(headIp, {}, map[]), [])
  }

  lemma HeadOnlyIs(tailnetIp: string, headIp: string, gcsPort: int, proxyPort: int, socksPort: int)
    ensures var net := HeadOnly(tailnetIp, headIp, gcsPort, proxyPort, socksPort);
            && Deployable(net) && Safe(net.tn, net.h, net.rows) && net.tn.headAdvertiseIp != LOCAL
            && net.tn.connectProxyPort == proxyPort && net.tn.socksPort == socksPort
            && net.IsMachine(headIp) && Machine(net, Head) == headIp && HasPort(net, Head, gcsPort)
            && (PortsFree(net, headIp)
                <==> proxyPort != socksPort && proxyPort != socksPort + 1
                     && !(23760 <= proxyPort <= 23770)
                     && !(23760 <= socksPort <= 23770) && !(23760 <= socksPort + 1 <= 23770))
  {
    assert "127.200.0.1"[4] == '2' && LOCAL[4] == '0';
    var net := HeadOnly(tailnetIp, headIp, gcsPort, proxyPort, socksPort);
    HeadOnlyFree(net, headIp);
    hide PortsFree;
  }

  lemma HeadOnlyFree(net: Net, headIp: string)
    requires net.rows == [] && net.h.headIp == headIp
    ensures PortsFree(net, headIp)
            <==> !DaemonPort(net.tn, net.tn.connectProxyPort) && !HasTool(net, Head, net.tn.connectProxyPort)
                 && !HasTool(net, Head, net.tn.socksPort) && !HasTool(net, Head, net.tn.socksPort + 1)
  {
    hide DaemonPort; hide HeadOwnsTool;
    assert Known(net, Head) && Machine(net, Head) == headIp;
    forall w | Known(net, w) ensures w == Head {}
  }

  /** With the CONNECT proxy on the head's GCS port, or that port on tailscaled's SOCKS port, all that delivery asks for
      holds, the relay's own listeners included, and a CONNECT to that port reaches nobody. */
  lemma GcsPortUnreachable(tailnetIp: string, headIp: string, onSocks: bool, v: Who, hops: nat)
    ensures var port := if onSocks then 1055 else 6379;
            var net := HeadOnly(tailnetIp, headIp, port, if onSocks then 13129 else port, 1055);
            && Deployable(net) && net.RelayUp(headIp) && HasPort(net, Head, port)
            && !ConnectReaches(net, headIp, Advertised(net, Head) + ":" + Decimal(port), v, hops)
  {
    var port: nat := if onSocks then 1055 else 6379;
    var proxy := if onSocks then 13129 else port;
    var net := HeadOnly(tailnetIp, headIp, port, proxy, 1055);
    HeadOnlyIs(tailnetIp, headIp, port, proxy, 1055);
    hide *;
    RelayUpIff(net, headIp);
    ConnectDelivery(net, headIp, Head, port);
    ArrivesUp(net, Head, port);
  }

  /** With the CONNECT proxy on one of the head's tool ports the allocation is safe, and two of the relay's listeners
      clash. */
  lemma ToolPortClashes(tailnetIp: string, headIp: string)
    ensures var net := HeadOnly(tailnetIp, headIp, 6379, 23760, 1055);
            Safe(net.tn, net.h, net.rows) && !NoClash(net.ListenersAt(headIp))
  {
    var net := HeadOnly(tailnetIp, headIp, 6379, 23760, 1055);
    HeadOnlyIs(tailnetIp, headIp, 6379, 23760, 1055);
    assert Known(net, Head) && HasTool(net, Head, 23760);
    hide HeadOnly; hide Safe; hide HasTool; hide NoClash; hide Listeners; hide Deployable;
    ClashIffProxyTaken(net, headIp);
  }

  /** With tailscaled's SOCKS proxy on one of them the relay cannot start beside it. */
  lemma SocksPortClashes(tailnetIp: string, headIp: string)
    ensures var net := HeadOnly(tailnetIp, headIp, 6379, 13129, 23760);
            Safe(net.tn, net.h, net.rows) && NoClash(net.ListenersAt(headIp)) && !net.RelayUp(headIp)
  {
    var net := HeadOnly(tailnetIp, headIp, 6379, 13129, 23760);
    HeadOnlyIs(tailnetIp, headIp, 6379, 13129, 23760);
    assert forall w | Known(net, w) :: w == Head;
    assert !HasTool(net, Head, 13129);
    hide HeadOnly; hide Safe; hide HasTool; hide NoClash; hide Listeners; hide Deployable; hide PortsFree;
    ClashIffProxyTaken(net, headIp);
    RelayUpIff(net, headIp);
  }
}
