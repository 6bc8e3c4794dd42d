/** SSH-tunneled workers: the address and ports each one gets, and when they are free of conflicts. */
module Tunnels {

  import opened Results
  import opened Text
  import opened Cluster
  import opened Addresses
  import ScopedStop

  const PORT_STEP := 100
  const WORKER_PORT_STEP := 1000

  datatype TunnelConfig = TunnelConfig(
    tunnelIp: string, gcsPort: nat, nodeManagerPort: int, objectManagerPort: int,
    workerMin: int, workerMax: int, toolMin: int, toolMax: int,
    headToolMin: int, headToolMax: int, headNodeManagerPort: int, headObjectManagerPort: int,
    headWorkerMin: int, headWorkerMax: int)
  {
    predicate OwnsWorker(p: int) {
      workerMin <= p <= workerMax
    }

    predicate OwnsTool(p: int) {
      toolMin <= p <= toolMax
    }

    predicate Owns(p: int) {
      p == gcsPort || p == nodeManagerPort || p == objectManagerPort || OwnsWorker(p) || OwnsTool(p)
    }

    predicate HeadOwns(p: int) {
      || p == headNodeManagerPort || p == headObjectManagerPort
      || headWorkerMin <= p <= headWorkerMax || headToolMin <= p <= headToolMax
    }

    /** No port of this worker serves two purposes. */
    ghost predicate SelfApart() {
      && gcsPort != nodeManagerPort && gcsPort != objectManagerPort && nodeManagerPort != objectManagerPort
      && (forall p | OwnsWorker(p) || OwnsTool(p) :: p != gcsPort && p != nodeManagerPort && p != objectManagerPort)
      && (forall p :: !(OwnsWorker(p) && OwnsTool(p)))
    }
  }

  const DEFAULT := TunnelConfig("", 16379, 16800, 16801, 30000, 30024, 18000, 18010,
                                8000, 8010, 29800, 29801, 40000, 40099)

  /** The worker machines and the tunnel settings of those that need one. */
  datatype Auth = Auth(workerIps: seq<string>, tunnels: map<string, TunnelConfig>) {
    predicate IsTunneled(ip: string) {
      ip in tunnels && ip in workerIps
    }

    function Base(ip: string): TunnelConfig {
      if ip in tunnels then tunnels[ip] else DEFAULT
    }
  }

  datatype TunnelError = AddressesExhausted

  // ---------------------------------------------------------------- what each worker gets

  function Tunneled(auth: Auth, ks: seq<Key>): (ts: seq<Key>)
    ensures |ts| <= |ks|
  {
    if ks == [] then []
    else
      var n := |ks| - 1;
      Tunneled(auth, ks[..n]) + (if auth.IsTunneled(ks[n].ip) then [ks[n]] else [])
  }

  /** Machine-wide ports move with the rank on the machine, tool ports with the position in the cluster. */
  function TunnelFor(base: TunnelConfig, n: nat, rank: nat): TunnelConfig
    requires LOOPBACK + 1 + n < ADDRESS_SPACE
  {
    base.(tunnelIp := Dotted(LOOPBACK + 1 + n),
      gcsPort := base.gcsPort + rank * PORT_STEP,
      nodeManagerPort := base.nodeManagerPort + rank * PORT_STEP,
      objectManagerPort := base.objectManagerPort + rank * PORT_STEP,
      workerMin := base.workerMin + rank * WORKER_PORT_STEP,
      workerMax := base.workerMax + rank * WORKER_PORT_STEP,
      toolMin := base.toolMin + n * PORT_STEP,
      toolMax := base.toolMax + n * PORT_STEP)
  }

  ghost predicate Fits(ts: seq<Key>) {
    LOOPBACK + 1 + |ts| < ADDRESS_SPACE
  }

  function ConfigOf(auth: Auth, ts: seq<Key>, j: nat): TunnelConfig
    requires j < |ts| && LOOPBACK + 1 + |ts| < ADDRESS_SPACE
  {
    TunnelFor(auth.Base(ts[j].ip), j, Rank(ts, j))
  }

  function Configs(auth: Auth, ts: seq<Key>): map<Key, TunnelConfig>
    requires LOOPBACK + 1 + |ts| < ADDRESS_SPACE
  {
    if ts == [] then map[]
    else
      var n := |ts| - 1;
      Configs(auth, ts[..n])[ts[n] := ConfigOf(auth, ts, n)]
  }

  // ---------------------------------------------------------------- the allocator

  method AllocateWorkerTunnels(auth: Auth, assignments: seq<Key>)
    returns (r: Result<map<Key, TunnelConfig>, TunnelError>)
    ensures var ts := Tunneled(auth, assignments);
            match r
            case Ok(configs) => Fits(ts) && configs == Configs(auth, ts)
            case Err(_) => !Fits(ts)
    ensures r.Ok? && DistinctKeys(assignments) ==> EachGranted(auth, assignments, r.value)
    ensures r.Err? ==> 0x7F00_0002 + CountIf(assignments, NeedsTunnel(auth)) >= 0x1_0000_0000
  {
    hide *;
    var result: map<Key, TunnelConfig> := map[];
    var nextAddr: nat := LOOPBACK + 1;
    var ipWorkerCount: map<string, nat> := map[];
    var globalToolIndex: nat := 0;
    ghost var ts: seq<Key> := [];
    StartState(auth, assignments);
    for i := 0 to |assignments|
      invariant globalToolIndex == |ts| && State(auth, assignments, i, ts, nextAddr, ipWorkerCount, result)
    {
      var a := assignments[i];
      StateIs(auth, assignments, i, ts, nextAddr, ipWorkerCount, result);
      if !auth.IsTunneled(a.ip) {
        SkipState(auth, assignments, i, ts, nextAddr, ipWorkerCount, result);
        continue;
      }
      var base := auth.Base(a.ip);
      var count := if a.ip in ipWorkerCount then ipWorkerCount[a.ip] else 0;
      assert count == CountOn(ts, a.ip);
      var tc := TunnelFor(base, globalToolIndex, count);
      nextAddr := nextAddr + 1;
      if nextAddr >= ADDRESS_SPACE {
        FullState(auth, assignments, i, ts, nextAddr - 1, ipWorkerCount, result);
        FullCount(auth, assignments);
        return Err(AddressesExhausted);
      }
      TakeState(auth, assignments, i, ts, nextAddr - 1, ipWorkerCount, result);
      ipWorkerCount := ipWorkerCount[a.ip := count + 1];
      globalToolIndex := globalToolIndex + 1;
      result := result[a := tc];
      ts := ts + [a];
    }
    FinalState(auth, assignments, ts, nextAddr, ipWorkerCount, result);
    if DistinctKeys(assignments) { ConfigsGranted(auth, assignments); }
    r := Ok(result);
  }

  /** Where the allocator is after i assignments, of which `ts` are tunneled. */
  ghost predicate State(auth: Auth, ks: seq<Key>, i: nat, ts: seq<Key>, nextAddr: nat, idx: map<string, nat>,
                        result: map<Key, TunnelConfig>) {
    && i <= |ks| && ts == Tunneled(auth, ks[..i]) && Fits(ts) && nextAddr == LOOPBACK + 1 + |ts|
    && CountsOn(idx, ts) && result == Configs(auth, ts)
  }

  lemma StartState(auth: Auth, ks: seq<Key>)
    ensures State(auth, ks, 0, [], LOOPBACK + 1, map[], map[])
  {
  }

  lemma StateIs(auth: Auth, ks: seq<Key>, i: nat, ts: seq<Key>, nextAddr: nat, idx: map<string, nat>,
                result: map<Key, TunnelConfig>)
    requires State(auth, ks, i, ts, nextAddr, idx, result) && i < |ks|
    ensures nextAddr == LOOPBACK + 1 + |ts| < ADDRESS_SPACE
    ensures (if ks[i].ip in idx then idx[ks[i].ip] else 0) == CountOn(ts, ks[i].ip)
  {
    hide CountOn; hide Configs; hide Tunneled;
  }

  lemma SkipState(auth: Auth, ks: seq<Key>, i: nat, ts: seq<Key>, nextAddr: nat, idx: map<string, nat>,
                  result: map<Key, TunnelConfig>)
    requires State(auth, ks, i, ts, nextAddr, idx, result) && i < |ks| && !auth.IsTunneled(ks[i].ip)
    ensures State(auth, ks, i + 1, ts, nextAddr, idx, result)
  {
    TunneledSnoc(auth, ks, i);
    hide Tunneled; hide Configs; hide CountsOn;
  }

  lemma TakeState(auth: Auth, ks: seq<Key>, i: nat, ts: seq<Key>, nextAddr: nat, idx: map<string, nat>,
                  result: map<Key, TunnelConfig>)
    requires State(auth, ks, i, ts, nextAddr, idx, result) && i < |ks| && auth.IsTunneled(ks[i].ip)
    requires nextAddr + 1 < ADDRESS_SPACE
    ensures var a := ks[i];
            State(auth, ks, i + 1, ts + [a], nextAddr + 1, idx[a.ip := CountOn(ts, a.ip) + 1],
                  result[a := TunnelFor(auth.Base(a.ip), |ts|, CountOn(ts, a.ip))])
  {
    hide *;
    var a := ks[i];
    StateParts(auth, ks, i, ts, nextAddr, idx, result);
    CountsSnoc(idx, ts, a);
    ConfigsSnoc(auth, ts, a);
    MakeState(auth, ks, i + 1, ts + [a], nextAddr + 1, idx[a.ip := CountOn(ts, a.ip) + 1],
              result[a := TunnelFor(auth.Base(a.ip), |ts|, CountOn(ts, a.ip))]);
  }

  lemma StateParts(auth: Auth, ks: seq<Key>, i: nat, ts: seq<Key>, nextAddr: nat, idx: map<string, nat>,
                   result: map<Key, TunnelConfig>)
    requires State(auth, ks, i, ts, nextAddr, idx, result) && i < |ks| && auth.IsTunneled(ks[i].ip)
    ensures CountsOn(idx, ts) && Fits(ts) && result == Configs(auth, ts) && nextAddr == LOOPBACK + 1 + |ts|
    ensures ts + [ks[i]] == Tunneled(auth, ks[..i + 1]) && (nextAddr + 1 < ADDRESS_SPACE ==> Fits(ts + [ks[i]]))
  {
    TunneledSnoc(auth, ks, i);
    hide Tunneled; hide Configs; hide CountsOn;
  }

  lemma MakeState(auth: Auth, ks: seq<Key>, i: nat, ts: seq<Key>, nextAddr: nat, idx: map<string, nat>,
                  result: map<Key, TunnelConfig>)
    requires i <= |ks| && ts == Tunneled(auth, ks[..i]) && Fits(ts) && nextAddr == LOOPBACK + 1 + |ts|
    requires CountsOn(idx, ts) && result == Configs(auth, ts)
    ensures State(auth, ks, i, ts, nextAddr, idx, result)
  {
    hide Tunneled; hide Configs; hide CountsOn;
  }

  lemma FullState(auth: Auth, ks: seq<Key>, i: nat, ts: seq<Key>, nextAddr: nat, idx: map<string, nat>,
                  result: map<Key, TunnelConfig>)
    requires State(auth, ks, i, ts, nextAddr, idx, result) && i < |ks| && auth.IsTunneled(ks[i].ip)
    requires nextAddr + 1 >= ADDRESS_SPACE
    ensures !Fits(Tunneled(auth, ks))
  {
    TunneledSnoc(auth, ks, i);
    TunneledGrows(auth, ks, i + 1);
    hide Tunneled; hide Configs; hide CountsOn;
  }

  lemma FinalState(auth: Auth, ks: seq<Key>, ts: seq<Key>, nextAddr: nat, idx: map<string, nat>,
                   result: map<Key, TunnelConfig>)
    requires State(auth, ks, |ks|, ts, nextAddr, idx, result)
    ensures Fits(Tunneled(auth, ks)) && result == Configs(auth, Tunneled(auth, ks))
  {
    assert ks[..|ks|] == ks;
    hide Tunneled; hide Configs; hide CountsOn;
  }

  lemma TunneledSnoc(auth: Auth, ks: seq<Key>, i: nat)
    requires i < |ks|
    ensures Tunneled(auth, ks[..i + 1]) == Tunneled(auth, ks[..i]) + (if auth.IsTunneled(ks[i].ip) then [ks[i]] else [])
  {
    assert ks[..i + 1][..i] == ks[..i];
  }

  lemma {:induction false} TunneledGrows(auth: Auth, ks: seq<Key>, i: nat)
    requires i <= |ks|
    ensures |Tunneled(auth, ks[..i])| <= |Tunneled(auth, ks)|
    decreases |ks| - i
  {
    if i < |ks| {
      TunneledSnoc(auth, ks, i);
      TunneledGrows(auth, ks, i + 1);
    } else {
      assert ks[..i] == ks;
    }
  }

  lemma ConfigsSnoc(auth: Auth, ts: seq<Key>, a: Key)
    requires Fits(ts) && Fits(ts + [a])
    ensures Configs(auth, ts + [a]) == Configs(auth, ts)[a := TunnelFor(auth.Base(a.ip), |ts|, CountOn(ts, a.ip))]
  {
    hide *;
    ConfigsLast(auth, ts + [a]);
    LastConfig(auth, ts, a);
    assert (ts + [a])[..|ts|] == ts;
  }

  lemma LastConfig(auth: Auth, ts: seq<Key>, a: Key)
    requires Fits(ts + [a])
    ensures ConfigOf(auth, ts + [a], |ts|) == TunnelFor(auth.Base(a.ip), |ts|, CountOn(ts, a.ip))
  {
    assert (ts + [a])[..|ts|] == ts;
    hide TunnelFor; hide CountOn;
  }

  lemma ConfigsLast(auth: Auth, ts: seq<Key>)
    requires ts != [] && Fits(ts)
    ensures Fits(ts[..|ts| - 1])
    ensures Configs(auth, ts) == Configs(auth, ts[..|ts| - 1])[ts[|ts| - 1] := ConfigOf(auth, ts, |ts| - 1)]
  {
    hide ConfigOf;
  }

  lemma ConfigOfPrefix(auth: Auth, ts: seq<Key>, j: nat)
    requires Fits(ts) && DistinctKeys(ts) && j < |ts| - 1
    ensures var n := |ts| - 1;
            DistinctKeys(ts[..n]) && ts[j] != ts[n] && Fits(ts[..n])
              && ConfigOf(auth, ts[..n], j) == ConfigOf(auth, ts, j)
  {
    var n := |ts| - 1;
    assert ts[..n][j] == ts[j] && ts[..n][..j] == ts[..j];
    hide TunnelFor; hide CountOn;
    assert forall i | 0 <= i < n :: ts[..n][i] == ts[i];
  }

  /** Keys being distinct, every tunneled worker is there with its own settings, and nobody else is. */
  lemma {:induction false} ConfigsAre(auth: Auth, ts: seq<Key>, j: nat)
    requires Fits(ts) && DistinctKeys(ts) && j < |ts|
    ensures ts[j] in Configs(auth, ts) && Configs(auth, ts)[ts[j]] == ConfigOf(auth, ts, j)
  {
    hide *;
    var n := |ts| - 1;
    ConfigsLast(auth, ts);
    if j < n {
      ConfigOfPrefix(auth, ts, j);
      assert ts[..n][j] == ts[j];
      ConfigsAre(auth, ts[..n], j);
    }
  }

  lemma {:induction false} ConfigsOnly(auth: Auth, ts: seq<Key>, k: Key)
    requires Fits(ts)
    ensures k in Configs(auth, ts) <==> k in ts
  {
    if ts != [] {
      var n := |ts| - 1;
      ConfigsOnly(auth, ts[..n], k);
      assert ts == ts[..n] + [ts[n]];
    }
  }

  // ---------------------------------------------------------------- the settings, field by field

  /** A worker on a machine with tunnel settings. */
  ghost function NeedsTunnel(auth: Auth): Key -> bool {
    (k: Key) => k.ip in auth.tunnels && k.ip in auth.workerIps
  }

  /** The q-th assignment's settings: the machine's own, but for an address of its own, ports 100 further per tunneled
      worker before it on its machine (1000 for the range), and tool ports 100 further per tunneled worker before it
      anywhere. */
  ghost predicate Granted(auth: Auth, ks: seq<Key>, q: nat, c: TunnelConfig) {
    && q < |ks| && ks[q].ip in auth.tunnels
    && var base := auth.tunnels[ks[q].ip];
       var n := CountIf(ks[..q], NeedsTunnel(auth));
       var rank := CountIfOn(ks[..q], NeedsTunnel(auth), ks[q].ip);
       && 0x7F00_0002 + n < 0x1_0000_0000 && c.tunnelIp == Dotted(0x7F00_0002 + n)
       && c.gcsPort == base.gcsPort + rank * 100
       && c.nodeManagerPort == base.nodeManagerPort + rank * 100
       && c.objectManagerPort == base.objectManagerPort + rank * 100
       && c.workerMin == base.workerMin + rank * 1000 && c.workerMax == base.workerMax + rank * 1000
       && c.toolMin == base.toolMin + n * 100 && c.toolMax == base.toolMax + n * 100
       && c.headToolMin == base.headToolMin && c.headToolMax == base.headToolMax
       && c.headNodeManagerPort == base.headNodeManagerPort && c.headObjectManagerPort == base.headObjectManagerPort
       && c.headWorkerMin == base.headWorkerMin && c.headWorkerMax == base.headWorkerMax
  }

  /** Every tunneled assignment has its settings, and no other is there. */
  ghost predicate EachGranted(auth: Auth, ks: seq<Key>, configs: map<Key, TunnelConfig>) {
    && (forall q: nat | q < |ks| && NeedsTunnel(auth)(ks[q]) ::
          ks[q] in configs && Granted(auth, ks, q, configs[ks[q]]))
    && forall k | k in configs :: k in ks && NeedsTunnel(auth)(k)
  }

  lemma {:induction false} TunneledAre(auth: Auth, ks: seq<Key>)
    ensures Tunneled(auth, ks) == Filter(ks, NeedsTunnel(auth))
  {
    if ks != [] { TunneledAre(auth, ks[..|ks| - 1]); }
  }

  lemma FullCount(auth: Auth, ks: seq<Key>)
    requires !Fits(Tunneled(auth, ks))
    ensures 0x7F00_0002 + CountIf(ks, NeedsTunnel(auth)) >= 0x1_0000_0000
  {
    TunneledAre(auth, ks);
    FilterCounts(ks, NeedsTunnel(auth), "");
    hide Tunneled; hide Filter; hide CountIf; hide NeedsTunnel;
  }

  lemma ConfigGranted(auth: Auth, ks: seq<Key>, q: nat)
    requires DistinctKeys(ks) && Fits(Tunneled(auth, ks)) && q < |ks| && NeedsTunnel(auth)(ks[q])
    ensures var configs := Configs(auth, Tunneled(auth, ks));
            ks[q] in configs && Granted(auth, ks, q, configs[ks[q]])
  {
    var f, ts := NeedsTunnel(auth), Tunneled(auth, ks);
    var n := CountIf(ks[..q], f);
    assert ks[q].ip in auth.tunnels;
    hide *;
    TunneledAre(auth, ks);
    FilterAt(ks, f, q);
    FilterDistinct(ks, f);
    FilterCounts(ks[..q], f, ks[q].ip);
    ConfigsAre(auth, ts, n);
    FitsAt(ts, n);
    GrantedBy(auth, ks, q, n, CountIfOn(ks[..q], f, ks[q].ip));
    ConfigOfIs(auth, ts, n);
  }

  lemma FitsAt(ts: seq<Key>, n: nat)
    requires Fits(ts) && n < |ts|
    ensures LOOPBACK + 1 + n < ADDRESS_SPACE
  {
  }

  lemma ConfigOfIs(auth: Auth, ts: seq<Key>, j: nat)
    requires Fits(ts) && j < |ts|
    ensures ConfigOf(auth, ts, j) == TunnelFor(auth.Base(ts[j].ip), j, CountOn(ts[..j], ts[j].ip))
  {
    hide TunnelFor; hide CountOn;
  }

  lemma GrantedBy(auth: Auth, ks: seq<Key>, q: nat, n: nat, rank: nat)
    requires q < |ks| && ks[q].ip in auth.tunnels && LOOPBACK + 1 + n < ADDRESS_SPACE
    requires n == CountIf(ks[..q], NeedsTunnel(auth)) && rank == CountIfOn(ks[..q], NeedsTunnel(auth), ks[q].ip)
    ensures Granted(auth, ks, q, TunnelFor(auth.Base(ks[q].ip), n, rank))
  {
    hide Dotted; hide CountIf; hide CountIfOn; hide NeedsTunnel;
  }

  lemma ConfigsGranted(auth: Auth, ks: seq<Key>)
    requires DistinctKeys(ks) && Fits(Tunneled(auth, ks))
    ensures EachGranted(auth, ks, Configs(auth, Tunneled(auth, ks)))
  {
    var f, ts := NeedsTunnel(auth), Tunneled(auth, ks);
    var configs := Configs(auth, ts);
    forall q: nat | q < |ks| && f(ks[q]) ensures ks[q] in configs && Granted(auth, ks, q, configs[ks[q]]) {
      ConfigGranted(auth, ks, q);
    }
    hide *;
    forall k | k in configs ensures k in ks && f(k) {
      ConfigsOnly(auth, ts, k);
      TunneledAre(auth, ks);
      InFilter(ks, f, k);
    }
    MakeGranted(auth, ks, configs);
  }

  lemma InFilter(ks: seq<Key>, f: Key -> bool, k: Key)
    requires k in Filter(ks, f)
    ensures k in ks && f(k)
  {
    hide Filter;
    var j :| 0 <= j < |Filter(ks, f)| && Filter(ks, f)[j] == k;
    var q := FilterFrom(ks, f, j);
    FilterAt(ks, f, q);
  }

  lemma MakeGranted(auth: Auth, ks: seq<Key>, configs: map<Key, TunnelConfig>)
    requires forall q: nat | q < |ks| && NeedsTunnel(auth)(ks[q]) ::
               ks[q] in configs && Granted(auth, ks, q, configs[ks[q]])
    requires forall k | k in configs :: k in ks && NeedsTunnel(auth)(k)
    ensures EachGranted(auth, ks, configs)
  {
    hide Granted; hide NeedsTunnel;
  }

  // ---------------------------------------------------------------- addresses and ranges

  /** Tunnel addresses are pairwise distinct and none is 127.0.0.1, which Ray would rewrite. */
  lemma TunnelIpsDistinct(auth: Auth, ts: seq<Key>, i: nat, j: nat)
    requires Fits(ts) && i < |ts| && j < |ts|
    ensures ConfigOf(auth, ts, i).tunnelIp == ConfigOf(auth, ts, j).tunnelIp <==> i == j
    ensures ConfigOf(auth, ts, i).tunnelIp != "127.0.0.1"
  {
    LoopbackText();
    hide Dotted; hide Rank;
    if Dotted(LOOPBACK + 1 + i) == Dotted(LOOPBACK) { DottedInjective(LOOPBACK + 1 + i, LOOPBACK); }
    if Dotted(LOOPBACK + 1 + i) == Dotted(LOOPBACK + 1 + j) { DottedInjective(LOOPBACK + 1 + i, LOOPBACK + 1 + j); }
  }

  lemma WorkersMeet(c: TunnelConfig, d: TunnelConfig)
    ensures (exists p :: c.OwnsWorker(p) && d.OwnsWorker(p))
            <==> c.workerMin <= c.workerMax && d.workerMin <= d.workerMax && c.workerMin <= d.workerMax
                 && d.workerMin <= c.workerMax
  {
    var p := if c.workerMin <= d.workerMin then d.workerMin else c.workerMin;
    assert c.OwnsWorker(p) && d.OwnsWorker(p)
           <==> c.workerMin <= c.workerMax && d.workerMin <= d.workerMax && c.workerMin <= d.workerMax
                && d.workerMin <= c.workerMax;
  }

  lemma ToolsMeet(c: TunnelConfig, d: TunnelConfig)
    ensures (exists p :: c.OwnsTool(p) && d.OwnsTool(p))
            <==> c.toolMin <= c.toolMax && d.toolMin <= d.toolMax && c.toolMin <= d.toolMax && d.toolMin <= c.toolMax
  {
    var p := if c.toolMin <= d.toolMin then d.toolMin else c.toolMin;
    assert c.OwnsTool(p) && d.OwnsTool(p)
           <==> c.toolMin <= c.toolMax && d.toolMin <= d.toolMax && c.toolMin <= d.toolMax && d.toolMin <= c.toolMax;
  }

  /** On one machine, worker ranges are disjoint exactly when they are at most as long as the ranks'
      distance times 1000: ranges of up to 1000 ports never meet. */
  lemma WorkerRangesMeet(auth: Auth, ts: seq<Key>, i: nat, j: nat)
    requires Fits(ts) && i < j < |ts| && ts[i].ip == ts[j].ip
    ensures var base := auth.Base(ts[i].ip); var size := base.workerMax - base.workerMin + 1;
            && ((exists p :: ConfigOf(auth, ts, i).OwnsWorker(p) && ConfigOf(auth, ts, j).OwnsWorker(p))
                <==> size > (Rank(ts, j) - Rank(ts, i)) * WORKER_PORT_STEP)
            && (size <= WORKER_PORT_STEP ==>
               !exists p :: ConfigOf(auth, ts, i).OwnsWorker(p) && ConfigOf(auth, ts, j).OwnsWorker(p))
  {
    RankStrict(ts, i, j);
    var a, b := ConfigOf(auth, ts, i), ConfigOf(auth, ts, j);
    WorkersMeet(a, b);
    hide Rank; hide Dotted; hide TunnelConfig.OwnsWorker;
  }

  /** With one shared base, tool ranges are disjoint across the whole cluster exactly when they are at
      most as long as the positions' distance times 100: ranges of up to 100 ports never meet. */
  lemma ToolRangesMeet(auth: Auth, ts: seq<Key>, i: nat, j: nat)
    requires Fits(ts) && i < j < |ts| && auth.Base(ts[i].ip) == auth.Base(ts[j].ip)
    ensures var base := auth.Base(ts[i].ip); var size := base.toolMax - base.toolMin + 1;
            && ((exists p :: ConfigOf(auth, ts, i).OwnsTool(p) && ConfigOf(auth, ts, j).OwnsTool(p))
                <==> size > (j - i) * PORT_STEP)
            && (size <= PORT_STEP ==>
               !exists p :: ConfigOf(auth, ts, i).OwnsTool(p) && ConfigOf(auth, ts, j).OwnsTool(p))
  {
    var a, b := ConfigOf(auth, ts, i), ConfigOf(auth, ts, j);
    ToolsMeet(a, b);
    hide Rank; hide Dotted; hide TunnelConfig.OwnsTool;
  }

  // ---------------------------------------------------------------- how many workers the defaults hold

  /** Every worker's ports are apart from each other, from the head's and at most 65535; workers of one
      machine share no port, and no two workers of the cluster share a tool port. */
  ghost predicate Compatible(auth: Auth, ts: seq<Key>)
    requires Fits(ts)
  {
    && (forall j | 0 <= j < |ts| :: Sound(ConfigOf(auth, ts, j)))
    && (forall i, j | 0 <= i < j < |ts| :: Apart(ConfigOf(auth, ts, i), ConfigOf(auth, ts, j), ts[i].ip == ts[j].ip))
  }

  ghost predicate Sound(c: TunnelConfig) {
    c.SelfApart() && forall p | c.Owns(p) :: !c.HeadOwns(p) && 0 < p <= 65535
  }

  ghost predicate Apart(c: TunnelConfig, d: TunnelConfig, sameMachine: bool) {
    && (forall p :: !(c.OwnsTool(p) && d.OwnsTool(p)))
    && (sameMachine ==> forall p :: !(c.Owns(p) && d.Owns(p)))
  }

  ghost predicate AllDefault(auth: Auth, ts: seq<Key>) {
    forall j | 0 <= j < |ts| :: auth.Base(ts[j].ip) == DEFAULT
  }

  lemma DefaultSound(n: nat, rank: nat)
    requires n < 118 && rank < 10
    ensures Sound(TunnelFor(DEFAULT, n, rank))
  {
    hide Dotted;
  }

  lemma DefaultApart(n: nat, rank: nat, n': nat, rank': nat, same: bool)
    requires n < n' < 118 && (same ==> rank < rank' < 10)
    ensures Apart(TunnelFor(DEFAULT, n, rank), TunnelFor(DEFAULT, n', rank'), same)
  {
    hide Dotted;
  }

  lemma TooManyTools(auth: Auth, ts: seq<Key>)
    requires Fits(ts) && AllDefault(auth, ts) && |ts| > 118
    ensures !Sound(ConfigOf(auth, ts, 118))
  {
    var c := ConfigOf(auth, ts, 118);
    hide Dotted; hide Rank;
    assert c.OwnsTool(29800) && c.Owns(29800) && c.HeadOwns(29800);
  }

  lemma TooManyOnMachine(auth: Auth, ts: seq<Key>, ip: string) returns (j: nat)
    requires Fits(ts) && AllDefault(auth, ts) && CountOn(ts, ip) > 10
    ensures j < |ts| && !Sound(ConfigOf(auth, ts, j))
  {
    j := Ranked(ts, ip, 10);
    var c := ConfigOf(auth, ts, j);
    hide Dotted; hide Rank; hide CountOn;
    assert c.OwnsWorker(40000) && c.Owns(40000) && c.HeadOwns(40000);
  }

  /** With the default settings everything is compatible exactly when there are at most 118 tunneled
      workers, at most 10 of them on any machine. */
  lemma DefaultCapacity(auth: Auth, ts: seq<Key>)
    requires Fits(ts) && AllDefault(auth, ts)
    ensures Compatible(auth, ts) <==> |ts| <= 118 && AtMostPerMachine(ts, 10)
  {
    hide Sound; hide Apart; hide TunnelFor; hide Rank;
    if Compatible(auth, ts) {
      if |ts| > 118 { TooManyTools(auth, ts); }
      forall ip ensures CountOn(ts, ip) <= 10 {
        if CountOn(ts, ip) > 10 { var j := TooManyOnMachine(auth, ts, ip); }
      }
    }
    if |ts| <= 118 && AtMostPerMachine(ts, 10) {
      forall j | 0 <= j < |ts| ensures Sound(ConfigOf(auth, ts, j)) && Rank(ts, j) < 10 {
        RankBound(ts, j);
        assert CountOn(ts, ts[j].ip) <= 10;
        DefaultSound(j, Rank(ts, j));
      }
      forall i, j | 0 <= i < j < |ts|
        ensures Apart(ConfigOf(auth, ts, i), ConfigOf(auth, ts, j), ts[i].ip == ts[j].ip)
      {
        if ts[i].ip == ts[j].ip { RankStrict(ts, i, j); }
        DefaultApart(i, Rank(ts, i), j, Rank(ts, j), ts[i].ip == ts[j].ip);
      }
    }
  }

  // ---------------------------------------------------------------- stopping one worker spares the others

  function GcsAddress(c: TunnelConfig): string {
    BuildAddress(c.tunnelIp, Decimal(c.gcsPort))
  }

  lemma DottedWellFormed(n: nat, port: nat)
    requires n < ADDRESS_SPACE
    ensures WellFormed(Dotted(n), Decimal(port))
  {
    var host, p := Dotted(n), Decimal(port);
    DottedIsNormal(host) by { assert IsDotted(host); }
    DigitsHaveNo(p, ':');
    assert !IsSpace(p[|p| - 1]) by { assert IsDigit(p[|p| - 1]); }
    hide Dotted; hide Decimal;
  }

  /** Two tunneled workers never have the same normalised GCS address. */
  lemma GcsAddressesDiffer(r: Resolver, auth: Auth, ts: seq<Key>, i: nat, j: nat)
    requires Proper(r) && Fits(ts) && i < |ts| && j < |ts| && i != j
    ensures !SameAddress(r, GcsAddress(ConfigOf(auth, ts, i)), GcsAddress(ConfigOf(auth, ts, j)))
  {
    var a, b := LOOPBACK + 1 + i, LOOPBACK + 1 + j;
    var p, q := ConfigOf(auth, ts, i).gcsPort, ConfigOf(auth, ts, j).gcsPort;
    DottedWellFormed(a, p);
    DottedWellFormed(b, q);
    NormalizeDotted(r, a);
    NormalizeDotted(r, b);
    TunnelIpsDistinct(auth, ts, i, j);
    hide Dotted; hide Decimal; hide NormalizeHost; hide SameAddress; hide Proper; hide WellFormed; hide Rank;
    SameIffHostsAndPorts(r, Dotted(a), Decimal(p), Dotted(b), Decimal(q));
  }

  /** A run of the scoped stop sends one process SIGTERM or SIGKILL. */
  ghost predicate StopSignals(batches: seq<seq<int>>, force: bool, exits: (nat, int) -> bool, pid: int) {
    var log := ScopedStop.RunLog(batches, force, exits);
    ScopedStop.Terminate(pid) in log || ScopedStop.Kill(pid) in log
  }

  lemma SignalledMatch(procs: seq<ScopedStop.Proc>, keywords: seq<ScopedStop.Keyword>, linux: bool, r: Resolver,
                       targets: seq<string>,
                       force: bool, exits: (nat, int) -> bool, batches: seq<seq<int>>, pid: int)
    requires |keywords| >= 2 && forall a, b | 0 <= a < b < |procs| :: procs[a].pid != procs[b].pid
    requires ScopedStop.Batches(batches, procs, ScopedStop.Buckets(keywords), linux, r, targets)
    ensures StopSignals(batches, force, exits, pid)
            <==> exists k ::
              0 <= k < |procs| && procs[k].pid == pid && ScopedStop.InBucket(procs[k], keywords, linux, r, targets)
  {
    ScopedStop.SignalledExactly(procs, keywords, linux, r, targets, force, exits, batches, pid);
    hide ScopedStop.RunLog; hide ScopedStop.Batches; hide ScopedStop.InBucket;
  }

  /** Stopping the workers `i` and `j` on one snapshot (of a machine they share), each gently or by force:
      what the stop of one signals, the other's does not signal in any way. */
  lemma StopsOneWorker(r: Resolver, auth: Auth, ts: seq<Key>, i: nat, j: nat,
                       procs: seq<ScopedStop.Proc>, keywords: seq<ScopedStop.Keyword>, linux: bool,
                       forceI: bool, exitsI: (nat, int) -> bool, batchesI: seq<seq<int>>,
                       forceJ: bool, exitsJ: (nat, int) -> bool, batchesJ: seq<seq<int>>, pid: int)
    requires Proper(r) && Fits(ts) && i < |ts| && j < |ts| && i != j && |keywords| >= 2
    requires forall a, b | 0 <= a < b < |procs| :: procs[a].pid != procs[b].pid
    requires ScopedStop.Batches(batchesI, procs, ScopedStop.Buckets(keywords), linux, r,
             [GcsAddress(ConfigOf(auth, ts, i))])
    requires ScopedStop.Batches(batchesJ, procs, ScopedStop.Buckets(keywords), linux, r,
             [GcsAddress(ConfigOf(auth, ts, j))])
    ensures !(StopSignals(batchesI, forceI, exitsI, pid) && StopSignals(batchesJ, forceJ, exitsJ, pid))
  {
    var a, b := GcsAddress(ConfigOf(auth, ts, i)), GcsAddress(ConfigOf(auth, ts, j));
    hide *;
    SignalledMatch(procs, keywords, linux, r, [a], forceI, exitsI, batchesI, pid);
    SignalledMatch(procs, keywords, linux, r, [b], forceJ, exitsJ, batchesJ, pid);
    GcsAddressesDiffer(r, auth, ts, i, j);
    forall k | 0 <= k < |procs| { NotBoth(procs[k], keywords, linux, r, a, b); }
  }

  lemma NotBoth(p: ScopedStop.Proc, keywords: seq<ScopedStop.Keyword>, linux: bool, r: Resolver, x: string, y: string)
    requires !SameAddress(r, x, y)
    ensures !(ScopedStop.InBucket(p, keywords, linux, r, [x]) && ScopedStop.InBucket(p, keywords, linux, r, [y]))
  {
    hide ScopedStop.ExtractAddress; hide Normalize; hide ScopedStop.MatchesAny;
  }
}
