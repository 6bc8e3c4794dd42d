/** The tailnet allocator: an advertise address and a block of ports for every worker. */
module Tailnet {

  import opened Results
  import opened Text
  import opened Cluster

  const TOOL_OFFSET := 16
  const WORKER_PORT_OFFSET := 64
  const LOCAL := "127.0.0.1"

  datatype TailnetConfig = TailnetConfig(
    headTailnetIp: string, headAdvertiseIp: string, socksPort: int, connectProxyPort: int,
    gcsPort: int, headNodeManagerPort: int, headObjectManagerPort: int,
    headToolMin: int, headToolMax: int, headWorkerMin: int, headWorkerMax: int,
    blockBase: int, blockSize: int, toolPortCount: nat, workerPortCount: nat)

  /** The configuration's defaults; the head's tailnet address has none. */
  function DefaultConfig(headTailnetIp: string): TailnetConfig {
    TailnetConfig(headTailnetIp, "127.200.0.1", 1055, 13129,
                  6379, 23744, 23745, 23760, 23770, 23808, 23935, 24000, 256, 11, 128)
  }

  /** The ports lo, lo+1, ..., hi. */
  function Range(lo: int, hi: int): seq<int> {
    if hi < lo then [] else seq(hi - lo + 1, i => lo + i)
  }

  lemma InRange(lo: int, hi: int, p: int)
    ensures p in Range(lo, hi) <==> lo <= p <= hi
  {
    if lo <= p <= hi { assert Range(lo, hi)[p - lo] == p; }
  }

  function HeadPorts(tn: TailnetConfig): seq<int> {
    [tn.gcsPort, tn.headNodeManagerPort, tn.headObjectManagerPort]
      + Range(tn.headWorkerMin, tn.headWorkerMax) + Range(tn.headToolMin, tn.headToolMax)
  }

  predicate HeadOwns(tn: TailnetConfig, p: int) {
    || p == tn.gcsPort || p == tn.headNodeManagerPort || p == tn.headObjectManagerPort
    || tn.headWorkerMin <= p <= tn.headWorkerMax || tn.headToolMin <= p <= tn.headToolMax
  }

  lemma HeadPortsAre(tn: TailnetConfig, p: int)
    ensures p in HeadPorts(tn) <==> HeadOwns(tn, p)
  {
    InRange(tn.headWorkerMin, tn.headWorkerMax, p);
    InRange(tn.headToolMin, tn.headToolMax, p);
    hide Range;
  }

  datatype Alloc = Alloc(advertiseIp: string, tailnetIp: string, nodeManagerPort: int, objectManagerPort: int,
                         toolMin: int, toolMax: int, workerMin: int, workerMax: int)
  {
    function Ports(): seq<int> {
      [nodeManagerPort, objectManagerPort] + Range(toolMin, toolMax) + Range(workerMin, workerMax)
    }

    predicate Owns(p: int) {
      p == nodeManagerPort || p == objectManagerPort || toolMin <= p <= toolMax || workerMin <= p <= workerMax
    }

    lemma PortsAre(p: int)
      ensures p in Ports() <==> Owns(p)
    {
      InRange(toolMin, toolMax, p);
      InRange(workerMin, workerMax, p);
      hide Range;
    }
  }

  datatype Row = Row(key: Key, alloc: Alloc)

  datatype AllocError = BlockTooSmall | TooManyTools | AdvertiseCollision | OverlapsHead | PortTooHigh
      | AddressesExhausted

  // ---------------------------------------------------------------- what the allocator must produce

  /** Where the cluster's machines are: the head, the tailnet hosts and their discovered addresses. */
  datatype Hosts = Hosts(headIp: string, tailnet: set<string>, ipMap: map<string, string>)

  predicate Participates(h: Hosts, k: Key) {
    k.ip in h.tailnet || k.ip == h.headIp
  }

  function Participants(h: Hosts, ks: seq<Key>): (ps: seq<Key>)
    ensures |ps| <= |ks|
  {
    if ks == [] then []
    else
      var n := |ks| - 1;
      Participants(h, ks[..n]) + (if Participates(h, ks[n]) then [ks[n]] else [])
  }

  /** The address peers dial for a machine. */
  function TailnetIp(tn: TailnetConfig, h: Hosts, ip: string): string {
    if ip == h.headIp then tn.headTailnetIp else if ip in h.ipMap then h.ipMap[ip] else ip
  }

  /** The n-th participant's address is 127.0.0.(2+n); its block is the rank-th of its machine. */
  function AllocFor(tn: TailnetConfig, h: Hosts, ip: string, n: nat, rank: nat): Alloc
    requires LOOPBACK + 1 + n < ADDRESS_SPACE
  {
    var base := tn.blockBase + rank * tn.blockSize;
    Alloc(Dotted(LOOPBACK + 1 + n), TailnetIp(tn, h, ip), base, base + 1,
          base + TOOL_OFFSET, base + TOOL_OFFSET + tn.toolPortCount - 1,
          base + WORKER_PORT_OFFSET, base + WORKER_PORT_OFFSET + tn.workerPortCount - 1)
  }

  function ConfigError(tn: TailnetConfig): Option<AllocError> {
    if WORKER_PORT_OFFSET + tn.workerPortCount > tn.blockSize then Some(BlockTooSmall)
    else if tn.toolPortCount > WORKER_PORT_OFFSET - TOOL_OFFSET then Some(TooManyTools)
    else None
  }

  /** What stops the allocator at its n-th participant, if anything. */
  function StopAt(tn: TailnetConfig, h: Hosts, ip: string, n: nat, rank: nat): Option<AllocError> {
    if LOOPBACK + 1 + n >= ADDRESS_SPACE then Some(AddressesExhausted)
    else
      var a := AllocFor(tn, h, ip, n, rank);
      if a.advertiseIp == tn.headAdvertiseIp then Some(AdvertiseCollision)
      else if exists p | p in a.Ports() :: p in HeadPorts(tn) then Some(OverlapsHead)
      else if a.workerMax > 65535 then Some(PortTooHigh)
      else if LOOPBACK + 2 + n >= ADDRESS_SPACE then Some(AddressesExhausted)
      else None
  }

  function StopOf(tn: TailnetConfig, h: Hosts, ps: seq<Key>, j: nat): Option<AllocError>
    requires j < |ps|
  {
    StopAt(tn, h, ps[j].ip, j, Rank(ps, j))
  }

  function RowOf(tn: TailnetConfig, h: Hosts, ps: seq<Key>, j: nat): Row
    requires j < |ps| && StopOf(tn, h, ps, j).None?
  {
    Row(ps[j], AllocFor(tn, h, ps[j].ip, j, Rank(ps, j)))
  }

  ghost predicate NothingStops(tn: TailnetConfig, h: Hosts, ps: seq<Key>) {
    forall j | 0 <= j < |ps| :: StopOf(tn, h, ps, j).None?
  }

  // ---------------------------------------------------------------- the allocator

  /** Assignment to a dictionary entry: in place if the key is there, else at the end. */
  function Put(rows: seq<Row>, row: Row): seq<Row> {
    if rows == [] then [row]
    else if rows[0].key == row.key then [row] + rows[1..]
    else [rows[0]] + Put(rows[1..], row)
  }

  ghost predicate DistinctRows(rows: seq<Row>) {
    forall i, j | 0 <= i < j < |rows| :: rows[i].key != rows[j].key
  }

  lemma {:induction false} PutDistinct(rows: seq<Row>, row: Row)
    requires DistinctRows(rows)
    ensures DistinctRows(Put(rows, row))
    ensures forall i | 0 <= i < |Put(rows, row)| ::
            Put(rows, row)[i] == row || (i < |rows| && Put(rows, row)[i] == rows[i])
  {
    if rows != [] {
      if rows[0].key == row.key {
      } else {
        PutDistinct(rows[1..], row);
        var p := Put(rows[1..], row);
        assert forall i | 0 <= i < |rows| - 1 :: rows[1..][i] == rows[i + 1];
      }
    }
  }

  lemma {:induction false} PutNew(rows: seq<Row>, row: Row)
    requires forall i | 0 <= i < |rows| :: rows[i].key != row.key
    ensures Put(rows, row) == rows + [row]
  {
    if rows != [] { PutNew(rows[1..], row); }
  }

  ghost predicate IsRowOf(row: Row, tn: TailnetConfig, h: Hosts, ps: seq<Key>)
    requires NothingStops(tn, h, ps)
  {
    exists j | 0 <= j < |ps| :: row == RowOf(tn, h, ps, j)
  }

  /** Every row is the allocation of some participant, and with distinct keys the j-th row of the j-th. */
  ghost predicate RowsOf(rows: seq<Row>, tn: TailnetConfig, h: Hosts, ps: seq<Key>) {
    && NothingStops(tn, h, ps) && DistinctRows(rows)
    && (forall i | 0 <= i < |rows| :: IsRowOf(rows[i], tn, h, ps))
    && (DistinctKeys(ps) ==> |rows| == |ps| && forall j | 0 <= j < |ps| :: rows[j] == RowOf(tn, h, ps, j))
  }

  lemma ParticipantsSnoc(h: Hosts, ks: seq<Key>, i: nat)
    requires i < |ks|
    ensures Participants(h, ks[..i + 1]) == Participants(h, ks[..i]) + (if Participates(h, ks[i]) then [ks[i]] else [])
  {
    assert ks[..i + 1][..i] == ks[..i];
  }

  lemma {:induction false} ParticipantsPrefix(h: Hosts, ks: seq<Key>, i: nat)
    requires i <= |ks|
    ensures Participants(h, ks[..i]) <= Participants(h, ks)
    decreases |ks| - i
  {
    if i < |ks| {
      ParticipantsSnoc(h, ks, i);
      ParticipantsPrefix(h, ks, i + 1);
    } else {
      assert ks[..i] == ks;
    }
  }

  /** What happens to a participant depends only on those before it. */
  lemma StopPrefix(tn: TailnetConfig, h: Hosts, ps: seq<Key>, qs: seq<Key>, j: nat)
    requires ps <= qs && j < |ps|
    ensures StopOf(tn, h, ps, j) == StopOf(tn, h, qs, j)
    ensures StopOf(tn, h, ps, j).None? ==> RowOf(tn, h, ps, j) == RowOf(tn, h, qs, j)
  {
    assert ps[..j] == qs[..j];
  }

  lemma StopsSnoc(tn: TailnetConfig, h: Hosts, ps: seq<Key>, k: Key)
    requires NothingStops(tn, h, ps) && StopOf(tn, h, ps + [k], |ps|).None?
    ensures NothingStops(tn, h, ps + [k])
    ensures forall j | 0 <= j < |ps| :: RowOf(tn, h, ps, j) == RowOf(tn, h, ps + [k], j)
  {
    forall j | 0 <= j < |ps| { StopPrefix(tn, h, ps, ps + [k], j); }
    hide StopOf; hide RowOf;
  }

  lemma IsRowSnoc(row: Row, tn: TailnetConfig, h: Hosts, ps: seq<Key>, k: Key)
    requires NothingStops(tn, h, ps) && NothingStops(tn, h, ps + [k]) && IsRowOf(row, tn, h, ps)
    ensures IsRowOf(row, tn, h, ps + [k])
  {
    hide StopOf; hide RowOf;
    var j :| 0 <= j < |ps| && row == RowOf(tn, h, ps, j);
    StopsSnoc(tn, h, ps, k) by { LastStop(tn, h, ps, k); }
    assert row == RowOf(tn, h, ps + [k], j);
  }

  lemma LastStop(tn: TailnetConfig, h: Hosts, ps: seq<Key>, k: Key)
    requires NothingStops(tn, h, ps + [k])
    ensures StopOf(tn, h, ps + [k], |ps|).None?
  {
  }

  lemma FreshKey(tn: TailnetConfig, h: Hosts, ps: seq<Key>, k: Key, rows: seq<Row>)
    requires DistinctKeys(ps + [k]) && RowsOf(rows, tn, h, ps)
    ensures DistinctKeys(ps) && forall i | 0 <= i < |rows| :: rows[i].key != k
  {
    var qs := ps + [k];
    assert qs[|ps|] == k && forall i | 0 <= i < |ps| :: qs[i] == ps[i];
    forall i | 0 <= i < |rows| ensures rows[i].key != k { RowKey(tn, h, ps, i); }
  }

  lemma RowsSnoc(rows: seq<Row>, tn: TailnetConfig, h: Hosts, ps: seq<Key>, k: Key)
    requires RowsOf(rows, tn, h, ps) && StopOf(tn, h, ps + [k], |ps|).None?
    ensures RowsOf(Put(rows, RowOf(tn, h, ps + [k], |ps|)), tn, h, ps + [k])
  {
    hide *;
    var qs, row := ps + [k], RowOf(tn, h, ps + [k], |ps|);
    var out := Put(rows, row);
    RowsOfIs(rows, tn, h, ps);
    StopsSnoc(tn, h, ps, k);
    PutDistinct(rows, row);
    RowAt(tn, h, qs, |ps|);
    forall i | 0 <= i < |out| ensures IsRowOf(out[i], tn, h, qs) {
      if out[i] != row { IsRowSnoc(rows[i], tn, h, ps, k); }
    }
    if DistinctKeys(qs) {
      FreshKey(tn, h, ps, k, rows);
      RowKey(tn, h, qs, |ps|);
      PutNew(rows, row);
      StopsNone(tn, h, qs);
      assert forall j | 0 <= j < |qs| :: out[j] == RowOf(tn, h, qs, j);
    }
    MakeRows(out, tn, h, qs);
  }

  lemma RowsOfIs(rows: seq<Row>, tn: TailnetConfig, h: Hosts, ps: seq<Key>)
    requires RowsOf(rows, tn, h, ps)
    ensures NothingStops(tn, h, ps) && DistinctRows(rows)
    ensures forall i | 0 <= i < |rows| :: IsRowOf(rows[i], tn, h, ps)
    ensures DistinctKeys(ps) ==> |rows| == |ps|
    ensures forall j | 0 <= j < |ps| ::
              StopOf(tn, h, ps, j).None? && (DistinctKeys(ps) ==> rows[j] == RowOf(tn, h, ps, j))
  {
    hide StopOf; hide RowOf; hide DistinctKeys; hide DistinctRows; hide IsRowOf;
  }

  lemma StopsNone(tn: TailnetConfig, h: Hosts, ps: seq<Key>)
    requires NothingStops(tn, h, ps)
    ensures forall j | 0 <= j < |ps| :: StopOf(tn, h, ps, j).None?
  {
    hide StopOf;
  }

  lemma RowAt(tn: TailnetConfig, h: Hosts, ps: seq<Key>, j: nat)
    requires NothingStops(tn, h, ps) && j < |ps| && StopOf(tn, h, ps, j).None?
    ensures IsRowOf(RowOf(tn, h, ps, j), tn, h, ps)
  {
    hide StopOf; hide RowOf; hide NothingStops;
  }

  lemma MakeRows(rows: seq<Row>, tn: TailnetConfig, h: Hosts, ps: seq<Key>)
    requires NothingStops(tn, h, ps) && DistinctRows(rows) && forall i | 0 <= i < |rows| :: IsRowOf(rows[i], tn, h, ps)
    requires DistinctKeys(ps) ==>
               && |rows| == |ps|
               && forall j | 0 <= j < |ps| :: StopOf(tn, h, ps, j).None? && rows[j] == RowOf(tn, h, ps, j)
    ensures RowsOf(rows, tn, h, ps)
  {
    hide StopOf; hide RowOf; hide DistinctKeys; hide DistinctRows; hide IsRowOf;
  }

  lemma RowKey(tn: TailnetConfig, h: Hosts, ps: seq<Key>, j: nat)
    requires j < |ps| && StopOf(tn, h, ps, j).None?
    ensures RowOf(tn, h, ps, j).key == ps[j]
  {
  }

  /** The first participant that stops the allocator stops it with `e`. */
  ghost predicate FirstStop(tn: TailnetConfig, h: Hosts, ps: seq<Key>, e: AllocError) {
    exists j | 0 <= j < |ps| :: StopOf(tn, h, ps, j) == Some(e) && NothingStops(tn, h, ps[..j])
  }

  lemma FirstStopHere(tn: TailnetConfig, h: Hosts, ps: seq<Key>, k: Key, all: seq<Key>, e: AllocError)
    requires ps + [k] <= all && NothingStops(tn, h, ps)
    requires StopAt(tn, h, k.ip, |ps|, CountOn(ps, k.ip)) == Some(e)
    ensures FirstStop(tn, h, all, e)
  {
    hide *;
    NextStop(tn, h, ps, k);
    StopPrefix(tn, h, ps + [k], all, |ps|);
    assert all[..|ps|] == ps;
    FirstStopAt(tn, h, all, |ps|, e);
  }

  lemma FirstStopAt(tn: TailnetConfig, h: Hosts, ps: seq<Key>, j: nat, e: AllocError)
    requires j < |ps| && StopOf(tn, h, ps, j) == Some(e) && NothingStops(tn, h, ps[..j])
    ensures FirstStop(tn, h, ps, e)
  {
    hide StopOf; hide NothingStops;
  }

  lemma NextStop(tn: TailnetConfig, h: Hosts, ps: seq<Key>, k: Key)
    ensures StopOf(tn, h, ps + [k], |ps|) == StopAt(tn, h, k.ip, |ps|, CountOn(ps, k.ip))
    ensures StopOf(tn, h, ps + [k], |ps|).None? ==>
              RowOf(tn, h, ps + [k], |ps|) == Row(k, AllocFor(tn, h, k.ip, |ps|, CountOn(ps, k.ip)))
  {
    assert (ps + [k])[..|ps|] == ps && (ps + [k])[|ps|] == k;
    hide StopAt; hide CountOn;
  }

  lemma NextRow(rows: seq<Row>, tn: TailnetConfig, h: Hosts, ps: seq<Key>, k: Key)
    requires RowsOf(rows, tn, h, ps) && StopAt(tn, h, k.ip, |ps|, CountOn(ps, k.ip)).None?
    ensures RowsOf(Put(rows, Row(k, AllocFor(tn, h, k.ip, |ps|, CountOn(ps, k.ip)))), tn, h, ps + [k])
  {
    NextStop(tn, h, ps, k);
    RowsSnoc(rows, tn, h, ps, k);
    hide *;
  }

  lemma AllocParts(tn: TailnetConfig, h: Hosts, ip: string, n: nat, rank: nat)
    requires LOOPBACK + 1 + n < ADDRESS_SPACE
    ensures var base := tn.blockBase + rank * tn.blockSize;
            AllocFor(tn, h, ip, n, rank)
            == Alloc(Dotted(LOOPBACK + 1 + n),
                     if ip == h.headIp then tn.headTailnetIp else if ip in h.ipMap then h.ipMap[ip] else ip,
                     base, base + 1,
                     base + TOOL_OFFSET, base + TOOL_OFFSET + tn.toolPortCount - 1,
                     base + WORKER_PORT_OFFSET, base + WORKER_PORT_OFFSET + tn.workerPortCount - 1)
  {
    hide Dotted;
  }

  lemma StopCases(tn: TailnetConfig, h: Hosts, ip: string, n: nat, rank: nat)
    requires LOOPBACK + 1 + n < ADDRESS_SPACE
    ensures var a := AllocFor(tn, h, ip, n, rank);
            StopAt(tn, h, ip, n, rank)
            == if a.advertiseIp == tn.headAdvertiseIp then Some(AdvertiseCollision)
               else if exists p | p in a.Ports() :: p in HeadPorts(tn) then Some(OverlapsHead)
               else if a.workerMax > 65535 then Some(PortTooHigh)
               else if LOOPBACK + 2 + n >= ADDRESS_SPACE then Some(AddressesExhausted)
               else None
  {
    hide AllocFor; hide HeadPorts; hide Alloc.Ports;
  }

  /** The address and block of one participant, with every check made before it is recorded. */
  method AllocateOne(tn: TailnetConfig, h: Hosts, ip: string, nextAddr: nat, blockIdx: nat, headPortSet: seq<int>)
    returns (r: Result<Alloc, AllocError>)
    requires LOOPBACK + 1 <= nextAddr < ADDRESS_SPACE && headPortSet == HeadPorts(tn)
    ensures var n := nextAddr - LOOPBACK - 1;
            match r
            case Ok(a) => a == AllocFor(tn, h, ip, n, blockIdx)
                          && StopAt(tn, h, ip, n, blockIdx)
                             == if nextAddr + 1 < ADDRESS_SPACE then None else Some(AddressesExhausted)
            case Err(e) => StopAt(tn, h, ip, n, blockIdx) == Some(e)
  {
    hide *;
    AllocParts(tn, h, ip, nextAddr - LOOPBACK - 1, blockIdx);
    StopCases(tn, h, ip, nextAddr - LOOPBACK - 1, blockIdx);
    var isHeadLocal := ip == h.headIp;
    var base := tn.blockBase + blockIdx * tn.blockSize;
    var alloc := Alloc(Dotted(nextAddr),
                       if isHeadLocal then tn.headTailnetIp else if ip in h.ipMap then h.ipMap[ip] else ip,
                       base, base + 1,
                       base + TOOL_OFFSET, base + TOOL_OFFSET + tn.toolPortCount - 1,
                       base + WORKER_PORT_OFFSET, base + WORKER_PORT_OFFSET + tn.workerPortCount - 1);
    if alloc.advertiseIp == tn.headAdvertiseIp {
      return Err(AdvertiseCollision);
    }
    if exists p | p in alloc.Ports() :: p in headPortSet {
      return Err(OverlapsHead);
    }
    if alloc.workerMax > 65535 {
      return Err(PortTooHigh);
    }
    r := Ok(alloc);
  }

  /** Succeeds exactly when neither the configuration nor any participant is refused, and then gives
      every participant its address and block. */
  method AllocateTailnetWorkers(tn: TailnetConfig, h: Hosts, assignments: seq<Key>)
    returns (r: Result<seq<Row>, AllocError>)
    ensures match r
            case Ok(rows) => ConfigError(tn).None? && RowsOf(rows, tn, h, Participants(h, assignments))
            case Err(e) => ConfigError(tn) == Some(e) || FirstStop(tn, h, Participants(h, assignments), e)
    ensures r.Ok? ==> LaidOut(tn) && (DistinctKeys(assignments) ==> EachGranted(tn, h, assignments, r.value))
    ensures r.Err? ==> Refused(tn, h, assignments, r.error)
  {
    hide *;
    ConfigErrorIs(tn);
    if WORKER_PORT_OFFSET + tn.workerPortCount > tn.blockSize {
      LayoutRefused(tn, h, assignments, BlockTooSmall);
      return Err(BlockTooSmall);
    }
    if tn.toolPortCount > WORKER_PORT_OFFSET - TOOL_OFFSET {
      LayoutRefused(tn, h, assignments, TooManyTools);
      return Err(TooManyTools);
    }
    var rows: seq<Row> := [];
    var nextAddr: nat := LOOPBACK + 1;
    var headPortSet := HeadPorts(tn);
    var idxByMachine: map<string, nat> := map[];
    ghost var ps: seq<Key> := [];
    StartState(tn, h, assignments);
    for i := 0 to |assignments|
      invariant State(tn, h, assignments, i, ps, nextAddr, idxByMachine, rows)
    {
      var a := assignments[i];
      StateIs(tn, h, assignments, i, ps, nextAddr, idxByMachine, rows);
      var isHeadLocal := a.ip == h.headIp;
      if !(a.ip in h.tailnet || isHeadLocal) {
        SkipState(tn, h, assignments, i, ps, nextAddr, idxByMachine, rows);
        continue;
      }
      var blockIdx := if a.ip in idxByMachine then idxByMachine[a.ip] else 0;
      assert blockIdx == CountOn(ps, a.ip) && |ps| == nextAddr - LOOPBACK - 1;
      var alloc := AllocateOne(tn, h, a.ip, nextAddr, blockIdx, headPortSet);
      if alloc.Err? {
        StopState(tn, h, assignments, i, ps, nextAddr, idxByMachine, rows, alloc.error);
        StopRefused(tn, h, assignments, alloc.error);
        return Err(alloc.error);
      }
      nextAddr := nextAddr + 1;
      if nextAddr >= ADDRESS_SPACE {
        StopState(tn, h, assignments, i, ps, nextAddr - 1, idxByMachine, rows, AddressesExhausted);
        StopRefused(tn, h, assignments, AddressesExhausted);
        return Err(AddressesExhausted);
      }
      TakeState(tn, h, assignments, i, ps, nextAddr - 1, idxByMachine, rows);
      idxByMachine := idxByMachine[a.ip := blockIdx + 1];
      rows := Put(rows, Row(a, alloc.value));
      ps := ps + [a];
      if nextAddr == LOOPBACK { assert false; }  // the address only counts up from 127.0.0.2
    }
    FinalState(tn, h, assignments, ps, nextAddr, idxByMachine, rows);
    LaidOutIs(tn);
    if DistinctKeys(assignments) { RowsGranted(tn, h, assignments, rows); }
    r := Ok(rows);
  }

  lemma ConfigErrorIs(tn: TailnetConfig)
    ensures ConfigError(tn) == if WORKER_PORT_OFFSET + tn.workerPortCount > tn.blockSize then Some(BlockTooSmall)
                               else if tn.toolPortCount > WORKER_PORT_OFFSET - TOOL_OFFSET then Some(TooManyTools)
                               else None
  {
  }

  lemma FinalState(tn: TailnetConfig, h: Hosts, ks: seq<Key>, ps: seq<Key>, nextAddr: nat, idx: map<string, nat>,
                   rows: seq<Row>)
    requires State(tn, h, ks, |ks|, ps, nextAddr, idx, rows)
    ensures RowsOf(rows, tn, h, Participants(h, ks))
  {
    assert ks[..|ks|] == ks;
    hide Participants; hide RowsOf; hide CountsOn;
  }

  /** Where the allocator is after i assignments, of which `ps` take part. */
  ghost predicate State(tn: TailnetConfig, h: Hosts, ks: seq<Key>, i: nat, ps: seq<Key>, nextAddr: nat,
                        idx: map<string, nat>, rows: seq<Row>) {
    && i <= |ks| && ps == Participants(h, ks[..i])
    && nextAddr == LOOPBACK + 1 + |ps| && nextAddr < ADDRESS_SPACE
    && CountsOn(idx, ps) && RowsOf(rows, tn, h, ps)
  }

  lemma StartState(tn: TailnetConfig, h: Hosts, ks: seq<Key>)
    ensures State(tn, h, ks, 0, [], LOOPBACK + 1, map[], [])
  {
  }

  lemma StateIs(tn: TailnetConfig, h: Hosts, ks: seq<Key>, i: nat, ps: seq<Key>, nextAddr: nat, idx: map<string, nat>,
                rows: seq<Row>)
    requires State(tn, h, ks, i, ps, nextAddr, idx, rows) && i < |ks|
    ensures LOOPBACK + 1 <= nextAddr < ADDRESS_SPACE && nextAddr == LOOPBACK + 1 + |ps|
    ensures (if ks[i].ip in idx then idx[ks[i].ip] else 0) == CountOn(ps, ks[i].ip)
    ensures Participates(h, ks[i]) <==> ks[i].ip in h.tailnet || ks[i].ip == h.headIp
  {
  }

  lemma SkipState(tn: TailnetConfig, h: Hosts, ks: seq<Key>, i: nat, ps: seq<Key>, nextAddr: nat, idx: map<string, nat>,
                  rows: seq<Row>)
    requires State(tn, h, ks, i, ps, nextAddr, idx, rows) && i < |ks| && !Participates(h, ks[i])
    ensures State(tn, h, ks, i + 1, ps, nextAddr, idx, rows)
  {
    ParticipantsSnoc(h, ks, i);
    hide Participants; hide RowsOf; hide CountsOn;
  }

  lemma StateParts(tn: TailnetConfig, h: Hosts, ks: seq<Key>, i: nat, ps: seq<Key>, nextAddr: nat,
                   idx: map<string, nat>, rows: seq<Row>)
    requires State(tn, h, ks, i, ps, nextAddr, idx, rows) && i < |ks| && Participates(h, ks[i])
    ensures RowsOf(rows, tn, h, ps) && CountsOn(idx, ps) && ps + [ks[i]] == Participants(h, ks[..i + 1])
    ensures nextAddr == LOOPBACK + 1 + |ps| < ADDRESS_SPACE
  {
    ParticipantsSnoc(h, ks, i);
    hide Participants; hide RowsOf; hide CountsOn;
  }

  lemma StopState(tn: TailnetConfig, h: Hosts, ks: seq<Key>, i: nat, ps: seq<Key>, nextAddr: nat, idx: map<string, nat>,
                  rows: seq<Row>, e: AllocError)
    requires State(tn, h, ks, i, ps, nextAddr, idx, rows) && i < |ks| && Participates(h, ks[i])
    requires StopAt(tn, h, ks[i].ip, |ps|, CountOn(ps, ks[i].ip)) == Some(e)
    ensures FirstStop(tn, h, Participants(h, ks), e)
  {
    hide *;
    assert RowsOf(rows, tn, h, ps) && ps + [ks[i]] == Participants(h, ks[..i + 1]) by {
      StateParts(tn, h, ks, i, ps, nextAddr, idx, rows);
    }
    ParticipantsPrefix(h, ks, i + 1);
    RowsNothingStops(rows, tn, h, ps);
    FirstStopHere(tn, h, ps, ks[i], Participants(h, ks), e);
  }

  lemma TakeState(tn: TailnetConfig, h: Hosts, ks: seq<Key>, i: nat, ps: seq<Key>, nextAddr: nat, idx: map<string, nat>,
                  rows: seq<Row>)
    requires State(tn, h, ks, i, ps, nextAddr, idx, rows) && i < |ks| && Participates(h, ks[i])
    requires StopAt(tn, h, ks[i].ip, |ps|, CountOn(ps, ks[i].ip)).None? && nextAddr + 1 < ADDRESS_SPACE
    ensures State(tn, h, ks, i + 1, ps + [ks[i]], nextAddr + 1, idx[ks[i].ip := CountOn(ps, ks[i].ip) + 1],
                  Put(rows, Row(ks[i], AllocFor(tn, h, ks[i].ip, |ps|, CountOn(ps, ks[i].ip)))))
  {
    hide *;
    var a := ks[i];
    StateParts(tn, h, ks, i, ps, nextAddr, idx, rows);
    CountsSnoc(idx, ps, a);
    NextRow(rows, tn, h, ps, a);
    MakeState(tn, h, ks, i + 1, ps + [a], nextAddr + 1, idx[a.ip := CountOn(ps, a.ip) + 1],
              Put(rows, Row(a, AllocFor(tn, h, a.ip, |ps|, CountOn(ps, a.ip)))));
  }

  lemma MakeState(tn: TailnetConfig, h: Hosts, ks: seq<Key>, i: nat, ps: seq<Key>, nextAddr: nat, idx: map<string, nat>,
                  rows: seq<Row>)
    requires i <= |ks| && ps == Participants(h, ks[..i]) && nextAddr == LOOPBACK + 1 + |ps| && nextAddr < ADDRESS_SPACE
    requires CountsOn(idx, ps) && RowsOf(rows, tn, h, ps)
    ensures State(tn, h, ks, i, ps, nextAddr, idx, rows)
  {
    hide Participants; hide RowsOf; hide CountsOn;
  }

  lemma RowsNothingStops(rows: seq<Row>, tn: TailnetConfig, h: Hosts, ps: seq<Key>)
    requires RowsOf(rows, tn, h, ps)
    ensures NothingStops(tn, h, ps)
  {
  }

  // ---------------------------------------------------------------- the allocations, field by field

  /** A worker on a tailnet machine or on the head's. */
  ghost function TakesPart(h: Hosts): Key -> bool {
    (k: Key) => k.ip in h.tailnet || k.ip == h.headIp
  }

  /** Tool ports fit between 16 and 64, and the worker ports above in the block. */
  ghost predicate LaidOut(tn: TailnetConfig) {
    tn.toolPortCount <= 48 && 64 + tn.workerPortCount <= tn.blockSize
  }

  /** The q-th assignment's allocation: an address of its own, and in its machine's next block the two manager ports at
      the start, the tools from 16 on and the worker ports from 64 on. */
  ghost predicate Granted(tn: TailnetConfig, h: Hosts, ks: seq<Key>, q: nat, a: Alloc) {
    && q < |ks|
    && var n := CountIf(ks[..q], TakesPart(h));
       var base := tn.blockBase + CountIfOn(ks[..q], TakesPart(h), ks[q].ip) * tn.blockSize;
       && 0x7F00_0002 + n < 0x1_0000_0000 && a.advertiseIp == Dotted(0x7F00_0002 + n)
       && (ks[q].ip == h.headIp ==> a.tailnetIp == tn.headTailnetIp)
       && (ks[q].ip != h.headIp && ks[q].ip in h.ipMap ==> a.tailnetIp == h.ipMap[ks[q].ip])
       && (ks[q].ip != h.headIp && ks[q].ip !in h.ipMap ==> a.tailnetIp == ks[q].ip)
       && a.nodeManagerPort == base && a.objectManagerPort == base + 1
       && a.toolMin == base + 16 && a.toolMax == base + 16 + tn.toolPortCount - 1
       && a.workerMin == base + 64 && a.workerMax == base + 64 + tn.workerPortCount - 1
  }

  ghost predicate MeetsHead(tn: TailnetConfig, a: Alloc) {
    exists p :: a.Owns(p) && HeadOwns(tn, p)
  }

  /** The head's address and ports are left alone, and the ports are ports. */
  ghost predicate Accepted(tn: TailnetConfig, a: Alloc) {
    a.advertiseIp != tn.headAdvertiseIp && !MeetsHead(tn, a) && a.workerMax <= 65535
  }

  /** One row for each worker that takes part, in their order. */
  ghost predicate EachGranted(tn: TailnetConfig, h: Hosts, ks: seq<Key>, rows: seq<Row>) {
    && |rows| == CountIf(ks, TakesPart(h))
    && forall q: nat | q < |ks| && TakesPart(h)(ks[q]) :: GrantedIn(tn, h, ks, q, rows)
  }

  ghost predicate GrantedIn(tn: TailnetConfig, h: Hosts, ks: seq<Key>, q: nat, rows: seq<Row>) {
    && q < |ks|
    && var n := CountIf(ks[..q], TakesPart(h));
       && n < |rows| && rows[n].key == ks[q]
       && Granted(tn, h, ks, q, rows[n].alloc) && Accepted(tn, rows[n].alloc)
  }

  /** The q-th assignment cannot be served: addresses are used up, or its allocation is refused for `e`, the first
      reason there is. */
  ghost predicate RefusedAt(tn: TailnetConfig, h: Hosts, ks: seq<Key>, q: nat, e: AllocError) {
    && q < |ks| && TakesPart(h)(ks[q])
    && var n := CountIf(ks[..q], TakesPart(h));
       if 0x7F00_0002 + n >= 0x1_0000_0000 then e == AddressesExhausted
       else
         exists a ::
           && Granted(tn, h, ks, q, a)
           && if a.advertiseIp == tn.headAdvertiseIp then e == AdvertiseCollision
              else if MeetsHead(tn, a) then e == OverlapsHead
              else if a.workerMax > 65535 then e == PortTooHigh
              else e == AddressesExhausted && 0x7F00_0003 + n >= 0x1_0000_0000
  }

  ghost predicate Refused(tn: TailnetConfig, h: Hosts, ks: seq<Key>, e: AllocError) {
    if 64 + tn.workerPortCount > tn.blockSize then e == BlockTooSmall
    else if tn.toolPortCount > 48 then e == TooManyTools
    else
      exists q: nat ::
        && q < |ks| && RefusedAt(tn, h, ks, q, e)
        && forall p: nat | p < q && TakesPart(h)(ks[p]) :: exists a :: Granted(tn, h, ks, p, a) && Accepted(tn, a)
  }

  lemma {:induction false} ParticipantsAre(h: Hosts, ks: seq<Key>)
    ensures Participants(h, ks) == Filter(ks, TakesPart(h))
  {
    if ks != [] { ParticipantsAre(h, ks[..|ks| - 1]); }
  }

  lemma LaidOutIs(tn: TailnetConfig)
    ensures LaidOut(tn) <==> ConfigError(tn).None?
  {
  }

  lemma LayoutRefused(tn: TailnetConfig, h: Hosts, ks: seq<Key>, e: AllocError)
    requires ConfigError(tn) == Some(e)
    ensures Refused(tn, h, ks, e)
  {
    hide RefusedAt; hide Accepted; hide Granted; hide TakesPart;
  }

  lemma MeetsHeadIs(tn: TailnetConfig, a: Alloc)
    ensures MeetsHead(tn, a) <==> exists p | p in a.Ports() :: p in HeadPorts(tn)
  {
    forall p ensures (p in a.Ports() <==> a.Owns(p)) && (p in HeadPorts(tn) <==> HeadOwns(tn, p)) {
      a.PortsAre(p);
      HeadPortsAre(tn, p);
    }
    hide Alloc.Ports; hide HeadPorts; hide Alloc.Owns; hide HeadOwns;
    if MeetsHead(tn, a) {
      var p :| a.Owns(p) && HeadOwns(tn, p);
      assert p in a.Ports() && p in HeadPorts(tn);
    }
  }

  lemma GrantedBy(tn: TailnetConfig, h: Hosts, ks: seq<Key>, q: nat, n: nat, rank: nat)
    requires q < |ks| && LOOPBACK + 1 + n < ADDRESS_SPACE
    requires n == CountIf(ks[..q], TakesPart(h)) && rank == CountIfOn(ks[..q], TakesPart(h), ks[q].ip)
    ensures Granted(tn, h, ks, q, AllocFor(tn, h, ks[q].ip, n, rank))
  {
    AllocParts(tn, h, ks[q].ip, n, rank);
    hide Dotted; hide CountIf; hide CountIfOn; hide TakesPart; hide AllocFor;
  }

  /** A participant as the assignment it is. */
  lemma PartAt(tn: TailnetConfig, h: Hosts, ks: seq<Key>, q: nat)
    requires q < |ks| && TakesPart(h)(ks[q])
    ensures var ps, n := Participants(h, ks), CountIf(ks[..q], TakesPart(h));
            n < |ps| && ps[n] == ks[q] && Rank(ps, n) == CountIfOn(ks[..q], TakesPart(h), ks[q].ip)
  {
    hide *;
    ParticipantsAre(h, ks);
    FilterAt(ks, TakesPart(h), q);
    FilterCounts(ks[..q], TakesPart(h), ks[q].ip);
    RankIs(Participants(h, ks), CountIf(ks[..q], TakesPart(h)));
  }

  lemma RankIs(ps: seq<Key>, n: nat)
    requires n < |ps|
    ensures Rank(ps, n) == CountOn(ps[..n], ps[n].ip)
  {
  }

  lemma NotStopped(tn: TailnetConfig, h: Hosts, ks: seq<Key>, q: nat)
    requires q < |ks| && TakesPart(h)(ks[q])
    requires var n := CountIf(ks[..q], TakesPart(h));
             n < |Participants(h, ks)| && StopOf(tn, h, Participants(h, ks), n).None?
    ensures var n := CountIf(ks[..q], TakesPart(h));
            var row := RowOf(tn, h, Participants(h, ks), n);
            row.key == ks[q] && Granted(tn, h, ks, q, row.alloc) && Accepted(tn, row.alloc)
  {
    var f, ps := TakesPart(h), Participants(h, ks);
    var n, rank := CountIf(ks[..q], f), CountIfOn(ks[..q], f, ks[q].ip);
    PartAt(tn, h, ks, q);
    assert StopAt(tn, h, ks[q].ip, n, rank).None?
           && RowOf(tn, h, ps, n) == Row(ks[q], AllocFor(tn, h, ks[q].ip, n, rank));
    hide *;
    StoppedIff(tn, h, ks[q].ip, n, rank);
    GrantedBy(tn, h, ks, q, n, rank);
  }

  lemma StoppedIff(tn: TailnetConfig, h: Hosts, ip: string, n: nat, rank: nat)
    ensures LOOPBACK + 1 + n >= ADDRESS_SPACE ==> StopAt(tn, h, ip, n, rank) == Some(AddressesExhausted)
    ensures LOOPBACK + 1 + n < ADDRESS_SPACE ==>
              var a := AllocFor(tn, h, ip, n, rank);
              && (StopAt(tn, h, ip, n, rank).None? <==> Accepted(tn, a) && 0x7F00_0003 + n < 0x1_0000_0000)
              && (StopAt(tn, h, ip, n, rank).Some? ==>
                    StopAt(tn, h, ip, n, rank).value
                    == if a.advertiseIp == tn.headAdvertiseIp then AdvertiseCollision
                       else if MeetsHead(tn, a) then OverlapsHead
                       else if a.workerMax > 65535 then PortTooHigh
                       else AddressesExhausted)
  {
    if LOOPBACK + 1 + n < ADDRESS_SPACE {
      StopCases(tn, h, ip, n, rank);
      MeetsHeadIs(tn, AllocFor(tn, h, ip, n, rank));
    }
    hide AllocFor; hide MeetsHead; hide HeadPorts; hide Alloc.Ports;
  }

  lemma RowsGranted(tn: TailnetConfig, h: Hosts, ks: seq<Key>, rows: seq<Row>)
    requires DistinctKeys(ks) && RowsOf(rows, tn, h, Participants(h, ks))
    ensures EachGranted(tn, h, ks, rows)
  {
    var f, ps := TakesPart(h), Participants(h, ks);
    hide *;
    ParticipantsAre(h, ks);
    FilterDistinct(ks, f);
    FilterCounts(ks, f, "");
    RowsOfIs(rows, tn, h, ps);
    forall q: nat | q < |ks| && f(ks[q]) ensures GrantedIn(tn, h, ks, q, rows) {
      PartAt(tn, h, ks, q);
      NotStopped(tn, h, ks, q);
      MakeGrantedIn(tn, h, ks, q, rows);
    }
    MakeEach(tn, h, ks, rows);
  }

  lemma MakeGrantedIn(tn: TailnetConfig, h: Hosts, ks: seq<Key>, q: nat, rows: seq<Row>)
    requires q < |ks|
    requires var n := CountIf(ks[..q], TakesPart(h));
             && n < |rows| && rows[n].key == ks[q]
             && Granted(tn, h, ks, q, rows[n].alloc) && Accepted(tn, rows[n].alloc)
    ensures GrantedIn(tn, h, ks, q, rows)
  {
    hide Granted; hide Accepted; hide TakesPart; hide CountIf;
  }

  lemma MakeEach(tn: TailnetConfig, h: Hosts, ks: seq<Key>, rows: seq<Row>)
    requires |rows| == CountIf(ks, TakesPart(h))
    requires forall q: nat | q < |ks| && TakesPart(h)(ks[q]) :: GrantedIn(tn, h, ks, q, rows)
    ensures EachGranted(tn, h, ks, rows)
  {
    hide GrantedIn; hide TakesPart; hide CountIf;
  }

  lemma StopRefusedAt(tn: TailnetConfig, h: Hosts, ks: seq<Key>, q: nat, e: AllocError)
    requires q < |ks| && TakesPart(h)(ks[q])
    requires var n := CountIf(ks[..q], TakesPart(h));
             n < |Participants(h, ks)| && StopOf(tn, h, Participants(h, ks), n) == Some(e)
    ensures RefusedAt(tn, h, ks, q, e)
  {
    var f, ps := TakesPart(h), Participants(h, ks);
    var n, rank := CountIf(ks[..q], f), CountIfOn(ks[..q], f, ks[q].ip);
    PartAt(tn, h, ks, q);
    assert StopAt(tn, h, ks[q].ip, n, rank) == Some(e);
    StoppedIff(tn, h, ks[q].ip, n, rank);
    if LOOPBACK + 1 + n < ADDRESS_SPACE { GrantedBy(tn, h, ks, q, n, rank); }
    hide StopAt; hide StopOf; hide Participants; hide Granted; hide CountIf; hide CountIfOn; hide TakesPart;
    hide MeetsHead;
    hide AllocFor; hide Rank;
    if LOOPBACK + 1 + n < ADDRESS_SPACE {
      assert Granted(tn, h, ks, q, AllocFor(tn, h, ks[q].ip, n, rank));
    }
  }

  lemma StopRefused(tn: TailnetConfig, h: Hosts, ks: seq<Key>, e: AllocError)
    requires ConfigError(tn).None? && FirstStop(tn, h, Participants(h, ks), e)
    ensures Refused(tn, h, ks, e)
  {
    var f, ps := TakesPart(h), Participants(h, ks);
    var j :| 0 <= j < |ps| && StopOf(tn, h, ps, j) == Some(e) && NothingStops(tn, h, ps[..j]);
    hide *;
    LaidOutIs(tn);
    ParticipantsAre(h, ks);
    var q := FilterFrom(ks, f, j);
    StopRefusedAt(tn, h, ks, q, e);
    forall p: nat | p < q && f(ks[p]) ensures exists a :: Granted(tn, h, ks, p, a) && Accepted(tn, a) {
      CountIfStrict(ks, f, p, q);
      PartAt(tn, h, ks, p);
      StopsNone(tn, h, ps[..j]);
      assert ps[..j] <= ps;
      StopPrefix(tn, h, ps[..j], ps, CountIf(ks[..p], f));
      NotStopped(tn, h, ks, p);
      var a := RowOf(tn, h, ps, CountIf(ks[..p], f)).alloc;
      assert Granted(tn, h, ks, p, a) && Accepted(tn, a);
    }
    MakeRefused(tn, h, ks, q, e);
  }

  lemma MakeRefused(tn: TailnetConfig, h: Hosts, ks: seq<Key>, q: nat, e: AllocError)
    requires LaidOut(tn) && RefusedAt(tn, h, ks, q, e)
    requires forall p: nat | p < q && p < |ks| && TakesPart(h)(ks[p]) ::
               exists a :: Granted(tn, h, ks, p, a) && Accepted(tn, a)
    ensures Refused(tn, h, ks, e)
  {
    RefusedInside(tn, h, ks, q, e);
    hide RefusedAt; hide Accepted; hide Granted; hide TakesPart;
  }

  lemma RefusedInside(tn: TailnetConfig, h: Hosts, ks: seq<Key>, q: nat, e: AllocError)
    requires RefusedAt(tn, h, ks, q, e)
    ensures q < |ks|
  {
  }

  // ---------------------------------------------------------------- capacity of the default configuration

  lemma DefaultStop(head: string, h: Hosts, ip: string, n: nat, rank: nat)
    requires n < 13_107_199
    ensures StopAt(DefaultConfig(head), h, ip, n, rank).None? <==> rank < 162
  {
    var tn := DefaultConfig(head);
    var a := AllocFor(tn, h, ip, n, rank);
    assert a.advertiseIp != tn.headAdvertiseIp by {
      DefaultHeadAddress();
      if a.advertiseIp == tn.headAdvertiseIp { DottedInjective(LOOPBACK + 1 + n, 0x7FC8_0001); }
    }
    forall p | p in a.Ports() ensures p !in HeadPorts(tn) {
      a.PortsAre(p);
      HeadPortsAre(tn, p);
    }
  }

  lemma DefaultHeadAddress()
    ensures Dotted(0x7FC8_0001) == "127.200.0.1"
  {
    HeadAddressNumerals();
    assert 0x7FC8_0001 / 0x100_0000 == 127 && 0x7FC8_0001 / 0x1_0000 % 0x100 == 200;
    assert 0x7FC8_0001 / 0x100 % 0x100 == 0 && 0x7FC8_0001 % 0x100 == 1;
    hide Decimal;
  }

  lemma HeadAddressNumerals()
    ensures Decimal(127) == "127" && Decimal(200) == "200" && Decimal(0) == "0" && Decimal(1) == "1"
  {
    assert Decimal(12) == "12" && Decimal(20) == "20";
    assert Decimal(127) == Decimal(12) + "7" && Decimal(200) == Decimal(20) + "0";
  }

  lemma DefaultStopOf(head: string, h: Hosts, ps: seq<Key>, j: nat)
    requires j < |ps| <= 13_107_199
    ensures StopOf(DefaultConfig(head), h, ps, j).None? <==> Rank(ps, j) < 162
  {
    hide StopAt; hide DefaultConfig; hide Rank;
    DefaultStop(head, h, ps[j].ip, j, Rank(ps, j));
  }

  /** With the default ports and at most 13,107,199 workers, allocation succeeds exactly when no
      machine has more than 162 of them. */
  lemma DefaultCapacity(head: string, h: Hosts, ps: seq<Key>)
    requires |ps| <= 13_107_199
    ensures ConfigError(DefaultConfig(head)).None?
    ensures NothingStops(DefaultConfig(head), h, ps) <==> AtMostPerMachine(ps, 162)
  {
    hide DefaultConfig; hide StopOf; hide Rank; hide CountOn;
    assert ConfigError(DefaultConfig(head)).None? by { DefaultFits(head); }
    if NothingStops(DefaultConfig(head), h, ps) {
      forall ip ensures CountOn(ps, ip) <= 162 {
        if CountOn(ps, ip) > 0 {
          var j := Ranked(ps, ip, CountOn(ps, ip) - 1);
          DefaultStopOf(head, h, ps, j);
        }
      }
    }
    if AtMostPerMachine(ps, 162) {
      forall j | 0 <= j < |ps| ensures StopOf(DefaultConfig(head), h, ps, j).None? {
        RankBound(ps, j);
        DefaultStopOf(head, h, ps, j);
        assert CountOn(ps, ps[j].ip) <= 162;
      }
    }
  }

  lemma DefaultFits(head: string)
    ensures ConfigError(DefaultConfig(head)).None?
  {
  }

  // ---------------------------------------------------------------- safety of every allocation

  /** What relays and Ray need from an allocation. */
  ghost predicate Safe(tn: TailnetConfig, h: Hosts, rows: seq<Row>) {
    && (forall i | 0 <= i < |rows| :: RowSafe(tn, h, rows[i]))
    && (forall i, j | 0 <= i < j < |rows| :: PairSafe(rows[i], rows[j]))
  }

  ghost predicate RowSafe(tn: TailnetConfig, h: Hosts, row: Row) {
    var a := row.alloc;
    && a.advertiseIp != LOCAL && a.advertiseIp != tn.headAdvertiseIp
    && a.tailnetIp == TailnetIp(tn, h, row.key.ip)
    && (forall p | a.Owns(p) :: !HeadOwns(tn, p) && p <= 65535)
  }

  ghost predicate PairSafe(x: Row, y: Row) {
    && x.key != y.key && x.alloc.advertiseIp != y.alloc.advertiseIp
    && (x.key.ip == y.key.ip ==> forall p :: !(x.alloc.Owns(p) && y.alloc.Owns(p)))
  }

  lemma BlockBounds(tn: TailnetConfig, h: Hosts, ip: string, n: nat, rank: nat, p: int)
    requires LOOPBACK + 1 + n < ADDRESS_SPACE && ConfigError(tn).None?
    requires AllocFor(tn, h, ip, n, rank).Owns(p)
    ensures tn.blockBase + rank * tn.blockSize <= p < tn.blockBase + rank * tn.blockSize + tn.blockSize
    ensures p <= AllocFor(tn, h, ip, n, rank).workerMax
  {
  }

  lemma BlocksApart(base: int, size: int, k: nat, m: nat)
    requires size > 0 && k < m
    ensures base + k * size + size <= base + m * size
  {
    assert (k + 1) * size == k * size + size;
    if k + 1 < m {
      BlocksApart(base, size, k, m - 1);
      assert m * size == (m - 1) * size + size;
    }
  }

  /** Two workers of one machine own disjoint ports. */
  lemma PortsApart(tn: TailnetConfig, h: Hosts, ps: seq<Key>, i: nat, j: nat, p: int)
    requires NothingStops(tn, h, ps) && ConfigError(tn).None? && i < j < |ps| && ps[i].ip == ps[j].ip
    ensures !(RowOf(tn, h, ps, i).alloc.Owns(p) && RowOf(tn, h, ps, j).alloc.Owns(p))
  {
    RankStrict(ps, i, j);
    BlocksApart(tn.blockBase, tn.blockSize, Rank(ps, i), Rank(ps, j));
    StopFacts(tn, h, ps, i);
    StopFacts(tn, h, ps, j);
    var a, b := RowOf(tn, h, ps, i).alloc, RowOf(tn, h, ps, j).alloc;
    hide Rank; hide Dotted; hide Alloc.Owns;
    if a.Owns(p) && b.Owns(p) {
      BlockBounds(tn, h, ps[i].ip, i, Rank(ps, i), p);
      BlockBounds(tn, h, ps[j].ip, j, Rank(ps, j), p);
      assert false;
    }
  }

  lemma StopFacts(tn: TailnetConfig, h: Hosts, ps: seq<Key>, j: nat)
    requires NothingStops(tn, h, ps) && j < |ps|
    ensures LOOPBACK + 1 + j < ADDRESS_SPACE
    ensures RowOf(tn, h, ps, j) == Row(ps[j], AllocFor(tn, h, ps[j].ip, j, Rank(ps, j)))
    ensures var a := AllocFor(tn, h, ps[j].ip, j, Rank(ps, j));
            && a.advertiseIp != tn.headAdvertiseIp && a.workerMax <= 65535
            && forall p | p in a.Ports() :: p !in HeadPorts(tn)
  {
    assert StopOf(tn, h, ps, j).None?;
  }

  lemma AllocationRowSafe(tn: TailnetConfig, h: Hosts, ps: seq<Key>, j: nat)
    requires NothingStops(tn, h, ps) && ConfigError(tn).None? && j < |ps|
    ensures RowSafe(tn, h, RowOf(tn, h, ps, j))
  {
    StopFacts(tn, h, ps, j);
    var a := RowOf(tn, h, ps, j).alloc;
    LoopbackText();
    if a.advertiseIp == LOCAL { DottedInjective(LOOPBACK + 1 + j, LOOPBACK); }
    forall p | a.Owns(p) ensures !HeadOwns(tn, p) && p <= 65535 {
      a.PortsAre(p);
      HeadPortsAre(tn, p);
      BlockBounds(tn, h, ps[j].ip, j, Rank(ps, j), p);
    }
  }

  lemma AllocationPairSafe(tn: TailnetConfig, h: Hosts, ps: seq<Key>, i: nat, j: nat)
    requires NothingStops(tn, h, ps) && ConfigError(tn).None? && i < j < |ps| && ps[i] != ps[j]
    ensures PairSafe(RowOf(tn, h, ps, i), RowOf(tn, h, ps, j)) && PairSafe(RowOf(tn, h, ps, j), RowOf(tn, h, ps, i))
  {
    var x, y := RowOf(tn, h, ps, i), RowOf(tn, h, ps, j);
    StopFacts(tn, h, ps, i);
    StopFacts(tn, h, ps, j);
    assert x.alloc.advertiseIp != y.alloc.advertiseIp by {
      if x.alloc.advertiseIp == y.alloc.advertiseIp { DottedInjective(LOOPBACK + 1 + i, LOOPBACK + 1 + j); }
    }
    hide Alloc.Owns; hide StopOf; hide RowOf;
    if ps[i].ip == ps[j].ip {
      forall p { PortsApart(tn, h, ps, i, j, p); }
    }
  }

  /** Advertise addresses are distinct and never the head's, ports on one machine (the head's
      included) are disjoint and at most 65535, and every row carries its machine's address. */
  lemma AllocationSafe(tn: TailnetConfig, h: Hosts, ps: seq<Key>, rows: seq<Row>)
    requires ConfigError(tn).None? && RowsOf(rows, tn, h, ps)
    ensures Safe(tn, h, rows)
  {
    hide StopOf; hide RowOf; hide NothingStops; hide RowSafe; hide PairSafe; hide DistinctKeys;
    forall i | 0 <= i < |rows| ensures RowSafe(tn, h, rows[i]) {
      var j := RowIndex(tn, h, ps, rows[i]);
      AllocationRowSafe(tn, h, ps, j);
    }
    forall i, j | 0 <= i < j < |rows| ensures PairSafe(rows[i], rows[j]) {
      var a := RowIndex(tn, h, ps, rows[i]);
      var b := RowIndex(tn, h, ps, rows[j]);
      if a < b { AllocationPairSafe(tn, h, ps, a, b); } else { AllocationPairSafe(tn, h, ps, b, a); }
    }
  }

  lemma RowIndex(tn: TailnetConfig, h: Hosts, ps: seq<Key>, row: Row) returns (j: nat)
    requires NothingStops(tn, h, ps) && IsRowOf(row, tn, h, ps)
    ensures j < |ps| && StopOf(tn, h, ps, j).None? && row == RowOf(tn, h, ps, j) && row.key == ps[j]
  {
    j :| 0 <= j < |ps| && row == RowOf(tn, h, ps, j);
  }
}
