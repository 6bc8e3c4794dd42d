/** Stopping only the Ray processes of one cluster, by the GCS address in each command line. */
module ScopedStop {

  import opened Results
  import opened Text
  import opened Addresses

  // ---------------------------------------------------------------- reading the command line

  predicate StartsWith(s: string, p: string) {
    |p| <= |s| && s[..|p|] == p
  }

  lemma StartsAt(s: string, p: string, j: nat)
    requires j < |p|
    ensures StartsWith(s, p) ==> j < |s| && s[j] == p[j]
  {
    if StartsWith(s, p) { assert s[j] == s[..|p|][j]; }
  }

  predicate Contains(s: string, sub: string) {
    StartsWith(s, sub) || (s != "" && Contains(s[1..], sub))
  }

  function Join(tokens: seq<string>): string {
    if tokens == [] then "" else if |tokens| == 1 then tokens[0] else tokens[0] + " " + Join(tokens[1..])
  }

  /** `prefix=value` or `prefix value`, first occurrence. */
  function FlagScan(cmdline: seq<string>, prefix: string): Option<string> {
    if cmdline == [] then None
    else if StartsWith(cmdline[0], prefix + "=") then Some(cmdline[0][|prefix| + 1..])
    else if cmdline[0] == prefix && |cmdline| > 1 then Some(cmdline[1])
    else FlagScan(cmdline[1..], prefix)
  }

  function FlagValue(cmdline: seq<string>, flag: string): Option<string> {
    match FlagScan(cmdline, "--" + flag)
    case Some(v) => Some(v)
    case None => FlagScan(cmdline, "-" + flag)
  }

  function JavaProperty(cmdline: seq<string>, prop: string): Option<string> {
    var needle := "-D" + prop + "=";
    if cmdline == [] then None
    else if StartsWith(cmdline[0], needle) then Some(cmdline[0][|needle|..])
    else JavaProperty(cmdline[1..], prop)
  }

  predicate NonEmpty(v: Option<string>) {
    v.Some? && v.value != ""
  }

  /** The GCS address a process is attached to, or None when it cannot be told. */
  function ExtractAddress(cmdline: seq<string>): Option<string> {
    var gcs := FlagValue(cmdline, "gcs-address");
    var cpp := FlagValue(cmdline, "ray_address");
    var java := JavaProperty(cmdline, "ray.address");
    var client := FlagValue(cmdline, "address");
    var nodeIp, port := FlagValue(cmdline, "node-ip-address"), FlagValue(cmdline, "gcs_server_port");
    if NonEmpty(gcs) then gcs
    else if NonEmpty(cpp) then cpp
    else if NonEmpty(java) then java
    else if Contains(Join(cmdline), "ray.util.client.server") && NonEmpty(client) then client
    else if (exists i | 0 <= i < |cmdline| :: Contains(cmdline[i], "gcs_server"))
            && NonEmpty(nodeIp) && NonEmpty(port) && port.value != "0"
    then Some(BuildAddress(nodeIp.value, port.value))
    else None
  }

  // ---------------------------------------------------------------- which processes

  datatype Proc = Proc(pid: int, name: string, cmdline: seq<string>)

  /** A Ray process pattern: matched against the process name or the whole command line. */
  datatype Keyword = Keyword(text: string, byName: bool)

  predicate Matches(p: Proc, k: Keyword, linux: bool) {
    && !(k.byName && linux && |k.text| > 15)
    && Contains(if k.byName then p.name else Join(p.cmdline), k.text)
  }

  predicate MatchesAny(p: Proc, keywords: seq<Keyword>, linux: bool) {
    exists i | 0 <= i < |keywords| :: Matches(p, keywords[i], linux)
  }

  predicate AnySame(r: Resolver, address: string, targets: seq<string>) {
    exists i | 0 <= i < |targets| :: SameAddress(r, address, targets[i])
  }

  predicate Attributed(p: Proc, r: Resolver, targets: seq<string>) {
    ExtractAddress(p.cmdline).Some? && AnySame(r, ExtractAddress(p.cmdline).value, targets)
  }

  /** The processes one list of keywords is responsible for. */
  predicate InBucket(p: Proc, bucket: seq<Keyword>, linux: bool, r: Resolver, targets: seq<string>) {
    MatchesAny(p, bucket, linux) && Attributed(p, r, targets)
  }

  ghost predicate Hit(pid: int, procs: seq<Proc>, bucket: seq<Keyword>, linux: bool, r: Resolver,
                      targets: seq<string>) {
    exists i | 0 <= i < |procs| :: procs[i].pid == pid && InBucket(procs[i], bucket, linux, r, targets)
  }

  // ---------------------------------------------------------------- the killer

  datatype Event = Terminate(pid: int) | Kill(pid: int) | Await(pids: seq<int>)

  predicate Signals(e: Event, pid: int) {
    e == Terminate(pid) || e == Kill(pid)
  }

  lemma HitSnoc(pid: int, procs: seq<Proc>, i: nat, bucket: seq<Keyword>, linux: bool, r: Resolver,
                targets: seq<string>)
    requires i < |procs|
    ensures Hit(pid, procs[..i + 1], bucket, linux, r, targets)
            <==> Hit(pid, procs[..i], bucket, linux, r, targets)
                 || (pid == procs[i].pid && InBucket(procs[i], bucket, linux, r, targets))
  {
    hide InBucket;
    assert procs[..i + 1][i] == procs[i];
    assert forall j | 0 <= j < i :: procs[..i + 1][j] == procs[..i][j];
    if Hit(pid, procs[..i + 1], bucket, linux, r, targets)
      && !(pid == procs[i].pid && InBucket(procs[i], bucket, linux, r, targets)) {
      var j :| 0 <= j < i + 1 && procs[..i + 1][j].pid == pid && InBucket(procs[..i + 1][j], bucket, linux, r, targets);
      assert procs[..i][j].pid == pid;
    }
    if Hit(pid, procs[..i], bucket, linux, r, targets) {
      var j :| 0 <= j < i && procs[..i][j].pid == pid && InBucket(procs[..i][j], bucket, linux, r, targets);
      assert procs[..i + 1][j].pid == pid;
    }
  }

  lemma AnySnoc(p: Proc, bucket: seq<Keyword>, k: nat, linux: bool)
    requires k < |bucket|
    ensures MatchesAny(p, bucket[..k + 1], linux)
            <==> MatchesAny(p, bucket[..k], linux) || MatchesAny(p, [bucket[k]], linux)
    ensures MatchesAny(p, [bucket[k]], linux) <==> Matches(p, bucket[k], linux)
  {
    hide Matches;
    assert [bucket[k]][0] == bucket[k] && bucket[..k + 1][k] == bucket[k];
    assert forall i | 0 <= i < k :: bucket[..k + 1][i] == bucket[..k][i];
  }

  lemma BucketSnoc(pid: int, procs: seq<Proc>, bucket: seq<Keyword>, k: nat, linux: bool, r: Resolver,
                   targets: seq<string>)
    requires k < |bucket|
    ensures Hit(pid, procs, bucket[..k + 1], linux, r, targets)
            <==> Hit(pid, procs, bucket[..k], linux, r, targets) || Hit(pid, procs, [bucket[k]], linux, r, targets)
  {
    hide MatchesAny; hide Attributed; hide Matches;
    forall i | 0 <= i < |procs|
      ensures InBucket(procs[i], bucket[..k + 1], linux, r, targets)
              <==> InBucket(procs[i], bucket[..k], linux, r, targets)
                   || InBucket(procs[i], [bucket[k]], linux, r, targets)
    {
      AnySnoc(procs[i], bucket, k, linux);
    }
    hide InBucket;
  }

  /** Match one keyword against the snapshot, adding each pid once. */
  method MatchKeyword(procs: seq<Proc>, keyword: Keyword, linux: bool, r: Resolver, targets: seq<string>,
                      seen: seq<int>)
    returns (matched: seq<int>)
    requires NoRepeats(seen)
    ensures NoRepeats(matched)
    ensures forall pid :: pid in matched <==> pid in seen || Hit(pid, procs, [keyword], linux, r, targets)
  {
    NoHits(procs, [keyword], linux, r, targets);
    hide InBucket; hide Hit; hide Matches; hide Attributed;
    matched := seen;
    for i := 0 to |procs|
      invariant NoRepeats(matched)
      invariant forall pid :: pid in matched <==> pid in seen || Hit(pid, procs[..i], [keyword], linux, r, targets)
    {
      var p := procs[i];
      forall pid { HitSnoc(pid, procs, i, [keyword], linux, r, targets); }
      SingleBucket(p, keyword, linux, r, targets);
      if p.pid !in matched && Matches(p, keyword, linux) && Attributed(p, r, targets) {
        matched := matched + [p.pid];
      }
    }
    assert procs[..|procs|] == procs;
  }

  lemma SingleBucket(p: Proc, keyword: Keyword, linux: bool, r: Resolver, targets: seq<string>)
    ensures InBucket(p, [keyword], linux, r, targets) <==> Matches(p, keyword, linux) && Attributed(p, r, targets)
  {
    assert [keyword][0] == keyword;
  }

  lemma NoHits(procs: seq<Proc>, bucket: seq<Keyword>, linux: bool, r: Resolver, targets: seq<string>)
    ensures forall pid :: !Hit(pid, procs[..0], bucket, linux, r, targets)
    ensures forall pid :: !Hit(pid, procs, bucket[..0], linux, r, targets)
  {
  }

  /** Match one bucket against the snapshot, each pid once. */
  method MatchBucket(procs: seq<Proc>, bucket: seq<Keyword>, linux: bool, r: Resolver, targets: seq<string>)
    returns (matched: seq<int>)
    ensures NoRepeats(matched)
    ensures forall pid :: pid in matched <==> Hit(pid, procs, bucket, linux, r, targets)
  {
    NoHits(procs, bucket, linux, r, targets);
    hide Hit;
    matched := [];
    for k := 0 to |bucket|
      invariant NoRepeats(matched)
      invariant forall pid :: pid in matched <==> Hit(pid, procs, bucket[..k], linux, r, targets)
    {
      matched := MatchKeyword(procs, bucket[k], linux, r, targets, matched);
      forall pid { BucketSnoc(pid, procs, bucket, k, linux, r, targets); }
    }
    assert bucket[..|bucket|] == bucket;
  }

  function Survivors(pids: seq<int>, exits: int -> bool): seq<int> {
    if pids == [] then [] else (if exits(pids[0]) then [] else [pids[0]]) + Survivors(pids[1..], exits)
  }

  function Sends(pids: seq<int>, force: bool): (log: seq<Event>)
    ensures |log| == |pids| && forall i | 0 <= i < |pids| ::
            log[i] == if force then Kill(pids[i]) else Terminate(pids[i])
  {
    seq(|pids|, i requires 0 <= i < |pids| => if force then Kill(pids[i]) else Terminate(pids[i]))
  }

  /** Signal a batch, wait for it, then kill and wait for the stragglers. */
  function BatchLog(batch: seq<int>, force: bool, exits: int -> bool): seq<Event> {
    if batch == [] then [] else
      Sends(batch, force) + [Await(batch)] + Sends(Survivors(batch, exits), true) + [Await(Survivors(batch, exits))]
  }

  method SendAll(pids: seq<int>, force: bool, log0: seq<Event>) returns (log: seq<Event>)
    ensures log == log0 + Sends(pids, force)
  {
    log := log0;
    for i := 0 to |pids|
      invariant log == log0 + Sends(pids[..i], force)
    {
      assert Sends(pids[..i + 1], force)
             == Sends(pids[..i], force) + [if force then Kill(pids[i]) else Terminate(pids[i])];
      log := log + [if force then Kill(pids[i]) else Terminate(pids[i])];
    }
    assert pids[..|pids|] == pids;
  }

  /** raylet first, everything else, gcs_server last. */
  function Buckets(keywords: seq<Keyword>): (b: seq<seq<Keyword>>)
    requires |keywords| >= 2
    ensures |b| == 3 && keywords == b[0] + b[1] + b[2] && |b[0]| == |b[2]| == 1
  {
    [[keywords[0]], keywords[1..|keywords| - 1], [keywords[|keywords| - 1]]]
  }

  /** A batch holds, each once, the pids that a bucket hits. */
  ghost predicate BatchOf(batch: seq<int>, procs: seq<Proc>, bucket: seq<Keyword>, linux: bool, r: Resolver,
                          targets: seq<string>) {
    NoRepeats(batch) && forall pid :: pid in batch <==> Hit(pid, procs, bucket, linux, r, targets)
  }

  ghost predicate Batches(batches: seq<seq<int>>, procs: seq<Proc>, buckets: seq<seq<Keyword>>, linux: bool,
                          r: Resolver, targets: seq<string>) {
    |batches| == |buckets| && forall b | 0 <= b < |buckets| :: BatchOf(batches[b], procs, buckets[b], linux, r, targets)
  }

  /** Who exits within the wait of batch b. */
  function Within(exits: (nat, int) -> bool, b: nat): int -> bool {
    pid => exits(b, pid)
  }

  function RunLog(batches: seq<seq<int>>, force: bool, exits: (nat, int) -> bool): seq<Event> {
    if batches == [] then [] else
      var b := |batches| - 1;
      RunLog(batches[..b], force, exits) + BatchLog(batches[b], force, Within(exits, b))
  }

  function Found(batches: seq<seq<int>>): nat {
    if batches == [] then 0 else Found(batches[..|batches| - 1]) + |batches[|batches| - 1]|
  }

  function Stopped(batches: seq<seq<int>>, exits: (nat, int) -> bool): int {
    if batches == [] then 0 else
      var b := |batches| - 1;
      Stopped(batches[..b], exits) + |batches[b]| - |Survivors(batches[b], Within(exits, b))|
  }

  /** Stop the Ray processes attributed to `targets`; `exits(b, pid)` says whether pid exits within
      the wait of batch b. */
  method SelectiveRayStop(procs: seq<Proc>, keywords: seq<Keyword>, linux: bool, r: Resolver, targets: seq<string>,
                          force: bool, exits: (nat, int) -> bool)
    returns (found: nat, stopped: int, log: seq<Event>)
    requires |keywords| >= 2 && keywords[0].text == "raylet" && keywords[|keywords| - 1].text == "gcs_server"
    ensures exists batches :: Batches(batches, procs, Buckets(keywords), linux, r, targets)
                && log == RunLog(batches, force, exits) && found == Found(batches) && stopped == Stopped(batches, exits)
  {
    hide *;
    var buckets := Buckets(keywords);
    found, stopped, log := 0, 0, [];
    ghost var batches: seq<seq<int>> := [];
    RunStart(procs, buckets, linux, r, targets, force, exits);
    for b := 0 to |buckets|
      invariant RunState(procs, buckets, b, linux, r, targets, force, exits, batches, found, stopped, log)
    {
      var matched := MatchBucket(procs, buckets[b], linux, r, targets);
      var inTime := Within(exits, b);
      RunNext(procs, buckets, b, linux, r, targets, force, exits, batches, found, stopped, log, matched);
      batches := batches + [matched];
      if matched == [] {
        EmptyBatch(force, inTime);
        assert log + [] == log;
        continue;
      }
      found := found + |matched|;
      BatchLogOf(matched, force, inTime, log);
      log := SendAll(matched, force, log);
      log := log + [Await(matched)];
      var alive := Survivors(matched, inTime);
      stopped := stopped + |matched| - |alive|;
      log := SendAll(alive, true, log);
      log := log + [Await(alive)];
    }
    RunEnd(procs, keywords, linux, r, targets, force, exits, batches, found, stopped, log);
  }

  /** What the stop has done after b buckets, with their batches. */
  ghost predicate RunState(procs: seq<Proc>, buckets: seq<seq<Keyword>>, b: nat, linux: bool, r: Resolver,
                           targets: seq<string>,
                           force: bool, exits: (nat, int) -> bool,
                           batches: seq<seq<int>>, found: nat, stopped: int, log: seq<Event>) {
    && b <= |buckets| && Batches(batches, procs, buckets[..b], linux, r, targets)
    && log == RunLog(batches, force, exits) && found == Found(batches) && stopped == Stopped(batches, exits)
  }

  lemma RunStart(procs: seq<Proc>, buckets: seq<seq<Keyword>>, linux: bool, r: Resolver, targets: seq<string>,
                 force: bool, exits: (nat, int) -> bool)
    ensures RunState(procs, buckets, 0, linux, r, targets, force, exits, [], 0, 0, [])
  {
  }

  lemma RunNext(procs: seq<Proc>, buckets: seq<seq<Keyword>>, b: nat, linux: bool, r: Resolver, targets: seq<string>,
                force: bool, exits: (nat, int) -> bool,
                batches: seq<seq<int>>, found: nat, stopped: int, log: seq<Event>, matched: seq<int>)
    requires RunState(procs, buckets, b, linux, r, targets, force, exits, batches, found, stopped, log) && b < |buckets|
    requires NoRepeats(matched) && forall pid :: pid in matched <==> Hit(pid, procs, buckets[b], linux, r, targets)
    ensures RunState(procs, buckets, b + 1, linux, r, targets, force, exits, batches + [matched], found + |matched|,
                     stopped + |matched| - |Survivors(matched, Within(exits, b))|,
                     log + BatchLog(matched, force, Within(exits, b)))
  {
    hide *;
    RunParts(procs, buckets, b, linux, r, targets, force, exits, batches, found, stopped, log);
    BatchesSnoc(batches, procs, buckets, b, linux, r, targets, matched);
    LogSnoc(batches, matched, force, exits);
    MakeRun(procs, buckets, b + 1, linux, r, targets, force, exits, batches + [matched]);
  }

  lemma RunParts(procs: seq<Proc>, buckets: seq<seq<Keyword>>, b: nat, linux: bool, r: Resolver, targets: seq<string>,
                 force: bool, exits: (nat, int) -> bool,
                 batches: seq<seq<int>>, found: nat, stopped: int, log: seq<Event>)
    requires RunState(procs, buckets, b, linux, r, targets, force, exits, batches, found, stopped, log)
    ensures b <= |buckets| && |batches| == b && Batches(batches, procs, buckets[..b], linux, r, targets)
    ensures log == RunLog(batches, force, exits) && found == Found(batches) && stopped == Stopped(batches, exits)
  {
    hide BatchOf; hide RunLog; hide Found; hide Stopped;
  }

  lemma BatchesSnoc(batches: seq<seq<int>>, procs: seq<Proc>, buckets: seq<seq<Keyword>>, b: nat, linux: bool,
                    r: Resolver, targets: seq<string>, matched: seq<int>)
    requires b < |buckets| && Batches(batches, procs, buckets[..b], linux, r, targets)
    requires NoRepeats(matched) && forall pid :: pid in matched <==> Hit(pid, procs, buckets[b], linux, r, targets)
    ensures Batches(batches + [matched], procs, buckets[..b + 1], linux, r, targets)
  {
    assert BatchOf(matched, procs, buckets[b], linux, r, targets) by { hide Hit; hide NoRepeats; }
    hide BatchOf; hide Hit; hide NoRepeats;
    var all, bs := batches + [matched], buckets[..b + 1];
    forall k | 0 <= k < b + 1 ensures BatchOf(all[k], procs, bs[k], linux, r, targets) {
      if k < b { assert all[k] == batches[k] && bs[k] == buckets[..b][k]; }
    }
  }

  lemma LogSnoc(batches: seq<seq<int>>, matched: seq<int>, force: bool, exits: (nat, int) -> bool)
    ensures var all, inTime := batches + [matched], Within(exits, |batches|);
            && RunLog(all, force, exits) == RunLog(batches, force, exits) + BatchLog(matched, force, inTime)
            && Found(all) == Found(batches) + |matched|
            && Stopped(all, exits) == Stopped(batches, exits) + |matched| - |Survivors(matched, inTime)|
  {
    hide BatchLog; hide Survivors; hide Within;
    assert (batches + [matched])[..|batches|] == batches;
  }

  lemma MakeRun(procs: seq<Proc>, buckets: seq<seq<Keyword>>, b: nat, linux: bool, r: Resolver, targets: seq<string>,
                force: bool, exits: (nat, int) -> bool, batches: seq<seq<int>>)
    requires b <= |buckets| && Batches(batches, procs, buckets[..b], linux, r, targets)
    ensures RunState(procs, buckets, b, linux, r, targets, force, exits, batches,
                     Found(batches), Stopped(batches, exits), RunLog(batches, force, exits))
  {
    hide Batches; hide RunLog; hide Found; hide Stopped;
  }

  lemma RunEnd(procs: seq<Proc>, keywords: seq<Keyword>, linux: bool, r: Resolver, targets: seq<string>,
               force: bool, exits: (nat, int) -> bool,
               batches: seq<seq<int>>, found: nat, stopped: int, log: seq<Event>)
    requires |keywords| >= 2
    requires RunState(procs, Buckets(keywords), 3, linux, r, targets, force, exits, batches, found, stopped, log)
    ensures Batches(batches, procs, Buckets(keywords), linux, r, targets)
    ensures log == RunLog(batches, force, exits) && found == Found(batches) && stopped == Stopped(batches, exits)
  {
    var b := Buckets(keywords);
    assert b[..3] == b;
    hide Batches; hide RunLog; hide Found; hide Stopped;
  }

  lemma EmptyBatch(force: bool, exits: int -> bool)
    ensures BatchLog([], force, exits) == [] && Survivors([], exits) == []
  {
  }

  lemma BatchLogOf(batch: seq<int>, force: bool, exits: int -> bool, log: seq<Event>)
    requires batch != []
    ensures log + BatchLog(batch, force, exits)
            == log + Sends(batch, force) + [Await(batch)] + Sends(Survivors(batch, exits), true)
              + [Await(Survivors(batch, exits))]
  {
    hide Sends; hide Survivors;
  }

  // ---------------------------------------------------------------- who is signalled, and when

  lemma {:induction false} SurvivorsAre(pids: seq<int>, exits: int -> bool)
    ensures forall pid :: pid in Survivors(pids, exits) <==> pid in pids && !exits(pid)
    ensures |Survivors(pids, exits)| <= |pids|
  {
    if pids != [] {
      SurvivorsAre(pids[1..], exits);
      assert pids == [pids[0]] + pids[1..];
    }
  }

  lemma SendsAre(pids: seq<int>, force: bool, e: Event)
    ensures e in Sends(pids, force) <==> (if force then e.Kill? else e.Terminate?) && e.pid in pids
  {
    if (if force then e.Kill? else e.Terminate?) && e.pid in pids {
      var i :| 0 <= i < |pids| && pids[i] == e.pid;
      assert Sends(pids, force)[i] == e;
    }
  }

  /** A batch terminates its members and kills the ones that outlive the wait (all of them, with force). */
  lemma BatchSignals(batch: seq<int>, force: bool, exits: int -> bool, pid: int)
    ensures Terminate(pid) in BatchLog(batch, force, exits) <==> !force && pid in batch
    ensures Kill(pid) in BatchLog(batch, force, exits) <==> pid in batch && (force || !exits(pid))
  {
    SurvivorsAre(batch, exits);
    SendsAre(batch, force, Terminate(pid));
    SendsAre(batch, force, Kill(pid));
    SendsAre(Survivors(batch, exits), true, Terminate(pid));
    SendsAre(Survivors(batch, exits), true, Kill(pid));
  }

  ghost predicate SentTerm(batches: seq<seq<int>>, force: bool, pid: int) {
    !force && exists b | 0 <= b < |batches| :: pid in batches[b]
  }

  ghost predicate SentKill(batches: seq<seq<int>>, force: bool, exits: (nat, int) -> bool, pid: int) {
    exists b | 0 <= b < |batches| :: pid in batches[b] && (force || !exits(b, pid))
  }

  lemma SentSnoc(batches: seq<seq<int>>, force: bool, exits: (nat, int) -> bool, pid: int)
    requires batches != []
    ensures var b := |batches| - 1;
            && (SentTerm(batches, force, pid) <==> SentTerm(batches[..b], force, pid) || (!force && pid in batches[b]))
            && (SentKill(batches, force, exits, pid) <==>
                SentKill(batches[..b], force, exits, pid) || (pid in batches[b] && (force || !exits(b, pid))))
  {
    assert forall c | 0 <= c < |batches| - 1 :: batches[..|batches| - 1][c] == batches[c];
  }

  lemma {:induction false} RunSignals(batches: seq<seq<int>>, force: bool, exits: (nat, int) -> bool, pid: int)
    ensures Terminate(pid) in RunLog(batches, force, exits) <==> SentTerm(batches, force, pid)
    ensures Kill(pid) in RunLog(batches, force, exits) <==> SentKill(batches, force, exits, pid)
  {
    if batches != [] {
      var b := |batches| - 1;
      var log := BatchLog(batches[b], force, Within(exits, b));
      assert RunLog(batches, force, exits) == RunLog(batches[..b], force, exits) + log;
      RunSignals(batches[..b], force, exits, pid);
      BatchSignals(batches[b], force, Within(exits, b), pid);
      SentSnoc(batches, force, exits, pid);
      hide *;
    }
  }

  lemma AnyAppend(p: Proc, k1: seq<Keyword>, k2: seq<Keyword>, linux: bool)
    ensures MatchesAny(p, k1 + k2, linux) <==> MatchesAny(p, k1, linux) || MatchesAny(p, k2, linux)
  {
    hide Matches;
    var k := k1 + k2;
    assert forall i | 0 <= i < |k1| :: k[i] == k1[i];
    assert forall i | |k1| <= i < |k| :: k[i] == k2[i - |k1|];
    if MatchesAny(p, k2, linux) {
      var i :| 0 <= i < |k2| && Matches(p, k2[i], linux);
      assert Matches(p, k[|k1| + i], linux);
    }
  }

  lemma HitAppend(pid: int, procs: seq<Proc>, k1: seq<Keyword>, k2: seq<Keyword>, linux: bool, r: Resolver,
                  targets: seq<string>)
    ensures Hit(pid, procs, k1 + k2, linux, r, targets)
            <==> Hit(pid, procs, k1, linux, r, targets) || Hit(pid, procs, k2, linux, r, targets)
  {
    hide Matches; hide Attributed;
    forall p: Proc { AnyAppend(p, k1, k2, linux); }
    hide MatchesAny;
  }

  lemma HitBuckets(pid: int, procs: seq<Proc>, keywords: seq<Keyword>, linux: bool, r: Resolver, targets: seq<string>)
    requires |keywords| >= 2
    ensures var b := Buckets(keywords);
            Hit(pid, procs, keywords, linux, r, targets)
            <==> Hit(pid, procs, b[0], linux, r, targets) || Hit(pid, procs, b[1], linux, r, targets)
                 || Hit(pid, procs, b[2], linux, r, targets)
  {
    var b := Buckets(keywords);
    HitAppend(pid, procs, b[0] + b[1], b[2], linux, r, targets);
    HitAppend(pid, procs, b[0], b[1], linux, r, targets);
  }

  /** A pid is signalled exactly when it belongs to a Ray process attributed to a target; it is sent
      SIGKILL exactly when forced or when it outlives the wait of a batch that holds it. */
  lemma SignalledExactly(procs: seq<Proc>, keywords: seq<Keyword>, linux: bool, r: Resolver, targets: seq<string>,
                         force: bool, exits: (nat, int) -> bool, batches: seq<seq<int>>, pid: int)
    requires |keywords| >= 2 && Batches(batches, procs, Buckets(keywords), linux, r, targets)
    ensures var log := RunLog(batches, force, exits);
            && (Terminate(pid) in log || Kill(pid) in log <==> Hit(pid, procs, keywords, linux, r, targets))
            && (Kill(pid) in log <==> exists b | 0 <= b < 3 ::
                  Hit(pid, procs, Buckets(keywords)[b], linux, r, targets) && (force || !exits(b, pid)))
  {
    hide Hit; hide RunLog;
    RunSignals(batches, force, exits, pid);
    HitBuckets(pid, procs, keywords, linux, r, targets);
    assert forall b | 0 <= b < 3 :: pid in batches[b] <==> Hit(pid, procs, Buckets(keywords)[b], linux, r, targets);
  }

  /** Something is found exactly when something is signalled. */
  lemma FoundIffSignalled(procs: seq<Proc>, keywords: seq<Keyword>, linux: bool, r: Resolver, targets: seq<string>,
                          batches: seq<seq<int>>)
    requires |keywords| >= 2 && Batches(batches, procs, Buckets(keywords), linux, r, targets)
    ensures Found(batches) > 0 <==> exists pid :: Hit(pid, procs, keywords, linux, r, targets)
  {
    hide Hit;
    FoundThree(batches);
    hide Found;
    forall pid ensures Hit(pid, procs, keywords, linux, r, targets)
      <==> pid in batches[0] || pid in batches[1] || pid in batches[2] {
      HitBuckets(pid, procs, keywords, linux, r, targets);
      var b := Buckets(keywords);
      assert pid in batches[0] <==> Hit(pid, procs, b[0], linux, r, targets);
      assert pid in batches[1] <==> Hit(pid, procs, b[1], linux, r, targets);
      assert pid in batches[2] <==> Hit(pid, procs, b[2], linux, r, targets);
    }
    hide Batches;
    NonEmptyIff(batches[0]);
    NonEmptyIff(batches[1]);
    NonEmptyIff(batches[2]);
  }

  lemma NonEmptyIff(s: seq<int>)
    ensures |s| > 0 <==> exists x :: x in s
  {
    if |s| > 0 {
      var x := s[0];
      assert x in s;
    }
  }

  lemma PrefixMember(a: seq<Event>, b: seq<Event>, k: nat)
    requires k < |a + b|
    ensures k < |a| ==> (a + b)[k] in a
  {
  }

  lemma FoundThree(batches: seq<seq<int>>)
    requires |batches| == 3
    ensures Found(batches) == |batches[0]| + |batches[1]| + |batches[2]|
  {
    var two, one := batches[..2], batches[..2][..1];
    assert one[..0] == [] && one[0] == batches[0] && two[1] == batches[1] && two[..1] == one;
    assert Found(one[..0]) == 0;
    assert Found(one) == Found(one[..0]) + |one[0]|;
    assert Found(two) == Found(one) + |two[1]|;
  }

  lemma RunLogThree(batches: seq<seq<int>>, force: bool, exits: (nat, int) -> bool)
    requires |batches| == 3
    ensures RunLog(batches, force, exits)
         == BatchLog(batches[0], force, Within(exits, 0)) + BatchLog(batches[1], force, Within(exits, 1))
           + BatchLog(batches[2], force, Within(exits, 2))
  {
    hide BatchLog;
    var two, one := batches[..2], batches[..2][..1];
    assert one[..0] == [] && one[0] == batches[0] && two[1] == batches[1] && two[..1] == one;
    assert RunLog(one[..0], force, exits) == [];
    assert RunLog(one, force, exits) == [] + BatchLog(batches[0], force, Within(exits, 0));
    assert RunLog(two, force, exits) == RunLog(one, force, exits) + BatchLog(batches[1], force, Within(exits, 1));
  }

  lemma BatchWaits(batch: seq<int>, force: bool, exits: int -> bool, pid: int) returns (i: nat, j: nat)
    requires pid in batch
    ensures i < j < |BatchLog(batch, force, exits)|
    ensures Signals(BatchLog(batch, force, exits)[i], pid) && BatchLog(batch, force, exits)[j] == Await(batch)
  {
    hide BatchLog; hide Survivors; hide Sends;
    var k :| 0 <= k < |batch| && batch[k] == pid;
    i, j := k, |batch|;
    var rest := Sends(Survivors(batch, exits), true) + [Await(Survivors(batch, exits))];
    BatchParts(batch, force, exits);
    SplitAt(Sends(batch, force), Await(batch), rest, k);
  }

  lemma BatchParts(batch: seq<int>, force: bool, exits: int -> bool)
    requires batch != []
    ensures BatchLog(batch, force, exits)
            == Sends(batch, force)
              + ([Await(batch)] + (Sends(Survivors(batch, exits), true) + [Await(Survivors(batch, exits))]))
  {
    hide Survivors; hide Sends;
  }

  lemma SplitAt(a: seq<Event>, e: Event, b: seq<Event>, k: nat)
    requires k < |a|
    ensures var s := a + ([e] + b); |a| < |s| && s[k] == a[k] && s[|a|] == e
  {
  }

  /** Every signal to a process matched only as gcs_server comes after each matched raylet has been
      signalled and waited for. */
  lemma RayletsFirst(procs: seq<Proc>, keywords: seq<Keyword>, linux: bool, r: Resolver, targets: seq<string>,
                     force: bool, exits: (nat, int) -> bool, batches: seq<seq<int>>, raylet: int, gcs: int, k: nat)
    requires |keywords| >= 2 && Batches(batches, procs, Buckets(keywords), linux, r, targets)
    requires Hit(raylet, procs, [keywords[0]], linux, r, targets)
    requires !Hit(gcs, procs, keywords[..|keywords| - 1], linux, r, targets)
    requires k < |RunLog(batches, force, exits)| && Signals(RunLog(batches, force, exits)[k], gcs)
    ensures exists i, j | 0 <= i < j < k :: Signals(RunLog(batches, force, exits)[i], raylet)
              && RunLog(batches, force, exits)[j].Await? && raylet in RunLog(batches, force, exits)[j].pids
  {
    hide Hit; hide RunLog; hide BatchLog; hide Survivors; hide Sends; hide Within;
    var log, b := RunLog(batches, force, exits), Buckets(keywords);
    RunLogThree(batches, force, exits);
    var l0, l1 := BatchLog(batches[0], force, Within(exits, 0)), BatchLog(batches[1], force, Within(exits, 1));
    assert keywords[..|keywords| - 1] == b[0] + b[1];
    HitAppend(gcs, procs, b[0], b[1], linux, r, targets);
    BatchSignals(batches[0], force, Within(exits, 0), gcs);
    BatchSignals(batches[1], force, Within(exits, 1), gcs);
    assert gcs !in batches[0] && gcs !in batches[1];
    var rest := l1 + BatchLog(batches[2], force, Within(exits, 2));
    assert log == l0 + rest;
    PrefixMember(l0, rest, k);
    var i, j := BatchWaits(batches[0], force, Within(exits, 0), raylet);
    assert log[i] == l0[i] && log[j] == l0[j];
  }

  // ---------------------------------------------------------------- counting the others

  /** The first Ray entry of its pid, attributed to some cluster but to none of the targets. */
  predicate ForeignAt(procs: seq<Proc>, i: nat, keywords: seq<Keyword>, linux: bool, r: Resolver, targets: seq<string>)
    requires i < |procs|
  {
    && MatchesAny(procs[i], keywords, linux)
    && (forall j | 0 <= j < i && procs[j].pid == procs[i].pid :: !MatchesAny(procs[j], keywords, linux))
    && ExtractAddress(procs[i].cmdline).Some? && !AnySame(r, ExtractAddress(procs[i].cmdline).value, targets)
  }

  ghost function RayPids(procs: seq<Proc>, n: nat, keywords: seq<Keyword>, linux: bool): set<int>
    requires n <= |procs|
  {
    set j | 0 <= j < n && MatchesAny(procs[j], keywords, linux) :: procs[j].pid
  }

  ghost function ForeignBefore(procs: seq<Proc>, n: nat, keywords: seq<Keyword>, linux: bool, r: Resolver,
                               targets: seq<string>): set<int>
    requires n <= |procs|
  {
    set j | 0 <= j < n && ForeignAt(procs, j, keywords, linux, r, targets)
  }

  lemma RayPidsSnoc(procs: seq<Proc>, n: nat, keywords: seq<Keyword>, linux: bool)
    requires n < |procs|
    ensures RayPids(procs, n + 1, keywords, linux)
         == RayPids(procs, n, keywords, linux) + (if MatchesAny(procs[n], keywords, linux) then {procs[n].pid} else {})
    ensures procs[n].pid in RayPids(procs, n, keywords, linux)
            <==> exists j | 0 <= j < n :: procs[j].pid == procs[n].pid && MatchesAny(procs[j], keywords, linux)
  {
    hide MatchesAny;
  }

  lemma ForeignSnoc(procs: seq<Proc>, n: nat, keywords: seq<Keyword>, linux: bool, r: Resolver, targets: seq<string>)
    requires n < |procs|
    ensures |ForeignBefore(procs, n + 1, keywords, linux, r, targets)|
         == |ForeignBefore(procs, n, keywords, linux, r, targets)|
           + (if ForeignAt(procs, n, keywords, linux, r, targets) then 1 else 0)
  {
    hide ForeignAt;
    assert ForeignBefore(procs, n + 1, keywords, linux, r, targets)
        == ForeignBefore(procs, n, keywords, linux, r, targets)
          + (if ForeignAt(procs, n, keywords, linux, r, targets) then {n} else {});
  }

  method CountForeignRayProcesses(procs: seq<Proc>, keywords: seq<Keyword>, linux: bool, r: Resolver,
                                  targets: seq<string>)
    returns (foreign: nat)
    ensures foreign == |set i | 0 <= i < |procs| && ForeignAt(procs, i, keywords, linux, r, targets)|
  {
    hide MatchesAny; hide ExtractAddress; hide AnySame; hide RayPids;
    var counted: set<int> := {};
    foreign := 0;
    assert RayPids(procs, 0, keywords, linux) == {} by { NoRayPids(procs, keywords, linux); }
    for i := 0 to |procs|
      invariant counted == RayPids(procs, i, keywords, linux)
      invariant foreign == |ForeignBefore(procs, i, keywords, linux, r, targets)|
    {
      var p := procs[i];
      RayPidsSnoc(procs, i, keywords, linux);
      ForeignSnoc(procs, i, keywords, linux, r, targets);
      hide ForeignBefore;
      if MatchesAny(p, keywords, linux) && p.pid !in counted {
        counted := counted + {p.pid};
        var address := ExtractAddress(p.cmdline);
        if address.Some? && !AnySame(r, address.value, targets) {
          foreign := foreign + 1;
        }
      }
    }
  }

  lemma NoRayPids(procs: seq<Proc>, keywords: seq<Keyword>, linux: bool)
    ensures RayPids(procs, 0, keywords, linux) == {}
  {
  }

  /** On one snapshot with distinct pids, nothing counted as another cluster's is ever signalled. */
  lemma ForeignNeverSignalled(procs: seq<Proc>, keywords: seq<Keyword>, linux: bool, r: Resolver, targets: seq<string>,
                              force: bool, exits: (nat, int) -> bool, batches: seq<seq<int>>, i: nat)
    requires |keywords| >= 2 && Batches(batches, procs, Buckets(keywords), linux, r, targets)
    requires forall a, b | 0 <= a < b < |procs| :: procs[a].pid != procs[b].pid
    requires i < |procs| && ForeignAt(procs, i, keywords, linux, r, targets)
    ensures Terminate(procs[i].pid) !in RunLog(batches, force, exits)
            && Kill(procs[i].pid) !in RunLog(batches, force, exits)
  {
    hide RunLog; hide MatchesAny; hide ExtractAddress; hide AnySame;
    SignalledExactly(procs, keywords, linux, r, targets, force, exits, batches, procs[i].pid);
  }
}
