/** Terminating processes: SIGTERM first, SIGKILL for what is still alive at the deadline. */
module ProcessKill {

  import opened ProcTable

  /** What /proc shows at successive polls, and the clock read after each. */
  datatype World = World(proc: nat -> seq<Entry>, clock: nat -> int)

  /** Between polls the helper sleeps, so the clock advances by at least the interval (in ticks). */
  ghost predicate Ticking(w: World, start: int, interval: int) {
    && interval > 0 && start <= w.clock(0)
    && forall k: nat, m: nat | m == k + 1 :: w.clock(k) + interval <= w.clock(m)
  }

  predicate Alive(w: World, k: nat, x: Target) {
    Running(w.proc(k), x)
  }

  // ---------------------------------------------------------------- waiting

  /** The targets alive at every poll up to and including the k-th. */
  function Lasting(w: World, targets: seq<Target>, k: nat): seq<Target> {
    FilterAlive(w, k, if k == 0 then targets else Lasting(w, targets, k - 1))
  }

  function FilterAlive(w: World, k: nat, targets: seq<Target>): seq<Target> {
    if targets == [] then []
    else
      var n := |targets| - 1;
      FilterAlive(w, k, targets[..n]) + (if Alive(w, k, targets[n]) then [targets[n]] else [])
  }

  /** Waiting ends at poll k: nobody lasts, or the deadline has passed. */
  predicate Ends(w: World, targets: seq<Target>, deadline: int, k: nat) {
    Lasting(w, targets, k) == [] || w.clock(k) >= deadline
  }

  /** Poll `last` is the first at which waiting ends. */
  ghost predicate Waited(w: World, targets: seq<Target>, deadline: int, last: nat) {
    Ends(w, targets, deadline, last) && forall k | 0 <= k < last :: !Ends(w, targets, deadline, k)
  }

  method PollAlive(w: World, k: nat, targets: seq<Target>) returns (alive: seq<Target>)
    ensures alive == FilterAlive(w, k, targets)
  {
    alive := [];
    for i := 0 to |targets|
      invariant alive == FilterAlive(w, k, targets[..i])
    {
      assert targets[..i + 1][..i] == targets[..i];
      var running := IsRunning(w.proc(k), targets[i]);
      if running { alive := alive + [targets[i]]; }
    }
    assert targets[..|targets|] == targets;
  }

  /** Who is still alive when waiting for `targets` is over. */
  ghost predicate LeftAfterWait(w: World, targets: seq<Target>, deadline: int, alive: seq<Target>) {
    if targets == [] then alive == []
    else exists last: nat :: Waited(w, targets, deadline, last) && alive == Lasting(w, targets, last)
  }

  /** Polls until every target is dead or the deadline is reached. */
  method WaitForDeath(w: World, targets: seq<Target>, start: int, grace: int, ghost interval: int)
    returns (alive: seq<Target>)
    requires Ticking(w, start, interval)
    ensures LeftAfterWait(w, targets, start + grace, alive)
  {
    hide *;
    var deadline := start + grace;
    alive := targets;
    var k := 0;
    WaitStart(w, targets, deadline);
    while |alive| > 0
      invariant Waiting(w, targets, deadline, k, alive)
      decreases deadline - w.clock(k)
    {
      WaitStep(w, targets, deadline, k, alive);
      ClockStep(w, start, interval, k);
      alive := PollAlive(w, k, alive);
      if |alive| == 0 || w.clock(k) >= deadline { return; }
      k := k + 1;
    }
    WaitNone(w, targets, deadline, k);
  }

  /** Before poll k: waiting has not ended yet, and `alive` lasted so far. */
  ghost predicate Waiting(w: World, targets: seq<Target>, deadline: int, k: nat, alive: seq<Target>) {
    && (if k == 0 then alive == targets else alive == Lasting(w, targets, k - 1) && alive != [])
    && forall j | 0 <= j < k :: !Ends(w, targets, deadline, j)
  }

  lemma WaitStart(w: World, targets: seq<Target>, deadline: int)
    ensures Waiting(w, targets, deadline, 0, targets)
  {
  }

  lemma WaitStep(w: World, targets: seq<Target>, deadline: int, k: nat, alive: seq<Target>)
    requires Waiting(w, targets, deadline, k, alive) && alive != []
    ensures var left := FilterAlive(w, k, alive);
            if left == [] || w.clock(k) >= deadline then LeftAfterWait(w, targets, deadline, left)
            else Waiting(w, targets, deadline, k + 1, left)
  {
    assert Lasting(w, targets, k) == FilterAlive(w, k, alive);
    hide Lasting; hide FilterAlive;
    if k > 0 { assert !Ends(w, targets, deadline, k - 1); }
    assert Ends(w, targets, deadline, k) ==> Waited(w, targets, deadline, k);
    if targets == [] { NoTargets(w, k); }
  }

  lemma {:induction false} NoTargets(w: World, k: nat)
    ensures Lasting(w, [], k) == []
  {
    if k > 0 { NoTargets(w, k - 1); }
  }

  lemma WaitNone(w: World, targets: seq<Target>, deadline: int, k: nat)
    requires Waiting(w, targets, deadline, k, [])
    ensures LeftAfterWait(w, targets, deadline, [])
  {
  }

  lemma ClockStep(w: World, start: int, interval: int, k: nat)
    requires Ticking(w, start, interval)
    ensures w.clock(k) < w.clock(k + 1)
  {
  }

  lemma {:induction false} FilterIs(w: World, k: nat, targets: seq<Target>, x: Target)
    ensures x in FilterAlive(w, k, targets) <==> x in targets && Alive(w, k, x)
  {
    hide Alive;
    if targets != [] {
      var n := |targets| - 1;
      FilterIs(w, k, targets[..n], x);
      assert targets == targets[..n] + [targets[n]];
    }
  }

  /** Who is left: exactly the targets seen alive at every poll. */
  lemma {:induction false} LastingIs(w: World, targets: seq<Target>, k: nat, x: Target)
    ensures x in Lasting(w, targets, k) <==> x in targets && forall j | 0 <= j <= k :: Alive(w, j, x)
  {
    hide Alive;
    if k == 0 {
      FilterIs(w, 0, targets, x);
    } else {
      FilterIs(w, k, Lasting(w, targets, k - 1), x);
      LastingIs(w, targets, k - 1, x);
    }
  }

  /** The k-th poll is at least k intervals after the start. */
  lemma {:induction false} ClockAt(w: World, start: int, interval: int, k: nat)
    requires Ticking(w, start, interval)
    ensures w.clock(k) >= start + k * interval
  {
    if k > 0 {
      ClockAt(w, start, interval, k - 1);
      assert w.clock(k - 1) + interval <= w.clock(k);
      assert k * interval == (k - 1) * interval + interval;
    }
  }

  /** Death is permanent: who is dead at one poll is dead at every later one. */
  ghost predicate Permanent(w: World) {
    forall x, i: nat, j: nat | i <= j :: Alive(w, j, x) ==> Alive(w, i, x)
  }

  /** If death is permanent, waiting stops after at most grace / interval + 1 polls; the survivors are exactly
      the targets alive at the last poll, and if there are any the deadline has passed. */
  lemma WaitIsExact(w: World, targets: seq<Target>, start: int, grace: nat, interval: int, last: nat, x: Target)
    requires Ticking(w, start, interval) && Permanent(w)
    requires Waited(w, targets, start + grace, last)
    ensures last <= (grace + interval - 1) / interval
    ensures x in Lasting(w, targets, last) <==> x in targets && Alive(w, last, x)
    ensures Lasting(w, targets, last) != [] ==> w.clock(last) >= start + grace
  {
    hide Alive; hide Lasting;
    LastingIs(w, targets, last, x);
    if last > 0 {
      ClockAt(w, start, interval, last - 1);
      assert !Ends(w, targets, start + grace, last - 1);
      PollBound(last - 1, interval, grace);
    }
  }

  lemma PollBound(k: nat, interval: int, grace: nat)
    requires interval > 0 && k * interval < grace
    ensures k + 1 <= (grace + interval - 1) / interval
  {
    var q := (grace + interval - 1) / interval;
    assert q * interval >= grace;
    ProductOrder(q, k, interval);
  }

  lemma ProductOrder(a: int, b: int, c: int)
    requires c > 0
    ensures a <= b ==> a * c <= b * c
  {
  }

  // ---------------------------------------------------------------- signals

  datatype Signal = Term(target: Target) | Kill(target: Target)

  /** Those SIGTERM could be sent to; the others are gone already. */
  function Reached(pids: seq<Target>, found: Target -> bool): seq<Target> {
    if pids == [] then []
    else Reached(pids[..|pids| - 1], found) + (if found(pids[|pids| - 1]) then [pids[|pids| - 1]] else [])
  }

  function Terms(pids: seq<Target>): (log: seq<Signal>)
    ensures |log| == |pids| && forall i | 0 <= i < |log| :: log[i] == Term(pids[i])
  {
    seq(|pids|, i requires 0 <= i < |pids| => Term(pids[i]))
  }

  function Kills(pids: seq<Target>): (log: seq<Signal>)
    ensures |log| == |pids| && forall i | 0 <= i < |log| :: log[i] == Kill(pids[i])
  {
    seq(|pids|, i requires 0 <= i < |pids| => Kill(pids[i]))
  }

  /** SIGTERM to everybody, then SIGKILL to whoever of those it reached is left after the wait. */
  ghost predicate KillLog(w: World, pids: seq<Target>, found: Target -> bool, deadline: int, log: seq<Signal>) {
    exists left :: LeftAfterWait(w, Reached(pids, found), deadline, left) && log == Terms(pids) + Kills(left)
  }

  /** `found` tells whether the process still exists when SIGTERM is sent. */
  method KillLocalPids(w: World, pids: seq<Target>, found: Target -> bool, start: int, grace: int, ghost interval: int)
    returns (log: seq<Signal>)
    requires Ticking(w, start, interval)
    ensures KillLog(w, pids, found, start + grace, log)
  {
    var sent: seq<Target> := [];
    log := [];
    hide LeftAfterWait;
    for i := 0 to |pids|
      invariant sent == Reached(pids[..i], found) && log == Terms(pids[..i])
    {
      assert pids[..i + 1][..i] == pids[..i];
      log := log + [Term(pids[i])];
      if !found(pids[i]) { continue; }
      sent := sent + [pids[i]];
    }
    assert pids[..|pids|] == pids;
    var alive := WaitForDeath(w, sent, start, grace, interval);
    ghost var terms := log;
    for i := 0 to |alive|
      invariant log == terms + Kills(alive[..i])
    {
      log := log + [Kill(alive[i])];
    }
    assert alive[..|alive|] == alive;
  }

  /** The remote variant kills a single process and stops at once if it is gone. */
  method KillPid(w: World, pid: Target, found: Target -> bool, start: int, grace: int, ghost interval: int)
    returns (log: seq<Signal>)
    requires Ticking(w, start, interval)
    ensures KillLog(w, [pid], found, start + grace, log)
  {
    log := [Term(pid)];
    assert [pid][..0] == [] && Terms([pid]) == [Term(pid)] && Kills([pid]) == [Kill(pid)] && Kills([]) == [];
    assert Reached([pid], found) == if found(pid) then [pid] else [];
    assert log == Terms([pid]) + Kills([]);
    if !found(pid) {
      assert LeftAfterWait(w, Reached([pid], found), start + grace, []);
      return;
    }
    var alive := WaitForDeath(w, [pid], start, grace, interval);
    LeftSingle(w, pid, start + grace, alive);
    hide LeftAfterWait; hide Reached;
    if |alive| > 0 { log := log + [Kill(pid)]; }
    assert log == Terms([pid]) + Kills(alive);
  }

  lemma LeftSingle(w: World, pid: Target, deadline: int, alive: seq<Target>)
    requires LeftAfterWait(w, [pid], deadline, alive)
    ensures alive == [] || alive == [pid]
  {
    var last: nat :| Waited(w, [pid], deadline, last) && alive == Lasting(w, [pid], last);
    LastingSingle(w, pid, last);
  }

  lemma {:induction false} LastingSingle(w: World, pid: Target, k: nat)
    ensures Lasting(w, [pid], k) == [] || Lasting(w, [pid], k) == [pid]
  {
    FilterSingle(w, k, pid);
    if k > 0 { LastingSingle(w, pid, k - 1); }
  }

  lemma FilterSingle(w: World, k: nat, pid: Target)
    ensures FilterAlive(w, k, [pid]) == (if Alive(w, k, pid) then [pid] else []) && FilterAlive(w, k, []) == []
  {
    hide Alive;
    assert [pid][..0] == []
           && FilterAlive(w, k, [pid]) == FilterAlive(w, k, []) + (if Alive(w, k, pid) then [pid] else []);
  }

  lemma {:induction false} ReachedIs(pids: seq<Target>, found: Target -> bool, x: Target)
    ensures x in Reached(pids, found) <==> x in pids && found(x)
  {
    if pids != [] {
      var n := |pids| - 1;
      ReachedIs(pids[..n], found, x);
      assert pids == pids[..n] + [pids[n]];
    }
  }

  /** Escalation: every target is sent SIGTERM, and SIGKILL goes to exactly those it reached that were seen alive at
      every poll up to the last one, which comes at the deadline if anybody is left; with permanent death, to
      exactly those still alive at that poll. */
  lemma KilledExactly(w: World, pids: seq<Target>, found: Target -> bool, deadline: int, log: seq<Signal>, last: nat,
                      x: Target)
    requires KillLog(w, pids, found, deadline, log)
    requires Waited(w, Reached(pids, found), deadline, last)
    ensures Term(x) in log <==> x in pids
    ensures Kill(x) in log <==> x in pids && found(x) && forall k | 0 <= k <= last :: Alive(w, k, x)
    ensures Kill(x) in log ==> w.clock(last) >= deadline
    ensures Permanent(w) ==> (Kill(x) in log <==> x in pids && found(x) && Alive(w, last, x))
  {
    var sent := Reached(pids, found);
    var left :| LeftAfterWait(w, sent, deadline, left) && log == Terms(pids) + Kills(left);
    ReachedIs(pids, found, x);
    LastingIs(w, sent, last, x);
    LeftIs(w, sent, deadline, left, last, x);
    hide Alive; hide Lasting; hide Reached; hide LeftAfterWait; hide KillLog; hide Waited;
    InKills(pids, left, x);
  }

  /** The same over the processes that /proc shows: SIGKILL goes to exactly those targets reached of which at every poll
      a process was there that was no zombie: for a group, any member. */
  lemma KilledProcesses(w: World, pids: seq<Target>, found: Target -> bool, deadline: int, log: seq<Signal>, last: nat,
                        shown: nat -> seq<Process>, x: Target)
    requires KillLog(w, pids, found, deadline, log)
    requires Waited(w, Reached(pids, found), deadline, last)
    requires forall k: nat | k <= last :: Shows(w.proc(k), shown(k))
    ensures Kill(x) in log
            <==> x in pids && found(x) && forall k: nat | k <= last :: Lives(shown(k), x)
  {
    KilledExactly(w, pids, found, deadline, log, last, x);
    forall k: nat | k <= last ensures Alive(w, k, x) <==> Lives(shown(k), x) {
      RunningIffLives(w.proc(k), shown(k), x);
    }
    hide *;
  }

  /** The poll at which waiting ends is determined, and so is who is left. */
  lemma LeftIs(w: World, targets: seq<Target>, deadline: int, left: seq<Target>, last: nat, x: Target)
    requires LeftAfterWait(w, targets, deadline, left) && Waited(w, targets, deadline, last)
    ensures x in left <==> x in Lasting(w, targets, last)
    ensures x in left ==> w.clock(last) >= deadline
  {
    LastingIs(w, targets, last, x);
    hide Lasting; hide Alive;
    if targets != [] {
      var end: nat :| Waited(w, targets, deadline, end) && left == Lasting(w, targets, end);
      OnePoll(w, targets, deadline, last, end);
    }
  }

  lemma OnePoll(w: World, targets: seq<Target>, deadline: int, a: nat, b: nat)
    requires Waited(w, targets, deadline, a) && Waited(w, targets, deadline, b)
    ensures a == b
  {
    hide Ends;
  }

  lemma InKills(pids: seq<Target>, left: seq<Target>, x: Target)
    ensures Term(x) in Terms(pids) + Kills(left) <==> x in pids
    ensures Kill(x) in Terms(pids) + Kills(left) <==> x in left
  {
    if x in pids {
      var i :| 0 <= i < |pids| && pids[i] == x;
      assert Terms(pids)[i] == Term(x);
    }
    if x in left {
      var i :| 0 <= i < |left| && left[i] == x;
      assert Kills(left)[i] == Kill(x);
    }
  }
}
