/** How many instances to launch for the build and simulation workers, and which worker goes where. */
module Packing {

  import opened Results

  datatype Worker = Build(index: nat) | Sim(index: nat)

  /** CPUs per worker of either kind. */
  datatype Sizes = Sizes(build: nat, sim: nat) {
    function Of(w: Worker): nat {
      if w.Build? then build else sim
    }
  }

  datatype PackError = DivisionByZero | NoInstances

  // ---------------------------------------------------------------- what the packing must produce

  /** Per instance: the vCPUs left and the workers placed. */
  datatype Bins = Bins(remaining: seq<int>, hosted: seq<seq<Worker>>)

  function Empty(n: nat, vcpus: nat): (b: Bins)
    ensures |b.remaining| == |b.hosted| == n
  {
    Bins(seq(n, i => vcpus), seq(n, i => []))
  }

  /** The first instance with room, or one past the last. */
  function FirstFit(remaining: seq<int>, cpus: nat): (i: nat)
    ensures i <= |remaining|
    ensures i < |remaining| ==> remaining[i] >= cpus
    ensures forall j | 0 <= j < i :: remaining[j] < cpus
  {
    if remaining == [] || remaining[0] >= cpus then 0 else 1 + FirstFit(remaining[1..], cpus)
  }

  /** The first instance with the most room. */
  function Roomiest(remaining: seq<int>): (i: nat)
    requires remaining != []
    ensures i < |remaining|
    ensures forall j | 0 <= j < |remaining| :: remaining[j] <= remaining[i]
    ensures forall j | 0 <= j < i :: remaining[j] < remaining[i]
  {
    var n := |remaining| - 1;
    if n == 0 then 0
    else
      var i := Roomiest(remaining[..n]);
      if remaining[n] > remaining[i] then n else i
  }

  /** The first instance with room; if there is none, the first with the most. */
  ghost predicate Chooses(remaining: seq<int>, cpus: nat, i: nat) {
    && i < |remaining|
    && if exists j | 0 <= j < |remaining| :: remaining[j] >= cpus then
         remaining[i] >= cpus && forall j | 0 <= j < i :: remaining[j] < cpus
       else
         && (forall j | 0 <= j < |remaining| :: remaining[j] <= remaining[i])
         && (forall j | 0 <= j < i :: remaining[j] < remaining[i])
  }

  function Target(remaining: seq<int>, cpus: nat): (i: nat)
    requires remaining != []
    ensures i < |remaining| && Chooses(remaining, cpus, i)
  {
    var i := FirstFit(remaining, cpus);
    if i < |remaining| then i else Roomiest(remaining)
  }

  function Place(b: Bins, w: Worker, cpus: nat): (c: Bins)
    requires |b.remaining| == |b.hosted| > 0
    ensures |c.remaining| == |c.hosted| == |b.remaining|
  {
    var i := Target(b.remaining, cpus);
    Bins(b.remaining[i := b.remaining[i] - cpus], b.hosted[i := b.hosted[i] + [w]])
  }

  /** The worker goes to the instance chosen, and nothing else changes. */
  ghost predicate PutWhereChosen(b: Bins, c: Bins, w: Worker, cpus: nat) {
    exists i: nat ::
      && Chooses(b.remaining, cpus, i) && i < |b.hosted|
      && c == Bins(b.remaining[i := b.remaining[i] - cpus], b.hosted[i := b.hosted[i] + [w]])
  }

  lemma PlaceChooses(b: Bins, w: Worker, cpus: nat)
    requires |b.remaining| == |b.hosted| > 0
    ensures PutWhereChosen(b, Place(b, w, cpus), w, cpus)
  {
    var i := Target(b.remaining, cpus);
    hide Chooses; hide Target;
    assert Chooses(b.remaining, cpus, i);
  }

  lemma PlaceIs(b: Bins, w: Worker, cpus: nat, i: nat)
    requires |b.remaining| == |b.hosted| > i
    requires i == if FirstFit(b.remaining, cpus) < |b.remaining| then FirstFit(b.remaining, cpus)
             else Roomiest(b.remaining)
    ensures Place(b, w, cpus) == Bins(b.remaining[i := b.remaining[i] - cpus], b.hosted[i := b.hosted[i] + [w]])
  {
    hide FirstFit; hide Roomiest; hide Chooses;
  }

  function Pack(b: Bins, ws: seq<Worker>, z: Sizes): (c: Bins)
    requires |b.remaining| == |b.hosted| > 0
    ensures |c.remaining| == |c.hosted| == |b.remaining|
  {
    if ws == [] then b
    else Place(Pack(b, ws[..|ws| - 1], z), ws[|ws| - 1], z.Of(ws[|ws| - 1]))
  }

  /** The build workers in order, then the simulation workers. */
  function Jobs(builds: nat, sims: nat): (ws: seq<Worker>)
    ensures |ws| == builds + sims
  {
    seq(builds, i requires i >= 0 => Build(i)) + seq(sims, i requires i >= 0 => Sim(i))
  }

  function CeilDiv(a: nat, b: nat): nat
    requires b > 0
  {
    (a + b - 1) / b
  }

  /** The instances launched; a positive `perInstance` overrides the CPU arithmetic. */
  function InstanceCount(builds: nat, sims: nat, z: Sizes, vcpus: nat,
                         perInstance: Option<int>): Result<nat, PackError> {
    match perInstance
    case Some(k) =>
      if k == 0 then Err(DivisionByZero) else if k < 0 then Ok(0) else Ok(CeilDiv(builds + sims, k))
    case None =>
      if vcpus == 0 then Err(DivisionByZero)
      else
        var n := CeilDiv(builds * z.build + sims * z.sim, vcpus);
        Ok(if n < 1 then 1 else n)
  }

  function Provisioned(builds: nat, sims: nat, z: Sizes, vcpus: nat,
                       perInstance: Option<int>): Result<Bins, PackError> {
    match InstanceCount(builds, sims, z, vcpus, perInstance)
    case Err(e) => Err(e)
    case Ok(n) =>
      if builds + sims == 0 then Ok(Empty(n, vcpus))
      else if n == 0 then Err(NoInstances)
      else Ok(Pack(Empty(n, vcpus), Jobs(builds, sims), z))
  }

  // ---------------------------------------------------------------- the packer

  class Packer {
    var remaining: seq<int>
    var hosted: seq<seq<Worker>>

    constructor (n: nat, vcpus: nat)
      ensures Contents() == Empty(n, vcpus) && |remaining| == |hosted| == n
    {
      remaining := seq(n, i => vcpus);
      hosted := seq(n, i => []);
    }

    function Contents(): Bins
      reads this
    {
      Bins(remaining, hosted)
    }

    method Assign(w: Worker, cpus: nat) returns (ok: bool)
      requires |remaining| == |hosted|
      modifies this
      ensures ok <==> old(remaining) != []
      ensures |remaining| == |hosted| == |old(remaining)|
      ensures Contents() == if ok then Place(old(Contents()), w, cpus) else old(Contents())
      ensures ok ==> PutWhereChosen(old(Contents()), Contents(), w, cpus)
    {
      hide *;
      ghost var b := Contents();
      ContentsAre();
      if |remaining| > 0 { PlaceChooses(b, w, cpus); }
      for idx := 0 to |remaining|
        invariant remaining == old(remaining) && hosted == old(hosted)
        invariant forall j | 0 <= j < idx :: remaining[j] < cpus
      {
        if remaining[idx] >= cpus {
          FirstFitIs(remaining, cpus, idx);
          PlaceIs(b, w, cpus, idx);
          Put(idx, w, cpus);
          ContentsAre();
          return true;
        }
      }
      if |remaining| == 0 { return false; }
      var best := LeastLoaded();
      FirstFitIs(remaining, cpus, |remaining|);
      PlaceIs(b, w, cpus, best);
      Put(best, w, cpus);
      ContentsAre();
      ok := true;
    }

    lemma ContentsAre()
      ensures Contents() == Bins(remaining, hosted)
    {
    }

    method Put(idx: nat, w: Worker, cpus: nat)
      requires idx < |remaining| == |hosted|
      modifies this
      ensures hosted == old(hosted)[idx := old(hosted)[idx] + [w]]
      ensures remaining == old(remaining)[idx := old(remaining)[idx] - cpus]
    {
      hosted := hosted[idx := hosted[idx] + [w]];
      remaining := remaining[idx := remaining[idx] - cpus];
    }

    method LeastLoaded() returns (best: nat)
      requires remaining != []
      ensures best == Roomiest(remaining)
    {
      hide *;
      best := 0;
      RoomiestNext(remaining, 0);
      for idx := 1 to |remaining|
        invariant best < idx && best == Roomiest(remaining[..idx])
      {
        RoomiestNext(remaining, idx);
        if remaining[idx] > remaining[best] { best := idx; }
      }
      assert remaining[..|remaining|] == remaining;
    }
  }

  lemma RoomiestNext(remaining: seq<int>, i: nat)
    requires i < |remaining|
    ensures Roomiest(remaining[..i + 1])
            == if i == 0 then 0
               else if remaining[i] > remaining[Roomiest(remaining[..i])] then i
               else Roomiest(remaining[..i])
  {
    assert remaining[..i + 1][..i] == remaining[..i];
  }

  lemma FirstFitIs(remaining: seq<int>, cpus: nat, i: nat)
    requires i <= |remaining| && (i < |remaining| ==> remaining[i] >= cpus)
    requires forall j | 0 <= j < i :: remaining[j] < cpus
    ensures FirstFit(remaining, cpus) == i
  {
  }

  /** The plan and the packing of one provisioning call. */
  method Provision(builds: nat, sims: nat, z: Sizes, vcpus: nat, perInstance: Option<int>)
    returns (r: Result<Bins, PackError>)
    ensures r == Provisioned(builds, sims, z, vcpus, perInstance)
  {
    hide *;
    var count := InstanceCount(builds, sims, z, vcpus, perInstance);
    ProvisionedIs(builds, sims, z, vcpus, perInstance);
    if count.Err? { return Err(count.error); }
    var n := count.value;
    var packer := new Packer(n, vcpus);
    ghost var all := Jobs(builds, sims);
    NoneFirst(n, vcpus, all, z);
    for i := 0 to builds
      invariant |packer.remaining| == |packer.hosted| == n && (n == 0 ==> i == 0)
      invariant packer.Contents() == PackFirst(n, vcpus, all, z, i)
    {
      var ok := packer.Assign(Build(i), z.build);
      if !ok { return Err(NoInstances); }
      JobIs(builds, sims, z, i);
      PackNext(n, vcpus, all, z, i);
    }
    for i := 0 to sims
      invariant |packer.remaining| == |packer.hosted| == n && (n == 0 ==> i == 0)
      invariant packer.Contents() == PackFirst(n, vcpus, all, z, builds + i)
    {
      var ok := packer.Assign(Sim(i), z.sim);
      if !ok { return Err(NoInstances); }
      JobIs(builds, sims, z, builds + i);
      PackNext(n, vcpus, all, z, builds + i);
    }
    r := Ok(packer.Contents());
  }

  /** n is the least number of shares of that size that covers the need. */
  predicate Covers(n: nat, share: nat, need: nat) {
    n * share >= need && (n > 0 ==> (n - 1) * share < need)
  }

  lemma CeilCovers(need: nat, share: nat)
    requires share > 0
    ensures Covers(CeilDiv(need, share), share, need)
  {
    var a := need + share - 1;
    var n := a / share;
    assert a == share * n + a % share;
    assert n * share == share * n && (n - 1) * share == share * n - share;
  }

  /** How many instances a call launches: the fewest that hold the workers at that many each, or at least one and the
      fewest with CPUs enough; and when it fails. */
  lemma InstancesLaunched(builds: nat, sims: nat, z: Sizes, vcpus: nat, perInstance: Option<int>)
    ensures var r := Provisioned(builds, sims, z, vcpus, perInstance);
            && (r == Err(DivisionByZero) <==> perInstance == Some(0) || (perInstance == None && vcpus == 0))
            && (r == Err(NoInstances) <==> perInstance.Some? && perInstance.value < 0 && builds + sims > 0)
            && (r.Ok? ==>
               var n := |r.value.remaining|;
               && n == |r.value.hosted|
               && (perInstance.Some? ==>
                  if perInstance.value < 0 then n == 0 else Covers(n, perInstance.value, builds + sims))
               && (perInstance.None? ==>
                  if builds * z.build + sims * z.sim == 0 then n == 1
                  else n >= 1 && Covers(n, vcpus, builds * z.build + sims * z.sim)))
  {
    var need := builds * z.build + sims * z.sim;
    if perInstance.Some? && perInstance.value > 0 { CeilCovers(builds + sims, perInstance.value); }
    if perInstance.None? && vcpus > 0 { CeilCovers(need, vcpus); }
    hide Pack; hide CeilDiv; hide Jobs; hide Empty;
    if perInstance.Some?
      && perInstance.value > 0 { SomeCover(CeilDiv(builds + sims, perInstance.value), perInstance.value, builds + sims);
      }
    if perInstance.None? && vcpus > 0 { SomeCover(CeilDiv(need, vcpus), vcpus, need); }
    hide Covers;
  }

  lemma SomeCover(n: nat, share: nat, need: nat)
    requires Covers(n, share, need)
    ensures need > 0 ==> n > 0
    ensures need == 0 ==> n <= 1
  {
  }

  /** The instances after the first i jobs. */
  ghost function PackFirst(n: nat, vcpus: nat, ws: seq<Worker>, z: Sizes, i: nat): Bins
    requires i <= |ws|
  {
    if n == 0 || i == 0 then Empty(n, vcpus) else Pack(Empty(n, vcpus), ws[..i], z)
  }

  lemma NoneFirst(n: nat, vcpus: nat, ws: seq<Worker>, z: Sizes)
    ensures PackFirst(n, vcpus, ws, z, 0) == Empty(n, vcpus)
  {
  }

  lemma ProvisionedIs(builds: nat, sims: nat, z: Sizes, vcpus: nat, perInstance: Option<int>)
    ensures Provisioned(builds, sims, z, vcpus, perInstance)
            == match InstanceCount(builds, sims, z, vcpus, perInstance)
               case Err(e) => Err(e)
               case Ok(n) =>
                 if n == 0 && builds + sims > 0 then Err(NoInstances)
                 else Ok(PackFirst(n, vcpus, Jobs(builds, sims), z, builds + sims))
  {
    var all := Jobs(builds, sims);
    assert all[..builds + sims] == all;
    hide Jobs; hide Pack;
  }

  lemma JobIs(builds: nat, sims: nat, z: Sizes, i: nat)
    requires i < builds + sims
    ensures Jobs(builds, sims)[i] == if i < builds then Build(i) else Sim(i - builds)
    ensures z.Of(Jobs(builds, sims)[i]) == if i < builds then z.build else z.sim
  {
  }

  lemma PackNext(n: nat, vcpus: nat, ws: seq<Worker>, z: Sizes, i: nat)
    requires n > 0 && i < |ws|
    ensures |PackFirst(n, vcpus, ws, z, i).remaining| == |PackFirst(n, vcpus, ws, z, i).hosted| == n
    ensures PackFirst(n, vcpus, ws, z, i + 1) == Place(PackFirst(n, vcpus, ws, z, i), ws[i], z.Of(ws[i]))
  {
    assert ws[..i + 1][..i] == ws[..i];
  }

  lemma PackNone(b: Bins, z: Sizes)
    requires |b.remaining| == |b.hosted| > 0
    ensures Pack(b, [], z) == b
  {
  }

  lemma PackAppend(b: Bins, ws: seq<Worker>, z: Sizes)
    requires |b.remaining| == |b.hosted| > 0 && ws != []
    ensures var c, w := Pack(b, ws[..|ws| - 1], z), ws[|ws| - 1];
            var i := Target(c.remaining, z.Of(w));
            Pack(b, ws, z) == Bins(c.remaining[i := c.remaining[i] - z.Of(w)], c.hosted[i := c.hosted[i] + [w]])
  {
  }

  // ---------------------------------------------------------------- every worker is placed exactly once

  function Everyone(hosted: seq<seq<Worker>>): multiset<Worker> {
    if hosted == [] then multiset{} else Everyone(hosted[..|hosted| - 1]) + multiset(hosted[|hosted| - 1])
  }

  lemma {:induction false} EveryoneStep(hosted: seq<seq<Worker>>, i: nat, w: Worker)
    requires i < |hosted|
    ensures Everyone(hosted[i := hosted[i] + [w]]) == Everyone(hosted) + multiset{w}
  {
    var n := |hosted| - 1;
    var next := hosted[i := hosted[i] + [w]];
    if i < n {
      EveryoneStep(hosted[..n], i, w);
      assert next[..n] == hosted[..n][i := hosted[i] + [w]];
    } else {
      assert next[..n] == hosted[..n];
    }
  }

  lemma MultisetLast(ws: seq<Worker>)
    requires ws != []
    ensures multiset(ws) == multiset(ws[..|ws| - 1]) + multiset{ws[|ws| - 1]}
  {
    assert ws == ws[..|ws| - 1] + [ws[|ws| - 1]];
  }

  lemma EveryoneLast(b: Bins, ws: seq<Worker>, z: Sizes)
    requires |b.remaining| == |b.hosted| > 0 && ws != []
    ensures Everyone(Pack(b, ws, z).hosted) == Everyone(Pack(b, ws[..|ws| - 1], z).hosted) + multiset{ws[|ws| - 1]}
  {
    hide *;
    var c, w := Pack(b, ws[..|ws| - 1], z), ws[|ws| - 1];
    PackAppend(b, ws, z);
    EveryoneStep(c.hosted, Target(c.remaining, z.Of(w)), w);
  }

  lemma {:induction false} PackKeepsEveryone(b: Bins, ws: seq<Worker>, z: Sizes)
    requires |b.remaining| == |b.hosted| > 0
    ensures Everyone(Pack(b, ws, z).hosted) == Everyone(b.hosted) + multiset(ws)
  {
    hide *;
    if ws == [] {
      PackNone(b, z);
    } else {
      PackKeepsEveryone(b, ws[..|ws| - 1], z);
      EveryoneLast(b, ws, z);
      MultisetLast(ws);
    }
  }

  lemma {:induction false} NobodyYet(n: nat, vcpus: nat)
    ensures Everyone(Empty(n, vcpus).hosted) == multiset{}
  {
    if n > 0 {
      NobodyYet(n - 1, vcpus);
      assert Empty(n, vcpus).hosted[..n - 1] == Empty(n - 1, vcpus).hosted;
    }
  }

  predicate Requested(builds: nat, sims: nat, w: Worker) {
    (w.Build? && w.index < builds) || (w.Sim? && w.index < sims)
  }

  /** Whatever the sizes and the instance count, the placed workers are exactly the requested ones. */
  lemma PlacedExactlyOnce(builds: nat, sims: nat, z: Sizes, vcpus: nat, perInstance: Option<int>)
    requires Provisioned(builds, sims, z, vcpus, perInstance).Ok?
    ensures Everyone(Provisioned(builds, sims, z, vcpus, perInstance).value.hosted) == multiset(Jobs(builds, sims))
    ensures forall w :: multiset(Jobs(builds, sims))[w] == if Requested(builds, sims, w) then 1 else 0
  {
    var n := InstanceCount(builds, sims, z, vcpus, perInstance).value;
    NobodyYet(n, vcpus);
    if builds + sims > 0 { PackKeepsEveryone(Empty(n, vcpus), Jobs(builds, sims), z); }
    forall w ensures multiset(Jobs(builds, sims))[w] == if Requested(builds, sims, w) then 1 else 0 {
      JobOnce(builds, sims, w);
    }
  }

  lemma {:induction false} JobOnce(builds: nat, sims: nat, w: Worker)
    ensures multiset(Jobs(builds, sims))[w] == if Requested(builds, sims, w) then 1 else 0
  {
    JobsLast(builds, sims);
    hide Jobs;
    if sims > 0 {
      JobOnce(builds, sims - 1, w);
    } else if builds > 0 {
      JobOnce(builds - 1, 0, w);
    }
  }

  lemma JobsLast(builds: nat, sims: nat)
    ensures sims > 0 ==> Jobs(builds, sims) == Jobs(builds, sims - 1) + [Sim(sims - 1)]
    ensures builds > 0 ==> Jobs(builds, 0) == Jobs(builds - 1, 0) + [Build(builds - 1)]
    ensures Jobs(0, 0) == []
  {
  }

  // ---------------------------------------------------------------- CPUs are conserved on each instance

  function Need(ws: seq<Worker>, z: Sizes): nat {
    if ws == [] then 0 else Need(ws[..|ws| - 1], z) + z.Of(ws[|ws| - 1])
  }

  lemma NeedLast(ws: seq<Worker>, z: Sizes)
    requires ws != []
    ensures Need(ws, z) == Need(ws[..|ws| - 1], z) + z.Of(ws[|ws| - 1])
  {
  }

  lemma NeedNone(z: Sizes)
    ensures Need([], z) == 0
  {
  }

  ghost predicate Balanced(b: Bins, z: Sizes, vcpus: nat) {
    |b.remaining| == |b.hosted| && forall i | 0 <= i < |b.remaining| :: b.remaining[i] + Need(b.hosted[i], z) == vcpus
  }

  lemma {:induction false} PackBalanced(b: Bins, ws: seq<Worker>, z: Sizes, vcpus: nat)
    requires |b.remaining| == |b.hosted| > 0 && Balanced(b, z, vcpus)
    ensures Balanced(Pack(b, ws, z), z, vcpus)
  {
    if ws != [] {
      var n := |ws| - 1;
      PackBalanced(b, ws[..n], z, vcpus);
      var c := Pack(b, ws[..n], z);
      var i := Target(c.remaining, z.Of(ws[n]));
      assert (c.hosted[i] + [ws[n]])[..|c.hosted[i]|] == c.hosted[i];
    }
  }

  /** Remaining plus assigned CPUs is the capacity of every instance. */
  lemma CpusConserved(builds: nat, sims: nat, z: Sizes, vcpus: nat, perInstance: Option<int>)
    requires Provisioned(builds, sims, z, vcpus, perInstance).Ok?
    ensures Balanced(Provisioned(builds, sims, z, vcpus, perInstance).value, z, vcpus)
  {
    var n := InstanceCount(builds, sims, z, vcpus, perInstance).value;
    if builds + sims > 0 { PackBalanced(Empty(n, vcpus), Jobs(builds, sims), z, vcpus); }
  }

  // ---------------------------------------------------------------- sums

  function Sum(s: seq<int>): int {
    if s == [] then 0 else Sum(s[..|s| - 1]) + s[|s| - 1]
  }

  lemma {:induction false} SumUpdate(s: seq<int>, i: nat, v: int)
    requires i < |s|
    ensures Sum(s[i := v]) == Sum(s) - s[i] + v
  {
    var n := |s| - 1;
    if i < n {
      SumUpdate(s[..n], i, v);
      assert s[i := v][..n] == s[..n][i := v];
    } else {
      assert s[i := v][..n] == s[..n];
    }
  }

  lemma {:induction false} SumAtMost(s: seq<int>, c: int)
    requires forall i | 0 <= i < |s| :: s[i] <= c
    ensures Sum(s) <= |s| * c
  {
    if s != [] { SumAtMost(s[..|s| - 1], c); }
  }

  /** Averaging: a sum above |s| * c has a member above c. */
  lemma Above(s: seq<int>, c: int) returns (i: nat)
    requires Sum(s) > |s| * c
    ensures i < |s| && s[i] > c
  {
    if forall i | 0 <= i < |s| :: s[i] <= c {
      SumAtMost(s, c);
      assert false;
    }
    i :| i < |s| && s[i] > c;
  }

  lemma {:induction false} SumAtLeast(s: seq<int>, c: int)
    requires forall i | 0 <= i < |s| :: s[i] >= c
    ensures Sum(s) >= |s| * c
  {
    if s != [] { SumAtLeast(s[..|s| - 1], c); }
  }

  lemma Below(s: seq<int>, c: int) returns (i: nat)
    requires Sum(s) < |s| * c
    ensures i < |s| && s[i] < c
  {
    if forall i | 0 <= i < |s| :: s[i] >= c {
      SumAtLeast(s, c);
      assert false;
    }
    i :| i < |s| && s[i] < c;
  }

  lemma SumLast(b: Bins, ws: seq<Worker>, z: Sizes)
    requires |b.remaining| == |b.hosted| > 0 && ws != []
    ensures Sum(Pack(b, ws, z).remaining) == Sum(Pack(b, ws[..|ws| - 1], z).remaining) - z.Of(ws[|ws| - 1])
  {
    hide *;
    var c, cpus := Pack(b, ws[..|ws| - 1], z), z.Of(ws[|ws| - 1]);
    var i := Target(c.remaining, cpus);
    PackAppend(b, ws, z);
    SumUpdate(c.remaining, i, c.remaining[i] - cpus);
  }

  lemma {:induction false} RoomTaken(b: Bins, ws: seq<Worker>, z: Sizes)
    requires |b.remaining| == |b.hosted| > 0
    ensures Sum(Pack(b, ws, z).remaining) == Sum(b.remaining) - Need(ws, z)
  {
    hide *;
    if ws == [] {
      PackNone(b, z);
      NeedNone(z);
    } else {
      RoomTaken(b, ws[..|ws| - 1], z);
      SumLast(b, ws, z);
      NeedLast(ws, z);
    }
  }

  lemma RoomLeft(n: nat, vcpus: nat, ws: seq<Worker>, z: Sizes)
    requires n > 0
    ensures Sum(Pack(Empty(n, vcpus), ws, z).remaining) == n * vcpus - Need(ws, z)
  {
    hide *;
    RoomTaken(Empty(n, vcpus), ws, z);
    FullRoom(n, vcpus);
  }

  lemma {:induction false} FullRoom(n: nat, vcpus: nat)
    ensures Sum(Empty(n, vcpus).remaining) == n * vcpus
  {
    if n > 0 {
      FullRoom(n - 1, vcpus);
      assert Empty(n, vcpus).remaining[..n - 1] == Empty(n - 1, vcpus).remaining;
    }
  }

  lemma LastBuild(builds: nat, z: Sizes)
    requires builds > 0
    ensures Jobs(builds, 0)[..builds - 1] == Jobs(builds - 1, 0) && z.Of(Jobs(builds, 0)[builds - 1]) == z.build
    ensures Need(Jobs(builds, 0), z) == Need(Jobs(builds - 1, 0), z) + z.build
  {
    assert Jobs(builds, 0)[..builds - 1] == Jobs(builds - 1, 0);
  }

  lemma LastSim(builds: nat, sims: nat, z: Sizes)
    requires sims > 0
    ensures Jobs(builds, sims)[..builds + sims - 1] == Jobs(builds, sims - 1)
    ensures z.Of(Jobs(builds, sims)[builds + sims - 1]) == z.sim
    ensures Need(Jobs(builds, sims), z) == Need(Jobs(builds, sims - 1), z) + z.sim
  {
    assert Jobs(builds, sims)[..builds + sims - 1] == Jobs(builds, sims - 1);
  }

  lemma OneMore(a: nat, b: nat)
    requires a > 0
    ensures a * b == (a - 1) * b + b
  {
  }

  lemma {:induction false} NeedOfJobs(builds: nat, sims: nat, z: Sizes)
    ensures Need(Jobs(builds, sims), z) == builds * z.build + sims * z.sim
  {
    hide Jobs; hide Need;
    if sims > 0 {
      LastSim(builds, sims, z);
      NeedOfJobs(builds, sims - 1, z);
      OneMore(sims, z.sim);
    } else if builds > 0 {
      LastBuild(builds, z);
      NeedOfJobs(builds - 1, 0, z);
      OneMore(builds, z.build);
    } else {
      NoNeed(z);
    }
  }

  lemma NoNeed(z: Sizes)
    ensures Need(Jobs(0, 0), z) == 0
  {
  }

  lemma CeilEnough(a: nat, b: nat)
    requires b > 0
    ensures CeilDiv(a, b) * b >= a
  {
  }

  /** Planned by CPU count, the instances have room for all the workers together. */
  lemma Enough(builds: nat, sims: nat, z: Sizes, vcpus: nat)
    requires vcpus > 0
    ensures var n := InstanceCount(builds, sims, z, vcpus, None).value;
            n > 0 && Need(Jobs(builds, sims), z) <= n * vcpus
  {
    NeedOfJobs(builds, sims, z);
    CeilEnough(builds * z.build + sims * z.sim, vcpus);
  }

  // ---------------------------------------------------------------- no instance is overloaded by a whole worker

  /** The most CPUs any instance can be short of: one less than the largest worker. */
  function Slack(most: nat): nat {
    if most > 0 then most - 1 else 0
  }

  lemma StepShort(remaining: seq<int>, cpus: nat, most: nat)
    requires remaining != [] && cpus <= most && Sum(remaining) >= cpus
    ensures remaining[Target(remaining, cpus)] - cpus + Slack(most) >= 0
  {
    if FirstFit(remaining, cpus) == |remaining| {
      var i := Above(remaining, if cpus == 0 then -1 else 0);
    }
  }

  lemma {:induction false} ShortByLess(n: nat, vcpus: nat, ws: seq<Worker>, z: Sizes, most: nat)
    requires n > 0 && Need(ws, z) <= n * vcpus && z.build <= most && z.sim <= most
    ensures forall i | 0 <= i < n :: Pack(Empty(n, vcpus), ws, z).remaining[i] + Slack(most) >= 0
  {
    if ws != [] {
      var k := |ws| - 1;
      ShortByLess(n, vcpus, ws[..k], z, most);
      RoomLeft(n, vcpus, ws[..k], z);
      StepShort(Pack(Empty(n, vcpus), ws[..k], z).remaining, z.Of(ws[k]), most);
      hide Target; hide Sum;
    }
  }

  /** Planned by CPU count, an instance's load never exceeds its vCPUs by as much as one worker. */
  lemma OverloadBound(builds: nat, sims: nat, z: Sizes, vcpus: nat, i: nat)
    requires vcpus > 0 && Provisioned(builds, sims, z, vcpus, None).Ok?
    requires i < |Provisioned(builds, sims, z, vcpus, None).value.hosted|
    ensures Need(Provisioned(builds, sims, z, vcpus, None).value.hosted[i], z)
            <= vcpus + Slack(if z.build > z.sim then z.build else z.sim)
  {
    var n := InstanceCount(builds, sims, z, vcpus, None).value;
    CpusConserved(builds, sims, z, vcpus, None);
    Enough(builds, sims, z, vcpus);
    if builds + sims > 0 {
      ShortByLess(n, vcpus, Jobs(builds, sims), z, if z.build > z.sim then z.build else z.sim);
    }
  }

  lemma WholePack(n: nat, vcpus: nat, ws: seq<Worker>, z: Sizes)
    requires n > 0
    ensures Pack(Empty(n, vcpus), ws, z) == PackFirst(n, vcpus, ws, z, |ws|)
  {
    assert ws[..|ws|] == ws;
  }

  lemma ThreeOnTwo()
    ensures Pack(Empty(2, 3), Jobs(3, 0), Sizes(2, 2)) == Bins([-1, 1], [[Build(0), Build(2)], [Build(1)]])
  {
    var z, ws := Sizes(2, 2), [Build(0), Build(1), Build(2)];
    assert Jobs(3, 0) == ws;
    assert PackFirst(2, 3, ws, z, 0) == Bins([3, 3], [[], []]);
    FirstPlaced();
    SecondPlaced();
    ThirdPlaced();
    assert z.Of(ws[0]) == z.Of(ws[1]) == z.Of(ws[2]) == 2;
    hide *;
    PackNext(2, 3, ws, z, 0);
    PackNext(2, 3, ws, z, 1);
    PackNext(2, 3, ws, z, 2);
    WholePack(2, 3, ws, z);
  }

  lemma FirstPlaced()
    ensures Place(Bins([3, 3], [[], []]), Build(0), 2) == Bins([1, 3], [[Build(0)], []])
  {
    FirstFitIs([3, 3], 2, 0);
    hide FirstFit;
    assert [] + [Build(0)] == [Build(0)] && [[], []][0 := [Build(0)]] == [[Build(0)], []];
  }

  lemma SecondPlaced()
    ensures Place(Bins([1, 3], [[Build(0)], []]), Build(1), 2) == Bins([1, 1], [[Build(0)], [Build(1)]])
  {
    FirstFitIs([1, 3], 2, 1);
    hide FirstFit;
    assert [] + [Build(1)] == [Build(1)] && [[Build(0)], []][1 := [Build(1)]] == [[Build(0)], [Build(1)]];
  }

  lemma ThirdPlaced()
    ensures Place(Bins([1, 1], [[Build(0)], [Build(1)]]), Build(2), 2)
            == Bins([-1, 1], [[Build(0), Build(2)], [Build(1)]])
  {
    FirstFitIs([1, 1], 2, 2);
    hide FirstFit; hide Roomiest;
    assert [Build(0)] + [Build(2)] == [Build(0), Build(2)];
    assert [[Build(0)], [Build(1)]][0 := [Build(0), Build(2)]] == [[Build(0), Build(2)], [Build(1)]];
  }

  /** The bound is reached: three workers of 2 CPUs on instances with 3 overload the first one by 1. */
  lemma OverloadReached()
    ensures var r := Provisioned(3, 0, Sizes(2, 2), 3, None);
            r.Ok? && r.value.remaining == [-1, 1] && Need(r.value.hosted[0], Sizes(2, 2)) == 3 + Slack(2)
  {
    ThreeOnTwo();
    hide Pack; hide Jobs;
    assert CeilDiv(6, 3) == 2;
    assert [Build(0), Build(2)][..1] == [Build(0)] && [Build(0)][..0] == [];
  }

  // ---------------------------------------------------------------- sizes that divide: nothing is overloaded

  ghost predicate Multiples(s: seq<int>, d: int)
    requires d > 0
  {
    forall i | 0 <= i < |s| :: s[i] >= 0 && s[i] % d == 0
  }

  lemma MultipleTrans(x: int, b: int, s: int)
    requires b > 0 && s > 0 && x % b == 0 && b % s == 0
    ensures x % s == 0
  {
    var p, q := x / b, b / s;
    assert x == p * b && b == q * s;
    assert p * (q * s) == (p * q) * s;
    MultipleOf(p * q, s);
  }

  lemma MultipleOf(k: int, s: int)
    requires s > 0
    ensures (k * s) % s == 0 && (k * s) / s == k
  {
    var m := k * s;
    var q, r := m / s, m % s;
    assert m == q * s + r && 0 <= r < s;
    assert (k - q) * s == r;
    if k > q { AtLeastOne(k - q, s); }
    if k < q { AtLeastOne(q - k, s); }
  }

  lemma AtLeastOne(a: int, s: int)
    requires a >= 1 && s > 0
    ensures a * s >= s
  {
  }

  lemma OneLess(x: int, d: int)
    requires d > 0 && x % d == 0
    ensures (x - d) % d == 0
    ensures x > 0 ==> x >= d
  {
    var q := x / d;
    assert x == q * d;
    assert (q - 1) * d == q * d - d;
    MultipleOf(q - 1, d);
  }

  lemma StepDivisible(remaining: seq<int>, d: nat)
    requires d > 0 && remaining != [] && Multiples(remaining, d) && Sum(remaining) >= d
    ensures FirstFit(remaining, d) < |remaining|
    ensures var i := Target(remaining, d); Multiples(remaining[i := remaining[i] - d], d)
  {
    var i := Above(remaining, 0);
    OneLess(remaining[i], d);
    OneLess(remaining[Target(remaining, d)], d);
  }

  /** Each size divides the next, as far as there are workers of that size. */
  ghost predicate Divides(builds: nat, sims: nat, z: Sizes, vcpus: nat) {
    && (builds > 0 ==> z.build > 0 && vcpus % z.build == 0)
    && (sims > 0 ==> z.sim > 0 && vcpus % z.sim == 0)
    && (builds > 0 && sims > 0 ==> z.build % z.sim == 0)
  }

  lemma FitStep(n: nat, vcpus: nat, ws: seq<Worker>, z: Sizes, d: nat)
    requires n > 0 && d > 0 && ws != [] && z.Of(ws[|ws| - 1]) == d && Need(ws, z) <= n * vcpus
    requires Multiples(Pack(Empty(n, vcpus), ws[..|ws| - 1], z).remaining, d)
    ensures Multiples(Pack(Empty(n, vcpus), ws, z).remaining, d)
  {
    hide *;
    NeedLast(ws, z);
    RoomLeft(n, vcpus, ws[..|ws| - 1], z);
    PackAppend(Empty(n, vcpus), ws, z);
    StepDivisible(Pack(Empty(n, vcpus), ws[..|ws| - 1], z).remaining, d);
  }

  lemma {:induction false} BuildsFit(n: nat, vcpus: nat, builds: nat, z: Sizes)
    requires n > 0 && Need(Jobs(builds, 0), z) <= n * vcpus && z.build > 0 && vcpus % z.build == 0
    ensures Multiples(Pack(Empty(n, vcpus), Jobs(builds, 0), z).remaining, z.build)
  {
    hide *;
    if builds == 0 {
      NoJobs(n, vcpus, z, z.build);
    } else {
      LastBuild(builds, z);
      BuildsFit(n, vcpus, builds - 1, z);
      FitStep(n, vcpus, Jobs(builds, 0), z, z.build);
    }
  }

  lemma NoJobs(n: nat, vcpus: nat, z: Sizes, d: nat)
    requires n > 0 && d > 0 && vcpus % d == 0
    ensures Multiples(Pack(Empty(n, vcpus), Jobs(0, 0), z).remaining, d)
  {
    assert Pack(Empty(n, vcpus), Jobs(0, 0), z) == Empty(n, vcpus);
  }

  lemma {:induction false} SimsFit(n: nat, vcpus: nat, builds: nat, sims: nat, z: Sizes)
    requires n > 0 && Need(Jobs(builds, sims), z) <= n * vcpus && z.sim > 0
    requires Multiples(Pack(Empty(n, vcpus), Jobs(builds, 0), z).remaining, z.sim)
    ensures Multiples(Pack(Empty(n, vcpus), Jobs(builds, sims), z).remaining, z.sim)
  {
    hide *;
    if sims > 0 {
      LastSim(builds, sims, z);
      SimsFit(n, vcpus, builds, sims - 1, z);
      FitStep(n, vcpus, Jobs(builds, sims), z, z.sim);
    }
  }

  lemma NeverFallsBack(n: nat, vcpus: nat, builds: nat, sims: nat, z: Sizes)
    requires n > 0 && Need(Jobs(builds, sims), z) <= n * vcpus && Divides(builds, sims, z, vcpus)
    ensures forall i | 0 <= i < n :: Pack(Empty(n, vcpus), Jobs(builds, sims), z).remaining[i] >= 0
  {
    NeedOfJobs(builds, sims, z);
    NeedOfJobs(builds, 0, z);
    var r := Pack(Empty(n, vcpus), Jobs(builds, 0), z).remaining;
    if builds == 0 {
      if sims > 0 { NoJobs(n, vcpus, z, z.sim); }
      assert r == Empty(n, vcpus).remaining;
    } else {
      BuildsFit(n, vcpus, builds, z);
    }
    hide Jobs; hide Pack; hide Need;
    if sims > 0 {
      if builds > 0 {
        forall i | 0 <= i < n ensures r[i] % z.sim == 0 { MultipleTrans(r[i], z.build, z.sim); }
      }
      SimsFit(n, vcpus, builds, sims, z);
    }
  }

  /** When the simulation size divides the build size and that divides the vCPUs, no instance is overloaded. */
  lemma DivisibleFits(builds: nat, sims: nat, z: Sizes, vcpus: nat, i: nat)
    requires vcpus > 0 && Divides(builds, sims, z, vcpus) && Provisioned(builds, sims, z, vcpus, None).Ok?
    requires i < |Provisioned(builds, sims, z, vcpus, None).value.hosted|
    ensures Need(Provisioned(builds, sims, z, vcpus, None).value.hosted[i], z) <= vcpus
  {
    var n := InstanceCount(builds, sims, z, vcpus, None).value;
    CpusConserved(builds, sims, z, vcpus, None);
    Enough(builds, sims, z, vcpus);
    if builds + sims > 0 { NeverFallsBack(n, vcpus, builds, sims, z); }
  }

  // ---------------------------------------------------------------- one size: exactly when somebody is overloaded

  function Lengths(hosted: seq<seq<Worker>>): (ls: seq<int>)
    ensures |ls| == |hosted| && forall i | 0 <= i < |ls| :: ls[i] == |hosted[i]|
  {
    seq(|hosted|, i requires 0 <= i < |hosted| => |hosted[i]|)
  }

  ghost predicate AllOfSize(ws: seq<Worker>, z: Sizes, d: nat) {
    forall i | 0 <= i < |ws| :: z.Of(ws[i]) == d
  }

  /** Every instance has lost d vCPUs for each of its workers, `total` workers in all. */
  ghost predicate OneSize(b: Bins, n: nat, vcpus: nat, d: nat, total: nat) {
    && |b.remaining| == |b.hosted| == n
    && Sum(Lengths(b.hosted)) == total
    && forall i | 0 <= i < n :: b.remaining[i] == vcpus - |b.hosted[i]| * d
  }

  lemma OneSizeStep(b: Bins, n: nat, vcpus: nat, d: nat, total: nat, i: nat, w: Worker)
    requires OneSize(b, n, vcpus, d, total) && i < n
    ensures OneSize(Bins(b.remaining[i := b.remaining[i] - d], b.hosted[i := b.hosted[i] + [w]]), n, vcpus, d,
            total + 1)
  {
    hide Sum;
    var ls := Lengths(b.hosted);
    SumUpdate(ls, i, ls[i] + 1);
    assert Lengths(b.hosted[i := b.hosted[i] + [w]]) == ls[i := ls[i] + 1];
    OneMore(|b.hosted[i]| + 1, d);
  }

  lemma OneSizeStart(n: nat, vcpus: nat, d: nat)
    ensures OneSize(Empty(n, vcpus), n, vcpus, d, 0)
  {
    assert Lengths(Empty(n, vcpus).hosted) == Empty(n, 0).remaining;
    FullRoom(n, 0);
  }

  lemma {:induction false} SameSizeBins(n: nat, vcpus: nat, ws: seq<Worker>, z: Sizes, d: nat)
    requires n > 0 && AllOfSize(ws, z, d)
    ensures OneSize(Pack(Empty(n, vcpus), ws, z), n, vcpus, d, |ws|)
  {
    hide *;
    if ws == [] {
      PackNone(Empty(n, vcpus), z);
      OneSizeStart(n, vcpus, d);
    } else {
      var k := |ws| - 1;
      LastOfSize(ws, z, d);
      SameSizeBins(n, vcpus, ws[..k], z, d);
      var b := Pack(Empty(n, vcpus), ws[..k], z);
      OneSizeStep(b, n, vcpus, d, k, Target(b.remaining, d), ws[k]);
      PackAppend(Empty(n, vcpus), ws, z);
    }
  }

  /** `length` workers of size d fit the capacity exactly when there are at most vcpus / d of them. */
  lemma FitsIff(length: nat, vcpus: nat, d: nat)
    requires d > 0
    ensures vcpus - length * d >= 0 <==> length <= vcpus / d
  {
    var c := vcpus / d;
    DivisionParts(vcpus, d);
    if length <= c {
      ProductGrows(length, c, d);
    } else {
      ProductGrows(c + 1, length, d);
      OneMore(c + 1, d);
    }
  }

  lemma DivisionParts(a: nat, d: nat)
    requires d > 0
    ensures a / d * d <= a < a / d * d + d
  {
    assert a == a / d * d + a % d;
  }

  lemma {:induction false} ProductGrows(a: nat, b: nat, d: nat)
    requires a <= b
    ensures a * d <= b * d
    decreases b
  {
    if a < b {
      ProductGrows(a, b - 1, d);
      OneMore(b, d);
    }
  }

  ghost predicate NoneShort(b: Bins) {
    forall i | 0 <= i < |b.remaining| :: b.remaining[i] >= 0
  }

  /** How many workers of size d the instances hold without splitting any. */
  function Whole(n: nat, vcpus: nat, d: nat): nat
    requires d > 0
  {
    n * (vcpus / d)
  }

  lemma OneSizeFitting(b: Bins, n: nat, vcpus: nat, d: nat, total: nat)
    requires d > 0 && OneSize(b, n, vcpus, d, total) && NoneShort(b)
    ensures total <= Whole(n, vcpus, d)
  {
    hide Sum;
    forall i | 0 <= i < n ensures |b.hosted[i]| <= vcpus / d { FitsIff(|b.hosted[i]|, vcpus, d); }
    SumAtMost(Lengths(b.hosted), vcpus / d);
  }

  /** As long as the instances hold one more worker whole, it is placed without the fallback. */
  lemma OneSizeRoom(b: Bins, n: nat, vcpus: nat, d: nat, total: nat)
    requires d > 0 && OneSize(b, n, vcpus, d, total) && total < Whole(n, vcpus, d)
    ensures n > 0 && b.remaining[Target(b.remaining, d)] >= d
  {
    hide Sum;
    var i := Below(Lengths(b.hosted), vcpus / d);
    FitsIff(|b.hosted[i]| + 1, vcpus, d);
    OneMore(|b.hosted[i]| + 1, d);
    hide FirstFit; hide Roomiest;
  }

  lemma ShortUpdate(b: Bins, i: nat, cpus: nat, hosted: seq<seq<Worker>>)
    requires NoneShort(b) && i < |b.remaining| && b.remaining[i] >= cpus
    ensures NoneShort(Bins(b.remaining[i := b.remaining[i] - cpus], hosted))
  {
  }

  lemma NoneShortYet(n: nat, vcpus: nat)
    ensures NoneShort(Empty(n, vcpus))
  {
  }

  lemma LastOfSize(ws: seq<Worker>, z: Sizes, d: nat)
    requires AllOfSize(ws, z, d) && ws != []
    ensures z.Of(ws[|ws| - 1]) == d && AllOfSize(ws[..|ws| - 1], z, d)
  {
  }

  lemma {:induction false} WholeFit(n: nat, vcpus: nat, ws: seq<Worker>, z: Sizes, d: nat)
    requires n > 0 && d > 0 && AllOfSize(ws, z, d) && |ws| <= Whole(n, vcpus, d)
    ensures NoneShort(Pack(Empty(n, vcpus), ws, z))
  {
    hide *;
    if ws == [] {
      PackNone(Empty(n, vcpus), z);
      NoneShortYet(n, vcpus);
    } else {
      var k := |ws| - 1;
      LastOfSize(ws, z, d);
      WholeFit(n, vcpus, ws[..k], z, d);
      SameSizeBins(n, vcpus, ws[..k], z, d);
      var c := Pack(Empty(n, vcpus), ws[..k], z);
      OneSizeRoom(c, n, vcpus, d, k);
      PackAppend(Empty(n, vcpus), ws, z);
      ShortUpdate(c, Target(c.remaining, d), d, Pack(Empty(n, vcpus), ws, z).hosted);
    }
  }

  lemma SameSizeFits(n: nat, vcpus: nat, ws: seq<Worker>, z: Sizes, d: nat)
    requires n > 0 && d > 0 && AllOfSize(ws, z, d)
    ensures NoneShort(Pack(Empty(n, vcpus), ws, z)) <==> |ws| <= Whole(n, vcpus, d)
  {
    hide *;
    var b := Pack(Empty(n, vcpus), ws, z);
    SameSizeBins(n, vcpus, ws, z, d);
    if NoneShort(b) { OneSizeFitting(b, n, vcpus, d, |ws|); }
    if |ws| <= Whole(n, vcpus, d) { WholeFit(n, vcpus, ws, z, d); }
  }

  lemma NoneShortIff(b: Bins, z: Sizes, vcpus: nat)
    requires Balanced(b, z, vcpus)
    ensures NoneShort(b) <==> forall i | 0 <= i < |b.hosted| :: Need(b.hosted[i], z) <= vcpus
  {
    hide Need;
    if NoneShort(b) {
      forall i | 0 <= i < |b.hosted| ensures Need(b.hosted[i], z) <= vcpus { assert b.remaining[i] >= 0; }
    }
  }

  lemma JobsOfSize(builds: nat, sims: nat, z: Sizes, d: nat)
    requires (builds > 0 ==> z.build == d) && (sims > 0 ==> z.sim == d)
    ensures AllOfSize(Jobs(builds, sims), z, d)
  {
  }

  /** When all workers have one size, some instance is overloaded exactly when there are more workers than
      the planned instances hold whole. */
  lemma OneSizeExact(builds: nat, sims: nat, z: Sizes, vcpus: nat, d: nat)
    requires vcpus > 0 && d > 0 && (builds > 0 ==> z.build == d) && (sims > 0 ==> z.sim == d)
    ensures Provisioned(builds, sims, z, vcpus, None).Ok?
    ensures var n := InstanceCount(builds, sims, z, vcpus, None).value;
            var b := Provisioned(builds, sims, z, vcpus, None).value;
            && |b.hosted| == n
            && ((forall i | 0 <= i < n :: Need(b.hosted[i], z) <= vcpus) <==> builds + sims <= n * (vcpus / d))
  {
    Counted(builds, sims, z, vcpus);
    var n := InstanceCount(builds, sims, z, vcpus, None).value;
    var b := Pack(Empty(n, vcpus), Jobs(builds, sims), z);
    assert Whole(n, vcpus, d) == n * (vcpus / d);
    hide *;
    JobsOfSize(builds, sims, z, d);
    SameSizeFits(n, vcpus, Jobs(builds, sims), z, d);
    ProvisionedPack(builds, sims, z, vcpus, n);
    CpusConserved(builds, sims, z, vcpus, None);
    NoneShortIff(b, z, vcpus);
  }

  lemma ProvisionedPack(builds: nat, sims: nat, z: Sizes, vcpus: nat, n: nat)
    requires n > 0 && InstanceCount(builds, sims, z, vcpus, None) == Ok(n)
    ensures Provisioned(builds, sims, z, vcpus, None) == Ok(Pack(Empty(n, vcpus), Jobs(builds, sims), z))
  {
    if builds + sims == 0 {
      assert Jobs(builds, sims) == [];
      PackNone(Empty(n, vcpus), z);
    }
    hide InstanceCount; hide Pack; hide Jobs;
  }

  lemma Counted(builds: nat, sims: nat, z: Sizes, vcpus: nat)
    requires vcpus > 0
    ensures InstanceCount(builds, sims, z, vcpus, None).Ok? && InstanceCount(builds, sims, z, vcpus, None).value > 0
  {
  }
}
