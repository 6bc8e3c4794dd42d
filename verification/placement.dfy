/** Which machine each worker goes to: the greedy placement and how good it is. */
module Placement {

  import opened Results
  import opened Cluster
  import Tailnet

  /** `balance` is "worker" for a type spread over its own pool; anything else counts every type. */
  datatype NodeType = NodeType(name: string, workers: int, compatible: seq<string>, balance: string)

  // ---------------------------------------------------------------- what the placement must produce

  function Usable(compatible: seq<string>, workerIps: seq<string>): (pool: seq<string>)
    ensures forall ip :: ip in pool <==> ip in compatible && ip in workerIps
  {
    if compatible == [] then []
    else
      var n := |compatible| - 1;
      Usable(compatible[..n], workerIps) + (if compatible[n] in workerIps then [compatible[n]] else [])
  }

  ghost predicate FirstLeastAt(pool: seq<string>, ks: seq<Key>, ip: string, i: nat) {
    && i < |pool| && pool[i] == ip
    && (forall j | 0 <= j < |pool| :: CountOn(ks, ip) <= CountOn(ks, pool[j]))
    && (forall j | 0 <= j < i :: CountOn(ks, ip) < CountOn(ks, pool[j]))
  }

  /** `ip` is the first of the least loaded machines of the pool. */
  ghost predicate FirstLeast(pool: seq<string>, ks: seq<Key>, ip: string) {
    exists i: nat :: FirstLeastAt(pool, ks, ip, i)
  }

  /** min() with a key: the first least element. */
  function Pick(pool: seq<string>, ks: seq<Key>): string
    requires pool != []
  {
    if |pool| == 1 then pool[0]
    else
      var n := |pool| - 1;
      var best := Pick(pool[..n], ks);
      if CountOn(ks, pool[n]) < CountOn(ks, best) then pool[n] else best
  }

  /** The workers of one type: `own` says whether loads count this type only or all of `before` too. */
  function Fill(pool: seq<string>, before: seq<Key>, name: string, own: bool, n: nat): (ks: seq<Key>)
    requires pool != []
    ensures |ks| == n
  {
    if n == 0 then []
    else
      var ks := Fill(pool, before, name, own, n - 1);
      ks + [Key(Pick(pool, if own then ks else before + ks), name, n - 1)]
  }

  function Plan(types: seq<NodeType>, workerIps: seq<string>): Result<seq<Key>, string> {
    if types == [] then Ok([])
    else
      var t := types[|types| - 1];
      match Plan(types[..|types| - 1], workerIps)
      case Err(e) => Err(e)
      case Ok(before) =>
        if t.workers <= 0 then Ok(before)
        else if Usable(t.compatible, workerIps) == [] then Err(t.name)
        else Ok(before + Fill(Usable(t.compatible, workerIps), before, t.name, t.balance == "worker", t.workers))
  }

  // ---------------------------------------------------------------- the placement loop

  ghost predicate Counts(counter: map<string, nat>, ks: seq<Key>) {
    forall ip | ip in counter :: counter[ip] == CountOn(ks, ip)
  }

  ghost predicate Covers(counter: map<string, nat>, pool: seq<string>) {
    forall ip | ip in pool :: ip in counter
  }

  method Least(pool: seq<string>, counter: map<string, nat>, ghost ks: seq<Key>) returns (chosen: string)
    requires pool != [] && Covers(counter, pool) && Counts(counter, ks)
    ensures chosen == Pick(pool, ks) && chosen in counter && chosen in pool
  {
    chosen := pool[0];
    assert pool[..1] == [pool[0]];
    for j := 1 to |pool|
      invariant chosen in counter && chosen in pool && chosen == Pick(pool[..j], ks)
    {
      assert pool[..j + 1][..j] == pool[..j];
      if counter[pool[j]] < counter[chosen] { chosen := pool[j]; }
    }
    assert pool[..|pool|] == pool;
  }

  method AssignType(t: NodeType, pool: seq<string>, assignments: seq<Key>, nodesPerIp: map<string, nat>)
    returns (placed: seq<Key>, loads: map<string, nat>)
    requires t.workers > 0 && pool != [] && Covers(nodesPerIp, pool) && Counts(nodesPerIp, assignments)
    ensures placed == assignments + Fill(pool, assignments, t.name, t.balance == "worker", t.workers)
    ensures loads.Keys == nodesPerIp.Keys && Counts(loads, placed)
  {
    hide *;
    var local: map<string, nat> := map ip | ip in pool :: 0;
    placed, loads := assignments, nodesPerIp;
    ghost var ks: seq<Key> := [];
    FillNone(pool, assignments, t.name, t.balance == "worker");
    NoneYet(local, pool);
    assert assignments + [] == assignments;
    for i := 0 to t.workers
      invariant ks == Fill(pool, assignments, t.name, t.balance == "worker", i) && placed == assignments + ks
      invariant loads.Keys == nodesPerIp.Keys && Covers(loads, pool) && Counts(loads, placed)
      invariant t.balance == "worker" ==> Covers(local, pool) && Counts(local, ks)
    {
      FillNext(pool, assignments, t.name, t.balance == "worker", i);
      var chosen;
      if t.balance == "worker" {
        chosen := Least(pool, local, ks);
        CountsPut(local, pool, ks, Key(chosen, t.name, i));
        local := local[chosen := local[chosen] + 1];
        Covered(loads, pool, chosen);
      } else {
        chosen := Least(pool, loads, placed);
      }
      CountsPut(loads, pool, placed, Key(chosen, t.name, i));
      loads := loads[chosen := loads[chosen] + 1];
      assert assignments + (ks + [Key(chosen, t.name, i)]) == placed + [Key(chosen, t.name, i)];
      ks := ks + [Key(chosen, t.name, i)];
      placed := placed + [Key(chosen, t.name, i)];
    }
  }

  method UsableIps(compatible: seq<string>, workerIps: seq<string>) returns (pool: seq<string>)
    ensures pool == Usable(compatible, workerIps)
  {
    pool := [];
    for i := 0 to |compatible|
      invariant pool == Usable(compatible[..i], workerIps)
    {
      assert compatible[..i + 1][..i] == compatible[..i];
      if compatible[i] in workerIps { pool := pool + [compatible[i]]; }
    }
    assert compatible[..|compatible|] == compatible;
  }

  lemma FillNone(pool: seq<string>, before: seq<Key>, name: string, own: bool)
    requires pool != []
    ensures Fill(pool, before, name, own, 0) == []
  {
  }

  lemma NoneYet(counter: map<string, nat>, pool: seq<string>)
    requires forall ip :: ip in counter <==> ip in pool
    requires forall ip | ip in counter :: counter[ip] == 0
    ensures Covers(counter, pool) && Counts(counter, [])
  {
  }

  lemma FillNext(pool: seq<string>, before: seq<Key>, name: string, own: bool, i: nat)
    requires pool != []
    ensures var ks := Fill(pool, before, name, own, i);
            Fill(pool, before, name, own, i + 1) == ks + [Key(Pick(pool, if own then ks else before + ks), name, i)]
  {
  }

  lemma Covered(counter: map<string, nat>, pool: seq<string>, ip: string)
    requires Covers(counter, pool) && ip in pool
    ensures ip in counter
  {
  }

  lemma CountsPut(counter: map<string, nat>, pool: seq<string>, ks: seq<Key>, k: Key)
    requires Counts(counter, ks) && Covers(counter, pool) && k.ip in counter
    ensures Counts(counter[k.ip := counter[k.ip] + 1], ks + [k])
    ensures Covers(counter[k.ip := counter[k.ip] + 1], pool)
  {
    forall ip | ip in counter { CountOnSnoc(ks, k, ip); }
    hide CountOn;
  }

  /** Every type's workers, in the order of the types; the error names the type without a usable machine. */
  method AssignNodes(types: seq<NodeType>, workerIps: seq<string>) returns (r: Result<seq<Key>, string>)
    ensures r == Plan(types, workerIps)
  {
    var nodesPerIp: map<string, nat> := map ip | ip in workerIps :: 0;
    var assignments: seq<Key> := [];
    for i := 0 to |types|
      invariant Plan(types[..i], workerIps) == Ok(assignments)
      invariant (forall ip | ip in workerIps :: ip in nodesPerIp) && Counts(nodesPerIp, assignments)
    {
      PlanStep(types, workerIps, i);
      var t := types[i];
      if t.workers > 0 {
        var usable := UsableIps(t.compatible, workerIps);
        if |usable| == 0 {
          PlanStops(types, workerIps, i + 1);
          return Err(t.name);
        }
        assignments, nodesPerIp := AssignType(t, usable, assignments, nodesPerIp);
      }
    }
    assert types[..|types|] == types;
    r := Ok(assignments);
  }

  lemma PlanStep(types: seq<NodeType>, workerIps: seq<string>, i: nat)
    requires i < |types| && Plan(types[..i], workerIps).Ok?
    ensures var before, t := Plan(types[..i], workerIps).value, types[i];
            Plan(types[..i + 1], workerIps) ==
              if t.workers <= 0 then Ok(before)
              else if Usable(t.compatible, workerIps) == [] then Err(t.name)
              else Ok(before + Fill(Usable(t.compatible, workerIps), before, t.name, t.balance == "worker", t.workers))
  {
    assert types[..i + 1][..i] == types[..i];
  }

  /** A failure is final. */
  lemma {:induction false} PlanStops(types: seq<NodeType>, workerIps: seq<string>, i: nat)
    requires i <= |types| && Plan(types[..i], workerIps).Err?
    ensures Plan(types, workerIps) == Plan(types[..i], workerIps)
    decreases |types| - i
  {
    if i == |types| {
      assert types[..i] == types;
    } else {
      assert types[..i + 1][..i] == types[..i];
      PlanStops(types, workerIps, i + 1);
    }
  }

  lemma PlanPrefix(types: seq<NodeType>, workerIps: seq<string>, i: nat)
    requires i <= |types| && Plan(types, workerIps).Ok?
    ensures Plan(types[..i], workerIps).Ok?
  {
    if Plan(types[..i], workerIps).Err? { PlanStops(types, workerIps, i); }
  }

  // ---------------------------------------------------------------- when it fails, and what it places

  predicate Homeless(t: NodeType, workerIps: seq<string>) {
    t.workers > 0 && forall ip | ip in t.compatible :: ip !in workerIps
  }

  lemma HomelessIs(t: NodeType, workerIps: seq<string>)
    ensures Homeless(t, workerIps) <==> t.workers > 0 && Usable(t.compatible, workerIps) == []
  {
    var pool := Usable(t.compatible, workerIps);
    if pool != [] { assert pool[0] in pool; }
  }

  /** Placement fails exactly when some type that wants workers has no usable machine, and the error
      names the first such type. */
  lemma {:induction false} FailsIffHomeless(types: seq<NodeType>, workerIps: seq<string>)
    ensures Plan(types, workerIps).Err? <==> exists i | 0 <= i < |types| :: Homeless(types[i], workerIps)
    ensures Plan(types, workerIps).Err? ==>
              exists i | 0 <= i < |types| ::
                Homeless(types[i], workerIps) && Plan(types, workerIps).error == types[i].name
                && forall j | 0 <= j < i :: !Homeless(types[j], workerIps)
  {
    hide Homeless; hide Usable; hide Fill;
    if types != [] {
      var n := |types| - 1;
      FailsIffHomeless(types[..n], workerIps);
      HomelessIs(types[n], workerIps);
      assert forall i | 0 <= i < n :: types[..n][i] == types[i];
      if Plan(types[..n], workerIps).Err? {
        var i :| 0 <= i < n && Homeless(types[..n][i], workerIps)
          && Plan(types[..n], workerIps).error == types[..n][i].name
                 && forall j | 0 <= j < i :: !Homeless(types[..n][j], workerIps);
        assert Homeless(types[i], workerIps) && forall j | 0 <= j < i :: !Homeless(types[j], workerIps);
      }
    }
  }

  lemma PickIs(pool: seq<string>, ks: seq<Key>)
    requires pool != []
    ensures var n := |pool| - 1;
            Pick(pool, ks) == if n == 0 then pool[0]
                              else if CountOn(ks, pool[n]) < CountOn(ks, Pick(pool[..n], ks)) then pool[n]
                              else Pick(pool[..n], ks)
  {
    hide CountOn;
  }

  lemma FirstLeastSnoc(pool: seq<string>, ks: seq<Key>, best: string, i: nat)
    requires |pool| > 1 && FirstLeastAt(pool[..|pool| - 1], ks, best, i)
    ensures var n := |pool| - 1;
            if CountOn(ks, pool[n]) < CountOn(ks, best) then FirstLeastAt(pool, ks, pool[n], n)
            else FirstLeastAt(pool, ks, best, i)
  {
    hide CountOn;
    var n := |pool| - 1;
    assert forall j | 0 <= j < n :: pool[..n][j] == pool[j];
  }

  lemma FirstLeastOne(ip: string, ks: seq<Key>)
    ensures FirstLeastAt([ip], ks, ip, 0)
  {
    hide CountOn;
  }

  /** Pick is the first least loaded machine. */
  lemma {:induction false} PickIsFirstLeast(pool: seq<string>, ks: seq<Key>)
    requires pool != []
    ensures FirstLeast(pool, ks, Pick(pool, ks))
  {
    hide CountOn; hide Pick; hide FirstLeastAt;
    var n := |pool| - 1;
    PickIs(pool, ks);
    if n == 0 {
      FirstLeastOne(pool[0], ks);
      assert pool == [pool[0]];
    } else {
      PickIsFirstLeast(pool[..n], ks);
      var best := Pick(pool[..n], ks);
      var i: nat :| FirstLeastAt(pool[..n], ks, best, i);
      FirstLeastSnoc(pool, ks, best, i);
    }
  }

  lemma PickLeast(pool: seq<string>, ks: seq<Key>)
    requires pool != []
    ensures Pick(pool, ks) in pool
    ensures forall ip | ip in pool :: CountOn(ks, Pick(pool, ks)) <= CountOn(ks, ip)
  {
    hide CountOn; hide Pick;
    PickIsFirstLeast(pool, ks);
  }

  /** One type's workers are numbered in order and all on its pool. */
  lemma {:induction false} FillIs(pool: seq<string>, before: seq<Key>, name: string, own: bool, n: nat, j: nat)
    requires pool != [] && j < n
    ensures var k := Fill(pool, before, name, own, n)[j];
            k.nodeType == name && k.index == j && k.ip in pool
  {
    if j < n - 1 {
      FillIs(pool, before, name, own, n - 1, j);
    } else {
      var ks := Fill(pool, before, name, own, n - 1);
      PickLeast(pool, if own then ks else before + ks);
      hide Pick;
    }
  }

  /** A key belongs to its type: compatible machine in the worker pool, index below the type's count. */
  predicate KeyOf(k: Key, t: NodeType, workerIps: seq<string>) {
    k.nodeType == t.name && k.index < t.workers && k.ip in t.compatible && k.ip in workerIps
  }

  function Wanted(types: seq<NodeType>): nat {
    if types == [] then 0
    else Wanted(types[..|types| - 1]) + (if types[|types| - 1].workers > 0 then types[|types| - 1].workers else 0)
  }

  ghost predicate DistinctNames(types: seq<NodeType>) {
    forall i, j | 0 <= i < j < |types| :: types[i].name != types[j].name
  }

  /** Exactly the wanted number of workers is placed, each on a compatible machine of the pool. */
  lemma {:induction false} PlacesAll(types: seq<NodeType>, workerIps: seq<string>)
    requires Plan(types, workerIps).Ok?
    ensures |Plan(types, workerIps).value| == Wanted(types)
    ensures forall j | 0 <= j < |Plan(types, workerIps).value| ::
              exists i | 0 <= i < |types| :: KeyOf(Plan(types, workerIps).value[j], types[i], workerIps)
  {
    if types != [] {
      var n := |types| - 1;
      var t := types[n];
      PlacesAll(types[..n], workerIps);
      var before, ks := Plan(types[..n], workerIps).value, Plan(types, workerIps).value;
      assert forall i | 0 <= i < n :: types[..n][i] == types[i];
      hide KeyOf; hide Usable; hide Fill;
      forall j | 0 <= j < |ks| ensures exists i | 0 <= i < |types| :: KeyOf(ks[j], types[i], workerIps) {
        if j < |before| {
          var i :| 0 <= i < n && KeyOf(before[j], types[..n][i], workerIps);
          assert KeyOf(ks[j], types[i], workerIps);
        } else {
          NewKey(types, workerIps, j);
        }
      }
    }
  }

  lemma NewKey(types: seq<NodeType>, workerIps: seq<string>, j: nat)
    requires types != [] && Plan(types, workerIps).Ok? && Plan(types[..|types| - 1], workerIps).Ok?
    requires |Plan(types[..|types| - 1], workerIps).value| <= j < |Plan(types, workerIps).value|
    ensures KeyOf(Plan(types, workerIps).value[j], types[|types| - 1], workerIps)
    ensures Plan(types, workerIps).value[j].index == j - |Plan(types[..|types| - 1], workerIps).value|
  {
    hide Fill; hide Usable;
    var t := types[|types| - 1];
    var before := Plan(types[..|types| - 1], workerIps).value;
    FillIs(Usable(t.compatible, workerIps), before, t.name, t.balance == "worker", t.workers, j - |before|);
  }

  /** Type names being distinct, as dictionary keys are, no two workers share type and index. */
  lemma {:induction false} PlanDistinct(types: seq<NodeType>, workerIps: seq<string>)
    requires Plan(types, workerIps).Ok? && DistinctNames(types)
    ensures DistinctKeys(Plan(types, workerIps).value)
  {
    if types != [] {
      var n := |types| - 1;
      PlanDistinct(types[..n], workerIps);
      PlacesAll(types[..n], workerIps);
      var before, ks := Plan(types[..n], workerIps).value, Plan(types, workerIps).value;
      hide Fill; hide Usable; hide Wanted;
      forall i, j | 0 <= i < j < |ks| ensures ks[i] != ks[j] {
        assert i < |before| ==> ks[i] == before[i];
        if j >= |before| {
          NewKey(types, workerIps, j);
          if i >= |before| {
            NewKey(types, workerIps, i);
          } else {
            var q :| 0 <= q < n && KeyOf(before[i], types[..n][q], workerIps);
            assert types[q].name != types[n].name;
          }
        } else {
          assert ks[j] == before[j];
        }
      }
    }
  }

  // ---------------------------------------------------------------- balance

  function Ips(ks: seq<Key>): (ips: seq<string>)
    ensures |ips| == |ks|
  {
    if ks == [] then [] else Ips(ks[..|ks| - 1]) + [ks[|ks| - 1].ip]
  }

  lemma {:induction false} CountIsMultiplicity(ks: seq<Key>, ip: string)
    ensures CountOn(ks, ip) == multiset(Ips(ks))[ip]
  {
    if ks != [] { CountIsMultiplicity(ks[..|ks| - 1], ip); }
  }

  lemma {:induction false} CountOnAppend(a: seq<Key>, b: seq<Key>, ip: string)
    ensures CountOn(a + b, ip) == CountOn(a, ip) + CountOn(b, ip)
  {
    if b == [] {
      assert a + b == a;
    } else {
      var n := |b| - 1;
      CountOnAppend(a, b[..n], ip);
      assert (a + b)[..|a| + n] == a + b[..n];
    }
  }

  /** The loads the type looks at while it is being placed. */
  function Base(before: seq<Key>, own: bool): seq<Key> {
    if own then [] else before
  }

  /** Water filling: a machine that received a worker ends at most one above every other. */
  lemma {:induction false} Level(pool: seq<string>, before: seq<Key>, name: string, own: bool, n: nat, x: string,
                                 y: string)
    requires pool != [] && x in pool && y in pool
    requires CountOn(Fill(pool, before, name, own, n), x) > 0
    ensures CountOn(Base(before, own), x) + CountOn(Fill(pool, before, name, own, n), x)
            <= CountOn(Base(before, own), y) + CountOn(Fill(pool, before, name, own, n), y) + 1
  {
    if n > 0 {
      var ks := Fill(pool, before, name, own, n - 1);
      var seen := if own then ks else before + ks;
      var k := Key(Pick(pool, seen), name, n - 1);
      assert Fill(pool, before, name, own, n) == ks + [k];
      CountOnSnoc(ks, k, x);
      CountOnSnoc(ks, k, y);
      CountOnAppend(before, ks, x);
      CountOnAppend(before, ks, y);
      PickLeast(pool, seen);
      hide Fill; hide Pick;
      if k.ip != x { Level(pool, before, name, own, n - 1, x, y); }
    }
  }

  /** Any other way to put the type's workers on its pool. */
  ghost predicate Alternative(alt: seq<string>, pool: seq<string>, n: nat) {
    |alt| == n && forall ip | ip in alt :: ip in pool
  }

  /** The load of a machine once `alt` is added to what it already has. */
  function LoadWith(base: seq<Key>, alt: seq<string>, ip: string): nat {
    CountOn(base, ip) + multiset(alt)[ip]
  }

  lemma SmallerMultiset(a: multiset<string>, b: multiset<string>, x: string)
    requires a <= b && a[x] < b[x]
    ensures |a| < |b|
  {
    assert b == a + (b - a);
    assert (b - a)[x] > 0;
    assert x in b - a;
  }

  /** Two lists over one pool of the same length: if one has no fewer of every machine, they agree. */
  lemma SameCounts(a: seq<string>, b: seq<string>, pool: seq<string>, x: string)
    requires |a| == |b| && (forall ip | ip in a :: ip in pool)
    requires forall ip | ip in pool :: multiset(a)[ip] <= multiset(b)[ip]
    ensures multiset(a)[x] == multiset(b)[x]
  {
    forall ip ensures multiset(a)[ip] <= multiset(b)[ip] {
      if ip !in pool { assert ip !in a && ip !in multiset(a); }
    }
    if multiset(a)[x] < multiset(b)[x] {
      SmallerMultiset(multiset(a), multiset(b), x);
      assert false;
    }
  }

  lemma {:induction false} IpsInPool(pool: seq<string>, before: seq<Key>, name: string, own: bool, n: nat)
    requires pool != []
    ensures forall ip | ip in Ips(Fill(pool, before, name, own, n)) :: ip in pool
  {
    if n > 0 {
      IpsInPool(pool, before, name, own, n - 1);
      var ks := Fill(pool, before, name, own, n - 1);
      PickLeast(pool, if own then ks else before + ks);
      hide Pick;
    }
  }

  ghost predicate AllAtMost(base: seq<Key>, alt: seq<string>, pool: seq<string>, bound: nat) {
    forall ip | ip in pool :: LoadWith(base, alt, ip) <= bound
  }

  ghost predicate AllAtLeast(base: seq<Key>, alt: seq<string>, pool: seq<string>, bound: nat) {
    forall ip | ip in pool :: LoadWith(base, alt, ip) >= bound
  }

  lemma LevelLoads(pool: seq<string>, before: seq<Key>, name: string, own: bool, n: nat, x: string, y: string)
    requires pool != [] && x in pool && y in pool
    ensures var base, g := Base(before, own), Ips(Fill(pool, before, name, own, n));
            && (multiset(g)[x] > 0 ==> LoadWith(base, g, x) <= LoadWith(base, g, y) + 1)
  {
    var ks := Fill(pool, before, name, own, n);
    CountIsMultiplicity(ks, x);
    CountIsMultiplicity(ks, y);
    hide Fill; hide Base;
    if CountOn(ks, x) > 0 { Level(pool, before, name, own, n, x, y); }
  }

  /** No other placement of the type's workers over its pool has a smaller maximum load, or a larger
      minimum load. */
  lemma NoBetterPlacement(pool: seq<string>, before: seq<Key>, name: string, own: bool, n: nat, alt: seq<string>,
                          bound: nat)
    requires pool != [] && Alternative(alt, pool, n)
    ensures AllAtMost(Base(before, own), alt, pool, bound)
            ==> AllAtMost(Base(before, own), Ips(Fill(pool, before, name, own, n)), pool, bound)
    ensures AllAtLeast(Base(before, own), alt, pool, bound)
            ==> AllAtLeast(Base(before, own), Ips(Fill(pool, before, name, own, n)), pool, bound)
  {
    var base, g := Base(before, own), Ips(Fill(pool, before, name, own, n));
    IpsInPool(pool, before, name, own, n);
    forall x, y | x in pool && y in pool
      ensures multiset(g)[x] > 0 ==> LoadWith(base, g, x) <= LoadWith(base, g, y) + 1
    {
      LevelLoads(pool, before, name, own, n, x, y);
    }
    hide Base; hide Ips; hide Fill; hide CountOn;
    BestMaximum(base, g, alt, pool, bound);
    BestMinimum(base, g, alt, pool, bound);
  }

  ghost predicate Levelled(base: seq<Key>, g: seq<string>, pool: seq<string>) {
    forall x, y | x in pool && y in pool :: multiset(g)[x] > 0 ==> LoadWith(base, g, x) <= LoadWith(base, g, y) + 1
  }

  lemma BestMaximum(base: seq<Key>, g: seq<string>, alt: seq<string>, pool: seq<string>, bound: nat)
    requires |alt| == |g| && (forall ip | ip in alt :: ip in pool) && Levelled(base, g, pool)
    ensures AllAtMost(base, alt, pool, bound) ==> AllAtMost(base, g, pool, bound)
  {
    hide CountOn;
    if AllAtMost(base, alt, pool, bound) {
      forall x | x in pool ensures LoadWith(base, g, x) <= bound {
        assert LoadWith(base, alt, x) <= bound;
        if LoadWith(base, g, x) > bound {
          forall y | y in pool ensures multiset(alt)[y] <= multiset(g)[y] {
            assert LoadWith(base, alt, y) <= bound <= LoadWith(base, g, y);
          }
          SameCounts(alt, g, pool, x);
          assert false;
        }
      }
    }
  }

  lemma BestMinimum(base: seq<Key>, g: seq<string>, alt: seq<string>, pool: seq<string>, bound: nat)
    requires |alt| == |g| && (forall ip | ip in g :: ip in pool) && Levelled(base, g, pool)
    ensures AllAtLeast(base, alt, pool, bound) ==> AllAtLeast(base, g, pool, bound)
  {
    hide CountOn;
    if AllAtLeast(base, alt, pool, bound) {
      forall y | y in pool ensures LoadWith(base, g, y) >= bound {
        assert LoadWith(base, alt, y) >= bound;
        if LoadWith(base, g, y) < bound {
          forall x | x in pool ensures multiset(g)[x] <= multiset(alt)[x] {
            assert LoadWith(base, alt, x) >= bound;
            if multiset(g)[x] > 0 { assert LoadWith(base, g, x) <= LoadWith(base, g, y) + 1; }
          }
          SameCounts(g, alt, pool, y);
          assert false;
        }
      }
    }
  }

  /** The i-th type's pool and the workers placed before it and for it. */
  function PoolOf(types: seq<NodeType>, workerIps: seq<string>, i: nat): seq<string>
    requires i < |types|
  {
    Usable(types[i].compatible, workerIps)
  }

  /** Every type in a successful plan is levelled and no other placement of its workers over its usable
      machines is better: over all the load so far, or, for a "worker" type, over its own workers. */
  lemma PlanBalanced(types: seq<NodeType>, workerIps: seq<string>, i: nat)
    requires Plan(types, workerIps).Ok? && i < |types| && types[i].workers > 0
    ensures Plan(types[..i], workerIps).Ok? && Plan(types[..i + 1], workerIps).Ok?
    ensures Plan(types[..i], workerIps).value <= Plan(types[..i + 1], workerIps).value
    ensures var before, after := Plan(types[..i], workerIps).value, Plan(types[..i + 1], workerIps).value;
            var placed := Ips(after[|before|..]);
            var base, pool := Base(before, types[i].balance == "worker"), PoolOf(types, workerIps, i);
            && Levelled(base, placed, pool)
            && forall alt, bound: nat | Alternative(alt, pool, types[i].workers) ::
                 (AllAtMost(base, alt, pool, bound) ==> AllAtMost(base, placed, pool, bound))
                 && (AllAtLeast(base, alt, pool, bound) ==> AllAtLeast(base, placed, pool, bound))
  {
    PlanPrefix(types, workerIps, i);
    PlanPrefix(types, workerIps, i + 1);
    PlanStep(types, workerIps, i);
    var t := types[i];
    var before, after := Plan(types[..i], workerIps).value, Plan(types[..i + 1], workerIps).value;
    var pool, own := PoolOf(types, workerIps, i), t.balance == "worker";
    hide Fill; hide Plan; hide Base; hide Ips; hide Alternative; hide AllAtMost; hide AllAtLeast; hide LoadWith;
    assert after[|before|..] == Fill(pool, before, t.name, own, t.workers);
    forall x, y | x in pool && y in pool { LevelLoads(pool, before, t.name, own, t.workers, x, y); }
    forall alt, bound: nat | Alternative(alt, pool, t.workers) {
      NoBetterPlacement(pool, before, t.name, own, t.workers, alt, bound);
    }
  }

  // ---------------------------------------------------------------- whom a tie favours

  /** `ip` is the m-th machine the type is compatible with, and a worker's. No machine the type could use has a smaller
      load, and those named before it have larger ones. */
  ghost predicate EarliestAt(compatible: seq<string>, workerIps: seq<string>, seen: seq<Key>, ip: string, m: nat) {
    && m < |compatible| && compatible[m] == ip && ip in workerIps
    && forall k | 0 <= k < |compatible| && compatible[k] in workerIps ::
         && CountOn(seen, ip) <= CountOn(seen, compatible[k])
         && (k < m ==> CountOn(seen, ip) < CountOn(seen, compatible[k]))
  }

  lemma UsableSnoc(compatible: seq<string>, workerIps: seq<string>)
    requires compatible != []
    ensures var n := |compatible| - 1;
            Usable(compatible, workerIps)
            == if compatible[n] in workerIps then Usable(compatible[..n], workerIps) + [compatible[n]]
               else Usable(compatible[..n], workerIps)
  {
  }

  lemma UsableNone(workerIps: seq<string>)
    ensures Usable([], workerIps) == []
  {
  }

  lemma EarliestSnoc(compatible: seq<string>, workerIps: seq<string>, seen: seq<Key>, ip: string, m: nat, last: string)
    requires EarliestAt(compatible, workerIps, seen, ip, m)
    ensures !(last in workerIps && CountOn(seen, last) < CountOn(seen, ip))
            ==> EarliestAt(compatible + [last], workerIps, seen, ip, m)
    ensures last in workerIps && CountOn(seen, last) < CountOn(seen, ip)
            ==> EarliestAt(compatible + [last], workerIps, seen, last, |compatible|)
  {
    hide CountOn;
    var all := compatible + [last];
    assert forall k | 0 <= k < |compatible| :: all[k] == compatible[k];
    assert all[m] == ip && all[|compatible|] == last;
  }

  lemma EarliestFirst(compatible: seq<string>, workerIps: seq<string>, seen: seq<Key>, last: string)
    requires Usable(compatible, workerIps) == [] && last in workerIps
    ensures EarliestAt(compatible + [last], workerIps, seen, last, |compatible|)
  {
    hide CountOn; hide Usable;
    var all := compatible + [last];
    forall k | 0 <= k < |compatible| ensures all[k] == compatible[k] && all[k] !in workerIps {
      assert compatible[k] !in Usable(compatible, workerIps);
    }
    assert all[|compatible|] == last;
  }

  lemma PickSnoc(pool: seq<string>, last: string, ks: seq<Key>)
    ensures Pick(pool + [last], ks)
            == if pool == [] then last
               else if CountOn(ks, last) < CountOn(ks, Pick(pool, ks)) then last else Pick(pool, ks)
  {
    PickIs(pool + [last], ks);
    assert (pool + [last])[..|pool|] == pool;
    hide Pick; hide CountOn;
  }

  lemma {:induction false} PickEarliest(compatible: seq<string>, workerIps: seq<string>, seen: seq<Key>)
    returns (m: nat)
    requires Usable(compatible, workerIps) != []
    ensures EarliestAt(compatible, workerIps, seen, Pick(Usable(compatible, workerIps), seen), m)
  {
    hide *;
    UsableNone(workerIps);
    UsableSnoc(compatible, workerIps);
    var n := |compatible| - 1;
    var rest, last := compatible[..n], compatible[n];
    var pool := Usable(rest, workerIps);
    assert compatible == rest + [last];
    PickSnoc(pool, last, seen);
    if pool == [] {
      m := n;
      EarliestFirst(rest, workerIps, seen, last);
      assert Usable(compatible, workerIps) == [last] == pool + [last];
    } else {
      m := PickEarliest(rest, workerIps, seen);
      EarliestSnoc(rest, workerIps, seen, Pick(pool, seen), m, last);
      if last in workerIps && CountOn(seen, last) < CountOn(seen, Pick(pool, seen)) { m := n; }
    }
  }

  /** The workers placed first stay the first of the filling. */
  lemma {:induction false} FillAt(pool: seq<string>, before: seq<Key>, name: string, own: bool, all: nat, n: nat)
    requires pool != [] && n < all
    ensures var ks := Fill(pool, before, name, own, all);
            ks[..n] == Fill(pool, before, name, own, n)
            && ks[n] == Key(Pick(pool, if own then ks[..n] else before + ks[..n]), name, n)
  {
    hide Pick; hide Fill;
    FillNext(pool, before, name, own, all - 1);
    if n < all - 1 { FillAt(pool, before, name, own, all - 1, n); }
    var ks, shorter := Fill(pool, before, name, own, all), Fill(pool, before, name, own, all - 1);
    assert ks[..n] == shorter[..n] && ks[..all - 1] == shorter;
  }

  /** Later types add at the end. */
  lemma {:induction false} PlanGrows(types: seq<NodeType>, workerIps: seq<string>, i: nat)
    requires Plan(types, workerIps).Ok? && i <= |types|
    ensures Plan(types[..i], workerIps).Ok? && Plan(types[..i], workerIps).value <= Plan(types, workerIps).value
    decreases |types| - i
  {
    hide *;
    PlanPrefix(types, workerIps, i);
    if i == |types| {
      assert types[..i] == types;
    } else {
      PlanPrefix(types, workerIps, i + 1);
      PlanStep(types, workerIps, i);
      PlanGrows(types, workerIps, i + 1);
    }
  }

  lemma LaterPart(before: seq<Key>, ks: seq<Key>, all: seq<Key>, n: nat)
    requires before + ks <= all && n < |ks|
    ensures |before| + n < |all| && all[|before| + n] == ks[n]
    ensures all[|before|..|before| + n] == ks[..n] && all[..|before| + n] == before + ks[..n]
  {
    assert all[..|before + ks|] == before + ks;
    assert forall q | 0 <= q < |before| + |ks| :: all[q] == (before + ks)[q];
  }

  lemma WantedLength(types: seq<NodeType>, workerIps: seq<string>)
    requires Plan(types, workerIps).Ok?
    ensures |Plan(types, workerIps).value| == Wanted(types)
  {
    PlacesAll(types, workerIps);
  }

  /** The plan, worker by worker: the n-th worker of the i-th type goes to a machine with the least load among those
      the type could use, and of these to the one its list names first. Loads are over the workers placed so far, or,
      for a "worker" type, over those of its own. */
  lemma TiesGoToTheFirst(types: seq<NodeType>, workerIps: seq<string>, i: nat, n: nat) returns (m: nat)
    requires Plan(types, workerIps).Ok? && i < |types| && n < types[i].workers
    ensures var plan, first := Plan(types, workerIps).value, Wanted(types[..i]);
            && first + n < |plan| && m < |types[i].compatible|
            && plan[first + n] == Key(types[i].compatible[m], types[i].name, n)
            && EarliestAt(types[i].compatible, workerIps,
                          if types[i].balance == "worker" then plan[first..first + n] else plan[..first + n],
                          types[i].compatible[m], m)
  {
    hide *;
    var t, plan := types[i], Plan(types, workerIps).value;
    PlanPrefix(types, workerIps, i);
    PlanPrefix(types, workerIps, i + 1);
    PlanGrows(types, workerIps, i + 1);
    WantedLength(types[..i], workerIps);
    PlanStep(types, workerIps, i);
    var before, pool, own := Plan(types[..i], workerIps).value, Usable(t.compatible, workerIps), t.balance == "worker";
    var ks := Fill(pool, before, t.name, own, t.workers);
    FillAt(pool, before, t.name, own, t.workers, n);
    LaterPart(before, ks, plan, n);
    m := PickEarliest(t.compatible, workerIps, if own then ks[..n] else before + ks[..n]);
    EarliestIs(t.compatible, workerIps, if own then ks[..n] else before + ks[..n], ks[n].ip, m);
  }

  lemma EarliestIs(compatible: seq<string>, workerIps: seq<string>, seen: seq<Key>, ip: string, m: nat)
    requires EarliestAt(compatible, workerIps, seen, ip, m)
    ensures m < |compatible| && compatible[m] == ip
  {
  }

  // ---------------------------------------------------------------- conservation

  function TotalLoad(ips: seq<string>, ks: seq<Key>): nat {
    if ips == [] then 0 else TotalLoad(ips[..|ips| - 1], ks) + CountOn(ks, ips[|ips| - 1])
  }

  ghost predicate DistinctIps(ips: seq<string>) {
    forall i, j | 0 <= i < j < |ips| :: ips[i] != ips[j]
  }

  lemma {:induction false} TotalStep(ips: seq<string>, ks: seq<Key>, k: Key)
    requires DistinctIps(ips)
    ensures TotalLoad(ips, ks + [k]) == TotalLoad(ips, ks) + (if k.ip in ips then 1 else 0)
  {
    if ips != [] {
      var n := |ips| - 1;
      TotalStep(ips[..n], ks, k);
      CountOnSnoc(ks, k, ips[n]);
      assert ips == ips[..n] + [ips[n]];
    }
  }

  /** The loads of the worker machines add up to the workers placed. */
  lemma {:induction false} LoadsAddUp(ips: seq<string>, ks: seq<Key>)
    requires DistinctIps(ips) && forall j | 0 <= j < |ks| :: ks[j].ip in ips
    ensures TotalLoad(ips, ks) == |ks|
  {
    if ks == [] {
      NoLoad(ips);
    } else {
      var n := |ks| - 1;
      LoadsAddUp(ips, ks[..n]);
      TotalStep(ips, ks[..n], ks[n]);
      assert ks == ks[..n] + [ks[n]];
    }
  }

  lemma {:induction false} NoLoad(ips: seq<string>)
    ensures TotalLoad(ips, []) == 0
  {
    if ips != [] { NoLoad(ips[..|ips| - 1]); }
  }

  /** Conservation: after any successful placement the machines' loads sum to the workers asked for. */
  lemma PlanConserves(types: seq<NodeType>, workerIps: seq<string>)
    requires Plan(types, workerIps).Ok? && DistinctIps(workerIps)
    ensures TotalLoad(workerIps, Plan(types, workerIps).value) == Wanted(types)
  {
    PlacesAll(types, workerIps);
    LoadsAddUp(workerIps, Plan(types, workerIps).value);
  }

  // ---------------------------------------------------------------- placement feeds the tailnet allocator

  /** What configuration checks for a tailnet cluster: workers only on tailnet machines or the head's. */
  ghost predicate TailnetOnly(h: Tailnet.Hosts, workerIps: seq<string>) {
    forall ip | ip in workerIps :: ip in h.tailnet || ip == h.headIp
  }

  lemma {:induction false} EveryoneParticipates(h: Tailnet.Hosts, ks: seq<Key>)
    requires forall j | 0 <= j < |ks| :: Tailnet.Participates(h, ks[j])
    ensures Tailnet.Participants(h, ks) == ks
  {
    if ks != [] { EveryoneParticipates(h, ks[..|ks| - 1]); }
  }

  lemma PlacedParticipate(types: seq<NodeType>, workerIps: seq<string>, h: Tailnet.Hosts)
    requires Plan(types, workerIps).Ok? && TailnetOnly(h, workerIps)
    ensures Tailnet.Participants(h, Plan(types, workerIps).value) == Plan(types, workerIps).value
  {
    var ks := Plan(types, workerIps).value;
    PlacesAll(types, workerIps);
    hide Plan; hide Wanted;
    forall j | 0 <= j < |ks| ensures Tailnet.Participates(h, ks[j]) {
      var i :| 0 <= i < |types| && KeyOf(ks[j], types[i], workerIps);
    }
    EveryoneParticipates(h, ks);
  }

  /** From the configuration to the network: every placed worker gets exactly one allocation, in order,
      and the allocations are safe. */
  lemma PlanAllocates(types: seq<NodeType>, workerIps: seq<string>, tn: Tailnet.TailnetConfig, h: Tailnet.Hosts,
                      rows: seq<Tailnet.Row>)
    requires Plan(types, workerIps).Ok? && DistinctNames(types) && TailnetOnly(h, workerIps)
    requires Tailnet.ConfigError(tn).None?
    requires Tailnet.RowsOf(rows, tn, h, Tailnet.Participants(h, Plan(types, workerIps).value))
    ensures |rows| == |Plan(types, workerIps).value| == Wanted(types)
    ensures forall j | 0 <= j < |rows| :: rows[j].key == Plan(types, workerIps).value[j]
    ensures Tailnet.Safe(tn, h, rows)
  {
    var ks := Plan(types, workerIps).value;
    PlanDistinct(types, workerIps);
    PlacesAll(types, workerIps);
    PlacedParticipate(types, workerIps, h);
    Tailnet.AllocationSafe(tn, h, ks, rows);
    hide Plan; hide Wanted; hide DistinctKeys; hide Tailnet.Safe; hide Tailnet.StopOf;
    forall j | 0 <= j < |rows| ensures rows[j].key == ks[j] {
      assert rows[j] == Tailnet.RowOf(tn, h, ks, j);
    }
  }
}
