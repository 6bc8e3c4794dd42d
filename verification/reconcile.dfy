/** Adding workers to a running cluster: which of the desired ones are not there yet. */
module Reconcile {

  import opened Results
  import opened Cluster
  import opened ScopedStop

  datatype Worker = Worker(key: Key, resources: map<string, real>)

  datatype RayNode = RayNode(name: string, alive: bool, resources: map<string, real>)

  /** Resolved address and custom resources; comparing sorted items is comparing the maps. */
  datatype MatchKey = MatchKey(ip: string, custom: map<string, real>)

  /** Name resolution and the tunnel addresses of tunneled workers. */
  datatype Names = Names(lookup: string -> Option<string>, tunnels: map<Key, string>)

  // ---------------------------------------------------------------- matching

  predicate Automatic(resource: string) {
    || resource in ["CPU", "memory", "object_store_memory"]
    || StartsWith(resource, "node:") || StartsWith(resource, "accelerator_type:")
  }

  function CustomResources(resources: map<string, real>): map<string, real> {
    map r | r in resources && !Automatic(r) :: resources[r]
  }

  function MakeMatchKey(n: Names, ip: string, resources: map<string, real>): MatchKey {
    MatchKey(match n.lookup(ip) case Some(a) => a case None => ip, CustomResources(resources))
  }

  function KeyOf(n: Names, w: Worker): MatchKey {
    MakeMatchKey(n, if w.key in n.tunnels then n.tunnels[w.key] else w.key.ip, w.resources)
  }

  function Keys(n: Names, ws: seq<Worker>): (ks: seq<MatchKey>)
    ensures |ks| == |ws|
  {
    if ws == [] then [] else Keys(n, ws[..|ws| - 1]) + [KeyOf(n, ws[|ws| - 1])]
  }

  /** How often a key occurs. */
  function Times(ks: seq<MatchKey>, k: MatchKey): nat {
    if ks == [] then 0 else Times(ks[..|ks| - 1], k) + (if ks[|ks| - 1] == k then 1 else 0)
  }

  function AliveKeys(n: Names, nodes: seq<RayNode>): seq<MatchKey> {
    if nodes == [] then []
    else
      var x := nodes[|nodes| - 1];
      AliveKeys(n, nodes[..|nodes| - 1]) + (if x.alive then [MakeMatchKey(n, x.name, x.resources)] else [])
  }

  function Less(a: nat, b: nat): nat {
    if a > b then a - b else 0
  }

  // ---------------------------------------------------------------- what must be added

  /** A desired worker is missing when the earlier ones with its key already use up the nodes alive. */
  function Missing(n: Names, desired: seq<Worker>, have: seq<MatchKey>): seq<Worker> {
    if desired == [] then []
    else
      var i := |desired| - 1;
      var k := KeyOf(n, desired[i]);
      Missing(n, desired[..i], have) + (if Times(Keys(n, desired[..i]), k) >= Times(have, k) then [desired[i]] else [])
  }

  // ---------------------------------------------------------------- the counter

  function Get(counter: map<MatchKey, nat>, k: MatchKey): nat {
    if k in counter then counter[k] else 0
  }

  /** What is left of the nodes alive once `used` keys have been taken off. */
  ghost predicate Left(counter: map<MatchKey, nat>, have: seq<MatchKey>, used: seq<MatchKey>) {
    forall k :: Get(counter, k) == Less(Times(have, k), Times(used, k))
  }

  lemma TimesSnoc(ks: seq<MatchKey>, x: MatchKey, k: MatchKey)
    ensures Times(ks + [x], k) == Times(ks, k) + (if x == k then 1 else 0)
  {
    assert (ks + [x])[..|ks|] == ks;
  }

  lemma LeftNone()
    ensures Left(map[], [], [])
  {
  }

  lemma LeftAdd(counter: map<MatchKey, nat>, have: seq<MatchKey>, x: MatchKey)
    requires Left(counter, have, [])
    ensures Left(counter[x := Get(counter, x) + 1], have + [x], [])
  {
    forall k { TimesSnoc(have, x, k); }
    assert forall k :: Times([], k) == 0;
    hide Times;
  }

  lemma LeftTake(counter: map<MatchKey, nat>, have: seq<MatchKey>, used: seq<MatchKey>, x: MatchKey)
    requires Left(counter, have, used)
    ensures Get(counter, x) > 0 <==> Times(used, x) < Times(have, x)
    ensures Left(if Get(counter, x) > 0 then counter[x := Get(counter, x) - 1] else counter, have, used + [x])
  {
    forall k { TimesSnoc(used, x, k); }
    hide Times;
  }

  lemma AliveSnoc(n: Names, nodes: seq<RayNode>, i: nat)
    requires i < |nodes|
    ensures AliveKeys(n, nodes[..i + 1])
            == AliveKeys(n, nodes[..i])
              + (if nodes[i].alive then [MakeMatchKey(n, nodes[i].name, nodes[i].resources)] else [])
  {
    assert nodes[..i + 1][..i] == nodes[..i];
    hide MakeMatchKey;
  }

  lemma DesiredSnoc(n: Names, desired: seq<Worker>, have: seq<MatchKey>, i: nat)
    requires i < |desired|
    ensures Keys(n, desired[..i + 1]) == Keys(n, desired[..i]) + [KeyOf(n, desired[i])]
    ensures Missing(n, desired[..i + 1], have)
            == Missing(n, desired[..i], have)
               + (if Times(Keys(n, desired[..i]), KeyOf(n, desired[i])) >= Times(have, KeyOf(n, desired[i]))
                  then [desired[i]] else [])
  {
    assert desired[..i + 1][..i] == desired[..i];
    hide KeyOf; hide Times;
  }

  method ComputeNewAssignments(desired: seq<Worker>, existing: seq<RayNode>, n: Names) returns (missing: seq<Worker>)
    ensures missing == Missing(n, desired, AliveKeys(n, existing))
    ensures ThoseWithoutNode(missing, desired, existing, n)
  {
    hide *;
    var counter: map<MatchKey, nat> := map[];
    LeftNone();
    NothingYet(n, existing, desired, AliveKeys(n, existing));
    for i := 0 to |existing|
      invariant Left(counter, AliveKeys(n, existing[..i]), [])
    {
      AliveSnoc(n, existing, i);
      if !existing[i].alive {
        assert AliveKeys(n, existing[..i]) + [] == AliveKeys(n, existing[..i]);
        continue;
      }
      var key := MakeMatchKey(n, existing[i].name, existing[i].resources);
      LeftAdd(counter, AliveKeys(n, existing[..i]), key);
      counter := counter[key := Get(counter, key) + 1];
    }
    assert existing[..|existing|] == existing;
    ghost var have := AliveKeys(n, existing);
    missing := [];
    for i := 0 to |desired|
      invariant Left(counter, have, Keys(n, desired[..i]))
      invariant missing == Missing(n, desired[..i], have)
    {
      DesiredSnoc(n, desired, have, i);
      var key := KeyOf(n, desired[i]);
      LeftTake(counter, have, Keys(n, desired[..i]), key);
      if Get(counter, key) > 0 {
        counter := counter[key := Get(counter, key) - 1];
      } else {
        missing := missing + [desired[i]];
      }
    }
    assert desired[..|desired|] == desired;
    MissingHaveNone(n, desired, existing);
  }

  lemma NothingYet(n: Names, nodes: seq<RayNode>, desired: seq<Worker>, have: seq<MatchKey>)
    ensures AliveKeys(n, nodes[..0]) == [] && Keys(n, desired[..0]) == [] && Missing(n, desired[..0], have) == []
  {
  }

  // ---------------------------------------------------------------- multiset subtraction

  lemma KeysAppend(n: Names, a: seq<Worker>, w: Worker)
    ensures Keys(n, a + [w]) == Keys(n, a) + [KeyOf(n, w)]
  {
    assert (a + [w])[..|a|] == a;
  }

  /** Per key, the number of new workers is the number desired minus the number alive, or none. */
  lemma {:induction false} AddsExactlyTheDifference(n: Names, desired: seq<Worker>, have: seq<MatchKey>, k: MatchKey)
    ensures Times(Keys(n, Missing(n, desired, have)), k) == Less(Times(Keys(n, desired), k), Times(have, k))
  {
    hide *;
    if desired == [] {
      NobodyDesired(n, have, k);
    } else {
      var i := |desired| - 1;
      var x, before := KeyOf(n, desired[i]), Missing(n, desired[..i], have);
      AddsExactlyTheDifference(n, desired[..i], have, k);
      DesiredSnoc(n, desired, have, i);
      assert desired[..i + 1] == desired;
      KeysAppend(n, before, desired[i]);
      TimesSnoc(Keys(n, before), x, k);
      TimesSnoc(Keys(n, desired[..i]), x, k);
      assert before + [] == before;
      LessMore(Times(Keys(n, desired[..i]), k), Times(have, k));
    }
  }

  lemma NobodyDesired(n: Names, have: seq<MatchKey>, k: MatchKey)
    ensures Times(Keys(n, Missing(n, [], have)), k) == 0 == Less(Times(Keys(n, []), k), Times(have, k))
  {
  }

  lemma LessMore(a: nat, b: nat)
    ensures Less(a + 1, b) == Less(a, b) + (if a >= b then 1 else 0)
  {
  }

  // ---------------------------------------------------------------- which ones, and in what order

  function MissingAt(n: Names, desired: seq<Worker>, have: seq<MatchKey>): seq<nat> {
    if desired == [] then []
    else
      var i := |desired| - 1;
      var k := KeyOf(n, desired[i]);
      MissingAt(n, desired[..i], have) + (if Times(Keys(n, desired[..i]), k) >= Times(have, k) then [i] else [])
  }

  /** The new workers are a subsequence of the desired ones: those that at least as many earlier
      ones with the same key precede as nodes are alive. */
  lemma {:induction false} KeepsOrder(n: Names, desired: seq<Worker>, have: seq<MatchKey>)
    ensures var at, new_ := MissingAt(n, desired, have), Missing(n, desired, have);
            && |at| == |new_|
            && (forall i, j | 0 <= i < j < |at| :: at[i] < at[j])
            && (forall i | 0 <= i < |at| :: at[i] < |desired| && new_[i] == desired[at[i]])
            && (forall i | 0 <= i < |desired| ::
                  i in at <==> Times(Keys(n, desired[..i]), KeyOf(n, desired[i])) >= Times(have, KeyOf(n, desired[i])))
  {
    hide KeyOf; hide Keys; hide Times;
    if desired != [] {
      var m := |desired| - 1;
      KeepsOrder(n, desired[..m], have);
      var at := MissingAt(n, desired, have);
      var before := MissingAt(n, desired[..m], have);
      assert m !in before;
      forall i | 0 <= i < |desired| ensures i in at
        <==> Times(Keys(n, desired[..i]), KeyOf(n, desired[i])) >= Times(have, KeyOf(n, desired[i])) {
        if i < m {
          assert desired[..m][..i] == desired[..i] && desired[..m][i] == desired[i];
          assert i in at <==> i in before;
        }
      }
    }
  }

  // ---------------------------------------------------------------- what counts as the same worker

  /** A resource of the configuration's own: none that Ray adds by itself. */
  ghost predicate Custom(resource: string) {
    && resource != "CPU" && resource != "memory" && resource != "object_store_memory"
    && (forall rest :: resource != "node:" + rest) && (forall rest :: resource != "accelerator_type:" + rest)
  }

  /** One machine, and the same amounts of the same custom resources. */
  ghost predicate Alike(n: Names, a: string, x: map<string, real>, b: string, y: map<string, real>) {
    && (match n.lookup(a) case Some(ip) => ip case None => a) == (match n.lookup(b) case Some(ip) => ip case None => b)
    && forall r | Custom(r) :: (r in x <==> r in y) && (r in x ==> x[r] == y[r])
  }

  /** Where Ray registers a worker: at its tunnel's address if it has one. */
  ghost function RegisteredAt(n: Names, w: Worker): string {
    if w.key in n.tunnels then n.tunnels[w.key] else w.key.ip
  }

  ghost function NodesLike(n: Names, nodes: seq<RayNode>, w: Worker): nat {
    if nodes == [] then 0
    else
      var x := nodes[|nodes| - 1];
      NodesLike(n, nodes[..|nodes| - 1], w)
      + (if x.alive && Alike(n, x.name, x.resources, RegisteredAt(n, w), w.resources) then 1 else 0)
  }

  ghost function WorkersLike(n: Names, ws: seq<Worker>, w: Worker): nat {
    if ws == [] then 0
    else
      var x := ws[|ws| - 1];
      WorkersLike(n, ws[..|ws| - 1], w)
      + (if Alike(n, RegisteredAt(n, x), x.resources, RegisteredAt(n, w), w.resources) then 1 else 0)
  }

  /** The desired workers, in order, that at least as many like them come before as nodes like them are alive. */
  ghost predicate ThoseWithoutNode(missing: seq<Worker>, desired: seq<Worker>, existing: seq<RayNode>, n: Names) {
    exists at: seq<nat> ::
      && |at| == |missing| && (forall i, j | 0 <= i < j < |at| :: at[i] < at[j])
      && (forall i | 0 <= i < |at| :: at[i] < |desired| && missing[i] == desired[at[i]])
      && forall i | 0 <= i < |desired| ::
           i in at <==> WorkersLike(n, desired[..i], desired[i]) >= NodesLike(n, existing, desired[i])
  }

  lemma StartsIff(s: string, p: string)
    ensures StartsWith(s, p) <==> exists rest :: s == p + rest
  {
    if StartsWith(s, p) { assert s == p + s[|p|..]; }
    if rest :| s == p + rest { assert s[..|p|] == p; }
  }

  lemma CustomIff(resource: string)
    ensures Automatic(resource) <==> !Custom(resource)
  {
    StartsIff(resource, "node:");
    StartsIff(resource, "accelerator_type:");
    var names := ["CPU", "memory", "object_store_memory"];
    assert names[0] in names && names[1] in names && names[2] in names;
    hide StartsWith;
  }

  lemma SameCustom(x: map<string, real>, y: map<string, real>)
    ensures CustomResources(x) == CustomResources(y)
            <==> forall r | Custom(r) :: (r in x <==> r in y) && (r in x ==> x[r] == y[r])
  {
    forall r { CustomIff(r); }
    hide Automatic; hide Custom;
    var a, b := CustomResources(x), CustomResources(y);
    forall r | Custom(r) ensures (r in x <==> r in a) && (r in y <==> r in b) {}
    if a == b {
      forall r | Custom(r) ensures (r in x <==> r in y) && (r in x ==> x[r] == y[r]) {
        assert r in a <==> r in b;
        assert r in a ==> a[r] == b[r];
      }
    }
    if forall r | Custom(r) :: (r in x <==> r in y) && (r in x ==> x[r] == y[r]) {
      assert forall r :: r in a <==> r in b;
    }
  }

  lemma KeysAlike(n: Names, a: string, x: map<string, real>, b: string, y: map<string, real>)
    ensures MakeMatchKey(n, a, x) == MakeMatchKey(n, b, y) <==> Alike(n, a, x, b, y)
  {
    SameCustom(x, y);
    hide Custom; hide CustomResources;
  }

  lemma WorkerKey(n: Names, w: Worker)
    ensures KeyOf(n, w) == MakeMatchKey(n, RegisteredAt(n, w), w.resources)
  {
  }

  lemma {:induction false} CountNodes(n: Names, nodes: seq<RayNode>, w: Worker)
    ensures Times(AliveKeys(n, nodes), KeyOf(n, w)) == NodesLike(n, nodes, w)
  {
    if nodes == [] {
      NobodyAlive(n, w);
    } else {
      var i := |nodes| - 1;
      var x := nodes[i];
      CountNodes(n, nodes[..i], w);
      WorkerKey(n, w);
      KeysAlike(n, x.name, x.resources, RegisteredAt(n, w), w.resources);
      AliveSnoc(n, nodes, i);
      assert nodes[..i + 1] == nodes;
      TimesSnoc(AliveKeys(n, nodes[..i]), MakeMatchKey(n, x.name, x.resources), KeyOf(n, w));
      hide AliveKeys; hide MakeMatchKey; hide Times; hide Alike; hide RegisteredAt; hide KeyOf;
      assert AliveKeys(n, nodes[..i]) + [] == AliveKeys(n, nodes[..i]);
    }
  }

  lemma NobodyAlive(n: Names, w: Worker)
    ensures Times(AliveKeys(n, []), KeyOf(n, w)) == NodesLike(n, [], w)
  {
    hide KeyOf;
  }

  lemma {:induction false} CountWorkers(n: Names, ws: seq<Worker>, w: Worker)
    ensures Times(Keys(n, ws), KeyOf(n, w)) == WorkersLike(n, ws, w)
  {
    if ws == [] {
      NobodyLike(n, w);
    } else {
      var i := |ws| - 1;
      CountWorkers(n, ws[..i], w);
      WorkerKey(n, w);
      WorkerKey(n, ws[i]);
      KeysAlike(n, RegisteredAt(n, ws[i]), ws[i].resources, RegisteredAt(n, w), w.resources);
      KeysAppend(n, ws[..i], ws[i]);
      assert ws[..i] + [ws[i]] == ws;
      TimesSnoc(Keys(n, ws[..i]), KeyOf(n, ws[i]), KeyOf(n, w));
      hide Keys; hide MakeMatchKey; hide Times; hide Alike; hide RegisteredAt; hide KeyOf;
    }
  }

  lemma NobodyLike(n: Names, w: Worker)
    ensures Times(Keys(n, []), KeyOf(n, w)) == WorkersLike(n, [], w)
  {
    hide KeyOf;
  }

  lemma MissingHaveNone(n: Names, desired: seq<Worker>, existing: seq<RayNode>)
    ensures ThoseWithoutNode(Missing(n, desired, AliveKeys(n, existing)), desired, existing, n)
  {
    hide *;
    var have := AliveKeys(n, existing);
    var at, missing := MissingAt(n, desired, have), Missing(n, desired, have);
    KeepsOrder(n, desired, have);
    forall i | 0 <= i < |desired|
      ensures i in at <==> WorkersLike(n, desired[..i], desired[i]) >= NodesLike(n, existing, desired[i])
    {
      CountWorkers(n, desired[..i], desired[i]);
      CountNodes(n, existing, desired[i]);
    }
    MakeThose(missing, desired, existing, n, at);
  }

  lemma MakeThose(missing: seq<Worker>, desired: seq<Worker>, existing: seq<RayNode>, n: Names, at: seq<nat>)
    requires |at| == |missing| && (forall i, j | 0 <= i < j < |at| :: at[i] < at[j])
    requires forall i | 0 <= i < |at| :: at[i] < |desired| && missing[i] == desired[at[i]]
    requires forall i | 0 <= i < |desired| ::
               i in at <==> WorkersLike(n, desired[..i], desired[i]) >= NodesLike(n, existing, desired[i])
    ensures ThoseWithoutNode(missing, desired, existing, n)
  {
    hide WorkersLike; hide NodesLike;
  }

  // ---------------------------------------------------------------- running it again

  /** Ray registers a worker under its address with its custom resources and automatic ones of its own. */
  ghost predicate RegisteredAs(n: Names, node: RayNode, w: Worker) {
    && node.alive
    && node.name == RegisteredAt(n, w)
    && (forall r | Custom(r) ::
       (r in node.resources <==> r in w.resources) && (r in node.resources ==> node.resources[r] == w.resources[r]))
  }

  ghost predicate AllRegistered(n: Names, added: seq<RayNode>, ws: seq<Worker>) {
    |added| == |ws| && forall i | 0 <= i < |ws| :: RegisteredAs(n, added[i], ws[i])
  }

  lemma RegisteredKey(n: Names, node: RayNode, w: Worker)
    requires RegisteredAs(n, node, w)
    ensures MakeMatchKey(n, node.name, node.resources) == KeyOf(n, w)
  {
    SameCustom(node.resources, w.resources);
  }

  lemma {:induction false} RegisteredKeys(n: Names, existing: seq<RayNode>, added: seq<RayNode>, ws: seq<Worker>,
                                          k: MatchKey)
    requires AllRegistered(n, added, ws)
    ensures Times(AliveKeys(n, existing + added), k) == Times(AliveKeys(n, existing), k) + Times(Keys(n, ws), k)
  {
    hide *;
    if ws == [] {
      RegisteredLast(n, added, ws);
      assert existing + added == existing;
      NoKeys(n, k);
    } else {
      var m := |ws| - 1;
      RegisteredLast(n, added, ws);
      RegisteredKeys(n, existing, added[..m], ws[..m], k);
      AliveAppend(n, existing + added[..m], added[m], ws[m]);
      assert existing + added == (existing + added[..m]) + [added[m]];
      TimesSnoc(AliveKeys(n, existing + added[..m]), KeyOf(n, ws[m]), k);
      KeysAppend(n, ws[..m], ws[m]);
      assert ws == ws[..m] + [ws[m]];
      TimesSnoc(Keys(n, ws[..m]), KeyOf(n, ws[m]), k);
    }
  }

  lemma RegisteredLast(n: Names, added: seq<RayNode>, ws: seq<Worker>)
    requires AllRegistered(n, added, ws)
    ensures |added| == |ws|
    ensures ws != [] ==>
            AllRegistered(n, added[..|ws| - 1], ws[..|ws| - 1]) && RegisteredAs(n, added[|ws| - 1], ws[|ws| - 1])
  {
    hide RegisteredAs;
  }

  lemma NoKeys(n: Names, k: MatchKey)
    ensures Times(Keys(n, []), k) == 0
  {
  }

  lemma AliveAppend(n: Names, nodes: seq<RayNode>, node: RayNode, w: Worker)
    requires RegisteredAs(n, node, w)
    ensures AliveKeys(n, nodes + [node]) == AliveKeys(n, nodes) + [KeyOf(n, w)]
  {
    RegisteredKey(n, node, w);
    assert node.alive;
    hide KeyOf; hide MakeMatchKey; hide RegisteredAs;
    assert (nodes + [node])[..|nodes|] == nodes;
  }

  /** Once the new workers have registered, running it again adds nothing. */
  lemma RerunAddsNothing(n: Names, desired: seq<Worker>, existing: seq<RayNode>, added: seq<RayNode>)
    requires AllRegistered(n, added, Missing(n, desired, AliveKeys(n, existing)))
    ensures Missing(n, desired, AliveKeys(n, existing + added)) == []
  {
    var have, new_ := AliveKeys(n, existing), Missing(n, desired, AliveKeys(n, existing));
    var again := Missing(n, desired, AliveKeys(n, existing + added));
    hide *;
    if |again| > 0 {
      var k := KeyOf(n, again[|again| - 1]);
      RegisteredKeys(n, existing, added, new_, k);
      AddsExactlyTheDifference(n, desired, have, k);
      AddsExactlyTheDifference(n, desired, AliveKeys(n, existing + added), k);
      LastKeyed(n, again);
      LessTwice(Times(Keys(n, desired), k), Times(have, k));
      assert false;
    }
  }

  lemma LessTwice(a: nat, b: nat)
    ensures Less(a, b + Less(a, b)) == 0
  {
  }

  lemma LastKeyed(n: Names, ws: seq<Worker>)
    requires |ws| > 0
    ensures Times(Keys(n, ws), KeyOf(n, ws[|ws| - 1])) > 0
  {
    hide KeyOf;
  }
}
