/** Deciding whether a task may be dispatched directly or must be relayed through the head. */
module Dispatch {

  import opened Results
  import opened ScopedStop

  const ROLES_TTL := 5000  // milliseconds

  datatype Role = Head | Lan | Remote

  datatype Node = Node(id: string, name: string, alive: bool, resources: map<string, real>)

  datatype Strategy = NoStrategy | Affinity(node: string, soft: bool) | OtherStrategy

  datatype Opts = Opts(strategy: Strategy, resources: map<string, real>, numReturns: Option<int>)

  /** The process deciding: its node, and whether bring-up marked that node as tunneled. */
  datatype Here = Here(id: string, tunneledEnv: bool)

  // ---------------------------------------------------------------- the cached snapshot

  function Alive(nodes: seq<Node>): (r: seq<Node>)
    ensures forall n :: n in r <==> n in nodes && n.alive
  {
    if nodes == [] then []
    else Alive(nodes[..|nodes| - 1]) + (if nodes[|nodes| - 1].alive then [nodes[|nodes| - 1]] else [])
  }

  class NodeCache {
    var nodes: Option<seq<Node>>
    var stamp: int

    constructor ()
      ensures nodes.None?
    {
      nodes, stamp := None, 0;
    }

    /** The cache holds what was alive when it was filled. */
    ghost predicate Valid(history: int -> seq<Node>)
      reads this
    {
      nodes.Some? ==> nodes.value == Alive(history(stamp))
    }

    /** A snapshot less than five seconds old. */
    method AliveNodes(now: int, history: int -> seq<Node>) returns (snapshot: seq<Node>)
      requires Valid(history) && (nodes.Some? ==> stamp <= now)
      modifies this
      ensures Valid(history) && nodes == Some(snapshot)
      ensures now - ROLES_TTL < stamp <= now && snapshot == Alive(history(stamp))
      ensures old(nodes.Some? && now - stamp < ROLES_TTL) ==> stamp == old(stamp)
    {
      if nodes.None? || now - stamp >= ROLES_TTL {
        var listed := history(now);
        var alive: seq<Node> := [];
        for i := 0 to |listed|
          invariant alive == Alive(listed[..i])
        {
          assert listed[..i + 1][..i] == listed[..i];
          if listed[i].alive { alive := alive + [listed[i]]; }
        }
        assert listed[..|listed|] == listed;
        nodes, stamp := Some(alive), now;
      }
      snapshot := nodes.value;
    }
  }

  // ---------------------------------------------------------------- the decision

  function Classify(n: Node): Role {
    if "node:__internal_head__" in n.resources then Head
    else if StartsWith(n.name, "127.") then Remote
    else Lan
  }

  /** The role of a node in a snapshot; of repeated ids the last entry counts, as in a dictionary. */
  function RoleIn(nodes: seq<Node>, id: string): Option<Role> {
    if nodes == [] then None
    else
      var n := nodes[|nodes| - 1];
      if n.id == id then Some(Classify(n)) else RoleIn(nodes[..|nodes| - 1], id)
  }

  function MyRole(here: Here, nodes: seq<Node>): Role {
    match RoleIn(nodes, here.id)
    case Some(r) => r
    case None => if here.tunneledEnv then Remote else Lan
  }

  predicate TargetReachable(my: Role, here: Here, target: string, nodes: seq<Node>) {
    || my == Head
    || target == here.id
    || (my == Lan && RoleIn(nodes, target).Some? && RoleIn(nodes, target).value != Remote)
  }

  function Custom(resources: map<string, real>): map<string, real> {
    map r | r in resources && !StartsWith(r, "node:") && !StartsWith(r, "accelerator_type:") :: resources[r]
  }

  predicate Offers(n: Node, custom: map<string, real>) {
    forall r | r in custom :: (if r in n.resources then n.resources[r] else 0.0) >= custom[r]
  }

  function Candidates(nodes: seq<Node>, custom: map<string, real>): set<string> {
    set i | 0 <= i < |nodes| && Offers(nodes[i], custom) :: nodes[i].id
  }

  /** Where a task can land, as far as the snapshot tells; None if it cannot be told. */
  function ResolveTargets(opts: Opts, nodes: seq<Node>): Option<set<string>> {
    match opts.strategy
    case Affinity(node, soft) => if soft then None else Some({node})
    case OtherStrategy => None
    case NoStrategy =>
      var custom := Custom(opts.resources);
      if |custom| == 0 then None
      else
        var found := Candidates(nodes, custom);
        if |found| == 0 then None else Some(found)
  }

  predicate DirectlyReachable(here: Here, opts: Opts, nodes: seq<Node>) {
    var my := MyRole(here, nodes);
    my == Head ||
    match ResolveTargets(opts, nodes)
    case None => false
    case Some(targets) => forall t | t in targets :: TargetReachable(my, here, t, nodes)
  }

  /** `snapshot` is None when the analysis raises. */
  predicate ShouldProxy(initialised: bool, here: Here, opts: Opts, snapshot: Option<seq<Node>>) {
    && initialised
    && (opts.numReturns == None || opts.numReturns == Some(1))
    && match snapshot
       case None => here.tunneledEnv
       case Some(nodes) => !DirectlyReachable(here, opts, nodes)
  }

  // ---------------------------------------------------------------- the real network

  /** Hub and spoke: the head is linked with everybody, LAN machines with each other, and a tunneled one
      with itself and the head only. */
  ghost predicate Linked(a: Node, b: Node) {
    a.id == b.id || IsHead(a) || IsHead(b) || (!IsTunneled(a) && !IsTunneled(b))
  }

  /** Ray's own mark of the head. */
  ghost predicate IsHead(n: Node) {
    "node:__internal_head__" in n.resources
  }

  /** Tunneled workers are named by their loopback address. */
  ghost predicate IsTunneled(n: Node) {
    !IsHead(n) && exists rest :: n.name == "127." + rest
  }

  /** What a task asks for in resources of the cluster's own. */
  ghost predicate Asks(opts: Opts, resource: string) {
    && resource in opts.resources
    && (forall rest :: resource != "node:" + rest) && (forall rest :: resource != "accelerator_type:" + rest)
  }

  /** A node has all that a task asks for. */
  ghost predicate Suits(n: Node, opts: Opts) {
    forall r | Asks(opts, r) ::
      if r in n.resources then n.resources[r] >= opts.resources[r] else 0.0 >= opts.resources[r]
  }

  /** Where the scheduler may put a task: on the pinned node, or on any that offers what it asks for. */
  ghost predicate CanLand(opts: Opts, n: Node) {
    && (opts.strategy.Affinity? && !opts.strategy.soft ==> n.id == opts.strategy.node)
    && Suits(n, opts)
  }

  lemma StartsIff(s: string, p: string)
    ensures StartsWith(s, p) <==> exists rest :: s == p + rest
  {
    if StartsWith(s, p) { assert s == p + s[|p|..]; }
    if rest :| s == p + rest { assert s[..|p|] == p; }
  }

  lemma ClassifyIs(n: Node)
    ensures Classify(n) == if IsHead(n) then Head else if IsTunneled(n) then Remote else Lan
  {
    StartsIff(n.name, "127.");
    hide StartsWith;
  }

  lemma CustomIs(opts: Opts, r: string)
    ensures r in Custom(opts.resources) <==> Asks(opts, r)
    ensures r in Custom(opts.resources) ==> Custom(opts.resources)[r] == opts.resources[r]
  {
    StartsIff(r, "node:");
    StartsIff(r, "accelerator_type:");
    hide StartsWith;
  }

  lemma OffersIs(n: Node, opts: Opts)
    ensures Offers(n, Custom(opts.resources)) <==> Suits(n, opts)
  {
    forall r
      ensures r in Custom(opts.resources) <==> Asks(opts, r)
      ensures r in Custom(opts.resources) ==> Custom(opts.resources)[r] == opts.resources[r]
    {
      CustomIs(opts, r);
    }
    hide Custom; hide Asks;
  }

  lemma LinkedIs(a: Node, b: Node)
    ensures Linked(a, b) <==> a.id == b.id || Classify(a) == Head || Classify(b) == Head
                              || (Classify(a) == Lan && Classify(b) == Lan)
  {
    ClassifyIs(a);
    ClassifyIs(b);
    hide Classify;
  }

  ghost predicate DistinctIds(nodes: seq<Node>) {
    forall i, j | 0 <= i < j < |nodes| :: nodes[i].id != nodes[j].id
  }

  /** What the snapshot says about a node's role is still so, and a tunneled node is marked in its own
      environment (which stands in when the node misses from its own snapshot). */
  ghost predicate RolesHold(here: Here, snapshot: seq<Node>, truth: seq<Node>) {
    && (forall s, n | s in snapshot && n in truth && s.id == n.id ::
          (IsHead(s) <==> IsHead(n)) && (IsTunneled(s) <==> IsTunneled(n)))
    && (forall n | n in truth && n.id == here.id && IsTunneled(n) :: here.tunneledEnv)
  }

  /** Every node where a task can land is in the snapshot, with what it takes. */
  ghost predicate Covers(opts: Opts, snapshot: seq<Node>, truth: seq<Node>) {
    forall n | n in truth && CanLand(opts, n) ::
      exists s | s in snapshot :: s.id == n.id && Suits(s, opts)
  }

  lemma {:induction false} RoleOfEntry(nodes: seq<Node>, id: string) returns (s: Node)
    requires RoleIn(nodes, id).Some?
    ensures s in nodes && s.id == id && RoleIn(nodes, id) == Some(Classify(s))
  {
    var n := |nodes| - 1;
    if nodes[n].id == id { s := nodes[n]; } else { s := RoleOfEntry(nodes[..n], id); }
  }

  lemma RoleTrue(here: Here, snapshot: seq<Node>, truth: seq<Node>, n: Node)
    requires RolesHold(here, snapshot, truth) && n in truth
    ensures RoleIn(snapshot, n.id).Some? ==> RoleIn(snapshot, n.id).value == Classify(n)
  {
    ClassifyIs(n);
    hide Classify; hide IsHead; hide IsTunneled;
    if RoleIn(snapshot, n.id).Some? {
      var s := RoleOfEntry(snapshot, n.id);
      ClassifyIs(s);
    }
  }

  /** The decision's view of its own node errs only towards relaying. */
  lemma MyRoleSafe(here: Here, snapshot: seq<Node>, truth: seq<Node>, me: Node)
    requires RolesHold(here, snapshot, truth) && me in truth && me.id == here.id
    ensures MyRole(here, snapshot) == Head ==> Classify(me) == Head
    ensures MyRole(here, snapshot) == Lan ==> Classify(me) != Remote
  {
    RoleTrue(here, snapshot, truth, me);
    ClassifyIs(me);
    hide Classify; hide RoleIn; hide IsHead; hide IsTunneled;
  }

  lemma CandidateIn(nodes: seq<Node>, custom: map<string, real>, s: Node)
    requires s in nodes && Offers(s, custom)
    ensures s.id in Candidates(nodes, custom)
  {
    var i :| 0 <= i < |nodes| && nodes[i] == s;
  }

  /** Fail-safe: when the analysis says "direct", every alive node where a task can land has a direct link
      to this one. A hard pin needs no more than correct roles, however stale the snapshot; a resource demand
      also needs the snapshot to cover the nodes that offer it. */
  lemma DirectIsSafe(here: Here, opts: Opts, snapshot: seq<Node>, truth: seq<Node>, me: Node, n: Node)
    requires RolesHold(here, snapshot, truth) && me in truth && me.id == here.id
    requires opts.strategy.NoStrategy? ==> Covers(opts, snapshot, truth)
    requires n in truth && CanLand(opts, n)
    requires DirectlyReachable(here, opts, snapshot)
    ensures Linked(me, n)
  {
    MyRoleSafe(here, snapshot, truth, me);
    RoleTrue(here, snapshot, truth, n);
    LandsOnTarget(opts, snapshot, truth, n);
    LinkedIs(me, n);
    hide Linked; hide Classify; hide RoleIn; hide ResolveTargets; hide CanLand; hide Covers; hide RolesHold;
    hide MyRole;
    if MyRole(here, snapshot) != Head {
      assert n.id in ResolveTargets(opts, snapshot).value;
      assert TargetReachable(MyRole(here, snapshot), here, n.id, snapshot);
    }
  }

  lemma LandsOnTarget(opts: Opts, snapshot: seq<Node>, truth: seq<Node>, n: Node)
    requires opts.strategy.NoStrategy? ==> Covers(opts, snapshot, truth)
    requires n in truth && CanLand(opts, n)
    ensures ResolveTargets(opts, snapshot).Some? ==> n.id in ResolveTargets(opts, snapshot).value
  {
    hide Offers; hide Custom; hide Candidates; hide Suits;
    if opts.strategy.NoStrategy? {
      var s :| s in snapshot && s.id == n.id && Suits(s, opts);
      OffersIs(s, opts);
      CandidateIn(snapshot, Custom(opts.resources), s);
    }
  }

  /** Where the analysis expected the task to land. */
  function Expected(opts: Opts, snapshot: seq<Node>): set<string> {
    match ResolveTargets(opts, snapshot) case Some(targets) => targets case None => {}
  }

  /** An unexpected node that a caller of some role can reach all the same: any for the head, all but the tunneled ones
      for a LAN machine, the head alone for a tunneled worker. */
  ghost predicate Harmless(me: Node, unexpected: Node) {
    if IsHead(me) then true else if IsTunneled(me) then IsHead(unexpected) else !IsTunneled(unexpected)
  }

  /** Exactly when a "direct" decided on a stale snapshot is right, that is, the caller is linked with every alive node
      where the task can land: when every such node other than itself and outside the expected ones is harmless. */
  lemma DirectIsExact(here: Here, opts: Opts, snapshot: seq<Node>, truth: seq<Node>, me: Node)
    requires RolesHold(here, snapshot, truth) && me in truth && me.id == here.id
    requires DirectlyReachable(here, opts, snapshot)
    ensures (forall n | n in truth && CanLand(opts, n) :: Linked(me, n))
            <==> forall n | n in truth && CanLand(opts, n) && n.id != me.id && n.id !in Expected(opts, snapshot) ::
                   Harmless(me, n)
  {
    forall n | n in truth
      ensures n.id != me.id && n.id !in Expected(opts, snapshot) ==>
              (Linked(me, n) <==> Harmless(me, n))
      ensures n.id == me.id || n.id in Expected(opts, snapshot) ==> Linked(me, n)
    {
      ExpectedIsLinked(here, opts, snapshot, truth, me, n);
    }
    hide *;
  }

  lemma HarmlessIs(me: Node, n: Node)
    ensures Harmless(me, n)
            <==> match Classify(me)
                 case Head => true
                 case Lan => Classify(n) != Remote
                 case Remote => Classify(n) == Head
  {
    ClassifyIs(me);
    ClassifyIs(n);
    hide Classify;
  }

  lemma ExpectedIsLinked(here: Here, opts: Opts, snapshot: seq<Node>, truth: seq<Node>, me: Node, n: Node)
    requires RolesHold(here, snapshot, truth) && me in truth && me.id == here.id && n in truth
    requires DirectlyReachable(here, opts, snapshot)
    ensures n.id != me.id ==> (Linked(me, n) <==> Harmless(me, n))
    ensures n.id == me.id || n.id in Expected(opts, snapshot) ==> Linked(me, n)
  {
    MyRoleSafe(here, snapshot, truth, me);
    RoleTrue(here, snapshot, truth, n);
    LinkedIs(me, n);
    HarmlessIs(me, n);
    hide Linked; hide Harmless; hide Classify; hide RoleIn; hide ResolveTargets; hide RolesHold; hide MyRole;
    if MyRole(here, snapshot) != Head && n.id in Expected(opts, snapshot) {
      assert TargetReachable(MyRole(here, snapshot), here, n.id, snapshot);
    }
  }

  /** With an up-to-date snapshot the decision is exact for resolvable targets, except that a tunneled worker
      relays even to the head. */
  lemma FreshIsExact(here: Here, opts: Opts, nodes: seq<Node>, me: Node)
    requires DistinctIds(nodes) && me in nodes && me.id == here.id
    requires ResolveTargets(opts, nodes).Some?
    requires forall t | t in ResolveTargets(opts, nodes).value :: exists n | n in nodes :: n.id == t
    ensures DirectlyReachable(here, opts, nodes)
            <==> forall n | n in nodes && n.id in ResolveTargets(opts, nodes).value ::
                   Linked(me, n) && (IsTunneled(me) ==> n.id == me.id)
  {
    forall n | n in nodes
      ensures RoleIn(nodes, n.id) == Some(Classify(n))
      ensures Linked(me, n) <==> me.id == n.id || Classify(me) == Head || Classify(n) == Head
                                 || (Classify(me) == Lan && Classify(n) == Lan)
    {
      RoleExact(nodes, n);
      LinkedIs(me, n);
    }
    ClassifyIs(me);
    hide Linked; hide Classify; hide RoleIn; hide ResolveTargets; hide IsHead; hide IsTunneled;
    var targets := ResolveTargets(opts, nodes).value;
    if forall n | n in nodes && n.id in targets :: Linked(me, n) && (IsTunneled(me) ==> n.id == me.id) {
      forall t | t in targets ensures TargetReachable(MyRole(here, nodes), here, t, nodes) {
        var n :| n in nodes && n.id == t;
      }
    }
    if DirectlyReachable(here, opts, nodes) {
      forall n | n in nodes && n.id in targets ensures Linked(me, n) && (IsTunneled(me) ==> n.id == me.id) {
        assert MyRole(here, nodes) != Head ==> TargetReachable(MyRole(here, nodes), here, n.id, nodes);
      }
    }
  }

  /** The snapshot's last word on an id. */
  ghost predicate Known(nodes: seq<Node>, id: string, s: Node) {
    exists i :: 0 <= i < |nodes| && nodes[i] == s && s.id == id && forall j | i < j < |nodes| :: nodes[j].id != id
  }

  ghost predicate Unknown(nodes: seq<Node>, id: string) {
    forall i | 0 <= i < |nodes| :: nodes[i].id != id
  }

  ghost predicate OnHead(here: Here, nodes: seq<Node>) {
    exists s :: Known(nodes, here.id, s) && IsHead(s)
  }

  /** On an ordinary machine: so the snapshot says, or, if it does not list the node, the environment. */
  ghost predicate OnLan(here: Here, nodes: seq<Node>) {
    || (exists s :: Known(nodes, here.id, s) && !IsHead(s) && !IsTunneled(s))
    || (Unknown(nodes, here.id) && !here.tunneledEnv)
  }

  /** A node proved to be in reach of one that is not the head: itself, or from an ordinary machine any that is known
      not to be tunneled. */
  ghost predicate InReach(here: Here, nodes: seq<Node>, id: string) {
    id == here.id || (OnLan(here, nodes) && exists s :: Known(nodes, id, s) && !IsTunneled(s))
  }

  /** The whole decision: a task is relayed unless this is the head, or it is pinned hard to a node in reach, or without
      any strategy it asks for resources that some node has, and all that have them are in reach. When the nodes cannot
      be listed the environment decides, and a task with several results is never relayed. */
  lemma ProxiesIff(initialised: bool, here: Here, opts: Opts, snapshot: Option<seq<Node>>)
    ensures ShouldProxy(initialised, here, opts, snapshot)
            <==> initialised && (opts.numReturns == None || opts.numReturns == Some(1))
                 && if snapshot.None? then here.tunneledEnv
                    else
                      var nodes := snapshot.value;
                      && !OnHead(here, nodes)
                      && !(opts.strategy.Affinity? && !opts.strategy.soft && InReach(here, nodes, opts.strategy.node))
                      && !(opts.strategy.NoStrategy? && (exists r :: Asks(opts, r))
                           && (exists n :: n in nodes && Suits(n, opts))
                           && forall n | n in nodes && Suits(n, opts) :: InReach(here, nodes, n.id))
  {
    if snapshot.Some? { DirectIff(here, opts, snapshot.value); }
    hide *;
    ProxyIs(initialised, here, opts, snapshot);
  }

  lemma ProxyIs(initialised: bool, here: Here, opts: Opts, snapshot: Option<seq<Node>>)
    ensures ShouldProxy(initialised, here, opts, snapshot)
            <==> initialised && (opts.numReturns == None || opts.numReturns == Some(1))
                 && if snapshot.None? then here.tunneledEnv else !DirectlyReachable(here, opts, snapshot.value)
  {
    hide DirectlyReachable;
  }

  lemma {:induction false} RoleIs(nodes: seq<Node>, id: string)
    ensures RoleIn(nodes, id).None? <==> Unknown(nodes, id)
    ensures RoleIn(nodes, id).Some? ==> exists s :: Known(nodes, id, s) && RoleIn(nodes, id) == Some(Classify(s))
  {
    hide Classify;
    if nodes != [] {
      var n := |nodes| - 1;
      if nodes[n].id == id {
        assert Known(nodes, id, nodes[n]);
      } else {
        RoleIs(nodes[..n], id);
        if RoleIn(nodes, id).Some? {
          var s :| Known(nodes[..n], id, s) && RoleIn(nodes[..n], id) == Some(Classify(s));
          var i :| 0 <= i < n && nodes[..n][i] == s && s.id == id && forall j | i < j < n :: nodes[..n][j].id != id;
          assert nodes[i] == s && forall j | i < j < n :: nodes[j].id == nodes[..n][j].id;
          assert Known(nodes, id, s);
        } else {
          assert forall i | 0 <= i < n :: nodes[i] == nodes[..n][i];
        }
      }
    }
  }

  lemma KnownOnce(nodes: seq<Node>, id: string, s: Node, t: Node)
    requires Known(nodes, id, s)
    ensures Known(nodes, id, t) ==> s == t
    ensures !Unknown(nodes, id)
  {
    if Known(nodes, id, t) {
      var i :| 0 <= i < |nodes| && nodes[i] == s && s.id == id && forall j | i < j < |nodes| :: nodes[j].id != id;
      var k :| 0 <= k < |nodes| && nodes[k] == t && t.id == id && forall j | k < j < |nodes| :: nodes[j].id != id;
      assert !(i < k) && !(k < i);
    }
  }

  /** A role, if the id is known, is that of the snapshot's last word. */
  lemma RoleKnown(nodes: seq<Node>, id: string)
    ensures RoleIn(nodes, id).None? <==> Unknown(nodes, id)
    ensures RoleIn(nodes, id) == Some(Head) <==> exists s :: Known(nodes, id, s) && IsHead(s)
    ensures RoleIn(nodes, id) == Some(Lan) <==> exists s :: Known(nodes, id, s) && !IsHead(s) && !IsTunneled(s)
    ensures RoleIn(nodes, id).Some? && RoleIn(nodes, id) != Some(Remote)
            <==> exists s :: Known(nodes, id, s) && !IsTunneled(s)
  {
    RoleIs(nodes, id);
    forall s | Known(nodes, id, s) ensures Some(Classify(s)) == RoleIn(nodes, id) {
      KnownOnce(nodes, id, s, s);
      var t :| Known(nodes, id, t) && RoleIn(nodes, id) == Some(Classify(t));
      KnownOnce(nodes, id, s, t);
    }
    forall s | Known(nodes, id, s)
      ensures Classify(s) == if IsHead(s) then Head else if IsTunneled(s) then Remote else Lan
      ensures IsTunneled(s) ==> !IsHead(s)
    {
      ClassifyIs(s);
    }
    hide RoleIn; hide Classify; hide IsHead; hide IsTunneled; hide Known; hide Unknown;
  }

  lemma MyRoleIs(here: Here, nodes: seq<Node>)
    ensures MyRole(here, nodes) == Head <==> OnHead(here, nodes)
    ensures MyRole(here, nodes) == Lan <==> OnLan(here, nodes)
  {
    RoleKnown(nodes, here.id);
    hide RoleIn; hide IsHead; hide IsTunneled; hide Known; hide Unknown;
  }

  lemma ReachIs(here: Here, nodes: seq<Node>, id: string)
    requires MyRole(here, nodes) != Head
    ensures TargetReachable(MyRole(here, nodes), here, id, nodes) <==> InReach(here, nodes, id)
  {
    MyRoleIs(here, nodes);
    RoleKnown(nodes, id);
    hide RoleIn; hide MyRole; hide OnLan; hide OnHead; hide IsTunneled; hide Known; hide IsHead; hide Unknown;
  }

  lemma AskedSomething(opts: Opts)
    ensures |Custom(opts.resources)| == 0 <==> forall r :: !Asks(opts, r)
  {
    var custom := Custom(opts.resources);
    forall r ensures r in custom <==> Asks(opts, r) { CustomIs(opts, r); }
    hide Custom; hide Asks;
    if |custom| > 0 {
      assert custom != map[];
      var r :| r in custom;
    }
    if r :| Asks(opts, r) { SomeResource(custom, r); }
  }

  lemma CandidatesAre(nodes: seq<Node>, opts: Opts)
    ensures var found := Candidates(nodes, Custom(opts.resources));
            && (|found| == 0 <==> forall n | n in nodes :: !Suits(n, opts))
            && forall id :: id in found <==> exists n :: n in nodes && n.id == id && Suits(n, opts)
  {
    var found := Candidates(nodes, Custom(opts.resources));
    forall n ensures Offers(n, Custom(opts.resources)) <==> Suits(n, opts) { OffersIs(n, opts); }
    hide Offers; hide Suits; hide Custom;
    forall n | n in nodes && Suits(n, opts) ensures n.id in found {
      CandidateIn(nodes, Custom(opts.resources), n);
    }
    if |found| > 0 { var id :| id in found; }
    if n :| n in nodes && Suits(n, opts) { NonEmpty(found, n.id); }
  }

  lemma DirectIff(here: Here, opts: Opts, nodes: seq<Node>)
    ensures DirectlyReachable(here, opts, nodes)
            <==> || OnHead(here, nodes)
                 || (opts.strategy.Affinity? && !opts.strategy.soft && InReach(here, nodes, opts.strategy.node))
                 || (&& opts.strategy.NoStrategy? && (exists r :: Asks(opts, r))
                     && (exists n :: n in nodes && Suits(n, opts))
                     && forall n | n in nodes && Suits(n, opts) :: InReach(here, nodes, n.id))
  {
    MyRoleIs(here, nodes);
    AskedSomething(opts);
    CandidatesAre(nodes, opts);
    if MyRole(here, nodes) != Head { forall id { ReachIs(here, nodes, id); } }
    hide MyRole; hide TargetReachable; hide OnHead; hide OnLan; hide InReach; hide Asks; hide Suits; hide Custom;
    hide Candidates;
  }

  lemma {:induction false} RoleExact(nodes: seq<Node>, n: Node)
    requires DistinctIds(nodes) && n in nodes
    ensures RoleIn(nodes, n.id) == Some(Classify(n))
  {
    hide Classify;
    var k := |nodes| - 1;
    if nodes[k].id == n.id {
      var i :| 0 <= i < |nodes| && nodes[i] == n;
      assert i == k;
    } else {
      assert nodes == nodes[..k] + [nodes[k]];
      assert DistinctIds(nodes[..k]) by { assert forall i | 0 <= i < k :: nodes[..k][i] == nodes[i]; }
      RoleExact(nodes[..k], n);
    }
  }

  /** The cached decision over time: made at `now` from the cache, it is still safe at any `later` time, as
      long as nodes keep their roles and, for a resource demand, every node that offers it then was already
      there when the cache was filled. */
  lemma CachedDecisionSafe(cache: NodeCache, now: int, later: int, history: int -> seq<Node>, here: Here, opts: Opts,
                           me: Node, n: Node)
    requires cache.Valid(history) && cache.nodes.Some? && now - ROLES_TTL < cache.stamp <= now <= later
    requires var truth := Alive(history(later));
             && RolesHold(here, Alive(history(cache.stamp)), truth)
             && (opts.strategy.NoStrategy? ==> Covers(opts, Alive(history(cache.stamp)), truth))
             && me in truth && me.id == here.id && n in truth && CanLand(opts, n)
    requires (opts.numReturns == None || opts.numReturns == Some(1)) && !ShouldProxy(true, here, opts, cache.nodes)
    ensures Linked(me, n)
  {
    hide DirectlyReachable; hide Linked; hide RolesHold; hide Covers; hide CanLand; hide Alive;
    DirectIsSafe(here, opts, cache.nodes.value, Alive(history(later)), me, n);
  }

  /** Why coverage is needed: a tunneled node that joined after the snapshot turns a LAN worker's "direct"
      into a dispatch it cannot complete. */
  lemma StaleSnapshotMisleads(here: Here, opts: Opts, me: Node, known: Node, joined: Node)
    requires me.id == here.id && !IsHead(me) && !IsTunneled(me) && !IsHead(known) && !IsTunneled(known)
    requires IsTunneled(joined)
    requires me.id != known.id && me.id != joined.id && known.id != joined.id
    requires opts.strategy.NoStrategy? && (exists r :: Asks(opts, r)) && Suits(known, opts) && Suits(joined, opts)
    ensures DirectlyReachable(here, opts, [me, known])
    ensures CanLand(opts, joined) && !Linked(me, joined)
  {
    var nodes := [me, known];
    assert nodes[0] == me && nodes[1] == known;
    assert Known(nodes, me.id, me) && Known(nodes, known.id, known);
    assert known in nodes;
    DirectIff(here, opts, nodes);
    hide Known; hide IsHead; hide Asks; hide Suits; hide DirectlyReachable; hide OnHead;
    assert forall n | n in nodes :: n == me || n == known;
  }

  /** The same with three machines: a LAN worker asks for one slot, another LAN machine is known to offer it, and a
      tunneled one that offers it too has joined since. */
  lemma StaleSnapshotExample()
    ensures var slot: map<string, real> := map["slot" := 1.0];
            var me := Node("a", "10.0.0.2", true, map[]);
            var known := Node("b", "10.0.0.3", true, slot);
            var joined := Node("c", "127.0.0.2", true, slot);
            var opts := Opts(NoStrategy, slot, None);
            && DirectlyReachable(Here("a", false), opts, [me, known])
            && CanLand(opts, joined) && !Linked(me, joined)
  {
    var slot: map<string, real> := map["slot" := 1.0];
    var me := Node("a", "10.0.0.2", true, map[]);
    var known := Node("b", "10.0.0.3", true, slot);
    var joined := Node("c", "127.0.0.2", true, slot);
    var opts := Opts(NoStrategy, slot, None);
    SlotIsAsked(opts);
    assert !IsTunneled(me) && !IsTunneled(known) by { TensAreNot(me); TensAreNot(known); }
    assert IsTunneled(joined) by { assert joined.name == "127." + "0.0.2"; }
    hide IsTunneled; hide DirectlyReachable; hide Linked;
    StaleSnapshotMisleads(Here("a", false), opts, me, known, joined);
  }

  lemma TensAreNot(n: Node)
    requires |n.name| > 1 && n.name[1] == '0'
    ensures !IsTunneled(n)
  {
    forall rest ensures n.name != "127." + rest { assert ("127." + rest)[1] == '2'; }
  }

  lemma SlotIsAsked(opts: Opts)
    requires opts.resources == map["slot" := 1.0]
    ensures Asks(opts, "slot") && forall r | Asks(opts, r) :: r == "slot"
  {
    forall rest ensures "slot" != "node:" + rest && "slot" != "accelerator_type:" + rest {
      assert ("node:" + rest)[0] == 'n' && ("accelerator_type:" + rest)[0] == 'a' && "slot"[0] == 's';
    }
  }

  lemma SomeResource(m: map<string, real>, r: string)
    requires r in m
    ensures |m| > 0
  {
  }

  lemma NonEmpty(s: set<string>, x: string)
    requires x in s
    ensures |s| > 0
  {
  }
}
