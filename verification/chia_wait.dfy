/** Waiting for tasks, and resubmitting those stuck before they were given a node. */
module ChiaWait {

  import opened Results

  type Ref = int
  type Resources = map<string, real>

  const EPSILON := 0.000000001

  // ---------------------------------------------------------------- one call's inputs

  /** A row of the state API: a task waiting for a node and what it needs. */
  datatype TaskRow = TaskRow(task: int, required: Resources)

  /** The autoscaler's text: whether it lists pending demands, and what it mentions there. */
  datatype Demand = NoSection | Section(mentions: string -> bool)

  datatype Pool = Pool(available: Resources, total: Resources)

  /** What Ray answers during one call; None where a query raises. `taskOf` gives the id of a reference's own task,
      `submit` the references successive resubmissions get, `later` the clock when they are made. */
  datatype Ray = Ray(ready: seq<Ref>, pending: seq<Ref>, taskOf: Ref -> int, rows: Option<seq<TaskRow>>,
                     pool: Option<Pool>, demand: Option<Demand>, now: int, later: int, submit: nat -> Ref)

  datatype Options = Options(pendingTimeout: Option<int>, retry: bool, maxRetries: int, requireDemandAbsent: bool,
                             minFreeFraction: real, cancelOnStuck: bool)

  /** The fields of a tracked reference. */
  datatype View = View(ref: Ref, canSubmit: bool, submittedAt: int, retries: int)

  /** Positions stand for the tracked objects themselves. */
  datatype Action = Cancel(ref: Ref) | Resubmit(at: nat)

  ghost predicate DistinctRefs(vs: seq<View>) {
    forall i, j | 0 <= i < j < |vs| :: vs[i].ref != vs[j].ref
  }

  /** ray.wait needs distinct references and splits them into two lists. */
  ghost predicate Splits(vs: seq<View>, ray: Ray) {
    && (forall i, j | 0 <= i < j < |ray.ready + ray.pending| ::
       (ray.ready + ray.pending)[i] != (ray.ready + ray.pending)[j])
    && (forall r :: r in ray.ready + ray.pending <==> exists i | 0 <= i < |vs| :: vs[i].ref == r)
  }

  // ---------------------------------------------------------------- who is stuck

  predicate ResourcesCover(available: Resources, required: Resources) {
    forall k | k in required :: (if k in available then available[k] else 0.0) + EPSILON >= required[k]
  }

  predicate ResourcesUnderused(available: Resources, total: Resources, required: Resources, minFree: real) {
    minFree <= 0.0 ||
    forall k | k in required ::
      var all := if k in total then total[k] else 0.0;
      all > 0.0 && (if k in available then available[k] else 0.0) / all >= minFree
  }

  /** The position of a reference; the last one of equal references, as a dictionary keeps it. */
  function PositionOf(vs: seq<View>, r: Ref): nat {
    if vs == [] then 0 else if vs[|vs| - 1].ref == r then |vs| - 1 else PositionOf(vs[..|vs| - 1], r)
  }

  function Positions(vs: seq<View>, refs: seq<Ref>): (ps: seq<nat>)
    ensures |ps| == |refs| && forall i | 0 <= i < |ps| :: ps[i] == PositionOf(vs, refs[i])
  {
    seq(|refs|, i requires 0 <= i < |refs| => PositionOf(vs, refs[i]))
  }

  /** Pending longer than the timeout. */
  predicate IsAged(vs: seq<View>, ray: Ray, timeout: int, p: nat) {
    p < |vs| && ray.now - vs[p].submittedAt > timeout
  }

  function AgedByTask(vs: seq<View>, ray: Ray, timeout: int, pending: seq<nat>): map<int, nat> {
    if pending == [] then map[]
    else
      var n := |pending| - 1;
      var m := AgedByTask(vs, ray, timeout, pending[..n]);
      if IsAged(vs, ray, timeout, pending[n]) then m[ray.taskOf(vs[pending[n]].ref) := pending[n]] else m
  }

  datatype Confirmed = Confirmed(at: nat, required: Resources)

  function ConfirmedRows(aged: map<int, nat>, rows: seq<TaskRow>): seq<Confirmed> {
    if rows == [] then []
    else
      var row := rows[|rows| - 1];
      ConfirmedRows(aged, rows[..|rows| - 1])
        + (if row.task in aged then [Confirmed(aged[row.task], row.required)] else [])
  }

  function FirstRequired(confirmed: seq<Confirmed>, at: nat): Resources {
    if confirmed == [] then map[]
    else if confirmed[0].at == at then confirmed[0].required
    else FirstRequired(confirmed[1..], at)
  }

  predicate Mentions(demand: Demand, required: Resources) {
    demand.Section? && forall k | k in required :: demand.mentions(k)
  }

  predicate Wedged(ray: Ray, pool: Pool, options: Options, all: seq<Confirmed>, c: Confirmed) {
    && ResourcesCover(pool.available, c.required)
    && ResourcesUnderused(pool.available, pool.total, c.required, options.minFreeFraction)
    && (options.requireDemandAbsent && ray.demand.Some? ==> !Mentions(ray.demand.value, FirstRequired(all, c.at)))
  }

  function StuckAmong(ray: Ray, pool: Pool, options: Options, all: seq<Confirmed>, some: seq<Confirmed>): seq<nat> {
    if some == [] then []
    else
      var c := some[|some| - 1];
      StuckAmong(ray, pool, options, all, some[..|some| - 1])
        + (if Wedged(ray, pool, options, all, c) then [c.at] else [])
  }

  /** The stuck ones, in the order of the state API's rows; a repeated row repeats its task. */
  function Stuck(vs: seq<View>, ray: Ray, options: Options, pending: seq<nat>): seq<nat> {
    if options.pendingTimeout.None? || ray.rows.None? || ray.pool.None? then []
    else
      var confirmed := ConfirmedRows(AgedByTask(vs, ray, options.pendingTimeout.value, pending), ray.rows.value);
      StuckAmong(ray, ray.pool.value, options, confirmed, confirmed)
  }

  // ---------------------------------------------------------------- what is done about them

  datatype State = State(vs: seq<View>, log: seq<Action>, submitted: nat)

  function Handle(s: State, p: nat, ray: Ray, options: Options): (t: State)
    ensures |t.vs| == |s.vs|
  {
    if p >= |s.vs| then s
    else
      var v := s.vs[p];
      if options.retry && v.canSubmit && v.retries < options.maxRetries then
        State(s.vs[p := View(ray.submit(s.submitted), v.canSubmit, ray.later, v.retries + 1)],
              s.log + [Cancel(v.ref), Resubmit(p)], s.submitted + 1)
      else if options.cancelOnStuck then s.(log := s.log + [Cancel(v.ref)])
      else s
  }

  function HandleAll(s: State, ps: seq<nat>, ray: Ray, options: Options): (t: State)
    ensures |t.vs| == |s.vs|
  {
    if ps == [] then s else Handle(HandleAll(s, ps[..|ps| - 1], ray, options), ps[|ps| - 1], ray, options)
  }

  function Outcome(vs: seq<View>, ray: Ray, options: Options): (t: State)
    ensures |t.vs| == |vs|
  {
    HandleAll(State(vs, [], 0), Stuck(vs, ray, options, Positions(vs, ray.pending)), ray, options)
  }

  // ---------------------------------------------------------------- the wait

  class TrackedRef {
    var ref: Ref
    var canSubmit: bool
    var submittedAt: int
    var retries: int

    constructor (ref: Ref, canSubmit: bool, now: int)
      ensures AsView() == View(ref, canSubmit, now, 0)
    {
      this.ref, this.canSubmit, this.submittedAt, this.retries := ref, canSubmit, now, 0;
    }

    function AsView(): View
      reads this
    {
      View(ref, canSubmit, submittedAt, retries)
    }

    /** Take the reference of a new submission. */
    method RetryStuck(next: Ref, now: int)
      modifies this
      ensures AsView() == View(next, old(canSubmit), now, old(retries) + 1)
    {
      ref := next;
      submittedAt := now;
      retries := retries + 1;
    }
  }

  function Snapshot(tracked: seq<TrackedRef>): (vs: seq<View>)
    reads set t | t in tracked
    ensures |vs| == |tracked| && forall i | 0 <= i < |vs| :: vs[i] == tracked[i].AsView()
  {
    if tracked == [] then [] else Snapshot(tracked[..|tracked| - 1]) + [tracked[|tracked| - 1].AsView()]
  }

  method FindPositions(vs: seq<View>, refs: seq<Ref>) returns (ps: seq<nat>)
    ensures ps == Positions(vs, refs)
  {
    var at: map<Ref, nat> := map[];
    for i := 0 to |vs|
      invariant forall r :: (if r in at then at[r] else 0) == PositionOf(vs[..i], r)
    {
      assert vs[..i + 1][..i] == vs[..i];
      at := at[vs[i].ref := i];
    }
    assert vs[..|vs|] == vs;
    ps := [];
    for i := 0 to |refs|
      invariant |ps| == i && forall j | 0 <= j < i :: ps[j] == PositionOf(vs, refs[j])
    {
      ps := ps + [if refs[i] in at then at[refs[i]] else 0];
    }
  }

  method ClassifyStuck(vs: seq<View>, ray: Ray, options: Options, pending: seq<nat>) returns (stuck: seq<nat>)
    requires options.pendingTimeout.Some?
    ensures stuck == Stuck(vs, ray, options, pending)
  {
    hide IsAged; hide Wedged;
    var timeout := options.pendingTimeout.value;
    var aged: map<int, nat> := map[];
    for i := 0 to |pending|
      invariant aged == AgedByTask(vs, ray, timeout, pending[..i])
    {
      assert pending[..i + 1][..i] == pending[..i];
      if IsAged(vs, ray, timeout, pending[i]) {
        AgedInRange(vs, ray, timeout, pending[i]);
        aged := aged[ray.taskOf(vs[pending[i]].ref) := pending[i]];
      }
    }
    assert pending[..|pending|] == pending;
    if ray.rows.None? || ray.pool.None? { return []; }
    var rows, confirmed: seq<Confirmed> := ray.rows.value, [];
    for i := 0 to |rows|
      invariant confirmed == ConfirmedRows(aged, rows[..i])
    {
      assert rows[..i + 1][..i] == rows[..i];
      if rows[i].task in aged { confirmed := confirmed + [Confirmed(aged[rows[i].task], rows[i].required)]; }
    }
    assert rows[..|rows|] == rows;
    stuck := [];
    for i := 0 to |confirmed|
      invariant stuck == StuckAmong(ray, ray.pool.value, options, confirmed, confirmed[..i])
    {
      assert confirmed[..i + 1][..i] == confirmed[..i];
      if Wedged(ray, ray.pool.value, options, confirmed, confirmed[i]) { stuck := stuck + [confirmed[i].at]; }
    }
    assert confirmed[..|confirmed|] == confirmed;
  }

  lemma AgedInRange(vs: seq<View>, ray: Ray, timeout: int, p: nat)
    requires IsAged(vs, ray, timeout, p)
    ensures p < |vs|
  {
  }

  lemma SnapshotSet(tracked: seq<TrackedRef>, before: seq<View>, p: nat, v: View)
    requires |before| == |tracked| && p < |tracked| && tracked[p].AsView() == v
    requires forall i | 0 <= i < |tracked| && i != p :: tracked[i].AsView() == before[i]
    ensures Snapshot(tracked) == before[p := v]
  {
  }

  method ChiaWait(tracked: seq<TrackedRef>, ray: Ray, options: Options)
    returns (ready: seq<nat>, pending: seq<nat>, log: seq<Action>)
    requires DistinctRefs(Snapshot(tracked)) && (tracked != [] ==> Splits(Snapshot(tracked), ray))
    modifies set t | t in tracked
    ensures tracked == [] ==> ready == [] && pending == [] && log == []
    ensures tracked != [] ==>
              && ready == Positions(old(Snapshot(tracked)), ray.ready)
              && pending == Positions(old(Snapshot(tracked)), ray.pending)
              && Snapshot(tracked) == Outcome(old(Snapshot(tracked)), ray, options).vs
              && log == Outcome(old(Snapshot(tracked)), ray, options).log
  {
    if |tracked| == 0 { return [], [], []; }
    ghost var vs := Snapshot(tracked);
    var now := CurrentViews(tracked);
    ready := FindPositions(now, ray.ready);
    pending := FindPositions(now, ray.pending);
    log := [];
    if options.pendingTimeout.None? { return; }
    var stuck := ClassifyStuck(now, ray, options, pending);
    DistinctObjects(tracked);
    hide *;
    forall i | 0 <= i < |stuck| ensures stuck[i] < |tracked| { StuckInRange(now, ray, options, pending, i); }
    log := HandleStuck(tracked, stuck, ray, options);
    OutcomeIs(vs, ray, options);
  }

  lemma OutcomeIs(vs: seq<View>, ray: Ray, options: Options)
    ensures Outcome(vs, ray, options)
            == HandleAll(State(vs, [], 0), Stuck(vs, ray, options, Positions(vs, ray.pending)), ray, options)
  {
  }

  lemma DistinctObjects(tracked: seq<TrackedRef>)
    requires DistinctRefs(Snapshot(tracked))
    ensures forall i, j | 0 <= i < j < |tracked| :: tracked[i] != tracked[j]
  {
    hide Snapshot;
    var vs := Snapshot(tracked);
    forall i, j | 0 <= i < j < |tracked| ensures tracked[i] != tracked[j] {
      assert vs[i] == tracked[i].AsView() && vs[j] == tracked[j].AsView();
      assert vs[i].ref != vs[j].ref;
    }
  }

  method HandleStuck(tracked: seq<TrackedRef>, stuck: seq<nat>, ray: Ray, options: Options) returns (log: seq<Action>)
    requires forall i, j | 0 <= i < j < |tracked| :: tracked[i] != tracked[j]
    requires forall i | 0 <= i < |stuck| :: stuck[i] < |tracked|
    modifies set t | t in tracked
    ensures var s := HandleAll(State(old(Snapshot(tracked)), [], 0), stuck, ray, options);
            Snapshot(tracked) == s.vs && log == s.log
  {
    ghost var start := State(Snapshot(tracked), [], 0);
    log := [];
    var submitted := 0;
    for i := 0 to |stuck|
      invariant State(Snapshot(tracked), log, submitted) == HandleAll(start, stuck[..i], ray, options)
    {
      hide *;
      HandleNext(start, stuck, i, ray, options);
      log, submitted := HandleOne(tracked, stuck[i], ray, options, log, submitted);
    }
    assert stuck[..|stuck|] == stuck;
  }

  method HandleOne(tracked: seq<TrackedRef>, p: nat, ray: Ray, options: Options, log0: seq<Action>, submitted0: nat)
    returns (log: seq<Action>, submitted: nat)
    requires (forall i, j | 0 <= i < j < |tracked| :: tracked[i] != tracked[j]) && p < |tracked|
    modifies tracked[p]
    ensures State(Snapshot(tracked), log, submitted)
            == Handle(State(old(Snapshot(tracked)), log0, submitted0), p, ray, options)
  {
    log, submitted := log0, submitted0;
    ghost var before := Snapshot(tracked);
    var tr := tracked[p];
    assert before[p] == tr.AsView();
    if options.retry && tr.canSubmit && tr.retries < options.maxRetries {
      log := log + [Cancel(tr.ref), Resubmit(p)];
      tr.RetryStuck(ray.submit(submitted), ray.later);
      submitted := submitted + 1;
      SnapshotSet(tracked, before, p, tr.AsView());
    } else if options.cancelOnStuck {
      log := log + [Cancel(tr.ref)];
    }
  }

  method CurrentViews(tracked: seq<TrackedRef>) returns (vs: seq<View>)
    ensures vs == Snapshot(tracked)
  {
    vs := [];
    for i := 0 to |tracked|
      invariant |vs| == i && forall j | 0 <= j < i :: vs[j] == tracked[j].AsView()
    {
      vs := vs + [tracked[i].AsView()];
    }
  }

  lemma HandleNext(s: State, ps: seq<nat>, i: nat, ray: Ray, options: Options)
    requires i < |ps|
    ensures HandleAll(s, ps[..i + 1], ray, options) == Handle(HandleAll(s, ps[..i], ray, options), ps[i], ray, options)
  {
    assert ps[..i + 1][..i] == ps[..i];
  }

  // ---------------------------------------------------------------- who can be stuck

  lemma {:induction false} AgedAre(vs: seq<View>, ray: Ray, timeout: int, pending: seq<nat>, t: int)
    requires t in AgedByTask(vs, ray, timeout, pending)
    ensures var p := AgedByTask(vs, ray, timeout, pending)[t];
            p in pending && IsAged(vs, ray, timeout, p) && p < |vs| && ray.taskOf(vs[p].ref) == t
  {
    var n := |pending| - 1;
    AgedRange(vs, ray, timeout, pending[n]);
    hide IsAged;
    assert pending == pending[..n] + [pending[n]];
    if t in AgedByTask(vs, ray, timeout, pending[..n]) { AgedAre(vs, ray, timeout, pending[..n], t); }
  }

  lemma AgedRange(vs: seq<View>, ray: Ray, timeout: int, p: nat)
    ensures IsAged(vs, ray, timeout, p) ==> p < |vs|
  {
  }

  lemma {:induction false} StuckFrom(ray: Ray, pool: Pool, options: Options, all: seq<Confirmed>, some: seq<Confirmed>,
                                     i: nat) returns (k: nat)
    requires i < |StuckAmong(ray, pool, options, all, some)|
    ensures k < |some| && some[k].at == StuckAmong(ray, pool, options, all, some)[i]
            && Wedged(ray, pool, options, all, some[k])
  {
    hide Wedged;
    var n := |some| - 1;
    if i < |StuckAmong(ray, pool, options, all, some[..n])| {
      k := StuckFrom(ray, pool, options, all, some[..n], i);
    } else {
      k := n;
    }
  }

  lemma {:induction false} ConfirmedFrom(aged: map<int, nat>, rows: seq<TaskRow>, k: nat) returns (r: nat)
    requires k < |ConfirmedRows(aged, rows)|
    ensures r < |rows| && rows[r].task in aged
            && ConfirmedRows(aged, rows)[k] == Confirmed(aged[rows[r].task], rows[r].required)
  {
    var n := |rows| - 1;
    if k < |ConfirmedRows(aged, rows[..n])| {
      r := ConfirmedFrom(aged, rows[..n], k);
    } else {
      r := n;
    }
  }

  /** A stuck reference is pending beyond the timeout and its task is reported as waiting for a node. */
  lemma StuckFromRow(vs: seq<View>, ray: Ray, options: Options, pending: seq<nat>, i: nat) returns (r: nat)
    requires i < |Stuck(vs, ray, options, pending)|
    ensures options.pendingTimeout.Some? && ray.rows.Some? && ray.pool.Some?
    ensures var p := Stuck(vs, ray, options, pending)[i];
            && p in pending && p < |vs| && IsAged(vs, ray, options.pendingTimeout.value, p)
            && r < |ray.rows.value| && ray.rows.value[r].task == ray.taskOf(vs[p].ref)
            && ray.taskOf(vs[p].ref) in AgedByTask(vs, ray, options.pendingTimeout.value, pending)
            && AgedByTask(vs, ray, options.pendingTimeout.value, pending)[ray.taskOf(vs[p].ref)] == p
  {
    var aged := AgedByTask(vs, ray, options.pendingTimeout.value, pending);
    var confirmed := ConfirmedRows(aged, ray.rows.value);
    var k := StuckFrom(ray, ray.pool.value, options, confirmed, confirmed, i);
    r := ConfirmedFrom(aged, ray.rows.value, k);
    AgedAre(vs, ray, options.pendingTimeout.value, pending, ray.rows.value[r].task);
    hide AgedByTask; hide ConfirmedRows; hide StuckAmong; hide IsAged; hide Wedged;
  }

  lemma StuckInRange(vs: seq<View>, ray: Ray, options: Options, pending: seq<nat>, i: nat)
    requires i < |Stuck(vs, ray, options, pending)|
    ensures Stuck(vs, ray, options, pending)[i] < |vs|
  {
    var r := StuckFromRow(vs, ray, options, pending, i);
  }

  // ---------------------------------------------------------------- exactly how often each one counts as stuck

  function Occurrences(ps: seq<nat>, p: nat): nat {
    if ps == [] then 0 else Occurrences(ps[..|ps| - 1], p) + (if ps[|ps| - 1] == p then 1 else 0)
  }

  lemma OccursMore(ps: seq<nat>, x: nat, p: nat)
    ensures Occurrences(ps + [x], p) == Occurrences(ps, p) + (if x == p then 1 else 0)
  {
    assert (ps + [x])[..|ps|] == ps;
  }

  lemma {:induction false} OccursAt(ps: seq<nat>, p: nat) returns (i: nat)
    requires Occurrences(ps, p) > 0
    ensures i < |ps| && ps[i] == p
  {
    var n := |ps| - 1;
    if ps[n] == p { i := n; } else { i := OccursAt(ps[..n], p); }
  }

  /** A reference of the task that has been waiting beyond the timeout. */
  ghost predicate Overdue(vs: seq<View>, ray: Ray, timeout: int, task: int, p: nat) {
    p < |vs| && ray.now - vs[p].submittedAt > timeout && ray.taskOf(vs[p].ref) == task
  }

  /** Pending beyond the timeout, and the last such reference of its task in the list. */
  ghost predicate LastAged(vs: seq<View>, ray: Ray, timeout: int, pending: seq<nat>, q: nat)
    requires q < |vs|
  {
    && Overdue(vs, ray, timeout, ray.taskOf(vs[q].ref), q)
    && exists i :: LastAt(vs, ray, timeout, pending, q, i)
  }

  ghost predicate LastAt(vs: seq<View>, ray: Ray, timeout: int, pending: seq<nat>, q: nat, i: int)
    requires q < |vs|
  {
    && 0 <= i < |pending| && pending[i] == q
    && forall j | i < j < |pending| :: !Overdue(vs, ray, timeout, ray.taskOf(vs[q].ref), pending[j])
  }

  lemma LastAgedSnoc(vs: seq<View>, ray: Ray, timeout: int, pending: seq<nat>, x: nat, q: nat)
    requires q < |vs|
    ensures LastAged(vs, ray, timeout, pending + [x], q)
            <==> if Overdue(vs, ray, timeout, ray.taskOf(vs[q].ref), x) then x == q
                 else LastAged(vs, ray, timeout, pending, q)
  {
    hide Overdue;
    var all, n := pending + [x], |pending|;
    assert all[n] == x && forall i | 0 <= i < n :: all[i] == pending[i];
    if i :| LastAt(vs, ray, timeout, pending, q, i) && !Overdue(vs, ray, timeout, ray.taskOf(vs[q].ref), x) {
      assert LastAt(vs, ray, timeout, all, q, i);
    }
    if i :| LastAt(vs, ray, timeout, all, q, i) {
      if i < n { assert LastAt(vs, ray, timeout, pending, q, i); }
    }
    if x == q { assert LastAt(vs, ray, timeout, all, q, n); }
  }

  lemma OverdueIs(vs: seq<View>, ray: Ray, timeout: int, task: int, p: nat)
    ensures Overdue(vs, ray, timeout, task, p) <==> IsAged(vs, ray, timeout, p) && ray.taskOf(vs[p].ref) == task
  {
  }

  /** The dictionary of aged references keeps, of each task, the last one. */
  lemma {:induction false} AgedKeepsLast(vs: seq<View>, ray: Ray, timeout: int, pending: seq<nat>, q: nat)
    requires q < |vs|
    ensures var aged, t := AgedByTask(vs, ray, timeout, pending), ray.taskOf(vs[q].ref);
            t in aged && aged[t] == q <==> LastAged(vs, ray, timeout, pending, q)
  {
    if pending != [] {
      var n := |pending| - 1;
      AgedKeepsLast(vs, ray, timeout, pending[..n], q);
      LastAgedSnoc(vs, ray, timeout, pending[..n], pending[n], q);
      OverdueIs(vs, ray, timeout, ray.taskOf(vs[q].ref), pending[n]);
      AgedRange(vs, ray, timeout, pending[n]);
      assert pending == pending[..n] + [pending[n]];
      hide LastAged; hide IsAged; hide Overdue;
    }
  }

  function RowsFor(rows: seq<TaskRow>, task: int): nat {
    if rows == [] then 0 else RowsFor(rows[..|rows| - 1], task) + (if rows[|rows| - 1].task == task then 1 else 0)
  }

  /** What the first row of a task requires. */
  function FirstRow(rows: seq<TaskRow>, task: int): Resources {
    if rows == [] then map[]
    else
      var n := |rows| - 1;
      if RowsFor(rows[..n], task) > 0 then FirstRow(rows[..n], task)
      else if rows[n].task == task then rows[n].required
      else map[]
  }

  /** A row's resources are available and underused, and, if that is asked for and can be told, nobody reports a
      demand for what the task's first row requires. */
  ghost predicate RowWedged(ray: Ray, pool: Pool, options: Options, first: Resources, row: TaskRow) {
    && (forall k | k in row.required :: Amount(pool.available, k) + 0.000000001 >= row.required[k])
    && (options.minFreeFraction > 0.0 ==>
          forall k | k in row.required ::
            Amount(pool.total, k) > 0.0
            && Amount(pool.available, k) / Amount(pool.total, k) >= options.minFreeFraction)
    && (options.requireDemandAbsent && ray.demand.Some? && ray.demand.value.Section? ==>
          exists k :: k in first && !ray.demand.value.mentions(k))
  }

  ghost function Amount(r: Resources, k: string): real {
    if k in r then r[k] else 0.0
  }

  lemma RowWedgedIs(ray: Ray, pool: Pool, options: Options, first: Resources, row: TaskRow)
    ensures RowWedged(ray, pool, options, first, row)
            <==> ResourcesCover(pool.available, row.required)
                 && ResourcesUnderused(pool.available, pool.total, row.required, options.minFreeFraction)
                 && (options.requireDemandAbsent && ray.demand.Some? ==> !Mentions(ray.demand.value, first))
  {
  }

  ghost function WedgedRows(ray: Ray, pool: Pool, options: Options, first: Resources, rows: seq<TaskRow>,
                            task: int): nat {
    if rows == [] then 0
    else
      var n := |rows| - 1;
      WedgedRows(ray, pool, options, first, rows[..n], task)
      + (if rows[n].task == task && RowWedged(ray, pool, options, first, rows[n]) then 1 else 0)
  }

  lemma {:induction false} WedgedAtMost(ray: Ray, pool: Pool, options: Options, first: Resources, rows: seq<TaskRow>,
                                        task: int)
    ensures WedgedRows(ray, pool, options, first, rows, task) <= RowsFor(rows, task)
  {
    hide RowWedged;
    if rows != [] { WedgedAtMost(ray, pool, options, first, rows[..|rows| - 1], task); }
  }

  /** The rows that name the task of q, and no others, speak about q. */
  ghost predicate Names(aged: map<int, nat>, task: int, q: nat) {
    task in aged && aged[task] == q && forall t | t in aged && aged[t] == q :: t == task
  }

  function CountAt(cs: seq<Confirmed>, p: nat): nat {
    if cs == [] then 0 else CountAt(cs[..|cs| - 1], p) + (if cs[|cs| - 1].at == p then 1 else 0)
  }

  lemma FirstRequiredSnoc(cs: seq<Confirmed>, c: Confirmed, at: nat)
    ensures FirstRequired(cs + [c], at)
            == if CountAt(cs, at) > 0 then FirstRequired(cs, at) else if c.at == at then c.required else map[]
    ensures CountAt(cs + [c], at) == CountAt(cs, at) + (if c.at == at then 1 else 0)
  {
    assert (cs + [c])[..|cs|] == cs;
    if cs == [] {
      assert cs + [c] == [c] && [c][1..] == [];
    } else {
      assert (cs + [c])[1..] == cs[1..] + [c];
      FirstRequiredSnoc(cs[1..], c, at);
      CountCons(cs, at);
    }
  }

  lemma {:induction false} CountCons(cs: seq<Confirmed>, at: nat)
    requires cs != []
    ensures CountAt(cs, at) == (if cs[0].at == at then 1 else 0) + CountAt(cs[1..], at)
  {
    var n := |cs| - 1;
    if n > 0 {
      CountCons(cs[..n], at);
      assert cs[..n][1..] == cs[1..][..n - 1];
    }
  }

  lemma ConfirmedLast(aged: map<int, nat>, rows: seq<TaskRow>)
    ensures rows == [] ==> ConfirmedRows(aged, rows) == []
    ensures rows != [] ==>
              var row := rows[|rows| - 1];
              ConfirmedRows(aged, rows)
              == ConfirmedRows(aged, rows[..|rows| - 1])
                + (if row.task in aged then [Confirmed(aged[row.task], row.required)] else [])
  {
  }

  /** The first confirmed row of q is the first row of its task. */
  lemma {:induction false} FirstConfirmed(aged: map<int, nat>, rows: seq<TaskRow>, task: int, q: nat)
    requires Names(aged, task, q)
    ensures CountAt(ConfirmedRows(aged, rows), q) == RowsFor(rows, task)
    ensures FirstRequired(ConfirmedRows(aged, rows), q) == FirstRow(rows, task)
  {
    ConfirmedLast(aged, rows);
    if rows != [] {
      var n := |rows| - 1;
      var before, row := ConfirmedRows(aged, rows[..n]), rows[n];
      hide ConfirmedRows; hide CountAt; hide FirstRequired;
      FirstConfirmed(aged, rows[..n], task, q);
      if row.task in aged {
        FirstRequiredSnoc(before, Confirmed(aged[row.task], row.required), q);
      } else {
        assert before + [] == before;
      }
    }
  }

  lemma StuckSnoc(ray: Ray, pool: Pool, options: Options, all: seq<Confirmed>, cs: seq<Confirmed>, c: Confirmed)
    ensures StuckAmong(ray, pool, options, all, cs + [c])
            == StuckAmong(ray, pool, options, all, cs) + (if Wedged(ray, pool, options, all, c) then [c.at] else [])
  {
    assert (cs + [c])[..|cs|] == cs;
    hide Wedged;
  }

  /** Every wedged row of its task counts q as stuck once. */
  lemma {:induction false} StuckPerRow(ray: Ray, pool: Pool, options: Options, all: seq<Confirmed>, aged: map<int, nat>,
                                       rows: seq<TaskRow>, task: int, q: nat)
    requires Names(aged, task, q)
    ensures Occurrences(StuckAmong(ray, pool, options, all, ConfirmedRows(aged, rows)), q)
            == WedgedRows(ray, pool, options, FirstRequired(all, q), rows, task)
  {
    ConfirmedLast(aged, rows);
    if rows == [] {
      hide Names;
    } else {
      var n := |rows| - 1;
      var before, row := ConfirmedRows(aged, rows[..n]), rows[n];
      StuckPerRow(ray, pool, options, all, aged, rows[..n], task, q);
      RowCounts(ray, pool, options, all, before, aged, row, task, q);
      hide *;
      WedgedRowsLast(ray, pool, options, FirstRequired(all, q), rows, task);
    }
  }

  lemma WedgedRowsLast(ray: Ray, pool: Pool, options: Options, first: Resources, rows: seq<TaskRow>, task: int)
    requires rows != []
    ensures var n := |rows| - 1;
            WedgedRows(ray, pool, options, first, rows, task)
            == WedgedRows(ray, pool, options, first, rows[..n], task)
               + (if rows[n].task == task && RowWedged(ray, pool, options, first, rows[n]) then 1 else 0)
  {
  }

  lemma RowCounts(ray: Ray, pool: Pool, options: Options, all: seq<Confirmed>, before: seq<Confirmed>,
                  aged: map<int, nat>,
                  row: TaskRow, task: int, q: nat)
    requires Names(aged, task, q)
    ensures var cs := before + (if row.task in aged then [Confirmed(aged[row.task], row.required)] else []);
            Occurrences(StuckAmong(ray, pool, options, all, cs), q)
            == Occurrences(StuckAmong(ray, pool, options, all, before), q)
               + (if row.task == task && RowWedged(ray, pool, options, FirstRequired(all, q), row) then 1 else 0)
  {
    RowWedgedIs(ray, pool, options, FirstRequired(all, q), row);
    hide StuckAmong; hide Occurrences; hide FirstRequired; hide Mentions; hide ResourcesCover; hide ResourcesUnderused;
    hide RowWedged;
    if row.task in aged {
      var c := Confirmed(aged[row.task], row.required);
      StuckSnoc(ray, pool, options, all, before, c);
      OccursMore(StuckAmong(ray, pool, options, all, before), c.at, q);
      assert StuckAmong(ray, pool, options, all, before) + [] == StuckAmong(ray, pool, options, all, before);
    } else {
      assert before + [] == before;
    }
  }

  /** How often q counts as stuck: as many times as the state API has a wedged row for its task, if every query
      answered and q is the last aged reference of its task; otherwise not at all. */
  ghost function StuckTimes(vs: seq<View>, ray: Ray, options: Options, pending: seq<nat>, q: nat): nat
    requires q < |vs|
  {
    if options.pendingTimeout.None? || ray.rows.None? || ray.pool.None? then 0
    else if !LastAged(vs, ray, options.pendingTimeout.value, pending, q) then 0
    else
      var task := ray.taskOf(vs[q].ref);
      WedgedRows(ray, ray.pool.value, options, FirstRow(ray.rows.value, task), ray.rows.value, task)
  }

  /** Who is stuck, exactly, and how often. */
  lemma StuckIs(vs: seq<View>, ray: Ray, options: Options, pending: seq<nat>, q: nat)
    requires q < |vs|
    ensures Occurrences(Stuck(vs, ray, options, pending), q) == StuckTimes(vs, ray, options, pending, q)
  {
    var stuck := Stuck(vs, ray, options, pending);
    if options.pendingTimeout.Some? && ray.rows.Some? && ray.pool.Some? {
      var timeout, task := options.pendingTimeout.value, ray.taskOf(vs[q].ref);
      var aged := AgedByTask(vs, ray, timeout, pending);
      var confirmed := ConfirmedRows(aged, ray.rows.value);
      assert stuck == StuckAmong(ray, ray.pool.value, options, confirmed, confirmed);
      AgedKeepsLast(vs, ray, timeout, pending, q);
      hide LastAged; hide AgedByTask; hide ConfirmedRows; hide StuckAmong; hide WedgedRows; hide FirstRow;
      hide FirstRequired;
      if LastAged(vs, ray, timeout, pending, q) {
        AgedNames(vs, ray, timeout, pending, q);
        FirstConfirmed(aged, ray.rows.value, task, q);
        StuckPerRow(ray, ray.pool.value, options, confirmed, aged, ray.rows.value, task, q);
      } else if Occurrences(stuck, q) > 0 {
        var i := OccursAt(stuck, q);
        var r := StuckFromRow(vs, ray, options, pending, i);
        assert false;
      }
    } else {
      assert Occurrences([], q) == 0;
    }
  }

  lemma AgedNames(vs: seq<View>, ray: Ray, timeout: int, pending: seq<nat>, q: nat)
    requires q < |vs| && LastAged(vs, ray, timeout, pending, q)
    ensures Names(AgedByTask(vs, ray, timeout, pending), ray.taskOf(vs[q].ref), q)
  {
    var aged := AgedByTask(vs, ray, timeout, pending);
    AgedKeepsLast(vs, ray, timeout, pending, q);
    hide LastAged; hide AgedByTask; hide IsAged;
    forall t | t in aged && aged[t] == q ensures t == ray.taskOf(vs[q].ref) { AgedAre(vs, ray, timeout, pending, t); }
  }

  // ---------------------------------------------------------------- one call

  lemma {:induction false} PositionIs(vs: seq<View>, p: nat)
    requires DistinctRefs(vs) && p < |vs|
    ensures PositionOf(vs, vs[p].ref) == p
  {
    var n := |vs| - 1;
    if p < n {
      assert vs[..n][p] == vs[p];
      assert DistinctRefs(vs[..n]) by { assert forall i | 0 <= i < n :: vs[..n][i] == vs[i]; }
      PositionIs(vs[..n], p);
    }
  }

  /** Every tracked reference comes back exactly once, as ready or as pending, and by identity. */
  lemma SplitByIdentity(vs: seq<View>, ray: Ray, p: nat)
    requires DistinctRefs(vs) && Splits(vs, ray) && p < |vs|
    ensures var all := Positions(vs, ray.ready) + Positions(vs, ray.pending);
            && p in all
            && (forall i, j | 0 <= i < j < |all| :: all[i] != all[j])
            && (p in Positions(vs, ray.ready) <==> vs[p].ref in ray.ready)
            && !(p in Positions(vs, ray.ready) && p in Positions(vs, ray.pending))
  {
    var refs := ray.ready + ray.pending;
    var all := Positions(vs, ray.ready) + Positions(vs, ray.pending);
    forall i | 0 <= i < |refs| ensures all[i] < |vs| && vs[all[i]].ref == refs[i] { PositionOfRef(vs, ray, i); }
    assert vs[p].ref in refs;
    hide Positions; hide PositionOf; hide Splits; hide DistinctRefs;
    OnlyOnce(vs, refs, all, p) by { SplitsOnce(vs, ray); RefsOnce(vs); }
    InHalves(ray.ready, ray.pending, Positions(vs, ray.ready), Positions(vs, ray.pending), vs, p);
  }

  lemma PositionOfRef(vs: seq<View>, ray: Ray, i: nat)
    requires DistinctRefs(vs) && Splits(vs, ray) && i < |ray.ready + ray.pending|
    ensures var all := Positions(vs, ray.ready) + Positions(vs, ray.pending);
            all[i] < |vs| && vs[all[i]].ref == (ray.ready + ray.pending)[i]
  {
    var refs := ray.ready + ray.pending;
    assert refs[i] in refs;
    var q :| 0 <= q < |vs| && vs[q].ref == refs[i];
    PositionIs(vs, q);
    hide PositionOf; hide Splits; hide DistinctRefs;
    assert (Positions(vs, ray.ready) + Positions(vs, ray.pending))[i] == PositionOf(vs, refs[i]);
  }

  lemma SplitsOnce(vs: seq<View>, ray: Ray)
    requires Splits(vs, ray)
    ensures NoRepeats(ray.ready + ray.pending)
  {
  }

  lemma RefsOnce(vs: seq<View>)
    requires DistinctRefs(vs)
    ensures forall i, j | 0 <= i < |vs| && 0 <= j < |vs| && vs[i].ref == vs[j].ref :: i == j
  {
  }

  lemma OnlyOnce(vs: seq<View>, refs: seq<Ref>, all: seq<nat>, p: nat)
    requires |all| == |refs| && p < |vs| && vs[p].ref in refs && NoRepeats(refs)
    requires forall i | 0 <= i < |refs| :: all[i] < |vs| && vs[all[i]].ref == refs[i]
    requires forall i, j | 0 <= i < |vs| && 0 <= j < |vs| && vs[i].ref == vs[j].ref :: i == j
    ensures p in all && (forall i, j | 0 <= i < j < |all| :: all[i] != all[j])
    ensures forall i | 0 <= i < |refs| :: all[i] == p <==> refs[i] == vs[p].ref
  {
    var k :| 0 <= k < |refs| && refs[k] == vs[p].ref;
    assert all[k] == p;
    forall i, j | 0 <= i < j < |all| ensures all[i] != all[j] { assert refs[i] != refs[j]; }
  }

  lemma InHalves(a: seq<Ref>, b: seq<Ref>, pa: seq<nat>, pb: seq<nat>, vs: seq<View>, p: nat)
    requires |pa| == |a| && |pb| == |b| && p < |vs|
    requires forall i | 0 <= i < |a + b| :: (pa + pb)[i] == p <==> (a + b)[i] == vs[p].ref
    requires forall i, j | 0 <= i < j < |pa + pb| :: (pa + pb)[i] != (pa + pb)[j]
    ensures (p in pa <==> vs[p].ref in a) && !(p in pa && p in pb)
  {
    assert forall i | 0 <= i < |a| :: (a + b)[i] == a[i] && (pa + pb)[i] == pa[i];
    assert forall i | 0 <= i < |b| :: (pa + pb)[|a| + i] == pb[i];
  }

  function Resubmits(log: seq<Action>, p: nat): nat {
    if log == [] then 0 else Resubmits(log[..|log| - 1], p) + (if log[|log| - 1] == Resubmit(p) then 1 else 0)
  }

  lemma ResubmitsMore(log: seq<Action>, a: Action, p: nat)
    ensures Resubmits(log + [a], p) == Resubmits(log, p) + (if a == Resubmit(p) then 1 else 0)
  {
    assert (log + [a])[..|log|] == log;
  }

  function Max(a: int, b: int): int {
    if a > b then a else b
  }

  /** How many of n resubmissions a reference is granted: as many as are left up to the limit, if any are allowed. */
  function Granted(options: Options, v: View, n: nat): nat {
    if options.retry && v.canSubmit then
      if n <= Max(0, options.maxRetries - v.retries) then n else Max(0, options.maxRetries - v.retries)
    else 0
  }

  /** One stuck entry handled. */
  lemma HandleIs(s: State, p: nat, ray: Ray, options: Options, q: nat)
    requires q < |s.vs|
    ensures var t := Handle(s, p, ray, options);
            var granted := options.retry && s.vs[q].canSubmit && s.vs[q].retries < options.maxRetries;
            var more := if p == q && granted then 1 else 0;
            && t.vs[q].retries == s.vs[q].retries + more && Resubmits(t.log, q) == Resubmits(s.log, q) + more
            && t.vs[q].canSubmit == s.vs[q].canSubmit
            && (more == 0 ==> t.vs[q] == s.vs[q])
  {
    if p < |s.vs| {
      var v := s.vs[p];
      ResubmitsMore(s.log, Cancel(v.ref), q);
      ResubmitsMore(s.log + [Cancel(v.ref)], Resubmit(p), q);
      assert s.log + [Cancel(v.ref), Resubmit(p)] == (s.log + [Cancel(v.ref)]) + [Resubmit(p)];
    }
    hide Resubmits;
  }

  lemma GrantedMore(options: Options, v: View, w: View, n: nat)
    requires w.retries == v.retries + Granted(options, v, n) && w.canSubmit == v.canSubmit
    ensures Granted(options, v, n + 1)
            == Granted(options, v, n) + if options.retry && w.canSubmit && w.retries < options.maxRetries then 1 else 0
  {
  }

  lemma HandleLast(s: State, ps: seq<nat>, ray: Ray, options: Options, q: nat)
    ensures ps == [] ==> HandleAll(s, ps, ray, options) == s && Occurrences(ps, q) == 0
    ensures ps != [] ==>
              var n := |ps| - 1;
              && HandleAll(s, ps, ray, options) == Handle(HandleAll(s, ps[..n], ray, options), ps[n], ray, options)
              && Occurrences(ps, q) == Occurrences(ps[..n], q) + (if ps[n] == q then 1 else 0)
  {
    hide Handle;
  }

  /** All of them handled: a reference that counts as stuck n times is resubmitted exactly as often as granted. */
  lemma {:induction false} HandleAllIs(s: State, ps: seq<nat>, ray: Ray, options: Options, q: nat)
    requires q < |s.vs|
    ensures var t := HandleAll(s, ps, ray, options);
            var more := Granted(options, s.vs[q], Occurrences(ps, q));
            && t.vs[q].retries == s.vs[q].retries + more && Resubmits(t.log, q) == Resubmits(s.log, q) + more
            && t.vs[q].canSubmit == s.vs[q].canSubmit
            && (more == 0 ==> t.vs[q] == s.vs[q])
  {
    hide *;
    HandleLast(s, ps, ray, options, q);
    GrantedNone(options, s.vs[q]);
    if ps != [] {
      var n := |ps| - 1;
      var before := HandleAll(s, ps[..n], ray, options);
      HandleAllIs(s, ps[..n], ray, options, q);
      HandleIs(before, ps[n], ray, options, q);
      GrantedMore(options, s.vs[q], before.vs[q], Occurrences(ps[..n], q));
    }
  }

  lemma GrantedNone(options: Options, v: View)
    ensures Granted(options, v, 0) == 0
  {
  }

  /** One call, exactly: a reference is resubmitted once for every time it counts as stuck, as long as resubmitting
      is allowed and the limit is not reached, and its retry count grows by just that; one that is not
      resubmitted is left as it was, and one that is was pending. */
  lemma CallIsSafe(vs: seq<View>, ray: Ray, options: Options, q: nat)
    requires DistinctRefs(vs) && Splits(vs, ray) && q < |vs|
    ensures var t := Outcome(vs, ray, options);
            var resubmitted := Resubmits(t.log, q);
            && resubmitted == Granted(options, vs[q], StuckTimes(vs, ray, options, Positions(vs, ray.pending), q))
            && t.vs[q].retries == vs[q].retries + resubmitted
            && t.vs[q].retries <= Max(vs[q].retries, options.maxRetries)
            && (resubmitted == 0 ==> t.vs[q] == vs[q])
            && (resubmitted > 0 ==>
                  && q in Positions(vs, ray.pending) && q !in Positions(vs, ray.ready)
                  && ray.rows.Some? && resubmitted <= RowsFor(ray.rows.value, ray.taskOf(vs[q].ref)))
  {
    var pending := Positions(vs, ray.pending);
    var times := StuckTimes(vs, ray, options, pending, q);
    HandleAllIs(State(vs, [], 0), Stuck(vs, ray, options, pending), ray, options, q);
    StuckIs(vs, ray, options, pending, q);
    SplitByIdentity(vs, ray, q);
    assert Resubmits([], q) == 0;
    GrantedAtMost(options, vs[q], times);
    StuckTimesBound(vs, ray, options, pending, q);
    hide *;
    OutcomeIs(vs, ray, options);
  }

  // ---------------------------------------------------------------- the actions, one by one

  /** How many resubmissions there are, of whatever reference. */
  ghost function Submits(log: seq<Action>): nat {
    if log == [] then 0 else Submits(log[..|log| - 1]) + (if log[|log| - 1].Resubmit? then 1 else 0)
  }

  ghost function Cancels(log: seq<Action>): nat {
    if log == [] then 0 else Cancels(log[..|log| - 1]) + (if log[|log| - 1].Cancel? then 1 else 0)
  }

  /** The reference held for p after these actions: that of its last resubmission. */
  ghost function Held(vs: seq<View>, ray: Ray, log: seq<Action>, p: nat): Ref
    requires p < |vs|
  {
    if log == [] then vs[p].ref
    else
      var n := |log| - 1;
      if log[n] == Resubmit(p) then ray.submit(Submits(log[..n])) else Held(vs, ray, log[..n], p)
  }

  /** A cancellation is of the reference then held for some stuck p; a resubmission of p comes right after that of the
      reference held for p. */
  ghost predicate ActionFits(vs: seq<View>, ray: Ray, stuck: seq<nat>, log: seq<Action>, i: nat)
    requires i < |log|
  {
    match log[i]
    case Cancel(r) => exists p :: p in stuck && p < |vs| && r == Held(vs, ray, log[..i], p)
    case Resubmit(p) => p in stuck && p < |vs| && i > 0 && log[i - 1] == Cancel(Held(vs, ray, log[..i - 1], p))
  }

  /** What has been done about the stuck ones so far. */
  ghost predicate Acted(vs: seq<View>, ray: Ray, options: Options, stuck: seq<nat>, done: nat, t: State) {
    && |t.vs| == |vs| && t.submitted == Submits(t.log)
    && Cancels(t.log) == (if options.cancelOnStuck then done else Submits(t.log))
    && (forall p: nat | p < |vs| :: HeldIs(vs, ray, t, p))
    && forall i | 0 <= i < |t.log| :: ActionFits(vs, ray, stuck, t.log, i)
  }

  /** The tracked reference and time are those of the last resubmission. */
  ghost predicate HeldIs(vs: seq<View>, ray: Ray, t: State, p: nat) {
    && p < |vs| == |t.vs| && t.vs[p].ref == Held(vs, ray, t.log, p)
    && t.vs[p].submittedAt == (if Resubmits(t.log, p) > 0 then ray.later else vs[p].submittedAt)
  }

  lemma LogGrows(vs: seq<View>, ray: Ray, log: seq<Action>, a: Action, p: nat)
    requires p < |vs|
    ensures Submits(log + [a]) == Submits(log) + (if a.Resubmit? then 1 else 0)
    ensures Cancels(log + [a]) == Cancels(log) + (if a.Cancel? then 1 else 0)
    ensures Held(vs, ray, log + [a], p) == if a == Resubmit(p) then ray.submit(Submits(log)) else Held(vs, ray, log, p)
    ensures Resubmits(log + [a], p) == Resubmits(log, p) + (if a == Resubmit(p) then 1 else 0)
  {
    assert (log + [a])[..|log|] == log;
  }

  lemma FitsStill(vs: seq<View>, ray: Ray, stuck: seq<nat>, log: seq<Action>, a: Action)
    requires forall i | 0 <= i < |log| :: ActionFits(vs, ray, stuck, log, i)
    requires ActionFits(vs, ray, stuck, log + [a], |log|)
    ensures forall i | 0 <= i < |log + [a]| :: ActionFits(vs, ray, stuck, log + [a], i)
  {
    var all := log + [a];
    forall i | 0 <= i < |log| ensures ActionFits(vs, ray, stuck, all, i) {
      assert ActionFits(vs, ray, stuck, log, i) && all[..i] == log[..i] && all[i] == log[i];
      if i > 0 { assert all[..i - 1] == log[..i - 1] && all[i - 1] == log[i - 1]; }
    }
  }

  lemma CancelFits(vs: seq<View>, ray: Ray, stuck: seq<nat>, log: seq<Action>, p: nat)
    requires p in stuck && p < |vs|
    ensures ActionFits(vs, ray, stuck, log + [Cancel(Held(vs, ray, log, p))], |log|)
  {
    assert (log + [Cancel(Held(vs, ray, log, p))])[..|log|] == log;
    hide Held;
  }

  lemma ResubmitFits(vs: seq<View>, ray: Ray, stuck: seq<nat>, log: seq<Action>, p: nat)
    requires p in stuck && p < |vs|
    ensures var c := log + [Cancel(Held(vs, ray, log, p))]; ActionFits(vs, ray, stuck, c + [Resubmit(p)], |c|)
  {
    var c := log + [Cancel(Held(vs, ray, log, p))];
    var all := c + [Resubmit(p)];
    assert all[..|log|] == log && all[|log|] == c[|log|];
    hide Held;
  }

  lemma ActedCancel(vs: seq<View>, ray: Ray, options: Options, stuck: seq<nat>, done: nat, t: State, p: nat)
    requires Acted(vs, ray, options, stuck, done, t) && p in stuck && p < |vs| && options.cancelOnStuck
    ensures Acted(vs, ray, options, stuck, done + 1, t.(log := t.log + [Cancel(t.vs[p].ref)]))
  {
    var a := Cancel(t.vs[p].ref);
    assert HeldIs(vs, ray, t, p);
    CancelFits(vs, ray, stuck, t.log, p);
    FitsStill(vs, ray, stuck, t.log, a);
    var u := t.(log := t.log + [a]);
    LogGrows(vs, ray, t.log, a, p);
    forall q: nat | q < |vs| ensures HeldIs(vs, ray, u, q) {
      assert HeldIs(vs, ray, t, q);
      LogGrows(vs, ray, t.log, a, q);
    }
    hide ActionFits; hide HeldIs; hide Submits; hide Cancels;
  }

  lemma ActedResubmit(vs: seq<View>, ray: Ray, options: Options, stuck: seq<nat>, done: nat, t: State, p: nat)
    requires Acted(vs, ray, options, stuck, done, t) && p in stuck && p < |vs|
    ensures var v := View(ray.submit(t.submitted), t.vs[p].canSubmit, ray.later, t.vs[p].retries + 1);
            Acted(vs, ray, options, stuck, done + 1,
                  State(t.vs[p := v], t.log + [Cancel(t.vs[p].ref), Resubmit(p)], t.submitted + 1))
  {
    var a := Cancel(t.vs[p].ref);
    var v := View(ray.submit(t.submitted), t.vs[p].canSubmit, ray.later, t.vs[p].retries + 1);
    assert HeldIs(vs, ray, t, p);
    CancelFits(vs, ray, stuck, t.log, p);
    FitsStill(vs, ray, stuck, t.log, a);
    ResubmitFits(vs, ray, stuck, t.log, p);
    FitsStill(vs, ray, stuck, t.log + [a], Resubmit(p));
    assert t.log + [a, Resubmit(p)] == t.log + [a] + [Resubmit(p)];
    var u := State(t.vs[p := v], t.log + [a] + [Resubmit(p)], t.submitted + 1);
    LogGrows(vs, ray, t.log, a, p);
    LogGrows(vs, ray, t.log + [a], Resubmit(p), p);
    forall q: nat | q < |vs| ensures HeldIs(vs, ray, u, q) {
      assert HeldIs(vs, ray, t, q);
      LogGrows(vs, ray, t.log, a, q);
      LogGrows(vs, ray, t.log + [a], Resubmit(p), q);
      hide Held; hide Resubmits; hide Submits; hide Cancels; hide ActionFits;
    }
    hide ActionFits; hide HeldIs; hide Submits; hide Cancels;
  }

  lemma ActedNothing(vs: seq<View>, ray: Ray, options: Options, stuck: seq<nat>, done: nat, t: State)
    requires Acted(vs, ray, options, stuck, done, t) && !options.cancelOnStuck
    ensures Acted(vs, ray, options, stuck, done + 1, t)
  {
    hide ActionFits; hide HeldIs; hide Submits; hide Cancels;
  }

  lemma ActedStart(vs: seq<View>, ray: Ray, options: Options, stuck: seq<nat>)
    ensures Acted(vs, ray, options, stuck, 0, State(vs, [], 0))
  {
  }

  lemma HandleCases(s: State, p: nat, ray: Ray, options: Options)
    requires p < |s.vs|
    ensures var v := s.vs[p];
            Handle(s, p, ray, options)
            == if options.retry && v.canSubmit && v.retries < options.maxRetries then
                 State(s.vs[p := View(ray.submit(s.submitted), v.canSubmit, ray.later, v.retries + 1)],
                       s.log + [Cancel(v.ref), Resubmit(p)], s.submitted + 1)
               else if options.cancelOnStuck then s.(log := s.log + [Cancel(v.ref)])
               else s
  {
  }

  lemma {:induction false} AllActed(vs: seq<View>, ray: Ray, options: Options, stuck: seq<nat>, n: nat)
    requires n <= |stuck| && forall i | 0 <= i < |stuck| :: stuck[i] < |vs|
    ensures Acted(vs, ray, options, stuck, n, HandleAll(State(vs, [], 0), stuck[..n], ray, options))
  {
    hide *;
    if n == 0 {
      ActedStart(vs, ray, options, stuck);
      HandleLast(State(vs, [], 0), stuck[..0], ray, options, 0);
    } else {
      var before, p := HandleAll(State(vs, [], 0), stuck[..n - 1], ray, options), stuck[n - 1];
      AllActed(vs, ray, options, stuck, n - 1);
      HandleNext(State(vs, [], 0), stuck, n - 1, ray, options);
      HandleCases(before, p, ray, options);
      if options.retry && before.vs[p].canSubmit && before.vs[p].retries < options.maxRetries {
        ActedResubmit(vs, ray, options, stuck, n - 1, before, p);
      } else if options.cancelOnStuck {
        ActedCancel(vs, ray, options, stuck, n - 1, before, p);
      } else {
        ActedNothing(vs, ray, options, stuck, n - 1, before);
      }
    }
  }

  /** Every action of a call: what is held at the end is what the last resubmission gave, at its time; a resubmission
      comes right after cancelling what was held; and every stuck one is cancelled once for each time it counts, or,
      unless cancelling is asked for, just those that are resubmitted. */
  lemma ActionsAre(vs: seq<View>, ray: Ray, options: Options)
    ensures var t, stuck := Outcome(vs, ray, options), Stuck(vs, ray, options, Positions(vs, ray.pending));
            && (forall p: nat | p < |vs| :: HeldIs(vs, ray, t, p))
            && (forall i | 0 <= i < |t.log| :: ActionFits(vs, ray, stuck, t.log, i))
            && Cancels(t.log) == if options.cancelOnStuck then |stuck| else Submits(t.log)
  {
    hide *;
    var pending := Positions(vs, ray.pending);
    var stuck := Stuck(vs, ray, options, pending);
    OutcomeIs(vs, ray, options);
    if options.pendingTimeout.Some? {
      forall i | 0 <= i < |stuck| ensures stuck[i] < |vs| { StuckInRange(vs, ray, options, pending, i); }
    } else {
      NobodyStuck(vs, ray, options, pending);
    }
    AllActed(vs, ray, options, stuck, |stuck|);
    assert stuck[..|stuck|] == stuck;
    ActedIs(vs, ray, options, stuck, |stuck|, Outcome(vs, ray, options));
  }

  lemma NobodyStuck(vs: seq<View>, ray: Ray, options: Options, pending: seq<nat>)
    requires options.pendingTimeout.None?
    ensures Stuck(vs, ray, options, pending) == []
  {
  }

  lemma ActedIs(vs: seq<View>, ray: Ray, options: Options, stuck: seq<nat>, done: nat, t: State)
    requires Acted(vs, ray, options, stuck, done, t)
    ensures (forall p: nat | p < |vs| :: HeldIs(vs, ray, t, p))
            && (forall i | 0 <= i < |t.log| :: ActionFits(vs, ray, stuck, t.log, i))
            && Cancels(t.log) == if options.cancelOnStuck then done else Submits(t.log)
  {
    hide ActionFits; hide HeldIs; hide Submits; hide Cancels;
  }

  lemma GrantedAtMost(options: Options, v: View, n: nat)
    ensures Granted(options, v, n) <= n && v.retries + Granted(options, v, n) <= Max(v.retries, options.maxRetries)
  {
  }

  lemma StuckTimesBound(vs: seq<View>, ray: Ray, options: Options, pending: seq<nat>, q: nat)
    requires q < |vs|
    ensures StuckTimes(vs, ray, options, pending, q) > 0 ==>
              && ray.rows.Some? && q in pending
              && StuckTimes(vs, ray, options, pending, q) <= RowsFor(ray.rows.value, ray.taskOf(vs[q].ref))
  {
    if StuckTimes(vs, ray, options, pending, q) > 0 {
      var task := ray.taskOf(vs[q].ref);
      WedgedAtMost(ray, ray.pool.value, options, FirstRow(ray.rows.value, task), ray.rows.value, task);
    }
    hide WedgedRows; hide FirstRow; hide RowsFor;
  }

  // ---------------------------------------------------------------- any sequence of calls

  /** A call on some of the references, by their positions in the whole population. */
  datatype Call = Call(members: seq<nat>, ray: Ray, options: Options)

  ghost predicate DistinctMembers(ms: seq<nat>, n: nat) {
    && (forall i | 0 <= i < |ms| :: ms[i] < n)
    && forall i, j | 0 <= i < j < |ms| :: ms[i] != ms[j]
  }

  function Pick(all: seq<View>, ms: seq<nat>): (vs: seq<View>)
    requires forall i | 0 <= i < |ms| :: ms[i] < |all|
    ensures |vs| == |ms| && forall i | 0 <= i < |ms| :: vs[i] == all[ms[i]]
  {
    seq(|ms|, i requires 0 <= i < |ms| => all[ms[i]])
  }

  function PutBack(all: seq<View>, ms: seq<nat>, vs: seq<View>): (r: seq<View>)
    requires |ms| == |vs| && forall i | 0 <= i < |ms| :: ms[i] < |all|
    ensures |r| == |all|
  {
    if ms == [] then all
    else
      var n := |ms| - 1;
      PutBack(all, ms[..n], vs[..n])[ms[n] := vs[n]]
  }

  ghost predicate Valid(all: seq<View>, c: Call) {
    DistinctMembers(c.members, |all|) && DistinctRefs(Pick(all, c.members)) && Splits(Pick(all, c.members), c.ray)
  }

  ghost function CallResult(all: seq<View>, c: Call): (r: seq<View>)
    requires Valid(all, c)
    ensures |r| == |all|
  {
    PutBack(all, c.members, Outcome(Pick(all, c.members), c.ray, c.options).vs)
  }

  ghost predicate ValidRun(all: seq<View>, calls: seq<Call>)
    decreases |calls|
  {
    calls == [] || (Valid(all, calls[0]) && ValidRun(CallResult(all, calls[0]), calls[1..]))
  }

  ghost function RunResult(all: seq<View>, calls: seq<Call>): (r: seq<View>)
    requires ValidRun(all, calls)
    ensures |r| == |all|
    decreases |calls|
  {
    if calls == [] then all else RunResult(CallResult(all, calls[0]), calls[1..])
  }

  /** How often reference `q` of the population is resubmitted over the run. */
  ghost function TotalResubmits(all: seq<View>, calls: seq<Call>, q: nat): nat
    requires ValidRun(all, calls)
    decreases |calls|
  {
    if calls == [] then 0
    else CallResubmits(all, calls[0], q) + TotalResubmits(CallResult(all, calls[0]), calls[1..], q)
  }

  ghost function CallResubmits(all: seq<View>, c: Call, q: nat): nat
    requires Valid(all, c)
  {
    if q in c.members then Resubmits(Outcome(Pick(all, c.members), c.ray, c.options).log, IndexIn(c.members, q)) else 0
  }

  function IndexIn(ms: seq<nat>, q: nat): (i: nat)
    ensures if q in ms then i < |ms| && ms[i] == q else i == |ms|
  {
    if ms == [] || ms[0] == q then 0 else 1 + IndexIn(ms[1..], q)
  }

  lemma {:induction false} PutBackIs(all: seq<View>, ms: seq<nat>, vs: seq<View>, q: nat)
    requires |ms| == |vs| && DistinctMembers(ms, |all|) && q < |all|
    ensures forall i | 0 <= i < |ms| && ms[i] == q :: PutBack(all, ms, vs)[q] == vs[i]
    ensures (forall i | 0 <= i < |ms| :: ms[i] != q) ==> PutBack(all, ms, vs)[q] == all[q]
  {
    if ms != [] {
      var n := |ms| - 1;
      assert forall i | 0 <= i < n :: ms[..n][i] == ms[i];
      PutBackIs(all, ms[..n], vs[..n], q);
      assert forall i | 0 <= i < n :: vs[..n][i] == vs[i];
    }
  }

  lemma CallCounts(all: seq<View>, c: Call, q: nat)
    requires Valid(all, c) && q < |all|
    ensures CallResult(all, c)[q].retries == all[q].retries + CallResubmits(all, c, q)
    ensures CallResult(all, c)[q].retries <= Max(all[q].retries, c.options.maxRetries)
  {
    var vs := Pick(all, c.members);
    var t := Outcome(vs, c.ray, c.options);
    PutBackIs(all, c.members, t.vs, q);
    hide Outcome; hide Stuck; hide Resubmits; hide PutBack; hide Positions; hide Splits; hide DistinctRefs;
    if q in c.members {
      var i := IndexIn(c.members, q);
      assert vs[i] == all[q];
      CallIsSafe(vs, c.ray, c.options, i);
    }
  }

  /** Bounded retry over whole runs: whatever is waited for, in whatever groups, and however often the state
      API repeats a row, a reference is resubmitted at most as often as its remaining retries. */
  lemma {:induction false} RunsAreBounded(all: seq<View>, calls: seq<Call>, q: nat, limit: int)
    requires ValidRun(all, calls) && q < |all|
    requires forall k | 0 <= k < |calls| :: calls[k].options.maxRetries <= limit
    ensures RunResult(all, calls)[q].retries == all[q].retries + TotalResubmits(all, calls, q)
    ensures TotalResubmits(all, calls, q) <= Max(0, limit - all[q].retries)
    decreases |calls|
  {
    if calls != [] {
      CallCounts(all, calls[0], q);
      assert forall k | 0 <= k < |calls| - 1 :: calls[1..][k] == calls[k + 1];
      hide CallResult; hide CallResubmits; hide Valid;
      RunsAreBounded(CallResult(all, calls[0]), calls[1..], q, limit);
    }
  }

  lemma OneAged(vs: seq<View>, ray: Ray, timeout: int, p: nat)
    requires IsAged(vs, ray, timeout, p)
    ensures p < |vs| && AgedByTask(vs, ray, timeout, [p]) == map[ray.taskOf(vs[p].ref) := p]
  {
    assert [p][..0] == [] && AgedByTask(vs, ray, timeout, []) == map[];
  }

  lemma TwoConfirmed(aged: map<int, nat>, row: TaskRow)
    requires row.task in aged
    ensures var c := Confirmed(aged[row.task], row.required);
            ConfirmedRows(aged, [row, row]) == [c, c]
  {
    assert [row, row][..1] == [row] && [row][..0] == [] && ConfirmedRows(aged, []) == [];
    assert ConfirmedRows(aged, [row]) == [Confirmed(aged[row.task], row.required)];
  }

  lemma TwoStuck(ray: Ray, pool: Pool, options: Options, c: Confirmed)
    requires Wedged(ray, pool, options, [c, c], c)
    ensures StuckAmong(ray, pool, options, [c, c], [c, c]) == [c.at, c.at]
  {
    hide Wedged;
    assert [c, c][..1] == [c] && [c][..0] == [] && StuckAmong(ray, pool, options, [c, c], []) == [];
    assert StuckAmong(ray, pool, options, [c, c], [c]) == [c.at];
  }

  lemma TwoHandled(s: State, p: nat, ray: Ray, options: Options)
    ensures HandleAll(s, [p, p], ray, options) == Handle(Handle(s, p, ray, options), p, ray, options)
  {
    HandleNext(s, [p, p], 0, ray, options);
    HandleNext(s, [p, p], 1, ray, options);
    hide Handle;
    assert [p, p][..0] == [] && [p, p][..2] == [p, p];
  }

  /** A row the state API repeats costs a retry of its own: the second handling cancels the submission
      the first has just made. */
  lemma RepeatedRowRetriesTwice(v: View, ray: Ray, options: Options, row: TaskRow)
    requires options.pendingTimeout.Some? && ray.pool.Some? && ray.rows == Some([row, row]) && ray.pending == [v.ref]
    requires IsAged([v], ray, options.pendingTimeout.value, 0) && row.task == ray.taskOf(v.ref)
    requires Wedged(ray, ray.pool.value, options, [Confirmed(0, row.required), Confirmed(0, row.required)],
             Confirmed(0, row.required))
    requires options.retry && v.canSubmit && v.retries + 1 < options.maxRetries
    ensures var t := Outcome([v], ray, options);
            && t.vs == [View(ray.submit(1), true, ray.later, v.retries + 2)]
            && t.log == [Cancel(v.ref), Resubmit(0), Cancel(ray.submit(0)), Resubmit(0)]
  {
    var c := Confirmed(0, row.required);
    OneAged([v], ray, options.pendingTimeout.value, 0);
    TwoConfirmed(map[row.task := 0], row);
    TwoStuck(ray, ray.pool.value, options, c);
    TwoHandled(State([v], [], 0), 0, ray, options);
    FirstPosition(v);
    HandledTwice(v, ray, options);
    hide AgedByTask; hide ConfirmedRows; hide StuckAmong; hide HandleAll; hide Positions; hide Wedged; hide IsAged;
    hide Handle;
  }

  /** The same with values: task 7 waits for one of eight free CPUs, its row comes twice, and of the two references
      submitted for it the first is cancelled at once. */
  lemma RepeatedRowExample()
    ensures var row := TaskRow(7, map["CPU" := 1.0]);
            var pool := Pool(map["CPU" := 8.0], map["CPU" := 8.0]);
            var ray := Ray([], [7], ref => ref, Some([row, row]), Some(pool), None, 100, 101, n => 100 + n);
            var t := Outcome([View(7, true, 0, 0)], ray, Options(Some(60), true, 3, false, 0.5, false));
            t.vs == [View(101, true, 101, 2)] && t.log == [Cancel(7), Resubmit(0), Cancel(100), Resubmit(0)]
  {
    var row := TaskRow(7, map["CPU" := 1.0]);
    var pool := Pool(map["CPU" := 8.0], map["CPU" := 8.0]);
    var ray := Ray([], [7], ref => ref, Some([row, row]), Some(pool), None, 100, 101, n => 100 + n);
    var options, v := Options(Some(60), true, 3, false, 0.5, false), View(7, true, 0, 0);
    var c := Confirmed(0, row.required);
    assert IsAged([v], ray, 60, 0) && ray.submit(0) == 100 && ray.submit(1) == 101;
    assert ResourcesCover(pool.available, c.required)
           && ResourcesUnderused(pool.available, pool.total, c.required, 0.5);
    assert Wedged(ray, pool, options, [c, c], c);
    hide Outcome; hide IsAged; hide Wedged;
    RepeatedRowRetriesTwice(v, ray, options, row);
  }

  lemma HandledTwice(v: View, ray: Ray, options: Options)
    requires options.retry && v.canSubmit && v.retries + 1 < options.maxRetries
    ensures var t := Handle(Handle(State([v], [], 0), 0, ray, options), 0, ray, options);
            && t.vs == [View(ray.submit(1), true, ray.later, v.retries + 2)]
            && t.log == [Cancel(v.ref), Resubmit(0), Cancel(ray.submit(0)), Resubmit(0)]
  {
    var w := View(ray.submit(0), true, ray.later, v.retries + 1);
    var s1 := State([w], [Cancel(v.ref), Resubmit(0)], 1);
    assert [v][0 := w] == [w] && [] + s1.log == s1.log;
    assert Handle(State([v], [], 0), 0, ray, options) == s1;
    var s2 := View(ray.submit(1), true, ray.later, v.retries + 2);
    assert [w][0 := s2] == [s2];
    assert s1.log + [Cancel(ray.submit(0)), Resubmit(0)]
           == [Cancel(v.ref), Resubmit(0), Cancel(ray.submit(0)), Resubmit(0)];
  }

  lemma FirstPosition(v: View)
    ensures Positions([v], [v.ref]) == [0]
  {
  }
}
