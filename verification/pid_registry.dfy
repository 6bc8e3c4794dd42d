/** Tracking the subprocesses of remote tasks, and killing them. */
module PidRegistry {

  // ---------------------------------------------------------------- the registry

  datatype Tracked = Tracked(node: string, pid: int, isPgid: bool)

  datatype Row = Row(task: string, pids: seq<Tracked>)

  /** A registered triple together with its task. */
  datatype Entry = Entry(task: string, process: Tracked)

  datatype Op = Register(task: string, process: Tracked) | Unregister(task: string) | GetAndRemove(task: string)
      | KillAll

  /** setdefault(task, []).append(p): at that task's row, or in a new one at the end. */
  function AppendTo(rows: seq<Row>, task: string, p: Tracked): seq<Row> {
    if rows == [] then [Row(task, [p])]
    else if rows[0].task == task then [Row(task, rows[0].pids + [p])] + rows[1..]
    else [rows[0]] + AppendTo(rows[1..], task, p)
  }

  function Without(rows: seq<Row>, task: string): seq<Row> {
    if rows == [] then [] else if rows[0].task == task then rows[1..] else [rows[0]] + Without(rows[1..], task)
  }

  function PidsOf(rows: seq<Row>, task: string): seq<Tracked> {
    if rows == [] then [] else if rows[0].task == task then rows[0].pids else PidsOf(rows[1..], task)
  }

  function AllPids(rows: seq<Row>): seq<Tracked> {
    if rows == [] then [] else rows[0].pids + AllPids(rows[1..])
  }

  function After(rows: seq<Row>, op: Op): seq<Row> {
    match op
    case Register(t, p) => AppendTo(rows, t, p)
    case Unregister(t) => Without(rows, t)
    case GetAndRemove(t) => Without(rows, t)
    case KillAll => []
  }

  class Registry {
    var tasks: seq<Row>

    constructor ()
      ensures tasks == []
    {
      tasks := [];
    }

    method IndexOf(task: string) returns (i: nat)
      ensures i <= |tasks| && (i < |tasks| ==> tasks[i].task == task)
      ensures forall j | 0 <= j < i :: tasks[j].task != task
    {
      i := 0;
      while i < |tasks| && tasks[i].task != task
        invariant i <= |tasks| && forall j | 0 <= j < i :: tasks[j].task != task
      {
        i := i + 1;
      }
    }

    method Register(task: string, p: Tracked)
      modifies this
      ensures tasks == After(old(tasks), Op.Register(task, p))
    {
      var i := IndexOf(task);
      AppendAt(tasks, task, p, i);
      if i < |tasks| {
        tasks := tasks[i := Row(task, tasks[i].pids + [p])];
      } else {
        tasks := tasks + [Row(task, [p])];
      }
    }

    method Unregister(task: string)
      modifies this
      ensures tasks == After(old(tasks), Op.Unregister(task))
    {
      var removed := GetAndRemove(task);
    }

    method GetAndRemove(task: string) returns (pids: seq<Tracked>)
      modifies this
      ensures tasks == After(old(tasks), Op.GetAndRemove(task)) && pids == PidsOf(old(tasks), task)
    {
      var i := IndexOf(task);
      RemoveAt(tasks, task, i);
      if i == |tasks| { return []; }
      pids := tasks[i].pids;
      tasks := tasks[..i] + tasks[i + 1..];
    }

    /** What the killer must kill. */
    method TakeAll() returns (pids: seq<Tracked>)
      modifies this
      ensures tasks == After(old(tasks), KillAll) && pids == AllPids(old(tasks))
    {
      pids := [];
      for i := 0 to |tasks|
        invariant tasks == old(tasks) && pids + AllPids(tasks[i..]) == AllPids(tasks)
      {
        pids := pids + tasks[i].pids;
      }
      tasks := [];
    }
  }

  lemma {:induction false} AppendAt(rows: seq<Row>, task: string, p: Tracked, i: nat)
    requires i <= |rows| && (i < |rows| ==> rows[i].task == task) && forall j | 0 <= j < i :: rows[j].task != task
    ensures AppendTo(rows, task, p)
            == if i < |rows| then rows[i := Row(task, rows[i].pids + [p])] else rows + [Row(task, [p])]
  {
    if i > 0 { AppendAt(rows[1..], task, p, i - 1); }
  }

  lemma {:induction false} RemoveAt(rows: seq<Row>, task: string, i: nat)
    requires i <= |rows| && (i < |rows| ==> rows[i].task == task) && forall j | 0 <= j < i :: rows[j].task != task
    ensures Without(rows, task) == if i < |rows| then rows[..i] + rows[i + 1..] else rows
    ensures PidsOf(rows, task) == if i < |rows| then rows[i].pids else []
  {
    hide *;
    WithoutCons(rows, task);
    if i == 0 {
      assert i < |rows| ==> rows[..i] + rows[i + 1..] == rows[1..];
    } else {
      RemoveAt(rows[1..], task, i - 1);
      if i < |rows| { SkipCons(rows, i); }
    }
  }

  lemma WithoutCons(rows: seq<Row>, task: string)
    ensures rows == [] ==> Without(rows, task) == rows && PidsOf(rows, task) == []
    ensures rows != [] && rows[0].task == task ==>
            Without(rows, task) == rows[1..] && PidsOf(rows, task) == rows[0].pids
    ensures rows != [] && rows[0].task != task ==>
              Without(rows, task) == [rows[0]] + Without(rows[1..], task)
                && PidsOf(rows, task) == PidsOf(rows[1..], task)
  {
  }

  lemma SkipCons(rows: seq<Row>, i: nat)
    requires 0 < i < |rows|
    ensures [rows[0]] + (rows[1..][..i - 1] + rows[1..][i..]) == rows[..i] + rows[i + 1..]
  {
  }

  // ---------------------------------------------------------------- conservation

  function Tag(task: string, pids: seq<Tracked>): seq<Entry> {
    if pids == [] then [] else Tag(task, pids[..|pids| - 1]) + [Entry(task, pids[|pids| - 1])]
  }

  function Entries(rows: seq<Row>): seq<Entry> {
    if rows == [] then [] else Tag(rows[0].task, rows[0].pids) + Entries(rows[1..])
  }

  function Count(es: seq<Entry>, e: Entry): nat {
    if es == [] then 0 else Count(es[..|es| - 1], e) + (if es[|es| - 1] == e then 1 else 0)
  }

  function CountAll(lists: seq<seq<Entry>>, e: Entry): nat {
    if lists == [] then 0 else CountAll(lists[..|lists| - 1], e) + Count(lists[|lists| - 1], e)
  }

  /** Everything that ever happened: what is tracked, and every registered entry's history. */
  datatype Ledger = Ledger(rows: seq<Row>, registered: seq<Entry>, dropped: seq<Entry>, handed: seq<seq<Entry>>)

  function Record(l: Ledger, op: Op): Ledger {
    var rows := After(l.rows, op);
    match op
    case Register(t, p) => l.(rows := rows, registered := l.registered + [Entry(t, p)])
    case Unregister(t) => l.(rows := rows, dropped := l.dropped + Tag(t, PidsOf(l.rows, t)))
    case GetAndRemove(t) => l.(rows := rows, handed := l.handed + [Tag(t, PidsOf(l.rows, t))])
    case KillAll => l.(rows := rows, handed := l.handed + [Entries(l.rows)])
  }

  function Recorded(ops: seq<Op>): Ledger {
    if ops == [] then Ledger([], [], [], []) else Record(Recorded(ops[..|ops| - 1]), ops[|ops| - 1])
  }

  lemma {:induction false} CountAppend(a: seq<Entry>, b: seq<Entry>, e: Entry)
    ensures Count(a + b, e) == Count(a, e) + Count(b, e)
  {
    if b == [] {
      assert a + b == a;
    } else {
      var n := |b| - 1;
      CountAppend(a, b[..n], e);
      assert (a + b)[..|a| + n] == a + b[..n];
    }
  }

  lemma TagSnoc(task: string, pids: seq<Tracked>, p: Tracked)
    ensures Tag(task, pids + [p]) == Tag(task, pids) + [Entry(task, p)]
  {
    assert (pids + [p])[..|pids|] == pids;
  }

  lemma EntriesCons(row: Row, rows: seq<Row>)
    ensures Entries([row] + rows) == Tag(row.task, row.pids) + Entries(rows)
  {
    assert ([row] + rows)[1..] == rows;
    hide Tag;
  }

  lemma CountOne(e: Entry, x: Entry)
    ensures Count([x], e) == if x == e then 1 else 0
  {
  }

  lemma {:induction false} RegisterCounts(rows: seq<Row>, task: string, p: Tracked, e: Entry)
    ensures Count(Entries(AppendTo(rows, task, p)), e)
            == Count(Entries(rows), e) + (if e == Entry(task, p) then 1 else 0)
  {
    if rows == [] {
      EntriesCons(Row(task, [p]), []);
      TagSnoc(task, [], p);
      assert [Row(task, [p])] + [] == [Row(task, [p])] && [] + [p] == [p]
             && Tag(task, []) + [Entry(task, p)] == [Entry(task, p)];
      assert Tag(task, [p]) + Entries([]) == [Entry(task, p)];
    } else {
      var row, rest := rows[0], rows[1..];
      assert rows == [row] + rest;
      EntriesCons(row, rest);
      CountAppend(Tag(row.task, row.pids), Entries(rest), e);
      if row.task == task {
        EntriesCons(Row(task, row.pids + [p]), rest);
        TagSnoc(task, row.pids, p);
        CountAppend(Tag(task, row.pids + [p]), Entries(rest), e);
        CountAppend(Tag(task, row.pids), [Entry(task, p)], e);
        CountOne(e, Entry(task, p));
      } else {
        EntriesCons(row, AppendTo(rest, task, p));
        CountAppend(Tag(row.task, row.pids), Entries(AppendTo(rest, task, p)), e);
        RegisterCounts(rest, task, p, e);
      }
    }
  }

  lemma {:induction false} RemoveCounts(rows: seq<Row>, task: string, e: Entry)
    ensures Count(Entries(rows), e) == Count(Entries(Without(rows, task)), e) + Count(Tag(task, PidsOf(rows, task)), e)
  {
    if rows != [] {
      var row, rest := rows[0], rows[1..];
      assert rows == [row] + rest;
      EntriesCons(row, rest);
      CountAppend(Tag(row.task, row.pids), Entries(rest), e);
      if row.task != task {
        EntriesCons(row, Without(rest, task));
        CountAppend(Tag(row.task, row.pids), Entries(Without(rest, task)), e);
        RemoveCounts(rest, task, e);
      }
    }
  }

  lemma CountAllSnoc(lists: seq<seq<Entry>>, l: seq<Entry>, e: Entry)
    ensures CountAll(lists + [l], e) == CountAll(lists, e) + Count(l, e)
  {
    assert (lists + [l])[..|lists|] == lists;
  }

  /** Over any interleaving, every registration is accounted for exactly once: still tracked, dropped by an
      unregister, or handed to one killer. */
  lemma {:induction false} Conservation(ops: seq<Op>, e: Entry)
    ensures var l := Recorded(ops);
            Count(l.registered, e) == Count(Entries(l.rows), e) + Count(l.dropped, e) + CountAll(l.handed, e)
  {
    if ops != [] {
      var l, op := Recorded(ops[..|ops| - 1]), ops[|ops| - 1];
      Conservation(ops[..|ops| - 1], e);
      RecordConserves(l, op, e);
      hide Record; hide Count; hide Entries; hide CountAll;
    }
  }

  lemma RecordConserves(l: Ledger, op: Op, e: Entry)
    ensures var m := Record(l, op);
            Count(m.registered, e) - Count(Entries(m.rows), e) - Count(m.dropped, e) - CountAll(m.handed, e)
            == Count(l.registered, e) - Count(Entries(l.rows), e) - Count(l.dropped, e) - CountAll(l.handed, e)
  {
    hide Count; hide CountAll; hide Tag; hide AppendTo; hide Without; hide PidsOf;
    match op
    case Register(t, p) =>
      RegisterCounts(l.rows, t, p, e);
      CountAppend(l.registered, [Entry(t, p)], e);
      CountOne(e, Entry(t, p));
    case Unregister(t) =>
      RemoveCounts(l.rows, t, e);
      CountAppend(l.dropped, Tag(t, PidsOf(l.rows, t)), e);
    case GetAndRemove(t) =>
      RemoveCounts(l.rows, t, e);
      CountAllSnoc(l.handed, Tag(t, PidsOf(l.rows, t)), e);
    case KillAll =>
      CountAllSnoc(l.handed, Entries(l.rows), e);
      NoEntries(e);
  }

  lemma NoEntries(e: Entry)
    ensures Count(Entries([]), e) == 0
  {
  }

  /** A triple registered once is in exactly one place, and handed to one killer at most. */
  lemma RegisteredOnce(ops: seq<Op>, e: Entry)
    requires Count(Recorded(ops).registered, e) == 1
    ensures var l := Recorded(ops);
            var places := [Count(Entries(l.rows), e), Count(l.dropped, e), CountAll(l.handed, e)];
            places == [1, 0, 0] || places == [0, 1, 0] || places == [0, 0, 1]
  {
    Conservation(ops, e);
    hide Recorded; hide Count; hide CountAll; hide Entries;
  }

  // ---------------------------------------------------------------- what a worker sends

  /** A worker process: threads entering and leaving a task's scope, and starting subprocesses. */
  datatype Event = Enter(thread: int, task: string) | Spawn(thread: int, process: Tracked)
      | Exit(thread: int, task: string)

  /** The thread-local task of each thread, None outside a scope. */
  function TaskOn(events: seq<Event>, thread: int): (t: seq<string>)
    ensures |t| <= 1
  {
    if events == [] then []
    else
      var e := events[|events| - 1];
      if e.thread != thread then TaskOn(events[..|events| - 1], thread)
      else match e
        case Enter(_, t) => [t]
        case Spawn(_, _) => TaskOn(events[..|events| - 1], thread)
        case Exit(_, _) => []
  }

  function MessageOf(events: seq<Event>, i: nat): seq<Op>
    requires i < |events|
  {
    match events[i]
    case Enter(_, _) => []
    case Spawn(th, p) => var t := TaskOn(events[..i], th); if t == [] then [] else [Register(t[0], p)]
    case Exit(_, t) => [Unregister(t)]
  }

  /** The messages a worker sends, in order. */
  function Sent(events: seq<Event>): seq<Op> {
    if events == [] then [] else Sent(events[..|events| - 1]) + MessageOf(events, |events| - 1)
  }

  /** A task runs on one thread of its worker: its scopes, nested or one after the other, are entered and left there. */
  ghost predicate OnThread(events: seq<Event>, task: string, thread: int) {
    forall i | 0 <= i < |events| && !events[i].Spawn? && events[i].task == task :: events[i].thread == thread
  }

  /** The scope left at x is the task's last: it is not entered again. */
  ghost predicate LastExit(events: seq<Event>, task: string, x: nat) {
    && x < |events| && events[x].Exit? && events[x].task == task
    && forall i | x < i < |events| && events[i].Enter? :: events[i].task != task
  }

  /** A thread is in a task's scope only if it entered it and has not left since. */
  lemma {:induction false} TaskOnEntered(events: seq<Event>, thread: int) returns (i: nat)
    requires TaskOn(events, thread) != []
    ensures i < |events| && events[i] == Enter(thread, TaskOn(events, thread)[0])
    ensures forall j | i < j < |events| :: events[j].thread == thread ==> events[j].Spawn?
  {
    var n := |events| - 1;
    var e := events[n];
    if e.thread == thread && e.Enter? {
      i := n;
    } else {
      i := TaskOnEntered(events[..n], thread);
      assert events[..n][i] == events[i];
      assert forall j | i < j < n :: events[..n][j] == events[j];
    }
  }

  /** After the last exit of a task nothing more is registered for it. */
  lemma NoSpawnAfterExit(events: seq<Event>, task: string, thread: int, x: nat, s: nat)
    requires OnThread(events, task, thread) && LastExit(events, task, x) && x < s < |events| && events[s].Spawn?
    ensures TaskOn(events[..s], events[s].thread) != [task]
  {
    var th := events[s].thread;
    assert events[..s][x] == events[x] && events[x].thread == thread;
    if TaskOn(events[..s], th) != [] {
      var i := TaskOnEntered(events[..s], th);
      assert events[..s][i] == events[i];
      hide TaskOn;
      assert events[i].task == task ==> th == thread;
    }
  }

  /** From message m on the task is registered no more. */
  ghost predicate TidyFrom(ops: seq<Op>, task: string, m: nat) {
    forall j | m <= j < |ops| && ops[j].Register? :: ops[j].task != task
  }

  lemma SentSnoc(events: seq<Event>, n: nat)
    requires n < |events|
    ensures Sent(events[..n + 1]) == Sent(events[..n]) + MessageOf(events, n)
  {
    var t := events[..n + 1];
    assert t[..n] == events[..n] && t[n] == events[n];
    hide TaskOn;
  }

  lemma TidySnoc(ops: seq<Op>, more: seq<Op>, task: string, m: nat)
    requires TidyFrom(ops, task, m) && forall i | 0 <= i < |more| :: more[i].Register? ==> more[i].task != task
    ensures TidyFrom(ops + more, task, m)
  {
  }

  lemma ExitMessage(events: seq<Event>, task: string, x: nat)
    requires LastExit(events, task, x)
    ensures MessageOf(events, x) == [Unregister(task)]
  {
  }

  lemma LateMessage(events: seq<Event>, task: string, thread: int, x: nat, n: nat)
    requires OnThread(events, task, thread) && LastExit(events, task, x) && x < n < |events|
    ensures forall i | 0 <= i < |MessageOf(events, n)| ::
              MessageOf(events, n)[i].Register? ==> MessageOf(events, n)[i].task != task
  {
    if events[n].Spawn? { NoSpawnAfterExit(events, task, thread, x, n); }
    hide TaskOn; hide OnThread; hide LastExit;
  }

  lemma TidyStart(ops: seq<Op>, task: string)
    ensures TidyFrom(ops + [Unregister(task)], task, |ops|)
  {
  }

  lemma {:induction false} TidyUpTo(events: seq<Event>, task: string, thread: int, x: nat, n: nat)
    requires OnThread(events, task, thread) && LastExit(events, task, x) && x < n <= |events|
    ensures var m := |Sent(events[..x])|;
            var ops := Sent(events[..n]);
            m < |ops| && ops[m] == Unregister(task) && TidyFrom(ops, task, m)
  {
    hide *;
    SentSnoc(events, n - 1);
    if n == x + 1 {
      ExitMessage(events, task, x);
      TidyStart(Sent(events[..x]), task);
    } else {
      TidyUpTo(events, task, thread, x, n - 1);
      LateMessage(events, task, thread, x, n - 1);
      TidySnoc(Sent(events[..n - 1]), MessageOf(events, n - 1), task, |Sent(events[..x])|);
    }
  }

  /** Whatever a worker's threads do, and however often a task's scope is nested or entered again, leaving it for the
      last time sends its unregister, and nothing is registered for the task after that. */
  lemma WorkersAreTidy(events: seq<Event>, task: string, thread: int, x: nat)
    requires OnThread(events, task, thread) && LastExit(events, task, x)
    ensures var m := |Sent(events[..x])|;
            m < |Sent(events)| && Sent(events)[m] == Unregister(task) && TidyFrom(Sent(events), task, m)
  {
    hide Sent; hide OnThread; hide TidyFrom; hide TaskOn;
    assert events[..|events|] == events;
    TidyUpTo(events, task, thread, x, |events|);
  }

  // ---------------------------------------------------------------- what the registry receives

  /** A delivered message and the process it came from. */
  datatype Delivery = Delivery(from: int, op: Op)

  function From(ds: seq<Delivery>, from: int): seq<Op> {
    if ds == [] then []
    else From(ds[..|ds| - 1], from) + (if ds[|ds| - 1].from == from then [ds[|ds| - 1].op] else [])
  }

  function SentBy(sent: map<int, seq<Op>>, from: int): seq<Op> {
    if from in sent then sent[from] else []
  }

  /** Any interleaving that keeps the order of each sender. */
  ghost predicate Fifo(ds: seq<Delivery>, sent: map<int, seq<Op>>) {
    forall from :: From(ds, from) <= SentBy(sent, from)
  }

  /** A task runs on one worker: only one sender registers and unregisters it. */
  ghost predicate OwnedBy(ds: seq<Delivery>, task: string, owner: int) {
    forall i | 0 <= i < |ds| && (ds[i].op.Register? || ds[i].op.Unregister?) && ds[i].op.task == task ::
      ds[i].from == owner
  }

  function Received(ds: seq<Delivery>): seq<Row> {
    if ds == [] then [] else After(Received(ds[..|ds| - 1]), ds[|ds| - 1].op)
  }

  predicate Holds(rows: seq<Row>, task: string) {
    exists i | 0 <= i < |rows| :: rows[i].task == task
  }

  ghost predicate Distinct(rows: seq<Row>) {
    forall i, j | 0 <= i < j < |rows| :: rows[i].task != rows[j].task
  }

  lemma HoldsCons(row: Row, rows: seq<Row>, task: string)
    ensures Holds([row] + rows, task) <==> row.task == task || Holds(rows, task)
  {
    var all := [row] + rows;
    assert all[0] == row && forall i | 0 <= i < |rows| :: all[i + 1] == rows[i];
  }

  lemma DistinctCons(row: Row, rows: seq<Row>)
    ensures Distinct([row] + rows) <==> Distinct(rows) && !Holds(rows, row.task)
  {
    var all := [row] + rows;
    assert all[0] == row && forall i | 0 <= i < |rows| :: all[i + 1] == rows[i];
    if Distinct(all) {
      forall i, j | 0 <= i < j < |rows| ensures rows[i].task != rows[j].task {
        assert all[i + 1] == rows[i] && all[j + 1] == rows[j];
      }
    }
  }

  lemma {:induction false} AppendToIs(rows: seq<Row>, task: string, p: Tracked, other: string)
    requires Distinct(rows)
    ensures Distinct(AppendTo(rows, task, p))
    ensures Holds(AppendTo(rows, task, p), other) <==> other == task || Holds(rows, other)
  {
    if rows == [] {
      HoldsCons(Row(task, [p]), [], other);
      assert [Row(task, [p])] + [] == [Row(task, [p])];
    } else {
      var row, rest := rows[0], rows[1..];
      assert rows == [row] + rest;
      hide Holds; hide Distinct;
      HoldsCons(row, rest, other);
      DistinctCons(row, rest);
      if row.task == task {
        HoldsCons(Row(task, row.pids + [p]), rest, other);
        DistinctCons(Row(task, row.pids + [p]), rest);
      } else {
        AppendToIs(rest, task, p, other);
        AppendToIs(rest, task, p, row.task);
        HoldsCons(row, AppendTo(rest, task, p), other);
        DistinctCons(row, AppendTo(rest, task, p));
      }
    }
  }

  lemma {:induction false} WithoutIs(rows: seq<Row>, task: string, other: string)
    requires Distinct(rows)
    ensures Distinct(Without(rows, task))
    ensures Holds(Without(rows, task), other) <==> other != task && Holds(rows, other)
  {
    if rows != [] {
      var row, rest := rows[0], rows[1..];
      assert rows == [row] + rest;
      hide Holds; hide Distinct;
      HoldsCons(row, rest, other);
      DistinctCons(row, rest);
      if row.task != task {
        WithoutIs(rest, task, other);
        WithoutIs(rest, task, row.task);
        HoldsCons(row, Without(rest, task), other);
        DistinctCons(row, Without(rest, task));
      }
    }
  }

  lemma {:induction false} ReceivedDistinct(ds: seq<Delivery>)
    ensures Distinct(Received(ds))
  {
    if ds != [] {
      var rows, op := Received(ds[..|ds| - 1]), ds[|ds| - 1].op;
      ReceivedDistinct(ds[..|ds| - 1]);
      match op
      case Register(t, p) => AppendToIs(rows, t, p, t);
      case Unregister(t) => WithoutIs(rows, t, t);
      case GetAndRemove(t) => WithoutIs(rows, t, t);
      case KillAll =>
    }
  }

  /** A task is tracked exactly when it was registered after it was last removed. */
  lemma HoldsStep(ds: seq<Delivery>, task: string)
    requires ds != []
    ensures var op := ds[|ds| - 1].op;
            Holds(Received(ds), task) <==>
              match op
              case Register(t, _) => t == task || Holds(Received(ds[..|ds| - 1]), task)
              case Unregister(t) => t != task && Holds(Received(ds[..|ds| - 1]), task)
              case GetAndRemove(t) => t != task && Holds(Received(ds[..|ds| - 1]), task)
              case KillAll => false
  {
    var rows, op := Received(ds[..|ds| - 1]), ds[|ds| - 1].op;
    ReceivedDistinct(ds[..|ds| - 1]);
    hide Distinct; hide AppendTo; hide Without;
    match op
    case Register(t, p) => AppendToIs(rows, t, p, task);
    case Unregister(t) => WithoutIs(rows, t, task);
    case GetAndRemove(t) => WithoutIs(rows, t, task);
    case KillAll =>
  }

  lemma {:induction false} FromAt(ds: seq<Delivery>, i: nat) returns (k: nat)
    requires i < |ds|
    ensures k < |From(ds, ds[i].from)| && From(ds, ds[i].from)[k] == ds[i].op
    ensures k == |From(ds[..i], ds[i].from)|
  {
    var n := |ds| - 1;
    if i == n {
      k := |From(ds[..n], ds[n].from)|;
    } else {
      k := FromAt(ds[..n], i);
      assert ds[..n][..i] == ds[..i];
    }
  }

  lemma {:induction false} FromGrows(ds: seq<Delivery>, from: int, i: nat, j: nat)
    requires i <= j <= |ds|
    ensures |From(ds[..i], from)| <= |From(ds[..j], from)|
  {
    if i < j {
      FromGrows(ds, from, i, j - 1);
      assert ds[..j][..j - 1] == ds[..j - 1];
    }
  }

  /** Once the last unregister of an ordered sender has arrived, no registration of its task follows. */
  lemma NoLateRegister(ds: seq<Delivery>, sent: map<int, seq<Op>>, task: string, owner: int, u: nat, r: nat)
    requires Fifo(ds, sent) && OwnedBy(ds, task, owner) && owner in sent
    requires u < r < |ds| && ds[u] == Delivery(owner, Unregister(task))
    requires TidyFrom(sent[owner], task, |From(ds[..u], owner)|)
    ensures !(ds[r].op.Register? && ds[r].op.task == task)
  {
    var b := FromAt(ds, r);
    if ds[r].from == owner {
      Later(ds, u, r);
      hide From;
      assert From(ds, owner) <= SentBy(sent, owner);
      PrefixAt(From(ds, owner), sent[owner], b);
    }
  }

  lemma PrefixAt(p: seq<Op>, s: seq<Op>, i: nat)
    requires p <= s && i < |p|
    ensures p[i] == s[i]
  {
  }

  lemma Later(ds: seq<Delivery>, u: nat, r: nat)
    requires u < r < |ds| && ds[u].from == ds[r].from
    ensures |From(ds[..u], ds[u].from)| < |From(ds[..r], ds[u].from)|
  {
    assert ds[..u + 1][..u] == ds[..u];
    FromGrows(ds, ds[u].from, u + 1, r);
  }

  /** No leak: after an unregister has been delivered that its sender never follows with another registration of the
      task, whatever else arrives in whatever interleaving, the registry holds nothing for that task. */
  lemma NothingSurvivesUnregister(ds: seq<Delivery>, sent: map<int, seq<Op>>, task: string, owner: int, u: nat)
    requires Fifo(ds, sent) && OwnedBy(ds, task, owner) && owner in sent
    requires u < |ds| && ds[u] == Delivery(owner, Unregister(task))
    requires TidyFrom(sent[owner], task, |From(ds[..u], owner)|)
    ensures !Holds(Received(ds), task)
  {
    Forgotten(ds, sent, task, owner, u, |ds|);
    assert ds[..|ds|] == ds;
  }

  lemma {:induction false} Forgotten(ds: seq<Delivery>, sent: map<int, seq<Op>>, task: string, owner: int, u: nat,
                                     n: nat)
    requires Fifo(ds, sent) && OwnedBy(ds, task, owner) && owner in sent
    requires u < n <= |ds| && ds[u] == Delivery(owner, Unregister(task))
    requires TidyFrom(sent[owner], task, |From(ds[..u], owner)|)
    ensures !Holds(Received(ds[..n]), task)
  {
    HoldsStep(ds[..n], task);
    assert ds[..n][..n - 1] == ds[..n - 1] && ds[..n][n - 1] == ds[n - 1];
    hide Holds; hide Received; hide From;
    if u < n - 1 {
      NoLateRegister(ds, sent, task, owner, u, n - 1);
      hide Fifo; hide OwnedBy; hide TidyFrom;
      Forgotten(ds, sent, task, owner, u, n - 1);
    }
  }

  /** End to end, from what the worker's threads do to what the registry holds: once the message of the task's last
      exit is in, nothing is held for the task. */
  lemma ScopesLeaveNothing(ds: seq<Delivery>, sent: map<int, seq<Op>>, owner: int, events: seq<Event>, task: string,
                           thread: int,
                           x: nat, u: nat)
    requires OnThread(events, task, thread) && LastExit(events, task, x)
    requires owner in sent && sent[owner] == Sent(events) && Fifo(ds, sent) && OwnedBy(ds, task, owner)
    requires u < |ds| && ds[u].from == owner && |From(ds[..u], owner)| == |Sent(events[..x])|
    ensures ds[u].op == Unregister(task) && !Holds(Received(ds), task)
  {
    hide *;
    WorkersAreTidy(events, task, thread, x);
    var k := FromAt(ds, u);
    FifoOf(ds, sent, owner);
    PrefixAt(From(ds, owner), sent[owner], k);
    NothingSurvivesUnregister(ds, sent, task, owner, u);
  }

  lemma FifoOf(ds: seq<Delivery>, sent: map<int, seq<Op>>, owner: int)
    requires Fifo(ds, sent) && owner in sent
    ensures From(ds, owner) <= sent[owner]
  {
    hide From;
    assert From(ds, owner) <= SentBy(sent, owner);
  }
}
