/** What /proc says about a process: its state and group, and whether it still runs. */
module ProcTable {

  import opened Results
  import opened Text

  /** A process, or a process group named by its leader's pid. */
  datatype Target = Target(pid: int, isPgid: bool)

  /** A numeric entry of /proc with the text of its `stat` file. */
  datatype Entry = Entry(pid: int, stat: string)

  datatype Info = Info(state: string, pgrp: int)

  // ---------------------------------------------------------------- reading one line

  /** bytes.rfind(b")") */
  function LastParen(s: string): (i: int)
    ensures -1 <= i < |s|
  {
    if s == "" then -1 else if s[|s| - 1] == ')' then |s| - 1 else LastParen(s[..|s| - 1])
  }

  predicate Blank(c: char) {
    c == ' ' || '\t' <= c <= '\r'
  }

  /** Length of the word at the start. */
  function WordLength(s: string): (n: nat)
    ensures n <= |s|
    ensures s != "" && !Blank(s[0]) ==> n > 0
  {
    if s == "" || Blank(s[0]) then 0 else 1 + WordLength(s[1..])
  }

  /** bytes.split() */
  function Fields(s: string): seq<string>
    decreases |s|
  {
    if s == "" then []
    else if Blank(s[0]) then Fields(s[1..])
    else [s[..WordLength(s)]] + Fields(s[WordLength(s)..])
  }

  function ParseInt(s: string): Option<int> {
    if s == "" then None
    else if AllDigits(s) then Some(DecimalValue(s))
    else if s[0] == '-' && |s| > 1 && AllDigits(s[1..]) then
      var value: int := DecimalValue(s[1..]);
      Some(-value)
    else None
  }

  /** State and group: the first and third field after the last closing parenthesis. */
  function StateAndGroup(data: string): Option<Info> {
    var paren := LastParen(data);
    if paren == -1 then None
    else
      var fields := Fields(if paren + 2 <= |data| then data[paren + 2..] else "");
      if |fields| < 3 then None
      else match ParseInt(fields[2]) case None => None case Some(pgrp) => Some(Info(fields[0], pgrp))
  }

  // ---------------------------------------------------------------- is it running

  function ReadStat(proc: seq<Entry>, pid: int): Option<string> {
    if proc == [] then None else if proc[0].pid == pid then Some(proc[0].stat) else ReadStat(proc[1..], pid)
  }

  function InfoOf(proc: seq<Entry>, pid: int): Option<Info> {
    match ReadStat(proc, pid) case None => None case Some(data) => StateAndGroup(data)
  }

  /** A zombie does not run; a group runs as long as one member does. */
  predicate Running(proc: seq<Entry>, x: Target) {
    if x.isPgid then
      exists i | 0 <= i < |proc| ::
        var info := InfoOf(proc, proc[i].pid);
        info.Some? && info.value.pgrp == x.pid && info.value.state != "Z"
    else
      var info := InfoOf(proc, x.pid);
      info.Some? && info.value.state != "Z"
  }

  method IsRunning(proc: seq<Entry>, x: Target) returns (running: bool)
    ensures running <==> Running(proc, x)
    ensures forall ps: seq<Process> | Shows(proc, ps) :: running <==> Lives(ps, x)
  {
    hide InfoOf; hide Shows; hide Lives;
    forall ps: seq<Process> | Shows(proc, ps) ensures Running(proc, x)
      <==> Lives(ps, x) { RunningIffLives(proc, ps, x); }
    if x.isPgid {
      for i := 0 to |proc|
        invariant forall j | 0 <= j < i ::
                    var info := InfoOf(proc, proc[j].pid);
                    !(info.Some? && info.value.pgrp == x.pid && info.value.state != "Z")
      {
        var info := InfoOf(proc, proc[i].pid);
        if info.None? { continue; }
        if info.value.pgrp == x.pid && info.value.state != "Z" { return true; }
      }
      return false;
    }
    var info := InfoOf(proc, x.pid);
    running := info.Some? && info.value.state != "Z";
  }

  // ---------------------------------------------------------------- the processes behind it

  /** A process as the kernel knows it. Its name may hold anything, parentheses and blanks included. */
  datatype Process = Process(pid: int, comm: string, state: char, parent: int, group: int, rest: string)

  function StatLine(p: Process): string {
    IntText(p.pid) + " (" + p.comm + ") " + [p.state] + " " + IntText(p.parent) + " " + IntText(p.group) + " " + p.rest
  }

  ghost predicate Proper(p: Process) {
    !Blank(p.state) && p.state != ')' && HasNo(p.rest, ')')
  }

  /** The entries are those of these processes. */
  ghost predicate Shows(proc: seq<Entry>, ps: seq<Process>) {
    && |proc| == |ps|
    && (forall i | 0 <= i < |ps| :: Proper(ps[i]) && proc[i] == Entry(ps[i].pid, StatLine(ps[i])))
    && forall i, j | 0 <= i < j < |ps| :: ps[i].pid != ps[j].pid
  }

  /** The process itself is alive, or some member of the group is: it is there and no zombie. */
  ghost predicate Lives(ps: seq<Process>, x: Target) {
    exists i | 0 <= i < |ps| :: (if x.isPgid then ps[i].group else ps[i].pid) == x.pid && ps[i].state != 'Z'
  }

  lemma {:induction false} LastParenIs(a: string, b: string)
    requires HasNo(b, ')')
    ensures LastParen(a + ")" + b) == |a|
  {
    var s := a + ")" + b;
    if b == "" {
      assert s[|s| - 1] == ')';
    } else {
      assert s[|s| - 1] == b[|b| - 1] && s[..|s| - 1] == a + ")" + b[..|b| - 1];
      LastParenIs(a, b[..|b| - 1]);
    }
  }

  ghost predicate NoBlanks(w: string) {
    forall i | 0 <= i < |w| :: !Blank(w[i])
  }

  lemma {:induction false} WordIs(w: string, rest: string)
    requires NoBlanks(w) && (rest == "" || Blank(rest[0]))
    ensures WordLength(w + rest) == |w|
  {
    if w == "" {
      assert w + rest == rest;
    } else {
      assert (w + rest)[1..] == w[1..] + rest;
      WordIs(w[1..], rest);
    }
  }

  lemma FieldsWord(w: string, rest: string)
    requires w != "" && NoBlanks(w)
    ensures Fields(w + " " + rest) == [w] + Fields(rest)
  {
    var s := w + " " + rest;
    assert s == w + (" " + rest);
    WordIs(w, " " + rest);
    assert s[..|w|] == w && s[|w|..] == " " + rest;
    FieldsStep(s);
    FieldsStep(" " + rest);
    assert (" " + rest)[1..] == rest;
  }

  lemma FieldsStep(s: string)
    requires s != ""
    ensures Fields(s) == if Blank(s[0]) then Fields(s[1..])
                         else [s[..WordLength(s)]] + Fields(s[WordLength(s)..])
  {
  }

  lemma DigitsWord(d: string)
    requires AllDigits(d)
    ensures NoBlanks(d) && HasNo(d, ')') && HasNo(d, '-')
  {
  }

  lemma IntWord(n: int)
    ensures IntText(n) != "" && NoBlanks(IntText(n)) && HasNo(IntText(n), ')') && ParseInt(IntText(n)) == Some(n)
  {
    var d := Decimal(if n < 0 then -n else n);
    DigitsWord(d);
    DecimalRoundTrip(if n < 0 then -n else n);
    hide *;
    if n < 0 {
      NegativeText(n);
      NegativeWord(d);
    } else {
      PlainText(n);
      PlainWord(d);
    }
  }

  lemma NegativeText(n: int)
    requires n < 0
    ensures IntText(n) == "-" + Decimal(-n) && Decimal(-n) != "" && AllDigits(Decimal(-n))
  {
    hide Decimal;
  }

  lemma PlainText(n: nat)
    ensures IntText(n) == Decimal(n) && Decimal(n) != "" && AllDigits(Decimal(n))
  {
    hide Decimal;
  }

  lemma PlainWord(d: string)
    requires d != "" && AllDigits(d)
    ensures ParseInt(d) == Some(DecimalValue(d))
  {
    hide DecimalValue; hide AllDigits;
  }

  lemma NegativeWord(d: string)
    requires d != "" && AllDigits(d) && NoBlanks(d) && HasNo(d, ')')
    ensures var t := "-" + d;
            var value: int := DecimalValue(d);
            NoBlanks(t) && HasNo(t, ')') && ParseInt(t) == Some(-value)
  {
    var t := "-" + d;
    assert t[0] == '-' && t[1..] == d;
    hide DecimalValue;
  }

  lemma ThreeFields(state: char, parent: int, group: int, rest: string)
    requires !Blank(state)
    ensures var fields := Fields([state] + " " + IntText(parent) + " " + IntText(group) + " " + rest);
            |fields| >= 3 && fields[0] == [state] && fields[2] == IntText(group)
  {
    IntWord(parent);
    IntWord(group);
    assert NoBlanks([state]);
    hide *;
    var p, g := IntText(parent), IntText(group);
    FieldsWord(g, rest);
    FieldsWord(p, g + " " + rest);
    FieldsWord([state], p + " " + (g + " " + rest));
    Regroup([state], p, g, rest);
  }

  lemma Regroup(a: string, b: string, c: string, rest: string)
    ensures a + " " + b + " " + c + " " + rest == a + " " + (b + " " + (c + " " + rest))
  {
  }

  lemma NoParens(state: char, parent: int, group: int, rest: string)
    requires state != ')' && HasNo(rest, ')')
    ensures HasNo(" " + ([state] + " " + IntText(parent) + " " + IntText(group) + " " + rest), ')')
  {
    IntWord(parent);
    IntWord(group);
    hide IntText;
  }

  /** Whatever the name, the line gives back the state and the group. */
  lemma StatRoundTrip(p: Process)
    requires Proper(p)
    ensures StateAndGroup(StatLine(p)) == Some(Info([p.state], p.group))
  {
    var front := IntText(p.pid) + " (" + p.comm;
    var tail := [p.state] + " " + IntText(p.parent) + " " + IntText(p.group) + " " + p.rest;
    ThreeFields(p.state, p.parent, p.group, p.rest);
    NoParens(p.state, p.parent, p.group, p.rest);
    IntWord(p.group);
    StatParts(p);
    hide *;
    LastParenIs(front, " " + tail);
    AfterParen(front, tail);
    ReadFields(StatLine(p), |front|, tail);
  }

  lemma AfterParen(front: string, tail: string)
    ensures var line := front + ")" + (" " + tail); |front| + 2 <= |line| && line[|front| + 2..] == tail
  {
  }

  lemma ReadFields(data: string, paren: nat, tail: string)
    requires LastParen(data) == paren && paren + 2 <= |data| && data[paren + 2..] == tail && |Fields(tail)| >= 3
    ensures StateAndGroup(data)
            == match ParseInt(Fields(tail)[2]) case None => None case Some(pgrp) => Some(Info(Fields(tail)[0], pgrp))
  {
    hide LastParen; hide Fields; hide ParseInt;
  }

  lemma StatParts(p: Process)
    ensures StatLine(p) == IntText(p.pid) + " (" + p.comm + ")"
                           + (" " + ([p.state] + " " + IntText(p.parent) + " " + IntText(p.group) + " " + p.rest))
  {
    hide IntText;
  }

  lemma {:induction false} ReadAt(proc: seq<Entry>, i: nat)
    requires i < |proc| && forall a, b | 0 <= a < b < |proc| :: proc[a].pid != proc[b].pid
    ensures ReadStat(proc, proc[i].pid) == Some(proc[i].stat)
  {
    if i > 0 {
      assert proc[0].pid != proc[i].pid;
      ReadAt(proc[1..], i - 1);
    }
  }

  lemma {:induction false} ReadNone(proc: seq<Entry>, pid: int)
    requires forall i | 0 <= i < |proc| :: proc[i].pid != pid
    ensures ReadStat(proc, pid) == None
  {
    if proc != [] { ReadNone(proc[1..], pid); }
  }

  lemma InfoShown(proc: seq<Entry>, ps: seq<Process>, i: nat)
    requires Shows(proc, ps) && i < |ps|
    ensures InfoOf(proc, ps[i].pid) == Some(Info([ps[i].state], ps[i].group))
  {
    assert forall a, b | 0 <= a < b < |proc| :: proc[a].pid == ps[a].pid && proc[b].pid == ps[b].pid;
    ReadAt(proc, i);
    StatRoundTrip(ps[i]);
    hide StateAndGroup; hide StatLine; hide Proper;
  }

  lemma InfoAbsent(proc: seq<Entry>, ps: seq<Process>, pid: int)
    requires Shows(proc, ps) && forall i | 0 <= i < |ps| :: ps[i].pid != pid
    ensures InfoOf(proc, pid) == None
  {
    assert forall i | 0 <= i < |proc| :: proc[i].pid == ps[i].pid;
    ReadNone(proc, pid);
    hide StateAndGroup; hide StatLine; hide Proper;
  }

  /** A process is taken for running exactly if it is there and no zombie, a group exactly if one of its members is. */
  lemma RunningIffLives(proc: seq<Entry>, ps: seq<Process>, x: Target)
    requires Shows(proc, ps)
    ensures Running(proc, x) <==> Lives(ps, x)
  {
    hide *;
    Shown(proc, ps);
    forall i | 0 <= i < |ps| ensures InfoOf(proc, ps[i].pid) == Some(Info([ps[i].state], ps[i].group)) {
      InfoShown(proc, ps, i);
    }
    if x.isPgid {
      GroupRuns(proc, ps, x);
    } else if i :| 0 <= i < |ps| && ps[i].pid == x.pid {
      OnlyThat(ps, i, x);
      OneRuns(proc, x, [ps[i].state], ps[i].group);
      IsZombie(ps[i].state);
    } else {
      InfoAbsent(proc, ps, x.pid);
      NoneRuns(proc, ps, x);
    }
  }

  lemma Shown(proc: seq<Entry>, ps: seq<Process>)
    requires Shows(proc, ps)
    ensures |proc| == |ps| && (forall i | 0 <= i < |ps| :: proc[i].pid == ps[i].pid)
    ensures forall i, j | 0 <= i < j < |ps| :: ps[i].pid != ps[j].pid
  {
    hide Proper; hide StatLine;
  }

  lemma IsZombie(state: char)
    ensures [state] == "Z" <==> state == 'Z'
  {
    assert [state][0] == state;
  }

  lemma OneRuns(proc: seq<Entry>, x: Target, state: string, group: int)
    requires !x.isPgid && InfoOf(proc, x.pid) == Some(Info(state, group))
    ensures Running(proc, x) <==> state != "Z"
  {
    hide InfoOf;
  }

  lemma NoneRuns(proc: seq<Entry>, ps: seq<Process>, x: Target)
    requires !x.isPgid && InfoOf(proc, x.pid).None? && forall i | 0 <= i < |ps| :: ps[i].pid != x.pid
    ensures !Running(proc, x) && !Lives(ps, x)
  {
    hide InfoOf;
  }

  lemma GroupRuns(proc: seq<Entry>, ps: seq<Process>, x: Target)
    requires x.isPgid && |proc| == |ps| && forall i | 0 <= i < |ps| :: proc[i].pid == ps[i].pid
    requires forall i | 0 <= i < |ps| :: InfoOf(proc, ps[i].pid) == Some(Info([ps[i].state], ps[i].group))
    ensures Running(proc, x) <==> Lives(ps, x)
  {
    forall i | 0 <= i < |ps| ensures [ps[i].state] == "Z" <==> ps[i].state == 'Z' { IsZombie(ps[i].state); }
    hide InfoOf;
    if i :| 0 <= i < |ps| && ps[i].group == x.pid && ps[i].state != 'Z' {
      assert InfoOf(proc, proc[i].pid).Some?;
    }
  }

  lemma OnlyThat(ps: seq<Process>, i: nat, x: Target)
    requires i < |ps| && ps[i].pid == x.pid && !x.isPgid
    requires forall a, b | 0 <= a < b < |ps| :: ps[a].pid != ps[b].pid
    ensures Lives(ps, x) <==> ps[i].state != 'Z'
  {
  }
}
