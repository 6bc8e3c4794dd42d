/** What the object cache means, independently of how it is stored: a list of tagged items, least
    recently used first, and the runs of operations on it.

    An item's value is generic.  The cache's own index carries file names; the reference list
    below carries what a read of the tag would return. */
module Recency {

  import opened Results

  datatype Item<+V> = Item(tag: string, nbytes: nat, value: V)

  /** A cached Python object: anything that can be pickled and compared. */
  type Data(==, !new, 0)

  // ---------------------------------------------------------------- ordered dictionaries

  predicate Has<V(!new)>(l: seq<Item<V>>, tag: string) {
    exists i | 0 <= i < |l| :: l[i].tag == tag
  }

  predicate Distinct<V(!new)>(l: seq<Item<V>>) {
    forall i, j | 0 <= i < j < |l| :: l[i].tag != l[j].tag
  }

  function Lookup<V(!new)>(l: seq<Item<V>>, tag: string): (x: Item<V>)
    requires Has(l, tag)
    ensures x in l && x.tag == tag
  {
    if l[0].tag == tag then l[0] else
      assert Has(l[1..], tag) by {
        var i :| 0 <= i < |l| && l[i].tag == tag;
        assert l[1..][i - 1].tag == tag;
      }
      Lookup(l[1..], tag)
  }

  function Without<V(!new)>(l: seq<Item<V>>, tag: string): seq<Item<V>> {
    if l == [] then [] else
      (if l[0].tag == tag then [] else [l[0]]) + Without(l[1..], tag)
  }

  lemma {:induction false} WithoutMembers<V(!new)>(l: seq<Item<V>>, tag: string)
    ensures forall x :: x in Without(l, tag) <==> x in l && x.tag != tag
    ensures |Without(l, tag)| <= |l|
  {
    if l != [] {
      WithoutMembers(l[1..], tag);
      assert l == [l[0]] + l[1..];
    }
  }

  function Total<V(!new)>(l: seq<Item<V>>): nat {
    if l == [] then 0 else l[0].nbytes + Total(l[1..])
  }

  /** Drop items from the front until the rest fits in `room` bytes. */
  function Shed<V(!new)>(l: seq<Item<V>>, room: int): (r: seq<Item<V>>)
    ensures |r| <= |l|
  {
    if l == [] || Total(l) <= room then l else Shed(l[1..], room)
  }

  lemma {:induction false} ShedSuffix<V(!new)>(l: seq<Item<V>>, room: int)
    ensures Shed(l, room) == l[|l| - |Shed(l, room)|..]
  {
    if l == [] || Total(l) <= room {
    } else {
      ShedSuffix(l[1..], room);
      assert l[1..][|l| - 1 - |Shed(l, room)|..] == l[|l| - |Shed(l, room)|..];
    }
  }

  ghost predicate Ordered<V(!new)>(l: seq<Item<V>>, r: (Item<V>, Item<V>) -> bool) {
    forall i, j | 0 <= i < j < |l| :: r(l[i], l[j])
  }

  lemma {:induction false} WithoutOrdered<V(!new)>(l: seq<Item<V>>, tag: string, r: (Item<V>, Item<V>) -> bool)
    requires Ordered(l, r)
    ensures Ordered(Without(l, tag), r)
  {
    if l != [] {
      WithoutOrdered(l[1..], tag, r);
      WithoutMembers(l[1..], tag);
      var w := Without(l[1..], tag);
      forall j | 0 <= j < |w| ensures r(l[0], w[j]) {
        assert w[j] in w;
        var k :| 0 <= k < |l[1..]| && l[1..][k] == w[j];
        assert l[k + 1] == w[j];
      }
    }
  }

  lemma {:induction false} WithoutAbsent<V(!new)>(l: seq<Item<V>>, tag: string)
    requires !Has(l, tag)
    ensures Without(l, tag) == l
  {
    if l != [] {
      var first, rest := l[0], l[1..];
      assert l == [first] + rest;
      assert !Has(rest, tag) && first.tag != tag by { assert forall i | 0 <= i < |rest| :: rest[i] == l[i + 1]; }
      hide Has;
      WithoutAbsent(rest, tag);
    }
  }

  lemma WithoutDistinct<V(!new)>(l: seq<Item<V>>, tag: string)
    requires Distinct(l)
    ensures Distinct(Without(l, tag)) && !Has(Without(l, tag), tag)
  {
    var r := (x: Item<V>, y: Item<V>) => x.tag != y.tag;
    assert Ordered(l, r);
    WithoutOrdered(l, tag, r);
    WithoutMembers(l, tag);
    assert Ordered(Without(l, tag), r);
    forall i, j | 0 <= i < j < |Without(l, tag)| ensures Without(l, tag)[i].tag != Without(l, tag)[j].tag {
      assert r(Without(l, tag)[i], Without(l, tag)[j]);
    }
    forall i | 0 <= i < |Without(l, tag)| ensures Without(l, tag)[i].tag != tag {
      assert Without(l, tag)[i] in Without(l, tag);
    }
  }

  lemma {:induction false} TotalAppend<V(!new)>(a: seq<Item<V>>, b: seq<Item<V>>)
    ensures Total(a + b) == Total(a) + Total(b)
  {
    if a == [] {
      assert a + b == b;
    } else {
      assert (a + b)[1..] == a[1..] + b;
      TotalAppend(a[1..], b);
    }
  }

  /** Popping a tag takes exactly its own bytes off the total. */
  lemma {:induction false} TotalWithout<V(!new)>(l: seq<Item<V>>, tag: string)
    requires Distinct(l)
    ensures Total(Without(l, tag)) == Total(l) - (if Has(l, tag) then Lookup(l, tag).nbytes else 0)
  {
    if l != [] {
      assert Distinct(l[1..]) by {
        forall i, j | 0 <= i < j < |l[1..]| ensures l[1..][i].tag != l[1..][j].tag {
          assert l[1..][i] == l[i + 1] && l[1..][j] == l[j + 1];
        }
      }
      var head := if l[0].tag == tag then [] else [l[0]];
      TotalAppend(head, Without(l[1..], tag));
      assert Total(head) == if l[0].tag == tag then 0 else l[0].nbytes;
      if l[0].tag == tag {
        assert !Has(l[1..], tag) by {
          forall i | 0 <= i < |l[1..]| ensures l[1..][i].tag != tag { assert l[1..][i] == l[i + 1]; }
        }
        WithoutAbsent(l[1..], tag);
      } else {
        TotalWithout(l[1..], tag);
        assert Has(l, tag) <==> Has(l[1..], tag) by {
          assert forall i | 0 <= i < |l[1..]| :: l[1..][i] == l[i + 1];
          if Has(l, tag) { var i :| 0 <= i < |l| && l[i].tag == tag; assert l[1..][i - 1].tag == tag; }
        }
      }
    }
  }

  /** Eviction is minimal: what stays fits (or nothing stays), and no shorter prefix would have done. */
  lemma {:induction false} ShedIsShortest<V(!new)>(l: seq<Item<V>>, room: int)
    ensures var k := |l| - |Shed(l, room)|;
            && (k == |l| || Total(l[k..]) <= room)
            && (forall j | 0 <= j < k :: Total(l[j..]) > room)
  {
    ShedIs(l, room);
    hide *;
    assert l[0..] == l;
    if !(l == [] || Total(l) <= room) {
      ShedIsShortest(l[1..], room);
      var k := |l| - |Shed(l, room)|;
      assert l[1..][k - 1..] == l[k..];
      forall j | 0 <= j < k ensures Total(l[j..]) > room {
        if j > 0 { assert l[1..][j - 1..] == l[j..]; }
      }
    }
  }

  lemma ShedIs<V(!new)>(l: seq<Item<V>>, room: int)
    ensures Shed(l, room) == if l == [] || Total(l) <= room then l else Shed(l[1..], room)
    ensures |Shed(l, room)| <= |l|
  {
    ShedSize(l, room);
    hide Total;
  }

  lemma {:induction false} ShedSize<V(!new)>(l: seq<Item<V>>, room: int)
    ensures |Shed(l, room)| <= |l|
    ensures l != [] && Total(l) > room ==> |Shed(l, room)| < |l|
  {
    hide Total;
    if l != [] && Total(l) > room { ShedSize(l[1..], room); }
  }

  // ---------------------------------------------------------------- the reference machine

  /** What a tag's file holds, and when it was written. */
  datatype Stored = Stored(data: Data, stamp: nat)

  /** A remembered tag whose file has vanished or become unreadable carries None. */
  type Slots = seq<Item<Option<Stored>>>

  datatype Model = Model(slots: Slots, budget: int)

  /** The cache's operations; `Lose` is the environment destroying one tag's file, `Restart` a new
      actor (possibly with another budget) warm-starting on the directory left behind. */
  datatype Op =
    | Write(tag: string, data: Data)
    | Read(tag: string)
    | Evict(tag: string)
    | Flush
    | Lose(tag: string)
    | Restart(budget: int)

  datatype Out = Wrote(stored: bool) | Got(value: Option<Data>) | Evicted(removed: bool) | Done

  function WriteSlots(s: Slots, budget: int, tag: string, data: Data, nbytes: nat, now: nat): Slots {
    if nbytes > budget then s
    else Shed(Without(s, tag), budget - nbytes) + [Item(tag, nbytes, Some(Stored(data, now)))]
  }

  function ReadSlots(s: Slots, tag: string): Slots {
    if !Has(s, tag) then s
    else if Lookup(s, tag).value.None? then Without(s, tag)
    else Without(s, tag) + [Lookup(s, tag)]
  }

  function ReadValue(s: Slots, tag: string): Option<Data> {
    if Has(s, tag) && Lookup(s, tag).value.Some? then Some(Lookup(s, tag).value.value.data) else None
  }

  function LoseSlots(s: Slots, tag: string): (r: Slots)
    ensures |r| == |s|
    ensures forall i | 0 <= i < |s| :: r[i] == if s[i].tag == tag then s[i].(value := None) else s[i]
  {
    seq(|s|, i requires 0 <= i < |s| => if s[i].tag == tag then s[i].(value := None) else s[i])
  }

  function Readable(s: Slots): (r: Slots)
    ensures AllReadable(r)
  {
    if s == [] then [] else (if s[0].value.Some? then [s[0]] else []) + Readable(s[1..])
  }

  lemma {:induction false} ReadableMembers(s: Slots)
    ensures forall x :: x in Readable(s) <==> x in s && x.value.Some?
  {
    if s != [] {
      ReadableMembers(s[1..]);
      assert s == [s[0]] + s[1..];
    }
  }

  ghost predicate AllReadable(s: Slots) {
    forall i | 0 <= i < |s| :: s[i].value.Some?
  }

  /** Insertion by write stamp, oldest first. */
  function InsertByStamp(x: Item<Option<Stored>>, s: Slots): (r: Slots)
    requires x.value.Some? && AllReadable(s)
    ensures AllReadable(r)
  {
    if s == [] || x.value.value.stamp <= s[0].value.value.stamp then [x] + s
    else [s[0]] + InsertByStamp(x, s[1..])
  }

  function ByStamp(s: Slots): (r: Slots)
    requires AllReadable(s)
    ensures AllReadable(r)
  {
    if s == [] then [] else InsertByStamp(s[0], ByStamp(s[1..]))
  }

  lemma {:induction false} InsertMembers(x: Item<Option<Stored>>, s: Slots)
    requires x.value.Some? && AllReadable(s)
    ensures forall y :: y in InsertByStamp(x, s) <==> y == x || y in s
  {
    if !(s == [] || x.value.value.stamp <= s[0].value.value.stamp) {
      InsertMembers(x, s[1..]);
      assert s == [s[0]] + s[1..];
    }
  }

  lemma {:induction false} ByStampMembers(s: Slots)
    requires AllReadable(s)
    ensures forall y :: y in ByStamp(s) <==> y in s
  {
    if s != [] {
      ByStampMembers(s[1..]);
      InsertMembers(s[0], ByStamp(s[1..]));
      assert s == [s[0]] + s[1..];
    }
  }

  function RestartModel(m: Model, budget: int): Model {
    Model(ByStamp(Readable(m.slots)), budget)
  }

  function Step(m: Model, op: Op, now: nat, sizeOf: (string, Data) -> nat): (Model, Out) {
    match op
    case Write(t, d) =>
      (m.(slots := WriteSlots(m.slots, m.budget, t, d, sizeOf(t, d), now)), Wrote(sizeOf(t, d) <= m.budget))
    case Read(t) => (m.(slots := ReadSlots(m.slots, t)), Got(ReadValue(m.slots, t)))
    case Evict(t) => (m.(slots := Without(m.slots, t)), Evicted(Has(m.slots, t)))
    case Flush => (m.(slots := []), Done)
    case Lose(t) => (m.(slots := LoseSlots(m.slots, t)), Done)
    case Restart(b) => (RestartModel(m, b), Done)
  }

  datatype Trace = Trace(model: Model, outs: seq<Out>)

  /** Run `ops` from `m`; the i-th operation happens at time i. */
  function Run(m: Model, ops: seq<Op>, sizeOf: (string, Data) -> nat): (r: Trace)
    ensures |r.outs| == |ops|
  {
    if ops == [] then Trace(m, [])
    else
      var n := |ops| - 1;
      var before := Run(m, ops[..n], sizeOf);
      var (after, out) := Step(before.model, ops[n], n, sizeOf);
      Trace(after, before.outs + [out])
  }

  /** A stored write leaves a suffix of the other tags and then the written one. */
  lemma WriteShape(s: Slots, budget: int, tag: string, data: Data, nbytes: nat, now: nat)
    requires nbytes <= budget
    ensures var k := |Without(s, tag)| - |Shed(Without(s, tag), budget - nbytes)|;
            WriteSlots(s, budget, tag, data, nbytes, now)
              == Without(s, tag)[k..] + [Item(tag, nbytes, Some(Stored(data, now)))]
  {
    ShedSuffix(Without(s, tag), budget - nbytes);
  }

  // ---------------------------------------------------------------- hits return the last stored value

  /** Read off a history alone: the value and time of the last write of `tag` that was stored and
      has not been evicted or flushed since. */
  function LastStored(ops: seq<Op>, outs: seq<Out>, tag: string): Option<Stored>
    requires |ops| == |outs|
  {
    if ops == [] then None
    else
      var n := |ops| - 1;
      match ops[n]
      case Write(t, d) =>
        if t == tag && outs[n] == Wrote(true) then Some(Stored(d, n)) else LastStored(ops[..n], outs[..n], tag)
      case Evict(t) => if t == tag then None else LastStored(ops[..n], outs[..n], tag)
      case Flush => None
      case _ => LastStored(ops[..n], outs[..n], tag)
  }

  ghost predicate Faithful(s: Slots, ops: seq<Op>, outs: seq<Out>)
    requires |ops| == |outs|
  {
    forall x | x in s && x.value.Some? :: LastStored(ops, outs, x.tag) == x.value
  }

  lemma WriteOrigin(s: Slots, budget: int, tag: string, data: Data, nbytes: nat, now: nat, x: Item<Option<Stored>>)
    requires nbytes <= budget && x in WriteSlots(s, budget, tag, data, nbytes, now)
    ensures x == Item(tag, nbytes, Some(Stored(data, now))) || (x in s && x.tag != tag)
  {
    WriteShape(s, budget, tag, data, nbytes, now);
    WithoutMembers(s, tag);
  }

  /** Where a readable item can come from: the list before the step, or the write just stored. */
  lemma StepOrigin(m: Model, op: Op, now: nat, sizeOf: (string, Data) -> nat, x: Item<Option<Stored>>)
    requires x in Step(m, op, now, sizeOf).0.slots && x.value.Some?
    ensures var stored := op.Write? && sizeOf(op.tag, op.data) <= m.budget;
            || (x in m.slots && !op.Flush? && (stored || op.Evict? ==> x.tag != op.tag))
            || (stored && x == Item(op.tag, sizeOf(op.tag, op.data), Some(Stored(op.data, now))))
  {
    match op
    case Write(t, d) =>
      if sizeOf(t, d) <= m.budget { WriteOrigin(m.slots, m.budget, t, d, sizeOf(t, d), now, x); }
    case Read(t) => WithoutMembers(m.slots, t);
    case Evict(t) => WithoutMembers(m.slots, t);
    case Flush =>
    case Lose(t) =>
    case Restart(b) => ReadableMembers(m.slots); ByStampMembers(Readable(m.slots));
  }

  lemma {:induction false} RunFaithful(ops: seq<Op>, budget: int, sizeOf: (string, Data) -> nat)
    ensures var r := Run(Model([], budget), ops, sizeOf); Faithful(r.model.slots, ops, r.outs)
  {
    if ops != [] {
      var n := |ops| - 1;
      RunFaithful(ops[..n], budget, sizeOf);
      var before := Run(Model([], budget), ops[..n], sizeOf);
      var after := Run(Model([], budget), ops, sizeOf);
      assert after.outs[..n] == before.outs;
      forall x | x in after.model.slots && x.value.Some? ensures LastStored(ops, after.outs, x.tag) == x.value {
        StepOrigin(before.model, ops[n], n, sizeOf, x);
      }
    }
  }

  /** Over any run from an empty cache, with files vanishing and actors restarting at will, a hit
      returns the data of the last successful write of that tag. */
  lemma HitReturnsLastStored(ops: seq<Op>, budget: int, sizeOf: (string, Data) -> nat, tag: string)
    ensures var r := Run(Model([], budget), ops, sizeOf);
            var hit := ReadValue(r.model.slots, tag);
            hit.Some? ==>
              var last := LastStored(ops, r.outs, tag);
              last.Some? && last.value.data == hit.value
  {
    RunFaithful(ops, budget, sizeOf);
  }

  // ---------------------------------------------------------------- tags stay distinct

  lemma {:induction false} InsertKeepsDistinct(x: Item<Option<Stored>>, s: Slots)
    requires x.value.Some? && AllReadable(s)
    requires Distinct(s) && !Has(s, x.tag)
    ensures Distinct(InsertByStamp(x, s))
  {
    if s == [] || x.value.value.stamp <= s[0].value.value.stamp {
    } else {
      assert !Has(s[1..], x.tag) by {
        forall i | 0 <= i < |s[1..]| ensures s[1..][i].tag != x.tag { assert s[1..][i] == s[i + 1]; }
      }
      InsertKeepsDistinct(x, s[1..]);
      InsertMembers(x, s[1..]);
      var w := InsertByStamp(x, s[1..]);
      forall i | 0 <= i < |w| ensures w[i].tag != s[0].tag {
        assert w[i] in w;
        if w[i] in s[1..] { var k :| 0 <= k < |s[1..]| && s[1..][k] == w[i]; assert s[k + 1] == w[i]; }
      }
    }
  }

  lemma {:induction false} ByStampDistinct(s: Slots)
    requires Distinct(s) && AllReadable(s)
    ensures Distinct(ByStamp(s))
  {
    if s != [] {
      assert Distinct(s[1..]);
      ByStampDistinct(s[1..]);
      ByStampMembers(s[1..]);
      assert !Has(ByStamp(s[1..]), s[0].tag) by {
        var w := ByStamp(s[1..]);
        forall i | 0 <= i < |w| ensures w[i].tag != s[0].tag {
          assert w[i] in w;
          var k :| 0 <= k < |s[1..]| && s[1..][k] == w[i];
          assert s[k + 1] == w[i];
        }
      }
      InsertKeepsDistinct(s[0], ByStamp(s[1..]));
    }
  }

  lemma {:induction false} ReadableDistinct(s: Slots)
    requires Distinct(s)
    ensures Distinct(Readable(s))
  {
    if s != [] {
      assert Distinct(s[1..]);
      ReadableDistinct(s[1..]);
      ReadableMembers(s[1..]);
      var w := Readable(s[1..]);
      forall i | 0 <= i < |w| ensures w[i].tag != s[0].tag {
        assert w[i] in w;
        var k :| 0 <= k < |s[1..]| && s[1..][k] == w[i];
        assert s[k + 1] == w[i];
      }
    }
  }

  /** The shape every write and read hit leaves behind: a suffix of the other tags, then the tag. */
  lemma TouchKeepsOrder<V(!new)>(l: seq<Item<V>>, x: Item<V>, k: nat, r: (Item<V>, Item<V>) -> bool)
    requires Ordered(l, r) && k <= |Without(l, x.tag)|
    requires forall y | y in l && y.tag != x.tag :: r(y, x)
    ensures Ordered(Without(l, x.tag)[k..] + [x], r)
  {
    WithoutOrdered(l, x.tag, r);
    WithoutMembers(l, x.tag);
    var w := Without(l, x.tag);
    assert forall i | 0 <= i < |w[k..]| :: w[k..][i] == w[k + i] && w[k + i] in w;
  }

  lemma TouchDistinct<V(!new)>(l: seq<Item<V>>, x: Item<V>, k: nat)
    requires Distinct(l) && k <= |Without(l, x.tag)|
    ensures Distinct(Without(l, x.tag)[k..] + [x])
  {
    var r := (x: Item<V>, y: Item<V>) => x.tag != y.tag;
    assert Ordered(l, r);
    TouchKeepsOrder(l, x, k, r);
    var t := Without(l, x.tag)[k..] + [x];
    forall i, j | 0 <= i < j < |t| ensures t[i].tag != t[j].tag { assert r(t[i], t[j]); }
  }

  lemma WriteDistinct(s: Slots, budget: int, tag: string, data: Data, nbytes: nat, now: nat)
    requires Distinct(s)
    ensures Distinct(WriteSlots(s, budget, tag, data, nbytes, now))
  {
    if nbytes <= budget {
      WriteShape(s, budget, tag, data, nbytes, now);
      TouchDistinct(s, Item(tag, nbytes, Some(Stored(data, now))),
        |Without(s, tag)| - |Shed(Without(s, tag), budget - nbytes)|);
    }
  }

  lemma ReadDistinct(s: Slots, tag: string)
    requires Distinct(s)
    ensures Distinct(ReadSlots(s, tag))
  {
    WithoutDistinct(s, tag);
    if Has(s, tag) {
      TouchDistinct(s, Lookup(s, tag), 0);
      assert Without(s, tag)[0..] == Without(s, tag);
    }
  }

  lemma StepDistinct(m: Model, op: Op, now: nat, sizeOf: (string, Data) -> nat)
    requires Distinct(m.slots)
    ensures Distinct(Step(m, op, now, sizeOf).0.slots)
  {
    match op
    case Write(t, d) => WriteDistinct(m.slots, m.budget, t, d, sizeOf(t, d), now);
    case Read(t) => ReadDistinct(m.slots, t);
    case Evict(t) => WithoutDistinct(m.slots, t);
    case Flush =>
    case Lose(t) =>
    case Restart(b) => ReadableDistinct(m.slots); ByStampDistinct(Readable(m.slots));
  }

  lemma {:induction false} RunDistinct(m: Model, ops: seq<Op>, sizeOf: (string, Data) -> nat)
    requires Distinct(m.slots)
    ensures Distinct(Run(m, ops, sizeOf).model.slots)
  {
    if ops != [] {
      var n := |ops| - 1;
      RunDistinct(m, ops[..n], sizeOf);
      StepDistinct(Run(m, ops[..n], sizeOf).model, ops[n], n, sizeOf);
    }
  }

  // ---------------------------------------------------------------- index order is order of last use

  /** One more than the time of the last stored write or read hit of `tag`; 0 if there is none. */
  function LastUse(ops: seq<Op>, outs: seq<Out>, tag: string): nat
    requires |ops| == |outs|
  {
    if ops == [] then 0
    else
      var n := |ops| - 1;
      if (ops[n].Write? && ops[n].tag == tag && outs[n] == Wrote(true))
         || (ops[n].Read? && ops[n].tag == tag && outs[n].Got? && outs[n].value.Some?)
      then n + 1
      else LastUse(ops[..n], outs[..n], tag)
  }

  lemma {:induction false} LastUseBound(ops: seq<Op>, outs: seq<Out>, tag: string)
    requires |ops| == |outs|
    ensures LastUse(ops, outs, tag) <= |ops|
  {
    if ops != [] { LastUseBound(ops[..|ops| - 1], outs[..|ops| - 1], tag); }
  }

  ghost predicate KeyOrdered<V>(l: seq<Item<V>>, key: string -> nat) {
    && (forall i, j | 0 <= i < j < |l| :: key(l[i].tag) < key(l[j].tag))
    && (forall i | 0 <= i < |l| :: 0 < key(l[i].tag))
  }

  lemma WithoutKeyOrdered<V(!new)>(l: seq<Item<V>>, tag: string, key: string -> nat)
    requires KeyOrdered(l, key)
    ensures KeyOrdered(Without(l, tag), key) && forall i | 0 <= i < |Without(l, tag)| :: Without(l, tag)[i].tag != tag
  {
    var r := (x: Item<V>, y: Item<V>) => key(x.tag) < key(y.tag);
    WithoutOrdered(l, tag, r);
    WithoutMembers(l, tag);
    var w := Without(l, tag);
    forall i | 0 <= i < |w| ensures w[i].tag != tag && 0 < key(w[i].tag) { assert w[i] in w; }
    forall i, j | 0 <= i < j < |w| ensures key(w[i].tag) < key(w[j].tag) { assert r(w[i], w[j]); }
  }

  lemma SnocKeyOrdered<V(!new)>(w: seq<Item<V>>, k: nat, x: Item<V>, key: string -> nat, key': string -> nat)
    requires k <= |w| && KeyOrdered(w, key) && forall i | 0 <= i < |w| :: w[i].tag != x.tag
    requires forall t | t != x.tag :: key'(t) == key(t) < key'(x.tag)
    requires 0 < key'(x.tag)
    ensures KeyOrdered(w[k..], key') && KeyOrdered(w[k..] + [x], key')
  {
    var t := w[k..] + [x];
    assert forall i | 0 <= i < |w| - k :: t[i] == w[k + i];
  }

  lemma SuffixKeyOrdered<V(!new)>(w: seq<Item<V>>, key: string -> nat, tag: string, key': string -> nat)
    requires KeyOrdered(w, key) && forall i | 0 <= i < |w| :: w[i].tag != tag
    requires forall t | t != tag :: key'(t) == key(t)
    ensures KeyOrdered(w, key')
  {
  }

  lemma LastUseSnoc(ops: seq<Op>, outs: seq<Out>, op: Op, out: Out, tag: string)
    requires |ops| == |outs|
    ensures LastUse(ops + [op], outs + [out], tag) ==
            if (op.Write? && op.tag == tag && out == Wrote(true))
              || (op.Read? && op.tag == tag && out.Got? && out.value.Some?)
            then |ops| + 1 else LastUse(ops, outs, tag)
    ensures LastUse(ops, outs, tag) <= |ops|
  {
    assert (ops + [op])[..|ops|] == ops && (outs + [out])[..|outs|] == outs;
    LastUseBound(ops, outs, tag);
  }

  /** `key'` is `key` except that `tag` may have become the largest key of all. */
  ghost predicate Bumped(key: string -> nat, key': string -> nat, tag: string, touched: bool) {
    && (forall t | t != tag :: key'(t) == key(t))
    && (if touched then 0 < key'(tag) && forall t :: key(t) < key'(tag) else key'(tag) == key(tag))
  }

  lemma WriteKeyOrdered(s: Slots, budget: int, tag: string, data: Data, nbytes: nat, now: nat, key: string -> nat,
                        key': string -> nat)
    requires KeyOrdered(s, key) && Bumped(key, key', tag, nbytes <= budget)
    ensures KeyOrdered(WriteSlots(s, budget, tag, data, nbytes, now), key')
  {
    if nbytes <= budget {
      WriteShape(s, budget, tag, data, nbytes, now);
      WithoutKeyOrdered(s, tag, key);
      var w := Without(s, tag);
      SnocKeyOrdered(w, |w| - |Shed(w, budget - nbytes)|, Item(tag, nbytes, Some(Stored(data, now))), key, key');
    }
  }

  lemma ReadKeyOrdered(s: Slots, tag: string, key: string -> nat, key': string -> nat)
    requires KeyOrdered(s, key) && Bumped(key, key', tag, ReadValue(s, tag).Some?)
    ensures KeyOrdered(ReadSlots(s, tag), key')
  {
    var w := Without(s, tag);
    WithoutKeyOrdered(s, tag, key);
    SuffixKeyOrdered(w, key, tag, key');
    if ReadValue(s, tag).Some? {
      assert w[0..] == w;
      SnocKeyOrdered(w, 0, Lookup(s, tag), key, key');
    }
  }

  lemma OrderStep(m: Model, op: Op, now: nat, sizeOf: (string, Data) -> nat, key: string -> nat, key': string -> nat)
    requires KeyOrdered(m.slots, key) && !op.Restart?
    requires op.Flush? || Bumped(key, key', op.tag,
               (op.Write? && sizeOf(op.tag, op.data) <= m.budget) || (op.Read? && ReadValue(m.slots, op.tag).Some?))
    ensures KeyOrdered(Step(m, op, now, sizeOf).0.slots, key')
  {
    match op
    case Write(t, d) => WriteKeyOrdered(m.slots, m.budget, t, d, sizeOf(t, d), now, key, key');
    case Read(t) => ReadKeyOrdered(m.slots, t, key, key');
    case Evict(t) =>
      WithoutKeyOrdered(m.slots, t, key);
      SuffixKeyOrdered(Without(m.slots, t), key, t, key');
    case Flush =>
    case Lose(t) =>
  }

  /** Between restarts the index order is the order of last use, and every indexed tag has been used. */
  lemma {:induction false} OrderIsLastUse(ops: seq<Op>, budget: int, sizeOf: (string, Data) -> nat)
    requires forall i | 0 <= i < |ops| :: !ops[i].Restart?
    ensures var r := Run(Model([], budget), ops, sizeOf);
            KeyOrdered(r.model.slots, t => LastUse(ops, r.outs, t))
  {
    if ops != [] {
      var n := |ops| - 1;
      OrderIsLastUse(ops[..n], budget, sizeOf);
      var before, after := Run(Model([], budget), ops[..n], sizeOf), Run(Model([], budget), ops, sizeOf);
      assert ops == ops[..n] + [ops[n]] && after.outs == before.outs + [after.outs[n]];
      forall t { LastUseSnoc(ops[..n], before.outs, ops[n], after.outs[n], t); }
      OrderStep(before.model, ops[n], n, sizeOf, t => LastUse(ops[..n], before.outs, t),
        t => LastUse(ops, after.outs, t));
    }
  }

  // ---------------------------------------------------------------- the byte budget over runs

  lemma {:induction false} ShedFits<V(!new)>(l: seq<Item<V>>, room: int)
    requires 0 <= room
    ensures Total(Shed(l, room)) <= room && Total(Shed(l, room)) <= Total(l)
  {
    if !(l == [] || Total(l) <= room) { ShedFits(l[1..], room); }
  }

  lemma {:induction false} LoseTotal(s: Slots, tag: string)
    ensures Total(LoseSlots(s, tag)) == Total(s)
  {
    if s != [] {
      assert LoseSlots(s, tag)[1..] == LoseSlots(s[1..], tag);
      LoseTotal(s[1..], tag);
    }
  }

  lemma ShedAppendTotal<V(!new)>(w: seq<Item<V>>, budget: int, x: Item<V>)
    requires x.nbytes <= budget
    ensures Total(Shed(w, budget - x.nbytes) + [x]) <= budget
  {
    ShedFits(w, budget - x.nbytes);
    var kept := Shed(w, budget - x.nbytes);
    TotalAppend(kept, [x]);
    assert [x][1..] == [];
  }

  lemma WriteTotal(s: Slots, budget: int, tag: string, data: Data, nbytes: nat, now: nat)
    requires nbytes <= budget
    ensures Total(WriteSlots(s, budget, tag, data, nbytes, now)) <= budget
  {
    var w, x := Without(s, tag), Item(tag, nbytes, Some(Stored(data, now)));
    assert WriteSlots(s, budget, tag, data, nbytes, now) == Shed(w, budget - nbytes) + [x];
    ShedAppendTotal(w, budget, x);
  }

  lemma ReadTotal(s: Slots, tag: string)
    requires Distinct(s)
    ensures Total(ReadSlots(s, tag)) <= Total(s)
  {
    TotalWithout(s, tag);
    if Has(s, tag) {
      var x := Lookup(s, tag);
      TotalAppend(Without(s, tag), [x]);
      assert Total([x]) == x.nbytes;
    }
  }

  lemma StepTotal(m: Model, op: Op, now: nat, sizeOf: (string, Data) -> nat)
    requires Distinct(m.slots) && !op.Restart?
    ensures var (after, out) := Step(m, op, now, sizeOf);
            if out == Wrote(true) then Total(after.slots) <= m.budget else Total(after.slots) <= Total(m.slots)
  {
    match op
    case Write(t, d) =>
      if sizeOf(t, d) <= m.budget { WriteTotal(m.slots, m.budget, t, d, sizeOf(t, d), now); }
    case Read(t) => ReadTotal(m.slots, t);
    case Evict(t) => TotalWithout(m.slots, t);
    case Flush =>
    case Lose(t) => LoseTotal(m.slots, t);
  }

  /** From any starting list, even one over budget, the total never grows until the first stored
      write, and from that write on it stays within the budget. */
  lemma {:induction false} BudgetOverRuns(m: Model, ops: seq<Op>, sizeOf: (string, Data) -> nat)
    requires Distinct(m.slots) && forall i | 0 <= i < |ops| :: !ops[i].Restart?
    ensures var r := Run(m, ops, sizeOf);
            && r.model.budget == m.budget
            && (if Wrote(true) in r.outs then Total(r.model.slots) <= m.budget
                else Total(r.model.slots) <= Total(m.slots))
  {
    hide *;
    RunLast(m, ops, sizeOf);
    if ops != [] {
      var n := |ops| - 1;
      var before := Run(m, ops[..n], sizeOf);
      BudgetOverRuns(m, ops[..n], sizeOf);
      RunDistinct(m, ops[..n], sizeOf);
      StepTotal(before.model, ops[n], n, sizeOf);
      StepBudget(before.model, ops[n], n, sizeOf);
    }
  }

  lemma RunLast(m: Model, ops: seq<Op>, sizeOf: (string, Data) -> nat)
    ensures ops == [] ==> Run(m, ops, sizeOf) == Trace(m, [])
    ensures ops != [] ==>
              var n := |ops| - 1;
              var before := Run(m, ops[..n], sizeOf);
              var (after, out) := Step(before.model, ops[n], n, sizeOf);
              Run(m, ops, sizeOf) == Trace(after, before.outs + [out])
  {
    hide Step;
  }

  lemma StepBudget(m: Model, op: Op, now: nat, sizeOf: (string, Data) -> nat)
    requires !op.Restart?
    ensures Step(m, op, now, sizeOf).0.budget == m.budget
  {
  }

  // ---------------------------------------------------------------- which budget holds, restarts included

  /** Read off the operations alone: the budget of the last restart, or the initial one. */
  function BudgetAt(initial: int, ops: seq<Op>): int {
    if ops == [] then initial
    else
      match ops[|ops| - 1]
      case Restart(b) => b
      case _ => BudgetAt(initial, ops[..|ops| - 1])
  }

  lemma BudgetAtLast(initial: int, ops: seq<Op>)
    ensures ops == [] ==> BudgetAt(initial, ops) == initial
    ensures ops != [] ==>
              var op := ops[|ops| - 1];
              BudgetAt(initial, ops) == if op.Restart? then op.budget else BudgetAt(initial, ops[..|ops| - 1])
  {
  }

  lemma StepBudgetIs(m: Model, op: Op, now: nat, sizeOf: (string, Data) -> nat)
    ensures Step(m, op, now, sizeOf).0.budget == if op.Restart? then op.budget else m.budget
    ensures op.Write? ==> Step(m, op, now, sizeOf).1 == Wrote(sizeOf(op.tag, op.data) <= m.budget)
  {
  }

  /** After any run, with restarts anywhere, the budget is the one of the last restart. */
  lemma {:induction false} RestartsSetBudget(m: Model, ops: seq<Op>, sizeOf: (string, Data) -> nat)
    ensures Run(m, ops, sizeOf).model.budget == BudgetAt(m.budget, ops)
  {
    hide *;
    RunLast(m, ops, sizeOf);
    BudgetAtLast(m.budget, ops);
    if ops != [] {
      var n := |ops| - 1;
      RestartsSetBudget(m, ops[..n], sizeOf);
      StepBudgetIs(Run(m, ops[..n], sizeOf).model, ops[n], n, sizeOf);
    }
  }

  /** Answers are not revised by what follows. */
  lemma {:induction false} OutsPrefix(m: Model, ops: seq<Op>, sizeOf: (string, Data) -> nat, k: nat)
    requires k <= |ops|
    ensures Run(m, ops[..k], sizeOf).outs == Run(m, ops, sizeOf).outs[..k]
  {
    hide *;
    if k == |ops| {
      assert ops[..k] == ops;
    } else {
      RunLast(m, ops, sizeOf);
      OutsPrefix(m, ops[..|ops| - 1], sizeOf, k);
      assert ops[..|ops| - 1][..k] == ops[..k];
    }
  }

  /** A write is stored exactly if it fits the budget of its time. */
  lemma WritesFitTheBudgetOfTheirTime(m: Model, ops: seq<Op>, sizeOf: (string, Data) -> nat, i: nat)
    requires i < |ops| && ops[i].Write?
    ensures Run(m, ops, sizeOf).outs[i] == Wrote(sizeOf(ops[i].tag, ops[i].data) <= BudgetAt(m.budget, ops[..i]))
  {
    hide *;
    var first := ops[..i + 1];
    assert first[..i] == ops[..i] && first[i] == ops[i];
    OutsPrefix(m, ops, sizeOf, i + 1);
    RunLast(m, first, sizeOf);
    RestartsSetBudget(m, ops[..i], sizeOf);
    StepBudgetIs(Run(m, ops[..i], sizeOf).model, ops[i], i, sizeOf);
  }

  /** From a stored write on, and until the next restart, the total is within the budget of the time. */
  lemma {:induction false} StoredWriteKeepsBudget(m: Model, ops: seq<Op>, sizeOf: (string, Data) -> nat, i: nat)
    requires Distinct(m.slots) && i < |ops| && Run(m, ops, sizeOf).outs[i] == Wrote(true)
    requires forall j | i <= j < |ops| :: !ops[j].Restart?
    ensures Total(Run(m, ops, sizeOf).model.slots) <= BudgetAt(m.budget, ops)
  {
    hide *;
    var n := |ops| - 1;
    var before := Run(m, ops[..n], sizeOf);
    RunLast(m, ops, sizeOf);
    BudgetAtLast(m.budget, ops);
    RestartsSetBudget(m, ops[..n], sizeOf);
    RunDistinct(m, ops[..n], sizeOf);
    StepTotal(before.model, ops[n], n, sizeOf);
    if i < n {
      OutsPrefix(m, ops, sizeOf, n);
      StoredWriteKeepsBudget(m, ops[..n], sizeOf, i);
    }
  }

  // ---------------------------------------------------------------- equal sizes: the most recent k tags

  function Tags<V>(l: seq<Item<V>>): (r: seq<string>)
    ensures |r| == |l| && forall i | 0 <= i < |l| :: r[i] == l[i].tag
  {
    seq(|l|, i requires 0 <= i < |l| => l[i].tag)
  }

  function Remove(r: seq<string>, t: string): seq<string> {
    if r == [] then [] else (if r[0] == t then [] else [r[0]]) + Remove(r[1..], t)
  }

  function Last(r: seq<string>, k: nat): seq<string> {
    if |r| <= k then r else r[|r| - k..]
  }

  /** Every tag ever used, most recently used last: a write uses its tag; a read uses it only when
      it is among the k most recent, which is when it can hit. */
  function MostRecent(ops: seq<Op>, k: nat): seq<string>
    requires forall i | 0 <= i < |ops| :: ops[i].Write? || ops[i].Read?
  {
    if ops == [] then []
    else
      var r := MostRecent(ops[..|ops| - 1], k);
      var op := ops[|ops| - 1];
      if op.Write? || op.tag in Last(r, k) then Remove(r, op.tag) + [op.tag] else r
  }

  lemma {:induction false} RemoveKeeps(r: seq<string>, t: string, i: nat)
    requires i < |Remove(r, t)|
    ensures Remove(r, t)[i] in r && Remove(r, t)[i] != t
  {
    var h := if r[0] == t then [] else [r[0]];
    if i >= |h| { RemoveKeeps(r[1..], t, i - |h|); }
  }

  lemma {:induction false} RemoveOnce(r: seq<string>, t: string)
    requires NoRepeats(r)
    ensures NoRepeats(Remove(r, t)) && |Remove(r, t)| == |r| - (if t in r then 1 else 0)
  {
    if r != [] {
      RemoveOnce(r[1..], t);
      var q := Remove(r[1..], t);
      forall i | 0 <= i < |q| ensures q[i] != r[0] {
        RemoveKeeps(r[1..], t, i);
        var k :| 0 <= k < |r[1..]| && r[1..][k] == q[i];
        assert r[k + 1] == q[i];
      }
      assert r == [r[0]] + r[1..] && r[0] !in r[1..];
    }
  }

  lemma {:induction false} MostRecentNoRepeats(ops: seq<Op>, k: nat)
    requires forall i | 0 <= i < |ops| :: ops[i].Write? || ops[i].Read?
    ensures NoRepeats(MostRecent(ops, k))
  {
    if ops != [] {
      var n := |ops| - 1;
      MostRecentNoRepeats(ops[..n], k);
      var r := MostRecent(ops[..n], k);
      RemoveOnce(r, ops[n].tag);
      forall i | 0 <= i < |Remove(r, ops[n].tag)| { RemoveKeeps(r, ops[n].tag, i); }
    }
  }

  lemma NoRepeatsTail(r: seq<string>)
    requires NoRepeats(r) && r != []
    ensures NoRepeats(r[1..])
  {
  }

  lemma LastOfLonger(head: seq<string>, q: seq<string>, k: nat)
    requires k <= |q|
    ensures Last(head + q, k) == Last(q, k)
  {
  }

  /** Removing a tag from the last k leaves the same last k-1 as removing it from the whole. */
  lemma {:induction false} RemoveLast(r: seq<string>, t: string, k: nat)
    requires NoRepeats(r) && k > 0
    ensures Last(Remove(Last(r, k), t), k - 1) == Last(Remove(r, t), k - 1)
  {
    if |r| > k {
      var head, q := if r[0] == t then [] else [r[0]], Remove(r[1..], t);
      assert Remove(r, t) == head + q;
      hide *;
      RemoveLast(r[1..], t, k) by { NoRepeatsTail(r); }
      assert |q| >= k - 1 by { NoRepeatsTail(r); RemoveOnce(r[1..], t); }
      assert [r[0]] + r[1..] == r;
      LastOfLonger([r[0]], r[1..], k);
      LastOfLonger(head, q, k - 1);
    } else {
      assert Last(r, k) == r;
    }
  }

  lemma {:induction false} WithoutTags<V(!new)>(l: seq<Item<V>>, t: string)
    ensures Tags(Without(l, t)) == Remove(Tags(l), t)
  {
    if l != [] {
      assert Tags(l)[1..] == Tags(l[1..]);
      WithoutTags(l[1..], t);
    }
  }

  ghost predicate AllSize<V>(l: seq<Item<V>>, size: nat) {
    forall i | 0 <= i < |l| :: l[i].nbytes == size
  }

  lemma {:induction false} TotalAllSize<V(!new)>(l: seq<Item<V>>, size: nat)
    requires AllSize(l, size)
    ensures Total(l) == |l| * size
  {
    if l != [] { TotalAllSize(l[1..], size); }
  }

  lemma FitsCount(n: nat, size: nat, room: nat)
    requires size > 0
    ensures n * size <= room <==> n <= room / size
  {
    var q := room / size;
    assert room == q * size + room % size;
    if n <= q { assert n * size <= q * size; } else { assert (q + 1) * size <= n * size; }
  }

  lemma {:induction false} ShedAllSize<V(!new)>(l: seq<Item<V>>, size: nat, room: nat)
    requires AllSize(l, size) && size > 0
    ensures Tags(Shed(l, room)) == Last(Tags(l), room / size)
  {
    hide *;
    ShedIs(l, room);
    TotalAllSize(l, size);
    FitsCount(|l|, size, room);
    LastIs(Tags(l), room / size);
    if !(l == [] || Total(l) <= room) {
      AllSizeRest(l, size);
      ShedAllSize(l[1..], size, room);
      assert Tags(l)[1..] == Tags(l[1..]);
    }
  }

  lemma AllSizeRest<V(!new)>(l: seq<Item<V>>, size: nat)
    requires AllSize(l, size) && l != []
    ensures AllSize(l[1..], size)
  {
  }

  lemma LastIs(r: seq<string>, k: nat)
    ensures |r| <= k ==> Last(r, k) == r
    ensures |r| > k ==> Last(r, k) == Last(r[1..], k)
  {
  }

  lemma OneFewer(budget: nat, size: nat)
    requires 0 < size <= budget
    ensures (budget - size) / size == budget / size - 1
  {
    var q := budget / size;
    assert budget - size == (q - 1) * size + budget % size;
    FitsCount(q - 1, size, budget - size);
    FitsCount(q, size, budget - size);
  }

  lemma WithoutAllSize<V(!new)>(l: seq<Item<V>>, tag: string, size: nat)
    requires AllSize(l, size)
    ensures AllSize(Without(l, tag), size)
  {
    WithoutMembers(l, tag);
    var w := Without(l, tag);
    forall i | 0 <= i < |w| ensures w[i].nbytes == size { assert w[i] in w; }
  }

  lemma SnocLast(q: seq<string>, t: string, k: nat)
    requires k > 0
    ensures Last(q + [t], k) == Last(q, k - 1) + [t]
  {
  }

  lemma AppendAllSize<V(!new)>(w: seq<Item<V>>, size: nat, x: Item<V>)
    requires AllSize(w, size) && x.nbytes == size
    ensures AllSize(w + [x], size) && Tags(w + [x]) == Tags(w) + [x.tag]
  {
  }

  /** Writing one item leaves room for k-1 more of the same size, or does not fit at all. */
  ghost predicate HoldsExactly(budget: nat, size: nat, k: nat)
    requires size > 0
  {
    if size <= budget then k > 0 && (budget - size) / size == k - 1 else k == 0
  }

  lemma WriteEqualSize(s: Slots, budget: nat, tag: string, data: Data, size: nat, now: nat, r: seq<string>, k: nat)
    requires size > 0 && HoldsExactly(budget, size, k)
    requires AllSize(s, size) && NoRepeats(r) && Tags(s) == Last(r, k)
    ensures var s' := WriteSlots(s, budget, tag, data, size, now);
            AllSize(s', size) && Tags(s') == Last(Remove(r, tag) + [tag], k)
  {
    if size <= budget {
      WithoutAllSize(s, tag, size);
      WithoutTags(s, tag);
      var w := Without(s, tag);
      StoreEqualSize(w, budget - size, Item(tag, size, Some(Stored(data, now))), size, r, k);
    } else {
      assert s == [];
    }
  }

  lemma StoreEqualSize<V(!new)>(w: seq<Item<V>>, room: nat, x: Item<V>, size: nat, r: seq<string>, k: nat)
    requires AllSize(w, size) && x.nbytes == size > 0 && NoRepeats(r) && k > 0 && room / size == k - 1
    requires Tags(w) == Remove(Last(r, k), x.tag)
    ensures AllSize(Shed(w, room) + [x], size)
    ensures Tags(Shed(w, room) + [x]) == Last(Remove(r, x.tag) + [x.tag], k)
  {
    var kept := Shed(w, room);
    ShedSuffix(w, room);
    ShedAllSize(w, size, room);
    RemoveLast(r, x.tag, k);
    SnocLast(Remove(r, x.tag), x.tag, k);
    AppendAllSize(kept, size, x);
  }

  lemma HasTag<V(!new)>(l: seq<Item<V>>, tag: string)
    ensures Has(l, tag) <==> tag in Tags(l)
  {
    if tag in Tags(l) { var i :| 0 <= i < |l| && Tags(l)[i] == tag; assert l[i].tag == tag; }
    if Has(l, tag) { var i :| 0 <= i < |l| && l[i].tag == tag; assert Tags(l)[i] == tag; }
  }

  lemma ReadEqualSize(s: Slots, tag: string, size: nat, k: nat, r: seq<string>)
    requires AllSize(s, size) && NoRepeats(r) && Tags(s) == Last(r, k)
    requires AllReadable(s)
    ensures var s' := ReadSlots(s, tag);
            && AllSize(s', size)
            && Tags(s') == Last(if tag in Last(r, k) then Remove(r, tag) + [tag] else r, k)
  {
    HasTag(s, tag);
    if Has(s, tag) {
      var w, x := Without(s, tag), Lookup(s, tag);
      WithoutAllSize(s, tag, size);
      WithoutTags(s, tag);
      var q := Remove(Last(r, k), tag);
      RemoveOnce(Last(r, k), tag);
      assert Last(q, k - 1) == q;
      RemoveLast(r, tag, k);
      assert Tags(w + [x]) == Tags(w) + [tag];
      SnocLast(Remove(r, tag), tag, k);
    }
  }

  ghost predicate Uniform(ops: seq<Op>, size: nat, sizeOf: (string, Data) -> nat) {
    forall i | 0 <= i < |ops| :: ops[i].Read? || (ops[i].Write? && sizeOf(ops[i].tag, ops[i].data) == size)
  }

  lemma EqualSizeStep(m: Model, op: Op, now: nat, size: nat, sizeOf: (string, Data) -> nat, r: seq<string>, k: nat)
    requires size > 0 && m.budget >= 0 && k == m.budget / size && NoRepeats(r)
    requires op.Read? || (op.Write? && sizeOf(op.tag, op.data) == size)
    requires AllSize(m.slots, size) && AllReadable(m.slots) && Tags(m.slots) == Last(r, k)
    ensures var s := Step(m, op, now, sizeOf).0.slots;
            && AllSize(s, size) && AllReadable(s)
            && Tags(s) == Last(if op.Write? || op.tag in Last(r, k) then Remove(r, op.tag) + [op.tag] else r, k)
  {
    var after := Step(m, op, now, sizeOf).0.slots;
    forall i | 0 <= i < |after| ensures after[i].value.Some? { StepReadable(m, op, now, sizeOf, i); }
    match op
    case Write(t, d) =>
      FitsCount(1, size, m.budget);
      if size <= m.budget { OneFewer(m.budget, size); }
      WriteEqualSize(m.slots, m.budget, t, d, size, now, r, k);
    case Read(t) => ReadEqualSize(m.slots, t, size, k, r);
  }

  lemma StepReadable(m: Model, op: Op, now: nat, sizeOf: (string, Data) -> nat, i: nat)
    requires (op.Read? || op.Write?) && AllReadable(m.slots) && i < |Step(m, op, now, sizeOf).0.slots|
    ensures Step(m, op, now, sizeOf).0.slots[i].value.Some?
  {
    var after := Step(m, op, now, sizeOf).0.slots;
    assert after[i] in after;
    WithoutMembers(m.slots, op.tag);
    if op.Write? && sizeOf(op.tag, op.data) <= m.budget {
      WriteShape(m.slots, m.budget, op.tag, op.data, sizeOf(op.tag, op.data), now);
    }
  }

  /** With items of one size and only writes and reads, the cache holds exactly the
      floor(budget / size) most recently used tags, in order. */
  lemma {:induction false} EqualSizesKeepMostRecent(ops: seq<Op>, budget: nat, size: nat, sizeOf: (string, Data) -> nat)
    requires size > 0 && Uniform(ops, size, sizeOf)
    ensures var m := Run(Model([], budget), ops, sizeOf).model;
            && m.budget == budget && AllSize(m.slots, size) && AllReadable(m.slots)
            && Tags(m.slots) == Last(MostRecent(ops, budget / size), budget / size)
  {
    if ops != [] {
      var n := |ops| - 1;
      EqualSizesKeepMostRecent(ops[..n], budget, size, sizeOf);
      MostRecentNoRepeats(ops[..n], budget / size);
      EqualSizeStep(Run(Model([], budget), ops[..n], sizeOf).model, ops[n], n, size, sizeOf,
        MostRecent(ops[..n], budget / size), budget / size);
    }
  }

  // ---------------------------------------------------------------- restarts

  lemma {:induction false} LastStoredIsAWrite(ops: seq<Op>, outs: seq<Out>, tag: string)
    requires |ops| == |outs|
    ensures var last := LastStored(ops, outs, tag);
            last.Some? ==> last.value.stamp < |ops| && ops[last.value.stamp] == Write(tag, last.value.data)
  {
    if ops != [] { LastStoredIsAWrite(ops[..|ops| - 1], outs[..|ops| - 1], tag); }
  }

  ghost predicate StampOrdered(s: Slots) {
    && (AllReadable(s))
    && (forall i, j | 0 <= i < j < |s| :: s[i].value.value.stamp <= s[j].value.value.stamp)
  }

  ghost predicate NotBefore(s: Slots, lo: nat) {
    forall i | 0 <= i < |s| :: s[i].value.Some? && lo <= s[i].value.value.stamp
  }

  lemma {:induction false} InsertStampOrdered(x: Item<Option<Stored>>, s: Slots, lo: nat)
    requires x.value.Some? && lo <= x.value.value.stamp && StampOrdered(s) && NotBefore(s, lo)
    ensures StampOrdered(InsertByStamp(x, s)) && NotBefore(InsertByStamp(x, s), lo)
  {
    if !(s == [] || x.value.value.stamp <= s[0].value.value.stamp) {
      InsertStampOrdered(x, s[1..], s[0].value.value.stamp);
    }
  }

  lemma {:induction false} InsertTotal(x: Item<Option<Stored>>, s: Slots)
    requires x.value.Some? && AllReadable(s)
    ensures Total(InsertByStamp(x, s)) == x.nbytes + Total(s)
  {
    if s == [] || x.value.value.stamp <= s[0].value.value.stamp {
      TotalAppend([x], s);
    } else {
      InsertTotal(x, s[1..]);
      TotalAppend([s[0]], InsertByStamp(x, s[1..]));
    }
  }

  lemma {:induction false} ByStampOrdered(s: Slots)
    requires AllReadable(s)
    ensures StampOrdered(ByStamp(s)) && Total(ByStamp(s)) == Total(s)
  {
    if s != [] {
      ByStampOrdered(s[1..]);
      InsertStampOrdered(s[0], ByStamp(s[1..]), 0);
      InsertTotal(s[0], ByStamp(s[1..]));
    }
  }

  lemma {:induction false} ReadableAll(s: Slots)
    requires AllReadable(s)
    ensures Readable(s) == s
  {
    if s != [] {
      assert s[0] in s;
      ReadableAll(s[1..]);
    }
  }

  /** Both tags were written, and `s[i]`'s last write came before `s[j]`'s. */
  ghost predicate LastWriteOrdered(s: Slots, ops: seq<Op>, outs: seq<Out>)
    requires |ops| == |outs|
  {
    forall i, j | 0 <= i < j < |s| ::
      var a, b := LastStored(ops, outs, s[i].tag), LastStored(ops, outs, s[j].tag);
      a.Some? && b.Some? && a.value.stamp < b.value.stamp
  }

  /** In any run, list order by stamp is strict: no two tags share the time of their last write. */
  lemma StampOrderIsLastWrite(q: Slots, ops: seq<Op>, outs: seq<Out>)
    requires |ops| == |outs| && Distinct(q) && StampOrdered(q) && Faithful(q, ops, outs)
    ensures LastWriteOrdered(q, ops, outs)
  {
    forall i, j | 0 <= i < j < |q|
      ensures var a, b := LastStored(ops, outs, q[i].tag), LastStored(ops, outs, q[j].tag);
              a.Some? && b.Some? && a.value.stamp < b.value.stamp
    {
      assert q[i] in q && q[j] in q;
      LastStoredIsAWrite(ops, outs, q[i].tag);
      LastStoredIsAWrite(ops, outs, q[j].tag);
    }
  }

  /** `q` holds exactly the readable items of `s`, with their tags, sizes and values (so the same
      total when nothing was lost), in the order of their last stored writes. */
  ghost predicate RebuiltFrom(q: Slots, s: Slots, ops: seq<Op>, outs: seq<Out>)
    requires |ops| == |outs|
  {
    && Distinct(q) && LastWriteOrdered(q, ops, outs)
    && (forall x :: x in q <==> x in s && x.value.Some?)
    && (AllReadable(s) ==> Total(q) == Total(s))
  }

  lemma RestartSlots(s: Slots, ops: seq<Op>, outs: seq<Out>)
    requires |ops| == |outs| && Distinct(s) && Faithful(s, ops, outs)
    ensures RebuiltFrom(ByStamp(Readable(s)), s, ops, outs)
  {
    var q := ByStamp(Readable(s));
    ReadableDistinct(s);
    ByStampDistinct(Readable(s));
    ByStampOrdered(Readable(s));
    ReadableMembers(s);
    ByStampMembers(Readable(s));
    StampOrderIsLastWrite(q, ops, outs);
    if AllReadable(s) { ReadableAll(s); }
  }

  /** A restart after any run rebuilds the list by last successful write instead of last use. */
  lemma RestartOrdersByLastWrite(ops: seq<Op>, budget: int, budget': int, sizeOf: (string, Data) -> nat)
    ensures var before := Run(Model([], budget), ops, sizeOf);
            RebuiltFrom(RestartModel(before.model, budget').slots, before.model.slots, ops, before.outs)
  {
    RunFaithful(ops, budget, sizeOf);
    RunDistinct(Model([], budget), ops, sizeOf);
    var before := Run(Model([], budget), ops, sizeOf);
    RestartSlots(before.model.slots, ops, before.outs);
  }
}
