/** Filling a cluster up with cloud instances by index, and finding them again by position. */
module Instances {

  import opened Results

  /** A running instance: the index in its tag and its address. */
  datatype Entry = Entry(index: int, ip: string)

  // ---------------------------------------------------------------- which indexes are launched

  /** The n smallest naturals from `from` on that are not in use. */
  function Picks(used: set<int>, from: nat, n: nat): (picks: seq<int>)
    ensures |picks| == n
    decreases n + |Above(used, from)|
  {
    if n == 0 then []
    else if from in used then
      AboveShrinks(used, from);
      Picks(used, from + 1, n)
    else
      AboveSame(used, from);
      [from] + Picks(used, from + 1, n - 1)
  }

  function Above(used: set<int>, from: int): set<int> {
    set u | u in used && u >= from
  }

  lemma AboveShrinks(used: set<int>, from: int)
    requires from in used
    ensures |Above(used, from + 1)| < |Above(used, from)|
  {
    assert Above(used, from) == Above(used, from + 1) + {from};
  }

  lemma AboveSame(used: set<int>, from: int)
    requires from !in used
    ensures Above(used, from + 1) == Above(used, from)
  {
  }

  function Used(entries: seq<Entry>): (u: set<int>) {
    set i | 0 <= i < |entries| :: entries[i].index
  }

  function Needed(entries: seq<Entry>, count: int): int {
    count - |Used(entries)|
  }

  function PicksFor(entries: seq<Entry>, count: int): seq<int> {
    if Needed(entries, count) <= 0 then [] else Picks(Used(entries), 0, Needed(entries, count))
  }

  method UsedIndexes(entries: seq<Entry>) returns (used: set<int>)
    ensures used == Used(entries)
  {
    used := {};
    for i := 0 to |entries|
      invariant used == Used(entries[..i])
    {
      used := used + {entries[i].index};
    }
    assert entries[..|entries|] == entries;
  }

  method PickIndexes(entries: seq<Entry>, count: int) returns (picks: seq<int>)
    ensures picks == PicksFor(entries, count)
  {
    var used := UsedIndexes(entries);
    var needed := count - |used|;
    picks := [];
    if needed <= 0 { return; }
    assert PicksFor(entries, count) == Picks(used, 0, needed);
    hide *;
    var idx := 0;
    ghost var rest := Picks(used, idx, needed);
    assert picks + rest == rest;
    while |picks| < needed
      invariant |picks| <= needed && rest == Picks(used, idx, needed - |picks|)
                && picks + rest == Picks(used, 0, needed)
      decreases needed - |picks| + |Above(used, idx)|
    {
      PicksStep(used, idx, needed - |picks|);
      if idx !in used {
        Shift(picks, rest);
        picks, rest := picks + [idx], rest[1..];
      }
      idx := idx + 1;
    }
    assert rest == [] && picks + rest == picks;
  }

  lemma Shift(a: seq<int>, b: seq<int>)
    requires b != []
    ensures a + b == (a + [b[0]]) + b[1..]
  {
  }

  lemma PicksStep(used: set<int>, from: nat, n: nat)
    requires n > 0
    ensures from in used ==>
            Picks(used, from, n) == Picks(used, from + 1, n) && |Above(used, from + 1)| < |Above(used, from)|
    ensures from !in used ==>
            Picks(used, from, n)[0] == from && Picks(used, from, n)[1..] == Picks(used, from + 1, n - 1)
    ensures from !in used ==> Above(used, from + 1) == Above(used, from)
  {
    if from in used { AboveShrinks(used, from); } else { AboveSame(used, from); }
    hide Above;
  }

  /** The picks are ascending and are exactly the unused naturals below some bound. */
  lemma {:induction false} PicksAreSmallest(used: set<int>, from: nat, n: nat) returns (bound: nat)
    ensures from <= bound
    ensures var p := Picks(used, from, n);
            && (forall i, j | 0 <= i < j < n :: p[i] < p[j])
            && (forall v :: v in p <==> from <= v < bound && v !in used)
    decreases n + |Above(used, from)|
  {
    if n == 0 {
      bound := from;
    } else if from in used {
      AboveShrinks(used, from);
      bound := PicksAreSmallest(used, from + 1, n);
    } else {
      AboveSame(used, from);
      bound := PicksAreSmallest(used, from + 1, n - 1);
      var p, rest := Picks(used, from, n), Picks(used, from + 1, n - 1);
      assert p == [from] + rest;
      forall i, j | 0 <= i < j < n ensures p[i] < p[j] { if i == 0 { assert p[j] in rest; } }
    }
  }

  // ---------------------------------------------------------------- merging and sorting

  /** list.sort by index: stable, so an entry goes after those with the same index. */
  function Insert(s: seq<Entry>, e: Entry): seq<Entry> {
    if s == [] || s[|s| - 1].index <= e.index then s + [e]
    else Insert(s[..|s| - 1], e) + [s[|s| - 1]]
  }

  function SortByIndex(entries: seq<Entry>): seq<Entry> {
    if entries == [] then [] else Insert(SortByIndex(entries[..|entries| - 1]), entries[|entries| - 1])
  }

  ghost predicate Sorted(s: seq<Entry>) {
    forall i, j | 0 <= i < j < |s| :: s[i].index <= s[j].index
  }

  function WithIndex(s: seq<Entry>, v: int): seq<Entry> {
    if s == [] then []
    else WithIndex(s[..|s| - 1], v) + (if s[|s| - 1].index == v then [s[|s| - 1]] else [])
  }

  /** How often an index occurs. */
  function Times(s: seq<Entry>, v: int): nat {
    |WithIndex(s, v)|
  }

  lemma WithIndexSnoc(s: seq<Entry>, e: Entry, v: int)
    ensures WithIndex(s + [e], v) == WithIndex(s, v) + (if e.index == v then [e] else [])
  {
    assert (s + [e])[..|s|] == s;
  }

  lemma {:induction false} InsertSorts(s: seq<Entry>, e: Entry)
    requires Sorted(s)
    ensures Sorted(Insert(s, e))
    ensures forall x | x in Insert(s, e) :: x in s || x == e
  {
    if s != [] && s[|s| - 1].index > e.index {
      var n := |s| - 1;
      InsertSorts(s[..n], e);
      var t := Insert(s[..n], e);
      forall i | 0 <= i < |t| ensures t[i].index <= s[n].index { assert t[i] in t; }
    }
  }

  lemma InsertIs(s: seq<Entry>, e: Entry)
    ensures Insert(s, e)
            == if s == [] || s[|s| - 1].index <= e.index then s + [e] else Insert(s[..|s| - 1], e) + [s[|s| - 1]]
  {
  }

  lemma SortedPrefix(s: seq<Entry>, n: nat)
    requires Sorted(s) && n <= |s|
    ensures Sorted(s[..n])
  {
  }

  lemma {:induction false} InsertKeeps(s: seq<Entry>, e: Entry, v: int)
    requires Sorted(s)
    ensures WithIndex(Insert(s, e), v) == WithIndex(s + [e], v)
  {
    hide *;
    InsertIs(s, e);
    if s != [] && s[|s| - 1].index > e.index {
      var n := |s| - 1;
      SortedPrefix(s, n);
      InsertKeeps(s[..n], e, v);
      assert s == s[..n] + [s[n]];
      WithIndexSnoc(s[..n], s[n], v);
      WithIndexSnoc(s, e, v);
      WithIndexSnoc(s[..n], e, v);
      WithIndexSnoc(Insert(s[..n], e), s[n], v);
    }
  }

  lemma SortLast(entries: seq<Entry>)
    ensures entries == [] ==> SortByIndex(entries) == entries && Sorted(entries)
    ensures entries != [] ==>
            SortByIndex(entries) == Insert(SortByIndex(entries[..|entries| - 1]), entries[|entries| - 1])
  {
  }

  /** Sorting orders by index and keeps the entries of each index, in their order. */
  lemma {:induction false} SortIsStable(entries: seq<Entry>, v: int)
    ensures Sorted(SortByIndex(entries)) && WithIndex(SortByIndex(entries), v) == WithIndex(entries, v)
  {
    hide *;
    SortLast(entries);
    if entries != [] {
      var n := |entries| - 1;
      SortIsStable(entries[..n], v);
      var s := SortByIndex(entries[..n]);
      InsertSorts(s, entries[n]);
      InsertKeeps(s, entries[n], v);
      WithIndexSnoc(s, entries[n], v);
      WithIndexSnoc(entries[..n], entries[n], v);
      assert entries == entries[..n] + [entries[n]];
    }
  }

  function Zip(indexes: seq<int>, ips: seq<string>): (es: seq<Entry>)
    ensures |es| == if |indexes| < |ips| then |indexes| else |ips|
    ensures forall i | 0 <= i < |es| :: es[i] == Entry(indexes[i], ips[i])
  {
    seq(if |indexes| < |ips| then |indexes| else |ips|,
      i requires 0 <= i < |indexes| && i < |ips| => Entry(indexes[i], ips[i]))
  }

  function Merged(entries: seq<Entry>, picks: seq<int>, ips: seq<string>): seq<Entry> {
    SortByIndex(entries + Zip(picks, ips))
  }

  // ---------------------------------------------------------------- position equals index

  /** Every wanted position holds the instance tagged with it. */
  ghost predicate InPlace(s: seq<Entry>, count: int) {
    forall i | 0 <= i < count :: HasAt(s, i)
  }

  /** Position i holds the instance tagged i. */
  predicate HasAt(s: seq<Entry>, i: int) {
    0 <= i < |s| && s[i].index == i
  }

  lemma {:induction false} WithIndexCount(s: seq<Entry>, v: int)
    ensures Times(s, v) == 0 <==> forall i | 0 <= i < |s| :: s[i].index != v
    ensures Times(s, v) <= 1 <==> forall i, j | 0 <= i < j < |s| :: !(s[i].index == v && s[j].index == v)
  {
    if s != [] {
      var n := |s| - 1;
      var t := s[..n];
      WithIndexCount(t, v);
      assert forall i | 0 <= i < n :: t[i] == s[i];
      hide WithIndex;
      WithIndexLast(s, v);
      if s[n].index == v && Times(t, v) > 0 {
        var i :| 0 <= i < n && t[i].index == v;
        assert s[i].index == v && s[n].index == v;
      }
    }
  }

  lemma WithIndexLast(s: seq<Entry>, v: int)
    requires s != []
    ensures Times(s, v) == Times(s[..|s| - 1], v) + (if s[|s| - 1].index == v then 1 else 0)
  {
  }

  ghost predicate NonNegative(s: seq<Entry>) {
    forall i | 0 <= i < |s| :: s[i].index >= 0
  }

  ghost predicate Covered(s: seq<Entry>, count: int) {
    forall v | 0 <= v < count :: Times(s, v) >= 1
  }

  ghost predicate Once(s: seq<Entry>, count: int) {
    forall v | 0 <= v < count - 1 :: Times(s, v) <= 1
  }

  ghost predicate OnlyLastRepeats(s: seq<Entry>, count: int) {
    forall i, j | 0 <= i < j < |s| :: s[i].index == s[j].index ==> s[i].index >= count - 1
  }

  /** A sorted list is in place exactly when nothing is negative, every wanted index occurs, and only the
      last wanted one (and later ones) may occur twice. */
  ghost predicate Complete(s: seq<Entry>, count: int) {
    NonNegative(s) && Covered(s, count) && Once(s, count)
  }

  lemma {:induction false} CompleteInPlace(s: seq<Entry>, count: int, i: nat)
    requires Sorted(s) && Complete(s, count) && i < count
    ensures i < |s| && s[i].index == i
  {
    WithIndexCount(s, i);
    if i > 0 {
      CompleteInPlace(s, count, i - 1);
      WithIndexCount(s, i - 1);
    }
    hide WithIndex;
    assert Times(s, i) >= 1;
    var p :| 0 <= p < |s| && s[p].index == i;
    if i > 0 {
      assert i - 1 < p;
      assert Times(s, i - 1) <= 1;
      assert !(s[i - 1].index == i - 1 && s[i].index == i - 1);
      assert s[i - 1].index <= s[i].index;
    }
    assert i < p ==> s[i].index <= s[p].index;
  }

  lemma InPlaceAt(s: seq<Entry>, count: int, v: int)
    requires InPlace(s, count) && 0 <= v < count
    ensures v < |s| && s[v].index == v
  {
    assert HasAt(s, v);
  }

  lemma InPlaceComplete(s: seq<Entry>, count: int)
    requires Sorted(s) && InPlace(s, count) && count > 0
    ensures Complete(s, count)
  {
    InPlaceAt(s, count, 0);
    forall i | 0 <= i < |s| ensures s[i].index >= 0 { assert i > 0 ==> s[0].index <= s[i].index; }
    forall v | 0 <= v < count ensures Times(s, v) >= 1 {
      WithIndexCount(s, v);
      InPlaceAt(s, count, v);
    }
    forall v | 0 <= v < count - 1 ensures Times(s, v) <= 1 {
      WithIndexCount(s, v);
      InPlaceAt(s, count, v);
      InPlaceAt(s, count, v + 1);
      forall i, j | 0 <= i < j < |s| ensures !(s[i].index == v && s[j].index == v) {
        if i < v { InPlaceAt(s, count, i); }
        if j > v { assert j > v + 1 ==> s[v + 1].index <= s[j].index; }
      }
    }
  }

  function Wanted(count: int): set<int> {
    if count <= 0 then {} else Wanted(count - 1) + {count - 1}
  }

  lemma {:induction false} WantedSize(count: nat)
    ensures |Wanted(count)| == count && forall v :: v in Wanted(count) <==> 0 <= v < count
  {
    if count > 0 { WantedSize(count - 1); }
  }

  lemma SubsetSize(a: set<int>, b: set<int>)
    requires a <= b
    ensures |a| <= |b| && (|a| == |b| ==> a == b)
  {
    var c := b - a;
    assert b == a + c && |b| == |a| + |c|;
    if |c| == 0 { assert c == {}; }
  }

  function Elements(p: seq<int>): set<int> {
    set v | v in p
  }

  lemma {:induction false} AscendingSize(p: seq<int>)
    requires forall i, j | 0 <= i < j < |p| :: p[i] < p[j]
    ensures |Elements(p)| == |p|
  {
    if p != [] {
      var n := |p| - 1;
      AscendingSize(p[..n]);
      assert p == p[..n] + [p[n]];
      assert Elements(p) == Elements(p[..n]) + {p[n]};
      assert p[n] !in p[..n];
    }
  }

  /** The launches fill every wanted index exactly when the indexes in use are all wanted, or are
      all that is wanted. */
  lemma FillsWanted(used: set<int>, count: nat)
    requires forall u | u in used :: u >= 0
    ensures var picks := if count <= |used| then [] else Picks(used, 0, count - |used|);
            (forall v | 0 <= v < count :: v in used || v in picks) <==> used <= Wanted(count) || Wanted(count) <= used
  {
    WantedSize(count);
    var r := Wanted(count);
    hide Wanted;
    if count <= |used| {
      if used <= r { SubsetSize(used, r); }
    } else {
      var n: nat := count - |used|;
      var bound := PicksAreSmallest(used, 0, n);
      var picks := Picks(used, 0, n);
      AscendingSize(picks);
      hide Picks;
      FillsByCount(used, count, Elements(picks), bound);
      assert forall v :: v in picks <==> v in Elements(picks);
    }
  }

  lemma FillsByCount(used: set<int>, count: nat, p: set<int>, bound: nat)
    requires count > |used| && |p| == count - |used|
    requires forall v :: v in p <==> 0 <= v < bound && v !in used
    ensures (forall v | 0 <= v < count :: v in used || v in p) <==> used <= Wanted(count) || Wanted(count) <= used
  {
    WantedSize(count);
    var r := Wanted(count);
    hide Wanted;
    if forall v | 0 <= v < count :: v in used || v in p {
      assert r - used <= p;
      SubsetSize(r - used, p);
      assert |r - used| == |r| - |r * used| by { assert r == (r - used) + (r * used); }
      SubsetSize(r * used, used);
      assert r * used == used;
    }
    if used <= r {
      assert |r - used| == |r| - |used| by { assert r == (r - used) + used; }
      if bound <= count {
        forall v | v in p ensures v in r - used { assert 0 <= v < count && v !in used; }
        SubsetSize(p, r - used);
      }
    }
    if r <= used { SubsetSize(r, used); }
  }

  /** What a caller can check before: no negative index, no index but the last wanted one (and those beyond)
      twice, and the indexes in use all wanted or all that is wanted. */
  ghost predicate Placeable(entries: seq<Entry>, count: int) {
    || count <= 0
    || (&& NonNegative(entries) && OnlyLastRepeats(entries, count)
        && (Used(entries) <= Wanted(count) || Wanted(count) <= Used(entries)))
  }

  lemma {:induction false} WithIndexAppend(a: seq<Entry>, b: seq<Entry>, v: int)
    ensures Times(a + b, v) == Times(a, v) + Times(b, v)
  {
    if b == [] {
      assert a + b == a;
    } else {
      var n := |b| - 1;
      WithIndexAppend(a, b[..n], v);
      assert (a + b)[..|a| + n] == a + b[..n];
    }
  }

  lemma ZipOnce(picks: seq<int>, ips: seq<string>, v: int)
    requires |picks| == |ips| && forall i, j | 0 <= i < j < |picks| :: picks[i] < picks[j]
    ensures Times(Zip(picks, ips), v) == if v in picks then 1 else 0
  {
    var z := Zip(picks, ips);
    WithIndexCount(z, v);
    hide WithIndex;
    if v in picks {
      var i :| 0 <= i < |picks| && picks[i] == v;
      assert z[i].index == v;
    }
  }

  lemma UsedIff(entries: seq<Entry>, v: int)
    ensures v in Used(entries) <==> Times(entries, v) >= 1
  {
    WithIndexCount(entries, v);
    hide WithIndex;
  }

  /** How often an index occurs after the merge. */
  lemma MergedCounts(entries: seq<Entry>, count: int, ips: seq<string>, v: int)
    requires |ips| == |PicksFor(entries, count)|
    ensures var m := Merged(entries, PicksFor(entries, count), ips);
            Times(m, v) == Times(entries, v) + (if v in PicksFor(entries, count) then 1 else 0)
    ensures v in PicksFor(entries, count) ==> v >= 0 && Times(entries, v) == 0
    ensures Sorted(Merged(entries, PicksFor(entries, count), ips))
  {
    var picks := PicksFor(entries, count);
    UsedIff(entries, v);
    assert (forall i, j | 0 <= i < j < |picks| :: picks[i] < picks[j])
           && (v in picks ==> v >= 0 && v !in Used(entries)) by {
      if Needed(entries, count) > 0 { var bound := PicksAreSmallest(Used(entries), 0, Needed(entries, count)); }
    }
    hide PicksFor; hide WithIndex; hide Used;
    ZipOnce(picks, ips, v);
    SortIsStable(entries + Zip(picks, ips), v);
    WithIndexAppend(entries, Zip(picks, ips), v);
  }

  lemma NonNegativeIff(s: seq<Entry>)
    ensures NonNegative(s) <==> forall v | v < 0 :: Times(s, v) == 0
  {
    if NonNegative(s) {
      forall v | v < 0 ensures Times(s, v) == 0 { WithIndexCount(s, v); }
    }
    if forall v | v < 0 :: Times(s, v) == 0 {
      forall i | 0 <= i < |s| ensures s[i].index >= 0 { WithIndexCount(s, s[i].index); }
    }
  }

  lemma OnlyLastRepeatsIff(s: seq<Entry>, count: int)
    requires NonNegative(s)
    ensures OnlyLastRepeats(s, count) <==> Once(s, count)
  {
    if OnlyLastRepeats(s, count) {
      forall v | 0 <= v < count - 1 ensures Times(s, v) <= 1 { WithIndexCount(s, v); }
    }
    if Once(s, count) {
      forall i, j | 0 <= i < j < |s| && s[i].index == s[j].index ensures s[i].index >= count - 1 {
        var v := s[i].index;
        WithIndexCount(s, v);
        assert v < count - 1 ==> Times(s, v) <= 1;
      }
    }
  }

  lemma MergedNonNegative(entries: seq<Entry>, count: int, ips: seq<string>)
    requires |ips| == |PicksFor(entries, count)|
    ensures NonNegative(Merged(entries, PicksFor(entries, count), ips)) <==> NonNegative(entries)
  {
    var m := Merged(entries, PicksFor(entries, count), ips);
    forall v | v < 0 ensures Times(m, v) == Times(entries, v) { MergedCounts(entries, count, ips, v); }
    hide *;
    NonNegativeIff(m);
    NonNegativeIff(entries);
  }

  lemma MergedOnce(entries: seq<Entry>, count: int, ips: seq<string>)
    requires |ips| == |PicksFor(entries, count)|
    ensures Once(Merged(entries, PicksFor(entries, count), ips), count) <==> Once(entries, count)
  {
    var m := Merged(entries, PicksFor(entries, count), ips);
    forall v ensures Times(m, v) <= 1 <==> Times(entries, v) <= 1 { MergedCounts(entries, count, ips, v); }
    hide WithIndex; hide Merged; hide PicksFor;
  }

  lemma MergedCovered(entries: seq<Entry>, count: int, ips: seq<string>)
    requires |ips| == |PicksFor(entries, count)| && NonNegative(entries) && count > 0
    ensures Covered(Merged(entries, PicksFor(entries, count), ips), count)
            <==> Used(entries) <= Wanted(count) || Wanted(count) <= Used(entries)
  {
    var picks := PicksFor(entries, count);
    var m := Merged(entries, picks, ips);
    UsedNonNegative(entries);
    FillsWanted(Used(entries), count);
    assert picks == if count <= |Used(entries)| then [] else Picks(Used(entries), 0, count - |Used(entries)|);
    forall v ensures Times(m, v) >= 1 <==> v in Used(entries) || v in picks {
      MergedCounts(entries, count, ips, v);
      UsedIff(entries, v);
    }
    hide *;
    CoveredIff(m, count, Used(entries), picks);
  }

  lemma CoveredIff(s: seq<Entry>, count: int, used: set<int>, picks: seq<int>)
    requires forall v :: Times(s, v) >= 1 <==> v in used || v in picks
    ensures Covered(s, count) <==> forall v | 0 <= v < count :: v in used || v in picks
  {
    hide Times;
  }

  lemma UsedNonNegative(entries: seq<Entry>)
    requires NonNegative(entries)
    ensures forall u | u in Used(entries) :: u >= 0
  {
  }

  /** Position equals tag index for every wanted index, exactly when the discovered instances allow it. */
  lemma PositionIsIndex(entries: seq<Entry>, count: int, ips: seq<string>)
    requires |ips| == |PicksFor(entries, count)|
    ensures InPlace(Merged(entries, PicksFor(entries, count), ips), count) <==> Placeable(entries, count)
  {
    if count > 0 {
      var m := Merged(entries, PicksFor(entries, count), ips);
      MergedCounts(entries, count, ips, 0);
      MergedNonNegative(entries, count, ips);
      MergedOnce(entries, count, ips);
      if NonNegative(entries) {
        OnlyLastRepeatsIff(entries, count);
        MergedCovered(entries, count, ips);
      }
      hide NonNegative; hide Once; hide OnlyLastRepeats; hide Covered; hide Merged; hide PicksFor; hide Used;
      hide Wanted; hide Sorted; hide InPlace;
      assert Complete(m, count) <==> Placeable(entries, count);
      if InPlace(m, count) { InPlaceComplete(m, count); }
      if Complete(m, count) { CompleteAll(m, count); }
    }
  }

  lemma OneUsed(e: Entry)
    requires e.index == 5
    ensures PicksFor([e], 3) == [0, 1]
  {
    assert Used([e]) == {5} by { assert [e][0] == e; }
    assert Picks({5}, 2, 0) == [];
    assert Picks({5}, 1, 1) == [1];
    assert Picks({5}, 0, 2) == [0] + Picks({5}, 1, 1);
  }

  lemma TwoZipped(ips: seq<string>)
    requires |ips| == 2
    ensures Zip([0, 1], ips) == [Entry(0, ips[0]), Entry(1, ips[1])]
  {
  }

  lemma SortSnoc(s: seq<Entry>, e: Entry)
    ensures SortByIndex(s + [e]) == Insert(SortByIndex(s), e)
  {
    assert (s + [e])[..|s|] == s;
    hide Insert;
  }

  lemma InsertFront(s: seq<Entry>, e: Entry, last: Entry)
    ensures Insert([], e) == [e]
    ensures last.index > e.index ==> Insert(s + [last], e) == Insert(s, e) + [last]
    ensures last.index <= e.index ==> Insert(s + [last], e) == s + [last] + [e]
  {
    assert (s + [last])[..|s|] == s;
  }

  lemma SortsThree(e: Entry, a: Entry, b: Entry)
    requires a.index <= b.index < e.index
    ensures SortByIndex([e] + [a] + [b]) == [a] + [b] + [e]
  {
    hide *;
    var none: seq<Entry> := [];
    assert none + [e] == [e] && none + [a] == [a];
    SortLast(none);
    SortSnoc(none, e);
    SortSnoc([e], a);
    SortSnoc([e] + [a], b);
    InsertFront(none, e, e);
    InsertFront(none, a, e);
    InsertFront([a], b, e);
    InsertFront(none, b, a);
  }

  /** A tag beyond the wanted ones takes a wanted position: with the instance 5 running and three wanted, 0 and 1
      are launched, and position 2 is the instance tagged 5. */
  lemma StrayTagDisplaces(ip: string, ips: seq<string>)
    requires |ips| == 2
    ensures PicksFor([Entry(5, ip)], 3) == [0, 1]
    ensures Merged([Entry(5, ip)], [0, 1], ips) == [Entry(0, ips[0]), Entry(1, ips[1]), Entry(5, ip)]
    ensures !InPlace(Merged([Entry(5, ip)], [0, 1], ips), 3)
  {
    hide *;
    var e, a, b := Entry(5, ip), Entry(0, ips[0]), Entry(1, ips[1]);
    OneUsed(e);
    TwoZipped(ips);
    assert [e] + [a, b] == [e] + [a] + [b];
    SortsThree(e, a, b);
    MergedIs([e], [0, 1], ips);
    assert [a] + [b] + [e] == [a, b, e];
    OutOfPlace([a, b, e]);
  }

  lemma MergedIs(entries: seq<Entry>, picks: seq<int>, ips: seq<string>)
    ensures Merged(entries, picks, ips) == SortByIndex(entries + Zip(picks, ips))
  {
  }

  lemma OutOfPlace(s: seq<Entry>)
    requires |s| == 3 && s[2].index == 5
    ensures !InPlace(s, 3)
  {
    if InPlace(s, 3) { InPlaceAt(s, 3, 2); }
  }

  lemma CompleteAll(s: seq<Entry>, count: int)
    requires Sorted(s) && Complete(s, count)
    ensures InPlace(s, count)
  {
    forall i | 0 <= i < count ensures HasAt(s, i) { CompleteInPlace(s, count, i); }
  }

  // ---------------------------------------------------------------- launching, and undoing a failed launch

  datatype NodeSpec = NodeSpec(name: string, count: int)

  datatype Job = Job(name: string, indexes: seq<int>)

  /** What the cloud answers: None where a call raises. */
  datatype Cloud = Cloud(ready: bool, subnet: string -> bool, launch: (string, int) -> Option<string>,
      address: string -> Option<string>)

  datatype Event = Launched(id: string) | Terminated(id: string)

  datatype ProvisionError = NotReady | LaunchFailed | NoAddress

  /** The instances of one job launched before anything fails. */
  function JobIds(cloud: Cloud, name: string, indexes: seq<int>): (ids: seq<string>)
    ensures |ids| <= |indexes|
  {
    if indexes == [] then []
    else
      var n := |indexes| - 1;
      var ids := JobIds(cloud, name, indexes[..n]);
      if |ids| < n then ids else match cloud.launch(name, indexes[n]) case None => ids case Some(id) => ids + [id]
  }

  predicate JobSucceeds(cloud: Cloud, job: Job) {
    cloud.subnet(job.name) && forall i | 0 <= i < |job.indexes| :: cloud.launch(job.name, job.indexes[i]).Some?
  }

  predicate AllSucceed(cloud: Cloud, jobs: seq<Job>) {
    forall k | 0 <= k < |jobs| :: JobSucceeds(cloud, jobs[k])
  }

  function AllIds(cloud: Cloud, jobs: seq<Job>): seq<string> {
    if jobs == [] then []
    else
      var n := |jobs| - 1;
      var ids := AllIds(cloud, jobs[..n]);
      if AllSucceed(cloud, jobs[..n]) && cloud.subnet(jobs[n].name)
      then ids + JobIds(cloud, jobs[n].name, jobs[n].indexes)
      else ids
  }

  function Launches(ids: seq<string>): (log: seq<Event>)
    ensures |log| == |ids| && forall i | 0 <= i < |ids| :: log[i] == Launched(ids[i])
  {
    seq(|ids|, i requires 0 <= i < |ids| => Launched(ids[i]))
  }

  function Terminations(ids: seq<string>): (log: seq<Event>)
    ensures |log| == |ids| && forall i | 0 <= i < |ids| :: log[i] == Terminated(ids[i])
  {
    seq(|ids|, i requires 0 <= i < |ids| => Terminated(ids[i]))
  }

  lemma {:induction false} JobIdsStop(cloud: Cloud, name: string, indexes: seq<int>, i: nat)
    requires i <= |indexes|
    ensures |JobIds(cloud, name, indexes[..i])| < i ==>
            JobIds(cloud, name, indexes) == JobIds(cloud, name, indexes[..i])
    decreases |indexes| - i
  {
    if i == |indexes| {
      assert indexes[..i] == indexes;
    } else {
      assert indexes[..i + 1][..i] == indexes[..i];
      JobIdsStop(cloud, name, indexes, i + 1);
    }
  }

  lemma {:induction false} JobIdsFull(cloud: Cloud, job: Job, i: nat)
    requires i <= |job.indexes|
    ensures |JobIds(cloud, job.name, job.indexes[..i])| == i
            <==> forall k | 0 <= k < i :: cloud.launch(job.name, job.indexes[k]).Some?
  {
    if i > 0 {
      JobIdsFull(cloud, job, i - 1);
      assert job.indexes[..i][..i - 1] == job.indexes[..i - 1];
    }
  }

  lemma {:induction false} AllIdsStop(cloud: Cloud, jobs: seq<Job>, k: nat)
    requires k <= |jobs| && !AllSucceed(cloud, jobs[..k])
    ensures AllIds(cloud, jobs) == AllIds(cloud, jobs[..k]) && !AllSucceed(cloud, jobs)
    decreases |jobs| - k
  {
    hide JobSucceeds;
    if k == |jobs| {
      assert jobs[..k] == jobs;
    } else {
      assert jobs[..k + 1][..k] == jobs[..k];
      var j :| 0 <= j < k && !JobSucceeds(cloud, jobs[..k][j]);
      assert !JobSucceeds(cloud, jobs[..k + 1][j]);
      AllIdsStop(cloud, jobs, k + 1);
    }
  }

  /** One job: `done` tells whether everything was launched. */
  method LaunchJob(cloud: Cloud, job: Job) returns (ids: seq<string>, done: bool)
    ensures done <==> JobSucceeds(cloud, job)
    ensures ids == if cloud.subnet(job.name) then JobIds(cloud, job.name, job.indexes) else []
    ensures done ==> |ids| == |job.indexes|
  {
    hide *;
    ids := [];
    JobStart(cloud, job);
    if !cloud.subnet(job.name) { return [], false; }
    for i := 0 to |job.indexes|
      invariant ids == JobIds(cloud, job.name, job.indexes[..i]) && |ids| == i
    {
      JobStep(cloud, job, i);
      var id := cloud.launch(job.name, job.indexes[i]);
      if id.None? {
        JobIdsStop(cloud, job.name, job.indexes, i + 1);
        JobFails(cloud, job, i);
        return ids, false;
      }
      ids := ids + [id.value];
    }
    assert job.indexes[..|job.indexes|] == job.indexes;
    JobDone(cloud, job);
    done := true;
  }

  lemma JobStart(cloud: Cloud, job: Job)
    ensures JobIds(cloud, job.name, job.indexes[..0]) == []
    ensures !cloud.subnet(job.name) ==> !JobSucceeds(cloud, job)
  {
  }

  lemma JobStep(cloud: Cloud, job: Job, i: nat)
    requires i < |job.indexes| && |JobIds(cloud, job.name, job.indexes[..i])| == i
    ensures var ids, id := JobIds(cloud, job.name, job.indexes[..i]), cloud.launch(job.name, job.indexes[i]);
            JobIds(cloud, job.name, job.indexes[..i + 1]) == match id case None => ids case Some(x) => ids + [x]
  {
    assert job.indexes[..i + 1][..i] == job.indexes[..i];
  }

  lemma JobFails(cloud: Cloud, job: Job, i: nat)
    requires i < |job.indexes| && cloud.launch(job.name, job.indexes[i]).None?
    ensures !JobSucceeds(cloud, job)
  {
  }

  lemma JobDone(cloud: Cloud, job: Job)
    requires cloud.subnet(job.name) && |JobIds(cloud, job.name, job.indexes)| == |job.indexes|
    ensures JobSucceeds(cloud, job)
  {
    assert job.indexes[..|job.indexes|] == job.indexes;
    JobIdsFull(cloud, job, |job.indexes|);
    hide JobIds;
  }

  /** All jobs in order. If anything fails, exactly what was launched is terminated. */
  method LaunchJobs(cloud: Cloud, jobs: seq<Job>) returns (r: Result<seq<seq<string>>, ProvisionError>, log: seq<Event>)
    ensures r.Ok? <==> AllSucceed(cloud, jobs)
    ensures log == Launches(AllIds(cloud, jobs)) + (if r.Ok? then [] else Terminations(AllIds(cloud, jobs)))
    ensures r.Err? ==> r.error == LaunchFailed
    ensures r.Ok? ==>
              && |r.value| == |jobs|
              && forall k | 0 <= k < |jobs| :: r.value[k] == JobIds(cloud, jobs[k].name, jobs[k].indexes)
  {
    var launched: seq<string> := [];
    var idsByNode: seq<seq<string>> := [];
    hide *;
    NoneLaunched(cloud, jobs);
    for k := 0 to |jobs|
      invariant launched == AllIds(cloud, jobs[..k]) && AllSucceed(cloud, jobs[..k])
      invariant |idsByNode| == k
      invariant forall j | 0 <= j < k :: idsByNode[j] == JobIds(cloud, jobs[j].name, jobs[j].indexes)
    {
      AllStep(cloud, jobs, k);
      var ids, done := LaunchJob(cloud, jobs[k]);
      assert launched + [] == launched;
      launched := launched + ids;
      if !done {
        AllIdsStop(cloud, jobs, k + 1);
        return Err(LaunchFailed), Launches(launched) + Terminations(launched);
      }
      SubnetFirst(cloud, jobs[k]);
      idsByNode := idsByNode + [ids];
    }
    assert jobs[..|jobs|] == jobs;
    r, log := Ok(idsByNode), Launches(launched);
    assert log + [] == log;
  }

  lemma NoneLaunched(cloud: Cloud, jobs: seq<Job>)
    ensures AllIds(cloud, jobs[..0]) == [] && AllSucceed(cloud, jobs[..0])
  {
  }

  lemma AllStep(cloud: Cloud, jobs: seq<Job>, k: nat)
    requires k < |jobs| && AllSucceed(cloud, jobs[..k])
    ensures AllSucceed(cloud, jobs[..k + 1]) <==> JobSucceeds(cloud, jobs[k])
    ensures AllIds(cloud, jobs[..k + 1])
            == AllIds(cloud, jobs[..k])
              + (if cloud.subnet(jobs[k].name) then JobIds(cloud, jobs[k].name, jobs[k].indexes) else [])
  {
    assert jobs[..k + 1][..k] == jobs[..k] && jobs[..k + 1][k] == jobs[k];
    hide JobSucceeds; hide JobIds;
    assert forall j | 0 <= j < k :: jobs[..k + 1][j] == jobs[..k][j];
    assert AllSucceed(cloud, jobs[..k + 1]) ==> JobSucceeds(cloud, jobs[..k + 1][k]);
  }

  lemma SubnetFirst(cloud: Cloud, job: Job)
    requires JobSucceeds(cloud, job)
    ensures cloud.subnet(job.name)
  {
  }

  /** The q-th launch of a job comes about: everything before it in its job succeeds, and it too. */
  ghost predicate ComesAbout(cloud: Cloud, name: string, indexes: seq<int>, q: nat) {
    q < |indexes| && forall p | 0 <= p <= q :: cloud.launch(name, indexes[p]).Some?
  }

  ghost predicate LaunchedIn(cloud: Cloud, name: string, indexes: seq<int>, id: string) {
    exists q: nat :: ComesAbout(cloud, name, indexes, q) && cloud.launch(name, indexes[q]) == Some(id)
  }

  /** An instance of a job that is reached: all jobs before it succeed, and its subnet is found. */
  ghost predicate LaunchedBy(cloud: Cloud, jobs: seq<Job>, k: nat, id: string) {
    && k < |jobs| && (forall j | 0 <= j < k :: JobSucceeds(cloud, jobs[j])) && cloud.subnet(jobs[k].name)
    && LaunchedIn(cloud, jobs[k].name, jobs[k].indexes, id)
  }

  lemma JobIdsSnoc(cloud: Cloud, name: string, indexes: seq<int>, x: int)
    ensures JobIds(cloud, name, indexes + [x])
            == var ids := JobIds(cloud, name, indexes);
               if |ids| < |indexes| || cloud.launch(name, x).None? then ids else ids + [cloud.launch(name, x).value]
    ensures JobIds(cloud, name, []) == []
  {
    assert (indexes + [x])[..|indexes|] == indexes;
  }

  lemma JobIdsLength(cloud: Cloud, name: string, indexes: seq<int>)
    ensures |JobIds(cloud, name, indexes)| == |indexes|
            <==> forall i | 0 <= i < |indexes| :: cloud.launch(name, indexes[i]).Some?
  {
    JobIdsFull(cloud, Job(name, indexes), |indexes|);
    assert indexes[..|indexes|] == indexes;
    hide JobIds;
  }

  lemma LaunchedSnoc(cloud: Cloud, name: string, indexes: seq<int>, x: int, id: string)
    ensures LaunchedIn(cloud, name, indexes + [x], id)
            <==> LaunchedIn(cloud, name, indexes, id)
                 || ((forall i | 0 <= i < |indexes| :: cloud.launch(name, indexes[i]).Some?)
                     && cloud.launch(name, x) == Some(id))
  {
    var n, all := |indexes|, indexes + [x];
    assert forall p | 0 <= p < n :: all[p] == indexes[p];
    assert all[n] == x;
    if LaunchedIn(cloud, name, indexes, id) {
      var q: nat :| ComesAbout(cloud, name, indexes, q) && cloud.launch(name, indexes[q]) == Some(id);
      assert ComesAbout(cloud, name, all, q);
    }
    if LaunchedIn(cloud, name, all, id) {
      var q: nat :| ComesAbout(cloud, name, all, q) && cloud.launch(name, all[q]) == Some(id);
      if q < n { assert ComesAbout(cloud, name, indexes, q); }
    }
    if (forall i | 0 <= i < n :: cloud.launch(name, indexes[i]).Some?) && cloud.launch(name, x) == Some(id) {
      assert ComesAbout(cloud, name, all, n);
    }
  }

  lemma {:induction false} JobIdsAre(cloud: Cloud, name: string, indexes: seq<int>, id: string)
    ensures id in JobIds(cloud, name, indexes) <==> LaunchedIn(cloud, name, indexes, id)
  {
    hide *;
    if indexes == [] {
      JobIdsSnoc(cloud, name, [], 0);
      NothingComesAbout(cloud, name, id);
    } else {
      var n := |indexes| - 1;
      JobIdsAre(cloud, name, indexes[..n], id);
      JobIdsLength(cloud, name, indexes[..n]);
      JobIdsSnoc(cloud, name, indexes[..n], indexes[n]);
      LaunchedSnoc(cloud, name, indexes[..n], indexes[n], id);
      assert indexes == indexes[..n] + [indexes[n]];
    }
  }

  lemma NothingComesAbout(cloud: Cloud, name: string, id: string)
    ensures !LaunchedIn(cloud, name, [], id)
  {
  }

  lemma AllIdsSnoc(cloud: Cloud, jobs: seq<Job>)
    requires jobs != []
    ensures var n := |jobs| - 1;
            var ids := AllIds(cloud, jobs[..n]);
            AllIds(cloud, jobs)
            == if AllSucceed(cloud, jobs[..n]) && cloud.subnet(jobs[n].name)
               then ids + JobIds(cloud, jobs[n].name, jobs[n].indexes) else ids
  {
    hide JobIds; hide JobSucceeds;
  }

  /** What is launched, and terminated if something fails: job by job and in the order of the picks, everything up to
      the first failure. */
  lemma {:induction false} LaunchedAre(cloud: Cloud, jobs: seq<Job>, id: string)
    ensures id in AllIds(cloud, jobs) <==> exists k: nat :: LaunchedBy(cloud, jobs, k, id)
  {
    if jobs != [] {
      var n := |jobs| - 1;
      LaunchedAre(cloud, jobs[..n], id);
      AllIdsSnoc(cloud, jobs);
      JobIdsAre(cloud, jobs[n].name, jobs[n].indexes, id);
      hide AllIds; hide JobIds; hide LaunchedIn; hide JobSucceeds;
      if k: nat :| LaunchedBy(cloud, jobs[..n], k, id) { assert LaunchedBy(cloud, jobs, k, id); }
      if k: nat :| LaunchedBy(cloud, jobs, k, id) {
        if k < n { assert LaunchedBy(cloud, jobs[..n], k, id); }
      }
      if AllSucceed(cloud, jobs[..n]) && cloud.subnet(jobs[n].name)
         && LaunchedIn(cloud, jobs[n].name, jobs[n].indexes, id)
      {
        assert forall j | 0 <= j < n :: jobs[j] == jobs[..n][j];
        assert LaunchedBy(cloud, jobs, n, id);
      }
    }
  }

  // ---------------------------------------------------------------- the whole call

  datatype Maps = Maps(full: map<string, seq<string>>, added: map<string, seq<string>>)

  function EntriesOf(existing: map<string, seq<Entry>>, name: string): seq<Entry> {
    if name in existing then existing[name] else []
  }

  function JobsFor(types: seq<NodeSpec>, existing: map<string, seq<Entry>>): seq<Job> {
    if types == [] then []
    else
      var n := |types| - 1;
      var t := types[n];
      var picks := PicksFor(EntriesOf(existing, t.name), t.count);
      JobsFor(types[..n], existing) + (if picks == [] then [] else [Job(t.name, picks)])
  }

  /** The address of the instance launched for an index. */
  function NewIp(cloud: Cloud, name: string, index: int): string {
    match cloud.launch(name, index)
    case None => ""
    case Some(id) => match cloud.address(id) case None => "" case Some(ip) => ip
  }

  function NewIps(cloud: Cloud, job: Job): (ips: seq<string>)
    ensures |ips| == |job.indexes| && forall i | 0 <= i < |ips| :: ips[i] == NewIp(cloud, job.name, job.indexes[i])
  {
    seq(|job.indexes|, i requires 0 <= i < |job.indexes| => NewIp(cloud, job.name, job.indexes[i]))
  }

  function Added(cloud: Cloud, jobs: seq<Job>): map<string, seq<string>> {
    if jobs == [] then map[]
    else Added(cloud, jobs[..|jobs| - 1])[jobs[|jobs| - 1].name := NewIps(cloud, jobs[|jobs| - 1])]
  }

  function WithAdded(existing: map<string, seq<Entry>>, cloud: Cloud, jobs: seq<Job>): map<string, seq<Entry>> {
    if jobs == [] then existing
    else
      var job := jobs[|jobs| - 1];
      var m := WithAdded(existing, cloud, jobs[..|jobs| - 1]);
      m[job.name := EntriesOf(m, job.name) + Zip(job.indexes, NewIps(cloud, job))]
  }

  function IpsOf(entries: seq<Entry>): (ips: seq<string>)
    ensures |ips| == |entries| && forall i | 0 <= i < |ips| :: ips[i] == entries[i].ip
  {
    seq(|entries|, i requires 0 <= i < |entries| => entries[i].ip)
  }

  function FullMap(m: map<string, seq<Entry>>): map<string, seq<string>> {
    map name | name in m :: IpsOf(SortByIndex(m[name]))
  }

  /** Addresses of a job's instances; None when one has none. */
  method CollectIps(cloud: Cloud, job: Job, ids: seq<string>) returns (ips: Option<seq<string>>)
    requires JobSucceeds(cloud, job) && ids == JobIds(cloud, job.name, job.indexes)
    ensures ips.Some? ==>
              && |ips.value| == |ids|
              && forall i | 0 <= i < |ids| :: cloud.address(ids[i]) == Some(ips.value[i])
    ensures ips.Some? ==> ips.value == NewIps(cloud, job)
    ensures ips.None? <==> exists i | 0 <= i < |ids| :: cloud.address(ids[i]).None?
  {
    var got: seq<string> := [];
    JobIdsFull(cloud, job, |job.indexes|);
    assert job.indexes[..|job.indexes|] == job.indexes;
    for i := 0 to |ids|
      invariant |got| == i && forall k | 0 <= k < i ::
                got[k] == NewIps(cloud, job)[k] && cloud.address(ids[k]) == Some(got[k])
    {
      JobIdAt(cloud, job, |job.indexes|, i);
      if cloud.address(ids[i]).None? { return None; }
      got := got + [cloud.address(ids[i]).value];
    }
    assert got == NewIps(cloud, job);
    ips := Some(got);
  }

  lemma {:induction false} JobIdAt(cloud: Cloud, job: Job, n: nat, i: nat)
    requires JobSucceeds(cloud, job) && i < n <= |job.indexes|
    ensures i < |JobIds(cloud, job.name, job.indexes[..n])|
    ensures Some(JobIds(cloud, job.name, job.indexes[..n])[i]) == cloud.launch(job.name, job.indexes[i])
  {
    JobIdsFull(cloud, job, n - 1);
    assert job.indexes[..n][..n - 1] == job.indexes[..n - 1];
    if i < n - 1 { JobIdAt(cloud, job, n - 1, i); }
  }

  /** The index tags of a type's instances, those found first. */
  function Tags(entries: seq<Entry>): (tags: seq<int>)
    ensures |tags| == |entries| && forall i | 0 <= i < |tags| :: tags[i] == entries[i].index
  {
    seq(|entries|, i requires 0 <= i < |entries| => entries[i].index)
  }

  /** How many tags are smaller than v. */
  function Smaller(tags: seq<int>, v: int): nat {
    if tags == [] then 0
    else Smaller(tags[..|tags| - 1], v) + (if tags[|tags| - 1] < v then 1 else 0)
  }

  /** How many tags are v. */
  function Same(tags: seq<int>, v: int): nat {
    if tags == [] then 0
    else Same(tags[..|tags| - 1], v) + (if tags[|tags| - 1] == v then 1 else 0)
  }

  /** Where the j-th goes: after the smaller tags and those before it of its own. */
  function Rank(tags: seq<int>, j: nat): nat
    requires j < |tags|
  {
    Smaller(tags, tags[j]) + Same(tags[..j], tags[j])
  }

  /** One type: what was found keeps its address, what was launched has the one the cloud gives it, and both stand in
      the full map at their rank. */
  ghost predicate Served(maps: Maps, t: NodeSpec, entries: seq<Entry>, found: bool, cloud: Cloud) {
    var picks := PicksFor(entries, t.count);
    var tags := Tags(entries) + picks;
    && (t.name in maps.added <==> picks != [])
    && (t.name in maps.full <==> found || picks != [])
    && (t.name in maps.full ==> |maps.full[t.name]| == |tags|)
    && (t.name in maps.added ==> |maps.added[t.name]| == |picks|)
    && (forall j: nat | j < |entries| :: found ==> Lookup(maps.full, t.name, Rank(tags, j)) == Ok(entries[j].ip))
    && forall q: nat | q < |picks| :: LaunchedFor(maps, t.name, picks[q], q, Rank(tags, |entries| + q), cloud)
  }

  /** The q-th launch of a type, for the tag p, is listed with its address in both maps. */
  ghost predicate LaunchedFor(maps: Maps, name: string, p: int, q: nat, place: nat, cloud: Cloud) {
    exists id, ip ::
      && cloud.launch(name, p) == Some(id) && cloud.address(id) == Some(ip)
      && name in maps.added && q < |maps.added[name]| && maps.added[name][q] == ip
      && Lookup(maps.full, name, place) == Ok(ip)
  }

  /** Names the cluster does not ask for: what was found, in the order of the tags. */
  ghost predicate Untouched(maps: Maps, name: string, entries: seq<Entry>, found: bool) {
    && name !in maps.added && (name in maps.full <==> found)
    && (found ==>
          && |maps.full[name]| == |entries|
          && forall j: nat | j < |entries| :: Lookup(maps.full, name, Rank(Tags(entries), j)) == Ok(entries[j].ip))
  }

  ghost predicate Provided(maps: Maps, types: seq<NodeSpec>, existing: map<string, seq<Entry>>, cloud: Cloud) {
    && (forall k | 0 <= k < |types| ::
          Served(maps, types[k], EntriesOf(existing, types[k].name), types[k].name in existing, cloud))
    && forall name | forall k | 0 <= k < |types| :: types[k].name != name ::
         Untouched(maps, name, EntriesOf(existing, name), name in existing)
  }

  /** Every launched instance gets an address. */
  predicate AllAddressed(cloud: Cloud, ids: seq<string>) {
    forall i | 0 <= i < |ids| :: cloud.address(ids[i]).Some?
  }

  lemma AddressedTogether(cloud: Cloud, a: seq<string>, b: seq<string>)
    ensures AllAddressed(cloud, a + b) <==> AllAddressed(cloud, a) && AllAddressed(cloud, b)
  {
    if AllAddressed(cloud, a + b) {
      assert forall i | 0 <= i < |a| :: a[i] == (a + b)[i];
      assert forall i | 0 <= i < |b| :: b[i] == (a + b)[|a| + i];
    }
  }

  lemma AddressedIff(cloud: Cloud, ids: seq<string>)
    ensures AllAddressed(cloud, ids) <==> !exists i | 0 <= i < |ids| :: cloud.address(ids[i]).None?
    ensures ids == [] ==> AllAddressed(cloud, ids)
  {
  }

  lemma SucceedsBefore(cloud: Cloud, jobs: seq<Job>, k: nat)
    requires AllSucceed(cloud, jobs) && k <= |jobs|
    ensures AllSucceed(cloud, jobs[..k])
  {
    hide JobSucceeds;
  }

  /** Every instance is launched for one of the jobs, and each job's instances are in the list. */
  lemma {:induction false} AddressedBefore(cloud: Cloud, jobs: seq<Job>, k: nat)
    requires AllSucceed(cloud, jobs) && k <= |jobs|
    ensures AllAddressed(cloud, AllIds(cloud, jobs)) ==> AllAddressed(cloud, AllIds(cloud, jobs[..k]))
    decreases |jobs| - k
  {
    hide *;
    if k == |jobs| {
      assert jobs[..k] == jobs;
    } else {
      AddressedBefore(cloud, jobs, k + 1);
      AddressedStep(cloud, jobs, k);
    }
  }

  lemma AddressedStep(cloud: Cloud, jobs: seq<Job>, k: nat)
    requires AllSucceed(cloud, jobs) && k < |jobs|
    ensures AllAddressed(cloud, AllIds(cloud, jobs[..k + 1]))
            <==> AllAddressed(cloud, AllIds(cloud, jobs[..k]))
                 && !exists i | 0 <= i < |JobIds(cloud, jobs[k].name, jobs[k].indexes)| ::
                      cloud.address(JobIds(cloud, jobs[k].name, jobs[k].indexes)[i]).None?
  {
    hide *;
    SucceedsBefore(cloud, jobs, k);
    OneSucceeds(cloud, jobs, k);
    SubnetFirst(cloud, jobs[k]);
    AllStep(cloud, jobs, k);
    var ids := JobIds(cloud, jobs[k].name, jobs[k].indexes);
    AddressedTogether(cloud, AllIds(cloud, jobs[..k]), ids);
    AddressedIff(cloud, ids);
  }

  /** Fill every type up to its count. The four outcomes exclude each other, and each has its exact condition.
      A failed launch leaves nothing running; when a launched instance never gets an address, all are left running. */
  method ProvisionMissing(types: seq<NodeSpec>, existing: map<string, seq<Entry>>, cloud: Cloud)
      returns (r: Result<Maps, ProvisionError>, log: seq<Event>)
    ensures var jobs := JobsFor(types, existing);
            var ids := AllIds(cloud, jobs);
            && (r.Ok? <==> jobs == [] || (cloud.ready && AllSucceed(cloud, jobs) && AllAddressed(cloud, ids)))
            && (r == Err(NotReady) <==> jobs != [] && !cloud.ready)
            && (r == Err(LaunchFailed) <==> jobs != [] && cloud.ready && !AllSucceed(cloud, jobs))
            && (r == Err(NoAddress)
               <==> jobs != [] && cloud.ready && AllSucceed(cloud, jobs) && !AllAddressed(cloud, ids))
            && (r.Ok? ==> r.value == Maps(FullMap(WithAdded(existing, cloud, jobs)), Added(cloud, jobs)))
            && log == if r == Err(NotReady) then []
                      else if r == Err(LaunchFailed) then Launches(ids) + Terminations(ids)
                      else Launches(ids)
    ensures r.Ok? && DistinctNames(types) ==> Provided(r.value, types, existing, cloud)
  {
    var jobs := PlanJobs(types, existing);
    var added: map<string, seq<string>> := map[];
    log := [];
    hide *;
    NoJobs(existing, cloud, jobs);
    if |jobs| > 0 {
      if !cloud.ready { return Err(NotReady), []; }
      var ids;
      ids, log := LaunchJobs(cloud, jobs);
      if ids.Err? { return Err(LaunchFailed), log; }
      assert log + [] == log;
      for k := 0 to |jobs|
        invariant added == Added(cloud, jobs[..k]) && AllAddressed(cloud, AllIds(cloud, jobs[..k]))
      {
        OneSucceeds(cloud, jobs, k);
        AddedNext(existing, cloud, jobs, k);
        AddressedStep(cloud, jobs, k);
        var ips := CollectIps(cloud, jobs[k], ids.value[k]);
        if ips.None? {
          AddressedBefore(cloud, jobs, k + 1);
          return Err(NoAddress), log;
        }
        added := added[jobs[k].name := ips.value];
      }
      assert jobs[..|jobs|] == jobs;
    }
    var merged := existing;
    for k := 0 to |jobs|
      invariant merged == WithAdded(existing, cloud, jobs[..k])
    {
      AddedNext(existing, cloud, jobs, k);
      merged := merged[jobs[k].name := EntriesOf(merged, jobs[k].name) + Zip(jobs[k].indexes, NewIps(cloud, jobs[k]))];
    }
    assert jobs[..|jobs|] == jobs;
    r := Ok(Maps(FullMap(merged), added));
    if DistinctNames(types) { AllProvided(types, existing, cloud); }
  }

  method PlanJobs(types: seq<NodeSpec>, existing: map<string, seq<Entry>>) returns (jobs: seq<Job>)
    ensures jobs == JobsFor(types, existing)
  {
    hide PicksFor;
    jobs := [];
    for i := 0 to |types|
      invariant jobs == JobsFor(types[..i], existing)
    {
      assert types[..i + 1][..i] == types[..i];
      var picks := PickIndexes(EntriesOf(existing, types[i].name), types[i].count);
      if |picks| == 0 { continue; }
      jobs := jobs + [Job(types[i].name, picks)];
    }
    assert types[..|types|] == types;
  }

  lemma NoJobs(existing: map<string, seq<Entry>>, cloud: Cloud, jobs: seq<Job>)
    ensures Added(cloud, jobs[..0]) == map[] && WithAdded(existing, cloud, jobs[..0]) == existing
    ensures AllAddressed(cloud, AllIds(cloud, jobs[..0]))
    ensures jobs == [] ==> Launches(AllIds(cloud, jobs)) == [] && Added(cloud, jobs) == map[]
  {
  }

  lemma OneSucceeds(cloud: Cloud, jobs: seq<Job>, k: nat)
    requires AllSucceed(cloud, jobs) && k < |jobs|
    ensures JobSucceeds(cloud, jobs[k])
  {
  }

  lemma AddedNext(existing: map<string, seq<Entry>>, cloud: Cloud, jobs: seq<Job>, k: nat)
    requires k < |jobs|
    ensures Added(cloud, jobs[..k + 1]) == Added(cloud, jobs[..k])[jobs[k].name := NewIps(cloud, jobs[k])]
    ensures var m := WithAdded(existing, cloud, jobs[..k]);
            WithAdded(existing, cloud, jobs[..k + 1])
            == m[jobs[k].name := EntriesOf(m, jobs[k].name) + Zip(jobs[k].indexes, NewIps(cloud, jobs[k]))]
  {
    assert jobs[..k + 1][..k] == jobs[..k];
    hide NewIps; hide Zip;
  }

  // ---------------------------------------------------------------- references by position

  ghost predicate DistinctNames(types: seq<NodeSpec>) {
    forall i, j | 0 <= i < j < |types| :: types[i].name != types[j].name
  }

  lemma MergedStep(types: seq<NodeSpec>, existing: map<string, seq<Entry>>, cloud: Cloud)
    requires types != []
    ensures var n := |types| - 1;
            var t := types[n];
            var m := WithAdded(existing, cloud, JobsFor(types[..n], existing));
            var picks := PicksFor(EntriesOf(existing, t.name), t.count);
            WithAdded(existing, cloud, JobsFor(types, existing))
            == if picks == [] then m
               else m[t.name := EntriesOf(m, t.name) + Zip(picks, NewIps(cloud, Job(t.name, picks)))]
  {
    var n := |types| - 1;
    var t, jobs := types[n], JobsFor(types[..n], existing);
    var picks := PicksFor(EntriesOf(existing, t.name), t.count);
    hide PicksFor; hide NewIps; hide Zip;
    if picks == [] {
      assert jobs + [] == jobs;
    } else {
      assert (jobs + [Job(t.name, picks)])[..|jobs|] == jobs;
    }
  }

  lemma {:induction false} MergedAbsent(types: seq<NodeSpec>, existing: map<string, seq<Entry>>, cloud: Cloud,
                                        name: string)
    requires forall i | 0 <= i < |types| :: types[i].name != name
    ensures var m := WithAdded(existing, cloud, JobsFor(types, existing));
            EntriesOf(m, name) == EntriesOf(existing, name) && (name in m <==> name in existing)
  {
    hide *;
    if types == [] {
      MergedNone(existing, cloud);
    } else {
      var n := |types| - 1;
      var t, m := types[n], WithAdded(existing, cloud, JobsFor(types[..n], existing));
      var picks := PicksFor(EntriesOf(existing, t.name), t.count);
      assert forall i | 0 <= i < n :: types[..n][i] == types[i];
      MergedStep(types, existing, cloud);
      MergedAbsent(types[..n], existing, cloud, name);
      OtherEntries(m, t.name, EntriesOf(m, t.name) + Zip(picks, NewIps(cloud, Job(t.name, picks))), name);
    }
  }

  lemma MergedNone(existing: map<string, seq<Entry>>, cloud: Cloud)
    ensures WithAdded(existing, cloud, JobsFor([], existing)) == existing
  {
  }

  /** What is merged for a type: its instances and those launched for it. */
  lemma {:induction false} MergedFor(types: seq<NodeSpec>, existing: map<string, seq<Entry>>, cloud: Cloud, k: nat)
    requires DistinctNames(types) && k < |types|
    ensures var name := types[k].name;
            var m, entries := WithAdded(existing, cloud, JobsFor(types, existing)), EntriesOf(existing, name);
            var picks := PicksFor(entries, types[k].count);
            && EntriesOf(m, name) == entries + Zip(picks, NewIps(cloud, Job(name, picks)))
            && (name in m <==> name in existing || picks != [])
  {
    hide *;
    var n, name := |types| - 1, types[k].name;
    DistinctPrefix(types, k);
    MergedStep(types, existing, cloud);
    var t, m := types[n], WithAdded(existing, cloud, JobsFor(types[..n], existing));
    var picks := PicksFor(EntriesOf(existing, t.name), t.count);
    var es := EntriesOf(m, t.name) + Zip(picks, NewIps(cloud, Job(t.name, picks)));
    if k == n {
      MergedAbsent(types[..n], existing, cloud, name);
      PutEntries(m, name, es);
      EmptyZip(cloud, name);
      assert EntriesOf(existing, name) + [] == EntriesOf(existing, name);
    } else {
      MergedFor(types[..n], existing, cloud, k);
      OtherEntries(m, t.name, es, name);
    }
  }

  lemma DistinctPrefix(types: seq<NodeSpec>, k: nat)
    requires DistinctNames(types) && k < |types|
    ensures DistinctNames(types[..|types| - 1])
    ensures k < |types| - 1 ==> types[k].name != types[|types| - 1].name
    ensures k == |types| - 1 ==> forall i | 0 <= i < k :: types[..k][i].name != types[k].name
  {
    var n := |types| - 1;
    assert forall i | 0 <= i < n :: types[..n][i] == types[i];
    assert forall i | 0 <= i < k :: types[..k][i] == types[i] && types[i].name != types[k].name;
  }

  lemma PutEntries(m: map<string, seq<Entry>>, a: string, es: seq<Entry>)
    ensures EntriesOf(m[a := es], a) == es
  {
  }

  lemma OtherEntries(m: map<string, seq<Entry>>, a: string, es: seq<Entry>, b: string)
    requires a != b
    ensures EntriesOf(m[a := es], b) == EntriesOf(m, b)
  {
  }

  lemma EmptyZip(cloud: Cloud, name: string)
    ensures Zip([], NewIps(cloud, Job(name, []))) == []
  {
  }

  datatype LookupError = UnknownName | IndexOutOfRange

  /** What `@name:index` stands for. */
  function Lookup(full: map<string, seq<string>>, name: string, index: nat): Result<string, LookupError> {
    if name !in full then Err(UnknownName)
    else if index >= |full[name]| then Err(IndexOutOfRange)
    else Ok(full[name][index])
  }

  /** `@name:i` resolves, for every wanted i, to the address of the instance tagged i, exactly when the
      discovered instances of that type allow it. */
  lemma ReferencesResolve(types: seq<NodeSpec>, existing: map<string, seq<Entry>>, cloud: Cloud, k: nat)
    requires DistinctNames(types) && k < |types|
    ensures var t := types[k];
            var entries := EntriesOf(existing, t.name);
            var picks := PicksFor(entries, t.count);
            var merged := Merged(entries, picks, NewIps(cloud, Job(t.name, picks)));
            var full := FullMap(WithAdded(existing, cloud, JobsFor(types, existing)));
            && (InPlace(merged, t.count) <==> Placeable(entries, t.count))
            && (Placeable(entries, t.count) ==>
                  forall i: nat | i < t.count ::
                    i < |merged| && merged[i].index == i && Lookup(full, t.name, i) == Ok(merged[i].ip))
            && (forall i: nat | t.name in full ::
               Lookup(full, t.name, i) == if i < |merged| then Ok(merged[i].ip) else Err(IndexOutOfRange))
  {
    var t := types[k];
    var entries := EntriesOf(existing, t.name);
    var picks := PicksFor(entries, t.count);
    var ips := NewIps(cloud, Job(t.name, picks));
    var merged := Merged(entries, picks, ips);
    var m := WithAdded(existing, cloud, JobsFor(types, existing));
    MergedFor(types, existing, cloud, k);
    PositionIsIndex(entries, t.count, ips);
    FullAt(m, t.name);
    hide PicksFor; hide NewIps; hide Zip; hide SortByIndex; hide WithAdded; hide Placeable; hide JobsFor; hide IpsOf;
    hide FullMap; hide DistinctNames; hide InPlace;
    if InPlace(merged, t.count) {
      forall i: nat | i < t.count ensures i < |merged| && merged[i].index == i { InPlaceAt(merged, t.count, i); }
    }
    if t.name !in existing && picks == [] {
      NothingMerged(cloud, t.name);
    }
  }

  lemma FullAt(m: map<string, seq<Entry>>, name: string)
    ensures name in FullMap(m) <==> name in m
    ensures name in m ==> FullMap(m)[name] == IpsOf(SortByIndex(EntriesOf(m, name)))
  {
    hide SortByIndex; hide IpsOf;
  }

  lemma NothingMerged(cloud: Cloud, name: string)
    ensures Merged([], [], NewIps(cloud, Job(name, []))) == []
  {
    EmptyZip(cloud, name);
    assert [] + Zip([], NewIps(cloud, Job(name, []))) == [];
  }

  // ---------------------------------------------------------------- which address stands where

  lemma {:induction false} InsertAt(s: seq<Entry>, e: Entry) returns (p: nat)
    requires Sorted(s)
    ensures p <= |s| && Insert(s, e) == s[..p] + [e] + s[p..]
    ensures forall i | 0 <= i < |s| :: s[i].index <= e.index <==> i < p
  {
    hide Insert;
    InsertIs(s, e);
    if s == [] || s[|s| - 1].index <= e.index {
      p := |s|;
      assert s[..p] + [e] + s[p..] == s + [e];
    } else {
      var n := |s| - 1;
      SortedPrefix(s, n);
      p := InsertAt(s[..n], e);
      assert s[..n][..p] + [e] + s[..n][p..] + [s[n]] == s[..p] + [e] + s[p..];
      assert forall i | 0 <= i < n :: s[..n][i] == s[i];
    }
  }

  lemma CountLast(tags: seq<int>, x: int, v: int)
    ensures Smaller(tags + [x], v) == Smaller(tags, v) + (if x < v then 1 else 0)
    ensures Same(tags + [x], v) == Same(tags, v) + (if x == v then 1 else 0)
    ensures Smaller([], v) == 0 && Same([], v) == 0
  {
    assert (tags + [x])[..|tags|] == tags;
  }

  lemma {:induction false} CountTogether(a: seq<int>, b: seq<int>, v: int)
    ensures Smaller(a + b, v) == Smaller(a, v) + Smaller(b, v)
    ensures Same(a + b, v) == Same(a, v) + Same(b, v)
  {
    hide *;
    if b == [] {
      CountLast(a, 0, v);
      assert a + b == a;
    } else {
      var n := |b| - 1;
      CountTogether(a, b[..n], v);
      CountLast(b[..n], b[n], v);
      CountLast(a + b[..n], b[n], v);
      assert b == b[..n] + [b[n]] && a + b == (a + b[..n]) + [b[n]];
    }
  }

  /** The first p tags are at most v, the others above. */
  lemma {:induction false} CountUpTo(tags: seq<int>, v: int, p: nat)
    requires p <= |tags| && forall i | 0 <= i < |tags| :: tags[i] <= v <==> i < p
    ensures Smaller(tags, v) + Same(tags, v) == p
  {
    hide *;
    if tags == [] {
      CountLast(tags, 0, v);
    } else {
      var n := |tags| - 1;
      CountUpTo(tags[..n], v, if p <= n then p else n);
      CountLast(tags[..n], tags[n], v);
      assert tags == tags[..n] + [tags[n]];
    }
  }

  lemma TagsTogether(a: seq<Entry>, b: seq<Entry>)
    ensures Tags(a + b) == Tags(a) + Tags(b)
  {
  }

  lemma TagsOne(e: Entry)
    ensures Tags([e]) == [e.index] && Tags([]) == []
  {
  }

  lemma InsertCounts(s: seq<Entry>, e: Entry, v: int)
    requires Sorted(s)
    ensures Smaller(Tags(Insert(s, e)), v) == Smaller(Tags(s) + [e.index], v)
    ensures Same(Tags(Insert(s, e)), v) == Same(Tags(s) + [e.index], v)
  {
    hide *;
    var p := InsertAt(s, e);
    var a, b := s[..p], s[p..];
    assert s == a + b;
    TagsTogether(a, b);
    TagsTogether(a, [e]);
    TagsTogether(a + [e], b);
    TagsOne(e);
    CountTogether(Tags(a), Tags(b), v);
    CountTogether(Tags(a), [e.index], v);
    CountTogether(Tags(a) + [e.index], Tags(b), v);
    CountTogether(Tags(s), [e.index], v);
  }

  lemma {:induction false} SortCounts(es: seq<Entry>, v: int)
    ensures Smaller(Tags(SortByIndex(es)), v) == Smaller(Tags(es), v)
    ensures Same(Tags(SortByIndex(es)), v) == Same(Tags(es), v)
  {
    hide *;
    SortLast(es);
    if es != [] {
      var n := |es| - 1;
      SortCounts(es[..n], v);
      SortIsStable(es[..n], v);
      InsertCounts(SortByIndex(es[..n]), es[n], v);
      CountLast(Tags(SortByIndex(es[..n])), es[n].index, v);
      CountLast(Tags(es[..n]), es[n].index, v);
      assert es == es[..n] + [es[n]];
      TagsTogether(es[..n], [es[n]]);
      TagsOne(es[n]);
    }
  }

  lemma RankLast(tags: seq<int>, x: int, j: nat)
    requires j <= |tags|
    ensures Rank(tags + [x], j)
            == if j < |tags| then Rank(tags, j) + (if x < tags[j] then 1 else 0) else Smaller(tags, x) + Same(tags, x)
  {
    var all := tags + [x];
    assert all[..j] == tags[..j] && all[j] == if j < |tags| then tags[j] else x;
    assert tags[..|tags|] == tags;
    CountLast(tags, x, all[j]);
    hide Smaller; hide Same;
  }

  /** Inserting moves what stands behind by one. */
  lemma Inserted(s: seq<Entry>, e: Entry, p: nat, i: nat)
    requires p <= |s| && i < |s| && (s[i].index <= e.index <==> i < p)
    ensures (s[..p] + [e] + s[p..])[i + if e.index < s[i].index then 1 else 0] == s[i]
    ensures (s[..p] + [e] + s[p..])[p] == e && |s[..p] + [e] + s[p..]| == |s| + 1
  {
  }

  /** Sorting puts every entry at its rank. */
  lemma {:induction false} SortedByRank(es: seq<Entry>, j: nat)
    requires j < |es|
    ensures var s := SortByIndex(es);
            |s| == |es| && Rank(Tags(es), j) < |s| && s[Rank(Tags(es), j)] == es[j]
  {
    hide *;
    var n := |es| - 1;
    var s, e := SortByIndex(es[..n]), es[n];
    assert es == es[..n] + [e];
    SortLast(es);
    SortIsStable(es[..n], 0);
    var p := InsertAt(s, e);
    TagsTogether(es[..n], [e]);
    TagsOne(e);
    RankLast(Tags(es[..n]), e.index, j);
    SortLength(es[..n]);
    if j < n {
      SortedByRank(es[..n], j);
      Inserted(s, e, p, Rank(Tags(es[..n]), j));
    } else {
      SortCounts(es[..n], e.index);
      CountUpTo(Tags(s), e.index, p);
    }
  }

  lemma {:induction false} SortLength(es: seq<Entry>)
    ensures |SortByIndex(es)| == |es|
  {
    hide *;
    SortLast(es);
    if es != [] {
      var n := |es| - 1;
      SortLength(es[..n]);
      SortIsStable(es[..n], 0);
      var p := InsertAt(SortByIndex(es[..n]), es[n]);
    }
  }

  lemma MergedIps(m: map<string, seq<Entry>>, name: string, j: nat)
    requires name in m && j < |m[name]|
    ensures Lookup(FullMap(m), name, Rank(Tags(m[name]), j)) == Ok(m[name][j].ip)
  {
    SortedByRank(m[name], j);
    FullAt(m, name);
    hide SortByIndex; hide FullMap; hide Rank; hide Tags;
  }

  lemma MergedLength(m: map<string, seq<Entry>>, name: string)
    ensures name in FullMap(m) <==> name in m
    ensures name in m ==> |FullMap(m)[name]| == |m[name]|
  {
    FullAt(m, name);
    if name in m { SortLength(m[name]); }
    hide SortByIndex; hide FullMap;
  }

  lemma JobsSnoc(types: seq<NodeSpec>, existing: map<string, seq<Entry>>)
    requires types != []
    ensures var n := |types| - 1;
            var picks := PicksFor(EntriesOf(existing, types[n].name), types[n].count);
            JobsFor(types, existing)
            == JobsFor(types[..n], existing) + (if picks == [] then [] else [Job(types[n].name, picks)])
    ensures JobsFor([], existing) == []
  {
    hide PicksFor; hide EntriesOf;
  }

  lemma AddedSnoc(cloud: Cloud, jobs: seq<Job>, job: Job)
    ensures Added(cloud, jobs + [job]) == Added(cloud, jobs)[job.name := NewIps(cloud, job)]
    ensures Added(cloud, []) == map[]
  {
    assert (jobs + [job])[..|jobs|] == jobs;
    hide NewIps;
  }

  lemma {:induction false} AddedAbsent(types: seq<NodeSpec>, existing: map<string, seq<Entry>>, cloud: Cloud,
                                       name: string)
    requires forall i | 0 <= i < |types| :: types[i].name != name
    ensures name !in Added(cloud, JobsFor(types, existing))
  {
    hide *;
    AddedSnoc(cloud, [], Job(name, []));
    if types == [] {
      JobsNone(existing);
    } else {
      var n := |types| - 1;
      var jobs := JobsFor(types[..n], existing);
      var picks := PicksFor(EntriesOf(existing, types[n].name), types[n].count);
      JobsSnoc(types, existing);
      AddedAbsent(types[..n], existing, cloud, name);
      AddedSnoc(cloud, jobs, Job(types[n].name, picks));
      assert jobs + [] == jobs;
    }
  }

  lemma JobsNone(existing: map<string, seq<Entry>>)
    ensures JobsFor([], existing) == []
  {
  }

  /** A type's launches, and the job they are. */
  lemma {:induction false} AddedFor(types: seq<NodeSpec>, existing: map<string, seq<Entry>>, cloud: Cloud, k: nat)
    returns (at: nat)
    requires DistinctNames(types) && k < |types|
    ensures var name := types[k].name;
            var jobs, picks := JobsFor(types, existing), PicksFor(EntriesOf(existing, name), types[k].count);
            var added := Added(cloud, jobs);
            && (picks == [] ==> name !in added)
            && (picks != [] ==>
                  && at < |jobs| && jobs[at] == Job(name, picks)
                  && name in added && added[name] == NewIps(cloud, Job(name, picks)))
  {
    hide *;
    var n, name := |types| - 1, types[k].name;
    DistinctPrefix(types, k);
    JobsSnoc(types, existing);
    var jobs := JobsFor(types[..n], existing);
    var picks := PicksFor(EntriesOf(existing, types[n].name), types[n].count);
    AddedSnoc(cloud, jobs, Job(types[n].name, picks));
    assert jobs + [] == jobs;
    if k == n {
      AddedAbsent(types[..n], existing, cloud, name);
      at := |jobs|;
    } else {
      at := AddedFor(types[..n], existing, cloud, k);
    }
  }

  /** Launches that succeed have the address the cloud gives them. */
  lemma LaunchedAddress(cloud: Cloud, jobs: seq<Job>, k: nat, q: nat)
    requires AllSucceed(cloud, jobs) && AllAddressed(cloud, AllIds(cloud, jobs)) && k < |jobs| && q < |jobs[k].indexes|
    ensures var id := cloud.launch(jobs[k].name, jobs[k].indexes[q]);
            && id.Some? && cloud.address(id.value) == Some(NewIps(cloud, jobs[k])[q])
  {
    hide *;
    var job := jobs[k];
    AddressedBefore(cloud, jobs, k + 1);
    AddressedStep(cloud, jobs, k);
    OneSucceeds(cloud, jobs, k);
    assert job.indexes[..|job.indexes|] == job.indexes;
    JobIdAt(cloud, job, |job.indexes|, q);
    NewIpIs(cloud, job, q);
  }

  lemma NewIpIs(cloud: Cloud, job: Job, q: nat)
    requires q < |job.indexes|
    ensures |NewIps(cloud, job)| == |job.indexes|
    ensures var id := cloud.launch(job.name, job.indexes[q]);
            id.Some? && cloud.address(id.value).Some? ==> cloud.address(id.value) == Some(NewIps(cloud, job)[q])
  {
  }

  lemma ZipTags(picks: seq<int>, ips: seq<string>)
    requires |picks| == |ips|
    ensures Tags(Zip(picks, ips)) == picks
  {
  }

  lemma AfterEntries(entries: seq<Entry>, picks: seq<int>, ips: seq<string>)
    requires |picks| == |ips|
    ensures var es := entries + Zip(picks, ips);
            && |es| == |entries| + |picks| && Tags(es) == Tags(entries) + picks
            && (forall j: nat | j < |entries| :: es[j] == entries[j])
            && forall q: nat | q < |picks| :: es[|entries| + q].ip == ips[q]
  {
    TagsTogether(entries, Zip(picks, ips));
    ZipTags(picks, ips);
    hide Tags;
  }

  /** The maps of a successful call; what it merges is m. */
  function MapsOf(existing: map<string, seq<Entry>>, cloud: Cloud, jobs: seq<Job>): Maps {
    Maps(FullMap(WithAdded(existing, cloud, jobs)), Added(cloud, jobs))
  }

  predicate Provisioned(cloud: Cloud, jobs: seq<Job>) {
    jobs == [] || (AllSucceed(cloud, jobs) && AllAddressed(cloud, AllIds(cloud, jobs)))
  }

  lemma EntriesIn(m: map<string, seq<Entry>>, name: string)
    requires name in m
    ensures EntriesOf(m, name) == m[name]
  {
  }

  lemma LaunchListed(types: seq<NodeSpec>, existing: map<string, seq<Entry>>, cloud: Cloud, k: nat, q: nat)
    requires DistinctNames(types) && k < |types| && Provisioned(cloud, JobsFor(types, existing))
    requires q < |PicksFor(EntriesOf(existing, types[k].name), types[k].count)|
    ensures var name := types[k].name;
            var entries := EntriesOf(existing, name);
            var picks := PicksFor(entries, types[k].count);
            var tags := Tags(entries) + picks;
            LaunchedFor(MapsOf(existing, cloud, JobsFor(types, existing)), name, picks[q], q,
                        Rank(tags, |entries| + q), cloud)
  {
    hide *;
    var jobs, name := JobsFor(types, existing), types[k].name;
    var entries := EntriesOf(existing, name);
    var picks := PicksFor(entries, types[k].count);
    var m, ips := WithAdded(existing, cloud, jobs), NewIps(cloud, Job(name, picks));
    var at := AddedFor(types, existing, cloud, k);
    ProvisionedBoth(cloud, jobs, at);
    LaunchedAddress(cloud, jobs, at, q);
    NewIpIs(cloud, Job(name, picks), q);
    MergedFor(types, existing, cloud, k);
    EntriesIn(m, name);
    AfterEntries(entries, picks, ips);
    MergedIps(m, name, |entries| + q);
    Listed(MapsOf(existing, cloud, jobs), name, picks[q], q, Rank(Tags(entries) + picks, |entries| + q), cloud,
           cloud.launch(name, picks[q]).value, ips[q]) by { MapsOfIs(existing, cloud, jobs); }
  }

  lemma ProvisionedBoth(cloud: Cloud, jobs: seq<Job>, at: nat)
    requires Provisioned(cloud, jobs) && at < |jobs|
    ensures AllSucceed(cloud, jobs) && AllAddressed(cloud, AllIds(cloud, jobs))
  {
    hide AllSucceed; hide AllAddressed;
  }

  lemma MapsOfIs(existing: map<string, seq<Entry>>, cloud: Cloud, jobs: seq<Job>)
    ensures MapsOf(existing, cloud, jobs).full == FullMap(WithAdded(existing, cloud, jobs))
    ensures MapsOf(existing, cloud, jobs).added == Added(cloud, jobs)
  {
  }

  lemma Listed(maps: Maps, name: string, p: int, q: nat, place: nat, cloud: Cloud, id: string, ip: string)
    requires cloud.launch(name, p) == Some(id) && cloud.address(id) == Some(ip)
    requires name in maps.added && q < |maps.added[name]| && maps.added[name][q] == ip
    requires Lookup(maps.full, name, place) == Ok(ip)
    ensures LaunchedFor(maps, name, p, q, place, cloud)
  {
    hide Lookup;
  }

  lemma TypeServed(types: seq<NodeSpec>, existing: map<string, seq<Entry>>, cloud: Cloud, k: nat)
    requires DistinctNames(types) && k < |types| && Provisioned(cloud, JobsFor(types, existing))
    ensures var name := types[k].name;
            Served(MapsOf(existing, cloud, JobsFor(types, existing)), types[k], EntriesOf(existing, name),
                   name in existing, cloud)
  {
    hide *;
    var jobs, name := JobsFor(types, existing), types[k].name;
    var entries, found := EntriesOf(existing, name), name in existing;
    var picks := PicksFor(entries, types[k].count);
    var m, ips := WithAdded(existing, cloud, jobs), NewIps(cloud, Job(name, picks));
    var maps := MapsOf(existing, cloud, jobs);
    var at := AddedFor(types, existing, cloud, k);
    forall q: nat | q < |picks| ensures LaunchedFor(maps, name, picks[q], q, Rank(Tags(entries) + picks, |entries| + q),
      cloud) {
      LaunchListed(types, existing, cloud, k, q);
    }
    MapsOfIs(existing, cloud, jobs);
    MergedFor(types, existing, cloud, k);
    MergedLength(m, name);
    NewIpsLength(cloud, Job(name, picks));
    AfterEntries(entries, picks, ips);
    if name in m { EntriesIn(m, name); }
    forall j: nat | j < |entries| && found
      ensures Lookup(maps.full, name, Rank(Tags(entries) + picks, j)) == Ok(entries[j].ip)
    {
      MergedIps(m, name, j);
    }
    MakeServed(maps, types[k], entries, found, cloud);
  }

  lemma NewIpsLength(cloud: Cloud, job: Job)
    ensures |NewIps(cloud, job)| == |job.indexes|
  {
  }

  lemma MakeServed(maps: Maps, t: NodeSpec, entries: seq<Entry>, found: bool, cloud: Cloud)
    requires var picks := PicksFor(entries, t.count);
             var tags := Tags(entries) + picks;
             && (t.name in maps.added <==> picks != [])
             && (t.name in maps.full <==> found || picks != [])
             && (t.name in maps.full ==> |maps.full[t.name]| == |entries| + |picks|)
             && (t.name in maps.added ==> |maps.added[t.name]| == |picks|)
             && (forall j: nat | j < |entries| && found ::
                  Lookup(maps.full, t.name, Rank(tags, j)) == Ok(entries[j].ip))
             && forall q: nat | q < |picks| :: LaunchedFor(maps, t.name, picks[q], q, Rank(tags, |entries| + q), cloud)
    ensures Served(maps, t, entries, found, cloud)
  {
    hide Lookup; hide Rank; hide Tags; hide PicksFor; hide LaunchedFor;
  }

  lemma NameUntouched(types: seq<NodeSpec>, existing: map<string, seq<Entry>>, cloud: Cloud, name: string)
    requires forall k | 0 <= k < |types| :: types[k].name != name
    ensures Untouched(MapsOf(existing, cloud, JobsFor(types, existing)), name, EntriesOf(existing, name),
                      name in existing)
  {
    hide *;
    var jobs, entries := JobsFor(types, existing), EntriesOf(existing, name);
    var m, maps := WithAdded(existing, cloud, jobs), MapsOf(existing, cloud, jobs);
    MapsOfIs(existing, cloud, jobs);
    MergedAbsent(types, existing, cloud, name);
    AddedAbsent(types, existing, cloud, name);
    MergedLength(m, name);
    if name in existing {
      EntriesIn(m, name);
      forall j: nat | j < |entries| ensures Lookup(maps.full, name, Rank(Tags(entries), j)) == Ok(entries[j].ip) {
        MergedIps(m, name, j);
      }
    }
    MakeUntouched(maps, name, entries, name in existing);
  }

  lemma MakeUntouched(maps: Maps, name: string, entries: seq<Entry>, found: bool)
    requires name !in maps.added && (name in maps.full <==> found)
    requires found ==>
               && |maps.full[name]| == |entries|
               && forall j: nat | j < |entries| :: Lookup(maps.full, name, Rank(Tags(entries), j)) == Ok(entries[j].ip)
    ensures Untouched(maps, name, entries, found)
  {
    hide Lookup; hide Rank; hide Tags;
  }

  lemma AllProvided(types: seq<NodeSpec>, existing: map<string, seq<Entry>>, cloud: Cloud)
    requires DistinctNames(types)
    requires var jobs := JobsFor(types, existing);
             jobs == [] || (AllSucceed(cloud, jobs) && AllAddressed(cloud, AllIds(cloud, jobs)))
    ensures var jobs := JobsFor(types, existing);
            Provided(Maps(FullMap(WithAdded(existing, cloud, jobs)), Added(cloud, jobs)), types, existing, cloud)
  {
    var jobs := JobsFor(types, existing);
    var maps := MapsOf(existing, cloud, jobs);
    assert Provisioned(cloud, jobs);
    assert maps == Maps(FullMap(WithAdded(existing, cloud, jobs)), Added(cloud, jobs));
    hide *;
    forall k | 0 <= k < |types|
      ensures Served(maps, types[k], EntriesOf(existing, types[k].name), types[k].name in existing, cloud)
    {
      TypeServed(types, existing, cloud, k);
    }
    forall name | forall k | 0 <= k < |types| :: types[k].name != name
      ensures Untouched(maps, name, EntriesOf(existing, name), name in existing)
    {
      NameUntouched(types, existing, cloud, name);
    }
    MakeProvided(maps, types, existing, cloud);
  }

  lemma MakeProvided(maps: Maps, types: seq<NodeSpec>, existing: map<string, seq<Entry>>, cloud: Cloud)
    requires forall k | 0 <= k < |types| ::
               Served(maps, types[k], EntriesOf(existing, types[k].name), types[k].name in existing, cloud)
    requires forall name | forall k | 0 <= k < |types| :: types[k].name != name ::
               Untouched(maps, name, EntriesOf(existing, name), name in existing)
    ensures Provided(maps, types, existing, cloud)
  {
    hide Served; hide Untouched; hide EntriesOf;
  }

  // ---------------------------------------------------------------- a rank is a tag

  /** Position is tag for what was found and launched: where the discovered instances allow it, each wanted tag's
      first instance stands at the tag itself. */
  lemma RankIsTag(entries: seq<Entry>, count: int, j: nat)
    requires Placeable(entries, count)
    requires var tags := Tags(entries) + PicksFor(entries, count);
             j < |tags| && 0 <= tags[j] < count && forall i | 0 <= i < j :: tags[i] != tags[j]
    ensures var tags := Tags(entries) + PicksFor(entries, count); Rank(tags, j) == tags[j]
  {
    hide *;
    var picks := PicksFor(entries, count);
    var tags := Tags(entries) + picks;
    var ips := seq(|picks|, _ => "");
    var es := entries + Zip(picks, ips);
    var s := Merged(entries, picks, ips);
    AfterEntries(entries, picks, ips);
    PositionIsIndex(entries, count, ips);
    MergedIs(entries, picks, ips);
    SortIsStable(es, 0);
    SortCounts(es, tags[j] - 1);
    RankInPlace(s, count, tags, j);
  }

  lemma RankInPlace(s: seq<Entry>, count: int, tags: seq<int>, j: nat)
    requires Sorted(s) && InPlace(s, count)
    requires j < |tags| && 0 <= tags[j] < count && forall i | 0 <= i < j :: tags[i] != tags[j]
    requires Smaller(Tags(s), tags[j] - 1) == Smaller(tags, tags[j] - 1)
    requires Same(Tags(s), tags[j] - 1) == Same(tags, tags[j] - 1)
    ensures Rank(tags, j) == tags[j]
  {
    hide *;
    var v := tags[j];
    RankIs(tags, j);
    NoneSame(tags[..j], v);
    InPlaceAt(s, count, v);
    TagsAre(s);
    forall i | 0 <= i < |s| ensures Tags(s)[i] <= v - 1 <==> i < v { InPlaceBelow(s, count, i, v); }
    CountUpTo(Tags(s), v - 1, v);
    SmallerStep(tags, v);
  }

  lemma {:induction false} NoneSame(tags: seq<int>, v: int)
    requires forall i | 0 <= i < |tags| :: tags[i] != v
    ensures Same(tags, v) == 0
  {
    if tags != [] { NoneSame(tags[..|tags| - 1], v); }
  }

  lemma RankIs(tags: seq<int>, j: nat)
    requires j < |tags|
    ensures Rank(tags, j) == Smaller(tags, tags[j]) + Same(tags[..j], tags[j])
  {
  }

  lemma {:induction false} SmallerStep(tags: seq<int>, v: int)
    ensures Smaller(tags, v) == Smaller(tags, v - 1) + Same(tags, v - 1)
  {
    if tags != [] { SmallerStep(tags[..|tags| - 1], v); }
  }

  lemma TagsAre(s: seq<Entry>)
    ensures |Tags(s)| == |s| && forall i | 0 <= i < |s| :: Tags(s)[i] == s[i].index
  {
  }

  lemma InPlaceBelow(s: seq<Entry>, count: int, i: nat, v: nat)
    requires Sorted(s) && InPlace(s, count) && i < |s| && v < count
    ensures s[i].index <= v - 1 <==> i < v
  {
    InPlaceAt(s, count, v);
    if i < v { InPlaceAt(s, count, i); }
  }
}
