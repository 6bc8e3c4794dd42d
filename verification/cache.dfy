/** The head-node object cache: an ordered index, a byte counter and a directory of pickle files,
    updated in place by one actor. */
module ObjectCache {

  import opened Results
  import opened Recency

  /** What unpickling a file yields. */
  datatype Content = Pickle(tag: string, data: Data) | Unreadable

  datatype File = File(content: Content, nbytes: nat, mtime: nat)

  /** The `*.pkl` files of the cache directory. */
  type Directory = map<string, File>

  /** The ordered index: each item's value is its file name. */
  type Index = seq<Item<string>>

  function Names(l: Index): set<string> {
    set i | 0 <= i < |l| :: l[i].value
  }

  // ---------------------------------------------------------------- from files to slots

  function Body(dir: Directory, name: string): Option<Stored> {
    if name in dir && dir[name].content.Pickle? then Some(Stored(dir[name].content.data, dir[name].mtime)) else None
  }

  /** What the index means on this directory: the reference list of module Recency. */
  function View(l: Index, dir: Directory): (s: Slots)
    ensures |s| == |l|
    ensures forall i | 0 <= i < |l| :: s[i] == Item(l[i].tag, l[i].nbytes, Body(dir, l[i].value))
  {
    seq(|l|, i requires 0 <= i < |l| => Item(l[i].tag, l[i].nbytes, Body(dir, l[i].value)))
  }

  ghost predicate Injective(fileName: string -> string) {
    forall a, b | fileName(a) == fileName(b) :: a == b
  }

  /** Index and directory agree: the index uses the deterministic names, every readable file is the
      pickle of an indexed tag with the recorded size, and write times are distinct and in the past. */
  ghost predicate Coherent(l: Index, dir: Directory, fileName: string -> string, now: nat) {
    && Distinct(l)
    && (forall i | 0 <= i < |l| :: l[i].value == fileName(l[i].tag))
    && (forall f | f in dir && dir[f].content.Pickle? ::
          && f == fileName(dir[f].content.tag) && dir[f].mtime < now
          && Has(l, dir[f].content.tag) && Lookup(l, dir[f].content.tag).nbytes == dir[f].nbytes)
    && (forall f, g | f in dir && g in dir && f != g && dir[f].content.Pickle? && dir[g].content.Pickle? ::
          dir[f].mtime != dir[g].mtime)
  }

  lemma {:induction false} ViewWithout(l: Index, dir: Directory, tag: string)
    ensures View(Without(l, tag), dir) == Without(View(l, dir), tag)
  {
    if l != [] {
      var w := Without(l[1..], tag);
      var x := Item(l[0].tag, l[0].nbytes, Body(dir, l[0].value));
      assert View([l[0]] + w, dir) == [x] + View(w, dir);
      assert View(l, dir) == [x] + View(l[1..], dir);
      ViewWithout(l[1..], dir, tag);
      assert l == [l[0]] + l[1..];
      WithoutCons(l[0], l[1..], tag);
      WithoutCons(x, View(l[1..], dir), tag);
    }
  }

  lemma {:induction false} ViewTotal(l: Index, dir: Directory)
    ensures Total(View(l, dir)) == Total(l)
  {
    if l != [] {
      ViewTotal(l[1..], dir);
      assert View(l, dir)[1..] == View(l[1..], dir);
    }
  }

  lemma {:induction false} ViewHas(l: Index, dir: Directory, tag: string)
    ensures Has(View(l, dir), tag) == Has(l, tag)
  {
    if l != [] {
      ViewHas(l[1..], dir, tag);
      assert View(l, dir)[1..] == View(l[1..], dir);
      HasCons(l, tag);
      HasCons(View(l, dir), tag);
    }
  }

  lemma HasCons<V(!new)>(l: seq<Item<V>>, tag: string)
    requires l != []
    ensures Has(l, tag) <==> l[0].tag == tag || Has(l[1..], tag)
  {
    assert forall i | 0 <= i < |l[1..]| :: l[1..][i] == l[i + 1];
    if Has(l, tag) && l[0].tag != tag {
      var i :| 0 <= i < |l| && l[i].tag == tag;
      assert l[1..][i - 1].tag == tag;
    }
  }

  lemma {:induction false} ViewLookup(l: Index, dir: Directory, tag: string)
    requires Has(l, tag)
    ensures Has(View(l, dir), tag)
    ensures var x := Lookup(l, tag); Lookup(View(l, dir), tag) == Item(tag, x.nbytes, Body(dir, x.value))
  {
    hide *;
    ViewHas(l, dir, tag);
    LookupCons(l, tag);
    LookupCons(View(l, dir), tag);
    ViewRest(l, dir);
    if l[0].tag != tag { ViewLookup(l[1..], dir, tag); }
  }

  lemma LookupCons<V(!new)>(l: seq<Item<V>>, tag: string)
    requires Has(l, tag)
    ensures l != [] && (l[0].tag != tag ==> Has(l[1..], tag))
    ensures Lookup(l, tag) == if l[0].tag == tag then l[0] else Lookup(l[1..], tag)
  {
    HasCons(l, tag);
    hide Has;
  }

  lemma ViewRest(l: Index, dir: Directory)
    requires l != []
    ensures View(l, dir)[1..] == View(l[1..], dir)
  {
    hide Body;
  }

  lemma {:induction false} LookupIs<V(!new)>(l: seq<Item<V>>, i: nat)
    requires Distinct(l) && i < |l|
    ensures Has(l, l[i].tag) && Lookup(l, l[i].tag) == l[i]
  {
    if i > 0 { LookupIs(l[1..], i - 1); }
  }

  // ---------------------------------------------------------------- each operation, on values

  ghost predicate SameBodies(l: Index, dir: Directory, dir': Directory) {
    forall i | 0 <= i < |l| :: Body(dir, l[i].value) == Body(dir', l[i].value)
  }

  lemma SameView(l: Index, dir: Directory, dir': Directory)
    requires SameBodies(l, dir, dir')
    ensures View(l, dir) == View(l, dir')
  {
  }

  lemma PopCoherent(l: Index, dir: Directory, fileName: string -> string, now: nat, tag: string)
    requires Coherent(l, dir, fileName, now)
    ensures Coherent(Without(l, tag), dir - {fileName(tag)}, fileName, now)
  {
    var l', dir' := Without(l, tag), dir - {fileName(tag)};
    WithoutDistinct(l, tag);
    forall i | 0 <= i < |l'| ensures l'[i].value == fileName(l'[i].tag) { WithoutAt(l, tag, i); }
    forall f | f in dir' && dir'[f].content.Pickle?
      ensures Has(l', dir'[f].content.tag) && Lookup(l', dir'[f].content.tag).nbytes == dir'[f].nbytes
    {
      WithoutLookup(l, tag, dir[f].content.tag);
    }
  }

  lemma PopBodies(l: Index, dir: Directory, fileName: string -> string, now: nat, tag: string)
    requires Coherent(l, dir, fileName, now) && Injective(fileName)
    ensures SameBodies(Without(l, tag), dir, dir - {fileName(tag)})
  {
    var l', dir' := Without(l, tag), dir - {fileName(tag)};
    forall i | 0 <= i < |l'| ensures Body(dir, l'[i].value) == Body(dir', l'[i].value) {
      WithoutAt(l, tag, i);
      assert l'[i].value != fileName(tag);
    }
  }

  /** Forgetting a tag and its file. */
  lemma PopRefines(l: Index, dir: Directory, fileName: string -> string, now: nat, tag: string)
    requires Coherent(l, dir, fileName, now) && Injective(fileName)
    ensures var l', dir' := Without(l, tag), dir - {fileName(tag)};
            Coherent(l', dir', fileName, now) && View(l', dir') == Without(View(l, dir), tag)
  {
    PopCoherent(l, dir, fileName, now, tag);
    PopBodies(l, dir, fileName, now, tag);
    ViewWithout(l, dir, tag);
    SameView(Without(l, tag), dir, dir - {fileName(tag)});
  }

  lemma WithoutAt<V(!new)>(l: seq<Item<V>>, tag: string, i: nat)
    requires i < |Without(l, tag)|
    ensures Without(l, tag)[i] in l && Without(l, tag)[i].tag != tag
  {
    WithoutMembers(l, tag);
    assert Without(l, tag)[i] in Without(l, tag);
  }

  lemma {:induction false} WithoutLookup<V(!new)>(l: seq<Item<V>>, tag: string, t: string)
    requires Has(l, t) && t != tag
    ensures Has(Without(l, tag), t) && Lookup(Without(l, tag), t) == Lookup(l, t)
  {
    HasCons(l, t);
    if l[0].tag == t {
      assert Without(l, tag)[0] == l[0];
    } else {
      WithoutLookup(l[1..], tag, t);
      if l[0].tag != tag {
        assert Without(l, tag)[1..] == Without(l[1..], tag);
        HasCons(Without(l, tag), t);
      } else {
        assert Without(l, tag) == Without(l[1..], tag);
      }
    }
  }

  /** Popping the front of a list with distinct tags. */
  lemma WithoutFront<V(!new)>(l: seq<Item<V>>)
    requires Distinct(l) && l != []
    ensures Without(l, l[0].tag) == l[1..]
  {
    assert forall i | 0 <= i < |l[1..]| :: l[1..][i] == l[i + 1];
    WithoutAbsent(l[1..], l[0].tag);
  }

  lemma StoreCoherent(l: Index, dir: Directory, fileName: string -> string, now: nat, tag: string, data: Data,
                      nbytes: nat)
    requires Coherent(l, dir, fileName, now) && Injective(fileName)
    requires !Has(l, tag) && fileName(tag) !in dir
    ensures Coherent(l + [Item(tag, nbytes, fileName(tag))], dir[fileName(tag) := File(Pickle(tag, data), nbytes, now)],
            fileName, now + 1)
  {
    var x := Item(tag, nbytes, fileName(tag));
    var l' := l + [x];
    var dir' := dir[fileName(tag) := File(Pickle(tag, data), nbytes, now)];
    forall f | f in dir' && dir'[f].content.Pickle?
      ensures Has(l', dir'[f].content.tag) && Lookup(l', dir'[f].content.tag).nbytes == dir'[f].nbytes
    {
      if f == fileName(tag) { LookupIs(l', |l|); } else { LookupPrefix(l, x, dir[f].content.tag); }
    }
  }

  lemma StoreBodies(l: Index, dir: Directory, fileName: string -> string, now: nat, tag: string, file: File)
    requires Coherent(l, dir, fileName, now) && Injective(fileName) && !Has(l, tag)
    ensures SameBodies(l, dir, dir[fileName(tag) := file])
  {
    forall i | 0 <= i < |l| ensures l[i].value != fileName(tag) {}
  }

  /** Writing a tag's file when neither the index nor the directory mentions it. */
  lemma StoreRefines(l: Index, dir: Directory, fileName: string -> string, now: nat, tag: string, data: Data,
                     nbytes: nat)
    requires Coherent(l, dir, fileName, now) && Injective(fileName)
    requires !Has(l, tag) && fileName(tag) !in dir
    ensures var l' := l + [Item(tag, nbytes, fileName(tag))];
            var dir' := dir[fileName(tag) := File(Pickle(tag, data), nbytes, now)];
            && Coherent(l', dir', fileName, now + 1)
            && View(l', dir') == View(l, dir) + [Item(tag, nbytes, Some(Stored(data, now)))]
  {
    var file := File(Pickle(tag, data), nbytes, now);
    StoreCoherent(l, dir, fileName, now, tag, data, nbytes);
    StoreBodies(l, dir, fileName, now, tag, file);
    SameView(l, dir, dir[fileName(tag) := file]);
    hide Coherent;
  }

  lemma {:induction false} LookupPrefix<V(!new)>(l: seq<Item<V>>, x: Item<V>, t: string)
    requires Has(l, t)
    ensures Has(l + [x], t) && Lookup(l + [x], t) == Lookup(l, t)
  {
    HasCons(l, t);
    HasCons(l + [x], t);
    if l[0].tag != t {
      LookupPrefix(l[1..], x, t);
      assert (l + [x])[1..] == l[1..] + [x];
    }
  }

  /** A read hit only moves the item to the back. */
  lemma TouchRefines(l: Index, dir: Directory, fileName: string -> string, now: nat, tag: string)
    requires Coherent(l, dir, fileName, now) && Has(l, tag)
    ensures var l' := Without(l, tag) + [Lookup(l, tag)];
            Coherent(l', dir, fileName, now)
              && View(l', dir) == Without(View(l, dir), tag) + [Lookup(View(l, dir), tag)]
  {
    var x := Lookup(l, tag);
    var w := Without(l, tag);
    var l' := w + [x];
    WithoutDistinct(l, tag);
    forall i | 0 <= i < |l'| ensures l'[i].value == fileName(l'[i].tag) { if i < |w| { WithoutAt(l, tag, i); } }
    forall f | f in dir && dir[f].content.Pickle?
      ensures Has(l', dir[f].content.tag) && Lookup(l', dir[f].content.tag).nbytes == dir[f].nbytes
    {
      var t := dir[f].content.tag;
      if t == tag { LookupIs(l', |w|); } else { WithoutLookup(l, tag, t); LookupPrefix(w, x, t); }
    }
    ViewWithout(l, dir, tag);
    ViewLookup(l, dir, tag);
  }

  /** The environment deletes a tag's file, or leaves something unreadable in its place. */
  lemma LoseRefines(l: Index, dir: Directory, fileName: string -> string, now: nat, tag: string, dir': Directory)
    requires Coherent(l, dir, fileName, now) && Injective(fileName)
    requires forall f | f != fileName(tag) :: (f in dir' <==> f in dir) && (f in dir ==> dir'[f] == dir[f])
    requires fileName(tag) in dir' ==> dir'[fileName(tag)].content.Unreadable?
    ensures Coherent(l, dir', fileName, now) && View(l, dir') == LoseSlots(View(l, dir), tag)
  {
    forall i | 0 <= i < |l|
      ensures Body(dir', l[i].value) == if l[i].tag == tag then None else Body(dir, l[i].value)
    {
      assert l[i].value == fileName(tag) <==> l[i].tag == tag;
    }
  }

  lemma NamesCons(l: Index, k: nat)
    requires 0 < k <= |l|
    ensures Names(l[..k]) == {l[0].value} + Names(l[1..][..k - 1])
  {
    var rest := l[1..][..k - 1];
    assert l[..k] == [l[0]] + rest;
    forall f ensures f in Names(l[..k]) <==> f in {l[0].value} + Names(rest) {
      if f in Names(l[..k]) {
        var i :| 0 <= i < k && l[..k][i].value == f;
        assert i > 0 ==> rest[i - 1].value == f;
      }
      if f in Names(rest) {
        var i :| 0 <= i < k - 1 && rest[i].value == f;
        assert l[..k][i + 1].value == f;
      }
      assert l[..k][0].value == l[0].value;
    }
  }

  lemma NamesSnoc(l: Index, k: nat)
    requires k < |l|
    ensures Names(l[..k + 1]) == Names(l[..k]) + {l[k].value}
  {
  }

  lemma ShedMore(l: Index, room: int)
    requires Total(l) > room && l != [] && Distinct(l)
    ensures Shed(l, room) == Shed(l[1..], room) && Total(l) == l[0].nbytes + Total(l[1..]) && Distinct(l[1..])
  {
  }

  lemma ShedDone(l: Index, room: nat)
    requires l == [] || Total(l) <= room
    ensures Shed(l, room) == l && Total(l) <= room
  {
  }

  lemma NoNames(l: Index, dir: Directory)
    ensures dir - Names(l[..0]) == dir && l[0..] == l
  {
  }

  lemma MinusMinus(dir: Directory, a: set<string>, b: set<string>)
    ensures dir - a - b == dir - (a + b)
  {
  }

  lemma StoreOver(dir: Directory, f: string, gone: set<string>, file: File)
    ensures (dir - {f} - gone)[f := file] == (dir - gone)[f := file]
  {
  }

  lemma CoherentLater(l: Index, dir: Directory, fileName: string -> string, now: nat)
    requires Coherent(l, dir, fileName, now)
    ensures Coherent(l, dir, fileName, now + 1)
  {
  }

  lemma CoherentAt(l: Index, dir: Directory, fileName: string -> string, now: nat)
    requires Coherent(l, dir, fileName, now)
    ensures Distinct(l) && Distinct(View(l, dir)) && (l != [] ==> l[0].value == fileName(l[0].tag))
  {
  }

  lemma ShedUnfold<V(!new)>(l: seq<Item<V>>, room: int)
    ensures if l == [] || Total(l) <= room then Shed(l, room) == l
            else Shed(l, room) == Shed(l[1..], room) && |Shed(l, room)| < |l|
  {
  }

  lemma ViewFront(l: Index, dir: Directory)
    requires l != []
    ensures View(l, dir) != [] && View(l, dir)[0].tag == l[0].tag && View(l, dir)[1..] == View(l[1..], dir)
  {
  }

  lemma NamesNone(l: Index)
    ensures Names(l[..0]) == {}
  {
  }

  /** Unlinking the shed prefix. */
  lemma {:induction false} ShedRefines(l: Index, dir: Directory, fileName: string -> string, now: nat, room: int)
    requires Coherent(l, dir, fileName, now) && Injective(fileName)
    ensures var kept := Shed(l, room);
            var dir' := dir - Names(l[..|l| - |kept|]);
            Coherent(kept, dir', fileName, now) && View(kept, dir') == Shed(View(l, dir), room)
  {
    hide *;
    ViewTotal(l, dir);
    ShedUnfold(l, room);
    ShedUnfold(View(l, dir), room);
    CoherentAt(l, dir, fileName, now);
    if l == [] || Total(l) <= room {
      NamesNone(l);
      assert dir - {} == dir;
    } else {
      var x := l[0];
      var k := |l| - |Shed(l, room)|;
      PopRefines(l, dir, fileName, now, x.tag);
      WithoutFront(l);
      ViewFront(l, dir);
      WithoutFront(View(l, dir));
      ShedRefines(l[1..], dir - {x.value}, fileName, now, room);
      NamesCons(l, k);
      MinusMinus(dir, {x.value}, Names(l[1..][..k - 1]));
    }
  }

  lemma ShedHasNot<V(!new)>(l: seq<Item<V>>, room: int, tag: string)
    requires !Has(l, tag)
    ensures !Has(Shed(l, room), tag)
  {
    ShedSuffix(l, room);
  }

  lemma WriteRefines(l: Index, dir: Directory, fileName: string -> string, now: nat, tag: string, data: Data,
                     nbytes: nat, budget: int,
                     kept: Index, gone: set<string>)
    requires Coherent(l, dir, fileName, now) && Injective(fileName) && nbytes <= budget
    requires kept == Shed(Without(l, tag), budget - nbytes)
    requires gone == Names(Without(l, tag)[..|Without(l, tag)| - |kept|])
    ensures Coherent(kept + [Item(tag, nbytes, fileName(tag))],
            (dir - gone)[fileName(tag) := File(Pickle(tag, data), nbytes, now)], fileName, now + 1)
    ensures View(kept + [Item(tag, nbytes, fileName(tag))],
            (dir - gone)[fileName(tag) := File(Pickle(tag, data), nbytes, now)])
         == WriteSlots(View(l, dir), budget, tag, data, nbytes, now)
  {
    hide *;
    var base := dir - {fileName(tag)};
    var x := Item(tag, nbytes, Some(Stored(data, now)));
    CoherentAt(l, dir, fileName, now);
    PopRefines(l, dir, fileName, now, tag);
    ShedRefines(Without(l, tag), base, fileName, now, budget - nbytes);
    WithoutDistinct(l, tag);
    ShedHasNot(Without(l, tag), budget - nbytes, tag);
    assert fileName(tag) !in base - gone;
    StoreRefines(kept, base - gone, fileName, now, tag, data, nbytes);
    StoreOver(dir, fileName(tag), gone, File(Pickle(tag, data), nbytes, now));
    WriteIs(View(l, dir), budget, tag, data, nbytes, now);
  }

  lemma WriteIs(s: Slots, budget: int, tag: string, data: Data, nbytes: nat, now: nat)
    requires nbytes <= budget
    ensures WriteSlots(s, budget, tag, data, nbytes, now)
         == Shed(Without(s, tag), budget - nbytes) + [Item(tag, nbytes, Some(Stored(data, now)))]
  {
  }

  // ---------------------------------------------------------------- warm start

  /** A listing of the directory, oldest first. */
  ghost predicate Listing(files: seq<string>, dir: Directory) {
    && (forall f :: f in files <==> f in dir)
    && (forall i, j | 0 <= i < j < |files| :: files[i] != files[j])
    && (forall i, j | 0 <= i < j < |files| :: dir[files[i]].mtime <= dir[files[j]].mtime)
  }

  function Tag(dir: Directory, f: string): Option<string> {
    if f in dir && dir[f].content.Pickle? then Some(dir[f].content.tag) else None
  }

  /** The last file in the listing that holds its tag. */
  predicate Latest(files: seq<string>, dir: Directory, i: nat) {
    && i < |files| && Tag(dir, files[i]).Some?
    && forall j | i < j < |files| :: Tag(dir, files[j]) != Tag(dir, files[i])
  }

  function LatestItem(files: seq<string>, dir: Directory, j: nat): Item<string>
    requires Latest(files, dir, j)
  {
    Item(dir[files[j]].content.tag, dir[files[j]].nbytes, files[j])
  }

  /** What a warm start must index: of every tag the last file that holds it, in listing order. */
  function KeepLatest(files: seq<string>, dir: Directory, i: nat): Index
    requires i <= |files|
    decreases |files| - i
  {
    if i == |files| then []
    else if Latest(files, dir, i) then
      [LatestItem(files, dir, i)] + KeepLatest(files, dir, i + 1)
    else KeepLatest(files, dir, i + 1)
  }

  lemma LatestSnoc(files: seq<string>, dir: Directory, f: string, i: nat)
    requires i < |files|
    ensures Latest(files + [f], dir, i) <==> Latest(files, dir, i) && Tag(dir, f) != Tag(dir, files[i])
  {
    var g := files + [f];
    assert g[i] == files[i] && g[|files|] == f;
    assert forall j | i < j < |files| :: g[j] == files[j];
    if Latest(files, dir, i) && Tag(dir, f) != Tag(dir, files[i]) {
      forall j | i < j < |g| ensures Tag(dir, g[j]) != Tag(dir, g[i]) {}
    }
    if Latest(g, dir, i) {
      forall j | i < j < |files| ensures Tag(dir, files[j]) != Tag(dir, files[i]) { assert g[j] == files[j]; }
    }
  }

  lemma WithoutCons<V(!new)>(x: Item<V>, l: seq<Item<V>>, t: string)
    ensures Without([x] + l, t) == if x.tag == t then Without(l, t) else [x] + Without(l, t)
  {
    assert ([x] + l)[1..] == l;
  }

  /** One more file at the end supersedes whatever held its tag. */
  lemma {:induction false} KeepLatestSnoc(files: seq<string>, dir: Directory, f: string, i: nat)
    requires i <= |files|
    ensures KeepLatest(files + [f], dir, i) ==
            match Tag(dir, f)
            case None => KeepLatest(files, dir, i)
            case Some(t) => Without(KeepLatest(files, dir, i), t) + [Item(t, dir[f].nbytes, f)]
    decreases |files| - i
  {
    if i == |files| {
      assert KeepLatest(files + [f], dir, i + 1) == [];
    } else {
      KeepLatestSnoc(files, dir, f, i + 1);
      LatestSnoc(files, dir, f, i);
      if Latest(files, dir, i) && Tag(dir, f).Some? {
        WithoutCons(LatestItem(files, dir, i), KeepLatest(files, dir, i + 1), Tag(dir, f).value);
      }
    }
  }

  lemma {:induction false} KeepLatestAt(files: seq<string>, dir: Directory, i: nat, k: nat) returns (j: nat)
    requires i <= |files| && k < |KeepLatest(files, dir, i)|
    ensures i <= j < |files| && Latest(files, dir, j)
    ensures KeepLatest(files, dir, i)[k] == LatestItem(files, dir, j)
    decreases |files| - i
  {
    if Latest(files, dir, i) && k == 0 {
      j := i;
    } else {
      j := KeepLatestAt(files, dir, i + 1, if Latest(files, dir, i) then k - 1 else k);
    }
  }

  lemma {:induction false} KeepLatestPair(files: seq<string>, dir: Directory, i: nat, a: nat, b: nat)
    returns (p: nat, q: nat)
    requires i <= |files| && a < b < |KeepLatest(files, dir, i)|
    ensures i <= p < q < |files| && Latest(files, dir, p) && Latest(files, dir, q)
    ensures KeepLatest(files, dir, i)[a] == LatestItem(files, dir, p)
    ensures KeepLatest(files, dir, i)[b] == LatestItem(files, dir, q)
    decreases |files| - i
  {
    if !Latest(files, dir, i) {
      p, q := KeepLatestPair(files, dir, i + 1, a, b);
    } else if a > 0 {
      p, q := KeepLatestPair(files, dir, i + 1, a - 1, b - 1);
    } else {
      p := i;
      q := KeepLatestAt(files, dir, i + 1, b - 1);
    }
  }

  /** On a coherent directory nothing is superseded: every readable file is indexed. */
  lemma {:induction false} KeepLatestHolds(files: seq<string>, dir: Directory, i: nat, j: nat)
    requires i <= j < |files| && Latest(files, dir, j)
    ensures LatestItem(files, dir, j) in KeepLatest(files, dir, i)
    decreases |files| - i
  {
    if i < j { KeepLatestHolds(files, dir, i + 1, j); }
  }

  ghost predicate StrictStamps(s: Slots) {
    AllReadable(s) && forall i, j | 0 <= i < j < |s| :: s[i].value.value.stamp < s[j].value.value.stamp
  }

  lemma StrictTail(a: Slots, x: Item<Option<Stored>>)
    requires StrictStamps(a) && a != []
    ensures x in a[1..] <==> x in a && x != a[0]
  {
    if x in a && x != a[0] {
      var i :| 0 <= i < |a| && a[i] == x;
      assert a[1..][i - 1] == x;
    }
    if x in a[1..] {
      var i :| 0 <= i < |a[1..]| && a[1..][i] == x;
      assert a[i + 1] == x;
    }
  }

  lemma StrictHeads(a: Slots, b: Slots)
    requires StrictStamps(a) && StrictStamps(b) && a != [] && b != [] && a[0] in b && b[0] in a
    ensures a[0] == b[0]
  {
    var j :| 0 <= j < |b| && b[j] == a[0];
    var k :| 0 <= k < |a| && a[k] == b[0];
  }

  lemma BothEmpty(a: Slots, b: Slots)
    requires forall x :: x in a <==> x in b
    ensures a == [] <==> b == []
  {
    assert a != [] ==> a[0] in b;
    assert b != [] ==> b[0] in a;
  }

  /** A list in strict stamp order is determined by its items. */
  lemma {:induction false} StampOrderUnique(a: Slots, b: Slots)
    requires StrictStamps(a) && StrictStamps(b) && forall x :: x in a <==> x in b
    ensures a == b
  {
    BothEmpty(a, b);
    if a != [] {
      assert a[0] in b;
      assert b[0] in a;
      StrictHeads(a, b);
      forall x ensures x in a[1..] <==> x in b[1..] { StrictTail(a, x); StrictTail(b, x); }
      StampOrderUnique(a[1..], b[1..]);
    }
  }

  lemma WarmMemberViewed(l: Index, dir: Directory, fileName: string -> string, now: nat, files: seq<string>, k: nat)
    requires Coherent(l, dir, fileName, now) && Listing(files, dir) && k < |KeepLatest(files, dir, 0)|
    ensures View(KeepLatest(files, dir, 0), dir)[k] in View(l, dir)
            && View(KeepLatest(files, dir, 0), dir)[k].value.Some?
  {
    var x := View(KeepLatest(files, dir, 0), dir)[k];
    var j := KeepLatestAt(files, dir, 0, k);
    hide KeepLatest; hide View;
    var f := files[j];
    assert f in files;
    var y := Lookup(l, dir[f].content.tag);
    assert y in l;
    var i :| 0 <= i < |l| && l[i] == y;
    assert View(l, dir)[i] == x;
  }

  lemma ViewedIsLatest(l: Index, dir: Directory, fileName: string -> string, now: nat, files: seq<string>, i: nat)
    requires Coherent(l, dir, fileName, now) && Injective(fileName) && Listing(files, dir)
    requires i < |l| && View(l, dir)[i].value.Some?
    ensures Item(l[i].tag, l[i].nbytes, l[i].value) in KeepLatest(files, dir, 0)
  {
    var f := l[i].value;
    assert f in files;
    var j :| 0 <= j < |files| && files[j] == f;
    LookupIs(l, i);
    hide KeepLatest; hide View;
    assert Latest(files, dir, j) by {
      forall m | j < m < |files| ensures Tag(dir, files[m]) != Tag(dir, f) { assert files[m] in files; }
    }
    KeepLatestHolds(files, dir, 0, j);
  }

  /** The readable items of a coherent cache, found through their files. */
  lemma WarmMembers(l: Index, dir: Directory, fileName: string -> string, now: nat, files: seq<string>,
                    x: Item<Option<Stored>>)
    requires Coherent(l, dir, fileName, now) && Injective(fileName) && Listing(files, dir)
    ensures x in View(KeepLatest(files, dir, 0), dir) <==> x in View(l, dir) && x.value.Some?
  {
    hide *;
    var w := KeepLatest(files, dir, 0);
    if x in View(w, dir) {
      var k :| 0 <= k < |w| && View(w, dir)[k] == x;
      WarmMemberViewed(l, dir, fileName, now, files, k);
    }
    if x in View(l, dir) && x.value.Some? {
      var i :| 0 <= i < |l| && View(l, dir)[i] == x;
      ViewedIsLatest(l, dir, fileName, now, files, i);
      var k :| 0 <= k < |w| && w[k] == l[i];
      assert View(w, dir)[k] == x;
    }
  }

  lemma WarmStrict(dir: Directory, fileName: string -> string, l: Index, now: nat, files: seq<string>)
    requires Coherent(l, dir, fileName, now) && Listing(files, dir)
    ensures StrictStamps(View(KeepLatest(files, dir, 0), dir)) && Distinct(KeepLatest(files, dir, 0))
  {
    var w := KeepLatest(files, dir, 0);
    forall a | 0 <= a < |w| ensures Body(dir, w[a].value).Some? { var j := KeepLatestAt(files, dir, 0, a); }
    forall a, b | 0 <= a < b < |w|
      ensures dir[w[a].value].mtime < dir[w[b].value].mtime && w[a].tag != w[b].tag
    {
      var p, q := KeepLatestPair(files, dir, 0, a, b);
      assert files[p] in files && files[q] in files;
    }
  }

  /** Two items of a coherent cache that were written at the same time are one item. */
  lemma StampsDiffer(l: Index, dir: Directory, fileName: string -> string, now: nat, x: Item<Option<Stored>>,
                     y: Item<Option<Stored>>)
    requires Coherent(l, dir, fileName, now) && Injective(fileName) && x in View(l, dir) && y in View(l, dir)
    requires x.value.Some? && y.value.Some? && x.value.value.stamp == y.value.value.stamp
    ensures x.tag == y.tag
  {
    var a :| 0 <= a < |l| && View(l, dir)[a] == x;
    var b :| 0 <= b < |l| && View(l, dir)[b] == y;
  }

  lemma RestartStrict(l: Index, dir: Directory, fileName: string -> string, now: nat)
    requires Coherent(l, dir, fileName, now) && Injective(fileName)
    ensures StrictStamps(ByStamp(Readable(View(l, dir))))
  {
    var s := Readable(View(l, dir));
    ByStampOrdered(s);
    ReadableDistinct(View(l, dir));
    ByStampDistinct(s);
    var q := ByStamp(s);
    ByStampMembers(s);
    ReadableMembers(View(l, dir));
    forall i, j | 0 <= i < j < |q| ensures q[i].value.value.stamp < q[j].value.value.stamp {
      assert q[i] in q && q[j] in q;
      if q[i].value.value.stamp == q[j].value.value.stamp { StampsDiffer(l, dir, fileName, now, q[i], q[j]); }
    }
  }

  lemma WarmCoherent(l: Index, dir: Directory, fileName: string -> string, now: nat, files: seq<string>)
    requires Coherent(l, dir, fileName, now) && Injective(fileName) && Listing(files, dir)
    ensures Coherent(KeepLatest(files, dir, 0), dir, fileName, now)
  {
    var w := KeepLatest(files, dir, 0);
    WarmStrict(dir, fileName, l, now, files);
    forall i | 0 <= i < |w| ensures w[i].value == fileName(w[i].tag) {
      var j := KeepLatestAt(files, dir, 0, i);
      assert files[j] in files;
    }
    forall f | f in dir && dir[f].content.Pickle?
      ensures Has(w, dir[f].content.tag) && Lookup(w, dir[f].content.tag).nbytes == dir[f].nbytes
    {
      assert f in files;
      var j :| 0 <= j < |files| && files[j] == f;
      assert Latest(files, dir, j) by {
        forall m | j < m < |files| ensures Tag(dir, files[m]) != Tag(dir, f) { assert files[m] in files; }
      }
      KeepLatestHolds(files, dir, 0, j);
      var k :| 0 <= k < |w| && w[k] == Item(dir[f].content.tag, dir[f].nbytes, f);
      LookupIs(w, k);
    }
  }

  /** Restart round trip: warm-starting on what a coherent cache left behind is the reference restart. */
  lemma WarmStartRefines(l: Index, dir: Directory, fileName: string -> string, now: nat, files: seq<string>,
                         budget: int, budget': int)
    requires Coherent(l, dir, fileName, now) && Injective(fileName) && Listing(files, dir)
    ensures Coherent(KeepLatest(files, dir, 0), dir, fileName, now)
    ensures View(KeepLatest(files, dir, 0), dir) == RestartModel(Model(View(l, dir), budget), budget').slots
  {
    WarmCoherent(l, dir, fileName, now, files);
    WarmStrict(dir, fileName, l, now, files);
    RestartStrict(l, dir, fileName, now);
    var a, b := View(KeepLatest(files, dir, 0), dir), ByStamp(Readable(View(l, dir)));
    forall x ensures x in a <==> x in b {
      WarmMembers(l, dir, fileName, now, files, x);
      ReadableMembers(View(l, dir));
      ByStampMembers(Readable(View(l, dir)));
    }
    StampOrderUnique(a, b);
  }

  lemma NameOfEntry(l: Index, dir: Directory, fileName: string -> string, now: nat, tag: string)
    requires Coherent(l, dir, fileName, now) && Has(l, tag)
    ensures Lookup(l, tag).value == fileName(tag)
  {
    var x := Lookup(l, tag);
    var i :| 0 <= i < |l| && l[i] == x;
  }

  lemma PopLater(l: Index, dir: Directory, fileName: string -> string, now: nat, tag: string)
    requires Coherent(l, dir, fileName, now) && Injective(fileName) && Has(l, tag)
    ensures var l', dir' := Without(l, tag), dir - {Lookup(l, tag).value};
            Coherent(l', dir', fileName, now + 1) && View(l', dir') == Without(View(l, dir), tag)
  {
    hide *;
    PopRefines(l, dir, fileName, now, tag);
    NameOfEntry(l, dir, fileName, now, tag);
    CoherentLater(Without(l, tag), dir - {fileName(tag)}, fileName, now);
  }

  lemma TouchLater(l: Index, dir: Directory, fileName: string -> string, now: nat, tag: string)
    requires Coherent(l, dir, fileName, now) && Has(l, tag)
    ensures Has(View(l, dir), tag)
    ensures var l' := Without(l, tag) + [Lookup(l, tag)];
            Coherent(l', dir, fileName, now + 1)
              && View(l', dir) == Without(View(l, dir), tag) + [Lookup(View(l, dir), tag)]
  {
    hide *;
    ViewHas(l, dir, tag);
    TouchRefines(l, dir, fileName, now, tag);
    CoherentLater(Without(l, tag) + [Lookup(l, tag)], dir, fileName, now);
  }

  lemma DropLater(l: Index, dir: Directory, fileName: string -> string, now: nat, tag: string)
    requires Coherent(l, dir, fileName, now) && Has(l, tag) && Body(dir, Lookup(l, tag).value).None?
    ensures Coherent(Without(l, tag), dir, fileName, now + 1)
            && View(Without(l, tag), dir) == Without(View(l, dir), tag)
  {
    hide *;
    DropRefines(l, dir, fileName, now, tag);
    CoherentLater(Without(l, tag), dir, fileName, now);
  }

  lemma NothingIndexed()
    ensures Distinct<string>([]) && Total<string>([]) == 0
  {
  }

  lemma NothingKept(files: seq<string>, dir: Directory)
    ensures KeepLatest(files[..0], dir, 0) == [] && Distinct<string>([]) && Total<string>([]) == 0
  {
  }

  lemma UnreadableCoherent(dir: Directory, fileName: string -> string, now: nat)
    requires forall f | f in dir :: dir[f].content.Unreadable?
    ensures Coherent([], dir, fileName, now)
  {
  }

  // ---------------------------------------------------------------- the actor

  class Cache {
    const budget: int
    const fileName: string -> string        // slug plus hash suffix
    const sizeOf: (string, Data) -> nat     // length of the pickle of (tag, data)
    var index: Index
    var sizeBytes: int
    var disk: Directory

    /** The counter is the sum of the indexed sizes. */
    ghost predicate Valid()
      reads this
    {
      Distinct(index) && sizeBytes == Total(index)
    }

    ghost function Slots(): Slots
      reads this
    {
      View(index, disk)
    }

    ghost predicate InStep(now: nat)
      reads this
    {
      Valid() && Injective(fileName) && Coherent(index, disk, fileName, now)
    }

    /** Start on an existing directory; never evicts. */
    constructor (dir: Directory, files: seq<string>, budget: int, fileName: string -> string,
                 sizeOf: (string, Data) -> nat)
      requires Listing(files, dir)
      ensures Valid() && this.budget == budget && this.fileName == fileName && this.sizeOf == sizeOf
      ensures disk == dir && index == KeepLatest(files, dir, 0)
    {
      this.budget, this.fileName, this.sizeOf := budget, fileName, sizeOf;
      disk, index, sizeBytes := dir, [], 0;
      new;
      WarmStart(files);
    }

    method WarmStart(files: seq<string>)
      requires Listing(files, disk) && index == [] && sizeBytes == 0
      modifies `index, `sizeBytes
      ensures Valid() && index == KeepLatest(files, disk, 0)
    {
      hide KeepLatest; hide Distinct; hide Total; hide Without; hide Has;
      var i := 0;
      NothingKept(files, disk);
      while i < |files|
        invariant 0 <= i <= |files| && Valid()
        invariant index == KeepLatest(files[..i], disk, 0)
      {
        var f := files[i];
        KeepLatestSnoc(files[..i], disk, f, 0);
        assert files[..i + 1] == files[..i] + [f];
        assert f in files;
        i := i + 1;
        match disk[f].content {
          case Unreadable =>
          case Pickle(tag, _) =>
            WithoutDistinct(index, tag);
            Pop(tag);
            AppendItem(index, Item(tag, disk[f].nbytes, f));
            index := index + [Item(tag, disk[f].nbytes, f)];
            sizeBytes := sizeBytes + disk[f].nbytes;
        }
      }
      assert files[..i] == files;
    }

    /** Take a tag's entry, if there is one, and its bytes out of the accounts. */
    method Pop(tag: string)
      requires Valid()
      modifies `index, `sizeBytes
      ensures Valid() && index == Without(old(index), tag)
    {
      TotalWithout(index, tag);
      WithoutDistinct(index, tag);
      if Has(index, tag) {
        sizeBytes := sizeBytes - Lookup(index, tag).nbytes;
        index := Without(index, tag);
      } else {
        WithoutAbsent(index, tag);
      }
    }

    /** Evict and unlink least recently used entries until the new item fits. */
    method MakeRoom(nbytes: nat)
      requires Valid() && nbytes <= budget
      modifies `index, `sizeBytes, `disk
      ensures Valid() && sizeBytes + nbytes <= budget
      ensures index == Shed(old(index), budget - nbytes)
      ensures disk == old(disk) - Names(old(index)[..|old(index)| - |index|])
    {
      hide Total; hide Shed; hide Distinct; hide Names;
      ghost var k, all := 0, index;
      NoNames(all, disk);
      while sizeBytes + nbytes > budget && index != []
        invariant Valid() && 0 <= k <= |all| && index == all[k..]
        invariant Shed(index, budget - nbytes) == Shed(all, budget - nbytes)
        invariant disk == old(disk) - Names(all[..k])
      {
        var victim := index[0];
        NamesSnoc(all, k);
        MinusMinus(old(disk), Names(all[..k]), {victim.value});
        ShedMore(index, budget - nbytes);
        index := index[1..];
        sizeBytes := sizeBytes - victim.nbytes;
        disk := disk - {victim.value};
        k := k + 1;
      }
      ShedDone(index, budget - nbytes);
    }

    /** Store (tag, data), evicting the least recently used entries as needed; a single item larger
        than the whole budget is skipped and leaves the older value in place. */
    method Write(tag: string, data: Data, now: nat) returns (stored: bool)
      requires Valid()
      modifies `index, `sizeBytes, `disk
      ensures Valid() && stored == (sizeOf(tag, data) <= budget)
      ensures !stored ==> unchanged(this)
      ensures stored ==>
                var n := sizeOf(tag, data);
                var others := Without(old(index), tag);
                var kept := Shed(others, budget - n);
                && index == kept + [Item(tag, n, fileName(tag))]
                && sizeBytes <= budget
                && var file := File(Pickle(tag, data), n, now);
                   disk == (old(disk) - Names(others[..|others| - |kept|]))[fileName(tag) := file]
      ensures old(InStep(now)) ==>
                InStep(now + 1) && Slots() == WriteSlots(old(Slots()), budget, tag, data, sizeOf(tag, data), now)
    {
      hide Coherent; hide View; hide Without; hide Shed; hide Total; hide Distinct; hide Has; hide Names;
      hide Injective;
      var nbytes := sizeOf(tag, data);
      if nbytes > budget {
        if InStep(now) { CoherentLater(index, disk, fileName, now); }
        return false;
      }
      Pop(tag);
      MakeRoom(nbytes);
      ghost var kept, gone := index, Names(Without(old(index), tag)[..|Without(old(index), tag)| - |index|]);
      WithoutDistinct(old(index), tag);
      ShedHasNot(Without(old(index), tag), budget - nbytes, tag);
      AppendItem(index, Item(tag, nbytes, fileName(tag)));
      disk := disk[fileName(tag) := File(Pickle(tag, data), nbytes, now)];
      index := index + [Item(tag, nbytes, fileName(tag))];
      sizeBytes := sizeBytes + nbytes;
      stored := true;
      if old(InStep(now)) { WriteRefines(old(index), old(disk), fileName, now, tag, data, nbytes, budget, kept, gone); }
    }

    /** A hit returns the file's value and marks the tag most recently used; a missing or unreadable
        file drops the entry. */
    method Read(tag: string, ghost now: nat) returns (value: Option<Data>)
      requires Valid()
      modifies `index, `sizeBytes
      ensures Valid()
      ensures value == if Has(old(index), tag) && Body(disk, Lookup(old(index), tag).value).Some?
                       then Some(Body(disk, Lookup(old(index), tag).value).value.data) else None
      ensures index == if !Has(old(index), tag) then old(index)
                       else if value.None? then Without(old(index), tag)
                       else Without(old(index), tag) + [Lookup(old(index), tag)]
      ensures old(InStep(now)) ==>
                InStep(now + 1) && value == ReadValue(old(Slots()), tag) && Slots() == ReadSlots(old(Slots()), tag)
    {
      hide Coherent; hide View; hide Without; hide Total; hide Distinct; hide Has; hide Lookup; hide Injective;
      if InStep(now) { CoherentLater(index, disk, fileName, now); }
      ViewHas(index, disk, tag);
      if !Has(index, tag) { return None; }
      var x := Lookup(index, tag);
      TotalWithout(index, tag);
      WithoutDistinct(index, tag);
      ViewLookup(index, disk, tag);
      if x.value in disk && disk[x.value].content.Pickle? {
        if InStep(now) { TouchLater(index, disk, fileName, now, tag); }
        AppendItem(Without(index, tag), x);
        index := Without(index, tag) + [x];
        value := Some(disk[x.value].content.data);
      } else {
        if InStep(now) { DropLater(index, disk, fileName, now, tag); }
        sizeBytes := sizeBytes - x.nbytes;
        index := Without(index, tag);
        value := None;
      }
    }

    method Evict(tag: string, ghost now: nat) returns (removed: bool)
      requires Valid()
      modifies `index, `sizeBytes, `disk
      ensures Valid() && removed == Has(old(index), tag)
      ensures index == Without(old(index), tag)
      ensures disk == if removed then old(disk) - {Lookup(old(index), tag).value} else old(disk)
      ensures old(InStep(now)) ==> InStep(now + 1) && Slots() == Without(old(Slots()), tag)
    {
      hide Coherent; hide View; hide Without; hide Total; hide Distinct; hide Has; hide Lookup; hide Injective;
      if !Has(index, tag) {
        if InStep(now) { CoherentLater(index, disk, fileName, now); }
        WithoutAbsent(index, tag);
        ViewHas(index, disk, tag);
        WithoutAbsent(View(index, disk), tag);
        return false;
      }
      var x := Lookup(index, tag);
      TotalWithout(index, tag);
      WithoutDistinct(index, tag);
      if InStep(now) { PopLater(index, disk, fileName, now, tag); }
      sizeBytes := sizeBytes - x.nbytes;
      index := Without(index, tag);
      disk := disk - {x.value};
      removed := true;
    }

    method Flush(ghost now: nat)
      requires Valid()
      modifies `index, `sizeBytes, `disk
      ensures Valid() && index == [] && disk == old(disk) - Names(old(index))
      ensures old(InStep(now)) ==> InStep(now + 1)
    {
      hide Names; hide Total; hide Has; hide Lookup; hide Coherent;
      var i := 0;
      NoNames(index, disk);
      while i < |index|
        invariant 0 <= i <= |index| && unchanged(`index) && disk == old(disk) - Names(index[..i])
      {
        NamesSnoc(index, i);
        MinusMinus(old(disk), Names(index[..i]), {index[i].value});
        disk := disk - {index[i].value};
        i := i + 1;
      }
      assert index[..i] == index;
      forall f | old(InStep(now)) && f in disk ensures disk[f].content.Unreadable? {
        if disk[f].content.Pickle? { ReadableIsIndexed(index, old(disk), fileName, now, f); }
      }
      NothingIndexed();
      if old(InStep(now)) { UnreadableCoherent(disk, fileName, now + 1); }
      index, sizeBytes := [], 0;
    }

    /** The environment destroys a tag's file. */
    method Lose(tag: string, left: Option<File>, ghost now: nat)
      requires Valid() && (left.Some? ==> left.value.content.Unreadable?)
      modifies `disk
      ensures Valid()
      ensures disk == if left.Some? then old(disk)[fileName(tag) := left.value] else old(disk) - {fileName(tag)}
      ensures old(InStep(now)) ==> InStep(now + 1) && Slots() == LoseSlots(old(Slots()), tag)
    {
      var dir' := if left.Some? then disk[fileName(tag) := left.value] else disk - {fileName(tag)};
      if InStep(now) { LoseRefines(index, disk, fileName, now, tag, dir'); }
      disk := dir';
    }
  }

  lemma AppendItem<V(!new)>(l: seq<Item<V>>, x: Item<V>)
    requires Distinct(l) && !Has(l, x.tag)
    ensures Distinct(l + [x]) && Total(l + [x]) == Total(l) + x.nbytes
  {
    TotalAppend(l, [x]);
    assert Total([x]) == x.nbytes + Total<V>([]);
  }

  lemma ReadableIsIndexed(l: Index, dir: Directory, fileName: string -> string, now: nat, f: string)
    requires Coherent(l, dir, fileName, now) && f in dir && dir[f].content.Pickle?
    ensures f in Names(l)
  {
    var x := Lookup(l, dir[f].content.tag);
    var j :| 0 <= j < |l| && l[j] == x;
    assert l[j].value == f;
  }

  /** A miss on an indexed tag drops an item whose file is not readable. */
  lemma DropRefines(l: Index, dir: Directory, fileName: string -> string, now: nat, tag: string)
    requires Coherent(l, dir, fileName, now) && Has(l, tag) && Body(dir, Lookup(l, tag).value).None?
    ensures Coherent(Without(l, tag), dir, fileName, now) && View(Without(l, tag), dir) == Without(View(l, dir), tag)
  {
    var l' := Without(l, tag);
    WithoutDistinct(l, tag);
    forall i | 0 <= i < |l'| ensures l'[i].value == fileName(l'[i].tag) { WithoutAt(l, tag, i); }
    forall f | f in dir && dir[f].content.Pickle?
      ensures Has(l', dir[f].content.tag) && Lookup(l', dir[f].content.tag).nbytes == dir[f].nbytes
    {
      var x := Lookup(l, tag);
      var i :| 0 <= i < |l| && l[i] == x;
      WithoutLookup(l, tag, dir[f].content.tag);
    }
    ViewWithout(l, dir, tag);
  }

  // ---------------------------------------------------------------- whole runs

  predicate Oldest(rest: set<string>, dir: Directory, f: string)
    requires rest <= dir.Keys && f in rest
  {
    forall g | g in rest :: dir[f].mtime <= dir[g].mtime
  }

  /** The listed files are the oldest, in order, and `rest` is to come. */
  ghost predicate Listed(files: seq<string>, rest: set<string>, dir: Directory) {
    && rest <= dir.Keys
    && (forall f :: f in files <==> f in dir && f !in rest)
    && (forall i, j | 0 <= i < j < |files| :: files[i] != files[j] && dir[files[i]].mtime <= dir[files[j]].mtime)
    && (forall i, f | 0 <= i < |files| && f in rest :: dir[files[i]].mtime <= dir[f].mtime)
  }

  lemma ListedNone(dir: Directory)
    ensures Listed([], dir.Keys, dir)
  {
  }

  lemma ListedSnoc(files: seq<string>, rest: set<string>, dir: Directory, f: string)
    requires rest <= dir.Keys && Listed(files, rest, dir) && f in rest && Oldest(rest, dir, f)
    ensures Listed(files + [f], rest - {f}, dir)
  {
    assert forall i | 0 <= i < |files| :: files[i] in files;
  }

  lemma ListedAll(files: seq<string>, dir: Directory)
    requires Listed(files, {}, dir)
    ensures Listing(files, dir)
  {
  }

  lemma {:induction false} OldestExists(rest: set<string>, dir: Directory) returns (f: string)
    requires rest != {} && rest <= dir.Keys
    ensures f in rest && Oldest(rest, dir, f)
    decreases rest
  {
    f :| f in rest;
    if rest != {f} {
      var g := OldestExists(rest - {f}, dir);
      if dir[g].mtime < dir[f].mtime { f := g; }
    }
  }

  /** The directory's files sorted by modification time. */
  method ListDirectory(dir: Directory) returns (files: seq<string>)
    ensures Listing(files, dir)
  {
    hide *;
    files := [];
    var rest := dir.Keys;
    ListedNone(dir);
    while rest != {}
      invariant rest <= dir.Keys && Listed(files, rest, dir)
      decreases rest
    {
      ghost var oldest := OldestExists(rest, dir);
      var f :| f in rest && Oldest(rest, dir, f);
      ListedSnoc(files, rest, dir, f);
      files := files + [f];
      rest := rest - {f};
    }
    ListedAll(files, dir);
  }

  lemma RunSnoc(m: Model, ops: seq<Op>, i: nat, sizeOf: (string, Data) -> nat)
    requires i < |ops|
    ensures var before := Run(m, ops[..i], sizeOf);
            var (after, out) := Step(before.model, ops[i], i, sizeOf);
            Run(m, ops[..i + 1], sizeOf) == Trace(after, before.outs + [out])
  {
    assert ops[..i + 1][..i] == ops[..i];
  }

  /** One operation, on the actor (a new one after a restart) and on the reference machine. */
  method Perform(c: Cache, op: Op, now: nat) returns (c': Cache, out: Out)
    requires c.InStep(now)
    modifies c
    ensures c' == c || fresh(c')
    ensures c'.InStep(now + 1) && c'.fileName == c.fileName && c'.sizeOf == c.sizeOf
    ensures Step(Model(old(c.Slots()), c.budget), op, now, c.sizeOf) == (Model(c'.Slots(), c'.budget), out)
  {
    hide Coherent; hide View; hide Without; hide Shed; hide Total; hide Distinct; hide Has; hide Injective;
    hide ByStamp; hide Readable; hide Lookup; hide ReadSlots; hide WriteSlots; hide ReadValue;
    c' := c;
    match op {
      case Write(tag, data) =>
        var stored := c.Write(tag, data, now);
        out := Wrote(stored);
      case Read(tag) =>
        var value := c.Read(tag, now);
        out := Got(value);
      case Evict(tag) =>
        ViewHas(c.index, c.disk, tag);
        var removed := c.Evict(tag, now);
        out := Evicted(removed);
      case Flush =>
        c.Flush(now);
        assert c.Slots() == [] by { FlushedView(c.disk); }
        out := Done;
      case Lose(tag) =>
        var corrupt: bool := *;
        c.Lose(tag, if corrupt then Some(File(Unreadable, 0, 0)) else None, now);
        out := Done;
      case Restart(b) =>
        var files := ListDirectory(c.disk);
        WarmStartRefines(c.index, c.disk, c.fileName, now, files, c.budget, b);
        CoherentLater(KeepLatest(files, c.disk, 0), c.disk, c.fileName, now);
        c' := new Cache(c.disk, files, b, c.fileName, c.sizeOf);
        out := Done;
    }
  }

  lemma FlushedView(dir: Directory)
    ensures View([], dir) == []
  {
  }

  /** The actor (restarted where the run says so) and the reference machine answer every operation
      of every run alike and end in the same list. */
  method Drive(ops: seq<Op>, budget: int, fileName: string -> string, sizeOf: (string, Data) -> nat)
    returns (c: Cache, outs: seq<Out>)
    requires Injective(fileName)
    ensures fresh(c) && c.InStep(|ops|) && c.fileName == fileName && c.sizeOf == sizeOf
    ensures Trace(Model(c.Slots(), c.budget), outs) == Run(Model([], budget), ops, sizeOf)
    ensures c.budget == BudgetAt(budget, ops)
    ensures forall i | 0 <= i < |ops| && ops[i].Write? ::
              outs[i] == Wrote(sizeOf(ops[i].tag, ops[i].data) <= BudgetAt(budget, ops[..i]))
  {
    c := new Cache(map[], [], budget, fileName, sizeOf);
    outs := [];
    var i := 0;
    assert View(c.index, c.disk) == [];
    while i < |ops|
      invariant 0 <= i <= |ops| && fresh(c)
      invariant c.InStep(i) && c.fileName == fileName && c.sizeOf == sizeOf
      invariant Trace(Model(c.Slots(), c.budget), outs) == Run(Model([], budget), ops[..i], sizeOf)
    {
      hide *;
      RunSnoc(Model([], budget), ops, i, sizeOf);
      var out;
      c, out := Perform(c, ops[i], i);
      outs := outs + [out];
      i := i + 1;
    }
    assert ops[..i] == ops;
    hide *;
    RestartsSetBudget(Model([], budget), ops, sizeOf);
    forall k | 0 <= k < |ops| && ops[k].Write?
      ensures outs[k] == Wrote(sizeOf(ops[k].tag, ops[k].data) <= BudgetAt(budget, ops[..k]))
    {
      WritesFitTheBudgetOfTheirTime(Model([], budget), ops, sizeOf, k);
    }
  }
}
