/** Worker assignments, shared by placement, bring-up and teardown. */
module Cluster {

  /** One worker: the machine's address, its node type and its index within the type. */
  datatype Key = Key(ip: string, nodeType: string, index: nat)

  ghost predicate DistinctKeys(ks: seq<Key>) {
    forall i, j | 0 <= i < j < |ks| :: ks[i] != ks[j]
  }

  /** How many of the workers are on `ip`. */
  function CountOn(ks: seq<Key>, ip: string): nat {
    if ks == [] then 0 else CountOn(ks[..|ks| - 1], ip) + (if ks[|ks| - 1].ip == ip then 1 else 0)
  }

  /** A worker's position among those on its own machine. */
  function Rank(ks: seq<Key>, j: nat): nat
    requires j < |ks|
  {
    CountOn(ks[..j], ks[j].ip)
  }

  lemma CountOnSnoc(ks: seq<Key>, k: Key, ip: string)
    ensures CountOn(ks + [k], ip) == CountOn(ks, ip) + (if k.ip == ip then 1 else 0)
  {
    assert (ks + [k])[..|ks|] == ks;
  }

  lemma {:induction false} CountOnGrows(ks: seq<Key>, i: nat, j: nat, ip: string)
    requires i <= j <= |ks|
    ensures CountOn(ks[..i], ip) <= CountOn(ks[..j], ip)
  {
    if i < j {
      CountOnGrows(ks, i, j - 1, ip);
      assert ks[..j][..j - 1] == ks[..j - 1];
    }
  }

  /** Workers sharing a machine have different ranks. */
  lemma RankStrict(ks: seq<Key>, i: nat, j: nat)
    requires i < j < |ks| && ks[i].ip == ks[j].ip
    ensures Rank(ks, i) < Rank(ks, j)
  {
    assert ks[..i + 1] == ks[..i] + [ks[i]];
    CountOnSnoc(ks[..i], ks[i], ks[i].ip);
    CountOnGrows(ks, i + 1, j, ks[i].ip);
  }

  /** A machine's workers have exactly the ranks below its count. */
  lemma {:induction false} RankBound(ks: seq<Key>, j: nat)
    requires j < |ks|
    ensures Rank(ks, j) < CountOn(ks, ks[j].ip)
  {
    assert ks[..j + 1] == ks[..j] + [ks[j]];
    CountOnSnoc(ks[..j], ks[j], ks[j].ip);
    CountOnGrows(ks, j + 1, |ks|, ks[j].ip);
    assert ks[..|ks|] == ks;
  }

  lemma {:induction false} Ranked(ks: seq<Key>, ip: string, rank: nat) returns (j: nat)
    requires rank < CountOn(ks, ip)
    ensures j < |ks| && ks[j].ip == ip && Rank(ks, j) == rank
  {
    var n := |ks| - 1;
    if ks[n].ip == ip && rank == CountOn(ks[..n], ip) {
      j := n;
    } else {
      j := Ranked(ks[..n], ip, rank);
      assert ks[..n][..j] == ks[..j];
    }
  }

  ghost predicate AtMostPerMachine(ps: seq<Key>, n: nat) {
    forall ip :: CountOn(ps, ip) <= n
  }

  ghost predicate CountsOn(idx: map<string, nat>, ps: seq<Key>) {
    forall ip :: (if ip in idx then idx[ip] else 0) == CountOn(ps, ip)
  }

  lemma CountsSnoc(idx: map<string, nat>, ps: seq<Key>, k: Key)
    requires CountsOn(idx, ps)
    ensures CountsOn(idx[k.ip := CountOn(ps, k.ip) + 1], ps + [k])
  {
    forall ip { CountOnSnoc(ps, k, ip); }
    hide CountOn;
  }

  // ---------------------------------------------------------------- some of the workers, in their order

  /** How many of the workers are of a kind. */
  ghost function CountIf(ks: seq<Key>, f: Key -> bool): nat {
    if ks == [] then 0 else CountIf(ks[..|ks| - 1], f) + (if f(ks[|ks| - 1]) then 1 else 0)
  }

  /** How many of the workers are of a kind and on `ip`. */
  ghost function CountIfOn(ks: seq<Key>, f: Key -> bool, ip: string): nat {
    if ks == [] then 0
    else CountIfOn(ks[..|ks| - 1], f, ip) + (if f(ks[|ks| - 1]) && ks[|ks| - 1].ip == ip then 1 else 0)
  }

  /** The workers of a kind. */
  ghost function Filter(ks: seq<Key>, f: Key -> bool): seq<Key> {
    if ks == [] then [] else Filter(ks[..|ks| - 1], f) + (if f(ks[|ks| - 1]) then [ks[|ks| - 1]] else [])
  }

  lemma FilterSnoc(ks: seq<Key>, f: Key -> bool, k: Key, ip: string)
    ensures Filter(ks + [k], f) == Filter(ks, f) + (if f(k) then [k] else [])
    ensures CountIf(ks + [k], f) == CountIf(ks, f) + (if f(k) then 1 else 0)
    ensures CountIfOn(ks + [k], f, ip) == CountIfOn(ks, f, ip) + (if f(k) && k.ip == ip then 1 else 0)
  {
    assert (ks + [k])[..|ks|] == ks;
  }

  lemma {:induction false} FilterCounts(ks: seq<Key>, f: Key -> bool, ip: string)
    ensures |Filter(ks, f)| == CountIf(ks, f) && CountOn(Filter(ks, f), ip) == CountIfOn(ks, f, ip)
  {
    if ks != [] {
      var n := |ks| - 1;
      FilterCounts(ks[..n], f, ip);
      assert ks == ks[..n] + [ks[n]];
      FilterSnoc(ks[..n], f, ks[n], ip);
      CountOnSnoc(Filter(ks[..n], f), ks[n], ip);
      hide *;
      assert Filter(ks[..n], f) + [] == Filter(ks[..n], f);
    }
  }

  /** A worker of the kind stands after those before it. */
  lemma {:induction false} FilterAt(ks: seq<Key>, f: Key -> bool, q: nat)
    requires q < |ks| && f(ks[q])
    ensures var n := CountIf(ks[..q], f);
            && n < |Filter(ks, f)| && Filter(ks, f)[n] == ks[q] && Filter(ks, f)[..n] == Filter(ks[..q], f)
  {
    hide *;
    var m := |ks| - 1;
    assert ks == ks[..m] + [ks[m]];
    FilterSnoc(ks[..m], f, ks[m], "");
    FilterCounts(ks[..m], f, "");
    if q < m {
      FilterAt(ks[..m], f, q);
      assert ks[..m][..q] == ks[..q];
    }
  }

  lemma {:induction false} FilterFrom(ks: seq<Key>, f: Key -> bool, j: nat) returns (q: nat)
    requires j < |Filter(ks, f)|
    ensures q < |ks| && f(ks[q]) && CountIf(ks[..q], f) == j
  {
    hide *;
    FilterNone(f);
    var m := |ks| - 1;
    assert ks == ks[..m] + [ks[m]];
    FilterSnoc(ks[..m], f, ks[m], "");
    FilterCounts(ks[..m], f, "");
    if j < |Filter(ks[..m], f)| {
      q := FilterFrom(ks[..m], f, j);
      assert ks[..m][..q] == ks[..q];
    } else {
      q := m;
    }
  }

  lemma FilterNone(f: Key -> bool)
    ensures Filter([], f) == []
  {
  }

  lemma {:induction false} FilterAmong(ks: seq<Key>, f: Key -> bool)
    ensures forall k | k in Filter(ks, f) :: k in ks
  {
    if ks != [] {
      FilterAmong(ks[..|ks| - 1], f);
      assert ks == ks[..|ks| - 1] + [ks[|ks| - 1]];
    }
  }

  /** Keys that differ stay different. */
  lemma {:induction false} FilterDistinct(ks: seq<Key>, f: Key -> bool)
    requires DistinctKeys(ks)
    ensures DistinctKeys(Filter(ks, f))
  {
    if ks != [] {
      var n := |ks| - 1;
      FilterDistinct(ks[..n], f);
      FilterAmong(ks[..n], f);
      assert ks[n] !in ks[..n];
      assert forall i | 0 <= i < |Filter(ks[..n], f)| :: Filter(ks[..n], f)[i] in Filter(ks[..n], f);
    }
  }

  lemma {:induction false} CountIfGrows(ks: seq<Key>, f: Key -> bool, i: nat, j: nat)
    requires i <= j <= |ks|
    ensures CountIf(ks[..i], f) <= CountIf(ks[..j], f)
  {
    if i < j {
      CountIfGrows(ks, f, i, j - 1);
      assert ks[..j][..j - 1] == ks[..j - 1];
    }
  }

  lemma CountIfStrict(ks: seq<Key>, f: Key -> bool, i: nat, j: nat)
    requires i < j <= |ks| && f(ks[i])
    ensures CountIf(ks[..i], f) < CountIf(ks[..j], f)
  {
    FilterSnoc(ks[..i], f, ks[i], "");
    assert ks[..i] + [ks[i]] == ks[..i + 1];
    CountIfGrows(ks, f, i + 1, j);
  }
}
