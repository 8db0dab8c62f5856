/**
 Cluster chains of one FAT, as a property of the table alone.

 `fat[c]` is the 28-bit value stored for cluster `c`; the last index is the
 largest valid cluster.
 */
module FatChain {
  import opened Bytes

  const EOC_MIN := 0x0FFF_FFF8
  const BAD := 0x0FFF_FFF7
  const MAX_CLUSTER := 0x0FFF_FFEF

  ghost predicate InRange(fat: seq<nat>, c: nat) {
    2 <= c < |fat|
  }

  /** The table leads from element `i` of `p` to the next. */
  ghost predicate Linked(fat: seq<nat>, p: seq<nat>, i: nat) {
    i + 1 < |p| && p[i] < |fat| && fat[p[i]] == p[i + 1]
  }

  /** `p` starts at `first` and follows the table, staying inside the volume. */
  ghost predicate IsPath(fat: seq<nat>, first: nat, p: seq<nat>) {
    && 0 < |p|
    && p[0] == first
    && (forall i :: 0 <= i < |p| ==> InRange(fat, p[i]))
    && (forall i :: 0 <= i < |p| - 1 ==> Linked(fat, p, i))
  }

  /** A well-formed chain: a duplicate-free path that ends on an end mark. */
  ghost predicate IsChain(fat: seq<nat>, first: nat, p: seq<nat>) {
    && IsPath(fat, first, p)
    && NoDuplicates(p)
    && EOC_MIN <= fat[p[|p| - 1]]
  }

  /** The clusters a reference to `first` denotes, if it denotes any. */
  ghost function Walk(fat: seq<nat>, first: nat): (r: Option<seq<nat>>)
    ensures r.Some? ==> forall i :: 0 <= i < |r.value| ==> InRange(fat, r.value[i])
  {
    if first == 0 then Some([])
    else if exists p :: IsChain(fat, first, p) then
      var p :| IsChain(fat, first, p);
      Some(p)
    else None
  }

  lemma WalkIsChain(fat: seq<nat>, first: nat)
    requires first != 0 && Walk(fat, first).Some?
    ensures IsChain(fat, first, Walk(fat, first).value)
  {
  }

  lemma ChainStartsInRange(fat: seq<nat>, first: nat, p: seq<nat>)
    requires IsChain(fat, first, p)
    ensures InRange(fat, first)
  {
    assert InRange(fat, p[0]);
  }

  /** Two paths from one cluster agree as far as both go. */
  lemma {:induction false} PathsAgree(fat: seq<nat>, first: nat, p: seq<nat>, q: seq<nat>, i: nat)
    requires IsPath(fat, first, p) && IsPath(fat, first, q)
    requires i < |p| && i < |q|
    ensures p[i] == q[i]
  {
    if 0 < i {
      PathsAgree(fat, first, p, q, i - 1);
      assert Linked(fat, p, i - 1) && Linked(fat, q, i - 1);
    }
  }

  /** Every path is a prefix of the chain when there is one. */
  lemma PathIsPrefix(fat: seq<nat>, first: nat, p: seq<nat>, chain: seq<nat>)
    requires |fat| <= MAX_CLUSTER + 1
    requires IsPath(fat, first, p) && IsChain(fat, first, chain)
    ensures |p| <= |chain| && p == chain[..|p|]
  {
    if |chain| < |p| {
      assert Linked(fat, p, |chain| - 1);
      PathsAgree(fat, first, p, chain, |chain| - 1);
    }
    forall i | 0 <= i < |p| ensures p[i] == chain[i] {
      PathsAgree(fat, first, p, chain, i);
    }
  }

  lemma ChainIsUnique(fat: seq<nat>, first: nat, p: seq<nat>, q: seq<nat>)
    requires |fat| <= MAX_CLUSTER + 1
    requires IsChain(fat, first, p) && IsChain(fat, first, q)
    ensures p == q
  {
    PathIsPrefix(fat, first, p, q);
    PathIsPrefix(fat, first, q, p);
  }

  /** Exhibiting a chain determines what the reference denotes. */
  lemma WalkIs(fat: seq<nat>, first: nat, p: seq<nat>)
    requires |fat| <= MAX_CLUSTER + 1
    requires IsChain(fat, first, p)
    ensures first != 0 && Walk(fat, first) == Some(p)
  {
    ChainStartsInRange(fat, first, p);
    WalkIsChain(fat, first);
    ChainIsUnique(fat, first, p, Walk(fat, first).value);
  }

  /** Pigeonhole: distinct in-range clusters are no more than the volume has. */
  lemma DistinctClustersFit(fat: seq<nat>, p: seq<nat>)
    requires NoDuplicates(p)
    requires forall i :: 0 <= i < |p| ==> InRange(fat, p[i])
    requires 2 <= |fat|
    ensures |p| <= |fat| - 2
  {
    ElementsSize(p);
    IntervalSize(2, |fat|);
    var s: set<int> := set c: int | c in p;
    assert s == Elements(p);
    assert s <= Interval(2, |fat|);
    SubsetSize(s, Interval(2, |fat|));
  }

  /** A chain that runs through `p` goes on to a fresh cluster, unless `p` is all of it. */
  lemma ChainContinues(fat: seq<nat>, first: nat, p: seq<nat>, chain: seq<nat>)
    requires |fat| <= MAX_CLUSTER + 1
    requires IsPath(fat, first, p) && IsChain(fat, first, chain)
    requires fat[p[|p| - 1]] < EOC_MIN
    ensures InRange(fat, fat[p[|p| - 1]]) && fat[p[|p| - 1]] !in p
  {
    PathIsPrefix(fat, first, p, chain);
    assert Linked(fat, chain, |p| - 1);
    assert forall i :: 0 <= i < |p| ==> p[i] == chain[i];
  }

  /** No chain continues a path whose next cluster is out of range or already on it. */
  lemma BlockedPathHasNoChain(fat: seq<nat>, first: nat, p: seq<nat>)
    requires |fat| <= MAX_CLUSTER + 1
    requires IsPath(fat, first, p)
    requires fat[p[|p| - 1]] < EOC_MIN
    requires !InRange(fat, fat[p[|p| - 1]]) || fat[p[|p| - 1]] in p
    ensures Walk(fat, first).None?
  {
    assert InRange(fat, p[0]);
    forall chain | IsChain(fat, first, chain) ensures false {
      ChainContinues(fat, first, p, chain);
    }
  }
}
