/** Ownership of clusters in an accepted volume: exactly which overlaps the inspector rules out. */
module FatOwnership {
  import opened Bytes
  import opened ShortNames
  import opened FatChain
  import opened FatGeometry
  import opened FatDirectory
  import opened FatSoundness

  /** The root directory as a record of its own. */
  function RootRecord(root: nat): (r: Record) {
    Record([SLASH], [], 0x10, root, 0, 0, 0)
  }

  /** The records that hold clusters: everything but the dot entries. */
  ghost function Owning(records: seq<Record>): (r: seq<Record>)
    ensures forall x :: x in r <==> x in records && !x.IsDot()
  {
    if records == [] then []
    else if records[0].IsDot() then Owning(records[1..])
    else [records[0]] + Owning(records[1..])
  }

  ghost function Holders(root: nat, records: seq<Record>): (r: seq<Record>) {
    [RootRecord(root)] + Owning(records)
  }

  ghost function Allocated(v: Volume): (s: set<nat>) {
    set c: nat | c in Interval(2, |v.fat|) && v.fat[c] != 0
  }

  /** The tree walk accepts and every nonzero table entry was reached. */
  ghost predicate Accepts(v: Volume, root: nat)
    requires Valid(v)
  {
    && ParseDirectory(v, root, [SLASH], map[], {}).Some?
    && forall c :: c in Allocated(v) ==> c in Tree(v, root).owners
  }

  ghost function Tree(v: Volume, root: nat): (p: Parsed)
    requires Valid(v) && ParseDirectory(v, root, [SLASH], map[], {}).Some?
  {
    ParseDirectory(v, root, [SLASH], map[], {}).value
  }

  /** What acceptance means for table and records, with the recursion left behind. */
  ghost predicate Sound(v: Volume, root: nat, t: Parsed)
    requires Valid(v)
  {
    && Walk(v.fat, root).Some?
    && Charged(Held(v, RootRecord(root)), [SLASH], t.owners)
    && RecordsSound(v, t.records, t.owners)
    && (forall c :: c in t.owners ==> c in Held(v, RootRecord(root)) || Explained(v, c, t.records))
    && (forall c :: c in Allocated(v) ==> c in t.owners)
  }

  lemma AcceptedIsSound(v: Volume, root: nat)
    requires Valid(v) && Accepts(v, root)
    ensures Sound(v, root, Tree(v, root))
  {
    hide ParseDirectory, Walk, ChainOf, ToEndMarker, RecordsSound, Explained, Charged, Allocated, Valid;
    ParseDirectorySound(v, root, [SLASH], map[], {});
  }

  ghost predicate OnChain(v: Volume, c: nat, holders: seq<Record>) {
    exists r :: r in holders && c in ChainOf(v, r.first)
  }

  /** Every cluster on a chain has a nonzero entry. */
  lemma ChainIsAllocated(v: Volume, first: nat, c: nat)
    requires Valid(v) && c in ChainOf(v, first)
    ensures c in Allocated(v)
  {
    var chain := ChainOf(v, first);
    ChainFacts(v, first);
    var i :| 0 <= i < |chain| && chain[i] == c;
    if i < |chain| - 1 {
      assert InRange(v.fat, chain[i + 1]) && Linked(v.fat, chain, i);
    }
  }

  /** Facts about every holder of an accepted volume. */
  lemma HoldersAreCharged(v: Volume, root: nat, t: Parsed, r: Record)
    requires Valid(v) && Sound(v, root, t) && r in Holders(root, t.records)
    ensures Walk(v.fat, r.first).Some? && Charged(Held(v, r), r.path, t.owners)
  {
    if r != RootRecord(root) {
      assert RecordSound(v, r, t.owners);
    }
  }

  /** Inspector soundness: the nonzero table entries are exactly the clusters on chains reachable
      from the root, and each is charged to exactly the path of a record that holds it. */
  lemma AllocatedExactlyReachable(v: Volume, root: nat, t: Parsed, c: nat)
    requires Valid(v) && Sound(v, root, t)
    ensures
      var holders := Holders(root, t.records);
      && (c in Allocated(v) <==> OnChain(v, c, holders))
      && (c in Allocated(v) <==> c in t.owners)
      && (c in t.owners ==> exists r :: r in holders && c in Held(v, r) && t.owners[c] == r.path)
  {
    var holders := Holders(root, t.records);
    if c in t.owners {
      var r := HolderOf(v, root, t, c);
      HoldersAreCharged(v, root, t, r);
      HeldIsOnChain(v, r, c);
      ChainIsAllocated(v, r.first, c);
    }
    if OnChain(v, c, holders) {
      var r :| r in holders && c in ChainOf(v, r.first);
      ChainIsAllocated(v, r.first, c);
    }
  }

  lemma HolderOf(v: Volume, root: nat, t: Parsed, c: nat) returns (r: Record)
    requires Valid(v) && Sound(v, root, t) && c in t.owners
    ensures r in Holders(root, t.records) && c in Held(v, r)
  {
    hide Walk;
    if c in ToEndMarker(v, ChainOf(v, root)) {
      r := RootRecord(root);
    } else {
      assert Explained(v, c, t.records);
      r :| r in t.records && !r.IsDot() && c in Held(v, r);
    }
  }

  // ---------------------------------------------------------------------------------------------
  // Disjointness

  ghost predicate DistinctPaths(holders: seq<Record>) {
    forall i, j :: 0 <= i < j < |holders| ==> holders[i].path != holders[j].path
  }

  ghost predicate Disjoint(a: seq<nat>, b: seq<nat>) {
    forall c :: !(c in a && c in b)
  }

  ghost predicate HeldDisjoint(v: Volume, holders: seq<Record>)
    requires Valid(v)
  {
    forall i, j :: 0 <= i < j < |holders| ==> Disjoint(Held(v, holders[i]), Held(v, holders[j]))
  }

  ghost predicate ChainsDisjoint(v: Volume, holders: seq<Record>) {
    forall i, j :: 0 <= i < j < |holders| ==>
      Disjoint(ChainOf(v, holders[i].first), ChainOf(v, holders[j].first))
  }

  /** No cluster of the directory's chain but the last holds an end marker. */
  ghost predicate EndsInLastCluster(v: Volume, r: Record)
    requires Valid(v)
  {
    var chain := ChainOf(v, r.first);
    r.IsDirectory() ==> forall i :: 0 <= i < |chain| - 1 ==> !HasEndMarker(v.clusters[chain[i]])
  }

  ghost predicate AllEndInLastCluster(v: Volume, holders: seq<Record>)
    requires Valid(v)
  {
    forall r :: r in holders ==> EndsInLastCluster(v, r)
  }

  lemma {:induction false} ToEndMarkerIsAll(v: Volume, chain: seq<nat>)
    requires Valid(v) && forall i :: 0 <= i < |chain| ==> InRange(v.fat, chain[i])
    ensures ToEndMarker(v, chain) == chain
       <==> forall i :: 0 <= i < |chain| - 1 ==> !HasEndMarker(v.clusters[chain[i]])
  {
    if chain != [] {
      var rest := chain[1..];
      ToEndMarkerIsAll(v, rest);
      assert chain == [chain[0]] + rest;
      assert forall i :: 1 <= i < |chain| - 1 ==> chain[i] == rest[i - 1];
      assert forall i :: 0 <= i < |rest| - 1 ==> rest[i] == chain[i + 1];
    }
  }

  lemma HoldsAllIff(v: Volume, r: Record)
    requires Valid(v)
    ensures Held(v, r) == ChainOf(v, r.first) <==> EndsInLastCluster(v, r)
  {
    ToEndMarkerIsAll(v, ChainOf(v, r.first));
  }

  lemma ChargesAreDisjoint(v: Volume, root: nat, t: Parsed)
    requires Valid(v) && Sound(v, root, t) && DistinctPaths(Holders(root, t.records))
    ensures HeldDisjoint(v, Holders(root, t.records))
  {
    var holders := Holders(root, t.records);
    forall i, j | 0 <= i < j < |holders| ensures Disjoint(Held(v, holders[i]), Held(v, holders[j])) {
      HoldersAreCharged(v, root, t, holders[i]);
      HoldersAreCharged(v, root, t, holders[j]);
    }
  }

  /** With distinct paths, whole chains are pairwise disjoint exactly when every directory's end
      marker stands in the last cluster of its chain: the inspector stops reading at the marker and
      never charges the clusters behind it. */
  lemma ChainsDisjointIff(v: Volume, root: nat, t: Parsed)
    requires Valid(v) && Sound(v, root, t) && DistinctPaths(Holders(root, t.records))
    ensures
      var holders := Holders(root, t.records);
      ChainsDisjoint(v, holders) <==> AllEndInLastCluster(v, holders)
  {
    var holders := Holders(root, t.records);
    ChargesAreDisjoint(v, root, t);
    if AllEndInLastCluster(v, holders) {
      forall i, j | 0 <= i < j < |holders|
        ensures Disjoint(ChainOf(v, holders[i].first), ChainOf(v, holders[j].first))
      {
        HoldsAllIff(v, holders[i]);
        HoldsAllIff(v, holders[j]);
      }
    }
    forall r | r in holders && !EndsInLastCluster(v, r) ensures !ChainsDisjoint(v, holders) {
      UnreadTailIsShared(v, root, t, r);
    }
  }

  /** A cluster behind an early end marker is charged to some other record, which shares it. */
  lemma UnreadTailIsShared(v: Volume, root: nat, t: Parsed, r: Record)
    requires Valid(v) && Sound(v, root, t)
    requires r in Holders(root, t.records) && !EndsInLastCluster(v, r)
    ensures !ChainsDisjoint(v, Holders(root, t.records))
  {
    HoldsAllIff(v, r);
    var c := UnreadCluster(v, r);
    ChainIsAllocated(v, r.first, c);
    var other := HolderOf(v, root, t, c);
    HeldIsOnChain(v, other, c);
    SharedIsNotDisjoint(v, Holders(root, t.records), r, other, c);
  }

  lemma UnreadCluster(v: Volume, r: Record) returns (c: nat)
    requires Valid(v) && Held(v, r) != ChainOf(v, r.first)
    ensures c in ChainOf(v, r.first) && c !in Held(v, r)
  {
    ChainFacts(v, r.first);
    c := ChainOf(v, r.first)[|Held(v, r)|];
  }

  lemma HeldIsOnChain(v: Volume, r: Record, c: nat)
    requires Valid(v) && c in Held(v, r)
    ensures c in ChainOf(v, r.first)
  {
    var k :| 0 <= k < |Held(v, r)| && Held(v, r)[k] == c;
    assert ChainOf(v, r.first)[k] == c;
  }

  lemma SharedIsNotDisjoint(v: Volume, holders: seq<Record>, r: Record, other: Record, c: nat)
    requires r in holders && other in holders && r != other
    requires c in ChainOf(v, r.first) && c in ChainOf(v, other.first)
    ensures !ChainsDisjoint(v, holders)
  {
    var i :| 0 <= i < |holders| && holders[i] == r;
    var j :| 0 <= j < |holders| && holders[j] == other;
    assert !Disjoint(ChainOf(v, holders[i].first), ChainOf(v, holders[j].first));
    assert !Disjoint(ChainOf(v, holders[j].first), ChainOf(v, holders[i].first));
  }

  // ---------------------------------------------------------------------------------------------
  // Counting

  ghost function TotalHeld(v: Volume, holders: seq<Record>): (n: nat)
    requires Valid(v)
  {
    if holders == [] then 0 else |Held(v, holders[0])| + TotalHeld(v, holders[1..])
  }

  ghost function TotalChain(v: Volume, holders: seq<Record>): (n: nat) {
    if holders == [] then 0 else |ChainOf(v, holders[0].first)| + TotalChain(v, holders[1..])
  }

  ghost function UnionHeld(v: Volume, holders: seq<Record>): (s: set<nat>)
    requires Valid(v)
    ensures forall c :: c in s <==> exists r :: r in holders && c in Held(v, r)
  {
    if holders == [] then {}
    else
      assert forall r :: r in holders <==> r == holders[0] || r in holders[1..];
      Elements(Held(v, holders[0])) + UnionHeld(v, holders[1..])
  }

  lemma HeadIsDisjoint(v: Volume, holders: seq<Record>)
    requires Valid(v) && HeldDisjoint(v, holders) && holders != []
    ensures HeldDisjoint(v, holders[1..])
    ensures forall r, c :: r in holders[1..] && c in Held(v, r) ==> c !in Held(v, holders[0])
  {
    var rest := holders[1..];
    assert forall i :: 0 <= i < |rest| ==> rest[i] == holders[i + 1];
    forall r, c | r in rest && c in Held(v, r) ensures c !in Held(v, holders[0]) {
      var k :| 0 <= k < |rest| && rest[k] == r;
      assert Disjoint(Held(v, holders[0]), Held(v, holders[k + 1]));
    }
  }

  lemma {:induction false} UnionSize(v: Volume, holders: seq<Record>)
    requires Valid(v) && HeldDisjoint(v, holders)
    ensures |UnionHeld(v, holders)| == TotalHeld(v, holders)
  {
    hide Walk;
    if holders != [] {
      HeadIsDisjoint(v, holders);
      UnionSize(v, holders[1..]);
      ChainFacts(v, holders[0].first);
      ElementsSize(Held(v, holders[0]));
      assert Elements(Held(v, holders[0])) !! UnionHeld(v, holders[1..]);
    }
  }

  lemma {:induction false} TotalsAgreeIff(v: Volume, holders: seq<Record>)
    requires Valid(v)
    ensures TotalHeld(v, holders) <= TotalChain(v, holders)
    ensures TotalHeld(v, holders) == TotalChain(v, holders) <==> AllEndInLastCluster(v, holders)
  {
    if holders != [] {
      assert forall r :: r in holders <==> r == holders[0] || r in holders[1..];
      TotalsAgreeIff(v, holders[1..]);
      HoldsAllIff(v, holders[0]);
    }
  }

  lemma AllocatedIsUnion(v: Volume, root: nat, t: Parsed)
    requires Valid(v) && Sound(v, root, t)
    ensures Allocated(v) == UnionHeld(v, Holders(root, t.records))
  {
    var holders := Holders(root, t.records);
    forall c: nat ensures c in Allocated(v) <==> c in UnionHeld(v, holders) {
      if c in Allocated(v) {
        var r := HolderOf(v, root, t, c);
      }
      if r :| r in holders && c in Held(v, r) {
        HeldIsOnChain(v, r, c);
        ChainIsAllocated(v, r.first, c);
      }
    }
  }

  /** Free space: the allocated count is the number of charged clusters, and it is the total chain
      length exactly when every directory ends in its last cluster. */
  lemma FreeCount(v: Volume, root: nat, t: Parsed)
    requires Valid(v) && Sound(v, root, t) && DistinctPaths(Holders(root, t.records))
    ensures
      var holders := Holders(root, t.records);
      && |Allocated(v)| == TotalHeld(v, holders)
      && (|Allocated(v)| == TotalChain(v, holders) <==> AllEndInLastCluster(v, holders))
  {
    var holders := Holders(root, t.records);
    ChargesAreDisjoint(v, root, t);
    UnionSize(v, holders);
    TotalsAgreeIff(v, holders);
    AllocatedIsUnion(v, root, t);
  }
}
