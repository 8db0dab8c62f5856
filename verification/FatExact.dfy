/** The directory walk accepts exactly the well-formed trees, stated without the walk. */
module FatExact {
  import opened Bytes
  import opened ShortNames
  import opened FatChain
  import opened FatGeometry
  import opened FatDirectory
  import opened FatSoundness
  import opened FatOwnership
  import opened FatTree

  /** A chain of whole clusters fits a size when the last cluster is needed and is enough. */
  lemma SizeFitsIff(v: Volume, r: Record, count: nat)
    requires 0 < v.clusterBytes
    ensures SizeFits(v, r, count) <==> r.size <= count * v.clusterBytes < r.size + v.clusterBytes
  {
    var b := v.clusterBytes;
    var q := (r.size + b - 1) / b;
    assert r.size + b - 1 == q * b + (r.size + b - 1) % b;
    if q < count {
      MulOrder(q + 1, count, b);
      assert (q + 1) * b == q * b + b;
    } else if count < q {
      MulOrder(count + 1, q, b);
      assert (count + 1) * b == count * b + b;
    }
  }

  /** The clusters a file's record denotes number exactly what its size needs. */
  ghost predicate FileOk(v: Volume, r: Record)
    requires Valid(v)
  {
    Walk(v.fat, r.first).Some?
    && r.size <= |ChainOf(v, r.first)| * v.clusterBytes < r.size + v.clusterBytes
  }

  /** The directory can be read, its names differ beyond case, and its records make sense by
      themselves. */
  ghost predicate PlaceOk(v: Volume, d: Place)
    requires Valid(v)
  {
    ReadDirectory(v, d.cluster, d.path).Some? &&
    var records := ReadDirectory(v, d.cluster, d.path).value;
    && (forall i, j :: 0 <= i < j < |records| ==> Upper(records[i].name) != Upper(records[j].name))
    && (forall r :: r in records && !r.IsDot() ==> if r.IsDirectory() then 2 <= r.first else FileOk(v, r))
  }

  /** `ds` is a trail of directories from the root directory to `d`. */
  ghost predicate TrailTo(v: Volume, root: nat, ds: seq<Place>, d: Place)
    requires Valid(v)
  {
    ds != [] && IsTrail(v, ds) && ds[0] == Place(root, [SLASH]) && ds[|ds| - 1] == d
  }

  ghost predicate Reached(v: Volume, root: nat, d: Place)
    requires Valid(v)
  {
    exists ds :: TrailTo(v, root, ds, d)
  }

  ghost predicate ClustersDiffer(ds: seq<Place>) {
    forall i, j :: 0 <= i < j < |ds| ==> ds[i].cluster != ds[j].cluster
  }

  /** `own` gives every cluster a directory is read from, or a file holds, to that one's path. */
  ghost predicate OwnedAt(v: Volume, own: Owners, d: Place)
    requires Valid(v)
  {
    && Charged(ToEndMarker(v, ChainOf(v, d.cluster)), d.path, own)
    && forall r :: Lists(v, d, r) && !r.IsDot() && !r.IsDirectory() ==> Charged(ChainOf(v, r.first), r.path, own)
  }

  /** A cluster that some reached directory is read from, or some file listed there holds. */
  ghost predicate Used(v: Volume, root: nat, c: nat)
    requires Valid(v)
  {
    exists d :: Reached(v, root, d) && UsedAt(v, d, c)
  }

  ghost predicate UsedAt(v: Volume, d: Place, c: nat)
    requires Valid(v)
  {
    c in ToEndMarker(v, ChainOf(v, d.cluster))
    || exists r :: Lists(v, d, r) && !r.IsDot() && !r.IsDirectory() && c in ChainOf(v, r.first)
  }

  /** A tree without faults: every reached directory is in order, no trail of directories meets a
      cluster twice, and no cluster belongs to two paths. */
  ghost predicate TreeOk(v: Volume, root: nat, own: Owners)
    requires Valid(v)
  {
    && (forall d :: Reached(v, root, d) ==> PlaceOk(v, d) && OwnedAt(v, own, d))
    && (forall ds, d :: TrailTo(v, root, ds, d) ==> ClustersDiffer(ds))
  }

  ghost predicate WellFormed(v: Volume, root: nat)
    requires Valid(v)
  {
    (exists own :: TreeOk(v, root, own)) && forall c :: c in Allocated(v) ==> Used(v, root, c)
  }

  // ---------------------------------------------------------------------------------------------
  // Well-formed trees are accepted

  ghost function ClustersOf(ds: seq<Place>): (s: set<nat>) {
    set d | d in ds :: d.cluster
  }

  lemma TrailGrows(v: Volume, root: nat, ds: seq<Place>, d: Place, e: Place)
    requires Valid(v) && TrailTo(v, root, ds, d) && Enters(v, d, e)
    ensures TrailTo(v, root, ds + [e], e)
  {
    hide Enters;
    var more := ds + [e];
    forall i | 0 <= i < |more| - 1 ensures Descends(v, more, i) {
      if i < |ds| - 1 {
        assert Descends(v, ds, i);
      }
    }
  }

  /** Claiming clusters that `own` gives to the path succeeds and stays within `own`. */
  lemma ClaimWithin(owners: Owners, cs: seq<nat>, path: Text, own: Owners)
    requires Extends(owners, own) && Charged(cs, path, own)
    ensures Claim(owners, cs, path).Some? && Extends(Claim(owners, cs, path).value, own)
  {
  }

  lemma {:induction false} TreeIsParsed(v: Volume, root: nat, own: Owners, ds: seq<Place>, d: Place, owners: Owners)
    requires Valid(v) && TreeOk(v, root, own) && TrailTo(v, root, ds, d) && Extends(owners, own)
    ensures
      var p := ParseDirectory(v, d.cluster, d.path, owners, ClustersOf(ds[..|ds| - 1]));
      p.Some? && Extends(p.value.owners, own)
    decreases |Free(v, ClustersOf(ds[..|ds| - 1]))|, 1, 0
  {
    hide Walk, ReadDirectory, ToEndMarker, ChainOf, Charged, Claim, Extends, IsTrail, ParseRecords, Enters;
    var front := ds[..|ds| - 1];
    var stack, cs := ClustersOf(front), ToEndMarker(v, ChainOf(v, d.cluster));
    assert Reached(v, root, d) && ClustersDiffer(ds) && PlaceOk(v, d) && OwnedAt(v, own, d);
    assert d.cluster !in stack;
    ClaimWithin(owners, cs, d.path, own);
    DeeperStack(v, d.cluster, stack);
    StackIs(ds, d);
    var records := ReadDirectory(v, d.cluster, d.path).value;
    assert records[0..] == records;
    RecordsAreParsed(v, root, own, ds, d, 0, {}, Claim(owners, cs, d.path).value);
  }

  lemma StackIs(ds: seq<Place>, d: Place)
    requires ds != [] && ds[|ds| - 1] == d
    ensures ClustersOf(ds) == ClustersOf(ds[..|ds| - 1]) + {d.cluster}
  {
    assert ds == ds[..|ds| - 1] + [d];
  }

  lemma {:induction false} RecordsAreParsed(
    v: Volume, root: nat, own: Owners, ds: seq<Place>, d: Place, i: nat, folded: set<Text>, owners: Owners)
    requires Valid(v) && TreeOk(v, root, own) && TrailTo(v, root, ds, d) && Extends(owners, own) && PlaceOk(v, d)
    requires i <= |ReadDirectory(v, d.cluster, d.path).value|
    requires forall k :: i <= k < |ReadDirectory(v, d.cluster, d.path).value| ==>
      Upper(ReadDirectory(v, d.cluster, d.path).value[k].name) !in folded
    ensures
      var p := ParseRecords(v, ReadDirectory(v, d.cluster, d.path).value[i..], folded, owners, ClustersOf(ds));
      p.Some? && Extends(p.value.owners, own)
    decreases |Free(v, ClustersOf(ds))|, 2, |ReadDirectory(v, d.cluster, d.path).value| - i
  {
    hide Walk, ReadDirectory, ToEndMarker, ChainOf, Charged, Claim, Extends, IsTrail, Enters, ParseRecord, Upper;
    var records := ReadDirectory(v, d.cluster, d.path).value;
    if i < |records| {
      var r := records[i];
      assert records[i..][1..] == records[i + 1..] && r in records && Lists(v, d, r);
      RecordIsParsed(v, root, own, ds, d, r, owners);
      var below := ParseRecord(v, r, owners, ClustersOf(ds)).value;
      RecordsAreParsed(v, root, own, ds, d, i + 1, folded + {Upper(r.name)}, below.owners);
    }
  }

  lemma {:induction false} RecordIsParsed(
    v: Volume, root: nat, own: Owners, ds: seq<Place>, d: Place, r: Record, owners: Owners)
    requires Valid(v) && TreeOk(v, root, own) && TrailTo(v, root, ds, d) && Extends(owners, own)
    requires PlaceOk(v, d) && Lists(v, d, r)
    ensures
      var p := ParseRecord(v, r, owners, ClustersOf(ds));
      p.Some? && Extends(p.value.owners, own)
    decreases |Free(v, ClustersOf(ds))|, 1, 1
  {
    hide Walk, ReadDirectory, ToEndMarker, ChainOf, Charged, Claim, Extends, IsTrail, Enters, ParseDirectory, SizeFits;
    assert Reached(v, root, d) && OwnedAt(v, own, d);
    if !r.IsDot() {
      if r.IsDirectory() {
        var e := Place(r.first, r.path);
        EntersHere(v, d, r);
        TrailGrows(v, root, ds, d, e);
        assert (ds + [e])[..|ds + [e]| - 1] == ds;
        TreeIsParsed(v, root, own, ds + [e], e, owners);
      } else {
        SizeFitsIff(v, r, |ChainOf(v, r.first)|);
        ClaimWithin(owners, ChainOf(v, r.first), r.path, own);
      }
    }
  }

  lemma EntersHere(v: Volume, d: Place, r: Record)
    requires Valid(v) && Lists(v, d, r) && !r.IsDot() && r.IsDirectory()
    ensures Enters(v, d, Place(r.first, r.path))
  {
  }

  /** Exactly the clusters charged by the walk are used. */
  lemma ChargedIsUsed(v: Volume, root: nat, c: nat)
    requires Valid(v) && ParseDirectory(v, root, [SLASH], map[], {}).Some? && c in Tree(v, root).owners
    ensures Used(v, root, c)
  {
    hide Walk, ReadDirectory, ToEndMarker, ChainOf, ParseDirectory, Descends, RecordsSound, Charged;
    var t, top := Tree(v, root), Place(root, [SLASH]);
    ParseDirectorySound(v, root, [SLASH], map[], {});
    RootIsReached(v, root);
    if c in ToEndMarker(v, ChainOf(v, root)) {
      assert UsedAt(v, top, c);
    } else {
      var r :| r in t.records && !r.IsDot() && c in Held(v, r);
      var ds := ReportedIsReachable(v, top, map[], {}, r);
      var d := ds[|ds| - 1];
      assert TrailTo(v, root, ds, d) && Lists(v, d, r);
      if r.IsDirectory() {
        EntersHere(v, d, r);
        TrailGrows(v, root, ds, d, Place(r.first, r.path));
        assert UsedAt(v, Place(r.first, r.path), c);
      } else {
        assert UsedAt(v, d, c);
      }
    }
  }

  lemma RootIsReached(v: Volume, root: nat)
    requires Valid(v)
    ensures TrailTo(v, root, [Place(root, [SLASH])], Place(root, [SLASH])) && Reached(v, root, Place(root, [SLASH]))
  {
    assert TrailTo(v, root, [Place(root, [SLASH])], Place(root, [SLASH]));
  }

  // ---------------------------------------------------------------------------------------------
  // Accepted trees are well formed

  lemma {:induction false} ParsedNamesDiffer(
    v: Volume, records: seq<Record>, folded: set<Text>, owners: Owners, stack: set<nat>)
    requires Valid(v) && ParseRecords(v, records, folded, owners, stack).Some?
    ensures forall i :: 0 <= i < |records| ==> Upper(records[i].name) !in folded
    ensures forall i, j :: 0 <= i < j < |records| ==> Upper(records[i].name) != Upper(records[j].name)
  {
    hide ParseRecord, Upper;
    if records != [] {
      var key := Upper(records[0].name);
      ParsedNamesDiffer(v, records[1..], folded + {key}, ParseRecord(v, records[0], owners, stack).value.owners, stack);
      forall i | 0 < i < |records| ensures Upper(records[i].name) !in folded && Upper(records[i].name) != key {
        assert records[1..][i - 1] == records[i];
      }
      forall i, j | 0 <= i < j < |records| ensures Upper(records[i].name) != Upper(records[j].name) {
        if 0 < i {
          assert records[1..][i - 1] == records[i] && records[1..][j - 1] == records[j];
        }
      }
    }
  }

  /** A reached directory was inspected. */
  lemma {:induction false} ReachedWasParsed(v: Volume, ds: seq<Place>, owners: Owners, stack: set<nat>)
    returns (at: Owners, above: set<nat>)
    requires Valid(v) && IsTrail(v, ds) && ParseDirectory(v, ds[0].cluster, ds[0].path, owners, stack).Some?
    ensures ParseDirectory(v, ds[|ds| - 1].cluster, ds[|ds| - 1].path, at, above).Some?
    decreases |ds|
  {
    hide ParseDirectory, Enters, ReadDirectory;
    if |ds| == 1 {
      at, above := owners, stack;
    } else {
      assert Descends(v, ds, 0);
      at := EnteredWasParsed(v, ds[0], owners, stack, ds[1]);
      var rest := ds[1..];
      forall i | 0 <= i < |rest| - 1 ensures Descends(v, rest, i) {
        assert Descends(v, ds, i + 1);
      }
      at, above := ReachedWasParsed(v, rest, at, stack + {ds[0].cluster});
    }
  }

  lemma ReachedIsOk(v: Volume, root: nat, ds: seq<Place>, d: Place)
    requires Valid(v) && ParseDirectory(v, root, [SLASH], map[], {}).Some? && TrailTo(v, root, ds, d)
    ensures PlaceOk(v, d) && OwnedAt(v, Tree(v, root).owners, d)
  {
    hide Walk, ToEndMarker, ChainOf, Charged, Claim, IsTrail, Enters, ParseRecord, ParseRecords, Upper, SizeFits;
    var t := Tree(v, root);
    ParseDirectorySound(v, root, [SLASH], map[], {});
    var at, above := ReachedWasParsed(v, ds, map[], {});
    var records := ReadDirectory(v, d.cluster, d.path).value;
    var claimed := Claim(at, ToEndMarker(v, ChainOf(v, d.cluster)), d.path).value;
    ParsedNamesDiffer(v, records, {}, claimed, above + {d.cluster});
    forall r | r in records && !r.IsDot()
      ensures if r.IsDirectory() then 2 <= r.first else FileOk(v, r) && Charged(ChainOf(v, r.first), r.path, t.owners)
    {
      ReachableIsReported(v, ds, map[], {}, r);
      assert RecordSound(v, r, t.owners);
      SizeFitsIff(v, r, |ChainOf(v, r.first)|);
    }
    ReachedIsCharged(v, root, ds, d);
  }

  lemma ReachedIsCharged(v: Volume, root: nat, ds: seq<Place>, d: Place)
    requires Valid(v) && ParseDirectory(v, root, [SLASH], map[], {}).Some? && TrailTo(v, root, ds, d)
    ensures Charged(ToEndMarker(v, ChainOf(v, d.cluster)), d.path, Tree(v, root).owners)
  {
    hide Walk, ToEndMarker, ChainOf, Charged, ParseDirectory, ReadDirectory, SizeFits;
    var t := Tree(v, root);
    ParseDirectorySound(v, root, [SLASH], map[], {});
    if 1 < |ds| {
      var front := ds[..|ds| - 1];
      assert Descends(v, ds, |ds| - 2) && Enters(v, front[|front| - 1], d);
      forall i | 0 <= i < |front| - 1 ensures Descends(v, front, i) {
        assert Descends(v, ds, i);
      }
      var e := front[|front| - 1];
      var r :| Lists(v, e, r) && !r.IsDot() && r.IsDirectory() && d == Place(r.first, r.path);
      ReachableIsReported(v, front, map[], {}, r);
      assert RecordSound(v, r, t.owners);
    }
  }

  /** The walk and the leak check accept a volume if and only if its tree is well formed. */
  lemma AcceptsIff(v: Volume, root: nat)
    requires Valid(v)
    ensures Accepts(v, root) <==> WellFormed(v, root)
  {
    hide Walk, ReadDirectory, ToEndMarker, ChainOf, ParseDirectory, IsTrail, PlaceOk, OwnedAt, Allocated, UsedAt;
    if Accepts(v, root) {
      var t := Tree(v, root);
      forall d | Reached(v, root, d) ensures PlaceOk(v, d) && OwnedAt(v, t.owners, d) {
        var ds :| TrailTo(v, root, ds, d);
        ReachedIsOk(v, root, ds, d);
      }
      forall ds, d | TrailTo(v, root, ds, d) ensures ClustersDiffer(ds) {
        TrailsNeverRepeat(v, ds, map[], {});
      }
      assert TreeOk(v, root, t.owners);
      forall c | c in Allocated(v) ensures Used(v, root, c) {
        ChargedIsUsed(v, root, c);
      }
    }
    if WellFormed(v, root) {
      var own :| TreeOk(v, root, own);
      WellFormedIsAccepted(v, root, own);
    }
  }

  lemma WellFormedIsAccepted(v: Volume, root: nat, own: Owners)
    requires Valid(v) && TreeOk(v, root, own) && forall c :: c in Allocated(v) ==> Used(v, root, c)
    ensures Accepts(v, root)
  {
    hide Walk, ReadDirectory, ToEndMarker, ChainOf, ParseDirectory, IsTrail, PlaceOk, Allocated, TreeOk, Charged;
    var top := Place(root, [SLASH]);
    RootIsReached(v, root);
    assert ClustersOf([top][..0]) == {};
    TreeIsParsed(v, root, own, [top], top, map[]);
    var t := Tree(v, root);
    forall c | c in Allocated(v) ensures c in t.owners {
      var d :| Reached(v, root, d) && UsedAt(v, d, c);
      var ds :| TrailTo(v, root, ds, d);
      ReachedIsOk(v, root, ds, d);
      UsedIsOwned(v, d, c, t.owners);
    }
  }

  lemma UsedIsOwned(v: Volume, d: Place, c: nat, own: Owners)
    requires Valid(v) && OwnedAt(v, own, d) && UsedAt(v, d, c)
    ensures c in own
  {
    hide Walk, ReadDirectory, ToEndMarker, ChainOf, Lists;
  }

  /** The report lists exactly the entries of reached directories. */
  lemma ReportedIff(v: Volume, root: nat, r: Record)
    requires Valid(v) && Accepts(v, root)
    ensures r in Tree(v, root).records <==> exists d :: Reached(v, root, d) && Lists(v, d, r)
  {
    hide Walk, ReadDirectory, ParseDirectory, Descends, Lists;
    var top := Place(root, [SLASH]);
    if r in Tree(v, root).records {
      var ds := ReportedIsReachable(v, top, map[], {}, r);
      assert TrailTo(v, root, ds, ds[|ds| - 1]);
    }
    if d :| Reached(v, root, d) && Lists(v, d, r) {
      var ds :| TrailTo(v, root, ds, d);
      ReachableIsReported(v, ds, map[], {}, r);
    }
  }
}
