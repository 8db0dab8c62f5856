/** The directory graph of an accepted volume: reachability, acyclicity and distinct paths. */
module FatTree {
  import opened Bytes
  import opened ShortNames
  import opened FatChain
  import opened FatGeometry
  import opened FatDirectory
  import opened FatOwnership

  // ---------------------------------------------------------------------------------------------
  // Trails of directories

  /** A directory as its first cluster and its path. */
  datatype Place = Place(cluster: nat, path: Text)

  ghost predicate Lists(v: Volume, d: Place, r: Record)
    requires Valid(v)
  {
    ReadDirectory(v, d.cluster, d.path).Some? && r in ReadDirectory(v, d.cluster, d.path).value
  }

  /** `e` is a subdirectory entered from `d`. */
  ghost predicate Enters(v: Volume, d: Place, e: Place)
    requires Valid(v)
  {
    exists r :: Lists(v, d, r) && !r.IsDot() && r.IsDirectory() && e == Place(r.first, r.path)
  }

  ghost predicate Descends(v: Volume, ds: seq<Place>, i: nat)
    requires Valid(v)
  {
    i + 1 < |ds| && Enters(v, ds[i], ds[i + 1])
  }

  ghost predicate IsTrail(v: Volume, ds: seq<Place>)
    requires Valid(v)
  {
    ds != [] && forall i :: 0 <= i < |ds| - 1 ==> Descends(v, ds, i)
  }

  /** Each record of an accepted list was itself accepted, under some ownership. */
  lemma {:induction false} RecordWasParsed(
    v: Volume, records: seq<Record>, folded: set<Text>, owners: Owners, stack: set<nat>, r: Record)
    returns (at: Owners)
    requires Valid(v) && ParseRecords(v, records, folded, owners, stack).Some? && r in records
    ensures ParseRecord(v, r, at, stack).Some?
    ensures forall x :: x in ParseRecord(v, r, at, stack).value.records ==>
      x in ParseRecords(v, records, folded, owners, stack).value.records
  {
    if records[0] == r {
      at := owners;
    } else {
      var below := ParseRecord(v, records[0], owners, stack).value;
      at := RecordWasParsed(v, records[1..], folded + {Upper(records[0].name)}, below.owners, stack, r);
    }
  }

  /** Entering a subdirectory of an accepted directory means inspecting it on a deeper stack. */
  lemma EnteredWasParsed(
    v: Volume, d: Place, owners: Owners, stack: set<nat>, e: Place) returns (at: Owners)
    requires Valid(v) && ParseDirectory(v, d.cluster, d.path, owners, stack).Some? && Enters(v, d, e)
    ensures ParseDirectory(v, e.cluster, e.path, at, stack + {d.cluster}).Some?
    ensures forall x :: x in ParseDirectory(v, e.cluster, e.path, at, stack + {d.cluster}).value.records ==>
      x in ParseDirectory(v, d.cluster, d.path, owners, stack).value.records
  {
    hide Walk, ReadDirectory;
    var records := ReadDirectory(v, d.cluster, d.path).value;
    var claimed := Claim(owners, ToEndMarker(v, ChainOf(v, d.cluster)), d.path).value;
    var r :| Lists(v, d, r) && !r.IsDot() && r.IsDirectory() && e == Place(r.first, r.path);
    at := RecordWasParsed(v, records, {}, claimed, stack + {d.cluster}, r);
  }

  /** On acceptance no directory is its own ancestor: no trail meets a cluster twice. */
  lemma {:induction false} TrailsNeverRepeat(v: Volume, ds: seq<Place>, owners: Owners, stack: set<nat>)
    requires Valid(v) && IsTrail(v, ds)
    requires ParseDirectory(v, ds[0].cluster, ds[0].path, owners, stack).Some?
    ensures forall i :: 0 <= i < |ds| ==> ds[i].cluster !in stack
    ensures forall i, j :: 0 <= i < j < |ds| ==> ds[i].cluster != ds[j].cluster
    decreases |ds|
  {
    hide Walk, ReadDirectory, Enters;
    if 1 < |ds| {
      var rest := ds[1..];
      TrailShrinks(v, ds);
      var at := EnteredWasParsed(v, ds[0], owners, stack, ds[1]);
      TrailsNeverRepeat(v, rest, at, stack + {ds[0].cluster});
      assert forall i :: 0 < i < |ds| ==> ds[i] == rest[i - 1];
    }
  }

  ghost predicate Reaches(v: Volume, from: Place, ds: seq<Place>, r: Record)
    requires Valid(v)
  {
    IsTrail(v, ds) && ds[0] == from && Lists(v, ds[|ds| - 1], r)
  }

  /** The report lists every entry of every directory reachable from the root ... */
  lemma {:induction false} ReachableIsReported(v: Volume, ds: seq<Place>, owners: Owners, stack: set<nat>, r: Record)
    requires Valid(v) && IsTrail(v, ds) && Lists(v, ds[|ds| - 1], r)
    requires ParseDirectory(v, ds[0].cluster, ds[0].path, owners, stack).Some?
    ensures r in ParseDirectory(v, ds[0].cluster, ds[0].path, owners, stack).value.records
    decreases |ds|
  {
    hide Walk, ReadDirectory;
    if 1 < |ds| {
      var rest := ds[1..];
      TrailShrinks(v, ds);
      var at := EnteredWasParsed(v, ds[0], owners, stack, ds[1]);
      ReachableIsReported(v, rest, at, stack + {ds[0].cluster}, r);
    }
  }

  /** ... and nothing else. */
  lemma {:induction false} ReportedIsReachable(v: Volume, d: Place, owners: Owners, stack: set<nat>, r: Record)
    returns (ds: seq<Place>)
    requires Valid(v) && ParseDirectory(v, d.cluster, d.path, owners, stack).Some?
    requires r in ParseDirectory(v, d.cluster, d.path, owners, stack).value.records
    ensures Reaches(v, d, ds, r)
    decreases |Free(v, stack)|, 0, 0
  {
    hide Walk, ReadDirectory, ParseRecords, Enters, Free;
    var records := ReadDirectory(v, d.cluster, d.path).value;
    if r in records {
      ds := [d];
    } else {
      var claimed := Claim(owners, ToEndMarker(v, ChainOf(v, d.cluster)), d.path).value;
      DeeperStack(v, d.cluster, stack);
      var x, at := BelowWhich(v, records, {}, claimed, stack + {d.cluster}, r);
      var tail := ReportedIsReachable(v, Place(x.first, x.path), at, stack + {d.cluster}, r);
      ds := [d] + tail;
      ListedIsEntered(v, d, x);
      TrailGrows(v, d, tail);
    }
  }

  lemma ListedIsEntered(v: Volume, d: Place, r: Record)
    requires Valid(v) && Lists(v, d, r) && !r.IsDot() && r.IsDirectory()
    ensures Enters(v, d, Place(r.first, r.path))
  {
  }

  lemma TrailGrows(v: Volume, d: Place, tail: seq<Place>)
    requires Valid(v) && IsTrail(v, tail) && Enters(v, d, tail[0])
    ensures IsTrail(v, [d] + tail)
  {
    hide Enters;
    var ds := [d] + tail;
    forall i | 0 <= i < |ds| - 1 ensures Descends(v, ds, i) {
      if 0 < i {
        assert Descends(v, tail, i - 1);
      }
    }
  }

  lemma TrailShrinks(v: Volume, ds: seq<Place>)
    requires Valid(v) && IsTrail(v, ds) && 1 < |ds|
    ensures IsTrail(v, ds[1..]) && Enters(v, ds[0], ds[1])
  {
    hide Enters;
    assert Descends(v, ds, 0);
    forall i | 0 <= i < |ds| - 2 ensures Descends(v, ds[1..], i) {
      assert Descends(v, ds, i + 1);
    }
  }

  lemma {:induction false} BelowWhich(
    v: Volume, records: seq<Record>, folded: set<Text>, owners: Owners, stack: set<nat>, r: Record)
    returns (x: Record, at: Owners)
    requires Valid(v) && ParseRecords(v, records, folded, owners, stack).Some?
    requires r in ParseRecords(v, records, folded, owners, stack).value.records
    ensures x in records && !x.IsDot() && x.IsDirectory()
    ensures ParseDirectory(v, x.first, x.path, at, stack).Some?
    ensures r in ParseDirectory(v, x.first, x.path, at, stack).value.records
  {
    var below := ParseRecord(v, records[0], owners, stack).value;
    if r in below.records {
      x, at := records[0], owners;
    } else {
      x, at := BelowWhich(v, records[1..], folded + {Upper(records[0].name)}, below.owners, stack, r);
    }
  }

  // ---------------------------------------------------------------------------------------------
  // Distinct paths

  ghost predicate AllCanonical(records: seq<Record>) {
    forall r :: r in records && !r.IsDot() ==> Canonical(r.name)
  }

  /** The root's path, or a path that does not end in a slash. */
  ghost predicate Clean(path: Text) {
    path == [SLASH] || (path != [] && path[|path| - 1] != SLASH)
  }

  ghost function Prefix(path: Text): (r: Text) {
    if path == [SLASH] then [] else path + [SLASH]
  }

  lemma CleanChild(path: Text, text: Text)
    requires Clean(path) && text != [] && SLASH !in text
    ensures ChildPath(path, text) == Prefix(path) + text
    ensures Clean(ChildPath(path, text)) && ChildPath(path, text) != [SLASH]
  {
    var child := Prefix(path) + text;
    assert child[|child| - 1] == text[|text| - 1];
  }

  ghost predicate Placed(path: Text, r: Record) {
    NameText(r.name).Some? && r.path == ChildPath(path, NameText(r.name).value)
  }

  lemma {:induction false} ScannedPaths(raw: seq<byte>, o: nat, base: nat, path: Text, parent: nat, scan: Scan)
    requires ScanCluster(raw, o, base, path, parent, scan).Some?
    requires forall r :: r in scan.records ==> Placed(path, r)
    ensures forall r :: r in ScanCluster(raw, o, base, path, parent, scan).value.records ==> Placed(path, r)
    decreases |raw| - o
  {
    if o + 32 <= |raw| {
      var entry := raw[o..o + 32];
      var kind := Classify(entry, scan.pending, path, base + o, parent);
      if !kind.End? {
        ScannedPaths(raw, o + 32, base, path, parent, Advance(scan, kind));
      }
    }
  }

  lemma {:induction false} ListedPaths(v: Volume, chain: seq<nat>, path: Text, parent: nat, scan: Scan)
    requires Valid(v) && forall i :: 0 <= i < |chain| ==> InRange(v.fat, chain[i])
    requires ScanChain(v, chain, path, parent, scan).Some?
    requires forall r :: r in scan.records ==> Placed(path, r)
    ensures forall r :: r in ScanChain(v, chain, path, parent, scan).value ==> Placed(path, r)
  {
    var raw, base := v.clusters[chain[0]], OffsetOf(v, chain[0]);
    var s := ScanCluster(raw, 0, base, path, parent, scan).value;
    ScannedPaths(raw, 0, base, path, parent, scan);
    if !s.ended {
      ListedPaths(v, chain[1..], path, parent, s);
    }
  }

  /** Direct children of one directory, each with the path its canonical name gives it. */
  ghost predicate ChildrenOf(path: Text, records: seq<Record>) {
    forall r :: r in records && !r.IsDot() ==> IsChild(path, r)
  }

  /** `d` lies strictly below some record of the list. */
  ghost predicate BelowSome(records: seq<Record>, d: Record) {
    exists r :: r in records && !r.IsDot() && r.path + [SLASH] < d.path
  }

  /** Two slash-free components that open the same path, each closed by a slash, are the same. */
  lemma SameComponent(prefix: Text, a: Text, b: Text, path: Text)
    requires SLASH !in a && SLASH !in b
    requires prefix + a + [SLASH] <= path
    requires prefix + b + [SLASH] <= path || prefix + b == path
    ensures a == b && prefix + b != path
  {
    var n := |prefix|;
    assert path[n + |a|] == SLASH;
    assert forall i :: 0 <= i < |a| ==> path[n + i] == a[i];
    assert forall i :: 0 <= i < |b| ==> path[n + i] == b[i];
    if prefix + b != path {
      assert path[n + |b|] == SLASH;
    }
  }

  lemma {:induction false} OwningConcat(p: seq<Record>, q: seq<Record>)
    ensures Owning(p + q) == Owning(p) + Owning(q)
  {
    if p == [] {
      assert p + q == q;
    } else {
      var rest := p[1..];
      assert (p + q)[0] == p[0] && (p + q)[1..] == rest + q;
      OwningConcat(rest, q);
      assert [p[0]] + (Owning(rest) + Owning(q)) == [p[0]] + Owning(rest) + Owning(q);
    }
  }

  lemma DistinctConcat(p: seq<Record>, q: seq<Record>)
    requires DistinctPaths(p) && DistinctPaths(q)
    requires forall a, b :: a in p && b in q ==> a.path != b.path
    ensures DistinctPaths(p + q)
  {
  }

  lemma {:induction false} ParseDirectoryPaths(v: Volume, d: Place, owners: Owners, stack: set<nat>)
    requires Valid(v) && Clean(d.path) && ParseDirectory(v, d.cluster, d.path, owners, stack).Some?
    requires AllCanonical(ParseDirectory(v, d.cluster, d.path, owners, stack).value.records)
    ensures
      var p := ParseDirectory(v, d.cluster, d.path, owners, stack).value;
      && DistinctPaths(Owning(p.records))
      && (forall r :: r in p.records && !r.IsDot() ==> Prefix(d.path) < r.path)
    decreases |Free(v, stack)|, 0, 0
  {
    hide Walk;
    var p := ParseDirectory(v, d.cluster, d.path, owners, stack).value;
    var records := ReadDirectory(v, d.cluster, d.path).value;
    var claimed := Claim(owners, ToEndMarker(v, ChainOf(v, d.cluster)), d.path).value;
    DeeperStack(v, d.cluster, stack);
    forall r | r in records && !r.IsDot()
      ensures IsChild(d.path, r)
    {
      assert r in p.records;
      ListedPaths(v, ChainOf(v, d.cluster), d.path, d.cluster, START);
      CanonicalText(r.name);
      CleanChild(d.path, NameText(r.name).value);
    }
    var below := ParseRecords(v, records, {}, claimed, stack + {d.cluster}).value;
    ParseRecordsPaths(v, d.path, records, {}, claimed, stack + {d.cluster});
    PathsCombine(d.path, records, below.records);
  }

  /** Children and their descendants together have distinct paths below the directory. */
  lemma {:induction false} PathsCombine(path: Text, records: seq<Record>, below: seq<Record>)
    requires ChildrenOf(path, records) && DistinctPaths(Owning(records)) && DistinctPaths(Owning(below))
    requires forall d :: d in below && !d.IsDot() ==> BelowSome(records, d)
    ensures DistinctPaths(Owning(records + below))
    ensures forall r :: r in records + below && !r.IsDot() ==> Prefix(path) < r.path
  {
    OwningConcat(records, below);
    forall a, b | a in Owning(records) && b in Owning(below) ensures a.path != b.path {
      var r :| r in records && !r.IsDot() && r.path + [SLASH] < b.path;
      CanonicalText(a.name);
      CanonicalText(r.name);
      if a.path == b.path {
        SameComponent(Prefix(path), NameText(r.name).value, NameText(a.name).value, b.path);
      }
    }
    DistinctConcat(Owning(records), Owning(below));
    forall r | r in records + below && !r.IsDot() ensures Prefix(path) < r.path {
      if r in records {
        CanonicalText(r.name);
      } else {
        var x :| x in records && !x.IsDot() && x.path + [SLASH] < r.path;
        assert Prefix(path) <= x.path;
      }
    }
  }

  lemma {:induction false} ParseRecordsPaths(
    v: Volume, path: Text, records: seq<Record>, folded: set<Text>, owners: Owners, stack: set<nat>)
    requires Valid(v) && Clean(path) && ParseRecords(v, records, folded, owners, stack).Some?
    requires ChildrenOf(path, records)
    requires AllCanonical(ParseRecords(v, records, folded, owners, stack).value.records)
    ensures
      var p := ParseRecords(v, records, folded, owners, stack).value;
      && DistinctPaths(Owning(records)) && DistinctPaths(Owning(p.records))
      && (forall d :: d in p.records && !d.IsDot() ==> BelowSome(records, d))
      && (forall r :: r in records ==> Upper(r.name) !in folded)
    decreases |Free(v, stack)|, |records|
  {
    hide Walk, ParseDirectory, NameText, Canonical;
    if records != [] {
      var r, rest := records[0], records[1..];
      var key := Upper(r.name);
      var p := ParseRecords(v, records, folded, owners, stack).value;
      var below := ParseRecord(v, r, owners, stack).value;
      var after := ParseRecords(v, rest, folded + {key}, below.owners, stack).value;
      assert p.records == below.records + after.records && records == [r] + rest;
      ParseRecordsPaths(v, path, rest, folded + {key}, below.owners, stack);
      if !r.IsDot() {
        CanonicalText(r.name);
        CleanChild(path, NameText(r.name).value);
        if r.IsDirectory() {
          ParseDirectoryPaths(v, Place(r.first, r.path), owners, stack);
        }
        assert Prefix(r.path) == r.path + [SLASH];
        assert forall d :: d in below.records && !d.IsDot() ==> r.path + [SLASH] < d.path;
        DistinctSiblings(path, r, rest);
        DistinctCousins(path, r, rest, below.records, after.records);
      } else {
        assert p.records == after.records;
      }
    }
  }

  ghost predicate IsChild(path: Text, r: Record) {
    Canonical(r.name) && NameText(r.name).Some? && r.path == Prefix(path) + NameText(r.name).value
  }

  lemma SiblingsDiffer(path: Text, r: Record, x: Record)
    requires IsChild(path, r) && IsChild(path, x) && Upper(r.name) != Upper(x.name)
    ensures r.path != x.path && NameText(r.name) != NameText(x.name)
  {
    assert r.path[|Prefix(path)|..] == NameText(r.name).value;
    assert x.path[|Prefix(path)|..] == NameText(x.name).value;
    if NameText(r.name) == NameText(x.name) {
      CanonicalTextIsInjective(r.name, x.name);
    }
  }

  lemma CousinsDiffer(path: Text, r: Record, x: Record, a: Text, b: Text)
    requires IsChild(path, r) && IsChild(path, x) && Upper(r.name) != Upper(x.name)
    requires r.path + [SLASH] < a && x.path + [SLASH] < b
    ensures a != b
  {
    SiblingsDiffer(path, r, x);
    CanonicalText(r.name);
    CanonicalText(x.name);
    if a == b {
      SameComponent(Prefix(path), NameText(r.name).value, NameText(x.name).value, b);
    }
  }

  lemma DistinctSiblings(path: Text, r: Record, rest: seq<Record>)
    requires !r.IsDot() && ChildrenOf(path, [r] + rest) && DistinctPaths(Owning(rest))
    requires forall x :: x in rest ==> Upper(x.name) != Upper(r.name)
    ensures DistinctPaths(Owning([r] + rest))
  {
    assert r in [r] + rest;
    forall x | x in Owning(rest) ensures x.path != r.path {
      assert x in [r] + rest;
      SiblingsDiffer(path, r, x);
    }
    OwningConcat([r], rest);
    assert Owning([r]) == [r];
    DistinctConcat([r], Owning(rest));
  }

  lemma DistinctCousins(
    path: Text, r: Record, rest: seq<Record>, below: seq<Record>, after: seq<Record>)
    requires !r.IsDot() && ChildrenOf(path, [r] + rest)
    requires forall x :: x in rest ==> Upper(x.name) != Upper(r.name)
    requires DistinctPaths(Owning(below)) && DistinctPaths(Owning(after))
    requires forall d :: d in below && !d.IsDot() ==> r.path + [SLASH] < d.path
    requires forall d :: d in after && !d.IsDot() ==> BelowSome(rest, d)
    ensures DistinctPaths(Owning(below + after))
  {
    assert r in [r] + rest;
    forall a, b | a in Owning(below) && b in Owning(after) ensures a.path != b.path {
      var x :| x in rest && !x.IsDot() && x.path + [SLASH] < b.path;
      assert x in [r] + rest;
      CousinsDiffer(path, r, x, a.path, b.path);
    }
    OwningConcat(below, after);
    DistinctConcat(Owning(below), Owning(after));
  }

  lemma ChildIsNotRoot(path: Text, text: Text)
    requires text != [] && SLASH !in text
    ensures ChildPath(path, text) != [SLASH]
  {
    var child := ChildPath(path, text);
    assert child[|child| - 1] == text[|text| - 1];
  }

  lemma RootPathIsUnused(v: Volume, root: nat, r: Record)
    requires Valid(v) && Accepts(v, root) && r in Tree(v, root).records && Canonical(r.name)
    ensures r.path != [SLASH]
  {
    var ds := ReportedIsReachable(v, Place(root, [SLASH]), map[], {}, r);
    var d := ds[|ds| - 1];
    ListedPaths(v, ChainOf(v, d.cluster), d.path, d.cluster, START);
    CanonicalText(r.name);
    ChildIsNotRoot(d.path, NameText(r.name).value);
  }

  /** Canonical names give every record of an accepted volume, and the root, a path of its own. */
  lemma CanonicalNamesGiveDistinctPaths(v: Volume, root: nat)
    requires Valid(v) && Accepts(v, root) && AllCanonical(Tree(v, root).records)
    ensures DistinctPaths(Holders(root, Tree(v, root).records))
  {
    var records := Tree(v, root).records;
    assert DistinctPaths(Owning(records)) by {
      ParseDirectoryPaths(v, Place(root, [SLASH]), map[], {});
    }
    forall r | r in Owning(records) ensures RootRecord(root).path != r.path {
      RootPathIsUnused(v, root, r);
    }
    DistinctConcat([RootRecord(root)], Owning(records));
  }
}
