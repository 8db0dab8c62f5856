/** The package commands as they run, and the round trip between them. */
module PackageTool {
  import opened Bytes
  import opened ShortNames
  import opened PackageFields
  import opened PackageManifest
  import opened PackageBuilder
  import opened PackageFile
  import FatPlan

  ghost predicate BuildOk(spec: Spec, executable: seq<byte>, resources: seq<Resource>) {
    0 < |executable| <= 0x100_0000 && SpecOk(spec) && ResourcesOk(resources)
  }

  /** The header, filled in place; the resource fields stay zero without resources. */
  method BuildHeader(executable: nat, count: nat, resourceBytes: nat, digest: Digest) returns (r: seq<byte>)
    requires executable <= 0x100_0000 && count <= 13 && resourceBytes < 0x1_0000_0000 && (count == 0 ==> resourceBytes == 0)
    ensures r == Header(if count == 0 then 1 else 2, executable, count, resourceBytes, digest)
  {
    hide Sizes, Counts;
    var header := Blank(64);
    var version := if count == 0 then 1 else 2;
    ghost var front: seq<byte> := [];
    Put(header, 0, PACKAGE_MAGIC, front);
    front := front + Zeros(0) + PACKAGE_MAGIC;
    Put(header, 8, Sizes(version, executable), front);
    front := front + Zeros(0) + Sizes(version, executable);
    if count != 0 {
      Put(header, 24, Counts(count, resourceBytes), front);
      front := front + Zeros(0) + Counts(count, resourceBytes);
      Put(header, 32, digest, front);
      front := front + Zeros(0) + digest;
    } else {
      NoCounts();
      Put(header, 32, digest, front);
      front := front + Zeros(8) + digest;
    }
    r := header[..];
    assert r == front;
  }

  lemma NoCounts()
    ensures Counts(0, 0) == Zeros(8)
  {
    assert Le16(0) == [0, 0] && Le32(0) == [0, 0, 0, 0];
  }

  /** `build_package`. */
  method BuildPackage(spec: Spec, executable: seq<byte>, resources: seq<Resource>, hash: Hash) returns (r: Option<seq<byte>>)
    ensures r.Some? <==> BuildOk(spec, executable, resources)
    ensures r.Some? ==> RecordsFit(Normalized(resources))
    ensures r.Some? ==>
      r.value == Package(if resources == [] then 1 else 2, ManifestOf(spec, executable, hash), executable, Normalized(resources), hash)
  {
    hide SpecOk, ResourcesOk, Records, RecordsFit, Normalized, Header;
    if executable == [] || |executable| > 0x100_0000 {
      return None;
    }
    var manifest := EncodeManifest(spec, executable, hash);
    if manifest.None? {
      return None;
    }
    var records := EncodeResources(resources);
    if records.None? {
      return None;
    }
    FewResources(resources);
    var body := manifest.value + executable + records.value;
    var header := BuildHeader(|executable|, |resources|, |records.value|, hash(body));
    return Some(header + body);
  }

  lemma FewResources(resources: seq<Resource>)
    requires ResourcesOk(resources)
    ensures |resources| <= 13
    ensures RecordsFit(Normalized(resources)) ==>
      |Records(Normalized(resources))| < 0x1_0000_0000 && (resources == [] ==> Records(Normalized(resources)) == [])
  {
  }

  /** `parse_package`: a cursor over the records and the set of paths seen. */
  method ParsePackage(p: seq<byte>, hash: Hash) returns (r: Option<Parsed>)
    ensures r == Parse(p, hash)
  {
    hide HeadOk, U16, U32, U64, Inspect, Read;
    if |p| < 1088 || !HeadOk(p) {
      return None;
    }
    var executableBytes, count := U64(p, 16), U16(p, 24);
    if 1088 + executableBytes + U32(p, 28) != |p| {
      return None;
    }
    var body := p[64..];
    if hash(body) != p[32..64] {
      return None;
    }
    var manifest, end := body[..1024], 1024 + executableBytes;
    var executable := body[1024..end];
    var records := ParseRecords(body, end, count);
    if records.None? || records.value.1 != |body| {
      return None;
    }
    var report := Inspect(manifest, executable, hash);
    if report.None? || (records.value.0 != [] && report.value.resourceDirectory == []) {
      return None;
    }
    return Some(Parsed(U16(p, 8), manifest, executable, records.value.0, report.value));
  }

  method ParseRecords(body: seq<byte>, start: nat, count: nat) returns (r: Option<(seq<Resource>, nat)>)
    ensures r == Read(body, start, count, {})
  {
    hide ReadOne, Read;
    var cursor: nat, index: nat := start, 0;
    PrefixedNone(Read(body, start, count, {}));
    var resources: seq<Resource> := [];
    var occupied: set<Text> := {};
    while index < count
      invariant 0 <= index <= count
      invariant Read(body, start, count, {}) == Prefixed(resources, Read(body, cursor, count - index, occupied))
    {
      ReadStep(body, cursor, count - index, occupied);
      var one := ReadOne(body, cursor, occupied);
      if one.None? {
        return None;
      }
      PrefixedNext(resources, one.value, Read(body, cursor + 32 + |one.value.payload|, count - index - 1, occupied + {one.value.path}));
      occupied := occupied + {one.value.path};
      resources := resources + [one.value];
      cursor, index := cursor + 32 + |one.value.payload|, index + 1;
    }
    ReadNone(body, cursor, occupied);
    assert resources + [] == resources;
    return Some((resources, cursor));
  }

  function Prefixed(front: seq<Resource>, rest: Option<(seq<Resource>, nat)>): (r: Option<(seq<Resource>, nat)>) {
    if rest.None? then None else Some((front + rest.value.0, rest.value.1))
  }

  lemma PrefixedNone(rest: Option<(seq<Resource>, nat)>)
    ensures Prefixed([], rest) == rest
  {
    if rest.Some? {
      assert [] + rest.value.0 == rest.value.0;
    }
  }

  lemma PrefixedNext(front: seq<Resource>, x: Resource, rest: Option<(seq<Resource>, nat)>)
    ensures Prefixed(front, Prefixed([x], rest)) == Prefixed(front + [x], rest)
  {
    if rest.Some? {
      assert front + ([x] + rest.value.0) == front + [x] + rest.value.0;
    }
  }

  lemma ReadStep(body: seq<byte>, cursor: nat, count: nat, occupied: set<Text>)
    requires 0 < count
    ensures
      var one := ReadOne(body, cursor, occupied);
      Read(body, cursor, count, occupied) ==
        if one.None? then None
        else Prefixed([one.value], Read(body, cursor + 32 + |one.value.payload|, count - 1, occupied + {one.value.path}))
  {
  }

  lemma ReadNone(body: seq<byte>, cursor: nat, occupied: set<Text>)
    ensures Read(body, cursor, 0, occupied) == Some(([], cursor))
  {
  }

  // ---------------------------------------------------------------------------------------------
  // Round trip

  lemma UpperTwice(v: Text)
    ensures Upper(Upper(v)) == Upper(v) && Encode(Upper(v)) == Encode(v)
  {
    assert forall i :: 0 <= i < |v| ==> UpperByte(UpperByte(v[i])) == UpperByte(v[i]);
    assert Upper(Upper(v)) == Upper(v);
  }

  /** Accepted resources can be stored. */
  lemma NormalizedIsStored(resources: seq<Resource>)
    requires ResourcesOk(resources)
    ensures AllStored(Normalized(resources), {})
  {
    hide Encode, Upper, FatPlan.Sort;
    var sorted, all := FatPlan.Sort(resources, Key), Normalized(resources);
    FatPlan.SortSorts(resources, Key);
    forall r | r in all ensures StoredOk(r) {
      var k :| 0 <= k < |all| && all[k] == r;
      assert sorted[k] in sorted && sorted[k] in resources && r == Raised(sorted[k]);
      PathFits(sorted[k].path);
      UpperTwice(sorted[k].path);
    }
    forall i, j | 0 <= i < j < |all| ensures all[i].path != all[j].path {
      assert Key(sorted[i]) != Key(sorted[j]);
    }
  }

  /** The resources come back with the same payloads under upper-case names, in ascending order. */
  lemma NormalizedIsSorted(resources: seq<Resource>)
    requires ResourcesOk(resources)
    ensures FatPlan.Sorted(Normalized(resources), Key) && |Normalized(resources)| == |resources|
    ensures forall r :: r in Normalized(resources) <==> exists x :: x in resources && r == Raised(x)
  {
    hide Encode, Upper, FatPlan.Sort, FatPlan.Less;
    var sorted, all := FatPlan.Sort(resources, Key), Normalized(resources);
    FatPlan.SortSorts(resources, Key);
    forall i | 0 <= i < |all| - 1 ensures FatPlan.InOrder(all, Key, i) {
      assert FatPlan.InOrder(sorted, Key, i);
      UpperTwice(sorted[i].path);
      UpperTwice(sorted[i + 1].path);
    }
    forall r | r in all ensures exists x :: x in resources && r == Raised(x) {
      var k :| 0 <= k < |all| && all[k] == r;
      assert sorted[k] in sorted && sorted[k] in resources && r == Raised(sorted[k]);
    }
    forall x | x in resources ensures Raised(x) in all {
      assert x in sorted;
      var k :| 0 <= k < |sorted| && sorted[k] == x;
      assert all[k] == Raised(x);
    }
  }

  /** Parsing a built package returns the manifest, the executable, the normalized resources and a
      report that agrees with the specification; it is refused exactly when there are resources and no
      directory for them. */
  lemma PackageRoundTrip(
    spec: Spec, executable: seq<byte>, resources: seq<Resource>, hash: Hash, p: seq<byte>)
    requires BuildOk(spec, executable, resources) && RecordsFit(Normalized(resources))
    requires p == Package(if resources == [] then 1 else 2, ManifestOf(spec, executable, hash), executable, Normalized(resources), hash)
    ensures Parse(p, hash) ==
      if resources != [] && spec.resourceDirectory == [] then None
      else Some(Parsed(if resources == [] then 1 else 2, ManifestOf(spec, executable, hash), executable,
                       Normalized(resources), ReportOf(spec, executable, hash)))
  {
    hide SpecOk, ResourcesOk, AllStored, RecordsFit, Normalized, ManifestOf, Parse, Package, Inspect;
    var q := Parsed(if resources == [] then 1 else 2, ManifestOf(spec, executable, hash), executable, Normalized(resources),
                    ReportOf(spec, executable, hash));
    FewResources(resources);
    NormalizedIsStored(resources);
    ManifestRoundTrip(spec, executable, hash);
    ParseIsExact(p, hash, q);
    if resources != [] && spec.resourceDirectory == [] {
      Homeless(p, hash, q);
    }
  }

  /** Resources without a directory are refused. */
  lemma Homeless(p: seq<byte>, hash: Hash, q: Parsed)
    requires q.version == 2 && |q.executable| < 0x1_0000_0000_0000_0000 && |q.resources| <= 13 && q.resources != []
    requires AllStored(q.resources, {}) && RecordsFit(q.resources) && p == Package(2, q.manifest, q.executable, q.resources, hash)
    requires Inspect(q.manifest, q.executable, hash) == Some(q.report) && q.report.resourceDirectory == []
    ensures Parse(p, hash) == None
  {
    hide Inspect, Read, AllStored, RecordsFit, Records, HoldsAt, U16, U32, U64, Sizes, Counts;
    InspectedSize(q.manifest, q.executable, hash);
    RecordsFitWord(q);
    var records := Records(q.resources);
    var body := q.manifest + q.executable + records;
    CutHeader(p, PACKAGE_MAGIC, Sizes(2, |q.executable|), Counts(|q.resources|, |records|), hash(body), body);
    SizesAre(p, 2, |q.executable|);
    CountsAre(p, |q.resources|, |records|);
    CutBody(body, q.manifest, q.executable, records);
    ReadIsExact(body, 1024 + |q.executable|, {}, q.resources, |body|);
  }

  /** The capability names reported for a request are the requested ones, in table order. */
  lemma CapabilitiesReported(requested: seq<string>, name: string)
    requires forall i :: 0 <= i < |requested| ==> requested[i] in CAPABILITIES
    ensures |CAPABILITIES| == 10 && (name in NamesOf(Requested(requested), CAPABILITIES) <==> name in requested)
  {
    hide CAPABILITIES;
    TenCapabilities();
    NamesAre(Requested(requested), CAPABILITIES, name);
    if name in requested {
      var i := IndexOf(CAPABILITIES, name);
      assert Requested(requested)[i] && CAPABILITIES[i] == name;
    }
  }

  // ---------------------------------------------------------------------------------------------
  // Stored names

  /** Two accepted paths name the same 8.3 file exactly when they agree up to case and a final period. */
  lemma SameStoredNameIff(a: Text, b: Text)
    requires Encode(a).Some? && Encode(b).Some?
    ensures a != [] && b != []
    ensures Encode(a) == Encode(b) <==> DropFinalPeriod(Upper(a)) == DropFinalPeriod(Upper(b))
  {
    hide Encode, NameText, Canonical;
    EncodeRoundTrip(a);
    EncodeRoundTrip(b);
    if DropFinalPeriod(Upper(a)) == DropFinalPeriod(Upper(b)) {
      CanonicalTextIsInjective(Encode(a).value, Encode(b).value);
    }
  }

  ghost predicate DistinctStored(rs: seq<Resource>) {
    forall i, j :: 0 <= i < j < |rs| ==> Encode(rs[i].path) != Encode(rs[j].path)
  }

  ghost predicate DistinctFolded(rs: seq<Resource>)
    requires forall r :: r in rs ==> r.path != []
  {
    forall i, j :: 0 <= i < j < |rs| ==> DropFinalPeriod(Upper(rs[i].path)) != DropFinalPeriod(Upper(rs[j].path))
  }

  /** The resources of an accepted package have distinct paths; they have distinct 8.3 names exactly
      when the paths stay distinct without case and final periods. */
  lemma AcceptedNamesAreDistinctIff(p: seq<byte>, hash: Hash, q: Parsed)
    requires Parse(p, hash) == Some(q)
    ensures forall r :: r in q.resources ==> r.path != []
    ensures forall i, j :: 0 <= i < j < |q.resources| ==> q.resources[i].path != q.resources[j].path
    ensures DistinctStored(q.resources) <==> DistinctFolded(q.resources)
  {
    hide Parse, Encode, Package, Upper;
    ParseIsExact(p, hash, q);
    forall r | r in q.resources ensures r.path != [] && Encode(r.path).Some? {
      SameStoredNameIff(r.path, r.path);
    }
    forall i, j | 0 <= i < j < |q.resources|
      ensures Encode(q.resources[i].path) == Encode(q.resources[j].path) <==>
        DropFinalPeriod(Upper(q.resources[i].path)) == DropFinalPeriod(Upper(q.resources[j].path))
    {
      assert q.resources[i] in q.resources && q.resources[j] in q.resources;
      SameStoredNameIff(q.resources[i].path, q.resources[j].path);
    }
  }

  /** `A` and `A.` are accepted together by the builder. */
  lemma FinalPeriodCollides(rs: seq<Resource>)
    requires rs == [Resource([0x41], [1]), Resource([0x41, PERIOD], [2])]
    ensures ResourcesOk(rs) && !DistinctStored(rs)
  {
    var a, b := Upper([0x41]), Upper([0x41, PERIOD]);
    assert a == [0x41] && b == [0x41, PERIOD];
    assert FirstPeriod(a) == 1 && FirstPeriod(b) == 1;
    assert b[..1] == [0x41] && b[2..] == [] && a[..1] == [0x41];
    assert Split(a) == ([0x41], []) && Split(b) == ([0x41], []);
    assert Encode(rs[0].path) == Encode(rs[1].path);
  }

  lemma CaseCollides(rs: seq<Resource>)
    requires rs == [Resource([0x61], [1]), Resource([0x41], [2])]
    ensures !DistinctStored(rs) && Encode([0x41]).Some?
  {
    assert Upper([0x61]) == [0x41] == Upper([0x41]);
    assert FirstPeriod([0x41]) == 1 && Split([0x41]).0 == [0x41];
    assert Encode(rs[0].path) == Encode(rs[1].path);
  }

  /** A report with a directory for resources. */
  function PlainReport(executable: seq<byte>, hash: Hash): (r: Report) {
    Report([0x4E], [0x49], [0x45], |executable|, hash(executable), 65_536, 1, 1, seq(10, i => false), [0x52], [0x44], [], [])
  }

  /** Any two storable resources with different paths make a package the parser accepts. */
  lemma PairIsParsed(hash: Hash, rs: seq<Resource>) returns (p: seq<byte>, q: Parsed)
    requires |rs| == 2 && StoredOk(rs[0]) && StoredOk(rs[1]) && rs[0].path != rs[1].path
    ensures Parse(p, hash) == Some(q) && q.resources == rs
  {
    hide Layout, Inspect, Parse, Package, StoredOk;
    var executable: seq<byte> := [0];
    var report := PlainReport(executable, hash);
    PlainFits(executable, hash);
    var manifest := Layout(report, Zeros(32));
    GapIs(report, Zeros(32));
    InspectIsExact(manifest, executable, hash, report);
    q := Parsed(2, manifest, executable, rs, report);
    PairIsStored(rs);
    p := Package(2, manifest, executable, rs, hash);
    ParseIsExact(p, hash, q);
  }

  lemma PlainFits(executable: seq<byte>, hash: Hash)
    ensures ReportFits(PlainReport(executable, hash)) && Describes(PlainReport(executable, hash), executable, hash)
  {
  }

  lemma PairIsStored(rs: seq<Resource>)
    requires |rs| == 2 && StoredOk(rs[0]) && StoredOk(rs[1]) && rs[0].path != rs[1].path
    ensures AllStored(rs, {}) && RecordsFit(rs)
  {
    hide StoredOk;
    StoredFits(rs[0]);
    StoredFits(rs[1]);
    assert forall r :: r in rs ==> r == rs[0] || r == rs[1];
  }

  /** Whatever the digest function, the parser accepts a package that stores `A` beside `A.`, and one
      that stores `a` beside `A`: in each, two resources have one 8.3 name. */
  lemma ParserKeepsBoth(hash: Hash) returns (p: seq<byte>, q: Parsed, p': seq<byte>, q': Parsed)
    ensures Parse(p, hash) == Some(q) && !DistinctStored(q.resources)
    ensures Parse(p', hash) == Some(q') && !DistinctStored(q'.resources)
    ensures q.resources == [Resource([0x41], [1]), Resource([0x41, PERIOD], [2])]
    ensures q'.resources == [Resource([0x61], [1]), Resource([0x41], [2])]
  {
    hide Parse, Encode, DistinctStored, FatPlan.DistinctKeys, Key;
    var rs, rs' := [Resource([0x41], [1]), Resource([0x41, PERIOD], [2])], [Resource([0x61], [1]), Resource([0x41], [2])];
    FinalPeriodCollides(rs);
    CaseCollides(rs');
    assert ResourceOk(rs[0]) && ResourceOk(rs[1]);
    UpperTwice([0x61]);
    assert Upper([0x61]) == [0x41];
    p, q := PairIsParsed(hash, rs);
    p', q' := PairIsParsed(hash, rs');
  }
}
