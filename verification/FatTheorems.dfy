/** The results about whole images: what acceptance guarantees, and what the formatters deliver. */
module FatTheorems {
  import opened Bytes
  import opened ShortNames
  import opened FatChain
  import opened FatGeometry
  import opened FatDirectory
  import opened FatOwnership
  import opened FatTree
  import opened FatInspector
  import opened FatLayout
  import opened FatAcceptance
  import opened FatImage
  import opened FatFormatter
  import opened FatPlan
  import opened FatCommands

  // ---------------------------------------------------------------------------------------------
  // Accepted images

  /** The volume inside an accepted image. */
  ghost function VolumeIn(image: seq<byte>): (v: Volume)
    requires Inspected(image).Some?
    ensures Valid(v) && Accepts(v, ParseGeometry(image).value.rootCluster)
    ensures Inspected(image).value.records == Tree(v, ParseGeometry(image).value.rootCluster).records
  {
    hide ParseFsInfo, FatsMatch, ParseDirectory, Allocated, ParseGeometry, View;
    AcceptedGeometryFits(image);
    ViewRepresents(image, ParseGeometry(image).value);
    View(image, ParseGeometry(image).value)
  }

  /** In every accepted image the nonzero table entries are exactly the clusters on chains reachable
      from the root, each charged to the path of a record that holds it, and the reported free count is
      what they leave and what any known hint says. */
  lemma AcceptedImageIsExact(image: seq<byte>, c: nat)
    requires Inspected(image).Some?
    ensures
      var v, report := VolumeIn(image), Inspected(image).value;
      var root := report.geometry.rootCluster;
      && (c in Allocated(v) <==> OnChain(v, c, Holders(root, report.records)))
      && (c in Allocated(v) <==> c in Tree(v, root).owners)
      && (c in Tree(v, root).owners ==>
            exists r :: r in Holders(root, report.records) && c in Held(v, r) && Tree(v, root).owners[c] == r.path)
      && report.used == |Allocated(v)| && report.free == report.geometry.clusterCount - report.used
    ensures Fits(Inspected(image).value.geometry, |image|)
    ensures
      var report := Inspected(image).value;
      var info := ParseFsInfo(image, report.geometry);
      info.Ok? && (info.value.freeHint != UNKNOWN ==> info.value.freeHint == report.free) && FatsMatch(image, report.geometry)
  {
    hide ParseFsInfo, FatsMatch, ParseDirectory, Allocated, ParseGeometry, View, OnChain, Holders, Fits, Sound, Held;
    AcceptedGeometryFits(image);
    var v, root := VolumeIn(image), ParseGeometry(image).value.rootCluster;
    AcceptedIsSound(v, root);
    AllocatedExactlyReachable(v, root, Tree(v, root), c);
  }

  /** With canonical names: what is charged to different records never overlaps; whole chains are
      disjoint, and the free count is the volume less the total chain length, exactly when every
      directory ends in the last cluster of its chain. */
  lemma CanonicalImageIsDisjoint(image: seq<byte>)
    requires Inspected(image).Some? && AllCanonical(Inspected(image).value.records)
    ensures
      var v, report := VolumeIn(image), Inspected(image).value;
      var holders := Holders(report.geometry.rootCluster, report.records);
      && HeldDisjoint(v, holders)
      && (ChainsDisjoint(v, holders) <==> AllEndInLastCluster(v, holders))
      && (report.free == report.geometry.clusterCount - TotalChain(v, holders) <==> AllEndInLastCluster(v, holders))
  {
    hide ParseFsInfo, FatsMatch, ParseDirectory, Allocated, ParseGeometry, View, Holders, Fits, Sound, AllCanonical,
      DistinctPaths, HeldDisjoint, ChainsDisjoint, AllEndInLastCluster;
    var v, root := VolumeIn(image), ParseGeometry(image).value.rootCluster;
    CanonicalNamesGiveDistinctPaths(v, root);
    AcceptedIsSound(v, root);
    ChargesAreDisjoint(v, root, Tree(v, root));
    ChainsDisjointIff(v, root, Tree(v, root));
    FreeCount(v, root, Tree(v, root));
  }

  // ---------------------------------------------------------------------------------------------
  // An accepted volume with a shared cluster

  const NAME_A: Text := [0x41, 0x20, 0x20, 0x20, 0x20, 0x20, 0x20, 0x20, 0x20, 0x20, 0x20]
  const NAME_B: Text := [0x42, 0x20, 0x20, 0x20, 0x20, 0x20, 0x20, 0x20, 0x20, 0x20, 0x20]

  const ROOT_ENTRIES: seq<seq<byte>> := [LabelEntry(DATA_LABEL), Entry(NAME_A, 0x10, 3, 0), Entry(NAME_B, 0x20, 4, 1)]

  /** A root that lists a two-cluster directory whose end marker stands in its first cluster, and a
      file whose only cluster is that directory's second. */
  ghost predicate SharesTail(v: Volume) {
    && Valid(v) && 5 <= |v.fat| && v.clusterBytes == 512
    && v.fat[0] == MEDIA_ENTRY && v.fat[1] == EOC && v.fat[2] == EOC && v.fat[3] == 4 && v.fat[4] == EOC
    && (forall c :: 5 <= c < |v.fat| ==> v.fat[c] == 0)
    && Holds(v.clusters[2], ROOT_ENTRIES) && v.clusters[3] == Zeros(512)
  }

  function RecordA(base: nat): (r: Record) {
    Record([0x41], NAME_A, 0x10, 3, 0, base + 32, 2)
  }

  function RecordB(base: nat): (r: Record) {
    Record([0x42], NAME_B, 0x20, 4, 1, base + 64, 2)
  }

  lemma NamesRead()
    ensures Canonical(NAME_A) && Canonical(NAME_B)
    ensures NameText(NAME_A) == Some([0x41]) && NameText(NAME_B) == Some([0x42])
  {
    hide Rstrip, NameText;
    assert NAME_A == Pad([0x41], 8) + Pad([], 3) && NAME_B == Pad([0x42], 8) + Pad([], 3);
    assert IsEncoding(NAME_A, [0x41], []) && IsEncoding(NAME_B, [0x42], []);
    EncodingText(NAME_A, [0x41], []);
    EncodingText(NAME_B, [0x42], []);
  }

  /** The tree walk accepts such a volume, and the two chains overlap. */
  lemma SharedVolumeIsAccepted(v: Volume)
    requires SharesTail(v)
    ensures Accepts(v, 2) && Tree(v, 2).records == [RecordA(OffsetOf(v, 2)), RecordB(OffsetOf(v, 2))]
    ensures AllCanonical(Tree(v, 2).records) && !ChainsDisjoint(v, Holders(2, Tree(v, 2).records))
    ensures |Allocated(v)| == 3
  {
    hide *;
    var base := OffsetOf(v, 2);
    SharedWalkAccepts(v, base);
    SharedAllocates(v);
    SharedOverlaps(v, base);
  }

  lemma SharedWalkAccepts(v: Volume, base: nat)
    requires SharesTail(v) && base == OffsetOf(v, 2)
    ensures Accepts(v, 2) && Tree(v, 2).records == [RecordA(base), RecordB(base)]
  {
    hide NameText, Classify, ScanChain, Walk, Holds, ReadDirectory, ToEndMarker, Accepts, Tree, NAME_A, NAME_B, ROOT_ENTRIES;
    SharedRootReads(v, base);
    SharedDirectory(v);
    SharedParses(v, RecordA(base), RecordB(base), base);
  }

  lemma SharedAllocates(v: Volume)
    requires SharesTail(v)
    ensures |Allocated(v)| == 3
  {
    hide Holds, ROOT_ENTRIES;
    assert Allocated(v) == {2, 3, 4};
  }

  lemma SharedOverlaps(v: Volume, base: nat)
    requires SharesTail(v)
    ensures
      var records := [RecordA(base), RecordB(base)];
      AllCanonical(records) && !ChainsDisjoint(v, Holders(2, records))
  {
    hide NameText, Canonical, Walk, Holds, ReadDirectory, ToEndMarker, NAME_A, NAME_B, ROOT_ENTRIES, Holders, ChainsDisjoint;
    var a, b := RecordA(base), RecordB(base);
    NamesRead();
    SharedDirectory(v);
    SharedHolders(base);
    assert ChainOf(v, 3) == [3, 4] && ChainOf(v, 4) == [4] && 4 in [3, 4];
    SharedIsNotDisjoint(v, Holders(2, [a, b]), a, b, 4);
  }

  lemma SharedHolders(base: nat)
    ensures
      var records := [RecordA(base), RecordB(base)];
      RecordA(base) in Holders(2, records) && RecordB(base) in Holders(2, records)
  {
    assert NAME_A[0] == 0x41 && NAME_B[0] == 0x42 && DOT[0] == PERIOD && DOTDOT[0] == PERIOD;
  }

  lemma SharedRootReads(v: Volume, base: nat)
    requires SharesTail(v) && base == OffsetOf(v, 2)
    ensures ReadDirectory(v, 2, [SLASH]) == Some([RecordA(base), RecordB(base)])
    ensures ToEndMarker(v, ChainOf(v, 2)) == [2]
  {
    hide NameText, Canonical, Classify, Entry, LabelEntry, ScanChain, Walk, Holds, DATA_LABEL, ReadDirectory, ToEndMarker, ChainOf;
    var a, b := RecordA(base), RecordB(base);
    NamesRead();
    EntryIsNamed(NAME_A, 0x10, 3, 0, [SLASH], base + 32, 2);
    EntryIsNamed(NAME_B, 0x20, 4, 1, [SLASH], base + 64, 2);
    LabelIsListed(base);
    assert ReadsAs(ROOT_ENTRIES, 1, [a, b], base, [SLASH], 2);
    ReadListing(v, 2, [SLASH], ROOT_ENTRIES, 1, [a, b]);
  }

  lemma LabelIsListed(base: nat)
    ensures Classify(LabelEntry(DATA_LABEL), false, [SLASH], base, 2) == VolumeLabel
  {
    LabelIsSkipped(DATA_LABEL, [SLASH], base, 2);
  }

  /** An image the inspector accepts, with canonical names, in which a file shares the unread tail of
      a directory: chains overlap, and free space is not the volume less the total chain length. */
  method SharedTailIsAccepted() returns (image: seq<byte>)
    ensures Inspected(image).Some? && AllCanonical(Inspected(image).value.records)
    ensures
      var v, report := VolumeIn(image), Inspected(image).value;
      var holders := Holders(report.geometry.rootCluster, report.records);
      !ChainsDisjoint(v, holders) && report.free != report.geometry.clusterCount - TotalChain(v, holders)
  {
    hide Shows, Prepared, Finished, BootSector, Holds, LabelEntry, Entry, FsInfoFor, FatWritten, DATA_LABEL, Inspected, Holders,
      ChainsDisjoint, AllCanonical, NAME_A, NAME_B;
    NamesFit();
    var f := new Formatter();
    f.Prepare(DATA_ID, DATA_LABEL);
    VolumeSize(f.v, f.image[..]);
    assert f.image[..512] == f.image[..16_384][..512];
    ghost var front := f.image[..16_384];
    f.SetFat(3, 4);
    f.SetFat(4, EOC);
    f.next := 5;
    f.AddEntry(2, 1, Entry(NAME_A, 0x10, 3, 0), [LabelEntry(DATA_LABEL)]);
    f.AddEntry(2, 2, Entry(NAME_B, 0x20, 4, 1), [LabelEntry(DATA_LABEL)] + [Entry(NAME_A, 0x10, 3, 0)]);
    assert f.image[..512] == f.image[..16_384][..512];
    assert [LabelEntry(DATA_LABEL)] + [Entry(NAME_A, 0x10, 3, 0)] + [Entry(NAME_B, 0x20, 4, 1)] == ROOT_ENTRIES;
    f.Finish();
    image := f.image[..];
    assert image[..512] == f.image[..512] && image[512..1_024] == f.image[512..1_024];
    ShowsIsValid(f.v, image);
    SharedImageInspects(f.v, image);
  }

  lemma NamesFit()
    ensures |NAME_A| == |NAME_B| == 11 && |DATA_LABEL| == 11
  {
  }

  lemma SharedImageInspects(v: Volume, image: seq<byte>)
    requires Shows(v, image) && SharesTail(v)
    requires image[..512] == BootSector(DATA_ID, DATA_LABEL) && image[512..1_024] == FsInfoFor(5)
    ensures Inspected(image).Some? && AllCanonical(Inspected(image).value.records)
    ensures
      var report := Inspected(image).value;
      var holders := Holders(report.geometry.rootCluster, report.records);
      !ChainsDisjoint(VolumeIn(image), holders) && report.free != report.geometry.clusterCount - TotalChain(VolumeIn(image), holders)
  {
    hide Shows, SharesTail, BootSector, FsInfoFor, ParseGeometry, Fits, FatsMatch, ParseFsInfo, Accepts, Tree, Allocated, View,
      IsLabel, Holders, ChainsDisjoint, AllCanonical, AllEndInLastCluster, TotalChain;
    var g := Standard(DATA_ID, DATA_LABEL);
    EmptyDataIsGood();
    SizeOfShown(v, image);
    BootParses(image, DATA_ID, DATA_LABEL);
    InspectorSees(v, image, g);
    FsInfoReads(image, g, 5);
    SharedVolumeIsAccepted(v);
    ReservedEntries(v);
    CanonicalImageIsDisjoint(image);
  }

  lemma SizeOfShown(v: Volume, image: seq<byte>)
    requires Shows(v, image)
    ensures |image| == IMAGE_BYTES && |DATA_LABEL| == 11
  {
  }

  lemma ReservedEntries(v: Volume)
    requires SharesTail(v)
    ensures v.fat[0] == MEDIA_ENTRY && v.fat[1] >= EOC_MIN
  {
  }

  /** The two-cluster directory reads as empty and is charged its first cluster only. */
  lemma SharedDirectory(v: Volume)
    requires Valid(v) && 5 <= |v.fat| && v.clusterBytes == 512
    requires v.fat[3] == 4 && v.fat[4] == EOC && v.clusters[3] == Zeros(512)
    ensures Walk(v.fat, 3) == Some([3, 4]) && Walk(v.fat, 4) == Some([4])
    ensures ReadDirectory(v, 3, [0x41]) == Some([]) && ToEndMarker(v, [3, 4]) == [3]
  {
    hide NameText, Walk;
    assert Linked(v.fat, [3, 4], 0);
    WalkIs(v.fat, 3, [3, 4]);
    WalkIs(v.fat, 4, [4]);
    assert HasMarkerFrom(v.clusters[3], 0);
    var entry := v.clusters[3][0..32];
    assert entry[0] == 0;
    assert ScanCluster(v.clusters[3], 0, OffsetOf(v, 3), [0x41], 3, START) == Some(Scan([], false, true));
  }

  lemma SharedFolderParses(v: Volume, owners: Owners)
    requires Valid(v) && Walk(v.fat, 3) == Some([3, 4]) && 3 !in owners
    requires ReadDirectory(v, 3, [0x41]) == Some([]) && ToEndMarker(v, [3, 4]) == [3]
    ensures ParseDirectory(v, 3, [0x41], owners, {2}) == Some(Parsed([], Charge(owners, [3], [0x41])))
  {
    hide NameText, Walk, ScanChain, ReadDirectory, ToEndMarker, ParseRecords, Charge;
    var none: seq<Record> := [];
    assert none + none == none && ChainOf(v, 3) == [3, 4];
    NoRecords(v, {}, Charge(owners, [3], [0x41]), {2} + {3});
  }

  lemma SharedFileParses(v: Volume, b: Record, owners: Owners)
    requires Valid(v) && v.clusterBytes == 512 && Walk(v.fat, 4) == Some([4]) && 4 !in owners
    requires b.path == [0x42] && b.name == NAME_B && b.attributes == 0x20 && b.first == 4 && b.size == 1
    ensures ParseRecord(v, b, owners, {2}) == Some(Parsed([], Charge(owners, [4], [0x42])))
  {
    hide NameText, Walk, ParseDirectory, Charge;
    assert NAME_B[0] == 0x42 && DOT[0] == PERIOD && DOTDOT[0] == PERIOD;
  }

  lemma SharedParses(v: Volume, a: Record, b: Record, base: nat)
    requires Valid(v) && 5 <= |v.fat| && v.clusterBytes == 512
    requires v.fat[2] == EOC && v.fat[3] == 4 && v.fat[4] == EOC && forall c :: 5 <= c < |v.fat| ==> v.fat[c] == 0
    requires a == RecordA(base) && b == RecordB(base)
    requires ReadDirectory(v, 2, [SLASH]) == Some([a, b]) && ToEndMarker(v, ChainOf(v, 2)) == [2]
    requires Walk(v.fat, 3) == Some([3, 4]) && Walk(v.fat, 4) == Some([4])
    requires ReadDirectory(v, 3, [0x41]) == Some([]) && ToEndMarker(v, [3, 4]) == [3]
    ensures Accepts(v, 2) && Tree(v, 2).records == [a, b]
  {
    hide NameText, Walk, ScanChain, ReadDirectory, ToEndMarker, ParseRecords, ParseRecord, ParseDirectory, Accepts, Tree, ChainOf;
    assert a.name[0] == 0x41 && DOT[0] == PERIOD && DOTDOT[0] == PERIOD;
    var one: Owners := Charge(map[], [2], [SLASH]);
    var two := Charge(one, [3], [0x41]);
    var three := Charge(two, [4], [0x42]);
    var none: seq<Record> := [];
    SharedFolderParses(v, one);
    SharedFileParses(v, b, two);
    DirectoryRecordParses(v, a, one, {2});
    NoRecords(v, {Upper(NAME_A)} + {Upper(NAME_B)}, three, {2});
    assert Upper(NAME_B)[0] == 0x42 && Upper(NAME_A)[0] == 0x41;
    TakeRecord(v, b, none, {Upper(NAME_A)}, two, {2}, Parsed([], three), Parsed([], three));
    assert [b] + none == [b] && {} + {Upper(NAME_A)} == {Upper(NAME_A)} && none + none == none;
    TakeRecord(v, a, [b], {}, one, {2}, Parsed([], two), Parsed([], three));
    assert [a] + [b] == [a, b];
    SharedRootParses(v, a, b, three);
  }

  lemma SharedRootParses(v: Volume, a: Record, b: Record, owners: Owners)
    requires Valid(v) && 5 <= |v.fat| && forall c :: 5 <= c < |v.fat| ==> v.fat[c] == 0
    requires ReadDirectory(v, 2, [SLASH]) == Some([a, b]) && ToEndMarker(v, ChainOf(v, 2)) == [2]
    requires ParseRecords(v, [a, b], {}, Charge(map[], [2], [SLASH]), {2}) == Some(Parsed([], owners))
    requires 2 in owners && 3 in owners && 4 in owners
    ensures Accepts(v, 2) && Tree(v, 2).records == [a, b]
  {
    hide NameText, Walk, ScanChain, ReadDirectory, ToEndMarker, ParseRecords, Charge;
    var none: seq<Record> := [];
    assert [a, b] + none == [a, b] && {} + {2} == {2};
  }

  // ---------------------------------------------------------------------------------------------
  // Read-back of everything staged

  function PathOf(t: Target): (r: Text) {
    match t
    case AtRoot(name) => TextOf(name)
    case Inside(folder, name) => TextOf(folder) + [SLASH] + TextOf(name)
  }

  /** Every staged file is reported under its path and reads back byte for byte. */
  lemma StagedFileIsStored(
    image: seq<byte>, volumeId: nat, l: Layout, staged: seq<Staged>, attributes: byte, reserved: set<Text>, i: nat)
    requires Correct(image, volumeId, l) && Admissible(staged, reserved) && attributes in {0x20, 0x21} && i < |staged|
    requires forall x :: x in RootItems(staged, attributes) ==> x in l.files
    requires l.folders == Arranged(Groups(staged, attributes))
    ensures Stores(image, Standard(volumeId, l.volumeLabel), PathOf(Resolve(staged[i].path).value), attributes, staged[i].payload)
  {
    hide Correct, Resolve, RootItems, Groups, Arranged, Canonical, TextOf, Stores, WellGrouped, WellItems, Total, FolderTotal,
      FatPlan.Sorted, Standard, Fits;
    PlanFacts(staged, attributes, reserved);
    ArrangedKeeps(Groups(staged, attributes));
    var payload := staged[i].payload;
    match Resolve(staged[i].path).value
    case AtRoot(name) =>
      var x := Item(name, attributes, payload);
      assert RootFrom(staged, attributes, x);
      var k :| 0 <= k < |l.files| && l.files[k] == x;
      RootFileIsStored(image, volumeId, l, k);
    case Inside(folder, name) =>
      var x := Item(name, attributes, payload);
      assert InsideFrom(staged, attributes, folder, x);
      assert HasItem(l.folders, folder, x);
      var g :| g in l.folders && g.name == folder && x in g.items;
      var j :| 0 <= j < |l.folders| && l.folders[j] == g;
      var k :| 0 <= k < |g.items| && g.items[k] == x;
      InnerFileIsStored(image, volumeId, l, j, k);
      ResolvedIsCanonical(staged[i].path);
      FolderChildPath(folder, name);
  }

  lemma FolderChildPath(folder: Text, name: Text)
    requires Canonical(folder)
    ensures ChildPath(ChildPath([SLASH], TextOf(folder)), TextOf(name)) == PathOf(Inside(folder, name))
  {
    hide NameText, Canonical;
    CanonicalText(folder);
    var text := TextOf(folder);
    assert ChildPath([SLASH], text) == text && text != [SLASH] && text[|text| - 1] != SLASH;
  }
}
