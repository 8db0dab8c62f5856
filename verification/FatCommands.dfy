/** The three formatting commands, proved against the inspector. */
module FatCommands {
  import opened Bytes
  import opened ShortNames
  import opened FatChain
  import opened FatGeometry
  import opened FatDirectory
  import opened FatOwnership
  import opened FatInspector
  import opened FatLayout
  import opened FatAcceptance
  import opened FatImage
  import opened FatFormatter
  import opened FatPlan

  // ---------------------------------------------------------------------------------------------
  // What staging yields

  ghost predicate RootFrom(staged: seq<Staged>, attributes: byte, x: Item) {
    exists i :: 0 <= i < |staged| && Resolve(staged[i].path) == Some(AtRoot(x.name)) &&
                x == Item(x.name, attributes, staged[i].payload)
  }

  ghost predicate InsideFrom(staged: seq<Staged>, attributes: byte, f: Text, x: Item) {
    exists i :: 0 <= i < |staged| && Resolve(staged[i].path) == Some(Inside(f, x.name)) &&
                x == Item(x.name, attributes, staged[i].payload)
  }

  ghost predicate FolderFrom(staged: seq<Staged>, f: Text) {
    exists i :: 0 <= i < |staged| && Resolve(staged[i].path).Some? && Resolve(staged[i].path).value.Inside? &&
                Resolve(staged[i].path).value.folder == f
  }

  ghost predicate RootsAre(staged: seq<Staged>, attributes: byte) {
    forall x :: x in RootItems(staged, attributes) <==> RootFrom(staged, attributes, x)
  }

  ghost predicate InsidesAre(staged: seq<Staged>, attributes: byte) {
    forall f, x :: HasItem(Groups(staged, attributes), f, x) <==> InsideFrom(staged, attributes, f, x)
  }

  function StagedTotal(staged: seq<Staged>): (n: nat) {
    if staged == [] then 0 else StagedTotal(staged[..|staged| - 1]) + Count(staged[|staged| - 1].payload)
  }

  lemma AdmissiblePrefix(staged: seq<Staged>, reserved: set<Text>, n: nat)
    requires n <= |staged| && Admissible(staged, reserved)
    ensures Admissible(staged[..n], reserved)
  {
    hide Resolve;
    assert forall i :: 0 <= i < n ==> staged[..n][i] == staged[i];
  }

  lemma FromGrows(staged: seq<Staged>, attributes: byte)
    requires staged != []
    ensures
      var front, s := staged[..|staged| - 1], staged[|staged| - 1];
      && (forall x :: RootFrom(staged, attributes, x) <==>
            RootFrom(front, attributes, x) ||
            (Resolve(s.path) == Some(AtRoot(x.name)) && x == Item(x.name, attributes, s.payload)))
      && (forall f, x :: InsideFrom(staged, attributes, f, x) <==>
            InsideFrom(front, attributes, f, x) ||
            (Resolve(s.path) == Some(Inside(f, x.name)) && x == Item(x.name, attributes, s.payload)))
      && (forall f :: FolderFrom(staged, f) <==>
            FolderFrom(front, f) ||
            (Resolve(s.path).Some? && Resolve(s.path).value.Inside? && Resolve(s.path).value.folder == f))
  {
    hide Resolve;
    var n := |staged| - 1;
    var front, s := staged[..n], staged[n];
    assert forall i :: 0 <= i < n ==> front[i] == staged[i];
    forall x ensures RootFrom(front, attributes, x) ==> RootFrom(staged, attributes, x) {
    }
  }

  lemma {:induction false} ResolvedIsCanonical(path: Text)
    requires Resolve(path).Some?
    ensures
      match Resolve(path).value
      case AtRoot(name) => Canonical(name)
      case Inside(folder, name) => Canonical(folder) && Canonical(name)
  {
    hide Encode, Canonical, NameText;
    var n := FirstSlash(path);
    if n == |path| {
      EncodeRoundTrip(path);
    } else {
      EncodeRoundTrip(path[..n]);
      EncodeRoundTrip(path[n + 1..]);
    }
  }

  /** The prepared files and groups are exactly the staged files, well formed and of the same total. */
  lemma {:induction false} PlanFacts(staged: seq<Staged>, attributes: byte, reserved: set<Text>)
    requires Admissible(staged, reserved) && attributes in {0x20, 0x21}
    ensures WellItems(RootItems(staged, attributes)) && WellGrouped(Groups(staged, attributes))
    ensures RootsAre(staged, attributes) && InsidesAre(staged, attributes)
    ensures forall f :: HasFolder(Groups(staged, attributes), f) <==> FolderFrom(staged, f)
    ensures Total(RootItems(staged, attributes)) + FolderTotal(Groups(staged, attributes)) == StagedTotal(staged)
  {
    hide Resolve, Canonical, Count, WellGrouped, WellItems, Total, FolderTotal, HasItem, HasFolder, RootFrom, InsideFrom, FolderFrom, AddTo, Clash, Taken, SizeAdmitted;
    if staged == [] {
      EmptyIsWell(attributes);
    } else {
      var n := |staged| - 1;
      var front, s := staged[..n], staged[n];
      AdmissiblePrefix(staged, reserved, n);
      PlanFacts(front, attributes, reserved);
      FromGrows(staged, attributes);
      ResolvedIsCanonical(s.path);
      match Resolve(s.path).value
      case AtRoot(name) =>
        RootStep(staged, attributes, reserved, name);
      case Inside(folder, name) =>
        InsideStep(staged, attributes, reserved, folder, name);
    }
  }

  lemma EmptyIsWell(attributes: byte)
    ensures WellItems(RootItems([], attributes)) && WellGrouped(Groups([], attributes))
    ensures RootsAre([], attributes) && InsidesAre([], attributes)
    ensures forall f :: HasFolder(Groups([], attributes), f) <==> FolderFrom([], f)
    ensures Total(RootItems([], attributes)) + FolderTotal(Groups([], attributes)) == StagedTotal([])
  {
  }

  lemma RootStep(staged: seq<Staged>, attributes: byte, reserved: set<Text>, name: Text)
    requires staged != [] && Admissible(staged, reserved) && attributes in {0x20, 0x21} && Canonical(name)
    requires Resolve(staged[|staged| - 1].path) == Some(AtRoot(name))
    requires WellItems(RootItems(staged[..|staged| - 1], attributes))
    requires RootsAre(staged[..|staged| - 1], attributes)
    ensures WellItems(RootItems(staged, attributes))
    ensures Total(RootItems(staged, attributes)) ==
            Total(RootItems(staged[..|staged| - 1], attributes)) + Count(staged[|staged| - 1].payload)
  {
    hide Resolve, Canonical, Count, WellItems, Total, SizeAdmitted;
    var n := |staged| - 1;
    var items, item := RootItems(staged[..n], attributes), Item(name, attributes, staged[n].payload);
    forall x | x in items ensures x.name != name {
      assert RootFrom(staged[..n], attributes, x);
      var i :| 0 <= i < n && Resolve(staged[..n][i].path) == Some(AtRoot(x.name));
      assert !Clash(Resolve(staged[i].path).value, Resolve(staged[n].path).value);
    }
    assert SizeAdmitted(item.payload);
    SingleIsWell(item);
    ItemsExtend(items, item);
    assert RootItems(staged, attributes) == items + [item];
    AppendTotal(items, item);
  }

  lemma SingleIsWell(item: Item)
    requires Canonical(item.name) && item.attributes in {0x20, 0x21} && SizeAdmitted(item.payload)
    ensures WellItems([item])
  {
  }

  lemma AppendTotal(items: seq<Item>, item: Item)
    ensures Total(items + [item]) == Total(items) + Count(item.payload)
  {
    assert (items + [item])[..|items|] == items;
  }

  lemma {:induction false} InsideStep(
    staged: seq<Staged>, attributes: byte, reserved: set<Text>, folder: Text, name: Text)
    requires staged != [] && Admissible(staged, reserved) && attributes in {0x20, 0x21}
    requires Canonical(folder) && Canonical(name)
    requires Resolve(staged[|staged| - 1].path) == Some(Inside(folder, name))
    requires WellGrouped(Groups(staged[..|staged| - 1], attributes))
    requires InsidesAre(staged[..|staged| - 1], attributes)
    ensures
      var item := Item(name, attributes, staged[|staged| - 1].payload);
      var groups := Groups(staged[..|staged| - 1], attributes);
      && Groups(staged, attributes) == AddTo(groups, folder, item) && WellGrouped(Groups(staged, attributes))
      && (forall f, x :: HasItem(Groups(staged, attributes), f, x) <==> HasItem(groups, f, x) || (f == folder && x == item))
      && (forall f :: HasFolder(Groups(staged, attributes), f) <==> HasFolder(groups, f) || f == folder)
      && FolderTotal(Groups(staged, attributes)) == FolderTotal(groups) + Count(item.payload)
  {
    hide Resolve, Canonical, Count;
    var n := |staged| - 1;
    var groups, item := Groups(staged[..n], attributes), Item(name, attributes, staged[n].payload);
    forall x | HasItem(groups, folder, x) ensures x.name != name {
      assert InsideFrom(staged[..n], attributes, folder, x);
      var i :| 0 <= i < n && Resolve(staged[..n][i].path) == Some(Inside(folder, x.name));
      assert !Clash(Resolve(staged[i].path).value, Resolve(staged[n].path).value);
    }
    AddToKeeps(groups, folder, item);
    AddToMembers(groups, folder, item);
    AddToTotal(groups, folder, item);
  }

  // ---------------------------------------------------------------------------------------------
  // Staging as the source does it

  datatype Plan = Plan(files: seq<Item>, groups: seq<Folder>, total: nat)

  ghost predicate RootNamed(staged: seq<Staged>, n: nat, name: Text)
    requires n <= |staged|
  {
    exists i :: 0 <= i < n && Resolve(staged[i].path) == Some(AtRoot(name))
  }

  ghost predicate FolderNamed(staged: seq<Staged>, n: nat, folder: Text)
    requires n <= |staged|
  {
    FolderFrom(staged[..n], folder)
  }

  ghost predicate KeyUsed(staged: seq<Staged>, n: nat, folder: Text, name: Text)
    requires n <= |staged|
  {
    exists i :: 0 <= i < n && Resolve(staged[i].path) == Some(Inside(folder, name))
  }

  /** The occupied names after `n` files. */
  ghost predicate Occupied(
    staged: seq<Staged>, n: nat, reserved: set<Text>, occupied: set<Text>, folders: set<Text>, keys: set<(Text, Text)>)
    requires n <= |staged|
  {
    && (forall x :: x in occupied <==> x in reserved || RootNamed(staged, n, x))
    && (forall f :: f in folders <==> FolderNamed(staged, n, f))
    && (forall f, x :: (f, x) in keys <==> KeyUsed(staged, n, f, x))
  }

  /** Resolve, check and group the staged files in order. */
  method Arrange(staged: seq<Staged>, reserved: set<Text>, attributes: byte) returns (r: Option<Plan>)
    ensures r.Some? <==> Admissible(staged, reserved)
    ensures r.Some? ==> r.value == Plan(RootItems(staged, attributes), Groups(staged, attributes), StagedTotal(staged))
  {
    hide Resolve, Count, Admissible, Occupied, RootItems, Groups, StagedTotal, AddTo, SizeAdmitted;
    var files: seq<Item>, groups: seq<Folder>, total := [], [], 0;
    var occupied, folders: set<Text>, keys: set<(Text, Text)>, i := reserved, {}, {}, 0;
    NothingStaged(staged, reserved, attributes);
    while i < |staged|
      invariant 0 <= i <= |staged| && Admissible(staged[..i], reserved)
      invariant Occupied(staged, i, reserved, occupied, folders, keys)
      invariant files == RootItems(staged[..i], attributes) && groups == Groups(staged[..i], attributes)
      invariant total == StagedTotal(staged[..i])
    {
      var s := staged[i];
      var target := Resolve(s.path);
      if !SizeAdmitted(s.payload) || target.None? {
        BadFile(staged, i, reserved);
        return None;
      }
      AdmitStep(staged, i, reserved, occupied, folders, keys);
      PlanStep(staged, i, attributes);
      OccupiedNext(staged, i, reserved, occupied, folders, keys);
      match target.value {
        case AtRoot(name) =>
          if name in occupied || name in folders {
            return None;
          }
          occupied, files := occupied + {name}, files + [Item(name, attributes, s.payload)];
        case Inside(folder, name) =>
          if folder in occupied || (folder, name) in keys {
            return None;
          }
          folders, keys := folders + {folder}, keys + {(folder, name)};
          groups := AddTo(groups, folder, Item(name, attributes, s.payload));
      }
      total, i := total + Count(s.payload), i + 1;
    }
    assert staged[..i] == staged;
    return Some(Plan(files, groups, total));
  }

  lemma NothingStaged(staged: seq<Staged>, reserved: set<Text>, attributes: byte)
    ensures Admissible(staged[..0], reserved) && Occupied(staged, 0, reserved, reserved, {}, {})
    ensures RootItems(staged[..0], attributes) == [] && Groups(staged[..0], attributes) == [] && StagedTotal(staged[..0]) == 0
  {
    hide Resolve;
  }

  lemma BadFile(staged: seq<Staged>, i: nat, reserved: set<Text>)
    requires i < |staged| && (!SizeAdmitted(staged[i].payload) || Resolve(staged[i].path).None?)
    ensures !Admissible(staged, reserved)
  {
    hide Resolve, SizeAdmitted;
  }

  /** What one more file adds to the plan. */
  lemma {:induction false} PlanStep(staged: seq<Staged>, i: nat, attributes: byte)
    requires i < |staged| && Resolve(staged[i].path).Some?
    ensures
      var s, front, more := staged[i], staged[..i], staged[..i + 1];
      && StagedTotal(more) == StagedTotal(front) + Count(s.payload)
      && match Resolve(s.path).value
         case AtRoot(name) =>
           && RootItems(more, attributes) == RootItems(front, attributes) + [Item(name, attributes, s.payload)]
           && Groups(more, attributes) == Groups(front, attributes)
         case Inside(folder, name) =>
           && RootItems(more, attributes) == RootItems(front, attributes)
           && Groups(more, attributes) == AddTo(Groups(front, attributes), folder, Item(name, attributes, s.payload))
  {
    hide Resolve, Count, AddTo;
    assert staged[..i + 1][..i] == staged[..i] && staged[..i + 1][i] == staged[i];
  }

  lemma {:induction false} OccupiedNext(
    staged: seq<Staged>, i: nat, reserved: set<Text>, occupied: set<Text>, folders: set<Text>, keys: set<(Text, Text)>)
    requires i < |staged| && Resolve(staged[i].path).Some? && Occupied(staged, i, reserved, occupied, folders, keys)
    ensures
      match Resolve(staged[i].path).value
      case AtRoot(name) => Occupied(staged, i + 1, reserved, occupied + {name}, folders, keys)
      case Inside(folder, name) =>
        Occupied(staged, i + 1, reserved, occupied, folders + {folder}, keys + {(folder, name)})
  {
    hide Resolve, RootNamed, FolderNamed, KeyUsed;
    OccupiedStep(staged, i, reserved);
  }

  /** The membership tests admit file `i` exactly when it collides with nothing before it. */
  lemma AdmitStep(
    staged: seq<Staged>, i: nat, reserved: set<Text>, occupied: set<Text>, folders: set<Text>, keys: set<(Text, Text)>)
    requires i < |staged| && Admissible(staged[..i], reserved) && Occupied(staged, i, reserved, occupied, folders, keys)
    requires SizeAdmitted(staged[i].payload) && Resolve(staged[i].path).Some?
    ensures
      var t := Resolve(staged[i].path).value;
      var refused := if t.AtRoot? then t.name in occupied || t.name in folders
                     else t.folder in occupied || (t.folder, t.name) in keys;
      && (refused ==> !Admissible(staged, reserved))
      && (!refused ==> Admissible(staged[..i + 1], reserved))
  {
    hide Resolve;
    var t := Resolve(staged[i].path).value;
    var more := staged[..i + 1];
    assert forall k :: 0 <= k < i ==> staged[..i][k] == staged[k] == more[k];
    if t.AtRoot? && t.name in folders {
      var k :| 0 <= k < i && Resolve(staged[..i][k].path).Some? && Resolve(staged[..i][k].path).value.Inside? &&
               Resolve(staged[..i][k].path).value.folder == t.name;
      assert Clash(Resolve(staged[k].path).value, t);
    }
    if (if t.AtRoot? then t.name !in occupied && t.name !in folders
        else t.folder !in occupied && (t.folder, t.name) !in keys) {
      forall k | 0 <= k < i ensures !Clash(Resolve(more[k].path).value, t) {
        assert Resolve(staged[k].path).Some?;
        if t.AtRoot? {
          assert !RootNamed(staged, i, t.name) && !FolderNamed(staged, i, t.name);
          assert Resolve(staged[..i][k].path) == Resolve(staged[k].path);
        } else {
          assert !RootNamed(staged, i, t.folder) && !KeyUsed(staged, i, t.folder, t.name);
        }
      }
    }
  }

  lemma OccupiedStep(staged: seq<Staged>, i: nat, reserved: set<Text>)
    requires i < |staged| && Resolve(staged[i].path).Some?
    ensures
      var t := Resolve(staged[i].path).value;
      && (forall x :: RootNamed(staged, i + 1, x) <==> RootNamed(staged, i, x) || t == AtRoot(x))
      && (forall f :: FolderNamed(staged, i + 1, f) <==> FolderNamed(staged, i, f) || (t.Inside? && t.folder == f))
      && (forall f, x :: KeyUsed(staged, i + 1, f, x) <==> KeyUsed(staged, i, f, x) || t == Inside(f, x))
  {
    hide Resolve;
    assert forall k :: 0 <= k < i ==> staged[..i][k] == staged[k] && staged[..i + 1][k] == staged[k];
    assert staged[..i + 1][i] == staged[i];
    forall f | FolderNamed(staged, i, f) ensures FolderNamed(staged, i + 1, f) {
      var k :| 0 <= k < i && Resolve(staged[..i][k].path).Some? && Resolve(staged[..i][k].path).value.Inside? &&
               Resolve(staged[..i][k].path).value.folder == f;
      assert staged[..i + 1][k] == staged[..i][k];
    }
  }

  // ---------------------------------------------------------------------------------------------
  // Correct images

  const SYSTEM_ID := 0x2000_0001
  const DATA_ID := 0x2000_0002
  const SYSTEM_LABEL: Text := [0x53, 0x41, 0x50, 0x4F, 0x54, 0x45, 0x53, 0x59, 0x53, 0x20, 0x20]
  const DATA_LABEL: Text := [0x53, 0x41, 0x50, 0x4F, 0x54, 0x45, 0x44, 0x41, 0x54, 0x41, 0x20]

  /** The records the inspector must report for a layout in the standard volume. */
  ghost function LaidRecords(v: Volume, l: Layout): (r: seq<Record>) {
    RootRecords(l, OffsetOf(v, ROOT)) + AllInner(v, l, 0)
  }

  /** The inspector accepts the image, reports exactly the layout and its free space, and every
      cluster holds what the layout says. */
  ghost predicate Correct(image: seq<byte>, volumeId: nat, l: Layout) {
    && Good(l) && 2 <= Next(l) <= MAXIMUM + 1
    && Fits(Standard(volumeId, l.volumeLabel), |image|)
    && Laid(View(image, Standard(volumeId, l.volumeLabel)), l)
    && Inspected(image) == Some(Report(
         Standard(volumeId, l.volumeLabel), CLUSTER_COUNT - (Next(l) - 2), Next(l) - 2,
         LaidRecords(View(image, Standard(volumeId, l.volumeLabel)), l)))
  }

  /** Both boot sectors and both information sectors agree, and the latter give the free count and the
      first free cluster, or no hint on a full volume. */
  ghost predicate Sealed(image: seq<byte>, next: nat) {
    && |image| == IMAGE_BYTES && image[3_072..3_584] == image[..512] && image[3_584..4_096] == image[512..1_024]
    && U32(image, 1_000) == 129_022 - (next - 2) && U32(image, 1_004) == if next <= 129_023 then next else 0xFFFF_FFFF
  }

  lemma SealIs(image: seq<byte>, next: nat)
    requires |image| == IMAGE_BYTES && 2 <= next <= MAXIMUM + 1 && image[512..1_024] == FsInfoFor(next)
    requires image[3_072..3_584] == image[..512] && image[3_584..4_096] == image[512..1_024]
    ensures Sealed(image, next)
  {
    hide FsInfoSector;
    var info := image[512..1_024];
    assert image[1_000..1_004] == info[488..492] && image[1_004..1_008] == info[492..496];
    SameU32(image, 1_000, info, 488);
    SameU32(image, 1_004, info, 492);
  }

  /** A fully written layout is laid out. */
  lemma WrittenIsLaid(v: Volume, l: Layout, s: seq<byte>)
    requires Shows(v, s) && Planned(l) && Next(l) <= MAXIMUM + 1 && FreeFrom(v, Next(l))
    requires FilesDone(v, l, |l.files|) && FoldersDone(v, l, |l.folders|)
    requires RootListed(v, l, 1 + |l.files| + |l.folders|)
    ensures Laid(v, l)
  {
    hide Holds, FileAt, Good, Storable, FoldersStorable, RootEntries, FolderAt, FatBytes, ClusterData, CopiesMatch, Total, FolderTotal;
    ShowsIsValid(v, s);
    assert RootEntries(l)[..1 + |l.files| + |l.folders|] == RootEntries(l);
  }

  lemma FsInfoReads(s: seq<byte>, g: Geometry, next: nat)
    requires Fits(g, |s|) && g.bytesPerSector == 512 && g.fsinfoSector == 1
    requires g.clusterCount == CLUSTER_COUNT && g.maximum == MAXIMUM
    requires 2 <= next <= MAXIMUM + 1 && |s| == IMAGE_BYTES && s[512..1_024] == FsInfoFor(next)
    ensures ParseFsInfo(s, g).Ok? && ParseFsInfo(s, g).value.freeHint == CLUSTER_COUNT - (next - 2)
  {
    hide FsInfoSector, Fits;
    FsInfoSectorExists(g, |s|);
    assert SectorAt(s, g, 1) == s[512..1_024];
  }

  /** The written image is accepted exactly when the root keeps room for its end marker. */
  lemma WrittenInspects(v: Volume, l: Layout, s: seq<byte>, volumeId: nat)
    requires Shows(v, s) && Planned(l) && Next(l) <= MAXIMUM + 1 && Laid(v, l)
    requires v.fat[0] == MEDIA && v.fat[1] == EOC
    requires volumeId < 0x1_0000_0000 && IsLabel(l.volumeLabel)
    requires s[..512] == BootSector(volumeId, l.volumeLabel) && s[512..1_024] == FsInfoFor(Next(l))
    ensures Roomy(l) ==> Correct(s, volumeId, l)
    ensures !Roomy(l) ==> Inspected(s).None?
  {
    hide Shows, Planned, Laid, BootSector, FsInfoFor, Total, FolderTotal, Good, ParseGeometry, Fits, FatsMatch,
      ParseFsInfo, Accepts, Tree, Allocated, View, RootRecords, AllInner, IsLabel;
    assert |s| == IMAGE_BYTES && |l.volumeLabel| == 11 && Valid(v) by {
      SizesOf(v, l, s);
    }
    var g := Standard(volumeId, l.volumeLabel);
    BootParses(s, volumeId, l.volumeLabel);
    InspectorSees(v, s, g);
    FsInfoReads(s, g, Next(l));
    if Roomy(l) {
      LaidIsAccepted(v, l);
      assert Good(l) by { GoodOf(v, l); }
    } else {
      FullRootIsRefused(v, l);
    }
  }

  lemma SizesOf(v: Volume, l: Layout, s: seq<byte>)
    requires Shows(v, s) && Planned(l)
    ensures |s| == IMAGE_BYTES && |l.volumeLabel| == 11 && Valid(v)
  {
    ShowsIsValid(v, s);
  }

  lemma GoodOf(v: Volume, l: Layout)
    requires Laid(v, l)
    ensures Good(l)
  {
  }

  // ---------------------------------------------------------------------------------------------
  // Read-back

  /** The image reports the file at `path` with these attributes and the payload's size, and its chain
      gives back the payload, then zeros. */
  ghost predicate Stores(image: seq<byte>, g: Geometry, path: Text, attributes: byte, payload: seq<byte>)
    requires Fits(g, |image|)
  {
    && Inspected(image).Some?
    && exists r :: r in Inspected(image).value.records && IsFile(View(image, g), r, path, attributes, payload)
  }

  ghost predicate IsFile(v: Volume, r: Record, path: Text, attributes: byte, payload: seq<byte>) {
    && |v.clusters| == |v.fat| && !r.IsDirectory() && r.path == path && r.attributes == attributes && r.size == |payload|
    && Contents(v, ChainOf(v, r.first)) == payload + Zeros(512 * Count(payload) - |payload|)
  }

  lemma ItemIsStored(v: Volume, items: seq<Item>, start: nat, i: nat, offset: nat, path: Text, parent: nat)
    requires Valid(v) && GoodItems(items) && FilesAt(v, items, start) && i < |items|
    ensures IsFile(v, ItemRecord(items[i], FirstOf(items, start, i), offset, path, parent),
                   ChildPath(path, TextOf(items[i].name)), items[i].attributes, items[i].payload)
  {
    hide Canonical, Count, Total, NameText, ChildPath, Contents;
    ReadBack(v, items[i].payload, FirstOf(items, start, i));
  }

  lemma RootFileIsStored(image: seq<byte>, volumeId: nat, l: Layout, i: nat)
    requires Correct(image, volumeId, l) && i < |l.files|
    ensures Stores(image, Standard(volumeId, l.volumeLabel), TextOf(l.files[i].name), l.files[i].attributes, l.files[i].payload)
  {
    hide Fits, Inspected, Standard, Holds, FileAt, RootEntries, FolderAt, AllInner, Total, TextOf, GoodFolders, Storable, FoldersStorable, OffsetOf, View;
    var v := View(image, Standard(volumeId, l.volumeLabel));
    var base := OffsetOf(v, ROOT);
    var r := ItemRecord(l.files[i], FirstOf(l.files, 3, i), base + 32 * (1 + i), [SLASH], ROOT);
    assert ItemRecords(l.files, 3, base, 1, [SLASH], ROOT)[i] == r;
    assert LaidRecords(v, l)[i] == r;
    ItemIsStored(v, l.files, 3, i, base + 32 * (1 + i), [SLASH], ROOT);
  }

  lemma {:induction false} InnerIsListed(v: Volume, l: Layout, j: nat, m: nat, r: Record)
    requires m <= j < |l.folders| && r in InnerRecords(l, j, OffsetOf(v, FolderStart(l) + j))
    ensures r in AllInner(v, l, m)
    decreases j - m
  {
    hide InnerRecords, OffsetOf, FolderStart;
    if m < j {
      InnerIsListed(v, l, j, m + 1, r);
    }
  }

  lemma InnerFileIsStored(image: seq<byte>, volumeId: nat, l: Layout, j: nat, i: nat)
    requires Correct(image, volumeId, l) && j < |l.folders| && i < |l.folders[j].items|
    ensures Stores(image, Standard(volumeId, l.volumeLabel),
                   ChildPath(FolderPath(l, j), TextOf(l.folders[j].items[i].name)),
                   l.folders[j].items[i].attributes, l.folders[j].items[i].payload)
  {
    hide Fits, Inspected, Standard, Holds, FileAt, RootEntries, FolderEntries, AllInner, Total, FolderTotal, TextOf,
      Storable, OffsetOf, View, ChildPath, RootRecords, Canonical;
    var v := View(image, Standard(volumeId, l.volumeLabel));
    var items, start, c, path := l.folders[j].items, ItemsStart(l, j), FolderStart(l) + j, FolderPath(l, j);
    var base := OffsetOf(v, c);
    var r := ItemRecord(items[i], FirstOf(items, start, i), base + 32 * (2 + i), path, c);
    assert ItemRecords(items, start, base, 2, path, c)[i] == r;
    assert InnerRecords(l, j, base)[2 + i] == r;
    InnerIsListed(v, l, j, 0, r);
    assert r in LaidRecords(v, l);
    assert FolderAt(v, l, j);
    ItemIsStored(v, items, start, i, base + 32 * (2 + i), path, c);
  }

  // ---------------------------------------------------------------------------------------------
  // Layouts of the commands

  lemma WellIsGood(items: seq<Item>)
    requires WellItems(items)
    ensures GoodItems(items)
  {
    hide Canonical;
    forall i, j | 0 <= i < j < |items| ensures items[i].name != items[j].name {
      assert NameOfItem(items[i]) != NameOfItem(items[j]);
    }
  }

  lemma WellFoldersAreGood(folders: seq<Folder>)
    requires WellGrouped(folders) && forall g :: g in folders ==> |g.items| <= 13
    ensures GoodFolders(folders)
  {
    hide Canonical, WellItems, GoodItems;
    forall j | 0 <= j < |folders|
      ensures Canonical(folders[j].name) && GoodItems(folders[j].items) && |folders[j].items| <= 13
    {
      assert folders[j] in folders;
      WellIsGood(folders[j].items);
    }
    forall i, j | 0 <= i < j < |folders| ensures folders[i].name != folders[j].name {
      assert NameOfFolder(folders[i]) != NameOfFolder(folders[j]);
    }
  }

  ghost predicate GroupsFit(groups: seq<Folder>) {
    forall g :: g in groups ==> |g.items| <= 13
  }

  function DataLayout(files: seq<Item>, groups: seq<Folder>): (l: Layout) {
    Layout(DATA_LABEL, files, Arranged(groups))
  }

  /** Staged root files alone, or staged folders alone, make a good layout. */
  lemma DataLayoutIsGood(staged: seq<Staged>)
    requires Admissible(staged, {})
    requires RootItems(staged, 0x20) == [] || Groups(staged, 0x20) == []
    requires |RootItems(staged, 0x20)| + |Groups(staged, 0x20)| <= 15 && GroupsFit(Groups(staged, 0x20))
    ensures
      var l := DataLayout(RootItems(staged, 0x20), Groups(staged, 0x20));
      && Good(l) && |l.folders| == |Groups(staged, 0x20)|
      && Next(l) == 3 + |l.folders| + StagedTotal(staged)
  {
    hide Canonical, Resolve, RootItems, Groups, Arranged, WellItems, WellGrouped, GoodItems, GoodFolders, Total, FolderTotal, Sorted;
    PlanFacts(staged, 0x20, {});
    var files, groups := RootItems(staged, 0x20), Groups(staged, 0x20);
    ArrangedKeeps(groups);
    WellIsGood(files);
    WellFoldersAreGood(Arranged(groups));
    var l := DataLayout(files, groups);
    assert l.folders[..|l.folders|] == l.folders;
    assert l.volumeLabel[0] == 0x53;
  }

  function FreshImage(): (image: seq<byte>)
    ensures |image| == IMAGE_BYTES
  {
    Finished(Prepared(Zeros(IMAGE_BYTES), BootSector(DATA_ID, DATA_LABEL), LabelEntry(DATA_LABEL)), 3)
  }

  const EMPTY_DATA := Layout(DATA_LABEL, [], [])

  lemma EmptyDataIsGood()
    ensures Good(EMPTY_DATA) && Roomy(EMPTY_DATA) && Next(EMPTY_DATA) == 3 && IsLabel(DATA_LABEL)
  {
    assert EMPTY_DATA.volumeLabel[0] == 0x53;
    NoFolders(EMPTY_DATA);
  }

  /** `build_image` for the data role: the empty data volume, which the inspector accepts. */
  method BuildData() returns (image: seq<byte>, ghost v: Volume)
    ensures image == FreshImage() && Shows(v, image) && FreeFrom(v, 3)
    ensures image[..512] == BootSector(DATA_ID, DATA_LABEL)
    ensures v.fat[0] == MEDIA && v.fat[1] == EOC && v.fat[2] == EOC
    ensures Holds(v.clusters[2], [LabelEntry(DATA_LABEL)])
    ensures Correct(image, DATA_ID, EMPTY_DATA) && Sealed(image, 3) && image[3_072..3_584] == image[..512]
  {
    hide Shows, Prepared, Finished, BootSector, Holds, LabelEntry, Correct, Planned, Good, FsInfoFor, Inspected, Next, Roomy, Sealed;
    var f := new Formatter();
    f.Prepare(DATA_ID, DATA_LABEL);
    f.Finish();
    image, v := f.image[..], f.v;
    assert image[..512] == f.image[..512] && image[512..1_024] == f.image[512..1_024];
    assert image[3_072..3_584] == f.image[3_072..3_584] && image[3_584..4_096] == f.image[3_584..4_096];
    SealIs(image, 3);
    EmptyDataIsGood();
    GoodIsPlanned(EMPTY_DATA);
    VolumeSize(v, image);
    StartStage(v, EMPTY_DATA);
    WrittenIsLaid(v, EMPTY_DATA, image);
    WrittenInspects(v, EMPTY_DATA, image, DATA_ID);
  }

  datatype FormatError = NotFresh | BadCount | BadFiles | NoRoom | Inspection(error: FatError)

  /** The report on the empty data volume. */
  function FreshReport(): (r: Report) {
    Report(Standard(DATA_ID, DATA_LABEL), CLUSTER_COUNT - 1, 1, [])
  }

  lemma FreshIsReported(image: seq<byte>)
    requires Correct(image, DATA_ID, EMPTY_DATA)
    ensures Inspected(image) == Some(FreshReport())
  {
    hide Good, Laid, View, Inspected, Fits;
    EmptyDataIsGood();
    var none := View(image, Standard(DATA_ID, DATA_LABEL));
    assert LaidRecords(none, EMPTY_DATA) == [];
  }

  /** `verify_data`: inspect, compare identity and emptiness, then compare with a rebuilt image. It
      accepts exactly the fresh data image. */
  method VerifyData(source: seq<byte>) returns (r: Result<Report, FormatError>, ghost v: Volume)
    ensures r.Ok? <==> source == FreshImage()
    ensures r.Ok? ==> r.value == FreshReport()
    ensures Shows(v, FreshImage()) && FreeFrom(v, 3)
    ensures FreshImage()[..512] == BootSector(DATA_ID, DATA_LABEL) && FreshImage()[3_072..3_584] == FreshImage()[..512]
    ensures v.fat[0] == MEDIA && v.fat[1] == EOC && v.fat[2] == EOC
    ensures Holds(v.clusters[2], [LabelEntry(DATA_LABEL)])
  {
    hide Shows, FreshImage, BootSector, Holds, LabelEntry, Correct, Inspected, FreeFrom, ParseGeometry;
    var blank;
    blank, v := BuildData();
    VolumeSize(v, blank);
    FreshIsReported(blank);
    var report := Inspect(source);
    if report.Err? {
      return Err(Inspection(report.error)), v;
    }
    var g := report.value.geometry;
    if g.volumeId != DATA_ID || g.volumeLabel != Rstrip(DATA_LABEL) || report.value.records != [] || source != blank {
      return Err(NotFresh), v;
    }
    return Ok(report.value), v;
  }

  /** The files `populate_data_files` places: at most fourteen, all at the root. */
  ghost predicate FilesAdmitted(staged: seq<Staged>) {
    && 1 <= |staged| <= 14 && Admissible(staged, {}) && Groups(staged, 0x20) == []
    && 3 + StagedTotal(staged) <= MAXIMUM + 1
  }

  lemma {:induction false} AllAtRoot(staged: seq<Staged>)
    requires Admissible(staged, {}) && Groups(staged, 0x20) == []
    ensures |RootItems(staged, 0x20)| == |staged|
  {
    hide Resolve;
    if staged != [] {
      var n := |staged| - 1;
      AdmissiblePrefix(staged, {}, n);
      assert Groups(staged[..n], 0x20) == [];
      assert Resolve(staged[n].path).Some?;
      AllAtRoot(staged[..n]);
    }
  }

  /** `populate_data_files`: succeeds exactly on the fresh data image with admitted files, and then
      the image is correct. */
  method PopulateDataFiles(source: seq<byte>, staged: seq<Staged>) returns (r: Result<seq<byte>, FormatError>)
    ensures r.Ok? <==> source == FreshImage() && FilesAdmitted(staged)
    ensures r.Ok? ==> Correct(r.value, DATA_ID, DataLayout(RootItems(staged, 0x20), []))
    ensures r.Ok? ==> Sealed(r.value, Next(DataLayout(RootItems(staged, 0x20), [])))
  {
    hide Shows, FreshImage, BootSector, Holds, LabelEntry, Admissible, RootItems, Groups, StagedTotal, Good, Next,
      FsInfoFor, Finished, Correct, Sealed, Inspected, Arranged, FilesDone, FoldersDone, Reserved, RootListed, Planned, FreeFrom, Position;
    var verified, v := VerifyData(source);
    if verified.Err? {
      return Err(verified.error);
    }
    if staged == [] || |staged| > 15 {
      return Err(BadCount);
    }
    var plan := Arrange(staged, {}, 0x20);
    if plan.None? || plan.value.groups != [] {
      return Err(BadFiles);
    }
    if 3 + plan.value.total > MAXIMUM + 1 {
      return Err(NoRoom);
    }
    AllAtRoot(staged);
    DataLayoutIsGood(staged);
    var l := DataLayout(plan.value.files, []);
    GoodIsPlanned(l);
    VolumeSize(v, source);
    StartStage(v, l);
    var f := new Formatter.From(source, v, 3);
    NoFolders(l);
    var i := 0;
    while i < |l.files|
      invariant 0 <= i <= |l.files| && f.Stage(l, i, 0, 0, 0)
      invariant f.image[..16_384] == source[..16_384]
    {
      PositionStep(l, i);
      PositionBound(l, i + 1);
      var ok := f.AddFile(l, i);
      i := i + 1;
    }
    r := Close(f, l, DATA_ID, source);
  }

  /** Write the information sectors. The image is correct exactly when the root kept its end marker. */
  method Seal(f: Formatter, l: Layout, volumeId: nat, ghost source: seq<byte>) returns (image: seq<byte>)
    requires f.Stage(l, |l.files|, |l.folders|, |l.folders|, |l.folders|)
    requires volumeId < 0x1_0000_0000 && IsLabel(l.volumeLabel) && |source| == IMAGE_BYTES
    requires f.image[..16_384] == source[..16_384] && |l.volumeLabel| == 11
    requires source[..512] == BootSector(volumeId, l.volumeLabel) && source[3_072..3_584] == source[..512]
    modifies f.image
    ensures Sealed(image, Next(l))
    ensures Roomy(l) ==> Correct(image, volumeId, l)
    ensures !Roomy(l) ==> Inspected(image).None?
  {
    hide Shows, BootSector, Holds, Good, FsInfoFor, Finished, Inspected, FilesDone, FoldersDone, Reserved, Total, FolderTotal, Correct, Sealed;
    assert f.image[3_072..3_584] == f.image[..16_384][3_072..3_584] && source[3_072..3_584] == source[..16_384][3_072..3_584];
    assert f.image[..512] == f.image[..16_384][..512] && source[..512] == source[..16_384][..512];
    f.Finish();
    image := f.image[..];
    assert image[..512] == f.image[..512] && image[512..1_024] == f.image[512..1_024];
    assert image[3_072..3_584] == f.image[3_072..3_584] && image[3_584..4_096] == f.image[3_584..4_096];
    SealIs(image, Next(l));
    WrittenIsLaid(f.v, l, image);
    WrittenInspects(f.v, l, image, volumeId);
  }

  /** Seal the image, then have the inspector look at the result. */
  method Close(f: Formatter, l: Layout, volumeId: nat, ghost source: seq<byte>) returns (r: Result<seq<byte>, FormatError>)
    requires f.Stage(l, |l.files|, |l.folders|, |l.folders|, |l.folders|)
    requires volumeId < 0x1_0000_0000 && IsLabel(l.volumeLabel) && |source| == IMAGE_BYTES
    requires f.image[..16_384] == source[..16_384] && |l.volumeLabel| == 11
    requires source[..512] == BootSector(volumeId, l.volumeLabel) && source[3_072..3_584] == source[..512]
    modifies f.image
    ensures r.Ok? <==> Roomy(l)
    ensures r.Ok? ==> Correct(r.value, volumeId, l) && Sealed(r.value, Next(l))
  {
    hide Shows, BootSector, Good, Inspected, Laid, View, Fits, Sealed;
    var image := Seal(f, l, volumeId, source);
    var report := Inspect(image);
    if report.Err? {
      return Err(Inspection(report.error));
    }
    return Ok(image);
  }

  lemma NoFolders(l: Layout)
    requires l.folders == []
    ensures FolderTotal(l.folders) == 0 && Next(l) == 3 + Total(l.files)
    ensures Position(l, |l.files|, 0, 0) == Next(l)
  {
    assert l.folders[..0] == [];
  }

  lemma PositionBound(l: Layout, i: nat)
    requires i <= |l.files|
    ensures FirstOf(l.files, 3, i) <= FolderStart(l) <= Next(l)
  {
    TotalOrder(l.files, i, |l.files|);
  }

  /** The trees `populate_data_tree` places: at most fourteen folders of at most thirteen files. */
  ghost predicate TreeAdmitted(staged: seq<Staged>) {
    && 1 <= |staged| && Admissible(staged, {}) && RootItems(staged, 0x20) == []
    && |Groups(staged, 0x20)| <= 14 && GroupsFit(Groups(staged, 0x20))
    && 3 + |Groups(staged, 0x20)| + StagedTotal(staged) <= MAXIMUM + 1
  }

  method AllFit(groups: seq<Folder>) returns (ok: bool)
    ensures ok <==> GroupsFit(groups)
  {
    var i := 0;
    while i < |groups|
      invariant 0 <= i <= |groups| && forall k :: 0 <= k < i ==> |groups[k].items| <= 13
    {
      if |groups[i].items| > 13 {
        assert groups[i] in groups;
        return false;
      }
      i := i + 1;
    }
    return true;
  }

  /** `populate_data_tree`: succeeds exactly on the fresh data image with an admitted tree, and then
      the image is correct. */
  method PopulateDataTree(source: seq<byte>, staged: seq<Staged>) returns (r: Result<seq<byte>, FormatError>)
    ensures r.Ok? <==> source == FreshImage() && TreeAdmitted(staged)
    ensures r.Ok? ==> Correct(r.value, DATA_ID, DataLayout([], Groups(staged, 0x20)))
    ensures r.Ok? ==> Sealed(r.value, Next(DataLayout([], Groups(staged, 0x20))))
  {
    hide Shows, FreshImage, BootSector, Holds, LabelEntry, Admissible, RootItems, Groups, StagedTotal, Good,
      FsInfoFor, Finished, Correct, Sealed, Inspected, Arranged, FilesDone, FoldersDone, Reserved, RootListed, Planned, FreeFrom,
      Position, GroupsFit, Total, FolderTotal, Next;
    var verified, v := VerifyData(source);
    if verified.Err? {
      return Err(verified.error);
    }
    if staged == [] {
      return Err(BadCount);
    }
    var plan := Arrange(staged, {}, 0x20);
    if plan.None? || plan.value.files != [] {
      return Err(BadFiles);
    }
    var groups := plan.value.groups;
    var fit := AllFit(groups);
    if |groups| > 15 || !fit {
      return Err(BadCount);
    }
    if 2 + |groups| + plan.value.total > MAXIMUM {
      return Err(NoRoom);
    }
    DataLayoutIsGood(staged);
    var l := DataLayout([], groups);
    GoodIsPlanned(l);
    VolumeSize(v, source);
    StartStage(v, l);
    var f := new Formatter.From(source, v, 3);
    var j := 0;
    while j < |l.folders|
      invariant 0 <= j <= |l.folders| && f.Stage(l, 0, j, 0, 0)
      invariant f.image[..16_384] == source[..16_384]
    {
      ReserveBound(l, j);
      var ok := f.Reserve(l, j, 0);
      j := j + 1;
    }
    j := 0;
    while j < |l.folders|
      invariant 0 <= j <= |l.folders| && f.Stage(l, 0, |l.folders|, j, j)
      invariant f.image[..16_384] == source[..16_384]
    {
      FillBound(l, j);
      f.ListFolder(l, j, |l.folders|, j);
      var ok := f.FillFolder(l, j, j + 1);
      j := j + 1;
    }
    r := Close(f, l, DATA_ID, source);
  }

  lemma ReserveBound(l: Layout, j: nat)
    requires j < |l.folders|
    ensures Position(l, |l.files|, j, 0) < Next(l)
  {
    FolderTotalOrder(l.folders, 0, |l.folders|);
  }

  lemma FillBound(l: Layout, j: nat)
    requires j < |l.folders|
    ensures Position(l, |l.files|, |l.folders|, j) + Total(l.folders[j].items) <= Next(l)
  {
    FolderTotalStep(l.folders, j);
    FolderTotalOrder(l.folders, j + 1, |l.folders|);
  }

  // ---------------------------------------------------------------------------------------------
  // The system volume

  /** Name and size of each recognised profile. */
  const PROFILES: seq<(Text, nat)> := [
    ([0x42, 0x55, 0x53, 0x59, 0x42, 0x4F, 0x58, 0x20, 0x20, 0x20, 0x20], 33_584),
    ([0x55, 0x4E, 0x41, 0x4D, 0x45, 0x42, 0x4F, 0x58, 0x20, 0x20, 0x20], 38_368),
    ([0x43, 0x41, 0x54, 0x42, 0x4F, 0x58, 0x20, 0x20, 0x20, 0x20, 0x20], 38_632)]

  /** `verify_busybox`; `genuine` stands for the digest and executable-header checks. */
  predicate Verified(payloads: seq<seq<byte>>, i: nat, genuine: (nat, seq<byte>) -> bool)
    requires i < |payloads| <= 3
  {
    |payloads[i]| == PROFILES[i].1 && genuine(i, payloads[i])
  }

  function ProfileItems(payloads: seq<seq<byte>>): (r: seq<Item>)
    requires |payloads| <= 3
    ensures |r| == |payloads|
    ensures forall i :: 0 <= i < |r| ==> r[i] == Item(PROFILES[i].0, 0x21, payloads[i])
  {
    seq(|payloads|, i requires 0 <= i < |payloads| => Item(PROFILES[i].0, 0x21, payloads[i]))
  }

  function ProfileNames(payloads: seq<seq<byte>>): (r: set<Text>) {
    if payloads == [] then {} else {PROFILES[0].0, PROFILES[1].0, PROFILES[2].0}
  }

  function SystemLayout(payloads: seq<seq<byte>>, extras: seq<Staged>): (l: Layout)
    requires |payloads| <= 3
  {
    Layout(SYSTEM_LABEL, ProfileItems(payloads) + RootItems(extras, 0x21), Arranged(Groups(extras, 0x21)))
  }

  lemma ProfilesAreCanonical(i: nat)
    requires i < 3
    ensures Canonical(PROFILES[i].0) && 0 < PROFILES[i].1 <= 0x100_0000
    ensures forall k :: 0 <= k < 3 && k != i ==> PROFILES[k].0 != PROFILES[i].0
  {
    var base: Text := if i == 0 then [0x42, 0x55, 0x53, 0x59, 0x42, 0x4F, 0x58]
                      else if i == 1 then [0x55, 0x4E, 0x41, 0x4D, 0x45, 0x42, 0x4F, 0x58]
                      else [0x43, 0x41, 0x54, 0x42, 0x4F, 0x58];
    assert PROFILES[i].0 == Pad(base, 8) + Pad([], 3);
    assert IsEncoding(PROFILES[i].0, base, []);
    assert PROFILES[0].0[0] == 0x42 && PROFILES[1].0[0] == 0x55 && PROFILES[2].0[0] == 0x43;
  }

  lemma SystemFilesAreGood(payloads: seq<seq<byte>>, extras: seq<Staged>, genuine: (nat, seq<byte>) -> bool)
    requires |payloads| == 0 || |payloads| == 3
    requires forall i :: 0 <= i < |payloads| ==> Verified(payloads, i, genuine)
    requires Admissible(extras, ProfileNames(payloads))
    ensures GoodItems(ProfileItems(payloads) + RootItems(extras, 0x21))
  {
    hide Canonical, Resolve, RootItems, Groups, PROFILES, WellGrouped, Total, FolderTotal;
    PlanFacts(extras, 0x21, ProfileNames(payloads));
    var profiles, roots := ProfileItems(payloads), RootItems(extras, 0x21);
    WellIsGood(roots);
    var files := profiles + roots;
    forall i | 0 <= i < |files|
      ensures Canonical(files[i].name) && files[i].attributes in {0x20, 0x21} && 0 < |files[i].payload| <= 0x100_0000
    {
      if i < |profiles| {
        ProfilesAreCanonical(i);
        assert Verified(payloads, i, genuine);
      }
    }
    forall i, j | 0 <= i < j < |files| ensures files[i].name != files[j].name {
      if j < |profiles| {
        ProfilesAreCanonical(i);
      } else if i < |profiles| {
        RootAvoids(extras, ProfileNames(payloads), files[j]);
        assert files[i].name in ProfileNames(payloads);
      }
    }
  }

  lemma RootAvoids(extras: seq<Staged>, reserved: set<Text>, x: Item)
    requires Admissible(extras, reserved) && x in RootItems(extras, 0x21)
    ensures x.name !in reserved
  {
    hide Resolve;
    PlanFacts(extras, 0x21, reserved);
    assert RootFrom(extras, 0x21, x);
  }

  lemma FolderAvoids(extras: seq<Staged>, reserved: set<Text>, f: Text)
    requires Admissible(extras, reserved) && HasFolder(Groups(extras, 0x21), f)
    ensures f !in reserved && forall x :: x in RootItems(extras, 0x21) ==> x.name != f
  {
    hide Resolve;
    PlanFacts(extras, 0x21, reserved);
    var i :| 0 <= i < |extras| && Resolve(extras[i].path).value.Inside? && Resolve(extras[i].path).value.folder == f;
    forall x | x in RootItems(extras, 0x21) ensures x.name != f {
      assert RootFrom(extras, 0x21, x);
      var k :| 0 <= k < |extras| && Resolve(extras[k].path) == Some(AtRoot(x.name));
      if i < k {
        assert !Clash(Resolve(extras[i].path).value, Resolve(extras[k].path).value);
      } else {
        assert !Clash(Resolve(extras[k].path).value, Resolve(extras[i].path).value);
      }
    }
  }

  lemma SystemLayoutIsGood(payloads: seq<seq<byte>>, extras: seq<Staged>, genuine: (nat, seq<byte>) -> bool)
    requires |payloads| == 0 || |payloads| == 3
    requires forall i :: 0 <= i < |payloads| ==> Verified(payloads, i, genuine)
    requires Admissible(extras, ProfileNames(payloads)) && GroupsFit(Groups(extras, 0x21))
    requires 1 + |payloads| + |RootItems(extras, 0x21)| + |Groups(extras, 0x21)| < 16
    ensures Good(SystemLayout(payloads, extras)) && Roomy(SystemLayout(payloads, extras))
  {
    hide Canonical, Resolve, RootItems, Groups, Arranged, WellItems, WellGrouped, GoodItems, GoodFolders, Total, FolderTotal,
      Sorted, Admissible, PROFILES, ProfileNames, Verified;
    PlanFacts(extras, 0x21, ProfileNames(payloads));
    var groups := Groups(extras, 0x21);
    ArrangedKeeps(groups);
    WellFoldersAreGood(Arranged(groups));
    SystemFilesAreGood(payloads, extras, genuine);
    var l := SystemLayout(payloads, extras);
    forall i, j | 0 <= i < |l.files| && 0 <= j < |l.folders| ensures l.files[i].name != l.folders[j].name {
      assert l.folders[j] in l.folders && HasFolder(l.folders, l.folders[j].name);
      FolderAvoids(extras, ProfileNames(payloads), l.folders[j].name);
      if i < |payloads| {
        ProfileIsReserved(payloads, i);
      } else {
        assert l.files[i] in RootItems(extras, 0x21);
      }
    }
    assert l.volumeLabel[0] == 0x53;
  }

  lemma ProfileIsReserved(payloads: seq<seq<byte>>, i: nat)
    requires i < |payloads| <= 3
    ensures ProfileItems(payloads)[i].name in ProfileNames(payloads)
  {
  }

  /** The checks of `build_image` for the system role, all but the room on the volume. */
  ghost predicate SystemChecked(payloads: seq<seq<byte>>, extras: seq<Staged>, genuine: (nat, seq<byte>) -> bool) {
    && (|payloads| == 0 || |payloads| == 3)
    && (forall i :: 0 <= i < |payloads| ==> Verified(payloads, i, genuine))
    && Admissible(extras, ProfileNames(payloads)) && GroupsFit(Groups(extras, 0x21))
    && 1 + |payloads| + |RootItems(extras, 0x21)| + |Groups(extras, 0x21)| < 16
  }

  ghost predicate SystemAdmitted(payloads: seq<seq<byte>>, extras: seq<Staged>, genuine: (nat, seq<byte>) -> bool) {
    SystemChecked(payloads, extras, genuine) && Next(SystemLayout(payloads, extras)) <= MAXIMUM + 1
  }

  method CheckSystem(payloads: seq<seq<byte>>, extras: seq<Staged>, genuine: (nat, seq<byte>) -> bool)
    returns (error: Option<FormatError>)
    ensures error.None? <==> SystemChecked(payloads, extras, genuine)
  {
    hide Admissible, RootItems, Groups, StagedTotal, GroupsFit, ProfileNames, Verified;
    if |payloads| != 0 && |payloads| != 3 {
      return Some(BadCount);
    }
    var plan := Arrange(extras, ProfileNames(payloads), 0x21);
    if plan.None? {
      return Some(BadFiles);
    }
    var fit := AllFit(plan.value.groups);
    if !fit || 1 + |payloads| + |plan.value.files| + |plan.value.groups| >= 16 {
      return Some(BadCount);
    }
    var k := 0;
    while k < |payloads|
      invariant 0 <= k <= |payloads| && forall i :: 0 <= i < k ==> Verified(payloads, i, genuine)
    {
      if !Verified(payloads, k, genuine) {
        return Some(BadFiles);
      }
      k := k + 1;
    }
    return None;
  }

  /** `build_image` for the system role: succeeds exactly on admitted inputs, and then the image is
      correct. */
  method BuildSystem(payloads: seq<seq<byte>>, extras: seq<Staged>, genuine: (nat, seq<byte>) -> bool)
    returns (r: Result<seq<byte>, FormatError>)
    ensures r.Ok? <==> SystemAdmitted(payloads, extras, genuine)
    ensures r.Ok? ==> Correct(r.value, SYSTEM_ID, SystemLayout(payloads, extras))
    ensures r.Ok? ==> Sealed(r.value, Next(SystemLayout(payloads, extras)))
  {
    hide Shows, BootSector, Holds, LabelEntry, Admissible, RootItems, Groups, StagedTotal, Good, FsInfoFor, Finished, Prepared,
      Correct, Sealed, Inspected, Arranged, FilesDone, FoldersDone, Reserved, RootListed, Planned, FreeFrom, Position, GroupsFit, Total,
      FolderTotal, Next, ProfileItems, ProfileNames, Verified, Count;
    var error := CheckSystem(payloads, extras, genuine);
    if error.Some? {
      return Err(error.value);
    }
    SystemLayoutIsGood(payloads, extras, genuine);
    var l := SystemLayout(payloads, extras);
    GoodIsPlanned(l);
    var f := new Formatter();
    f.Prepare(SYSTEM_ID, SYSTEM_LABEL);
    ghost var source := f.image[..];
    assert source[..512] == f.image[..512] && source[..16_384] == f.image[..16_384];
    assert source[3_072..3_584] == f.image[3_072..3_584];
    VolumeSize(f.v, source);
    StartStage(f.v, l);
    var i := 0;
    while i < |l.files|
      invariant 0 <= i <= |l.files| && f.Stage(l, i, 0, 0, 0)
      invariant f.image[..16_384] == source[..16_384]
    {
      PositionStep(l, i);
      PositionBound(l, i + 1);
      var ok := f.AddFile(l, i);
      if !ok {
        return Err(NoRoom);
      }
      i := i + 1;
    }
    var j := 0;
    while j < |l.folders|
      invariant 0 <= j <= |l.folders| && f.Stage(l, |l.files|, j, j, 0)
      invariant f.image[..16_384] == source[..16_384]
    {
      ReserveBound(l, j);
      var ok := f.Reserve(l, j, j);
      if !ok {
        return Err(NoRoom);
      }
      f.ListFolder(l, j, j + 1, 0);
      j := j + 1;
    }
    j := 0;
    while j < |l.folders|
      invariant 0 <= j <= |l.folders| && f.Stage(l, |l.files|, |l.folders|, |l.folders|, j)
      invariant f.image[..16_384] == source[..16_384]
    {
      FillBound(l, j);
      var ok := f.FillFolder(l, j, |l.folders|);
      if !ok {
        return Err(NoRoom);
      }
      j := j + 1;
    }
    FitsIn(f, l);
    var image := Seal(f, l, SYSTEM_ID, source);
    return Ok(image);
  }

  lemma FitsIn(f: Formatter, l: Layout)
    requires f.Stage(l, |l.files|, |l.folders|, |l.folders|, |l.folders|)
    ensures Next(l) <= MAXIMUM + 1
  {
  }

  /** Starting point for a layout: everything but its files and folders is in place. */
  lemma StartStage(v: Volume, l: Layout)
    requires Planned(l) && |v.fat| == |v.clusters| == 129_024
    requires v.fat[0] == MEDIA && v.fat[1] == EOC && v.fat[2] == EOC
    requires Holds(v.clusters[2], [LabelEntry(l.volumeLabel)])
    ensures RootListed(v, l, 1) && FilesDone(v, l, 0) && FoldersDone(v, l, 0) && Reserved(v, l, 0, 0)
    ensures Position(l, 0, 0, 0) == 3
  {
    hide Good, Storable, FoldersStorable, Holds;
    assert RootEntries(l)[..1] == [LabelEntry(l.volumeLabel)];
    FirstIsStart(l.files, 3);
    EmptyFolders(l);
    assert l.files == [] ==> Total(l.files) == 0;
  }
}
