/** Every laid-out volume passes the inspector. */
module FatAcceptance {
  import opened Bytes
  import opened ShortNames
  import opened FatChain
  import opened FatGeometry
  import opened FatDirectory
  import opened FatOwnership
  import opened FatLayout

  // ---------------------------------------------------------------------------------------------
  // Reading one laid-out directory

  lemma EntryIsNamed(
    name: Text, attributes: byte, cluster: nat, size: nat, path: Text, offset: nat, parent: nat)
    requires |name| == 11 && NameText(name).Some? && name[0] != 0 && name[0] != 0xE5
    requires attributes in {0x10, 0x20, 0x21} && cluster < 0x1_0000_0000 && size < 0x1_0000_0000
    ensures Classify(Entry(name, attributes, cluster, size), false, path, offset, parent)
         == Named(Record(ChildPath(path, NameText(name).value), name, attributes, cluster, size, offset, parent))
  {
    hide NameText;
    var entry := Entry(name, attributes, cluster, size);
    assert entry[0] == entry[..11][0];
    assert cluster / 0x1_0000 * 0x1_0000 + cluster % 0x1_0000 == cluster;
  }

  lemma LabelIsSkipped(volumeLabel: Text, path: Text, offset: nat, parent: nat)
    requires |volumeLabel| == 11 && volumeLabel[0] != 0 && volumeLabel[0] != 0xE5
    ensures Classify(LabelEntry(volumeLabel), false, path, offset, parent) == VolumeLabel
  {
    hide NameText;
    var entry := LabelEntry(volumeLabel);
    assert entry[0] == entry[..11][0];
  }

  lemma DotText()
    ensures NameText(DOT) == Some([PERIOD]) && NameText(DOTDOT) == Some([PERIOD, PERIOD])
  {
    StripTo(DOT[..8], 1);
    StripTo(DOT[8..], 0);
    StripTo(DOTDOT[..8], 2);
    StripTo(DOTDOT[8..], 0);
    assert DOT[..8][..1] == [PERIOD] && DOTDOT[..8][..2] == [PERIOD, PERIOD];
  }

  lemma {:induction false} StripTo(s: Text, n: nat)
    requires n <= |s| && (0 < n ==> !IsSpace(s[n - 1])) && forall i :: n <= i < |s| ==> IsSpace(s[i])
    ensures Rstrip(s) == s[..n]
    decreases |s|
  {
    if n < |s| {
      StripTo(s[..|s| - 1], n);
      assert s[..|s| - 1][..n] == s[..n];
    } else {
      assert s[..n] == s;
    }
  }

  /** `entries` is `skip` labels followed by entries that read as `records`. */
  ghost predicate ReadsAs(
    entries: seq<seq<byte>>, skip: nat, records: seq<Record>, base: nat, path: Text, parent: nat)
  {
    && |entries| == skip + |records|
    && forall i :: 0 <= i < |entries| ==> |entries[i]| == 32 && EntryReadsAs(entries[i], i, skip, records, base, path, parent)
  }

  ghost predicate EntryReadsAs(
    entry: seq<byte>, i: nat, skip: nat, records: seq<Record>, base: nat, path: Text, parent: nat)
    requires |entry| == 32 && i < skip + |records|
  {
    Classify(entry, false, path, base + 32 * i, parent) == if i < skip then VolumeLabel else Named(records[i - skip])
  }

  lemma {:induction false} ScanListing(
    raw: seq<byte>, entries: seq<seq<byte>>, skip: nat, records: seq<Record>, i: nat,
    base: nat, path: Text, parent: nat, scan: Scan)
    requires Holds(raw, entries) && i <= |entries| && skip <= |entries|
    requires ReadsAs(entries, skip, records, base, path, parent)
    requires scan == Scan(records[..if i < skip then 0 else i - skip], false, false)
    ensures ScanCluster(raw, 32 * i, base, path, parent, scan) == Some(Scan(records, false, |entries| < 16))
    decreases |entries| - i
  {
    hide Classify;
    var o := 32 * i;
    if i == |entries| {
      assert records[..i - skip] == records;
      if i < 16 {
        assert raw[o..o + 32][0] == 0;
        EndIsEnd(raw[o..o + 32], path, base + o, parent);
      }
    } else {
      var entry := raw[o..o + 32];
      assert entry == entries[i] && EntryReadsAs(entries[i], i, skip, records, base, path, parent);
      var kind := Classify(entry, false, path, base + o, parent);
      var after := Advance(scan, kind);
      if skip <= i {
        assert records[..i + 1 - skip] == records[..i - skip] + [records[i - skip]];
      }
      assert o + 32 == 32 * (i + 1);
      ScanListing(raw, entries, skip, records, i + 1, base, path, parent, after);
    }
  }

  lemma EndIsEnd(entry: seq<byte>, path: Text, offset: nat, parent: nat)
    requires |entry| == 32 && entry[0] == 0
    ensures Classify(entry, false, path, offset, parent) == End
  {
  }

  /** A one-cluster directory that holds readable entries reads as their records. */
  lemma ReadListing(
    v: Volume, c: nat, path: Text, entries: seq<seq<byte>>, skip: nat, records: seq<Record>)
    requires Valid(v) && InRange(v.fat, c) && v.fat[c] == EOC
    requires Holds(v.clusters[c], entries) && |entries| < 16 && skip <= |entries|
    requires ReadsAs(entries, skip, records, OffsetOf(v, c), path, c)
    ensures ReadDirectory(v, c, path) == Some(records)
    ensures ChainOf(v, c) == [c] && ToEndMarker(v, ChainOf(v, c)) == [c]
  {
    hide ReadsAs, Classify;
    SingleChain(v, c);
    ScanListing(v.clusters[c], entries, skip, records, 0, OffsetOf(v, c), path, c, START);
  }

  /** A directory cluster full of entries has no end marker and cannot be read. */
  lemma FullListing(
    v: Volume, c: nat, path: Text, entries: seq<seq<byte>>, skip: nat, records: seq<Record>)
    requires Valid(v) && InRange(v.fat, c) && v.fat[c] == EOC
    requires Holds(v.clusters[c], entries) && |entries| == 16 && skip <= |entries|
    requires ReadsAs(entries, skip, records, OffsetOf(v, c), path, c)
    ensures ReadDirectory(v, c, path).None?
  {
    hide ReadsAs, Classify;
    SingleChain(v, c);
    assert ChainOf(v, c) == [c] && [c][1..] == [];
    assert ScanChain(v, [], path, c, Scan(records, false, false)).None?;
    ScanListing(v.clusters[c], entries, skip, records, 0, OffsetOf(v, c), path, c, START);
  }

  // ---------------------------------------------------------------------------------------------
  // The records

  function TextOf(name: Text): (r: Text) {
    if NameText(name).Some? then NameText(name).value else []
  }

  function ItemRecord(item: Item, first: nat, offset: nat, path: Text, parent: nat): (r: Record) {
    Record(ChildPath(path, TextOf(item.name)), item.name, item.attributes, first, |item.payload|, offset, parent)
  }

  ghost function ItemRecords(items: seq<Item>, start: nat, base: nat, slot: nat, path: Text, parent: nat): (r: seq<Record>)
    ensures |r| == |items|
    ensures forall i :: 0 <= i < |items| ==>
      r[i] == ItemRecord(items[i], FirstOf(items, start, i), base + 32 * (slot + i), path, parent)
  {
    seq(|items|, i requires 0 <= i < |items| =>
      ItemRecord(items[i], FirstOf(items, start, i), base + 32 * (slot + i), path, parent))
  }

  function FolderRecord(name: Text, cluster: nat, offset: nat): (r: Record) {
    Record(ChildPath([SLASH], TextOf(name)), name, 0x10, cluster, 0, offset, ROOT)
  }

  ghost function FolderRecords(l: Layout, base: nat): (r: seq<Record>)
    ensures |r| == |l.folders|
    ensures forall j :: 0 <= j < |r| ==>
      r[j] == FolderRecord(l.folders[j].name, FolderStart(l) + j, base + 32 * (1 + |l.files| + j))
  {
    seq(|l.folders|, j requires 0 <= j < |l.folders| =>
      FolderRecord(l.folders[j].name, FolderStart(l) + j, base + 32 * (1 + |l.files| + j)))
  }

  /** The root's records: the files, then the folders. */
  ghost function RootRecords(l: Layout, base: nat): (r: seq<Record>) {
    ItemRecords(l.files, 3, base, 1, [SLASH], ROOT) + FolderRecords(l, base)
  }

  function FolderPath(l: Layout, j: nat): (r: Text)
    requires j < |l.folders|
  {
    ChildPath([SLASH], TextOf(l.folders[j].name))
  }

  /** The records inside folder `j`: the two dot entries, then its items. */
  ghost function InnerRecords(l: Layout, j: nat, base: nat): (r: seq<Record>)
    requires j < |l.folders|
  {
    var path, c := FolderPath(l, j), FolderStart(l) + j;
    [Record(ChildPath(path, [PERIOD]), DOT, 0x10, c, 0, base, c),
     Record(ChildPath(path, [PERIOD, PERIOD]), DOTDOT, 0x10, ROOT, 0, base + 32, c)] +
    ItemRecords(l.folders[j].items, ItemsStart(l, j), base, 2, path, c)
  }

  lemma ItemReads(items: seq<Item>, start: nat, i: nat, offset: nat, path: Text, parent: nat)
    requires GoodItems(items) && Storable(items, start) && i < |items|
    ensures Classify(ItemEntry(items, start, i), false, path, offset, parent)
         == Named(ItemRecord(items[i], FirstOf(items, start, i), offset, path, parent))
  {
    hide NameText, Classify;
    var name := items[i].name;
    CanonicalText(name);
    CanonicalBytes(name);
    TotalOrder(items, i, |items|);
    EntryIsNamed(name, items[i].attributes, FirstOf(items, start, i), |items[i].payload|, path, offset, parent);
  }

  lemma RootFileReads(l: Layout, base: nat, i: nat)
    requires Good(l) && Storable(l.files, 3) && FoldersStorable(l) && i < |l.files|
    ensures |RootEntries(l)[1 + i]| == 32 && |RootRecords(l, base)| == |l.files| + |l.folders|
    ensures EntryReadsAs(RootEntries(l)[1 + i], 1 + i, 1, RootRecords(l, base), base, [SLASH], ROOT)
  {
    hide NameText, Classify, Entry, ItemEntry, Total, FolderTotal, GoodFolders, FoldersStorable, Storable, TextOf, ChildPath, Canonical;
    assert RootEntries(l)[1 + i] == ItemEntry(l.files, 3, i);
    assert RootRecords(l, base)[i] == ItemRecord(l.files[i], FirstOf(l.files, 3, i), base + 32 * (1 + i), [SLASH], ROOT);
    ItemReads(l.files, 3, i, base + 32 * (1 + i), [SLASH], ROOT);
  }

  lemma RootFolderReads(l: Layout, base: nat, j: nat)
    requires Good(l) && Storable(l.files, 3) && FoldersStorable(l) && j < |l.folders|
    ensures
      var i := 1 + |l.files| + j;
      && |RootEntries(l)[i]| == 32 && |RootRecords(l, base)| == |l.files| + |l.folders|
      && EntryReadsAs(RootEntries(l)[i], i, 1, RootRecords(l, base), base, [SLASH], ROOT)
  {
    hide NameText, Classify, Entry, ItemEntry, Total, FolderTotal, Storable, ChildPath, Canonical, GoodItems;
    var i, name := 1 + |l.files| + j, l.folders[j].name;
    assert RootEntries(l)[i] == Entry(name, 0x10, FolderStart(l) + j, 0);
    assert RootRecords(l, base)[i - 1] == FolderRecord(name, FolderStart(l) + j, base + 32 * i);
    CanonicalText(name);
    CanonicalBytes(name);
    EntryIsNamed(name, 0x10, FolderStart(l) + j, 0, [SLASH], base + 32 * i, ROOT);
  }

  lemma RootReads(l: Layout, base: nat)
    requires Good(l) && Storable(l.files, 3) && FoldersStorable(l)
    ensures ReadsAs(RootEntries(l), 1, RootRecords(l, base), base, [SLASH], ROOT)
  {
    hide GoodItems, GoodFolders, EntryReadsAs, Total, FolderTotal, Storable, FoldersStorable, Entry;
    var entries, records := RootEntries(l), RootRecords(l, base);
    forall i | 0 <= i < |entries|
      ensures |entries[i]| == 32 && EntryReadsAs(entries[i], i, 1, records, base, [SLASH], ROOT)
    {
      if i == 0 {
        RootLabelReads(l, base);
      } else if i <= |l.files| {
        RootFileReads(l, base, i - 1);
      } else {
        RootFolderReads(l, base, i - 1 - |l.files|);
      }
    }
  }

  lemma RootLabelReads(l: Layout, base: nat)
    requires Good(l) && Storable(l.files, 3) && FoldersStorable(l)
    ensures |RootEntries(l)[0]| == 32
    ensures EntryReadsAs(RootEntries(l)[0], 0, 1, RootRecords(l, base), base, [SLASH], ROOT)
  {
    hide GoodItems, GoodFolders, Classify, Total, FolderTotal, Storable, FoldersStorable, LabelEntry;
    LabelIsSkipped(l.volumeLabel, [SLASH], base, ROOT);
  }

  lemma FolderReads(l: Layout, j: nat, base: nat)
    requires Good(l) && FoldersStorable(l) && j < |l.folders|
    ensures ReadsAs(FolderEntries(l, j), 0, InnerRecords(l, j, base), base, FolderPath(l, j), FolderStart(l) + j)
  {
    hide NameText, Classify, Entry, ItemEntry, Total, FolderTotal;
    var entries, records := FolderEntries(l, j), InnerRecords(l, j, base);
    var path, c, items, start := FolderPath(l, j), FolderStart(l) + j, l.folders[j].items, ItemsStart(l, j);
    DotText();
    forall i | 0 <= i < |entries|
      ensures |entries[i]| == 32 && EntryReadsAs(entries[i], i, 0, records, base, path, c)
    {
      if i == 0 {
        EntryIsNamed(DOT, 0x10, c, 0, path, base, c);
      } else if i == 1 {
        EntryIsNamed(DOTDOT, 0x10, ROOT, 0, path, base + 32, c);
      } else {
        assert entries[i] == ItemEntry(items, start, i - 2);
        assert records[i] == ItemRecord(items[i - 2], FirstOf(items, start, i - 2), base + 32 * i, path, c);
        ItemReads(items, start, i - 2, base + 32 * i, path, c);
      }
    }
  }

  // ---------------------------------------------------------------------------------------------
  // The tree walk

  ghost predicate Clear(owners: Owners, lo: nat, hi: nat) {
    forall c :: lo <= c < hi ==> c !in owners
  }

  /** One placed file is accepted and charged its run. */
  lemma ItemParses(v: Volume, item: Item, r: Record, owners: Owners, stack: set<nat>)
    requires Valid(v) && v.clusterBytes == 512 && FileAt(v, item.payload, r.first) && 0 < |item.payload|
    requires r.size == |item.payload| && !r.IsDot() && !r.IsDirectory()
    requires Clear(owners, r.first, r.first + Count(item.payload))
    ensures ParseRecord(v, r, owners, stack)
         == Some(Parsed([], Charge(owners, Run(r.first, Count(item.payload)), r.path)))
  {
    hide ParseDirectory;
    FileChain(v, item.payload, r.first);
  }

  ghost predicate Fresh(folded: set<Text>, items: seq<Item>, i: nat)
    requires i <= |items|
  {
    forall k :: i <= k < |items| ==> items[k].name !in folded
  }

  /** A list of placed files is accepted item by item, leaving the records behind it. */
  lemma {:induction false} ItemsParse(
    v: Volume, items: seq<Item>, start: nat, records: seq<Record>, i: nat, tail: seq<Record>,
    folded: set<Text>, owners: Owners, stack: set<nat>) returns (folded': set<Text>, owners': Owners)
    requires Valid(v) && v.clusterBytes == 512 && GoodItems(items) && FilesAt(v, items, start) && i <= |items|
    requires |records| == |items| && forall k :: 0 <= k < |items| ==> Describes(records[k], items, start, k)
    requires Fresh(folded, items, i) && Clear(owners, FirstOf(items, start, i), start + Total(items))
    ensures ParseRecords(v, records[i..] + tail, folded, owners, stack)
         == ParseRecords(v, tail, folded', owners', stack)
    ensures forall x :: x in folded' <==> x in folded || exists k :: i <= k < |items| && items[k].name == x
    ensures forall c :: c in owners' <==> c in owners || FirstOf(items, start, i) <= c < start + Total(items)
    decreases |items| - i
  {
    hide NameText, Canonical, ParseRecord, ParseRecords, Total, Count, FileAt, Charge, Upper, Run;
    TotalOrder(items, i, |items|);
    if i == |items| {
      assert records[i..] + tail == tail;
      folded', owners' := folded, owners;
    } else {
      var r := records[i];
      assert Describes(r, items, start, i);
      CanonicalBytes(items[i].name);
      TotalStep(items, i);
      TotalOrder(items, i + 1, |items|);
      ItemParses(v, items[i], r, owners, stack);
      var charged := Charge(owners, Run(r.first, Count(items[i].payload)), r.path);
      ChargedKeys(owners, r.first, Count(items[i].payload), r.path);
      assert records[i..] + tail == [r] + (records[i + 1..] + tail);
      folded', owners' := ItemsParse(v, items, start, records, i + 1, tail, folded + {items[i].name}, charged, stack);
      SkipEmpty(v, r, records[i + 1..] + tail, folded, owners, stack, charged);
    }
  }

  /** A record that adds no records of its own. */
  lemma SkipEmpty(
    v: Volume, r: Record, rest: seq<Record>, folded: set<Text>, owners: Owners, stack: set<nat>, after: Owners)
    requires Valid(v) && Upper(r.name) !in folded && ParseRecord(v, r, owners, stack) == Some(Parsed([], after))
    ensures ParseRecords(v, [r] + rest, folded, owners, stack)
         == ParseRecords(v, rest, folded + {Upper(r.name)}, after, stack)
  {
    hide ParseRecord;
    assert ([r] + rest)[1..] == rest;
    var more := ParseRecords(v, rest, folded + {Upper(r.name)}, after, stack);
    if more.Some? {
      assert [] + more.value.records == more.value.records;
    }
  }

  ghost predicate Describes(r: Record, items: seq<Item>, start: nat, k: nat)
    requires k < |items|
  {
    && r.name == items[k].name && r.attributes == items[k].attributes
    && r.first == FirstOf(items, start, k) && r.size == |items[k].payload|
  }

  lemma ChargedKeys(owners: Owners, first: nat, n: nat, path: Text)
    ensures forall c: nat :: c in Charge(owners, Run(first, n), path) <==> c in owners || first <= c < first + n
  {
    forall c: nat ensures c in Run(first, n) <==> first <= c < first + n {
      if first <= c < first + n {
        assert Run(first, n)[c - first] == c;
      }
    }
  }

  /** The clusters charged before folder `j` is entered. */
  ghost predicate Claimed(l: Layout, j: nat, c: int)
    requires j <= |l.folders|
  {
    2 <= c < FolderStart(l) + j || FolderStart(l) + |l.folders| <= c < ItemsStart(l, j)
  }

  ghost predicate ClaimedExactly(l: Layout, j: nat, owners: Owners)
    requires j <= |l.folders|
  {
    forall c: nat :: c in owners <==> Claimed(l, j, c)
  }

  /** Folder `j` is accepted with all its items. */
  lemma FolderParses(v: Volume, l: Layout, j: nat, owners: Owners) returns (owners': Owners)
    requires Laid(v, l) && j < |l.folders| && ClaimedExactly(l, j, owners)
    ensures ClaimedExactly(l, j + 1, owners')
    ensures ParseDirectory(v, FolderStart(l) + j, FolderPath(l, j), owners, {ROOT})
         == Some(Parsed(InnerRecords(l, j, OffsetOf(v, FolderStart(l) + j)), owners'))
  {
    hide NameText, Canonical, Classify, Walk, ScanChain, ReadsAs, Holds, FileAt, ParseRecord, ParseRecords, ReadDirectory, ToEndMarker, ChainOf, Total, FolderTotal, InnerRecords, FolderEntries, GoodItems, FilesAt, TextOf, ChildPath, Storable, RootEntries, OffsetOf;
    var path, c, items, start := FolderPath(l, j), FolderStart(l) + j, l.folders[j].items, ItemsStart(l, j);
    var base := OffsetOf(v, c);
    var inner := InnerRecords(l, j, base);
    FolderReads(l, j, base);
    assert FolderAt(v, l, j);
    ReadListing(v, c, path, FolderEntries(l, j), 0, inner);
    assert inner + [] == inner;
    FolderTotalStep(l.folders, j);
    FolderTotalOrder(l.folders, j + 1, |l.folders|);
    var charged := Charge(owners, [c], path);
    assert forall x: nat :: x in charged <==> x in owners || x == c;
    owners' := InnerParses(v, l, j, charged, c, start, start + Total(items));
  }

  lemma InnerParses(v: Volume, l: Layout, j: nat, owners: Owners, c: nat, start: nat, end: nat)
    returns (owners': Owners)
    requires Valid(v) && j < |l.folders| && 2 <= c && Laid(v, l) && c == FolderStart(l) + j
    requires start == ItemsStart(l, j) && end == start + Total(l.folders[j].items) && Clear(owners, start, end)
    ensures ParseRecords(v, InnerRecords(l, j, OffsetOf(v, c)), {}, owners, {ROOT} + {c}) == Some(Parsed([], owners'))
    ensures forall x: nat :: x in owners' <==> x in owners || start <= x < end
  {
    hide NameText, Canonical, ParseDirectory, FileAt, Holds, Charge, ParseRecords, Total, FolderTotal, FolderEntries, RootEntries, Storable, ChildPath, OffsetOf, TextOf;
    var path, items := FolderPath(l, j), l.folders[j].items;
    var base := OffsetOf(v, c);
    var inner, stack := InnerRecords(l, j, base), {ROOT} + {c};
    var records := ItemRecords(items, start, base, 2, path, c);
    DotKeys();
    var folded: set<Text> := {DOT} + {DOTDOT};
    assert Fresh(folded, items, 0) by {
      forall k | 0 <= k < |items| ensures items[k].name !in folded {
        CanonicalBytes(items[k].name);
      }
    }
    FirstIsStart(items, start);
    assert FolderAt(v, l, j);
    var folded';
    folded', owners' := ItemsParse(v, items, start, records, 0, [], folded, owners, stack);
    assert records[0..] + [] == records;
    NoRecords(v, folded', owners', stack);
    SkipEmpty(v, inner[1], records, {DOT}, owners, stack, owners);
    SkipEmpty(v, inner[0], [inner[1]] + records, {}, owners, stack, owners);
    assert inner == [inner[0]] + ([inner[1]] + records);
    assert {} + {DOT} == {DOT};
  }

  lemma NoRecords(v: Volume, folded: set<Text>, owners: Owners, stack: set<nat>)
    requires Valid(v)
    ensures ParseRecords(v, [], folded, owners, stack) == Some(Parsed([], owners))
  {
  }

  /** A first record that was accepted, followed by accepted records. */
  lemma TakeRecord(
    v: Volume, r: Record, rest: seq<Record>, folded: set<Text>, owners: Owners, stack: set<nat>, below: Parsed, after: Parsed)
    requires Valid(v) && Upper(r.name) !in folded && ParseRecord(v, r, owners, stack) == Some(below)
    requires ParseRecords(v, rest, folded + {Upper(r.name)}, below.owners, stack) == Some(after)
    ensures ParseRecords(v, [r] + rest, folded, owners, stack)
         == Some(Parsed(below.records + after.records, after.owners))
  {
    hide ParseRecord;
    assert ([r] + rest)[1..] == rest;
  }

  lemma DirectoryRecordParses(v: Volume, r: Record, owners: Owners, stack: set<nat>)
    requires Valid(v) && !r.IsDot() && r.IsDirectory() && 2 <= r.first
    ensures ParseRecord(v, r, owners, stack) == ParseDirectory(v, r.first, r.path, owners, stack)
  {
    hide ParseDirectory;
  }

  lemma DotKeys()
    ensures Upper(DOT) == DOT && Upper(DOTDOT) == DOTDOT && DOT != DOTDOT
  {
    assert DOT[1] != DOTDOT[1];
  }

  ghost predicate FoldersFresh(folded: set<Text>, l: Layout, j: nat)
    requires j <= |l.folders|
  {
    forall k :: j <= k < |l.folders| ==> l.folders[k].name !in folded
  }

  /** Everything inside the folders from `j` on, in order. */
  ghost function AllInner(v: Volume, l: Layout, j: nat): (r: seq<Record>)
    requires j <= |l.folders|
    decreases |l.folders| - j
  {
    if j == |l.folders| then []
    else InnerRecords(l, j, OffsetOf(v, FolderStart(l) + j)) + AllInner(v, l, j + 1)
  }

  lemma {:induction false} FoldersParse(v: Volume, l: Layout, j: nat, folded: set<Text>, owners: Owners)
    returns (owners': Owners)
    requires Laid(v, l) && j <= |l.folders| && FoldersFresh(folded, l, j) && ClaimedExactly(l, j, owners)
    ensures ParseRecords(v, FolderRecords(l, OffsetOf(v, ROOT))[j..], folded, owners, {ROOT})
         == Some(Parsed(AllInner(v, l, j), owners'))
    ensures ClaimedExactly(l, |l.folders|, owners')
    decreases |l.folders| - j
  {
    hide NameText, Canonical, ParseDirectory, FileAt, Holds, Charge, Walk, ParseRecords, ParseRecord, FolderEntries, RootEntries, Storable, Total, FolderTotal, OffsetOf, GoodItems, FilesAt, InnerRecords, ClaimedExactly, FolderAt, Upper;
    var records := FolderRecords(l, OffsetOf(v, ROOT));
    if j == |l.folders| {
      assert records[j..] == [];
      NoRecords(v, folded, owners, {ROOT});
      owners' := owners;
    } else {
      var r, name := records[j], l.folders[j].name;
      CanonicalBytes(name);
      assert records[j..] == [r] + records[j + 1..];
      var middle := FolderParses(v, l, j, owners);
      owners' := FoldersParse(v, l, j + 1, folded + {name}, middle);
      DirectoryRecordParses(v, r, owners, {ROOT});
      var below := Parsed(InnerRecords(l, j, OffsetOf(v, FolderStart(l) + j)), middle);
      TakeRecord(v, r, records[j + 1..], folded, owners, {ROOT}, below, Parsed(AllInner(v, l, j + 1), owners'));
    }
  }

  /** Formatter correctness, volume level: a laid-out volume is accepted, reports exactly the laid
      records, and has exactly the clusters below the allocator's final position in use. */
  lemma LaidIsAccepted(v: Volume, l: Layout)
    requires Laid(v, l) && Roomy(l)
    ensures Accepts(v, ROOT)
    ensures Tree(v, ROOT).records == RootRecords(l, OffsetOf(v, ROOT)) + AllInner(v, l, 0)
    ensures |Allocated(v)| == Next(l) - 2
  {
    hide NameText, Canonical, Classify, Walk, ScanChain, ReadsAs, Holds, FileAt, ParseRecord, ParseRecords, ParseDirectory, Accepts, Tree, Allocated, Charge, ReadDirectory, ChainOf, ToEndMarker, Total, FolderTotal, OffsetOf, FolderEntries, AllInner;
    var base := OffsetOf(v, ROOT);
    var files := ItemRecords(l.files, 3, base, 1, [SLASH], ROOT);
    var folders := FolderRecords(l, base);
    RootReads(l, base);
    ReadListing(v, ROOT, [SLASH], RootEntries(l), 1, RootRecords(l, base));
    var owners: Owners := Charge(map[], [ROOT], [SLASH]);
    RootCharge();
    FirstIsStart(l.files, 3);
    EmptyFolders(l);
    var folded', owners' := ItemsParse(v, l.files, 3, files, 0, folders, {}, owners, {} + {ROOT});
    assert files[0..] + folders == RootRecords(l, base);
    assert folders[0..] == folders && {} + {ROOT} == {ROOT};
    var owners'' := FoldersParse(v, l, 0, folded', owners');
    RootParses(v, l, owners'');
  }

  /** With fifteen entries beside its label the root has no end marker, and the volume is refused. */
  lemma FullRootIsRefused(v: Volume, l: Layout)
    requires Laid(v, l) && !Roomy(l)
    ensures !Accepts(v, ROOT)
  {
    hide NameText, Canonical, Classify, Walk, ScanChain, ReadsAs, Holds, FileAt, ParseRecords, ReadDirectory, OffsetOf;
    RootReads(l, OffsetOf(v, ROOT));
    FullListing(v, ROOT, [SLASH], RootEntries(l), 1, RootRecords(l, OffsetOf(v, ROOT)));
  }

  lemma RootCharge()
    ensures forall c: nat :: c in Charge(map[], [ROOT], [SLASH]) <==> c == ROOT
  {
  }

  lemma RootParses(v: Volume, l: Layout, owners: Owners)
    requires Laid(v, l) && ClaimedExactly(l, |l.folders|, owners)
    requires ReadDirectory(v, ROOT, [SLASH]) == Some(RootRecords(l, OffsetOf(v, ROOT)))
    requires ToEndMarker(v, ChainOf(v, ROOT)) == [ROOT]
    requires ParseRecords(v, RootRecords(l, OffsetOf(v, ROOT)), {}, Charge(map[], [ROOT], [SLASH]), {} + {ROOT})
          == Some(Parsed(AllInner(v, l, 0), owners))
    ensures Accepts(v, ROOT)
    ensures Tree(v, ROOT).records == RootRecords(l, OffsetOf(v, ROOT)) + AllInner(v, l, 0)
    ensures |Allocated(v)| == Next(l) - 2
  {
    hide NameText, Canonical, Classify, Walk, ScanChain, ReadsAs, Holds, FileAt, ParseRecords, RootRecords;
    assert Tree(v, ROOT).owners == owners;
    AllocatedIsUsed(v, l);
    IntervalSize(2, Next(l));
    var used: set<nat> := set c: nat | c in Interval(2, Next(l));
    var same: set<int> := set c: int | c in used;
    assert same == Interval(2, Next(l));
    assert |used| == Next(l) - 2 by {
      SameSize(used, Next(l));
    }
    assert Allocated(v) == used;
  }

  lemma {:induction false} SameSize(used: set<nat>, n: nat)
    requires 2 <= n && forall c: nat :: c in used <==> 2 <= c < n
    ensures |used| == n - 2
    decreases n
  {
    if n == 2 {
      assert used == {};
    } else {
      SameSize(used - {n - 1}, n - 1);
    }
  }

  /** In a laid-out volume exactly the clusters below `Next` have nonzero entries. */
  lemma AllocatedIsUsed(v: Volume, l: Layout)
    requires Laid(v, l)
    ensures forall c: nat :: c in Allocated(v) <==> 2 <= c < Next(l)
  {
    hide Holds, Canonical, Good, FileAt, FolderEntries, RootEntries, Storable, FolderTotal, Total, FilesAt;
    EmptyFolders(l);
    forall c: nat | 2 <= c < Next(l) ensures v.fat[c] != 0 {
      if 3 <= c < FolderStart(l) {
        ItemClusterUsed(v, l.files, 3, c);
      } else if FolderStart(l) <= c < FolderStart(l) + |l.folders| {
        assert FolderAt(v, l, c - FolderStart(l));
      } else if FolderStart(l) + |l.folders| <= c {
        FolderClusterUsed(v, l, |l.folders|, c);
      }
    }
  }

  lemma {:induction false} ItemClusterUsed(v: Volume, items: seq<Item>, start: nat, c: nat)
    requires FilesAt(v, items, start) && start <= c < start + Total(items)
    ensures c < |v.fat| && v.fat[c] != 0
  {
    assert items[..|items|] == items;
    var i := ItemAt(items, start, |items|, c);
    assert FileAt(v, items[i].payload, FirstOf(items, start, i));
    assert BlockAt(v, items[i].payload, FirstOf(items, start, i), c - FirstOf(items, start, i));
  }

  lemma {:induction false} ItemAt(items: seq<Item>, start: nat, n: nat, c: nat) returns (i: nat)
    requires 0 < n <= |items| && start <= c < start + Total(items[..n])
    ensures i < n && FirstOf(items, start, i) <= c < FirstOf(items, start, i) + Count(items[i].payload)
    decreases n
  {
    assert items[..0] == [];
    TotalStep(items, n - 1);
    if 1 < n && c < start + Total(items[..n - 1]) {
      i := ItemAt(items, start, n - 1, c);
    } else {
      i := n - 1;
    }
  }

  lemma {:induction false} FolderClusterUsed(v: Volume, l: Layout, n: nat, c: nat)
    requires Laid(v, l) && 0 < n <= |l.folders| && FolderStart(l) + |l.folders| <= c < ItemsStart(l, n)
    ensures c < |v.fat| && v.fat[c] != 0
    decreases n
  {
    hide Holds, Canonical, Good, FileAt, FolderEntries, RootEntries, Storable, FolderTotal, Total;
    EmptyFolders(l);
    FolderTotalStep(l.folders, n - 1);
    if 1 < n && c < ItemsStart(l, n - 1) {
      FolderClusterUsed(v, l, n - 1, c);
    } else {
      assert FolderAt(v, l, n - 1);
      ItemClusterUsed(v, l.folders[n - 1].items, ItemsStart(l, n - 1), c);
    }
  }

  lemma EmptyFolders(l: Layout)
    ensures ItemsStart(l, 0) == FolderStart(l) + |l.folders|
    ensures ItemsStart(l, |l.folders|) == Next(l)
  {
    assert l.folders[..0] == [];
  }
}
