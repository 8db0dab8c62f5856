/** What the formatters lay out: files in consecutive clusters behind one-cluster directories. */
module FatLayout {
  import opened Bytes
  import opened ShortNames
  import opened FatChain
  import opened FatGeometry
  import opened FatDirectory

  const EOC := 0x0FFF_FFFF
  const ROOT := 2

  datatype Item = Item(name: Text, attributes: byte, payload: seq<byte>)
  datatype Folder = Folder(name: Text, items: seq<Item>)
  datatype Layout = Layout(volumeLabel: Text, files: seq<Item>, folders: seq<Folder>)

  /** Clusters of 512 bytes needed for a payload. */
  function Count(payload: seq<byte>): (n: nat)
    ensures |payload| <= 512 * n < |payload| + 512
  {
    (|payload| + 511) / 512
  }

  function Total(items: seq<Item>): (n: nat) {
    if items == [] then 0 else Total(items[..|items| - 1]) + Count(items[|items| - 1].payload)
  }

  function FolderTotal(folders: seq<Folder>): (n: nat) {
    if folders == [] then 0 else FolderTotal(folders[..|folders| - 1]) + Total(folders[|folders| - 1].items)
  }

  /** First cluster of item `i` when the list starts at `start`. */
  function FirstOf(items: seq<Item>, start: nat, i: nat): (c: nat)
    requires i <= |items|
  {
    start + Total(items[..i])
  }

  lemma FirstIsStart(items: seq<Item>, start: nat)
    ensures FirstOf(items, start, 0) == start
  {
    assert items[..0] == [];
  }

  lemma TotalStep(items: seq<Item>, i: nat)
    requires i < |items|
    ensures Total(items[..i + 1]) == Total(items[..i]) + Count(items[i].payload)
  {
    assert items[..i + 1][..i] == items[..i];
  }

  lemma {:induction false} TotalOrder(items: seq<Item>, i: nat, j: nat)
    requires i <= j <= |items|
    ensures Total(items[..i]) <= Total(items[..j])
    ensures j == |items| ==> Total(items[..j]) == Total(items)
    decreases j - i
  {
    if i < j {
      TotalStep(items, i);
      TotalOrder(items, i + 1, j);
    }
    if j == |items| {
      assert items[..j] == items;
    }
  }

  lemma FolderTotalStep(folders: seq<Folder>, j: nat)
    requires j < |folders|
    ensures FolderTotal(folders[..j + 1]) == FolderTotal(folders[..j]) + Total(folders[j].items)
  {
    assert folders[..j + 1][..j] == folders[..j];
  }

  lemma {:induction false} FolderTotalOrder(folders: seq<Folder>, i: nat, j: nat)
    requires i <= j <= |folders|
    ensures FolderTotal(folders[..i]) <= FolderTotal(folders[..j])
    ensures j == |folders| ==> FolderTotal(folders[..j]) == FolderTotal(folders)
    decreases j - i
  {
    if i < j {
      FolderTotalStep(folders, i);
      FolderTotalOrder(folders, i + 1, j);
    }
    if j == |folders| {
      assert folders[..j] == folders;
    }
  }

  /** Block `k` of a payload, padded with zeros to a whole cluster. */
  function Block(payload: seq<byte>, k: nat): (r: seq<byte>)
    ensures |r| == 512
  {
    seq(512, i requires 0 <= i < 512 => if 512 * k + i < |payload| then payload[512 * k + i] else 0)
  }

  // ---------------------------------------------------------------------------------------------
  // Directory entries

  function Entry(name: Text, attributes: byte, cluster: nat, size: nat): (r: seq<byte>)
    requires |name| == 11 && cluster < 0x1_0000_0000 && size < 0x1_0000_0000
    ensures |r| == 32 && r[..11] == name && r[11] == attributes
    ensures U16(r, 20) == cluster / 0x1_0000 && U16(r, 26) == cluster % 0x1_0000 && U32(r, 28) == size
  {
    name + [attributes] + Zeros(8) + Le16(cluster / 0x1_0000) + Zeros(4) + Le16(cluster % 0x1_0000) + Le32(size)
  }

  /** All 32 bytes of an entry: name, attributes, cluster and size in their fields, zeros elsewhere. */
  lemma EntryBytes(name: Text, attributes: byte, cluster: nat, size: nat)
    requires |name| == 11 && cluster < 0x1_0000_0000 && size < 0x1_0000_0000
    ensures
      var r := Entry(name, attributes, cluster, size);
      && r[..11] == name && r[11] == attributes && (forall i :: 12 <= i < 20 || 22 <= i < 26 ==> r[i] == 0)
      && r[20..22] == Le16(cluster / 0x1_0000) && r[26..28] == Le16(cluster % 0x1_0000) && r[28..32] == Le32(size)
    ensures LabelEntry(name) == Entry(name, 8, 0, 0)
  {
    hide Le16, Le32;
  }

  /** The directory cluster `raw` holds exactly these entries, then zeros. */
  ghost predicate Holds(raw: seq<byte>, entries: seq<seq<byte>>) {
    && |raw| == 512 && 32 * |entries| <= 512
    && (forall i :: 0 <= i < |entries| ==> |entries[i]| == 32 && raw[32 * i..32 * i + 32] == entries[i])
    && (forall k :: 32 * |entries| <= k < 512 ==> raw[k] == 0)
  }

  ghost function ItemEntries(items: seq<Item>, start: nat): (r: seq<seq<byte>>)
    requires Storable(items, start)
    ensures |r| == |items| && forall i :: 0 <= i < |r| ==> r[i] == ItemEntry(items, start, i)
  {
    seq(|items|, i requires 0 <= i < |items| => ItemEntry(items, start, i))
  }

  ghost function ItemEntry(items: seq<Item>, start: nat, i: nat): (r: seq<byte>)
    requires Storable(items, start) && i < |items|
    ensures |r| == 32
  {
    TotalOrder(items, i, |items|);
    Entry(items[i].name, items[i].attributes, FirstOf(items, start, i), |items[i].payload|)
  }

  /** Sizes and cluster numbers fit their 32-bit fields. */
  ghost predicate Storable(items: seq<Item>, start: nat) {
    && start + Total(items) < 0x1_0000_0000
    && forall i :: 0 <= i < |items| ==> |items[i].name| == 11 && |items[i].payload| < 0x1_0000_0000
  }

  function LabelEntry(volumeLabel: Text): (r: seq<byte>)
    requires |volumeLabel| == 11
    ensures |r| == 32
  {
    Entry(volumeLabel, 0x08, 0, 0)
  }

  // ---------------------------------------------------------------------------------------------
  // The laid-out volume

  ghost predicate FileAt(v: Volume, payload: seq<byte>, first: nat) {
    && 2 <= first && first + Count(payload) <= |v.fat| == |v.clusters|
    && forall k :: 0 <= k < Count(payload) ==> BlockAt(v, payload, first, k)
  }

  ghost predicate BlockAt(v: Volume, payload: seq<byte>, first: nat, k: nat) {
    && first + k < |v.fat| == |v.clusters|
    && v.fat[first + k] == (if k + 1 < Count(payload) then first + k + 1 else EOC)
    && v.clusters[first + k] == Block(payload, k)
  }

  ghost predicate FilesAt(v: Volume, items: seq<Item>, start: nat) {
    forall i :: 0 <= i < |items| ==> FileAt(v, items[i].payload, FirstOf(items, start, i))
  }

  ghost predicate GoodItems(items: seq<Item>) {
    && (forall i :: 0 <= i < |items| ==>
          && Canonical(items[i].name) && items[i].attributes in {0x20, 0x21}
          && 0 < |items[i].payload| <= 0x100_0000)
    && (forall i, j :: 0 <= i < j < |items| ==> items[i].name != items[j].name)
  }

  ghost predicate GoodFolders(folders: seq<Folder>) {
    && (forall j :: 0 <= j < |folders| ==>
          && Canonical(folders[j].name) && GoodItems(folders[j].items) && |folders[j].items| <= 13)
    && (forall i, j :: 0 <= i < j < |folders| ==> folders[i].name != folders[j].name)
  }

  /** Inputs past the formatters' checks; fifteen entries fill the root beside its label. */
  ghost predicate Good(l: Layout) {
    && |l.volumeLabel| == 11 && l.volumeLabel[0] != 0 && l.volumeLabel[0] != 0xE5
    && GoodItems(l.files) && GoodFolders(l.folders)
    && (forall i, j :: 0 <= i < |l.files| && 0 <= j < |l.folders| ==> l.files[i].name != l.folders[j].name)
    && |l.files| + |l.folders| <= 15
  }

  /** The root keeps an entry free for its end marker. */
  predicate Roomy(l: Layout) {
    |l.files| + |l.folders| <= 14
  }

  function FolderStart(l: Layout): (c: nat) {
    3 + Total(l.files)
  }

  /** First cluster of the items of folder `j`. */
  function ItemsStart(l: Layout, j: nat): (c: nat)
    requires j <= |l.folders|
  {
    FolderStart(l) + |l.folders| + FolderTotal(l.folders[..j])
  }

  /** The bump allocator's final position. */
  function Next(l: Layout): (c: nat) {
    ItemsStart(l, |l.folders|)
  }

  ghost function RootEntries(l: Layout): (r: seq<seq<byte>>)
    requires |l.volumeLabel| == 11 && Storable(l.files, 3) && FoldersStorable(l)
    ensures |r| == 1 + |l.files| + |l.folders|
  {
    [LabelEntry(l.volumeLabel)] + ItemEntries(l.files, 3) +
    seq(|l.folders|, j requires 0 <= j < |l.folders| => Entry(l.folders[j].name, 0x10, FolderStart(l) + j, 0))
  }

  ghost predicate FoldersStorable(l: Layout) {
    && Next(l) < 0x1_0000_0000 && FolderStart(l) + |l.folders| < 0x1_0000_0000
    && forall j :: 0 <= j < |l.folders| ==>
         |l.folders[j].name| == 11 && Storable(l.folders[j].items, ItemsStart(l, j))
  }

  ghost function FolderEntries(l: Layout, j: nat): (r: seq<seq<byte>>)
    requires FoldersStorable(l) && j < |l.folders|
    ensures |r| == 2 + |l.folders[j].items|
  {
    [Entry(DOT, 0x10, FolderStart(l) + j, 0), Entry(DOTDOT, 0x10, ROOT, 0)] +
    ItemEntries(l.folders[j].items, ItemsStart(l, j))
  }

  /** Folder `j` has its own one-cluster directory, holding its entries, and its files. */
  ghost predicate FolderAt(v: Volume, l: Layout, j: nat)
    requires FoldersStorable(l) && j < |l.folders|
  {
    && FolderStart(l) + j < |v.fat| == |v.clusters| && v.fat[FolderStart(l) + j] == EOC
    && Holds(v.clusters[FolderStart(l) + j], FolderEntries(l, j))
    && FilesAt(v, l.folders[j].items, ItemsStart(l, j))
  }

  /** `v` is exactly the layout: chains, contents, directories, and nothing allocated beyond. */
  ghost predicate Laid(v: Volume, l: Layout) {
    && Valid(v) && v.clusterBytes == 512
    && Good(l) && Next(l) <= |v.fat| && Storable(l.files, 3) && FoldersStorable(l)
    && v.fat[ROOT] == EOC && Holds(v.clusters[ROOT], RootEntries(l))
    && FilesAt(v, l.files, 3)
    && (forall j :: 0 <= j < |l.folders| ==> FolderAt(v, l, j))
    && (forall c :: Next(l) <= c < |v.fat| ==> v.fat[c] == 0)
  }

  // ---------------------------------------------------------------------------------------------
  // Chains and read-back

  ghost function Run(first: nat, n: nat): (r: seq<nat>)
    ensures |r| == n && forall i :: 0 <= i < n ==> r[i] == first + i
  {
    seq(n, i => first + i)
  }

  /** A placed file's first cluster denotes exactly its run of clusters. */
  lemma FileChain(v: Volume, payload: seq<byte>, first: nat)
    requires Valid(v) && FileAt(v, payload, first) && payload != []
    ensures Walk(v.fat, first) == Some(Run(first, Count(payload)))
  {
    var run := Run(first, Count(payload));
    forall i | 0 <= i < |run| - 1 ensures Linked(v.fat, run, i) {
      assert BlockAt(v, payload, first, i);
    }
    assert BlockAt(v, payload, first, Count(payload) - 1);
    assert forall i :: 0 <= i < |run| ==> InRange(v.fat, run[i]);
    WalkIs(v.fat, first, run);
  }

  lemma SingleChain(v: Volume, c: nat)
    requires Valid(v) && InRange(v.fat, c) && v.fat[c] == EOC
    ensures Walk(v.fat, c) == Some([c])
  {
    WalkIs(v.fat, c, [c]);
  }

  /** The bytes of the clusters of a chain, in order. */
  ghost function Contents(v: Volume, chain: seq<nat>): (r: seq<byte>)
    requires forall i :: 0 <= i < |chain| ==> chain[i] < |v.clusters|
  {
    if chain == [] then [] else Contents(v, chain[..|chain| - 1]) + v.clusters[chain[|chain| - 1]]
  }

  lemma {:induction false} RunContents(v: Volume, payload: seq<byte>, first: nat, n: nat)
    requires FileAt(v, payload, first) && n <= Count(payload)
    ensures Contents(v, Run(first, n)) ==
            (if 512 * n <= |payload| then payload[..512 * n] else payload + Zeros(512 * n - |payload|))
  {
    if 0 < n {
      var m := n - 1;
      assert Run(first, n)[..m] == Run(first, m);
      RunContents(v, payload, first, m);
      assert BlockAt(v, payload, first, m);
      var before, after := Contents(v, Run(first, m)), Contents(v, Run(first, n));
      assert after == before + Block(payload, m);
      assert before == payload[..512 * m];
    }
  }

  /** Read-back: a file's chain gives back its payload followed only by zeros. */
  lemma ReadBack(v: Volume, payload: seq<byte>, first: nat)
    requires Valid(v) && FileAt(v, payload, first) && payload != []
    ensures Contents(v, ChainOf(v, first)) == payload + Zeros(512 * Count(payload) - |payload|)
  {
    FileChain(v, payload, first);
    RunContents(v, payload, first, Count(payload));
    if 512 * Count(payload) == |payload| {
      assert payload[..|payload|] == payload + Zeros(0);
    }
  }
}
