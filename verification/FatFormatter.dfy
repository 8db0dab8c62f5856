/** The bump allocator that writes a layout into an image, byte by byte. */
module FatFormatter {
  import opened Bytes
  import opened ShortNames
  import opened FatChain
  import opened FatGeometry
  import opened FatDirectory
  import opened FatLayout
  import opened FatImage

  const MEDIA := 0x0FFF_FFF8

  /** Nothing is allocated or written from cluster `n` on. */
  ghost predicate FreeFrom(v: Volume, n: nat) {
    && |v.fat| == |v.clusters|
    && forall c :: n <= c < |v.fat| ==> v.fat[c] == 0 && v.clusters[c] == Zeros(512)
  }

  ghost predicate Agree(v: Volume, w: Volume, lo: nat, hi: nat) {
    && |v.fat| == |w.fat| && |v.clusters| == |w.clusters| == |v.fat|
    && forall c :: lo <= c < hi && c < |v.fat| ==> w.fat[c] == v.fat[c] && w.clusters[c] == v.clusters[c]
  }

  /** Only the bytes of cluster `d` differ. */
  ghost predicate AgreeBut(v: Volume, w: Volume, d: nat) {
    && w.fat == v.fat && |v.clusters| == |w.clusters| == |v.fat|
    && forall c :: 0 <= c < |v.fat| && c != d ==> w.clusters[c] == v.clusters[c]
  }

  lemma FileKept(v: Volume, w: Volume, payload: seq<byte>, first: nat)
    requires FileAt(v, payload, first) && Agree(v, w, first, first + Count(payload))
    ensures FileAt(w, payload, first)
  {
    hide Count, Block;
    forall k | 0 <= k < Count(payload) ensures BlockAt(w, payload, first, k) {
      assert BlockAt(v, payload, first, k);
    }
  }

  lemma HoldsGrows(raw: seq<byte>, entries: seq<seq<byte>>, entry: seq<byte>)
    requires Holds(raw, entries) && |entries| < 16 && |entry| == 32
    ensures Holds(Overwrite(raw, 32 * |entries|, entry), entries + [entry])
  {
    hide Overwrite;
    var n, more := |entries|, entries + [entry];
    var raw' := Overwrite(raw, 32 * n, entry);
    forall i | 0 <= i < n + 1 ensures |more[i]| == 32 && raw'[32 * i..32 * i + 32] == more[i] {
      if i < n {
        assert raw[32 * i..32 * i + 32] == entries[i];
        assert raw'[32 * i..32 * i + 32] == raw[32 * i..32 * i + 32];
      } else {
        assert raw'[32 * i..32 * i + 32] == entry;
      }
    }
  }

  lemma EmptyHolds()
    ensures Holds(Zeros(512), [])
  {
  }

  // ---------------------------------------------------------------------------------------------
  // Stages of writing a layout

  ghost predicate Planned(l: Layout) {
    && Good(l) && |l.volumeLabel| == 11 && |l.files| + |l.folders| <= 15
    && Storable(l.files, 3) && FoldersStorable(l)
  }

  ghost predicate FilesDone(v: Volume, l: Layout, n: nat)
    requires n <= |l.files|
  {
    forall i :: 0 <= i < n ==> FileAt(v, l.files[i].payload, FirstOf(l.files, 3, i))
  }

  ghost predicate RootListed(v: Volume, l: Layout, n: nat)
    requires Planned(l)
  {
    && 2 < |v.fat| == |v.clusters| && n <= 1 + |l.files| + |l.folders|
    && v.fat[0] == MEDIA && v.fat[1] == EOC && v.fat[2] == EOC
    && Holds(v.clusters[2], RootEntries(l)[..n])
  }

  ghost predicate IsReserved(v: Volume, l: Layout, j: nat) {
    FolderStart(l) + j < |v.fat| == |v.clusters| && v.fat[FolderStart(l) + j] == EOC &&
    v.clusters[FolderStart(l) + j] == Zeros(512)
  }

  ghost predicate Reserved(v: Volume, l: Layout, lo: nat, hi: nat) {
    forall j :: lo <= j < hi ==> IsReserved(v, l, j)
  }

  ghost predicate FoldersDone(v: Volume, l: Layout, n: nat)
    requires Planned(l) && n <= |l.folders|
  {
    forall j :: 0 <= j < n ==> FolderAt(v, l, j)
  }

  lemma FilesKept(v: Volume, w: Volume, l: Layout, n: nat)
    requires n <= |l.files| && FilesDone(v, l, n) && Agree(v, w, 3, FirstOf(l.files, 3, n))
    ensures FilesDone(w, l, n)
  {
    hide FileAt, Total, Count;
    forall i | 0 <= i < n ensures FileAt(w, l.files[i].payload, FirstOf(l.files, 3, i)) {
      TotalStep(l.files, i);
      TotalOrder(l.files, i + 1, n);
      FileKept(v, w, l.files[i].payload, FirstOf(l.files, 3, i));
    }
  }

  lemma {:induction false} ItemsKept(v: Volume, w: Volume, items: seq<Item>, start: nat)
    requires FilesAt(v, items, start) && Agree(v, w, start, start + Total(items))
    ensures FilesAt(w, items, start)
  {
    hide FileAt, Total, Count;
    forall i | 0 <= i < |items| ensures FileAt(w, items[i].payload, FirstOf(items, start, i)) {
      TotalStep(items, i);
      TotalOrder(items, i + 1, |items|);
      FileKept(v, w, items[i].payload, FirstOf(items, start, i));
    }
  }

  lemma FoldersKept(v: Volume, w: Volume, l: Layout, n: nat)
    requires Planned(l) && n <= |l.folders| && FoldersDone(v, l, n)
    requires Agree(v, w, FolderStart(l), FolderStart(l) + n)
    requires Agree(v, w, FolderStart(l) + |l.folders|, ItemsStart(l, n))
    ensures FoldersDone(w, l, n)
  {
    hide FilesAt, Holds, Good, Storable, FolderEntries, Total, FolderTotal;
    forall j | 0 <= j < n ensures FolderAt(w, l, j) {
      assert FolderAt(v, l, j);
      FolderTotalStep(l.folders, j);
      FolderTotalOrder(l.folders, j + 1, n);
      ItemsKept(v, w, l.folders[j].items, ItemsStart(l, j));
    }
  }

  lemma {:induction false} TotalBound(items: seq<Item>)
    requires forall i :: 0 <= i < |items| ==> |items[i].payload| <= 0x100_0000
    ensures Total(items) <= 32_768 * |items|
  {
    if items != [] {
      TotalBound(items[..|items| - 1]);
    }
  }

  lemma {:induction false} FolderTotalBound(folders: seq<Folder>)
    requires GoodFolders(folders)
    ensures FolderTotal(folders) <= 425_984 * |folders|
  {
    hide Canonical, Total;
    if folders != [] {
      FolderTotalBound(folders[..|folders| - 1]);
      TotalBound(folders[|folders| - 1].items);
    }
  }

  /** Inputs past the checks always fit the 32-bit fields. */
  lemma GoodIsPlanned(l: Layout)
    requires Good(l)
    ensures Planned(l)
  {
    hide Canonical, Total, FolderTotal;
    TotalBound(l.files);
    FolderTotalBound(l.folders);
    NamesAreEleven(l.files);
    FolderTotalOrder(l.folders, |l.folders|, |l.folders|);
    forall j | 0 <= j < |l.folders|
      ensures |l.folders[j].name| == 11 && Storable(l.folders[j].items, ItemsStart(l, j))
    {
      CanonicalBytes(l.folders[j].name);
      NamesAreEleven(l.folders[j].items);
      TotalBound(l.folders[j].items);
      FolderTotalOrder(l.folders, j, |l.folders|);
    }
  }

  lemma NamesAreEleven(items: seq<Item>)
    requires GoodItems(items)
    ensures forall i :: 0 <= i < |items| ==> |items[i].name| == 11
  {
    hide Canonical;
    forall i | 0 <= i < |items| ensures |items[i].name| == 11 {
      CanonicalBytes(items[i].name);
    }
  }

  // ---------------------------------------------------------------------------------------------

  class Formatter {
    const image: array<byte>
    var next: nat
    ghost var v: Volume

    ghost predicate Valid()
      reads this, image
    {
      && image.Length == IMAGE_BYTES && Shows(v, image[..])
      && 2 <= next <= MAXIMUM + 1 && FreeFrom(v, next)
    }

    /** Overwrite part of the image. */
    method Put(at: nat, b: seq<byte>)
      requires at + |b| <= image.Length
      modifies image
      ensures image[..] == Overwrite(old(image[..]), at, b)
    {
      forall i | 0 <= i < |b| {
        image[at + i] := b[i];
      }
    }

    /** A zeroed image. */
    constructor ()
      ensures Valid() && fresh(image) && next == 2 && image[..] == Zeros(IMAGE_BYTES)
    {
      image := new byte[IMAGE_BYTES](_ => 0);
      next := 2;
      v := BlankVolume();
      new;
      BlankShows(image[..]);
    }

    /** Boot sector and its backup, the reserved table entries, an empty root and its label. */
    method Prepare(volumeId: nat, volumeLabel: Text)
      requires Valid() && next == 2 && volumeId < 0x1_0000_0000 && |volumeLabel| == 11
      modifies image, this`v, this`next
      ensures Valid() && next == 3
      ensures image[..512] == BootSector(volumeId, volumeLabel) && image[3_072..3_584] == image[..512]
      ensures image[..] == Prepared(old(image[..]), BootSector(volumeId, volumeLabel), LabelEntry(volumeLabel))
      ensures v.fat[0] == MEDIA && v.fat[1] == EOC && v.fat[2] == EOC
      ensures Holds(v.clusters[2], [LabelEntry(volumeLabel)])
    {
      hide Shows, BootSector, Holds, LabelEntry, FatWritten, BytesWritten, Overwrite;
      WriteBoot(BootSector(volumeId, volumeLabel));
      ghost var boot := image[..512];
      VolumeSize(v, image[..]);
      ghost var w := v;
      SetFat(0, MEDIA);
      SetFat(1, EOC);
      SetFat(2, EOC);
      next := 3;
      assert FreeFrom(v, 3) && v.clusters[2] == w.clusters[2] == Zeros(512);
      EmptyHolds();
      HoldsGrows(v.clusters[2], [], LabelEntry(volumeLabel));
      assert [] + [LabelEntry(volumeLabel)] == [LabelEntry(volumeLabel)];
      Write(2, 0, LabelEntry(volumeLabel));
      assert image[..512] == image[..16_384][..512] && image[3_072..3_584] == image[..16_384][3_072..3_584];
    }

    method WriteBoot(boot: seq<byte>)
      requires Valid() && |boot| == 512
      modifies image
      ensures Valid() && image[..512] == boot && image[..16_384][3_072..3_584] == boot
      ensures image[..] == Overwrite(Overwrite(old(image[..]), 0, boot), 3_072, boot)
    {
      hide FatBytes, ClusterData, CopiesMatch;
      HeaderWriteShows(v, image[..], 0, boot);
      Put(0, boot);
      HeaderWriteShows(v, image[..], 3_072, boot);
      Put(3_072, boot);
    }

    /** Take up an existing image of which `v` is the volume. */
    constructor From(source: seq<byte>, ghost v: Volume, next: nat)
      requires Shows(v, source) && 2 <= next <= MAXIMUM + 1 && FreeFrom(v, next)
      ensures Valid() && fresh(image) && image[..] == source && this.v == v && this.next == next
    {
      this.image := new byte[|source|](i requires 0 <= i < |source| => source[i]);
      this.v, this.next := v, next;
      new;
      assert image[..] == source;
    }

    method SetFat(c: nat, value: nat)
      requires Shows(v, image[..]) && image.Length == IMAGE_BYTES && c <= MAXIMUM && value < 0x1000_0000
      modifies image, this`v
      ensures Shows(v, image[..]) && v == WithFat(old(v), c, value)
      ensures image[..] == FatWritten(old(image[..]), c, value) && image[..16_384] == old(image[..16_384])
    {
      FatWriteShows(v, image[..], c, value);
      Put(16_384 + 4 * c, Le32(value));
      Put(532_992 + 4 * c, Le32(value));
      v := WithFat(v, c, value);
      assert image[..] == FatWritten(old(image[..]), c, value);
      assert image[..16_384] == image[..][..16_384] && old(image[..16_384]) == old(image[..])[..16_384];
    }

    method Write(c: nat, at: nat, b: seq<byte>)
      requires Shows(v, image[..]) && image.Length == IMAGE_BYTES && 2 <= c <= MAXIMUM && at + |b| <= 512
      modifies image, this`v
      ensures |old(v).clusters[c]| == 512 && Shows(v, image[..]) && v == WithBytes(old(v), c, at, b)
      ensures image[..] == BytesWritten(old(image[..]), c, at, b)
      ensures image[..16_384] == old(image[..16_384])
    {
      ClusterWriteShows(v, image[..], c, at, b);
      Put(1_048_576 + 512 * c + at, b);
      v := WithBytes(v, c, at, b);
      assert image[..] == BytesWritten(old(image[..]), c, at, b);
      assert image[..16_384] == image[..][..16_384] && old(image[..16_384]) == old(image[..])[..16_384];
    }

    /** Add one entry to the directory in cluster `d`. */
    method AddEntry(d: nat, slot: nat, entry: seq<byte>, ghost entries: seq<seq<byte>>)
      requires Valid() && 2 <= d < next && Holds(v.clusters[d], entries)
      requires slot == |entries| < 16 && |entry| == 32
      modifies image, this`v
      ensures Valid() && AgreeBut(old(v), v, d) && Holds(v.clusters[d], entries + [entry])
      ensures image[..16_384] == old(image[..16_384])
    {
      HoldsGrows(v.clusters[d], entries, entry);
      Write(d, 32 * slot, entry);
    }

    /** Write a payload into the next free clusters, chained in order. */
    method PlaceFile(payload: seq<byte>) returns (first: nat)
      requires Valid() && next + Count(payload) <= MAXIMUM + 1
      modifies image, this`v, this`next
      ensures Valid() && first == old(next) && next == first + Count(payload)
      ensures FileAt(v, payload, first) && Agree(old(v), v, 0, first)
      ensures image[..16_384] == old(image[..16_384])
    {
      hide FatWritten, BytesWritten, Shows;
      var count, k := Count(payload), 0;
      first := next;
      VolumeSize(v, image[..]);
      while k < count
        invariant 0 <= k <= count && image.Length == IMAGE_BYTES && Shows(v, image[..]) && |v.fat| == |v.clusters| == 129_024
        invariant FreeFrom(v, first + k) && Agree(old(v), v, 0, first)
        invariant forall j :: 0 <= j < k ==> BlockAt(v, payload, first, j)
        invariant image[..16_384] == old(image[..16_384])
      {
        ghost var w := v;
        var block := payload[512 * k..if 512 * k + 512 < |payload| then 512 * k + 512 else |payload|];
        SetFat(first + k, if k + 1 < count then first + k + 1 else EOC);
        Write(first + k, 0, block);
        assert Overwrite(Zeros(512), 0, block) == Block(payload, k);
        BlockPlaced(w, v, payload, first, k, block);
        k := k + 1;
      }
      next := first + count;
    }

    /** Record the free count and the allocator's position in both information sectors. */
    method Finish()
      requires Valid()
      modifies image
      ensures Valid() && image[..] == Finished(old(image[..]), next)
      ensures image[..512] == old(image[..512]) && image[512..1_024] == FsInfoFor(next)
      ensures image[3_072..3_584] == old(image[3_072..3_584]) && image[3_584..4_096] == image[512..1_024]
    {
      hide FatBytes, ClusterData, CopiesMatch, FsInfoFor, Overwrite;
      var info := FsInfoFor(next);
      HeaderWriteShows(v, image[..], 512, info);
      Put(512, info);
      HeaderWriteShows(v, image[..], 3_584, info);
      Put(3_584, info);
      FinishedSlices(old(image[..]), next);
      ghost var now := image[..];
      assert image[..512] == now[..512] && image[512..1_024] == now[512..1_024];
      assert image[3_072..3_584] == now[3_072..3_584] && image[3_584..4_096] == now[3_584..4_096];
      assert old(image[..512]) == old(image[..])[..512] && old(image[3_072..3_584]) == old(image[..])[3_072..3_584];
    }

    /** How far a layout has been written: files placed, folders reserved, folders listed in the
        root, folders filled. */
    ghost predicate Stage(l: Layout, files: nat, reserved: nat, listed: nat, filled: nat)
      reads this, image
    {
      && Valid() && Planned(l) && files <= |l.files| && listed <= |l.folders| && filled <= reserved <= |l.folders|
      && (0 < reserved + listed ==> files == |l.files|) && (0 < filled ==> reserved == |l.folders|)
      && next == Position(l, files, reserved, filled)
      && FilesDone(v, l, files) && RootListed(v, l, 1 + files + listed)
      && Reserved(v, l, filled, reserved) && FoldersDone(v, l, filled)
    }

    /** Place file `i` and list it in the root. */
    method AddFile(l: Layout, i: nat) returns (ok: bool)
      requires i < |l.files| && Stage(l, i, 0, 0, 0)
      modifies image, this`v, this`next
      ensures ok <==> old(next) + Count(l.files[i].payload) <= MAXIMUM + 1
      ensures ok ==> Stage(l, i + 1, 0, 0, 0)
      ensures image[..16_384] == old(image[..16_384])
    {
      hide Shows, Good, Storable, FoldersStorable, FileAt, Holds, Total, FolderTotal, Count, RootEntries, FreeFrom;
      var item := l.files[i];
      if next + Count(item.payload) > MAXIMUM + 1 {
        return false;
      }
      ghost var w := v;
      PositionStep(l, i);
      FileEntryIs(l, i);
      ItemEntryIs(l.files, 3, i);
      var first := PlaceFile(item.payload);
      FilesKept(w, v, l, i);
      ghost var placed := v;
      AddEntry(2, 1 + i, Entry(item.name, item.attributes, first, |item.payload|), RootEntries(l)[..1 + i]);
      RootDoesNotMatter(placed, v, 3, FirstOf(l.files, 3, i + 1));
      FilesKept(w, placed, l, i);
      FileKept(placed, v, item.payload, first);
      FilesKept(placed, v, l, i);
      return true;
    }

    /** Reserve the one-cluster directory of folder `j`. */
    method Reserve(l: Layout, j: nat, ghost listed: nat) returns (ok: bool)
      requires j < |l.folders| && Stage(l, |l.files|, j, listed, 0)
      modifies image, this`v, this`next
      ensures ok <==> old(next) <= MAXIMUM
      ensures ok ==> Stage(l, |l.files|, j + 1, listed, 0)
      ensures image[..16_384] == old(image[..16_384])
    {
      hide Shows, Good, Storable, FoldersStorable, FileAt, Holds, Total, FolderTotal, Count, RootEntries;
      if next > MAXIMUM {
        return false;
      }
      ghost var w := v;
      PositionReserve(l, j);
      VolumeSize(v, image[..]);
      SetFat(next, EOC);
      assert Agree(w, v, 0, next);
      FilesKept(w, v, l, |l.files|);
      forall m | 0 <= m < j + 1 ensures IsReserved(v, l, m) {
        if m < j {
          assert IsReserved(w, l, m);
        }
      }
      next := next + 1;
      assert FreeFrom(v, next) && RootListed(v, l, 1 + |l.files| + listed);
      return true;
    }

    /** List folder `j` in the root. */
    method ListFolder(l: Layout, j: nat, ghost reserved: nat, ghost filled: nat)
      requires j < reserved && Stage(l, |l.files|, reserved, j, filled)
      modifies image, this`v
      ensures Stage(l, |l.files|, reserved, j + 1, filled)
      ensures image[..16_384] == old(image[..16_384])
    {
      hide Shows, Good, Storable, FoldersStorable, FileAt, Holds, Total, FolderTotal, Count, RootEntries, FolderAt, FreeFrom;
      ghost var w := v;
      FolderEntryIs(l, j);
      PositionAfterRoot(l, reserved, filled);
      AddEntry(2, 1 + |l.files| + j, Entry(l.folders[j].name, 0x10, FolderStart(l) + j, 0),
               RootEntries(l)[..1 + |l.files| + j]);
      RootDoesNotMatter(w, v, 3, MAXIMUM + 1);
      FilesKept(w, v, l, |l.files|);
      FoldersKept(w, v, l, filled);
      forall m | filled <= m < reserved ensures IsReserved(v, l, m) {
        assert IsReserved(w, l, m);
      }
    }

    /** Write the dot entries of folder `j`, then place and list its items. */
    method FillFolder(l: Layout, j: nat, ghost listed: nat) returns (ok: bool)
      requires j < |l.folders| && Stage(l, |l.files|, |l.folders|, listed, j)
      modifies image, this`v, this`next
      ensures ok <==> old(next) + Total(l.folders[j].items) <= MAXIMUM + 1
      ensures ok ==> Stage(l, |l.files|, |l.folders|, listed, j + 1)
      ensures image[..16_384] == old(image[..16_384])
    {
      hide Shows, Good, Storable, FileAt, Holds, Total, FolderTotal, Count, RootEntries, FolderEntries, FreeFrom;
      var d, items := FolderStart(l) + j, l.folders[j].items;
      ghost var start, w := ItemsStart(l, j), v;
      FolderShape(l, j);
      assert IsReserved(v, l, j);
      EmptyHolds();
      VolumeSize(v, image[..]);
      AddEntry(d, 0, Entry(DOT, 0x10, d, 0), []);
      assert [] + [Entry(DOT, 0x10, d, 0)] == [Entry(DOT, 0x10, d, 0)];
      AddEntry(d, 1, Entry(DOTDOT, 0x10, ROOT, 0), [Entry(DOT, 0x10, d, 0)]);
      assert [Entry(DOT, 0x10, d, 0)] + [Entry(DOTDOT, 0x10, ROOT, 0)] == FolderEntries(l, j)[..2];
      var i := 0;
      while i < |items|
        invariant 0 <= i <= |items| && Valid() && next == FirstOf(items, start, i)
        invariant Elsewhere(w, v, d, start) && v.fat[d] == EOC
        invariant Holds(v.clusters[d], FolderEntries(l, j)[..2 + i])
        invariant forall k :: 0 <= k < i ==> FileAt(v, items[k].payload, FirstOf(items, start, k))
        invariant image[..16_384] == old(image[..16_384])
      {
        var item := items[i];
        TotalStep(items, i);
        TotalOrder(items, i + 1, |items|);
        if next + Count(item.payload) > MAXIMUM + 1 {
          return false;
        }
        ghost var before := v;
        InnerEntryIs(l, j, i);
        ItemEntryIs(items, start, i);
        var first := PlaceFile(item.payload);
        ghost var placed := v;
        AddEntry(d, 2 + i, Entry(item.name, item.attributes, first, |item.payload|), FolderEntries(l, j)[..2 + i]);
        ItemsGrow(before, placed, v, d, items, start, i);
        i := i + 1;
      }
      TotalOrder(items, i, |items|);
      assert FolderEntries(l, j)[..2 + i] == FolderEntries(l, j);
      FolderFilled(w, v, l, j, listed);
      return true;
    }
  }

  /** Outside the folder cluster `d` and the clusters from `start` on, nothing has changed. */
  ghost predicate Elsewhere(v: Volume, w: Volume, d: nat, start: nat) {
    && |v.fat| == |w.fat| && |v.clusters| == |w.clusters| == |v.fat|
    && forall c :: 0 <= c < start && c < |v.fat| && c != d ==> w.fat[c] == v.fat[c] && w.clusters[c] == v.clusters[c]
  }

  /** Placing item `i` and then listing it keeps the earlier items. */
  lemma ItemsGrow(
    before: Volume, placed: Volume, after: Volume, d: nat, items: seq<Item>, start: nat, i: nat)
    requires i < |items| && d < start
    requires forall k :: 0 <= k < i ==> FileAt(before, items[k].payload, FirstOf(items, start, k))
    requires FileAt(placed, items[i].payload, FirstOf(items, start, i))
    requires Agree(before, placed, 0, FirstOf(items, start, i)) && AgreeBut(placed, after, d)
    ensures forall k :: 0 <= k < i + 1 ==> FileAt(after, items[k].payload, FirstOf(items, start, k))
  {
    hide FileAt, Total, Count;
    forall k | 0 <= k < i + 1 ensures FileAt(after, items[k].payload, FirstOf(items, start, k)) {
      if k < i {
        TotalStep(items, k);
        TotalOrder(items, k + 1, i);
        FileKept(before, placed, items[k].payload, FirstOf(items, start, k));
      }
      FileKept(placed, after, items[k].payload, FirstOf(items, start, k));
    }
  }

  lemma InnerEntryIs(l: Layout, j: nat, i: nat)
    requires Planned(l) && j < |l.folders| && i < |l.folders[j].items|
    ensures |l.folders[j].items| <= 13 && Storable(l.folders[j].items, ItemsStart(l, j))
    ensures FolderEntries(l, j)[..2 + i + 1] ==
            FolderEntries(l, j)[..2 + i] + [ItemEntry(l.folders[j].items, ItemsStart(l, j), i)]
  {
    hide Entry, Canonical, Total, FolderTotal;
    assert FolderEntries(l, j)[2 + i] == ItemEntry(l.folders[j].items, ItemsStart(l, j), i);
  }

  lemma FolderShape(l: Layout, j: nat)
    requires Planned(l) && j < |l.folders|
    ensures 3 <= FolderStart(l) + j < FolderStart(l) + |l.folders| <= ItemsStart(l, j) == Position(l, |l.files|, |l.folders|, j)
    ensures ItemsStart(l, j + 1) == ItemsStart(l, j) + Total(l.folders[j].items)
    ensures FirstOf(l.folders[j].items, ItemsStart(l, j), 0) == ItemsStart(l, j)
    ensures FolderStart(l) + j < 0x1_0000_0000 && |l.folders[j].items| <= 13
    ensures FolderEntries(l, j)[..2] == [Entry(DOT, 0x10, FolderStart(l) + j, 0), Entry(DOTDOT, 0x10, ROOT, 0)]
  {
    hide Entry, Canonical, Total, FolderTotal;
    FolderTotalStep(l.folders, j);
    FirstIsStart(l.folders[j].items, ItemsStart(l, j));
  }

  lemma FolderFilled(w: Volume, v: Volume, l: Layout, j: nat, listed: nat)
    requires Planned(l) && j < |l.folders| && listed <= |l.folders| && |w.fat| == |w.clusters|
    requires FolderStart(l) + |l.folders| <= |v.fat| && v.fat[FolderStart(l) + j] == EOC
    requires Elsewhere(w, v, FolderStart(l) + j, ItemsStart(l, j))
    requires FilesDone(w, l, |l.files|) && RootListed(w, l, 1 + |l.files| + listed)
    requires Reserved(w, l, j, |l.folders|) && FoldersDone(w, l, j)
    requires Holds(v.clusters[FolderStart(l) + j], FolderEntries(l, j))
    requires FilesAt(v, l.folders[j].items, ItemsStart(l, j))
    ensures FilesDone(v, l, |l.files|) && RootListed(v, l, 1 + |l.files| + listed)
    ensures Reserved(v, l, j + 1, |l.folders|) && FoldersDone(v, l, j + 1)
  {
    hide Good, Storable, FileAt, Holds, Total, FolderTotal, Count, RootEntries, FolderEntries, FilesAt;
    FolderShape(l, j);
    TotalOrder(l.files, |l.files|, |l.files|);
    FilesKept(w, v, l, |l.files|);
    FoldersKept(w, v, l, j);
    assert FolderAt(v, l, j);
    forall m | j + 1 <= m < |l.folders| ensures IsReserved(v, l, m) {
      assert IsReserved(w, l, m);
    }
  }

  /** The image after the fixed structures have been written over `s`. */
  function Prepared(s: seq<byte>, boot: seq<byte>, entry: seq<byte>): (r: seq<byte>)
    requires |s| == IMAGE_BYTES && |boot| == 512 && |entry| == 32
    ensures |r| == IMAGE_BYTES
  {
    var headed := Overwrite(Overwrite(s, 0, boot), 3_072, boot);
    BytesWritten(FatWritten(FatWritten(FatWritten(headed, 0, MEDIA), 1, EOC), 2, EOC), 2, 0, entry)
  }

  function FsInfoFor(next: nat): (r: seq<byte>)
    requires 2 <= next <= MAXIMUM + 1
    ensures |r| == 512
  {
    FsInfoSector(CLUSTER_COUNT - (next - 2), if next <= MAXIMUM then next else UNKNOWN)
  }

  function Finished(s: seq<byte>, next: nat): (r: seq<byte>)
    requires |s| == IMAGE_BYTES && 2 <= next <= MAXIMUM + 1
    ensures |r| == IMAGE_BYTES
  {
    Overwrite(Overwrite(s, 512, FsInfoFor(next)), 3_584, FsInfoFor(next))
  }

  lemma FinishedSlices(s: seq<byte>, next: nat)
    requires |s| == IMAGE_BYTES && 2 <= next <= MAXIMUM + 1
    ensures
      var r := Finished(s, next);
      && r[..512] == s[..512] && r[512..1_024] == FsInfoFor(next)
      && r[3_072..3_584] == s[3_072..3_584] && r[3_584..4_096] == FsInfoFor(next)
  {
    hide FsInfoFor, Overwrite;
  }

  /** Where the allocator stands at each stage. */
  function Position(l: Layout, files: nat, reserved: nat, filled: nat): (c: nat)
    requires files <= |l.files| && reserved <= |l.folders| && filled <= |l.folders|
  {
    if files < |l.files| then FirstOf(l.files, 3, files)
    else if reserved < |l.folders| then FolderStart(l) + reserved
    else ItemsStart(l, filled)
  }

  lemma PositionStep(l: Layout, i: nat)
    requires i < |l.files|
    ensures Position(l, i, 0, 0) == FirstOf(l.files, 3, i) >= 3
    ensures Position(l, i + 1, 0, 0) == FirstOf(l.files, 3, i) + Count(l.files[i].payload) == FirstOf(l.files, 3, i + 1)
  {
    hide Total, Count;
    TotalStep(l.files, i);
    TotalOrder(l.files, i + 1, |l.files|);
    assert l.folders[..0] == [];
  }

  lemma PositionReserve(l: Layout, j: nat)
    requires j < |l.folders|
    ensures Position(l, |l.files|, j, 0) == FolderStart(l) + j == FirstOf(l.files, 3, |l.files|) + j
    ensures Position(l, |l.files|, j + 1, 0) == FolderStart(l) + j + 1
  {
    TotalOrder(l.files, |l.files|, |l.files|);
    assert l.folders[..0] == [];
  }

  lemma PositionAfterRoot(l: Layout, reserved: nat, filled: nat)
    requires filled <= reserved <= |l.folders| && (0 < filled ==> reserved == |l.folders|)
    ensures 3 <= FirstOf(l.files, 3, |l.files|) == FolderStart(l) <= Position(l, |l.files|, reserved, filled)
  {
    TotalOrder(l.files, |l.files|, |l.files|);
  }

  lemma FileEntryIs(l: Layout, i: nat)
    requires Planned(l) && i < |l.files|
    ensures RootEntries(l)[..1 + i + 1] == RootEntries(l)[..1 + i] + [ItemEntry(l.files, 3, i)]
  {
    hide Entry, Good, Total, FolderTotal, FoldersStorable;
    assert RootEntries(l)[1 + i] == ItemEntry(l.files, 3, i);
  }

  lemma ItemEntryIs(items: seq<Item>, start: nat, i: nat)
    requires Storable(items, start) && i < |items|
    ensures |items[i].name| == 11 && FirstOf(items, start, i) < 0x1_0000_0000 && |items[i].payload| < 0x1_0000_0000
    ensures ItemEntry(items, start, i)
         == Entry(items[i].name, items[i].attributes, FirstOf(items, start, i), |items[i].payload|)
  {
    hide Entry, Total;
    TotalOrder(items, i, |items|);
  }

  lemma FolderEntryIs(l: Layout, j: nat)
    requires Planned(l) && j < |l.folders|
    ensures |l.folders[j].name| == 11 && FolderStart(l) + j < 0x1_0000_0000
    ensures RootEntries(l)[..1 + |l.files| + j + 1] ==
            RootEntries(l)[..1 + |l.files| + j] + [Entry(l.folders[j].name, 0x10, FolderStart(l) + j, 0)]
  {
    hide Entry, Good, Total, FolderTotal;
    assert RootEntries(l)[1 + |l.files| + j] == Entry(l.folders[j].name, 0x10, FolderStart(l) + j, 0);
  }

  lemma RootDoesNotMatter(v: Volume, w: Volume, lo: nat, hi: nat)
    requires AgreeBut(v, w, 2) && 3 <= lo
    ensures Agree(v, w, lo, hi)
  {
  }

  lemma BlockPlaced(w: Volume, v: Volume, payload: seq<byte>, first: nat, k: nat, block: seq<byte>)
    requires |w.fat| == |w.clusters| && first + k < |w.fat| && k < Count(payload) && |block| <= 512
    requires FreeFrom(w, first + k) && Overwrite(Zeros(512), 0, block) == Block(payload, k)
    requires v == WithBytes(WithFat(w, first + k, if k + 1 < Count(payload) then first + k + 1 else EOC), first + k, 0, block)
    requires forall j :: 0 <= j < k ==> BlockAt(w, payload, first, j)
    ensures FreeFrom(v, first + k + 1) && Agree(w, v, 0, first + k)
    ensures forall j :: 0 <= j < k + 1 ==> BlockAt(v, payload, first, j)
  {
    hide Overwrite, Block, Count;
    forall j | 0 <= j < k + 1 ensures BlockAt(v, payload, first, j) {
      if j < k {
        assert BlockAt(w, payload, first, j);
      }
    }
  }

  ghost function BlankVolume(): (v: Volume) {
    Volume(seq(129_024, _ => 0), 512, 1_049_600, seq(129_024, c => if c < 2 then [] else Zeros(512)))
  }

  lemma BlankShows(s: seq<byte>)
    requires |s| == IMAGE_BYTES && forall i :: 0 <= i < |s| ==> s[i] == 0
    ensures Shows(BlankVolume(), s) && FreeFrom(BlankVolume(), 2)
  {
    var v := BlankVolume();
    forall c: nat | 2 <= c <= MAXIMUM ensures ClusterData(v, s, c) {
      assert v.clusters[c] == Zeros(512);
      assert forall k :: 0 <= k < 512 ==> v.clusters[c][k] == 0;
    }
  }

  lemma VolumeSize(v: Volume, s: seq<byte>)
    requires Shows(v, s)
    ensures |v.fat| == |v.clusters| == 129_024
  {
  }
}
