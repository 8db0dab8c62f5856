/** Exactly which images the inspector accepts, from the bytes up. */
module FatImageExact {
  import opened Bytes
  import opened ShortNames
  import opened FatGeometry
  import opened FatDirectory
  import opened FatOwnership
  import opened FatInspector
  import FatTree
  import opened FatExact

  // ---------------------------------------------------------------------------------------------
  // The boot sector

  /** The boot sector's fields are those of `g`. */
  ghost predicate BootSays(image: seq<byte>, g: Geometry) {
    && 512 <= |image| && image[510] == 0x55 && image[511] == 0xAA
    && U16(image, 11) == g.bytesPerSector && image[13] == g.sectorsPerCluster && U16(image, 14) == g.reserved
    && image[16] == g.fatCopies && U16(image, 17) == 0 && U16(image, 19) == 0 && U16(image, 22) == 0
    && U32(image, 32) == g.total && U32(image, 36) == g.fatSectors && U32(image, 44) == g.rootCluster
    && U16(image, 48) == g.fsinfoSector && U16(image, 50) == g.backupBoot && U32(image, 67) == g.volumeId
    && (forall i :: 71 <= i < 82 ==> 0x20 <= image[i] <= 0x7E) && g.volumeLabel == Rstrip(image[71..82])
  }

  /** A FAT32 geometry whose parts fit together and fill `length` bytes. */
  ghost predicate GeometryOk(g: Geometry, length: nat) {
    && g.bytesPerSector in {512, 1024, 2048, 4096} && g.sectorsPerCluster in {1, 2, 4, 8, 16, 32, 64, 128}
    && 2 <= g.reserved && g.fatCopies == 2 && 1 <= g.fatSectors
    && g.firstFat == g.reserved && g.firstData == g.reserved + 2 * g.fatSectors
    && g.clusterCount * g.sectorsPerCluster <= g.total - g.firstData < g.clusterCount * g.sectorsPerCluster + g.sectorsPerCluster
    && 65_525 <= g.clusterCount <= 268_435_438 && g.maximum == g.clusterCount + 1
    && 4 * (g.maximum + 1) <= g.fatSectors * g.bytesPerSector
    && 2 <= g.rootCluster <= g.maximum && 1 <= g.fsinfoSector < g.reserved && 1 <= g.backupBoot < g.reserved
    && g.backupBoot != g.fsinfoSector && length == g.total * g.bytesPerSector
  }

  /** Dividing by four keeps a strict bound. */
  lemma QuarterIff(n: nat, m: nat)
    ensures n / 4 > m <==> 4 * (m + 1) <= n
  {
  }

  /** The boot sector is accepted with a geometry if and only if it says so and the geometry holds
      together. */
  lemma ParseGeometryIsExact(image: seq<byte>, g: Geometry)
    ensures ParseGeometry(image) == Ok(g) <==> BootSays(image, g) && GeometryOk(g, |image|)
  {
    hide U16, U32, Rstrip;
    if ParseGeometry(image) == Ok(g) {
      QuotientIff(g.total - g.firstData, g.sectorsPerCluster, g.clusterCount);
      QuarterIff(g.fatSectors * g.bytesPerSector, g.maximum);
      LabelIff(image[71..82]);
      assert forall i :: 71 <= i < 82 ==> image[71..82][i - 71] == image[i];
    }
    if BootSays(image, g) && GeometryOk(g, |image|) {
      BootIsParsed(image, g);
    }
  }

  lemma LabelIff(s: Text)
    ensures IsLabel(s) <==> forall i :: 0 <= i < |s| ==> 0x20 <= s[i] <= 0x7E
  {
  }

  lemma BootIsParsed(image: seq<byte>, g: Geometry)
    requires BootSays(image, g) && GeometryOk(g, |image|)
    ensures ParseGeometry(image) == Ok(g)
  {
    hide U16, U32, Rstrip, CheckedMul, IsLabel;
    assert IsLabel(image[71..82]) by {
      LabelIff(image[71..82]);
    }
    DataRegion(g, |image|);
    CheckedMulIsExact(2, g.fatSectors);
    CheckedMulIsExact(g.fatSectors, g.bytesPerSector);
    CheckedMulIsExact(g.total, g.bytesPerSector);
  }

  /** The quotients of the data region and of the table. */
  lemma DataRegion(g: Geometry, length: nat)
    requires GeometryOk(g, length)
    ensures g.firstData < g.total && (g.total - g.firstData) / g.sectorsPerCluster == g.clusterCount
    ensures g.fatSectors * g.bytesPerSector / 4 > g.maximum
  {
    MulOrder(1, g.clusterCount, g.sectorsPerCluster);
    QuotientIff(g.total - g.firstData, g.sectorsPerCluster, g.clusterCount);
    QuarterIff(g.fatSectors * g.bytesPerSector, g.maximum);
  }

  // ---------------------------------------------------------------------------------------------
  // The FAT copies

  /** Byte `k` behind `a` is there, and equals byte `k` behind `b`. */
  predicate SameByte(image: seq<byte>, a: int, b: int, k: nat) {
    0 <= a + k < |image| && 0 <= b + k < |image| && image[a + k] == image[b + k]
  }

  lemma SlicesAreEqualIff(image: seq<byte>, a: nat, b: nat, n: nat)
    requires a + n <= |image| && b + n <= |image|
    ensures image[a..a + n] == image[b..b + n] <==> forall k: nat :: k < n ==> SameByte(image, a, b, k)
  {
    var s, t := image[a..a + n], image[b..b + n];
    assert forall k :: 0 <= k < n ==> s[k] == image[a + k] && t[k] == image[b + k];
    if s == t {
      forall k: nat | k < n ensures SameByte(image, a, b, k) {
        assert s[k] == t[k];
      }
    }
    if forall k: nat :: k < n ==> SameByte(image, a, b, k) {
      forall k | 0 <= k < n ensures s[k] == t[k] {
        assert SameByte(image, a, b, k);
      }
    }
  }

  /** The copies match if and only if they agree byte by byte. */
  lemma FatsMatchIff(image: seq<byte>, g: Geometry)
    requires Fits(g, |image|)
    ensures FatsMatch(image, g) <==>
      forall k: nat :: k < g.fatSectors * g.bytesPerSector ==> SameByte(image, FatOffset(g, 0), FatOffset(g, 1), k)
  {
    hide SameByte, Fits;
    FatSpan(g, |image|, 0);
    FatSpan(g, |image|, 1);
    var n, a, b := g.fatSectors * g.bytesPerSector, g.firstFat * g.bytesPerSector, (g.firstFat + g.fatSectors) * g.bytesPerSector;
    SlicesAreEqualIff(image, a, b, n);
  }

  // ---------------------------------------------------------------------------------------------
  // The information sector

  /** The information sector is signed, and its hints are unknown or in range. */
  ghost predicate InfoSays(image: seq<byte>, g: Geometry, free: nat, next: nat) {
    var at := g.fsinfoSector * g.bytesPerSector;
    && at + 512 <= |image| && U32(image, at) == 0x4161_5252 && U32(image, at + 484) == 0x6141_7272
    && U32(image, at + 508) == 0xAA55_0000 && U32(image, at + 488) == free && U32(image, at + 492) == next
    && (free == 0xFFFF_FFFF || free <= g.clusterCount) && (next == 0xFFFF_FFFF || 2 <= next <= g.maximum)
  }

  lemma U32Within(image: seq<byte>, lo: nat, hi: nat, o: nat)
    requires lo <= hi <= |image| && o + 4 <= hi - lo
    ensures U32(image[lo..hi], o) == U32(image, lo + o)
  {
  }

  lemma ParseFsInfoIff(image: seq<byte>, g: Geometry, free: nat, next: nat)
    requires Fits(g, |image|)
    ensures ParseFsInfo(image, g) == Ok(FsInfo(free, next)) <==> InfoSays(image, g, free, next)
  {
    hide U32, Fits;
    FsInfoSectorExists(g, |image|);
    var at := g.fsinfoSector * g.bytesPerSector;
    SectorSpan(g, |image|, g.fsinfoSector, 1);
    var info := SectorAt(image, g, g.fsinfoSector);
    assert info == image[at..at + g.bytesPerSector];
    U32Within(image, at, at + g.bytesPerSector, 0);
    U32Within(image, at, at + g.bytesPerSector, 484);
    U32Within(image, at, at + g.bytesPerSector, 488);
    U32Within(image, at, at + g.bytesPerSector, 492);
    U32Within(image, at, at + g.bytesPerSector, 508);
  }

  // ---------------------------------------------------------------------------------------------
  // The whole image

  /** Everything the inspector asks of an image with geometry `g`. */
  ghost predicate ImageOk(image: seq<byte>, g: Geometry)
    requires Fits(g, |image|)
  {
    ViewRepresents(image, g);
    var v := View(image, g);
    && (forall k: nat :: k < g.fatSectors * g.bytesPerSector ==> SameByte(image, FatOffset(g, 0), FatOffset(g, 1), k))
    && v.fat[0] == 0x0FFF_FFF8 && 0x0FFF_FFF8 <= v.fat[1] <= 0x0FFF_FFFF
    && WellFormed(v, g.rootCluster)
    && exists free, next :: InfoSays(image, g, free, next) && (free == 0xFFFF_FFFF || free == g.clusterCount - |Allocated(v)|)
  }

  lemma EntriesAreSmall(image: seq<byte>, g: Geometry)
    requires Fits(g, |image|)
    ensures Valid(View(image, g)) && |View(image, g).fat| > 2 && View(image, g).fat[1] <= 0x0FFF_FFFF
  {
    ViewRepresents(image, g);
    FatLookups(image, g, 0, 1);
    assert View(image, g).fat[1] == FatAt(image, g, 1);
  }

  /** An image is accepted if and only if its boot sector describes a geometry that holds together, its
      FAT copies agree byte for byte, its reserved entries and information sector are in order, its tree
      is well formed, and any known free count is right. */
  lemma InspectedIff(image: seq<byte>)
    ensures Inspected(image).Some? <==>
      exists g :: BootSays(image, g) && GeometryOk(g, |image|) && Fits(g, |image|) && ImageOk(image, g)
  {
    hide BootSays, GeometryOk, ParseGeometry, Fits, ImageOk, Inspected;
    if ParseGeometry(image).Ok? {
      var g := ParseGeometry(image).value;
      ParseGeometryIsExact(image, g);
      AcceptedGeometryFits(image);
      InspectedWithIff(image, g);
      InspectedIs(image, g);
    }
    if g :| BootSays(image, g) && GeometryOk(g, |image|) && Fits(g, |image|) && ImageOk(image, g) {
      ParseGeometryIsExact(image, g);
    }
    if ParseGeometry(image).Err? {
      NotInspected(image);
    }
  }

  lemma NotInspected(image: seq<byte>)
    requires ParseGeometry(image).Err?
    ensures Inspected(image).None?
  {
  }

  lemma InspectedIs(image: seq<byte>, g: Geometry)
    requires ParseGeometry(image) == Ok(g) && Fits(g, |image|)
    ensures Inspected(image) == InspectedWith(image, g)
  {
    hide ParseGeometry, InspectedWith;
  }

  lemma InspectedWithIff(image: seq<byte>, g: Geometry)
    requires Fits(g, |image|)
    ensures InspectedWith(image, g).Some? <==> ImageOk(image, g)
  {
    hide FatsMatch, ParseFsInfo, InfoSays, WellFormed, Accepts, SameByte, View, Fits, Allocated;
    var v := View(image, g);
    ViewRepresents(image, g);
    EntriesAreSmall(image, g);
    FatsMatchIff(image, g);
    AcceptsIff(v, g.rootCluster);
    var info := ParseFsInfo(image, g);
    if info.Ok? {
      ParseFsInfoIff(image, g, info.value.freeHint, info.value.nextHint);
    }
    if free: nat, next: nat :| InfoSays(image, g, free, next) && (free == 0xFFFF_FFFF || free == g.clusterCount - |Allocated(v)|) {
      ParseFsInfoIff(image, g, free, next);
    }
  }

  /** One byte that differs between the FAT copies is enough for a refusal. */
  lemma DifferentCopiesAreRefused(image: seq<byte>, g: Geometry, k: nat)
    requires ParseGeometry(image) == Ok(g) && Fits(g, |image|)
    requires k < g.fatSectors * g.bytesPerSector && !SameByte(image, FatOffset(g, 0), FatOffset(g, 1), k)
    ensures Inspected(image).None?
  {
    hide ParseGeometry, Fits, Inspected, SameByte, WellFormed, InfoSays, View;
    InspectedIs(image, g);
    InspectedWithIff(image, g);
  }

  /** The report of an accepted image: its geometry, what is free and used, and exactly the entries of
      the reached directories. */
  lemma ReportIs(image: seq<byte>, r: Record)
    requires Inspected(image).Some?
    ensures
      var report := Inspected(image).value;
      && ParseGeometry(image) == Ok(report.geometry) && Fits(report.geometry, |image|)
      && Valid(View(image, report.geometry)) && report.used == |Allocated(View(image, report.geometry))|
      && report.free == report.geometry.clusterCount - report.used
      && (r in report.records <==>
            exists d :: Reached(View(image, report.geometry), report.geometry.rootCluster, d)
                     && FatTree.Lists(View(image, report.geometry), d, r))
  {
    hide ParseGeometry, Fits, View, Allocated, Reached, FatTree.Lists, Tree, Accepts, ParseFsInfo, FatsMatch;
    AcceptedGeometryFits(image);
    var g := ParseGeometry(image).value;
    ViewRepresents(image, g);
    ReportedIff(View(image, g), g.rootCluster, r);
  }
}
