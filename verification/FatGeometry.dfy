/** Boot-sector geometry and every address computed from it. */
module FatGeometry {
  import opened Bytes
  import opened ShortNames
  import FatChain

  const SECTOR_BYTES := 512
  const ENTRY_BYTES := 32
  const MIN_CLUSTERS := 65_525
  const UNKNOWN := 0xFFFF_FFFF
  const LIMIT := 0xFFFF_FFFF_FFFF_FFFF

  datatype FatError =
    | TruncatedBoot | BootSignature | SectorSize | ClusterSize | ReservedGeometry | LegacySizes
    | Overflow | MetadataTooLarge | NotFat32 | FatTooShort | RootCluster | FsInfoPlacement
    | BackupPlacement | ImageLength | LabelBytes
    | OutsideData | EscapedVolume | OutsideVolume | FsInfoSignature | FsInfoHint
    | FatCopyIndex | FatClusterIndex | FatEscaped | FatCopiesDiffer | MediaEntry | ReservedEntry
    | ChainOutOfRange | ChainCyclic | ChainTooLong | ChainBad | ChainFree
    | DirectoryCycle | CrossLinkedDirectory | LongNameMalformed | LongNameText | LongNameUnsupported
    | NameInvalid | NoEndMarker | DuplicateName | DirectoryWithoutCluster | SizeMismatch | CrossLinked
    | Leaked | FreeCountWrong

  datatype Geometry = Geometry(
    bytesPerSector: nat, sectorsPerCluster: nat, reserved: nat, fatCopies: nat, total: nat,
    fatSectors: nat, rootCluster: nat, fsinfoSector: nat, backupBoot: nat,
    firstFat: nat, firstData: nat, clusterCount: nat, maximum: nat, volumeId: nat, volumeLabel: Text)

  function CheckedAdd(left: int, right: int): (r: Result<int, FatError>) {
    if left < 0 || right < 0 || left > LIMIT - right then Err(Overflow) else Ok(left + right)
  }

  function CheckedMul(left: int, right: int): (r: Result<int, FatError>) {
    if left < 0 || right < 0 || (left != 0 && right > LIMIT / left) then Err(Overflow) else Ok(left * right)
  }

  /** The accepted cluster sizes: the test `n & (n - 1) == 0` over 1..128. */
  predicate IsClusterSize(n: byte) {
    n in {1, 2, 4, 8, 16, 32, 64, 128}
  }

  lemma ClusterSizeIsBitTest(n: bv8)
    requires 1 <= n <= 128
    ensures IsClusterSize(n as int) <==> n & (n - 1) == 0
  {
    assert n & (n - 1) == 0 <==> n in {1, 2, 4, 8, 16, 32, 64, 128};
  }

  predicate IsLabel(text: Text) {
    forall i :: 0 <= i < |text| ==> 0x20 <= text[i] <= 0x7E
  }

  function ParseGeometry(image: seq<byte>): (r: Result<Geometry, FatError>)
  {
    if |image| < SECTOR_BYTES then Err(TruncatedBoot)
    else if image[510] != 0x55 || image[511] != 0xAA then Err(BootSignature)
    else
      var bps, spc, reserved, fats := U16(image, 11), image[13], U16(image, 14), image[16];
      var total, fatSectors, root := U32(image, 32), U32(image, 36), U32(image, 44);
      var fsinfo, backup := U16(image, 48), U16(image, 50);
      if bps !in {512, 1024, 2048, 4096} then Err(SectorSize)
      else if !IsClusterSize(spc) then Err(ClusterSize)
      else if reserved < 2 || fats != 2 || U16(image, 17) != 0 then Err(ReservedGeometry)
      else if U16(image, 19) != 0 || total == 0 || U16(image, 22) != 0 || fatSectors == 0 then Err(LegacySizes)
      else
        var fatSpan := CheckedMul(fats, fatSectors);
        if fatSpan.Err? then Err(fatSpan.error) else
        var firstData := CheckedAdd(reserved, fatSpan.value);
        if firstData.Err? then Err(firstData.error)
        else if firstData.value >= total then Err(MetadataTooLarge)
        else
          var clusterCount := (total - firstData.value) / spc;
          if clusterCount < MIN_CLUSTERS || clusterCount > FatChain.MAX_CLUSTER - 1 then Err(NotFat32) else
          var maximum := CheckedAdd(clusterCount, 1);
          if maximum.Err? then Err(maximum.error) else
          var fatBytes := CheckedMul(fatSectors, bps);
          if fatBytes.Err? then Err(fatBytes.error)
          else if fatBytes.value / 4 <= maximum.value then Err(FatTooShort)
          else if root < 2 || root > maximum.value then Err(RootCluster)
          else if fsinfo == 0 || fsinfo >= reserved then Err(FsInfoPlacement)
          else if backup == 0 || backup >= reserved || backup == fsinfo then Err(BackupPlacement)
          else
            var imageBytes := CheckedMul(total, bps);
            if imageBytes.Err? then Err(imageBytes.error)
            else if imageBytes.value != |image| then Err(ImageLength)
            else if !IsLabel(image[71..82]) then Err(LabelBytes)
            else Ok(Geometry(bps, spc, reserved, fats, total, fatSectors, root, fsinfo, backup, reserved,
                             firstData.value, clusterCount, maximum.value, U32(image, 67), Rstrip(image[71..82])))
  }

  // ---------------------------------------------------------------------------------------------
  // Addresses

  function ClusterSector(g: Geometry, cluster: int): (r: Result<int, FatError>) {
    if cluster < 2 || cluster > g.maximum then Err(OutsideData) else
    var relative := CheckedMul(cluster - 2, g.sectorsPerCluster);
    if relative.Err? then relative else
    var sector := CheckedAdd(g.firstData, relative.value);
    if sector.Err? then sector
    else if sector.value >= g.total then Err(EscapedVolume)
    else sector
  }

  function SectorOffset(g: Geometry, sector: int): (r: Result<int, FatError>) {
    if sector < 0 || sector >= g.total then Err(OutsideVolume) else CheckedMul(sector, g.bytesPerSector)
  }

  function FatValue(image: seq<byte>, g: Geometry, copy: int, cluster: int): (r: Result<nat, FatError>) {
    if copy < 0 || copy >= g.fatCopies then Err(FatCopyIndex)
    else if cluster < 0 || cluster > g.maximum then Err(FatClusterIndex)
    else
      var base := SectorOffset(g, g.firstFat + copy * g.fatSectors);
      if base.Err? then Err(base.error) else
      var offset := base.value + cluster * 4;
      if offset < 0 || offset + 4 > |image| then Err(FatEscaped)
      else Ok(U32(image, offset) % 0x1000_0000)
  }

  /** What an accepted geometry says about an image of `length` bytes. */
  ghost predicate Fits(g: Geometry, length: nat) {
    && g.bytesPerSector in {512, 1024, 2048, 4096}
    && 1 <= g.sectorsPerCluster <= 128
    && g.fatCopies == 2 && 2 <= g.reserved <= 0xFFFF && g.firstFat == g.reserved
    && 1 <= g.fatSectors && g.firstData == g.reserved + 2 * g.fatSectors
    && g.total < 0x1_0000_0000
    && g.firstData + g.clusterCount * g.sectorsPerCluster <= g.total
    && MIN_CLUSTERS <= g.clusterCount <= FatChain.MAX_CLUSTER - 1
    && g.maximum == g.clusterCount + 1
    && 4 * (g.maximum + 1) <= g.fatSectors * g.bytesPerSector
    && 2 <= g.rootCluster <= g.maximum
    && 0 < g.fsinfoSector < g.reserved && 0 < g.backupBoot < g.reserved
    && length == g.total * g.bytesPerSector
  }

  /** None of the checked additions and multiplications of the boot sector's fields can overflow. */
  lemma GeometryNeverOverflows(image: seq<byte>)
    ensures ParseGeometry(image) != Err(Overflow)
  {
    hide CheckedMul, IsClusterSize, IsLabel, Rstrip, U16, U32;
    if SECTOR_BYTES <= |image| {
      var bps, total, fatSectors := U16(image, 11), U32(image, 32), U32(image, 36);
      CheckedMulIsExact(2, fatSectors);
      CheckedMulIsExact(fatSectors, bps);
      CheckedMulIsExact(total, bps);
    }
  }

  lemma AcceptedGeometryFits(image: seq<byte>)
    requires ParseGeometry(image).Ok?
    ensures Fits(ParseGeometry(image).value, |image|)
  {
    var g := ParseGeometry(image).value;
    DivisionFits(g.total - g.firstData, g.sectorsPerCluster);
  }

  lemma DivisionFits(n: nat, d: nat)
    requires 0 < d
    ensures n / d * d <= n
  {
    assert n == n / d * d + n % d;
  }

  function ClusterBytes(g: Geometry): (r: nat) {
    g.sectorsPerCluster * g.bytesPerSector
  }

  /** Byte address of a cluster, as unchecked arithmetic. */
  ghost function ClusterOffset(g: Geometry, c: nat): int {
    (g.firstData + (c - 2) * g.sectorsPerCluster) * g.bytesPerSector
  }

  /** Byte address of a FAT copy, as unchecked arithmetic. */
  ghost function FatOffset(g: Geometry, copy: nat): int {
    (g.firstFat + copy * g.fatSectors) * g.bytesPerSector
  }

  /** A sector span inside the volume is the corresponding byte span inside the image. */
  lemma SectorSpan(g: Geometry, length: nat, first: nat, count: nat)
    requires Fits(g, length) && first + count <= g.total
    ensures first * g.bytesPerSector + count * g.bytesPerSector == (first + count) * g.bytesPerSector <= length
    ensures 0 < count ==> SectorOffset(g, first) == Ok(first * g.bytesPerSector)
  {
    MulOrder(first + count, g.total, g.bytesPerSector);
    assert first * g.bytesPerSector + count * g.bytesPerSector == (first + count) * g.bytesPerSector;
    if 0 < count {
      CheckedMulIsExact(first, g.bytesPerSector);
    }
  }

  lemma CheckedMulIsExact(a: nat, b: nat)
    requires a < 0x1_0000_0000 && b < 0x1_0000_0000
    ensures CheckedMul(a, b) == Ok(a * b) && a * b <= LIMIT
  {
    MulOrder(a, 0xFFFF_FFFF, b);
    assert a * b <= LIMIT;
    if a != 0 {
      QuotientBound(LIMIT, a, b);
    }
  }

  lemma QuotientBound(n: nat, a: nat, b: nat)
    requires 0 < a && a * b <= n
    ensures b <= n / a
  {
    assert n == n / a * a + n % a;
    if n / a < b {
      MulOrder(n / a + 1, b, a);
    }
  }

  /** Sectors of a cluster, counted from the first data sector. */
  lemma ClusterSectors(g: Geometry, length: nat, c: nat)
    requires Fits(g, length) && 2 <= c <= g.maximum
    ensures 0 <= (c - 2) * g.sectorsPerCluster
    ensures g.firstData + (c - 2) * g.sectorsPerCluster + g.sectorsPerCluster <= g.total
    ensures ClusterSector(g, c) == Ok(g.firstData + (c - 2) * g.sectorsPerCluster)
  {
    hide CheckedMul;
    CheckedMulIsExact(c - 2, g.sectorsPerCluster);
    ClusterIsCounted(c, g.clusterCount, g.sectorsPerCluster);
  }

  lemma ClusterIsCounted(c: nat, count: nat, spc: nat)
    requires 2 <= c <= count + 1
    ensures 0 <= (c - 2) * spc && (c - 2) * spc + spc <= count * spc
  {
    MulOrder(0, c - 2, spc);
    MulOrder(c - 1, count, spc);
    assert (c - 2) * spc + spc == (c - 1) * spc;
  }

  /** Clusters lie one after another, `ClusterBytes` apart. */
  lemma ClusterSpacing(g: Geometry, c: nat, d: nat)
    requires 2 <= c <= d
    ensures ClusterOffset(g, d) == ClusterOffset(g, c) + (d - c) * ClusterBytes(g)
    ensures c < d ==> ClusterOffset(g, c) + ClusterBytes(g) <= ClusterOffset(g, d)
  {
    var spc, bps := g.sectorsPerCluster, g.bytesPerSector;
    var first := g.firstData + (c - 2) * spc;
    assert g.firstData + (d - 2) * spc == first + (d - c) * spc;
    assert (first + (d - c) * spc) * bps == first * bps + (d - c) * spc * bps;
    assert (d - c) * spc * bps == (d - c) * (spc * bps);
    if c < d {
      MulOrder(1, d - c, spc * bps);
    }
  }

  /** Every cluster translates to a whole-cluster byte range inside the image and past both FATs;
      distinct clusters get disjoint ranges; no guard on the way refuses. */
  lemma ClusterAddresses(g: Geometry, length: nat, c: nat)
    requires Fits(g, length) && 2 <= c <= g.maximum
    ensures ClusterSector(g, c).Ok?
    ensures SectorOffset(g, ClusterSector(g, c).value) == Ok(ClusterOffset(g, c))
    ensures 0 <= FatOffset(g, 0) <= FatOffset(g, 0) + g.fatSectors * g.bytesPerSector == FatOffset(g, 1)
    ensures FatOffset(g, 1) + g.fatSectors * g.bytesPerSector <= ClusterOffset(g, c)
    ensures ClusterOffset(g, c) + ClusterBytes(g) <= length
    ensures forall d :: c < d <= g.maximum ==> ClusterOffset(g, c) + ClusterBytes(g) <= ClusterOffset(g, d)
  {
    hide Fits, SectorOffset, ClusterSector, FatOffset, ClusterOffset, ClusterBytes;
    ClusterIsInside(g, length, c);
    FatsAreInFront(g, length, c);
    forall d | c < d <= g.maximum ensures ClusterOffset(g, c) + ClusterBytes(g) <= ClusterOffset(g, d) {
      ClusterSpacing(g, c, d);
    }
  }

  lemma ClusterIsInside(g: Geometry, length: nat, c: nat)
    requires Fits(g, length) && 2 <= c <= g.maximum
    ensures ClusterSector(g, c).Ok? && SectorOffset(g, ClusterSector(g, c).value) == Ok(ClusterOffset(g, c))
    ensures ClusterOffset(g, c) + ClusterBytes(g) <= length
  {
    hide Fits, SectorOffset, ClusterSector;
    ClusterSectors(g, length, c);
    SectorSpan(g, length, g.firstData + (c - 2) * g.sectorsPerCluster, g.sectorsPerCluster);
    assert 1 <= g.sectorsPerCluster by {
      ClusterIsPositive(g, length);
    }
  }

  lemma ClusterIsPositive(g: Geometry, length: nat)
    requires Fits(g, length)
    ensures 1 <= g.sectorsPerCluster
  {
  }

  /** Both FAT copies lie in front of every cluster. */
  lemma FatsAreInFront(g: Geometry, length: nat, c: nat)
    requires Fits(g, length) && 2 <= c <= g.maximum
    ensures 0 <= FatOffset(g, 0) <= FatOffset(g, 0) + g.fatSectors * g.bytesPerSector == FatOffset(g, 1)
    ensures FatOffset(g, 1) + g.fatSectors * g.bytesPerSector <= ClusterOffset(g, c)
  {
    FatSpan(g, length, 0);
    FatSpan(g, length, 1);
    MulOrder(0, c - 2, g.sectorsPerCluster);
    MulOrder(g.firstData, g.firstData + (c - 2) * g.sectorsPerCluster, g.bytesPerSector);
  }

  lemma FatSpan(g: Geometry, length: nat, copy: nat)
    requires Fits(g, length) && copy < 2
    ensures SectorOffset(g, g.firstFat + copy * g.fatSectors) == Ok(FatOffset(g, copy))
    ensures 0 <= FatOffset(g, copy)
    ensures FatOffset(g, copy) + g.fatSectors * g.bytesPerSector
            == (g.firstFat + (copy + 1) * g.fatSectors) * g.bytesPerSector <= length
  {
    MulOrder(0, g.clusterCount, g.sectorsPerCluster);
    var first := g.firstFat + copy * g.fatSectors;
    assert first == if copy == 0 then g.firstFat else g.firstFat + g.fatSectors;
    assert first + g.fatSectors == g.firstFat + (copy + 1) * g.fatSectors;
    SectorSpan(g, length, first, g.fatSectors);
  }

  /** Every FAT lookup stays inside its own copy; no guard on the way refuses. */
  lemma FatLookups(image: seq<byte>, g: Geometry, copy: nat, c: nat)
    requires Fits(g, |image|) && copy < 2 && c <= g.maximum
    ensures 0 <= FatOffset(g, copy) && FatOffset(g, copy) + 4 * c + 4 <= |image|
    ensures FatOffset(g, copy) + 4 * c + 4 <= FatOffset(g, copy) + g.fatSectors * g.bytesPerSector
    ensures FatValue(image, g, copy, c) == Ok(U32(image, FatOffset(g, copy) + 4 * c) % 0x1000_0000)
  {
    FatSpan(g, |image|, copy);
  }
}
