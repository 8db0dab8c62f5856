/** The standard 64 MiB image as bytes, and writes to it as changes of the volume it shows. */
module FatImage {
  import opened Bytes
  import opened ShortNames
  import opened FatChain
  import opened FatGeometry
  import opened FatDirectory
  import opened FatLayout
  import opened FatInspector

  const TOTAL_SECTORS := 131_072
  const FAT_SECTORS := 1_009
  const CLUSTER_COUNT := 129_022
  const MAXIMUM := 129_023
  const IMAGE_BYTES := 67_108_864

  // ---------------------------------------------------------------------------------------------
  // Geometry of the formatted volume

  /** A FAT of `f` sectors leaves data sectors and has an entry for each of their clusters. */
  predicate Covers(total: int, f: int) {
    0 < total - 32 - 2 * f && total - 32 - 2 * f + 2 <= 128 * f
  }

  /** The smallest FAT that covers its own data region, or a refusal when none does. */
  method ComputeFatSectors(total: int) returns (r: Option<nat>)
    ensures r.Some? ==> 1 <= r.value && Covers(total, r.value) && forall f :: 1 <= f < r.value ==> !Covers(total, f)
    ensures r.None? ==> forall f :: 1 <= f ==> !Covers(total, f)
  {
    var f := 1;
    while true
      invariant 1 <= f && forall e :: 1 <= e < f ==> !Covers(total, e)
      decreases total - 32 - 2 * f
    {
      var data := total - 32 - 2 * f;
      if data <= 0 {
        return None;
      }
      if f * 512 / 4 >= data + 2 {
        return Some(f);
      }
      f := f + 1;
    }
  }

  /** In closed form: a FAT exists from 35 sectors on, and its length is a 130th of the sectors behind the
      first thirty, rounded up. */
  lemma LeastFatIs(total: int, f: int)
    requires 1 <= f
    ensures Covers(total, f) && (forall e :: 1 <= e < f ==> !Covers(total, e)) <==> 35 <= total && f == (total - 30 + 129) / 130
  {
    if Covers(total, f) && 1 < f && forall e :: 1 <= e < f ==> !Covers(total, e) {
      assert !Covers(total, f - 1);
    }
    if 35 <= total && f == (total - 30 + 129) / 130 {
      assert 130 * (f - 1) < total - 30 <= 130 * f;
    }
  }

  /** The constants above are what that computation gives for the formatted volume. */
  lemma StandardFat(f: nat)
    requires 1 <= f && Covers(TOTAL_SECTORS, f) && forall e :: 1 <= e < f ==> !Covers(TOTAL_SECTORS, e)
    ensures f == FAT_SECTORS && CLUSTER_COUNT == TOTAL_SECTORS - 32 - 2 * f && MAXIMUM == CLUSTER_COUNT + 1
    ensures IMAGE_BYTES == 512 * TOTAL_SECTORS
  {
    assert Covers(TOTAL_SECTORS, 1_009);
  }

  function Standard(volumeId: nat, volumeLabel: Text): (g: Geometry) {
    Geometry(512, 1, 32, 2, 131_072, 1_009, 2, 1, 6, 32, 2_050, 129_022, 129_023, volumeId, Rstrip(volumeLabel))
  }

  function BootHead(): (r: seq<byte>)
    ensures |r| == 36 && r[13] == 1 && r[16] == 2
    ensures U16(r, 11) == 512 && U16(r, 14) == 32 && U16(r, 17) == 0 && U16(r, 19) == 0 && U16(r, 22) == 0
    ensures U32(r, 32) == 131_072
  {
    [0xEB, 0x58, 0x90, 0x53, 0x41, 0x50, 0x4F, 0x54, 0x45, 0x32, 0x30] + Le16(512) + [1] + Le16(32) + [2] +
    Le16(0) + Le16(0) + [0xF8] + Le16(0) + Le16(1) + Le16(1) + Le32(0) + Le32(131_072)
  }

  function BootBody(): (r: seq<byte>)
    ensures |r| == 31 && U32(r, 0) == 1_009 && U32(r, 8) == 2 && U16(r, 12) == 1 && U16(r, 14) == 6
  {
    Le32(1_009) + Le16(0) + Le16(0) + Le32(2) + Le16(1) + Le16(6) + Zeros(12) + [0x80, 0, 0x29]
  }

  function BootTail(volumeId: nat, volumeLabel: Text): (r: seq<byte>)
    requires volumeId < 0x1_0000_0000 && |volumeLabel| == 11
    ensures |r| == 445 && U32(r, 0) == volumeId && r[4..15] == volumeLabel && r[443] == 0x55 && r[444] == 0xAA
  {
    Le32(volumeId) + volumeLabel + [0x46, 0x41, 0x54, 0x33, 0x32, 0x20, 0x20, 0x20] + Zeros(420) + [0x55, 0xAA]
  }

  function BootSector(volumeId: nat, volumeLabel: Text): (r: seq<byte>)
    requires volumeId < 0x1_0000_0000 && |volumeLabel| == 11
    ensures |r| == 512
  {
    BootHead() + BootBody() + BootTail(volumeId, volumeLabel)
  }

  /** The parts of the boot sector that the inspector does not read. */
  lemma BootBytes(volumeId: nat, volumeLabel: Text)
    requires volumeId < 0x1_0000_0000 && |volumeLabel| == 11
    ensures
      var r := BootSector(volumeId, volumeLabel);
      && r[0] == 0xEB && r[1] == 0x58 && r[2] == 0x90
      && (forall i :: 0 <= i < 8 ==> r[3 + i] == "SAPOTE20"[i] as int) && r[21] == 0xF8
      && r[24] == 1 && r[25] == 0 && r[26] == 1 && r[27] == 0 && (forall i :: 28 <= i < 32 ==> r[i] == 0)
      && (forall i :: 40 <= i < 44 ==> r[i] == 0) && (forall i :: 52 <= i < 64 ==> r[i] == 0)
      && r[64] == 0x80 && r[65] == 0 && r[66] == 0x29
      && (forall i :: 0 <= i < 8 ==> r[82 + i] == "FAT32   "[i] as int) && (forall i :: 90 <= i < 510 ==> r[i] == 0)
  {
    var r := BootSector(volumeId, volumeLabel);
    HeadBytes();
    BodyBytes();
    TailBytes(volumeId, volumeLabel);
    assert forall i :: 0 <= i < 36 ==> r[i] == BootHead()[i];
    assert forall i :: 36 <= i < 67 ==> r[i] == BootBody()[i - 36];
    assert forall i :: 67 <= i < 512 ==> r[i] == BootTail(volumeId, volumeLabel)[i - 67];
  }

  lemma HeadBytes()
    ensures
      var r := BootHead();
      && r[0] == 0xEB && r[1] == 0x58 && r[2] == 0x90
      && (forall i :: 0 <= i < 8 ==> r[3 + i] == "SAPOTE20"[i] as int) && r[21] == 0xF8
      && r[24] == 1 && r[25] == 0 && r[26] == 1 && r[27] == 0 && (forall i :: 28 <= i < 32 ==> r[i] == 0)
  {
  }

  lemma BodyBytes()
    ensures
      var r := BootBody();
      && (forall i :: 4 <= i < 8 ==> r[i] == 0) && (forall i :: 16 <= i < 28 ==> r[i] == 0)
      && r[28] == 0x80 && r[29] == 0 && r[30] == 0x29
  {
  }

  lemma TailBytes(volumeId: nat, volumeLabel: Text)
    requires volumeId < 0x1_0000_0000 && |volumeLabel| == 11
    ensures
      var r := BootTail(volumeId, volumeLabel);
      && (forall i :: 0 <= i < 8 ==> r[15 + i] == "FAT32   "[i] as int) && (forall i :: 23 <= i < 443 ==> r[i] == 0)
  {
  }

  function FsInfoSector(free: nat, next: nat): (r: seq<byte>)
    requires free < 0x1_0000_0000 && next < 0x1_0000_0000
    ensures |r| == 512
    ensures U32(r, 0) == 0x4161_5252 && U32(r, 484) == 0x6141_7272 && U32(r, 508) == 0xAA55_0000
    ensures U32(r, 488) == free && U32(r, 492) == next
  {
    Le32(0x4161_5252) + Zeros(480) + Le32(0x6141_7272) + Le32(free) + Le32(next) + Zeros(12) + Le32(0xAA55_0000)
  }

  lemma SameU32(a: seq<byte>, i: nat, b: seq<byte>, j: nat)
    requires i + 4 <= |a| && j + 4 <= |b| && a[i..i + 4] == b[j..j + 4]
    ensures U32(a, i) == U32(b, j)
  {
    var p, q := a[i..i + 4], b[j..j + 4];
    assert p[0] == a[i] && p[1] == a[i + 1] && p[2] == a[i + 2] && p[3] == a[i + 3];
    assert q[0] == b[j] && q[1] == b[j + 1] && q[2] == b[j + 2] && q[3] == b[j + 3];
  }

  /** Reading the written boot sector gives the standard geometry. */
  lemma BootParses(image: seq<byte>, volumeId: nat, volumeLabel: Text)
    requires |image| == IMAGE_BYTES && volumeId < 0x1_0000_0000 && |volumeLabel| == 11 && IsLabel(volumeLabel)
    requires image[..512] == BootSector(volumeId, volumeLabel)
    ensures ParseGeometry(image) == Ok(Standard(volumeId, volumeLabel))
    ensures Fits(Standard(volumeId, volumeLabel), |image|)
  {
    hide BootHead, BootBody, BootTail, Rstrip;
    var head, body, tail := BootHead(), BootBody(), BootTail(volumeId, volumeLabel);
    assert forall i :: 0 <= i < 36 ==> image[i] == image[..512][i] == head[i];
    assert forall i :: 0 <= i < 31 ==> image[36 + i] == image[..512][36 + i] == body[i];
    forall i | 0 <= i < 445 ensures image[67 + i] == tail[i] {
      assert image[67 + i] == image[..512][67 + i];
    }
    BootTailFields(image, volumeId, volumeLabel);
    assert U32(image, 36) == U32(body, 0) && U32(image, 44) == U32(body, 8);
    assert U16(image, 48) == U16(body, 12) && U16(image, 50) == U16(body, 14);
  }

  lemma BootTailFields(image: seq<byte>, volumeId: nat, volumeLabel: Text)
    requires 512 <= |image| && volumeId < 0x1_0000_0000 && |volumeLabel| == 11
    requires forall i :: 0 <= i < 445 ==> image[67 + i] == BootTail(volumeId, volumeLabel)[i]
    ensures U32(image, 67) == volumeId && image[71..82] == volumeLabel && image[510] == 0x55 && image[511] == 0xAA
  {
    hide BootTail;
    var tail := BootTail(volumeId, volumeLabel);
    assert image[510] == image[67 + 443] && image[511] == image[67 + 444];
    assert image[67..71] == tail[0..4];
    SameU32(image, 67, tail, 0);
    assert image[71..82] == tail[4..15];
  }

  // ---------------------------------------------------------------------------------------------
  // Writes

  function Overwrite(s: seq<byte>, at: nat, b: seq<byte>): (r: seq<byte>)
    requires at + |b| <= |s|
    ensures |r| == |s|
    ensures forall i :: 0 <= i < |s| ==> r[i] == if at <= i < at + |b| then b[i - at] else s[i]
  {
    s[..at] + b + s[at + |b|..]
  }

  ghost predicate FatBytes(v: Volume, s: seq<byte>, c: nat)
    requires c < |v.fat|
  {
    16_384 + 4 * c + 4 <= |s| && v.fat[c] < 0x1000_0000 && U32(s, 16_384 + 4 * c) == v.fat[c]
  }

  ghost predicate ClusterData(v: Volume, s: seq<byte>, c: nat)
    requires c < |v.clusters|
  {
    && 1_048_576 + 512 * c + 512 <= |s| && |v.clusters[c]| == 512
    && forall k :: 0 <= k < 512 ==> v.clusters[c][k] == s[1_048_576 + 512 * c + k]
  }

  /** The two copies of the table are equal byte for byte. */
  ghost predicate CopiesMatch(s: seq<byte>)
    requires |s| == IMAGE_BYTES
  {
    forall i :: 16_384 <= i < 532_992 ==> s[i] == s[i + 516_608]
  }

  /** The image shows volume `v`. */
  ghost predicate Shows(v: Volume, s: seq<byte>) {
    && |s| == IMAGE_BYTES && |v.fat| == 129_024 && |v.clusters| == 129_024
    && v.clusterBytes == 512 && v.dataOffset == 1_049_600 && v.clusters[0] == [] && v.clusters[1] == []
    && (forall c :: 0 <= c <= MAXIMUM ==> FatBytes(v, s, c))
    && (forall c :: 2 <= c <= MAXIMUM ==> ClusterData(v, s, c))
    && CopiesMatch(s)
  }

  lemma ShowsIsValid(v: Volume, s: seq<byte>)
    requires Shows(v, s)
    ensures Valid(v)
  {
    forall c: nat | InRange(v.fat, c) ensures |v.clusters[c]| == v.clusterBytes {
      assert ClusterData(v, s, c);
    }
  }

  /** Setting a table entry in both copies. */
  ghost function WithFat(v: Volume, c: nat, value: nat): (r: Volume)
    requires c < |v.fat|
  {
    v.(fat := v.fat[c := value])
  }

  function FatWritten(s: seq<byte>, c: nat, value: nat): (r: seq<byte>)
    requires |s| == IMAGE_BYTES && c <= MAXIMUM && value < 0x1000_0000
    ensures |r| == IMAGE_BYTES
  {
    Overwrite(Overwrite(s, 16_384 + 4 * c, Le32(value)), 532_992 + 4 * c, Le32(value))
  }

  lemma FatWriteShows(v: Volume, s: seq<byte>, c: nat, value: nat)
    requires Shows(v, s) && c <= MAXIMUM && value < 0x1000_0000
    ensures Shows(WithFat(v, c, value), FatWritten(s, c, value))
    ensures FatWritten(s, c, value)[..16_384] == s[..16_384]
  {
    hide Le32;
    var v', s', b := WithFat(v, c, value), FatWritten(s, c, value), Le32(value);
    forall d: nat | d <= MAXIMUM ensures FatBytes(v', s', d) {
      assert FatBytes(v, s, d);
      if d == c {
        assert s'[16_384 + 4 * c..16_384 + 4 * c + 4] == b[0..4];
        SameU32(s', 16_384 + 4 * c, b, 0);
      }
    }
    forall d: nat | 2 <= d <= MAXIMUM ensures ClusterData(v', s', d) {
      assert ClusterData(v, s, d);
    }
    forall i | 16_384 <= i < 532_992 ensures s'[i] == s'[i + 516_608] {
      assert s[i] == s[i + 516_608];
    }
  }

  ghost function WithBytes(v: Volume, c: nat, at: nat, b: seq<byte>): (r: Volume)
    requires c < |v.clusters| && at + |b| <= |v.clusters[c]|
  {
    v.(clusters := v.clusters[c := Overwrite(v.clusters[c], at, b)])
  }

  function BytesWritten(s: seq<byte>, c: nat, at: nat, b: seq<byte>): (r: seq<byte>)
    requires |s| == IMAGE_BYTES && 2 <= c <= MAXIMUM && at + |b| <= 512
    ensures |r| == IMAGE_BYTES
  {
    Overwrite(s, 1_048_576 + 512 * c + at, b)
  }

  lemma ClusterWriteShows(v: Volume, s: seq<byte>, c: nat, at: nat, b: seq<byte>)
    requires Shows(v, s) && 2 <= c <= MAXIMUM && at + |b| <= 512
    ensures |v.clusters[c]| == 512
    ensures Shows(WithBytes(v, c, at, b), BytesWritten(s, c, at, b))
    ensures BytesWritten(s, c, at, b)[..16_384] == s[..16_384]
  {
    assert ClusterData(v, s, c);
    var v', s' := WithBytes(v, c, at, b), BytesWritten(s, c, at, b);
    forall d: nat | d <= MAXIMUM ensures FatBytes(v', s', d) {
      assert FatBytes(v, s, d);
    }
    forall d: nat | 2 <= d <= MAXIMUM ensures ClusterData(v', s', d) {
      assert ClusterData(v, s, d);
    }
    forall i | 16_384 <= i < 532_992 ensures s'[i] == s'[i + 516_608] {
      assert s[i] == s[i + 516_608];
    }
  }

  lemma HeaderWriteShows(v: Volume, s: seq<byte>, at: nat, b: seq<byte>)
    requires Shows(v, s) && at + |b| <= 16_384
    ensures Shows(v, Overwrite(s, at, b))
  {
    var s' := Overwrite(s, at, b);
    forall d: nat | d <= MAXIMUM ensures FatBytes(v, s', d) {
      assert FatBytes(v, s, d);
    }
    forall d: nat | 2 <= d <= MAXIMUM ensures ClusterData(v, s', d) {
      assert ClusterData(v, s, d);
    }
    forall i | 16_384 <= i < 532_992 ensures s'[i] == s'[i + 516_608] {
      assert s[i] == s[i + 516_608];
    }
  }

  // ---------------------------------------------------------------------------------------------
  // What the inspector sees

  lemma InspectorSees(v: Volume, s: seq<byte>, g: Geometry)
    requires Shows(v, s) && Fits(g, |s|)
    requires g.bytesPerSector == 512 && g.sectorsPerCluster == 1 && g.firstFat == 32 && g.fatSectors == 1_009
    requires g.firstData == 2_050 && g.maximum == 129_023
    ensures View(s, g) == v && FatsMatch(s, g)
  {
    var w := View(s, g);
    forall c: nat | c <= MAXIMUM ensures w.fat[c] == v.fat[c] {
      assert FatBytes(v, s, c);
      assert w.fat[c] == FatAt(s, g, c);
    }
    assert w.fat == v.fat;
    forall c: nat | 2 <= c <= MAXIMUM ensures w.clusters[c] == v.clusters[c] {
      assert ClusterData(v, s, c);
      assert w.clusters[c] == ClusterAt(s, g, c);
      assert ClusterOffset(g, c) == 1_048_576 + 512 * c;
    }
    forall c: nat | c <= MAXIMUM ensures w.clusters[c] == v.clusters[c] {
      if c < 2 {
        assert w.clusters[c] == ClusterAt(s, g, c);
      }
    }
    assert w.clusters == v.clusters;
    var a, b := s[16_384..532_992], s[532_992..1_049_600];
    forall i | 0 <= i < |a| ensures a[i] == b[i] {
      assert s[16_384 + i] == s[16_384 + i + 516_608];
    }
    assert a == b;
  }
}
