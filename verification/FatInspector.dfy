/** The inspector itself: loops over the image bytes, proved to compute the tree of `FatDirectory`. */
module FatInspector {
  import opened Bytes
  import opened ShortNames
  import opened FatChain
  import opened FatGeometry
  import opened FatDirectory
  import Ownership = FatOwnership

  const MEDIA_ENTRY := 0x0FFF_FFF8

  ghost predicate FatShows(v: Volume, image: seq<byte>, g: Geometry, c: nat)
    requires c < |v.fat|
  {
    FatValue(image, g, 0, c) == Ok(v.fat[c])
  }

  ghost predicate ClusterShows(v: Volume, image: seq<byte>, g: Geometry, c: nat)
    requires 2 <= c < |v.clusters|
  {
    && ClusterSector(g, c).Ok? && SectorOffset(g, ClusterSector(g, c).value) == Ok(OffsetOf(v, c))
    && OffsetOf(v, c) + v.clusterBytes <= |image|
    && v.clusters[c] == image[OffsetOf(v, c)..OffsetOf(v, c) + v.clusterBytes]
  }

  /** `v` is the table (first copy) and the clusters that the image holds. */
  ghost predicate Represents(v: Volume, image: seq<byte>, g: Geometry) {
    && Valid(v) && |v.fat| == g.maximum + 1 && g.maximum == g.clusterCount + 1 && v.clusterBytes == ClusterBytes(g)
    && (forall c :: 0 <= c <= g.maximum ==> FatShows(v, image, g, c))
    && (forall c :: 2 <= c <= g.maximum ==> ClusterShows(v, image, g, c))
  }

  ghost function View(image: seq<byte>, g: Geometry): (v: Volume)
    requires Fits(g, |image|)
    ensures |v.fat| == g.maximum + 1
  {
    ClusterAddresses(g, |image|, 2);
    Volume(seq(g.maximum + 1, c requires 0 <= c <= g.maximum => FatAt(image, g, c)),
           ClusterBytes(g),
           ClusterOffset(g, 2),
           seq(g.maximum + 1, c requires 0 <= c <= g.maximum => ClusterAt(image, g, c)))
  }

  ghost function FatAt(image: seq<byte>, g: Geometry, c: nat): (r: nat)
    requires Fits(g, |image|) && c <= g.maximum
    ensures FatValue(image, g, 0, c) == Ok(r)
  {
    FatLookups(image, g, 0, c);
    U32(image, FatOffset(g, 0) + 4 * c) % 0x1000_0000
  }

  ghost function ClusterAt(image: seq<byte>, g: Geometry, c: nat): (r: seq<byte>)
    requires Fits(g, |image|) && c <= g.maximum
    ensures 2 <= c ==>
      && 0 <= ClusterOffset(g, 2) <= ClusterOffset(g, c) && ClusterOffset(g, c) + ClusterBytes(g) <= |image|
      && r == image[ClusterOffset(g, c)..ClusterOffset(g, c) + ClusterBytes(g)]
  {
    if c < 2 then [] else
    ClusterAddresses(g, |image|, c);
    ClusterAddresses(g, |image|, 2);
    image[ClusterOffset(g, c)..ClusterOffset(g, c) + ClusterBytes(g)]
  }

  lemma ClusterBytesAreEntries(g: Geometry, length: nat)
    requires Fits(g, length)
    ensures 0 < ClusterBytes(g) && ClusterBytes(g) % 32 == 0
  {
    EntriesFill(g.sectorsPerCluster, g.bytesPerSector);
  }

  lemma {:induction false} EntriesFill(sectors: nat, bytes: nat)
    requires 1 <= sectors && bytes in {512, 1024, 2048, 4096}
    ensures 0 < sectors * bytes && sectors * bytes % 32 == 0
  {
    if 1 < sectors {
      EntriesFill(sectors - 1, bytes);
      var before := (sectors - 1) * bytes;
      assert sectors * bytes == before + bytes;
      Sum32(before, bytes);
    }
  }

  lemma Sum32(a: nat, b: nat)
    requires a % 32 == 0 && b % 32 == 0
    ensures (a + b) % 32 == 0
  {
  }

  /** Every image of an accepted geometry is represented by its view. */
  lemma ViewRepresents(image: seq<byte>, g: Geometry)
    requires Fits(g, |image|)
    ensures Represents(View(image, g), image, g)
  {
    var v := View(image, g);
    ClusterBytesAreEntries(g, |image|);
    forall c | 2 <= c <= g.maximum ensures ClusterShows(v, image, g, c) {
      assert v.clusters[c] == ClusterAt(image, g, c);
      ClusterAddresses(g, |image|, c);
      ClusterSpacing(g, 2, c);
    }
    forall c: nat | InRange(v.fat, c) ensures |v.clusters[c]| == v.clusterBytes {
      assert ClusterShows(v, image, g, c);
    }
  }

  method ReadFat(image: seq<byte>, g: Geometry, c: nat, ghost v: Volume) returns (value: nat)
    requires Represents(v, image, g) && c <= g.maximum
    ensures value == v.fat[c]
  {
    assert FatShows(v, image, g, c);
    value := FatValue(image, g, 0, c).value;
  }

  /** Follow one chain. The volume-bound refusal is in the loop and cannot be reached. */
  method WalkChain(image: seq<byte>, g: Geometry, first: nat, ghost v: Volume) returns (r: Result<seq<nat>, FatError>)
    requires Represents(v, image, g)
    ensures r.Ok? <==> Walk(v.fat, first).Some?
    ensures r.Ok? ==> r.value == ChainOf(v, first)
    ensures r != Err(ChainTooLong)
  {
    if first == 0 {
      return Ok([]);
    }
    ghost var fat := v.fat;
    var chain: seq<nat>, seen: set<nat>, cluster := [], {}, first;
    while true
      invariant chain == [] ==> cluster == first
      invariant chain != [] ==> IsPath(fat, first, chain) && fat[chain[|chain| - 1]] == cluster < EOC_MIN
      invariant NoDuplicates(chain) && seen == Elements(chain)
      invariant forall i :: 0 <= i < |chain| ==> InRange(fat, chain[i])
      decreases |fat| - |chain|
    {
      if cluster < 2 || cluster > g.maximum {
        Blocked(fat, first, chain, cluster);
        return Err(ChainOutOfRange);
      }
      if cluster in seen {
        Blocked(fat, first, chain, cluster);
        return Err(ChainCyclic);
      }
      DistinctClustersFit(fat, chain + [cluster]);
      if |chain| >= g.clusterCount {
        assert false;
        return Err(ChainTooLong);
      }
      PathGrows(fat, first, chain, cluster);
      seen, chain := seen + {cluster}, chain + [cluster];
      var following := ReadFat(image, g, cluster, v);
      if following >= EOC_MIN {
        WalkIs(fat, first, chain);
        return Ok(chain);
      }
      if following == BAD {
        Blocked(fat, first, chain, following);
        return Err(ChainBad);
      }
      if following < 2 || 0x0FFF_FFF0 <= following <= 0x0FFF_FFF6 {
        Blocked(fat, first, chain, following);
        return Err(ChainFree);
      }
      cluster := following;
    }
  }

  lemma PathGrows(fat: seq<nat>, first: nat, chain: seq<nat>, cluster: nat)
    requires chain == [] ==> cluster == first
    requires chain != [] ==> IsPath(fat, first, chain) && fat[chain[|chain| - 1]] == cluster
    requires InRange(fat, cluster)
    ensures IsPath(fat, first, chain + [cluster])
  {
    var longer := chain + [cluster];
    forall i | 0 <= i < |longer| - 1 ensures Linked(fat, longer, i) {
      if i < |chain| - 1 {
        assert Linked(fat, chain, i);
      }
    }
  }

  lemma Blocked(fat: seq<nat>, first: nat, chain: seq<nat>, cluster: nat)
    requires 0 < first && |fat| <= MAX_CLUSTER + 1
    requires chain == [] ==> cluster == first
    requires chain != [] ==> IsPath(fat, first, chain) && fat[chain[|chain| - 1]] == cluster < EOC_MIN
    requires !InRange(fat, cluster) || cluster in chain
    ensures Walk(fat, first).None?
  {
    if chain == [] {
      forall p | IsChain(fat, first, p) ensures false {
        ChainStartsInRange(fat, first, p);
      }
    } else {
      BlockedPathHasNoChain(fat, first, chain);
    }
  }

  // ---------------------------------------------------------------------------------------------

  /** Scanning a cluster ends exactly when one of its entries opens with a zero byte. */
  lemma {:induction false} ScanEndsAtMarker(raw: seq<byte>, o: nat, base: nat, path: Text, parent: nat, scan: Scan)
    requires !scan.ended && ScanCluster(raw, o, base, path, parent, scan).Some?
    ensures ScanCluster(raw, o, base, path, parent, scan).value.ended <==> HasMarkerFrom(raw, o)
    decreases |raw| - o
  {
    if o + 32 <= |raw| {
      var kind := Classify(raw[o..o + 32], scan.pending, path, base + o, parent);
      if !kind.End? {
        ScanEndsAtMarker(raw, o + 32, base, path, parent, Advance(scan, kind));
      }
    }
  }

  /** `spec` is `done` followed by what the rest of the records still yield. */
  ghost predicate ParseProgress(
    spec: Option<Parsed>, done: seq<Record>, v: Volume, rest: seq<Record>, folded: set<Text>, owners: Owners, stack: set<nat>)
    requires Valid(v)
  {
    match ParseRecords(v, rest, folded, owners, stack)
    case None => spec.None?
    case Some(p) => spec == Some(Parsed(done + p.records, p.owners))
  }

  lemma {:induction false} ParseAdvances(
    spec: Option<Parsed>, done: seq<Record>, v: Volume, rest: seq<Record>, folded: set<Text>, owners: Owners, stack: set<nat>)
    requires Valid(v) && rest != [] && ParseProgress(spec, done, v, rest, folded, owners, stack)
    ensures Upper(rest[0].name) in folded ==> spec.None?
    ensures Upper(rest[0].name) !in folded ==>
      match ParseRecord(v, rest[0], owners, stack)
      case None => spec.None?
      case Some(p) =>
        ParseProgress(spec, done + p.records, v, rest[1..], folded + {Upper(rest[0].name)}, p.owners, stack)
  {
    var key := Upper(rest[0].name);
    if key !in folded && ParseRecord(v, rest[0], owners, stack).Some? {
      var p := ParseRecord(v, rest[0], owners, stack).value;
      var after := ParseRecords(v, rest[1..], folded + {key}, p.owners, stack);
      if after.Some? {
        assert done + (p.records + after.value.records) == done + p.records + after.value.records;
      }
    }
  }

  class Inspector {
    const image: seq<byte>
    const g: Geometry
    var owners: Owners
    var stack: set<nat>
    ghost const v: Volume

    constructor (image: seq<byte>, g: Geometry, ghost v: Volume)
      ensures this.image == image && this.g == g && this.v == v && owners == map[] && stack == {}
    {
      this.image, this.g, this.v, owners, stack := image, g, v, map[], {};
    }

    /** The entries of the `size` bytes at image address `base`. */
    method ScanEntries(base: nat, size: nat, path: Text, parent: nat, start: Scan) returns (r: Result<Scan, FatError>)
      requires base + size <= |image|
      ensures
        var spec := ScanCluster(image[base..base + size], 0, base, path, parent, start);
        if spec.None? then r.Err? else r == Ok(spec.value)
    {
      hide NameText;
      ghost var raw := image[base..base + size];
      var scan, o: nat := start, 0;
      while o + 32 <= size
        invariant ScanCluster(raw, 0, base, path, parent, start) == ScanCluster(raw, o, base, path, parent, scan)
        decreases size - o
      {
        var entry := image[base + o..base + o + 32];
        SliceOfSlice(image, base, base + size, o, o + 32);
        var kind := Classify(entry, scan.pending, path, base + o, parent);
        if kind.End? {
          return Ok(scan.(ended := true));
        }
        if kind.Refused? {
          return Err(kind.error);
        }
        scan, o := Advance(scan, kind), o + 32;
      }
      return Ok(scan);
    }

    /** The entries of cluster `c`, at the address its number translates to. */
    method ScanOne(c: nat, path: Text, parent: nat, start: Scan) returns (r: Result<Scan, FatError>)
      requires Represents(v, image, g) && InRange(v.fat, c) && !start.ended
      ensures
        var spec := ScanCluster(v.clusters[c], 0, OffsetOf(v, c), path, parent, start);
        if spec.None? then r.Err?
        else r == Ok(spec.value) && (spec.value.ended <==> HasEndMarker(v.clusters[c]))
    {
      hide ScanCluster, HasMarkerFrom;
      assert ClusterShows(v, image, g, c);
      var offset := SectorOffset(g, ClusterSector(g, c).value).value;
      r := ScanEntries(offset, ClusterBytes(g), path, parent, start);
      if r.Ok? {
        ScanEndsAtMarker(v.clusters[c], 0, offset, path, parent, start);
      }
    }

    /** Charge one cluster to a path. */
    method ClaimOne(c: nat, path: Text) returns (ok: bool)
      modifies this`owners
      ensures ok <==> !(c in old(owners) && old(owners)[c] != path)
      ensures owners == if ok then old(owners)[c := path] else old(owners)
    {
      ok := !(c in owners && owners[c] != path);
      if ok {
        owners := owners[c := path];
      }
    }

    /** Read one directory's chain up to its end marker, charging every cluster read. */
    method ReadEntries(cluster: nat, path: Text) returns (r: Result<seq<Record>, FatError>)
      requires Represents(v, image, g)
      modifies this`owners
      ensures
        var spec := ReadDirectory(v, cluster, path);
        var claimed := Claim(old(owners), ToEndMarker(v, ChainOf(v, cluster)), path);
        if spec.None? || claimed.None? then r.Err? else r == Ok(spec.value) && owners == claimed.value
    {
      hide ScanChain;
      var walked := WalkChain(image, g, cluster, v);
      if walked.Err? {
        return Err(walked.error);
      }
      r := ReadChain(walked.value, path, cluster);
    }

    method ReadChain(chain: seq<nat>, path: Text, parent: nat) returns (r: Result<seq<Record>, FatError>)
      requires Represents(v, image, g) && forall i :: 0 <= i < |chain| ==> InRange(v.fat, chain[i])
      modifies this`owners
      ensures
        var spec := ScanChain(v, chain, path, parent, START);
        var claimed := Claim(old(owners), ToEndMarker(v, chain), path);
        if spec.None? || claimed.None? then r.Err? else r == Ok(spec.value) && owners == claimed.value
    {
      hide ScanCluster, Walk, ScanChain, ToEndMarker, Claiming, Claim, FatShows, ClusterShows, HasEndMarker, OffsetOf, ClusterBytes;
      ghost var claims := ToEndMarker(v, chain);
      var scan, k := START, 0;
      assert chain[0..] == chain && chain[..0] == [] && chain[..0] + claims == claims;
      ClaimStart(owners, chain, path);
      while k < |chain|
        invariant 0 <= k <= |chain| && !scan.ended
        invariant Claiming(old(owners), owners, chain, k, path)
        invariant claims == chain[..k] + ToEndMarker(v, chain[k..])
        invariant ScanChain(v, chain, path, parent, START) == ScanChain(v, chain[k..], path, parent, scan)
      {
        EndMarkerStep(v, chain, k);
        ScanStep(v, chain[k..], path, parent, scan);
        assert chain[k..][1..] == chain[k + 1..];
        ClaimStep(old(owners), owners, chain, claims, k, path);
        var ok := ClaimOne(chain[k], path);
        if !ok {
          return Err(CrossLinkedDirectory);
        }
        var scanned := ScanOne(chain[k], path, parent, scan);
        if scanned.Err? {
          return Err(scanned.error);
        }
        scan, k := scanned.value, k + 1;
        if scan.ended {
          ClaimDone(old(owners), owners, chain, k, path);
          return Ok(scan.records);
        }
      }
      ScanNothing(v, path, parent, scan);
      assert chain[k..] == [];
      return Err(NoEndMarker);
    }

    /** Inspect the directory at `cluster` and everything below it. */
    method Parse(cluster: nat, path: Text) returns (r: Result<seq<Record>, FatError>)
      requires Represents(v, image, g)
      modifies this`owners, this`stack
      ensures
        match ParseDirectory(v, cluster, path, old(owners), old(stack))
        case None => r.Err?
        case Some(p) => r == Ok(p.records) && owners == p.owners && stack == old(stack)
      decreases |Free(v, stack)|, 0
    {
      hide ParseRecords, ReadDirectory;
      if cluster in stack {
        return Err(DirectoryCycle);
      }
      stack := stack + {cluster};
      var entries := ReadEntries(cluster, path);
      if entries.Err? {
        return Err(entries.error);
      }
      DeeperStack(v, cluster, old(stack));
      var below := ParseAll(entries.value);
      if below.Err? {
        return Err(below.error);
      }
      stack := stack - {cluster};
      return Ok(entries.value + below.value);
    }

    /** The records of one directory in order, and everything below them. */
    method ParseAll(records: seq<Record>) returns (r: Result<seq<Record>, FatError>)
      requires Represents(v, image, g)
      modifies this`owners, this`stack
      ensures
        match ParseRecords(v, records, {}, old(owners), old(stack))
        case None => r.Err?
        case Some(p) => r == Ok(p.records) && owners == p.owners && stack == old(stack)
      decreases |Free(v, stack)|, 2
    {
      hide ParseRecord;
      var folded, descendants: seq<Record>, i := {}, [], 0;
      ghost var spec := ParseRecords(v, records, {}, owners, stack);
      assert records[0..] == records && (spec.Some? ==> descendants + spec.value.records == spec.value.records);
      while i < |records|
        invariant 0 <= i <= |records| && stack == old(stack)
        invariant ParseProgress(spec, descendants, v, records[i..], folded, owners, stack)
      {
        assert records[i..][0] == records[i] && records[i..][1..] == records[i + 1..];
        ParseAdvances(spec, descendants, v, records[i..], folded, owners, stack);
        var key := Upper(records[i].name);
        if key in folded {
          return Err(DuplicateName);
        }
        folded := folded + {key};
        var below := ParseOne(records[i]);
        if below.Err? {
          return Err(below.error);
        }
        descendants, i := descendants + below.value, i + 1;
      }
      assert records[i..] == [];
      assert spec.Some? ==> spec.value.records == descendants;
      return Ok(descendants);
    }

    /** One record: a dot entry, a subdirectory or a file. */
    method ParseOne(record: Record) returns (r: Result<seq<Record>, FatError>)
      requires Represents(v, image, g)
      modifies this`owners, this`stack
      ensures
        match ParseRecord(v, record, old(owners), old(stack))
        case None => r.Err?
        case Some(p) => r == Ok(p.records) && owners == p.owners && stack == old(stack)
      decreases |Free(v, stack)|, 1
    {
      hide ParseDirectory;
      if record.IsDot() {
        return Ok([]);
      }
      if record.IsDirectory() {
        if record.first < 2 {
          return Err(DirectoryWithoutCluster);
        }
        r := Parse(record.first, record.path);
      } else {
        var error := ParseFile(record);
        r := if error.Some? then Err(error.value) else Ok([]);
      }
    }

    /** Check one file's chain against its size and charge it. */
    method ParseFile(record: Record) returns (error: Option<FatError>)
      requires Represents(v, image, g) && !record.IsDot() && !record.IsDirectory()
      modifies this`owners
      ensures
        match ParseRecord(v, record, old(owners), stack)
        case None => error.Some?
        case Some(p) => error.None? && owners == p.owners
    {
      var walked := WalkChain(image, g, record.first, v);
      if walked.Err? {
        return Some(walked.error);
      }
      var chain := walked.value;
      var size := ClusterBytes(g);
      if |chain| != (record.size + size - 1) / size || record.size > |chain| * size {
        return Some(SizeMismatch);
      }
      var ok := ClaimAll(chain, record.path);
      return if ok then None else Some(CrossLinked);
    }

    method ClaimAll(chain: seq<nat>, path: Text) returns (ok: bool)
      modifies this`owners
      ensures
        match Claim(old(owners), chain, path)
        case None => !ok
        case Some(claimed) => ok && owners == claimed
    {
      var k := 0;
      while k < |chain|
        invariant 0 <= k <= |chain|
        invariant Claiming(old(owners), owners, chain, k, path)
      {
        ClaimStep(old(owners), owners, chain, chain, k, path);
        ok := ClaimOne(chain[k], path);
        if !ok {
          return;
        }
        k := k + 1;
      }
      ClaimDone(old(owners), owners, chain, k, path);
      assert chain[..k] == chain;
      return true;
    }
  }

  /** The first `k` clusters of a chain have been charged without a conflict. */
  ghost predicate Claiming(start: Owners, now: Owners, chain: seq<nat>, k: nat, path: Text)
    requires k <= |chain|
  {
    && now == Charge(start, chain[..k], path)
    && forall i :: 0 <= i < k ==> chain[i] in start ==> start[chain[i]] == path
  }

  lemma ClaimStart(start: Owners, chain: seq<nat>, path: Text)
    ensures Claiming(start, start, chain, 0, path)
  {
  }

  lemma ScanNothing(v: Volume, path: Text, parent: nat, scan: Scan)
    requires Valid(v)
    ensures ScanChain(v, [], path, parent, scan).None?
  {
  }

  lemma ClaimStep(
    start: Owners, now: Owners, chain: seq<nat>, claims: seq<nat>, k: nat, path: Text)
    requires k < |chain| && Claiming(start, now, chain, k, path)
    requires k < |claims| && claims[k] == chain[k]
    ensures
      if chain[k] in now && now[chain[k]] != path then Claim(start, claims, path).None?
      else Claiming(start, now[chain[k] := path], chain, k + 1, path)
  {
    assert chain[..k + 1] == chain[..k] + [chain[k]];
    if chain[k] in now && now[chain[k]] != path {
      assert chain[k] in start && start[chain[k]] != path;
    } else {
      assert now[chain[k] := path] == Charge(start, chain[..k + 1], path);
    }
  }

  lemma ClaimDone(start: Owners, now: Owners, chain: seq<nat>, k: nat, path: Text)
    requires k <= |chain| && Claiming(start, now, chain, k, path)
    ensures Claim(start, chain[..k], path) == Some(now)
  {
  }

  lemma {:induction false} ScanStep(v: Volume, rest: seq<nat>, path: Text, parent: nat, scan: Scan)
    requires Valid(v) && rest != [] && forall i :: 0 <= i < |rest| ==> InRange(v.fat, rest[i])
    ensures
      match ScanCluster(v.clusters[rest[0]], 0, OffsetOf(v, rest[0]), path, parent, scan)
      case None => ScanChain(v, rest, path, parent, scan).None?
      case Some(s) =>
        ScanChain(v, rest, path, parent, scan) ==
        if s.ended then Some(s.records) else ScanChain(v, rest[1..], path, parent, s)
  {
  }

  lemma {:induction false} EndMarkerStep(v: Volume, chain: seq<nat>, k: nat)
    requires Valid(v) && k < |chain| && forall i :: 0 <= i < |chain| ==> InRange(v.fat, chain[i])
    requires ToEndMarker(v, chain) == chain[..k] + ToEndMarker(v, chain[k..])
    ensures ToEndMarker(v, chain) ==
            if HasEndMarker(v.clusters[chain[k]]) then chain[..k + 1]
            else chain[..k + 1] + ToEndMarker(v, chain[k + 1..])
  {
    assert chain[k..][1..] == chain[k + 1..];
    assert chain[..k + 1] == chain[..k] + [chain[k]];
  }

  // ---------------------------------------------------------------------------------------------
  // The whole image

  datatype FsInfo = FsInfo(freeHint: nat, nextHint: nat)

  function SectorAt(image: seq<byte>, g: Geometry, sector: nat): (r: seq<byte>)
    requires Fits(g, |image|) && sector < g.total
    ensures SECTOR_BYTES <= |r| == g.bytesPerSector
  {
    SectorSpan(g, |image|, sector, 1);
    image[sector * g.bytesPerSector..sector * g.bytesPerSector + g.bytesPerSector]
  }

  function ParseFsInfo(image: seq<byte>, g: Geometry): (r: Result<FsInfo, FatError>)
    requires Fits(g, |image|)
  {
    FsInfoSectorExists(g, |image|);
    var info := SectorAt(image, g, g.fsinfoSector);
    if U32(info, 0) != 0x4161_5252 || U32(info, 484) != 0x6141_7272 || U32(info, 508) != 0xAA55_0000 then
      Err(FsInfoSignature)
    else
      var free, next := U32(info, 488), U32(info, 492);
      if (free == UNKNOWN || free <= g.clusterCount) && (next == UNKNOWN || 2 <= next <= g.maximum) then
        Ok(FsInfo(free, next))
      else Err(FsInfoHint)
  }

  lemma FsInfoSectorExists(g: Geometry, length: nat)
    requires Fits(g, length)
    ensures g.fsinfoSector < g.total
  {
    MulOrder(0, g.clusterCount, g.sectorsPerCluster);
  }

  predicate FatsMatch(image: seq<byte>, g: Geometry)
    requires Fits(g, |image|)
  {
    FatSpan(g, |image|, 0);
    FatSpan(g, |image|, 1);
    var length, first, second :=
      g.fatSectors * g.bytesPerSector, g.firstFat * g.bytesPerSector, (g.firstFat + g.fatSectors) * g.bytesPerSector;
    image[first..first + length] == image[second..second + length]
  }

  datatype Report = Report(geometry: Geometry, free: int, used: nat, records: seq<Record>)

  /** The report on an image of known geometry; `None` is a refusal. */
  ghost function InspectedWith(image: seq<byte>, g: Geometry): (r: Option<Report>)
    requires Fits(g, |image|)
  {
    ViewRepresents(image, g);
    ReportOn(View(image, g), g, ParseFsInfo(image, g), FatsMatch(image, g))
  }

  ghost function ReportOn(v: Volume, g: Geometry, info: Result<FsInfo, FatError>, matching: bool): (r: Option<Report>)
    requires Valid(v)
  {
    if info.Err? || !matching || v.fat[0] != MEDIA_ENTRY || v.fat[1] < EOC_MIN then None
    else if !Ownership.Accepts(v, g.rootCluster) then None
    else
      var used := |Ownership.Allocated(v)|;
      var free := g.clusterCount - used;
      if info.value.freeHint != UNKNOWN && info.value.freeHint != free then None
      else Some(Report(g, free, used, Ownership.Tree(v, g.rootCluster).records))
  }

  ghost function Inspected(image: seq<byte>): (r: Option<Report>) {
    match ParseGeometry(image)
    case Err(_) => None
    case Ok(g) =>
      AcceptedGeometryFits(image);
      InspectedWith(image, g)
  }

  ghost function AllocatedBelow(v: Volume, c: nat): (s: set<nat>) {
    set a: nat | a in Interval(2, c) && a < |v.fat| && v.fat[a] != 0
  }

  lemma AllocatedStep(v: Volume, c: nat)
    requires 2 <= c < |v.fat|
    ensures AllocatedBelow(v, c + 1) == AllocatedBelow(v, c) + (if v.fat[c] != 0 then {c} else {})
    ensures c !in AllocatedBelow(v, c)
  {
  }

  /** Count the nonzero entries and look for one nobody owns. */
  method CountAllocated(image: seq<byte>, g: Geometry, owners: Owners, ghost v: Volume)
    returns (used: nat, leaked: bool)
    requires Represents(v, image, g)
    ensures used == |Ownership.Allocated(v)|
    ensures leaked <==> exists a :: a in Ownership.Allocated(v) && a !in owners
  {
    hide AllocatedBelow, Ownership.Allocated;
    used, leaked := 0, false;
    var c := 2;
    NothingAllocated(v);
    while c <= g.maximum
      invariant 2 <= c <= g.maximum + 1
      invariant used == |AllocatedBelow(v, c)|
      invariant leaked <==> exists a :: a in AllocatedBelow(v, c) && a !in owners
    {
      var value := ReadFat(image, g, c, v);
      AllocatedStep(v, c);
      if value != 0 {
        used := used + 1;
        if c !in owners {
          leaked := true;
        }
      }
      c := c + 1;
    }
    AllAllocated(v, c);
  }

  lemma NothingAllocated(v: Volume)
    ensures AllocatedBelow(v, 2) == {}
  {
  }

  lemma AllAllocated(v: Volume, c: nat)
    requires c == |v.fat|
    ensures AllocatedBelow(v, c) == Ownership.Allocated(v)
  {
  }

  /** The checks on table and tree, once the headers have been read. */
  method InspectTree(image: seq<byte>, g: Geometry, info: FsInfo, ghost v: Volume) returns (r: Result<Report, FatError>)
    requires Represents(v, image, g)
    ensures
      match ReportOn(v, g, Ok(info), true)
      case None => r.Err?
      case Some(report) => r == Ok(report)
  {
    hide ParseDirectory;
    var media := ReadFat(image, g, 0, v);
    if media != MEDIA_ENTRY {
      return Err(MediaEntry);
    }
    var one := ReadFat(image, g, 1, v);
    if one < EOC_MIN {
      return Err(ReservedEntry);
    }
    var inspector := new Inspector(image, g, v);
    var records := inspector.Parse(g.rootCluster, [SLASH]);
    if records.Err? {
      return Err(records.error);
    }
    var used, leaked := CountAllocated(image, g, inspector.owners, v);
    if leaked {
      return Err(Leaked);
    }
    var free := g.clusterCount - used;
    if info.freeHint != UNKNOWN && info.freeHint != free {
      return Err(FreeCountWrong);
    }
    return Ok(Report(g, free, used, records.value));
  }

  method InspectWith(image: seq<byte>, g: Geometry) returns (r: Result<Report, FatError>)
    requires Fits(g, |image|)
    ensures
      match InspectedWith(image, g)
      case None => r.Err?
      case Some(report) => r == Ok(report)
  {
    hide View, ParseFsInfo, FatsMatch, ParseDirectory;
    ViewRepresents(image, g);
    var info := ParseFsInfo(image, g);
    if info.Err? {
      return Err(info.error);
    }
    if !FatsMatch(image, g) {
      return Err(FatCopiesDiffer);
    }
    r := InspectTree(image, g, info.value, View(image, g));
  }

  method Inspect(image: seq<byte>) returns (r: Result<Report, FatError>)
    ensures
      match Inspected(image)
      case None => r.Err?
      case Some(report) => r == Ok(report)
  {
    var parsed := ParseGeometry(image);
    if parsed.Err? {
      return Err(parsed.error);
    }
    AcceptedGeometryFits(image);
    r := InspectWith(image, parsed.value);
  }
}
