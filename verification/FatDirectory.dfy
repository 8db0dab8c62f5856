/** A volume as its table and its clusters, and what a directory tree in it means. */
module FatDirectory {
  import opened Bytes
  import opened ShortNames
  import opened FatChain
  import opened FatGeometry

  /** `clusters[c]` holds the bytes of cluster `c`; indices 0 and 1 are unused. */
  datatype Volume = Volume(fat: seq<nat>, clusterBytes: nat, dataOffset: nat, clusters: seq<seq<byte>>)

  ghost predicate Valid(v: Volume) {
    && 2 < |v.fat| <= MAX_CLUSTER + 1
    && |v.clusters| == |v.fat|
    && 0 < v.clusterBytes && v.clusterBytes % 32 == 0
    && (forall c: nat :: InRange(v.fat, c) ==> |v.clusters[c]| == v.clusterBytes)
  }

  datatype Record = Record(
    path: Text, name: Text, attributes: byte, first: nat, size: nat, offset: nat, parent: nat)
  {
    predicate IsDirectory() {
      attributes / 0x10 % 2 == 1
    }

    predicate IsDot() {
      name == DOT || name == DOTDOT
    }
  }

  type Owners = map<nat, Text>

  // ---------------------------------------------------------------------------------------------
  // One directory

  datatype EntryKind = End | Deleted | LongName | VolumeLabel | Named(record: Record) | Refused(error: FatError)

  const LONG_NAME_INDICES: seq<nat> := [1, 3, 5, 7, 9, 14, 16, 18, 20, 22, 24, 28, 30]

  predicate LongNameUnit(unit: nat) {
    unit == 0 || unit == 0xFFFF || 0x20 <= unit <= 0x7E
  }

  predicate LongNameUnits(entry: seq<byte>, indices: seq<nat>) {
    indices == [] ||
    (indices[0] + 2 <= |entry| && LongNameUnit(U16(entry, indices[0])) && LongNameUnits(entry, indices[1..]))
  }

  function Classify(entry: seq<byte>, pending: bool, path: Text, offset: nat, parent: nat): (k: EntryKind)
    requires |entry| == 32
    ensures k.End? <==> entry[0] == 0
  {
    var attributes := entry[11];
    if entry[0] == 0 then End
    else if entry[0] == 0xE5 then Deleted
    else if attributes == 0x0F then
      var sequence := entry[0] % 0x20;
      if sequence == 0 || sequence > 20 || entry[12] != 0 || U16(entry, 26) != 0 then Refused(LongNameMalformed)
      else if !LongNameUnits(entry, LONG_NAME_INDICES) then Refused(LongNameText)
      else LongName
    else if pending then Refused(LongNameUnsupported)
    else if attributes / 0x08 % 2 == 1 then VolumeLabel
    else
      var text := NameText(entry[..11]);
      if text.None? then Refused(NameInvalid)
      else Named(Record(ChildPath(path, text.value), entry[..11], attributes,
                        U16(entry, 20) * 0x1_0000 + U16(entry, 26), U32(entry, 28), offset, parent))
  }

  /** The records seen so far, whether a long name is open, and whether the end marker was met. */
  datatype Scan = Scan(records: seq<Record>, pending: bool, ended: bool)

  /** The scan after one entry that neither ends nor refuses it. */
  function Advance(scan: Scan, kind: EntryKind): (r: Scan) {
    match kind
    case Deleted => scan.(pending := false)
    case LongName => scan.(pending := true)
    case Named(record) => scan.(records := scan.records + [record])
    case _ => scan
  }

  /** Entries of one cluster from byte `o` on; `base` is the cluster's image address. */
  function ScanCluster(raw: seq<byte>, o: nat, base: nat, path: Text, parent: nat, scan: Scan): (r: Option<Scan>)
    decreases |raw| - o
  {
    if o + 32 > |raw| then Some(scan) else
    var kind := Classify(raw[o..o + 32], scan.pending, path, base + o, parent);
    if kind.End? then Some(scan.(ended := true))
    else if kind.Refused? then None
    else ScanCluster(raw, o + 32, base, path, parent, Advance(scan, kind))
  }

  function OffsetOf(v: Volume, c: nat): (r: nat)
    requires 2 <= c
  {
    v.dataOffset + (c - 2) * v.clusterBytes
  }

  /** Entries of a whole directory chain, up to its end marker. */
  ghost function ScanChain(v: Volume, chain: seq<nat>, path: Text, parent: nat, scan: Scan): (r: Option<seq<Record>>)
    requires Valid(v) && forall i :: 0 <= i < |chain| ==> InRange(v.fat, chain[i])
  {
    if chain == [] then None else
    match ScanCluster(v.clusters[chain[0]], 0, OffsetOf(v, chain[0]), path, parent, scan)
    case None => None
    case Some(s) => if s.ended then Some(s.records) else ScanChain(v, chain[1..], path, parent, s)
  }

  const START := Scan([], false, false)

  /** Some entry from byte `o` on opens with a zero byte. */
  ghost predicate HasMarkerFrom(raw: seq<byte>, o: nat)
    decreases |raw| - o
  {
    o + 32 <= |raw| && (raw[o] == 0 || HasMarkerFrom(raw, o + 32))
  }

  ghost predicate HasEndMarker(raw: seq<byte>) {
    HasMarkerFrom(raw, 0)
  }

  /** The part of a directory chain the inspector reads: up to the first end marker. */
  ghost function ToEndMarker(v: Volume, chain: seq<nat>): (r: seq<nat>)
    requires Valid(v) && forall i :: 0 <= i < |chain| ==> InRange(v.fat, chain[i])
    ensures r <= chain
  {
    if chain == [] then []
    else if HasEndMarker(v.clusters[chain[0]]) then [chain[0]]
    else [chain[0]] + ToEndMarker(v, chain[1..])
  }

  /** The clusters a first-cluster field denotes; none when the chain is malformed. */
  ghost function ChainOf(v: Volume, first: nat): (r: seq<nat>)
    ensures forall i :: 0 <= i < |r| ==> InRange(v.fat, r[i])
  {
    match Walk(v.fat, first)
    case None => []
    case Some(chain) => chain
  }

  /** A chain starts at the cluster it is named by and never repeats one. */
  lemma ChainFacts(v: Volume, first: nat)
    ensures NoDuplicates(ChainOf(v, first))
    ensures ChainOf(v, first) != [] ==> IsChain(v.fat, first, ChainOf(v, first))
  {
    if first != 0 && Walk(v.fat, first).Some? {
      WalkIsChain(v.fat, first);
    }
  }

  /** The clusters the inspector charges to a record. */
  ghost function Held(v: Volume, r: Record): (cs: seq<nat>)
    requires Valid(v)
    ensures cs <= ChainOf(v, r.first)
  {
    if r.IsDirectory() then ToEndMarker(v, ChainOf(v, r.first)) else ChainOf(v, r.first)
  }

  ghost function ReadDirectory(v: Volume, cluster: nat, path: Text): (r: Option<seq<Record>>)
    requires Valid(v)
    ensures r.Some? ==> Walk(v.fat, cluster).Some? && ChainOf(v, cluster) != []
  {
    if Walk(v.fat, cluster).None? then None
    else ScanChain(v, ChainOf(v, cluster), path, cluster, START)
  }

  // ---------------------------------------------------------------------------------------------
  // The tree

  ghost function Charge(owners: Owners, cs: seq<nat>, path: Text): (r: Owners) {
    owners + map c | c in cs :: path
  }

  /** Charge clusters to a path; refused when one already belongs to a different path. */
  ghost function Claim(owners: Owners, cs: seq<nat>, path: Text): (r: Option<Owners>) {
    if exists i :: 0 <= i < |cs| && cs[i] in owners && owners[cs[i]] != path then None
    else Some(Charge(owners, cs, path))
  }

  datatype Parsed = Parsed(records: seq<Record>, owners: Owners)

  ghost function Free(v: Volume, stack: set<nat>): set<nat> {
    (set c: nat | c in Interval(2, |v.fat|)) - stack
  }

  ghost predicate SizeFits(v: Volume, r: Record, count: nat)
    requires 0 < v.clusterBytes
  {
    && count == (r.size + v.clusterBytes - 1) / v.clusterBytes
    && r.size <= count * v.clusterBytes
  }

  /** What inspecting the directory at `cluster` yields; `None` is a refusal. The measure is the
      number of in-range clusters not on the stack, so cyclic graphs terminate too. */
  ghost function ParseDirectory(v: Volume, cluster: nat, path: Text, owners: Owners, stack: set<nat>)
    : (r: Option<Parsed>)
    requires Valid(v)
    decreases |Free(v, stack)|, 0, 0
  {
    if cluster in stack || ReadDirectory(v, cluster, path).None? then None else
    var records := ReadDirectory(v, cluster, path).value;
    var claimed := Claim(owners, ToEndMarker(v, ChainOf(v, cluster)), path);
    if claimed.None? then None else
    DeeperStack(v, cluster, stack);
    match ParseRecords(v, records, {}, claimed.value, stack + {cluster})
    case None => None
    case Some(below) => Some(Parsed(records + below.records, below.owners))
  }

  ghost function ParseRecords(v: Volume, records: seq<Record>, folded: set<Text>, owners: Owners, stack: set<nat>)
    : (r: Option<Parsed>)
    requires Valid(v)
    decreases |Free(v, stack)|, |records|
  {
    if records == [] then Some(Parsed([], owners)) else
    var r, key := records[0], Upper(records[0].name);
    if key in folded then None
    else
      var below := ParseRecord(v, r, owners, stack);
      if below.None? then None else
      match ParseRecords(v, records[1..], folded + {key}, below.value.owners, stack)
      case None => None
      case Some(rest) => Some(Parsed(below.value.records + rest.records, rest.owners))
  }

  ghost function ParseRecord(v: Volume, r: Record, owners: Owners, stack: set<nat>): (p: Option<Parsed>)
    requires Valid(v)
    decreases |Free(v, stack)|, 0, 1
  {
    if r.IsDot() then Some(Parsed([], owners))
    else if r.IsDirectory() then
      if r.first < 2 then None else ParseDirectory(v, r.first, r.path, owners, stack)
    else if Walk(v.fat, r.first).None? || !SizeFits(v, r, |ChainOf(v, r.first)|) then None
    else
      match Claim(owners, ChainOf(v, r.first), r.path)
      case None => None
      case Some(claimed) => Some(Parsed([], claimed))
  }

  /** A directory that can be read starts in range, so stacking it leaves fewer free clusters. */
  lemma DeeperStack(v: Volume, cluster: nat, stack: set<nat>)
    requires Valid(v) && cluster !in stack && ChainOf(v, cluster) != []
    ensures InRange(v.fat, cluster)
    ensures |Free(v, stack + {cluster})| < |Free(v, stack)|
  {
    ChainFacts(v, cluster);
    assert InRange(v.fat, ChainOf(v, cluster)[0]);
    SubsetSize(Free(v, stack + {cluster}), Free(v, stack));
    assert cluster in Free(v, stack);
  }
}
