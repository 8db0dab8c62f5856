/** What reading a directory yields, stated on the flat list of its 32-byte entries. */
module FatEntries {
  import opened Bytes
  import opened ShortNames
  import opened FatChain
  import opened FatGeometry
  import opened FatDirectory

  /** An entry and its image address. */
  datatype Slot = Slot(bytes: seq<byte>, address: nat)

  /** The whole entries of a cluster, in order. */
  ghost function ClusterSlots(raw: seq<byte>, base: nat): (r: seq<Slot>)
    ensures |r| == |raw| / 32
    ensures forall k :: 0 <= k < |r| ==> r[k] == Slot(raw[32 * k..32 * k + 32], base + 32 * k)
  {
    seq(|raw| / 32, k requires 0 <= k < |raw| / 32 => Slot(raw[32 * k..32 * k + 32], base + 32 * k))
  }

  /** The entries of a chain of clusters. */
  ghost function Slots(v: Volume, chain: seq<nat>): (r: seq<Slot>)
    requires Valid(v) && forall i :: 0 <= i < |chain| ==> InRange(v.fat, chain[i])
    ensures forall k :: 0 <= k < |r| ==> |r[k].bytes| == 32
  {
    if chain == [] then [] else ClusterSlots(v.clusters[chain[0]], OffsetOf(v, chain[0])) + Slots(v, chain[1..])
  }

  predicate IsEnd(e: seq<byte>)
    requires |e| == 32
  {
    e[0] == 0
  }

  predicate IsDeleted(e: seq<byte>)
    requires |e| == 32
  {
    e[0] == 0xE5
  }

  predicate IsLong(e: seq<byte>)
    requires |e| == 32
  {
    !IsEnd(e) && !IsDeleted(e) && e[11] == 0x0F
  }

  /** An entry that names a file or a directory. */
  predicate IsNamed(e: seq<byte>)
    requires |e| == 32
  {
    !IsEnd(e) && !IsDeleted(e) && !IsLong(e) && e[11] / 8 % 2 == 0
  }

  /** A long-name entry in order: its sequence number, its zero fields and its 13 characters. */
  predicate LongOk(e: seq<byte>)
    requires |e| == 32
  {
    && 1 <= e[0] % 32 <= 20 && e[12] == 0 && U16(e, 26) == 0
    && CharOk(U16(e, 1)) && CharOk(U16(e, 3)) && CharOk(U16(e, 5)) && CharOk(U16(e, 7)) && CharOk(U16(e, 9))
    && CharOk(U16(e, 14)) && CharOk(U16(e, 16)) && CharOk(U16(e, 18)) && CharOk(U16(e, 20)) && CharOk(U16(e, 22))
    && CharOk(U16(e, 24)) && CharOk(U16(e, 28)) && CharOk(U16(e, 30))
  }

  /** Padding or printable ASCII. */
  predicate CharOk(c: nat) {
    c in {0, 0xFFFF} || 0x20 <= c <= 0x7E
  }

  ghost predicate Sized(s: seq<Slot>) {
    forall k :: 0 <= k < |s| ==> |s[k].bytes| == 32
  }

  predicate AfterLong(s: seq<Slot>, i: nat)
    requires i <= |s| && (0 < i ==> |s[i - 1].bytes| == 32)
  {
    0 < i && IsLong(s[i - 1].bytes)
  }

  /** The inspector has no objection to entry `i`: a deleted entry is skipped, a long-name entry is in
      order, and any other does not follow a long-name entry and has a readable name or is a label. */
  ghost predicate SlotOk(s: seq<Slot>, i: nat)
    requires Sized(s) && i < |s|
  {
    var e := s[i].bytes;
    IsDeleted(e) || if IsLong(e) then LongOk(e) else !AfterLong(s, i) && (IsNamed(e) ==> NameText(e[..11]).Some?)
  }

  /** The record of a named entry. */
  function RecordOf(slot: Slot, path: Text, parent: nat): (r: Record)
    requires |slot.bytes| == 32
  {
    var e := slot.bytes;
    var text := if NameText(e[..11]).Some? then NameText(e[..11]).value else [];
    Record(ChildPath(path, text), e[..11], e[11], U16(e, 20) * 0x1_0000 + U16(e, 26), U32(e, 28), slot.address, parent)
  }

  /** The records of the named ones among the first `n` entries. */
  ghost function Listed(s: seq<Slot>, n: nat, path: Text, parent: nat): (r: seq<Record>)
    requires Sized(s) && n <= |s|
  {
    if n == 0 then [] else
    Listed(s, n - 1, path, parent) + if IsNamed(s[n - 1].bytes) then [RecordOf(s[n - 1], path, parent)] else []
  }

  /** The first `n` entries are neither an end marker nor objectionable. */
  ghost predicate Clean(s: seq<Slot>, n: nat)
    requires Sized(s) && n <= |s|
  {
    forall i :: 0 <= i < n ==> !IsEnd(s[i].bytes) && SlotOk(s, i)
  }

  /** The directory is clean up to its first end marker, entry `n`. */
  ghost predicate EndsAt(s: seq<Slot>, n: nat)
    requires Sized(s)
  {
    n < |s| && IsEnd(s[n].bytes) && Clean(s, n)
  }

  // ---------------------------------------------------------------------------------------------
  // The scan

  lemma {:induction false} LongNameUnitsIff(e: seq<byte>, indices: seq<nat>)
    ensures LongNameUnits(e, indices) <==>
      forall k :: 0 <= k < |indices| ==> indices[k] + 2 <= |e| && LongNameUnit(U16(e, indices[k]))
  {
    if indices != [] {
      LongNameUnitsIff(e, indices[1..]);
      assert indices == [indices[0]] + indices[1..];
    }
  }

  lemma LongNameIff(e: seq<byte>)
    requires |e| == 32
    ensures LongOk(e) <==> 1 <= e[0] % 32 <= 20 && e[12] == 0 && U16(e, 26) == 0 && LongNameUnits(e, LONG_NAME_INDICES)
  {
    hide U16;
    var at := LONG_NAME_INDICES;
    LongNameUnitsIff(e, at);
    assert at[0] == 1 && at[1] == 3 && at[2] == 5 && at[3] == 7 && at[4] == 9 && at[5] == 14 && at[6] == 16;
    assert at[7] == 18 && at[8] == 20 && at[9] == 22 && at[10] == 24 && at[11] == 28 && at[12] == 30;
  }

  /** The scan after the first `i` entries, all clean. */
  ghost function ScanAt(s: seq<Slot>, i: nat, path: Text, parent: nat): (r: Scan)
    requires Sized(s) && i <= |s|
  {
    Scan(Listed(s, i, path, parent), AfterLong(s, i), false)
  }

  lemma ClassifyIs(s: seq<Slot>, i: nat, path: Text, parent: nat)
    requires Sized(s) && i < |s| && Clean(s, i)
    ensures
      var kind := Classify(s[i].bytes, AfterLong(s, i), path, s[i].address, parent);
      && (kind.End? <==> IsEnd(s[i].bytes))
      && (!kind.End? ==> (kind.Refused? <==> !SlotOk(s, i)))
      && (!kind.End? && !kind.Refused? ==>
            Clean(s, i + 1) && Advance(ScanAt(s, i, path, parent), kind) == ScanAt(s, i + 1, path, parent))
  {
    hide LongNameUnits, U16, U32, NameText, ChildPath, LongOk;
    LongNameIff(s[i].bytes);
  }

  /** An end marker among entries `lo` to `hi`, all clean before it, ends the scan with `records`. */
  ghost predicate EndsIn(s: seq<Slot>, lo: nat, hi: nat, path: Text, parent: nat, records: seq<Record>)
    requires Sized(s) && hi <= |s|
  {
    exists n :: lo <= n < hi && EndsAt(s, n) && records == Listed(s, n, path, parent)
  }

  /** Entry `lo` to `hi` holds one that is refused, all clean before it. */
  ghost predicate FailsIn(s: seq<Slot>, lo: nat, hi: nat)
    requires Sized(s) && hi <= |s|
  {
    exists n :: lo <= n < hi && Clean(s, n) && !IsEnd(s[n].bytes) && !SlotOk(s, n)
  }

  lemma WiderRange(s: seq<Slot>, lo: nat, hi: nat, lo': nat, hi': nat, path: Text, parent: nat, records: seq<Record>)
    requires Sized(s) && lo' <= lo && hi <= hi' <= |s|
    ensures EndsIn(s, lo, hi, path, parent, records) ==> EndsIn(s, lo', hi', path, parent, records)
    ensures FailsIn(s, lo, hi) ==> FailsIn(s, lo', hi')
  {
    hide EndsAt, Listed, Clean, SlotOk;
  }

  /** `result` is what scanning entries `lo` to `hi` gives from a clean start. */
  ghost predicate Outcome(s: seq<Slot>, lo: nat, hi: nat, path: Text, parent: nat, result: Option<Scan>)
    requires Sized(s) && lo <= hi <= |s|
  {
    match result
    case Some(scan) =>
      if scan.ended then EndsIn(s, lo, hi, path, parent, scan.records)
      else Clean(s, hi) && scan == ScanAt(s, hi, path, parent)
    case None => FailsIn(s, lo, hi)
  }

  lemma {:induction false} ClusterScan(
    s: seq<Slot>, at: nat, raw: seq<byte>, k: nat, base: nat, path: Text, parent: nat)
    requires Sized(s) && |raw| % 32 == 0 && k <= |raw| / 32 && at + |raw| / 32 <= |s|
    requires s[at..at + |raw| / 32] == ClusterSlots(raw, base) && Clean(s, at + k)
    ensures Outcome(s, at + k, at + |raw| / 32, path, parent,
                    ScanCluster(raw, 32 * k, base, path, parent, ScanAt(s, at + k, path, parent)))
    decreases |raw| / 32 - k
  {
    hide Classify, SlotOk, Listed, Advance, ScanAt;
    ScanAtIs(s, at + k, path, parent);
    if k < |raw| / 32 {
      var i := at + k;
      assert s[i] == s[at..at + |raw| / 32][k] == Slot(raw[32 * k..32 * k + 32], base + 32 * k);
      ClassifyIs(s, i, path, parent);
      if !IsEnd(s[i].bytes) && SlotOk(s, i) {
        ClusterScan(s, at, raw, k + 1, base, path, parent);
        var scanned := ScanCluster(raw, 32 * k, base, path, parent, ScanAt(s, i, path, parent));
        WiderRange(s, i + 1, at + |raw| / 32, i, at + |raw| / 32, path, parent, if scanned.Some? then scanned.value.records else []);
      }
    }
  }

  lemma ScanAtIs(s: seq<Slot>, i: nat, path: Text, parent: nat)
    requires Sized(s) && i <= |s|
    ensures ScanAt(s, i, path, parent) == Scan(Listed(s, i, path, parent), AfterLong(s, i), false)
  {
  }

  lemma {:induction false} ChainScan(
    v: Volume, s: seq<Slot>, at: nat, chain: seq<nat>, path: Text, parent: nat)
    requires Valid(v) && forall i :: 0 <= i < |chain| ==> InRange(v.fat, chain[i])
    requires Sized(s) && at <= |s| && s[at..] == Slots(v, chain) && Clean(s, at)
    ensures
      match ScanChain(v, chain, path, parent, ScanAt(s, at, path, parent))
      case Some(records) => EndsIn(s, at, |s|, path, parent, records)
      case None => Clean(s, |s|) || FailsIn(s, at, |s|)
    decreases |chain|
  {
    hide SlotOk, Listed, ScanAt, ScanCluster, OffsetOf, ClusterSlots, EndsIn, FailsIn, Clean, EndsAt;
    if chain == [] {
      assert at == |s|;
    } else {
      var raw, base := v.clusters[chain[0]], OffsetOf(v, chain[0]);
      var hi := at + |raw| / 32;
      SplitSlots(s, at, ClusterSlots(raw, base), Slots(v, chain[1..]));
      CleanStart(s, at);
      ClusterScan(s, at, raw, 0, base, path, parent);
      ScanAtIs(s, hi, path, parent);
      var scanned := ScanCluster(raw, 0, base, path, parent, ScanAt(s, at, path, parent));
      if scanned.Some? && !scanned.value.ended {
        ChainScan(v, s, hi, chain[1..], path, parent);
        var rest := ScanChain(v, chain[1..], path, parent, scanned.value);
        WiderRange(s, hi, |s|, at, |s|, path, parent, if rest.Some? then rest.value else []);
      } else {
        WiderRange(s, at, hi, at, |s|, path, parent, if scanned.Some? then scanned.value.records else []);
      }
    }
  }

  lemma SplitSlots(s: seq<Slot>, at: nat, front: seq<Slot>, rest: seq<Slot>)
    requires at <= |s| && s[at..] == front + rest
    ensures at + |front| <= |s| && s[at..at + |front|] == front && s[at + |front|..] == rest
  {
    assert s[at..at + |front|] == s[at..][..|front|] && s[at + |front|..] == s[at..][|front|..];
  }

  lemma CleanStart(s: seq<Slot>, at: nat)
    requires Sized(s) && at <= |s| && Clean(s, at)
    ensures Clean(s, at + 0)
  {
  }

  /** A directory is read with exactly these records if and only if its chain is well formed, an entry
      of it is an end marker, nothing before the first one is objectionable, and the records are those
      of the named entries before it, in order. */
  lemma DirectoryReadsIff(v: Volume, cluster: nat, path: Text, records: seq<Record>)
    requires Valid(v)
    ensures ReadDirectory(v, cluster, path) == Some(records) <==>
      && Walk(v.fat, cluster).Some?
      && exists n :: EndsAt(Slots(v, ChainOf(v, cluster)), n) && records == Listed(Slots(v, ChainOf(v, cluster)), n, path, cluster)
  {
    hide SlotOk, Listed, ScanChain, Walk;
    var s := Slots(v, ChainOf(v, cluster));
    if Walk(v.fat, cluster).Some? {
      assert s[0..] == s && ScanAt(s, 0, path, cluster) == START by {
        NothingListed(s, path, cluster);
      }
      ChainScan(v, s, 0, ChainOf(v, cluster), path, cluster);
    }
  }

  lemma NothingListed(s: seq<Slot>, path: Text, parent: nat)
    requires Sized(s)
    ensures Listed(s, 0, path, parent) == []
  {
  }
}
