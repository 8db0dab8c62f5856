/** What acceptance by the directory walk guarantees about the whole volume. */
module FatSoundness {
  import opened Bytes
  import opened ShortNames
  import opened FatChain
  import opened FatGeometry
  import opened FatDirectory

  ghost predicate Extends(a: Owners, b: Owners) {
    forall c :: c in a ==> c in b && b[c] == a[c]
  }

  ghost predicate Charged(cs: seq<nat>, path: Text, owners: Owners) {
    forall i :: 0 <= i < |cs| ==> cs[i] in owners && owners[cs[i]] == path
  }

  /** A listed record is a dot entry, or its chain is well formed, fits its size and is charged to it. */
  ghost predicate RecordSound(v: Volume, r: Record, owners: Owners)
    requires Valid(v)
  {
    r.IsDot() ||
    (&& Walk(v.fat, r.first).Some?
     && Charged(Held(v, r), r.path, owners)
     && (if r.IsDirectory() then 2 <= r.first && ReadDirectory(v, r.first, r.path).Some?
         else SizeFits(v, r, |ChainOf(v, r.first)|)))
  }

  ghost predicate RecordsSound(v: Volume, records: seq<Record>, owners: Owners)
    requires Valid(v)
  {
    forall r :: r in records ==> RecordSound(v, r, owners)
  }

  ghost predicate Explained(v: Volume, c: nat, records: seq<Record>)
    requires Valid(v)
  {
    exists r :: r in records && !r.IsDot() && c in Held(v, r)
  }

  ghost predicate NewExplained(v: Volume, before: Owners, after: Owners, records: seq<Record>)
    requires Valid(v)
  {
    forall c :: c in after && c !in before ==> Explained(v, c, records)
  }

  lemma SoundIsMonotone(v: Volume, records: seq<Record>, a: Owners, b: Owners)
    requires Valid(v) && RecordsSound(v, records, a) && Extends(a, b)
    ensures RecordsSound(v, records, b)
  {
    forall r | r in records ensures RecordSound(v, r, b) {
      assert RecordSound(v, r, a);
    }
  }

  /** Soundness and explanation depend only on which records are listed. */
  lemma Merge(
    v: Volume, p: seq<Record>, q: seq<Record>, all: seq<Record>, before: Owners, middle: Owners, after: Owners)
    requires Valid(v) && forall r :: r in all <==> r in p || r in q
    requires RecordsSound(v, p, after) && RecordsSound(v, q, after)
    requires NewExplained(v, before, middle, p) && NewExplained(v, middle, after, q)
    ensures RecordsSound(v, all, after) && NewExplained(v, before, after, all)
  {
    forall c | c in after && c !in before ensures Explained(v, c, all) {
      if c in middle {
        assert Explained(v, c, p);
      } else {
        assert Explained(v, c, q);
      }
    }
  }

  lemma {:induction false} ParseDirectorySound(v: Volume, cluster: nat, path: Text, owners: Owners, stack: set<nat>)
    requires Valid(v) && ParseDirectory(v, cluster, path, owners, stack).Some?
    ensures
      var p := ParseDirectory(v, cluster, path, owners, stack).value;
      && Walk(v.fat, cluster).Some? && ReadDirectory(v, cluster, path).Some?
      && Extends(owners, p.owners)
      && Charged(ToEndMarker(v, ChainOf(v, cluster)), path, p.owners)
      && RecordsSound(v, p.records, p.owners)
      && (forall c :: c in p.owners && c !in owners && c !in ToEndMarker(v, ChainOf(v, cluster)) ==>
            Explained(v, c, p.records))
    decreases |Free(v, stack)|, 0, 0
  {
    hide ParseRecords, ScanChain, Walk, RecordsSound, Explained, Claim, ToEndMarker, ReadDirectory, ChainOf;
    var p := ParseDirectory(v, cluster, path, owners, stack).value;
    var records := ReadDirectory(v, cluster, path).value;
    var claimed := Claim(owners, ToEndMarker(v, ChainOf(v, cluster)), path).value;
    ClaimCharges(owners, ToEndMarker(v, ChainOf(v, cluster)), path);
    DeeperStack(v, cluster, stack);
    ParseRecordsSound(v, records, {}, claimed, stack + {cluster});
  }

  /** A claim that is granted extends the ownership by exactly what was claimed. */
  lemma ClaimCharges(owners: Owners, cs: seq<nat>, path: Text)
    requires Claim(owners, cs, path).Some?
    ensures
      var claimed := Claim(owners, cs, path).value;
      Extends(owners, claimed) && Charged(cs, path, claimed) && forall c :: c in claimed <==> c in owners || c in cs
  {
  }

  lemma {:induction false} ParseRecordsSound(
    v: Volume, records: seq<Record>, folded: set<Text>, owners: Owners, stack: set<nat>)
    requires Valid(v) && ParseRecords(v, records, folded, owners, stack).Some?
    ensures
      var p := ParseRecords(v, records, folded, owners, stack).value;
      && Extends(owners, p.owners)
      && RecordsSound(v, records + p.records, p.owners)
      && NewExplained(v, owners, p.owners, records + p.records)
    decreases |Free(v, stack)|, |records|
  {
    hide ParseRecord, Walk;
    if records != [] {
      var r, rest := records[0], records[1..];
      var below := ParseRecord(v, r, owners, stack).value;
      var key := Upper(r.name);
      var after := ParseRecords(v, rest, folded + {key}, below.owners, stack).value;
      var p := ParseRecords(v, records, folded, owners, stack).value;
      ParseRecordSound(v, r, owners, stack);
      ParseRecordsSound(v, rest, folded + {key}, below.owners, stack);
      SoundIsMonotone(v, [r] + below.records, below.owners, p.owners);
      assert records == [r] + rest;
      Merge(v, [r] + below.records, rest + after.records, records + p.records, owners, below.owners, p.owners);
    }
  }

  lemma {:induction false} ParseRecordSound(v: Volume, r: Record, owners: Owners, stack: set<nat>)
    requires Valid(v) && ParseRecord(v, r, owners, stack).Some?
    ensures
      var p := ParseRecord(v, r, owners, stack).value;
      && Extends(owners, p.owners)
      && RecordsSound(v, [r] + p.records, p.owners)
      && NewExplained(v, owners, p.owners, [r] + p.records)
    decreases |Free(v, stack)|, 0, 1
  {
    hide ParseDirectory, ScanChain, Walk;
    var p := ParseRecord(v, r, owners, stack).value;
    assert r in [r] + p.records;
    if !r.IsDot() && r.IsDirectory() {
      ParseDirectorySound(v, r.first, r.path, owners, stack);
      forall c | c in p.owners && c !in owners ensures Explained(v, c, [r] + p.records) {
        assert c in Held(v, r) || Explained(v, c, p.records);
      }
    }
  }
}
