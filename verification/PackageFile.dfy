/** The package file: header, manifest, executable and resource records, written and read back. */
module PackageFile {
  import opened Bytes
  import opened ShortNames
  import opened PackageFields
  import opened PackageManifest
  import opened PackageBuilder
  import FatPlan

  const PACKAGE_MAGIC: seq<byte> := [0x53, 0x41, 0x50, 0x4F, 0x53, 0x50, 0x4B, 0x31]  // SAPOSPK1

  datatype Parsed = Parsed(
    version: nat, manifest: seq<byte>, executable: seq<byte>, resources: seq<Resource>, report: Report)

  // ---------------------------------------------------------------------------------------------
  // Header

  function Sizes(version: nat, executable: nat): (r: seq<byte>)
    requires version < 0x1_0000 && executable < 0x1_0000_0000_0000_0000
    ensures |r| == 16
  {
    Le16(version) + Le16(64) + Le32(1024) + Le64(executable)
  }

  function Counts(count: nat, resources: nat): (r: seq<byte>)
    requires count < 0x1_0000 && resources < 0x1_0000_0000
    ensures |r| == 8
  {
    Le16(count) + Le16(0) + Le32(resources)
  }

  function Header(version: nat, executable: nat, count: nat, resources: nat, digest: Digest): (r: seq<byte>)
    requires version < 0x1_0000 && executable < 0x1_0000_0000_0000_0000 && count < 0x1_0000 && resources < 0x1_0000_0000
    ensures |r| == 64
  {
    PACKAGE_MAGIC + Sizes(version, executable) + Counts(count, resources) + digest
  }

  lemma SizesAre(p: seq<byte>, version: nat, executable: nat)
    requires 64 <= |p| && version < 0x1_0000 && executable < 0x1_0000_0000_0000_0000
    ensures p[8..24] == Sizes(version, executable) <==>
      U16(p, 8) == version && U16(p, 10) == 64 && U32(p, 12) == 1024 && U64(p, 16) == executable
  {
    hide U16, U32, U64, Le16, Le32, Le64;
    Read16(p, 8, version);
    Read16(p, 10, 64);
    Read32(p, 12, 1024);
    Read64(p, 16, executable);
    SliceOfSlice(p, 8, 24, 0, 2);
    SliceOfSlice(p, 8, 24, 2, 4);
    SliceOfSlice(p, 8, 24, 4, 8);
    SliceOfSlice(p, 8, 24, 8, 16);
    CutSizes(p[8..24], Le16(version), Le16(64), Le32(1024), Le64(executable));
  }

  lemma CutSizes(s: seq<byte>, a: seq<byte>, b: seq<byte>, c: seq<byte>, d: seq<byte>)
    requires |s| == 16 && |a| == |b| == 2 && |c| == 4 && |d| == 8
    ensures s == a + b + c + d <==> s[0..2] == a && s[2..4] == b && s[4..8] == c && s[8..16] == d
  {
    var n := a + b + c + d;
    assert n[0..2] == a && n[2..4] == b && n[4..8] == c && n[8..16] == d;
    assert s == s[0..2] + s[2..4] + s[4..8] + s[8..16];
  }

  lemma CountsAre(p: seq<byte>, count: nat, resources: nat)
    requires 64 <= |p| && count < 0x1_0000 && resources < 0x1_0000_0000
    ensures p[24..32] == Counts(count, resources) <==> U16(p, 24) == count && U16(p, 26) == 0 && U32(p, 28) == resources
  {
    hide U16, U32, Le16, Le32;
    Read16(p, 24, count);
    Read16(p, 26, 0);
    Read32(p, 28, resources);
    SliceOfSlice(p, 24, 32, 0, 2);
    SliceOfSlice(p, 24, 32, 2, 4);
    SliceOfSlice(p, 24, 32, 4, 8);
    CutCounts(p[24..32], Le16(count), Le16(0), Le32(resources));
  }

  lemma CutCounts(s: seq<byte>, a: seq<byte>, b: seq<byte>, c: seq<byte>)
    requires |s| == 8 && |a| == |b| == 2 && |c| == 4
    ensures s == a + b + c <==> s[0..2] == a && s[2..4] == b && s[4..8] == c
  {
    var n := a + b + c;
    assert n[0..2] == a && n[2..4] == b && n[4..8] == c;
    assert s == s[0..2] + s[2..4] + s[4..8];
  }

  // ---------------------------------------------------------------------------------------------
  // Reading records

  /** One resource record at `cursor`, refused if its path was seen before. */
  function ReadOne(body: seq<byte>, cursor: nat, occupied: set<Text>): (r: Option<Resource>)
    ensures r.Some? ==> cursor + 32 + |r.value.payload| <= |body|
  {
    if cursor + 32 > |body| then None else
    var header := body[cursor..cursor + 32];
    var path, length := DecodeText(header[..16]), U64(header, 16);
    if path.None? || Encode(path.value).None? || !NoneSet(header[24..]) || length == 0 || length > 0x100_0000
      || path.value in occupied || cursor + 32 + length > |body| then None
    else Some(Resource(path.value, body[cursor + 32..cursor + 32 + length]))
  }

  /** `count` records from `cursor` on, and where they end. */
  function Read(body: seq<byte>, cursor: nat, count: nat, occupied: set<Text>): (r: Option<(seq<Resource>, nat)>)
    decreases count
  {
    if count == 0 then Some(([], cursor)) else
    var one := ReadOne(body, cursor, occupied);
    if one.None? then None else
    var rest := Read(body, cursor + 32 + |one.value.payload|, count - 1, occupied + {one.value.path});
    if rest.None? then None else Some(([one.value] + rest.value.0, rest.value.1))
  }

  predicate StoredOk(r: Resource) {
    TextFits(r.path, 16) && Encode(r.path).Some? && SizeOk(r.payload)
  }

  /** `body` holds exactly the bytes `s` at `at`. */
  ghost predicate HoldsAt(body: seq<byte>, at: nat, s: seq<byte>) {
    at + |s| <= |body| && body[at..at + |s|] == s
  }

  lemma HeaderIs(h: seq<byte>, r: Resource)
    requires |h| == 32 && TextFits(r.path, 16) && |r.payload| <= 0x100_0000
    ensures h == Field(r.path, 16) + Le64(|r.payload|) + Zeros(8) <==>
      DecodeText(h[..16]) == Some(r.path) && U64(h, 16) == |r.payload| && NoneSet(h[24..])
  {
    hide Field, Le64, U64, DecodeText, NoneSet, IsAscii;
    TextIsExact(h[..16], r.path);
    Read64(h, 16, |r.payload|);
    ZerosAre(h[24..]);
    CutRecord(h, Field(r.path, 16), Le64(|r.payload|), Zeros(8));
  }

  lemma CutRecord(s: seq<byte>, a: seq<byte>, b: seq<byte>, c: seq<byte>)
    requires |s| == 32 && |a| == 16 && |b| == |c| == 8
    ensures s == a + b + c <==> s[..16] == a && s[16..24] == b && s[24..] == c
  {
    var n := a + b + c;
    assert n[..16] == a && n[16..24] == b && n[24..] == c;
    assert s == s[..16] + s[16..24] + s[24..];
  }

  lemma ReadOneIsExact(body: seq<byte>, cursor: nat, occupied: set<Text>, r: Resource)
    ensures ReadOne(body, cursor, occupied) == Some(r) <==>
      StoredOk(r) && r.path !in occupied && HoldsAt(body, cursor, Record(r))
  {
    hide Encode, Field, Le64, U64, DecodeText, IsAscii, NoneSet;
    if cursor + 32 <= |body| {
      var h := body[cursor..cursor + 32];
      if ReadOne(body, cursor, occupied) == Some(r) {
        TextIsExact(h[..16], r.path);
      }
      if StoredOk(r) {
        HeaderIs(h, r);
        RecordAt(body, cursor, Field(r.path, 16) + Le64(|r.payload|) + Zeros(8), r.payload);
      }
    }
  }

  lemma RecordAt(body: seq<byte>, at: nat, h: seq<byte>, payload: seq<byte>)
    requires |h| == 32 && at + 32 <= |body|
    ensures HoldsAt(body, at, h + payload) <==>
      at + 32 + |payload| <= |body| && body[at..at + 32] == h && body[at + 32..at + 32 + |payload|] == payload
  {
    var end := at + 32 + |payload|;
    if end <= |body| {
      var s := body[at..end];
      SliceOfSlice(body, at, end, 0, 32);
      SliceOfSlice(body, at, end, 32, end - at);
      assert s == s[0..32] + s[32..end - at];
      assert (h + payload)[0..32] == h && (h + payload)[32..end - at] == payload;
    }
  }

  /** Records that can be stored one after another, with paths not seen before. */
  ghost predicate AllStored(rs: seq<Resource>, occupied: set<Text>) {
    && (forall r :: r in rs ==> StoredOk(r) && r.path !in occupied)
    && forall i, j :: 0 <= i < j < |rs| ==> rs[i].path != rs[j].path
  }

  lemma AllStoredCons(r: Resource, rest: seq<Resource>, occupied: set<Text>)
    ensures AllStored([r] + rest, occupied) <==>
      StoredOk(r) && r.path !in occupied && AllStored(rest, occupied + {r.path})
  {
    hide StoredOk;
    var rs := [r] + rest;
    if AllStored(rs, occupied) {
      assert r in rs;
      forall x | x in rest ensures StoredOk(x) && x.path !in occupied + {r.path} {
        var k :| 0 <= k < |rest| && rest[k] == x;
        assert rs[k + 1] == x && rs[0].path != rs[k + 1].path && x in rs;
      }
      forall i, j | 0 <= i < j < |rest| ensures rest[i].path != rest[j].path {
        assert rs[i + 1].path != rs[j + 1].path;
      }
    }
    if StoredOk(r) && r.path !in occupied && AllStored(rest, occupied + {r.path}) {
      forall i, j | 0 <= i < j < |rs| ensures rs[i].path != rs[j].path {
        if i == 0 {
          assert rs[j] == rest[j - 1] && rest[j - 1] in rest;
        } else {
          assert rest[i - 1].path != rest[j - 1].path;
        }
      }
    }
  }

  lemma StoredFit(rs: seq<Resource>, occupied: set<Text>)
    requires AllStored(rs, occupied)
    ensures RecordsFit(rs)
  {
  }

  lemma {:induction false} RecordsCons(r: Resource, rest: seq<Resource>)
    requires RecordsFit([r] + rest)
    ensures RecordsFit(rest) && RecordsFit([r]) && Records([r] + rest) == Record(r) + Records(rest)
  {
    hide Record;
    var rs := [r] + rest;
    assert forall x :: x in rs <==> x == r || x in rest;
    if rest == [] {
      assert rs[..0] == [] && Records([]) == [] && rs[0] == r;
      assert Records(rs) == Records(rs[..0]) + Record(r);
    } else {
      var front, last := rest[..|rest| - 1], rest[|rest| - 1];
      assert rs[..|rs| - 1] == [r] + front && rs[|rs| - 1] == last;
      RecordsCons(r, front);
      assert Records(rs) == (Record(r) + Records(front)) + Record(last);
    }
  }

  /** The reader accepts exactly the encodings of storable records, and ends where they end. */
  lemma {:induction false} ReadIsExact(body: seq<byte>, cursor: nat, occupied: set<Text>, rs: seq<Resource>, end: nat)
    ensures Read(body, cursor, |rs|, occupied) == Some((rs, end)) && cursor <= |body| <==>
      AllStored(rs, occupied) && RecordsFit(rs) && HoldsAt(body, cursor, Records(rs)) && end == cursor + |Records(rs)|
    decreases |rs|
  {
    hide ReadOne, StoredOk, Record, RecordsFit, AllStored;
    if rs == [] {
      NothingStored(occupied);
      assert cursor > |body| || body[cursor..cursor] == [];
    } else {
      var r, rest := rs[0], rs[1..];
      assert rs == [r] + rest;
      AllStoredCons(r, rest, occupied);
      ReadOneIsExact(body, cursor, occupied, r);
      if StoredOk(r) {
        StoredFits(r);
        ReadIsExact(body, cursor + |Record(r)|, occupied + {r.path}, rest, end);
        if AllStored(rs, occupied) {
          StoredFit(rs, occupied);
          RecordsCons(r, rest);
          HoldsConcat(body, cursor, Record(r), Records(rest));
        }
      }
      ReadCount(body, cursor, |rs|, occupied);
    }
  }

  lemma StoredFits(r: Resource)
    requires StoredOk(r)
    ensures |r.path| < 16 && 0 < |r.payload| <= 0x100_0000
  {
  }

  lemma NothingStored(occupied: set<Text>)
    ensures AllStored([], occupied) && RecordsFit([]) && Records([]) == []
  {
  }

  lemma HoldsConcat(body: seq<byte>, at: nat, a: seq<byte>, b: seq<byte>)
    ensures HoldsAt(body, at, a + b) <==> HoldsAt(body, at, a) && HoldsAt(body, at + |a|, b)
  {
    var end := at + |a| + |b|;
    if end <= |body| {
      var s := body[at..end];
      SliceOfSlice(body, at, end, 0, |a|);
      SliceOfSlice(body, at, end, |a|, end - at);
      assert s == s[0..|a|] + s[|a|..end - at];
      assert (a + b)[0..|a|] == a && (a + b)[|a|..end - at] == b;
    }
  }

  lemma {:induction false} ReadCount(body: seq<byte>, cursor: nat, count: nat, occupied: set<Text>)
    ensures Read(body, cursor, count, occupied).Some? ==> |Read(body, cursor, count, occupied).value.0| == count
    ensures Read(body, cursor, count, occupied).Some? && cursor <= |body| ==>
      cursor <= Read(body, cursor, count, occupied).value.1 <= |body|
    decreases count
  {
    hide ReadOne;
    if 0 < count {
      var one := ReadOne(body, cursor, occupied);
      if one.Some? {
        ReadCount(body, cursor + 32 + |one.value.payload|, count - 1, occupied + {one.value.path});
      }
    }
  }

  // ---------------------------------------------------------------------------------------------
  // The whole file

  predicate HeadOk(p: seq<byte>)
    requires 64 <= |p|
  {
    && p[..8] == PACKAGE_MAGIC && (U16(p, 8) == 1 || U16(p, 8) == 2) && U16(p, 10) == 64 && U32(p, 12) == 1024
    && (U16(p, 8) == 1 ==> U16(p, 24) == 0 && U16(p, 26) == 0 && U32(p, 28) == 0)
    && (U16(p, 8) == 2 ==> U16(p, 24) != 0 && U16(p, 26) == 0)
    && U16(p, 24) <= 13
  }

  /** `parse_package`; `None` is a refusal. */
  function Parse(p: seq<byte>, hash: Hash): (r: Option<Parsed>) {
    if |p| < 1088 || !HeadOk(p) then None else
    var executableBytes, resourceBytes := U64(p, 16), U32(p, 28);
    if 1088 + executableBytes + resourceBytes != |p| then None else
    var body := p[64..];
    if hash(body) != p[32..64] then None else
    var manifest, end := body[..1024], 1024 + executableBytes;
    var executable := body[1024..end];
    var records := Read(body, end, U16(p, 24), {});
    if records.None? || records.value.1 != |body| then None else
    var report := Inspect(manifest, executable, hash);
    if report.None? || (records.value.0 != [] && report.value.resourceDirectory == []) then None
    else Some(Parsed(U16(p, 8), manifest, executable, records.value.0, report.value))
  }

  /** What a package can hold. */
  ghost predicate Storable(q: Parsed, hash: Hash) {
    && q.version == (if q.resources == [] then 1 else 2) && |q.executable| < 0x1_0000_0000_0000_0000
    && |q.resources| <= 13 && AllStored(q.resources, {}) && RecordsFit(q.resources)
    && Inspect(q.manifest, q.executable, hash) == Some(q.report)
    && (q.resources != [] ==> q.report.resourceDirectory != [])
  }

  /** The bytes of a package. */
  ghost function Package(
    version: nat, manifest: seq<byte>, executable: seq<byte>, resources: seq<Resource>, hash: Hash): (p: seq<byte>)
    requires version < 0x1_0000 && |executable| < 0x1_0000_0000_0000_0000 && |resources| <= 13 && RecordsFit(resources)
  {
    var records := Records(resources);
    var body := manifest + executable + records;
    Header(version, |executable|, |resources|, |records|, hash(body)) + body
  }

  lemma CutHeader(p: seq<byte>, a: seq<byte>, b: seq<byte>, c: seq<byte>, d: seq<byte>, body: seq<byte>)
    requires |p| == 64 + |body| && |a| == 8 && |b| == 16 && |c| == 8 && |d| == 32
    ensures p == a + b + c + d + body <==>
      p[..8] == a && p[8..24] == b && p[24..32] == c && p[32..64] == d && p[64..] == body
  {
    var n := a + b + c + d + body;
    assert n[..8] == a && n[8..24] == b && n[24..32] == c && n[32..64] == d && n[64..] == body;
    assert p == p[..8] + p[8..24] + p[24..32] + p[32..64] + p[64..];
  }

  lemma CutBody(body: seq<byte>, m: seq<byte>, e: seq<byte>, r: seq<byte>)
    requires |m| == 1024 && |body| == 1024 + |e| + |r|
    ensures body == m + e + r <==>
      body[..1024] == m && body[1024..1024 + |e|] == e && HoldsAt(body, 1024 + |e|, r)
  {
    var n, k := m + e + r, 1024 + |e|;
    assert n[..1024] == m && n[1024..k] == e && n[k..] == r;
    assert body == body[..1024] + body[1024..k] + body[k..];
    assert body[k..k + |r|] == body[k..];
  }

  lemma InspectedSize(m: seq<byte>, executable: seq<byte>, hash: Hash)
    requires Inspect(m, executable, hash).Some?
    ensures |m| == 1024
  {
  }

  lemma RecordsFitWord(q: Parsed)
    requires |q.resources| <= 13 && RecordsFit(q.resources)
    ensures |Records(q.resources)| < 0x1_0000_0000
    ensures q.resources == [] ==> Records(q.resources) == []
  {
  }

  lemma ParsedIsPackage(p: seq<byte>, hash: Hash, q: Parsed)
    requires Parse(p, hash) == Some(q)
    ensures Storable(q, hash) && p == Package(q.version, q.manifest, q.executable, q.resources, hash)
  {
    hide Inspect, Read, AllStored, RecordsFit, Records, HoldsAt, U16, U32, U64, Sizes, Counts;
    var body, end, count := p[64..], 1024 + U64(p, 16), U16(p, 24);
    InspectedSize(q.manifest, q.executable, hash);
    ReadCount(body, end, count, {});
    ReadIsExact(body, end, {}, q.resources, |body|);
    RecordsFitWord(q);
    var records := Records(q.resources);
    assert |q.executable| == U64(p, 16) && end == 1024 + |q.executable|;
    CutBody(body, q.manifest, q.executable, records);
    SizesAre(p, q.version, |q.executable|);
    CountsAre(p, |q.resources|, |records|);
    CutHeader(p, PACKAGE_MAGIC, Sizes(q.version, |q.executable|), Counts(|q.resources|, |records|), hash(body), body);
  }

  lemma PackageIsParsed(p: seq<byte>, hash: Hash, q: Parsed)
    requires Storable(q, hash) && p == Package(q.version, q.manifest, q.executable, q.resources, hash)
    ensures Parse(p, hash) == Some(q)
  {
    hide Inspect, Read, AllStored, RecordsFit, Records, HoldsAt, U16, U32, U64, Sizes, Counts;
    InspectedSize(q.manifest, q.executable, hash);
    RecordsFitWord(q);
    var records := Records(q.resources);
    var body := q.manifest + q.executable + records;
    var end := 1024 + |q.executable|;
    CutHeader(p, PACKAGE_MAGIC, Sizes(q.version, |q.executable|), Counts(|q.resources|, |records|), hash(body), body);
    SizesAre(p, q.version, |q.executable|);
    CountsAre(p, |q.resources|, |records|);
    CutBody(body, q.manifest, q.executable, records);
    ReadIsExact(body, end, {}, q.resources, |body|);
  }

  /** The parser accepts exactly the packages: what it returns, written out again, is the file byte for
      byte, and every storable content is read back. */
  lemma ParseIsExact(p: seq<byte>, hash: Hash, q: Parsed)
    ensures Parse(p, hash) == Some(q) <==>
      Storable(q, hash) && p == Package(q.version, q.manifest, q.executable, q.resources, hash)
  {
    hide Parse, Storable, Package;
    if Parse(p, hash) == Some(q) {
      ParsedIsPackage(p, hash, q);
    } else {
      if Storable(q, hash) {
        StorableFits(q, hash);
        if p == Package(q.version, q.manifest, q.executable, q.resources, hash) {
          PackageIsParsed(p, hash, q);
        }
      }
    }
  }

  lemma StorableFits(q: Parsed, hash: Hash)
    requires Storable(q, hash)
    ensures q.version < 0x1_0000 && |q.executable| < 0x1_0000_0000_0000_0000 && |q.resources| <= 13 && RecordsFit(q.resources)
  {
  }
}
