/** Building a package: the manifest, the resource records and the header around them. */
module PackageBuilder {
  import opened Bytes
  import opened ShortNames
  import opened PackageFields
  import opened PackageManifest
  import FatPlan

  // ---------------------------------------------------------------------------------------------
  // Buffers filled from the front

  /** The buffer holds `prefix` and is still zero behind it. */
  ghost predicate Filled(buffer: seq<byte>, prefix: seq<byte>) {
    |prefix| <= |buffer| && buffer == prefix + Zeros(|buffer| - |prefix|)
  }

  method Put(buffer: array<byte>, at: nat, bytes: seq<byte>, ghost prefix: seq<byte>)
    requires Filled(buffer[..], prefix) && |prefix| <= at && at + |bytes| <= buffer.Length
    modifies buffer
    ensures Filled(buffer[..], prefix + Zeros(at - |prefix|) + bytes)
  {
    ghost var before := buffer[..];
    var k := 0;
    while k < |bytes|
      invariant k <= |bytes|
      invariant forall i :: 0 <= i < buffer.Length ==>
        buffer[i] == if at <= i < at + k then bytes[i - at] else before[i]
    {
      buffer[at + k] := bytes[k];
      k := k + 1;
    }
    var whole := prefix + Zeros(at - |prefix|) + bytes;
    assert buffer[..] == whole + Zeros(buffer.Length - |whole|);
  }

  method Blank(n: nat) returns (buffer: array<byte>)
    ensures fresh(buffer) && buffer.Length == n && Filled(buffer[..], [])
  {
    buffer := new byte[n](i => 0);
    assert buffer[..] == Zeros(n) == [] + Zeros(n);
  }

  // ---------------------------------------------------------------------------------------------
  // Manifest

  predicate IdentifierOk(v: Text) {
    1 <= |v| <= 8 && AllAllowed(Upper(v))
  }

  predicate ArgumentOk(v: Text) {
    v != [] && TextFits(v, 32) && Printable(v)
  }

  /** Everything `encode_manifest` checks before it looks at single arguments and capabilities. */
  predicate ScalarsOk(spec: Spec) {
    && spec.abiVersion == 1 && spec.name != [] && TextFits(spec.name, 32)
    && IdentifierOk(spec.identifier) && Encode(spec.executable).Some? && IdentifierOk(spec.dataNamespace)
    && (spec.resourceDirectory == [] || IdentifierOk(spec.resourceDirectory))
    && (spec.icon == [] || Encode(spec.icon).Some?)
    && |spec.arguments| <= 8
    && 65_536 <= spec.memoryLimit <= 0x1000_0000 && spec.memoryLimit % 4096 == 0
    && 1 <= spec.maxHandles <= 128 && 1 <= spec.maxThreads <= 8
  }

  /** Everything `encode_manifest` checks. */
  predicate SpecOk(spec: Spec) {
    && ScalarsOk(spec) && (forall i :: 0 <= i < |spec.arguments| ==> ArgumentOk(spec.arguments[i]))
    && (forall i :: 0 <= i < |spec.capabilities| ==> spec.capabilities[i] in CAPABILITIES)
  }

  /** What the specification asks to be reported: names in upper case, each capability once. */
  ghost function ReportOf(spec: Spec, executable: seq<byte>, hash: Hash): (r: Report)
    requires SpecOk(spec)
  {
    Report(spec.name, Upper(spec.identifier), Upper(spec.executable), |executable|, hash(executable), spec.memoryLimit,
      spec.maxHandles, spec.maxThreads, Requested(spec.capabilities), Upper(spec.resourceDirectory),
      Upper(spec.dataNamespace), Upper(spec.icon), spec.arguments)
  }

  lemma IdentifierFits(v: Text)
    requires v == [] || IdentifierOk(v)
    ensures TextFits(Upper(v), 16)
  {
    assert forall i :: 0 <= i < |v| ==> Allowed(Upper(v)[i]);
  }

  lemma PathFits(v: Text)
    requires v == [] || Encode(v).Some?
    ensures TextFits(Upper(v), 16)
  {
    if v != [] {
      var s := Upper(v);
      var parts := Split(s);
      forall i | 0 <= i < |s| ensures Allowed(s[i]) || s[i] == PERIOD {
        if i < |parts.0| {
          assert s[i] == parts.0[i];
        } else if |parts.0| < i {
          assert s[i] == parts.1[i - |parts.0| - 1];
        }
      }
    }
  }

  lemma SpecFits(spec: Spec, executable: seq<byte>, hash: Hash)
    requires SpecOk(spec)
    ensures ReportFits(ReportOf(spec, executable, hash)) && Describes(ReportOf(spec, executable, hash), executable, hash)
  {
    hide Encode, IdentifierOk, IsAscii, Printable;
    IdentifierFits(spec.identifier);
    IdentifierFits(spec.dataNamespace);
    IdentifierFits(spec.resourceDirectory);
    PathFits(spec.executable);
    PathFits(spec.icon);
  }

  /** The manifest of an accepted specification. */
  ghost function ManifestOf(spec: Spec, executable: seq<byte>, hash: Hash): (m: seq<byte>)
    requires SpecOk(spec)
    ensures |m| == 1024
  {
    SpecFits(spec, executable, hash);
    Layout(ReportOf(spec, executable, hash), Zeros(32))
  }

  /** `encode_manifest` checks the specification and fills the manifest in place. */
  method EncodeManifest(spec: Spec, executable: seq<byte>, hash: Hash) returns (r: Option<seq<byte>>)
    ensures r.Some? <==> SpecOk(spec)
    ensures r.Some? ==> r.value == ManifestOf(spec, executable, hash)
  {
    hide Filled, IdentifierOk, Encode, IsAscii, Printable, Bits, Arguments, Numbers, Lead, Field, Layout, ReportFits;
    if !ScalarsOk(spec) {
      return None;
    }
    var flags, known := CollectCapabilities(spec.capabilities);
    if !known {
      return None;
    }
    SmallBits(flags);
    IdentifierFits(spec.identifier);
    IdentifierFits(spec.dataNamespace);
    IdentifierFits(spec.resourceDirectory);
    PathFits(spec.executable);
    PathFits(spec.icon);
    var manifest := Blank(1024);
    var numbers := Numbers(|spec.arguments|, spec.maxHandles, spec.maxThreads, Bits(flags), spec.memoryLimit);
    var names := (Field(spec.name, 32) + Field(Upper(spec.identifier), 16) + Field(Upper(spec.executable), 16)) + hash(executable)
      + (Field(Upper(spec.resourceDirectory), 16) + Field(Upper(spec.dataNamespace), 16) + Field(Upper(spec.icon), 16));
    Put(manifest, 0, Lead(), []);
    ghost var front := [] + Zeros(0) + Lead();
    Put(manifest, 20, numbers, front);
    front := front + Zeros(0) + numbers;
    Put(manifest, 64, names, front);
    front := front + Zeros(20) + names;
    var ok := PutArguments(manifest, spec.arguments, front);
    if !ok {
      return None;
    }
    SpecFits(spec, executable, hash);
    Assembled(manifest[..], ReportOf(spec, executable, hash), Bits(flags), front);
    return Some(manifest[..]);
  }

  /** The argument loop, which refuses at the first argument that does not fit. */
  method PutArguments(manifest: array<byte>, arguments: seq<Text>, ghost front: seq<byte>) returns (ok: bool)
    requires manifest.Length == 1024 && |front| == 208 && Filled(manifest[..], front) && |arguments| <= 8
    modifies manifest
    ensures ok <==> forall i :: 0 <= i < |arguments| ==> ArgumentOk(arguments[i])
    ensures ok ==> (forall a :: a in arguments ==> |a| < 32) && Filled(manifest[..], front + Arguments(arguments))
  {
    hide Filled, IsAscii, Printable, Arguments;
    var i := 0;
    NoArguments();
    assert arguments[..0] == [] && front + [] == front;
    while i < |arguments|
      invariant i <= |arguments|
      invariant forall k :: 0 <= k < i ==> ArgumentOk(arguments[k])
      invariant Filled(manifest[..], front + Arguments(arguments[..i]))
    {
      if !ArgumentOk(arguments[i]) {
        return false;
      }
      ghost var done := Arguments(arguments[..i]);
      Put(manifest, 208 + i * 32, Field(arguments[i], 32), front + done);
      OneMoreArgument(arguments, i);
      assert (front + done) + Zeros(0) + Field(arguments[i], 32) == front + (done + Field(arguments[i], 32));
      i := i + 1;
    }
    assert arguments[..i] == arguments;
    return true;
  }

  lemma NoArguments()
    ensures Arguments([]) == []
  {
  }

  lemma OneMoreArgument(args: seq<Text>, i: nat)
    requires i < |args| && forall k :: 0 <= k <= i ==> |args[k]| < 32
    ensures Arguments(args[..i + 1]) == Arguments(args[..i]) + Field(args[i], 32)
  {
    assert args[..i + 1] == args[..i] + [args[i]];
    ArgumentsAppend(args[..i], args[i]);
  }

  lemma {:induction false} ArgumentsAppend(args: seq<Text>, last: Text)
    requires |last| < 32 && forall a :: a in args ==> |a| < 32
    ensures Arguments(args + [last]) == Arguments(args) + Field(last, 32)
  {
    hide Field;
    if args == [] {
      assert [last][1..] == [] && [] + [last] == [last];
      assert Arguments([last]) == Field(last, 32) + [];
    } else {
      var rest := args[1..];
      ArgumentsAppend(rest, last);
      assert (args + [last])[1..] == rest + [last] && (args + [last])[0] == args[0];
      assert Arguments(args + [last]) == Field(args[0], 32) + (Arguments(rest) + Field(last, 32));
    }
  }

  /** The filled buffer is the layout. */
  lemma Assembled(m: seq<byte>, r: Report, bits: nat, front: seq<byte>)
    requires |m| == 1024 && ReportFits(r) && bits == Bits(r.flags) < 1024
    requires front == ([] + Zeros(0) + Lead()) + Zeros(0)
      + Numbers(|r.arguments|, r.maxHandles, r.maxThreads, bits, r.memoryLimit) + Zeros(20) + Names(r)
    requires Filled(m, front + Arguments(r.arguments))
    ensures m == Layout(r, Zeros(32))
  {
    hide Numbers, Names, Lead, Bits, Arguments, ReportFits;
    ShortArguments(r);
    var n, args := 32 * |r.arguments|, Arguments(r.arguments);
    assert Zeros(1024 - 208 - n) == Zeros(256 - n) + Zeros(32) + Zeros(528);
    assert m == front + args + (Zeros(256 - n) + Zeros(32) + Zeros(528));
    BlocksFit(r);
    var numbers := Numbers(|r.arguments|, r.maxHandles, r.maxThreads, bits, r.memoryLimit);
    assert front == Lead() + numbers + Zeros(20) + Names(r);
    assert front + args + (Zeros(256 - n) + Zeros(32) + Zeros(528)) == front + (args + Zeros(256 - n)) + Zeros(32) + Zeros(528);
  }

  lemma ShortArguments(r: Report)
    requires ReportFits(r)
    ensures |r.arguments| <= 8 && forall a :: a in r.arguments ==> |a| < 32
  {
  }

  /** Inspecting an encoded manifest reports the specification, field by field. */
  lemma ManifestRoundTrip(spec: Spec, executable: seq<byte>, hash: Hash)
    requires SpecOk(spec)
    ensures Inspect(ManifestOf(spec, executable, hash), executable, hash) == Some(ReportOf(spec, executable, hash))
  {
    hide Inspect, Layout, ReportFits, SpecOk;
    var r, m := ReportOf(spec, executable, hash), ManifestOf(spec, executable, hash);
    SpecFits(spec, executable, hash);
    GapIs(r, Zeros(32));
    InspectIsExact(m, executable, hash, r);
  }

  lemma GapIs(r: Report, gap: seq<byte>)
    requires ReportFits(r) && |gap| == 32
    ensures Layout(r, gap)[464..496] == gap
  {
    hide Numbers, Names, Lead, ArgumentBlock, ReportFits;
    BlocksFit(r);
    SmallBits(r.flags);
    Cut(Layout(r, gap), Lead(), Numbers(|r.arguments|, r.maxHandles, r.maxThreads, Bits(r.flags), r.memoryLimit), Zeros(20),
      Names(r), ArgumentBlock(r.arguments), gap, Zeros(528));
  }

  lemma BlocksFit(r: Report)
    requires ReportFits(r)
    ensures |r.arguments| <= 8 && (forall a :: a in r.arguments ==> |a| < 32) && |r.digest| == 32 && |r.flags| == 10
    ensures |r.name| < 32 && |r.identifier| < 16 && |r.executable| < 16 && |r.resourceDirectory| < 16
    ensures |r.dataNamespace| < 16 && |r.icon| < 16
    ensures r.maxHandles < 0x1_0000 && r.maxThreads < 0x1_0000 && r.memoryLimit < 0x1_0000_0000_0000_0000
  {
  }

  /** An accepted manifest is the encoding of its own report exactly when bytes 464 to 496 are zero,
      which nothing checks. */
  lemma ManifestIsReencodedIff(m: seq<byte>, executable: seq<byte>, hash: Hash, r: Report)
    requires Inspect(m, executable, hash) == Some(r)
    ensures |m| == 1024 && ReportFits(r)
    ensures m == Layout(r, Zeros(32)) <==> NoneSet(m[464..496])
  {
    hide Inspect, Layout, ReportFits;
    InspectIsExact(m, executable, hash, r);
    GapIs(r, Zeros(32));
    ZerosAre(m[464..496]);
  }

  /** Whatever those bytes hold, the manifest is accepted with the same report. */
  lemma GapIsUnread(m: seq<byte>, executable: seq<byte>, hash: Hash, r: Report, gap: seq<byte>)
    requires Inspect(m, executable, hash) == Some(r) && |gap| == 32
    ensures ReportFits(r) && Inspect(Layout(r, gap), executable, hash) == Some(r) && Layout(r, gap)[464..496] == gap
  {
    hide Inspect, Layout, ReportFits;
    InspectIsExact(m, executable, hash, r);
    GapIs(r, gap);
    InspectIsExact(Layout(r, gap), executable, hash, r);
  }

  // ---------------------------------------------------------------------------------------------
  // Resources

  datatype Resource = Resource(path: Text, payload: seq<byte>)

  function Key(r: Resource): (k: Text) {
    Upper(r.path)
  }

  predicate SizeOk(payload: seq<byte>) {
    0 < |payload| <= 0x100_0000
  }

  predicate ResourceOk(r: Resource) {
    Encode(r.path).Some? && SizeOk(r.payload)
  }

  /** Everything `encode_resources` checks. */
  ghost predicate ResourcesOk(resources: seq<Resource>) {
    && |resources| <= 13 && (forall r :: r in resources ==> ResourceOk(r))
    && FatPlan.DistinctKeys(resources, Key)
  }

  function Raised(r: Resource): (s: Resource) {
    Resource(Upper(r.path), r.payload)
  }

  /** Names in upper case. */
  function RaisedAll(resources: seq<Resource>): (s: seq<Resource>)
    ensures |s| == |resources| && forall i :: 0 <= i < |s| ==> s[i] == Raised(resources[i])
  {
    seq(|resources|, i requires 0 <= i < |resources| => Raised(resources[i]))
  }

  /** Sorted by upper-case name, names in upper case. */
  function Normalized(resources: seq<Resource>): (s: seq<Resource>)
    ensures |s| == |resources|
  {
    RaisedAll(FatPlan.Sort(resources, Key))
  }

  /** A record of a resource whose path fits. */
  function Record(r: Resource): (s: seq<byte>)
    requires |r.path| < 16 && |r.payload| <= 0x100_0000
    ensures |s| == 32 + |r.payload|
  {
    Field(r.path, 16) + Le64(|r.payload|) + Zeros(8) + r.payload
  }

  ghost predicate RecordsFit(resources: seq<Resource>) {
    forall r :: r in resources ==> |r.path| < 16 && |r.payload| <= 0x100_0000
  }

  ghost function Records(resources: seq<Resource>): (s: seq<byte>)
    requires RecordsFit(resources)
    ensures |s| <= 0x100_0020 * |resources|
  {
    if resources == [] then [] else
    var front, last := resources[..|resources| - 1], resources[|resources| - 1];
    Records(front) + Record(last)
  }

  lemma {:induction false} InsertDistinctBack(s: seq<Resource>, x: Resource)
    requires FatPlan.DistinctKeys(FatPlan.Insert(s, x, Key), Key)
    ensures FatPlan.DistinctKeys(s, Key) && forall y :: y in s ==> Key(y) != Key(x)
  {
    hide Key, FatPlan.Less, FatPlan.DistinctKeys;
    var r := FatPlan.Insert(s, x, Key);
    if s == [] || !FatPlan.Less(Key(x), Key(s[|s| - 1])) {
      assert r == s + [x];
      DistinctApart(s, x);
    } else {
      var front, last := s[..|s| - 1], s[|s| - 1];
      var q := FatPlan.Insert(front, x, Key);
      assert r == q + [last] && s == front + [last];
      DistinctApart(q, last);
      InsertDistinctBack(front, x);
      DistinctTogether(front, last);
    }
  }

  lemma DistinctApart(s: seq<Resource>, x: Resource)
    requires FatPlan.DistinctKeys(s + [x], Key)
    ensures FatPlan.DistinctKeys(s, Key) && forall y :: y in s ==> Key(y) != Key(x)
  {
    hide Key;
    var r := s + [x];
    forall i, j | 0 <= i < j < |s| ensures Key(s[i]) != Key(s[j]) {
      assert Key(r[i]) != Key(r[j]);
    }
    forall y | y in s ensures Key(y) != Key(x) {
      var i :| 0 <= i < |s| && s[i] == y;
      assert Key(r[i]) != Key(r[|s|]);
    }
  }

  lemma DistinctTogether(s: seq<Resource>, x: Resource)
    requires FatPlan.DistinctKeys(s, Key) && forall y :: y in s ==> Key(y) != Key(x)
    ensures FatPlan.DistinctKeys(s + [x], Key)
  {
    hide Key;
  }

  lemma {:induction false} SortDistinctBack(s: seq<Resource>)
    requires FatPlan.DistinctKeys(FatPlan.Sort(s, Key), Key)
    ensures FatPlan.DistinctKeys(s, Key)
  {
    hide Key;
    if s != [] {
      var front, last := s[..|s| - 1], s[|s| - 1];
      var sorted := FatPlan.Sort(front, Key);
      InsertDistinctBack(sorted, last);
      SortDistinctBack(front);
      forall i, j | 0 <= i < j < |s| ensures Key(s[i]) != Key(s[j]) {
        if j == |s| - 1 {
          assert front[i] in sorted;
        } else {
          assert Key(front[i]) != Key(front[j]);
        }
      }
    }
  }

  /** A record header, filled in place. */
  method RecordHeader(path: Text, length: nat) returns (r: seq<byte>)
    requires |path| < 16 && length <= 0x100_0000
    ensures r == Field(path, 16) + Le64(length) + Zeros(8)
  {
    hide Field, Le64;
    var header := Blank(32);
    Put(header, 0, Field(path, 16), []);
    Put(header, 16, Le64(length), [] + Zeros(0) + Field(path, 16));
    r := header[..];
    assert r == Field(path, 16) + Le64(length) + Zeros(8);
  }

  /** `encode_resources`: sort, check each record against those before it, append. */
  method EncodeResources(resources: seq<Resource>) returns (r: Option<seq<byte>>)
    ensures r.Some? <==> ResourcesOk(resources)
    ensures r.Some? ==> RecordsFit(Normalized(resources)) && r.value == Records(Normalized(resources))
  {
    hide Encode, Records, Record, Field, Le64, FatPlan.Sort;
    if |resources| > 13 {
      return None;
    }
    var sorted := FatPlan.Sort(resources, Key);
    var encoded: seq<byte> := [];
    var occupied: set<Text> := {};
    var i := 0;
    ghost var all := Normalized(resources);
    RecordsStart(all);
    while i < |sorted|
      invariant i <= |sorted|
      invariant forall k :: 0 <= k < i ==> ResourceOk(sorted[k])
      invariant KeysOf(sorted, i, occupied)
      invariant FatPlan.DistinctKeys(sorted[..i], Key)
      invariant RecordsFit(all[..i]) && encoded == Records(all[..i])
    {
      var path, payload := sorted[i].path, sorted[i].payload;
      if Encode(path).None? || Upper(path) in occupied || !SizeOk(payload) {
        BadRecord(resources, i, occupied);
        return None;
      }
      PathFits(path);
      var header := RecordHeader(Upper(path), |payload|);
      DistinctNext(sorted, i, occupied);
      RecordsNext(all, i, Resource(Upper(path), payload));
      occupied := occupied + {Upper(path)};
      encoded := encoded + header + payload;
      i := i + 1;
    }
    assert sorted[..i] == sorted && all[..i] == all;
    AllRecordsOk(resources);
    return Some(encoded);
  }

  /** `keys` are the upper-case names of the first `i` resources. */
  ghost predicate KeysOf(s: seq<Resource>, i: nat, keys: set<Text>) {
    && i <= |s| && (forall k :: 0 <= k < i ==> Key(s[k]) in keys)
    && forall t :: t in keys ==> exists k :: 0 <= k < i && Key(s[k]) == t
  }

  lemma DistinctNext(s: seq<Resource>, i: nat, keys: set<Text>)
    requires i < |s| && KeysOf(s, i, keys) && FatPlan.DistinctKeys(s[..i], Key) && Key(s[i]) !in keys
    ensures FatPlan.DistinctKeys(s[..i + 1], Key) && KeysOf(s, i + 1, keys + {Key(s[i])})
  {
    hide Key;
    var t := s[..i + 1];
    forall a, b | 0 <= a < b < |t| ensures Key(t[a]) != Key(t[b]) {
      if b < i {
        assert Key(s[..i][a]) != Key(s[..i][b]);
      }
    }
    forall k | k in keys + {Key(s[i])} ensures exists j :: 0 <= j < i + 1 && Key(s[j]) == k {
      if k in keys {
        var j :| 0 <= j < i && Key(s[j]) == k;
      } else {
        assert Key(s[i]) == k;
      }
    }
  }

  lemma BadRecord(resources: seq<Resource>, i: nat, keys: set<Text>)
    requires
      var sorted := FatPlan.Sort(resources, Key);
      && i < |sorted| && KeysOf(sorted, i, keys)
      && (Encode(sorted[i].path).None? || Key(sorted[i]) in keys || !SizeOk(sorted[i].payload))
    ensures !ResourcesOk(resources)
  {
    hide Encode, Key;
    var sorted := FatPlan.Sort(resources, Key);
    assert sorted[i] in sorted && sorted[i] in resources;
    if Key(sorted[i]) in keys {
      var k :| 0 <= k < i && Key(sorted[k]) == Key(sorted[i]);
      FatPlan.SortSorts(resources, Key);
    }
  }

  lemma AllRecordsOk(resources: seq<Resource>)
    requires
      var sorted := FatPlan.Sort(resources, Key);
      && |resources| <= 13 && FatPlan.DistinctKeys(sorted, Key) && forall k :: 0 <= k < |sorted| ==> ResourceOk(sorted[k])
    ensures ResourcesOk(resources)
  {
    hide Key, ResourceOk;
    SortDistinctBack(resources);
    forall r | r in resources ensures ResourceOk(r) {
      assert r in FatPlan.Sort(resources, Key);
    }
  }

  lemma RecordsStart(all: seq<Resource>)
    ensures RecordsFit(all[..0]) && Records(all[..0]) == []
  {
  }

  lemma RecordsNext(all: seq<Resource>, i: nat, r: Resource)
    requires i < |all| && RecordsFit(all[..i]) && all[i] == r && |r.path| < 16 && |r.payload| <= 0x100_0000
    ensures RecordsFit(all[..i + 1])
    ensures Records(all[..i + 1]) == Records(all[..i]) + (Field(r.path, 16) + Le64(|r.payload|) + Zeros(8)) + r.payload
  {
    hide Field, Le64;
    var t := all[..i + 1];
    assert t[..i] == all[..i] && t[i] == r && t == all[..i] + [r];
    assert Records(t) == Records(all[..i]) + Record(r);
    assert Record(r) == (Field(r.path, 16) + Le64(|r.payload|) + Zeros(8)) + r.payload;
  }
}
