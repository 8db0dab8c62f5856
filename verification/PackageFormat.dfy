/** The package format byte by byte, and its admission rules spelled out. */
module PackageFormat {
  import opened Bytes
  import opened ShortNames
  import opened PackageFields
  import opened PackageManifest
  import opened PackageBuilder
  import opened PackageFile
  import opened PackageTool
  import FatPlan

  // ---------------------------------------------------------------------------------------------
  // Fields

  /** Text ends at the first zero byte, is ASCII, and only zeros follow. */
  lemma DecodeTextIff(data: seq<byte>, v: Text)
    ensures DecodeText(data) == Some(v) <==>
      && |v| < |data| && data[..|v|] == v && (forall b :: b in v ==> 1 <= b <= 127)
      && forall i :: |v| <= i < |data| ==> data[i] == 0
  {
    TextIsExact(data, v);
    TextFitsIff(v, |data|);
    if TextFits(v, |data|) {
      var f := Field(v, |data|);
      assert f[..|v|] == v && forall i :: |v| <= i < |data| ==> f[i] == 0;
      if |v| < |data| && data[..|v|] == v && forall i :: |v| <= i < |data| ==> data[i] == 0 {
        assert data == data[..|v|] + data[|v|..] && data[|v|..] == Zeros(|data| - |v|);
      }
    }
  }

  /** Flag `i` is bit `i` of the number. */
  lemma {:induction false} FlagIsBit(n: nat, count: nat, i: nat)
    requires i < count
    ensures Flags(n, count)[i] <==> n / Power(i) % 2 == 1
  {
    if 0 < i {
      FlagIsBit(n / 2, count - 1, i - 1);
      assert n / 2 / Power(i - 1) == n / (2 * Power(i - 1)) by {
        DivideTwice(n, Power(i - 1));
      }
    }
  }

  lemma DivideTwice(n: nat, d: nat)
    requires 0 < d
    ensures n / 2 / d == n / (2 * d)
  {
    var q := n / 2 / d;
    var r, s := n / 2 % d, n % 2;
    assert n / 2 == q * d + r && n == 2 * (n / 2) + s;
    assert n == q * (2 * d) + (2 * r + s) && 0 <= 2 * r + s < 2 * d;
    QuotientIff(n, 2 * d, q);
  }

  /** 64-bit fields are little-endian too. */
  lemma U64Bytes(s: seq<byte>, o: nat)
    requires o + 8 <= |s|
    ensures U64(s, o) == U32(s, o) + 4_294_967_296 * U32(s, o + 4)
  {
  }

  // ---------------------------------------------------------------------------------------------
  // Admission

  /** One to eight characters of the alphabet, in either case. */
  ghost predicate IsIdentifier(v: Text) {
    1 <= |v| <= 8 && forall b :: b in Upper(v) ==> InAlphabet(b)
  }

  /** ASCII without zero bytes, within a width. */
  ghost predicate IsField(v: Text, width: nat) {
    |v| < width && forall b :: b in v ==> 1 <= b <= 127
  }

  lemma TextFitsIff(v: Text, width: nat)
    ensures TextFits(v, width) <==> IsField(v, width)
  {
    assert forall i :: 0 <= i < |v| ==> v[i] in v;
    if TextFits(v, width) {
      forall b | b in v ensures 1 <= b <= 127 {
        var i :| 0 <= i < |v| && v[i] == b;
      }
    }
  }

  lemma IdentifierIff(v: Text)
    ensures IdentifierOk(v) <==> IsIdentifier(v)
  {
    AllAllowedIff(Upper(v));
  }

  lemma ArgumentIff(v: Text)
    ensures ArgumentOk(v) <==> 1 <= |v| <= 31 && forall b :: b in v ==> 0x20 <= b <= 0x7E
  {
    TextFitsIff(v, 32);
    assert forall i :: 0 <= i < |v| ==> v[i] in v;
    if ArgumentOk(v) {
      forall b | b in v ensures 0x20 <= b <= 0x7E {
        var i :| 0 <= i < |v| && v[i] == b;
      }
    }
  }

  lemma PagesIff(n: int)
    ensures 65_536 <= n <= 0x1000_0000 && n % 4096 == 0 <==> exists k :: 16 <= k <= 65_536 && n == 4096 * k
  {
    if n % 4096 == 0 {
      assert n == 4096 * (n / 4096);
    }
  }

  /** A specification is admitted exactly so: ABI 1; a name of 1 to 31 bytes; identifiers of 1 to 8
      characters; 8.3 names; at most eight printable arguments of 1 to 31 bytes; 16 to 65536 pages;
      1 to 128 handles; 1 to 8 threads; capabilities of the table. */
  lemma SpecOkIff(s: Spec)
    ensures SpecOk(s) <==>
      && s.abiVersion == 1 && 1 <= |s.name| && IsField(s.name, 32)
      && IsIdentifier(s.identifier) && IsIdentifier(s.dataNamespace)
      && (s.resourceDirectory == [] || IsIdentifier(s.resourceDirectory))
      && Encode(s.executable).Some? && (s.icon == [] || Encode(s.icon).Some?)
      && |s.arguments| <= 8
      && (forall a :: a in s.arguments ==> 1 <= |a| <= 31 && forall b :: b in a ==> 0x20 <= b <= 0x7E)
      && (exists k :: 16 <= k <= 65_536 && s.memoryLimit == 4096 * k)
      && 1 <= s.maxHandles <= 128 && 1 <= s.maxThreads <= 8
      && (forall c :: c in s.capabilities ==> c in CAPABILITIES)
  {
    hide IsIdentifier, IsField, IdentifierOk, TextFits, Encode, ArgumentOk, CAPABILITIES;
    TextFitsIff(s.name, 32);
    IdentifierIff(s.identifier);
    IdentifierIff(s.dataNamespace);
    IdentifierIff(s.resourceDirectory);
    PagesIff(s.memoryLimit);
    forall i | 0 <= i < |s.arguments|
      ensures ArgumentOk(s.arguments[i]) <==> 1 <= |s.arguments[i]| <= 31 && forall b :: b in s.arguments[i] ==> 0x20 <= b <= 0x7E
    {
      ArgumentIff(s.arguments[i]);
    }
    ArgumentsIff(s.arguments);
  }

  lemma ArgumentsIff(arguments: seq<Text>)
    ensures (forall i :: 0 <= i < |arguments| ==> ArgumentOk(arguments[i])) <==> forall a :: a in arguments ==> ArgumentOk(a)
  {
    hide ArgumentOk;
    forall a | a in arguments ensures exists i :: 0 <= i < |arguments| && arguments[i] == a {
    }
  }

  /** A package is built exactly from an admitted specification, an executable and at most thirteen
      resources of 1 byte to 16 MiB, with 8.3 names that differ beyond case. */
  lemma BuildOkIff(spec: Spec, executable: seq<byte>, resources: seq<Resource>)
    ensures BuildOk(spec, executable, resources) <==>
      && 1 <= |executable| <= 16_777_216 && SpecOk(spec) && |resources| <= 13
      && (forall r :: r in resources ==> Encode(r.path).Some? && 1 <= |r.payload| <= 16_777_216)
      && (forall i, j :: 0 <= i < j < |resources| ==> Upper(resources[i].path) != Upper(resources[j].path))
  {
    hide SpecOk, Encode;
    if FatPlan.DistinctKeys(resources, Key) {
      forall i, j | 0 <= i < j < |resources| ensures Upper(resources[i].path) != Upper(resources[j].path) {
        assert Key(resources[i]) != Key(resources[j]);
      }
    }
  }

  // ---------------------------------------------------------------------------------------------
  // Offsets

  /** Where an accepted manifest keeps what is reported. */
  lemma ManifestOffsets(m: seq<byte>, executable: seq<byte>, hash: Hash, r: Report)
    requires Inspect(m, executable, hash) == Some(r)
    ensures |m| == 1024 && m[..8] == [0x53, 0x41, 0x50, 0x4F, 0x54, 0x45, 0x41, 0x31]
    ensures U16(m, 8) == 1 && U16(m, 10) == 1024 && U32(m, 12) == 1 && U32(m, 16) == 0 && U16(m, 26) == 0
    ensures U16(m, 20) == |r.arguments| <= 8 && U16(m, 22) == r.maxHandles && U16(m, 24) == r.maxThreads
    ensures U64(m, 28) < 1024 && U64(m, 36) == r.memoryLimit && |r.flags| == 10
    ensures forall i :: 0 <= i < 10 ==> r.flags[i] == (U64(m, 28) / Power(i) % 2 == 1)
    ensures DecodeText(m[64..96]) == Some(r.name) && DecodeText(m[96..112]) == Some(r.identifier)
    ensures DecodeText(m[112..128]) == Some(r.executable) && m[128..160] == r.digest == hash(executable)
    ensures DecodeText(m[160..176]) == Some(r.resourceDirectory) && DecodeText(m[176..192]) == Some(r.dataNamespace)
    ensures DecodeText(m[192..208]) == Some(r.icon) && r.executableBytes == |executable|
    ensures forall i :: 0 <= i < |r.arguments| ==> DecodeText(m[208 + 32 * i..240 + 32 * i]) == Some(r.arguments[i])
  {
    hide DecodeText, U16, U32, U64, NoneSet, DecodeArguments;
    forall i | 0 <= i < 10 ensures r.flags[i] == (U64(m, 28) / Power(i) % 2 == 1) {
      FlagIsBit(U64(m, 28), 10, i);
    }
    DecodedCount(m[208..464], U16(m, 20));
    forall i | 0 <= i < |r.arguments| ensures DecodeText(m[208 + 32 * i..240 + 32 * i]) == Some(r.arguments[i]) {
      DecodedAt(m[208..464], U16(m, 20), i);
      SliceOfSlice(m, 208, 464, 32 * i, 32 * i + 32);
    }
  }

  lemma {:induction false} DecodedAt(block: seq<byte>, count: nat, i: nat)
    requires 32 * count <= |block| && i < count && DecodeArguments(block, count).Some?
    ensures |DecodeArguments(block, count).value| == count
    ensures DecodeText(block[32 * i..32 * i + 32]) == Some(DecodeArguments(block, count).value[i])
  {
    hide DecodeText;
    DecodedCount(block, count);
    if 0 < i {
      DecodedAt(block[32..], count - 1, i - 1);
      assert block[32..][32 * (i - 1)..32 * (i - 1) + 32] == block[32 * i..32 * i + 32];
    } else {
      assert block[..32] == block[0..32];
    }
  }

  /** Where an accepted package keeps what is returned. */
  lemma PackageOffsets(p: seq<byte>, hash: Hash, q: Parsed)
    requires Parse(p, hash) == Some(q)
    ensures 1088 <= |p| && p[..8] == [0x53, 0x41, 0x50, 0x4F, 0x53, 0x50, 0x4B, 0x31]
    ensures U16(p, 8) == q.version == (if q.resources == [] then 1 else 2) && U16(p, 10) == 64 && U32(p, 12) == 1024
    ensures U64(p, 16) == |q.executable| && U16(p, 24) == |q.resources| <= 13 && U16(p, 26) == 0
    ensures p[32..64] == hash(p[64..]) && p[64..1088] == q.manifest && 1088 + |q.executable| <= |p|
    ensures p[1088..1088 + |q.executable|] == q.executable && U32(p, 28) == |p| - 1088 - |q.executable|
  {
    hide Inspect, Read, U16, U32, U64, Storable, Package;
    ParseIsExact(p, hash, q);
    ReadCount(p[64..], 1024 + U64(p, 16), U16(p, 24), {});
    SliceOfSlice(p, 64, |p|, 0, 1024);
    SliceOfSlice(p, 64, |p|, 1024, 1024 + |q.executable|);
    assert p[64..] == p[64..|p|] && p[64..|p|][..1024] == p[64..|p|][0..1024];
    VersionIs(q, hash);
  }

  lemma VersionIs(q: Parsed, hash: Hash)
    requires Storable(q, hash)
    ensures q.version == if q.resources == [] then 1 else 2
  {
  }

  /** A stored record: the path in 16 bytes, the length in eight, eight zeros, the payload. */
  lemma RecordOffsets(r: Resource)
    requires StoredOk(r)
    ensures
      var s := Record(r);
      && |s| == 32 + |r.payload| && DecodeText(s[..16]) == Some(r.path) && U64(s, 16) == |r.payload|
      && (forall i :: 24 <= i < 32 ==> s[i] == 0) && s[32..] == r.payload
  {
    hide DecodeText, Encode, IsAscii, Le64, U64;
    StoredFits(r);
    var s, h := Record(r), Field(r.path, 16) + Le64(|r.payload|) + Zeros(8);
    assert s == h + r.payload && s[..32] == h && s[..16] == h[..16];
    HeaderIs(h, r);
    assert forall i :: 24 <= i < 32 ==> s[i] == h[24..][i - 24];
    assert s[16..24] == Le64(|r.payload|);
    Read64(s, 16, |r.payload|);
  }

  /** What an encoded manifest is read back as, field by field. */
  lemma SpecIsReported(spec: Spec, executable: seq<byte>, hash: Hash)
    requires SpecOk(spec)
    ensures
      var r := Inspect(ManifestOf(spec, executable, hash), executable, hash);
      && r.Some? && r.value.name == spec.name && r.value.identifier == Upper(spec.identifier)
      && r.value.executable == Upper(spec.executable) && r.value.dataNamespace == Upper(spec.dataNamespace)
      && r.value.resourceDirectory == Upper(spec.resourceDirectory) && r.value.icon == Upper(spec.icon)
      && r.value.arguments == spec.arguments && r.value.memoryLimit == spec.memoryLimit
      && r.value.maxHandles == spec.maxHandles && r.value.maxThreads == spec.maxThreads
      && r.value.executableBytes == |executable| && r.value.digest == hash(executable)
      && |r.value.flags| == 10 && forall i :: 0 <= i < 10 ==> (r.value.flags[i] <==> CAPABILITIES[i] in spec.capabilities)
  {
    hide Inspect, SpecOk, ManifestOf, CAPABILITIES;
    TenCapabilities();
    ManifestRoundTrip(spec, executable, hash);
  }
}
