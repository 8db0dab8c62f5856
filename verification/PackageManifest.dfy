/** The 1024-byte application manifest: encoder, inspector, and how they fit together. */
module PackageManifest {
  import opened Bytes
  import opened ShortNames
  import opened PackageFields

  type Digest = s: seq<byte> | |s| == 32 witness Zeros(32)

  /** The digest of a byte string; SHA-256 in the source. */
  type Hash = seq<byte> -> Digest

  /** A package specification, with the defaults already filled in. */
  datatype Spec = Spec(
    abiVersion: int, name: Text, identifier: Text, executable: Text, dataNamespace: Text, resourceDirectory: Text,
    icon: Text, arguments: seq<Text>, memoryLimit: int, maxHandles: int, maxThreads: int, capabilities: seq<string>)

  /** What a manifest says, as the inspector reports it. */
  datatype Report = Report(
    name: Text, identifier: Text, executable: Text, executableBytes: nat, digest: seq<byte>, memoryLimit: nat,
    maxHandles: nat, maxThreads: nat, flags: seq<bool>, resourceDirectory: Text, dataNamespace: Text, icon: Text,
    arguments: seq<Text>)

  const MAGIC: seq<byte> := [0x53, 0x41, 0x50, 0x4F, 0x54, 0x45, 0x41, 0x31]  // SAPOTEA1

  // ---------------------------------------------------------------------------------------------
  // Layout

  /** Bytes 0 to 20: magic, format 1, size 1024, ABI 1 and no flags. */
  function Lead(): (r: seq<byte>)
    ensures |r| == 20
  {
    MAGIC + (Le16(1) + Le16(1024)) + (Le32(1) + Le32(0))
  }

  /** Bytes 20 to 44. */
  function Numbers(argc: nat, handles: nat, threads: nat, bits: nat, memory: nat): (r: seq<byte>)
    requires argc < 0x1_0000 && handles < 0x1_0000 && threads < 0x1_0000
    requires bits < 0x1_0000_0000_0000_0000 && memory < 0x1_0000_0000_0000_0000
    ensures |r| == 24
  {
    (Le16(argc) + Le16(handles)) + (Le16(threads) + Le16(0)) + (Le64(bits) + Le64(memory))
  }

  ghost predicate ReportFits(r: Report) {
    && TextFits(r.name, 32) && TextFits(r.identifier, 16) && TextFits(r.executable, 16) && TextFits(r.resourceDirectory, 16)
    && TextFits(r.dataNamespace, 16) && TextFits(r.icon, 16) && |r.digest| == 32 && |r.flags| == 10
    && r.maxHandles < 0x1_0000 && r.maxThreads < 0x1_0000 && r.memoryLimit < 0x1_0000_0000_0000_0000
    && |r.arguments| <= 8 && forall a :: a in r.arguments ==> TextFits(a, 32) && Printable(a)
  }

  /** Bytes 64 to 208. */
  function Names(r: Report): (s: seq<byte>)
    requires |r.name| < 32 && |r.identifier| < 16 && |r.executable| < 16 && |r.resourceDirectory| < 16
    requires |r.dataNamespace| < 16 && |r.icon| < 16 && |r.digest| == 32
    ensures |s| == 144
  {
    (Field(r.name, 32) + Field(r.identifier, 16) + Field(r.executable, 16)) + r.digest
    + (Field(r.resourceDirectory, 16) + Field(r.dataNamespace, 16) + Field(r.icon, 16))
  }

  function Arguments(args: seq<Text>): (s: seq<byte>)
    requires forall a :: a in args ==> |a| < 32
    ensures |s| == 32 * |args|
  {
    if args == [] then [] else Field(args[0], 32) + Arguments(args[1..])
  }

  /** Bytes 208 to 464: the arguments, then unused records of zeros. */
  function ArgumentBlock(args: seq<Text>): (s: seq<byte>)
    requires |args| <= 8 && forall a :: a in args ==> |a| < 32
    ensures |s| == 256
  {
    Arguments(args) + Zeros(256 - 32 * |args|)
  }

  lemma SmallBits(flags: seq<bool>)
    requires |flags| == 10
    ensures Bits(flags) < 1024
  {
    BitsRoundTrip(flags);
    assert Power(10) == 1024;
  }

  /** The manifest of a report. `gap` is bytes 464 to 496, which hold nothing. */
  ghost function Layout(r: Report, gap: seq<byte>): (s: seq<byte>)
    requires ReportFits(r) && |gap| == 32
    ensures |s| == 1024
  {
    SmallBits(r.flags);
    Lead() + Numbers(|r.arguments|, r.maxHandles, r.maxThreads, Bits(r.flags), r.memoryLimit) + Zeros(20)
    + Names(r) + ArgumentBlock(r.arguments) + gap + Zeros(528)
  }

  // ---------------------------------------------------------------------------------------------
  // Inspector

  function DecodeArguments(block: seq<byte>, count: nat): (r: Option<seq<Text>>)
    requires 32 * count <= |block|
  {
    if count == 0 then Some([]) else
    var first := DecodeArgument(block[..32]);
    if first.None? then None else
    var rest := DecodeArguments(block[32..], count - 1);
    if rest.None? then None else Some([first.value] + rest.value)
  }

  predicate LeadOk(m: seq<byte>)
    requires |m| == 1024
  {
    m[..8] == MAGIC && U16(m, 8) == 1 && U16(m, 10) == 1024 && U32(m, 12) == 1 && U32(m, 16) == 0 && U16(m, 26) == 0
  }

  /** `inspect_manifest`; `None` is a refusal. */
  function Inspect(m: seq<byte>, executable: seq<byte>, hash: Hash): (r: Option<Report>) {
    if |m| != 1024 || !LeadOk(m) || !NoneSet(m[44..64]) || !NoneSet(m[496..]) then None else
    var argc, handles, threads, bits, memory := U16(m, 20), U16(m, 22), U16(m, 24), U64(m, 28), U64(m, 36);
    if argc > 8 || bits >= 1024 || m[128..160] != hash(executable) then None else
    var args := DecodeArguments(m[208..464], argc);
    if args.None? || !NoneSet(m[208..464][32 * argc..]) then None else
    var name, id, exe := DecodeText(m[64..96]), DecodeText(m[96..112]), DecodeText(m[112..128]);
    var resources, data, icon := DecodeText(m[160..176]), DecodeText(m[176..192]), DecodeText(m[192..208]);
    if name.None? || id.None? || exe.None? || resources.None? || data.None? || icon.None? then None else
    Some(Report(name.value, id.value, exe.value, |executable|, hash(executable), memory, handles, threads,
      Flags(bits, 10), resources.value, data.value, icon.value, args.value))
  }

  // ---------------------------------------------------------------------------------------------
  // The inspector reads exactly the layout

  lemma LeadIs(m: seq<byte>)
    requires |m| == 1024
    ensures m[..20] == Lead() && U16(m, 26) == 0 <==> LeadOk(m)
  {
    hide U16, U32, Le16, Le32;
    Read16(m, 8, 1);
    Read16(m, 10, 1024);
    Read32(m, 12, 1);
    Read32(m, 16, 0);
    SliceOfSlice(m, 0, 20, 0, 8);
    SliceOfSlice(m, 0, 20, 8, 10);
    SliceOfSlice(m, 0, 20, 10, 12);
    SliceOfSlice(m, 0, 20, 12, 16);
    SliceOfSlice(m, 0, 20, 16, 20);
    assert m[..20] == m[0..20] && m[..8] == m[0..8];
    CutLead(m[0..20], MAGIC, Le16(1), Le16(1024), Le32(1), Le32(0));
  }

  lemma CutLead(s: seq<byte>, a: seq<byte>, b: seq<byte>, c: seq<byte>, d: seq<byte>, e: seq<byte>)
    requires |s| == 20 && |a| == 8 && |b| == |c| == 2 && |d| == |e| == 4
    ensures s == a + (b + c) + (d + e) <==>
      s[0..8] == a && s[8..10] == b && s[10..12] == c && s[12..16] == d && s[16..20] == e
  {
    var n := a + (b + c) + (d + e);
    assert n[0..8] == a && n[8..10] == b && n[10..12] == c && n[12..16] == d && n[16..20] == e;
    assert s == s[0..8] + (s[8..10] + s[10..12]) + (s[12..16] + s[16..20]);
  }

  lemma NumbersAre(m: seq<byte>, argc: nat, handles: nat, threads: nat, bits: nat, memory: nat)
    requires |m| == 1024 && argc < 0x1_0000 && handles < 0x1_0000 && threads < 0x1_0000
    requires bits < 0x1_0000_0000_0000_0000 && memory < 0x1_0000_0000_0000_0000
    ensures m[20..44] == Numbers(argc, handles, threads, bits, memory) <==>
      && U16(m, 20) == argc && U16(m, 22) == handles && U16(m, 24) == threads && U16(m, 26) == 0
      && U64(m, 28) == bits && U64(m, 36) == memory
  {
    hide U16, U64, Le16, Le64;
    Read16(m, 20, argc);
    Read16(m, 22, handles);
    Read16(m, 24, threads);
    Read16(m, 26, 0);
    Read64(m, 28, bits);
    Read64(m, 36, memory);
    SliceOfSlice(m, 20, 44, 0, 2);
    SliceOfSlice(m, 20, 44, 2, 4);
    SliceOfSlice(m, 20, 44, 4, 6);
    SliceOfSlice(m, 20, 44, 6, 8);
    SliceOfSlice(m, 20, 44, 8, 16);
    SliceOfSlice(m, 20, 44, 16, 24);
    CutNumbers(m[20..44], Le16(argc), Le16(handles), Le16(threads), Le16(0), Le64(bits), Le64(memory));
  }

  lemma CutNumbers(s: seq<byte>, a: seq<byte>, b: seq<byte>, c: seq<byte>, d: seq<byte>, e: seq<byte>, f: seq<byte>)
    requires |s| == 24 && |a| == |b| == |c| == |d| == 2 && |e| == |f| == 8
    ensures s == (a + b) + (c + d) + (e + f) <==>
      s[0..2] == a && s[2..4] == b && s[4..6] == c && s[6..8] == d && s[8..16] == e && s[16..24] == f
  {
    var n := (a + b) + (c + d) + (e + f);
    assert n[0..2] == a && n[2..4] == b && n[4..6] == c && n[6..8] == d && n[8..16] == e && n[16..24] == f;
    assert s == (s[0..2] + s[2..4]) + (s[4..6] + s[6..8]) + (s[8..16] + s[16..24]);
  }

  lemma NamesAreRead(m: seq<byte>, r: Report)
    requires |m| == 1024 && ReportFits(r)
    ensures m[64..208] == Names(r) <==>
      && m[64..96] == Field(r.name, 32) && m[96..112] == Field(r.identifier, 16) && m[112..128] == Field(r.executable, 16)
      && m[128..160] == r.digest && m[160..176] == Field(r.resourceDirectory, 16)
      && m[176..192] == Field(r.dataNamespace, 16) && m[192..208] == Field(r.icon, 16)
  {
    hide Field, IsAscii, Printable;
    SliceOfSlice(m, 64, 208, 0, 32);
    SliceOfSlice(m, 64, 208, 32, 48);
    SliceOfSlice(m, 64, 208, 48, 64);
    SliceOfSlice(m, 64, 208, 64, 96);
    SliceOfSlice(m, 64, 208, 96, 112);
    SliceOfSlice(m, 64, 208, 112, 128);
    SliceOfSlice(m, 64, 208, 128, 144);
    CutNames(m[64..208], Field(r.name, 32), Field(r.identifier, 16), Field(r.executable, 16), r.digest,
      Field(r.resourceDirectory, 16), Field(r.dataNamespace, 16), Field(r.icon, 16));
  }

  lemma CutNames(
    s: seq<byte>, a: seq<byte>, b: seq<byte>, c: seq<byte>, d: seq<byte>, e: seq<byte>, f: seq<byte>, g: seq<byte>)
    requires |s| == 144 && |a| == 32 && |b| == |c| == 16 && |d| == 32 && |e| == |f| == |g| == 16
    ensures s == (a + b + c) + d + (e + f + g) <==>
      && s[0..32] == a && s[32..48] == b && s[48..64] == c && s[64..96] == d
      && s[96..112] == e && s[112..128] == f && s[128..144] == g
  {
    var n := (a + b + c) + d + (e + f + g);
    assert n[0..32] == a && n[32..48] == b && n[48..64] == c && n[64..96] == d;
    assert n[96..112] == e && n[112..128] == f && n[128..144] == g;
    assert s == (s[0..32] + s[32..48] + s[48..64]) + s[64..96] + (s[96..112] + s[112..128] + s[128..144]);
  }

  lemma ArgumentIsExact(data: seq<byte>, v: Text)
    requires |data| == 32
    ensures DecodeArgument(data) == Some(v) <==> TextFits(v, 32) && Printable(v) && data == Field(v, 32)
  {
    TextIsExact(data, v);
  }

  ghost predicate ArgumentsFit(args: seq<Text>) {
    forall a :: a in args ==> TextFits(a, 32) && Printable(a)
  }

  lemma {:induction false} ArgumentsAreExact(block: seq<byte>, args: seq<Text>)
    requires 32 * |args| <= |block|
    ensures DecodeArguments(block, |args|) == Some(args) <==>
      ArgumentsFit(args) && block[..32 * |args|] == Arguments(args)
  {
    hide DecodeArgument, IsAscii, Printable, Field;
    if args != [] {
      var first, rest := args[0], args[1..];
      assert args == [first] + rest;
      ArgumentIsExact(block[..32], first);
      ArgumentsAreExact(block[32..], rest);
      var s := block[..32 * |args|];
      assert s[..32] == block[..32] && s[32..] == block[32..][..32 * |rest|] && s == s[..32] + s[32..];
      assert ArgumentsFit(args) <==> TextFits(first, 32) && Printable(first) && ArgumentsFit(rest);
      if ArgumentsFit(args) {
        assert Arguments(args)[..32] == Field(first, 32) && Arguments(args)[32..] == Arguments(rest);
      }
      DecodedCount(block[32..], |rest|);
    }
  }

  lemma {:induction false} DecodedCount(block: seq<byte>, count: nat)
    requires 32 * count <= |block|
    ensures DecodeArguments(block, count).Some? ==> |DecodeArguments(block, count).value| == count
  {
    hide DecodeArgument;
    if 0 < count {
      DecodedCount(block[32..], count - 1);
    }
  }

  lemma BlockIs(block: seq<byte>, args: seq<Text>)
    requires |block| == 256 && |args| <= 8
    ensures ArgumentsFit(args) && block == ArgumentBlock(args) <==>
      DecodeArguments(block, |args|) == Some(args) && NoneSet(block[32 * |args|..])
  {
    hide DecodeArguments, Arguments, Printable;
    ArgumentsAreExact(block, args);
    var n := 32 * |args|;
    assert block == block[..n] + block[n..];
    if ArgumentsFit(args) {
      var a := ArgumentBlock(args);
      assert a[..n] == Arguments(args) && a[n..] == Zeros(256 - n);
      if NoneSet(block[n..]) {
        assert block[n..] == Zeros(256 - n);
      }
    }
  }

  /** The parts of a manifest, cut as the layout puts them. */
  lemma Cut(m: seq<byte>, a: seq<byte>, b: seq<byte>, c: seq<byte>, d: seq<byte>, e: seq<byte>, f: seq<byte>, g: seq<byte>)
    requires |m| == 1024 && |a| == 20 && |b| == 24 && |c| == 20 && |d| == 144 && |e| == 256 && |f| == 32 && |g| == 528
    ensures m == a + b + c + d + e + f + g <==>
      m[..20] == a && m[20..44] == b && m[44..64] == c && m[64..208] == d && m[208..464] == e && m[464..496] == f && m[496..] == g
  {
    var s := a + b + c + d + e + f + g;
    assert s[..20] == a && s[20..44] == b && s[44..64] == c && s[64..208] == d;
    assert s[208..464] == e && s[464..496] == f && s[496..] == g;
    assert m == m[..20] + m[20..44] + m[44..64] + m[64..208] + m[208..464] + m[464..496] + m[496..];
  }

  lemma ZerosAre(s: seq<byte>)
    ensures s == Zeros(|s|) <==> NoneSet(s)
  {
  }

  /** The report's own facts about the executable. */
  ghost predicate Describes(r: Report, executable: seq<byte>, hash: Hash) {
    r.executableBytes == |executable| && r.digest == hash(executable)
  }

  /** The inspector accepts exactly the layouts, and reports what was laid out; the 32 bytes from 464
      to 496 are free. */
  lemma InspectIsExact(m: seq<byte>, executable: seq<byte>, hash: Hash, r: Report)
    ensures Inspect(m, executable, hash) == Some(r) <==>
      |m| == 1024 && ReportFits(r) && Describes(r, executable, hash) && m == Layout(r, m[464..496])
  {
    hide Layout, Inspect, ReportFits;
    if Inspect(m, executable, hash) == Some(r) {
      AcceptedIsLaidOut(m, executable, hash, r);
    }
    if |m| == 1024 && ReportFits(r) && Describes(r, executable, hash) && m == Layout(r, m[464..496]) {
      LaidOutIsAccepted(m, executable, hash, r);
    }
  }

  lemma AcceptedIsLaidOut(m: seq<byte>, executable: seq<byte>, hash: Hash, r: Report)
    requires Inspect(m, executable, hash) == Some(r)
    ensures |m| == 1024 && ReportFits(r) && Describes(r, executable, hash) && m == Layout(r, m[464..496])
  {
    hide LeadOk, U16, U64, DecodeText, DecodeArguments, Lead, Numbers, Names, ArgumentBlock, Field, IsAscii, Printable, NoneSet;
    AcceptedFits(m, executable, hash, r);
    LeadIs(m);
    SmallBits(r.flags);
    FlagsAre(U64(m, 28));
    LeadLeaves(m);
    NumbersAre(m, |r.arguments|, r.maxHandles, r.maxThreads, Bits(r.flags), r.memoryLimit);
    ZerosAre(m[44..64]);
    ZerosAre(m[496..]);
    NamesAreRead(m, r);
    BlockIs(m[208..464], r.arguments);
    Cut(m, Lead(), Numbers(|r.arguments|, r.maxHandles, r.maxThreads, Bits(r.flags), r.memoryLimit), Zeros(20), Names(r),
      ArgumentBlock(r.arguments), m[464..496], Zeros(528));
  }

  lemma LeadLeaves(m: seq<byte>)
    requires |m| == 1024 && LeadOk(m)
    ensures U16(m, 26) == 0
  {
  }

  lemma FlagsAre(bits: nat)
    requires bits < 1024
    ensures Bits(Flags(bits, 10)) == bits
  {
    assert Power(10) == 1024;
    FlagsRoundTrip(bits, 10);
  }

  lemma AcceptedFits(m: seq<byte>, executable: seq<byte>, hash: Hash, r: Report)
    requires Inspect(m, executable, hash) == Some(r)
    ensures |m| == 1024 && ReportFits(r) && Describes(r, executable, hash) && |r.arguments| == U16(m, 20)
    ensures m[64..96] == Field(r.name, 32) && m[96..112] == Field(r.identifier, 16) && m[112..128] == Field(r.executable, 16)
    ensures m[128..160] == r.digest && m[160..176] == Field(r.resourceDirectory, 16)
    ensures m[176..192] == Field(r.dataNamespace, 16) && m[192..208] == Field(r.icon, 16)
  {
    hide LeadOk, DecodeText, DecodeArguments, Field, IsAscii, Printable, NoneSet;
    TextIsExact(m[64..96], r.name);
    TextIsExact(m[96..112], r.identifier);
    TextIsExact(m[112..128], r.executable);
    TextIsExact(m[160..176], r.resourceDirectory);
    TextIsExact(m[176..192], r.dataNamespace);
    TextIsExact(m[192..208], r.icon);
    DecodedCount(m[208..464], U16(m, 20));
    ArgumentsAreExact(m[208..464], r.arguments);
  }

  lemma LaidOutIsAccepted(m: seq<byte>, executable: seq<byte>, hash: Hash, r: Report)
    requires |m| == 1024 && ReportFits(r) && Describes(r, executable, hash) && m == Layout(r, m[464..496])
    ensures Inspect(m, executable, hash) == Some(r)
  {
    hide LeadOk, U16, U64, DecodeText, DecodeArguments, Lead, Numbers, Names, ArgumentBlock, Field, IsAscii, Printable, NoneSet;
    SmallBits(r.flags);
    BitsRoundTrip(r.flags);
    Cut(m, Lead(), Numbers(|r.arguments|, r.maxHandles, r.maxThreads, Bits(r.flags), r.memoryLimit), Zeros(20), Names(r),
      ArgumentBlock(r.arguments), m[464..496], Zeros(528));
    NumbersAre(m, |r.arguments|, r.maxHandles, r.maxThreads, Bits(r.flags), r.memoryLimit);
    LeadIs(m);
    ZerosAre(m[44..64]);
    ZerosAre(m[496..]);
    NamesAreRead(m, r);
    BlockIs(m[208..464], r.arguments);
    TextIsExact(m[64..96], r.name);
    TextIsExact(m[96..112], r.identifier);
    TextIsExact(m[112..128], r.executable);
    TextIsExact(m[160..176], r.resourceDirectory);
    TextIsExact(m[176..192], r.dataNamespace);
    TextIsExact(m[192..208], r.icon);
  }
}
