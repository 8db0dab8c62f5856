/** The field codecs of the package format: fixed-width text, 64-bit integers, capability bits. */
module PackageFields {
  import opened Bytes
  import opened ShortNames

  // ---------------------------------------------------------------------------------------------
  // Integers

  function U64(s: seq<byte>, o: nat): (r: nat)
    requires o + 8 <= |s|
    ensures r < 0x1_0000_0000_0000_0000
  {
    U32(s, o) + 0x1_0000_0000 * U32(s, o + 4)
  }

  function Le64(v: nat): (r: seq<byte>)
    requires v < 0x1_0000_0000_0000_0000
    ensures |r| == 8
  {
    Le32(v % 0x1_0000_0000) + Le32(v / 0x1_0000_0000)
  }

  lemma Read16(s: seq<byte>, o: nat, v: nat)
    requires o + 2 <= |s| && v < 0x1_0000
    ensures s[o..o + 2] == Le16(v) <==> U16(s, o) == v
  {
    var t := s[o..o + 2];
    assert t[0] == s[o] && t[1] == s[o + 1];
    assert s[o..o + 2] == [s[o], s[o + 1]];
  }

  lemma Read32(s: seq<byte>, o: nat, v: nat)
    requires o + 4 <= |s| && v < 0x1_0000_0000
    ensures s[o..o + 4] == Le32(v) <==> U32(s, o) == v
  {
    hide Le32;
    var t, w := s[o..o + 4], Le32(v);
    assert t == [s[o], s[o + 1], s[o + 2], s[o + 3]];
    assert U32(t, 0) == U32(s, o);
    if U32(t, 0) == U32(w, 0) {
      SameDigits(t, w);
    }
  }

  /** Four bytes are determined by the number they make. */
  lemma SameDigits(a: seq<byte>, b: seq<byte>)
    requires |a| == |b| == 4 && U32(a, 0) == U32(b, 0)
    ensures a == b
  {
    var x, y := a[0] as int + 0x100 * (a[1] as int), b[0] as int + 0x100 * (b[1] as int);
    var u, v := a[2] as int + 0x100 * (a[3] as int), b[2] as int + 0x100 * (b[3] as int);
    assert x + 0x1_0000 * u == y + 0x1_0000 * v && 0 <= x < 0x1_0000 && 0 <= y < 0x1_0000;
    assert u == v && x == y;
    assert a[0] == b[0] && a[1] == b[1] && a[2] == b[2] && a[3] == b[3];
  }

  lemma Read64(s: seq<byte>, o: nat, v: nat)
    requires o + 8 <= |s| && v < 0x1_0000_0000_0000_0000
    ensures s[o..o + 8] == Le64(v) <==> U64(s, o) == v
  {
    hide Le32, U32;
    var t, low, high := s[o..o + 8], v % 0x1_0000_0000, v / 0x1_0000_0000;
    assert t[..4] == s[o..o + 4] && t[4..] == s[o + 4..o + 8] && t == t[..4] + t[4..];
    Read32(s, o, low);
    Read32(s, o + 4, high);
    assert Le64(v)[..4] == Le32(low) && Le64(v)[4..] == Le32(high);
  }

  // ---------------------------------------------------------------------------------------------
  // Text

  /** What `text_field` accepts; a required text must also be non-empty. */
  predicate TextFits(v: Text, width: nat) {
    IsAscii(v) && |v| < width && 0 !in v
  }

  /** Text padded with zero bytes. */
  function Field(v: Text, width: nat): (r: seq<byte>)
    requires |v| < width
    ensures |r| == width
  {
    v + Zeros(width - |v|)
  }

  function FirstZero(s: seq<byte>): (i: nat)
    ensures i <= |s| && (i < |s| ==> s[i] == 0) && forall k :: 0 <= k < i ==> s[k] != 0
  {
    if s == [] || s[0] == 0 then 0 else 1 + FirstZero(s[1..])
  }

  predicate NoneSet(s: seq<byte>) {
    forall i :: 0 <= i < |s| ==> s[i] == 0
  }

  /** `decode_text`: refuse text that is not terminated, has a nonzero tail or is not ASCII. */
  function DecodeText(data: seq<byte>): (r: Option<Text>) {
    var end := FirstZero(data);
    if end == |data| || !NoneSet(data[end..]) || !IsAscii(data[..end]) then None else Some(data[..end])
  }

  predicate Printable(v: Text) {
    forall i :: 0 <= i < |v| ==> 0x20 <= v[i] <= 0x7E
  }

  function DecodeArgument(data: seq<byte>): (r: Option<Text>) {
    var v := DecodeText(data);
    if v.Some? && Printable(v.value) then v else None
  }

  /** Decoding inverts encoding, on exactly the texts that can be encoded. */
  lemma TextIsExact(data: seq<byte>, v: Text)
    ensures DecodeText(data) == Some(v) <==> TextFits(v, |data|) && data == Field(v, |data|)
  {
    var end := FirstZero(data);
    if DecodeText(data) == Some(v) {
      assert data == data[..end] + data[end..];
      assert data[end..] == Zeros(|data| - end);
    }
    if TextFits(v, |data|) && data == Field(v, |data|) {
      assert data[|v|] == 0;
      assert forall k :: 0 <= k < |v| ==> data[k] == v[k];
      assert end == |v| && data[..end] == v && data[end..] == Zeros(|data| - end);
    }
  }

  // ---------------------------------------------------------------------------------------------
  // Capabilities

  const CAPABILITIES: seq<string> := [
    "console", "system-read", "data-read", "data-write", "time", "entropy", "window", "input", "network", "threads"]

  /** The number with these bits, the first one lowest. */
  function Bits(flags: seq<bool>): (n: nat) {
    if flags == [] then 0 else (if flags[0] then 1 else 0) + 2 * Bits(flags[1..])
  }

  function Flags(n: nat, count: nat): (r: seq<bool>)
    ensures |r| == count
  {
    if count == 0 then [] else [n % 2 == 1] + Flags(n / 2, count - 1)
  }

  function Power(k: nat): (p: nat)
    ensures 0 < p
  {
    if k == 0 then 1 else 2 * Power(k - 1)
  }

  lemma {:induction false} BitsRoundTrip(flags: seq<bool>)
    ensures Flags(Bits(flags), |flags|) == flags && Bits(flags) < Power(|flags|)
  {
    if flags != [] {
      BitsRoundTrip(flags[1..]);
      assert flags == [flags[0]] + flags[1..];
    }
  }

  lemma {:induction false} FlagsRoundTrip(n: nat, count: nat)
    requires n < Power(count)
    ensures Bits(Flags(n, count)) == n
  {
    if 0 < count {
      FlagsRoundTrip(n / 2, count - 1);
      assert Flags(n, count)[1..] == Flags(n / 2, count - 1);
    }
  }

  /** The names of the set bits, in table order. */
  function NamesOf(flags: seq<bool>, names: seq<string>): (r: seq<string>)
    requires |flags| == |names|
  {
    if flags == [] then [] else (if flags[0] then [names[0]] else []) + NamesOf(flags[1..], names[1..])
  }

  lemma {:induction false} NamesAre(flags: seq<bool>, names: seq<string>, name: string)
    requires |flags| == |names|
    ensures name in NamesOf(flags, names) <==> exists i :: 0 <= i < |names| && flags[i] && names[i] == name
  {
    if flags != [] {
      NamesAre(flags[1..], names[1..], name);
      if i :| 0 <= i < |names| - 1 && flags[1..][i] && names[1..][i] == name {
        assert flags[i + 1] && names[i + 1] == name;
      }
      if i :| 0 < i < |names| && flags[i] && names[i] == name {
        assert flags[1..][i - 1] && names[1..][i - 1] == name;
      }
    }
  }

  /** Which capabilities a request list names. */
  ghost function Requested(requested: seq<string>): (flags: seq<bool>)
    ensures |flags| == 10 && forall i :: 0 <= i < 10 ==> (flags[i] <==> CAPABILITIES[i] in requested)
  {
    seq(10, i requires 0 <= i < 10 => CAPABILITIES[i] in requested)
  }

  /** The loop that collects the bits; order and repetition do not matter. */
  method CollectCapabilities(requested: seq<string>) returns (flags: seq<bool>, known: bool)
    ensures |flags| == 10 && (known <==> forall i :: 0 <= i < |requested| ==> requested[i] in CAPABILITIES)
    ensures known ==> flags == Requested(requested)
  {
    hide CAPABILITIES;
    flags, known := seq(10, i => false), true;
    var k := 0;
    TenCapabilities();
    while k < |requested|
      invariant k <= |requested| && |flags| == 10
      invariant known <==> forall i :: 0 <= i < k ==> requested[i] in CAPABILITIES
      invariant known ==> forall i :: 0 <= i < 10 ==> (flags[i] <==> CAPABILITIES[i] in requested[..k])
    {
      var j := IndexOf(CAPABILITIES, requested[k]);
      assert requested[..k + 1] == requested[..k] + [requested[k]];
      if j < 10 {
        flags := flags[j := true];
      } else {
        known := false;
      }
      k := k + 1;
    }
    assert requested[..k] == requested;
  }

  function IndexOf(names: seq<string>, name: string): (i: nat)
    ensures i <= |names| && (i < |names| ==> names[i] == name) && (i == |names| <==> name !in names)
  {
    if names == [] || names[0] == name then 0 else 1 + IndexOf(names[1..], name)
  }

  lemma TenCapabilities()
    ensures |CAPABILITIES| == 10 && forall i, j :: 0 <= i < j < 10 ==> CAPABILITIES[i] != CAPABILITIES[j]
  {
    assert forall i :: 0 <= i < 10 ==> |CAPABILITIES[i]| > 0;
  }
}
