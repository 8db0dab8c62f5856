/** Eleven-byte 8.3 names and the ASCII text shown for them. */
module ShortNames {
  import opened Bytes

  /** ASCII text, one byte per character. */
  type Text = seq<byte>

  const SPACE: byte := 0x20
  const SLASH: byte := 0x2F
  const PERIOD: byte := 0x2E
  const DOT: Text := [PERIOD] + Spaces(10)
  const DOTDOT: Text := [PERIOD, PERIOD] + Spaces(9)

  function Spaces(n: nat): (r: Text)
    ensures |r| == n && forall i :: 0 <= i < n ==> r[i] == SPACE
  {
    seq(n, i => SPACE)
  }

  /** The ASCII characters Python's `str.rstrip` removes. */
  predicate IsSpace(b: byte) {
    9 <= b <= 13 || 28 <= b <= 32
  }

  function Rstrip(s: Text): (r: Text)
    ensures r <= s
    ensures r != [] ==> !IsSpace(r[|r| - 1])
    ensures forall i :: |r| <= i < |s| ==> IsSpace(s[i])
  {
    if s == [] || !IsSpace(s[|s| - 1]) then s else Rstrip(s[..|s| - 1])
  }

  function RstripSlashes(s: Text): (r: Text)
    ensures r <= s
    ensures r != [] ==> r[|r| - 1] != SLASH
  {
    if s == [] || s[|s| - 1] != SLASH then s else RstripSlashes(s[..|s| - 1])
  }

  function UpperByte(b: byte): (r: byte) {
    if 0x61 <= b <= 0x7A then b - 0x20 else b
  }

  function Upper(s: Text): (r: Text)
    ensures |r| == |s| && forall i :: 0 <= i < |s| ==> r[i] == UpperByte(s[i])
  {
    seq(|s|, i requires 0 <= i < |s| => UpperByte(s[i]))
  }

  predicate IsAscii(s: Text) {
    forall i :: 0 <= i < |s| ==> s[i] < 128
  }

  /** The text of a stored name; `None` where the source refuses it. */
  function NameText(name: Text): (r: Option<Text>)
  {
    if |name| != 11 || !IsAscii(name) then None
    else
      var base, extension := Rstrip(name[..8]), Rstrip(name[8..]);
      if base == [] then None
      else if extension == [] then Some(base)
      else Some(base + [PERIOD] + extension)
  }

  /** The path of an entry `text` inside the directory at `path`. */
  function ChildPath(path: Text, text: Text): (r: Text) {
    if path == [SLASH] then text else RstripSlashes(path) + [SLASH] + text
  }

  /** The staging alphabet: upper-case letters, digits, underscore and hyphen. */
  predicate Allowed(b: byte) {
    0x41 <= b <= 0x5A || 0x30 <= b <= 0x39 || b == 0x5F || b == 0x2D
  }

  predicate AllAllowed(s: Text) {
    forall i :: 0 <= i < |s| ==> Allowed(s[i])
  }

  /** A stored name the staging encoder can produce. */
  ghost predicate Canonical(name: Text) {
    exists base, extension :: IsEncoding(name, base, extension)
  }

  ghost predicate IsEncoding(name: Text, base: Text, extension: Text) {
    && InSubset(base, extension)
    && name == Pad(base, 8) + Pad(extension, 3)
  }

  function Pad(s: Text, width: nat): (r: Text)
    requires |s| <= width
    ensures |r| == width
  {
    s + Spaces(width - |s|)
  }

  /** Index of the first period, or the length when there is none. */
  function FirstPeriod(s: Text): (r: nat)
    ensures r <= |s| && (r < |s| ==> s[r] == PERIOD)
    ensures forall i :: 0 <= i < r ==> s[i] != PERIOD
  {
    if s == [] || s[0] == PERIOD then 0 else 1 + FirstPeriod(s[1..])
  }

  /** `split(".", 1)`: the parts before and after the first period. */
  function Split(s: Text): (r: (Text, Text))
    ensures s == r.0 + [PERIOD] + r.1 || (s == r.0 && r.1 == [])
  {
    var p := FirstPeriod(s);
    (s[..p], if p < |s| then s[p + 1..] else [])
  }

  predicate InSubset(base: Text, extension: Text) {
    1 <= |base| <= 8 && |extension| <= 3 && AllAllowed(base) && AllAllowed(extension)
  }

  /** `short_name_bytes`: encode one host file name, or refuse it. */
  function Encode(name: Text): (r: Option<Text>)
  {
    var parts := Split(Upper(name));
    if InSubset(parts.0, parts.1) then Some(Pad(parts.0, 8) + Pad(parts.1, 3)) else None
  }

  /** Every encoded name is canonical and reads back as the upper-cased host name, except that a
      trailing period disappears. */
  lemma EncodeRoundTrip(name: Text)
    requires Encode(name).Some?
    ensures name != [] && Canonical(Encode(name).value)
    ensures NameText(Encode(name).value) == Some(DropFinalPeriod(Upper(name)))
  {
    var parts := Split(Upper(name));
    assert IsEncoding(Encode(name).value, parts.0, parts.1);
    EncodingText(Encode(name).value, parts.0, parts.1);
    JoinAtPeriod(Upper(name), parts.0, parts.1);
  }

  function DropFinalPeriod(s: Text): (r: Text)
    requires s != []
  {
    if s[|s| - 1] == PERIOD then s[..|s| - 1] else s
  }

  lemma JoinAtPeriod(s: Text, base: Text, extension: Text)
    requires base != [] && AllAllowed(base) && AllAllowed(extension)
    requires s == base + [PERIOD] + extension || (s == base && extension == [])
    ensures DropFinalPeriod(s) == if extension == [] then base else base + [PERIOD] + extension
  {
    if s != base && extension == [] {
      assert s[..|s| - 1] == base;
    }
  }

  lemma {:induction false} RstripPad(s: Text, width: nat)
    requires |s| <= width && AllAllowed(s)
    ensures Rstrip(Pad(s, width)) == s
    decreases width
  {
    var padded := Pad(s, width);
    if |s| < width {
      assert padded[..width - 1] == Pad(s, width - 1);
      RstripPad(s, width - 1);
    } else {
      assert padded == s;
    }
  }

  lemma EncodingText(name: Text, base: Text, extension: Text)
    requires IsEncoding(name, base, extension)
    ensures NameText(name) == Some(if extension == [] then base else base + [PERIOD] + extension)
  {
    assert name[..8] == Pad(base, 8) && name[8..] == Pad(extension, 3);
    RstripPad(base, 8);
    RstripPad(extension, 3);
  }

  /** The text of a canonical name contains no slash and is never empty. */
  lemma CanonicalText(name: Text)
    requires Canonical(name)
    ensures NameText(name).Some? && NameText(name).value != [] && SLASH !in NameText(name).value
  {
    var base, extension :| IsEncoding(name, base, extension);
    EncodingText(name, base, extension);
    NoSlash(base);
    NoSlash(extension);
  }

  lemma NoSlash(s: Text)
    requires AllAllowed(s)
    ensures SLASH !in s
  {
  }

  /** A canonical name is its own case fold and is none of the specially marked entries. */
  lemma CanonicalBytes(name: Text)
    requires Canonical(name)
    ensures |name| == 11 && Upper(name) == name
    ensures name != DOT && name != DOTDOT && name[0] != 0 && name[0] != 0xE5
  {
    var base, extension :| IsEncoding(name, base, extension);
    assert name[0] == base[0] && Allowed(base[0]);
    assert DOT[0] == PERIOD && DOTDOT[0] == PERIOD;
    forall i | 0 <= i < 11 ensures UpperByte(name[i]) == name[i] {
      assert name[i] == if i < 8 then Pad(base, 8)[i] else Pad(extension, 3)[i - 8];
      assert Allowed(name[i]) || name[i] == SPACE;
    }
  }

  lemma CanonicalTextIsInjective(a: Text, b: Text)
    requires Canonical(a) && Canonical(b) && NameText(a) == NameText(b)
    ensures a == b
  {
    var base, extension :| IsEncoding(a, base, extension);
    var base', extension' :| IsEncoding(b, base', extension');
    EncodingText(a, base, extension);
    EncodingText(b, base', extension');
    var t := NameText(a).value;
    SplitAtPeriod(t, base, extension);
    SplitAtPeriod(t, base', extension');
  }

  lemma SplitAtPeriod(t: Text, base: Text, extension: Text)
    requires AllAllowed(base) && AllAllowed(extension)
    requires t == if extension == [] then base else base + [PERIOD] + extension
    ensures base == t[..FirstPeriod(t)]
    ensures extension == if FirstPeriod(t) < |t| then t[FirstPeriod(t) + 1..] else []
  {
    var p := FirstPeriod(t);
    assert p >= |base| by {
      assert forall i :: 0 <= i < |base| ==> t[i] == base[i];
    }
    if extension != [] {
      assert t[|base|] == PERIOD;
    }
  }

  // ---------------------------------------------------------------------------------------------
  // The staging subset

  /** An ASCII capital, a digit, an underscore or a hyphen. */
  predicate InAlphabet(b: byte) {
    || 'A' as int <= b <= 'Z' as int || '0' as int <= b <= '9' as int
    || b == '_' as int || b == '-' as int
  }

  lemma AllowedIff(b: byte)
    ensures Allowed(b) <==> InAlphabet(b)
  {
  }

  lemma AllAllowedIff(s: Text)
    ensures AllAllowed(s) <==> forall b :: b in s ==> InAlphabet(b)
  {
    hide Allowed, InAlphabet;
    forall i | 0 <= i < |s| ensures Allowed(s[i]) <==> InAlphabet(s[i]) {
      AllowedIff(s[i]);
    }
  }

  /** Upper-casing moves exactly the ASCII lower-case letters. */
  lemma UpperByteIs(i: nat, b: byte)
    ensures i < 26 ==> UpperByte('a' as int + i) == 'A' as int + i
    ensures b < 'a' as int || 'z' as int < b ==> UpperByte(b) == b
  {
  }

  /** One to eight allowed characters, then optionally a period and at most three more. */
  ghost predicate IsShortName(s: Text, base: Text, extension: Text) {
    && 1 <= |base| <= 8 && |extension| <= 3
    && (forall b :: b in base ==> InAlphabet(b)) && (forall b :: b in extension ==> InAlphabet(b))
    && (s == base + [PERIOD] + extension || (s == base && extension == []))
  }

  /** A name can be encoded exactly when its upper case is such a name, and then its parts are padded
      with spaces to eight and three bytes. */
  lemma EncodeIff(name: Text, stored: Text)
    ensures Encode(name) == Some(stored) <==>
      exists base, extension :: IsShortName(Upper(name), base, extension) && stored == Pad(base, 8) + Pad(extension, 3)
  {
    hide InAlphabet, Split, AllAllowed;
    var s := Upper(name);
    if Encode(name) == Some(stored) {
      var parts := Split(s);
      AllAllowedIff(parts.0);
      AllAllowedIff(parts.1);
      assert IsShortName(s, parts.0, parts.1);
    }
    if base, extension :| IsShortName(s, base, extension) && stored == Pad(base, 8) + Pad(extension, 3) {
      AllAllowedIff(base);
      AllAllowedIff(extension);
      SplitParts(s, base, extension);
    }
  }

  lemma SplitParts(s: Text, base: Text, extension: Text)
    requires AllAllowed(base) && AllAllowed(extension)
    requires s == base + [PERIOD] + extension || (s == base && extension == [])
    ensures Split(s) == (base, extension)
  {
    var p := FirstPeriod(s);
    assert forall i :: 0 <= i < |base| ==> s[i] == base[i] && Allowed(s[i]);
    if s == base + [PERIOD] + extension {
      assert s[|base|] == PERIOD && p == |base|;
      assert s[..p] == base && s[p + 1..] == extension;
    } else {
      assert p == |s|;
    }
  }

  /** What `rstrip` removes: tab to carriage return, the four separators, space. */
  lemma IsSpaceIff(b: byte)
    ensures IsSpace(b) <==> b in {9, 10, 11, 12, 13, 28, 29, 30, 31, 32}
  {
  }
}
