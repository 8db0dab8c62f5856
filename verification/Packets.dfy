/** The one's-complement checksum and the packets of the network fixture that carry it. */
module Packets {
  import opened Bytes

  type u16 = x: int | 0 <= x < 0x1_0000

  type Address = s: seq<byte> | |s| == 4 witness [0, 0, 0, 0]

  // ---------------------------------------------------------------------------------------------
  // Network byte order

  function Be16(v: u16): (r: seq<byte>)
    ensures |r| == 2
  {
    [v / 0x100, v % 0x100]
  }

  function Be32(v: nat): (r: seq<byte>)
    requires v < 0x1_0000_0000
    ensures |r| == 4
  {
    Be16(v / 0x1_0000) + Be16(v % 0x1_0000)
  }

  function Get16(s: seq<byte>, o: nat): (v: u16)
    requires o + 2 <= |s|
  {
    0x100 * (s[o] as int) + s[o + 1] as int
  }

  function Get32(s: seq<byte>, o: nat): (v: nat)
    requires o + 4 <= |s|
    ensures v < 0x1_0000_0000
  {
    0x1_0000 * Get16(s, o) + Get16(s, o + 2)
  }

  lemma Be32RoundTrip(v: nat)
    requires v < 0x1_0000_0000
    ensures Get32(Be32(v), 0) == v
  {
    var r := Be32(v);
    assert r[0] == v / 0x1_0000 / 0x100 && r[1] == v / 0x1_0000 % 0x100;
    assert r[2] == v % 0x1_0000 / 0x100 && r[3] == v % 0x1_0000 % 0x100;
    assert Get16(r, 0) == v / 0x1_0000 && Get16(r, 2) == v % 0x1_0000;
  }

  // ---------------------------------------------------------------------------------------------
  // The checksum

  /** Sum of the 16-bit words, an odd last byte padded with zero. */
  function Sum(data: seq<byte>): (n: nat) {
    if data == [] then 0
    else if |data| == 1 then 0x100 * (data[0] as int)
    else Get16(data, 0) + Sum(data[2..])
  }

  /** The 16-bit number that stands for `n` in one's-complement arithmetic: 0 for 0 alone, and
      otherwise the residue modulo 0xFFFF in 1..0xFFFF. */
  function Residue(n: nat): (r: u16) {
    if n == 0 then 0 else 1 + (n - 1) % 0xFFFF
  }

  function ChecksumOf(data: seq<byte>): (c: u16) {
    0xFFFF - Residue(Sum(data))
  }

  lemma FoldKeepsResidue(n: nat)
    ensures Residue(n % 0x1_0000 + n / 0x1_0000) == Residue(n)
  {
    var low, high := n % 0x1_0000, n / 0x1_0000;
    var m := low + high;
    assert n == low + 0x1_0000 * high;
    if 0 < n {
      assert 0 < m;
      assert n - 1 == (m - 1) + 0xFFFF * high;
      ResidueShift(m - 1, high);
    }
  }

  lemma ResidueShift(a: nat, k: nat)
    ensures (a + 0xFFFF * k) % 0xFFFF == a % 0xFFFF
  {
  }

  /** The loops of `checksum`: add the words, then fold the carries back in until none is left. */
  method Checksum(data: seq<byte>) returns (value: u16)
    ensures value == ChecksumOf(data)
  {
    var padded := if |data| % 2 == 1 then data + [0] else data;
    SumPadded(data);
    var total, i := 0, 0;
    while i < |padded|
      invariant 0 <= i <= |padded| && i % 2 == 0 && 0 <= total && total + Sum(padded[i..]) == Sum(padded)
    {
      assert padded[i..][2..] == padded[i + 2..];
      total, i := total + Get16(padded, i), i + 2;
    }
    while total / 0x1_0000 != 0
      invariant 0 <= total && Residue(total) == Residue(Sum(data))
      decreases total
    {
      FoldKeepsResidue(total);
      total := total % 0x1_0000 + total / 0x1_0000;
    }
    SmallResidue(total);
    value := 0xFFFF - total;
  }

  lemma SmallResidue(n: nat)
    requires n < 0x1_0000
    ensures Residue(n) == n
  {
  }

  lemma {:induction false} SumPadded(data: seq<byte>)
    ensures |data| % 2 == 1 ==> Sum(data + [0]) == Sum(data)
  {
    if |data| == 1 {
      assert (data + [0])[2..] == [];
    } else if 2 < |data| {
      assert (data + [0])[2..] == data[2..] + [0];
      SumPadded(data[2..]);
    }
  }

  /** Words add up over a concatenation whose first part is whole words. */
  lemma {:induction false} SumConcat(a: seq<byte>, b: seq<byte>)
    requires |a| % 2 == 0
    ensures Sum(a + b) == Sum(a) + Sum(b)
  {
    if a == [] {
      assert a + b == b;
    } else {
      assert (a + b)[2..] == a[2..] + b;
      SumConcat(a[2..], b);
    }
  }

  lemma SumWord(v: u16)
    ensures Sum(Be16(v)) == v
  {
    assert Be16(v)[2..] == [];
  }

  /** A message checks out when its words sum to a nonzero multiple of 0xFFFF. */
  lemma ChecksIff(data: seq<byte>)
    ensures ChecksumOf(data) == 0 <==> Sum(data) != 0 && Sum(data) % 0xFFFF == 0
  {
    var n := Sum(data);
    if n != 0 {
      assert (n - 1) % 0xFFFF == 0xFFFE <==> n % 0xFFFF == 0;
    }
  }

  lemma Multiple(k: nat)
    ensures 0xFFFF * k % 0xFFFF == 0
  {
    ResidueShift(0, k);
  }

  /** Putting the checksum of a message with a zero field into that field makes it check out, and so
      does 0xFFFF where the checksum is 0. */
  lemma ChecksumCompletes(n: nat, value: u16)
    requires value == 0xFFFF - Residue(n) || (Residue(n) == 0xFFFF && value == 0xFFFF)
    ensures n + value != 0 && (n + value) % 0xFFFF == 0
  {
    if n == 0 {
      assert value == 0xFFFF;
    } else {
      var q, r := (n - 1) / 0xFFFF, (n - 1) % 0xFFFF;
      assert n == 0xFFFF * q + r + 1 && Residue(n) == r + 1;
      if value == 0xFFFF - Residue(n) {
        assert n + value == 0xFFFF * (q + 1);
        Multiple(q + 1);
      } else {
        assert n + value == 0xFFFF * (q + 2);
        Multiple(q + 2);
      }
    }
  }

  // ---------------------------------------------------------------------------------------------
  // Builders

  datatype PackError = StructError

  /** Flip bit 8. */
  function FlipBit8(v: u16): (r: u16) {
    if v / 0x100 % 2 == 1 then v - 0x100 else v + 0x100
  }

  function Ipv4Front(length: u16, identity: nat, ttl: byte, protocol: byte): (r: seq<byte>)
    ensures |r| == 10
  {
    [0x45, 0] + Be16(length) + Be16(identity % 0x1_0000) + Be16(0x4000) + [ttl, protocol]
  }

  /** An IPv4 packet; packing refuses a length above 16 bits. */
  function Ipv4(
    source: Address, destination: Address, protocol: byte, payload: seq<byte>, identity: nat, ttl: byte,
    badChecksum: bool): (r: Result<seq<byte>, PackError>)
  {
    if 20 + |payload| >= 0x1_0000 then Err(StructError) else
    var front := Ipv4Front(20 + |payload|, identity, ttl, protocol);
    var value := ChecksumOf(front + Be16(0) + source + destination);
    Ok(front + Be16(if badChecksum then FlipBit8(value) else value) + source + destination + payload)
  }

  function Pseudo(source: Address, destination: Address, protocol: byte, length: u16): (r: seq<byte>)
    ensures |r| == 12
  {
    source + destination + [0, protocol] + Be16(length)
  }

  function Udp(
    source: Address, destination: Address, sourcePort: u16, destinationPort: u16, payload: seq<byte>,
    zeroChecksum: bool): (r: Result<seq<byte>, PackError>)
  {
    if 8 + |payload| >= 0x1_0000 then Err(StructError) else
    var length := 8 + |payload|;
    var front := Be16(sourcePort) + Be16(destinationPort) + Be16(length);
    var sum := ChecksumOf(Pseudo(source, destination, 17, length) + (front + Be16(0)) + payload);
    var value := if zeroChecksum then 0 else if sum == 0 then 0xFFFF else sum;
    Ok(front + Be16(value) + payload)
  }

  /** Bytes missing to whole 32-bit words. */
  function Missing(n: nat): (m: nat)
    ensures m < 4 && (n + m) % 4 == 0
  {
    (-(n as int)) % 4
  }

  /** Options padded with no-operations to whole 32-bit words. */
  function PadOptions(options: seq<byte>): (r: seq<byte>)
    ensures |r| % 4 == 0 && |options| <= |r| < |options| + 4 && r[..|options|] == options
  {
    options + seq(Missing(|options|), i => 1)
  }

  function TcpFront(
    sourcePort: u16, destinationPort: u16, sequence: nat, acknowledgement: nat, words: nat, flags: byte): (r: seq<byte>)
    requires words < 16
    ensures |r| == 16
  {
    Be16(sourcePort) + Be16(destinationPort) + Be32(sequence % 0x1_0000_0000) + Be32(acknowledgement % 0x1_0000_0000)
    + [16 * words, flags] + Be16(8192)
  }

  function Tcp(
    source: Address, destination: Address, sourcePort: u16, destinationPort: u16, sequence: nat, acknowledgement: nat,
    flags: byte, payload: seq<byte>, options: seq<byte>): (r: Result<seq<byte>, PackError>)
  {
    var padded := PadOptions(options);
    var words := (20 + |padded|) / 4;
    var length := 20 + |padded| + |payload|;
    if words >= 16 || length >= 0x1_0000 then Err(StructError) else
    var front := TcpFront(sourcePort, destinationPort, sequence, acknowledgement, words, flags);
    var value := ChecksumOf(Pseudo(source, destination, 6, length) + (front + Be16(0) + Be16(0) + padded) + payload);
    Ok(front + Be16(value) + Be16(0) + padded + payload)
  }

  /** The pseudo-header: both addresses, a zero byte, the protocol and the length. */
  lemma PseudoBytes(source: Address, destination: Address, protocol: byte, length: u16)
    ensures
      var p := Pseudo(source, destination, protocol, length);
      p[0..4] == source && p[4..8] == destination && p[8] == 0 && p[9] == protocol && 256 * (p[10] as int) + p[11] as int == length
  {
  }

  // ---------------------------------------------------------------------------------------------
  // They check out

  /** A message in three parts, the middle one a 16-bit field. */
  lemma SumAround(a: seq<byte>, v: u16, b: seq<byte>)
    requires |a| % 2 == 0
    ensures Sum(a + Be16(v) + b) == Sum(a) + v + Sum(b)
  {
    SumConcat(a + Be16(v), b);
    SumConcat(a, Be16(v));
    SumWord(v);
  }

  /** The IPv4 header re-sums to zero, and one built with a bad checksum never does. */
  lemma Ipv4ChecksIff(
    source: Address, destination: Address, protocol: byte, payload: seq<byte>, identity: nat, ttl: byte, bad: bool)
    ensures
      var r := Ipv4(source, destination, protocol, payload, identity, ttl, bad);
      && (r.Ok? <==> |payload| <= 65_515)
      && (r.Ok? ==> |r.value| == 20 + |payload| && r.value[20..] == payload && (ChecksumOf(r.value[..20]) == 0 <==> !bad))
  {
    if |payload| <= 65_515 {
      var front := Ipv4Front(20 + |payload|, identity, ttl, protocol);
      var back := source + destination;
      var zero := front + Be16(0) + source + destination;
      var n := Sum(front) + Sum(back);
      assert zero == front + Be16(0) + back;
      SumAround(front, 0, back);
      var value := ChecksumOf(zero);
      var put := if bad then FlipBit8(value) else value;
      var r := Ipv4(source, destination, protocol, payload, identity, ttl, bad).value;
      assert r[..20] == front + Be16(put) + back;
      SumAround(front, put, back);
      ChecksIff(r[..20]);
      ChecksumCompletes(n, value);
      if bad {
        Spoiled(n + value, n + put);
      }
    }
  }

  lemma Spoiled(good: nat, bad: nat)
    requires good % 0xFFFF == 0 && (bad == good + 0x100 || bad == good - 0x100)
    ensures bad % 0xFFFF != 0
  {
  }

  /** A UDP datagram re-sums to zero with its pseudo-header unless it was sent without a checksum. */
  lemma UdpChecks(
    source: Address, destination: Address, sourcePort: u16, destinationPort: u16, payload: seq<byte>, zero: bool)
    ensures
      var r := Udp(source, destination, sourcePort, destinationPort, payload, zero);
      && (r.Ok? <==> |payload| <= 65_527)
      && (r.Ok? ==>
            && |r.value| == 8 + |payload| && r.value[8..] == payload && (Get16(r.value, 6) == 0 <==> zero)
            && (!zero ==> ChecksumOf(Pseudo(source, destination, 17, |r.value|) + r.value) == 0))
  {
    if |payload| <= 65_527 {
      var length := 8 + |payload|;
      var pseudo := Pseudo(source, destination, 17, length);
      var front := Be16(sourcePort) + Be16(destinationPort) + Be16(length);
      var whole := pseudo + (front + Be16(0)) + payload;
      assert whole == (pseudo + front) + Be16(0) + payload;
      SumAround(pseudo + front, 0, payload);
      var n := Sum(pseudo + front) + Sum(payload);
      var sum := ChecksumOf(whole);
      var value := if zero then 0 else if sum == 0 then 0xFFFF else sum;
      var r := Udp(source, destination, sourcePort, destinationPort, payload, zero).value;
      assert r == front + Be16(value) + payload && Get16(r, 6) == Get16(Be16(value), 0);
      if !zero {
        var sent := pseudo + r;
        assert sent == (pseudo + front) + Be16(value) + payload;
        SumAround(pseudo + front, value, payload);
        ChecksumCompletes(n, value);
        ChecksIff(sent);
      }
    }
  }

  /** A TCP segment re-sums to zero with its pseudo-header, for options and payload of any length
      that can be packed. */
  lemma TcpChecks(
    source: Address, destination: Address, sourcePort: u16, destinationPort: u16, sequence: nat, acknowledgement: nat,
    flags: byte, payload: seq<byte>, options: seq<byte>)
    ensures
      var r := Tcp(source, destination, sourcePort, destinationPort, sequence, acknowledgement, flags, payload, options);
      && (r.Ok? <==> |options| <= 40 && 20 + |PadOptions(options)| + |payload| < 0x1_0000)
      && (r.Ok? ==>
            && |r.value| == 20 + |PadOptions(options)| + |payload|
            && ChecksumOf(Pseudo(source, destination, 6, |r.value|) + r.value) == 0)
  {
    hide TcpFront, Pseudo, PadOptions;
    var padded := PadOptions(options);
    var r := Tcp(source, destination, sourcePort, destinationPort, sequence, acknowledgement, flags, payload, options);
    if r.Ok? {
      var words, length := (20 + |padded|) / 4, 20 + |padded| + |payload|;
      var front := TcpFront(sourcePort, destinationPort, sequence, acknowledgement, words, flags);
      var pseudo := Pseudo(source, destination, 6, length);
      var back := Be16(0) + padded + payload;
      var whole := pseudo + (front + Be16(0) + Be16(0) + padded) + payload;
      assert whole == (pseudo + front) + Be16(0) + back;
      SumAround(pseudo + front, 0, back);
      var value := ChecksumOf(whole);
      assert pseudo + r.value == (pseudo + front) + Be16(value) + back;
      SumAround(pseudo + front, value, back);
      ChecksumCompletes(Sum(pseudo + front) + Sum(back), value);
      ChecksIff(pseudo + r.value);
    }
  }

  // ---------------------------------------------------------------------------------------------
  // They are read back

  function Ethernet(destination: seq<byte>, source: seq<byte>, kind: u16, payload: seq<byte>): (r: seq<byte>) {
    destination + source + Be16(kind) + payload
  }

  datatype Packet = Packet(source: seq<byte>, destination: seq<byte>, protocol: byte, payload: seq<byte>)

  function ParseIpv4(frame: seq<byte>): (r: Option<Packet>) {
    if |frame| < 34 || frame[12..14] != [8, 0] then None else
    var packet := frame[14..];
    var headerLength, total := packet[0] % 16 * 4, Get16(packet, 2);
    if packet[0] / 16 != 4 || headerLength < 20 || total > |packet| then None
    else Some(Packet(packet[12..16], packet[16..20], packet[9], if headerLength <= total then packet[headerLength..total] else []))
  }

  /** Parsing a framed IPv4 packet gives back what it was built from. */
  lemma Ipv4RoundTrip(
    target: seq<byte>, sender: seq<byte>, source: Address, destination: Address, protocol: byte, payload: seq<byte>,
    identity: nat, ttl: byte, bad: bool)
    requires |target| == |sender| == 6
    ensures
      var r := Ipv4(source, destination, protocol, payload, identity, ttl, bad);
      r.Ok? ==> ParseIpv4(Ethernet(target, sender, 0x0800, r.value)) == Some(Packet(source, destination, protocol, payload))
  {
    hide ChecksumOf;
    var r := Ipv4(source, destination, protocol, payload, identity, ttl, bad);
    if r.Ok? {
      var frame := Ethernet(target, sender, 0x0800, r.value);
      var length: u16 := 20 + |payload|;
      assert frame[12..14] == [8, 0] && frame[14..] == r.value;
      var front := Ipv4Front(length, identity, ttl, protocol);
      assert r.value[..10] == front && front[2] == length / 0x100 && front[3] == length % 0x100 && front[9] == protocol;
      assert r.value[2] == front[2] && r.value[3] == front[3] && r.value[9] == front[9];
      assert r.value[12..16] == source && r.value[16..20] == destination && r.value[20..] == payload;
      assert r.value[20..length] == payload;
    }
  }

  datatype Segment = Segment(
    sourcePort: u16, destinationPort: u16, sequence: nat, acknowledgement: nat, flags: byte, payload: seq<byte>)

  /** What `handle_tcp` and `handle_client` read from a segment. */
  function ParseTcp(segment: seq<byte>): (r: Option<Segment>) {
    if |segment| < 20 then None else
    var offset := segment[12] / 16 * 4;
    if offset < 20 || offset > |segment| then None
    else Some(Segment(Get16(segment, 0), Get16(segment, 2), Get32(segment, 4), Get32(segment, 8), segment[13], segment[offset..]))
  }

  lemma GetShift(s: seq<byte>, o: nat, t: seq<byte>)
    requires o + |t| <= |s| && s[o..o + |t|] == t
    ensures 2 <= |t| ==> Get16(s, o) == Get16(t, 0)
    ensures 4 <= |t| ==> Get32(s, o) == Get32(t, 0)
  {
    assert forall k :: 0 <= k < |t| ==> s[o + k] == t[k];
    if 4 <= |t| {
      assert s[o + 2] == t[2] && s[o + 3] == t[3];
      assert s[o] == t[0] && s[o + 1] == t[1];
    } else if 2 <= |t| {
      assert s[o] == t[0] && s[o + 1] == t[1];
    }
  }

  /** Parsing a built TCP segment gives back its fields, the options skipped. */
  lemma TcpRoundTrip(
    source: Address, destination: Address, sourcePort: u16, destinationPort: u16, sequence: nat, acknowledgement: nat,
    flags: byte, payload: seq<byte>, options: seq<byte>)
    ensures
      var r := Tcp(source, destination, sourcePort, destinationPort, sequence, acknowledgement, flags, payload, options);
      r.Ok? ==> ParseTcp(r.value) == Some(Segment(
        sourcePort, destinationPort, sequence % 0x1_0000_0000, acknowledgement % 0x1_0000_0000, flags, payload))
  {
    hide ChecksumOf, PadOptions, Be16, Be32, Get16, Get32, Sum;
    var r := Tcp(source, destination, sourcePort, destinationPort, sequence, acknowledgement, flags, payload, options);
    if r.Ok? {
      var padded := PadOptions(options);
      var words := (20 + |padded|) / 4;
      var front := TcpFront(sourcePort, destinationPort, sequence, acknowledgement, words, flags);
      var s, q := Be32(sequence % 0x1_0000_0000), Be32(acknowledgement % 0x1_0000_0000);
      assert r.value[..16] == front;
      assert r.value[0..2] == Be16(sourcePort) && r.value[2..4] == Be16(destinationPort);
      assert r.value[4..8] == s && r.value[8..12] == q && r.value[12] == 16 * words && r.value[13] == flags;
      assert r.value[20 + |padded|..] == payload;
      GetShift(r.value, 0, Be16(sourcePort));
      GetShift(r.value, 2, Be16(destinationPort));
      GetShift(r.value, 4, s);
      GetShift(r.value, 8, q);
      Be16RoundTrip(sourcePort);
      Be16RoundTrip(destinationPort);
      Be32RoundTrip(sequence % 0x1_0000_0000);
      Be32RoundTrip(acknowledgement % 0x1_0000_0000);
    }
  }

  lemma Be16RoundTrip(v: u16)
    ensures Get16(Be16(v), 0) == v
  {
  }

  /** Which segments are read, and from which bytes. */
  lemma ParseTcpIff(s: seq<byte>, g: Segment)
    ensures ParseTcp(s) == Some(g) <==>
      && 20 <= |s| && 5 <= s[12] / 16 && 4 * (s[12] / 16) <= |s|
      && g.sourcePort == 256 * (s[0] as int) + s[1] as int && g.destinationPort == 256 * (s[2] as int) + s[3] as int
      && g.sequence == 0x100_0000 * (s[4] as int) + 0x1_0000 * (s[5] as int) + 0x100 * (s[6] as int) + s[7] as int
      && g.acknowledgement == 0x100_0000 * (s[8] as int) + 0x1_0000 * (s[9] as int) + 0x100 * (s[10] as int) + s[11] as int
      && g.flags == s[13] && g.payload == s[4 * (s[12] / 16)..]
  {
  }

  /** Which frames are read as IPv4 packets, and from which bytes. */
  lemma ParseIpv4Iff(f: seq<byte>, p: Packet)
    ensures ParseIpv4(f) == Some(p) <==>
      && 34 <= |f| && f[12] == 8 && f[13] == 0 && f[14] / 16 == 4 && 5 <= f[14] % 16
      && 256 * (f[16] as int) + f[17] as int <= |f| - 14
      && p.source == f[26..30] && p.destination == f[30..34] && p.protocol == f[23]
      && var total, header := 256 * (f[16] as int) + f[17] as int, 4 * (f[14] % 16);
         p.payload == if header <= total then f[14 + header..14 + total] else []
  {
    if 34 <= |f| {
      var packet := f[14..];
      var header, total := packet[0] % 16 * 4, Get16(packet, 2);
      assert f[12..14] == [f[12], f[13]];
      assert packet[12..16] == f[26..30] && packet[16..20] == f[30..34];
      if header <= total <= |packet| {
        SliceOfSlice(f, 14, |f|, header, total);
        assert f[14..] == f[14..|f|];
      }
    }
  }

  /** The remaining header fields of a built packet: no type of service, the identity's low half,
      do-not-fragment, the time to live. */
  lemma Ipv4Fields(
    source: Address, destination: Address, protocol: byte, payload: seq<byte>, identity: nat, ttl: byte, bad: bool)
    requires Ipv4(source, destination, protocol, payload, identity, ttl, bad).Ok?
    ensures
      var r := Ipv4(source, destination, protocol, payload, identity, ttl, bad).value;
      && 20 <= |r| && r[0] == 0x45 && r[1] == 0 && Get16(r, 2) == |r| && Get16(r, 4) == identity % 0x1_0000
      && Get16(r, 6) == 0x4000 && r[8] == ttl && r[9] == protocol
  {
    hide ChecksumOf, FlipBit8;
    var r := Ipv4(source, destination, protocol, payload, identity, ttl, bad).value;
    var front := Ipv4Front(20 + |payload|, identity, ttl, protocol);
    assert r[..10] == front;
    assert front[0] == 0x45 && front[1] == 0 && front[8] == ttl && front[9] == protocol;
    assert r[0] == front[0] && r[1] == front[1] && r[8] == front[8] && r[9] == front[9];
    assert front[2..4] == Be16(20 + |payload|) && front[4..6] == Be16(identity % 0x1_0000) && front[6..8] == Be16(0x4000);
    assert r[2..4] == front[2..4] && r[4..6] == front[4..6] && r[6..8] == front[6..8];
    GetShift(r, 2, Be16(20 + |payload|));
    GetShift(r, 4, Be16(identity % 0x1_0000));
    GetShift(r, 6, Be16(0x4000));
  }

  datatype Datagram = Datagram(sourcePort: u16, destinationPort: u16, body: seq<byte>)

  /** What `handle_ipv4` reads from a datagram. */
  function ParseUdp(payload: seq<byte>): (r: Option<Datagram>) {
    if |payload| < 8 then None else
    var length := Get16(payload, 4);
    if length < 8 || length > |payload| then None
    else Some(Datagram(Get16(payload, 0), Get16(payload, 2), payload[8..length]))
  }

  /** Parsing a built datagram gives back its ports and payload. */
  lemma UdpRoundTrip(
    source: Address, destination: Address, sourcePort: u16, destinationPort: u16, payload: seq<byte>, zero: bool)
    ensures
      var r := Udp(source, destination, sourcePort, destinationPort, payload, zero);
      r.Ok? ==> ParseUdp(r.value) == Some(Datagram(sourcePort, destinationPort, payload))
  {
    hide ChecksumOf, Be16, Get16;
    var r := Udp(source, destination, sourcePort, destinationPort, payload, zero);
    if r.Ok? {
      var length: u16 := 8 + |payload|;
      assert r.value[0..2] == Be16(sourcePort) && r.value[2..4] == Be16(destinationPort) && r.value[4..6] == Be16(length);
      GetShift(r.value, 0, Be16(sourcePort));
      GetShift(r.value, 2, Be16(destinationPort));
      GetShift(r.value, 4, Be16(length));
      Be16RoundTrip(sourcePort);
      Be16RoundTrip(destinationPort);
      Be16RoundTrip(length);
      assert r.value[8..length] == payload;
    }
  }

  /** A built segment carries its options, padded with no-operations, a window of 8192 and no urgent data. */
  lemma TcpFields(
    source: Address, destination: Address, sourcePort: u16, destinationPort: u16, sequence: nat, acknowledgement: nat,
    flags: byte, payload: seq<byte>, options: seq<byte>)
    requires Tcp(source, destination, sourcePort, destinationPort, sequence, acknowledgement, flags, payload, options).Ok?
    ensures
      var r := Tcp(source, destination, sourcePort, destinationPort, sequence, acknowledgement, flags, payload, options).value;
      var header := |r| - |payload|;
      && 20 + |options| <= header < 24 + |options| && header % 4 == 0 && r[12] == 4 * header && r[header..] == payload
      && r[20..20 + |options|] == options && (forall i :: 20 + |options| <= i < header ==> r[i] == 1)
      && Get16(r, 14) == 8192 && Get16(r, 18) == 0
  {
    hide ChecksumOf, PadOptions, Be32;
    var r := Tcp(source, destination, sourcePort, destinationPort, sequence, acknowledgement, flags, payload, options).value;
    var padded := PadOptions(options);
    var words := (20 + |padded|) / 4;
    PaddingIs(options);
    var front := TcpFront(sourcePort, destinationPort, sequence, acknowledgement, words, flags);
    assert r[..16] == front && front[12] == 16 * words && front[14..16] == Be16(8192);
    assert r[14..16] == front[14..16] && r[18..20] == Be16(0);
    GetShift(r, 14, Be16(8192));
    GetShift(r, 18, Be16(0));
    assert r[20..20 + |padded|] == padded;
    assert forall i :: 0 <= i < |padded| ==> r[20 + i] == padded[i];
    assert r[20..20 + |options|] == padded[..|options|];
    forall i | 20 + |options| <= i < 20 + |padded| ensures r[i] == 1 {
      assert r[20 + (i - 20)] == padded[i - 20];
    }
  }

  lemma PaddingIs(options: seq<byte>)
    ensures forall i :: |options| <= i < |PadOptions(options)| ==> PadOptions(options)[i] == 1
  {
  }
}
