/** The fixture's TCP client: its sequence numbers over every order in which segments arrive. */
module TcpSession {
  import opened Bytes
  import opened Packets

  const ISN := 0x7100_0000

  function Ascii(s: string): (r: seq<byte>)
    requires forall i :: 0 <= i < |s| ==> s[i] < 128 as char
    ensures |r| == |s|
  {
    seq(|s|, i requires 0 <= i < |s| => s[i] as int)
  }

  function ListenRequest(): (r: seq<byte>)
    ensures |r| == 14
  {
    Ascii("SAPOTE LISTEN\n")
  }

  function Welcome(): (r: seq<byte>)
    ensures |r| == 30
  {
    Ascii("hello from the Sapote network\n")
  }

  /** 32-bit sequence arithmetic. */
  function Seq32(n: int): (r: nat)
    ensures r < 0x1_0000_0000
  {
    n % 0x1_0000_0000
  }

  datatype Sent = Sent(sequence: nat, acknowledgement: nat, flags: byte, payload: seq<byte>)

  /** The session, what it has sent, and the payloads it has accepted, concatenated. */
  datatype Session = Session(
    sendNext: nat, receiveNext: nat, established: bool, replySeen: bool, finished: bool, resetSeen: bool,
    notices: nat, sent: seq<Sent>, accepted: seq<byte>)

  predicate HasFin(flags: byte) {
    flags % 2 == 1
  }

  predicate HasReset(flags: byte) {
    flags / 4 % 2 == 1
  }

  predicate HasSyn(flags: byte) {
    flags / 2 % 2 == 1
  }

  predicate HasAck(flags: byte) {
    flags / 16 % 2 == 1
  }

  /** Sequence numbers a segment takes up. */
  function Extent(flags: byte, payload: seq<byte>): (n: nat) {
    |payload| + if HasFin(flags) || HasSyn(flags) then 1 else 0
  }

  function Send(s: Session, flags: byte, payload: seq<byte>): (r: Session) {
    s.(sent := s.sent + [Sent(s.sendNext, s.receiveNext, flags, payload)],
       sendNext := Seq32(s.sendNext + Extent(flags, payload)))
  }

  /** A fresh session has sent its SYN. */
  function Opened(): (s: Session) {
    Send(Session(ISN, 0, false, false, false, false, 0, [], []), 0x02, [])
  }

  /** `handle_client` on one segment. */
  function Handle(s: Session, g: Segment): (r: Session) {
    if HasReset(g.flags) then s.(resetSeen := true, finished := true, notices := s.notices + 1)
    else if !s.established then
      if !(HasSyn(g.flags) && HasAck(g.flags)) || g.acknowledgement != s.sendNext then s
      else Send(Send(s.(receiveNext := Seq32(g.sequence + 1), established := true), 0x10, []), 0x18, ListenRequest())
    else if g.payload != [] then
      if g.sequence != s.receiveNext then s else
      var t := Send(s.(receiveNext := Seq32(g.sequence + |g.payload|), accepted := s.accepted + g.payload), 0x10, []);
      if g.payload == Welcome() then Send(t.(replySeen := true), 0x11, []) else t
    else if HasFin(g.flags) then
      Send(s.(receiveNext := Seq32(g.sequence + 1)), 0x10, []).(finished := true)
    else s
  }

  function Run(s: Session, segments: seq<Segment>): (r: Session) {
    if segments == [] then s else Handle(Run(s, segments[..|segments| - 1]), segments[|segments| - 1])
  }

  // ---------------------------------------------------------------------------------------------
  // The session object

  class ClientSession {
    const localPort: u16
    const remotePort: u16
    var sendNext: nat
    var receiveNext: nat
    var established: bool
    var replySeen: bool
    var finished: bool
    var resetSeen: bool
    var notices: nat
    var sent: seq<Sent>
    ghost var accepted: seq<byte>

    ghost function View(): (s: Session)
      reads this
    {
      Session(sendNext, receiveNext, established, replySeen, finished, resetSeen, notices, sent, accepted)
    }

    constructor (localPort: u16, remotePort: u16)
      ensures View() == Opened() && this.localPort == localPort && this.remotePort == remotePort
    {
      this.localPort, this.remotePort := localPort, remotePort;
      sendNext, receiveNext, established, replySeen, finished, resetSeen := ISN, 0, false, false, false, false;
      notices, sent, accepted := 0, [], [];
      new;
      SendClient(0x02, []);
    }

    method SendClient(flags: byte, payload: seq<byte>)
      modifies this
      ensures View() == Send(old(View()), flags, payload)
    {
      sent := sent + [Sent(sendNext, receiveNext, flags, payload)];
      sendNext := (sendNext + |payload| + if flags % 4 != 0 then 1 else 0) % 0x1_0000_0000;
    }

    method HandleClient(g: Segment)
      modifies this
      ensures View() == Handle(old(View()), g)
    {
      hide Welcome, ListenRequest;
      if HasReset(g.flags) {
        resetSeen, finished, notices := true, true, notices + 1;
        return;
      }
      if !established {
        if !(HasSyn(g.flags) && HasAck(g.flags)) || g.acknowledgement != sendNext {
          return;
        }
        receiveNext, established := (g.sequence + 1) % 0x1_0000_0000, true;
        SendClient(0x10, []);
        SendClient(0x18, ListenRequest());
        return;
      }
      if g.payload != [] {
        if g.sequence != receiveNext {
          return;
        }
        receiveNext := (g.sequence + |g.payload|) % 0x1_0000_0000;
        accepted := accepted + g.payload;
        SendClient(0x10, []);
        if g.payload == Welcome() {
          replySeen := true;
          SendClient(0x11, []);
        }
        return;
      }
      if HasFin(g.flags) {
        receiveNext := (g.sequence + 1) % 0x1_0000_0000;
        SendClient(0x10, []);
        finished := true;
      }
    }

    /** Segments too short, with a bad data offset or for other ports do not reach the session. */
    method HandleTcp(segment: seq<byte>) returns (handled: bool)
      modifies this
      ensures
        match ParseTcp(segment)
        case None => !handled && View() == old(View())
        case Some(g) =>
          && (handled <==> g.destinationPort == localPort && g.sourcePort == remotePort)
          && View() == if handled then Handle(old(View()), g) else old(View())
    {
      hide Handle;
      var parsed := ParseTcp(segment);
      if parsed.None? || parsed.value.destinationPort != localPort || parsed.value.sourcePort != remotePort {
        return false;
      }
      HandleClient(parsed.value);
      return true;
    }
  }

  // ---------------------------------------------------------------------------------------------
  // What the guest may send

  /** A slice of the stream `d` at `a`, for initial sequence number `isn`. */
  ghost predicate IsSlice(g: Segment, isn: nat, d: seq<byte>, a: nat) {
    a + |g.payload| <= |d| && g.payload == d[a..a + |g.payload|] && g.sequence == Seq32(isn + 1 + a)
  }

  /** The guest's segments: SYN-ACKs, slices of its stream in any order and any number, its FIN,
      bare acknowledgements and resets. */
  ghost predicate FromGuest(g: Segment, isn: nat, d: seq<byte>) {
    HasReset(g.flags) ||
    if HasSyn(g.flags) then g.sequence == Seq32(isn) && g.payload == [] && !HasFin(g.flags)
    else if g.payload != [] then exists a: nat :: IsSlice(g, isn, d, a)
    else HasFin(g.flags) ==> g.sequence == Seq32(isn + 1 + |d|)
  }

  /** The acknowledgement after the FIN. */
  function PastEnd(isn: nat, d: seq<byte>): (r: nat) {
    Seq32(isn + 2 + |d|)
  }

  ghost predicate Received(s: Session, isn: nat, d: seq<byte>) {
    if !s.established then s.accepted == []
    else
      && |s.accepted| <= |d| && s.accepted == d[..|s.accepted|]
      && (s.receiveNext == Seq32(isn + 1 + |s.accepted|) || s.receiveNext == PastEnd(isn, d))
  }

  lemma Seq32Differ(isn: nat, a: nat, b: nat)
    requires a < 0x1_0000_0000 && b < 0x1_0000_0000
    ensures Seq32(isn + a) == Seq32(isn + b) <==> a == b
  {
  }

  lemma Seq32Add(n: nat, k: nat)
    ensures Seq32(Seq32(n) + k) == Seq32(n + k)
  {
  }

  lemma HandleKeeps(s: Session, g: Segment, isn: nat, d: seq<byte>)
    requires Received(s, isn, d) && FromGuest(g, isn, d) && |d| + 2 <= 0x1_0000_0000
    ensures Received(Handle(s, g), isn, d)
  {
    hide Seq32, Welcome, ListenRequest;
    Seq32Add(isn, 1);
    Seq32Add(isn + 1 + |d|, 1);
    if !HasReset(g.flags) && s.established && g.payload != [] && g.sequence == s.receiveNext {
      var a: nat :| IsSlice(g, isn, d, a);
      DueIsNext(s, g, isn, d, a);
    }
  }

  /** Only the slice that starts where the accepted prefix ends can be the one due. */
  lemma DueIsNext(s: Session, g: Segment, isn: nat, d: seq<byte>, a: nat)
    requires Received(s, isn, d) && s.established && |d| + 2 <= 0x1_0000_0000
    requires g.payload != [] && IsSlice(g, isn, d, a) && g.sequence == s.receiveNext
    ensures a == |s.accepted| && s.accepted + g.payload == d[..a + |g.payload|]
    ensures Seq32(g.sequence + |g.payload|) == Seq32(isn + 1 + a + |g.payload|)
  {
    hide Seq32;
    var n := |s.accepted|;
    Seq32Differ(isn, 1 + a, 1 + n);
    if |d| + 2 < 0x1_0000_0000 {
      Seq32Differ(isn, 1 + a, 2 + |d|);
    } else {
      WrapsToStart(isn, d, a);
    }
    Seq32Add(isn + 1 + a, |g.payload|);
  }

  /** At the largest length the acknowledgement of the FIN is `isn`, which no data byte carries. */
  lemma WrapsToStart(isn: nat, d: seq<byte>, a: nat)
    requires |d| + 2 == 0x1_0000_0000 && a < |d|
    ensures PastEnd(isn, d) == Seq32(isn) != Seq32(isn + 1 + a)
  {
  }

  /** Whatever is lost, repeated or reordered, the accepted payloads concatenate to a prefix of the
      guest's stream, also when the FIN comes early. */
  lemma {:induction false} AcceptedIsPrefix(segments: seq<Segment>, isn: nat, d: seq<byte>)
    requires |d| + 2 <= 0x1_0000_0000 && forall g :: g in segments ==> FromGuest(g, isn, d)
    ensures Received(Run(Opened(), segments), isn, d) && Run(Opened(), segments).accepted <= d
  {
    hide Handle, FromGuest;
    if segments != [] {
      var front := segments[..|segments| - 1];
      AcceptedIsPrefix(front, isn, d);
      HandleKeeps(Run(Opened(), front), segments[|segments| - 1], isn, d);
    }
  }

  /** A session that ends on a FIN has the whole stream exactly when the FIN was the next segment due,
      which nothing checks. */
  lemma FinIsCompleteIff(s: Session, g: Segment, isn: nat, d: seq<byte>)
    requires Received(s, isn, d) && s.established && s.receiveNext != PastEnd(isn, d) && |d| + 2 <= 0x1_0000_0000
    requires FromGuest(g, isn, d) && HasFin(g.flags) && !HasSyn(g.flags) && !HasReset(g.flags) && g.payload == []
    ensures Handle(s, g).finished
    ensures Handle(s, g).accepted == d <==> s.receiveNext == g.sequence
  {
    Seq32Differ(isn, 1 + |s.accepted|, 1 + |d|);
  }

  /** After an early FIN nothing more is accepted. */
  lemma NothingAfterFin(s: Session, g: Segment, isn: nat, d: seq<byte>)
    requires Received(s, isn, d) && s.established && s.receiveNext == PastEnd(isn, d) && |d| + 2 <= 0x1_0000_0000
    requires FromGuest(g, isn, d)
    ensures Handle(s, g).accepted == s.accepted && Handle(s, g).receiveNext == PastEnd(isn, d)
  {
    hide Seq32, Welcome, ListenRequest;
    Seq32Add(isn + 1 + |d|, 1);
    if !HasReset(g.flags) && !HasSyn(g.flags) && g.payload != [] {
      var a: nat :| IsSlice(g, isn, d, a);
      if |d| + 2 < 0x1_0000_0000 {
        Seq32Differ(isn, 1 + a, 2 + |d|);
      } else {
        WrapsToStart(isn, d, a);
      }
    }
  }

  /** The slice that starts where the accepted prefix ends is accepted. */
  lemma DueSliceIsAccepted(s: Session, g: Segment, isn: nat, d: seq<byte>)
    requires Received(s, isn, d) && s.established && s.receiveNext == Seq32(isn + 1 + |s.accepted|)
    requires IsSlice(g, isn, d, |s.accepted|) && !HasReset(g.flags) && g.payload != []
    ensures Handle(s, g).accepted == d[..|s.accepted| + |g.payload|]
    ensures Handle(s, g).established && Handle(s, g).receiveNext == Seq32(isn + 1 + |s.accepted| + |g.payload|)
  {
    hide Seq32, Welcome, ListenRequest;
    Seq32Add(isn + 1 + |s.accepted|, |g.payload|);
  }

  /** The guest's answer to the SYN. */
  function SynAck(isn: nat): (g: Segment) {
    Segment(1, 1, Seq32(isn), ISN + 1, 0x12, [])
  }

  function Fin(isn: nat, d: seq<byte>): (g: Segment) {
    Segment(1, 1, Seq32(isn + 1 + |d|), ISN + 15, 0x11, [])
  }

  lemma Establishes(isn: nat, d: seq<byte>)
    ensures
      var s := Handle(Opened(), SynAck(isn));
      s.established && !s.finished && s.accepted == [] && s.receiveNext == Seq32(isn + 1) && Received(s, isn, d)
  {
    hide ListenRequest, Welcome;
    Seq32Add(isn, 1);
  }

  /** Segments that cut `d[..end]` into slices, in order. */
  ghost predicate InOrder(segments: seq<Segment>, isn: nat, d: seq<byte>, end: nat) {
    if segments == [] then end == 0 else
    var g := segments[|segments| - 1];
    && g.payload != [] && !HasReset(g.flags) && |g.payload| <= end <= |d| && IsSlice(g, isn, d, end - |g.payload|)
    && InOrder(segments[..|segments| - 1], isn, d, end - |g.payload|)
  }

  lemma {:induction false} InOrderAccepts(segments: seq<Segment>, isn: nat, d: seq<byte>, end: nat)
    requires InOrder(segments, isn, d, end)
    ensures
      var s := Run(Handle(Opened(), SynAck(isn)), segments);
      end <= |d| && s.established && s.accepted == d[..end] && s.receiveNext == Seq32(isn + 1 + end)
  {
    hide Handle, Seq32;
    Establishes(isn, d);
    if segments != [] {
      var front, g := segments[..|segments| - 1], segments[|segments| - 1];
      InOrderAccepts(front, isn, d, end - |g.payload|);
      var s := Run(Handle(Opened(), SynAck(isn)), front);
      assert Received(s, isn, d);
      DueSliceIsAccepted(s, g, isn, d);
    }
  }

  /** A stream that arrives in order, cut anyhow, is accepted whole and ends on its FIN. */
  lemma InOrderCompletes(segments: seq<Segment>, isn: nat, d: seq<byte>)
    requires InOrder(segments, isn, d, |d|)
    ensures
      var s := Handle(Run(Handle(Opened(), SynAck(isn)), segments), Fin(isn, d));
      s.finished && s.accepted == d
  {
    hide Run, Seq32, Opened, SynAck, Welcome, ListenRequest, InOrder;
    InOrderAccepts(segments, isn, d, |d|);
  }

  /** An early FIN finishes the session with the stream missing. */
  lemma EarlyFinLosesData(isn: nat, d: seq<byte>)
    requires d != []
    ensures FromGuest(SynAck(isn), isn, d) && FromGuest(Fin(isn, d), isn, d)
    ensures
      var s := Handle(Handle(Opened(), SynAck(isn)), Fin(isn, d));
      s.finished && !s.resetSeen && s.accepted == [] != d
  {
    hide Welcome, ListenRequest;
    Establishes(isn, d);
  }

  /** One byte more than the bound, and a slice can be accepted twice: the acknowledgement of an early
      FIN wraps to the first data byte. */
  lemma BoundIsTight(isn: nat, d: seq<byte>, g: Segment)
    requires |d| + 1 == 0x1_0000_0000 && d[0] != d[1] && g == Segment(1, 1, Seq32(isn + 1), ISN + 15, 0x10, [d[0]])
    ensures FromGuest(g, isn, d)
    ensures
      var s := Handle(Handle(Handle(Handle(Opened(), SynAck(isn)), g), Fin(isn, d)), g);
      s.accepted == [d[0], d[0]] && !(s.accepted <= d)
  {
    hide Handle, Opened, SynAck, Fin;
    Establishes(isn, d);
    assert IsSlice(g, isn, d, 0);
    var a := Handle(Opened(), SynAck(isn));
    OneByte(a, g, d[0]);
    var b := Handle(a, g);
    FinMoves(b, isn, d);
    var c := Handle(b, Fin(isn, d));
    OneByte(c, g, d[0]);
    var e := Handle(c, g);
    assert e.accepted == [d[0], d[0]] && e.accepted[1] != d[1];
  }

  lemma OneByte(s: Session, g: Segment, x: byte)
    requires s.established && g.sequence == s.receiveNext && g.payload == [x] && g.flags == 0x10
    ensures Handle(s, g).accepted == s.accepted + [x] && Handle(s, g).established
  {
    hide ListenRequest;
    assert [x] != Welcome();
  }

  lemma FinMoves(s: Session, isn: nat, d: seq<byte>)
    requires s.established
    ensures
      var t := Handle(s, Fin(isn, d));
      t.accepted == s.accepted && t.established && t.receiveNext == PastEnd(isn, d)
  {
    hide ListenRequest, Welcome;
    Seq32Add(isn + 1 + |d|, 1);
  }

  // ---------------------------------------------------------------------------------------------
  // What the session sends

  ghost function Extents(sent: seq<Sent>): (n: nat) {
    if sent == [] then 0
    else Extents(sent[..|sent| - 1]) + Extent(sent[|sent| - 1].flags, sent[|sent| - 1].payload)
  }

  ghost predicate SentAt(sent: seq<Sent>, k: nat) {
    k < |sent| && sent[k].sequence == Seq32(ISN + Extents(sent[..k]))
  }

  /** Every segment sent starts where the one before it ended. */
  ghost predicate Contiguous(s: Session) {
    s.sendNext == Seq32(ISN + Extents(s.sent)) && forall k :: 0 <= k < |s.sent| ==> SentAt(s.sent, k)
  }

  lemma SendKeepsContiguous(s: Session, flags: byte, payload: seq<byte>)
    requires Contiguous(s)
    ensures Contiguous(Send(s, flags, payload))
  {
    var t := Send(s, flags, payload);
    assert t.sent[..|s.sent|] == s.sent;
    Seq32Add(ISN + Extents(s.sent), Extent(flags, payload));
    forall k | 0 <= k < |t.sent| ensures SentAt(t.sent, k) {
      if k < |s.sent| {
        assert SentAt(s.sent, k) && t.sent[..k] == s.sent[..k];
      }
    }
  }

  lemma HandleKeepsContiguous(s: Session, g: Segment)
    requires Contiguous(s)
    ensures Contiguous(Handle(s, g))
  {
    hide Send, Seq32, Welcome, ListenRequest, Extents, SentAt;
    if !HasReset(g.flags) {
      if !s.established {
        var t := s.(receiveNext := Seq32(g.sequence + 1), established := true);
        SendKeepsContiguous(t, 0x10, []);
        SendKeepsContiguous(Send(t, 0x10, []), 0x18, ListenRequest());
      } else if g.payload != [] {
        var t := s.(receiveNext := Seq32(g.sequence + |g.payload|), accepted := s.accepted + g.payload);
        SendKeepsContiguous(t, 0x10, []);
        SendKeepsContiguous(Send(t, 0x10, []).(replySeen := true), 0x11, []);
      } else {
        SendKeepsContiguous(s.(receiveNext := Seq32(g.sequence + 1)), 0x10, []);
      }
    }
  }

  /** The session's own sequence numbers never skip or repeat, whatever arrives. */
  lemma {:induction false} SentIsContiguous(segments: seq<Segment>)
    ensures Contiguous(Run(Opened(), segments))
  {
    hide Handle;
    if segments == [] {
      SendKeepsContiguous(Session(ISN, 0, false, false, false, false, 0, [], []), 0x02, []);
    } else {
      var front := segments[..|segments| - 1];
      SentIsContiguous(front);
      HandleKeepsContiguous(Run(Opened(), front), segments[|segments| - 1]);
    }
  }
}
