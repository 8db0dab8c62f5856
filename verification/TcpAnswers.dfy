/** What the fixture's TCP client answers, step by step and over whole runs. */
module TcpAnswers {
  import opened Bytes
  import opened Packets
  import opened TcpSession

  /** The flag tests are those on the bits of the flag byte. */
  lemma FlagBits(b: bv8)
    ensures HasFin(b as int) <==> b & 0x01 != 0
    ensures HasSyn(b as int) <==> b & 0x02 != 0
    ensures HasReset(b as int) <==> b & 0x04 != 0
    ensures HasAck(b as int) <==> b & 0x10 != 0
    ensures Extent(b as int, []) == 0 <==> b & 0x03 == 0
  {
    hide *;
    LowBit(b);
    Shifted(b);
    LowBit(b / 2);
    LowBit(b / 4);
    LowBit(b / 16);
    Masks(b);
    FlagDefinitions(b as int);
  }

  lemma LowBit(b: bv8)
    ensures (b as int) % 2 == 1 <==> b & 0x01 != 0
  {
    assert (b as int) % 2 == (b % 2) as int;
    assert b % 2 == b & 1;
  }

  lemma Shifted(b: bv8)
    ensures (b as int) / 2 == (b / 2) as int && (b as int) / 4 == (b / 4) as int && (b as int) / 16 == (b / 16) as int
  {
  }

  lemma Masks(b: bv8)
    ensures (b / 2) & 0x01 != 0 <==> b & 0x02 != 0
    ensures (b / 4) & 0x01 != 0 <==> b & 0x04 != 0
    ensures (b / 16) & 0x01 != 0 <==> b & 0x10 != 0
    ensures b & 0x03 == 0 <==> b & 0x01 == 0 && b & 0x02 == 0
  {
  }

  lemma FlagDefinitions(flags: byte)
    ensures HasFin(flags) <==> flags % 2 == 1
    ensures HasSyn(flags) <==> flags / 2 % 2 == 1
    ensures HasReset(flags) <==> flags / 4 % 2 == 1
    ensures HasAck(flags) <==> flags / 16 % 2 == 1
    ensures Extent(flags, []) == 0 <==> flags % 2 == 0 && flags / 2 % 2 == 0
  {
  }

  /** A handshake answer: SYN and ACK, of the SYN that was sent. */
  predicate Accepts(s: Session, g: Segment) {
    !HasReset(g.flags) && !s.established && HasSyn(g.flags) && HasAck(g.flags) && g.acknowledgement == s.sendNext
  }

  /** Data that is due. */
  predicate IsDue(s: Session, g: Segment) {
    !HasReset(g.flags) && s.established && g.payload != [] && g.sequence == s.receiveNext
  }

  /** A FIN without data, tested for nothing else. */
  predicate IsFin(s: Session, g: Segment) {
    !HasReset(g.flags) && s.established && g.payload == [] && HasFin(g.flags)
  }

  /** Every step: what is sent, in order, with which numbers; and what else changes. A segment of no
      other kind leaves the session as it is. */
  lemma StepAnswers(s: Session, g: Segment)
    requires s.sendNext < 0x1_0000_0000
    ensures
      var t := Handle(s, g);
      && (HasReset(g.flags) ==> t == s.(resetSeen := true, finished := true, notices := s.notices + 1))
      && (Accepts(s, g) ==>
            var ack := (g.sequence + 1) % 0x1_0000_0000;
            && t.established && t.receiveNext == ack && t.accepted == s.accepted && t.finished == s.finished
            && t.sent == s.sent + [Sent(s.sendNext, ack, 0x10, []), Sent(s.sendNext, ack, 0x18, ListenRequest())]
            && t.sendNext == (s.sendNext + 14) % 0x1_0000_0000)
      && (IsDue(s, g) ==>
            var ack := (g.sequence + |g.payload|) % 0x1_0000_0000;
            && t.established && t.receiveNext == ack && t.accepted == s.accepted + g.payload && t.finished == s.finished
            && t.sent == s.sent + [Sent(s.sendNext, ack, 0x10, [])]
                 + (if g.payload == Welcome() then [Sent(s.sendNext, ack, 0x11, [])] else [])
            && t.replySeen == (s.replySeen || g.payload == Welcome())
            && t.sendNext == (s.sendNext + if g.payload == Welcome() then 1 else 0) % 0x1_0000_0000)
      && (IsFin(s, g) ==>
            var ack := (g.sequence + 1) % 0x1_0000_0000;
            && t.established && t.receiveNext == ack && t.accepted == s.accepted && t.finished
            && t.sent == s.sent + [Sent(s.sendNext, ack, 0x10, [])] && t.sendNext == s.sendNext)
      && (!HasReset(g.flags) && !Accepts(s, g) && !IsDue(s, g) && !IsFin(s, g) ==> t == s)
  {
    hide Welcome, ListenRequest;
    assert Seq32(s.sendNext) == s.sendNext;
  }

  lemma {:induction false} SendNextFits(segments: seq<Segment>)
    ensures Run(Opened(), segments).sendNext < 0x1_0000_0000
  {
    hide Welcome, ListenRequest;
    if segments != [] {
      var front := segments[..|segments| - 1];
      SendNextFits(front);
      StepAnswers(Run(Opened(), front), segments[|segments| - 1]);
    }
  }

  /** The session after the first `k` segments. */
  ghost function After(segments: seq<Segment>, k: nat): (s: Session)
    requires k <= |segments|
  {
    Run(Opened(), segments[..k])
  }

  lemma AfterNext(segments: seq<Segment>, k: nat)
    requires k < |segments|
    ensures After(segments, k + 1) == Handle(After(segments, k), segments[k])
    ensures After(segments, k).sendNext < 0x1_0000_0000
  {
    assert segments[..k + 1][..k] == segments[..k];
    SendNextFits(segments[..k]);
  }

  /** Over every run: whatever is sent from establishment on carries the acknowledgement due then, and an
      accepted slice is acknowledged at once, with the number behind the last accepted byte. */
  lemma EveryStepAnswers(segments: seq<Segment>, isn: nat, d: seq<byte>, k: nat)
    requires k < |segments| && |d| + 2 <= 0x1_0000_0000 && forall g :: g in segments ==> FromGuest(g, isn, d)
    ensures
      var s, t := After(segments, k), After(segments, k + 1);
      && s.sent <= t.sent && (forall m :: |s.sent| <= m < |t.sent| ==> t.sent[m].acknowledgement == t.receiveNext)
      && (s.accepted != t.accepted ==>
            && |s.sent| < |t.sent| && t.accepted == s.accepted + segments[k].payload
            && t.sent[|s.sent|].flags == 0x10 && t.sent[|s.sent|].payload == []
            && t.sent[|s.sent|].acknowledgement == (isn + 1 + |t.accepted|) % 0x1_0000_0000)
  {
    hide Handle, Welcome, ListenRequest, FromGuest, Run;
    var s, g := After(segments, k), segments[k];
    AfterNext(segments, k);
    StepAnswers(s, g);
    assert forall x :: x in segments[..k] ==> x in segments;
    AcceptedIsPrefix(segments[..k], isn, d);
    if IsDue(s, g) {
      AcknowledgedIs(s, g, isn, d);
    }
  }

  lemma AcknowledgedIs(s: Session, g: Segment, isn: nat, d: seq<byte>)
    requires Received(s, isn, d) && FromGuest(g, isn, d) && IsDue(s, g) && |d| + 2 <= 0x1_0000_0000
    ensures (g.sequence + |g.payload|) % 0x1_0000_0000 == (isn + 1 + |s.accepted| + |g.payload|) % 0x1_0000_0000
  {
    var a: nat :| IsSlice(g, isn, d, a);
    DueIsNext(s, g, isn, d, a);
  }

  /** The SYN, and after establishment the acknowledgement of the guest's SYN and the request. */
  ghost function Opening(isn: nat): (r: seq<Sent>) {
    var ack := (isn + 1) % 0x1_0000_0000;
    [Sent(ISN, 0, 0x02, []), Sent(ISN + 1, ack, 0x10, []), Sent(ISN + 1, ack, 0x18, ListenRequest())]
  }

  /** Over every run: before establishment only the SYN has been sent; from then on the opening three
      segments, once, and behind them nothing that carries data. */
  lemma {:induction false} RequestIsSentOnce(segments: seq<Segment>, isn: nat, d: seq<byte>)
    requires forall g :: g in segments ==> FromGuest(g, isn, d)
    ensures
      var s := Run(Opened(), segments);
      if !s.established then s.sent == Opening(isn)[..1] && s.sendNext == ISN + 1
      else Opening(isn) <= s.sent && forall m :: 3 <= m < |s.sent| ==> s.sent[m].payload == []
  {
    hide Handle, Welcome, ListenRequest, FromGuest;
    if segments == [] {
      OpenedIs();
    } else {
      var front, g := segments[..|segments| - 1], segments[|segments| - 1];
      RequestIsSentOnce(front, isn, d);
      var s := Run(Opened(), front);
      SendNextFits(front);
      StepAnswers(s, g);
      if Accepts(s, g) {
        HandshakeNumber(s, g, isn, d);
        assert Handle(s, g).sent == Opening(isn);
      }
    }
  }

  lemma OpenedIs()
    ensures Opened().sent == [Sent(ISN, 0, 0x02, [])] && Opened().sendNext == ISN + 1
    ensures !Opened().established && Opened().accepted == [] && !Opened().finished && Opened().notices == 0 && !Opened().replySeen
  {
  }

  lemma HandshakeNumber(s: Session, g: Segment, isn: nat, d: seq<byte>)
    requires FromGuest(g, isn, d) && Accepts(s, g)
    ensures (g.sequence + 1) % 0x1_0000_0000 == (isn + 1) % 0x1_0000_0000
  {
    Seq32Add(isn, 1);
  }

  ghost function Resets(segments: seq<Segment>): (n: nat) {
    if segments == [] then 0
    else Resets(segments[..|segments| - 1]) + if HasReset(segments[|segments| - 1].flags) then 1 else 0
  }

  /** Every reset is reported once, and nothing else is. */
  lemma {:induction false} ResetsAreReported(segments: seq<Segment>)
    ensures
      var s := Run(Opened(), segments);
      s.notices == Resets(segments) && (s.resetSeen <==> 0 < Resets(segments)) && (s.resetSeen ==> s.finished)
  {
    hide Welcome, ListenRequest;
    if segments != [] {
      ResetsAreReported(segments[..|segments| - 1]);
    }
  }

  /** The guest is free to send any slice of its stream, its SYN-ACK and FIN, bare acknowledgements with
      any numbers, and anything with a reset. */
  lemma GuestMaySend(g: Segment, isn: nat, d: seq<byte>, a: nat)
    ensures HasReset(g.flags) ==> FromGuest(g, isn, d)
    ensures !HasSyn(g.flags) && g.payload != [] && IsSliceAt(g, isn, d, a) ==> FromGuest(g, isn, d)
    ensures HasSyn(g.flags) && !HasFin(g.flags) && g.payload == [] && g.sequence == isn % 0x1_0000_0000 ==> FromGuest(g, isn, d)
    ensures !HasSyn(g.flags) && HasFin(g.flags) && g.payload == [] && g.sequence == (isn + 1 + |d|) % 0x1_0000_0000 ==> FromGuest(g, isn, d)
    ensures !HasSyn(g.flags) && !HasFin(g.flags) && g.payload == [] ==> FromGuest(g, isn, d)
  {
    if IsSliceAt(g, isn, d, a) {
      assert IsSlice(g, isn, d, a);
    }
  }

  /** The payload is the stream's from `a` on, under its sequence number. */
  predicate IsSliceAt(g: Segment, isn: nat, d: seq<byte>, a: nat) {
    a + |g.payload| <= |d| && g.payload == d[a..a + |g.payload|] && g.sequence == (isn + 1 + a) % 0x1_0000_0000
  }
}
