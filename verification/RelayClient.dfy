/** pkg/mesh/relay/packetconn.go: the client end of a relay session, and what the
    two clients and the server loop do together. */
module RelayClient {
  import opened Options
  import opened Keys
  import opened Frame
  import opened RelayServer
  import RelaySafety

  datatype Endpoint = Endpoint(relayAddr: UdpAddr, token: Token, side: Side)

  datatype Packet = Packet(bytes: Bytes, source: UdpAddr)

  function Min(a: nat, b: nat): nat {
    if a < b then a else b
  }

  /** The payload one received packet yields, if ReadFrom does not skip it. The
      socket cuts a datagram to the size of the frame buffer. */
  function Accept(ep: Endpoint, cap: nat, pkt: Packet): Option<Bytes> {
    if pkt.source.ip != ep.relayAddr.ip || pkt.source.port != ep.relayAddr.port then None
    else
      match DecodeFrame(pkt.bytes[..Min(|pkt.bytes|, cap + HEADER_SIZE)])
      case None => None
      case Some(e) =>
        if e.side != Other(ep.side) || e.payload == [] || e.token != ep.token then None else Some(e.payload)
  }

  /** On the bytes: a packet from the relay's address and port is accepted when what
      fits the buffer is a frame with this token for the other side and a payload. */
  lemma AcceptIsExact(ep: Endpoint, cap: nat, pkt: Packet)
    requires ValidSide(ep.side)
    ensures var cut := pkt.bytes[..Min(|pkt.bytes|, cap + 61)];
      && (Accept(ep, cap, pkt).Some? <==>
            && pkt.source.ip == ep.relayAddr.ip && pkt.source.port == ep.relayAddr.port
            && 61 < |cut| <= 65536 && cut[..4] == ['S', 'Y', 'R', 1 as char]
            && cut[4] as int == 1 - ep.side as int && cut[5..61] == ep.token)
      && (Accept(ep, cap, pkt).Some? ==> Accept(ep, cap, pkt).value == cut[61..])
  {
  }

  /** The first packet of the queue that is accepted: its payload, and how many
      packets were taken off the queue. */
  function Receive(ep: Endpoint, cap: nat, inbox: seq<Packet>): (r: (Option<Bytes>, nat))
    ensures r.1 <= |inbox|
    ensures r.0.Some? ==> 0 < r.1 && Accept(ep, cap, inbox[r.1 - 1]) == r.0
    ensures forall k :: 0 <= k < r.1 - (if r.0.Some? then 1 else 0) ==> Accept(ep, cap, inbox[k]) == None
    ensures r.0.None? ==> r.1 == |inbox|
  {
    if inbox == [] then (None, 0)
    else if Accept(ep, cap, inbox[0]).Some? then (Accept(ep, cap, inbox[0]), 1)
    else
      var (o, k) := Receive(ep, cap, inbox[1..]);
      (o, k + 1)
  }

  function Later(r: (Option<Bytes>, nat), k: nat): (Option<Bytes>, nat) {
    (r.0, r.1 + k)
  }

  /** Looking at the packet in front of the queue. */
  lemma ReceiveNext(ep: Endpoint, cap: nat, all: seq<Packet>, k: nat)
    requires k < |all| && Receive(ep, cap, all) == Later(Receive(ep, cap, all[k..]), k)
    ensures Accept(ep, cap, all[k]).Some? ==> Receive(ep, cap, all) == (Accept(ep, cap, all[k]), k + 1)
    ensures Accept(ep, cap, all[k]).None? ==> Receive(ep, cap, all) == Later(Receive(ep, cap, all[k + 1..]), k + 1)
  {
    var rest := all[k..];
    assert rest[1..] == all[k + 1..] && rest[0] == all[k];
    ReceiveHead(ep, cap, rest);
    LaterTwice(Receive(ep, cap, rest[1..]), k);
  }

  lemma LaterTwice(r: (Option<Bytes>, nat), k: nat)
    ensures Later(Later(r, 1), k) == Later(r, k + 1)
  {
  }

  lemma ReceiveHead(ep: Endpoint, cap: nat, inbox: seq<Packet>)
    requires inbox != []
    ensures Accept(ep, cap, inbox[0]).Some? ==> Receive(ep, cap, inbox) == (Accept(ep, cap, inbox[0]), 1)
    ensures Accept(ep, cap, inbox[0]).None? ==> Receive(ep, cap, inbox) == Later(Receive(ep, cap, inbox[1..]), 1)
  {
  }

  datatype ReadResult = Read(n: nat, from: UdpAddr) | ReadFailed

  datatype WriteResult = Written(n: nat) | TooLarge

  class PacketConn {
    const ep: Endpoint
    /** Packets the socket will deliver before it fails, and frames sent. */
    var inbox: seq<Packet>
    var sent: seq<Bytes>

    constructor (ep: Endpoint, inbox: seq<Packet>)
      ensures this.ep == ep && this.inbox == inbox && sent == []
    {
      this.ep, this.inbox, sent := ep, inbox, [];
    }

    /** The short-buffer error of the source is never returned: a frame buffer of
        `len(p)` payload bytes cannot hold a longer payload. */
    method ReadFrom(p: array<Byte>) returns (r: ReadResult)
      modifies `inbox, p
      ensures var (o, k) := Receive(ep, p.Length, old(inbox));
        && inbox == old(inbox)[k..]
        && (o.None? ==> r == ReadFailed && p[..] == old(p[..]))
        && (o.Some? ==> r == Read(|o.value|, ep.relayAddr) && |o.value| <= p.Length
                        && p[..] == o.value + old(p[..])[|o.value|..])
    {
      ghost var all := inbox;
      ghost var k := 0;
      while inbox != []
        invariant k <= |all| && inbox == all[k..]
        invariant Receive(ep, p.Length, all) == Later(Receive(ep, p.Length, inbox), k)
        invariant p[..] == old(p[..])
        decreases |inbox|
      {
        ReceiveNext(ep, p.Length, all, k);
        var pkt := inbox[0];
        inbox := inbox[1..];
        k := k + 1;
        assert inbox == all[k..];
        var payload := Filter(pkt, p.Length);
        if payload.None? {
          continue;
        }
        if |payload.value| > p.Length {
          assert false;
        }
        CopyAt(p, 0, payload.value);
        r := Read(|payload.value|, ep.relayAddr);
        return;
      }
      return ReadFailed;
    }

    /** The checks ReadFrom makes on one packet. */
    method Filter(pkt: Packet, cap: nat) returns (payload: Option<Bytes>)
      ensures payload == Accept(ep, cap, pkt)
      ensures payload.Some? ==> |payload.value| <= cap
    {
      var frame := pkt.bytes[..Min(|pkt.bytes|, cap + HEADER_SIZE)];
      if pkt.source.ip != ep.relayAddr.ip || pkt.source.port != ep.relayAddr.port {
        return None;
      }
      var e := DecodeFrame(frame);
      if e.None? || e.value.side != Other(ep.side) || |e.value.payload| == 0 {
        return None;
      }
      if e.value.token != ep.token {
        return None;
      }
      return Some(e.value.payload);
    }

    method WriteTo(p: Bytes) returns (r: WriteResult)
      modifies `sent
      ensures HEADER_SIZE + |p| > MAX_UDP_SIZE ==> r == TooLarge && sent == old(sent)
      ensures HEADER_SIZE + |p| <= MAX_UDP_SIZE ==>
                r == Written(|p|) && sent == old(sent) + [FrameBytes(Envelope(ep.token, ep.side, p))]
    {
      if |p| + HEADER_SIZE > MAX_UDP_SIZE {
        return TooLarge;
      }
      var frame := EncodeFrame(ep.token, ep.side, p);
      sent := sent + [frame[..]];
      return Written(|p|);
    }
  }

  // ------------------------------------------------------------- end to end

  /** A frame a peer wrote arrives whole exactly when the reader's buffer is large
      enough; otherwise its beginning arrives with no error, or nothing at all
      into an empty buffer. */
  lemma WrittenFrameIsRead(ep: Endpoint, cap: nat, payload: Bytes, source: UdpAddr)
    requires ValidSide(ep.side) && source.ip == ep.relayAddr.ip && source.port == ep.relayAddr.port
    requires payload != [] && HEADER_SIZE + |payload| <= MAX_UDP_SIZE
    ensures var got := Accept(ep, cap, Packet(FrameBytes(Envelope(ep.token, Other(ep.side), payload)), source));
      && got == (if cap == 0 then None else Some(payload[..Min(|payload|, cap)]))
      && (got == Some(payload) <==> |payload| <= cap)
  {
    var e := Envelope(ep.token, Other(ep.side), payload);
    var cut := Envelope(ep.token, Other(ep.side), payload[..Min(|payload|, cap)]);
    var bytes := FrameBytes(e);
    assert bytes[..Min(|bytes|, cap + HEADER_SIZE)] == FrameBytes(cut);
    assert |cut.payload| == Min(|payload|, cap) && payload[..|payload|] == payload;
    DecodeOfFrame(cut);
  }

  /** Whatever a client reads from a packet the relay wrote is the beginning of a
      payload that some sender framed with the same token for the opposite side;
      the relay held that token valid, and wrote from the address bound to the
      opposite side to the address bound to the reader's. */
  lemma ReadsComeFromThePeer(
      cfg: Config, start: int, inputs: seq<Input>, i: nat, ep: Endpoint, cap: nat, source: UdpAddr)
    requires i < |inputs| && ValidSide(ep.side)
    requires OutcomeAt(cfg, Start(start), inputs, i).Forwarded?
    requires Accept(ep, cap, Packet(OutcomeAt(cfg, Start(start), inputs, i).bytes, source)).Some?
    ensures var o, inp := OutcomeAt(cfg, Start(start), inputs, i), inputs[i];
      exists payload ::
        && inp.bytes == FrameBytes(Envelope(ep.token, Other(ep.side), payload))
        && Accept(ep, cap, Packet(o.bytes, source)) == Some(payload[..Min(|payload|, cap)])
        && ValidToken(cfg.mac, cfg.secret, ep.token, inp.now)
        && IdOf(ep.token) in Run(cfg, Start(start), inputs[..i + 1]).sessions
        && var s := Run(cfg, Start(start), inputs[..i + 1]).sessions[IdOf(ep.token)];
           && s.addresses[ep.side as int] == Some(o.dest)
           && (inp.source.Udp? ==> s.addresses[Other(ep.side) as int] == Some(inp.source.addr))
  {
    RelaySafety.WritesAreAuthentic(cfg, Start(start), inputs, i);
    var o, inp := OutcomeAt(cfg, Start(start), inputs, i), inputs[i];
    var e := Authentic(cfg, inp).value;
    CutKeepsHeader(e, cap);
    assert inp.bytes == FrameBytes(e) == o.bytes;
    assert e == Envelope(ep.token, Other(ep.side), e.payload);
    WrittenFrameIsRead(ep, cap, e.payload, source);
  }

  /** Cutting a frame behind its header changes neither token nor side. */
  lemma CutKeepsHeader(e: Envelope, cap: nat)
    requires ValidSide(e.side) && HEADER_SIZE + |e.payload| <= MAX_UDP_SIZE
    ensures var bytes := FrameBytes(e);
            DecodeFrame(bytes[..Min(|bytes|, cap + HEADER_SIZE)])
            == Some(Envelope(e.token, e.side, e.payload[..Min(|e.payload|, cap)]))
  {
    var bytes := FrameBytes(e);
    var cut := Envelope(e.token, e.side, e.payload[..Min(|e.payload|, cap)]);
    assert bytes[..Min(|bytes|, cap + HEADER_SIZE)] == FrameBytes(cut);
    DecodeOfFrame(cut);
  }

  /** A payload that one client wrote, that the relay forwarded, and that fits the
      reader's buffer is read exactly as it was written. */
  lemma ForwardedPayloadIsRead(
      cfg: Config, start: int, inputs: seq<Input>, i: nat, ep: Endpoint, cap: nat, payload: Bytes)
    requires i < |inputs| && ValidSide(ep.side) && payload != [] && HEADER_SIZE + |payload| <= MAX_UDP_SIZE
    requires inputs[i].bytes == FrameBytes(Envelope(ep.token, Other(ep.side), payload))
    requires OutcomeAt(cfg, Start(start), inputs, i).Forwarded?
    ensures Accept(ep, cap, Packet(OutcomeAt(cfg, Start(start), inputs, i).bytes, ep.relayAddr)) == Some(payload)
            <==> |payload| <= cap
  {
    RelaySafety.WritesAreAuthentic(cfg, Start(start), inputs, i);
    WrittenFrameIsRead(ep, cap, payload, ep.relayAddr);
  }
}
