/** A whole receive queue at the client: whatever of the relay's writes arrive, in
    whatever order and however often, reading to the end returns exactly the
    payloads that the peer framed for this reader, in the order of arrival. */
module RelayQueue {
  import opened Options
  import opened Keys
  import opened Frame
  import opened RelayServer
  import opened RelayClient
  import RelaySafety

  /** What reading again and again returns until the queue is empty. */
  function ReadAll(ep: Endpoint, cap: nat, inbox: seq<Packet>): seq<Bytes>
    decreases |inbox|
  {
    var (o, k) := Receive(ep, cap, inbox);
    if o.None? then [] else [o.value] + ReadAll(ep, cap, inbox[k..])
  }

  /** What one packet adds to that. */
  function Yield(ep: Endpoint, cap: nat, pkt: Packet): seq<Bytes> {
    match Accept(ep, cap, pkt)
    case None => []
    case Some(payload) => [payload]
  }

  /** Packet by packet, from the front. */
  lemma {:induction false} ReadAllHead(ep: Endpoint, cap: nat, inbox: seq<Packet>)
    requires inbox != []
    ensures ReadAll(ep, cap, inbox) == Yield(ep, cap, inbox[0]) + ReadAll(ep, cap, inbox[1..])
  {
    ReceiveHead(ep, cap, inbox);
    var (o, k) := Receive(ep, cap, inbox[1..]);
    if Accept(ep, cap, inbox[0]).None? && o.Some? {
      assert inbox[1..][k..] == inbox[k + 1..];
    }
  }

  /** The relay's writes, named by the datagrams that caused them. */
  ghost predicate AreWrites(cfg: Config, start: int, inputs: seq<Input>, arrived: seq<nat>) {
    forall k :: 0 <= k < |arrived| ==>
      arrived[k] < |inputs| && OutcomeAt(cfg, Start(start), inputs, arrived[k]).Forwarded?
  }

  ghost function Inbox(cfg: Config, start: int, inputs: seq<Input>, arrived: seq<nat>, relay: UdpAddr): (r: seq<Packet>)
    requires AreWrites(cfg, start, inputs, arrived)
    ensures |r| == |arrived|
  {
    seq(|arrived|, k requires 0 <= k < |arrived| =>
      Packet(OutcomeAt(cfg, Start(start), inputs, arrived[k]).bytes, relay))
  }

  /** The payload of a datagram that the peer framed for this reader, as far as
      the reader's buffer goes; into an empty buffer nothing is read. */
  function ForReader(ep: Endpoint, cap: nat, inp: Input): seq<Bytes> {
    match DecodeFrame(inp.bytes)
    case None => []
    case Some(e) =>
      if cap > 0 && e.token == ep.token && e.side == Other(ep.side) && e.payload != []
      then [e.payload[..Min(|e.payload|, cap)]] else []
  }

  function AllForReader(ep: Endpoint, cap: nat, inputs: seq<Input>, arrived: seq<nat>): seq<Bytes>
    requires forall k :: 0 <= k < |arrived| ==> arrived[k] < |inputs|
  {
    if arrived == [] then [] else ForReader(ep, cap, inputs[arrived[0]]) + AllForReader(ep, cap, inputs, arrived[1..])
  }

  /** One write, read by one client: it yields what its datagram holds for it. */
  lemma WriteYields(cfg: Config, start: int, inputs: seq<Input>, i: nat, ep: Endpoint, cap: nat)
    requires i < |inputs| && ValidSide(ep.side)
    requires OutcomeAt(cfg, Start(start), inputs, i).Forwarded?
    ensures Yield(ep, cap, Packet(OutcomeAt(cfg, Start(start), inputs, i).bytes, ep.relayAddr)) ==
            ForReader(ep, cap, inputs[i])
  {
    RelaySafety.WritesAreAuthentic(cfg, Start(start), inputs, i);
    var e := Authentic(cfg, inputs[i]).value;
    CutKeepsHeader(e, cap);
  }

  /** Nothing foreign, nothing missed, nothing out of order. */
  lemma {:induction false} QueueIsRead(
      cfg: Config, start: int, inputs: seq<Input>, arrived: seq<nat>, ep: Endpoint, cap: nat)
    requires ValidSide(ep.side) && AreWrites(cfg, start, inputs, arrived)
    ensures ReadAll(ep, cap, Inbox(cfg, start, inputs, arrived, ep.relayAddr)) ==
            AllForReader(ep, cap, inputs, arrived)
    decreases |arrived|
  {
    if arrived != [] {
      var inbox := Inbox(cfg, start, inputs, arrived, ep.relayAddr);
      ReadAllHead(ep, cap, inbox);
      WriteYields(cfg, start, inputs, arrived[0], ep, cap);
      assert inbox[1..] == Inbox(cfg, start, inputs, arrived[1..], ep.relayAddr);
      QueueIsRead(cfg, start, inputs, arrived[1..], ep, cap);
    }
  }
}
