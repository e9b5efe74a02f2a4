/** What one turn of the relay loop answers, told on the bytes of the datagram and
    the fields of the session: who is admitted, what is dropped, what is forwarded
    and what it costs. */
module RelayAdmission {
  import opened Options
  import opened Keys
  import opened Frame
  import opened RelayServer
  import BigEndian

  // -------------------------------------------------------------- the datagram

  /** The signed 64-bit number in eight bytes, the most significant first. */
  function Signed64(s: Bytes): int
    requires |s| == 8
  {
    BigEndian.Decode(s) - if s[0] as int >= 128 then 0x1_0000_0000_0000_0000 else 0
  }

  /** Four bytes of magic, one of side, eight of expiry, sixteen of session id,
      and thirty-two that must be the MAC of expiry and id; then the payload. */
  predicate Genuine(cfg: Config, bytes: Bytes, now: int) {
    && 61 <= |bytes| <= 65536
    && bytes[0] == 'S' && bytes[1] == 'Y' && bytes[2] == 'R' && bytes[3] as int == 1 && bytes[4] as int <= 1
    && |cfg.secret| >= 32
    && now < Signed64(bytes[5..13]) * 1_000_000_000
    && bytes[29..61] == cfg.mac(cfg.secret, bytes[5..29])
  }

  lemma SignedIsRead(s: Bytes)
    requires |s| == 8
    ensures BigEndian.GetInt64(s) == Signed64(s)
  {
    BigEndian.EncodeOfDecode(s);
    BigEndian.Width8();
    TopBit(s);
  }

  lemma {:induction false} FirstByte(s: Bytes)
    requires s != []
    ensures s[0] as int * BigEndian.Pow256(|s| - 1) <= BigEndian.Decode(s)
    ensures BigEndian.Decode(s) < (s[0] as int + 1) * BigEndian.Pow256(|s| - 1)
  {
    var init := s[..|s| - 1];
    if |s| > 1 {
      FirstByte(init);
      var p, d := BigEndian.Pow256(|s| - 2), BigEndian.Decode(init);
      assert BigEndian.Pow256(|s| - 1) == 256 * p;
      assert s[0] as int * (256 * p) == 256 * (s[0] as int * p);
      assert (s[0] as int + 1) * (256 * p) == 256 * ((s[0] as int + 1) * p);
    } else {
      assert init == [] && BigEndian.Decode(init) == 0;
    }
  }

  lemma TopBit(s: Bytes)
    requires |s| == 8
    ensures s[0] as int >= 128 <==> BigEndian.Decode(s) >= BigEndian.TWO_TO_THE_63
  {
    FirstByte(s);
    BigEndian.Width8();
    assert BigEndian.Pow256(8) == 256 * BigEndian.Pow256(7);
    var p, c := BigEndian.Pow256(7), s[0] as int;
    assert 128 * p == BigEndian.TWO_TO_THE_63;
    if c >= 128 {
      assert (c - 128) * p >= 0;
    } else {
      assert (127 - c) * p >= 0;
    }
  }

  /** Exactly the genuine datagrams are admitted, and they are cut up so. */
  lemma AdmittedIsGenuine(cfg: Config, inp: Input)
    ensures Authentic(cfg, inp).Some? <==> Genuine(cfg, inp.bytes, inp.now)
    ensures Authentic(cfg, inp).Some? ==> var e := Authentic(cfg, inp).value;
      && e.side == inp.bytes[4] && e.token == inp.bytes[5..61] && e.payload == inp.bytes[61..]
      && IdOf(e.token).raw == inp.bytes[13..29] && ExpiresAt(e.token) == Signed64(inp.bytes[5..13]) * 1_000_000_000
  {
    var b := inp.bytes;
    if 61 <= |b| <= 65536 {
      var t := b[5..61];
      assert t[..8] == b[5..13] && t[8..24] == b[13..29] && t[..24] == b[5..29] && t[24..] == b[29..61];
      SignedIsRead(t[..8]);
      MagicBytes(b);
    }
  }

  lemma MagicBytes(b: Bytes)
    requires |b| >= 4
    ensures b[..4] == MAGIC <==> b[0] == 'S' && b[1] == 'Y' && b[2] == 'R' && b[3] as int == 1
  {
    if b[0] == 'S' && b[1] == 'Y' && b[2] == 'R' && b[3] as int == 1 {
      assert b[..4] == ['S', 'Y', 'R', b[3]];
    }
  }

  // ---------------------------------------------------------------- the sessions

  /** The eviction pass, if it is due, leaves this session. */
  predicate Stays(cfg: Config, st: State, now: int, id: SessionId)
    requires id in st.sessions
  {
    now < st.nextCleanup || (now < st.sessions[id].expiresAt && now - st.sessions[id].lastSeen <= cfg.idle)
  }

  /** Of this id, these are the sessions the eviction pass leaves. */
  predicate SweptAt(cfg: Config, st: State, now: int, id: SessionId, sessions: map<SessionId, Conversation>) {
    && (id in sessions <==> id in st.sessions && Stays(cfg, st, now, id))
    && (id in sessions ==> sessions[id] == st.sessions[id])
  }

  ghost predicate Swept(cfg: Config, st: State, now: int, sessions: map<SessionId, Conversation>) {
    forall id :: SweptAt(cfg, st, now, id, sessions)
  }

  /** When the next pass is due: half the idle time from a pass, at most a minute. */
  predicate Scheduled(cfg: Config, st: State, now: int, due: int) {
    if now < st.nextCleanup then due == st.nextCleanup
    else
      && now < due <= now + 60_000_000_000
      && (cfg.idle >= 120_000_000_000 ==> due == now + 60_000_000_000)
      && (2 <= cfg.idle < 120_000_000_000 ==> due == now + cfg.idle / 2)
  }

  lemma SweptIs(cfg: Config, st: State, now: int)
    ensures Swept(cfg, st, now, Cleanup(cfg, st, now).sessions)
    ensures Scheduled(cfg, st, now, Cleanup(cfg, st, now).nextCleanup)
  {
  }

  /** A datagram that is not genuine changes nothing but the count of drops. */
  lemma ForgedIsDropped(cfg: Config, st: State, inp: Input)
    requires TwoSided(st) && !Genuine(cfg, inp.bytes, inp.now)
    ensures var (next, o) := Step(cfg, st, inp);
      && o == Dropped && Swept(cfg, st, inp.now, next.sessions)
      && Scheduled(cfg, st, inp.now, next.nextCleanup) && next.dropped == st.dropped + 1
      && next.forwardedFrames == st.forwardedFrames && next.forwardedBytes == st.forwardedBytes
  {
    AdmittedIsGenuine(cfg, inp);
    SweptIs(cfg, st, inp.now);
  }

  /** A frame whose last thirty-two token bytes are not the MAC of those before. */
  lemma WrongMacIsDropped(cfg: Config, st: State, inp: Input)
    requires TwoSided(st) && |inp.bytes| >= 61 && inp.bytes[29..61] != cfg.mac(cfg.secret, inp.bytes[5..29])
    ensures Step(cfg, st, inp).1 == Dropped && Swept(cfg, st, inp.now, Step(cfg, st, inp).0.sessions)
  {
    ForgedIsDropped(cfg, st, inp);
  }

  /** The session a genuine datagram meets: the one its id has after the eviction
      pass, or a new one with a full bucket and no address. */
  ghost predicate Meets(cfg: Config, st: State, inp: Input, s: Conversation)
    requires |inp.bytes| >= 61
  {
    var id := SessionId(inp.bytes[13..29]);
    if id in st.sessions && Stays(cfg, st, inp.now, id) then s == st.sessions[id]
    else
      && s.addresses == [None, None] && s.expiresAt == Signed64(inp.bytes[5..13]) * 1_000_000_000
      && s.bucket == Bucket(cfg.burst * 1_000_000_000, inp.now)
  }

  /** What the session's bucket holds at this instant, in byte-nanoseconds. */
  function Available(cfg: Config, b: Bucket, now: int): int {
    var earned := b.tokens + (now - b.last) * cfg.rate;
    if now <= b.last then b.tokens else if earned > cfg.burst * 1_000_000_000 then cfg.burst * 1_000_000_000 else earned
  }

  /** The source may speak for its side: the side is free or bound to it. */
  predicate MaySpeak(s: Conversation, side: nat, source: Addr)
    requires |s.addresses| == 2 && side < 2
  {
    s.addresses[side].None? || (source.Udp? && s.addresses[side].value == source.addr)
  }

  /** The counters after a turn on a datagram with so many bytes of payload. */
  predicate Counted(st: State, next: State, o: Outcome, size: nat) {
    && next.dropped == st.dropped + (if o == Dropped then 1 else 0)
    && next.forwardedFrames == st.forwardedFrames + (if o.Forwarded? then 1 else 0)
    && next.forwardedBytes == st.forwardedBytes + (if o.Forwarded? then size else 0)
  }

  /** What the session becomes and what is answered, for this side and payload. */
  ghost predicate Routed(
      cfg: Config, s: Conversation, side: nat, payload: Bytes, inp: Input, s': Conversation, o: Outcome)
    requires |s.addresses| == 2 && side < 2
  {
    var size, credit := |payload| * 1_000_000_000, Available(cfg, s.bucket, inp.now);
    var speaks, other := MaySpeak(s, side, inp.source), s.addresses[1 - side];
    var metered := speaks && payload != [];
    && s'.lastSeen == inp.now && s'.expiresAt == s.expiresAt && |s'.addresses| == 2
    && s'.addresses[1 - side] == other
    && s'.addresses[side] == (if speaks && inp.source.Udp? then Some(inp.source.addr) else s.addresses[side])
    && s'.bucket.tokens == (if !metered then s.bucket.tokens else if size <= credit then credit - size else credit)
    && s'.bucket.last == (if metered && inp.now > s.bucket.last then inp.now else s.bucket.last)
    && (o == Registered <==> speaks && payload == [])
    && (o.Forwarded? ==> o.bytes == inp.bytes)
    && forall d :: o == Forwarded(d, inp.bytes) <==> metered && size <= credit && other == Some(d) && inp.writeOk
  }

  /** Everything one turn does with a genuine datagram. */
  ghost predicate Answers(cfg: Config, st: State, inp: Input, s: Conversation, next: State, o: Outcome)
    requires Genuine(cfg, inp.bytes, inp.now) && |s.addresses| == 2
  {
    var id, payload := SessionId(inp.bytes[13..29]), inp.bytes[61..];
    && id in next.sessions && Routed(cfg, s, inp.bytes[4] as int, payload, inp, next.sessions[id], o)
    && (forall i :: i != id ==> SweptAt(cfg, st, inp.now, i, next.sessions))
    && Counted(st, next, o, |payload|) && Scheduled(cfg, st, inp.now, next.nextCleanup)
  }

  lemma MetSession(cfg: Config, st: State, inp: Input)
    requires TwoSided(st) && Genuine(cfg, inp.bytes, inp.now)
    ensures Authentic(cfg, inp).Some?
    ensures var t := Authentic(cfg, inp).value.token;
      var s := Enter(cfg, Cleanup(cfg, st, inp.now), t, inp.now).sessions[IdOf(t)];
      |s.addresses| == 2 && Meets(cfg, st, inp, s) && IdOf(t) == SessionId(inp.bytes[13..29])
  {
    AdmittedIsGenuine(cfg, inp);
  }

  lemma RouteAnswers(cfg: Config, s: Conversation, e: Envelope, inp: Input)
    requires |s.addresses| == 2 && ValidSide(e.side)
    ensures var (s', o) := Route(cfg, s, e, inp); Routed(cfg, s, e.side as int, e.payload, inp, s', o)
  {
  }

  /** A genuine datagram is registered, forwarded or dropped exactly so. */
  lemma GenuineIsAnswered(cfg: Config, st: State, inp: Input) returns (s: Conversation)
    requires TwoSided(st) && Genuine(cfg, inp.bytes, inp.now)
    ensures Meets(cfg, st, inp, s) && |s.addresses| == 2
    ensures Answers(cfg, st, inp, s, Step(cfg, st, inp).0, Step(cfg, st, inp).1)
  {
    AdmittedIsGenuine(cfg, inp);
    MetSession(cfg, st, inp);
    var e := Authentic(cfg, inp).value;
    s := Enter(cfg, Cleanup(cfg, st, inp.now), e.token, inp.now).sessions[IdOf(e.token)];
    RouteAnswers(cfg, s, e, inp);
  }
}
