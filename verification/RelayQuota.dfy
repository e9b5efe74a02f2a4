/** The quota theorem and its exact condition: the bound "burst plus rate times
    window" holds on every run if and only if the idle timeout is long enough to
    refill the bucket it throws away. */
module RelayQuota {
  import opened Options
  import opened Keys
  import opened BigEndian
  import opened Frame
  import opened RelayServer
  import opened RelayThroughput

  ghost predicate WithinQuota(cfg: Config, start: int, inputs: seq<Input>, id: SessionId, t1: int, t2: int) {
    SentBetween(cfg, Start(start), inputs, id, t1, t2) * SECOND <= Full(cfg) + cfg.rate * (t2 - t1)
  }

  /** On every run with a clock that never goes back and one expiry for the id,
      no window sees more than the burst plus the refill. */
  ghost predicate QuotaHolds(cfg: Config) {
    forall start, inputs, id, exp, t1, t2 ::
      Clocked(inputs, start) && OneExpiry(cfg, inputs, id, exp) && t1 <= t2 ==>
        WithinQuota(cfg, start, inputs, id, t1, t2)
  }

  lemma QuotaIsExact(cfg: Config)
    requires ValidConfig(cfg) && cfg.idle < TWO_TO_THE_63
    ensures QuotaHolds(cfg) <==> IdleRefills(cfg)
  {
    if IdleRefills(cfg) {
      forall start, inputs, id, exp, t1, t2
        | Clocked(inputs, start) && OneExpiry(cfg, inputs, id, exp) && t1 <= t2
        ensures WithinQuota(cfg, start, inputs, id, t1, t2)
      {
        assert Sound(cfg, Start(start), id, exp, start);
        SentInWindow(cfg, Start(start), inputs, id, exp, start, t1, t2);
      }
    } else {
      Overdraw(cfg);
    }
  }

  // --------------------------------------------- a run that overdraws the quota

  const HERE := UdpAddr(1, 1, "")
  const THERE := UdpAddr(2, 2, "")

  function Ticket(cfg: Config, until: Int64): Token {
    var signed := PutInt64(until) + seq(SESSION_ID_SIZE, _ => '\0');
    signed + cfg.mac(cfg.secret, signed)
  }

  function Datagram(t: Token, side: Side, payload: Bytes, now: int): Input {
    Input(FrameBytes(Envelope(t, side, payload)), Udp(if side == MOON then HERE else THERE), now, true)
  }

  lemma DatagramIsAuthentic(cfg: Config, until: Int64, side: Side, payload: Bytes, now: int)
    requires |cfg.secret| >= 32 && ValidSide(side) && |payload| <= 1
    ensures ExpiresAt(Ticket(cfg, until)) == until * SECOND
    ensures now < until * SECOND ==>
              Authentic(cfg, Datagram(Ticket(cfg, until), side, payload, now)) ==
                Some(Envelope(Ticket(cfg, until), side, payload))
    ensures now >= until * SECOND ==>
              Authentic(cfg, Datagram(Ticket(cfg, until), side, payload, now)) == None
  {
    var t := Ticket(cfg, until);
    var signed := PutInt64(until) + seq(SESSION_ID_SIZE, _ => '\0');
    assert t[..8] == PutInt64(until) && t[..SIGNED_SIZE] == signed && t[SIGNED_SIZE..] == cfg.mac(cfg.secret, signed);
    GetPutInt64(until);
    DecodeOfFrame(Envelope(t, side, payload));
  }

  /** A session of the ticket that both sides have joined, holding `tokens` at
      `now`, with no eviction due. */
  ghost predicate Joined(cfg: Config, st: State, t: Token, now: int, tokens: int) {
    && TwoSided(st) && now < st.nextCleanup && IdOf(t) in st.sessions
    && var s := st.sessions[IdOf(t)];
      && s.addresses == [Some(HERE), Some(THERE)]
      && Refill(cfg, s.bucket, now) == Bucket(tokens, now)
  }

  function Flood(t: Token, now: int, n: nat): seq<Input> {
    if n == 0 then [] else [Datagram(t, COMET, ['x'], now)] + Flood(t, now, n - 1)
  }

  lemma DatagramPasses(cfg: Config, st: State, until: Int64, now: int, n: nat)
    requires ValidConfig(cfg) && now < until * SECOND && n > 0
    requires Joined(cfg, st, Ticket(cfg, until), now, n * SECOND)
    ensures var t := Ticket(cfg, until); var inp := Datagram(t, COMET, ['x'], now); var mid := Step(cfg, st, inp).0;
      && Sent(cfg, st, inp, IdOf(t)) == 1 && Joined(cfg, mid, t, now, (n - 1) * SECOND) &&
           mid.nextCleanup == st.nextCleanup
      && mid.sessions[IdOf(t)].expiresAt == st.sessions[IdOf(t)].expiresAt && mid.sessions[IdOf(t)].lastSeen == now
  {
    DatagramIsAuthentic(cfg, until, COMET, ['x'], now);
  }

  /** A joined session passes as many one-byte datagrams as its bucket holds. */
  lemma FloodHead(t: Token, now: int, n: nat, rest: seq<Input>)
    requires n > 0
    ensures var all := Flood(t, now, n) + rest;
      all != [] && all[0] == Datagram(t, COMET, ['x'], now) && all[1..] == Flood(t, now, n - 1) + rest
  {
  }

  lemma {:induction false} FloodPasses(
      cfg: Config, st: State, until: Int64, now: int, n: nat, rest: seq<Input>, t1: int, t2: int) returns (next: State)
    requires ValidConfig(cfg) && now < until * SECOND && t1 <= now <= t2
    requires Joined(cfg, st, Ticket(cfg, until), now, n * SECOND)
    ensures var t := Ticket(cfg, until);
      && TwoSided(next) && next.nextCleanup == st.nextCleanup
      && IdOf(t) in next.sessions
      && next.sessions[IdOf(t)].expiresAt == st.sessions[IdOf(t)].expiresAt
      && next.sessions[IdOf(t)].lastSeen == (if n == 0 then st.sessions[IdOf(t)].lastSeen else now)
      && SentBetween(cfg, st, Flood(t, now, n) + rest, IdOf(t), t1, t2) ==
           n + SentBetween(cfg, next, rest, IdOf(t), t1, t2)
    decreases n
  {
    var t := Ticket(cfg, until);
    if n == 0 {
      next := st;
      assert [] + rest == rest;
    } else {
      var inp := Datagram(t, COMET, ['x'], now);
      var mid := Step(cfg, st, inp).0;
      DatagramPasses(cfg, st, until, now, n);
      next := FloodPasses(cfg, mid, until, now, n - 1, rest, t1, t2);
      FloodHead(t, now, n, rest);
    }
  }

  function Join(t: Token, now: int): seq<Input> {
    [Datagram(t, MOON, [], now), Datagram(t, COMET, [], now)]
  }

  /** Two registrations open a session with a full bucket, when none of the
      ticket's is there after the eviction pass. */
  lemma JoinOpens(cfg: Config, st: State, until: Int64, now: int, rest: seq<Input>, t1: int, t2: int)
    returns (next: State)
    requires ValidConfig(cfg) && now < until * SECOND && TwoSided(st)
    requires now >= st.nextCleanup && IdOf(Ticket(cfg, until)) !in Cleanup(cfg, st, now).sessions
    ensures var t := Ticket(cfg, until);
      && Joined(cfg, next, t, now, Full(cfg)) && next.nextCleanup == now + CleanupInterval(cfg)
      && next.sessions[IdOf(t)] == Conversation([Some(HERE), Some(THERE)], until * SECOND, now, Bucket(Full(cfg), now))
      && SentBetween(cfg, st, Join(t, now) + rest, IdOf(t), t1, t2) == SentBetween(cfg, next, rest, IdOf(t), t1, t2)
  {
    var t := Ticket(cfg, until);
    var a, b := Datagram(t, MOON, [], now), Datagram(t, COMET, [], now);
    DatagramIsAuthentic(cfg, until, MOON, [], now);
    DatagramIsAuthentic(cfg, until, COMET, [], now);
    var mid := Step(cfg, st, a).0;
    assert mid.sessions[IdOf(t)].addresses == [Some(HERE), None];
    assert mid.nextCleanup == now + CleanupInterval(cfg) > now;
    next := Step(cfg, mid, b).0;
    assert next.sessions[IdOf(t)].addresses == [Some(HERE), Some(THERE)];
    var all := Join(t, now) + rest;
    assert all[0] == a && all[1..][0] == b && all[1..][1..] == rest;
    assert Sent(cfg, st, a, IdOf(t)) == 0 && Sent(cfg, mid, b, IdOf(t)) == 0;
  }

  /** Join, spend the burst just before the next eviction pass, wait one
      nanosecond longer than the idle timeout, join again, spend it again. */
  function Overdraft(cfg: Config, until: Int64, s: int, e: int): seq<Input>
    requires cfg.burst >= 0
  {
    var t := Ticket(cfg, until);
    Join(t, 0) + (Flood(t, s, cfg.burst) + (Join(t, e) + (Flood(t, e, cfg.burst) + [])))
  }

  function SpendAt(cfg: Config): int {
    var wait, interval := cfg.idle + 1, CleanupInterval(cfg);
    if interval > wait then interval - wait else 0
  }

  lemma OverdraftSends(cfg: Config, until: Int64, s: int, e: int)
    requires ValidConfig(cfg) && s == SpendAt(cfg) && e == s + cfg.idle + 1 < until * SECOND
    ensures SentBetween(cfg, Start(0), Overdraft(cfg, until, s, e), IdOf(Ticket(cfg, until)), s, e) == 2 * cfg.burst
  {
    var t := Ticket(cfg, until);
    var last := Flood(t, e, cfg.burst) + [];
    var third := Join(t, e) + last;
    var second := Flood(t, s, cfg.burst) + third;
    assert 0 <= s < CleanupInterval(cfg) <= e;
    var st1 := JoinOpens(cfg, Start(0), until, 0, second, s, e);
    RefillFull(cfg, s);
    var st2 := FloodPasses(cfg, st1, until, s, cfg.burst, third, s, e);
    assert Stale(cfg, st2.sessions[IdOf(t)], e);
    var st3 := JoinOpens(cfg, st2, until, e, last, s, e);
    RefillNow(cfg, e);
    var st4 := FloodPasses(cfg, st3, until, e, cfg.burst, [], s, e);
  }

  lemma RefillNow(cfg: Config, now: int)
    ensures Refill(cfg, Bucket(Full(cfg), now), now) == Bucket(Full(cfg), now)
  {
  }

  lemma Overdraw(cfg: Config)
    requires ValidConfig(cfg) && cfg.idle < TWO_TO_THE_63 && !IdleRefills(cfg)
    ensures !QuotaHolds(cfg)
  {
    var s := SpendAt(cfg);
    var e := s + cfg.idle + 1;
    assert 0 <= s < MINUTE && e < TWO_TO_THE_63 + MINUTE;
    var until: Int64 := e / SECOND + 1;
    assert e < until * SECOND;
    var t := Ticket(cfg, until);
    OverdraftSends(cfg, until, s, e);
    OverdraftIsLegal(cfg, until, s, e);
    assert e - s == cfg.idle + 1;
    assert !WithinQuota(cfg, 0, Overdraft(cfg, until, s, e), IdOf(t), s, e);
  }

  lemma RefillFull(cfg: Config, now: int)
    requires ValidConfig(cfg) && now >= 0
    ensures Refill(cfg, Bucket(Full(cfg), 0), now) == Bucket(Full(cfg), now)
  {
    assert now * cfg.rate >= 0;
    assert now > 0 ==> now * cfg.rate > 0;
  }

  lemma {:induction false} FloodClocked(t: Token, now: int, n: nat, rest: seq<Input>, from: int)
    requires from <= now && Clocked(rest, now)
    ensures Clocked(Flood(t, now, n) + rest, from)
    decreases n
  {
    var all := Flood(t, now, n) + rest;
    if n == 0 {
      assert all == rest;
    } else {
      FloodClocked(t, now, n - 1, rest, now);
      assert all[0].now == now && all[1..] == Flood(t, now, n - 1) + rest;
    }
  }

  lemma JoinClocked(t: Token, now: int, rest: seq<Input>, from: int)
    requires from <= now && Clocked(rest, now)
    ensures Clocked(Join(t, now) + rest, from)
  {
    var all := Join(t, now) + rest;
    assert all[1..][1..] == rest;
  }

  ghost predicate FromTicket(cfg: Config, until: Int64, inputs: seq<Input>) {
    forall i :: 0 <= i < |inputs| ==> Agrees(cfg, until, inputs[i])
  }

  predicate Agrees(cfg: Config, until: Int64, inp: Input) {
    ExpiryAgrees(cfg, inp, IdOf(Ticket(cfg, until)), until * SECOND)
  }

  lemma {:induction false} FloodAgrees(cfg: Config, until: Int64, now: int, n: nat)
    requires |cfg.secret| >= 32
    ensures FromTicket(cfg, until, Flood(Ticket(cfg, until), now, n))
    decreases n
  {
    if n > 0 {
      DatagramIsAuthentic(cfg, until, COMET, ['x'], now);
      FloodAgrees(cfg, until, now, n - 1);
    }
  }

  lemma JoinAgrees(cfg: Config, until: Int64, now: int)
    requires |cfg.secret| >= 32
    ensures FromTicket(cfg, until, Join(Ticket(cfg, until), now))
  {
    DatagramIsAuthentic(cfg, until, MOON, [], now);
    DatagramIsAuthentic(cfg, until, COMET, [], now);
  }

  lemma OverdraftIsLegal(cfg: Config, until: Int64, s: int, e: int)
    requires ValidConfig(cfg) && 0 <= s <= e
    ensures Clocked(Overdraft(cfg, until, s, e), 0)
    ensures OneExpiry(cfg, Overdraft(cfg, until, s, e), IdOf(Ticket(cfg, until)), until * SECOND)
  {
    var t := Ticket(cfg, until);
    var last := Flood(t, e, cfg.burst) + [];
    var third := Join(t, e) + last;
    var second := Flood(t, s, cfg.burst) + third;
    FloodClocked(t, e, cfg.burst, [], e);
    JoinClocked(t, e, last, s);
    FloodClocked(t, s, cfg.burst, third, 0);
    JoinClocked(t, 0, second, 0);
    FloodAgrees(cfg, until, e, cfg.burst);
    JoinAgrees(cfg, until, e);
    FloodAgrees(cfg, until, s, cfg.burst);
    JoinAgrees(cfg, until, 0);
    assert FromTicket(cfg, until, last) && FromTicket(cfg, until, third) && FromTicket(cfg, until, second);
    assert FromTicket(cfg, until, Join(t, 0) + second);
  }
}
