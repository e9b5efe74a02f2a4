/** pkg/mesh/relay/server.go: the single loop that forwards authenticated
    datagrams between the two bound sides of a session. Bucket contents are
    counted in byte-nanoseconds, so that a refill of `rate` bytes per second over
    `dt` nanoseconds is exactly `rate * dt`. */
module RelayServer {
  import opened Options
  import opened Keys
  import opened Frame

  datatype UdpAddr = UdpAddr(ip: int, port: int, zone: string)

  datatype Addr = Udp(addr: UdpAddr) | NonUdp

  datatype Config = Config(secret: Bytes, rate: int, burst: int, idle: int, mac: Mac)

  predicate ValidConfig(cfg: Config) {
    |cfg.secret| >= 32 && cfg.rate > 0 && cfg.burst > 0 && cfg.idle > 0
  }

  const MINUTE: int := 60 * SECOND

  /** `NewServer`: a long enough secret, and defaults for what is not positive. */
  function NewServer(cfg: Config): (r: Option<Config>)
    ensures r.Some? <==> |cfg.secret| >= 32
    ensures r.Some? ==> ValidConfig(r.value) && r.value.secret == cfg.secret && r.value.mac == cfg.mac
    ensures r.Some? && cfg.rate > 0 ==> r.value.rate == cfg.rate
    ensures r.Some? && cfg.burst > 0 ==> r.value.burst == cfg.burst
    ensures r.Some? && cfg.idle > 0 ==> r.value.idle == cfg.idle
    ensures r.Some? && cfg.rate <= 0 ==> r.value.rate == 1_310_720
    ensures r.Some? && cfg.burst <= 0 ==> r.value.burst == 4_194_304
    ensures r.Some? && cfg.idle <= 0 ==> r.value.idle == 600_000_000_000
    ensures cfg.rate <= 0 && cfg.burst <= 0 && cfg.idle <= 0 && r.Some? ==>
              r.value.rate * r.value.idle >= r.value.burst * SECOND
  {
    if |cfg.secret| < 32 then None
    else
      Some(Config(cfg.secret,
                  if cfg.rate <= 0 then 10 * 1024 * 1024 / 8 else cfg.rate,
                  if cfg.burst <= 0 then 4 * 1024 * 1024 else cfg.burst,
                  if cfg.idle <= 0 then 10 * MINUTE else cfg.idle,
                  cfg.mac))
  }

  function CleanupInterval(cfg: Config): int {
    var half := if cfg.idle / 2 < MINUTE then cfg.idle / 2 else MINUTE;
    if half <= 0 then MINUTE else half
  }

  // ------------------------------------------------------------ the token bucket

  datatype Bucket = Bucket(tokens: int, last: int)

  function Full(cfg: Config): int {
    cfg.burst * SECOND
  }

  function Refill(cfg: Config, b: Bucket, now: int): Bucket {
    if now > b.last then
      var t := b.tokens + (now - b.last) * cfg.rate;
      Bucket(if t > Full(cfg) then Full(cfg) else t, now)
    else b
  }

  function Charge(cfg: Config, b: Bucket, size: int, now: int): (bool, Bucket) {
    var r := Refill(cfg, b, now);
    if size * SECOND > r.tokens then (false, r) else (true, r.(tokens := r.tokens - size * SECOND))
  }

  // ------------------------------------------------------------ one datagram

  datatype Conversation = Conversation(
    addresses: seq<Option<UdpAddr>>, expiresAt: int, lastSeen: int, bucket: Bucket)

  datatype State = State(
    sessions: map<SessionId, Conversation>, nextCleanup: int,
    dropped: nat, forwardedFrames: nat, forwardedBytes: nat, active: int)

  /** One turn of the loop: what was read, from whom, when, and whether a write
      to the destination would succeed. */
  datatype Input = Input(bytes: Bytes, source: Addr, now: int, writeOk: bool)

  datatype Outcome = Dropped | Registered | Forwarded(dest: UdpAddr, bytes: Bytes)

  predicate Stale(cfg: Config, s: Conversation, now: int) {
    now >= s.expiresAt || now - s.lastSeen > cfg.idle
  }

  function Kept(cfg: Config, sessions: map<SessionId, Conversation>, now: int): map<SessionId, Conversation> {
    map id | id in sessions && !Stale(cfg, sessions[id], now) :: sessions[id]
  }

  function Evicted(cfg: Config, st: State, now: int): State {
    var kept := Kept(cfg, st.sessions, now);
    st.(sessions := kept, active := st.active - (|st.sessions| - |kept|))
  }

  function Cleanup(cfg: Config, st: State, now: int): State {
    if now < st.nextCleanup then st else Evicted(cfg, st, now).(nextCleanup := now + CleanupInterval(cfg))
  }

  function Fresh(cfg: Config, t: Token, now: int): Conversation {
    Conversation([None, None], ExpiresAt(t), now, Bucket(Full(cfg), now))
  }

  /** The state once the token's session is there: found, or opened now. */
  function Enter(cfg: Config, c: State, t: Token, now: int): (r: State)
    ensures IdOf(t) in r.sessions
  {
    if IdOf(t) in c.sessions then c
    else c.(sessions := c.sessions[IdOf(t) := Fresh(cfg, t, now)], active := c.active + 1)
  }

  /** What the loop does once it holds the session of an authentic envelope. */
  function Route(cfg: Config, s: Conversation, e: Envelope, inp: Input): (Conversation, Outcome)
    requires |s.addresses| == 2 && ValidSide(e.side)
  {
    var side, other := e.side as int, Other(e.side) as int;
    var seen := s.(lastSeen := inp.now);
    if s.addresses[side].Some? && Udp(s.addresses[side].value) != inp.source then (seen, Dropped)
    else
      var bound := if s.addresses[side].None? && inp.source.Udp?
                   then seen.(addresses := s.addresses[side := Some(inp.source.addr)]) else seen;
      if e.payload == [] then (bound, Registered)
      else
        var (ok, b) := Charge(cfg, s.bucket, |e.payload|, inp.now);
        var charged := bound.(bucket := b);
        if !ok || charged.addresses[other].None? || !inp.writeOk then (charged, Dropped)
        else (charged, Forwarded(charged.addresses[other].value, inp.bytes))
  }

  function Count(st: State, o: Outcome, size: nat): State {
    match o
    case Dropped => st.(dropped := st.dropped + 1)
    case Registered => st
    case Forwarded(_, _) =>
      st.(forwardedFrames := st.forwardedFrames + 1, forwardedBytes := st.forwardedBytes + size)
  }

  /** The envelope of a datagram the server accepts at this instant. */
  function Authentic(cfg: Config, inp: Input): (r: Option<Envelope>)
    ensures r.Some? ==> ValidSide(r.value.side) && FrameBytes(r.value) == inp.bytes
  {
    match DecodeFrame(inp.bytes)
    case None => None
    case Some(e) =>
      FrameOfDecode(inp.bytes);
      if ValidToken(cfg.mac, cfg.secret, e.token, inp.now) then Some(e) else None
  }

  ghost predicate TwoSided(st: State) {
    forall id :: id in st.sessions ==> |st.sessions[id].addresses| == 2
  }

  function Accepted(cfg: Config, c: State, e: Envelope, inp: Input): (r: (State, Outcome))
    requires TwoSided(c) && ValidSide(e.side)
    ensures TwoSided(r.0)
  {
    var id, entered := IdOf(e.token), Enter(cfg, c, e.token, inp.now);
    var (s, o) := Route(cfg, entered.sessions[id], e, inp);
    (Count(entered.(sessions := entered.sessions[id := s]), o, |e.payload|), o)
  }

  function Step(cfg: Config, st: State, inp: Input): (r: (State, Outcome))
    requires TwoSided(st)
    ensures TwoSided(r.0)
  {
    var c := Cleanup(cfg, st, inp.now);
    match Authentic(cfg, inp)
    case None => (Count(c, Dropped, 0), Dropped)
    case Some(e) => Accepted(cfg, c, e, inp)
  }

  function Start(now: int): State {
    State(map[], now, 0, 0, 0, 0)
  }

  function Run(cfg: Config, st: State, inputs: seq<Input>): (r: State)
    requires TwoSided(st)
    ensures TwoSided(r)
  {
    if inputs == [] then st else Step(cfg, Run(cfg, st, inputs[..|inputs| - 1]), inputs[|inputs| - 1]).0
  }

  /** What the loop did with the i-th datagram. */
  function OutcomeAt(cfg: Config, st: State, inputs: seq<Input>, i: nat): Outcome
    requires TwoSided(st) && i < |inputs|
  {
    Step(cfg, Run(cfg, st, inputs[..i]), inputs[i]).1
  }

  /** The state and the outcomes after some of the inputs. */
  ghost predicate Served(cfg: Config, start: State, inputs: seq<Input>, n: nat, st: State, outcomes: seq<Outcome>)
    requires TwoSided(start) && n <= |inputs|
  {
    st == Run(cfg, start, inputs[..n]) && |outcomes| == n && forall i :: 0 <= i < n ==>
      outcomes[i] == OutcomeAt(cfg, start, inputs, i)
  }

  lemma ServedNext(cfg: Config, start: State, inputs: seq<Input>, n: nat, st: State, outcomes: seq<Outcome>)
    requires TwoSided(start) && n < |inputs| && Served(cfg, start, inputs, n, st, outcomes)
    ensures TwoSided(st)
    ensures Served(cfg, start, inputs, n + 1, Step(cfg, st, inputs[n]).0, outcomes + [Step(cfg, st, inputs[n]).1])
  {
    assert inputs[..n + 1][..n] == inputs[..n] && inputs[..n + 1][n] == inputs[n];
  }

  // ----------------------------------------------------------- the Go objects

  class Session {
    var addresses: seq<Option<UdpAddr>>
    var expiresAt: int
    var lastSeen: int
    var tokens: int
    var last: int

    ghost function View(): Conversation
      reads this
    {
      Conversation(addresses, expiresAt, lastSeen, Bucket(tokens, last))
    }

    constructor (cfg: Config, token: Token, now: int)
      ensures View() == Fresh(cfg, token, now)
    {
      addresses, expiresAt, lastSeen := [None, None], ExpiresAt(token), now;
      tokens, last := Full(cfg), now;
    }

    method Allow(cfg: Config, size: int, now: int) returns (ok: bool)
      modifies `tokens, `last
      ensures (ok, Bucket(tokens, last)) == Charge(cfg, old(Bucket(tokens, last)), size, now)
    {
      var elapsed := now - last;
      if elapsed > 0 {
        tokens := tokens + elapsed * cfg.rate;
        if tokens > Full(cfg) {
          tokens := Full(cfg);
        }
        last := now;
      }
      if size * SECOND > tokens {
        return false;
      }
      tokens := tokens - size * SECOND;
      return true;
    }

    method RouteDatagram(cfg: Config, e: Envelope, inp: Input) returns (o: Outcome)
      requires |addresses| == 2 && ValidSide(e.side)
      modifies this
      ensures (View(), o) == Route(cfg, old(View()), e, inp)
    {
      lastSeen := inp.now;
      var side := e.side as int;
      if addresses[side].None? {
        if inp.source.Udp? {
          addresses := addresses[side := Some(inp.source.addr)];
        }
      } else if Udp(addresses[side].value) != inp.source {
        return Dropped;
      }
      if |e.payload| == 0 {
        return Registered;
      }
      var ok := Allow(cfg, |e.payload|, inp.now);
      if !ok {
        return Dropped;
      }
      var destination := addresses[Other(e.side) as int];
      if destination.None? {
        return Dropped;
      }
      if !inp.writeOk {
        return Dropped;
      }
      return Forwarded(destination.value, inp.bytes);
    }
  }

  ghost function Views(m: map<SessionId, Session>): map<SessionId, Conversation>
    reads m.Values
  {
    map id | id in m :: m[id].View()
  }

  lemma ViewsKept(cfg: Config, before: map<SessionId, Session>, after: map<SessionId, Session>, now: int)
    requires after.Keys <= before.Keys
    requires forall id :: id in after ==> after[id] == before[id]
    requires forall id :: id in before ==> (id in after <==> !Stale(cfg, before[id].View(), now))
    ensures Views(after) == Kept(cfg, Views(before), now)
    ensures |Views(before)| == |before.Keys| && |Views(after)| == |after.Keys|
  {
    var v, kept := Views(after), Kept(cfg, Views(before), now);
    assert v.Keys == kept.Keys;
    assert forall id :: id in v ==> v[id] == kept[id];
    assert |v| == |v.Keys| && v.Keys == after.Keys;
    assert |Views(before)| == |Views(before).Keys| && Views(before).Keys == before.Keys;
  }

  class Server {
    const cfg: Config
    var sessions: map<SessionId, Session>
    var nextCleanup: int
    var dropped: nat
    var forwardedFrames: nat
    var forwardedBytes: nat
    var active: int

    /** No two ids share a session object. */
    ghost predicate Valid()
      reads this, sessions.Values
    {
      && (forall i, j :: i in sessions && j in sessions && i != j ==> sessions[i] != sessions[j])
      && (forall i :: i in sessions ==> |sessions[i].addresses| == 2)
    }

    ghost function View(): State
      reads this, sessions.Values
    {
      State(Views(sessions), nextCleanup, dropped, forwardedFrames, forwardedBytes, active)
    }

    constructor (cfg: Config, now: int)
      ensures Valid() && View() == Start(now) && this.cfg == cfg && sessions == map[]
    {
      this.cfg := cfg;
      sessions, nextCleanup, dropped, forwardedFrames, forwardedBytes, active := map[], now, 0, 0, 0, 0;
    }

    /** The eviction pass over the session map, one session at a time. */
    method EvictStale(now: int)
      modifies `sessions, `active
      ensures sessions.Keys <= old(sessions).Keys
      ensures forall id :: id in old(sessions) ==> (id in sessions <==> !Stale(cfg, old(sessions)[id].View(), now))
      ensures forall id :: id in sessions ==> sessions[id] == old(sessions)[id]
      ensures active == old(active) - (|old(sessions).Keys| - |sessions.Keys|)
    {
      ghost var before := sessions;
      var todo := sessions.Keys;
      while todo != {}
        invariant todo <= sessions.Keys <= before.Keys
        invariant forall id :: id in sessions ==> sessions[id] == before[id]
        invariant forall id :: id in before.Keys && id !in todo ==>
                    (id in sessions <==> !Stale(cfg, before[id].View(), now))
        invariant active == old(active) - (|before.Keys| - |sessions.Keys|)
        decreases |todo|
      {
        var id :| id in todo;
        todo := todo - {id};
        var sess := sessions[id];
        if now >= sess.expiresAt || now - sess.lastSeen > cfg.idle {
          assert (sessions - {id}).Keys == sessions.Keys - {id};
          sessions := sessions - {id};
          active := active - 1;
        }
      }
    }

    /** The same pass, in terms of what the sessions hold. */
    method Evict(now: int)
      requires Valid()
      modifies `sessions, `active
      ensures Valid() && sessions.Values <= old(sessions.Values)
      ensures View() == Evicted(cfg, old(View()), now)
    {
      EvictStale(now);
      assert Views(old(sessions)) == old(View()).sessions;
      ViewsKept(cfg, old(sessions), sessions, now);
      forall s | s in sessions.Values ensures s in old(sessions).Values {
        var id :| id in sessions && sessions[id] == s;
        assert old(sessions)[id] == s;
      }
    }

    method Sweep(now: int)
      requires Valid()
      modifies `sessions, `active, `nextCleanup
      ensures Valid() && View() == Cleanup(cfg, old(View()), now)
      ensures sessions.Values <= old(sessions.Values)
    {
      if now < nextCleanup {
        return;
      }
      Evict(now);
      ghost var evicted := View();
      nextCleanup := now + CleanupInterval(cfg);
      assert View() == evicted.(nextCleanup := nextCleanup);
    }

    /** The session of an id, opened now if there is none. */
    method Admit(token: Token, now: int) returns (sess: Session)
      requires Valid()
      modifies `sessions, `active
      ensures Valid() && IdOf(token) in sessions && sessions[IdOf(token)] == sess
      ensures View() == Enter(cfg, old(View()), token, now)
      ensures fresh(sessions.Values - old(sessions.Values))
    {
      var id := IdOf(token);
      if id in sessions {
        sess := sessions[id];
      } else {
        ghost var was := Views(sessions);
        sess := new Session(cfg, token, now);
        sessions := sessions[id := sess];
        active := active + 1;
        assert Views(sessions) == was[id := sess.View()];
      }
    }

    /** One turn of the loop in `Serve`. */
    method Handle(inp: Input) returns (o: Outcome)
      requires Valid()
      modifies this, sessions.Values
      ensures Valid() && (View(), o) == Step(cfg, old(View()), inp)
      ensures fresh(sessions.Values - old(sessions.Values))
    {
      Sweep(inp.now);
      var e := Authentic(cfg, inp);
      if e.None? {
        dropped := dropped + 1;
        return Dropped;
      }
      o := Accept(e.value, inp);
    }

    /** The rest of a turn, on an authentic envelope. */
    method Accept(e: Envelope, inp: Input) returns (o: Outcome)
      requires Valid() && ValidSide(e.side)
      modifies this, sessions.Values
      ensures Valid() && fresh(sessions.Values - old(sessions.Values))
      ensures (View(), o) == Accepted(cfg, old(View()), e, inp)
    {
      var sess := Admit(e.token, inp.now);
      o := Deliver(sess, e, inp);
      Tally(o, |e.payload|);
    }

    method Deliver(sess: Session, e: Envelope, inp: Input) returns (o: Outcome)
      requires Valid() && IdOf(e.token) in sessions && sessions[IdOf(e.token)] == sess && ValidSide(e.side)
      modifies sess
      ensures Valid()
      ensures (View().sessions[IdOf(e.token)], o) == Route(cfg, old(View()).sessions[IdOf(e.token)], e, inp)
      ensures View() == old(View()).(sessions := old(View()).sessions[IdOf(e.token) := View().sessions[IdOf(e.token)]])
    {
      ghost var was := Views(sessions);
      o := sess.RouteDatagram(cfg, e, inp);
      assert Views(sessions) == was[IdOf(e.token) := sess.View()];
    }

    method Tally(o: Outcome, size: nat)
      modifies `dropped, `forwardedFrames, `forwardedBytes
      ensures View() == Count(old(View()), o, size)
    {
      match o {
        case Dropped => dropped := dropped + 1;
        case Registered =>
        case Forwarded(_, _) =>
          forwardedFrames := forwardedFrames + 1;
          forwardedBytes := forwardedBytes + size;
      }
    }

    /** The whole loop, over the datagrams read before the socket closes. */
    method Serve(inputs: seq<Input>) returns (outcomes: seq<Outcome>)
      requires Valid()
      modifies this, sessions.Values
      ensures Valid() && View() == Run(cfg, old(View()), inputs)
      ensures |outcomes| == |inputs|
      ensures forall i :: 0 <= i < |inputs| ==> outcomes[i] == OutcomeAt(cfg, old(View()), inputs, i)
    {
      outcomes := [];
      for i := 0 to |inputs|
        invariant Valid() && Served(cfg, old(View()), inputs, i, View(), outcomes)
        invariant fresh(sessions.Values - old(sessions.Values))
      {
        ServedNext(cfg, old(View()), inputs, i, View(), outcomes);
        var o := Handle(inputs[i]);
        outcomes := outcomes + [o];
      }
      assert inputs[..|inputs|] == inputs;
    }
  }
}
