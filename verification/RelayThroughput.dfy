/** The relay's quota: how many payload bytes one session id can get through in a
    window of time, evictions and re-creations of the session included. */
module RelayThroughput {
  import opened Options
  import opened Frame
  import opened RelayServer
  import opened RelayAdmission

  /** The clock read at the turns of the loop never goes back. */
  predicate Clocked(inputs: seq<Input>, t: int) {
    inputs == [] || (inputs[0].now >= t && Clocked(inputs[1..], inputs[0].now))
  }

  /** Every authentic token for the id in this run carries the same expiry. */
  predicate OneExpiry(cfg: Config, inputs: seq<Input>, id: SessionId, exp: int) {
    forall i :: 0 <= i < |inputs| ==> ExpiryAgrees(cfg, inputs[i], id, exp)
  }

  predicate ExpiryAgrees(cfg: Config, inp: Input, id: SessionId, exp: int) {
    var e := Authentic(cfg, inp);
    e.Some? && IdOf(e.value.token) == id ==> ExpiresAt(e.value.token) == exp
  }

  /** The payload bytes this turn forwards for the id. */
  function Sent(cfg: Config, st: State, inp: Input, id: SessionId): nat
    requires TwoSided(st)
  {
    var e := Authentic(cfg, inp);
    if e.Some? && IdOf(e.value.token) == id && Step(cfg, st, inp).1.Forwarded? then |e.value.payload| else 0
  }

  /** On the datagram and the server's own counter: the bytes sent for an id are
      those by which a genuine datagram with that id moves the counter. */
  lemma SentIsCounted(cfg: Config, st: State, inp: Input, id: SessionId)
    requires TwoSided(st)
    ensures Sent(cfg, st, inp, id) ==
            if Genuine(cfg, inp.bytes, inp.now) && SessionId(inp.bytes[13..29]) == id
            then Step(cfg, st, inp).0.forwardedBytes - st.forwardedBytes else 0
  {
    AdmittedIsGenuine(cfg, inp);
  }

  /** The payload bytes forwarded for the id at instants in [t1, t2]. */
  function SentBetween(cfg: Config, st: State, inputs: seq<Input>, id: SessionId, t1: int, t2: int): nat
    requires TwoSided(st)
    decreases |inputs|
  {
    if inputs == [] then 0
    else
      (if t1 <= inputs[0].now <= t2 then Sent(cfg, st, inputs[0], id) else 0)
      + SentBetween(cfg, Step(cfg, st, inputs[0]).0, inputs[1..], id, t1, t2)
  }

  /** A session idle long enough to be evicted has a full bucket again. */
  predicate IdleRefills(cfg: Config) {
    cfg.rate * (cfg.idle + 1) >= Full(cfg)
  }

  // ---------------------------------------------------------------- upper bound

  /** What holds of the id's session between turns. */
  ghost predicate Sound(cfg: Config, st: State, id: SessionId, exp: int, t: int) {
    && TwoSided(st)
    && (id in st.sessions ==>
          var s := st.sessions[id];
          0 <= s.bucket.tokens <= Full(cfg) && s.bucket.last <= s.lastSeen <= t && s.expiresAt == exp)
  }

  /** What the id may still send at `now`: nothing once its tokens have expired,
      a full bucket when no session is there. */
  function Credit(cfg: Config, st: State, id: SessionId, exp: int, now: int): int {
    if now >= exp then 0
    else if id in st.sessions then Refill(cfg, st.sessions[id].bucket, now).tokens
    else Full(cfg)
  }

  lemma RefillBounds(cfg: Config, b: Bucket, s: int, t: int)
    requires ValidConfig(cfg) && 0 <= b.tokens <= Full(cfg) && b.last <= s <= t
    ensures 0 <= Refill(cfg, b, s).tokens <= Refill(cfg, b, t).tokens <= Full(cfg)
    ensures Refill(cfg, b, t).tokens <= Refill(cfg, b, s).tokens + cfg.rate * (t - s)
    ensures b.tokens + cfg.rate * (t - b.last) >= Full(cfg) ==> Refill(cfg, b, t).tokens == Full(cfg)
  {
    assert (t - b.last) * cfg.rate == (s - b.last) * cfg.rate + (t - s) * cfg.rate;
    assert (s - b.last) * cfg.rate >= 0 && (t - s) * cfg.rate >= 0;
  }

  lemma NoDebt(rate: int, dt: int)
    requires rate >= 0 && dt >= 0
    ensures rate * dt >= 0
  {
  }

  lemma CreditBounds(cfg: Config, st: State, id: SessionId, exp: int, s: int, t: int)
    requires ValidConfig(cfg) && Sound(cfg, st, id, exp, s) && s <= t
    ensures 0 <= Credit(cfg, st, id, exp, s) <= Full(cfg)
    ensures Credit(cfg, st, id, exp, t) <= Credit(cfg, st, id, exp, s) + cfg.rate * (t - s)
  {
    NoDebt(cfg.rate, t - s);
    if id in st.sessions {
      RefillBounds(cfg, st.sessions[id].bucket, s, t);
    }
  }

  lemma FullWhenIdle(cfg: Config, b: Bucket, now: int)
    requires ValidConfig(cfg) && IdleRefills(cfg) && 0 <= b.tokens <= Full(cfg) && now - b.last > cfg.idle &&
        b.last <= now
    ensures Refill(cfg, b, now).tokens == Full(cfg)
  {
    var gap := now - b.last;
    assert cfg.rate * gap >= cfg.rate * (cfg.idle + 1) by {
      assert cfg.rate * (gap - (cfg.idle + 1)) >= 0;
    }
    RefillBounds(cfg, b, now, now);
  }

  /** Eviction gives the id nothing it did not already have. */
  lemma CleanupGivesNothing(cfg: Config, st: State, id: SessionId, exp: int, now: int)
    requires ValidConfig(cfg) && IdleRefills(cfg) && Sound(cfg, st, id, exp, now)
    ensures Sound(cfg, Cleanup(cfg, st, now), id, exp, now)
    ensures Credit(cfg, Cleanup(cfg, st, now), id, exp, now) == Credit(cfg, st, id, exp, now)
  {
    if id in st.sessions && id !in Cleanup(cfg, st, now).sessions && now < exp {
      FullWhenIdle(cfg, st.sessions[id].bucket, now);
    }
  }

  /** What a turn sends for the id, it pays for out of the id's credit. */
  lemma StepPays(cfg: Config, st: State, inp: Input, id: SessionId, exp: int)
    requires ValidConfig(cfg) && IdleRefills(cfg) && Sound(cfg, st, id, exp, inp.now)
    requires ExpiryAgrees(cfg, inp, id, exp)
    ensures var next := Step(cfg, st, inp).0;
      && Sound(cfg, next, id, exp, inp.now)
      && Credit(cfg, next, id, exp, inp.now) + Sent(cfg, st, inp, id) * SECOND <= Credit(cfg, st, id, exp, inp.now)
  {
    CleanupGivesNothing(cfg, st, id, exp, inp.now);
    var e := Authentic(cfg, inp);
    if e.Some? {
      AcceptedPays(cfg, Cleanup(cfg, st, inp.now), e.value, inp, id, exp);
    }
  }

  lemma AcceptedPays(cfg: Config, c: State, e: Envelope, inp: Input, id: SessionId, exp: int)
    requires ValidConfig(cfg) && Sound(cfg, c, id, exp, inp.now)
    requires Authentic(cfg, inp) == Some(e) && ExpiryAgrees(cfg, inp, id, exp)
    ensures var (next, o) := Accepted(cfg, c, e, inp);
      && Sound(cfg, next, id, exp, inp.now)
      && Credit(cfg, next, id, exp, inp.now) + (if IdOf(e.token) == id && o.Forwarded? then |e.payload| * SECOND else 0)
         <= Credit(cfg, c, id, exp, inp.now)
  {
    if IdOf(e.token) == id {
      var entered := Enter(cfg, c, e.token, inp.now);
      RefillBounds(cfg, entered.sessions[id].bucket, inp.now, inp.now);
      RoutePays(cfg, entered.sessions[id], e, inp);
    }
  }

  lemma RoutePays(cfg: Config, s: Conversation, e: Envelope, inp: Input)
    requires ValidConfig(cfg) && |s.addresses| == 2 && ValidSide(e.side)
    requires 0 <= s.bucket.tokens <= Full(cfg) && s.bucket.last <= inp.now
    ensures var (s', o) := Route(cfg, s, e, inp);
      && s'.expiresAt == s.expiresAt && s'.lastSeen == inp.now
      && 0 <= s'.bucket.tokens <= Full(cfg) && s'.bucket.last <= inp.now
      && Refill(cfg, s'.bucket, inp.now).tokens + (if o.Forwarded? then |e.payload| * SECOND else 0)
         <= Refill(cfg, s.bucket, inp.now).tokens
  {
    ChargePays(cfg, s.bucket, |e.payload|, inp.now);
  }

  lemma ChargePays(cfg: Config, b: Bucket, size: nat, now: int)
    requires ValidConfig(cfg) && 0 <= b.tokens <= Full(cfg) && b.last <= now
    ensures var (ok, b') := Charge(cfg, b, size, now);
      && 0 <= b'.tokens <= Full(cfg) && b'.last <= now
      && Refill(cfg, b', now) == b'
      && b'.tokens + (if ok then size * SECOND else 0) == Refill(cfg, b, now).tokens
  {
    RefillBounds(cfg, b, now, now);
  }

  /** From an instant on, an id sends at most its credit and the refill. */
  lemma {:induction false} SentFrom(
      cfg: Config, st: State, inputs: seq<Input>, id: SessionId, exp: int, t: int, t1: int, t2: int)
    requires ValidConfig(cfg) && IdleRefills(cfg) && Sound(cfg, st, id, exp, t)
    requires Clocked(inputs, t) && OneExpiry(cfg, inputs, id, exp) && t <= t2
    ensures SentBetween(cfg, st, inputs, id, t1, t2) * SECOND <= Credit(cfg, st, id, exp, t) + cfg.rate * (t2 - t)
    decreases |inputs|
  {
    assert cfg.rate * (t2 - t) >= 0;
    CreditBounds(cfg, st, id, exp, t, t);
    if inputs != [] {
      var inp, rest := inputs[0], inputs[1..];
      var n := inp.now;
      var next := Step(cfg, st, inp).0;
      assert OneExpiry(cfg, rest, id, exp) && ExpiryAgrees(cfg, inp, id, exp);
      if n > t2 {
        NothingAfter(cfg, next, rest, id, t1, t2, n);
      } else {
        CreditBounds(cfg, st, id, exp, t, n);
        StepPays(cfg, st, inp, id, exp);
        SentFrom(cfg, next, rest, id, exp, n, t1, t2);
        assert cfg.rate * (t2 - t) == cfg.rate * (n - t) + cfg.rate * (t2 - n);
      }
    }
  }

  lemma {:induction false} NothingAfter(cfg: Config, st: State, inputs: seq<Input>, id: SessionId, t1: int, t2: int,
                                        t: int)
    requires TwoSided(st) && Clocked(inputs, t) && t > t2
    ensures SentBetween(cfg, st, inputs, id, t1, t2) == 0
    decreases |inputs|
  {
    if inputs != [] {
      NothingAfter(cfg, Step(cfg, st, inputs[0]).0, inputs[1..], id, t1, t2, inputs[0].now);
    }
  }

  lemma RateMonotone(rate: int, s: int, t: int)
    requires rate >= 0 && s <= t
    ensures rate * s <= rate * t
  {
    assert rate * (t - s) >= 0;
  }

  lemma {:induction false} SentInWindow(
      cfg: Config, st: State, inputs: seq<Input>, id: SessionId, exp: int, t: int, t1: int, t2: int)
    requires ValidConfig(cfg) && IdleRefills(cfg) && Sound(cfg, st, id, exp, t)
    requires Clocked(inputs, t) && OneExpiry(cfg, inputs, id, exp) && t1 <= t2
    ensures SentBetween(cfg, st, inputs, id, t1, t2) * SECOND <= Full(cfg) + cfg.rate * (t2 - t1)
    decreases |inputs|
  {
    RateMonotone(cfg.rate, 0, t2 - t1);
    if inputs != [] {
      var inp, rest := inputs[0], inputs[1..];
      assert OneExpiry(cfg, rest, id, exp) && ExpiryAgrees(cfg, inp, id, exp);
      if inp.now < t1 {
        CreditBounds(cfg, st, id, exp, t, inp.now);
        StepPays(cfg, st, inp, id, exp);
        SentInWindow(cfg, Step(cfg, st, inp).0, rest, id, exp, inp.now, t1, t2);
      } else if inp.now > t2 {
        assert Clocked(inputs, inp.now);
        NothingAfter(cfg, st, inputs, id, t1, t2, inp.now);
      } else {
        assert Clocked(inputs, inp.now);
        SentFrom(cfg, st, inputs, id, exp, inp.now, t1, t2);
        CreditBounds(cfg, st, id, exp, inp.now, inp.now);
        RateMonotone(cfg.rate, t2 - inp.now, t2 - t1);
      }
    }
  }
}
