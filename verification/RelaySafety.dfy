/** What every step and every run of the relay loop keeps: its counters balance,
    bound addresses stay, sessions do not touch each other, and nothing is
    written but authentic datagrams, unchanged, to the other bound side. */
module RelaySafety {
  import opened Options
  import opened Frame
  import opened RelayServer
  import opened RelayAdmission

  // ------------------------------------------------------------------ counters

  /** How many of the datagrams of a run were accepted registrations. */
  function Registrations(cfg: Config, st: State, inputs: seq<Input>): nat
    requires TwoSided(st)
  {
    if inputs == [] then 0
    else
      var init := inputs[..|inputs| - 1];
      Registrations(cfg, st, init)
      + if Step(cfg, Run(cfg, st, init), inputs[|inputs| - 1]).1.Registered? then 1 else 0
  }

  lemma CleanupCounts(cfg: Config, st: State, now: int)
    requires st.active == |st.sessions|
    ensures Cleanup(cfg, st, now).active == |Cleanup(cfg, st, now).sessions|
  {
  }

  lemma StepCounts(cfg: Config, st: State, inp: Input)
    requires TwoSided(st) && st.active == |st.sessions|
    ensures var (next, o) := Step(cfg, st, inp);
      && next.active == |next.sessions|
      && next.forwardedFrames + next.dropped + (if o.Registered? then 1 else 0) == st.forwardedFrames + st.dropped + 1
  {
    CleanupCounts(cfg, st, inp.now);
  }

  /** At every loop head, datagrams received = forwarded + dropped + accepted
      registrations, and the session gauge is the size of the session map. */
  lemma {:induction false} CountersBalance(cfg: Config, start: int, inputs: seq<Input>)
    ensures var st := Run(cfg, Start(start), inputs);
      && |inputs| == st.forwardedFrames + st.dropped + Registrations(cfg, Start(start), inputs)
      && st.active == |st.sessions|
  {
    if inputs != [] {
      var init, last := inputs[..|inputs| - 1], inputs[|inputs| - 1];
      CountersBalance(cfg, start, init);
      StepCounts(cfg, Run(cfg, Start(start), init), last);
    }
  }

  // ------------------------------------------------------------------ sessions

  /** Whether a session is there after the eviction pass of this turn. */
  predicate Survives(cfg: Config, st: State, id: SessionId, now: int) {
    id in Cleanup(cfg, st, now).sessions
  }

  /** Eviction looks at each session alone, and a datagram reaches only the
      session of its own authentic token. */
  lemma SessionsAreIsolated(cfg: Config, st: State, inp: Input, id: SessionId)
    requires TwoSided(st)
    ensures Survives(cfg, st, id, inp.now) <==>
              id in st.sessions && !(inp.now >= st.nextCleanup && Stale(cfg, st.sessions[id], inp.now))
    ensures var e, next := Authentic(cfg, inp), Step(cfg, st, inp).0;
            e.None? || IdOf(e.value.token) != id ==>
              && (id in next.sessions <==> Survives(cfg, st, id, inp.now))
              && (id in next.sessions ==> next.sessions[id] == st.sessions[id])
  {
  }

  /** A surviving session keeps its expiry and every address it has bound. */
  lemma StepKeepsBindings(cfg: Config, st: State, inp: Input, id: SessionId, side: nat)
    requires TwoSided(st) && side < 2 && Survives(cfg, st, id, inp.now)
    ensures id in Step(cfg, st, inp).0.sessions
    ensures var s, s' := st.sessions[id], Step(cfg, st, inp).0.sessions[id];
            s'.expiresAt == s.expiresAt && (s.addresses[side].Some? ==> s'.addresses[side] == s.addresses[side])
  {
  }

  lemma RunNext(cfg: Config, st: State, inputs: seq<Input>, j: nat)
    requires TwoSided(st) && 0 < j <= |inputs|
    ensures Run(cfg, st, inputs[..j]) == Step(cfg, Run(cfg, st, inputs[..j - 1]), inputs[j - 1]).0
  {
    assert inputs[..j][..j - 1] == inputs[..j - 1];
  }

  /** While a session lives, a side's bound address never changes. */
  lemma {:induction false} BindingsAreStable(
      cfg: Config, st: State, inputs: seq<Input>, i: nat, j: nat, id: SessionId, side: nat)
    requires TwoSided(st) && side < 2 && i <= j <= |inputs|
    requires id in Run(cfg, st, inputs[..i]).sessions && Run(cfg, st, inputs[..i]).sessions[id].addresses[side].Some?
    requires forall k :: i <= k < j ==> Survives(cfg, Run(cfg, st, inputs[..k]), id, inputs[k].now)
    ensures id in Run(cfg, st, inputs[..j]).sessions
    ensures Run(cfg, st, inputs[..j]).sessions[id].addresses[side] ==
        Run(cfg, st, inputs[..i]).sessions[id].addresses[side]
    decreases j
  {
    if i < j {
      BindingsAreStable(cfg, st, inputs, i, j - 1, id, side);
      RunNext(cfg, st, inputs, j);
      StepKeepsBindings(cfg, Run(cfg, st, inputs[..j - 1]), inputs[j - 1], id, side);
    }
  }

  // -------------------------------------------------------------------- writes

  /** Every write is the received datagram byte for byte, whose MAC is that of its
      expiry and id and whose expiry has not come, carried by a token valid then,
      sent by the address bound to its side to the address bound to the other side
      of the same session, and not empty. */
  lemma WritesAreAuthentic(cfg: Config, st: State, inputs: seq<Input>, i: nat)
    requires TwoSided(st) && i < |inputs| && OutcomeAt(cfg, st, inputs, i).Forwarded?
    ensures var inp, o := inputs[i], OutcomeAt(cfg, st, inputs, i);
      && o.bytes == inp.bytes && Genuine(cfg, inp.bytes, inp.now)
      && exists e :: Authentic(cfg, inp) == Some(e) && e.payload != []
           && ValidToken(cfg.mac, cfg.secret, e.token, inp.now)
           && IdOf(e.token) in Run(cfg, st, inputs[..i + 1]).sessions
           && var s := Run(cfg, st, inputs[..i + 1]).sessions[IdOf(e.token)];
              && s.addresses[Other(e.side) as int] == Some(o.dest)
              && s.addresses[e.side as int] == (if inp.source.Udp? then Some(inp.source.addr) else None)
  {
    assert inputs[..i + 1][..i] == inputs[..i];
    var e := Authentic(cfg, inputs[i]).value;
    assert Authentic(cfg, inputs[i]) == Some(e);
    AdmittedIsGenuine(cfg, inputs[i]);
  }
}
