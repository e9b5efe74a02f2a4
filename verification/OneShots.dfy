/** pkg/scheduler: what becomes of a one-shot job over a restart. The hydration may
    make up for it, and then hands it to the wheel as if it had never run. */
module OneShots {
  import opened Options
  import opened Hydration
  import opened Backfill
  import opened OnceReplay
  import opened MissedFires
  import Lex
  import opened Scheduler

  /** Attempts of this hydration for times up to `now` do not move a stamp of `now`. */
  lemma {:induction false} StampOfNowStays(st: State, events: seq<Event>, key: string, now: int)
    requires key != "" && key in st.stamps && st.stamps[key] == Hydration.At(now)
    requires forall e :: e in events ==> e.Try? && e.when <= now
    ensures key in Run(st, events).stamps && Run(st, events).stamps[key] == Hydration.At(now)
    decreases |events|
  {
    if events != [] {
      var init, last := events[..|events| - 1], events[|events| - 1];
      assert last in events && forall e :: e in init ==> e in events;
      StampOfNowStays(st, init, key, now);
    }
  }

  /** The attempts behind the k-th job's own. */
  lemma AgendaFromTurn(env: Env, st: State, id: string, now: int, k: nat) returns (rest: seq<Event>)
    requires Keyed(st) && HasTurn(env, st, id) && id in st.jobs
    requires k < |Lex.Sorted(st.jobs.Keys)| && Lex.Sorted(st.jobs.Keys)[k] == id
    ensures Run(st, Agenda(env, st, now)) == Run(Run(AtTurn(env, st, now, k), TriesOf(env, st.jobs[id], now)), rest)
    ensures forall e :: e in rest ==> e.Try? && e.when <= now
  {
    var ids, pruned, at := Lex.Sorted(st.jobs.Keys), Run(st, [Prune(now)]), AtTurn(env, st, now, k);
    SortedIds(st);
    AgendaRuns(env, st, now);
    ReachedUnlessStopped(env, st.jobs, ids, k);
    TriesSplit(env, st.jobs, ids, now, k);
    var block := TriesOf(env, st.jobs[id], now);
    rest := After(env, st.jobs, ids[k..], now);
    RunConcat(pruned, TriesOfAll(env, st.jobs, ids[..k], now), block + rest);
    RunConcat(at, block, rest);
    AfterIsUpTo(env, st.jobs, ids[k..], now);
  }

  lemma AfterIsUpTo(env: Env, jobs: map<string, Job>, ids: seq<string>, now: int)
    requires ids != [] && forall i :: i in ids ==> i in jobs && jobs[i].id == i
    ensures forall e :: e in After(env, jobs, ids, now) ==> e.Try? && e.when <= now
  {
    TriesOfAllBounds(env, jobs, ids[1..], now);
  }

  /** The key of a job that a hydration fired for `now` is stamped with `now`. */
  lemma FiredKeyIsStamped(env: Env, st: State, id: string, now: int, k: nat)
    requires Keyed(st) && HasTurn(env, st, id) && id in st.jobs && env.resolves(st.jobs[id]) && Single(st.jobs[id])
    requires k < |Lex.Sorted(st.jobs.Keys)| && Lex.Sorted(st.jobs.Keys)[k] == id
    requires st.jobs[id].key != "" && OneIsDue(env, st.jobs[id], now)
    requires !Suppressed(AtTurn(env, st, now, k), st.jobs[id].key, now)
    ensures var next := Run(st, Agenda(env, st, now));
      st.jobs[id].key in next.stamps && next.stamps[st.jobs[id].key] == Hydration.At(now)
  {
    var j, at := st.jobs[id], AtTurn(env, st, now, k);
    var rest := AgendaFromTurn(env, st, id, now, k);
    OnceIsTriedOnce(env, j, now);
    RunAppend(at, [], Try(j, now));
    assert [] + [Try(j, now)] == [Try(j, now)];
    StampOfNowStays(Run(at, [Try(j, now)]), rest, j.key, now);
  }

  /** What the wheel's callback for a job does at a tick. */
  function Ticks(st: State, a: Armed, tick: int): State {
    Step(st, Live(a.job, tick))
  }

  /** A one-shot job with a handler and its turn is armed by the hydration whatever
      its policy, and whether or not it ever fired: the first tick that is not
      before its time starts it. */
  lemma ArmedAgain(env: Env, st: State, id: string, wheel: map<string, Armed>, after: map<string, Armed>, tick: int)
    requires Keyed(st) && id in st.jobs && env.resolves(st.jobs[id])
    requires st.jobs[id].cron == "" && st.jobs[id].runAt != 0 && st.jobs[id].runAt <= tick
    requires WheelIs(env, wheel, st.jobs, |st.jobs|, after)
    ensures id in after && Due(env, after[id], tick)
    ensures after[id].job.id == id && after[id].job.key == st.jobs[id].key
  {
    LoadedWheel(env, wheel, st.jobs, after, id);
    assert after[id].job.(missed := st.jobs[id].missed) == st.jobs[id];
  }

  lemma LiveIsLogged(st: State, j: Job, tick: int)
    requires !Suppressed(st, j.key, tick)
    ensures Whens(Step(st, Live(j, tick)).log, j.id) == Whens(st.log, j.id) + [tick]
  {
    WhensAppend(st.log, Fired(j.id, j.key, tick), j.id);
  }

  /** Without a key a missed one-shot job is fired by the hydration and once more by
      the first tick behind it; one that was not missed, or whose policy skips, or
      that fired in an earlier life, is fired by that tick. It is fired once by the
      two exactly if the hydration had nothing to make up for. */
  lemma KeylessFiresAgain(env: Env, st: State, id: string, now: int, wheel: map<string, Armed>,
                          after: map<string, Armed>, tick: int)
    requires Keyed(st) && id in st.jobs && env.resolves(st.jobs[id]) && HasTurn(env, st, id)
    requires st.jobs[id].cron == "" && st.jobs[id].runAt != 0 && st.jobs[id].runAt <= tick && st.jobs[id].key == ""
    requires WheelIs(env, wheel, st.jobs, |st.jobs|, after)
    ensures id in after && Due(env, after[id], tick)
    ensures Whens(Ticks(Run(st, Agenda(env, st, now)), after[id], tick).log, id) ==
            Whens(st.log, id) + (if OneIsDue(env, st.jobs[id], now) then [now, tick] else [tick])
  {
    ArmedAgain(env, st, id, wheel, after, tick);
    KeylessLog(env, st, id, now, after[id].job, tick);
  }

  lemma KeylessLog(env: Env, st: State, id: string, now: int, j: Job, tick: int)
    requires Keyed(st) && id in st.jobs && env.resolves(st.jobs[id]) && HasTurn(env, st, id)
    requires Single(st.jobs[id]) && st.jobs[id].key == "" && j.id == id && j.key == ""
    ensures Whens(Step(Run(st, Agenda(env, st, now)), Live(j, tick)).log, id) ==
            Whens(st.log, id) + (if OneIsDue(env, st.jobs[id], now) then [now, tick] else [tick])
  {
    KeylessOnceIsFired(env, st, id, now);
    KeylessTick(Run(st, Agenda(env, st, now)), j, tick);
    Two(Whens(st.log, id), now, tick);
  }

  lemma KeylessTick(st: State, j: Job, tick: int)
    requires j.key == ""
    ensures Whens(Step(st, Live(j, tick)).log, j.id) == Whens(st.log, j.id) + [tick]
  {
    LiveIsLogged(st, j, tick);
  }

  lemma Two(s: seq<int>, a: int, b: int)
    ensures s + [a] + [b] == s + [a, b]
  {
  }

  lemma KeyedLog(env: Env, st: State, id: string, now: int, k: nat, j: Job, tick: int)
    requires Keyed(st) && id in st.jobs && env.resolves(st.jobs[id]) && HasTurn(env, st, id) && Single(st.jobs[id])
    requires k < |Lex.Sorted(st.jobs.Keys)| && Lex.Sorted(st.jobs.Keys)[k] == id
    requires OneIsDue(env, st.jobs[id], now) && !Suppressed(AtTurn(env, st, now, k), st.jobs[id].key, now)
    requires j.id == id && j.key == st.jobs[id].key && j.key != ""
    ensures Whens(Step(Run(st, Agenda(env, st, now)), Live(j, tick)).log, id) ==
            Whens(st.log, id) + (if tick - now < 86_400_000_000_000 then [now] else [now, tick])
  {
    var next := Run(st, Agenda(env, st, now));
    OnceIsFired(env, st, id, now, k);
    FiredKeyIsStamped(env, st, id, now, k);
    KeyedTick(next, j, now, tick);
    Two(Whens(st.log, id), now, tick);
  }

  /** A key stands against the second fire exactly for 24 hours. */
  lemma KeyedFiresOnce(env: Env, st: State, id: string, now: int, k: nat, wheel: map<string, Armed>,
                       after: map<string, Armed>, tick: int)
    requires Keyed(st) && id in st.jobs && env.resolves(st.jobs[id]) && HasTurn(env, st, id)
    requires st.jobs[id].cron == "" && st.jobs[id].runAt != 0 && st.jobs[id].runAt <= tick && st.jobs[id].key != ""
    requires k < |Lex.Sorted(st.jobs.Keys)| && Lex.Sorted(st.jobs.Keys)[k] == id
    requires OneIsDue(env, st.jobs[id], now) && !Suppressed(AtTurn(env, st, now, k), st.jobs[id].key, now)
    requires WheelIs(env, wheel, st.jobs, |st.jobs|, after)
    ensures id in after && Due(env, after[id], tick)
    ensures Whens(Ticks(Run(st, Agenda(env, st, now)), after[id], tick).log, id) ==
            Whens(st.log, id) + (if tick - now < 86_400_000_000_000 then [now] else [now, tick])
  {
    ArmedAgain(env, st, id, wheel, after, tick);
    KeyedLog(env, st, id, now, k, after[id].job, tick);
  }

  lemma KeyedTick(st: State, j: Job, now: int, tick: int)
    requires j.key != "" && j.key in st.stamps && st.stamps[j.key] == Hydration.At(now)
    ensures Whens(Step(st, Live(j, tick)).log, j.id) ==
            if tick - now < 86_400_000_000_000 then Whens(st.log, j.id) else Whens(st.log, j.id) + [tick]
  {
    assert DEDUP_WINDOW == 86_400_000_000_000;
    if tick - now >= DEDUP_WINDOW {
      LiveIsLogged(st, j, tick);
    }
  }
}
