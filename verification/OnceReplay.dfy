/** Hydrating twice at one instant: a job that catches up with a single fire has
    nothing left to fire the second time. */
module OnceReplay {
  import opened Options
  import opened CronMatches
  import opened Hydration
  import opened Backfill
  import Lex

  /** One fire at most is due however many matches were missed. */
  predicate Single(j: Job) {
    j.missed == "once" || j.cron == ""
  }

  /** Hydrating the job at `now` would not call its callback. */
  predicate Quiet(env: Env, st: State, id: string, now: int) {
    id in st.jobs && (Plan(env, st.jobs[id], now) in {None, Some([])} || Suppressed(st, st.jobs[id].key, now))
  }

  lemma SinglePlan(env: Env, j: Job, now: int)
    requires Single(j)
    ensures Plan(env, j, now) in {None, Some([]), Some([now])}
  {
  }

  lemma NothingMissedNow(cal: Calendar, now: int)
    ensures FirstMatches(cal, now, now) == []
  {
    assert AllMatches(cal, now, now) == [];
  }

  /** Having just fired, or been suppressed, the job is quiet. */
  lemma QuietAfterTry(env: Env, st: State, j: Job, now: int)
    requires Single(j) && now != ZERO_TIME && j.id in st.jobs && st.jobs[j.id] == j
    ensures Quiet(env, Step(st, Try(j, now)), j.id, now)
  {
    if !Suppressed(st, j.key, now) && j.cron != "" && Schedule(env, j.cron).Some? {
      NothingMissedNow(Schedule(env, j.cron).value, now);
    }
  }

  lemma QuietAfterTurn(env: Env, st: State, j: Job, now: int)
    requires Single(j) && now != ZERO_TIME && j.id in st.jobs && st.jobs[j.id] == j && env.resolves(j)
    ensures Quiet(env, Run(st, TriesOf(env, j, now)), j.id, now)
  {
    SinglePlan(env, j, now);
    var tries := TriesOf(env, j, now);
    if Plan(env, j, now) == Some([now]) {
      assert tries == [] + [Try(j, now)];
      RunAppend(st, [], Try(j, now));
      QuietAfterTry(env, st, j, now);
    } else {
      assert tries == [];
    }
  }

  ghost predicate UpTo(events: seq<Event>, now: int) {
    forall e :: e in events ==>
      match e
      case Try(_, when) => when <= now
      case Prune(at) => at == now
      case Live(_, _) => false
  }

  lemma StampStays(st: State, e: Event, key: string, now: int)
    requires UpTo([e], now) && Suppressed(st, key, now)
    ensures Suppressed(Step(st, e), key, now)
  {
    assert e in [e];
    if e.Prune? { PruneKeepsSeen(st.stamps, key, now, now); }
  }

  /** Nothing that hydrates another job at or before `now` wakes a quiet job. */
  lemma {:induction false} QuietStays(env: Env, st: State, events: seq<Event>, id: string, now: int)
    requires Keyed(st) && Quiet(env, st, id, now) && UpTo(events, now)
    requires forall e :: e in events ==> !Concerns(e, id)
    ensures Quiet(env, Run(st, events), id, now)
    decreases |events|
  {
    if events != [] {
      var init, last := events[..|events| - 1], events[|events| - 1];
      assert last in events && forall e :: e in init ==> e in events;
      QuietStays(env, st, init, id, now);
      var mid := Run(st, init);
      if Suppressed(mid, mid.jobs[id].key, now) {
        StampStays(mid, last, mid.jobs[id].key, now);
      }
    }
  }

  lemma TriesUpTo(env: Env, jobs: map<string, Job>, ids: seq<string>, now: int)
    requires forall id :: id in ids ==> id in jobs && jobs[id].id == id
    ensures UpTo(TriesOfAll(env, jobs, ids, now), now)
  {
    TriesOfAllBounds(env, jobs, ids, now);
  }

  lemma BlockUpTo(env: Env, j: Job, now: int)
    ensures UpTo(TriesOf(env, j, now), now)
  {
    TriesOfBounds(env, j, now);
  }

  lemma RestIsQuiet(env: Env, st: State, jobs: map<string, Job>, ids: seq<string>, id: string, now: int)
    requires Keyed(st) && Quiet(env, st, id, now) && id !in ids
    requires forall k :: k in ids ==> k in jobs && jobs[k].id == k
    ensures Quiet(env, Run(st, TriesOfAll(env, jobs, ids, now)), id, now)
  {
    TriesOfAllBounds(env, jobs, ids, now);
    TriesUpTo(env, jobs, ids, now);
    QuietStays(env, st, TriesOfAll(env, jobs, ids, now), id, now);
  }

  // ------------------------------------------------- where a hydration comes to

  /** The job that kept another from its turn. */
  lemma {:induction false} StoppedBy(env: Env, jobs: map<string, Job>, ids: seq<string>, id: string) returns (k: nat)
    requires (forall k :: k in ids ==> k in jobs) && id in ids && id !in Reached(env, jobs, ids)
    ensures k < |ids| && ids[k] in jobs && Stops(env, jobs[ids[k]]) && id in ids[k + 1..]
  {
    assert ids[0] in ids && forall k :: k in ids[1..] ==> k in ids;
    if Stops(env, jobs[ids[0]]) {
      k := 0;
    } else {
      k := StoppedBy(env, jobs, ids[1..], id);
      assert ids[k + 2..] == ids[1..][k + 1..];
      k := k + 1;
    }
  }

  lemma {:induction false} NotReachedBehind(env: Env, jobs: map<string, Job>, ids: seq<string>, k: nat, id: string)
    requires Distinct(ids) && (forall k :: k in ids ==> k in jobs)
    requires k < |ids| && ids[k] in jobs && Stops(env, jobs[ids[k]]) && id in ids[k + 1..]
    ensures id !in Reached(env, jobs, ids)
  {
    DistinctTail(ids);
    assert ids[0] != id;
    if k > 0 && !Stops(env, jobs[ids[0]]) {
      assert ids[1..][k..] == ids[k + 1..] && ids[1..][k - 1] == ids[k];
      NotReachedBehind(env, jobs, ids[1..], k - 1, id);
    }
  }

  lemma StoppingHasNoTries(env: Env, j: Job, now: int)
    requires Stops(env, j)
    ensures TriesOf(env, j, now) == []
  {
  }

  /** In two sorted listings two jobs stand in the same order. */
  lemma SameOrder(ids: seq<string>, k: nat, id: string, more: seq<string>) returns (l: nat)
    requires Lex.Ascending(ids) && Lex.Ascending(more) && k < |ids| && id in ids[k + 1..]
    requires ids[k] in more && id in more
    ensures l < |more| && more[l] == ids[k] && id in more[l + 1..]
  {
    var m :| 0 <= m < |ids[k + 1..]| && ids[k + 1..][m] == id;
    assert Lex.Less(ids[k], ids[k + 1 + m]);
    Lex.Asymmetric(ids[k], id);
    l :| 0 <= l < |more| && more[l] == ids[k];
    var n :| 0 <= n < |more| && more[n] == id;
    assert more[l + 1..][n - l - 1] == id;
  }

  /** A job kept from its turn is kept from it again. */
  lemma StoppedAgain(env: Env, st: State, id: string, now: int)
    requires Keyed(st) && id in st.jobs
    requires forall k :: k in Lex.Sorted(st.jobs.Keys) ==> k in st.jobs && st.jobs[k].id == k
    requires id !in Reached(env, st.jobs, Lex.Sorted(st.jobs.Keys))
    ensures var mid := Run(st, Agenda(env, st, now));
      && Keyed(mid) && id in mid.jobs && (forall k :: k in Lex.Sorted(mid.jobs.Keys) ==> k in mid.jobs)
      && id !in Reached(env, mid.jobs, Lex.Sorted(mid.jobs.Keys))
  {
    var ids, mid := Lex.Sorted(st.jobs.Keys), Run(st, Agenda(env, st, now));
    var k := StoppedBy(env, st.jobs, ids, id);
    StoppingHasNoTries(env, st.jobs[ids[k]], now);
    LeftAlone(env, st, ids[k], now);
    LeftAlone(env, st, id, now);
    SortedIds(mid);
    var l := SameOrder(ids, k, id, Lex.Sorted(mid.jobs.Keys));
    NotReachedBehind(env, mid.jobs, Lex.Sorted(mid.jobs.Keys), l, id);
  }

  /** An uncut pass leaves a job that had its turn quiet. */
  lemma {:induction false} QuietAfterPass(env: Env, st: State, jobs: map<string, Job>, ids: seq<string>, id: string,
                                          now: int)
    requires Keyed(st) && Distinct(ids) && forall k :: k in ids ==> k in jobs && jobs[k].id == k
    requires id in Reached(env, jobs, ids) && id in jobs && id in st.jobs && jobs[id] == st.jobs[id]
    requires Single(jobs[id]) && env.resolves(jobs[id]) && now != ZERO_TIME
    ensures Quiet(env, Run(st, TriesOfAll(env, jobs, ids, now)), id, now)
    decreases |ids|
  {
    DistinctTail(ids);
    var j := jobs[ids[0]];
    var block := TriesOf(env, j, now);
    var rest := if Stops(env, j) then [] else TriesOfAll(env, jobs, ids[1..], now);
    assert TriesOfAll(env, jobs, ids, now) == block + rest;
    RunConcat(st, block, rest);
    RunKeepsKeyed(st, block);
    if ids[0] == id {
      QuietAfterTurn(env, st, j, now);
      if rest != [] { RestIsQuiet(env, Run(st, block), jobs, ids[1..], id, now); }
    } else {
      TriesOfBounds(env, j, now);
      OthersKeep(st, block, id);
      QuietAfterPass(env, Run(st, block), jobs, ids[1..], id, now);
    }
  }

  /** A quiet job's own turn does nothing. */
  lemma QuietTurn(env: Env, st: State, id: string, now: int)
    requires Quiet(env, st, id, now) && Single(st.jobs[id])
    ensures Run(st, TriesOf(env, st.jobs[id], now)) == st
  {
    var j := st.jobs[id];
    SinglePlan(env, j, now);
    var tries := TriesOf(env, j, now);
    if env.resolves(j) && Plan(env, j, now) == Some([now]) {
      assert tries == [] + [Try(j, now)];
      RunAppend(st, [], Try(j, now));
    } else {
      assert tries == [];
    }
  }

  /** A pass over the jobs does not call a quiet job's callback. */
  lemma {:induction false} QuietPass(env: Env, st: State, jobs: map<string, Job>, ids: seq<string>, id: string,
                                     now: int)
    requires Keyed(st) && Distinct(ids) && forall k :: k in ids ==> k in jobs && jobs[k].id == k
    requires Quiet(env, st, id, now) && Single(st.jobs[id]) && (id in ids ==> jobs[id] == st.jobs[id])
    ensures Whens(Run(st, TriesOfAll(env, jobs, ids, now)).log, id) == Whens(st.log, id)
    decreases |ids|
  {
    if ids != [] {
      var j := jobs[ids[0]];
      assert ids[0] in ids && ids[0] !in ids[1..] && forall k :: k in ids[1..] ==> k in ids;
      var block := TriesOf(env, j, now);
      var rest := if env.resolves(j) && Malformed(env, j) then [] else TriesOfAll(env, jobs, ids[1..], now);
      assert TriesOfAll(env, jobs, ids, now) == block + rest;
      RunConcat(st, block, rest);
      RunKeepsKeyed(st, block);
      if ids[0] == id {
        QuietTurn(env, st, id, now);
      } else {
        TriesOfBounds(env, j, now);
        BlockUpTo(env, j, now);
        OthersKeep(st, block, id);
        QuietStays(env, st, block, id, now);
      }
      if rest != [] {
        QuietPass(env, Run(st, block), jobs, ids[1..], id, now);
      }
    }
  }

  /** `Prune(now)` and then the jobs in turn. */
  lemma AgendaRuns(env: Env, st: State, now: int)
    requires Keyed(st)
    ensures Keyed(Run(st, [Prune(now)])) && Run(st, [Prune(now)]) == st.(stamps := Pruned(st.stamps, now))
    ensures Run(st, Agenda(env, st, now)) ==
        Run(Run(st, [Prune(now)]), TriesOfAll(env, st.jobs, Lex.Sorted(st.jobs.Keys), now))
  {
    RunAppend(st, [], Prune(now));
    assert [] + [Prune(now)] == [Prune(now)];
    RunConcat(st, [Prune(now)], TriesOfAll(env, st.jobs, Lex.Sorted(st.jobs.Keys), now));
  }

  /** Attempts change nothing of a job but its last fire. */
  lemma {:induction false} SpecStays(st: State, events: seq<Event>, id: string)
    requires id in st.jobs && forall e :: e in events && Concerns(e, id) ==>
        e.Try? && Single(e.job) == Single(st.jobs[id])
    ensures id in Run(st, events).jobs && Single(Run(st, events).jobs[id]) == Single(st.jobs[id])
    decreases |events|
  {
    if events != [] {
      var init, last := events[..|events| - 1], events[|events| - 1];
      assert last in events && forall e :: e in init ==> e in events;
      SpecStays(st, init, id);
    }
  }

  lemma StillSingle(env: Env, st: State, id: string, now: int)
    requires Keyed(st) && id in st.jobs && Single(st.jobs[id])
    ensures var mid := Run(st, Agenda(env, st, now)); Keyed(mid) && id in mid.jobs && Single(mid.jobs[id])
  {
    SortedIds(st);
    TriesOfAllBounds(env, st.jobs, Lex.Sorted(st.jobs.Keys), now);
    SpecStays(st, Agenda(env, st, now), id);
    RunKeepsKeyed(st, Agenda(env, st, now));
  }

  /** Hydrated twice at the same `now`, a `once` or one-shot job fires nothing the
      second time, whatever the other jobs do. */
  lemma OnceIsIdempotent(env: Env, st: State, id: string, now: int)
    requires Keyed(st) && now != ZERO_TIME && id in st.jobs && Single(st.jobs[id])
    ensures var mid := Run(st, Agenda(env, st, now));
      Whens(Run(mid, Agenda(env, mid, now)).log, id) == Whens(mid.log, id)
  {
    var mid := Run(st, Agenda(env, st, now));
    SortedIds(st);
    if id !in Reached(env, st.jobs, Lex.Sorted(st.jobs.Keys)) {
      StoppedAgain(env, st, id, now);
      SortedIds(mid);
      LeftAlone(env, mid, id, now);
    } else if !env.resolves(st.jobs[id]) {
      LeftAlone(env, st, id, now);
      SortedIds(mid);
      LeftAlone(env, mid, id, now);
    } else {
      FirstHydration(env, st, id, now);
      SecondHydration(env, mid, id, now);
    }
  }

  lemma FirstHydration(env: Env, st: State, id: string, now: int)
    requires Keyed(st) && now != ZERO_TIME && id in st.jobs && Single(st.jobs[id]) && env.resolves(st.jobs[id])
    requires forall k :: k in Lex.Sorted(st.jobs.Keys) ==> k in st.jobs && st.jobs[k].id == k
    requires id in Reached(env, st.jobs, Lex.Sorted(st.jobs.Keys))
    ensures var mid := Run(st, Agenda(env, st, now));
      Keyed(mid) && Quiet(env, mid, id, now) && Single(mid.jobs[id])
  {
    SortedIds(st);
    AgendaRuns(env, st, now);
    QuietAfterPass(env, Run(st, [Prune(now)]), st.jobs, Lex.Sorted(st.jobs.Keys), id, now);
    StillSingle(env, st, id, now);
  }

  lemma SecondHydration(env: Env, st: State, id: string, now: int)
    requires Keyed(st) && Quiet(env, st, id, now) && Single(st.jobs[id])
    ensures Whens(Run(st, Agenda(env, st, now)).log, id) == Whens(st.log, id)
  {
    SortedIds(st);
    AgendaRuns(env, st, now);
    PruneKeepsSeen(st.stamps, st.jobs[id].key, now, now);
    QuietPass(env, Run(st, [Prune(now)]), st.jobs, Lex.Sorted(st.jobs.Keys), id, now);
  }
}
