/** Whole sequences of hydrations, each cut short after any attempt: a keyless
    backfill job fires every missed match exactly once, in order. */
module Backfill {
  import opened Options
  import opened CronMatches
  import opened Hydration
  import Lex

  // ---------------------------------------------------------------- runs and logs

  lemma {:induction false} RunConcat(st: State, a: seq<Event>, b: seq<Event>)
    ensures Run(st, a + b) == Run(Run(st, a), b)
    decreases |b|
  {
    if b == [] {
      assert a + b == a;
    } else {
      assert (a + b)[..|a + b| - 1] == a + b[..|b| - 1];
      RunConcat(st, a, b[..|b| - 1]);
    }
  }

  /** The times one job was fired for, in order. */
  function Whens(log: seq<Fired>, id: string): seq<int> {
    if log == [] then []
    else
      var f := log[|log| - 1];
      Whens(log[..|log| - 1], id) + if f.id == id then [f.when] else []
  }

  lemma WhensAppend(log: seq<Fired>, f: Fired, id: string)
    ensures Whens(log + [f], id) == Whens(log, id) + if f.id == id then [f.when] else []
  {
    assert (log + [f])[..|log|] == log;
  }

  predicate Concerns(e: Event, id: string) {
    !e.Prune? && e.job.id == id
  }

  lemma {:induction false} OthersKeep(st: State, events: seq<Event>, id: string)
    requires Keyed(st) && forall e :: e in events ==> !Concerns(e, id)
    ensures Keyed(Run(st, events))
    ensures id in Run(st, events).jobs <==> id in st.jobs
    ensures id in st.jobs ==> Run(st, events).jobs[id] == st.jobs[id]
    ensures Whens(Run(st, events).log, id) == Whens(st.log, id)
    decreases |events|
  {
    if events != [] {
      var init, last := events[..|events| - 1], events[|events| - 1];
      assert last in events && forall e :: e in init ==> e in events;
      OthersKeep(st, init, id);
      OtherStep(Run(st, init), last, id);
    }
  }

  lemma OtherStep(st: State, e: Event, id: string)
    requires Keyed(st) && !Concerns(e, id)
    ensures var next := Step(st, e);
      && Keyed(next) && (id in next.jobs <==> id in st.jobs) && (id in st.jobs ==> next.jobs[id] == st.jobs[id])
      && Whens(next.log, id) == Whens(st.log, id)
  {
    if Step(st, e).log != st.log {
      WhensAppend(st.log, Step(st, e).log[|st.log|], id);
    }
  }

  lemma {:induction false} RunKeepsKeyed(st: State, events: seq<Event>)
    requires Keyed(st)
    ensures Keyed(Run(st, events))
    decreases |events|
  {
    if events != [] { RunKeepsKeyed(st, events[..|events| - 1]); }
  }

  lemma {:induction false} TriesOfAllBounds(env: Env, jobs: map<string, Job>, ids: seq<string>, now: int)
    requires forall id :: id in ids ==> id in jobs && jobs[id].id == id
    ensures forall e :: e in TriesOfAll(env, jobs, ids, now) ==>
        e.Try? && e.when <= now && e.job.id in ids && e.job == jobs[e.job.id]
  {
    if ids != [] {
      assert ids[0] in ids && forall id :: id in ids[1..] ==> id in ids;
      TriesOfAllBounds(env, jobs, ids[1..], now);
      TriesOfBounds(env, jobs[ids[0]], now);
    }
  }

  lemma TriesOfBounds(env: Env, j: Job, now: int)
    ensures forall e :: e in TriesOf(env, j, now) ==> e.Try? && e.when <= now && e.job == j
  {
    var tries := TriesOf(env, j, now);
    forall e | e in tries ensures e.Try? && e.when <= now && e.job == j {
      var i :| 0 <= i < |tries| && tries[i] == e;
      PlanBounds(env, j, now, i);
    }
  }

  lemma PlanBounds(env: Env, j: Job, now: int, i: nat)
    requires Plan(env, j, now).Some? && i < |Plan(env, j, now).value|
    ensures Plan(env, j, now).value[i] <= now
  {
    if j.missed == "backfill" && j.cron != "" {
      var cal := Schedule(env, j.cron).value;
      var all := AllMatches(cal, From(j, now), now);
      AllMatchesExact(cal, From(j, now), now);
      assert all[i] in all;
    }
  }

  // ------------------------------------------------------------------- the backlog

  /** A keyless cron job under the backfill policy that has fired before. */
  predicate Backfilled(env: Env, j: Job, cal: Calendar)
    requires j.cron != "" ==> Schedule(env, j.cron) == Some(cal)
  {
    j.missed == "backfill" && j.cron != "" && j.key == "" && j.last > ZERO_TIME
  }

  /** Since the job stood as `j0`, its callback was called for exactly the matches
      up to the time now recorded as its last. */
  ghost predicate Backlogged(st: State, j0: Job, cal: Calendar) {
    && j0.id in st.jobs
    && st.jobs[j0.id] == j0.(last := st.jobs[j0.id].last)
    && j0.last <= st.jobs[j0.id].last
    && Whens(st.log, j0.id) == AllMatches(cal, j0.last, st.jobs[j0.id].last)
  }

  function Fireds(j: Job, whens: seq<int>): (r: seq<Fired>)
    ensures |r| == |whens| && forall i :: 0 <= i < |whens| ==> r[i] == Fired(j.id, j.key, whens[i])
  {
    seq(|whens|, i requires 0 <= i < |whens| => Fired(j.id, j.key, whens[i]))
  }

  lemma TriesAppend(j: Job, whens: seq<int>)
    requires whens != []
    ensures var init, last := whens[..|whens| - 1], whens[|whens| - 1];
      Tries(j, whens) == Tries(j, init) + [Try(j, last)] &&
        Fireds(j, whens) == Fireds(j, init) + [Fired(j.id, j.key, last)]
  {
  }

  lemma TryFires(st: State, events: seq<Event>, j: Job, when: int)
    requires j.key == ""
    ensures Run(st, events + [Try(j, when)]).log == Run(st, events).log + [Fired(j.id, j.key, when)]
    ensures Run(st, events + [Try(j, when)]).jobs == Run(st, events).jobs[j.id := j.(last := when)]
  {
    RunAppend(st, events, Try(j, when));
  }

  /** A keyless job's attempts all fire. */
  lemma {:induction false} RunTries(st: State, j: Job, whens: seq<int>)
    requires j.key == ""
    ensures Run(st, Tries(j, whens)).log == st.log + Fireds(j, whens)
    ensures Run(st, Tries(j, whens)).jobs ==
            if whens == [] then st.jobs else st.jobs[j.id := j.(last := whens[|whens| - 1])]
    decreases |whens|
  {
    if whens == [] {
      assert Run(st, Tries(j, whens)) == st && st.log + Fireds(j, whens) == st.log;
    } else {
      var init, last := whens[..|whens| - 1], whens[|whens| - 1];
      RunTries(st, j, init);
      TryFires(st, Tries(j, init), j, last);
      TriesAppend(j, whens);
      assert (st.log + Fireds(j, init)) + [Fired(j.id, j.key, last)] ==
          st.log + (Fireds(j, init) + [Fired(j.id, j.key, last)]);
    }
  }

  lemma FiredAppend(log: seq<Fired>, j: Job, init: seq<int>, last: int)
    ensures Whens(log + Fireds(j, init + [last]), j.id) == Whens(log + Fireds(j, init), j.id) + [last]
  {
    var f := Fired(j.id, j.key, last);
    assert Fireds(j, init + [last]) == Fireds(j, init) + [f];
    assert log + (Fireds(j, init) + [f]) == (log + Fireds(j, init)) + [f];
    WhensAppend(log + Fireds(j, init), f, j.id);
  }

  lemma {:induction false} WhensOfFireds(log: seq<Fired>, j: Job, whens: seq<int>)
    ensures Whens(log + Fireds(j, whens), j.id) == Whens(log, j.id) + whens
    decreases |whens|
  {
    if whens == [] {
      assert log + Fireds(j, whens) == log && Whens(log, j.id) + whens == Whens(log, j.id);
    } else {
      var init, last := whens[..|whens| - 1], whens[|whens| - 1];
      WhensOfFireds(log, j, init);
      FiredAppend(log, j, init, last);
      assert whens == init + [last];
      assert (Whens(log, j.id) + init) + [last] == Whens(log, j.id) + (init + [last]);
    }
  }

  /** The job's own turn, cut after any number of attempts. */
  lemma OwnTurn(env: Env, st: State, j0: Job, cal: Calendar, now: int, cut: nat)
    requires Schedule(env, j0.cron) == Some(cal) && Backfilled(env, j0, cal) && Backlogged(st, j0, cal)
    requires cut <= |FirstMatches(cal, st.jobs[j0.id].last, now)|
    ensures Backlogged(Run(st, Tries(st.jobs[j0.id], FirstMatches(cal, st.jobs[j0.id].last, now)[..cut])), j0, cal)
  {
    var j := st.jobs[j0.id];
    var whens := FirstMatches(cal, j.last, now)[..cut];
    RunTries(st, j, whens);
    if cut > 0 {
      var all := AllMatches(cal, j.last, now);
      assert whens == all[..cut];
      Resume(cal, j.last, now, cut - 1);
      Split(cal, j0.last, j.last, all[cut - 1]);
      WhensOfFireds(st.log, j, whens);
    }
  }

  // ---------------------------------------------------------------- one hydration

  function Take(events: seq<Event>, cut: nat): seq<Event> {
    if cut <= |events| then events[..cut] else events
  }

  lemma TakeConcat(a: seq<Event>, b: seq<Event>, cut: nat)
    ensures Take(a + b, cut) == if cut <= |a| then a[..cut] else a + Take(b, cut - |a|)
  {
  }

  ghost predicate Distinct(ids: seq<string>) {
    forall i, j :: 0 <= i < j < |ids| ==> ids[i] != ids[j]
  }

  lemma OwnBlock(env: Env, st: State, j0: Job, cal: Calendar, now: int, cut: nat)
    requires Schedule(env, j0.cron) == Some(cal) && Backfilled(env, j0, cal) && Backlogged(st, j0, cal)
    ensures Backlogged(Run(st, Take(TriesOf(env, st.jobs[j0.id], now), cut)), j0, cal)
  {
    var j := st.jobs[j0.id];
    var tries := TriesOf(env, j, now);
    if env.resolves(j) {
      var whens := FirstMatches(cal, j.last, now);
      assert tries == Tries(j, whens);
      var n := if cut <= |whens| then cut else |whens|;
      assert Take(tries, cut) == Tries(j, whens[..n]);
      OwnTurn(env, st, j0, cal, now, n);
    } else {
      assert Take(tries, cut) == [];
    }
  }

  lemma OthersKeepBacklog(st: State, events: seq<Event>, j0: Job, cal: Calendar)
    requires Keyed(st) && Backlogged(st, j0, cal)
    requires forall e :: e in events ==> !Concerns(e, j0.id)
    ensures Backlogged(Run(st, events), j0, cal) && Keyed(Run(st, events))
    ensures Run(st, events).jobs[j0.id] == st.jobs[j0.id]
  {
    OthersKeep(st, events, j0.id);
  }

  lemma TakeBounds(events: seq<Event>, cut: nat)
    ensures forall e :: e in Take(events, cut) ==> e in events
  {
  }

  /** The jobs behind the job's own turn do not concern it. */
  lemma LaterJobs(env: Env, st: State, jobs: map<string, Job>, ids: seq<string>, j0: Job, cal: Calendar, now: int,
                  cut: nat)
    requires Keyed(st) && Backlogged(st, j0, cal)
    requires j0.id !in ids && forall id :: id in ids ==> id in jobs && jobs[id].id == id
    ensures Backlogged(Run(st, Take(TriesOfAll(env, jobs, ids, now), cut)), j0, cal)
  {
    var rest := TriesOfAll(env, jobs, ids, now);
    TriesOfAllBounds(env, jobs, ids, now);
    TakeBounds(rest, cut);
    OthersKeepBacklog(st, Take(rest, cut), j0, cal);
  }

  function After(env: Env, jobs: map<string, Job>, ids: seq<string>, now: int): seq<Event>
    requires ids != [] && forall id :: id in ids ==> id in jobs
  {
    assert ids[0] in ids;
    if env.resolves(jobs[ids[0]]) && Malformed(env, jobs[ids[0]]) then [] else TriesOfAll(env, jobs, ids[1..], now)
  }

  /** The first job's turn, its own or another's. */
  lemma TurnKeepsBacklog(env: Env, st: State, j: Job, j0: Job, cal: Calendar, now: int, cut: nat)
    requires Schedule(env, j0.cron) == Some(cal) && Backfilled(env, j0, cal) && Backlogged(st, j0, cal) && Keyed(st)
    requires j.id == j0.id ==> j == st.jobs[j0.id]
    ensures var next := Run(st, Take(TriesOf(env, j, now), cut));
      Backlogged(next, j0, cal) && Keyed(next) && (j.id != j0.id ==> next.jobs[j0.id] == st.jobs[j0.id])
  {
    RunKeepsKeyed(st, Take(TriesOf(env, j, now), cut));
    if j.id == j0.id {
      OwnBlock(env, st, j0, cal, now, cut);
    } else {
      TriesOfBounds(env, j, now);
      TakeBounds(TriesOf(env, j, now), cut);
      OthersKeepBacklog(st, Take(TriesOf(env, j, now), cut), j0, cal);
    }
  }

  /** One pass over the jobs is the first job's turn and then what comes after. */
  lemma PassSplits(env: Env, st: State, jobs: map<string, Job>, ids: seq<string>, now: int, cut: nat)
    requires ids != [] && forall id :: id in ids ==> id in jobs
    ensures ids[0] in ids
    ensures var block := TriesOf(env, jobs[ids[0]], now);
      Run(st, Take(TriesOfAll(env, jobs, ids, now), cut)) ==
      if cut <= |block| then Run(st, Take(block, cut))
      else Run(Run(st, block), Take(After(env, jobs, ids, now), cut - |block|))
  {
    assert ids[0] in ids;
    var block, more := TriesOf(env, jobs[ids[0]], now), After(env, jobs, ids, now);
    assert TriesOfAll(env, jobs, ids, now) == block + more;
    TakeConcat(block, more, cut);
    if cut > |block| {
      RunConcat(st, block, Take(more, cut - |block|));
    }
  }

  lemma {:induction false} PassKeepsBacklog(env: Env, st: State, jobs: map<string, Job>, ids: seq<string>, j0: Job,
                                            cal: Calendar, now: int, cut: nat)
    requires Schedule(env, j0.cron) == Some(cal) && Backfilled(env, j0, cal) && Backlogged(st, j0, cal) && Keyed(st)
    requires Distinct(ids) && forall id :: id in ids ==> id in jobs && jobs[id].id == id
    requires j0.id in ids ==> jobs[j0.id] == st.jobs[j0.id]
    ensures Backlogged(Run(st, Take(TriesOfAll(env, jobs, ids, now), cut)), j0, cal)
    decreases |ids|, 0
  {
    if j0.id !in ids {
      LaterJobs(env, st, jobs, ids, j0, cal, now, cut);
    } else {
      DistinctTail(ids);
      var j := jobs[ids[0]];
      var block := TriesOf(env, j, now);
      PassSplits(env, st, jobs, ids, now, cut);
      if cut <= |block| {
        TurnKeepsBacklog(env, st, j, j0, cal, now, cut);
      } else {
        WholeTurnKeepsBacklog(env, st, j, j0, cal, now);
        RestKeepsBacklog(env, Run(st, block), jobs, ids, j0, cal, now, cut - |block|);
      }
    }
  }

  lemma DistinctTail(ids: seq<string>)
    requires ids != [] && Distinct(ids)
    ensures ids[0] in ids && ids[0] !in ids[1..] && Distinct(ids[1..]) && forall id :: id in ids[1..] ==> id in ids
  {
  }

  lemma WholeTurnKeepsBacklog(env: Env, st: State, j: Job, j0: Job, cal: Calendar, now: int)
    requires Schedule(env, j0.cron) == Some(cal) && Backfilled(env, j0, cal) && Backlogged(st, j0, cal) && Keyed(st)
    requires j.id == j0.id ==> j == st.jobs[j0.id]
    ensures var next := Run(st, TriesOf(env, j, now));
      Backlogged(next, j0, cal) && Keyed(next) && (j.id != j0.id ==> next.jobs[j0.id] == st.jobs[j0.id])
  {
    var block := TriesOf(env, j, now);
    TurnKeepsBacklog(env, st, j, j0, cal, now, |block|);
    assert Take(block, |block|) == block;
  }

  lemma {:induction false} RestKeepsBacklog(env: Env, st: State, jobs: map<string, Job>, ids: seq<string>, j0: Job,
                                            cal: Calendar, now: int, cut: nat)
    requires Schedule(env, j0.cron) == Some(cal) && Backfilled(env, j0, cal) && Backlogged(st, j0, cal) && Keyed(st)
    requires ids != [] && Distinct(ids) && forall id :: id in ids ==> id in jobs && jobs[id].id == id
    requires j0.id in ids[1..] ==> jobs[j0.id] == st.jobs[j0.id]
    ensures Backlogged(Run(st, Take(After(env, jobs, ids, now), cut)), j0, cal)
    decreases |ids| - 1, 1
  {
    DistinctTail(ids);
    if env.resolves(jobs[ids[0]]) && Malformed(env, jobs[ids[0]]) {
      assert Take(After(env, jobs, ids, now), cut) == [];
    } else {
      PassKeepsBacklog(env, st, jobs, ids[1..], j0, cal, now, cut);
    }
  }

  /** A hydration at `now`, cut after `cut` steps. */
  datatype Start = Start(now: int, cut: nat)

  function Hydrate(env: Env, st: State, h: Start): State {
    Run(st, Take(Agenda(env, st, h.now), h.cut))
  }

  function HydrateAll(env: Env, st: State, hs: seq<Start>): State
    decreases |hs|
  {
    if hs == [] then st else Hydrate(env, HydrateAll(env, st, hs[..|hs| - 1]), hs[|hs| - 1])
  }

  lemma SortedIds(st: State)
    requires Keyed(st)
    ensures Distinct(Lex.Sorted(st.jobs.Keys))
    ensures forall id :: id in Lex.Sorted(st.jobs.Keys) <==> id in st.jobs
    ensures forall id :: id in Lex.Sorted(st.jobs.Keys) ==> st.jobs[id].id == id
  {
    var ids := Lex.Sorted(st.jobs.Keys);
    forall i, j | 0 <= i < j < |ids| ensures ids[i] != ids[j] {
      Lex.Asymmetric(ids[i], ids[j]);
    }
  }

  lemma HydrateKeepsBacklog(env: Env, st: State, h: Start, j0: Job, cal: Calendar)
    requires Schedule(env, j0.cron) == Some(cal) && Backfilled(env, j0, cal) && Backlogged(st, j0, cal) && Keyed(st)
    ensures Backlogged(Hydrate(env, st, h), j0, cal) && Keyed(Hydrate(env, st, h))
  {
    RunKeepsKeyed(st, Take(Agenda(env, st, h.now), h.cut));
    if h.cut == 0 {
      assert Take(Agenda(env, st, h.now), 0) == [];
    } else {
      HydrateStarts(env, st, h);
      JobsKeepBacklog(env, st, j0, cal, h.now, h.cut - 1);
    }
  }

  lemma JobsKeepBacklog(env: Env, st: State, j0: Job, cal: Calendar, now: int, cut: nat)
    requires Schedule(env, j0.cron) == Some(cal) && Backfilled(env, j0, cal) && Backlogged(st, j0, cal) && Keyed(st)
    ensures Backlogged(Run(Step(st, Prune(now)), Take(TriesOfAll(env, st.jobs, Lex.Sorted(st.jobs.Keys), now), cut)),
        j0, cal)
  {
    SortedIds(st);
    PassKeepsBacklog(env, Step(st, Prune(now)), st.jobs, Lex.Sorted(st.jobs.Keys), j0, cal, now, cut);
  }

  /** A hydration prunes first and then turns to the jobs. */
  lemma HydrateStarts(env: Env, st: State, h: Start)
    requires h.cut > 0
    ensures Hydrate(env, st, h) ==
        Run(Step(st, Prune(h.now)), Take(TriesOfAll(env, st.jobs, Lex.Sorted(st.jobs.Keys), h.now), h.cut - 1))
  {
    var tries := TriesOfAll(env, st.jobs, Lex.Sorted(st.jobs.Keys), h.now);
    TakeConcat([Prune(h.now)], tries, h.cut);
    assert Take(tries, 0) == [];
    assert Take([Prune(h.now)] + tries, h.cut) == [Prune(h.now)] + Take(tries, h.cut - 1);
    RunConcat(st, [Prune(h.now)], Take(tries, h.cut - 1));
    RunAppend(st, [], Prune(h.now));
    assert [] + [Prune(h.now)] == [Prune(h.now)];
  }

  /** Over any sequence of hydrations, at whatever times, each cut anywhere: the
      callback has been called for every match up to the recorded time, once each
      and in order. */
  lemma {:induction false} BackfillIsExact(env: Env, st: State, hs: seq<Start>, id: string, cal: Calendar)
    requires Keyed(st) && st.log == [] && id in st.jobs
    requires Schedule(env, st.jobs[id].cron) == Some(cal) && Backfilled(env, st.jobs[id], cal)
    ensures Backlogged(HydrateAll(env, st, hs), st.jobs[id], cal) && Keyed(HydrateAll(env, st, hs))
    decreases |hs|
  {
    if hs == [] {
      var j0 := st.jobs[id];
      assert AllMatches(cal, j0.last, j0.last) == [];
    } else {
      BackfillIsExact(env, st, hs[..|hs| - 1], id, cal);
      HydrateKeepsBacklog(env, HydrateAll(env, st, hs[..|hs| - 1]), hs[|hs| - 1], st.jobs[id], cal);
    }
  }

  // ------------------------------------------------------------------- catching up

  /** No job with a handler has a malformed cron text. */
  predicate AllParse(env: Env, jobs: map<string, Job>) {
    forall id :: id in jobs && env.resolves(jobs[id]) ==> !Malformed(env, jobs[id])
  }

  // ------------------------------------------------- where a hydration comes to

  /** The job's cron text ends the hydration. */
  predicate Stops(env: Env, j: Job) {
    env.resolves(j) && Malformed(env, j)
  }

  /** The jobs that get their turn. */
  function Reached(env: Env, jobs: map<string, Job>, ids: seq<string>): seq<string>
    requires forall k :: k in ids ==> k in jobs
  {
    if ids == [] then []
    else
      assert ids[0] in ids;
      [ids[0]] + if Stops(env, jobs[ids[0]]) then [] else Reached(env, jobs, ids[1..])
  }

  /** Attempts are made for reached jobs, as planned. */
  lemma {:induction false} TriesAreReached(env: Env, jobs: map<string, Job>, ids: seq<string>, now: int, e: Event)
    requires forall k :: k in ids ==> k in jobs && jobs[k].id == k
    requires e in TriesOfAll(env, jobs, ids, now)
    ensures e.Try? && e.job.id in Reached(env, jobs, ids) && e.job.id in jobs
    ensures e in TriesOf(env, jobs[e.job.id], now)
  {
    assert ids[0] in ids && forall k :: k in ids[1..] ==> k in ids;
    var block := TriesOf(env, jobs[ids[0]], now);
    if e in block {
      TriesOfBounds(env, jobs[ids[0]], now);
    } else {
      TriesAreReached(env, jobs, ids[1..], now, e);
    }
  }

  /** A job without attempts, or without a turn, stays as it is. */
  lemma LeftAlone(env: Env, st: State, id: string, now: int)
    requires Keyed(st) && id in st.jobs
    requires forall k :: k in Lex.Sorted(st.jobs.Keys) ==> k in st.jobs && st.jobs[k].id == k
    requires TriesOf(env, st.jobs[id], now) == [] || id !in Reached(env, st.jobs, Lex.Sorted(st.jobs.Keys))
    ensures var mid := Run(st, Agenda(env, st, now));
      Keyed(mid) && id in mid.jobs && mid.jobs[id] == st.jobs[id] && Whens(mid.log, id) == Whens(st.log, id)
  {
    var ids := Lex.Sorted(st.jobs.Keys);
    forall e | e in Agenda(env, st, now) ensures !Concerns(e, id) {
      if e in TriesOfAll(env, st.jobs, ids, now) { TriesAreReached(env, st.jobs, ids, now, e); }
    }
    OthersKeep(st, Agenda(env, st, now), id);
  }

  /** What an uncut pass leaves behind for a job that has its turn: the rest of the
      jobs leave it alone, so it is as after its own turn. */
  lemma {:induction false} FullPass(env: Env, st: State, jobs: map<string, Job>, ids: seq<string>, id: string,
                                    cal: Calendar, now: int)
    requires Keyed(st) && Distinct(ids) && forall k :: k in ids ==> k in jobs && jobs[k].id == k
    requires id in Reached(env, jobs, ids) && id in jobs && id in st.jobs && jobs[id] == st.jobs[id]
    requires Schedule(env, st.jobs[id].cron) == Some(cal) && Backfilled(env, st.jobs[id], cal)
    requires env.resolves(st.jobs[id])
    ensures var next := Run(st, TriesOfAll(env, jobs, ids, now));
      id in next.jobs && next.jobs[id] == LastOf(st.jobs[id], FirstMatches(cal, st.jobs[id].last, now))
    decreases |ids|
  {
    DistinctTail(ids);
    var j := jobs[ids[0]];
    var block := TriesOf(env, j, now);
    var rest := if Stops(env, j) then [] else TriesOfAll(env, jobs, ids[1..], now);
    assert TriesOfAll(env, jobs, ids, now) == block + rest;
    RunConcat(st, block, rest);
    RunKeepsKeyed(st, block);
    if ids[0] == id {
      OwnTurnLast(env, st, j, cal, now);
      TriesOfAllBounds(env, jobs, ids[1..], now);
      OthersKeep(Run(st, block), rest, id);
    } else {
      TriesOfBounds(env, j, now);
      OthersKeep(st, block, id);
      FullPass(env, Run(st, block), jobs, ids[1..], id, cal, now);
    }
  }

  lemma OwnTurnLast(env: Env, st: State, j: Job, cal: Calendar, now: int)
    requires Keyed(st) && j.id in st.jobs && st.jobs[j.id] == j && env.resolves(j)
    requires Schedule(env, j.cron) == Some(cal) && Backfilled(env, j, cal)
    ensures var next := Run(st, TriesOf(env, j, now));
      j.id in next.jobs && next.jobs[j.id] == LastOf(j, FirstMatches(cal, j.last, now))
  {
    RunTries(st, j, FirstMatches(cal, j.last, now));
  }

  function LastOf(j: Job, whens: seq<int>): Job {
    if whens == [] then j else j.(last := whens[|whens| - 1])
  }

  lemma NothingAfterLast(cal: Calendar, from: int, now: int)
    ensures var all := AllMatches(cal, from, now);
      all != [] && |all| <= MAX_MATCHES ==> AllMatches(cal, all[|all| - 1], now) == []
  {
    var all := AllMatches(cal, from, now);
    if all != [] {
      Resume(cal, from, now, |all| - 1);
      Split(cal, from, all[|all| - 1], now);
    }
  }

  lemma MoreAfterCap(cal: Calendar, from: int, now: int)
    requires |AllMatches(cal, from, now)| > MAX_MATCHES
    ensures AllMatches(cal, FirstMatches(cal, from, now)[MAX_MATCHES - 1], now) != []
  {
    var all := AllMatches(cal, from, now);
    var t := all[MAX_MATCHES - 1];
    Resume(cal, from, now, MAX_MATCHES - 1);
    Split(cal, from, t, now);
    assert |AllMatches(cal, from, t)| == MAX_MATCHES;
  }

  lemma NothingLeft(cal: Calendar, j: Job, now: int)
    ensures AllMatches(cal, LastOf(j, FirstMatches(cal, j.last, now)).last, now) == [] <==>
        |AllMatches(cal, j.last, now)| <= MAX_MATCHES
  {
    if |AllMatches(cal, j.last, now)| > MAX_MATCHES {
      MoreAfterCap(cal, j.last, now);
    } else {
      NothingAfterLast(cal, j.last, now);
    }
  }

  /** The job has its turn in a hydration: no malformed one comes before it. */
  ghost predicate HasTurn(env: Env, st: State, id: string) {
    id in Reached(env, st.jobs, Lex.Sorted(st.jobs.Keys))
  }

  lemma FullHydration(env: Env, st: State, id: string, cal: Calendar, now: int)
    requires Keyed(st) && id in st.jobs && HasTurn(env, st, id) && env.resolves(st.jobs[id])
    requires Schedule(env, st.jobs[id].cron) == Some(cal) && Backfilled(env, st.jobs[id], cal)
    ensures id in Run(st, Agenda(env, st, now)).jobs
    ensures Run(st, Agenda(env, st, now)).jobs[id] == LastOf(st.jobs[id], FirstMatches(cal, st.jobs[id].last, now))
  {
    var ids := Lex.Sorted(st.jobs.Keys);
    SortedIds(st);
    RunAppend(st, [], Prune(now));
    assert [] + [Prune(now)] == [Prune(now)];
    RunConcat(st, [Prune(now)], TriesOfAll(env, st.jobs, ids, now));
    FullPass(env, Run(st, [Prune(now)]), st.jobs, ids, id, cal, now);
  }

  /** An uncut hydration leaves nothing due behind exactly when nothing was due, or
      the job has a handler and its turn, and no more matches were missed than one
      pass reports. */
  lemma CatchesUp(env: Env, st: State, id: string, cal: Calendar, now: int)
    requires Keyed(st) && id in st.jobs
    requires Schedule(env, st.jobs[id].cron) == Some(cal) && Backfilled(env, st.jobs[id], cal)
    ensures var next, due := Run(st, Agenda(env, st, now)), AllMatches(cal, st.jobs[id].last, now);
      id in next.jobs && (AllMatches(cal, next.jobs[id].last, now) == [] <==>
        due == [] || (env.resolves(st.jobs[id]) && HasTurn(env, st, id) && |due| <= MAX_MATCHES))
  {
    SortedIds(st);
    if env.resolves(st.jobs[id]) && HasTurn(env, st, id) {
      FullHydration(env, st, id, cal, now);
      NothingLeft(cal, st.jobs[id], now);
    } else {
      LeftAlone(env, st, id, now);
    }
  }
}
