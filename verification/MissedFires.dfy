/** pkg/scheduler/persist.go: what the missed-fire policies come to. For each policy
    the missed instants are named one by one, and an uncut hydration is shown to do
    exactly that to the job, whatever the other jobs do. */
module MissedFires {
  import opened Options
  import opened Cron
  import opened CronMatches
  import opened Hydration
  import opened Backfill
  import opened OnceReplay
  import Lex

  // ------------------------------------------------------------ what was missed

  /** A whole minute the schedule matches, after the last fire (or within the last
      24 hours, if there was none) and not after `now`. */
  predicate MissedAt(env: Env, spec: Spec, j: Job, now: int, t: int) {
    && (if j.last == ZERO_TIME then now - 86_400_000_000_000 else j.last) < t <= now
    && t % 60_000_000_000 == 0 && Matches(spec, env.civil(t))
  }

  /** A job that catches up with one fire has one to catch up with. */
  ghost predicate OneIsDue(env: Env, j: Job, now: int) {
    if j.missed == "skip" || j.missed == "" then false
    else if j.cron == "" then j.runAt < now && j.last == ZERO_TIME
    else env.parse(j.cron).Some? && exists t :: MissedAt(env, env.parse(j.cron).value, j, now, t)
  }

  /** The first 10080 missed instants, in order. */
  ghost predicate FirstMissed(env: Env, spec: Spec, j: Job, now: int, whens: seq<int>) {
    && Ascends(whens) && |whens| <= 10080
    && (forall t :: t in whens ==> MissedAt(env, spec, j, now, t))
    && (forall t :: MissedAt(env, spec, j, now, t) ==> t in whens || (|whens| == 10080 && whens[10079] < t))
  }

  lemma MatchesAreMissed(env: Env, spec: Spec, j: Job, now: int)
    ensures var all := AllMatches(CalendarOf(env, spec), From(j, now), now);
      Ascends(all) && forall t :: t in all <==> MissedAt(env, spec, j, now, t)
  {
    AllMatchesExact(CalendarOf(env, spec), From(j, now), now);
  }

  lemma FirstMatchesAreMissed(env: Env, spec: Spec, j: Job, now: int)
    ensures var first := FirstMatches(CalendarOf(env, spec), From(j, now), now);
      FirstMissed(env, spec, j, now, first) && (first != [] <==> exists t :: MissedAt(env, spec, j, now, t))
  {
    var cal := CalendarOf(env, spec);
    var all, first := AllMatches(cal, From(j, now), now), FirstMatches(cal, From(j, now), now);
    MatchesAreMissed(env, spec, j, now);
    assert first <= all;
    assert all != [] ==> all[0] in all;
    forall t | t in first ensures MissedAt(env, spec, j, now, t) {
      assert t in all;
    }
    forall t | MissedAt(env, spec, j, now, t) ensures t in first || (|first| == 10080 && first[10079] < t) {
      var i :| 0 <= i < |all| && all[i] == t;
      assert i < |first| ==> first[i] == t;
    }
  }

  // ---------------------------------------------------------------- the attempts

  /** One attempt, now, exactly if there is something to catch up with. */
  lemma OnceIsTriedOnce(env: Env, j: Job, now: int)
    requires env.resolves(j) && Single(j)
    ensures OneIsDue(env, j, now) ==> TriesOf(env, j, now) == [Try(j, now)]
    ensures !OneIsDue(env, j, now) ==> TriesOf(env, j, now) == []
  {
    if j.missed == "once" && j.cron != "" && env.parse(j.cron).Some? {
      FirstMatchesAreMissed(env, env.parse(j.cron).value, j, now);
    }
    var tries := TriesOf(env, j, now);
    assert |tries| == 1 ==> tries == [tries[0]];
  }

  /** An attempt for each of the first missed instants, in order. */
  lemma BackfillIsTriedEach(env: Env, j: Job, spec: Spec, now: int) returns (whens: seq<int>)
    requires env.resolves(j) && j.missed == "backfill" && j.cron != "" && env.parse(j.cron) == Some(spec)
    ensures FirstMissed(env, spec, j, now, whens) && TriesOf(env, j, now) == Tries(j, whens)
  {
    whens := FirstMatches(CalendarOf(env, spec), From(j, now), now);
    FirstMatchesAreMissed(env, spec, j, now);
  }

  /** Nothing is attempted without a handler, nor under a policy that skips, nor
      for a cron job under a policy of another name. */
  lemma OthersAreNotTried(env: Env, j: Job, now: int)
    requires !env.resolves(j) || j.missed in {"skip", ""} || (j.cron != "" && j.missed !in {"once", "backfill"})
    ensures TriesOf(env, j, now) == []
  {
  }

  // ------------------------------------------------------------ the job's own turn

  /** Its position in the order of a hydration. */
  lemma TurnOf(st: State, id: string) returns (k: nat)
    requires Keyed(st) && id in st.jobs
    ensures k < |Lex.Sorted(st.jobs.Keys)| && Lex.Sorted(st.jobs.Keys)[k] == id
  {
    SortedIds(st);
    k :| 0 <= k < |Lex.Sorted(st.jobs.Keys)| && Lex.Sorted(st.jobs.Keys)[k] == id;
  }

  ghost predicate NoneStops(env: Env, jobs: map<string, Job>, ids: seq<string>, k: nat)
    requires k <= |ids|
  {
    forall i :: 0 <= i < k ==> ids[i] in jobs && !Stops(env, jobs[ids[i]])
  }

  lemma NoneStopsTail(env: Env, jobs: map<string, Job>, ids: seq<string>, k: nat)
    requires 0 < k <= |ids| && ids[0] in jobs
    ensures NoneStops(env, jobs, ids, k) <==> !Stops(env, jobs[ids[0]]) && NoneStops(env, jobs, ids[1..], k - 1)
  {
    if !Stops(env, jobs[ids[0]]) && NoneStops(env, jobs, ids[1..], k - 1) {
      assert forall i :: 0 < i < k ==> ids[i] == ids[1..][i - 1];
    }
    if NoneStops(env, jobs, ids, k) {
      assert forall i :: 0 <= i < k - 1 ==> ids[1..][i] == ids[i + 1];
    }
  }

  lemma {:induction false} ReachedUnlessStopped(env: Env, jobs: map<string, Job>, ids: seq<string>, k: nat)
    requires k < |ids| && Distinct(ids) && forall id :: id in ids ==> id in jobs
    ensures ids[k] in Reached(env, jobs, ids) <==> NoneStops(env, jobs, ids, k)
  {
    DistinctTail(ids);
    if k > 0 {
      assert ids[1..][k - 1] == ids[k] && ids[k] != ids[0];
      ReachedUnlessStopped(env, jobs, ids[1..], k - 1);
      NoneStopsTail(env, jobs, ids, k);
    }
  }

  predicate Parses(env: Env, j: Job) {
    j.cron == "" || env.parse(j.cron).Some?
  }

  lemma NoneStopsBefore(env: Env, jobs: map<string, Job>, ids: seq<string>, k: nat)
    requires k < |ids| && Lex.Ascending(ids) && forall id :: id in ids <==> id in jobs
    ensures NoneStops(env, jobs, ids, k) <==>
            forall o :: o in jobs && Lex.Less(o, ids[k]) ==> !env.resolves(jobs[o]) || Parses(env, jobs[o])
  {
    forall i | 0 <= i < |ids| ensures ids[i] in jobs && (Lex.Less(ids[i], ids[k]) <==> i < k) {
      if i < k {
        assert Lex.Less(ids[i], ids[k]);
      } else if Lex.Less(ids[i], ids[k]) {
        Lex.Asymmetric(ids[i], ids[k]);
      }
    }
    forall o | o in jobs && Lex.Less(o, ids[k]) ensures exists i :: 0 <= i < k && ids[i] == o {
      assert o in ids;
    }
  }

  /** The job has its turn exactly when no job with a smaller id has a handler and a
      cron text that does not parse. */
  lemma TurnIsExact(env: Env, st: State, id: string)
    requires Keyed(st) && id in st.jobs
    ensures HasTurn(env, st, id) <==>
            forall o :: o in st.jobs && Lex.Less(o, id) ==> !env.resolves(st.jobs[o]) || Parses(env, st.jobs[o])
  {
    var ids := Lex.Sorted(st.jobs.Keys);
    var k := TurnOf(st, id);
    SortedIds(st);
    ReachedUnlessStopped(env, st.jobs, ids, k);
    NoneStopsBefore(env, st.jobs, ids, k);
  }

  /** The attempts of a pass: those before the k-th job, its own, and those behind. */
  lemma {:induction false} TriesSplit(env: Env, jobs: map<string, Job>, ids: seq<string>, now: int, k: nat)
    requires k < |ids| && forall id :: id in ids ==> id in jobs
    requires NoneStops(env, jobs, ids, k)
    ensures ids[k] in ids && (forall id :: id in ids[..k] ==> id in jobs)
    ensures TriesOfAll(env, jobs, ids, now) ==
        TriesOfAll(env, jobs, ids[..k], now) + (TriesOf(env, jobs[ids[k]], now) + After(env, jobs, ids[k..], now))
  {
    assert ids[k] in ids && forall id :: id in ids[..k] ==> id in ids;
    if k == 0 {
      assert ids[..0] == [] && ids[0..] == ids;
    } else {
      var tail, block := ids[1..], TriesOf(env, jobs[ids[0]], now);
      assert tail[k - 1] == ids[k] && tail[k - 1..] == ids[k..] && tail[..k - 1] == ids[..k][1..];
      NoneStopsTail(env, jobs, ids, k);
      TriesSplit(env, jobs, tail, now, k - 1);
      assert ids[..k][0] == ids[0];
      Regroup(block, TriesOfAll(env, jobs, tail[..k - 1], now),
              TriesOf(env, jobs[ids[k]], now) + After(env, jobs, ids[k..], now));
    }
  }

  lemma Regroup(a: seq<Event>, b: seq<Event>, c: seq<Event>)
    ensures a + (b + c) == a + b + c
  {
  }

  /** The state in which the k-th job of a hydration has its turn. */
  function AtTurn(env: Env, st: State, now: int, k: nat): State
    requires k <= |Lex.Sorted(st.jobs.Keys)|
  {
    var ids := Lex.Sorted(st.jobs.Keys);
    Run(Run(st, [Prune(now)]), TriesOfAll(env, st.jobs, ids[..k], now))
  }

  ghost predicate SameFor(id: string, a: State, b: State) {
    && id in a.jobs && id in b.jobs && a.jobs[id] == b.jobs[id]
    && Whens(a.log, id) == Whens(b.log, id)
  }

  /** Up to its turn the others leave the job alone, and so they do behind it. */
  lemma OwnTurnDecides(env: Env, st: State, id: string, now: int, k: nat)
    requires Keyed(st) && HasTurn(env, st, id) && id in st.jobs
    requires k < |Lex.Sorted(st.jobs.Keys)| && Lex.Sorted(st.jobs.Keys)[k] == id
    ensures SameFor(id, AtTurn(env, st, now, k), st)
    ensures SameFor(id, Run(st, Agenda(env, st, now)), Run(AtTurn(env, st, now, k), TriesOf(env, st.jobs[id], now)))
  {
    var ids, pruned, at := Lex.Sorted(st.jobs.Keys), Run(st, [Prune(now)]), AtTurn(env, st, now, k);
    SortedIds(st);
    AgendaRuns(env, st, now);
    ReachedUnlessStopped(env, st.jobs, ids, k);
    TriesSplit(env, st.jobs, ids, now, k);
    var block, rest := TriesOf(env, st.jobs[id], now), After(env, st.jobs, ids[k..], now);
    RunConcat(pruned, TriesOfAll(env, st.jobs, ids[..k], now), block + rest);
    RunConcat(at, block, rest);
    NotBefore(env, st, pruned, id, now, k);
    RunKeepsKeyed(at, block);
    TurnKeepsJob(env, at, st.jobs[id], now);
    NotBehind(env, st.jobs, ids, Run(at, block), now, k);
  }

  lemma NotBefore(env: Env, st: State, from: State, id: string, now: int, k: nat)
    requires Keyed(st) && Keyed(from) && id in from.jobs
    requires k < |Lex.Sorted(st.jobs.Keys)| && Lex.Sorted(st.jobs.Keys)[k] == id
    ensures var next := Run(from, TriesOfAll(env, st.jobs, Lex.Sorted(st.jobs.Keys)[..k], now));
      Keyed(next) && SameFor(id, next, from)
  {
    var ids := Lex.Sorted(st.jobs.Keys);
    SortedIds(st);
    assert forall i :: i in ids[..k] ==> i in ids && i != id;
    TriesOfAllBounds(env, st.jobs, ids[..k], now);
    OthersKeep(from, TriesOfAll(env, st.jobs, ids[..k], now), id);
  }

  lemma NotBehind(env: Env, jobs: map<string, Job>, ids: seq<string>, from: State, now: int, k: nat)
    requires Keyed(from) && k < |ids| && ids[k] in from.jobs && Distinct(ids)
    requires (forall i :: i in ids ==> i in jobs && jobs[i].id == i) && forall i :: i in ids[k..] ==> i in jobs
    ensures SameFor(ids[k], Run(from, After(env, jobs, ids[k..], now)), from)
  {
    assert ids[k] !in ids[k..][1..];
    AfterBounds(env, jobs, ids[k..], now, ids[k]);
    OthersKeep(from, After(env, jobs, ids[k..], now), ids[k]);
  }

  lemma AfterBounds(env: Env, jobs: map<string, Job>, ids: seq<string>, now: int, id: string)
    requires ids != [] && (forall i :: i in ids ==> i in jobs && jobs[i].id == i) && id !in ids[1..]
    ensures forall e :: e in After(env, jobs, ids, now) ==> !Concerns(e, id)
  {
    TriesOfAllBounds(env, jobs, ids[1..], now);
  }

  lemma TurnKeepsJob(env: Env, st: State, j: Job, now: int)
    requires j.id in st.jobs
    ensures j.id in Run(st, TriesOf(env, j, now)).jobs
  {
    StillThere(st, TriesOf(env, j, now), j.id);
  }

  lemma {:induction false} StillThere(st: State, events: seq<Event>, id: string)
    requires id in st.jobs
    ensures id in Run(st, events).jobs
    decreases |events|
  {
    if events != [] { StillThere(st, events[..|events| - 1], id); }
  }

  // ------------------------------------------------------------- whole hydrations

  /** The job is fired once more, for this time. */
  ghost predicate FiredAt(id: string, before: State, after: State, when: int) {
    && id in before.jobs && id in after.jobs && after.jobs[id] == before.jobs[id].(last := when)
    && Whens(after.log, id) == Whens(before.log, id) + [when]
  }

  lemma OneTryFires(st: State, j: Job, now: int)
    requires j.id in st.jobs && st.jobs[j.id] == j
    ensures Suppressed(st, j.key, now) ==> SameFor(j.id, Run(st, [Try(j, now)]), st)
    ensures !Suppressed(st, j.key, now) ==> FiredAt(j.id, st, Run(st, [Try(j, now)]), now)
  {
    RunAppend(st, [], Try(j, now));
    assert [] + [Try(j, now)] == [Try(j, now)];
    WhensAppend(st.log, Fired(j.id, j.key, now), j.id);
  }

  /** An uncut hydration fires a `once` or one-shot job for `now`, and records it as
      its last fire, exactly if it has a handler and its turn, there is something to
      catch up with, and no fire of its key within the window stands against it. */
  lemma OnceIsFired(env: Env, st: State, id: string, now: int, k: nat)
    requires Keyed(st) && id in st.jobs && Single(st.jobs[id])
    requires k < |Lex.Sorted(st.jobs.Keys)| && Lex.Sorted(st.jobs.Keys)[k] == id
    ensures var j, next := st.jobs[id], Run(st, Agenda(env, st, now));
      if env.resolves(j) && HasTurn(env, st, id) && OneIsDue(env, j, now)
         && !Suppressed(AtTurn(env, st, now, k), j.key, now)
      then FiredAt(id, st, next, now) else SameFor(id, next, st)
  {
    var j := st.jobs[id];
    SortedIds(st);
    if env.resolves(j) && HasTurn(env, st, id) {
      OwnTurnDecides(env, st, id, now, k);
      OnceIsTriedOnce(env, j, now);
      if OneIsDue(env, j, now) {
        OneTryFires(AtTurn(env, st, now, k), j, now);
      }
    } else {
      LeftAlone(env, st, id, now);
    }
  }

  /** Without a key nothing stands against it. */
  lemma KeylessOnceIsFired(env: Env, st: State, id: string, now: int)
    requires Keyed(st) && id in st.jobs && Single(st.jobs[id]) && st.jobs[id].key == ""
    ensures var j, next := st.jobs[id], Run(st, Agenda(env, st, now));
      if env.resolves(j) && HasTurn(env, st, id) && OneIsDue(env, j, now)
      then FiredAt(id, st, next, now) else SameFor(id, next, st)
  {
    var k := TurnOf(st, id);
    OnceIsFired(env, st, id, now, k);
  }

  /** A keyless `backfill` job with a handler and its turn is fired for each of the
      first missed instants, in order, also when it never fired before. */
  lemma BackfillIsFired(env: Env, st: State, id: string, spec: Spec, now: int) returns (whens: seq<int>)
    requires Keyed(st) && id in st.jobs && env.resolves(st.jobs[id]) && HasTurn(env, st, id)
    requires st.jobs[id].missed == "backfill" && st.jobs[id].cron != "" && st.jobs[id].key == ""
    requires env.parse(st.jobs[id].cron) == Some(spec)
    ensures FirstMissed(env, spec, st.jobs[id], now, whens)
    ensures var next := Run(st, Agenda(env, st, now));
      && id in next.jobs && next.jobs[id] == LastOf(st.jobs[id], whens)
      && Whens(next.log, id) == Whens(st.log, id) + whens
  {
    var j := st.jobs[id];
    var k := TurnOf(st, id);
    whens := BackfillIsTriedEach(env, j, spec, now);
    OwnTurnDecides(env, st, id, now, k);
    var at := AtTurn(env, st, now, k);
    RunTries(at, j, whens);
    WhensOfFireds(at.log, j, whens);
  }

  /** A job whose policy skips, or whose handler is gone, is left as it was. */
  lemma SkippedIsLeft(env: Env, st: State, id: string, now: int)
    requires Keyed(st) && id in st.jobs
    requires !env.resolves(st.jobs[id]) || st.jobs[id].missed in {"skip", ""}
             || (st.jobs[id].cron != "" && st.jobs[id].missed !in {"once", "backfill"})
    ensures SameFor(id, Run(st, Agenda(env, st, now)), st)
  {
    SortedIds(st);
    OthersAreNotTried(env, st.jobs[id], now);
    LeftAlone(env, st, id, now);
  }
}
