/** pkg/scheduler: the time wheel, and the loader that hydrates it from the
    store. `log` records every callback made, in order. */
module Scheduler {
  import opened Options
  import opened Cron
  import opened CronMatches
  import opened Hydration
  import opened Backfill
  import Lex

  // -------------------------------------------------------------- the time wheel

  /** A job in the wheel, its cron text parsed; a one-shot job has none. */
  datatype Armed = Armed(job: Job, cron: Option<Spec>, fired: bool)

  datatype Added = Ok | EmptyJob | BadCron

  predicate Due(env: Env, a: Armed, now: int) {
    match a.cron
    case None => !a.fired && now >= a.job.runAt
    case Some(spec) => Matches(spec, env.civil(now))
  }

  function Marked(a: Armed, now: int): Armed {
    if a.cron.None? && now >= a.job.runAt then a.(fired := true) else a
  }

  /** A job in the wheel after some ticks. */
  function Ticked(a: Armed, ticks: seq<int>): Armed {
    if ticks == [] then a else Marked(Ticked(a, ticks[..|ticks| - 1]), ticks[|ticks| - 1])
  }

  lemma {:induction false} TickedKeeps(a: Armed, ticks: seq<int>)
    ensures Ticked(a, ticks).job == a.job && Ticked(a, ticks).cron == a.cron
    ensures a.cron.None? ==>
              (Ticked(a, ticks).fired <==> a.fired || exists i :: 0 <= i < |ticks| && ticks[i] >= a.job.runAt)
  {
    if ticks != [] {
      TickedKeeps(a, ticks[..|ticks| - 1]);
    }
  }

  /** Over any run of ticks, at whatever times, a one-shot job just added is started
      by exactly the first tick that is not before its time; a cron job by every
      tick at which its schedule matches. */
  lemma StartedByTick(env: Env, j: Job, ticks: seq<int>, k: nat)
    requires k < |ticks| && (j.cron != "" ==> env.parse(j.cron).Some?)
    ensures Due(env, Ticked(Arm(env, j), ticks[..k]), ticks[k]) <==>
            if j.cron == "" then ticks[k] >= j.runAt && forall i :: 0 <= i < k ==> ticks[i] < j.runAt
            else Matches(env.parse(j.cron).value, env.civil(ticks[k]))
  {
    TickedKeeps(Arm(env, j), ticks[..k]);
  }

  /** How adding a job comes out. */
  function Addable(env: Env, j: Job): Added {
    if j.cron == "" && j.runAt == ZERO_TIME then EmptyJob
    else if Malformed(env, j) then BadCron
    else Ok
  }

  function Arm(env: Env, j: Job): Armed {
    Armed(j, if j.cron == "" then None else env.parse(j.cron), false)
  }

  class TimeWheel {
    const env: Env
    var jobs: map<string, Armed>

    constructor (env: Env)
      ensures this.env == env && jobs == map[]
    {
      this.env := env;
      jobs := map[];
    }

    method Add(j: Job) returns (r: Added)
      modifies this
      ensures r == Addable(env, j)
      ensures jobs == if r == Ok then old(jobs)[j.id := Arm(env, j)] else old(jobs)
    {
      if j.cron == "" && j.runAt == ZERO_TIME {
        return EmptyJob;
      }
      var cron := None;
      if j.cron != "" {
        cron := env.parse(j.cron);
        if cron.None? {
          return BadCron;
        }
      }
      jobs := jobs[j.id := Armed(j, cron, false)];
      return Ok;
    }

    method Cancel(id: string)
      modifies this
      ensures jobs == old(jobs) - {id}
    {
      jobs := jobs - {id};
    }

    /** The jobs whose callbacks one tick starts. A one-shot job is among them at
        the first tick that is not before its time, and never again until it is
        added anew. */
    method Tick(now: int) returns (pending: set<string>)
      modifies this
      ensures forall id :: id in pending <==> id in old(jobs) && Due(env, old(jobs)[id], now)
      ensures jobs.Keys == old(jobs).Keys
      ensures forall id :: id in jobs ==> jobs[id] == Marked(old(jobs)[id], now)
      ensures forall id, later :: id in pending && jobs[id].cron.None? ==> !Due(env, jobs[id], later)
    {
      pending := {};
      var rest := jobs.Keys;
      while rest != {}
        invariant rest <= jobs.Keys == old(jobs).Keys
        invariant forall id :: id in pending <==> id in old(jobs) && id !in rest && Due(env, old(jobs)[id], now)
        invariant forall id :: id in jobs ==>
            jobs[id] == if id in rest then old(jobs)[id] else Marked(old(jobs)[id], now)
        decreases rest
      {
        var id :| id in rest;
        rest := rest - {id};
        var a := jobs[id];
        if a.cron.None? {
          if !a.fired && now >= a.job.runAt {
            jobs := jobs[id := a.(fired := true)];
            pending := pending + {id};
          }
        } else if Matches(a.cron.value, env.civil(now)) {
          pending := pending + {id};
        }
      }
    }
  }

  // ------------------------------------------------------------------- the store

  datatype Outcome = Done | Cancelled | Failed

  /** The policy left empty means skip. */
  function Defaulted(p: Job): Job {
    if p.missed == "" then p.(missed := "skip") else p
  }

  lemma DefaultedPlan(env: Env, p: Job, now: int)
    ensures Plan(env, Defaulted(p), now) == Plan(env, p, now)
    ensures Plan(env, p, now) != Some([]) ==> Defaulted(p) == p
    ensures Plan(env, p, now).None? ==> Malformed(env, p)
  {
  }

  /** Where a turn or a pass leaves the store, how it ended, and how many pauses
      the context still allows. */
  datatype Turned = Turned(st: State, outcome: Outcome, left: nat)

  /** Attempts one after the other, with a pause between any two; the context is
      cancelled at the pause behind the last one it allows. */
  function FireInTurn(st: State, j: Job, whens: seq<int>, pauses: nat): Turned {
    if |whens| <= pauses + 1 then
      Turned(Run(st, Tries(j, whens)), Done, if whens == [] then pauses else pauses + 1 - |whens|)
    else
      Turned(Run(st, Tries(j, whens[..pauses + 1])), Cancelled, 0)
  }

  function Turn(env: Env, st: State, p: Job, now: int, pauses: nat): Turned {
    if !env.resolves(p) then Turned(st, Done, pauses)
    else if Malformed(env, p) || Plan(env, p, now).None? then Turned(st, Failed, pauses)
    else FireInTurn(st, p, Plan(env, p, now).value, pauses)
  }

  /** Turn after turn until one does not end well. */
  function Pass(env: Env, st: State, jobs: map<string, Job>, ids: seq<string>, now: int, pauses: nat): Turned
    requires forall id :: id in ids ==> id in jobs
    decreases |ids|
  {
    if ids == [] then Turned(st, Done, pauses)
    else
      assert ids[0] in ids;
      var t := Turn(env, st, jobs[ids[0]], now, pauses);
      if t.outcome != Done then t else Pass(env, t.st, jobs, ids[1..], now, t.left)
  }

  /** One hydration of the whole store. */
  function LoadedAt(env: Env, st: State, now: int, pauses: nat): Turned {
    Pass(env, Step(st, Prune(now)), st.jobs, Lex.Sorted(st.jobs.Keys), now, pauses)
  }

  class Loader {
    const env: Env
    var jobs: map<string, Job>
    var stamps: Stamps
    ghost var log: seq<Fired>

    constructor (env: Env)
      ensures this.env == env && View() == State(map[], map[], [])
    {
      this.env := env;
      jobs, stamps, log := map[], map[], [];
    }

    ghost function View(): State
      reads this
    {
      State(jobs, stamps, log)
    }

    method SavePersistent(j: Job, policy: string)
      modifies this`jobs
      ensures jobs == old(jobs)[j.id := Defaulted(j.(missed := policy))]
    {
      jobs := jobs[j.id := j.(missed := if policy == "" then "skip" else policy)];
    }

    method DeletePersistent(id: string)
      modifies this`jobs
      ensures jobs == old(jobs) - {id}
    {
      jobs := jobs - {id};
    }

    method DedupSeen(key: string, now: int) returns (dup: bool)
      ensures dup == Seen(stamps, key, now)
    {
      if key !in stamps {
        return false;
      }
      match stamps[key] {
        case Garbage => return false;
        case At(last) => return now - last < DEDUP_WINDOW;
      }
    }

    method DedupRecord(key: string, when: int)
      modifies this`stamps
      ensures stamps == old(stamps)[key := At(when)]
    {
      stamps := stamps[key := At(when)];
    }

    method PruneDedup(now: int)
      modifies this`stamps
      ensures View() == Step(old(View()), Prune(now))
    {
      var cutoff := now - DEDUP_WINDOW;
      var rest := stamps.Keys;
      while rest != {}
        invariant rest <= stamps.Keys && stamps.Keys <= old(stamps).Keys
        invariant forall k :: k in stamps ==> stamps[k] == old(stamps)[k]
        invariant forall k :: k in old(stamps) && k !in rest ==> (k in stamps <==> k in Pruned(old(stamps), now))
        decreases rest
      {
        var k :| k in rest;
        rest := rest - {k};
        match stamps[k] {
          case Garbage =>
          case At(t) =>
            if t < cutoff {
              stamps := stamps - {k};
            }
        }
      }
      assert stamps == Pruned(old(stamps), now);
    }

    method TryFire(j: Job, when: int)
      modifies this
      ensures View() == Step(old(View()), Try(j, when))
    {
      if j.key != "" {
        var dup := DedupSeen(j.key, when);
        if dup {
          return;
        }
      }
      log := log + [Fired(j.id, j.key, when)];
      if j.key != "" {
        DedupRecord(j.key, when);
      }
      jobs := jobs[j.id := j.(last := when)];
    }

    /** The callback the wheel is given: a live fire at `now`. */
    method LiveFire(j: Job, now: int)
      modifies this
      ensures View() == Step(old(View()), Live(j, now))
    {
      if j.key == "" {
        log := log + [Fired(j.id, j.key, now)];
        return;
      }
      var dup := DedupSeen(j.key, now);
      if dup {
        return;
      }
      log := log + [Fired(j.id, j.key, now)];
      DedupRecord(j.key, now);
    }

    /** Fires one after the other. `pauses` is how many of the waits in between
        pass before the context is cancelled. */
    method FireEach(j: Job, matches: seq<int>, pauses: nat) returns (ok: bool, left: nat)
      modifies this
      ensures Turned(View(), if ok then Done else Cancelled, left) == FireInTurn(old(View()), j, matches, pauses)
    {
      left := pauses;
      for i := 0 to |matches|
        invariant left + (if i == 0 then 0 else if i == |matches| then i - 1 else i) == pauses
        invariant i < |matches| ==> i <= pauses
        invariant View() == Run(old(View()), Tries(j, matches[..i]))
      {
        TryFire(j, matches[i]);
        RunAppend(old(View()), Tries(j, matches[..i]), Try(j, matches[i]));
        assert Tries(j, matches[..i + 1]) == Tries(j, matches[..i]) + [Try(j, matches[i])];
        if i < |matches| - 1 {
          if left == 0 {
            return false, left;
          }
          left := left - 1;
        }
      }
      assert matches[..|matches|] == matches;
      return true, left;
    }

    /** What one job missed is made up for, as its policy says. */
    method ApplyMissedFire(j: Job, now: int, pauses: nat) returns (r: Outcome, left: nat)
      modifies this
      ensures Turned(View(), r, left) ==
        if Plan(env, j, now).None? then Turned(old(View()), Failed, pauses)
        else FireInTurn(old(View()), j, Plan(env, j, now).value, pauses)
    {
      NoTries(View(), j, pauses);
      OneTry(View(), j, now, pauses);
      if j.missed == "skip" || j.missed == "" {
        return Done, pauses;
      }
      if j.cron == "" {
        if j.runAt < now && j.last == ZERO_TIME {
          TryFire(j, now);
        }
        return Done, pauses;
      }
      var spec := env.parse(j.cron);
      if spec.None? {
        return Failed, pauses;
      }
      var cal := CalendarOf(env, spec.value);
      if j.missed == "once" {
        var from := j.last;
        if from == ZERO_TIME { from := now - DEDUP_WINDOW; }
        var matches := CronMatchesBetween(cal, from, now);
        if |matches| > 0 {
          TryFire(j, now);
        }
        return Done, pauses;
      } else if j.missed == "backfill" {
        var from := j.last;
        if from == ZERO_TIME { from := now - DEDUP_WINDOW; }
        var matches := CronMatchesBetween(cal, from, now);
        var ok;
        ok, left := FireEach(j, matches, pauses);
        return (if ok then Done else Cancelled), left;
      }
      return Done, pauses;
    }

    /** One persisted job: its missed fires first, then the wheel. */
    method HydrateJob(p: Job, tw: TimeWheel, now: int, pauses: nat) returns (r: Outcome, left: nat)
      requires tw.env == env
      modifies this, tw
      ensures Turned(View(), r, left) == Turn(env, old(View()), p, now, pauses)
      ensures tw.jobs == if r == Done then WithJob(env, old(tw.jobs), p) else old(tw.jobs)
    {
      if !env.resolves(p) {
        return Done, pauses;
      }
      var j := if p.missed == "" then p.(missed := "skip") else p;
      DefaultedPlan(env, p, now);
      NoTries(View(), p, pauses);
      NoTries(View(), j, pauses);
      r, left := ApplyMissedFire(j, now, pauses);
      if r != Done {
        return;
      }
      var added := tw.Add(j);
      if added == BadCron {
        return Failed, left;
      }
      return Done, left;
    }

    /** Hydrates every job of the store, in the order of their keys. `turns` counts
        the jobs whose turn ended well. */
    method LoadFromStore(tw: TimeWheel, now: int, clock: int, pauses: nat)
      returns (r: Outcome, left: nat, ghost turns: nat)
      requires tw.env == env && Keyed(View())
      modifies this, tw
      ensures Loaded(env, old(View()), if now == ZERO_TIME then clock else now, pauses, old(tw.jobs),
                     Turned(View(), r, left), turns, tw.jobs)
    {
      var at := if now == ZERO_TIME then clock else now;
      ghost var was, wheel := View(), tw.jobs;
      PruneDedup(at);
      var persisted := jobs;
      var ids := Lex.Sorted(persisted.Keys);
      left := pauses;
      GoingStart(env, was, at, pauses, wheel);
      for i := 0 to |ids|
        invariant Going(env, was, at, pauses, wheel, i, View(), left, tw.jobs)
      {
        ghost var before, allowed, armed := View(), left, tw.jobs;
        r, left := HydrateJob(persisted[ids[i]], tw, at, left);
        GoingNext(env, was, at, pauses, wheel, i, before, allowed, armed);
        if r != Done {
          return r, left, i;
        }
      }
      GoingEnd(env, was, at, pauses, wheel, View(), left, tw.jobs);
      return Done, left, |ids|;
    }
  }

  /** What a hydration leaves: the store as the pure pass does, and the wheel as the
      first `turns` jobs have armed it. It ends well exactly after all jobs, and
      fails only at one whose cron text does not parse. */
  ghost predicate Loaded(env: Env, was: State, at: int, pauses: nat, wheel: Wheel, t: Turned, turns: nat, now: Wheel) {
    && t == LoadedAt(env, was, at, pauses) && WheelIs(env, wheel, was.jobs, turns, now)
    && (t.outcome == Done <==> turns == |was.jobs|)
    && (t.outcome == Failed ==> turns < |was.jobs| && FailsAt(env, was.jobs, turns))
  }

  /** In front of the i-th job: what is left to do leads to the same end, and the
      wheel holds what the jobs so far have put there. */
  ghost predicate Going(env: Env, was: State, at: int, pauses: nat, wheel: Wheel, i: nat, st: State, left: nat,
                        now: Wheel) {
    var ids := Lex.Sorted(was.jobs.Keys);
    && i <= |ids| == |was.jobs| && (forall k :: 0 <= k < |ids| ==> ids[k] in was.jobs)
    && LoadedAt(env, was, at, pauses) == Pass(env, st, was.jobs, ids[i..], at, left)
    && WheelIs(env, wheel, was.jobs, i, now)
  }

  lemma GoingStart(env: Env, was: State, at: int, pauses: nat, wheel: Wheel)
    ensures Going(env, was, at, pauses, wheel, 0, Step(was, Prune(at)), pauses, wheel)
  {
    var ids := Lex.Sorted(was.jobs.Keys);
    assert |was.jobs.Keys| == |was.jobs|;
    assert ids[0..] == ids && ids[..0] == [];
    assert forall k :: 0 <= k < |ids| ==> ids[k] in ids;
  }

  lemma WheelNext(env: Env, wheel: Wheel, jobs: map<string, Job>, i: nat, now: Wheel)
    requires i < |Lex.Sorted(jobs.Keys)| && Lex.Sorted(jobs.Keys)[i] in jobs && WheelIs(env, wheel, jobs, i, now)
    ensures WheelIs(env, wheel, jobs, i + 1, WithJob(env, now, jobs[Lex.Sorted(jobs.Keys)[i]]))
  {
    WheelGrows(env, wheel, jobs, Lex.Sorted(jobs.Keys), i);
  }

  lemma WheelGrows(env: Env, wheel: Wheel, jobs: map<string, Job>, ids: seq<string>, i: nat)
    requires i < |ids| && forall id :: id in ids ==> id in jobs
    ensures ids[i] in jobs
    ensures WheelAfter(env, wheel, jobs, ids[..i + 1]) ==
            WithJob(env, WheelAfter(env, wheel, jobs, ids[..i]), jobs[ids[i]])
  {
    assert ids[i] in ids && ids[..i + 1] == ids[..i] + [ids[i]];
    WheelAppend(env, wheel, jobs, ids[..i], ids[i]);
  }

  lemma PassNext(env: Env, st: State, jobs: map<string, Job>, ids: seq<string>, i: nat, at: int, left: nat)
    requires i < |ids| && forall id :: id in ids ==> id in jobs
    ensures ids[i] in jobs
    ensures var t := Turn(env, st, jobs[ids[i]], at, left);
      Pass(env, st, jobs, ids[i..], at, left) ==
      if t.outcome != Done then t else Pass(env, t.st, jobs, ids[i + 1..], at, t.left)
  {
    var rest := ids[i..];
    assert rest[0] == ids[i] && rest[1..] == ids[i + 1..];
    PassHead(env, st, jobs, rest, at, left);
  }

  lemma GoingNext(env: Env, was: State, at: int, pauses: nat, wheel: Wheel, i: nat, st: State, left: nat, now: Wheel)
    requires Going(env, was, at, pauses, wheel, i, st, left, now) && i < |was.jobs|
    ensures Lex.Sorted(was.jobs.Keys)[i] in was.jobs
    ensures var p := was.jobs[Lex.Sorted(was.jobs.Keys)[i]]; var t := Turn(env, st, p, at, left);
      if t.outcome == Done then Going(env, was, at, pauses, wheel, i + 1, t.st, t.left, WithJob(env, now, p))
      else Loaded(env, was, at, pauses, wheel, t, i, now)
  {
    var ids := Lex.Sorted(was.jobs.Keys);
    var n := TurnIsPrefix(env, st, was.jobs[ids[i]], at, left);
    PassNext(env, st, was.jobs, ids, i, at, left);
    WheelNext(env, wheel, was.jobs, i, now);
  }

  lemma GoingEnd(env: Env, was: State, at: int, pauses: nat, wheel: Wheel, st: State, left: nat, now: Wheel)
    requires Going(env, was, at, pauses, wheel, |was.jobs|, st, left, now)
    ensures Loaded(env, was, at, pauses, wheel, Turned(st, Done, left), |was.jobs|, now)
  {
    var ids := Lex.Sorted(was.jobs.Keys);
    assert ids[|ids|..] == [];
  }

  // -------------------------------------------------------- the wheel afterwards

  type Wheel = map<string, Armed>

  /** A job whose turn ended well is armed, unless it is empty or without a handler. */
  function WithJob(env: Env, wheel: Wheel, p: Job): Wheel {
    if env.resolves(p) && Addable(env, p) == Ok then wheel[p.id := Arm(env, Defaulted(p))] else wheel
  }

  function WheelAfter(env: Env, wheel: Wheel, jobs: map<string, Job>, ids: seq<string>): Wheel
    requires forall id :: id in ids ==> id in jobs
  {
    if ids == [] then wheel
    else WithJob(env, WheelAfter(env, wheel, jobs, ids[..|ids| - 1]), jobs[ids[|ids| - 1]])
  }

  ghost predicate WheelIs(env: Env, wheel: Wheel, jobs: map<string, Job>, turns: nat, after: Wheel) {
    turns <= |Lex.Sorted(jobs.Keys)| && after == WheelAfter(env, wheel, jobs, Lex.Sorted(jobs.Keys)[..turns])
  }

  /** The job that is next after some turns has a cron text that does not parse. */
  ghost predicate FailsAt(env: Env, jobs: map<string, Job>, turns: nat)
    requires turns < |jobs|
  {
    var id := Lex.Sorted(jobs.Keys)[turns];
    id in jobs && env.resolves(jobs[id]) && Malformed(env, jobs[id])
  }

  lemma WheelAppend(env: Env, wheel: Wheel, jobs: map<string, Job>, ids: seq<string>, id: string)
    requires id in jobs && forall k :: k in ids ==> k in jobs
    ensures WheelAfter(env, wheel, jobs, ids + [id]) == WithJob(env, WheelAfter(env, wheel, jobs, ids), jobs[id])
  {
    assert (ids + [id])[..|ids|] == ids;
  }

  lemma WithJobHolds(env: Env, wheel: Wheel, p: Job, id: string)
    ensures var after := WithJob(env, wheel, p);
      if id == p.id && env.resolves(p) && Addable(env, p) == Ok
      then id in after && after[id] == Arm(env, Defaulted(p))
      else (id in after <==> id in wheel) && (id in wheel ==> after[id] == wheel[id])
  {
  }

  /** What a job's place in the wheel holds once it had its turn. */
  lemma {:induction false} WheelHolds(env: Env, wheel: Wheel, jobs: map<string, Job>, ids: seq<string>, id: string)
    requires Distinct(ids) && forall k :: k in ids ==> k in jobs && jobs[k].id == k
    ensures var after := WheelAfter(env, wheel, jobs, ids);
      if id in ids && env.resolves(jobs[id]) && Addable(env, jobs[id]) == Ok
      then id in after && after[id] == Arm(env, Defaulted(jobs[id]))
      else (id in after <==> id in wheel) && (id in wheel ==> after[id] == wheel[id])
  {
    if ids != [] {
      var init, last := ids[..|ids| - 1], ids[|ids| - 1];
      assert ids == init + [last];
      WheelHolds(env, wheel, jobs, init, id);
      WithJobHolds(env, WheelAfter(env, wheel, jobs, init), jobs[last], id);
    }
  }

  lemma LoadedArms(env: Env, wheel: Wheel, jobs: map<string, Job>, after: Wheel, id: string)
    requires (forall k :: k in jobs ==> jobs[k].id == k) && WheelIs(env, wheel, jobs, |jobs|, after)
    ensures if id in jobs && env.resolves(jobs[id]) && Addable(env, jobs[id]) == Ok
            then id in after && after[id] == Arm(env, Defaulted(jobs[id]))
            else (id in after <==> id in wheel) && (id in wheel ==> after[id] == wheel[id])
  {
    var st := State(jobs, map[], []);
    SortedIds(st);
    var ids := Lex.Sorted(jobs.Keys);
    assert ids[..|jobs|] == ids;
    WheelHolds(env, wheel, jobs, ids, id);
  }

  /** The job has a run time, or a cron text that parses. */
  predicate HasTimes(env: Env, j: Job) {
    if j.cron == "" then j.runAt != 0 else env.parse(j.cron).Some?
  }

  /** A hydration that ended well has armed exactly the stored jobs that have a
      handler and a schedule or a run time, and left the rest of the wheel alone. */
  lemma LoadedWheel(env: Env, wheel: Wheel, jobs: map<string, Job>, after: Wheel, id: string)
    requires (forall k :: k in jobs ==> jobs[k].id == k) && WheelIs(env, wheel, jobs, |jobs|, after)
    ensures if id in jobs && env.resolves(jobs[id]) && HasTimes(env, jobs[id])
            then id in after && !after[id].fired && after[id].job.(missed := jobs[id].missed) == jobs[id]
                 && after[id].cron == (if jobs[id].cron == "" then None else env.parse(jobs[id].cron))
            else (id in after <==> id in wheel) && (id in wheel ==> after[id] == wheel[id])
  {
    LoadedArms(env, wheel, jobs, after, id);
  }

  // --------------------------------------------------------- what a hydration does

  lemma NoTries(st: State, j: Job, pauses: nat)
    ensures FireInTurn(st, j, [], pauses) == Turned(st, Done, pauses)
  {
  }

  lemma OneTry(st: State, j: Job, when: int, pauses: nat)
    ensures FireInTurn(st, j, [when], pauses) == Turned(Step(st, Try(j, when)), Done, pauses)
  {
    assert Tries(j, [when]) == [] + [Try(j, when)];
    RunAppend(st, [], Try(j, when));
  }

  /** The first `n` of some attempts were made: all of them unless the context was
      cancelled, for which there must be more of them than pauses. */
  ghost predicate Covers(t: Turned, st: State, tries: seq<Event>, n: nat, pauses: nat) {
    && n <= |tries| && t.st == Run(st, tries[..n])
    && (t.outcome == Done ==> n == |tries| && t.left + n >= pauses)
    && (t.outcome == Cancelled ==> |tries| > pauses)
  }

  lemma CoversMore(t: Turned, st: State, block: seq<Event>, rest: seq<Event>, n: nat, pauses: nat)
    requires Covers(t, st, block, n, pauses) && t.outcome != Done
    ensures Covers(t, st, block + rest, n, pauses)
  {
    assert (block + rest)[..n] == block[..n];
  }

  lemma CoversJoin(t: Turned, u: Turned, st: State, block: seq<Event>, rest: seq<Event>, n: nat, k: nat, pauses: nat)
    requires Covers(t, st, block, n, pauses) && t.outcome == Done && Covers(u, t.st, rest, k, t.left)
    ensures Covers(u, st, block + rest, n + k, pauses)
  {
    assert block[..n] == block && (block + rest)[..n + k] == block + rest[..k];
    RunConcat(st, block, rest[..k]);
  }

  lemma TurnIsPrefix(env: Env, st: State, p: Job, now: int, pauses: nat) returns (n: nat)
    ensures var t := Turn(env, st, p, now, pauses);
      Covers(t, st, TriesOf(env, p, now), n, pauses) && (t.outcome == Failed <==> env.resolves(p) && Malformed(env, p))
  {
    var tries := TriesOf(env, p, now);
    if !env.resolves(p) || Malformed(env, p) || Plan(env, p, now).None? {
      n := 0;
    } else {
      var whens := Plan(env, p, now).value;
      n := if |whens| <= pauses + 1 then |whens| else pauses + 1;
      assert tries[..n] == Tries(p, whens[..n]);
      assert |whens| <= pauses + 1 ==> whens[..n] == whens;
    }
  }

  /** The first job's turn, and the pass over the others if it ended well. */
  lemma PassHead(env: Env, st: State, jobs: map<string, Job>, ids: seq<string>, now: int, pauses: nat)
    requires ids != [] && forall id :: id in ids ==> id in jobs
    ensures ids[0] in ids && forall id :: id in ids[1..] ==> id in jobs
    ensures var t := Turn(env, st, jobs[ids[0]], now, pauses);
      Pass(env, st, jobs, ids, now, pauses) ==
      if t.outcome != Done then t else Pass(env, t.st, jobs, ids[1..], now, t.left)
    ensures TriesOfAll(env, jobs, ids, now) == TriesOf(env, jobs[ids[0]], now) + After(env, jobs, ids, now)
  {
    assert forall id :: id in ids[1..] ==> id in ids;
    assert ids[0] in ids;
  }

  lemma GoesOn(env: Env, st: State, p: Job, now: int, pauses: nat)
    requires Turn(env, st, p, now, pauses).outcome == Done
    ensures !(env.resolves(p) && Malformed(env, p))
  {
  }

  /** What the first turn and the pass over the others cover is put together. */
  lemma TurnAndRest(t: Turned, u: Turned, st: State, block: seq<Event>, rest: seq<Event>, n: nat, k: nat, pauses: nat)
    returns (m: nat)
    requires Covers(t, st, block, n, pauses)
    requires t.outcome == Done ==> Covers(u, t.st, rest, k, t.left)
    ensures Covers(if t.outcome == Done then u else t, st, block + rest, m, pauses)
  {
    if t.outcome == Done {
      CoversJoin(t, u, st, block, rest, n, k, pauses);
      m := n + k;
    } else {
      CoversMore(t, st, block, rest, n, pauses);
      m := n;
    }
  }

  lemma NothingToPass(env: Env, st: State, jobs: map<string, Job>, now: int, pauses: nat)
    ensures Covers(Pass(env, st, jobs, [], now, pauses), st, TriesOfAll(env, jobs, [], now), 0, pauses)
    ensures Pass(env, st, jobs, [], now, pauses).outcome == Done
  {
  }

  lemma {:induction false} PassIsPrefix(env: Env, st: State, jobs: map<string, Job>, ids: seq<string>, now: int,
                                        pauses: nat) returns (n: nat)
    requires forall id :: id in ids ==> id in jobs
    ensures Covers(Pass(env, st, jobs, ids, now, pauses), st, TriesOfAll(env, jobs, ids, now), n, pauses)
    ensures Pass(env, st, jobs, ids, now, pauses).outcome == Failed ==> !AllParse(env, jobs)
    decreases |ids|
  {
    if ids == [] {
      NothingToPass(env, st, jobs, now, pauses);
      n := 0;
    } else {
      PassHead(env, st, jobs, ids, now, pauses);
      var t := Turn(env, st, jobs[ids[0]], now, pauses);
      var u, k := t, 0;
      n := TurnIsPrefix(env, st, jobs[ids[0]], now, pauses);
      if t.outcome == Done {
        GoesOn(env, st, jobs[ids[0]], now, pauses);
        u := Pass(env, t.st, jobs, ids[1..], now, t.left);
        k := PassIsPrefix(env, t.st, jobs, ids[1..], now, t.left);
      }
      n := TurnAndRest(t, u, st, TriesOf(env, jobs[ids[0]], now), After(env, jobs, ids, now), n, k, pauses);
    }
  }

  /** A hydration does the beginning of its agenda: all of it when it ends well,
      and when it is cancelled there was more to it than the pauses allowed. */
  lemma HydrationIsPrefix(env: Env, st: State, now: int, pauses: nat) returns (cut: nat)
    requires Keyed(st)
    ensures var t, agenda := LoadedAt(env, st, now, pauses), Agenda(env, st, now);
      && t.st == Hydrate(env, st, Start(now, cut)) && 1 <= cut <= |agenda|
      && (t.outcome == Done ==> cut == |agenda|)
      && (t.outcome == Failed ==> !AllParse(env, st.jobs))
      && (t.outcome == Cancelled ==> |agenda| > pauses + 1)
  {
    var ids := Lex.Sorted(st.jobs.Keys);
    var tries := TriesOfAll(env, st.jobs, ids, now);
    var n := PassIsPrefix(env, Step(st, Prune(now)), st.jobs, ids, now, pauses);
    cut := n + 1;
    assert ([Prune(now)] + tries)[..cut] == [Prune(now)] + tries[..n];
    RunConcat(st, [Prune(now)], tries[..n]);
    RunAppend(st, [], Prune(now));
    assert [] + [Prune(now)] == [Prune(now)];
  }
}
