/** pkg/scheduler/persist.go as a transition system: what one attempt to fire,
    one live fire and one prune do to the store, and which attempts a hydration
    makes. `log` records every call of a job's callback, in order. */
module Hydration {
  import opened Options
  import opened Cron
  import opened CronMatches
  import Lex

  const DEDUP_WINDOW: int := 24 * 60 * MINUTE

  /** `last` is the zero time when the job has never fired; an empty cron text
      marks a one-shot job, due at `runAt`. */
  datatype Job = Job(id: string, cron: string, runAt: int, key: string, missed: string, last: int)

  const ZERO_TIME: int := 0

  /** A dedup entry; Garbage is a text that does not parse as a time. */
  datatype Stamp = At(t: int) | Garbage

  type Stamps = map<string, Stamp>

  datatype Fired = Fired(id: string, key: string, when: int)

  datatype State = State(jobs: map<string, Job>, stamps: Stamps, log: seq<Fired>)

  predicate Seen(stamps: Stamps, key: string, now: int) {
    key in stamps && stamps[key].At? && now - stamps[key].t < DEDUP_WINDOW
  }

  function Pruned(stamps: Stamps, now: int): Stamps {
    map k | k in stamps && !(stamps[k].At? && stamps[k].t < now - DEDUP_WINDOW) :: stamps[k]
  }

  datatype Event =
    | Try(job: Job, when: int)
    | Live(job: Job, now: int)
    | Prune(now: int)

  predicate Suppressed(st: State, key: string, when: int) {
    key != "" && Seen(st.stamps, key, when)
  }

  function Stamped(st: State, key: string, when: int): Stamps {
    if key == "" then st.stamps else st.stamps[key := At(when)]
  }

  function Step(st: State, e: Event): State {
    match e
    case Try(j, when) =>
      if Suppressed(st, j.key, when) then st
      else State(st.jobs[j.id := j.(last := when)], Stamped(st, j.key, when), st.log + [Fired(j.id, j.key, when)])
    case Live(j, now) =>
      if Suppressed(st, j.key, now) then st
      else State(st.jobs, Stamped(st, j.key, now), st.log + [Fired(j.id, j.key, now)])
    case Prune(now) => st.(stamps := Pruned(st.stamps, now))
  }

  function Run(st: State, events: seq<Event>): State
    decreases |events|
  {
    if events == [] then st else Step(Run(st, events[..|events| - 1]), events[|events| - 1])
  }

  lemma RunAppend(st: State, events: seq<Event>, e: Event)
    ensures Run(st, events + [e]) == Step(Run(st, events), e)
  {
    assert (events + [e])[..|events|] == events;
  }

  // -------------------------------------------------------------- the agenda

  /** What the scheduler is given from outside: the cron parser, the calendar in
      which instants are read, and which jobs still have a handler. */
  datatype Env = Env(parse: string -> Option<Spec>, civil: int -> Civil, resolves: Job -> bool)

  /** The instants a cron text stands for, or None when it is malformed. */
  function Schedule(env: Env, cron: string): Option<Calendar> {
    match env.parse(cron)
    case None => None
    case Some(spec) => Some(CalendarOf(env, spec))
  }

  function CalendarOf(env: Env, spec: Spec): Calendar {
    t => Matches(spec, env.civil(t))
  }

  function From(j: Job, now: int): int {
    if j.last == ZERO_TIME then now - DEDUP_WINDOW else j.last
  }

  /** The times at which hydrating a job tries to fire it, or None when its cron
      text is malformed. */
  function Plan(env: Env, j: Job, now: int): Option<seq<int>> {
    if j.missed == "skip" || j.missed == "" then Some([])
    else if j.cron == "" then Some(if j.runAt < now && j.last == ZERO_TIME then [now] else [])
    else
      match Schedule(env, j.cron)
      case None => None
      case Some(cal) =>
        var matches := FirstMatches(cal, From(j, now), now);
        if j.missed == "once" then Some(if matches != [] then [now] else [])
        else if j.missed == "backfill" then Some(matches)
        else Some([])
  }

  /** Whether adding the job to the wheel fails the hydration. */
  predicate Malformed(env: Env, j: Job) {
    j.cron != "" && Schedule(env, j.cron).None?
  }

  function Tries(j: Job, whens: seq<int>): (r: seq<Event>)
    ensures |r| == |whens| && forall i :: 0 <= i < |whens| ==> r[i] == Try(j, whens[i])
  {
    seq(|whens|, i requires 0 <= i < |whens| => Try(j, whens[i]))
  }

  function TriesOf(env: Env, j: Job, now: int): seq<Event> {
    if !env.resolves(j) || Plan(env, j, now).None? then [] else Tries(j, Plan(env, j, now).value)
  }

  /** The attempts a hydration makes for some jobs, up to the first malformed one. */
  function TriesOfAll(env: Env, jobs: map<string, Job>, ids: seq<string>, now: int): seq<Event>
    requires forall id :: id in ids ==> id in jobs
  {
    if ids == [] then []
    else
      assert ids[0] in ids;
      TriesOf(env, jobs[ids[0]], now)
      + if env.resolves(jobs[ids[0]]) && Malformed(env, jobs[ids[0]]) then [] else TriesOfAll(env, jobs, ids[1..], now)
  }

  /** Everything one hydration does when it is not cut short. */
  function Agenda(env: Env, st: State, now: int): seq<Event> {
    [Prune(now)] + TriesOfAll(env, st.jobs, Lex.Sorted(st.jobs.Keys), now)
  }

  ghost predicate Keyed(st: State) {
    forall id :: id in st.jobs ==> st.jobs[id].id == id
  }

  // ------------------------------------------------------------------ the prune

  lemma PruneKeepsSeen(stamps: Stamps, key: string, now: int, w: int)
    requires w >= now - 1
    ensures Seen(Pruned(stamps, now), key, w) == Seen(stamps, key, w)
  {
  }

  lemma PruneForgets(now: int, w: int)
    requires w < now - 1
    ensures var stamps: Stamps := map["k" := At(now - DEDUP_WINDOW - 1)];
      Seen(stamps, "k", w) && !Seen(Pruned(stamps, now), "k", w)
  {
  }

  ghost predicate Invisible(now: int, w: int) {
    forall stamps: Stamps, key :: Seen(Pruned(stamps, now), key, w) == Seen(stamps, key, w)
  }

  /** Pruning at `now` never changes an answer about `w`, whatever is stored,
      exactly when `w` is not more than a nanosecond before `now`. */
  lemma PruneIsInvisible(now: int, w: int)
    ensures Invisible(now, w) <==> w >= now - 1
  {
    if w >= now - 1 {
      forall stamps: Stamps, key ensures Seen(Pruned(stamps, now), key, w) == Seen(stamps, key, w) {
        PruneKeepsSeen(stamps, key, now, w);
      }
    } else {
      PruneForgets(now, w);
      var stamps: Stamps := map["k" := At(now - DEDUP_WINDOW - 1)];
      assert Seen(Pruned(stamps, now), "k", w) != Seen(stamps, "k", w);
    }
  }

  // ---------------------------------------------------------------- the spacing

  predicate Fires(e: Event) {
    e.Try? || e.Live?
  }

  function TimeOf(e: Event): int
    requires Fires(e)
  {
    if e.Try? then e.when else e.now
  }

  /** No attempt is for a time before an earlier prune. */
  ghost predicate InTime(events: seq<Event>) {
    forall i, j :: 0 <= i < j < |events| && events[i].Prune? && Fires(events[j]) ==>
        TimeOf(events[j]) >= events[i].now - 1
  }

  ghost predicate Spaced(log: seq<Fired>) {
    forall i, j :: 0 <= i < j < |log| && log[i].key == log[j].key && log[i].key != "" ==>
        log[j].when >= log[i].when + DEDUP_WINDOW
  }

  /** An entry of the log is still remembered, or was too old at some prune. */
  ghost predicate Remembered(stamps: Stamps, f: Fired) {
    f.key in stamps && stamps[f.key].At? && f.when <= stamps[f.key].t
  }

  ghost predicate Expired(events: seq<Event>, f: Fired) {
    exists i :: 0 <= i < |events| && events[i].Prune? && f.when < events[i].now - DEDUP_WINDOW
  }

  ghost predicate Tracked(stamps: Stamps, events: seq<Event>, log: seq<Fired>) {
    forall i :: 0 <= i < |log| && log[i].key != "" ==> Remembered(stamps, log[i]) || Expired(events, log[i])
  }

  lemma ExpiredStays(events: seq<Event>, e: Event, f: Fired)
    requires Expired(events, f)
    ensures Expired(events + [e], f)
  {
    var i :| 0 <= i < |events| && events[i].Prune? && f.when < events[i].now - DEDUP_WINDOW;
    assert (events + [e])[i] == events[i];
  }

  /** A fire that is not suppressed is a window away from every earlier one. */
  lemma FireIsSpaced(st: State, events: seq<Event>, e: Event, key: string, when: int, i: nat)
    requires Fires(e) && TimeOf(e) == when && InTime(events + [e]) && Tracked(st.stamps, events, st.log)
    requires key != "" && !Seen(st.stamps, key, when)
    requires i < |st.log| && st.log[i].key == key
    ensures when >= st.log[i].when + DEDUP_WINDOW
  {
    if !Remembered(st.stamps, st.log[i]) {
      var k :| 0 <= k < |events| && events[k].Prune? && st.log[i].when < events[k].now - DEDUP_WINDOW;
      var all := events + [e];
      assert all[k] == events[k] && all[|events|] == e;
    }
  }

  lemma StepKeepsSpacing(st: State, events: seq<Event>, e: Event)
    requires InTime(events + [e]) && Tracked(st.stamps, events, st.log) && Spaced(st.log)
    ensures Tracked(Step(st, e).stamps, events + [e], Step(st, e).log) && Spaced(Step(st, e).log)
  {
    var next := Step(st, e);
    forall i | 0 <= i < |st.log| && st.log[i].key != ""
      ensures Remembered(next.stamps, st.log[i]) || Expired(events + [e], st.log[i])
    {
      if Expired(events, st.log[i]) {
        ExpiredStays(events, e, st.log[i]);
      } else if e.Prune? {
        assert (events + [e])[|events|] == e;
      } else if next.log != st.log && st.log[i].key == next.log[|st.log|].key {
        FireIsSpaced(st, events, e, st.log[i].key, TimeOf(e), i);
      }
    }
    if next.log != st.log {
      var f := next.log[|st.log|];
      forall i | 0 <= i < |st.log| && st.log[i].key == f.key && f.key != ""
        ensures f.when >= st.log[i].when + DEDUP_WINDOW
      {
        FireIsSpaced(st, events, e, f.key, f.when, i);
      }
    }
  }

  lemma {:induction false} RunKeepsSpacing(st: State, events: seq<Event>)
    requires st.log == [] && InTime(events)
    ensures Tracked(Run(st, events).stamps, events, Run(st, events).log) && Spaced(Run(st, events).log)
    decreases |events|
  {
    if events != [] {
      var init, last := events[..|events| - 1], events[|events| - 1];
      assert events == init + [last];
      RunKeepsSpacing(st, init);
      StepKeepsSpacing(Run(st, init), init, last);
    }
  }

  /** Fires under one idempotency key, by whatever jobs and whatever path, are at
      least a dedup window apart. */
  lemma FiresAreSpaced(st: State, events: seq<Event>)
    requires st.log == [] && InTime(events)
    ensures Spaced(Run(st, events).log)
  {
    RunKeepsSpacing(st, events);
  }

  // --------------------------------------------------------- when a fire happens

  /** The i-th entry of the log is the last of its key. */
  ghost predicate IsLast(log: seq<Fired>, key: string, i: nat) {
    i < |log| && log[i].key == key && forall j :: i < j < |log| ==> log[j].key != key
  }

  /** A key's stamp is the time of its last fire, until a prune finds it too old. */
  ghost predicate StampIsLast(st: State, events: seq<Event>, key: string) {
    && (key in st.stamps ==> exists i: nat :: IsLast(st.log, key, i))
    && (forall i: nat :: IsLast(st.log, key, i) ==>
          if key in st.stamps then st.stamps[key] == At(st.log[i].when) else Expired(events, st.log[i]))
  }

  lemma LastAppend(log: seq<Fired>, f: Fired, key: string)
    ensures f.key == key ==> forall i: nat :: IsLast(log + [f], key, i) <==> i == |log|
    ensures f.key != key ==> forall i: nat :: IsLast(log + [f], key, i) <==> IsLast(log, key, i)
  {
    var more := log + [f];
    assert more[|log|] == f;
    assert forall i :: 0 <= i < |log| ==> more[i] == log[i];
  }

  lemma FireKeepsStamps(st: State, events: seq<Event>, e: Event, key: string)
    requires key != "" && StampIsLast(st, events, key) && Fires(e) && Step(st, e).log != st.log
    ensures StampIsLast(Step(st, e), events + [e], key)
  {
    var next := Step(st, e);
    LastAppend(st.log, next.log[|st.log|], key);
    if next.log[|st.log|].key == key {
      assert IsLast(next.log, key, |st.log|);
    } else {
      forall i: nat | IsLast(st.log, key, i) ensures IsLast(next.log, key, i) && next.log[i] == st.log[i] {
      }
      StillExpired(st.log, events, e, key);
    }
  }

  lemma StillExpired(log: seq<Fired>, events: seq<Event>, e: Event, key: string)
    ensures forall i: nat :: IsLast(log, key, i) && Expired(events, log[i]) ==> Expired(events + [e], log[i])
  {
    forall i: nat | IsLast(log, key, i) && Expired(events, log[i]) ensures Expired(events + [e], log[i]) {
      ExpiredStays(events, e, log[i]);
    }
  }

  lemma StepKeepsStamps(st: State, events: seq<Event>, e: Event, key: string)
    requires key != "" && StampIsLast(st, events, key)
    ensures StampIsLast(Step(st, e), events + [e], key)
  {
    if Step(st, e).log != st.log {
      FireKeepsStamps(st, events, e, key);
    } else {
      StillExpired(st.log, events, e, key);
      assert (events + [e])[|events|] == e;
    }
  }

  lemma {:induction false} RunKeepsStamps(st: State, events: seq<Event>, key: string)
    requires key != "" && st.log == [] && st.stamps == map[]
    ensures StampIsLast(Run(st, events), events, key)
    decreases |events|
  {
    if events != [] {
      var init, last := events[..|events| - 1], events[|events| - 1];
      assert events == init + [last];
      RunKeepsStamps(st, init, key);
      StepKeepsStamps(Run(st, init), init, last, key);
    }
  }

  ghost predicate FiredWithin(log: seq<Fired>, key: string, when: int) {
    exists i: nat :: IsLast(log, key, i) && when - log[i].when < 86_400_000_000_000
  }

  /** What a prune found too old is too old for an attempt in time. */
  lemma ExpiredIsOld(events: seq<Event>, e: Event, f: Fired)
    requires InTime(events + [e]) && Fires(e) && Expired(events, f)
    ensures TimeOf(e) - f.when >= DEDUP_WINDOW
  {
    var k :| 0 <= k < |events| && events[k].Prune? && f.when < events[k].now - DEDUP_WINDOW;
    var all := events + [e];
    assert all[k] == events[k] && all[|events|] == e;
  }

  lemma SeenIsFired(st: State, events: seq<Event>, e: Event, key: string)
    requires StampIsLast(st, events, key) && InTime(events + [e]) && Fires(e)
    ensures Seen(st.stamps, key, TimeOf(e)) <==> FiredWithin(st.log, key, TimeOf(e))
  {
    forall i: nat | IsLast(st.log, key, i) && Expired(events, st.log[i])
      ensures TimeOf(e) - st.log[i].when >= DEDUP_WINDOW
    {
      ExpiredIsOld(events, e, st.log[i]);
    }
    assert DEDUP_WINDOW == 86_400_000_000_000;
  }

  /** Whatever went before: an attempt, or a live fire, is suppressed exactly if its
      key is not empty and was last fired for a time less than 24 hours earlier, or
      later. Else it fires. */
  lemma SuppressionIsExact(st: State, events: seq<Event>, e: Event)
    requires st.log == [] && st.stamps == map[] && InTime(events + [e]) && Fires(e)
    ensures var before, after, key := Run(st, events).log, Run(st, events + [e]).log, e.job.key;
      after == if key != "" && FiredWithin(before, key, TimeOf(e)) then before
               else before + [Fired(e.job.id, key, TimeOf(e))]
  {
    RunAppend(st, events, e);
    if e.job.key != "" {
      RunKeepsStamps(st, events, e.job.key);
      SeenIsFired(Run(st, events), events, e, e.job.key);
    }
  }

  /** Whoever fired before the prune at `p`, and whenever: an attempt for `w`
      behind it keeps the fires of a key apart. */
  ghost predicate SafeTimes(p: int, w: int) {
    forall st: State, j, k, a :: st.log == [] ==> Spaced(Around(st, j, a, p, k, w).log)
  }

  /** One attempt before a prune and one behind it. */
  function Around(st: State, j: Job, a: int, p: int, k: Job, w: int): State {
    Run(st, [Try(j, a), Prune(p), Try(k, w)])
  }

  /** Two attempts of one job around a prune that forgets the first. */
  lemma ForgottenRepeats(p: int, w: int)
    requires w < p - 1
    ensures !SafeTimes(p, w)
  {
    var j, a := Job("", "", 0, "k", "", 0), p - DEDUP_WINDOW - 1;
    var st := State(map[], map[], []);
    var x, y, z := Try(j, a), Prune(p), Try(j, w);
    RunAppend(st, [], x);
    RunAppend(st, [x], y);
    RunAppend(st, [x, y], z);
    assert [] + [x] == [x] && [x] + [y] == [x, y] && [x, y] + [z] == [x, y, z];
    var log := Around(st, j, a, p, j, w).log;
    assert log == [Fired(j.id, j.key, a), Fired(j.id, j.key, w)];
    assert log[0].key == log[1].key && log[1].when < log[0].when + DEDUP_WINDOW;
  }

  /** An attempt behind a prune is safe exactly when it is for a time no more than
      a nanosecond before the prune. */
  lemma SafeTimesAreExact(p: int, w: int)
    ensures SafeTimes(p, w) <==> w >= p - 1
  {
    if w >= p - 1 {
      forall st: State, j, k, a | st.log == [] ensures Spaced(Around(st, j, a, p, k, w).log) {
        FiresAreSpaced(st, [Try(j, a), Prune(p), Try(k, w)]);
      }
    } else {
      ForgottenRepeats(p, w);
    }
  }
}
