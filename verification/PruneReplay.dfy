/** A job that is hydrated twice and fires twice within its idempotency window:
    the first hydration fires it for hour 100; the second, at hour 200, prunes
    the stamp of that fire and then replays hour 110. */
module PruneReplay {
  import opened Options
  import opened Cron
  import opened CronMatches
  import opened Hydration
  import opened Backfill
  import Lex
  import MinuteText
  import Usage

  const HOUR: int := 60 * MINUTE

  /** Instants on the Gregorian calendar. The zero time is a Monday. */
  function Reading(t: int): Cron.Civil {
    var c := MinuteText.CivilOf(t / MINUTE);
    Cron.Civil(c.minute, c.hour, c.day, c.month, (t / (24 * HOUR) + 1) % 7, t % MINUTE / SECOND)
  }

  const MINUTES := List([0])
  const HOURS := List([4, 14])
  const DAYS := List([5])

  /** On the fifth of the month at four and at fourteen. */
  const LINE := Line(TextOf(MINUTES), TextOf(HOURS), TextOf(DAYS), TextOf(Star), TextOf(Star))
  const SCHEDULE := Spec(SetOf(MINUTES), SetOf(HOURS), SetOf(DAYS), SetOf(Star), SetOf(Star))

  lemma LineIsRead()
    ensures SpecMeans(LINE, SCHEDULE)
  {
    ParseOfLine(MINUTES, HOURS, DAYS, Star, Star);
  }

  const ENV := Env(cron => if cron == LINE then Some(SCHEDULE) else None, Reading, _ => true)

  /** Last fired on the fourth at 18:00, under the backfill policy. */
  const JOB := Job("a", LINE, ZERO_TIME, "k", "backfill", 90 * HOUR)
  const BEFORE := State(map["a" := JOB], map[], [])

  // ------------------------------------------------------------ the first days

  lemma DayInJanuary(day: nat)
    requires day < 31
    ensures MinuteText.YearAndDay((366 + day) % MinuteText.CYCLE, 0) == (1, day)
    ensures MinuteText.MonthAndDay(day, 1, 1) == (1, day + 1)
  {
    assert MinuteText.YearAndDay(366 + day, 0) == MinuteText.YearAndDay(day, 1);
  }

  lemma Shifted(m: nat)
    ensures var n := m - Usage.FIRST_MINUTE;
      n / 1440 == 366 + m / 1440 && n % 1440 == m % 1440 && n % 60 == m % 60
  {
    assert m - Usage.FIRST_MINUTE == m + 366 * 1440;
  }

  /** In the first January the calendar is plain division. */
  lemma January(m: nat)
    requires m < 31 * 1440
    ensures MinuteText.CivilOf(m) == MinuteText.Civil(1, 1, m / 1440 + 1, m % 1440 / 60, m % 60)
  {
    Shifted(m);
    DayInJanuary(m / 1440);
    assert (366 + m / 1440) / MinuteText.CYCLE == 0;
  }

  lemma ReadingOf(m: nat)
    requires m < 31 * 1440
    ensures var c := Reading(m * MINUTE);
      c.minute == m % 60 && c.hour == m % 1440 / 60 && c.day == m / 1440 + 1 && c.second == 0
  {
    assert m * MINUTE / MINUTE == m && m * MINUTE % MINUTE == 0;
    January(m);
  }

  lemma Admitted(v: int)
    ensures Admits(MINUTES, v) <==> v == 0
    ensures Admits(HOURS, v) <==> v == 4 || v == 14
    ensures Admits(DAYS, v) <==> v == 5
  {
    assert MINUTES.ns[0] == 0 && DAYS.ns[0] == 5;
    assert HOURS.ns[0] == 4 && HOURS.ns[1] == 14;
  }

  lemma Clock(m: nat)
    ensures m % 60 == 0 && (m % 1440 / 60 == 4 || m % 1440 / 60 == 14) && m / 1440 + 1 == 5
       <==> m == 100 * 60 || m == 110 * 60
  {
    var h := m / 60;
    assert m % 1440 == (h % 24) * 60 + m % 60 && m / 1440 == h / 24;
  }

  /** The schedule's matches of the first January are hours 100 and 110. */
  lemma MatchingMinutes(m: nat)
    requires m < 31 * 1440
    ensures CalendarOf(ENV, SCHEDULE)(m * MINUTE) <==> m == 100 * 60 || m == 110 * 60
  {
    var c := Reading(m * MINUTE);
    ReadingOf(m);
    LineIsRead();
    LineMatches(MINUTES, HOURS, DAYS, Star, Star, SCHEDULE, c);
    Admitted(c.minute);
    Admitted(c.hour);
    Admitted(c.day);
    Clock(m);
  }

  lemma WholeMinutes(t: nat) returns (m: nat)
    requires t < 31 * 24 * HOUR && Boundary(t)
    ensures t == m * MINUTE && m < 31 * 1440
    ensures m == 100 * 60 <==> t == 100 * HOUR
    ensures m == 110 * 60 <==> t == 110 * HOUR
  {
    m := t / MINUTE;
  }

  lemma MatchingTimes(t: nat)
    requires t < 31 * 24 * HOUR && Boundary(t)
    ensures CalendarOf(ENV, SCHEDULE)(t) <==> t == 100 * HOUR || t == 110 * HOUR
  {
    var m := WholeMinutes(t);
    MatchingMinutes(m);
  }

  lemma OnlyMatch(cal: Calendar, from: int, until: int, x: int)
    requires from < x <= until && Boundary(x)
    requires forall t :: from < t <= until && Boundary(t) ==> (cal(t) <==> t == x)
    ensures FirstMatches(cal, from, until) == [x]
  {
    AllMatchesExact(cal, from, until);
    AscendsUnique(AllMatches(cal, from, until), [x]);
  }

  lemma Within(from: nat, until: nat, hit: nat, t: int)
    requires from < hit <= until && (hit == 100 || hit == 110)
    requires !(from < 100 <= until && from < 110 <= until) && from * HOUR < t <= until * HOUR
    ensures t == 100 * HOUR || t == 110 * HOUR <==> t == hit * HOUR
  {
  }

  /** In the first January: hours 100 and 110. */
  ghost predicate TwoTimes(cal: Calendar) {
    forall t: nat :: t < 31 * 24 * HOUR && Boundary(t) ==> (cal(t) <==> t == 100 * HOUR || t == 110 * HOUR)
  }

  lemma ScheduleHasTwo()
    ensures TwoTimes(CalendarOf(ENV, SCHEDULE))
  {
    forall t: nat | t < 31 * 24 * HOUR && Boundary(t)
      ensures CalendarOf(ENV, SCHEDULE)(t) <==> t == 100 * HOUR || t == 110 * HOUR
    {
      MatchingTimes(t);
    }
  }

  lemma OneMatch(cal: Calendar, from: nat, until: nat, hit: nat)
    requires TwoTimes(cal) && from < hit <= until < 31 * 24 && (hit == 100 || hit == 110)
    requires !(from < 100 <= until && from < 110 <= until)
    ensures FirstMatches(cal, from * HOUR, until * HOUR) == [hit * HOUR]
  {
    assert Boundary(hit * HOUR) by { assert hit * HOUR == hit * 60 * MINUTE; }
    forall t | from * HOUR < t <= until * HOUR && Boundary(t) ensures cal(t) <==> t == hit * HOUR {
      var n: nat := t;
      assert cal(n) <==> n == 100 * HOUR || n == 110 * HOUR;
      Within(from, until, hit, t);
    }
    OnlyMatch(cal, from * HOUR, until * HOUR, hit * HOUR);
  }

  // ------------------------------------------------------------ two hydrations

  lemma OneId(jobs: map<string, Job>)
    requires jobs.Keys == {"a"}
    ensures Lex.Sorted(jobs.Keys) == ["a"]
  {
    var ids := Lex.Sorted(jobs.Keys);
    assert |ids| == 1 && ids[0] in ids;
  }

  lemma BackfillTries(env: Env, j: Job, cal: Calendar, now: int, w: int)
    requires j.missed == "backfill" && j.cron != "" && Schedule(env, j.cron) == Some(cal) && env.resolves(j)
    requires j.last != ZERO_TIME && FirstMatches(cal, j.last, now) == [w]
    ensures TriesOf(env, j, now) == [Try(j, w)]
  {
  }

  lemma LineIsScheduled(env: Env)
    requires env == ENV
    ensures LINE != "" && Schedule(env, LINE) == Some(CalendarOf(env, SCHEDULE))
  {
  }

  lemma OneTurn(j: Job, last: nat, now: nat, hit: nat)
    requires j == JOB.(last := last * HOUR) && 0 < last < hit <= now < 31 * 24
    requires (hit == 100 || hit == 110) && !(last < 100 <= now && last < 110 <= now)
    ensures TriesOf(ENV, j, now * HOUR) == [Try(j, hit * HOUR)]
  {
    ScheduleHasTwo();
    OneMatch(CalendarOf(ENV, SCHEDULE), last, now, hit);
    LineIsScheduled(ENV);
    BackfillTries(ENV, j, CalendarOf(ENV, SCHEDULE), now * HOUR, hit * HOUR);
  }

  lemma OnePass(env: Env, jobs: map<string, Job>, now: int, tries: seq<Event>)
    requires "a" in jobs && TriesOf(env, jobs["a"], now) == tries
    ensures TriesOfAll(env, jobs, ["a"], now) == tries
  {
    assert ["a"][1..] == [] && tries + [] == tries;
    assert TriesOfAll(env, jobs, [], now) == [];
  }

  /** A hydration at `now` that finds one missed match. */
  lemma OneTry(st: State, last: nat, now: nat, hit: nat)
    requires st.jobs == map["a" := JOB.(last := last * HOUR)] && 0 < last < hit <= now < 31 * 24
    requires (hit == 100 || hit == 110) && !(last < 100 <= now && last < 110 <= now)
    ensures Agenda(ENV, st, now * HOUR) == [Prune(now * HOUR), Try(st.jobs["a"], hit * HOUR)]
  {
    OneId(st.jobs);
    OneTurn(st.jobs["a"], last, now, hit);
    OnePass(ENV, st.jobs, now * HOUR, [Try(st.jobs["a"], hit * HOUR)]);
  }

  /** What such a hydration leaves. */
  function Afterwards(st: State, now: nat, hit: nat): State
    requires "a" in st.jobs
  {
    Step(Step(st, Prune(now * HOUR)), Try(st.jobs["a"], hit * HOUR))
  }

  lemma HydratesTo(st: State, last: nat, now: nat, hit: nat, cut: nat)
    requires st.jobs == map["a" := JOB.(last := last * HOUR)] && 0 < last < hit <= now < 31 * 24 && cut >= 2
    requires (hit == 100 || hit == 110) && !(last < 100 <= now && last < 110 <= now)
    ensures Hydrate(ENV, st, Start(now * HOUR, cut)) == Afterwards(st, now, hit)
  {
    var a, b := Prune(now * HOUR), Try(st.jobs["a"], hit * HOUR);
    OneTry(st, last, now, hit);
    assert Take([a, b], cut) == [a, b];
    RunAppend(st, [], a);
    RunAppend(st, [a], b);
    assert [] + [a] == [a] && [a] + [b] == [a, b];
  }

  /** The first fire is remembered with its hour. */
  const BETWEEN := State(map["a" := JOB.(last := 100 * HOUR)], map["k" := At(100 * HOUR)],
                         [Fired("a", "k", 100 * HOUR)])

  /** A first fire: nothing was stamped before. */
  lemma NothingStamped(st: State, j: Job, now: nat, hit: nat)
    requires st.jobs == map["a" := j] && j.id == "a" && j.key != "" && st.stamps == map[] && st.log == []
    ensures Afterwards(st, now, hit) ==
            State(map["a" := j.(last := hit * HOUR)], map[j.key := At(hit * HOUR)], [Fired("a", j.key, hit * HOUR)])
  {
    assert Pruned(st.stamps, now * HOUR) == map[];
    assert st.log + [Fired("a", j.key, hit * HOUR)] == [Fired("a", j.key, hit * HOUR)];
  }

  lemma FirstHydration(cut: nat)
    requires cut >= 2
    ensures Hydrate(ENV, BEFORE, Start(100 * HOUR, cut)) == BETWEEN
  {
    HydratesTo(BEFORE, 90, 100, 100, cut);
    NothingStamped(BEFORE, JOB, 100, 100);
  }

  /** The second fire goes through when the stamp of the first is pruned. */
  lemma StampForgotten(st: State, now: nat, hit: nat)
    requires "a" in st.jobs && st.jobs["a"].key != "" && st.jobs["a"].key !in Pruned(st.stamps, now * HOUR)
    ensures Afterwards(st, now, hit).log == st.log + [Fired(st.jobs["a"].id, st.jobs["a"].key, hit * HOUR)]
  {
  }

  lemma PrunedByThen()
    ensures "k" !in Pruned(map["k" := At(100 * HOUR)], 200 * HOUR)
  {
  }

  lemma SecondHydration(st: State, cut: nat)
    requires st == BETWEEN && cut >= 2
    ensures Hydrate(ENV, st, Start(200 * HOUR, cut)).log == st.log + [Fired("a", "k", 110 * HOUR)]
  {
    HydratesTo(st, 100, 200, 110, cut);
    PrunedByThen();
    StampForgotten(st, 200, 110);
  }

  lemma OneMore(env: Env, st: State, hs: seq<Start>, h: Start)
    ensures HydrateAll(env, st, hs + [h]) == Hydrate(env, HydrateAll(env, st, hs), h)
  {
    assert (hs + [h])[..|hs|] == hs;
  }

  lemma HydrateBoth(env: Env, st: State, x: Start, y: Start)
    ensures HydrateAll(env, st, [x, y]) == Hydrate(env, Hydrate(env, st, x), y)
  {
    OneMore(env, st, [], x);
    OneMore(env, st, [x], y);
    assert [] + [x] == [x] && [x] + [y] == [x, y];
  }

  lemma TooClose(log: seq<Fired>)
    requires |log| == 2 && log[0].key == log[1].key != "" && log[1].when < log[0].when + DEDUP_WINDOW
    ensures !Spaced(log)
  {
  }

  const REPEATED := [Fired("a", "k", 100 * HOUR), Fired("a", "k", 110 * HOUR)]

  lemma InTurn(x: Start, y: Start, cut: nat)
    requires cut >= 2 && x == Start(100 * HOUR, cut) && y == Start(200 * HOUR, cut)
    ensures Hydrate(ENV, Hydrate(ENV, BEFORE, x), y).log == REPEATED
  {
    FirstHydration(cut);
    SecondHydration(BETWEEN, cut);
  }

  lemma RepeatedTooClose()
    ensures !Spaced(REPEATED)
  {
    TooClose(REPEATED);
  }

  lemma BothLogs(env: Env, st: State, x: Start, y: Start, log: seq<Fired>)
    requires Hydrate(env, Hydrate(env, st, x), y).log == log
    ensures HydrateAll(env, st, [x, y]).log == log
  {
    HydrateBoth(env, st, x, y);
  }

  /** Two uncut hydrations, and two fires of one key ten hours apart. */
  lemma HydrationsRepeat(env: Env, st: State, x: Start, y: Start, cut: nat)
    requires env == ENV && st == BEFORE
    requires cut >= 2 && x == Start(100 * HOUR, cut) && y == Start(200 * HOUR, cut)
    ensures HydrateAll(env, st, [x, y]).log == REPEATED && !Spaced(REPEATED)
  {
    InTurn(x, y, cut);
    BothLogs(env, st, x, y, REPEATED);
    RepeatedTooClose();
  }
}
