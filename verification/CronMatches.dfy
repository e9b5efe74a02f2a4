/** The minute boundaries at which a schedule matches. Instants are nanoseconds
    since Go's zero time, which is a minute boundary; a calendar says which
    boundaries match. */
module CronMatches {
  const SECOND: int := 1_000_000_000
  const MINUTE: int := 60 * SECOND
  const MAX_MATCHES: nat := 24 * 60 * 7

  type Calendar = int -> bool

  predicate Boundary(t: int) {
    t % MINUTE == 0
  }

  function NextBoundary(t: int): (r: int)
    ensures Boundary(r) && t < r <= t + MINUTE
  {
    (t / MINUTE + 1) * MINUTE
  }

  function MatchesFrom(cal: Calendar, cur: int, until: int): seq<int>
    decreases until - cur
  {
    if cur > until then [] else (if cal(cur) then [cur] else []) + MatchesFrom(cal, cur + MINUTE, until)
  }

  /** Every match in (from, until]. */
  function AllMatches(cal: Calendar, from: int, until: int): seq<int> {
    MatchesFrom(cal, NextBoundary(from), until)
  }

  ghost predicate Ascends(s: seq<int>) {
    forall i, j :: 0 <= i < j < |s| ==> s[i] < s[j]
  }

  ghost predicate MatchIn(cal: Calendar, lo: int, hi: int, t: int) {
    lo <= t <= hi && Boundary(t) && cal(t)
  }

  lemma AscendsBehind(x: int, rest: seq<int>)
    requires Ascends(rest) && forall t :: t in rest ==> x < t
    ensures Ascends([x] + rest)
  {
    forall i, j | 0 <= i < j < |[x] + rest| ensures ([x] + rest)[i] < ([x] + rest)[j] {
      assert rest[j - 1] in rest;
    }
  }

  /** Between two boundaries there is none. */
  lemma NextMatch(cal: Calendar, cur: int, until: int, t: int)
    requires Boundary(cur)
    ensures MatchIn(cal, cur, until, t) <==> MatchIn(cal, cur + MINUTE, until, t) || (t == cur <= until && cal(cur))
  {
  }

  lemma {:induction false} MatchesFromExact(cal: Calendar, cur: int, until: int)
    requires Boundary(cur)
    ensures Ascends(MatchesFrom(cal, cur, until))
    ensures forall t :: t in MatchesFrom(cal, cur, until) <==> MatchIn(cal, cur, until, t)
    decreases until - cur
  {
    if cur <= until {
      MatchesFromExact(cal, cur + MINUTE, until);
      var rest := MatchesFrom(cal, cur + MINUTE, until);
      AscendsBehind(cur, rest);
      forall t ensures t in MatchesFrom(cal, cur, until) <==> MatchIn(cal, cur, until, t) {
        NextMatch(cal, cur, until, t);
      }
    }
  }

  /** The matches of an interval are listed in order, each once, none missing. */
  lemma AllMatchesExact(cal: Calendar, from: int, until: int)
    ensures Ascends(AllMatches(cal, from, until))
    ensures forall t :: t in AllMatches(cal, from, until) <==> from < t <= until && Boundary(t) && cal(t)
  {
    var cur := NextBoundary(from);
    MatchesFromExact(cal, cur, until);
    forall t ensures t in AllMatches(cal, from, until) <==> from < t <= until && Boundary(t) && cal(t) {
      assert Boundary(t) && from < t ==> cur <= t;
    }
  }

  lemma {:induction false} AscendsUnique(s: seq<int>, t: seq<int>)
    requires Ascends(s) && Ascends(t) && forall x :: x in s <==> x in t
    ensures s == t
  {
    assert t != [] ==> t[0] in t;
    if s != [] {
      assert s[0] in s && s[0] in t;
      assert t[0] in s;
      assert s[0] == t[0];
      AscendsTail(s);
      AscendsTail(t);
      AscendsUnique(s[1..], t[1..]);
      assert s == [s[0]] + s[1..] && t == [t[0]] + t[1..];
    }
  }

  lemma AscendsTail(s: seq<int>)
    requires s != [] && Ascends(s)
    ensures Ascends(s[1..]) && forall x :: x in s[1..] <==> x in s && x != s[0]
  {
    forall x ensures x in s[1..] <==> x in s && x != s[0] {
      if x in s && x != s[0] {
        var i :| 0 <= i < |s| && s[i] == x;
        assert s[1..][i - 1] == x;
      }
    }
  }

  /** An interval splits anywhere. */
  lemma Split(cal: Calendar, from: int, mid: int, until: int)
    requires from <= mid <= until
    ensures AllMatches(cal, from, until) == AllMatches(cal, from, mid) + AllMatches(cal, mid, until)
  {
    var a, b := AllMatches(cal, from, mid), AllMatches(cal, mid, until);
    AllMatchesExact(cal, from, until);
    AllMatchesExact(cal, from, mid);
    AllMatchesExact(cal, mid, until);
    forall i, j | 0 <= i < j < |a + b| ensures (a + b)[i] < (a + b)[j] {
      assert (a + b)[i] in (if i < |a| then a else b) && (a + b)[j] in (if j < |a| then a else b);
    }
    AscendsUnique(AllMatches(cal, from, until), a + b);
  }

  /** What is left to do after the first matches were dealt with. */
  lemma Resume(cal: Calendar, from: int, until: int, k: nat)
    requires k < |AllMatches(cal, from, until)|
    ensures var t := AllMatches(cal, from, until)[k];
      from < t <= until && AllMatches(cal, from, t) == AllMatches(cal, from, until)[..k + 1]
  {
    var all := AllMatches(cal, from, until);
    var t := all[k];
    AllMatchesExact(cal, from, until);
    AllMatchesExact(cal, from, t);
    assert t in all;
    forall x ensures x in all[..k + 1] <==> x in AllMatches(cal, from, t) {
      if x in AllMatches(cal, from, t) {
        assert x in all;
        var i :| 0 <= i < |all| && all[i] == x;
        assert i <= k;
        assert all[..k + 1][i] == x;
      }
      if x in all[..k + 1] {
        var i :| 0 <= i < k + 1 && all[i] == x;
        assert all[i] in all;
      }
    }
    AscendsUnique(AllMatches(cal, from, t), all[..k + 1]);
  }

  /** As many matches as one pass over the interval reports. */
  function FirstMatches(cal: Calendar, from: int, until: int): seq<int> {
    var all := AllMatches(cal, from, until);
    if |all| <= MAX_MATCHES then all else all[..MAX_MATCHES]
  }

  /** The source drops the seconds before it rounds down; so the result is the
      same. */
  lemma FirstBoundary(from: int, second: int)
    requires second == from % MINUTE / SECOND
    ensures (from + MINUTE - second * SECOND) / MINUTE * MINUTE == NextBoundary(from)
  {
  }

  lemma FirstOnes(out: seq<int>, rest: seq<int>)
    requires |out| == MAX_MATCHES
    ensures (out + rest)[..MAX_MATCHES] == out
  {
  }

  method CronMatchesBetween(cal: Calendar, from: int, until: int) returns (out: seq<int>)
    ensures out == FirstMatches(cal, from, until)
  {
    if until <= from {
      return [];
    }
    var second := from % MINUTE / SECOND;
    var cur := (from + MINUTE - second * SECOND) / MINUTE * MINUTE;
    FirstBoundary(from, second);
    out := [];
    while cur <= until
      invariant |out| < MAX_MATCHES
      invariant AllMatches(cal, from, until) == out + MatchesFrom(cal, cur, until)
      decreases until - cur
    {
      if cal(cur) {
        out := out + [cur];
      }
      cur := cur + MINUTE;
      if |out| >= MAX_MATCHES {
        FirstOnes(out, MatchesFrom(cal, cur, until));
        break;
      }
    }
    assert cur > until ==> MatchesFrom(cal, cur, until) == [];
  }
}
