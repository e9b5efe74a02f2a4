/** pkg/memory/episodic.go: a chronological log kept in a key-value store, keyed
    by scope, owner and a big-endian clock that never repeats. */
module Episodic {
  import opened Keys
  import opened BigEndian
  import Lex
  import Sorting

  /** A caller's timestamp: Go's zero time, or nanoseconds since the epoch. */
  datatype Timestamp = Zero | At(nano: Int64)

  datatype Event = Event(nano: Int64, payload: Bytes)

  datatype Record = Record(scope: Bytes, owner: Bytes, event: Event)

  datatype Pair = Pair(key: Bytes, value: Event)

  const NUL: Bytes := ['\0']

  function Prefix(scope: Bytes, owner: Bytes): Bytes {
    scope + NUL + owner + NUL
  }

  function KeyOf(scope: Bytes, owner: Bytes, nano: Int64): Bytes {
    Prefix(scope, owner) + PutInt64(nano)
  }

  function RecordKey(r: Record): Bytes {
    KeyOf(r.scope, r.owner, r.event.nano)
  }

  /** The clock in a key; keys too short to hold one count as 0. */
  function DecodeNano(key: Bytes, prefixLen: nat): Int64 {
    if |key| < prefixLen + 8 then 0 else GetInt64(key[prefixLen..prefixLen + 8])
  }

  function ByClock(prefixLen: nat): (Pair, Pair) -> bool {
    (a: Pair, b: Pair) => DecodeNano(a.key, prefixLen) < DecodeNano(b.key, prefixLen)
  }

  /** Two records with different clocks never share a key. */
  lemma KeyFixesNano(r: Record, q: Record)
    requires RecordKey(r) == RecordKey(q)
    ensures r.event.nano == q.event.nano
  {
    var k := RecordKey(r);
    assert k[|k| - 8..] == PutInt64(r.event.nano) == PutInt64(q.event.nano);
    GetPutInt64(r.event.nano);
    GetPutInt64(q.event.nano);
  }

  lemma DecodeNanoOfKey(scope: Bytes, owner: Bytes, nano: Int64)
    ensures DecodeNano(KeyOf(scope, owner, nano), |Prefix(scope, owner)|) == nano
  {
    var p, k := |Prefix(scope, owner)|, KeyOf(scope, owner, nano);
    assert k[p..p + 8] == PutInt64(nano);
    GetPutInt64(nano);
  }

  /** Under one pair, byte order of keys is clock order. */
  lemma ByteOrderIsClockOrder(scope: Bytes, owner: Bytes, m: Int64, n: Int64)
    requires 0 <= m < n
    ensures Lex.Less(KeyOf(scope, owner, m), KeyOf(scope, owner, n))
  {
    Width8();
    OrderPreserved(m, n, 8);
    Lex.CommonPrefix(Prefix(scope, owner), PutInt64(m), PutInt64(n));
  }

  predicate NulFree(s: Bytes) {
    '\0' !in s
  }

  ghost predicate AllNulFree(log: seq<Record>) {
    forall r :: r in log ==> NulFree(r.scope) && NulFree(r.owner)
  }

  lemma SameCut(a: Bytes, x: Bytes, b: Bytes, y: Bytes)
    requires NulFree(a) && NulFree(b) && a + NUL + x <= b + NUL + y
    ensures a == b && x <= y
  {
    var s, t := a + NUL + x, b + NUL + y;
    assert s[|a|] == '\0' == t[|a|] && t[|b|] == '\0';
    assert forall i :: 0 <= i < |b| ==> t[i] == b[i] != '\0';
    assert forall i :: 0 <= i < |a| ==> s[i] == a[i] != '\0';
    assert forall i :: 0 <= i < |a| ==> s[i] == a[i] && t[i] == b[i];
    assert s[|a| + 1..] == x && t[|a| + 1..] == y;
    assert forall i :: 0 <= i < |x| ==> s[|a| + 1 + i] == x[i] && t[|a| + 1 + i] == y[i];
  }

  /** With NUL-free names a pair's prefix matches only that pair's keys. */
  lemma PrefixSelectsPair(scope: Bytes, owner: Bytes, r: Record)
    requires NulFree(scope) && NulFree(owner) && NulFree(r.scope) && NulFree(r.owner)
    ensures Prefix(scope, owner) <= RecordKey(r) <==> r.scope == scope && r.owner == owner
  {
    var tail := r.owner + NUL + PutInt64(r.event.nano);
    assert RecordKey(r) == r.scope + NUL + tail;
    if Prefix(scope, owner) <= RecordKey(r) {
      assert Prefix(scope, owner) == scope + NUL + (owner + NUL);
      SameCut(scope, owner + NUL, r.scope, tail);
      assert owner + NUL + [] == owner + NUL;
      SameCut(owner, [], r.owner, PutInt64(r.event.nano));
    }
  }

  /** A NUL in an owner's name puts its events into another owner's log. */
  lemma NulOwnersLeak(scope: Bytes, owner: Bytes, suffix: Bytes, event: Event)
    ensures Prefix(scope, owner) <= RecordKey(Record(scope, owner + NUL + suffix, event))
  {
    var k := RecordKey(Record(scope, owner + NUL + suffix, event));
    assert k == Prefix(scope, owner) + (suffix + NUL + PutInt64(event.nano));
  }

  /** The name before the first NUL, and what follows it. */
  lemma {:induction false} FirstNul(s: Bytes) returns (a: Bytes, x: Bytes)
    requires !NulFree(s)
    ensures NulFree(a) && s == a + NUL + x
  {
    if s[0] == '\0' {
      a, x := [], s[1..];
    } else {
      a, x := FirstNul(s[1..]);
      a := [s[0]] + a;
      assert s == [s[0]] + s[1..];
    }
  }

  /** Every key begins with the prefix of some NUL-free pair: what stands before
      its first NUL, and between that and the next. */
  lemma ReadBy(r: Record) returns (scope: Bytes, reader: Bytes)
    ensures NulFree(scope) && NulFree(reader) && Prefix(scope, reader) <= RecordKey(r)
  {
    var names := r.scope + NUL + r.owner;
    var x;
    scope, x := FirstNul(names);
    assert RecordKey(r) == names + NUL + PutInt64(r.event.nano);
    if NulFree(x) {
      reader := x;
      assert RecordKey(r) == Prefix(scope, reader) + PutInt64(r.event.nano);
    } else {
      var y;
      reader, y := FirstNul(x);
      assert RecordKey(r) == Prefix(scope, reader) + (y + NUL + PutInt64(r.event.nano));
    }
  }

  /** No NUL-free pair's prefix but their own matches the keys of an owner. */
  ghost predicate KeysApart(scope: Bytes, owner: Bytes) {
    forall space, reader, event ::
      NulFree(space) && NulFree(reader) && Prefix(space, reader) <= RecordKey(Record(scope, owner, event)) ==>
        space == scope && reader == owner
  }

  /** An owner's keys stay out of all other pairs' prefixes exactly when neither its
      scope nor its name holds a NUL. */
  lemma OwnersKeepApart(scope: Bytes, owner: Bytes)
    ensures KeysApart(scope, owner) <==> NulFree(scope) && NulFree(owner)
  {
    if NulFree(scope) && NulFree(owner) {
      forall space, reader, event |
        NulFree(space) && NulFree(reader) && Prefix(space, reader) <= RecordKey(Record(scope, owner, event))
        ensures space == scope && reader == owner
      {
        PrefixSelectsPair(space, reader, Record(scope, owner, event));
      }
    } else {
      var space, reader := ReadBy(Record(scope, owner, Event(0, [])));
    }
  }

  // ------------------------------------------------------- the abstract log

  /** The events appended under one pair, oldest first. */
  function EventsOf(log: seq<Record>, scope: Bytes, owner: Bytes): seq<Event> {
    if log == [] then []
    else
      var last := log[|log| - 1];
      EventsOf(log[..|log| - 1], scope, owner)
      + if last.scope == scope && last.owner == owner then [last.event] else []
  }

  function Reverse(s: seq<Event>): seq<Event> {
    if s == [] then [] else Reverse(s[1..]) + [s[0]]
  }

  function Newest(s: seq<Event>, n: int): seq<Event> {
    if n <= 0 then [] else if |s| > n then Reverse(s[|s| - n..]) else Reverse(s)
  }

  lemma {:induction false} ReverseAt(s: seq<Event>)
    ensures |Reverse(s)| == |s| && forall k :: 0 <= k < |s| ==> Reverse(s)[k] == s[|s| - 1 - k]
  {
    if s != [] { ReverseAt(s[1..]); }
  }

  /** The last of the events, at most `n` of them, from the last one back. */
  lemma NewestAreLast(s: seq<Event>, n: int)
    ensures |Newest(s, n)| == if n <= 0 then 0 else if |s| <= n then |s| else n
    ensures forall k :: 0 <= k < |Newest(s, n)| ==> Newest(s, n)[k] == s[|s| - 1 - k]
  {
    ReverseAt(s);
    if 0 < n < |s| { ReverseAt(s[|s| - n..]); }
  }

  ghost predicate NanosAscend(events: seq<Event>) {
    forall i, j :: 0 <= i < j < |events| ==> events[i].nano < events[j].nano
  }

  ghost predicate ClockAscends(log: seq<Record>) {
    forall i, j :: 0 <= i < j < |log| ==> log[i].event.nano < log[j].event.nano
  }

  /** The entries are the log's records under their keys, and nothing else. */
  ghost predicate Stores(entries: map<Bytes, Event>, lastNano: Int64, log: seq<Record>) {
    && lastNano >= 0 && ClockAscends(log)
    && (forall r :: r in log ==> 0 < r.event.nano <= lastNano)
    && (forall r :: r in log ==> RecordKey(r) in entries && entries[RecordKey(r)] == r.event)
    && (forall k :: k in entries ==> Keyed(log, k))
  }

  ghost predicate Keyed(log: seq<Record>, k: Bytes) {
    exists r :: r in log && RecordKey(r) == k
  }

  /** The clock an append uses: the caller's, or one past the last used, which
      wraps around behind the last 64-bit nanosecond. */
  function NextNano(asked: Int64, last: Int64): (nano: Int64)
    ensures nano > last <==> last < TWO_TO_THE_63 - 1
    ensures asked > last ==> nano == asked
    ensures asked <= last < TWO_TO_THE_63 - 1 ==> nano == last + 1
  {
    if asked > last then asked else if last == TWO_TO_THE_63 - 1 then -TWO_TO_THE_63 else last + 1
  }

  lemma StoresAppend(entries: map<Bytes, Event>, lastNano: Int64, log: seq<Record>, r: Record)
    requires Stores(entries, lastNano, log) && r.event.nano > lastNano
    ensures Stores(entries[RecordKey(r) := r.event], r.event.nano, log + [r])
  {
    assert ClockAscends(log + [r]) by {
      assert forall q :: q in log ==> q.event.nano <= lastNano;
    }
    AppendKeepsRecords(entries, lastNano, log, r);
    AppendKeepsKeys(entries, lastNano, log, r);
  }

  lemma AppendKeepsRecords(entries: map<Bytes, Event>, lastNano: Int64, log: seq<Record>, r: Record)
    requires Stores(entries, lastNano, log) && r.event.nano > lastNano
    ensures forall q :: q in log + [r] ==>
              RecordKey(q) in entries[RecordKey(r) := r.event] &&
                entries[RecordKey(r) := r.event][RecordKey(q)] == q.event
  {
    forall q | q in log ensures RecordKey(q) != RecordKey(r) {
      if RecordKey(q) == RecordKey(r) { KeyFixesNano(q, r); }
    }
  }

  lemma AppendKeepsKeys(entries: map<Bytes, Event>, lastNano: Int64, log: seq<Record>, r: Record)
    requires Stores(entries, lastNano, log)
    ensures forall k :: k in entries[RecordKey(r) := r.event] ==> Keyed(log + [r], k)
  {
    forall k | k in entries[RecordKey(r) := r.event] ensures Keyed(log + [r], k) {
      if k == RecordKey(r) {
        assert r in log + [r];
      } else {
        var q :| q in log && RecordKey(q) == k;
        assert q in log + [r];
      }
    }
  }

  function Values(pairs: seq<Pair>): (v: seq<Event>)
    ensures |v| == |pairs|
  {
    if pairs == [] then [] else [pairs[0].value] + Values(pairs[1..])
  }

  lemma {:induction false} ValuesSlice(pairs: seq<Pair>, k: nat)
    requires k <= |pairs|
    ensures Values(pairs[k..]) == Values(pairs)[k..]
  {
    if k > 0 {
      ValuesSlice(pairs[1..], k - 1);
      assert pairs[1..][k - 1..] == pairs[k..];
    } else {
      assert pairs[0..] == pairs;
    }
  }

  function KeyedPairs(scope: Bytes, owner: Bytes, events: seq<Event>): seq<Pair> {
    seq(|events|, i requires 0 <= i < |events| => Pair(KeyOf(scope, owner, events[i].nano), events[i]))
  }

  lemma KeyedAscend(scope: Bytes, owner: Bytes, events: seq<Event>)
    requires NanosAscend(events)
    ensures Sorting.Ascending(KeyedPairs(scope, owner, events), ByClock(|Prefix(scope, owner)|))
  {
    var t, n := KeyedPairs(scope, owner, events), |Prefix(scope, owner)|;
    forall i | 0 <= i < |t| ensures DecodeNano(t[i].key, n) == events[i].nano {
      DecodeNanoOfKey(scope, owner, events[i].nano);
    }
  }

  /** Keeping the end of a listing keeps the end of its events. */
  lemma NewestOfValues(sorted: seq<Pair>, n: nat)
    requires n > 0
    ensures Reverse(Values(if |sorted| > n then sorted[|sorted| - n..] else sorted)) == Newest(Values(sorted), n)
  {
    var k := if |sorted| > n then |sorted| - n else 0;
    ValuesSlice(sorted, k);
    assert sorted[0..] == sorted && Values(sorted)[0..] == Values(sorted);
  }

  method NewestFirst(pairs: seq<Pair>) returns (out: seq<Event>)
    ensures out == Reverse(Values(pairs))
  {
    out := [];
    var i := |pairs|;
    while i > 0
      invariant 0 <= i <= |pairs|
      invariant out == Reverse(Values(pairs[i..]))
    {
      i := i - 1;
      out := out + [pairs[i].value];
      assert pairs[i..][1..] == pairs[i + 1..];
      assert Values(pairs[i..]) == [pairs[i].value] + Values(pairs[i + 1..]);
    }
    assert pairs[0..] == pairs;
  }

  lemma {:induction false} ValuesOfKeyed(scope: Bytes, owner: Bytes, events: seq<Event>)
    ensures Values(KeyedPairs(scope, owner, events)) == events
  {
    if events != [] {
      ValuesOfKeyed(scope, owner, events[1..]);
      assert KeyedPairs(scope, owner, events)[1..] == KeyedPairs(scope, owner, events[1..]);
    }
  }

  /** A pair's events are exactly its records, in strictly ascending clock order. */
  lemma {:induction false} EventsOfLog(log: seq<Record>, scope: Bytes, owner: Bytes)
    requires ClockAscends(log)
    ensures var events := EventsOf(log, scope, owner);
      && (forall e :: e in events <==> Record(scope, owner, e) in log)
      && NanosAscend(events)
  {
    if log != [] {
      var init, last := log[..|log| - 1], log[|log| - 1];
      assert log == init + [last];
      ClockPrefix(log);
      EventsOfLog(init, scope, owner);
      EventsOfAppend(init, last, scope, owner);
    }
  }

  lemma ClockPrefix(log: seq<Record>)
    requires log != [] && ClockAscends(log)
    ensures ClockAscends(log[..|log| - 1])
  {
  }

  lemma EventsOfAppend(init: seq<Record>, last: Record, scope: Bytes, owner: Bytes)
    requires ClockAscends(init + [last])
    requires forall e :: e in EventsOf(init, scope, owner) <==> Record(scope, owner, e) in init
    requires NanosAscend(EventsOf(init, scope, owner))
    ensures var events := EventsOf(init + [last], scope, owner);
      && (forall e :: e in events <==> Record(scope, owner, e) in init + [last])
      && NanosAscend(events)
  {
    var log, was := init + [last], EventsOf(init, scope, owner);
    assert log[..|log| - 1] == init && log[|log| - 1] == last;
    forall e | e in EventsOf(init, scope, owner) ensures e.nano < last.event.nano {
      var i :| 0 <= i < |init| && init[i] == Record(scope, owner, e);
      assert log[i].event.nano < log[|log| - 1].event.nano;
    }
    var events := EventsOf(log, scope, owner);
    assert events == was + (if last.scope == scope && last.owner == owner then [last.event] else []);
    forall i, j | 0 <= i < j < |events| ensures events[i].nano < events[j].nano {
      assert events[i] == was[i] && was[i] in was;
      assert j < |was| ==> events[j] == was[j];
    }
  }

  // -------------------------------------------------------------- the answers

  /** `store.List`: the pairs whose key has the prefix, in any order. */
  ghost predicate IsListing(entries: map<Bytes, Event>, prefix: Bytes, listed: seq<Pair>) {
    && (forall p :: p in listed <==> p.key in entries && prefix <= p.key && entries[p.key] == p.value)
    && (forall i, j :: 0 <= i < j < |listed| ==> listed[i] != listed[j])
  }

  /** What a reader is given of a listing. */
  function Answer(listed: seq<Pair>, prefix: Bytes, n: int): seq<Event> {
    Newest(Values(Sorting.Sort(listed, ByClock(|prefix|))), n)
  }

  /** Sorting the listing by clock gives the pair's events in append order. */
  lemma SortedListing(entries: map<Bytes, Event>, lastNano: Int64, log: seq<Record>, scope: Bytes, owner: Bytes,
                      listed: seq<Pair>)
    requires Stores(entries, lastNano, log) && NulFree(scope) && NulFree(owner) && AllNulFree(log)
    requires IsListing(entries, Prefix(scope, owner), listed)
    ensures Values(Sorting.Sort(listed, ByClock(|Prefix(scope, owner)|))) == EventsOf(log, scope, owner)
  {
    var events := EventsOf(log, scope, owner);
    EventsOfLog(log, scope, owner);
    KeyedAscend(scope, owner, events);
    forall p ensures p in listed <==> p in KeyedPairs(scope, owner, events) {
      PairIsListed(entries, lastNano, log, scope, owner, p);
    }
    Sorting.SortListing(listed, KeyedPairs(scope, owner, events), ByClock(|Prefix(scope, owner)|));
    ValuesOfKeyed(scope, owner, events);
  }

  /** The stored pairs under a prefix are the pair's own events. */
  lemma PairIsListed(entries: map<Bytes, Event>, lastNano: Int64, log: seq<Record>, scope: Bytes, owner: Bytes, p: Pair)
    requires Stores(entries, lastNano, log) && NulFree(scope) && NulFree(owner) && AllNulFree(log)
    ensures p in KeyedPairs(scope, owner, EventsOf(log, scope, owner))
            <==> p.key in entries && Prefix(scope, owner) <= p.key && entries[p.key] == p.value
  {
    var events := EventsOf(log, scope, owner);
    var t := KeyedPairs(scope, owner, events);
    EventsOfLog(log, scope, owner);
    if p in t {
      var i :| 0 <= i < |t| && t[i] == p;
      var r := Record(scope, owner, events[i]);
      assert r in log;
      PrefixSelectsPair(scope, owner, r);
    }
    if p.key in entries && Prefix(scope, owner) <= p.key && entries[p.key] == p.value {
      var r :| r in log && RecordKey(r) == p.key;
      PrefixSelectsPair(scope, owner, r);
      assert r.event in events;
      var i :| 0 <= i < |events| && events[i] == r.event;
      assert t[i] == Pair(RecordKey(r), r.event);
    }
  }

  // ---------------------------------------------------------- the Go object

  class BoltEpisodic {
    var entries: map<Bytes, Event>
    var lastNano: Int64
    ghost var log: seq<Record>
    /** No append has yet wrapped the clock around. */
    ghost var inOrder: bool

    ghost predicate Valid()
      reads this
    {
      inOrder ==> Stores(entries, lastNano, log)
    }

    constructor ()
      ensures Valid() && log == [] && lastNano == 0 && inOrder
    {
      entries, lastNano, log, inOrder := map[], 0, [], true;
    }

    /** Appends one event whatever the caller's clock says: past, repeated and
        zero timestamps are bumped past the last one used. */
    method Append(scope: Bytes, owner: Bytes, ts: Timestamp, payload: Bytes, now: Int64)
      requires Valid()
      modifies this
      ensures Valid()
      ensures lastNano == NextNano(if ts.Zero? then now else ts.nano, old(lastNano))
      ensures log == old(log) + [Record(scope, owner, Event(lastNano, payload))]
      ensures entries == old(entries)[KeyOf(scope, owner, lastNano) := Event(lastNano, payload)]
      ensures inOrder == (old(inOrder) && old(lastNano) < lastNano)
      ensures old(lastNano) < lastNano <==> old(lastNano) < TWO_TO_THE_63 - 1
    {
      var nano: Int64 := if ts.Zero? then now else ts.nano;
      if nano <= lastNano {
        nano := ToInt64((ToUint64(lastNano) + 1) % TWO_TO_THE_64);
      }
      inOrder := inOrder && lastNano < nano;
      lastNano := nano;
      var r := Record(scope, owner, Event(nano, payload));
      if inOrder {
        StoresAppend(entries, old(lastNano), log, r);
      }
      entries := entries[KeyOf(scope, owner, nano) := r.event];
      log := log + [r];
    }

    method ListPrefix(prefix: Bytes) returns (pairs: seq<Pair>)
      ensures IsListing(entries, prefix, pairs)
    {
      pairs := [];
      var todo := entries.Keys;
      while todo != {}
        invariant todo <= entries.Keys
        invariant forall p ::
          p in pairs <==> p.key in entries.Keys - todo && prefix <= p.key && entries[p.key] == p.value
        invariant forall i, j :: 0 <= i < j < |pairs| ==> pairs[i] != pairs[j]
        decreases |todo|
      {
        var k :| k in todo;
        todo := todo - {k};
        if prefix <= k {
          pairs := pairs + [Pair(k, entries[k])];
        }
      }
    }

    /** The last n events of the pair, newest first. */
    method Recent(scope: Bytes, owner: Bytes, n: int) returns (out: seq<Event>)
      requires Valid()
      ensures n <= 0 ==> out == []
      ensures n > 0 ==> exists listed ::
        IsListing(entries, Prefix(scope, owner), listed) && out == Answer(listed, Prefix(scope, owner), n)
      ensures inOrder && NulFree(scope) && NulFree(owner) && AllNulFree(log) ==>
        out == Newest(EventsOf(log, scope, owner), n)
    {
      if n <= 0 {
        return [];
      }
      var prefix := Prefix(scope, owner);
      var pairs := ListPrefix(prefix);
      ghost var listed := pairs;
      if inOrder && NulFree(scope) && NulFree(owner) && AllNulFree(log) {
        SortedListing(entries, lastNano, log, scope, owner, pairs);
      }
      pairs := Sorting.Sort(pairs, ByClock(|prefix|));
      NewestOfValues(pairs, n);
      if |pairs| > n {
        pairs := pairs[|pairs| - n..];
      }
      out := NewestFirst(pairs);
      assert IsListing(entries, prefix, listed) && out == Answer(listed, prefix, n);
    }
  }

  // ------------------------------------------------------------ wrong answers

  lemma {:induction false} ListingOf(entries: map<Bytes, Event>, prefix: Bytes, keys: set<Bytes>)
    returns (listed: seq<Pair>)
    requires keys <= entries.Keys
    ensures forall p :: p in listed <==> p.key in keys && prefix <= p.key && entries[p.key] == p.value
    ensures forall i, j :: 0 <= i < j < |listed| ==> listed[i] != listed[j]
    decreases |keys|
  {
    if keys == {} {
      listed := [];
    } else {
      var k :| k in keys;
      listed := ListingOf(entries, prefix, keys - {k});
      if prefix <= k { listed := listed + [Pair(k, entries[k])]; }
    }
  }

  lemma {:induction false} ReverseHas(s: seq<Event>, e: Event)
    ensures e in Reverse(s) <==> e in s
  {
    if s != [] {
      ReverseHas(s[1..], e);
      assert s == [s[0]] + s[1..];
    }
  }

  lemma {:induction false} ValuesHave(pairs: seq<Pair>, p: Pair)
    requires p in pairs
    ensures p.value in Values(pairs)
  {
    if p != pairs[0] {
      assert p in pairs[1..];
      ValuesHave(pairs[1..], p);
    }
  }

  /** An answer long enough holds everything that is listed. */
  lemma AnswerHas(listed: seq<Pair>, prefix: Bytes, p: Pair)
    requires p in listed
    ensures p.value in Answer(listed, prefix, |listed|)
  {
    var sorted := Sorting.Sort(listed, ByClock(|prefix|));
    Sorting.SortKeeps(listed, ByClock(|prefix|));
    ValuesHave(sorted, p);
    ReverseHas(Values(sorted), p.value);
  }

  lemma NewestHas(events: seq<Event>, n: nat, e: Event)
    requires e in Newest(events, n)
    ensures e in events
  {
    var tail := if |events| > n then events[|events| - n..] else events;
    if n > 0 {
      ReverseHas(tail, e);
      assert forall x :: x in tail ==> x in events;
    }
  }

  /** Every NUL-free reader of this store is answered with its own events, the
      newest first, however many it asks for. */
  ghost predicate AnswersOwn(entries: map<Bytes, Event>, log: seq<Record>) {
    forall scope, reader, listed, n: nat ::
      NulFree(scope) && NulFree(reader) && IsListing(entries, Prefix(scope, reader), listed) ==>
        Answer(listed, Prefix(scope, reader), n) == Newest(EventsOf(log, scope, reader), n)
  }

  /** Somebody is answered with an event of a name that holds a NUL. */
  lemma NulIsRead(entries: map<Bytes, Event>, lastNano: Int64, log: seq<Record>, r: Record)
    requires Stores(entries, lastNano, log) && r in log && !(NulFree(r.scope) && NulFree(r.owner))
    ensures !AnswersOwn(entries, log)
  {
    var scope, reader := ReadBy(r);
    var prefix := Prefix(scope, reader);
    var listed := ListingOf(entries, prefix, entries.Keys);
    var n := |listed|;
    AnswerHas(listed, prefix, Pair(RecordKey(r), r.event));
    if Answer(listed, prefix, n) == Newest(EventsOf(log, scope, reader), n) {
      NewestHas(EventsOf(log, scope, reader), n, r.event);
      EventsOfLog(log, scope, reader);
      OneRecord(log, r, Record(scope, reader, r.event));
    }
  }

  /** No two records of a log share a clock. */
  lemma OneRecord(log: seq<Record>, r: Record, q: Record)
    requires ClockAscends(log) && r in log && q in log && r.event.nano == q.event.nano
    ensures r == q
  {
    var i :| 0 <= i < |log| && log[i] == r;
    var j :| 0 <= j < |log| && log[j] == q;
  }

  /** Over any log, everybody is answered with the own events exactly when no scope
      and no owner in it holds a NUL. */
  lemma RecentSeparates(entries: map<Bytes, Event>, lastNano: Int64, log: seq<Record>)
    requires Stores(entries, lastNano, log)
    ensures AnswersOwn(entries, log) <==> AllNulFree(log)
  {
    if AllNulFree(log) {
      forall scope, reader, listed, n: nat |
        NulFree(scope) && NulFree(reader) && IsListing(entries, Prefix(scope, reader), listed)
        ensures Answer(listed, Prefix(scope, reader), n) == Newest(EventsOf(log, scope, reader), n)
      {
        SortedListing(entries, lastNano, log, scope, reader, listed);
      }
    } else {
      var r :| r in log && !(NulFree(r.scope) && NulFree(r.owner));
      NulIsRead(entries, lastNano, log, r);
    }
  }

  lemma ReverseOne(e: Event)
    ensures Reverse([e]) == [e]
  {
    assert [e][1..] == [];
  }

  /** The store after two appends of one pair, the second past the last 64-bit
      nanosecond. */
  function AfterWrap(scope: Bytes, owner: Bytes, first: Bytes, second: Bytes): map<Bytes, Event> {
    map[KeyOf(scope, owner, TWO_TO_THE_63 - 1) := Event(TWO_TO_THE_63 - 1, first),
        KeyOf(scope, owner, -TWO_TO_THE_63) := Event(-TWO_TO_THE_63, second)]
  }

  /** Behind a wrap the older event passes for the newest. */
  lemma WrapHidesNewest(scope: Bytes, owner: Bytes, first: Bytes, second: Bytes, listed: seq<Pair>)
    requires IsListing(AfterWrap(scope, owner, first, second), Prefix(scope, owner), listed)
    ensures Answer(listed, Prefix(scope, owner), 1) == [Event(TWO_TO_THE_63 - 1, first)]
    ensures NextNano(TWO_TO_THE_63 - 1, TWO_TO_THE_63 - 1) == -TWO_TO_THE_63
  {
    var early, late := Event(TWO_TO_THE_63 - 1, first), Event(-TWO_TO_THE_63, second);
    var n := |Prefix(scope, owner)|;
    var a, b := Pair(KeyOf(scope, owner, early.nano), early), Pair(KeyOf(scope, owner, late.nano), late);
    DecodeNanoOfKey(scope, owner, early.nano);
    DecodeNanoOfKey(scope, owner, late.nano);
    forall p ensures p in listed <==> p in [b, a] {
    }
    Sorting.SortListing(listed, [b, a], ByClock(n));
    assert [b, a][1..] == [a] && Values([a]) == [early] && Values([b, a]) == [late, early];
    assert [late, early][1..] == [early];
    ReverseOne(early);
  }
}
