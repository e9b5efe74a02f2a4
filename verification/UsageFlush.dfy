/** Flushes: what moves, what a failing store loses, and what a flush does to a
    bucket that started over after it was persisted. */
module UsageFlush {
  import opened Keys
  import opened Options
  import opened Usage
  import opened UsageLedger
  import opened UsageReport
  import Lex
  import Sorting

  /** Every live row sits under the key made of its own fields. */
  ghost predicate KeyedRows(live: Rows) {
    forall k :: k in live ==> k == RowKey(live[k])
  }

  function StillLive(live: Rows, cut: string): Rows {
    map k | k in live && !Lex.Less(live[k].window, cut) :: live[k]
  }

  /** The buckets a flush takes out of memory. */
  function ClosedKeys(live: Rows, cut: string): set<string> {
    set k | k in live && Lex.Less(live[k].window, cut)
  }

  predicate ClosedRow(live: Rows, cut: string, r: Row) {
    RowKey(r) in live && live[RowKey(r)] == r && Lex.Less(r.window, cut)
  }

  /** The closed rows, in the order one iteration happens to give. */
  ghost predicate Lists(live: Rows, cut: string, closed: seq<Row>) {
    && (forall i, j :: 0 <= i < j < |closed| ==> closed[i] != closed[j])
    && (forall r :: r in closed <==> ClosedRow(live, cut, r))
  }

  function RowKeys(rows: seq<Row>): set<string> {
    set r | r in rows :: RowKey(r)
  }

  lemma RowKeysAppend(rows: seq<Row>, r: Row)
    ensures RowKeys(rows + [r]) == RowKeys(rows) + {RowKey(r)}
  {
  }

  lemma {:induction false} DistinctRowKeys(rows: seq<Row>)
    requires forall i, j :: 0 <= i < j < |rows| ==> RowKey(rows[i]) != RowKey(rows[j])
    ensures |RowKeys(rows)| == |rows|
  {
    if rows != [] {
      var init, last := rows[..|rows| - 1], rows[|rows| - 1];
      DistinctRowKeys(init);
      assert rows == init + [last];
      RowKeysAppend(init, last);
      assert RowKey(last) !in RowKeys(init);
    }
  }

  lemma ListsAll(live: Rows, cut: string, closed: seq<Row>)
    requires KeyedRows(live) && Lists(live, cut, closed)
    ensures |closed| == |ClosedKeys(live, cut)|
  {
    assert forall i :: 0 <= i < |closed| ==> closed[i] in closed;
    DistinctRowKeys(closed);
    forall k | k in ClosedKeys(live, cut) ensures k in RowKeys(closed) {
      assert ClosedRow(live, cut, live[k]);
      var i :| 0 <= i < |closed| && closed[i] == live[k];
    }
    assert RowKeys(closed) == ClosedKeys(live, cut);
  }

  lemma StoreKeyFixesRowKey(a: Row, b: Row)
    requires StoreKey(a) == StoreKey(b)
    ensures RowKey(a) == RowKey(b)
  {
    var p, q := [a.window, a.api, a.agent, a.image], [b.window, b.api, b.agent, b.image];
    KeyInjective(p, q);
    assert p[0] == q[0] && p[1] == q[1] && p[2] == q[2] && p[3] == q[3];
  }

  // ---------------------------------------------------------------- the writes

  ghost predicate WrittenRow(rows: seq<Row>, key: string) {
    exists r :: r in rows && StoreKey(r) == key
  }

  /** What writing some rows does to the store. */
  ghost predicate Written(before: Rows, after: Rows, rows: seq<Row>) {
    && (forall r :: r in rows ==> StoreKey(r) in after && after[StoreKey(r)] == r)
    && (forall key :: key in after ==> (key in before && after[key] == before[key]) || WrittenRow(rows, key))
    && (forall key :: key in before ==> key in after)
  }

  lemma WrittenOneMore(before: Rows, after: Rows, rows: seq<Row>, r: Row)
    requires Written(before, after, rows)
    requires forall p :: p in rows && StoreKey(p) == StoreKey(r) ==> p == r
    ensures Written(before, after[StoreKey(r) := r], rows + [r])
  {
    var next := after[StoreKey(r) := r];
    forall key | key in next ensures (key in before && next[key] == before[key]) || WrittenRow(rows + [r], key) {
      if key == StoreKey(r) {
        assert r in rows + [r];
      } else if !(key in before && next[key] == before[key]) {
        var p :| p in rows && StoreKey(p) == key;
        assert p in rows + [r];
      }
    }
  }

  lemma WrittenIsMoved(live: Rows, stored: Rows, stored': Rows, cut: string, closed: seq<Row>)
    requires KeyedRows(live) && Written(stored, stored', closed)
    requires forall r :: r in closed <==> ClosedRow(live, cut, r)
    ensures Moved(live, stored, StillLive(live, cut), stored', cut)
  {
    var live' := StillLive(live, cut);
    forall k | k in live && k !in live'
      ensures StoreKey(live[k]) in stored' && stored'[StoreKey(live[k])] == live[k]
    {
      assert ClosedRow(live, cut, live[k]);
    }
    forall key | key in stored'
      ensures FromFlush(live, live', key) || (key in stored && stored'[key] == stored[key])
    {
      if !(key in stored && stored'[key] == stored[key]) {
        var r :| r in closed && StoreKey(r) == key;
        assert ClosedRow(live, cut, r);
        assert RowKey(r) in live && RowKey(r) !in live' && StoreKey(live[RowKey(r)]) == key;
      }
    }
  }

  // -------------------------------------------------------------- a whole flush

  /** The closed rows leave memory; the store takes the first `room` of them. */
  ghost predicate Flushed(live: Rows, stored: Rows, live': Rows, stored': Rows, cut: string, closed: seq<Row>,
                          room: nat) {
    && Lists(live, cut, closed) && live' == StillLive(live, cut)
    && Written(stored, stored', closed[..if |closed| <= room then |closed| else room])
  }

  /** The bucket's row was taken out of memory and not written. */
  ghost predicate Lost(text: Clock, closed: seq<Row>, room: nat, b: Bucket) {
    exists i :: room <= i < |closed| && RowKey(closed[i]) == LiveKeyOf(text, b)
  }

  /** The bucket behind a closed row. */
  lemma ClosedBucket(text: Clock, live: Rows, stored: Rows, ticks: seq<Sample>, cut: string, r: Row)
    returns (b: Bucket)
    requires Tallies(text, live, stored, ticks) && ClosedRow(live, cut, r)
    ensures LiveHolds(text, live, stored, ticks, RowKey(r), b) && PlainBucket(b)
    ensures StoreKey(r) == StoreKeyOf(text, b)
  {
    TalliesAreSound(text, live, stored, ticks, EVERYTHING);
    b :| LiveHolds(text, live, stored, ticks, RowKey(r), b);
  }

  lemma StillHolds(text: Clock, live: Rows, stored: Rows, ticks: seq<Sample>, stored': Rows, cut: string,
                   closed: seq<Row>, rows: seq<Row>, k: string, b: Bucket)
    requires KeyedRows(live) && Lists(live, cut, closed) && rows <= closed && Written(stored, stored', rows)
    requires k in StillLive(live, cut) && LiveHolds(text, live, stored, ticks, k, b)
    ensures LiveHolds(text, StillLive(live, cut), stored', ticks, k, b)
  {
    if StoreKeyOf(text, b) in stored' {
      var r :| r in rows && StoreKey(r) == StoreKeyOf(text, b);
      assert r in closed;
      StoreKeyFixesRowKey(r, live[k]);
    }
  }

  lemma StoredStillHolds(text: Clock, live: Rows, stored: Rows, ticks: seq<Sample>, stored': Rows, cut: string,
                         closed: seq<Row>, rows: seq<Row>, key: string) returns (b: Bucket)
    requires Rfc3339(text) && Tallies(text, live, stored, ticks) && Sound(text, live, stored, ticks)
    requires Lists(live, cut, closed) && rows <= closed && Written(stored, stored', rows) && key in stored'
    ensures StoredHolds(text, stored', ticks, key, b)
  {
    if key in stored && stored'[key] == stored[key] {
      b :| StoredHolds(text, stored, ticks, key, b);
    } else {
      var r :| r in rows && StoreKey(r) == key;
      assert r in closed;
      b := ClosedBucket(text, live, stored, ticks, cut, r);
    }
  }

  lemma FlushIsSound(text: Clock, live: Rows, stored: Rows, ticks: seq<Sample>, live': Rows, stored': Rows,
                     cut: string, closed: seq<Row>, room: nat)
    requires Rfc3339(text) && KeyedRows(live) && Tallies(text, live, stored, ticks)
    requires Flushed(live, stored, live', stored', cut, closed, room)
    ensures Sound(text, live', stored', ticks)
  {
    var rows := closed[..if |closed| <= room then |closed| else room];
    TalliesAreSound(text, live, stored, ticks, EVERYTHING);
    forall k | k in live' ensures exists b :: LiveHolds(text, live', stored', ticks, k, b) {
      var b :| LiveHolds(text, live, stored, ticks, k, b);
      StillHolds(text, live, stored, ticks, stored', cut, closed, rows, k, b);
    }
    forall key | key in stored' ensures exists b :: StoredHolds(text, stored', ticks, key, b) {
      var b := StoredStillHolds(text, live, stored, ticks, stored', cut, closed, rows, key);
    }
  }

  lemma LostIsNotHeld(text: Clock, live: Rows, stored: Rows, ticks: seq<Sample>, live': Rows, stored': Rows,
                      cut: string, closed: seq<Row>, room: nat, i: nat, b: Bucket)
    requires KeyedRows(live) && Flushed(live, stored, live', stored', cut, closed, room) && room <= i < |closed|
    requires LiveHolds(text, live, stored, ticks, RowKey(closed[i]), b)
    ensures !Held(text, live', stored', b)
  {
    assert ClosedRow(live, cut, closed[i]);
    if StoreKeyOf(text, b) in stored' {
      var r :| r in closed[..room] && StoreKey(r) == StoreKeyOf(text, b);
      var j :| 0 <= j < room && closed[j] == r;
      assert ClosedRow(live, cut, closed[j]) && closed[j] != closed[i];
      StoreKeyFixesRowKey(closed[j], closed[i]);
    }
  }

  /** Exactly the buckets whose write was not reached are gone. */
  lemma HeldAfterFlush(text: Clock, live: Rows, stored: Rows, ticks: seq<Sample>, live': Rows, stored': Rows,
                       cut: string, closed: seq<Row>, room: nat, b: Bucket)
    requires Rfc3339(text) && KeyedRows(live) && Tallies(text, live, stored, ticks) && Ticks(ticks, b)
    requires Flushed(live, stored, live', stored', cut, closed, room)
    ensures Held(text, live', stored', b) <==> !Lost(text, closed, room, b)
  {
    var k := LiveKeyOf(text, b);
    assert PlainBucket(b) && InPlace(text, live, stored, ticks, b);
    if Lost(text, closed, room, b) {
      var i :| room <= i < |closed| && RowKey(closed[i]) == k;
      assert ClosedRow(live, cut, closed[i]);
      assert LiveHolds(text, live, stored, ticks, RowKey(closed[i]), b);
      LostIsNotHeld(text, live, stored, ticks, live', stored', cut, closed, room, i, b);
    } else if k in live && k !in live' {
      assert ClosedRow(live, cut, live[k]);
      var i :| 0 <= i < |closed| && closed[i] == live[k];
      assert i < room;
      assert live[k] in closed[..if |closed| <= room then |closed| else room];
      assert StoreKey(live[k]) == StoreKeyOf(text, b);
    }
  }

  const EVERYTHING := Query("", "", "", None, None)

  /** After a flush the answer to a query is still the report exactly when no row
      it asks for was among those the store did not take. */
  lemma FlushReports(text: Clock, live: Rows, stored: Rows, ticks: seq<Sample>, live': Rows, stored': Rows,
                     cut: string, closed: seq<Row>, room: nat, liveKeys: seq<string>, storedKeys: seq<string>,
                     q: Query, out: seq<Row>)
    requires Rfc3339(text) && PlainQuery(q) && KeyedRows(live) && Tallies(text, live, stored, ticks)
    requires Flushed(live, stored, live', stored', cut, closed, room)
    requires Finds(text, live', stored', liveKeys, storedKeys, q, out)
    ensures IsReport(text, ticks, q, out) <==> forall i :: room <= i < |closed| ==> !Matches(text, closed[i], q)
  {
    FlushIsSound(text, live, stored, ticks, live', stored', cut, closed, room);
    ReportIsComplete(text, live', stored', ticks, liveKeys, storedKeys, q, out);
    forall i | room <= i < |closed| ensures exists b ::
      Ticks(ticks, b) && !Held(text, live', stored', b) && (Selects(q, b) <==> Matches(text, closed[i], q))
    {
      assert ClosedRow(live, cut, closed[i]);
      var b := ClosedBucket(text, live, stored, ticks, cut, closed[i]);
      MatchesIsSelects(text, b, closed[i].used, q);
      LostIsNotHeld(text, live, stored, ticks, live', stored', cut, closed, room, i, b);
    }
    forall b | Ticks(ticks, b) && Selects(q, b) && !Held(text, live', stored', b)
      ensures exists i :: room <= i < |closed| && Matches(text, closed[i], q)
    {
      HeldAfterFlush(text, live, stored, ticks, live', stored', cut, closed, room, b);
      var i :| room <= i < |closed| && RowKey(closed[i]) == LiveKeyOf(text, b);
      assert ClosedRow(live, cut, closed[i]);
      assert PlainBucket(b) && InPlace(text, live, stored, ticks, b);
      MatchesIsSelects(text, b, closed[i].used, q);
    }
  }

  /** Nothing is lost exactly when the store takes as many rows as were closed. */
  lemma FlushIsExact(text: Clock, live: Rows, stored: Rows, ticks: seq<Sample>, live': Rows, stored': Rows,
                     cut: string, closed: seq<Row>, room: nat, liveKeys: seq<string>, storedKeys: seq<string>,
                     out: seq<Row>)
    requires Rfc3339(text) && KeyedRows(live) && Tallies(text, live, stored, ticks)
    requires Flushed(live, stored, live', stored', cut, closed, room)
    requires Finds(text, live', stored', liveKeys, storedKeys, EVERYTHING, out)
    ensures IsReport(text, ticks, EVERYTHING, out) <==> |ClosedKeys(live, cut)| <= room
  {
    ListsAll(live, cut, closed);
    FlushReports(text, live, stored, ticks, live', stored', cut, closed, room, liveKeys, storedKeys, EVERYTHING, out);
    if room < |closed| {
      assert Matches(text, closed[room], EVERYTHING);
    }
  }

  // ------------------------------------------------------- flushing a late bucket

  /** A flush replaces the stored row of a bucket that started over by what came
      since. */
  lemma LateFlushOverwrites(text: Clock, live: Rows, stored: Rows, ticks: seq<Sample>, s: Sample, live': Rows,
                            stored': Rows, cut: string, closed: seq<Row>, room: nat)
    requires Rfc3339(text) && Tallies(text, live, stored, ticks) && PlainSample(s)
    requires StoreKeyOf(text, BucketOf(s)) in stored && Lex.Less(text(MinuteOf(s.at)), cut)
    requires Flushed(Ticked(text, live, s), stored, live', stored', cut, closed, room) && |closed| <= room
    ensures var b := BucketOf(s); var key := StoreKeyOf(text, b);
      && stored[key] == RowOf(text, b, Total(ticks, b))
      && key in stored' && stored'[key] == RowOf(text, b, Plus(NOTHING, s.used))
  {
    var b := BucketOf(s);
    LateTick(text, live, stored, ticks, s);
    var r := RowOf(text, b, Plus(NOTHING, s.used));
    assert ClosedRow(Ticked(text, live, s), cut, r);
    assert closed[..|closed|] == closed;
  }

  /** If the new amounts happen to be the total, the state is as if the stored row
      had never been written. */
  lemma LateAsNew(text: Clock, live: Rows, stored: Rows, ticks: seq<Sample>, s: Sample)
    requires Rfc3339(text) && Tallies(text, live, stored, ticks) && PlainSample(s)
    requires StoreKeyOf(text, BucketOf(s)) in stored
    requires Plus(NOTHING, s.used) == Plus(Total(ticks, BucketOf(s)), s.used)
    ensures Tallies(text, Ticked(text, live, s), stored - {StoreKeyOf(text, BucketOf(s))}, ticks + [s])
  {
    var key, next, more := StoreKeyOf(text, BucketOf(s)), Ticked(text, live, s), ticks + [s];
    LateTick(text, live, stored, ticks, s);
    TotalAppend(ticks, s, BucketOf(s));
    forall b | Ticks(more, b) ensures PlainBucket(b) && InPlace(text, next, stored - {key}, more, b) {
      TicksAppend(ticks, s, b);
      if b != BucketOf(s) {
        OtherBucket(text, live, stored, ticks, s, b);
        if StoreKeyOf(text, b) == key { StoreKeyInjective(text, b, BucketOf(s)); }
      }
    }
    forall k | k in next ensures LiveFor(text, more, k) {
      LiveForAppend(text, ticks, s, k);
    }
    forall k | k in stored - {key} ensures StoredFor(text, more, k) {
      StoredForAppend(text, ticks, s, k);
    }
  }

  lemma WrittenWithout(before: Rows, after: Rows, rows: seq<Row>, key: string)
    requires Written(before, after, rows) && WrittenRow(rows, key)
    ensures Written(before - {key}, after, rows)
  {
  }

  lemma LateTotalMissed(text: Clock, live: Rows, stored: Rows, ticks: seq<Sample>, s: Sample, r: Row, q: Query)
    requires Rfc3339(text) && Tallies(text, live, stored, ticks) && PlainSample(s)
    requires r == RowOf(text, BucketOf(s), r.used) && Reported(text, ticks + [s], q, r)
    ensures r.used == Plus(Total(ticks, BucketOf(s)), s.used)
  {
    var c :| Ticks(ticks + [s], c) && Selects(q, c) && r == RowOf(text, c, Total(ticks + [s], c));
    TicksAppend(ticks, s, c);
    TotalAppend(ticks, s, BucketOf(s));
    TextInjective(text, c.minute, MinuteOf(s.at));
  }

  /** A row that is written over might as well not have been stored. */
  lemma MovedAnew(live: Rows, stored: Rows, stored': Rows, cut: string, closed: seq<Row>, r: Row)
    requires KeyedRows(live) && Lists(live, cut, closed) && Written(stored, stored', closed)
    requires ClosedRow(live, cut, r)
    ensures Moved(live, stored - {StoreKey(r)}, StillLive(live, cut), stored', cut)
  {
    WrittenWithout(stored, stored', closed, StoreKey(r));
    WrittenIsMoved(live, stored - {StoreKey(r)}, stored', cut, closed);
  }

  lemma LateFlushAgrees(text: Clock, live: Rows, stored: Rows, ticks: seq<Sample>, s: Sample, live': Rows,
                        stored': Rows, cut: string, closed: seq<Row>, room: nat)
    requires Rfc3339(text) && KeyedRows(live) && Tallies(text, live, stored, ticks) && PlainSample(s)
    requires StoreKeyOf(text, BucketOf(s)) in stored && Lex.Less(text(MinuteOf(s.at)), cut)
    requires Flushed(Ticked(text, live, s), stored, live', stored', cut, closed, room) && |closed| <= room
    requires Plus(NOTHING, s.used) == Plus(Total(ticks, BucketOf(s)), s.used)
    ensures Tallies(text, live', stored', ticks + [s])
  {
    var b, next := BucketOf(s), Ticked(text, live, s);
    assert closed[..|closed|] == closed;
    LateTick(text, live, stored, ticks, s);
    assert KeyedRows(next) && ClosedRow(next, cut, next[LiveKeyOf(text, b)]);
    MovedAnew(next, stored, stored', cut, closed, next[LiveKeyOf(text, b)]);
    LateAsNew(text, live, stored, ticks, s);
    FlushKeepsTallies(text, next, stored - {StoreKeyOf(text, b)}, ticks + [s], live', stored', cut);
  }

  /** What is stored in a bucket leaves no trace in a sum exactly when it is nothing. */
  lemma NothingCancels(total: Amounts, used: Amounts)
    requires InRange(total.bytesIn) && InRange(total.bytesOut)
    ensures Plus(NOTHING, used) == Plus(total, used) <==> total == NOTHING
  {
    WrapCancels(total.bytesIn, used.bytesIn);
    WrapCancels(total.bytesOut, used.bytesOut);
  }

  predicate InRange(n: int) {
    -0x8000_0000_0000_0000 <= n < 0x8000_0000_0000_0000
  }

  lemma WrapCancels(n: int, m: int)
    requires InRange(n)
    ensures Wrap64(0 + m) == Wrap64(n + m) <==> n == 0
  {
  }

  lemma {:induction false} TotalInRange(ticks: seq<Sample>, b: Bucket)
    ensures InRange(Total(ticks, b).bytesIn) && InRange(Total(ticks, b).bytesOut)
  {
    if ticks != [] { TotalInRange(ticks[..|ticks| - 1], b); }
  }

  /** After that flush a query that selects the bucket is the report exactly when
      there was nothing in the overwritten row. */
  lemma LateFlushLoses(text: Clock, live: Rows, stored: Rows, ticks: seq<Sample>, s: Sample, live': Rows,
                       stored': Rows, cut: string, closed: seq<Row>, room: nat, liveKeys: seq<string>,
                       storedKeys: seq<string>, q: Query, out: seq<Row>)
    requires Rfc3339(text) && PlainQuery(q) && KeyedRows(live) && Tallies(text, live, stored, ticks) && PlainSample(s)
    requires StoreKeyOf(text, BucketOf(s)) in stored && Lex.Less(text(MinuteOf(s.at)), cut) && Selects(q, BucketOf(s))
    requires Flushed(Ticked(text, live, s), stored, live', stored', cut, closed, room) && |closed| <= room
    requires Finds(text, live', stored', liveKeys, storedKeys, q, out)
    ensures IsReport(text, ticks + [s], q, out) <==> stored[StoreKeyOf(text, BucketOf(s))].used == NOTHING
  {
    var key := StoreKeyOf(text, BucketOf(s));
    LateTick(text, live, stored, ticks, s);
    TotalInRange(ticks, BucketOf(s));
    NothingCancels(Total(ticks, BucketOf(s)), s.used);
    if Plus(NOTHING, s.used) == Plus(Total(ticks, BucketOf(s)), s.used) {
      LateFlushAgrees(text, live, stored, ticks, s, live', stored', cut, closed, room);
      QueryIsReport(text, live', stored', ticks + [s], liveKeys, storedKeys, q, out);
    } else {
      LateFlushOverwrites(text, live, stored, ticks, s, live', stored', cut, closed, room);
      var i := FilteredAt(text, stored', storedKeys, q, key, BucketOf(s));
      var found := Collected(text, live', stored', liveKeys, storedKeys, q);
      assert stored'[key] in found;
      Sorting.SortKeeps(found, RowLess);
      if IsReport(text, ticks + [s], q, out) {
        LateTotalMissed(text, live, stored, ticks, s, stored'[key], q);
      }
    }
  }
}
