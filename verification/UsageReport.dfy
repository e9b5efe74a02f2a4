/** Queries: what is found in memory and in the store, sorted, is the grouped
    sum of every sample ever ticked. */
module UsageReport {
  import opened Usage
  import opened UsageLedger
  import Sorting

  /** A row the report must have: the total of a selected bucket. */
  ghost predicate Reported(text: Clock, ticks: seq<Sample>, q: Query, r: Row) {
    exists b :: Ticks(ticks, b) && Selects(q, b) && r == RowOf(text, b, Total(ticks, b))
  }

  /** Exactly the reported rows, in strictly ascending order: one per bucket. */
  ghost predicate IsReport(text: Clock, ticks: seq<Sample>, q: Query, rows: seq<Row>) {
    Sorting.Ascending(rows, RowLess) && (forall r :: r in rows <==> Reported(text, ticks, q, r))
  }

  /** The keys of a map, in the order one iteration happens to give. */
  ghost predicate Enumerates(keys: seq<string>, rows: Rows) {
    (forall i, j :: 0 <= i < j < |keys| ==> keys[i] != keys[j]) && forall k :: k in keys <==> k in rows
  }

  function Filtered(text: Clock, rows: Rows, keys: seq<string>, q: Query): seq<Row>
    requires forall k :: k in keys ==> k in rows
  {
    if keys == [] then []
    else
      var init, last := keys[..|keys| - 1], keys[|keys| - 1];
      Filtered(text, rows, init, q) + if Matches(text, rows[last], q) then [rows[last]] else []
  }

  lemma {:induction false} FilteredHas(text: Clock, rows: Rows, keys: seq<string>, q: Query, r: Row)
    requires forall k :: k in keys ==> k in rows
    ensures r in Filtered(text, rows, keys, q) <==> Matches(text, r, q) && exists k :: k in keys && rows[k] == r
  {
    if keys != [] {
      var init, last := keys[..|keys| - 1], keys[|keys| - 1];
      FilteredHas(text, rows, init, q, r);
      assert keys == init + [last];
    }
  }

  ghost predicate Apart(s: seq<Row>) {
    forall i, j :: 0 <= i < j < |s| ==> !SameBucket(s[i], s[j])
  }

  lemma {:induction false} FilteredApart(text: Clock, rows: Rows, keys: seq<string>, q: Query)
    requires forall k :: k in keys ==> k in rows
    requires forall i, j :: 0 <= i < j < |keys| ==> keys[i] != keys[j]
    requires forall k, l :: k in rows && l in rows && k != l ==> !SameBucket(rows[k], rows[l])
    ensures Apart(Filtered(text, rows, keys, q))
  {
    if keys != [] {
      var init, last := keys[..|keys| - 1], keys[|keys| - 1];
      FilteredApart(text, rows, init, q);
      var f := Filtered(text, rows, init, q);
      forall i | 0 <= i < |f| ensures !SameBucket(f[i], rows[last]) {
        FilteredHas(text, rows, init, q, f[i]);
        var k :| k in init && rows[k] == f[i];
        assert k in keys && k != last;
      }
    }
  }

  // ------------------------------------------------------------- rows and buckets

  /** The live row under `k` is the total of bucket `b`, which is not persisted. */
  ghost predicate LiveHolds(text: Clock, live: Rows, stored: Rows, ticks: seq<Sample>, k: string, b: Bucket) {
    && Ticks(ticks, b) && k == LiveKeyOf(text, b) && StoreKeyOf(text, b) !in stored
    && k in live && live[k] == RowOf(text, b, Total(ticks, b))
  }

  ghost predicate StoredHolds(text: Clock, stored: Rows, ticks: seq<Sample>, k: string, b: Bucket) {
    Ticks(ticks, b) && k == StoreKeyOf(text, b) && k in stored && stored[k] == RowOf(text, b, Total(ticks, b))
  }

  /** Every row there is is right; some may be missing. */
  ghost predicate Sound(text: Clock, live: Rows, stored: Rows, ticks: seq<Sample>) {
    && (forall b :: Ticks(ticks, b) ==> PlainBucket(b))
    && (forall k :: k in live ==> exists b :: LiveHolds(text, live, stored, ticks, k, b))
    && (forall k :: k in stored ==> exists b :: StoredHolds(text, stored, ticks, k, b))
  }

  ghost predicate Held(text: Clock, live: Rows, stored: Rows, b: Bucket) {
    LiveKeyOf(text, b) in live || StoreKeyOf(text, b) in stored
  }

  /** No ticked bucket that the query selects is missing. */
  ghost predicate AllHeld(text: Clock, live: Rows, stored: Rows, ticks: seq<Sample>, q: Query) {
    forall b :: Ticks(ticks, b) && Selects(q, b) ==> Held(text, live, stored, b)
  }

  lemma TalliesAreSound(text: Clock, live: Rows, stored: Rows, ticks: seq<Sample>, q: Query)
    requires Tallies(text, live, stored, ticks)
    ensures Sound(text, live, stored, ticks) && AllHeld(text, live, stored, ticks, q)
  {
    forall k | k in live ensures exists b :: LiveHolds(text, live, stored, ticks, k, b) {
      assert LiveFor(text, ticks, k);
      var i :| 0 <= i < |ticks| && LiveKeyOf(text, BucketOf(ticks[i])) == k;
      var b := BucketOf(ticks[i]);
      assert Ticks(ticks, b) && InPlace(text, live, stored, ticks, b);
      assert LiveHolds(text, live, stored, ticks, k, b);
    }
    forall k | k in stored ensures exists b :: StoredHolds(text, stored, ticks, k, b) {
      assert StoredFor(text, ticks, k);
      var i :| 0 <= i < |ticks| && StoreKeyOf(text, BucketOf(ticks[i])) == k;
      var b := BucketOf(ticks[i]);
      assert Ticks(ticks, b) && InPlace(text, live, stored, ticks, b);
      assert StoredHolds(text, stored, ticks, k, b);
    }
    forall b | Ticks(ticks, b) ensures PlainBucket(b) && Held(text, live, stored, b) {
      assert InPlace(text, live, stored, ticks, b);
    }
  }

  lemma LiveApart(text: Clock, live: Rows, stored: Rows, ticks: seq<Sample>)
    requires Sound(text, live, stored, ticks)
    ensures forall k, l :: k in live && l in live && k != l ==> !SameBucket(live[k], live[l])
  {
    forall k, l | k in live && l in live && k != l ensures !SameBucket(live[k], live[l]) {
      var b :| LiveHolds(text, live, stored, ticks, k, b);
      var c :| LiveHolds(text, live, stored, ticks, l, c);
    }
  }

  lemma StoredApart(text: Clock, live: Rows, stored: Rows, ticks: seq<Sample>)
    requires Sound(text, live, stored, ticks)
    ensures forall k, l :: k in stored && l in stored && k != l ==> !SameBucket(stored[k], stored[l])
  {
    forall k, l | k in stored && l in stored && k != l ensures !SameBucket(stored[k], stored[l]) {
      var b :| StoredHolds(text, stored, ticks, k, b);
      var c :| StoredHolds(text, stored, ticks, l, c);
    }
  }

  lemma LiveNotStored(text: Clock, live: Rows, stored: Rows, ticks: seq<Sample>, k: string, l: string)
    requires Sound(text, live, stored, ticks) && k in live && l in stored
    ensures !SameBucket(live[k], stored[l])
  {
    var b :| LiveHolds(text, live, stored, ticks, k, b);
    var c :| StoredHolds(text, stored, ticks, l, c);
  }

  /** Everything a query collects, before it is sorted. */
  function Collected(text: Clock, live: Rows, stored: Rows, liveKeys: seq<string>, storedKeys: seq<string>,
                     q: Query): seq<Row>
    requires forall k :: k in liveKeys ==> k in live
    requires forall k :: k in storedKeys ==> k in stored
  {
    Filtered(text, live, liveKeys, q) + Filtered(text, stored, storedKeys, q)
  }

  /** The answer to a query, given the orders in which both maps were listed. */
  ghost predicate Finds(text: Clock, live: Rows, stored: Rows, liveKeys: seq<string>, storedKeys: seq<string>,
                        q: Query, out: seq<Row>) {
    && Enumerates(liveKeys, live) && Enumerates(storedKeys, stored)
    && out == Sorting.Sort(Collected(text, live, stored, liveKeys, storedKeys, q), RowLess)
  }

  lemma CollectedApart(text: Clock, live: Rows, stored: Rows, ticks: seq<Sample>, liveKeys: seq<string>,
                       storedKeys: seq<string>, q: Query)
    requires Sound(text, live, stored, ticks) && Enumerates(liveKeys, live) && Enumerates(storedKeys, stored)
    ensures Apart(Collected(text, live, stored, liveKeys, storedKeys, q))
  {
    var f, g := Filtered(text, live, liveKeys, q), Filtered(text, stored, storedKeys, q);
    LiveApart(text, live, stored, ticks);
    FilteredApart(text, live, liveKeys, q);
    StoredApart(text, live, stored, ticks);
    FilteredApart(text, stored, storedKeys, q);
    forall i, j | 0 <= i < |f| && 0 <= j < |g| ensures !SameBucket(f[i], g[j]) {
      FilteredHas(text, live, liveKeys, q, f[i]);
      FilteredHas(text, stored, storedKeys, q, g[j]);
      var k :| k in liveKeys && live[k] == f[i];
      var l :| l in storedKeys && stored[l] == g[j];
      LiveNotStored(text, live, stored, ticks, k, l);
    }
  }

  /** The bucket behind a row that was found. */
  lemma CollectedBucket(text: Clock, live: Rows, stored: Rows, ticks: seq<Sample>, liveKeys: seq<string>,
                        storedKeys: seq<string>, q: Query, r: Row) returns (b: Bucket)
    requires Sound(text, live, stored, ticks) && Enumerates(liveKeys, live) && Enumerates(storedKeys, stored)
    requires r in Collected(text, live, stored, liveKeys, storedKeys, q)
    ensures Ticks(ticks, b) && r == RowOf(text, b, Total(ticks, b)) && Matches(text, r, q)
    ensures Held(text, live, stored, b)
  {
    FilteredHas(text, live, liveKeys, q, r);
    FilteredHas(text, stored, storedKeys, q, r);
    if r in Filtered(text, live, liveKeys, q) {
      var k :| k in liveKeys && live[k] == r;
      b :| LiveHolds(text, live, stored, ticks, k, b);
    } else {
      var k :| k in storedKeys && stored[k] == r;
      b :| StoredHolds(text, stored, ticks, k, b);
    }
  }

  lemma CollectedIsReported(text: Clock, live: Rows, stored: Rows, ticks: seq<Sample>, liveKeys: seq<string>,
                            storedKeys: seq<string>, q: Query, r: Row)
    requires Rfc3339(text) && PlainQuery(q)
    requires Sound(text, live, stored, ticks) && Enumerates(liveKeys, live) && Enumerates(storedKeys, stored)
    requires r in Collected(text, live, stored, liveKeys, storedKeys, q)
    ensures Reported(text, ticks, q, r)
  {
    var b := CollectedBucket(text, live, stored, ticks, liveKeys, storedKeys, q, r);
    MatchesIsSelects(text, b, r.used, q);
  }

  lemma HeldRow(text: Clock, live: Rows, stored: Rows, ticks: seq<Sample>, b: Bucket)
    requires Rfc3339(text) && Sound(text, live, stored, ticks)
    requires Ticks(ticks, b) && Held(text, live, stored, b)
    ensures var row := RowOf(text, b, Total(ticks, b));
      || (LiveKeyOf(text, b) in live && live[LiveKeyOf(text, b)] == row)
      || (StoreKeyOf(text, b) in stored && stored[StoreKeyOf(text, b)] == row)
  {
    if LiveKeyOf(text, b) in live {
      var c :| LiveHolds(text, live, stored, ticks, LiveKeyOf(text, b), c);
      LiveKeyInjective(text, b, c);
    } else {
      var c :| StoredHolds(text, stored, ticks, StoreKeyOf(text, b), c);
      StoreKeyInjective(text, b, c);
    }
  }

  lemma HeldIsCollected(text: Clock, live: Rows, stored: Rows, ticks: seq<Sample>, liveKeys: seq<string>,
                        storedKeys: seq<string>, q: Query, b: Bucket)
    requires Rfc3339(text) && PlainQuery(q)
    requires Sound(text, live, stored, ticks) && Enumerates(liveKeys, live) && Enumerates(storedKeys, stored)
    requires Ticks(ticks, b) && Selects(q, b) && Held(text, live, stored, b)
    ensures RowOf(text, b, Total(ticks, b)) in Collected(text, live, stored, liveKeys, storedKeys, q)
  {
    var r := RowOf(text, b, Total(ticks, b));
    HeldRow(text, live, stored, ticks, b);
    MatchesIsSelects(text, b, r.used, q);
    FilteredHas(text, live, liveKeys, q, r);
    FilteredHas(text, stored, storedKeys, q, r);
    if LiveKeyOf(text, b) in live && live[LiveKeyOf(text, b)] == r {
      assert LiveKeyOf(text, b) in liveKeys;
    } else {
      assert StoreKeyOf(text, b) in storedKeys;
    }
  }

  lemma ApartIsOrdered(s: seq<Row>)
    requires Apart(s)
    ensures Sorting.Orders(s, RowLess)
  {
    forall i, j | 0 <= i < j < |s| ensures RowLess(s[i], s[j]) != RowLess(s[j], s[i]) {
      RowOrder(s[i], s[j]);
      RowOrder(s[j], s[i]);
    }
    forall x, y, z | x in s && y in s && z in s && RowLess(x, y) && RowLess(y, z) ensures RowLess(x, z) {
      RowChain(x, y, z);
    }
  }

  /** While every row is right, an answer is the report exactly when no bucket
      that it should show is missing. */
  lemma ReportIsComplete(text: Clock, live: Rows, stored: Rows, ticks: seq<Sample>, liveKeys: seq<string>,
                         storedKeys: seq<string>, q: Query, out: seq<Row>)
    requires Rfc3339(text) && PlainQuery(q) && Sound(text, live, stored, ticks)
    requires Finds(text, live, stored, liveKeys, storedKeys, q, out)
    ensures IsReport(text, ticks, q, out) <==> AllHeld(text, live, stored, ticks, q)
  {
    var found := Collected(text, live, stored, liveKeys, storedKeys, q);
    CollectedApart(text, live, stored, ticks, liveKeys, storedKeys, q);
    ApartIsOrdered(found);
    Sorting.SortAscends(found, RowLess);
    Sorting.SortKeeps(found, RowLess);
    forall r | r in out ensures Reported(text, ticks, q, r) {
      CollectedIsReported(text, live, stored, ticks, liveKeys, storedKeys, q, r);
    }
    forall b | Ticks(ticks, b) && Selects(q, b)
      ensures Held(text, live, stored, b) <==> RowOf(text, b, Total(ticks, b)) in out
    {
      var r := RowOf(text, b, Total(ticks, b));
      if Held(text, live, stored, b) {
        HeldIsCollected(text, live, stored, ticks, liveKeys, storedKeys, q, b);
      } else if r in out {
        var c := CollectedBucket(text, live, stored, ticks, liveKeys, storedKeys, q, r);
        TextInjective(text, b.minute, c.minute);
      }
    }
    assert forall b :: Ticks(ticks, b) && Selects(q, b) ==> Reported(text, ticks, q, RowOf(text, b, Total(ticks, b)));
  }

  /** Nothing lost, nothing counted twice. */
  lemma QueryIsReport(text: Clock, live: Rows, stored: Rows, ticks: seq<Sample>, liveKeys: seq<string>,
                      storedKeys: seq<string>, q: Query, out: seq<Row>)
    requires Rfc3339(text) && PlainQuery(q) && Tallies(text, live, stored, ticks)
    requires Finds(text, live, stored, liveKeys, storedKeys, q, out)
    ensures IsReport(text, ticks, q, out)
  {
    TalliesAreSound(text, live, stored, ticks, q);
    ReportIsComplete(text, live, stored, ticks, liveKeys, storedKeys, q, out);
  }

  /** The sample is one the query asks for. */
  predicate Wanted(q: Query, s: Sample) {
    && (q.api == "" || s.api == q.api) && (q.agent == "" || s.agent == q.agent)
    && (q.image == "" || s.image == q.image)
    && (q.since.Some? ==> q.since.value / 60_000_000_000 <= s.at / 60_000_000_000)
    && (q.until.Some? ==> s.at / 60_000_000_000 < q.until.value / 60_000_000_000)
  }

  /** The sample falls into the row's bucket. */
  predicate Belongs(text: Clock, r: Row, s: Sample) {
    r.window == text(s.at / 60_000_000_000) && r.api == s.api && r.agent == s.agent && r.image == s.image
  }

  /** A report has a row for each sample that is asked for... */
  lemma WantedIsReported(text: Clock, ticks: seq<Sample>, q: Query, rows: seq<Row>, i: nat) returns (r: Row)
    requires IsReport(text, ticks, q, rows) && i < |ticks| && Wanted(q, ticks[i])
    ensures r in rows && Belongs(text, r, ticks[i])
  {
    var b := BucketOf(ticks[i]);
    r := RowOf(text, b, Total(ticks, b));
    assert Ticks(ticks, b) && Selects(q, b);
    assert Reported(text, ticks, q, r);
  }

  /** ...and each of its rows is the total of the bucket of such a sample. */
  lemma ReportedIsWanted(text: Clock, ticks: seq<Sample>, q: Query, rows: seq<Row>, r: Row) returns (i: nat)
    requires IsReport(text, ticks, q, rows) && r in rows
    ensures i < |ticks| && Wanted(q, ticks[i]) && Belongs(text, r, ticks[i])
    ensures r.used == Total(ticks, BucketOf(ticks[i]))
  {
    assert Reported(text, ticks, q, r);
    var b :| Ticks(ticks, b) && Selects(q, b) && r == RowOf(text, b, Total(ticks, b));
    i :| 0 <= i < |ticks| && BucketOf(ticks[i]) == b;
  }

  // ---------------------------------------------------------------- late samples

  lemma AscendingApart(rows: seq<Row>)
    requires Sorting.Ascending(rows, RowLess)
    ensures Apart(rows)
  {
    forall i, j | 0 <= i < j < |rows| ensures !SameBucket(rows[i], rows[j]) {
      RowOrder(rows[i], rows[j]);
    }
  }

  lemma SameRow(rows: seq<Row>, x: Row, y: Row)
    requires Sorting.Ascending(rows, RowLess) && x in rows && y in rows && SameBucket(x, y)
    ensures x == y
  {
    AscendingApart(rows);
    var a :| 0 <= a < |rows| && rows[a] == x;
    var b :| 0 <= b < |rows| && rows[b] == y;
    assert a == b;
  }

  lemma AscendingCounts(rows: seq<Row>, x: Row)
    requires Sorting.Ascending(rows, RowLess)
    ensures multiset(rows)[x] <= 1
  {
    forall a, b | 0 <= a < b < |rows| ensures rows[a] != rows[b] {
      RowOrder(rows[a], rows[b]);
    }
    Sorting.DistinctCount(rows, x);
  }

  /** Two rows of one bucket never pass for a report, whatever the order. */
  lemma TwoRowsOfABucket(out: seq<Row>, i: nat, j: nat)
    requires i < j < |out| && SameBucket(out[i], out[j])
    ensures !Sorting.Ascending(Sorting.Sort(out, RowLess), RowLess)
  {
    var rows := Sorting.Sort(out, RowLess);
    Sorting.SortPermutes(out, RowLess);
    Sorting.SortKeeps(out, RowLess);
    assert out[i] in rows && out[j] in rows;
    if Sorting.Ascending(rows, RowLess) {
      SameRow(rows, out[i], out[j]);
      TwiceCounts(out, i, j);
      AscendingCounts(rows, out[i]);
      assert false;
    }
  }

  lemma TwiceCounts<T>(s: seq<T>, i: nat, j: nat)
    requires i < j < |s| && s[i] == s[j]
    ensures multiset(s)[s[i]] >= 2
  {
    assert s == s[..i] + [s[i]] + s[i + 1..j] + [s[j]] + s[j + 1..];
  }

  lemma LateRows(text: Clock, live: Rows, stored: Rows, ticks: seq<Sample>, s: Sample, liveKeys: seq<string>,
                 storedKeys: seq<string>, q: Query)
    requires Rfc3339(text) && PlainQuery(q) && Tallies(text, live, stored, ticks) && PlainSample(s)
    requires Enumerates(liveKeys, Ticked(text, live, s)) && Enumerates(storedKeys, stored) && Selects(q, BucketOf(s))
    requires StoreKeyOf(text, BucketOf(s)) in stored
    ensures !Apart(Collected(text, Ticked(text, live, s), stored, liveKeys, storedKeys, q))
  {
    var b, next := BucketOf(s), Ticked(text, live, s);
    LateTick(text, live, stored, ticks, s);
    var i := FilteredAt(text, next, liveKeys, q, LiveKeyOf(text, b), b);
    var j := FilteredAt(text, stored, storedKeys, q, StoreKeyOf(text, b), b);
    var f, g := Filtered(text, next, liveKeys, q), Filtered(text, stored, storedKeys, q);
    assert SameBucket((f + g)[i], (f + g)[|f| + j]);
  }

  /** The bucket of a late sample was ticked and persisted before, and starts
      over in memory. */
  lemma LateTick(text: Clock, live: Rows, stored: Rows, ticks: seq<Sample>, s: Sample)
    requires Rfc3339(text) && Tallies(text, live, stored, ticks) && PlainSample(s)
    requires StoreKeyOf(text, BucketOf(s)) in stored
    ensures var b := BucketOf(s); var k, key := LiveKeyOf(text, b), StoreKeyOf(text, b);
      && Ticks(ticks, b) && k !in live && stored[key] == RowOf(text, b, Total(ticks, b))
      && k in Ticked(text, live, s) && Ticked(text, live, s)[k] == RowOf(text, b, Plus(NOTHING, s.used))
  {
    var b := BucketOf(s);
    assert StoredFor(text, ticks, StoreKeyOf(text, b));
    var i :| 0 <= i < |ticks| && StoreKeyOf(text, BucketOf(ticks[i])) == StoreKeyOf(text, b);
    assert Ticks(ticks, BucketOf(ticks[i]));
    StoreKeyInjective(text, b, BucketOf(ticks[i]));
    assert InPlace(text, live, stored, ticks, b);
  }

  lemma FilteredAt(text: Clock, rows: Rows, keys: seq<string>, q: Query, k: string, b: Bucket) returns (i: nat)
    requires Rfc3339(text) && PlainQuery(q) && FourDigit(b.minute) && Enumerates(keys, rows)
    requires k in rows && rows[k] == RowOf(text, b, rows[k].used) && Selects(q, b)
    ensures i < |Filtered(text, rows, keys, q)| && Filtered(text, rows, keys, q)[i] == rows[k]
  {
    MatchesIsSelects(text, b, rows[k].used, q);
    FilteredHas(text, rows, keys, q, rows[k]);
    assert k in keys;
    i :| 0 <= i < |Filtered(text, rows, keys, q)| && Filtered(text, rows, keys, q)[i] == rows[k];
  }

  /** A query right after a sample is a report exactly when the sample's bucket
      was not yet persisted. */
  lemma ReportNeedsPunctuality(text: Clock, live: Rows, stored: Rows, ticks: seq<Sample>, s: Sample,
                               liveKeys: seq<string>, storedKeys: seq<string>, q: Query, out: seq<Row>)
    requires Rfc3339(text) && PlainQuery(q) && Tallies(text, live, stored, ticks) && PlainSample(s)
    requires Finds(text, Ticked(text, live, s), stored, liveKeys, storedKeys, q, out) && Selects(q, BucketOf(s))
    ensures IsReport(text, ticks + [s], q, out) <==> StoreKeyOf(text, BucketOf(s)) !in stored
  {
    if StoreKeyOf(text, BucketOf(s)) in stored {
      LateRows(text, live, stored, ticks, s, liveKeys, storedKeys, q);
      var found := Collected(text, Ticked(text, live, s), stored, liveKeys, storedKeys, q);
      var i, j :| 0 <= i < j < |found| && SameBucket(found[i], found[j]);
      TwoRowsOfABucket(found, i, j);
    } else {
      TickKeepsTallies(text, live, stored, ticks, s);
      QueryIsReport(text, Ticked(text, live, s), stored, ticks + [s], liveKeys, storedKeys, q, out);
    }
  }
}
