/** What the live and the stored buckets hold after any run of ticks and
    flushes in which no sample came for a bucket already persisted. */
module UsageLedger {
  import opened Usage
  import Lex

  type Rows = map<string, Row>

  function Ticked(text: Clock, live: Rows, s: Sample): Rows {
    var b := BucketOf(s);
    var k := LiveKeyOf(text, b);
    var used := if k in live then live[k].used else NOTHING;
    if k in live then live[k := live[k].(used := Plus(used, s.used))] else live[k := RowOf(text, b, Plus(used, s.used))]
  }

  /** One bucket is either persisted or live, and holds the bucket's total. */
  ghost predicate InPlace(text: Clock, live: Rows, stored: Rows, ticks: seq<Sample>, b: Bucket) {
    var row := RowOf(text, b, Total(ticks, b));
    if StoreKeyOf(text, b) in stored then stored[StoreKeyOf(text, b)] == row && LiveKeyOf(text, b) !in live
    else LiveKeyOf(text, b) in live && live[LiveKeyOf(text, b)] == row
  }

  ghost predicate Ticks(ticks: seq<Sample>, b: Bucket) {
    exists i :: 0 <= i < |ticks| && BucketOf(ticks[i]) == b
  }

  ghost predicate LiveFor(text: Clock, ticks: seq<Sample>, k: string) {
    exists i :: 0 <= i < |ticks| && LiveKeyOf(text, BucketOf(ticks[i])) == k
  }

  ghost predicate StoredFor(text: Clock, ticks: seq<Sample>, k: string) {
    exists i :: 0 <= i < |ticks| && StoreKeyOf(text, BucketOf(ticks[i])) == k
  }

  ghost predicate AllInPlace(text: Clock, live: Rows, stored: Rows, ticks: seq<Sample>) {
    forall b {:trigger Ticks(ticks, b)} :: Ticks(ticks, b) ==> PlainBucket(b) && InPlace(text, live, stored, ticks, b)
  }

  ghost predicate Tallies(text: Clock, live: Rows, stored: Rows, ticks: seq<Sample>) {
    && AllInPlace(text, live, stored, ticks)
    && (forall k :: k in live ==> LiveFor(text, ticks, k))
    && (forall k :: k in stored ==> StoredFor(text, ticks, k))
  }

  // ----------------------------------------------------------------------- ticks

  lemma TicksAppend(ticks: seq<Sample>, s: Sample, b: Bucket)
    ensures Ticks(ticks + [s], b) <==> Ticks(ticks, b) || BucketOf(s) == b
  {
    var more := ticks + [s];
    if Ticks(more, b) {
      var i :| 0 <= i < |more| && BucketOf(more[i]) == b;
      if i < |ticks| { assert BucketOf(ticks[i]) == b; }
    }
    if Ticks(ticks, b) {
      var i :| 0 <= i < |ticks| && BucketOf(ticks[i]) == b;
      assert BucketOf(more[i]) == b;
    }
    if BucketOf(s) == b { assert BucketOf(more[|ticks|]) == b; }
  }

  lemma LiveForAppend(text: Clock, ticks: seq<Sample>, s: Sample, k: string)
    requires LiveFor(text, ticks, k) || LiveKeyOf(text, BucketOf(s)) == k
    ensures LiveFor(text, ticks + [s], k)
  {
    var more := ticks + [s];
    if LiveFor(text, ticks, k) {
      var i :| 0 <= i < |ticks| && LiveKeyOf(text, BucketOf(ticks[i])) == k;
      assert LiveKeyOf(text, BucketOf(more[i])) == k;
    } else {
      assert LiveKeyOf(text, BucketOf(more[|ticks|])) == k;
    }
  }

  lemma StoredForAppend(text: Clock, ticks: seq<Sample>, s: Sample, k: string)
    requires StoredFor(text, ticks, k)
    ensures StoredFor(text, ticks + [s], k)
  {
    var i :| 0 <= i < |ticks| && StoreKeyOf(text, BucketOf(ticks[i])) == k;
    assert StoreKeyOf(text, BucketOf((ticks + [s])[i])) == k;
  }

  /** The row a tick leaves for the sample's own bucket. */
  lemma OwnBucket(text: Clock, live: Rows, stored: Rows, ticks: seq<Sample>, s: Sample)
    requires Rfc3339(text) && Tallies(text, live, stored, ticks) && PlainSample(s)
    requires StoreKeyOf(text, BucketOf(s)) !in stored
    ensures InPlace(text, Ticked(text, live, s), stored, ticks + [s], BucketOf(s))
  {
    var b := BucketOf(s);
    TotalAppend(ticks, s, b);
    if Ticks(ticks, b) {
      assert InPlace(text, live, stored, ticks, b);
    } else {
      forall t | t in ticks ensures BucketOf(t) != b {
        var i :| 0 <= i < |ticks| && ticks[i] == t;
      }
      TotalOfNothing(ticks, b);
      if LiveKeyOf(text, b) in live {
        var i :| 0 <= i < |ticks| && LiveKeyOf(text, BucketOf(ticks[i])) == LiveKeyOf(text, b);
        assert Ticks(ticks, BucketOf(ticks[i]));
        LiveKeyInjective(text, BucketOf(ticks[i]), b);
      }
    }
  }

  lemma OtherBucket(text: Clock, live: Rows, stored: Rows, ticks: seq<Sample>, s: Sample, b: Bucket)
    requires Rfc3339(text) && PlainSample(s) && PlainBucket(b) && b != BucketOf(s)
    requires InPlace(text, live, stored, ticks, b)
    ensures InPlace(text, Ticked(text, live, s), stored, ticks + [s], b)
  {
    TotalAppend(ticks, s, b);
    if LiveKeyOf(text, b) == LiveKeyOf(text, BucketOf(s)) {
      LiveKeyInjective(text, b, BucketOf(s));
    }
  }

  /** A sample that comes in time is counted in its bucket, once. */
  lemma TickKeepsTallies(text: Clock, live: Rows, stored: Rows, ticks: seq<Sample>, s: Sample)
    requires Rfc3339(text) && Tallies(text, live, stored, ticks) && PlainSample(s)
    requires StoreKeyOf(text, BucketOf(s)) !in stored
    ensures Tallies(text, Ticked(text, live, s), stored, ticks + [s])
  {
    var next, more := Ticked(text, live, s), ticks + [s];
    forall b | Ticks(more, b) ensures PlainBucket(b) && InPlace(text, next, stored, more, b) {
      TicksAppend(ticks, s, b);
      if b == BucketOf(s) {
        OwnBucket(text, live, stored, ticks, s);
      } else {
        OtherBucket(text, live, stored, ticks, s, b);
      }
    }
    forall k | k in next ensures LiveFor(text, more, k) {
      LiveForAppend(text, ticks, s, k);
    }
    forall k | k in stored ensures StoredFor(text, more, k) {
      StoredForAppend(text, ticks, s, k);
    }
  }

  // --------------------------------------------------------------------- flushes

  /** The rows whose minute is over go from memory to the store. */
  ghost predicate Moved(live: Rows, stored: Rows, live': Rows, stored': Rows, cut: string) {
    && (forall k :: k in live' <==> k in live && !Lex.Less(live[k].window, cut))
    && (forall k :: k in live' ==> live'[k] == live[k])
    && (forall k :: k in live && k !in live' ==> StoreKey(live[k]) in stored' && stored'[StoreKey(live[k])] == live[k])
    && (forall key :: key in stored' ==> FromFlush(live, live', key) || (key in stored && stored'[key] == stored[key]))
    && (forall key :: key in stored ==> key in stored')
  }

  ghost predicate FromFlush(live: Rows, live': Rows, key: string) {
    exists k :: k in live && k !in live' && StoreKey(live[k]) == key
  }

  ghost predicate Leaves(text: Clock, live: Rows, live': Rows, b: Bucket) {
    LiveKeyOf(text, b) in live && LiveKeyOf(text, b) !in live'
  }

  lemma FlushedKeys(text: Clock, live: Rows, stored: Rows, ticks: seq<Sample>, live': Rows, key: string)
    requires Rfc3339(text) && Tallies(text, live, stored, ticks)
    requires FromFlush(live, live', key)
    ensures exists b :: Ticks(ticks, b) && key == StoreKeyOf(text, b) && key !in stored && Leaves(text, live, live', b)
  {
    var k :| k in live && k !in live' && StoreKey(live[k]) == key;
    var i :| 0 <= i < |ticks| && LiveKeyOf(text, BucketOf(ticks[i])) == k;
    var b := BucketOf(ticks[i]);
    assert Ticks(ticks, b);
    assert InPlace(text, live, stored, ticks, b);
  }

  lemma FlushKeepsBucket(text: Clock, live: Rows, stored: Rows, ticks: seq<Sample>, live': Rows, stored': Rows,
                         cut: string, b: Bucket)
    requires Rfc3339(text) && Tallies(text, live, stored, ticks)
    requires Moved(live, stored, live', stored', cut) && Ticks(ticks, b)
    ensures InPlace(text, live', stored', ticks, b)
  {
    var k, key := LiveKeyOf(text, b), StoreKeyOf(text, b);
    assert InPlace(text, live, stored, ticks, b);
    if FromFlush(live, live', key) {
      FlushedKeys(text, live, stored, ticks, live', key);
      var c :| Ticks(ticks, c) && key == StoreKeyOf(text, c) && key !in stored && Leaves(text, live, live', c);
      StoreKeyInjective(text, b, c);
      assert StoreKey(live[k]) == key;
    } else if k in live {
      assert StoreKey(live[k]) == key;
      assert k in live';
    }
  }

  /** Flushing loses nothing and counts nothing twice. */
  lemma FlushKeepsTallies(text: Clock, live: Rows, stored: Rows, ticks: seq<Sample>, live': Rows, stored': Rows,
                          cut: string)
    requires Rfc3339(text) && Tallies(text, live, stored, ticks)
    requires Moved(live, stored, live', stored', cut)
    ensures Tallies(text, live', stored', ticks)
  {
    forall b | Ticks(ticks, b) ensures PlainBucket(b) && InPlace(text, live', stored', ticks, b) {
      FlushKeepsBucket(text, live, stored, ticks, live', stored', cut, b);
    }
    forall key | key in stored' ensures StoredFor(text, ticks, key) {
      if FromFlush(live, live', key) {
        FlushedKeys(text, live, stored, ticks, live', key);
        var b :| Ticks(ticks, b) && key == StoreKeyOf(text, b) && key !in stored;
        var i :| 0 <= i < |ticks| && BucketOf(ticks[i]) == b;
        assert StoreKeyOf(text, BucketOf(ticks[i])) == key;
      }
    }
  }
}
