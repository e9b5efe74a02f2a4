/** The aggregator object. `ticks` is every sample ever ticked; `punctual` holds
    as long as no sample came for a persisted bucket or outside the four-digit
    years, no key or agent held a bar and no flush failed. */
module UsageAggregator {
  import opened Keys
  import opened Usage
  import opened UsageLedger
  import opened UsageReport
  import opened UsageFlush
  import Lex
  import Sorting

  lemma TickedIs(text: Clock, live: Rows, s: Sample)
    requires KeyedRows(live)
    ensures KeyedRows(Ticked(text, live, s))
    ensures var k := LiveKeyOf(text, BucketOf(s));
      var row := Row(text(MinuteOf(s.at)), s.api, s.agent, s.image, NOTHING);
      var before := if k in live then live else live[k := row];
      before[k := before[k].(used := Plus(before[k].used, s.used))] == Ticked(text, live, s)
  {
  }

  /** The buckets outside `rest` have been looked at: the closed ones were taken. */
  ghost predicate Taking(before: Rows, live: Rows, rest: set<string>, cut: string, closed: seq<Row>) {
    && rest <= live.Keys <= before.Keys && KeyedRows(before)
    && (forall k :: k in live ==> live[k] == before[k])
    && (forall k :: k in before && k !in rest ==> (k in live <==> !Lex.Less(before[k].window, cut)))
    && (forall r :: r in closed <==> ClosedRow(before, cut, r) && RowKey(r) !in rest)
    && (forall i, j :: 0 <= i < j < |closed| ==> closed[i] != closed[j])
  }

  lemma TakingStarts(live: Rows, cut: string)
    requires KeyedRows(live)
    ensures Taking(live, live, live.Keys, cut, [])
  {
  }

  lemma TakingNext(before: Rows, live: Rows, rest: set<string>, cut: string, closed: seq<Row>, k: string)
    requires Taking(before, live, rest, cut, closed) && k in rest
    ensures if Lex.Less(live[k].window, cut) then Taking(before, live - {k}, rest - {k}, cut, closed + [live[k]])
            else Taking(before, live, rest - {k}, cut, closed)
  {
    assert live[k] !in closed;
  }

  class Aggregator {
    const text: Clock
    var live: Rows
    var stored: Rows
    ghost var ticks: seq<Sample>
    ghost var punctual: bool

    ghost predicate Valid()
      reads this
    {
      Rfc3339(text) && KeyedRows(live) && (punctual ==> Tallies(text, live, stored, ticks))
    }

    constructor (text: Clock)
      requires Rfc3339(text)
      ensures Valid() && ticks == [] && punctual && this.text == text
    {
      this.text := text;
      live, stored := map[], map[];
      ticks, punctual := [], true;
    }

    method Tick(s: Sample)
      requires Valid()
      modifies this
      ensures Valid() && stored == old(stored)
      ensures live == Ticked(text, old(live), s)
      ensures ticks == old(ticks) + [s]
      ensures punctual == (old(punctual) && PlainSample(s) && StoreKeyOf(text, BucketOf(s)) !in stored)
    {
      if punctual && PlainSample(s) && StoreKeyOf(text, BucketOf(s)) !in stored {
        TickKeepsTallies(text, live, stored, ticks, s);
      }
      TickedIs(text, live, s);
      punctual := punctual && PlainSample(s) && StoreKeyOf(text, BucketOf(s)) !in stored;
      ticks := ticks + [s];
      var window := text(MinuteOf(s.at));
      var k := BucketKey(s.api, s.agent, s.image, window);
      if k !in live {
        live := live[k := Row(window, s.api, s.agent, s.image, NOTHING)];
      }
      live := live[k := live[k].(used := Plus(live[k].used, s.used))];
    }

    /** Takes the closed buckets out of memory. */
    method TakeClosed(cut: string) returns (closed: seq<Row>)
      requires KeyedRows(live)
      modifies this`live
      ensures live == StillLive(old(live), cut) && Lists(old(live), cut, closed)
    {
      closed := [];
      var rest := live.Keys;
      TakingStarts(live, cut);
      while rest != {}
        invariant rest <= live.Keys && Taking(old(live), live, rest, cut, closed)
        decreases rest
      {
        var k :| k in rest;
        TakingNext(old(live), live, rest, cut, closed, k);
        rest := rest - {k};
        if Lex.Less(live[k].window, cut) {
          closed := closed + [live[k]];
          live := live - {k};
        }
      }
    }

    /** Writes rows one by one; the store takes `room` writes and fails on the next. */
    method Persist(rows: seq<Row>, room: nat) returns (ok: bool)
      requires forall r, p :: r in rows && p in rows && StoreKey(r) == StoreKey(p) ==> r == p
      modifies this`stored
      ensures ok <==> |rows| <= room
      ensures Written(old(stored), stored, rows[..if ok then |rows| else room])
    {
      for i := 0 to |rows|
        invariant i <= room && Written(old(stored), stored, rows[..i])
      {
        if i == room { return false; }
        var key := CompositeKey([rows[i].window, rows[i].api, rows[i].agent, rows[i].image]);
        assert forall p :: p in rows[..i] ==> p in rows;
        assert rows[i] in rows;
        WrittenOneMore(old(stored), stored, rows[..i], rows[i]);
        assert rows[..i + 1] == rows[..i] + [rows[i]];
        stored := stored[key := rows[i]];
      }
      return true;
    }

    /** Closed buckets leave memory at once, then go to the store one by one: after
        a failed write the remaining ones are in neither place. */
    method Flush(now: int, room: nat) returns (ok: bool, ghost closed: seq<Row>)
      requires Valid()
      modifies this
      ensures Valid() && ticks == old(ticks) && punctual == (old(punctual) && ok)
      ensures ok <==> |ClosedKeys(old(live), text(MinuteOf(now)))| <= room
      ensures Flushed(old(live), old(stored), live, stored, text(MinuteOf(now)), closed, room)
      ensures ok ==> Moved(old(live), old(stored), live, stored, text(MinuteOf(now)))
    {
      var cut := text(MinuteOf(now));
      var rows := TakeClosed(cut);
      closed := rows;
      forall r, p | r in rows && p in rows && StoreKey(r) == StoreKey(p) ensures r == p {
        StoreKeyFixesRowKey(r, p);
      }
      ok := Persist(rows, room);
      ListsAll(old(live), cut, closed);
      if ok {
        assert closed[..|closed|] == closed;
        WrittenIsMoved(old(live), old(stored), stored, cut, closed);
        if punctual {
          FlushKeepsTallies(text, old(live), old(stored), ticks, live, stored, cut);
        }
      }
      punctual := punctual && ok;
    }

    method Select(rows: Rows, q: Query, into: seq<Row>) returns (out: seq<Row>, ghost keys: seq<string>)
      ensures Enumerates(keys, rows)
      ensures out == into + Filtered(text, rows, keys, q)
    {
      out, keys := into, [];
      var rest := rows.Keys;
      while rest != {}
        invariant rest <= rows.Keys
        invariant forall i, j :: 0 <= i < j < |keys| ==> keys[i] != keys[j]
        invariant forall k :: k in keys <==> k in rows && k !in rest
        invariant out == into + Filtered(text, rows, keys, q)
        decreases rest
      {
        var k :| k in rest;
        rest := rest - {k};
        if Matches(text, rows[k], q) {
          out := out + [rows[k]];
        }
        assert (keys + [k])[..|keys|] == keys;
        keys := keys + [k];
      }
    }

    /** In a punctual run the answer is the grouped sum of everything ticked. */
    method Query(q: Usage.Query) returns (out: seq<Row>)
      requires Valid()
      ensures exists ks, ls :: Finds(text, live, stored, ks, ls, q, out)
      ensures punctual && PlainQuery(q) ==> IsReport(text, ticks, q, out)
    {
      ghost var ks, ls;
      out, ks := Select(live, q, []);
      out, ls := Select(stored, q, out);
      assert out == Collected(text, live, stored, ks, ls, q);
      out := Sorting.Sort(out, RowLess);
      assert Finds(text, live, stored, ks, ls, q, out);
      if punctual && PlainQuery(q) {
        QueryIsReport(text, live, stored, ticks, ks, ls, q, out);
      }
    }
  }
}
