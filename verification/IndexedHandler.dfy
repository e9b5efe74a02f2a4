/** pkg/kernel/indexed_table.go: one invocation of the indexed-table handler, from
    validation of the configuration to the emitted snapshot. The provider is any
    function from calls to replies; the context may be cancelled anywhere. */
module IndexedHandler {
  import opened Options
  import opened IndexedConfig
  import opened IndexedRows
  import opened IndexedSupply
  import IndexedBatches
  import IndexedInterleave
  import W = WorkerPool
  import Partitions
  import Sorting

  datatype Chunk = Snapshot(rows: seq<Row>) | Done

  // ---------------------------------------------------------- what is promised

  /** One call for rows: the batch and the expansion it belongs to. */
  datatype Call = Call(attempt: nat, batch: nat)

  /** The call was for a batch of a job of its attempt. */
  ghost predicate Requested(cfg: IndexedTable, p: Provider, c: Call) {
    exists count: nat ::
      IndexedBatches.ValidJob(JobOf(cfg, p, c.attempt, count)) && c.batch < BatchesOf(cfg, p, c.attempt, count)
  }

  function BatchesOf(cfg: IndexedTable, p: Provider, a: nat, count: nat): nat
    requires IndexedBatches.ValidJob(JobOf(cfg, p, a, count))
  {
    IndexedBatches.Batches(JobOf(cfg, p, a, count))
  }

  /** What the calls for rows of one invocation are like. */
  ghost predicate Calls(cfg: IndexedTable, p: Provider, made: seq<Call>) {
    && (forall m, n :: 0 <= m < n < |made| ==> made[m] != made[n])
    && (forall c :: c in made ==> c.attempt <= cfg.maxRepairs && Requested(cfg, p, c))
  }

  /** The row is verbatim one of the answer to the call; in the first expansion it
      is also of that batch's partition. */
  ghost predicate ReturnedBy(cfg: IndexedTable, p: Provider, c: Call, row: Row) {
    && p.expand(c.attempt, c.batch).Parsed? && row in p.expand(c.attempt, c.batch).value
    && (c.attempt == 0 && cfg.batchValues != [] ==>
          && c.batch < |cfg.batchValues| && 0 <= cfg.batchColumn < |row|
          && row[cfg.batchColumn] == cfg.batchValues[c.batch])
  }

  /** A good row out of the answer to one of the calls made. */
  ghost predicate Candidate(cfg: IndexedTable, p: Provider, made: seq<Call>, row: Row) {
    Valid(cfg, 3) && Good(cfg, row) && exists c :: c in made && ReturnedBy(cfg, p, c, row)
  }

  /** What every published table satisfies. */
  ghost predicate Publishable(cfg: IndexedTable, p: Provider, made: seq<Call>, rows: seq<Row>) {
    && |rows| == cfg.targetRows
    && (forall row :: row in rows ==> Candidate(cfg, p, made, row))
    && DistinctTopics(p, rows)
    && Covers(cfg, rows)
  }

  // ------------------------------------------------------------------ gathering

  ghost predicate AllCandidates(cfg: IndexedTable, p: Provider, made: seq<Call>, rows: seq<Row>) {
    forall row :: row in rows ==> Candidate(cfg, p, made, row)
  }

  /** What is kept of the rows received: the first of each topic, and all topics. */
  ghost predicate KeptOf(p: Provider, received: seq<Row>, rows: seq<Row>, seen: set<string>) {
    rows == Unseen(p, received) && seen == TopicsOf(p, received)
  }

  lemma KeptNext(p: Provider, received: seq<Row>, rows: seq<Row>, seen: set<string>, row: Row)
    requires KeptOf(p, received, rows, seen)
    ensures Topic(p, row) in seen ==> KeptOf(p, received + [row], rows, seen)
    ensures Topic(p, row) !in seen ==> KeptOf(p, received + [row], rows + [row], seen + {Topic(p, row)})
  {
    UnseenNext(p, received, row);
  }

  lemma TakeMore(before: seq<Row>, batch: seq<Row>, i: nat)
    requires i < |batch|
    ensures before + batch[..i] + [batch[i]] == before + batch[..i + 1]
  {
  }

  lemma KeptAll(p: Provider, before: seq<Row>, batch: seq<Row>, rows0: seq<Row>, seen0: set<string>,
                rows: seq<Row>, seen: set<string>)
    requires KeptOf(p, before, rows0, seen0) && KeptOf(p, before + batch[..|batch|], rows, seen)
    ensures KeptOf(p, before + batch, rows, seen) && Extends(rows0, rows, batch) && DistinctTopics(p, rows)
    ensures TopicsOf(p, rows) == TopicsOf(p, rows0) + TopicsOf(p, batch)
  {
    assert batch[..|batch|] == batch;
    BatchAdds(p, before, batch);
  }

  /** The rows with new topics are added, the first of each, and no other. */
  method AddUnseen(p: Provider, ghost before: seq<Row>, rows0: seq<Row>, seen0: set<string>, batchRows: seq<Row>)
    returns (rows: seq<Row>, seen: set<string>)
    requires KeptOf(p, before, rows0, seen0)
    ensures rows0 <= rows && DistinctTopics(p, rows)
    ensures TopicsOf(p, rows) == TopicsOf(p, rows0) + TopicsOf(p, batchRows)
    ensures forall row :: row in rows ==> row in rows0 || row in batchRows
    ensures KeptOf(p, before + batchRows, rows, seen)
  {
    rows, seen := rows0, seen0;
    assert before + batchRows[..0] == before;
    for i := 0 to |batchRows|
      invariant KeptOf(p, before + batchRows[..i], rows, seen)
    {
      var row := batchRows[i];
      KeptNext(p, before + batchRows[..i], rows, seen, row);
      TakeMore(before, batchRows, i);
      var key := Topic(p, row);
      if key !in seen {
        rows := rows + [row];
        seen := seen + {key};
      }
    }
    KeptAll(p, before, batchRows, rows0, seen0, rows, seen);
  }

  /** The calls of one expansion. */
  function Tagged(attempt: nat, batches: seq<nat>): (made: seq<Call>)
    ensures |made| == |batches| && forall i :: 0 <= i < |batches| ==> made[i] == Call(attempt, batches[i])
  {
    seq(|batches|, i requires 0 <= i < |batches| => Call(attempt, batches[i]))
  }

  /** A row of one of the job's batches was returned by the call for that batch. */
  lemma BatchReturns(cfg: IndexedTable, p: Provider, attempt: nat, count: nat, i: nat, row: Row)
    requires IndexedBatches.ValidJob(JobOf(cfg, p, attempt, count)) && i < BatchesOf(cfg, p, attempt, count)
    requires IndexedBatches.FromBatch(JobOf(cfg, p, attempt, count), i, row)
    ensures ReturnedBy(cfg, p, Call(attempt, i), row) && Good(cfg, row)
  {
    IndexedBatches.BatchesInRange(JobOf(cfg, p, attempt, count));
    NonblankValues(cfg);
  }

  lemma TaggedHas(attempt: nat, batches: seq<nat>, i: nat, before: seq<Call>)
    requires i in batches
    ensures Call(attempt, i) in before + Tagged(attempt, batches)
  {
    var k :| 0 <= k < |batches| && batches[k] == i;
    assert Tagged(attempt, batches)[k] == Call(attempt, i);
  }

  lemma ExpandedAreCandidates(cfg: IndexedTable, p: Provider, attempt: nat, count: nat, rows: seq<Row>,
                              batches: seq<nat>, before: seq<Call>)
    requires IndexedBatches.ValidJob(JobOf(cfg, p, attempt, count))
    requires IndexedBatches.SequentialRows(JobOf(cfg, p, attempt, count)) == Some(rows)
    requires forall i :: 0 <= i < BatchesOf(cfg, p, attempt, count) ==> i in batches
    ensures AllCandidates(cfg, p, before + Tagged(attempt, batches), rows)
  {
    var j := JobOf(cfg, p, attempt, count);
    forall row | row in rows ensures Candidate(cfg, p, before + Tagged(attempt, batches), row) {
      IndexedBatches.SequentialRowsSound(j, IndexedBatches.Batches(j), row);
      var i :| 0 <= i < IndexedBatches.Batches(j) && IndexedBatches.FromBatch(j, i, row);
      BatchReturns(cfg, p, attempt, count, i, row);
      TaggedHas(attempt, batches, i, before);
    }
  }

  /** More calls make more candidates. */
  lemma CandidatesStay(cfg: IndexedTable, p: Provider, made: seq<Call>, more: seq<Call>, rows: seq<Row>)
    requires AllCandidates(cfg, p, made, rows)
    ensures AllCandidates(cfg, p, made + more, rows)
  {
    forall row | row in rows ensures Candidate(cfg, p, made + more, row) {
      assert Candidate(cfg, p, made, row);
      var c :| c in made && ReturnedBy(cfg, p, c, row);
      assert c in made + more;
    }
  }

  /** The calls of another attempt are new ones. */
  lemma CallsGrow(cfg: IndexedTable, p: Provider, made: seq<Call>, attempt: nat, count: nat, batches: seq<nat>)
    requires Calls(cfg, p, made) && (forall c :: c in made ==> c.attempt < attempt) && attempt <= cfg.maxRepairs
    requires IndexedBatches.ValidJob(JobOf(cfg, p, attempt, count)) && W.NoneTwice(batches)
    requires forall i :: i in batches ==> i < BatchesOf(cfg, p, attempt, count)
    ensures Calls(cfg, p, made + Tagged(attempt, batches))
    ensures forall c :: c in made + Tagged(attempt, batches) ==> c.attempt < attempt + 1
  {
    var more := Tagged(attempt, batches);
    forall c | c in more ensures c.attempt == attempt && Requested(cfg, p, c) {
      var k :| 0 <= k < |more| && more[k] == c;
      assert batches[k] in batches;
    }
    var all := made + more;
    forall m, n | 0 <= m < n < |all| ensures all[m] != all[n] {
      assert n >= |made| ==> all[n] == more[n - |made|] && all[n] in more;
      assert m < |made| ==> all[m] in made;
      assert m >= |made| ==> more[m - |made|] == Call(attempt, batches[m - |made|]);
    }
  }

  lemma NonblankValues(cfg: IndexedTable)
    requires Valid(cfg, 3)
    ensures forall i :: 0 <= i < |cfg.batchValues| ==> cfg.batchValues[i] != ""
  {
  }

  /** The rows kept so far, and what is asked for next. */
  lemma KeptSoFar(cfg: IndexedTable, p: Provider, run: seq<seq<Row>>)
    requires Valid(cfg, 3)
    ensures |Unseen(p, Received(run))| == |TopicsOf(p, Received(run))|
    ensures Lacking(cfg, p, run) <==> |Unseen(p, Received(run))| < cfg.targetRows
    ensures DistinctTopics(p, Unseen(p, Received(run)))
    ensures forall row :: row in Unseen(p, Received(run)) ==> row in Received(run)
  {
    UnseenTopics(p, Received(run));
    CountTopics(p, Unseen(p, Received(run)));
  }

  /** One more expansion that returned: the run goes on, and all rows received are
      still from calls made. */
  lemma RoundGrows(cfg: IndexedTable, p: Provider, made: seq<Call>, run: seq<seq<Row>>, attempt: nat, count: nat,
                   rows: seq<Row>, batches: seq<nat>)
    requires Valid(cfg, 3) && Expansions(cfg, p, run) && Lacking(cfg, p, run)
    requires |run| == attempt <= cfg.maxRepairs && count == Missing(cfg, p, run)
    requires IndexedBatches.SequentialRows(JobOf(cfg, p, attempt, count)) == Some(rows)
    requires forall i :: 0 <= i < BatchesOf(cfg, p, attempt, count) ==> i in batches
    requires AllCandidates(cfg, p, made, Received(run))
    ensures Expansions(cfg, p, run + [rows]) && Received(run + [rows]) == Received(run) + rows
    ensures AllCandidates(cfg, p, made + Tagged(attempt, batches), Received(run) + rows)
  {
    CandidatesStay(cfg, p, made, Tagged(attempt, batches), Received(run));
    ExpandedAreCandidates(cfg, p, attempt, count, rows, batches, made);
    ExpansionsGrow(cfg, p, run, rows);
  }

  /** Expansion and repair: the first rows of enough topics, or an error after a run
      of expansions that has nothing more to give, or was disturbed. */
  method Gather(cfg: IndexedTable, p: Provider)
    returns (r: Option<seq<Row>>, made: seq<Call>, ghost run: seq<seq<Row>>, ghost interrupted: bool)
    requires Valid(cfg, 3)
    ensures r.Some? ==> Supplies(cfg, p, run) && r.value == Unseen(p, Received(run)) && !interrupted
    ensures r.None? ==> if interrupted then Disturbs(cfg, p, run) else Exhausts(cfg, p, run)
    ensures r.Some? ==> |r.value| >= cfg.targetRows && DistinctTopics(p, r.value)
    ensures r.Some? ==> AllCandidates(cfg, p, made, r.value)
    ensures Calls(cfg, p, made) && |made| <= 100 * (cfg.maxRepairs + 1)
  {
    var rows: seq<Row>, seen: set<string> := [], {};
    var attempt := 0;
    made, run, interrupted := [], [], false;
    while true
      invariant 0 <= attempt <= cfg.maxRepairs && |made| <= 100 * attempt
      invariant Calls(cfg, p, made) && forall c :: c in made ==> c.attempt < attempt
      invariant |run| == attempt && Expansions(cfg, p, run) && Lacking(cfg, p, run)
      invariant KeptOf(p, Received(run), rows, seen)
      invariant AllCandidates(cfg, p, made, Received(run)) && !interrupted
      decreases cfg.maxRepairs - attempt
    {
      KeptSoFar(cfg, p, run);
      var count := cfg.candidateRows;
      if attempt > 0 {
        count := cfg.targetRows - |rows|;
      }
      assert count == Missing(cfg, p, run);
      var batchRows, cut, batches := IndexedBatches.ExpandIndexedBatches(JobOf(cfg, p, attempt, count));
      CallsGrow(cfg, p, made, attempt, count, batches);
      if batchRows.None? {
        interrupted := cut;
        return None, made + Tagged(attempt, batches), run, interrupted;
      }
      RoundGrows(cfg, p, made, run, attempt, count, batchRows.value, batches);
      made := made + Tagged(attempt, batches);
      rows, seen := AddUnseen(p, Received(run), rows, seen, batchRows.value);
      run := run + [batchRows.value];
      KeptSoFar(cfg, p, run);
      if |rows| >= cfg.targetRows {
        return Some(rows), made, run, false;
      }
      if attempt >= cfg.maxRepairs {
        return None, made, run, false;
      }
      attempt := attempt + 1;
    }
  }

  // ------------------------------------------------------------------ selection

  /** The count of a value is the size of its partition. */
  lemma {:induction false} CountIsPartition(rows: seq<Row>, col: int, value: string)
    requires forall i :: 0 <= i < |rows| ==> 0 <= col < |rows[i]|
    ensures CountValue(rows, col, value) == |Partitions.Of(rows, IndexedInterleave.ByColumn(col), value)|
  {
    if rows != [] { CountIsPartition(rows[..|rows| - 1], col, value); }
  }

  method CheckCoverage(cfg: IndexedTable, selected: seq<Row>) returns (ok: bool)
    requires cfg.minPerPartition > 0 ==> forall i :: 0 <= i < |selected| ==> 0 <= cfg.batchColumn < |selected[i]|
    ensures ok <==> Covers(cfg, selected)
  {
    if cfg.minPerPartition <= 0 {
      return true;
    }
    var counts: map<string, nat> := map[];
    for i := 0 to |selected|
      invariant forall v :: (if v in counts then counts[v] else 0) == CountValue(selected[..i], cfg.batchColumn, v)
    {
      assert selected[..i + 1][..i] == selected[..i];
      assert 0 <= cfg.batchColumn < |selected[i]|;
      var value := selected[i][cfg.batchColumn];
      counts := counts[value := (if value in counts then counts[value] else 0) + 1];
    }
    assert selected[..|selected|] == selected;
    for i := 0 to |cfg.batchValues|
      invariant forall k :: 0 <= k < i ==>
          CountValue(selected, cfg.batchColumn, cfg.batchValues[k]) >= cfg.minPerPartition
    {
      var v := cfg.batchValues[i];
      if (if v in counts then counts[v] else 0) < cfg.minPerPartition {
        return false;
      }
    }
    return true;
  }

  lemma SelectionIsPublishable(cfg: IndexedTable, p: Provider, made: seq<Call>, rows: seq<Row>, indices: seq<int>,
                               selected: seq<Row>)
    requires DistinctTopics(p, rows) && AllCandidates(cfg, p, made, rows)
    requires ValidSelection(indices, |rows|, cfg.targetRows) && selected == Named(rows, indices)
    requires Covers(cfg, selected)
    ensures Publishable(cfg, p, made, selected)
  {
    forall i, j | 0 <= i < j < |selected| ensures Topic(p, selected[i]) != Topic(p, selected[j]) {
      assert indices[i] != indices[j];
    }
    forall row | row in selected ensures row in rows {
      var i :| 0 <= i < |selected| && selected[i] == row;
    }
  }

  /** The first acceptable selection, or an error when there is none in time. */
  method Select(cfg: IndexedTable, p: Provider, ghost made: seq<Call>, rows: seq<Row>)
    returns (r: Option<seq<Row>>, calls: nat, ghost at: nat)
    requires Valid(cfg, 3)
    requires DistinctTopics(p, rows) && AllCandidates(cfg, p, made, rows)
    ensures r.Some? ==> Chosen(cfg, p, rows, at) && r.value == Named(rows, p.select(at).value)
    ensures r.None? ==> forall a: nat :: !Chosen(cfg, p, rows, a)
    ensures r.Some? ==> Publishable(cfg, p, made, r.value)
    ensures calls <= cfg.maxRepairs + 1
  {
    var attempt := 0;
    while true
      invariant 0 <= attempt <= cfg.maxRepairs
      invariant forall b :: 0 <= b < attempt ==> !p.select(b).CallFailed? && !Picks(cfg, p, rows, b)
      decreases cfg.maxRepairs - attempt
    {
      var content := p.select(attempt);
      if content.CallFailed? {
        return None, attempt + 1, 0;
      }
      var selected := SelectIndexedRows(content, rows, cfg.targetRows);
      if selected.Some? {
        assert selected.value == Named(rows, content.value);
        forall i | 0 <= i < |selected.value| ensures |selected.value[i]| == |cfg.columns| {
          assert selected.value[i] in rows;
        }
        var covered := CheckCoverage(cfg, selected.value);
        if covered {
          SelectionIsPublishable(cfg, p, made, rows, content.value, selected.value);
          return selected, attempt + 1, attempt;
        }
      }
      if attempt >= cfg.maxRepairs {
        return None, attempt + 1, 0;
      }
      attempt := attempt + 1;
    }
  }

  // ----------------------------------------------------------------- invocation

  /** The rows offered for selection after a run of expansions. */
  function Offered(cfg: IndexedTable, p: Provider, run: seq<seq<Row>>): seq<Row> {
    IndexedInterleave.Interleaved(Unseen(p, Received(run)), cfg)
  }

  /** These rows are the chosen selection from what this run of expansions supplies. */
  ghost predicate Publishes(cfg: IndexedTable, p: Provider, run: seq<seq<Row>>, a: nat, rows: seq<Row>)
    requires Valid(cfg, 3)
  {
    && Supplies(cfg, p, run) && Chosen(cfg, p, Offered(cfg, p, run), a)
    && rows == Named(Offered(cfg, p, run), p.select(a).value)
  }

  /** Some selection within the budget is acceptable, and no call before it fails. */
  ghost predicate HasPick(cfg: IndexedTable, p: Provider, rows: seq<Row>) {
    exists a: nat ::
      a <= cfg.maxRepairs && Picks(cfg, p, rows, a) && forall b :: 0 <= b < a ==> !p.select(b).CallFailed?
  }

  /** The first expansion is left alone and brings enough topics, and a selection is
      acceptable before any selection call fails. */
  ghost predicate FirstTrySuffices(cfg: IndexedTable, p: Provider)
    requires Valid(cfg, 3)
  {
    var first := IndexedBatches.SequentialRows(JobOf(cfg, p, 0, cfg.candidateRows));
    && Undisturbed(p, 0) && first.Some? && |TopicsOf(p, first.value)| >= cfg.targetRows
    && HasPick(cfg, p, IndexedInterleave.Interleaved(Unseen(p, first.value), cfg))
  }

  /** A supplying run of undisturbed expansions leaves no room for another end. */
  lemma NothingElseDisturbs(cfg: IndexedTable, p: Provider, run: seq<seq<Row>>, other: seq<seq<Row>>)
    requires Valid(cfg, 3) && Supplies(cfg, p, run)
    requires forall k :: 0 <= k < |run| ==> Undisturbed(p, k)
    ensures !Disturbs(cfg, p, other)
  {
    if Expansions(cfg, p, other) {
      SupplyEnds(cfg, p, run, other);
      RunsAgree(cfg, p, run, other, |other|);
      assert run[..|run|] == run && other[..|other|] == other;
    }
  }

  /** Some rows are the chosen selection from what some run supplies. */
  ghost predicate HasTable(cfg: IndexedTable, p: Provider)
    requires Valid(cfg, 3)
  {
    exists run, a: nat, rows :: Publishes(cfg, p, run, a, rows)
  }

  /** One expansion that brings enough is a supplying run. */
  lemma OneIsEnough(cfg: IndexedTable, p: Provider, first: seq<Row>) returns (run: seq<seq<Row>>)
    requires Valid(cfg, 3) && |TopicsOf(p, first)| >= cfg.targetRows
    requires IndexedBatches.SequentialRows(JobOf(cfg, p, 0, cfg.candidateRows)) == Some(first)
    ensures |run| == 1 && Supplies(cfg, p, run) && Received(run) == first
  {
    var none: seq<seq<Row>> := [];
    FirstAsksForAll(cfg, p, none);
    ExpansionsGrow(cfg, p, none, first);
    assert Received(none) + first == first;
    run := none + [first];
  }

  lemma TableIsThere(cfg: IndexedTable, p: Provider, run: seq<seq<Row>>)
    requires Valid(cfg, 3) && Supplies(cfg, p, run) && HasPick(cfg, p, Offered(cfg, p, run))
    ensures HasTable(cfg, p)
  {
    var rows := Offered(cfg, p, run);
    var a: nat :| a <= cfg.maxRepairs && Picks(cfg, p, rows, a) && forall b :: 0 <= b < a ==> !p.select(b).CallFailed?;
    var least := SomeoneIsChosen(cfg, p, rows, a);
    assert Publishes(cfg, p, run, least, Named(rows, p.select(least).value));
  }

  lemma NothingDisturbs(cfg: IndexedTable, p: Provider, run: seq<seq<Row>>)
    requires Valid(cfg, 3) && Supplies(cfg, p, run) && |run| == 1 && Undisturbed(p, 0)
    ensures forall other :: !Disturbs(cfg, p, other)
  {
    forall other ensures !Disturbs(cfg, p, other) {
      NothingElseDisturbs(cfg, p, run, other);
    }
  }

  lemma FirstTryPublishes(cfg: IndexedTable, p: Provider)
    requires Valid(cfg, 3) && FirstTrySuffices(cfg, p)
    ensures HasTable(cfg, p)
    ensures forall other :: !Disturbs(cfg, p, other)
  {
    var first := IndexedBatches.SequentialRows(JobOf(cfg, p, 0, cfg.candidateRows));
    var run := OneIsEnough(cfg, p, first.value);
    TableIsThere(cfg, p, run);
    NothingDisturbs(cfg, p, run);
  }

  lemma NoTableAfter(cfg: IndexedTable, p: Provider, run: seq<seq<Row>>)
    requires Valid(cfg, 3) && Expansions(cfg, p, run)
    requires Exhausts(cfg, p, run)
             || (Supplies(cfg, p, run) && forall a: nat :: !Chosen(cfg, p, Offered(cfg, p, run), a))
    ensures !HasTable(cfg, p)
  {
    forall b, a: nat, rows ensures !Publishes(cfg, p, b, a, rows) {
      if Supplies(cfg, p, b) {
        SupplyIsUnique(cfg, p, b, run);
      }
    }
  }

  /** What the handler sends, unless an expansion it needed was disturbed. */
  ghost predicate Answered(cfg: IndexedTable, steps: int, p: Provider, out: seq<Chunk>) {
    && (out != [] <==> Valid(cfg, steps) && p.collects && !p.cancelledBeforeSend && HasTable(cfg, p))
    && (out != [] ==> out[0].Snapshot? && exists run, a: nat :: Publishes(cfg, p, run, a, out[0].rows))
    && (out != [] ==> out[1..] == if p.cancelledAfterSnapshot then [] else [Done])
  }

  /** Interleaving and selection, once the rows are gathered: the table, if any. */
  method Choose(cfg: IndexedTable, p: Provider, ghost made: seq<Call>, ghost run: seq<seq<Row>>, rows: seq<Row>)
    returns (selected: Option<seq<Row>>, asked: nat, ghost at: nat)
    requires Valid(cfg, 3) && Supplies(cfg, p, run) && rows == Unseen(p, Received(run))
    requires DistinctTopics(p, rows) && AllCandidates(cfg, p, made, rows)
    ensures selected.Some? ==> Publishes(cfg, p, run, at, selected.value) && Publishable(cfg, p, made, selected.value)
    ensures selected.None? ==> !HasTable(cfg, p)
    ensures asked <= cfg.maxRepairs + 1
  {
    NonblankValues(cfg);
    HaveColumn(cfg, p, made, rows);
    var mixed := IndexedInterleave.InterleaveIndexedPartitions(rows, cfg);
    MixedRows(cfg, p, made, rows);
    selected, asked, at := Select(cfg, p, made, mixed);
    if selected.None? {
      NoTableAfter(cfg, p, run);
    }
  }

  lemma HaveColumn(cfg: IndexedTable, p: Provider, made: seq<Call>, rows: seq<Row>)
    requires Valid(cfg, 3) && AllCandidates(cfg, p, made, rows)
    ensures cfg.batchValues != [] ==> IndexedInterleave.HasColumn(rows, cfg.batchColumn)
  {
    assert forall i :: 0 <= i < |rows| ==> rows[i] in rows;
  }

  /** Sending what was chosen. */
  method Publish(cfg: IndexedTable, p: Provider, ghost made: seq<Call>, ghost run: seq<seq<Row>>, rows: seq<Row>)
    returns (out: seq<Chunk>, ok: bool, asked: nat)
    requires Valid(cfg, 3) && p.collects && Supplies(cfg, p, run) && rows == Unseen(p, Received(run))
    requires DistinctTopics(p, rows) && AllCandidates(cfg, p, made, rows)
    ensures Answered(cfg, 3, p, out) && asked <= cfg.maxRepairs + 1 && (ok <==> |out| == 2)
    ensures out != [] ==> out[0].Snapshot? && Publishable(cfg, p, made, out[0].rows)
  {
    out, ok := [], false;
    var selected;
    ghost var at;
    selected, asked, at := Choose(cfg, p, made, run, rows);
    if selected.None? {
      return;
    }
    assert Publishes(cfg, p, run, at, selected.value);
    if p.cancelledBeforeSend {
      return;
    }
    out := [Snapshot(selected.value)];
    if p.cancelledAfterSnapshot {
      return;
    }
    out, ok := out + [Done], true;
  }

  /** Nothing is emitted before everything is validated; what is emitted is one
      publishable table, completed by the end marker exactly on success; and an
      invocation makes at most 405 provider calls. `made` lists those for rows.
      Left alone, the handler sends a table exactly when there is one to send. */
  method Handle(cfg: IndexedTable, steps: int, p: Provider)
    returns (out: seq<Chunk>, ok: bool, calls: nat, made: seq<Call>, ghost interrupted: bool)
    ensures |made| <= calls <= 405 && Calls(cfg, p, made)
    ensures !Valid(cfg, steps) ==> out == [] && !ok && calls == 0
    ensures ok <==> |out| == 2
    ensures out == [] || (out[0].Snapshot? && Valid(cfg, 3) && Publishable(cfg, p, made, out[0].rows)
                          && (out[1..] == [] || out[1..] == [Done]))
    ensures !interrupted ==> Answered(cfg, steps, p, out)
    ensures interrupted ==> out == [] && Valid(cfg, 3) && p.collects && exists run :: Disturbs(cfg, p, run)
    ensures Valid(cfg, steps) && p.collects && FirstTrySuffices(cfg, p) && !p.cancelledBeforeSend ==>
              if p.cancelledAfterSnapshot then |out| == 1 else ok
  {
    out, ok, calls, made, interrupted := [], false, 0, [], false;
    var valid := Validate(cfg, steps);
    if !valid {
      return;
    }
    calls := 1;
    if !p.collects {
      return;
    }
    if FirstTrySuffices(cfg, p) { FirstTryPublishes(cfg, p); }
    var rows;
    ghost var run;
    rows, made, run, interrupted := Gather(cfg, p);
    calls := calls + |made|;
    if rows.None? {
      if !interrupted { NoTableAfter(cfg, p, run); }
      return;
    }
    var asked;
    out, ok, asked := Publish(cfg, p, made, run, rows.value);
    calls := calls + asked;
  }

  /** Interleaving keeps the candidates what they are. */
  lemma MixedRows(cfg: IndexedTable, p: Provider, made: seq<Call>, rows: seq<Row>)
    requires Valid(cfg, 3) && DistinctTopics(p, rows) && AllCandidates(cfg, p, made, rows)
    ensures var mixed := IndexedInterleave.Interleaved(rows, cfg);
            DistinctTopics(p, mixed) && AllCandidates(cfg, p, made, mixed)
  {
    var mixed := IndexedInterleave.Interleaved(rows, cfg);
    if cfg.batchValues != [] {
      IndexedInterleave.InterleavedHolds(rows, cfg);
      PermutedTopics(p, rows, mixed);
    }
  }

  lemma PermutedTopics(p: Provider, rows: seq<Row>, mixed: seq<Row>)
    requires DistinctTopics(p, rows) && multiset(mixed) == multiset(rows)
    ensures DistinctTopics(p, mixed)
  {
    forall i, j | 0 <= i < j < |mixed| ensures Topic(p, mixed[i]) != Topic(p, mixed[j]) {
      var k, l := Sorting.PermutedPair(rows, mixed, i, j);
    }
  }
}
