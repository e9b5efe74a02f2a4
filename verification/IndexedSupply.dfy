/** pkg/kernel/indexed_table.go: which rows the expansions of one invocation supply,
    when they are enough, and which selection is taken. Nothing here is a loop: a
    whole run of expansions is looked at from outside. */
module IndexedSupply {
  import opened Options
  import opened IndexedConfig
  import opened IndexedRows
  import IndexedBatches
  import P = Partitions
  import Texts

  /** What the world answers: whether the collecting call succeeds, the reply to
      each batch of each expansion, whether that call returns without being
      cancelled, whether the context may end during an expansion, the reply to each
      selection call, and whether the context has ended at the two sends. */
  datatype Provider = Provider(
    collects: bool,
    expand: (nat, nat) -> Reply<seq<Row>>,
    answers: (nat, nat) -> bool,
    ends: nat -> bool,
    select: nat -> Reply<seq<int>>,
    cancelledBeforeSend: bool,
    cancelledAfterSnapshot: bool,
    lower: string -> string)

  // ------------------------------------------------------------ title identity

  /** Titles that differ only in case and white space are the same topic. */
  function Topic(p: Provider, row: Row): string {
    p.lower(Texts.Join(Texts.Fields(if row == [] then "" else row[0]), ' '))
  }

  /** A topic is the words of the title, one space between any two, in lower case. */
  lemma TopicOfTitle(p: Provider, row: Row, gaps: seq<string>, words: seq<string>)
    requires row != [] && |gaps| == |words| + 1 && row[0] == Texts.Spaced(gaps, words)
    requires Texts.Separates(gaps) && Texts.AreWords(words)
    ensures Topic(p, row) == p.lower(Texts.Join(words, ' '))
  {
    Texts.FieldsOfWords(gaps, words);
  }

  predicate DistinctTopics(p: Provider, rows: seq<Row>) {
    forall i, j :: 0 <= i < j < |rows| ==> Topic(p, rows[i]) != Topic(p, rows[j])
  }

  function TopicsOf(p: Provider, rows: seq<Row>): set<string> {
    set row | row in rows :: Topic(p, row)
  }

  lemma TopicsAppend(p: Provider, rows: seq<Row>, row: Row)
    ensures TopicsOf(p, rows + [row]) == TopicsOf(p, rows) + {Topic(p, row)}
  {
  }

  lemma TopicsConcat(p: Provider, a: seq<Row>, b: seq<Row>)
    ensures TopicsOf(p, a + b) == TopicsOf(p, a) + TopicsOf(p, b)
  {
  }

  lemma {:induction false} CountTopics(p: Provider, rows: seq<Row>)
    requires DistinctTopics(p, rows)
    ensures |TopicsOf(p, rows)| == |rows|
  {
    if rows != [] {
      var init, last := rows[..|rows| - 1], rows[|rows| - 1];
      CountTopics(p, init);
      assert init + [last] == rows;
      TopicsAppend(p, init, last);
      NewTopic(p, init, last);
      CountNew(TopicsOf(p, init), Topic(p, last));
    }
  }

  lemma CountNew(topics: set<string>, topic: string)
    requires topic !in topics
    ensures |topics + {topic}| == |topics| + 1
  {
  }

  lemma NewTopic(p: Provider, init: seq<Row>, last: Row)
    requires DistinctTopics(p, init + [last])
    ensures Topic(p, last) !in TopicsOf(p, init)
  {
    var rows := init + [last];
    forall row | row in init ensures Topic(p, row) != Topic(p, last) {
      var i :| 0 <= i < |init| && init[i] == row;
      assert rows[i] == row && rows[|init|] == last;
    }
  }

  /** The rows whose topic no row before them has, in order. */
  function Unseen(p: Provider, rows: seq<Row>): seq<Row> {
    if rows == [] then []
    else
      var init, last := rows[..|rows| - 1], rows[|rows| - 1];
      if Topic(p, last) in TopicsOf(p, init) then Unseen(p, init) else Unseen(p, init) + [last]
  }

  predicate FirstOfTopic(p: Provider, rows: seq<Row>, k: nat)
    requires k < |rows|
  {
    forall i :: 0 <= i < k ==> Topic(p, rows[i]) != Topic(p, rows[k])
  }

  predicate Ascending(at: seq<nat>, n: nat) {
    (forall i, j :: 0 <= i < j < |at| ==> at[i] < at[j]) && forall i :: 0 <= i < |at| ==> at[i] < n
  }

  /** These are exactly the positions of the first rows of a topic. */
  ghost predicate FirstsAt(p: Provider, rows: seq<Row>, at: seq<nat>) {
    forall k: nat :: k < |rows| ==> (k in at <==> FirstOfTopic(p, rows, k))
  }

  /** These positions, in ascending order, are those of the rows kept. */
  ghost predicate KeptAt(p: Provider, rows: seq<Row>, kept: seq<Row>, at: seq<nat>) {
    && Ascending(at, |rows|) && FirstsAt(p, rows, at)
    && |kept| == |at| && forall i :: 0 <= i < |at| ==> kept[i] == rows[at[i]]
  }

  /** One row is kept of each topic, the first, verbatim and in order. */
  lemma {:induction false} UnseenIsFirsts(p: Provider, rows: seq<Row>) returns (at: seq<nat>)
    ensures KeptAt(p, rows, Unseen(p, rows), at)
  {
    at := [];
    if rows != [] {
      var init, last := rows[..|rows| - 1], rows[|rows| - 1];
      at := UnseenIsFirsts(p, init);
      at := KeepLast(p, init, last, Unseen(p, init), at);
      assert rows == init + [last];
    }
  }

  lemma KeepLast(p: Provider, init: seq<Row>, last: Row, kept: seq<Row>, at: seq<nat>) returns (more: seq<nat>)
    requires KeptAt(p, init, kept, at)
    ensures KeptAt(p, init + [last], if Topic(p, last) in TopicsOf(p, init) then kept else kept + [last], more)
  {
    more := if Topic(p, last) in TopicsOf(p, init) then at else at + [|init|];
    FirstsStay(p, init, last, at, more);
  }

  lemma FirstsStay(p: Provider, init: seq<Row>, last: Row, at: seq<nat>, more: seq<nat>)
    requires Ascending(at, |init|) && FirstsAt(p, init, at)
    requires more == if Topic(p, last) in TopicsOf(p, init) then at else at + [|init|]
    ensures FirstsAt(p, init + [last], more)
  {
    var rows := init + [last];
    forall k: nat | k < |rows| ensures k in more <==> FirstOfTopic(p, rows, k) {
      if k < |init| {
        FirstStays(p, init, last, k);
      } else {
        LastIsFirst(p, init, last);
      }
    }
  }

  lemma FirstStays(p: Provider, init: seq<Row>, last: Row, k: nat)
    requires k < |init|
    ensures FirstOfTopic(p, init + [last], k) <==> FirstOfTopic(p, init, k)
  {
    var rows := init + [last];
    assert forall i :: 0 <= i < |init| ==> rows[i] == init[i];
  }

  lemma LastIsFirst(p: Provider, init: seq<Row>, last: Row)
    ensures FirstOfTopic(p, init + [last], |init|) <==> Topic(p, last) !in TopicsOf(p, init)
  {
    var rows := init + [last];
    if Topic(p, last) !in TopicsOf(p, init) {
      forall i | 0 <= i < |init| ensures Topic(p, rows[i]) != Topic(p, last) {
        assert init[i] in init;
      }
    } else {
      var row :| row in init && Topic(p, row) == Topic(p, last);
      var i :| 0 <= i < |init| && init[i] == row;
      assert Topic(p, rows[i]) == Topic(p, rows[|init|]);
    }
  }

  /** No topic is lost, and none is kept twice. */
  lemma {:induction false} UnseenTopics(p: Provider, rows: seq<Row>)
    ensures TopicsOf(p, Unseen(p, rows)) == TopicsOf(p, rows) && DistinctTopics(p, Unseen(p, rows))
    ensures forall row :: row in Unseen(p, rows) ==> row in rows
  {
    if rows != [] {
      var init, last := rows[..|rows| - 1], rows[|rows| - 1];
      UnseenTopics(p, init);
      assert rows == init + [last];
      TopicsAppend(p, init, last);
      TopicsAppend(p, Unseen(p, init), last);
      if Topic(p, last) !in TopicsOf(p, init) {
        DistinctAppend(p, Unseen(p, init), last);
      }
    }
  }

  ghost predicate Extends(kept: seq<Row>, all: seq<Row>, more: seq<Row>) {
    kept <= all && forall row :: row in all ==> row in kept || row in more
  }

  /** More rows only add to what is kept, and only some of themselves. */
  lemma {:induction false} UnseenExtends(p: Provider, before: seq<Row>, more: seq<Row>)
    ensures Extends(Unseen(p, before), Unseen(p, before + more), more)
  {
    if more == [] {
      assert before + more == before;
    } else {
      var init, last := more[..|more| - 1], more[|more| - 1];
      UnseenExtends(p, before, init);
      assert before + more == (before + init) + [last] && more == init + [last];
      UnseenNext(p, before + init, last);
      ExtendsMore(Unseen(p, before), Unseen(p, before + init), init, last);
    }
  }

  lemma ExtendsMore(kept: seq<Row>, all: seq<Row>, more: seq<Row>, last: Row)
    requires Extends(kept, all, more)
    ensures Extends(kept, all, more + [last]) && Extends(kept, all + [last], more + [last])
  {
  }

  lemma UnseenNext(p: Provider, rows: seq<Row>, row: Row)
    ensures TopicsOf(p, rows + [row]) == TopicsOf(p, rows) + {Topic(p, row)}
    ensures Unseen(p, rows + [row]) ==
        if Topic(p, row) in TopicsOf(p, rows) then Unseen(p, rows) else Unseen(p, rows) + [row]
  {
    TopicsAppend(p, rows, row);
    assert (rows + [row])[..|rows|] == rows;
  }

  /** What adding a batch does to the rows kept and to their topics. */
  lemma BatchAdds(p: Provider, before: seq<Row>, batch: seq<Row>)
    ensures var kept, all := Unseen(p, before), Unseen(p, before + batch);
      Extends(kept, all, batch) && DistinctTopics(p, all) && TopicsOf(p, all) == TopicsOf(p, kept) + TopicsOf(p, batch)
  {
    UnseenExtends(p, before, batch);
    UnseenTopics(p, before);
    UnseenTopics(p, before + batch);
    TopicsConcat(p, before, batch);
  }

  lemma DistinctAppend(p: Provider, rows: seq<Row>, last: Row)
    requires DistinctTopics(p, rows) && Topic(p, last) !in TopicsOf(p, rows)
    ensures DistinctTopics(p, rows + [last])
  {
    forall i | 0 <= i < |rows| ensures Topic(p, rows[i]) != Topic(p, last) {
      assert rows[i] in rows;
    }
  }

  // ----------------------------------------------------------- runs of expansions

  /** The expansion of one attempt: the first asks for all candidates, a repair for
      the missing rows. */
  function JobOf(cfg: IndexedTable, p: Provider, attempt: nat, count: nat): IndexedBatches.Job {
    IndexedBatches.Job(cfg, count, attempt > 0, (i: nat) => p.expand(attempt, i), (i: nat) => p.answers(attempt, i),
                       p.ends(attempt))
  }

  /** The rows the expansions of a run returned, in order. */
  function Received(run: seq<seq<Row>>): seq<Row> {
    if run == [] then [] else Received(run[..|run| - 1]) + run[|run| - 1]
  }

  predicate Lacking(cfg: IndexedTable, p: Provider, run: seq<seq<Row>>) {
    |TopicsOf(p, Received(run))| < cfg.targetRows
  }

  /** How many rows the expansion after this run asks for. */
  function Missing(cfg: IndexedTable, p: Provider, run: seq<seq<Row>>): (n: nat)
    requires Valid(cfg, 3) && Lacking(cfg, p, run)
    ensures IndexedBatches.ValidJob(JobOf(cfg, p, |run|, n))
  {
    if run == [] then cfg.candidateRows else cfg.targetRows - |TopicsOf(p, Received(run))|
  }

  /** What the expansion after this run returns when it is left alone. */
  function NextExpansion(cfg: IndexedTable, p: Provider, run: seq<seq<Row>>): Option<seq<Row>>
    requires Valid(cfg, 3) && Lacking(cfg, p, run)
  {
    IndexedBatches.SequentialRows(JobOf(cfg, p, |run|, Missing(cfg, p, run)))
  }

  /** Each expansion was needed, and returned these rows. */
  ghost predicate Expansions(cfg: IndexedTable, p: Provider, run: seq<seq<Row>>)
    requires Valid(cfg, 3)
  {
    |run| <= cfg.maxRepairs + 1 && forall k :: 0 <= k < |run| ==> Expanded(cfg, p, run, k)
  }

  ghost predicate Expanded(cfg: IndexedTable, p: Provider, run: seq<seq<Row>>, k: nat)
    requires Valid(cfg, 3) && k < |run|
  {
    Lacking(cfg, p, run[..k]) && NextExpansion(cfg, p, run[..k]) == Some(run[k])
  }

  /** A run that ends with rows of enough topics. */
  ghost predicate Supplies(cfg: IndexedTable, p: Provider, run: seq<seq<Row>>)
    requires Valid(cfg, 3)
  {
    Expansions(cfg, p, run) && !Lacking(cfg, p, run)
  }

  /** A run after which there is nothing to hope for: the next expansion fails, or
      there may be none. */
  ghost predicate Exhausts(cfg: IndexedTable, p: Provider, run: seq<seq<Row>>)
    requires Valid(cfg, 3)
  {
    && Expansions(cfg, p, run) && Lacking(cfg, p, run)
    && (|run| == cfg.maxRepairs + 1 || NextExpansion(cfg, p, run) == None)
  }

  /** The provider answers every batch of this expansion before the context ends. */
  ghost predicate Undisturbed(p: Provider, attempt: nat) {
    !p.ends(attempt) && forall i: nat :: p.answers(attempt, i)
  }

  /** A run that stops because the expansion it needs next is disturbed. */
  ghost predicate Disturbs(cfg: IndexedTable, p: Provider, run: seq<seq<Row>>)
    requires Valid(cfg, 3)
  {
    Expansions(cfg, p, run) && Lacking(cfg, p, run) && |run| <= cfg.maxRepairs && !Undisturbed(p, |run|)
  }

  lemma FirstAsksForAll(cfg: IndexedTable, p: Provider, run: seq<seq<Row>>)
    requires Valid(cfg, 3) && run == []
    ensures Lacking(cfg, p, run) && Missing(cfg, p, run) == cfg.candidateRows
    ensures NextExpansion(cfg, p, run) == IndexedBatches.SequentialRows(JobOf(cfg, p, 0, cfg.candidateRows))
  {
    assert JobOf(cfg, p, |run|, Missing(cfg, p, run)) == JobOf(cfg, p, 0, cfg.candidateRows);
  }

  lemma ExpansionsGrow(cfg: IndexedTable, p: Provider, run: seq<seq<Row>>, rows: seq<Row>)
    requires Valid(cfg, 3) && Expansions(cfg, p, run) && Lacking(cfg, p, run) && |run| <= cfg.maxRepairs
    requires NextExpansion(cfg, p, run) == Some(rows)
    ensures Expansions(cfg, p, run + [rows]) && Received(run + [rows]) == Received(run) + rows
  {
    var more := run + [rows];
    forall k | 0 <= k < |more| ensures Expanded(cfg, p, more, k) {
      assert more[..k] == run[..k];
      if k < |run| {
        assert Expanded(cfg, p, run, k);
      } else {
        assert run[..k] == run;
      }
    }
    assert more[..|run|] == run;
  }

  /** Two runs go the same way as far as both go. */
  lemma {:induction false} RunsAgree(cfg: IndexedTable, p: Provider, a: seq<seq<Row>>, b: seq<seq<Row>>, n: nat)
    requires Valid(cfg, 3) && Expansions(cfg, p, a) && Expansions(cfg, p, b) && n <= |a| && n <= |b|
    ensures a[..n] == b[..n]
  {
    if n > 0 {
      RunsAgree(cfg, p, a, b, n - 1);
      assert Expanded(cfg, p, a, n - 1) && Expanded(cfg, p, b, n - 1);
      assert a[..n] == a[..n - 1] + [a[n - 1]] && b[..n] == b[..n - 1] + [b[n - 1]];
    }
  }

  /** A supplying run is not a beginning of a longer one. */
  lemma SupplyEnds(cfg: IndexedTable, p: Provider, a: seq<seq<Row>>, b: seq<seq<Row>>)
    requires Valid(cfg, 3) && Supplies(cfg, p, a) && Expansions(cfg, p, b)
    ensures |b| <= |a|
  {
    var n := if |a| < |b| then |a| else 0;
    RunsAgree(cfg, p, a, b, n);
    assert n < |b| ==> Expanded(cfg, p, b, n);
    assert a[..|a|] == a;
  }

  /** There is at most one supplying run, and none beside an exhausting one. */
  lemma SupplyIsUnique(cfg: IndexedTable, p: Provider, a: seq<seq<Row>>, b: seq<seq<Row>>)
    requires Valid(cfg, 3) && Supplies(cfg, p, a) && Expansions(cfg, p, b)
    ensures Supplies(cfg, p, b) ==> a == b
    ensures !Exhausts(cfg, p, b)
  {
    SupplyEnds(cfg, p, a, b);
    RunsAgree(cfg, p, a, b, |b|);
    assert a[..|a|] == a && b[..|b|] == b;
    if |b| < |a| {
      assert Expanded(cfg, p, a, |b|);
    }
  }

  // ------------------------------------------------------------------ selection

  function CountValue(rows: seq<Row>, col: int, value: string): nat {
    if rows == [] then 0
    else
      var last := rows[|rows| - 1];
      CountValue(rows[..|rows| - 1], col, value) + if 0 <= col < |last| && last[col] == value then 1 else 0
  }

  predicate Covers(cfg: IndexedTable, rows: seq<Row>) {
    cfg.minPerPartition > 0 ==>
      forall v :: v in cfg.batchValues ==> CountValue(rows, cfg.batchColumn, v) >= cfg.minPerPartition
  }

  /** The rows with these one-based numbers. */
  function Named(rows: seq<Row>, indices: seq<int>): seq<Row>
    requires forall i :: 0 <= i < |indices| ==> 1 <= indices[i] <= |rows|
  {
    seq(|indices|, i requires 0 <= i < |indices| => rows[indices[i] - 1])
  }

  /** The answer to this selection call is acceptable. */
  predicate Picks(cfg: IndexedTable, p: Provider, rows: seq<Row>, attempt: nat) {
    && p.select(attempt).Parsed? && ValidSelection(p.select(attempt).value, |rows|, cfg.targetRows)
    && Covers(cfg, Named(rows, p.select(attempt).value))
  }

  /** It is the first acceptable one, within the budget, and no call before it failed. */
  predicate Chosen(cfg: IndexedTable, p: Provider, rows: seq<Row>, attempt: nat) {
    && attempt <= cfg.maxRepairs && Picks(cfg, p, rows, attempt)
    && forall b :: 0 <= b < attempt ==> !p.select(b).CallFailed? && !Picks(cfg, p, rows, b)
  }

  /** An acceptable answer before any failed call is preceded by, or is, the chosen one. */
  lemma {:induction false} SomeoneIsChosen(cfg: IndexedTable, p: Provider, rows: seq<Row>, attempt: nat)
    returns (a: nat)
    requires attempt <= cfg.maxRepairs && Picks(cfg, p, rows, attempt)
    requires forall b :: 0 <= b < attempt ==> !p.select(b).CallFailed?
    ensures Chosen(cfg, p, rows, a) && a <= attempt
    decreases attempt
  {
    if b: nat :| b < attempt && Picks(cfg, p, rows, b) {
      a := SomeoneIsChosen(cfg, p, rows, b);
    } else {
      a := attempt;
    }
  }
}
