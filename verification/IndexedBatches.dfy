/** pkg/kernel/indexed_table.go: how a request for rows is cut into batches, and
    the expansion of those batches by the worker pool. */
module IndexedBatches {
  import opened Options
  import opened IndexedConfig
  import opened IndexedRows
  import P = Partitions
  import W = WorkerPool

  /** One call of the pool: what to expand, what the provider would answer for
      each batch, whether that answer comes without cancellation, and whether the
      context may end meanwhile. */
  datatype Job = Job(
    cfg: IndexedTable, count: nat, repair: bool, reply: nat -> Reply<seq<Row>>, answers: nat -> bool, ends: bool)

  predicate ValidJob(j: Job) {
    && Valid(j.cfg, 3) && j.count >= 1
    && (if j.repair then j.count <= j.cfg.targetRows else j.count == j.cfg.candidateRows)
  }

  function Size(j: Job): nat
    requires ValidJob(j)
  {
    if j.cfg.batchSize == 0 then j.count else j.cfg.batchSize
  }

  function Batches(j: Job): (n: nat)
    requires ValidJob(j)
  {
    Ceil(j.count, Size(j))
  }

  lemma DivMonotone(x: int, y: int, d: int)
    requires d > 0 && x <= y
    ensures x / d <= y / d
  {
    assert y < (y / d + 1) * d && x / d * d <= x;
    if y / d + 1 <= x / d {
      Multiply(y / d + 1, x / d, d);
    }
  }

  lemma Multiply(a: int, b: int, d: int)
    requires a <= b && d >= 0
    ensures a * d <= b * d
  {
    assert (b - a) * d >= 0;
  }

  /** At least one and at most 100 batches; in a first pass exactly one per
      partition value. */
  lemma BatchesInRange(j: Job)
    requires ValidJob(j)
    ensures 1 <= Batches(j) <= 100
    ensures j.cfg.batchValues != [] && !j.repair ==> Batches(j) == |j.cfg.batchValues|
  {
    var n, d := j.count, Size(j);
    CeilPositive(n, d);
    if j.cfg.batchSize == 0 {
      assert Ceil(n, n) == 1 by { CeilOfSelf(n); }
    } else {
      DivMonotone(n + d - 1, j.cfg.candidateRows + d - 1, d);
    }
  }

  lemma CeilPositive(n: int, d: int)
    requires n >= 1 && d >= 1
    ensures Ceil(n, d) >= 1
  {
    DivMonotone(d, n + d - 1, d);
  }

  lemma CeilOfSelf(n: int)
    requires n >= 1
    ensures Ceil(n, n) == 1
  {
  }

  function Workers(j: Job): nat
    requires ValidJob(j)
  {
    var wanted := if j.cfg.batchSize == 0 then 1 else j.cfg.maxConcurrency;
    if wanted > Batches(j) then Batches(j) else wanted
  }

  function Target(j: Job, i: nat): int
    requires ValidJob(j)
  {
    var remaining := j.count - i * Size(j);
    if remaining < Size(j) then remaining else Size(j)
  }

  function SumOfTargets(j: Job, n: nat): int
    requires ValidJob(j)
  {
    if n == 0 then 0 else SumOfTargets(j, n - 1) + Target(j, n - 1)
  }

  lemma {:induction false} FullBatches(j: Job, n: nat)
    requires ValidJob(j) && n * Size(j) <= j.count
    ensures SumOfTargets(j, n) == n * Size(j)
  {
    if n > 0 {
      assert (n - 1) * Size(j) == n * Size(j) - Size(j);
      FullBatches(j, n - 1);
    }
  }

  /** The batches share out exactly the rows asked for, each at least one. */
  lemma TargetsSumToCount(j: Job)
    requires ValidJob(j)
    ensures SumOfTargets(j, Batches(j)) == j.count
    ensures forall i :: 0 <= i < Batches(j) ==> 1 <= Target(j, i) <= Size(j)
  {
    var s, b := Size(j), Batches(j);
    BatchesInRange(j);
    CeilBounds(j.count, s);
    FullBatches(j, b - 1);
    forall i | 0 <= i < b ensures 1 <= Target(j, i) <= s {
      Multiply(i, b - 1, s);
    }
  }

  /** All batches but the last are full ones; there are no more workers than
      allowed, or than batches. */
  lemma BatchesAreFull(j: Job)
    requires ValidJob(j)
    ensures j.cfg.batchSize == 0 ==> Batches(j) == 1 && Target(j, 0) == j.count
    ensures j.cfg.batchSize > 0 ==> forall i :: 0 <= i < Batches(j) - 1 ==> Target(j, i) == j.cfg.batchSize
    ensures 1 <= Workers(j) <= Batches(j) && (j.cfg.batchSize > 0 ==> Workers(j) <= j.cfg.maxConcurrency)
  {
    var s, b := Size(j), Batches(j);
    BatchesInRange(j);
    CeilBounds(j.count, s);
    if j.cfg.batchSize == 0 {
      CeilOfSelf(j.count);
    } else {
      forall i | 0 <= i < b - 1 ensures Target(j, i) == s {
        RoomForOneMore(j.count, s, b, i);
      }
    }
  }

  lemma RoomForOneMore(count: int, s: int, b: int, i: int)
    requires s > 0 && 0 <= i < b - 1 && (b - 1) * s < count
    ensures count - i * s >= s
  {
    Multiply(i + 1, b - 1, s);
    assert (i + 1) * s == i * s + s;
  }

  lemma CeilBounds(n: int, d: int)
    requires n > 0 && d > 0
    ensures (Ceil(n, d) - 1) * d < n <= Ceil(n, d) * d == (Ceil(n, d) - 1) * d + d
  {
    var q := (n + d - 1) / d;
    assert q * d + (n + d - 1) % d == n + d - 1;
  }

  function PartitionOf(j: Job, i: nat): string
    requires ValidJob(j) && i < Batches(j)
  {
    BatchesInRange(j);
    if j.cfg.batchValues != [] && !j.repair then j.cfg.batchValues[i] else ""
  }

  /** What a sequential loop would make of the i-th batch. */
  function BatchResult(j: Job, i: nat): Option<seq<Row>>
    requires ValidJob(j) && i < Batches(j)
  {
    TargetsSumToCount(j);
    match j.reply(i)
    case Parsed(rows) => BatchRows(j.cfg, PartitionOf(j, i), P.Take(rows, Target(j, i)))
    case _ => None
  }

  /** A batch fails exactly when its call does, its answer is no answer, or one of
      the rows that count is malformed. It contributes, of those, the good ones; in
      a first pass over partitions only those of its own. */
  lemma BatchResultIsExact(j: Job, i: nat)
    requires ValidJob(j) && i < Batches(j)
    ensures 1 <= Target(j, i) && (j.cfg.batchValues != [] && !j.repair ==> i < |j.cfg.batchValues|)
    ensures var r := BatchResult(j, i);
      var rows := if j.reply(i).Parsed? then P.Take(j.reply(i).value, Target(j, i)) else [];
      && (r.Some? <==> j.reply(i).Parsed? && forall k :: 0 <= k < |rows| ==> WellFormed(j.cfg, rows[k]))
      && (r.Some? ==> forall row :: row in r.value <==>
            row in rows && Good(j.cfg, row)
            && (j.cfg.batchValues != [] && !j.repair ==> row[j.cfg.batchColumn] == j.cfg.batchValues[i]))
  {
    TargetsSumToCount(j);
    BatchesInRange(j);
    if j.reply(i).Parsed? {
      var rows := P.Take(j.reply(i).value, Target(j, i));
      RejectedForAMalformedRow(j.cfg, PartitionOf(j, i), rows);
      if BatchResult(j, i).Some? { BatchRowsSound(j.cfg, PartitionOf(j, i), rows); }
      NoEmptyPartition(j.cfg);
    }
  }

  lemma NoEmptyPartition(cfg: IndexedTable)
    requires Valid(cfg, 3)
    ensures forall i :: 0 <= i < |cfg.batchValues| ==> cfg.batchValues[i] != ""
  {
  }

  function TaskOf(j: Job): W.Task<Row>
    requires ValidJob(j)
  {
    W.Task(Batches(j), Workers(j), (i: nat) => !j.reply(i).CallFailed?,
           (i: nat) => if i < Batches(j) then BatchResult(j, i) else None, j.answers, j.ends)
  }

  /** The rows a sequential loop over the batches would return. */
  function SequentialRows(j: Job): Option<seq<Row>>
    requires ValidJob(j)
  {
    W.Sequential(TaskOf(j), Batches(j))
  }

  method ExpandIndexedBatches(j: Job) returns (r: Option<seq<Row>>, interrupted: bool, calls: seq<nat>)
    requires ValidJob(j)
    ensures r.Some? ==> r == SequentialRows(j)
    ensures !interrupted ==> r == SequentialRows(j)
    ensures !j.ends && (forall i :: 0 <= i < Batches(j) ==> j.answers(i)) ==> !interrupted
    ensures |calls| <= Batches(j) <= 100
    ensures W.NoneTwice(calls) && forall i :: i in calls ==> i < Batches(j)
    ensures r.Some? ==> forall i :: 0 <= i < Batches(j) ==> i in calls
  {
    BatchesInRange(j);
    r, interrupted, calls := W.RunPool(TaskOf(j));
  }

  /** What is true of every row an expansion returns: it is verbatim one of the
      first rows some batch received, good, and of that batch's partition. */
  predicate FromBatch(j: Job, i: nat, row: Row)
    requires ValidJob(j) && i < Batches(j)
  {
    && j.reply(i).Parsed? && row in j.reply(i).value && Good(j.cfg, row)
    && (PartitionOf(j, i) == "" || row[j.cfg.batchColumn] == PartitionOf(j, i))
  }

  lemma {:induction false} SequentialRowsSound(j: Job, n: nat, row: Row)
    requires ValidJob(j) && n <= Batches(j)
    requires W.Sequential(TaskOf(j), n).Some? && row in W.Sequential(TaskOf(j), n).value
    ensures exists i :: 0 <= i < n && FromBatch(j, i, row)
  {
    var t := TaskOf(j);
    var before := W.Sequential(t, n - 1).value;
    if row in before {
      SequentialRowsSound(j, n - 1, row);
    } else {
      var rows := j.reply(n - 1).value;
      TargetsSumToCount(j);
      BatchRowsSound(j.cfg, PartitionOf(j, n - 1), P.Take(rows, Target(j, n - 1)));
      assert FromBatch(j, n - 1, row);
    }
  }
}
