/** pkg/kernel/indexed_table.go: the bounded worker pool behind batch expansion. A
    dispatcher, the workers and the environment that may cancel the context take
    turns in any order; each actor's next step is determined by the state. */
module WorkerPool {
  import opened Options

  /** The work of one pool: for each index, whether the call succeeds, what the
      checked answer contributes (nothing when it is rejected), and whether the
      provider answers without being cancelled; and whether the context may end. */
  datatype Task<T> = Task(
    batches: nat, workers: nat, callOk: nat -> bool, result: nat -> Option<seq<T>>, answers: nat -> bool, ends: bool)

  /** Nothing interrupts the pool: the context lasts, and every call returns. */
  predicate Calm<T>(j: Task<T>) {
    !j.ends && forall i :: 0 <= i < j.batches ==> j.answers(i)
  }

  ghost predicate ValidTask<T>(j: Task<T>) {
    1 <= j.workers && forall i :: !j.callOk(i) ==> j.result(i) == None
  }

  /** The sequential loop: batch after batch, giving up at the first failure. */
  function Sequential<T>(j: Task<T>, n: nat): Option<seq<T>> {
    if n == 0 then Some([])
    else
      match Sequential(j, n - 1)
      case None => None
      case Some(rows) =>
        match j.result(n - 1)
        case None => None
        case Some(batch) => Some(rows + batch)
  }

  lemma {:induction false} SequentialFails<T>(j: Task<T>, i: nat, n: nat)
    requires i < n && j.result(i) == None
    ensures Sequential(j, n) == None
    decreases n
  {
    if i < n - 1 { SequentialFails(j, i, n - 1); }
  }

  /** How many rows the batches before the i-th contribute, rejected ones none. */
  function Offset<T>(j: Task<T>, i: nat): nat {
    if i == 0 then 0 else Offset(j, i - 1) + if j.result(i - 1).Some? then |j.result(i - 1).value| else 0
  }

  lemma {:induction false} OffsetsGrow<T>(j: Task<T>, i: nat, n: nat)
    requires i < n
    ensures Offset(j, i) + (if j.result(i).Some? then |j.result(i).value| else 0) <= Offset(j, n)
    decreases n
  {
    if i < n - 1 { OffsetsGrow(j, i, n - 1); }
  }

  /** The loop succeeds exactly when every batch does, and then the rows of each
      batch stand together, whole and in order, after those of the batches before. */
  lemma {:induction false} SequentialIsInOrder<T>(j: Task<T>, n: nat)
    ensures Sequential(j, n).Some? <==> forall i :: 0 <= i < n ==> j.result(i).Some?
    ensures Sequential(j, n).Some? ==> var rows := Sequential(j, n).value;
      && |rows| == Offset(j, n)
      && forall i :: 0 <= i < n ==> InPlace(j, rows, i)
  {
    if n > 0 {
      SequentialIsInOrder(j, n - 1);
      if Sequential(j, n).Some? {
        var before, rows := Sequential(j, n - 1).value, Sequential(j, n).value;
        forall i | 0 <= i < n ensures InPlace(j, rows, i) {
          if i < n - 1 {
            OffsetsGrow(j, i, n - 1);
            assert InPlace(j, before, i);
            assert rows[..|before|] == before;
          }
        }
      }
    }
  }

  predicate InPlace<T(==)>(j: Task<T>, rows: seq<T>, i: nat) {
    && j.result(i).Some? && Offset(j, i) + |j.result(i).value| <= |rows|
    && rows[Offset(j, i)..Offset(j, i) + |j.result(i).value|] == j.result(i).value
  }

  // ------------------------------------------------------------- the machine

  datatype Worker = Idle | Holding(index: nat) | Calling(index: nat) | Checking(index: nat) | Exited

  /** `calls` lists the batches for which the provider was called, in order. */
  datatype Pool<T> = Pool(
    workers: seq<Worker>, next: nat, closed: bool, cancelled: bool, parentDone: bool,
    firstErr: Option<nat>, results: seq<Option<seq<T>>>, calls: seq<nat>)

  function Start<T>(j: Task<T>): Pool<T>
    requires ValidTask(j)
  {
    Pool(seq(j.workers, _ => Idle), 0, false, false, false, None, seq(j.batches, _ => None), [])
  }

  /** `fail`: only the first failure is kept, and it cancels the others. */
  function Fail<T>(p: Pool<T>, w: nat, i: nat): Pool<T>
    requires w < |p.workers|
  {
    p.(workers := p.workers[w := Exited], cancelled := true,
       firstErr := if p.firstErr.None? then Some(i) else p.firstErr)
  }

  predicate WorkerEnabled<T>(j: Task<T>, p: Pool<T>, w: nat)
    requires w < |p.workers|
  {
    match p.workers[w]
    case Idle => p.closed || p.next < |p.results|
    case Holding(_) => true
    case Calling(i) => p.cancelled || j.answers(i)
    case Checking(_) => true
    case Exited => false
  }

  function WorkerStep<T>(j: Task<T>, p: Pool<T>, w: nat): Pool<T>
    requires ValidTask(j) && w < |p.workers| && |p.results| == j.batches
    requires WorkerEnabled(j, p, w)
    requires forall i :: Busy(p.workers[w]) == Some(i) ==> i < |p.results|
  {
    match p.workers[w]
    case Idle =>
      if p.closed then p.(workers := p.workers[w := Exited])
      else p.(workers := p.workers[w := Holding(p.next)], next := p.next + 1)
    case Holding(i) =>
      if p.cancelled then p.(workers := p.workers[w := Exited])
      else p.(workers := p.workers[w := Calling(i)], calls := p.calls + [i])
    case Calling(i) =>
      if p.cancelled || !j.callOk(i) then Fail(p, w, i)
      else p.(workers := p.workers[w := Checking(i)])
    case Checking(i) =>
      (match j.result(i)
       case None => Fail(p, w, i)
       case Some(rows) => p.(workers := p.workers[w := Idle], results := p.results[i := Some(rows)]))
    case Exited => p
  }

  /** Actors 0..n-1 are the workers, n the dispatcher, n+1 the environment. */
  predicate Enabled<T>(j: Task<T>, p: Pool<T>, k: nat) {
    if k < |p.workers| then WorkerEnabled(j, p, k)
    else if k == |p.workers| then !p.closed && (p.next == |p.results| || p.cancelled)
    else k == |p.workers| + 1 && !p.cancelled
  }

  function Step<T>(j: Task<T>, p: Pool<T>, k: nat): Pool<T>
    requires Inv(j, p) && Enabled(j, p, k)
  {
    if k < |p.workers| then WorkerStep(j, p, k)
    else if k == |p.workers| then p.(closed := true)
    else p.(cancelled := true, parentDone := true)
  }

  predicate Final<T>(p: Pool<T>) {
    p.closed && forall w :: 0 <= w < |p.workers| ==> p.workers[w] == Exited
  }

  // -------------------------------------------------------------- its invariant

  function Busy(w: Worker): Option<nat> {
    if w.Idle? || w.Exited? then None else Some(w.index)
  }

  predicate Held(ws: seq<Worker>, i: nat) {
    exists w :: 0 <= w < |ws| && Busy(ws[w]) == Some(i)
  }

  predicate WorkersSound<T>(p: Pool<T>)
    requires p.next <= |p.results|
  {
    && (forall w :: 0 <= w < |p.workers| && Busy(p.workers[w]).Some? ==>
          Busy(p.workers[w]).value < p.next && p.results[Busy(p.workers[w]).value].None?)
    && (forall v, w :: 0 <= v < w < |p.workers| && Busy(p.workers[v]).Some? ==>
         Busy(p.workers[v]) != Busy(p.workers[w]))
    && (forall w :: 0 <= w < |p.workers| && p.workers[w].Holding? ==> p.workers[w].index !in p.calls)
    && (forall w :: 0 <= w < |p.workers| && p.workers[w].Exited? && !p.cancelled ==> p.closed)
  }

  ghost predicate ResultsSound<T>(j: Task<T>, p: Pool<T>)
    requires ValidTask(j) && p.next <= |p.results| == j.batches
  {
    && (forall i :: 0 <= i < |p.results| && p.results[i].Some? ==> i < p.next && p.results[i] == j.result(i))
    && (!p.cancelled ==> forall i :: 0 <= i < p.next && p.results[i].None? ==> Held(p.workers, i))
  }

  ghost predicate FailuresSound<T>(j: Task<T>, p: Pool<T>)
    requires ValidTask(j)
  {
    && (p.firstErr.Some? ==> p.cancelled)
    && (p.cancelled && !p.parentDone ==>
          p.firstErr.Some? && p.firstErr.value < j.batches && j.result(p.firstErr.value) == None)
    && (p.closed && !p.cancelled ==> p.next == |p.results|)
  }

  predicate NoneTwice(calls: seq<nat>) {
    forall m, n :: 0 <= m < n < |calls| ==> calls[m] != calls[n]
  }

  /** Each batch is called at most once, when it is handed out, and before its slot
      is filled. */
  predicate CallsSound<T>(p: Pool<T>) {
    && NoneTwice(p.calls) && (forall i :: i in p.calls ==> i < p.next)
    && (forall w :: 0 <= w < |p.workers| && (p.workers[w].Calling? || p.workers[w].Checking?) ==>
          p.workers[w].index in p.calls)
    && (forall i :: 0 <= i < |p.results| && p.results[i].Some? ==> i in p.calls)
  }

  ghost predicate Inv<T>(j: Task<T>, p: Pool<T>) {
    && ValidTask(j) && |p.workers| == j.workers && |p.results| == j.batches && p.next <= |p.results|
    && CallsSound(p) && WorkersSound(p) && ResultsSound(j, p) && FailuresSound(j, p)
  }

  /** What a step may do to the calls: nothing, or call the batch a worker holds. */
  lemma CallsStaySound<T>(p: Pool<T>, q: Pool<T>, w: nat)
    requires CallsSound(p) && w < |p.workers| == |q.workers| && q.next >= p.next
    requires q.workers == p.workers[w := q.workers[w]]
    requires |q.results| == |p.results|
    requires forall i :: 0 <= i < |q.results| && q.results[i] != p.results[i] ==> i in p.calls
    requires q.calls == p.calls && ((q.workers[w].Calling? || q.workers[w].Checking?) ==> q.workers[w].index in p.calls)
    ensures CallsSound(q)
  {
  }

  lemma StartInv<T>(j: Task<T>)
    requires ValidTask(j)
    ensures Inv(j, Start(j))
  {
  }

  lemma HeldByOthers(ws: seq<Worker>, w: nat, x: Worker, i: nat)
    requires w < |ws| && Held(ws, i) && (Busy(ws[w]) != Some(i) || Busy(x) == Some(i))
    ensures Held(ws[w := x], i)
  {
    var v :| 0 <= v < |ws| && Busy(ws[v]) == Some(i);
    assert Busy(ws[w := x][if v == w then w else v]) == Some(i);
  }

  /** A worker that changes state without letting go of another's batch. */
  lemma OthersStillHeld<T>(p: Pool<T>, w: nat, x: Worker)
    requires w < |p.workers| && (Busy(p.workers[w]).None? || Busy(x) == Busy(p.workers[w]))
    requires p.next <= |p.results|
    requires forall i :: 0 <= i < p.next && p.results[i].None? ==> Held(p.workers, i)
    ensures forall i :: 0 <= i < p.next && p.results[i].None? ==> Held(p.workers[w := x], i)
  {
    forall i | 0 <= i < p.next && p.results[i].None? ensures Held(p.workers[w := x], i) {
      HeldByOthers(p.workers, w, x, i);
    }
  }

  lemma TakeKeepsInv<T>(j: Task<T>, p: Pool<T>, w: nat)
    requires Inv(j, p) && w < |p.workers| && p.workers[w].Idle? && WorkerEnabled(j, p, w)
    ensures Inv(j, WorkerStep(j, p, w))
  {
    var q := WorkerStep(j, p, w);
    CallsStaySound(p, q, w);
    if !p.cancelled {
      OthersStillHeld(p, w, q.workers[w]);
      if !p.closed {
        assert Busy(q.workers[w]) == Some(p.next);
      }
    }
  }

  lemma CallAdded<T>(p: Pool<T>, q: Pool<T>, w: nat)
    requires CallsSound(p) && w < |p.workers| && p.workers[w].Holding?
    requires p.workers[w].index !in p.calls && p.workers[w].index < p.next
    requires q == p.(workers := p.workers[w := Calling(p.workers[w].index)], calls := p.calls + [p.workers[w].index])
    ensures CallsSound(q)
  {
    forall m, n | 0 <= m < n < |q.calls| ensures q.calls[m] != q.calls[n] {
      assert q.calls[m] in p.calls;
    }
  }

  /** A worker that goes on with its batch, or gives up. */
  lemma WorkersStaySound<T>(p: Pool<T>, q: Pool<T>, w: nat)
    requires p.next <= |p.results| && WorkersSound(p) && w < |p.workers| == |q.workers|
    requires q.workers == p.workers[w := q.workers[w]] && q.next == p.next && q.results == p.results
    requires !q.workers[w].Holding? && (Busy(q.workers[w]) == Busy(p.workers[w]) || q.workers[w].Exited?)
    requires (q.workers[w].Exited? ==> q.cancelled) && q.closed == p.closed && (p.cancelled ==> q.cancelled)
    requires forall i :: i in q.calls && i !in p.calls ==> Busy(p.workers[w]) == Some(i)
    ensures WorkersSound(q)
  {
  }

  lemma HoldingKeepsInv<T>(j: Task<T>, p: Pool<T>, w: nat)
    requires Inv(j, p) && w < |p.workers| && p.workers[w].Holding?
    ensures Inv(j, WorkerStep(j, p, w))
  {
    var q := WorkerStep(j, p, w);
    if q.cancelled { CallsStaySound(p, q, w); } else { CallAdded(p, q, w); }
    WorkersStaySound(p, q, w);
    if !q.cancelled {
      OthersStillHeld(p, w, q.workers[w]);
    }
  }

  lemma CallingKeepsInv<T>(j: Task<T>, p: Pool<T>, w: nat)
    requires Inv(j, p) && w < |p.workers| && p.workers[w].Calling? && WorkerEnabled(j, p, w)
    ensures Inv(j, WorkerStep(j, p, w))
  {
    var q := WorkerStep(j, p, w);
    CallsStaySound(p, q, w);
    WorkersStaySound(p, q, w);
    if !q.cancelled {
      OthersStillHeld(p, w, q.workers[w]);
    }
  }

  lemma AcceptKeepsInv<T>(j: Task<T>, p: Pool<T>, w: nat)
    requires Inv(j, p) && w < |p.workers| && p.workers[w].Checking? && j.result(p.workers[w].index).Some?
    ensures Inv(j, WorkerStep(j, p, w))
  {
    var q := WorkerStep(j, p, w);
    var done := p.workers[w].index;
    assert q.results == p.results[done := j.result(done)];
    CallsStaySound(p, q, w);
    assert WorkersSound(q);
    if !q.cancelled {
      forall i | 0 <= i < q.next && q.results[i].None? ensures Held(q.workers, i) {
        assert i != done && p.results[i].None?;
        HeldByOthers(p.workers, w, Idle, i);
      }
    }
  }

  lemma RejectKeepsInv<T>(j: Task<T>, p: Pool<T>, w: nat)
    requires Inv(j, p) && w < |p.workers| && p.workers[w].Checking? && j.result(p.workers[w].index).None?
    ensures Inv(j, WorkerStep(j, p, w))
  {
    CallsStaySound(p, WorkerStep(j, p, w), w);
  }

  /** Every step of every actor keeps the invariant. */
  lemma StepKeepsInv<T>(j: Task<T>, p: Pool<T>, k: nat)
    requires Inv(j, p) && Enabled(j, p, k)
    ensures Inv(j, Step(j, p, k))
  {
    if k < |p.workers| {
      match p.workers[k] {
        case Idle => TakeKeepsInv(j, p, k);
        case Holding(_) => HoldingKeepsInv(j, p, k);
        case Calling(_) => CallingKeepsInv(j, p, k);
        case Checking(i) =>
          if j.result(i).Some? { AcceptKeepsInv(j, p, k); } else { RejectKeepsInv(j, p, k); }
      }
    }
  }

  // ------------------------------------------------ progress and termination

  /** No deadlock: until everything has returned, the dispatcher or a worker can
      move, or a worker waits for a provider that only cancellation will wake. */
  lemma NoDeadlock<T>(j: Task<T>, p: Pool<T>)
    requires Inv(j, p) && !Final(p)
    ensures (exists k: nat :: k <= |p.workers| && Enabled(j, p, k))
            || (!p.cancelled && exists w: nat ::
                 w < |p.workers| && p.workers[w].Calling? && !j.answers(p.workers[w].index))
  {
    if !p.closed && (p.next == |p.results| || p.cancelled) {
      assert Enabled(j, p, |p.workers|);
    } else {
      var w: nat := 0;
      if p.closed {
        w :| 0 <= w < |p.workers| && p.workers[w] != Exited;
      }
      assert p.workers[w] != Exited;
      assert Enabled(j, p, w) || (p.workers[w].Calling? && !p.cancelled && !j.answers(p.workers[w].index));
    }
  }

  function Weight(w: Worker): nat {
    match w
    case Idle => 1
    case Holding(_) => 5
    case Calling(_) => 4
    case Checking(_) => 3
    case Exited => 0
  }

  function TotalWeight(ws: seq<Worker>): nat {
    if ws == [] then 0 else Weight(ws[0]) + TotalWeight(ws[1..])
  }

  lemma {:induction false} WeightUpdate(ws: seq<Worker>, w: nat, x: Worker)
    requires w < |ws|
    ensures TotalWeight(ws[w := x]) == TotalWeight(ws) - Weight(ws[w]) + Weight(x)
  {
    if w == 0 {
      assert ws[0 := x][1..] == ws[1..];
    } else {
      assert ws[w := x][1..] == ws[1..][w - 1 := x];
      WeightUpdate(ws[1..], w - 1, x);
    }
  }

  function Measure<T>(p: Pool<T>): nat
    requires p.next <= |p.results|
  {
    6 * (|p.results| - p.next) + TotalWeight(p.workers) + (if p.closed then 0 else 1) + (if p.cancelled then 0 else 1)
  }

  /** One worker's change of state, and perhaps one more batch handed out. */
  lemma MeasureFalls<T>(p: Pool<T>, q: Pool<T>, w: nat, x: Worker)
    requires w < |p.workers| && q.workers == p.workers[w := x] && |q.results| == |p.results|
    requires p.next <= q.next <= |q.results| && q.closed == p.closed && (p.cancelled ==> q.cancelled)
    requires Weight(x) < Weight(p.workers[w]) + 6 * (q.next - p.next)
    ensures Measure(q) < Measure(p)
  {
    WeightUpdate(p.workers, w, x);
  }

  lemma WorkerStepsDecrease<T>(j: Task<T>, p: Pool<T>, w: nat)
    requires Inv(j, p) && w < |p.workers| && WorkerEnabled(j, p, w)
    requires WorkerStep(j, p, w).next <= |WorkerStep(j, p, w).results|
    ensures Measure(WorkerStep(j, p, w)) < Measure(p)
  {
    var q := WorkerStep(j, p, w);
    var x := q.workers[w];
    assert q.workers == p.workers[w := x] && |q.results| == |p.results|;
    assert q.closed == p.closed && (p.cancelled ==> q.cancelled);
    MeasureFalls(p, q, w, x);
  }

  /** Every run is finite, whatever the schedule. */
  lemma StepsDecrease<T>(j: Task<T>, p: Pool<T>, k: nat)
    requires Inv(j, p) && Enabled(j, p, k)
    ensures Inv(j, Step(j, p, k)) && Measure(Step(j, p, k)) < Measure(p)
  {
    StepKeepsInv(j, p, k);
    if k < |p.workers| {
      WorkerStepsDecrease(j, p, k);
    }
  }

  // ---------------------------------------------------------------- the result

  function Flatten<T>(results: seq<Option<seq<T>>>): seq<T> {
    if results == [] then []
    else
      var last := results[|results| - 1];
      Flatten(results[..|results| - 1]) + if last.Some? then last.value else []
  }

  lemma {:induction false} FlattenIsSequential<T>(j: Task<T>, results: seq<Option<seq<T>>>, n: nat)
    requires ValidTask(j) && |results| == j.batches && n <= |results|
    requires forall i :: 0 <= i < |results| ==> results[i].Some? && results[i] == j.result(i)
    ensures Sequential(j, n) == Some(Flatten(results[..n]))
    decreases n
  {
    if n > 0 {
      FlattenIsSequential(j, results, n - 1);
      assert results[..n][..n - 1] == results[..n - 1];
    }
  }

  /** A pool that has finished uncancelled has filled every slot, and its slots in
      order are the rows of the sequential loop. */
  lemma FinishedIsSequential<T>(j: Task<T>, p: Pool<T>)
    requires Inv(j, p) && Final(p)
    ensures !p.cancelled ==> Sequential(j, j.batches) == Some(Flatten(p.results))
                             && forall i :: 0 <= i < |p.results| ==> p.results[i].Some? && i in p.calls
    ensures p.cancelled && !p.parentDone ==> Sequential(j, j.batches) == None
  {
    if !p.cancelled {
      forall i | 0 <= i < |p.results| ensures p.results[i].Some? {
        assert !Held(p.workers, i);
      }
      FlattenIsSequential(j, p.results, |p.results|);
      assert p.results[..|p.results|] == p.results;
    } else if !p.parentDone {
      SequentialFails(j, p.firstErr.value, j.batches);
    }
  }

  lemma {:induction false} CallsBelow(calls: seq<nat>, n: nat)
    requires NoneTwice(calls) && forall i :: i in calls ==> i < n
    ensures |calls| <= n
    decreases n
  {
    if calls != [] {
      assert calls[0] in calls;
      if n - 1 in calls {
        var k :| 0 <= k < |calls| && calls[k] == n - 1;
        var rest := calls[..k] + calls[k + 1..];
        forall i | i in rest ensures i < n - 1 {
          var m :| 0 <= m < |rest| && rest[m] == i;
          assert calls[if m < k then m else m + 1] == i && i in calls;
        }
        CallsBelow(rest, n - 1);
      } else {
        CallsBelow(calls, n - 1);
      }
    }
  }

  /** A whole schedule, any list of actors; turns of actors that cannot move are
      skipped. */
  ghost function Exec<T>(j: Task<T>, p: Pool<T>, schedule: seq<nat>): (q: Pool<T>)
    requires Inv(j, p)
    ensures Inv(j, q)
    decreases |schedule|
  {
    if schedule == [] then p
    else if Enabled(j, p, schedule[0]) then
      StepKeepsInv(j, p, schedule[0]);
      Exec(j, Step(j, p, schedule[0]), schedule[1..])
    else Exec(j, p, schedule[1..])
  }

  /** For every interleaving: no call is made twice, nothing deadlocks, and a pool
      that has finished without interruption from outside holds the sequential
      result, an error exactly when the loop fails. */
  lemma EveryInterleaving<T>(j: Task<T>, schedule: seq<nat>)
    requires ValidTask(j)
    ensures var p := (StartInv(j); Exec(j, Start(j), schedule));
      && NoneTwice(p.calls) && |p.calls| <= j.batches && (forall i :: i in p.calls ==> i < j.batches)
      && (Final(p) && !p.cancelled ==>
            Sequential(j, j.batches) == Some(Flatten(p.results)) && forall i :: 0 <= i < j.batches ==> i in p.calls)
      && (Final(p) && p.cancelled && !p.parentDone ==> p.firstErr.Some? && Sequential(j, j.batches) == None)
      && (!Final(p) ==>
            (exists k: nat :: k <= |p.workers| && Enabled(j, p, k))
            || (!p.cancelled && exists w: nat ::
                 w < |p.workers| && p.workers[w].Calling? && !j.answers(p.workers[w].index)))
  {
    StartInv(j);
    var p := Exec(j, Start(j), schedule);
    CallsBelow(p.calls, p.next);
    if Final(p) { FinishedIsSequential(j, p); } else { NoDeadlock(j, p); }
  }

  /** The pool under any scheduler. It returns rows only when they are exactly the
      sequential loop's, and with no interruption from outside it returns what the
      loop returns; it makes at most one call for each batch, and exactly one when
      it returns rows. */
  method RunPool<T>(j: Task<T>) returns (r: Option<seq<T>>, interrupted: bool, calls: seq<nat>)
    requires ValidTask(j)
    ensures r.Some? ==> r == Sequential(j, j.batches)
    ensures !interrupted ==> r == Sequential(j, j.batches)
    ensures Calm(j) ==> !interrupted
    ensures NoneTwice(calls) && |calls| <= j.batches && forall i :: i in calls ==> i < j.batches
    ensures r.Some? ==> forall i :: 0 <= i < j.batches ==> i in calls
  {
    var p := Start(j);
    StartInv(j);
    while !Final(p)
      invariant Inv(j, p) && (Calm(j) ==> !p.parentDone)
      decreases Measure(p)
    {
      SomeoneMoves(j, p);
      var k :| 0 <= k <= |p.workers| + 1 && Enabled(j, p, k) && (Calm(j) ==> k <= |p.workers|);
      StepsDecrease(j, p, k);
      p := Step(j, p, k);
    }
    FinishedIsSequential(j, p);
    CallsBelow(p.calls, |p.results|);
    r := if p.firstErr.Some? || p.cancelled then None else Some(Flatten(p.results));
    interrupted, calls := p.parentDone, p.calls;
  }

  lemma SomeoneMoves<T>(j: Task<T>, p: Pool<T>)
    requires Inv(j, p) && !Final(p)
    ensures exists k :: 0 <= k <= |p.workers| + 1 && Enabled(j, p, k) && (Calm(j) ==> k <= |p.workers|)
  {
    NoDeadlock(j, p);
    if !Calm(j) {
      assert p.cancelled || Enabled(j, p, |p.workers| + 1);
    }
  }
}
