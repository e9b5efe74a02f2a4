/** scripts/module_release.py: the dependency order of a set of modules, and the
    closure of a set under its dependents. A graph maps each module's directory to
    the directories it depends on. */
module ReleaseGraph {
  import opened Options
  import Lex

  type Graph = map<string, set<string>>

  // -------------------------------------------------------- topological order

  /** The dependencies of each selected module among the selected. */
  function Pending(g: Graph, selected: set<string>): Graph
    requires selected <= g.Keys
  {
    map d | d in selected :: g[d] * selected
  }

  function Ready(p: Graph): set<string> {
    set d | d in p && p[d] == {}
  }

  function Without(p: Graph, done: set<string>): Graph {
    map d | d in p && d !in done :: p[d] - done
  }

  /** Layer by layer: whatever waits for nothing, in sorted order; None when
      something is left and all of it waits. */
  function Layers(p: Graph): Option<seq<string>>
    decreases |p.Keys|
  {
    var ready := Ready(p);
    if p == map[] then Some([])
    else if ready == {} then None
    else
      var d :| d in ready;
      Shrinks(p, ready);
      match Layers(Without(p, ready))
      case None => None
      case Some(rest) => Some(Lex.Sorted(ready) + rest)
  }

  lemma Shrinks(p: Graph, done: set<string>)
    requires exists d :: d in done && d in p
    ensures |Without(p, done).Keys| < |p.Keys|
  {
    var d :| d in done && d in p;
    assert Without(p, done).Keys <= p.Keys - {d};
    Subset(Without(p, done).Keys, p.Keys - {d});
  }

  lemma {:induction false} Subset(a: set<string>, b: set<string>)
    requires a <= b
    ensures |a| <= |b|
  {
    assert b == a + (b - a);
  }

  function Behind(done: seq<string>, rest: Option<seq<string>>): Option<seq<string>> {
    match rest
    case None => None
    case Some(r) => Some(done + r)
  }

  lemma BehindBehind(a: seq<string>, b: seq<string>, rest: Option<seq<string>>)
    ensures Behind(a, Behind(b, rest)) == Behind(a + b, rest)
    ensures Behind([], rest) == rest
  {
    if rest.Some? {
      assert a + (b + rest.value) == (a + b) + rest.value;
      assert [] + rest.value == rest.value;
    }
  }

  /** `topological_order`; None is its ReleaseError about a cycle. */
  method TopologicalOrder(g: Graph, selected: set<string>) returns (r: Option<seq<string>>)
    requires selected <= g.Keys
    ensures r == Layers(Pending(g, selected))
  {
    var pending := Pending(g, selected);
    var result: seq<string> := [];
    BehindBehind([], [], Layers(pending));
    while pending != map[]
      invariant Layers(Pending(g, selected)) == Behind(result, Layers(pending))
      decreases |pending.Keys|
    {
      var ready := Ready(pending);
      if ready == {} {
        return None;
      }
      Shrinks(pending, ready);
      BehindBehind(result, Lex.Sorted(ready), Layers(Without(pending, ready)));
      result := result + Lex.Sorted(ready);
      pending := Without(pending, ready);
    }
    assert result + [] == result;
    return Some(result);
  }

  ghost predicate Closed(p: Graph) {
    forall d :: d in p ==> p[d] <= p.Keys
  }

  ghost predicate Before(order: seq<string>, i: nat, d: string) {
    exists j :: 0 <= j < i && j < |order| && order[j] == d
  }

  /** Each module once, behind everything it waits for. */
  ghost predicate IsOrder(p: Graph, order: seq<string>) {
    && Lists(order, p.Keys)
    && (forall i, d :: 0 <= i < |order| && d in p[order[i]] ==> Before(order, i, d))
  }

  /** `s` lists the set, no element twice. */
  ghost predicate Lists(s: seq<string>, all: set<string>) {
    && (forall d :: d in s <==> d in all)
    && (forall i, j :: 0 <= i < j < |s| ==> s[i] != s[j])
  }

  lemma SortedLists(all: set<string>)
    ensures Lists(Lex.Sorted(all), all)
  {
    var s := Lex.Sorted(all);
    forall i, j | 0 <= i < j < |s| ensures s[i] != s[j] { Lex.Asymmetric(s[i], s[j]); }
  }

  lemma ListsConcat(s: seq<string>, a: set<string>, t: seq<string>, b: set<string>)
    requires Lists(s, a) && Lists(t, b) && a !! b
    ensures Lists(s + t, a + b)
  {
    var r := s + t;
    forall i, j | 0 <= i < j < |r| ensures r[i] != r[j] {
      if i < |s| <= j {
        assert s[i] in s && t[j - |s|] in t;
      }
    }
  }

  lemma BeforeExtends(s: seq<string>, t: seq<string>, i: nat, d: string)
    requires i <= |t| && (d in s || Before(t, i, d))
    ensures Before(s + t, |s| + i, d)
  {
    if d in s {
      var j :| 0 <= j < |s| && s[j] == d;
      assert (s + t)[j] == d;
    } else {
      var j :| 0 <= j < i && j < |t| && t[j] == d;
      assert (s + t)[|s| + j] == d;
    }
  }

  lemma LayerBefore(p: Graph, ready: set<string>, rest: seq<string>, i: nat, d: string)
    requires Closed(p) && ready == Ready(p) && IsOrder(Without(p, ready), rest)
    requires i < |Lex.Sorted(ready) + rest| && (Lex.Sorted(ready) + rest)[i] in p
    requires d in p[(Lex.Sorted(ready) + rest)[i]]
    ensures Before(Lex.Sorted(ready) + rest, i, d)
  {
    var layer := Lex.Sorted(ready);
    assert forall k :: 0 <= k < |layer| ==> layer[k] in layer;
    if i >= |layer| {
      var x := rest[i - |layer|];
      if d !in ready { assert d in Without(p, ready)[x]; }
      BeforeExtends(layer, rest, i - |layer|, d);
    }
  }

  lemma LayerLists(p: Graph, ready: set<string>, rest: seq<string>)
    requires ready == Ready(p) && Lists(rest, Without(p, ready).Keys)
    ensures Lists(Lex.Sorted(ready) + rest, p.Keys)
  {
    SortedLists(ready);
    assert ready + Without(p, ready).Keys == p.Keys;
    ListsConcat(Lex.Sorted(ready), ready, rest, Without(p, ready).Keys);
  }

  lemma LayerOrder(p: Graph, rest: seq<string>)
    requires Closed(p) && IsOrder(Without(p, Ready(p)), rest)
    ensures IsOrder(p, Lex.Sorted(Ready(p)) + rest)
  {
    var ready := Ready(p);
    var order := Lex.Sorted(ready) + rest;
    LayerLists(p, ready, rest);
    forall i, d | 0 <= i < |order| && d in p[order[i]] ensures Before(order, i, d) {
      LayerBefore(p, ready, rest, i, d);
    }
  }

  lemma {:induction false} LayersSound(p: Graph)
    requires Closed(p) && Layers(p).Some?
    ensures IsOrder(p, Layers(p).value)
    decreases |p.Keys|
  {
    if p != map[] {
      var ready := Ready(p);
      var d :| d in ready;
      Shrinks(p, ready);
      LayersSound(Without(p, ready));
      LayerOrder(p, Layers(Without(p, ready)).value);
    }
  }

  ghost predicate WaitsFor(p: Graph, d: string, q: set<string>) {
    exists e :: d in p && e in p[d] && e in q
  }

  /** A set of modules each of which waits for another of them. */
  ghost predicate Stuck(p: Graph, q: set<string>) {
    q != {} && forall d {:trigger WaitsFor(p, d, q)} :: d in q ==> WaitsFor(p, d, q)
  }

  lemma {:induction false} LayersStuck(p: Graph) returns (q: set<string>)
    requires Closed(p) && Layers(p).None?
    ensures Stuck(p, q)
    decreases |p.Keys|
  {
    var ready := Ready(p);
    if ready == {} {
      q := p.Keys;
      forall d | d in q ensures WaitsFor(p, d, q) {
        assert d !in ready;
        var e :| e in p[d];
        assert e in q;
      }
    } else {
      var d :| d in ready;
      Shrinks(p, ready);
      q := LayersStuck(Without(p, ready));
      StuckWithout(p, ready, q);
    }
  }

  lemma StuckWithout(p: Graph, done: set<string>, q: set<string>)
    requires Stuck(Without(p, done), q)
    ensures Stuck(p, q)
  {
    var w := Without(p, done);
    forall d | d in q ensures WaitsFor(p, d, q) {
      assert WaitsFor(w, d, q);
      var e :| d in w && e in w[d] && e in q;
      assert e in p[d];
    }
  }

  /** A cycle: a path along dependencies from a module back to itself. */
  ghost predicate Cycle(p: Graph, c: seq<string>) {
    && |c| >= 2 && c[0] == c[|c| - 1]
    && forall i :: 0 <= i < |c| - 1 ==> c[i] in p && c[i + 1] in p[c[i]]
  }

  /** A walk of any length inside a stuck set. */
  lemma {:induction false} Walk(p: Graph, q: set<string>, n: nat) returns (w: seq<string>)
    requires Stuck(p, q)
    ensures |w| == n + 1 && forall i :: 0 <= i < |w| ==> w[i] in q
    ensures forall i :: 0 <= i < n ==> w[i] in p && w[i + 1] in p[w[i]]
    decreases n
  {
    if n == 0 {
      var d :| d in q;
      w := [d];
    } else {
      var v := Walk(p, q, n - 1);
      assert WaitsFor(p, v[n - 1], q);
      var e :| e in p[v[n - 1]] && e in q;
      w := v + [e];
    }
  }

  lemma {:induction false} Pigeonhole(w: seq<string>, q: set<string>) returns (i: nat, j: nat)
    requires |w| > |q| && forall k :: 0 <= k < |w| ==> w[k] in q
    ensures i < j < |w| && w[i] == w[j]
    decreases |w|
  {
    var last := w[|w| - 1];
    var init := w[..|w| - 1];
    if k :| 0 <= k < |init| && init[k] == last {
      i, j := k, |w| - 1;
    } else {
      i, j := Pigeonhole(init, q - {last});
    }
  }

  lemma StuckHasCycle(p: Graph, q: set<string>)
    requires Stuck(p, q)
    ensures exists c :: Cycle(p, c)
  {
    var w := Walk(p, q, |q|);
    var i, j := Pigeonhole(w, q);
    assert Cycle(p, w[i..j + 1]);
  }

  lemma {:induction false} CycleRunsBack(p: Graph, order: seq<string>, c: seq<string>, k: nat) returns (i: nat, j: nat)
    requires IsOrder(p, order) && Cycle(p, c) && 1 <= k < |c|
    ensures i < j < |order| && order[j] == c[0] && order[i] == c[k]
    decreases k
  {
    var prev: nat;
    if k == 1 {
      assert c[0] in order;
      j :| 0 <= j < |order| && order[j] == c[0];
      prev := j;
    } else {
      prev, j := CycleRunsBack(p, order, c, k - 1);
    }
    assert order[prev] == c[k - 1] && c[k - 1 + 1] in p[c[k - 1]];
    assert Before(order, prev, c[k]);
    i :| 0 <= i < prev && i < |order| && order[i] == c[k];
  }

  /** A graph with an order has no cycle. */
  lemma OrderExcludesCycle(p: Graph, order: seq<string>, c: seq<string>)
    requires IsOrder(p, order)
    ensures !Cycle(p, c)
  {
    if Cycle(p, c) {
      var i, j := CycleRunsBack(p, order, c, |c| - 1);
    }
  }

  /** A path along dependencies from a selected module through others back to it. */
  ghost predicate CycleAmong(g: Graph, selected: set<string>, c: seq<string>) {
    && |c| >= 2 && c[0] == c[|c| - 1] && (forall i :: 0 <= i < |c| ==> c[i] in selected && c[i] in g)
    && forall i :: 0 <= i < |c| - 1 ==> c[i + 1] in g[c[i]]
  }

  /** Each selected module once, behind all of its dependencies that are selected. */
  ghost predicate OrdersSelected(g: Graph, selected: set<string>, order: seq<string>)
    requires selected <= g.Keys
  {
    && Lists(order, selected)
    && forall i, d :: 0 <= i < |order| && d in selected && d in g[order[i]] ==> Before(order, i, d)
  }

  lemma CyclesAmong(g: Graph, selected: set<string>, c: seq<string>)
    requires selected <= g.Keys
    ensures Cycle(Pending(g, selected), c) <==> CycleAmong(g, selected, c)
  {
    var p := Pending(g, selected);
    if Cycle(p, c) {
      forall i | 0 <= i < |c| ensures c[i] in selected {
        if i == |c| - 1 { assert c[i - 1 + 1] in p[c[i - 1]]; }
      }
    }
  }

  lemma OrdersAmong(g: Graph, selected: set<string>, order: seq<string>)
    requires selected <= g.Keys && IsOrder(Pending(g, selected), order)
    ensures OrdersSelected(g, selected, order)
  {
    var p := Pending(g, selected);
    assert p.Keys == selected;
    forall i, d | 0 <= i < |order| && d in selected && d in g[order[i]] ensures Before(order, i, d) {
      assert order[i] in order && d in p[order[i]];
    }
  }

  /** The order is returned exactly when the dependencies among the selected
      modules have no cycle, and then holds each selected module once, behind all
      of its selected dependencies. */
  lemma TopologicalOrderIsExact(g: Graph, selected: set<string>)
    requires selected <= g.Keys
    ensures var p := Pending(g, selected);
      && (Layers(p).None? <==> exists c :: Cycle(p, c))
      && (Layers(p).Some? ==> IsOrder(p, Layers(p).value))
      && (Layers(p).None? <==> exists c :: CycleAmong(g, selected, c))
      && (Layers(p).Some? ==> OrdersSelected(g, selected, Layers(p).value))
  {
    var p := Pending(g, selected);
    forall c ensures Cycle(p, c) <==> CycleAmong(g, selected, c) { CyclesAmong(g, selected, c); }
    if Layers(p).None? {
      var q := LayersStuck(p);
      StuckHasCycle(p, q);
      var c :| Cycle(p, c);
      assert CycleAmong(g, selected, c);
    } else {
      LayersSound(p);
      OrdersAmong(g, selected, Layers(p).value);
      forall c ensures !Cycle(p, c) { OrderExcludesCycle(p, Layers(p).value, c); }
    }
  }

  // ------------------------------------------------------------------- closure

  /** Why a module is in a release: "source changed", and one "depends on X" for
      each affected dependency X. */
  datatype Reasons = Reasons(sourceChanged: bool, dependsOn: set<string>)

  ghost predicate ClosedUnderDependents(g: Graph, s: set<string>) {
    forall d, x :: d in s && x in g && d in g[x] ==> x in s
  }

  /** The least set with the changed modules that is closed under dependents. */
  ghost predicate IsClosure(g: Graph, direct: set<string>, s: set<string>) {
    && direct <= s && ClosedUnderDependents(g, s)
    && (forall t {:trigger ClosedUnderDependents(g, t)} :: direct <= t && ClosedUnderDependents(g, t) ==> s <= t)
  }

  function ReasonsFor(g: Graph, direct: set<string>, done: set<string>, d: string): Reasons {
    Reasons(d in direct, if d in g then done * g[d] else {})
  }

  method Reverse(g: Graph) returns (reverse: Graph)
    requires Closed(g)
    ensures reverse.Keys == g.Keys
    ensures forall d :: d in g ==> reverse[d] == set x | x in g && d in g[x]
  {
    reverse := map d | d in g :: {};
    var todo := g.Keys;
    while todo != {}
      invariant todo <= g.Keys && reverse.Keys == g.Keys
      invariant forall d, x :: d in g ==> (x in reverse[d] <==> x in g && x !in todo && d in g[x])
      decreases |todo|
    {
      var x :| x in todo;
      todo := todo - {x};
      reverse := map d | d in g :: if d in g[x] then reverse[d] + {x} else reverse[d];
    }
  }

  /** Between turns of the work list: what is affected is reachable, everything
      taken off the list has passed its reason on. */
  ghost predicate Progress(
      g: Graph, direct: set<string>, affected: set<string>, reasons: map<string, Reasons>, done: set<string>)
  {
    && direct <= affected <= g.Keys && done <= affected && reasons.Keys == affected
    && (forall t {:trigger ClosedUnderDependents(g, t)} :: direct <= t && ClosedUnderDependents(g, t) ==> affected <= t)
    && (forall d, x :: d in done && x in g && d in g[x] ==> x in affected)
    && (forall d :: d in affected ==> reasons[d] == ReasonsFor(g, direct, done, d))
  }

  /** What the inner loop has done after some of the dependents of `d`. */
  ghost predicate Spreading(affected0: set<string>, reasons0: map<string, Reasons>, seen: set<string>, d: string,
                            affected: set<string>, reasons: map<string, Reasons>)
  {
    && affected == affected0 + seen && reasons.Keys == affected
    && forall x :: x in affected ==> reasons[x] == Told(affected0, reasons0, seen, d, x)
  }

  function Told(affected0: set<string>, reasons0: map<string, Reasons>, seen: set<string>, d: string,
                x: string): Reasons
  {
    Add(if x in affected0 && x in reasons0 then reasons0[x] else NONE, if x in seen then {d} else {})
  }

  const NONE := Reasons(false, {})

  function Add(r: Reasons, more: set<string>): Reasons {
    r.(dependsOn := r.dependsOn + more)
  }

  /** The inner loop: one module's dependents learn that it is affected. */
  method Spread(dependents: seq<string>, d: string,
                affected0: set<string>, reasons0: map<string, Reasons>, queue0: seq<string>, ghost rest: set<string>)
    returns (affected: set<string>, reasons: map<string, Reasons>, queue: seq<string>)
    requires reasons0.Keys == affected0
    requires Lists(queue0, rest) && rest <= affected0
    ensures Spreading(affected0, reasons0, Elements(dependents), d, affected, reasons)
    ensures Lists(queue, rest + (Elements(dependents) - affected0))
  {
    affected, reasons, queue := affected0, reasons0, queue0;
    for i := 0 to |dependents|
      invariant Spreading(affected0, reasons0, Elements(dependents[..i]), d, affected, reasons)
      invariant Lists(queue, rest + (Elements(dependents[..i]) - affected0))
    {
      var x := dependents[i];
      assert Elements(dependents[..i + 1]) == Elements(dependents[..i]) + {x};
      reasons := reasons[x := Add(if x in reasons then reasons[x] else NONE, {d})];
      if x !in affected {
        affected := affected + {x};
        queue := queue + [x];
      }
    }
    assert dependents[..|dependents|] == dependents;
  }

  ghost function Elements(s: seq<string>): set<string> {
    set x | x in s
  }

  lemma SpreadReasons(g: Graph, direct: set<string>, d: string, done: set<string>,
                      affected0: set<string>, reasons0: map<string, Reasons>, seen: set<string>, x: string)
    requires Progress(g, direct, affected0, reasons0, done) && x in affected0 + seen && x in g
    requires seen == set y | y in g && d in g[y]
    ensures Told(affected0, reasons0, seen, d, x) == ReasonsFor(g, direct, done + {d}, x)
  {
    if x !in affected0 {
      assert forall y :: y in done && y in g[x] ==> x in affected0;
    }
    assert (done + {d}) * g[x] == done * g[x] + if d in g[x] then {d} else {};
  }

  lemma SpreadProgress(g: Graph, direct: set<string>, d: string, done: set<string>,
                       affected0: set<string>, reasons0: map<string, Reasons>, seen: set<string>,
                       affected: set<string>, reasons: map<string, Reasons>)
    requires Progress(g, direct, affected0, reasons0, done) && d in affected0
    requires seen == set y | y in g && d in g[y]
    requires Spreading(affected0, reasons0, seen, d, affected, reasons)
    ensures Progress(g, direct, affected, reasons, done + {d})
  {
    forall t | direct <= t && ClosedUnderDependents(g, t) ensures affected <= t {
      assert affected0 <= t && d in t;
    }
    forall x | x in affected ensures reasons[x] == ReasonsFor(g, direct, done + {d}, x) {
      SpreadReasons(g, direct, d, done, affected0, reasons0, seen, x);
    }
  }

  method SortedList(all: set<string>) returns (r: seq<string>)
    ensures Lists(r, all)
  {
    SortedLists(all);
    r := Lex.Sorted(all);
  }

  /** `reverse_dependency_closure`. */
  method ReverseDependencyClosure(g: Graph, direct: set<string>)
    returns (affected: set<string>, reasons: map<string, Reasons>)
    requires Closed(g) && direct <= g.Keys
    ensures IsClosure(g, direct, affected) && affected <= g.Keys
    ensures reasons == map d | d in affected :: ReasonsFor(g, direct, affected, d)
  {
    var reverse := Reverse(g);
    affected := direct;
    reasons := map d | d in direct :: Reasons(true, {});
    var queue := SortedList(direct);
    ghost var done: set<string> := {};
    NoneSpread(g, direct);
    while queue != []
      invariant Progress(g, direct, affected, reasons, done)
      invariant Lists(queue, affected - done)
      decreases |g.Keys - done|
    {
      ghost var d := queue[0];
      assert d in queue;
      affected, reasons, queue := Visit(g, reverse, direct, affected, reasons, queue, done);
      Proper(g.Keys - (done + {d}), g.Keys - done, d);
      done := done + {d};
    }
    ListedAll(queue, affected - done);
    AllSpread(g, direct, affected, reasons, done);
  }

  lemma ListedAll(queue: seq<string>, rest: set<string>)
    requires Lists(queue, rest) && queue == []
    ensures rest == {}
  {
    assert forall x :: x in rest ==> x in queue;
  }

  lemma AllSpread(g: Graph, direct: set<string>, affected: set<string>, reasons: map<string, Reasons>,
                  done: set<string>)
    requires Progress(g, direct, affected, reasons, done) && affected - done == {}
    ensures IsClosure(g, direct, affected)
    ensures reasons == map d | d in affected :: ReasonsFor(g, direct, affected, d)
  {
    forall x | x in affected ensures x in done {
      assert x in affected - done <==> x !in done;
    }
    assert done == affected;
  }

  lemma NoneSpread(g: Graph, direct: set<string>)
    requires direct <= g.Keys
    ensures Progress(g, direct, direct, map d | d in direct :: Reasons(true, {}), {})
    ensures direct - {} == direct
  {
  }

  /** One turn of the work list. */
  method Visit(g: Graph, reverse: Graph, direct: set<string>, affected0: set<string>,
               reasons0: map<string, Reasons>, queue0: seq<string>, ghost done: set<string>)
    returns (affected: set<string>, reasons: map<string, Reasons>, queue: seq<string>)
    requires reverse.Keys == g.Keys && forall d :: d in g ==> reverse[d] == set x | x in g && d in g[x]
    requires Progress(g, direct, affected0, reasons0, done)
    requires queue0 != [] && Lists(queue0, affected0 - done)
    ensures Progress(g, direct, affected, reasons, done + {queue0[0]})
    ensures Lists(queue, affected - (done + {queue0[0]}))
  {
    var d := queue0[0];
    assert queue0 == [d] + queue0[1..] && d in queue0;
    ghost var rest := affected0 - done - {d};
    var dependents := SortedList(reverse[d]);
    assert Elements(dependents) == reverse[d];
    assert Lists(queue0[1..], rest);
    affected, reasons, queue := Spread(dependents, d, affected0, reasons0, queue0[1..], rest);
    SpreadProgress(g, direct, d, done, affected0, reasons0, reverse[d], affected, reasons);
    assert rest + (reverse[d] - affected0) == affected - (done + {d}) by {
      assert d in affected0 && done <= affected0;
    }
  }

  lemma Proper(a: set<string>, b: set<string>, d: string)
    requires a <= b && d in b && d !in a
    ensures |a| < |b|
  {
    Subset(a, b - {d});
  }

  /** The closure of a closed set is itself, so a release that names a whole
      closure omits no dependent. */
  lemma ClosureIsIdempotent(g: Graph, direct: set<string>, s: set<string>, t: set<string>)
    requires IsClosure(g, direct, s) && IsClosure(g, s, t)
    ensures s == t
  {
  }
}
