/** scripts/module_release.py: planning a release, applying the plan to the go.mod
    files and the manifest, and the checks a pending release must pass. Git and the
    go command are represented by the values they report. */
module ReleasePlan {
  import opened Options
  import opened SemVer
  import opened ReleaseGraph
  import CommitLog
  import Lex
  import Texts

  datatype GoMod = GoMod(path: string, needs: map<string, string>, overrides: set<string>)

  type Mods = map<string, GoMod>

  /** A checkout: the go.mod of every directory in the workspace, and the manifest. */
  datatype Tree = Tree(mods: Mods, versions: map<string, string>)

  ghost predicate DistinctPaths(mods: Mods) {
    forall d, e :: d in mods && e in mods && mods[d].path == mods[e].path ==> d == e
  }

  /** `discover_modules`: who requires whom inside the workspace. */
  function GraphOf(mods: Mods): Graph {
    map d | d in mods :: set e | e in mods && mods[e].path in mods[d].needs
  }

  lemma GraphIsClosed(mods: Mods)
    ensures GraphOf(mods).Keys == mods.Keys && Closed(GraphOf(mods))
  {
  }

  ghost predicate Readable(versions: map<string, string>) {
    forall d :: d in versions ==> Parse(versions[d]).Some?
  }

  ghost predicate GoodTree(t: Tree) {
    DistinctPaths(t.mods) && t.mods.Keys == t.versions.Keys && Readable(t.versions)
  }

  method CheckPaths(mods: Mods) returns (ok: bool)
    ensures ok <==> DistinctPaths(mods)
  {
    var todo, seen: map<string, string> := mods.Keys, map[];
    while todo != {}
      invariant todo <= mods.Keys
      invariant forall d :: d in mods && d !in todo ==> mods[d].path in seen && seen[mods[d].path] == d
      invariant forall p :: p in seen ==> seen[p] in mods && seen[p] !in todo && mods[seen[p]].path == p
      decreases |todo|
    {
      var d :| d in todo;
      if mods[d].path in seen {
        return false;
      }
      todo := todo - {d};
      seen := seen[mods[d].path := d];
    }
    return true;
  }

  method CheckVersions(versions: map<string, string>) returns (ok: bool)
    ensures ok <==> Readable(versions)
  {
    var todo := versions.Keys;
    while todo != {}
      invariant todo <= versions.Keys
      invariant forall d :: d in versions && d !in todo ==> Parse(versions[d]).Some?
      decreases |todo|
    {
      var d :| d in todo;
      if Parse(versions[d]).None? {
        return false;
      }
      todo := todo - {d};
    }
    return true;
  }

  // ------------------------------------------------------------------- planning

  datatype Plan = Plan(order: seq<string>, next: map<string, string>, reasons: map<string, Reasons>)

  function LevelFor(changed: set<string>, commits: string -> string, d: string): (level: string)
    ensures KnownLevel(level)
  {
    if d in changed then CommitLog.BumpLevel(commits(d)) else "patch"
  }

  /** A plan for the changed modules: everything that depends on them, in
      dependency order, each one bump further. */
  ghost predicate PlanFor(t: Tree, changed: set<string>, commits: string -> string, plan: Plan) {
    var g := GraphOf(t.mods);
    && GoodTree(t)
    && plan.next.Keys <= t.mods.Keys && IsClosure(g, changed, plan.next.Keys)
    && Layers(Pending(g, plan.next.Keys)) == Some(plan.order)
    && (forall d :: d in plan.next ==> BumpVersion(t.versions[d], LevelFor(changed, commits, d)) == Some(plan.next[d]))
    && plan.reasons == map d | d in plan.next :: ReasonsFor(g, changed, plan.next.Keys, d)
  }

  /** A planned module that changed itself is bumped as its commits say, one that
      only depends on it by a patch. */
  lemma PlannedVersions(t: Tree, changed: set<string>, commits: string -> string, plan: Plan, d: string)
    requires PlanFor(t, changed, commits, plan) && d in plan.next
    ensures d in t.versions && Parse(t.versions[d]).Some?
    ensures d in changed ==>
              BumpedTo(Parse(t.versions[d]).value, Some(plan.next[d]), CommitLog.BumpLevel(commits(d)))
    ensures d !in changed ==> BumpedTo(Parse(t.versions[d]).value, Some(plan.next[d]), "patch")
  {
    BumpMeans(t.versions[d], LevelFor(changed, commits, d));
  }

  /** The modules that some change reaches. */
  ghost predicate Reached(t: Tree, changed: set<string>, s: set<string>) {
    s <= t.mods.Keys && IsClosure(GraphOf(t.mods), changed, s)
  }

  function TagOf(d: string, version: string): string {
    d + "/" + version
  }

  /** Every declared version has been tagged. */
  predicate Tagged(versions: map<string, string>, tags: set<string>) {
    forall d :: d in versions ==> TagOf(d, versions[d]) in tags
  }

  method CheckTags(versions: map<string, string>, tags: set<string>) returns (ok: bool)
    ensures ok <==> Tagged(versions, tags)
  {
    var todo := versions.Keys;
    while todo != {}
      invariant todo <= versions.Keys
      invariant forall d :: d in versions && d !in todo ==> TagOf(d, versions[d]) in tags
      decreases |todo|
    {
      var d :| d in todo;
      if TagOf(d, versions[d]) !in tags {
        return false;
      }
      todo := todo - {d};
    }
    return true;
  }

  /** The last component of a path. */
  function BaseName(path: string): string {
    var parts := Texts.Split(path, '/');
    parts[|parts| - 1]
  }

  predicate Counts(path: string) {
    path != "" && BaseName(path) != "go.sum"
  }

  /** `changed_module_files`: the lines of a diff that name a file, checksums aside. */
  function ChangedFiles(lines: seq<string>): seq<string> {
    if lines == [] then []
    else (if Counts(lines[0]) then [lines[0]] else []) + ChangedFiles(lines[1..])
  }

  /** The modules with a changed file. */
  function Direct(mods: Mods, diff: string -> seq<string>): set<string> {
    set d | d in mods && ChangedFiles(diff(d)) != []
  }

  lemma {:induction false} SomeFileChanged(lines: seq<string>)
    ensures ChangedFiles(lines) != [] <==> exists i :: 0 <= i < |lines| && Counts(lines[i])
  {
    if lines != [] {
      SomeFileChanged(lines[1..]);
      if Counts(lines[0]) {
        assert ChangedFiles(lines)[0] == lines[0];
      } else {
        assert ChangedFiles(lines) == ChangedFiles(lines[1..]);
        forall i | 0 <= i < |lines| && Counts(lines[i]) ensures Counts(lines[1..][i - 1]) {
        }
      }
    }
  }

  /** Checksum files do not count: `go.sum` at the top or in any directory. */
  lemma CountsIsExact(path: string)
    ensures Counts(path) <==> path != "" && path != "go.sum" && !(|path| > 6 && path[|path| - 7..] == "/go.sum")
  {
    assert '/' !in "go.sum" && "/" + "go.sum" == "/go.sum";
    LastPart(path, "go.sum");
  }

  ghost predicate Ends(path: string, name: string) {
    path == name || EndsBehind(path, name)
  }

  ghost predicate EndsBehind(path: string, name: string) {
    |path| > |name| && path[|path| - |name| - 1..] == "/" + name
  }

  lemma EndsTail(path: string, name: string)
    requires path != "" && '/' !in name
    ensures EndsBehind(path, name) <==> EndsBehind(path[1..], name) || (path[0] == '/' && path[1..] == name)
  {
    var rest := path[1..];
    if |path| > |name| + 1 {
      assert path[|path| - |name| - 1..] == rest[|rest| - |name| - 1..];
    } else if |path| == |name| + 1 {
      assert path[|path| - |name| - 1..] == path == [path[0]] + rest;
      assert ([path[0]] + rest)[1..] == rest && ("/" + name)[1..] == name && ("/" + name)[0] == '/';
    }
  }

  lemma SlashInEnd(path: string, name: string)
    requires EndsBehind(path, name)
    ensures '/' in path
  {
    assert path[|path| - |name| - 1..][0] == '/';
  }

  lemma BaseNameTail(path: string)
    requires path != "" && '/' in path
    ensures path[0] == '/' || '/' in path[1..]
    ensures BaseName(path) == BaseName(path[1..])
  {
    if path[0] != '/' { Texts.SplitMore(path[1..], '/'); }
  }

  lemma {:induction false} LastPart(path: string, name: string)
    requires '/' !in name
    ensures BaseName(path) == name <==> Ends(path, name)
  {
    if '/' !in path {
      Texts.SplitPart(path, "", '/');
      if EndsBehind(path, name) { SlashInEnd(path, name); }
    } else {
      LastPart(path[1..], name);
      BaseNameTail(path);
      EndsTail(path, name);
    }
  }

  /** The changed files are listed in the order of the diff, as often as there. */
  lemma {:induction false} ChangedFilesFilter(a: seq<string>, b: seq<string>)
    ensures ChangedFiles(a + b) == ChangedFiles(a) + ChangedFiles(b)
    ensures |a| == 1 ==> ChangedFiles(a) == if Counts(a[0]) then a else []
  {
    if a == [] {
      assert a + b == b;
    } else {
      assert (a + b)[1..] == a[1..] + b;
      ChangedFilesFilter(a[1..], b);
      if |a| == 1 { assert a == [a[0]] && a[1..] == []; }
    }
  }

  function FilesOf(dirs: set<string>, diff: string -> seq<string>): map<string, seq<string>> {
    map d | d in dirs :: ChangedFiles(diff(d))
  }

  lemma FilesAdd(dirs: set<string>, diff: string -> seq<string>, d: string)
    ensures FilesOf(dirs + {d}, diff) == FilesOf(dirs, diff)[d := ChangedFiles(diff(d))]
  {
  }

  method DirectChanges(mods: Mods, diff: string -> seq<string>)
    returns (direct: set<string>, files: map<string, seq<string>>)
    ensures direct == Direct(mods, diff)
    ensures files == FilesOf(Direct(mods, diff), diff)
  {
    direct, files := {}, map[];
    var todo := mods.Keys;
    while todo != {}
      invariant todo <= mods.Keys
      invariant direct == set d | d in mods && d !in todo && ChangedFiles(diff(d)) != []
      invariant files == FilesOf(direct, diff)
      decreases |todo|
    {
      var d :| d in todo;
      todo := todo - {d};
      var changed := ChangedFiles(diff(d));
      if changed != [] {
        FilesAdd(direct, diff, d);
        direct := direct + {d};
        files := files[d := changed];
      }
    }
  }

  /** `build_plan`: it fails exactly on a bad tree, a version without its tag, or a
      cycle among the affected. */
  method BuildPlan(t: Tree, tags: set<string>, diff: string -> seq<string>, commits: string -> string)
    returns (r: Option<Plan>, files: map<string, seq<string>>)
    ensures r.Some? ==> PlanFor(t, Direct(t.mods, diff), commits, r.value)
    ensures r.Some? ==> files == FilesOf(Direct(t.mods, diff), diff)
    ensures r.None? <==> !GoodTree(t) || !Tagged(t.versions, tags) || Cyclic(t, Direct(t.mods, diff))
    ensures r.Some? ==> forall d :: d in t.versions ==> (d + "/" + t.versions[d]) in tags
  {
    var paths := CheckPaths(t.mods);
    var readable := CheckVersions(t.versions);
    if !paths || !readable || t.mods.Keys != t.versions.Keys {
      return None, map[];
    }
    var tagged := CheckTags(t.versions, tags);
    if !tagged {
      return None, map[];
    }
    var direct;
    direct, files := DirectChanges(t.mods, diff);
    var plan := PlanDirect(t, direct, commits);
    return plan, files;
  }

  /** Some of the modules that the changes reach wait for one another. */
  ghost predicate Cyclic(t: Tree, changed: set<string>) {
    exists s :: Reached(t, changed, s) && Layers(Pending(GraphOf(t.mods), s)).None?
  }

  method PlanDirect(t: Tree, changed: set<string>, commits: string -> string) returns (r: Option<Plan>)
    requires changed <= t.mods.Keys && GoodTree(t)
    ensures r.Some? ==> PlanFor(t, changed, commits, r.value)
    ensures r.None? <==> Cyclic(t, changed)
  {
    var g := GraphOf(t.mods);
    GraphIsClosed(t.mods);
    var affected, reasons := ReverseDependencyClosure(g, changed);
    OnlyReached(t, changed, affected);
    var order := TopologicalOrder(g, affected);
    if order.None? {
      return None;
    }
    PendingOrder(t.mods, affected, order.value);
    var next := NextVersions(t.versions, order.value, changed, commits);
    PlanAssembles(t, changed, commits, affected, Plan(order.value, next, reasons));
    return Some(Plan(order.value, next, reasons));
  }

  lemma PlanAssembles(t: Tree, changed: set<string>, commits: string -> string, affected: set<string>, plan: Plan)
    requires GoodTree(t) && affected <= t.mods.Keys && IsClosure(GraphOf(t.mods), changed, affected)
    requires Layers(Pending(GraphOf(t.mods), affected)) == Some(plan.order) && Lists(plan.order, affected)
    requires Bumped(t.versions, changed, commits, plan.order, plan.next)
    requires plan.reasons == map d | d in affected :: ReasonsFor(GraphOf(t.mods), changed, affected, d)
    ensures PlanFor(t, changed, commits, plan)
  {
    assert plan.next.Keys == affected;
  }

  /** The closure is the one set the changes reach. */
  lemma OnlyReached(t: Tree, changed: set<string>, affected: set<string>)
    requires affected <= t.mods.Keys && IsClosure(GraphOf(t.mods), changed, affected)
    ensures Cyclic(t, changed) <==> Layers(Pending(GraphOf(t.mods), affected)).None?
  {
    assert Reached(t, changed, affected);
    forall s | Reached(t, changed, s) ensures s == affected { ClosureIsUnique(GraphOf(t.mods), changed, s, affected); }
  }

  lemma ClosureIsUnique(g: Graph, direct: set<string>, s: set<string>, t: set<string>)
    requires IsClosure(g, direct, s) && IsClosure(g, direct, t)
    ensures s == t
  {
  }

  method NextVersions(versions: map<string, string>, order: seq<string>, changed: set<string>,
                      commits: string -> string)
    returns (next: map<string, string>)
    requires Readable(versions) && forall d :: d in order ==> d in versions
    ensures Bumped(versions, changed, commits, order, next)
  {
    next := map[];
    for i := 0 to |order|
      invariant Bumped(versions, changed, commits, order[..i], next)
    {
      var d := order[i];
      assert order[..i + 1] == order[..i] + [d];
      var v := NextVersion(versions[d], LevelFor(changed, commits, d));
      BumpedAppend(versions, changed, commits, order[..i], next, d, v);
      next := next[d := v];
    }
    assert order[..|order|] == order;
  }

  /** Each listed module, and no other, has its version bumped at its level. */
  ghost predicate Bumped(versions: map<string, string>, changed: set<string>, commits: string -> string,
                         order: seq<string>, next: map<string, string>)
  {
    && (forall d :: d in next <==> d in order)
    && (forall d :: d in next ==> IsNext(versions, changed, commits, d, next[d]))
  }

  ghost predicate IsNext(versions: map<string, string>, changed: set<string>, commits: string -> string, d: string,
                         v: string)
  {
    d in versions && BumpVersion(versions[d], LevelFor(changed, commits, d)) == Some(v)
  }

  lemma BumpedAppend(versions: map<string, string>, changed: set<string>, commits: string -> string, order: seq<string>,
                     next: map<string, string>, d: string, v: string)
    requires Bumped(versions, changed, commits, order, next)
    requires IsNext(versions, changed, commits, d, v)
    ensures Bumped(versions, changed, commits, order + [d], next[d := v])
  {
  }

  method NextVersion(version: string, level: string) returns (v: string)
    requires Parse(version).Some? && KnownLevel(level)
    ensures BumpVersion(version, level) == Some(v)
  {
    BumpIncreases(version, level);
    v := BumpVersion(version, level).value;
  }

  // ------------------------------------------------------------------- applying

  /** `go mod edit -require` of the planned version, for each dependency in turn. */
  function Edit(mods: Mods, next: map<string, string>, deps: seq<string>, was: GoMod): GoMod
    requires forall e :: e in deps ==> e in mods && e in next
  {
    if deps == [] then was
    else
      var last := deps[|deps| - 1];
      var r := Edit(mods, next, deps[..|deps| - 1], was);
      r.(needs := r.needs[mods[last].path := next[last]])
  }

  function PlannedDeps(t: Tree, plan: Plan, d: string): (deps: seq<string>)
    requires d in t.mods
    ensures forall e :: e in deps <==> e in GraphOf(t.mods)[d] && e in plan.next
    ensures forall e :: e in deps ==> e in t.mods && e in plan.next
  {
    Lex.Sorted(GraphOf(t.mods)[d] * plan.next.Keys)
  }

  /** The tree after the planned modules of `order` have been edited. */
  function ApplyTo(t: Tree, plan: Plan, order: seq<string>): (r: Tree)
    requires forall d :: d in order ==> d in t.mods && d in plan.next
    ensures r.mods.Keys == t.mods.Keys
  {
    if order == [] then t
    else
      var d := order[|order| - 1];
      var r := ApplyTo(t, plan, order[..|order| - 1]);
      Tree(r.mods[d := Edit(t.mods, plan.next, PlannedDeps(t, plan, d), r.mods[d])], r.versions[d := plan.next[d]])
  }

  lemma ApplyNext(t: Tree, plan: Plan, i: nat)
    requires i < |plan.order| && forall d :: d in plan.order ==> d in t.mods && d in plan.next
    ensures plan.order[i] in plan.order && forall x :: x in plan.order[..i + 1] ==> x in plan.order
    ensures var d, r := plan.order[i], ApplyTo(t, plan, plan.order[..i]);
      ApplyTo(t, plan, plan.order[..i + 1]) ==
        Tree(r.mods[d := Edit(t.mods, plan.next, PlannedDeps(t, plan, d), r.mods[d])], r.versions[d := plan.next[d]])
  {
    var upTo := plan.order[..i + 1];
    assert upTo[..i] == plan.order[..i] && upTo[i] == plan.order[i];
  }

  method EditNeeds(mods: Mods, next: map<string, string>, deps: seq<string>, was: GoMod) returns (now: GoMod)
    requires forall e :: e in deps ==> e in mods && e in next
    ensures now == Edit(mods, next, deps, was)
  {
    now := was;
    for i := 0 to |deps|
      invariant now == Edit(mods, next, deps[..i], was)
    {
      assert deps[..i + 1][..i] == deps[..i];
      var e := deps[i];
      now := now.(needs := now.needs[mods[e].path := next[e]]);
    }
    assert deps[..|deps|] == deps;
  }

  class Checkout {
    var mods: Mods
    var versions: map<string, string>

    function View(): Tree
      reads this
    {
      Tree(mods, versions)
    }

    constructor (t: Tree)
      ensures View() == t
    {
      mods, versions := t.mods, t.versions;
    }

    /** `apply_plan`. */
    method EditModule(discovered: Tree, plan: Plan, d: string)
      requires d in mods && d in discovered.mods && d in plan.next
      modifies this
      ensures versions == old(versions)[d := plan.next[d]]
      ensures mods ==
              old(mods)[d := Edit(discovered.mods, plan.next, PlannedDeps(discovered, plan, d), old(mods)[d])]
    {
      var edited := EditNeeds(discovered.mods, plan.next, PlannedDeps(discovered, plan, d), mods[d]);
      mods := mods[d := edited];
      versions := versions[d := plan.next[d]];
    }

    method ApplyPlan(plan: Plan)
      requires forall d :: d in plan.order ==> d in mods && d in plan.next
      modifies this
      ensures View() == ApplyTo(old(View()), plan, plan.order)
    {
      var discovered := View();
      for i := 0 to |plan.order|
        invariant View() == ApplyTo(discovered, plan, plan.order[..i])
      {
        var d := plan.order[i];
        ApplyNext(discovered, plan, i);
        EditModule(discovered, plan, d);
      }
      assert plan.order[..|plan.order|] == plan.order;
    }
  }

  lemma {:induction false} EditKeeps(mods: Mods, next: map<string, string>, deps: seq<string>, was: GoMod)
    requires forall e :: e in deps ==> e in mods && e in next && mods[e].path in was.needs
    ensures var now := Edit(mods, next, deps, was);
      now.path == was.path && now.overrides == was.overrides && now.needs.Keys == was.needs.Keys
  {
    if deps != [] {
      assert deps[|deps| - 1] in deps;
      EditKeeps(mods, next, deps[..|deps| - 1], was);
    }
  }

  lemma {:induction false} EditSets(mods: Mods, next: map<string, string>, deps: seq<string>, was: GoMod, e: string)
    requires DistinctPaths(mods) && e in deps && forall x :: x in deps ==> x in mods && x in next
    ensures mods[e].path in Edit(mods, next, deps, was).needs
    ensures Edit(mods, next, deps, was).needs[mods[e].path] == next[e]
  {
    var init, last := deps[..|deps| - 1], deps[|deps| - 1];
    assert last in deps;
    if e != last {
      assert e in init;
      EditSets(mods, next, init, was, e);
    }
  }

  /** Each planned module, and only those, is edited, once and from its original. */
  lemma {:induction false} ApplyToModule(t: Tree, plan: Plan, order: seq<string>, d: string)
    requires forall x :: x in order ==> x in t.mods && x in plan.next
    requires forall i, j :: 0 <= i < j < |order| ==> order[i] != order[j]
    requires d in t.mods
    ensures ApplyTo(t, plan, order).mods[d]
            == if d in order then Edit(t.mods, plan.next, PlannedDeps(t, plan, d), t.mods[d]) else t.mods[d]
  {
    if order != [] {
      var init, last := order[..|order| - 1], order[|order| - 1];
      ApplyToModule(t, plan, init, d);
      assert order == init + [last] && last !in init;
      LastApplied(t, plan, order, d);
    }
  }

  lemma LastApplied(t: Tree, plan: Plan, order: seq<string>, d: string)
    requires order != [] && d in t.mods && forall x :: x in order ==> x in t.mods && x in plan.next
    ensures var init, last := order[..|order| - 1], order[|order| - 1];
      && (forall x :: x in init ==> x in order)
      && ApplyTo(t, plan, order).mods[d] ==
         if d == last then Edit(t.mods, plan.next, PlannedDeps(t, plan, d), ApplyTo(t, plan, init).mods[d])
         else ApplyTo(t, plan, init).mods[d]
  {
  }

  lemma LastVersion(t: Tree, plan: Plan, order: seq<string>)
    requires order != [] && forall x :: x in order ==> x in t.mods && x in plan.next
    ensures var init, last := order[..|order| - 1], order[|order| - 1];
      && (forall x :: x in init ==> x in order)
      && ApplyTo(t, plan, order).versions == ApplyTo(t, plan, init).versions[last := plan.next[last]]
  {
  }

  lemma {:induction false} ApplyToVersions(t: Tree, plan: Plan, order: seq<string>, d: string)
    requires forall x :: x in order ==> x in t.mods && x in plan.next
    ensures d in ApplyTo(t, plan, order).versions <==> d in t.versions || d in order
    ensures d in order ==> ApplyTo(t, plan, order).versions[d] == plan.next[d]
    ensures d in t.versions && d !in order ==> ApplyTo(t, plan, order).versions[d] == t.versions[d]
  {
    if order != [] {
      var init, last := order[..|order| - 1], order[|order| - 1];
      ApplyToVersions(t, plan, init, d);
      assert order == init + [last];
      LastVersion(t, plan, order);
    }
  }

  // ------------------------------------------------------------------- checking

  datatype Item = Item(directory: string, current: string, next: string)

  /** Both texts are versions, and the second is strictly newer. */
  predicate Advances(was: string, now: string) {
    Parse(was).Some? && Parse(now).Some? && Newer(Parse(was).value, Parse(now).value)
  }

  predicate ValidItem(prev: map<string, string>, t: Tree, d: string) {
    d in prev && d in t.versions && Advances(prev[d], t.versions[d])
  }

  function ChangedDirs(prev: map<string, string>, versions: map<string, string>): set<string> {
    set d | d in versions && (d !in prev || prev[d] != versions[d])
  }

  ghost predicate ItemsFor(prev: map<string, string>, t: Tree, order: seq<string>, items: seq<Item>) {
    && |items| == |order|
    && forall i :: 0 <= i < |order| ==> IsItem(prev, t, order[i], items[i])
  }

  ghost predicate IsItem(prev: map<string, string>, t: Tree, d: string, item: Item) {
    ValidItem(prev, t, d) && item == ItemOf(prev, t, d)
  }

  /** What `manifest_changes` reports, when it reports anything. */
  ghost predicate ChangesAre(prev: map<string, string>, t: Tree, items: seq<Item>) {
    && GoodTree(t) && prev.Keys <= t.versions.Keys
    && var order := Layers(Pending(GraphOf(t.mods), ChangedDirs(prev, t.versions)));
       order.Some? && ItemsFor(prev, t, order.value, items)
  }

  function ItemOf(prev: map<string, string>, t: Tree, d: string): Item {
    Item(d, if d in prev then prev[d] else "", if d in t.versions then t.versions[d] else "")
  }

  /** A loop that reports one item per module and gives up at the first bad one. */
  method Report<T>(order: seq<string>, ok: string -> bool, item: string -> T) returns (r: Option<seq<T>>)
    ensures r.Some? ==> |r.value| == |order| && forall k :: 0 <= k < |order| ==>
        ok(order[k]) && r.value[k] == item(order[k])
    ensures r.None? ==> exists k :: 0 <= k < |order| && !ok(order[k])
  {
    var items: seq<T> := [];
    for i := 0 to |order|
      invariant |items| == i && forall k :: 0 <= k < i ==> ok(order[k]) && items[k] == item(order[k])
    {
      if !ok(order[i]) {
        return None;
      }
      items := items + [item(order[i])];
    }
    return Some(items);
  }

  /** What `manifest_changes` answers: nothing to compare with, the changes, or a
      ReleaseError. */
  datatype Changes = Bootstrap | Changed(items: seq<Item>) | Refused

  /** `manifest_changes` against the manifest at the base, if there was one. */
  method ManifestChanges(prev: Option<map<string, string>>, t: Tree) returns (r: Changes)
    ensures r.Bootstrap? <==> Readable(t.versions) && prev.None?
    ensures r.Changed? ==> prev.Some? && ChangesAre(prev.value, t, r.items)
    ensures r.Refused? && prev.Some? ==> forall items :: !ChangesAre(prev.value, t, items)
  {
    var readable := CheckVersions(t.versions);
    if !readable {
      return Refused;
    }
    if prev.None? {
      return Bootstrap;
    }
    var paths := CheckPaths(t.mods);
    if !paths || t.versions.Keys != t.mods.Keys || !(prev.value.Keys <= t.versions.Keys) {
      return Refused;
    }
    r := CompareManifests(prev.value, t);
  }

  lemma BadItem(prev: map<string, string>, t: Tree, order: seq<string>, i: nat)
    requires GoodTree(t) && Layers(Pending(GraphOf(t.mods), ChangedDirs(prev, t.versions))) == Some(order)
    requires i < |order| && !ValidItem(prev, t, order[i])
    ensures forall items :: !ChangesAre(prev, t, items)
  {
    forall items ensures !ItemsFor(prev, t, order, items) {
      if |items| == |order| { assert !IsItem(prev, t, order[i], items[i]); }
    }
  }

  method CompareManifests(prev: map<string, string>, t: Tree) returns (r: Changes)
    requires GoodTree(t) && prev.Keys <= t.versions.Keys
    ensures r.Changed? ==> ChangesAre(prev, t, r.items)
    ensures !r.Changed? ==> r.Refused? && forall items :: !ChangesAre(prev, t, items)
  {
    var changed := ChangedDirs(prev, t.versions);
    var order := TopologicalOrder(GraphOf(t.mods), changed);
    if order.None? {
      return Refused;
    }
    var items := Report(order.value, d => ValidItem(prev, t, d), d => ItemOf(prev, t, d));
    if items.None? {
      ghost var i :| 0 <= i < |order.value| && !ValidItem(prev, t, order.value[i]);
      BadItem(prev, t, order.value, i);
      return Refused;
    }
    return Changed(items.value);
  }

  function VersionsOf(items: seq<Item>): map<string, string> {
    if items == [] then map[]
    else VersionsOf(items[..|items| - 1])[items[|items| - 1].directory := items[|items| - 1].next]
  }

  ghost predicate NeedMatches(t: Tree, next: map<string, string>, d: string, e: string) {
    d in t.mods && e in t.mods && e in next
    && t.mods[e].path in t.mods[d].needs && t.mods[d].needs[t.mods[e].path] == next[e]
  }

  /** No `replace` of a module of the workspace. */
  ghost predicate NoLocalOverride(mods: Mods, d: string) {
    d in mods && forall e :: e in mods ==> mods[e].path !in mods[d].overrides
  }

  ghost predicate ModuleReleasable(t: Tree, next: map<string, string>, d: string) {
    && NoLocalOverride(t.mods, d)
    && forall e :: e in GraphOf(t.mods)[d] * next.Keys ==> NeedMatches(t, next, d, e)
  }

  /** What `validate_pending_release` demands of the changed versions. */
  ghost predicate Releasable(t: Tree, next: map<string, string>) {
    next.Keys == {} ||
    (ClosedUnderDependents(GraphOf(t.mods), next.Keys) && forall d :: d in next ==> ModuleReleasable(t, next, d))
  }

  lemma AdvancesIsPrecedence(was: string, now: string)
    ensures Advances(was, now) <==>
              Parse(was).Some? && Parse(now).Some? && Precedes(Parse(was).value, Parse(now).value)
  {
    if Parse(was).Some? && Parse(now).Some? {
      KeyOrderIsPrecedence(Parse(was).value, Parse(now).value);
    }
  }

  /** One reported change: both manifests name the module, and the version it had
      precedes the one it has. */
  ghost predicate IsAdvance(prev: map<string, string>, t: Tree, item: Item) {
    && item.directory in prev && prev[item.directory] == item.current
    && item.directory in t.versions && t.versions[item.directory] == item.next
    && Parse(item.current).Some? && Parse(item.next).Some?
    && Precedes(Parse(item.current).value, Parse(item.next).value)
  }

  /** A report has one item for each module whose version is not what it was, no
      other, each an advance, and every one behind those it requires. */
  lemma ChangesMean(prev: map<string, string>, t: Tree, items: seq<Item>)
    requires ChangesAre(prev, t, items)
    ensures prev.Keys == t.versions.Keys
    ensures forall i :: 0 <= i < |items| ==> IsAdvance(prev, t, items[i])
    ensures forall d :: d in t.versions && prev[d] != t.versions[d] ==>
              exists i :: 0 <= i < |items| && items[i].directory == d
    ensures forall i, j :: 0 <= i < j < |items| ==> items[i].directory != items[j].directory
  {
    var changed := ChangedDirs(prev, t.versions);
    var order := Layers(Pending(GraphOf(t.mods), changed)).value;
    TopologicalOrderIsExact(GraphOf(t.mods), changed);
    forall i | 0 <= i < |items|
      ensures items[i].directory == order[i] && order[i] in changed && IsAdvance(prev, t, items[i])
    {
      assert order[i] in order && IsItem(prev, t, order[i], items[i]);
      AdvancesIsPrecedence(items[i].current, items[i].next);
    }
    forall d | d in changed ensures d in prev {
      assert d in order;
      var i :| 0 <= i < |order| && order[i] == d;
      assert IsItem(prev, t, order[i], items[i]);
    }
    forall d | d in t.versions && prev[d] != t.versions[d]
      ensures exists i :: 0 <= i < |items| && items[i].directory == d
    {
      assert d in changed && d in order;
      var i :| 0 <= i < |order| && order[i] == d;
      assert items[i].directory == d;
    }
  }

  /** A release is refused when a module that requires a released one is not in it,
      when a released module requires another in an older version, and when it
      replaces a module of the workspace. */
  lemma RefusedWhen(t: Tree, next: map<string, string>, d: string, e: string)
    requires d in t.mods && e in t.mods && e in next
    ensures t.mods[e].path in t.mods[d].needs && d !in next ==> !Releasable(t, next)
    ensures t.mods[e].path in t.mods[d].needs && t.mods[d].needs[t.mods[e].path] != next[e] ==> !Releasable(t, next)
    ensures d in next && t.mods[e].path in t.mods[d].overrides ==> !Releasable(t, next)
  {
    if t.mods[e].path in t.mods[d].needs {
      assert e in GraphOf(t.mods)[d];
      if d in next && ModuleReleasable(t, next, d) {
        assert NeedMatches(t, next, d, e);
      }
    }
  }

  method CheckModule(t: Tree, next: map<string, string>, d: string) returns (ok: bool)
    requires d in t.mods
    ensures ok <==> ModuleReleasable(t, next, d)
  {
    var deps := GraphOf(t.mods)[d] * next.Keys;
    var todo := deps;
    while todo != {}
      invariant todo <= deps
      invariant forall e :: e in deps && e !in todo ==> NeedMatches(t, next, d, e)
      decreases |todo|
    {
      var e :| e in todo;
      var path := t.mods[e].path;
      if path !in t.mods[d].needs || t.mods[d].needs[path] != next[e] {
        assert !NeedMatches(t, next, d, e);
        return false;
      }
      todo := todo - {e};
    }
    ok := forall e :: e in t.mods ==> t.mods[e].path !in t.mods[d].overrides;
  }

  method CheckModules(t: Tree, next: map<string, string>) returns (ok: bool)
    requires next.Keys <= t.mods.Keys
    ensures ok <==> forall d :: d in next ==> ModuleReleasable(t, next, d)
  {
    var todo := next.Keys;
    while todo != {}
      invariant todo <= next.Keys
      invariant forall d :: d in next && d !in todo ==> ModuleReleasable(t, next, d)
      decreases |todo|
    {
      var d :| d in todo;
      var fine := CheckModule(t, next, d);
      if !fine {
        return false;
      }
      todo := todo - {d};
    }
    return true;
  }

  /** `validate_pending_release`; false is its ReleaseError. */
  method ValidatePendingRelease(t: Tree, items: seq<Item>) returns (ok: bool)
    requires VersionsOf(items).Keys <= t.mods.Keys
    ensures ok <==> Releasable(t, VersionsOf(items))
  {
    var next := VersionsOf(items);
    if next.Keys == {} {
      return true;
    }
    GraphIsClosed(t.mods);
    var affected, reasons := ReverseDependencyClosure(GraphOf(t.mods), next.Keys);
    if affected != next.Keys {
      assert !ClosedUnderDependents(GraphOf(t.mods), next.Keys);
      return false;
    }
    ok := CheckModules(t, next);
  }

  // ------------------------------------------- what is planned is accepted

  lemma PlanOrder(t: Tree, changed: set<string>, commits: string -> string, plan: Plan)
    requires PlanFor(t, changed, commits, plan)
    ensures Lists(plan.order, plan.next.Keys)
    ensures forall d :: d in plan.order ==> d in t.mods && d in plan.next
  {
    PendingOrder(t.mods, plan.next.Keys, plan.order);
  }

  lemma PendingOrder(mods: Mods, dirs: set<string>, order: seq<string>)
    requires dirs <= mods.Keys && Layers(Pending(GraphOf(mods), dirs)) == Some(order)
    ensures Lists(order, dirs) && forall d :: d in order ==> d in mods && d in dirs
  {
    TopologicalOrderIsExact(GraphOf(mods), dirs);
    assert Pending(GraphOf(mods), dirs).Keys == dirs;
  }

  /** Applying a plan changes no path, no requirement's presence and no replace. */
  lemma ApplyKeepsModule(t: Tree, changed: set<string>, commits: string -> string, plan: Plan, d: string)
    requires PlanFor(t, changed, commits, plan) && d in t.mods
    requires forall x :: x in plan.order ==> x in t.mods && x in plan.next
    ensures var was, now := t.mods[d], ApplyTo(t, plan, plan.order).mods[d];
      now.path == was.path && now.overrides == was.overrides && now.needs.Keys == was.needs.Keys
  {
    PlanOrder(t, changed, commits, plan);
    ApplyToModule(t, plan, plan.order, d);
    EditKeeps(t.mods, plan.next, PlannedDeps(t, plan, d), t.mods[d]);
  }

  /** The same paths requiring the same paths make the same graph. */
  lemma SameGraph(mods: Mods, after: Mods)
    requires after.Keys == mods.Keys
    requires forall d :: d in mods ==> after[d].path == mods[d].path && after[d].needs.Keys == mods[d].needs.Keys
    ensures GraphOf(after) == GraphOf(mods)
    ensures DistinctPaths(mods) ==> DistinctPaths(after)
  {
    var g, g' := GraphOf(mods), GraphOf(after);
    forall d | d in mods ensures g'[d] == g[d] {
      assert forall e :: e in g'[d] <==> e in g[d];
    }
  }

  lemma ApplyKeepsGraph(t: Tree, changed: set<string>, commits: string -> string, plan: Plan)
    requires PlanFor(t, changed, commits, plan)
    requires forall x :: x in plan.order ==> x in t.mods && x in plan.next
    ensures GraphOf(ApplyTo(t, plan, plan.order).mods) == GraphOf(t.mods)
    ensures DistinctPaths(ApplyTo(t, plan, plan.order).mods)
  {
    var mods, after := t.mods, ApplyTo(t, plan, plan.order).mods;
    forall d | d in mods ensures after[d].path == mods[d].path && after[d].needs.Keys == mods[d].needs.Keys {
      ApplyKeepsModule(t, changed, commits, plan, d);
    }
    SameGraph(mods, after);
  }

  lemma AppliedVersion(t: Tree, changed: set<string>, commits: string -> string, plan: Plan, d: string)
    requires PlanFor(t, changed, commits, plan)
    requires forall x :: x in plan.order ==> x in t.mods && x in plan.next
    ensures var after := ApplyTo(t, plan, plan.order).versions;
      && (d in after <==> d in t.versions)
      && (d in plan.next ==> after[d] == plan.next[d] && Advances(t.versions[d], after[d]) && after[d] != t.versions[d])
      && (d in t.versions && d !in plan.next ==> after[d] == t.versions[d])
  {
    PlanOrder(t, changed, commits, plan);
    ApplyToVersions(t, plan, plan.order, d);
    if d in plan.next {
      BumpIncreases(t.versions[d], LevelFor(changed, commits, d));
      NotNewer(Parse(t.versions[d]).value);
    }
  }

  lemma ApplyVersions(t: Tree, changed: set<string>, commits: string -> string, plan: Plan)
    requires PlanFor(t, changed, commits, plan)
    requires forall x :: x in plan.order ==> x in t.mods && x in plan.next
    ensures var after := ApplyTo(t, plan, plan.order).versions;
      && after.Keys == t.versions.Keys && Readable(after)
      && ChangedDirs(t.versions, after) == plan.next.Keys
      && (forall d :: d in plan.next ==> after[d] == plan.next[d] && Advances(t.versions[d], after[d]))
  {
    var after := ApplyTo(t, plan, plan.order).versions;
    forall d
      ensures (d in after <==> d in t.versions)
      ensures d in plan.next ==> d in after && after[d] == plan.next[d]
      ensures d in plan.next ==> Advances(t.versions[d], after[d]) && after[d] != t.versions[d]
      ensures (d in t.versions && d !in plan.next ==> after[d] == t.versions[d])
    {
      AppliedVersion(t, changed, commits, plan, d);
    }
    VersionsAssemble(t.versions, after, plan.next);
  }

  lemma VersionsAssemble(was: map<string, string>, after: map<string, string>, next: map<string, string>)
    requires Readable(was) && next.Keys <= was.Keys
    requires forall d :: d in after <==> d in was
    requires forall d :: d in next ==>
        d in after && after[d] == next[d] && Advances(was[d], after[d]) && after[d] != was[d]
    requires forall d :: d in was && d !in next ==> after[d] == was[d]
    ensures after.Keys == was.Keys && Readable(after) && ChangedDirs(was, after) == next.Keys
  {
  }

  function ItemsOf(t: Tree, plan: Plan): seq<Item>
    requires forall d :: d in plan.order ==> d in t.versions && d in plan.next
  {
    seq(|plan.order|, i requires 0 <= i < |plan.order| =>
      (assert plan.order[i] in plan.order; Item(plan.order[i], t.versions[plan.order[i]], plan.next[plan.order[i]])))
  }

  lemma {:induction false} VersionsOfItems(items: seq<Item>, order: seq<string>, next: map<string, string>)
    requires |items| == |order| && forall i :: 0 <= i < |order| ==> order[i] in next
    requires forall i :: 0 <= i < |order| ==> items[i].directory == order[i] && items[i].next == next[order[i]]
    ensures forall d :: d in VersionsOf(items) <==> d in order
    ensures forall d :: d in VersionsOf(items) ==> d in next && VersionsOf(items)[d] == next[d]
  {
    if items != [] {
      var n := |items| - 1;
      VersionsOfItems(items[..n], order[..n], next);
      assert order == order[..n] + [order[n]];
    }
  }

  lemma ItemReported(t: Tree, t': Tree, plan: Plan, i: nat)
    requires forall d :: d in plan.order ==> d in t.versions && d in plan.next && d in t'.versions
    requires i < |plan.order| && plan.order[i] in t.versions && plan.order[i] in t'.versions
    requires plan.order[i] in plan.next && t'.versions[plan.order[i]] == plan.next[plan.order[i]]
    requires Advances(t.versions[plan.order[i]], t'.versions[plan.order[i]])
    ensures IsItem(t.versions, t', plan.order[i], ItemsOf(t, plan)[i])
  {
  }

  lemma ItemsReported(t: Tree, t': Tree, plan: Plan)
    requires forall d :: d in plan.order ==> d in t.versions && d in plan.next && d in t'.versions
    requires forall d :: d in plan.order ==> t'.versions[d] == plan.next[d] && Advances(t.versions[d], t'.versions[d])
    ensures ItemsFor(t.versions, t', plan.order, ItemsOf(t, plan))
  {
    forall i | 0 <= i < |plan.order| ensures IsItem(t.versions, t', plan.order[i], ItemsOf(t, plan)[i]) {
      ItemReported(t, t', plan, i);
    }
  }

  lemma ItemVersions(t: Tree, plan: Plan)
    requires Lists(plan.order, plan.next.Keys) && plan.next.Keys <= t.versions.Keys
    ensures VersionsOf(ItemsOf(t, plan)) == plan.next
  {
    assert forall i :: 0 <= i < |plan.order| ==> plan.order[i] in plan.order;
    VersionsOfItems(ItemsOf(t, plan), plan.order, plan.next);
  }

  lemma PlannedOrder(t: Tree, t': Tree, plan: Plan)
    requires GraphOf(t'.mods) == GraphOf(t.mods) && plan.next.Keys <= t.mods.Keys
    requires ChangedDirs(t.versions, t'.versions) == plan.next.Keys
    requires Layers(Pending(GraphOf(t.mods), plan.next.Keys)) == Some(plan.order)
    requires GoodTree(t') && t.versions.Keys == t'.versions.Keys
    requires forall d :: d in plan.order ==> d in t.versions && d in plan.next
    requires ItemsFor(t.versions, t', plan.order, ItemsOf(t, plan))
    ensures ChangesAre(t.versions, t', ItemsOf(t, plan))
  {
  }

  /** The manifest check accepts every applied plan and reports exactly its items,
      each strictly newer than before. */
  lemma PlanIsReported(t: Tree, changed: set<string>, commits: string -> string, plan: Plan)
    requires PlanFor(t, changed, commits, plan)
    ensures forall d :: d in plan.order ==> d in t.mods && d in plan.next
    ensures ChangesAre(t.versions, ApplyTo(t, plan, plan.order), ItemsOf(t, plan))
    ensures VersionsOf(ItemsOf(t, plan)) == plan.next
  {
    PlanOrder(t, changed, commits, plan);
    ApplyKeepsGraph(t, changed, commits, plan);
    ApplyVersions(t, changed, commits, plan);
    var t' := ApplyTo(t, plan, plan.order);
    ItemsReported(t, t', plan);
    ItemVersions(t, plan);
    PlannedOrder(t, t', plan);
  }

  /** The release check accepts an applied plan exactly when none of its modules
      replaces another module of the workspace; dependents and requirements are
      always as demanded. */
  lemma PlanIsReleasable(t: Tree, changed: set<string>, commits: string -> string, plan: Plan)
    requires PlanFor(t, changed, commits, plan)
    ensures forall d :: d in plan.order ==> d in t.mods && d in plan.next
    ensures Releasable(ApplyTo(t, plan, plan.order), plan.next)
            <==> forall d :: d in plan.next ==> NoLocalOverride(t.mods, d)
  {
    PlanOrder(t, changed, commits, plan);
    PlanIsClosed(t, changed, commits, plan);
    var t' := ApplyTo(t, plan, plan.order);
    forall d | d in plan.next
      ensures ModuleReleasable(t', plan.next, d) <==> NoLocalOverride(t.mods, d)
    {
      PlannedModule(t, changed, commits, plan, d);
    }
    ReleasableWhen(t', plan.next, t.mods);
  }

  lemma ReleasableWhen(t: Tree, next: map<string, string>, mods: Mods)
    requires next.Keys <= mods.Keys && ClosedUnderDependents(GraphOf(t.mods), next.Keys)
    requires forall d :: d in next ==> (ModuleReleasable(t, next, d) <==> NoLocalOverride(mods, d))
    ensures Releasable(t, next) <==> forall d :: d in next ==> NoLocalOverride(mods, d)
  {
  }

  lemma PlanIsClosed(t: Tree, changed: set<string>, commits: string -> string, plan: Plan)
    requires PlanFor(t, changed, commits, plan)
    requires forall x :: x in plan.order ==> x in t.mods && x in plan.next
    ensures ClosedUnderDependents(GraphOf(ApplyTo(t, plan, plan.order).mods), plan.next.Keys)
  {
    ApplyKeepsGraph(t, changed, commits, plan);
  }

  lemma PlannedNeed(t: Tree, changed: set<string>, commits: string -> string, plan: Plan, d: string, e: string)
    requires PlanFor(t, changed, commits, plan) && d in plan.next
    requires forall x :: x in plan.order ==> x in t.mods && x in plan.next
    requires e in GraphOf(t.mods)[d] * plan.next.Keys
    ensures NeedMatches(ApplyTo(t, plan, plan.order), plan.next, d, e)
  {
    PlanOrder(t, changed, commits, plan);
    ApplyToModule(t, plan, plan.order, d);
    ApplyKeepsModule(t, changed, commits, plan, e);
    EditSets(t.mods, plan.next, PlannedDeps(t, plan, d), t.mods[d], e);
  }

  lemma PlannedModule(t: Tree, changed: set<string>, commits: string -> string, plan: Plan, d: string)
    requires PlanFor(t, changed, commits, plan) && d in plan.next
    requires forall x :: x in plan.order ==> x in t.mods && x in plan.next
    ensures ModuleReleasable(ApplyTo(t, plan, plan.order), plan.next, d) <==> NoLocalOverride(t.mods, d)
  {
    ApplyKeepsGraph(t, changed, commits, plan);
    var t' := ApplyTo(t, plan, plan.order);
    forall e | e in t.mods ensures t'.mods[e].path == t.mods[e].path { ApplyKeepsModule(t, changed, commits, plan, e); }
    ApplyKeepsModule(t, changed, commits, plan, d);
    forall e | e in GraphOf(t'.mods)[d] * plan.next.Keys ensures NeedMatches(t', plan.next, d, e) {
      PlannedNeed(t, changed, commits, plan, d, e);
    }
  }

  // ----------------------------------------------------------- a plan refused

  /** A module that requires another and replaces it by its local directory. */
  function ReplacingTree(version: string): Tree {
    Tree(map["a" := GoMod("m/a", map["m/b" := version], {"m/b"}), "b" := GoMod("m/b", map[], {})],
         map["a" := version, "b" := version])
  }

  lemma ReplacingGraph(t: Tree, version: string)
    requires t == ReplacingTree(version)
    ensures DistinctPaths(t.mods) && GraphOf(t.mods).Keys == {"a", "b"}
    ensures GraphOf(t.mods)["a"] == {"b"} && GraphOf(t.mods)["b"] == {}
  {
    assert "m/a"[2] != "m/b"[2];
    assert t.mods["a"].path == "m/a" && t.mods["b"].path == "m/b";
    assert t.mods.Keys == {"a", "b"};
  }

  lemma OneModule(g: Graph, one: set<string>)
    requires one == {"a"} && g.Keys == {"a", "b"} && g["a"] == {"b"} && g["b"] == {}
    ensures IsClosure(g, one, one) && Layers(Pending(g, one)) == Some(["a"])
  {
    OneLayer(Pending(g, one), one);
  }

  lemma OneLayer(p: Graph, one: set<string>)
    requires one == {"a"} && p.Keys == one && p["a"] == {}
    ensures Layers(p) == Some(["a"])
  {
    assert "a" in p && Ready(p) == one;
    var none := Without(p, one);
    assert none == map[] && Layers(none) == Some([]);
    var ids := Lex.Sorted(one);
    assert |ids| == 1 && ids[0] in ids;
    assert ids == ["a"] && ids + [] == ids;
  }

  /** Whatever its commits say, a change of that module gives a plan, and the plan
      applied is refused. */
  lemma ReplaceIsRefused(t: Tree, version: string, commits: string -> string, one: set<string>) returns (plan: Plan)
    requires Parse(version).Some? && t == ReplacingTree(version) && one == {"a"}
    ensures PlanFor(t, one, commits, plan) && forall d :: d in plan.order ==> d in t.mods && d in plan.next
    ensures !Releasable(ApplyTo(t, plan, plan.order), plan.next)
  {
    plan := ReplacingPlan(t, version, commits, one);
    PlanIsReleasable(t, one, commits, plan);
    assert t.mods["b"].path in t.mods["a"].overrides;
    assert !NoLocalOverride(t.mods, "a");
  }

  lemma ReplacingIsGood(t: Tree, version: string)
    requires Parse(version).Some? && t == ReplacingTree(version)
    ensures GoodTree(t) && t.versions["a"] == version
  {
    ReplacingGraph(t, version);
    assert t.mods.Keys == t.versions.Keys;
  }

  lemma ReplacingPlan(t: Tree, version: string, commits: string -> string, one: set<string>) returns (plan: Plan)
    requires Parse(version).Some? && t == ReplacingTree(version) && one == {"a"}
    ensures PlanFor(t, one, commits, plan) && "a" in plan.next
  {
    ReplacingGraph(t, version);
    ReplacingIsGood(t, version);
    plan := PlanOfOne(t, GraphOf(t.mods), version, commits, one);
  }

  lemma PlanOfOne(t: Tree, g: Graph, version: string, commits: string -> string, one: set<string>)
    returns (plan: Plan)
    requires GoodTree(t) && g == GraphOf(t.mods) && Parse(version).Some? && one == {"a"}
    requires g.Keys == {"a", "b"} && g["a"] == {"b"} && g["b"] == {} && t.versions["a"] == version
    ensures PlanFor(t, one, commits, plan) && "a" in plan.next
  {
    var order := ["a"];
    var next := OneBump(t.versions, version, commits, one, order);
    plan := Plan(order, next, map d | d in one :: ReasonsFor(g, one, one, d));
    OneModule(g, one);
    assert Lists(order, one);
    PlanAssembles(t, one, commits, one, plan);
  }

  lemma Bump(version: string, level: string) returns (v: string)
    requires Parse(version).Some? && KnownLevel(level)
    ensures BumpVersion(version, level) == Some(v)
  {
    BumpIncreases(version, level);
    v := BumpVersion(version, level).value;
  }

  lemma OneBump(versions: map<string, string>, version: string, commits: string -> string, one: set<string>,
                order: seq<string>) returns (next: map<string, string>)
    requires Parse(version).Some? && "a" in versions && versions["a"] == version && order == ["a"]
    ensures next.Keys == {"a"} && Bumped(versions, one, commits, order, next)
  {
    var v := Bump(version, LevelFor(one, commits, "a"));
    next := map["a" := v];
    assert IsNext(versions, one, commits, "a", v);
  }
}
