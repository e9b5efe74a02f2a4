/** pkg/state/state.go: versioned agent state over composite keys. */
module StateStore {
  import opened Keys
  import Lex

  datatype Triple = Triple(scope: Text, owner: Text, key: Text)

  datatype Entry = Entry(at: Triple, value: Bytes, version: nat, updatedAt: int)

  datatype Error = InvalidScope | NotFound | Conflict

  datatype Result<+T> = Ok(value: T) | Err(error: Error)

  predicate ValidScope(scope: Bytes) {
    scope == "agent" || scope == "user" || scope == "row"
  }

  function KeyOf(t: Triple): Bytes {
    Key([t.scope, t.owner, t.key])
  }

  lemma KeyOfInjective(t: Triple, u: Triple)
    requires KeyOf(t) == KeyOf(u)
    ensures t == u
  {
    var p, q := [t.scope, t.owner, t.key], [u.scope, u.owner, u.key];
    KeyInjective(p, q);
    assert p[0] == q[0] && p[1] == q[1] && p[2] == q[2];
  }

  // ----------------------------------------------------- the abstract object

  datatype Cell = Cell(value: Bytes, version: nat)

  type Cells = map<Triple, Cell>

  datatype Op =
    | Put(at: Triple, value: Bytes)
    | Cas(at: Triple, base: int, value: Bytes)
    | Delete(at: Triple)

  /** One write on the abstract map: the new map, and the version written or
      the error. Deleting reports version 0. */
  function Apply(m: Cells, op: Op): (r: (Cells, Result<nat>)) {
    if !ValidScope(op.at.scope) then (m, Err(InvalidScope))
    else
      match op
      case Put(t, v) =>
        var next := if t in m then m[t].version + 1 else 1;
        (m[t := Cell(v, next)], Ok(next))
      case Cas(t, base, v) =>
        if t !in m then
          if base != 0 then (m, Err(Conflict)) else (m[t := Cell(v, 1)], Ok(1))
        else if m[t].version != base then (m, Err(Conflict))
        else (m[t := Cell(v, m[t].version + 1)], Ok(m[t].version + 1))
      case Delete(t) => (m - {t}, Ok(0))
  }

  // ------------------------------------------------------------ the Go object

  class BoltStore {
    var cells: map<string, Entry>
    ghost var model: Cells

    /** Every stored entry sits under the composite key of its own triple. */
    ghost predicate Valid()
      reads this
    {
      && (forall k :: k in cells ==> k == KeyOf(cells[k].at) && ValidScope(cells[k].at.scope) && cells[k].version >= 1)
      && (forall t :: t in model <==> KeyOf(t) in cells && cells[KeyOf(t)].at == t)
      && (forall t :: t in model ==> model[t] == Cell(cells[KeyOf(t)].value, cells[KeyOf(t)].version))
    }

    constructor ()
      ensures Valid() && model == map[]
    {
      cells, model := map[], map[];
    }

    method Get(t: Triple) returns (r: Result<Entry>)
      requires Valid()
      ensures !ValidScope(t.scope) ==> r == Err(InvalidScope)
      ensures ValidScope(t.scope) && t !in model ==> r == Err(NotFound)
      ensures ValidScope(t.scope) && t in model ==>
                r.Ok? && r.value.at == t && Cell(r.value.value, r.value.version) == model[t]
      ensures r.Ok? ==> KeyOf(t) in cells && r.value == cells[KeyOf(t)] && r.value.version >= 1
    {
      if !ValidScope(t.scope) {
        return Err(InvalidScope);
      }
      var k := CompositeKeyOf(t);
      if k !in cells {
        return Err(NotFound);
      }
      KeyOfInjective(t, cells[k].at);
      return Ok(cells[k]);
    }

    static method CompositeKeyOf(t: Triple) returns (k: Bytes)
      ensures k == KeyOf(t)
    {
      k := CompositeKey([t.scope, t.owner, t.key]);
    }

    /** Writing one cell changes that triple and no other. */
    method Write(e: Entry)
      requires Valid() && ValidScope(e.at.scope) && e.version >= 1
      modifies this
      ensures Valid() && model == old(model)[e.at := Cell(e.value, e.version)]
    {
      var k := CompositeKeyOf(e.at);
      cells := cells[k := e];
      model := model[e.at := Cell(e.value, e.version)];
      forall t | KeyOf(t) == k ensures t == e.at { KeyOfInjective(t, e.at); }
    }

    method Put(t: Triple, value: Bytes, now: int) returns (r: Result<Entry>)
      requires Valid()
      modifies this
      ensures Valid() && model == Apply(old(model), Op.Put(t, value)).0
      ensures Reports(r, Apply(old(model), Op.Put(t, value)).1, t, value, now)
    {
      if !ValidScope(t.scope) {
        return Err(InvalidScope);
      }
      var existing := Get(t);
      var next := 1;
      if existing.Ok? {
        next := existing.value.version + 1;
      }
      var e := Entry(t, value, next, now);
      Write(e);
      return Ok(e);
    }

    method CompareAndSwap(t: Triple, base: int, value: Bytes, now: int) returns (r: Result<Entry>)
      requires Valid()
      modifies this
      ensures Valid() && model == Apply(old(model), Cas(t, base, value)).0
      ensures Reports(r, Apply(old(model), Cas(t, base, value)).1, t, value, now)
    {
      if !ValidScope(t.scope) {
        return Err(InvalidScope);
      }
      var existing := Get(t);
      if existing.Err? {
        if base != 0 {
          return Err(Conflict);
        }
        var e := Entry(t, value, 1, now);
        Write(e);
        return Ok(e);
      }
      if existing.value.version != base {
        return Err(Conflict);
      }
      var e := Entry(t, value, existing.value.version + 1, now);
      Write(e);
      return Ok(e);
    }

    method Delete(t: Triple) returns (r: Result<()>)
      requires Valid()
      modifies this
      ensures Valid() && model == Apply(old(model), Op.Delete(t)).0
      ensures r == if ValidScope(t.scope) then Ok(()) else Err(InvalidScope)
    {
      if !ValidScope(t.scope) {
        return Err(InvalidScope);
      }
      var k := CompositeKeyOf(t);
      cells := cells - {k};
      model := model - {t};
      forall u | KeyOf(u) == k ensures u == t { KeyOfInjective(u, t); }
      return Ok(());
    }

    method List(scope: Bytes, owner: Bytes, prefix: Bytes) returns (r: Result<seq<Entry>>)
      requires Valid()
      ensures r == if ValidScope(scope) then Ok(Listing(cells, Lex.Sorted(cells.Keys), scope, owner, prefix))
                   else Err(InvalidScope)
    {
      if !ValidScope(scope) {
        return Err(InvalidScope);
      }
      var pairs := Lex.Sorted(cells.Keys);
      var out: seq<Entry> := [];
      for i := 0 to |pairs|
        invariant out == Listing(cells, pairs[..i], scope, owner, prefix)
      {
        ListingAppends(cells, pairs, i, scope, owner, prefix);
        assert pairs[i] in pairs;
        var e := cells[pairs[i]];
        if e.at.scope == scope && e.at.owner == owner && (prefix == [] || prefix <= e.at.key) {
          out := out + [e];
        }
      }
      assert pairs[..|pairs|] == pairs;
      return Ok(out);
    }

    /** A listing holds exactly the cells of its scope and owner whose key has
        the prefix, each once, in the byte order of their composite keys. */
    lemma ListIsExact(scope: Bytes, owner: Bytes, prefix: Bytes)
      requires Valid()
      ensures var out := Listing(cells, Lex.Sorted(cells.Keys), scope, owner, prefix);
        && (forall t, v, n ::
              (exists e :: e in out && e.at == t && e.value == v && e.version == n)
              <==> t in model && Wanted(t, scope, owner, prefix) && model[t] == Cell(v, n))
        && (forall i, j :: 0 <= i < j < |out| ==> out[i].at != out[j].at)
        && (forall i, j :: 0 <= i < j < |out| ==> Lex.Less(KeyOf(out[i].at), KeyOf(out[j].at)))
    {
      var keys := Lex.Sorted(cells.Keys);
      var out := Listing(cells, keys, scope, owner, prefix);
      assert DistinctKeys(keys) by {
        forall i, j | 0 <= i < j < |keys| ensures keys[i] != keys[j] { Lex.Asymmetric(keys[i], keys[j]); }
      }
      forall k | k in keys ensures k in cells && k == KeyOf(cells[k].at) { assert k in cells.Keys; }
      ListingExact(cells, keys, scope, owner, prefix);
      ListingInOrder(cells, keys, scope, owner, prefix);
      forall t, v, n
        ensures (exists e :: e in out && e.at == t && e.value == v && e.version == n)
                <==> t in model && Wanted(t, scope, owner, prefix) && model[t] == Cell(v, n)
      {
        if t in model && Wanted(t, scope, owner, prefix) && model[t] == Cell(v, n) {
          assert KeyOf(t) in keys;
          assert cells[KeyOf(t)] in out;
        }
      }
    }
  }

  predicate Wanted(t: Triple, scope: Bytes, owner: Bytes, prefix: Bytes) {
    t.scope == scope && t.owner == owner && prefix <= t.key
  }

  ghost predicate DistinctKeys(keys: seq<string>) {
    forall i, j :: 0 <= i < j < |keys| ==> keys[i] != keys[j]
  }

  /** The wanted entries among `keys`, in that order. */
  function Listing(cells: map<string, Entry>, keys: seq<string>, scope: Bytes, owner: Bytes, prefix: Bytes): seq<Entry>
    requires forall k :: k in keys ==> k in cells
  {
    if keys == [] then []
    else
      var e := cells[keys[|keys| - 1]];
      Listing(cells, keys[..|keys| - 1], scope, owner, prefix) +
        (if Wanted(e.at, scope, owner, prefix) then [e] else [])
  }

  lemma ListingAppends(cells: map<string, Entry>, keys: seq<string>, i: nat, scope: Bytes, owner: Bytes, prefix: Bytes)
    requires i < |keys| && forall k :: k in keys ==> k in cells
    ensures forall k :: k in keys[..i + 1] ==> k in cells
    ensures keys[i] in cells && Listing(cells, keys[..i + 1], scope, owner, prefix)
      == Listing(cells, keys[..i], scope, owner, prefix) +
        (if Wanted(cells[keys[i]].at, scope, owner, prefix) then [cells[keys[i]]] else [])
  {
    assert keys[..i + 1][..i] == keys[..i] && keys[..i + 1][i] == keys[i] && keys[i] in keys;
  }

  lemma {:induction false} ListingExact(cells: map<string, Entry>, keys: seq<string>, scope: Bytes, owner: Bytes,
                                        prefix: Bytes)
    requires DistinctKeys(keys)
    requires forall k :: k in keys ==> k in cells && k == KeyOf(cells[k].at)
    ensures var out := Listing(cells, keys, scope, owner, prefix);
      && (forall e :: e in out <==>
            KeyOf(e.at) in keys && cells[KeyOf(e.at)] == e && Wanted(e.at, scope, owner, prefix))
      && (forall i, j :: 0 <= i < j < |out| ==> out[i].at != out[j].at)
  {
    if keys != [] {
      var init, k := keys[..|keys| - 1], keys[|keys| - 1];
      ListingExact(cells, init, scope, owner, prefix);
      assert keys == init + [k];
      assert k !in init;
      assert k in keys;
    }
  }

  lemma BehindAll(keys: seq<string>, key: string)
    requires keys != [] && Lex.Ascending(keys) && key in keys[..|keys| - 1]
    ensures Lex.Less(key, keys[|keys| - 1])
  {
    var m :| 0 <= m < |keys| - 1 && keys[..|keys| - 1][m] == key;
    assert keys[m] == key;
  }

  lemma {:induction false} ListingInOrder(cells: map<string, Entry>, keys: seq<string>, scope: Bytes, owner: Bytes,
                                          prefix: Bytes)
    requires Lex.Ascending(keys) && forall k :: k in keys ==> k in cells && k == KeyOf(cells[k].at)
    ensures var out := Listing(cells, keys, scope, owner, prefix);
      && (forall e :: e in out ==> KeyOf(e.at) in keys)
      && (forall i, j :: 0 <= i < j < |out| ==> Lex.Less(KeyOf(out[i].at), KeyOf(out[j].at)))
  {
    if keys != [] {
      var init, k := keys[..|keys| - 1], keys[|keys| - 1];
      ListingInOrder(cells, init, scope, owner, prefix);
      assert keys == init + [k] && k in keys;
      var out, all := Listing(cells, init, scope, owner, prefix), Listing(cells, keys, scope, owner, prefix);
      assert all == out + (if Wanted(cells[k].at, scope, owner, prefix) then [cells[k]] else []);
      forall i | 0 <= i < |out| ensures Lex.Less(KeyOf(out[i].at), k) {
        assert out[i] in out;
        BehindAll(keys, KeyOf(out[i].at));
      }
      forall i, j | 0 <= i < j < |all| ensures Lex.Less(KeyOf(all[i].at), KeyOf(all[j].at)) {
        assert all[i] == out[i];
        assert j < |out| ==> all[j] == out[j];
      }
    }
  }

  /** The entry a write returns matches what the abstract write reports. */
  ghost predicate Reports(r: Result<Entry>, spec: Result<nat>, t: Triple, value: Bytes, now: int) {
    match spec
    case Ok(version) => r == Ok(Entry(t, value, version, now))
    case Err(e) => r == Err(e)
  }

  // ------------------------------------------------------ whole histories

  function Run(m: Cells, ops: seq<Op>): Cells {
    if ops == [] then m else Apply(Run(m, ops[..|ops| - 1]), ops[|ops| - 1]).0
  }

  /** Whether the i-th write of a history that starts empty succeeds. */
  predicate Succeeds(ops: seq<Op>, i: nat)
    requires i < |ops|
  {
    Apply(Run(map[], ops[..i]), ops[i]).1.Ok?
  }

  /** How many writes to `t` succeeded since the history began or `t` was last
      deleted, read off the operations' own results. */
  function WritesSince(ops: seq<Op>, t: Triple): nat {
    if ops == [] then 0
    else
      var last, before := ops[|ops| - 1], ops[..|ops| - 1];
      if last.at != t || !Succeeds(ops, |ops| - 1) then WritesSince(before, t)
      else if last.Delete? then 0
      else WritesSince(before, t) + 1
  }

  lemma {:induction false} VersionCountsWrites(ops: seq<Op>, t: Triple)
    ensures t in Run(map[], ops) <==> WritesSince(ops, t) > 0
    ensures t in Run(map[], ops) ==> Run(map[], ops)[t].version == WritesSince(ops, t)
  {
    if ops != [] {
      VersionCountsWrites(ops[..|ops| - 1], t);
    }
  }

  predicate Known(scope: Bytes) {
    scope in {"agent", "user", "row"}
  }

  /** A compare-and-swap names the number of writes that came before it. */
  predicate Fresh(ops: seq<Op>, i: nat)
    requires i < |ops|
  {
    ops[i].Cas? ==> ops[i].base == WritesSince(ops[..i], ops[i].at)
  }

  /** Which writes succeed: those in a known scope, and of the compare-and-swaps
      those whose base is the number of writes since the triple was last absent. */
  lemma SuccessIsExact(ops: seq<Op>, i: nat)
    requires i < |ops|
    ensures Succeeds(ops, i) <==> Known(ops[i].at.scope) && Fresh(ops, i)
  {
    VersionCountsWrites(ops[..i], ops[i].at);
  }

  /** The i-th write succeeded, and no later one to its triple did. */
  predicate LastWrite(ops: seq<Op>, i: nat, t: Triple) {
    && i < |ops| && ops[i].at == t && !ops[i].Delete? && Succeeds(ops, i)
    && forall j :: i < j < |ops| && ops[j].at == t ==> !Succeeds(ops, j)
  }

  /** What a triple holds is the value of the last write to it that succeeded. */
  lemma {:induction false} LastWriteWins(ops: seq<Op>, t: Triple) returns (i: nat)
    requires t in Run(map[], ops)
    ensures LastWrite(ops, i, t) && Run(map[], ops)[t].value == ops[i].value
  {
    var n := |ops| - 1;
    var init := ops[..n];
    assert forall j :: 0 <= j < n ==> init[..j] == ops[..j];
    if ops[n].at == t && Succeeds(ops, n) {
      i := n;
    } else {
      i := LastWriteWins(init, t);
      assert forall j :: 0 <= j < n ==> (Succeeds(init, j) <==> Succeeds(ops, j));
    }
  }

  /** Without a delete in between, a triple's version never goes down. */
  lemma {:induction false} VersionsGrow(ops: seq<Op>, i: nat, j: nat, t: Triple)
    requires i <= j <= |ops|
    requires forall k :: i <= k < j ==> ops[k] != Delete(t)
    requires t in Run(map[], ops[..i])
    ensures t in Run(map[], ops[..j])
    ensures Run(map[], ops[..j])[t].version >= Run(map[], ops[..i])[t].version
    decreases j
  {
    if i < j {
      VersionsGrow(ops, i, j - 1, t);
      assert ops[..j][..j - 1] == ops[..j - 1];
    }
  }

  /** Two compare-and-swaps on one triple with the same base version never both
      succeed unless the triple was deleted between them. */
  lemma CasExcludesCas(ops: seq<Op>, i: nat, j: nat, t: Triple)
    requires i < j < |ops|
    requires ops[i].Cas? && ops[j].Cas? && ops[i].at == ops[j].at == t && ops[i].base == ops[j].base
    requires Succeeds(ops, i) && Succeeds(ops, j)
    ensures exists k :: i < k < j && ops[k] == Delete(t)
  {
    if forall k :: i < k < j ==> ops[k] != Delete(t) {
      assert ops[..i + 1][..i] == ops[..i];
      assert t in Run(map[], ops[..i + 1]);
      VersionCountsWrites(ops[..i], t);
      VersionsGrow(ops, i + 1, j, t);
      assert false;
    }
  }

  /** A write to one triple leaves every other triple as it was. */
  lemma WritesAreIndependent(m: Cells, op: Op, u: Triple)
    requires u != op.at
    ensures u in Apply(m, op).0 <==> u in m
    ensures u in m ==> Apply(m, op).0[u] == m[u]
  {
  }
}
