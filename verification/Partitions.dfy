/** Round-robin interleaving of a list by the partition each element belongs to:
    the theory behind interleaving candidate rows. */
module Partitions {

  predicate Distinct<K(==)>(s: seq<K>) {
    forall i, j :: 0 <= i < j < |s| ==> s[i] != s[j]
  }

  function Take<R>(s: seq<R>, n: nat): seq<R> {
    if |s| > n then s[..n] else s
  }

  /** The elements of one partition, in order. */
  function Of<R, K(==)>(rows: seq<R>, part: R -> K, value: K): (r: seq<R>)
    ensures |r| <= |rows|
  {
    if rows == [] then []
    else
      var last := rows[|rows| - 1];
      Of(rows[..|rows| - 1], part, value) + if part(last) == value then [last] else []
  }

  /** The elements of no listed partition, in order. */
  function Others<R, K(==)>(rows: seq<R>, part: R -> K, values: seq<K>): seq<R> {
    if rows == [] then []
    else
      var last := rows[|rows| - 1];
      Others(rows[..|rows| - 1], part, values) + if part(last) !in values then [last] else []
  }

  /** The k-th element of every listed partition that has one. */
  function Round<R, K(==)>(rows: seq<R>, part: R -> K, values: seq<K>, k: nat): seq<R> {
    if values == [] then []
    else
      var last := Of(rows, part, values[|values| - 1]);
      Round(rows, part, values[..|values| - 1], k) + if k < |last| then [last[k]] else []
  }

  /** The first k of a list of lists, joined. */
  function Cat<R>(f: nat -> seq<R>, k: nat): seq<R> {
    if k == 0 then [] else Cat(f, k - 1) + f(k - 1)
  }

  function RoundOf<R, K(==)>(rows: seq<R>, part: R -> K, values: seq<K>): nat -> seq<R> {
    (k: nat) => Round(rows, part, values, k)
  }

  function Rounds<R, K(==)>(rows: seq<R>, part: R -> K, values: seq<K>, k: nat): seq<R> {
    Cat(RoundOf(rows, part, values), k)
  }

  function Interleaved<R, K(==)>(rows: seq<R>, part: R -> K, values: seq<K>): seq<R> {
    Rounds(rows, part, values, |rows|) + Others(rows, part, values)
  }

  // ----------------------------------------------------------------- filtering

  lemma {:induction false} OfHolds<R, K>(rows: seq<R>, part: R -> K, v: K, row: R)
    requires row in Of(rows, part, v)
    ensures row in rows && part(row) == v
  {
    var init := rows[..|rows| - 1];
    assert rows == init + [rows[|rows| - 1]];
    if row in Of(init, part, v) { OfHolds(init, part, v, row); }
  }

  lemma {:induction false} OthersHold<R, K>(rows: seq<R>, part: R -> K, values: seq<K>, row: R)
    requires row in Others(rows, part, values)
    ensures row in rows && part(row) !in values
  {
    var init := rows[..|rows| - 1];
    assert rows == init + [rows[|rows| - 1]];
    if row in Others(init, part, values) { OthersHold(init, part, values, row); }
  }

  lemma {:induction false} OfConcat<R, K>(s: seq<R>, t: seq<R>, part: R -> K, v: K)
    ensures Of(s + t, part, v) == Of(s, part, v) + Of(t, part, v)
    decreases |t|
  {
    if t == [] {
      assert s + t == s;
    } else {
      var init := t[..|t| - 1];
      OfConcat(s, init, part, v);
      assert (s + t)[..|s + t| - 1] == s + init;
    }
  }

  lemma {:induction false} OthersConcat<R, K>(s: seq<R>, t: seq<R>, part: R -> K, values: seq<K>)
    ensures Others(s + t, part, values) == Others(s, part, values) + Others(t, part, values)
    decreases |t|
  {
    if t == [] {
      assert s + t == s;
    } else {
      var init := t[..|t| - 1];
      OthersConcat(s, init, part, values);
      assert (s + t)[..|s + t| - 1] == s + init;
    }
  }

  lemma {:induction false} NoneOf<R, K>(s: seq<R>, part: R -> K, v: K)
    requires forall row :: row in s ==> part(row) != v
    ensures Of(s, part, v) == []
  {
    if s != [] { NoneOf(s[..|s| - 1], part, v); }
  }

  lemma {:induction false} NoOthers<R, K>(s: seq<R>, part: R -> K, values: seq<K>)
    requires forall row :: row in s ==> part(row) in values
    ensures Others(s, part, values) == []
  {
    if s != [] { NoOthers(s[..|s| - 1], part, values); }
  }

  lemma {:induction false} AllOthers<R, K>(s: seq<R>, part: R -> K, values: seq<K>)
    requires forall row :: row in s ==> part(row) !in values
    ensures Others(s, part, values) == s
  {
    if s != [] {
      AllOthers(s[..|s| - 1], part, values);
      assert s == s[..|s| - 1] + [s[|s| - 1]];
    }
  }

  lemma OfAppends<R, K>(rows: seq<R>, part: R -> K, i: nat, v: K)
    requires i < |rows|
    ensures Of(rows[..i + 1], part, v) == Of(rows[..i], part, v) + if part(rows[i]) == v then [rows[i]] else []
  {
    assert rows[..i + 1][..i] == rows[..i] && rows[..i + 1][i] == rows[i];
  }

  lemma OthersAppends<R, K>(rows: seq<R>, part: R -> K, values: seq<K>, i: nat)
    requires i < |rows|
    ensures Others(rows[..i + 1], part, values) ==
            Others(rows[..i], part, values) + if part(rows[i]) !in values then [rows[i]] else []
  {
    assert rows[..i + 1][..i] == rows[..i] && rows[..i + 1][i] == rows[i];
  }

  // -------------------------------------------------------------------- rounds

  lemma RoundAppends<R, K>(rows: seq<R>, part: R -> K, values: seq<K>, j: nat, k: nat)
    requires j < |values|
    ensures var bucket := Of(rows, part, values[j]);
      && Round(rows, part, values[..j + 1], k) ==
           Round(rows, part, values[..j], k) + (if k < |bucket| then [bucket[k]] else [])
      && (Round(rows, part, values[..j + 1], k) != [] <==> Round(rows, part, values[..j], k) != [] || k < |bucket|)
      && |bucket| <= |rows|
  {
    assert values[..j + 1][..j] == values[..j] && values[..j + 1][j] == values[j];
  }

  lemma {:induction false} EmptyRound<R, K>(rows: seq<R>, part: R -> K, values: seq<K>, k: nat, m: nat)
    requires k <= m && Round(rows, part, values, k) == []
    ensures Round(rows, part, values, m) == []
    decreases |values|
  {
    if values != [] {
      EmptyRound(rows, part, values[..|values| - 1], k, m);
    }
  }

  lemma {:induction false} CatEnds<R>(f: nat -> seq<R>, k: nat, n: nat)
    requires k <= n && forall m: nat :: k <= m < n ==> f(m) == []
    ensures Cat(f, n) == Cat(f, k)
    decreases n
  {
    if k < n { CatEnds(f, k, n - 1); }
  }

  /** Once a round adds nothing, no later round does. */
  lemma RoundsEnd<R, K>(rows: seq<R>, part: R -> K, values: seq<K>, k: nat, n: nat)
    requires k <= n && Round(rows, part, values, k) == []
    ensures Rounds(rows, part, values, n) == Rounds(rows, part, values, k)
  {
    var f := RoundOf(rows, part, values);
    forall m: nat | k <= m < n ensures f(m) == [] { EmptyRound(rows, part, values, k, m); }
    CatEnds(f, k, n);
  }

  lemma RoundsStep<R, K>(rows: seq<R>, part: R -> K, values: seq<K>, k: nat)
    ensures Rounds(rows, part, values, 0) == []
    ensures Rounds(rows, part, values, k + 1) == Rounds(rows, part, values, k) + Round(rows, part, values, k)
  {
  }

  lemma {:induction false} RoundHolds<R, K>(rows: seq<R>, part: R -> K, values: seq<K>, k: nat, row: R)
    requires row in Round(rows, part, values, k)
    ensures row in rows && part(row) in values
    decreases |values|
  {
    var init, last := values[..|values| - 1], values[|values| - 1];
    assert last in values;
    if row in Round(rows, part, init, k) {
      RoundHolds(rows, part, init, k, row);
      assert values == init + [last];
    } else {
      OfHolds(rows, part, last, row);
    }
  }

  lemma {:induction false} CatHolds<R>(f: nat -> seq<R>, k: nat, x: R) returns (m: nat)
    requires x in Cat(f, k)
    ensures m < k && x in f(m)
    decreases k
  {
    if x in Cat(f, k - 1) {
      m := CatHolds(f, k - 1, x);
    } else {
      m := k - 1;
    }
  }

  lemma RoundsHold<R, K>(rows: seq<R>, part: R -> K, values: seq<K>, k: nat, row: R)
    requires row in Rounds(rows, part, values, k)
    ensures row in rows && part(row) in values
  {
    var m := CatHolds(RoundOf(rows, part, values), k, row);
    RoundHolds(rows, part, values, m, row);
  }

  /** One round takes from each of its partitions exactly the k-th element. */
  lemma {:induction false} OfRound<R, K>(rows: seq<R>, part: R -> K, values: seq<K>, k: nat, v: K)
    requires Distinct(values)
    ensures Of(Round(rows, part, values, k), part, v)
            == if v in values && k < |Of(rows, part, v)| then [Of(rows, part, v)[k]] else []
    decreases |values|
  {
    if values != [] {
      var init, last := values[..|values| - 1], values[|values| - 1];
      OfRound(rows, part, init, k, v);
      assert values == init + [last];
      assert last !in init;
      var bucket := Of(rows, part, last);
      if k < |bucket| {
        OfHolds(rows, part, last, bucket[k]);
        OfConcat(Round(rows, part, init, k), [bucket[k]], part, v);
        OfSingle(bucket[k], part, v);
      } else {
        assert Round(rows, part, init, k) + [] == Round(rows, part, init, k);
      }
    }
  }

  lemma OfSingle<R, K>(x: R, part: R -> K, v: K)
    ensures Of([x], part, v) == if part(x) == v then [x] else []
  {
    assert [x][..0] == [];
  }

  // ------------------------------------------------------------ partial rounds

  /** The first k rounds and the first j partitions of the next one. */
  function Partial<R, K(==)>(rows: seq<R>, part: R -> K, values: seq<K>, k: nat, j: nat): seq<R>
    requires j <= |values|
  {
    Rounds(rows, part, values, k) + Round(rows, part, values[..j], k)
  }

  lemma OfNext<R, K>(a: seq<R>, b: seq<R>, part: R -> K, v: K, bucket: seq<R>, k: nat, taken: bool)
    requires Of(a, part, v) == Take(bucket, k)
    requires Of(b, part, v) == if taken && k < |bucket| then [bucket[k]] else []
    ensures Of(a + b, part, v) == Take(bucket, k + if taken then 1 else 0)
  {
    OfConcat(a, b, part, v);
    TakeNext(bucket, k, taken);
  }

  lemma TakeNext<R>(bucket: seq<R>, k: nat, taken: bool)
    ensures Take(bucket, k) + (if taken && k < |bucket| then [bucket[k]] else []) ==
        Take(bucket, k + if taken then 1 else 0)
  {
  }

  ghost predicate Takes<R, K>(f: nat -> seq<R>, part: R -> K, v: K, bucket: seq<R>, m: nat) {
    Of(f(m), part, v) == if m < |bucket| then [bucket[m]] else []
  }

  ghost predicate AllTake<R, K>(f: nat -> seq<R>, part: R -> K, v: K, bucket: seq<R>, k: nat) {
    forall m: nat :: m < k ==> Takes(f, part, v, bucket, m)
  }

  lemma {:induction false} OfCat<R, K>(f: nat -> seq<R>, part: R -> K, v: K, bucket: seq<R>, k: nat)
    requires AllTake(f, part, v, bucket, k)
    ensures Of(Cat(f, k), part, v) == Take(bucket, k)
    decreases k
  {
    if k == 0 {
      OfCatZero(f, part, v, bucket);
    } else {
      var n: nat := k - 1;
      assert Takes(f, part, v, bucket, n);
      OfCat(f, part, v, bucket, n);
      OfCatStep(f, part, v, bucket, n);
    }
  }

  lemma OfCatZero<R, K>(f: nat -> seq<R>, part: R -> K, v: K, bucket: seq<R>)
    ensures Of(Cat(f, 0), part, v) == Take(bucket, 0)
  {
    assert Cat(f, 0) == [] && Take(bucket, 0) == [];
  }

  lemma OfCatStep<R, K>(f: nat -> seq<R>, part: R -> K, v: K, bucket: seq<R>, k: nat)
    requires Of(Cat(f, k), part, v) == Take(bucket, k)
    requires Takes(f, part, v, bucket, k)
    ensures Of(Cat(f, k + 1), part, v) == Take(bucket, k + 1)
  {
    var a, b := Cat(f, k), f(k);
    assert Cat(f, k + 1) == a + b;
    OfNext(a, b, part, v, bucket, k, true);
  }

  /** After k rounds a partition has given up exactly its first k elements. */
  lemma OfRounds<R, K>(rows: seq<R>, part: R -> K, values: seq<K>, k: nat, v: K)
    requires Distinct(values) && v in values
    ensures Of(Rounds(rows, part, values, k), part, v) == Take(Of(rows, part, v), k)
  {
    var f, bucket := RoundOf(rows, part, values), Of(rows, part, v);
    forall m: nat ensures Takes(f, part, v, bucket, m) {
      OfRound(rows, part, values, m, v);
    }
    OfCat(f, part, v, bucket, k);
  }

  lemma OfRoundsAndFirst<R, K>(rows: seq<R>, part: R -> K, values: seq<K>, first: seq<K>, k: nat, v: K)
    requires Distinct(values) && Distinct(first) && v in values
    ensures Of(Rounds(rows, part, values, k) + Round(rows, part, first, k), part, v)
            == Take(Of(rows, part, v), k + if v in first then 1 else 0)
  {
    OfRounds(rows, part, values, k, v);
    OfRound(rows, part, first, k, v);
    OfNext(Rounds(rows, part, values, k), Round(rows, part, first, k), part, v, Of(rows, part, v), k, v in first);
  }

  lemma OfPartial<R, K>(rows: seq<R>, part: R -> K, values: seq<K>, k: nat, j: nat, v: K)
    requires Distinct(values) && j <= |values| && v in values
    ensures Of(Partial(rows, part, values, k, j), part, v)
            == Take(Of(rows, part, v), k + if v in values[..j] then 1 else 0)
  {
    OfRoundsAndFirst(rows, part, values, values[..j], k, v);
  }

  /** A listed partition that has more than one element less than another is
      exhausted. */
  ghost predicate Balanced<R, K(!new)>(rows: seq<R>, part: R -> K, values: seq<K>, prefix: seq<R>) {
    forall u, v :: u in values && v in values && |Of(prefix, part, u)| + 1 < |Of(prefix, part, v)| ==>
      Of(prefix, part, u) == Of(rows, part, u)
  }

  /** A partition that has fewer elements than one listed after it is exhausted. */
  ghost predicate InTurn<R, K>(rows: seq<R>, part: R -> K, values: seq<K>, prefix: seq<R>) {
    forall i, j :: 0 <= i < j < |values| && |Of(prefix, part, values[i])| < |Of(prefix, part, values[j])| ==>
      Of(prefix, part, values[i]) == Of(rows, part, values[i])
  }

  lemma EarlierIsListed<K>(values: seq<K>, i: nat, m: nat, j: nat)
    requires Distinct(values) && i < m < |values| && j <= |values| && values[m] in values[..j]
    ensures values[i] in values[..j]
  {
    assert m < j;
    assert values[..j][i] == values[i];
  }

  lemma PartialBalanced<R, K(!new)>(rows: seq<R>, part: R -> K, values: seq<K>, k: nat, j: nat)
    requires Distinct(values) && j <= |values|
    ensures Balanced(rows, part, values, Partial(rows, part, values, k, j))
    ensures InTurn(rows, part, values, Partial(rows, part, values, k, j))
  {
    forall i, m | 0 <= i < m < |values| && values[m] in values[..j] ensures values[i] in values[..j] {
      EarlierIsListed(values, i, m, j);
    }
    forall v | v in values
      ensures Of(Partial(rows, part, values, k, j), part, v) ==
          Take(Of(rows, part, v), k + if v in values[..j] then 1 else 0)
    {
      OfPartial(rows, part, values, k, j, v);
    }
  }

  /** Rounds are built one element at a time: each prefix is a partial state. */
  lemma {:induction false} PrefixIsPartial<R, K>(
      rows: seq<R>, part: R -> K, values: seq<K>, k: nat, j: nat, n: nat) returns (k': nat, j': nat)
    requires j <= |values| && n <= |Partial(rows, part, values, k, j)|
    ensures j' <= |values| && Partial(rows, part, values, k', j') == Partial(rows, part, values, k, j)[..n]
    decreases k, j
  {
    var all := Partial(rows, part, values, k, j);
    if n == |all| {
      k', j' := k, j;
      assert all[..n] == all;
    } else {
      var k1, j1 := if j > 0 then k else k - 1, if j > 0 then j - 1 else |values|;
      var less := Partial(rows, part, values, k1, j1);
      assert values[..|values|] == values;
      assert j > 0 ==> values[..j][..j - 1] == values[..j - 1];
      assert less == all[..|less|] && |all| <= |less| + 1;
      k', j' := PrefixIsPartial(rows, part, values, k1, j1, n);
      assert less[..n] == all[..n];
    }
  }

  // ------------------------------------------------------------ the main results

  /** Interleaving keeps every partition's elements and their order... */
  lemma InterleavedKeeps<R, K>(rows: seq<R>, part: R -> K, values: seq<K>, v: K)
    requires Distinct(values) && v in values
    ensures Of(Interleaved(rows, part, values), part, v) == Of(rows, part, v)
  {
    var front, back := Rounds(rows, part, values, |rows|), Others(rows, part, values);
    OfRounds(rows, part, values, |rows|, v);
    OfConcat(front, back, part, v);
    forall row | row in back ensures part(row) != v { OthersHold(rows, part, values, row); }
    NoneOf(back, part, v);
  }

  /** ...and keeps the rest in order... */
  lemma InterleavedRest<R, K>(rows: seq<R>, part: R -> K, values: seq<K>)
    ensures Others(Interleaved(rows, part, values), part, values) == Others(rows, part, values)
  {
    var front, back := Rounds(rows, part, values, |rows|), Others(rows, part, values);
    forall row | row in front ensures part(row) in values { RoundsHold(rows, part, values, |rows|, row); }
    forall row | row in back ensures part(row) !in values { OthersHold(rows, part, values, row); }
    OthersConcat(front, back, part, values);
    NoOthers(front, part, values);
    AllOthers(back, part, values);
    assert [] + back == back;
  }

  /** ...behind everything listed. */
  lemma OthersComeLast<R, K>(rows: seq<R>, part: R -> K, values: seq<K>, i: nat, j: nat)
    requires i < j < |Interleaved(rows, part, values)|
    requires part(Interleaved(rows, part, values)[i]) !in values
    ensures part(Interleaved(rows, part, values)[j]) !in values
  {
    var front, back := Rounds(rows, part, values, |rows|), Others(rows, part, values);
    if i < |front| {
      RoundsHold(rows, part, values, |rows|, front[i]);
    } else {
      OthersHold(rows, part, values, back[j - |front|]);
    }
  }

  /** No prefix of the interleaved list favours a partition. */
  lemma PrefixesAreBalanced<R, K(!new)>(rows: seq<R>, part: R -> K, values: seq<K>, n: nat)
    requires Distinct(values) && n <= |Interleaved(rows, part, values)|
    ensures Balanced(rows, part, values, Interleaved(rows, part, values)[..n])
    ensures InTurn(rows, part, values, Interleaved(rows, part, values)[..n])
  {
    var r := Interleaved(rows, part, values);
    var front, back := Rounds(rows, part, values, |rows|), Others(rows, part, values);
    if n <= |front| {
      assert Partial(rows, part, values, |rows|, 0) == front && r[..n] == front[..n];
      var k, j := PrefixIsPartial(rows, part, values, |rows|, 0, n);
      PartialBalanced(rows, part, values, k, j);
    } else {
      var some := back[..n - |front|];
      assert r[..n] == front + some;
      forall v | v in values ensures Of(r[..n], part, v) == Of(rows, part, v) {
        OfRounds(rows, part, values, |rows|, v);
        OfConcat(front, some, part, v);
        forall row | row in some ensures part(row) != v { OthersHold(rows, part, values, row); }
        NoneOf(some, part, v);
      }
    }
  }

  lemma CountLast<R>(init: seq<R>, last: R, row: R)
    ensures multiset(init + [last])[row] == multiset(init)[row] + if last == row then 1 else 0
  {
    assert multiset(init + [last]) == multiset(init) + multiset{last};
  }

  lemma {:induction false} CountByPartition<R, K>(s: seq<R>, part: R -> K, values: seq<K>, row: R)
    ensures multiset(s)[row] ==
            multiset(if part(row) in values then Of(s, part, part(row)) else Others(s, part, values))[row]
  {
    if s != [] {
      var init, last := s[..|s| - 1], s[|s| - 1];
      CountByPartition(init, part, values, row);
      assert s == init + [last];
      CountLast(init, last, row);
      CountAppends(init, last, part, values, row);
    }
  }

  lemma CountAppends<R, K>(init: seq<R>, last: R, part: R -> K, values: seq<K>, row: R)
    ensures var s := init + [last]; var more := if last == row then 1 else 0;
      && multiset(Of(s, part, part(row)))[row] == multiset(Of(init, part, part(row)))[row] + more
      && (part(row) !in values ==>
            multiset(Others(s, part, values))[row] == multiset(Others(init, part, values))[row] + more)
  {
    var s := init + [last];
    assert s[..|s| - 1] == init && s[|s| - 1] == last;
  }

  /** Interleaving is a permutation. */
  lemma InterleavedIsPermutation<R(!new), K>(rows: seq<R>, part: R -> K, values: seq<K>)
    requires Distinct(values)
    ensures multiset(Interleaved(rows, part, values)) == multiset(rows)
  {
    var r := Interleaved(rows, part, values);
    forall row ensures multiset(r)[row] == multiset(rows)[row] {
      CountByPartition(r, part, values, row);
      CountByPartition(rows, part, values, row);
      InterleavedRest(rows, part, values);
      if part(row) in values { InterleavedKeeps(rows, part, values, part(row)); }
    }
  }
}
