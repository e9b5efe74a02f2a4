/** `sort.Slice` and `sorted`, as far as callers may rely on them: when the
    elements are pairwise comparable the result is the one ascending listing,
    whatever order the input came in. */
module Sorting {

  function Insert<T>(x: T, s: seq<T>, less: (T, T) -> bool): seq<T> {
    if s == [] || less(x, s[0]) then [x] + s else [s[0]] + Insert(x, s[1..], less)
  }

  function Sort<T>(s: seq<T>, less: (T, T) -> bool): seq<T> {
    if s == [] then [] else Insert(s[0], Sort(s[1..], less), less)
  }

  ghost predicate Ascending<T>(s: seq<T>, less: (T, T) -> bool) {
    forall i, j :: 0 <= i < j < |s| ==> less(s[i], s[j]) && !less(s[j], s[i])
  }

  /** Inserting the element missing from an ascending listing puts it back. */
  lemma {:induction false} InsertRestores<T>(t: seq<T>, k: nat, less: (T, T) -> bool)
    requires k < |t| && Ascending(t, less)
    ensures Insert(t[k], t[..k] + t[k + 1..], less) == t
  {
    var s := t[..k] + t[k + 1..];
    if k == 0 {
      assert s == t[1..];
      assert s == [] || less(t[0], s[0]);
      assert t == [t[0]] + t[1..];
    } else {
      assert s[0] == t[0] && !less(t[k], t[0]);
      InsertRestores(t[1..], k - 1, less);
      assert s[1..] == t[1..][..k - 1] + t[1..][k..];
      assert t == [t[0]] + t[1..];
    }
  }

  lemma RemoveAt<T>(t: seq<T>, k: nat)
    requires k < |t|
    ensures multiset(t[..k] + t[k + 1..]) == multiset(t) - multiset{t[k]}
  {
    assert t == t[..k] + [t[k]] + t[k + 1..];
  }

  /** Two places of a listing come from two places of any permutation of it. */
  lemma PermutedPair<T>(s: seq<T>, t: seq<T>, i: nat, j: nat) returns (k: nat, l: nat)
    requires multiset(s) == multiset(t) && i < j < |t|
    ensures k < |s| && l < |s| && k != l && s[k] == t[i] && s[l] == t[j]
  {
    assert t[i] in multiset(s);
    k :| 0 <= k < |s| && s[k] == t[i];
    RemoveAt(s, k);
    RemoveAt(t, i);
    var rest := s[..k] + s[k + 1..];
    assert t[j] == (t[..i] + t[i + 1..])[j - 1];
    assert t[j] in multiset(rest);
    l :| 0 <= l < |rest| && rest[l] == t[j];
    l := if l < k then l else l + 1;
  }

  lemma RemoveAtAscending<T>(t: seq<T>, k: nat, less: (T, T) -> bool)
    requires k < |t| && Ascending(t, less)
    ensures Ascending(t[..k] + t[k + 1..], less)
  {
    var r := t[..k] + t[k + 1..];
    forall i, j | 0 <= i < j < |r| ensures less(r[i], r[j]) && !less(r[j], r[i]) {
      assert r[i] == t[if i < k then i else i + 1] && r[j] == t[if j < k then j else j + 1];
    }
  }

  /** Where the first element of a listing stands in a permutation of it. */
  lemma PlaceOfFirst<T>(s: seq<T>, t: seq<T>) returns (k: nat)
    requires s != [] && multiset(s) == multiset(t)
    ensures k < |t| && t[k] == s[0] && multiset(s[1..]) == multiset(t[..k] + t[k + 1..])
  {
    assert s[0] in multiset(t);
    k :| 0 <= k < |t| && t[k] == s[0];
    RemoveAt(s, 0);
    assert s[..0] + s[1..] == s[1..];
    RemoveAt(t, k);
  }

  /** Any permutation of an ascending listing sorts to that listing. */
  lemma {:induction false} SortIs<T>(s: seq<T>, t: seq<T>, less: (T, T) -> bool)
    requires Ascending(t, less) && multiset(s) == multiset(t)
    ensures Sort(s, less) == t
  {
    if s == [] {
      assert |multiset(t)| == 0;
    } else {
      var k := PlaceOfFirst(s, t);
      RemoveAtAscending(t, k, less);
      SortIs(s[1..], t[..k] + t[k + 1..], less);
      InsertRestores(t, k, less);
    }
  }

  /** Sequences without repetition that hold the same elements are permutations
      of one another. */
  lemma {:induction false} DistinctSame<T>(s: seq<T>, t: seq<T>)
    requires forall i, j :: 0 <= i < j < |s| ==> s[i] != s[j]
    requires forall i, j :: 0 <= i < j < |t| ==> t[i] != t[j]
    requires forall x :: x in s <==> x in t
    ensures multiset(s) == multiset(t)
  {
    forall x ensures multiset(s)[x] == multiset(t)[x] {
      DistinctCount(s, x);
      DistinctCount(t, x);
    }
  }

  lemma {:induction false} DistinctCount<T>(s: seq<T>, x: T)
    requires forall i, j :: 0 <= i < j < |s| ==> s[i] != s[j]
    ensures multiset(s)[x] == if x in s then 1 else 0
  {
    if s != [] {
      DistinctCount(s[1..], x);
      assert s == [s[0]] + s[1..];
      assert multiset(s) == multiset{s[0]} + multiset(s[1..]);
    }
  }

  lemma AscendingDistinct<T>(t: seq<T>, less: (T, T) -> bool)
    requires Ascending(t, less)
    ensures forall i, j :: 0 <= i < j < |t| ==> t[i] != t[j]
  {
  }

  /** Elements listed once each, in whatever order, sort to the ascending listing
      of the same elements. */
  lemma SortListing<T>(s: seq<T>, t: seq<T>, less: (T, T) -> bool)
    requires forall i, j :: 0 <= i < j < |s| ==> s[i] != s[j]
    requires Ascending(t, less) && forall x :: x in s <==> x in t
    ensures Sort(s, less) == t
  {
    AscendingDistinct(t, less);
    DistinctSame(s, t);
    SortIs(s, t, less);
  }

  /** Sorting only permutes. */
  lemma {:induction false} SortPermutes<T>(s: seq<T>, less: (T, T) -> bool)
    ensures multiset(Sort(s, less)) == multiset(s)
  {
    if s != [] {
      SortPermutes(s[1..], less);
      InsertAdds(s[0], Sort(s[1..], less), less);
      assert s == [s[0]] + s[1..];
    }
  }

  lemma {:induction false} InsertAdds<T>(x: T, s: seq<T>, less: (T, T) -> bool)
    ensures multiset(Insert(x, s, less)) == multiset{x} + multiset(s)
  {
    if s != [] && !less(x, s[0]) {
      InsertAdds(x, s[1..], less);
      assert s == [s[0]] + s[1..];
    }
  }

  lemma SortKeeps<T>(s: seq<T>, less: (T, T) -> bool)
    ensures |Sort(s, less)| == |s|
    ensures forall x :: x in Sort(s, less) <==> x in s
  {
    SortPermutes(s, less);
    assert |multiset(Sort(s, less))| == |multiset(s)|;
    forall x ensures x in Sort(s, less) <==> x in s {
      assert x in multiset(Sort(s, less)) <==> x in multiset(s);
    }
  }

  /** `less` tells any two elements of `s` apart, and chains. */
  ghost predicate Orders<T(!new)>(s: seq<T>, less: (T, T) -> bool) {
    && (forall i, j :: 0 <= i < j < |s| ==> less(s[i], s[j]) != less(s[j], s[i]))
    && (forall x, y, z :: x in s && y in s && z in s && less(x, y) && less(y, z) ==> less(x, z))
  }

  lemma {:induction false} SortAscends<T(!new)>(s: seq<T>, less: (T, T) -> bool)
    requires Orders(s, less)
    ensures Ascending(Sort(s, less), less)
  {
    if s != [] {
      var rest := s[1..];
      forall i, j | 0 <= i < j < |rest| ensures less(rest[i], rest[j]) != less(rest[j], rest[i]) {
        assert rest[i] == s[i + 1] && rest[j] == s[j + 1];
      }
      assert forall x :: x in rest ==> x in s;
      SortAscends(rest, less);
      SortKeeps(rest, less);
      var t := Sort(rest, less);
      forall y | y in t ensures less(s[0], y) != less(y, s[0]) {
        var i :| 0 <= i < |rest| && rest[i] == y;
        assert s[i + 1] == y;
      }
      assert forall x :: x in [s[0]] + t ==> x in s;
      InsertAscends(s[0], t, less);
    }
  }

  lemma {:induction false} InsertAscends<T(!new)>(x: T, t: seq<T>, less: (T, T) -> bool)
    requires Ascending(t, less)
    requires forall y :: y in t ==> less(x, y) != less(y, x)
    requires forall a, b, c :: a in [x] + t && b in [x] + t && c in [x] + t && less(a, b) && less(b, c) ==> less(a, c)
    ensures Ascending(Insert(x, t, less), less)
    ensures forall y :: y in Insert(x, t, less) <==> y == x || y in t
  {
    if t == [] {
    } else if less(x, t[0]) {
      forall y | y in t ensures less(x, y) && !less(y, x) {
        var i :| 0 <= i < |t| && t[i] == y;
        assert i > 0 ==> less(t[0], t[i]);
      }
    } else {
      var rest := t[1..];
      assert forall y :: y in rest ==> y in t;
      assert forall y :: y in [x] + rest ==> y in [x] + t;
      InsertAscends(x, rest, less);
      var r := Insert(x, rest, less);
      forall y | y in r ensures less(t[0], y) && !less(y, t[0]) {
        if y in rest {
          var i :| 0 <= i < |rest| && rest[i] == y;
          assert less(t[0], t[i + 1]);
        }
      }
    }
  }
}
