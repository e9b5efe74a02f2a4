/** Map iteration order leaves no trace in the canonical bytes: two Go values that
    differ in nothing but the order in which their maps are iterated, at whatever
    depth, are encoded alike or refused alike. */
module MapOrder {
  import opened JsonText
  import opened Options
  import opened Snapshot
  import opened SnapshotEncoder
  import Sorting

  /** The same value up to the order of map entries anywhere inside it. */
  ghost predicate Same(v: Value, u: Value)
    decreases v
  {
    match v
    case Ref(t) => u.Ref? && Same(t, u.target)
    case Slice(es) => u.Slice? && SameAll(es, u.elems)
    case Array(es) => u.Array? && SameAll(es, u.elems)
    case Map(strings, es) => u.Map? && strings == u.stringKeys && SameEntries(es, u.entries)
    case Struct(fs) => u.Struct? && SameFields(fs, u.fields)
    case _ => v == u
  }

  ghost predicate SameAll(vs: seq<Value>, us: seq<Value>)
    decreases vs
  {
    |vs| == |us| && forall i :: 0 <= i < |vs| ==> Same(vs[i], us[i])
  }

  ghost predicate SameFields(fs: seq<Field>, gs: seq<Field>)
    decreases fs
  {
    |fs| == |gs| && forall i :: 0 <= i < |fs| ==> SameField(fs[i], gs[i])
  }

  ghost predicate SameField(f: Field, g: Field)
    decreases f
  {
    g == f.(val := g.val) && Same(f.val, g.val)
  }

  /** Distinct keys, and every entry of either has its twin in the other. */
  ghost predicate SameEntries(a: seq<Entry>, b: seq<Entry>)
    decreases a
  {
    && DistinctKeys(a) && DistinctKeys(b)
    && (forall i :: 0 <= i < |a| ==> HasTwin(a[i], b))
    && (forall j :: 0 <= j < |b| ==> IsTwin(a, b[j]))
  }

  ghost predicate HasTwin(e: Entry, b: seq<Entry>)
    decreases e
  {
    exists j :: 0 <= j < |b| && b[j].key == e.key && Same(e.val, b[j].val)
  }

  ghost predicate IsTwin(a: seq<Entry>, f: Entry)
    decreases a, 0
  {
    exists i :: 0 <= i < |a| && a[i].key == f.key && Same(a[i].val, f.val)
  }

  /** Members with the same names and the same values, in the same order. */
  ghost predicate Alike(a: seq<Entry>, b: seq<Entry>) {
    |a| == |b| && forall i :: 0 <= i < |a| ==> a[i].key == b[i].key && Same(a[i].val, b[i].val)
  }

  // ---------------------------------------------------- what omitempty looks at

  lemma {:induction false} SameZero(v: Value, u: Value)
    requires Same(v, u)
    ensures IsZero(v) == IsZero(u)
    decreases v
  {
    match v {
      case Array(es) =>
        forall i | 0 <= i < |es| ensures IsZero(es[i]) == IsZero(u.elems[i]) { SameZero(es[i], u.elems[i]); }
        assert IsZero(v) <==> forall i :: 0 <= i < |es| ==> IsZero(es[i]);
        assert IsZero(u) <==> forall i :: 0 <= i < |es| ==> IsZero(u.elems[i]);
      case Struct(fs) =>
        forall i | 0 <= i < |fs| ensures IsZero(fs[i].val) == IsZero(u.fields[i].val) {
          assert SameField(fs[i], u.fields[i]);
          SameZero(fs[i].val, u.fields[i].val);
        }
        assert IsZero(v) <==> forall i :: 0 <= i < |fs| ==> IsZero(fs[i].val);
        assert IsZero(u) <==> forall i :: 0 <= i < |fs| ==> IsZero(u.fields[i].val);
      case _ =>
    }
  }

  lemma SameEmpty(v: Value, u: Value)
    requires Same(v, u)
    ensures Empty(v) == Empty(u)
  {
    SameZero(v, u);
    if v.Map? {
      if v.entries != [] { assert HasTwin(v.entries[0], u.entries); }
      if u.entries != [] { assert IsTwin(v.entries, u.entries[0]); }
    }
  }

  // -------------------------------------------------------------- struct members

  lemma AlikeConcat(a: seq<Entry>, b: seq<Entry>, c: seq<Entry>, d: seq<Entry>)
    requires Alike(a, b) && Alike(c, d)
    ensures Alike(a + c, b + d)
  {
  }

  lemma {:induction false} CollectAlike(fs: seq<Field>, gs: seq<Field>)
    requires SameFields(fs, gs)
    ensures Alike(Collect(fs), Collect(gs))
    decreases fs
  {
    if fs != [] {
      ContributionAlike(fs[0], gs[0]);
      CollectAlike(fs[1..], gs[1..]);
      AlikeConcat(Contribution(fs[0]), Contribution(gs[0]), Collect(fs[1..]), Collect(gs[1..]));
    }
  }

  lemma {:induction false} ContributionAlike(f: Field, g: Field)
    requires SameField(f, g)
    ensures Alike(Contribution(f), Contribution(g))
    decreases f
  {
    if Skipped(f) {
    } else if f.anonymous && f.val.Struct? {
      assert SameFields(f.val.fields, g.val.fields);
      CollectAlike(f.val.fields, g.val.fields);
    } else {
      SameEmpty(f.val, g.val);
    }
  }

  // --------------------------------------------------------------- the meanings

  lemma {:induction false} DenoteAllAlike(vs: seq<Value>, us: seq<Value>)
    requires |vs| == |us| && forall i :: 0 <= i < |vs| ==> Denote(vs[i]) == Denote(us[i])
    ensures DenoteAll(vs) == DenoteAll(us)
  {
    if vs != [] {
      assert Denote(vs[0]) == Denote(us[0]);
      DenoteAllAlike(vs[1..], us[1..]);
    }
  }

  lemma {:induction false} DenoteEntriesAlike(a: seq<Entry>, b: seq<Entry>)
    requires |a| == |b|
    requires forall i :: 0 <= i < |a| ==> a[i].key == b[i].key && Denote(a[i].val) == Denote(b[i].val)
    ensures DenoteEntries(a) == DenoteEntries(b)
  {
    if a != [] {
      assert Denote(a[0].val) == Denote(b[0].val);
      DenoteEntriesAlike(a[1..], b[1..]);
    }
  }

  /** The order of map entries, anywhere inside a value, does not change what the
      value denotes. */
  lemma {:induction false} SameMeaning(v: Value, u: Value)
    requires Same(v, u)
    ensures Denote(v) == Denote(u)
    decreases Size(v), 3
  {
    match v {
      case Ref(t) => SameMeaning(t, u.target);
      case Slice(es) => ElementsMeaning(es, u.elems);
      case Array(es) => ElementsMeaning(es, u.elems);
      case Map(strings, es) => EntriesMeaning(es, u.entries);
      case Struct(fs) => StructMeaning(fs, u.fields);
      case _ =>
    }
  }

  lemma {:induction false} ElementsMeaning(vs: seq<Value>, us: seq<Value>)
    requires SameAll(vs, us)
    ensures DenoteArray(vs) == DenoteArray(us)
    decreases SizeOfAll(vs) + 1, 0
  {
    forall i | 0 <= i < |vs| ensures Denote(vs[i]) == Denote(us[i]) {
      ElementSize(vs, i);
      SameMeaning(vs[i], us[i]);
    }
    DenoteAllAlike(vs, us);
  }

  lemma {:induction false} TwinMeaning(a: seq<Entry>, i: nat, f: Entry)
    requires i < |a| && a[i].key == f.key && Same(a[i].val, f.val)
    ensures Denote(f.val) == Denote(a[i].val)
    decreases SizeOfEntries(a) + 1, 0
  {
    EntrySize(a, i);
    SameMeaning(a[i].val, f.val);
  }

  lemma {:induction false} EntriesMeaning(a: seq<Entry>, b: seq<Entry>)
    requires SameEntries(a, b)
    ensures DenoteObject(a) == DenoteObject(b)
    decreases SizeOfEntries(a) + 1, 1
  {
    forall i | 0 <= i < |a| ensures CoveredAt(a[i], b) {
      assert HasTwin(a[i], b);
      var j :| 0 <= j < |b| && b[j].key == a[i].key && Same(a[i].val, b[j].val);
      TwinMeaning(a, i, b[j]);
    }
    forall j | 0 <= j < |b| ensures CoveredAt(b[j], a) {
      assert IsTwin(a, b[j]);
      var i :| 0 <= i < |a| && a[i].key == b[j].key && Same(a[i].val, b[j].val);
      TwinMeaning(a, i, b[j]);
    }
    OrderOfEntries(a, b);
  }

  lemma {:induction false} StructMeaning(fs: seq<Field>, gs: seq<Field>)
    requires SameFields(fs, gs)
    ensures DenoteObject(Collect(fs)) == DenoteObject(Collect(gs))
    decreases SizeOfFields(fs) + 1, 0
  {
    var a, b := Collect(fs), Collect(gs);
    CollectAlike(fs, gs);
    CollectSize(fs);
    forall i | 0 <= i < |a| ensures a[i].key == b[i].key && Denote(a[i].val) == Denote(b[i].val) {
      EntrySize(a, i);
      SameMeaning(a[i].val, b[i].val);
    }
    DenoteEntriesAlike(a, b);
  }

  // ------------------------------------------------- distinct names stay distinct

  lemma {:induction false} SameProper(v: Value, u: Value)
    requires Same(v, u) && Proper(v)
    ensures Proper(u)
    decreases Size(v), 3
  {
    match v {
      case Ref(t) => SameProper(t, u.target);
      case Slice(es) => ProperElements(es, u.elems);
      case Array(es) => ProperElements(es, u.elems);
      case Map(strings, es) => ProperMap(es, u.entries);
      case Struct(fs) => ProperStruct(fs, u.fields);
      case _ =>
    }
  }

  lemma {:induction false} ProperElements(vs: seq<Value>, us: seq<Value>)
    requires SameAll(vs, us) && forall i :: 0 <= i < |vs| ==> ProperAt(vs, i)
    ensures forall i :: 0 <= i < |us| ==> ProperAt(us, i)
    decreases SizeOfAll(vs) + 1, 0
  {
    forall i | 0 <= i < |us| ensures ProperAt(us, i) {
      ElementSize(vs, i);
      assert ProperAt(vs, i);
      SameProper(vs[i], us[i]);
    }
  }

  lemma {:induction false} ProperTwin(a: seq<Entry>, i: nat, f: Entry)
    requires i < |a| && a[i].key == f.key && Same(a[i].val, f.val) && ProperEntries(a)
    ensures Proper(f.val)
    decreases SizeOfEntries(a) + 1, 0
  {
    EntrySize(a, i);
    assert ProperEntry(a, i);
    SameProper(a[i].val, f.val);
  }

  lemma {:induction false} ProperMap(a: seq<Entry>, b: seq<Entry>)
    requires SameEntries(a, b) && ProperEntries(a)
    ensures ProperEntries(b)
    decreases SizeOfEntries(a) + 1, 1
  {
    forall j | 0 <= j < |b| ensures ProperEntry(b, j) {
      assert IsTwin(a, b[j]);
      var i :| 0 <= i < |a| && a[i].key == b[j].key && Same(a[i].val, b[j].val);
      ProperTwin(a, i, b[j]);
    }
  }

  lemma {:induction false} ProperStruct(fs: seq<Field>, gs: seq<Field>)
    requires SameFields(fs, gs) && ProperEntries(Collect(fs))
    ensures ProperEntries(Collect(gs))
    decreases SizeOfFields(fs) + 1, 2
  {
    CollectAlike(fs, gs);
    CollectSize(fs);
    ProperMembers(Collect(fs), Collect(gs));
  }

  lemma {:induction false} ProperMembers(a: seq<Entry>, b: seq<Entry>)
    requires Alike(a, b) && ProperEntries(a)
    ensures ProperEntries(b)
    decreases SizeOfEntries(a) + 1, 1
  {
    forall j | 0 <= j < |b| ensures ProperEntry(b, j) {
      ProperTwin(a, j, b[j]);
    }
  }

  /** Values that are the same up to the order of map entries get the same
      canonical bytes, or are refused together. */
  lemma OrderLeavesNoTrace(v: Value, u: Value)
    requires Same(v, u) && Proper(v)
    ensures Proper(u) && BytesOf(v) == BytesOf(u)
  {
    SameProper(v, u);
    SameMeaning(v, u);
  }

  // ------------------------------------------------------ what counts as the same

  /** Every map inside has distinct keys, as Go's maps do. */
  ghost predicate GoValue(v: Value)
    decreases v
  {
    match v
    case Ref(t) => GoValue(t)
    case Slice(es) => forall i :: 0 <= i < |es| ==> GoValue(es[i])
    case Array(es) => forall i :: 0 <= i < |es| ==> GoValue(es[i])
    case Map(_, es) => DistinctKeys(es) && forall i :: 0 <= i < |es| ==> GoValue(es[i].val)
    case Struct(fs) => forall i :: 0 <= i < |fs| ==> GoValue(fs[i].val)
    case _ => true
  }

  lemma {:induction false} SameAsItself(v: Value)
    requires GoValue(v)
    ensures Same(v, v)
    decreases v
  {
    match v {
      case Ref(t) => SameAsItself(t);
      case Slice(es) => forall i | 0 <= i < |es| ensures Same(es[i], es[i]) { SameAsItself(es[i]); }
      case Array(es) => forall i | 0 <= i < |es| ensures Same(es[i], es[i]) { SameAsItself(es[i]); }
      case Map(_, es) =>
        forall i | 0 <= i < |es| ensures HasTwin(es[i], es) && IsTwin(es, es[i]) { SameAsItself(es[i].val); }
      case Struct(fs) => forall i | 0 <= i < |fs| ensures SameField(fs[i], fs[i]) { SameAsItself(fs[i].val); }
      case _ =>
    }
  }

  /** One iteration of a map and any other are the same value. */
  lemma PermutedEntries(strings: bool, a: seq<Entry>, b: seq<Entry>)
    requires GoValue(Map(strings, a)) && multiset(a) == multiset(b)
    ensures Same(Map(strings, a), Map(strings, b))
  {
    PermutedKeys(a, b);
    forall i | 0 <= i < |a| ensures HasTwin(a[i], b) {
      assert a[i] in multiset(b);
      SameAsItself(a[i].val);
      var j :| 0 <= j < |b| && b[j] == a[i];
    }
    forall j | 0 <= j < |b| ensures IsTwin(a, b[j]) {
      assert b[j] in multiset(a);
      var i :| 0 <= i < |a| && a[i] == b[j];
      SameAsItself(a[i].val);
    }
  }

  lemma PermutedKeys(a: seq<Entry>, b: seq<Entry>)
    requires DistinctKeys(a) && multiset(a) == multiset(b)
    ensures DistinctKeys(b)
  {
    forall i, j | 0 <= i < j < |b| ensures b[i].key != b[j].key {
      var k, l := Sorting.PermutedPair(a, b, i, j);
    }
  }
}
