/** The encoder itself: every method appends to a shared builder, and what it
    appends is the canonical text of what its argument denotes. */
module SnapshotEncoder {
  import opened Options
  import opened JsonText
  import opened Snapshot
  import opened Texts
  import JsonParse
  import Lex
  import Sorting

  // -------------------------------------------------------- sequences of parts

  lemma {:induction false} EscapedAppend(s: string, i: nat)
    requires i < |s|
    ensures Escaped(s[..i + 1]) == Escaped(s[..i]) + Escape(s[i])
  {
    if i == 0 {
      assert s[..1] == [s[0]] && s[..1][1..] == "" && s[..0] == "";
    } else {
      var tail := s[1..];
      EscapedAppend(tail, i - 1);
      EscapedHead(s, i + 1);
      EscapedHead(s, i);
      Associative(Escape(s[0]), Escaped(tail[..i - 1]), Escape(s[i]));
    }
  }

  lemma Associative(a: string, b: string, c: string)
    ensures a + (b + c) == (a + b) + c
  {
  }

  lemma Quoted(before: string, s: string)
    ensures before + "\"" + Escaped(s) + "\"" == before + Quote(s)
  {
  }

  lemma EscapedHead(s: string, i: nat)
    requires 0 < i <= |s|
    ensures Escaped(s[..i]) == Escape(s[0]) + Escaped(s[1..][..i - 1])
  {
    assert s[..i][1..] == s[1..][..i - 1];
  }

  lemma {:induction false} DenoteAllIs(vs: seq<Value>, js: seq<Json>)
    requires |js| == |vs| && forall i :: 0 <= i < |vs| ==> Denote(vs[i]) == Some(js[i])
    ensures DenoteAll(vs) == Some(js)
  {
    if vs != [] {
      DenoteAllIs(vs[1..], js[1..]);
      assert js == [js[0]] + js[1..];
    }
  }

  lemma {:induction false} DenoteAllFails(vs: seq<Value>, i: nat)
    requires i < |vs| && Denote(vs[i]).None?
    ensures DenoteAll(vs).None?
  {
    if i > 0 { DenoteAllFails(vs[1..], i - 1); }
  }

  // ------------------------------------------------------------------- entries

  lemma {:induction false} DenoteEntriesFails(es: seq<Entry>, i: nat)
    requires i < |es| && Denote(es[i].val).None?
    ensures DenoteEntries(es).None?
  {
    if i > 0 { DenoteEntriesFails(es[1..], i - 1); }
  }

  /** What a list of entries with distinct keys denotes, key by key. */
  ghost predicate IsObject(es: seq<Entry>, m: map<string, Json>) {
    && (forall i :: 0 <= i < |es| ==> es[i].key in m && Denote(es[i].val) == Some(m[es[i].key]))
    && (forall k :: k in m ==> exists i :: 0 <= i < |es| && es[i].key == k)
  }

  lemma {:induction false} DenoteEntriesIs(es: seq<Entry>)
    requires DistinctKeys(es) && forall i :: 0 <= i < |es| ==> Denote(es[i].val).Some?
    ensures DenoteEntries(es).Some? && IsObject(es, DenoteEntries(es).value)
  {
    if es != [] {
      var rest := es[1..];
      DenoteEntriesIs(rest);
      var m := DenoteEntries(rest).value;
      var n := DenoteEntries(es).value;
      assert n == m[es[0].key := Denote(es[0].val).value];
      forall i | 0 <= i < |es| ensures es[i].key in n && Denote(es[i].val) == Some(n[es[i].key]) {
        if i > 0 { assert rest[i - 1] == es[i]; }
      }
      forall k | k in n ensures exists i :: 0 <= i < |es| && es[i].key == k {
        if k != es[0].key {
          var i :| 0 <= i < |rest| && rest[i].key == k;
          assert es[i + 1].key == k;
        } else {
          assert es[0].key == k;
        }
      }
    }
  }

  /** Every entry of `a` has one in `b` with the same key and meaning. */
  ghost predicate Covered(a: seq<Entry>, b: seq<Entry>) {
    forall i :: 0 <= i < |a| ==> CoveredAt(a[i], b)
  }

  ghost predicate CoveredAt(e: Entry, b: seq<Entry>) {
    exists j :: 0 <= j < |b| && b[j].key == e.key && Denote(b[j].val) == Denote(e.val)
  }

  lemma ObjectCovers(a: seq<Entry>, b: seq<Entry>, m: map<string, Json>, n: map<string, Json>)
    requires IsObject(a, m) && IsObject(b, n) && Covered(a, b)
    ensures forall k :: k in m ==> k in n && m[k] == n[k]
  {
    forall k | k in m ensures k in n && m[k] == n[k] {
      var i :| 0 <= i < |a| && a[i].key == k;
      assert CoveredAt(a[i], b);
    }
  }

  lemma UnencodableCovered(a: seq<Entry>, b: seq<Entry>, i: nat)
    requires Covered(a, b) && i < |a| && Denote(a[i].val).None?
    ensures DenoteEntries(a).None? && DenoteEntries(b).None?
  {
    DenoteEntriesFails(a, i);
    assert CoveredAt(a[i], b);
    var j :| 0 <= j < |b| && b[j].key == a[i].key && Denote(b[j].val) == Denote(a[i].val);
    DenoteEntriesFails(b, j);
  }

  /** Two lists of entries that agree key by key, in whatever order, mean the same. */
  lemma OrderOfEntries(a: seq<Entry>, b: seq<Entry>)
    requires DistinctKeys(a) && DistinctKeys(b) && Covered(a, b) && Covered(b, a)
    ensures DenoteObject(a) == DenoteObject(b)
  {
    if i :| 0 <= i < |a| && Denote(a[i].val).None? {
      UnencodableCovered(a, b, i);
    } else {
      forall j | 0 <= j < |b| ensures Denote(b[j].val).Some? {
        assert CoveredAt(b[j], a);
      }
      DenoteEntriesIs(a);
      DenoteEntriesIs(b);
      ObjectCovers(a, b, DenoteEntries(a).value, DenoteEntries(b).value);
      ObjectCovers(b, a, DenoteEntries(b).value, DenoteEntries(a).value);
      assert DenoteEntries(a).value == DenoteEntries(b).value;
    }
  }

  // ------------------------------------------------------------- sorted entries

  predicate ByKey(a: Entry, b: Entry) {
    Lex.Less(a.key, b.key)
  }

  function Keys(es: seq<Entry>): set<string> {
    set e | e in es :: e.key
  }

  /** `reflect.Value.MapIndex`; the absent value when the key is missing. */
  function MapIndex(es: seq<Entry>, key: string): Value {
    if es == [] then Nil else if es[0].key == key then es[0].val else MapIndex(es[1..], key)
  }

  lemma {:induction false} MapIndexIs(es: seq<Entry>, i: nat)
    requires i < |es| && DistinctKeys(es)
    ensures MapIndex(es, es[i].key) == es[i].val
  {
    if i > 0 { MapIndexIs(es[1..], i - 1); }
  }

  /** The entries in the order of their keys. */
  function InOrder(es: seq<Entry>): (t: seq<Entry>)
    ensures |t| == |Keys(es)|
    ensures forall i :: 0 <= i < |t| ==> t[i] == Entry(Lex.Sorted(Keys(es))[i], MapIndex(es, Lex.Sorted(Keys(es))[i]))
  {
    var names := Lex.Sorted(Keys(es));
    seq(|names|, i requires 0 <= i < |names| => Entry(names[i], MapIndex(es, names[i])))
  }

  lemma {:induction false} MapIndexSize(es: seq<Entry>, key: string)
    requires exists i :: 0 <= i < |es| && es[i].key == key
    ensures Size(MapIndex(es, key)) <= SizeOfEntries(es)
  {
    var i :| 0 <= i < |es| && es[i].key == key;
    if es[0].key != key {
      assert es[1..][i - 1].key == key;
      MapIndexSize(es[1..], key);
    }
  }

  lemma InOrderHas(es: seq<Entry>)
    requires DistinctKeys(es)
    ensures forall e :: e in es <==> e in InOrder(es)
  {
    var t, names := InOrder(es), Lex.Sorted(Keys(es));
    forall e ensures e in es <==> e in t {
      if e in es {
        var i :| 0 <= i < |es| && es[i] == e;
        MapIndexIs(es, i);
        assert e.key in names;
        var k :| 0 <= k < |names| && names[k] == e.key;
        assert t[k] == e;
      }
      if e in t {
        var k :| 0 <= k < |t| && t[k] == e;
        assert names[k] in names;
        var f :| f in es && f.key == names[k];
        var i :| 0 <= i < |es| && es[i] == f;
        MapIndexIs(es, i);
      }
    }
  }

  lemma InOrderAscends(es: seq<Entry>)
    ensures Sorting.Ascending(InOrder(es), ByKey)
    ensures DistinctKeys(InOrder(es))
  {
    var t := InOrder(es);
    forall i, j | 0 <= i < j < |t| ensures ByKey(t[i], t[j]) && !ByKey(t[j], t[i]) && t[i].key != t[j].key {
      Lex.Asymmetric(t[i].key, t[j].key);
    }
  }

  lemma SortedEntries(es: seq<Entry>)
    requires DistinctKeys(es)
    ensures Sorting.Sort(es, ByKey) == InOrder(es)
  {
    InOrderAscends(es);
    InOrderHas(es);
    Sorting.SortListing(es, InOrder(es), ByKey);
  }

  lemma SortedKeys(es: seq<Entry>, keys: seq<string>)
    requires DistinctKeys(es)
    requires |keys| == |es| && forall i :: 0 <= i < |es| ==> keys[i] == es[i].key
    ensures Sorting.Sort(keys, Lex.Less) == Lex.Sorted(Keys(es))
  {
    var names := Lex.Sorted(Keys(es));
    forall i, j | 0 <= i < j < |names|
      ensures Lex.Less(names[i], names[j]) && !Lex.Less(names[j], names[i]) && names[i] != names[j]
    {
      Lex.Asymmetric(names[i], names[j]);
    }
    forall k ensures k in keys <==> k in names {
      if k in keys {
        var i :| 0 <= i < |keys| && keys[i] == k;
        assert es[i] in es;
      }
      if k in names {
        var e :| e in es && e.key == k;
        var i :| 0 <= i < |es| && es[i] == e;
        assert keys[i] == k;
      }
    }
    Sorting.SortListing(keys, names, Lex.Less);
  }

  ghost predicate MemberText(e: Entry, text: string) {
    Denote(e.val).Some? && text == Member(e.key, Encode(Denote(e.val).value))
  }

  /** The member texts of the first of some entries. */
  ghost predicate MemberTexts(es: seq<Entry>, texts: seq<string>) {
    |texts| <= |es| && forall i :: 0 <= i < |texts| ==> MemberText(es[i], texts[i])
  }

  lemma ObjectKeys(es: seq<Entry>, m: map<string, Json>)
    requires IsObject(es, m)
    ensures m.Keys == Keys(es)
  {
    forall k ensures k in m <==> k in Keys(es) {
      if k in m {
        var i :| 0 <= i < |es| && es[i].key == k;
        assert es[i] in es;
      }
    }
  }

  lemma MembersAre(m: map<string, Json>, names: seq<string>, texts: seq<string>)
    requires |texts| == |names|
    requires forall i :: 0 <= i < |names| ==> names[i] in m && texts[i] == Member(names[i], Encode(m[names[i]]))
    ensures EncodeMembers(Obj(m), names) == texts
  {
  }

  lemma ObjectMember(es: seq<Entry>, m: map<string, Json>, e: Entry, text: string)
    requires IsObject(es, m) && e in es && MemberText(e, text)
    ensures e.key in m && text == Member(e.key, Encode(m[e.key]))
  {
    var k :| 0 <= k < |es| && es[k] == e;
  }

  lemma MembersOfObject(es: seq<Entry>, m: map<string, Json>, texts: seq<string>)
    requires DistinctKeys(es) && IsObject(es, m) && MemberTexts(InOrder(es), texts) && |texts| == |InOrder(es)|
    ensures EncodeMembers(Obj(m), Lex.Sorted(Keys(es))) == texts
  {
    var t, names := InOrder(es), Lex.Sorted(Keys(es));
    InOrderHas(es);
    forall i | 0 <= i < |names| ensures names[i] in m && texts[i] == Member(names[i], Encode(m[names[i]])) {
      assert t[i] in es && t[i].key == names[i];
      ObjectMember(es, m, t[i], texts[i]);
    }
    MembersAre(m, names, texts);
  }

  lemma InOrderEncodable(es: seq<Entry>, texts: seq<string>)
    requires DistinctKeys(es) && MemberTexts(InOrder(es), texts) && |texts| == |InOrder(es)|
    ensures forall i :: 0 <= i < |es| ==> Denote(es[i].val).Some?
  {
    InOrderHas(es);
    forall i | 0 <= i < |es| ensures Denote(es[i].val).Some? {
      assert es[i] in InOrder(es);
      var k :| 0 <= k < |InOrder(es)| && InOrder(es)[k] == es[i];
      assert MemberText(InOrder(es)[k], texts[k]);
    }
  }

  lemma ObjectText(es: seq<Entry>, texts: seq<string>)
    requires DistinctKeys(es) && MemberTexts(InOrder(es), texts) && |texts| == |InOrder(es)|
    ensures DenoteObject(es).Some?
    ensures Encode(DenoteObject(es).value) == "{" + (Join(texts, ',') + "}")
  {
    InOrderEncodable(es, texts);
    DenoteEntriesIs(es);
    var m := DenoteEntries(es).value;
    ObjectKeys(es, m);
    MembersOfObject(es, m, texts);
    EncodeObject(m, texts);
  }

  lemma EncodeObject(m: map<string, Json>, texts: seq<string>)
    requires EncodeMembers(Obj(m), Lex.Sorted(m.Keys)) == texts
    ensures Encode(Obj(m)) == "{" + (Join(texts, ',') + "}")
  {
  }

  lemma UnencodableEntry(es: seq<Entry>, i: nat)
    requires DistinctKeys(es) && i < |InOrder(es)| && Denote(InOrder(es)[i].val).None?
    ensures DenoteObject(es).None?
  {
    InOrderHas(es);
    assert InOrder(es)[i] in es;
    var k :| 0 <= k < |es| && es[k] == InOrder(es)[i];
    DenoteEntriesFails(es, k);
  }

  lemma InOrderSize(es: seq<Entry>, i: nat)
    requires DistinctKeys(es) && i < |InOrder(es)|
    ensures Size(InOrder(es)[i].val) <= SizeOfEntries(es)
    ensures ProperEntries(es) ==> Proper(InOrder(es)[i].val)
  {
    InOrderHas(es);
    assert InOrder(es)[i] in es;
    var k :| 0 <= k < |es| && es[k] == InOrder(es)[i];
    EntrySize(es, k);
    if ProperEntries(es) { assert ProperEntry(es, k); }
  }

  // ---------------------------------------------------------------- the encoder

  class Builder {
    var buf: string

    constructor ()
      ensures buf == ""
    {
      buf := "";
    }

    method WriteString(s: string)
      modifies this
      ensures buf == old(buf) + s
    {
      buf := buf + s;
    }

    method EncodeJSONString(s: string)
      modifies this
      ensures buf == old(buf) + Quote(s)
    {
      WriteString("\"");
      ghost var open := buf;
      for i := 0 to |s|
        invariant buf == open + Escaped(s[..i])
      {
        EscapedAppend(s, i);
        Associative(open, Escaped(s[..i]), Escape(s[i]));
        WriteString(Escape(s[i]));
      }
      assert s[..|s|] == s;
      WriteString("\"");
      Quoted(old(buf), s);
    }

    /** A member's name and colon, behind a comma unless it is the first. */
    method WriteKey(first: bool, key: string)
      modifies this
      ensures buf == old(buf) + (if first then "" else ",") + Quote(key) + ":"
    {
      if !first {
        WriteString(",");
      }
      EncodeJSONString(key);
      WriteString(":");
    }
  }

  /** What a call has done to the builder when it was given a proper value. */
  ghost predicate Wrote(before: string, after: string, ok: bool, denoted: Option<Json>) {
    match denoted
    case None => !ok
    case Some(j) => ok && after == before + Encode(j)
  }

  method EncodeCanonical(w: Builder, v: Value) returns (ok: bool)
    modifies w
    ensures Proper(v) ==> Wrote(old(w.buf), w.buf, ok, Denote(v))
    decreases Size(v), 0
  {
    var u := v;
    while u.Ref?
      invariant Size(u) <= Size(v) && Denote(u) == Denote(v) && (Proper(v) ==> Proper(u))
      invariant w.buf == old(w.buf)
      decreases Size(u)
    {
      u := u.target;
    }
    ok := true;
    match u {
      case Nil | NilSlice | NilMap => w.WriteString("null");
      case Boolean(b) => w.WriteString(if b then "true" else "false");
      case Integer(n) => w.WriteString(FormatInt(n));
      case Float(digits, _) =>
        if digits.None? {
          ok := false;
        } else {
          w.WriteString(digits.value);
        }
      case Text(s) => w.EncodeJSONString(s);
      case Slice(es) => ok := EncodeElements(w, es);
      case Array(es) => ok := EncodeElements(w, es);
      case Map(stringKeys, es) =>
        if stringKeys {
          ok := EncodeMap(w, es);
        } else {
          ok := false;
        }
      case Struct(fs) =>
        CollectSize(fs);
        ok := EncodeStruct(w, fs);
      case Opaque(_) => ok := false;
    }
  }

  /** The buffer after an opening bracket and some parts. */
  function Row(head: string, parts: seq<string>): string {
    head + Join(parts, ',')
  }

  lemma RowExtends(head: string, parts: seq<string>, p: string)
    ensures Row(head, parts + [p]) == Row(head, parts) + (if parts == [] then "" else ",") + p
  {
    JoinAppend(parts, p, ',');
  }

  lemma RowCloses(start: string, open: string, parts: seq<string>, close: string)
    ensures Row(start + open, parts) + close == start + (open + (Join(parts, ',') + close))
  {
  }

  /** The texts of the first elements, as far as they have one. */
  ghost predicate ElementTexts(vs: seq<Value>, js: seq<Json>) {
    |js| <= |vs| && forall i :: 0 <= i < |js| ==> Denote(vs[i]) == Some(js[i])
  }

  lemma EncodeAllAppend(js: seq<Json>, j: Json)
    ensures EncodeAll(js + [j]) == EncodeAll(js) + [Encode(j)]
  {
  }

  lemma ElementsExtend(head: string, vs: seq<Value>, js: seq<Json>, j: Json)
    requires ElementTexts(vs, js) && |js| < |vs| && Denote(vs[|js|]) == Some(j)
    ensures ElementTexts(vs, js + [j])
    ensures Row(head, EncodeAll(js + [j])) == Row(head, EncodeAll(js)) + (if js == [] then "" else ",") + Encode(j)
  {
    ElementTextsAppend(vs, js, j);
    RowOfAll(head, js, j);
  }

  lemma ElementTextsAppend(vs: seq<Value>, js: seq<Json>, j: Json)
    requires ElementTexts(vs, js) && |js| < |vs| && Denote(vs[|js|]) == Some(j)
    ensures ElementTexts(vs, js + [j])
  {
    var more := js + [j];
    forall i | 0 <= i < |more| ensures Denote(vs[i]) == Some(more[i]) {
      assert more[i] == if i < |js| then js[i] else j;
    }
  }

  lemma RowOfAll(head: string, js: seq<Json>, j: Json)
    ensures Row(head, EncodeAll(js + [j])) == Row(head, EncodeAll(js)) + (if js == [] then "" else ",") + Encode(j)
  {
    var texts, text := EncodeAll(js), Encode(j);
    EncodeAllAppend(js, j);
    RowExtends(head, texts, text);
  }

  lemma ElementsClose(start: string, vs: seq<Value>, js: seq<Json>)
    requires ElementTexts(vs, js) && |js| == |vs|
    ensures Wrote(start, Row(start + "[", EncodeAll(js)) + "]", true, DenoteArray(vs))
  {
    DenoteAllIs(vs, js);
    RowCloses(start, "[", EncodeAll(js), "]");
  }

  lemma ElementsFail(vs: seq<Value>, i: nat)
    requires i < |vs| && Denote(vs[i]).None?
    ensures DenoteArray(vs).None?
  {
    DenoteAllFails(vs, i);
  }

  ghost predicate ProperAll(vs: seq<Value>) {
    forall i :: 0 <= i < |vs| ==> ProperAt(vs, i)
  }

  method WriteElement(w: Builder, first: bool, v: Value) returns (ok: bool)
    modifies w
    ensures Proper(v) ==> Wrote(old(w.buf) + (if first then "" else ","), w.buf, ok, Denote(v))
    decreases Size(v), 1
  {
    ghost var start := w.buf + (if first then "" else ",");
    if !first {
      w.WriteString(",");
    }
    assert w.buf == start;
    ok := EncodeCanonical(w, v);
  }

  method EncodeElements(w: Builder, vs: seq<Value>) returns (ok: bool)
    modifies w
    ensures ProperAll(vs) ==> Wrote(old(w.buf), w.buf, ok, DenoteArray(vs))
    decreases SizeOfAll(vs), 3
  {
    ghost var proper := ProperAll(vs);
    ghost var start := w.buf;
    ghost var js: seq<Json> := [];
    w.WriteString("[");
    for i := 0 to |vs|
      invariant proper ==> |js| == i && ElementTexts(vs, js) && w.buf == Row(start + "[", EncodeAll(js))
    {
      ElementSize(vs, i);
      assert proper ==> ProperAt(vs, i);
      ok := WriteElement(w, i == 0, vs[i]);
      if !ok {
        if proper { ElementsFail(vs, i); }
        return;
      }
      if proper {
        ElementsExtend(start + "[", vs, js, Denote(vs[i]).value);
        js := js + [Denote(vs[i]).value];
      }
    }
    w.WriteString("]");
    if proper { ElementsClose(start, vs, js); }
    return true;
  }

  lemma MemberOf(start: string, key: string, text: string)
    ensures start + Quote(key) + ":" + text == start + Member(key, text)
  {
  }

  ghost predicate WroteMember(before: string, after: string, ok: bool, key: string, denoted: Option<Json>) {
    match denoted
    case None => !ok
    case Some(j) => ok && after == before + Member(key, Encode(j))
  }

  method WriteMember(w: Builder, first: bool, key: string, val: Value) returns (ok: bool)
    modifies w
    ensures Proper(val) ==> WroteMember(old(w.buf) + (if first then "" else ","), w.buf, ok, key, Denote(val))
    decreases Size(val), 1
  {
    ghost var start := w.buf + (if first then "" else ",");
    w.WriteKey(first, key);
    ok := EncodeCanonical(w, val);
    if Denote(val).Some? { MemberOf(start, key, Encode(Denote(val).value)); }
  }

  lemma MembersExtend(head: string, es: seq<Entry>, texts: seq<string>, before: string, after: string)
    requires MemberTexts(es, texts) && |texts| < |es| && Denote(es[|texts|].val).Some?
    requires before == Row(head, texts) + (if texts == [] then "" else ",")
    requires WroteMember(before, after, true, es[|texts|].key, Denote(es[|texts|].val))
    ensures MemberTexts(es, texts + [TextOf(es[|texts|])])
    ensures after == Row(head, texts + [TextOf(es[|texts|])])
  {
    RowExtends(head, texts, TextOf(es[|texts|]));
  }

  ghost function TextOf(e: Entry): string
    requires Denote(e.val).Some?
  {
    Member(e.key, Encode(Denote(e.val).value))
  }

  method EncodeMap(w: Builder, es: seq<Entry>) returns (ok: bool)
    modifies w
    ensures ProperEntries(es) ==> Wrote(old(w.buf), w.buf, ok, DenoteObject(es))
    decreases SizeOfEntries(es), 3
  {
    var unsorted := MapKeys(es);
    var keys := Sorting.Sort(unsorted, Lex.Less);
    Sorting.SortKeeps(unsorted, Lex.Less);
    ghost var proper := ProperEntries(es);
    if proper { SortedKeys(es, unsorted); }
    ghost var start := w.buf;
    ghost var texts: seq<string> := [];
    w.WriteString("{");
    for i := 0 to |keys|
      invariant proper ==> |texts| == i && MemberTexts(InOrder(es), texts) && w.buf == Row(start + "{", texts)
    {
      assert keys[i] in unsorted;
      MapIndexSize(es, keys[i]);
      if proper { InOrderSize(es, i); }
      ghost var before := w.buf + (if i == 0 then "" else ",");
      ok := WriteMember(w, i == 0, keys[i], MapIndex(es, keys[i]));
      if !ok {
        if proper { UnencodableEntry(es, i); }
        return;
      }
      if proper {
        MembersExtend(start + "{", InOrder(es), texts, before, w.buf);
        texts := texts + [TextOf(InOrder(es)[i])];
      }
    }
    w.WriteString("}");
    if proper { ObjectCloses(start, es, texts); }
    return true;
  }

  lemma ObjectCloses(start: string, es: seq<Entry>, texts: seq<string>)
    requires DistinctKeys(es) && MemberTexts(InOrder(es), texts) && |texts| == |InOrder(es)|
    ensures Wrote(start, Row(start + "{", texts) + "}", true, DenoteObject(es))
  {
    ObjectText(es, texts);
    RowCloses(start, "{", texts, "}");
  }

  method MapKeys(es: seq<Entry>) returns (keys: seq<string>)
    ensures |keys| == |es| && forall i :: 0 <= i < |es| ==> keys[i] == es[i].key
  {
    keys := [];
    for i := 0 to |es|
      invariant |keys| == i && forall k :: 0 <= k < i ==> keys[k] == es[k].key
    {
      keys := keys + [es[i].key];
    }
  }

  /** What a `json` tag says: whether to skip the field, its member name, and
      whether to leave it out when it is empty. */
  method ReadTag(f: Field) returns (skip: bool, name: string, omitEmpty: bool)
    requires f.exported
    ensures skip == Skipped(f)
    ensures !skip ==> name == NameOf(f) && omitEmpty == OmitsEmpty(f)
  {
    skip, name, omitEmpty := false, f.name, false;
    if f.tag == "" {
      return;
    }
    var parts := Split(f.tag, ',');
    if parts[0] == "-" {
      skip := true;
      return;
    }
    if parts[0] != "" {
      name := parts[0];
    }
    for k := 1 to |parts|
      invariant omitEmpty <==> "omitempty" in parts[1..k]
    {
      if parts[k] == "omitempty" {
        omitEmpty := true;
      }
    }
    assert parts[1..] == parts[1..|parts|];
  }

  lemma CollectFrom(fs: seq<Field>, i: nat)
    requires i < |fs|
    ensures Collect(fs[i..]) == Contribution(fs[i]) + Collect(fs[i + 1..])
  {
    assert fs[i..][1..] == fs[i + 1..];
  }

  lemma Glue(a: seq<Entry>, b: seq<Entry>, c: seq<Entry>)
    ensures (a + b) + c == a + (b + c)
  {
  }

  method CollectStructFields(fs: seq<Field>, into: seq<Entry>) returns (out: seq<Entry>)
    ensures out == into + Collect(fs)
    decreases fs
  {
    out := into;
    for i := 0 to |fs|
      invariant out + Collect(fs[i..]) == into + Collect(fs)
    {
      CollectFrom(fs, i);
      Glue(out, Contribution(fs[i]), Collect(fs[i + 1..]));
      out := CollectField(fs[i], out);
    }
  }

  /** What one field adds to the list. */
  method CollectField(f: Field, into: seq<Entry>) returns (out: seq<Entry>)
    ensures out == into + Contribution(f)
    decreases f
  {
    if !f.exported {
      return into;
    }
    var skip, name, omitEmpty := ReadTag(f);
    if skip {
      return into;
    }
    if f.anonymous && f.val.Struct? {
      out := CollectStructFields(f.val.fields, into);
      return;
    }
    if omitEmpty && Empty(f.val) {
      return into;
    }
    return into + [Entry(name, f.val)];
  }

  method EncodeStruct(w: Builder, fs: seq<Field>) returns (ok: bool)
    modifies w
    ensures ProperEntries(Collect(fs)) ==> Wrote(old(w.buf), w.buf, ok, DenoteObject(Collect(fs)))
    decreases SizeOfFields(fs), 4
  {
    var es := CollectStructFields(fs, []);
    assert es == Collect(fs);
    CollectSize(fs);
    ok := EncodeSorted(w, es);
  }

  lemma SortedMember(es: seq<Entry>, i: nat)
    requires i < |es|
    ensures |Sorting.Sort(es, ByKey)| == |es|
    ensures Size(Sorting.Sort(es, ByKey)[i].val) <= SizeOfEntries(es)
  {
    Sorting.SortKeeps(es, ByKey);
    var e := Sorting.Sort(es, ByKey)[i];
    assert e in es;
    var k :| 0 <= k < |es| && es[k] == e;
    EntrySize(es, k);
  }

  /** The collected fields, sorted by name and written as an object. */
  method EncodeSorted(w: Builder, es: seq<Entry>) returns (ok: bool)
    modifies w
    ensures ProperEntries(es) ==> Wrote(old(w.buf), w.buf, ok, DenoteObject(es))
    decreases SizeOfEntries(es), 3
  {
    var sorted := Sorting.Sort(es, ByKey);
    Sorting.SortKeeps(es, ByKey);
    ghost var proper := ProperEntries(es);
    if proper { SortedEntries(es); }
    ghost var start := w.buf;
    ghost var texts: seq<string> := [];
    w.WriteString("{");
    for i := 0 to |sorted|
      invariant proper ==> |texts| == i && MemberTexts(InOrder(es), texts) && w.buf == Row(start + "{", texts)
    {
      SortedMember(es, i);
      if proper { InOrderSize(es, i); }
      ghost var before := w.buf + (if i == 0 then "" else ",");
      ok := WriteMember(w, i == 0, sorted[i].key, sorted[i].val);
      if !ok {
        if proper { UnencodableEntry(es, i); }
        return;
      }
      if proper {
        MembersExtend(start + "{", InOrder(es), texts, before, w.buf);
        texts := texts + [TextOf(InOrder(es)[i])];
      }
    }
    w.WriteString("}");
    if proper { ObjectCloses(start, es, texts); }
    return true;
  }

  // ------------------------------------------------------- what the bytes identify

  /** The canonical bytes of a value, if it has any. */
  function BytesOf(v: Value): Option<string> {
    match Denote(v)
    case None => None
    case Some(j) => Some(Encode(j))
  }

  /** The bytes that are hashed, or None when the snapshot is refused. */
  method CanonicalBytes(snapshot: Value) returns (r: Option<string>)
    ensures Proper(snapshot) ==> r == BytesOf(snapshot)
    ensures Proper(snapshot) ==> (r.None? <==> Denote(snapshot).None?)
    ensures Proper(snapshot) && r.Some? ==> JsonParse.ParseValue(r.value) == Some((Denote(snapshot).value, ""))
  {
    var w := new Builder();
    var ok := EncodeCanonical(w, snapshot);
    if Proper(snapshot) && ok {
      JsonParse.ParseOfEncode(Denote(snapshot).value);
      assert w.buf == Encode(Denote(snapshot).value);
    }
    return if ok then Some(w.buf) else None;
  }

  /** Two snapshots get the same bytes exactly when they denote the same value. */
  lemma SameBytes(v: Value, u: Value)
    requires Denote(v).Some? && Denote(u).Some?
    ensures Encode(Denote(v).value) == Encode(Denote(u).value) <==> Denote(v) == Denote(u)
  {
    if Encode(Denote(v).value) == Encode(Denote(u).value) {
      JsonParse.EncodeInjective(Denote(v).value, Denote(u).value);
    }
  }

  /** A struct whose member names are distinct gets the bytes of the map with the
      same members, in whatever order that map is iterated. */
  lemma StructIsMap(fs: seq<Field>, es: seq<Entry>)
    requires DistinctKeys(Collect(fs)) && DistinctKeys(es)
    requires Covered(Collect(fs), es) && Covered(es, Collect(fs))
    ensures Denote(Struct(fs)) == Denote(Map(true, es))
  {
    OrderOfEntries(Collect(fs), es);
  }

  predicate Plain(f: Field) {
    f.exported && f.tag == "" && !f.anonymous
  }

  /** Without tags and embedding the members are the fields themselves. */
  lemma {:induction false} CollectPlain(fs: seq<Field>)
    requires forall f :: f in fs ==> Plain(f)
    ensures |Collect(fs)| == |fs|
    ensures forall i :: 0 <= i < |fs| ==> Collect(fs)[i] == Entry(fs[i].name, fs[i].val)
  {
    if fs != [] {
      assert fs[0] in fs;
      CollectPlain(fs[1..]);
    }
  }

  /** The struct's fields and the map's entries are the same members. */
  ghost predicate SameMembers(fs: seq<Field>, es: seq<Entry>) {
    && (forall f :: f in fs ==> Entry(f.name, f.val) in es)
    && (forall e :: e in es ==> exists f :: f in fs && e == Entry(f.name, f.val))
  }

  /** An untagged struct gets the bytes of the map from its field names to their
      values. */
  lemma PlainStructIsMap(fs: seq<Field>, es: seq<Entry>)
    requires forall f :: f in fs ==> Plain(f)
    requires forall i, j :: 0 <= i < j < |fs| ==> fs[i].name != fs[j].name
    requires DistinctKeys(es) && SameMembers(fs, es)
    ensures Denote(Struct(fs)) == Denote(Map(true, es))
  {
    CollectPlain(fs);
    var members := Collect(fs);
    forall i | 0 <= i < |members| ensures CoveredAt(members[i], es) {
      assert fs[i] in fs;
      var j :| 0 <= j < |es| && es[j] == members[i];
    }
    forall j | 0 <= j < |es| ensures CoveredAt(es[j], members) {
      assert es[j] in es;
      var f :| f in fs && es[j] == Entry(f.name, f.val);
      var i :| 0 <= i < |fs| && fs[i] == f;
      assert members[i] == es[j];
    }
    StructIsMap(fs, es);
  }
}
