/** pkg/artifact/snapshot.go: which Go values get the same canonical bytes, told on
    the values themselves, and which get none; and what a struct tag does. */
module SnapshotValues {
  import opened Decimal
  import opened JsonText
  import opened Options
  import opened Snapshot
  import opened SnapshotEncoder
  import opened Texts
  import Lex

  // -------------------------------------------------------------------- integers

  /** An integer in decimal: no sign but a minus before a positive numeral, no
      leading zero. */
  function ReadInt(s: string): Option<int> {
    var negative := s != "" && s[0] == '-';
    match ReadNumeral(if negative then s[1..] else s)
    case None => None
    case Some((n, rest)) =>
      var i: int := n;
      if rest != "" || (negative && i == 0) then None else Some(if negative then -i else i)
  }

  lemma IntIsRead(n: int)
    ensures ReadInt(FormatInt(n)) == Some(n)
  {
    var d := Digits(if n < 0 then -n else n);
    ReadDigits(if n < 0 then -n else n, "");
    assert d + "" == d;
    if n < 0 {
      assert FormatInt(n)[1..] == d;
    }
  }

  /** What is read as an integer is the text written for it. */
  lemma IntIsWritten(s: string)
    requires ReadInt(s).Some?
    ensures s == FormatInt(ReadInt(s).value)
  {
    var negative := s[0] == '-';
    var d := if negative then s[1..] else s;
    var k := Span(d);
    assert k == |d| && d[..k] == d;
    DigitsOfValue(d);
    assert negative ==> s == "-" + d;
  }

  /** Integers get the same bytes exactly when they are the same. */
  lemma SameIntegers(m: int, n: int)
    ensures BytesOf(Integer(m)) == BytesOf(Integer(n)) <==> m == n
  {
    IntIsRead(m);
    IntIsRead(n);
  }

  // ------------------------------------------------------------------ equal values

  /** The value behind interfaces and pointers. */
  function Behind(v: Value): (t: Value)
    ensures !t.Ref? && Size(t) <= Size(v)
    decreases v
  {
    if v.Ref? then Behind(v.target) else v
  }

  predicate IsNull(v: Value) {
    v.Nil? || v.NilSlice? || v.NilMap?
  }

  predicate IsList(v: Value) {
    v.Slice? || v.Array?
  }

  predicate IsRecord(v: Value) {
    (v.Map? && v.stringKeys) || v.Struct?
  }

  /** The members of a string-keyed map or of a struct. */
  function Members(v: Value): (es: seq<Entry>)
    requires IsRecord(v)
    ensures SizeOfEntries(es) < Size(v)
  {
    if v.Map? then v.entries else CollectSize(v.fields); Collect(v.fields)
  }

  /** The same number: integers by value, floats by their shortest decimal text. */
  predicate SameNumber(v: Value, u: Value) {
    match (v, u)
    case (Integer(m), Integer(n)) => m == n
    case (Integer(m), Float(d, _)) => d.Some? && ReadInt(d.value) == Some(m)
    case (Float(d, _), Integer(n)) => d.Some? && ReadInt(d.value) == Some(n)
    case (Float(d, _), Float(e, _)) => d.Some? && d == e
    case _ => false
  }

  /** The same snapshot value: nil of every kind is one null, a list is its elements
      in order, a map or struct its members in no order. */
  ghost predicate Equal(v: Value, u: Value)
    decreases Size(v), 5
  {
    var a, b := Behind(v), Behind(u);
    if IsNull(a) then IsNull(b)
    else if a.Boolean? then a == b
    else if a.Text? then a == b
    else if IsList(a) then IsList(b) && EqualLists(a.elems, b.elems)
    else if IsRecord(a) then IsRecord(b) && EqualRecords(Members(a), Members(b))
    else SameNumber(a, b)
  }

  ghost predicate EqualLists(vs: seq<Value>, us: seq<Value>)
    decreases SizeOfAll(vs) + 1, 2
  {
    |vs| == |us| && forall i :: 0 <= i < |vs| ==> EqualAt(vs, i, us[i])
  }

  ghost predicate EqualAt(vs: seq<Value>, i: nat, u: Value)
    requires i < |vs|
    decreases SizeOfAll(vs) + 1, 1
  {
    ElementSize(vs, i);
    Equal(vs[i], u)
  }

  /** Every member has its twin in the other, of the same name and an equal value. */
  ghost predicate EqualRecords(a: seq<Entry>, b: seq<Entry>)
    decreases SizeOfEntries(a) + 1, 4
  {
    (forall i :: 0 <= i < |a| ==> HasTwin(a, i, b)) && forall k :: 0 <= k < |b| ==> IsTwin(a, b[k])
  }

  ghost predicate HasTwin(a: seq<Entry>, i: nat, b: seq<Entry>)
    requires i < |a|
    decreases SizeOfEntries(a) + 1, 3
  {
    exists k :: 0 <= k < |b| && Twins(a, i, b[k])
  }

  ghost predicate IsTwin(a: seq<Entry>, f: Entry)
    decreases SizeOfEntries(a) + 1, 3
  {
    exists i :: 0 <= i < |a| && Twins(a, i, f)
  }

  ghost predicate Twins(a: seq<Entry>, i: nat, f: Entry)
    requires i < |a|
    decreases SizeOfEntries(a) + 1, 2
  {
    EntrySize(a, i);
    a[i].key == f.key && Equal(a[i].val, f.val)
  }

  // -------------------------------------------------------------- encodable values

  /** Nothing that is written is a channel, function, complex number, a map with
      other keys than strings, or a float that is not finite. */
  ghost predicate Encodable(v: Value)
    decreases Size(v), 3
  {
    var a := Behind(v);
    if IsList(a) then forall i :: 0 <= i < |a.elems| ==> EncodableAt(a.elems, i)
    else if IsRecord(a) then forall i :: 0 <= i < |Members(a)| ==> EncodableMember(Members(a), i)
    else !a.Opaque? && !a.Map? && (a.Float? ==> a.digits.Some?)
  }

  ghost predicate EncodableAt(vs: seq<Value>, i: nat)
    requires i < |vs|
    decreases SizeOfAll(vs) + 1, 1
  {
    ElementSize(vs, i);
    Encodable(vs[i])
  }

  ghost predicate EncodableMember(es: seq<Entry>, i: nat)
    requires i < |es|
    decreases SizeOfEntries(es) + 1, 2
  {
    EntrySize(es, i);
    Encodable(es[i].val)
  }

  lemma {:induction false} DenoteBehind(v: Value)
    ensures Denote(v) == Denote(Behind(v)) && (Proper(v) ==> Proper(Behind(v)))
    decreases v
  {
    if v.Ref? { DenoteBehind(v.target); }
  }

  lemma {:induction false} AllDenoted(vs: seq<Value>)
    ensures DenoteAll(vs).Some? <==> forall i :: 0 <= i < |vs| ==> Denote(vs[i]).Some?
    ensures DenoteAll(vs).Some? ==> |DenoteAll(vs).value| == |vs|
    ensures DenoteAll(vs).Some? ==> forall i :: 0 <= i < |vs| ==> Denote(vs[i]) == Some(DenoteAll(vs).value[i])
  {
    if vs != [] {
      AllDenoted(vs[1..]);
      if i :| 0 <= i < |vs| && Denote(vs[i]).None? {
        DenoteAllFails(vs, i);
      } else {
        assert forall i :: 0 < i < |vs| ==> vs[i] == vs[1..][i - 1];
      }
    }
  }

  lemma EntriesDenoted(es: seq<Entry>)
    requires DistinctKeys(es)
    ensures DenoteEntries(es).Some? <==> forall i :: 0 <= i < |es| ==> Denote(es[i].val).Some?
    ensures DenoteEntries(es).Some? ==> IsObject(es, DenoteEntries(es).value)
  {
    if i :| 0 <= i < |es| && Denote(es[i].val).None? {
      DenoteEntriesFails(es, i);
    } else {
      DenoteEntriesIs(es);
    }
  }

  /** Exactly the encodable values get bytes. */
  lemma {:induction false} EncodableIsDenoted(v: Value)
    requires Proper(v)
    ensures Denote(v).Some? <==> Encodable(v)
    decreases Size(v), 3
  {
    var a := Behind(v);
    DenoteBehind(v);
    if IsList(a) {
      AllDenoted(a.elems);
      forall i | 0 <= i < |a.elems| ensures Denote(a.elems[i]).Some? <==> EncodableAt(a.elems, i) {
        ElementSize(a.elems, i);
        assert ProperAt(a.elems, i);
        EncodableIsDenoted(a.elems[i]);
      }
    } else if IsRecord(a) {
      var es := Members(a);
      EntriesDenoted(es);
      forall i | 0 <= i < |es| ensures Denote(es[i].val).Some? <==> EncodableMember(es, i) {
        EntrySize(es, i);
        assert ProperEntry(es, i);
        EncodableIsDenoted(es[i].val);
      }
    }
  }

  // ------------------------------------------------------------------- equal bytes

  lemma SameListMeaning(vs: seq<Value>, us: seq<Value>)
    requires DenoteArray(vs).Some? && DenoteArray(us).Some?
    ensures DenoteArray(vs) == DenoteArray(us) <==>
            |vs| == |us| && forall i :: 0 <= i < |vs| ==> Denote(vs[i]) == Denote(us[i])
  {
    AllDenoted(vs);
    AllDenoted(us);
    var js, ks := DenoteAll(vs).value, DenoteAll(us).value;
    if |vs| == |us| && forall i :: 0 <= i < |vs| ==> Denote(vs[i]) == Denote(us[i]) {
      assert js == ks;
    }
  }

  lemma SameRecordMeaning(a: seq<Entry>, b: seq<Entry>)
    requires DistinctKeys(a) && DistinctKeys(b) && DenoteObject(a).Some? && DenoteObject(b).Some?
    ensures DenoteObject(a) == DenoteObject(b) <==> Covered(a, b) && Covered(b, a)
  {
    EntriesDenoted(a);
    EntriesDenoted(b);
    if DenoteObject(a) == DenoteObject(b) {
      OneCovers(a, b, DenoteEntries(a).value);
      OneCovers(b, a, DenoteEntries(a).value);
    }
    if Covered(a, b) && Covered(b, a) {
      OrderOfEntries(a, b);
    }
  }

  lemma OneCovers(a: seq<Entry>, b: seq<Entry>, m: map<string, Json>)
    requires IsObject(a, m) && IsObject(b, m)
    ensures Covered(a, b)
  {
    forall i | 0 <= i < |a| ensures CoveredAt(a[i], b) {
      var k :| 0 <= k < |b| && b[k].key == a[i].key;
    }
  }

  lemma SameNumberMeaning(v: Value, u: Value)
    requires (v.Integer? || v.Float?) && (u.Integer? || u.Float?) && Denote(v).Some? && Denote(u).Some?
    ensures Denote(v) == Denote(u) <==> SameNumber(v, u)
  {
    if v.Integer? { IntIsRead(v.n); }
    if u.Integer? { IntIsRead(u.n); }
    if v.Float? && ReadInt(v.digits.value).Some? { IntIsWritten(v.digits.value); }
    if u.Float? && ReadInt(u.digits.value).Some? { IntIsWritten(u.digits.value); }
  }

  predicate Scalar(v: Value) {
    v.Boolean? || v.Text? || v.Integer? || v.Float?
  }

  lemma ScalarMeaning(a: Value, b: Value)
    requires Denote(a).Some? && Denote(b).Some? && (Scalar(a) || IsNull(a)) && (Scalar(b) || IsNull(b))
    ensures Equal(a, b) <==> Denote(a) == Denote(b)
  {
    if (a.Integer? || a.Float?) && (b.Integer? || b.Float?) {
      SameNumberMeaning(a, b);
    }
  }

  /** Null, scalars, lists and records never mean the same. */
  lemma KindsDiffer(a: Value, b: Value)
    requires Denote(a).Some? && Denote(b).Some? && !a.Ref? && !b.Ref?
    requires IsList(a) != IsList(b) || IsRecord(a) != IsRecord(b)
    ensures Denote(a) != Denote(b)
  {
  }

  /** Two values denote the same exactly when they are equal. */
  lemma {:induction false} EqualIsSameMeaning(v: Value, u: Value)
    requires Proper(v) && Proper(u) && Denote(v).Some? && Denote(u).Some?
    ensures Denote(v) == Denote(u) <==> Equal(v, u)
    decreases Size(v), 5
  {
    var a, b := Behind(v), Behind(u);
    DenoteBehind(v);
    DenoteBehind(u);
    if IsList(a) && IsList(b) {
      EqualListMeaning(a.elems, b.elems);
    } else if IsRecord(a) && IsRecord(b) {
      EqualRecordMeaning(Members(a), Members(b));
    } else if IsList(a) != IsList(b) || IsRecord(a) != IsRecord(b) {
      KindsDiffer(a, b);
    } else {
      ScalarMeaning(a, b);
    }
  }

  lemma {:induction false} EqualListMeaning(vs: seq<Value>, us: seq<Value>)
    requires ProperAll(vs) && ProperAll(us) && DenoteArray(vs).Some? && DenoteArray(us).Some?
    ensures DenoteArray(vs) == DenoteArray(us) <==> EqualLists(vs, us)
    decreases SizeOfAll(vs) + 1, 2
  {
    AllDenoted(vs);
    AllDenoted(us);
    SameListMeaning(vs, us);
    if |vs| == |us| {
      forall i | 0 <= i < |vs| ensures Denote(vs[i]) == Denote(us[i]) <==> EqualAt(vs, i, us[i]) {
        ElementSize(vs, i);
        assert ProperAt(vs, i) && ProperAt(us, i);
        EqualIsSameMeaning(vs[i], us[i]);
      }
    }
  }

  lemma {:induction false} TwinMeaning(a: seq<Entry>, i: nat, b: seq<Entry>, k: nat)
    requires ProperEntries(a) && ProperEntries(b) && i < |a| && k < |b|
    requires Denote(a[i].val).Some? && Denote(b[k].val).Some?
    ensures Twins(a, i, b[k]) <==> a[i].key == b[k].key && Denote(a[i].val) == Denote(b[k].val)
    decreases SizeOfEntries(a) + 1, 2
  {
    EntrySize(a, i);
    assert ProperEntry(a, i) && ProperEntry(b, k);
    EqualIsSameMeaning(a[i].val, b[k].val);
  }

  lemma {:induction false} EqualRecordMeaning(a: seq<Entry>, b: seq<Entry>)
    requires ProperEntries(a) && ProperEntries(b) && DenoteObject(a).Some? && DenoteObject(b).Some?
    ensures DenoteObject(a) == DenoteObject(b) <==> EqualRecords(a, b)
    decreases SizeOfEntries(a) + 1, 4
  {
    SameRecordMeaning(a, b);
    EntriesDenoted(a);
    EntriesDenoted(b);
    forall i | 0 <= i < |a| ensures HasTwin(a, i, b) <==> CoveredAt(a[i], b) {
      forall k | 0 <= k < |b|
        ensures Twins(a, i, b[k]) <==> a[i].key == b[k].key && Denote(a[i].val) == Denote(b[k].val)
      {
        TwinMeaning(a, i, b, k);
      }
    }
    forall k | 0 <= k < |b| ensures IsTwin(a, b[k]) <==> CoveredAt(b[k], a) {
      forall i | 0 <= i < |a|
        ensures Twins(a, i, b[k]) <==> a[i].key == b[k].key && Denote(a[i].val) == Denote(b[k].val)
      {
        TwinMeaning(a, i, b, k);
      }
    }
  }

  /** Two snapshots get the same bytes exactly when both are encodable and equal, or
      neither is encodable. */
  lemma EqualBytes(v: Value, u: Value)
    requires Proper(v) && Proper(u)
    ensures BytesOf(v).Some? <==> Encodable(v)
    ensures BytesOf(v) == BytesOf(u) <==> if Encodable(v) then Encodable(u) && Equal(v, u) else !Encodable(u)
  {
    EncodableIsDenoted(v);
    EncodableIsDenoted(u);
    if Encodable(v) && Encodable(u) {
      EqualIsSameMeaning(v, u);
      SameBytes(v, u);
    }
  }

  /** The bytes of the smallest values. */
  lemma SmallestBytes()
    ensures BytesOf(Nil) == BytesOf(NilSlice) == BytesOf(NilMap) == Some("null")
    ensures BytesOf(Boolean(true)) == Some("true") && BytesOf(Boolean(false)) == Some("false")
    ensures BytesOf(Integer(0)) == Some("0") && BytesOf(Integer(-1)) == Some("-1") && BytesOf(Text("")) == Some("\"\"")
  {
    assert Quote("") == "\"\"" by { assert Escaped("") == ""; }
    assert Digits(0) == "0" && Digits(1) == "1";
    assert FormatInt(-1) == "-1";
  }

  lemma BareBytes(none: map<string, Json>)
    requires none == map[]
    ensures BytesOf(Slice([])) == Some("[]") && BytesOf(Map(true, [])) == Some("{}")
  {
    assert Encode(Arr([])) == "[]" by { assert EncodeAll([]) == [] && "" + "]" == "]"; }
    assert |Lex.Sorted(none.Keys)| == 0;
    assert Encode(Obj(none)) == "{}" by { assert EncodeMembers(Obj(none), []) == [] && "" + "}" == "}"; }
  }

  // ------------------------------------------------------------------- empty values

  /** The zero value of a value's own type. */
  function ZeroOf(v: Value): Value
    decreases v
  {
    match v
    case Nil | Ref(_) => Nil
    case NilSlice | Slice(_) => NilSlice
    case NilMap | Map(_, _) => NilMap
    case Boolean(_) => Boolean(false)
    case Integer(_) => Integer(0)
    case Float(d, _) => Float(d, true)
    case Text(_) => Text("")
    case Array(es) => Array(seq(|es|, i requires 0 <= i < |es| => ZeroOf(es[i])))
    case Struct(fs) => Struct(seq(|fs|, i requires 0 <= i < |fs| => ZeroField(fs[i])))
    case Opaque(_) => Opaque(true)
  }

  function ZeroField(f: Field): Field
    decreases f
  {
    f.(val := ZeroOf(f.val))
  }

  lemma {:induction false} ZeroIsOwnZero(v: Value)
    ensures IsZero(v) <==> v == ZeroOf(v)
    decreases v
  {
    match v {
      case Array(es) =>
        var zeros := ZeroOf(v).elems;
        forall i | 0 <= i < |es| ensures IsZero(es[i]) <==> es[i] == zeros[i] { ZeroIsOwnZero(es[i]); }
        assert IsZero(v) <==> forall i :: 0 <= i < |es| ==> IsZero(es[i]);
        assert es == zeros <==> forall i :: 0 <= i < |es| ==> es[i] == zeros[i];
      case Struct(fs) =>
        var zeros := ZeroOf(v).fields;
        forall i | 0 <= i < |fs| ensures IsZero(fs[i].val) <==> fs[i] == zeros[i] {
          assert zeros[i] == ZeroField(fs[i]);
          ZeroIsOwnZero(fs[i].val);
        }
        assert IsZero(v) <==> forall i :: 0 <= i < |fs| ==> IsZero(fs[i].val);
        assert fs == zeros <==> forall i :: 0 <= i < |fs| ==> fs[i] == zeros[i];
      case _ =>
    }
  }

  /** What `omitempty` leaves out: the zero value of each type, and what has no
      element or entry though it is not nil. */
  lemma EmptyIsZeroOrBare(v: Value)
    ensures Empty(v) <==> v == ZeroOf(v) || v == Slice([]) || v in {Map(true, []), Map(false, [])}
  {
    ZeroIsOwnZero(v);
  }

  // ------------------------------------------------------------------- struct tags

  /** A field with this tag: the first part names it (`-` leaves it out, nothing
      keeps the field's name), and `omitempty` among the others leaves it out when
      it is empty; an embedded struct lends its own members instead. */
  lemma TagMeans(f: Field, name: string, options: seq<string>)
    requires Free([name] + options, ',') && f.tag == Join([name] + options, ',')
    ensures Contribution(f) ==
            if !f.exported || name == "-" then []
            else if f.anonymous && f.val.Struct? then Collect(f.val.fields)
            else if "omitempty" in options && Empty(f.val) then []
            else [Entry(if name == "" then f.name else name, f.val)]
  {
    var parts := [name] + options;
    SplitOfJoin(parts, ',');
    assert parts[1..] == options;
    if f.tag == "" {
      assert Split("", ',') == [""];
    }
  }
}
