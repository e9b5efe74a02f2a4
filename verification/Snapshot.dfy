/** The canonical snapshot encoder: a Go value, seen through reflection, is
    written into a string builder. What is written is the canonical text of the
    JSON value the Go value denotes. */
module Snapshot {
  import opened Options
  import opened JsonText
  import opened Texts

  /** A Go value as reflection shows it. `Nil` is the absent value or a nil
      interface or pointer, `Ref` any other interface or pointer; the entries of
      a map stand in the order one iteration happens to give; a float is known by
      the shortest decimal text that reads back as it, None if it is not finite,
      and by whether all its bits are zero; an opaque value is a channel,
      function, unsafe pointer or complex number. */
  datatype Value =
    | Nil
    | Ref(target: Value)
    | Boolean(b: bool)
    | Integer(n: int)
    | Float(digits: Option<Numeral>, zeroBits: bool)
    | Text(s: string)
    | NilSlice
    | Slice(elems: seq<Value>)
    | Array(elems: seq<Value>)
    | NilMap
    | Map(stringKeys: bool, entries: seq<Entry>)
    | Struct(fields: seq<Field>)
    | Opaque(zero: bool)

  datatype Entry = Entry(key: string, val: Value)

  datatype Field = Field(name: string, exported: bool, anonymous: bool, tag: string, val: Value)

  // ------------------------------------------------------- reflection and tags

  /** `reflect.Value.IsZero` */
  predicate IsZero(v: Value) {
    match v
    case Nil | NilSlice | NilMap => true
    case Boolean(b) => !b
    case Integer(n) => n == 0
    case Float(_, z) => z
    case Text(s) => s == ""
    case Array(es) => forall e :: e in es ==> IsZero(e)
    case Struct(fs) => forall f :: f in fs ==> IsZero(f.val)
    case Opaque(z) => z
    case Ref(_) | Slice(_) | Map(_, _) => false
  }

  /** What `omitempty` leaves out: besides zero values, empty slices and maps. */
  predicate Empty(v: Value) {
    IsZero(v) || (v.Slice? && v.elems == []) || (v.Map? && v.entries == [])
  }

  predicate Skipped(f: Field) {
    !f.exported || (f.tag != "" && Split(f.tag, ',')[0] == "-")
  }

  function NameOf(f: Field): string {
    if f.tag != "" && Split(f.tag, ',')[0] != "" then Split(f.tag, ',')[0] else f.name
  }

  predicate OmitsEmpty(f: Field) {
    f.tag != "" && "omitempty" in Split(f.tag, ',')[1..]
  }

  /** The members a struct contributes, embedded structs inlined. */
  function Collect(fields: seq<Field>): seq<Entry>
    decreases fields
  {
    if fields == [] then [] else Contribution(fields[0]) + Collect(fields[1..])
  }

  function Contribution(f: Field): seq<Entry>
    decreases f
  {
    if Skipped(f) then []
    else if f.anonymous && f.val.Struct? then Collect(f.val.fields)
    else if OmitsEmpty(f) && Empty(f.val) then []
    else [Entry(NameOf(f), f.val)]
  }

  // ------------------------------------------------------------------ size

  function Size(v: Value): nat
    decreases v
  {
    match v
    case Ref(t) => 1 + Size(t)
    case Slice(es) => 1 + SizeOfAll(es)
    case Array(es) => 1 + SizeOfAll(es)
    case Map(_, es) => 1 + SizeOfEntries(es)
    case Struct(fs) => 1 + SizeOfFields(fs)
    case _ => 1
  }

  function SizeOfAll(vs: seq<Value>): nat
    decreases vs
  {
    if vs == [] then 0 else Size(vs[0]) + SizeOfAll(vs[1..])
  }

  function SizeOfEntries(es: seq<Entry>): nat
    decreases es
  {
    if es == [] then 0 else assert es[0].val < es[0]; Size(es[0].val) + SizeOfEntries(es[1..])
  }

  function SizeOfFields(fs: seq<Field>): nat
    decreases fs
  {
    if fs == [] then 0 else assert fs[0].val < fs[0]; Size(fs[0].val) + SizeOfFields(fs[1..])
  }

  lemma {:induction false} ElementSize(vs: seq<Value>, i: nat)
    requires i < |vs|
    ensures Size(vs[i]) <= SizeOfAll(vs)
  {
    if i > 0 { ElementSize(vs[1..], i - 1); }
  }

  lemma {:induction false} EntrySize(es: seq<Entry>, i: nat)
    requires i < |es|
    ensures Size(es[i].val) <= SizeOfEntries(es)
  {
    if i > 0 { EntrySize(es[1..], i - 1); }
  }

  lemma {:induction false} EntriesConcat(a: seq<Entry>, b: seq<Entry>)
    ensures SizeOfEntries(a + b) == SizeOfEntries(a) + SizeOfEntries(b)
  {
    if a == [] {
      assert a + b == b;
    } else {
      assert (a + b)[1..] == a[1..] + b;
      EntriesConcat(a[1..], b);
    }
  }

  lemma {:induction false} CollectSize(fields: seq<Field>)
    ensures SizeOfEntries(Collect(fields)) <= SizeOfFields(fields)
    decreases fields, 0
  {
    if fields != [] {
      EntriesConcat(Contribution(fields[0]), Collect(fields[1..]));
      CollectSize(fields[1..]);
      var f := fields[0];
      if !Skipped(f) && f.anonymous && f.val.Struct? {
        CollectSize(f.val.fields);
      }
    }
  }

  // --------------------------------------------------------------- denotation

  /** The JSON value a Go value denotes, or None when the encoder fails on it. */
  function Denote(v: Value): Option<Json>
    decreases Size(v), 0, 0
  {
    match v
    case Nil | NilSlice | NilMap => Some(Null)
    case Ref(t) => Denote(t)
    case Boolean(b) => Some(Bool(b))
    case Integer(n) => Some(Num(FormatInt(n)))
    case Float(digits, _) => if digits.None? then None else Some(Num(digits.value))
    case Text(s) => Some(Str(s))
    case Slice(es) => DenoteArray(es)
    case Array(es) => DenoteArray(es)
    case Map(stringKeys, es) => if stringKeys then DenoteObject(es) else None
    case Struct(fs) => CollectSize(fs); DenoteObject(Collect(fs))
    case Opaque(_) => None
  }

  function DenoteArray(vs: seq<Value>): Option<Json>
    decreases SizeOfAll(vs), 2, 0
  {
    match DenoteAll(vs)
    case None => None
    case Some(js) => Some(Arr(js))
  }

  function DenoteAll(vs: seq<Value>): (r: Option<seq<Json>>)
    decreases SizeOfAll(vs), 1, |vs|
  {
    if vs == [] then Some([])
    else
      match (Denote(vs[0]), DenoteAll(vs[1..]))
      case (Some(j), Some(js)) => Some([j] + js)
      case _ => None
  }

  function DenoteObject(es: seq<Entry>): Option<Json>
    decreases SizeOfEntries(es), 2, 0
  {
    match DenoteEntries(es)
    case None => None
    case Some(m) => Some(Obj(m))
  }

  function DenoteEntries(es: seq<Entry>): Option<map<string, Json>>
    decreases SizeOfEntries(es), 1, |es|
  {
    if es == [] then Some(map[])
    else
      match (Denote(es[0].val), DenoteEntries(es[1..]))
      case (Some(j), Some(m)) => Some(m[es[0].key := j])
      case _ => None
  }

  ghost predicate DistinctKeys(es: seq<Entry>) {
    forall i, j :: 0 <= i < j < |es| ==> es[i].key != es[j].key
  }

  /** Wherever an object is written its member names are distinct. For a map this
      is so by its nature; for a struct the caller chooses the names. */
  ghost predicate Proper(v: Value)
    decreases Size(v), 0
  {
    match v
    case Ref(t) => Proper(t)
    case Slice(es) => forall i :: 0 <= i < |es| ==> ProperAt(es, i)
    case Array(es) => forall i :: 0 <= i < |es| ==> ProperAt(es, i)
    case Map(_, es) => ProperEntries(es)
    case Struct(fs) => CollectSize(fs); ProperEntries(Collect(fs))
    case _ => true
  }

  ghost predicate ProperAt(vs: seq<Value>, i: nat)
    requires i < |vs|
    decreases SizeOfAll(vs), 1
  {
    ElementSize(vs, i);
    Proper(vs[i])
  }

  ghost predicate ProperEntries(es: seq<Entry>)
    decreases SizeOfEntries(es), 2
  {
    DistinctKeys(es) && forall i :: 0 <= i < |es| ==> ProperEntry(es, i)
  }

  ghost predicate ProperEntry(es: seq<Entry>, i: nat)
    requires i < |es|
    decreases SizeOfEntries(es), 1
  {
    EntrySize(es, i);
    Proper(es[i].val)
  }
}
