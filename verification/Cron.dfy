/** pkg/scheduler/cron.go: five-field cron expressions of stars, integers and
    lists. Breaking an instant up into calendar fields is left open. */
module Cron {
  import opened Decimal
  import opened Options
  import opened Texts

  datatype FieldSet = Any | Values(values: set<int>)

  datatype Spec = Spec(min: FieldSet, hour: FieldSet, dom: FieldSet, mon: FieldSet, dow: FieldSet)

  /** An instant on the calendar. */
  datatype Civil = Civil(minute: int, hour: int, day: int, month: int, weekday: int, second: int)

  predicate Has(f: FieldSet, v: int) {
    f.Any? || v in f.values
  }

  predicate Matches(s: Spec, c: Civil) {
    Has(s.min, c.minute) && Has(s.hour, c.hour) && Has(s.dom, c.day) && Has(s.mon, c.month) &&
      Has(s.dow, c.weekday) && c.second == 0
  }

  /** `strconv.Atoi`, but for its overflow error: a number that large is out of
      every field's range all the same. */
  function Atoi(s: string): Option<int> {
    var digits := if s != "" && s[0] in "+-" then s[1..] else s;
    if digits == "" || !AllDigits(digits) then None
    else if s[0] == '-' then Some(0 - Value(digits))
    else Some(Value(digits))
  }

  predicate InRange(p: string, lo: int, hi: int) {
    var n := Atoi(Trim(p));
    n.Some? && lo <= n.value <= hi
  }

  ghost predicate Listed(parts: seq<string>, v: int) {
    exists i :: 0 <= i < |parts| && Atoi(Trim(parts[i])) == Some(v)
  }

  /** What a field's text means: a star, or exactly the integers of a list, all of
      which lie in the field's range. */
  ghost predicate Means(raw: string, lo: int, hi: int, f: FieldSet) {
    var t := Trim(raw);
    match f
    case Any => t == "*"
    case Values(vs) =>
      && t != "*" && t != ""
      && (forall i :: 0 <= i < |Split(t, ',')| ==> InRange(Split(t, ',')[i], lo, hi))
      && (forall v :: v in vs <==> Listed(Split(t, ','), v))
  }

  ghost predicate Meaningful(raw: string, lo: int, hi: int) {
    exists f :: Means(raw, lo, hi, f)
  }

  function IntsOf(parts: seq<string>): set<int> {
    set i | 0 <= i < |parts| && Atoi(Trim(parts[i])).Some? :: Atoi(Trim(parts[i])).value
  }

  lemma ListedIsIntsOf(parts: seq<string>, v: int)
    ensures Listed(parts, v) <==> v in IntsOf(parts)
  {
    if Listed(parts, v) {
      var i :| 0 <= i < |parts| && Atoi(Trim(parts[i])) == Some(v);
    }
    if v in IntsOf(parts) {
      var i :| 0 <= i < |parts| && Atoi(Trim(parts[i])).Some? && Atoi(Trim(parts[i])).value == v;
      assert Atoi(Trim(parts[i])) == Some(v);
    }
  }

  predicate AllInRange(parts: seq<string>, lo: int, hi: int) {
    forall i :: 0 <= i < |parts| ==> InRange(parts[i], lo, hi)
  }

  /** A field has a meaning exactly when it is a star, or each of its parts between
      commas is an integer in range; an empty field has one empty part. */
  lemma MeaningfulIsExact(raw: string, lo: int, hi: int)
    ensures Meaningful(raw, lo, hi) <==> Trim(raw) == "*" || AllInRange(Split(Trim(raw), ','), lo, hi)
  {
    var t := Trim(raw);
    var parts := Split(t, ',');
    assert t == "" ==> parts[0] == "" && !InRange(parts[0], lo, hi);
    if t == "*" {
      assert Means(raw, lo, hi, Any);
    } else if AllInRange(parts, lo, hi) {
      forall v ensures v in IntsOf(parts) <==> Listed(parts, v) { ListedIsIntsOf(parts, v); }
      assert Means(raw, lo, hi, Values(IntsOf(parts)));
    } else {
      forall f ensures !Means(raw, lo, hi, f) {
      }
    }
  }

  method ParseField(raw: string, lo: int, hi: int) returns (r: Option<FieldSet>)
    ensures r.Some? ==> Means(raw, lo, hi, r.value)
    ensures r.None? ==> !Meaningful(raw, lo, hi)
  {
    var t := Trim(raw);
    if t == "*" {
      return Some(Any);
    }
    if t == "" {
      return None;
    }
    var values := ParseList(Split(t, ','), lo, hi);
    if values.None? {
      return None;
    }
    return Some(Values(values.value));
  }

  /** The integers of a list whose parts are all in range. */
  ghost predicate Collected(parts: seq<string>, lo: int, hi: int, values: set<int>) {
    (forall i :: 0 <= i < |parts| ==> InRange(parts[i], lo, hi)) && forall v :: v in values <==> Listed(parts, v)
  }

  method ParseList(parts: seq<string>, lo: int, hi: int) returns (r: Option<set<int>>)
    ensures r.None? ==> exists i :: 0 <= i < |parts| && !InRange(parts[i], lo, hi)
    ensures r.Some? ==> Collected(parts, lo, hi, r.value)
  {
    var values: set<int> := {};
    for i := 0 to |parts|
      invariant Collected(parts[..i], lo, hi, values)
    {
      var n := Atoi(Trim(parts[i]));
      if n.None? || n.value < lo || n.value > hi {
        return None;
      }
      CollectedAppend(parts, i, lo, hi, values, n.value);
      values := values + {n.value};
    }
    assert parts[..|parts|] == parts;
    return Some(values);
  }

  lemma CollectedAppend(parts: seq<string>, i: nat, lo: int, hi: int, values: set<int>, n: int)
    requires i < |parts| && Collected(parts[..i], lo, hi, values) && Atoi(Trim(parts[i])) == Some(n) && lo <= n <= hi
    ensures Collected(parts[..i + 1], lo, hi, values + {n})
  {
    ListedAppend(parts, i, n);
    var few, more := parts[..i], parts[..i + 1];
    forall k | 0 <= k < |more| ensures InRange(more[k], lo, hi) {
      assert k < i ==> few[k] == more[k] && InRange(few[k], lo, hi);
    }
  }

  /** One of the first `i` parts is the integer `v`. */
  ghost predicate ListedBefore(parts: seq<string>, i: nat, v: int)
    requires i <= |parts|
  {
    exists k :: 0 <= k < i && Atoi(Trim(parts[k])) == Some(v)
  }

  lemma ListedIn(parts: seq<string>, i: nat, v: int)
    requires i <= |parts|
    ensures Listed(parts[..i], v) <==> ListedBefore(parts, i, v)
  {
    if Listed(parts[..i], v) {
      var k :| 0 <= k < i && Atoi(Trim(parts[..i][k])) == Some(v);
      assert Atoi(Trim(parts[k])) == Some(v);
    }
    if ListedBefore(parts, i, v) {
      var k :| 0 <= k < i && Atoi(Trim(parts[k])) == Some(v);
      assert Atoi(Trim(parts[..i][k])) == Some(v);
    }
  }

  lemma ListedNext(parts: seq<string>, i: nat, n: int, v: int)
    requires i < |parts| && Atoi(Trim(parts[i])) == Some(n)
    ensures ListedBefore(parts, i + 1, v) <==> ListedBefore(parts, i, v) || v == n
  {
  }

  lemma ListedAppend(parts: seq<string>, i: nat, n: int)
    requires i < |parts| && Atoi(Trim(parts[i])) == Some(n)
    ensures forall v :: Listed(parts[..i + 1], v) <==> Listed(parts[..i], v) || v == n
  {
    forall v ensures Listed(parts[..i + 1], v) <==> Listed(parts[..i], v) || v == n {
      ListedIn(parts, i, v);
      ListedIn(parts, i + 1, v);
      ListedNext(parts, i, n, v);
    }
  }
  /** A text has one meaning at most. */
  lemma MeaningIsUnique(raw: string, lo: int, hi: int, f: FieldSet, g: FieldSet)
    requires Means(raw, lo, hi, f) && Means(raw, lo, hi, g)
    ensures f == g
  {
    match (f, g) {
      case (Values(vs), Values(ws)) =>
        forall v ensures v in vs <==> v in ws {
          assert v in vs <==> Listed(Split(Trim(raw), ','), v);
        }
        assert vs == ws;
      case _ =>
    }
  }

  ghost predicate SpecMeans(expr: string, s: Spec) {
    var fs := Fields(expr);
    |fs| == 5 && Means(fs[0], 0, 59, s.min) && Means(fs[1], 0, 23, s.hour) && Means(fs[2], 1, 31, s.dom)
    && Means(fs[3], 1, 12, s.mon) && Means(fs[4], 0, 6, s.dow)
  }

  /** Accepts exactly the expressions that mean a schedule, and returns it. */
  method ParseCron(expr: string) returns (r: Option<Spec>)
    ensures r.Some? ==> SpecMeans(expr, r.value)
    ensures r.None? ==> forall s :: !SpecMeans(expr, s)
  {
    var fields := Fields(expr);
    if |fields| != 5 {
      return None;
    }
    var min := ParseField(fields[0], 0, 59);
    if min.None? { return None; }
    var hour := ParseField(fields[1], 0, 23);
    if hour.None? { return None; }
    var dom := ParseField(fields[2], 1, 31);
    if dom.None? { return None; }
    var mon := ParseField(fields[3], 1, 12);
    if mon.None? { return None; }
    var dow := ParseField(fields[4], 0, 6);
    if dow.None? { return None; }
    return Some(Spec(min.value, hour.value, dom.value, mon.value, dow.value));
  }

  // ------------------------------------------------------------------ rendering

  function Numerals(ns: seq<nat>): (r: seq<string>)
    ensures |r| == |ns| && forall i :: 0 <= i < |ns| ==> r[i] == Digits(ns[i])
  {
    seq(|ns|, i requires 0 <= i < |ns| => Digits(ns[i]))
  }

  lemma NoSpaceToTrim(s: string)
    requires s != "" && !IsSpace(s[0]) && !IsSpace(s[|s| - 1])
    ensures Trim(s) == s
  {
  }

  lemma AtoiOfDigits(n: nat)
    ensures Trim(Digits(n)) == Digits(n) && Atoi(Digits(n)) == Some(n) && ',' !in Digits(n) && IsWord(Digits(n))
  {
    var d := Digits(n);
    ValueOfDigits(n);
    DigitIsNoSpace(d);
    NoSpaceToTrim(d);
  }

  /** A numeral, leading zeros and all, perhaps behind one sign, is an integer... */
  lemma AtoiOfNumeral(d: string)
    requires d != "" && AllDigits(d)
    ensures Atoi(d) == Atoi("+" + d) == Some(Value(d)) && Atoi("-" + d) == Some(0 - Value(d))
  {
    DigitIsNoSpace(d);
    assert ("+" + d)[1..] == d && ("-" + d)[1..] == d;
  }

  /** ...and there is no other. */
  lemma AtoiIsNumeral(s: string) returns (sign: string, d: string)
    requires Atoi(s).Some?
    ensures s == sign + d && (sign == "" || sign == "+" || sign == "-") && d != "" && AllDigits(d)
  {
    sign := if s[0] == '+' then "+" else if s[0] == '-' then "-" else "";
    d := s[|sign|..];
  }

  lemma DigitIsNoSpace(d: string)
    requires AllDigits(d)
    ensures (forall i :: 0 <= i < |d| ==> !IsSpace(d[i])) && ',' !in d && (d != "" ==> d[0] !in "+-")
  {
    forall i | 0 <= i < |d| ensures !IsSpace(d[i]) && d[i] != ',' && d[i] !in "+-" {
      assert IsDigit(d[i]);
    }
  }

  lemma {:induction false} CommasOfDigits(ns: seq<nat>)
    requires ns != []
    ensures var s := Join(Numerals(ns), ','); IsWord(s) && IsDigit(s[0]) && IsDigit(s[|s| - 1])
  {
    AtoiOfDigits(ns[0]);
    if |ns| > 1 {
      CommasOfDigits(ns[1..]);
      assert Numerals(ns)[1..] == Numerals(ns[1..]);
      var s, d, rest := Join(Numerals(ns), ','), Digits(ns[0]), Join(Numerals(ns[1..]), ',');
      assert s == d + ("," + rest);
      JoinedWord(d, rest);
    }
  }

  lemma JoinedWord(d: string, rest: string)
    requires IsWord(d) && IsWord(rest)
    ensures var s := d + ("," + rest); IsWord(s) && s[0] == d[0] && s[|s| - 1] == rest[|rest| - 1]
  {
    var s := d + ("," + rest);
    forall i | 0 <= i < |s| ensures !IsSpace(s[i]) {
      assert s[i] == if i < |d| then d[i] else if i == |d| then ',' else rest[i - |d| - 1];
    }
  }

  lemma ListedNumerals(ns: seq<nat>, v: int)
    ensures Listed(Numerals(ns), v) <==> v in (set n | n in ns :: n as int)
  {
    var parts := Numerals(ns);
    forall i | 0 <= i < |ns| ensures Atoi(Trim(parts[i])) == Some(ns[i] as int) {
      AtoiOfDigits(ns[i]);
    }
    if v in (set n | n in ns :: n as int) {
      var i :| 0 <= i < |ns| && ns[i] == v;
      assert Atoi(Trim(parts[i])) == Some(v);
    }
    if Listed(parts, v) {
      var i :| 0 <= i < |parts| && Atoi(Trim(parts[i])) == Some(v);
      assert ns[i] in ns;
    }
  }

  lemma SplitNumerals(ns: seq<nat>)
    requires ns != []
    ensures Trim(Join(Numerals(ns), ',')) == Join(Numerals(ns), ',') && Join(Numerals(ns), ',') != "" &&
        Join(Numerals(ns), ',') != "*"
    ensures Split(Join(Numerals(ns), ','), ',') == Numerals(ns)
  {
    CommasOfDigits(ns);
    NoSpaceToTrim(Join(Numerals(ns), ','));
    forall i | 0 <= i < |ns| ensures ',' !in Numerals(ns)[i] {
      AtoiOfDigits(ns[i]);
    }
    SplitOfJoin(Numerals(ns), ',');
  }

  /** A list of integers in range, written with commas, means their set. */
  lemma ListMeans(ns: seq<nat>, lo: int, hi: int)
    requires ns != [] && forall i :: 0 <= i < |ns| ==> lo <= ns[i] <= hi
    ensures Means(Join(Numerals(ns), ','), lo, hi, Values(set n | n in ns :: n as int))
  {
    SplitNumerals(ns);
    forall i | 0 <= i < |ns| ensures InRange(Numerals(ns)[i], lo, hi) {
      AtoiOfDigits(ns[i]);
    }
    forall v ensures v in (set n | n in ns :: n as int) <==> Listed(Numerals(ns), v) {
      ListedNumerals(ns, v);
    }
  }

  /** A field as one would write it. */
  datatype Written = Star | List(ns: seq<nat>)

  function TextOf(w: Written): string {
    if w.Star? then "*" else Join(Numerals(w.ns), ',')
  }

  function SetOf(w: Written): FieldSet {
    if w.Star? then Any else Values(set n | n in w.ns :: n as int)
  }

  predicate Within(w: Written, lo: int, hi: int) {
    w.List? ==> w.ns != [] && forall i :: 0 <= i < |w.ns| ==> lo <= w.ns[i] <= hi
  }

  lemma WrittenMeans(w: Written, lo: int, hi: int)
    requires Within(w, lo, hi)
    ensures Means(TextOf(w), lo, hi, SetOf(w)) && IsWord(TextOf(w))
  {
    if w.Star? {
      NoSpaceToTrim("*");
    } else {
      CommasOfDigits(w.ns);
      ListMeans(w.ns, lo, hi);
    }
  }

  function Line(a: string, b: string, c: string, d: string, e: string): string {
    a + (" " + (b + (" " + (c + (" " + (d + (" " + e)))))))
  }

  lemma FieldsOfLine(a: string, b: string, c: string, d: string, e: string)
    requires IsWord(a) && IsWord(b) && IsWord(c) && IsWord(d) && IsWord(e)
    ensures Fields(Line(a, b, c, d, e)) == [a, b, c, d, e]
  {
    var de := d + (" " + e);
    var cde := c + (" " + de);
    var bcde := b + (" " + cde);
    FieldsOfWord(a, bcde);
    FieldsOfWord(b, cde);
    FieldsOfWord(c, de);
    FieldsOfWord(d, e);
    FieldsOfWord(e, "");
  }

  lemma LineMeans(a: string, b: string, c: string, d: string, e: string, s: Spec)
    requires IsWord(a) && IsWord(b) && IsWord(c) && IsWord(d) && IsWord(e)
    requires Means(a, 0, 59, s.min) && Means(b, 0, 23, s.hour) && Means(c, 1, 31, s.dom)
    requires Means(d, 1, 12, s.mon) && Means(e, 0, 6, s.dow)
    ensures SpecMeans(Line(a, b, c, d, e), s)
  {
    FieldsOfLine(a, b, c, d, e);
  }

  /** Writing five fields and parsing them back gives the sets that were written. */
  lemma ParseOfLine(min: Written, hour: Written, dom: Written, mon: Written, dow: Written)
    requires Within(min, 0, 59) && Within(hour, 0, 23) && Within(dom, 1, 31) && Within(mon, 1, 12) && Within(dow, 0, 6)
    ensures SpecMeans(Line(TextOf(min), TextOf(hour), TextOf(dom), TextOf(mon), TextOf(dow)),
              Spec(SetOf(min), SetOf(hour), SetOf(dom), SetOf(mon), SetOf(dow)))
  {
    WrittenMeans(min, 0, 59);
    WrittenMeans(hour, 0, 23);
    WrittenMeans(dom, 1, 31);
    WrittenMeans(mon, 1, 12);
    WrittenMeans(dow, 0, 6);
    LineMeans(TextOf(min), TextOf(hour), TextOf(dom), TextOf(mon), TextOf(dow),
              Spec(SetOf(min), SetOf(hour), SetOf(dom), SetOf(mon), SetOf(dow)));
  }

  lemma SpecIsUnique(expr: string, s: Spec, t: Spec)
    requires SpecMeans(expr, s) && SpecMeans(expr, t)
    ensures s == t
  {
    var fs := Fields(expr);
    MeaningIsUnique(fs[0], 0, 59, s.min, t.min);
    MeaningIsUnique(fs[1], 0, 23, s.hour, t.hour);
    MeaningIsUnique(fs[2], 1, 31, s.dom, t.dom);
    MeaningIsUnique(fs[3], 1, 12, s.mon, t.mon);
    MeaningIsUnique(fs[4], 0, 6, s.dow, t.dow);
  }

  predicate Admits(w: Written, v: int) {
    w.Star? || exists i :: 0 <= i < |w.ns| && w.ns[i] == v
  }

  lemma SetAdmits(w: Written, v: int)
    ensures Has(SetOf(w), v) <==> Admits(w, v)
  {
    if w.List? {
      forall i | 0 <= i < |w.ns| && w.ns[i] == v ensures v in SetOf(w).values {
        assert w.ns[i] in w.ns;
      }
    }
  }

  /** Whatever schedule a written line is read as, it matches an instant exactly
      when every field of the line admits it, at the beginning of a minute. */
  lemma LineMatches(min: Written, hour: Written, dom: Written, mon: Written, dow: Written, s: Spec, c: Civil)
    requires Within(min, 0, 59) && Within(hour, 0, 23) && Within(dom, 1, 31) && Within(mon, 1, 12) && Within(dow, 0, 6)
    requires SpecMeans(Line(TextOf(min), TextOf(hour), TextOf(dom), TextOf(mon), TextOf(dow)), s)
    ensures Matches(s, c) <==>
            (c.second == 0 && Admits(min, c.minute) && Admits(hour, c.hour) && Admits(dom, c.day) &&
              Admits(mon, c.month) && Admits(dow, c.weekday))
  {
    ParseOfLine(min, hour, dom, mon, dow);
    SpecIsUnique(Line(TextOf(min), TextOf(hour), TextOf(dom), TextOf(mon), TextOf(dow)), s,
      Spec(SetOf(min), SetOf(hour), SetOf(dom), SetOf(mon), SetOf(dow)));
    SetAdmits(min, c.minute);
    SetAdmits(hour, c.hour);
    SetAdmits(dom, c.day);
    SetAdmits(mon, c.month);
    SetAdmits(dow, c.weekday);
  }
}
