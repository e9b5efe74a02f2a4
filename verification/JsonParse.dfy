/** A parser for canonical JSON, and the proof that it inverts the encoding: no
    two values share a text, and no text is a beginning of another's. */
module JsonParse {
  import opened Options
  import opened Decimal
  import opened JsonText
  import opened Texts
  import Lex

  type Parsed<T> = Option<(T, string)>

  /** `word` at the beginning of `s`, and what is behind it. */
  function Expect<T>(s: string, word: string, value: T): (r: Parsed<T>)
    ensures r.Some? && word != "" ==> |r.value.1| < |s|
  {
    if |s| >= |word| && s[..|word|] == word then Some((value, s[|word|..])) else None
  }

  /** How many characters of a numeral a text begins with. */
  function NumeralEnd(s: string): (k: nat)
    ensures k <= |s| && (forall i :: 0 <= i < k ==> NumeralChar(s[i])) && (k < |s| ==> !NumeralChar(s[k]))
  {
    if s == "" || !NumeralChar(s[0]) then 0 else 1 + NumeralEnd(s[1..])
  }

  function ParseNumber(s: string): (r: Parsed<Json>)
    ensures r.Some? ==> |r.value.1| < |s|
  {
    var k := NumeralEnd(s);
    if k > 0 && (IsDigit(s[0]) || s[0] == '-') then Some((Num(s[..k]), s[k..])) else None
  }

  /** A string body, behind its opening quote. */
  function ParseString(s: string): (r: Parsed<Json>)
    ensures r.Some? ==> |r.value.1| < |s|
  {
    match Unquote(s)
    case None => None
    case Some((t, rest)) => Some((Str(t), rest))
  }

  function ParseValue(s: string): (r: Parsed<Json>)
    ensures r.Some? ==> |r.value.1| < |s|
    decreases |s|, 0
  {
    if s == "" then None
    else if s[0] == 'n' then Expect(s, "null", Null)
    else if s[0] == 't' then Expect(s, "true", Bool(true))
    else if s[0] == 'f' then Expect(s, "false", Bool(false))
    else if s[0] == '"' then ParseString(s[1..])
    else if s[0] == '[' then ParseArray(s[1..])
    else if s[0] == '{' then ParseObject(s[1..])
    else ParseNumber(s)
  }

  /** An array, behind its opening bracket. */
  function ParseArray(s: string): (r: Parsed<Json>)
    ensures r.Some? ==> |r.value.1| < |s|
    decreases |s|, 2
  {
    if s != "" && s[0] == ']' then Some((Arr([]), s[1..]))
    else
      match ParseElements(s)
      case None => None
      case Some((es, rest)) => Some((Arr(es), rest))
  }

  /** An object, behind its opening brace. */
  function ParseObject(s: string): (r: Parsed<Json>)
    ensures r.Some? ==> |r.value.1| < |s|
    decreases |s|, 4
  {
    if s != "" && s[0] == '}' then Some((Obj(map[]), s[1..]))
    else
      match ParseMembers(s)
      case None => None
      case Some((m, rest)) => Some((Obj(m), rest))
  }

  /** One or more values, separated by commas and closed by a bracket. */
  function ParseElements(s: string): (r: Parsed<seq<Json>>)
    ensures r.Some? ==> |r.value.1| < |s|
    decreases |s|, 1
  {
    match ParseValue(s)
    case None => None
    case Some((j, rest)) =>
      if rest == "" then None
      else if rest[0] == ']' then Some(([j], rest[1..]))
      else if rest[0] != ',' then None
      else
        match ParseElements(rest[1..])
        case None => None
        case Some((es, end)) => Some(([j] + es, end))
  }

  /** `"name":value` */
  function ParseMember(s: string): (r: Parsed<(string, Json)>)
    ensures r.Some? ==> |r.value.1| < |s|
    decreases |s|, 2
  {
    if s == "" || s[0] != '"' then None
    else
      match Unquote(s[1..])
      case None => None
      case Some((key, rest)) => ParseNamed(key, rest)
  }

  /** `:value`, the value of the member `key`. */
  function ParseNamed(key: string, s: string): (r: Parsed<(string, Json)>)
    ensures r.Some? ==> |r.value.1| < |s|
    decreases |s|, 1
  {
    if s == "" || s[0] != ':' then None
    else
      match ParseValue(s[1..])
      case None => None
      case Some((j, end)) => Some(((key, j), end))
  }

  function ParseMembers(s: string): (r: Parsed<map<string, Json>>)
    ensures r.Some? ==> |r.value.1| < |s|
    decreases |s|, 3
  {
    match ParseMember(s)
    case None => None
    case Some((m, rest)) =>
      if rest == "" then None
      else if rest[0] == '}' then Some((map[m.0 := m.1], rest[1..]))
      else if rest[0] != ',' then None
      else
        match ParseMembers(rest[1..])
        case None => None
        case Some((ms, end)) => Some((ms[m.0 := m.1], end))
  }

  // ----------------------------------------------------------------- round trip

  /** What may stand behind a number. */
  predicate Ends(rest: string) {
    rest != "" ==> !NumeralChar(rest[0])
  }

  ghost predicate RoundTrips(j: Json, rest: string) {
    ParseValue(Encode(j) + rest) == Some((j, rest))
  }

  lemma {:induction false} NumeralEndOf(text: string, rest: string)
    requires Ends(rest) && forall i :: 0 <= i < |text| ==> NumeralChar(text[i])
    ensures NumeralEnd(text + rest) == |text|
  {
    if text == "" {
      assert text + rest == rest;
    } else {
      assert (text + rest)[1..] == text[1..] + rest;
      NumeralEndOf(text[1..], rest);
    }
  }

  lemma NumberRoundTrip(text: Numeral, rest: string)
    requires Ends(rest)
    ensures RoundTrips(Num(text), rest)
  {
    NumeralEndOf(text, rest);
    assert (text + rest)[..|text|] == text && (text + rest)[|text|..] == rest;
  }

  lemma StringRoundTrip(t: string, rest: string)
    ensures RoundTrips(Str(t), rest)
  {
    var tail := Escaped(t) + ("\"" + rest);
    assert Quote(t) + rest == "\"" + tail;
    UnquoteOfEscaped(t, rest);
    AfterFirst('"', tail);
  }

  lemma AfterFirst(c: char, tail: string)
    requires c in "\"[{"
    ensures ParseValue([c] + tail) ==
            if c == '"' then ParseString(tail) else if c == '[' then ParseArray(tail) else ParseObject(tail)
  {
    assert ([c] + tail)[1..] == tail;
  }

  lemma WordRoundTrip(word: string, rest: string)
    ensures (word + rest)[..|word|] == word && (word + rest)[|word|..] == rest
  {
  }

  /** An encoding never begins with a closing bracket. */
  lemma FirstChar(j: Json)
    ensures Encode(j) != "" && Encode(j)[0] !in "]},:"
  {
  }

  lemma {:induction false} ValueRoundTrip(j: Json, rest: string)
    requires Ends(rest)
    ensures RoundTrips(j, rest)
    decreases j, 3
  {
    match j {
      case Null => WordRoundTrip("null", rest);
      case Bool(b) => WordRoundTrip(Encode(j), rest);
      case Num(text) => NumberRoundTrip(text, rest);
      case Str(t) => StringRoundTrip(t, rest);
      case Arr(es) => ArrayRoundTrip(j, rest);
      case Obj(m) => ObjectRoundTrip(j, rest);
    }
  }

  lemma {:induction false} ArrayRoundTrip(j: Json, rest: string)
    requires j.Arr?
    ensures RoundTrips(j, rest)
    decreases j, 2
  {
    var body := Join(EncodeAll(j.elems), ',') + ("]" + rest);
    assert Encode(j) + rest == "[" + body;
    AfterFirst('[', body);
    if j.elems == [] {
      assert body == "]" + rest && body[1..] == rest;
    } else {
      ElementsRoundTrip(j, j.elems, rest);
      FirstChar(j.elems[0]);
      assert body[0] == Encode(j.elems[0])[0];
    }
  }

  lemma LastElement(text: string, j: Json, rest: string)
    requires ParseValue(text + ("]" + rest)) == Some((j, "]" + rest))
    ensures ParseElements(text + ("]" + rest)) == Some(([j], rest))
  {
    assert ("]" + rest)[1..] == rest;
  }

  lemma NextElement(text: string, j: Json, more: string, es: seq<Json>, end: string)
    requires ParseValue(text + ("," + more)) == Some((j, "," + more)) && ParseElements(more) == Some((es, end))
    ensures ParseElements(text + ("," + more)) == Some(([j] + es, end))
  {
    assert ("," + more)[1..] == more;
  }

  lemma ElementsText(es: seq<Json>, end: string)
    requires |es| > 1
    ensures Join(EncodeAll(es), ',') + end == Encode(es[0]) + ("," + (Join(EncodeAll(es[1..]), ',') + end))
  {
    EncodeAllTail(es);
    CommasHead(EncodeAll(es), end);
  }

  lemma EncodeAllTail(es: seq<Json>)
    requires es != []
    ensures EncodeAll(es)[1..] == EncodeAll(es[1..]) && EncodeAll(es)[0] == Encode(es[0])
  {
  }

  lemma {:induction false} ElementsRoundTrip(j: Json, es: seq<Json>, rest: string)
    requires j.Arr? && es != [] && forall e :: e in es ==> e in j.elems
    ensures ParseElements(Join(EncodeAll(es), ',') + ("]" + rest)) == Some((es, rest))
    decreases j, 1, |es|
  {
    assert es[0] in es;
    if |es| == 1 {
      assert EncodeAll(es) == [Encode(es[0])] && es == [es[0]];
      ValueRoundTrip(es[0], "]" + rest);
      LastElement(Encode(es[0]), es[0], rest);
    } else {
      var more := Join(EncodeAll(es[1..]), ',') + ("]" + rest);
      ElementsText(es, "]" + rest);
      ValueRoundTrip(es[0], "," + more);
      ElementsRoundTrip(j, es[1..], rest);
      NextElement(Encode(es[0]), es[0], more, es[1..], rest);
      assert es == [es[0]] + es[1..];
    }
  }

  /** The members of some keys, as a map. */
  function Restrict(m: map<string, Json>, keys: seq<string>): map<string, Json> {
    map k | k in keys && k in m :: m[k]
  }

  lemma {:induction false} MemberRoundTrip(j: Json, key: string, rest: string)
    requires j.Obj? && key in j.fields && Ends(rest)
    ensures ParseMember(Member(key, Encode(j.fields[key])) + rest) == Some(((key, j.fields[key]), rest))
    decreases j, 0
  {
    ValueRoundTrip(j.fields[key], rest);
    MemberOf(key, Encode(j.fields[key]), j.fields[key], rest);
  }

  lemma MemberOf(key: string, text: string, j: Json, rest: string)
    requires ParseValue(text + rest) == Some((j, rest))
    ensures ParseMember(Member(key, text) + rest) == Some(((key, j), rest))
  {
    var tail := ":" + (text + rest);
    MemberShape(key, text, rest);
    UnquoteOfEscaped(key, tail);
    QuotedFirst(Escaped(key) + ("\"" + tail), key, tail);
    NamedFirst(key, text + rest);
  }

  lemma MemberShape(key: string, text: string, rest: string)
    ensures Member(key, text) + rest == "\"" + (Escaped(key) + ("\"" + (":" + (text + rest))))
  {
  }

  lemma NamedFirst(key: string, s: string)
    requires ParseValue(s).Some?
    ensures ParseNamed(key, ":" + s) == Some(((key, ParseValue(s).value.0), ParseValue(s).value.1))
  {
    assert (":" + s)[1..] == s;
  }

  lemma QuotedFirst(quoted: string, key: string, tail: string)
    requires Unquote(quoted) == Some((key, tail))
    ensures ParseMember("\"" + quoted) == ParseNamed(key, tail)
  {
    assert ("\"" + quoted)[1..] == quoted;
  }

  lemma RestrictMore(m: map<string, Json>, keys: seq<string>)
    requires keys != [] && keys[0] in m
    ensures Restrict(m, keys) == Restrict(m, keys[1..])[keys[0] := m[keys[0]]]
  {
    assert keys == [keys[0]] + keys[1..];
  }

  lemma {:induction false} MembersRoundTrip(j: Json, keys: seq<string>, rest: string)
    requires j.Obj? && keys != [] && forall k :: k in keys ==> k in j.fields
    ensures ParseMembers(Join(EncodeMembers(j, keys), ',') + ("}" + rest)) == Some((Restrict(j.fields, keys), rest))
    decreases j, 1, |keys|
  {
    assert keys[0] in keys;
    var key, end := keys[0], "}" + rest;
    var text := Member(key, Encode(j.fields[key]));
    if |keys| == 1 {
      assert EncodeMembers(j, keys) == [text];
      MemberRoundTrip(j, key, end);
      LastMember(text, key, j.fields[key], rest);
      assert Restrict(j.fields, keys) == map[key := j.fields[key]];
    } else {
      var more := Join(EncodeMembers(j, keys[1..]), ',') + end;
      MembersText(j, keys, end);
      MemberRoundTrip(j, key, "," + more);
      MembersRoundTrip(j, keys[1..], rest);
      NextMember(text, key, j.fields[key], more, Restrict(j.fields, keys[1..]), rest);
      RestrictMore(j.fields, keys);
    }
  }

  lemma LastMember(text: string, key: string, j: Json, rest: string)
    requires ParseMember(text + ("}" + rest)) == Some(((key, j), "}" + rest))
    ensures ParseMembers(text + ("}" + rest)) == Some((map[key := j], rest))
  {
    assert ("}" + rest)[1..] == rest;
  }

  lemma NextMember(text: string, key: string, j: Json, more: string, ms: map<string, Json>, rest: string)
    requires ParseMember(text + ("," + more)) == Some(((key, j), "," + more))
    requires ParseMembers(more) == Some((ms, rest))
    ensures ParseMembers(text + ("," + more)) == Some((ms[key := j], rest))
  {
    assert ("," + more)[1..] == more;
  }

  lemma MembersText(j: Json, keys: seq<string>, end: string)
    requires j.Obj? && |keys| > 1 && forall k :: k in keys ==> k in j.fields
    ensures keys[0] in keys && (forall k :: k in keys[1..] ==> k in keys)
    ensures Join(EncodeMembers(j, keys), ',') + end ==
        Member(keys[0], Encode(j.fields[keys[0]])) + ("," + (Join(EncodeMembers(j, keys[1..]), ',') + end))
  {
    var texts := EncodeMembers(j, keys);
    assert texts[1..] == EncodeMembers(j, keys[1..]);
    CommasHead(texts, end);
  }

  lemma CommasHead(texts: seq<string>, end: string)
    requires |texts| > 1
    ensures Join(texts, ',') + end == texts[0] + ("," + (Join(texts[1..], ',') + end))
  {
  }

  lemma Enclosed(open: string, body: string, close: string, rest: string)
    ensures (open + (body + close)) + rest == open + (body + (close + rest))
  {
  }

  lemma {:induction false} ObjectRoundTrip(j: Json, rest: string)
    requires j.Obj?
    ensures RoundTrips(j, rest)
    decreases j, 2
  {
    var keys := Lex.Sorted(j.fields.Keys);
    var body := Join(EncodeMembers(j, keys), ',') + ("}" + rest);
    Enclosed("{", Join(EncodeMembers(j, keys), ','), "}", rest);
    AfterFirst('{', body);
    if keys == [] {
      assert body == "}" + rest && body[1..] == rest;
      assert j.fields == map[];
    } else {
      MembersRoundTrip(j, keys, rest);
      assert Restrict(j.fields, keys) == j.fields;
      MembersStart(j, keys);
      assert body[0] == '"';
    }
  }

  lemma MembersStart(j: Json, keys: seq<string>)
    requires j.Obj? && keys != [] && forall k :: k in keys ==> k in j.fields
    ensures Join(EncodeMembers(j, keys), ',') != "" && Join(EncodeMembers(j, keys), ',')[0] == '"'
  {
    var texts := EncodeMembers(j, keys);
    assert texts[0][0] == '"';
  }

  /** Canonical texts are uniquely decodable: the parser recovers the value. */
  lemma ParseOfEncode(j: Json)
    ensures ParseValue(Encode(j)) == Some((j, ""))
  {
    ValueRoundTrip(j, "");
    assert Encode(j) + "" == Encode(j);
  }

  /** Equal texts mean equal values. */
  lemma EncodeInjective(j: Json, k: Json)
    requires Encode(j) == Encode(k)
    ensures j == k
  {
    ParseOfEncode(j);
    ParseOfEncode(k);
  }
}
