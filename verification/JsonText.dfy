/** Canonical JSON: one text for each abstract value, and a parser that recovers
    the value from it. Strings follow section 7 of RFC 8259 with the fewest
    escapes; object members stand in the byte order of their names. */
module JsonText {
  import opened Options
  import opened Decimal
  import opened Texts
  import Lex

  /** The characters of integers and of the shortest decimal texts of floats. */
  predicate NumeralChar(c: char) {
    IsDigit(c) || c in "+-.e"
  }

  predicate IsNumeral(s: string) {
    s != "" && (IsDigit(s[0]) || s[0] == '-') && forall i :: 0 <= i < |s| ==> NumeralChar(s[i])
  }

  type Numeral = s: string | IsNumeral(s) witness "0"

  /** A number is its text: `3` is the same number as an integer and as a float. */
  datatype Json =
    | Null
    | Bool(b: bool)
    | Num(text: Numeral)
    | Str(s: string)
    | Arr(elems: seq<Json>)
    | Obj(fields: map<string, Json>)

  // ------------------------------------------------------------------- strings

  function HexDigit(n: nat): char
    requires n < 16
  {
    "0123456789abcdef"[n]
  }

  /** How one byte is written inside a string literal. */
  function Escape(c: char): (s: string)
    ensures s != ""
  {
    if c == '"' then "\\\""
    else if c == '\\' then "\\\\"
    else if c == '\n' then "\\n"
    else if c == '\r' then "\\r"
    else if c == '\t' then "\\t"
    else if c == '\U{8}' then "\\b"
    else if c == '\U{C}' then "\\f"
    else if c < '\U{20}' then "\\u00" + [HexDigit(c as nat / 16), HexDigit(c as nat % 16)]
    else [c]
  }

  function Escaped(s: string): string {
    if s == "" then "" else Escape(s[0]) + Escaped(s[1..])
  }

  function Quote(s: string): string {
    "\"" + Escaped(s) + "\""
  }

  function HexValue(c: char): Option<nat> {
    if '0' <= c <= '9' then Some(c as nat - '0' as nat)
    else if 'a' <= c <= 'f' then Some(c as nat - 'a' as nat + 10)
    else None
  }

  /** The byte a backslash and what follows stand for, and how much follows. */
  function ReadEscape(s: string): (r: Option<(char, nat)>)
    ensures r.Some? ==> 1 <= r.value.1 <= |s|
  {
    if s == "" then None
    else
      match s[0]
      case '"' => Some(('"', 1))
      case '\\' => Some(('\\', 1))
      case 'n' => Some(('\n', 1))
      case 'r' => Some(('\r', 1))
      case 't' => Some(('\t', 1))
      case 'b' => Some(('\U{8}', 1))
      case 'f' => Some(('\U{C}', 1))
      case 'u' => if |s| < 5 || s[1..3] != "00" then None else ReadHex(s[3], s[4])
      case _ => None
  }

  function ReadHex(h: char, l: char): (r: Option<(char, nat)>)
    ensures r.Some? ==> r.value.1 == 5
  {
    match (HexValue(h), HexValue(l))
    case (Some(x), Some(y)) => Some(((16 * x + y) as char, 5))
    case _ => None
  }

  /** The first byte of a string body, and how much of the text it takes. */
  function ReadChar(s: string): (r: Option<(char, nat)>)
    requires s != ""
    ensures r.Some? ==> 1 <= r.value.1 <= |s|
  {
    if s[0] != '\\' then Some((s[0], 1))
    else
      match ReadEscape(s[1..])
      case None => None
      case Some((c, k)) => Some((c, k + 1))
  }

  /** A string body up to its closing quote, and the rest behind the quote. */
  function Unquote(s: string): (r: Option<(string, string)>)
    ensures r.Some? ==> |r.value.1| < |s|
    decreases |s|
  {
    if s == "" then None
    else if s[0] == '"' then Some(("", s[1..]))
    else
      match ReadChar(s)
      case None => None
      case Some((c, k)) =>
        match Unquote(s[k..])
        case None => None
        case Some((t, rest)) => Some(([c] + t, rest))
  }

  lemma ReadCharOfEscape(c: char, rest: string)
    ensures ReadChar(Escape(c) + rest) == Some((c, |Escape(c)|))
    ensures (Escape(c) + rest)[0] != '"'
  {
    var s := Escape(c) + rest;
    if c < '\U{20}' && |Escape(c)| == 6 {
      var h, l := HexDigit(c as nat / 16), HexDigit(c as nat % 16);
      assert Escape(c) == ['\\', 'u', '0', '0', h, l];
      assert s[1..] == ['u', '0', '0', h, l] + rest;
      assert s[1..][1..3] == ['0', '0'] == "00";
      HexRoundTrip(c as nat / 16);
      HexRoundTrip(c as nat % 16);
    }
  }

  /** Of the spellings of a character that section 7 of RFC 8259 allows - no quote
      and no control character bare - the shortest is written. */
  lemma EscapeIsShortest(c: char, t: string)
    requires t != "" && t[0] >= '\U{20}' && t[0] != '"' && ReadChar(t) == Some((c, |t|))
    ensures |Escape(c)| <= |t|
  {
  }

  lemma HexRoundTrip(n: nat)
    requires n < 16
    ensures HexValue(HexDigit(n)) == Some(n)
  {
  }

  lemma {:induction false} UnquoteOfEscaped(s: string, rest: string)
    ensures Unquote(Escaped(s) + ("\"" + rest)) == Some((s, rest))
  {
    var tail := "\"" + rest;
    if s == "" {
      assert Escaped(s) + tail == tail && tail[1..] == rest;
    } else {
      var more := Escaped(s[1..]) + tail;
      var all := Escape(s[0]) + more;
      assert Escaped(s) + tail == all;
      ReadCharOfEscape(s[0], more);
      assert all[|Escape(s[0])|..] == more;
      UnquoteOfEscaped(s[1..], rest);
      assert s == [s[0]] + s[1..];
    }
  }

  // ------------------------------------------------------------------- encoding

  function FormatInt(n: int): Numeral {
    if n < 0 then "-" + Digits(-n) else Digits(n)
  }

  function Member(key: string, text: string): string {
    Quote(key) + (":" + text)
  }

  function Encode(j: Json): string
    decreases j, 0
  {
    match j
    case Null => "null"
    case Bool(b) => if b then "true" else "false"
    case Num(text) => text
    case Str(s) => Quote(s)
    case Arr(es) => "[" + (Join(EncodeAll(es), ',') + "]")
    case Obj(m) => "{" + (Join(EncodeMembers(j, Lex.Sorted(m.Keys)), ',') + "}")
  }

  function EncodeAll(es: seq<Json>): (r: seq<string>)
    ensures |r| == |es| && forall i :: 0 <= i < |es| ==> r[i] == Encode(es[i])
    decreases es
  {
    if es == [] then [] else [Encode(es[0])] + EncodeAll(es[1..])
  }

  function EncodeMembers(j: Json, keys: seq<string>): (r: seq<string>)
    requires j.Obj? && forall k :: k in keys ==> k in j.fields
    ensures |r| == |keys| && forall i :: 0 <= i < |keys| ==>
        keys[i] in j.fields && r[i] == Member(keys[i], Encode(j.fields[keys[i]]))
    decreases j, 0, |keys|
  {
    if keys == [] then []
    else
      assert keys[0] in keys;
      [Member(keys[0], Encode(j.fields[keys[0]]))] + EncodeMembers(j, keys[1..])
  }
}
