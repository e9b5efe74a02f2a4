/** The string operations of Go's `strings` package and of Python's strings that
    the model needs. A text is a sequence of code points or of bytes. */
module Texts {

  /** `strings.Join(parts, sep)` */
  function Join(parts: seq<string>, sep: char): string {
    if parts == [] then "" else if |parts| == 1 then parts[0] else parts[0] + ([sep] + Join(parts[1..], sep))
  }

  lemma {:induction false} JoinAppend(parts: seq<string>, p: string, sep: char)
    ensures Join(parts + [p], sep) == Join(parts, sep) + (if parts == [] then "" else [sep]) + p
  {
    if parts == [] {
    } else if |parts| == 1 {
      assert (parts + [p])[1..] == [p];
    } else {
      assert (parts + [p])[1..] == parts[1..] + [p];
      JoinAppend(parts[1..], p, sep);
    }
  }

  /** `strings.Split(s, sep)` */
  function Split(s: string, sep: char): (parts: seq<string>)
    ensures parts != []
  {
    if s == "" then [""]
    else
      var rest := Split(s[1..], sep);
      if s[0] == sep then [""] + rest else [[s[0]] + rest[0]] + rest[1..]
  }

  predicate Free(parts: seq<string>, sep: char) {
    forall i :: 0 <= i < |parts| ==> sep !in parts[i]
  }

  lemma {:induction false} SplitFree(s: string, sep: char)
    ensures Free(Split(s, sep), sep)
  {
    if s != "" {
      SplitFree(s[1..], sep);
    }
  }

  lemma {:induction false} SplitPart(p: string, rest: string, sep: char)
    requires sep !in p
    ensures Split(p, sep) == [p]
    ensures Split(p + ([sep] + rest), sep) == [p] + Split(rest, sep)
  {
    if p == "" {
      assert p + ([sep] + rest) == [sep] + rest && ([sep] + rest)[1..] == rest;
    } else {
      var tail := p[1..] + ([sep] + rest);
      SplitPart(p[1..], rest, sep);
      assert p + ([sep] + rest) == [p[0]] + tail && ([p[0]] + tail)[1..] == tail;
      assert p == [p[0]] + p[1..];
    }
  }

  lemma {:induction false} SplitOfJoin(parts: seq<string>, sep: char)
    requires parts != [] && Free(parts, sep)
    ensures Split(Join(parts, sep), sep) == parts
  {
    if |parts| == 1 {
      SplitPart(parts[0], "", sep);
    } else {
      SplitOfJoin(parts[1..], sep);
      SplitPart(parts[0], Join(parts[1..], sep), sep);
    }
  }

  lemma {:induction false} SplitMore(s: string, sep: char)
    requires sep in s
    ensures |Split(s, sep)| > 1
  {
    if s[0] != sep { SplitMore(s[1..], sep); }
  }

  lemma {:induction false} JoinChars(parts: seq<string>, sep: char, i: nat)
    requires i < |Join(parts, sep)|
    ensures Join(parts, sep)[i] == sep || exists k :: 0 <= k < |parts| && Join(parts, sep)[i] in parts[k]
  {
    if |parts| > 1 && i > |parts[0]| {
      JoinChars(parts[1..], sep, i - |parts[0]| - 1);
    }
  }

  lemma {:induction false} SplitChars(s: string, sep: char, k: nat, c: char)
    requires k < |Split(s, sep)| && c in Split(s, sep)[k]
    ensures c in s
  {
    if s != "" {
      var r := Split(s[1..], sep);
      if s[0] == sep {
        if k > 0 { SplitChars(s[1..], sep, k - 1, c); }
      } else if k > 0 || c in r[0] {
        SplitChars(s[1..], sep, k, c);
      }
    }
  }

  /** `unicode.IsSpace` */
  predicate IsSpace(c: char) {
    || c in "\t\n\U{B}\U{C}\r \U{85}\U{A0}\U{1680}\U{2028}\U{2029}\U{202F}\U{205F}\U{3000}"
    || '\U{2000}' <= c <= '\U{200A}'
  }

  function TrimLeft(s: string): string {
    if s != "" && IsSpace(s[0]) then TrimLeft(s[1..]) else s
  }

  function TrimRight(s: string): string {
    if s != "" && IsSpace(s[|s| - 1]) then TrimRight(s[..|s| - 1]) else s
  }

  /** `strings.TrimSpace` */
  function Trim(s: string): string {
    TrimRight(TrimLeft(s))
  }

  /** How many characters of a text come before its first white space. */
  function WordEnd(s: string): (k: nat)
    ensures k <= |s| && (forall i :: 0 <= i < k ==> !IsSpace(s[i])) && (k < |s| ==> IsSpace(s[k]))
  {
    if s == "" || IsSpace(s[0]) then 0 else 1 + WordEnd(s[1..])
  }

  /** `strings.Fields` */
  function Fields(s: string): seq<string>
    decreases |s|
  {
    if s == "" then []
    else if IsSpace(s[0]) then Fields(s[1..])
    else [s[..WordEnd(s)]] + Fields(s[WordEnd(s)..])
  }

  predicate IsWord(s: string) {
    s != "" && forall i :: 0 <= i < |s| ==> !IsSpace(s[i])
  }

  lemma {:induction false} WordEndOf(w: string, rest: string)
    requires (forall i :: 0 <= i < |w| ==> !IsSpace(w[i])) && (rest != "" ==> IsSpace(rest[0]))
    ensures WordEnd(w + rest) == |w|
  {
    if w == "" {
      assert w + rest == rest;
    } else {
      assert (w + rest)[1..] == w[1..] + rest;
      WordEndOf(w[1..], rest);
    }
  }

  /** The words of a text that begins with one, and what follows it. */
  lemma FieldsOfWord(w: string, rest: string)
    requires IsWord(w)
    ensures Fields(w) == [w] && Fields(w + (" " + rest)) == [w] + Fields(rest)
  {
    WordEndOf(w, "");
    assert w + "" == w && w[..|w|] == w && w[|w|..] == "";
    var s := w + (" " + rest);
    WordEndOf(w, " " + rest);
    assert s[..|w|] == w && s[|w|..] == " " + rest && (" " + rest)[1..] == rest;
  }

  predicate IsGap(s: string) {
    forall i :: 0 <= i < |s| ==> IsSpace(s[i])
  }

  /** White space in front of a text changes nothing about its words. */
  lemma {:induction false} FieldsBehindGap(gap: string, s: string)
    requires IsGap(gap)
    ensures Fields(gap + s) == Fields(s)
  {
    if gap == "" {
      assert gap + s == s;
    } else {
      assert (gap + s)[1..] == gap[1..] + s;
      FieldsBehindGap(gap[1..], s);
    }
  }

  /** A word is what stands between white space, however much of it there is. */
  lemma FieldsOfSpaced(gap: string, w: string, rest: string)
    requires IsGap(gap) && IsWord(w) && (rest != "" ==> IsSpace(rest[0]))
    ensures Fields(gap) == [] && Fields(gap + (w + rest)) == [w] + Fields(rest)
  {
    FieldsBehindGap(gap, "");
    assert gap + "" == gap;
    FieldsBehindGap(gap, w + rest);
    WordEndOf(w, rest);
    assert (w + rest)[..|w|] == w && (w + rest)[|w|..] == rest;
  }

  /** Trimming takes away white space at both ends, and all of it. */
  lemma TrimIsExact(s: string) returns (before: string, behind: string)
    ensures s == before + Trim(s) + behind && IsGap(before) && IsGap(behind)
    ensures Trim(s) != "" ==> !IsSpace(Trim(s)[0]) && !IsSpace(Trim(s)[|Trim(s)| - 1])
  {
    before := TrimLeftIsExact(s);
    behind := TrimRightIsExact(TrimLeft(s));
    TrimRightEnds(TrimLeft(s));
  }

  lemma {:induction false} TrimLeftIsExact(s: string) returns (before: string)
    ensures s == before + TrimLeft(s) && IsGap(before) && (TrimLeft(s) != "" ==> !IsSpace(TrimLeft(s)[0]))
  {
    before := "";
    if s != "" && IsSpace(s[0]) {
      before := TrimLeftIsExact(s[1..]);
      before := [s[0]] + before;
    }
  }

  lemma GapAppend(gap: string, c: char)
    requires IsGap(gap) && IsSpace(c)
    ensures IsGap(gap + [c])
  {
  }

  lemma {:induction false} TrimRightIsExact(s: string) returns (behind: string)
    ensures s == TrimRight(s) + behind && IsGap(behind)
    decreases |s|
  {
    behind := "";
    if s != "" && IsSpace(s[|s| - 1]) {
      var init, last := s[..|s| - 1], s[|s| - 1];
      var gap := TrimRightIsExact(init);
      GapAppend(gap, last);
      behind := gap + [last];
      assert init + [last] == s && TrimRight(init) + gap + [last] == TrimRight(init) + behind;
    }
  }

  lemma {:induction false} TrimRightEnds(s: string)
    ensures TrimRight(s) != "" ==> TrimRight(s)[0] == s[0] && !IsSpace(TrimRight(s)[|TrimRight(s)| - 1])
    decreases |s|
  {
    if s != "" && IsSpace(s[|s| - 1]) {
      TrimRightEnds(s[..|s| - 1]);
    }
  }

  /** Words with white space around and between them. */
  function Spaced(gaps: seq<string>, words: seq<string>): string
    requires |gaps| == |words| + 1
  {
    if words == [] then gaps[0] else gaps[0] + (words[0] + Spaced(gaps[1..], words[1..]))
  }

  ghost predicate Separates(gaps: seq<string>) {
    (forall i :: 0 <= i < |gaps| ==> IsGap(gaps[i])) && forall i :: 0 < i < |gaps| - 1 ==> gaps[i] != ""
  }

  ghost predicate AreWords(words: seq<string>) {
    forall i :: 0 <= i < |words| ==> IsWord(words[i])
  }

  lemma SpacedTail(gaps: seq<string>, words: seq<string>)
    requires |gaps| == |words| + 1 && Separates(gaps) && AreWords(words) && words != []
    ensures Separates(gaps[1..]) && AreWords(words[1..]) && IsWord(words[0]) && IsGap(gaps[0])
    ensures words[1..] != [] ==> gaps[1..][0] != ""
  {
  }

  lemma SpacedStart(gaps: seq<string>, words: seq<string>)
    requires |gaps| == |words| + 1 && IsGap(gaps[0]) && (words != [] ==> gaps[0] != "")
    ensures Spaced(gaps, words) != "" ==> IsSpace(Spaced(gaps, words)[0])
  {
  }

  /** However they are spaced, the words of a text are its words. */
  lemma {:induction false} FieldsOfWords(gaps: seq<string>, words: seq<string>)
    requires |gaps| == |words| + 1 && Separates(gaps) && AreWords(words)
    ensures Fields(Spaced(gaps, words)) == words
  {
    if words == [] {
      FieldsBehindGap(gaps[0], "");
      assert gaps[0] + "" == gaps[0];
    } else {
      SpacedTail(gaps, words);
      FieldsOfWords(gaps[1..], words[1..]);
      SpacedStart(gaps[1..], words[1..]);
      FieldsOfSpaced(gaps[0], words[0], Spaced(gaps[1..], words[1..]));
      assert words == [words[0]] + words[1..];
    }
  }
}
