/** scripts/module_release.py: version texts, their comparison keys and bumps. */
module SemVer {
  import opened Options
  import opened Decimal
  import opened Texts
  import Lex

  datatype Version = Version(major: nat, minor: nat, patch: nat, pre: Option<string>)

  predicate IsIdentChar(c: char) {
    IsDigit(c) || 'A' <= c <= 'Z' || 'a' <= c <= 'z' || c == '-'
  }

  predicate ValidPre(s: string) {
    s != "" && forall i :: 0 <= i < |s| ==> IsIdentChar(s[i]) || s[i] == '.'
  }

  /** A numeral and the dot behind it. */
  function ReadField(s: string): Option<(nat, string)> {
    match ReadNumeral(s)
    case None => None
    case Some((n, rest)) => if rest != "" && rest[0] == '.' then Some((n, rest[1..])) else None
  }

  /** The tail of a version text: nothing, or a dash and a pre-release. */
  function ReadPre(s: string): Option<Option<string>> {
    if s == "" then Some(None)
    else if s[0] == '-' && ValidPre(s[1..]) then Some(Some(s[1..]))
    else None
  }

  /** `parse_version`; None is its ReleaseError. */
  function Parse(s: string): Option<Version> {
    if s == "" || s[0] != 'v' then None
    else
      match ReadField(s[1..])
      case None => None
      case Some((major, r)) =>
        match ReadField(r)
        case None => None
        case Some((minor, t)) => ParsePatch(major, minor, t)
  }

  function ParsePatch(major: nat, minor: nat, s: string): Option<Version> {
    match ReadNumeral(s)
    case None => None
    case Some((patch, tail)) =>
      match ReadPre(tail)
      case None => None
      case Some(pre) => Some(Version(major, minor, patch, pre))
  }

  function Tail(pre: Option<string>): string {
    if pre.Some? then "-" + pre.value else ""
  }

  function Render(v: Version): string {
    "v" + (Digits(v.major) + ("." + (Digits(v.minor) + ("." + (Digits(v.patch) + Tail(v.pre))))))
  }

  lemma ReadFieldOf(n: nat, rest: string)
    ensures ReadField(Digits(n) + ("." + rest)) == Some((n, rest))
  {
    ReadDigits(n, "." + rest);
    assert ("." + rest)[1..] == rest;
  }

  lemma ParsePatchOf(v: Version)
    requires v.pre.Some? ==> ValidPre(v.pre.value)
    ensures ParsePatch(v.major, v.minor, Digits(v.patch) + Tail(v.pre)) == Some(v)
  {
    var tail := Tail(v.pre);
    assert tail != "" ==> tail[1..] == v.pre.value;
    ReadDigits(v.patch, tail);
  }

  /** Rendered versions parse back. */
  lemma ParseOfRender(v: Version)
    requires v.pre.Some? ==> ValidPre(v.pre.value)
    ensures Parse(Render(v)) == Some(v)
  {
    var t := Digits(v.patch) + Tail(v.pre);
    var r := Digits(v.minor) + ("." + t);
    ParsePatchOf(v);
    ReadFieldOf(v.minor, t);
    ReadFieldOf(v.major, r);
    var s := Digits(v.major) + ("." + r);
    assert Render(v) == "v" + s && Render(v)[1..] == s;
  }

  /** How a version text is read, part by part. */
  lemma Reading(major: nat, minor: nat, patch: nat, pre: string)
    requires pre == "" || ValidPre(pre)
    ensures Parse("v" + (Digits(major) +
        ("." + (Digits(minor) + ("." + (Digits(patch) + (if pre == "" then "" else "-" + pre)))))))
            == Some(Version(major, minor, patch, if pre == "" then None else Some(pre)))
  {
    ParseOfRender(Version(major, minor, patch, if pre == "" then None else Some(pre)));
  }

  lemma ParsedPreIsValid(s: string)
    ensures Parse(s).Some? && Parse(s).value.pre.Some? ==> ValidPre(Parse(s).value.pre.value)
  {
  }

  // --------------------------------------------------------------------- order

  /** A pre-release identifier, as Python's (0, int) or (1, str). */
  datatype Ident = Num(n: nat) | Alpha(s: string)

  function IdentOf(part: string): Ident {
    if part != "" && AllDigits(part) then Num(Value(part)) else Alpha(part)
  }

  function Idents(parts: seq<string>): (r: seq<Ident>)
    ensures |r| == |parts| && forall i :: 0 <= i < |parts| ==> r[i] == IdentOf(parts[i])
  {
    if parts == [] then [] else [IdentOf(parts[0])] + Idents(parts[1..])
  }

  predicate IdentLess(a: Ident, b: Ident) {
    match (a, b)
    case (Num(m), Num(n)) => m < n
    case (Num(_), Alpha(_)) => true
    case (Alpha(_), Num(_)) => false
    case (Alpha(s), Alpha(t)) => Lex.Less(s, t)
  }

  /** Python's comparison of tuples. */
  predicate IdentsLess(a: seq<Ident>, b: seq<Ident>) {
    if b == [] then false
    else if a == [] then true
    else if a[0] == b[0] then IdentsLess(a[1..], b[1..])
    else IdentLess(a[0], b[0])
  }

  datatype Key = Key(core: seq<int>, idents: seq<Ident>)

  /** `version_key`: major, minor, patch, 1 for a release and 0 for a pre-release,
      and the identifiers. */
  function KeyOf(v: Version): Key {
    match v.pre
    case None => Key([v.major, v.minor, v.patch, 1], [])
    case Some(pre) => Key([v.major, v.minor, v.patch, 0], Idents(Split(pre, '.')))
  }

  predicate IntsLess(a: seq<int>, b: seq<int>)
    requires |a| == |b|
  {
    a != [] && (a[0] < b[0] || (a[0] == b[0] && IntsLess(a[1..], b[1..])))
  }

  predicate KeyLess(a: Key, b: Key)
    requires |a.core| == |b.core|
  {
    IntsLess(a.core, b.core) || (a.core == b.core && IdentsLess(a.idents, b.idents))
  }

  /** `version_key(old) < version_key(new)`. */
  predicate Newer(was: Version, next: Version) {
    KeyLess(KeyOf(was), KeyOf(next))
  }

  // ---------------------------------------- precedence as SemVer 2.0.0 words it

  /** Where two identifier lists first differ, and the earlier is the lower there:
      it has run out, or its identifier is the lower one. */
  ghost predicate LowerAt(a: seq<Ident>, b: seq<Ident>, k: nat) {
    && k <= |a| && k < |b| && a[..k] == b[..k]
    && (k == |a| || (a[k] != b[k] && IdentLess(a[k], b[k])))
  }

  /** Item 11 of Semantic Versioning 2.0.0. */
  ghost predicate Precedes(v: Version, w: Version) {
    if v.major != w.major then v.major < w.major
    else if v.minor != w.minor then v.minor < w.minor
    else if v.patch != w.patch then v.patch < w.patch
    else if v.pre.None? || w.pre.None? then v.pre.Some? && w.pre.None?
    else exists k: nat :: LowerAt(Idents(Split(v.pre.value, '.')), Idents(Split(w.pre.value, '.')), k)
  }

  lemma LowerAtShift(a: seq<Ident>, b: seq<Ident>, k: nat)
    requires a != [] && b != [] && k > 0
    ensures LowerAt(a, b, k) <==> a[0] == b[0] && LowerAt(a[1..], b[1..], k - 1)
  {
    if k <= |a| && k < |b| {
      assert a[..k] == [a[0]] + a[1..][..k - 1] && b[..k] == [b[0]] + b[1..][..k - 1];
      assert a[..k] == b[..k] ==> a[..k][0] == b[..k][0] && a[..k][1..] == b[..k][1..];
    }
  }

  lemma {:induction false} IdentsLessIsFirstDifference(a: seq<Ident>, b: seq<Ident>)
    ensures IdentsLess(a, b) <==> exists k: nat :: LowerAt(a, b, k)
  {
    if b != [] && a == [] {
      assert LowerAt(a, b, 0);
    } else if b != [] {
      IdentsLessIsFirstDifference(a[1..], b[1..]);
      forall k: nat | k > 0 ensures LowerAt(a, b, k) <==> a[0] == b[0] && LowerAt(a[1..], b[1..], k - 1) {
        LowerAtShift(a, b, k);
      }
      assert LowerAt(a, b, 0) <==> a[0] != b[0] && IdentLess(a[0], b[0]);
      if a[0] == b[0] && IdentsLess(a, b) {
        var k: nat :| LowerAt(a[1..], b[1..], k);
        assert LowerAt(a, b, k + 1);
      }
    }
  }

  lemma IntsLess4(a: seq<int>, b: seq<int>)
    requires |a| == |b| == 4
    ensures IntsLess(a, b) <==>
      if a[0] != b[0] then a[0] < b[0] else if a[1] != b[1] then a[1] < b[1]
      else if a[2] != b[2] then a[2] < b[2] else a[3] < b[3]
  {
    var a1, b1 := a[1..], b[1..];
    var a2, b2 := a1[1..], b1[1..];
    var a3, b3 := a2[1..], b2[1..];
    assert IntsLess(a3, b3) <==> a[3] < b[3];
    assert IntsLess(a2, b2) <==> a[2] < b[2] || (a[2] == b[2] && IntsLess(a3, b3));
    assert IntsLess(a1, b1) <==> a[1] < b[1] || (a[1] == b[1] && IntsLess(a2, b2));
  }

  /** The key order of the tool is the precedence of the standard. */
  lemma KeyOrderIsPrecedence(v: Version, w: Version)
    ensures Newer(v, w) <==> Precedes(v, w)
  {
    var a, b := KeyOf(v), KeyOf(w);
    IntsLess4(a.core, b.core);
    IdentsLessIsFirstDifference(a.idents, b.idents);
  }

  lemma {:induction false} IdentsNotLess(a: seq<Ident>)
    ensures !IdentsLess(a, a)
  {
    if a != [] { IdentsNotLess(a[1..]); }
  }

  /** No version is newer than itself. */
  lemma NotNewer(v: Version)
    ensures !Newer(v, v)
  {
    var k := KeyOf(v);
    IntsLess4(k.core, k.core);
    IdentsNotLess(k.idents);
  }

  // --------------------------------------------------------------------- bumps

  function BumpParts(parts: seq<string>): (r: seq<string>)
    requires parts != []
    ensures r != []
  {
    var last := parts[|parts| - 1];
    if last != "" && AllDigits(last) then parts[..|parts| - 1] + [Digits(Value(last) + 1)] else parts + ["1"]
  }

  function BumpParsed(v: Version, level: string): Option<Version> {
    if v.pre.Some? then Some(v.(pre := Some(Join(BumpParts(Split(v.pre.value, '.')), '.'))))
    else if level == "major" then Some(Version(v.major + 1, 0, 0, None))
    else if level == "minor" then Some(Version(v.major, v.minor + 1, 0, None))
    else if level == "patch" then Some(Version(v.major, v.minor, v.patch + 1, None))
    else None
  }

  /** `bump_version`; None is its ReleaseError. */
  function BumpVersion(version: string, level: string): Option<string> {
    match Parse(version)
    case None => None
    case Some(v) =>
      match BumpParsed(v, level)
      case None => None
      case Some(w) => Some(Render(w))
  }

  predicate KnownLevel(level: string) {
    level == "major" || level == "minor" || level == "patch"
  }

  lemma {:induction false} IdentsGrow(a: seq<Ident>, b: seq<Ident>, k: nat)
    requires LowerAt(a, b, k)
    ensures IdentsLess(a, b)
  {
    IdentsLessIsFirstDifference(a, b);
  }

  lemma BumpedPre(pre: string)
    requires ValidPre(pre)
    ensures var bumped := Join(BumpParts(Split(pre, '.')), '.');
      ValidPre(bumped) && IdentsLess(Idents(Split(pre, '.')), Idents(Split(bumped, '.')))
  {
    var parts := Split(pre, '.');
    var more := BumpParts(parts);
    var n := |parts| - 1;
    SplitFree(pre, '.');
    assert Free(more, '.') by {
      assert forall s: string :: AllDigits(s) ==> '.' !in s;
      assert AllDigits("1");
    }
    SplitOfJoin(more, '.');
    var a, b := Idents(parts), Idents(more);
    if parts[n] != "" && AllDigits(parts[n]) {
      ValueOfDigits(Value(parts[n]) + 1);
      assert a[..n] == b[..n];
      IdentsGrow(a, b, n);
    } else {
      assert a[..n + 1] == b[..n + 1];
      IdentsGrow(a, b, n + 1);
    }
    BumpedChars(pre);
  }

  lemma BumpedChars(pre: string)
    requires ValidPre(pre)
    ensures ValidPre(Join(BumpParts(Split(pre, '.')), '.'))
  {
    var parts := Split(pre, '.');
    var more := BumpParts(parts);
    var bumped := Join(more, '.');
    forall i | 0 <= i < |bumped| ensures IsIdentChar(bumped[i]) || bumped[i] == '.' {
      JoinChars(more, '.', i);
      if bumped[i] != '.' {
        var k :| 0 <= k < |more| && bumped[i] in more[k];
        if k < |parts| && more[k] == parts[k] {
          SplitChars(pre, '.', k, bumped[i]);
        }
      }
    }
    JoinNonempty(more);
  }

  lemma JoinNonempty(parts: seq<string>)
    requires parts != [] && parts[|parts| - 1] != ""
    ensures Join(parts, '.') != ""
  {
  }

  /** Every bump at a known level succeeds, gives a text the tool can read again,
      and is strictly newer. */
  lemma BumpIncreases(version: string, level: string)
    requires Parse(version).Some? && KnownLevel(level)
    ensures var bumped := BumpVersion(version, level);
      && bumped.Some? && Parse(bumped.value).Some?
      && Newer(Parse(version).value, Parse(bumped.value).value)
      && (Parse(version).value.pre.Some? <==> Parse(bumped.value).value.pre.Some?)
  {
    ParsedPreIsValid(version);
    BumpRenders(version, Parse(version).value, level);
  }

  lemma BumpRenders(version: string, v: Version, level: string)
    requires Parse(version) == Some(v) && KnownLevel(level) && (v.pre.Some? ==> ValidPre(v.pre.value))
    ensures BumpParsed(v, level).Some?
    ensures var w := BumpParsed(v, level).value;
      BumpVersion(version, level) == Some(Render(w)) && Parse(Render(w)) == Some(w) && Newer(v, w) &&
        (v.pre.Some? <==> w.pre.Some?)
  {
    BumpedIsNewer(v, level);
    ParseOfRender(BumpParsed(v, level).value);
  }

  lemma BumpedIsNewer(v: Version, level: string)
    requires KnownLevel(level) && (v.pre.Some? ==> ValidPre(v.pre.value))
    ensures var bumped := BumpParsed(v, level);
      && bumped.Some? && Newer(v, bumped.value)
      && (v.pre.Some? <==> bumped.value.pre.Some?) && (v.pre.Some? ==> ValidPre(bumped.value.pre.value))
  {
    if v.pre.Some? { BumpedPre(v.pre.value); }
    var w := BumpParsed(v, level).value;
    KeyOrderIsPrecedence(v, w);
    if v.pre.Some? {
      IdentsLessIsFirstDifference(Idents(Split(v.pre.value, '.')), Idents(Split(w.pre.value, '.')));
    }
  }

  // ------------------------------------------------------------ what a bump means

  /** Newer, and newer in the number the level names. */
  ghost predicate Fits(v: Version, w: Version, level: string) {
    && Precedes(v, w)
    && (level == "major" ==> w.major > v.major)
    && (level == "minor" ==> w.major > v.major || w.minor > v.minor)
  }

  /** The first release that fits. */
  ghost predicate LeastRelease(v: Version, w: Version, level: string) {
    && w.pre.None? && Fits(v, w, level)
    && forall x: Version :: x.pre.None? && Fits(v, x, level) ==> x == w || Precedes(w, x)
  }

  /** A release is bumped to the next one: the least with a larger major number, the
      least newer one with a larger major or minor number, the least newer one. */
  lemma ReleaseBumpIsLeast(v: Version, level: string)
    requires v.pre.None?
    ensures BumpParsed(v, level).Some? <==> KnownLevel(level)
    ensures KnownLevel(level) ==> LeastRelease(v, BumpParsed(v, level).value, level)
  {
  }

  predicate CountsUp(was: string, next: string) {
    was != "" && next != "" && AllDigits(was) && AllDigits(next) && next[0] != '0' && Value(next) == Value(was) + 1
  }

  /** The identifiers with the last one counted up, or with a 1 behind them. */
  predicate NextPre(parts: seq<string>, more: seq<string>)
    requires parts != []
  {
    var n := |parts| - 1;
    if parts[n] != "" && AllDigits(parts[n])
    then |more| == n + 1 && more[..n] == parts[..n] && CountsUp(parts[n], more[n])
    else more == parts + ["1"]
  }

  /** A pre-release keeps its numbers, at whatever level. */
  lemma PreBumpCounts(v: Version, level: string)
    requires v.pre.Some? && ValidPre(v.pre.value)
    ensures BumpParsed(v, level).Some?
    ensures var w := BumpParsed(v, level).value;
      && w == v.(pre := w.pre) && w.pre.Some? && ValidPre(w.pre.value)
      && NextPre(Split(v.pre.value, '.'), Split(w.pre.value, '.'))
  {
    var parts := Split(v.pre.value, '.');
    var more, n := BumpParts(parts), |parts| - 1;
    SplitFree(v.pre.value, '.');
    BumpedChars(v.pre.value);
    assert Free(more, '.') by {
      assert forall s: string :: AllDigits(s) ==> '.' !in s;
      assert AllDigits("1");
    }
    SplitOfJoin(more, '.');
    if parts[n] != "" && AllDigits(parts[n]) {
      ValueOfDigits(Value(parts[n]) + 1);
    }
  }

  /** What a bump at this level makes of a version. */
  ghost predicate NextVersion(v: Version, w: Version, level: string) {
    if v.pre.None? then LeastRelease(v, w, level)
    else w == v.(pre := w.pre) && w.pre.Some? && NextPre(Split(v.pre.value, '.'), Split(w.pre.value, '.'))
  }

  lemma BumpIsNext(v: Version, level: string)
    requires v.pre.Some? ==> ValidPre(v.pre.value)
    ensures BumpParsed(v, level).Some? <==> v.pre.Some? || KnownLevel(level)
    ensures BumpParsed(v, level).Some? ==> var w := BumpParsed(v, level).value;
      NextVersion(v, w, level) && (w.pre.Some? ==> ValidPre(w.pre.value))
  {
    if v.pre.None? {
      ReleaseBumpIsLeast(v, level);
    } else {
      PreBumpCounts(v, level);
    }
  }

  ghost predicate BumpedTo(v: Version, bumped: Option<string>, level: string) {
    && (bumped.Some? <==> v.pre.Some? || KnownLevel(level))
    && (bumped.Some? ==> Parse(bumped.value).Some? && NextVersion(v, Parse(bumped.value).value, level))
  }

  lemma RenderedNext(v: Version, w: Version, level: string)
    requires NextVersion(v, w, level) && (v.pre.Some? || KnownLevel(level)) && (w.pre.Some? ==> ValidPre(w.pre.value))
    ensures BumpedTo(v, Some(Render(w)), level)
  {
    ParseOfRender(w);
  }

  /** The text a version text is bumped to, read again. */
  lemma BumpMeans(version: string, level: string)
    requires Parse(version).Some?
    ensures BumpedTo(Parse(version).value, BumpVersion(version, level), level)
  {
    var v := Parse(version).value;
    ParsedPreIsValid(version);
    BumpIsNext(v, level);
    var w := BumpParsed(v, level);
    if w.Some? {
      RenderedNext(v, w.value, level);
    }
    assert BumpVersion(version, level) == if w.Some? then Some(Render(w.value)) else None;
  }
}
