/** scripts/module_release.py: which level of bump a commit log asks for. The log
    is searched for a subject line that begins with a word, perhaps a scope in
    parentheses, and "!:"; for the words "BREAKING CHANGE:"; and for a line that
    begins with "feat", perhaps a scope, and a colon. */
module CommitLog {
  import opened SemVer

  // ------------------------------------------------- what the expressions match

  /** `[a-zA-Z0-9_-]` */
  predicate WordChar(c: char) {
    'a' <= c <= 'z' || 'A' <= c <= 'Z' || '0' <= c <= '9' || c == '_' || c == '-'
  }

  /** `(^|\n)` */
  predicate LineStart(log: string, i: nat)
    requires i <= |log|
  {
    i == 0 || log[i - 1] == '\n'
  }

  predicate TextAt(log: string, i: nat, s: string) {
    i + |s| <= |log| && log[i..i + |s|] == s
  }

  predicate Word(log: string, i: nat, w: nat) {
    i < w <= |log| && forall k :: i <= k < w ==> WordChar(log[k])
  }

  /** `(?:\([^)]*\))?` */
  predicate Scope(log: string, w: nat, g: nat) {
    || w == g
    || (w + 2 <= g <= |log| && log[w] == '(' && log[g - 1] == ')' && forall k :: w < k < g - 1 ==> log[k] != ')')
  }

  ghost predicate BreakingMark(log: string, i: nat, w: nat, g: nat) {
    i <= |log| && LineStart(log, i) && Word(log, i, w) && Scope(log, w, g) && TextAt(log, g, "!:")
  }

  ghost predicate FeatureMark(log: string, i: nat, g: nat) {
    i <= |log| && LineStart(log, i) && TextAt(log, i, "feat") && Scope(log, i + 4, g) && TextAt(log, g, ":")
  }

  // ------------------------------------------------------------------ the search

  /** Where the word that begins at `i` ends. */
  function WordEnd(log: string, i: nat): (w: nat)
    requires i <= |log|
    ensures i <= w <= |log| && (forall k :: i <= k < w ==> WordChar(log[k])) && (w < |log| ==> !WordChar(log[w]))
    decreases |log| - i
  {
    if i == |log| || !WordChar(log[i]) then i else WordEnd(log, i + 1)
  }

  /** Where the next closing parenthesis is. */
  function Closing(log: string, i: nat): (k: nat)
    requires i <= |log|
    ensures i <= k <= |log| && (forall m :: i <= m < k ==> log[m] != ')') && (k < |log| ==> log[k] == ')')
    decreases |log| - i
  {
    if i == |log| || log[i] == ')' then i else Closing(log, i + 1)
  }

  /** The end of the scope at `w`, or `w` when there is none. */
  function ScopeEnd(log: string, w: nat): (g: nat)
    requires w <= |log|
    ensures Scope(log, w, g)
  {
    if w < |log| && log[w] == '(' && Closing(log, w + 1) < |log| then Closing(log, w + 1) + 1 else w
  }

  predicate BreaksAt(log: string, i: nat)
    requires i <= |log|
  {
    LineStart(log, i) && WordEnd(log, i) > i && TextAt(log, ScopeEnd(log, WordEnd(log, i)), "!:")
  }

  predicate FeatureAt(log: string, i: nat)
    requires i <= |log|
  {
    LineStart(log, i) && TextAt(log, i, "feat") && TextAt(log, ScopeEnd(log, i + 4), ":")
  }

  /** A scope has one end when what follows it is not an opening parenthesis. */
  lemma OneScope(log: string, w: nat, g: nat, s: string)
    requires w <= |log| && Scope(log, w, g) && TextAt(log, g, s) && s != "" && s[0] != '('
    ensures ScopeEnd(log, w) == g
  {
    assert log[g] == s[0];
  }

  lemma OneWord(log: string, i: nat, w: nat)
    requires Word(log, i, w) && w < |log| && !WordChar(log[w])
    ensures WordEnd(log, i) == w
  {
  }

  lemma BreakingIsFound(log: string, i: nat)
    requires i <= |log|
    ensures BreaksAt(log, i) <==> exists w: nat, g: nat :: BreakingMark(log, i, w, g)
  {
    if BreaksAt(log, i) {
      assert BreakingMark(log, i, WordEnd(log, i), ScopeEnd(log, WordEnd(log, i)));
    }
    forall w: nat, g: nat | BreakingMark(log, i, w, g) ensures BreaksAt(log, i) {
      assert log[g] == "!:"[0];
      OneWord(log, i, w);
      OneScope(log, w, g, "!:");
    }
  }

  lemma FeatureIsFound(log: string, i: nat)
    requires i <= |log|
    ensures FeatureAt(log, i) <==> exists g: nat :: FeatureMark(log, i, g)
  {
    if FeatureAt(log, i) {
      assert FeatureMark(log, i, ScopeEnd(log, i + 4));
    }
    forall g: nat | FeatureMark(log, i, g) ensures FeatureAt(log, i) {
      OneScope(log, i + 4, g, ":");
    }
  }

  const BREAKING := "BREAKING CHANGE:"

  predicate Breaks(log: string) {
    exists i :: 0 <= i <= |log| && (BreaksAt(log, i) || TextAt(log, i, BREAKING))
  }

  predicate Adds(log: string) {
    exists i :: 0 <= i <= |log| && FeatureAt(log, i)
  }

  /** `bump_level_from_commits`. */
  function BumpLevel(log: string): (level: string)
    ensures KnownLevel(level)
  {
    if Breaks(log) then "major" else if Adds(log) then "minor" else "patch"
  }

  lemma BreaksIsExact(log: string)
    ensures Breaks(log) <==>
            (exists i: nat, w: nat, g: nat :: BreakingMark(log, i, w, g)) || (exists i: nat :: TextAt(log, i, BREAKING))
  {
    forall i: nat | i <= |log| ensures BreaksAt(log, i) <==> exists w: nat, g: nat :: BreakingMark(log, i, w, g) {
      BreakingIsFound(log, i);
    }
    forall i: nat | TextAt(log, i, BREAKING) ensures Breaks(log) {
      assert 0 <= i <= |log|;
    }
    forall i: nat, w: nat, g: nat | BreakingMark(log, i, w, g) ensures Breaks(log) {
      assert BreaksAt(log, i);
    }
    if Breaks(log) {
      var i :| 0 <= i <= |log| && (BreaksAt(log, i) || TextAt(log, i, BREAKING));
      var n: nat := i;
      assert BreaksAt(log, n) || TextAt(log, n, BREAKING);
    }
  }

  lemma AddsIsExact(log: string)
    ensures Adds(log) <==> exists i: nat, g: nat :: FeatureMark(log, i, g)
  {
    forall i: nat, g: nat | FeatureMark(log, i, g) ensures Adds(log) {
      FeatureIsFound(log, i);
    }
    if Adds(log) {
      var i :| 0 <= i <= |log| && FeatureAt(log, i);
      FeatureIsFound(log, i);
    }
  }

  /** The level is major exactly when the log marks a breaking change, and minor
      exactly when it marks a feature and no breaking change. */
  lemma BumpLevelIsExact(log: string)
    ensures BumpLevel(log) == "major" <==>
            || (exists i: nat, w: nat, g: nat :: BreakingMark(log, i, w, g))
            || (exists i: nat :: TextAt(log, i, "BREAKING CHANGE:"))
    ensures BumpLevel(log) == "minor" <==>
            BumpLevel(log) != "major" && exists i: nat, g: nat :: FeatureMark(log, i, g)
  {
    BreaksIsExact(log);
    AddsIsExact(log);
  }

  // --------------------------------------------------- the same, in pieces of text

  /** Nothing, or text in parentheses without a closing one. */
  ghost predicate IsScope(x: string) {
    x == "" || exists y :: x == "(" + y + ")" && ')' !in y
  }

  predicate IsType(w: string) {
    w != "" && forall i :: 0 <= i < |w| ==>
      'a' <= w[i] <= 'z' || 'A' <= w[i] <= 'Z' || '0' <= w[i] <= '9' || w[i] == '_' || w[i] == '-'
  }

  predicate EndsLine(a: string) {
    a == "" || a[|a| - 1] == '\n'
  }

  /** At the beginning of a line: a word, perhaps a scope, an exclamation mark and a colon. */
  ghost predicate BreakingText(log: string, a: string, w: string, x: string, b: string) {
    log == a + (w + (x + ("!:" + b))) && EndsLine(a) && IsType(w) && IsScope(x)
  }

  ghost predicate FeatureText(log: string, a: string, x: string, b: string) {
    log == a + ("feat" + (x + (":" + b))) && EndsLine(a) && IsScope(x)
  }

  lemma ScopeOfText(log: string, w: nat, x: string, rest: string)
    requires w <= |log| && log[w..] == x + rest && IsScope(x)
    ensures Scope(log, w, w + |x|) && log[w + |x|..] == rest
  {
    assert forall k :: 0 <= k < |x| ==> log[w + k] == log[w..][k] == x[k];
    assert log[w + |x|..] == log[w..][|x|..] == rest;
    if x != "" {
      var y :| x == "(" + y + ")" && ')' !in y;
      assert forall k :: 0 <= k < |y| ==> x[k + 1] == y[k];
      assert forall k :: w < k < w + |x| - 1 ==> log[k] == y[k - w - 1];
    }
  }

  lemma TextOfScope(log: string, w: nat, g: nat)
    requires w <= |log| && Scope(log, w, g)
    ensures w <= g <= |log| && IsScope(log[w..g])
  {
    if w != g {
      var y := log[w + 1..g - 1];
      assert forall k :: 0 <= k < |y| ==> y[k] == log[w + 1 + k];
      assert log[w..g] == "(" + y + ")";
    }
  }

  lemma TextAtSplits(log: string, i: nat, s: string)
    requires i <= |log|
    ensures TextAt(log, i, s) <==> i + |s| <= |log| && log[i..] == s + log[i + |s|..]
  {
    if i + |s| <= |log| {
      assert log[i..] == log[i..i + |s|] + log[i + |s|..];
    }
  }

  lemma Pieces(log: string, i: nat, w: nat, g: nat, mark: string)
    requires i <= w <= g <= |log| && TextAt(log, g, mark)
    ensures log == log[..i] + (log[i..w] + (log[w..g] + (mark + log[g + |mark|..])))
  {
    assert log[g..] == mark + log[g + |mark|..];
    assert log[w..] == log[w..g] + log[g..];
    assert log[i..] == log[i..w] + log[w..];
  }

  lemma PiecesBack(log: string, a: string, t: string, rest: string)
    requires log == a + (t + rest)
    ensures |a| + |t| <= |log| && log[..|a|] == a && log[|a|..] == t + rest
    ensures log[|a|..|a| + |t|] == t && log[|a| + |t|..] == rest
  {
  }

  lemma WordIsType(log: string, i: nat, w: nat)
    requires i < w <= |log|
    ensures Word(log, i, w) <==> IsType(log[i..w])
  {
    var t := log[i..w];
    assert forall k :: i <= k < w ==> log[k] == t[k - i];
    assert forall k :: 0 <= k < |t| ==> t[k] == log[k + i];
  }

  lemma LineStartIsEnd(log: string, i: nat)
    requires i <= |log|
    ensures LineStart(log, i) <==> EndsLine(log[..i])
  {
  }

  lemma MarkIsText(log: string, i: nat, w: nat, g: nat)
    requires BreakingMark(log, i, w, g)
    ensures exists a, t, x, b :: BreakingText(log, a, t, x, b)
  {
    TextOfScope(log, w, g);
    WordIsType(log, i, w);
    LineStartIsEnd(log, i);
    Pieces(log, i, w, g, "!:");
    assert BreakingText(log, log[..i], log[i..w], log[w..g], log[g + |"!:"|..]);
  }

  lemma TextIsMark(log: string, a: string, t: string, x: string, b: string)
    requires BreakingText(log, a, t, x, b)
    ensures exists i: nat, w: nat, g: nat :: BreakingMark(log, i, w, g)
  {
    var i, w := |a|, |a| + |t|;
    PiecesBack(log, a, t, x + ("!:" + b));
    WordIsType(log, i, w);
    LineStartIsEnd(log, i);
    ScopeOfText(log, w, x, "!:" + b);
    TextAtSplits(log, w + |x|, "!:");
    assert ("!:" + b)[2..] == b;
    assert BreakingMark(log, i, w, w + |x|);
  }

  lemma FeatureIsText(log: string, i: nat, g: nat)
    requires FeatureMark(log, i, g)
    ensures exists a, x, b :: FeatureText(log, a, x, b)
  {
    TextOfScope(log, i + 4, g);
    LineStartIsEnd(log, i);
    Pieces(log, i, i + 4, g, ":");
    assert FeatureText(log, log[..i], log[i + 4..g], log[g + |":"|..]);
  }

  lemma TextIsFeature(log: string, a: string, x: string, b: string)
    requires FeatureText(log, a, x, b)
    ensures exists i: nat, g: nat :: FeatureMark(log, i, g)
  {
    var i := |a|;
    PiecesBack(log, a, "feat", x + (":" + b));
    LineStartIsEnd(log, i);
    ScopeOfText(log, i + 4, x, ":" + b);
    TextAtSplits(log, i + 4 + |x|, ":");
    assert (":" + b)[1..] == b;
    assert FeatureMark(log, i, i + 4 + |x|);
  }

  lemma Occurs(log: string, s: string)
    ensures (exists i: nat :: TextAt(log, i, s)) <==> exists a, b :: log == a + (s + b)
  {
    if i: nat :| TextAt(log, i, s) {
      assert log == log[..i] + (s + log[i + |s|..]);
    }
    forall a, b | log == a + (s + b) ensures TextAt(log, |a|, s) {
    }
  }

  /** The log marks a breaking change. */
  ghost predicate MarksBreaking(log: string) {
    || (exists a, t, x, b :: BreakingText(log, a, t, x, b))
    || (exists a, b :: log == a + ("BREAKING CHANGE:" + b))
  }

  /** The level, in terms of how the log is put together. */
  lemma BumpLevelOfText(log: string)
    ensures BumpLevel(log) ==
            if MarksBreaking(log) then "major"
            else if exists a, x, b :: FeatureText(log, a, x, b) then "minor" else "patch"
  {
    BumpLevelIsExact(log);
    Occurs(log, "BREAKING CHANGE:");
    forall i: nat, w: nat, g: nat | BreakingMark(log, i, w, g)
      ensures exists a, t, x, b :: BreakingText(log, a, t, x, b)
    {
      MarkIsText(log, i, w, g);
    }
    forall a, t, x, b | BreakingText(log, a, t, x, b)
      ensures exists i: nat, w: nat, g: nat :: BreakingMark(log, i, w, g)
    {
      TextIsMark(log, a, t, x, b);
    }
    forall i: nat, g: nat | FeatureMark(log, i, g) ensures exists a, x, b :: FeatureText(log, a, x, b) {
      FeatureIsText(log, i, g);
    }
    forall a, x, b | FeatureText(log, a, x, b) ensures exists i: nat, g: nat :: FeatureMark(log, i, g) {
      TextIsFeature(log, a, x, b);
    }
  }
}
