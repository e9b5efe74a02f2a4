/** cmd/soyaos/flagorder.go: moving flags in front of positionals so that Go's
    stop-at-the-first-positional flag parser sees all of them. */
module FlagOrder {

  datatype Kind = Unknown | Boolean | Valued

  /** What `fs.Lookup` and the flags' `Value.Set` answer. */
  datatype FlagSet = FlagSet(kind: string -> Kind, accepts: (string, string) -> bool)

  predicate DashLeading(tok: string) {
    tok != [] && tok[0] == '-' && tok != "-"
  }

  function TrimDashes(tok: string): string {
    if tok != [] && tok[0] == '-' then TrimDashes(tok[1..]) else tok
  }

  // ---------------------------------------------------------------- reordering

  datatype Parts = Parts(flags: seq<string>, positional: seq<string>, stopped: bool)

  /** Whether the reorderer carries the token after `tok` along as its value. */
  predicate WantsValue(fs: FlagSet, tok: string) {
    '=' !in tok && fs.kind(TrimDashes(tok)) == Valued
  }

  /** How many tokens the reorderer takes at once. */
  function Width(fs: FlagSet, args: seq<string>): (n: nat)
    requires args != []
    ensures 1 <= n <= |args|
  {
    if DashLeading(args[0]) && WantsValue(fs, args[0]) && |args| > 1 then 2 else 1
  }

  function Split(fs: FlagSet, args: seq<string>): Parts {
    if args == [] then Parts([], [], false)
    else if args[0] == "--" then Parts([], args[1..], true)
    else if !DashLeading(args[0]) then
      var r := Split(fs, args[1..]);
      r.(positional := [args[0]] + r.positional)
    else
      var n := Width(fs, args);
      var r := Split(fs, args[n..]);
      r.(flags := args[..n] + r.flags)
  }

  lemma SplitAt(fs: FlagSet, args: seq<string>, i: nat)
    requires i < |args|
    ensures var s, tok := Split(fs, args[i..]), args[i];
      if tok == "--" then s.flags == [] && s.positional == args[i + 1..]
      else if !DashLeading(tok) then
        s.flags == Split(fs, args[i + 1..]).flags && s.positional == [tok] + Split(fs, args[i + 1..]).positional
      else if WantsValue(fs, tok) && i + 1 < |args| then
        s.flags == [tok, args[i + 1]] + Split(fs, args[i + 2..]).flags &&
          s.positional == Split(fs, args[i + 2..]).positional
      else
        s.flags == [tok] + Split(fs, args[i + 1..]).flags && s.positional == Split(fs, args[i + 1..]).positional
  {
    var rest := args[i..];
    assert rest[1..] == args[i + 1..] && rest[0] == args[i];
    assert |rest| > 1 ==> rest[2..] == args[i + 2..] && rest[..2] == [args[i], args[i + 1]];
    assert rest[..1] == [args[i]];
  }

  /** The first `i` tokens are dealt with: what is left splits as the rest does. */
  ghost predicate Lifted(fs: FlagSet, args: seq<string>, i: nat, stopped: bool, flags: seq<string>,
                         positional: seq<string>)
    requires i <= |args|
  {
    var all, rest := Split(fs, args), Split(fs, args[i..]);
    if stopped then all.flags == flags && all.positional == positional + args[i..]
    else all.flags == flags + rest.flags && all.positional == positional + rest.positional
  }

  lemma LiftPositional(fs: FlagSet, args: seq<string>, i: nat, stopped: bool, flags: seq<string>,
                       positional: seq<string>)
    requires i < |args| && Lifted(fs, args, i, stopped, flags, positional)
    requires stopped || (args[i] != "--" && !DashLeading(args[i]))
    ensures Lifted(fs, args, i + 1, stopped, flags, positional + [args[i]])
  {
    var x := [args[i]];
    if stopped {
      assert args[i..] == x + args[i + 1..];
      assert positional + (x + args[i + 1..]) == (positional + x) + args[i + 1..];
    } else {
      SplitAt(fs, args, i);
      var rest := Split(fs, args[i + 1..]).positional;
      assert positional + (x + rest) == (positional + x) + rest;
    }
  }

  lemma LiftFlag(fs: FlagSet, args: seq<string>, i: nat, flags: seq<string>, positional: seq<string>)
    requires i < |args| && Lifted(fs, args, i, false, flags, positional) && args[i] != "--" && DashLeading(args[i])
    ensures if WantsValue(fs, args[i]) && i + 1 < |args|
            then Lifted(fs, args, i + 2, false, flags + [args[i]] + [args[i + 1]], positional)
            else Lifted(fs, args, i + 1, false, flags + [args[i]], positional)
  {
    SplitAt(fs, args, i);
  }

  lemma LiftStop(fs: FlagSet, args: seq<string>, i: nat, flags: seq<string>, positional: seq<string>)
    requires i < |args| && Lifted(fs, args, i, false, flags, positional) && args[i] == "--"
    ensures Lifted(fs, args, i + 1, true, flags, positional)
  {
    SplitAt(fs, args, i);
  }

  lemma LiftStart(fs: FlagSet, args: seq<string>)
    ensures Lifted(fs, args, 0, false, [], [])
  {
    assert args[0..] == args;
    var all := Split(fs, args);
    assert [] + all.flags == all.flags && [] + all.positional == all.positional;
  }

  lemma LiftEnd(fs: FlagSet, args: seq<string>, stopped: bool, flags: seq<string>, positional: seq<string>)
    requires Lifted(fs, args, |args|, stopped, flags, positional)
    ensures flags + positional == Split(fs, args).flags + Split(fs, args).positional
  {
    assert args[|args|..] == [];
    assert flags + [] == flags && positional + [] == positional;
  }

  method ReorderForFlagSet(fs: FlagSet, args: seq<string>) returns (out: seq<string>)
    ensures out == Split(fs, args).flags + Split(fs, args).positional
  {
    var flags: seq<string>, positional: seq<string> := [], [];
    var stopped := false;
    var i := 0;
    LiftStart(fs, args);
    while i < |args|
      invariant 0 <= i <= |args| && Lifted(fs, args, i, stopped, flags, positional)
    {
      var tok := args[i];
      if stopped {
        LiftPositional(fs, args, i, stopped, flags, positional);
        positional := positional + [tok];
      } else if tok == "--" {
        LiftStop(fs, args, i, flags, positional);
        stopped := true;
      } else if !DashLeading(tok) {
        LiftPositional(fs, args, i, stopped, flags, positional);
        positional := positional + [tok];
      } else {
        LiftFlag(fs, args, i, flags, positional);
        flags := flags + [tok];
        if WantsValue(fs, tok) && i + 1 < |args| {
          i := i + 1;
          flags := flags + [args[i]];
        }
      }
      i := i + 1;
    }
    LiftEnd(fs, args, stopped, flags, positional);
    out := flags + positional;
  }

  // ------------------------------------------------------------------- parsing

  datatype Error = BadSyntax | Undefined(name: string) | NeedsArgument(name: string) | InvalidValue(name: string)

  datatype Binding = Binding(name: string, value: string)

  datatype Outcome =
    | Parsed(bindings: seq<Binding>, positional: seq<string>)
    | Failed(bindings: seq<Binding>, error: Error)

  /** What one flag token does: an error, or a binding that uses 1 or 2 tokens. */
  datatype FlagStep = Bad(error: Error) | Bound(binding: Binding, used: nat)

  function EqualsAt(name: string): (k: nat)
    ensures k <= |name|
    ensures '=' !in name[..k] && (k < |name| ==> name[k] == '=')
  {
    if name == [] || name[0] == '=' then 0
    else
      var k := EqualsAt(name[1..]);
      assert name[..k + 1] == [name[0]] + name[1..][..k];
      k + 1
  }

  function Set(fs: FlagSet, name: string, value: string, used: nat): FlagStep {
    if fs.accepts(name, value) then Bound(Binding(name, value), used) else Bad(InvalidValue(name))
  }

  function Body(tok: string): string
    requires DashLeading(tok) && tok != "--"
  {
    if tok[1] == '-' then tok[2..] else tok[1..]
  }

  /** `FlagSet.parseOne` of Go's flag package on a flag token other than "--". */
  function ParseFlag(fs: FlagSet, args: seq<string>): (s: FlagStep)
    requires args != [] && DashLeading(args[0]) && args[0] != "--"
    ensures s.Bound? ==> 1 <= s.used <= |args|
  {
    var tok := args[0];
    var body := Body(tok);
    if body[0] in "-=" then Bad(BadSyntax)
    else
      var k := EqualsAt(body);
      var name := body[..k];
      match fs.kind(name)
      case Unknown => Bad(Undefined(name))
      case Boolean => Set(fs, name, if k < |body| then body[k + 1..] else "true", 1)
      case Valued =>
        if k < |body| then Set(fs, name, body[k + 1..], 1)
        else if |args| > 1 then Set(fs, name, args[1], 2)
        else Bad(NeedsArgument(name))
  }

  function Prepend(b: seq<Binding>, o: Outcome): Outcome {
    o.(bindings := b + o.bindings)
  }

  /** Go's parser: everything from the first non-flag token on is positional. */
  function Parse(fs: FlagSet, args: seq<string>): Outcome
    decreases |args|
  {
    if args == [] || !DashLeading(args[0]) then Parsed([], args)
    else if args[0] == "--" then Parsed([], args[1..])
    else
      match ParseFlag(fs, args)
      case Bad(e) => Failed([], e)
      case Bound(b, n) => Prepend([b], Parse(fs, args[n..]))
  }

  /** The parser users expect: flags count wherever they stand, until "--". */
  function ParseAnywhere(fs: FlagSet, args: seq<string>): Outcome
    decreases |args|
  {
    if args == [] then Parsed([], [])
    else if args[0] == "--" then Parsed([], args[1..])
    else if !DashLeading(args[0]) then
      var o := ParseAnywhere(fs, args[1..]);
      if o.Parsed? then o.(positional := [args[0]] + o.positional) else o
    else
      match ParseFlag(fs, args)
      case Bad(e) => Failed([], e)
      case Bound(b, n) => Prepend([b], ParseAnywhere(fs, args[n..]))
  }

  // ---------------------------------------------------------------- properties

  /** On well-formed flag tokens the reorderer and the parser look up the same
      name, and agree on whether the token carries its own value. */
  lemma SameName(tok: string)
    requires DashLeading(tok) && tok != "--" && Body(tok)[0] != '-'
    ensures TrimDashes(tok) == Body(tok)
    ensures '=' in tok <==> EqualsAt(Body(tok)) < |Body(tok)|
  {
    var body := Body(tok);
    assert TrimDashes(body) == body;
    if tok[1] == '-' { assert tok[1..][1..] == tok[2..]; }
    assert forall c :: c in tok ==> c == '-' || c in body;
    assert forall c :: c in body ==> c in tok;
    assert body[..|body|] == body;
  }

  /** A flag step depends only on the tokens the reorderer keeps together, and a
      binding uses exactly those. */
  lemma StepLocal(fs: FlagSet, args: seq<string>, more: seq<string>)
    requires args != [] && DashLeading(args[0]) && args[0] != "--"
    ensures var p := ParseFlag(fs, args);
            && (p.Bound? ==> p.used == Width(fs, args))
            && (p.Bad? && p.error.NeedsArgument? <==>
                |args| == 1 && WantsValue(fs, args[0]) && Body(args[0])[0] !in "-=")
            && (!(p.Bad? && p.error.NeedsArgument?) ==>
                ParseFlag(fs, args[..Width(fs, args)] + more) == p)
  {
    var n := Width(fs, args);
    var seen := args[..n] + more;
    assert seen[0] == args[0] && (n == 2 ==> |seen| > 1 && seen[1] == args[1]);
    var body := Body(args[0]);
    if body[0] !in "-=" {
      SameName(args[0]);
      var k := EqualsAt(body);
      assert k == |body| ==> body[..k] == body;
      assert WantsValue(fs, args[0]) <==> k == |body| && fs.kind(body) == Valued;
    }
  }

  predicate Dangling(o: Outcome) {
    o.Failed? && o.error.NeedsArgument?
  }

  /** The lifted flags `flags`, followed by any tail, make Go's parser do what
      the reference outcome `o` says it should. */
  ghost predicate Faithful(fs: FlagSet, flags: seq<string>, o: Outcome, tail: seq<string>) {
    Meets(o, Parse(fs, flags + tail), Parse(fs, tail), tail == [])
  }

  /** `p`, parsed with a tail that by itself parses to `t`, is what `o` asks for. */
  predicate Meets(o: Outcome, p: Outcome, t: Outcome, noTail: bool) {
    && (o.Parsed? ==> p == Prepend(o.bindings, t))
    && (o.Failed? && !Dangling(o) ==> p == o)
    && (Dangling(o) ==> (p == o <==> noTail))
  }

  lemma PrependMeets(b: Binding, o: Outcome, p: Outcome, t: Outcome, noTail: bool)
    requires Meets(o, p, t, noTail)
    ensures Meets(Prepend([b], o), Prepend([b], p), t, noTail)
  {
    if o.Parsed? {
      assert [b] + (o.bindings + t.bindings) == ([b] + o.bindings) + t.bindings;
    } else if Dangling(o) {
      assert ([b] + p.bindings)[1..] == p.bindings && ([b] + o.bindings)[1..] == o.bindings;
    }
  }

  lemma ParseStep(fs: FlagSet, b: Binding, n: nat, head: seq<string>, rest: seq<string>)
    requires |head| == n && n > 0 && DashLeading(head[0]) && head[0] != "--"
    requires ParseFlag(fs, head + rest) == Bound(b, n)
    ensures Parse(fs, head + rest) == Prepend([b], Parse(fs, rest))
  {
    assert (head + rest)[n..] == rest && (head + rest)[0] == head[0];
  }

  lemma ParseJoined(fs: FlagSet, b: Binding, n: nat, head: seq<string>, flags: seq<string>, tail: seq<string>)
    requires |head| == n && n > 0 && DashLeading(head[0]) && head[0] != "--"
    requires ParseFlag(fs, head + (flags + tail)) == Bound(b, n)
    ensures Parse(fs, (head + flags) + tail) == Prepend([b], Parse(fs, flags + tail))
  {
    ParseStep(fs, b, n, head, flags + tail);
    assert (head + flags) + tail == head + (flags + tail);
  }

  lemma FaithfulStep(fs: FlagSet, b: Binding, head: seq<string>, flags: seq<string>, o: Outcome, tail: seq<string>)
    requires Parse(fs, (head + flags) + tail) == Prepend([b], Parse(fs, flags + tail))
    requires Faithful(fs, flags, o, tail)
    ensures Faithful(fs, head + flags, Prepend([b], o), tail)
  {
    PrependMeets(b, o, Parse(fs, flags + tail), Parse(fs, tail), tail == []);
  }

  /** A positional in front of the rest changes nothing about the flags. */
  lemma MovedPositional(tok: string, o: Outcome, fs: FlagSet, flags: seq<string>, tail: seq<string>)
    requires Faithful(fs, flags, o, tail)
    ensures Faithful(fs, flags, if o.Parsed? then o.(positional := [tok] + o.positional) else o, tail)
  {
  }

  lemma {:induction false} LiftedFlags(fs: FlagSet, args: seq<string>, tail: seq<string>)
    ensures Faithful(fs, Split(fs, args).flags, ParseAnywhere(fs, args), tail)
    ensures ParseAnywhere(fs, args).Parsed? ==> ParseAnywhere(fs, args).positional == Split(fs, args).positional
    decreases |args|
  {
    if args == [] || args[0] == "--" {
      assert [] + tail == tail;
    } else if !DashLeading(args[0]) {
      LiftedFlags(fs, args[1..], tail);
      MovedPositional(args[0], ParseAnywhere(fs, args[1..]), fs, Split(fs, args[1..]).flags, tail);
    } else {
      LiftedFlag(fs, args, tail);
    }
  }

  lemma {:induction false} LiftedFlag(fs: FlagSet, args: seq<string>, tail: seq<string>)
    requires args != [] && DashLeading(args[0]) && args[0] != "--"
    ensures Faithful(fs, Split(fs, args).flags, ParseAnywhere(fs, args), tail)
    ensures ParseAnywhere(fs, args).Parsed? ==> ParseAnywhere(fs, args).positional == Split(fs, args).positional
    decreases |args|, 0
  {
    var n := Width(fs, args);
    var r := Split(fs, args[n..]);
    var step := ParseFlag(fs, args);
    StepLocal(fs, args, r.flags + tail);
    if step.Bound? {
      LiftedFlags(fs, args[n..], tail);
      ParseJoined(fs, step.binding, n, args[..n], r.flags, tail);
      FaithfulStep(fs, step.binding, args[..n], r.flags, ParseAnywhere(fs, args[n..]), tail);
    } else if step.error.NeedsArgument? {
      assert args[n..] == [] && args[..n] + r.flags == args;
      DanglingStep(fs, args, tail);
    } else {
      assert (args[..n] + r.flags) + tail == args[..n] + (r.flags + tail);
    }
  }

  /** A dangling value flag swallows the token that reordering puts after it. */
  lemma DanglingStep(fs: FlagSet, args: seq<string>, tail: seq<string>)
    requires |args| == 1 && DashLeading(args[0]) && args[0] != "--"
    requires ParseFlag(fs, args).Bad? && ParseFlag(fs, args).error.NeedsArgument?
    ensures Parse(fs, args + tail) == Failed([], ParseFlag(fs, args).error) <==> tail == []
  {
    assert args + [] == args;
    var both := args + tail;
    assert both[0] == args[0];
    if tail != [] {
      assert both[1] == tail[0];
      assert ParseFlag(fs, both).Bound? || ParseFlag(fs, both).error.InvalidValue?;
    }
  }

  /** A tail parses to itself, verbatim and without bindings, exactly when it
      does not begin with a dash. */
  lemma TailVerbatim(fs: FlagSet, tail: seq<string>)
    ensures Parse(fs, tail) == Parsed([], tail) <==> tail == [] || !DashLeading(tail[0])
  {
  }

  /** The condition in terms of the two groups. */
  lemma PreservedBySplit(fs: FlagSet, args: seq<string>)
    ensures var s, o := Split(fs, args), ParseAnywhere(fs, args);
            Parse(fs, s.flags + s.positional) == o <==>
              || (o.Failed? && !Dangling(o))
              || s.positional == []
              || (o.Parsed? && !DashLeading(s.positional[0]))
  {
    var s, o := Split(fs, args), ParseAnywhere(fs, args);
    LiftedFlags(fs, args, s.positional);
    TailVerbatim(fs, s.positional);
    if o.Parsed? {
      var t := Parse(fs, s.positional);
      assert Prepend(o.bindings, t) == o <==> t == Parsed([], s.positional) by {
        assert o.bindings + [] == o.bindings;
        if Prepend(o.bindings, t) == o {
          assert |o.bindings + t.bindings| == |o.bindings|;
        }
      }
    }
  }

  // ------------------------------------------------------- the exact condition

  /** A "--" comes before any positional and protects a token with a dash. */
  predicate ProtectsFlag(fs: FlagSet, args: seq<string>)
    decreases |args|
  {
    if args == [] then false
    else if args[0] == "--" then |args| > 1 && DashLeading(args[1])
    else DashLeading(args[0]) && ProtectsFlag(fs, args[Width(fs, args)..])
  }

  /** Some token is neither a flag, nor a flag's value, nor the first "--". */
  predicate HasPositional(fs: FlagSet, args: seq<string>)
    decreases |args|
  {
    if args == [] then false
    else if args[0] == "--" then |args| > 1
    else !DashLeading(args[0]) || HasPositional(fs, args[Width(fs, args)..])
  }

  lemma {:induction false} GroupsOfArgs(fs: FlagSet, args: seq<string>)
    ensures var rest := Split(fs, args).positional;
      && (rest != [] <==> HasPositional(fs, args))
      && (rest != [] && DashLeading(rest[0]) <==> ProtectsFlag(fs, args))
    decreases |args|
  {
    if args != [] && args[0] != "--" && DashLeading(args[0]) {
      GroupsOfArgs(fs, args[Width(fs, args)..]);
    }
  }

  /** What the arguments must be like for reordering to keep their meaning. */
  predicate Keeps(fs: FlagSet, args: seq<string>) {
    match ParseAnywhere(fs, args)
    case Parsed(_, _) => !ProtectsFlag(fs, args)
    case Failed(_, NeedsArgument(_)) => !HasPositional(fs, args)
    case Failed(_, _) => true
  }

  /** Reordering preserves meaning exactly so: arguments that parse must not
      protect a dash by a "--" in front of all positionals; arguments that end in
      a flag without its value must hold no positional, which the flag would take
      for its value; other errors stay the same errors. */
  lemma ReorderPreservesMeaning(fs: FlagSet, args: seq<string>)
    ensures var s := Split(fs, args);
      Parse(fs, s.flags + s.positional) == ParseAnywhere(fs, args) <==> Keeps(fs, args)
  {
    PreservedBySplit(fs, args);
    GroupsOfArgs(fs, args);
  }

  lemma DashIsLifted(fs: FlagSet)
    ensures Split(fs, ["--", "-n"]) == Parts([], ["-n"], true)
    ensures Split(fs, ["run", "--", "-n"]) == Parts([], ["run", "-n"], true)
  {
    assert ["--", "-n"][1..] == ["-n"];
    assert ["run", "--", "-n"][1..] == ["--", "-n"];
  }

  lemma DashIsParsed(fs: FlagSet)
    requires fs.kind("n") == Boolean && fs.accepts("n", "true")
    ensures Parse(fs, ["-n"]) == Parsed([Binding("n", "true")], [])
  {
    var d := ["-n"];
    assert EqualsAt("n") == 1 by { assert "n"[1..] == ""; }
    assert Body("-n") == "n" && "n"[..1] == "n";
    assert ParseFlag(fs, d) == Bound(Binding("n", "true"), 1);
    assert d[1..] == [] && Parse(fs, d[1..]) == Parsed([], []);
  }

  /** "soyaos run -- -n": the token after "--" is a positional to the user and a
      flag to the parser, because the "--" itself is dropped. */
  lemma DoubleDashIsForgotten(fs: FlagSet)
    requires fs.kind("n") == Boolean && fs.accepts("n", "true")
    ensures var s := Split(fs, ["run", "--", "-n"]); s.flags + s.positional == ["run", "-n"]
    ensures Parse(fs, ["--", "-n"]) == Parsed([], ["-n"])
    ensures var s := Split(fs, ["--", "-n"]);
      Parse(fs, s.flags + s.positional) == Parsed([Binding("n", "true")], [])
  {
    DashIsLifted(fs);
    DashIsParsed(fs);
    assert [] + ["-n"] == ["-n"] && [] + ["run", "-n"] == ["run", "-n"];
  }

  // ------------------------------------------------------------- written lines

  /** A command line as one would write it: a flag alone, with its value behind an
      equals sign or in the next token, with one dash or two; or a positional. */
  datatype Item =
    | Alone(two: bool, name: string)
    | Joined(two: bool, name: string, value: string)
    | Apart(two: bool, name: string, value: string)
    | Positional(tok: string)

  function Dashes(two: bool): string {
    if two then "--" else "-"
  }

  function TokensOf(i: Item): seq<string> {
    match i
    case Alone(two, name) => [Dashes(two) + name]
    case Joined(two, name, value) => [Dashes(two) + (name + ("=" + value))]
    case Apart(two, name, value) => [Dashes(two) + name, value]
    case Positional(tok) => [tok]
  }

  predicate PlainName(name: string) {
    name != "" && name[0] != '-' && '=' !in name
  }

  predicate Proper(fs: FlagSet, i: Item) {
    match i
    case Alone(_, name) => PlainName(name) && fs.kind(name) == Boolean && fs.accepts(name, "true")
    case Joined(_, name, value) => PlainName(name) && fs.kind(name) != Unknown && fs.accepts(name, value)
    case Apart(_, name, value) => PlainName(name) && fs.kind(name) == Valued && fs.accepts(name, value)
    case Positional(tok) => !DashLeading(tok)
  }

  function Tokens(items: seq<Item>): seq<string> {
    if items == [] then [] else TokensOf(items[0]) + Tokens(items[1..])
  }

  function BindingOf(i: Item): seq<Binding> {
    match i
    case Alone(_, name) => [Binding(name, "true")]
    case Joined(_, name, value) => [Binding(name, value)]
    case Apart(_, name, value) => [Binding(name, value)]
    case Positional(_) => []
  }

  function Bindings(items: seq<Item>): seq<Binding> {
    if items == [] then [] else BindingOf(items[0]) + Bindings(items[1..])
  }

  function Positionals(items: seq<Item>): seq<string> {
    if items == [] then []
    else (if items[0].Positional? then [items[0].tok] else []) + Positionals(items[1..])
  }

  lemma {:induction false} EqualsBehind(name: string, more: string)
    requires '=' !in name
    ensures EqualsAt(name) == |name| && EqualsAt(name + ("=" + more)) == |name|
  {
    if name == "" {
      assert name + ("=" + more) == "=" + more;
    } else {
      assert (name + ("=" + more))[1..] == name[1..] + ("=" + more);
      EqualsBehind(name[1..], more);
    }
  }

  lemma BodyOf(two: bool, body: string)
    requires body != "" && body[0] != '-'
    ensures var tok := Dashes(two) + body; DashLeading(tok) && tok != "--" && Body(tok) == body
  {
    var tok := Dashes(two) + body;
    if two {
      assert tok[2..] == body && tok[2] == body[0];
    } else {
      assert tok[1..] == body && tok[1] == body[0];
    }
  }

  lemma ValueInToken(fs: FlagSet, args: seq<string>, body: string, name: string, value: string)
    requires args != [] && DashLeading(args[0]) && args[0] != "--" && Body(args[0]) == body
    requires body == name + ("=" + value) && body[0] !in "-=" && EqualsAt(body) == |name| && fs.kind(name) != Unknown
    ensures ParseFlag(fs, args) == Set(fs, name, value, 1)
  {
    assert body[..|name|] == name;
    assert body[|name| + 1..] == value;
  }

  /** A flag is parsed as it was written, whatever follows. */
  lemma FlagIsParsed(fs: FlagSet, i: Item, more: seq<string>)
    requires Proper(fs, i) && !i.Positional?
    ensures var args := TokensOf(i) + more;
      && DashLeading(args[0]) && args[0] != "--"
      && ParseFlag(fs, args) == Bound(BindingOf(i)[0], |TokensOf(i)|)
  {
    var args := TokensOf(i) + more;
    match i {
      case Alone(two, name) => BareName(fs, args, two, name);
      case Joined(two, name, value) => JoinedName(fs, args, two, name, value);
      case Apart(two, name, value) => BareName(fs, args, two, name);
    }
  }

  ghost predicate AllProper(fs: FlagSet, items: seq<Item>) {
    forall i :: 0 <= i < |items| ==> Proper(fs, items[i])
  }

  /** What is written in front of the rest adds its flags and its positionals. */
  function Written(items: seq<Item>, o: Outcome): Outcome {
    if o.Parsed? then Parsed(Bindings(items) + o.bindings, Positionals(items) + o.positional) else o
  }

  lemma ItemUnderstood(fs: FlagSet, item: Item, rest: seq<string>)
    requires Proper(fs, item) && ParseAnywhere(fs, rest).Parsed?
    ensures ParseAnywhere(fs, TokensOf(item) + rest) == WithItem(item, ParseAnywhere(fs, rest))
  {
    var args := TokensOf(item) + rest;
    assert args[|TokensOf(item)|..] == rest;
    if !item.Positional? {
      FlagIsParsed(fs, item, rest);
    }
  }

  function WithItem(item: Item, o: Outcome): Outcome
    requires o.Parsed?
  {
    Parsed(BindingOf(item) + o.bindings, (if item.Positional? then [item.tok] else []) + o.positional)
  }

  lemma WithOneMore(items: seq<Item>, o: Outcome)
    requires items != [] && o.Parsed?
    ensures Written(items, o) == WithItem(items[0], Written(items[1..], o))
  {
    var b, p := BindingOf(items[0]), if items[0].Positional? then [items[0].tok] else [];
    assert b + (Bindings(items[1..]) + o.bindings) == (b + Bindings(items[1..])) + o.bindings;
    assert p + (Positionals(items[1..]) + o.positional) == (p + Positionals(items[1..])) + o.positional;
  }

  lemma NothingWritten(o: Outcome)
    ensures Written([], o) == o
  {
    if o.Parsed? {
      assert [] + o.bindings == o.bindings && [] + o.positional == o.positional;
    }
  }

  /** The outcome of some arguments, once it is known. */
  ghost predicate Yields(fs: FlagSet, args: seq<string>, o: Outcome) {
    ParseAnywhere(fs, args) == o
  }

  lemma OneMoreUnderstood(fs: FlagSet, items: seq<Item>, behind: seq<string>, o: Outcome)
    requires items != [] && Proper(fs, items[0]) && o.Parsed? && Yields(fs, behind, Written(items[1..], o))
    ensures Yields(fs, TokensOf(items[0]) + behind, Written(items, o))
  {
    ItemUnderstood(fs, items[0], behind);
    WithOneMore(items, o);
  }

  lemma TokensSplit(items: seq<Item>, rest: seq<string>)
    requires items != []
    ensures Tokens(items) + rest == TokensOf(items[0]) + (Tokens(items[1..]) + rest)
  {
  }

  lemma {:induction false} ItemsUnderstood(fs: FlagSet, items: seq<Item>, rest: seq<string>, o: Outcome)
    requires AllProper(fs, items) && o.Parsed? && Yields(fs, rest, o)
    ensures Yields(fs, Tokens(items) + rest, Written(items, o))
  {
    if items == [] {
      assert Tokens(items) + rest == rest;
      NothingWritten(o);
    } else {
      ItemsUnderstood(fs, items[1..], rest, o);
      OneMoreUnderstood(fs, items, Tokens(items[1..]) + rest, o);
      TokensSplit(items, rest);
    }
  }

  /** A line is understood as it was written: every flag, wherever it stands, gets
      its value, and the positionals are the rest, in order; behind a double dash
      everything is positional. */
  lemma WrittenIsUnderstood(fs: FlagSet, items: seq<Item>, protected: seq<string>)
    requires AllProper(fs, items)
    ensures ParseAnywhere(fs, Tokens(items)) == Parsed(Bindings(items), Positionals(items))
    ensures ParseAnywhere(fs, Tokens(items) + (["--"] + protected)) ==
            Parsed(Bindings(items), Positionals(items) + protected)
  {
    ItemsUnderstood(fs, items, [], Parsed([], []));
    assert Tokens(items) + [] == Tokens(items);
    assert Bindings(items) + [] == Bindings(items) && Positionals(items) + [] == Positionals(items);
    assert (["--"] + protected)[1..] == protected;
    ItemsUnderstood(fs, items, ["--"] + protected, Parsed([], protected));
  }

  /** What is wrong with a flag written so, at the end of the line or before more. */
  function Wrong(fs: FlagSet, i: Item, last: bool): Error
    requires !i.Positional?
  {
    if fs.kind(i.name) == Unknown then Undefined(i.name)
    else if i.Alone? && fs.kind(i.name) == Valued && last then NeedsArgument(i.name)
    else InvalidValue(i.name)
  }

  predicate IsWrong(fs: FlagSet, i: Item, last: bool) {
    match i
    case Alone(_, name) => PlainName(name) && (
      match fs.kind(name)
      case Unknown => true
      case Boolean => !fs.accepts(name, "true")
      case Valued => last)
    case Joined(_, name, value) => PlainName(name) && (fs.kind(name) != Unknown ==> !fs.accepts(name, value))
    case Apart(_, name, value) => PlainName(name) && fs.kind(name) == Valued && !fs.accepts(name, value)
    case Positional(_) => false
  }

  lemma WrongFlag(fs: FlagSet, i: Item, rest: seq<string>)
    requires IsWrong(fs, i, rest == [])
    ensures ParseAnywhere(fs, TokensOf(i) + rest) == Failed([], Wrong(fs, i, rest == []))
  {
    var args := TokensOf(i) + rest;
    if i.Joined? {
      JoinedName(fs, args, i.two, i.name, i.value);
    } else {
      BareName(fs, args, i.two, i.name);
    }
  }

  lemma BareName(fs: FlagSet, args: seq<string>, two: bool, name: string)
    requires args != [] && args[0] == Dashes(two) + name && PlainName(name)
    ensures DashLeading(args[0]) && args[0] != "--"
    ensures fs.kind(name) == Unknown ==> ParseFlag(fs, args) == Bad(Undefined(name))
    ensures fs.kind(name) == Valued && |args| == 1 ==> ParseFlag(fs, args) == Bad(NeedsArgument(name))
    ensures fs.kind(name) == Boolean ==> ParseFlag(fs, args) == Set(fs, name, "true", 1)
    ensures fs.kind(name) == Valued && |args| > 1 ==> ParseFlag(fs, args) == Set(fs, name, args[1], 2)
  {
    BodyOf(two, name);
    EqualsBehind(name, "");
    assert name[..|name|] == name;
  }

  lemma JoinedName(fs: FlagSet, args: seq<string>, two: bool, name: string, value: string)
    requires args != [] && args[0] == Dashes(two) + (name + ("=" + value)) && PlainName(name)
    ensures DashLeading(args[0]) && args[0] != "--"
    ensures ParseFlag(fs, args) ==
            if fs.kind(name) == Unknown then Bad(Undefined(name)) else Set(fs, name, value, 1)
  {
    var body := name + ("=" + value);
    BodyOf(two, body);
    EqualsBehind(name, value);
    assert body[0] == name[0];
    if fs.kind(name) == Unknown {
      assert body[..|name|] == name;
    } else {
      ValueInToken(fs, args, body, name, value);
    }
  }

  lemma ItemBeforeError(fs: FlagSet, item: Item, rest: seq<string>, b: seq<Binding>, e: Error)
    requires Proper(fs, item) && Yields(fs, rest, Failed(b, e))
    ensures Yields(fs, TokensOf(item) + rest, Failed(BindingOf(item) + b, e))
  {
    var args := TokensOf(item) + rest;
    assert args[|TokensOf(item)|..] == rest;
    if item.Positional? {
      assert BindingOf(item) + b == b;
    } else {
      FlagIsParsed(fs, item, rest);
    }
  }

  /** The first flag that is wrong decides, after the flags before it were set. */
  lemma {:induction false} FirstErrorDecides(fs: FlagSet, items: seq<Item>, wrong: Item, rest: seq<string>)
    requires AllProper(fs, items) && IsWrong(fs, wrong, rest == [])
    ensures Yields(fs, Tokens(items) + (TokensOf(wrong) + rest), Failed(Bindings(items), Wrong(fs, wrong, rest == [])))
  {
    var bad := TokensOf(wrong) + rest;
    if items == [] {
      WrongFlag(fs, wrong, rest);
      assert Tokens(items) + bad == bad;
    } else {
      FirstErrorDecides(fs, items[1..], wrong, rest);
      ItemBeforeError(fs, items[0], Tokens(items[1..]) + bad, Bindings(items[1..]), Wrong(fs, wrong, rest == []));
      TokensSplit(items, bad);
    }
  }

  lemma {:induction false} PositionalsHaveNoDash(fs: FlagSet, items: seq<Item>)
    requires AllProper(fs, items)
    ensures forall tok :: tok in Positionals(items) ==> !DashLeading(tok)
  {
    if items != [] { PositionalsHaveNoDash(fs, items[1..]); }
  }

  /** Reordered, a line without a double dash is parsed by Go as it was written. */
  lemma WrittenIsParsed(fs: FlagSet, items: seq<Item>)
    requires AllProper(fs, items)
    ensures var s := Split(fs, Tokens(items));
      Parse(fs, s.flags + s.positional) == Parsed(Bindings(items), Positionals(items))
  {
    var args := Tokens(items);
    WrittenIsUnderstood(fs, items, []);
    PositionalsHaveNoDash(fs, items);
    PreservedBySplit(fs, args);
    LiftedFlags(fs, args, []);
  }

  /** `sub` is `s` with some elements left out. */
  ghost predicate Subsequence<T>(sub: seq<T>, s: seq<T>) {
    if sub == [] then true
    else s != [] && ((sub[0] == s[0] && Subsequence(sub[1..], s[1..])) || Subsequence(sub, s[1..]))
  }

  lemma {:induction false} SubsequenceExtend<T>(p: seq<T>, sub: seq<T>, s: seq<T>)
    requires Subsequence(sub, s)
    ensures Subsequence(p + sub, p + s) && Subsequence(sub, p + s)
    decreases |p|
  {
    if p == [] {
      assert p + sub == sub && p + s == s;
    } else {
      SubsequenceExtend(p[1..], sub, s);
      assert (p + sub)[1..] == p[1..] + sub && (p + s)[1..] == p[1..] + s;
    }
  }

  lemma SubsequenceSelf<T>(s: seq<T>)
    ensures Subsequence(s, s)
  {
    if s != [] { SubsequenceSelf(s[1..]); }
  }

  /** The two groups keep their relative order... */
  lemma {:induction false} SplitIsStable(fs: FlagSet, args: seq<string>)
    ensures Subsequence(Split(fs, args).flags, args)
    ensures Subsequence(Split(fs, args).positional, args)
    decreases |args|
  {
    if args != [] && args[0] == "--" {
      SubsequenceSelf(args[1..]);
    } else if args != [] {
      var n := Width(fs, args);
      var head, rest := args[..n], args[n..];
      SplitIsStable(fs, rest);
      assert args == head + rest;
      SubsequenceExtend(head, Split(fs, rest).flags, rest);
      SubsequenceExtend(head, Split(fs, rest).positional, rest);
    }
  }

  /** ...and together hold every token of the input but one "--". */
  lemma {:induction false} SplitConserves(fs: FlagSet, args: seq<string>)
    ensures var s := Split(fs, args);
            multiset(s.flags) + multiset(s.positional) + multiset(if s.stopped then ["--"] else []) == multiset(args)
    decreases |args|
  {
    if args != [] {
      var n := if args[0] == "--" then 1 else Width(fs, args);
      var head, rest := args[..n], args[n..];
      assert args == head + rest;
      assert multiset(args) == multiset(head) + multiset(rest);
      if args[0] == "--" {
        assert head == ["--"];
      } else {
        SplitConserves(fs, rest);
        var r := Split(fs, rest);
        if DashLeading(args[0]) {
          assert multiset(head + r.flags) == multiset(head) + multiset(r.flags);
        } else {
          assert head == [args[0]];
          assert multiset(head + r.positional) == multiset(head) + multiset(r.positional);
        }
      }
    }
  }
}
