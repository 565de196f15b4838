/** Checking that a plugin's requirements, and what they require through extras in turn, are installed. */
module Requirements {
  import opened Prelude
  import Text

  type Marker = string
  type Specifier = string
  type Version = string

  datatype Requirement = Requirement(name: string, extras: set<string>, marker: Option<Marker>,
                                     specifier: Option<Specifier>)

  /** An installed distribution: its version and the requirement lines of its metadata. */
  datatype Distribution = Distribution(version: Version, needs: seq<string>)

  /** The installed environment and the packaging rules, which this model does not interpret. */
  datatype Environment = Environment(
    parse: string -> Option<Requirement>,
    markerHolds: (Marker, string) -> bool,
    contains: (Specifier, Version) -> bool,
    canonical: string -> string,
    installed: map<string, Distribution>)

  /** A package with the extras requested of it. */
  datatype State = State(name: string, extras: set<string>)

  function StateOf(env: Environment, r: Requirement): State {
    State(env.canonical(r.name), r.extras)
  }

  /** The extras under which the dependencies of a package are considered. */
  function ActiveExtras(extras: set<string>): set<string> {
    if extras == {} then {""} else extras
  }

  predicate IsActive(env: Environment, r: Requirement, activeExtras: set<string>) {
    r.marker.None? || exists extra :: extra in activeExtras && env.markerHolds(r.marker.value, extra)
  }

  predicate IsInstalled(env: Environment, r: Requirement) {
    && env.canonical(r.name) in env.installed
    && (r.specifier.None? || env.contains(r.specifier.value, env.installed[env.canonical(r.name)].version))
  }

  // ----- what the check is meant to decide -----

  /** Line line in the metadata of state s is an active requirement r. */
  ghost predicate Demands(env: Environment, s: State, line: string, r: Requirement) {
    && s.name in env.installed && line in env.installed[s.name].needs
    && env.parse(line) == Some(r)
    && IsActive(env, r, ActiveExtras(s.extras))
  }

  ghost predicate IsLink(env: Environment, a: State, b: State) {
    exists line, r :: Demands(env, a, line, r) && StateOf(env, r) == b
  }

  ghost predicate IsRoot(env: Environment, top: seq<Requirement>, s: State) {
    exists r :: r in top && IsActive(env, r, {""}) && StateOf(env, r) == s
  }

  /** Each state is demanded by the one before it, the first one by the requirements file. */
  ghost predicate IsChain(env: Environment, top: seq<Requirement>, chain: seq<State>) {
    && chain != []
    && IsRoot(env, top, chain[0])
    && forall i :: 0 <= i < |chain| - 1 ==> IsLink(env, chain[i], chain[i + 1])
  }

  ghost predicate Reachable(env: Environment, top: seq<Requirement>, s: State) {
    exists chain :: IsChain(env, top, chain) && chain[|chain| - 1] == s
  }

  /** Requirement r is an active one of the file, or of a package reachable from it. */
  ghost predicate IsDemanded(env: Environment, top: seq<Requirement>, r: Requirement) {
    || (r in top && IsActive(env, r, {""}))
    || exists s, line :: Reachable(env, top, s) && Demands(env, s, line, r)
  }

  /** Line line stands in the metadata of a reachable package and is no requirement. */
  ghost predicate IsMalformed(env: Environment, top: seq<Requirement>, line: string) {
    && env.parse(line) == None
    && exists s :: Reachable(env, top, s) && s.name in env.installed && line in env.installed[s.name].needs
  }

  /** Everything demanded is installed at a satisfying version, and all metadata met on the way is well formed. */
  ghost predicate AllInstalled(env: Environment, top: seq<Requirement>) {
    && (forall r :: IsDemanded(env, top, r) ==> IsInstalled(env, r))
    && (forall line :: !IsMalformed(env, top, line))
  }

  lemma ReachTop(env: Environment, top: seq<Requirement>, r: Requirement)
    requires r in top && IsActive(env, r, {""})
    ensures Reachable(env, top, StateOf(env, r))
  {
    var chain := [StateOf(env, r)];
    assert IsChain(env, top, chain);
  }

  lemma ReachDemanded(env: Environment, top: seq<Requirement>, s: State, line: string, r: Requirement)
    requires Reachable(env, top, s) && Demands(env, s, line, r)
    ensures Reachable(env, top, StateOf(env, r))
  {
    assert IsLink(env, s, StateOf(env, r));
    ReachLinked(env, top, s, StateOf(env, r));
  }

  lemma ReachLinked(env: Environment, top: seq<Requirement>, a: State, b: State)
    requires Reachable(env, top, a) && IsLink(env, a, b)
    ensures Reachable(env, top, b)
  {
    hide IsLink, IsRoot;
    var chain :| IsChain(env, top, chain) && chain[|chain| - 1] == a;
    assert IsChain(env, top, chain + [b]);
  }

  // ----- the check -----

  datatype Outcome = Satisfied | Unsatisfied | Malformed(line: string)

  /** The states the check can meet: those of the file's requirements and of all metadata lines. */
  ghost function Universe(env: Environment, top: seq<Requirement>): set<State> {
    (set r | r in top :: StateOf(env, r))
    + (set name, line | name in env.installed && line in env.installed[name].needs && env.parse(line).Some? ::
         StateOf(env, env.parse(line).value))
  }

  /** Every line of s is well formed and what it demands is installed and visited. */
  ghost predicate IsSettled(env: Environment, s: State, visited: set<State>) {
    && s.name in env.installed
    && forall line :: line in env.installed[s.name].needs ==>
         && env.parse(line).Some?
         && var r := env.parse(line).value;
            IsActive(env, r, ActiveExtras(s.extras)) ==> IsInstalled(env, r) && StateOf(env, r) in visited
  }

  /** The visited states are reachable, and all but the open ones are settled. */
  ghost predicate IsSearch(env: Environment, top: seq<Requirement>, visited: set<State>, open: set<State>) {
    && (forall s :: s in visited ==> Reachable(env, top, s))
    && (forall s :: s in visited && s !in open ==> IsSettled(env, s, visited))
    && open <= visited
  }

  /** An answer other than yes has a reason. */
  ghost predicate IsJustified(env: Environment, top: seq<Requirement>, o: Outcome) {
    match o
    case Satisfied => true
    case Unsatisfied => exists r :: IsDemanded(env, top, r) && !IsInstalled(env, r)
    case Malformed(line) => IsMalformed(env, top, line)
  }

  /** Requirement r is considered with the given extras: it comes from the file, or from a line of a reachable state. */
  ghost predicate IsAsked(env: Environment, top: seq<Requirement>, r: Requirement, activeExtras: set<string>) {
    || (r in top && activeExtras == {""})
    || exists s, line :: && Reachable(env, top, s) && s.name in env.installed
                         && line in env.installed[s.name].needs && env.parse(line) == Some(r)
                         && activeExtras == ActiveExtras(s.extras)
  }

  lemma AskedIsDemanded(env: Environment, top: seq<Requirement>, r: Requirement, activeExtras: set<string>)
    requires IsAsked(env, top, r, activeExtras) && IsActive(env, r, activeExtras)
    ensures IsDemanded(env, top, r) && Reachable(env, top, StateOf(env, r)) && StateOf(env, r) in Universe(env, top)
  {
    if r in top && activeExtras == {""} {
      ReachTop(env, top, r);
    } else {
      var s, line :| && Reachable(env, top, s) && s.name in env.installed
                     && line in env.installed[s.name].needs && env.parse(line) == Some(r)
                     && activeExtras == ActiveExtras(s.extras);
      assert Demands(env, s, line, r);
      ReachDemanded(env, top, s, line, r);
    }
  }

  /** The closure of _requirements_installed: the recursion and the set it marks. */
  class Checker {
    const env: Environment
    var visited: set<State>

    constructor (env: Environment)
      ensures this.env == env && visited == {}
    {
      this.env := env;
      visited := {};
    }

    /** open holds the states whose dependencies are being checked further up. */
    method RequirementSatisfied(r: Requirement, activeExtras: set<string>, ghost top: seq<Requirement>,
                                ghost open: set<State>)
        returns (o: Outcome)
      requires IsSearch(env, top, visited, open) && IsAsked(env, top, r, activeExtras)
      modifies this
      ensures IsJustified(env, top, o) && old(visited) <= visited
      ensures o.Satisfied? ==>
                && IsSearch(env, top, visited, open)
                && (IsActive(env, r, activeExtras) ==> IsInstalled(env, r) && StateOf(env, r) in visited)
      decreases Universe(env, top) - visited
    {
      hide Universe, Reachable, IsMalformed, IsDemanded;
      if !IsActive(env, r, activeExtras) {
        return Satisfied;
      }
      AskedIsDemanded(env, top, r, activeExtras);
      if !IsInstalled(env, r) {
        return Unsatisfied;
      }
      var state := StateOf(env, r);
      if state in visited {
        return Satisfied;
      }
      visited := visited + {state};
      var childExtras := ActiveExtras(r.extras);
      var lines := env.installed[state.name].needs;
      ghost var nowOpen := open + {state};
      MarkOpen(env, top, old(visited), open, state);
      for i := 0 to |lines|
        invariant IsSearch(env, top, visited, nowOpen) && old(visited) + {state} <= visited
        invariant forall k :: 0 <= k < i ==> LineSettled(env, state, lines[k], visited)
      {
        var dependency := env.parse(lines[i]);
        if dependency.None? {
          MalformedMet(env, top, state, lines[i]);
          return Malformed(lines[i]);
        }
        assert IsAsked(env, top, dependency.value, childExtras);
        ghost var before := visited;
        o := RequirementSatisfied(dependency.value, childExtras, top, nowOpen);
        if !o.Satisfied? {
          return;
        }
        forall k | 0 <= k < i + 1 ensures LineSettled(env, state, lines[k], visited) {
          if k < i {
            assert LineSettled(env, state, lines[k], before);
          }
        }
      }
      CloseState(env, top, visited, open, state);
      o := Satisfied;
    }
  }

  ghost predicate LineSettled(env: Environment, s: State, line: string, visited: set<State>) {
    && env.parse(line).Some?
    && var r := env.parse(line).value;
       IsActive(env, r, ActiveExtras(s.extras)) ==> IsInstalled(env, r) && StateOf(env, r) in visited
  }

  lemma MarkOpen(env: Environment, top: seq<Requirement>, visited: set<State>, open: set<State>, s: State)
    requires IsSearch(env, top, visited, open) && Reachable(env, top, s)
    ensures IsSearch(env, top, visited + {s}, open + {s})
  {}

  lemma CloseState(env: Environment, top: seq<Requirement>, visited: set<State>, open: set<State>, s: State)
    requires IsSearch(env, top, visited, open + {s}) && s.name in env.installed && open <= visited
    requires forall k :: 0 <= k < |env.installed[s.name].needs| ==>
               LineSettled(env, s, env.installed[s.name].needs[k], visited)
    ensures IsSearch(env, top, visited, open)
  {
    forall line | line in env.installed[s.name].needs ensures LineSettled(env, s, line, visited) {
      var k :| 0 <= k < |env.installed[s.name].needs| && env.installed[s.name].needs[k] == line;
    }
  }

  lemma MalformedMet(env: Environment, top: seq<Requirement>, s: State, line: string)
    requires Reachable(env, top, s) && s.name in env.installed && line in env.installed[s.name].needs
    requires env.parse(line) == None
    ensures IsMalformed(env, top, line)
  {}

  /** When a search has nothing open, whatever is reachable from visited states is visited. */
  lemma {:induction false} ChainIsVisited(env: Environment, top: seq<Requirement>, visited: set<State>,
                                          chain: seq<State>, n: nat)
    requires IsSearch(env, top, visited, {}) && IsChain(env, top, chain) && n < |chain|
    requires forall r :: r in top && IsActive(env, r, {""}) ==> StateOf(env, r) in visited
    ensures chain[n] in visited
  {
    if n > 0 {
      ChainIsVisited(env, top, visited, chain, n - 1);
      assert IsLink(env, chain[n - 1], chain[n]);
      var line, r :| Demands(env, chain[n - 1], line, r) && StateOf(env, r) == chain[n];
      assert IsSettled(env, chain[n - 1], visited);
    }
  }

  lemma SearchIsComplete(env: Environment, top: seq<Requirement>, visited: set<State>)
    requires IsSearch(env, top, visited, {})
    requires forall r :: r in top && IsActive(env, r, {""}) ==> IsInstalled(env, r) && StateOf(env, r) in visited
    ensures AllInstalled(env, top)
  {
    forall s | Reachable(env, top, s) ensures IsSettled(env, s, visited) {
      var chain :| IsChain(env, top, chain) && chain[|chain| - 1] == s;
      ChainIsVisited(env, top, visited, chain, |chain| - 1);
    }
    forall r | IsDemanded(env, top, r) ensures IsInstalled(env, r) {
      if !(r in top && IsActive(env, r, {""})) {
        var s, line :| Reachable(env, top, s) && Demands(env, s, line, r);
        assert IsSettled(env, s, visited);
      }
    }
    forall s, line | Reachable(env, top, s) && s.name in env.installed && line in env.installed[s.name].needs
      ensures env.parse(line).Some?
    {
      assert IsSettled(env, s, visited);
    }
  }

  /** all(requirement_satisfied(requirement) for requirement in requirements) */
  method CheckRequirements(env: Environment, top: seq<Requirement>) returns (o: Outcome)
    ensures IsJustified(env, top, o)
    ensures o.Satisfied? <==> AllInstalled(env, top)
  {
    hide Universe, Reachable, IsMalformed, IsDemanded, IsSettled;
    var checker := new Checker(env);
    for i := 0 to |top|
      invariant IsSearch(env, top, checker.visited, {})
      invariant forall k :: 0 <= k < i && IsActive(env, top[k], {""}) ==>
                  IsInstalled(env, top[k]) && StateOf(env, top[k]) in checker.visited
    {
      o := checker.RequirementSatisfied(top[i], {""}, top, {});
      if !o.Satisfied? {
        return;
      }
    }
    SearchIsComplete(env, top, checker.visited);
    o := Satisfied;
  }

  // ----- what is demanded -----

  /** The marker lets the requirement count under the extras asked of its package, or under none. */
  ghost predicate Counts(env: Environment, r: Requirement, extras: set<string>) {
    || r.marker.None?
    || (extras == {} && env.markerHolds(r.marker.value, ""))
    || exists extra :: extra in extras && env.markerHolds(r.marker.value, extra)
  }

  /** There is a distribution of that name, at a version the requirement admits. */
  ghost predicate IsPresent(env: Environment, r: Requirement) {
    exists name :: && name in env.installed && name == env.canonical(r.name)
                   && (r.specifier.Some? ==> env.contains(r.specifier.value, env.installed[name].version))
  }

  /** Nothing is installed that needs anything itself. */
  ghost predicate NeedsNothing(env: Environment, r: Requirement) {
    env.canonical(r.name) in env.installed ==> env.installed[env.canonical(r.name)].needs == []
  }

  /** Of packages that need nothing, exactly the requirements that count without an extra have to be present. */
  lemma PlainRequirementsDecide(env: Environment, top: seq<Requirement>)
    requires forall r :: r in top ==> NeedsNothing(env, r)
    ensures AllInstalled(env, top) <==> forall r :: r in top && Counts(env, r, {}) ==> IsPresent(env, r)
  {
    if forall r :: r in top && Counts(env, r, {}) ==> IsPresent(env, r) {
      var visited := set r | r in top && IsActive(env, r, {""}) :: StateOf(env, r);
      forall s | s in visited ensures Reachable(env, top, s) && IsSettled(env, s, visited) {
        var r :| r in top && IsActive(env, r, {""}) && StateOf(env, r) == s;
        ReachTop(env, top, r);
        assert Counts(env, r, {}) && IsPresent(env, r);
      }
      forall r | r in top && IsActive(env, r, {""}) ensures IsInstalled(env, r) {
        assert Counts(env, r, {}) && IsPresent(env, r);
      }
      SearchIsComplete(env, top, visited);
    }
    if AllInstalled(env, top) {
      forall r | r in top && Counts(env, r, {}) ensures IsPresent(env, r) {
        assert IsActive(env, r, {""}) by {
          assert "" in {""};
        }
        assert IsDemanded(env, top, r);
      }
    }
  }

  /** A present package with extras, whose own needs need nothing: exactly those of its lines that count under the
      extras have to be present, and all have to be requirements. */
  lemma ExtrasDecide(env: Environment, r: Requirement)
    requires r.marker.None? && IsPresent(env, r)
    requires forall line :: line in env.installed[env.canonical(r.name)].needs && env.parse(line).Some? ==>
               NeedsNothing(env, env.parse(line).value)
    ensures AllInstalled(env, [r]) <==>
              forall line :: line in env.installed[env.canonical(r.name)].needs ==>
                && env.parse(line).Some?
                && (Counts(env, env.parse(line).value, r.extras) ==> IsPresent(env, env.parse(line).value))
  {
    var lines, root := env.installed[env.canonical(r.name)].needs, StateOf(env, r);
    ReachTop(env, [r], r);
    if AllInstalled(env, [r]) {
      forall line | line in lines
        ensures env.parse(line).Some?
        ensures Counts(env, env.parse(line).value, r.extras) ==> IsPresent(env, env.parse(line).value)
      {
        if env.parse(line).None? {
          MalformedMet(env, [r], root, line);
        } else if Counts(env, env.parse(line).value, r.extras) {
          CountsIffActive(env, env.parse(line).value, r.extras);
          assert Demands(env, root, line, env.parse(line).value);
          assert IsDemanded(env, [r], env.parse(line).value);
        }
      }
    }
    if forall line :: line in lines ==>
        && env.parse(line).Some?
        && (Counts(env, env.parse(line).value, r.extras) ==> IsPresent(env, env.parse(line).value))
    {
      NeedsSettle(env, r);
    }
  }

  lemma CountsIffActive(env: Environment, r: Requirement, extras: set<string>)
    ensures Counts(env, r, extras) <==> IsActive(env, r, ActiveExtras(extras))
  {
    assert "" in {""};
  }

  lemma NeedsSettle(env: Environment, r: Requirement)
    requires r.marker.None? && IsPresent(env, r)
    requires forall line :: line in env.installed[env.canonical(r.name)].needs ==>
               && env.parse(line).Some? && NeedsNothing(env, env.parse(line).value)
               && (Counts(env, env.parse(line).value, r.extras) ==> IsPresent(env, env.parse(line).value))
    ensures AllInstalled(env, [r])
  {
    var lines, root := env.installed[env.canonical(r.name)].needs, StateOf(env, r);
    ReachTop(env, [r], r);
    var needed := set line | line in lines && IsActive(env, env.parse(line).value, ActiveExtras(r.extras))
                    :: StateOf(env, env.parse(line).value);
    var visited := {root} + needed;
    forall line | line in lines && IsActive(env, env.parse(line).value, ActiveExtras(r.extras))
      ensures IsInstalled(env, env.parse(line).value) && StateOf(env, env.parse(line).value) in visited
      ensures Reachable(env, [r], StateOf(env, env.parse(line).value))
      ensures IsSettled(env, StateOf(env, env.parse(line).value), visited)
    {
      CountsIffActive(env, env.parse(line).value, r.extras);
      assert Demands(env, root, line, env.parse(line).value);
      ReachDemanded(env, [r], root, line, env.parse(line).value);
    }
    SearchIsComplete(env, [r], visited);
  }

  // ----- the requirements file -----

  datatype Result = Checked(installed: bool) | FormatError(line: string) | MetadataError(line: string)

  predicate IsSkipped(line: string) {
    Text.Strip(line) == "" || Text.Strip(line)[0] == '#'
  }

  /** The requirements of the lines that are neither blank nor comments, up to the first one that does not parse. */
  function ParseLines(env: Environment, lines: seq<string>): seq<Requirement> {
    if lines == [] then []
    else
      var front := ParseLines(env, lines[..|lines| - 1]);
      var r := env.parse(Text.Strip(lines[|lines| - 1]));
      if IsSkipped(lines[|lines| - 1]) || r.None? then front else front + [r.value]
  }

  /** The line states a requirement: its first visible character does not begin a comment. */
  ghost predicate StatesRequirement(line: string) {
    exists i :: && 0 <= i < |line| && !Text.IsSpace(line[i]) && line[i] != '#'
                && forall k :: 0 <= k < i ==> Text.IsSpace(line[k])
  }

  lemma SkippedByFirstVisible(line: string)
    ensures IsSkipped(line) <==> !StatesRequirement(line)
  {
    hide Text.Strip;
    var before, after := Text.StripSplits(line);
    var stripped := Text.Strip(line);
    Text.StripIsStripped(line);
    var n := |before|;
    if stripped != "" {
      assert line[n] == stripped[0] && line[..n] == before;
      assert forall k :: 0 <= k < n ==> Text.IsSpace(line[k]) by {
        assert forall k :: 0 <= k < n ==> line[k] == before[k];
      }
    }
  }

  /** Of a file whose requirements all parse, exactly the lines that state one are kept, in order. */
  lemma {:induction false} ParsedLinesAre(env: Environment, lines: seq<string>) returns (kept: seq<nat>)
    requires forall line :: line in lines && StatesRequirement(line) ==> env.parse(Text.Strip(line)).Some?
    ensures |kept| == |ParseLines(env, lines)|
    ensures forall j, k :: 0 <= j < k < |kept| ==> kept[j] < kept[k]
    ensures forall i: nat :: i in kept <==> i < |lines| && StatesRequirement(lines[i])
    ensures forall j :: 0 <= j < |kept| ==>
              kept[j] < |lines| && env.parse(Text.Strip(lines[kept[j]])) == Some(ParseLines(env, lines)[j])
  {
    hide Text.Strip, StatesRequirement, IsSkipped;
    kept := [];
    if lines != [] {
      var n := |lines| - 1;
      kept := ParsedLinesAre(env, lines[..n]);
      SkippedByFirstVisible(lines[n]);
      if StatesRequirement(lines[n]) {
        assert lines[n] in lines;
        kept := kept + [n];
      }
    }
  }

  /** A plugin's requirements file is satisfied exactly when everything it leads to is installed. */
  method RequirementsInstalled(env: Environment, lines: seq<string>) returns (r: Result)
    ensures r.FormatError? <==> exists line :: line in lines && !IsSkipped(line) && env.parse(Text.Strip(line)) == None
    ensures r == Checked(true) ==> AllInstalled(env, ParseLines(env, lines))
    ensures AllInstalled(env, ParseLines(env, lines)) && !r.FormatError? ==> r == Checked(true)
    ensures r == Checked(false) ==>
              exists q :: IsDemanded(env, ParseLines(env, lines), q) && !IsInstalled(env, q)
    ensures r.MetadataError? ==> IsMalformed(env, ParseLines(env, lines), r.line)
  {
    hide AllInstalled, IsMalformed, IsDemanded, Text.Strip;
    var requirements: seq<Requirement> := [];
    for i := 0 to |lines|
      invariant requirements == ParseLines(env, lines[..i])
      invariant forall k :: 0 <= k < i && !IsSkipped(lines[k]) ==> env.parse(Text.Strip(lines[k])).Some?
    {
      assert lines[..i + 1][..i] == lines[..i];
      if IsSkipped(lines[i]) {
        continue;
      }
      var parsed := env.parse(Text.Strip(lines[i]));
      if parsed.None? {
        return FormatError(Text.Strip(lines[i]));
      }
      requirements := requirements + [parsed.value];
    }
    assert lines[..|lines|] == lines;
    var o := CheckRequirements(env, requirements);
    r := match o
      case Satisfied => Checked(true)
      case Unsatisfied => Checked(false)
      case Malformed(line) => MetadataError(line);
  }
}
