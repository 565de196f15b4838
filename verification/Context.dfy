/** The answer context: sources deduplicated, truncated and joined under a token budget. */
module Context {
  import opened Text

  datatype Source = Source(documentId: int, chunkId: int, content: string, citation: string)

  /** A quarter of a token, except that a CJK character counts as a whole one. */
  function Cost(c: char): nat {
    if '\U{3400}' <= c <= '\U{9fff}' then 4 else 1
  }

  function EstimateTokenUnits(text: string): nat {
    if text == "" then 0 else EstimateTokenUnits(text[..|text| - 1]) + Cost(text[|text| - 1])
  }

  lemma {:induction false} UnitsOfConcat(a: string, b: string)
    ensures EstimateTokenUnits(a + b) == EstimateTokenUnits(a) + EstimateTokenUnits(b)
  {
    if b == "" {
      assert a + b == a;
    } else {
      assert (a + b)[..|a + b| - 1] == a + b[..|b| - 1];
      UnitsOfConcat(a, b[..|b| - 1]);
    }
  }

  /** Where the CJK characters of a text stand. */
  ghost function CjkPlaces(text: string): set<int> {
    set i | 0 <= i < |text| && 0x3400 <= text[i] as int <= 0x9fff
  }

  /** A text has a unit for each of its characters and three more for each CJK character. */
  lemma {:induction false} UnitsCountCharacters(text: string)
    ensures EstimateTokenUnits(text) == |text| + 3 * |CjkPlaces(text)|
  {
    if text != "" {
      var n := |text| - 1;
      UnitsCountCharacters(text[..n]);
      assert CjkPlaces(text) == CjkPlaces(text[..n]) + (if 0x3400 <= text[n] as int <= 0x9fff then {n} else {});
    }
  }

  lemma UnitsOfPrefix(a: string, b: string)
    requires a <= b
    ensures EstimateTokenUnits(a) <= EstimateTokenUnits(b)
  {
    assert b == a + b[|a|..];
    UnitsOfConcat(a, b[|a|..]);
  }

  /** text[..cut] fits into the available units and one more character would not. */
  ghost predicate IsGreedyCut(text: string, available: int, cut: nat) {
    && cut <= |text|
    && (cut > 0 ==> EstimateTokenUnits(text[..cut]) <= available)
    && (cut < |text| ==> EstimateTokenUnits(text[..cut + 1]) > available)
  }

  /** A greedy cut is the longest prefix that fits. */
  lemma GreedyCutIsMaximal(text: string, available: int, cut: nat, other: nat)
    requires IsGreedyCut(text, available, cut) && other <= |text|
    ensures EstimateTokenUnits(text[..other]) <= available ==> other <= cut
  {
    if other > cut {
      assert text[..cut + 1] <= text[..other];
      UnitsOfPrefix(text[..cut + 1], text[..other]);
    }
  }

  /** How many characters fit when text is read from position i on with used units already spent. */
  function FitFrom(text: string, available: int, i: nat, used: nat): (n: nat)
    requires i <= |text|
    ensures i <= n <= |text|
    decreases |text| - i
  {
    if i == |text| || used + Cost(text[i]) > available then i
    else FitFrom(text, available, i + 1, used + Cost(text[i]))
  }

  function Fit(text: string, available: int): (n: nat)
    ensures n <= |text|
  {
    FitFrom(text, available, 0, 0)
  }

  lemma {:induction false} FitFromIsGreedy(text: string, available: int, i: nat, used: nat)
    requires i <= |text| && used == EstimateTokenUnits(text[..i]) && (i > 0 ==> used <= available)
    ensures IsGreedyCut(text, available, FitFrom(text, available, i, used))
    decreases |text| - i
  {
    if i < |text| {
      assert text[..i + 1][..i] == text[..i];
      if used + Cost(text[i]) <= available {
        FitFromIsGreedy(text, available, i + 1, used + Cost(text[i]));
      }
    }
  }

  lemma FitIsGreedy(text: string, available: int)
    ensures IsGreedyCut(text, available, Fit(text, available))
    ensures available >= 0 ==> EstimateTokenUnits(RStrip(text[..Fit(text, available)])) <= available
  {
    FitFromIsGreedy(text, available, 0, 0);
    var cut := Fit(text, available);
    UnitsOfPrefix(RStrip(text[..cut]), text[..cut]);
  }

  method TruncateToUnits(text: string, available: int) returns (r: string)
    ensures r == RStrip(text[..Fit(text, available)])
  {
    var used: nat := 0;
    var i: nat := 0;
    while i < |text|
      invariant i <= |text| && FitFrom(text, available, i, used) == Fit(text, available)
    {
      var cost := Cost(text[i]);
      if used + cost > available {
        break;
      }
      used := used + cost;
      i := i + 1;
    }
    r := RStrip(text[..i]);
  }

  // ----- selecting sources -----

  function CitationPrefix(s: Source): string { s.citation + " " }

  function Part(s: Source): string { CitationPrefix(s) + s.content }

  function Parts(chosen: seq<Source>): (parts: seq<string>)
    ensures |parts| == |chosen| && forall i :: 0 <= i < |chosen| ==> parts[i] == Part(chosen[i])
  {
    seq(|chosen|, i requires 0 <= i < |chosen| => Part(chosen[i]))
  }

  function TotalUnits(parts: seq<string>): nat {
    if parts == [] then 0 else TotalUnits(parts[..|parts| - 1]) + EstimateTokenUnits(parts[|parts| - 1])
  }

  /** '\n\n'.join(parts) */
  function JoinBlankLine(parts: seq<string>): string {
    if parts == [] then ""
    else if |parts| == 1 then parts[0]
    else JoinBlankLine(parts[..|parts| - 1]) + "\n\n" + parts[|parts| - 1]
  }

  lemma {:induction false} UnitsOfJoin(parts: seq<string>)
    ensures EstimateTokenUnits(JoinBlankLine(parts))
         == TotalUnits(parts) + (if parts == [] then 0 else 2 * (|parts| - 1))
  {
    if |parts| == 1 {
      assert parts[..0] == [];
    } else if parts != [] {
      var front, last := parts[..|parts| - 1], parts[|parts| - 1];
      UnitsOfJoin(front);
      UnitsOfConcat(JoinBlankLine(front) + "\n\n", last);
      UnitsOfConcat(JoinBlankLine(front), "\n\n");
      assert "\n\n"[..1] == "\n" && "\n"[..0] == "";
      assert EstimateTokenUnits("\n\n") == 2;
    }
  }

  /** The units the sources chosen before place i leave for the content of source s. */
  ghost function Available(chosen: seq<Source>, i: nat, s: Source, maxUnits: int): int
    requires i <= |chosen|
  {
    maxUnits - TotalUnits(Parts(chosen[..i])) - EstimateTokenUnits(CitationPrefix(s))
  }

  ghost predicate SameKey(a: Source, b: Source) {
    a.documentId == b.documentId && a.content == b.content
  }

  /** A choice: where the source stands in the input and after how many characters its content is cut. */
  datatype Pick = Pick(position: nat, cut: nat)

  /** Place i of the chosen sources: the picked input source, its content cut greedily and right-stripped. */
  ghost predicate IsChosen(input: seq<Source>, chosen: seq<Source>, picks: seq<Pick>, maxUnits: int, i: nat)
    requires i < |chosen| == |picks|
  {
    && picks[i].position < |input|
    && var s := input[picks[i].position];
       && IsGreedyCut(s.content, Available(chosen, i, s, maxUnits), picks[i].cut)
       && chosen[i] == s.(content := RStrip(s.content[..picks[i].cut]))
       && chosen[i].content != ""
  }

  ghost predicate IsSelection(input: seq<Source>, chosen: seq<Source>, picks: seq<Pick>, maxUnits: int) {
    && |chosen| == |picks|
    && (forall i :: 0 <= i < |chosen| ==> IsChosen(input, chosen, picks, maxUnits, i))
    && (forall i, j :: 0 <= i < j < |picks| ==>
          picks[i].position < picks[j].position < |input|
          && !SameKey(input[picks[i].position], input[picks[j].position]))
  }

  /** Input source q was chosen, or repeats an earlier chosen one. */
  ghost predicate IsCovered(input: seq<Source>, picks: seq<Pick>, q: nat)
    requires q < |input|
  {
    exists i :: 0 <= i < |picks| && picks[i].position <= q
                && picks[i].position < |input| && SameKey(input[picks[i].position], input[q])
  }

  /** No unit is left, or the next source's citation leaves none, or all that would fit of it is blank. */
  ghost predicate OutOfBudget(chosen: seq<Source>, next: Source, maxUnits: int) {
    || TotalUnits(Parts(chosen)) >= maxUnits
    || Available(chosen, |chosen|, next, maxUnits) <= 0
    || exists cut: nat :: IsGreedyCut(next.content, Available(chosen, |chosen|, next, maxUnits), cut)
                          && RStrip(next.content[..cut]) == ""
  }

  datatype Selection = Selection(context: string, sources: seq<Source>) | ValueError

  lemma AppendChosen(input: seq<Source>, chosen: seq<Source>, picks: seq<Pick>, maxUnits: int, p: Pick, s: Source)
    requires IsSelection(input, chosen, picks, maxUnits)
    requires p.position < |input| && forall i :: 0 <= i < |picks| ==> picks[i].position < p.position
    requires !IsCovered(input, picks, p.position)
    requires IsGreedyCut(input[p.position].content, Available(chosen, |chosen|, input[p.position], maxUnits), p.cut)
    requires s == input[p.position].(content := RStrip(input[p.position].content[..p.cut])) && s.content != ""
    ensures IsSelection(input, chosen + [s], picks + [p], maxUnits)
  {
    var chosen', picks' := chosen + [s], picks + [p];
    forall i | 0 <= i < |chosen'| ensures IsChosen(input, chosen', picks', maxUnits, i) {
      if i < |chosen| {
        assert chosen'[..i] == chosen[..i];
        assert IsChosen(input, chosen, picks, maxUnits, i);
      } else {
        assert chosen'[..i] == chosen == chosen[..|chosen|];
      }
    }
    forall i, j | 0 <= i < j < |picks'|
      ensures picks'[i].position < picks'[j].position < |input|
      ensures !SameKey(input[picks'[i].position], input[picks'[j].position])
    {
      assert IsChosen(input, chosen, picks, maxUnits, i);
    }
  }

  lemma UnitsOfAppend(chosen: seq<Source>, s: Source)
    ensures TotalUnits(Parts(chosen + [s]))
         == TotalUnits(Parts(chosen)) + EstimateTokenUnits(CitationPrefix(s)) + EstimateTokenUnits(s.content)
  {
    var parts := Parts(chosen + [s]);
    assert parts[..|chosen|] == Parts(chosen);
    UnitsOfConcat(CitationPrefix(s), s.content);
  }

  function KeyOf(s: Source): (int, string) { (s.documentId, s.content) }

  /** The keys of the chosen sources, as the program's set of seen keys holds them. */
  ghost function Keys(input: seq<Source>, picks: seq<Pick>): set<(int, string)> {
    set i | 0 <= i < |picks| && picks[i].position < |input| :: KeyOf(input[picks[i].position])
  }

  lemma SeenIffCovered(input: seq<Source>, picks: seq<Pick>, q: nat)
    requires q < |input| && forall i :: 0 <= i < |picks| ==> picks[i].position < q
    ensures KeyOf(input[q]) in Keys(input, picks) <==> IsCovered(input, picks, q)
  {
    if IsCovered(input, picks, q) {
      var i :| 0 <= i < |picks| && picks[i].position < |input| && SameKey(input[picks[i].position], input[q]);
      assert KeyOf(input[picks[i].position]) == KeyOf(input[q]);
    }
  }

  lemma KeysOfAppend(input: seq<Source>, picks: seq<Pick>, p: Pick)
    requires p.position < |input|
    ensures Keys(input, picks + [p]) == Keys(input, picks) + {KeyOf(input[p.position])}
  {
    var all := picks + [p];
    forall key ensures key in Keys(input, all) <==> key in Keys(input, picks) + {KeyOf(input[p.position])} {
      if key in Keys(input, picks) {
        var i :| 0 <= i < |picks| && picks[i].position < |input| && key == KeyOf(input[picks[i].position]);
        assert all[i] == picks[i];
      }
      assert all[|picks|] == p;
    }
  }

  lemma CoveredAfterAppend(input: seq<Source>, picks: seq<Pick>, p: Pick, q: nat)
    requires q <= p.position < |input|
    requires q < p.position ==> IsCovered(input, picks, q)
    ensures IsCovered(input, picks + [p], q)
  {
    var all := picks + [p];
    if q < p.position {
      var i :| 0 <= i < |picks| && picks[i].position <= q && SameKey(input[picks[i].position], input[q]);
      assert all[i] == picks[i];
    } else {
      assert all[|picks|] == p;
    }
  }

  /** The state of the selection loop; once stopped, no further source is looked at. */
  datatype Progress = Progress(chosen: seq<Source>, picks: seq<Pick>, used: nat, seen: set<(int, string)>,
                               stopped: bool)

  /** The source is taken with its first cut characters, of which content is what RStrip leaves. */
  function Take(g: Progress, source: Source, position: nat, cut: nat, content: string, maxUnits: int): Progress {
    var selected := source.(content := content);
    var used := g.used + EstimateTokenUnits(Part(selected));
    Progress(g.chosen + [selected], g.picks + [Pick(position, cut)], used, g.seen + {KeyOf(source)}, used >= maxUnits)
  }

  function Step(g: Progress, source: Source, position: nat, maxSources: int, maxUnits: int): Progress {
    if g.stopped || KeyOf(source) in g.seen || |g.chosen| == maxSources then g
    else
      var available := maxUnits - g.used - EstimateTokenUnits(CitationPrefix(source));
      var cut := Fit(source.content, available);
      FitIsGreedy(source.content, available);
      var content := RStrip(source.content[..cut]);
      if available <= 0 || content == "" then g.(stopped := true)
      else Take(g, source, position, cut, content, maxUnits)
  }

  lemma StepSkips(g: Progress, source: Source, position: nat, maxSources: int, maxUnits: int)
    requires g.stopped || KeyOf(source) in g.seen || |g.chosen| == maxSources
    ensures Step(g, source, position, maxSources, maxUnits) == g
  {}

  lemma StepStops(g: Progress, source: Source, position: nat, maxSources: int, maxUnits: int, available: int)
    requires !g.stopped && KeyOf(source) !in g.seen && |g.chosen| != maxSources
    requires available == maxUnits - g.used - EstimateTokenUnits(CitationPrefix(source))
    requires available <= 0 || RStrip(source.content[..Fit(source.content, available)]) == ""
    ensures Step(g, source, position, maxSources, maxUnits) == g.(stopped := true)
  {}

  lemma StepSelects(g: Progress, source: Source, position: nat, maxSources: int, maxUnits: int, available: int,
                    content: string)
    requires !g.stopped && KeyOf(source) !in g.seen && |g.chosen| != maxSources
    requires available == maxUnits - g.used - EstimateTokenUnits(CitationPrefix(source)) > 0
    requires content == RStrip(source.content[..Fit(source.content, available)]) != ""
    ensures Step(g, source, position, maxSources, maxUnits)
            == Take(g, source, position, Fit(source.content, available), content, maxUnits)
  {
    hide EstimateTokenUnits, Fit, RStrip;
  }

  /** The loop after its first k rounds. */
  function Run(input: seq<Source>, maxSources: int, maxUnits: int, k: nat): Progress
    requires k <= |input|
  {
    if k == 0 then Progress([], [], 0, {}, false)
    else Step(Run(input, maxSources, maxUnits, k - 1), input[k - 1], k - 1, maxSources, maxUnits)
  }

  lemma {:induction false} RunStopped(input: seq<Source>, maxSources: int, maxUnits: int, k: nat, m: nat)
    requires k <= m <= |input| && Run(input, maxSources, maxUnits, k).stopped
    ensures Run(input, maxSources, maxUnits, m) == Run(input, maxSources, maxUnits, k)
  {
    if k < m {
      RunStopped(input, maxSources, maxUnits, k, m - 1);
    }
  }

  /** The selection the program returns, as a function of its input. */
  function Chosen(input: seq<Source>, maxSources: int, maxTokens: int): Progress {
    Run(input, maxSources, 4 * maxTokens, |input|)
  }

  method BuildBoundedContext(input: seq<Source>, maxSources: int, maxTokens: int) returns (r: Selection)
    ensures r.ValueError? <==> maxSources < 1 || maxTokens < 1
    ensures r.Selection? ==> var g := Chosen(input, maxSources, maxTokens);
                             r == Selection(JoinBlankLine(Parts(g.chosen)), g.chosen)
  {
    hide Step, Parts, JoinBlankLine, EstimateTokenUnits, RStrip, Fit;
    if maxSources < 1 || maxTokens < 1 {
      return ValueError;
    }
    var maxUnits := maxTokens * 4;
    var used: nat := 0;
    var chosen: seq<Source>, parts: seq<string> := [], [];
    var seen: set<(int, string)> := {};
    ghost var picks: seq<Pick> := [];
    ghost var stopped, rounds := false, |input|;
    for k := 0 to |input|
      invariant Run(input, maxSources, maxUnits, k) == Progress(chosen, picks, used, seen, false)
      invariant parts == Parts(chosen) && !stopped && rounds == |input|
    {
      var source := input[k];
      ghost var g := Progress(chosen, picks, used, seen, false);
      if KeyOf(source) in seen || |chosen| == maxSources {
        StepSkips(g, source, k, maxSources, maxUnits);
        continue;
      }
      var prefix := CitationPrefix(source);
      var available := maxUnits - used - EstimateTokenUnits(prefix);
      if available <= 0 {
        StepStops(g, source, k, maxSources, maxUnits, available);
        stopped, rounds := true, k + 1;
        break;
      }
      var content := TruncateToUnits(source.content, available);
      if content == "" {
        StepStops(g, source, k, maxSources, maxUnits, available);
        stopped, rounds := true, k + 1;
        break;
      }
      StepSelects(g, source, k, maxSources, maxUnits, available, content);
      var selected := source.(content := content);
      parts := parts + [prefix + content];
      assert parts == Parts(chosen + [selected]);
      chosen := chosen + [selected];
      seen := seen + {KeyOf(source)};
      used := used + EstimateTokenUnits(prefix + content);
      picks := picks + [Pick(k, Fit(source.content, available))];
      if used >= maxUnits {
        stopped, rounds := true, k + 1;
        break;
      }
    }
    if stopped {
      RunStopped(input, maxSources, maxUnits, rounds, |input|);
    }
    r := Selection(JoinBlankLine(parts), chosen);
  }

  // ----- what the selection guarantees -----

  /** The bookkeeping agrees with the sources chosen so far, all from the first k. */
  ghost predicate Books(input: seq<Source>, maxSources: int, maxUnits: int, g: Progress, k: nat) {
    && |g.chosen| <= maxSources
    && g.used == TotalUnits(Parts(g.chosen)) <= maxUnits
    && g.seen == Keys(input, g.picks)
    && forall i :: 0 <= i < |g.picks| ==> g.picks[i].position < k
  }

  /** The source that Step takes satisfies what is asked of a chosen source. */
  lemma StepTakes(input: seq<Source>, maxSources: int, maxUnits: int, g: Progress, k: nat)
    requires k < |input| && Books(input, maxSources, maxUnits, g, k)
    requires IsSelection(input, g.chosen, g.picks, maxUnits)
    ensures var g' := Step(g, input[k], k, maxSources, maxUnits);
            IsSelection(input, g'.chosen, g'.picks, maxUnits)
  {
    var g' := Step(g, input[k], k, maxSources, maxUnits);
    if g'.chosen != g.chosen {
      var source := input[k];
      var available := maxUnits - g.used - EstimateTokenUnits(CitationPrefix(source));
      SeenIffCovered(input, g.picks, k);
      FitIsGreedy(source.content, available);
      assert g.chosen[..|g.chosen|] == g.chosen;
      AppendChosen(input, g.chosen, g.picks, maxUnits, g'.picks[|g.picks|], g'.chosen[|g.chosen|]);
    }
  }

  lemma StepKeepsBooks(input: seq<Source>, maxSources: int, maxUnits: int, g: Progress, k: nat)
    requires k < |input| && Books(input, maxSources, maxUnits, g, k)
    ensures Books(input, maxSources, maxUnits, Step(g, input[k], k, maxSources, maxUnits), k + 1)
  {
    hide EstimateTokenUnits, Fit, RStrip, Keys, Parts, TotalUnits;
    var g' := Step(g, input[k], k, maxSources, maxUnits);
    if g'.chosen != g.chosen {
      var source := input[k];
      var available := maxUnits - g.used - EstimateTokenUnits(CitationPrefix(source));
      FitIsGreedy(source.content, available);
      UnitsOfAppend(g.chosen, g'.chosen[|g.chosen|]);
      UnitsOfConcat(CitationPrefix(source), g'.chosen[|g.chosen|].content);
      KeysOfAppend(input, g.picks, g'.picks[|g.picks|]);
    }
  }

  lemma {:induction false} RunSelects(input: seq<Source>, maxSources: int, maxUnits: int, k: nat)
    requires k <= |input| && maxSources >= 1 && maxUnits >= 1
    ensures var g := Run(input, maxSources, maxUnits, k);
            && IsSelection(input, g.chosen, g.picks, maxUnits)
            && Books(input, maxSources, maxUnits, g, k)
  {
    hide Step;
    if k > 0 {
      RunSelects(input, maxSources, maxUnits, k - 1);
      StepTakes(input, maxSources, maxUnits, Run(input, maxSources, maxUnits, k - 1), k - 1);
      StepKeepsBooks(input, maxSources, maxUnits, Run(input, maxSources, maxUnits, k - 1), k - 1);
    }
  }

  /** The budget holds: the parts stay within 4 * max_tokens units and the joined context exceeds that by no more
      than its separators; at most max_sources sources are kept, in order, none twice, each cut greedily. */
  lemma ContextIsBounded(input: seq<Source>, maxSources: int, maxTokens: int)
    requires maxSources >= 1 && maxTokens >= 1
    ensures var g := Chosen(input, maxSources, maxTokens);
            && IsSelection(input, g.chosen, g.picks, 4 * maxTokens)
            && |g.chosen| <= maxSources
            && TotalUnits(Parts(g.chosen)) <= 4 * maxTokens
            && EstimateTokenUnits(JoinBlankLine(Parts(g.chosen))) <= 4 * maxTokens + 2 * (maxSources - 1)
            && forall i, j :: 0 <= i < j < |g.picks| ==>
                 && g.picks[i].position < g.picks[j].position < |input|
                 && (input[g.picks[i].position].documentId != input[g.picks[j].position].documentId
                     || input[g.picks[i].position].content != input[g.picks[j].position].content)
  {
    hide Parts, TotalUnits, EstimateTokenUnits, JoinBlankLine;
    RunSelects(input, maxSources, 4 * maxTokens, |input|);
    UnitsOfJoin(Parts(Chosen(input, maxSources, maxTokens).chosen));
  }

  /** No round leaves a source uncovered while places and budget last. */
  ghost predicate CoversFirst(input: seq<Source>, maxSources: int, g: Progress, stop: nat) {
    |g.chosen| < maxSources ==> forall q :: 0 <= q < stop && q < |input| ==> IsCovered(input, g.picks, q)
  }

  lemma TakingCovers(input: seq<Source>, maxSources: int, maxUnits: int, g: Progress, k: nat)
    requires k < |input| && CoversFirst(input, maxSources, g, k)
    requires |Step(g, input[k], k, maxSources, maxUnits).chosen| > |g.chosen|
    ensures CoversFirst(input, maxSources, Step(g, input[k], k, maxSources, maxUnits), k + 1)
  {
    var g' := Step(g, input[k], k, maxSources, maxUnits);
    if |g'.chosen| < maxSources {
      forall q | 0 <= q < k + 1 ensures IsCovered(input, g'.picks, q) {
        CoveredAfterAppend(input, g.picks, g'.picks[|g.picks|], q);
      }
    }
  }

  lemma StoppingIsForced(input: seq<Source>, maxSources: int, maxUnits: int, g: Progress, k: nat)
    requires k < |input| && g.used == TotalUnits(Parts(g.chosen)) && !g.stopped
    requires Step(g, input[k], k, maxSources, maxUnits).stopped
    requires Step(g, input[k], k, maxSources, maxUnits).chosen == g.chosen
    ensures OutOfBudget(g.chosen, input[k], maxUnits)
  {
    var source := input[k];
    var available := maxUnits - g.used - EstimateTokenUnits(CitationPrefix(source));
    FitIsGreedy(source.content, available);
    assert g.chosen[..|g.chosen|] == g.chosen;
    assert available == Available(g.chosen, |g.chosen|, source, maxUnits);
  }

  lemma StepCases(g: Progress, source: Source, position: nat, maxSources: int, maxUnits: int)
    ensures var g' := Step(g, source, position, maxSources, maxUnits);
            && (g.stopped ==> g' == g)
            && (|g'.chosen| > |g.chosen| || (g'.chosen == g.chosen && g'.picks == g.picks))
            && (|g'.chosen| > |g.chosen| && g'.stopped ==> g'.used >= maxUnits)
            && (g'.chosen == g.chosen && !g'.stopped ==> KeyOf(source) in g.seen || |g.chosen| == maxSources)
  {}

  lemma StepIsExhaustive(input: seq<Source>, maxSources: int, maxUnits: int, g: Progress, k: nat) returns (stop: nat)
    requires k < |input| && Books(input, maxSources, maxUnits, g, k) && !g.stopped
    requires CoversFirst(input, maxSources, g, k)
    ensures var g' := Step(g, input[k], k, maxSources, maxUnits);
            && stop <= k + 1
            && CoversFirst(input, maxSources, g', stop)
            && (g'.stopped ==> stop == |input| || OutOfBudget(g'.chosen, input[stop], maxUnits))
            && (!g'.stopped ==> stop == k + 1)
  {
    var g' := Step(g, input[k], k, maxSources, maxUnits);
    StepCases(g, input[k], k, maxSources, maxUnits);
    StepKeepsBooks(input, maxSources, maxUnits, g, k);
    SeenIffCovered(input, g.picks, k);
    hide Step;
    if |g'.chosen| > |g.chosen| {
      stop := k + 1;
      TakingCovers(input, maxSources, maxUnits, g, k);
    } else if g'.stopped {
      stop := k;
      StoppingIsForced(input, maxSources, maxUnits, g, k);
    } else {
      stop := k + 1;
    }
  }

  /** No source is passed over without a reason: if places are left, either every source is covered, or the first
      one that is not covered finds the budget spent. */
  lemma {:induction false} RunIsExhaustive(input: seq<Source>, maxSources: int, maxUnits: int, k: nat)
      returns (stop: nat)
    requires k <= |input| && maxSources >= 1 && maxUnits >= 1
    ensures var g := Run(input, maxSources, maxUnits, k);
            && stop <= k
            && CoversFirst(input, maxSources, g, stop)
            && (g.stopped ==> stop == |input| || OutOfBudget(g.chosen, input[stop], maxUnits))
            && (!g.stopped ==> stop == k)
  {
    hide Step;
    if k == 0 {
      return 0;
    }
    stop := RunIsExhaustive(input, maxSources, maxUnits, k - 1);
    var g := Run(input, maxSources, maxUnits, k - 1);
    RunSelects(input, maxSources, maxUnits, k - 1);
    if g.stopped {
      StepCases(g, input[k - 1], k - 1, maxSources, maxUnits);
    } else {
      stop := StepIsExhaustive(input, maxSources, maxUnits, g, k - 1);
    }
  }

  /** If the program stops with places left, every source is covered up to one for which the budget is spent. */
  lemma ContextIsExhaustive(input: seq<Source>, maxSources: int, maxTokens: int) returns (stop: nat)
    requires maxSources >= 1 && maxTokens >= 1
    ensures var g := Chosen(input, maxSources, maxTokens);
            && stop <= |input|
            && (|g.chosen| < maxSources ==> forall q :: 0 <= q < stop ==> IsCovered(input, g.picks, q))
            && (stop < |input| ==> OutOfBudget(g.chosen, input[stop], 4 * maxTokens))
  {
    hide Step;
    stop := RunIsExhaustive(input, maxSources, 4 * maxTokens, |input|);
  }

  // ----- what the context looks like -----

  lemma {:induction false} JoinSplitsAt(parts: seq<string>, i: nat) returns (before: string, after: string)
    requires i < |parts|
    ensures JoinBlankLine(parts) == before + parts[i] + after
    ensures before == if i == 0 then "" else JoinBlankLine(parts[..i]) + "\n\n"
    ensures if i == |parts| - 1 then after == "" else "\n\n" <= after
  {
    var n := |parts| - 1;
    if i == n {
      before, after := (if n == 0 then "" else JoinBlankLine(parts[..n]) + "\n\n"), "";
      assert JoinBlankLine(parts) == before + parts[n];
    } else {
      var rest;
      before, rest := JoinSplitsAt(parts[..n], i);
      assert parts[..n][..i] == parts[..i];
      after := rest + ("\n\n" + parts[n]);
      assert JoinBlankLine(parts) == JoinBlankLine(parts[..n]) + ("\n\n" + parts[n]);
      assert JoinBlankLine(parts) == before + parts[i] + rest + ("\n\n" + parts[n]);
      assert after != "" && after[..2] == "\n\n";
    }
  }

  /** Every chosen source stands in the context with its citation, a space and its content, after the sources chosen
      before it and set apart from its neighbours by an empty line. */
  lemma SourceStandsInContext(chosen: seq<Source>, i: nat) returns (before: string, after: string)
    requires i < |chosen|
    ensures JoinBlankLine(Parts(chosen))
         == before + (chosen[i].citation + " " + chosen[i].content) + after
    ensures before == if i == 0 then "" else JoinBlankLine(Parts(chosen[..i])) + "\n\n"
    ensures if i == |chosen| - 1 then after == "" else "\n\n" <= after
  {
    hide JoinBlankLine;
    before, after := JoinSplitsAt(Parts(chosen), i);
    assert Parts(chosen)[..i] == Parts(chosen[..i]);
  }

  // ----- when nothing is lost -----

  /** Different sources with contents that begin and end visibly. */
  ghost predicate AreDistinctSources(input: seq<Source>) {
    && (forall i, j :: 0 <= i < j < |input| ==>
          input[i].documentId != input[j].documentId || input[i].content != input[j].content)
    && forall i :: 0 <= i < |input| ==> input[i].content != "" && IsStripped(input[i].content)
  }

  lemma WholeTextFits(text: string, available: int)
    requires EstimateTokenUnits(text) <= available && text != "" && IsStripped(text)
    ensures Fit(text, available) == |text| && RStrip(text[..Fit(text, available)]) == text
  {
    FitIsGreedy(text, available);
    var cut := Fit(text, available);
    assert text[..|text|] == text;
    if cut < |text| {
      UnitsOfPrefix(text[..cut + 1], text);
    }
  }

  /** A prefix costs less than the whole. */
  lemma {:induction false} UnitsOfFirst(input: seq<Source>, k: nat)
    requires k <= |input| && forall i :: 0 <= i < |input| ==> input[i].content != ""
    ensures TotalUnits(Parts(input[..k])) <= TotalUnits(Parts(input))
    ensures k < |input| ==> TotalUnits(Parts(input[..k])) < TotalUnits(Parts(input))
  {
    hide TotalUnits, Parts, EstimateTokenUnits;
    if k < |input| {
      var front, last := input[..|input| - 1], input[|input| - 1];
      assert front + [last] == input && front[..k] == input[..k];
      UnitsOfFirst(front, k);
      UnitsOfAppend(front, last);
      UnitsCountCharacters(last.content);
    } else {
      assert input[..k] == input;
    }
  }

  lemma StepKeepsWhole(g: Progress, source: Source, position: nat, maxSources: int, maxUnits: int)
    requires !g.stopped && KeyOf(source) !in g.seen && |g.chosen| != maxSources
    requires source.content != "" && IsStripped(source.content)
    requires g.used + EstimateTokenUnits(CitationPrefix(source)) + EstimateTokenUnits(source.content) <= maxUnits
    ensures Step(g, source, position, maxSources, maxUnits)
         == Take(g, source, position, |source.content|, source.content, maxUnits)
  {
    hide Step, Fit, RStrip, EstimateTokenUnits, IsStripped, CitationPrefix;
    var available := maxUnits - g.used - EstimateTokenUnits(CitationPrefix(source));
    WholeTextFits(source.content, available);
    UnitsCountCharacters(source.content);
    StepSelects(g, source, position, maxSources, maxUnits, available, source.content);
  }

  ghost predicate KeepsFirst(input: seq<Source>, g: Progress, k: nat)
    requires k <= |input|
  {
    && g.chosen == input[..k] && g.used == TotalUnits(Parts(input[..k])) && (g.stopped ==> k == |input|)
    && forall key :: key in g.seen ==> exists i :: 0 <= i < k && key == (input[i].documentId, input[i].content)
  }

  lemma {:induction false} RunKeepsAll(input: seq<Source>, maxSources: int, maxUnits: int, k: nat)
    requires AreDistinctSources(input) && k <= |input| <= maxSources && maxSources >= 1
    requires TotalUnits(Parts(input)) <= maxUnits
    ensures KeepsFirst(input, Run(input, maxSources, maxUnits, k), k)
  {
    hide Step, EstimateTokenUnits, TotalUnits, Parts, CitationPrefix, Part, IsStripped;
    if k == 0 {
      NoUnits();
    } else {
      var source := input[k - 1];
      RunKeepsAll(input, maxSources, maxUnits, k - 1);
      var g := Run(input, maxSources, maxUnits, k - 1);
      assert input[..k] == input[..k - 1] + [source];
      UnitsOfAppend(input[..k - 1], source);
      UnitsOfFirst(input, k);
      UnitsOfPart(source);
      StepKeepsWhole(g, source, k - 1, maxSources, maxUnits);
    }
  }

  lemma UnitsOfPart(source: Source)
    ensures EstimateTokenUnits(Part(source))
         == EstimateTokenUnits(CitationPrefix(source)) + EstimateTokenUnits(source.content)
  {
    UnitsOfConcat(CitationPrefix(source), source.content);
  }

  lemma NoUnits()
    ensures TotalUnits(Parts([])) == 0
  {}

  /** Sources that differ in document or content, with places for all of them, are kept uncut exactly if they fit into
      the budget with their citations. */
  lemma AllKeptIffAffordable(input: seq<Source>, maxSources: int, maxTokens: int)
    requires AreDistinctSources(input) && |input| <= maxSources && maxSources >= 1 && maxTokens >= 1
    ensures Chosen(input, maxSources, maxTokens).chosen == input <==> TotalUnits(Parts(input)) <= 4 * maxTokens
  {
    hide TotalUnits, Parts, Step;
    RunSelects(input, maxSources, 4 * maxTokens, |input|);
    if TotalUnits(Parts(input)) <= 4 * maxTokens {
      RunKeepsAll(input, maxSources, 4 * maxTokens, |input|);
      assert input[..|input|] == input;
    }
  }
}
