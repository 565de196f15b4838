/** How chunks follow one another: in the order of the paragraphs, packed greedily, and overlapping as configured. */
module ChunkOrder {
  import opened Text
  import opened Cleaning
  import opened Chunking

  predicate StartsWith(whole: string, part: string) {
    part <= whole
  }

  predicate EndsWithText(whole: string, part: string) {
    |part| <= |whole| && whole[|whole| - |part|..] == part
  }

  // ----- windows -----

  /** Window k begins k steps after the first one, and has size characters unless the paragraph ends before. */
  lemma {:induction false} WindowAt(paragraph: string, i: nat, size: nat, step: nat, k: nat)
    requires step >= 1
    ensures k < |Windows(paragraph, i, size, step)| <==> i + k * step < |paragraph|
    ensures i + k * step < |paragraph| ==>
              Windows(paragraph, i, size, step)[k]
              == paragraph[i + k * step..if i + k * step + size < |paragraph| then i + k * step + size else |paragraph|]
    decreases k
  {
    if i < |paragraph| {
      if k > 0 {
        WindowAt(paragraph, i + step, size, step, k - 1);
        assert i + step + (k - 1) * step == i + k * step;
      }
    } else {
      assert k * step >= 0;
    }
  }

  /** If the overlap is smaller than the size, a window goes on with the last overlap characters of a full one before
      it. */
  lemma ConsecutiveWindowsOverlap(paragraph: string, size: nat, overlap: nat, k: nat)
    requires overlap < size
    ensures var windows := Windows(paragraph, 0, size, WindowStep(size, overlap));
            k + 1 < |windows| ==>
              && WindowStep(size, overlap) == size - overlap
              && |windows[k]| >= size - overlap && StartsWith(windows[k + 1], windows[k][size - overlap..])
              && (|windows[k]| == size ==> |windows[k][size - overlap..]| == overlap)
  {
    hide Windows;
    var step := WindowStep(size, overlap);
    WindowAt(paragraph, 0, size, step, k);
    WindowAt(paragraph, 0, size, step, k + 1);
    var a := k * step;
    assert (k + 1) * step == a + step;
    if a + step < |paragraph| {
      SlicesOverlap(paragraph, a, size, step);
    }
  }

  lemma SlicesOverlap(s: string, a: nat, size: nat, step: nat)
    requires step <= size && a + step < |s|
    ensures var first := s[a..if a + size < |s| then a + size else |s|];
            var second := s[a + step..if a + step + size < |s| then a + step + size else |s|];
            && |first| >= step && StartsWith(second, first[step..])
            && (|first| == size ==> |first[step..]| == size - step)
  {}

  // ----- what one more paragraph does -----

  /** What the next chunk takes over from the one before. */
  function Carried(chunk: string, overlap: nat): string {
    if overlap == 0 then ""
    else LStrip(if overlap <= |chunk| then chunk[|chunk| - overlap..] else chunk) + "\n\n"
  }

  lemma StripJoins(first: string, paragraph: string)
    requires paragraph != "" && IsStripped(paragraph) && first != "" && !IsSpace(first[|first| - 1])
    ensures Strip(BlankLine(first, paragraph)) == LStrip(first) + "\n\n" + paragraph
  {
    hide LStrip, Strip;
    var rest := "\n\n" + paragraph;
    Regroup(first, "\n\n", paragraph);
    Regroup(LStrip(first), "\n\n", paragraph);
    assert rest[|rest| - 1] == paragraph[|paragraph| - 1];
    StripOfParts(first, rest);
  }

  lemma Regroup(a: string, b: string, c: string)
    ensures a + b + c == a + (b + c)
  {}

  lemma StripOfParts(first: string, rest: string)
    requires first != "" && !IsSpace(first[|first| - 1]) && rest != "" && !IsSpace(rest[|rest| - 1])
    ensures Strip(first + rest) == LStrip(first) + rest
  {
    hide LStrip, RStrip;
    LStripOfConcat(first, rest);
    var joined := LStrip(first) + rest;
    assert joined[|joined| - 1] == rest[|rest| - 1];
    RStripOfVisible(joined);
  }

  lemma RStripOfVisible(s: string)
    requires s != "" && !IsSpace(s[|s| - 1])
    ensures RStrip(s) == s
  {}

  lemma {:induction false} LStripOfConcat(a: string, b: string)
    requires a != "" && !IsSpace(a[|a| - 1])
    ensures LStrip(a + b) == LStrip(a) + b
  {
    if IsSpace(a[0]) {
      assert (a + b)[1..] == a[1..] + b;
      LStripOfConcat(a[1..], b);
    }
  }

  lemma LStripOfStripped(s: string)
    requires IsStripped(s)
    ensures LStrip(s) == s
  {}

  /** The chunk being filled takes a short paragraph exactly if it fits; otherwise the next one begins with the end of
      this one and the paragraph. */
  lemma ParagraphFitsOrOverflows(f: Filling, paragraph: string, size: nat, overlap: nat)
    requires IsStripped(f.current) && paragraph != "" && IsStripped(paragraph) && |paragraph| <= size
    ensures var g := AddParagraph(f, paragraph, size, overlap);
            if f.current == "" then g == f.(current := paragraph)
            else if |f.current| + 2 + |paragraph| <= size then g == f.(current := f.current + "\n\n" + paragraph)
            else g == Filling(f.chunks + [f.current], Carried(f.current, overlap) + paragraph)
  {
    hide Strip, BlankLine, Tail, AddParagraph, LStrip, Carried;
    ShortParagraph(f, paragraph, size, overlap);
    if f.current == "" {
      JoinWithNothing(paragraph);
    } else {
      CandidateIs(f.current, paragraph);
      if overlap > 0 {
        CarriedIs(f.current, paragraph, overlap);
      } else {
        NothingCarried(f.current, paragraph);
      }
    }
  }

  lemma CandidateIs(chunk: string, paragraph: string)
    requires chunk != "" && IsStripped(chunk) && paragraph != "" && IsStripped(paragraph)
    ensures Strip(BlankLine(chunk, paragraph)) == chunk + "\n\n" + paragraph
    ensures |chunk + "\n\n" + paragraph| == |chunk| + 2 + |paragraph|
  {
    hide Strip, BlankLine;
    StripJoins(chunk, paragraph);
    LStripOfStripped(chunk);
  }

  lemma NothingCarried(chunk: string, paragraph: string)
    ensures Carried(chunk, 0) + paragraph == paragraph
  {}

  lemma CarriedIs(chunk: string, paragraph: string, overlap: nat)
    requires chunk != "" && IsStripped(chunk) && paragraph != "" && IsStripped(paragraph) && overlap > 0
    ensures Strip(BlankLine(Tail(chunk, overlap), paragraph)) == Carried(chunk, overlap) + paragraph
  {
    hide Strip, BlankLine, LStrip;
    TailEnds(chunk, overlap);
    StripJoins(Tail(chunk, overlap), paragraph);
  }

  lemma TailEnds(s: string, overlap: nat)
    requires s != "" && overlap > 0
    ensures Tail(s, overlap) == (if overlap <= |s| then s[|s| - overlap..] else s)
    ensures Tail(s, overlap) != "" && Tail(s, overlap)[|Tail(s, overlap)| - 1] == s[|s| - 1]
  {}

  lemma JoinWithNothing(paragraph: string)
    requires paragraph != "" && IsStripped(paragraph)
    ensures Strip(BlankLine("", paragraph)) == paragraph
  {
    assert BlankLine("", paragraph) == "\n\n" + paragraph;
    assert ("\n\n" + paragraph)[1..][1..] == paragraph;
    LStripOfStripped(paragraph);
    assert LStrip("\n\n" + paragraph) == LStrip(paragraph);
  }

  // ----- from the first paragraphs to the result -----

  function AllOf(f: Filling): seq<string> {
    f.chunks + (if f.current != "" then [f.current] else [])
  }

  /** The finished chunks stay, and the one being filled only grows. */
  ghost predicate IsBefore(f: Filling, chunks: seq<string>) {
    && f.chunks <= chunks
    && (f.current != "" ==> |f.chunks| < |chunks| && StartsWith(chunks[|f.chunks|], f.current))
  }

  lemma BeforeItself(f: Filling)
    ensures IsBefore(f, AllOf(f))
  {}

  lemma BeforeTwice(f: Filling, g: Filling, chunks: seq<string>)
    requires IsBefore(f, AllOf(g)) && IsBefore(g, chunks) && f.chunks <= g.chunks
    ensures IsBefore(f, chunks)
  {
    if f.current != "" {
      if |f.chunks| < |g.chunks| {
        assert AllOf(g)[|f.chunks|] == g.chunks[|f.chunks|] == chunks[|f.chunks|];
      } else {
        assert AllOf(g)[|f.chunks|] == g.current;
      }
    }
  }

  lemma BeforeNext(f: Filling, paragraph: string, size: nat, overlap: nat)
    requires IsStripped(f.current) && paragraph != "" && IsStripped(paragraph)
    ensures IsBefore(f, AllOf(AddParagraph(f, paragraph, size, overlap)))
    ensures f.chunks <= AddParagraph(f, paragraph, size, overlap).chunks
  {
    hide IsStripped, AddParagraph, Windows, Carried;
    var g := AddParagraph(f, paragraph, size, overlap);
    if |paragraph| <= size {
      ParagraphFitsOrOverflows(f, paragraph, size, overlap);
    } else {
      LongParagraph(f, paragraph, size, overlap);
    }
    if f.current != "" && f.chunks < g.chunks {
      assert AllOf(g)[|f.chunks|] == g.chunks[|f.chunks|];
    }
  }

  lemma {:induction false} BeforeResult(paragraphs: seq<string>, size: nat, overlap: nat, k: nat, n: nat)
    requires AreParagraphs(paragraphs) && k <= n <= |paragraphs|
    ensures IsBefore(AddParagraphs(paragraphs[..k], size, overlap),
                     AllOf(AddParagraphs(paragraphs[..n], size, overlap)))
    decreases n - k
  {
    hide AddParagraph, IsBefore, AllOf, IsStripped;
    var f := AddParagraphs(paragraphs[..k], size, overlap);
    if k == n {
      BeforeItself(f);
    } else {
      AddOneMore(paragraphs, size, overlap, k);
      ShortParagraphsKept(paragraphs[..k], size, overlap, 0);
      BeforeNext(f, paragraphs[k], size, overlap);
      BeforeResult(paragraphs, size, overlap, k + 1, n);
      BeforeTwice(f, AddParagraphs(paragraphs[..k + 1], size, overlap),
                  AllOf(AddParagraphs(paragraphs[..n], size, overlap)));
    }
  }

  lemma AddOneMore(paragraphs: seq<string>, size: nat, overlap: nat, k: nat)
    requires k < |paragraphs|
    ensures AddParagraphs(paragraphs[..k + 1], size, overlap)
         == AddParagraph(AddParagraphs(paragraphs[..k], size, overlap), paragraphs[k], size, overlap)
  {
    hide AddParagraph;
    assert paragraphs[..k + 1][..k] == paragraphs[..k];
  }

  /** The chunk being filled ends with the paragraph just added, and is empty after a long one. */
  lemma OpenChunkEnds(paragraphs: seq<string>, size: nat, overlap: nat, k: nat)
    requires AreParagraphs(paragraphs) && k < |paragraphs|
    ensures var f := AddParagraphs(paragraphs[..k + 1], size, overlap);
            && IsStripped(f.current)
            && (if |paragraphs[k]| <= size then f.current != "" && EndsWithText(f.current, paragraphs[k])
                else f.current == "")
  {
    hide AddParagraph, IsStripped, Carried;
    AddOneMore(paragraphs, size, overlap, k);
    ShortParagraphsKept(paragraphs[..k], size, overlap, 0);
    ShortParagraphsKept(paragraphs[..k + 1], size, overlap, 0);
    var f := AddParagraphs(paragraphs[..k], size, overlap);
    if |paragraphs[k]| <= size {
      ParagraphFitsOrOverflows(f, paragraphs[k], size, overlap);
    } else {
      LongParagraph(f, paragraphs[k], size, overlap);
    }
  }

  // ----- the filter -----

  lemma {:induction false} KeepOfConcat(a: seq<string>, b: seq<string>)
    ensures KeepNonBlank(a + b) == KeepNonBlank(a) + KeepNonBlank(b)
    decreases |b|
  {
    hide Strip;
    if b == [] {
      assert a + b == a;
    } else {
      assert (a + b)[..|a + b| - 1] == a + b[..|b| - 1];
      KeepOfConcat(a, b[..|b| - 1]);
    }
  }

  lemma KeepOfOne(c: string)
    requires !IsBlank(c)
    ensures KeepNonBlank([c]) == [c]
  {
    StripIsStripped(c);
    assert [c][..0] == [];
  }

  /** Neighbours that are not blank stay neighbours. */
  lemma KeptAt(chunks: seq<string>, r: nat) returns (i: nat)
    requires r < |chunks| && !IsBlank(chunks[r])
    ensures i < |KeepNonBlank(chunks)| && KeepNonBlank(chunks)[i] == chunks[r]
    ensures r + 1 < |chunks| && !IsBlank(chunks[r + 1]) ==>
              i + 1 < |KeepNonBlank(chunks)| && KeepNonBlank(chunks)[i + 1] == chunks[r + 1]
  {
    hide KeepNonBlank, IsBlank;
    i := |KeepNonBlank(chunks[..r])|;
    KeepAround(chunks, r);
    if r + 1 < |chunks| && !IsBlank(chunks[r + 1]) {
      KeepAround(chunks, r + 1);
      assert chunks[..r + 1] == chunks[..r] + [chunks[r]];
      KeepOfConcat(chunks[..r], [chunks[r]]);
      KeepOfOne(chunks[r]);
    }
  }

  lemma KeepAround(chunks: seq<string>, r: nat)
    requires r < |chunks| && !IsBlank(chunks[r])
    ensures KeepNonBlank(chunks) == KeepNonBlank(chunks[..r]) + [chunks[r]] + KeepNonBlank(chunks[r + 1..])
  {
    hide KeepNonBlank, IsBlank;
    assert chunks == chunks[..r] + [chunks[r]] + chunks[r + 1..];
    KeepOfConcat(chunks[..r] + [chunks[r]], chunks[r + 1..]);
    KeepOfConcat(chunks[..r], [chunks[r]]);
    KeepOfOne(chunks[r]);
  }

  lemma PrefixNotBlank(whole: string, part: string)
    requires StartsWith(whole, part) && part != "" && IsStripped(part)
    ensures !IsBlank(whole)
  {
    assert whole[0] == part[0];
  }

  // ----- the result -----

  ghost predicate AreTogether(chunks: seq<string>, i: int, p: string, q: string) {
    0 <= i < |chunks| && Contains(chunks[i], p + "\n\n" + q)
  }

  /** Chunk i ends with p and has no room for q; the next one begins with the end of chunk i and q. */
  ghost predicate IsOverflow(chunks: seq<string>, i: int, p: string, q: string, size: nat, overlap: nat) {
    && 0 <= i < |chunks| - 1 && EndsWithText(chunks[i], p) && |chunks[i]| + 2 + |q| > size
    && StartsWith(chunks[i + 1], Carried(chunks[i], overlap) + q)
  }

  ghost predicate GoOn(chunks: seq<string>, i: int, p: string, q: string, size: nat, overlap: nat) {
    AreTogether(chunks, i, p, q) || IsOverflow(chunks, i, p, q, size, overlap)
  }

  ghost predicate IsBegun(chunks: seq<string>, i: int, q: string) {
    0 <= i < |chunks| && StartsWith(chunks[i], q)
  }

  ghost predicate AreInRow(chunks: seq<string>, windows: seq<string>) {
    exists before: seq<string>, after: seq<string> :: chunks == before + windows + after
  }

  /** How the k-th paragraph goes on after the one before it. */
  ghost predicate GoesOnWith(chunks: seq<string>, paragraphs: seq<string>, k: nat, size: nat, overlap: nat)
    requires k < |paragraphs|
  {
    var q := paragraphs[k];
    if |q| > size then AreInRow(chunks, KeepNonBlank(Windows(q, 0, size, WindowStep(size, overlap))))
    else if k == 0 || |paragraphs[k - 1]| > size then exists i :: IsBegun(chunks, i, q)
    else
      var p := paragraphs[k - 1];
      exists i :: GoOn(chunks, i, p, q, size, overlap)
  }

  lemma ParagraphsGoOn(paragraphs: seq<string>, size: nat, overlap: nat, k: nat)
    requires AreParagraphs(paragraphs) && k < |paragraphs|
    ensures GoesOnWith(KeepNonBlank(RawChunks(paragraphs, size, overlap)), paragraphs, k, size, overlap)
  {
    hide AddParagraph, AddParagraphs, KeepNonBlank, Windows, IsStripped, Carried, IsBlank, IsBefore;
    var raw := RawChunks(paragraphs, size, overlap);
    var f := AddParagraphs(paragraphs[..k], size, overlap);
    var g := AddParagraphs(paragraphs[..k + 1], size, overlap);
    assert paragraphs[..|paragraphs|] == paragraphs;
    BeforeResult(paragraphs, size, overlap, k + 1, |paragraphs|);
    RawIsAll(paragraphs, size, overlap);
    ShortParagraphsKept(paragraphs[..k], size, overlap, 0);
    AddOneMore(paragraphs, size, overlap, k);
    NothingYet(paragraphs, size, overlap);
    if k > 0 {
      OpenChunkEnds(paragraphs, size, overlap, k - 1);
    }
    if |paragraphs[k]| > size {
      LongParagraph(f, paragraphs[k], size, overlap);
      WindowsInRow(f, g, raw, Windows(paragraphs[k], 0, size, WindowStep(size, overlap)));
    } else {
      ParagraphFitsOrOverflows(f, paragraphs[k], size, overlap);
      ShortGoesOn(f, g, raw, if k == 0 then "" else paragraphs[k - 1], paragraphs[k], size, overlap);
    }
  }

  lemma RawIsAll(paragraphs: seq<string>, size: nat, overlap: nat)
    ensures RawChunks(paragraphs, size, overlap) == AllOf(AddParagraphs(paragraphs, size, overlap))
  {}

  lemma NothingYet(paragraphs: seq<string>, size: nat, overlap: nat)
    ensures AddParagraphs(paragraphs[..0], size, overlap) == Filling([], "")
  {}

  lemma WindowsInRow(f: Filling, g: Filling, raw: seq<string>, windows: seq<string>)
    requires IsBefore(g, raw) && g.chunks == AllOf(f) + windows
    ensures AreInRow(KeepNonBlank(raw), KeepNonBlank(windows))
  {
    hide KeepNonBlank;
    var rest := raw[|g.chunks|..];
    assert raw == AllOf(f) + windows + rest;
    KeepOfConcat(AllOf(f) + windows, rest);
    KeepOfConcat(AllOf(f), windows);
  }

  lemma ShortGoesOn(f: Filling, g: Filling, raw: seq<string>, p: string, q: string, size: nat, overlap: nat)
    requires IsStripped(f.current) && q != "" && IsStripped(q) && IsBefore(g, raw)
    requires f.current != "" ==> EndsWithText(f.current, p)
    requires if f.current == "" then g == f.(current := q)
             else if |f.current| + 2 + |q| <= size then g == f.(current := f.current + "\n\n" + q)
             else g == Filling(f.chunks + [f.current], Carried(f.current, overlap) + q)
    ensures var chunks := KeepNonBlank(raw);
            if f.current == "" then exists i :: IsBegun(chunks, i, q)
            else exists i :: GoOn(chunks, i, p, q, size, overlap)
  {
    hide KeepNonBlank, Carried, IsBlank;
    var r := |f.chunks|;
    if f.current == "" {
      PrefixNotBlank(raw[r], q);
      var i := KeptAt(raw, r);
      assert IsBegun(KeepNonBlank(raw), i, q);
    } else if |f.current| + 2 + |q| <= size {
      assert StartsWith(raw[r], f.current);
      PrefixNotBlank(raw[r], f.current);
      var i := KeptAt(raw, r);
      EndContains(raw[r], f.current, p, q);
      assert GoOn(KeepNonBlank(raw), i, p, q, size, overlap);
    } else {
      assert g.chunks[r] == raw[r] == f.current;
      PrefixNotBlank(raw[r], f.current);
      SuffixNotBlank(raw[r + 1], Carried(f.current, overlap), q);
      var i := KeptAt(raw, r);
      assert GoOn(KeepNonBlank(raw), i, p, q, size, overlap);
    }
  }

  lemma EndContains(whole: string, current: string, p: string, q: string)
    requires EndsWithText(current, p) && StartsWith(whole, current + "\n\n" + q)
    ensures Contains(whole, p + "\n\n" + q)
  {
    var before := current[..|current| - |p|];
    var rest := whole[|current + "\n\n" + q|..];
    assert current == before + p;
    assert whole == before + (p + "\n\n" + q) + rest;
  }

  lemma SuffixNotBlank(whole: string, before: string, q: string)
    requires StartsWith(whole, before + q) && q != "" && IsStripped(q)
    ensures !IsBlank(whole)
  {
    assert whole[|before|] == q[0];
  }

  /** Chunks follow the paragraphs. A short paragraph after a short one stands in the same chunk if it fits; otherwise
      the next chunk begins with the last overlap characters of this one, and the paragraph. After a long paragraph a
      new chunk begins; the windows of a long one follow one another. */
  lemma ChunksFollowParagraphs(text: string, size: nat, overlap: nat, k: nat)
    ensures var paragraphs := Paragraphs(CleanText(text));
            k < |paragraphs| ==> GoesOnWith(Chunks(text, size, overlap), paragraphs, k, size, overlap)
  {
    hide CleanText, Paragraphs, RawChunks, KeepNonBlank, GoesOnWith, IsStripped;
    var paragraphs := Paragraphs(CleanText(text));
    ParagraphsKeepVisible(CleanText(text));
    NoParagraphsInNothing();
    if k < |paragraphs| {
      ParagraphsGoOn(paragraphs, size, overlap, k);
    }
  }

  // ----- the children of sections -----

  /** The children of a parent are the chunks of its text, and cleaning the text again changes nothing. */
  lemma {:induction false} ChildrenAreChunks(sections: seq<Section>, size: nat, overlap: nat, p: ParentChildren)
    ensures p in ParentsOf(sections, size, overlap) ==>
              p.children == Chunks(p.parentContent, size, overlap) && CleanText(p.parentContent) == p.parentContent
  {
    hide CleanText, Chunks, JoinLines;
    if sections != [] {
      ChildrenAreChunks(sections[..|sections| - 1], size, overlap, p);
      CleanTextIsIdempotent(JoinLines(sections[|sections| - 1].lines));
    }
  }

  /** The children of a parent lose nothing of its text: every paragraph is covered, in order and overlapping, and no
      child is too long or blank. */
  ghost predicate IsWellChunked(p: ParentChildren, size: nat, overlap: nat) {
    var paragraphs := Paragraphs(p.parentContent);
    && (forall k :: 0 <= k < |paragraphs| ==>
          && Covers(p.children, paragraphs[k], size, overlap)
          && GoesOnWith(p.children, paragraphs, k, size, overlap))
    && forall c :: c in p.children ==> |c| <= size + overlap + 2 && !IsBlank(c)
  }

  lemma ChildrenCoverParents(sections: seq<Section>, size: nat, overlap: nat, p: ParentChildren)
    requires size >= 1
    ensures p in ParentsOf(sections, size, overlap) ==> IsWellChunked(p, size, overlap)
  {
    hide CleanText, Chunks, Paragraphs, ParentsOf, GoesOnWith, Covers, IsBlank;
    if p in ParentsOf(sections, size, overlap) {
      ChildrenAreChunks(sections, size, overlap, p);
      ChunksAreBounded(p.parentContent, size, overlap);
      forall k | 0 <= k < |Paragraphs(p.parentContent)|
        ensures Covers(p.children, Paragraphs(p.parentContent)[k], size, overlap)
        ensures GoesOnWith(p.children, Paragraphs(p.parentContent), k, size, overlap)
      {
        ChunksCoverText(p.parentContent, size, overlap, k);
        ChunksFollowParagraphs(p.parentContent, size, overlap, k);
      }
    }
  }

  lemma {:induction false} EverySectionHasParent(sections: seq<Section>, size: nat, overlap: nat, i: nat)
      returns (p: ParentChildren)
    requires i < |sections| && CleanText(JoinLines(sections[i].lines)) != ""
    ensures p in ParentsOf(sections, size, overlap) && IsParentOf(p, sections, i)
  {
    hide CleanText, Chunks, JoinLines;
    var n := |sections| - 1;
    if i < n {
      p := EverySectionHasParent(sections[..n], size, overlap, i);
      assert IsParentOf(p, sections, i);
    } else {
      var text := CleanText(JoinLines(sections[n].lines));
      p := ParentChildren(sections[n].headingPath, text, Chunks(text, size, overlap));
    }
  }

  /** Of the document: every section with text has its parent, whose children cover every paragraph of the section. */
  lemma DocumentIsChunked(text: string, size: nat, overlap: nat, classify: Classifier, i: nat)
    requires size >= 1
    ensures var sections := Sections(SplitLines(CleanText(text)), classify);
            i < |sections| && Visible(JoinLines(sections[i].lines)) != "" ==>
              exists p :: p in ParentChildChunks(text, size, overlap, classify) && IsParentOf(p, sections, i)
                          && IsWellChunked(p, size, overlap)
  {
    hide CleanText, SplitLines, JoinLines, ParentsOf, IsWellChunked, Visible, Sections;
    var sections := Sections(SplitLines(CleanText(text)), classify);
    if i < |sections| && Visible(JoinLines(sections[i].lines)) != "" {
      NoSections(classify);
      CleanTextKeepsVisible(JoinLines(sections[i].lines));
      var p := EverySectionHasParent(sections, size, overlap, i);
      ChildrenCoverParents(sections, size, overlap, p);
    }
  }

  lemma NoSections(classify: Classifier)
    ensures Sections(SplitLines(""), classify) == []
  {}

  // ----- where sections begin -----

  /** The section begins with a heading, which replaces the path before it from its level on. */
  ghost predicate BeginsAfter(path: seq<string>, section: Section, classify: Classifier) {
    && section.lines != [] && classify(section.lines[0]).Heading?
    && var heading := classify(section.lines[0]);
       var above := if heading.level >= 1 then heading.level - 1 else 0;
       section.headingPath == (if above <= |path| then path[..above] else path) + [heading.title]
  }

  predicate BeginsPlain(section: Section, classify: Classifier) {
    section.lines != [] && classify(section.lines[0]).Plain? && section.headingPath == []
  }

  /** Every section after the first begins with a heading, and so does the first one unless the text begins before any
      heading. */
  ghost predicate BeginAtHeadings(sections: seq<Section>, classify: Classifier) {
    && (sections != [] ==> BeginsAfter([], sections[0], classify) || BeginsPlain(sections[0], classify))
    && forall k :: 1 <= k < |sections| ==> BeginsAfter(sections[k - 1].headingPath, sections[k], classify)
  }

  lemma LongerSection(path: seq<string>, section: Section, line: string, classify: Classifier)
    requires section.lines != []
    ensures BeginsAfter(path, section, classify)
       <==> BeginsAfter(path, section.(lines := section.lines + [line]), classify)
    ensures BeginsPlain(section, classify) <==> BeginsPlain(section.(lines := section.lines + [line]), classify)
  {
    assert (section.lines + [line])[0] == section.lines[0];
  }

  lemma LongerKeeps(sections: seq<Section>, open: Section, line: string, classify: Classifier)
    requires open.lines != [] && BeginAtHeadings(sections + [open], classify)
    ensures BeginAtHeadings(sections + [open.(lines := open.lines + [line])], classify)
  {
    hide BeginsAfter, BeginsPlain;
    var longer := open.(lines := open.lines + [line]);
    var before, after := sections + [open], sections + [longer];
    LongerSection([], open, line, classify);
    forall k | 1 <= k < |after| ensures BeginsAfter(after[k - 1].headingPath, after[k], classify) {
      assert after[k - 1].headingPath == before[k - 1].headingPath;
      assert BeginsAfter(before[k - 1].headingPath, before[k], classify);
      LongerSection(before[k - 1].headingPath, open, line, classify);
    }
  }

  lemma NewKeeps(sections: seq<Section>, s: Section, classify: Classifier)
    requires BeginAtHeadings(sections, classify)
    requires sections == [] ==> BeginsAfter([], s, classify) || BeginsPlain(s, classify)
    requires sections != [] ==> BeginsAfter(sections[|sections| - 1].headingPath, s, classify)
    ensures BeginAtHeadings(sections + [s], classify)
  {
    hide BeginsAfter, BeginsPlain;
  }

  function LastSection(lines: seq<string>, classify: Classifier): Section {
    var g := GroupLines(lines, classify);
    Section(g.path, g.lines)
  }

  /** And so it is for every text, skipped levels included. */
  lemma {:induction false} SectionsBeginAtHeadings(lines: seq<string>, classify: Classifier)
    ensures BeginAtHeadings(Sections(lines, classify), classify)
    ensures var g := GroupLines(lines, classify);
            && (lines == [] ==> g == Grouping([], [], []))
            && (lines != [] ==> g.lines != [] && Sections(lines, classify) == g.sections + [Section(g.path, g.lines)])
  {
    hide BeginAtHeadings;
    if lines == [] {
      NoneBegin(classify);
      assert Sections(lines, classify) == [];
    } else {
      var n := |lines| - 1;
      var front, line := lines[..n], lines[n];
      SectionsBeginAtHeadings(front, classify);
      var f := GroupLines(front, classify);
      if classify(line).Heading? {
        HeadingStart(f.path, line, classify);
        NewKeeps(Sections(front, classify), LastSection(lines, classify), classify);
      } else if n > 0 {
        LongerKeeps(f.sections, Section(f.path, f.lines), line, classify);
      } else {
        PlainStart(line, classify);
        NewKeeps([], Section([], [line]), classify);
        assert front == [] && [] + [line] == [line];
        assert Sections(lines, classify) == [] + [Section([], [line])];
      }
    }
  }

  lemma NoneBegin(classify: Classifier)
    ensures BeginAtHeadings([], classify)
  {}

  lemma PlainStart(line: string, classify: Classifier)
    requires classify(line).Plain?
    ensures BeginsPlain(Section([], [line]), classify)
  {}

  lemma HeadingStart(path: seq<string>, line: string, classify: Classifier)
    requires classify(line).Heading?
    ensures var heading := classify(line);
            BeginsAfter(path, Section(Cut(path, if heading.level >= 1 then heading.level - 1 else 0) + [heading.title],
                                      [line]), classify)
  {}
}
