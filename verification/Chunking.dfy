/** Splitting text into overlapping chunks, and grouping it by headings into parent sections. */
module Chunking {
  import opened Text
  import opened Cleaning

  // ----- split_text -----

  /** Overlapping windows of a long paragraph from position i on: size characters every step characters. */
  function Windows(paragraph: string, i: nat, size: nat, step: nat): seq<string>
    requires step >= 1
    decreases |paragraph| - i
  {
    if i >= |paragraph| then []
    else
      [paragraph[i..if i + size < |paragraph| then i + size else |paragraph|]]
      + Windows(paragraph, i + step, size, step)
  }

  function WindowStep(size: nat, overlap: nat): (step: nat)
    ensures step >= 1
    ensures size >= 1 ==> step <= size
  {
    if size - overlap > 1 then size - overlap else 1
  }

  /** current[-overlap:] for a positive overlap */
  function Tail(current: string, overlap: nat): (r: string)
    ensures |r| <= overlap
  {
    if overlap <= |current| then current[|current| - overlap..] else current
  }

  /** f'{first}\n\n{second}' */
  function BlankLine(first: string, second: string): (r: string)
    ensures |r| == |first| + 2 + |second|
  {
    first + "\n\n" + second
  }

  /** Finished chunks, and the chunk being filled. */
  datatype Filling = Filling(chunks: seq<string>, current: string)

  function AddParagraph(f: Filling, paragraph: string, size: nat, overlap: nat): Filling {
    if |paragraph| > size then
      Filling(f.chunks + (if f.current != "" then [f.current] else [])
              + Windows(paragraph, 0, size, WindowStep(size, overlap)),
              "")
    else
      var candidate := Strip(BlankLine(f.current, paragraph));
      if |candidate| <= size then f.(current := candidate)
      else Filling(f.chunks + [f.current],
                   if overlap > 0 then Strip(BlankLine(Tail(f.current, overlap), paragraph)) else paragraph)
  }

  function AddParagraphs(paragraphs: seq<string>, size: nat, overlap: nat): Filling {
    if paragraphs == [] then Filling([], "")
    else
      var n := |paragraphs| - 1;
      AddParagraph(AddParagraphs(paragraphs[..n], size, overlap), paragraphs[n], size, overlap)
  }

  /** The chunks before the final filter. */
  function RawChunks(paragraphs: seq<string>, size: nat, overlap: nat): seq<string> {
    var f := AddParagraphs(paragraphs, size, overlap);
    f.chunks + (if f.current != "" then [f.current] else [])
  }

  /** The chunks that are not blank. */
  function KeepNonBlank(chunks: seq<string>): seq<string> {
    if chunks == [] then []
    else KeepNonBlank(chunks[..|chunks| - 1])
         + (if Strip(chunks[|chunks| - 1]) != "" then [chunks[|chunks| - 1]] else [])
  }

  function Chunks(text: string, size: nat, overlap: nat): seq<string> {
    var content := CleanText(text);
    if content == "" then [] else KeepNonBlank(RawChunks(Paragraphs(content), size, overlap))
  }

  method SplitText(text: string, size: nat, overlap: nat) returns (result: seq<string>)
    ensures result == Chunks(text, size, overlap)
  {
    hide CleanText, Paragraphs, Strip, BlankLine, Windows, AddParagraph;
    var content := CleanText(text);
    if content == "" {
      return [];
    }
    var paragraphs := Paragraphs(content);
    var chunks: seq<string>, current := [], "";
    for i := 0 to |paragraphs|
      invariant AddParagraphs(paragraphs[..i], size, overlap) == Filling(chunks, current)
    {
      var paragraph := paragraphs[i];
      assert paragraphs[..i + 1][..i] == paragraphs[..i];
      ghost var f := Filling(chunks, current);
      if |paragraph| > size {
        LongParagraph(f, paragraph, size, overlap);
        if current != "" {
          chunks := chunks + [current];
          current := "";
        } else {
          assert chunks + [] == chunks;
        }
        chunks := chunks + Windows(paragraph, 0, size, WindowStep(size, overlap));
        continue;
      }
      ShortParagraph(f, paragraph, size, overlap);
      var candidate := Strip(BlankLine(current, paragraph));
      if |candidate| <= size {
        current := candidate;
      } else {
        chunks := chunks + [current];
        current := if overlap > 0 then Strip(BlankLine(Tail(current, overlap), paragraph)) else paragraph;
      }
    }
    assert paragraphs[..|paragraphs|] == paragraphs;
    if current != "" {
      chunks := chunks + [current];
    } else {
      assert chunks + [] == chunks;
    }
    result := [];
    for i := 0 to |chunks|
      invariant result == KeepNonBlank(chunks[..i])
    {
      assert chunks[..i + 1][..i] == chunks[..i];
      if Strip(chunks[i]) != "" {
        result := result + [chunks[i]];
      }
    }
    assert chunks[..|chunks|] == chunks;
  }

  lemma LongParagraph(f: Filling, paragraph: string, size: nat, overlap: nat)
    requires |paragraph| > size
    ensures AddParagraph(f, paragraph, size, overlap)
         == Filling(f.chunks + (if f.current != "" then [f.current] else [])
                    + Windows(paragraph, 0, size, WindowStep(size, overlap)), "")
  {}

  lemma ShortParagraph(f: Filling, paragraph: string, size: nat, overlap: nat)
    requires |paragraph| <= size
    ensures var candidate := Strip(BlankLine(f.current, paragraph));
            AddParagraph(f, paragraph, size, overlap)
            == if |candidate| <= size then f.(current := candidate)
               else Filling(f.chunks + [f.current],
                            if overlap > 0 then Strip(BlankLine(Tail(f.current, overlap), paragraph)) else paragraph)
  {}

  // ----- the size bound -----

  ghost predicate AllWithin(chunks: seq<string>, bound: nat) {
    forall i :: 0 <= i < |chunks| ==> |chunks[i]| <= bound
  }

  lemma {:induction false} WindowsWithin(paragraph: string, i: nat, size: nat, step: nat)
    requires step >= 1
    ensures AllWithin(Windows(paragraph, i, size, step), size)
    decreases |paragraph| - i
  {
    if i < |paragraph| {
      WindowsWithin(paragraph, i + step, size, step);
    }
  }

  lemma AddWithin(f: Filling, paragraph: string, size: nat, overlap: nat)
    requires AllWithin(f.chunks, size + overlap + 2) && |f.current| <= size + overlap + 2
    ensures var g := AddParagraph(f, paragraph, size, overlap);
            AllWithin(g.chunks, size + overlap + 2) && |g.current| <= size + overlap + 2
  {
    hide Strip, BlankLine, Windows, Tail;
    WindowsWithin(paragraph, 0, size, WindowStep(size, overlap));
    StripIsStripped(BlankLine(Tail(f.current, overlap), paragraph));
  }

  lemma {:induction false} FillingWithin(paragraphs: seq<string>, size: nat, overlap: nat)
    ensures var f := AddParagraphs(paragraphs, size, overlap);
            AllWithin(f.chunks, size + overlap + 2) && |f.current| <= size + overlap + 2
  {
    hide AddParagraph;
    if paragraphs != [] {
      var front, paragraph := paragraphs[..|paragraphs| - 1], paragraphs[|paragraphs| - 1];
      FillingWithin(front, size, overlap);
      AddWithin(AddParagraphs(front, size, overlap), paragraph, size, overlap);
    }
  }

  lemma {:induction false} KeptAreChunks(chunks: seq<string>)
    ensures forall c :: c in KeepNonBlank(chunks) <==> c in chunks && !IsBlank(c)
  {
    hide Strip, IsBlank, IsStripped;
    if chunks != [] {
      var front, last := chunks[..|chunks| - 1], chunks[|chunks| - 1];
      KeptAreChunks(front);
      StripIsStripped(last);
      assert chunks == front + [last];
    }
  }

  /** No chunk is longer than chunk_size + overlap + 2, and none is blank. */
  lemma ChunksAreBounded(text: string, size: nat, overlap: nat)
    ensures forall c :: c in Chunks(text, size, overlap) ==> |c| <= size + overlap + 2 && !IsBlank(c)
  {
    hide CleanText, Paragraphs, AddParagraphs, KeepNonBlank, IsBlank;
    var paragraphs := Paragraphs(CleanText(text));
    FillingWithin(paragraphs, size, overlap);
    KeptAreChunks(RawChunks(paragraphs, size, overlap));
    var f := AddParagraphs(paragraphs, size, overlap);
    forall c | c in RawChunks(paragraphs, size, overlap) ensures |c| <= size + overlap + 2 {
      if c in f.chunks {
        var i :| 0 <= i < |f.chunks| && f.chunks[i] == c;
      }
    }
  }

  // ----- coverage -----

  ghost predicate Contains(whole: string, part: string) {
    exists a: string, b: string :: whole == a + part + b
  }

  lemma ContainsTransitive(a: string, b: string, c: string)
    requires Contains(a, b) && Contains(b, c)
    ensures Contains(a, c)
  {
    var p, q :| a == p + b + q;
    var r, s :| b == r + c + s;
    assert a == (p + r) + c + (s + q);
  }

  /** Joining stripped pieces with a blank line leaves nothing to strip off; a first empty piece vanishes. */
  lemma JoinKeepsPieces(current: string, paragraph: string)
    requires IsStripped(current) && IsStripped(paragraph) && paragraph != ""
    ensures var joined := Strip(BlankLine(current, paragraph));
            Contains(joined, current) && Contains(joined, paragraph)
  {
    hide Strip;
    var s := BlankLine(current, paragraph);
    if current != "" {
      assert s[0] == current[0] && s[|s| - 1] == paragraph[|paragraph| - 1];
      StripOfStripped(s);
      assert s == "" + current + ("\n\n" + paragraph);
      assert s == (current + "\n\n") + paragraph + "";
    } else {
      JoinKeepsSecond(current, paragraph);
      var joined := Strip(s);
      assert joined == "" + "" + joined;
    }
  }

  lemma JoinKeepsSecond(first: string, paragraph: string)
    requires IsStripped(paragraph) && paragraph != ""
    ensures Contains(Strip(BlankLine(first, paragraph)), paragraph)
  {
    hide Strip, BlankLine;
    var s := BlankLine(first, paragraph);
    BlankLineEnds(first, paragraph);
    var before, after := StripSplits(s);
    SuffixSurvives(s, before, Strip(s), after, |first| + 2);
    assert Strip(s) == Strip(s)[..|first| + 2 - |before|] + paragraph + "";
  }

  lemma BlankLineEnds(first: string, paragraph: string)
    ensures BlankLine(first, paragraph)[|first| + 2..] == paragraph
  {}

  /** Blank ends cannot reach into a suffix that begins and ends with a visible character. */
  lemma SuffixSurvives(s: string, before: string, r: string, after: string, n: nat)
    requires s == before + r + after && IsBlank(before) && IsBlank(after)
    requires n < |s| && !IsSpace(s[n]) && !IsSpace(s[|s| - 1])
    ensures |before| <= n && |r| == |s| - |before| && r[n - |before|..] == s[n..]
  {
    assert after == "";
    assert |before| <= n;
    assert s == before + r;
  }

  /** The paragraph stands whole in a finished chunk or in the one being filled. */
  ghost predicate IsKept(f: Filling, paragraph: string) {
    Contains(f.current, paragraph) || exists i :: 0 <= i < |f.chunks| && Contains(f.chunks[i], paragraph)
  }

  lemma AddKeepsEarlier(f: Filling, paragraph: string, size: nat, overlap: nat, earlier: string)
    requires IsStripped(f.current) && IsStripped(paragraph) && paragraph != "" && earlier != ""
    requires IsKept(f, earlier)
    ensures IsKept(AddParagraph(f, paragraph, size, overlap), earlier)
  {
    hide Strip, Windows, IsStripped, Contains;
    var g := AddParagraph(f, paragraph, size, overlap);
    if exists i :: 0 <= i < |f.chunks| && Contains(f.chunks[i], earlier) {
      var i :| 0 <= i < |f.chunks| && Contains(f.chunks[i], earlier);
      assert g.chunks[i] == f.chunks[i];
    } else if |paragraph| > size {
      ContainsNonEmpty(f.current, earlier);
      assert g.chunks[|f.chunks|] == f.current;
    } else {
      ShortParagraph(f, paragraph, size, overlap);
      if g.chunks == f.chunks {
        JoinKeepsPieces(f.current, paragraph);
        ContainsTransitive(g.current, f.current, earlier);
      } else {
        assert g.chunks[|f.chunks|] == f.current;
      }
    }
  }

  lemma ContainsNonEmpty(whole: string, part: string)
    requires Contains(whole, part) && part != ""
    ensures whole != ""
  {}

  lemma AddKeepsNew(f: Filling, paragraph: string, size: nat, overlap: nat)
    requires IsStripped(f.current) && IsStripped(paragraph) && paragraph != "" && |paragraph| <= size
    ensures IsKept(AddParagraph(f, paragraph, size, overlap), paragraph)
  {
    hide Strip, AddParagraph, IsStripped, BlankLine, Tail;
    ShortParagraph(f, paragraph, size, overlap);
    JoinKeepsSecond(f.current, paragraph);
    JoinKeepsSecond(Tail(f.current, overlap), paragraph);
    assert paragraph == "" + paragraph + "";
  }

  lemma CurrentIsStripped(f: Filling, paragraph: string, size: nat, overlap: nat)
    requires IsStripped(f.current) && IsStripped(paragraph)
    ensures IsStripped(AddParagraph(f, paragraph, size, overlap).current)
  {
    hide Strip, BlankLine, Tail, Windows;
    EmptyIsStripped();
    StripIsStripped(BlankLine(f.current, paragraph));
    StripIsStripped(BlankLine(Tail(f.current, overlap), paragraph));
  }

  ghost predicate AreParagraphs(paragraphs: seq<string>) {
    forall i :: 0 <= i < |paragraphs| ==> paragraphs[i] != "" && IsStripped(paragraphs[i])
  }

  lemma {:induction false} ShortParagraphsKept(paragraphs: seq<string>, size: nat, overlap: nat, k: nat)
    requires AreParagraphs(paragraphs)
    ensures IsStripped(AddParagraphs(paragraphs, size, overlap).current)
    ensures k < |paragraphs| && |paragraphs[k]| <= size ==>
        IsKept(AddParagraphs(paragraphs, size, overlap), paragraphs[k])
    decreases |paragraphs|
  {
    hide AddParagraph, IsKept, IsStripped;
    if paragraphs != [] {
      var front, last := paragraphs[..|paragraphs| - 1], paragraphs[|paragraphs| - 1];
      var f := AddParagraphs(front, size, overlap);
      ShortParagraphsKept(front, size, overlap, k);
      CurrentIsStripped(f, last, size, overlap);
      if k < |front| && |paragraphs[k]| <= size {
        AddKeepsEarlier(f, last, size, overlap, paragraphs[k]);
      } else if k == |front| && |last| <= size {
        AddKeepsNew(f, last, size, overlap);
      }
    } else {
      EmptyIsStripped();
    }
  }

  lemma EmptyIsStripped()
    ensures IsStripped("")
  {}

  /** The windows of a long paragraph are all finished chunks. */
  lemma {:induction false} LongParagraphsKept(paragraphs: seq<string>, size: nat, overlap: nat, k: nat)
    requires k < |paragraphs| && |paragraphs[k]| > size
    ensures forall w :: w in Windows(paragraphs[k], 0, size, WindowStep(size, overlap)) ==>
              w in AddParagraphs(paragraphs, size, overlap).chunks
    decreases |paragraphs|
  {
    hide Windows, Strip;
    var front, last := paragraphs[..|paragraphs| - 1], paragraphs[|paragraphs| - 1];
    if k < |front| {
      LongParagraphsKept(front, size, overlap, k);
    }
  }

  function Join(parts: seq<string>): string {
    if parts == [] then "" else parts[0] + Join(parts[1..])
  }

  /** The first step characters of each piece, or all of a shorter one. */
  function Heads(parts: seq<string>, step: nat): (heads: seq<string>)
    ensures |heads| == |parts|
  {
    seq(|parts|, i requires 0 <= i < |parts| => Head(parts[i], step))
  }

  function Head(part: string, step: nat): string {
    if step <= |part| then part[..step] else part
  }

  lemma JoinOfHeads(parts: seq<string>, step: nat)
    requires parts != []
    ensures Join(Heads(parts, step)) == Head(parts[0], step) + Join(Heads(parts[1..], step))
  {
    assert Heads(parts, step)[1..] == Heads(parts[1..], step);
  }

  /** The parts of the windows that do not overlap concatenate back to the paragraph. */
  lemma {:induction false} WindowsCover(paragraph: string, i: nat, size: nat, step: nat)
    requires 1 <= step <= size && i <= |paragraph|
    ensures Join(Heads(Windows(paragraph, i, size, step), step)) == paragraph[i..]
    decreases |paragraph| - i
  {
    hide Heads;
    if i < |paragraph| {
      var windows := Windows(paragraph, i, size, step);
      var end := if i + size < |paragraph| then i + size else |paragraph|;
      var next := if i + step < |paragraph| then i + step else |paragraph|;
      JoinOfHeads(windows, step);
      assert windows[0] == paragraph[i..end] && windows[1..] == Windows(paragraph, i + step, size, step);
      assert Head(windows[0], step) == paragraph[i..next];
      assert windows[1..] == Windows(paragraph, next, size, step);
      WindowsCover(paragraph, next, size, step);
      assert paragraph[i..] == paragraph[i..next] + paragraph[next..];
    } else {
      NoHeads(step);
    }
  }

  lemma NoHeads(step: nat)
    ensures Heads([], step) == []
  {}

  /** A short paragraph stands whole in a chunk; of a long one every window that is not blank is a chunk, and the
      windows cover it without gaps. */
  ghost predicate Covers(chunks: seq<string>, paragraph: string, size: nat, overlap: nat) {
    var windows := Windows(paragraph, 0, size, WindowStep(size, overlap));
    if |paragraph| <= size then exists c :: c in chunks && Contains(c, paragraph)
    else
      && (forall w :: w in windows && !IsBlank(w) ==> w in chunks)
      && Join(Heads(windows, WindowStep(size, overlap))) == paragraph
  }

  /** Nothing is lost: every paragraph of at most chunk_size characters stands whole in some chunk; of a longer one
      every window that is not blank is a chunk, and the windows cover it without gaps. */
  lemma ChunksCoverText(text: string, size: nat, overlap: nat, k: nat)
    requires size >= 1
    ensures var paragraphs := Paragraphs(CleanText(text));
            k < |paragraphs| ==> Covers(Chunks(text, size, overlap), paragraphs[k], size, overlap)
  {
    hide CleanText, Paragraphs, Strip, Windows, AddParagraphs, Contains, Join, Heads;
    var content := CleanText(text);
    var paragraphs := Paragraphs(content);
    if k >= |paragraphs| {
      return;
    }
    ParagraphsKeepVisible(content);
    NoParagraphsInNothing();
    var f := AddParagraphs(paragraphs, size, overlap);
    KeptAreChunks(RawChunks(paragraphs, size, overlap));
    var paragraph := paragraphs[k];
    if |paragraph| <= size {
      ShortParagraphsKept(paragraphs, size, overlap, k);
      var c := WhereKept(f, paragraph);
      ContainsVisible(c, paragraph);
      assert c in RawChunks(paragraphs, size, overlap);
    } else {
      LongParagraphsKept(paragraphs, size, overlap, k);
      WindowsCover(paragraph, 0, size, WindowStep(size, overlap));
      assert paragraph[0..] == paragraph;
    }
  }

  lemma NoParagraphsInNothing()
    ensures Paragraphs("") == []
  {
    assert Pieces("", "") == [""];
    assert [""][1..] == [];
    assert Strip("") == "";
  }

  lemma WhereKept(f: Filling, paragraph: string) returns (c: string)
    requires IsKept(f, paragraph) && paragraph != ""
    ensures Contains(c, paragraph)
    ensures c in f.chunks || (c == f.current && c != "")
  {
    if Contains(f.current, paragraph) {
      c := f.current;
    } else {
      var i :| 0 <= i < |f.chunks| && Contains(f.chunks[i], paragraph);
      c := f.chunks[i];
    }
  }

  lemma ContainsVisible(c: string, paragraph: string)
    requires Contains(c, paragraph) && paragraph != "" && IsStripped(paragraph)
    ensures !IsBlank(c)
  {
    var a, b :| c == a + paragraph + b;
    assert c[|a|] == paragraph[0];
  }

  /** A text with a visible character yields at least one chunk. */
  lemma ChunksExist(text: string, size: nat, overlap: nat)
    requires size >= 1
    ensures Chunks(text, size, overlap) == [] <==> Visible(text) == ""
  {
    hide CleanText, Visible, Paragraphs, Windows, RawChunks, KeepNonBlank, VisibleAll, IsBlank, IsStripped;
    CleanTextKeepsVisible(text);
    var content := CleanText(text);
    if content != "" {
      ParagraphsKeepVisible(content);
      CleanTextKeepsVisible(content);
      CleanTextIsIdempotent(text);
      VisibleAllCons("", []);
      var paragraphs := Paragraphs(content);
      assert paragraphs != [];
      ChunksCoverText(text, size, overlap, 0);
      if |paragraphs[0]| > size {
        FirstWindow(paragraphs[0], size, WindowStep(size, overlap));
      }
    }
  }

  lemma FirstWindow(paragraph: string, size: nat, step: nat)
    requires 1 <= step && 1 <= size && paragraph != "" && IsStripped(paragraph)
    ensures Windows(paragraph, 0, size, step) != [] && !IsBlank(Windows(paragraph, 0, size, step)[0])
  {
    var w := Windows(paragraph, 0, size, step)[0];
    assert w[0] == paragraph[0];
  }

  // ----- split_parent_child_text -----

  /** What the two line patterns make of a line. A page mark opens a section of level 1, like a top heading. */
  datatype LineKind = Plain | Heading(level: nat, title: string)

  type Classifier = string -> LineKind

  /** Headings have at least level 1. */
  ghost predicate IsClassifier(classify: Classifier) {
    forall line :: classify(line).Heading? ==> classify(line).level >= 1
  }

  /** str.splitlines(), with the line being read so far. */
  function LinesFrom(s: string, line: string): seq<string>
    decreases |s|
  {
    if s == "" then (if line == "" then [] else [line])
    else if s[0] == '\r' && |s| > 1 && s[1] == '\n' then [line] + LinesFrom(s[2..], "")
    else if IsLineBreak(s[0]) then [line] + LinesFrom(s[1..], "")
    else LinesFrom(s[1..], line + [s[0]])
  }

  predicate IsLineBreak(c: char) {
    || '\n' <= c <= '\r'
    || '\U{1c}' <= c <= '\U{1e}'
    || c == '\U{85}' || c == '\U{2028}' || c == '\U{2029}'
  }

  function SplitLines(s: string): seq<string> {
    LinesFrom(s, "")
  }

  /** '\n'.join(lines) */
  function JoinLines(lines: seq<string>): string {
    if lines == [] then ""
    else if |lines| == 1 then lines[0]
    else lines[0] + "\n" + JoinLines(lines[1..])
  }

  datatype Section = Section(headingPath: seq<string>, lines: seq<string>)

  datatype ParentChildren = ParentChildren(headingPath: seq<string>, parentContent: string, children: seq<string>)

  /** The sections closed so far, the heading path, and the lines of the open section. */
  datatype Grouping = Grouping(sections: seq<Section>, path: seq<string>, lines: seq<string>)

  function Close(g: Grouping): seq<Section> {
    g.sections + (if g.lines != [] then [Section(g.path, g.lines)] else [])
  }

  /** path[:n] */
  function Cut(path: seq<string>, n: nat): seq<string> {
    if n <= |path| then path[..n] else path
  }

  function AddLine(g: Grouping, line: string, classify: Classifier): Grouping {
    match classify(line)
    case Plain => g.(lines := g.lines + [line])
    case Heading(level, title) =>
      Grouping(Close(g), Cut(g.path, if level >= 1 then level - 1 else 0) + [title], [line])
  }

  function GroupLines(lines: seq<string>, classify: Classifier): Grouping {
    if lines == [] then Grouping([], [], [])
    else AddLine(GroupLines(lines[..|lines| - 1], classify), lines[|lines| - 1], classify)
  }

  function Sections(lines: seq<string>, classify: Classifier): seq<Section> {
    Close(GroupLines(lines, classify))
  }

  /** The sections whose cleaned text is not empty, each with its chunks. */
  function ParentsOf(sections: seq<Section>, size: nat, overlap: nat): seq<ParentChildren> {
    if sections == [] then []
    else
      var last := sections[|sections| - 1];
      var parent := CleanText(JoinLines(last.lines));
      ParentsOf(sections[..|sections| - 1], size, overlap)
      + (if parent != "" then [ParentChildren(last.headingPath, parent, Chunks(parent, size, overlap))] else [])
  }

  function ParentChildChunks(text: string, size: nat, overlap: nat, classify: Classifier): seq<ParentChildren> {
    var content := CleanText(text);
    if content == "" then [] else ParentsOf(Sections(SplitLines(content), classify), size, overlap)
  }

  lemma NothingGrouped(size: nat, overlap: nat, classify: Classifier)
    ensures GroupLines([], classify) == Grouping([], [], []) && ParentsOf([], size, overlap) == []
  {}

  lemma GroupOneMore(lines: seq<string>, i: nat, classify: Classifier)
    requires i < |lines|
    ensures GroupLines(lines[..i + 1], classify) == AddLine(GroupLines(lines[..i], classify), lines[i], classify)
  {
    hide AddLine;
    assert lines[..i + 1][..i] == lines[..i];
  }

  method SplitParentChildText(text: string, size: nat, overlap: nat, classify: Classifier)
      returns (r: seq<ParentChildren>)
    requires IsClassifier(classify)
    ensures r == ParentChildChunks(text, size, overlap, classify)
  {
    hide CleanText, Chunks, JoinLines, IsClassifier, SplitLines, GroupLines;
    var content := CleanText(text);
    if content == "" {
      return [];
    }
    var lines := SplitLines(content);
    var sections: seq<Section>, headingPath: seq<string>, sectionLines: seq<string> := [], [], [];
    NothingGrouped(size, overlap, classify);
    for i := 0 to |lines|
      invariant GroupLines(lines[..i], classify) == Grouping(sections, headingPath, sectionLines)
    {
      GroupOneMore(lines, i, classify);
      match classify(lines[i])
      case Plain =>
        sectionLines := sectionLines + [lines[i]];
      case Heading(level, title) =>
        HeadingLevel(classify, lines[i]);
        sections := sections + (if sectionLines != [] then [Section(headingPath, sectionLines)] else []);
        sectionLines := [lines[i]];
        headingPath := Cut(headingPath, level - 1) + [title];
    }
    assert lines[..|lines|] == lines;
    sections := sections + (if sectionLines != [] then [Section(headingPath, sectionLines)] else []);
    r := [];
    for i := 0 to |sections|
      invariant r == ParentsOf(sections[..i], size, overlap)
    {
      assert sections[..i + 1][..i] == sections[..i];
      var parent := CleanText(JoinLines(sections[i].lines));
      if parent != "" {
        var children := SplitText(parent, size, overlap);
        r := r + [ParentChildren(sections[i].headingPath, parent, children)];
      }
    }
    assert sections[..|sections|] == sections;
  }

  lemma HeadingLevel(classify: Classifier, line: string)
    requires IsClassifier(classify) && classify(line).Heading?
    ensures classify(line).level >= 1
  {}

  /** Every parent section has text and at least one child chunk. */
  lemma {:induction false} ParentsHaveChildren(sections: seq<Section>, size: nat, overlap: nat)
    requires size >= 1
    ensures forall p :: p in ParentsOf(sections, size, overlap) ==> p.parentContent != "" && p.children != []
  {
    hide CleanText, Chunks, JoinLines;
    if sections != [] {
      var last := sections[|sections| - 1];
      ParentsHaveChildren(sections[..|sections| - 1], size, overlap);
      var s := JoinLines(last.lines);
      CleanTextKeepsVisible(s);
      ChunksExist(CleanText(s), size, overlap);
    }
  }

  function AllLines(sections: seq<Section>): seq<string> {
    if sections == [] then [] else AllLines(sections[..|sections| - 1]) + sections[|sections| - 1].lines
  }

  lemma AllLinesOfAppend(sections: seq<Section>, s: Section)
    ensures AllLines(sections + [s]) == AllLines(sections) + s.lines
  {
    assert (sections + [s])[..|sections|] == sections;
  }

  lemma AllLinesOfClose(g: Grouping)
    ensures AllLines(Close(g)) == AllLines(g.sections) + g.lines
  {
    if g.lines != [] {
      AllLinesOfAppend(g.sections, Section(g.path, g.lines));
    } else {
      assert g.sections + [] == g.sections;
    }
  }

  lemma {:induction false} GroupingKeepsLines(lines: seq<string>, classify: Classifier)
    ensures var g := GroupLines(lines, classify); AllLines(g.sections) + g.lines == lines
  {
    hide Close, AllLines;
    if lines != [] {
      var front, last := lines[..|lines| - 1], lines[|lines| - 1];
      GroupingKeepsLines(front, classify);
      AllLinesOfClose(GroupLines(front, classify));
    } else {
      NoLines();
    }
  }

  lemma NoLines()
    ensures AllLines([]) == []
  {}

  /** The sections hold exactly the lines of the text, in order. */
  lemma SectionsPartitionLines(lines: seq<string>, classify: Classifier)
    ensures AllLines(Sections(lines, classify)) == lines
  {
    GroupingKeepsLines(lines, classify);
    AllLinesOfClose(GroupLines(lines, classify));
  }

  lemma LineBreaksAreInvisible(c: char)
    requires IsLineBreak(c)
    ensures !IsVisible(c)
  {}

  lemma VisibleSkipsBreak(s: string)
    requires s != "" && IsLineBreak(s[0])
    ensures Visible(s) == Visible(s[1..])
    ensures |s| > 1 && s[0] == '\r' && s[1] == '\n' ==> Visible(s) == Visible(s[2..])
  {
    LineBreaksAreInvisible(s[0]);
    if |s| > 1 && s[1] == '\n' {
      LineBreaksAreInvisible(s[1]);
      assert s[1..][1..] == s[2..];
    }
  }

  lemma LinesFromCases(s: string, line: string)
    ensures LinesFrom(s, line) ==
            if s == "" then (if line == "" then [] else [line])
            else if s[0] == '\r' && |s| > 1 && s[1] == '\n' then [line] + LinesFrom(s[2..], "")
            else if IsLineBreak(s[0]) then [line] + LinesFrom(s[1..], "")
            else LinesFrom(s[1..], line + [s[0]])
  {}

  lemma {:induction false} VisibleOfLines(s: string, line: string)
    ensures VisibleAll(LinesFrom(s, line)) == Visible(line) + Visible(s)
    decreases |s|
  {
    hide LinesFrom, Visible, VisibleAll, IsLineBreak;
    LinesFromCases(s, line);
    VisibleAllCons(line, []);
    if s == "" {
      assert [line] + [] == [line];
    } else if s[0] == '\r' && |s| > 1 && s[1] == '\n' {
      VisibleSkipsBreak(s);
      VisibleAllCons(line, LinesFrom(s[2..], ""));
      VisibleOfLines(s[2..], "");
    } else if IsLineBreak(s[0]) {
      VisibleSkipsBreak(s);
      VisibleAllCons(line, LinesFrom(s[1..], ""));
      VisibleOfLines(s[1..], "");
    } else {
      VisibleOfLines(s[1..], line + [s[0]]);
      VisibleOfConcat(line, [s[0]]);
      assert s == [s[0]] + s[1..];
      VisibleOfConcat([s[0]], s[1..]);
    }
  }

  lemma {:induction false} VisibleOfJoin(lines: seq<string>)
    ensures Visible(JoinLines(lines)) == VisibleAll(lines)
  {
    hide Visible, VisibleAll;
    VisibleAllCons("", []);
    if lines != [] {
      assert lines == [lines[0]] + lines[1..];
      VisibleAllCons(lines[0], lines[1..]);
      VisibleOfJoin(lines[1..]);
      if |lines| > 1 {
        VisibleOfConcat(lines[0] + "\n", JoinLines(lines[1..]));
        VisibleOfConcat(lines[0], "\n");
        VisibleOfBlank("\n");
      }
    }
  }

  lemma {:induction false} VisibleAllOfConcat(a: seq<string>, b: seq<string>)
    ensures VisibleAll(a + b) == VisibleAll(a) + VisibleAll(b)
  {
    hide Visible;
    if a == [] {
      assert a + b == b;
    } else {
      assert (a + b)[1..] == a[1..] + b;
      VisibleAllOfConcat(a[1..], b);
    }
  }

  function ParentTexts(parents: seq<ParentChildren>): seq<string> {
    if parents == [] then [] else ParentTexts(parents[..|parents| - 1]) + [parents[|parents| - 1].parentContent]
  }

  lemma {:induction false} ParentsKeepVisible(sections: seq<Section>, size: nat, overlap: nat)
    ensures VisibleAll(ParentTexts(ParentsOf(sections, size, overlap))) == VisibleAll(AllLines(sections))
  {
    hide CleanText, Chunks, JoinLines, VisibleAll, Visible;
    if sections != [] {
      var front, last := sections[..|sections| - 1], sections[|sections| - 1];
      ParentsKeepVisible(front, size, overlap);
      VisibleAllOfConcat(AllLines(front), last.lines);
      VisibleOfJoin(last.lines);
      CleanTextKeepsVisible(JoinLines(last.lines));
      var parent := CleanText(JoinLines(last.lines));
      VisibleAllOfConcat(ParentTexts(ParentsOf(front, size, overlap)), [parent]);
      VisibleAllOfOne(parent);
      if parent != "" {
        var p := ParentChildren(last.headingPath, parent, Chunks(parent, size, overlap));
        assert (ParentsOf(front, size, overlap) + [p])[..|ParentsOf(front, size, overlap)|]
            == ParentsOf(front, size, overlap);
      } else {
        assert ParentsOf(front, size, overlap) + [] == ParentsOf(front, size, overlap);
      }
    }
  }

  lemma VisibleAllOfOne(s: string)
    ensures VisibleAll([s]) == Visible(s)
  {
    assert [s][1..] == [];
  }

  /** The parent sections hold exactly the visible characters of the document, in order. So a document can be
      indexed, that is, yields a parent section and hence a chunk, exactly if it has a visible character. */
  lemma DocumentIsCovered(text: string, size: nat, overlap: nat, classify: Classifier)
    requires size >= 1
    ensures VisibleAll(ParentTexts(ParentChildChunks(text, size, overlap, classify))) == Visible(text)
    ensures ParentChildChunks(text, size, overlap, classify) != [] <==> Visible(text) != ""
    ensures forall p :: p in ParentChildChunks(text, size, overlap, classify) ==>
        p.parentContent != "" && p.children != []
  {
    hide CleanText, LinesFrom, Sections, ParentsOf, ParentTexts, Visible;
    var content := CleanText(text);
    CleanTextKeepsVisible(text);
    NoParents();
    if content != "" {
      var lines := SplitLines(content);
      var sections := Sections(lines, classify);
      VisibleOfLines(content, "");
      VisibleOfBlank("");
      SectionsPartitionLines(lines, classify);
      ParentsKeepVisible(sections, size, overlap);
      ParentsHaveChildren(sections, size, overlap);
      var parents := ParentsOf(sections, size, overlap);
      if parents != [] {
        assert parents[0] in parents;
      }
    }
  }

  lemma NoParents()
    ensures ParentTexts([]) == []
  {}

  // ----- heading paths -----

  /** The title of the last heading of a level. */
  function LastOfLevel(lines: seq<string>, classify: Classifier, level: nat): string {
    if lines == [] then ""
    else
      var kind := classify(lines[|lines| - 1]);
      if kind.Heading? && kind.level == level then kind.title
      else LastOfLevel(lines[..|lines| - 1], classify, level)
  }

  /** No heading is more than one level deeper than the path before it. */
  ghost predicate NoLevelSkipped(lines: seq<string>, classify: Classifier) {
    forall i :: 0 <= i < |lines| ==> DoesNotSkip(lines[..i], lines[i], classify)
  }

  ghost predicate DoesNotSkip(before: seq<string>, line: string, classify: Classifier) {
    classify(line).Heading? ==> classify(line).level <= |GroupLines(before, classify).path| + 1
  }

  /** Where no level is skipped, place l of the heading path is the last heading of level l, and a section's own
      heading is the end of its path. */
  lemma {:induction false} PathIsAncestorChain(lines: seq<string>, classify: Classifier)
    requires IsClassifier(classify) && NoLevelSkipped(lines, classify)
    ensures var path := GroupLines(lines, classify).path;
            && (forall l :: 1 <= l <= |path| ==> path[l - 1] == LastOfLevel(lines, classify, l))
            && (lines != [] && classify(lines[|lines| - 1]).Heading? ==>
                  |path| == classify(lines[|lines| - 1]).level)
  {
    hide Close, IsClassifier;
    if lines != [] {
      var front, line := lines[..|lines| - 1], lines[|lines| - 1];
      assert NoLevelSkipped(front, classify) by {
        forall i | 0 <= i < |front| ensures DoesNotSkip(front[..i], front[i], classify) {
          assert front[..i] == lines[..i] && front[i] == lines[i];
          assert DoesNotSkip(lines[..i], lines[i], classify);
        }
      }
      PathIsAncestorChain(front, classify);
      assert DoesNotSkip(lines[..|lines| - 1], lines[|lines| - 1], classify);
      if classify(line).Heading? {
        HeadingLevel(classify, line);
      }
    }
  }

  lemma PrefixSkipsNone(lines: seq<string>, n: nat, classify: Classifier)
    requires n <= |lines| && NoLevelSkipped(lines, classify)
    ensures NoLevelSkipped(lines[..n], classify)
  {
    forall i | 0 <= i < n ensures DoesNotSkip(lines[..n][..i], lines[..n][i], classify) {
      assert lines[..n][..i] == lines[..i];
      assert DoesNotSkip(lines[..i], lines[i], classify);
    }
  }

  /** Only the first line of a section may be a heading; then its title ends the section's path. */
  ghost predicate IsHeaded(section: Section, classify: Classifier) {
    && section.lines != []
    && (forall i :: 1 <= i < |section.lines| ==> IsPlain(section.lines[i], classify))
    && (!IsPlain(section.lines[0], classify) ==>
          section.headingPath != []
              && section.headingPath[|section.headingPath| - 1] == classify(section.lines[0]).title)
  }

  predicate IsPlain(line: string, classify: Classifier) {
    classify(line).Plain?
  }

  /** The first n lines end with section k, whose path is the heading path at that point. */
  ghost predicate EndsWith(lines: seq<string>, classify: Classifier, sections: seq<Section>, k: nat, n: nat)
    requires k < |sections| && n <= |lines|
  {
    lines[..n] == AllLines(sections[..k + 1]) && sections[k].headingPath == GroupLines(lines[..n], classify).path
  }

  lemma {:induction false} SectionEnds(lines: seq<string>, classify: Classifier, k: nat) returns (n: nat)
    requires k < |Sections(lines, classify)|
    ensures n <= |lines| && EndsWith(lines, classify, Sections(lines, classify), k, n)
    ensures IsHeaded(Sections(lines, classify)[k], classify)
  {
    hide IsHeaded, AllLines, IsPlain, AddLine, GroupLines;
    NothingGrouped(0, 0, classify);
    SectionsPartitionLines(lines, classify);
    var front, line := lines[..|lines| - 1], lines[|lines| - 1];
    GroupOneMore(lines, |lines| - 1, classify);
    assert lines[..|lines| - 1 + 1] == lines;
    var g := GroupLines(front, classify);
    var before, sections := Sections(front, classify), Sections(lines, classify);
    AddedSection(g, line, classify);
    if k < |sections| - 1 {
      n := SectionEnds(front, classify, k);
      assert sections[..k + 1] == before[..k + 1] && lines[..n] == front[..n];
    } else {
      n := |lines|;
      assert sections[..k + 1] == sections && lines[..n] == lines;
      if |before| == |sections| {
        var m := SectionEnds(front, classify, k);
      }
      LastIsHeaded(g, line, classify);
    }
  }

  /** A line extends the last section or opens the next one; the sections before stay. */
  lemma AddedSection(g: Grouping, line: string, classify: Classifier)
    ensures var before, after := Close(g), Close(AddLine(g, line, classify));
            && after != [] && |after| - 1 <= |before| <= |after|
            && after[..|after| - 1] == before[..|after| - 1]
            && after[|after| - 1].headingPath == AddLine(g, line, classify).path
            && (|before| == |after| <==> g.lines != [] && IsPlain(line, classify))
  {}

  lemma LastIsHeaded(g: Grouping, line: string, classify: Classifier)
    requires var before, after := Close(g), Close(AddLine(g, line, classify));
             |before| == |after| ==> IsHeaded(before[|before| - 1], classify)
    ensures var after := Close(AddLine(g, line, classify));
            after != [] && IsHeaded(after[|after| - 1], classify)
  {
    hide Cut;
    var before, after := Close(g), Close(AddLine(g, line, classify));
    AddedSection(g, line, classify);
    if |before| == |after| {
      assert before[|before| - 1] == Section(g.path, g.lines);
      assert after[|after| - 1] == Section(g.path, g.lines + [line]);
    } else {
      assert after[|after| - 1].lines == [line];
    }
  }

  /** Where no level is skipped, the path stored with a section is the chain of the headings it stands under: place l is
      the last heading of level l up to the section's end, and the section's own heading ends it at its level. */
  lemma SectionPathIsAncestorChain(lines: seq<string>, classify: Classifier, k: nat) returns (n: nat)
    requires IsClassifier(classify) && NoLevelSkipped(lines, classify) && k < |Sections(lines, classify)|
    ensures n <= |lines| && lines[..n] == AllLines(Sections(lines, classify)[..k + 1])
    ensures var section := Sections(lines, classify)[k];
            && IsHeaded(section, classify)
            && (forall l :: 1 <= l <= |section.headingPath| ==>
                  section.headingPath[l - 1] == LastOfLevel(lines[..n], classify, l))
            && (!IsPlain(section.lines[0], classify) ==> |section.headingPath| == classify(section.lines[0]).level)
  {
    hide IsClassifier, GroupLines, AllLines, LastOfLevel;
    n := SectionEnds(lines, classify, k);
    PrefixSkipsNone(lines, n, classify);
    PathIsAncestorChain(lines[..n], classify);
    var section := Sections(lines, classify)[k];
    if !IsPlain(section.lines[0], classify) {
      PathHasLevelOfHeading(lines, classify, k);
    }
  }

  lemma {:induction false} PathHasLevelOfHeading(lines: seq<string>, classify: Classifier, k: nat)
    requires IsClassifier(classify) && NoLevelSkipped(lines, classify) && k < |Sections(lines, classify)|
    requires Sections(lines, classify)[k].lines != [] && !IsPlain(Sections(lines, classify)[k].lines[0], classify)
    ensures |Sections(lines, classify)[k].headingPath| == classify(Sections(lines, classify)[k].lines[0]).level
  {
    hide IsClassifier, GroupLines;
    NothingGrouped(0, 0, classify);
    var m := |lines| - 1;
    var front, line := lines[..m], lines[m];
    GroupOneMore(lines, m, classify);
    assert lines[..m + 1] == lines;
    PrefixSkipsNone(lines, m, classify);
    var g := GroupLines(front, classify);
    AddedSection(g, line, classify);
    if k < |Close(g)| {
      assert k < |Sections(front, classify)|;
      assert Sections(lines, classify)[k].headingPath == Sections(front, classify)[k].headingPath;
      assert Sections(lines, classify)[k].lines[0] == Sections(front, classify)[k].lines[0] by {
        var i := SectionEnds(front, classify, k);
      }
      PathHasLevelOfHeading(front, classify, k);
    } else {
      HeadingLevel(classify, line);
      PathIsAncestorChain(lines, classify);
    }
  }

  /** The parent section keeps the heading path and the text of section k. */
  ghost predicate IsParentOf(parent: ParentChildren, sections: seq<Section>, k: nat)
    requires k < |sections|
  {
    parent.headingPath == sections[k].headingPath && parent.parentContent == CleanText(JoinLines(sections[k].lines))
  }

  lemma {:induction false} SectionOfParent(sections: seq<Section>, size: nat, overlap: nat, p: ParentChildren)
      returns (k: nat)
    ensures p in ParentsOf(sections, size, overlap) ==> k < |sections| && IsParentOf(p, sections, k)
  {
    hide CleanText, JoinLines, Chunks;
    k := 0;
    if sections != [] {
      var front := sections[..|sections| - 1];
      k := |front|;
      if p in ParentsOf(front, size, overlap) {
        k := SectionOfParent(front, size, overlap, p);
      }
    }
  }

  /** Place l of the path is the last heading of level l in the first n lines, with which section k ends. */
  ghost predicate IsChainAt(path: seq<string>, lines: seq<string>, classify: Classifier, k: nat, n: nat)
    requires k < |Sections(lines, classify)| && n <= |lines|
  {
    && lines[..n] == AllLines(Sections(lines, classify)[..k + 1])
    && forall l :: 1 <= l <= |path| ==> path[l - 1] == LastOfLevel(lines[..n], classify, l)
  }

  /** So the heading path of every parent section is such a chain, for the section whose text it keeps. */
  lemma ParentPathIsAncestorChain(lines: seq<string>, size: nat, overlap: nat, classify: Classifier)
    requires IsClassifier(classify) && NoLevelSkipped(lines, classify)
    ensures forall p :: p in ParentsOf(Sections(lines, classify), size, overlap) ==>
              exists k: nat, n: nat ::
                && k < |Sections(lines, classify)| && n <= |lines|
                && IsParentOf(p, Sections(lines, classify), k) && IsChainAt(p.headingPath, lines, classify, k, n)
  {
    hide Sections, ParentsOf, IsClassifier, AllLines, LastOfLevel, NoLevelSkipped, CleanText, JoinLines;
    var sections := Sections(lines, classify);
    forall p | p in ParentsOf(sections, size, overlap)
      ensures exists k: nat, n: nat ::
                && k < |sections| && n <= |lines|
                && IsParentOf(p, sections, k) && IsChainAt(p.headingPath, lines, classify, k, n)
    {
      var k := SectionOfParent(sections, size, overlap, p);
      var n := SectionPathIsAncestorChain(lines, classify, k);
      assert IsChainAt(p.headingPath, lines, classify, k, n);
    }
  }
}
