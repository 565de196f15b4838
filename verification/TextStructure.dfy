/** What cleaning and splitting keep of a text's structure: its words, lines and paragraphs. */
module TextStructure {
  import opened Text
  import opened Cleaning
  import opened Chunking

  // ----- words, lines and paragraphs -----

  /** What stands between two visible characters: nothing, blanks, a line break, or at least one empty line. */
  datatype Gap = Nothing | Blanks | LineBreak | EmptyLine

  /** The ASCII control characters, but for the tab, the newline and the carriage return. */
  predicate IsDropped(c: char) {
    (c as int < 32 && c != '\t' && c != '\n' && c != '\r') || c as int == 127
  }

  /** What the last character was, apart from the dropped ones. */
  datatype Last = Other | Return | Newline

  function GapText(gap: Gap): string {
    match gap
    case Nothing => ""
    case Blanks => " "
    case LineBreak => "\n"
    case EmptyLine => "\n\n"
  }

  /** One more line break: directly after another one it leaves an empty line. */
  function Widened(gap: Gap, adjacent: bool): Gap {
    if adjacent || gap.EmptyLine? then EmptyLine else LineBreak
  }

  /** The visible characters with the gaps between them in their simplest form; gap and last describe what has been read
      since the last visible character, or from the start on. "\r\n" is one line break. */
  function SkeletonFrom(s: string, started: bool, gap: Gap, last: Last): string {
    if s == "" then ""
    else if IsDropped(s[0]) then SkeletonFrom(s[1..], started, gap, last)
    else if s[0] == '\r' then SkeletonFrom(s[1..], started, Widened(gap, last != Other), Return)
    else if s[0] == '\n' then
      if last == Return then SkeletonFrom(s[1..], started, gap, Newline)
      else SkeletonFrom(s[1..], started, Widened(gap, last != Other), Newline)
    else if IsSpace(s[0]) then SkeletonFrom(s[1..], started, if gap == Nothing then Blanks else gap, Other)
    else (if started then GapText(gap) else "") + [s[0]] + SkeletonFrom(s[1..], true, Nothing, Other)
  }

  function Skeleton(s: string): string {
    SkeletonFrom(s, false, Nothing, Other)
  }

  lemma {:induction false} SkeletonUnderRemove(s: string, started: bool, gap: Gap, last: Last)
    ensures SkeletonFrom(RemoveControls(s), started, gap, last) == SkeletonFrom(s, started, gap, last)
    decreases |s|
  {
    if s != "" {
      var r := RemoveControls(s);
      if IsControl(s[0]) {
        SkeletonUnderRemove(s[1..], started, gap, last);
      } else {
        assert r[1..] == RemoveControls(s[1..]);
        if s[0] == '\r' {
          SkeletonUnderRemove(s[1..], started, Widened(gap, last != Other), Return);
        } else if s[0] == '\n' && last == Return {
          SkeletonUnderRemove(s[1..], started, gap, Newline);
        } else if s[0] == '\n' {
          SkeletonUnderRemove(s[1..], started, Widened(gap, last != Other), Newline);
        } else if IsSpace(s[0]) {
          SkeletonUnderRemove(s[1..], started, if gap == Nothing then Blanks else gap, Other);
        } else {
          SkeletonUnderRemove(s[1..], true, Nothing, Other);
        }
      }
    }
  }

  predicate HasNoControls(s: string) {
    forall i :: 0 <= i < |s| ==> !IsControl(s[i])
  }

  function NewlineFor(last: Last): Last {
    if last == Return then Newline else last
  }

  lemma {:induction false} SkeletonUnderNormalize(s: string, started: bool, gap: Gap, last: Last)
    requires HasNoControls(s) && (last == Return ==> s == "" || s[0] != '\n')
    ensures SkeletonFrom(NormalizeNewlines(s), started, gap, NewlineFor(last)) == SkeletonFrom(s, started, gap, last)
    decreases |s|
  {
    if s != "" {
      var r := NormalizeNewlines(s);
      if s[0] == '\r' && |s| > 1 && s[1] == '\n' {
        var rest := s[2..];
        assert r[1..] == NormalizeNewlines(rest) && s[1..][1..] == rest && !IsControl(s[1]);
        SkeletonUnderNormalize(rest, started, Widened(gap, last != Other), Newline);
      } else {
        assert r[1..] == NormalizeNewlines(s[1..]);
        if s[0] == '\r' {
          SkeletonUnderNormalize(s[1..], started, Widened(gap, last != Other), Return);
        } else if s[0] == '\n' {
          SkeletonUnderNormalize(s[1..], started, Widened(gap, last != Other), Newline);
        } else if IsSpace(s[0]) {
          SkeletonUnderNormalize(s[1..], started, if gap == Nothing then Blanks else gap, Other);
        } else {
          SkeletonUnderNormalize(s[1..], true, Nothing, Other);
        }
      }
    }
  }

  /** Further newlines after an empty line add nothing. */
  lemma {:induction false} SkeletonUnderCollapse(s: string, run: nat, started: bool, gap: Gap, last: Last)
    requires HasNoControls(s) && forall i :: 0 <= i < |s| ==> s[i] != '\r'
    requires run >= 1 ==> last == Newline
    requires run >= 2 ==> gap == EmptyLine
    requires last != Return
    ensures SkeletonFrom(CollapseNewlines(s, run), started, gap, last) == SkeletonFrom(s, started, gap, last)
    decreases |s|
  {
    if s != "" {
      var r := CollapseNewlines(s, run);
      if s[0] != '\n' {
        assert r[1..] == CollapseNewlines(s[1..], 0);
        if IsSpace(s[0]) {
          SkeletonUnderCollapse(s[1..], 0, started, if gap == Nothing then Blanks else gap, Other);
        } else {
          SkeletonUnderCollapse(s[1..], 0, true, Nothing, Other);
        }
      } else if run < 2 {
        assert r[1..] == CollapseNewlines(s[1..], run + 1);
        SkeletonUnderCollapse(s[1..], run + 1, started, Widened(gap, last != Other), Newline);
      } else {
        SkeletonUnderCollapse(s[1..], run, started, EmptyLine, Newline);
      }
    }
  }

  /** Leading blanks do not show. */
  lemma {:induction false} SkeletonSkips(before: string, s: string, gap: Gap, last: Last)
    requires IsBlank(before) && s != "" && !IsSpace(s[0]) && !IsControl(s[0]) && HasNoControls(before)
    ensures SkeletonFrom(before + s, false, gap, last) == SkeletonFrom(s, false, Nothing, Other)
    decreases |before|
  {
    if before == "" {
      assert before + s == s;
      VisibleStart(s, gap, last);
      VisibleStart(s, Nothing, Other);
    } else {
      assert (before + s)[1..] == before[1..] + s;
      if before[0] == '\r' {
        SkeletonSkips(before[1..], s, Widened(gap, last != Other), Return);
      } else if before[0] == '\n' && last == Return {
        SkeletonSkips(before[1..], s, gap, Newline);
      } else if before[0] == '\n' {
        SkeletonSkips(before[1..], s, Widened(gap, last != Other), Newline);
      } else {
        SkeletonSkips(before[1..], s, if gap == Nothing then Blanks else gap, Other);
      }
    }
  }

  lemma VisibleStart(s: string, gap: Gap, last: Last)
    requires s != "" && !IsSpace(s[0]) && !IsControl(s[0])
    ensures SkeletonFrom(s, false, gap, last) == [s[0]] + SkeletonFrom(s[1..], true, Nothing, Other)
  {}

  lemma {:induction false} SkeletonOfBlank(s: string, started: bool, gap: Gap, last: Last)
    requires IsBlank(s)
    ensures SkeletonFrom(s, started, gap, last) == ""
    decreases |s|
  {
    if s != "" {
      var rest := s[1..];
      assert IsBlank(rest);
      SkeletonOfBlank(rest, started, gap, last);
      SkeletonOfBlank(rest, started, gap, Newline);
      SkeletonOfBlank(rest, started, Widened(gap, last != Other), Return);
      SkeletonOfBlank(rest, started, Widened(gap, last != Other), Newline);
      SkeletonOfBlank(rest, started, if gap == Nothing then Blanks else gap, Other);
    }
  }

  /** Trailing blanks do not show either. */
  lemma {:induction false} SkeletonEnds(s: string, after: string, started: bool, gap: Gap, last: Last)
    requires IsBlank(after)
    ensures SkeletonFrom(s + after, started, gap, last) == SkeletonFrom(s, started, gap, last)
    decreases |s|
  {
    if s == "" {
      assert s + after == after;
      SkeletonOfBlank(after, started, gap, last);
    } else {
      assert (s + after)[1..] == s[1..] + after;
      if IsControl(s[0]) {
        SkeletonEnds(s[1..], after, started, gap, last);
      } else if s[0] == '\r' {
        SkeletonEnds(s[1..], after, started, Widened(gap, last != Other), Return);
      } else if s[0] == '\n' && last == Return {
        SkeletonEnds(s[1..], after, started, gap, Newline);
      } else if s[0] == '\n' {
        SkeletonEnds(s[1..], after, started, Widened(gap, last != Other), Newline);
      } else if IsSpace(s[0]) {
        SkeletonEnds(s[1..], after, started, if gap == Nothing then Blanks else gap, Other);
      } else {
        SkeletonEnds(s[1..], after, true, Nothing, Other);
      }
    }
  }

  lemma SkeletonUnderStrip(s: string)
    requires HasNoControls(s)
    ensures Skeleton(Strip(s)) == Skeleton(s)
  {
    hide Strip, IsBlank;
    var before, after := StripSplits(s);
    var r := Strip(s);
    StripIsStripped(s);
    if r == "" {
      SkeletonOfBlank(s, false, Nothing, Other);
    } else {
      assert s == before + (r + after);
      assert forall i :: 0 <= i < |before| ==> before[i] == s[i];
      assert (r + after)[0] == r[0] == s[|before|];
      SkeletonSkips(before, r + after, Nothing, Other);
      SkeletonEnds(r, after, false, Nothing, Other);
    }
  }

  /** Cleaning keeps the words, the line breaks and the empty lines between them. */
  lemma CleanTextKeepsStructure(s: string)
    ensures Skeleton(CleanText(s)) == Skeleton(s)
  {
    hide RemoveControls, NormalizeNewlines, CollapseNewlines, Strip, SkeletonFrom;
    var a := RemoveControls(s);
    var b := NormalizeNewlines(a);
    var c := CollapseNewlines(b, 0);
    assert HasNoControls(a) by {
      assert forall i :: 0 <= i < |a| ==> a[i] in a;
    }
    NormalizeRemovesReturns(a);
    CollapseLeavesNoTriple(b, 0);
    assert HasNoControls(c) by {
      assert forall i :: 0 <= i < |c| ==> c[i] in c && c[i] in b;
    }
    SkeletonUnderRemove(s, false, Nothing, Other);
    SkeletonUnderNormalize(a, false, Nothing, Other);
    SkeletonUnderCollapse(b, 0, false, Nothing, Other);
    SkeletonUnderStrip(c);
  }

  // ----- paragraphs -----

  function JoinPieces(pieces: seq<string>): string {
    if pieces == [] then ""
    else if |pieces| == 1 then pieces[0]
    else pieces[0] + "\n\n" + JoinPieces(pieces[1..])
  }

  ghost predicate HasEmptyLine(s: string) {
    exists i :: 0 <= i < |s| - 1 && s[i] == '\n' && s[i + 1] == '\n'
  }

  lemma DropsNothing(s: string)
    requires |s| >= 2 && s[0] == '\n' && s[1] == '\n' && !HasTripleNewline(s)
    ensures DropNewlines(s[2..]) == s[2..]
  {
    if |s| > 2 {
      assert s[2..][0] == s[0 + 2];
    }
  }

  lemma RestHasNoTriple(s: string, n: nat)
    requires n <= |s| && !HasTripleNewline(s)
    ensures !HasTripleNewline(s[n..])
  {
    SliceHasNoTriple(s, n, |s|);
  }

  /** The pieces of a clean text are its parts between the empty lines: they have none inside, and joined by them they
      give the text back. */
  lemma {:induction false} PiecesJoinBack(s: string, piece: string)
    requires !HasTripleNewline(s) && !HasEmptyLine(piece)
    requires piece != "" && piece[|piece| - 1] == '\n' ==> s == "" || s[0] != '\n'
    ensures var pieces := Pieces(s, piece);
            && pieces != [] && JoinPieces(pieces) == piece + s
            && forall i :: 0 <= i < |pieces| ==> !HasEmptyLine(pieces[i])
    decreases |s|
  {
    hide Pieces, JoinPieces, HasTripleNewline, HasEmptyLine, DropNewlines;
    PiecesCases(s, piece);
    if s == "" {
      OnePiece(piece);
    } else if |s| >= 2 && s[0] == '\n' && s[1] == '\n' {
      DropsNothing(s);
      RestHasNoTriple(s, 2);
      EmptyHasNone();
      PiecesJoinBack(s[2..], "");
      BreakApart(piece, s, Pieces(s[2..], ""));
    } else {
      RestHasNoTriple(s, 1);
      LongerHasNone(piece, s);
      PiecesJoinBack(s[1..], piece + [s[0]]);
      OneFurther(piece, s);
    }
  }

  lemma OnePiece(piece: string)
    ensures JoinPieces([piece]) == piece + ""
  {}

  lemma OneFurther(piece: string, s: string)
    requires s != ""
    ensures piece + [s[0]] + s[1..] == piece + s
  {}

  lemma JoinPiecesCons(piece: string, rest: seq<string>)
    ensures JoinPieces([piece] + rest) == if rest == [] then piece else piece + "\n\n" + JoinPieces(rest)
  {
    assert ([piece] + rest)[1..] == rest;
  }

  lemma EmptyHasNone()
    ensures !HasEmptyLine("")
  {}

  lemma BreakApart(piece: string, s: string, rest: seq<string>)
    requires |s| >= 2 && s[0] == '\n' && s[1] == '\n' && rest != [] && JoinPieces(rest) == "" + s[2..]
    ensures JoinPieces([piece] + rest) == piece + s
  {
    hide JoinPieces;
    JoinPiecesCons(piece, rest);
    assert piece + "\n\n" + s[2..] == piece + s;
  }

  lemma LongerHasNone(piece: string, s: string)
    requires !HasEmptyLine(piece) && s != ""
    requires piece != "" && piece[|piece| - 1] == '\n' ==> s[0] != '\n'
    ensures !HasEmptyLine(piece + [s[0]])
  {
    var longer := piece + [s[0]];
    forall i | 0 <= i < |longer| - 1 ensures !(longer[i] == '\n' && longer[i + 1] == '\n') {
      if i < |piece| - 1 {
        assert longer[i] == piece[i] && longer[i + 1] == piece[i + 1];
      }
    }
  }

  /** The paragraphs of a clean text are its pieces between empty lines, stripped, without the blank ones. */
  lemma ParagraphsBetweenEmptyLines(text: string) returns (pieces: seq<string>)
    ensures JoinPieces(pieces) == CleanText(text) && forall i :: 0 <= i < |pieces| ==> !HasEmptyLine(pieces[i])
    ensures Paragraphs(CleanText(text)) == StripAll(pieces)
  {
    hide CleanText, HasTripleNewline;
    var content := CleanText(text);
    pieces := Pieces(content, "");
    CleanTextIsClean(text);
    PiecesJoinBack(content, "");
    assert "" + content == content;
  }

  // ----- lines -----

  /** Line feed to carriage return, the three information separators, next line, and line and paragraph separator. */
  predicate BreaksLine(c: char) {
    var code := c as int;
    code in {10, 11, 12, 13, 28, 29, 30, 0x85, 0x2028, 0x2029}
  }

  predicate HasNoBreak(line: string) {
    forall i :: 0 <= i < |line| ==> !BreaksLine(line[i])
  }

  lemma {:induction false} LinesHaveNoBreak(s: string, line: string)
    requires HasNoBreak(line)
    ensures forall i :: 0 <= i < |LinesFrom(s, line)| ==> HasNoBreak(LinesFrom(s, line)[i])
    decreases |s|
  {
    if s == "" {
    } else if s[0] == '\r' && |s| > 1 && s[1] == '\n' {
      LinesHaveNoBreak(s[2..], "");
    } else if IsLineBreak(s[0]) {
      LinesHaveNoBreak(s[1..], "");
    } else {
      LinesHaveNoBreak(s[1..], line + [s[0]]);
    }
  }

  lemma {:induction false} LineIsRead(piece: string, line: string, s: string)
    requires HasNoBreak(piece)
    ensures LinesFrom(piece + s, line) == LinesFrom(s, line + piece)
    decreases |piece|
  {
    if piece == "" {
      assert piece + s == s && line + piece == line;
    } else {
      assert (piece + s)[1..] == piece[1..] + s;
      assert line + [piece[0]] + piece[1..] == line + piece;
      LineIsRead(piece[1..], line + [piece[0]], s);
    }
  }

  /** Splitting undoes joining: no line has a break inside, and joined lines come back, unless an empty one is last. */
  lemma {:induction false} SplitUndoesJoin(lines: seq<string>)
    requires forall i :: 0 <= i < |lines| ==> HasNoBreak(lines[i])
    requires lines != [] ==> lines[|lines| - 1] != ""
    ensures SplitLines(JoinLines(lines)) == lines
  {
    if |lines| == 1 {
      LineIsRead(lines[0], "", "");
      assert lines[0] + "" == lines[0] && "" + lines[0] == lines[0];
    } else if |lines| > 1 {
      var first, rest := lines[0], JoinLines(lines[1..]);
      SplitUndoesJoin(lines[1..]);
      assert first + "\n" + rest == first + ("\n" + rest);
      LineIsRead(first, "", "\n" + rest);
      assert "" + first == first;
      assert ("\n" + rest)[1..] == rest;
      assert lines == [first] + lines[1..];
    }
  }

  /** And joining undoes splitting where '\n' is the only break: then the lines are exactly those of the text. */
  lemma {:induction false} JoinUndoesSplit(s: string, line: string)
    requires forall i :: 0 <= i < |s| && BreaksLine(s[i]) ==> s[i] == '\n'
    requires s != "" ==> s[|s| - 1] != '\n'
    ensures JoinLines(LinesFrom(s, line)) == line + s
    ensures s != "" ==> LinesFrom(s, line) != []
    decreases |s|
  {
    hide JoinLines;
    if s == "" {
      OneLine(line);
    } else if IsLineBreak(s[0]) {
      JoinUndoesSplit(s[1..], "");
      LineApart(line, s, LinesFrom(s[1..], ""));
    } else {
      JoinUndoesSplit(s[1..], line + [s[0]]);
      OneFurther(line, s);
    }
  }

  lemma OneLine(line: string)
    ensures JoinLines([line]) == line + "" && JoinLines([]) == "" && (line == "" ==> line + "" == "")
  {}

  lemma LineApart(line: string, s: string, rest: seq<string>)
    requires s != "" && s[0] == '\n' && JoinLines(rest) == "" + s[1..] && (s[1..] != "" ==> rest != [])
    requires s[|s| - 1] != '\n'
    ensures JoinLines([line] + rest) == line + s
  {
    assert ([line] + rest)[1..] == rest;
    assert line + "\n" + s[1..] == line + s;
  }

  /** Where the only breaks of a text are newlines, its sections are made of exactly the lines of the cleaned text. */
  lemma LinesOfCleanText(text: string)
    requires forall i :: 0 <= i < |CleanText(text)| && BreaksLine(CleanText(text)[i]) ==> CleanText(text)[i] == '\n'
    ensures JoinLines(SplitLines(CleanText(text))) == CleanText(text)
    ensures forall i :: 0 <= i < |SplitLines(CleanText(text))| ==> HasNoBreak(SplitLines(CleanText(text))[i])
  {
    hide CleanText, HasTripleNewline, JoinLines;
    var s := CleanText(text);
    CleanTextIsClean(text);
    JoinUndoesSplit(s, "");
    LinesHaveNoBreak(s, "");
    assert "" + s == s;
  }
}
