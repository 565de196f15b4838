/** Cleaning text and cutting it into paragraphs, without losing a visible character. */
module Cleaning {
  import opened Text

  // ----- clean_text -----

  predicate IsControl(c: char) {
    '\U{0}' <= c <= '\U{8}' || c == '\U{b}' || c == '\U{c}' || '\U{e}' <= c <= '\U{1f}' || c == '\U{7f}'
  }

  function RemoveControls(s: string): (r: string)
    ensures forall c :: c in r ==> !IsControl(c)
  {
    if s == "" then ""
    else if IsControl(s[0]) then RemoveControls(s[1..])
    else [s[0]] + RemoveControls(s[1..])
  }

  /** Every "\r\n" and every other '\r' becomes '\n'. */
  function NormalizeNewlines(s: string): string {
    if s == "" then ""
    else if s[0] == '\r' then "\n" + NormalizeNewlines(if |s| > 1 && s[1] == '\n' then s[2..] else s[1..])
    else [s[0]] + NormalizeNewlines(s[1..])
  }

  /** Runs of three or more newlines become two; run counts the newlines just before s, up to two. */
  function CollapseNewlines(s: string, run: nat): string {
    if s == "" then ""
    else if s[0] != '\n' then [s[0]] + CollapseNewlines(s[1..], 0)
    else if run < 2 then "\n" + CollapseNewlines(s[1..], run + 1)
    else CollapseNewlines(s[1..], run)
  }

  function CleanText(s: string): string {
    Strip(CollapseNewlines(NormalizeNewlines(RemoveControls(s)), 0))
  }

  ghost predicate HasTripleNewline(s: string) {
    exists i :: 0 <= i < |s| - 2 && s[i] == '\n' && s[i + 1] == '\n' && s[i + 2] == '\n'
  }

  /** Neither control characters nor '\r', no three newlines in a row, no surrounding whitespace. */
  ghost predicate IsClean(s: string) {
    && (forall i :: 0 <= i < |s| ==> !IsControl(s[i]) && s[i] != '\r')
    && !HasTripleNewline(s)
    && IsStripped(s)
  }

  lemma {:induction false} NormalizeRemovesReturns(s: string)
    requires forall i :: 0 <= i < |s| ==> !IsControl(s[i])
    ensures forall i :: 0 <= i < |NormalizeNewlines(s)| ==>
              !IsControl(NormalizeNewlines(s)[i]) && NormalizeNewlines(s)[i] != '\r'
  {
    if s != "" {
      NormalizeRemovesReturns(if s[0] == '\r' && |s| > 1 && s[1] == '\n' then s[2..] else s[1..]);
    }
  }

  /** The newlines a text starts with. */
  function LeadingNewlines(s: string): nat {
    if s == "" || s[0] != '\n' then 0 else 1 + LeadingNewlines(s[1..])
  }

  lemma TwoLeadingNewlines(s: string)
    ensures LeadingNewlines(s) >= 2 <==> |s| >= 2 && s[0] == '\n' && s[1] == '\n'
  {}

  lemma TripleNewlineCons(c: char, s: string)
    ensures HasTripleNewline([c] + s) <==> HasTripleNewline(s) || (c == '\n' && LeadingNewlines(s) >= 2)
  {
    hide LeadingNewlines;
    var t := [c] + s;
    TwoLeadingNewlines(s);
    if HasTripleNewline(s) {
      var i :| 0 <= i < |s| - 2 && s[i] == '\n' && s[i + 1] == '\n' && s[i + 2] == '\n';
      assert t[i + 1] == '\n' && t[i + 1 + 1] == '\n' && t[i + 1 + 2] == '\n';
    }
    if c == '\n' && LeadingNewlines(s) >= 2 {
      assert t[0] == '\n' && t[0 + 1] == '\n' && t[0 + 2] == '\n';
    }
    if HasTripleNewline(t) {
      var i :| 0 <= i < |t| - 2 && t[i] == '\n' && t[i + 1] == '\n' && t[i + 2] == '\n';
      if i > 0 {
        assert s[i - 1] == '\n' && s[i - 1 + 1] == '\n' && s[i - 1 + 2] == '\n';
      }
    }
  }

  lemma {:induction false} CollapseLeavesNoTriple(s: string, run: nat)
    requires run <= 2
    ensures !HasTripleNewline(CollapseNewlines(s, run))
    ensures LeadingNewlines(CollapseNewlines(s, run)) + run <= 2
    ensures forall c :: c in CollapseNewlines(s, run) ==> c in s
  {
    if s != "" {
      if s[0] != '\n' {
        CollapseLeavesNoTriple(s[1..], 0);
        TripleNewlineCons(s[0], CollapseNewlines(s[1..], 0));
      } else if run < 2 {
        CollapseLeavesNoTriple(s[1..], run + 1);
        TripleNewlineCons('\n', CollapseNewlines(s[1..], run + 1));
        assert ("\n" + CollapseNewlines(s[1..], run + 1))[1..] == CollapseNewlines(s[1..], run + 1);
      } else {
        CollapseLeavesNoTriple(s[1..], run);
      }
    }
  }

  lemma SliceHasNoTriple(s: string, i: nat, j: nat)
    requires i <= j <= |s| && !HasTripleNewline(s)
    ensures !HasTripleNewline(s[i..j])
  {
    var t := s[i..j];
    forall k | 0 <= k < |t| - 2 ensures !(t[k] == '\n' && t[k + 1] == '\n' && t[k + 2] == '\n') {
      var m := i + k;
      assert t[k] == s[m] && t[k + 1] == s[m + 1] && t[k + 2] == s[m + 2];
    }
  }

  lemma StripKeepsClean(b: string)
    requires forall i :: 0 <= i < |b| ==> !IsControl(b[i]) && b[i] != '\r'
    requires !HasTripleNewline(b)
    ensures IsClean(Strip(b))
  {
    hide Strip, RStrip, LStrip, HasTripleNewline, IsBlank;
    var before, after := StripSplits(b);
    var r := Strip(b);
    StripIsStripped(b);
    assert b[|before|..|before| + |r|] == r;
    SliceHasNoTriple(b, |before|, |before| + |r|);
    forall i | 0 <= i < |r| ensures !IsControl(r[i]) && r[i] != '\r' {
      assert b[|before| + i] == r[i];
    }
  }

  lemma CleanTextIsClean(s: string)
    ensures IsClean(CleanText(s))
  {
    var a := NormalizeNewlines(RemoveControls(s));
    var b := CollapseNewlines(a, 0);
    NormalizeRemovesReturns(RemoveControls(s));
    CollapseLeavesNoTriple(a, 0);
    forall i | 0 <= i < |b| ensures !IsControl(b[i]) && b[i] != '\r' {
      assert b[i] in b && b[i] in a;
    }
    StripKeepsClean(b);
  }

  lemma FewLeadingNewlines(s: string)
    requires !HasTripleNewline(s)
    ensures LeadingNewlines(s) <= 2
  {
    if s != "" && s[0] == '\n' {
      var t := s[1..];
      if t != "" && t[0] == '\n' {
        var u := t[1..];
        assert u != "" ==> u[0] == s[0 + 2] && s[0 + 1] == '\n' && s[0] == '\n';
        assert LeadingNewlines(u) == 0;
      }
    }
  }

  lemma {:induction false} CollapseOfClean(s: string, run: nat)
    requires !HasTripleNewline(s) && run + LeadingNewlines(s) <= 2
    ensures CollapseNewlines(s, run) == s
  {
    if s != "" {
      assert s == [s[0]] + s[1..];
      TripleNewlineCons(s[0], s[1..]);
      FewLeadingNewlines(s[1..]);
      if s[0] != '\n' {
        CollapseOfClean(s[1..], 0);
      } else {
        CollapseOfClean(s[1..], run + 1);
      }
    }
  }

  lemma {:induction false} NormalizeOfClean(s: string)
    requires forall i :: 0 <= i < |s| ==> !IsControl(s[i]) && s[i] != '\r'
    ensures RemoveControls(s) == s && NormalizeNewlines(s) == s
  {
    if s != "" {
      NormalizeOfClean(s[1..]);
    }
  }

  /** A clean text is left alone. */
  lemma CleanTextLeavesClean(s: string)
    ensures IsClean(s) ==> CleanText(s) == s
  {
    hide RemoveControls, NormalizeNewlines, CollapseNewlines, Strip, HasTripleNewline, IsControl;
    if IsClean(s) {
      NormalizeOfClean(s);
      assert s == "" || !IsSpace(s[0]);
      CollapseOfClean(s, 0);
      StripOfStripped(s);
    }
  }

  /** Cleaning twice is cleaning once. */
  lemma CleanTextIsIdempotent(text: string)
    ensures CleanText(CleanText(text)) == CleanText(text)
  {
    hide CleanText, IsClean;
    CleanTextIsClean(text);
    CleanTextLeavesClean(CleanText(text));
  }

  predicate IsVisible(c: char) {
    !IsSpace(c) && !IsControl(c)
  }

  function VisiblePart(c: char): string {
    if IsVisible(c) then [c] else ""
  }

  /** The visible characters of a text, in order. */
  function Visible(s: string): string {
    if s == "" then ""
    else VisiblePart(s[0]) + Visible(s[1..])
  }

  lemma {:induction false} VisibleOfConcat(a: string, b: string)
    ensures Visible(a + b) == Visible(a) + Visible(b)
  {
    hide Visible;
    if a == "" {
      assert a + b == b;
      VisibleAllCons(a, []);
    } else {
      assert (a + b)[1..] == a[1..] + b;
      VisibleOfConcat(a[1..], b);
      VisibleFirst(a);
      VisibleFirst(a + b);
    }
  }

  lemma VisibleFirst(s: string)
    requires s != ""
    ensures Visible(s) == VisiblePart(s[0]) + Visible(s[1..])
  {}

  lemma {:induction false} VisibleOfBlank(s: string)
    requires IsBlank(s)
    ensures Visible(s) == ""
  {
    if s != "" {
      VisibleOfBlank(s[1..]);
    }
  }

  lemma {:induction false} VisibleUnderRemove(s: string)
    ensures Visible(RemoveControls(s)) == Visible(s)
  {
    if s != "" {
      VisibleUnderRemove(s[1..]);
      if !IsControl(s[0]) {
        assert RemoveControls(s)[1..] == RemoveControls(s[1..]);
      }
    }
  }

  lemma {:induction false} VisibleUnderNormalize(s: string)
    ensures Visible(NormalizeNewlines(s)) == Visible(s)
  {
    if s != "" {
      var r := NormalizeNewlines(s);
      if s[0] == '\r' && |s| > 1 && s[1] == '\n' {
        VisibleUnderNormalize(s[2..]);
        assert r[1..] == NormalizeNewlines(s[2..]) && s[1..][1..] == s[2..];
      } else {
        VisibleUnderNormalize(s[1..]);
        assert r[1..] == NormalizeNewlines(s[1..]);
      }
    }
  }

  lemma {:induction false} VisibleUnderCollapse(s: string, run: nat)
    ensures Visible(CollapseNewlines(s, run)) == Visible(s)
  {
    if s != "" {
      var r := CollapseNewlines(s, run);
      if s[0] != '\n' {
        VisibleUnderCollapse(s[1..], 0);
        assert r[1..] == CollapseNewlines(s[1..], 0);
      } else if run < 2 {
        VisibleUnderCollapse(s[1..], run + 1);
        assert r[1..] == CollapseNewlines(s[1..], run + 1);
      } else {
        VisibleUnderCollapse(s[1..], run);
      }
    }
  }

  lemma VisibleUnderStrip(s: string)
    ensures Visible(Strip(s)) == Visible(s)
  {
    var before, after := StripSplits(s);
    VisibleOfBlank(before);
    VisibleOfBlank(after);
    VisibleOfConcat(before + Strip(s), after);
    VisibleOfConcat(before, Strip(s));
  }

  /** Cleaning loses no visible character, adds none and keeps their order. */
  lemma CleanTextKeepsVisible(s: string)
    ensures Visible(CleanText(s)) == Visible(s)
    ensures CleanText(s) == "" <==> Visible(s) == ""
  {
    var a := RemoveControls(s);
    var b := NormalizeNewlines(a);
    var c := CollapseNewlines(b, 0);
    VisibleUnderRemove(s);
    VisibleUnderNormalize(a);
    VisibleUnderCollapse(b, 0);
    VisibleUnderStrip(c);
    CleanTextIsClean(s);
    var r := CleanText(s);
    if r != "" {
      assert IsVisible(r[0]);
    }
  }

  // ----- paragraphs -----

  function DropNewlines(s: string): (r: string)
    ensures |r| <= |s| && r == s[|s| - |r|..] && IsBlank(s[..|s| - |r|])
  {
    if s != "" && s[0] == '\n' then
      var r := DropNewlines(s[1..]);
      assert s[..|s| - |r|] == [s[0]] + s[1..][..|s| - 1 - |r|];
      r
    else s
  }

  /** re.split(r'\n{2,}', s), with the piece being read so far. */
  function Pieces(s: string, piece: string): seq<string>
    decreases |s|
  {
    if s == "" then [piece]
    else if |s| >= 2 && s[0] == '\n' && s[1] == '\n' then [piece] + Pieces(DropNewlines(s[2..]), "")
    else Pieces(s[1..], piece + [s[0]])
  }

  function StripAll(pieces: seq<string>): seq<string> {
    if pieces == [] then []
    else (if Strip(pieces[0]) == "" then [] else [Strip(pieces[0])]) + StripAll(pieces[1..])
  }

  function Paragraphs(content: string): seq<string> {
    StripAll(Pieces(content, ""))
  }

  function VisibleAll(parts: seq<string>): string {
    if parts == [] then "" else Visible(parts[0]) + VisibleAll(parts[1..])
  }

  lemma VisibleAfterBreak(s: string)
    requires |s| >= 2 && s[0] == '\n' && s[1] == '\n'
    ensures Visible(DropNewlines(s[2..])) == Visible(s)
  {
    hide DropNewlines, IsBlank;
    var tail := s[2..];
    var rest := DropNewlines(tail);
    var dropped := tail[..|tail| - |rest|];
    assert tail == dropped + rest;
    VisibleOfConcat(dropped, rest);
    VisibleOfBlank(dropped);
    assert s[1..][1..] == tail;
  }

  lemma {:induction false} PiecesKeepVisible(s: string, piece: string)
    ensures VisibleAll(Pieces(s, piece)) == Visible(piece) + Visible(s)
    decreases |s|
  {
    hide DropNewlines, Visible, VisibleAll, Pieces;
    VisibleAllCons(piece, []);
    PiecesCases(s, piece);
    if s == "" {
      assert [piece] + [] == [piece];
    } else if |s| >= 2 && s[0] == '\n' && s[1] == '\n' {
      var rest := DropNewlines(s[2..]);
      PiecesKeepVisible(rest, "");
      VisibleAfterBreak(s);
      VisibleAllCons(piece, Pieces(rest, ""));
    } else {
      PiecesKeepVisible(s[1..], piece + [s[0]]);
      VisibleOfConcat(piece, [s[0]]);
      VisibleOfConcat([s[0]], s[1..]);
      assert [s[0]] + s[1..] == s;
    }
  }

  lemma PiecesCases(s: string, piece: string)
    ensures Pieces(s, piece) ==
            if s == "" then [piece]
            else if |s| >= 2 && s[0] == '\n' && s[1] == '\n' then [piece] + Pieces(DropNewlines(s[2..]), "")
            else Pieces(s[1..], piece + [s[0]])
  {
    hide DropNewlines;
  }

  lemma VisibleAllCons(line: string, lines: seq<string>)
    ensures VisibleAll([line] + lines) == Visible(line) + VisibleAll(lines)
    ensures VisibleAll([]) == Visible("") == ""
  {
    hide IsVisible;
    assert ([line] + lines)[1..] == lines;
  }

  lemma {:induction false} StripAllKeepsVisible(pieces: seq<string>)
    ensures VisibleAll(StripAll(pieces)) == VisibleAll(pieces)
    ensures forall i :: 0 <= i < |StripAll(pieces)| ==> StripAll(pieces)[i] != "" && IsStripped(StripAll(pieces)[i])
  {
    hide Strip, Visible, IsStripped;
    if pieces != [] {
      StripAllKeepsVisible(pieces[1..]);
      StripIsStripped(pieces[0]);
      VisibleUnderStrip(pieces[0]);
      if Strip(pieces[0]) != "" {
        assert StripAll(pieces)[1..] == StripAll(pieces[1..]);
      } else {
        VisibleOfBlank("");
        assert StripAll(pieces) == StripAll(pieces[1..]);
      }
    }
  }

  /** The paragraphs hold exactly the visible characters of the content, in order; each is stripped and not empty. */
  lemma ParagraphsKeepVisible(content: string)
    ensures VisibleAll(Paragraphs(content)) == Visible(content)
    ensures forall i :: 0 <= i < |Paragraphs(content)| ==>
        Paragraphs(content)[i] != "" && IsStripped(Paragraphs(content)[i])
  {
    PiecesKeepVisible(content, "");
    StripAllKeepsVisible(Pieces(content, ""));
  }
}
