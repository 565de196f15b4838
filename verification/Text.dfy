/** Python's whitespace and strip(), lstrip(), rstrip(). */
module Text {

  /** str.isspace() of one character. */
  predicate IsSpace(c: char) {
    || '\t' <= c <= '\r'
    || '\U{1c}' <= c <= ' '
    || c == '\U{85}' || c == '\U{a0}' || c == '\U{1680}'
    || '\U{2000}' <= c <= '\U{200a}'
    || c == '\U{2028}' || c == '\U{2029}' || c == '\U{202f}' || c == '\U{205f}' || c == '\U{3000}'
  }

  predicate IsBlank(s: string) {
    forall i :: 0 <= i < |s| ==> IsSpace(s[i])
  }

  /** What is left of s without its surrounding whitespace begins and ends with a visible character. */
  predicate IsStripped(s: string) {
    s != "" ==> !IsSpace(s[0]) && !IsSpace(s[|s| - 1])
  }

  function RStrip(s: string): (r: string)
    ensures r <= s
    ensures r != "" ==> !IsSpace(r[|r| - 1])
    ensures IsBlank(s[|r|..])
  {
    if s != "" && IsSpace(s[|s| - 1]) then
      var r := RStrip(s[..|s| - 1]);
      assert s[|r|..] == s[..|s| - 1][|r|..] + [s[|s| - 1]];
      r
    else s
  }

  function LStrip(s: string): (r: string)
    ensures |r| <= |s| && r == s[|s| - |r|..]
    ensures r != "" ==> !IsSpace(r[0])
    ensures IsBlank(s[..|s| - |r|])
  {
    if s != "" && IsSpace(s[0]) then
      var r := LStrip(s[1..]);
      assert s[..|s| - |r|] == [s[0]] + s[1..][..|s| - 1 - |r|];
      assert r == s[1..][|s| - 1 - |r|..] == s[|s| - |r|..];
      r
    else s
  }

  function Strip(s: string): string {
    RStrip(LStrip(s))
  }

  lemma StripIsStripped(s: string)
    ensures IsStripped(Strip(s))
    ensures |Strip(s)| <= |s|
    ensures Strip(s) == "" <==> IsBlank(s)
  {
    var l := LStrip(s);
    var r := RStrip(l);
    if r == "" {
      assert l[0..] == l;
      assert IsBlank(l);
      assert s == s[..|s| - |l|] + l;
    } else {
      assert l[0] == r[0];
      assert s[|s| - |l|] == r[0];
    }
  }

  lemma StripOfStripped(s: string)
    requires IsStripped(s)
    ensures Strip(s) == s
  {}

  lemma SplitAt(s: string, n: nat)
    requires n <= |s|
    ensures s == s[..n] + s[n..]
  {}

  /** Stripping cuts a whole prefix and a whole suffix of whitespace off. */
  lemma StripSplits(s: string) returns (before: string, after: string)
    ensures s == before + Strip(s) + after
    ensures IsBlank(before) && IsBlank(after)
  {
    hide LStrip, RStrip, IsBlank;
    var l := LStrip(s);
    before, after := s[..|s| - |l|], l[|RStrip(l)|..];
    SplitAt(s, |s| - |l|);
    SplitAt(l, |RStrip(l)|);
    assert before + l == before + RStrip(l) + after;
  }
}
