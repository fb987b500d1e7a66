/** The article-marker test `re.match(r"^Art\.?( *$| .{0,10}$)", run.strip())`
    (scripts/refine_tei.py:78, pattern at :127). */
module Marker {
  import opened Text

  /** Python's `$` without MULTILINE matches at the end of the string or just
      before a newline that ends it: the part of `u` that `$` must reach. */
  function BeforeEnd(u: string): (b: string)
    ensures b == u || (u == b + "\n")
  {
    if |u| > 0 && u[|u| - 1] == '\n' then u[..|u| - 1] else u
  }

  predicate OnlyBlanks(u: string) {
    forall i :: 0 <= i < |u| ==> u[i] == ' '
  }

  predicate NoNewline(u: string) {
    forall i :: 0 <= i < |u| ==> u[i] != '\n'
  }

  /** What may follow `Art` or `Art.`: the group `( *$| .{0,10}$)`. */
  predicate LabelRest(u: string) {
    var b := BeforeEnd(u);
    OnlyBlanks(b) || (1 <= |b| <= 11 && b[0] == ' ' && NoNewline(b[1..]))
  }

  /** The whole pattern, `\.?` trying both with and without the period. */
  predicate ArticleLabel(s: string) {
    && |s| >= 3 && s[..3] == "Art"
    && (LabelRest(s[3..]) || (|s| >= 4 && s[3] == '.' && LabelRest(s[4..])))
  }

  /** The test applied to a candidate run: the run is stripped first. */
  predicate IsArticleMarker(run: string) {
    ArticleLabel(Strip(run))
  }

  /** A scan of the rest after `Art`/`Art.`, deciding `LabelRest`. */
  method MatchRest(u: string) returns (b: bool)
    ensures b <==> LabelRest(u)
  {
    var n := |u|;
    if n > 0 && u[n - 1] == '\n' {
      n := n - 1;
    }
    var i := 0;
    while i < n && u[i] == ' '
      invariant 0 <= i <= n
      invariant forall j :: 0 <= j < i ==> u[j] == ' '
    {
      i := i + 1;
    }
    if i == n {
      return true;
    }
    if u[0] != ' ' || n > 11 {
      return false;
    }
    var k := 1;
    while k < n && u[k] != '\n'
      invariant 1 <= k <= n
      invariant forall j :: 1 <= j < k ==> u[j] != '\n'
    {
      k := k + 1;
    }
    b := k == n;
    assert BeforeEnd(u) == u[..n];
  }

  /** A left-to-right matcher for the article pattern, equivalent to the
      declarative reading of the regular expression. */
  method MatchArticleLabel(s: string) returns (b: bool)
    ensures b <==> ArticleLabel(s)
  {
    if |s| < 3 || s[..3] != "Art" {
      return false;
    }
    b := MatchRest(s[3..]);
    if !b && |s| >= 4 && s[3] == '.' {
      b := MatchRest(s[4..]);
    }
  }

  /** The accepted shapes spelled out: `Art`, `Art.`, or either of them
      followed by one space and at most ten characters without a newline. */
  predicate MarkerShape(t: string) {
    && |t| >= 3 && t[..3] == "Art"
    && (|| |t| == 3
        || (|t| == 4 && t[3] == '.')
        || (t[3] == ' ' && |t| <= 14 && NoNewline(t[4..]))
        || (|t| >= 5 && t[3] == '.' && t[4] == ' ' && |t| <= 15 && NoNewline(t[5..])))
  }

  /** On a string that does not end in whitespace (as a stripped run never
      does) the pattern accepts exactly the shapes of `MarkerShape`. */
  lemma LabelShape(t: string)
    requires |t| == 0 || !IsSpace(t[|t| - 1])
    ensures ArticleLabel(t) <==> MarkerShape(t)
  {
    if |t| >= 4 {
      assert BeforeEnd(t[3..]) == t[3..];
      assert t[3..][1..] == t[4..];
    }
    if |t| >= 5 {
      assert BeforeEnd(t[4..]) == t[4..];
      assert t[4..][1..] == t[5..];
    }
  }

  /** The marker test on a run is the shape test on the stripped run. */
  lemma MarkerIffShape(run: string)
    ensures IsArticleMarker(run) <==> MarkerShape(Strip(run))
  {
    LabelShape(Strip(run));
  }

  /** A string with no surrounding whitespace is its own strip. */
  lemma StripUnchanged(s: string)
    requires |s| > 0 && !IsSpace(s[0]) && !IsSpace(s[|s| - 1])
    ensures Strip(s) == s
  {
    assert TrimStart(s) == s;
    assert TrimEnd(s) == s;
  }

  /** A run without surrounding whitespace is accepted exactly when it has
      one of the marker shapes. */
  lemma UnpaddedMarker(s: string)
    requires |s| > 0 && !IsSpace(s[0]) && !IsSpace(s[|s| - 1])
    ensures IsArticleMarker(s) <==> MarkerShape(s)
  {
    StripUnchanged(s);
    LabelShape(s);
  }

  lemma AcceptsNumberedArticle()
    ensures IsArticleMarker("Art. 12")
  {
    UnpaddedMarker("Art. 12");
  }

  lemma RejectsLongerWord()
    ensures !IsArticleMarker("Artikel 12")
  {
    UnpaddedMarker("Artikel 12");
  }

  lemma RejectsLongLabel()
    ensures !IsArticleMarker("Art. 12345678901")
  {
    UnpaddedMarker("Art. 12345678901");
  }
}
