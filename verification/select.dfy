/** The candidate selector of make_all_section_divs, the XPath
    `//tei:body//tei:lb/following-sibling::text()[contains(., 'Art.')]`
    (scripts/refine_tei.py:126), as an explicit traversal. */
module Select {
  import opened Text
  import opened Tree

  /** A text run returned by the query. `owner` is the key of the element the
      run is attached to (lxml's `getparent()` of the string), `isTail`
      whether it is that element's tail (rather than its leading text), and
      `value` the run itself. */
  datatype Run = Run(owner: nat, isTail: bool, value: string)

  /** Some child at index `i` or before is an `lb`. */
  predicate LbAtOrBefore(s: seq<Element>, i: nat)
    requires i < |s|
  {
    s[i].tag == "lb" || (i > 0 && LbAtOrBefore(s, i - 1))
  }

  /** The runs selected below `e`, in document order; `under` says whether
      `e` is a `body` or lies inside one. */
  function Candidates(e: Element, under: bool): (r: seq<Run>)
    ensures forall k :: 0 <= k < |r| ==> r[k].isTail
    decreases e, |e.children| + 1
  {
    CandidatesFrom(e, under, 0)
  }

  /** The runs selected from the children `e.children[i..]` and their
      subtrees. A child's tail follows the child's own subtree in document
      order, so it comes after the runs found inside that child. The tail of
      a child is a following-sibling text node of every `lb` child at or
      before it. */
  function CandidatesFrom(e: Element, under: bool, i: nat): (r: seq<Run>)
    requires i <= |e.children|
    ensures forall k :: 0 <= k < |r| ==> r[k].isTail
    decreases e, |e.children| - i
  {
    if i == |e.children| then []
    else
      var c := e.children[i];
      var inner := Candidates(c, under || c.tag == "body");
      var own := if under && LbAtOrBefore(e.children, i) && HasSubstring(c.tail, "Art.")
        then [Run(c.key, true, c.tail)] else [];
      inner + own + CandidatesFrom(e, under, i + 1)
  }

  /** The query evaluated on a document root. */
  function ArticleCandidates(root: Element): seq<Run> {
    Candidates(root, root.tag == "body")
  }

  /** The run attached as tail to the element at `p`. */
  function TailRunAt(e: Element, p: Path): Run
    requires ValidPath(e, p)
  {
    Run(Get(e, p).key, true, Get(e, p).tail)
  }

  /** The query's meaning stated per path: the tail of the element at `p`
      is selected when its parent is a `body` or inside one, an `lb`
      sibling comes at or before it, and the tail contains `Art.`. */
  ghost predicate Selects(e: Element, under: bool, p: Path)
    decreases p
  {
    && |p| >= 1 && p[0] < |e.children|
    && var c := e.children[p[0]];
       if |p| == 1 then under && LbAtOrBefore(e.children, p[0]) && Contains(c.tail, "Art.")
       else Selects(c, under || c.tag == "body", p[1..])
  }

  lemma {:induction false} SelectsValid(e: Element, under: bool, p: Path)
    requires Selects(e, under, p)
    ensures ValidPath(e, p)
    decreases p
  {
    if |p| > 1 {
      var c := e.children[p[0]];
      SelectsValid(c, under || c.tag == "body", p[1..]);
    }
  }

  /** Every run the traversal returns is the tail of a selected element. */
  lemma {:induction false} CandidateSound(e: Element, under: bool, i: nat, r: Run)
    requires i <= |e.children| && r in CandidatesFrom(e, under, i)
    ensures exists p :: Selects(e, under, p) && p[0] >= i && ValidPath(e, p) && r == TailRunAt(e, p)
    decreases e, |e.children| - i
  {
    var c := e.children[i];
    var u := under || c.tag == "body";
    var own := if under && LbAtOrBefore(e.children, i) && HasSubstring(c.tail, "Art.")
      then [Run(c.key, true, c.tail)] else [];
    assert CandidatesFrom(e, under, i) == Candidates(c, u) + own + CandidatesFrom(e, under, i + 1);
    if r in Candidates(c, u) {
      CandidateSound(c, u, 0, r);
      var q :| Selects(c, u, q) && ValidPath(c, q) && r == TailRunAt(c, q);
      var p := [i] + q;
      assert p[1..] == q;
      assert Selects(e, under, p);
      assert r == TailRunAt(e, p);
    } else if r in own {
      assert [i][1..] == [];
      assert Get(e, [i]) == c;
      assert Selects(e, under, [i]);
      assert ValidPath(e, [i]) && [i][0] >= i;
      assert r == TailRunAt(e, [i]);
    } else {
      CandidateSound(e, under, i + 1, r);
    }
  }

  /** Every selected tail is among the runs the traversal returns. */
  lemma {:induction false} CandidateComplete(e: Element, under: bool, i: nat, p: Path)
    requires i <= |e.children| && Selects(e, under, p) && p[0] >= i
    ensures ValidPath(e, p) && TailRunAt(e, p) in CandidatesFrom(e, under, i)
    decreases e, |e.children| - i
  {
    SelectsValid(e, under, p);
    var c := e.children[i];
    var u := under || c.tag == "body";
    var own := if under && LbAtOrBefore(e.children, i) && HasSubstring(c.tail, "Art.")
      then [Run(c.key, true, c.tail)] else [];
    assert CandidatesFrom(e, under, i) == Candidates(c, u) + own + CandidatesFrom(e, under, i + 1);
    if p[0] > i {
      CandidateComplete(e, under, i + 1, p);
    } else if |p| == 1 {
      assert p == [i] && p[1..] == [];
      assert Get(e, p) == c;
      assert TailRunAt(e, p) in own;
    } else {
      CandidateComplete(c, u, 0, p[1..]);
      assert TailRunAt(e, p) == TailRunAt(c, p[1..]);
    }
  }

  /** The traversal returns exactly the tails the query selects. (That
      every run is marked as a tail holds by construction: the traversal
      only ever collects tails.) */
  lemma ArticleCandidatesExact(root: Element, r: Run)
    ensures r in ArticleCandidates(root) <==>
      exists p :: Selects(root, root.tag == "body", p) && ValidPath(root, p) && r == TailRunAt(root, p)
    ensures r in ArticleCandidates(root) ==> r.isTail
  {
    var under := root.tag == "body";
    if r in ArticleCandidates(root) {
      CandidateSound(root, under, 0, r);
    }
    if exists p :: Selects(root, under, p) && ValidPath(root, p) && r == TailRunAt(root, p) {
      var p :| Selects(root, under, p) && ValidPath(root, p) && r == TailRunAt(root, p);
      CandidateComplete(root, under, 0, p);
    }
  }

  /** Every run the query returns hangs on an element of the document. */
  lemma CandidateOwners(root: Element)
    ensures var runs := ArticleCandidates(root);
      forall i :: 0 <= i < |runs| ==> Count(root, runs[i].owner) > 0
  {
    var runs := ArticleCandidates(root);
    forall i | 0 <= i < |runs|
      ensures Count(root, runs[i].owner) > 0
    {
      ArticleCandidatesExact(root, runs[i]);
      var p :| Selects(root, root.tag == "body", p) && ValidPath(root, p) && runs[i] == TailRunAt(root, p);
      GetCounted(root, p);
    }
  }

  /** No two runs hang on the same element. */
  predicate DistinctOwners(runs: seq<Run>) {
    forall i, j :: 0 <= i < j < |runs| ==> runs[i].owner != runs[j].owner
  }

  lemma DistinctConcat(a: seq<Run>, b: seq<Run>)
    requires DistinctOwners(a) && DistinctOwners(b)
    requires forall x, y :: x in a && y in b ==> x.owner != y.owner
    ensures DistinctOwners(a + b)
  {
    var s := a + b;
    forall i, j | 0 <= i < j < |s|
      ensures s[i].owner != s[j].owner
    {
      if j < |a| {
        assert s[i] == a[i] && s[j] == a[j];
      } else if i >= |a| {
        assert s[i] == b[i - |a|] && s[j] == b[j - |a|];
      } else {
        assert s[i] in a && s[j] == b[j - |a|] && s[j] in b;
      }
    }
  }

  /** A run from the children `i..` hangs on an element inside them. */
  lemma OwnerWithin(e: Element, under: bool, i: nat, r: Run)
    requires i <= |e.children| && r in CandidatesFrom(e, under, i)
    ensures CountIn(e.children[i..], r.owner) > 0
  {
    CandidateSound(e, under, i, r);
    var p :| Selects(e, under, p) && p[0] >= i && ValidPath(e, p) && r == TailRunAt(e, p);
    GetCounted(e.children[p[0]], p[1..]);
    assert e.children[i..][p[0] - i] == e.children[p[0]];
    CountInChild(e.children[i..], p[0] - i, r.owner);
  }

  /** With unique keys, the traversal never returns two runs of the same
      element. */
  lemma {:induction false} CandidatesDistinct(e: Element, under: bool, i: nat)
    requires i <= |e.children| && Unique(e)
    ensures DistinctOwners(CandidatesFrom(e, under, i))
    decreases e, |e.children| - i
  {
    if i < |e.children| {
      var c := e.children[i];
      var u := under || c.tag == "body";
      var inner := Candidates(c, u);
      var own := if under && LbAtOrBefore(e.children, i) && HasSubstring(c.tail, "Art.")
        then [Run(c.key, true, c.tail)] else [];
      var rest := CandidatesFrom(e, under, i + 1);
      assert CandidatesFrom(e, under, i) == inner + (own + rest);
      assert Unique(c) by {
        forall k: nat
          ensures Count(c, k) <= 1
        {
          CountInChild(e.children, i, k);
          assert Count(e, k) <= 1;
        }
      }
      CandidatesDistinct(c, u, 0);
      CandidatesDistinct(e, under, i + 1);
      assert e.children[i..][1..] == e.children[i + 1..];
      forall y | y in rest
        ensures y.owner != c.key && CountIn(e.children[i + 1..], y.owner) > 0
      {
        OwnerWithin(e, under, i + 1, y);
        CountInSplit(e.children, i, y.owner);
        assert Count(e, y.owner) <= 1;
        assert Count(c, c.key) >= 1;
      }
      forall x, y | x in inner && y in own + rest
        ensures x.owner != y.owner
      {
        OwnerWithin(c, u, 0, x);
        assert c.children[0..] == c.children;
        CountInSplit(e.children, i, x.owner);
        assert Count(e, x.owner) <= 1 && Count(c, x.owner) <= 1;
        assert Count(c, x.owner) >= 1;
      }
      DistinctConcat(own, rest);
      DistinctConcat(inner, own + rest);
    }
  }

  /** On a document with unique keys, the query's runs hang on distinct
      elements of the document, none of them the root. */
  lemma CandidateOwnersReady(root: Element)
    requires Unique(root)
    ensures var runs := ArticleCandidates(root);
      && DistinctOwners(runs)
      && forall i :: 0 <= i < |runs| ==> runs[i].owner != root.key && Count(root, runs[i].owner) > 0
  {
    var runs := ArticleCandidates(root);
    CandidatesDistinct(root, root.tag == "body", 0);
    CandidateOwners(root);
    forall i | 0 <= i < |runs|
      ensures runs[i].owner != root.key
    {
      OwnerWithin(root, root.tag == "body", 0, runs[i]);
      assert root.children[0..] == root.children;
    }
  }
}
