/** `make_all_section_divs` (scripts/refine_tei.py:121-141): seed an
    article division at every article marker, raise each one to the child
    level of a `div`, then let each absorb the content after it. The
    divisions are held by key, as the Python code holds element objects;
    keys are unique in the document, and the pass hands out new keys from
    `next` on, which no element uses yet. */
module Segment {
  import opened Text
  import opened Tree
  import opened Census
  import opened Marker
  import opened Select
  import opened Seed
  import opened Raise
  import opened Expand

  /** The `ana` value of article divisions. */
  const ArticleAna := "article"

  /** Every key occurs in `t` as often as in `tree`, and each of the keys
      `lo`, ..., `hi - 1` once more: nothing lost or duplicated, and
      exactly the new elements added. */
  ghost predicate Grown(tree: Element, t: Element, lo: nat, hi: nat) {
    lo <= hi && forall k :: Count(t, k) == Count(tree, k) + Fresh(lo, hi, k)
  }

  /** Growing a tree of unique keys below `lo` by the keys `lo`, ...,
      `hi - 1` keeps its keys unique. */
  lemma GrownUnique(tree: Element, t: Element, lo: nat, hi: nat)
    requires Unique(tree) && KeysBelow(tree, lo) && Grown(tree, t, lo, hi)
    ensures Unique(t) && KeysBelow(t, hi)
  {
    forall k: nat
      ensures Count(t, k) <= 1 && (k >= hi ==> Count(t, k) == 0)
    {
      assert Count(t, k) == Count(tree, k) + Fresh(lo, hi, k);
      assert Count(tree, k) <= 1;
      if k >= lo {
        assert Count(tree, k) == 0;
      }
    }
  }

  /** The node test for the element keyed `k` when it is a `div`. */
  function DivKey(k: nat): Node -> bool {
    (n: Node) => n.key == k && n.tag == "div"
  }

  /** `f` accepts `div` nodes only. */
  ghost predicate DivOnly(f: Node -> bool) {
    forall n :: f(n) ==> n.tag == "div"
  }

  /** The element keyed `k` is a `div` whose parent is a `div`. */
  ghost predicate UnderDiv(t: Element, k: nat) {
    && FindKey(t, k).Some?
    && var p := FindKey(t, k).value;
    && |p| > 0 && Get(t, p).tag == "div"
    && ValidPath(t, Parent(p)) && Get(t, Parent(p)).tag == "div"
  }

  /** With `k` unique, `UnderDiv` is exactly what the census sees: a `div`
      keyed `k`, and a pair of a `div` parent with a child keyed `k`. */
  lemma UnderDivCensus(t: Element, k: nat)
    requires Count(t, k) <= 1
    ensures UnderDiv(t, k) <==> CountNode(t, DivKey(k)) > 0 && CountEdge(t, TagIs("div"), KeyIs(k)) > 0
  {
    if UnderDiv(t, k) {
      var p := FindKey(t, k).value;
      NodeAt(t, p, DivKey(k));
      var i := p[|p| - 1];
      assert p == Parent(p) + [i];
      GetAppend(t, Parent(p), i);
      EdgeAt(t, Parent(p), i, TagIs("div"), KeyIs(k));
    }
    if CountNode(t, DivKey(k)) > 0 && CountEdge(t, TagIs("div"), KeyIs(k)) > 0 {
      FoundNode(t, DivKey(k), k);
      FoundChild(t, TagIs("div"), k);
    }
  }

  /** One raise seen by the census: keys as `Grown` wants them, every
      `div` node kept, no division under a `div` lost, and the raised
      division under a `div`. */
  lemma RaiseAllStep(t: Element, d: Path, n: nat, ks: seq<nat>, i: nat)
    requires ValidPath(t, d) && i < |ks| && Get(t, d).key == ks[i]
    requires forall j :: 0 <= j < i ==> CountEdge(t, TagIs("div"), KeyIs(ks[j])) > 0
    ensures var r := RaiseDiv(t, d, n);
      r.Ok? ==>
        && r.value.next >= n
        && (forall k :: Count(r.value.tree, k) == Count(t, k) + Fresh(n, r.value.next, k))
        && (forall f: Node -> bool :: DivOnly(f) ==> CountNode(r.value.tree, f) == CountNode(t, f))
        && (forall j :: 0 <= j <= i ==> CountEdge(r.value.tree, TagIs("div"), KeyIs(ks[j])) > 0)
  {
    RaiseAllKeys(t, d, n);
    RaiseAllDivs(t, d, n);
    RaiseAllEarlier(t, d, n, ks, i);
  }

  lemma RaiseAllKeys(t: Element, d: Path, n: nat)
    requires ValidPath(t, d)
    ensures var r := RaiseDiv(t, d, n);
      r.Ok? ==> r.value.next >= n && forall k :: Count(r.value.tree, k) == Count(t, k) + Fresh(n, r.value.next, k)
  {
    var r := RaiseDiv(t, d, n);
    if r.Ok? {
      RaiseKeepsElements(t, d, n, 0);
      forall k
        ensures Count(r.value.tree, k) == Count(t, k) + Fresh(n, r.value.next, k)
      {
        RaiseKeepsElements(t, d, n, k);
      }
    }
  }

  lemma RaiseAllDivs(t: Element, d: Path, n: nat)
    requires ValidPath(t, d)
    ensures var r := RaiseDiv(t, d, n);
      r.Ok? ==> forall f: Node -> bool :: DivOnly(f) ==> CountNode(r.value.tree, f) == CountNode(t, f)
  {
    var r := RaiseDiv(t, d, n);
    if r.Ok? {
      forall f: Node -> bool | DivOnly(f)
        ensures CountNode(r.value.tree, f) == CountNode(t, f)
      {
        RaiseKeepsNodes(t, d, n, f);
      }
    }
  }

  lemma RaiseAllEarlier(t: Element, d: Path, n: nat, ks: seq<nat>, i: nat)
    requires ValidPath(t, d) && i < |ks| && Get(t, d).key == ks[i]
    requires forall j :: 0 <= j < i ==> CountEdge(t, TagIs("div"), KeyIs(ks[j])) > 0
    ensures var r := RaiseDiv(t, d, n);
      r.Ok? ==> forall j :: 0 <= j <= i ==> CountEdge(r.value.tree, TagIs("div"), KeyIs(ks[j])) > 0
  {
    var r := RaiseDiv(t, d, n);
    if r.Ok? {
      forall j | 0 <= j < i
        ensures CountEdge(r.value.tree, TagIs("div"), KeyIs(ks[j])) > 0
      {
        RaiseKeepsDivChildren(t, d, n, ks[j]);
      }
      RaisedUnderDiv(t, d, n);
    }
  }

  /** Every first slot of a `div` that holds a `head` with non-blank text
      `v` in `tree` still does so in `t`. */
  ghost predicate HeadsKept(tree: Element, t: Element) {
    forall pf: Node -> bool, v :: DivOnly(pf) && !Blank(v) ==>
      CountSlot(t, pf, 0, HeadText(v)) >= CountSlot(tree, pf, 0, HeadText(v))
  }

  /** One raise keeps the first slots that `HeadsKept` follows. */
  lemma RaiseAllHeads(tree: Element, t: Element, d: Path, n: nat)
    requires ValidPath(t, d) && HeadsKept(tree, t)
    ensures var r := RaiseDiv(t, d, n);
      r.Ok? ==> HeadsKept(tree, r.value.tree)
  {
    var r := RaiseDiv(t, d, n);
    if r.Ok? {
      forall pf: Node -> bool, v | DivOnly(pf) && !Blank(v)
        ensures CountSlot(r.value.tree, pf, 0, HeadText(v)) >= CountSlot(tree, pf, 0, HeadText(v))
      {
        RaiseKeepsHeads(t, d, n, pf, v);
      }
    }
  }

  /** No key below `n` gains or loses its `div` ancestor between `tree`
      and `t`. */
  ghost predicate CoverKept(tree: Element, t: Element, n: nat) {
    forall k: nat :: k < n ==> Covered(t, false, k) == Covered(tree, false, k)
  }

  /** One raise keeps `CoverKept` for the keys below `next`. */
  lemma RaiseAllCover(tree: Element, t: Element, d: Path, n: nat, next: nat)
    requires ValidPath(t, d) && CoverKept(tree, t, next) && next <= n
    ensures var r := RaiseDiv(t, d, n);
      r.Ok? ==> CoverKept(tree, r.value.tree, next)
  {
    var r := RaiseDiv(t, d, n);
    if r.Ok? {
      forall k: nat | k < next
        ensures Covered(r.value.tree, false, k) == Covered(tree, false, k)
      {
        RaiseKeepsCovered(t, d, n, k);
      }
    }
  }

  /** The divisions `ks[0]`, ..., `ks[i - 1]` have a `div` ancestor. */
  ghost predicate AllAbove(tree: Element, ks: seq<nat>, i: nat) {
    forall j :: 0 <= j < i && j < |ks| ==> DivAbove(tree, ks[j])
  }

  lemma AllAboveStep(tree: Element, ks: seq<nat>, i: nat)
    requires i < |ks| && AllAbove(tree, ks, i) && DivAbove(tree, ks[i])
    ensures AllAbove(tree, ks, i + 1)
  {
  }

  /** In the loop, raising the division keyed `k` succeeds exactly when it
      had a `div` ancestor in the tree the loop started from. */
  lemma RaiseAllAbove(tree: Element, t: Element, k: nat, n: nat, next: nat)
    requires Count(tree, k) <= 1 && Count(t, k) <= 1 && k < next
    requires CoverKept(tree, t, next) && FindKey(t, k).Some?
    ensures RaiseDiv(t, FindKey(t, k).value, n).Ok? <==> DivAbove(tree, k)
  {
    RaiseDivAbove(t, k, n);
    DivAboveCovered(t, k);
    DivAboveCovered(tree, k);
  }

  /** Raises each division of `ks`, in the order given (the first loop of
      the pass). A division is looked up by key before each raise. Every
      `div` node stays as it was. The loop succeeds exactly when every
      division has a `div` ancestor, and then each division is a `div`
      whose parent is a `div`. */
  method RaiseAll(tree: Element, ks: seq<nat>, next: nat) returns (r: Result<(Element, nat)>)
    requires Unique(tree) && KeysBelow(tree, next)
    requires forall i :: 0 <= i < |ks| ==> CountNode(tree, DivKey(ks[i])) > 0
    ensures r.Ok? ==> Grown(tree, r.value.0, next, r.value.1)
    ensures r.Ok? ==> forall f: Node -> bool :: DivOnly(f) ==> CountNode(r.value.0, f) == CountNode(tree, f)
    ensures r.Ok? ==> forall i :: 0 <= i < |ks| ==> UnderDiv(r.value.0, ks[i])
    ensures r.Ok? ==> HeadsKept(tree, r.value.0)
    ensures r.Err? ==> r.error == NoDivAncestor
    ensures r.Ok? <==> forall i :: 0 <= i < |ks| ==> DivAbove(tree, ks[i])
    ensures |ks| == 0 ==> r == Ok((tree, next))
  {
    var t, n := tree, next;
    var i := 0;
    while i < |ks|
      invariant 0 <= i <= |ks|
      invariant Grown(tree, t, next, n)
      invariant forall f: Node -> bool :: DivOnly(f) ==> CountNode(t, f) == CountNode(tree, f)
      invariant forall j :: 0 <= j < i ==> CountEdge(t, TagIs("div"), KeyIs(ks[j])) > 0
      invariant HeadsKept(tree, t)
      invariant CoverKept(tree, t, next)
      invariant AllAbove(tree, ks, i)
      invariant i == 0 ==> t == tree && n == next
      decreases |ks| - i
    {
      GrownUnique(tree, t, next, n);
      assert DivOnly(DivKey(ks[i]));
      assert Count(t, ks[i]) <= 1;
      FoundNode(t, DivKey(ks[i]), ks[i]);
      CountNodeKey(tree, DivKey(ks[i]), ks[i]);
      var found := FindKey(t, ks[i]);
      RaiseAllAbove(tree, t, ks[i], n, next);
      var placed := RaiseDiv(t, found.value, n);
      if placed.Err? {
        assert !DivAbove(tree, ks[i]);
        return Err(placed.error);
      }
      RaiseAllStep(t, found.value, n, ks, i);
      RaiseAllHeads(tree, t, found.value, n);
      RaiseAllCover(tree, t, found.value, n, next);
      AllAboveStep(tree, ks, i);
      t, n := placed.value.tree, placed.value.next;
      i := i + 1;
    }
    GrownUnique(tree, t, next, n);
    forall j | 0 <= j < |ks|
      ensures UnderDiv(t, ks[j])
    {
      assert Count(t, ks[j]) <= 1;
      assert DivOnly(DivKey(ks[j]));
      UnderDivCensus(t, ks[j]);
    }
    return Ok((t, n));
  }

  /** The expansion loop as a reference: expand the divisions of `ks` in
      order, each looked up by key; a key not found is passed over. */
  function ExpandKeys(tree: Element, ks: seq<nat>): Element
    decreases |ks|
  {
    if |ks| == 0 then tree
    else
      var p := FindKey(tree, ks[0]);
      ExpandKeys(if p.Some? then ExpandAt(tree, p.value) else tree, ks[1..])
  }

  /** The element keyed `k` is present and the sibling directly after it,
      if any, is a `div`: expanding it again takes nothing. */
  ghost predicate Stopped(t: Element, k: nat) {
    && FindKey(t, k).Some?
    && var p := FindKey(t, k).value;
    && (|p| > 0 ==>
         && ValidPath(t, Parent(p))
         && var s := Get(t, Parent(p)).children;
         p[|p| - 1] + 1 >= |s| || s[p[|p| - 1] + 1].tag == "div")
  }

  /** When there is any key from `next` on, the last of the `m` keys is
      stopped. */
  ghost predicate LastStopped(t: Element, next: nat, m: nat) {
    m > 0 ==> Stopped(t, next + m - 1)
  }

  /** Expanding the element at `p` leaves it stopped. */
  lemma ExpandStops(t: Element, p: Path, k: nat)
    requires ValidPath(t, p) && Get(t, p).key == k
    requires Count(ExpandAt(t, p), k) <= 1
    ensures Stopped(ExpandAt(t, p), k)
  {
    var t' := ExpandAt(t, p);
    NodeAt(t', p, KeyIs(k));
    CountNodeKey(t', KeyIs(k), k);
    FindKeyComplete(t', k);
    UniquePath(t', FindKey(t', k).value, p);
    if |p| > 0 {
      ExpandAtStops(t, p);
    }
  }

  /** Expands each division of `ks`, in the order given (the second loop of
      the pass). Every node stays as it was and only children move; a
      `div` under a `div` stays so; the last division expanded is
      stopped. */
  method ExpandAll(tree: Element, ks: seq<nat>) returns (r: Element)
    requires Unique(tree)
    requires forall i :: 0 <= i < |ks| ==> CountNode(tree, DivKey(ks[i])) > 0
    ensures r == ExpandKeys(tree, ks)
    ensures forall k :: Count(r, k) == Count(tree, k)
    ensures forall f: Node -> bool :: CountNode(r, f) == CountNode(tree, f)
    ensures forall k :: UnderDiv(tree, k) ==> UnderDiv(r, k)
    ensures forall pf: Node -> bool, cf: Node -> bool :: CountSlot(r, pf, 0, cf) >= CountSlot(tree, pf, 0, cf)
    ensures |ks| > 0 ==> Stopped(r, ks[|ks| - 1])
  {
    var t := tree;
    var i := 0;
    while i < |ks|
      invariant 0 <= i <= |ks|
      invariant ExpandKeys(t, ks[i..]) == ExpandKeys(tree, ks)
      invariant forall k :: Count(t, k) == Count(tree, k)
      invariant forall f: Node -> bool :: CountNode(t, f) == CountNode(tree, f)
      invariant forall k: nat :: CountEdge(t, TagIs("div"), KeyIs(k)) >= CountEdge(tree, TagIs("div"), KeyIs(k))
      invariant forall pf: Node -> bool, cf: Node -> bool :: CountSlot(t, pf, 0, cf) >= CountSlot(tree, pf, 0, cf)
      invariant i > 0 ==> Stopped(t, ks[i - 1])
    {
      assert Count(tree, ks[i]) <= 1;
      FoundNode(t, DivKey(ks[i]), ks[i]);
      var p := FindKey(t, ks[i]).value;
      var t' := ExpandAt(t, p);
      forall k
        ensures Count(t', k) == Count(t, k)
      {
        ExpandKeepsElements(t, p, k);
      }
      forall f: Node -> bool
        ensures CountNode(t', f) == CountNode(t, f)
      {
        ExpandKeepsNodes(t, p, f);
      }
      forall k: nat
        ensures CountEdge(t', TagIs("div"), KeyIs(k)) >= CountEdge(t, TagIs("div"), KeyIs(k))
      {
        ExpandKeepsDivChildren(t, p, k);
      }
      forall pf: Node -> bool, cf: Node -> bool
        ensures CountSlot(t', pf, 0, cf) >= CountSlot(t, pf, 0, cf)
      {
        ExpandKeepsFirstSlots(t, p, pf, cf);
      }
      ExpandStops(t, p, ks[i]);
      assert ks[i..][0] == ks[i] && ks[i..][1..] == ks[i + 1..];
      t := t';
      i := i + 1;
    }
    assert ks[i..] == [];
    forall k: nat | UnderDiv(tree, k)
      ensures UnderDiv(t, k)
    {
      assert Count(tree, k) <= 1;
      UnderDivCensus(tree, k);
      UnderDivCensus(t, k);
    }
    r := t;
  }

  /** How many article markers the pass finds: the selected tail runs
      whose stripped text passes the pattern. */
  function MarkerCount(tree: Element): nat {
    Accepted(ArticleCandidates(tree), IsArticleMarker)
  }

  /** Every marker's owner has a `div` among its ancestors. */
  ghost predicate OwnersHaveDiv(tree: Element) {
    forall j :: 0 <= j < MarkerCount(tree) ==> DivAbove(tree, Converted(ArticleCandidates(tree), IsArticleMarker)[j].owner)
  }

  /** The pass finds no marker exactly when no selected run, stripped,
      passes the pattern. */
  lemma MarkerCountZero(tree: Element)
    ensures var runs := ArticleCandidates(tree);
      MarkerCount(tree) == 0 <==> forall i :: 0 <= i < |runs| ==> !IsArticleMarker(runs[i].value)
  {
    AcceptedZero(ArticleCandidates(tree), IsArticleMarker);
  }

  /** Seeding with the pass's selector, pattern and `ana` value. The
      selected owners are distinct non-root elements, so it cannot fail:
      the key `next + j` names an article division holding the head made
      from the j-th converted run counted from the end. */
  method SeedArticles(tree: Element, next: nat) returns (r: Result<(Element, seq<nat>)>)
    requires Unique(tree) && KeysBelow(tree, next)
    ensures r.Ok?
    ensures |r.value.1| == MarkerCount(tree) && forall i :: 0 <= i < |r.value.1| ==> r.value.1[i] == next + i
    ensures Grown(tree, r.value.0, next, next + MarkerCount(tree))
    ensures forall j :: 0 <= j < MarkerCount(tree) ==>
      var run := Converted(ArticleCandidates(tree), IsArticleMarker)[j];
      Seeded(r.value.0, next + j, run.owner, run.value, ArticleAna)
    ensures forall j :: 0 <= j < MarkerCount(tree) ==>
      TakesPlace(tree, Converted(ArticleCandidates(tree), IsArticleMarker)[j].owner, r.value.0, next + j)
    ensures forall k :: Count(tree, k) > 0 ==> SameAttrs(tree, r.value.0, k)
    ensures forall j :: 0 <= j < MarkerCount(tree) && DivAbove(tree, Converted(ArticleCandidates(tree), IsArticleMarker)[j].owner) ==>
      DivAbove(r.value.0, r.value.1[j])
    ensures MarkerCount(tree) == 0 ==> r == Ok((tree, []))
  {
    CandidateOwnersReady(tree);
    r := SeedPass(tree, ArticleCandidates(tree), IsArticleMarker, ArticleAna, next);
    GrownUnique(tree, r.value.0, next, next + MarkerCount(tree));
    SeededAbove(tree, r.value.0, ArticleCandidates(tree), next, r.value.1);
  }

  /** The census facts seeding leaves, as facts about `div` ancestors. */
  lemma SeededAbove(tree: Element, t: Element, runs: seq<Run>, next: nat, ks: seq<nat>)
    requires Unique(tree) && Unique(t)
    requires |ks| == Accepted(runs, IsArticleMarker) && forall j :: 0 <= j < |ks| ==> ks[j] == next + j
    requires forall j :: 0 <= j < Accepted(runs, IsArticleMarker) && Covered(tree, false, Converted(runs, IsArticleMarker)[j].owner) > 0 ==>
      Covered(t, false, next + j) > 0
    ensures forall j :: 0 <= j < Accepted(runs, IsArticleMarker) && DivAbove(tree, Converted(runs, IsArticleMarker)[j].owner) ==>
      DivAbove(t, ks[j])
  {
    forall j | 0 <= j < Accepted(runs, IsArticleMarker) && DivAbove(tree, Converted(runs, IsArticleMarker)[j].owner)
      ensures DivAbove(t, ks[j])
    {
      var o := Converted(runs, IsArticleMarker)[j].owner;
      assert Count(tree, o) <= 1 && Count(t, ks[j]) <= 1;
      DivAboveCovered(tree, o);
      DivAboveCovered(t, ks[j]);
    }
  }


  /** The two loops after seeding, over divisions that are `div`s of
      `tree`. Every `div` node stays as it was. The loops succeed exactly
      when every division has a `div` ancestor, and then each division is
      a `div` under a `div`, and the last one expanded is stopped. */
  method PlaceAll(tree: Element, ks: seq<nat>, next: nat) returns (r: Result<(Element, nat)>)
    requires Unique(tree) && KeysBelow(tree, next)
    requires forall i :: 0 <= i < |ks| ==> CountNode(tree, DivKey(ks[i])) > 0
    ensures r.Ok? ==> Grown(tree, r.value.0, next, r.value.1)
    ensures r.Ok? ==> forall f: Node -> bool :: DivOnly(f) ==> CountNode(r.value.0, f) == CountNode(tree, f)
    ensures r.Ok? ==> forall i :: 0 <= i < |ks| ==> UnderDiv(r.value.0, ks[i])
    ensures r.Ok? && |ks| > 0 ==> Stopped(r.value.0, ks[|ks| - 1])
    ensures r.Ok? ==> HeadsKept(tree, r.value.0)
    ensures r.Err? ==> r.error == NoDivAncestor
    ensures r.Ok? <==> AllAbove(tree, ks, |ks|)
    ensures |ks| == 0 ==> r == Ok((tree, next))
  {
    var raised := RaiseAll(tree, ks, next);
    if raised.Err? {
      return Err(raised.error);
    }
    var t := raised.value.0;
    GrownUnique(tree, t, next, raised.value.1);
    forall i | 0 <= i < |ks|
      ensures CountNode(t, DivKey(ks[i])) > 0
    {
      assert DivOnly(DivKey(ks[i]));
    }
    var expanded := ExpandAll(t, ks);
    return Ok((expanded, raised.value.1));
  }

  /** Fresh keys added in two rounds are the fresh keys of the whole run. */
  lemma GrownChain(tree: Element, t1: Element, t2: Element, lo: nat, mid: nat, hi: nat)
    requires Grown(tree, t1, lo, mid) && Grown(t1, t2, mid, hi)
    ensures Grown(tree, t2, lo, hi)
  {
    forall k
      ensures Count(t2, k) == Count(tree, k) + Fresh(lo, hi, k)
    {
      assert Count(t1, k) == Count(tree, k) + Fresh(lo, mid, k);
      assert Count(t2, k) == Count(t1, k) + Fresh(mid, hi, k);
    }
  }

  /** The element keyed `k` is an article division, a `div` with `ana`
      "article" and newline text and tail, and its parent is a `div`. */
  ghost predicate ArticleDiv(t: Element, k: nat) {
    UnderDiv(t, k) && DivTest(k, ArticleAna)(NodeOf(Get(t, FindKey(t, k).value)))
  }

  /** A seeded article division, as the census sees it. */
  lemma SeededCensus(t: Element, k: nat, o: nat, v: string)
    requires Seeded(t, k, o, v, ArticleAna)
    ensures CountNode(t, DivKey(k)) > 0 && CountNode(t, DivTest(k, ArticleAna)) > 0
  {
    NodeAt(t, FindKey(t, k).value, DivKey(k));
    NodeAt(t, FindKey(t, k).value, DivTest(k, ArticleAna));
  }

  /** Every division seeding made from the converted runs `conv`, as the
      census sees it, named both by its key and by the keys seeding
      returned. */
  lemma SeededKeys(t1: Element, conv: seq<Run>, ks: seq<nat>, next: nat)
    requires |ks| == |conv| && forall i :: 0 <= i < |ks| ==> ks[i] == next + i
    requires forall j :: 0 <= j < |conv| ==> Seeded(t1, next + j, conv[j].owner, conv[j].value, ArticleAna)
    ensures forall i :: 0 <= i < |ks| ==> CountNode(t1, DivKey(ks[i])) > 0
    ensures forall k :: next <= k < next + |ks| ==> CountNode(t1, DivTest(k, ArticleAna)) > 0
  {
    forall k | next <= k < next + |ks|
      ensures CountNode(t1, DivKey(k)) > 0 && CountNode(t1, DivTest(k, ArticleAna)) > 0
    {
      SeededCensus(t1, k, conv[k - next].owner, conv[k - next].value);
    }
    forall i | 0 <= i < |ks|
      ensures CountNode(t1, DivKey(ks[i])) > 0
    {
      assert ks[i] == next + i;
    }
  }

  /** A unique key under a `div` whose node is the article division's
      names an article division. */
  lemma ArticleDivFromCensus(t: Element, k: nat)
    requires Count(t, k) <= 1 && UnderDiv(t, k) && CountNode(t, DivTest(k, ArticleAna)) > 0
    ensures ArticleDiv(t, k)
  {
    FoundNode(t, DivTest(k, ArticleAna), k);
  }

  /** The seeded article divisions after placing: each is under a `div`
      and its node is unchanged, so each is an article division. */
  lemma PlacedArticles(t1: Element, t: Element, ks: seq<nat>, next: nat)
    requires forall i :: 0 <= i < |ks| ==> ks[i] == next + i
    requires Unique(t)
    requires forall i :: 0 <= i < |ks| ==> UnderDiv(t, ks[i])
    requires forall f: Node -> bool :: DivOnly(f) ==> CountNode(t, f) == CountNode(t1, f)
    requires forall k :: next <= k < next + |ks| ==> CountNode(t1, DivTest(k, ArticleAna)) > 0
    ensures forall k :: next <= k < next + |ks| ==> ArticleDiv(t, k)
  {
    forall k | next <= k < next + |ks|
      ensures ArticleDiv(t, k)
    {
      assert ks[k - next] == k && UnderDiv(t, ks[k - next]);
      assert DivOnly(DivTest(k, ArticleAna));
      assert Count(t, k) <= 1;
      ArticleDivFromCensus(t, k);
    }
  }

  /** The element keyed `k` has a first child, a `head` with the text `v`. */
  ghost predicate HeadFirst(t: Element, k: nat, v: string) {
    && FindKey(t, k).Some?
    && var d := Get(t, FindKey(t, k).value);
    && |d.children| > 0 && d.children[0].tag == "head" && d.children[0].text == v
  }

  /** A converted marker run is not blank: its stripped text starts with
      `Art`. */
  lemma MarkerNotBlank(runs: seq<Run>, j: nat)
    requires j < Accepted(runs, IsArticleMarker)
    ensures !Blank(Converted(runs, IsArticleMarker)[j].value)
  {
    var v := Converted(runs, IsArticleMarker)[j].value;
    ConvertedConverts(runs, IsArticleMarker, j);
    StripEmptyIffAllSpace(v);
  }

  /** A seeded article division whose first slot placing keeps still has
      its marker's head first. */
  lemma PlacedHead(t1: Element, t: Element, k: nat, o: nat, v: string)
    requires Seeded(t1, k, o, v, ArticleAna) && !Blank(v)
    requires Count(t, k) <= 1 && HeadsKept(t1, t)
    ensures HeadFirst(t, k, v)
  {
    var p := FindKey(t1, k).value;
    SlotAt(t1, p, 0, DivKey(k), HeadText(v));
    assert DivOnly(DivKey(k));
    FoundSlotParent(t, DivKey(k), k, 0, HeadText(v));
  }

  /** The element keyed `next + j` opens with the `head` holding the text
      of `conv[j]`, for every `j`. */
  ghost predicate HeadsFirst(t: Element, next: nat, conv: seq<Run>) {
    forall j :: 0 <= j < |conv| ==> HeadFirst(t, next + j, conv[j].value)
  }

  /** Every seeded article division keeps its marker's head first. */
  lemma PlacedHeads(conv: seq<Run>, t1: Element, t: Element, next: nat)
    requires forall j :: 0 <= j < |conv| ==>
      Seeded(t1, next + j, conv[j].owner, conv[j].value, ArticleAna) && !Blank(conv[j].value)
    requires Unique(t) && HeadsKept(t1, t)
    ensures HeadsFirst(t, next, conv)
  {
    forall j | 0 <= j < |conv|
      ensures HeadFirst(t, next + j, conv[j].value)
    {
      assert Count(t, next + j) <= 1;
      PlacedHead(t1, t, next + j, conv[j].owner, conv[j].value);
    }
  }

  /** No converted marker run is blank. */
  lemma MarkersNotBlank(tree: Element)
    ensures forall j :: 0 <= j < MarkerCount(tree) ==>
      !Blank(Converted(ArticleCandidates(tree), IsArticleMarker)[j].value)
  {
    forall j | 0 <= j < MarkerCount(tree)
      ensures !Blank(Converted(ArticleCandidates(tree), IsArticleMarker)[j].value)
    {
      MarkerNotBlank(ArticleCandidates(tree), j);
    }
  }

  /** The pass's promises about the placed document `t`, from the facts
      seeding and placing establish. */
  lemma PassResult(t0: Element, t1: Element, t: Element, ks: seq<nat>, next: nat, hi: nat)
    requires Unique(t0) && KeysBelow(t0, next)
    requires forall i :: 0 <= i < |ks| ==> ks[i] == next + i
    requires Grown(t0, t1, next, next + |ks|) && Grown(t1, t, next + |ks|, hi)
    requires forall i :: 0 <= i < |ks| ==> UnderDiv(t, ks[i])
    requires forall f: Node -> bool :: DivOnly(f) ==> CountNode(t, f) == CountNode(t1, f)
    requires forall k :: next <= k < next + |ks| ==> CountNode(t1, DivTest(k, ArticleAna)) > 0
    requires |ks| > 0 ==> Stopped(t, ks[|ks| - 1])
    ensures Grown(t0, t, next, hi) && Unique(t)
    ensures forall k :: next <= k < next + |ks| ==> ArticleDiv(t, k)
    ensures |ks| > 0 ==> Stopped(t, next + |ks| - 1)
  {
    GrownChain(t0, t1, t, next, next + |ks|, hi);
    GrownUnique(t0, t1, next, next + |ks|);
    GrownUnique(t1, t, next + |ks|, hi);
    PlacedArticles(t1, t, ks, next);
  }

  /** The second half of the pass: raising and expanding the divisions
      `ks` that seeding made in `t1` from the `m` converted runs `conv` of
      the document `t0`. It succeeds whenever the owner of every converted run
      had a `div` ancestor in `t0`, and then the keys from `next` on name
      article divisions, each opening with the `head` of its run. */
  method PlaceArticles(t0: Element, next: nat, t1: Element, conv: seq<Run>, m: nat, ks: seq<nat>)
    returns (r: Result<(Element, nat)>)
    requires Unique(t0) && KeysBelow(t0, next)
    requires m == |conv| && |ks| == m && forall i :: 0 <= i < |ks| ==> ks[i] == next + i
    requires Grown(t0, t1, next, next + m)
    requires forall j :: 0 <= j < |conv| ==>
      Seeded(t1, next + j, conv[j].owner, conv[j].value, ArticleAna) && !Blank(conv[j].value)
    requires forall j :: 0 <= j < |conv| && DivAbove(t0, conv[j].owner) ==> DivAbove(t1, ks[j])
    ensures r.Ok? ==> Grown(t0, r.value.0, next, r.value.1) && r.value.1 >= next + m
    ensures r.Ok? ==> forall k :: next <= k < next + m ==> ArticleDiv(r.value.0, k)
    ensures r.Ok? ==> HeadsFirst(r.value.0, next, conv)
    ensures r.Ok? ==> LastStopped(r.value.0, next, m)
    ensures r.Err? ==> r.error == NoDivAncestor
    ensures (forall j :: 0 <= j < |conv| ==> DivAbove(t0, conv[j].owner)) ==> r.Ok?
    ensures m == 0 ==> r == Ok((t1, next))
  {
    var n1 := next + m;
    GrownUnique(t0, t1, next, n1);
    SeededKeys(t1, conv, ks, next);
    var placed := PlaceAll(t1, ks, n1);
    if placed.Err? {
      return Err(placed.error);
    }
    PassResult(t0, t1, placed.value.0, ks, next, placed.value.1);
    PlacedHeads(conv, t1, placed.value.0, next);
    return placed;
  }

  /** The whole pass. The result carries the next unused key. Both loops
      go over the divisions in the order seeding made them, which is
      reverse document order. The pass loses and duplicates no element:
      afterwards the document holds its old elements and exactly the new
      article divisions and split-off parts, each under a fresh key; the
      keys from `next` on, one per marker, name article divisions whose
      parent is a `div`, and the division of the first marker in document
      order, expanded last, is stopped. It fails only where the Python code
      raises, on a division with no `div` ancestor, and it succeeds
      whenever every marker's owner has a `div` ancestor; a document
      without article markers passes through unchanged. */
  method MakeAllSectionDivs(tree: Element, next: nat) returns (r: Result<(Element, nat)>)
    requires Unique(tree) && KeysBelow(tree, next)
    ensures r.Ok? ==> Grown(tree, r.value.0, next, r.value.1)
    ensures r.Ok? ==> r.value.1 >= next + MarkerCount(tree)
    ensures r.Ok? ==> forall k :: next <= k < next + MarkerCount(tree) ==> ArticleDiv(r.value.0, k)
    ensures r.Ok? ==> HeadsFirst(r.value.0, next, Converted(ArticleCandidates(tree), IsArticleMarker))
    ensures r.Ok? ==> LastStopped(r.value.0, next, MarkerCount(tree))
    ensures r.Err? ==> r.error == NoDivAncestor
    ensures OwnersHaveDiv(tree) ==> r.Ok?
    ensures MarkerCount(tree) == 0 ==> r == Ok((tree, next))
  {
    var seeded := SeedArticles(tree, next);
    MarkersNotBlank(tree);
    r := PlaceArticles(tree, next, seeded.value.0, Converted(ArticleCandidates(tree), IsArticleMarker), MarkerCount(tree), seeded.value.1);
  }

  /** Divisions nested in one another: the division keyed 20 is the last
      child of the one keyed 10, and a `p` follows the outer one. */
  const NestedHead := Element(11, "head", map[], "", [], "")
  const NestedInner := Element(20, "div", map[], "", [], "")
  const NestedOuter := Element(10, "div", map[], "", [NestedHead, NestedInner], "")
  const NestedPara := Element(30, "p", map[], "", [], "")
  const NestedDoc := Element(0, "div", map[], "", [NestedOuter, NestedPara], "")
  /** The same document after the outer division took the `p`. */
  const NestedExpanded := Element(0, "div", map[], "", [NestedOuter.(children := [NestedHead, NestedInner, NestedPara])], "")

  lemma NestedFound()
    ensures FindKey(NestedDoc, 20) == Some([0, 1]) && FindKey(NestedDoc, 10) == Some([0])
    ensures FindKey(NestedExpanded, 20) == Some([0, 1])
  {
    var h, d1, x, d2 := NestedHead, NestedInner, NestedPara, NestedOuter;
    assert [0] + [] == [0] && [0][1..] == [] && [1] + [] == [1] && [0] + [1] == [0, 1];
    assert [h, d1][1..] == [d1] && [h, d1, x][1..] == [d1, x];
    assert FindKey(d1, 20) == Some([]) && FindKey(h, 20) == None;
    assert FindKeyIn([d1], 20) == Some([0]);
    assert FindKeyIn([h, d1], 20) == Some([1]);
    assert FindKey(d2, 20) == Some([1]);
    assert FindKeyIn([d2, x], 20) == Some([0, 1]);
    assert FindKey(d2, 10) == Some([]);
    assert FindKeyIn([d2, x], 10) == Some([0]);
    var d2' := d2.(children := [h, d1, x]);
    assert FindKeyIn([d1, x], 20) == Some([0]);
    assert FindKeyIn([h, d1, x], 20) == Some([1]);
    assert FindKey(d2', 20) == Some([1]);
    assert FindKeyIn([d2'], 20) == Some([0, 1]);
  }

  lemma NestedInnerExpands()
    ensures ExpandAt(NestedDoc, [0, 1]) == NestedDoc
  {
    var h, d1 := NestedHead, NestedInner;
    assert FirstDiv([h, d1], 2) == 2;
    assert [h, d1][..1] == [h] && [h, d1][2..] == [] && [h, d1][2..2] == [] && d1.children + [] == d1.children;
    assert Absorb([h, d1], 1) == [h, d1];
    assert Get(NestedDoc, [0]) == NestedOuter && [0, 1][..1] == [0];
    assert NestedOuter.(children := [h, d1]) == NestedOuter;
    assert Put(NestedDoc, [0], NestedOuter) == NestedDoc;
  }

  lemma NestedOuterExpands()
    ensures ExpandAt(NestedDoc, [0]) == NestedExpanded
  {
    var h, d1, x, d2 := NestedHead, NestedInner, NestedPara, NestedOuter;
    assert Get(NestedDoc, [0]) == d2;
    assert FirstDiv([d2, x], 1) == 2;
    assert [d2, x][1..2] == [x] && [d2, x][2..] == [] && [d2, x][..0] == [] && [h, d1] + [x] == [h, d1, x];
    assert Absorb([d2, x], 0) == [d2.(children := [h, d1, x])];
  }

  /** On the nested document the expansion loop over 20 then 10 leaves
      the inner division followed by the `p`: only the division expanded
      last is sure to be stopped. Both divisions are `div`s under a
      `div`. */
  lemma ExpandNestedExample()
    ensures UnderDiv(NestedDoc, 20) && UnderDiv(NestedDoc, 10)
    ensures Stopped(ExpandKeys(NestedDoc, [20]), 20)
    ensures !Stopped(ExpandKeys(NestedDoc, [20, 10]), 20)
  {
    NestedFound();
    NestedInnerExpands();
    NestedOuterExpands();
    assert [20, 10][1..] == [10] && [10][1..] == [] && [20][1..] == [];
    assert ExpandKeys(NestedDoc, [20]) == ExpandKeys(NestedDoc, []) == NestedDoc;
    assert ExpandKeys(NestedDoc, [20, 10]) == ExpandKeys(NestedDoc, [10]) == ExpandKeys(NestedExpanded, []);
    assert Get(NestedExpanded, [0]).children[2].tag == "p";
  }
}
