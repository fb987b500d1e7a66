/** `raise_div_element` (scripts/refine_tei.py:92-111): a seeded division
    is lifted through its ancestors, each non-`div` parent being split
    around it, until its parent is a `div`. */
module Raise {
  import opened Text
  import opened Tree
  import opened Census

  /** A tree with a division at `div`, and the next unused key. */
  datatype Placed = Placed(tree: Element, div: Path, next: nat)

  /** `s` with its element at `k` replaced by the elements `m`. */
  function Splice(s: seq<Element>, k: nat, m: seq<Element>): (r: seq<Element>)
    requires k < |s|
    ensures |r| == |s| - 1 + |m|
    ensures r[..k] == s[..k] && r[k..k + |m|] == m && r[k + |m|..] == s[k + 1..]
  {
    s[..k] + m + s[k + 1..]
  }

  /** Python's `not (text and text.strip())`: the text is empty or all
      whitespace, which is the same as stripping to nothing
      (`Text.StripEmptyIffAllSpace`). */
  predicate Blank(text: string) {
    AllSpace(text)
  }

  /** Facts about the division at `d` (depth at least two) that every step
      relies on: its grandparent path is valid and the division is the
      `d[|d| - 1]`-th child of the `d[|d| - 2]`-th child there. */
  lemma Locate(tree: Element, d: Path)
    requires ValidPath(tree, d) && |d| >= 2
    ensures var a := d[..|d| - 2];
      && d == a + [d[|d| - 2], d[|d| - 1]]
      && ValidPath(tree, a)
      && d[|d| - 2] < |Get(tree, a).children|
      && d[|d| - 1] < |Get(tree, a).children[d[|d| - 2]].children|
      && Get(tree, d) == Get(tree, a).children[d[|d| - 2]].children[d[|d| - 1]]
  {
    var a := d[..|d| - 2];
    GetPrefix(tree, d, |d| - 2);
    var g := Get(tree, a);
    var rest := d[|d| - 2..];
    assert rest == [d[|d| - 2], d[|d| - 1]];
    assert rest[1..] == [d[|d| - 1]] && rest[1..][1..] == [];
    var c := g.children[d[|d| - 2]];
    assert Get(g, rest) == Get(c, rest[1..]);
    assert Get(c, rest[1..]) == Get(c.children[d[|d| - 1]], []);
  }

  /** Whether a step on the division at index `i` of P makes a new element:
      it does unless the division is P's first child and P's text is blank. */
  function Made(p: Element, i: nat): nat {
    if i > 0 || !Blank(p.text) then 1 else 0
  }

  /** The elements that take P's place in its parent after one step. */
  function Pieces(p: Element, i: nat, next: nat): (m: seq<Element>)
    requires i < |p.children|
    ensures |m| == 2 + Made(p, i) && m[Made(p, i)] == p.children[i]
  {
    if i > 0 then
      [p.(children := p.children[..i]), p.children[i],
       Element(next, p.tag, map[], "\n", p.children[i + 1..], "")]
    else if !Blank(p.text) then
      [Element(next, p.tag, map[], p.text, [], ""), p.children[0],
       p.(text := "", children := p.children[1..])]
    else
      [p.children[0], p.(children := p.children[1..])]
  }

  /** One pass of the loop body (scripts/refine_tei.py:95-110) for the
      division at `d`, whose parent P is not the root. With a previous
      sibling, P keeps the children before the division, the division
      follows P, and a new element with P's tag and text a newline takes
      the children after it. Without one, P's non-blank text moves into a
      new element with P's tag in front, P's text becomes empty, and the
      division goes in front of P. The division's new parent is its former
      grandparent. */
  function RaiseStep(tree: Element, d: Path, next: nat): (r: Placed)
    requires ValidPath(tree, d) && |d| >= 2
    ensures |r.div| == |d| - 1 && r.div[..|d| - 2] == d[..|d| - 2]
    ensures ValidPath(r.tree, r.div) && Get(r.tree, r.div) == Get(tree, d)
    ensures r.next == next || r.next == next + 1
    ensures var a := d[..|d| - 2];
      && ValidPath(tree, a) && ValidPath(r.tree, a)
      && r.tree == Put(tree, a, Get(r.tree, a)) && SameNode(Get(r.tree, a), Get(tree, a))
  {
    Locate(tree, d);
    var a := d[..|d| - 2];
    var k := d[|d| - 2];
    var i := d[|d| - 1];
    var g := Get(tree, a);
    var p := g.children[k];
    var m := Pieces(p, i, next);
    var gc := Splice(g.children, k, m);
    var t := Put(tree, a, g.(children := gc));
    var at := k + Made(p, i);
    assert gc[at] == gc[k..k + |m|][Made(p, i)];
    GetAppend(t, a, at);
    Placed(t, a + [at], next + Made(p, i))
  }

  /** The three shapes of one step, stated on the new grandparent's
      children `gc`: P's children reappear, in order and each once, split
      between P, the division and the new element; the grandparent's other
      children and everything outside the grandparent are unchanged. */
  lemma RaiseStepShape(tree: Element, d: Path, next: nat)
    requires ValidPath(tree, d) && |d| >= 2
    ensures var a := d[..|d| - 2];
      var k := d[|d| - 2];
      var i := d[|d| - 1];
      var r := RaiseStep(tree, d, next);
      && ValidPath(tree, a) && ValidPath(r.tree, a)
      && r.tree == Put(tree, a, Get(r.tree, a))
      && var g := Get(tree, a);
      var gc := Get(r.tree, a).children;
      && k < |g.children|
      && var p := g.children[k];
      && i < |p.children|
      && var div := p.children[i];
      && SameNode(Get(r.tree, a), g)
      && gc[..k] == g.children[..k]
      && (i > 0 ==>
           && |gc| == |g.children| + 2 && gc[k + 3..] == g.children[k + 1..]
           && SameNode(gc[k], p) && gc[k].children == p.children[..i]
           && gc[k + 1] == div
           && gc[k + 2].key == next && gc[k + 2].tag == p.tag && gc[k + 2].attrs == map[]
           && gc[k + 2].text == "\n" && gc[k + 2].tail == ""
           && gc[k].children + [gc[k + 1]] + gc[k + 2].children == p.children)
      && (i == 0 && !Blank(p.text) ==>
           && |gc| == |g.children| + 2 && gc[k + 3..] == g.children[k + 1..]
           && gc[k] == Element(next, p.tag, map[], p.text, [], "")
           && gc[k + 1] == div
           && gc[k + 2] == p.(text := "", children := p.children[1..])
           && [gc[k + 1]] + gc[k + 2].children == p.children)
      && (i == 0 && Blank(p.text) ==>
           && |gc| == |g.children| + 1 && gc[k + 2..] == g.children[k + 1..]
           && gc[k] == div
           && gc[k + 1] == p.(children := p.children[1..])
           && [gc[k]] + gc[k + 1].children == p.children)
  {
    Locate(tree, d);
    var i := d[|d| - 1];
    var p := Get(tree, d[..|d| - 2]).children[d[|d| - 2]];
    if i > 0 {
      assert p.children == p.children[..i] + [p.children[i]] + p.children[i + 1..];
    } else {
      assert p.children == [p.children[0]] + p.children[1..];
    }
  }

  /** Replacing the element at `k` by `m` trades its count for theirs. */
  lemma CountInSplice(s: seq<Element>, k: nat, m: seq<Element>, key: nat)
    requires k < |s|
    ensures CountIn(Splice(s, k, m), key) + Count(s[k], key) == CountIn(s, key) + CountIn(m, key)
  {
    CountInSplit(s, k, key);
    CountInConcat(s[..k] + m, s[k + 1..], key);
    CountInConcat(s[..k], m, key);
  }

  /** The elements that replace P carry P's elements, plus the new element
      when one is made. */
  lemma PiecesCount(p: Element, i: nat, next: nat, k: nat)
    requires i < |p.children|
    ensures CountIn(Pieces(p, i, next), k) == Count(p, k) + Fresh(next, next + Made(p, i), k)
  {
    var ch := p.children;
    var m := Pieces(p, i, next);
    CountInSplit(m, Made(p, i), k);
    CountInSplit(ch, i, k);
    if i > 0 {
      assert m[..1] == [p.(children := ch[..i])] && m[2..] == [m[2]];
      CountInSingle(m[0], k);
      CountInSingle(m[2], k);
    } else if !Blank(p.text) {
      assert m[..1] == [m[0]] && m[2..] == [m[2]];
      CountInSingle(m[0], k);
      CountInSingle(m[2], k);
    } else {
      assert m[1..] == [m[1]];
      CountInSingle(m[1], k);
    }
  }

  /** One step loses and duplicates no element: every key occurs as often
      as before, plus the new element's key once. */
  lemma RaiseStepCount(tree: Element, d: Path, next: nat, k: nat)
    requires ValidPath(tree, d) && |d| >= 2
    ensures var r := RaiseStep(tree, d, next);
      r.next >= next && Count(r.tree, k) == Count(tree, k) + Fresh(next, r.next, k)
  {
    Locate(tree, d);
    var a := d[..|d| - 2];
    var g := Get(tree, a);
    var p := g.children[d[|d| - 2]];
    var m := Pieces(p, d[|d| - 1], next);
    var g' := g.(children := Splice(g.children, d[|d| - 2], m));
    PiecesCount(p, d[|d| - 1], next, k);
    CountInSplice(g.children, d[|d| - 2], m, k);
    CountPut(tree, a, g', k);
  }

  /** The element at depth `j` on the way to `d` is a `div`. */
  ghost predicate DivAt(tree: Element, d: Path, j: int) {
    0 <= j <= |d| && ValidPath(tree, d[..j]) && Get(tree, d[..j]).tag == "div"
  }

  /** The depth of the deepest `div` among the first `m` elements on the
      way to `d` (the root being at depth 0). */
  ghost function NearestDiv(tree: Element, d: Path, m: nat): (r: Option<nat>)
    requires m <= |d|
    ensures r.Some? ==>
      && r.value < m && DivAt(tree, d, r.value)
      && forall j :: r.value < j < m ==> !DivAt(tree, d, j)
    ensures r.None? ==> forall j :: 0 <= j < m ==> !DivAt(tree, d, j)
    decreases m
  {
    if m == 0 then None
    else if DivAt(tree, d, m - 1) then Some(m - 1)
    else NearestDiv(tree, d, m - 1)
  }

  lemma {:induction false} NearestDivSame(t1: Element, d1: Path, t2: Element, d2: Path, m: nat)
    requires m <= |d1| && m <= |d2|
    requires forall j :: 0 <= j < m ==> (DivAt(t1, d1, j) <==> DivAt(t2, d2, j))
    ensures NearestDiv(t1, d1, m) == NearestDiv(t2, d2, m)
    decreases m
  {
    if m > 0 {
      NearestDivSame(t1, d1, t2, d2, m - 1);
    }
  }

  /** A step keeps the tags of the division's remaining ancestors, which
      sit on the same path as before. */
  lemma RaiseStepAncestors(tree: Element, d: Path, next: nat, j: nat)
    requires ValidPath(tree, d) && |d| >= 2 && j <= |d| - 2
    ensures var r := RaiseStep(tree, d, next);
      DivAt(r.tree, r.div, j) <==> DivAt(tree, d, j)
  {
    var a := d[..|d| - 2];
    var r := RaiseStep(tree, d, next);
    PrefixAgree(r.div, d, |d| - 2, j);
    PrefixAgree(a, d, |d| - 2, j);
    PutAncestorTag(tree, a, Get(r.tree, a), j);
  }

  /** Paths that agree on their first `n` indices agree on fewer. */
  lemma PrefixAgree(x: Path, y: Path, n: nat, j: nat)
    requires j <= n <= |x| && n <= |y| && x[..n] == y[..n]
    ensures x[..j] == y[..j]
  {
    assert x[..j] == x[..n][..j];
    assert y[..j] == y[..n][..j];
  }

  /** Replacing the element at `a` by one with the same tag keeps the tag at
      every prefix of `a`. */
  lemma PutAncestorTag(tree: Element, a: Path, x: Element, j: nat)
    requires ValidPath(tree, a) && j <= |a| && x.tag == Get(tree, a).tag
    ensures ValidPath(tree, a[..j]) && ValidPath(Put(tree, a, x), a[..j])
    ensures Get(Put(tree, a, x), a[..j]).tag == Get(tree, a[..j]).tag
  {
    if j < |a| {
      PutKeepsAncestors(tree, a, x, j);
    } else {
      assert a[..j] == a;
    }
  }



  lemma ParentValid(tree: Element, d: Path)
    requires ValidPath(tree, d) && |d| > 0
    ensures ValidPath(tree, Parent(d))
  {
    GetPrefix(tree, d, |d| - 1);
  }

  /** `x` agrees with `d` below its last index when it does so with `y`, and
      `y` with `d`. */
  lemma PrefixOfPrefix(x: Path, y: Path, d: Path)
    requires 1 <= |x| <= |y| < |d| && y[..|y| - 1] == d[..|y| - 1]
    requires x[..|x| - 1] == y[..|x| - 1]
    ensures x[..|x| - 1] == d[..|x| - 1]
  {
    assert y[..|x| - 1] == y[..|y| - 1][..|x| - 1];
  }

  /** The division's parent is a `div`. */
  ghost predicate ParentIsDiv(tree: Element, d: Path) {
    |d| >= 1 && ValidPath(tree, Parent(d)) && Get(tree, Parent(d)).tag == "div"
  }

  /** The raise loop (scripts/refine_tei.py:93-94, 111). It fails where the
      code raises: when the division reaches the root without meeting a
      `div` parent. */
  function RaiseDiv(tree: Element, d: Path, next: nat): (r: Result<Placed>)
    requires ValidPath(tree, d)
    ensures r.Ok? ==>
      && ValidPath(r.value.tree, r.value.div)
      && Get(r.value.tree, r.value.div) == Get(tree, d)
      && 1 <= |r.value.div| <= |d|
      && r.value.div[..|r.value.div| - 1] == d[..|r.value.div| - 1]
      && ParentIsDiv(r.value.tree, r.value.div)
      && r.value.next >= next
    ensures r.Err? ==> r.error == NoDivAncestor
    decreases |d|
  {
    if |d| == 0 then Err(NoDivAncestor)
    else
      ParentValid(tree, d);
      if Get(tree, Parent(d)).tag == "div" then Ok(Placed(tree, d, next))
      else if |d| == 1 then Err(NoDivAncestor)
      else
        var s := RaiseStep(tree, d, next);
        var r := RaiseDiv(s.tree, s.div, s.next);
        if r.Ok? then
          PrefixOfPrefix(r.value.div, s.div, d);
          r
        else r
  }

  /** Raising succeeds exactly when the division has a `div` ancestor, and
      then the division ends up a child of the nearest one. */
  lemma {:induction false} RaiseReachesNearestDiv(tree: Element, d: Path, next: nat)
    requires ValidPath(tree, d)
    ensures var r := RaiseDiv(tree, d, next);
      && (r.Ok? <==> NearestDiv(tree, d, |d|).Some?)
      && (r.Ok? ==> |r.value.div| == NearestDiv(tree, d, |d|).value + 1)
    decreases |d|
  {
    if |d| > 0 {
      GetPrefix(tree, d, |d| - 1);
      if Get(tree, Parent(d)).tag == "div" {
        assert DivAt(tree, d, |d| - 1);
      } else if |d| == 1 {
        assert !DivAt(tree, d, 0);
      } else {
        var s := RaiseStep(tree, d, next);
        RaiseReachesNearestDiv(s.tree, s.div, s.next);
        forall j | 0 <= j < |d| - 1
          ensures DivAt(s.tree, s.div, j) <==> DivAt(tree, d, j)
        {
          RaiseStepAncestors(tree, d, next, j);
        }
        NearestDivSame(s.tree, s.div, tree, d, |d| - 1);
        assert !DivAt(tree, d, |d| - 1);
      }
    }
  }

  /** Raising loses and duplicates no element: every key occurs as often
      as before, and each fresh key handed to a new element once. */
  lemma {:induction false} RaiseKeepsElements(tree: Element, d: Path, next: nat, k: nat)
    requires ValidPath(tree, d)
    ensures var r := RaiseDiv(tree, d, next);
      r.Ok? ==> r.value.next >= next && Count(r.value.tree, k) == Count(tree, k) + Fresh(next, r.value.next, k)
    decreases |d|
  {
    if |d| > 0 {
      GetPrefix(tree, d, |d| - 1);
      if Get(tree, Parent(d)).tag != "div" && |d| > 1 {
        var s := RaiseStep(tree, d, next);
        assert RaiseDiv(tree, d, next) == RaiseDiv(s.tree, s.div, s.next);
        RaiseStepCount(tree, d, next, k);
        RaiseKeepsElements(s.tree, s.div, s.next, k);
        var r := RaiseDiv(s.tree, s.div, s.next);
        if r.Ok? {
          FreshSplit(next, s.next, r.value.next, k);
        }
      }
    }
  }

  /** Replacing the element at `k` by `m` trades its census for theirs. */
  lemma CountNodeInSplice(s: seq<Element>, k: nat, m: seq<Element>, f: Node -> bool)
    requires k < |s|
    ensures CountNodeIn(Splice(s, k, m), f) + CountNode(s[k], f) == CountNodeIn(s, f) + CountNodeIn(m, f)
  {
    CountNodeInSplit(s, k, f);
    CountNodeInConcat(s[..k] + m, s[k + 1..], f);
    CountNodeInConcat(s[..k], m, f);
  }

  lemma CountEdgeInSplice(s: seq<Element>, k: nat, m: seq<Element>, up: bool, pf: Node -> bool, cf: Node -> bool)
    requires k < |s|
    ensures CountEdgeIn(Splice(s, k, m), up, pf, cf) + Link(up, s[k], cf) + CountEdge(s[k], pf, cf)
      == CountEdgeIn(s, up, pf, cf) + CountEdgeIn(m, up, pf, cf)
  {
    CountEdgeInSplit(s, k, up, pf, cf);
    CountEdgeInConcat(s[..k] + m, s[k + 1..], up, pf, cf);
    CountEdgeInConcat(s[..k], m, up, pf, cf);
  }

  /** Splitting a non-`div` P touches no `div` node: the pieces carry
      exactly P's census of nodes that are `div`s. */
  lemma PiecesNodes(p: Element, i: nat, next: nat, f: Node -> bool)
    requires i < |p.children| && p.tag != "div"
    requires forall n :: f(n) ==> n.tag == "div"
    ensures CountNodeIn(Pieces(p, i, next), f) == CountNode(p, f)
  {
    var ch := p.children;
    var m := Pieces(p, i, next);
    CountNodeInSplit(m, Made(p, i), f);
    CountNodeInSplit(ch, i, f);
    assert !f(NodeOf(p));
    if i > 0 {
      assert m[..1] == [m[0]] && m[2..] == [m[2]];
      assert !f(NodeOf(m[0])) && !f(NodeOf(m[2]));
      CountNodeInSplit(m[..1], 0, f);
      CountNodeInSplit(m[2..], 0, f);
    } else if !Blank(p.text) {
      assert m[..1] == [m[0]] && m[2..] == [m[2]];
      assert !f(NodeOf(m[0])) && !f(NodeOf(m[2]));
      CountNodeInSplit(m[..1], 0, f);
      CountNodeInSplit(m[2..], 0, f);
    } else {
      assert m[1..] == [m[1]];
      assert !f(NodeOf(m[1]));
      CountNodeInSplit(m[1..], 0, f);
    }
  }

  lemma CountEdgeInThree(x: Element, y: Element, z: Element, up: bool, pf: Node -> bool, cf: Node -> bool)
    ensures CountEdgeIn([x, y, z], up, pf, cf) == Link(up, x, cf) + CountEdge(x, pf, cf)
      + Link(up, y, cf) + CountEdge(y, pf, cf) + Link(up, z, cf) + CountEdge(z, pf, cf)
  {
    assert [x, y, z][1..] == [y, z] && [y, z][1..] == [z] && [z][1..] == [];
    assert CountEdgeIn([z], up, pf, cf) == Link(up, z, cf) + CountEdge(z, pf, cf) + CountEdgeIn([], up, pf, cf);
    assert CountEdgeIn([y, z], up, pf, cf) == Link(up, y, cf) + CountEdge(y, pf, cf) + CountEdgeIn([z], up, pf, cf);
  }

  lemma CountEdgeInTwo(y: Element, z: Element, up: bool, pf: Node -> bool, cf: Node -> bool)
    ensures CountEdgeIn([y, z], up, pf, cf) == Link(up, y, cf) + CountEdge(y, pf, cf) + Link(up, z, cf) + CountEdge(z, pf, cf)
  {
    assert [y, z][1..] == [z] && [z][1..] == [];
    assert CountEdgeIn([z], up, pf, cf) == Link(up, z, cf) + CountEdge(z, pf, cf) + CountEdgeIn([], up, pf, cf);
  }

  /** Splitting a non-`div` P loses no pair with a `div` parent: its
      children had none, and the division may gain one. */
  lemma PiecesEdges(p: Element, i: nat, next: nat, up: bool, k0: nat)
    requires i < |p.children| && p.tag != "div"
    ensures CountEdgeIn(Pieces(p, i, next), up, TagIs("div"), KeyIs(k0))
      >= Link(up, p, KeyIs(k0)) + CountEdge(p, TagIs("div"), KeyIs(k0))
  {
    var pf, cf := TagIs("div"), KeyIs(k0);
    var ch := p.children;
    CountEdgeInSplit(ch, i, false, pf, cf);
    if i > 0 {
      PiecesEdgesAfter(p, i, next, up, k0);
    } else if !Blank(p.text) {
      var n := Element(next, p.tag, map[], p.text, [], "");
      var q := p.(text := "", children := ch[1..]);
      CountEdgeInThree(n, ch[0], q, up, pf, cf);
      assert CountEdge(n, pf, cf) == 0;
      assert Link(up, q, cf) == Link(up, p, cf);
      assert ch[..0] == [];
    } else {
      var q := p.(children := ch[1..]);
      CountEdgeInTwo(ch[0], q, up, pf, cf);
      assert Link(up, q, cf) == Link(up, p, cf);
      assert ch[..0] == [];
    }
  }

  lemma PiecesEdgesAfter(p: Element, i: nat, next: nat, up: bool, k0: nat)
    requires 0 < i < |p.children| && p.tag != "div"
    requires CountEdgeIn(p.children, false, TagIs("div"), KeyIs(k0))
      == CountEdgeIn(p.children[..i], false, TagIs("div"), KeyIs(k0)) + CountEdge(p.children[i], TagIs("div"), KeyIs(k0))
        + CountEdgeIn(p.children[i + 1..], false, TagIs("div"), KeyIs(k0))
    ensures CountEdgeIn(Pieces(p, i, next), up, TagIs("div"), KeyIs(k0))
      >= Link(up, p, KeyIs(k0)) + CountEdge(p, TagIs("div"), KeyIs(k0))
  {
    var pf, cf := TagIs("div"), KeyIs(k0);
    var ch := p.children;
    var x := p.(children := ch[..i]);
    var z := Element(next, p.tag, map[], "\n", ch[i + 1..], "");
    CountEdgeInThree(x, ch[i], z, up, pf, cf);
    assert Link(up, x, cf) == Link(up, p, cf);
  }

  /** One step on a division whose parent is not a `div` keeps every
      `div` node where it was counted. */
  lemma RaiseStepNodes(tree: Element, d: Path, next: nat, f: Node -> bool)
    requires ValidPath(tree, d) && |d| >= 2
    requires ValidPath(tree, Parent(d)) && Get(tree, Parent(d)).tag != "div"
    requires forall n :: f(n) ==> n.tag == "div"
    ensures CountNode(RaiseStep(tree, d, next).tree, f) == CountNode(tree, f)
  {
    Locate(tree, d);
    var a := d[..|d| - 2];
    var k := d[|d| - 2];
    var g := Get(tree, a);
    var p := g.children[k];
    GetAppend(tree, a, k);
    assert Parent(d) == a + [k];
    var m := Pieces(p, d[|d| - 1], next);
    var g' := g.(children := Splice(g.children, k, m));
    PiecesNodes(p, d[|d| - 1], next, f);
    CountNodeInSplice(g.children, k, m, f);
    CountNodePut(tree, a, g', f);
  }

  /** One step on a division whose parent is not a `div` loses no pair with
      a `div` parent. */
  lemma RaiseStepEdges(tree: Element, d: Path, next: nat, k0: nat)
    requires ValidPath(tree, d) && |d| >= 2
    requires ValidPath(tree, Parent(d)) && Get(tree, Parent(d)).tag != "div"
    ensures CountEdge(RaiseStep(tree, d, next).tree, TagIs("div"), KeyIs(k0))
      >= CountEdge(tree, TagIs("div"), KeyIs(k0))
  {
    Locate(tree, d);
    var a := d[..|d| - 2];
    var k := d[|d| - 2];
    var g := Get(tree, a);
    var p := g.children[k];
    GetAppend(tree, a, k);
    assert Parent(d) == a + [k];
    var m := Pieces(p, d[|d| - 1], next);
    var g' := g.(children := Splice(g.children, k, m));
    var up := TagIs("div")(NodeOf(g));
    PiecesEdges(p, d[|d| - 1], next, up, k0);
    CountEdgeInSplice(g.children, k, m, up, TagIs("div"), KeyIs(k0));
    CountEdgePutSame(tree, a, g', TagIs("div"), KeyIs(k0));
  }

  /** Raising keeps every `div` node where it was counted. */
  lemma {:induction false} RaiseKeepsNodes(tree: Element, d: Path, next: nat, f: Node -> bool)
    requires ValidPath(tree, d)
    requires forall n :: f(n) ==> n.tag == "div"
    ensures var r := RaiseDiv(tree, d, next);
      r.Ok? ==> CountNode(r.value.tree, f) == CountNode(tree, f)
    decreases |d|
  {
    if |d| > 0 {
      ParentValid(tree, d);
      if Get(tree, Parent(d)).tag != "div" && |d| > 1 {
        var s := RaiseStep(tree, d, next);
        assert RaiseDiv(tree, d, next) == RaiseDiv(s.tree, s.div, s.next);
        RaiseStepNodes(tree, d, next, f);
        RaiseKeepsNodes(s.tree, s.div, s.next, f);
      }
    }
  }

  /** Raising loses no pair with a `div` parent, and on success the
      division itself is the child of a `div`. */
  lemma {:induction false} RaiseKeepsDivChildren(tree: Element, d: Path, next: nat, k0: nat)
    requires ValidPath(tree, d)
    ensures var r := RaiseDiv(tree, d, next);
      r.Ok? ==> CountEdge(r.value.tree, TagIs("div"), KeyIs(k0)) >= CountEdge(tree, TagIs("div"), KeyIs(k0))
    decreases |d|
  {
    if |d| > 0 {
      ParentValid(tree, d);
      if Get(tree, Parent(d)).tag != "div" && |d| > 1 {
        var s := RaiseStep(tree, d, next);
        assert RaiseDiv(tree, d, next) == RaiseDiv(s.tree, s.div, s.next);
        RaiseStepEdges(tree, d, next, k0);
        RaiseKeepsDivChildren(s.tree, s.div, s.next, k0);
      }
    }
  }

  /** After a successful raise the division is counted as the child of a
      `div`. */
  lemma RaisedUnderDiv(tree: Element, d: Path, next: nat)
    requires ValidPath(tree, d)
    ensures var r := RaiseDiv(tree, d, next);
      r.Ok? ==> CountEdge(r.value.tree, TagIs("div"), KeyIs(Get(tree, d).key)) > 0
  {
    var r := RaiseDiv(tree, d, next);
    if r.Ok? {
      var t := r.value.tree;
      var q := Parent(r.value.div);
      var i := r.value.div[|r.value.div| - 1];
      assert r.value.div == q + [i];
      GetAppend(t, q, i);
      EdgeAt(t, q, i, TagIs("div"), KeyIs(Get(tree, d).key));
    }
  }

  lemma CountSlotInSplice(s: seq<Element>, k: nat, m: seq<Element>, pf: Node -> bool, i: nat, cf: Node -> bool)
    requires k < |s|
    ensures CountSlotIn(Splice(s, k, m), pf, i, cf) + CountSlot(s[k], pf, i, cf)
      == CountSlotIn(s, pf, i, cf) + CountSlotIn(m, pf, i, cf)
  {
    CountSlotInSplit(s, k, pf, i, cf);
    CountSlotInConcat(s[..k] + m, s[k + 1..], pf, i, cf);
    CountSlotInConcat(s[..k], m, pf, i, cf);
  }

  lemma CountSlotInThree(x: Element, y: Element, z: Element, pf: Node -> bool, i: nat, cf: Node -> bool)
    ensures CountSlotIn([x, y, z], pf, i, cf) == CountSlot(x, pf, i, cf) + CountSlot(y, pf, i, cf) + CountSlot(z, pf, i, cf)
  {
    assert [x, y, z][1..] == [y, z] && [y, z][1..] == [z] && [z][1..] == [];
    assert CountSlotIn([z], pf, i, cf) == CountSlot(z, pf, i, cf) + CountSlotIn([], pf, i, cf);
  }

  lemma CountSlotInTwo(y: Element, z: Element, pf: Node -> bool, i: nat, cf: Node -> bool)
    ensures CountSlotIn([y, z], pf, i, cf) == CountSlot(y, pf, i, cf) + CountSlot(z, pf, i, cf)
  {
    assert [y, z][1..] == [z] && [z][1..] == [];
    assert CountSlotIn([z], pf, i, cf) == CountSlot(z, pf, i, cf) + CountSlotIn([], pf, i, cf);
  }

  /** Splitting a non-`div` P keeps every slot of a `div`: P and the
      pieces made from it are no `div`s, and P's children keep their
      subtrees. */
  lemma PiecesSlots(p: Element, i: nat, next: nat, pf: Node -> bool, j: nat, cf: Node -> bool)
    requires i < |p.children| && p.tag != "div"
    requires forall n :: pf(n) ==> n.tag == "div"
    ensures CountSlotIn(Pieces(p, i, next), pf, j, cf) == CountSlot(p, pf, j, cf)
  {
    var ch := p.children;
    CountSlotInSplit(ch, i, pf, j, cf);
    assert SlotOf(p, pf, j, cf) == 0;
    if i > 0 {
      var x := p.(children := ch[..i]);
      var z := Element(next, p.tag, map[], "\n", ch[i + 1..], "");
      CountSlotInThree(x, ch[i], z, pf, j, cf);
      assert SlotOf(x, pf, j, cf) == 0 && SlotOf(z, pf, j, cf) == 0;
    } else if !Blank(p.text) {
      var n := Element(next, p.tag, map[], p.text, [], "");
      var q := p.(text := "", children := ch[1..]);
      CountSlotInThree(n, ch[0], q, pf, j, cf);
      assert SlotOf(n, pf, j, cf) == 0 && SlotOf(q, pf, j, cf) == 0;
      assert CountSlot(n, pf, j, cf) == 0;
      assert ch[..0] == [];
    } else {
      var q := p.(children := ch[1..]);
      CountSlotInTwo(ch[0], q, pf, j, cf);
      assert SlotOf(q, pf, j, cf) == 0;
      assert ch[..0] == [];
    }
  }

  /** The first child of the grandparent still passes a `head` test after
      the split: P's first piece keeps P's tag and text, unless P's text is
      blank, and then P was no `head` with the (non-blank) text `v`. */
  lemma SpliceFirst(g: Element, k: nat, i: nat, next: nat, pf: Node -> bool, v: string)
    requires k < |g.children| && i < |g.children[k].children| && !Blank(v)
    ensures SlotOf(g.(children := Splice(g.children, k, Pieces(g.children[k], i, next))), pf, 0, HeadText(v))
      >= SlotOf(g, pf, 0, HeadText(v))
  {
    var m := Pieces(g.children[k], i, next);
    var gc := Splice(g.children, k, m);
    if k > 0 {
      assert gc[0] == gc[..k][0];
    } else {
      assert gc[0] == gc[k..k + |m|][0] == m[0];
    }
  }

  /** One step on a division whose parent is not a `div` keeps every
      first slot of a `div` holding a `head` with the text `v`. */
  lemma RaiseStepSlots(tree: Element, d: Path, next: nat, pf: Node -> bool, v: string)
    requires ValidPath(tree, d) && |d| >= 2
    requires ValidPath(tree, Parent(d)) && Get(tree, Parent(d)).tag != "div"
    requires forall n :: pf(n) ==> n.tag == "div"
    requires !Blank(v)
    ensures CountSlot(RaiseStep(tree, d, next).tree, pf, 0, HeadText(v)) >= CountSlot(tree, pf, 0, HeadText(v))
  {
    Locate(tree, d);
    var a := d[..|d| - 2];
    var k := d[|d| - 2];
    var g := Get(tree, a);
    var p := g.children[k];
    GetAppend(tree, a, k);
    assert Parent(d) == a + [k];
    var m := Pieces(p, d[|d| - 1], next);
    var g' := g.(children := Splice(g.children, k, m));
    PiecesSlots(p, d[|d| - 1], next, pf, 0, HeadText(v));
    CountSlotInSplice(g.children, k, m, pf, 0, HeadText(v));
    SpliceFirst(g, k, d[|d| - 1], next, pf, v);
    CountSlotPutSame(tree, a, g', pf, 0, HeadText(v));
  }

  /** Raising keeps every first slot of a `div` holding a `head` with a
      non-blank text `v`. */
  lemma {:induction false} RaiseKeepsHeads(tree: Element, d: Path, next: nat, pf: Node -> bool, v: string)
    requires ValidPath(tree, d)
    requires forall n :: pf(n) ==> n.tag == "div"
    requires !Blank(v)
    ensures var r := RaiseDiv(tree, d, next);
      r.Ok? ==> CountSlot(r.value.tree, pf, 0, HeadText(v)) >= CountSlot(tree, pf, 0, HeadText(v))
    decreases |d|
  {
    if |d| > 0 {
      ParentValid(tree, d);
      if Get(tree, Parent(d)).tag != "div" && |d| > 1 {
        var s := RaiseStep(tree, d, next);
        assert RaiseDiv(tree, d, next) == RaiseDiv(s.tree, s.div, s.next);
        RaiseStepSlots(tree, d, next, pf, v);
        RaiseKeepsHeads(s.tree, s.div, s.next, pf, v);
      }
    }
  }

  /* ---------------- a `div` above ---------------- */

  lemma CoveredInSplice(s: seq<Element>, k: nat, m: seq<Element>, above: bool, key: nat)
    requires k < |s|
    ensures CoveredIn(Splice(s, k, m), above, key) + Covered(s[k], above, key)
      == CoveredIn(s, above, key) + CoveredIn(m, above, key)
  {
    CoveredInSplit(s, k, above, key);
    CoveredInConcat(s[..k] + m, s[k + 1..], above, key);
    CoveredInConcat(s[..k], m, above, key);
  }

  lemma CoveredInThree(x: Element, y: Element, z: Element, above: bool, key: nat)
    ensures CoveredIn([x, y, z], above, key) == Covered(x, above, key) + Covered(y, above, key) + Covered(z, above, key)
  {
    assert [x, y, z][1..] == [y, z] && [y, z][1..] == [z] && [z][1..] == [];
    assert CoveredIn([z], above, key) == Covered(z, above, key) + CoveredIn([], above, key);
  }

  lemma CoveredInTwo(y: Element, z: Element, above: bool, key: nat)
    ensures CoveredIn([y, z], above, key) == Covered(y, above, key) + Covered(z, above, key)
  {
    assert [y, z][1..] == [z] && [z][1..] == [];
    assert CoveredIn([z], above, key) == Covered(z, above, key) + CoveredIn([], above, key);
  }

  /** Splitting a non-`div` P changes no old element's `div` above: the
      pieces take P's tag and P's place, so every element keeps the tags
      above it, apart from P's, which is no `div`. */
  lemma PiecesCovered(p: Element, i: nat, next: nat, above: bool, key: nat)
    requires i < |p.children| && p.tag != "div" && key != next
    ensures CoveredIn(Pieces(p, i, next), above, key) == Covered(p, above, key)
  {
    var ch := p.children;
    CoveredInSplit(ch, i, above, key);
    if i > 0 {
      var x := p.(children := ch[..i]);
      var z := Element(next, p.tag, map[], "\n", ch[i + 1..], "");
      CoveredInThree(x, ch[i], z, above, key);
    } else if !Blank(p.text) {
      var n := Element(next, p.tag, map[], p.text, [], "");
      var q := p.(text := "", children := ch[1..]);
      CoveredInThree(n, ch[0], q, above, key);
      assert ch[..0] == [];
    } else {
      var q := p.(children := ch[1..]);
      CoveredInTwo(ch[0], q, above, key);
      assert ch[..0] == [];
    }
  }

  /** One step changes for no old key whether its element has a `div`
      above. */
  lemma RaiseStepCovered(tree: Element, d: Path, next: nat, key: nat)
    requires ValidPath(tree, d) && |d| >= 2
    requires ValidPath(tree, Parent(d)) && Get(tree, Parent(d)).tag != "div"
    requires key != next
    ensures Covered(RaiseStep(tree, d, next).tree, false, key) == Covered(tree, false, key)
  {
    Locate(tree, d);
    var a := d[..|d| - 2];
    var k := d[|d| - 2];
    var g := Get(tree, a);
    var p := g.children[k];
    GetAppend(tree, a, k);
    assert Parent(d) == a + [k];
    var m := Pieces(p, d[|d| - 1], next);
    var g' := g.(children := Splice(g.children, k, m));
    var b := AboveAt(tree, false, a) || g.tag == "div";
    PiecesCovered(p, d[|d| - 1], next, b, key);
    CoveredInSplice(g.children, k, m, b, key);
    CoveredPut(tree, false, a, g', key);
  }

  /** Raising changes for no old key whether its element has a `div`
      above. */
  lemma {:induction false} RaiseKeepsCovered(tree: Element, d: Path, next: nat, key: nat)
    requires ValidPath(tree, d) && key < next
    ensures var r := RaiseDiv(tree, d, next);
      r.Ok? ==> Covered(r.value.tree, false, key) == Covered(tree, false, key)
    decreases |d|
  {
    if |d| > 0 {
      ParentValid(tree, d);
      if Get(tree, Parent(d)).tag != "div" && |d| > 1 {
        var s := RaiseStep(tree, d, next);
        assert RaiseDiv(tree, d, next) == RaiseDiv(s.tree, s.div, s.next);
        RaiseStepCovered(tree, d, next, key);
        RaiseKeepsCovered(s.tree, s.div, s.next, key);
      }
    }
  }

  /** The element keyed `k` has a `div` ancestor: some element strictly
      above it on its path is a `div`. `AboveAtDivAt` states it as "some
      proper prefix of the path leads to a `div`". */
  ghost predicate DivAbove(t: Element, k: nat) {
    FindKey(t, k).Some? && AboveAt(t, false, FindKey(t, k).value)
  }

  /** The depths on the way to `p` below the first child step. */
  lemma DivAtStep(e: Element, p: Path, j: nat)
    requires ValidPath(e, p) && j < |p|
    ensures DivAt(e, p, j + 1) <==> DivAt(e.children[p[0]], p[1..], j)
  {
    GetPrefix(e, p, j + 1);
    GetPrefix(e.children[p[0]], p[1..], j);
    assert p[..j + 1][0] == p[0] && p[..j + 1][1..] == p[1..][..j];
  }

  /** The flag `AboveAt` carries down a path says that the start flag is
      set or some proper prefix leads to a `div`. */
  lemma {:induction false} AboveAtDivAt(e: Element, a: bool, p: Path)
    requires ValidPath(e, p)
    ensures AboveAt(e, a, p) <==> a || exists j :: 0 <= j < |p| && DivAt(e, p, j)
    decreases p
  {
    if |p| > 0 {
      var c := e.children[p[0]];
      var b := a || e.tag == "div";
      AboveAtDivAt(c, b, p[1..]);
      assert p[..0] == [];
      assert DivAt(e, p, 0) <==> e.tag == "div";
      if exists j :: 0 <= j < |p| && DivAt(e, p, j) {
        var j :| 0 <= j < |p| && DivAt(e, p, j);
        if j > 0 {
          DivAtStep(e, p, j - 1);
        }
      }
      if exists j :: 0 <= j < |p| - 1 && DivAt(c, p[1..], j) {
        var j :| 0 <= j < |p| - 1 && DivAt(c, p[1..], j);
        DivAtStep(e, p, j);
      }
    }
  }

  /** With the key held once, `DivAbove` is what the census of covered
      elements counts. */
  lemma DivAboveCovered(t: Element, k: nat)
    requires Count(t, k) <= 1
    ensures DivAbove(t, k) <==> Covered(t, false, k) > 0
  {
    FindKeyComplete(t, k);
    CoveredCount(t, false, k);
    if FindKey(t, k).Some? {
      var p := FindKey(t, k).value;
      CoveredAt(t, false, p);
    }
  }

  /** Raising the element keyed `k` succeeds exactly when it has a `div`
      ancestor. */
  lemma RaiseDivAbove(t: Element, k: nat, n: nat)
    requires FindKey(t, k).Some?
    ensures RaiseDiv(t, FindKey(t, k).value, n).Ok? <==> DivAbove(t, k)
  {
    var p := FindKey(t, k).value;
    AboveAtDivAt(t, false, p);
    RaiseReachesNearestDiv(t, p, n);
    var m := NearestDiv(t, p, |p|);
    if m.Some? {
      assert DivAt(t, p, m.value);
    }
  }
}
