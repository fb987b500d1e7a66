/** `expand_div_element` with the append test of make_all_section_divs
    (scripts/refine_tei.py:114-118, 136-141): a division absorbs the
    element siblings after it, up to the next `div`. */
module Expand {
  import opened Tree
  import opened Census

  /** The index of the first `div` in `s` at or after `k`, or `|s|` when
      there is none. */
  function FirstDiv(s: seq<Element>, k: nat): (j: nat)
    requires k <= |s|
    ensures k <= j <= |s|
    ensures forall m :: k <= m < j ==> s[m].tag != "div"
    ensures j == |s| || s[j].tag == "div"
    decreases |s| - k
  {
    if k == |s| || s[k].tag == "div" then k else FirstDiv(s, k + 1)
  }

  /** The children `s` after the division at index `i` has absorbed its
      following siblings: every sibling after it before the first later
      `div` becomes, in order, a new last child of the division (each with
      its tail), and nothing else changes. */
  function Absorb(s: seq<Element>, i: nat): (r: seq<Element>)
    requires i < |s|
    ensures var j := FirstDiv(s, i + 1);
      && |r| == |s| - (j - i - 1)
      && r[..i] == s[..i]
      && SameNode(r[i], s[i]) && r[i].children == s[i].children + s[i + 1..j]
      && r[i + 1..] == s[j..]
  {
    var j := FirstDiv(s, i + 1);
    s[..i] + [s[i].(children := s[i].children + s[i + 1..j])] + s[j..]
  }

  /** The source's loop: take the next sibling while there is one and it is
      not a `div`. It computes `Absorb`. */
  method AbsorbLoop(s: seq<Element>, i: nat) returns (r: seq<Element>)
    requires i < |s|
    ensures r == Absorb(s, i)
  {
    var div := s[i];
    var k := i + 1;
    while k < |s| && s[k].tag != "div"
      invariant i + 1 <= k <= |s|
      invariant forall m :: i + 1 <= m < k ==> s[m].tag != "div"
      invariant div == s[i].(children := s[i].children + s[i + 1..k])
    {
      assert s[i + 1..k + 1] == s[i + 1..k] + [s[k]];
      div := div.(children := div.children + [s[k]]);
      k := k + 1;
    }
    assert k == FirstDiv(s, i + 1) by {
      FirstDivUnique(s, i + 1, k);
    }
    r := s[..i] + [div] + s[k..];
  }

  /** The first `div` from `k` on is the index characterised by
      `FirstDiv`'s contract. */
  lemma {:induction false} FirstDivUnique(s: seq<Element>, k: nat, j: nat)
    requires k <= j <= |s|
    requires forall m :: k <= m < j ==> s[m].tag != "div"
    requires j == |s| || s[j].tag == "div"
    ensures FirstDiv(s, k) == j
    decreases |s| - k
  {
    if k < j {
      FirstDivUnique(s, k + 1, j);
    }
  }

  /** After absorbing, the element following the division is a `div` or
      there is none: the loop cannot take another step. */
  lemma AbsorbStops(s: seq<Element>, i: nat)
    requires i < |s|
    ensures var r := Absorb(s, i);
      i + 1 == |r| || r[i + 1].tag == "div"
  {
    var r := Absorb(s, i);
    if i + 1 < |r| {
      assert r[i + 1] == r[i + 1..][0];
    }
  }

  /** Absorbing twice absorbs nothing more. */
  lemma AbsorbIdempotent(s: seq<Element>, i: nat)
    requires i < |s|
    ensures Absorb(Absorb(s, i), i) == Absorb(s, i)
  {
    var r := Absorb(s, i);
    AbsorbStops(s, i);
    FirstDivUnique(r, i + 1, i + 1);
    assert r[i].children + r[i + 1..i + 1] == r[i].children;
    assert r[i].(children := r[i].children) == r[i];
    assert r == r[..i] + [r[i]] + r[i + 1..];
  }

  /** Absorbing moves elements and loses none. */
  lemma AbsorbCount(s: seq<Element>, i: nat, k: nat)
    requires i < |s|
    ensures CountIn(Absorb(s, i), k) == CountIn(s, k)
  {
    MoveCount(s, i, FirstDiv(s, i + 1), k);
  }

  lemma MoveCount(s: seq<Element>, i: nat, j: nat, k: nat)
    requires i < j <= |s|
    ensures CountIn(s[..i] + [s[i].(children := s[i].children + s[i + 1..j])] + s[j..], k) == CountIn(s, k)
  {
    var d' := s[i].(children := s[i].children + s[i + 1..j]);
    CountInSplit(s, i, k);
    CountAround(s[..i], d', s[j..], k);
    CountInConcat(s[i + 1..j], s[j..], k);
    SliceJoin(s, i + 1, j);
    CountInConcat(s[i].children, s[i + 1..j], k);
  }

  lemma CountAround(a: seq<Element>, x: Element, b: seq<Element>, k: nat)
    ensures CountIn(a + [x] + b, k) == CountIn(a, k) + Count(x, k) + CountIn(b, k)
  {
    CountInSplit(a + [x] + b, |a|, k);
    assert (a + [x] + b)[..|a|] == a && (a + [x] + b)[|a| + 1..] == b;
  }

  /** Expands the division at `d`. The root has no siblings, so a division
      at the root stays as it is. */
  function ExpandAt(tree: Element, d: Path): (r: Element)
    requires ValidPath(tree, d)
    ensures ValidPath(r, d) && SameNode(Get(r, d), Get(tree, d))
    ensures |d| > 0 ==> ValidPath(tree, Parent(d)) && ValidPath(r, Parent(d))
  {
    if |d| == 0 then tree
    else
      var a := Parent(d);
      var i := d[|d| - 1];
      GetPrefix(tree, d, |d| - 1);
      GetAppend(tree, a, i);
      assert d == a + [i];
      var par := Get(tree, a);
      var r := Put(tree, a, par.(children := Absorb(par.children, i)));
      GetAppend(r, a, i);
      r
  }

  /** The expansion seen from the division's parent: the siblings follow
      `Absorb`, and the parent itself and everything outside it are
      unchanged. */
  lemma ExpandShape(tree: Element, d: Path)
    requires ValidPath(tree, d) && |d| > 0
    ensures var a := Parent(d);
      var r := ExpandAt(tree, d);
      && ValidPath(tree, a) && d[|d| - 1] < |Get(tree, a).children|
      && r == Put(tree, a, Get(tree, a).(children := Absorb(Get(tree, a).children, d[|d| - 1])))
  {
    GetPrefix(tree, d, |d| - 1);
    GetAppend(tree, Parent(d), d[|d| - 1]);
    assert d == Parent(d) + [d[|d| - 1]];
  }

  /** Expansion loses and duplicates no element. */
  lemma ExpandKeepsElements(tree: Element, d: Path, k: nat)
    requires ValidPath(tree, d)
    ensures Count(ExpandAt(tree, d), k) == Count(tree, k)
  {
    if |d| > 0 {
      ExpandShape(tree, d);
      var a := Parent(d);
      var par := Get(tree, a);
      AbsorbCount(par.children, d[|d| - 1], k);
      CountPut(tree, a, par.(children := Absorb(par.children, d[|d| - 1])), k);
    }
  }

  /** After expansion the division's next sibling is a `div` or there is
      none, and the division's children are its old children followed by
      the siblings it took. */
  lemma ExpandAtStops(tree: Element, d: Path)
    requires ValidPath(tree, d) && |d| > 0
    ensures var a := Parent(d);
      var i := d[|d| - 1];
      var r := ExpandAt(tree, d);
      && ValidPath(tree, a) && ValidPath(r, a)
      && var s := Get(tree, a).children;
      var s' := Get(r, a).children;
      && i < |s| && i < |s'|
      && (i + 1 == |s'| || s'[i + 1].tag == "div")
      && s'[i].children == s[i].children + s[i + 1..FirstDiv(s, i + 1)]
  {
    ExpandShape(tree, d);
    AbsorbStops(Get(tree, Parent(d)).children, d[|d| - 1]);
  }

  /** A suffix is its first part followed by the rest. */
  lemma SliceJoin(s: seq<Element>, a: nat, b: nat)
    requires a <= b <= |s|
    ensures s[a..] == s[a..b] + s[b..]
  {
  }

  /** Absorbing moves nodes and changes none. */
  lemma AbsorbNodes(s: seq<Element>, i: nat, f: Node -> bool)
    requires i < |s|
    ensures CountNodeIn(Absorb(s, i), f) == CountNodeIn(s, f)
  {
    MoveNodes(s, i, FirstDiv(s, i + 1), f);
  }

  lemma MoveNodes(s: seq<Element>, i: nat, j: nat, f: Node -> bool)
    requires i < j <= |s|
    ensures CountNodeIn(s[..i] + [s[i].(children := s[i].children + s[i + 1..j])] + s[j..], f) == CountNodeIn(s, f)
  {
    var d' := s[i].(children := s[i].children + s[i + 1..j]);
    CountNodeInSplit(s, i, f);
    CountNodeAround(s[..i], d', s[j..], f);
    SliceJoin(s, i + 1, j);
    CountNodeInConcat(s[i + 1..j], s[j..], f);
    CountNodeInConcat(s[i].children, s[i + 1..j], f);
    assert NodeOf(d') == NodeOf(s[i]);
  }

  lemma CountNodeAround(a: seq<Element>, x: Element, b: seq<Element>, f: Node -> bool)
    ensures CountNodeIn(a + [x] + b, f) == CountNodeIn(a, f) + CountNode(x, f) + CountNodeIn(b, f)
  {
    CountNodeInSplit(a + [x] + b, |a|, f);
    assert (a + [x] + b)[..|a|] == a && (a + [x] + b)[|a| + 1..] == b;
  }

  lemma CountEdgeAround(a: seq<Element>, x: Element, b: seq<Element>, up: bool, pf: Node -> bool, cf: Node -> bool)
    ensures CountEdgeIn(a + [x] + b, up, pf, cf)
      == CountEdgeIn(a, up, pf, cf) + Link(up, x, cf) + CountEdge(x, pf, cf) + CountEdgeIn(b, up, pf, cf)
  {
    CountEdgeInSplit(a + [x] + b, |a|, up, pf, cf);
    assert (a + [x] + b)[..|a|] == a && (a + [x] + b)[|a| + 1..] == b;
  }

  /** Expansion keeps every node where it was counted. */
  lemma ExpandKeepsNodes(tree: Element, d: Path, f: Node -> bool)
    requires ValidPath(tree, d)
    ensures CountNode(ExpandAt(tree, d), f) == CountNode(tree, f)
  {
    if |d| > 0 {
      ExpandShape(tree, d);
      var a := Parent(d);
      var par := Get(tree, a);
      AbsorbNodes(par.children, d[|d| - 1], f);
      CountNodePut(tree, a, par.(children := Absorb(par.children, d[|d| - 1])), f);
    }
  }

  /** A child counts at least as much under a parent that passes the test. */
  lemma {:induction false} CountEdgeInUp(s: seq<Element>, up: bool, pf: Node -> bool, cf: Node -> bool)
    ensures CountEdgeIn(s, true, pf, cf) >= CountEdgeIn(s, up, pf, cf)
    decreases s
  {
    if |s| > 0 {
      CountEdgeInUp(s[1..], up, pf, cf);
    }
  }

  /** Absorbing into a `div` loses no pair with a `div` parent: the siblings
      it takes move under a `div`. */
  lemma AbsorbDivChildren(s: seq<Element>, i: nat, up: bool, k0: nat)
    requires i < |s| && s[i].tag == "div"
    ensures CountEdgeIn(Absorb(s, i), up, TagIs("div"), KeyIs(k0)) >= CountEdgeIn(s, up, TagIs("div"), KeyIs(k0))
  {
    MoveDivChildren(s, i, FirstDiv(s, i + 1), up, k0);
  }

  lemma MoveDivChildren(s: seq<Element>, i: nat, j: nat, up: bool, k0: nat)
    requires i < j <= |s| && s[i].tag == "div"
    ensures CountEdgeIn(s[..i] + [s[i].(children := s[i].children + s[i + 1..j])] + s[j..], up, TagIs("div"), KeyIs(k0))
      >= CountEdgeIn(s, up, TagIs("div"), KeyIs(k0))
  {
    var pf, cf := TagIs("div"), KeyIs(k0);
    var d' := s[i].(children := s[i].children + s[i + 1..j]);
    CountEdgeInSplit(s, i, up, pf, cf);
    CountEdgeAround(s[..i], d', s[j..], up, pf, cf);
    assert s[i + 1..] == s[i + 1..j] + s[j..];
    CountEdgeInConcat(s[i + 1..j], s[j..], up, pf, cf);
    CountEdgeInConcat(s[i].children, s[i + 1..j], true, pf, cf);
    CountEdgeInUp(s[i + 1..j], up, pf, cf);
    assert pf(NodeOf(d')) && pf(NodeOf(s[i])) && NodeOf(d') == NodeOf(s[i]);
  }

  /** Expanding a `div` loses no pair with a `div` parent. */
  lemma ExpandKeepsDivChildren(tree: Element, d: Path, k0: nat)
    requires ValidPath(tree, d) && Get(tree, d).tag == "div"
    ensures CountEdge(ExpandAt(tree, d), TagIs("div"), KeyIs(k0)) >= CountEdge(tree, TagIs("div"), KeyIs(k0))
  {
    if |d| > 0 {
      ExpandShape(tree, d);
      var a := Parent(d);
      var par := Get(tree, a);
      var i := d[|d| - 1];
      GetAppend(tree, a, i);
      assert d == a + [i];
      AbsorbDivChildren(par.children, i, TagIs("div")(NodeOf(par)), k0);
      CountEdgePutSame(tree, a, par.(children := Absorb(par.children, i)), TagIs("div"), KeyIs(k0));
    }
  }

  lemma CountSlotAround(a: seq<Element>, x: Element, b: seq<Element>, pf: Node -> bool, i: nat, cf: Node -> bool)
    ensures CountSlotIn(a + [x] + b, pf, i, cf) == CountSlotIn(a, pf, i, cf) + CountSlot(x, pf, i, cf) + CountSlotIn(b, pf, i, cf)
  {
    CountSlotInSplit(a + [x] + b, |a|, pf, i, cf);
    assert (a + [x] + b)[..|a|] == a && (a + [x] + b)[|a| + 1..] == b;
  }

  /** Absorbing keeps every first slot: the division's old first child
      stays first, and the siblings it takes keep their subtrees. */
  lemma AbsorbFirstSlots(s: seq<Element>, i: nat, pf: Node -> bool, cf: Node -> bool)
    requires i < |s|
    ensures CountSlotIn(Absorb(s, i), pf, 0, cf) >= CountSlotIn(s, pf, 0, cf)
  {
    MoveFirstSlots(s, i, FirstDiv(s, i + 1), pf, cf);
  }

  lemma MoveFirstSlots(s: seq<Element>, i: nat, j: nat, pf: Node -> bool, cf: Node -> bool)
    requires i < j <= |s|
    ensures CountSlotIn(s[..i] + [s[i].(children := s[i].children + s[i + 1..j])] + s[j..], pf, 0, cf)
      >= CountSlotIn(s, pf, 0, cf)
  {
    var d' := s[i].(children := s[i].children + s[i + 1..j]);
    var before := CountSlotIn(s[..i], pf, 0, cf);
    var after := CountSlotIn(s[j..], pf, 0, cf);
    var taken := CountSlotIn(s[i + 1..j], pf, 0, cf);
    CountSlotInSplit(s, i, pf, 0, cf);
    TakenSlots(s, i, j, pf, cf);
    assert CountSlotIn(s, pf, 0, cf) == before + CountSlot(s[i], pf, 0, cf) + taken + after;
    CountSlotAround(s[..i], d', s[j..], pf, 0, cf);
    AppendKeepsFirst(s[i], s[i + 1..j], pf, cf);
  }

  /** The siblings after index `i` split at `j`. */
  lemma TakenSlots(s: seq<Element>, i: nat, j: nat, pf: Node -> bool, cf: Node -> bool)
    requires i < j <= |s|
    ensures CountSlotIn(s[i + 1..], pf, 0, cf) == CountSlotIn(s[i + 1..j], pf, 0, cf) + CountSlotIn(s[j..], pf, 0, cf)
  {
    assert s[i + 1..] == s[i + 1..j] + s[j..];
    CountSlotInConcat(s[i + 1..j], s[j..], pf, 0, cf);
  }

  /** Appending children keeps the element's first slot and adds the
      slots of the appended subtrees. */
  lemma AppendKeepsFirst(x: Element, t: seq<Element>, pf: Node -> bool, cf: Node -> bool)
    ensures CountSlot(x.(children := x.children + t), pf, 0, cf)
      >= CountSlot(x, pf, 0, cf) + CountSlotIn(t, pf, 0, cf)
  {
    var x' := x.(children := x.children + t);
    CountSlotInConcat(x.children, t, pf, 0, cf);
    if |x.children| > 0 {
      assert x'.children[0] == x.children[0];
    }
    assert SlotOf(x', pf, 0, cf) >= SlotOf(x, pf, 0, cf);
  }

  /** Expansion keeps every first slot: it only appends children to the
      division and takes siblings after it. */
  lemma ExpandKeepsFirstSlots(tree: Element, d: Path, pf: Node -> bool, cf: Node -> bool)
    requires ValidPath(tree, d)
    ensures CountSlot(ExpandAt(tree, d), pf, 0, cf) >= CountSlot(tree, pf, 0, cf)
  {
    if |d| > 0 {
      ExpandShape(tree, d);
      var a := Parent(d);
      var par := Get(tree, a);
      var i := d[|d| - 1];
      var r := Absorb(par.children, i);
      AbsorbFirstSlots(par.children, i, pf, cf);
      AbsorbKeepsFirst(par, i, pf, cf);
      CountSlotPutSame(tree, a, par.(children := r), pf, 0, cf);
    }
  }

  /** The parent's first child keeps its node when a child absorbs. */
  lemma AbsorbKeepsFirst(par: Element, i: nat, pf: Node -> bool, cf: Node -> bool)
    requires i < |par.children|
    ensures SlotOf(par.(children := Absorb(par.children, i)), pf, 0, cf) >= SlotOf(par, pf, 0, cf)
  {
    var r := Absorb(par.children, i);
    if i > 0 {
      assert r[0] == r[..i][0];
    } else {
      assert NodeOf(r[0]) == NodeOf(par.children[0]);
    }
  }
}
