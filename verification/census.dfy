/** Censuses of a tree that survive moving elements around: how many
    elements have a given node (an element without its children), and how
    many parent-child pairs have given nodes. With unique keys a positive
    census pins down the element found by key, which is how the pass-level
    contracts say where a division ended up. */
module Census {
  import opened Tree

  /** An element without its children. */
  datatype Node = Node(key: nat, tag: string, attrs: map<string, string>, text: string, tail: string)

  function NodeOf(e: Element): Node {
    Node(e.key, e.tag, e.attrs, e.text, e.tail)
  }

  /** The node test for key `k`. */
  function KeyIs(k: nat): Node -> bool {
    (n: Node) => n.key == k
  }

  /** The node test for local name `t`. */
  function TagIs(t: string): Node -> bool {
    (n: Node) => n.tag == t
  }

  /** Any node when `c` is `None`, else the node test for key `c.value`. */
  function KeyMatch(c: Option<nat>): Node -> bool {
    (n: Node) => c.None? || n.key == c.value
  }

  /* ---------------- nodes ---------------- */

  /** How many elements of the subtree have a node passing `f`. */
  function CountNode(e: Element, f: Node -> bool): nat
    decreases e
  {
    (if f(NodeOf(e)) then 1 else 0) + CountNodeIn(e.children, f)
  }

  function CountNodeIn(s: seq<Element>, f: Node -> bool): nat
    decreases s
  {
    if |s| == 0 then 0 else CountNode(s[0], f) + CountNodeIn(s[1..], f)
  }

  lemma {:induction false} CountNodeInConcat(a: seq<Element>, b: seq<Element>, f: Node -> bool)
    ensures CountNodeIn(a + b, f) == CountNodeIn(a, f) + CountNodeIn(b, f)
    decreases a
  {
    if |a| > 0 {
      assert (a + b)[1..] == a[1..] + b;
      CountNodeInConcat(a[1..], b, f);
    } else {
      assert a + b == b;
    }
  }

  lemma CountNodeInSplit(s: seq<Element>, i: nat, f: Node -> bool)
    requires i < |s|
    ensures CountNodeIn(s, f) == CountNodeIn(s[..i], f) + CountNode(s[i], f) + CountNodeIn(s[i + 1..], f)
  {
    assert s == s[..i] + [s[i]] + s[i + 1..];
    CountNodeInConcat(s[..i] + [s[i]], s[i + 1..], f);
    CountNodeInConcat(s[..i], [s[i]], f);
    CountNodeInSingle(s[i], f);
  }

  lemma CountNodeInSingle(x: Element, f: Node -> bool)
    ensures CountNodeIn([x], f) == CountNode(x, f)
  {
    assert [x][1..] == [];
  }

  lemma CountNodeInUpdate(s: seq<Element>, i: nat, y: Element, f: Node -> bool)
    requires i < |s|
    ensures CountNodeIn(s[i := y], f) + CountNode(s[i], f) == CountNodeIn(s, f) + CountNode(y, f)
  {
    CountNodeInSplit(s, i, f);
    CountNodeInSplit(s[i := y], i, f);
    assert s[i := y][..i] == s[..i] && s[i := y][i + 1..] == s[i + 1..];
  }

  /** `Put` trades the census of the replaced subtree for that of the new
      one: the elements above it keep their nodes. */
  lemma {:induction false} CountNodePut(e: Element, p: Path, x: Element, f: Node -> bool)
    requires ValidPath(e, p)
    ensures CountNode(Put(e, p, x), f) + CountNode(Get(e, p), f) == CountNode(e, f) + CountNode(x, f)
    decreases p
  {
    if |p| > 0 {
      var c := e.children[p[0]];
      CountNodePut(c, p[1..], x, f);
      CountNodeInUpdate(e.children, p[0], Put(c, p[1..], x), f);
    }
  }

  /** A census of nodes with key `k` counts elements with key `k`. */
  lemma {:induction false} CountNodeKey(e: Element, f: Node -> bool, k: nat)
    requires forall n :: f(n) ==> n.key == k
    ensures CountNode(e, f) <= Count(e, k)
    decreases e
  {
    CountNodeInKey(e.children, f, k);
  }

  lemma {:induction false} CountNodeInKey(s: seq<Element>, f: Node -> bool, k: nat)
    requires forall n :: f(n) ==> n.key == k
    ensures CountNodeIn(s, f) <= CountIn(s, k)
    decreases s
  {
    if |s| > 0 {
      CountNodeKey(s[0], f, k);
      CountNodeInKey(s[1..], f, k);
    }
  }

  /** A subtree's census is part of the tree's. */
  lemma {:induction false} CountNodeSub(e: Element, p: Path, f: Node -> bool)
    requires ValidPath(e, p)
    ensures CountNode(Get(e, p), f) <= CountNode(e, f)
    decreases p
  {
    if |p| > 0 {
      CountNodeSub(e.children[p[0]], p[1..], f);
      CountNodeInSplit(e.children, p[0], f);
    }
  }

  /** A positive census names an element of the tree. */
  lemma {:induction false} NodeWitness(e: Element, f: Node -> bool) returns (p: Path)
    requires CountNode(e, f) > 0
    ensures ValidPath(e, p) && f(NodeOf(Get(e, p)))
    decreases e
  {
    if f(NodeOf(e)) {
      return [];
    }
    var j := NodeInWitness(e.children, f);
    var q := NodeWitness(e.children[j], f);
    p := [j] + q;
    assert p[0] == j && p[1..] == q;
  }

  lemma {:induction false} NodeInWitness(s: seq<Element>, f: Node -> bool) returns (j: nat)
    requires CountNodeIn(s, f) > 0
    ensures j < |s| && CountNode(s[j], f) > 0
    decreases s
  {
    if CountNode(s[0], f) > 0 {
      return 0;
    }
    var j' := NodeInWitness(s[1..], f);
    j := j' + 1;
  }

  /** A node of the tree passing `f` is counted. */
  lemma {:induction false} NodeAt(e: Element, p: Path, f: Node -> bool)
    requires ValidPath(e, p) && f(NodeOf(Get(e, p)))
    ensures CountNode(e, f) > 0
    decreases p
  {
    if |p| > 0 {
      NodeAt(e.children[p[0]], p[1..], f);
      CountNodeInSplit(e.children, p[0], f);
    }
  }

  /** With unique keys, a positive census of nodes with key `k` describes
      the element that lookup by `k` finds. */
  lemma FoundNode(e: Element, f: Node -> bool, k: nat)
    requires Count(e, k) <= 1 && CountNode(e, f) > 0
    requires forall n :: f(n) ==> n.key == k
    ensures FindKey(e, k).Some? && f(NodeOf(Get(e, FindKey(e, k).value)))
  {
    var p := NodeWitness(e, f);
    assert Get(e, p).key == k;
    GetCounted(e, p);
    FindKeyComplete(e, k);
    UniquePath(e, p, FindKey(e, k).value);
  }

  /* ---------------- parent-child pairs ---------------- */

  /** 1 when a child `c` under a parent that passes the parent test (`up`)
      passes `cf`, else 0. */
  function Link(up: bool, c: Element, cf: Node -> bool): nat {
    if up && cf(NodeOf(c)) then 1 else 0
  }

  /** How many parent-child pairs of the subtree have a parent passing
      `pf` and a child passing `cf`. */
  function CountEdge(e: Element, pf: Node -> bool, cf: Node -> bool): nat
    decreases e
  {
    CountEdgeIn(e.children, pf(NodeOf(e)), pf, cf)
  }

  /** The pairs of the children `s` and their subtrees, below a parent that
      passes `pf` exactly when `up`. */
  function CountEdgeIn(s: seq<Element>, up: bool, pf: Node -> bool, cf: Node -> bool): nat
    decreases s
  {
    if |s| == 0 then 0
    else Link(up, s[0], cf) + CountEdge(s[0], pf, cf) + CountEdgeIn(s[1..], up, pf, cf)
  }

  lemma {:induction false} CountEdgeInConcat(a: seq<Element>, b: seq<Element>, up: bool, pf: Node -> bool, cf: Node -> bool)
    ensures CountEdgeIn(a + b, up, pf, cf) == CountEdgeIn(a, up, pf, cf) + CountEdgeIn(b, up, pf, cf)
    decreases a
  {
    if |a| > 0 {
      assert (a + b)[1..] == a[1..] + b;
      CountEdgeInConcat(a[1..], b, up, pf, cf);
    } else {
      assert a + b == b;
    }
  }

  lemma CountEdgeInSplit(s: seq<Element>, i: nat, up: bool, pf: Node -> bool, cf: Node -> bool)
    requires i < |s|
    ensures CountEdgeIn(s, up, pf, cf) == CountEdgeIn(s[..i], up, pf, cf)
      + Link(up, s[i], cf) + CountEdge(s[i], pf, cf) + CountEdgeIn(s[i + 1..], up, pf, cf)
  {
    assert s == s[..i] + [s[i]] + s[i + 1..];
    CountEdgeInConcat(s[..i] + [s[i]], s[i + 1..], up, pf, cf);
    CountEdgeInConcat(s[..i], [s[i]], up, pf, cf);
    assert [s[i]][1..] == [];
  }

  lemma CountEdgeInUpdate(s: seq<Element>, i: nat, y: Element, up: bool, pf: Node -> bool, cf: Node -> bool)
    requires i < |s|
    ensures CountEdgeIn(s[i := y], up, pf, cf) + Link(up, s[i], cf) + CountEdge(s[i], pf, cf)
      == CountEdgeIn(s, up, pf, cf) + Link(up, y, cf) + CountEdge(y, pf, cf)
  {
    CountEdgeInSplit(s, i, up, pf, cf);
    CountEdgeInSplit(s[i := y], i, up, pf, cf);
    assert s[i := y][..i] == s[..i] && s[i := y][i + 1..] == s[i + 1..];
  }

  /** `Put` below the root trades the pairs of the replaced subtree, and
      its link to its parent, for those of the new one. */
  lemma {:induction false} CountEdgePut(e: Element, p: Path, x: Element, pf: Node -> bool, cf: Node -> bool)
    requires ValidPath(e, p) && |p| > 0
    ensures ValidPath(e, Parent(p))
    ensures var up := pf(NodeOf(Get(e, Parent(p))));
      CountEdge(Put(e, p, x), pf, cf) + CountEdge(Get(e, p), pf, cf) + Link(up, Get(e, p), cf)
        == CountEdge(e, pf, cf) + CountEdge(x, pf, cf) + Link(up, x, cf)
    decreases p
  {
    GetPrefix(e, p, |p| - 1);
    var c := e.children[p[0]];
    var up := pf(NodeOf(e));
    if |p| == 1 {
      assert Parent(p) == [];
      CountEdgeInUpdate(e.children, p[0], x, up, pf, cf);
    } else {
      CountEdgePut(c, p[1..], x, pf, cf);
      assert Parent(p) == [p[0]] + Parent(p[1..]);
      assert Get(e, Parent(p)) == Get(c, Parent(p[1..]));
      CountEdgeInUpdate(e.children, p[0], Put(c, p[1..], x), up, pf, cf);
    }
  }

  /** Replacing a subtree by one with the same node trades just the pairs
      inside them. */
  lemma CountEdgePutSame(e: Element, p: Path, x: Element, pf: Node -> bool, cf: Node -> bool)
    requires ValidPath(e, p) && NodeOf(x) == NodeOf(Get(e, p))
    ensures CountEdge(Put(e, p, x), pf, cf) + CountEdge(Get(e, p), pf, cf) == CountEdge(e, pf, cf) + CountEdge(x, pf, cf)
  {
    if |p| > 0 {
      CountEdgePut(e, p, x, pf, cf);
    }
  }

  /** No element with key `k` means no pair with a parent of key `k`. */
  lemma {:induction false} CountEdgeAbsent(e: Element, k: nat, cf: Node -> bool)
    requires Count(e, k) == 0
    ensures CountEdge(e, KeyIs(k), cf) == 0
    decreases e
  {
    CountEdgeInAbsent(e.children, false, k, cf);
  }

  lemma {:induction false} CountEdgeInAbsent(s: seq<Element>, up: bool, k: nat, cf: Node -> bool)
    requires CountIn(s, k) == 0 && !up
    ensures CountEdgeIn(s, up, KeyIs(k), cf) == 0
    decreases s
  {
    if |s| > 0 {
      CountEdgeAbsent(s[0], k, cf);
      CountEdgeInAbsent(s[1..], up, k, cf);
    }
  }

  /** A parent-child pair of the tree is counted. */
  lemma {:induction false} EdgeAt(e: Element, q: Path, i: nat, pf: Node -> bool, cf: Node -> bool)
    requires ValidPath(e, q) && i < |Get(e, q).children|
    requires pf(NodeOf(Get(e, q))) && cf(NodeOf(Get(e, q).children[i]))
    ensures CountEdge(e, pf, cf) > 0
    decreases q
  {
    if |q| == 0 {
      CountEdgeInSplit(e.children, i, true, pf, cf);
    } else {
      EdgeAt(e.children[q[0]], q[1..], i, pf, cf);
      CountEdgeInSplit(e.children, q[0], pf(NodeOf(e)), pf, cf);
    }
  }

  /** An element passing `pf` contributes one pair per child. */
  lemma {:induction false} EdgesAtLeast(e: Element, q: Path, pf: Node -> bool)
    requires ValidPath(e, q) && pf(NodeOf(Get(e, q)))
    ensures CountEdge(e, pf, KeyMatch(None)) >= |Get(e, q).children|
    decreases q
  {
    if |q| == 0 {
      EdgesInAll(e.children, pf);
    } else {
      EdgesAtLeast(e.children[q[0]], q[1..], pf);
      CountEdgeInSplit(e.children, q[0], pf(NodeOf(e)), pf, KeyMatch(None));
    }
  }

  lemma {:induction false} EdgesInAll(s: seq<Element>, pf: Node -> bool)
    ensures CountEdgeIn(s, true, pf, KeyMatch(None)) >= |s|
    decreases s
  {
    if |s| > 0 {
      EdgesInAll(s[1..], pf);
    }
  }

  /** A positive census of pairs names a parent and one of its children. */
  lemma {:induction false} EdgeWitness(e: Element, pf: Node -> bool, cf: Node -> bool) returns (q: Path, i: nat)
    requires CountEdge(e, pf, cf) > 0
    ensures ValidPath(e, q) && i < |Get(e, q).children|
    ensures pf(NodeOf(Get(e, q))) && cf(NodeOf(Get(e, q).children[i]))
    decreases e
  {
    var j := EdgeInWitness(e.children, pf(NodeOf(e)), pf, cf);
    if Link(pf(NodeOf(e)), e.children[j], cf) > 0 {
      return [], j;
    }
    var q2, i2 := EdgeWitness(e.children[j], pf, cf);
    q, i := [j] + q2, i2;
    assert q[0] == j && q[1..] == q2;
  }

  lemma {:induction false} EdgeInWitness(s: seq<Element>, up: bool, pf: Node -> bool, cf: Node -> bool) returns (j: nat)
    requires CountEdgeIn(s, up, pf, cf) > 0
    ensures j < |s| && Link(up, s[j], cf) + CountEdge(s[j], pf, cf) > 0
    decreases s
  {
    if Link(up, s[0], cf) + CountEdge(s[0], pf, cf) > 0 {
      return 0;
    }
    var j' := EdgeInWitness(s[1..], up, pf, cf);
    j := j' + 1;
  }

  /** With unique keys, a positive census of pairs whose child has key `k`
      describes the parent of the element that lookup by `k` finds. */
  lemma FoundChild(e: Element, pf: Node -> bool, k: nat)
    requires Count(e, k) <= 1 && CountEdge(e, pf, KeyIs(k)) > 0
    ensures FindKey(e, k).Some? && |FindKey(e, k).value| > 0
    ensures ValidPath(e, Parent(FindKey(e, k).value)) && pf(NodeOf(Get(e, Parent(FindKey(e, k).value))))
  {
    var q, i := EdgeWitness(e, pf, KeyIs(k));
    GetAppend(e, q, i);
    var p := q + [i];
    assert Get(e, p).key == k;
    GetCounted(e, p);
    FindKeyComplete(e, k);
    UniquePath(e, p, FindKey(e, k).value);
    assert Parent(p) == q;
  }

  /* ---------------- child slots ---------------- */

  /** The node test for a `head` with text `v`. */
  function HeadText(v: string): Node -> bool {
    (n: Node) => n.tag == "head" && n.text == v
  }

  /** 1 when `e` passes `pf` and its child at index `i` passes `cf`, else 0. */
  function SlotOf(e: Element, pf: Node -> bool, i: nat, cf: Node -> bool): nat {
    if pf(NodeOf(e)) && i < |e.children| && cf(NodeOf(e.children[i])) then 1 else 0
  }

  /** How many elements of the subtree pass `pf` and have a child at index
      `i` passing `cf`. Unlike the pair census this one sees positions: a
      child that moves to another index leaves its slot. */
  function CountSlot(e: Element, pf: Node -> bool, i: nat, cf: Node -> bool): nat
    decreases e
  {
    SlotOf(e, pf, i, cf) + CountSlotIn(e.children, pf, i, cf)
  }

  function CountSlotIn(s: seq<Element>, pf: Node -> bool, i: nat, cf: Node -> bool): nat
    decreases s
  {
    if |s| == 0 then 0 else CountSlot(s[0], pf, i, cf) + CountSlotIn(s[1..], pf, i, cf)
  }

  lemma {:induction false} CountSlotInConcat(a: seq<Element>, b: seq<Element>, pf: Node -> bool, i: nat, cf: Node -> bool)
    ensures CountSlotIn(a + b, pf, i, cf) == CountSlotIn(a, pf, i, cf) + CountSlotIn(b, pf, i, cf)
    decreases a
  {
    if |a| > 0 {
      assert (a + b)[1..] == a[1..] + b;
      CountSlotInConcat(a[1..], b, pf, i, cf);
    } else {
      assert a + b == b;
    }
  }

  lemma CountSlotInSplit(s: seq<Element>, k: nat, pf: Node -> bool, i: nat, cf: Node -> bool)
    requires k < |s|
    ensures CountSlotIn(s, pf, i, cf)
      == CountSlotIn(s[..k], pf, i, cf) + CountSlot(s[k], pf, i, cf) + CountSlotIn(s[k + 1..], pf, i, cf)
  {
    assert s == s[..k] + [s[k]] + s[k + 1..];
    CountSlotInConcat(s[..k] + [s[k]], s[k + 1..], pf, i, cf);
    CountSlotInConcat(s[..k], [s[k]], pf, i, cf);
    assert [s[k]][1..] == [];
  }

  lemma CountSlotInUpdate(s: seq<Element>, k: nat, y: Element, pf: Node -> bool, i: nat, cf: Node -> bool)
    requires k < |s|
    ensures CountSlotIn(s[k := y], pf, i, cf) + CountSlot(s[k], pf, i, cf)
      == CountSlotIn(s, pf, i, cf) + CountSlot(y, pf, i, cf)
  {
    CountSlotInSplit(s, k, pf, i, cf);
    CountSlotInSplit(s[k := y], k, pf, i, cf);
    assert s[k := y][..k] == s[..k] && s[k := y][k + 1..] == s[k + 1..];
  }

  /** `Put` below the root trades the slots of the replaced subtree, and
      the slot it fills in its parent, for those of the new one. */
  lemma {:induction false} CountSlotPut(e: Element, p: Path, x: Element, pf: Node -> bool, i: nat, cf: Node -> bool)
    requires ValidPath(e, p) && |p| > 0
    ensures ValidPath(e, Parent(p))
    ensures var at := p[|p| - 1] == i && pf(NodeOf(Get(e, Parent(p))));
      CountSlot(Put(e, p, x), pf, i, cf) + CountSlot(Get(e, p), pf, i, cf) + (if at && cf(NodeOf(Get(e, p))) then 1 else 0)
        == CountSlot(e, pf, i, cf) + CountSlot(x, pf, i, cf) + (if at && cf(NodeOf(x)) then 1 else 0)
    decreases p
  {
    GetPrefix(e, p, |p| - 1);
    var c := e.children[p[0]];
    var y := Put(c, p[1..], x);
    CountSlotInUpdate(e.children, p[0], y, pf, i, cf);
    if |p| == 1 {
      assert Parent(p) == [];
    } else {
      CountSlotPut(c, p[1..], x, pf, i, cf);
      assert Parent(p) == [p[0]] + Parent(p[1..]);
      assert Get(e, Parent(p)) == Get(c, Parent(p[1..]));
      assert NodeOf(y) == NodeOf(c);
    }
  }

  /** Replacing a subtree by one with the same node trades just the slots
      inside them. */
  lemma CountSlotPutSame(e: Element, p: Path, x: Element, pf: Node -> bool, i: nat, cf: Node -> bool)
    requires ValidPath(e, p) && NodeOf(x) == NodeOf(Get(e, p))
    ensures CountSlot(Put(e, p, x), pf, i, cf) + CountSlot(Get(e, p), pf, i, cf)
      == CountSlot(e, pf, i, cf) + CountSlot(x, pf, i, cf)
  {
    if |p| > 0 {
      CountSlotPut(e, p, x, pf, i, cf);
    }
  }

  /** A filled slot of the tree is counted. */
  lemma {:induction false} SlotAt(e: Element, q: Path, i: nat, pf: Node -> bool, cf: Node -> bool)
    requires ValidPath(e, q) && i < |Get(e, q).children|
    requires pf(NodeOf(Get(e, q))) && cf(NodeOf(Get(e, q).children[i]))
    ensures CountSlot(e, pf, i, cf) > 0
    decreases q
  {
    if |q| > 0 {
      SlotAt(e.children[q[0]], q[1..], i, pf, cf);
      CountSlotInSplit(e.children, q[0], pf, i, cf);
    }
  }

  /** A positive slot census names an element and its child at `i`. */
  lemma {:induction false} SlotWitness(e: Element, pf: Node -> bool, i: nat, cf: Node -> bool) returns (q: Path)
    requires CountSlot(e, pf, i, cf) > 0
    ensures ValidPath(e, q) && i < |Get(e, q).children|
    ensures pf(NodeOf(Get(e, q))) && cf(NodeOf(Get(e, q).children[i]))
    decreases e
  {
    if SlotOf(e, pf, i, cf) > 0 {
      return [];
    }
    var j := SlotInWitness(e.children, pf, i, cf);
    var q2 := SlotWitness(e.children[j], pf, i, cf);
    q := [j] + q2;
    assert q[0] == j && q[1..] == q2;
  }

  lemma {:induction false} SlotInWitness(s: seq<Element>, pf: Node -> bool, i: nat, cf: Node -> bool) returns (j: nat)
    requires CountSlotIn(s, pf, i, cf) > 0
    ensures j < |s| && CountSlot(s[j], pf, i, cf) > 0
    decreases s
  {
    if CountSlot(s[0], pf, i, cf) > 0 {
      return 0;
    }
    var j' := SlotInWitness(s[1..], pf, i, cf);
    j := j' + 1;
  }

  /** With unique keys, a filled slot whose child has key `k` describes
      where lookup by `k` finds it: below the slot's element, at index `i`. */
  lemma FoundSlot(e: Element, pf: Node -> bool, i: nat, k: nat)
    requires Count(e, k) <= 1 && CountSlot(e, pf, i, KeyIs(k)) > 0
    ensures FindKey(e, k).Some? && |FindKey(e, k).value| > 0
    ensures var p := FindKey(e, k).value;
      && ValidPath(e, Parent(p)) && p[|p| - 1] == i && pf(NodeOf(Get(e, Parent(p))))
  {
    var q := SlotWitness(e, pf, i, KeyIs(k));
    GetAppend(e, q, i);
    var p := q + [i];
    GetCounted(e, p);
    FindKeyComplete(e, k);
    UniquePath(e, p, FindKey(e, k).value);
    assert Parent(p) == q;
  }

  /** With unique keys, a filled slot of the element keyed `k` describes
      the element that lookup by `k` finds. */
  lemma FoundSlotParent(e: Element, pf: Node -> bool, k: nat, i: nat, cf: Node -> bool)
    requires Count(e, k) <= 1 && CountSlot(e, pf, i, cf) > 0
    requires forall n :: pf(n) ==> n.key == k
    ensures FindKey(e, k).Some?
    ensures var d := Get(e, FindKey(e, k).value);
      pf(NodeOf(d)) && i < |d.children| && cf(NodeOf(d.children[i]))
  {
    var q := SlotWitness(e, pf, i, cf);
    GetCounted(e, q);
    FindKeyComplete(e, k);
    UniquePath(e, q, FindKey(e, k).value);
  }

  /* ---------------- elements below a div ---------------- */

  /** Whether some element strictly above the one at `p` is a `div`, where
      `above` says so for `e` itself. */
  function AboveAt(e: Element, above: bool, p: Path): bool
    requires ValidPath(e, p)
    decreases p
  {
    if |p| == 0 then above else AboveAt(e.children[p[0]], above || e.tag == "div", p[1..])
  }

  /** How many elements with key `k` in the subtree have a `div` strictly
      above them, where `above` says so for `e` itself. */
  function Covered(e: Element, above: bool, k: nat): nat
    decreases e
  {
    (if above && e.key == k then 1 else 0) + CoveredIn(e.children, above || e.tag == "div", k)
  }

  function CoveredIn(s: seq<Element>, above: bool, k: nat): nat
    decreases s
  {
    if |s| == 0 then 0 else Covered(s[0], above, k) + CoveredIn(s[1..], above, k)
  }

  lemma {:induction false} CoveredInConcat(a: seq<Element>, b: seq<Element>, above: bool, k: nat)
    ensures CoveredIn(a + b, above, k) == CoveredIn(a, above, k) + CoveredIn(b, above, k)
    decreases a
  {
    if |a| > 0 {
      assert (a + b)[1..] == a[1..] + b;
      CoveredInConcat(a[1..], b, above, k);
    } else {
      assert a + b == b;
    }
  }

  lemma CoveredInSingle(x: Element, above: bool, k: nat)
    ensures CoveredIn([x], above, k) == Covered(x, above, k)
  {
    assert [x][1..] == [];
  }

  lemma CoveredInSplit(s: seq<Element>, i: nat, above: bool, k: nat)
    requires i < |s|
    ensures CoveredIn(s, above, k) == CoveredIn(s[..i], above, k) + Covered(s[i], above, k) + CoveredIn(s[i + 1..], above, k)
  {
    assert s == s[..i] + [s[i]] + s[i + 1..];
    CoveredInConcat(s[..i] + [s[i]], s[i + 1..], above, k);
    CoveredInConcat(s[..i], [s[i]], above, k);
    CoveredInSingle(s[i], above, k);
  }

  lemma CoveredInUpdate(s: seq<Element>, i: nat, y: Element, above: bool, k: nat)
    requires i < |s|
    ensures CoveredIn(s[i := y], above, k) + Covered(s[i], above, k) == CoveredIn(s, above, k) + Covered(y, above, k)
  {
    CoveredInSplit(s, i, above, k);
    CoveredInSplit(s[i := y], i, above, k);
    assert s[i := y][..i] == s[..i] && s[i := y][i + 1..] == s[i + 1..];
  }

  /** `Put` trades the covered elements of the replaced subtree for those
      of the new one, both seen from the same place: the elements above
      that place keep their tags. */
  lemma {:induction false} CoveredPut(e: Element, above: bool, p: Path, x: Element, k: nat)
    requires ValidPath(e, p)
    ensures var a := AboveAt(e, above, p);
      Covered(Put(e, p, x), above, k) + Covered(Get(e, p), a, k) == Covered(e, above, k) + Covered(x, a, k)
    decreases p
  {
    if |p| > 0 {
      var c := e.children[p[0]];
      var b := above || e.tag == "div";
      CoveredPut(c, b, p[1..], x, k);
      CoveredInUpdate(e.children, p[0], Put(c, p[1..], x), b, k);
    }
  }

  /** Having a `div` above can only add covered elements. */
  lemma {:induction false} CoveredMono(e: Element, a: bool, b: bool, k: nat)
    requires a ==> b
    ensures Covered(e, a, k) <= Covered(e, b, k)
    decreases e
  {
    CoveredInMono(e.children, a || e.tag == "div", b || e.tag == "div", k);
  }

  lemma {:induction false} CoveredInMono(s: seq<Element>, a: bool, b: bool, k: nat)
    requires a ==> b
    ensures CoveredIn(s, a, k) <= CoveredIn(s, b, k)
    decreases s
  {
    if |s| > 0 {
      CoveredMono(s[0], a, b, k);
      CoveredInMono(s[1..], a, b, k);
    }
  }

  /** Covered elements with key `k` are elements with key `k`. */
  lemma {:induction false} CoveredCount(e: Element, above: bool, k: nat)
    ensures Covered(e, above, k) <= Count(e, k)
    decreases e
  {
    CoveredInCount(e.children, above || e.tag == "div", k);
  }

  lemma {:induction false} CoveredInCount(s: seq<Element>, above: bool, k: nat)
    ensures CoveredIn(s, above, k) <= CountIn(s, k)
    decreases s
  {
    if |s| > 0 {
      CoveredCount(s[0], above, k);
      CoveredInCount(s[1..], above, k);
    }
  }

  /** A subtree holds no more elements with a key than the tree. */
  lemma {:induction false} CountGet(e: Element, p: Path, k: nat)
    requires ValidPath(e, p)
    ensures Count(Get(e, p), k) <= Count(e, k)
    decreases p
  {
    if |p| > 0 {
      CountGet(e.children[p[0]], p[1..], k);
      CountInChild(e.children, p[0], k);
    }
  }

  /** With a key held once, the census of covered elements with that key
      says whether the element holding it has a `div` above. */
  lemma {:induction false} CoveredAt(e: Element, above: bool, p: Path)
    requires ValidPath(e, p) && Count(e, Get(e, p).key) <= 1
    ensures Covered(e, above, Get(e, p).key) == (if AboveAt(e, above, p) then 1 else 0)
    decreases p
  {
    var k := Get(e, p).key;
    var b := above || e.tag == "div";
    if |p| == 0 {
      CoveredInCount(e.children, b, k);
    } else {
      var c := e.children[p[0]];
      GetCounted(c, p[1..]);
      CountInSplit(e.children, p[0], k);
      CoveredInSplit(e.children, p[0], b, k);
      CoveredInCount(e.children[..p[0]], b, k);
      CoveredInCount(e.children[p[0] + 1..], b, k);
      CoveredAt(c, b, p[1..]);
    }
  }
}
