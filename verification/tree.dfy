/** The element tree as lxml stores it, and the failure-carrying result the
    passes return. */
module Tree {

  /** How a pass fails. Each case is an exception the Python code raises. */
  datatype Error =
    /** A seeded division has no `div` ancestor: the raise loop reaches the
        root, where `addnext`/`addprevious` raise (or `getparent()` yields
        None). */
    | NoDivAncestor
    /** An element handle no longer occurs in the document. */
    | MissingElement
    /** `addprevious` on the root element. */
    | RootSibling
    /** `image_urls.pop(0)` on an empty list. */
    | MissingImageUrl
    /** `any_xpath(".//tei:facsimile")[0]` on an empty result. */
    | NoFacsimile
    /** A row of the metadata dump lacks one of the id fields (a KeyError). */
    | MissingField

  datatype Result<+T> = Ok(value: T) | Err(error: Error)

  /** An element: `key` stands for lxml's object identity, `tag` is the
      local name, `text` is the leading text before the first child and
      `tail` the text after the element, before its next sibling. A missing
      (None) text or tail is the empty string. */
  datatype Element = Element(
    key: nat,
    tag: string,
    attrs: map<string, string>,
    text: string,
    children: seq<Element>,
    tail: string)

  /** A child-index path from the root. */
  type Path = seq<nat>

  predicate ValidPath(e: Element, p: Path)
    decreases p
  {
    |p| == 0 || (p[0] < |e.children| && ValidPath(e.children[p[0]], p[1..]))
  }

  /** The element at path `p`. */
  function Get(e: Element, p: Path): Element
    requires ValidPath(e, p)
    decreases p
  {
    if |p| == 0 then e else Get(e.children[p[0]], p[1..])
  }

  /** `e` with the subtree at `p` replaced by `x`. */
  function Put(e: Element, p: Path, x: Element): (r: Element)
    requires ValidPath(e, p)
    ensures ValidPath(r, p) && Get(r, p) == x
    ensures |p| > 0 ==> (r.key == e.key && r.tag == e.tag && r.attrs == e.attrs
      && r.text == e.text && r.tail == e.tail && |r.children| == |e.children|)
    decreases p
  {
    if |p| == 0 then x
    else e.(children := e.children[p[0] := Put(e.children[p[0]], p[1..], x)])
  }

  /** `x` and `y` agree on everything but their children. */
  predicate SameNode(x: Element, y: Element) {
    x.key == y.key && x.tag == y.tag && x.attrs == y.attrs && x.text == y.text && x.tail == y.tail
  }

  /** `Put` leaves the elements on the way down to `p` as they were, apart
      from their children. */
  lemma {:induction false} PutKeepsAncestors(e: Element, p: Path, x: Element, j: nat)
    requires ValidPath(e, p) && j < |p|
    ensures ValidPath(e, p[..j]) && ValidPath(Put(e, p, x), p[..j])
    ensures SameNode(Get(Put(e, p, x), p[..j]), Get(e, p[..j]))
    decreases p
  {
    if j > 0 {
      assert p[..j][1..] == p[1..][..j - 1];
      PutKeepsAncestors(e.children[p[0]], p[1..], x, j - 1);
    }
  }

  /** The path of the parent of a non-root element. */
  function Parent(p: Path): Path
    requires |p| > 0
  {
    p[..|p| - 1]
  }

  lemma {:induction false} GetAppend(e: Element, p: Path, i: nat)
    requires ValidPath(e, p)
    ensures ValidPath(e, p + [i]) <==> i < |Get(e, p).children|
    ensures ValidPath(e, p + [i]) ==> Get(e, p + [i]) == Get(e, p).children[i]
    decreases p
  {
    if |p| > 0 {
      assert (p + [i])[1..] == p[1..] + [i];
      GetAppend(e.children[p[0]], p[1..], i);
    }
  }

  /** A valid path's prefixes are valid, and lookup composes along them. */
  lemma {:induction false} GetPrefix(e: Element, p: Path, j: nat)
    requires ValidPath(e, p) && j <= |p|
    ensures ValidPath(e, p[..j]) && ValidPath(Get(e, p[..j]), p[j..])
    ensures Get(Get(e, p[..j]), p[j..]) == Get(e, p)
    decreases p
  {
    if j > 0 {
      assert p[..j][1..] == p[1..][..j - 1];
      assert p[j..] == p[1..][j - 1..];
      GetPrefix(e.children[p[0]], p[1..], j - 1);
    }
  }

  /** How many elements of the subtree carry key `k`. "No element lost or
      duplicated" is a statement about these counts, for every key. */
  function Count(e: Element, k: nat): nat
    decreases e
  {
    (if e.key == k then 1 else 0) + CountIn(e.children, k)
  }

  function CountIn(s: seq<Element>, k: nat): nat
    decreases s
  {
    if |s| == 0 then 0 else Count(s[0], k) + CountIn(s[1..], k)
  }

  lemma {:induction false} CountInConcat(a: seq<Element>, b: seq<Element>, k: nat)
    ensures CountIn(a + b, k) == CountIn(a, k) + CountIn(b, k)
    decreases a
  {
    if |a| > 0 {
      assert (a + b)[1..] == a[1..] + b;
      CountInConcat(a[1..], b, k);
    } else {
      assert a + b == b;
    }
  }

  lemma CountInSingle(x: Element, k: nat)
    ensures CountIn([x], k) == Count(x, k)
  {
    assert [x][1..] == [];
  }

  /** The children around the one at `i` carry the rest of the count. */
  lemma CountInSplit(s: seq<Element>, i: nat, k: nat)
    requires i < |s|
    ensures CountIn(s, k) == CountIn(s[..i], k) + Count(s[i], k) + CountIn(s[i + 1..], k)
  {
    assert s == s[..i] + [s[i]] + s[i + 1..];
    CountInConcat(s[..i] + [s[i]], s[i + 1..], k);
    CountInConcat(s[..i], [s[i]], k);
    CountInSingle(s[i], k);
  }

  /** Replacing one child swaps exactly that child's count. */
  lemma CountInUpdate(s: seq<Element>, i: nat, y: Element, k: nat)
    requires i < |s|
    ensures CountIn(s[i := y], k) + Count(s[i], k) == CountIn(s, k) + Count(y, k)
  {
    CountInSplit(s, i, k);
    CountInSplit(s[i := y], i, k);
    assert s[i := y][..i] == s[..i] && s[i := y][i + 1..] == s[i + 1..];
  }

  /** `Put` trades the count of the replaced subtree for that of the new one. */
  lemma {:induction false} CountPut(e: Element, p: Path, x: Element, k: nat)
    requires ValidPath(e, p)
    ensures Count(Put(e, p, x), k) + Count(Get(e, p), k) == Count(e, k) + Count(x, k)
    decreases p
  {
    if |p| > 0 {
      var c := e.children[p[0]];
      CountPut(c, p[1..], x, k);
      CountInUpdate(e.children, p[0], Put(c, p[1..], x), k);
    }
  }

  /** A key inside one child is a key of the children. */
  lemma CountInChild(s: seq<Element>, i: nat, k: nat)
    requires i < |s|
    ensures Count(s[i], k) <= CountIn(s, k)
  {
    CountInSplit(s, i, k);
  }

  /** The element at a path is one of the tree's elements. */
  lemma {:induction false} GetCounted(e: Element, p: Path)
    requires ValidPath(e, p)
    ensures Count(e, Get(e, p).key) > 0
    decreases p
  {
    if |p| > 0 {
      GetCounted(e.children[p[0]], p[1..]);
      CountInChild(e.children, p[0], Get(e, p).key);
    }
  }

  /** The first path, in document order, holding an element with key `k`
      within the children `s`. */
  function FindKeyIn(s: seq<Element>, k: nat): (r: Option<Path>)
    ensures r.Some? ==> (|r.value| > 0 && r.value[0] < |s|
      && ValidPath(s[r.value[0]], r.value[1..]) && Get(s[r.value[0]], r.value[1..]).key == k)
    decreases s
  {
    if |s| == 0 then None
    else
      match FindKey(s[0], k)
      case Some(p) => Some([0] + p)
      case None =>
        match FindKeyIn(s[1..], k)
        case Some(p) =>
          assert ([p[0] + 1] + p[1..])[1..] == p[1..];
          Some([p[0] + 1] + p[1..])
        case None => None
  }

  /** The first path, in document order, of an element with key `k`; the
      way a held lxml element is found again in the tree. */
  function FindKey(e: Element, k: nat): (r: Option<Path>)
    ensures r.Some? ==> ValidPath(e, r.value) && Get(e, r.value).key == k
    decreases e
  {
    if e.key == k then Some([])
    else
      match FindKeyIn(e.children, k)
      case Some(p) => Some(p)
      case None => None
  }

  /** The search fails exactly when no element has the key. */
  lemma {:induction false} FindKeyComplete(e: Element, k: nat)
    ensures FindKey(e, k).None? <==> Count(e, k) == 0
    decreases e
  {
    if e.key != k {
      FindKeyInComplete(e.children, k);
    }
  }

  lemma {:induction false} FindKeyInComplete(s: seq<Element>, k: nat)
    ensures FindKeyIn(s, k).None? <==> CountIn(s, k) == 0
    decreases s
  {
    if |s| > 0 {
      FindKeyComplete(s[0], k);
      FindKeyInComplete(s[1..], k);
    }
  }

  datatype Option<+T> = None | Some(value: T)

  /** No two elements share a key: lxml's object identity. */
  ghost predicate Unique(e: Element) {
    forall k :: Count(e, k) <= 1
  }

  /** Every key of the tree is below `n`, so keys from `n` on are fresh. */
  ghost predicate KeysBelow(e: Element, n: nat) {
    forall k :: k >= n ==> Count(e, k) == 0
  }

  /** Two different children carry their counts separately. */
  lemma CountInTwo(s: seq<Element>, i: nat, j: nat, k: nat)
    requires i < j < |s|
    ensures Count(s[i], k) + Count(s[j], k) <= CountIn(s, k)
  {
    CountInSplit(s, j, k);
    CountInChild(s[..j], i, k);
    assert s[..j][i] == s[i];
  }

  /** A key held once is held at one path only. */
  lemma {:induction false} UniquePath(e: Element, p: Path, q: Path)
    requires ValidPath(e, p) && ValidPath(e, q) && Get(e, p).key == Get(e, q).key
    requires Count(e, Get(e, p).key) <= 1
    ensures p == q
    decreases p
  {
    var k := Get(e, p).key;
    if |p| > 0 {
      GetCounted(e.children[p[0]], p[1..]);
    }
    if |q| > 0 {
      GetCounted(e.children[q[0]], q[1..]);
    }
    if |p| > 0 && |q| > 0 {
      if p[0] < q[0] {
        CountInTwo(e.children, p[0], q[0], k);
      } else if q[0] < p[0] {
        CountInTwo(e.children, q[0], p[0], k);
      } else {
        CountInChild(e.children, p[0], k);
        UniquePath(e.children[p[0]], p[1..], q[1..]);
        assert p == [p[0]] + p[1..] && q == [q[0]] + q[1..];
      }
    } else if |p| > 0 {
      CountInChild(e.children, p[0], k);
    } else if |q| > 0 {
      CountInChild(e.children, q[0], k);
    }
  }

  /** 1 when `k` is one of the fresh keys `lo`, ..., `hi - 1`, else 0. */
  function Fresh(lo: nat, hi: nat, k: nat): nat {
    if lo <= k < hi then 1 else 0
  }

  /** Fresh keys handed out in two rounds are those of one longer round. */
  lemma FreshSplit(lo: nat, mid: nat, hi: nat, k: nat)
    requires lo <= mid <= hi
    ensures Fresh(lo, mid, k) + Fresh(mid, hi, k) == Fresh(lo, hi, k)
  {
  }
}
