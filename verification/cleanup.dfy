/** The two cleanup passes run after segmentation:
    `remove_useless_atributes` (scripts/refine_tei.py:144-147) and
    `remove_useless_elements` (scripts/refine_tei.py:150-155). */
module Cleanup {
  import opened Text
  import opened Tree

  /** The tags whose attributes the first pass clears. */
  predicate Cleared(tag: string) {
    tag == "lb" || tag == "p" || tag == "head"
  }

  /** `remove_useless_atributes`: every `lb`, `p` and `head` element below
      the root loses all its attributes. The descendant query is relative to the
      root element, so the root itself is not among the selected elements. */
  function RemoveAttrs(doc: Element): (r: Element)
    ensures SameNodeButAttrs(r, doc) && r.attrs == doc.attrs && |r.children| == |doc.children|
    ensures forall i :: 0 <= i < |doc.children| ==> r.children[i] == StripAttrs(doc.children[i])
  {
    doc.(children := seq(|doc.children|, i requires 0 <= i < |doc.children| => StripAttrs(doc.children[i])))
  }

  /** The pass on a subtree all of whose elements are selected. */
  function StripAttrs(e: Element): (r: Element)
    ensures SameNodeButAttrs(r, e) && |r.children| == |e.children|
    ensures forall i :: 0 <= i < |e.children| ==> r.children[i] == StripAttrs(e.children[i])
    decreases e
  {
    Element(e.key, e.tag, if Cleared(e.tag) then map[] else e.attrs, e.text,
      seq(|e.children|, i requires 0 <= i < |e.children| => StripAttrs(e.children[i])),
      e.tail)
  }

  /** `x` and `y` agree on everything but their attributes and children. */
  predicate SameNodeButAttrs(x: Element, y: Element) {
    x.key == y.key && x.tag == y.tag && x.text == y.text && x.tail == y.tail
  }

  /** Seen at any path, the pass has emptied the attributes exactly of the
      `lb`, `p` and `head` elements and left everything else as it was:
      the same paths exist, with the same keys, tags, texts and tails. */
  lemma {:induction false} StripAttrsAt(e: Element, p: Path)
    ensures ValidPath(StripAttrs(e), p) <==> ValidPath(e, p)
    ensures ValidPath(e, p) ==>
      var x := Get(e, p);
      var y := Get(StripAttrs(e), p);
      && SameNodeButAttrs(y, x) && |y.children| == |x.children|
      && y.attrs == (if Cleared(x.tag) then map[] else x.attrs)
    decreases p
  {
    if |p| > 0 && p[0] < |e.children| {
      StripAttrsAt(e.children[p[0]], p[1..]);
    }
  }

  /** Running the pass a second time changes nothing. */
  lemma {:induction false} StripAttrsIdempotent(e: Element)
    ensures StripAttrs(StripAttrs(e)) == StripAttrs(e)
    decreases e
  {
    var r := StripAttrs(e);
    var rr := StripAttrs(r);
    forall i | 0 <= i < |e.children|
      ensures rr.children[i] == r.children[i]
    {
      StripAttrsIdempotent(e.children[i]);
    }
    assert rr.children == r.children;
  }

  /** Seen at any path of the document, the pass has emptied the
      attributes exactly of the `lb`, `p` and `head` elements other than the
      root, and left everything else as it was. */
  lemma RemoveAttrsAt(doc: Element, p: Path)
    ensures ValidPath(RemoveAttrs(doc), p) <==> ValidPath(doc, p)
    ensures ValidPath(doc, p) ==>
      var x := Get(doc, p);
      var y := Get(RemoveAttrs(doc), p);
      && SameNodeButAttrs(y, x) && |y.children| == |x.children|
      && y.attrs == (if |p| > 0 && Cleared(x.tag) then map[] else x.attrs)
  {
    if |p| > 0 && p[0] < |doc.children| {
      StripAttrsAt(doc.children[p[0]], p[1..]);
    }
  }

  /** Running the pass a second time changes nothing. */
  lemma RemoveAttrsIdempotent(doc: Element)
    ensures RemoveAttrs(RemoveAttrs(doc)) == RemoveAttrs(doc)
  {
    var r := RemoveAttrs(doc);
    var rr := RemoveAttrs(r);
    forall i | 0 <= i < |doc.children|
      ensures rr.children[i] == r.children[i]
    {
      StripAttrsIdempotent(doc.children[i]);
    }
    assert rr.children == r.children;
  }

  /** The pass keeps every element: each key occurs as often as before. */
  lemma RemoveAttrsCount(doc: Element, k: nat)
    ensures Count(RemoveAttrs(doc), k) == Count(doc, k)
  {
    StripAttrsCountIn(doc.children, RemoveAttrs(doc).children, k);
  }

  /** The pass keeps every element: each key occurs as often as before. */
  lemma {:induction false} StripAttrsCount(e: Element, k: nat)
    ensures Count(StripAttrs(e), k) == Count(e, k)
    decreases e
  {
    StripAttrsCountIn(e.children, StripAttrs(e).children, k);
  }

  lemma {:induction false} StripAttrsCountIn(s: seq<Element>, t: seq<Element>, k: nat)
    requires |t| == |s| && forall i :: 0 <= i < |s| ==> t[i] == StripAttrs(s[i])
    ensures CountIn(t, k) == CountIn(s, k)
    decreases s
  {
    if |s| > 0 {
      StripAttrsCount(s[0], k);
      StripAttrsCountIn(s[1..], t[1..], k);
    }
  }

  /** XPath's string value of an element: its text and the text of all its
      descendants with their tails, in document order; the element's own
      tail is not part of it. */
  function StringValue(e: Element): string
    decreases e
  {
    e.text + Content(e.children)
  }

  function Content(s: seq<Element>): string
    decreases s
  {
    if |s| == 0 then "" else StringValue(s[0]) + s[0].tail + Content(s[1..])
  }

  /** The selector of `remove_useless_elements`: a `p` or `ab` whose first
      element child is an `lb` and whose first child node is blank under
      `normalize-space`. The first node is the leading text when there is
      one, and otherwise the `lb` itself. */
  predicate Useless(e: Element) {
    && (e.tag == "p" || e.tag == "ab")
    && |e.children| > 0 && e.children[0].tag == "lb"
    && (if e.text != "" then XmlBlank(e.text) else XmlBlank(StringValue(e.children[0])))
  }

  /** `remove_useless_elements`: every selected element takes the tail of
      its leading `lb` as its text, and the `lb` is removed with its
      subtree. All selections are made on the document before any change;
      a change to one element touches only its text and first child, which
      are never part of another selected element's own test, so rewriting
      from the root downward on the original nodes gives the same tree. */
  function RemoveUseless(e: Element): (r: Element)
    ensures r.key == e.key && r.tag == e.tag && r.attrs == e.attrs && r.tail == e.tail
    ensures var drop := if Useless(e) then 1 else 0;
      && r.text == (if Useless(e) then e.children[0].tail else e.text)
      && |r.children| == |e.children| - drop
      && forall i :: 0 <= i < |r.children| ==> r.children[i] == RemoveUseless(e.children[i + drop])
    decreases e
  {
    var drop := if Useless(e) then 1 else 0;
    Element(e.key, e.tag, e.attrs, if Useless(e) then e.children[0].tail else e.text,
      seq(|e.children| - drop, i requires 0 <= i < |e.children| - drop => RemoveUseless(e.children[i + drop])),
      e.tail)
  }

  /** No element anywhere in the tree is selected. */
  predicate NoUseless(e: Element)
    decreases e
  {
    !Useless(e) && forall i :: 0 <= i < |e.children| ==> NoUseless(e.children[i])
  }

  /** The number of elements in a tree. */
  function Size(e: Element): nat
    decreases e
  {
    1 + SizeIn(e.children)
  }

  function SizeIn(s: seq<Element>): nat
    decreases s
  {
    if |s| == 0 then 0 else Size(s[0]) + SizeIn(s[1..])
  }

  /** The pass adds and duplicates no element: no key occurs more often
      afterwards. */
  lemma {:induction false} RemoveUselessCount(e: Element, k: nat)
    ensures Count(RemoveUseless(e), k) <= Count(e, k)
    decreases e
  {
    var drop := if Useless(e) then 1 else 0;
    var r := RemoveUseless(e);
    var rest := e.children[drop..];
    assert forall i :: 0 <= i < |rest| ==> rest[i] == e.children[i + drop];
    RemoveUselessCountIn(rest, r.children, k);
    assert Count(r, k) == (if r.key == k then 1 else 0) + CountIn(r.children, k);
    if drop == 1 {
      assert e.children == [e.children[0]] + rest;
      CountInConcat([e.children[0]], rest, k);
    }
  }

  lemma {:induction false} RemoveUselessCountIn(s: seq<Element>, t: seq<Element>, k: nat)
    requires |t| == |s| && forall i :: 0 <= i < |s| ==> t[i] == RemoveUseless(s[i])
    ensures CountIn(t, k) <= CountIn(s, k)
    decreases s
  {
    if |s| > 0 {
      RemoveUselessCount(s[0], k);
      RemoveUselessCountIn(s[1..], t[1..], k);
    }
  }

  /** No element of any of the trees `s` is selected. */
  predicate NoUselessIn(s: seq<Element>) {
    forall i :: 0 <= i < |s| ==> NoUseless(s[i])
  }

  /** A tree where the pass selects nothing comes back unchanged. */
  lemma {:induction false} RemoveUselessFixpoint(e: Element)
    requires NoUseless(e)
    ensures RemoveUseless(e) == e
    decreases e
  {
    var r := RemoveUseless(e);
    RemoveUselessFixpointIn(e.children, r.children);
  }

  lemma {:induction false} RemoveUselessFixpointIn(s: seq<Element>, t: seq<Element>)
    requires |t| == |s| && forall i :: 0 <= i < |s| ==> t[i] == RemoveUseless(s[i])
    requires NoUselessIn(s)
    ensures t == s
    decreases s
  {
    if |s| > 0 {
      RemoveUselessFixpoint(s[0]);
      RemoveUselessFixpointIn(s[1..], t[1..]);
      assert t == [t[0]] + t[1..];
    }
  }

  /** The pass never grows a tree, and shrinks it whenever it selects an
      element anywhere. */
  lemma {:induction false} RemoveUselessShrinks(e: Element)
    ensures Size(RemoveUseless(e)) <= Size(e)
    ensures !NoUseless(e) ==> Size(RemoveUseless(e)) < Size(e)
    decreases e
  {
    var drop := if Useless(e) then 1 else 0;
    var r := RemoveUseless(e);
    var rest := e.children[drop..];
    assert forall i :: 0 <= i < |rest| ==> rest[i] == e.children[i + drop];
    RemoveUselessShrinksIn(rest, r.children);
    assert Size(r) == 1 + SizeIn(r.children);
    if drop == 1 {
      assert e.children == [e.children[0]] + rest;
      SizeInConcat([e.children[0]], rest);
      assert SizeIn([e.children[0]]) == Size(e.children[0]);
    } else {
      assert rest == e.children;
      assert !NoUseless(e) ==> !NoUselessIn(e.children);
    }
  }

  lemma {:induction false} RemoveUselessShrinksIn(s: seq<Element>, t: seq<Element>)
    requires |t| == |s| && forall i :: 0 <= i < |s| ==> t[i] == RemoveUseless(s[i])
    ensures SizeIn(t) <= SizeIn(s)
    ensures !NoUselessIn(s) ==> SizeIn(t) < SizeIn(s)
    decreases s
  {
    if |s| > 0 {
      RemoveUselessShrinks(s[0]);
      RemoveUselessShrinksIn(s[1..], t[1..]);
      if !NoUselessIn(s) && NoUseless(s[0]) {
        var i :| 0 <= i < |s| && !NoUseless(s[i]);
        assert s[1..][i - 1] == s[i];
      }
    }
  }

  /** The pass removes at least one element exactly when some element is
      selected, and otherwise gives back the very same tree. */
  lemma RemoveUselessSize(e: Element)
    ensures NoUseless(e) <==> Size(RemoveUseless(e)) == Size(e)
    ensures NoUseless(e) <==> RemoveUseless(e) == e
  {
    RemoveUselessShrinks(e);
    if NoUseless(e) {
      RemoveUselessFixpoint(e);
    }
  }

  lemma {:induction false} SizeInConcat(a: seq<Element>, b: seq<Element>)
    ensures SizeIn(a + b) == SizeIn(a) + SizeIn(b)
    decreases a
  {
    if |a| > 0 {
      assert (a + b)[1..] == a[1..] + b;
      SizeInConcat(a[1..], b);
    } else {
      assert a + b == b;
    }
  }

  /** A second run can still change the tree: a `p` with two leading `lb`s,
      the first followed by a blank tail, loses only the first one in a
      pass, and the second one is selected by the next pass. */
  lemma RemoveUselessNotIdempotent()
    ensures var e := PairOfBreaks();
      RemoveUseless(RemoveUseless(e)) != RemoveUseless(e)
  {
    var e := PairOfBreaks();
    var r := RemoveUseless(e);
    assert XmlBlank(StringValue(e.children[0]));
    assert Useless(e);
    assert r.text == " " && |r.children| == 1 && r.children[0] == e.children[1];
    assert Useless(r);
    assert |RemoveUseless(r).children| == 0;
  }

  /** `<p><lb/> <lb/>x</p>`. */
  function PairOfBreaks(): Element {
    Element(0, "p", map[], "", [Element(1, "lb", map[], "", [], " "), Element(2, "lb", map[], "", [], "x")], "")
  }
}
