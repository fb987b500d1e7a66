/** The facsimile part of `get_faksimile_element`
    (scripts/refine_tei.py:158-166): the image URLs go into the `graphic`
    elements, the `zone` elements of every surface are removed, and the
    first `facsimile` element is picked out. The queries are relative to
    the root element, so they range over its descendants only. */
module Facsimile {
  import opened Tree

  /* ---------------- URLs ---------------- */

  /** The attributes of the `graphic` elements of a subtree, its root
      included, in document order. */
  function GraphicAttrs(e: Element): seq<map<string, string>>
    decreases e
  {
    (if e.tag == "graphic" then [e.attrs] else []) + GraphicAttrsIn(e.children)
  }

  function GraphicAttrsIn(s: seq<Element>): seq<map<string, string>>
    decreases s
  {
    if |s| == 0 then [] else GraphicAttrs(s[0]) + GraphicAttrsIn(s[1..])
  }

  /** A subtree with the attributes of its `graphic` elements blanked: what
      URL assignment must leave alone. */
  function Skeleton(e: Element): Element
    decreases e
  {
    Element(e.key, e.tag, if e.tag == "graphic" then map[] else e.attrs, e.text,
      SkeletonIn(e.children), e.tail)
  }

  function SkeletonIn(s: seq<Element>): seq<Element>
    decreases s
  {
    if |s| == 0 then [] else [Skeleton(s[0])] + SkeletonIn(s[1..])
  }

  /** Attribute maps `gs` with `url` set to the first `|gs|` of `urls`, in
      order. */
  function WithUrls(gs: seq<map<string, string>>, urls: seq<string>): (r: seq<map<string, string>>)
    requires |gs| <= |urls|
    ensures |r| == |gs|
    decreases gs
  {
    if |gs| == 0 then [] else [gs[0]["url" := urls[0]]] + WithUrls(gs[1..], urls[1..])
  }

  lemma {:induction false} WithUrlsConcat(a: seq<map<string, string>>, b: seq<map<string, string>>, urls: seq<string>)
    requires |a| + |b| <= |urls|
    ensures WithUrls(a + b, urls) == WithUrls(a, urls) + WithUrls(b, urls[|a|..])
    decreases a
  {
    if |a| == 0 {
      assert a + b == b;
    } else {
      assert (a + b)[1..] == a[1..] + b;
      WithUrlsConcat(a[1..], b, urls[1..]);
      assert urls[1..][|a| - 1..] == urls[|a|..];
    }
  }

  /** The URL loop on one subtree: each `graphic`, in document order, takes
      the first of the remaining URLs, which is popped off the list. */
  function Assign(e: Element, urls: seq<string>): (r: Result<(Element, seq<string>)>)
    ensures r.Err? ==> r.error == MissingImageUrl
    decreases e
  {
    if e.tag == "graphic" && |urls| == 0 then Err(MissingImageUrl)
    else
      var attrs := if e.tag == "graphic" then e.attrs["url" := urls[0]] else e.attrs;
      var rest := if e.tag == "graphic" then urls[1..] else urls;
      match AssignIn(e.children, rest)
      case Err(err) => Err(err)
      case Ok((cs, left)) => Ok((e.(attrs := attrs, children := cs), left))
  }

  function AssignIn(s: seq<Element>, urls: seq<string>): (r: Result<(seq<Element>, seq<string>)>)
    ensures r.Err? ==> r.error == MissingImageUrl
    decreases s
  {
    if |s| == 0 then Ok(([], urls))
    else
      match Assign(s[0], urls)
      case Err(err) => Err(err)
      case Ok((x, left)) =>
        match AssignIn(s[1..], left)
        case Err(err) => Err(err)
        case Ok((xs, left2)) => Ok(([x] + xs, left2))
  }

  /** URL assignment succeeds exactly when there are at least as many URLs
      as graphics. Then the i-th graphic keeps its attributes but for `url`,
      which is the i-th URL; the list keeps what the graphics did not use;
      and nothing else in the tree changes. */
  lemma {:induction false} AssignSpec(e: Element, urls: seq<string>)
    ensures var n := |GraphicAttrs(e)|;
      var r := Assign(e, urls);
      && (r.Ok? <==> n <= |urls|)
      && (r.Ok? ==>
        && r.value.1 == urls[n..]
        && GraphicAttrs(r.value.0) == WithUrls(GraphicAttrs(e), urls)
        && Skeleton(r.value.0) == Skeleton(e))
    decreases e
  {
    var g := if e.tag == "graphic" then 1 else 0;
    var rest := if e.tag == "graphic" && |urls| > 0 then urls[1..] else urls;
    AssignInSpec(e.children, rest);
    if e.tag == "graphic" && |urls| > 0 {
      var r := Assign(e, urls);
      if r.Ok? {
        var x := r.value.0;
        assert GraphicAttrs(x) == [x.attrs] + GraphicAttrsIn(x.children);
        assert WithUrls(GraphicAttrs(e), urls) == [e.attrs["url" := urls[0]]] + WithUrls(GraphicAttrsIn(e.children), urls[1..]);
        assert urls[1..][|GraphicAttrsIn(e.children)|..] == urls[|GraphicAttrs(e)|..];
      }
    } else if e.tag != "graphic" {
      assert GraphicAttrs(e) == GraphicAttrsIn(e.children);
    }
  }

  lemma {:induction false} AssignInSpec(s: seq<Element>, urls: seq<string>)
    ensures var n := |GraphicAttrsIn(s)|;
      var r := AssignIn(s, urls);
      && (r.Ok? <==> n <= |urls|)
      && (r.Ok? ==>
        && r.value.1 == urls[n..]
        && GraphicAttrsIn(r.value.0) == WithUrls(GraphicAttrsIn(s), urls)
        && SkeletonIn(r.value.0) == SkeletonIn(s))
    decreases s
  {
    if |s| > 0 {
      AssignSpec(s[0], urls);
      var a := GraphicAttrs(s[0]);
      var b := GraphicAttrsIn(s[1..]);
      var r0 := Assign(s[0], urls);
      if r0.Ok? {
        var left := r0.value.1;
        AssignInSpec(s[1..], left);
        var r1 := AssignIn(s[1..], left);
        if r1.Ok? {
          var ys := [r0.value.0] + r1.value.0;
          assert ys[0] == r0.value.0 && ys[1..] == r1.value.0;
          assert urls[|a|..][|b|..] == urls[|a| + |b|..];
          WithUrlsConcat(a, b, urls);
        }
      }
    }
  }

  /** The URL loop over the document: the graphics below the root. */
  function AssignUrls(doc: Element, urls: seq<string>): (r: Result<(Element, seq<string>)>)
    ensures r.Err? ==> r.error == MissingImageUrl
    ensures r.Ok? ==> r.value.0.key == doc.key && r.value.0.tag == doc.tag && r.value.0.attrs == doc.attrs
  {
    match AssignIn(doc.children, urls)
    case Err(err) => Err(err)
    case Ok((cs, left)) => Ok((doc.(children := cs), left))
  }

  /* ---------------- zones ---------------- */

  /** A subtree with every `zone` below its root removed, together with the
      zone's content and tail, as `remove` does in lxml. */
  function DropZones(e: Element): Element
    decreases e
  {
    e.(children := DropZonesIn(e.children))
  }

  function DropZonesIn(s: seq<Element>): seq<Element>
    decreases s
  {
    if |s| == 0 then []
    else (if s[0].tag == "zone" then [] else [DropZones(s[0])]) + DropZonesIn(s[1..])
  }

  /** The zone loop on a subtree: `under` says whether the subtree's parent
      is a `facsimile`, so that a `surface` here loses all its zones. */
  function StripZones(e: Element, under: bool): Element
    decreases e
  {
    if under && e.tag == "surface" then DropZones(e)
    else e.(children := StripZonesIn(e.children, e.tag == "facsimile"))
  }

  function StripZonesIn(s: seq<Element>, under: bool): seq<Element>
    decreases s
  {
    if |s| == 0 then [] else [StripZones(s[0], under)] + StripZonesIn(s[1..], under)
  }

  /** The zone loop over the document. The root is no `facsimile` of the
      query, which only looks below it. */
  function StripDocZones(doc: Element): (r: Element)
    ensures r.key == doc.key && r.tag == doc.tag && r.attrs == doc.attrs
  {
    doc.(children := StripZonesIn(doc.children, false))
  }

  /** No `zone` lies below the root of `e`. */
  predicate NoZones(e: Element)
    decreases e
  {
    forall i :: 0 <= i < |e.children| ==> e.children[i].tag != "zone" && NoZones(e.children[i])
  }

  /** No `zone` lies below a `surface` child of a `facsimile` within the
      subtree `e`, whose parent is a `facsimile` when `under` holds. */
  predicate Clean(e: Element, under: bool)
    decreases e
  {
    && (under && e.tag == "surface" ==> NoZones(e))
    && forall i :: 0 <= i < |e.children| ==> Clean(e.children[i], e.tag == "facsimile")
  }

  /** The query of the zone loop selects nothing in `doc`. */
  predicate CleanDoc(doc: Element) {
    forall i :: 0 <= i < |doc.children| ==> Clean(doc.children[i], false)
  }

  lemma {:induction false} DropZonesSpec(e: Element)
    ensures NoZones(DropZones(e))
    ensures NoZones(e) ==> DropZones(e) == e
    decreases e
  {
    DropZonesInSpec(e.children);
  }

  lemma {:induction false} DropZonesInSpec(s: seq<Element>)
    ensures forall i :: 0 <= i < |DropZonesIn(s)| ==>
      DropZonesIn(s)[i].tag != "zone" && NoZones(DropZonesIn(s)[i])
    ensures (forall i :: 0 <= i < |s| ==> s[i].tag != "zone" && NoZones(s[i])) ==> DropZonesIn(s) == s
    decreases s
  {
    if |s| > 0 {
      DropZonesSpec(s[0]);
      DropZonesInSpec(s[1..]);
      var h := if s[0].tag == "zone" then [] else [DropZones(s[0])];
      var t := DropZonesIn(s[1..]);
      assert DropZonesIn(s) == h + t;
      assert forall i :: |h| <= i < |h + t| ==> (h + t)[i] == t[i - |h|];
      if forall i :: 0 <= i < |s| ==> s[i].tag != "zone" && NoZones(s[i]) {
        assert forall i :: 1 <= i < |s| ==> s[1..][i - 1] == s[i];
        assert s == [s[0]] + s[1..];
      }
    }
  }

  /** After the zone loop no zone remains where the query looks; a
      subtree where it finds nothing comes back unchanged. */
  lemma {:induction false} StripZonesSpec(e: Element, under: bool)
    ensures Clean(StripZones(e, under), under)
    ensures Clean(e, under) ==> StripZones(e, under) == e
    decreases e
  {
    if under && e.tag == "surface" {
      DropZonesSpec(e);
      DropZonesClean(e);
    } else {
      StripZonesInSpec(e.children, e.tag == "facsimile");
    }
  }

  /** A subtree without zones is clean whatever its position. */
  lemma {:induction false} DropZonesClean(e: Element)
    ensures Clean(DropZones(e), true)
    decreases e
  {
    DropZonesSpec(e);
    NoZonesClean(DropZones(e), true);
  }

  lemma {:induction false} NoZonesClean(e: Element, under: bool)
    requires NoZones(e)
    ensures Clean(e, under)
    decreases e
  {
    forall i | 0 <= i < |e.children|
      ensures Clean(e.children[i], e.tag == "facsimile")
    {
      NoZonesClean(e.children[i], e.tag == "facsimile");
    }
  }

  lemma {:induction false} StripZonesInSpec(s: seq<Element>, under: bool)
    ensures |StripZonesIn(s, under)| == |s|
    ensures forall i :: 0 <= i < |s| ==> StripZonesIn(s, under)[i] == StripZones(s[i], under)
    ensures forall i :: 0 <= i < |s| ==> Clean(StripZonesIn(s, under)[i], under)
    ensures (forall i :: 0 <= i < |s| ==> Clean(s[i], under)) ==> StripZonesIn(s, under) == s
    decreases s
  {
    if |s| > 0 {
      StripZonesSpec(s[0], under);
      StripZonesInSpec(s[1..], under);
      assert forall i :: 1 <= i < |s| ==> s[1..][i - 1] == s[i];
      if forall i :: 0 <= i < |s| ==> Clean(s[i], under) {
        assert s == [s[0]] + s[1..];
      }
    }
  }

  /** The zone loop leaves no zone below any `surface` child of a
      `facsimile`, and changes a document exactly when it has such a zone. */
  lemma StripDocZonesSpec(doc: Element)
    ensures CleanDoc(StripDocZones(doc))
    ensures CleanDoc(doc) <==> StripDocZones(doc) == doc
  {
    StripZonesInSpec(doc.children, false);
  }

  /** The zone loop only removes elements. */
  lemma {:induction false} DropZonesCount(e: Element, k: nat)
    ensures Count(DropZones(e), k) <= Count(e, k)
    decreases e
  {
    DropZonesInCount(e.children, k);
  }

  lemma {:induction false} DropZonesInCount(s: seq<Element>, k: nat)
    ensures CountIn(DropZonesIn(s), k) <= CountIn(s, k)
    decreases s
  {
    if |s| > 0 {
      DropZonesCount(s[0], k);
      DropZonesInCount(s[1..], k);
      var h := if s[0].tag == "zone" then [] else [DropZones(s[0])];
      CountInConcat(h, DropZonesIn(s[1..]), k);
    }
  }

  lemma {:induction false} StripZonesCount(e: Element, under: bool, k: nat)
    ensures Count(StripZones(e, under), k) <= Count(e, k)
    decreases e
  {
    if under && e.tag == "surface" {
      DropZonesCount(e, k);
    } else {
      StripZonesInCount(e.children, e.tag == "facsimile", k);
    }
  }

  lemma {:induction false} StripZonesInCount(s: seq<Element>, under: bool, k: nat)
    ensures CountIn(StripZonesIn(s, under), k) <= CountIn(s, k)
    decreases s
  {
    if |s| > 0 {
      StripZonesCount(s[0], under, k);
      StripZonesInCount(s[1..], under, k);
      var t := StripZonesIn(s, under);
      assert t[0] == StripZones(s[0], under) && t[1..] == StripZonesIn(s[1..], under);
    }
  }

  /** No element is added or duplicated by the zone loop. */
  lemma StripDocZonesCount(doc: Element, k: nat)
    ensures Count(StripDocZones(doc), k) <= Count(doc, k)
  {
    StripZonesInCount(doc.children, false, k);
  }

  /* ---------------- the facsimile ---------------- */

  /** The number of elements tagged `tag` in a subtree, its root included. */
  function TagCount(e: Element, tag: string): nat
    decreases e
  {
    (if e.tag == tag then 1 else 0) + TagCountIn(e.children, tag)
  }

  function TagCountIn(s: seq<Element>, tag: string): nat
    decreases s
  {
    if |s| == 0 then 0 else TagCount(s[0], tag) + TagCountIn(s[1..], tag)
  }

  /** The first path, in document order, of an element tagged `tag` in a
      subtree. */
  function FindTag(e: Element, tag: string): (r: Option<Path>)
    ensures r.Some? ==> ValidPath(e, r.value) && Get(e, r.value).tag == tag
    decreases e
  {
    if e.tag == tag then Some([])
    else FindTagIn(e.children, tag)
  }

  /** The same within the children `s`. */
  function FindTagIn(s: seq<Element>, tag: string): (r: Option<Path>)
    ensures r.Some? ==> (|r.value| > 0 && r.value[0] < |s|
      && ValidPath(s[r.value[0]], r.value[1..]) && Get(s[r.value[0]], r.value[1..]).tag == tag)
    decreases s
  {
    if |s| == 0 then None
    else
      match FindTag(s[0], tag)
      case Some(p) => Some([0] + p)
      case None =>
        match FindTagIn(s[1..], tag)
        case Some(p) =>
          assert ([p[0] + 1] + p[1..])[1..] == p[1..];
          Some([p[0] + 1] + p[1..])
        case None => None
  }

  /** The search fails exactly when there is no such element. */
  lemma {:induction false} FindTagComplete(e: Element, tag: string)
    ensures FindTag(e, tag).None? <==> TagCount(e, tag) == 0
    decreases e
  {
    if e.tag != tag {
      FindTagInComplete(e.children, tag);
    }
  }

  lemma {:induction false} FindTagInComplete(s: seq<Element>, tag: string)
    ensures FindTagIn(s, tag).None? <==> TagCountIn(s, tag) == 0
    decreases s
  {
    if |s| > 0 {
      FindTagComplete(s[0], tag);
      FindTagInComplete(s[1..], tag);
    }
  }

  /** `any_xpath(".//tei:facsimile")[0]`: the path of the first `facsimile`
      below the root. */
  function FirstFacsimile(doc: Element): (r: Result<Path>)
    ensures r.Err? ==> r.error == NoFacsimile
    ensures r.Ok? ==> |r.value| > 0 && ValidPath(doc, r.value) && Get(doc, r.value).tag == "facsimile"
  {
    match FindTagIn(doc.children, "facsimile")
    case None => Err(NoFacsimile)
    case Some(p) => Ok(p)
  }

  /** Picking the facsimile fails exactly when the document has none below
      its root. */
  lemma FirstFacsimileFails(doc: Element)
    ensures FirstFacsimile(doc).Err? <==> TagCountIn(doc.children, "facsimile") == 0
  {
    FindTagInComplete(doc.children, "facsimile");
  }

  /** In a clean subtree every element is clean in its place: the child
      `i` of the element at `q` is clean as a child of that element. */
  lemma {:induction false} CleanAt(e: Element, under: bool, q: Path, i: nat)
    requires Clean(e, under) && ValidPath(e, q) && i < |Get(e, q).children|
    ensures Clean(Get(e, q).children[i], Get(e, q).tag == "facsimile")
    decreases q
  {
    if |q| > 0 {
      CleanAt(e.children[q[0]], e.tag == "facsimile", q[1..], i);
    }
  }

  /** Below the first step, a path is its middle part followed by its
      last index. */
  lemma InnerSplit(p: Path)
    requires |p| > 1
    ensures p[1..][..|p| - 2] == p[1..|p| - 1]
    ensures p[1..] == p[1..|p| - 1] + [p[|p| - 1]]
  {
  }

  /** The facsimile of the document: the URLs are placed, the zones
      stripped, and the first `facsimile` picked out. The result holds the
      facsimile and the URLs the graphics left over. Every graphic below
      the root got its URL, in document order; the facsimile returned is
      the first one of the URL-placed, zone-stripped document, and it holds
      no zone below any of its surfaces. It fails with `NoFacsimile`
      exactly when the URLs suffice and the document, so prepared, has no
      `facsimile` below its root. */
  method GetFacsimile(doc: Element, urls: seq<string>) returns (r: Result<(Element, seq<string>)>)
    ensures r.Err? ==> r.error == MissingImageUrl || r.error == NoFacsimile
    ensures r.Err? && r.error == MissingImageUrl <==> |urls| < |GraphicAttrsIn(doc.children)|
    ensures r.Err? && r.error == NoFacsimile <==>
      && AssignUrls(doc, urls).Ok?
      && TagCountIn(StripDocZones(AssignUrls(doc, urls).value.0).children, "facsimile") == 0
    ensures r.Ok? ==> r.value.0.tag == "facsimile"
    ensures r.Ok? ==> forall i :: 0 <= i < |r.value.0.children| && r.value.0.children[i].tag == "surface" ==>
      NoZones(r.value.0.children[i])
    ensures r.Ok? ==> r.value.1 == urls[|GraphicAttrsIn(doc.children)|..]
    ensures r.Ok? ==>
      && |GraphicAttrsIn(doc.children)| <= |urls| && AssignUrls(doc, urls).Ok?
      && GraphicAttrsIn(AssignUrls(doc, urls).value.0.children) == WithUrls(GraphicAttrsIn(doc.children), urls)
    ensures r.Ok? ==>
      && AssignUrls(doc, urls).Ok?
      && var t := StripDocZones(AssignUrls(doc, urls).value.0);
      && FirstFacsimile(t).Ok? && r.value.0 == Get(t, FirstFacsimile(t).value)
  {
    AssignInSpec(doc.children, urls);
    var placed := AssignUrls(doc, urls);
    if placed.Err? {
      return Err(placed.error);
    }
    var stripped := StripDocZones(placed.value.0);
    StripDocZonesSpec(placed.value.0);
    var found := FirstFacsimile(stripped);
    FirstFacsimileFails(stripped);
    if found.Err? {
      return Err(found.error);
    }
    var p := found.value;
    var f := Get(stripped, p);
    var c := stripped.children[p[0]];
    assert Clean(c, false);
    if |p| > 1 {
      var q := p[1..|p| - 1];
      GetPrefix(c, p[1..], |p| - 2);
      InnerSplit(p);
      GetAppend(c, q, p[|p| - 1]);
      CleanAt(c, false, q, p[|p| - 1]);
    }
    return Ok((f, placed.value.1));
  }
}
