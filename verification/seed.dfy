/** `seed_div_elements` (scripts/refine_tei.py:72-89): every accepted tail
    run becomes a `head` wrapped in a new `div`, last run first. */
module Seed {
  import opened Tree
  import opened Select
  import opened Census

  /** A run is converted when it is a tail and passes `matches`, the
      pattern test `regex_test` applied to the run with its surrounding
      whitespace stripped (`Marker.IsArticleMarker` for the pass); a
      leading-text match is skipped. */
  predicate Converts(run: Run, matches: string -> bool) {
    run.isTail && matches(run.value)
  }

  /** How many runs of `runs` are converted. */
  function Accepted(runs: seq<Run>, matches: string -> bool): nat {
    if |runs| == 0 then 0
    else Accepted(runs[..|runs| - 1], matches) + (if Converts(runs[|runs| - 1], matches) then 1 else 0)
  }

  /** One conversion, on the owner found at `p`: the owner is retagged
      `head`, gets the unstripped run as its text and a newline as its
      tail, and a new `div` (text and tail a newline, `ana` set) takes its
      place with the head as its only child. Apart from the new division
      no element is added and none is lost. */
  function Convert(tree: Element, p: Path, run: string, ana: string, next: nat): (r: Element)
    requires ValidPath(tree, p) && |p| > 0
    ensures ValidPath(r, p)
  {
    var owner := Get(tree, p);
    var h := owner.(tag := "head", text := run, tail := "\n");
    var d := Element(next, "div", map["ana" := ana], "\n", [h], "\n");
    Put(tree, p, d)
  }

  /** A conversion adds the new division and loses no element. */
  lemma ConvertCount(tree: Element, p: Path, run: string, ana: string, next: nat, k: nat)
    requires ValidPath(tree, p) && |p| > 0
    ensures Count(Convert(tree, p, run, ana, next), k) == Count(tree, k) + (if k == next then 1 else 0)
  {
    var owner := Get(tree, p);
    var h := owner.(tag := "head", text := run, tail := "\n");
    var d := Element(next, "div", map["ana" := ana], "\n", [h], "\n");
    CountPut(tree, p, d, k);
    CountInSingle(h, k);
  }

  /** The shape one conversion leaves at the owner's position; everything
      outside that position (siblings, ancestors and the rest of the tree)
      is as it was. */
  lemma ConvertShape(tree: Element, p: Path, run: string, ana: string, next: nat)
    requires ValidPath(tree, p) && |p| > 0
    ensures var r := Convert(tree, p, run, ana, next);
      && r == Put(tree, p, Get(r, p))
      && ValidPath(r, p + [0])
      && var owner := Get(tree, p); var d := Get(r, p); var h := Get(r, p + [0]);
      && d.key == next && d.tag == "div" && d.attrs == map["ana" := ana]
      && d.text == "\n" && d.tail == "\n" && d.children == [h]
      && h.key == owner.key && h.tag == "head" && h.attrs == owner.attrs
      && h.text == run && h.tail == "\n" && h.children == owner.children
  {
    GetAppend(Convert(tree, p, run, ana, next), p, 0);
  }

  /** The seeding loop over the query's runs (given in document order),
      processed last-first. Returns the tree and the keys of the new
      divisions in the order they were created, that is, in reverse
      document order of their markers. */
  function SeedDivs(tree: Element, runs: seq<Run>, matches: string -> bool, ana: string, next: nat)
    : (r: Result<(Element, seq<nat>)>)
    ensures r.Ok? ==> |r.value.1| == Accepted(runs, matches) && forall i :: 0 <= i < |r.value.1| ==> r.value.1[i] == next + i
    ensures Accepted(runs, matches) == 0 ==> r == Ok((tree, []))
    ensures r.Err? ==> r.error == MissingElement || r.error == RootSibling
    decreases |runs|
  {
    if |runs| == 0 then Ok((tree, []))
    else
      var run := runs[|runs| - 1];
      var rest := runs[..|runs| - 1];
      if !Converts(run, matches) then SeedDivs(tree, rest, matches, ana, next)
      else
        match FindKey(tree, run.owner)
        case None => Err(MissingElement)
        case Some(p) =>
          if |p| == 0 then Err(RootSibling)
          else
            var t1 := Convert(tree, p, run.value, ana, next);
            match SeedDivs(t1, rest, matches, ana, next + 1)
            case Err(e) => Err(e)
            case Ok((t2, ks)) =>
              Ok((t2, [next] + ks))
  }

  /** Seeding loses and duplicates no element: every key occurs as often
      as before, and each key handed to a new division once. */
  lemma {:induction false} SeedKeepsElements(tree: Element, runs: seq<Run>, matches: string -> bool,
    ana: string, next: nat, k: nat)
    ensures var r := SeedDivs(tree, runs, matches, ana, next);
      r.Ok? ==> Count(r.value.0, k) == Count(tree, k) + Fresh(next, next + Accepted(runs, matches), k)
    decreases |runs|
  {
    var r := SeedDivs(tree, runs, matches, ana, next);
    if |runs| == 0 || r.Err? {
      return;
    }
    var run := runs[|runs| - 1];
    var rest := runs[..|runs| - 1];
    if !Converts(run, matches) {
      assert r == SeedDivs(tree, rest, matches, ana, next);
      assert Accepted(runs, matches) == Accepted(rest, matches);
      SeedKeepsElements(tree, rest, matches, ana, next, k);
    } else {
      var p := FindKey(tree, run.owner).value;
      var t1 := Convert(tree, p, run.value, ana, next);
      var r1 := SeedDivs(t1, rest, matches, ana, next + 1);
      assert r1.Ok? && r.value.0 == r1.value.0;
      assert Accepted(runs, matches) == Accepted(rest, matches) + 1;
      SeedKeepsElements(t1, rest, matches, ana, next + 1, k);
      ConvertCount(tree, p, run.value, ana, next, k);
    }
  }

  /** No run is converted exactly when `Accepted` counts none. */
  lemma {:induction false} AcceptedZero(runs: seq<Run>, matches: string -> bool)
    ensures Accepted(runs, matches) == 0 <==> forall i :: 0 <= i < |runs| ==> !Converts(runs[i], matches)
    decreases |runs|
  {
    if |runs| > 0 {
      var rest := runs[..|runs| - 1];
      AcceptedZero(rest, matches);
      assert forall i :: 0 <= i < |rest| ==> rest[i] == runs[i];
    }
  }

  /** When every run hangs on an element of the document, seeding always
      finds the element it converts: conversions keep every element. */
  lemma {:induction false} SeedFindsOwners(tree: Element, runs: seq<Run>, matches: string -> bool, ana: string, next: nat)
    requires forall i :: 0 <= i < |runs| ==> Count(tree, runs[i].owner) > 0
    ensures SeedDivs(tree, runs, matches, ana, next) != Err(MissingElement)
    decreases |runs|
  {
    if |runs| > 0 {
      var run := runs[|runs| - 1];
      var rest := runs[..|runs| - 1];
      assert forall i :: 0 <= i < |rest| ==> rest[i] == runs[i];
      if !Converts(run, matches) {
        SeedFindsOwners(tree, rest, matches, ana, next);
      } else {
        FindKeyComplete(tree, run.owner);
        var p := FindKey(tree, run.owner).value;
        if |p| > 0 {
          var t1 := Convert(tree, p, run.value, ana, next);
          forall i | 0 <= i < |rest|
            ensures Count(t1, rest[i].owner) > 0
          {
            ConvertCount(tree, p, run.value, ana, next, rest[i].owner);
          }
          SeedFindsOwners(t1, rest, matches, ana, next + 1);
        }
      }
    }
  }

  /** The runs that get converted, last first: the division given key
      `next + j` is made from the j-th of them. */
  function Converted(runs: seq<Run>, matches: string -> bool): (r: seq<Run>)
    ensures |r| == Accepted(runs, matches)
    decreases |runs|
  {
    if |runs| == 0 then []
    else
      var rest := Converted(runs[..|runs| - 1], matches);
      if Converts(runs[|runs| - 1], matches) then [runs[|runs| - 1]] + rest else rest
  }

  /** The converted runs are exactly the converting runs, taken in reverse
      order: the j-th of them is a converting run, and every converting
      run after it in `runs` is among the first j. */
  lemma {:induction false} ConvertedSpec(runs: seq<Run>, matches: string -> bool, j: nat)
    requires j < Accepted(runs, matches)
    ensures exists i :: (0 <= i < |runs| && runs[i] == Converted(runs, matches)[j]
      && Converts(runs[i], matches) && Accepted(runs[i + 1..], matches) == j)
    decreases |runs|
  {
    var last := runs[|runs| - 1];
    var rest := runs[..|runs| - 1];
    AcceptedSuffix(runs, |runs| - 1, matches);
    assert Converted(runs, matches)
      == if Converts(last, matches) then [last] + Converted(rest, matches) else Converted(rest, matches);
    if Converts(last, matches) && j == 0 {
      var i := |runs| - 1;
      assert runs[i + 1..] == [];
      assert Accepted([], matches) == 0;
      assert runs[i] == Converted(runs, matches)[j] && Converts(runs[i], matches) && Accepted(runs[i + 1..], matches) == j;
    } else {
      var j' := if Converts(last, matches) then j - 1 else j;
      assert Converted(runs, matches)[j] == Converted(rest, matches)[j'];
      ConvertedSpec(rest, matches, j');
      var i :| 0 <= i < |rest| && rest[i] == Converted(rest, matches)[j']
        && Converts(rest[i], matches) && Accepted(rest[i + 1..], matches) == j';
      AcceptedSuffix(runs, i, matches);
      AcceptedSuffix(rest, i, matches);
      assert runs[i] == Converted(runs, matches)[j] && Converts(runs[i], matches) && Accepted(runs[i + 1..], matches) == j;
    }
  }

  /** Every converted run passes the test. */
  lemma ConvertedConverts(runs: seq<Run>, matches: string -> bool, j: nat)
    requires j < Accepted(runs, matches)
    ensures Converts(Converted(runs, matches)[j], matches)
  {
    ConvertedSpec(runs, matches, j);
  }

  /** Counting the accepted runs after `i` from the back. */
  lemma {:induction false} AcceptedSuffix(runs: seq<Run>, i: nat, matches: string -> bool)
    requires i < |runs|
    ensures Accepted(runs[i + 1..], matches) + (if Converts(runs[i], matches) then 1 else 0)
      == Accepted(runs[i..], matches)
    ensures i == |runs| - 1 ==> Accepted(runs[i + 1..], matches) == 0
    ensures i < |runs| - 1 ==>
      Accepted(runs[i + 1..], matches)
        == Accepted(runs[..|runs| - 1][i + 1..], matches) + (if Converts(runs[|runs| - 1], matches) then 1 else 0)
    decreases |runs|
  {
    var u := runs[i..];
    assert u[..|u| - 1] == runs[i..|runs| - 1];
    if i == |runs| - 1 {
      assert runs[i + 1..] == [];
      assert u[..|u| - 1] == [];
    } else {
      var rest := runs[..|runs| - 1];
      AcceptedSuffix(rest, i, matches);
      assert rest[i..] == runs[i..|runs| - 1];
      assert rest[i + 1..] == runs[i + 1..|runs| - 1];
      var v := runs[i + 1..];
      assert v[..|v| - 1] == runs[i + 1..|runs| - 1] && v[|v| - 1] == runs[|runs| - 1];
    }
  }

  /** What seeding needs of its runs: `next` is above every key, and each
      run hangs on an element of the tree other than the root, no two on
      the same element. */
  ghost predicate Ready(tree: Element, runs: seq<Run>, next: nat) {
    && KeysBelow(tree, next)
    && (forall i :: 0 <= i < |runs| ==> Count(tree, runs[i].owner) > 0 && runs[i].owner != tree.key)
    && (forall i, j :: 0 <= i < j < |runs| ==> runs[i].owner != runs[j].owner)
  }

  /** A conversion keeps the runs that remain ready for the next key. */
  lemma ReadyStep(tree: Element, runs: seq<Run>, p: Path, ana: string, next: nat)
    requires Ready(tree, runs, next) && |runs| > 0
    requires ValidPath(tree, p) && |p| > 0 && Get(tree, p).key == runs[|runs| - 1].owner
    ensures Ready(Convert(tree, p, runs[|runs| - 1].value, ana, next), runs[..|runs| - 1], next + 1)
    ensures Ready(tree, runs[..|runs| - 1], next)
  {
    var t1 := Convert(tree, p, runs[|runs| - 1].value, ana, next);
    var rest := runs[..|runs| - 1];
    forall k | k >= next + 1
      ensures Count(t1, k) == 0
    {
      ConvertCount(tree, p, runs[|runs| - 1].value, ana, next, k);
    }
    forall i | 0 <= i < |rest|
      ensures Count(t1, rest[i].owner) > 0
    {
      ConvertCount(tree, p, runs[|runs| - 1].value, ana, next, rest[i].owner);
    }
  }

  /** On ready runs seeding succeeds: the owner is always found, and never
      at the root, where `addprevious` would raise. */
  lemma {:induction false} SeedSucceeds(tree: Element, runs: seq<Run>, matches: string -> bool, ana: string, next: nat)
    requires Ready(tree, runs, next)
    ensures SeedDivs(tree, runs, matches, ana, next).Ok?
    decreases |runs|
  {
    if |runs| > 0 {
      var run := runs[|runs| - 1];
      var rest := runs[..|runs| - 1];
      FindKeyComplete(tree, run.owner);
      var p := FindKey(tree, run.owner).value;
      assert |p| > 0;
      ReadyStep(tree, runs, p, ana, next);
      if !Converts(run, matches) {
        SeedSucceeds(tree, rest, matches, ana, next);
      } else {
        SeedSucceeds(Convert(tree, p, run.value, ana, next), rest, matches, ana, next + 1);
      }
    }
  }

  /** The node test matching the new division with key `k`. */
  function DivTest(k: nat, ana: string): Node -> bool {
    (n: Node) => n == Node(k, "div", map["ana" := ana], "\n", "\n")
  }

  /** The node test matching the owner `o` of run `v` after its conversion. */
  function HeadTest(o: nat, v: string): Node -> bool {
    (n: Node) => n.key == o && n.tag == "head" && n.text == v && n.tail == "\n"
  }

  /** A conversion trades the owner's node for the head's and adds the
      division's. */
  lemma ConvertNodes(tree: Element, p: Path, run: string, ana: string, next: nat, f: Node -> bool)
    requires ValidPath(tree, p) && |p| > 0
    ensures var o := Get(tree, p);
      CountNode(Convert(tree, p, run, ana, next), f) + (if f(NodeOf(o)) then 1 else 0)
        == CountNode(tree, f) + (if f(Node(o.key, "head", o.attrs, run, "\n")) then 1 else 0)
          + (if f(Node(next, "div", map["ana" := ana], "\n", "\n")) then 1 else 0)
  {
    var o := Get(tree, p);
    var h := o.(tag := "head", text := run, tail := "\n");
    var d := Element(next, "div", map["ana" := ana], "\n", [h], "\n");
    CountNodePut(tree, p, d, f);
    assert d.children[1..] == [];
    assert CountNodeIn(d.children, f) == CountNode(h, f) + CountNodeIn([], f);
    assert CountNode(d, f) == (if f(NodeOf(d)) then 1 else 0) + CountNode(h, f);
    assert CountNode(h, f) == (if f(NodeOf(h)) then 1 else 0) + CountNodeIn(o.children, f);
  }

  /** A conversion on pairs with a parent of key `k0`: the owner's link to
      its parent becomes the division's, and the division gains the head. */
  lemma ConvertEdges(tree: Element, p: Path, run: string, ana: string, next: nat, k0: nat, cf: Node -> bool)
    requires ValidPath(tree, p) && |p| > 0
    ensures ValidPath(tree, Parent(p))
    ensures var o := Get(tree, p);
      var up := Get(tree, Parent(p)).key == k0;
      CountEdge(Convert(tree, p, run, ana, next), KeyIs(k0), cf) + (if up && cf(NodeOf(o)) then 1 else 0)
        == CountEdge(tree, KeyIs(k0), cf) + (if up && cf(Node(next, "div", map["ana" := ana], "\n", "\n")) then 1 else 0)
          + (if next == k0 && cf(Node(o.key, "head", o.attrs, run, "\n")) then 1 else 0)
  {
    var o := Get(tree, p);
    var h := o.(tag := "head", text := run, tail := "\n");
    var d := Element(next, "div", map["ana" := ana], "\n", [h], "\n");
    CountEdgePut(tree, p, d, KeyIs(k0), cf);
    assert d.children[1..] == [];
    assert KeyIs(k0)(NodeOf(h)) == KeyIs(k0)(NodeOf(o));
    assert CountEdge(h, KeyIs(k0), cf) == CountEdge(o, KeyIs(k0), cf);
    assert CountEdgeIn(d.children, next == k0, KeyIs(k0), cf)
      == Link(next == k0, h, cf) + CountEdge(h, KeyIs(k0), cf) + CountEdgeIn([], next == k0, KeyIs(k0), cf);
    assert CountEdge(d, KeyIs(k0), cf) == Link(next == k0, h, cf) + CountEdge(h, KeyIs(k0), cf);
  }

  /** Seeding leaves alone the census of nodes with a key that is neither
      an owner of the runs nor fresh. */
  lemma {:induction false} SeedKeepsNodes(tree: Element, runs: seq<Run>, matches: string -> bool,
    ana: string, next: nat, f: Node -> bool, k0: nat)
    requires k0 < next && forall i :: 0 <= i < |runs| ==> runs[i].owner != k0
    requires forall n :: f(n) ==> n.key == k0
    ensures var r := SeedDivs(tree, runs, matches, ana, next);
      r.Ok? ==> CountNode(r.value.0, f) == CountNode(tree, f)
    decreases |runs|
  {
    var r := SeedDivs(tree, runs, matches, ana, next);
    if |runs| == 0 || r.Err? {
      return;
    }
    var run := runs[|runs| - 1];
    var rest := runs[..|runs| - 1];
    assert forall i :: 0 <= i < |rest| ==> rest[i] == runs[i];
    if !Converts(run, matches) {
      SeedKeepsNodes(tree, rest, matches, ana, next, f, k0);
    } else {
      var p := FindKey(tree, run.owner).value;
      ConvertNodes(tree, p, run.value, ana, next, f);
      SeedKeepsNodes(Convert(tree, p, run.value, ana, next), rest, matches, ana, next + 1, f, k0);
    }
  }

  /** Seeding leaves alone the census of pairs whose parent has a key that
      is neither an owner nor fresh, and whose child is anything or has a
      key that is neither an owner nor fresh. */
  lemma {:induction false} SeedKeepsEdges(tree: Element, runs: seq<Run>, matches: string -> bool,
    ana: string, next: nat, k0: nat, c: Option<nat>)
    requires k0 < next && forall i :: 0 <= i < |runs| ==> runs[i].owner != k0
    requires c.Some? ==> c.value < next && forall i :: 0 <= i < |runs| ==> runs[i].owner != c.value
    ensures var r := SeedDivs(tree, runs, matches, ana, next);
      r.Ok? ==> CountEdge(r.value.0, KeyIs(k0), KeyMatch(c)) == CountEdge(tree, KeyIs(k0), KeyMatch(c))
    decreases |runs|
  {
    var r := SeedDivs(tree, runs, matches, ana, next);
    if |runs| == 0 || r.Err? {
      return;
    }
    var run := runs[|runs| - 1];
    var rest := runs[..|runs| - 1];
    assert forall i :: 0 <= i < |rest| ==> rest[i] == runs[i];
    if !Converts(run, matches) {
      SeedKeepsEdges(tree, rest, matches, ana, next, k0, c);
    } else {
      var p := FindKey(tree, run.owner).value;
      ConvertEdges(tree, p, run.value, ana, next, k0, KeyMatch(c));
      SeedKeepsEdges(Convert(tree, p, run.value, ana, next), rest, matches, ana, next + 1, k0, c);
    }
  }

  /** The census facts that pin down the division with key `next + j`:
      one such division node, a head made from the owner of the j-th
      converted run, and a single parent-child pair below the division,
      which leads to that owner. */
  ghost predicate SeedCensus(t: Element, k: nat, run: Run, ana: string) {
    && CountNode(t, DivTest(k, ana)) == 1
    && CountNode(t, HeadTest(run.owner, run.value)) >= 1
    && CountEdge(t, KeyIs(k), KeyMatch(Some(run.owner))) == 1
    && CountEdge(t, KeyIs(k), KeyMatch(None)) == 1
  }

  /** The first conversion of a seeding leaves its division's census. */
  lemma ConvertCensus(tree: Element, p: Path, run: Run, ana: string, next: nat)
    requires ValidPath(tree, p) && |p| > 0 && Get(tree, p).key == run.owner
    requires KeysBelow(tree, next)
    ensures SeedCensus(Convert(tree, p, run.value, ana, next), next, run, ana)
  {
    var t1 := Convert(tree, p, run.value, ana, next);
    var o := Get(tree, p);
    GetCounted(tree, p);
    assert Count(tree, next) == 0;
    CountNodeKey(tree, DivTest(next, ana), next);
    ConvertNodes(tree, p, run.value, ana, next, DivTest(next, ana));
    var h := o.(tag := "head", text := run.value, tail := "\n");
    var d := Element(next, "div", map["ana" := ana], "\n", [h], "\n");
    ConvertShape(tree, p, run.value, ana, next);
    GetAppend(t1, p, 0);
    CountNodeSub(t1, p + [0], HeadTest(run.owner, run.value));
    assert HeadTest(run.owner, run.value)(NodeOf(Get(t1, p + [0])));
    CountEdgeAbsent(tree, next, KeyMatch(Some(run.owner)));
    CountEdgeAbsent(tree, next, KeyMatch(None));
    ConvertEdges(tree, p, run.value, ana, next, next, KeyMatch(Some(run.owner)));
    ConvertEdges(tree, p, run.value, ana, next, next, KeyMatch(None));
    GetCounted(tree, Parent(p));
  }

  /** Seeding succeeds and leaves the census of the division with key
      `k`, made from the run `run`. */
  ghost predicate SeedLeaves(r: Result<(Element, seq<nat>)>, k: nat, run: Run, ana: string) {
    r.Ok? && SeedCensus(r.value.0, k, run, ana)
  }

  /** Seeding on ready runs leaves, for every j, the census of the
      division with key `next + j`, made from the j-th converted run. */
  lemma {:induction false} SeedShape(tree: Element, runs: seq<Run>, matches: string -> bool,
    ana: string, next: nat, j: nat)
    requires Ready(tree, runs, next) && j < Accepted(runs, matches)
    ensures SeedLeaves(SeedDivs(tree, runs, matches, ana, next), next + j, Converted(runs, matches)[j], ana)
    decreases |runs|
  {
    SeedSucceeds(tree, runs, matches, ana, next);
    var run := runs[|runs| - 1];
    var rest := runs[..|runs| - 1];
    FindKeyComplete(tree, run.owner);
    var p := FindKey(tree, run.owner).value;
    ReadyStep(tree, runs, p, ana, next);
    if !Converts(run, matches) {
      assert Converted(runs, matches) == Converted(rest, matches);
      SeedShape(tree, rest, matches, ana, next, j);
    } else {
      var t1 := Convert(tree, p, run.value, ana, next);
      assert SeedDivs(tree, runs, matches, ana, next).value.0 == SeedDivs(t1, rest, matches, ana, next + 1).value.0;
      if j > 0 {
        assert Converted(runs, matches)[j] == Converted(rest, matches)[j - 1];
        SeedShape(t1, rest, matches, ana, next + 1, j - 1);
      } else {
        assert Converted(runs, matches)[0] == run;
        ConvertCensus(tree, p, run, ana, next);
        GetCounted(tree, p);
        assert forall i :: 0 <= i < |rest| ==> rest[i] == runs[i] && rest[i].owner != next;
        assert forall i :: 0 <= i < |rest| ==> rest[i].owner != run.owner;
        SeedKeepsCensus(t1, rest, matches, ana, next, run);
      }
    }
  }

  /** The runs left after the first conversion touch neither its division
      nor its head, so they leave its census as it was. */
  lemma SeedKeepsCensus(t1: Element, rest: seq<Run>, matches: string -> bool, ana: string, next: nat, run: Run)
    requires SeedCensus(t1, next, run, ana) && run.owner < next
    requires forall i :: 0 <= i < |rest| ==> rest[i].owner != next && rest[i].owner != run.owner
    ensures var r := SeedDivs(t1, rest, matches, ana, next + 1);
      r.Ok? ==> SeedCensus(r.value.0, next, run, ana)
  {
    SeedKeepsPairNodes(t1, rest, matches, ana, next, run);
    SeedKeepsPairEdges(t1, rest, matches, ana, next, run.owner);
  }

  /** The later runs leave the census of the division and of its head. */
  lemma SeedKeepsPairNodes(t1: Element, rest: seq<Run>, matches: string -> bool, ana: string, next: nat, run: Run)
    requires run.owner < next
    requires forall i :: 0 <= i < |rest| ==> rest[i].owner != next && rest[i].owner != run.owner
    ensures var r := SeedDivs(t1, rest, matches, ana, next + 1);
      r.Ok? ==>
        && CountNode(r.value.0, DivTest(next, ana)) == CountNode(t1, DivTest(next, ana))
        && CountNode(r.value.0, HeadTest(run.owner, run.value)) == CountNode(t1, HeadTest(run.owner, run.value))
  {
    SeedKeepsNodes(t1, rest, matches, ana, next + 1, DivTest(next, ana), next);
    SeedKeepsNodes(t1, rest, matches, ana, next + 1, HeadTest(run.owner, run.value), run.owner);
  }

  /** The later runs leave the division's edges to its head and to
      nothing. */
  lemma SeedKeepsPairEdges(t1: Element, rest: seq<Run>, matches: string -> bool, ana: string, next: nat, o: nat)
    requires o < next
    requires forall i :: 0 <= i < |rest| ==> rest[i].owner != next && rest[i].owner != o
    ensures var r := SeedDivs(t1, rest, matches, ana, next + 1);
      r.Ok? ==>
        && CountEdge(r.value.0, KeyIs(next), KeyMatch(Some(o))) == CountEdge(t1, KeyIs(next), KeyMatch(Some(o)))
        && CountEdge(r.value.0, KeyIs(next), KeyMatch(None)) == CountEdge(t1, KeyIs(next), KeyMatch(None))
  {
    SeedKeepsEdges(t1, rest, matches, ana, next + 1, next, Some(o));
    SeedKeepsEdges(t1, rest, matches, ana, next + 1, next, None);
  }

  /** The element with key `k` is a seeded division: a `div` with `ana`
      set and a newline as text and tail, whose only child is the element
      with key `o`, now a `head` with the run `v` as text and a newline as
      tail. */
  ghost predicate Seeded(t: Element, k: nat, o: nat, v: string, ana: string) {
    && FindKey(t, k).Some?
    && var d := Get(t, FindKey(t, k).value);
    && d.tag == "div" && d.attrs == map["ana" := ana] && d.text == "\n" && d.tail == "\n"
    && |d.children| == 1
    && var h := d.children[0];
    && h.key == o && h.tag == "head" && h.text == v && h.tail == "\n"
  }

  /** With unique keys the census describes the element found by key. */
  lemma SeededFromCensus(t: Element, k: nat, run: Run, ana: string)
    requires Unique(t) && SeedCensus(t, k, run, ana)
    ensures Seeded(t, k, run.owner, run.value, ana)
  {
    assert Count(t, k) <= 1 && Count(t, run.owner) <= 1;
    FoundNode(t, DivTest(k, ana), k);
    var p := FindKey(t, k).value;
    var q, i := EdgeWitness(t, KeyIs(k), KeyMatch(Some(run.owner)));
    UniquePath(t, q, p);
    EdgesAtLeast(t, p, KeyIs(k));
    GetAppend(t, p, 0);
    FoundNode(t, HeadTest(run.owner, run.value), run.owner);
    UniquePath(t, p + [0], FindKey(t, run.owner).value);
  }

  /** `seed_div_elements` as the pass calls it, on ready runs of a tree
      with unique keys. It always succeeds. It hands out one fresh key per
      accepted run, in order, keeps every element and adds exactly the new
      divisions; and the key `next + j` names the division made from the
      j-th converted run counted from the end, with that run's owner as
      its `head`. That division stands where the owner stood, and the
      head keeps the owner's attributes, as every element keeps its own.
      The division has a `div` ancestor when the owner had one. */
  method SeedPass(tree: Element, runs: seq<Run>, matches: string -> bool, ana: string, next: nat)
    returns (r: Result<(Element, seq<nat>)>)
    requires Ready(tree, runs, next) && Unique(tree)
    ensures r.Ok?
    ensures |r.value.1| == Accepted(runs, matches) && forall i :: 0 <= i < |r.value.1| ==> r.value.1[i] == next + i
    ensures forall k :: Count(r.value.0, k) == Count(tree, k) + Fresh(next, next + Accepted(runs, matches), k)
    ensures forall j :: 0 <= j < Accepted(runs, matches) ==>
      Seeded(r.value.0, next + j, Converted(runs, matches)[j].owner, Converted(runs, matches)[j].value, ana)
    ensures forall j :: 0 <= j < Accepted(runs, matches) ==>
      TakesPlace(tree, Converted(runs, matches)[j].owner, r.value.0, next + j)
    ensures forall k :: Count(tree, k) > 0 ==> SameAttrs(tree, r.value.0, k)
    ensures forall j :: 0 <= j < Accepted(runs, matches) && Covered(tree, false, Converted(runs, matches)[j].owner) > 0 ==>
      Covered(r.value.0, false, next + j) > 0
    ensures Accepted(runs, matches) == 0 ==> r == Ok((tree, []))
  {
    SeedSucceeds(tree, runs, matches, ana, next);
    SeedCoversAll(tree, runs, matches, ana, next);
    r := SeedDivs(tree, runs, matches, ana, next);
    var t := r.value.0;
    var n := Accepted(runs, matches);
    forall k | true
      ensures Count(t, k) == Count(tree, k) + Fresh(next, next + n, k)
    {
      SeedKeepsElements(tree, runs, matches, ana, next, k);
    }
    assert Unique(t) by {
      forall k: nat
        ensures Count(t, k) <= 1
      {
        assert Count(t, k) == Count(tree, k) + Fresh(next, next + n, k);
        assert Count(tree, k) <= 1;
        if k >= next {
          assert Count(tree, k) == 0;
        }
      }
    }
    SeedAllSeeded(tree, runs, matches, ana, next, t);
    SeedPlaces(tree, runs, matches, ana, next, t);
  }

  /** In a seeded document with unique keys, the key `next + j` names the
      division made from the j-th converted run. */
  lemma SeedAllSeeded(tree: Element, runs: seq<Run>, matches: string -> bool, ana: string, next: nat, t: Element)
    requires Ready(tree, runs, next) && Unique(t)
    requires SeedDivs(tree, runs, matches, ana, next).Ok? && t == SeedDivs(tree, runs, matches, ana, next).value.0
    ensures forall j :: 0 <= j < Accepted(runs, matches) ==>
      Seeded(t, next + j, Converted(runs, matches)[j].owner, Converted(runs, matches)[j].value, ana)
  {
    forall j | 0 <= j < Accepted(runs, matches)
      ensures Seeded(t, next + j, Converted(runs, matches)[j].owner, Converted(runs, matches)[j].value, ana)
    {
      SeedShape(tree, runs, matches, ana, next, j);
      SeededFromCensus(t, next + j, Converted(runs, matches)[j], ana);
    }
  }

  /** Every division seeding made takes its owner's place, and every
      element keeps its attributes. */
  lemma SeedPlaces(tree: Element, runs: seq<Run>, matches: string -> bool, ana: string, next: nat, t: Element)
    requires Ready(tree, runs, next) && Unique(tree)
    requires SeedDivs(tree, runs, matches, ana, next).Ok? && t == SeedDivs(tree, runs, matches, ana, next).value.0
    requires Unique(t)
    ensures forall j :: 0 <= j < Accepted(runs, matches) ==> TakesPlace(tree, Converted(runs, matches)[j].owner, t, next + j)
    ensures forall k :: Count(tree, k) > 0 ==> SameAttrs(tree, t, k)
  {
    forall j | 0 <= j < Accepted(runs, matches)
      ensures TakesPlace(tree, Converted(runs, matches)[j].owner, t, next + j)
    {
      SeedTakesPlace(tree, runs, matches, ana, next, j, t);
    }
    forall k | Count(tree, k) > 0
      ensures SameAttrs(tree, t, k)
    {
      SeedSameAttrs(tree, runs, matches, ana, next, k, t);
    }
  }

  /** A conversion on slots of the element keyed `pk`: the slot the owner
      filled in its parent is filled by the division, and the division's
      first slot by the head. */
  lemma ConvertSlots(tree: Element, p: Path, run: string, ana: string, next: nat, pk: nat, i: nat, cf: Node -> bool)
    requires ValidPath(tree, p) && |p| > 0
    ensures ValidPath(tree, Parent(p))
    ensures var o := Get(tree, p);
      var at := p[|p| - 1] == i && Get(tree, Parent(p)).key == pk;
      CountSlot(Convert(tree, p, run, ana, next), KeyIs(pk), i, cf) + (if at && cf(NodeOf(o)) then 1 else 0)
        == CountSlot(tree, KeyIs(pk), i, cf) + (if at && cf(Node(next, "div", map["ana" := ana], "\n", "\n")) then 1 else 0)
          + (if next == pk && i == 0 && cf(Node(o.key, "head", o.attrs, run, "\n")) then 1 else 0)
  {
    var o := Get(tree, p);
    var h := o.(tag := "head", text := run, tail := "\n");
    var d := Element(next, "div", map["ana" := ana], "\n", [h], "\n");
    CountSlotPut(tree, p, d, KeyIs(pk), i, cf);
    assert d.children[1..] == [];
    assert CountSlot(d, KeyIs(pk), i, cf) == SlotOf(d, KeyIs(pk), i, cf) + CountSlot(h, KeyIs(pk), i, cf) + CountSlotIn([], KeyIs(pk), i, cf);
    assert SlotOf(h, KeyIs(pk), i, cf) == SlotOf(o, KeyIs(pk), i, cf);
  }

  /** Seeding leaves alone every slot filled by an element whose key is
      neither an owner nor fresh: conversions keep every key and every
      element's children, apart from the owners they wrap. */
  lemma {:induction false} SeedKeepsSlots(tree: Element, runs: seq<Run>, matches: string -> bool,
    ana: string, next: nat, pk: nat, i: nat, ck: nat)
    requires ck < next && forall m :: 0 <= m < |runs| ==> runs[m].owner != ck
    ensures var r := SeedDivs(tree, runs, matches, ana, next);
      r.Ok? ==> CountSlot(r.value.0, KeyIs(pk), i, KeyIs(ck)) == CountSlot(tree, KeyIs(pk), i, KeyIs(ck))
    decreases |runs|
  {
    var r := SeedDivs(tree, runs, matches, ana, next);
    if |runs| == 0 || r.Err? {
      return;
    }
    var run := runs[|runs| - 1];
    var rest := runs[..|runs| - 1];
    assert forall m :: 0 <= m < |rest| ==> rest[m] == runs[m];
    if !Converts(run, matches) {
      SeedKeepsSlots(tree, rest, matches, ana, next, pk, i, ck);
    } else {
      var p := FindKey(tree, run.owner).value;
      ConvertSlots(tree, p, run.value, ana, next, pk, i, KeyIs(ck));
      SeedKeepsSlots(Convert(tree, p, run.value, ana, next), rest, matches, ana, next + 1, pk, i, ck);
    }
  }

  /** A conversion with a fresh key keeps keys unique. */
  lemma ConvertUnique(tree: Element, p: Path, run: string, ana: string, next: nat)
    requires ValidPath(tree, p) && |p| > 0 && Unique(tree) && KeysBelow(tree, next)
    ensures Unique(Convert(tree, p, run, ana, next))
  {
    forall k
      ensures Count(Convert(tree, p, run, ana, next), k) <= 1
    {
      ConvertCount(tree, p, run, ana, next, k);
    }
  }

  /** The division with key `next + j` fills the slot that the owner of
      the j-th converted run filled before seeding: the same index under
      the element with the same key. Earlier conversions leave that slot
      to the owner, its own conversion hands it to the division, and
      later ones leave it to the division. */
  lemma {:induction false} SeedSlot(tree: Element, runs: seq<Run>, matches: string -> bool,
    ana: string, next: nat, j: nat, pk: nat, i: nat)
    requires Ready(tree, runs, next) && Unique(tree) && j < Accepted(runs, matches)
    requires CountSlot(tree, KeyIs(pk), i, KeyIs(Converted(runs, matches)[j].owner)) > 0
    ensures var r := SeedDivs(tree, runs, matches, ana, next);
      r.Ok? && CountSlot(r.value.0, KeyIs(pk), i, KeyIs(next + j)) > 0
    decreases |runs|
  {
    SeedSucceeds(tree, runs, matches, ana, next);
    var run := runs[|runs| - 1];
    var rest := runs[..|runs| - 1];
    FindKeyComplete(tree, run.owner);
    var p := FindKey(tree, run.owner).value;
    ReadyStep(tree, runs, p, ana, next);
    if !Converts(run, matches) {
      SeedSlot(tree, rest, matches, ana, next, j, pk, i);
    } else {
      var t1 := Convert(tree, p, run.value, ana, next);
      if j > 0 {
        SlotBeforeConversion(tree, runs, matches, ana, next, j, pk, i, p);
        SeedSlot(t1, rest, matches, ana, next + 1, j - 1, pk, i);
      } else {
        SlotAtConversion(tree, runs, matches, ana, next, pk, i, p);
      }
    }
  }

  /** The owner of a run converted after the last one is neither the last
      run's owner nor the next key. */
  lemma EarlierOwner(tree: Element, runs: seq<Run>, matches: string -> bool, next: nat, j: nat)
    requires Ready(tree, runs, next) && |runs| > 0
    requires j < Accepted(runs[..|runs| - 1], matches)
    ensures var o := Converted(runs[..|runs| - 1], matches)[j].owner;
      o != runs[|runs| - 1].owner && o != next
  {
    var rest := runs[..|runs| - 1];
    ConvertedSpec(rest, matches, j);
    assert forall m :: 0 <= m < |rest| ==> rest[m] == runs[m];
  }

  /** A conversion before the j-th leaves the j-th owner its slot. */
  lemma SlotBeforeConversion(tree: Element, runs: seq<Run>, matches: string -> bool,
    ana: string, next: nat, j: nat, pk: nat, i: nat, p: Path)
    requires Ready(tree, runs, next) && Unique(tree) && |runs| > 0
    requires Converts(runs[|runs| - 1], matches)
    requires ValidPath(tree, p) && |p| > 0 && Get(tree, p).key == runs[|runs| - 1].owner
    requires 0 < j < Accepted(runs, matches)
    requires CountSlot(tree, KeyIs(pk), i, KeyIs(Converted(runs, matches)[j].owner)) > 0
    ensures var rest := runs[..|runs| - 1];
      && var t1 := Convert(tree, p, runs[|runs| - 1].value, ana, next);
      && Unique(t1) && j - 1 < Accepted(rest, matches)
      && CountSlot(t1, KeyIs(pk), i, KeyIs(Converted(rest, matches)[j - 1].owner)) > 0
  {
    var run := runs[|runs| - 1];
    var rest := runs[..|runs| - 1];
    ConvertUnique(tree, p, run.value, ana, next);
    var o := Converted(rest, matches)[j - 1].owner;
    assert Converted(runs, matches)[j] == Converted(rest, matches)[j - 1];
    EarlierOwner(tree, runs, matches, next, j - 1);
    ConvertSlots(tree, p, run.value, ana, next, pk, i, KeyIs(o));
  }

  /** The j-th conversion hands the owner's slot to the division, and the
      later ones leave it there. */
  lemma SlotAtConversion(tree: Element, runs: seq<Run>, matches: string -> bool,
    ana: string, next: nat, pk: nat, i: nat, p: Path)
    requires Ready(tree, runs, next) && Unique(tree) && |runs| > 0
    requires Converts(runs[|runs| - 1], matches)
    requires ValidPath(tree, p) && |p| > 0 && Get(tree, p).key == runs[|runs| - 1].owner
    requires CountSlot(tree, KeyIs(pk), i, KeyIs(runs[|runs| - 1].owner)) > 0
    ensures var rest := runs[..|runs| - 1];
      var r := SeedDivs(Convert(tree, p, runs[|runs| - 1].value, ana, next), rest, matches, ana, next + 1);
      r.Ok? ==> CountSlot(r.value.0, KeyIs(pk), i, KeyIs(next)) > 0
  {
    var run := runs[|runs| - 1];
    var rest := runs[..|runs| - 1];
    var t1 := Convert(tree, p, run.value, ana, next);
    assert Count(tree, run.owner) <= 1;
    FoundSlot(tree, KeyIs(pk), i, run.owner);
    FindKeyComplete(tree, run.owner);
    UniquePath(tree, p, FindKey(tree, run.owner).value);
    ConvertSlots(tree, p, run.value, ana, next, pk, i, KeyIs(next));
    assert forall m :: 0 <= m < |rest| ==> rest[m] == runs[m] && rest[m].owner != next;
    SeedKeepsSlots(t1, rest, matches, ana, next + 1, pk, i, next);
  }

  /** The node test for the element keyed `k` with attributes `a`. */
  function AttrsIs(k: nat, a: map<string, string>): Node -> bool {
    (n: Node) => n.key == k && n.attrs == a
  }

  /** Seeding changes no element's attributes: an owner keeps them as a
      `head`. */
  lemma {:induction false} SeedKeepsAttrs(tree: Element, runs: seq<Run>, matches: string -> bool,
    ana: string, next: nat, k: nat, a: map<string, string>)
    requires k < next
    ensures var r := SeedDivs(tree, runs, matches, ana, next);
      r.Ok? ==> CountNode(r.value.0, AttrsIs(k, a)) == CountNode(tree, AttrsIs(k, a))
    decreases |runs|
  {
    var r := SeedDivs(tree, runs, matches, ana, next);
    if |runs| == 0 || r.Err? {
      return;
    }
    var run := runs[|runs| - 1];
    var rest := runs[..|runs| - 1];
    if !Converts(run, matches) {
      SeedKeepsAttrs(tree, rest, matches, ana, next, k, a);
    } else {
      var p := FindKey(tree, run.owner).value;
      ConvertNodes(tree, p, run.value, ana, next, AttrsIs(k, a));
      SeedKeepsAttrs(Convert(tree, p, run.value, ana, next), rest, matches, ana, next + 1, k, a);
    }
  }

  /** The element keyed `k` in `t` stands where the element keyed `o` stood
      in `t0`: at the same index below an element with the same key. */
  ghost predicate TakesPlace(t0: Element, o: nat, t: Element, k: nat) {
    && FindKey(t0, o).Some? && FindKey(t, k).Some?
    && var p := FindKey(t0, o).value;
    && var q := FindKey(t, k).value;
    && |p| > 0 && |q| > 0
    && ValidPath(t0, Parent(p)) && ValidPath(t, Parent(q))
    && q[|q| - 1] == p[|p| - 1]
    && Get(t, Parent(q)).key == Get(t0, Parent(p)).key
  }

  /** The element keyed `k` has in `t` the attributes it had in `t0`. */
  ghost predicate SameAttrs(t0: Element, t: Element, k: nat) {
    && FindKey(t0, k).Some? && FindKey(t, k).Some?
    && Get(t, FindKey(t, k).value).attrs == Get(t0, FindKey(t0, k).value).attrs
  }

  /** The slot an element other than the root fills: its index below its
      parent, named by the parent's key. */
  lemma OwnSlot(t: Element, o: nat) returns (pk: nat, i: nat)
    requires FindKey(t, o).Some? && |FindKey(t, o).value| > 0
    ensures var p := FindKey(t, o).value;
      && ValidPath(t, Parent(p)) && pk == Get(t, Parent(p)).key && i == p[|p| - 1]
    ensures CountSlot(t, KeyIs(pk), i, KeyIs(o)) > 0
  {
    var p := FindKey(t, o).value;
    GetPrefix(t, p, |p| - 1);
    i := p[|p| - 1];
    assert p == Parent(p) + [i];
    GetAppend(t, Parent(p), i);
    pk := Get(t, Parent(p)).key;
    SlotAt(t, Parent(p), i, KeyIs(pk), KeyIs(o));
  }

  /** The owner of a converted ready run is an element other than the root. */
  lemma ConvertedOwner(tree: Element, runs: seq<Run>, matches: string -> bool, next: nat, j: nat)
    requires Ready(tree, runs, next) && j < Accepted(runs, matches)
    ensures var o := Converted(runs, matches)[j].owner;
      FindKey(tree, o).Some? && |FindKey(tree, o).value| > 0
  {
    var o := Converted(runs, matches)[j].owner;
    ConvertedSpec(runs, matches, j);
    FindKeyComplete(tree, o);
  }

  /** A filled slot of the element keyed `pk` at the index `o` had below
      it in `t0`, with a child keyed `k`, puts `k` in `o`'s place. */
  lemma TakesPlaceFromSlot(t0: Element, o: nat, t: Element, k: nat, pk: nat, i: nat)
    requires FindKey(t0, o).Some? && |FindKey(t0, o).value| > 0
    requires var p := FindKey(t0, o).value;
      ValidPath(t0, Parent(p)) && pk == Get(t0, Parent(p)).key && i == p[|p| - 1]
    requires Count(t, k) <= 1 && CountSlot(t, KeyIs(pk), i, KeyIs(k)) > 0
    ensures TakesPlace(t0, o, t, k)
  {
    FoundSlot(t, KeyIs(pk), i, k);
  }

  /** On ready runs of a tree with unique keys, the division with key
      `next + j` takes the place of the owner of the j-th converted run. */
  lemma SeedTakesPlace(tree: Element, runs: seq<Run>, matches: string -> bool, ana: string, next: nat, j: nat, t: Element)
    requires Ready(tree, runs, next) && Unique(tree) && j < Accepted(runs, matches)
    requires SeedDivs(tree, runs, matches, ana, next).Ok? && t == SeedDivs(tree, runs, matches, ana, next).value.0
    requires Unique(t)
    ensures TakesPlace(tree, Converted(runs, matches)[j].owner, t, next + j)
  {
    var o := Converted(runs, matches)[j].owner;
    ConvertedOwner(tree, runs, matches, next, j);
    var pk, i := OwnSlot(tree, o);
    SeedSlot(tree, runs, matches, ana, next, j, pk, i);
    assert Count(t, next + j) <= 1;
    TakesPlaceFromSlot(tree, o, t, next + j, pk, i);
  }

  /** Seeding keeps the attributes of every element of the tree. */
  lemma SeedSameAttrs(tree: Element, runs: seq<Run>, matches: string -> bool, ana: string, next: nat, k: nat, t: Element)
    requires KeysBelow(tree, next) && Count(tree, k) > 0
    requires SeedDivs(tree, runs, matches, ana, next).Ok? && t == SeedDivs(tree, runs, matches, ana, next).value.0
    requires Unique(t)
    ensures SameAttrs(tree, t, k)
  {
    FindKeyComplete(tree, k);
    var p := FindKey(tree, k).value;
    var a := Get(tree, p).attrs;
    NodeAt(tree, p, AttrsIs(k, a));
    SeedKeepsAttrs(tree, runs, matches, ana, next, k, a);
    assert Count(t, k) <= 1;
    FoundNode(t, AttrsIs(k, a), k);
  }

  /* ---------------- a `div` above ---------------- */

  /** A conversion takes from no element other than the new division its
      `div` ancestor: the owner and its subtree only gain one. */
  lemma ConvertCovered(tree: Element, p: Path, run: string, ana: string, next: nat, key: nat)
    requires ValidPath(tree, p) && |p| > 0 && key != next
    ensures Covered(Convert(tree, p, run, ana, next), false, key) >= Covered(tree, false, key)
  {
    var o := Get(tree, p);
    var h := o.(tag := "head", text := run, tail := "\n");
    var d := Element(next, "div", map["ana" := ana], "\n", [h], "\n");
    var a := AboveAt(tree, false, p);
    CoveredPut(tree, false, p, d, key);
    CoveredInSingle(h, true, key);
    CoveredInMono(o.children, a || o.tag == "div", true, key);
  }

  /** The new division has a `div` above exactly when its owner had one:
      it stands where the owner stood. */
  lemma ConvertCoversDiv(tree: Element, p: Path, run: string, ana: string, next: nat)
    requires ValidPath(tree, p) && |p| > 0 && KeysBelow(tree, next)
    requires Count(tree, Get(tree, p).key) <= 1
    ensures Covered(Convert(tree, p, run, ana, next), false, next) == Covered(tree, false, Get(tree, p).key)
  {
    var o := Get(tree, p);
    var h := o.(tag := "head", text := run, tail := "\n");
    var d := Element(next, "div", map["ana" := ana], "\n", [h], "\n");
    var a := AboveAt(tree, false, p);
    CoveredPut(tree, false, p, d, next);
    CoveredInSingle(h, true, next);
    CoveredCount(tree, false, next);
    CountGet(tree, p, next);
    CoveredCount(o, a, next);
    CoveredInCount(o.children, true, next);
    GetCounted(tree, p);
    CoveredAt(tree, false, p);
  }

  /** Seeding takes from no old element its `div` ancestor. */
  lemma {:induction false} SeedKeepsCovered(tree: Element, runs: seq<Run>, matches: string -> bool,
    ana: string, next: nat, key: nat)
    requires key < next
    ensures var r := SeedDivs(tree, runs, matches, ana, next);
      r.Ok? ==> Covered(r.value.0, false, key) >= Covered(tree, false, key)
    decreases |runs|
  {
    var r := SeedDivs(tree, runs, matches, ana, next);
    if |runs| == 0 || r.Err? {
      return;
    }
    var run := runs[|runs| - 1];
    var rest := runs[..|runs| - 1];
    if !Converts(run, matches) {
      SeedKeepsCovered(tree, rest, matches, ana, next, key);
    } else {
      var p := FindKey(tree, run.owner).value;
      ConvertCovered(tree, p, run.value, ana, next, key);
      SeedKeepsCovered(Convert(tree, p, run.value, ana, next), rest, matches, ana, next + 1, key);
    }
  }

  /** The division with key `next + j` has a `div` ancestor when the owner
      of the j-th converted run had one before seeding. */
  lemma {:induction false} SeedCovers(tree: Element, runs: seq<Run>, matches: string -> bool,
    ana: string, next: nat, j: nat)
    requires Ready(tree, runs, next) && Unique(tree) && j < Accepted(runs, matches)
    requires Covered(tree, false, Converted(runs, matches)[j].owner) > 0
    ensures var r := SeedDivs(tree, runs, matches, ana, next);
      r.Ok? && Covered(r.value.0, false, next + j) > 0
    decreases |runs|
  {
    SeedSucceeds(tree, runs, matches, ana, next);
    var run := runs[|runs| - 1];
    var rest := runs[..|runs| - 1];
    FindKeyComplete(tree, run.owner);
    var p := FindKey(tree, run.owner).value;
    ReadyStep(tree, runs, p, ana, next);
    if !Converts(run, matches) {
      SeedCovers(tree, rest, matches, ana, next, j);
    } else {
      var t1 := Convert(tree, p, run.value, ana, next);
      ConvertUnique(tree, p, run.value, ana, next);
      if j > 0 {
        CoverBeforeConversion(tree, runs, matches, ana, next, j, p);
        SeedCovers(t1, rest, matches, ana, next + 1, j - 1);
      } else {
        ConvertCoversDiv(tree, p, run.value, ana, next);
        SeedKeepsCovered(t1, rest, matches, ana, next + 1, next);
      }
    }
  }

  /** A conversion before the j-th leaves the j-th owner its `div`
      ancestor. */
  lemma CoverBeforeConversion(tree: Element, runs: seq<Run>, matches: string -> bool,
    ana: string, next: nat, j: nat, p: Path)
    requires Ready(tree, runs, next) && |runs| > 0
    requires Converts(runs[|runs| - 1], matches)
    requires ValidPath(tree, p) && |p| > 0
    requires 0 < j < Accepted(runs, matches)
    requires Covered(tree, false, Converted(runs, matches)[j].owner) > 0
    ensures var rest := runs[..|runs| - 1];
      && j - 1 < Accepted(rest, matches)
      && Covered(Convert(tree, p, runs[|runs| - 1].value, ana, next), false, Converted(rest, matches)[j - 1].owner) > 0
  {
    var rest := runs[..|runs| - 1];
    var o := Converted(rest, matches)[j - 1].owner;
    assert Converted(runs, matches)[j] == Converted(rest, matches)[j - 1];
    EarlierOwner(tree, runs, matches, next, j - 1);
    ConvertCovered(tree, p, runs[|runs| - 1].value, ana, next, o);
  }

  /** Every division seeding made has a `div` ancestor when its owner had
      one. */
  lemma SeedCoversAll(tree: Element, runs: seq<Run>, matches: string -> bool, ana: string, next: nat)
    requires Ready(tree, runs, next) && Unique(tree)
    ensures var r := SeedDivs(tree, runs, matches, ana, next);
      r.Ok? && forall j :: 0 <= j < Accepted(runs, matches) && Covered(tree, false, Converted(runs, matches)[j].owner) > 0 ==>
        Covered(r.value.0, false, next + j) > 0
  {
    SeedSucceeds(tree, runs, matches, ana, next);
    var r := SeedDivs(tree, runs, matches, ana, next);
    forall j | 0 <= j < Accepted(runs, matches) && Covered(tree, false, Converted(runs, matches)[j].owner) > 0
      ensures Covered(r.value.0, false, next + j) > 0
    {
      SeedCovers(tree, runs, matches, ana, next, j);
    }
  }
}
