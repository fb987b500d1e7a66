# refine_tei: article segmentation and cleanup of TEI transcriptions

This project models the tree-rewriting core of `scripts/refine_tei.py` in
Dafny. The script post-processes TEI/XML transcriptions exported from
Transkribus, and the model covers the following parts of it:

- **Segmentation** (`make_all_section_divs`). Every text run that follows a
  line break (`lb`) inside the `body` and reads like an article marker
  (`Art. 12`) becomes the `head` of a new `div ana="article"`.
  - Each such division is then raised until its parent is a `div`. Any
    element it was raised out of is split around it.
  - Each division then absorbs the siblings that follow it, up to the next
    `div`.
- **Cleanup.** The attributes of `lb`, `p` and `head` are cleared
  (`remove_useless_atributes`). Paragraphs that open with a blank line
  break lose that `lb` (`remove_useless_elements`).
- **Facsimile.** Image URLs are written into the `graphic` elements, the
  `zone`s of every facsimile surface are removed, and the first `facsimile`
  is picked out (`get_faksimile_element`).
- **Bookkeeping.**
  - The Transkribus document id is taken from a file name
    (`return_transkribus_doc_id`).
  - The metadata dump is grouped by collection and document (the loop in
    `load_metadata_from_dump`).

The document is an immutable tree. `Tree.Element` holds a key, a local
name, attributes, text, children and tail. The key stands for lxml's object
identity: the Python code holds element objects across passes, and the model
finds them again by key. An element is addressed by a child-index path. Each
XPath query is an explicit traversal. A Python exception becomes an
`Err(...)` of `Tree.Result`.

Files (one module each):
- `text.dfy`: `str.strip`, `normalize-space` blankness and `contains`.
- `tree.dfy`: elements, paths, per-key counts, lookup by key, key uniqueness and the error type.
- `census.dfy`: counts of nodes and of parent-child pairs that pass a test.
- `marker.dfy`: the marker regular expression.
- `select.dfy`: the candidate query.
- `seed.dfy`: `seed_div_elements`.
- `raise.dfy`: `raise_div_element`.
- `expand.dfy`: `expand_div_element`.
- `segment.dfy`: `make_all_section_divs`.
- `cleanup.dfy`: the two cleanup passes.
- `facsimile.dfy`: `get_faksimile_element`.
- `metadata.dfy`: `return_transkribus_doc_id` and the grouping loop.

Most lemmas state what the passes keep and what they remove in terms of
`Count(tree, k)`, the number of elements carrying key `k`. "No element lost
or duplicated, and exactly the new ones added" means that every key's count
changes only by the fresh keys the pass hands out.

What the segmentation leaves behind is stated the same way, as a census: the
number of nodes passing a test (a node is an element without its children),
and the number of parent-child pairs whose parent and child pass two tests.
A pass that leaves every `div` node where it was counted and loses no pair
of a `div` parent with a given child keeps every division it already placed.
With unique keys a census fact turns into a fact about the element found by
key, such as "the element keyed `k` is a `div` whose parent is a `div`".

## Model

| member | source | states |
|---|---|---|
| Text.Strip | scripts/refine_tei.py:78 | `str.strip()`: the result is a slice of the run with only whitespace outside it, and it neither starts nor ends with whitespace |
| Text.StripEmptyIffAllSpace | scripts/refine_tei.py:104 | the truth value of `text.strip()` is false exactly when the text is all whitespace |
| Text.HasSubstring | scripts/refine_tei.py:126 | the scan for `'Art.'` succeeds exactly when the run contains it somewhere, as XPath `contains` does |
| Marker.MatchArticleLabel | scripts/refine_tei.py:78 | the scanning matcher accepts exactly the strings the article pattern matches: `Art`, an optional `.`, then either spaces only or one space and at most ten more characters up to the end |
| Marker.MatchRest | scripts/refine_tei.py:127 | the scan after `Art`/`Art.` accepts exactly the pattern's final group (spaces only, or one space and at most ten characters, then the end), where the end may also be just before a final newline |
| Marker.BeforeEnd | scripts/refine_tei.py:127 | Python's `$` matches at the end of the string or just before a final newline |
| Marker.LabelShape | scripts/refine_tei.py:127 | on a string that does not end in whitespace, the pattern accepts exactly `Art`, `Art.`, or either of them followed by one space and at most ten characters that are not newlines |
| Marker.MarkerIffShape | scripts/refine_tei.py:78 | a run passes the test exactly when its stripped form has that shape |
| Marker.UnpaddedMarker | scripts/refine_tei.py:78 | a run without surrounding whitespace passes exactly when it has the shape itself |
| Marker.AcceptsNumberedArticle | scripts/refine_tei.py:127 | `"Art. 12"` is a marker |
| Marker.RejectsLongerWord | scripts/refine_tei.py:127 | `"Artikel 12"` is not a marker |
| Marker.RejectsLongLabel | scripts/refine_tei.py:127 | `"Art. 12345678901"` (eleven characters after the space) is not a marker |
| Select.CandidateSound | scripts/refine_tei.py:126 | every returned run is the tail of an element that is a following sibling of an `lb` inside `body` and whose tail contains `Art.` |
| Select.CandidateComplete | scripts/refine_tei.py:126 | every such tail is returned |
| Select.ArticleCandidatesExact | scripts/refine_tei.py:126 | on a document, the returned runs are exactly the selected tails |
| Select.CandidateOwners | scripts/refine_tei.py:126 | every returned run hangs on an element of the document |
| Select.OwnerWithin | scripts/refine_tei.py:126 | every run the query returns from the children from i on hangs on an element inside them |
| Select.CandidatesDistinct | scripts/refine_tei.py:126 | with unique keys no two returned runs hang on the same element: each element has one tail |
| Select.CandidateOwnersReady | scripts/refine_tei.py:126 | with unique keys the returned runs hang on distinct elements of the document, none of them the root |
| Seed.Convert | scripts/refine_tei.py:80-88 | after a conversion the owner's position still exists |
| Seed.ConvertShape | scripts/refine_tei.py:80-88 | at the owner's position stands a new `div` with text and tail `"\n"`, `ana` set and no other attribute. Its only child is the owner, retagged `head`, with the unstripped run as text, tail `"\n"`, and its attributes and children as before. Everything outside that position (siblings, ancestors, the rest of the tree) is as it was |
| Seed.ConvertCount | scripts/refine_tei.py:80-88 | a conversion adds exactly the new division and loses no element |
| Seed.SeedDivs | scripts/refine_tei.py:72-89 | the new divisions take the keys `next`, `next + 1`, ..., one per converted run. With no converted run the document is unchanged. The only failures are a missing owner or a marker on the root's tail, where `addprevious` raises |
| Seed.ConvertedSpec | scripts/refine_tei.py:75-80 | the j-th converted run is a run of the list that passes the test, with exactly j passing runs after it: the conversions go through the passing runs in reverse document order |
| Seed.ReadyStep | scripts/refine_tei.py:76-88 | after one conversion the remaining runs still hang on distinct non-root elements, and the next key is still unused |
| Seed.SeedSucceeds | scripts/refine_tei.py:79-86 | when the runs hang on distinct elements other than the root and `next` is unused, the owner is always found and never the root, so seeding cannot fail |
| Seed.ConvertNodes | scripts/refine_tei.py:80-88 | a conversion changes the census of nodes only by trading the owner's node for the head's and adding the new division's |
| Seed.ConvertEdges | scripts/refine_tei.py:80-88 | a conversion changes the parent-child pairs only at the owner's old parent, the new division and the head |
| Seed.SeedKeepsNodes | scripts/refine_tei.py:72-89 | seeding leaves the nodes of every element that is neither an owner nor new as they were |
| Seed.SeedKeepsEdges | scripts/refine_tei.py:72-89 | seeding leaves the children of every element that is neither an owner nor new where they were |
| Seed.ConvertSlots | scripts/refine_tei.py:80-88 | a conversion hands the slot the owner filled in its parent to the new division, fills the division's first slot with the head, and changes no other child slot |
| Seed.SeedKeepsSlots | scripts/refine_tei.py:72-89 | a slot filled by an old element that owns no run stays filled by it |
| Seed.SeedSlot | scripts/refine_tei.py:76-88 | the division with key `next + j` fills the slot that the owner of the j-th converted run filled before seeding: the same index below the element with the same key |
| Seed.SeedKeepsAttrs | scripts/refine_tei.py:80-86 | seeding changes no element's attributes: an owner keeps its own as a `head`, the new divisions only set `ana` |
| Seed.SeedTakesPlace | scripts/refine_tei.py:84-87 | with unique keys, the division with key `next + j` stands at the index of the j-th owner, below the element that was the owner's parent |
| Seed.SeedSameAttrs | scripts/refine_tei.py:80-83 | every element of the document, the head made from an owner included, has afterwards the attributes it had before |
| Seed.ConvertCensus | scripts/refine_tei.py:80-88 | right after its conversion, there is exactly one division node with the new key, whose one child is the owner as a `head` holding the run |
| Seed.SeedShape | scripts/refine_tei.py:72-89 | after seeding ready runs, for every j the division with key `next + j` is present once with that one child, the head made from the j-th converted run, and later conversions do not disturb it |
| Seed.SeededFromCensus | scripts/refine_tei.py:80-88 | with unique keys those census facts mean that the element found by the key is that division, and its only child is that head |
| Seed.SeedKeepsElements | scripts/refine_tei.py:72-89 | seeding loses and duplicates no element and adds exactly one new division per converted run |
| Seed.AcceptedZero | scripts/refine_tei.py:76-79 | no division is made exactly when no run is a tail that passes the test |
| Seed.SeedFindsOwners | scripts/refine_tei.py:77 | when every run hangs on an element of the document, `getparent()` always finds it |
| Seed.SeedPass | scripts/refine_tei.py:72-89 | on a document with unique keys and runs on distinct non-root elements, seeding succeeds. The key `next + j` then names a `div` with `ana` set, newline text and tail, whose only child is the owner of the j-th converted run (from the end) as a `head` with that run as text. That division stands at the owner's old index below the owner's old parent and has a `div` ancestor whenever the owner had one, and every element, the head included, keeps its attributes. No element is lost or duplicated and exactly the new divisions are added |
| Seed.ConvertCovered | scripts/refine_tei.py:80-88 | one conversion takes from no old element its `div` ancestor |
| Seed.ConvertCoversDiv | scripts/refine_tei.py:84-87 | the new division has a `div` ancestor exactly when its owner had one, since it takes the owner's place |
| Seed.SeedKeepsCovered | scripts/refine_tei.py:72-89 | seeding takes from no old element its `div` ancestor |
| Seed.SeedCovers | scripts/refine_tei.py:72-89 | the division keyed `next + j` has a `div` ancestor after seeding when the owner of the j-th converted run had one before |
| Raise.Splice | scripts/refine_tei.py:101-109 | replacing a child by a run of elements keeps the children before and after it |
| Raise.Pieces | scripts/refine_tei.py:95-109 | the elements that take P's place hold the division at the position the case dictates |
| Raise.RaiseStep | scripts/refine_tei.py:95-110 | one step moves the division one level up, unchanged. It rewrites only the grandparent's children, hands out at most one new key, and keeps the grandparent itself |
| Raise.RaiseStepShape | scripts/refine_tei.py:95-110 | the three cases. With a previous sibling: P keeps the children before the division, then the division, then a new element with P's tag and text `"\n"` holding the following siblings. Without one and with non-blank text: a new element holding P's text, then the division, then P with empty text. Without one and with blank text: the division, then P. In every case the pieces hold P's children in their old order |
| Raise.PiecesCount | scripts/refine_tei.py:95-109 | the pieces hold P's elements plus only the new split element, if one is made |
| Raise.RaiseStepCount | scripts/refine_tei.py:95-110 | a step loses and duplicates no element and adds exactly the new key it hands out |
| Raise.RaiseStepAncestors | scripts/refine_tei.py:111 | a step keeps the tags of the division's remaining ancestors |
| Raise.NearestDiv | scripts/refine_tei.py:94 | finds the deepest `div` among the division's ancestors, if there is one |
| Raise.NearestDivSame | scripts/refine_tei.py:94 | ancestors with the same tags give the same nearest `div` |
| Raise.RaiseDiv | scripts/refine_tei.py:92-111 | on success the division is unchanged, its parent is a `div`, and it sits on a prefix of its old path. The only failure is a missing `div` ancestor |
| Raise.RaiseReachesNearestDiv | scripts/refine_tei.py:92-111 | raising succeeds exactly when some ancestor is a `div`, and then it stops right below the nearest one |
| Raise.RaiseKeepsElements | scripts/refine_tei.py:92-111 | raising loses and duplicates no element and adds exactly the fresh split elements |
| Raise.PiecesCovered | scripts/refine_tei.py:95-109 | splitting a non-`div` element into its pieces changes, for no key but the fresh one, how many elements with that key have a `div` above them |
| Raise.RaiseStepCovered | scripts/refine_tei.py:95-110 | one step of the raise loop, below a non-`div` parent, changes for no old key whether its element has a `div` ancestor |
| Raise.RaiseKeepsCovered | scripts/refine_tei.py:92-111 | a successful raise changes for no key below the fresh ones whether its element has a `div` ancestor |
| Raise.AboveAtDivAt | scripts/refine_tei.py:93-94 | the ancestor flag carried down a path is set exactly when the start flag is set or some proper prefix of the path leads to a `div` |
| Raise.DivAboveCovered | scripts/refine_tei.py:93-94 | for a key held at most once, the element has a `div` ancestor exactly when the census of elements below a `div` counts it |
| Raise.RaiseDivAbove | scripts/refine_tei.py:92-111 | raising the element found by a key succeeds exactly when it has a `div` ancestor |
| Raise.PiecesNodes | scripts/refine_tei.py:95-109 | splitting a parent that is not a `div` leaves every `div` node as it was: the split pieces take P's tag |
| Raise.PiecesEdges | scripts/refine_tei.py:95-109 | splitting a parent that is not a `div` loses no pair of a `div` parent with a given child |
| Raise.RaiseStepNodes | scripts/refine_tei.py:95-110 | one step leaves every `div` node of the tree as it was |
| Raise.RaiseStepEdges | scripts/refine_tei.py:95-110 | after one step every element that was the child of a `div` still is |
| Raise.RaiseKeepsNodes | scripts/refine_tei.py:92-111 | raising leaves every `div` node of the tree as it was, so earlier divisions are untouched |
| Raise.RaiseKeepsDivChildren | scripts/refine_tei.py:92-111 | after raising, every element that was the child of a `div` still is, so a division raised earlier stays in place |
| Raise.RaisedUnderDiv | scripts/refine_tei.py:111 | after a successful raise the division is the child of a `div` |
| Raise.PiecesSlots | scripts/refine_tei.py:95-109 | splitting a parent that is not a `div` keeps the child slots of every `div` at every index |
| Raise.SpliceFirst | scripts/refine_tei.py:104-110 | after a split the grandparent's first child is still a `head` with a given non-blank text if it was one: a kept P keeps its tag and text, a clone takes P's non-blank text, and a P with blank text was no such `head` |
| Raise.RaiseStepSlots | scripts/refine_tei.py:95-110 | one step keeps every first slot of a `div` that holds a `head` with a non-blank text |
| Raise.RaiseKeepsHeads | scripts/refine_tei.py:92-111 | raising keeps every first slot of a `div` that holds a `head` with a non-blank text, so a division raised earlier keeps its head first |
| Expand.FirstDiv | scripts/refine_tei.py:138-140 | finds the first following sibling that is a `div`, or the end |
| Expand.FirstDivUnique | scripts/refine_tei.py:138-140 | any index with the two properties of the loop's stop is that one |
| Expand.Absorb | scripts/refine_tei.py:114-118 | the siblings before the division are untouched. The division gets the following siblings up to the first `div` appended, in order, and the rest follow it |
| Expand.AbsorbLoop | scripts/refine_tei.py:114-118 | the source's one-sibling-at-a-time loop computes that result |
| Expand.AbsorbStops | scripts/refine_tei.py:116-117 | afterwards the division's next sibling is a `div` or there is none |
| Expand.AbsorbIdempotent | scripts/refine_tei.py:114-118 | a second expansion absorbs nothing |
| Expand.AbsorbCount | scripts/refine_tei.py:117 | absorbing moves elements and loses none |
| Expand.ExpandAt | scripts/refine_tei.py:114-118 | the division stays at its path, unchanged except for its children |
| Expand.ExpandShape | scripts/refine_tei.py:114-118 | the expansion rewrites only the parent's children, as `Absorb` describes |
| Expand.ExpandKeepsElements | scripts/refine_tei.py:114-118 | expansion loses and duplicates no element |
| Expand.ExpandAtStops | scripts/refine_tei.py:114-118 | in the tree, the division's next sibling is afterwards a `div` or absent, and its new children are its old ones followed by the absorbed siblings |
| Expand.AbsorbNodes | scripts/refine_tei.py:117 | absorbing moves elements without changing any of them apart from the division's children |
| Expand.ExpandKeepsNodes | scripts/refine_tei.py:114-118 | expansion changes no element's key, tag, attributes, text or tail |
| Expand.AbsorbDivChildren | scripts/refine_tei.py:117 | absorbing into a `div` loses no pair of a `div` parent with a given child: the taken siblings move under a `div` |
| Expand.ExpandKeepsDivChildren | scripts/refine_tei.py:114-118 | after expanding a `div`, every element that was the child of a `div` still is |
| Expand.AbsorbFirstSlots | scripts/refine_tei.py:117 | absorbing keeps every first slot: the division's first child stays first, and the taken siblings keep their subtrees |
| Expand.AbsorbKeepsFirst | scripts/refine_tei.py:117 | the parent's own first child keeps its node when one of its children absorbs |
| Expand.ExpandKeepsFirstSlots | scripts/refine_tei.py:114-118 | expansion keeps every first slot of the tree, since it only appends children to the division and takes siblings after it |
| Segment.GrownUnique | scripts/refine_tei.py:121-141 | adding exactly the fresh keys from `next` on to a document with unique keys below `next` keeps the keys unique |
| Segment.UnderDivCensus | scripts/refine_tei.py:111 | for a unique key, "the element is a `div` whose parent is a `div`" holds exactly when the census has such a node and such a parent-child pair |
| Segment.RaiseAllStep | scripts/refine_tei.py:131-132 | one raise in the loop keeps the key counts up to the fresh keys, every `div` node, and every earlier division under its `div`, and puts the current one under a `div` |
| Segment.RaiseAll | scripts/refine_tei.py:131-132 | with unique keys and `div` divisions, the raise loop succeeds exactly when every division has a `div` ancestor in the document it starts from, and any failure is that one. On success every division is a `div` whose parent is a `div`, every `div` node is as it was, and exactly the fresh split elements are added. Every first slot of a `div` holding a `head` with a non-blank text is kept |
| Segment.RaiseAllAbove | scripts/refine_tei.py:131-132 | inside the raise loop, raising a division succeeds exactly when it had a `div` ancestor in the document the loop started from, because earlier raises change that for no old key |
| Segment.ExpandStops | scripts/refine_tei.py:114-118 | after expanding the element found by a unique key, the same key leads to it and its next sibling is a `div` or absent |
| Segment.ExpandAll | scripts/refine_tei.py:135-141 | the expand loop computes the in-order expansion of every division, keeps every element, every node and every first slot, keeps each `div` that sits under a `div` there, and leaves the last division expanded followed by a `div` or nothing |
| Segment.ExpandNestedExample | scripts/refine_tei.py:135-141 | when a division is the last child of a later-expanded one, the later expansion gives it a following `p`: on such input only the last division is sure to be stopped |
| Segment.MarkerCountZero | scripts/refine_tei.py:124-130 | the pass finds no marker exactly when no selected run, stripped, matches the pattern |
| Segment.SeedArticles | scripts/refine_tei.py:124-130 | on a document with unique keys, seeding with the pass's query, pattern and `ana` value never fails. The key `next + j` names an article division whose only child is the head made from the j-th marker counted from the end, standing at that marker's owner's old index below the owner's old parent. That division has a `div` ancestor whenever the owner had one. Every element keeps its attributes, and exactly these divisions are added |
| Segment.SeededAbove | scripts/refine_tei.py:124-130 | the census facts seeding leaves give, for each converted run whose owner had a `div` ancestor, a `div` ancestor for its division |
| Segment.PlaceAll | scripts/refine_tei.py:131-141 | the two loops together succeed exactly when every division has a `div` ancestor in the document they start from, and any failure is that one. On success they keep every element and every `div` node and add exactly the fresh split elements. Every division ends as a `div` under a `div`, the last one is stopped, and every first slot of a `div` holding a `head` with a non-blank text is kept |
| Segment.GrownChain | scripts/refine_tei.py:121-141 | elements added in two rounds are the fresh keys of the whole run |
| Segment.SeededCensus | scripts/refine_tei.py:80-88 | a seeded article division is counted as a `div` node with the article attributes |
| Segment.ArticleDivFromCensus | scripts/refine_tei.py:121-141 | a unique key under a `div` whose node is the article division's names an article division |
| Segment.PlacedArticles | scripts/refine_tei.py:121-141 | after placing, each seeded key names an article division whose parent is a `div` |
| Segment.MarkerNotBlank | scripts/refine_tei.py:78 | a marker run is not blank, since its stripped text starts with `Art` |
| Segment.PlacedHead | scripts/refine_tei.py:81-87 | a seeded article division whose first slots placing kept still has its head, with the marker's text, as its first child |
| Segment.PlacedHeads | scripts/refine_tei.py:121-141 | after placing, each seeded key `next + j` names an element whose first child is the `head` holding the text of the j-th converted run |
| Segment.PlaceArticles | scripts/refine_tei.py:131-141 | raising and expanding the seeded divisions succeeds whenever every converted run's owner had a `div` ancestor, and any failure is a division without one. On success the seeded keys name article divisions under a `div`, each opening with the `head` of its run, and the last one is stopped |
| Segment.MakeAllSectionDivs | scripts/refine_tei.py:121-141 | on a document with unique keys, the whole pass keeps every old element and adds exactly fresh ones. It succeeds whenever every marker's owner has a `div` ancestor, and any failure is a division without one. On success the keys from `next` on, one per marker, name `div`s with `ana="article"`, newline text and tail, each a child of a `div`, and the division of the first marker in document order, expanded last, is followed by a `div` or nothing. The first child of the division keyed `next + j` is a `head` whose text is the j-th marker counted from the end. A document without markers passes through unchanged |
| Cleanup.StripAttrsAt | scripts/refine_tei.py:144-147 | at every path of a subtree, exactly the `lb`, `p` and `head` elements have empty attributes, and everything else is as before |
| Cleanup.RemoveAttrsAt | scripts/refine_tei.py:144-147 | at every path of the document, exactly the `lb`, `p` and `head` elements below the root have empty attributes. Every other attribute map, and all keys, tags, texts, tails and shapes, are as before |
| Cleanup.StripAttrsIdempotent | scripts/refine_tei.py:144-147 | stripping twice is stripping once |
| Cleanup.RemoveAttrsIdempotent | scripts/refine_tei.py:144-147 | a second run of the pass changes nothing |
| Cleanup.StripAttrsCount | scripts/refine_tei.py:144-147 | stripping keeps every element |
| Cleanup.RemoveAttrsCount | scripts/refine_tei.py:144-147 | the pass keeps every element |
| Cleanup.RemoveUselessCount | scripts/refine_tei.py:150-155 | the pass adds and duplicates no element |
| Cleanup.RemoveUselessFixpoint | scripts/refine_tei.py:150-155 | a tree where the query selects nothing is left unchanged |
| Cleanup.RemoveUselessShrinks | scripts/refine_tei.py:150-155 | the pass never grows the tree, and removes at least one element whenever the query selects one |
| Cleanup.RemoveUselessSize | scripts/refine_tei.py:150-155 | the pass changes the tree, and its size, exactly when the query selects an element |
| Cleanup.RemoveUselessNotIdempotent | scripts/refine_tei.py:150-155 | a second run can still change the tree: `<p><lb/> <lb/>x</p>` loses one `lb` per run |
| Facsimile.WithUrls | scripts/refine_tei.py:159-160 | gives one attribute map per graphic |
| Facsimile.Assign | scripts/refine_tei.py:159-160 | the only failure is running out of URLs |
| Facsimile.AssignSpec | scripts/refine_tei.py:159-160 | on a subtree, assignment succeeds exactly when there are at least as many URLs as graphics. Then the i-th graphic in document order has its old attributes with `url` set to the i-th URL. The list loses exactly its first n entries, and nothing but graphic attributes changes |
| Facsimile.AssignInSpec | scripts/refine_tei.py:159-160 | the same for a sequence of sibling subtrees |
| Facsimile.AssignUrls | scripts/refine_tei.py:159-160 | the root is untouched, and the only failure is running out of URLs |
| Facsimile.StripZonesSpec | scripts/refine_tei.py:161-164 | afterwards no zone lies below a surface child of a facsimile, and a subtree without such zones is unchanged |
| Facsimile.DropZonesSpec | scripts/refine_tei.py:161-164 | a surface that loses its zones holds none below it afterwards, and one without zones is unchanged |
| Facsimile.StripDocZonesSpec | scripts/refine_tei.py:161-164 | the zone loop leaves no zone below any surface child of a facsimile, and changes the document exactly when it held such a zone |
| Facsimile.StripDocZonesCount | scripts/refine_tei.py:161-164 | the zone loop only removes elements |
| Facsimile.FindTag | scripts/refine_tei.py:165 | a found path leads to an element with the tag |
| Facsimile.FindTagComplete | scripts/refine_tei.py:165 | the search fails exactly when the subtree has no element with the tag |
| Facsimile.FirstFacsimile | scripts/refine_tei.py:165 | on success the path leads to a `facsimile` below the root. The only failure is `NoFacsimile`, the `IndexError` of `[0]` |
| Facsimile.FirstFacsimileFails | scripts/refine_tei.py:165 | picking the facsimile fails exactly when there is none below the root |
| Facsimile.CleanAt | scripts/refine_tei.py:161-165 | in a tree without such zones, every element is clean in its place |
| Facsimile.GetFacsimile | scripts/refine_tei.py:158-166 | the function fails on missing URLs exactly when there are fewer URLs than graphics. It fails with no facsimile exactly when the URLs suffice and the document after URL placement and zone removal has no `facsimile` below its root, and these are its only failures. On success every graphic below the root got its URL in document order, the result is the first `facsimile` of that document, its surfaces hold no zones, and the URL list has lost one entry per graphic |
| Metadata.LastSlash | scripts/refine_tei.py:209 | gives the position of the last `/`, or -1 |
| Metadata.Basename | scripts/refine_tei.py:209 | `os.path.split(path)[1]` is the suffix of the path after its last `/`, and contains no `/` |
| Metadata.FirstUnderscore | scripts/refine_tei.py:210 | gives the position of the first `_`, or the length |
| Metadata.FirstField | scripts/refine_tei.py:210 | `split("_")[0]` is the prefix before the first `_`, and contains no `_` |
| Metadata.TranskribusDocId | scripts/refine_tei.py:208-210 | the document id holds no `/` and no `_` |
| Metadata.DocIdOfFileName | scripts/refine_tei.py:208-210 | a file `<dir>/<id>_<rest>` has document id `<id>` whenever `<id>` has no `_` or `/` and `<rest>` no `/` |
| Metadata.File | scripts/refine_tei.py:250-253 | filing fails (`KeyError`) exactly when the row lacks an id field |
| Metadata.FileAt | scripts/refine_tei.py:250-253 | filing a row adds its (collection, document) entry holding the row and keeps every other entry |
| Metadata.GroupFails | scripts/refine_tei.py:247-254 | grouping fails exactly when some row lacks an id field |
| Metadata.GroupAt | scripts/refine_tei.py:247-254 | collection c holds document d exactly when some row is filed under both. It then holds the last such row, and every collection holds at least one document |

## Left out

- Parsing, serialisation and namespaces are not part of this model. This covers `TeiReader`, `ET.tostring`, the namespace replace and writing files. Tags are local names: the `tei:` namespace tests of the queries are not modelled.
- Comments and processing instructions are not tree nodes here. A missing (`None`) text or tail is the empty string.
- File and network I/O is not part of this model: the metadata fetch, the JSON load, the Jinja template, CSV logging and the `__main__` and `process_all_files` glue. METS loading and `return_image_urls` are not modelled either: the image URLs are a parameter.
- The XPath engine is replaced by traversals. The queries starting with `.//` look below the root element, and the two starting with `//` include it. In the TEI documents the root is `TEI`, which none of the queries names.
- Raise.RaiseDiv: fails with `NoDivAncestor` when the division has no `div` ancestor. At the root, `addnext`/`addprevious` raise, or `getparent()` yields `None`, and the exception ends the run. The code does not promote the division to the root's child level.
- Segment.MakeAllSectionDivs: both loops visit the divisions in the order seeding made them, which is reverse document order, as the code does. A forward order is not modelled.
- Segment.MakeAllSectionDivs: lookup by key stands for holding element objects. Keys are required to be unique and `next` to be above every key, as object identity guarantees; the new elements take the keys from `next` on. The error `MissingElement` belongs to the lookup, and the contracts prove it never arises in the pass.
- Seed.SeedDivs: the pattern test is a parameter that receives the unstripped run. The pass passes `Marker.IsArticleMarker`, which strips the run and then applies the pattern. This is the same as stripping before the test.
- Segment.MakeAllSectionDivs: text order is not claimed. The passes add `"\n"` texts and tails, and `addnext` leaves P's tail in front of the division. The contracts state element-level preservation (counts per key) and the per-step child order instead.
- Raise.RaiseDiv: the nesting depth of the division is bounded through the path prefix, not stated as a separate measure lemma.
- Segment.ExpandAll: only the division expanded last is stated to be followed by a `div` or nothing. A division nested as the last child of one expanded after it gets new siblings from that later expansion (`Segment.ExpandNestedExample`), so the statement does not hold for every division; which nestings the seeded article divisions can form is not analysed.
- Segment.MakeAllSectionDivs: success is stated when every marker's owner has a `div` ancestor, but the converse is not. A conversion can put a new division above the owner of another marker when that owner lies inside it. Then that marker's division has a `div` ancestor its owner lacked. Showing that the pass still fails on the outer owner needs an argument about which owners contain which, and that is not modelled.
- Segment.MakeAllSectionDivs: only the division expanded last is stated to be stopped. Stating it for every division would need the document-order argument that a division nested in another one gets a larger key and is expanded first, which is not modelled.
- Segment.MakeAllSectionDivs: the final partition, in which every article's content lies inside its division, is stated per step (`Expand.ExpandAtStops`) and for the division expanded last, not for every division of the document.
- Cleanup.RemoveUseless: the pass is not idempotent. `Cleanup.RemoveUselessNotIdempotent` gives a counterexample, so no idempotence lemma is stated.
- Cleanup.RemoveUseless: the empty-string text that lxml may keep as an empty text node is treated like a missing one.
- Facsimile.FirstFacsimile: the result is the first facsimile found by a preorder search. Its minimality in document order is not stated as a lemma.
- Facsimile.GetFacsimile: returns the facsimile element rather than its serialised string.
- Metadata.Basename: only `/` is a separator, as in POSIX `os.path.split`.
- Metadata.Group: dictionary key equality is the model's `==` on the value type, without Python's `1 == 1.0` conflation.
- The `PersonMetaData` class is unused by the code and is not modelled.
