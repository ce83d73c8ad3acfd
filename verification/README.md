# secualert: alert collection and alert-list substitution

`sphinxcontrib-secualert` is a Sphinx extension. It offers a `secualert`
directive, which renders as an admonition and leaves an anchor target just
before it, and a `secualertlist` directive. The list directive leaves a
placeholder node that is later replaced by every alert of the whole project.
Each alert in that list is followed by a back-link paragraph,
"(The original entry is located in FILE, line N.)", whose link points at the
alert's anchor.

This project models the extension's event handlers:

- `process_alerts` collects one record per alert while a document is read.
- `purge_secualerts` drops a document's records before it is read again.
- `merge_info` appends a parallel worker's records to the main environment.
- `process_secualertlist_nodes` replaces each placeholder of a resolved
  document with the list.

The modules are:

- `Doctree` (`doctree.dfy`): the document tree as a value. A node has a
  class, an attribute map, children, a source and a line. It also defines
  `traverse` as a pre-order walk that records each node's position among
  its siblings.
- `Records` (`records.dfy`): one collected record, built from an alert and
  its anchor (the sibling just before it, with Python's `-1` index
  wrap-around). It also holds the purge filter.
- `Template` (`template.dfy`): `str.find` and Python slicing. These cut the
  back-link sentence at its first `<<` and its first `>>`.
- `Substitution` (`substitution.dfy`):
  - the back-link of a record, including every way it can raise;
  - the in-place refresh of a stored alert node (`targetref` deleted, content
    resolved);
  - the pass over the collection;
  - the list that replaces one placeholder;
  - the rewritten tree.
- `Environment` (`environment.dfy`): the class `BuildEnv`, with the
  collection as `Option<seq<Record>>` (absent until first created) and the
  current document name. Its methods are the four handlers.

Host services the extension calls but does not define are parameters:

- `get_relative_uri`: `None` stands for a raised `NoUri`.
- The translated back-link sentence, after `%`-formatting.
- The translated link text.
- `resolve_references`.
- `doc2path`.

The stored alert nodes are shared objects: the list places the very node
kept in the collection, and every pass changes it in place. The model
therefore assembles a document's output from the state of the records after
the last pass. A pass stops at the first record whose back-link raises. The
records before that record have already been refreshed. This state is stated
exactly: `Substitution.PassedUpTo` gives it.

Two behaviours of the code are worth stating outright:

- References in a stored alert are resolved against the record's own
  document (`alert_info['docname']`), not against the document being
  rendered.
- An alert with no anchor target makes the pass raise (`'refid' in None`)
  when the builder has a URI for its document. It is not rendered with the
  fragment omitted (`Substitution.BackLink`). Under `NoUri` the anchor is
  never read and the back-link renders without a `refuri`
  (`Substitution.NoUriNeverFailsOnAnchor`).

## Model

| member | source | states |
|---|---|---|
| Environment.BuildEnv.ProcessAlerts | sphinxcontrib/secualert/__init__.py:97-117 | the collection is created empty if absent; the records already in it are kept unchanged as a prefix; they are followed by exactly the records of this document's alerts, in traversal order |
| Environment.BuildEnv.Purge | sphinxcontrib/secualert/__init__.py:175-180 | an absent collection stays absent; otherwise the collection becomes the purge of the old one (see `Records.Purged` and the purge lemmas); the document name is left alone |
| Environment.BuildEnv.MergeInfo | sphinxcontrib/secualert/__init__.py:183-188 | nothing changes when the worker has no collection; otherwise the collection is this environment's records (none if it had no collection) followed by the worker's records; the set of document names plays no part |
| Environment.BuildEnv.RenderPass | sphinxcontrib/secualert/__init__.py:131-166 | the collection ends with the records before the first failing back-link refreshed and the rest untouched; the result is that failure, or otherwise all the back-links, in record order |
| Environment.BuildEnv.ProcessListNodes | sphinxcontrib/secualert/__init__.py:120-172 | no placeholder: nothing changes; placeholders with no collection: AttributeError and nothing changes; a failing back-link: the error, with the first pass's partial refresh left behind; success: the collection is refreshed once per placeholder and every placeholder is replaced by its list, built from the finally refreshed records |
| Doctree.Traverse | sphinxcontrib/secualert/__init__.py:100 | every site found is a node of the wanted class at its recorded index among the listed siblings, and those siblings are the children of the node's parent in the document: the root or a node of the document |
| Doctree.SitesFrom | sphinxcontrib/secualert/__init__.py:100 | the walk from a sibling position finds only nodes of the wanted class, each at its recorded index among its siblings |
| Doctree.HasIdsOfList | sphinxcontrib/secualert/__init__.py:126 | `node.get('ids')` is truthy exactly when the node has an `ids` list and it is non-empty |
| Doctree.TraverseIsPreorder | sphinxcontrib/secualert/__init__.py:100 | the traversal finds exactly the nodes of the class, in document (pre-)order |
| Doctree.SitesFromIsPreorder | sphinxcontrib/secualert/__init__.py:125 | the walk from any sibling position on finds the class's nodes of those subtrees in pre-order |
| Records.PyIndex | sphinxcontrib/secualert/__init__.py:104 | a negative index counts from the end of the children, a non-negative one is used as is; the result is always a valid position |
| Records.AnchorOf | sphinxcontrib/secualert/__init__.py:103-108 | the anchor is the previous sibling exactly when that sibling is a target; for the first child it is the last sibling, when that one is a target; otherwise none |
| Records.OnlyChildHasNoAnchor | sphinxcontrib/secualert/__init__.py:104-108 | an alert that is its parent's only child gets no anchor, since index -1 is the alert itself |
| Records.FirstChildTakesLastTarget | sphinxcontrib/secualert/__init__.py:104-108 | an alert that is the first child takes a target that is the parent's last child |
| Records.WithoutIds | sphinxcontrib/secualert/__init__.py:109-110 | the stored copy has no `ids` attribute; every other attribute, the class, the children, the source and the line are those of the alert |
| Records.MakeRecord | sphinxcontrib/secualert/__init__.py:109-116 | the record is owned by the document being read; its source is the node's own source when non-empty, else the document's path; its line is the node's line; it stores the copy without ids and the anchor |
| Records.RecordsOf | sphinxcontrib/secualert/__init__.py:100-117 | one record per alert site, in the same order, each built from its site |
| Records.RecordsOfSnoc | sphinxcontrib/secualert/__init__.py:111-117 | handling one more alert appends exactly its record at the end |
| Records.Collected | sphinxcontrib/secualert/__init__.py:97-117 | collecting a document gives one record per alert node of the document, every one owned by that document |
| Records.CollectedSpec | sphinxcontrib/secualert/__init__.py:109-117 | the k-th collected record holds the document's k-th alert in document order, without its ids |
| Records.Purged | sphinxcontrib/secualert/__init__.py:178-180 | a record is kept exactly when it was there and belongs to another document; nothing is added |
| Records.PurgedConcat | sphinxcontrib/secualert/__init__.py:178-180 | purging acts record by record, so the kept records keep their relative order |
| Records.PurgedKeepsOthers | sphinxcontrib/secualert/__init__.py:178-180 | a list with no record of the document is left exactly as it was |
| Records.PurgedDropsOwn | sphinxcontrib/secualert/__init__.py:178-180 | a list of the document's own records is emptied |
| Records.PurgedIdempotent | sphinxcontrib/secualert/__init__.py:175-180 | purging twice is purging once |
| Records.PurgedLength | sphinxcontrib/secualert/__init__.py:178-180 | purging removes exactly as many records as the document owned |
| Records.CountOwn | sphinxcontrib/secualert/__init__.py:111-112 | in a list of records all owned by one document, that document owns every record |
| Records.Recollect | sphinxcontrib/secualert/__init__.py:97-117 | purging a document and then collecting it again leaves the other documents' records as they were; the document then owns exactly the new records, with none duplicated |
| Template.FindFromSpec | sphinxcontrib/secualert/__init__.py:137-138 | `find` from a position gives the first occurrence at or after it, or -1 exactly when there is none |
| Template.FindSpec | sphinxcontrib/secualert/__init__.py:137-138 | `find` gives the first occurrence of the pattern, or -1 exactly when there is none |
| Template.FindFrom | sphinxcontrib/secualert/__init__.py:137-138 | `find` from a position gives -1 or a position at or after it where the pattern occurs (first such: `Template.FindFromSpec`) |
| Template.Find | sphinxcontrib/secualert/__init__.py:137-138 | `find` gives -1 or a position where the pattern occurs (first such: `Template.FindSpec`) |
| Template.SliceTo | sphinxcontrib/secualert/__init__.py:137 | `s[:k]` is a prefix of `s`: plain for an index inside the string, counted from the end for a negative one, the whole string or nothing when out of range |
| Template.SliceFrom | sphinxcontrib/secualert/__init__.py:138 | `s[k:]` is a suffix of `s`: plain for an index inside the string, counted from the end for a negative one, nothing or the whole string when out of range |
| Template.Before | sphinxcontrib/secualert/__init__.py:137 | `desc1` is a prefix of the sentence ending where the first `<<` starts, or the sentence minus its last character when there is no `<<` |
| Template.After | sphinxcontrib/secualert/__init__.py:138 | `desc2` is a suffix of the sentence starting right after the first `>>`, or the sentence minus its first character when there is no `>>` |
| Template.SplitRoundTrip | sphinxcontrib/secualert/__init__.py:137-138 | with both markers present, the text before `<<`, the marked part and the text after `>>` put back together give the sentence again |
| Template.MissingOpenMarker | sphinxcontrib/secualert/__init__.py:137 | with no `<<`, `desc1` is the whole sentence but its last character (`find` gives -1) |
| Template.MissingCloseMarker | sphinxcontrib/secualert/__init__.py:138 | with no `>>`, `desc2` is the whole sentence but its first character |
| Template.FindAfterClean | sphinxcontrib/secualert/__init__.py:137-138 | a marker right after a stretch free of its first character is found exactly there |
| Template.Decimal | sphinxcontrib/secualert/__init__.py:134-135 | `%d` of a line number is a non-empty string of decimal digits |
| Template.DecimalValue | sphinxcontrib/secualert/__init__.py:134-135 | the digits `%d` writes denote exactly the line number, with no leading zero except for 0 itself |
| Template.SplitAtMarkers | sphinxcontrib/secualert/__init__.py:137-138 | for a sentence `prefix << inner >> tail` whose prefix holds no `<` at all and whose `prefix << inner` holds no `>`, `desc1` is the prefix and `desc2` the tail |
| Template.EnglishSplit | sphinxcontrib/secualert/__init__.py:133-138 | for the untranslated sentence, `desc1` is "(The " and `desc2` is " is located in SOURCE, line N.)" |
| Substitution.FragmentPrefersRefid | sphinxcontrib/secualert/__init__.py:147-148 | an anchor with a `refid` is linked through it, whatever its ids |
| Substitution.FragmentOfDirectiveTarget | sphinxcontrib/secualert/__init__.py:149-150 | the target the alert directive emits, `target(ids=[tid])`, is linked through `tid` |
| Substitution.AnchorFragment | sphinxcontrib/secualert/__init__.py:147-150 | no anchor gives no fragment; an anchor with a `refid` gives it exactly when it is a string; otherwise its first id when `ids` is a non-empty list, and no fragment when it is not |
| Substitution.ReferenceUri | sphinxcontrib/secualert/__init__.py:144-153 | no relative URI leaves `refuri` unset and never fails; with one, the result fails exactly when the anchor gives no fragment, and is otherwise the URI, `#`, and the fragment |
| Substitution.BackLinkFor | sphinxcontrib/secualert/__init__.py:133-153 | a missing line fails first; a failing `refuri` fails with its error; otherwise the back-link is the formatted sentence, the link text and the `refuri` |
| Substitution.BackLink | sphinxcontrib/secualert/__init__.py:133-153 | a back-link raises exactly when the record has no line, or when the builder gives a URI and the anchor yields no fragment; a missing URI never raises |
| Substitution.Paragraph | sphinxcontrib/secualert/__init__.py:132-156 | the paragraph has class `secualert-source` and three children: the text before the markers, an internal reference wrapping the emphasised link text, and the text after; `refuri` is set exactly when a URI exists |
| Substitution.BackLinkShape | sphinxcontrib/secualert/__init__.py:133-153 | a rendered back-link is the record's formatted sentence, the link text, and a `refuri` that is the relative URI to the record's document, `#`, and the anchor's fragment, or unset when there is no URI |
| Substitution.BackLinkNode | sphinxcontrib/secualert/__init__.py:132-156 | the back-link is one paragraph of three children; their content is stated by `BackLinkParagraph` |
| Substitution.BackLinkParagraph | sphinxcontrib/secualert/__init__.py:137-156 | the first child is the sentence up to its first `<<`, the last is the sentence after its first `>>` (through `Template.Before`/`Template.After`, which also give the missing-marker cases); between them a reference around the emphasised link text, carrying `refuri` exactly when one was computed |
| Substitution.EmptyTarget | sphinxcontrib/secualert/__init__.py:126-127 | the node put first for a placeholder with ids is a target with no attributes, no children and no ids |
| Substitution.NoUriNeverFailsOnAnchor | sphinxcontrib/secualert/__init__.py:144-153 | when the builder has no URI, the anchor is never looked at: a record with a line renders, with no `refuri` |
| Substitution.DirectivePairLinksToTarget | sphinxcontrib/secualert/__init__.py:103-116 | an alert directly after the directive's `target(ids=[tid])` renders a back-link whose `refuri` is the URI of its document, `#`, and `tid` |
| Substitution.Refreshed | sphinxcontrib/secualert/__init__.py:158-166 | the stored alert loses `targetref` and keeps its class, every other attribute, its source and line; its content is what resolving it against the record's own document gives; the record keeps its document, source, line and anchor |
| Substitution.Pass | sphinxcontrib/secualert/__init__.py:131-166 | one pass refreshes every record, in place and in order |
| Substitution.Passes | sphinxcontrib/secualert/__init__.py:125-166 | one pass per placeholder keeps the number of records |
| Substitution.PassesStripTargetref | sphinxcontrib/secualert/__init__.py:158-162 | after at least one pass no stored alert has a `targetref`; every record keeps its document, source, line, anchor and class |
| Substitution.PassedUpTo | sphinxcontrib/secualert/__init__.py:131-166 | part-way through a pass, the records before the current one are refreshed and the others are untouched |
| Substitution.PassOneMore | sphinxcontrib/secualert/__init__.py:158-166 | refreshing the current record in place moves the pass on by one |
| Substitution.PassedEnds | sphinxcontrib/secualert/__init__.py:131-166 | a pass that has not started changes nothing, and one that reached the end is a full pass |
| Substitution.Links | sphinxcontrib/secualert/__init__.py:131-153 | the back-links are rendered in record order up to the first record whose back-link raises, and that record is where they stop |
| Substitution.LinksStep | sphinxcontrib/secualert/__init__.py:131-153 | the next record either ends the rendered back-links there or supplies the next one |
| Substitution.RefreshKeepsBackLink | sphinxcontrib/secualert/__init__.py:133-166 | refreshing a record does not change its back-link, which reads nothing of the alert node |
| Substitution.PassKeepsLinks | sphinxcontrib/secualert/__init__.py:131-166 | a pass leaves every record's back-link as it was |
| Substitution.PassesKeepLinks | sphinxcontrib/secualert/__init__.py:125-166 | every later placeholder renders the same back-links as the first, so only the first pass can fail |
| Substitution.Paragraphs | sphinxcontrib/secualert/__init__.py:132-156 | one back-link paragraph per record, in order |
| Substitution.Interleaved | sphinxcontrib/secualert/__init__.py:169-170 | each stored alert is followed by its own back-link paragraph, in record order |
| Substitution.ListContent | sphinxcontrib/secualert/__init__.py:126-170 | a placeholder with k records gets 2k nodes, or 2k+1 when it has ids, and then the first is an empty target |
| Substitution.ListContentShape | sphinxcontrib/secualert/__init__.py:126-172 | a placeholder with k records gets 2k nodes, or 2k+1 when it has ids, and then the first is an empty target; the others alternate stored alert and back-link paragraph, in record order |
| Substitution.InterleavedAfter | sphinxcontrib/secualert/__init__.py:126-170 | after the optional leading target the alternation is unchanged, only shifted |
| Substitution.Substituted | sphinxcontrib/secualert/__init__.py:125-172 | a tree with no placeholder comes out unchanged; how each placeholder and each other node is rewritten is stated by `SubstitutedConcat`, `PlaceholderReplacedInPlace` and `NodeRewrittenBelow` |
| Substitution.SubstitutedConcat | sphinxcontrib/secualert/__init__.py:125-172 | the rewrite of a forest is the rewrite of its first part followed by the rewrite of the rest: nodes are neither moved nor merged across |
| Substitution.PlaceholderReplacedInPlace | sphinxcontrib/secualert/__init__.py:125-172 | a placeholder between any siblings is replaced, at its own place, by exactly its list content (the optional empty target, then each stored alert and its back-link paragraph); the siblings before and after are rewritten on their own |
| Substitution.NodeRewrittenBelow | sphinxcontrib/secualert/__init__.py:125 | any node that is not a placeholder stays at its place with its class, attributes, source and line; only the placeholders among its descendants are replaced |
| Substitution.NoPlaceholderLeft | sphinxcontrib/secualert/__init__.py:125-172 | when no stored alert holds a placeholder, the rewritten tree holds none |
| Substitution.ParagraphHasNoPlaceholder | sphinxcontrib/secualert/__init__.py:132-156 | a back-link paragraph holds no placeholder |

## Left out

- The directives' `run` methods, lines 51-86, are not modelled. Their output is the input of this model. The alert directive's `[target(ids=[tid]), alert(targetref=...)]` pair appears only in `Substitution.DirectivePairLinksToTarget`.
- `setup` and packaging, lines 218-247, are Sphinx registration only.
- The HTML and LaTeX visitors, lines 193-213, are not modelled. They delegate to host translators.
- `app.emit('secualert-defined', node)` is not modelled, because its handlers are foreign code. The model assumes they change nothing.
- `get_relative_uri`, `doc2path`, `resolve_references` and the translation catalogue are host parameters. Their internals are not part of this model.
- `resolve_references` is modelled as acting on the alert's children only. The alert node's own class and attributes are taken as unchanged by it.
- Python `%`-formatting of the translated sentence is not modelled. The host supplies the formatted sentence. `Template.EnglishSentence` and `Template.EnglishSplit` show the untranslated case.
- docutils `replace_self` is modelled only as the substitution of the placeholder by its list. Three of its effects are not modelled:
  - it copies the placeholder's basic attributes (ids, classes, names) onto the first new node;
  - that copy can also reach a stored alert node;
  - its assertion fails when the list is empty and the placeholder still has a classes, names, dupnames or backrefs attribute.
- `Records.AnchorOf`: a stored anchor target is a value, not a reference to the live tree node. Later changes to that node are not seen.
- `Substitution.AnchorFragment`: a `refid` that is not a string, or an `ids` that is not a non-empty list of strings, is treated as unusable. For a non-string `refid` and for an empty or missing `ids` list Python raises too. docutils always stores `ids` as a list of strings, so an `ids` held as a plain string, whose first character Python would take, does not arise.
- The document tree is a value. The handlers that rewrite it return the rewritten tree instead of changing it in place. The live alert node is left with its `ids` because reading a document does not change the tree at all.
- The records appended by `ProcessAlerts` and the refreshes of one pass are gathered in a local sequence. The collection is then assigned once. No other code reads the collection in between, so the observable state is the same.
- Parallel reading is not modelled. Only the sequential `merge_info` step is modelled.
