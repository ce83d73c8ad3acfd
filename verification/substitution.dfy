/**
 * What `process_secualertlist_nodes` builds for each placeholder: the back-link
 * paragraph of every record, the in-place refresh of the stored alert node, the
 * replacement list, and the rewritten tree.
 */
module Substitution {
  import opened Wrappers
  import opened Doctree
  import opened Template
  import opened Records

  /** The exceptions that escape the substitution pass. */
  datatype RenderError =
    | NoCollection                      // AttributeError: the environment has no collection at all
    | UnnumberedAlert(docname: string)  // TypeError: `%d` given a line of None
    | UnusableAnchor(docname: string)   // `'refid' in None`, or a target without a first id

  /**
   * The host services the pass calls and this model does not see:
   * `builder.get_relative_uri` (None stands for `NoUri`), the translated
   * back-link sentence with `%s` and `%d` filled in, the translated link text
   * `_('original entry')`, and `env.resolve_references` acting on the children
   * of a node against a document name.
   */
  datatype Host = Host(relativeUri: (string, string) -> Option<string>,
                       describe: (string, nat) -> string,
                       linkText: string,
                       resolve: (string, seq<Node>) -> seq<Node>)

  /** The fragment of a back-link: the anchor's `refid` if it has that attribute, else its first id; None where Python raises. */
  function AnchorFragment(target: Option<Node>): (fragment: Option<string>)
    ensures target.None? ==> fragment.None?
    ensures target.Some? && "refid" in target.value.attrs ==>
      && (fragment.Some? <==> target.value.attrs["refid"].Str?)
      && (fragment.Some? ==> fragment.value == target.value.attrs["refid"].text)
    ensures target.Some? && "refid" !in target.value.attrs ==>
      var attrs := target.value.attrs;
      && (fragment.Some? <==> "ids" in attrs && attrs["ids"].Strs? && attrs["ids"].items != [])
      && (fragment.Some? ==> fragment.value == attrs["ids"].items[0])
  {
    match target
    case None => None
    case Some(t) =>
      if "refid" in t.attrs then
        (if t.attrs["refid"].Str? then Some(t.attrs["refid"].text) else None)
      else if "ids" in t.attrs && t.attrs["ids"].Strs? && t.attrs["ids"].items != [] then
        Some(t.attrs["ids"].items[0])
      else None
  }

  /** An anchor with a `refid` is linked through it, whatever its ids. */
  lemma FragmentPrefersRefid(t: Node, refid: string)
    requires "refid" in t.attrs && t.attrs["refid"] == Str(refid)
    ensures AnchorFragment(Some(t)) == Some(refid)
  {
  }

  /** The target the alert directive emits, `target(ids=[tid])`, is linked through `tid`. */
  lemma FragmentOfDirectiveTarget(t: Node, tid: string)
    requires t.kind == Target && t.attrs == map["ids" := Strs([tid])]
    ensures AnchorFragment(Some(t)) == Some(tid)
  {
  }

  /** `refuri` of the back-link, None when it stays unset; failure where the pass raises. */
  function ReferenceUri(fromdocname: string, docname: string, target: Option<Node>, host: Host)
    : (uri: Result<Option<string>, RenderError>)
    ensures host.relativeUri(fromdocname, docname).None? ==> uri == Success(None)
    ensures host.relativeUri(fromdocname, docname).Some? ==> (uri.Failure? <==> AnchorFragment(target).None?)
    ensures uri.Failure? ==> uri.error == UnusableAnchor(docname)
    ensures uri.Success? && uri.value.Some? ==>
      uri.value.value == host.relativeUri(fromdocname, docname).value + "#" + AnchorFragment(target).value
  {
    match host.relativeUri(fromdocname, docname)
    case None => Success(None)
    case Some(uri) =>
      match AnchorFragment(target)
      case None => Failure(UnusableAnchor(docname))
      case Some(fragment) => Success(Some(uri + "#" + fragment))
  }

  /** Attributes of the back-link reference: `internal=True`, and `refuri` when one was computed. */
  function ReferenceAttrs(uri: Option<string>): (attrs: map<string, Attr>)
  {
    match uri
    case None => map["internal" := Flag(true)]
    case Some(u) => map["internal" := Flag(true), "refuri" := Str(u)]
  }

  const SourceClass := "secualert-source"

  /** `paragraph(classes=['secualert-source'])` holding `desc1`, the reference around the emphasised link text, and `desc2`. */
  function Paragraph(desc1: string, desc2: string, linkText: string, uri: Option<string>): (p: Node)
    ensures p.kind == Kind.Paragraph && p.attrs == map["classes" := Strs([SourceClass])]
    ensures |p.children| == 3
    ensures p.children[0] == Bare(Text(desc1), [])
    ensures p.children[1].kind == Reference
    ensures "internal" in p.children[1].attrs && p.children[1].attrs["internal"] == Flag(true)
    ensures p.children[1].children == [Bare(Emphasis, [Bare(Text(linkText), [])])]
    ensures p.children[2] == Bare(Text(desc2), [])
    ensures uri.None? ==> "refuri" !in p.children[1].attrs
    ensures uri.Some? ==> "refuri" in p.children[1].attrs && p.children[1].attrs["refuri"] == Str(uri.value)
  {
    Node(Kind.Paragraph, map["classes" := Strs([SourceClass])],
         [Bare(Text(desc1), []),
          Node(Reference, ReferenceAttrs(uri), [Bare(Emphasis, [Bare(Text(linkText), [])])], "", None),
          Bare(Text(desc2), [])],
         "", None)
  }

  /**
   * What a back-link is made of: the translated sentence with source and line
   * filled in, the translated link text, and the `refuri` (None when unset).
   */
  datatype BackLinkParts = BackLinkParts(description: string, linkText: string, refuri: Option<string>)

  /** The back-link paragraph: the sentence is cut at its first `<<` and its first `>>`. */
  function BackLinkNode(parts: BackLinkParts): (p: Node)
    ensures p.kind == Kind.Paragraph && |p.children| == 3
  {
    Paragraph(Before(parts.description), After(parts.description), parts.linkText, parts.refuri)
  }

  /**
   * The back-link paragraph holds the sentence up to its first `<<`, then the
   * reference around the emphasised link text, then the sentence after its
   * first `>>`; the reference carries the `refuri` exactly when one was computed.
   */
  lemma BackLinkParagraph(parts: BackLinkParts)
    ensures var p, d := BackLinkNode(parts), parts.description;
      && (Find(d, "<<") != -1 ==> p.children[0] == Bare(Text(d[..Find(d, "<<")]), []))
      && (Find(d, ">>") != -1 ==> p.children[2] == Bare(Text(d[Find(d, ">>") + 2..]), []))
      && p.children[1].kind == Reference
      && p.children[1].children == [Bare(Emphasis, [Bare(Text(parts.linkText), [])])]
      && (parts.refuri.None? <==> "refuri" !in p.children[1].attrs)
      && (parts.refuri.Some? ==> p.children[1].attrs["refuri"] == Str(parts.refuri.value))
  {
  }

  /** The back-link of one record, rendered into document `fromdocname`. */
  function BackLink(r: Record, fromdocname: string, host: Host): (link: Result<BackLinkParts, RenderError>)
    ensures link.Failure? <==>
      r.lineno.None? || (host.relativeUri(fromdocname, r.docname).Some? && AnchorFragment(r.target).None?)
  {
    BackLinkFor(r.docname, r.source, r.lineno, r.target, fromdocname, host)
  }

  /** The back-link built from the record's document, source, line and anchor: nothing else of it is read. */
  function BackLinkFor(docname: string, source: string, lineno: Option<nat>, target: Option<Node>,
                       fromdocname: string, host: Host): (link: Result<BackLinkParts, RenderError>)
    ensures lineno.None? ==> link == Failure(UnnumberedAlert(docname))
    ensures lineno.Some? && ReferenceUri(fromdocname, docname, target, host).Failure? ==>
      link == Failure(ReferenceUri(fromdocname, docname, target, host).error)
    ensures link.Success? <==> lineno.Some? && ReferenceUri(fromdocname, docname, target, host).Success?
    ensures link.Success? ==>
      link.value == BackLinkParts(host.describe(source, lineno.value), host.linkText,
                                  ReferenceUri(fromdocname, docname, target, host).value)
  {
    match lineno
    case None => Failure(UnnumberedAlert(docname))
    case Some(line) =>
      var description := host.describe(source, line);
      match ReferenceUri(fromdocname, docname, target, host)
      case Failure(e) => Failure(e)
      case Success(uri) => Success(BackLinkParts(description, host.linkText, uri))
  }

  /**
   * A successful back-link is made of the record's formatted sentence (cut
   * around its markers by `BackLinkNode`), the translated link text, and a
   * `refuri` that is the relative URI to the record's document plus `#` and
   * the anchor's fragment, unset when the builder has no URI.
   */
  lemma BackLinkShape(r: Record, fromdocname: string, host: Host)
    requires BackLink(r, fromdocname, host).Success?
    ensures r.lineno.Some?
    ensures var uri := host.relativeUri(fromdocname, r.docname);
      BackLink(r, fromdocname, host).value
        == BackLinkParts(host.describe(r.source, r.lineno.value), host.linkText,
                         if uri.None? then None else Some(uri.value + "#" + AnchorFragment(r.target).value))
  {
  }

  /** With no URI for the output format the anchor is never looked at, so a record without one still renders. */
  lemma NoUriNeverFailsOnAnchor(r: Record, fromdocname: string, host: Host)
    requires r.lineno.Some? && host.relativeUri(fromdocname, r.docname).None?
    ensures BackLink(r, fromdocname, host).Success?
    ensures BackLink(r, fromdocname, host).value.refuri.None?
  {
  }

  /**
   * The pair the alert directive emits, `target(ids=[tid])` directly followed
   * by the alert, gives a record whose back-link points at `tid` in the
   * alert's document, whenever the builder has a URI for that document.
   */
  lemma DirectivePairLinksToTarget(siblings: seq<Node>, i: nat, tid: string, docname: string,
                                   doc2path: string -> string, fromdocname: string, host: Host)
    requires 0 < i < |siblings| && siblings[i].kind == Alert && siblings[i].line.Some?
    requires siblings[i - 1].kind == Target && siblings[i - 1].attrs == map["ids" := Strs([tid])]
    requires host.relativeUri(fromdocname, docname).Some?
    ensures var r := MakeRecord(Site(siblings[i], siblings, i), docname, doc2path);
      && BackLink(r, fromdocname, host).Success?
      && BackLink(r, fromdocname, host).value.refuri
         == Some(host.relativeUri(fromdocname, docname).value + "#" + tid)
  {
    var r := MakeRecord(Site(siblings[i], siblings, i), docname, doc2path);
    assert r.target == Some(siblings[i - 1]);
    FragmentOfDirectiveTarget(siblings[i - 1], tid);
  }

  /**
   * The in-place change to a stored record: `targetref` is deleted from its
   * alert node and the node's content is resolved against the record's own
   * document.
   */
  function Refreshed(r: Record, host: Host): (r': Record)
    ensures r'.docname == r.docname && r'.source == r.source
    ensures r'.lineno == r.lineno && r'.target == r.target
    ensures r'.alert.kind == r.alert.kind
    ensures "targetref" !in r'.alert.attrs
    ensures r'.alert.attrs.Keys == r.alert.attrs.Keys - {"targetref"}
    ensures forall a :: a in r'.alert.attrs ==> r'.alert.attrs[a] == r.alert.attrs[a]
    ensures r'.alert.children == host.resolve(r.docname, r.alert.children)
    ensures r'.alert.source == r.alert.source && r'.alert.line == r.alert.line
  {
    r.(alert := r.alert.(attrs := r.alert.attrs - {"targetref"},
                         children := host.resolve(r.docname, r.alert.children)))
  }

  /** One pass over the collection: every record refreshed. */
  function Pass(rs: seq<Record>, host: Host): (rs': seq<Record>)
    ensures |rs'| == |rs|
    ensures forall k :: 0 <= k < |rs| ==> rs'[k] == Refreshed(rs[k], host)
  {
    if rs == [] then [] else [Refreshed(rs[0], host)] + Pass(rs[1..], host)
  }

  /** `n` passes, one per placeholder of the document. */
  function Passes(rs: seq<Record>, n: nat, host: Host): (rs': seq<Record>)
    ensures |rs'| == |rs|
  {
    if n == 0 then rs else Pass(Passes(rs, n - 1, host), host)
  }

  /**
   * After at least one pass no stored alert has a `targetref` attribute; each
   * record keeps its document, source, line, anchor and node class.
   */
  lemma {:induction false} PassesStripTargetref(rs: seq<Record>, n: nat, host: Host)
    requires n >= 1
    ensures forall r <- Passes(rs, n, host) :: "targetref" !in r.alert.attrs
    ensures forall k :: 0 <= k < |rs| ==>
      var r := Passes(rs, n, host)[k];
      r.docname == rs[k].docname && r.source == rs[k].source && r.lineno == rs[k].lineno
      && r.target == rs[k].target && r.alert.kind == rs[k].alert.kind
  {
    if n > 1 {
      PassesStripTargetref(rs, n - 1, host);
    }
  }

  /** The collection part-way through a pass: the first `i` records refreshed, the rest untouched. */
  function PassedUpTo(rs: seq<Record>, i: nat, host: Host): (rs': seq<Record>)
    requires i <= |rs|
    ensures |rs'| == |rs|
    ensures forall k :: 0 <= k < |rs| ==> rs'[k] == if k < i then Refreshed(rs[k], host) else rs[k]
  {
    Pass(rs[..i], host) + rs[i..]
  }

  /** Refreshing the next record in place extends the refreshed prefix by one. */
  lemma PassOneMore(rs: seq<Record>, i: nat, host: Host)
    requires i < |rs|
    ensures PassedUpTo(rs, i, host)[i := Refreshed(rs[i], host)] == PassedUpTo(rs, i + 1, host)
  {
    var updated := PassedUpTo(rs, i, host)[i := Refreshed(rs[i], host)];
    var extended := PassedUpTo(rs, i + 1, host);
    forall k | 0 <= k < |rs| ensures updated[k] == extended[k] {
    }
  }

  /** A pass that reached the end refreshed every record; one that has not started changed none. */
  lemma PassedEnds(rs: seq<Record>, host: Host)
    ensures PassedUpTo(rs, |rs|, host) == Pass(rs, host)
    ensures PassedUpTo(rs, 0, host) == rs
  {
    var whole, none := PassedUpTo(rs, |rs|, host), PassedUpTo(rs, 0, host);
    forall k | 0 <= k < |rs| ensures whole[k] == Pass(rs, host)[k] && none[k] == rs[k] {
    }
  }

  /** The back-links rendered before the first record that fails, in record order. */
  function Links(rs: seq<Record>, fromdocname: string, host: Host): (links: seq<BackLinkParts>)
    ensures |links| <= |rs|
    ensures forall k :: 0 <= k < |links| ==> BackLink(rs[k], fromdocname, host) == Success(links[k])
    ensures |links| < |rs| ==> BackLink(rs[|links|], fromdocname, host).Failure?
  {
    if rs == [] then []
    else
      var first := BackLink(rs[0], fromdocname, host);
      if first.Failure? then []
      else
        var rest := Links(rs[1..], fromdocname, host);
        assert forall k :: 1 <= k < 1 + |rest| ==> rs[k] == rs[1..][k - 1];
        [first.value] + rest
  }

  /**
   * Rendering the back-links one record at a time: the next one either ends
   * the list there, or is the list's next entry.
   */
  lemma LinksStep(rs: seq<Record>, i: nat, links: seq<BackLinkParts>, fromdocname: string, host: Host)
    requires i < |rs| && i <= |Links(rs, fromdocname, host)| && links == Links(rs, fromdocname, host)[..i]
    ensures BackLink(rs[i], fromdocname, host).Failure? ==> |Links(rs, fromdocname, host)| == i
    ensures BackLink(rs[i], fromdocname, host).Success? ==>
      && i < |Links(rs, fromdocname, host)|
      && links + [BackLink(rs[i], fromdocname, host).value] == Links(rs, fromdocname, host)[..i + 1]
  {
    var all := Links(rs, fromdocname, host);
    var link := BackLink(rs[i], fromdocname, host);
    if i < |all| {
      assert link == Success(all[i]);
      assert all[..i + 1] == all[..i] + [all[i]];
    } else {
      assert link.Failure?;
    }
  }

  /** A back-link reads nothing of the alert node, so refreshing a record leaves it as it was. */
  lemma RefreshKeepsBackLink(r: Record, fromdocname: string, host: Host)
    ensures BackLink(Refreshed(r, host), fromdocname, host) == BackLink(r, fromdocname, host)
  {
    var r' := Refreshed(r, host);
    assert r'.docname == r.docname && r'.source == r.source && r'.lineno == r.lineno && r'.target == r.target;
  }

  /** Every pass renders the same back-links as the first. */
  lemma {:induction false} PassesKeepLinks(rs: seq<Record>, n: nat, fromdocname: string, host: Host)
    ensures Links(Passes(rs, n, host), fromdocname, host) == Links(rs, fromdocname, host)
  {
    if n > 0 {
      var previous := Passes(rs, n - 1, host);
      PassesKeepLinks(rs, n - 1, fromdocname, host);
      PassKeepsLinks(previous, fromdocname, host);
      calc {
        Links(Passes(rs, n, host), fromdocname, host);
        Links(Pass(previous, host), fromdocname, host);
        Links(previous, fromdocname, host);
      }
    }
  }

  lemma {:induction false} PassKeepsLinks(rs: seq<Record>, fromdocname: string, host: Host)
    ensures Links(Pass(rs, host), fromdocname, host) == Links(rs, fromdocname, host)
  {
    if rs != [] {
      RefreshKeepsBackLink(rs[0], fromdocname, host);
      assert Pass(rs, host)[1..] == Pass(rs[1..], host);
      PassKeepsLinks(rs[1..], fromdocname, host);
    }
  }

  /** The back-link paragraphs, one per set of parts, in order. */
  function Paragraphs(links: seq<BackLinkParts>): (ps: seq<Node>)
    ensures |ps| == |links|
    ensures forall j :: 0 <= j < |links| ==> ps[j] == BackLinkNode(links[j])
  {
    if links == [] then [] else [BackLinkNode(links[0])] + Paragraphs(links[1..])
  }

  /** Each stored alert followed by its back-link paragraph, in record order. */
  function Interleaved(rs: seq<Record>, paragraphs: seq<Node>): (c: seq<Node>)
    requires |paragraphs| == |rs|
    ensures |c| == 2 * |rs|
    ensures forall j :: 0 <= j < |rs| ==> c[2 * j] == rs[j].alert && c[2 * j + 1] == paragraphs[j]
  {
    if rs == [] then []
    else
      var tail := Interleaved(rs[1..], paragraphs[1..]);
      assert forall j :: 1 <= j < |rs| ==> ([rs[0].alert, paragraphs[0]] + tail)[2 * j] == tail[2 * (j - 1)];
      [rs[0].alert, paragraphs[0]] + tail
  }

  /** The empty `nodes.target()` put first when the placeholder has ids. */
  function EmptyTarget(): (t: Node)
    ensures t.kind == Target && t.attrs == map[] && t.children == [] && !HasIds(t)
  {
    Bare(Target, [])
  }

  /** `content`: what one placeholder is replaced with. */
  function ListContent(placeholder: Node, rs: seq<Record>, links: seq<BackLinkParts>): (content: seq<Node>)
    requires |links| == |rs|
    ensures |content| == 2 * |rs| + if HasIds(placeholder) then 1 else 0
    ensures HasIds(placeholder) ==> content[0] == EmptyTarget()
  {
    (if HasIds(placeholder) then [EmptyTarget()] else []) + Interleaved(rs, Paragraphs(links))
  }

  /**
   * A placeholder with k records is replaced by 2k nodes, or 2k+1 when it has
   * ids, in which case the first is an empty target; the rest alternate the
   * stored alert and its back-link, in record order.
   */
  lemma ListContentShape(placeholder: Node, rs: seq<Record>, links: seq<BackLinkParts>)
    requires |links| == |rs|
    ensures var c, offset := ListContent(placeholder, rs, links), if HasIds(placeholder) then 1 else 0;
      && |c| == 2 * |rs| + offset
      && (HasIds(placeholder) ==> c[0] == EmptyTarget())
      && forall j :: 0 <= j < |rs| ==> c[offset + 2 * j] == rs[j].alert && c[offset + 2 * j + 1] == BackLinkNode(links[j])
  {
    var ps := Paragraphs(links);
    var lead: seq<Node> := if HasIds(placeholder) then [EmptyTarget()] else [];
    assert ListContent(placeholder, rs, links) == lead + Interleaved(rs, ps);
    InterleavedAfter(lead, rs, ps);
  }

  /** The alternation survives a prefix: it just starts later. */
  lemma InterleavedAfter(lead: seq<Node>, rs: seq<Record>, ps: seq<Node>)
    requires |ps| == |rs|
    ensures |lead + Interleaved(rs, ps)| == |lead| + 2 * |rs|
    ensures forall j :: 0 <= j < |rs| ==>
      (lead + Interleaved(rs, ps))[|lead| + 2 * j] == rs[j].alert
      && (lead + Interleaved(rs, ps))[|lead| + 2 * j + 1] == ps[j]
  {
    var body := Interleaved(rs, ps);
    forall j | 0 <= j < |rs|
      ensures (lead + body)[|lead| + 2 * j] == rs[j].alert && (lead + body)[|lead| + 2 * j + 1] == ps[j]
    {
      assert (lead + body)[|lead| + 2 * j] == body[2 * j];
      assert (lead + body)[|lead| + 2 * j + 1] == body[2 * j + 1];
    }
  }

  /** What one tree becomes: a placeholder its list content, any other node itself over its rewritten children. */
  function Rewritten(n: Node, below: seq<Node>, rs: seq<Record>, links: seq<BackLinkParts>): seq<Node>
    requires |links| == |rs|
  {
    if n.kind == Placeholder then ListContent(n, rs, links) else [n.(children := below)]
  }

  /**
   * The document after `replace_self` on every placeholder: each placeholder,
   * with whatever it contains, gives way to its list content.
   */
  function Substituted(forest: seq<Node>, rs: seq<Record>, links: seq<BackLinkParts>): (rewritten: seq<Node>)
    requires |links| == |rs|
    ensures CountKind(forest, Placeholder) == 0 ==> rewritten == forest
  {
    if forest == [] then []
    else
      CountKindCons(forest, Placeholder);
      var head := Rewritten(forest[0], Substituted(forest[0].children, rs, links), rs, links);
      assert CountKind(forest, Placeholder) == 0 ==> head == [forest[0]];
      assert forest == [forest[0]] + forest[1..];
      head + Substituted(forest[1..], rs, links)
  }

  /** The first tree of a forest is rewritten on its own, ahead of the rest. */
  lemma SubstitutedFirst(n: Node, rest: seq<Node>, rs: seq<Record>, links: seq<BackLinkParts>)
    requires |links| == |rs|
    ensures Substituted([n] + rest, rs, links)
            == Rewritten(n, Substituted(n.children, rs, links), rs, links) + Substituted(rest, rs, links)
  {
    assert ([n] + rest)[0] == n && ([n] + rest)[1..] == rest;
  }

  /** The rewrite works tree by tree: a forest's pieces are rewritten on their own. */
  lemma {:induction false} SubstitutedConcat(a: seq<Node>, b: seq<Node>, rs: seq<Record>, links: seq<BackLinkParts>)
    requires |links| == |rs|
    ensures Substituted(a + b, rs, links) == Substituted(a, rs, links) + Substituted(b, rs, links)
  {
    if a == [] {
      assert a + b == b;
    } else {
      var head := Rewritten(a[0], Substituted(a[0].children, rs, links), rs, links);
      assert (a + b)[0] == a[0];
      assert (a + b)[1..] == a[1..] + b;
      SubstitutedConcat(a[1..], b, rs, links);
    }
  }

  /** A tree among siblings is rewritten on its own, between the rewrites of the siblings. */
  lemma SubstitutedAround(pre: seq<Node>, n: Node, post: seq<Node>, rs: seq<Record>, links: seq<BackLinkParts>)
    requires |links| == |rs|
    ensures Substituted(pre + [n] + post, rs, links)
            == Substituted(pre, rs, links) + Substituted([n], rs, links) + Substituted(post, rs, links)
  {
    SubstitutedConcat(pre + [n], post, rs, links);
    SubstitutedConcat(pre, [n], rs, links);
  }

  /** A placeholder on its own becomes its list content. */
  lemma PlaceholderAlone(ph: Node, rs: seq<Record>, links: seq<BackLinkParts>)
    requires |links| == |rs| && ph.kind == Placeholder
    ensures Substituted([ph], rs, links) == ListContent(ph, rs, links)
  {
    SubstitutedFirst(ph, [], rs, links);
    assert [ph] + [] == [ph];
  }

  /**
   * `replace_self`: a placeholder gives way, at its own place among its
   * siblings, to exactly its list content; the siblings around it are
   * rewritten on their own.
   */
  lemma {:induction false} PlaceholderReplacedInPlace(pre: seq<Node>, ph: Node, post: seq<Node>,
                                                      rs: seq<Record>, links: seq<BackLinkParts>)
    requires |links| == |rs| && ph.kind == Placeholder
    ensures Substituted(pre + [ph] + post, rs, links)
            == Substituted(pre, rs, links) + ListContent(ph, rs, links) + Substituted(post, rs, links)
  {
    SubstitutedAround(pre, ph, post, rs, links);
    PlaceholderAlone(ph, rs, links);
  }

  /**
   * Any other node stays in its place with its class, attributes, source and
   * line; only the placeholders below it are replaced.
   */
  lemma {:induction false} NodeRewrittenBelow(pre: seq<Node>, n: Node, post: seq<Node>,
                                              rs: seq<Record>, links: seq<BackLinkParts>)
    requires |links| == |rs| && n.kind != Placeholder
    ensures Substituted([n], rs, links) == [n.(children := Substituted(n.children, rs, links))]
    ensures Substituted(pre + [n] + post, rs, links)
            == Substituted(pre, rs, links) + [n.(children := Substituted(n.children, rs, links))] + Substituted(post, rs, links)
  {
    SubstitutedAround(pre, n, post, rs, links);
    SubstitutedFirst(n, [], rs, links);
    assert [n] + [] == [n];
  }

  lemma {:induction false} PreorderConcat(a: seq<Node>, b: seq<Node>)
    ensures Preorder(a + b) == Preorder(a) + Preorder(b)
  {
    if a == [] {
      assert a + b == b;
    } else {
      assert (a + b)[1..] == a[1..] + b;
      PreorderConcat(a[1..], b);
    }
  }

  lemma CountKindConcat(a: seq<Node>, b: seq<Node>, k: Kind)
    ensures CountKind(a + b, k) == CountKind(a, k) + CountKind(b, k)
  {
    PreorderConcat(a, b);
    OfKindConcat(Preorder(a), Preorder(b), k);
  }

  /** A forest counts its first tree's nodes, then the rest's. */
  lemma CountKindCons(forest: seq<Node>, k: Kind)
    requires forest != []
    ensures CountKind(forest, k)
            == (if forest[0].kind == k then 1 else 0) + CountKind(forest[0].children, k) + CountKind(forest[1..], k)
  {
    OfKindConcat([forest[0]] + Preorder(forest[0].children), Preorder(forest[1..]), k);
    OfKindConcat([forest[0]], Preorder(forest[0].children), k);
  }

  lemma {:induction false} InterleavedCount(rs: seq<Record>, paragraphs: seq<Node>)
    requires |paragraphs| == |rs|
    requires forall r <- rs :: CountKind([r.alert], Placeholder) == 0
    requires forall p <- paragraphs :: CountKind([p], Placeholder) == 0
    ensures CountKind(Interleaved(rs, paragraphs), Placeholder) == 0
  {
    if rs != [] {
      assert rs[0] in rs && paragraphs[0] in paragraphs;
      assert forall r <- rs[1..] :: r in rs;
      assert forall p <- paragraphs[1..] :: p in paragraphs;
      InterleavedCount(rs[1..], paragraphs[1..]);
      CountKindPair(rs[0].alert, paragraphs[0], Interleaved(rs[1..], paragraphs[1..]), Placeholder);
    }
  }

  /** Two nodes without class `k` in front of a forest without it add none. */
  lemma CountKindPair(a: Node, b: Node, tail: seq<Node>, k: Kind)
    requires CountKind([a], k) == 0 && CountKind([b], k) == 0 && CountKind(tail, k) == 0
    ensures CountKind([a, b] + tail, k) == 0
  {
    CountKindConcat([a], [b] + tail, k);
    CountKindConcat([b], tail, k);
    assert [a, b] + tail == [a] + ([b] + tail);
  }


  lemma ParagraphsHaveNoPlaceholder(links: seq<BackLinkParts>)
    ensures forall p <- Paragraphs(links) :: CountKind([p], Placeholder) == 0
  {
    forall j | 0 <= j < |links| ensures CountKind([Paragraphs(links)[j]], Placeholder) == 0 {
      var l := links[j];
      ParagraphHasNoPlaceholder(Before(l.description), After(l.description), l.linkText, l.refuri);
    }
  }

  /** When no stored alert holds a placeholder, the rewritten document holds none. */
  lemma {:induction false} NoPlaceholderLeft(forest: seq<Node>, rs: seq<Record>, links: seq<BackLinkParts>)
    requires |links| == |rs|
    requires forall r <- rs :: CountKind([r.alert], Placeholder) == 0
    ensures CountKind(Substituted(forest, rs, links), Placeholder) == 0
  {
    if forest != [] {
      var head := if forest[0].kind == Placeholder then ListContent(forest[0], rs, links)
                  else [forest[0].(children := Substituted(forest[0].children, rs, links))];
      NoPlaceholderLeft(forest[1..], rs, links);
      CountKindConcat(head, Substituted(forest[1..], rs, links), Placeholder);
      if forest[0].kind == Placeholder {
        ParagraphsHaveNoPlaceholder(links);
        InterleavedCount(rs, Paragraphs(links));
        CountKindConcat(if HasIds(forest[0]) then [EmptyTarget()] else [], Interleaved(rs, Paragraphs(links)), Placeholder);
        if HasIds(forest[0]) {
          CountKindCons([EmptyTarget()], Placeholder);
        }
      } else {
        NoPlaceholderLeft(forest[0].children, rs, links);
        CountKindCons(head, Placeholder);
      }
    }
  }

  /** A node of another class whose children hold no node of class `k` holds none itself. */
  lemma NoKindBelow(n: Node, k: Kind)
    requires n.kind != k && CountKind(n.children, k) == 0
    ensures CountKind([n], k) == 0
  {
    CountKindCons([n], k);
    assert [n][1..] == [];
  }

  /** A back-link paragraph holds no placeholder. */
  lemma ParagraphHasNoPlaceholder(desc1: string, desc2: string, linkText: string, uri: Option<string>)
    ensures CountKind([Paragraph(desc1, desc2, linkText, uri)], Placeholder) == 0
  {
    var p := Paragraph(desc1, desc2, linkText, uri);
    var first, reference, last := p.children[0], p.children[1], p.children[2];
    var emphasis := reference.children[0];
    NoKindBelow(emphasis.children[0], Placeholder);
    NoKindBelow(emphasis, Placeholder);
    NoKindBelow(reference, Placeholder);
    NoKindBelow(first, Placeholder);
    NoKindBelow(last, Placeholder);
    CountKindConcat([first], [reference], Placeholder);
    CountKindConcat([first, reference], [last], Placeholder);
    assert p.children == [first, reference] + [last];
    NoKindBelow(p, Placeholder);
  }
}
