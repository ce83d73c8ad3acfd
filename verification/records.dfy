/**
 * The alert records kept on the build environment (`env.secualert_all_alerts`):
 * how one record is built from an alert found in a doctree, and the filter
 * that drops the records of one document.
 */
module Records {
  import opened Wrappers
  import opened Doctree

  /** One entry of the collection: the dictionary `process_alerts` appends. */
  datatype Record = Record(docname: string, source: string, lineno: Option<nat>,
                           alert: Node, target: Option<Node>)

  /** Python's `list[i]` position for `-len(list) <= i < len(list)`. */
  function PyIndex(i: int, len: nat): (j: nat)
    requires -(len as int) <= i < len
    ensures j < len
    ensures i >= 0 ==> j == i
    ensures i < 0 ==> j == len + i
  {
    if i < 0 then len + i else i
  }

  /**
   * The anchor of the alert at `siblings[index]`: `parent[index - 1]` when that
   * node is a target, otherwise none. At index 0 the `- 1` wraps to the last child.
   */
  function AnchorOf(siblings: seq<Node>, index: nat): (t: Option<Node>)
    requires index < |siblings|
    ensures t.Some? ==> t.value.kind == Target && t.value in siblings
    ensures index > 0 ==> (t.Some? <==> siblings[index - 1].kind == Target)
    ensures index > 0 && t.Some? ==> t.value == siblings[index - 1]
    ensures index == 0 ==> (t.Some? <==> siblings[|siblings| - 1].kind == Target)
    ensures index == 0 && t.Some? ==> t.value == siblings[|siblings| - 1]
  {
    var previous := siblings[PyIndex(index - 1, |siblings|)];
    if previous.kind == Target then Some(previous) else None
  }

  /** An alert that is its parent's only child has no anchor: `parent[-1]` is the alert itself. */
  lemma OnlyChildHasNoAnchor(alert: Node)
    requires alert.kind == Alert
    ensures AnchorOf([alert], 0) == None
  {
  }

  /** An alert that is its parent's first child takes a target that is the parent's last child. */
  lemma FirstChildTakesLastTarget(siblings: seq<Node>)
    requires |siblings| >= 2 && siblings[0].kind == Alert
    requires siblings[|siblings| - 1].kind == Target
    ensures AnchorOf(siblings, 0) == Some(siblings[|siblings| - 1])
  {
  }

  /** The deep copy that is stored: the alert without its `ids` attribute. */
  function WithoutIds(n: Node): (copy: Node)
    ensures copy.kind == n.kind && copy.children == n.children
    ensures copy.source == n.source && copy.line == n.line
    ensures "ids" !in copy.attrs
    ensures forall a :: a in n.attrs && a != "ids" ==> a in copy.attrs && copy.attrs[a] == n.attrs[a]
    ensures copy.attrs.Keys <= n.attrs.Keys
  {
    n.(attrs := n.attrs - {"ids"})
  }

  /** The record appended for the alert at `site` while reading document `docname`. */
  function MakeRecord(site: Site, docname: string, doc2path: string -> string): (r: Record)
    requires ValidSite(site)
    ensures r.docname == docname
    ensures r.alert == WithoutIds(site.node)
    ensures r.lineno == site.node.line
    ensures site.node.source != "" ==> r.source == site.node.source
    ensures site.node.source == "" ==> r.source == doc2path(docname)
    ensures r.target == AnchorOf(site.siblings, site.index)
  {
    Record(docname,
           if site.node.source != "" then site.node.source else doc2path(docname),
           site.node.line,
           WithoutIds(site.node),
           AnchorOf(site.siblings, site.index))
  }

  /** The records for a whole list of alert sites, one per site, in order. */
  function RecordsOf(sites: seq<Site>, docname: string, doc2path: string -> string): (rs: seq<Record>)
    requires forall s <- sites :: ValidSite(s)
    ensures |rs| == |sites|
    ensures forall k :: 0 <= k < |sites| ==> rs[k] == MakeRecord(sites[k], docname, doc2path)
  {
    if sites == [] then []
    else [MakeRecord(sites[0], docname, doc2path)] + RecordsOf(sites[1..], docname, doc2path)
  }

  /** One more site, one more record at the end. */
  lemma {:induction false} RecordsOfSnoc(sites: seq<Site>, i: nat, docname: string, doc2path: string -> string)
    requires i < |sites| && forall s <- sites :: ValidSite(s)
    ensures RecordsOf(sites[..i + 1], docname, doc2path)
            == RecordsOf(sites[..i], docname, doc2path) + [MakeRecord(sites[i], docname, doc2path)]
  {
    if i > 0 {
      assert sites[..i + 1][1..] == sites[1..][..i];
      assert sites[..i][1..] == sites[1..][..i - 1];
      RecordsOfSnoc(sites[1..], i - 1, docname, doc2path);
    }
  }

  /** The records collecting document `docname` from `doc` appends. */
  function Collected(docname: string, doc: Document, doc2path: string -> string): (rs: seq<Record>)
    ensures |rs| == CountKind(doc.children, Alert)
    ensures forall r <- rs :: r.docname == docname
  {
    TraverseIsPreorder(Alert, doc);
    RecordsOf(Traverse(Alert, doc), docname, doc2path)
  }

  /**
   * Collecting a document yields exactly one record per alert node of the
   * document, in document order, each owned by that document and holding the
   * alert's copy without `ids`.
   */
  lemma CollectedSpec(docname: string, doc: Document, doc2path: string -> string)
    ensures forall k :: 0 <= k < |Collected(docname, doc, doc2path)| ==>
      Collected(docname, doc, doc2path)[k].alert
        == WithoutIds(OfKind(Preorder(doc.children), Alert)[k])
  {
    TraverseIsPreorder(Alert, doc);
  }

  /** The records that belong to other documents than `docname`, in their order. */
  function Purged(rs: seq<Record>, docname: string): (kept: seq<Record>)
    ensures |kept| <= |rs|
    ensures forall r :: r in kept <==> r in rs && r.docname != docname
  {
    if rs == [] then []
    else (if rs[0].docname != docname then [rs[0]] else []) + Purged(rs[1..], docname)
  }

  /** Purging distributes over concatenation, so relative order is kept. */
  lemma {:induction false} PurgedConcat(a: seq<Record>, b: seq<Record>, docname: string)
    ensures Purged(a + b, docname) == Purged(a, docname) + Purged(b, docname)
  {
    if a == [] {
      assert a + b == b;
    } else {
      assert (a + b)[1..] == a[1..] + b;
      PurgedConcat(a[1..], b, docname);
    }
  }

  /** Purging a list with no record of the document leaves it as it was. */
  lemma {:induction false} PurgedKeepsOthers(rs: seq<Record>, docname: string)
    requires forall r <- rs :: r.docname != docname
    ensures Purged(rs, docname) == rs
  {
    if rs != [] {
      PurgedKeepsOthers(rs[1..], docname);
    }
  }

  /** Purging a list whose every record belongs to the document empties it. */
  lemma {:induction false} PurgedDropsOwn(rs: seq<Record>, docname: string)
    requires forall r <- rs :: r.docname == docname
    ensures Purged(rs, docname) == []
  {
    if rs != [] {
      PurgedDropsOwn(rs[1..], docname);
    }
  }

  /** Purging twice is purging once. */
  lemma PurgedIdempotent(rs: seq<Record>, docname: string)
    ensures Purged(Purged(rs, docname), docname) == Purged(rs, docname)
  {
    PurgedKeepsOthers(Purged(rs, docname), docname);
  }

  /** How many records of a document a list holds. */
  function CountOf(rs: seq<Record>, docname: string): (count: nat)
  {
    if rs == [] then 0
    else (if rs[0].docname == docname then 1 else 0) + CountOf(rs[1..], docname)
  }

  /** Purging removes exactly the records of the document. */
  lemma {:induction false} PurgedLength(rs: seq<Record>, docname: string)
    ensures |Purged(rs, docname)| == |rs| - CountOf(rs, docname)
  {
    if rs != [] {
      PurgedLength(rs[1..], docname);
    }
  }

  lemma {:induction false} CountOfConcat(a: seq<Record>, b: seq<Record>, docname: string)
    ensures CountOf(a + b, docname) == CountOf(a, docname) + CountOf(b, docname)
  {
    if a == [] {
      assert a + b == b;
    } else {
      assert (a + b)[1..] == a[1..] + b;
      CountOfConcat(a[1..], b, docname);
    }
  }

  /**
   * Purge-then-recollect: after purging a document and appending its freshly
   * collected records, the list holds the other documents' records unchanged
   * and exactly the new records of that document, so none is duplicated.
   */
  lemma Recollect(rs: seq<Record>, recollected: seq<Record>, docname: string)
    requires forall r <- recollected :: r.docname == docname
    ensures Purged(Purged(rs, docname) + recollected, docname) == Purged(rs, docname)
    ensures CountOf(Purged(rs, docname) + recollected, docname) == |recollected|
  {
    PurgedConcat(Purged(rs, docname), recollected, docname);
    PurgedIdempotent(rs, docname);
    PurgedDropsOwn(recollected, docname);
    CountOfConcat(Purged(rs, docname), recollected, docname);
    PurgedLength(Purged(rs, docname), docname);
    PurgedIdempotent(rs, docname);
    CountOwn(recollected, docname);
  }

  lemma {:induction false} CountOwn(rs: seq<Record>, docname: string)
    requires forall r <- rs :: r.docname == docname
    ensures CountOf(rs, docname) == |rs|
  {
    if rs != [] {
      CountOwn(rs[1..], docname);
    }
  }
}
