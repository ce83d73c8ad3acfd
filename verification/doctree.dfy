/**
 * The part of the docutils document tree that the extension reads and writes:
 * elements with a class, an attribute dictionary, children and a source position,
 * and the document-order traversal `doctree.traverse(cls)`.
 */
module Doctree {
  import opened Wrappers

  /** Node classes the extension tests for or creates; any other class is `Other`. */
  datatype Kind =
    | Alert                 // secualert_node
    | Placeholder           // secualertlist_node
    | Target                // nodes.target
    | Paragraph
    | Reference
    | Emphasis
    | Text(text: string)    // nodes.Text, a leaf holding its string
    | Other(tagname: string)

  /** Attribute values as docutils stores them: strings, lists of strings, booleans. */
  datatype Attr = Str(text: string) | Strs(items: seq<string>) | Flag(on: bool)

  /**
   * An element. `source` is the empty string when the node has no source file;
   * `line` is None when the node has no line number. Basic list attributes
   * (`ids`, `classes`, ...) that are empty may be absent from `attrs`.
   */
  datatype Node = Node(kind: Kind, attrs: map<string, Attr>, children: seq<Node>,
                       source: string, line: Option<nat>)

  /** The root `document` node handed to the event handlers. */
  datatype Document = Document(children: seq<Node>)

  /** A node built by the extension: no attributes, no source position. */
  function Bare(kind: Kind, children: seq<Node>): (n: Node)
    ensures n.kind == kind && n.children == children && n.attrs == map[]
  {
    Node(kind, map[], children, "", None)
  }

  /** Python truthiness of an attribute value. */
  predicate Truthy(a: Attr)
  {
    match a
    case Str(s) => s != ""
    case Strs(l) => l != []
    case Flag(b) => b
  }

  /** `node.get('ids')` is truthy. */
  predicate HasIds(n: Node)
  {
    "ids" in n.attrs && Truthy(n.attrs["ids"])
  }

  /** A node has ids exactly when its `ids` list is present and non-empty. */
  lemma HasIdsOfList(n: Node)
    requires "ids" !in n.attrs || n.attrs["ids"].Strs?
    ensures HasIds(n) <==> "ids" in n.attrs && n.attrs["ids"].items != []
  {
  }

  /** Every node of a forest in document order (each node before its descendants). */
  function Preorder(forest: seq<Node>): (listing: seq<Node>)
  {
    if forest == [] then []
    else [forest[0]] + Preorder(forest[0].children) + Preorder(forest[1..])
  }

  /** The nodes of `ns` whose class is `k`, in their order in `ns`. */
  function OfKind(ns: seq<Node>, k: Kind): (r: seq<Node>)
    ensures |r| <= |ns|
    ensures forall n <- r :: n.kind == k && n in ns
    ensures forall n <- ns :: n.kind == k ==> n in r
  {
    if ns == [] then []
    else (if ns[0].kind == k then [ns[0]] else []) + OfKind(ns[1..], k)
  }

  lemma {:induction false} OfKindConcat(a: seq<Node>, b: seq<Node>, k: Kind)
    ensures OfKind(a + b, k) == OfKind(a, k) + OfKind(b, k)
  {
    if a == [] {
      assert a + b == b;
    } else {
      assert (a + b)[1..] == a[1..] + b;
      OfKindConcat(a[1..], b, k);
    }
  }

  /** A node found by a traversal, with its parent's children and its index there. */
  datatype Site = Site(node: Node, siblings: seq<Node>, index: nat)

  /** `siblings[index]` is the node itself, as `node.parent.index(node)` finds it. */
  predicate ValidSite(s: Site)
  {
    s.index < |s.siblings| && s.siblings[s.index] == s.node
  }

  /**
   * The nodes of class `k` in the subtrees rooted at `siblings[i..]`, in document
   * order, each with its parent's children and its position among them.
   */
  function SitesFrom(k: Kind, siblings: seq<Node>, i: nat): (sites: seq<Site>)
    requires i <= |siblings|
    ensures forall s <- sites :: ValidSite(s) && s.node.kind == k
    decreases siblings, |siblings| - i
  {
    if i == |siblings| then []
    else
      (if siblings[i].kind == k then [Site(siblings[i], siblings, i)] else [])
      + SitesFrom(k, siblings[i].children, 0)
      + SitesFrom(k, siblings, i + 1)
  }

  /** `doctree.traverse(cls)`: the root document is never itself of a class we look for. */
  function Traverse(k: Kind, doc: Document): (sites: seq<Site>)
    ensures forall s <- sites :: ValidSite(s) && s.node.kind == k
    ensures forall s <- sites :: ParentIn(doc.children, s.siblings)
  {
    SitesFromParent(k, doc.children, 0);
    assert doc.children[0..] == doc.children;
    SitesFrom(k, doc.children, 0)
  }

  function SiteNodes(sites: seq<Site>): (ns: seq<Node>)
    ensures |ns| == |sites|
    ensures forall j :: 0 <= j < |sites| ==> ns[j] == sites[j].node
  {
    if sites == [] then [] else [sites[0].node] + SiteNodes(sites[1..])
  }

  lemma {:induction false} SiteNodesConcat(a: seq<Site>, b: seq<Site>)
    ensures SiteNodes(a + b) == SiteNodes(a) + SiteNodes(b)
  {
    if a == [] {
      assert a + b == b;
    } else {
      assert (a + b)[1..] == a[1..] + b;
      SiteNodesConcat(a[1..], b);
    }
  }

  /** The traversal visits exactly the nodes of class `k` of the pre-order listing, in that order. */
  lemma {:induction false} SitesFromIsPreorder(k: Kind, siblings: seq<Node>, i: nat)
    requires i <= |siblings|
    ensures SiteNodes(SitesFrom(k, siblings, i)) == OfKind(Preorder(siblings[i..]), k)
    decreases siblings, |siblings| - i
  {
    if i == |siblings| {
      assert siblings[i..] == [];
    } else {
      var here := if siblings[i].kind == k then [Site(siblings[i], siblings, i)] else [];
      var below := SitesFrom(k, siblings[i].children, 0);
      var after := SitesFrom(k, siblings, i + 1);
      SitesFromIsPreorder(k, siblings[i].children, 0);
      SitesFromIsPreorder(k, siblings, i + 1);
      assert siblings[i].children[0..] == siblings[i].children;
      SiteNodesConcat(here + below, after);
      SiteNodesConcat(here, below);
      var rest := siblings[i..];
      assert rest[0] == siblings[i] && rest[1..] == siblings[i + 1..];
      assert Preorder(rest) == [siblings[i]] + Preorder(siblings[i].children) + Preorder(siblings[i + 1..]);
      OfKindConcat([siblings[i]] + Preorder(siblings[i].children), Preorder(siblings[i + 1..]), k);
      OfKindConcat([siblings[i]], Preorder(siblings[i].children), k);
    }
  }

  /** `traverse(cls)` lists the nodes of class `k` of the whole document in document order. */
  lemma TraverseIsPreorder(k: Kind, doc: Document)
    ensures SiteNodes(Traverse(k, doc)) == OfKind(Preorder(doc.children), k)
  {
    SitesFromIsPreorder(k, doc.children, 0);
    assert doc.children[0..] == doc.children;
  }

  /** A node's parent in a forest: the root (whose children are the forest) or a node of the forest. */
  predicate ParentIn(forest: seq<Node>, siblings: seq<Node>)
  {
    siblings == forest || exists p :: p in Preorder(forest) && p.children == siblings
  }

  /** Every site found from `siblings[i]` on lists the children of the node's parent. */
  lemma {:induction false} SitesFromParent(k: Kind, siblings: seq<Node>, i: nat)
    requires i <= |siblings|
    ensures forall s <- SitesFrom(k, siblings, i) ::
      s.siblings == siblings || exists p :: p in Preorder(siblings[i..]) && p.children == s.siblings
    decreases siblings, |siblings| - i
  {
    if i < |siblings| {
      var here := if siblings[i].kind == k then [Site(siblings[i], siblings, i)] else [];
      var below := SitesFrom(k, siblings[i].children, 0);
      var after := SitesFrom(k, siblings, i + 1);
      var rest := siblings[i..];
      assert rest[0] == siblings[i] && rest[1..] == siblings[i + 1..];
      assert Preorder(rest) == [siblings[i]] + Preorder(siblings[i].children) + Preorder(siblings[i + 1..]);
      assert siblings[i].children[0..] == siblings[i].children;
      SitesFromParent(k, siblings[i].children, 0);
      SitesFromParent(k, siblings, i + 1);
      forall s | s in below
        ensures exists p :: p in Preorder(rest) && p.children == s.siblings
      {
        if s.siblings == siblings[i].children {
          assert siblings[i] in Preorder(rest);
        } else {
          var p :| p in Preorder(siblings[i].children) && p.children == s.siblings;
          assert p in Preorder(rest);
        }
      }
      forall s | s in after && s.siblings != siblings
        ensures exists p :: p in Preorder(rest) && p.children == s.siblings
      {
        var p :| p in Preorder(siblings[i + 1..]) && p.children == s.siblings;
        assert p in Preorder(rest);
      }
      assert SitesFrom(k, siblings, i) == here + below + after;
    }
  }

  /** How many nodes of class `k` a forest holds, at any depth. */
  function CountKind(forest: seq<Node>, k: Kind): (count: nat)
  {
    |OfKind(Preorder(forest), k)|
  }
}
