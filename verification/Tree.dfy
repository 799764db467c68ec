/** The abstract host document the queued mutations act on: a map from node
    identities to node records, with parent links and ordered child lists.
    Only what the mutation methods touch is kept: inline style, class list,
    attributes, text or markup content, and the tree links. */
module Tree {
  import opened Wrappers

  type NodeId = nat

  /** Handles wrap elements; `DOM.create` also makes text nodes for string children. */
  datatype NodeKind = Element(tag: string) | TextNode(data: string)

  /** What the last `textContent` or `innerHTML` assignment put inside the
      node. Both strings are kept opaque: no text node is built and no markup
      is parsed. */
  datatype Content = NoContent | TextContent(text: string) | Markup(html: string)

  datatype Node = Node(
    kind: NodeKind,
    style: map<string, string>,
    classes: set<string>,
    attrs: map<string, string>,
    content: Content,
    parent: Option<NodeId>,
    children: seq<NodeId>)

  /** Every node the page owns, attached or not; `next` is the identity the
      host gives the next node it creates. Nodes are never destroyed. */
  datatype Document = Document(nodes: map<NodeId, Node>, next: NodeId)

  /** A node as `createElement` / `createTextNode` return it: empty and detached. */
  function Blank(kind: NodeKind): Node {
    Node(kind, map[], {}, map[], NoContent, None, [])
  }

  predicate NoDuplicates(s: seq<NodeId>) {
    forall i, j :: 0 <= i < j < |s| ==> s[i] != s[j]
  }

  predicate IdsBelowNext(doc: Document) {
    forall n :: n in doc.nodes ==> n < doc.next
  }

  /** A node's parent exists, lists it as a child, and is not the node itself. */
  predicate LinksUp(doc: Document) {
    forall n :: n in doc.nodes && doc.nodes[n].parent.Some? ==>
      && doc.nodes[n].parent.value != n
      && doc.nodes[n].parent.value in doc.nodes
      && n in doc.nodes[doc.nodes[n].parent.value].children
  }

  /** A listed child exists and points back at the node listing it. */
  predicate LinksDown(doc: Document) {
    forall p, c :: p in doc.nodes && c in doc.nodes[p].children ==>
      c in doc.nodes && doc.nodes[c].parent == Some(p)
  }

  predicate ChildListsDistinct(doc: Document) {
    forall p :: p in doc.nodes ==> NoDuplicates(doc.nodes[p].children)
  }

  /** The shape every host document has: parent and child links agree, so a
      node sits in at most one child list, and at most once there. */
  predicate Consistent(doc: Document) {
    IdsBelowNext(doc) && LinksUp(doc) && LinksDown(doc) && ChildListsDistinct(doc)
  }

  /** Only `n`'s record may differ between `doc` and `r`. */
  predicate OnlyNodeChanged(doc: Document, r: Document, n: NodeId) {
    && r.next == doc.next
    && r.nodes.Keys == doc.nodes.Keys
    && forall m :: m in doc.nodes && m != n ==> r.nodes[m] == doc.nodes[m]
  }

  /** `doc` with `n`'s record replaced. */
  function WithRecord(doc: Document, n: NodeId, node: Node): Document {
    Document(doc.nodes[n := node], doc.next)
  }

  /** Replacing a record without touching its tree links changes that
      record only and keeps the document consistent. */
  lemma WithRecordConsistent(doc: Document, n: NodeId, node: Node)
    requires Consistent(doc) && n in doc.nodes
    requires node.parent == doc.nodes[n].parent && node.children == doc.nodes[n].children
    ensures Consistent(WithRecord(doc, n, node))
    ensures OnlyNodeChanged(doc, WithRecord(doc, n, node), n)
  {
  }

  /** `createElement` / `createTextNode`: a blank node under the next identity. */
  function Allocate(doc: Document, kind: NodeKind): (Document, NodeId) {
    (Document(doc.nodes[doc.next := Blank(kind)], doc.next + 1), doc.next)
  }

  /** The new identity is fresh, the new node is detached, and the document
      stays consistent. */
  lemma AllocateFresh(doc: Document, kind: NodeKind)
    requires Consistent(doc)
    ensures var (d, x) := Allocate(doc, kind);
      && x !in doc.nodes && d.nodes == doc.nodes[x := Blank(kind)]
      && x < d.next && doc.next <= x
      && Consistent(d)
  {
  }

  /** `s` with every occurrence of `x` removed, order kept. */
  function Without(s: seq<NodeId>, x: NodeId): (r: seq<NodeId>)
    ensures forall y :: y in r <==> y in s && y != x
    ensures NoDuplicates(s) ==> NoDuplicates(r)
    ensures x !in s ==> r == s
    decreases |s|
  {
    if s == [] then []
    else if s[0] == x then Without(s[1..], x)
    else
      var rest := Without(s[1..], x);
      assert NoDuplicates(s) ==> s[0] !in rest by {
        if NoDuplicates(s) && s[0] in rest {
          var k :| 1 <= k < |s| && s[k] == s[0];
        }
      }
      [s[0]] + rest
  }

  /** Is `a` an inclusive ancestor of `n`: `n` itself or reached by following
      parent links? The walk is cut off after `|doc.nodes|` steps, which is
      never reached in a document without parent cycles. */
  predicate IsInclusiveAncestor(doc: Document, a: NodeId, n: NodeId) {
    AncestorWithin(doc, a, n, |doc.nodes|)
  }

  predicate AncestorWithin(doc: Document, a: NodeId, n: NodeId, fuel: nat)
    decreases fuel
  {
    || a == n
    || (&& fuel > 0
        && n in doc.nodes
        && doc.nodes[n].parent.Some?
        && AncestorWithin(doc, a, doc.nodes[n].parent.value, fuel - 1))
  }

  /** A node and its parent are both inclusive ancestors of the node. */
  lemma ParentIsAncestor(doc: Document, n: NodeId)
    requires n in doc.nodes
    ensures IsInclusiveAncestor(doc, n, n)
    ensures doc.nodes[n].parent.Some? ==> IsInclusiveAncestor(doc, doc.nodes[n].parent.value, n)
  {
    assert |doc.nodes| > 0 by { assert n in doc.nodes.Keys; }
  }

  /** The node-removal step of the DOM's "remove" algorithm, as `removeChild`
      and the first step of `appendChild` perform it: the node leaves its
      parent's child list and loses its parent link. */
  function Detach(doc: Document, n: NodeId): (r: Document)
    requires n in doc.nodes
    ensures r.next == doc.next && r.nodes.Keys == doc.nodes.Keys
  {
    match doc.nodes[n].parent
    case None => doc
    case Some(p) =>
      if p in doc.nodes then Unlink(doc, n, p)
      else Document(doc.nodes[n := doc.nodes[n].(parent := None)], doc.next)
  }

  /** Detaching changes exactly two records — the node's parent link and
      the old parent's child list — and is a no-op on a parentless node. */
  lemma DetachEffect(doc: Document, n: NodeId)
    requires Consistent(doc) && n in doc.nodes
    ensures var r := Detach(doc, n);
      && r.nodes[n] == doc.nodes[n].(parent := None)
      && (doc.nodes[n].parent.None? ==> r == doc)
      && (doc.nodes[n].parent.Some? ==>
            var p := doc.nodes[n].parent.value;
            r.nodes[p] == doc.nodes[p].(children := Without(doc.nodes[p].children, n)))
      && (forall m :: m in doc.nodes && m != n && Some(m) != doc.nodes[n].parent ==>
            r.nodes[m] == doc.nodes[m])
  {
    if doc.nodes[n].parent.Some? {
      UnlinkRecords(doc, n, doc.nodes[n].parent.value);
    }
  }

  /** Detaching keeps the document consistent, and afterwards no child list
      holds the node. */
  lemma DetachConsistent(doc: Document, n: NodeId)
    requires Consistent(doc) && n in doc.nodes
    ensures Consistent(Detach(doc, n))
    ensures forall q :: q in doc.nodes ==> n !in Detach(doc, n).nodes[q].children
  {
    match doc.nodes[n].parent
    case None =>
      assert forall q :: q in doc.nodes ==> n !in doc.nodes[q].children;
    case Some(p) =>
      UnlinkConsistent(doc, n, p);
  }

  /** Detaching touches tree links only: every record keeps its kind,
      style, classes, attributes and content. */
  lemma DetachKeepsPayload(doc: Document, n: NodeId)
    requires n in doc.nodes
    ensures var r := Detach(doc, n);
      forall m :: m in doc.nodes ==>
        r.nodes[m] == doc.nodes[m].(parent := r.nodes[m].parent, children := r.nodes[m].children)
  {
  }

  /** The record updates of `Detach`, for a node whose parent is `p`. */
  function Unlink(doc: Document, n: NodeId, p: NodeId): (r: Document)
    requires n in doc.nodes && p in doc.nodes
    ensures r.next == doc.next && r.nodes.Keys == doc.nodes.Keys
  {
    var nodes1 := doc.nodes[p := doc.nodes[p].(children := Without(doc.nodes[p].children, n))];
    Document(nodes1[n := doc.nodes[n].(parent := None)], doc.next)
  }

  /** The two records `Unlink` rewrites, and what stays the same. */
  lemma UnlinkRecords(doc: Document, n: NodeId, p: NodeId)
    requires n in doc.nodes && p in doc.nodes && n != p
    ensures var r := Unlink(doc, n, p);
      && r.nodes[n] == doc.nodes[n].(parent := None)
      && r.nodes[p] == doc.nodes[p].(children := Without(doc.nodes[p].children, n))
      && (forall m :: m in doc.nodes && m != n && m != p ==> r.nodes[m] == doc.nodes[m])
  {
  }

  lemma UnlinkConsistent(doc: Document, n: NodeId, p: NodeId)
    requires Consistent(doc)
    requires n in doc.nodes && doc.nodes[n].parent == Some(p)
    ensures Consistent(Unlink(doc, n, p))
    ensures forall q :: q in doc.nodes ==> n !in Unlink(doc, n, p).nodes[q].children
  {
    UnlinkRecords(doc, n, p);
    UnlinkDropsNode(doc, n, p);
    UnlinkLinksUp(doc, n, p);
    UnlinkLinksDown(doc, n, p);
    UnlinkDistinct(doc, n, p);
  }

  lemma UnlinkDropsNode(doc: Document, n: NodeId, p: NodeId)
    requires LinksDown(doc)
    requires n in doc.nodes && doc.nodes[n].parent == Some(p) && p in doc.nodes && p != n
    ensures forall q :: q in doc.nodes ==> n !in Unlink(doc, n, p).nodes[q].children
  {
    UnlinkRecords(doc, n, p);
    var r := Unlink(doc, n, p);
    forall q | q in doc.nodes ensures n !in r.nodes[q].children {
      if q != p && q != n {
        assert r.nodes[q] == doc.nodes[q];
      }
    }
  }

  lemma UnlinkLinksUp(doc: Document, n: NodeId, p: NodeId)
    requires LinksUp(doc)
    requires n in doc.nodes && doc.nodes[n].parent == Some(p) && p in doc.nodes && p != n
    ensures LinksUp(Unlink(doc, n, p))
  {
    UnlinkRecords(doc, n, p);
    var r := Unlink(doc, n, p);
    forall m | m in r.nodes && r.nodes[m].parent.Some?
      ensures r.nodes[m].parent.value != m
      ensures r.nodes[m].parent.value in r.nodes
      ensures m in r.nodes[r.nodes[m].parent.value].children
    {
      assert m != n;
      var q := doc.nodes[m].parent.value;
      assert r.nodes[m].parent == Some(q);
      assert m in doc.nodes[q].children;
      if q == p {
        assert m in Without(doc.nodes[p].children, n);
      } else if q != n {
        assert r.nodes[q] == doc.nodes[q];
      }
    }
  }

  lemma UnlinkLinksDown(doc: Document, n: NodeId, p: NodeId)
    requires LinksDown(doc)
    requires n in doc.nodes && doc.nodes[n].parent == Some(p) && p in doc.nodes && p != n
    ensures LinksDown(Unlink(doc, n, p))
  {
    var r := Unlink(doc, n, p);
    forall q, c | q in r.nodes && c in r.nodes[q].children
      ensures c in r.nodes && r.nodes[c].parent == Some(q)
    {
      UnlinkChildLink(doc, n, p, q, c);
    }
  }

  /** One child link after `Unlink`: it was there before, and it is not `n`. */
  lemma UnlinkChildLink(doc: Document, n: NodeId, p: NodeId, q: NodeId, c: NodeId)
    requires LinksDown(doc)
    requires n in doc.nodes && doc.nodes[n].parent == Some(p) && p in doc.nodes && p != n
    requires q in doc.nodes && c in Unlink(doc, n, p).nodes[q].children
    ensures c in doc.nodes && Unlink(doc, n, p).nodes[c].parent == Some(q)
  {
    UnlinkRecords(doc, n, p);
    var r := Unlink(doc, n, p);
    if q == p {
      assert c in Without(doc.nodes[p].children, n);
    } else if q != n {
      assert r.nodes[q] == doc.nodes[q];
    }
    assert c in doc.nodes[q].children && c != n;
    assert doc.nodes[c].parent == Some(q);
    if c != p {
      assert r.nodes[c] == doc.nodes[c];
    }
  }

  lemma UnlinkDistinct(doc: Document, n: NodeId, p: NodeId)
    requires ChildListsDistinct(doc)
    requires n in doc.nodes && doc.nodes[n].parent == Some(p) && p in doc.nodes && p != n
    ensures ChildListsDistinct(Unlink(doc, n, p))
  {
    UnlinkRecords(doc, n, p);
    var r := Unlink(doc, n, p);
    forall q | q in r.nodes ensures NoDuplicates(r.nodes[q].children) {
      assert NoDuplicates(doc.nodes[q].children);
      if q != p && q != n {
        assert r.nodes[q] == doc.nodes[q];
      }
    }
  }
}
