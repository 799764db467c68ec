/** Parent links never loop. A rank that strictly drops from each node to
    its parent witnesses this; in such a document the walk of
    `IsInclusiveAncestor`, cut off after as many steps as there are nodes,
    finds every ancestor there is. */
module Ancestry {
  import opened Tree

  /** `rank` numbers every node, and a parent always has a smaller number
      than its child. */
  predicate RankedBy(doc: Document, rank: map<NodeId, nat>) {
    && doc.nodes.Keys <= rank.Keys
    && forall m :: m in doc.nodes && doc.nodes[m].parent.Some? && doc.nodes[m].parent.value in doc.nodes ==>
         rank[doc.nodes[m].parent.value] < rank[m]
  }

  /** Following parent links from any node ends: the tree has no cycle. */
  ghost predicate Acyclic(doc: Document) {
    exists rank :: RankedBy(doc, rank)
  }

  /** More steps never lose an ancestor. */
  lemma {:induction false} AncestorMono(doc: Document, a: NodeId, m: NodeId, f: nat, g: nat)
    requires f <= g && AncestorWithin(doc, a, m, f)
    ensures AncestorWithin(doc, a, m, g)
    decreases f
  {
    if a != m {
      AncestorMono(doc, a, doc.nodes[m].parent.value, f - 1, g - 1);
    }
  }

  lemma {:induction false} SubsetCard(small: set<NodeId>, big: set<NodeId>)
    requires small <= big
    ensures |small| <= |big|
    decreases |small|
  {
    if small != {} {
      var x :| x in small;
      SubsetCard(small - {x}, big - {x});
    }
  }

  /** The nodes ranked no higher than `m`. */
  function AtOrBelow(doc: Document, rank: map<NodeId, nat>, m: NodeId): set<NodeId>
    requires RankedBy(doc, rank) && m in doc.nodes
  {
    set x | x in doc.nodes && rank[x] <= rank[m]
  }

  /** A walk from `m` that meets `a` does so within as many steps as there
      are nodes ranked no higher than `m`: each step lands on a lower rank. */
  lemma {:induction false} AncestorWithinAtOrBelow(doc: Document, rank: map<NodeId, nat>, a: NodeId, m: NodeId, f: nat)
    requires LinksUp(doc) && RankedBy(doc, rank) && m in doc.nodes
    requires AncestorWithin(doc, a, m, f)
    ensures AncestorWithin(doc, a, m, |AtOrBelow(doc, rank, m)|)
    decreases f
  {
    if a != m {
      var p := doc.nodes[m].parent.value;
      AncestorWithinAtOrBelow(doc, rank, a, p, f - 1);
      var below := AtOrBelow(doc, rank, m);
      assert m in below;
      SubsetCard(AtOrBelow(doc, rank, p), below - {m});
      AncestorMono(doc, a, p, |AtOrBelow(doc, rank, p)|, |below| - 1);
    }
  }

  /** Likewise within `rank[m]` steps, since ranks never go below zero. */
  lemma {:induction false} AncestorWithinRank(doc: Document, rank: map<NodeId, nat>, a: NodeId, m: NodeId, f: nat)
    requires LinksUp(doc) && RankedBy(doc, rank) && m in doc.nodes
    requires AncestorWithin(doc, a, m, f)
    ensures AncestorWithin(doc, a, m, rank[m])
    decreases f
  {
    if a != m {
      var p := doc.nodes[m].parent.value;
      AncestorWithinRank(doc, rank, a, p, f - 1);
      AncestorMono(doc, a, p, rank[p], rank[m] - 1);
    }
  }

  /** In a consistent document without cycles, `IsInclusiveAncestor` is
      exact: whatever a walk of any length reaches, the bounded walk reaches. */
  lemma AncestorExact(doc: Document, a: NodeId, m: NodeId, f: nat)
    requires Consistent(doc) && Acyclic(doc)
    requires AncestorWithin(doc, a, m, f)
    ensures IsInclusiveAncestor(doc, a, m)
  {
    if a != m {
      var rank :| RankedBy(doc, rank);
      AncestorWithinAtOrBelow(doc, rank, a, m, f);
      SubsetCard(AtOrBelow(doc, rank, m), doc.nodes.Keys);
      assert |doc.nodes.Keys| == |doc.nodes|;
      AncestorMono(doc, a, m, |AtOrBelow(doc, rank, m)|, |doc.nodes|);
    }
  }

  /** `r` has the nodes of `doc`, and each parent link is kept or cleared. */
  predicate LinksCut(doc: Document, r: Document) {
    && r.nodes.Keys == doc.nodes.Keys
    && forall m :: m in r.nodes ==> r.nodes[m].parent.None? || r.nodes[m].parent == doc.nodes[m].parent
  }

  /** Clearing parent links cannot make a cycle. */
  lemma CutKeepsAcyclic(doc: Document, r: Document)
    requires LinksCut(doc, r) && Acyclic(doc)
    ensures Acyclic(r)
  {
    var rank :| RankedBy(doc, rank);
    assert RankedBy(r, rank);
  }

  /** Nor can it make a new ancestor. */
  lemma {:induction false} CutAncestor(doc: Document, r: Document, a: NodeId, m: NodeId, f: nat)
    requires LinksCut(doc, r) && AncestorWithin(r, a, m, f)
    ensures AncestorWithin(doc, a, m, f)
    decreases f
  {
    if a != m {
      CutAncestor(doc, r, a, r.nodes[m].parent.value, f - 1);
    }
  }

  /** Removal only clears links. */
  lemma DetachCuts(doc: Document, n: NodeId)
    requires n in doc.nodes
    ensures LinksCut(doc, Detach(doc, n))
  {
  }

  /** A blank new node, detached, keeps the document free of cycles. */
  lemma AllocateKeepsAcyclic(doc: Document, kind: NodeKind)
    requires Consistent(doc) && Acyclic(doc)
    ensures Acyclic(Allocate(doc, kind).0)
  {
    var rank :| RankedBy(doc, rank);
    var (d, x) := Allocate(doc, kind);
    assert RankedBy(d, rank[x := 0]);
  }
}
