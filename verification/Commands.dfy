/** The queued closures of `DOMElement`, made inspectable: one command per
    mutation method, carrying the target node and the arguments as they stand
    when the method is called (the closure reads them only when it runs), and
    `Apply`, which runs one of them against the document the way the host
    primitive the closure calls would. */
module Commands {
  import opened Wrappers
  import opened Tokens
  import opened Tree
  import opened Ancestry

  /** One queued closure per mutation method, named by the host call it
      makes when it runs. */
  datatype Command =
    | SetStyle(target: NodeId, styles: seq<(string, string)>)    // assign each style property, in key order
    | AddClass(target: NodeId, tokens: seq<string>)              // add the tokens to the class list
    | RemoveClass(target: NodeId, tokens: seq<string>)           // remove the tokens from the class list
    | SetAttrs(target: NodeId, attrs: seq<(string, string)>)     // set each attribute, in key order
    | SetText(target: NodeId, text: string)                      // replace the content by text
    | SetHtml(target: NodeId, html: string)                      // replace the content by markup
    | Append(target: NodeId, child: Option<NodeId>)              // append the child node; None is a non-node value
    | Remove(target: NodeId)                                     // detach from the parent, if any

  /** What running one queued closure leaves behind. `Threw` is the host
      raising an exception; it carries the document as it stood at that point,
      which for `SetStyle` and `SetAttrs` includes the pairs written before
      the refused key. */
  datatype Outcome = Applied(doc: Document) | Threw(doc: Document)

  /** Handles only ever wrap elements of the page. */
  predicate IsElement(doc: Document, n: NodeId) {
    n in doc.nodes && doc.nodes[n].kind.Element?
  }

  // ------- classes -------

  function TokenSet(tokens: seq<string>): set<string> {
    set i | 0 <= i < |tokens| :: tokens[i]
  }

  /** DOMTokenList `add`: every token is validated before any is added. */
  function AddTokens(doc: Document, n: NodeId, tokens: seq<string>): Outcome
    requires n in doc.nodes
  {
    if !AllValidTokens(tokens) then Threw(doc)
    else Applied(WithRecord(doc, n, doc.nodes[n].(classes := doc.nodes[n].classes + TokenSet(tokens))))
  }

  /** DOMTokenList `remove`: validated like `add`, then each token is dropped. */
  function RemoveTokens(doc: Document, n: NodeId, tokens: seq<string>): Outcome
    requires n in doc.nodes
  {
    if !AllValidTokens(tokens) then Threw(doc)
    else Applied(WithRecord(doc, n, doc.nodes[n].(classes := doc.nodes[n].classes - TokenSet(tokens))))
  }

  /** The class list behaves as a set: `add` yields the union with the
      tokens, `remove` the difference, other classes and other records stay;
      a single bad token makes either throw with nothing changed. */
  lemma ClassEffect(doc: Document, n: NodeId, tokens: seq<string>)
    requires n in doc.nodes
    ensures var r := AddTokens(doc, n, tokens);
      && (r.Applied? <==> AllValidTokens(tokens))
      && (r.Threw? ==> r.doc == doc)
      && OnlyNodeChanged(doc, r.doc, n)
      && r.doc.nodes[n] == doc.nodes[n].(classes := r.doc.nodes[n].classes)
      && (r.Applied? ==> forall t :: t in r.doc.nodes[n].classes <==> t in doc.nodes[n].classes || t in tokens)
      && (Consistent(doc) ==> Consistent(r.doc))
    ensures var r := RemoveTokens(doc, n, tokens);
      && (r.Applied? <==> AllValidTokens(tokens))
      && (r.Threw? ==> r.doc == doc)
      && OnlyNodeChanged(doc, r.doc, n)
      && r.doc.nodes[n] == doc.nodes[n].(classes := r.doc.nodes[n].classes)
      && (r.Applied? ==> forall t :: t in r.doc.nodes[n].classes <==> t in doc.nodes[n].classes && t !in tokens)
      && (Consistent(doc) ==> Consistent(r.doc))
  {
    if Consistent(doc) {
      WithRecordConsistent(doc, n, doc.nodes[n].(classes := doc.nodes[n].classes + TokenSet(tokens)));
      WithRecordConsistent(doc, n, doc.nodes[n].(classes := doc.nodes[n].classes - TokenSet(tokens)));
    }
  }

  // ------- key/value assignment -------

  /** The two closures that write key/value pairs one at a time, in the key
      order of the argument object: `Object.assign` onto the inline style,
      and the `setAttribute` loop of `attr`. */
  datatype Sink = InlineStyle | Attributes

  /** Whether the host accepts key `k` on that sink; a refused key throws. */
  predicate Accepts(w: Sink, k: string) {
    match w
    case InlineStyle => WritableStyleKey(k)
    case Attributes => ValidAttrName(k)
  }

  /** The map a sink writes into. */
  function Field(node: Node, w: Sink): map<string, string> {
    match w
    case InlineStyle => node.style
    case Attributes => node.attrs
  }

  function WithField(node: Node, w: Sink, m: map<string, string>): Node {
    match w
    case InlineStyle => node.(style := m)
    case Attributes => node.(attrs := m)
  }

  /** The keys a pass over the argument object visits. */
  function NamesOf(pairs: seq<(string, string)>): set<string> {
    set i | 0 <= i < |pairs| :: pairs[i].0
  }

  /** The position of the last pair named `k`: the one whose value stays. */
  function LastIndex(pairs: seq<(string, string)>, k: string): (r: nat)
    requires k in NamesOf(pairs)
    ensures r < |pairs| && pairs[r].0 == k
    ensures forall j :: r < j < |pairs| ==> pairs[j].0 != k
    decreases |pairs|
  {
    var last := |pairs| - 1;
    if pairs[last].0 == k then last
    else
      assert k in NamesOf(pairs[..last]) by {
        var i :| 0 <= i < |pairs| && pairs[i].0 == k;
        assert pairs[..last][i].0 == k;
      }
      LastIndex(pairs[..last], k)
  }

  /** The index of the first key the sink refuses, or `|pairs|`. */
  function FirstRejected(w: Sink, pairs: seq<(string, string)>): (r: nat)
    ensures r <= |pairs|
    ensures forall i :: 0 <= i < r ==> Accepts(w, pairs[i].0)
    ensures r < |pairs| ==> !Accepts(w, pairs[r].0)
    decreases |pairs|
  {
    if pairs == [] then 0
    else if !Accepts(w, pairs[0].0) then 0
    else 1 + FirstRejected(w, pairs[1..])
  }

  /** The assignment loop: one write per pair, in order, stopping at the
      first refused key with the earlier pairs already written. The flag
      says whether the loop ran to the end. */
  function SetEach(w: Sink, m: map<string, string>, pairs: seq<(string, string)>): (map<string, string>, bool)
    decreases |pairs|
  {
    if pairs == [] then (m, true)
    else if !Accepts(w, pairs[0].0) then (m, false)
    else SetEach(w, m[pairs[0].0 := pairs[0].1], pairs[1..])
  }

  /** With every key accepted, each named key ends with the value of the
      last pair naming it, and no other key changes. */
  lemma {:induction false} SetEachLastWins(w: Sink, m: map<string, string>, pairs: seq<(string, string)>)
    requires forall i :: 0 <= i < |pairs| ==> Accepts(w, pairs[i].0)
    ensures SetEach(w, m, pairs).1
    ensures forall k :: k in NamesOf(pairs) ==>
      k in SetEach(w, m, pairs).0 && SetEach(w, m, pairs).0[k] == pairs[LastIndex(pairs, k)].1
    ensures forall k :: k !in NamesOf(pairs) ==>
      (k in SetEach(w, m, pairs).0 <==> k in m)
    ensures forall k :: k !in NamesOf(pairs) && k in m ==> SetEach(w, m, pairs).0[k] == m[k]
    decreases |pairs|
  {
    if pairs != [] {
      var rest := pairs[1..];
      var m1 := m[pairs[0].0 := pairs[0].1];
      SetEachLastWins(w, m1, rest);
      var out := SetEach(w, m, pairs).0;
      assert out == SetEach(w, m1, rest).0;
      NamesOfCons(pairs);
      forall k | k in NamesOf(pairs)
        ensures k in out && out[k] == pairs[LastIndex(pairs, k)].1
      {
        var li := LastIndex(pairs, k);
        if k in NamesOf(rest) {
          var lj := LastIndex(rest, k);
          assert pairs[lj + 1].0 == k;
          assert li == lj + 1;
        } else {
          forall j | 1 <= j < |pairs| ensures pairs[j].0 in NamesOf(rest) {
            assert pairs[j] == rest[j - 1];
          }
        }
      }
    }
  }

  lemma NamesOfCons(pairs: seq<(string, string)>)
    requires pairs != []
    ensures NamesOf(pairs) == {pairs[0].0} + NamesOf(pairs[1..])
  {
    forall k | k in NamesOf(pairs) ensures k in {pairs[0].0} + NamesOf(pairs[1..]) {
      var i :| 0 <= i < |pairs| && pairs[i].0 == k;
      if i > 0 { assert pairs[1..][i - 1].0 == k; }
    }
    forall k | k in NamesOf(pairs[1..]) ensures k in NamesOf(pairs) {
      var i :| 0 <= i < |pairs[1..]| && pairs[1..][i].0 == k;
      assert pairs[i + 1].0 == k;
    }
  }

  /** A refused key stops the loop: the result is exactly what the pairs
      before it produce, and the loop reports that it did not finish. */
  lemma {:induction false} SetEachStopsAtRejected(w: Sink, m: map<string, string>, pairs: seq<(string, string)>)
    ensures SetEach(w, m, pairs).1 <==> FirstRejected(w, pairs) == |pairs|
    ensures SetEach(w, m, pairs).0 == SetEach(w, m, pairs[..FirstRejected(w, pairs)]).0
    decreases |pairs|
  {
    if pairs != [] && Accepts(w, pairs[0].0) {
      var rest := pairs[1..];
      SetEachStopsAtRejected(w, m[pairs[0].0 := pairs[0].1], rest);
      var i := FirstRejected(w, pairs);
      assert pairs[..i][1..] == rest[..i - 1];
    }
  }

  /** Runs the assignment loop on node `n`: it completes, or throws with the
      pairs before the refused key already written. */
  function Assign(doc: Document, n: NodeId, w: Sink, pairs: seq<(string, string)>): Outcome
    requires n in doc.nodes
  {
    var (m, finished) := SetEach(w, Field(doc.nodes[n], w), pairs);
    var d := WithRecord(doc, n, WithField(doc.nodes[n], w, m));
    if finished then Applied(d) else Threw(d)
  }

  /** The loop completes exactly when every key is accepted, and then the
      last value given for a key wins while unnamed keys keep theirs; when a
      key is refused, the pairs before it stay written. Only the one map of
      the one node changes. */
  lemma AssignEffect(doc: Document, n: NodeId, w: Sink, pairs: seq<(string, string)>)
    requires n in doc.nodes
    ensures var r := Assign(doc, n, w, pairs);
      var before := Field(doc.nodes[n], w);
      var after := Field(r.doc.nodes[n], w);
      && OnlyNodeChanged(doc, r.doc, n)
      && r.doc.nodes[n] == WithField(doc.nodes[n], w, after)
      && (r.Applied? <==> forall i :: 0 <= i < |pairs| ==> Accepts(w, pairs[i].0))
      && (r.Threw? ==> after == SetEach(w, before, pairs[..FirstRejected(w, pairs)]).0)
      && (r.Applied? ==> forall k :: k in NamesOf(pairs) ==>
            k in after && after[k] == pairs[LastIndex(pairs, k)].1)
      && (r.Applied? ==> forall k :: k !in NamesOf(pairs) ==> (k in after <==> k in before))
      && (r.Applied? ==> forall k :: k !in NamesOf(pairs) && k in before ==> after[k] == before[k])
      && (Consistent(doc) ==> Consistent(r.doc))
  {
    var before := Field(doc.nodes[n], w);
    SetEachStopsAtRejected(w, before, pairs);
    var m := SetEach(w, before, pairs).0;
    assert Field(WithField(doc.nodes[n], w, m), w) == m;
    if Consistent(doc) {
      WithRecordConsistent(doc, n, WithField(doc.nodes[n], w, m));
    }
    if forall i :: 0 <= i < |pairs| ==> Accepts(w, pairs[i].0) {
      SetEachLastWins(w, before, pairs);
    }
  }

  // ------- content -------

  /** Setting `textContent` or `innerHTML` replaces everything inside the
      node: its children are detached and the new content is kept opaque. */
  function ReplaceContent(doc: Document, n: NodeId, content: Content): Document
    requires n in doc.nodes
  {
    var kids := doc.nodes[n].children;
    Document(
      map m | m in doc.nodes ::
        if m == n then doc.nodes[n].(content := content, children := [])
        else if m in kids then doc.nodes[m].(parent := None)
        else doc.nodes[m],
      doc.next)
  }

  /** Replacing content sets it, empties the node's child list, clears the
      parent link of each former child, and touches nothing else. */
  lemma ContentEffect(doc: Document, n: NodeId, content: Content)
    requires Consistent(doc) && n in doc.nodes
    ensures var r := ReplaceContent(doc, n, content);
      && Consistent(r)
      && r.next == doc.next && r.nodes.Keys == doc.nodes.Keys
      && r.nodes[n] == doc.nodes[n].(content := content, children := [])
      && (forall m :: m in doc.nodes[n].children ==> r.nodes[m] == doc.nodes[m].(parent := None))
      && (forall m :: m in doc.nodes && m != n && m !in doc.nodes[n].children ==> r.nodes[m] == doc.nodes[m])
  {
    assert n !in doc.nodes[n].children;
    ContentLinksUp(doc, n, content);
    ContentLinksDown(doc, n, content);
    ContentDistinct(doc, n, content);
  }

  lemma ContentLinksUp(doc: Document, n: NodeId, content: Content)
    requires Consistent(doc) && n in doc.nodes
    ensures LinksUp(ReplaceContent(doc, n, content))
  {
    var r := ReplaceContent(doc, n, content);
    forall m | m in r.nodes && r.nodes[m].parent.Some?
      ensures r.nodes[m].parent.value != m
      ensures r.nodes[m].parent.value in r.nodes
      ensures m in r.nodes[r.nodes[m].parent.value].children
    {
      ContentParentLink(doc, n, content, m);
    }
  }

  /** A parent link that survives the content replacement was there before
      and did not lead to `n`. */
  lemma ContentParentLink(doc: Document, n: NodeId, content: Content, m: NodeId)
    requires LinksUp(doc) && n in doc.nodes
    requires m in doc.nodes && ReplaceContent(doc, n, content).nodes[m].parent.Some?
    ensures var r := ReplaceContent(doc, n, content);
      var p := r.nodes[m].parent.value;
      && p == doc.nodes[m].parent.value && p != n && p != m && p in r.nodes
      && r.nodes[p].children == doc.nodes[p].children && m in r.nodes[p].children
  {
    var r := ReplaceContent(doc, n, content);
    var kids := doc.nodes[n].children;
    assert m !in kids && m != n ==> r.nodes[m] == doc.nodes[m];
    if m == n {
      assert r.nodes[m].parent == doc.nodes[n].parent;
    }
    var p := doc.nodes[m].parent.value;
  }

  lemma ContentLinksDown(doc: Document, n: NodeId, content: Content)
    requires Consistent(doc) && n in doc.nodes
    ensures LinksDown(ReplaceContent(doc, n, content))
  {
    var r := ReplaceContent(doc, n, content);
    var kids := doc.nodes[n].children;
    forall q, c | q in r.nodes && c in r.nodes[q].children
      ensures c in r.nodes && r.nodes[c].parent == Some(q)
    {
      assert q != n;
      assert c in doc.nodes[q].children;
      assert c !in kids;
    }
  }

  lemma ContentDistinct(doc: Document, n: NodeId, content: Content)
    requires Consistent(doc) && n in doc.nodes
    ensures ChildListsDistinct(ReplaceContent(doc, n, content))
  {
    var r := ReplaceContent(doc, n, content);
    forall q | q in r.nodes ensures NoDuplicates(r.nodes[q].children) {
      assert NoDuplicates(doc.nodes[q].children);
    }
  }

  // ------- tree links -------

  /** The insertion half of `appendChild`, once the child is detached. */
  function Linked(doc: Document, n: NodeId, child: NodeId): Document
    requires n in doc.nodes && child in doc.nodes
  {
    var nodes1 := doc.nodes[n := doc.nodes[n].(children := doc.nodes[n].children + [child])];
    Document(nodes1[child := doc.nodes[child].(parent := Some(n))], doc.next)
  }

  lemma LinkedConsistent(doc: Document, n: NodeId, child: NodeId)
    requires Consistent(doc)
    requires n in doc.nodes && child in doc.nodes && n != child
    requires doc.nodes[child].parent.None?
    ensures Consistent(Linked(doc, n, child))
  {
    LinkedLinksUp(doc, n, child);
    LinkedLinksDown(doc, n, child);
    LinkedDistinct(doc, n, child);
  }

  lemma LinkedLinksUp(doc: Document, n: NodeId, child: NodeId)
    requires Consistent(doc)
    requires n in doc.nodes && child in doc.nodes && n != child
    requires doc.nodes[child].parent.None?
    ensures LinksUp(Linked(doc, n, child))
  {
    var r := Linked(doc, n, child);
    forall m | m in r.nodes && r.nodes[m].parent.Some?
      ensures r.nodes[m].parent.value != m
      ensures r.nodes[m].parent.value in r.nodes
      ensures m in r.nodes[r.nodes[m].parent.value].children
    {
      if m != child {
        assert r.nodes[m].parent == doc.nodes[m].parent;
      }
    }
  }

  lemma LinkedLinksDown(doc: Document, n: NodeId, child: NodeId)
    requires Consistent(doc)
    requires n in doc.nodes && child in doc.nodes && n != child
    requires doc.nodes[child].parent.None?
    ensures LinksDown(Linked(doc, n, child))
  {
    var r := Linked(doc, n, child);
    assert forall q :: q in doc.nodes ==> child !in doc.nodes[q].children;
    forall q, c | q in r.nodes && c in r.nodes[q].children
      ensures c in r.nodes && r.nodes[c].parent == Some(q)
    {
      if c != child {
        assert c in doc.nodes[q].children;
      } else {
        assert q == n;
      }
    }
  }

  lemma LinkedDistinct(doc: Document, n: NodeId, child: NodeId)
    requires Consistent(doc)
    requires n in doc.nodes && child in doc.nodes && n != child
    requires doc.nodes[child].parent.None?
    ensures ChildListsDistinct(Linked(doc, n, child))
  {
    var r := Linked(doc, n, child);
    assert child !in doc.nodes[n].children;
    forall q | q in r.nodes ensures NoDuplicates(r.nodes[q].children) {
      assert NoDuplicates(doc.nodes[q].children);
    }
  }

  /** `appendChild` per the DOM's pre-insert algorithm (WHATWG DOM Living
      Standard, section 4.2.3): a child that is an inclusive ancestor of the
      target raises "HierarchyRequestError"; otherwise it is first removed
      from its old parent, then becomes the target's last child. */
  function AppendChild(doc: Document, n: NodeId, child: NodeId): Outcome
    requires n in doc.nodes
  {
    if child !in doc.nodes || IsInclusiveAncestor(doc, child, n) then Threw(doc)
    else Applied(Linked(Detach(doc, child), n, child))
  }

  /** `appendChild` succeeds exactly when the child exists and is not an
      inclusive ancestor of the target; it keeps the document consistent,
      and a failure changes nothing. */
  lemma AppendEffect(doc: Document, n: NodeId, child: NodeId)
    requires Consistent(doc) && n in doc.nodes
    ensures var r := AppendChild(doc, n, child);
      && Consistent(r.doc)
      && r.doc.next == doc.next && r.doc.nodes.Keys == doc.nodes.Keys
      && (r.Applied? <==> child in doc.nodes && !IsInclusiveAncestor(doc, child, n))
      && (r.Threw? ==> r.doc == doc)
  {
    if child in doc.nodes && !IsInclusiveAncestor(doc, child, n) {
      ParentIsAncestor(doc, n);
      DetachEffect(doc, child);
      DetachConsistent(doc, child);
      LinkedConsistent(Detach(doc, child), n, child);
    }
  }

  /** After a successful `appendChild` the child is the target's last child
      and appears there once, its old parent lost it, and no other record
      changed. */
  lemma AppendMovesChild(doc: Document, n: NodeId, child: NodeId)
    requires Consistent(doc) && n in doc.nodes
    requires AppendChild(doc, n, child).Applied?
    ensures var r := AppendChild(doc, n, child).doc;
      && r.nodes[child] == doc.nodes[child].(parent := Some(n))
      && r.nodes[n] == doc.nodes[n].(children := Without(doc.nodes[n].children, child) + [child])
      && (forall m :: m in doc.nodes && m != n && m != child && Some(m) != doc.nodes[child].parent ==>
            r.nodes[m] == doc.nodes[m])
      && (doc.nodes[child].parent.Some? && doc.nodes[child].parent.value != n ==>
            var p := doc.nodes[child].parent.value;
            r.nodes[p] == doc.nodes[p].(children := Without(doc.nodes[p].children, child)))
  {
    ParentIsAncestor(doc, n);
    DetachEffect(doc, child);
    DetachConsistent(doc, child);
    var d := Detach(doc, child);
    assert d.nodes[n].children == Without(doc.nodes[n].children, child) by {
      if doc.nodes[child].parent != Some(n) {
        assert child !in doc.nodes[n].children;
      }
    }
  }

  /** The rank after linking `child` under a node of rank `lift - 1`: the
      child and every node below it move up by `lift`. */
  function Lift(doc: Document, rank: map<NodeId, nat>, child: NodeId, lift: nat, x: NodeId): nat
    requires RankedBy(doc, rank) && x in doc.nodes
  {
    rank[x] + (if AncestorWithin(doc, child, x, rank[x]) then lift else 0)
  }

  /** A parent link that linking leaves alone still goes down in rank:
      both ends move up together, or neither does. */
  lemma LiftKeepsLink(doc: Document, rank: map<NodeId, nat>, child: NodeId, lift: nat, m: NodeId)
    requires LinksUp(doc) && RankedBy(doc, rank)
    requires m in doc.nodes && m != child && doc.nodes[m].parent.Some?
    ensures doc.nodes[m].parent.value in doc.nodes
    ensures Lift(doc, rank, child, lift, doc.nodes[m].parent.value) < Lift(doc, rank, child, lift, m)
  {
    var p := doc.nodes[m].parent.value;
    if AncestorWithin(doc, child, m, rank[m]) {
      AncestorWithinRank(doc, rank, child, p, rank[m] - 1);
    } else if AncestorWithin(doc, child, p, rank[p]) {
      AncestorMono(doc, child, p, rank[p], rank[m] - 1);
      assert false;
    }
  }

  /** Linking a detached child under a node it is not an ancestor of keeps
      parent links free of cycles. */
  lemma LinkedKeepsAcyclic(doc: Document, n: NodeId, child: NodeId, rank: map<NodeId, nat>)
    requires LinksUp(doc) && RankedBy(doc, rank)
    requires n in doc.nodes && child in doc.nodes && n != child
    requires doc.nodes[child].parent.None?
    requires !AncestorWithin(doc, child, n, rank[n])
    ensures Acyclic(Linked(doc, n, child))
  {
    var lift := rank[n] + 1;
    var rank2 := map m | m in doc.nodes :: Lift(doc, rank, child, lift, m);
    var r := Linked(doc, n, child);
    forall m | m in r.nodes && r.nodes[m].parent.Some? && r.nodes[m].parent.value in r.nodes
      ensures rank2[r.nodes[m].parent.value] < rank2[m]
    {
      if m == child {
        assert AncestorWithin(doc, child, child, rank[child]);
        assert r.nodes[m].parent.value == n;
      } else {
        assert r.nodes[m] == doc.nodes[m].(children := r.nodes[m].children);
        LiftKeepsLink(doc, rank, child, lift, m);
      }
    }
    assert RankedBy(r, rank2);
  }

  /** `appendChild` never closes a cycle: an append that would is one its
      inclusive-ancestor check refuses. */
  lemma AppendKeepsAcyclic(doc: Document, n: NodeId, child: NodeId)
    requires Consistent(doc) && Acyclic(doc) && n in doc.nodes
    ensures Acyclic(AppendChild(doc, n, child).doc)
  {
    if child in doc.nodes && !IsInclusiveAncestor(doc, child, n) {
      var rank :| RankedBy(doc, rank);
      var d := Detach(doc, child);
      DetachCuts(doc, child);
      DetachEffect(doc, child);
      DetachConsistent(doc, child);
      assert RankedBy(d, rank);
      if AncestorWithin(d, child, n, rank[n]) {
        CutAncestor(doc, d, child, n, rank[n]);
        AncestorExact(doc, child, n, rank[n]);
        assert false;
      }
      LinkedKeepsAcyclic(d, n, child, rank);
    }
  }

  // ------- dispatch -------

  /** Runs one queued closure. A command aimed at anything but an element of
      the document counts as a host exception. No command creates or
      destroys a node. */
  function Apply(doc: Document, c: Command): (r: Outcome)
    ensures r.doc.next == doc.next && r.doc.nodes.Keys == doc.nodes.Keys
  {
    if !IsElement(doc, c.target) then Threw(doc)
    else
      match c
      case SetStyle(n, pairs) => Assign(doc, n, InlineStyle, pairs)
      case AddClass(n, tokens) => AddTokens(doc, n, tokens)
      case RemoveClass(n, tokens) => RemoveTokens(doc, n, tokens)
      case SetAttrs(n, pairs) => Assign(doc, n, Attributes, pairs)
      case SetText(n, text) => Applied(ReplaceContent(doc, n, TextContent(text)))
      case SetHtml(n, html) => Applied(ReplaceContent(doc, n, Markup(html)))
      case Append(n, child) =>
        if child.None? then Threw(doc) else AppendChild(doc, n, child.value)
      case Remove(n) => Applied(Detach(doc, n))
  }

  /** Every command keeps the host tree consistent, whether it runs to the
      end or throws part-way, and a throw leaves the document as it was,
      except for the pairs a `style` or `attr` loop wrote before the refused
      key. */
  lemma ApplyKeepsConsistent(doc: Document, c: Command)
    requires Consistent(doc)
    ensures var r := Apply(doc, c);
      && Consistent(r.doc)
      && (!IsElement(doc, c.target) ==> r == Threw(doc))
      && (r.Threw? && !c.SetStyle? && !c.SetAttrs? ==> r.doc == doc)
      && (c.Append? && c.child.None? ==> r == Threw(doc))
  {
    if IsElement(doc, c.target) {
      match c
      case SetStyle(n, pairs) => AssignEffect(doc, n, InlineStyle, pairs);
      case AddClass(n, tokens) => ClassEffect(doc, n, tokens);
      case RemoveClass(n, tokens) => ClassEffect(doc, n, tokens);
      case SetAttrs(n, pairs) => AssignEffect(doc, n, Attributes, pairs);
      case SetText(n, text) => ContentEffect(doc, n, TextContent(text));
      case SetHtml(n, html) => ContentEffect(doc, n, Markup(html));
      case Append(n, child) => if child.Some? { AppendEffect(doc, n, child.value); }
      case Remove(n) => DetachConsistent(doc, n);
    }
  }

  /** A `style` object with a read-only key such as `length` makes the
      closure throw at that key, after the properties listed before it have
      been written. */
  lemma StyleStopsAtReadOnlyKey(doc: Document, n: NodeId, written: seq<(string, string)>, v: string,
                                unreached: seq<(string, string)>)
    requires IsElement(doc, n)
    requires forall i :: 0 <= i < |written| ==> WritableStyleKey(written[i].0)
    ensures var r := Apply(doc, SetStyle(n, written + [("length", v)] + unreached));
      && r.Threw?
      && r.doc.nodes[n].style == SetEach(InlineStyle, doc.nodes[n].style, written).0
  {
    var pairs := written + [("length", v)] + unreached;
    FirstRejectedAt(InlineStyle, written, ("length", v), unreached);
    SetEachStopsAtRejected(InlineStyle, doc.nodes[n].style, pairs);
    assert Apply(doc, SetStyle(n, pairs)) == Assign(doc, n, InlineStyle, pairs);
  }

  lemma FirstRejectedAt(w: Sink, written: seq<(string, string)>, bad: (string, string), rest: seq<(string, string)>)
    requires forall i :: 0 <= i < |written| ==> Accepts(w, written[i].0)
    requires !Accepts(w, bad.0)
    ensures FirstRejected(w, written + [bad] + rest) == |written|
    ensures (written + [bad] + rest)[..|written|] == written
  {
    var pairs := written + [bad] + rest;
    assert pairs[|written|] == bad;
    assert forall i :: 0 <= i < |written| ==> pairs[i] == written[i];
  }

  /** No command makes a cycle: `append` by its ancestor check, the others
      because they only keep or clear parent links. */
  lemma ApplyKeepsAcyclic(doc: Document, c: Command)
    requires Consistent(doc) && Acyclic(doc)
    ensures Acyclic(Apply(doc, c).doc)
  {
    if IsElement(doc, c.target) {
      match c
      case Append(n, child) => if child.Some? { AppendKeepsAcyclic(doc, n, child.value); }
      case Remove(n) =>
        DetachCuts(doc, n);
        CutKeepsAcyclic(doc, Apply(doc, c).doc);
      case _ =>
        assert LinksCut(doc, Apply(doc, c).doc);
        CutKeepsAcyclic(doc, Apply(doc, c).doc);
    }
  }

  // ------- what a command leaves alone -------

  /** A command changes a node's content only when it is a `text` or `html`
      command aimed at that node, which sets it. */
  lemma ApplyContent(doc: Document, c: Command, x: NodeId)
    requires x in doc.nodes
    requires Apply(doc, c).Applied?
    ensures Apply(doc, c).doc.nodes[x].content ==
      if c.SetText? && c.target == x then TextContent(c.text)
      else if c.SetHtml? && c.target == x then Markup(c.html)
      else doc.nodes[x].content
  {
    match c
    case Append(n, child) => DetachKeepsPayload(doc, child.value);
    case Remove(n) => DetachKeepsPayload(doc, n);
    case _ =>
  }
}
