/** `DOM.create`: makes the element at once, then queues, through the handle
    methods, one command per option present and one `append` per child, in a
    fixed order. The lookup helpers of the `DOM` object are not modelled. */
module Facade {
  import opened Wrappers
  import opened Tokens
  import opened Tree
  import opened Ancestry
  import C = Commands
  import opened MutationQueue
  import opened Handles

  /** One entry of `children`: a string becomes a new text node; a handle or
      a raw node is appended as the node it is; any other value (`null`, a
      number) is passed on as it is, for `appendChild` to reject. */
  datatype Child = Str(text: string) | Existing(node: NodeId) | NotANode

  /** `children` is either an array or a single entry, which is wrapped. */
  datatype Children = One(child: Child) | Many(list: seq<Child>)

  function ChildList(children: Children): seq<Child> {
    match children
    case One(c) => [c]
    case Many(cs) => cs
  }

  /** The options `create` reads; `None` stands for `null`, `undefined` or a
      missing key. */
  datatype Props = Props(
    className: Option<string>,
    text: Option<string>,
    html: Option<string>,
    attr: Option<seq<(string, string)>>,
    style: Option<seq<(string, string)>>)

  /** Whether `create` queues a class command: only a non-empty class
      string is truthy. */
  predicate HasClass(p: Props) {
    p.className.Some? && p.className.value != ""
  }

  /** Where each command kind sits in `create`'s fixed order. */
  function Stage(c: C.Command): nat {
    match c
    case AddClass(_, _) => 0
    case SetText(_, _) => 1
    case SetHtml(_, _) => 2
    case SetAttrs(_, _) => 3
    case SetStyle(_, _) => 4
    case Append(_, _) => 5
    case RemoveClass(_, _) => 6
    case Remove(_) => 6
  }

  // One function per option `create` looks at: the command that option
  // queues when it is present, or nothing.

  function ClassCommand(id: NodeId, p: Props): seq<C.Command> {
    if HasClass(p) then [C.AddClass(id, Split(p.className.value))] else []
  }

  function TextCommand(id: NodeId, p: Props): seq<C.Command> {
    if p.text.Some? then [C.SetText(id, p.text.value)] else []
  }

  function HtmlCommand(id: NodeId, p: Props): seq<C.Command> {
    if p.html.Some? then [C.SetHtml(id, p.html.value)] else []
  }

  function AttrCommand(id: NodeId, p: Props): seq<C.Command> {
    if p.attr.Some? then [C.SetAttrs(id, p.attr.value)] else []
  }

  function StyleCommand(id: NodeId, p: Props): seq<C.Command> {
    if p.style.Some? then [C.SetStyle(id, p.style.value)] else []
  }

  /** The commands `create` queues for its options, before the children. */
  function OptionCommands(id: NodeId, p: Props): seq<C.Command> {
    ClassCommand(id, p) + TextCommand(id, p) + HtmlCommand(id, p) + AttrCommand(id, p) + StyleCommand(id, p)
  }

  /** Commands in strictly rising stage order. */
  predicate Staged(q: seq<C.Command>) {
    forall i, j :: 0 <= i < j < |q| ==> Stage(q[i]) < Stage(q[j])
  }

  /** Every command of `q` aims at `id` and sits at a stage below `k`. */
  predicate AimedBelow(q: seq<C.Command>, id: NodeId, k: nat) {
    forall i :: 0 <= i < |q| ==> q[i].target == id && Stage(q[i]) < k
  }

  /** Appending at most one command of stage `k` aimed at `id` to a staged
      queue aimed at `id` below stage `k` keeps it staged, below `k + 1`. */
  lemma StagedSnoc(q: seq<C.Command>, extra: seq<C.Command>, id: NodeId, k: nat)
    requires Staged(q) && AimedBelow(q, id, k)
    requires |extra| <= 1 && forall i :: 0 <= i < |extra| ==> extra[i].target == id && Stage(extra[i]) == k
    ensures Staged(q + extra) && AimedBelow(q + extra, id, k + 1)
  {
    var r := q + extra;
    forall i, j | 0 <= i < j < |r| ensures Stage(r[i]) < Stage(r[j]) {
      assert r[i] == q[i];
    }
    forall i | 0 <= i < |r| ensures r[i].target == id && Stage(r[i]) < k + 1 {
      if i < |q| {
        assert r[i] == q[i];
      } else {
        assert r[i] == extra[i - |q|];
      }
    }
  }

  /** The option commands all aim at the new node and come in strictly
      rising stage order — class, text, html, attr, style — ahead of any
      append. */
  lemma OptionCommandsOrder(id: NodeId, p: Props)
    ensures AimedBelow(OptionCommands(id, p), id, 5)
    ensures Staged(OptionCommands(id, p))
  {
    var a := ClassCommand(id, p);
    var t := TextCommand(id, p);
    var h := HtmlCommand(id, p);
    var r := AttrCommand(id, p);
    var s := StyleCommand(id, p);
    assert [] + a == a;
    StagedSnoc([], a, id, 0);
    StagedSnoc(a, t, id, 1);
    StagedSnoc(a + t, h, id, 2);
    StagedSnoc(a + t + h, r, id, 3);
    StagedSnoc(a + t + h + r, s, id, 4);
  }

  /** What each option test of `create` contributes, one option at a time. */
  lemma OptionLines(id: NodeId, p: Props)
    ensures HasClass(p) ==> C.AddClass(id, Split(p.className.value)) in ClassCommand(id, p)
    ensures forall c :: c in ClassCommand(id, p) ==> HasClass(p) && c == C.AddClass(id, Split(p.className.value))
    ensures p.text.Some? ==> C.SetText(id, p.text.value) in TextCommand(id, p)
    ensures forall c :: c in TextCommand(id, p) ==> p.text.Some? && c == C.SetText(id, p.text.value)
    ensures p.html.Some? ==> C.SetHtml(id, p.html.value) in HtmlCommand(id, p)
    ensures forall c :: c in HtmlCommand(id, p) ==> p.html.Some? && c == C.SetHtml(id, p.html.value)
    ensures p.attr.Some? ==> C.SetAttrs(id, p.attr.value) in AttrCommand(id, p)
    ensures forall c :: c in AttrCommand(id, p) ==> p.attr.Some? && c == C.SetAttrs(id, p.attr.value)
    ensures p.style.Some? ==> C.SetStyle(id, p.style.value) in StyleCommand(id, p)
    ensures forall c :: c in StyleCommand(id, p) ==> p.style.Some? && c == C.SetStyle(id, p.style.value)
  {
  }
  /** Each option present contributes its command, and it is the only
      command of its kind; an absent option (a falsy `class`, a `null` text)
      contributes none; no option queues an append or a removal. */
  lemma OptionCommandsPresence(id: NodeId, p: Props)
    ensures var opts := OptionCommands(id, p);
      && (HasClass(p) ==> C.AddClass(id, Split(p.className.value)) in opts)
      && (forall c :: c in opts && c.AddClass? ==> HasClass(p) && c == C.AddClass(id, Split(p.className.value)))
      && (p.text.Some? ==> C.SetText(id, p.text.value) in opts)
      && (forall c :: c in opts && c.SetText? ==> p.text.Some? && c == C.SetText(id, p.text.value))
      && (p.html.Some? ==> C.SetHtml(id, p.html.value) in opts)
      && (forall c :: c in opts && c.SetHtml? ==> p.html.Some? && c == C.SetHtml(id, p.html.value))
      && (p.attr.Some? ==> C.SetAttrs(id, p.attr.value) in opts)
      && (forall c :: c in opts && c.SetAttrs? ==> p.attr.Some? && c == C.SetAttrs(id, p.attr.value))
      && (p.style.Some? ==> C.SetStyle(id, p.style.value) in opts)
      && (forall c :: c in opts && c.SetStyle? ==> p.style.Some? && c == C.SetStyle(id, p.style.value))
      && (forall c :: c in opts ==> !c.Append? && !c.RemoveClass? && !c.Remove?)
  {
    OptionLines(id, p);
    var a, t, h, r, st := ClassCommand(id, p), TextCommand(id, p), HtmlCommand(id, p),
      AttrCommand(id, p), StyleCommand(id, p);
    assert forall c :: c in OptionCommands(id, p) ==> c in a || c in t || c in h || c in r || c in st;
  }

  /** How many string children `kids` holds: the text nodes it makes. */
  function StrCount(kids: seq<Child>): nat
    decreases |kids|
  {
    if kids == [] then 0
    else StrCount(kids[..|kids| - 1]) + (if kids[|kids| - 1].Str? then 1 else 0)
  }

  /** The id the text node for a string at position `i` gets: numbered after
      those made for the strings before it. */
  function TextId(kids: seq<Child>, i: nat, next: NodeId): NodeId
    requires i < |kids|
  {
    next + StrCount(kids[..i])
  }

  /** What the `i`-th child is appended as: the node itself, the text node
      created for it, or no node at all. */
  function ChildId(kids: seq<Child>, i: nat, next: NodeId): Option<NodeId>
    requires i < |kids|
  {
    match kids[i]
    case Existing(n) => Some(n)
    case Str(_) => Some(TextId(kids, i, next))
    case NotANode => None
  }

  /** One `append` per child, in order. */
  function AppendCommands(id: NodeId, kids: seq<Child>, next: NodeId): seq<C.Command> {
    seq(|kids|, i requires 0 <= i < |kids| => C.Append(id, ChildId(kids, i, next)))
  }

  /** One round of the loop over the children: a string child gets its text
      node created at once, then the child's node is appended through the
      handle. */
  function AppendOne(s: Scheduler, h: Handle, kid: Child): (r: Scheduler)
    requires IdsBelowNext(s.doc)
    ensures IdsBelowNext(r.doc) && r.loop == s.loop
    ensures r.doc.next == s.doc.next + (if kid.Str? then 1 else 0)
    ensures forall m :: m in s.doc.nodes ==> m in r.doc.nodes && r.doc.nodes[m] == s.doc.nodes[m]
    ensures kid.Str? ==>
      && s.doc.next !in s.doc.nodes && s.doc.next in r.doc.nodes
      && r.doc.nodes[s.doc.next] == Blank(TextNode(kid.text))
    ensures r.queue == s.queue + [C.Append(h.id,
      if kid.Str? then Some(s.doc.next) else if kid.Existing? then Some(kid.node) else None)]
  {
    match kid
    case Existing(n) => Handles.Append(s, h, Some(n)).0
    case NotANode => Handles.Append(s, h, None).0
    case Str(t) =>
      var (d, x) := Allocate(s.doc, TextNode(t));
      assert IdsBelowNext(d);
      Handles.Append(s.(doc := d), h, Some(x)).0
  }

  /** The loop of `create` over its children: one text node
      per string child, numbered in order; one `append` per child, in order;
      no existing node touched. */
  function AppendChildren(s: Scheduler, h: Handle, kids: seq<Child>): (r: Scheduler)
    requires IdsBelowNext(s.doc)
    ensures IdsBelowNext(r.doc) && r.loop == s.loop
    ensures r.doc.next == s.doc.next + StrCount(kids)
    ensures forall m :: m in s.doc.nodes ==> m in r.doc.nodes && r.doc.nodes[m] == s.doc.nodes[m]
    ensures r.queue == s.queue + AppendCommands(h.id, kids, s.doc.next)
    decreases |kids|
  {
    if kids == [] then s
    else
      var last := |kids| - 1;
      var s1 := AppendChildren(s, h, kids[..last]);
      AppendCommandsSnoc(h.id, kids, s.doc.next);
      assert kids[last].Str? ==> ChildId(kids, last, s.doc.next) == Some(s1.doc.next);
      AppendOne(s1, h, kids[last])
  }

  /** The `i`-th child, when a string, is the blank text node `TextId`
      names, and these nodes are made in the order of the children. */
  lemma AppendChildrenTextNodes(s: Scheduler, h: Handle, kids: seq<Child>)
    requires IdsBelowNext(s.doc)
    ensures var r := AppendChildren(s, h, kids);
      forall i :: 0 <= i < |kids| && kids[i].Str? ==>
        TextId(kids, i, s.doc.next) in r.doc.nodes
        && r.doc.nodes[TextId(kids, i, s.doc.next)] == Blank(TextNode(kids[i].text))
  {
    forall i | 0 <= i < |kids| && kids[i].Str?
      ensures var r := AppendChildren(s, h, kids);
        TextId(kids, i, s.doc.next) in r.doc.nodes
        && r.doc.nodes[TextId(kids, i, s.doc.next)] == Blank(TextNode(kids[i].text))
    {
      TextNodeAt(s, h, kids, i);
    }
  }

  /** The same for one string child: made by its own round of the loop, and
      left alone by every later round. */
  lemma {:induction false} TextNodeAt(s: Scheduler, h: Handle, kids: seq<Child>, i: nat)
    requires IdsBelowNext(s.doc) && i < |kids| && kids[i].Str?
    ensures var r := AppendChildren(s, h, kids);
      TextId(kids, i, s.doc.next) in r.doc.nodes
      && r.doc.nodes[TextId(kids, i, s.doc.next)] == Blank(TextNode(kids[i].text))
    decreases |kids|
  {
    var last := |kids| - 1;
    var s1 := AppendChildren(s, h, kids[..last]);
    AppendChildrenSnoc(s, h, kids);
    var r := AppendOne(s1, h, kids[last]);
    var x := TextId(kids, i, s.doc.next);
    if i < last {
      TextNodeAt(s, h, kids[..last], i);
      TextIdPrefix(kids, i, s.doc.next);
      assert x in s1.doc.nodes && s1.doc.nodes[x] == Blank(TextNode(kids[i].text));
      assert r.doc.nodes[x] == s1.doc.nodes[x];
    } else {
      assert x == s1.doc.next;
      assert r.doc.nodes[x] == Blank(TextNode(kids[i].text));
    }
  }

  /** Dropping the last child renumbers no earlier text node. */
  lemma TextIdPrefix(kids: seq<Child>, i: nat, next: NodeId)
    requires i < |kids| - 1
    ensures kids[..|kids| - 1][i] == kids[i]
    ensures TextId(kids[..|kids| - 1], i, next) == TextId(kids, i, next)
  {
    assert kids[..|kids| - 1][..i] == kids[..i];
  }

  /** The last round of the loop runs after all the others. */
  lemma AppendChildrenSnoc(s: Scheduler, h: Handle, kids: seq<Child>)
    requires IdsBelowNext(s.doc) && kids != []
    ensures IdsBelowNext(AppendChildren(s, h, kids[..|kids| - 1]).doc)
    ensures AppendChildren(s, h, kids) == AppendOne(AppendChildren(s, h, kids[..|kids| - 1]), h, kids[|kids| - 1])
  {
  }

  lemma AppendCommandsSnoc(id: NodeId, kids: seq<Child>, next: NodeId)
    requires kids != []
    ensures AppendCommands(id, kids, next) ==
      AppendCommands(id, kids[..|kids| - 1], next) + [C.Append(id, ChildId(kids, |kids| - 1, next))]
  {
    var init := kids[..|kids| - 1];
    forall i | 0 <= i < |init| ensures ChildId(init, i, next) == ChildId(kids, i, next) {
      assert init[..i] == kids[..i];
    }
  }

  // The option half of `create`: each present option is passed to the
  // matching handle method, one function per option.

  function QueueClass(s: Scheduler, h: Handle, p: Props): (r: Scheduler)
    ensures r == s.(queue := s.queue + ClassCommand(h.id, p))
  {
    if HasClass(p) then AddClass(s, h, Split(p.className.value)).0 else s
  }

  function QueueText(s: Scheduler, h: Handle, p: Props): (r: Scheduler)
    ensures r == s.(queue := s.queue + TextCommand(h.id, p))
  {
    if p.text.Some? then Text(s, h, p.text.value).0 else s
  }

  function QueueHtml(s: Scheduler, h: Handle, p: Props): (r: Scheduler)
    ensures r == s.(queue := s.queue + HtmlCommand(h.id, p))
  {
    if p.html.Some? then Html(s, h, p.html.value).0 else s
  }

  function QueueAttr(s: Scheduler, h: Handle, p: Props): (r: Scheduler)
    ensures r == s.(queue := s.queue + AttrCommand(h.id, p))
  {
    if p.attr.Some? then Attr(s, h, p.attr.value).0 else s
  }

  function QueueStyle(s: Scheduler, h: Handle, p: Props): (r: Scheduler)
    ensures r == s.(queue := s.queue + StyleCommand(h.id, p))
  {
    if p.style.Some? then Style(s, h, p.style.value).0 else s
  }

  function QueueOptions(s: Scheduler, h: Handle, p: Props): (r: Scheduler)
    ensures r == s.(queue := s.queue + OptionCommands(h.id, p))
  {
    var a, t, m, n, st := ClassCommand(h.id, p), TextCommand(h.id, p), HtmlCommand(h.id, p),
      AttrCommand(h.id, p), StyleCommand(h.id, p);
    var s1 := QueueClass(s, h, p);
    var s2 := QueueText(s1, h, p);
    var s3 := QueueHtml(s2, h, p);
    var s4 := QueueAttr(s3, h, p);
    Assoc(s.queue, a + t + m + n, st);
    Assoc(s.queue, a + t + m, n);
    Assoc(s.queue, a + t, m);
    Assoc(s.queue, a, t);
    QueueStyle(s4, h, p)
  }

  lemma Assoc(x: seq<C.Command>, y: seq<C.Command>, z: seq<C.Command>)
    ensures x + (y + z) == x + y + z
  {
  }

  /** Everything `create` queues for the element `id`: the option commands,
      then one `append` per child, text nodes numbered from `id + 1`. */
  function CreateCommands(id: NodeId, p: Props, kids: seq<Child>): seq<C.Command> {
    OptionCommands(id, p) + AppendCommands(id, kids, id + 1)
  }

  /** A new element named `tag`, made by the host at once and wrapped in a
      fresh handle. */
  function NewElement(s: Scheduler, tag: string): (r: (Scheduler, Handle))
    requires IdsBelowNext(s.doc)
    ensures r.1.id == s.doc.next && r.1.id !in s.doc.nodes
    ensures r.0 == s.(doc := Document(s.doc.nodes[r.1.id := Blank(Element(tag))], s.doc.next + 1))
    ensures IdsBelowNext(r.0.doc)
  {
    var p := Allocate(s.doc, Element(tag));
    (s.(doc := p.0), Handle(p.1))
  }

  /** `DOM.create`: the element is created at once and
      blank; text nodes for string children are created at once, after it;
      nothing else in the document changes; and the queue grows by the option
      commands followed by one `append` per child. */
  function Create(s: Scheduler, tag: string, props: Props, children: Children): (r: (Scheduler, Handle))
    requires IdsBelowNext(s.doc)
    ensures IdsBelowNext(r.0.doc) && r.0.loop == s.loop
    ensures r.1.id == s.doc.next && r.1.id !in s.doc.nodes
    ensures r.1.id in r.0.doc.nodes && r.0.doc.nodes[r.1.id] == Blank(Element(tag))
    ensures forall m :: m in s.doc.nodes ==> m in r.0.doc.nodes && r.0.doc.nodes[m] == s.doc.nodes[m]
    ensures r.0.doc.next == s.doc.next + 1 + StrCount(ChildList(children))
    ensures r.0.queue ==
      s.queue + CreateCommands(r.1.id, props, ChildList(children))
  {
    var e := NewElement(s, tag);
    var s1 := QueueOptions(e.0, e.1, props);
    Assoc(s.queue, OptionCommands(e.1.id, props), AppendCommands(e.1.id, ChildList(children), e.1.id + 1));
    (AppendChildren(s1, e.1, ChildList(children)), e.1)
  }

  /** Each string child becomes a new blank text node, numbered after the
      element in the order of the children. */
  lemma CreateTextNodes(s: Scheduler, tag: string, props: Props, children: Children)
    requires IdsBelowNext(s.doc)
    ensures var (r, h) := Create(s, tag, props, children);
      var kids := ChildList(children);
      forall i :: 0 <= i < |kids| && kids[i].Str? ==>
        var x := TextId(kids, i, h.id + 1);
        && x !in s.doc.nodes && x != h.id && x in r.doc.nodes
        && r.doc.nodes[x] == Blank(TextNode(kids[i].text))
  {
    var e := NewElement(s, tag);
    var s1 := QueueOptions(e.0, e.1, props);
    var kids := ChildList(children);
    var r := AppendChildren(s1, e.1, kids);
    assert Create(s, tag, props, children) == (r, e.1);
    assert s1.doc.next == e.1.id + 1;
    AppendChildrenTextNodes(s1, e.1, kids);
    forall i | 0 <= i < |kids| && kids[i].Str?
      ensures TextId(kids, i, e.1.id + 1) !in s.doc.nodes
    {
      assert TextId(kids, i, e.1.id + 1) >= s.doc.next;
    }
  }

  /** Creating nodes keeps the host document consistent and free of cycles:
      each new node is blank and detached, and no existing record changes. */
  lemma CreateKeepsConsistent(s: Scheduler, tag: string, props: Props, children: Children)
    requires Consistent(s.doc)
    ensures Consistent(Create(s, tag, props, children).0.doc)
    ensures Acyclic(s.doc) ==> Acyclic(Create(s, tag, props, children).0.doc)
  {
    var e := NewElement(s, tag);
    AllocateFresh(s.doc, Element(tag));
    if Acyclic(s.doc) {
      AllocateKeepsAcyclic(s.doc, Element(tag));
    }
    AppendChildrenKeepsConsistent(QueueOptions(e.0, e.1, props), e.1, ChildList(children));
  }

  lemma {:induction false} AppendChildrenKeepsConsistent(s: Scheduler, h: Handle, kids: seq<Child>)
    requires Consistent(s.doc)
    ensures Consistent(AppendChildren(s, h, kids).doc)
    ensures Acyclic(s.doc) ==> Acyclic(AppendChildren(s, h, kids).doc)
    decreases |kids|
  {
    if kids != [] {
      var last := |kids| - 1;
      var s1 := AppendChildren(s, h, kids[..last]);
      AppendChildrenKeepsConsistent(s, h, kids[..last]);
      if kids[last].Str? {
        AllocateFresh(s1.doc, TextNode(kids[last].text));
        if Acyclic(s1.doc) {
          AllocateKeepsAcyclic(s1.doc, TextNode(kids[last].text));
        }
      }
    }
  }

  // ------- what a created element ends up with -------

  /** Among `create`'s options, `html` is queued after `text`, so it wins;
      the other options leave the content alone. */
  lemma OptionContent(id: NodeId, p: Props, before: Content)
    ensures LastContent(OptionCommands(id, p), id, before) ==
      if p.html.Some? then Markup(p.html.value)
      else if p.text.Some? then TextContent(p.text.value)
      else before
  {
    var a, t, h, r, st := ClassCommand(id, p), TextCommand(id, p), HtmlCommand(id, p),
      AttrCommand(id, p), StyleCommand(id, p);
    LastContentConcat(a + t + h + r, st, id, before);
    LastContentConcat(a + t + h, r, id, before);
    LastContentConcat(a + t, h, id, before);
    LastContentConcat(a, t, id, before);
    var c1 := LastContent(a, id, before);
    assert c1 == before;
    var c2 := LastContent(t, id, c1);
    assert c2 == if p.text.Some? then TextContent(p.text.value) else before;
    var c3 := LastContent(h, id, c2);
    assert c3 == if p.html.Some? then Markup(p.html.value) else c2;
    assert LastContent(r, id, c3) == c3;
    assert LastContent(st, id, c3) == c3;
  }

  /** After the frame that drains a `create`'s commands without a throw, the
      new element holds the `html` option if given, else the `text` option,
      else nothing: the string children are appended, not written as text. */
  lemma CreateContent(s: Scheduler, tag: string, props: Props, children: Children)
    requires IdsBelowNext(s.doc) && s.loop.Armed?
    requires forall i :: 0 <= i < |s.queue| ==> s.queue[i].target in s.doc.nodes
    requires var r := Create(s, tag, props, children).0; Drain(r.doc, r.queue).Drained?
    ensures var e := Create(s, tag, props, children);
      Frame(e.0).doc.nodes[e.1.id].content ==
        if props.html.Some? then Markup(props.html.value)
        else if props.text.Some? then TextContent(props.text.value)
        else NoContent
  {
    var e := Create(s, tag, props, children);
    TargetsAvoid(s.queue, s.doc.nodes, e.1.id);
    FrameContent(e.0, e.1.id, s.queue, props, ChildList(children));
  }

  lemma TargetsAvoid(queue: seq<C.Command>, nodes: map<NodeId, Node>, id: NodeId)
    requires forall i :: 0 <= i < |queue| ==> queue[i].target in nodes
    requires id !in nodes
    ensures forall i :: 0 <= i < |queue| ==> queue[i].target != id
  {
  }

  /** The frame that drains a queue ending in `create`'s commands for a
      blank `id`, with nothing earlier aimed at `id`. */
  lemma FrameContent(r: Scheduler, id: NodeId, before: seq<C.Command>, props: Props, kids: seq<Child>)
    requires r.loop.Armed? && id in r.doc.nodes && r.doc.nodes[id].content == NoContent
    requires r.queue == before + CreateCommands(id, props, kids)
    requires forall i :: 0 <= i < |before| ==> before[i].target != id
    requires Drain(r.doc, r.queue).Drained?
    ensures Frame(r).doc.nodes[id].content ==
      if props.html.Some? then Markup(props.html.value)
      else if props.text.Some? then TextContent(props.text.value)
      else NoContent
  {
    CreateQueueContent(before, id, props, kids);
    DrainContent(r.doc, r.queue, id);
  }

  /** The content a queue ending in `create`'s commands leaves on the new
      element, when nothing before them aimed at it. */
  lemma CreateQueueContent(before: seq<C.Command>, id: NodeId, p: Props, kids: seq<Child>)
    requires forall i :: 0 <= i < |before| ==> before[i].target != id
    ensures LastContent(before + CreateCommands(id, p, kids), id, NoContent) ==
      if p.html.Some? then Markup(p.html.value)
      else if p.text.Some? then TextContent(p.text.value)
      else NoContent
  {
    var opts := OptionCommands(id, p);
    var apps := AppendCommands(id, kids, id + 1);
    Assoc(before, opts, apps);
    LastContentConcat(before + opts, apps, id, NoContent);
    LastContentConcat(before, opts, id, NoContent);
    LastContentKept(before, id, NoContent);
    OptionContent(id, p, NoContent);
    LastContentKept(apps, id, LastContent(before + opts, id, NoContent));
  }

  /** `create`'s first command is the class one, when there is one. */
  lemma ClassComesFirst(id: NodeId, p: Props, kids: seq<Child>)
    requires HasClass(p)
    ensures var q := CreateCommands(id, p, kids);
      q != [] && q[0] == C.AddClass(id, Split(p.className.value))
  {
    assert ClassCommand(id, p) == [C.AddClass(id, Split(p.className.value))];
  }

  /** A `class` option with two spaces in a row splits into an empty token,
      which `classList.add` rejects. Queued on an idle page, it makes the next
      frame throw on its first command: the loop dies, the element stays
      classless and unfilled, and every later command stays queued unrun. */
  lemma CreateBadClassStopsLoop(s: Scheduler, tag: string, props: Props, children: Children, x: string, y: string)
    requires IdsBelowNext(s.doc) && s.loop.Armed? && s.queue == []
    requires props.className == Some(x + "  " + y)
    ensures var e := Create(s, tag, props, children);
      && e.0.queue != []
      && Frame(e.0) == Scheduler(e.0.doc, e.0.queue[1..], Stopped)
      && e.0.doc.nodes[e.1.id] == Blank(Element(tag))
  {
    var e := Create(s, tag, props, children);
    FrameBadClass(e.0, e.1.id, props, ChildList(children), x, y);
  }

  /** The frame over a queue holding just a `create`'s commands, whose class
      option has a double space, stops at the first one. */
  lemma FrameBadClass(r: Scheduler, id: NodeId, props: Props, kids: seq<Child>, x: string, y: string)
    requires r.loop.Armed? && C.IsElement(r.doc, id)
    requires r.queue == [] + CreateCommands(id, props, kids)
    requires props.className == Some(x + "  " + y)
    ensures r.queue != [] && Frame(r) == Scheduler(r.doc, r.queue[1..], Stopped)
  {
    DoubleSpaceGivesInvalidToken(x, y);
    assert HasClass(props) by {
      assert (x + "  " + y)[|x|] == ' ';
    }
    var c := C.AddClass(id, Split(props.className.value));
    assert r.queue == CreateCommands(id, props, kids);
    ClassComesFirst(id, props, kids);
    assert C.Apply(r.doc, c) == C.Threw(r.doc);
    DrainStopsAtFirst(r.doc, r.queue);
  }
}
