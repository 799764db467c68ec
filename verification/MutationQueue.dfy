/** The mutation queue and its runner: a module-wide FIFO of pending
    commands, a drain that shifts and runs them until the queue is empty, and
    the self-renewing animation-frame loop that drains once per frame and
    re-arms itself only after the drain returns. */
module MutationQueue {
  import opened Tokens
  import opened Tree
  import opened Ancestry
  import opened Commands

  /** How a drain ends: the queue ran dry, or a command threw. On a throw the
      failing command has already been shifted off, so `rest` holds only the
      commands after it, none of them run. */
  datatype DrainResult = Drained(doc: Document) | Aborted(doc: Document, rest: seq<Command>)

  /** `runQueue`: a left fold of `Apply` over the queue, front to back,
      stopping at the first command that throws. */
  function Drain(doc: Document, queue: seq<Command>): (r: DrainResult)
    ensures r.doc.next == doc.next && r.doc.nodes.Keys == doc.nodes.Keys
    ensures r.Aborted? ==> |r.rest| < |queue| && r.rest == queue[|queue| - |r.rest|..]
    decreases |queue|
  {
    if queue == [] then Drained(doc)
    else
      match Apply(doc, queue[0])
      case Applied(d) => Drain(d, queue[1..])
      case Threw(d) => Aborted(d, queue[1..])
  }

  /** The loop of `runQueue` itself: while the queue is non-empty, take the
      front command off and run it. The loop re-reads the live queue on every
      round; no command of this library enqueues another, so this is the fold
      `Drain`. */
  method RunQueue(doc: Document, queue: seq<Command>) returns (d: Document, pending: seq<Command>, threw: bool)
    ensures threw ==> Drain(doc, queue) == Aborted(d, pending)
    ensures !threw ==> Drain(doc, queue) == Drained(d) && pending == []
  {
    d, pending, threw := doc, queue, false;
    while |pending| > 0
      invariant Drain(doc, queue) == Drain(d, pending)
      decreases |pending|
    {
      var fn := pending[0];
      pending := pending[1..];
      var outcome := Apply(d, fn);
      d := outcome.doc;
      if outcome.Threw? {
        threw := true;
        return;
      }
    }
  }

  /** The host document stays consistent, and free of cycles, through a
      drain, whether it runs dry or stops at a throw. */
  lemma {:induction false} DrainKeepsConsistent(doc: Document, queue: seq<Command>)
    requires Consistent(doc)
    ensures Consistent(Drain(doc, queue).doc)
    ensures Acyclic(doc) ==> Acyclic(Drain(doc, queue).doc)
    decreases |queue|
  {
    if queue != [] {
      ApplyKeepsConsistent(doc, queue[0]);
      if Acyclic(doc) {
        ApplyKeepsAcyclic(doc, queue[0]);
      }
      var o := Apply(doc, queue[0]);
      if o.Applied? {
        DrainKeepsConsistent(o.doc, queue[1..]);
      }
    }
  }

  /** A single command drains to its own outcome. */
  lemma DrainSingle(doc: Document, c: Command)
    ensures Drain(doc, [c]) ==
      match Apply(doc, c)
      case Applied(d) => Drained(d)
      case Threw(d) => Aborted(d, [])
  {
    assert [c][0] == c && [c][1..] == [];
  }

  /** A throw on the first command ends the drain there. */
  lemma DrainStopsAtFirst(doc: Document, queue: seq<Command>)
    requires queue != [] && Apply(doc, queue[0]).Threw?
    ensures Drain(doc, queue) == Aborted(Apply(doc, queue[0]).doc, queue[1..])
  {
  }

  /** A batch of two runs the second command on what the first left. */
  lemma DrainPair(doc: Document, c1: Command, c2: Command)
    requires Apply(doc, c1).Applied?
    ensures Drain(doc, [c1, c2]) == Drain(Apply(doc, c1).doc, [c2])
  {
    assert [c1, c2][0] == c1 && [c1, c2][1..] == [c2];
  }

  /** Draining a concatenation is draining the first part and then, if it
      ran dry, the second part: no reordering, no coalescing. */
  lemma {:induction false} DrainConcat(doc: Document, q1: seq<Command>, q2: seq<Command>)
    ensures Drain(doc, q1 + q2) ==
      match Drain(doc, q1)
      case Drained(d) => Drain(d, q2)
      case Aborted(d, rest) => Aborted(d, rest + q2)
    decreases |q1|
  {
    if q1 == [] {
      assert q1 + q2 == q2;
    } else {
      assert (q1 + q2)[0] == q1[0];
      assert (q1 + q2)[1..] == q1[1..] + q2;
      match Apply(doc, q1[0])
      case Applied(d) => DrainConcat(d, q1[1..], q2);
      case Threw(d) =>
    }
  }

  /** Where a drain stopped: `k`, counted back from what is left, is the
      position of the command that threw; every command before it ran, and
      exactly the commands after it are left. */
  lemma {:induction false} DrainAbortPoint(doc: Document, queue: seq<Command>, k: nat)
    requires Drain(doc, queue).Aborted? && k == |queue| - |Drain(doc, queue).rest| - 1
    ensures k < |queue| && Drain(doc, queue[..k]).Drained?
    ensures Apply(Drain(doc, queue[..k]).doc, queue[k]) == Threw(Drain(doc, queue).doc)
    ensures Drain(doc, queue).rest == queue[k + 1..]
    decreases |queue|
  {
    var o := Apply(doc, queue[0]);
    if o.Threw? {
      assert queue[..0] == [];
    } else {
      var tail := queue[1..];
      assert Drain(doc, queue) == Drain(o.doc, tail);
      DrainAbortPoint(o.doc, tail, k - 1);
      DrainPrefixStep(doc, queue, k);
      assert tail[k - 1] == queue[k];
      assert tail[k..] == queue[k + 1..];
    }
  }

  /** Draining a non-empty prefix whose first command succeeds is draining
      the rest of that prefix from where the first command left off. */
  lemma DrainPrefixStep(doc: Document, queue: seq<Command>, k: nat)
    requires 0 < k <= |queue| && Apply(doc, queue[0]).Applied?
    ensures Drain(doc, queue[..k]) == Drain(Apply(doc, queue[0]).doc, queue[1..][..k - 1])
  {
    var pre := queue[..k];
    assert pre[0] == queue[0] && pre[1..] == queue[1..][..k - 1];
  }

  // ------- the frame loop -------

  /** `scheduleFlush` has a frame callback pending, or it has died because a
      drain threw before the re-arming call. */
  datatype Loop = Armed | Stopped

  datatype Scheduler = Scheduler(doc: Document, queue: seq<Command>, loop: Loop)

  /** Module load: the queue is empty and the first frame is requested. */
  function Load(doc: Document): Scheduler {
    Scheduler(doc, [], Armed)
  }

  /** `s2` is `s1` with exactly `c` pushed on the tail: earlier entries, the
      document and the frame loop are untouched. */
  predicate PushedOne(s1: Scheduler, s2: Scheduler, c: Command) {
    && |s2.queue| == |s1.queue| + 1
    && s2.queue[..|s1.queue|] == s1.queue
    && s2.queue[|s1.queue|] == c
    && s2.doc == s1.doc
    && s2.loop == s1.loop
  }

  /** `queueMutation`: push one command on the tail of the queue. */
  function Enqueue(s: Scheduler, c: Command): (r: Scheduler)
    ensures PushedOne(s, r, c)
  {
    s.(queue := s.queue + [c])
  }

  /** One animation frame. While armed, the callback drains the queue and
      calls `scheduleFlush` again only if the drain returned; a throw leaves
      the loop dead with the unrun commands still queued. Once stopped, no
      callback is pending and a frame changes nothing. */
  function Frame(s: Scheduler): (r: Scheduler)
    ensures s.loop.Stopped? ==> r == s
    ensures r.loop.Armed? ==> r.queue == []
    ensures s.loop.Armed? && r.loop.Stopped? ==> |r.queue| < |s.queue|
  {
    if s.loop.Stopped? then s
    else
      match Drain(s.doc, s.queue)
      case Drained(d) => Scheduler(d, [], Armed)
      case Aborted(d, rest) => Scheduler(d, rest, Stopped)
  }

  function Frames(s: Scheduler, n: nat): Scheduler
    decreases n
  {
    if n == 0 then s else Frames(Frame(s), n - 1)
  }

  /** Any number of frames keeps the host document consistent and free of
      cycles. */
  lemma {:induction false} FramesKeepConsistent(s: Scheduler, n: nat)
    requires Consistent(s.doc)
    ensures Consistent(Frames(s, n).doc)
    ensures Acyclic(s.doc) ==> Acyclic(Frames(s, n).doc)
    decreases n
  {
    if n > 0 {
      if s.loop.Armed? {
        DrainKeepsConsistent(s.doc, s.queue);
      }
      FramesKeepConsistent(Frame(s), n - 1);
    }
  }

  /** A frame over commands that all succeed empties the queue, applies them
      one by one in enqueue order, and re-arms the loop. */
  lemma FrameRunsQueueInOrder(s: Scheduler, c: Command)
    requires s.loop.Armed?
    requires Drain(s.doc, s.queue).Drained?
    requires Apply(Drain(s.doc, s.queue).doc, c).Applied?
    ensures Frame(Enqueue(s, c)) == Scheduler(Apply(Frame(s).doc, c).doc, [], Armed)
  {
    var d := Drain(s.doc, s.queue).doc;
    DrainConcat(s.doc, s.queue, [c]);
    DrainSingle(d, c);
    assert Frame(s) == Scheduler(d, [], Armed);
    assert Drain(s.doc, s.queue + [c]) == Drained(Apply(d, c).doc);
  }

  /** A throwing command kills the frame loop: the loop stops, the command is
      gone, the commands after it stay queued unrun, and the document keeps
      whatever the commands before it (and the thrower, up to its throw) did. */
  lemma FrameStopsOnThrow(s: Scheduler)
    requires s.loop.Armed?
    requires Drain(s.doc, s.queue).Aborted?
    ensures var r := Frame(s);
      var k := |s.queue| - |r.queue| - 1;
      && r.loop.Stopped?
      && 0 <= k < |s.queue|
      && r.queue == s.queue[k + 1..]
      && Drain(s.doc, s.queue[..k]).Drained?
      && Apply(Drain(s.doc, s.queue[..k]).doc, s.queue[k]) == Threw(r.doc)
  {
    var r := Drain(s.doc, s.queue);
    DrainAbortPoint(s.doc, s.queue, |s.queue| - |r.rest| - 1);
    FrameOnAbort(s);
  }

  lemma FrameOnAbort(s: Scheduler)
    requires s.loop.Armed? && Drain(s.doc, s.queue).Aborted?
    ensures Frame(s) == Scheduler(Drain(s.doc, s.queue).doc, Drain(s.doc, s.queue).rest, Stopped)
  {
  }

  /** After the loop has died, frames keep nothing from happening: the
      document stays put and enqueued commands pile up unrun. */
  lemma {:induction false} StoppedStaysStopped(s: Scheduler, n: nat)
    requires s.loop.Stopped?
    ensures Frames(s, n) == s
    decreases n
  {
    if n > 0 {
      StoppedStaysStopped(Frame(s), n - 1);
    }
  }

  /** Frames with nothing queued keep re-arming and change nothing. */
  lemma {:induction false} IdleFramesRenew(s: Scheduler, n: nat)
    requires s.loop.Armed? && s.queue == []
    ensures Frames(s, n) == s
    decreases n
  {
    if n > 0 {
      assert Frame(s) == s;
      IdleFramesRenew(Frame(s), n - 1);
    }
  }

  /** A page nobody touches after load keeps its frame loop armed with an
      empty queue, however many frames pass. */
  lemma LoadIdles(doc: Document, n: nat)
    ensures Frames(Load(doc), n) == Load(doc)
  {
    IdleFramesRenew(Load(doc), n);
  }

  /** Batching is invisible when nothing throws: letting a frame run between
      two groups of enqueues ends where one frame over both groups ends. */
  lemma SplitBatchesAgree(s: Scheduler, later: seq<Command>)
    requires s.loop.Armed?
    requires Drain(s.doc, s.queue).Drained?
    ensures Frame(Frame(s).(queue := later)) == Frame(s.(queue := s.queue + later))
  {
    DrainConcat(s.doc, s.queue, later);
  }

  // ------- what one batch does to a node -------

  /** The content a node ends with after a batch, read off the queue alone:
      the last `text` or `html` command aimed at it, or what it had before. */
  function LastContent(queue: seq<Command>, x: NodeId, before: Content): Content
    decreases |queue|
  {
    if queue == [] then before
    else
      var c := queue[0];
      var now :=
        if c.SetText? && c.target == x then TextContent(c.text)
        else if c.SetHtml? && c.target == x then Markup(c.html)
        else before;
      LastContent(queue[1..], x, now)
  }

  /** Text and markup follow last-write-wins: after a batch that ran dry, a
      node's content is the one the last `text`/`html` command for it set. */
  lemma {:induction false} DrainContent(doc: Document, queue: seq<Command>, x: NodeId)
    requires x in doc.nodes
    requires Drain(doc, queue).Drained?
    ensures Drain(doc, queue).doc.nodes[x].content == LastContent(queue, x, doc.nodes[x].content)
    decreases |queue|
  {
    if queue != [] {
      var o := Apply(doc, queue[0]);
      assert o.Applied?;
      ApplyContent(doc, queue[0], x);
      DrainContent(o.doc, queue[1..], x);
    }
  }

  /** Later commands decide: the content after `q1 + q2` is `q2`'s verdict
      starting from `q1`'s. */
  lemma {:induction false} LastContentConcat(q1: seq<Command>, q2: seq<Command>, x: NodeId, before: Content)
    ensures LastContent(q1 + q2, x, before) == LastContent(q2, x, LastContent(q1, x, before))
    decreases |q1|
  {
    if q1 == [] {
      assert q1 + q2 == q2;
    } else {
      assert (q1 + q2)[0] == q1[0];
      assert (q1 + q2)[1..] == q1[1..] + q2;
      var c := q1[0];
      var now :=
        if c.SetText? && c.target == x then TextContent(c.text)
        else if c.SetHtml? && c.target == x then Markup(c.html)
        else before;
      LastContentConcat(q1[1..], q2, x, now);
    }
  }


  /** A queue with no `text` or `html` command for `x` leaves its content
      as it was. */
  lemma {:induction false} LastContentKept(queue: seq<Command>, x: NodeId, before: Content)
    requires forall i :: 0 <= i < |queue| ==> !(queue[i].SetText? || queue[i].SetHtml?) || queue[i].target != x
    ensures LastContent(queue, x, before) == before
    decreases |queue|
  {
    if queue != [] {
      assert forall i :: 0 <= i < |queue[1..]| ==> queue[1..][i] == queue[i + 1];
      LastContentKept(queue[1..], x, before);
    }
  }

  /** `addClass` then `removeClass` in one batch: a removed token ends absent
      even if it was just added, and the other classes end as the add made them. */
  lemma AddThenRemoveClass(doc: Document, n: NodeId, added: seq<string>, removed: seq<string>)
    requires IsElement(doc, n)
    requires AllValidTokens(added) && AllValidTokens(removed)
    ensures Drain(doc, [AddClass(n, added), RemoveClass(n, removed)]).Drained?
    ensures var cl := Drain(doc, [AddClass(n, added), RemoveClass(n, removed)]).doc.nodes[n].classes;
      forall t :: t in cl <==> (t in doc.nodes[n].classes || t in added) && t !in removed
  {
    var o1 := AddTokens(doc, n, added);
    ClassEffect(doc, n, added);
    assert Apply(doc, AddClass(n, added)) == o1;
    var d1 := o1.doc;
    assert IsElement(d1, n);
    var o2 := RemoveTokens(d1, n, removed);
    ClassEffect(d1, n, removed);
    assert Apply(d1, RemoveClass(n, removed)) == o2;
    DrainPair(doc, AddClass(n, added), RemoveClass(n, removed));
    DrainSingle(d1, RemoveClass(n, removed));
  }

  /** `addClass` is idempotent: running the same command twice in a batch
      ends where running it once does, on success and on a throw alike. */
  lemma AddClassIdempotent(doc: Document, n: NodeId, tokens: seq<string>)
    ensures Drain(doc, [AddClass(n, tokens), AddClass(n, tokens)]).doc == Drain(doc, [AddClass(n, tokens)]).doc
  {
    var c := AddClass(n, tokens);
    DrainSingle(doc, c);
    var o1 := Apply(doc, c);
    if o1.Applied? {
      DrainPair(doc, c, c);
      DrainSingle(o1.doc, c);
      AddTokensTwice(doc, n, tokens);
    } else {
      assert [c, c][0] == c;
    }
  }

  lemma AddTokensTwice(doc: Document, n: NodeId, tokens: seq<string>)
    requires IsElement(doc, n) && AllValidTokens(tokens)
    ensures var d1 := AddTokens(doc, n, tokens).doc;
      IsElement(d1, n) && AddTokens(d1, n, tokens) == Applied(d1)
  {
    var d1 := AddTokens(doc, n, tokens).doc;
    var d2 := AddTokens(d1, n, tokens).doc;
    assert d2.nodes[n].classes == d1.nodes[n].classes;
    assert d2.nodes[n] == d1.nodes[n];
    assert d2.nodes == d1.nodes;
  }

  /** The command `style` (for `InlineStyle`) or `attr` (for `Attributes`) queues. */
  function Write(w: Sink, n: NodeId, pairs: seq<(string, string)>): Command {
    match w
    case InlineStyle => SetStyle(n, pairs)
    case Attributes => SetAttrs(n, pairs)
  }

  /** Two queued `style` calls, or two `attr` calls, on one node accumulate:
      the later value of a key wins, keys named only by the earlier call keep
      its last value, and all other keys are unchanged. */
  lemma LaterPairsWin(doc: Document, n: NodeId, w: Sink, a: seq<(string, string)>, b: seq<(string, string)>)
    requires IsElement(doc, n)
    requires forall i :: 0 <= i < |a| ==> Accepts(w, a[i].0)
    requires forall i :: 0 <= i < |b| ==> Accepts(w, b[i].0)
    ensures Drain(doc, [Write(w, n, a), Write(w, n, b)]).Drained?
    ensures var m := Field(Drain(doc, [Write(w, n, a), Write(w, n, b)]).doc.nodes[n], w);
      var before := Field(doc.nodes[n], w);
      && (forall k :: k in NamesOf(b) ==> k in m && m[k] == b[LastIndex(b, k)].1)
      && (forall k :: k in NamesOf(a) && k !in NamesOf(b) ==> k in m && m[k] == a[LastIndex(a, k)].1)
      && (forall k :: k !in NamesOf(a) && k !in NamesOf(b) ==> (k in m <==> k in before))
      && (forall k :: k !in NamesOf(a) && k !in NamesOf(b) && k in before ==> m[k] == before[k])
  {
    var o1 := Assign(doc, n, w, a);
    assert Apply(doc, Write(w, n, a)) == o1;
    AssignEffect(doc, n, w, a);
    var d1 := o1.doc;
    assert IsElement(d1, n);
    var o2 := Assign(d1, n, w, b);
    assert Apply(d1, Write(w, n, b)) == o2;
    AssignEffect(d1, n, w, b);
    DrainPair(doc, Write(w, n, a), Write(w, n, b));
    DrainSingle(d1, Write(w, n, b));
  }
}
