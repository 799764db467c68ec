/** `DOMElement`: a handle wrapping one node, whose mutation methods do not
    touch the document but push one command on the queue and hand the same
    handle back for chaining. */
module Handles {
  import opened Wrappers
  import opened Tree
  import C = Commands
  import opened MutationQueue

  /** A non-owning reference to one node; several handles may share a node. */
  datatype Handle = Handle(id: NodeId)

  /** The `style` method; the styles object is given as its own keys, listed
      in the order `Object.assign` visits them. */
  function Style(s: Scheduler, h: Handle, styles: seq<(string, string)>): (r: (Scheduler, Handle))
    ensures r.1 == h && PushedOne(s, r.0, C.SetStyle(h.id, styles))
  {
    (Enqueue(s, C.SetStyle(h.id, styles)), h)
  }

  /** The `addClass` method, with its arguments as a list of tokens. */
  function AddClass(s: Scheduler, h: Handle, tokens: seq<string>): (r: (Scheduler, Handle))
    ensures r.1 == h && PushedOne(s, r.0, C.AddClass(h.id, tokens))
  {
    (Enqueue(s, C.AddClass(h.id, tokens)), h)
  }

  /** The `removeClass` method, with its arguments as a list of tokens. */
  function RemoveClass(s: Scheduler, h: Handle, tokens: seq<string>): (r: (Scheduler, Handle))
    ensures r.1 == h && PushedOne(s, r.0, C.RemoveClass(h.id, tokens))
  {
    (Enqueue(s, C.RemoveClass(h.id, tokens)), h)
  }

  /** The `attr` method; the attributes object is given as its entries,
      listed in the order a `for...in` loop visits them. */
  function Attr(s: Scheduler, h: Handle, attrs: seq<(string, string)>): (r: (Scheduler, Handle))
    ensures r.1 == h && PushedOne(s, r.0, C.SetAttrs(h.id, attrs))
  {
    (Enqueue(s, C.SetAttrs(h.id, attrs)), h)
  }

  /** The `text` method. */
  function Text(s: Scheduler, h: Handle, str: string): (r: (Scheduler, Handle))
    ensures r.1 == h && PushedOne(s, r.0, C.SetText(h.id, str))
  {
    (Enqueue(s, C.SetText(h.id, str)), h)
  }

  /** The `html` method. */
  function Html(s: Scheduler, h: Handle, str: string): (r: (Scheduler, Handle))
    ensures r.1 == h && PushedOne(s, r.0, C.SetHtml(h.id, str))
  {
    (Enqueue(s, C.SetHtml(h.id, str)), h)
  }

  /** The `append` method, given a handle or a raw node, either way carried
      as `Some` of the node itself, or any other value (`null`, a number),
      carried as `None`. */
  function Append(s: Scheduler, h: Handle, child: Option<NodeId>): (r: (Scheduler, Handle))
    ensures r.1 == h && PushedOne(s, r.0, C.Append(h.id, child))
  {
    (Enqueue(s, C.Append(h.id, child)), h)
  }

  /** The `remove` method. */
  function Remove(s: Scheduler, h: Handle): (r: (Scheduler, Handle))
    ensures r.1 == h && PushedOne(s, r.0, C.Remove(h.id))
  {
    (Enqueue(s, C.Remove(h.id)), h)
  }

  /** Chained calls queue their commands in call order and leave the
      document as it was until the next frame; shown here for a `style`,
      then an `addClass`, then a `text` call on one handle. */
  lemma ChainQueuesInCallOrder(s: Scheduler, h: Handle, st: seq<(string, string)>, ts: seq<string>, str: string)
    ensures var (s1, h1) := Style(s, h, st);
      var (s2, h2) := AddClass(s1, h1, ts);
      var (s3, h3) := Text(s2, h2, str);
      && h3 == h
      && s3.queue == s.queue + [C.SetStyle(h.id, st), C.AddClass(h.id, ts), C.SetText(h.id, str)]
      && s3.doc == s.doc && s3.loop == s.loop
  {
    var (s1, h1) := Style(s, h, st);
    var (s2, h2) := AddClass(s1, h1, ts);
    var (s3, h3) := Text(s2, h2, str);
    assert s1.queue == s.queue + [C.SetStyle(h.id, st)];
    assert s2.queue == s1.queue + [C.AddClass(h.id, ts)];
    assert s3.queue == s2.queue + [C.SetText(h.id, str)];
  }
}
