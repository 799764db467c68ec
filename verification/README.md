# domso — the mutation queue, modelled in Dafny

domso wraps DOM elements in small handles, called `DOMElement`s. The handle
methods `style`, `addClass`, `removeClass`, `attr`, `text`, `html`, `append`
and `remove` do not touch the page. Each pushes one closure onto a single
module-wide mutation queue and returns the same handle, so calls chain.

A self-rescheduling `requestAnimationFrame` loop drains the queue once per
frame, oldest closure first. `DOM.create` builds the element at once, then
queues one command per option and one `append` per child. The order is fixed:
class, text, html, attr, style, children.

This project models that core as pure functions over an abstract host
document and proves what the code promises about it.

- `Tokens` covers the class tokens: splitting at single spaces and its
  inverse `Join`, the DOMTokenList token check, the `setAttribute` name
  check, and which keys `Object.assign` may write onto an inline style.
- `Tree` is the host document: a map from node identities to records, with
  parent links and ordered child lists. It defines the `Consistent`
  invariant, which says ids are allocated, parent and child links agree, and
  no child appears twice. It also models the node-removal step (`Detach`)
  that both `removeChild` and `appendChild` perform.
- `Ancestry` adds that parent links never form a cycle (`Acyclic`); the
  proofs that every command keeps it build on it.
- `Commands` covers the eight closure kinds. Each is a `Command` value.
  `Apply` runs one of them and says whether it completed (`Applied`) or threw
  (`Threw`). Each command follows the WHATWG DOM Living Standard: DOMTokenList
  `add`/`remove` (section 7.1), `setAttribute`, `textContent`, and the
  pre-insert and remove algorithms (section 4.2.3) as they apply to element
  and text nodes. The `innerHTML` setter follows the WHATWG HTML Living
  Standard (its DOM parsing and serialization APIs) for an element other than
  `<template>`. "Left out" lists the cases not covered.
- `MutationQueue` covers the queue and the frame loop:
  - `Drain` is the fold `runQueue` performs, and the `RunQueue` method is its
    `while`/`shift` loop.
  - `Frame` is one animation-frame callback. The loop is `Armed`, or
    `Stopped` once a closure has thrown.
- `Handles` holds the `DOMElement` methods as functions from a scheduler
  state to a new state and the same handle.
- `Facade` holds `DOM.create`.

Commands name their target by node identity. The closures capture the
handle and the argument they were given, and only read the handle's element,
the keys and values of a styles or attributes object, or the child's element
when they run. The model reads all of these when the method is called, which agrees
with the code as long as nothing changes them before the frame (see
"Left out").

## Model

| member | source | states |
|---|---|---|
| Tokens.JoinSplit | src/domso.js:92 | joining the pieces of `split(" ")` with single spaces gives back the class string |
| Tokens.SplitJoin | src/domso.js:92 | splitting a join of space-free pieces gives back exactly those pieces, so no token is lost or merged |
| Tokens.DoubleSpaceGivesInvalidToken | src/domso.js:92 | a class string with two adjacent spaces splits into a token list that the DOMTokenList check rejects (an empty token) |
| Tree.AllocateFresh | src/domso.js:90 | `createElement` returns a node under a fresh identity, detached and empty; every existing node is unchanged and the document stays consistent |
| Tree.DetachEffect | src/domso.js:70-75 | removal clears the node's parent link and drops it from its old parent's child list; a parentless node is a no-op; no other record changes |
| Tree.DetachConsistent | src/domso.js:70-75 | removal keeps the tree consistent, and afterwards no child list holds the node |
| Commands.AssignEffect | src/domso.js:26-43 | `Object.assign` onto the inline style and the `setAttribute` loop both write key by key: the closure completes exactly when every key is accepted (a writable style key, a valid attribute name); on a throw the keys before the refused one stay written; on completion the last value of each key wins and unnamed keys keep theirs; only that one map of the target changes and the tree stays consistent |
| Commands.StyleStopsAtReadOnlyKey | src/domso.js:26-29 | a styles object with the read-only key `length` makes the `style` closure throw at that key, with the keys listed before it already written |
| Commands.ClassEffect | src/domso.js:30-37 | `add`/`remove` complete exactly when every token is valid; a rejected call changes nothing; on success the classes are the union (add) or the difference (remove) with the tokens |
| Commands.SetEachLastWins | src/domso.js:26-43 | when every key is accepted, each key ends with the value of the last pair that names it; unnamed keys are kept |
| Commands.SetEachStopsAtRejected | src/domso.js:26-43 | writing key by key completes exactly when no key is refused; otherwise its effect is the effect of the pairs before the first refused key |
| Commands.ContentEffect | src/domso.js:44-55 | `textContent`/`innerHTML` replace the content, empty the child list and orphan the former children; every other node is unchanged and the tree stays consistent |
| Commands.AppendEffect | src/domso.js:64-69 | `appendChild` completes exactly when the child exists and is not an inclusive ancestor of the target; a refusal changes nothing; the tree stays consistent |
| Commands.AppendMovesChild | src/domso.js:64-69 | a successful append makes the child the target's last child, removes it from its old parent, and leaves every other node alone |
| Commands.Apply | src/domso.js:10-11 | running one closure never creates or destroys nodes |
| Commands.ApplyKeepsConsistent | src/domso.js:26-75 | every command keeps the tree consistent; a command on a non-element throws without effect; only `style` and `attr` can throw after a partial effect; an `append` of a value that is no node always throws and changes nothing |
| Commands.AppendKeepsAcyclic | src/domso.js:64-69 | `appendChild` never closes a cycle of parent links: an append that would is one its inclusive-ancestor check refuses |
| Commands.ApplyKeepsAcyclic | src/domso.js:26-75 | no command creates a cycle of parent links, whether it completes or throws |
| Ancestry.AncestorExact | src/domso.js:66 | on a consistent page without cycles, the bounded ancestor walk the model uses for the `appendChild` check finds every ancestor there is |
| Ancestry.AllocateKeepsAcyclic | src/domso.js:90 | a node fresh from `createElement` or `createTextNode` keeps the page free of cycles |
| Commands.ApplyContent | src/domso.js:44-55 | a completed command changes a node's content only when it is a `text` or `html` command on that node |
| MutationQueue.Drain | src/domso.js:8-13 | the drain keeps the node set; when a closure throws, the rest of the queue is left in place, in order |
| MutationQueue.RunQueue | src/domso.js:8-13 | the `while`/`shift` loop computes the fold `Drain`: the document it leaves, whether it threw and what stays queued |
| MutationQueue.DrainKeepsConsistent | src/domso.js:8-13 | draining any queue keeps the tree consistent and free of cycles, even when a closure throws |
| MutationQueue.DrainStopsAtFirst | src/domso.js:8-13 | a throwing first closure ends the drain with the rest of the queue untouched |
| MutationQueue.DrainConcat | src/domso.js:8-13 | draining `q1 + q2` drains `q1`, then `q2` from where it stopped; an abort in `q1` keeps all of `q2` queued |
| MutationQueue.DrainAbortPoint | src/domso.js:8-13 | an aborted drain ran a completed prefix, then one closure that threw; what remains is exactly the suffix after it |
| MutationQueue.Enqueue | src/domso.js:5-7 | `queueMutation` appends one closure at the tail and changes nothing else |
| MutationQueue.Frame | src/domso.js:15-20 | a stopped loop does nothing; a frame that re-arms leaves the queue empty; a frame that stops the loop leaves strictly fewer commands queued |
| MutationQueue.FramesKeepConsistent | src/domso.js:15-20 | any number of frames keep the tree consistent and free of cycles |
| MutationQueue.FrameRunsQueueInOrder | src/domso.js:15-20 | a command queued behind a clean batch runs after that batch, in the same frame, and the loop re-arms |
| MutationQueue.FrameStopsOnThrow | src/domso.js:15-20 | when a closure throws, `scheduleFlush` is skipped: the loop stops and the closures after the throwing one stay queued |
| MutationQueue.StoppedStaysStopped | src/domso.js:15-20 | once stopped, no later frame changes anything |
| MutationQueue.IdleFramesRenew | src/domso.js:15-20 | frames over an empty queue change nothing and keep the loop armed |
| MutationQueue.LoadIdles | src/domso.js:4-20 | after load, with nothing queued, any number of frames leave the queue empty, the page as it was and the loop armed |
| MutationQueue.SplitBatchesAgree | src/domso.js:15-20 | a clean batch and then a later batch in the next frame give the same result as both in one frame |
| MutationQueue.DrainContent | src/domso.js:44-55 | after a clean drain, a node's content is what the last `text`/`html` command aimed at it set, or what it was before |
| MutationQueue.LastContentConcat | src/domso.js:44-55 | the last content assignment over two batches is the one in the second batch, if any |
| MutationQueue.AddThenRemoveClass | src/domso.js:30-37 | `addClass` then `removeClass` leaves the old classes plus the added ones, minus the removed ones |
| MutationQueue.LaterPairsWin | src/domso.js:26-43 | two `style` calls, or two `attr` calls, on one node accumulate: keys of the second win, keys only in the first keep its last value, all other keys are unchanged |
| MutationQueue.AddClassIdempotent | src/domso.js:30-33 | adding the same tokens twice gives the same document as adding them once |
| Handles.Style | src/domso.js:26-29 | `style` queues one merge command for its node, returns the same handle, and leaves the page alone |
| Handles.AddClass | src/domso.js:30-33 | `addClass` queues one add command for its node and returns the same handle |
| Handles.RemoveClass | src/domso.js:34-37 | `removeClass` queues one remove command for its node and returns the same handle |
| Handles.Attr | src/domso.js:38-43 | `attr` queues one attribute command for its node and returns the same handle |
| Handles.Text | src/domso.js:44-49 | `text` queues one text command for its node and returns the same handle |
| Handles.Html | src/domso.js:50-55 | `html` queues one markup command for its node and returns the same handle |
| Handles.Append | src/domso.js:64-69 | `append` queues one append of the child node, whether given as a handle or a raw node, or of a value that is no node, and returns the same handle |
| Handles.Remove | src/domso.js:70-75 | `remove` queues one removal of its node and returns the same handle |
| Handles.ChainQueuesInCallOrder | src/domso.js:26-49 | a chain of `style`, then `addClass`, then `text` on one handle queues the three commands in call order and leaves the page and the loop untouched until the next frame |
| Facade.OptionCommandsOrder | src/domso.js:92-96 | the option commands are aimed at the new element and come in the order class, text, html, attr, style |
| Facade.OptionCommandsPresence | src/domso.js:92-96 | a command is queued for an option exactly when the option is present (a non-empty class string, a non-null text or html), and it carries that option's value |
| Facade.NewElement | src/domso.js:90-91 | the new element gets the next free identity, is blank, and nothing else in the scheduler changes |
| Facade.AppendOne | src/domso.js:98-104 | a string child gets a fresh blank text node holding the string, which is appended; a node child is appended as it is; any other value is passed on as no node; existing nodes are untouched |
| Facade.AppendChildren | src/domso.js:97-105 | children are appended in list order; each string child gets a fresh text node and existing nodes are untouched |
| Facade.AppendChildrenTextNodes | src/domso.js:97-100 | each string child becomes a new, detached text node holding that string |
| Facade.Create | src/domso.js:89-107 | `create` makes a fresh blank element at once, queues the option commands and then one append per child, and leaves the rest of the page as it was |
| Facade.CreateTextNodes | src/domso.js:97-100 | every string child of `create` gets its own text node with that text |
| Facade.CreateKeepsConsistent | src/domso.js:89-107 | `create` keeps the tree consistent and free of cycles |
| Facade.OptionContent | src/domso.js:93-94 | among the option commands, `html` sets the final content when present, else `text`, else nothing |
| Facade.CreateContent | src/domso.js:93-94 | after the next clean frame the new element's content is its `html` if given, else its `text`, else empty |
| Facade.ClassComesFirst | src/domso.js:92 | with a class option, the first command `create` queues is the class add with the split tokens |
| Facade.CreateBadClassStopsLoop | src/domso.js:92 | on a page with nothing queued, a class string with a double space makes the next frame throw on its first command, stop the loop with the remaining commands still queued, and leave the element blank |

## Left out

- `on` and `off` (src/domso.js:56-63) attach listeners synchronously and do
  not touch the queue or the tree, so they are not modelled.
- `parent`, `children`, `find`, `select`, `selectAll`, `byId` and `byClass`
  (src/domso.js:76-85, 109-127) are read-only lookups outside the queue.
- The global export (src/domso.js:131) and the IIFE wrapper are not modelled.
- Timing: a frame is one call of `Frame`. When the browser fires it, and what
  the page does between frames, are not modelled.
- `innerHTML` markup is kept as opaque content. No parsing happens and no
  child nodes are built from it, and likewise `textContent` builds no text
  node.
- The class list is modelled as a set. DOMTokenList keeps insertion order;
  that order is not modelled.
- `setAttribute`: the model does not lowercase names on HTML elements, and
  does not reflect `class` or `style` attributes into the class list or
  inline style.
- `attr`: the `for...in` key order of the attribute object is taken as the
  given sequence of pairs. Inherited enumerable keys are not modelled.
- Handles wrap elements only. `DOMElement` is not exported, and every
  handle the library makes wraps an element (src/domso.js:77, 80, 83-84, 91,
  110-122), so a handle on a text node cannot arise. A value that is not a
  node at all (a `null` or a number given to `append` or among the children
  of `create`) is its own case, `NotANode` among the children and `None` in
  the `append` command: running it always throws, as the host's `TypeError`
  does, and stops the loop.
- Facade.Create and Facade.NewElement: `createElement` throws
  InvalidCharacterError on a tag name that is not a valid element name (the
  empty string, or one holding a space), and `create` then throws before it
  queues anything. The model always makes the element. The rules for valid
  names have changed between versions of the WHATWG DOM Living Standard, so
  the model takes every tag as valid.
- Commands.Apply: the `innerHTML` setter can also throw, on ill-formed
  markup in an XML document, or on any plain string when the page enforces
  Trusted Types. Such a throw would stop the loop. The model takes an HTML
  document without Trusted Types, where `html` always completes.
- Commands.AppendEffect and Handles.Append: only element and text nodes are
  modelled. A DocumentFragment given to `append` or among the children of
  `create` would have its children moved into the target, and the fragment
  itself would stay empty and never become a child. That case, and every
  other node kind, is not modelled.
- Commands.ContentEffect: `html` on a `<template>` element replaces the
  template's contents fragment, and its own child list stays as it was. The
  model treats every element as a plain one, whose child list is emptied.
- `remove` and `appendChild`: parents are always nodes of the modelled page.
  The document node as a parent is not modelled separately.
- Acyclicity of the page before the first command is assumed, as the host
  guarantees it; the proofs show every command and every `create` keeps it.
- Handles.Style, Handles.Attr, Handles.Append and the other handle methods
  take the target node and the payload when they are called. The closures
  read the handle's element, the keys and values of the argument object and
  the child's element only when they run, so the model agrees with the code only when
  neither the argument object nor a handle's element is changed before the
  frame.
- Commands.AssignEffect: for the inline style the only refused keys are
  `length`, `parentRule` and array indices. CSS property aliases,
  shorthands, `cssText` and the parsing and silent dropping of bad values
  are left to the host and not modelled; values are kept as given.
- MutationQueue.RunQueue: the loop re-reads the live queue on each round.
  No closure of this library enqueues another, and that is what the fold
  assumes. Host callbacks that run inside a command, such as custom-element
  reactions during `appendChild`, `removeChild`, `setAttribute` or
  `innerHTML`, could call a handle method and so enqueue into the drain
  under way; such re-entrant enqueues are not modelled.
- Facade.Create: requires that every node id is below the next free id, as
  any page built by the host satisfies. The model needs this to give the new
  element a fresh id.
- Exceptions carry no payload. A throwing closure is `Threw`, with the
  document as the host left it.

## Behaviour worth knowing

- `runQueue` reads the live array on every round rather than a copy taken
  when the frame starts. Since none of the library's closures enqueue
  anything, this is the fold `Drain`.
- The frame loop can end. `scheduleFlush()` comes after `runQueue()` in the
  same callback, so a throwing closure skips it: the loop is never re-armed
  and the closures behind the throwing one stay queued for good. A bad class
  string (two spaces in a row), a read-only style key such as `length`, or
  an invalid attribute name is enough. `Frame`, `FrameStopsOnThrow`,
  `StoppedStaysStopped`, `StyleStopsAtReadOnlyKey` and
  `CreateBadClassStopsLoop` state this behaviour.
