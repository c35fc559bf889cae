/**
 * The parsed document and the stream of emission events it is turned into.
 *
 * A jsoup element is identified by reference, so each element carries a
 * `NodeId`; tag name, attributes and the markup of non-element nodes are
 * opaque payloads that the core only carries along.
 */
module Html {

  type NodeId = nat
  type CallbackId = nat

  datatype Attribute = Attribute(key: string, value: string)

  /** A node of the parsed body: an element, or any other node (text,
      comment, data) represented by the markup the parser captured for it. */
  datatype Node =
    | Element(id: NodeId, tagName: string, attributes: seq<Attribute>, children: seq<Node>)
    | NonElement(outerHtml: string)

  /** The tag object handed to a tag consumer: either the wrapper built for
      a parsed element, or a tag built by anything else. */
  datatype Tag =
    | JsoupTag(element: NodeId, tagName: string, attributes: seq<Attribute>)
    | OtherTag(tagName: string)

  /** One call on a tag consumer. */
  datatype Event =
    | TagStart(tag: Tag)
    | TagEnd(tag: Tag)
    | Content(text: string)
    | ContentEntity(entity: string)
    | ContentUnsafe(html: string)
    | Comment(text: string)

  /** `Element.children()`: the element nodes among `nodes`, in order;
      every other node is left out. */
  function ElementChildren(nodes: seq<Node>): (r: seq<Node>)
    ensures forall n :: n in r <==> n in nodes && n.Element?
    ensures |r| <= |nodes|
  {
    if nodes == [] then []
    else (if nodes[0].Element? then [nodes[0]] else []) + ElementChildren(nodes[1..])
  }

  /** `children()` keeps a single node exactly when it is an element. */
  lemma ElementChildrenOne(n: Node)
    ensures ElementChildren([n]) == if n.Element? then [n] else []
  {
    assert [n][1..] == [];
  }

  /** `children()` keeps the element nodes in document order: filtering a
      concatenation is concatenating the filtered parts. */
  lemma {:induction false} ElementChildrenAppend(a: seq<Node>, b: seq<Node>)
    ensures ElementChildren(a + b) == ElementChildren(a) + ElementChildren(b)
    decreases a
  {
    if a == [] {
      assert a + b == b;
    } else {
      assert (a + b)[0] == a[0];
      assert (a + b)[1..] == a[1..] + b;
      ElementChildrenAppend(a[1..], b);
    }
  }

  function TagOf(n: Node): Tag
    requires n.Element?
  {
    JsoupTag(n.id, n.tagName, n.attributes)
  }

  /** The events that visiting `n` sends to a consumer: an element opens,
      emits its children in order and closes; any other child node is
      written as raw markup. */
  function Emit(n: Node): seq<Event>
    decreases n
  {
    match n
    case Element(_, _, _, children) =>
      [TagStart(TagOf(n))] + EmitAll(children) + [TagEnd(TagOf(n))]
    case NonElement(html) => [ContentUnsafe(html)]
  }

  function EmitAll(nodes: seq<Node>): seq<Event>
    decreases nodes
  {
    if nodes == [] then [] else Emit(nodes[0]) + EmitAll(nodes[1..])
  }

  lemma {:induction false} EmitAllAppend(a: seq<Node>, b: seq<Node>)
    ensures EmitAll(a + b) == EmitAll(a) + EmitAll(b)
    decreases a
  {
    if a == [] {
      assert a + b == b;
    } else {
      assert (a + b)[1..] == a[1..] + b;
      EmitAllAppend(a[1..], b);
    }
  }

  /** Element ids of `n` in document order (pre-order). */
  function Ids(n: Node): seq<NodeId>
    decreases n
  {
    match n
    case Element(id, _, _, children) => [id] + IdsAll(children)
    case NonElement(_) => []
  }

  function IdsAll(nodes: seq<Node>): seq<NodeId>
    decreases nodes
  {
    if nodes == [] then [] else Ids(nodes[0]) + IdsAll(nodes[1..])
  }

  /** No element id occurs twice: every element is a distinct object. */
  predicate NoDup(s: seq<NodeId>)
  {
    forall i, j :: 0 <= i < j < |s| ==> s[i] != s[j]
  }

  // ---------------------------------------------------------------------
  // Nesting depth of an event stream

  /** How an event moves the nesting depth. */
  function Delta(e: Event): int
  {
    if e.TagStart? then 1 else if e.TagEnd? then -1 else 0
  }

  function Depth(evs: seq<Event>): int
  {
    if evs == [] then 0 else Delta(evs[0]) + Depth(evs[1..])
  }

  /** Every open has its close: the depth ends where it started and never
      goes below it on the way. */
  predicate Balanced(evs: seq<Event>)
  {
    Depth(evs) == 0 && forall k :: 0 <= k <= |evs| ==> Depth(evs[..k]) >= 0
  }

  lemma {:induction false} DepthAppend(a: seq<Event>, b: seq<Event>)
    ensures Depth(a + b) == Depth(a) + Depth(b)
    decreases a
  {
    if a == [] {
      assert a + b == b;
    } else {
      assert (a + b)[1..] == a[1..] + b;
      DepthAppend(a[1..], b);
    }
  }

  lemma BalancedAppend(a: seq<Event>, b: seq<Event>)
    requires Balanced(a) && Balanced(b)
    ensures Balanced(a + b)
  {
    DepthAppend(a, b);
    forall k | 0 <= k <= |a + b|
      ensures Depth((a + b)[..k]) >= 0
    {
      if k <= |a| {
        assert (a + b)[..k] == a[..k];
      } else {
        assert (a + b)[..k] == a + b[..k - |a|];
        DepthAppend(a, b[..k - |a|]);
        assert a[..|a|] == a;
      }
    }
  }

  /** Wrapping a balanced stream in an open and a close keeps it balanced,
      and every proper, non-empty prefix of the result is strictly inside. */
  lemma BalancedWrap(open: Event, inner: seq<Event>, close: Event)
    requires open.TagStart? && close.TagEnd? && Balanced(inner)
    ensures Balanced([open] + inner + [close])
    ensures forall k :: 1 <= k <= |inner| + 1 ==> Depth(([open] + inner + [close])[..k]) >= 1
  {
    var w := [open] + inner + [close];
    DepthAppend([open] + inner, [close]);
    DepthAppend([open], inner);
    assert Depth([close]) == -1 by { assert [close][1..] == []; }
    assert Depth([open]) == 1 by { assert [open][1..] == []; }
    forall k | 1 <= k <= |inner| + 1
      ensures Depth(w[..k]) >= 1
    {
      assert w[..k] == [open] + inner[..k - 1];
      DepthAppend([open], inner[..k - 1]);
    }
    assert w[..|w|] == w;
    assert w[..0] == [];
  }

  /** Emission is balanced and properly nested. */
  lemma {:induction false} EmitBalanced(n: Node)
    ensures Balanced(Emit(n))
    decreases n
  {
    match n
    case Element(_, _, _, children) =>
      EmitAllBalanced(children);
      BalancedWrap(TagStart(TagOf(n)), EmitAll(children), TagEnd(TagOf(n)));
    case NonElement(html) =>
      var e := [ContentUnsafe(html)];
      assert e[1..] == [];
      assert forall k :: 0 <= k <= 1 ==> e[..k] == [] || e[..k] == e;
  }

  lemma {:induction false} EmitAllBalanced(nodes: seq<Node>)
    ensures Balanced(EmitAll(nodes))
    decreases nodes
  {
    if nodes == [] {
      var none: seq<Event> := [];
      assert none[..0] == [];
    } else {
      EmitBalanced(nodes[0]);
      EmitAllBalanced(nodes[1..]);
      BalancedAppend(Emit(nodes[0]), EmitAll(nodes[1..]));
    }
  }
}
