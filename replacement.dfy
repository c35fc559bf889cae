/**
 * The filter driven by the emission of a document (`htmlReplace`,
 * HtmlReplace.kt:23-41, and `jsoupElement`, HtmlReplace.kt:69-89).
 *
 * `Replaced` is an independent, tree-shaped description of what should
 * reach the downstream consumer: every topmost matched element gives way
 * to one invocation of its callback and everything else is copied. The
 * lemmas show that streaming `Emit(n)` through the filter produces exactly
 * that, and what it means for invocations.
 */
module Replacement {
  import opened Wrappers
  import opened Html
  import opened MatchTable
  import opened ReplaceFilter

  /** The downstream output of replacing `n` using `table`. */
  function Replaced(table: Table, n: Node): seq<Emitted>
    decreases n
  {
    match n
    case Element(id, _, _, children) =>
      if id in table then [Invoke(id, table[id])]
      else [Forward(TagStart(TagOf(n)))] + ReplacedAll(table, children) + [Forward(TagEnd(TagOf(n)))]
    case NonElement(html) => [Forward(ContentUnsafe(html))]
  }

  function ReplacedAll(table: Table, nodes: seq<Node>): seq<Emitted>
    decreases nodes
  {
    if nodes == [] then [] else Replaced(table, nodes[0]) + ReplacedAll(table, nodes[1..])
  }

  /** Matched elements with no matched proper ancestor, in document order. */
  function Topmost(table: Table, n: Node): seq<NodeId>
    decreases n
  {
    match n
    case Element(id, _, _, children) => if id in table then [id] else TopmostAll(table, children)
    case NonElement(_) => []
  }

  function TopmostAll(table: Table, nodes: seq<Node>): seq<NodeId>
    decreases nodes
  {
    if nodes == [] then [] else Topmost(table, nodes[0]) + TopmostAll(table, nodes[1..])
  }

  /** `x` is a proper descendant of a matched element of `n`. */
  predicate Nested(table: Table, n: Node, x: NodeId)
    decreases n
  {
    n.Element? && ((n.id in table && x in IdsAll(n.children)) || NestedAll(table, n.children, x))
  }

  predicate NestedAll(table: Table, nodes: seq<Node>, x: NodeId)
    decreases nodes
  {
    nodes != [] && (Nested(table, nodes[0], x) || NestedAll(table, nodes[1..], x))
  }

  /** The elements whose callbacks were invoked, in order of invocation. */
  function Invocations(out: seq<Emitted>): seq<NodeId>
  {
    if out == [] then [] else InvokedBy(out[0]) + Invocations(out[1..])
  }

  function InvokedBy(e: Emitted): seq<NodeId>
  {
    if e.Invoke? then [e.element] else []
  }

  // ---------------------------------------------------------------------
  // The filter run over an emitted tree

  /** From a passing state, the filter turns the emission of `n` into
      `Replaced(table, n)` and ends in the state it started in: the level
      is back, and a drop begun inside `n` has ended at its own close. */
  lemma {:induction false} PassingRun(table: Table, s: FilterState, n: Node)
    requires Inv(s) && s.drop.None?
    ensures Run(table, s, Emit(n)) == Progress(s, Replaced(table, n))
    decreases n
  {
    match n
    case Element(id, _, _, children) =>
      var open, close := TagStart(TagOf(n)), TagEnd(TagOf(n));
      var inner := EmitAll(children);
      RunAppend(table, s, [open] + inner, [close]);
      RunAppend(table, s, [open], inner);
      var s1 := Step(table, s, open).state;
      assert Run(table, s, [open]) == Progress(s1, Step(table, s, open).out);
      if id in table {
        EmitAllBalanced(children);
        SuppressedRun(table, s1, inner);
      } else {
        PassingRunAll(table, s1, children);
      }
    case NonElement(_) =>
  }

  lemma {:induction false} PassingRunAll(table: Table, s: FilterState, nodes: seq<Node>)
    requires Inv(s) && s.drop.None?
    ensures Run(table, s, EmitAll(nodes)) == Progress(s, ReplacedAll(table, nodes))
    decreases nodes
  {
    if nodes != [] {
      PassingRun(table, s, nodes[0]);
      PassingRunAll(table, s, nodes[1..]);
      RunAppend(table, s, Emit(nodes[0]), EmitAll(nodes[1..]));
    }
  }

  /** The drop of a matched element covers exactly its own events: right
      after its open and up to (not including) its close the filter is
      dropping at the element's level, and only the callback has reached
      downstream; its close ends the drop, so whatever follows is treated
      as it would have been without the match. */
  lemma DropEndsAtOwnClose(table: Table, s: FilterState, n: Node, rest: seq<Event>)
    requires Inv(s) && s.drop.None? && n.Element? && n.id in table
    ensures forall k :: 1 <= k < |Emit(n)| ==>
      Run(table, s, Emit(n)[..k]).state.drop == Some(s.level + 1) &&
      Run(table, s, Emit(n)[..k]).out == [Invoke(n.id, table[n.id])]
    ensures Run(table, s, Emit(n)).state == s
    ensures Run(table, s, Emit(n) + rest).out == [Invoke(n.id, table[n.id])] + Run(table, s, rest).out
  {
    var open := TagStart(TagOf(n));
    var inner := EmitAll(n.children);
    var s1 := Step(table, s, open).state;
    EmitAllBalanced(n.children);
    forall k | 1 <= k < |Emit(n)|
      ensures Run(table, s, Emit(n)[..k]).state.drop == Some(s.level + 1)
      ensures Run(table, s, Emit(n)[..k]).out == [Invoke(n.id, table[n.id])]
    {
      var p := inner[..k - 1];
      assert Emit(n)[..k] == [open] + p;
      RunAppend(table, s, [open], p);
      forall j | 0 <= j <= |p|
        ensures s1.level + Depth(p[..j]) >= s1.drop.value
      {
        assert p[..j] == inner[..j];
      }
      SuppressedRun(table, s1, p);
    }
    PassingRun(table, s, n);
    RunAppend(table, s, Emit(n), rest);
  }

  // ---------------------------------------------------------------------
  // Which callbacks run

  lemma {:induction false} InvocationsAppend(a: seq<Emitted>, b: seq<Emitted>)
    ensures Invocations(a + b) == Invocations(a) + Invocations(b)
    decreases a
  {
    if a == [] {
      assert a + b == b;
    } else {
      assert (a + b)[1..] == a[1..] + b;
      assert (a + b)[0] == a[0];
      InvocationsAppend(a[1..], b);
      calc {
        Invocations(a + b);
        InvokedBy(a[0]) + Invocations(a[1..] + b);
        InvokedBy(a[0]) + (Invocations(a[1..]) + Invocations(b));
      }
    }
  }

  /** Every invocation in `out` is of a table entry, with its callback. */
  predicate OwnCallbacks(table: Table, out: seq<Emitted>)
  {
    forall i :: 0 <= i < |out| && out[i].Invoke? ==>
      out[i].element in table && out[i].callback == table[out[i].element]
  }

  lemma OwnCallbacksAppend(table: Table, a: seq<Emitted>, b: seq<Emitted>)
    requires OwnCallbacks(table, a) && OwnCallbacks(table, b)
    ensures OwnCallbacks(table, a + b)
  {
    forall i | 0 <= i < |a + b| && (a + b)[i].Invoke?
      ensures (a + b)[i].element in table && (a + b)[i].callback == table[(a + b)[i].element]
    {
      if i >= |a| {
        assert (a + b)[i] == b[i - |a|];
      }
    }
  }

  lemma InvocationsOfForward(e: Event)
    ensures Invocations([Forward(e)]) == []
  {
  }

  /** The callbacks invoked while replacing `n` are exactly those of its
      topmost matches, in document order, each with its own callback. */
  lemma {:induction false} InvokedAreTopmost(table: Table, n: Node)
    ensures Invocations(Replaced(table, n)) == Topmost(table, n)
    ensures OwnCallbacks(table, Replaced(table, n))
    decreases n
  {
    match n
    case Element(id, _, _, children) =>
      if id in table {
        var one := [Invoke(id, table[id])];
        assert one[1..] == [];
      } else {
        var open, close := Forward(TagStart(TagOf(n))), Forward(TagEnd(TagOf(n)));
        InvokedAreTopmostAll(table, children);
        InvocationsAppend([open] + ReplacedAll(table, children), [close]);
        InvocationsAppend([open], ReplacedAll(table, children));
        InvocationsOfForward(TagStart(TagOf(n)));
        InvocationsOfForward(TagEnd(TagOf(n)));
        OwnCallbacksAppend(table, [open], ReplacedAll(table, children));
        OwnCallbacksAppend(table, [open] + ReplacedAll(table, children), [close]);
      }
    case NonElement(html) =>
      InvocationsOfForward(ContentUnsafe(html));
  }

  lemma {:induction false} InvokedAreTopmostAll(table: Table, nodes: seq<Node>)
    ensures Invocations(ReplacedAll(table, nodes)) == TopmostAll(table, nodes)
    ensures OwnCallbacks(table, ReplacedAll(table, nodes))
    decreases nodes
  {
    if nodes != [] {
      InvokedAreTopmost(table, nodes[0]);
      InvokedAreTopmostAll(table, nodes[1..]);
      InvocationsAppend(Replaced(table, nodes[0]), ReplacedAll(table, nodes[1..]));
      OwnCallbacksAppend(table, Replaced(table, nodes[0]), ReplacedAll(table, nodes[1..]));
    }
  }

  /** Nested matches never reach the topmost list: each topmost match is a
      matched element of `n` with no matched proper ancestor, and
      conversely. */
  lemma {:induction false} TopmostCharacterized(table: Table, n: Node, x: NodeId)
    requires NoDup(Ids(n))
    ensures x in Topmost(table, n) <==> x in table && x in Ids(n) && !Nested(table, n, x)
    decreases n
  {
    match n
    case Element(id, _, _, children) =>
      NoDupSplit([id], IdsAll(children));
      TopmostCharacterizedAll(table, children, x);
      NestedAllInIds(table, children, x);
    case NonElement(_) =>
  }

  lemma {:induction false} TopmostCharacterizedAll(table: Table, nodes: seq<Node>, x: NodeId)
    requires NoDup(IdsAll(nodes))
    ensures x in TopmostAll(table, nodes) <==> x in table && x in IdsAll(nodes) && !NestedAll(table, nodes, x)
    decreases nodes
  {
    if nodes != [] {
      NoDupSplit(Ids(nodes[0]), IdsAll(nodes[1..]));
      TopmostCharacterized(table, nodes[0], x);
      TopmostCharacterizedAll(table, nodes[1..], x);
      NestedInIds(table, nodes[0], x);
      NestedAllInIds(table, nodes[1..], x);
    }
  }

  lemma {:induction false} NestedInIds(table: Table, n: Node, x: NodeId)
    ensures Nested(table, n, x) ==> x in Ids(n)
    decreases n
  {
    if n.Element? {
      NestedAllInIds(table, n.children, x);
    }
  }

  lemma {:induction false} NestedAllInIds(table: Table, nodes: seq<Node>, x: NodeId)
    ensures NestedAll(table, nodes, x) ==> x in IdsAll(nodes)
    decreases nodes
  {
    if nodes != [] {
      NestedInIds(table, nodes[0], x);
      NestedAllInIds(table, nodes[1..], x);
    }
  }

  lemma NoDupSplit(a: seq<NodeId>, b: seq<NodeId>)
    ensures NoDup(a + b) <==> NoDup(a) && NoDup(b) && forall x :: x in a ==> x !in b
  {
    var ab := a + b;
    if NoDup(ab) {
      forall i, j | 0 <= i < j < |a| ensures a[i] != a[j] {
        assert ab[i] == a[i] && ab[j] == a[j];
      }
      forall i, j | 0 <= i < j < |b| ensures b[i] != b[j] {
        assert ab[|a| + i] == b[i] && ab[|a| + j] == b[j];
      }
      forall i, j | 0 <= i < |a| && 0 <= j < |b| ensures a[i] != b[j] {
        assert ab[i] == a[i] && ab[|a| + j] == b[j];
      }
    } else if NoDup(a) && NoDup(b) && forall x :: x in a ==> x !in b {
      forall i, j | 0 <= i < j < |ab| ensures ab[i] != ab[j] {
        if j < |a| {
        } else if |a| <= i {
          assert ab[i] == b[i - |a|] && ab[j] == b[j - |a|];
        } else {
          assert ab[i] == a[i] && ab[j] == b[j - |a|];
          assert a[i] in a && b[j - |a|] in b;
        }
      }
    }
  }

  /** Topmost matches are drawn from the tree's own elements, so they occur
      at most as often as those do. */
  lemma {:induction false} TopmostWithinIds(table: Table, n: Node)
    ensures multiset(Topmost(table, n)) <= multiset(Ids(n))
    decreases n
  {
    if n.Element? && n.id !in table {
      TopmostWithinIdsAll(table, n.children);
    }
  }

  lemma {:induction false} TopmostWithinIdsAll(table: Table, nodes: seq<Node>)
    ensures multiset(TopmostAll(table, nodes)) <= multiset(IdsAll(nodes))
    decreases nodes
  {
    if nodes != [] {
      TopmostWithinIds(table, nodes[0]);
      TopmostWithinIdsAll(table, nodes[1..]);
    }
  }

  lemma {:induction false} NoDupCount(s: seq<NodeId>, x: NodeId)
    requires NoDup(s)
    ensures multiset(s)[x] == if x in s then 1 else 0
    decreases s
  {
    if s != [] {
      assert s == [s[0]] + s[1..];
      NoDupCount(s[1..], x);
    }
  }

  /** Exactly once per topmost match: when elements are distinct objects,
      the callback of a matched element with no matched ancestor is invoked
      exactly once, and that of any other element never. */
  lemma ExactlyOncePerTopmostMatch(table: Table, n: Node, x: NodeId)
    requires NoDup(Ids(n))
    ensures var calls := multiset(Invocations(Run(table, Initial, Emit(n)).out));
      calls[x] == if x in table && x in Ids(n) && !Nested(table, n, x) then 1 else 0
  {
    PassingRun(table, Initial, n);
    InvokedAreTopmost(table, n);
    TopmostCharacterized(table, n, x);
    TopmostWithinIds(table, n);
    NoDupCount(Ids(n), x);
    var m := multiset(Topmost(table, n));
    assert m[x] <= 1;
    if x in Topmost(table, n) {
      assert m[x] >= 1;
    } else {
      assert m[x] == 0;
    }
  }

  /** An element none of whose descendants (nor itself) is in the table is
      copied to the output event for event. */
  lemma {:induction false} UnmatchedIsCopied(table: Table, n: Node)
    requires forall x :: x in Ids(n) ==> x !in table
    ensures Replaced(table, n) == Forwarded(Emit(n))
    decreases n
  {
    match n
    case Element(id, _, _, children) =>
      UnmatchedIsCopiedAll(table, children);
      var open, close := TagStart(TagOf(n)), TagEnd(TagOf(n));
      ForwardedAppend([open] + EmitAll(children), [close]);
      ForwardedAppend([open], EmitAll(children));
    case NonElement(_) =>
  }

  lemma {:induction false} UnmatchedIsCopiedAll(table: Table, nodes: seq<Node>)
    requires forall x :: x in IdsAll(nodes) ==> x !in table
    ensures ReplacedAll(table, nodes) == Forwarded(EmitAll(nodes))
    decreases nodes
  {
    if nodes != [] {
      UnmatchedIsCopied(table, nodes[0]);
      UnmatchedIsCopiedAll(table, nodes[1..]);
      ForwardedAppend(Emit(nodes[0]), EmitAll(nodes[1..]));
    }
  }

  lemma ForwardedAppend(a: seq<Event>, b: seq<Event>)
    ensures Forwarded(a + b) == Forwarded(a) + Forwarded(b)
  {
  }

  // ---------------------------------------------------------------------
  // The traversal and the whole replacement

  /** Running one more node of a sequence. */
  lemma RunSnoc(table: Table, s: FilterState, nodes: seq<Node>, i: nat)
    requires i < |nodes|
    ensures var r := Run(table, s, EmitAll(nodes[..i]));
      var q := Run(table, r.state, Emit(nodes[i]));
      Run(table, s, EmitAll(nodes[..i + 1])) == Progress(q.state, r.out + q.out)
  {
    assert nodes[..i + 1] == nodes[..i] + [nodes[i]];
    EmitAllAppend(nodes[..i], [nodes[i]]);
    assert EmitAll([nodes[i]]) == Emit(nodes[i]) by {
      assert [nodes[i]][1..] == [];
    }
    RunAppend(table, s, EmitAll(nodes[..i]), Emit(nodes[i]));
  }

  /** Running the emission of an element: its open, its children, its close. */
  lemma RunElement(table: Table, s: FilterState, n: Node)
    requires n.Element?
    ensures var r1 := Step(table, s, TagStart(TagOf(n)));
      var r2 := Run(table, r1.state, EmitAll(n.children));
      var r3 := Step(table, r2.state, TagEnd(TagOf(n)));
      Run(table, s, Emit(n)) == Progress(r3.state, r1.out + r2.out + r3.out)
  {
    var open, close := TagStart(TagOf(n)), TagEnd(TagOf(n));
    RunAppend(table, s, [open] + EmitAll(n.children), [close]);
    RunAppend(table, s, [open], EmitAll(n.children));
  }

  /** `jsoupElement`: open the element, visit its children, close it. */
  method JsoupElement(consumer: JsoupReplaceConsumer, element: Node)
    requires element.Element? && consumer.Valid()
    modifies consumer
    ensures consumer.Valid()
    ensures var r := Run(consumer.elementsToReplace, old(consumer.State()), Emit(element));
      consumer.State() == r.state && consumer.downstream == old(consumer.downstream) + r.out
    decreases element, 1
  {
    RunElement(consumer.elementsToReplace, consumer.State(), element);
    var tag := TagOf(element);
    consumer.OnTagStart(tag);
    VisitChildren(consumer, element.children);
    consumer.OnTagEnd(tag);
  }

  /** The block passed to `visitAndFinalize`: each child in order, an
      element recursively and any other node as raw markup. */
  method VisitChildren(consumer: JsoupReplaceConsumer, children: seq<Node>)
    requires consumer.Valid()
    modifies consumer
    ensures consumer.Valid()
    ensures var r := Run(consumer.elementsToReplace, old(consumer.State()), EmitAll(children));
      consumer.State() == r.state && consumer.downstream == old(consumer.downstream) + r.out
    decreases children, 0
  {
    ghost var table := consumer.elementsToReplace;
    ghost var s0 := consumer.State();
    ghost var out0 := consumer.downstream;
    for i := 0 to |children|
      invariant consumer.Valid() && consumer.elementsToReplace == table
      invariant var r := Run(table, s0, EmitAll(children[..i]));
        consumer.State() == r.state && consumer.downstream == out0 + r.out
    {
      RunSnoc(table, s0, children, i);
      VisitChild(consumer, children[i]);
    }
    assert children[..|children|] == children;
  }

  /** One child: an element is visited recursively, any other node is
      written as raw markup. */
  method VisitChild(consumer: JsoupReplaceConsumer, child: Node)
    requires consumer.Valid()
    modifies consumer
    ensures consumer.Valid()
    ensures var r := Run(consumer.elementsToReplace, old(consumer.State()), Emit(child));
      consumer.State() == r.state && consumer.downstream == old(consumer.downstream) + r.out
    decreases child, 2
  {
    if child.Element? {
      JsoupElement(consumer, child);
    } else {
      consumer.OnTagContentUnsafe(child.outerHtml);
    }
  }

  /** `htmlReplace`: build the table from the selectors in order, then stream
      every element child of the body through one filter. `body` is every
      child node of `<body>`; only its elements are visited (`children()`),
      so text, comments and data placed directly in `<body>` never reach the
      serializer. Within the visited elements, each topmost match is
      replaced by its callback's invocation and everything else is copied. */
  method HtmlReplace(body: seq<Node>, cssQuery: seq<(Selector, CallbackId)>, select: Selector -> seq<NodeId>)
    returns (out: seq<Emitted>)
    ensures out == ReplacedAll(BuildTable(cssQuery, select), ElementChildren(body))
  {
    var elementsToReplace := BuildTable(cssQuery, select);
    var elements := ElementChildren(body);
    var consumer := new JsoupReplaceConsumer(elementsToReplace);
    for i := 0 to |elements|
      invariant consumer.Valid() && consumer.elementsToReplace == elementsToReplace
      invariant var r := Run(elementsToReplace, Initial, EmitAll(elements[..i]));
        consumer.State() == r.state && consumer.downstream == r.out
    {
      RunSnoc(elementsToReplace, Initial, elements, i);
      assert elements[i] in elements;
      JsoupElement(consumer, elements[i]);
    }
    out := consumer.downstream;
    assert elements[..|elements|] == elements;
    PassingRunAll(elementsToReplace, Initial, elements);
  }

  /** A query whose selectors match nothing leaves the visited elements as
      they were: every event of their emission reaches the serializer
      unchanged and in order. */
  lemma NoMatchIsIdentity(body: seq<Node>, cssQuery: seq<(Selector, CallbackId)>, select: Selector -> seq<NodeId>)
    requires forall i :: 0 <= i < |cssQuery| ==> select(cssQuery[i].0) == []
    ensures ReplacedAll(BuildTable(cssQuery, select), ElementChildren(body))
         == Forwarded(EmitAll(ElementChildren(body)))
  {
    var elements := ElementChildren(body);
    NothingMatchedEmptyTable(cssQuery, select);
    PassingRunAll(map[], Initial, elements);
    EmptyTablePassesEverything(Initial, EmitAll(elements));
  }
}
