/** Worked examples on concrete documents. */
module Scenarios {
  import opened Html
  import opened MatchTable
  import opened ReplaceFilter
  import opened Replacement

  const Old := NonElement("old")
  const Keep := NonElement("keep")
  const P := Element(2, "p", [Attribute("class", "a")], [Old])
  const Span := Element(3, "span", [], [Keep])
  const Div := Element(1, "div", [], [P, Span])

  /** `<div><p class="a">old</p><span>keep</span></div>` with `.a` replaced:
      the paragraph gives way to its callback, the span is copied. */
  lemma ReplaceParagraph(callback: CallbackId)
    ensures ReplacedAll(map[2 := callback], [Div]) ==
      [ Forward(TagStart(TagOf(Div))), Invoke(2, callback),
        Forward(TagStart(TagOf(Span))), Forward(ContentUnsafe("keep")), Forward(TagEnd(TagOf(Span))),
        Forward(TagEnd(TagOf(Div))) ]
  {
    var t := map[2 := callback];
    assert [Keep][1..] == [] && [Span][1..] == [] && [Div][1..] == [] && [P, Span][1..] == [Span];
    var span := [Forward(TagStart(TagOf(Span))), Forward(ContentUnsafe("keep")), Forward(TagEnd(TagOf(Span)))];
    assert ReplacedAll(t, [Keep]) == [Forward(ContentUnsafe("keep"))];
    assert Replaced(t, Span) == span;
    assert ReplacedAll(t, [Span]) == span;
    assert Replaced(t, P) == [Invoke(2, callback)];
    assert ReplacedAll(t, [P, Span]) == [Invoke(2, callback)] + span;
  }

  /** Two selectors matching the same paragraph: the later entry's callback
      replaces it. */
  lemma LaterSelectorWins(x: CallbackId, y: CallbackId, select: Selector -> seq<NodeId>)
    requires select(".a") == [2] && select("p") == [2]
    ensures BuildTable([(".a", x), ("p", y)], select) == map[2 := y]
  {
    var q: seq<(Selector, CallbackId)> := [(".a", x), ("p", y)];
    var none: seq<(Selector, CallbackId)> := [];
    BuildTableSnoc(q, select);
    assert q[..1] == [(".a", x)];
    BuildTableSnoc(q[..1], select);
    assert q[..1][..0] == none;
  }

  const Hi := NonElement("hi ")
  const Bold := Element(4, "b", [], [NonElement("x")])

  /** `<body>hi <b>x</b></body>` with no selectors: only the element child of
      the body is visited, so the loose text `hi ` never reaches the output. */
  lemma LooseBodyTextDropped(select: Selector -> seq<NodeId>)
    ensures ReplacedAll(BuildTable([], select), ElementChildren([Hi, Bold])) ==
      [Forward(TagStart(TagOf(Bold))), Forward(ContentUnsafe("x")), Forward(TagEnd(TagOf(Bold)))]
  {
    var t := BuildTable([], select);
    assert t == map[];
    assert [Hi, Bold][1..] == [Bold] && [Bold][1..] == [];
    assert ElementChildren([Hi, Bold]) == [Bold];
    var x := NonElement("x");
    assert [x][1..] == [];
    assert ReplacedAll(t, [x]) == [Forward(ContentUnsafe("x"))];
    assert ReplacedAll(t, [Bold]) == Replaced(t, Bold);
  }
}
