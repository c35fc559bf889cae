/**
 * Building the table of elements to replace (`htmlReplace`,
 * HtmlReplace.kt:30-32): every selector of the caller's ordered map is
 * resolved, each matched element is paired with that selector's callback,
 * the pairs are flattened in map order and collapsed with `toMap()`, so a
 * later pair for the same element overwrites an earlier one.
 *
 * The selector engine is a parameter `select`: it maps a selector to the
 * elements it matches in the (fixed) document.
 */
module MatchTable {
  import opened Html

  type Selector = string

  /** Table from element identity to the callback that replaces it. */
  type Table = map<NodeId, CallbackId>

  /** `document.select(selector).map { it to function }` */
  function Tagged(nodes: seq<NodeId>, callback: CallbackId): seq<(NodeId, CallbackId)>
  {
    seq(|nodes|, i requires 0 <= i < |nodes| => (nodes[i], callback))
  }

  /** `cssQuery.flatMap { … }`, entries taken in insertion order. */
  function Pairs(query: seq<(Selector, CallbackId)>, select: Selector -> seq<NodeId>): seq<(NodeId, CallbackId)>
    decreases query
  {
    if query == [] then []
    else Tagged(select(query[0].0), query[0].1) + Pairs(query[1..], select)
  }

  /** `toMap()`: pairs are inserted in order, a later key overwrites. */
  function ToMap(ps: seq<(NodeId, CallbackId)>): Table
    decreases |ps|
  {
    if ps == [] then map[]
    else ToMap(ps[..|ps| - 1])[ps[|ps| - 1].0 := ps[|ps| - 1].1]
  }

  function BuildTable(query: seq<(Selector, CallbackId)>, select: Selector -> seq<NodeId>): Table
  {
    ToMap(Pairs(query, select))
  }

  /** What one selector entry alone contributes to the table. */
  function Contribution(nodes: seq<NodeId>, callback: CallbackId): Table
  {
    map x | x in nodes :: callback
  }

  // ---------------------------------------------------------------------

  lemma {:induction false} PairsAppend(a: seq<(Selector, CallbackId)>, b: seq<(Selector, CallbackId)>,
                                       select: Selector -> seq<NodeId>)
    ensures Pairs(a + b, select) == Pairs(a, select) + Pairs(b, select)
    decreases a
  {
    if a == [] {
      assert a + b == b;
    } else {
      assert (a + b)[1..] == a[1..] + b;
      PairsAppend(a[1..], b, select);
    }
  }

  lemma {:induction false} ToMapAppend(a: seq<(NodeId, CallbackId)>, b: seq<(NodeId, CallbackId)>)
    ensures ToMap(a + b) == ToMap(a) + ToMap(b)
    decreases |b|
  {
    if b == [] {
      assert a + b == a;
    } else {
      var ab := a + b;
      var b' := b[..|b| - 1];
      assert ab[..|ab| - 1] == a + b';
      assert ab[|ab| - 1] == b[|b| - 1];
      ToMapAppend(a, b');
    }
  }

  lemma {:induction false} ToMapTagged(nodes: seq<NodeId>, callback: CallbackId)
    ensures ToMap(Tagged(nodes, callback)) == Contribution(nodes, callback)
    decreases |nodes|
  {
    if nodes != [] {
      var init := nodes[..|nodes| - 1];
      assert Tagged(nodes, callback)[..|nodes| - 1] == Tagged(init, callback);
      ToMapTagged(init, callback);
      assert forall x :: x in nodes <==> x in init || x == nodes[|nodes| - 1] by {
        assert nodes == init + [nodes[|nodes| - 1]];
      }
    }
  }

  /** Processing one more selector entry overlays its matches on the table
      built so far: later entries win. */
  lemma BuildTableSnoc(query: seq<(Selector, CallbackId)>, select: Selector -> seq<NodeId>)
    requires query != []
    ensures var last := query[|query| - 1];
      BuildTable(query, select)
        == BuildTable(query[..|query| - 1], select) + Contribution(select(last.0), last.1)
  {
    var last := query[|query| - 1];
    var init := query[..|query| - 1];
    assert query == init + [last];
    PairsAppend(init, [last], select);
    assert Pairs([last], select) == Tagged(select(last.0), last.1) by {
      assert [last][1..] == [];
    }
    ToMapAppend(Pairs(init, select), Tagged(select(last.0), last.1));
    ToMapTagged(select(last.0), last.1);
  }

  /** An element is in the table exactly when some selector matched it. */
  lemma {:induction false} BuildTableKeys(query: seq<(Selector, CallbackId)>, select: Selector -> seq<NodeId>, x: NodeId)
    ensures x in BuildTable(query, select) <==> exists i :: 0 <= i < |query| && x in select(query[i].0)
    decreases |query|
  {
    if query != [] {
      var init := query[..|query| - 1];
      BuildTableSnoc(query, select);
      BuildTableKeys(init, select, x);
      if x in select(query[|query| - 1].0) {
      } else {
        assert (exists i :: 0 <= i < |query| && x in select(query[i].0))
           ==> (exists i :: 0 <= i < |init| && x in select(init[i].0));
      }
    }
  }

  /** When several selector entries match the same element, the table maps
      it to the callback of the last of them. */
  lemma {:induction false} BuildTableLaterWins(query: seq<(Selector, CallbackId)>, select: Selector -> seq<NodeId>,
                                               i: nat, x: NodeId)
    requires i < |query| && x in select(query[i].0)
    requires forall j :: i < j < |query| ==> x !in select(query[j].0)
    ensures x in BuildTable(query, select)
    ensures BuildTable(query, select)[x] == query[i].1
    decreases |query|
  {
    BuildTableSnoc(query, select);
    if i < |query| - 1 {
      BuildTableLaterWins(query[..|query| - 1], select, i, x);
    }
  }

  /** A selector that matches nothing contributes nothing: dropping it from
      the query leaves the table unchanged. */
  lemma NoMatchContributesNothing(query: seq<(Selector, CallbackId)>, select: Selector -> seq<NodeId>, i: nat)
    requires i < |query| && select(query[i].0) == []
    ensures BuildTable(query, select) == BuildTable(query[..i] + query[i + 1..], select)
  {
    assert query == query[..i] + ([query[i]] + query[i + 1..]);
    PairsAppend(query[..i], [query[i]] + query[i + 1..], select);
    PairsAppend([query[i]], query[i + 1..], select);
    var one := [query[i]];
    assert one[1..] == [];
    assert |Pairs(one, select)| == 0;
    PairsAppend(query[..i], query[i + 1..], select);
    assert Pairs([query[i]] + query[i + 1..], select) == Pairs(query[i + 1..], select);
  }

  /** A query whose selectors all match nothing yields the empty table. */
  lemma NothingMatchedEmptyTable(query: seq<(Selector, CallbackId)>, select: Selector -> seq<NodeId>)
    requires forall i :: 0 <= i < |query| ==> select(query[i].0) == []
    ensures BuildTable(query, select) == map[]
  {
    forall x | x in BuildTable(query, select)
      ensures false
    {
      BuildTableKeys(query, select, x);
    }
  }
}
