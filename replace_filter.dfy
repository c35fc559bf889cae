/**
 * The replacement filter (`JsoupReplaceConsumer`, HtmlReplace.kt:98-168): a
 * tag consumer that sits in front of a downstream consumer and, while
 * events stream through it, either forwards each event, swallows it, or
 * replaces a matched element's opening by one invocation of its callback.
 *
 * `Step` is the filter's reaction to one event as a function of its state;
 * `Run` folds it over a stream. The class `JsoupReplaceConsumer` below is
 * the object itself, whose handlers are proved to perform `Step`.
 * The downstream consumer is modelled as the sequence of what reached it.
 */
module ReplaceFilter {
  import opened Wrappers
  import opened Html
  import opened MatchTable

  /** What reaches the downstream consumer: a forwarded event, or the
      invocation of a replacement callback with the matched element. */
  datatype Emitted =
    | Forward(event: Event)
    | Invoke(element: NodeId, callback: CallbackId)

  /** `currentLevel`, `dropLevel` and `skippedLevels`. */
  datatype FilterState = FilterState(level: int, drop: Option<int>, skipped: set<int>)

  datatype Progress = Progress(state: FilterState, out: seq<Emitted>)

  const Initial := FilterState(0, None, {})

  /** `canPassCurrentLevel()` */
  predicate CanPass(s: FilterState)
  {
    s.drop.None? && s.level !in s.skipped
  }

  /** The state every reachable filter is in: `skippedLevels` is empty, and a
      drop level, when set, is the level of an element still open. */
  predicate Inv(s: FilterState)
  {
    s.skipped == {} && (s.drop.Some? ==> s.drop.value <= s.level)
  }

  /** Does opening `tag` in state `s` trigger a replacement? */
  predicate Replaces(table: Table, s: FilterState, tag: Tag)
  {
    s.drop.None? && tag.JsoupTag? && tag.element in table
  }

  function Step(table: Table, s: FilterState, e: Event): (r: Progress)
    // the level follows the event's nesting, and `skippedLevels` is never added to
    ensures r.state.level == s.level + Delta(e)
    ensures r.state.skipped <= s.skipped
    ensures Inv(s) ==> Inv(r.state)
    // at most one thing reaches downstream, and nothing at all while dropping
    ensures |r.out| <= 1
    ensures s.drop.Some? ==> r.out == []
    // a callback runs exactly on the open of a matched element while passing,
    // with that element's callback, and starts a drop at the new level
    ensures (r.out != [] && r.out[0].Invoke?) <==> e.TagStart? && Replaces(table, s, e.tag)
    ensures e.TagStart? && Replaces(table, s, e.tag) ==>
      r.out == [Invoke(e.tag.element, table[e.tag.element])] && r.state.drop == Some(r.state.level)
    // otherwise a passing filter forwards the event unchanged
    ensures s.skipped == {} && s.drop.None? && !(e.TagStart? && Replaces(table, s, e.tag)) ==> r.out == [Forward(e)]
    // the drop ends exactly at the close taken at the drop level
    ensures e.TagEnd? ==> (r.state.drop.None? <==> s.drop.None? || s.drop == Some(s.level))
    ensures !e.TagStart? && !e.TagEnd? ==> r.state == s
  {
    match e
    case TagStart(tag) =>
      var level := s.level + 1;
      if s.drop.None? then
        if tag.JsoupTag? && tag.element in table then
          Progress(s.(level := level, drop := Some(level)), [Invoke(tag.element, table[tag.element])])
        else
          Progress(s.(level := level), [Forward(e)])
      else
        Progress(s.(level := level), [])
    case TagEnd(_) =>
      var out := if CanPass(s) then [Forward(e)] else [];
      var drop := if s.drop == Some(s.level) then None else s.drop;
      Progress(FilterState(s.level - 1, drop, s.skipped - {s.level}), out)
    case _ =>
      Progress(s, if CanPass(s) then [Forward(e)] else [])
  }

  /** The filter's state and output after a whole stream. */
  function Run(table: Table, s: FilterState, evs: seq<Event>): Progress
    decreases evs
  {
    if evs == [] then Progress(s, [])
    else
      var first := Step(table, s, evs[0]);
      var rest := Run(table, first.state, evs[1..]);
      Progress(rest.state, first.out + rest.out)
  }

  /** Every event forwarded unchanged, in order. */
  function Forwarded(evs: seq<Event>): seq<Emitted>
  {
    seq(|evs|, i requires 0 <= i < |evs| => Forward(evs[i]))
  }

  // ---------------------------------------------------------------------
  // Properties of runs over arbitrary streams

  lemma {:induction false} RunAppend(table: Table, s: FilterState, a: seq<Event>, b: seq<Event>)
    ensures var ra := Run(table, s, a);
      var rb := Run(table, ra.state, b);
      Run(table, s, a + b) == Progress(rb.state, ra.out + rb.out)
    decreases a
  {
    if a == [] {
      assert a + b == b;
    } else {
      assert (a + b)[1..] == a[1..] + b;
      RunAppend(table, Step(table, s, a[0]).state, a[1..], b);
    }
  }

  /** Each open raises `currentLevel` by one and each close lowers it by one. */
  lemma {:induction false} RunLevel(table: Table, s: FilterState, evs: seq<Event>)
    ensures Run(table, s, evs).state.level == s.level + Depth(evs)
    decreases evs
  {
    if evs != [] {
      RunLevel(table, Step(table, s, evs[0]).state, evs[1..]);
    }
  }

  /** The invariant holds after any stream whatsoever; in particular
      `skippedLevels` stays empty. */
  lemma {:induction false} RunKeepsInv(table: Table, s: FilterState, evs: seq<Event>)
    requires Inv(s)
    ensures Inv(Run(table, s, evs).state)
    ensures Run(table, s, evs).state.skipped == {}
    decreases evs
  {
    if evs != [] {
      RunKeepsInv(table, Step(table, s, evs[0]).state, evs[1..]);
    }
  }

  /** While dropping, a stream that never closes the dropped element (its
      depth never falls below the drop level) reaches downstream with
      nothing, and leaves the drop in place. */
  lemma {:induction false} SuppressedRun(table: Table, s: FilterState, evs: seq<Event>)
    requires Inv(s) && s.drop.Some?
    requires forall k :: 0 <= k <= |evs| ==> s.level + Depth(evs[..k]) >= s.drop.value
    ensures Run(table, s, evs) == Progress(s.(level := s.level + Depth(evs)), [])
    decreases evs
  {
    if evs != [] {
      var e := evs[0];
      var s1 := Step(table, s, e).state;
      assert evs[..1] == [e];
      assert Depth([e]) == Delta(e) by { assert [e][1..] == []; }
      assert s1.drop == s.drop;
      forall k | 0 <= k <= |evs[1..]|
        ensures s1.level + Depth(evs[1..][..k]) >= s1.drop.value
      {
        assert evs[..k + 1] == [e] + evs[1..][..k];
        DepthAppend([e], evs[1..][..k]);
      }
      SuppressedRun(table, s1, evs[1..]);
      DepthAppend([e], evs[1..]);
      assert evs == [e] + evs[1..];
    }
  }

  /** With an empty table a passing filter is the identity on any stream. */
  lemma {:induction false} EmptyTablePassesEverything(s: FilterState, evs: seq<Event>)
    requires s.drop.None? && s.skipped == {}
    ensures Run(map[], s, evs).out == Forwarded(evs)
    ensures Run(map[], s, evs).state == s.(level := s.level + Depth(evs))
    decreases evs
  {
    if evs != [] {
      var s1 := Step(map[], s, evs[0]).state;
      EmptyTablePassesEverything(s1, evs[1..]);
      assert Forwarded(evs) == [Forward(evs[0])] + Forwarded(evs[1..]);
    }
  }

  // ---------------------------------------------------------------------
  // The filter object

  class JsoupReplaceConsumer {
    const elementsToReplace: Table
    var currentLevel: int
    var skippedLevels: set<int>
    var dropLevel: Option<int>
    /** Everything that reached the downstream consumer, in order. */
    var downstream: seq<Emitted>

    function State(): FilterState
      reads this
    {
      FilterState(currentLevel, dropLevel, skippedLevels)
    }

    ghost predicate Valid()
      reads this
    {
      Inv(State())
    }

    constructor (elementsToReplace: Table)
      ensures Valid()
      ensures this.elementsToReplace == elementsToReplace
      ensures State() == Initial && downstream == []
    {
      this.elementsToReplace := elementsToReplace;
      currentLevel := 0;
      skippedLevels := {};
      dropLevel := None;
      downstream := [];
    }

    /** Whether the current position may reach downstream; since
        `skippedLevels` stays empty, this is just "not dropping". */
    predicate CanPassCurrentLevel(): (r: bool)
      reads this
      ensures r <==> CanPass(State())
      ensures Valid() ==> (r <==> dropLevel.None?)
    {
      dropLevel.None? && currentLevel !in skippedLevels
    }

    method OnTagStart(tag: Tag)
      requires Valid()
      modifies this
      ensures Valid()
      ensures currentLevel == old(currentLevel) + 1 && skippedLevels == old(skippedLevels)
      ensures old(dropLevel).Some? ==> dropLevel == old(dropLevel) && downstream == old(downstream)
      ensures old(dropLevel).None? && tag.JsoupTag? && tag.element in elementsToReplace ==>
        dropLevel == Some(currentLevel) &&
        downstream == old(downstream) + [Invoke(tag.element, elementsToReplace[tag.element])]
      ensures old(dropLevel).None? && !(tag.JsoupTag? && tag.element in elementsToReplace) ==>
        dropLevel.None? && downstream == old(downstream) + [Forward(TagStart(tag))]
      ensures var r := Step(elementsToReplace, old(State()), TagStart(tag));
        State() == r.state && downstream == old(downstream) + r.out
    {
      currentLevel := currentLevel + 1;
      if dropLevel.None? {
        if tag.JsoupTag? && tag.element in elementsToReplace {
          downstream := downstream + [Invoke(tag.element, elementsToReplace[tag.element])];
          dropLevel := Some(currentLevel);
        } else {
          downstream := downstream + [Forward(TagStart(tag))];
        }
      }
    }

    method OnTagEnd(tag: Tag)
      requires Valid()
      modifies this
      ensures Valid()
      ensures currentLevel == old(currentLevel) - 1 && skippedLevels == old(skippedLevels) - {old(currentLevel)}
      ensures downstream == old(downstream) + (if old(dropLevel).None? then [Forward(TagEnd(tag))] else [])
      ensures dropLevel == if old(dropLevel) == Some(old(currentLevel)) then None else old(dropLevel)
      ensures var r := Step(elementsToReplace, old(State()), TagEnd(tag));
        State() == r.state && downstream == old(downstream) + r.out
    {
      if CanPassCurrentLevel() {
        downstream := downstream + [Forward(TagEnd(tag))];
      }
      skippedLevels := skippedLevels - {currentLevel};
      if dropLevel == Some(currentLevel) {
        dropLevel := None;
      }
      currentLevel := currentLevel - 1;
    }

    /** The four content handlers share one shape: forward when passing. */
    method PassIfAllowed(e: Event)
      requires Valid() && !e.TagStart? && !e.TagEnd?
      modifies this`downstream
      ensures downstream == old(downstream) + (if dropLevel.None? then [Forward(e)] else [])
      ensures var r := Step(elementsToReplace, State(), e);
        State() == r.state && downstream == old(downstream) + r.out
    {
      if CanPassCurrentLevel() {
        downstream := downstream + [Forward(e)];
      }
    }

    method OnTagContent(content: string)
      requires Valid()
      modifies this`downstream
      ensures downstream == old(downstream) + (if dropLevel.None? then [Forward(Content(content))] else [])
      ensures var r := Step(elementsToReplace, State(), Content(content));
        State() == r.state && downstream == old(downstream) + r.out
    {
      PassIfAllowed(Content(content));
    }

    method OnTagContentEntity(entity: string)
      requires Valid()
      modifies this`downstream
      ensures downstream == old(downstream) + (if dropLevel.None? then [Forward(ContentEntity(entity))] else [])
      ensures var r := Step(elementsToReplace, State(), ContentEntity(entity));
        State() == r.state && downstream == old(downstream) + r.out
    {
      PassIfAllowed(ContentEntity(entity));
    }

    method OnTagContentUnsafe(html: string)
      requires Valid()
      modifies this`downstream
      ensures downstream == old(downstream) + (if dropLevel.None? then [Forward(ContentUnsafe(html))] else [])
      ensures var r := Step(elementsToReplace, State(), ContentUnsafe(html));
        State() == r.state && downstream == old(downstream) + r.out
    {
      PassIfAllowed(ContentUnsafe(html));
    }

    method OnTagComment(content: string)
      requires Valid()
      modifies this`downstream
      ensures downstream == old(downstream) + (if dropLevel.None? then [Forward(Comment(content))] else [])
      ensures var r := Step(elementsToReplace, State(), Comment(content));
        State() == r.state && downstream == old(downstream) + r.out
    {
      PassIfAllowed(Comment(content));
    }

    /** Changing an attribute of an open tag is refused: the call fails and
        nothing changes or reaches downstream. */
    method OnTagAttributeChange(tag: Tag, attribute: string, value: Option<string>) returns (r: Outcome<string>)
      ensures r == Fail("this filter doesn't support onTagAttributeChange")
    {
      r := Fail("this filter doesn't support onTagAttributeChange");
    }

    /** Binding an event handler to an open tag is refused likewise. */
    method OnTagEvent(tag: Tag, event: string) returns (r: Outcome<string>)
      ensures r == Fail("this filter doesn't support onTagEvent")
    {
      r := Fail("this filter doesn't support onTagEvent");
    }
  }
}
