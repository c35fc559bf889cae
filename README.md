# htmlReplace in Dafny

A model of `htmlReplace`. This Kotlin function parses an HTML document with
jsoup, resolves a map of CSS selectors to element-replacing callbacks, and
writes the body back out through kotlinx.html. Only the element children
of `<body>` are visited (`children()`, HtmlReplace.kt:28), so text, comments
and data placed directly in `<body>` are dropped from the output. Inside the
visited elements, each element matched by a selector is replaced, together
with its whole subtree, by whatever its callback emits, and everything else
is re-emitted unchanged.

The model has six modules:

- `Wrappers` (`wrappers.dfy`) holds `Option`, for Kotlin's nullable
  `dropLevel`, and `Outcome`, for the handlers that throw.
- `Html` (`html.dfy`) holds the parsed body and the consumer events. A
  `Node` is an `Element` or a `NonElement`. Each `Element` carries a
  `NodeId` that stands for jsoup's reference identity. A `NonElement` is a
  text, comment or data node, written out as raw markup. `Emit` is the
  recursive traversal `jsoupElement`: open, children in order, close. The
  module also proves that this stream is balanced.
- `MatchTable` (`match_table.dfy`) builds the table of elements to replace.
  It flattens the selector entries in insertion order (`flatMap`) and then
  collapses the pairs (`toMap`), so a later pair wins. The selector engine
  is a parameter `select`.
- `ReplaceFilter` (`replace_filter.dfy`) is the tag consumer
  `JsoupReplaceConsumer`. It is given twice:
  - as a pure transition function `Step`, folded over a stream by `Run`,
    over the state (`currentLevel`, `dropLevel`, `skippedLevels`);
  - as a class with those mutable fields, whose handlers are proved to
    perform `Step`.

  The downstream consumer is the sequence of what reached it. That is
  either a forwarded event or `Invoke(element, callback)`, one call of a
  replacement callback.
- `Replacement` (`replacement.dfy`) drives the filter.
  - `JsoupElement` and `VisitChildren` are the recursive traversal, as
    methods that feed the filter object.
  - `HtmlReplace` is the whole operation.
  - `Replaced` is an independent, tree-shaped definition of the intended
    output: every topmost match becomes one invocation, and everything else
    is copied.
  - The lemmas prove that the streaming filter produces exactly `Replaced`,
    and that every callback runs exactly once per topmost match, in
    document order.
- `Scenarios` (`scenarios.dfy`) works three concrete documents: one replaced
  paragraph, two selectors matching the same element, and loose text
  directly in `<body>` that is dropped.

The name `skippedLevels` suggests levels whose close must still be
swallowed, but the code only reads it and removes from it (HtmlReplace.kt:103,
133, 159) and never adds to it. The model keeps `skippedLevels` in the state
and handles it exactly as written; `Inv` together with `RunKeepsInv` proves
that it is always empty, so `canPassCurrentLevel()` is the same as "not
dropping".

## Model

| member | source | states |
|---|---|---|
| Html.EmitBalanced | HtmlReplace.kt:69-89 | the events emitted for a node are balanced and properly nested: the depth never goes below its start and ends where it began |
| Html.EmitAllBalanced | HtmlReplace.kt:79-86 | the children's events, emitted one child after another, are balanced as a whole |
| Html.ElementChildren | HtmlReplace.kt:28 | `children()` keeps exactly the element nodes among the body's child nodes, and nothing else |
| Html.ElementChildrenOne | HtmlReplace.kt:28 | `children()` of a single node is that node when it is an element and nothing otherwise |
| Html.ElementChildrenAppend | HtmlReplace.kt:28 | `children()` keeps the element nodes in document order: filtering `a + b` gives the elements of `a` followed by those of `b` (with the one-node cases this fixes the result exactly, order and multiplicity included) |
| MatchTable.ToMapTagged | HtmlReplace.kt:31-32 | collapsing one selector's pairs (each matched element with that selector's callback) gives the map sending exactly the matched elements to that callback |
| MatchTable.PairsAppend | HtmlReplace.kt:30-31 | flattening the entries is compositional: the pairs of two query parts are concatenated in entry order |
| MatchTable.ToMapAppend | HtmlReplace.kt:32 | collapsing pairs into a map is right-biased: the map of `a + b` is the map of `a` overridden by the map of `b` |
| MatchTable.BuildTableSnoc | HtmlReplace.kt:30-32 | adding one more selector entry overlays its matches, with its callback, on the table built from the earlier entries |
| MatchTable.BuildTableKeys | HtmlReplace.kt:30-32 | an element is in the table if and only if some selector of the query matched it |
| MatchTable.BuildTableLaterWins | HtmlReplace.kt:30-32 | when several entries match the same element, the table holds the callback of the last of them |
| MatchTable.NoMatchContributesNothing | HtmlReplace.kt:30-32 | a selector that matches nothing can be removed from the query without changing the table |
| MatchTable.NothingMatchedEmptyTable | HtmlReplace.kt:30-32 | if no selector matches anything, the table is empty |
| ReplaceFilter.Step | HtmlReplace.kt:106-165 | one event moves the level by +1 (open) or -1 (close) and never adds to `skippedLevels`; it preserves the invariant; at most one thing reaches downstream and nothing does while dropping; a callback runs if and only if a matched element opens while passing, with that element's callback, and the drop then starts at the new level; otherwise a passing filter forwards the event unchanged; a close ends the drop exactly when it is taken at the drop level; content, comment and raw events leave the state unchanged |
| ReplaceFilter.RunAppend | HtmlReplace.kt:98-168 | the filter is a streaming fold: running `a + b` is running `a`, then `b` from the state it left |
| ReplaceFilter.RunLevel | HtmlReplace.kt:106-139 | after any stream, `currentLevel` is the start level plus the number of opens minus the number of closes |
| ReplaceFilter.RunKeepsInv | HtmlReplace.kt:102-139 | from an invariant state, any stream keeps `skippedLevels` empty and the drop level at or below the current level |
| ReplaceFilter.SuppressedRun | HtmlReplace.kt:106-165 | while dropping, a stream that never closes the dropped element reaches downstream with nothing and leaves the drop in place |
| ReplaceFilter.EmptyTablePassesEverything | HtmlReplace.kt:106-165 | with an empty table, a passing filter forwards every event of any stream unchanged and in order |
| ReplaceFilter.JsoupReplaceConsumer.constructor | HtmlReplace.kt:98-104 | a new filter holds the given table, is at level 0, is not dropping, has no skipped levels and has sent nothing downstream |
| ReplaceFilter.JsoupReplaceConsumer.CanPassCurrentLevel | HtmlReplace.kt:159 | true when not dropping and the current level is not skipped; since no level is ever skipped, simply when not dropping |
| ReplaceFilter.JsoupReplaceConsumer.OnTagStart | HtmlReplace.kt:106-118 | raises the level by one; while dropping it changes nothing else; while passing, a matched element invokes its callback once and starts a drop at the new level, and any other tag is forwarded |
| ReplaceFilter.JsoupReplaceConsumer.OnTagEnd | HtmlReplace.kt:128-139 | forwards the close only when passing, removes the current level from `skippedLevels`, ends the drop exactly when it began at this level, and lowers the level by one |
| ReplaceFilter.JsoupReplaceConsumer.OnTagContent | HtmlReplace.kt:141-145 | text is forwarded when passing and swallowed while dropping; the state is unchanged |
| ReplaceFilter.JsoupReplaceConsumer.OnTagContentEntity | HtmlReplace.kt:147-151 | an entity is forwarded when passing and swallowed while dropping; the state is unchanged |
| ReplaceFilter.JsoupReplaceConsumer.OnTagContentUnsafe | HtmlReplace.kt:153-157 | raw markup is forwarded when passing and swallowed while dropping; the state is unchanged |
| ReplaceFilter.JsoupReplaceConsumer.OnTagComment | HtmlReplace.kt:161-165 | a comment is forwarded when passing and swallowed while dropping; the state is unchanged |
| ReplaceFilter.JsoupReplaceConsumer.OnTagAttributeChange | HtmlReplace.kt:120-122 | always fails with the unsupported-operation error; it changes nothing and forwards nothing |
| ReplaceFilter.JsoupReplaceConsumer.OnTagEvent | HtmlReplace.kt:124-126 | always fails with the unsupported-operation error; it changes nothing and forwards nothing |
| Replacement.PassingRun | HtmlReplace.kt:106-139 | from a passing state, the emission of a node through the filter produces exactly `Replaced` and returns to the start state: level restored, not dropping |
| Replacement.PassingRunAll | HtmlReplace.kt:36-38 | the same for a sequence of sibling nodes: each is replaced independently, so the siblings after a match are unaffected by it |
| Replacement.DropEndsAtOwnClose | HtmlReplace.kt:128-138 | for a matched element, from just after its open until just before its close the filter is dropping at the element's level and only the callback has reached downstream; its own close ends the drop, so the events after it are treated as if there had been no match |
| Replacement.InvokedAreTopmost | HtmlReplace.kt:109-117 | the callbacks invoked while replacing a tree are those of its topmost matches, in document order, each with the element's own callback |
| Replacement.TopmostCharacterized | HtmlReplace.kt:109-117 | with distinct elements, an element is a topmost match if and only if it is in the table, is in the tree, and has no matched proper ancestor |
| Replacement.TopmostWithinIds | HtmlReplace.kt:109-117 | topmost matches are drawn from the tree's own elements, as a sub-multiset |
| Replacement.ExactlyOncePerTopmostMatch | HtmlReplace.kt:109-117 | with distinct elements, streaming a tree from the initial state invokes the callback of a matched element with no matched ancestor exactly once, and that of any other element (a nested match, or an element that is not matched) never |
| Replacement.UnmatchedIsCopied | HtmlReplace.kt:70-89 | a subtree with no element in the table is copied to the output event for event |
| Replacement.JsoupElement | HtmlReplace.kt:70-89 | feeding an element to the filter object (open, children, close) changes its state and its downstream output exactly as `Run` over `Emit` of that element |
| Replacement.VisitChildren | HtmlReplace.kt:78-87 | visiting the children in order (an element recursively, any other node as raw markup) acts on the filter as `Run` over their emission |
| Replacement.VisitChild | HtmlReplace.kt:80-85 | one child acts on the filter as `Run` over its emission: an element is visited recursively, any other node is sent as raw markup |
| Replacement.HtmlReplace | HtmlReplace.kt:23-41 | given every child node of `<body>`, the output is the replacement of its element children only (`children()`), in order, through one filter from the initial state, using the table built from the selectors in order: each topmost match gives way to its callback invocation, everything else inside the visited elements is copied, and loose non-element body children are dropped |
| Replacement.NoMatchIsIdentity | HtmlReplace.kt:27-40 | if no selector matches anything, the output is every event of the body's element children's emission, forwarded unchanged and in order (loose body text is still dropped) |
| Scenarios.ReplaceParagraph | HtmlReplace.kt:106-139 | in `<div><p class="a">old</p><span>keep</span></div>`, replacing the paragraph yields the div's open, the callback, the span copied, and the div's close |
| Scenarios.LaterSelectorWins | HtmlReplace.kt:30-32 | with entries `.a` then `p` both matching the one paragraph, the table maps it to the callback of `p` |
| Scenarios.LooseBodyTextDropped | HtmlReplace.kt:27-38 | for `<body>hi <b>x</b></body>` with no selectors, only `<b>x</b>` is emitted; the loose text is lost |

## Left out

- Parsing with `Jsoup.parse` (HtmlReplace.kt:27) is outside the model. The body is given as the sequence of its child nodes; `HtmlReplace` keeps only the elements among them, as `children()` (HtmlReplace.kt:28) does, so the source's loss of text, comments and data placed directly in `<body>` is part of the model.
- Selector resolution with `document.select` (HtmlReplace.kt:31) is the parameter `select`, a function from selector to the matched element ids. The parameter is total: an invalid selector, on which jsoup's resolver throws at HtmlReplace.kt:31 and aborts the call before anything is written, is not modelled.
- Serialization by kotlinx.html (`appendHTML`, `buildString`, `.trim()`, HtmlReplace.kt:34-40) is outside the model. The downstream consumer is the recorded sequence of what reached it.
- The `delayed()` wrapper (HtmlReplace.kt:96) only postpones when an open reaches the filter. It is left out; events reach the filter directly.
- What a callback emits is opaque. Its invocation is recorded as `Invoke(element, callback)`. The callback writes straight to the downstream consumer, so its output is never filtered.
- Tag-name normalisation and the copying of attributes into the tag object (HtmlReplace.kt:56-67) are library calls. Tag names and attributes are carried as opaque payloads.
- `outerHtml()` (HtmlReplace.kt:83) of a non-element node is the opaque string `outerHtml`.
- `finalize()` (HtmlReplace.kt:167) only delegates to the downstream consumer, so it is left out.
- The single-pair overload (HtmlReplace.kt:48-54) only wraps its pair in a one-entry map, so it is left out.
- Throwing is modelled as an `Outcome` that is `Fail` with the exception's message. No other handler runs after it.
- `currentLevel` is an unbounded integer. The 32-bit overflow of Kotlin's `Int` would need a nesting depth of about 2^31 and is not modelled.
- The exactly-once lemmas (`TopmostCharacterized`, `ExactlyOncePerTopmostMatch`) assume distinct element ids. jsoup keys the table by object identity, so distinct elements are distinct keys.
