# Default full-text extractor of the eXist Lucene index

This project models `DefaultTextExtractor`, the component that eXist's Lucene
full-text index uses to turn the node events of an XML document into the text
buffer that gets tokenized. The extractor is a small sequential state machine
with three parts of state:

- `stack` counts how deeply the current position is nested inside *ignored* elements.
- `addSpaceBeforeNext` (here `pending`) records that a block element has just closed.
- `buffer` is the append-only text accumulated for the index.

It has three handlers:

- `startElement` on an ignored name deepens the ignored region. On a block (non-inline) name it writes a word-separating space and returns 1.
- `endElement` on an ignored name leaves the ignored region. On a block name it asks for a separator before the next text and returns 1.
- `characters` first writes any owed separator. Then, only at depth zero, it writes the text itself and returns its length.

A name is ignored or inline when the module configuration, or a present
per-index configuration, declares it so.

Files:

- `wrappers.dfy` holds `Option`, which models the nullable per-index configuration.
- `classification.dfy` (module `NodeClassification`) holds the two configurations and the ignored and inline tests.
- `extractor.dfy` (module `TextExtractor`) holds the state record and the three handlers as pure step functions. Each returns the successor state and the handler's integer result.
- `events.dfy` (module `EventStream`) holds parser events and a fold over event lists. It proves the sequence properties: the buffer only grows, and the counter tracks ignored tags. It also proves that an ignored subtree with a balanced interior restores the counter and ends exactly as if all its character data were empty.
- `document.dfy` (module `Document`) is an independent reference reading. Documents are forests of element and text nodes. `Serialize` gives their depth-first events. `Render` computes the expected text by tree recursion, using a "hidden" flag instead of a counter. `VisibleText` is the text outside ignored elements. The main theorem, `RunSerialize`, says the handlers compute exactly `Render` on every well-formed document. `RenderKeepsVisibleText` says the buffer is the visible text in document order with separator spaces inserted, and nothing else. Every character of the visible text is kept, its own spaces included. `SerializeBalanced` says a document's event stream is balanced, which connects the event-level subtree lemmas to documents.

Behaviour of the code that the model keeps as written:

- `startElement` never looks at `stack`. So a block element opened inside an ignored element still writes its space.
- `characters` writes an owed separator even inside an ignored element.

That is why the subtree properties promise "the same result as with all text emptied", not "nothing added".
`endElement` on an ignored name decrements without a check. On an event stream that is not well-formed, the counter can go negative, and text inside a later ignored element would then be kept. The text-hiding theorems therefore assume a non-negative starting depth. Depth restoration holds from any depth. A parser's well-formed event stream (`Serialize`) never takes the counter below its starting value (`SerializeBalanced`).

Text, both incoming `XMLString` data and the buffer, is a sequence of Java `char`s, that is, UTF-16 code units. So the count `characters` returns is `length()` in code units, and a character outside the Basic Multilingual Plane counts as two.

## Model

| member | source | states |
|---|---|---|
| NodeClassification.IsIgnored | extensions/indexes/lucene/src/org/exist/indexing/lucene/DefaultTextExtractor.java:33 | a name is ignored exactly when one of the present configurations (the mandatory one, or the per-index one when not null) declares it ignored |
| NodeClassification.IsInline | extensions/indexes/lucene/src/org/exist/indexing/lucene/DefaultTextExtractor.java:42-44 | a name is inline exactly when one of the present configurations declares it inline |
| TextExtractor.Initial | extensions/indexes/lucene/src/org/exist/indexing/lucene/DefaultTextExtractor.java:29-30 | a new extractor starts at depth 0 with no separator owed and an empty buffer |
| TextExtractor.StartElement | extensions/indexes/lucene/src/org/exist/indexing/lucene/DefaultTextExtractor.java:32-40 | ignored name: depth +1, buffer and flag unchanged, returns 0; block name: exactly one space appended, depth unchanged, returns 1; non-ignored inline name: nothing changes, returns 0; the return value is the number of characters appended, and the buffer keeps its old content as a prefix |
| TextExtractor.EndElement | extensions/indexes/lucene/src/org/exist/indexing/lucene/DefaultTextExtractor.java:46-54 | ignored name: depth -1, returns 0; block name: separator flag set, depth unchanged, returns 1; inline name: nothing changes, returns 0; the buffer is never touched |
| TextExtractor.Characters | extensions/indexes/lucene/src/org/exist/indexing/lucene/DefaultTextExtractor.java:56-66 | an owed separator is written as exactly one space and cleared whatever the depth; at depth 0 the text follows verbatim and its length in UTF-16 code units is returned; otherwise no text is written and 0 is returned; the depth never changes |
| TextExtractor.IgnoredBeatsInline | extensions/indexes/lucene/src/org/exist/indexing/lucene/DefaultTextExtractor.java:32-54 | for an ignored name, both tag handlers act as for a purely ignored name: withdrawing every inline declaration changes neither result |
| EventStream.Step | extensions/indexes/lucene/src/org/exist/indexing/lucene/DefaultTextExtractor.java:32-66 | every event keeps the old buffer as a prefix of the new one and moves the depth by exactly the event's ignored-tag delta |
| EventStream.Run | extensions/indexes/lucene/src/org/exist/indexing/lucene/DefaultTextExtractor.java:29-66 | over any event sequence the buffer only grows (the old buffer stays a prefix), and the final depth is the start depth plus ignored openings minus ignored closings |
| EventStream.HiddenRunAddsOnlySpaces | extensions/indexes/lucene/src/org/exist/indexing/lucene/DefaultTextExtractor.java:56-66 | while the depth is positive before every event, every character added to the buffer is a space |
| EventStream.HiddenRunIgnoresText | extensions/indexes/lucene/src/org/exist/indexing/lucene/DefaultTextExtractor.java:56-66 | while the depth is positive before every event, the run ends in exactly the state it reaches with every text event emptied: no character data gets through, not even data made of spaces, and only separator spaces are added |
| EventStream.InteriorStaysHidden | extensions/indexes/lucene/src/org/exist/indexing/lucene/DefaultTextExtractor.java:46-66 | once inside an ignored element, a balanced interior followed by the matching closing tag brings the depth down by exactly one, adds only spaces, and ends exactly as with the interior's text emptied |
| EventStream.IgnoredSubtreeRestoresDepth | extensions/indexes/lucene/src/org/exist/indexing/lucene/DefaultTextExtractor.java:32-54 | an ignored element whose interior has zero net ignored depth brings the depth back to its starting value, from any starting value |
| EventStream.BalancedIgnoredSubtree | extensions/indexes/lucene/src/org/exist/indexing/lucene/DefaultTextExtractor.java:32-66 | an ignored element with a balanced interior, entered at a non-negative depth, restores the depth and ends exactly as if every text event inside were empty, so only separator spaces can be added |
| Document.RunSerialize | extensions/indexes/lucene/src/org/exist/indexing/lucene/DefaultTextExtractor.java:29-66 | on the events of any document forest, the counter-based handlers end at the starting depth with exactly the buffer and pending flag of the tree-recursive reference rendering |
| Document.HiddenRenderIsSpaces | extensions/indexes/lucene/src/org/exist/indexing/lucene/DefaultTextExtractor.java:56-66 | inside an ignored element the reference rendering consists of spaces only |
| Document.RenderKeepsVisibleText | extensions/indexes/lucene/src/org/exist/indexing/lucene/DefaultTextExtractor.java:32-66 | outside ignored elements, the rendered text is the visible text with separator spaces inserted: every visible character, spaces included, is kept in order, and nothing else is added |
| Document.ExtractDocument | extensions/indexes/lucene/src/org/exist/indexing/lucene/DefaultTextExtractor.java:29-66 | a fresh extractor fed a whole document ends at depth 0, and its buffer is the visible text of the document in order with separator spaces as the only additions |
| Document.SerializeBalanced | extensions/indexes/lucene/src/org/exist/indexing/lucene/DefaultTextExtractor.java:33-34 | the event stream of any document is balanced: it never closes an ignored element it did not open, so the depth never drops below its starting value |
| Document.IgnoredElementHidesText | extensions/indexes/lucene/src/org/exist/indexing/lucene/DefaultTextExtractor.java:32-66 | an ignored element of a document, at a non-negative depth, restores the depth and leaves the extractor exactly as if all of its text were empty |

## Left out

- StartElement: `stack` is an unbounded integer. The Java `int` would wrap only after 2^31 nested ignored elements, which no real document reaches.
- EndElement: same as above for the decrement, which wraps only below -2^31.
- `AbstractTextExtractor` is not part of this model. Its `configure`, its `getText` and the concrete buffer type are not shown. The buffer is taken to start empty, and appending an `XMLString` is taken to append its UTF-16 code units in order.
- How the module and per-index configurations are loaded, and what makes a name ignored or inline, are not modelled. Each configuration is a pair of arbitrary predicates on names, and names are a type parameter.
- The caller that drives the extractor and consumes the handlers' return values is not part of this model. The event stream it produces is modelled by `Serialize` for well-formed documents, and by arbitrary event lists otherwise.
- `src/org/exist/JettyStart.java` is not modelled. It covers process start-up, the embedded web server, the shutdown hook and the exit timer, which are all I/O, threads and process lifecycle.
- `test/src/org/exist/xquery/CleanupTest.java` is not modelled. The query-state reset it exercises lives in classes that are not part of this model.
- The broker pool is not part of this model. This covers acquire/release, bounded size and shutdown sequencing, whose code is not among the modelled files and whose point is concurrency.
