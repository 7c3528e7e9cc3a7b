/** The default full-text extractor: a three-part state and the three
    event handlers that update it.

    `stack` counts how deep the current position is inside ignored
    elements; text is only kept while it is zero. `pending` records that a
    block element has just ended, so the next text must be preceded by a
    separating space. `buffer` is the text accumulated for the index. */
module TextExtractor {
  import opened NodeClassification

  /** A Java `char`: one UTF-16 code unit. Characters outside the Basic
      Multilingual Plane occupy two of them, and `length()` counts units. */
  newtype JavaChar = x: int | 0 <= x < 0x1_0000

  /** The separator the extractor writes between words. */
  const Space: JavaChar := 0x20

  /** Text as it arrives from the parser and as it is accumulated: a
      sequence of UTF-16 code units, like the source's `XMLString` and
      `StringBuilder`. */
  type XmlString = seq<JavaChar>

  datatype ExtractorState = ExtractorState(stack: int, pending: bool, buffer: XmlString)

  /** A handler's successor state together with the integer the handler returns. */
  datatype StepResult = StepResult(next: ExtractorState, count: int)

  /** The state of a freshly created extractor; the inherited buffer is
      taken to start empty. */
  function Initial(): (s: ExtractorState)
    ensures s.stack == 0 && !s.pending && |s.buffer| == 0
  {
    ExtractorState(0, false, [])
  }

  /** `before` is kept, unchanged, at the front of `after`. */
  predicate IsPrefix(before: XmlString, after: XmlString)
  {
    |before| <= |after| && after[..|before|] == before
  }

  /** Opening tag. Ignored names deepen the ignored region; other block
      (non-inline) names start a new word with one space, returning 1;
      inline names leave everything as it is. The ignored test comes
      first, so a name that is both ignored and inline counts as ignored.
      Nothing here looks at `stack`: a block element opened inside an
      ignored region still adds its space. */
  function StartElement<N>(c: Classifier<N>, s: ExtractorState, name: N): (r: StepResult)
    ensures IsPrefix(s.buffer, r.next.buffer)
    ensures r.next.pending == s.pending
    ensures IsIgnored(c, name) ==>
              r.next.stack == s.stack + 1 && r.next.buffer == s.buffer && r.count == 0
    ensures !IsIgnored(c, name) && !IsInline(c, name) ==>
              r.next.stack == s.stack && r.next.buffer == s.buffer + [Space] && r.count == 1
    ensures !IsIgnored(c, name) && IsInline(c, name) ==> r.next == s && r.count == 0
    ensures r.count == |r.next.buffer| - |s.buffer|
  {
    if IsIgnored(c, name) then
      StepResult(s.(stack := s.stack + 1), 0)
    else if !IsInline(c, name) then
      StepResult(s.(buffer := s.buffer + [Space]), 1)
    else
      StepResult(s, 0)
  }

  /** Closing tag. Ignored names leave the ignored region by one level
      (without any check that it was entered); other block names ask for
      a space before the next text and return 1; inline names change
      nothing. The buffer is never touched. */
  function EndElement<N>(c: Classifier<N>, s: ExtractorState, name: N): (r: StepResult)
    ensures r.next.buffer == s.buffer
    ensures IsIgnored(c, name) ==>
              r.next.stack == s.stack - 1 && r.next.pending == s.pending && r.count == 0
    ensures !IsIgnored(c, name) && !IsInline(c, name) ==>
              r.next.stack == s.stack && r.next.pending && r.count == 1
    ensures !IsIgnored(c, name) && IsInline(c, name) ==> r.next == s && r.count == 0
  {
    if IsIgnored(c, name) then
      StepResult(s.(stack := s.stack - 1), 0)
    else if !IsInline(c, name) then
      StepResult(s.(pending := true), 1)
    else
      StepResult(s, 0)
  }

  /** Character data. A pending separator is written first, whatever the
      depth; then the text itself is written only outside every ignored
      element, and the returned count is the number of text characters
      written, in UTF-16 code units (the separator is not counted). */
  function Characters(s: ExtractorState, text: XmlString): (r: StepResult)
    ensures r.next.stack == s.stack
    ensures !r.next.pending
    ensures s.stack == 0 ==>
              r.next.buffer == s.buffer + (if s.pending then [Space] else []) + text
              && r.count == |text|
    ensures s.stack != 0 ==>
              r.next.buffer == s.buffer + (if s.pending then [Space] else []) && r.count == 0
    ensures IsPrefix(s.buffer, r.next.buffer)
    ensures 0 <= r.count <= |r.next.buffer| - |s.buffer|
  {
    var flushed := if s.pending then s.buffer + [Space] else s.buffer;
    if s.stack == 0 then
      StepResult(ExtractorState(s.stack, false, flushed + text), |text|)
    else
      StepResult(ExtractorState(s.stack, false, flushed), 0)
  }

  /** Ignored beats inline: once a name is ignored, whether it is also
      inline makes no difference to either tag handler. */
  lemma IgnoredBeatsInline<N(!new)>(c: Classifier<N>, s: ExtractorState, name: N)
    requires IsIgnored(c, name)
    ensures StartElement(c, s, name) == StartElement(WithoutInline(c), s, name)
    ensures EndElement(c, s, name) == EndElement(WithoutInline(c), s, name)
    ensures StartElement(c, s, name) == StepResult(s.(stack := s.stack + 1), 0)
    ensures EndElement(c, s, name) == StepResult(s.(stack := s.stack - 1), 0)
  {
  }
}
