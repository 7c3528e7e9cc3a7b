/** A reference reading of the extractor on well-formed documents.

    A document (or any content between tags) is a forest of element and
    text nodes. The parser reports it as the depth-first event sequence
    `Serialize`; `Render` says, by recursion on the tree rather than with a
    counter, what text the extractor should produce from it. The main
    theorem is that the counter-based handlers compute exactly `Render`. */
module Document {
  import opened NodeClassification
  import opened TextExtractor
  import opened EventStream

  datatype Node<N> = Element(name: N, children: seq<Node<N>>) | Text(content: XmlString)

  /** The events a parser reports for a forest, in document order. */
  function Serialize<N>(f: seq<Node<N>>): seq<Event<N>>
    decreases f
  {
    if |f| == 0 then []
    else
      match f[0]
      case Text(t) => [Chars(t)] + Serialize(f[1..])
      case Element(n, kids) => [Open(n)] + Serialize(kids) + [Close(n)] + Serialize(f[1..])
  }

  /** Text produced from a forest, and whether a separator is still owed
      at its end. */
  datatype Rendered = Rendered(text: XmlString, pending: bool)

  /** What one text node contributes: the owed separator, if any, then
      the text itself unless it is hidden. */
  function Shown(hidden: bool, pending: bool, t: XmlString): XmlString
  {
    (if pending then [Space] else []) + (if hidden then [] else t)
  }

  /** What the extractor writes for forest `f` when `hidden` says whether
      it lies inside an ignored element and `pending` whether a separator
      is owed on entry. Text nodes settle a pending separator and, when
      not hidden, contribute their content; ignored elements hide their
      contents; block elements open with a space and owe one after them;
      inline elements are transparent. */
  function Render<N>(c: Classifier<N>, f: seq<Node<N>>, hidden: bool, pending: bool): Rendered
    decreases f
  {
    if |f| == 0 then Rendered([], pending)
    else
      match f[0]
      case Text(t) =>
        var here := Shown(hidden, pending, t);
        var rest := Render(c, f[1..], hidden, false);
        Rendered(here + rest.text, rest.pending)
      case Element(n, kids) =>
        if IsIgnored(c, n) then
          var inner := Render(c, kids, true, pending);
          var rest := Render(c, f[1..], hidden, inner.pending);
          Rendered(inner.text + rest.text, rest.pending)
        else if !IsInline(c, n) then
          var inner := Render(c, kids, hidden, pending);
          var rest := Render(c, f[1..], hidden, true);
          Rendered([Space] + inner.text + rest.text, rest.pending)
        else
          var inner := Render(c, kids, hidden, pending);
          var rest := Render(c, f[1..], hidden, inner.pending);
          Rendered(inner.text + rest.text, rest.pending)
  }

  lemma {:induction false} AppendAssoc(a: XmlString, b: XmlString, d: XmlString)
    ensures a + b + d == a + (b + d)
  {
  }

  /** The handlers, fed the events of a forest from a non-negative depth,
      compute exactly `Render`: the depth comes back to where it started,
      the buffer grows by the rendered text, and the pending flag ends as
      the rendering says. */
  lemma {:induction false} RunSerialize<N>(c: Classifier<N>, s: ExtractorState, f: seq<Node<N>>)
    requires s.stack >= 0
    ensures var r := Render(c, f, s.stack > 0, s.pending);
            Run(c, s, Serialize(f)) == ExtractorState(s.stack, r.pending, s.buffer + r.text)
    decreases f, 1
  {
    if |f| == 0 {
      assert s.buffer + [] == s.buffer;
    } else if f[0].Text? {
      RunSerializeText(c, s, f);
    } else {
      RunSerializeElement(c, s, f);
    }
  }

  /** At a non-negative depth, a text event writes exactly what
      `Shown` says a text node contributes. */
  lemma {:induction false} CharactersShows(s: ExtractorState, t: XmlString)
    requires s.stack >= 0
    ensures Characters(s, t).next == ExtractorState(s.stack, false, s.buffer + Shown(s.stack > 0, s.pending, t))
  {
  }

  /** `RunSerialize` for a forest that starts with a text node. */
  lemma {:induction false} RunSerializeText<N>(c: Classifier<N>, s: ExtractorState, f: seq<Node<N>>)
    requires s.stack >= 0
    requires |f| > 0 && f[0].Text?
    ensures var r := Render(c, f, s.stack > 0, s.pending);
            Run(c, s, Serialize(f)) == ExtractorState(s.stack, r.pending, s.buffer + r.text)
    decreases f, 0
  {
    var t := f[0].content;
    var hidden := s.stack > 0;
    assert Serialize(f) == [Chars(t)] + Serialize(f[1..]);
    RunCons(c, s, Chars(t), Serialize(f[1..]));
    var s1 := Characters(s, t).next;
    CharactersShows(s, t);
    RunSerialize(c, s1, f[1..]);
    var rest := Render(c, f[1..], hidden, false);
    assert Render(c, f, hidden, s.pending) == Rendered(Shown(hidden, s.pending, t) + rest.text, rest.pending);
    AppendAssoc(s.buffer, Shown(hidden, s.pending, t), rest.text);
  }

  /** `RunSerialize` for a forest that starts with an element. */
  lemma {:induction false} RunSerializeElement<N>(c: Classifier<N>, s: ExtractorState, f: seq<Node<N>>)
    requires s.stack >= 0
    requires |f| > 0 && f[0].Element?
    ensures var r := Render(c, f, s.stack > 0, s.pending);
            Run(c, s, Serialize(f)) == ExtractorState(s.stack, r.pending, s.buffer + r.text)
    decreases f, 0
  {
    var n, kids := f[0].name, f[0].children;
    var tail := Serialize(f[1..]);
    assert Serialize(f) == [Open(n)] + (Serialize(kids) + ([Close(n)] + tail));
    RunCons(c, s, Open(n), Serialize(kids) + ([Close(n)] + tail));
    var s1 := StartElement(c, s, n).next;
    RunConcat(c, s1, Serialize(kids), [Close(n)] + tail);
    RunSerialize(c, s1, kids);
    var s2 := Run(c, s1, Serialize(kids));
    RunCons(c, s2, Close(n), tail);
    var s3 := EndElement(c, s2, n).next;
    RunSerialize(c, s3, f[1..]);
    assert Run(c, s, Serialize(f)) == Run(c, s3, tail);
    var hidden := s.stack > 0;
    if IsIgnored(c, n) {
      var inner := Render(c, kids, true, s.pending);
      var rest := Render(c, f[1..], hidden, inner.pending);
      assert s3 == ExtractorState(s.stack, inner.pending, s.buffer + inner.text);
      AppendAssoc(s.buffer, inner.text, rest.text);
    } else if !IsInline(c, n) {
      var inner := Render(c, kids, hidden, s.pending);
      var rest := Render(c, f[1..], hidden, true);
      assert s3 == ExtractorState(s.stack, true, s.buffer + [Space] + inner.text);
      AppendAssoc(s.buffer, [Space], inner.text);
      AppendAssoc(s.buffer, [Space] + inner.text, rest.text);
    } else {
      var inner := Render(c, kids, hidden, s.pending);
      var rest := Render(c, f[1..], hidden, inner.pending);
      assert s3 == ExtractorState(s.stack, inner.pending, s.buffer + inner.text);
      AppendAssoc(s.buffer, inner.text, rest.text);
    }
  }

  /** The character data of a forest that lies outside every ignored
      element, concatenated in document order with nothing in between. */
  function VisibleText<N>(c: Classifier<N>, f: seq<Node<N>>): XmlString
    decreases f
  {
    if |f| == 0 then []
    else
      match f[0]
      case Text(t) => t + VisibleText(c, f[1..])
      case Element(n, kids) =>
        (if IsIgnored(c, n) then [] else VisibleText(c, kids)) + VisibleText(c, f[1..])
  }

  /** `x` is `v` with zero or more spaces inserted, anywhere: deleting
      some of the spaces of `x` gives back `v`, character for character. */
  predicate SpacesInserted(x: XmlString, v: XmlString)
    decreases |x|
  {
    if |x| == 0 then |v| == 0
    else
      || (|v| > 0 && x[0] == v[0] && SpacesInserted(x[1..], v[1..]))
      || (x[0] == Space && SpacesInserted(x[1..], v))
  }

  lemma {:induction false} SpacesInsertedRefl(v: XmlString)
    ensures SpacesInserted(v, v)
    decreases |v|
  {
    if |v| != 0 {
      SpacesInsertedRefl(v[1..]);
    }
  }

  /** Inserting spaces is compatible with concatenation. */
  lemma {:induction false} SpacesInsertedJoin(x: XmlString, y: XmlString, vx: XmlString, vy: XmlString)
    requires SpacesInserted(x, vx) && SpacesInserted(y, vy)
    ensures SpacesInserted(x + y, vx + vy)
    decreases |x|
  {
    if |x| == 0 {
      assert x + y == y;
      assert vx + vy == vy;
    } else {
      assert (x + y)[0] == x[0];
      assert (x + y)[1..] == x[1..] + y;
      if |vx| > 0 && x[0] == vx[0] && SpacesInserted(x[1..], vx[1..]) {
        SpacesInsertedJoin(x[1..], y, vx[1..], vy);
        assert (vx + vy)[0] == vx[0];
        assert (vx + vy)[1..] == vx[1..] + vy;
      } else {
        SpacesInsertedJoin(x[1..], y, vx, vy);
      }
    }
  }

  /** Spaces put in front are inserted spaces. */
  lemma {:induction false} SpacesInsertedLeading(sp: XmlString, x: XmlString, vx: XmlString)
    requires SpacesFrom(sp, 0) && SpacesInserted(x, vx)
    ensures SpacesInserted(sp + x, vx)
    decreases |sp|
  {
    if |sp| == 0 {
      assert sp + x == x;
    } else {
      assert (sp + x)[0] == Space;
      assert (sp + x)[1..] == sp[1..] + x;
      SpacesInsertedLeading(sp[1..], x, vx);
    }
  }

  /** Inside an ignored element only separator spaces are produced. */
  lemma {:induction false} HiddenRenderIsSpaces<N>(c: Classifier<N>, f: seq<Node<N>>, pending: bool)
    ensures SpacesFrom(Render(c, f, true, pending).text, 0)
    decreases f
  {
    if |f| != 0 {
      match f[0]
      case Text(t) =>
        HiddenRenderIsSpaces(c, f[1..], false);
      case Element(n, kids) =>
        HiddenRenderIsSpaces(c, kids, pending);
        var inner := Render(c, kids, true, pending);
        if IsIgnored(c, n) || IsInline(c, n) {
          HiddenRenderIsSpaces(c, f[1..], inner.pending);
        } else {
          HiddenRenderIsSpaces(c, f[1..], true);
        }
    }
  }

  /** Outside ignored elements, the rendered text is the visible text with
      separator spaces inserted and nothing else: every character of the
      visible text (its own spaces included) appears, in order, and every
      other character is a separator space. */
  lemma {:induction false} RenderKeepsVisibleText<N>(c: Classifier<N>, f: seq<Node<N>>, pending: bool)
    ensures SpacesInserted(Render(c, f, false, pending).text, VisibleText(c, f))
    decreases f, 1
  {
    if |f| == 0 {
    } else if f[0].Text? {
      var t := f[0].content;
      var sep: XmlString := if pending then [Space] else [];
      var rest := Render(c, f[1..], false, false).text;
      var vrest := VisibleText(c, f[1..]);
      RenderKeepsVisibleText(c, f[1..], false);
      assert Render(c, f, false, pending).text == sep + (t + rest) by {
        AppendAssoc(sep, t, rest);
      }
      assert VisibleText(c, f) == t + vrest;
      SpacesInsertedRefl(t);
      SpacesInsertedJoin(t, rest, t, vrest);
      SpacesInsertedLeading(sep, t + rest, t + vrest);
    } else {
      ElementKeepsVisibleText(c, f, pending);
    }
  }

  /** `RenderKeepsVisibleText` for a forest that starts with an element. */
  lemma {:induction false} ElementKeepsVisibleText<N>(c: Classifier<N>, f: seq<Node<N>>, pending: bool)
    requires |f| > 0 && f[0].Element?
    ensures SpacesInserted(Render(c, f, false, pending).text, VisibleText(c, f))
    decreases f, 0
  {
    var n, kids := f[0].name, f[0].children;
    var vkids, vrest := VisibleText(c, kids), VisibleText(c, f[1..]);
    if IsIgnored(c, n) {
      var inner := Render(c, kids, true, pending);
      var rest := Render(c, f[1..], false, inner.pending).text;
      RenderKeepsVisibleText(c, f[1..], inner.pending);
      HiddenRenderIsSpaces(c, kids, pending);
      assert VisibleText(c, f) == [] + vrest == vrest;
      SpacesInsertedLeading(inner.text, rest, vrest);
    } else if !IsInline(c, n) {
      var inner := Render(c, kids, false, pending);
      var rest := Render(c, f[1..], false, true).text;
      RenderKeepsVisibleText(c, kids, pending);
      RenderKeepsVisibleText(c, f[1..], true);
      assert Render(c, f, false, pending).text == [Space] + (inner.text + rest) by {
        AppendAssoc([Space], inner.text, rest);
      }
      SpacesInsertedJoin(inner.text, rest, vkids, vrest);
      SpacesInsertedLeading([Space], inner.text + rest, vkids + vrest);
    } else {
      var inner := Render(c, kids, false, pending);
      var rest := Render(c, f[1..], false, inner.pending).text;
      RenderKeepsVisibleText(c, kids, pending);
      RenderKeepsVisibleText(c, f[1..], inner.pending);
      SpacesInsertedJoin(inner.text, rest, vkids, vrest);
    }
  }

  /** Indexing a whole document with a fresh extractor: the depth counter
      is back at zero, and the buffer is the visible text of the document,
      in order, with separator spaces as the only additions. */
  lemma {:induction false} ExtractDocument<N>(c: Classifier<N>, doc: seq<Node<N>>)
    ensures Run(c, Initial(), Serialize(doc)).stack == 0
    ensures Run(c, Initial(), Serialize(doc)).buffer == Render(c, doc, false, false).text
    ensures SpacesInserted(Run(c, Initial(), Serialize(doc)).buffer, VisibleText(c, doc))
  {
    RunSerialize(c, Initial(), doc);
    assert [] + Render(c, doc, false, false).text == Render(c, doc, false, false).text;
    RenderKeepsVisibleText(c, doc, false);
  }

  /** The events of every forest are balanced: a parser's well-formed
      stream never closes an ignored element it did not open, so the
      counter never drops below its starting value. */
  lemma {:induction false} SerializeBalanced<N>(c: Classifier<N>, f: seq<Node<N>>)
    ensures Balanced(c, Serialize(f))
    decreases f
  {
    if |f| == 0 {
      assert forall k :: 0 <= k <= 0 ==> Serialize(f)[..k] == [];
    } else {
      SerializeBalanced(c, f[1..]);
      match f[0]
      case Text(t) =>
        BalancedChars(c, t);
        BalancedConcat(c, [Chars(t)], Serialize(f[1..]));
      case Element(n, kids) =>
        SerializeBalanced(c, kids);
        BalancedWrap(c, n, Serialize(kids));
        BalancedConcat(c, [Open(n)] + Serialize(kids) + [Close(n)], Serialize(f[1..]));
    }
  }

  /** An ignored element of a document, at any non-negative depth: the
      counter comes back, and the element's character data is irrelevant
      to the extractor, which ends as if all of its text were empty. */
  lemma {:induction false} IgnoredElementHidesText<N>(c: Classifier<N>, s: ExtractorState, name: N, kids: seq<Node<N>>)
    requires IsIgnored(c, name)
    requires s.stack >= 0
    ensures Run(c, s, Serialize([Element(name, kids)])).stack == s.stack
    ensures Run(c, s, Serialize([Element(name, kids)]))
         == Run(c, s, [Open(name)] + Blank(Serialize(kids)) + [Close(name)])
  {
    var f := [Element(name, kids)];
    assert f[1..] == [];
    assert Serialize(f) == [Open(name)] + Serialize(kids) + [Close(name)] + [];
    assert Serialize(f) == [Open(name)] + Serialize(kids) + [Close(name)];
    SerializeBalanced(c, kids);
    BalancedIgnoredSubtree(c, s, name, Serialize(kids));
  }
}
