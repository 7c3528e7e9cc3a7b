/** The extractor driven by a stream of parser events, and the properties
    of whole event sequences: the buffer only grows, the depth counter
    tracks ignored tags, and text inside an ignored subtree is dropped. */
module EventStream {
  import opened NodeClassification
  import opened TextExtractor

  /** One notification from the parser: an opening tag, a closing tag or
      a run of character data. */
  datatype Event<N> = Open(name: N) | Close(name: N) | Chars(text: XmlString)

  /** How much one event moves the ignored-depth counter. */
  function Delta<N>(c: Classifier<N>, e: Event<N>): int
  {
    match e
    case Open(n) => if IsIgnored(c, n) then 1 else 0
    case Close(n) => if IsIgnored(c, n) then -1 else 0
    case Chars(_) => 0
  }

  /** Net ignored depth of an event sequence: ignored opening tags minus
      ignored closing tags. */
  function Depth<N>(c: Classifier<N>, evs: seq<Event<N>>): int
  {
    if |evs| == 0 then 0 else Delta(c, evs[0]) + Depth(c, evs[1..])
  }

  /** Dispatches one event to its handler. */
  function Step<N>(c: Classifier<N>, s: ExtractorState, e: Event<N>): (r: StepResult)
    ensures IsPrefix(s.buffer, r.next.buffer)
    ensures r.next.stack == s.stack + Delta(c, e)
  {
    match e
    case Open(n) => StartElement(c, s, n)
    case Close(n) => EndElement(c, s, n)
    case Chars(t) => Characters(s, t)
  }

  /** Feeds the events to the extractor in order. */
  function Run<N>(c: Classifier<N>, s: ExtractorState, evs: seq<Event<N>>): (r: ExtractorState)
    ensures IsPrefix(s.buffer, r.buffer)
    ensures r.stack == s.stack + Depth(c, evs)
    decreases |evs|
  {
    if |evs| == 0 then s
    else
      var s1 := Step(c, s, evs[0]).next;
      var r := Run(c, s1, evs[1..]);
      assert r.buffer[..|s.buffer|] == r.buffer[..|s1.buffer|][..|s.buffer|];
      r
  }

  /** Running two sequences one after the other is running their
      concatenation. */
  lemma {:induction false} RunConcat<N>(c: Classifier<N>, s: ExtractorState, a: seq<Event<N>>, b: seq<Event<N>>)
    ensures Run(c, s, a + b) == Run(c, Run(c, s, a), b)
    decreases |a|
  {
    if |a| != 0 {
      assert (a + b)[0] == a[0];
      assert (a + b)[1..] == a[1..] + b;
      RunConcat(c, Step(c, s, a[0]).next, a[1..], b);
    } else {
      assert a + b == b;
    }
  }

  /** One event at the head of a sequence is handled first. */
  lemma {:induction false} RunCons<N>(c: Classifier<N>, s: ExtractorState, e: Event<N>, rest: seq<Event<N>>)
    ensures Run(c, s, [e] + rest) == Run(c, Step(c, s, e).next, rest)
  {
    assert ([e] + rest)[0] == e;
    assert ([e] + rest)[1..] == rest;
  }

  /** Depth is additive over concatenation. */
  lemma {:induction false} DepthConcat<N>(c: Classifier<N>, a: seq<Event<N>>, b: seq<Event<N>>)
    ensures Depth(c, a + b) == Depth(c, a) + Depth(c, b)
    decreases |a|
  {
    if |a| != 0 {
      assert (a + b)[0] == a[0];
      assert (a + b)[1..] == a[1..] + b;
      DepthConcat(c, a[1..], b);
    } else {
      assert a + b == b;
    }
  }

  /** The events close every ignored element they open, and never close
      one they did not open. */
  ghost predicate Balanced<N>(c: Classifier<N>, evs: seq<Event<N>>)
  {
    && Depth(c, evs) == 0
    && forall k :: 0 <= k <= |evs| ==> Depth(c, evs[..k]) >= 0
  }

  /** Two balanced sequences in a row are balanced. */
  lemma {:induction false} BalancedConcat<N>(c: Classifier<N>, a: seq<Event<N>>, b: seq<Event<N>>)
    requires Balanced(c, a) && Balanced(c, b)
    ensures Balanced(c, a + b)
  {
    DepthConcat(c, a, b);
    forall k | 0 <= k <= |a + b|
      ensures Depth(c, (a + b)[..k]) >= 0
    {
      if k <= |a| {
        assert (a + b)[..k] == a[..k];
      } else {
        assert (a + b)[..k] == a + b[..k - |a|];
        DepthConcat(c, a, b[..k - |a|]);
      }
    }
  }

  /** A balanced sequence between an opening and a closing tag of the same
      name is balanced: the name is classified the same way both times. */
  lemma {:induction false} BalancedWrap<N>(c: Classifier<N>, name: N, a: seq<Event<N>>)
    requires Balanced(c, a)
    ensures Balanced(c, [Open(name)] + a + [Close(name)])
  {
    var w := [Open(name)] + a + [Close(name)];
    assert Depth(c, [Open(name)]) == Delta(c, Open(name)) by {
      assert [Open(name)][1..] == [];
    }
    assert Depth(c, [Close(name)]) == Delta(c, Close(name)) by {
      assert [Close(name)][1..] == [];
    }
    DepthConcat(c, [Open(name)] + a, [Close(name)]);
    DepthConcat(c, [Open(name)], a);
    forall k | 0 <= k <= |w|
      ensures Depth(c, w[..k]) >= 0
    {
      if k == 0 {
        assert w[..k] == [];
      } else if k <= |a| + 1 {
        assert w[..k] == [Open(name)] + a[..k - 1];
        DepthConcat(c, [Open(name)], a[..k - 1]);
      } else {
        assert w[..k] == w;
      }
    }
  }

  /** A single text event is balanced. */
  lemma {:induction false} BalancedChars<N>(c: Classifier<N>, t: XmlString)
    ensures Balanced(c, [Chars(t)])
  {
  }

  /** Every character of `t` from position `from` on is a space. */
  ghost predicate SpacesFrom(t: XmlString, from: nat)
  {
    forall i :: from <= i < |t| ==> t[i] == Space
  }

  /** The same event with any character data emptied. */
  function BlankEvent<N>(e: Event<N>): Event<N>
  {
    if e.Chars? then Chars([]) else e
  }

  /** The same events with every text event emptied: what the parser
      would report if the document had no character data at all. */
  function Blank<N>(evs: seq<Event<N>>): (r: seq<Event<N>>)
    ensures |r| == |evs|
  {
    seq(|evs|, i requires 0 <= i < |evs| => BlankEvent(evs[i]))
  }

  /** The counter is positive before every event of `evs`. */
  ghost predicate HiddenThroughout<N>(c: Classifier<N>, s: ExtractorState, evs: seq<Event<N>>)
  {
    forall k :: 0 <= k < |evs| ==> s.stack + Depth(c, evs[..k]) >= 1
  }

  /** Peeling the first event off a hidden run leaves a hidden run. */
  lemma {:induction false} HiddenRest<N>(c: Classifier<N>, s: ExtractorState, evs: seq<Event<N>>)
    requires |evs| > 0 && HiddenThroughout(c, s, evs)
    ensures s.stack >= 1
    ensures HiddenThroughout(c, Step(c, s, evs[0]).next, evs[1..])
  {
    var e := evs[0];
    var s1 := Step(c, s, e).next;
    assert Depth(c, evs[..0]) == 0;
    var rest := evs[1..];
    forall k | 0 <= k < |rest|
      ensures s1.stack + Depth(c, rest[..k]) >= 1
    {
      assert evs[..k + 1][0] == e;
      assert evs[..k + 1][1..] == rest[..k];
      assert Depth(c, evs[..k + 1]) == Delta(c, e) + Depth(c, rest[..k]);
    }
  }

  /** While the counter stays positive before every event, nothing but
      separator spaces reaches the buffer. */
  lemma {:induction false} HiddenRunAddsOnlySpaces<N>(c: Classifier<N>, s: ExtractorState, evs: seq<Event<N>>)
    requires HiddenThroughout(c, s, evs)
    ensures SpacesFrom(Run(c, s, evs).buffer, |s.buffer|)
    decreases |evs|
  {
    if |evs| != 0 {
      HiddenRest(c, s, evs);
      var s1 := Step(c, s, evs[0]).next;
      assert SpacesFrom(s1.buffer, |s.buffer|);
      HiddenRunAddsOnlySpaces(c, s1, evs[1..]);
      var r := Run(c, s1, evs[1..]);
      forall i | |s.buffer| <= i < |r.buffer|
        ensures r.buffer[i] == Space
      {
        if i < |s1.buffer| {
          assert r.buffer[..|s1.buffer|][i] == s1.buffer[i];
        }
      }
    }
  }

  /** While the counter stays positive before every event, the content of
      the text events is irrelevant: the run ends in exactly the state it
      would reach if every text event were empty. So no character data,
      not even data made of spaces, reaches the buffer, and the spaces
      that are added are only the separators. */
  lemma {:induction false} HiddenRunIgnoresText<N>(c: Classifier<N>, s: ExtractorState, evs: seq<Event<N>>)
    requires HiddenThroughout(c, s, evs)
    ensures Run(c, s, evs) == Run(c, s, Blank(evs))
    decreases |evs|
  {
    if |evs| != 0 {
      HiddenRest(c, s, evs);
      var b := Blank(evs);
      assert b[0] == BlankEvent(evs[0]);
      assert b[1..] == Blank(evs[1..]);
      assert Step(c, s, evs[0]).next == Step(c, s, b[0]).next;
      HiddenRunIgnoresText(c, Step(c, s, evs[0]).next, evs[1..]);
    }
  }

  /** An ignored element whose interior closes every ignored element it
      opens brings the counter back to where it was, whatever that was
      (a negative start included). */
  lemma {:induction false} IgnoredSubtreeRestoresDepth<N>(c: Classifier<N>, s: ExtractorState, name: N, interior: seq<Event<N>>)
    requires IsIgnored(c, name)
    requires Depth(c, interior) == 0
    ensures Run(c, s, [Open(name)] + interior + [Close(name)]).stack == s.stack
  {
    DepthConcat(c, [Open(name)] + interior, [Close(name)]);
    DepthConcat(c, [Open(name)], interior);
    assert Depth(c, [Open(name)]) == 1 by {
      assert [Open(name)][1..] == [];
    }
    assert Depth(c, [Close(name)]) == -1 by {
      assert [Close(name)][1..] == [];
    }
  }

  /** An ignored element with a balanced interior, entered at a
      non-negative depth: the counter comes back to where it was, and no
      character data inside reaches the buffer. The run ends exactly as
      if every text event inside were empty, so only separator spaces
      (from block elements inside, or a separator pending on entry) may
      be added. */
  lemma {:induction false} BalancedIgnoredSubtree<N>(c: Classifier<N>, s: ExtractorState, name: N, interior: seq<Event<N>>)
    requires IsIgnored(c, name)
    requires Balanced(c, interior)
    requires s.stack >= 0
    ensures Run(c, s, [Open(name)] + interior + [Close(name)]).stack == s.stack
    ensures Run(c, s, [Open(name)] + interior + [Close(name)])
         == Run(c, s, [Open(name)] + Blank(interior) + [Close(name)])
    ensures SpacesFrom(Run(c, s, [Open(name)] + interior + [Close(name)]).buffer, |s.buffer|)
  {
    var s1 := s.(stack := s.stack + 1);
    assert Step(c, s, Open(name)).next == s1;
    var tail := interior + [Close(name)];
    var btail := Blank(interior) + [Close(name)];
    assert [Open(name)] + interior + [Close(name)] == [Open(name)] + tail;
    assert [Open(name)] + Blank(interior) + [Close(name)] == [Open(name)] + btail;
    RunCons(c, s, Open(name), tail);
    RunCons(c, s, Open(name), btail);
    InteriorStaysHidden(c, s1, interior, name);
  }

  /** After an ignored opening tag has taken the counter to at least 1, a
      balanced interior and the matching closing tag add only separator
      spaces, ignore the text content, and bring the counter back down
      by one. */
  lemma {:induction false} InteriorStaysHidden<N>(c: Classifier<N>, s1: ExtractorState, interior: seq<Event<N>>, name: N)
    requires IsIgnored(c, name)
    requires s1.stack >= 1
    requires Balanced(c, interior)
    ensures Run(c, s1, interior + [Close(name)]).stack == s1.stack - 1
    ensures Run(c, s1, interior + [Close(name)]) == Run(c, s1, Blank(interior) + [Close(name)])
    ensures SpacesFrom(Run(c, s1, interior + [Close(name)]).buffer, |s1.buffer|)
  {
    var tail := interior + [Close(name)];
    forall k | 0 <= k < |tail|
      ensures s1.stack + Depth(c, tail[..k]) >= 1
    {
      assert tail[..k] == interior[..k];
    }
    HiddenRunAddsOnlySpaces(c, s1, tail);
    HiddenRunIgnoresText(c, s1, tail);
    assert Blank(tail) == Blank(interior) + [Close(name)];
    DepthConcat(c, interior, [Close(name)]);
    assert Depth(c, [Close(name)]) == -1 by {
      assert [Close(name)][1..] == [];
    }
  }
}
