/** How the full-text extractor classifies an element name.

    The extractor holds a mandatory module configuration and an optional
    per-index configuration. Each can declare a name "ignored" (its whole
    subtree contributes no text) or "inline" (it does not break words).
    A name has a property when either configuration gives it that property. */
module NodeClassification {
  import opened Wrappers

  /** One configuration's view of element names. How a configuration is
      loaded is not modelled: it is just a pair of predicates. */
  datatype NodeConfig<!N> = NodeConfig(isIgnoredNode: N -> bool, isInlineNode: N -> bool)

  /** The extractor's mandatory `config` and its optional `idxConfig`. */
  datatype Classifier<!N> = Classifier(config: NodeConfig<N>, idxConfig: Option<NodeConfig<N>>)

  /** The configurations that are actually present, mandatory one first. */
  function Active<N>(c: Classifier<N>): (r: seq<NodeConfig<N>>)
    ensures 1 <= |r| <= 2
    ensures r[0] == c.config
    ensures |r| == 2 <==> c.idxConfig.Some?
    ensures c.idxConfig.Some? ==> r[1] == c.idxConfig.value
  {
    match c.idxConfig
    case None => [c.config]
    case Some(k) => [c.config, k]
  }

  /** A name is ignored when the configuration, or a present index
      configuration, says so. */
  function IsIgnored<N>(c: Classifier<N>, name: N): (r: bool)
    ensures r <==> exists i :: 0 <= i < |Active(c)| && Active(c)[i].isIgnoredNode(name)
  {
    var a := Active(c);
    assert c.idxConfig.Some? ==> a[1] == c.idxConfig.value;
    c.config.isIgnoredNode(name) || (c.idxConfig.Some? && c.idxConfig.value.isIgnoredNode(name))
  }

  /** A name is inline when the configuration, or a present index
      configuration, says so. */
  function IsInline<N>(c: Classifier<N>, name: N): (r: bool)
    ensures r <==> exists i :: 0 <= i < |Active(c)| && Active(c)[i].isInlineNode(name)
  {
    var a := Active(c);
    assert c.idxConfig.Some? ==> a[1] == c.idxConfig.value;
    c.config.isInlineNode(name) || (c.idxConfig.Some? && c.idxConfig.value.isInlineNode(name))
  }

  /** The same classifier with every inline declaration withdrawn. */
  function WithoutInline<N(!new)>(c: Classifier<N>): (r: Classifier<N>)
    ensures forall name :: IsIgnored(r, name) == IsIgnored(c, name)
    ensures forall name :: !IsInline(r, name)
  {
    var drop := (k: NodeConfig<N>) => NodeConfig(k.isIgnoredNode, (n: N) => false);
    Classifier(drop(c.config),
               match c.idxConfig case None => None case Some(k) => Some(drop(k)))
  }
}
