/** The reserved property and node names a rewrite rule recognises. */
module Names {

  // special properties
  const PropertyRanking := "cq:rewriteRanking"
  const PropertyOptional := "cq:rewriteOptional"
  const PropertyMapChildren := "cq:rewriteMapChildren"
  const PropertyIsFinal := "cq:rewriteFinal"
  const PropertyCommonAttrs := "cq:rewriteCommonAttrs"
  const PropertyRenderCondition := "cq:rewriteRenderCondition"

  // special nodes
  const NodeRewriteProperties := "cq:rewriteProperties"
  const NodePatterns := "patterns"
  const NodeReplacement := "replacement"

  // node names
  const NodeRenderCondition := "rendercondition"
  const NodeGraniteRenderCondition := "granite:rendercondition"
  const NodeGraniteData := "granite:data"

  // Granite
  const GraniteCommonAttrs: seq<string> := ["id", "rel", "class", "title", "hidden", "itemscope", "itemtype", "itemprop"]
  const Coral2RenderConditionPrefix := "granite/ui/components/foundation/renderconditions"
  const Coral3RenderConditionPrefix := "granite/ui/components/coral/foundation/renderconditions"
  const DataPrefix := "data-"

  const PropertyResourceType := "sling:resourceType"
  const DefaultNodeType := "nt:unstructured"

  /** `Integer.MAX_VALUE`, the ranking of a rule that declares none. */
  const MaxInt: int := 0x7fff_ffff
}
