# NodeBasedRewriteRule, modelled in Dafny

The dialog-conversion engine rewrites legacy dialog trees. It matches a
subtree against a rule's patterns and replaces it by the rule's replacement
template. This project models one class, `NodeBasedRewriteRule`, which does
both:

- `matches` checks a subject tree against the rule's `patterns` alternatives.
- `applyTo` replaces the subject by a copy of the first child of `replacement`.
- `getRanking` gives the rule's ranking.

`applyTo` works in these steps:

1. It moves the subject aside under a fresh name.
2. It copies the template under the subject's old name.
3. It adds the Granite common attributes (`cq:rewriteCommonAttrs`) and the
   render condition (`cq:rewriteRenderCondition`) when the rule asks for them.
4. It walks the copy in pre-order. On each node it:
   - consumes `cq:rewriteMapChildren` and `cq:rewriteFinal`;
   - evaluates mapped-property expressions `!${path:default}` against the
     subject;
   - applies the `cq:rewriteProperties` string rewrites, then removes that
     child.
5. It copies the mapped children across.
6. It collects the final nodes.
7. It removes the subject.

Modules:

- `Tree`:
  - the node and property values;
  - the `Store` class, which holds the document tree and performs the
    rename, copy, replace and remove steps in place;
  - path lookup and pre-order.
- `Names`: the reserved property and node names and the constants.
- `MappedExpr`: the `MAPPED_PATTERN` regular expression as a parser, and
  the unquoting of property paths.
- `Mapping`: `mapProperty` as a function, `Evaluate`, with its imperative
  loop `MapProperty`; and `rewriteProperty`.
- `Matching`: the recursive pattern matcher.
- `CommonAttrs`: `addCommonAttrMappings`.
- `RenderCondition`: the render-condition copy and the Coral 2 to Coral 3
  resource-type conversion.
- `Traversal`: the traversal of the copy, the children mappings and the
  final nodes. The traversal takes the per-node property loop as a
  parameter (`PropertyLoop`); `Loop` is the loop `applyTo` runs.
- `RewriteRule`: the class `NodeBasedRewriteRule` with `Matches`,
  `ApplyTo` and `GetRanking`.

One design note on mapped properties: when a mapped property is resolved
from the subject, the Java code removes it, copies the source property in
its place, and then returns the removed object. The model follows the
evident intent instead. The rewrite directive is applied to the property
that stands under the name after mapping (see "Left out").

## Model

| member | source | states |
|---|---|---|
| Tree.FindChild | bundles/cq-dialog-conversion/src/main/java/com/adobe/cq/dialogconversion/impl/rules/NodeBasedRewriteRule.java:229 | `hasNode`/`getNode` by name finds the first child of that name; none exactly when no child has it |
| Tree.CopyName | bundles/cq-dialog-conversion/src/main/java/com/adobe/cq/dialogconversion/impl/rules/NodeBasedRewriteRule.java:284 | the name a copy receives is not taken among the siblings, and is the requested name when that is free |
| Tree.AddCopy | bundles/cq-dialog-conversion/src/main/java/com/adobe/cq/dialogconversion/impl/rules/NodeBasedRewriteRule.java:284 | `JcrUtil.copy` appends a deep copy as the last child; the existing children, name, type and properties are kept |
| Tree.Store.Rename | bundles/cq-dialog-conversion/src/main/java/com/adobe/cq/dialogconversion/impl/rules/NodeBasedRewriteRule.java:278-280 | the subject keeps its place among its siblings under a name none of them has; nothing else in the tree changes |
| Tree.Store.Copy | bundles/cq-dialog-conversion/src/main/java/com/adobe/cq/dialogconversion/impl/rules/NodeBasedRewriteRule.java:283-284 | the parent gains the copy as its last child, under the returned name |
| Tree.Store.Remove | bundles/cq-dialog-conversion/src/main/java/com/adobe/cq/dialogconversion/impl/rules/NodeBasedRewriteRule.java:261 | `Node.remove()`: the parent loses the first child of that name; nothing else changes |
| Tree.Store.Replace | bundles/cq-dialog-conversion/src/main/java/com/adobe/cq/dialogconversion/impl/rules/NodeBasedRewriteRule.java:366-381 | the subtree at a path is replaced and the rest of the tree is unchanged |
| Tree.AtPut | bundles/cq-dialog-conversion/src/main/java/com/adobe/cq/dialogconversion/impl/rules/NodeBasedRewriteRule.java:374 | after a subtree is written at a path, the lookup of that path finds it |
| Tree.PutPut | bundles/cq-dialog-conversion/src/main/java/com/adobe/cq/dialogconversion/impl/rules/NodeBasedRewriteRule.java:278-394 | a second write at the same path overrides the first; this is how the steps of `applyTo` compose |
| Tree.PreOrderBelow | bundles/cq-dialog-conversion/src/main/java/com/adobe/cq/dialogconversion/impl/rules/NodeBasedRewriteRule.java:385-389 | every path the tree traverser yields from a node lies at or below that node |
| Tree.PreOrderContains | bundles/cq-dialog-conversion/src/main/java/com/adobe/cq/dialogconversion/impl/rules/NodeBasedRewriteRule.java:385-389 | every node found by a path is yielded by the tree traverser, at that path |
| Tree.ResolveOwnProperty | bundles/cq-dialog-conversion/src/main/java/com/adobe/cq/dialogconversion/impl/rules/NodeBasedRewriteRule.java:431 | the relative path `./name` resolves to the subject's own property `name` |
| Tree.AtParent | bundles/cq-dialog-conversion/src/main/java/com/adobe/cq/dialogconversion/impl/rules/NodeBasedRewriteRule.java:278 | a node found at a path has a parent that holds it under the path's last name |
| MappedExpr.ParseSound | bundles/cq-dialog-conversion/src/main/java/com/adobe/cq/dialogconversion/impl/rules/NodeBasedRewriteRule.java:135 | a string the anchored pattern accepts is exactly its negation mark, `${`, reference, optional `:default` and `}` |
| MappedExpr.SplitBody | bundles/cq-dialog-conversion/src/main/java/com/adobe/cq/dialogconversion/impl/rules/NodeBasedRewriteRule.java:135 | the reference group and the optional default group, joined with `:`, give back the whole body between `${` and `}` |
| MappedExpr.EnvelopeSound | bundles/cq-dialog-conversion/src/main/java/com/adobe/cq/dialogconversion/impl/rules/NodeBasedRewriteRule.java:135 | the envelope `^(!?)\$\{…\}$` splits a string into the negation mark and the body |
| MappedExpr.ParseComplete | bundles/cq-dialog-conversion/src/main/java/com/adobe/cq/dialogconversion/impl/rules/NodeBasedRewriteRule.java:135 | every `${body}`, with or without `!`, whose body has no line terminator matches, with the negation read from the `!` |
| MappedExpr.ParseLineTerminator | bundles/cq-dialog-conversion/src/main/java/com/adobe/cq/dialogconversion/impl/rules/NodeBasedRewriteRule.java:135 | `.` does not match a line terminator, so a body containing one is never an expression |
| MappedExpr.ParseLazy | bundles/cq-dialog-conversion/src/main/java/com/adobe/cq/dialogconversion/impl/rules/NodeBasedRewriteRule.java:135 | the reference group is reluctant: with a default present, the reference has no `:` unless it is a quoted `'…'`; without a default, an unquoted reference has no `:` before its last character |
| MappedExpr.ParseQuoted | bundles/cq-dialog-conversion/src/main/java/com/adobe/cq/dialogconversion/impl/rules/NodeBasedRewriteRule.java:135 | `${'x'}` with no quote inside parses with reference `'x'`, no negation and no default |
| MappedExpr.ParsePlain | bundles/cq-dialog-conversion/src/main/java/com/adobe/cq/dialogconversion/impl/rules/NodeBasedRewriteRule.java:135 | `${p}` with no `:` and no leading quote parses with reference `p` and no default |
| MappedExpr.ParseDefaultExample | bundles/cq-dialog-conversion/src/main/java/com/adobe/cq/dialogconversion/impl/rules/NodeBasedRewriteRule.java:135 | `${./a:b}` has reference `./a` and default `b` |
| MappedExpr.QuotedFrom | bundles/cq-dialog-conversion/src/main/java/com/adobe/cq/dialogconversion/impl/rules/NodeBasedRewriteRule.java:135 | the quoted alternative `'.*?'` ends at a quote, and reference plus default give back the body |
| MappedExpr.QuotedFromFirst | bundles/cq-dialog-conversion/src/main/java/com/adobe/cq/dialogconversion/impl/rules/NodeBasedRewriteRule.java:135 | the quoted alternative closes at the first quote that ends the body or is followed by `:` and a character; no match exactly when there is no such quote, and a default is never empty |
| MappedExpr.BareFrom | bundles/cq-dialog-conversion/src/main/java/com/adobe/cq/dialogconversion/impl/rules/NodeBasedRewriteRule.java:135 | the bare alternative `.*?` stops at the first `:` when a default follows; reference plus default give back the body |
| MappedExpr.BareFromFirst | bundles/cq-dialog-conversion/src/main/java/com/adobe/cq/dialogconversion/impl/rules/NodeBasedRewriteRule.java:135 | the bare body has a default exactly when a `:` stands before its last character, and the default is never empty |
| MappedExpr.ParseBareDefault | bundles/cq-dialog-conversion/src/main/java/com/adobe/cq/dialogconversion/impl/rules/NodeBasedRewriteRule.java:135 | an unquoted body splits at its first `:` with a character after it: reference before, default after |
| MappedExpr.StripEndQuotes | bundles/cq-dialog-conversion/src/main/java/com/adobe/cq/dialogconversion/impl/rules/NodeBasedRewriteRule.java:430 | `stripEnd(path, "'")` yields a prefix of the path that does not end in a quote |
| MappedExpr.StripEndQuotesTrailing | bundles/cq-dialog-conversion/src/main/java/com/adobe/cq/dialogconversion/impl/rules/NodeBasedRewriteRule.java:430 | only quotes are stripped: every character dropped from the end of the path is a quote |
| MappedExpr.UnquoteQuoted | bundles/cq-dialog-conversion/src/main/java/com/adobe/cq/dialogconversion/impl/rules/NodeBasedRewriteRule.java:429-430 | unwrapping the quoted path `'x'` yields `x` |
| MappedExpr.UnquotePlain | bundles/cq-dialog-conversion/src/main/java/com/adobe/cq/dialogconversion/impl/rules/NodeBasedRewriteRule.java:429-430 | a path neither starting nor ending with a quote is left as it is |
| Mapping.FirstResolved | bundles/cq-dialog-conversion/src/main/java/com/adobe/cq/dialogconversion/impl/rules/NodeBasedRewriteRule.java:452-453 | the loop stops at the first value that resolves; none exactly when no value resolves |
| Mapping.AnyUnresolvedExists | bundles/cq-dialog-conversion/src/main/java/com/adobe/cq/dialogconversion/impl/rules/NodeBasedRewriteRule.java:427 | `deleteProperty` is set exactly when some value tried was an expression |
| Mapping.TryValue | bundles/cq-dialog-conversion/src/main/java/com/adobe/cq/dialogconversion/impl/rules/NodeBasedRewriteRule.java:423-471 | one value: it is not an expression, it resolves from the subject or from its default, or it is unresolved |
| Mapping.MapProperty | bundles/cq-dialog-conversion/src/main/java/com/adobe/cq/dialogconversion/impl/rules/NodeBasedRewriteRule.java:406-481 | the value loop computes the outcome `Evaluate` specifies |
| Mapping.EvaluateNonString | bundles/cq-dialog-conversion/src/main/java/com/adobe/cq/dialogconversion/impl/rules/NodeBasedRewriteRule.java:407-410 | a property that is not of type string is left untouched |
| Mapping.EvaluateLiteral | bundles/cq-dialog-conversion/src/main/java/com/adobe/cq/dialogconversion/impl/rules/NodeBasedRewriteRule.java:474-480 | a string property is kept as it is exactly when none of its values is an expression |
| Mapping.EvaluateRemoved | bundles/cq-dialog-conversion/src/main/java/com/adobe/cq/dialogconversion/impl/rules/NodeBasedRewriteRule.java:474-478 | the property is deleted exactly when it is a string, some value is an expression and none resolves |
| Mapping.EvaluateFirstWins | bundles/cq-dialog-conversion/src/main/java/com/adobe/cq/dialogconversion/impl/rules/NodeBasedRewriteRule.java:452-453 | the first value that resolves decides the new property |
| Mapping.EvaluatePair | bundles/cq-dialog-conversion/src/main/java/com/adobe/cq/dialogconversion/impl/rules/NodeBasedRewriteRule.java:424-478 | for a two-valued mapping such as the common attributes' `[${./a}, ${'./granite:a'}]`: the first value that resolves decides the property; when neither does it is removed if either was an expression |
| Mapping.TrySource | bundles/cq-dialog-conversion/src/main/java/com/adobe/cq/dialogconversion/impl/rules/NodeBasedRewriteRule.java:431-450 | a reference that resolves copies the source's values and type; with `!` a boolean is negated and a string `"true"`/`"false"` becomes the negated boolean |
| Mapping.TryDefault | bundles/cq-dialog-conversion/src/main/java/com/adobe/cq/dialogconversion/impl/rules/NodeBasedRewriteRule.java:455-469 | an unresolved reference with a default sets the single string default, for a multi-valued property too |
| Mapping.TryOwnReference | bundles/cq-dialog-conversion/src/main/java/com/adobe/cq/dialogconversion/impl/rules/NodeBasedRewriteRule.java:518 | `${./name}` resolves exactly when the subject has `name`, to its values |
| Mapping.TryQuotedOwnReference | bundles/cq-dialog-conversion/src/main/java/com/adobe/cq/dialogconversion/impl/rules/NodeBasedRewriteRule.java:518 | `${'./name'}` resolves exactly when the subject has `name`, to its values |
| Mapping.EvaluateOwnReference | bundles/cq-dialog-conversion/src/main/java/com/adobe/cq/dialogconversion/impl/rules/NodeBasedRewriteRule.java:424-478 | a single `${./name}` is mapped from the subject's `name`, or deleted when the subject lacks it |
| Mapping.ResolveTitle | bundles/cq-dialog-conversion/src/main/java/com/adobe/cq/dialogconversion/impl/rules/NodeBasedRewriteRule.java:431-437 | `${./title}` takes the subject's title |
| Mapping.ResolveMissing | bundles/cq-dialog-conversion/src/main/java/com/adobe/cq/dialogconversion/impl/rules/NodeBasedRewriteRule.java:474-478 | `${./title}` against a subject without a title deletes the property |
| Mapping.MultiValuedFallback | bundles/cq-dialog-conversion/src/main/java/com/adobe/cq/dialogconversion/impl/rules/NodeBasedRewriteRule.java:414-415 | a multi-valued mapping falls back to its second reference when the first is missing |
| Mapping.RewriteProperty | bundles/cq-dialog-conversion/src/main/java/com/adobe/cq/dialogconversion/impl/rules/NodeBasedRewriteRule.java:491-506 | a single string is rewritten by `replaceAll` with the directive's two strings; any other property or directive leaves it unchanged; type, protection and multiplicity are kept |
| Matching.FirstRelevant | bundles/cq-dialog-conversion/src/main/java/com/adobe/cq/dialogconversion/impl/rules/NodeBasedRewriteRule.java:236-243 | the first pattern child that is not optional-and-absent; none when every child is |
| Matching.AnyMatchesExists | bundles/cq-dialog-conversion/src/main/java/com/adobe/cq/dialogconversion/impl/rules/NodeBasedRewriteRule.java:179-188 | the loop over the alternatives succeeds exactly when some alternative matches |
| Matching.RuleMatchesIff | bundles/cq-dialog-conversion/src/main/java/com/adobe/cq/dialogconversion/impl/rules/NodeBasedRewriteRule.java:169-189 | a rule matches exactly when it has a `patterns` child and one of its children matches |
| Matching.PatternFails | bundles/cq-dialog-conversion/src/main/java/com/adobe/cq/dialogconversion/impl/rules/NodeBasedRewriteRule.java:191-233 | a different primary type, a missing or different non-protected property, or a missing required child each defeat the match |
| Matching.LeafPattern | bundles/cq-dialog-conversion/src/main/java/com/adobe/cq/dialogconversion/impl/rules/NodeBasedRewriteRule.java:246-247 | a pattern without children matches exactly on type and properties |
| Matching.RootNameIgnored | bundles/cq-dialog-conversion/src/main/java/com/adobe/cq/dialogconversion/impl/rules/NodeBasedRewriteRule.java:191-195 | the subject root's own name plays no part in matching |
| Matching.FirstRelevantByName | bundles/cq-dialog-conversion/src/main/java/com/adobe/cq/dialogconversion/impl/rules/NodeBasedRewriteRule.java:236-241 | which child the recursion enters depends only on the children's names and optional markers |
| Matching.LaterChildrenIgnored | bundles/cq-dialog-conversion/src/main/java/com/adobe/cq/dialogconversion/impl/rules/NodeBasedRewriteRule.java:235-244 | the recursion enters only the first relevant child: patterns differing only below later children match the same subjects |
| Matching.OptionalChild | bundles/cq-dialog-conversion/src/main/java/com/adobe/cq/dialogconversion/impl/rules/NodeBasedRewriteRule.java:222-241 | with one optional child, a subject without it matches on the parent's checks; a subject with it must also match the child |
| CommonAttrs.SetMapped | bundles/cq-dialog-conversion/src/main/java/com/adobe/cq/dialogconversion/impl/rules/NodeBasedRewriteRule.java:519 | setting a mapped property and mapping it changes only that name, to what mapping leaves under it |
| CommonAttrs.AttrEvaluate | bundles/cq-dialog-conversion/src/main/java/com/adobe/cq/dialogconversion/impl/rules/NodeBasedRewriteRule.java:517-519 | `granite:a` ends as the subject's `a`, else its `granite:a`, else it is deleted |
| CommonAttrs.CommonAttrsPlain | bundles/cq-dialog-conversion/src/main/java/com/adobe/cq/dialogconversion/impl/rules/NodeBasedRewriteRule.java:154 | each common attribute name is a plain property name |
| CommonAttrs.WithAttrsValues | bundles/cq-dialog-conversion/src/main/java/com/adobe/cq/dialogconversion/impl/rules/NodeBasedRewriteRule.java:517-520 | after the attribute loop every `granite:` attribute has its mapped value and every other property is unchanged |
| CommonAttrs.WithAttrsStep | bundles/cq-dialog-conversion/src/main/java/com/adobe/cq/dialogconversion/impl/rules/NodeBasedRewriteRule.java:517-520 | one iteration of the attribute loop gives `granite:a` its mapped value and leaves every other property as the earlier iterations left it |
| CommonAttrs.CommonAttrMappingsProps | bundles/cq-dialog-conversion/src/main/java/com/adobe/cq/dialogconversion/impl/rules/NodeBasedRewriteRule.java:517-549 | the `granite:data` step only adds a child: the copy's properties are those the attribute loop leaves |
| CommonAttrs.DataProps | bundles/cq-dialog-conversion/src/main/java/com/adobe/cq/dialogconversion/impl/rules/NodeBasedRewriteRule.java:528-549 | the data node's properties: each non-protected `data-x` of the subject mapped into `x`, the rest as they were |
| CommonAttrs.EnsureData | bundles/cq-dialog-conversion/src/main/java/com/adobe/cq/dialogconversion/impl/rules/NodeBasedRewriteRule.java:539-541 | afterwards the node has a `granite:data` child; its name and type are kept |
| CommonAttrs.WithData | bundles/cq-dialog-conversion/src/main/java/com/adobe/cq/dialogconversion/impl/rules/NodeBasedRewriteRule.java:528-549 | the data step keeps the node's name and type |
| CommonAttrs.CommonAttrMappings | bundles/cq-dialog-conversion/src/main/java/com/adobe/cq/dialogconversion/impl/rules/NodeBasedRewriteRule.java:516-550 | the whole step keeps the node's name and type |
| CommonAttrs.CommonAttrProps | bundles/cq-dialog-conversion/src/main/java/com/adobe/cq/dialogconversion/impl/rules/NodeBasedRewriteRule.java:517-520 | the eight `granite:` attributes take their mapped values; no other property of the copy changes |
| CommonAttrs.CommonAttrData | bundles/cq-dialog-conversion/src/main/java/com/adobe/cq/dialogconversion/impl/rules/NodeBasedRewriteRule.java:522-549 | with data attributes, the copy has a `granite:data` child whose properties are the mapped `data-` values over the properties of the copy's first `granite:data` child: the template's own if it has one, else the copied subject data, else a new empty node |
| CommonAttrs.TemplateDataWins | bundles/cq-dialog-conversion/src/main/java/com/adobe/cq/dialogconversion/impl/rules/NodeBasedRewriteRule.java:522-545 | when the template node has its own `granite:data` child, the data loop writes into that child; the copied subject data goes beside it under another name |
| CommonAttrs.DataValuePlain | bundles/cq-dialog-conversion/src/main/java/com/adobe/cq/dialogconversion/impl/rules/NodeBasedRewriteRule.java:546-547 | a plain `data-x` is copied into `x` with its values |
| CommonAttrs.NoDataKeys | bundles/cq-dialog-conversion/src/main/java/com/adobe/cq/dialogconversion/impl/rules/NodeBasedRewriteRule.java:522-541 | without data attributes and without subject data, no child is added |
| CommonAttrs.MapAttrs | bundles/cq-dialog-conversion/src/main/java/com/adobe/cq/dialogconversion/impl/rules/NodeBasedRewriteRule.java:517-520 | the attribute loop computes the fold `WithAttrs` |
| CommonAttrs.MapData | bundles/cq-dialog-conversion/src/main/java/com/adobe/cq/dialogconversion/impl/rules/NodeBasedRewriteRule.java:528-549 | the loop over the `data-*` properties computes `DataProps` in any order |
| CommonAttrs.AddCommonAttrMappings | bundles/cq-dialog-conversion/src/main/java/com/adobe/cq/dialogconversion/impl/rules/NodeBasedRewriteRule.java:516-550 | the method computes `CommonAttrMappings` |
| RenderCondition.ReplaceLiteralAbsent | bundles/cq-dialog-conversion/src/main/java/com/adobe/cq/dialogconversion/impl/rules/NodeBasedRewriteRule.java:306 | `String.replace` leaves a string without the target unchanged |
| RenderCondition.ConvertResourceTypeSpec | bundles/cq-dialog-conversion/src/main/java/com/adobe/cq/dialogconversion/impl/rules/NodeBasedRewriteRule.java:304-308 | a Coral 2 render-condition type becomes the Coral 3 prefix followed by the rest of the type under the same `String.replace`, so it starts with the Coral 3 prefix and no longer with the Coral 2 one; any other type is unchanged |
| RenderCondition.ConvertResourceTypeKeepsRest | bundles/cq-dialog-conversion/src/main/java/com/adobe/cq/dialogconversion/impl/rules/NodeBasedRewriteRule.java:304-308 | a Coral 2 type whose rest holds no further Coral 2 prefix becomes the Coral 3 prefix followed by that same rest |
| RenderCondition.ConvertTree | bundles/cq-dialog-conversion/src/main/java/com/adobe/cq/dialogconversion/impl/rules/NodeBasedRewriteRule.java:299-309 | only `sling:resourceType` changes on each node; name, type and number of children are kept |
| RenderCondition.ConvertTreeNoCoral2 | bundles/cq-dialog-conversion/src/main/java/com/adobe/cq/dialogconversion/impl/rules/NodeBasedRewriteRule.java:299-309 | after the conversion no string-valued Coral 2 resource type is left in the copied subtree |
| RenderCondition.ConvertTreeIdentity | bundles/cq-dialog-conversion/src/main/java/com/adobe/cq/dialogconversion/impl/rules/NodeBasedRewriteRule.java:305 | a subtree without Coral 2 types is left exactly as it is |
| RenderCondition.WithRenderCondition | bundles/cq-dialog-conversion/src/main/java/com/adobe/cq/dialogconversion/impl/rules/NodeBasedRewriteRule.java:292-311 | the step keeps the copy's name and type |
| RenderCondition.ConvertConditions | bundles/cq-dialog-conversion/src/main/java/com/adobe/cq/dialogconversion/impl/rules/NodeBasedRewriteRule.java:299-309 | the traversal computes `ConvertTree` |
| RenderCondition.CopyRenderCondition | bundles/cq-dialog-conversion/src/main/java/com/adobe/cq/dialogconversion/impl/rules/NodeBasedRewriteRule.java:292-311 | the step copies `granite:rendercondition`, or failing that `rendercondition`, converted, onto the copy |
| Traversal.Stripped | bundles/cq-dialog-conversion/src/main/java/com/adobe/cq/dialogconversion/impl/rules/NodeBasedRewriteRule.java:321-363 | the node keeps its name and type, gets the properties the property loop leaves, and keeps only children it already had |
| Traversal.Traverse | bundles/cq-dialog-conversion/src/main/java/com/adobe/cq/dialogconversion/impl/rules/NodeBasedRewriteRule.java:316-364 | the traversal keeps every node's name and type |
| Traversal.TraverseChildren | bundles/cq-dialog-conversion/src/main/java/com/adobe/cq/dialogconversion/impl/rules/NodeBasedRewriteRule.java:318 | one rewritten node per remaining child |
| Traversal.TraverseNoMarkers | bundles/cq-dialog-conversion/src/main/java/com/adobe/cq/dialogconversion/impl/rules/NodeBasedRewriteRule.java:336-349 | for a property loop that consumes them, no non-protected `cq:rewriteMapChildren` or `cq:rewriteFinal` is left anywhere in the traversed copy |
| Traversal.LoopConsumesMarkers | bundles/cq-dialog-conversion/src/main/java/com/adobe/cq/dialogconversion/impl/rules/NodeBasedRewriteRule.java:336-349 | the property loop of `applyTo` removes `cq:rewriteMapChildren` and `cq:rewriteFinal` from every node, whatever the node |
| Traversal.TraverseNoDirectives | bundles/cq-dialog-conversion/src/main/java/com/adobe/cq/dialogconversion/impl/rules/NodeBasedRewriteRule.java:361-363 | with distinct sibling names, no `cq:rewriteProperties` child is left anywhere in the traversed copy |
| Traversal.FinalsSound | bundles/cq-dialog-conversion/src/main/java/com/adobe/cq/dialogconversion/impl/rules/NodeBasedRewriteRule.java:343-349 | without a final tree, every collected path lies below the start and leads to a node that carries `cq:rewriteFinal` and is not inside a `cq:rewriteProperties` child |
| Traversal.FinalsComplete | bundles/cq-dialog-conversion/src/main/java/com/adobe/cq/dialogconversion/impl/rules/NodeBasedRewriteRule.java:343-349 | without a final tree, every node that carries `cq:rewriteFinal` and is not inside a `cq:rewriteProperties` child is collected, at its path |
| Traversal.TraverseFinalTree | bundles/cq-dialog-conversion/src/main/java/com/adobe/cq/dialogconversion/impl/rules/NodeBasedRewriteRule.java:343-346 | with a final tree, no single node is collected |
| Traversal.TraverseBelow | bundles/cq-dialog-conversion/src/main/java/com/adobe/cq/dialogconversion/impl/rules/NodeBasedRewriteRule.java:337 | every mapping destination and every final node lies within the traversed subtree |
| Traversal.FinalsBelow | bundles/cq-dialog-conversion/src/main/java/com/adobe/cq/dialogconversion/impl/rules/NodeBasedRewriteRule.java:343-349 | every collected final path lies at or below the node the traversal starts from |
| Traversal.EntriesBelow | bundles/cq-dialog-conversion/src/main/java/com/adobe/cq/dialogconversion/impl/rules/NodeBasedRewriteRule.java:336-339 | every recorded mapping destination lies at or below the node the traversal starts from |
| Traversal.DirectiveApplies | bundles/cq-dialog-conversion/src/main/java/com/adobe/cq/dialogconversion/impl/rules/NodeBasedRewriteRule.java:351-357 | a kept property with a directive of its name ends as the mapped property rewritten by it |
| Traversal.NoDirective | bundles/cq-dialog-conversion/src/main/java/com/adobe/cq/dialogconversion/impl/rules/NodeBasedRewriteRule.java:351 | without a directive, a property ends as mapping left it |
| Traversal.ProcessProperties | bundles/cq-dialog-conversion/src/main/java/com/adobe/cq/dialogconversion/impl/rules/NodeBasedRewriteRule.java:328-358 | the property loop computes `ProcessedProps` in any order |
| Traversal.ProcessProperty | bundles/cq-dialog-conversion/src/main/java/com/adobe/cq/dialogconversion/impl/rules/NodeBasedRewriteRule.java:328-358 | one property: protected ones kept, markers consumed, mapped values evaluated and then rewritten by a directive of the same name |
| Traversal.RewriteSubtree | bundles/cq-dialog-conversion/src/main/java/com/adobe/cq/dialogconversion/impl/rules/NodeBasedRewriteRule.java:316-364 | the pre-order walk computes `Traverse` |
| Traversal.RewriteChildren | bundles/cq-dialog-conversion/src/main/java/com/adobe/cq/dialogconversion/impl/rules/NodeBasedRewriteRule.java:316-364 | the traverser's walk through a node's remaining children, in order, computes the children part of `Traverse` |
| Traversal.PendingLastWins | bundles/cq-dialog-conversion/src/main/java/com/adobe/cq/dialogconversion/impl/rules/NodeBasedRewriteRule.java:337 | `mappings.put` holds exactly the sources found, each with its last destination |
| Traversal.CollectMappings | bundles/cq-dialog-conversion/src/main/java/com/adobe/cq/dialogconversion/impl/rules/NodeBasedRewriteRule.java:314-337 | the collected map is `Pending` of the entries in visiting order |
| Traversal.CopyChildrenSpec | bundles/cq-dialog-conversion/src/main/java/com/adobe/cq/dialogconversion/impl/rules/NodeBasedRewriteRule.java:375-380 | the destination keeps its children in front and gains a copy of each source child, in order, up to renaming |
| Traversal.MapOneEffect | bundles/cq-dialog-conversion/src/main/java/com/adobe/cq/dialogconversion/impl/rules/NodeBasedRewriteRule.java:369-380 | a mapping whose source and destination both resolve gives the destination copies of the source's children, after its own |
| Traversal.MapAllLast | bundles/cq-dialog-conversion/src/main/java/com/adobe/cq/dialogconversion/impl/rules/NodeBasedRewriteRule.java:368-381 | the last mapping applied leaves its destination holding what it held before followed by copies of its source's children |
| Traversal.MapOneMissing | bundles/cq-dialog-conversion/src/main/java/com/adobe/cq/dialogconversion/impl/rules/NodeBasedRewriteRule.java:369-372 | a mapping whose source the subject lacks changes nothing |
| RewriteRule.IntValue | bundles/cq-dialog-conversion/src/main/java/com/adobe/cq/dialogconversion/impl/rules/NodeBasedRewriteRule.java:569 | `Long.intValue()` gives a 32-bit value congruent to the long modulo 2^32, and the long itself when it fits |
| RewriteRule.RankingAsWritten | bundles/cq-dialog-conversion/src/main/java/com/adobe/cq/dialogconversion/impl/rules/NodeBasedRewriteRule.java:564-578 | as written, `getRanking` throws exactly when `cq:rewriteRanking` is present but not readable as a long |
| RewriteRule.BooleanRankingThrows | bundles/cq-dialog-conversion/src/main/java/com/adobe/cq/dialogconversion/impl/rules/NodeBasedRewriteRule.java:573-577 | a boolean ranking reaches the catch block and the null unboxing |
| RewriteRule.RuleRanking | bundles/cq-dialog-conversion/src/main/java/com/adobe/cq/dialogconversion/impl/rules/NodeBasedRewriteRule.java:566-572 | the ranking is an int: `Integer.MAX_VALUE` without a readable `cq:rewriteRanking`, and the declared value when it fits |
| RewriteRule.RankingCorrected | bundles/cq-dialog-conversion/src/main/java/com/adobe/cq/dialogconversion/impl/rules/NodeBasedRewriteRule.java:564-578 | the corrected ranking agrees with the code wherever the code returns a value |
| RewriteRule.Prepared | bundles/cq-dialog-conversion/src/main/java/com/adobe/cq/dialogconversion/impl/rules/NodeBasedRewriteRule.java:286-311 | the common-attribute and render-condition steps keep the copy's name |
| RewriteRule.NewFinalsOfFinalTree | bundles/cq-dialog-conversion/src/main/java/com/adobe/cq/dialogconversion/impl/rules/NodeBasedRewriteRule.java:384-390 | with a final replacement tree the copy is final, and every new final node lies inside it |
| RewriteRule.NewFinalsOfMarked | bundles/cq-dialog-conversion/src/main/java/com/adobe/cq/dialogconversion/impl/rules/NodeBasedRewriteRule.java:343-349 | otherwise the copy is final exactly when it carried `cq:rewriteFinal`, and every new final node lies inside it |
| RewriteRule.NewFinalsAllNodes | bundles/cq-dialog-conversion/src/main/java/com/adobe/cq/dialogconversion/impl/rules/NodeBasedRewriteRule.java:384-390 | with a final replacement tree, every node of the finished copy is added to the final set, at its absolute path |
| RewriteRule.NewFinalsExactlyMarked | bundles/cq-dialog-conversion/src/main/java/com/adobe/cq/dialogconversion/impl/rules/NodeBasedRewriteRule.java:343-349 | otherwise, with distinct sibling names, a node of the copy is added exactly when it carries `cq:rewriteFinal` outside a `cq:rewriteProperties` child |
| RewriteRule.RootFinal | bundles/cq-dialog-conversion/src/main/java/com/adobe/cq/dialogconversion/impl/rules/NodeBasedRewriteRule.java:343-349 | without a final replacement tree, the copy's root is among the traversal's final nodes exactly when it carries `cq:rewriteFinal` |
| RewriteRule.UnderSpec | bundles/cq-dialog-conversion/src/main/java/com/adobe/cq/dialogconversion/impl/rules/NodeBasedRewriteRule.java:384-390 | the final nodes found inside the copy, made absolute, include the copy exactly when the copy's own relative path does, and all lie inside the copy |
| RewriteRule.UnderMember | bundles/cq-dialog-conversion/src/main/java/com/adobe/cq/dialogconversion/impl/rules/NodeBasedRewriteRule.java:384-390 | a path below the copy is a new final node exactly when its part relative to the copy was collected |
| RewriteRule.NodeBasedRewriteRule.constructor | bundles/cq-dialog-conversion/src/main/java/com/adobe/cq/dialogconversion/impl/rules/NodeBasedRewriteRule.java:161-166 | a new rule holds its rule node and has no cached ranking |
| RewriteRule.NodeBasedRewriteRule.GetRanking | bundles/cq-dialog-conversion/src/main/java/com/adobe/cq/dialogconversion/impl/rules/NodeBasedRewriteRule.java:564-578 | returns the rule's ranking and caches it; a cached value is always the rule's ranking |
| RewriteRule.NodeBasedRewriteRule.Matches | bundles/cq-dialog-conversion/src/main/java/com/adobe/cq/dialogconversion/impl/rules/NodeBasedRewriteRule.java:169-189 | true exactly when there is a `patterns` child and one of its children matches the subject |
| RewriteRule.NodeBasedRewriteRule.ApplyTo | bundles/cq-dialog-conversion/src/main/java/com/adobe/cq/dialogconversion/impl/rules/NodeBasedRewriteRule.java:251-395 | no `replacement`: the error outcome with nothing changed. An empty one: the subject is removed. Otherwise the parent keeps its other children in order, gains the finished copy last under a name no other sibling has (the subject's name when that was unique), and the final set grows by `NewFinals` |
| RewriteRule.NodeBasedRewriteRule.RewriteCopy | bundles/cq-dialog-conversion/src/main/java/com/adobe/cq/dialogconversion/impl/rules/NodeBasedRewriteRule.java:286-390 | the steps between the copy and the removal compute `RewrittenCopy` and `NewFinals`, in the mappings' iteration order |
| RewriteRule.NodeBasedRewriteRule.ReplaceSubject | bundles/cq-dialog-conversion/src/main/java/com/adobe/cq/dialogconversion/impl/rules/NodeBasedRewriteRule.java:277-394 | the copy's name is none of the other siblings' names, and is the subject's name when no sibling shares it; the parent ends with its other children in order followed by the rewritten copy; the final nodes grow by exactly the copy's new final nodes |
| RewriteRule.NodeBasedRewriteRule.MoveAside | bundles/cq-dialog-conversion/src/main/java/com/adobe/cq/dialogconversion/impl/rules/NodeBasedRewriteRule.java:277-284 | the subject is renamed to a name no sibling has, and the template's first child copied as the parent's last child under the subject's former name (or a free one); nothing else in the tree changes |
| RewriteRule.NodeBasedRewriteRule.WriteBack | bundles/cq-dialog-conversion/src/main/java/com/adobe/cq/dialogconversion/impl/rules/NodeBasedRewriteRule.java:392-394 | the renamed subject is removed after the rewritten copy stands in the plain copy's place; nothing else in the tree changes |
| RewriteRule.WriteBackTrees | bundles/cq-dialog-conversion/src/main/java/com/adobe/cq/dialogconversion/impl/rules/NodeBasedRewriteRule.java:277-394 | renaming, copying, rewriting the copy and removing the subject compose to the parent with the subject's siblings in order, then the copy |
| RewriteRule.NodeBasedRewriteRule.ApplyMappings | bundles/cq-dialog-conversion/src/main/java/com/adobe/cq/dialogconversion/impl/rules/NodeBasedRewriteRule.java:368-381 | the loop over the map's entries visits every key once and computes `MapAll` in that order |
| RewriteRule.NodeBasedRewriteRule.CopyAll | bundles/cq-dialog-conversion/src/main/java/com/adobe/cq/dialogconversion/impl/rules/NodeBasedRewriteRule.java:375-380 | the inner loop computes `CopyChildren` |
| RewriteRule.NodeBasedRewriteRule.AllNodes | bundles/cq-dialog-conversion/src/main/java/com/adobe/cq/dialogconversion/impl/rules/NodeBasedRewriteRule.java:384-390 | the loop adds exactly the nodes of the pre-order |
| RewriteRule.UniqueRenamed | bundles/cq-dialog-conversion/src/main/java/com/adobe/cq/dialogconversion/impl/rules/NodeBasedRewriteRule.java:279-284 | a subject whose name is unique leaves that name free for the copy once it is moved aside |
| RewriteRule.CopyNameFree | bundles/cq-dialog-conversion/src/main/java/com/adobe/cq/dialogconversion/impl/rules/NodeBasedRewriteRule.java:279-284 | the name the copy receives beside the moved-aside subject differs from every other sibling's name |
| RewriteRule.RemoveRenamed | bundles/cq-dialog-conversion/src/main/java/com/adobe/cq/dialogconversion/impl/rules/NodeBasedRewriteRule.java:393 | after the subject is renamed and the copy appended, the removal finds the renamed subject at its old index and leaves its siblings in order, then the copy |

## Left out

- The JCR session, node types and property definitions are reduced to a
  node value with a primary-type name and properties flagged protected.
  `DialogRewriteUtils.hasPrimaryType` is modelled as equality of the type
  name.
- Exceptions of the repository API become preconditions:
  - `PatternWF` and `RuleWF`: pattern properties are single-valued and
    optional markers are readable.
  - `FinalWF`: `cq:rewriteFinal` is readable as a boolean.
  - `ConditionWF`: every render-condition node has a single
    `sling:resourceType`.
- The preconditions `PatternWF`, `RuleWF`, `FinalWF` and `StepsWF` ask
  for more than Java reads. They also cover an alternative root's
  `cq:rewriteOptional`, which is never read; pattern children after the
  first relevant one; alternatives after the first match; and the
  `cq:rewriteFinal` and render-condition properties of a rule whose
  replacement is empty.
- A multi-valued subject property compared against a pattern value counts
  as a mismatch. In the repository, `getValue()` would throw there.
- `Outcome.NoReplacement` stands for the `DialogRewriteException` thrown
  when a rule has no `replacement`.
- `DialogRewriteUtils.rename` is not part of this model. The model renames
  the subject in place to a name none of its siblings has (`FreshName`).
  It does not restore the copy to the subject's former position; the copy
  stays last, where `JcrUtil.copy` put it.
- Same-name siblings are not modelled. A path or name resolves to the first
  child of that name.
- `JcrUtil.copy` naming is modelled as `CopyName`: the requested name when
  it is free, otherwise a fresh one.
- `TreeTraverser` is modelled as a pre-order walk that evaluates a node's
  properties and removes its `cq:rewriteProperties` child before visiting
  the node's children. Nodes added by the common-attribute and
  render-condition steps are part of the walk.
- The regular-expression `replaceAll` of `rewriteProperty` is the
  parameter `ReplaceAll`. The regex engine is not part of this model.
  `Value.toString()` is read as the string value.
- `HashMap` iteration order is unspecified. `ApplyTo` returns the order
  it used as the ghost out-parameter `order`, and its contract holds for
  that order.
- Traversal.ProcessedValue: after a mapping from the subject, a directive
  rewrites the property now standing under the name. In Java,
  `mapProperty` returns the removed property object there.
- Mapping.RewriteProperty: a multi-valued string property is left unchanged. In
  Java, `getValue()` would throw on it.
- Traversal.MapSource: only a single string `cq:rewriteMapChildren`
  records a mapping; any other value records none, though the marker is
  still removed. In Java, `getString()` converts a single long, boolean or
  path value to a string and records it, and throws on a multi-valued one.
- Traversal.MapOne: a mapping whose destination no longer resolves is
  skipped. In Java, `session.getNode` would throw.
- Mapping.Evaluate: a reference resolves only as a relative path that
  descends from the subject (`./a/b`, `a/b`). A path with a `..` or an
  empty segment never resolves here, so the property takes its default or
  is deleted. In Java, `root.hasProperty` and `root.hasNode` accept `..`:
  `${../title}` reads the parent's property. References are resolved
  against the subject as it was before it was moved aside; this matches
  Java only because `..` is dropped, since in Java `${../<name>/x}` would
  reach the copy standing under the subject's old name.
- Mapping.Negated: with `!`, a multi-valued boolean or string source is
  copied unchanged. In Java, `getBoolean()` or `getString()` on the
  multi-valued copy throws a `ValueFormatException`.
- GetLong: only a single long value reads as a long. The repository's
  conversion of a numeric string to a long is not modelled, so such a
  ranking counts as unreadable.
- DataProps: a subject property named exactly `data-` is mapped into a
  property with the empty name on `granite:data`. In Java, the glob
  `data-*` matches it too, and `setProperty("")` then throws, because an
  empty JCR name is invalid; that exception is not modelled.
- CommonAttrs.DataKeys: it accepts the name `data-` itself, as the Java
  glob does, so the exception above is the one dropped behaviour of the
  data loop.
- RenderCondition.ConvertProperty: only a single string `sling:resourceType`
  is converted. A single path, URI or other value holding the Coral 2
  prefix is left unchanged here. Java reads it with `getString()`, converts
  it and writes it back as a string. `ConvertTreeNoCoral2` is stated for
  string values only, for this reason.
- `toString` and the logger are left out: they are output only.

## Findings

| source | as written | input that shows it | evidently intended | confidence | as-written member | corrected member |
|---|---|---|---|---|---|---|
| bundles/cq-dialog-conversion/src/main/java/com/adobe/cq/dialogconversion/impl/rules/NodeBasedRewriteRule.java:564-578 | when `getLong()` throws, the catch block only logs, so `this.ranking` stays null and `return this.ranking` throws a `NullPointerException` on unboxing | a rule node whose `cq:rewriteRanking` is the boolean `true` | log the warning and rank the rule `Integer.MAX_VALUE`, as when the property is absent | not executed; high | RewriteRule.RankingAsWritten (shown by RewriteRule.BooleanRankingThrows) | RewriteRule.RuleRanking (used by RewriteRule.NodeBasedRewriteRule.GetRanking; compared by RewriteRule.RankingCorrected) |
