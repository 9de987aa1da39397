/**
 * The render-condition step of `applyTo`: the subject's render condition
 * is copied onto the replacement copy as `granite:rendercondition`, and in
 * the copied subtree every `sling:resourceType` that starts with the Coral 2
 * prefix has that prefix replaced by the Coral 3 one.
 */
module RenderCondition {
  import opened Tree
  import opened Names

  predicate StartsWith(s: string, prefix: string)
  {
    |prefix| <= |s| && s[..|prefix|] == prefix
  }

  /** `String.replace(target, replacement)`: every occurrence of `target`, left to right, without overlap. */
  function ReplaceLiteral(s: string, target: string, replacement: string): string
    requires |target| > 0
    decreases |s|
  {
    if |s| < |target| then s
    else if s[..|target|] == target then replacement + ReplaceLiteral(s[|target|..], target, replacement)
    else [s[0]] + ReplaceLiteral(s[1..], target, replacement)
  }

  predicate OccursAt(s: string, target: string, i: nat)
  {
    i + |target| <= |s| && s[i..i + |target|] == target
  }

  /** A string without the target is left as it is. */
  lemma {:induction false} ReplaceLiteralAbsent(s: string, target: string, replacement: string)
    requires |target| > 0
    requires forall i: nat :: !OccursAt(s, target, i)
    ensures ReplaceLiteral(s, target, replacement) == s
    decreases |s|
  {
    if |s| >= |target| {
      assert !OccursAt(s, target, 0);
      assert s[0..|target|] == s[..|target|];
      forall i: nat ensures !OccursAt(s[1..], target, i) {
        assert !OccursAt(s, target, i + 1);
        if i + |target| <= |s[1..]| {
          assert s[1..][i..i + |target|] == s[i + 1..i + 1 + |target|];
        }
      }
      ReplaceLiteralAbsent(s[1..], target, replacement);
      assert [s[0]] + s[1..] == s;
    }
  }

  /** The new resource type of a render-condition node. */
  function ConvertResourceType(s: string): string
  {
    if StartsWith(s, Coral2RenderConditionPrefix) then
      ReplaceLiteral(s, Coral2RenderConditionPrefix, Coral3RenderConditionPrefix)
    else s
  }

  /**
   * A converted resource type has its leading Coral 2 prefix replaced by the
   * Coral 3 one, and the rest of the type goes through the same replacement;
   * it starts with the Coral 3 prefix, and so no longer with the Coral 2 one.
   * Any other resource type is unchanged.
   */
  lemma ConvertResourceTypeSpec(s: string)
    ensures StartsWith(s, Coral2RenderConditionPrefix) ==>
              ConvertResourceType(s) == Coral3RenderConditionPrefix +
                ReplaceLiteral(s[|Coral2RenderConditionPrefix|..], Coral2RenderConditionPrefix, Coral3RenderConditionPrefix)
    ensures StartsWith(s, Coral2RenderConditionPrefix) ==>
              StartsWith(ConvertResourceType(s), Coral3RenderConditionPrefix) &&
              !StartsWith(ConvertResourceType(s), Coral2RenderConditionPrefix)
    ensures !StartsWith(s, Coral2RenderConditionPrefix) ==> ConvertResourceType(s) == s
  {
    if StartsWith(s, Coral2RenderConditionPrefix) {
      var r := ConvertResourceType(s);
      var c2 := Coral2RenderConditionPrefix;
      var c3 := Coral3RenderConditionPrefix;
      assert r == c3 + ReplaceLiteral(s[|c2|..], c2, c3);
      assert r[..|c3|] == c3;
      assert c3[22] != c2[22];
      assert r[22] == c3[22];
    }
  }

  /** A Coral 2 type whose rest holds no further Coral 2 prefix keeps that rest after the Coral 3 prefix. */
  lemma ConvertResourceTypeKeepsRest(rest: string)
    requires forall i: nat :: !OccursAt(rest, Coral2RenderConditionPrefix, i)
    ensures ConvertResourceType(Coral2RenderConditionPrefix + rest) == Coral3RenderConditionPrefix + rest
  {
    var c2 := Coral2RenderConditionPrefix;
    var s := c2 + rest;
    assert s[..|c2|] == c2;
    assert s[|c2|..] == rest;
    ConvertResourceTypeSpec(s);
    ReplaceLiteralAbsent(rest, c2, Coral3RenderConditionPrefix);
  }

  /**
   * Every node of the subtree carries a single-valued `sling:resourceType`
   * (the traversal reads it with `getString()` on every node).
   */
  predicate ResourceTyped(n: Node)
  {
    && PropertyResourceType in n.props && n.props[PropertyResourceType].vals.One?
    && forall i :: 0 <= i < |n.children| ==> ResourceTyped(n.children[i])
  }

  /** The property after the rewrite: only a string value that starts with the Coral 2 prefix is set again. */
  function ConvertProperty(p: Property): Property
  {
    match p.vals
    case One(Str(s)) =>
      if StartsWith(s, Coral2RenderConditionPrefix) then p.(vals := One(Str(ConvertResourceType(s)))) else p
    case _ => p
  }

  /** The subtree with every node's resource type converted. */
  function ConvertTree(n: Node): (r: Node)
    requires ResourceTyped(n)
    ensures r.name == n.name && r.ntype == n.ntype && |r.children| == |n.children|
    ensures r.props == n.props[PropertyResourceType := ConvertProperty(n.props[PropertyResourceType])]
    decreases n
  {
    var cs := seq(|n.children|, i requires 0 <= i < |n.children| => ConvertTree(n.children[i]));
    n.(props := n.props[PropertyResourceType := ConvertProperty(n.props[PropertyResourceType])], children := cs)
  }

  /** No string resource type in the subtree still starts with the Coral 2 prefix. */
  predicate NoCoral2(n: Node)
  {
    && (PropertyResourceType in n.props && n.props[PropertyResourceType].vals.One? && n.props[PropertyResourceType].vals.v.Str? ==>
          !StartsWith(n.props[PropertyResourceType].vals.v.s, Coral2RenderConditionPrefix))
    && forall i :: 0 <= i < |n.children| ==> NoCoral2(n.children[i])
  }

  /** After the step, no string Coral 2 resource type is left anywhere in the copied subtree. */
  lemma {:induction false} ConvertTreeNoCoral2(n: Node)
    requires ResourceTyped(n)
    ensures NoCoral2(ConvertTree(n))
    decreases n
  {
    var r := ConvertTree(n);
    var p := n.props[PropertyResourceType];
    if p.vals.v.Str? {
      ConvertResourceTypeSpec(p.vals.v.s);
    }
    forall i | 0 <= i < |r.children| ensures NoCoral2(r.children[i]) {
      ConvertTreeNoCoral2(n.children[i]);
    }
  }

  /** A subtree with no Coral 2 resource type is left exactly as it is. */
  lemma {:induction false} ConvertTreeIdentity(n: Node)
    requires ResourceTyped(n) && NoCoral2(n)
    ensures ConvertTree(n) == n
    decreases n
  {
    var r := ConvertTree(n);
    forall i | 0 <= i < |n.children| ensures r.children[i] == n.children[i] {
      ConvertTreeIdentity(n.children[i]);
    }
    assert r.children == n.children;
    assert ConvertProperty(n.props[PropertyResourceType]) == n.props[PropertyResourceType];
    assert r.props == n.props;
  }

  /** The render condition the step copies: `granite:rendercondition` preferred over `rendercondition`. */
  function ChosenCondition(subject: Node): Option<Node>
  {
    if HasChild(subject, NodeGraniteRenderCondition) then Some(Child(subject, NodeGraniteRenderCondition))
    else if HasChild(subject, NodeRenderCondition) then Some(Child(subject, NodeRenderCondition))
    else None
  }

  /** The caller's obligation: the chosen render condition can be traversed. */
  predicate ConditionWF(subject: Node)
  {
    ChosenCondition(subject).Some? ==> ResourceTyped(ChosenCondition(subject).value)
  }

  /** The copy after the step: the converted render condition appended under `granite:rendercondition` (or a fresh name). */
  function WithRenderCondition(subject: Node, copy: Node): (r: Node)
    requires ConditionWF(subject)
    ensures r.name == copy.name && r.ntype == copy.ntype
  {
    match ChosenCondition(subject)
    case None => copy
    case Some(c) => AddCopy(copy, ConvertTree(c), NodeGraniteRenderCondition)
  }

  /** The traversal over the copied subtree, each node's resource type rewritten in place. */
  method ConvertConditions(n: Node) returns (r: Node)
    requires ResourceTyped(n)
    ensures r == ConvertTree(n)
    decreases n
  {
    var p := n.props[PropertyResourceType];
    if p.vals.v.Str? && StartsWith(p.vals.v.s, Coral2RenderConditionPrefix) {
      var resourceType := ReplaceLiteral(p.vals.v.s, Coral2RenderConditionPrefix, Coral3RenderConditionPrefix);
      p := p.(vals := One(Str(resourceType)));
    }
    var cs: seq<Node> := [];
    var i := 0;
    while i < |n.children|
      invariant i <= |n.children| && |cs| == i
      invariant forall j :: 0 <= j < i ==> ResourceTyped(n.children[j]) && cs[j] == ConvertTree(n.children[j])
    {
      var c := ConvertConditions(n.children[i]);
      cs := cs + [c];
      i := i + 1;
    }
    r := n.(props := n.props[PropertyResourceType := p], children := cs);
  }

  /** The render-condition step on the copy, as the source runs it. */
  method CopyRenderCondition(subject: Node, copy: Node) returns (r: Node)
    requires ConditionWF(subject)
    ensures r == WithRenderCondition(subject, copy)
  {
    r := copy;
    if HasChild(subject, NodeGraniteRenderCondition) || HasChild(subject, NodeRenderCondition) {
      var root := if HasChild(subject, NodeGraniteRenderCondition) then Child(subject, NodeGraniteRenderCondition)
                  else Child(subject, NodeRenderCondition);
      var converted := ConvertConditions(root);
      r := AddCopy(r, converted, NodeGraniteRenderCondition);
    }
  }
}
