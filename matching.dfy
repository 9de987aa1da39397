/**
 * `matches`: whether a subject tree matches one of a rule's patterns.
 * A pattern node matches when the primary types agree, every ordinary
 * pattern property is on the subject with an equal value, and every
 * non-optional child is present by name; the match then continues into the
 * first child that is not optional-and-absent, and only that one.
 */
module Matching {
  import opened Tree
  import opened Names

  function LowerAscii(c: char): char
  {
    if 'A' <= c <= 'Z' then (c as int + 32) as char else c
  }

  /** `Boolean.valueOf(s)`: "true" in any letter case. */
  predicate IsTrueString(s: string)
  {
    |s| == 4 && LowerAscii(s[0]) == 't' && LowerAscii(s[1]) == 'r' && LowerAscii(s[2]) == 'u' && LowerAscii(s[3]) == 'e'
  }

  /** `Property.getBoolean()` where it has a value; `None` where the repository would refuse the conversion. */
  function GetBoolean(p: Property): Option<bool>
  {
    match p.vals
    case One(Bool(b)) => Some(b)
    case One(Str(s)) => Some(IsTrueString(s))
    case _ => None
  }

  /** A pattern node marked `cq:rewriteOptional = true`. */
  predicate IsOptional(p: Node)
  {
    PropertyOptional in p.props && GetBoolean(p.props[PropertyOptional]) == Some(true)
  }

  /**
   * Patterns the matcher can read without an exception: ordinary
   * properties are single-valued (their value is compared) and the optional
   * marker reads as a boolean.
   */
  predicate PatternWF(p: Node)
  {
    && (forall name :: name in p.props && !p.props[name].protected ==> p.props[name].vals.One?)
    && (PropertyOptional in p.props ==> GetBoolean(p.props[PropertyOptional]).Some?)
    && (forall i :: 0 <= i < |p.children| ==> PatternWF(p.children[i]))
  }

  /** The pattern's own properties are on the subject with equal values (protected ones and the optional marker aside). */
  predicate PropertiesMatch(subject: Node, p: Node)
  {
    forall name :: name in p.props && !p.props[name].protected && name != PropertyOptional ==>
      name in subject.props && subject.props[name].vals == p.props[name].vals
  }

  /** Every child not marked optional is present on the subject. */
  predicate RequiredPresent(subject: Node, cs: seq<Node>)
  {
    forall i :: 0 <= i < |cs| && !IsOptional(cs[i]) ==> HasChild(subject, cs[i].name)
  }

  /** A child the recursion does not skip: not (optional and absent). */
  predicate Relevant(subject: Node, c: Node)
  {
    !(IsOptional(c) && !HasChild(subject, c.name))
  }

  function FirstRelevant(subject: Node, cs: seq<Node>): (r: Option<nat>)
    ensures r.Some? ==> r.value < |cs| && Relevant(subject, cs[r.value])
    ensures r.Some? ==> forall j :: 0 <= j < r.value ==> !Relevant(subject, cs[j])
    ensures r.None? <==> forall j :: 0 <= j < |cs| ==> !Relevant(subject, cs[j])
  {
    if cs == [] then None
    else if Relevant(subject, cs[0]) then Some(0)
    else match FirstRelevant(subject, cs[1..])
      case None => None
      case Some(i) => Some(i + 1)
  }

  /** `matches(root, pattern)`. The subject's own name is never compared. */
  predicate MatchesPattern(subject: Node, p: Node)
    requires PatternWF(p)
    decreases p
  {
    && subject.ntype == p.ntype
    && PropertiesMatch(subject, p)
    && RequiredPresent(subject, p.children)
    && match FirstRelevant(subject, p.children)
       case None => true
       case Some(i) =>
         var c := p.children[i];
         assert HasChild(subject, c.name);
         MatchesPattern(Child(subject, c.name), c)
  }

  /** Every alternative can be read by the matcher. */
  predicate RuleWF(rule: Node)
  {
    HasChild(rule, NodePatterns) ==>
      forall i :: 0 <= i < |Child(rule, NodePatterns).children| ==> PatternWF(Child(rule, NodePatterns).children[i])
  }

  /** The loop over the alternatives, stopping at the first that matches. */
  predicate AnyMatches(root: Node, alts: seq<Node>)
    requires forall i :: 0 <= i < |alts| ==> PatternWF(alts[i])
  {
    alts != [] && (MatchesPattern(root, alts[0]) || AnyMatches(root, alts[1..]))
  }

  /** `matches(root)`: no `patterns` child, or one without children, never matches. */
  predicate RuleMatches(rule: Node, root: Node)
    requires RuleWF(rule)
  {
    && HasChild(rule, NodePatterns)
    && Child(rule, NodePatterns).children != []
    && AnyMatches(root, Child(rule, NodePatterns).children)
  }

  lemma {:induction false} AnyMatchesExists(root: Node, alts: seq<Node>)
    requires forall i :: 0 <= i < |alts| ==> PatternWF(alts[i])
    ensures AnyMatches(root, alts) <==> exists i :: 0 <= i < |alts| && MatchesPattern(root, alts[i])
  {
    if alts != [] {
      AnyMatchesExists(root, alts[1..]);
      if AnyMatches(root, alts[1..]) {
        var i :| 0 <= i < |alts[1..]| && MatchesPattern(root, alts[1..][i]);
        assert MatchesPattern(root, alts[i + 1]);
      }
      if exists i :: 0 <= i < |alts| && MatchesPattern(root, alts[i]) {
        var i :| 0 <= i < |alts| && MatchesPattern(root, alts[i]);
        if i > 0 {
          assert MatchesPattern(root, alts[1..][i - 1]);
        }
      }
    }
  }

  /** A rule matches exactly when it has a `patterns` child and one of its children matches. */
  lemma RuleMatchesIff(rule: Node, root: Node)
    requires RuleWF(rule)
    ensures RuleMatches(rule, root) <==>
            HasChild(rule, NodePatterns) &&
            exists i :: 0 <= i < |Child(rule, NodePatterns).children| &&
                        MatchesPattern(root, Child(rule, NodePatterns).children[i])
  {
    if HasChild(rule, NodePatterns) {
      AnyMatchesExists(root, Child(rule, NodePatterns).children);
    }
  }

  /** Each of the three local checks is necessary. */
  lemma PatternFails(subject: Node, p: Node)
    requires PatternWF(p)
    requires || subject.ntype != p.ntype
             || (exists name :: name in p.props && !p.props[name].protected && name != PropertyOptional &&
                                (name !in subject.props || subject.props[name].vals != p.props[name].vals))
             || (exists i :: 0 <= i < |p.children| && !IsOptional(p.children[i]) && !HasChild(subject, p.children[i].name))
    ensures !MatchesPattern(subject, p)
  {
  }

  /** A pattern without children matches exactly on type and properties. */
  lemma LeafPattern(subject: Node, p: Node)
    requires PatternWF(p) && p.children == []
    ensures MatchesPattern(subject, p) <==> subject.ntype == p.ntype && PropertiesMatch(subject, p)
  {
  }

  /** The name of the subject root plays no part in matching. */
  lemma RootNameIgnored(subject: Node, p: Node, name: string)
    requires PatternWF(p)
    ensures MatchesPattern(subject.(name := name), p) == MatchesPattern(subject, p)
  {
    var s' := subject.(name := name);
    assert s'.children == subject.children;
    assert RequiredPresent(s', p.children) == RequiredPresent(subject, p.children);
    SameChildrenRelevant(s', subject, p.children);
    SameSubjectProperties(s', subject, p);
  }

  lemma SameSubjectProperties(a: Node, b: Node, p: Node)
    requires a.props == b.props
    ensures PropertiesMatch(a, p) == PropertiesMatch(b, p)
  {
  }

  lemma {:induction false} SameChildrenRelevant(a: Node, b: Node, cs: seq<Node>)
    requires a.children == b.children
    ensures FirstRelevant(a, cs) == FirstRelevant(b, cs)
  {
    if cs != [] {
      assert Relevant(a, cs[0]) == Relevant(b, cs[0]);
      SameChildrenRelevant(a, b, cs[1..]);
    }
  }

  /** Which child the recursion enters depends only on the children's names and optional markers. */
  lemma {:induction false} FirstRelevantByName(subject: Node, cs: seq<Node>, ds: seq<Node>)
    requires |cs| == |ds|
    requires forall i :: 0 <= i < |cs| ==> cs[i].name == ds[i].name && IsOptional(cs[i]) == IsOptional(ds[i])
    ensures FirstRelevant(subject, cs) == FirstRelevant(subject, ds)
  {
    if cs != [] {
      assert Relevant(subject, cs[0]) == Relevant(subject, ds[0]);
      FirstRelevantByName(subject, cs[1..], ds[1..]);
    }
  }

  /**
   * The recursion quirk: apart from their names and optional markers, the
   * children after the first one the recursion enters are never looked at,
   * so two patterns that differ only there match the same subjects.
   */
  lemma LaterChildrenIgnored(subject: Node, p: Node, q: Node)
    requires PatternWF(p) && PatternWF(q)
    requires p.ntype == q.ntype && p.props == q.props && |p.children| == |q.children|
    requires forall i :: 0 <= i < |p.children| ==>
               p.children[i].name == q.children[i].name && IsOptional(p.children[i]) == IsOptional(q.children[i])
    requires forall k :: FirstRelevant(subject, p.children) == Some(k) ==> p.children[k] == q.children[k]
    ensures MatchesPattern(subject, p) == MatchesPattern(subject, q)
  {
    FirstRelevantByName(subject, p.children, q.children);
    assert RequiredPresent(subject, p.children) == RequiredPresent(subject, q.children);
    SamePropertiesMatch(subject, p, q);
    match FirstRelevant(subject, p.children)
    case None =>
    case Some(k) => assert p.children[k] == q.children[k];
  }

  lemma SamePropertiesMatch(subject: Node, p: Node, q: Node)
    requires p.props == q.props
    ensures PropertiesMatch(subject, p) == PropertiesMatch(subject, q)
  {
  }

  /**
   * An optional child: a subject without it matches on the parent's own
   * checks; a subject with it must also match the child.
   */
  lemma OptionalChild(subject: Node, p: Node)
    requires PatternWF(p) && |p.children| == 1 && IsOptional(p.children[0])
    requires subject.ntype == p.ntype && PropertiesMatch(subject, p)
    ensures !HasChild(subject, p.children[0].name) ==> MatchesPattern(subject, p)
    ensures HasChild(subject, p.children[0].name) ==>
              (MatchesPattern(subject, p) <==> MatchesPattern(Child(subject, p.children[0].name), p.children[0]))
  {
    var c := p.children[0];
    assert RequiredPresent(subject, p.children);
    if HasChild(subject, c.name) {
      assert Relevant(subject, c);
      assert FirstRelevant(subject, p.children) == Some(0);
    } else {
      assert !Relevant(subject, c);
      assert FirstRelevant(subject, p.children) == None;
    }
  }
}
