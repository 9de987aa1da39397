/**
 * The pre-order traversal of the replacement copy in `applyTo`: on every
 * node, marker properties are consumed, mapped properties are evaluated
 * against the subject, rewrite directives are applied, and the
 * `cq:rewriteProperties` child is removed before the traversal descends.
 * Children mappings and single-node finals are collected on the way and
 * then applied.
 */
module Traversal {
  import opened Tree
  import opened Names
  import opened Mapping

  /** A children mapping found on a node: the subject path to copy from and the node's path in the copy. */
  datatype Entry = Entry(source: string, dest: Path)

  /** The rewritten subtree, the mappings found in it (in visiting order) and the nodes marked final. */
  datatype Visit = Visit(node: Node, entries: seq<Entry>, finals: set<Path>)

  /** The same for a run of siblings. */
  datatype Visits = Visits(nodes: seq<Node>, entries: seq<Entry>, finals: set<Path>)

  /** The node's `cq:rewriteProperties` child, if it has one. */
  function Directives(n: Node): Option<Node>
  {
    if HasChild(n, NodeRewriteProperties) then Some(Child(n, NodeRewriteProperties)) else None
  }

  /** `rewriteProperty` when a directive of the property's name exists. */
  function Rewritten(p: Property, name: string, directives: Option<Node>, replaceAll: ReplaceAll): Property
  {
    match directives
    case Some(d) => if name in d.props then RewriteProperty(p, d.props[name], replaceAll) else p
    case None => p
  }

  /** What stands under `name` after the property loop (`None`: the property is gone). */
  function ProcessedValue(subject: Node, name: string, p: Property, directives: Option<Node>, replaceAll: ReplaceAll): Option<Property>
  {
    if p.protected then Some(p)
    else if name == PropertyMapChildren || name == PropertyIsFinal then None
    else match Evaluate(subject, p)
      case Untouched => Some(p)
      case Removed => None
      case Literal => Some(Rewritten(p, name, directives, replaceAll))
      case Mapped(q) => Some(Rewritten(q, name, directives, replaceAll))
  }

  /** The node's properties after the property loop. */
  function ProcessedProps(subject: Node, n: Node, replaceAll: ReplaceAll): map<string, Property>
  {
    map k | k in n.props && ProcessedValue(subject, k, n.props[k], Directives(n), replaceAll).Some? ::
      ProcessedValue(subject, k, n.props[k], Directives(n), replaceAll).value
  }

  /** Reading one name of the processed properties. */
  lemma ProcessedLookup(subject: Node, n: Node, replaceAll: ReplaceAll, k: string)
    ensures Lookup(ProcessedProps(subject, n, replaceAll), k) ==
              if k in n.props then ProcessedValue(subject, k, n.props[k], Directives(n), replaceAll) else None
  {
  }

  /** The property loop of one node: the node's properties as it leaves them. */
  type PropertyLoop = Node -> map<string, Property>

  /** The loop of `applyTo`: markers consumed, mapped properties evaluated against `subject`, directives applied. */
  function Loop(subject: Node, replaceAll: ReplaceAll): PropertyLoop
  {
    n => ProcessedProps(subject, n, replaceAll)
  }

  /** A loop that leaves no non-protected marker property on any node. */
  ghost predicate ConsumesMarkers(loop: PropertyLoop)
  {
    forall n: Node ::
      && (PropertyMapChildren in loop(n) ==> loop(n)[PropertyMapChildren].protected)
      && (PropertyIsFinal in loop(n) ==> loop(n)[PropertyIsFinal].protected)
  }

  /** The loop of `applyTo` consumes `cq:rewriteMapChildren` and `cq:rewriteFinal` everywhere. */
  lemma LoopConsumesMarkers(subject: Node, replaceAll: ReplaceAll)
    ensures ConsumesMarkers(Loop(subject, replaceAll))
  {
    forall n: Node
      ensures var r := Loop(subject, replaceAll)(n);
              && (PropertyMapChildren in r ==> r[PropertyMapChildren].protected)
              && (PropertyIsFinal in r ==> r[PropertyIsFinal].protected)
    {
      ProcessedLookup(subject, n, replaceAll, PropertyMapChildren);
      ProcessedLookup(subject, n, replaceAll, PropertyIsFinal);
    }
  }

  /** A string `cq:rewriteMapChildren` on the node: the subject path its children come from. */
  function MapSource(n: Node): Option<string>
  {
    if PropertyMapChildren in n.props && !n.props[PropertyMapChildren].protected then
      match n.props[PropertyMapChildren].vals
      case One(Str(s)) => Some(s)
      case _ => None
    else None
  }

  /** The node carries a `cq:rewriteFinal` marker. */
  predicate MarkedFinal(n: Node)
  {
    PropertyIsFinal in n.props && !n.props[PropertyIsFinal].protected
  }

  /** The node with its properties processed and its directives child removed, before the descent. */
  function Stripped(loop: PropertyLoop, n: Node): (r: Node)
    ensures r.name == n.name && r.ntype == n.ntype && r.props == loop(n)
    ensures forall c :: c in r.children ==> c in n.children
  {
    n.(props := loop(n), children := Without(n.children, NodeRewriteProperties))
  }

  /**
   * With distinct sibling names, a child left after stripping is the
   * original child `k`, found by its own name, and not the directives child.
   */
  lemma StrippedChild(loop: PropertyLoop, n: Node, j: nat) returns (k: nat)
    requires UniqueNames(n) && j < |Stripped(loop, n).children|
    ensures k < |n.children| && n.children[k] == Stripped(loop, n).children[j]
    ensures FindChild(n.children, n.children[k].name) == Some(k) && n.children[k].name != NodeRewriteProperties
    ensures UniqueNames(n.children[k])
  {
    k := WithoutUnique(n.children, NodeRewriteProperties, j);
  }

  /** A child not called `cq:rewriteProperties` is still there after stripping, at index `j`. */
  lemma StrippedKeeps(loop: PropertyLoop, n: Node, k: nat) returns (j: nat)
    requires k < |n.children| && n.children[k].name != NodeRewriteProperties
    ensures j < |Stripped(loop, n).children| && Stripped(loop, n).children[j] == n.children[k]
  {
    j := WithoutKeeps(n.children, NodeRewriteProperties, k);
  }

  /** The traversal of the subtree `n`, found at `at` in the copy. */
  function Traverse(loop: PropertyLoop, n: Node, at: Path, treeIsFinal: bool): (v: Visit)
    ensures v.node.name == n.name && v.node.ntype == n.ntype
    decreases n, 1
  {
    var m := Stripped(loop, n);
    var here := Here(n, at);
    var fin := if MarkedFinal(n) && !treeIsFinal then {at} else {};
    var rest := TraverseChildren(loop, n, |m.children|, at, treeIsFinal);
    Visit(m.(children := rest.nodes), here + rest.entries, fin + rest.finals)
  }

  /** The traversal of the first `i` remaining children of `n`. */
  function TraverseChildren(loop: PropertyLoop, n: Node, i: nat, at: Path, treeIsFinal: bool): (vs: Visits)
    requires i <= |Stripped(loop, n).children|
    ensures |vs.nodes| == i
    decreases n, 0, i
  {
    if i == 0 then Visits([], [], {})
    else
      var m := Stripped(loop, n);
      var c := m.children[i - 1];
      assert c in n.children;
      var prev := TraverseChildren(loop, n, i - 1, at, treeIsFinal);
      var v := Traverse(loop, c, at + [c.name], treeIsFinal);
      Visits(prev.nodes + [v.node], prev.entries + v.entries, prev.finals + v.finals)
  }

  /** No marker property is left on a node of the subtree (protected ones are never touched). */
  predicate NoMarkers(n: Node)
  {
    && (PropertyMapChildren in n.props ==> n.props[PropertyMapChildren].protected)
    && (PropertyIsFinal in n.props ==> n.props[PropertyIsFinal].protected)
    && forall i :: 0 <= i < |n.children| ==> NoMarkers(n.children[i])
  }

  /** `cq:rewriteMapChildren` and `cq:rewriteFinal` never survive the traversal. */
  lemma {:induction false} TraverseNoMarkers(loop: PropertyLoop, n: Node, at: Path, treeIsFinal: bool)
    requires ConsumesMarkers(loop)
    ensures NoMarkers(Traverse(loop, n, at, treeIsFinal).node)
    decreases n, 1
  {
    var m := Stripped(loop, n);
    TraverseChildrenNoMarkers(loop, n, |m.children|, at, treeIsFinal);
    var r := Traverse(loop, n, at, treeIsFinal).node;
    assert r.props == loop(n);
  }

  lemma {:induction false} TraverseChildrenNoMarkers(loop: PropertyLoop, n: Node, i: nat, at: Path, treeIsFinal: bool)
    requires ConsumesMarkers(loop)
    requires i <= |Stripped(loop, n).children|
    ensures forall j :: 0 <= j < i ==> NoMarkers(TraverseChildren(loop, n, i, at, treeIsFinal).nodes[j])
    decreases n, 0, i
  {
    if i > 0 {
      var m := Stripped(loop, n);
      var c := m.children[i - 1];
      assert c in n.children;
      TraverseChildrenNoMarkers(loop, n, i - 1, at, treeIsFinal);
      TraverseNoMarkers(loop, c, at + [c.name], treeIsFinal);
    }
  }

  /** No node of the subtree has a `cq:rewriteProperties` child. */
  predicate NoDirectives(n: Node)
  {
    forall i :: 0 <= i < |n.children| ==> n.children[i].name != NodeRewriteProperties && NoDirectives(n.children[i])
  }

  /** With distinct sibling names, no `cq:rewriteProperties` child is left anywhere in the traversed subtree. */
  lemma {:induction false} TraverseNoDirectives(loop: PropertyLoop, n: Node, at: Path, treeIsFinal: bool)
    requires UniqueNames(n)
    ensures NoDirectives(Traverse(loop, n, at, treeIsFinal).node)
    decreases n, 1
  {
    var k := |Stripped(loop, n).children|;
    TraverseChildrenNoDirectives(loop, n, k, at, treeIsFinal);
  }

  lemma {:induction false} TraverseChildrenNoDirectives(loop: PropertyLoop, n: Node, i: nat, at: Path, treeIsFinal: bool)
    requires UniqueNames(n)
    requires i <= |Stripped(loop, n).children|
    ensures AllNoDirectives(TraverseChildren(loop, n, i, at, treeIsFinal).nodes)
    decreases n, 0, i
  {
    if i > 0 {
      var k := StrippedChild(loop, n, i - 1);
      var c := Stripped(loop, n).children[i - 1];
      assert c == n.children[k];
      var prev := TraverseChildren(loop, n, i - 1, at, treeIsFinal).nodes;
      var v := Traverse(loop, c, at + [c.name], treeIsFinal).node;
      var all := TraverseChildren(loop, n, i, at, treeIsFinal).nodes;
      assert all == prev + [v];
      TraverseChildrenNoDirectives(loop, n, i - 1, at, treeIsFinal);
      TraverseNoDirectives(loop, c, at + [c.name], treeIsFinal);
      AllNoDirectivesSnoc(prev, v);
      assert AllNoDirectives(all);
    }
  }

  lemma AllNoDirectivesSnoc(cs: seq<Node>, d: Node)
    requires AllNoDirectives(cs) && d.name != NodeRewriteProperties && NoDirectives(d)
    ensures AllNoDirectives(cs + [d])
  {
    assert forall j :: 0 <= j < |cs| ==> (cs + [d])[j] == cs[j];
  }

  /** Siblings none of which is, or holds anywhere below it, a `cq:rewriteProperties` child. */
  predicate AllNoDirectives(cs: seq<Node>)
  {
    forall j :: 0 <= j < |cs| ==> cs[j].name != NodeRewriteProperties && NoDirectives(cs[j])
  }

  /**
   * The node at `q` below `n` carries `cq:rewriteFinal` and the traversal
   * reaches it: it does not lie inside a `cq:rewriteProperties` child.
   */
  predicate MarkedAt(n: Node, q: Path)
  {
    NodeRewriteProperties !in q && At(n, q).Some? && MarkedFinal(At(n, q).value)
  }

  /** Without a final tree, a collected path leads to a marked node the traversal reaches. */
  lemma {:induction false} FinalsSound(loop: PropertyLoop, n: Node, at: Path, p: Path)
    requires UniqueNames(n) && p in Traverse(loop, n, at, false).finals
    ensures |at| <= |p| && p[..|at|] == at && MarkedAt(n, p[|at|..])
    decreases n, 1
  {
    if p == at && MarkedFinal(n) {
      assert p[|at|..] == [];
    } else {
      ChildrenFinalsSound(loop, n, |Stripped(loop, n).children|, at, p);
    }
  }

  lemma {:induction false} ChildrenFinalsSound(loop: PropertyLoop, n: Node, i: nat, at: Path, p: Path)
    requires UniqueNames(n) && i <= |Stripped(loop, n).children|
    requires p in TraverseChildren(loop, n, i, at, false).finals
    ensures |at| <= |p| && p[..|at|] == at && MarkedAt(n, p[|at|..])
    decreases n, 0, i
  {
    if i > 0 {
      var k := StrippedChild(loop, n, i - 1);
      var c := n.children[k];
      var at' := at + [c.name];
      var prev := TraverseChildren(loop, n, i - 1, at, false).finals;
      var last := Traverse(loop, c, at', false).finals;
      assert p in prev + last;
      if p in prev {
        ChildrenFinalsSound(loop, n, i - 1, at, p);
      } else {
        ChildFinalsSound(loop, n, k, at, p);
      }
    }
  }

  /** A path collected below the child `k` leads to a marked node below `n`. */
  lemma {:induction false} ChildFinalsSound(loop: PropertyLoop, n: Node, k: nat, at: Path, p: Path)
    requires k < |n.children| && FindChild(n.children, n.children[k].name) == Some(k)
    requires n.children[k].name != NodeRewriteProperties && UniqueNames(n.children[k])
    requires p in Traverse(loop, n.children[k], at + [n.children[k].name], false).finals
    ensures |at| <= |p| && p[..|at|] == at && MarkedAt(n, p[|at|..])
    decreases n, 0, 0
  {
    var c := n.children[k];
    var at' := at + [c.name];
    FinalsSound(loop, c, at', p);
    PathBelowChild(at, c.name, p);
    MarkedAtChild(n, k, p[|at'|..]);
  }

  /** A marked node below `n` other than `n` itself is marked below the child its path starts with. */
  lemma MarkedAtParent(n: Node, q: Path) returns (k: nat)
    requires MarkedAt(n, q) && q != []
    ensures k < |n.children| && n.children[k].name == q[0] && q[0] != NodeRewriteProperties
    ensures MarkedAt(n.children[k], q[1..])
  {
    k := FindChild(n.children, q[0]).value;
    assert q[0] in q;
  }

  /** A path at or below `at + [name]` lies below `at`, through `name`. */
  lemma PathBelowChild(at: Path, name: string, p: Path)
    requires |at| + 1 <= |p| && p[..|at| + 1] == at + [name]
    ensures |at| <= |p| && p[..|at|] == at && p[|at|..] == [name] + p[|at| + 1..]
  {
    assert p[..|at|] == p[..|at| + 1][..|at|];
  }

  lemma PathCons(at: Path, q: Path)
    requires q != []
    ensures at + [q[0]] + q[1..] == at + q
  {
    assert [q[0]] + q[1..] == q;
  }

  /** A marked node below the child `k` is marked below its parent, through the child's name. */
  lemma MarkedAtChild(n: Node, k: nat, q: Path)
    requires k < |n.children| && FindChild(n.children, n.children[k].name) == Some(k)
    requires n.children[k].name != NodeRewriteProperties && MarkedAt(n.children[k], q)
    ensures MarkedAt(n, [n.children[k].name] + q)
  {
    assert ([n.children[k].name] + q)[1..] == q;
  }

  /** Without a final tree, every marked node the traversal reaches is collected. */
  lemma {:induction false} FinalsComplete(loop: PropertyLoop, n: Node, at: Path, q: Path)
    requires MarkedAt(n, q)
    ensures at + q in Traverse(loop, n, at, false).finals
    decreases n, 1
  {
    if q == [] {
      assert at + q == at;
    } else {
      var k := MarkedAtParent(n, q);
      var j := StrippedKeeps(loop, n, k);
      var rest := TraverseChildren(loop, n, |Stripped(loop, n).children|, at, false).finals;
      ChildrenFinalsComplete(loop, n, |Stripped(loop, n).children|, at, j, q[1..]);
      PathCons(at, q);
      assert at + q in rest;
    }
  }

  lemma {:induction false} ChildrenFinalsComplete(loop: PropertyLoop, n: Node, i: nat, at: Path, j: nat, q: Path)
    requires j < i <= |Stripped(loop, n).children|
    requires MarkedAt(Stripped(loop, n).children[j], q)
    ensures var c := Stripped(loop, n).children[j];
            at + [c.name] + q in TraverseChildren(loop, n, i, at, false).finals
    decreases n, 0, i
  {
    var c := Stripped(loop, n).children[i - 1];
    assert c in n.children;
    var x := at + [Stripped(loop, n).children[j].name] + q;
    var prev := TraverseChildren(loop, n, i - 1, at, false).finals;
    var last := Traverse(loop, c, at + [c.name], false).finals;
    if j < i - 1 {
      ChildrenFinalsComplete(loop, n, i - 1, at, j, q);
      assert x in prev;
    } else {
      FinalsComplete(loop, c, at + [c.name], q);
      assert x in last;
    }
  }

  /** When the whole tree is final, no single node is collected. */
  lemma {:induction false} TraverseFinalTree(loop: PropertyLoop, n: Node, at: Path)
    ensures Traverse(loop, n, at, true).finals == {}
    decreases n, 1
  {
    var m := Stripped(loop, n);
    TraverseChildrenFinalTree(loop, n, |m.children|, at);
  }

  lemma {:induction false} TraverseChildrenFinalTree(loop: PropertyLoop, n: Node, i: nat, at: Path)
    requires i <= |Stripped(loop, n).children|
    ensures TraverseChildren(loop, n, i, at, true).finals == {}
    decreases n, 0, i
  {
    if i > 0 {
      var m := Stripped(loop, n);
      var c := m.children[i - 1];
      assert c in n.children;
      TraverseChildrenFinalTree(loop, n, i - 1, at);
      TraverseFinalTree(loop, c, at + [c.name]);
    }
  }

  /** Every path in `ps` lies at least `depth` levels below `at`. */
  ghost predicate PathsWithin(ps: set<Path>, at: Path, depth: nat)
  {
    forall p :: p in ps ==> |at| + depth <= |p| && p[..|at|] == at
  }

  /** Every destination in `es` lies at least `depth` levels below `at`. */
  ghost predicate DestsWithin(es: seq<Entry>, at: Path, depth: nat)
  {
    forall j :: 0 <= j < |es| ==> |at| + depth <= |es[j].dest| && es[j].dest[..|at|] == at
  }

  /** Every collected path lies at or below the node the traversal started from. */
  lemma TraverseBelow(loop: PropertyLoop, n: Node, at: Path, treeIsFinal: bool)
    ensures var v := Traverse(loop, n, at, treeIsFinal); DestsWithin(v.entries, at, 0) && PathsWithin(v.finals, at, 0)
  {
    EntriesBelow(loop, n, at, treeIsFinal);
    FinalsBelow(loop, n, at, treeIsFinal);
  }

  lemma {:induction false} FinalsBelow(loop: PropertyLoop, n: Node, at: Path, treeIsFinal: bool)
    ensures PathsWithin(Traverse(loop, n, at, treeIsFinal).finals, at, 0)
    decreases n, 1
  {
    var m := Stripped(loop, n);
    var rest := TraverseChildren(loop, n, |m.children|, at, treeIsFinal).finals;
    ChildrenFinalsBelow(loop, n, |m.children|, at, treeIsFinal);
    var fin := if MarkedFinal(n) && !treeIsFinal then {at} else {};
    assert PathsWithin(fin, at, 0);
    PathsAppend(fin, rest, at);
  }

  /** Every final path collected among the remaining children lies strictly below their parent. */
  lemma {:induction false} ChildrenFinalsBelow(loop: PropertyLoop, n: Node, i: nat, at: Path, treeIsFinal: bool)
    requires i <= |Stripped(loop, n).children|
    ensures PathsWithin(TraverseChildren(loop, n, i, at, treeIsFinal).finals, at, 1)
    decreases n, 0, i
  {
    if i > 0 {
      var c := Stripped(loop, n).children[i - 1];
      assert c in n.children;
      ChildrenFinalsBelow(loop, n, i - 1, at, treeIsFinal);
      FinalsBelow(loop, c, at + [c.name], treeIsFinal);
      PathsChild(Traverse(loop, c, at + [c.name], treeIsFinal).finals, at, c.name);
    }
  }

  lemma {:induction false} EntriesBelow(loop: PropertyLoop, n: Node, at: Path, treeIsFinal: bool)
    ensures DestsWithin(Traverse(loop, n, at, treeIsFinal).entries, at, 0)
    decreases n, 1
  {
    var m := Stripped(loop, n);
    var rest := TraverseChildren(loop, n, |m.children|, at, treeIsFinal).entries;
    ChildrenEntriesBelow(loop, n, |m.children|, at, treeIsFinal);
    assert DestsWithin(Here(n, at), at, 0);
    DestsAppend(Here(n, at), rest, at);
  }

  /** Every mapping destination collected among the remaining children lies strictly below their parent. */
  lemma {:induction false} ChildrenEntriesBelow(loop: PropertyLoop, n: Node, i: nat, at: Path, treeIsFinal: bool)
    requires i <= |Stripped(loop, n).children|
    ensures DestsWithin(TraverseChildren(loop, n, i, at, treeIsFinal).entries, at, 1)
    decreases n, 0, i
  {
    if i > 0 {
      var c := Stripped(loop, n).children[i - 1];
      assert c in n.children;
      ChildrenEntriesBelow(loop, n, i - 1, at, treeIsFinal);
      EntriesBelow(loop, c, at + [c.name], treeIsFinal);
      DestsChild(Traverse(loop, c, at + [c.name], treeIsFinal).entries, at, c.name);
      DestsConcat(TraverseChildren(loop, n, i - 1, at, treeIsFinal).entries, Traverse(loop, c, at + [c.name], treeIsFinal).entries, at);
    }
  }

  /** Paths at or below `at`, some strictly below: all at or below `at`. */
  lemma PathsAppend(ps1: set<Path>, ps2: set<Path>, at: Path)
    requires PathsWithin(ps1, at, 0) && PathsWithin(ps2, at, 1)
    ensures PathsWithin(ps1 + ps2, at, 0)
  {
  }

  /** Paths at or below `at + [name]` lie strictly below `at`. */
  lemma PathsChild(ps: set<Path>, at: Path, name: string)
    requires PathsWithin(ps, at + [name], 0)
    ensures PathsWithin(ps, at, 1)
  {
    forall p | p in ps ensures |at| < |p| && p[..|at|] == at {
      assert p[..|at| + 1][..|at|] == (at + [name])[..|at|];
    }
  }

  lemma DestsAppend(es1: seq<Entry>, es2: seq<Entry>, at: Path)
    requires DestsWithin(es1, at, 0) && DestsWithin(es2, at, 1)
    ensures DestsWithin(es1 + es2, at, 0)
  {
    forall j | 0 <= j < |es1 + es2| ensures |at| <= |(es1 + es2)[j].dest| && (es1 + es2)[j].dest[..|at|] == at {
      if j >= |es1| { assert (es1 + es2)[j] == es2[j - |es1|]; }
    }
  }

  lemma DestsConcat(es1: seq<Entry>, es2: seq<Entry>, at: Path)
    requires DestsWithin(es1, at, 1) && DestsWithin(es2, at, 1)
    ensures DestsWithin(es1 + es2, at, 1)
  {
    forall j | 0 <= j < |es1 + es2| ensures |at| < |(es1 + es2)[j].dest| && (es1 + es2)[j].dest[..|at|] == at {
      if j >= |es1| { assert (es1 + es2)[j] == es2[j - |es1|]; }
    }
  }

  /** Destinations at or below `at + [name]` lie strictly below `at`. */
  lemma DestsChild(es: seq<Entry>, at: Path, name: string)
    requires DestsWithin(es, at + [name], 0)
    ensures DestsWithin(es, at, 1)
  {
    forall j | 0 <= j < |es| ensures |at| < |es[j].dest| && es[j].dest[..|at|] == at {
      assert es[j].dest[..|at| + 1][..|at|] == (at + [name])[..|at|];
    }
  }

  /**
   * A directive applies to any surviving string property, mapped or
   * literal, that carries its name; one that is not a pair of strings
   * leaves the property as mapping left it.
   */
  lemma DirectiveApplies(subject: Node, n: Node, name: string, replaceAll: ReplaceAll)
    requires name in n.props && !n.props[name].protected && name != PropertyMapChildren && name != PropertyIsFinal
    requires Evaluate(subject, n.props[name]).Literal? || Evaluate(subject, n.props[name]).Mapped?
    requires HasChild(n, NodeRewriteProperties) && name in Child(n, NodeRewriteProperties).props
    ensures var q := After(Evaluate(subject, n.props[name]), n.props[name]).value;
            var d := Child(n, NodeRewriteProperties).props[name];
            Lookup(ProcessedProps(subject, n, replaceAll), name) == Some(RewriteProperty(q, d, replaceAll))
  {
    ProcessedLookup(subject, n, replaceAll, name);
  }

  /** Without a directive of its name, a property ends as mapping left it. */
  lemma NoDirective(subject: Node, n: Node, name: string, replaceAll: ReplaceAll)
    requires name in n.props && !n.props[name].protected && name != PropertyMapChildren && name != PropertyIsFinal
    requires !HasChild(n, NodeRewriteProperties) || name !in Child(n, NodeRewriteProperties).props
    ensures Lookup(ProcessedProps(subject, n, replaceAll), name) == After(Evaluate(subject, n.props[name]), n.props[name])
  {
    ProcessedLookup(subject, n, replaceAll, name);
  }

  /** The property loop of one node, in the repository's (unspecified) property order. */
  method ProcessProperties(subject: Node, n: Node, replaceAll: ReplaceAll) returns (props: map<string, Property>)
    ensures props == ProcessedProps(subject, n, replaceAll)
  {
    var directives := Directives(n);
    var keys := n.props.Keys;
    ghost var done: set<string> := {};
    props := n.props;
    while keys != {}
      invariant keys + done == n.props.Keys && keys !! done
      invariant forall k :: Lookup(props, k) == PartialProps(subject, n, done, k, replaceAll)
      decreases |keys|
    {
      var k :| k in keys;
      var value := ProcessProperty(subject, k, n.props[k], directives, replaceAll);
      ghost var before := props;
      props := Assign(props, k, value);
      PartialPropsStep(subject, n, done, k, replaceAll, before, props);
      MoveKey(keys, done, n.props.Keys, k);
      keys := keys - {k};
      done := done + {k};
    }
    PartialPropsDone(subject, n, replaceAll, done, props);
  }

  /** One turn of the property loop: the property `name` with value `p`, as the loop leaves it. */
  method ProcessProperty(subject: Node, name: string, p: Property, directives: Option<Node>, replaceAll: ReplaceAll)
    returns (value: Option<Property>)
    ensures value == ProcessedValue(subject, name, p, directives, replaceAll)
  {
    value := Some(p);
    if !p.protected {
      if name == PropertyMapChildren || name == PropertyIsFinal {
        // consumed: the marker is not part of the result
        value := None;
      } else {
        var m := MapProperty(subject, p);
        match m
        case Untouched =>
        case Removed => value := None;
        case Literal => value := Some(Rewritten(p, name, directives, replaceAll));
        case Mapped(q) => value := Some(Rewritten(q, name, directives, replaceAll));
      }
    }
  }

  /** One turn of the property loop extends the keys done by `k`. */
  lemma PartialPropsStep(subject: Node, n: Node, done: set<string>, k: string, replaceAll: ReplaceAll,
                         before: map<string, Property>, props: map<string, Property>)
    requires k in n.props
    requires forall y :: Lookup(before, y) == PartialProps(subject, n, done, y, replaceAll)
    requires props == Assign(before, k, ProcessedValue(subject, k, n.props[k], Directives(n), replaceAll))
    ensures forall y :: Lookup(props, y) == PartialProps(subject, n, done + {k}, y, replaceAll)
  {
    forall y ensures Lookup(props, y) == PartialProps(subject, n, done + {k}, y, replaceAll) {
      if y != k {
        assert Lookup(props, y) == Lookup(before, y);
      }
    }
  }

  /** Once every key is done, the loop's map is `ProcessedProps`. */
  lemma PartialPropsDone(subject: Node, n: Node, replaceAll: ReplaceAll, done: set<string>, props: map<string, Property>)
    requires done == n.props.Keys
    requires forall y :: Lookup(props, y) == PartialProps(subject, n, done, y, replaceAll)
    ensures props == ProcessedProps(subject, n, replaceAll)
  {
    forall k ensures Lookup(props, k) == Lookup(ProcessedProps(subject, n, replaceAll), k) {
      assert Lookup(props, k) == PartialProps(subject, n, done, k, replaceAll);
      ProcessedLookup(subject, n, replaceAll, k);
    }
    LookupExtensional(props, ProcessedProps(subject, n, replaceAll));
  }

  /** The property loop's result after the keys `done`. */
  function PartialProps(subject: Node, n: Node, done: set<string>, k: string, replaceAll: ReplaceAll): Option<Property>
  {
    if k in done && k in n.props then ProcessedValue(subject, k, n.props[k], Directives(n), replaceAll) else Lookup(n.props, k)
  }

  /** The mapping a node records. */
  function Here(n: Node, at: Path): seq<Entry>
  {
    match MapSource(n) case Some(s) => [Entry(s, at)] case None => []
  }

  /** The traversal of the subtree `n`, as the source runs it: this node first, then each remaining child. */
  method RewriteSubtree(subject: Node, n: Node, at: Path, treeIsFinal: bool, replaceAll: ReplaceAll) returns (v: Visit)
    ensures v == Traverse(Loop(subject, replaceAll), n, at, treeIsFinal)
    decreases n, 1
  {
    ghost var loop := Loop(subject, replaceAll);
    var props := ProcessProperties(subject, n, replaceAll);
    var here := Here(n, at);
    var fin: set<Path> := if MarkedFinal(n) && !treeIsFinal then {at} else {};
    var m := RemoveChild(n.(props := props), NodeRewriteProperties);
    assert m == Stripped(loop, n);
    var rest := RewriteChildren(subject, n, m, at, treeIsFinal, replaceAll);
    v := Visit(m.(children := rest.nodes), here + rest.entries, fin + rest.finals);
  }

  /** The remaining children `m.children` of `n`, each traversed in turn. */
  method RewriteChildren(subject: Node, n: Node, m: Node, at: Path, treeIsFinal: bool, replaceAll: ReplaceAll) returns (vs: Visits)
    requires m == Stripped(Loop(subject, replaceAll), n)
    ensures vs == TraverseChildren(Loop(subject, replaceAll), n, |m.children|, at, treeIsFinal)
    decreases n, 0
  {
    ghost var loop := Loop(subject, replaceAll);
    vs := Visits([], [], {});
    var i := 0;
    while i < |m.children|
      invariant i <= |m.children|
      invariant vs == TraverseChildren(loop, n, i, at, treeIsFinal)
    {
      var c := m.children[i];
      assert c in n.children;
      var w := RewriteSubtree(subject, c, at + [c.name], treeIsFinal, replaceAll);
      vs := Visits(vs.nodes + [w.node], vs.entries + w.entries, vs.finals + w.finals);
      i := i + 1;
    }
  }

  /** The `mappings` map after the traversal: a later entry for the same source overwrites an earlier one. */
  function Pending(entries: seq<Entry>): map<string, Path>
  {
    if entries == [] then map[]
    else
      var e := entries[|entries| - 1];
      Pending(entries[..|entries| - 1])[e.source := e.dest]
  }

  /** Each source maps to the destination of its last entry; sources without an entry are absent. */
  lemma {:induction false} PendingLastWins(entries: seq<Entry>)
    ensures forall k :: k in Pending(entries) <==> exists i :: 0 <= i < |entries| && entries[i].source == k
    ensures forall i :: 0 <= i < |entries| && (forall j :: i < j < |entries| ==> entries[j].source != entries[i].source) ==>
              Pending(entries)[entries[i].source] == entries[i].dest
  {
    if entries != [] {
      var init := entries[..|entries| - 1];
      var e := entries[|entries| - 1];
      PendingLastWins(init);
      forall k ensures k in Pending(entries) <==> exists i :: 0 <= i < |entries| && entries[i].source == k {
        if k != e.source && k in Pending(init) {
          var i :| 0 <= i < |init| && init[i].source == k;
          assert entries[i] == init[i];
        }
        if k != e.source && exists i :: 0 <= i < |entries| && entries[i].source == k {
          var i :| 0 <= i < |entries| && entries[i].source == k;
          assert i < |init| && init[i] == entries[i];
        }
      }
      forall i | 0 <= i < |entries| && (forall j :: i < j < |entries| ==> entries[j].source != entries[i].source)
        ensures Pending(entries)[entries[i].source] == entries[i].dest
      {
        if i < |init| {
          assert entries[|entries| - 1].source != entries[i].source;
          assert init[i] == entries[i];
          assert forall j :: i < j < |init| ==> init[j] == entries[j];
        }
      }
    }
  }

  /** The `mappings` loop of the traversal, one entry after the other. */
  method CollectMappings(entries: seq<Entry>) returns (mappings: map<string, Path>)
    ensures mappings == Pending(entries)
  {
    mappings := map[];
    for i := 0 to |entries|
      invariant mappings == Pending(entries[..i])
    {
      assert entries[..i + 1][..i] == entries[..i];
      mappings := mappings[entries[i].source := entries[i].dest];
    }
    assert entries[..|entries|] == entries;
  }

  /** Copies of `cs` appended under `dest`, one by one, each under its own name or a fresh one. */
  function CopyChildren(dest: Node, cs: seq<Node>): Node
  {
    if cs == [] then dest
    else
      var c := cs[|cs| - 1];
      AddCopy(CopyChildren(dest, cs[..|cs| - 1]), c, c.name)
  }

  /** The destination keeps its own children, in front, and gains a deep copy of every source child, in order. */
  lemma {:induction false} CopyChildrenSpec(dest: Node, cs: seq<Node>)
    ensures var r := CopyChildren(dest, cs);
            && r.name == dest.name && r.ntype == dest.ntype && r.props == dest.props
            && |r.children| == |dest.children| + |cs|
            && r.children[..|dest.children|] == dest.children
            && forall j :: 0 <= j < |cs| ==> r.children[|dest.children| + j] == cs[j].(name := r.children[|dest.children| + j].name)
  {
    if cs != [] {
      var init := cs[..|cs| - 1];
      CopyChildrenSpec(dest, init);
      var prev := CopyChildren(dest, init);
      var r := CopyChildren(dest, cs);
      assert r.children[..|prev.children|] == prev.children;
      assert r.children[..|dest.children|] == prev.children[..|dest.children|];
      forall j | 0 <= j < |cs| ensures r.children[|dest.children| + j] == cs[j].(name := r.children[|dest.children| + j].name) {
        if j < |init| {
          assert r.children[|dest.children| + j] == prev.children[|dest.children| + j];
          assert cs[j] == init[j];
        }
      }
    }
  }

  /** One mapping: the children of the subject's node at `source` copied onto the copy's node at `dest`. */
  function MapOne(subject: Node, t: Node, source: string, dest: Path): (r: Node)
    ensures r.name == t.name
  {
    match ResolveNode(subject, source)
    case None => t
    case Some(src) =>
      match At(t, dest)
      case None => t
      case Some(d) =>
        CopyChildrenSpec(d, src.children);
        PutName(t, dest, CopyChildren(d, src.children));
        Put(t, dest, CopyChildren(d, src.children))
  }

  /** All mappings, in the order `order` of the map's keys. */
  function MapAll(subject: Node, t: Node, mappings: map<string, Path>, order: seq<string>): (r: Node)
    ensures r.name == t.name
  {
    if order == [] then t
    else
      var prev := MapAll(subject, t, mappings, order[..|order| - 1]);
      var k := order[|order| - 1];
      if k in mappings then MapOne(subject, prev, k, mappings[k]) else prev
  }

  /** One mapping whose source and destination both resolve: the destination gains copies of the source's children. */
  lemma MapOneEffect(subject: Node, t: Node, source: string, dest: Path)
    requires ResolveNode(subject, source).Some? && At(t, dest).Some?
    ensures At(MapOne(subject, t, source, dest), dest) ==
              Some(CopyChildren(At(t, dest).value, ResolveNode(subject, source).value.children))
  {
    var d := At(t, dest).value;
    var cs := ResolveNode(subject, source).value.children;
    CopyChildrenSpec(d, cs);
    AtPut(t, dest, CopyChildren(d, cs));
  }

  /**
   * The last mapping applied, `k`, leaves its destination holding what it
   * held after the earlier mappings followed by copies of `k`'s source children.
   */
  lemma MapAllLast(subject: Node, t: Node, mappings: map<string, Path>, order: seq<string>, k: string)
    requires k in mappings && ResolveNode(subject, k).Some?
    requires At(MapAll(subject, t, mappings, order), mappings[k]).Some?
    ensures At(MapAll(subject, t, mappings, order + [k]), mappings[k]) ==
              Some(CopyChildren(At(MapAll(subject, t, mappings, order), mappings[k]).value, ResolveNode(subject, k).value.children))
  {
    assert (order + [k])[..|order|] == order;
    MapOneEffect(subject, MapAll(subject, t, mappings, order), k, mappings[k]);
  }

  /** A mapping whose source path the subject lacks changes nothing. */
  lemma MapOneMissing(subject: Node, t: Node, source: string, dest: Path)
    requires ResolveNode(subject, source).None?
    ensures MapOne(subject, t, source, dest) == t
  {
  }
}
