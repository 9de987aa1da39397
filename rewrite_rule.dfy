/**
 * `NodeBasedRewriteRule`: a rewrite rule defined by a rule node with a
 * `patterns` child (the alternatives a subject tree may match) and a
 * `replacement` child (whose first child is the template the subject is
 * replaced by).
 */
module RewriteRule {
  import opened Tree
  import opened Names
  import opened Mapping
  import opened Matching
  import opened CommonAttrs
  import opened RenderCondition
  import opened Traversal

  /** What `applyTo` does: throws for want of a replacement, erases the subject, or replaces it by the copy at `path`. */
  datatype Outcome = NoReplacement | Erased | Replaced(path: Path)

  /** `Long.intValue()`: the low 32 bits, read as a signed value. */
  function IntValue(n: int): (r: int)
    ensures -0x8000_0000 <= r < 0x8000_0000
    ensures (n - r) % 0x1_0000_0000 == 0
    ensures -0x8000_0000 <= n < 0x8000_0000 ==> r == n
  {
    var m := n % 0x1_0000_0000;
    if m >= 0x8000_0000 then m - 0x1_0000_0000 else m
  }

  /** `Property.getLong()` on a single long; `None` where the repository refuses the conversion. */
  function GetLong(p: Property): Option<int>
  {
    match p.vals
    case One(Long(n)) => Some(n)
    case _ => None
  }

  /**
   * `getRanking` as written: when `cq:rewriteRanking` cannot be read, the
   * catch block leaves the cached ranking null and `return this.ranking`
   * unboxes it, which throws; `None` stands for that exception.
   */
  function RankingAsWritten(rule: Node): (r: Option<int>)
    ensures r.None? <==> PropertyRanking in rule.props && GetLong(rule.props[PropertyRanking]).None?
  {
    if PropertyRanking !in rule.props then Some(MaxInt)
    else match GetLong(rule.props[PropertyRanking])
      case Some(n) => Some(IntValue(n))
      case None => None
  }

  /** A rule whose ranking is a boolean makes `getRanking` throw instead of falling back. */
  lemma BooleanRankingThrows(rule: Node)
    requires PropertyRanking in rule.props && rule.props[PropertyRanking].vals == One(Bool(true))
    ensures RankingAsWritten(rule) == None
  {
  }

  /**
   * The rule's ranking: its `cq:rewriteRanking` narrowed to an int, or
   * `Integer.MAX_VALUE` without a readable one (the warning is logged and
   * the default used).
   */
  function RuleRanking(rule: Node): (r: int)
    ensures -0x8000_0000 <= r < 0x8000_0000
    ensures PropertyRanking !in rule.props ==> r == MaxInt
    ensures PropertyRanking in rule.props && GetLong(rule.props[PropertyRanking]).None? ==> r == MaxInt
    ensures PropertyRanking in rule.props && GetLong(rule.props[PropertyRanking]).Some? &&
            -0x8000_0000 <= GetLong(rule.props[PropertyRanking]).value < 0x8000_0000 ==>
              r == GetLong(rule.props[PropertyRanking]).value
  {
    if PropertyRanking in rule.props && GetLong(rule.props[PropertyRanking]).Some? then
      IntValue(GetLong(rule.props[PropertyRanking]).value)
    else MaxInt
  }

  /** The corrected ranking agrees with the code wherever the code returns. */
  lemma RankingCorrected(rule: Node)
    ensures RankingAsWritten(rule).Some? ==> RankingAsWritten(rule) == Some(RuleRanking(rule))
  {
  }

  /** `cq:rewriteFinal` on the replacement node, when present, reads as a boolean. */
  predicate FinalWF(replacement: Node)
  {
    PropertyIsFinal in replacement.props ==> GetBoolean(replacement.props[PropertyIsFinal]).Some?
  }

  /** The whole replacement tree is final. */
  predicate TreeIsFinal(replacement: Node)
  {
    PropertyIsFinal in replacement.props && GetBoolean(replacement.props[PropertyIsFinal]) == Some(true)
  }

  /** What the caller must provide for the render-condition step to read every resource type. */
  predicate StepsWF(subject: Node, replacement: Node)
  {
    PropertyRenderCondition in replacement.props ==> ConditionWF(subject)
  }

  /** The copy after the common-attribute and render-condition steps. */
  function Prepared(subject: Node, replacement: Node, copy: Node): (r: Node)
    requires StepsWF(subject, replacement)
    ensures r.name == copy.name
  {
    var c := if PropertyCommonAttrs in replacement.props then CommonAttrMappings(subject, copy) else copy;
    if PropertyRenderCondition in replacement.props then WithRenderCondition(subject, c) else c
  }

  /** The traversal of the prepared copy. */
  function Visited(subject: Node, replacement: Node, copy: Node, replaceAll: ReplaceAll): Visit
    requires StepsWF(subject, replacement)
  {
    Traverse(Loop(subject, replaceAll), Prepared(subject, replacement, copy), [], TreeIsFinal(replacement))
  }

  /** The finished copy: traversed, then the children mappings applied in the order `order`. */
  function RewrittenCopy(subject: Node, replacement: Node, copy: Node, replaceAll: ReplaceAll, order: seq<string>): (r: Node)
    requires StepsWF(subject, replacement)
    ensures r.name == copy.name
  {
    var v := Visited(subject, replacement, copy, replaceAll);
    MapAll(subject, v.node, Pending(v.entries), order)
  }

  /** The nodes `applyTo` adds to the final set: the whole copy when it is final, else the marked nodes. */
  function NewFinals(subject: Node, replacement: Node, copy: Node, replaceAll: ReplaceAll, order: seq<string>, at: Path): set<Path>
    requires StepsWF(subject, replacement)
  {
    if TreeIsFinal(replacement) then set p | p in PreOrder(RewrittenCopy(subject, replacement, copy, replaceAll, order), at)
    else Under(at, Visited(subject, replacement, copy, replaceAll).finals)
  }

  /** The paths `ps`, relative to the copy, made absolute with the copy at `at`. */
  function Under(at: Path, ps: set<Path>): set<Path>
  {
    set p | p in ps :: at + p
  }

  /** `at` itself is among them exactly when the copy's own relative path `[]` is, and all lie below `at`. */
  lemma UnderSpec(at: Path, ps: set<Path>)
    ensures at in Under(at, ps) <==> [] in ps
    ensures forall q :: q in Under(at, ps) ==> |at| <= |q| && q[..|at|] == at
  {
    if at in Under(at, ps) {
      var q :| q in ps && at == at + q;
      assert |q| == 0;
    }
    if [] in ps {
      assert at + [] == at;
    }
    forall q | q in Under(at, ps) ensures |at| <= |q| && q[..|at|] == at {
      var r :| r in ps && q == at + r;
      assert q[..|at|] == at;
    }
  }

  /** A path below `at` is among them exactly when its relative part is in `ps`. */
  lemma UnderMember(at: Path, ps: set<Path>, q: Path)
    ensures at + q in Under(at, ps) <==> q in ps
  {
    if at + q in Under(at, ps) {
      var r :| r in ps && at + q == at + r;
      assert q == (at + q)[|at|..] == (at + r)[|at|..] == r;
    }
  }

  /** Without a final replacement tree, the root of the traversal is final exactly when it carries the marker. */
  lemma RootFinal(loop: PropertyLoop, n: Node)
    ensures [] in Traverse(loop, n, [], false).finals <==> MarkedFinal(n)
  {
    var m := Stripped(loop, n);
    ChildrenFinalsBelow(loop, n, |m.children|, [], false);
  }

  /** `order` lists the keys of `keys` once each (a `HashMap`'s iteration order). */
  predicate Enumerates(order: seq<string>, keys: set<string>)
  {
    && (forall j :: 0 <= j < |order| ==> order[j] in keys)
    && (forall k :: k in keys ==> k in order)
    && (forall j, l :: 0 <= j < l < |order| ==> order[j] != order[l])
  }

  class NodeBasedRewriteRule {
    const ruleNode: Node
    /** The regular-expression `replaceAll` the rewrite directives use. */
    const replaceAll: ReplaceAll
    /** The cached ranking. */
    var ranking: Option<int>

    /** A cached ranking is the rule's ranking. */
    predicate Valid()
      reads this
    {
      ranking.Some? ==> ranking.value == RuleRanking(ruleNode)
    }

    constructor(ruleNode: Node, replaceAll: ReplaceAll)
      ensures this.ruleNode == ruleNode && this.replaceAll == replaceAll && ranking == None
      ensures Valid()
    {
      this.ruleNode := ruleNode;
      this.replaceAll := replaceAll;
      ranking := None;
    }

    /** `getRanking`: computed on first use, then served from the cache. */
    method GetRanking() returns (r: int)
      requires Valid()
      modifies this
      ensures Valid() && ranking == Some(r) && r == RuleRanking(ruleNode)
    {
      if ranking.None? {
        var value := MaxInt;
        if PropertyRanking in ruleNode.props {
          match GetLong(ruleNode.props[PropertyRanking])
          case Some(n) => value := IntValue(n);
          case None => // a warning is logged; the default stands
        }
        ranking := Some(value);
      }
      r := ranking.value;
    }

    /** `matches(root)`: the alternatives are tried in order, up to the first that matches. */
    method Matches(root: Node) returns (b: bool)
      requires RuleWF(ruleNode)
      ensures b <==> HasChild(ruleNode, NodePatterns) &&
                     exists i :: 0 <= i < |Child(ruleNode, NodePatterns).children| &&
                                 MatchesPattern(root, Child(ruleNode, NodePatterns).children[i])
    {
      if !HasChild(ruleNode, NodePatterns) {
        return false;
      }
      var patterns := Child(ruleNode, NodePatterns);
      var i := 0;
      while i < |patterns.children|
        invariant i <= |patterns.children|
        invariant forall j :: 0 <= j < i ==> !MatchesPattern(root, patterns.children[j])
      {
        if MatchesPattern(root, patterns.children[i]) {
          return true;
        }
        i := i + 1;
      }
      return false;
    }

    /**
     * `applyTo(root, finalNodes)` on the subject at `path` of `store`. The
     * subject is moved aside, the template copied under its parent, the
     * copy rewritten, and the subject removed as the last step; the parent
     * ends with its other children in order and the finished copy last.
     * `order` is the order in which the children mappings were applied.
     */
    method ApplyTo(store: Store, path: Path, finals: set<Path>) returns (outcome: Outcome, finals': set<Path>, ghost order: seq<string>)
      requires |path| > 0 && At(store.tree, path[..|path| - 1]).Some?
      requires HasChild(At(store.tree, path[..|path| - 1]).value, path[|path| - 1])
      requires HasChild(ruleNode, NodeReplacement) ==> FinalWF(Child(ruleNode, NodeReplacement))
      requires HasChild(ruleNode, NodeReplacement) ==>
                 StepsWF(Child(At(store.tree, path[..|path| - 1]).value, path[|path| - 1]), Child(ruleNode, NodeReplacement))
      modifies store
      ensures !HasChild(ruleNode, NodeReplacement) ==>
                outcome == NoReplacement && store.tree == old(store.tree) && finals' == finals
      ensures var pp := path[..|path| - 1];
              var parent := At(old(store.tree), pp).value;
              HasChild(ruleNode, NodeReplacement) && Child(ruleNode, NodeReplacement).children == [] ==>
                outcome == Erased && finals' == finals &&
                store.tree == Put(old(store.tree), pp, RemoveChild(parent, path[|path| - 1]))
      ensures var pp := path[..|path| - 1];
              var name := path[|path| - 1];
              var parent := At(old(store.tree), pp).value;
              var i := FindChild(parent.children, name).value;
              HasChild(ruleNode, NodeReplacement) && Child(ruleNode, NodeReplacement).children != [] ==>
                && outcome.Replaced? && |outcome.path| == |path| && outcome.path[..|pp|] == pp
                && ((forall j :: 0 <= j < |parent.children| && j != i ==> parent.children[j].name != name) ==> outcome.path == path)
                && (forall j :: 0 <= j < |parent.children| && j != i ==> parent.children[j].name != outcome.path[|pp|])
      ensures var pp := path[..|path| - 1];
              var parent := At(old(store.tree), pp).value;
              var subject := Child(parent, path[|path| - 1]);
              HasChild(ruleNode, NodeReplacement) ==>
                var replacement := Child(ruleNode, NodeReplacement);
                replacement.children != [] && outcome.Replaced? && |outcome.path| == |path| ==>
                var copy := replacement.children[0].(name := outcome.path[|pp|]);
                && Enumerates(order, Pending(Visited(subject, replacement, copy, replaceAll).entries).Keys)
                && store.tree == Put(old(store.tree), pp, AppendChild(RemoveChild(parent, path[|path| - 1]),
                                       RewrittenCopy(subject, replacement, copy, replaceAll, order)))
                && finals' == finals + NewFinals(subject, replacement, copy, replaceAll, order, outcome.path)
    {
      var pp := path[..|path| - 1];
      var name := path[|path| - 1];
      assert path == pp + [name];
      order := [];
      if !HasChild(ruleNode, NodeReplacement) {
        // a rule without a replacement child is a configuration error, reported by an exception
        return NoReplacement, finals, order;
      }
      var replacement := Child(ruleNode, NodeReplacement);
      if replacement.children == [] {
        store.Remove(path);
        return Erased, finals, order;
      }
      var copyName;
      copyName, finals', order := ReplaceSubject(store, pp, name, replacement, finals);
      outcome := Replaced(pp + [copyName]);
      assert outcome.path[..|pp|] == pp && outcome.path[|pp|] == copyName;
    }

    /**
     * The replacing part of `applyTo`, for the child `name` of the node at
     * `pp`: the subject is moved aside, the template copied under its
     * former name, the copy rewritten, and the subject removed as the last
     * step. `copyName` is the name the copy ends with.
     */
    method ReplaceSubject(store: Store, pp: Path, name: string, replacement: Node, finals: set<Path>)
      returns (copyName: string, finals': set<Path>, ghost order: seq<string>)
      requires At(store.tree, pp).Some? && HasChild(At(store.tree, pp).value, name)
      requires replacement.children != []
      requires StepsWF(Child(At(store.tree, pp).value, name), replacement)
      modifies store
      ensures var parent := At(old(store.tree), pp).value;
              var i := FindChild(parent.children, name).value;
              (forall j :: 0 <= j < |parent.children| && j != i ==> parent.children[j].name != name) ==> copyName == name
      ensures var parent := At(old(store.tree), pp).value;
              var i := FindChild(parent.children, name).value;
              forall j :: 0 <= j < |parent.children| && j != i ==> parent.children[j].name != copyName
      ensures var subject := Child(At(old(store.tree), pp).value, name);
              var copy := replacement.children[0].(name := copyName);
              Enumerates(order, Pending(Visited(subject, replacement, copy, replaceAll).entries).Keys)
      ensures var parent := At(old(store.tree), pp).value;
              var copy := replacement.children[0].(name := copyName);
              store.tree == Put(old(store.tree), pp, AppendChild(RemoveChild(parent, name),
                                  RewrittenCopy(Child(parent, name), replacement, copy, replaceAll, order)))
      ensures var subject := Child(At(old(store.tree), pp).value, name);
              var copy := replacement.children[0].(name := copyName);
              finals' == finals + NewFinals(subject, replacement, copy, replaceAll, order, pp + [copyName])
    {
      var treeIsFinal := PropertyIsFinal in replacement.props && GetBoolean(replacement.props[PropertyIsFinal]) == Some(true);
      ghost var t0 := store.tree;
      var parent := At(store.tree, pp).value;
      var i := FindChild(parent.children, name).value;
      // the subject keeps its properties and children when moved aside; only they are read below
      var subject := Child(parent, name);

      // move (rename) the subject, then copy the template under its former name
      var first := replacement.children[0];
      var tmp;
      tmp, copyName := MoveAside(store, pp, name, first);
      var copyPath := pp + [copyName];
      var result, added;
      result, added, order := RewriteCopy(subject, replacement, copyName, treeIsFinal, replaceAll, copyPath);
      finals' := finals + added;

      // write the finished copy, then remove the subject
      WriteBackTrees(t0, pp, parent, i, tmp, first, name, result);
      WriteBack(store, pp, tmp, copyName, result);
      UniqueRenamed(parent, i, tmp, name);
      CopyNameFree(parent, i, tmp, name);
      assert old(store.tree) == t0 && At(t0, pp).value == parent && FindChild(parent.children, name).value == i;
    }

    /**
     * The first two steps of the replacement: the child `name` of the node
     * at `pp` is renamed to `tmp`, then `first` copied under `name` (or a
     * fresh name, `copyName`).
     */
    static method MoveAside(store: Store, pp: Path, name: string, first: Node) returns (tmp: string, copyName: string)
      requires At(store.tree, pp).Some? && HasChild(At(store.tree, pp).value, name)
      modifies store
      ensures var parent := At(old(store.tree), pp).value;
              var i := FindChild(parent.children, name).value;
              && tmp !in Tree.Names(parent.children)
              && copyName == CopyName(Tree.Names(Renamed(parent, i, tmp).children), name)
              && store.tree == Put(old(store.tree), pp, AddCopy(Renamed(parent, i, tmp), first, name))
    {
      ghost var t0 := store.tree;
      ghost var parent := At(store.tree, pp).value;
      ghost var i := FindChild(parent.children, name).value;
      assert (pp + [name])[..|pp|] == pp && (pp + [name])[|pp|] == name;
      tmp := store.Rename(pp + [name]);
      ReplaceTrees(t0, pp, parent, i, tmp, first, name);
      copyName := store.Copy(first, pp, name);
    }

    /** The last two steps: the finished copy written over the plain one, then the renamed subject removed. */
    static method WriteBack(store: Store, pp: Path, tmp: string, copyName: string, result: Node)
      requires At(store.tree, pp).Some? && HasChild(At(store.tree, pp).value, copyName) && result.name == copyName
      modifies store
      ensures var parent := At(old(store.tree), pp).value;
              store.tree == Put(old(store.tree), pp,
                                RemoveChild(parent.(children := parent.children[FindChild(parent.children, copyName).value := result]), tmp))
    {
      ghost var t := store.tree;
      ghost var parent := At(store.tree, pp).value;
      ghost var written := parent.(children := parent.children[FindChild(parent.children, copyName).value := result]);
      PutChild(t, pp, copyName, result);
      store.Replace(pp + [copyName], result);
      AtPut(t, pp, written);
      assert (pp + [tmp])[..|pp|] == pp && (pp + [tmp])[|pp|] == tmp;
      store.Remove(pp + [tmp]);
      PutPut(t, pp, written, RemoveChild(written, tmp));
    }

    /** The rewriting of the copy between the copy step and the final removal. */
    static method RewriteCopy(subject: Node, replacement: Node, copyName: string, treeIsFinal: bool, replaceAll: ReplaceAll, copyPath: Path)
      returns (result: Node, added: set<Path>, ghost order: seq<string>)
      requires replacement.children != []
      requires StepsWF(subject, replacement) && treeIsFinal == TreeIsFinal(replacement)
      ensures Enumerates(order, Pending(Visited(subject, replacement, replacement.children[0].(name := copyName), replaceAll).entries).Keys)
      ensures result == RewrittenCopy(subject, replacement, replacement.children[0].(name := copyName), replaceAll, order)
      ensures added == NewFinals(subject, replacement, replacement.children[0].(name := copyName), replaceAll, order, copyPath)
    {
      var first := replacement.children[0].(name := copyName);
      var copy := first;
      if PropertyCommonAttrs in replacement.props {
        copy := AddCommonAttrMappings(subject, copy);
      }
      if PropertyRenderCondition in replacement.props {
        copy := CopyRenderCondition(subject, copy);
      }
      assert copy == Prepared(subject, replacement, first);

      var v := RewriteSubtree(subject, copy, [], treeIsFinal, replaceAll);
      var mappings := CollectMappings(v.entries);
      result, order := ApplyMappings(subject, v.node, mappings);

      if treeIsFinal {
        added := AllNodes(result, copyPath);
      } else {
        added := Under(copyPath, v.finals);
      }
    }

    /** The children-mapping loop over the `mappings` map, in its iteration order. */
    static method ApplyMappings(subject: Node, t: Node, mappings: map<string, Path>) returns (r: Node, ghost order: seq<string>)
      ensures Enumerates(order, mappings.Keys) && r == MapAll(subject, t, mappings, order)
    {
      r := t;
      order := [];
      var keys := mappings.Keys;
      while keys != {}
        invariant keys <= mappings.Keys
        invariant forall j :: 0 <= j < |order| ==> order[j] in mappings && order[j] !in keys
        invariant forall k :: k in mappings && k !in keys ==> k in order
        invariant forall j, l :: 0 <= j < l < |order| ==> order[j] != order[l]
        invariant r == MapAll(subject, t, mappings, order)
        decreases |keys|
      {
        var k :| k in keys;
        var next := r;
        var source := ResolveNode(subject, k);
        if source.Some? {
          var dest := At(r, mappings[k]);
          if dest.Some? {
            var d := CopyAll(dest.value, source.value.children);
            next := Put(r, mappings[k], d);
          }
        }
        assert next == MapOne(subject, r, k, mappings[k]);
        MapAllStep(subject, t, mappings, order, k);
        order := order + [k];
        keys := keys - {k};
        r := next;
      }
    }

    /** `JcrUtil.copy` of every child of a mapping's source onto its destination, in order. */
    static method CopyAll(dest: Node, cs: seq<Node>) returns (r: Node)
      ensures r == CopyChildren(dest, cs)
    {
      r := dest;
      for j := 0 to |cs|
        invariant r == CopyChildren(dest, cs[..j])
      {
        assert cs[..j + 1][..j] == cs[..j];
        r := AddCopy(r, cs[j], cs[j].name);
      }
      assert cs[..|cs|] == cs;
    }

    /** The final-tree loop: every node of the copy, in pre-order. */
    static method AllNodes(n: Node, at: Path) returns (added: set<Path>)
      ensures added == set p | p in PreOrder(n, at)
    {
      var all := PreOrder(n, at);
      added := {};
      for j := 0 to |all|
        invariant added == set p | p in all[..j]
      {
        assert all[..j + 1] == all[..j] + [all[j]];
        added := added + {all[j]};
      }
      assert all[..|all|] == all;
    }
  }

  /**
   * Only nodes of the copy become final: with a final replacement tree,
   * every node of the finished copy, the copy first.
   */
  lemma NewFinalsOfFinalTree(subject: Node, replacement: Node, copy: Node, replaceAll: ReplaceAll, order: seq<string>, at: Path)
    requires StepsWF(subject, replacement) && TreeIsFinal(replacement)
    ensures at in NewFinals(subject, replacement, copy, replaceAll, order, at)
    ensures forall p :: p in NewFinals(subject, replacement, copy, replaceAll, order, at) ==> |at| <= |p| && p[..|at|] == at
  {
    PreOrderBelow(RewrittenCopy(subject, replacement, copy, replaceAll, order), at);
  }

  /** Otherwise only nodes of the copy that carried a `cq:rewriteFinal` marker, the copy itself exactly when it did. */
  lemma NewFinalsOfMarked(subject: Node, replacement: Node, copy: Node, replaceAll: ReplaceAll, order: seq<string>, at: Path)
    requires StepsWF(subject, replacement) && !TreeIsFinal(replacement)
    ensures at in NewFinals(subject, replacement, copy, replaceAll, order, at) <==> MarkedFinal(Prepared(subject, replacement, copy))
    ensures forall p :: p in NewFinals(subject, replacement, copy, replaceAll, order, at) ==> |at| <= |p| && p[..|at|] == at
  {
    RootFinal(Loop(subject, replaceAll), Prepared(subject, replacement, copy));
    UnderSpec(at, Visited(subject, replacement, copy, replaceAll).finals);
  }

  /** With a final replacement tree, every node of the finished copy is final. */
  lemma NewFinalsAllNodes(subject: Node, replacement: Node, copy: Node, replaceAll: ReplaceAll, order: seq<string>, at: Path, q: Path)
    requires StepsWF(subject, replacement) && TreeIsFinal(replacement)
    requires At(RewrittenCopy(subject, replacement, copy, replaceAll, order), q).Some?
    ensures at + q in NewFinals(subject, replacement, copy, replaceAll, order, at)
  {
    PreOrderContains(RewrittenCopy(subject, replacement, copy, replaceAll, order), at, q);
  }

  /**
   * Otherwise a node of the copy becomes final exactly when, in the prepared
   * copy, it carries a `cq:rewriteFinal` marker and is not under a
   * `cq:rewriteProperties` child.
   */
  lemma NewFinalsExactlyMarked(subject: Node, replacement: Node, copy: Node, replaceAll: ReplaceAll, order: seq<string>, at: Path, q: Path)
    requires StepsWF(subject, replacement) && !TreeIsFinal(replacement) && UniqueNames(Prepared(subject, replacement, copy))
    ensures at + q in NewFinals(subject, replacement, copy, replaceAll, order, at) <==> MarkedAt(Prepared(subject, replacement, copy), q)
  {
    var n := Prepared(subject, replacement, copy);
    var fs := Traverse(Loop(subject, replaceAll), n, [], false).finals;
    UnderMember(at, fs, q);
    if q in fs {
      FinalsSound(Loop(subject, replaceAll), n, [], q);
      assert q[0..] == q;
    }
    if MarkedAt(n, q) {
      FinalsComplete(Loop(subject, replaceAll), n, [], q);
      assert [] + q == q;
    }
  }

  lemma MapAllStep(subject: Node, t: Node, mappings: map<string, Path>, order: seq<string>, k: string)
    requires k in mappings
    ensures MapAll(subject, t, mappings, order + [k]) == MapOne(subject, MapAll(subject, t, mappings, order), k, mappings[k])
  {
    assert (order + [k])[..|order|] == order;
  }

  /** The parent with its child `i` moved aside under the name `tmp`. */
  function Renamed(parent: Node, i: nat, tmp: string): Node
    requires i < |parent.children|
  {
    parent.(children := parent.children[i := parent.children[i].(name := tmp)])
  }

  /** The renaming and the copy, on the tree: the parent is still there, and the two writes combine. */
  lemma ReplaceTrees(t0: Node, pp: Path, parent: Node, i: nat, tmp: string, first: Node, name: string)
    requires At(t0, pp) == Some(parent) && i < |parent.children|
    ensures At(Put(t0, pp, Renamed(parent, i, tmp)), pp) == Some(Renamed(parent, i, tmp))
    ensures Put(Put(t0, pp, Renamed(parent, i, tmp)), pp, AddCopy(Renamed(parent, i, tmp), first, name)) ==
              Put(t0, pp, AddCopy(Renamed(parent, i, tmp), first, name))
  {
    AtPut(t0, pp, Renamed(parent, i, tmp));
    PutPut(t0, pp, Renamed(parent, i, tmp), AddCopy(Renamed(parent, i, tmp), first, name));
  }

  /**
   * Writing the finished copy over the plain one and removing the renamed
   * subject leaves the parent with its other children in order, then the copy.
   */
  lemma WriteBackTrees(t0: Node, pp: Path, parent: Node, i: nat, tmp: string, first: Node, name: string, result: Node)
    requires At(t0, pp) == Some(parent) && FindChild(parent.children, name) == Some(i) && tmp !in Tree.Names(parent.children)
    requires result.name == CopyName(Tree.Names(Renamed(parent, i, tmp).children), name)
    ensures var parent2 := AddCopy(Renamed(parent, i, tmp), first, name);
            && At(Put(t0, pp, parent2), pp) == Some(parent2)
            && HasChild(parent2, result.name)
            && Put(Put(t0, pp, parent2), pp,
                   RemoveChild(parent2.(children := parent2.children[FindChild(parent2.children, result.name).value := result]), tmp)) ==
                 Put(t0, pp, AppendChild(RemoveChild(parent, name), result))
  {
    var parent1 := Renamed(parent, i, tmp);
    var parent2 := AddCopy(parent1, first, name);
    var parent3 := parent2.(children := parent2.children[|parent1.children| := result]);
    var parent4 := parent.(children := parent.children[..i] + parent.children[i + 1..] + [result]);
    AtPut(t0, pp, parent2);
    FindAppended(parent1.children, first.(name := result.name));
    RemoveRenamed(parent.children, parent3.children, i, tmp, result);
    assert RemoveChild(parent3, tmp) == parent4;
    assert RemoveChild(parent, name).children == parent.children[..i] + parent.children[i + 1..];
    assert parent4 == AppendChild(RemoveChild(parent, name), result);
    PutPut(t0, pp, parent2, RemoveChild(parent3, tmp));
  }

  /** The name the copy gets beside the moved-aside subject is none of the other siblings' names. */
  lemma CopyNameFree(parent: Node, i: nat, tmp: string, name: string)
    requires i < |parent.children|
    ensures var copyName := CopyName(Tree.Names(Renamed(parent, i, tmp).children), name);
            forall j :: 0 <= j < |parent.children| && j != i ==> parent.children[j].name != copyName
  {
    var names := Tree.Names(Renamed(parent, i, tmp).children);
    forall j | 0 <= j < |parent.children| && j != i
      ensures parent.children[j].name != CopyName(names, name)
    {
      assert names[j] == parent.children[j].name;
    }
  }

  /** A subject whose name is unique among its siblings leaves that name free once it is moved aside. */
  lemma UniqueRenamed(parent: Node, i: nat, tmp: string, name: string)
    requires i < |parent.children| && parent.children[i].name == name && tmp != name
    ensures (forall j :: 0 <= j < |parent.children| && j != i ==> parent.children[j].name != name) ==>
              name !in Tree.Names(parent.children[i := parent.children[i].(name := tmp)])
  {
  }

  /**
   * Removing the renamed subject leaves the other children in order, then
   * the copy: `ds` is `cs` with child `i` renamed to `tmp` and `result` appended.
   */
  lemma RemoveRenamed(cs: seq<Node>, ds: seq<Node>, i: nat, tmp: string, result: Node)
    requires i < |cs| && tmp !in Tree.Names(cs)
    requires |ds| == |cs| + 1 && ds[i].name == tmp && ds[|cs|] == result
    requires forall j :: 0 <= j < |cs| && j != i ==> ds[j] == cs[j]
    ensures FindChild(ds, tmp) == Some(i) && ds[..i] + ds[i + 1..] == cs[..i] + cs[i + 1..] + [result]
  {
    forall j | 0 <= j < i ensures ds[j].name != tmp {
      assert ds[j].name == Tree.Names(cs)[j];
    }
    FindFirst(ds, tmp, i);
    DropRenamed(cs, ds, i, result);
  }

  /** Dropping index `i` of `ds` leaves `cs` without its index `i`, then `result`. */
  lemma DropRenamed(cs: seq<Node>, ds: seq<Node>, i: nat, result: Node)
    requires i < |cs| && |ds| == |cs| + 1 && ds[|cs|] == result
    requires forall j :: 0 <= j < |cs| && j != i ==> ds[j] == cs[j]
    ensures ds[..i] + ds[i + 1..] == cs[..i] + cs[i + 1..] + [result]
  {
    var lhs := ds[..i] + ds[i + 1..];
    var rhs := cs[..i] + cs[i + 1..] + [result];
    forall j | 0 <= j < |cs| ensures lhs[j] == rhs[j] {
      if j < i {
        assert lhs[j] == ds[j] && rhs[j] == cs[j];
      } else if j < |cs| - 1 {
        assert lhs[j] == ds[j + 1] && rhs[j] == cs[j + 1];
      }
    }
  }


}
