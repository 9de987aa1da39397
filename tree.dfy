/**
 * The typed node tree that rules are matched against and rewritten in:
 * nodes with a name, a primary type, ordered children and named properties,
 * plus the store that holds the whole document tree and the path-based
 * operations the rewrite engine performs on it (rename, copy, remove).
 */
module Tree {

  datatype Option<T> = None | Some(value: T)

  /** A single JCR value, reduced to the distinctions the engine makes. */
  datatype Scalar = Str(s: string) | Bool(b: bool) | Long(n: int) | Other(code: int)

  datatype PropType = StringType | BooleanType | LongType | OtherType

  function TypeOf(v: Scalar): PropType
  {
    match v
    case Str(_) => StringType
    case Bool(_) => BooleanType
    case Long(_) => LongType
    case Other(_) => OtherType
  }

  /** A single value, or a multi-valued property with its declared type. */
  datatype Values = One(v: Scalar) | Many(t: PropType, vs: seq<Scalar>)

  datatype Property = Property(protected: bool, vals: Values)
  {
    function Type(): PropType
    {
      match vals
      case One(v) => TypeOf(v)
      case Many(t, _) => t
    }

    predicate IsMultiple() { vals.Many? }
  }

  /** A new, non-protected, single-valued string property. */
  function StringProperty(s: string): Property
  {
    Property(false, One(Str(s)))
  }

  datatype Node = Node(name: string, ntype: string, props: map<string, Property>, children: seq<Node>)

  /** A path from the store root: the names of the nodes on the way down. */
  type Path = seq<string>

  /** Index of the first child called `name` (the lookup `getNode(name)` performs). */
  function FindChild(cs: seq<Node>, name: string): (r: Option<nat>)
    ensures r.Some? ==> r.value < |cs| && cs[r.value].name == name
    ensures r.Some? ==> forall j :: 0 <= j < r.value ==> cs[j].name != name
    ensures r.None? <==> forall j :: 0 <= j < |cs| ==> cs[j].name != name
  {
    if cs == [] then None
    else if cs[0].name == name then Some(0)
    else match FindChild(cs[1..], name)
      case None => None
      case Some(i) => Some(i + 1)
  }

  predicate HasChild(n: Node, name: string)
  {
    FindChild(n.children, name).Some?
  }

  function Child(n: Node, name: string): (c: Node)
    requires HasChild(n, name)
    ensures c in n.children && c.name == name
  {
    n.children[FindChild(n.children, name).value]
  }

  /** The names of a sequence of siblings. */
  function Names(cs: seq<Node>): (r: seq<string>)
    ensures |r| == |cs| && forall i :: 0 <= i < |cs| ==> r[i] == cs[i].name
  {
    if cs == [] then [] else [cs[0].name] + Names(cs[1..])
  }

  function MaxLength(names: seq<string>): (m: nat)
    ensures forall i :: 0 <= i < |names| ==> |names[i]| <= m
  {
    if names == [] then 0
    else var rest := MaxLength(names[1..]);
      if |names[0]| > rest then |names[0]| else rest
  }

  /**
   * A name that no sibling carries, derived from `base`. The repository's
   * own naming policy for renamed and colliding copies is not part of this
   * model; all that is relied on is that the result is unused.
   */
  function FreshName(names: seq<string>, base: string): (r: string)
    ensures r !in names
  {
    var pad := seq(MaxLength(names) + 1, _ => '_');
    assert forall i :: 0 <= i < |names| ==> |names[i]| < |base + pad|;
    base + pad
  }

  /** The name a copy gets: the requested one when free, a fresh one on collision. */
  function CopyName(names: seq<string>, name: string): (r: string)
    ensures r !in names
    ensures name !in names ==> r == name
  {
    if name in names then FreshName(names, name) else name
  }

  /** Appends a deep copy of `c` as the last child of `n`, under `name` or a fresh name. */
  function AddCopy(n: Node, c: Node, name: string): (r: Node)
    ensures r.name == n.name && r.ntype == n.ntype && r.props == n.props
    ensures |r.children| == |n.children| + 1 && r.children[..|n.children|] == n.children
    ensures r.children[|n.children|] == c.(name := CopyName(Names(n.children), name))
  {
    n.(children := n.children + [c.(name := CopyName(Names(n.children), name))])
  }

  /** `n` with `c` added as its last child. */
  function AppendChild(n: Node, c: Node): (r: Node)
    ensures r.name == n.name && r.ntype == n.ntype && r.props == n.props && r.children == n.children + [c]
  {
    n.(children := n.children + [c])
  }

  /** Replacing a child by one of the same name leaves every lookup where it was. */
  lemma FindChildUpdate(cs: seq<Node>, i: nat, c: Node, name: string)
    requires i < |cs| && c.name == cs[i].name
    ensures FindChild(cs[i := c], name) == FindChild(cs, name)
  {
    var ds := cs[i := c];
    assert forall j :: 0 <= j < |cs| ==> ds[j].name == cs[j].name;
    match FindChild(cs, name)
    case None =>
    case Some(k) =>
  }

  /** The siblings without the first one called `name`. */
  function Without(cs: seq<Node>, name: string): (r: seq<Node>)
    ensures forall c :: c in r ==> c in cs
  {
    if cs == [] then []
    else if cs[0].name == name then cs[1..]
    else [cs[0]] + Without(cs[1..], name)
  }

  /** `Without` cuts out exactly the child `FindChild` finds. */
  lemma {:induction false} WithoutFound(cs: seq<Node>, name: string)
    ensures match FindChild(cs, name)
            case None => Without(cs, name) == cs
            case Some(i) => Without(cs, name) == cs[..i] + cs[i + 1..]
  {
    if cs != [] && cs[0].name != name {
      WithoutFound(cs[1..], name);
      match FindChild(cs[1..], name)
      case None =>
      case Some(i) =>
        assert [cs[0]] + (cs[1..][..i] + cs[1..][i + 1..]) == cs[..i + 1] + cs[i + 2..];
    }
  }

  /** Removes the first child called `name`, if there is one. */
  function RemoveChild(n: Node, name: string): (r: Node)
    ensures r.name == n.name && r.ntype == n.ntype && r.props == n.props
    ensures forall c :: c in r.children ==> c in n.children
    ensures match FindChild(n.children, name)
            case None => r == n
            case Some(i) => r.children == n.children[..i] + n.children[i + 1..]
  {
    WithoutFound(n.children, name);
    n.(children := Without(n.children, name))
  }

  /** Moving one key from the keys left to the keys done keeps the partition. */
  lemma MoveKey<K>(keys: set<K>, done: set<K>, all: set<K>, k: K)
    requires keys + done == all && keys !! done && k in keys
    ensures (keys - {k}) + (done + {k}) == all && (keys - {k}) !! (done + {k})
  {
  }

  /** `n.hasProperty(k) ? n.getProperty(k) : null` on a property map. */
  function Lookup(m: map<string, Property>, k: string): Option<Property>
  {
    if k in m then Some(m[k]) else None
  }

  /** Two property maps with the same lookups are the same map. */
  lemma LookupExtensional(m1: map<string, Property>, m2: map<string, Property>)
    requires forall k :: Lookup(m1, k) == Lookup(m2, k)
    ensures m1 == m2
  {
    assert m1.Keys == m2.Keys by {
      forall k ensures k in m1.Keys <==> k in m2.Keys {
        assert Lookup(m1, k).Some? == Lookup(m2, k).Some?;
      }
    }
    forall k | k in m1 ensures m1[k] == m2[k] {
      assert Lookup(m1, k) == Lookup(m2, k);
    }
  }

  /** Sets or removes one property. */
  function Assign(m: map<string, Property>, x: string, v: Option<Property>): (r: map<string, Property>)
    ensures Lookup(r, x) == v
    ensures forall y :: y != x ==> Lookup(r, y) == Lookup(m, y)
  {
    match v
    case Some(p) => m[x := p]
    case None => m - {x}
  }

  /** The node at `p`, if every name on the way down exists. */
  function At(t: Node, p: Path): Option<Node>
    decreases |p|
  {
    if p == [] then Some(t)
    else match FindChild(t.children, p[0])
      case None => None
      case Some(i) => At(t.children[i], p[1..])
  }

  /** `t` with the node at `p` replaced by `n`; `t` itself when `p` does not exist. */
  function Put(t: Node, p: Path, n: Node): Node
    decreases |p|
  {
    if p == [] then n
    else match FindChild(t.children, p[0])
      case None => t
      case Some(i) => t.(children := t.children[i := Put(t.children[i], p[1..], n)])
  }

  lemma {:induction false} PutName(t: Node, p: Path, n: Node)
    requires p != [] || n.name == t.name
    ensures Put(t, p, n).name == t.name
  {
  }

  /** Writing a node that keeps the old node's name, then reading it back, yields that node. */
  lemma {:induction false} AtPut(t: Node, p: Path, n: Node)
    requires At(t, p).Some? && n.name == At(t, p).value.name
    ensures At(Put(t, p, n), p) == Some(n)
    decreases |p|
  {
    if p != [] {
      var i := FindChild(t.children, p[0]).value;
      var c := t.children[i];
      var c' := Put(c, p[1..], n);
      AtPut(c, p[1..], n);
      if p[1..] == [] {
        assert c' == n;
      } else {
        PutName(c, p[1..], n);
      }
      var cs := t.children[i := c'];
      assert FindChild(cs, p[0]) == Some(i) by {
        assert cs[i].name == p[0];
        assert forall j :: 0 <= j < i ==> cs[j].name != p[0];
        FindFirst(cs, p[0], i);
      }
    }
  }

  /** The second of two writes to the same place wins, when the first keeps the name. */
  lemma {:induction false} PutPut(t: Node, p: Path, a: Node, b: Node)
    requires At(t, p).Some? && a.name == At(t, p).value.name
    ensures Put(Put(t, p, a), p, b) == Put(t, p, b)
    decreases |p|
  {
    if p != [] {
      var i := FindChild(t.children, p[0]).value;
      var c := t.children[i];
      PutPut(c, p[1..], a, b);
      var c' := Put(c, p[1..], a);
      if p[1..] != [] {
        PutName(c, p[1..], a);
      }
      var cs := t.children[i := c'];
      assert FindChild(cs, p[0]) == Some(i) by {
        FindChildUpdate(t.children, i, c', p[0]);
      }
      assert cs[i := Put(c', p[1..], b)] == t.children[i := Put(c, p[1..], b)];
    }
  }

  /** Writing at a child's path is writing its parent with that child replaced. */
  lemma {:induction false} PutChild(t: Node, pp: Path, name: string, n: Node)
    requires At(t, pp).Some? && HasChild(At(t, pp).value, name)
    ensures var parent := At(t, pp).value;
            Put(t, pp + [name], n) ==
              Put(t, pp, parent.(children := parent.children[FindChild(parent.children, name).value := n]))
    decreases |pp|
  {
    var p := pp + [name];
    if pp == [] {
      assert p[1..] == [];
    } else {
      assert p[0] == pp[0] && p[1..] == pp[1..] + [name];
      var i := FindChild(t.children, pp[0]).value;
      PutChild(t.children[i], pp[1..], name, n);
    }
  }

  /** Reading a child's path is reading its parent, then the child. */
  lemma {:induction false} AtChild(t: Node, pp: Path, name: string)
    requires At(t, pp).Some?
    ensures At(t, pp + [name]) == if HasChild(At(t, pp).value, name) then Some(Child(At(t, pp).value, name)) else None
    decreases |pp|
  {
    var p := pp + [name];
    if pp == [] {
      assert p[1..] == [];
    } else {
      assert p[0] == pp[0] && p[1..] == pp[1..] + [name];
      var i := FindChild(t.children, pp[0]).value;
      AtChild(t.children[i], pp[1..], name);
    }
  }

  /** A child appended under a name no sibling has is the one that name finds. */
  lemma FindAppended(cs: seq<Node>, c: Node)
    requires c.name !in Names(cs)
    ensures FindChild(cs + [c], c.name) == Some(|cs|)
  {
    var ds := cs + [c];
    assert forall j :: 0 <= j < |cs| ==> ds[j].name == Names(cs)[j];
    FindFirst(ds, c.name, |cs|);
  }

  /** `FindChild` returns the first index whose name matches. */
  lemma {:induction false} FindFirst(cs: seq<Node>, name: string, i: nat)
    requires i < |cs| && cs[i].name == name
    requires forall j :: 0 <= j < i ==> cs[j].name != name
    ensures FindChild(cs, name) == Some(i)
  {
    var r := FindChild(cs, name);
  }

  /** JCR relative paths: the segments between the '/' separators. */
  function Split(s: string): (r: seq<string>)
    ensures |r| >= 1
  {
    if s == [] then [""]
    else
      var rest := Split(s[1..]);
      if s[0] == '/' then [""] + rest
      else [[s[0]] + rest[0]] + rest[1..]
  }

  /** Node segments of a relative path: "." steps are dropped; empty or ".." segments make the path unresolvable here. */
  function NodeSegments(segs: seq<string>): Option<seq<string>>
  {
    if segs == [] then Some([])
    else if segs[0] == "" || segs[0] == ".." then None
    else match NodeSegments(segs[1..])
      case None => None
      case Some(rest) => Some(if segs[0] == "." then rest else [segs[0]] + rest)
  }

  /** `n.hasNode(path)` / `n.getNode(path)` for a relative path. */
  function ResolveNode(n: Node, path: string): Option<Node>
  {
    match NodeSegments(Split(path))
    case None => None
    case Some(p) => At(n, p)
  }

  /** `n.hasProperty(path)` / `n.getProperty(path)` for a relative path: the last segment names the property. */
  function ResolveProperty(n: Node, path: string): Option<Property>
  {
    var segs := Split(path);
    var name := segs[|segs| - 1];
    if name == "" || name == "." || name == ".." then None
    else match NodeSegments(segs[..|segs| - 1])
      case None => None
      case Some(p) =>
        match At(n, p)
        case None => None
        case Some(m) => if name in m.props then Some(m.props[name]) else None
  }

  /** A string with no '/' is a single path segment. */
  lemma {:induction false} SplitPlain(s: string)
    requires '/' !in s
    ensures Split(s) == [s]
  {
    if s != [] {
      SplitPlain(s[1..]);
      assert [s[0]] + s[1..] == s;
    }
  }

  /** "./name" resolves to the property `name` of the node itself. */
  lemma ResolveOwnProperty(n: Node, name: string)
    requires '/' !in name && name != "" && name != "." && name != ".."
    ensures ResolveProperty(n, "./" + name) == if name in n.props then Some(n.props[name]) else None
  {
    SplitPlain(name);
    var s := "./" + name;
    assert s[1..] == "/" + name;
    assert ("/" + name)[1..] == name;
    assert Split("/" + name) == ["", name];
    assert s[0] == '.' && [s[0]] + "" == ".";
    assert Split(s) == [".", name];
    assert NodeSegments(["."]) == Some([]);
  }

  /** Every node of `n` in pre-order (the order of a tree traverser), as paths starting at `at`. */
  function PreOrder(n: Node, at: Path): (r: seq<Path>)
    ensures |r| >= 1 && r[0] == at
    decreases n
  {
    [at] + PreOrderAll(n.children, at)
  }

  function PreOrderAll(cs: seq<Node>, at: Path): seq<Path>
    decreases cs
  {
    if cs == [] then []
    else PreOrder(cs[0], at + [cs[0].name]) + PreOrderAll(cs[1..], at)
  }

  /** Every path of the pre-order lies at or below `at`. */
  lemma {:induction false} PreOrderBelow(n: Node, at: Path)
    ensures forall p :: p in PreOrder(n, at) ==> |at| <= |p| && p[..|at|] == at
    decreases n
  {
    PreOrderAllBelow(n.children, at);
  }

  lemma {:induction false} PreOrderAllBelow(cs: seq<Node>, at: Path)
    ensures forall p :: p in PreOrderAll(cs, at) ==> |at| < |p| && p[..|at|] == at
    decreases cs
  {
    if cs != [] {
      var at' := at + [cs[0].name];
      PreOrderBelow(cs[0], at');
      PreOrderAllBelow(cs[1..], at);
      forall p | p in PreOrder(cs[0], at') ensures |at| < |p| && p[..|at|] == at {
        assert p[..|at'|][..|at|] == at'[..|at|];
      }
    }
  }

  /** Every node found by a path appears in the pre-order, at that path below `at`. */
  lemma {:induction false} PreOrderContains(t: Node, at: Path, q: Path)
    requires At(t, q).Some?
    ensures at + q in PreOrder(t, at)
    decreases |q|
  {
    if q == [] {
      assert at + q == at;
    } else {
      var i := FindChild(t.children, q[0]).value;
      var c := t.children[i];
      PreOrderContains(c, at + [q[0]], q[1..]);
      assert at + [q[0]] + q[1..] == at + q;
      PreOrderAllContains(t.children, at, i, at + q);
    }
  }

  /** The pre-order of a child's subtree is part of the pre-order of the siblings. */
  lemma {:induction false} PreOrderAllContains(cs: seq<Node>, at: Path, i: nat, p: Path)
    requires i < |cs| && p in PreOrder(cs[i], at + [cs[i].name])
    ensures p in PreOrderAll(cs, at)
    decreases cs
  {
    if i > 0 {
      assert cs[1..][i - 1] == cs[i];
      PreOrderAllContains(cs[1..], at, i - 1, p);
    }
  }

  /** No two siblings anywhere in the subtree share a name. */
  predicate UniqueNames(n: Node)
    decreases n
  {
    && (forall i, j :: 0 <= i < j < |n.children| ==> n.children[i].name != n.children[j].name)
    && forall i :: 0 <= i < |n.children| ==> UniqueNames(n.children[i])
  }

  /** Among siblings with distinct names, a child's own name finds that child. */
  lemma FindUnique(cs: seq<Node>, i: nat)
    requires i < |cs| && forall j, l :: 0 <= j < l < |cs| ==> cs[j].name != cs[l].name
    ensures FindChild(cs, cs[i].name) == Some(i)
  {
    FindFirst(cs, cs[i].name, i);
  }

  /**
   * Among siblings with distinct names, every sibling left by `Without` is
   * an original one, `k`, found by its own name, and none is called `name`.
   */
  lemma {:induction false} WithoutUnique(cs: seq<Node>, name: string, j: nat) returns (k: nat)
    requires forall a, b :: 0 <= a < b < |cs| ==> cs[a].name != cs[b].name
    requires j < |Without(cs, name)|
    ensures k < |cs| && cs[k] == Without(cs, name)[j]
    ensures FindChild(cs, cs[k].name) == Some(k) && cs[k].name != name
  {
    if cs[0].name == name {
      k := j + 1;
      assert cs[k].name != cs[0].name;
    } else if j == 0 {
      k := 0;
    } else {
      var tail := cs[1..];
      assert forall a, b :: 0 <= a < b < |tail| ==> tail[a].name != tail[b].name by {
        forall a, b | 0 <= a < b < |tail| ensures tail[a].name != tail[b].name {
          assert tail[a] == cs[a + 1] && tail[b] == cs[b + 1];
        }
      }
      var k' := WithoutUnique(tail, name, j - 1);
      k := k' + 1;
    }
    FindUnique(cs, k);
  }

  /** A sibling of another name is still there after `Without`, at index `j`. */
  lemma {:induction false} WithoutKeeps(cs: seq<Node>, name: string, k: nat) returns (j: nat)
    requires k < |cs| && cs[k].name != name
    ensures j < |Without(cs, name)| && Without(cs, name)[j] == cs[k]
  {
    if cs[0].name == name {
      j := k - 1;
    } else if k == 0 {
      j := 0;
    } else {
      var j' := WithoutKeeps(cs[1..], name, k - 1);
      j := j' + 1;
    }
  }

  /**
   * The document tree the engine rewrites in place. Every operation
   * replaces the node at one path and leaves the rest of the tree alone.
   */
  class Store {
    var tree: Node

    constructor(tree: Node)
      ensures this.tree == tree
    {
      this.tree := tree;
    }

    /** Moves the node at `path` aside: it keeps its position but takes a fresh name among its siblings. */
    method Rename(path: Path) returns (tmp: string)
      requires |path| > 0 && At(tree, path[..|path| - 1]).Some?
      requires HasChild(At(tree, path[..|path| - 1]).value, path[|path| - 1])
      modifies this
      ensures var parent := At(old(tree), path[..|path| - 1]).value;
              var i := FindChild(parent.children, path[|path| - 1]).value;
              && tmp !in Names(parent.children)
              && tree == Put(old(tree), path[..|path| - 1],
                             parent.(children := parent.children[i := parent.children[i].(name := tmp)]))
    {
      var pp := path[..|path| - 1];
      var parent := At(tree, pp).value;
      var i := FindChild(parent.children, path[|path| - 1]).value;
      tmp := FreshName(Names(parent.children), path[|path| - 1]);
      tree := Put(tree, pp, parent.(children := parent.children[i := parent.children[i].(name := tmp)]));
    }

    /** `JcrUtil.copy`: a deep copy of `c` appended under the node at `path`. */
    method Copy(c: Node, path: Path, name: string) returns (copyName: string)
      requires At(tree, path).Some?
      modifies this
      ensures copyName == CopyName(Names(At(old(tree), path).value.children), name)
      ensures tree == Put(old(tree), path, AddCopy(At(old(tree), path).value, c, name))
    {
      copyName := CopyName(Names(At(tree, path).value.children), name);
      tree := Put(tree, path, AddCopy(At(tree, path).value, c, name));
    }

    /** Replaces the subtree at `path` by `n` (which keeps its name). */
    method Replace(path: Path, n: Node)
      modifies this
      ensures tree == Put(old(tree), path, n)
    {
      tree := Put(tree, path, n);
    }

    /** `Node.remove()` on the node at `path` (a no-op when it does not exist). */
    method Remove(path: Path)
      requires |path| > 0
      modifies this
      ensures var pp := path[..|path| - 1];
              tree == match At(old(tree), pp)
                      case None => old(tree)
                      case Some(parent) => Put(old(tree), pp, RemoveChild(parent, path[|path| - 1]))
    {
      var pp := path[..|path| - 1];
      match At(tree, pp)
      case None =>
      case Some(parent) => tree := Put(tree, pp, RemoveChild(parent, path[|path| - 1]));
    }
  }

  /** A node's parent exists and holds it under its last path name. */
  lemma {:induction false} AtParent(t: Node, p: Path)
    requires |p| > 0 && At(t, p).Some?
    ensures At(t, p[..|p| - 1]).Some?
    ensures FindChild(At(t, p[..|p| - 1]).value.children, p[|p| - 1]).Some?
    ensures var parent := At(t, p[..|p| - 1]).value;
            At(t, p) == Some(parent.children[FindChild(parent.children, p[|p| - 1]).value])
    decreases |p|
  {
    if |p| > 1 {
      var i := FindChild(t.children, p[0]).value;
      AtParent(t.children[i], p[1..]);
      assert p[1..][..|p[1..]| - 1] == p[..|p| - 1][1..];
      assert p[1..][|p[1..]| - 1] == p[|p| - 1];
    }
  }
}
