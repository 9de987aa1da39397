/**
 * `addCommonAttrMappings`: on the replacement copy, each Granite common
 * attribute `granite:<a>` is mapped from the subject's `<a>`, else its
 * `granite:<a>`; the subject's `granite:data` child is copied over, and
 * every `data-<x>` property of the subject becomes `<x>` on the copy's
 * `granite:data` child.
 */
module CommonAttrs {
  import opened Tree
  import opened Names
  import opened MappedExpr
  import opened Mapping

  /** Sets `name` to `dest` and maps it: what stands under `name` afterwards. */
  function SetMapped(subject: Node, props: map<string, Property>, name: string, dest: Property): (r: map<string, Property>)
    ensures Lookup(r, name) == After(Evaluate(subject, dest), dest)
    ensures forall k :: k != name ==> Lookup(r, k) == Lookup(props, k)
  {
    Assign(props, name, After(Evaluate(subject, dest), dest))
  }

  /** The name `granite:<a>` of a common attribute on the copy. */
  function GraniteName(a: string): string
  {
    "granite:" + a
  }

  /** A plain name stays free of line terminators, slashes and quotes with the prefix. */
  lemma GraniteNamePlain(a: string)
    requires PlainName(a)
    ensures var g := GraniteName(a);
            NoLineTerminators(g) && '/' !in g && '\'' !in g && g != "" && g != "." && g != ".."
  {
    var g := GraniteName(a);
    forall i | 0 <= i < |g| ensures !IsLineTerminator(g[i]) && g[i] != '/' && g[i] != '\'' {
      if i >= 8 { assert g[i] == a[i - 8]; }
    }
  }

  /** The two candidates set on `granite:<a>`: the plain attribute, then the quoted Granite one. */
  function AttrMapping(a: string): Property
  {
    Property(false, Many(StringType, [Str("${./" + a + "}"), Str("${'./" + GraniteName(a) + "'}")]))
  }

  /** The first loop: the attributes `attrs` set and mapped one after the other. */
  function WithAttrs(subject: Node, props: map<string, Property>, attrs: seq<string>): map<string, Property>
  {
    if attrs == [] then props
    else
      var a := attrs[|attrs| - 1];
      SetMapped(subject, WithAttrs(subject, props, attrs[..|attrs| - 1]), GraniteName(a), AttrMapping(a))
  }

  /** What `granite:<a>` should hold: the subject's `<a>`, else its `granite:<a>`, else nothing. */
  function CommonAttrValue(subject: Node, a: string): Option<Property>
  {
    if a in subject.props then Some(Property(false, subject.props[a].vals))
    else if GraniteName(a) in subject.props then Some(Property(false, subject.props[GraniteName(a)].vals))
    else None
  }

  /** Mapping one common attribute yields `CommonAttrValue`. */
  lemma AttrEvaluate(subject: Node, a: string)
    requires PlainName(a)
    ensures After(Evaluate(subject, AttrMapping(a)), AttrMapping(a)) == CommonAttrValue(subject, a)
  {
    var dest := AttrMapping(a);
    var g := GraniteName(a);
    TryOwnReference(subject, dest, a);
    GraniteNamePlain(a);
    TryQuotedOwnReference(subject, dest, g);
    EvaluatePair(subject, dest, Str("${./" + a + "}"), Str("${'./" + g + "'}"));
  }

  /** The common attributes are plain names. */
  lemma CommonAttrsPlain()
    ensures forall i :: 0 <= i < |GraniteCommonAttrs| ==> PlainName(GraniteCommonAttrs[i])
  {
  }

  /** One more attribute: the last one's name takes its value, every other name keeps the earlier result. */
  lemma WithAttrsStep(subject: Node, props: map<string, Property>, attrs: seq<string>)
    requires attrs != [] && PlainName(attrs[|attrs| - 1])
    ensures var a := attrs[|attrs| - 1];
            var r := WithAttrs(subject, props, attrs);
            && Lookup(r, GraniteName(a)) == CommonAttrValue(subject, a)
            && forall k :: k != GraniteName(a) ==> Lookup(r, k) == Lookup(WithAttrs(subject, props, attrs[..|attrs| - 1]), k)
  {
    AttrEvaluate(subject, attrs[|attrs| - 1]);
  }

  /** The attribute loop's promise about a map `r` after the attributes `attrs`, starting from `props`. */
  ghost predicate AttrsSet(subject: Node, props: map<string, Property>, attrs: seq<string>, r: map<string, Property>)
  {
    && (forall i :: 0 <= i < |attrs| ==> Lookup(r, GraniteName(attrs[i])) == CommonAttrValue(subject, attrs[i]))
    && (forall k :: (forall i :: 0 <= i < |attrs| ==> k != GraniteName(attrs[i])) ==> Lookup(r, k) == Lookup(props, k))
  }

  /** Setting one more attribute on top of the earlier ones keeps the promise. */
  lemma AttrsSetExtend(subject: Node, props: map<string, Property>, attrs: seq<string>,
                       prev: map<string, Property>, r: map<string, Property>)
    requires attrs != []
    requires AttrsSet(subject, props, attrs[..|attrs| - 1], prev)
    requires Lookup(r, GraniteName(attrs[|attrs| - 1])) == CommonAttrValue(subject, attrs[|attrs| - 1])
    requires forall k :: k != GraniteName(attrs[|attrs| - 1]) ==> Lookup(r, k) == Lookup(prev, k)
    ensures AttrsSet(subject, props, attrs, r)
  {
    var init := attrs[..|attrs| - 1];
    var a := attrs[|attrs| - 1];
    forall i | 0 <= i < |attrs|
      ensures Lookup(r, GraniteName(attrs[i])) == CommonAttrValue(subject, attrs[i])
    {
      if GraniteName(attrs[i]) == GraniteName(a) {
        assert attrs[i] == GraniteName(attrs[i])[8..] == GraniteName(a)[8..] == a;
      } else {
        assert attrs[i] == init[i];
      }
    }
    forall k | forall i :: 0 <= i < |attrs| ==> k != GraniteName(attrs[i])
      ensures Lookup(r, k) == Lookup(props, k)
    {
      assert k != GraniteName(attrs[|attrs| - 1]);
      forall i | 0 <= i < |init| ensures k != GraniteName(init[i]) {
        assert init[i] == attrs[i];
      }
    }
  }

  /** The first loop sets each attribute to its `CommonAttrValue` and leaves every other property alone. */
  lemma {:induction false} WithAttrsValues(subject: Node, props: map<string, Property>, attrs: seq<string>)
    requires forall i :: 0 <= i < |attrs| ==> PlainName(attrs[i])
    ensures AttrsSet(subject, props, attrs, WithAttrs(subject, props, attrs))
  {
    if attrs != [] {
      var init := attrs[..|attrs| - 1];
      WithAttrsValues(subject, props, init);
      WithAttrsStep(subject, props, attrs);
      AttrsSetExtend(subject, props, attrs, WithAttrs(subject, props, init), WithAttrs(subject, props, attrs));
    }
  }

  /** A `data-*` property name. */
  predicate IsDataName(k: string)
  {
    |DataPrefix| <= |k| && k[..|DataPrefix|] == DataPrefix
  }

  /** The subject properties the data loop maps: non-protected, named `data-*`. */
  function DataKeys(subject: Node): set<string>
  {
    set k | k in subject.props && !subject.props[k].protected && IsDataName(k)
  }

  /** The expression set on `granite:data/<x>` for the subject property `data-<x>`. */
  function DataMapping(k: string): Property
  {
    Property(false, One(Str("${./" + k + "}")))
  }

  /** What `granite:data/<x>` holds after the data loop. */
  function DataValue(subject: Node, base: map<string, Property>, x: string): Option<Property>
  {
    if DataPrefix + x in DataKeys(subject) then After(Evaluate(subject, DataMapping(DataPrefix + x)), DataMapping(DataPrefix + x))
    else Lookup(base, x)
  }

  /** The properties of `granite:data` after the data loop, from its properties `base` before. */
  function DataProps(subject: Node, base: map<string, Property>): (r: map<string, Property>)
    ensures forall x :: Lookup(r, x) == DataValue(subject, base, x)
  {
    var suffixes := set k | k in DataKeys(subject) :: k[|DataPrefix|..];
    var r := map x | x in base.Keys + suffixes && DataValue(subject, base, x).Some? :: DataValue(subject, base, x).value;
    assert forall x :: Lookup(r, x) == DataValue(subject, base, x) by {
      forall x ensures Lookup(r, x) == DataValue(subject, base, x) {
        if DataPrefix + x in DataKeys(subject) {
          assert (DataPrefix + x)[|DataPrefix|..] == x;
        }
      }
    }
    r
  }

  /** A fresh `granite:data` child (`addNode` with the default primary type). */
  const EmptyData := Node(NodeGraniteData, DefaultNodeType, map[], [])

  /** "add the granite:data child if necessary". */
  function EnsureData(n: Node): (r: Node)
    ensures HasChild(r, NodeGraniteData) && r.name == n.name && r.ntype == n.ntype
  {
    if HasChild(n, NodeGraniteData) then n
    else
      var r := n.(children := n.children + [EmptyData]);
      assert r.children[|n.children|].name == NodeGraniteData;
      r
  }

  /** The data loop's effect on the node: a `granite:data` child if needed, whose properties take the mapped `data-*` values. */
  function WithData(subject: Node, n: Node): (r: Node)
    ensures r.name == n.name && r.ntype == n.ntype
  {
    if DataKeys(subject) == {} then n
    else
      var n1 := EnsureData(n);
      var i := FindChild(n1.children, NodeGraniteData).value;
      n1.(children := n1.children[i := n1.children[i].(props := DataProps(subject, n1.children[i].props))])
  }

  /** The node before the data loop: attributes mapped and the subject's `granite:data` copied in. */
  function BeforeData(subject: Node, n: Node): Node
  {
    var n1 := n.(props := WithAttrs(subject, n.props, GraniteCommonAttrs));
    if HasChild(subject, NodeGraniteData) then AddCopy(n1, Child(subject, NodeGraniteData), NodeGraniteData) else n1
  }

  /** `addCommonAttrMappings(root, node)` on the node `n` of the copy, with `subject` the original tree. */
  function CommonAttrMappings(subject: Node, n: Node): (r: Node)
    ensures r.name == n.name && r.ntype == n.ntype
  {
    WithData(subject, BeforeData(subject, n))
  }

  /** The effect of the common-attribute step on the copy's own properties. */
  lemma CommonAttrProps(subject: Node, n: Node)
    ensures forall i :: 0 <= i < |GraniteCommonAttrs| ==>
              Lookup(CommonAttrMappings(subject, n).props, GraniteName(GraniteCommonAttrs[i])) == CommonAttrValue(subject, GraniteCommonAttrs[i])
    ensures forall k :: (forall i :: 0 <= i < |GraniteCommonAttrs| ==> k != GraniteName(GraniteCommonAttrs[i])) ==>
              Lookup(CommonAttrMappings(subject, n).props, k) == Lookup(n.props, k)
  {
    CommonAttrsPlain();
    WithAttrsValues(subject, n.props, GraniteCommonAttrs);
    CommonAttrMappingsProps(subject, n);
  }

  /** The data loop and the copied `granite:data` touch children only. */
  lemma CommonAttrMappingsProps(subject: Node, n: Node)
    ensures CommonAttrMappings(subject, n).props == WithAttrs(subject, n.props, GraniteCommonAttrs)
  {
    var b := BeforeData(subject, n);
    assert b.props == WithAttrs(subject, n.props, GraniteCommonAttrs);
  }

  /**
   * With some `data-*` property on the subject, the copy's first
   * `granite:data` child holds each such property without its prefix,
   * mapped from the subject; its other properties are kept from the
   * copy's first `granite:data` child before the loop: the template's own
   * when it has one, else the copied subject data, else a new empty node.
   */
  lemma CommonAttrData(subject: Node, n: Node)
    requires DataKeys(subject) != {}
    ensures var r := CommonAttrMappings(subject, n);
            HasChild(r, NodeGraniteData) &&
            forall x :: Lookup(Child(r, NodeGraniteData).props, x) ==
                          DataValue(subject, Child(EnsureData(BeforeData(subject, n)), NodeGraniteData).props, x)
  {
    var n1 := EnsureData(BeforeData(subject, n));
    var i := FindChild(n1.children, NodeGraniteData).value;
    var c := n1.children[i].(props := DataProps(subject, n1.children[i].props));
    FindChildUpdate(n1.children, i, c, NodeGraniteData);
  }

  /**
   * When the template node already has a `granite:data` child, that child
   * is the one the data loop writes into: the subject's copied data lands
   * beside it under another name.
   */
  lemma TemplateDataWins(subject: Node, n: Node)
    requires HasChild(n, NodeGraniteData)
    ensures Child(EnsureData(BeforeData(subject, n)), NodeGraniteData) == Child(n, NodeGraniteData)
  {
    var b := BeforeData(subject, n);
    var i := FindChild(n.children, NodeGraniteData).value;
    assert b.children[..|n.children|] == n.children;
    assert forall j :: 0 <= j <= i ==> b.children[j] == n.children[j];
    FindFirst(b.children, NodeGraniteData, i);
  }

  /** A plain `data-<x>` property arrives as `<x>` with the subject's value. */
  lemma DataValuePlain(subject: Node, base: map<string, Property>, x: string)
    requires DataPrefix + x in subject.props && !subject.props[DataPrefix + x].protected
    requires PlainName(DataPrefix + x)
    ensures DataValue(subject, base, x) == Some(Property(false, subject.props[DataPrefix + x].vals))
  {
    var k := DataPrefix + x;
    assert k[..|DataPrefix|] == DataPrefix;
    assert k in DataKeys(subject);
    EvaluateOwnReference(subject, false, k);
  }

  /** Without `data-*` properties nothing but the attributes and the copied `granite:data` change. */
  lemma NoDataKeys(subject: Node, n: Node)
    requires DataKeys(subject) == {} && !HasChild(subject, NodeGraniteData)
    ensures CommonAttrMappings(subject, n).children == n.children
  {
  }

  /** The attribute loop as the source runs it, one attribute at a time. */
  method MapAttrs(subject: Node, props: map<string, Property>) returns (r: map<string, Property>)
    ensures r == WithAttrs(subject, props, GraniteCommonAttrs)
  {
    r := props;
    for i := 0 to |GraniteCommonAttrs|
      invariant r == WithAttrs(subject, props, GraniteCommonAttrs[..i])
    {
      var a := GraniteCommonAttrs[i];
      var m := MapProperty(subject, AttrMapping(a));
      ghost var r0 := r;
      r := Assign(r, GraniteName(a), After(m, AttrMapping(a)));
      WithAttrsSnoc(subject, props, GraniteCommonAttrs, i, r0, m, r);
    }
    assert GraniteCommonAttrs[..|GraniteCommonAttrs|] == GraniteCommonAttrs;
  }

  /** One turn of the attribute loop extends the attributes done by the next one. */
  lemma WithAttrsSnoc(subject: Node, props: map<string, Property>, attrs: seq<string>, i: nat,
                      r0: map<string, Property>, m: Mapping, r: map<string, Property>)
    requires i < |attrs| && r0 == WithAttrs(subject, props, attrs[..i])
    requires m == Evaluate(subject, AttrMapping(attrs[i]))
    requires r == Assign(r0, GraniteName(attrs[i]), After(m, AttrMapping(attrs[i])))
    ensures r == WithAttrs(subject, props, attrs[..i + 1])
  {
    assert attrs[..i + 1][..i] == attrs[..i];
  }

  /** The data loop over the `data-*` properties of the subject, in any order. */
  method MapData(subject: Node, base: map<string, Property>) returns (r: map<string, Property>)
    ensures r == DataProps(subject, base)
  {
    var keys := set k | k in subject.props && !subject.props[k].protected && IsDataName(k);
    ghost var done: set<string> := {};
    r := base;
    while keys != {}
      invariant keys + done == DataKeys(subject) && keys !! done
      invariant forall x :: Lookup(r, x) == PartialValue(subject, base, done, x)
      decreases |keys|
    {
      var k :| k in keys;
      var x := k[|DataPrefix|..];
      assert DataPrefix + x == k;
      var m := MapProperty(subject, DataMapping(k));
      ghost var r0 := r;
      r := Assign(r, x, After(m, DataMapping(k)));
      PartialValueStep(subject, base, done, k, r0, r);
      MoveKey(keys, done, DataKeys(subject), k);
      keys := keys - {k};
      done := done + {k};
    }
    PartialValueDone(subject, base, r);
  }

  /** The data loop's result after the keys `done`. */
  function PartialValue(subject: Node, base: map<string, Property>, done: set<string>, x: string): Option<Property>
  {
    if DataPrefix + x in done then DataValue(subject, base, x) else Lookup(base, x)
  }

  /** Once every key is done, the loop's map is `DataProps`. */
  lemma PartialValueDone(subject: Node, base: map<string, Property>, r: map<string, Property>)
    requires forall y :: Lookup(r, y) == PartialValue(subject, base, DataKeys(subject), y)
    ensures r == DataProps(subject, base)
  {
    forall y ensures Lookup(r, y) == Lookup(DataProps(subject, base), y) {
      assert Lookup(r, y) == PartialValue(subject, base, DataKeys(subject), y);
    }
    LookupExtensional(r, DataProps(subject, base));
  }

  /** One step of the data loop: mapping the key `k` extends the keys done by `k`. */
  lemma PartialValueStep(subject: Node, base: map<string, Property>, done: set<string>, k: string,
                         r0: map<string, Property>, r: map<string, Property>)
    requires k in DataKeys(subject)
    requires forall y :: Lookup(r0, y) == PartialValue(subject, base, done, y)
    requires r == Assign(r0, k[|DataPrefix|..], After(Evaluate(subject, DataMapping(k)), DataMapping(k)))
    ensures forall y :: Lookup(r, y) == PartialValue(subject, base, done + {k}, y)
  {
    var x := k[|DataPrefix|..];
    assert DataPrefix + x == k;
    forall y ensures Lookup(r, y) == PartialValue(subject, base, done + {k}, y) {
      if y != x {
        assert (DataPrefix + y)[|DataPrefix|..] == y;
        assert DataPrefix + y != k;
      }
    }
  }

  /** `addCommonAttrMappings`, step by step. */
  method AddCommonAttrMappings(subject: Node, n: Node) returns (r: Node)
    ensures r == CommonAttrMappings(subject, n)
  {
    var props := MapAttrs(subject, n.props);
    r := n.(props := props);
    if HasChild(subject, NodeGraniteData) {
      r := AddCopy(r, Child(subject, NodeGraniteData), NodeGraniteData);
    }
    var keys := set k | k in subject.props && !subject.props[k].protected && IsDataName(k);
    if keys != {} {
      if !HasChild(r, NodeGraniteData) {
        r := r.(children := r.children + [EmptyData]);
        assert r.children[|r.children| - 1].name == NodeGraniteData;
      }
      var i := FindChild(r.children, NodeGraniteData).value;
      var data := MapData(subject, r.children[i].props);
      r := r.(children := r.children[i := r.children[i].(props := data)]);
    }
  }
}
