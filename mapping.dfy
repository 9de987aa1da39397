/**
 * Mapped properties (`mapProperty`) and string rewrites (`rewriteProperty`):
 * a string property of the replacement copy whose value, or one of whose
 * values, is a mapped-property expression takes its value from the
 * original tree, falls back to its default, or is dropped.
 */
module Mapping {
  import opened Tree
  import opened MappedExpr

  /**
   * `Pattern.compile(pattern).matcher(input).replaceAll(replacement)`,
   * taken as given: the regular-expression engine is not part of this model.
   */
  type ReplaceAll = (string, string, string) -> string

  /** The values `mapProperty` tries, in order. */
  function Candidates(p: Property): seq<Scalar>
  {
    match p.vals
    case One(v) => [v]
    case Many(_, vs) => vs
  }

  /**
   * Negation by `!`: a boolean is flipped; a string holding exactly
   * "true" or "false" is replaced by the opposite boolean (the code sets a
   * boolean value on it); anything else is left as it is.
   */
  function Negated(vals: Values): Values
  {
    match vals
    case One(Bool(b)) => One(Bool(!b))
    case One(Str(s)) => if s == "true" || s == "false" then One(Bool(s != "true")) else vals
    case _ => vals
  }

  /** What one candidate value does. */
  datatype Attempt = NotExpression | Unresolved | Resolved(p: Property)

  function Try(subject: Node, dest: Property, v: Scalar): Attempt
  {
    match v
    case Str(text) =>
      (match Parse(text)
       case None => NotExpression
       case Some(e) =>
         match ResolveProperty(subject, Unquote(e.ref))
         case Some(src) => Resolved(Property(dest.protected, if e.negate then Negated(src.vals) else src.vals))
         case None =>
           match e.default
           case Some(d) => Resolved(Property(dest.protected, One(Str(d))))
           case None => Unresolved)
    case _ => NotExpression
  }

  /** The attempt of every candidate, in order. */
  function Attempts(subject: Node, dest: Property): (r: seq<Attempt>)
    ensures |r| == |Candidates(dest)|
    ensures forall j :: 0 <= j < |r| ==> r[j] == Try(subject, dest, Candidates(dest)[j])
  {
    var cs := Candidates(dest);
    seq(|cs|, j requires 0 <= j < |cs| => Try(subject, dest, cs[j]))
  }

  /** The first attempt from `i` on that resolved. */
  function FirstResolved(attempts: seq<Attempt>, i: nat): (r: Option<nat>)
    requires i <= |attempts|
    ensures r.Some? ==> i <= r.value < |attempts| && attempts[r.value].Resolved?
    ensures r.Some? ==> forall j :: i <= j < r.value ==> !attempts[j].Resolved?
    ensures r.None? <==> forall j :: i <= j < |attempts| ==> !attempts[j].Resolved?
    decreases |attempts| - i
  {
    if i == |attempts| then None
    else if attempts[i].Resolved? then Some(i)
    else FirstResolved(attempts, i + 1)
  }

  /** Some attempt before `n` was an expression that did not resolve. */
  function AnyUnresolved(attempts: seq<Attempt>, n: nat): bool
    requires n <= |attempts|
  {
    n > 0 && (AnyUnresolved(attempts, n - 1) || attempts[n - 1].Unresolved?)
  }

  lemma {:induction false} AnyUnresolvedExists(attempts: seq<Attempt>, n: nat)
    requires n <= |attempts|
    ensures AnyUnresolved(attempts, n) <==> exists j :: 0 <= j < n && attempts[j].Unresolved?
  {
    if n > 0 {
      AnyUnresolvedExists(attempts, n - 1);
    }
  }

  /**
   * The effect of `mapProperty` on one property: left alone because it is
   * not a string (`null` returned), left alone because no value is an
   * expression, replaced, or removed (`null` returned).
   */
  datatype Mapping = Untouched | Literal | Mapped(p: Property) | Removed

  function Evaluate(subject: Node, dest: Property): Mapping
  {
    if dest.Type() != StringType then Untouched
    else
      var attempts := Attempts(subject, dest);
      match FirstResolved(attempts, 0)
      case Some(i) => Mapped(attempts[i].p)
      case None =>
        if AnyUnresolved(attempts, |attempts|) then Removed else Literal
  }

  /** The property that stands under the destination's name afterwards (`None`: removed). */
  function After(m: Mapping, dest: Property): Option<Property>
  {
    match m
    case Untouched => Some(dest)
    case Literal => Some(dest)
    case Mapped(p) => Some(p)
    case Removed => None
  }

  /** One turn of `mapProperty`'s loop: match the value, resolve its path, negate or fall back to the default. */
  method TryValue(subject: Node, dest: Property, v: Scalar) returns (a: Attempt)
    ensures a == Try(subject, dest, v)
  {
    if !v.Str? {
      return NotExpression;
    }
    var e := Parse(v.s);
    if e.None? {
      return NotExpression;
    }
    var path := Unquote(e.value.ref);
    var src := ResolveProperty(subject, path);
    if src.Some? {
      var vals := if e.value.negate then Negated(src.value.vals) else src.value.vals;
      return Resolved(Property(dest.protected, vals));
    } else if e.value.default.Some? {
      return Resolved(Property(dest.protected, One(Str(e.value.default.value))));
    }
    return Unresolved;
  }

  /** `mapProperty`: tries the candidates in order and stops at the first that resolves. */
  method MapProperty(subject: Node, dest: Property) returns (r: Mapping)
    ensures r == Evaluate(subject, dest)
  {
    if dest.Type() != StringType {
      return Untouched;
    }
    var values := Candidates(dest);
    ghost var attempts := Attempts(subject, dest);
    var deleteProperty := false;
    var i := 0;
    while i < |values|
      invariant i <= |values|
      invariant FirstResolved(attempts, 0) == FirstResolved(attempts, i)
      invariant deleteProperty == AnyUnresolved(attempts, i)
    {
      var a := TryValue(subject, dest, values[i]);
      assert a == attempts[i];
      if a.Resolved? {
        return Mapped(a.p);
      }
      if a.Unresolved? {
        // a mapped property: dropped unless a later candidate resolves
        deleteProperty := true;
      }
      i := i + 1;
    }
    if deleteProperty {
      return Removed;
    }
    return Literal;
  }

  /** Only string properties are ever mapped. */
  lemma EvaluateNonString(subject: Node, dest: Property)
    requires dest.Type() != StringType
    ensures Evaluate(subject, dest) == Untouched
  {
  }

  /** A string property is left as it is exactly when none of its values is an expression. */
  lemma EvaluateLiteral(subject: Node, dest: Property)
    requires dest.Type() == StringType
    ensures Evaluate(subject, dest) == Literal <==>
            forall j :: 0 <= j < |Candidates(dest)| ==> Try(subject, dest, Candidates(dest)[j]).NotExpression?
  {
    var attempts := Attempts(subject, dest);
    AnyUnresolvedExists(attempts, |attempts|);
    if Evaluate(subject, dest) == Literal {
      forall j | 0 <= j < |attempts| ensures attempts[j].NotExpression? {
        assert !attempts[j].Resolved?;
        assert !attempts[j].Unresolved?;
      }
    }
  }

  /** A property is removed exactly when some value is an expression and none resolves. */
  lemma EvaluateRemoved(subject: Node, dest: Property)
    ensures Evaluate(subject, dest) == Removed <==>
            && dest.Type() == StringType
            && (forall j :: 0 <= j < |Candidates(dest)| ==> !Try(subject, dest, Candidates(dest)[j]).Resolved?)
            && (exists j :: 0 <= j < |Candidates(dest)| && Try(subject, dest, Candidates(dest)[j]).Unresolved?)
  {
    var attempts := Attempts(subject, dest);
    AnyUnresolvedExists(attempts, |attempts|);
  }

  /** First success wins: a mapped value comes from the first candidate that resolves; later ones are ignored. */
  lemma EvaluateFirstWins(subject: Node, dest: Property, i: nat)
    requires dest.Type() == StringType && i < |Candidates(dest)|
    requires Attempts(subject, dest)[i].Resolved?
    requires forall j :: 0 <= j < i ==> !Attempts(subject, dest)[j].Resolved?
    ensures Evaluate(subject, dest) == Mapped(Try(subject, dest, Candidates(dest)[i]).p)
  {
    var attempts := Attempts(subject, dest);
    var k := FirstResolved(attempts, 0);
    assert k.Some?;
    assert k.value == i;
  }

  /** The loop over two attempts. */
  lemma AttemptsPair(attempts: seq<Attempt>)
    requires |attempts| == 2
    ensures FirstResolved(attempts, 0) ==
              if attempts[0].Resolved? then Some(0) else if attempts[1].Resolved? then Some(1) else None
    ensures AnyUnresolved(attempts, 2) == (attempts[0].Unresolved? || attempts[1].Unresolved?)
  {
    assert FirstResolved(attempts, 2) == None;
    assert AnyUnresolved(attempts, 0) == false;
  }

  /** A two-valued string property: the first value that resolves wins, else it is removed if either was an expression. */
  lemma EvaluatePair(subject: Node, dest: Property, u: Scalar, v: Scalar)
    requires dest.vals == Many(StringType, [u, v])
    ensures var a := Try(subject, dest, u);
            var b := Try(subject, dest, v);
            Evaluate(subject, dest) ==
              if a.Resolved? then Mapped(a.p)
              else if b.Resolved? then Mapped(b.p)
              else if a.Unresolved? || b.Unresolved? then Removed
              else Literal
  {
    var attempts := Attempts(subject, dest);
    assert Candidates(dest) == [u, v];
    AttemptsPair(attempts);
  }

  /**
   * A reference that resolves copies the source property: its type and
   * multiplicity come from the source, and `!` negates a boolean reading.
   */
  lemma TrySource(subject: Node, dest: Property, text: string)
    requires Parse(text).Some?
    requires ResolveProperty(subject, Unquote(Parse(text).value.ref)).Some?
    ensures var e := Parse(text).value;
            var src := ResolveProperty(subject, Unquote(e.ref)).value;
            var a := Try(subject, dest, Str(text));
            && a.Resolved? && a.p.protected == dest.protected
            && (!e.negate ==> a.p.vals == src.vals && a.p.Type() == src.Type())
            && (e.negate && src.vals.One? && src.vals.v.Bool? ==> a.p.vals == One(Bool(!src.vals.v.b)))
            && (e.negate && src.vals.One? && src.vals.v.Str? && src.vals.v.s in {"true", "false"} ==>
                  a.p.vals == One(Bool(src.vals.v.s == "false")))
  {
  }

  /** A reference that does not resolve falls back to its default as a single string. */
  lemma TryDefault(subject: Node, dest: Property, text: string)
    requires Parse(text).Some? && Parse(text).value.default.Some?
    requires ResolveProperty(subject, Unquote(Parse(text).value.ref)).None?
    ensures Try(subject, dest, Str(text)) == Resolved(Property(dest.protected, One(Str(Parse(text).value.default.value))))
  {
  }

  /** A plain name: no character that the expression syntax or the path syntax would read specially. */
  predicate PlainName(name: string)
  {
    && NoLineTerminators(name) && ':' !in name && '/' !in name && '\'' !in name
    && name != "" && name != "." && name != ".."
  }

  /** The candidate `${./<name>}` resolves to the subject's own property `name`, or not at all. */
  lemma TryOwnReference(subject: Node, dest: Property, name: string)
    requires PlainName(name)
    ensures Try(subject, dest, Str("${./" + name + "}")) ==
              if name in subject.props then Resolved(Property(dest.protected, subject.props[name].vals)) else Unresolved
  {
    var p := "./" + name;
    assert NoLineTerminators(p) by {
      forall i | 0 <= i < |p| ensures !IsLineTerminator(p[i]) {
        if i >= 2 { assert p[i] == name[i - 2]; }
      }
    }
    assert ':' !in p by {
      forall i | 0 <= i < |p| ensures p[i] != ':' {
        if i >= 2 { assert p[i] == name[i - 2]; }
      }
    }
    assert "${" + p + "}" == "${./" + name + "}";
    ParsePlain(p);
    UnquotePlain(p);
    ResolveOwnProperty(subject, name);
  }

  /**
   * The quoted candidate `${'./<name>'}` resolves to the subject's own
   * property `name`; quoting lets the name hold a ':'.
   */
  lemma TryQuotedOwnReference(subject: Node, dest: Property, name: string)
    requires NoLineTerminators(name) && '/' !in name && '\'' !in name
    requires name != "" && name != "." && name != ".."
    ensures Try(subject, dest, Str("${'./" + name + "'}")) ==
              if name in subject.props then Resolved(Property(dest.protected, subject.props[name].vals)) else Unresolved
  {
    var p := "./" + name;
    assert NoLineTerminators(p) by {
      forall i | 0 <= i < |p| ensures !IsLineTerminator(p[i]) {
        if i >= 2 { assert p[i] == name[i - 2]; }
      }
    }
    assert '\'' !in p by {
      forall i | 0 <= i < |p| ensures p[i] != '\'' {
        if i >= 2 { assert p[i] == name[i - 2]; }
      }
    }
    assert "${'" + p + "'}" == "${'./" + name + "'}";
    ParseQuoted(p);
    assert p[|p| - 1] == name[|name| - 1];
    UnquoteQuoted(p);
    ResolveOwnProperty(subject, name);
  }

  /** `${./<name>}` for a plain name of the subject: copied when present, removed when absent. */
  lemma EvaluateOwnReference(subject: Node, protected: bool, name: string)
    requires PlainName(name)
    ensures var dest := Property(protected, One(Str("${./" + name + "}")));
            Evaluate(subject, dest) ==
              if name in subject.props then Mapped(Property(protected, subject.props[name].vals)) else Removed
  {
    var dest := Property(protected, One(Str("${./" + name + "}")));
    TryOwnReference(subject, dest, name);
    if name in subject.props {
      EvaluateFirstWins(subject, dest, 0);
    }
  }

  /** `x = ${./title}` on a subject with `title = "Hi"` gives `x = "Hi"`. */
  lemma ResolveTitle(subject: Node)
    requires "title" in subject.props && subject.props["title"] == StringProperty("Hi")
    ensures Evaluate(subject, StringProperty("${./title}")) == Mapped(StringProperty("Hi"))
  {
    assert "${./" + "title" + "}" == "${./title}";
    EvaluateOwnReference(subject, false, "title");
  }

  /** `x = ${./title}` on a subject without `title` removes `x`. */
  lemma ResolveMissing(subject: Node)
    requires "title" !in subject.props
    ensures Evaluate(subject, StringProperty("${./title}")) == Removed
  {
    assert "${./" + "title" + "}" == "${./title}";
    EvaluateOwnReference(subject, false, "title");
  }

  /** A multi-valued mapping takes the first reference that exists, as that property's value. */
  lemma MultiValuedFallback(subject: Node, a: string, b: string)
    requires PlainName(a) && PlainName(b)
    requires a !in subject.props && b in subject.props
    ensures var dest := Property(false, Many(StringType, [Str("${./" + a + "}"), Str("${./" + b + "}")]));
            Evaluate(subject, dest) == Mapped(Property(false, subject.props[b].vals))
  {
    var dest := Property(false, Many(StringType, [Str("${./" + a + "}"), Str("${./" + b + "}")]));
    TryOwnReference(subject, dest, a);
    TryOwnReference(subject, dest, b);
    EvaluatePair(subject, dest, Str("${./" + a + "}"), Str("${./" + b + "}"));
  }

  /** The guard of `rewriteProperty`: a single string value and a directive of exactly two strings. */
  predicate IsRewritable(p: Property, directive: Property)
  {
    && p.Type() == StringType && p.vals.One?
    && directive.vals.Many? && |directive.vals.vs| == 2
    && directive.vals.vs[0].Str? && directive.vals.vs[1].Str?
  }

  /** `rewriteProperty`: replaces every match of the directive's pattern by its replacement. */
  function RewriteProperty(p: Property, directive: Property, replaceAll: ReplaceAll): (r: Property)
    ensures r.protected == p.protected && r.Type() == p.Type() && r.IsMultiple() == p.IsMultiple()
    ensures !IsRewritable(p, directive) ==> r == p
    ensures IsRewritable(p, directive) ==>
              r.vals == One(Str(replaceAll(directive.vals.vs[0].s, directive.vals.vs[1].s, p.vals.v.s)))
  {
    if IsRewritable(p, directive) then
      p.(vals := One(Str(replaceAll(directive.vals.vs[0].s, directive.vals.vs[1].s, p.vals.v.s))))
    else p
  }
}
