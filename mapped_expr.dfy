/**
 * Mapped-property expressions: string values of the form
 * `[!]${<path>[:<default>]}`, recognised exactly as the anchored regular
 * expression `^(\!{0,1})\$\{('.*?'|.*?)(:(.+))?\}$` of java.util.regex
 * recognises them (lazy groups, the quoted alternative tried first, `.`
 * not matching line terminators), written out as a hand-made parser.
 */
module MappedExpr {
  import opened Tree

  /** The characters `.` does not match in java.util.regex without DOTALL. */
  predicate IsLineTerminator(c: char)
  {
    c == '\n' || c == '\r' || c == '\U{0085}' || c == '\U{2028}' || c == '\U{2029}'
  }

  predicate NoLineTerminators(s: string)
  {
    forall i :: 0 <= i < |s| ==> !IsLineTerminator(s[i])
  }

  /**
   * The result of a successful match: group 1 (`!` or nothing), group 2
   * (the reference, still quoted) and group 4 (the default, when group 3
   * took part in the match).
   */
  datatype Expr = Expr(negate: bool, ref: string, default: Option<string>)

  /** The text an expression is written as. */
  function Render(e: Expr): string
  {
    (if e.negate then "!" else "") + "${" + e.ref + Tail(e.default) + "}"
  }

  function Tail(d: Option<string>): string
  {
    match d
    case None => ""
    case Some(x) => ":" + x
  }

  /** The value as `[!]${` body `}`: the negation flag and the body. */
  function Envelope(s: string): Option<(bool, string)>
  {
    if |s| >= 1 && s[0] == '!' then Braced(true, s[1..]) else Braced(false, s)
  }

  function Braced(negate: bool, t: string): Option<(bool, string)>
  {
    if |t| >= 3 && t[0] == '$' && t[1] == '{' && t[|t| - 1] == '}' then Some((negate, t[2..|t| - 1]))
    else None
  }

  /** A quote at `j` can close the quoted reference: the body ends after it, or goes on with `:` and at least one character. */
  predicate ClosesAt(b: string, j: int)
  {
    0 <= j < |b| && b[j] == '\'' && (j + 1 == |b| || (j + 2 < |b| && b[j + 1] == ':'))
  }

  /**
   * The quoted alternative `'.*?'` on body `b` (which starts with a quote):
   * the closing quote is the first one from index `k` on after which the
   * rest of the body is either empty or `:` and at least one character.
   */
  function QuotedFrom(b: string, k: nat): (r: Option<(string, Option<string>)>)
    requires 1 <= k && |b| >= 1 && b[0] == '\''
    ensures r.Some? ==> r.value.0 + Tail(r.value.1) == b
    ensures r.Some? ==> |r.value.0| >= 2 && r.value.0[0] == '\'' && r.value.0[|r.value.0| - 1] == '\''
    decreases |b| - k
  {
    if k >= |b| then None
    else if b[k] == '\'' && k + 1 == |b| then Some((b, None))
    else if b[k] == '\'' && k + 2 < |b| && b[k + 1] == ':' then
      assert b[..k + 1] + (":" + b[k + 2..]) == b;
      Some((b[..k + 1], Some(b[k + 2..])))
    else QuotedFrom(b, k + 1)
  }

  /**
   * The bare alternative `.*?` on body `b`, from index `k`: the reference
   * ends at the first `:` that is followed by at least one character, or
   * is the whole body.
   */
  function BareFrom(b: string, k: nat): (r: (string, Option<string>))
    requires k <= |b|
    requires forall j :: 0 <= j < k ==> b[j] != ':'
    ensures r.0 + Tail(r.1) == b
    ensures r.1.Some? ==> ':' !in r.0
    decreases |b| - k
  {
    if k == |b| then (b, None)
    else if b[k] == ':' && k + 1 < |b| then
      assert b[..k] + (":" + b[k + 1..]) == b;
      assert forall j :: 0 <= j < |b[..k]| ==> b[..k][j] != ':';
      (b[..k], Some(b[k + 1..]))
    else if b[k] == ':' then
      // a ':' in last position cannot start a default; the body ends here
      (b, None)
    else BareFrom(b, k + 1)
  }

  /**
   * The quoted scan closes at the first quote from `k` on that can close
   * the reference, and fails exactly when there is none; a default it
   * finds is never empty.
   */
  lemma {:induction false} QuotedFromFirst(b: string, k: nat)
    requires 1 <= k && |b| >= 1 && b[0] == '\''
    ensures QuotedFrom(b, k).None? <==> forall j :: k <= j < |b| ==> !ClosesAt(b, j)
    ensures QuotedFrom(b, k).Some? ==>
              var r := QuotedFrom(b, k).value;
              var j := |r.0| - 1;
              && k <= j && ClosesAt(b, j) && (forall l :: k <= l < j ==> !ClosesAt(b, l))
              && (r.1.Some? ==> r.1.value != "")
    decreases |b| - k
  {
    if k >= |b| {
    } else if b[k] == '\'' && k + 1 == |b| {
      assert ClosesAt(b, k) && |QuotedFrom(b, k).value.0| - 1 == k;
    } else if b[k] == '\'' && k + 2 < |b| && b[k + 1] == ':' {
      assert ClosesAt(b, k) && QuotedFrom(b, k).value == (b[..k + 1], Some(b[k + 2..]));
    } else {
      assert !ClosesAt(b, k);
      QuotedFromFirst(b, k + 1);
    }
  }

  /**
   * The bare scan from `k` finds no default exactly when no ':' from `k`
   * on stands before the last character; a default it finds is never empty.
   */
  lemma {:induction false} BareFromFirst(b: string, k: nat)
    requires k <= |b|
    requires forall j :: 0 <= j < k ==> b[j] != ':'
    ensures BareFrom(b, k).1.None? <==> forall j :: k <= j < |b| - 1 ==> b[j] != ':'
    ensures BareFrom(b, k).1.Some? ==> BareFrom(b, k).1.value != ""
    decreases |b| - k
  {
    if k < |b| && b[k] != ':' {
      BareFromFirst(b, k + 1);
    }
  }

  /** `MAPPED_PATTERN.matcher(s).matches()`, with the groups of the match. */
  function Parse(s: string): Option<Expr>
  {
    match Envelope(s)
    case None => None
    case Some((negate, b)) =>
      if !NoLineTerminators(b) then None
      else
        var split := SplitBody(b);
        Some(Expr(negate, split.0, split.1))
  }

  /** The body split into reference and default: the quoted alternative when it matches, else the bare one. */
  function SplitBody(b: string): (r: (string, Option<string>))
    ensures r.0 + Tail(r.1) == b
  {
    if |b| >= 1 && b[0] == '\'' && QuotedFrom(b, 1).Some? then QuotedFrom(b, 1).value
    else BareFrom(b, 0)
  }

  /** An expression is written as its envelope around the reference and the default. */
  lemma RenderBody(e: Expr)
    ensures Render(e) == (if e.negate then "!" else "") + "${" + (e.ref + Tail(e.default)) + "}"
  {
  }

  /** The whole value is consumed: a parsed expression is exactly the text it was parsed from. */
  lemma ParseSound(s: string)
    requires Parse(s).Some?
    ensures Render(Parse(s).value) == s
  {
    var e := Parse(s).value;
    EnvelopeSound(s);
    RenderBody(e);
  }

  /** The envelope splits a value into its negation sign, the braces and the body. */
  lemma EnvelopeSound(s: string)
    requires Envelope(s).Some?
    ensures var (negate, b) := Envelope(s).value;
            s == (if negate then "!" else "") + "${" + b + "}"
  {
    if |s| >= 1 && s[0] == '!' {
      var t := s[1..];
      assert t == "${" + t[2..|t| - 1] + "}";
      assert s == "!" + t;
    } else {
      assert s == "${" + s[2..|s| - 1] + "}";
    }
  }

  /** Every value `[!]${b}` whose body has no line terminator is an expression, with the given negation. */
  lemma ParseComplete(negate: bool, b: string)
    requires NoLineTerminators(b)
    ensures var s := (if negate then "!" else "") + "${" + b + "}";
            Parse(s).Some? && Parse(s).value.negate == negate
  {
    var s := (if negate then "!" else "") + "${" + b + "}";
    var t := "${" + b + "}";
    assert t[2..|t| - 1] == b;
    if negate {
      assert s[1..] == t;
    }
  }

  /** A value whose body holds a line terminator is not an expression. */
  lemma ParseLineTerminator(negate: bool, b: string, i: nat)
    requires i < |b| && IsLineTerminator(b[i])
    ensures Parse((if negate then "!" else "") + "${" + b + "}").None?
  {
    var s := (if negate then "!" else "") + "${" + b + "}";
    var t := "${" + b + "}";
    assert t[2..|t| - 1] == b;
    if negate {
      assert s[1..] == t;
    }
    assert !NoLineTerminators(b);
  }

  /**
   * The reference is lazy: an unquoted reference that is followed by a
   * default contains no ':', and an unquoted reference without a default
   * has no ':' before its last character (such a ':' would have started one).
   */
  lemma ParseLazy(s: string)
    requires Parse(s).Some?
    ensures var r := Parse(s).value.ref;
            Parse(s).value.default.Some? ==> (':' !in r) || (|r| >= 2 && r[0] == '\'' && r[|r| - 1] == '\'')
    ensures var r := Parse(s).value.ref;
            Parse(s).value.default.None? && (|r| == 0 || r[0] != '\'') ==> forall j :: 0 <= j < |r| - 1 ==> r[j] != ':'
  {
    var b := Envelope(s).value.1;
    if |b| >= 1 && b[0] == '\'' && QuotedFrom(b, 1).Some? {
      assert Parse(s).value.ref[0] == '\'';
    } else {
      BareFromFirst(b, 0);
      var split := BareFrom(b, 0);
      assert Parse(s).value == Expr(Envelope(s).value.0, split.0, split.1);
      if split.1.None? {
        assert split.0 == split.0 + Tail(split.1) == b;
      }
    }
  }

  /** An unquoted body splits at its first ':' that has a character after it: the reference before it, the default after. */
  lemma ParseBareDefault(negate: bool, b: string, i: nat)
    requires NoLineTerminators(b) && |b| > 0 && b[0] != '\''
    requires i + 1 < |b| && b[i] == ':' && forall j :: 0 <= j < i ==> b[j] != ':'
    ensures Parse((if negate then "!" else "") + "${" + b + "}") == Some(Expr(negate, b[..i], Some(b[i + 1..])))
  {
    var s := (if negate then "!" else "") + "${" + b + "}";
    var t := "${" + b + "}";
    assert t[2..|t| - 1] == b;
    if negate {
      assert s[1..] == t;
    }
    BareSplit(b, 0, i);
  }

  /** Scanning from `k` up to the first ':' at `i`, which has a character after it, splits there. */
  lemma {:induction false} BareSplit(b: string, k: nat, i: nat)
    requires k <= i && i + 1 < |b| && b[i] == ':' && forall j :: 0 <= j < i ==> b[j] != ':'
    ensures BareFrom(b, k) == (b[..i], Some(b[i + 1..]))
    decreases i - k
  {
    if k < i {
      BareSplit(b, k + 1, i);
    }
  }

  /** Quoting protects ':' inside the reference: `${'x'}` with no quote in `x` has reference `'x'` and no default. */
  lemma ParseQuoted(x: string)
    requires NoLineTerminators(x) && '\'' !in x
    ensures Parse("${'" + x + "'}") == Some(Expr(false, "'" + x + "'", None))
  {
    var b := "'" + x + "'";
    var s := "${" + b + "}";
    assert s == "${'" + x + "'}";
    assert s[2..|s| - 1] == b;
    assert NoLineTerminators(b) by {
      forall i | 0 <= i < |b| ensures !IsLineTerminator(b[i]) {
        if 0 < i < |b| - 1 { assert b[i] == x[i - 1]; }
      }
    }
    QuotedScan(b, 1);
  }

  /** Scanning a body `'x'` whose inner part has no quote closes at the final quote. */
  lemma {:induction false} QuotedScan(b: string, k: nat)
    requires |b| >= 2 && b[0] == '\'' && b[|b| - 1] == '\''
    requires 1 <= k < |b|
    requires forall j :: 0 < j < |b| - 1 ==> b[j] != '\''
    ensures QuotedFrom(b, k) == Some((b, None))
    decreases |b| - k
  {
    if k + 1 < |b| {
      QuotedScan(b, k + 1);
    }
  }

  /** Scanning a body with no ':' from `k` on yields the whole body as the reference. */
  lemma {:induction false} BareScan(b: string, k: nat)
    requires k <= |b|
    requires forall j :: 0 <= j < |b| ==> b[j] != ':'
    ensures BareFrom(b, k) == (b, None)
    decreases |b| - k
  {
    if k < |b| {
      BareScan(b, k + 1);
    }
  }

  /** A plain reference with no ':', quote or line terminator parses to itself. */
  lemma ParsePlain(p: string)
    requires NoLineTerminators(p) && ':' !in p && (|p| == 0 || p[0] != '\'')
    ensures Parse("${" + p + "}") == Some(Expr(false, p, None))
  {
    var s := "${" + p + "}";
    assert s[2..|s| - 1] == p;
    BareScan(p, 0);
  }

  /** The example of the rule documentation: `${./a:b}` refers to `./a` with default `b`. */
  lemma ParseDefaultExample()
    ensures Parse("${./a:b}") == Some(Expr(false, "./a", Some("b")))
  {
    var b := "./a:b";
    assert "${./a:b}"[2..7] == b;
    assert b[..3] == "./a" && b[4..] == "b";
    assert NoLineTerminators(b);
    assert BareFrom(b, 3) == ("./a", Some("b"));
  }

  /** Only trailing quotes are dropped, and all of them. */
  lemma {:induction false} StripEndQuotesTrailing(s: string)
    ensures forall j :: |StripEndQuotes(s)| <= j < |s| ==> s[j] == '\''
    decreases |s|
  {
    if |s| > 0 && s[|s| - 1] == '\'' {
      StripEndQuotesTrailing(s[..|s| - 1]);
    }
  }

  /** Drops every trailing quote (`StringUtils.stripEnd(s, "'")`). */
  function StripEndQuotes(s: string): (r: string)
    ensures |r| <= |s| && r == s[..|r|]
    ensures |r| == 0 || r[|r| - 1] != '\''
  {
    if |s| > 0 && s[|s| - 1] == '\'' then StripEndQuotes(s[..|s| - 1]) else s
  }

  /** The property path of a reference: trailing quotes stripped, then one leading quote removed. */
  function Unquote(ref: string): (path: string)
  {
    var t := StripEndQuotes(ref);
    if |t| > 0 && t[0] == '\'' then t[1..] else t
  }

  /** A reference quoted as `'x'` names the path `x`, when `x` does not itself end in a quote. */
  lemma UnquoteQuoted(x: string)
    requires |x| == 0 || x[|x| - 1] != '\''
    ensures Unquote("'" + x + "'") == x
  {
    var q := "'" + x + "'";
    assert q[..|q| - 1] == "'" + x;
    if |x| == 0 {
      assert StripEndQuotes("'") == "";
    } else {
      assert StripEndQuotes("'" + x) == "'" + x;
      assert ("'" + x)[1..] == x;
    }
  }

  /** Only the final quotes go: `x''` with `x` quote-free at both ends names `x`. */
  lemma UnquotePlain(x: string)
    requires |x| == 0 || (x[0] != '\'' && x[|x| - 1] != '\'')
    ensures Unquote(x) == x
  {
  }
}
