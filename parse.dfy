/**
  The block parser, validator and emitter behind `__declare_parse_block!`
  (src/parse.rs). A block `{ entry (,)? ... }` with `entry := IDENT (':' EXPR)?`
  is parsed into field assignments in source order; the entries are then
  drained from the end and each one becomes either an assignment
  `def.f = v;` or a compile-time error naming the field and the struct.
 */
module Parse {
  import opened Wrappers
  import opened Syntax

  /** One entry of a block: the field it names and the value it assigns. */
  datatype FieldAssignment = FieldAssignment(field: Ident, value: Expr)

  /** One piece of emitted code: an assignment to a field of `def`, or a `compile_error!`. */
  datatype Fragment = Assign(field: string, value: Expr) | CompileError(diag: Diagnostic)

  // ---------------------------------------------------------------------------
  // Parsing one entry
  // ---------------------------------------------------------------------------

  /** The syntax error reported when `toks` does not start with what was expected. */
  function ErrorAt(toks: seq<Token>, expected: Expected): Diagnostic
  {
    SyntaxError(if toks == [] then AtEnd else AtToken(toks[0].span), expected)
  }

  /** A value expression is one expression token, or an identifier used as a path. */
  function ParseExpr(toks: seq<Token>): (r: Result<Expr, Diagnostic>)
    ensures r.Err? <==> toks == [] || !(toks[0].kind.IdentTok? || toks[0].kind.ExprTok?)
    ensures r.Err? ==> r.error == ErrorAt(toks, Expression)
  {
    if toks == [] then Err(ErrorAt(toks, Expression))
    else match toks[0].kind
      case IdentTok(name) => Ok(Path(name))
      case ExprTok(e) => Ok(e)
      case _ => Err(ErrorAt(toks, Expression))
  }

  /**
    `FieldAssignment::parse`: an identifier, then either `: EXPR` or nothing;
    with nothing, the value is a path to the identifier itself. On success
    the result also gives the number of tokens consumed.
   */
  function ParseFieldAssignment(toks: seq<Token>): (r: Result<(FieldAssignment, nat), Diagnostic>)
    ensures r.Ok? ==> 1 <= r.value.1 <= |toks|
    ensures toks == [] || !toks[0].kind.IdentTok? ==> r == Err(ErrorAt(toks, Identifier))
  {
    if toks == [] || !toks[0].kind.IdentTok? then
      Err(ErrorAt(toks, Identifier))
    else
      var field := Ident(toks[0].kind.name, toks[0].span);
      if |toks| > 1 && toks[1].kind.Colon? then
        match ParseExpr(toks[2..])
        case Ok(e) => Ok((FieldAssignment(field, e), 3))
        case Err(d) => Err(d)
      else
        Ok((FieldAssignment(field, Path(field.name)), 1))
  }

  // ---------------------------------------------------------------------------
  // Parsing the whole block
  // ---------------------------------------------------------------------------

  /** Drops one comma at the front of `toks`, if there is one. */
  function SkipComma(toks: seq<Token>): (r: seq<Token>)
    ensures |r| <= |toks|
    ensures |r| < |toks| <==> toks != [] && toks[0].kind.Comma?
  {
    if toks != [] && toks[0].kind.Comma? then toks[1..] else toks
  }

  /** Puts `es` in front of the entries of a successful parse; keeps an error as it is. */
  function Prepend(es: seq<FieldAssignment>, r: Result<seq<FieldAssignment>, Diagnostic>): Result<seq<FieldAssignment>, Diagnostic>
  {
    match r
    case Ok(rest) => Ok(es + rest)
    case Err(d) => Err(d)
  }

  /**
    The entries of a block body, as a function of its tokens: an empty body
    has none; otherwise one entry, an optional comma, and the entries of
    what is left. The first entry that fails to parse fails the block.
    On success every entry's field is an identifier token of the body, and a
    non-empty body yields at least one entry.
   */
  function ParseEntries(toks: seq<Token>): (r: Result<seq<FieldAssignment>, Diagnostic>)
    ensures r.Ok? ==> |r.value| <= |toks| && (toks != [] ==> r.value != [])
    ensures r.Ok? ==> forall fa :: fa in r.value ==> Token(IdentTok(fa.field.name), fa.field.span) in toks
    decreases |toks|
  {
    if toks == [] then Ok([])
    else
      match ParseFieldAssignment(toks)
      case Err(d) => Err(d)
      case Ok((fa, n)) =>
        var rest := ParseEntries(SkipComma(toks[n..]));
        assert rest.Ok? ==> forall g :: g in rest.value ==> Token(IdentTok(g.field.name), g.field.span) in toks by {
          if rest.Ok? {
            forall g | g in rest.value ensures Token(IdentTok(g.field.name), g.field.span) in toks {
              SkippedTokenIn(toks, n, Token(IdentTok(g.field.name), g.field.span));
            }
          }
        }
        Prepend([fa], rest)
  }

  /**
    `Assignments::parse`: while the input is not empty, parse one entry,
    push it, and consume one comma if one follows.
   */
  method ParseAssignments(toks: seq<Token>) returns (r: Result<seq<FieldAssignment>, Diagnostic>)
    ensures r == ParseEntries(toks)
  {
    var expressions: seq<FieldAssignment> := [];
    var i := 0;
    PrependNothing(ParseEntries(toks));
    assert toks[i..] == toks;
    while i < |toks|
      invariant 0 <= i <= |toks|
      invariant ParseEntries(toks) == Prepend(expressions, ParseEntries(toks[i..]))
      decreases |toks| - i
    {
      var entry := ParseFieldAssignment(toks[i..]);
      if entry.Err? {
        return Err(entry.error);
      }
      var (fa, n) := entry.value;
      var next := if i + n < |toks| && toks[i + n].kind.Comma? then i + n + 1 else i + n;
      assert toks[i..][n..] == toks[i + n..];
      assert SkipComma(toks[i + n..]) == toks[next..];
      PrependTwice(expressions, fa, ParseEntries(toks[next..]));
      expressions := expressions + [fa];
      i := next;
    }
    assert toks[i..] == [];
    assert expressions + [] == expressions;
    return Ok(expressions);
  }

  /**
    The parsed entries, consumed the way `Iterator::next` consumes them:
    each call pops the LAST remaining entry.
   */
  class Assignments {
    var expressions: seq<FieldAssignment>

    constructor (expressions: seq<FieldAssignment>)
      ensures this.expressions == expressions
    {
      this.expressions := expressions;
    }

    /** `Iterator::next`: removes and returns the last entry; `None` once empty. */
    method Next() returns (r: Option<FieldAssignment>)
      modifies this
      ensures r.None? <==> old(expressions) == []
      ensures old(expressions) == expressions + (if r.Some? then [r.value] else [])
    {
      if expressions == [] {
        r := None;
      } else {
        r := Some(expressions[|expressions| - 1]);
        expressions := expressions[..|expressions| - 1];
      }
    }
  }

  // ---------------------------------------------------------------------------
  // Validation and emission
  // ---------------------------------------------------------------------------

  /**
    The closure of `parse_declarative_block`: an entry naming a declared field
    becomes exactly `def.f = v;`; any other entry becomes a compile error at
    the identifier's span naming the field and the struct.
   */
  function Emit(fa: FieldAssignment, fields: seq<string>, structIdent: string): (f: Fragment)
    ensures f.Assign? <==> fa.field.name in fields
    ensures f.Assign? ==> f.field == fa.field.name && f.value == fa.value
    ensures f.CompileError? ==> f.diag.UnknownField? && f.diag.field == fa.field && f.diag.structName == structIdent
  {
    if fa.field.name in fields then Assign(fa.field.name, fa.value)
    else CompileError(UnknownField(fa.field, structIdent))
  }

  /** The fragments of a sequence of entries, one per entry, in the same order. */
  function EmitAll(es: seq<FieldAssignment>, fields: seq<string>, structIdent: string): (frags: seq<Fragment>)
    ensures |frags| == |es|
    ensures forall i :: 0 <= i < |es| ==> frags[i] == Emit(es[i], fields, structIdent)
  {
    if es == [] then [] else [Emit(es[0], fields, structIdent)] + EmitAll(es[1..], fields, structIdent)
  }

  /** `s` in reverse order (the order in which repeated pops yield it). */
  function Reverse<T>(s: seq<T>): (r: seq<T>)
    ensures |r| == |s|
  {
    if s == [] then [] else Reverse(s[1..]) + [s[0]]
  }

  /**
    The code `parse_declarative_block` emits for a block body: a single
    syntax error if the body does not parse; otherwise one fragment per
    entry, last entry first.
   */
  function ExpandBlock(toks: seq<Token>, fields: seq<string>, structIdent: string): (frags: seq<Fragment>)
    ensures ParseEntries(toks).Err? ==> frags == [CompileError(ParseEntries(toks).error)]
    ensures ParseEntries(toks).Ok? ==> |frags| == |ParseEntries(toks).value|
  {
    match ParseEntries(toks)
    case Err(d) => [CompileError(d)]
    case Ok(es) => EmitAll(Reverse(es), fields, structIdent)
  }

  /**
    `parse_declarative_block`: parse the body (a syntax error becomes the
    whole output), then drain the entries with `Next`, emitting the
    fragment of each one as it comes.
   */
  method ParseDeclarativeBlock(toks: seq<Token>, fields: seq<string>, structIdent: string) returns (out: seq<Fragment>)
    ensures out == ExpandBlock(toks, fields, structIdent)
  {
    var parsed := ParseAssignments(toks);
    if parsed.Err? {
      return [CompileError(parsed.error)];
    }
    var expressions := new Assignments(parsed.value);
    out := [];
    while true
      invariant out + EmitAll(Reverse(expressions.expressions), fields, structIdent)
                == EmitAll(Reverse(parsed.value), fields, structIdent)
      decreases |expressions.expressions|
    {
      ghost var before := expressions.expressions;
      var next := expressions.Next();
      if next.None? {
        break;
      }
      DrainStep(out, expressions.expressions, next.value, before, EmitAll(Reverse(parsed.value), fields, structIdent), fields, structIdent);
      out := out + [Emit(next.value, fields, structIdent)];
    }
  }

  // ---------------------------------------------------------------------------
  // Helper lemmas
  // ---------------------------------------------------------------------------

  /** A token of what is left after `n` tokens and a comma is a token of the whole. */
  lemma SkippedTokenIn(toks: seq<Token>, n: nat, t: Token)
    requires n <= |toks|
    ensures t in SkipComma(toks[n..]) ==> t in toks
  {
    if t in SkipComma(toks[n..]) {
      var k :| 0 <= k < |SkipComma(toks[n..])| && SkipComma(toks[n..])[k] == t;
      if toks[n..] != [] && toks[n..][0].kind.Comma? {
        assert toks[n + 1 + k] == t;
      } else {
        assert toks[n + k] == t;
      }
    }
  }

  lemma PrependNothing(r: Result<seq<FieldAssignment>, Diagnostic>)
    ensures Prepend([], r) == r
  {
    if r.Ok? {
      assert [] + r.value == r.value;
    }
  }

  lemma PrependTwice(es: seq<FieldAssignment>, fa: FieldAssignment, r: Result<seq<FieldAssignment>, Diagnostic>)
    ensures Prepend(es, Prepend([fa], r)) == Prepend(es + [fa], r)
  {
    if r.Ok? {
      assert es + ([fa] + r.value) == (es + [fa]) + r.value;
    }
  }

  /** One step of draining: the popped entry's fragment moves from the pending part to the output. */
  lemma DrainStep(out: seq<Fragment>, after: seq<FieldAssignment>, fa: FieldAssignment, before: seq<FieldAssignment>,
                  total: seq<Fragment>, fields: seq<string>, structIdent: string)
    requires before == after + [fa]
    requires out + EmitAll(Reverse(before), fields, structIdent) == total
    ensures (out + [Emit(fa, fields, structIdent)]) + EmitAll(Reverse(after), fields, structIdent) == total
  {
    ReverseSnoc(after, fa);
    EmitAllCons(fa, Reverse(after), fields, structIdent);
  }

  lemma EmitAllCons(fa: FieldAssignment, es: seq<FieldAssignment>, fields: seq<string>, structIdent: string)
    ensures EmitAll([fa] + es, fields, structIdent) == [Emit(fa, fields, structIdent)] + EmitAll(es, fields, structIdent)
  {
    assert ([fa] + es)[1..] == es;
  }

  lemma {:induction false} ReverseSnoc<T>(s: seq<T>, x: T)
    ensures Reverse(s + [x]) == [x] + Reverse(s)
    decreases |s|
  {
    if s == [] {
      assert s + [x] == [x];
    } else {
      assert (s + [x])[1..] == s[1..] + [x];
      ReverseSnoc(s[1..], x);
    }
  }
}
