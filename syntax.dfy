/**
  The intermediate representation shared by the block parser and the macro
  generator: source spans, the tokens of a `my_struct!{ ... }` invocation,
  the (opaque) value expressions, and the diagnostics both halves report.
 */
module Syntax {

  /** An abstract source position: the span of one token. */
  type Span = nat

  /** The values a struct field can hold; field types are not checked here. */
  datatype Value = Str(s: string) | Int(i: int)

  /**
    A value expression, kept opaque: either a literal-like expression that
    denotes a value, or a bare path naming a binding in scope at the
    invocation site (the form the shorthand entry produces).
   */
  datatype Expr = Lit(v: Value) | Path(name: string)

  /**
    One token of an invocation body. A complete value expression is one
    `ExprTok`; an identifier (a non-keyword name) is an `IdentTok`, which is
    also an expression when it stands after `:`; every other token tree
    (keywords, other punctuation, nested groups) is `OtherTok`.
   */
  datatype TokenKind = IdentTok(name: string) | Colon | Comma | ExprTok(e: Expr) | OtherTok

  datatype Token = Token(kind: TokenKind, span: Span)

  /** An identifier together with the span it was written at. */
  datatype Ident = Ident(name: string, span: Span)

  /** Where a syntax error is reported: at a token, or at the end of the block. */
  datatype Where = AtToken(span: Span) | AtEnd

  /** What the parser expected when it gave up. */
  datatype Expected = Identifier | Expression

  /** Compile-time diagnostics: each carries the location it is attributed to. */
  datatype Diagnostic =
    | SyntaxError(at: Where, expected: Expected)
    | UnknownField(field: Ident, structName: string)
    | UnsupportedShape(span: Span)
  {
    /** The text of the diagnostics whose wording the macro itself chooses. */
    function Message(): string
      requires !SyntaxError?
    {
      match this
      case UnknownField(f, s) => "Field '" + f.name + "' does not exist in struct '" + s + "'."
      case UnsupportedShape(_) => "Only structs with named fields can derive `Declare`"
    }
  }
}
