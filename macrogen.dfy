/**
  The derive (src/macrogen.rs): from a struct declaration, the declare macro
  named after the struct in snake case, whose empty arm is the struct's
  default and whose other arm overlays the parsed block on the default.
  Every declaration that is not a struct with named fields is rejected.
 */
module Macrogen {
  import opened Wrappers
  import opened Syntax
  import Parse

  // ---------------------------------------------------------------------------
  // The derive input
  // ---------------------------------------------------------------------------

  /** A named field; its type is not modelled. */
  datatype Field = Field(ident: string)

  /** The three shapes of a struct's fields. */
  datatype Fields = Named(named: seq<Field>) | Unnamed(arity: nat) | Unit

  /** The shapes of a declaration that can carry a derive. */
  datatype Data = Struct(fields: Fields) | Enum | Union

  /** A type declaration: its name (with its span) and its shape. */
  datatype DeriveInput = DeriveInput(ident: Ident, data: Data)

  /**
    The generated `macro_rules!` definition: the macro's name, the struct it
    builds, and the field list it hands to the block parser.
   */
  datatype MacroDef = MacroDef(name: string, structName: string, fieldNames: seq<string>)

  // ---------------------------------------------------------------------------
  // Macro name
  // ---------------------------------------------------------------------------

  predicate IsUpper(c: char) { 'A' <= c <= 'Z' }

  predicate IsLower(c: char) { 'a' <= c <= 'z' }

  predicate IsDigit(c: char) { '0' <= c <= '9' }

  function ToLower(c: char): (l: char)
    requires IsUpper(c)
    ensures IsLower(l)
  {
    (c as int + 32) as char
  }

  function ToUpper(c: char): (u: char)
    requires IsLower(c)
    ensures IsUpper(u)
  {
    (c as int - 32) as char
  }

  /**
    Snake case of the rest of a name: every upper-case letter becomes its
    lower-case letter, preceded by `_` unless it starts the name.
   */
  function SnakeFrom(s: string, atStart: bool): (r: string)
    ensures forall i :: 0 <= i < |r| ==> !IsUpper(r[i])
    decreases |s|
  {
    if s == [] then []
    else
      var head := if IsUpper(s[0]) then (if atStart then [] else ['_']) + [ToLower(s[0])] else [s[0]];
      head + SnakeFrom(s[1..], false)
  }

  /** The macro's name, derived from the struct's name (`MyStruct` becomes `my_struct`). */
  function ToSnakeCase(name: string): (snake: string)
    ensures forall i :: 0 <= i < |snake| ==> !IsUpper(snake[i])
  {
    SnakeFrom(name, true)
  }

  /**
    A type name made of capitalised words (`MyStruct`, `HttpServer`): ASCII
    letters only, starting upper-case, and every upper-case letter followed
    by a lower-case one. Acronyms (`HTTPServer`), digits and `_` are excluded.
   */
  predicate IsCapitalisedWords(name: string)
  {
    name != [] && IsUpper(name[0])
    && (forall i :: 0 <= i < |name| ==> IsUpper(name[i]) || IsLower(name[i]))
    && forall i :: 0 <= i < |name| && IsUpper(name[i]) ==> i + 1 < |name| && IsLower(name[i + 1])
  }

  /**
    The inverse reading of a snake-case name: `_` is dropped and the letter
    after it (or the first letter, when `capitalize` holds) is upper-cased.
   */
  function PascalFrom(s: string, capitalize: bool): string
    decreases |s|
  {
    if s == [] then []
    else if s[0] == '_' then PascalFrom(s[1..], true)
    else (if capitalize && IsLower(s[0]) then [ToUpper(s[0])] else [s[0]]) + PascalFrom(s[1..], false)
  }

  /** Snake case followed by its inverse gives back any letters-and-digits name. */
  lemma {:induction false} SnakeFromRoundTrip(s: string)
    requires forall i :: 0 <= i < |s| ==> IsUpper(s[i]) || IsLower(s[i]) || IsDigit(s[i])
    ensures PascalFrom(SnakeFrom(s, false), false) == s
    decreases |s|
  {
    if s != [] {
      SnakeFromRoundTrip(s[1..]);
      var rest := SnakeFrom(s[1..], false);
      if IsUpper(s[0]) {
        assert SnakeFrom(s, false) == ['_', ToLower(s[0])] + rest;
        assert (['_', ToLower(s[0])] + rest)[1..] == [ToLower(s[0])] + rest;
        assert ([ToLower(s[0])] + rest)[1..] == rest;
      } else {
        assert SnakeFrom(s, false) == [s[0]] + rest;
        assert ([s[0]] + rest)[1..] == rest;
      }
    }
  }

  /**
    For a name made of capitalised words, upper-casing the first letter and
    each letter after `_` in the snake-case name gives back the type name.
   */
  lemma SnakeCaseRoundTrip(name: string)
    requires IsCapitalisedWords(name)
    ensures PascalFrom(ToSnakeCase(name), true) == name
  {
    SnakeFromRoundTrip(name[1..]);
    var rest := SnakeFrom(name[1..], false);
    assert ToSnakeCase(name) == [ToLower(name[0])] + rest;
    assert ([ToLower(name[0])] + rest)[1..] == rest;
    assert name == [name[0]] + name[1..];
  }

  /** The example of the crate's documentation and tests. */
  lemma SnakeCaseOfMyStruct()
    ensures ToSnakeCase("MyStruct") == "my_struct"
  {
  }

  // ---------------------------------------------------------------------------
  // Generation
  // ---------------------------------------------------------------------------

  /** The field names, in declaration order. */
  function FieldNames(named: seq<Field>): (names: seq<string>)
    ensures |names| == |named|
    ensures forall i :: 0 <= i < |named| ==> names[i] == named[i].ident
  {
    if named == [] then [] else [named[0].ident] + FieldNames(named[1..])
  }

  /**
    `generate_macro`: only a struct with named fields yields a macro (named
    after the struct in snake case, carrying the field names in declaration
    order); every other shape yields the single unsupported-shape error at
    the type's name.
   */
  function GenerateMacro(ast: DeriveInput): (r: Result<MacroDef, Diagnostic>)
    ensures r.Ok? <==> ast.data.Struct? && ast.data.fields.Named?
    ensures r.Ok? ==> r.value.structName == ast.ident.name && r.value.name == ToSnakeCase(ast.ident.name)
    ensures r.Ok? ==> |r.value.fieldNames| == |ast.data.fields.named|
    ensures r.Ok? ==> forall i :: 0 <= i < |r.value.fieldNames| ==> r.value.fieldNames[i] == ast.data.fields.named[i].ident
    ensures r.Err? ==> r.error == UnsupportedShape(ast.ident.span)
  {
    match ast.data
    case Struct(Named(named)) => Ok(MacroDef(ToSnakeCase(ast.ident.name), ast.ident.name, FieldNames(named)))
    case _ => Err(UnsupportedShape(ast.ident.span))
  }

  /** The rejection carries the fixed message. */
  lemma RejectionMessage(ast: DeriveInput)
    requires !(ast.data.Struct? && ast.data.fields.Named?)
    ensures GenerateMacro(ast).Err?
    ensures GenerateMacro(ast).error.Message() == "Only structs with named fields can derive `Declare`"
  {
  }

  /**
    The field list handed to the parser has one name per declared field, and
    a name is in it exactly when some field is declared with that name.
   */
  lemma FieldListIsDeclaredFields(ast: DeriveInput, f: string)
    requires GenerateMacro(ast).Ok?
    ensures f in GenerateMacro(ast).value.fieldNames <==> exists i :: 0 <= i < |ast.data.fields.named| && ast.data.fields.named[i].ident == f
  {
    var names := GenerateMacro(ast).value.fieldNames;
    if f in names {
      var i :| 0 <= i < |names| && names[i] == f;
      assert ast.data.fields.named[i].ident == f;
    }
  }

  // ---------------------------------------------------------------------------
  // Expansion of the generated macro
  // ---------------------------------------------------------------------------

  /**
    What an invocation of the generated macro expands to: `T::default()`,
    or `{ let mut def = T::default(); <fragments> def }`.
   */
  datatype Expansion = DefaultCall(structName: string) | DefBlock(structName: string, body: seq<Parse.Fragment>)

  /**
    The two arms of the generated `macro_rules!`: no tokens give the default;
    one or more tokens are wrapped in braces and handed, with the field list
    and the struct's name, to the block parser.
   */
  function Invoke(m: MacroDef, toks: seq<Token>): (x: Expansion)
    ensures x.structName == m.structName
    ensures x.DefaultCall? <==> toks == []
  {
    if toks == [] then DefaultCall(m.structName)
    else DefBlock(m.structName, Parse.ExpandBlock(toks, m.fieldNames, m.structName))
  }
}
