/** The crate's own example struct and the invocations its tests make. */
module CrateTests {
  import opened Wrappers
  import opened Syntax
  import opened Parse
  import opened Macrogen
  import opened Semantics

  /** `pub struct MyStruct { pub field_one: String, pub field_two: i32 }` */
  const MyStructDecl := DeriveInput(Ident("MyStruct", 0), Struct(Named([Field("field_one"), Field("field_two")])))

  /** Its `Default`: `field_one: "Default"`, `field_two: 0`. */
  const MyStructDefault: Record := map["field_one" := Str("Default"), "field_two" := Int(0)]

  const MyStructMacro := MacroDef("my_struct", "MyStruct", ["field_one", "field_two"])

  lemma DeriveMyStruct()
    ensures GenerateMacro(MyStructDecl) == Ok(MyStructMacro)
    ensures IsValueOf(MyStructDefault, MyStructMacro)
  {
    SnakeCaseOfMyStruct();
    assert FieldNames([Field("field_one"), Field("field_two")]) == ["field_one", "field_two"];
  }

  /** `my_struct! {}` */
  lemma EmptyInvocation()
    ensures Declare(MyStructMacro, [], MyStructDefault, map[]) == Built(MyStructDefault)
  {
  }

  /** The tokens of one explicit entry `f: e`, at spans `p`, `q` and `s`. */
  function EntryTokens(f: string, e: Expr, p: Span, q: Span, s: Span): seq<Token>
  {
    [Token(IdentTok(f), p), Token(Colon, q), Token(ExprTok(e), s)]
  }

  /** `my_struct! { field_one: "Hello".to_string(), field_two: 42, }`, written at spans `p`. */
  function BothFieldsTokens(p: seq<Span>): seq<Token>
    requires |p| == 8
  {
    EntryTokens("field_one", Lit(Str("Hello")), p[0], p[1], p[2]) + [Token(Comma, p[3])]
    + EntryTokens("field_two", Lit(Int(42)), p[4], p[5], p[6]) + [Token(Comma, p[7])]
  }

  /** One explicit entry parses to itself and ends in its expression, not in a comma. */
  lemma EntryTokensParse(f: string, e: Expr, p: Span, q: Span, s: Span)
    ensures ParseEntries(EntryTokens(f, e, p, q, s)) == Ok([FieldAssignment(Ident(f, p), e)])
    ensures EntryTokens(f, e, p, q, s) != [] && !EntryTokens(f, e, p, q, s)[|EntryTokens(f, e, p, q, s)| - 1].kind.Comma?
  {
    ParseProperties.ExplicitEntryBlock(f, p, q, e, s);
  }

  /** `{ f: e, g: d }` parses to its two entries in source order and ends in `d`. */
  lemma TwoEntriesNoTrailingComma(f: string, e: Expr, g: string, d: Expr, p: seq<Span>)
    requires |p| == 8
    ensures var both := EntryTokens(f, e, p[0], p[1], p[2]) + [Token(Comma, p[3])] + EntryTokens(g, d, p[4], p[5], p[6]);
            && ParseEntries(both) == Ok([FieldAssignment(Ident(f, p[0]), e), FieldAssignment(Ident(g, p[4]), d)])
            && both != [] && !both[|both| - 1].kind.Comma?
  {
    var one := EntryTokens(f, e, p[0], p[1], p[2]);
    var two := EntryTokens(g, d, p[4], p[5], p[6]);
    EntryTokensParse(f, e, p[0], p[1], p[2]);
    EntryTokensParse(g, d, p[4], p[5], p[6]);
    ParseProperties.CommaSeparatedEntries(one, p[3], two);
    var both := one + [Token(Comma, p[3])] + two;
    assert both[|both| - 1] == two[|two| - 1];
    assert [FieldAssignment(Ident(f, p[0]), e)] + [FieldAssignment(Ident(g, p[4]), d)]
        == [FieldAssignment(Ident(f, p[0]), e), FieldAssignment(Ident(g, p[4]), d)];
  }

  /** `{ f: e, g: d, }` parses to its two entries in source order. */
  lemma TwoEntriesParse(f: string, e: Expr, g: string, d: Expr, p: seq<Span>)
    requires |p| == 8
    ensures ParseEntries(EntryTokens(f, e, p[0], p[1], p[2]) + [Token(Comma, p[3])]
                         + EntryTokens(g, d, p[4], p[5], p[6]) + [Token(Comma, p[7])])
         == Ok([FieldAssignment(Ident(f, p[0]), e), FieldAssignment(Ident(g, p[4]), d)])
  {
    TwoEntriesNoTrailingComma(f, e, g, d, p);
    ParseProperties.TrailingCommaTolerated(
      EntryTokens(f, e, p[0], p[1], p[2]) + [Token(Comma, p[3])] + EntryTokens(g, d, p[4], p[5], p[6]), p[7]);
  }

  lemma BothFieldsParse(p: seq<Span>)
    requires |p| == 8
    ensures ParseEntries(BothFieldsTokens(p)) == Ok(BothFieldsEntries(p))
  {
    TwoEntriesParse("field_one", Lit(Str("Hello")), "field_two", Lit(Int(42)), p);
  }

  /** The entries of `BothFieldsTokens(p)`. */
  function BothFieldsEntries(p: seq<Span>): seq<FieldAssignment>
    requires |p| == 8
  {
    [FieldAssignment(Ident("field_one", p[0]), Lit(Str("Hello"))), FieldAssignment(Ident("field_two", p[4]), Lit(Int(42)))]
  }

  lemma BothFieldsOverlay(p: seq<Span>)
    requires |p| == 8
    ensures Overlay(MyStructDefault, BothFieldsEntries(p), map[]) == map["field_one" := Str("Hello"), "field_two" := Int(42)]
  {
    var es := BothFieldsEntries(p);
    assert FirstValue(es, "field_one") == Some(Lit(Str("Hello")));
    assert FirstValue(es, "field_two") == Some(Lit(Int(42)));
  }

  lemma BothFieldsWellFormed(p: seq<Span>)
    requires |p| == 8
    ensures WellFormedEntries(BothFieldsEntries(p), MyStructMacro, map[])
  {
  }

  lemma BothFields(p: seq<Span>)
    requires |p| == 8
    ensures Invoke(MyStructMacro, BothFieldsTokens(p)).DefBlock?
    ensures ValuesInScope(Invoke(MyStructMacro, BothFieldsTokens(p)).body, map[])
    ensures Declare(MyStructMacro, BothFieldsTokens(p), MyStructDefault, map[])
         == Built(map["field_one" := Str("Hello"), "field_two" := Int(42)])
  {
    var toks := BothFieldsTokens(p);
    BothFieldsParse(p);
    BothFieldsWellFormed(p);
    DeriveMyStruct();
    EarliestEntryWins(MyStructMacro, toks, MyStructDefault, map[]);
    BothFieldsOverlay(p);
  }

  lemma PartialOverlay(p: Span)
    ensures WellFormedEntries([FieldAssignment(Ident("field_one", p), Lit(Str("Hello")))], MyStructMacro, map[])
    ensures Overlay(MyStructDefault, [FieldAssignment(Ident("field_one", p), Lit(Str("Hello")))], map[])
         == map["field_one" := Str("Hello"), "field_two" := Int(0)]
  {
    var es := [FieldAssignment(Ident("field_one", p), Lit(Str("Hello")))];
    assert FirstValue(es, "field_one") == Some(Lit(Str("Hello")));
    assert FirstValue(es, "field_two") == None;
  }

  /** `my_struct! { field_one: "Hello".to_string() }`: the field not named keeps its default. */
  lemma PartialInvocation(p: Span, q: Span, s: Span)
    ensures Invoke(MyStructMacro, EntryTokens("field_one", Lit(Str("Hello")), p, q, s)).DefBlock?
    ensures ValuesInScope(Invoke(MyStructMacro, EntryTokens("field_one", Lit(Str("Hello")), p, q, s)).body, map[])
    ensures Declare(MyStructMacro, EntryTokens("field_one", Lit(Str("Hello")), p, q, s), MyStructDefault, map[])
         == Built(map["field_one" := Str("Hello"), "field_two" := Int(0)])
  {
    EntryTokensParse("field_one", Lit(Str("Hello")), p, q, s);
    PartialOverlay(p);
    DeriveMyStruct();
    EarliestEntryWins(MyStructMacro, EntryTokens("field_one", Lit(Str("Hello")), p, q, s), MyStructDefault, map[]);
  }

  /** `g: d,` parses to its one entry. */
  lemma EntryWithCommaParse(g: string, d: Expr, p: Span, q: Span, s: Span, c: Span)
    ensures ParseEntries(EntryTokens(g, d, p, q, s) + [Token(Comma, c)]) == Ok([FieldAssignment(Ident(g, p), d)])
  {
    EntryTokensParse(g, d, p, q, s);
    ParseProperties.TrailingCommaTolerated(EntryTokens(g, d, p, q, s), c);
  }

  /** `{ f, g: d, }` parses to the shorthand entry for `f`, then the entry for `g`. */
  lemma ShorthandThenEntryParse(f: string, g: string, d: Expr, p: seq<Span>)
    requires |p| == 6
    ensures ParseEntries([Token(IdentTok(f), p[0])] + ([Token(Comma, p[1])] + (EntryTokens(g, d, p[2], p[3], p[4]) + [Token(Comma, p[5])])))
         == Ok([FieldAssignment(Ident(f, p[0]), Path(f)), FieldAssignment(Ident(g, p[2]), d)])
  {
    var more := EntryTokens(g, d, p[2], p[3], p[4]) + [Token(Comma, p[5])];
    var rest := [Token(Comma, p[1])] + more;
    ParseProperties.ShorthandEquivalence(f, p[0], p[0], p[0], rest);
    assert SkipComma(rest) == more;
    EntryWithCommaParse(g, d, p[2], p[3], p[4], p[5]);
    assert [FieldAssignment(Ident(f, p[0]), Path(f))] + [FieldAssignment(Ident(g, p[2]), d)]
        == [FieldAssignment(Ident(f, p[0]), Path(f)), FieldAssignment(Ident(g, p[2]), d)];
  }

  /** The scope of the named-assignment test: `let field_one = "Hello".to_string();`. */
  const HelloInScope: Scope := map["field_one" := Str("Hello")]

  /** `my_struct! { field_one, field_two: 42, }`, written at spans `p`. */
  function NamedAssignmentTokens(p: seq<Span>): seq<Token>
    requires |p| == 6
  {
    [Token(IdentTok("field_one"), p[0])] + ([Token(Comma, p[1])] + (EntryTokens("field_two", Lit(Int(42)), p[2], p[3], p[4]) + [Token(Comma, p[5])]))
  }

  /** The entries of `NamedAssignmentTokens(p)`. */
  function NamedAssignmentEntries(p: seq<Span>): seq<FieldAssignment>
    requires |p| == 6
  {
    [FieldAssignment(Ident("field_one", p[0]), Path("field_one")), FieldAssignment(Ident("field_two", p[2]), Lit(Int(42)))]
  }

  lemma NamedAssignmentOverlay(p: seq<Span>)
    requires |p| == 6
    ensures WellFormedEntries(NamedAssignmentEntries(p), MyStructMacro, HelloInScope)
    ensures Overlay(MyStructDefault, NamedAssignmentEntries(p), HelloInScope) == map["field_one" := Str("Hello"), "field_two" := Int(42)]
  {
    var es := NamedAssignmentEntries(p);
    assert FirstValue(es, "field_one") == Some(Path("field_one"));
    assert FirstValue(es, "field_two") == Some(Lit(Int(42)));
  }

  /** The shorthand `field_one` takes the value of the binding `field_one` in scope. */
  lemma NamedAssignment(p: seq<Span>)
    requires |p| == 6
    ensures Invoke(MyStructMacro, NamedAssignmentTokens(p)).DefBlock?
    ensures ValuesInScope(Invoke(MyStructMacro, NamedAssignmentTokens(p)).body, HelloInScope)
    ensures Declare(MyStructMacro, NamedAssignmentTokens(p), MyStructDefault, HelloInScope)
         == Built(map["field_one" := Str("Hello"), "field_two" := Int(42)])
  {
    ShorthandThenEntryParse("field_one", "field_two", Lit(Int(42)), p);
    NamedAssignmentOverlay(p);
    DeriveMyStruct();
    EarliestEntryWins(MyStructMacro, NamedAssignmentTokens(p), MyStructDefault, HelloInScope);
  }
}
