# derive-declare, modelled in Dafny

`derive-declare` is a Rust procedural-macro crate. Deriving `Declare` on a
struct with named fields generates a declarative macro named after the
struct in snake case, such as `my_struct!`. The macro builds the struct's
`Default` value and overwrites only the fields the caller names:
`my_struct! { field_one: "Hello".to_string(), field_two }`. Two pieces of
code do the work:

- The generator, `generate_macro` in `src/macrogen.rs`, checks the shape of
  the declaration. It collects the field names and writes the two-arm
  `macro_rules!` definition.
- The block parser, in `src/parse.rs`, reads the invocation body
  `{ entry (,)? ... }` with `entry := IDENT (':' EXPR)?`. It checks every
  entry's field name against the field list and emits either
  `def.f = v;` or a `compile_error!` for each entry.

The project has these modules:

- `Syntax`: tokens with spans, opaque value expressions and diagnostics.
- `Parse`: the parser and emitter.
  - `ParseAssignments` is the cursor loop of `Assignments::parse`.
  - `Assignments` is a class whose `Next` pops the last entry.
  - `ParseDeclarativeBlock` drains an `Assignments` object.
  - `ParseAssignments` and `ParseDeclarativeBlock` are proved equal to the recursive specification functions `ParseEntries` and `ExpandBlock`. `Assignments.Next` states its old and new state directly.
- `ParseProperties`: grammar-level properties of those functions.
- `Macrogen`: the generator, and the two arms of the macro it defines.
- `Semantics`: what the emitted code does once compiled.
  - `Execute` applies the fragments, one field update at a time, to a mutable record `def`.
  - It also holds the end-to-end theorems: default construction, override, shorthand equivalence, trailing-comma tolerance, unknown-field rejection, order independence and earliest-entry-wins.
- `CrateTests`: the crate's own example struct and test invocations, proved.

Duplicate field names: the entries are collected in source order and
then drained with `Vec::pop` (src/parse.rs:36, 93, 116-120). The fragments
therefore come out in reverse source order. When a field is named twice,
the assignment from the EARLIEST entry runs last and wins
(`Semantics.EarliestEntryWins`).

Separators: after each entry the parser consumes one comma if one follows,
but does not require it (src/parse.rs:46-48). So `{ a: 1 b: 2 }` parses as
two entries (`ParseProperties.SeparatorOptional`).

## Model

| member | source | states |
|---|---|---|
| Parse.ParseExpr | src/parse.rs:18 | The value after `:` is parsed exactly when the next token is an identifier or an expression. Otherwise the error is "expression expected", located at that token or at the end of the block. |
| Parse.ParseFieldAssignment | src/parse.rs:13-24 | A successful entry consumes between 1 and the available number of tokens. Input that does not start with an identifier fails with "identifier expected" at its first token or at the end. |
| ParseProperties.ExplicitEntryKeepsValue | src/parse.rs:15-18 | `f: e` gives the entry for `f` at its span, with `e` as its value, and consumes exactly three tokens. |
| ParseProperties.ExplicitEntryBlock | src/parse.rs:15-18 | A block holding only `f: e` parses to the one entry `f` = `e`. |
| ParseProperties.MissingExpressionRejected | src/parse.rs:16-18 | `f:` followed by something that is not an expression fails the block with "expression expected" at that token or at the end. |
| ParseProperties.ShorthandEquivalence | src/parse.rs:16-21 | `f` followed by anything but `:` parses exactly as `f: f`, with a path to `f` as the value. The rest of the block is parsed from the same place in both forms. |
| ParseProperties.FieldAssignmentStable | src/parse.rs:14-21 | Parsing one entry depends only on the tokens it consumes and on whether the next token is a `:`. |
| Parse.ParseEntries | src/parse.rs:40-51 | A successful parse has at most one entry per token, and a non-empty body has at least one entry. The field of every entry is an identifier token of the body, with its span. |
| Parse.ParseAssignments | src/parse.rs:40-51 | The cursor loop of `Assignments::parse` returns exactly `ParseEntries` of the body. That is the first error met, or the entries in source order once the input is exhausted. |
| ParseProperties.EmptyBlockHasNoEntries | src/parse.rs:42-50 | An empty body parses to no entries. |
| Parse.SkipComma | src/parse.rs:46-48 | At most one token is dropped, and one is dropped exactly when the input starts with a comma. |
| ParseProperties.SkipCommaKeepsRest | src/parse.rs:46-48 | What is left after skipping is the input without its first comma, unchanged otherwise. |
| ParseProperties.ParseConcat | src/parse.rs:43-49 | Take a body that ends in a complete entry, followed by tokens that do not start with `:`. It parses to its own entries, then at most one comma is skipped, then the entries of the rest. An error in the rest is the error of the whole body. |
| ParseProperties.TrailingCommaTolerated | src/parse.rs:46-48 | `{ ..., f: v, }` parses to the same entries as `{ ..., f: v }`. |
| ParseProperties.DoubledCommaRejected | src/parse.rs:44-48 | A doubled comma after an entry fails with "identifier expected" at the second comma, whether it ends the body or more tokens follow (`{ a: 1,, b: 2 }`). |
| ParseProperties.LeadingCommaRejected | src/parse.rs:43-44 | A leading comma fails with "identifier expected" at that comma. |
| ParseProperties.CommaSeparatedEntries | src/parse.rs:43-49 | Two bodies joined by a comma parse to the entries of both, in source order. |
| ParseProperties.SeparatorOptional | src/parse.rs:46-48 | The comma between entries is optional. A body followed directly by another body that starts with an identifier parses to the entries of both. |
| ParseProperties.FailureAbortsBlock | src/parse.rs:44-65 | A malformed entry after any number of good ones makes that entry's error the result of the whole body. No partial list is returned. |
| Parse.Assignments.Next | src/parse.rs:35-37 | `Next` returns `None` exactly when no entries remain. Otherwise it removes the LAST entry and returns it. |
| Parse.Emit | src/parse.rs:93-113 | An entry becomes an assignment exactly when its name is string-equal to a declared field, and then it is exactly `def.f = v`. Otherwise it becomes an unknown-field error carrying the identifier (name and span) and the struct's name. |
| Parse.EmitAll | src/parse.rs:93-113 | One fragment per entry, fragment `i` being the fragment of entry `i`. |
| Parse.ExpandBlock | src/parse.rs:80-123 | The reference output of `parse_declarative_block`: a body that does not parse gives exactly its syntax error as a single `compile_error!`; a body that parses gives one fragment per entry. |
| Parse.ParseDeclarativeBlock | src/parse.rs:80-123 | Draining the parsed entries with `Next` emits exactly `ExpandBlock` of the body. A syntax error becomes the whole output. |
| ParseProperties.ExpandBlockOnePerEntry | src/parse.rs:93-120 | The output has one fragment per entry, in reverse source order. Fragment `i` is the assignment or the unknown-field error of the entry `i` places from the end. An unknown field does not suppress the fragments of the other entries. |
| ParseProperties.UnknownFieldErrors | src/parse.rs:93-106 | For a body that parses, a diagnostic is emitted exactly when it is the unknown-field error of some entry naming an undeclared field. |
| ParseProperties.SyntaxErrorIsWholeOutput | src/parse.rs:65-81 | A body that does not parse emits its syntax error and nothing else. |
| ParseProperties.SyntaxErrorsOnly | src/parse.rs:13-51 | The only errors the parser itself reports are syntax errors. |
| ParseProperties.StructNameOnlyInDiagnostics | src/parse.rs:91-103 | The struct's name affects only diagnostics. The same body expanded for another struct name gives the same fragments, except that unknown-field errors name the other struct. |
| ParseProperties.UnknownFieldMessageNamesBoth | src/parse.rs:101-104 | The message is exactly "Field '<f>' does not exist in struct '<S>'.", with `<f>` and `<S>` at fixed offsets. |
| Macrogen.ToSnakeCase | src/macrogen.rs:8 | The macro name has no upper-case letters. |
| Macrogen.SnakeCaseRoundTrip | src/macrogen.rs:8 | For a type name made of capitalised words (ASCII letters only, each upper-case letter followed by a lower-case one), upper-casing the first letter and each letter after `_` in the macro name gives back the type name. |
| Macrogen.SnakeCaseOfMyStruct | src/macrogen.rs:8 | `MyStruct` gives `my_struct`. |
| Macrogen.FieldNames | src/macrogen.rs:15-19 | One name per field, in declaration order. |
| Macrogen.GenerateMacro | src/macrogen.rs:5-49 | A macro is generated exactly when the input is a struct with named fields. The macro is named after the struct in snake case, builds that struct and carries the field names in declaration order. Every other shape gives the single unsupported-shape error at the type's name. |
| Macrogen.RejectionMessage | src/macrogen.rs:43-48 | The rejection's message is "Only structs with named fields can derive `Declare`". |
| Macrogen.FieldListIsDeclaredFields | src/macrogen.rs:15-34 | A name is in the field list handed to the parser exactly when some declared field has that name. |
| Macrogen.Invoke | src/macrogen.rs:26-37 | The expansion is the default call exactly when the invocation has no tokens, and either arm builds the struct the macro was generated for. |
| Semantics.Execute | src/macrogen.rs:33-35 | Running the emitted assignments one by one on a mutable `def` gives exactly `Run`, the fold of the assignments over the default. |
| Semantics.LastAssignment | src/parse.rs:111 | A value found is that of some assignment to `k` after which no fragment assigns `k`. When there is none, no assignment writes `k`. |
| Semantics.RunLastWriteWins | src/macrogen.rs:33-35 | After running the fragments, a field holds the value of the last assignment to it, or its starting value if none assigns it. No other key appears. |
| Semantics.Diagnostics | src/parse.rs:99-106 | There are no diagnostics exactly when every fragment is an assignment. A diagnostic is reported exactly when it is the diagnostic of some `compile_error!` fragment. |
| Semantics.Evaluate | src/macrogen.rs:28-36 | The default call builds the default. A block is rejected exactly when some fragment is a `compile_error!`, and then with all of their diagnostics in emission order. |
| Semantics.Declare | src/macrogen.rs:28-36 | An invocation with no tokens builds the default. An invocation is rejected exactly when it has tokens and its expansion holds a diagnostic. |
| Semantics.FirstValue | src/parse.rs:32-37 | Gives the value of the earliest entry naming `k`, or nothing exactly when no entry names `k`. |
| Semantics.LastAssignmentIsFirstEntry | src/parse.rs:93-120 | Emitting in reverse turns "last assignment to `k`" into "earliest entry naming `k`". |
| Semantics.RunIsOverlay | src/parse.rs:93-120 | The fragments of entries that name only declared fields all run. Running them, last entry first, from the default gives the reference overlay of the entries. |
| Semantics.DefaultConstruction | src/macrogen.rs:28-30 | An empty invocation builds the struct's default value. |
| Semantics.EarliestEntryWins | src/macrogen.rs:32-36 | Take a block that parses and names only declared fields. The invocation builds the default with each named field set to the value of the earliest entry naming it, and every other field keeps its default. |
| Semantics.Override | src/macrogen.rs:32-36 | `{ f: v }` for a declared field builds the default with `f` set to `v`. |
| Semantics.ShorthandExpandsAlike | src/parse.rs:16-21 | `{ f, ... }` and `{ f: f, ... }` expand to the same code. |
| Semantics.TrailingCommaExpandsAlike | src/parse.rs:46-48 | `{ ..., f: v, }` expands to the same code as `{ ..., f: v }`. |
| Semantics.FirstValueOfDistinct | src/parse.rs:93 | When no two entries name the same field, the earliest value of `k` is `e` exactly when the block binds `k` to `e`. |
| Semantics.OrderIndependence | src/macrogen.rs:32-36 | Two blocks that name pairwise distinct fields and bind the same fields to the same values build the same value, in whatever order they are written. |
| Semantics.UnknownFieldsRejected | src/parse.rs:99-106 | A block naming an undeclared field fails to compile. Its diagnostics are exactly the unknown-field errors of the entries naming undeclared fields. |
| Semantics.SyntaxErrorRejected | src/parse.rs:65-81 | A block that does not parse fails to compile with its syntax error alone. |
| CrateTests.DeriveMyStruct | tests/main.rs:1-5 | `MyStruct` generates `my_struct` with the fields `field_one` and `field_two`, and its default has exactly those fields. |
| CrateTests.EmptyInvocation | tests/main.rs:33-37 | `my_struct! {}` is the default. |
| CrateTests.TwoEntriesParse | tests/main.rs:23-26 | `{ f: e, g: d, }` parses to its two entries in source order. |
| CrateTests.BothFieldsParse | tests/main.rs:23-26 | The two-field body with a trailing comma parses to its two entries in order. |
| CrateTests.BothFields | tests/main.rs:22-29 | `my_struct! { field_one: "Hello".to_string(), field_two: 42, }` builds `field_one` = "Hello" and `field_two` = 42. |
| CrateTests.ShorthandThenEntryParse | tests/main.rs:53-56 | `{ f, g: d, }` parses to the shorthand entry for `f`, whose value is a path to `f`, then the entry for `g`. |
| CrateTests.NamedAssignment | tests/main.rs:50-60 | With `field_one` bound to "Hello" in scope, `my_struct! { field_one, field_two: 42, }` builds `field_one` = "Hello" and `field_two` = 42. |
| CrateTests.PartialInvocation | tests/main.rs:41-47 | `my_struct! { field_one: "Hello".to_string() }` sets `field_one` and keeps the default `field_two` = 0. |

## Left out

- The `proc_macro`, `syn` and `quote` machinery is not modelled: token streams, `braced!`, `parse_macro_input!`, `to_compile_error` and real spans. Spans are abstract positions on tokens. Fragments are a datatype, not Rust code.
- `syn::Expr` parses the full Rust expression grammar, which the model does not. A value expression is one opaque token: a literal-like value, or an identifier read as a path. How greedily the foreign parser reads an expression is not captured.
- Keywords, other punctuation and nested groups are a single "other" token. Only identifiers count as field names.
- Macrogen.ToSnakeCase: does not model `Inflector::to_snake_case`, a library whose code is not part of this model. It uses a simpler rule: `_` before every non-initial upper-case letter, which is lower-cased, and every other character kept. The two agree on `MyStruct`. They differ on acronyms (`HTTPServer` gives `h_t_t_p_server` here), on digits, and on names containing `_` (`My_Struct` gives `my__struct` here, where the library treats `_` as a word separator). `Macrogen.SnakeCaseRoundTrip` is therefore stated only for names made of capitalised words, and says nothing about names outside that set.
- `syn::Ident::new` panics when the derived name is unusable, and no error is reported for it. That case is not modelled.
- `DeclarativeBlock::parse` (src/parse.rs:61-77) is not modelled as a parser of its own. It splits the input `{ body }; [fields]; Struct` into three parts, and the generated macro always writes that input in this shape. The model passes the body tokens, the field list and the struct's name as separate parameters. Parsing the body, the only step that can fail on user input, is modelled.
- Rendering field names with `to_token_stream().to_string()` is modelled as the field's name string.
- Value expressions are effect-free in the model: a literal or a lookup of a binding in scope. The emitted assignments run in reverse source order, so in the crate the value expressions are also EVALUATED in reverse source order: `{ a: f(), b: g() }` runs `g()` before `f()`. The model captures that order only as the order of the fragments. Side effects and Rust moves are not modelled. For example, `{ a: s.clone(), b: s }` emits `def.b = s; def.a = s.clone();`, which fails to compile because `s` is used after the move. `Declare` still builds a value for it.
- Name resolution and type-checking of assigned values are left to the Rust compiler. `Declare`, `Evaluate` and `Execute` require every path to name a binding in scope, but only when the expansion compiles. Values are untyped.
- `src/lib.rs` is not modelled: its two entry points only forward to `generate_macro` and `parse_declarative_block`.
- The macro's `#[macro_export]` attribute and the hygiene of `def` are not modelled.
