/**
  What the code emitted by the declare macro does once it is compiled and
  run: `T::default()` for an empty invocation; otherwise
  `let mut def = T::default();`, the fragments in emission order, and `def`.
  A fragment that is a `compile_error!` makes the whole invocation fail to
  compile with every such diagnostic. The end-to-end properties of the
  crate are proved here: default construction, override, shorthand
  equivalence, unknown-field rejection, trailing-comma tolerance, order
  independence of distinct fields, and earliest-entry-wins for duplicates.
 */
module Semantics {
  import opened Wrappers
  import opened Syntax
  import opened Parse
  import opened ParseProperties
  import opened Macrogen

  /** A struct value: each declared field's name mapped to its value. */
  type Record = map<string, Value>

  /** The bindings in scope at the invocation site, by name. */
  type Scope = map<string, Value>

  // ---------------------------------------------------------------------------
  // Running the emitted code
  // ---------------------------------------------------------------------------

  /** A path names a binding in scope; a literal always has a value. */
  predicate InScope(e: Expr, scope: Scope)
  {
    e.Path? ==> e.name in scope
  }

  function Eval(e: Expr, scope: Scope): Value
    requires InScope(e, scope)
  {
    match e
    case Lit(v) => v
    case Path(name) => scope[name]
  }

  /** Every assignment among the fragments has a value that resolves. */
  predicate ValuesInScope(frags: seq<Fragment>, scope: Scope)
  {
    forall i :: 0 <= i < |frags| && frags[i].Assign? ==> InScope(frags[i].value, scope)
  }

  /** Fragments that compile and run: assignments only, with values that resolve. */
  predicate Runnable(frags: seq<Fragment>, scope: Scope)
  {
    ValuesInScope(frags, scope) && forall i :: 0 <= i < |frags| ==> frags[i].Assign?
  }

  /** `def` after running the assignments, in order, starting from `def`. */
  function Run(def: Record, frags: seq<Fragment>, scope: Scope): Record
    requires Runnable(frags, scope)
    decreases |frags|
  {
    if frags == [] then def
    else
      var last := frags[|frags| - 1];
      Run(def, frags[..|frags| - 1], scope)[last.field := Eval(last.value, scope)]
  }

  /**
    The emitted assignments `def.f = v;`, executed one after another on the
    mutable `def`.
   */
  method Execute(defaults: Record, frags: seq<Fragment>, scope: Scope) returns (def: Record)
    requires Runnable(frags, scope)
    ensures def == Run(defaults, frags, scope)
  {
    def := defaults;
    for i := 0 to |frags|
      invariant def == Run(defaults, frags[..i], scope)
    {
      assert frags[..i + 1][..i] == frags[..i];
      def := def[frags[i].field := Eval(frags[i].value, scope)];
    }
    assert frags[..|frags|] == frags;
  }

  /** The value of the last assignment to field `k` among the fragments, if any. */
  function LastAssignment(frags: seq<Fragment>, k: string): (r: Option<Expr>)
    ensures r.Some? ==> Assign(k, r.value) in frags
    ensures r.Some? ==> exists i :: 0 <= i < |frags| && frags[i] == Assign(k, r.value)
                                    && forall j :: i < j < |frags| && frags[j].Assign? ==> frags[j].field != k
    ensures r.None? ==> forall i :: 0 <= i < |frags| && frags[i].Assign? ==> frags[i].field != k
    decreases |frags|
  {
    if frags == [] then None
    else
      var last := frags[|frags| - 1];
      if last.Assign? && last.field == k then Some(last.value)
      else
        var r := LastAssignment(frags[..|frags| - 1], k);
        assert r.Some? ==> exists i :: 0 <= i < |frags| && frags[i] == Assign(k, r.value)
                                       && forall j :: i < j < |frags| && frags[j].Assign? ==> frags[j].field != k;
        r
  }

  /**
    The last write wins: after running the fragments, a field holds the
    value of the last assignment to it, or its starting value if none
    assigns it; no other key appears.
   */
  lemma {:induction false} RunLastWriteWins(def: Record, frags: seq<Fragment>, scope: Scope, k: string)
    requires Runnable(frags, scope)
    ensures k in Run(def, frags, scope) <==> k in def || LastAssignment(frags, k).Some?
    ensures LastAssignment(frags, k).Some? ==> InScope(LastAssignment(frags, k).value, scope)
    ensures k in Run(def, frags, scope) ==>
              Run(def, frags, scope)[k] == match LastAssignment(frags, k)
                                           case Some(e) => Eval(e, scope)
                                           case None => def[k]
    decreases |frags|
  {
    if frags != [] {
      RunLastWriteWins(def, frags[..|frags| - 1], scope, k);
    }
  }

  // ---------------------------------------------------------------------------
  // The outcome of an invocation
  // ---------------------------------------------------------------------------

  /** A built struct value, or a compilation rejected with its diagnostics. */
  datatype Outcome = Built(record: Record) | Rejected(diags: seq<Diagnostic>)

  /** The diagnostics of the `compile_error!` fragments, in emission order. */
  function Diagnostics(frags: seq<Fragment>): (ds: seq<Diagnostic>)
    ensures ds == [] <==> forall i :: 0 <= i < |frags| ==> frags[i].Assign?
    ensures forall d :: d in ds <==> CompileError(d) in frags
    decreases |frags|
  {
    if frags == [] then []
    else
      var rest := Diagnostics(frags[1..]);
      assert forall d :: CompileError(d) in frags <==> frags[0] == CompileError(d) || CompileError(d) in frags[1..];
      match frags[0]
      case CompileError(d) => [d] + rest
      case Assign(_, _) => rest
  }

  /**
    The expansion, compiled and run from the struct's default value:
    rejected with every compile error if there is one, otherwise the
    default with the assignments applied in emission order.
   */
  function Evaluate(x: Expansion, defaults: Record, scope: Scope): (o: Outcome)
    requires x.DefBlock? && Diagnostics(x.body) == [] ==> ValuesInScope(x.body, scope)
    ensures x.DefaultCall? ==> o == Built(defaults)
    ensures o.Rejected? <==> x.DefBlock? && exists i :: 0 <= i < |x.body| && x.body[i].CompileError?
    ensures o.Rejected? ==> o.diags == Diagnostics(x.body)
  {
    match x
    case DefaultCall(_) => Built(defaults)
    case DefBlock(_, body) =>
      var diags := Diagnostics(body);
      if diags != [] then Rejected(diags) else Built(Run(defaults, body, scope))
  }

  /** `my_struct!{ toks }` for the macro `m`, its struct's default being `defaults`. */
  function Declare(m: MacroDef, toks: seq<Token>, defaults: Record, scope: Scope): (o: Outcome)
    requires var x := Invoke(m, toks); x.DefBlock? && Diagnostics(x.body) == [] ==> ValuesInScope(x.body, scope)
    ensures toks == [] ==> o == Built(defaults)
    ensures o.Rejected? <==> toks != [] && Diagnostics(Invoke(m, toks).body) != []
  {
    Evaluate(Invoke(m, toks), defaults, scope)
  }

  // ---------------------------------------------------------------------------
  // The reference meaning of a block
  // ---------------------------------------------------------------------------

  /**
    The value of the EARLIEST entry naming field `k`, if any: the entry
    before which no other entry names `k`.
   */
  function FirstValue(es: seq<FieldAssignment>, k: string): (r: Option<Expr>)
    ensures r.None? <==> forall i :: 0 <= i < |es| ==> es[i].field.name != k
    ensures r.Some? ==> exists i :: 0 <= i < |es| && es[i].field.name == k && es[i].value == r.value
                                    && forall j :: 0 <= j < i ==> es[j].field.name != k
    decreases |es|
  {
    if es == [] then None
    else if es[0].field.name == k then Some(es[0].value)
    else
      var r := FirstValue(es[1..], k);
      assert r.Some? ==> exists i :: 0 < i < |es| && es[i].field.name == k && es[i].value == r.value
                                     && forall j :: 0 <= j < i ==> es[j].field.name != k by {
        if r.Some? {
          var i :| 0 <= i < |es[1..]| && es[1..][i].field.name == k && es[1..][i].value == r.value
                   && forall j :: 0 <= j < i ==> es[1..][j].field.name != k;
          assert forall j :: 0 < j < i + 1 ==> es[j].field.name != k by {
            forall j | 0 < j < i + 1 ensures es[j].field.name != k {
              assert es[j] == es[1..][j - 1];
            }
          }
        }
      }
      r
  }

  /** Every entry names a declared field and has a value that resolves. */
  predicate WellFormedEntries(es: seq<FieldAssignment>, m: MacroDef, scope: Scope)
  {
    forall i :: 0 <= i < |es| ==> es[i].field.name in m.fieldNames && InScope(es[i].value, scope)
  }

  /** A struct value of the macro's struct: exactly the declared fields. */
  predicate IsValueOf(defaults: Record, m: MacroDef)
  {
    defaults.Keys == set f | f in m.fieldNames
  }

  /**
    The reference meaning of a block: the default, with every field that
    some entry names taking the value of the earliest such entry.
   */
  function Overlay(defaults: Record, es: seq<FieldAssignment>, scope: Scope): Record
    requires forall i :: 0 <= i < |es| ==> InScope(es[i].value, scope)
  {
    map k | k in defaults :: match FirstValue(es, k)
                             case Some(e) => Eval(e, scope)
                             case None => defaults[k]
  }

  // ---------------------------------------------------------------------------
  // From entries to fragments
  // ---------------------------------------------------------------------------

  lemma EmitAllSnoc(es: seq<FieldAssignment>, fa: FieldAssignment, fields: seq<string>, structIdent: string)
    ensures EmitAll(es + [fa], fields, structIdent) == EmitAll(es, fields, structIdent) + [Emit(fa, fields, structIdent)]
  {
  }

  /**
    Emitting the entries in reverse turns "last assignment" into "earliest
    entry": when every entry names a declared field, the last assignment to
    `k` is the value of the earliest entry naming `k`.
   */
  lemma {:induction false} LastAssignmentIsFirstEntry(es: seq<FieldAssignment>, fields: seq<string>, structIdent: string, k: string)
    requires forall i :: 0 <= i < |es| ==> es[i].field.name in fields
    ensures LastAssignment(EmitAll(Reverse(es), fields, structIdent), k) == FirstValue(es, k)
    decreases |es|
  {
    if es != [] {
      LastAssignmentIsFirstEntry(es[1..], fields, structIdent, k);
      var front := EmitAll(Reverse(es[1..]), fields, structIdent);
      var a := Assign(es[0].field.name, es[0].value);
      EmitAllSnoc(Reverse(es[1..]), es[0], fields, structIdent);
      assert EmitAll(Reverse(es), fields, structIdent) == front + [a];
      LastAssignmentSnoc(front, a, k);
    }
  }

  /** The last assignment to `k` after appending one fragment. */
  lemma LastAssignmentSnoc(frags: seq<Fragment>, a: Fragment, k: string)
    ensures LastAssignment(frags + [a], k) == if a.Assign? && a.field == k then Some(a.value) else LastAssignment(frags, k)
  {
    assert (frags + [a])[..|frags|] == frags;
  }

  // ---------------------------------------------------------------------------
  // End-to-end properties
  // ---------------------------------------------------------------------------

  /** Default construction: an empty invocation is the struct's default value. */
  lemma DefaultConstruction(m: MacroDef, defaults: Record, scope: Scope)
    ensures Declare(m, [], defaults, scope) == Built(defaults)
  {
  }

  /**
    Running the entries' fragments, emitted last entry first, from the
    default gives the reference overlay of the entries.
   */
  lemma RunIsOverlay(m: MacroDef, es: seq<FieldAssignment>, defaults: Record, scope: Scope)
    requires WellFormedEntries(es, m, scope)
    requires IsValueOf(defaults, m)
    ensures Runnable(EmitAll(Reverse(es), m.fieldNames, m.structName), scope)
    ensures Run(defaults, EmitAll(Reverse(es), m.fieldNames, m.structName), scope) == Overlay(defaults, es, scope)
  {
    var frags := EmitAll(Reverse(es), m.fieldNames, m.structName);
    forall i | 0 <= i < |frags| ensures frags[i] == Assign(es[|es| - 1 - i].field.name, es[|es| - 1 - i].value) {
      ParseProperties.ReverseAt(es, i);
    }
    var r := Run(defaults, frags, scope);
    forall k | k in defaults || k in r
      ensures k in r && k in defaults
      ensures r[k] == Overlay(defaults, es, scope)[k]
    {
      RunLastWriteWins(defaults, frags, scope, k);
      LastAssignmentIsFirstEntry(es, m.fieldNames, m.structName, k);
    }
  }

  /**
    Earliest entry wins: for a block that parses and names only declared
    fields, the invocation builds the default with each named field set to
    the value of the earliest entry naming it; every other field keeps its
    default.
   */
  lemma EarliestEntryWins(m: MacroDef, toks: seq<Token>, defaults: Record, scope: Scope)
    requires toks != [] && ParseEntries(toks).Ok?
    requires WellFormedEntries(ParseEntries(toks).value, m, scope)
    requires IsValueOf(defaults, m)
    ensures Invoke(m, toks).DefBlock? && ValuesInScope(Invoke(m, toks).body, scope)
    ensures Declare(m, toks, defaults, scope) == Built(Overlay(defaults, ParseEntries(toks).value, scope))
  {
    var es := ParseEntries(toks).value;
    var frags := EmitAll(Reverse(es), m.fieldNames, m.structName);
    assert Invoke(m, toks).body == frags;
    RunIsOverlay(m, es, defaults, scope);
  }

  /** Overlaying one entry `f: v` on a value that has field `f` sets `f` to `v`. */
  lemma OverlayOne(defaults: Record, f: string, p: Span, v: Value, scope: Scope)
    requires f in defaults
    ensures Overlay(defaults, [FieldAssignment(Ident(f, p), Lit(v))], scope) == defaults[f := v]
  {
    var o := Overlay(defaults, [FieldAssignment(Ident(f, p), Lit(v))], scope);
    assert forall k :: k in o ==> o[k] == defaults[f := v][k];
  }

  /** Override: `{ f: v }` for a declared field `f` is the default with `f` set to `v`. */
  lemma Override(m: MacroDef, f: string, v: Value, p: Span, q: Span, s: Span, defaults: Record, scope: Scope)
    requires f in m.fieldNames && IsValueOf(defaults, m)
    ensures var x := Invoke(m, [Token(IdentTok(f), p), Token(Colon, q), Token(ExprTok(Lit(v)), s)]);
            x.DefBlock? && ValuesInScope(x.body, scope)
    ensures Declare(m, [Token(IdentTok(f), p), Token(Colon, q), Token(ExprTok(Lit(v)), s)], defaults, scope)
         == Built(defaults[f := v])
  {
    var toks := [Token(IdentTok(f), p), Token(Colon, q), Token(ExprTok(Lit(v)), s)];
    ExplicitEntryBlock(f, p, q, Lit(v), s);
    EarliestEntryWins(m, toks, defaults, scope);
    OverlayOne(defaults, f, p, v, scope);
  }

  /**
    Shorthand equivalence: `{ f, ... }` and `{ f: f, ... }` expand to the
    same code, hence build the same value.
   */
  lemma ShorthandExpandsAlike(m: MacroDef, f: string, p: Span, q: Span, s: Span, rest: seq<Token>)
    requires rest == [] || !rest[0].kind.Colon?
    ensures Invoke(m, [Token(IdentTok(f), p)] + rest)
         == Invoke(m, [Token(IdentTok(f), p), Token(Colon, q), Token(IdentTok(f), s)] + rest)
  {
    ShorthandEquivalence(f, p, q, s, rest);
  }

  /** Trailing-comma tolerance: `{ ..., f: v, }` expands like `{ ..., f: v }`. */
  lemma TrailingCommaExpandsAlike(m: MacroDef, toks: seq<Token>, s: Span)
    requires ParseEntries(toks).Ok?
    requires toks != [] && !toks[|toks| - 1].kind.Comma?
    ensures Invoke(m, toks + [Token(Comma, s)]) == Invoke(m, toks)
  {
    TrailingCommaTolerated(toks, s);
  }

  /** The field names and values the entries bind, without their spans. */
  function Bindings(es: seq<FieldAssignment>): set<(string, Expr)>
  {
    set i | 0 <= i < |es| :: (es[i].field.name, es[i].value)
  }

  /** No two entries name the same field. */
  predicate DistinctNames(es: seq<FieldAssignment>)
  {
    forall i, j :: 0 <= i < j < |es| ==> es[i].field.name != es[j].field.name
  }

  lemma FirstValueOfDistinct(es: seq<FieldAssignment>, k: string, e: Expr)
    requires DistinctNames(es)
    ensures FirstValue(es, k) == Some(e) <==> (k, e) in Bindings(es)
  {
    if (k, e) in Bindings(es) {
      var i :| 0 <= i < |es| && (es[i].field.name, es[i].value) == (k, e);
      var j :| 0 <= j < |es| && es[j].field.name == k && es[j].value == FirstValue(es, k).value
               && forall l :: 0 <= l < j ==> es[l].field.name != k;
      assert i == j;
    }
  }

  /**
    Order independence: two blocks whose entries name pairwise distinct
    fields and bind the same fields to the same values build the same
    value, in whatever order the entries are written.
   */
  lemma OrderIndependence(defaults: Record, es1: seq<FieldAssignment>, es2: seq<FieldAssignment>, scope: Scope)
    requires DistinctNames(es1) && DistinctNames(es2) && Bindings(es1) == Bindings(es2)
    requires forall i :: 0 <= i < |es1| ==> InScope(es1[i].value, scope)
    requires forall i :: 0 <= i < |es2| ==> InScope(es2[i].value, scope)
    ensures Overlay(defaults, es1, scope) == Overlay(defaults, es2, scope)
  {
    forall k | k in defaults
      ensures FirstValue(es1, k) == FirstValue(es2, k)
    {
      if FirstValue(es1, k).Some? {
        FirstValueOfDistinct(es1, k, FirstValue(es1, k).value);
        FirstValueOfDistinct(es2, k, FirstValue(es1, k).value);
      } else if FirstValue(es2, k).Some? {
        FirstValueOfDistinct(es2, k, FirstValue(es2, k).value);
        FirstValueOfDistinct(es1, k, FirstValue(es2, k).value);
      }
    }
  }

  /**
    Unknown-field rejection: an invocation whose block names an undeclared
    field fails to compile, with one unknown-field diagnostic for each entry
    naming an undeclared field and no other diagnostic.
   */
  lemma UnknownFieldsRejected(m: MacroDef, toks: seq<Token>, defaults: Record, scope: Scope)
    requires toks != [] && ParseEntries(toks).Ok?
    requires exists i :: 0 <= i < |ParseEntries(toks).value| && ParseEntries(toks).value[i].field.name !in m.fieldNames
    ensures Invoke(m, toks).DefBlock? && Diagnostics(Invoke(m, toks).body) != []
    ensures Declare(m, toks, defaults, scope).Rejected?
    ensures forall d :: d in Declare(m, toks, defaults, scope).diags <==>
              exists i :: 0 <= i < |ParseEntries(toks).value|
                          && ParseEntries(toks).value[i].field.name !in m.fieldNames
                          && d == UnknownField(ParseEntries(toks).value[i].field, m.structName)
  {
    var es := ParseEntries(toks).value;
    var i :| 0 <= i < |es| && es[i].field.name !in m.fieldNames;
    UnknownFieldErrors(toks, m.fieldNames, m.structName, UnknownField(es[i].field, m.structName));
    forall d
      ensures d in Diagnostics(Invoke(m, toks).body) <==>
              exists i :: 0 <= i < |es| && es[i].field.name !in m.fieldNames && d == UnknownField(es[i].field, m.structName)
    {
      UnknownFieldErrors(toks, m.fieldNames, m.structName, d);
    }
  }

  /** A block that does not parse fails to compile with its syntax error alone. */
  lemma SyntaxErrorRejected(m: MacroDef, toks: seq<Token>, defaults: Record, scope: Scope)
    requires toks != [] && ParseEntries(toks).Err?
    ensures Invoke(m, toks).DefBlock? && Diagnostics(Invoke(m, toks).body) != []
    ensures Declare(m, toks, defaults, scope) == Rejected([ParseEntries(toks).error])
  {
    SyntaxErrorIsWholeOutput(toks, m.fieldNames, m.structName);
  }
}

