/**
  What the block grammar of src/parse.rs promises, proved about the parsing
  and emission functions of module Parse: explicit and shorthand entries,
  comma handling, all-or-nothing parsing, and the reversed, one-per-entry
  shape of the emitted fragments.
 */
module ParseProperties {
  import opened Wrappers
  import opened Syntax
  import opened Parse

  // ---------------------------------------------------------------------------
  // Single entries
  // ---------------------------------------------------------------------------

  /** `f: e` keeps the parsed expression as the entry's value and consumes three tokens. */
  lemma ExplicitEntryKeepsValue(f: string, p: Span, q: Span, value: Token, rest: seq<Token>)
    requires value.kind.IdentTok? || value.kind.ExprTok?
    ensures ParseFieldAssignment([Token(IdentTok(f), p), Token(Colon, q), value] + rest)
         == Ok((FieldAssignment(Ident(f, p), if value.kind.ExprTok? then value.kind.e else Path(value.kind.name)), 3))
  {
    assert ([Token(IdentTok(f), p), Token(Colon, q), value] + rest)[2..] == [value] + rest;
  }

  /** A block holding the one entry `f: e`. */
  lemma ExplicitEntryBlock(f: string, p: Span, q: Span, e: Expr, s: Span)
    ensures ParseEntries([Token(IdentTok(f), p), Token(Colon, q), Token(ExprTok(e), s)]) == Ok([FieldAssignment(Ident(f, p), e)])
  {
    var toks := [Token(IdentTok(f), p), Token(Colon, q), Token(ExprTok(e), s)];
    ExplicitEntryKeepsValue(f, p, q, Token(ExprTok(e), s), []);
    assert toks + [] == toks && toks[3..] == [];
    ParseEntriesStep(toks);
    assert SkipComma(toks[3..]) == [];
    assert [FieldAssignment(Ident(f, p), e)] + [] == [FieldAssignment(Ident(f, p), e)];
  }

  /** `f:` followed by something that is not an expression fails where the expression should be. */
  lemma MissingExpressionRejected(f: string, p: Span, q: Span, rest: seq<Token>)
    requires rest == [] || !(rest[0].kind.IdentTok? || rest[0].kind.ExprTok?)
    ensures ParseEntries([Token(IdentTok(f), p), Token(Colon, q)] + rest)
         == Err(SyntaxError(if rest == [] then AtEnd else AtToken(rest[0].span), Expression))
  {
    assert ([Token(IdentTok(f), p), Token(Colon, q)] + rest)[2..] == rest;
  }

  /**
    Shorthand equivalence: `f` followed by anything but `:` parses exactly as
    `f: f`, the value being a path to `f`, and parsing goes on from the same
    place in both.
   */
  lemma {:induction false} ShorthandEquivalence(f: string, p: Span, q: Span, s: Span, rest: seq<Token>)
    requires rest == [] || !rest[0].kind.Colon?
    ensures ParseEntries([Token(IdentTok(f), p)] + rest)
         == ParseEntries([Token(IdentTok(f), p), Token(Colon, q), Token(IdentTok(f), s)] + rest)
    ensures ParseEntries([Token(IdentTok(f), p)] + rest)
         == Prepend([FieldAssignment(Ident(f, p), Path(f))], ParseEntries(SkipComma(rest)))
  {
    var short := [Token(IdentTok(f), p)] + rest;
    var long := [Token(IdentTok(f), p), Token(Colon, q), Token(IdentTok(f), s)] + rest;
    assert short[1..] == rest;
    assert long[2..] == [Token(IdentTok(f), s)] + rest;
    assert long[3..] == rest;
  }

  /** Parsing one entry looks no further than the tokens it consumes, and one more that is not `:`. */
  lemma FieldAssignmentStable(toks: seq<Token>, tail: seq<Token>)
    requires ParseFieldAssignment(toks).Ok?
    requires tail == [] || !tail[0].kind.Colon?
    ensures ParseFieldAssignment(toks + tail) == ParseFieldAssignment(toks)
  {
    var all := toks + tail;
    assert all[0] == toks[0];
    if |toks| > 1 {
      assert all[1] == toks[1];
      if toks[1].kind.Colon? {
        assert all[2..][0] == toks[2..][0];
      }
    } else if tail != [] {
      assert all[1] == tail[0];
    }
  }

  // ---------------------------------------------------------------------------
  // Blocks
  // ---------------------------------------------------------------------------

  /** An empty block has no entries. */
  lemma EmptyBlockHasNoEntries()
    ensures ParseEntries([]) == Ok([])
  {
  }

  /**
    The parse of a block that ends in a complete entry (not in a comma),
    followed by more tokens: its entries, then at most one comma is
    dropped, then the entries of the rest. The first entry that fails in
    the rest fails the whole concatenation with that same error.
   */
  lemma {:induction false} ParseConcat(toks: seq<Token>, tail: seq<Token>)
    requires ParseEntries(toks).Ok?
    requires toks != [] && !toks[|toks| - 1].kind.Comma?
    requires tail == [] || !tail[0].kind.Colon?
    ensures ParseEntries(toks + tail) == Prepend(ParseEntries(toks).value, ParseEntries(SkipComma(tail)))
    decreases |toks|
  {
    var n := ParseFieldAssignment(toks).value.1;
    if n == |toks| {
      ParseConcatOneEntry(toks, tail);
    } else {
      FieldAssignmentStable(toks, tail);
      var fa := ParseFieldAssignment(toks).value.0;
      var after := toks[n..];
      var rest := SkipComma(after);
      ParseEntriesStep(toks);
      ParseEntriesStep(toks + tail);
      DropConcat(toks, tail, n);
      RestEndsLikeBody(toks, n);
      SkipCommaConcat(after, tail);
      ParseConcat(rest, tail);
      PrependConcat([fa], ParseEntries(rest).value, ParseEntries(SkipComma(tail)));
    }
  }

  /** `ParseConcat` for a body that is a single entry. */
  lemma ParseConcatOneEntry(toks: seq<Token>, tail: seq<Token>)
    requires toks != [] && ParseFieldAssignment(toks).Ok? && ParseFieldAssignment(toks).value.1 == |toks|
    requires tail == [] || !tail[0].kind.Colon?
    ensures ParseEntries(toks) == Ok([ParseFieldAssignment(toks).value.0])
    ensures ParseEntries(toks + tail) == Prepend([ParseFieldAssignment(toks).value.0], ParseEntries(SkipComma(tail)))
  {
    FieldAssignmentStable(toks, tail);
    var n := |toks|;
    ParseEntriesStep(toks);
    ParseEntriesStep(toks + tail);
    DropConcat(toks, tail, n);
    assert toks[n..] == [] && [] + tail == tail;
    assert [ParseFieldAssignment(toks).value.0] + [] == [ParseFieldAssignment(toks).value.0];
  }

  /** What is left after an entry and its comma, when not empty, ends where the body ends. */
  lemma RestEndsLikeBody(toks: seq<Token>, n: nat)
    requires 1 <= n < |toks| && !toks[|toks| - 1].kind.Comma?
    ensures var rest := SkipComma(toks[n..]);
            rest != [] && rest[|rest| - 1] == toks[|toks| - 1] && |rest| < |toks|
  {
    var after := toks[n..];
    assert after[|after| - 1] == toks[|toks| - 1];
    if after[0].kind.Comma? {
      assert |after| > 1;
      assert SkipComma(after) == after[1..];
      assert after[1..][|after| - 2] == after[|after| - 1];
    } else {
      assert SkipComma(after) == after;
    }
  }

  /** Trailing comma tolerance: `{ ..., f: v, }` parses like `{ ..., f: v }`. */
  lemma TrailingCommaTolerated(toks: seq<Token>, s: Span)
    requires ParseEntries(toks).Ok?
    requires toks != [] && !toks[|toks| - 1].kind.Comma?
    ensures ParseEntries(toks + [Token(Comma, s)]) == ParseEntries(toks)
  {
    ParseConcat(toks, [Token(Comma, s)]);
    assert ParseEntries(toks).value + [] == ParseEntries(toks).value;
  }

  /**
    A doubled comma after an entry fails, wherever it stands and whatever
    follows it: an identifier is expected at the second comma.
   */
  lemma DoubledCommaRejected(toks: seq<Token>, s: Span, t: Span, more: seq<Token>)
    requires ParseEntries(toks).Ok?
    requires toks != [] && !toks[|toks| - 1].kind.Comma?
    ensures ParseEntries(toks + ([Token(Comma, s), Token(Comma, t)] + more)) == Err(SyntaxError(AtToken(t), Identifier))
  {
    var tail := [Token(Comma, s), Token(Comma, t)] + more;
    ParseConcat(toks, tail);
    assert SkipComma(tail) == [Token(Comma, t)] + more;
  }

  /** A leading comma fails: an identifier is expected at it. */
  lemma LeadingCommaRejected(s: Span, rest: seq<Token>)
    ensures ParseEntries([Token(Comma, s)] + rest) == Err(SyntaxError(AtToken(s), Identifier))
  {
  }

  /** Two blocks joined by a comma parse to the entries of both, in source order. */
  lemma CommaSeparatedEntries(toks: seq<Token>, s: Span, more: seq<Token>)
    requires ParseEntries(toks).Ok? && ParseEntries(more).Ok?
    requires toks != [] && !toks[|toks| - 1].kind.Comma?
    ensures ParseEntries(toks + [Token(Comma, s)] + more) == Ok(ParseEntries(toks).value + ParseEntries(more).value)
  {
    var tail := [Token(Comma, s)] + more;
    assert toks + [Token(Comma, s)] + more == toks + tail;
    ParseConcat(toks, tail);
    assert SkipComma(tail) == more;
  }

  /**
    The comma is not required between entries: a block followed directly by
    an entry that starts with an identifier parses to the entries of both.
   */
  lemma SeparatorOptional(toks: seq<Token>, more: seq<Token>)
    requires ParseEntries(toks).Ok? && ParseEntries(more).Ok?
    requires toks != [] && !toks[|toks| - 1].kind.Comma?
    requires more != [] && more[0].kind.IdentTok?
    ensures ParseEntries(toks + more) == Ok(ParseEntries(toks).value + ParseEntries(more).value)
  {
    ParseConcat(toks, more);
  }

  /**
    A malformed entry aborts the whole block: whatever parsed before it, the
    result is that entry's error and no partial list.
   */
  lemma FailureAbortsBlock(toks: seq<Token>, tail: seq<Token>)
    requires ParseEntries(toks).Ok?
    requires toks != [] && !toks[|toks| - 1].kind.Comma?
    requires tail == [] || !tail[0].kind.Colon?
    requires ParseEntries(SkipComma(tail)).Err?
    ensures ParseEntries(toks + tail) == ParseEntries(SkipComma(tail))
  {
    ParseConcat(toks, tail);
  }

  // ---------------------------------------------------------------------------
  // Emission
  // ---------------------------------------------------------------------------

  /** One step of `ParseEntries` on a body whose first entry parses. */
  lemma ParseEntriesStep(toks: seq<Token>)
    requires toks != [] && ParseFieldAssignment(toks).Ok?
    ensures ParseEntries(toks)
         == Prepend([ParseFieldAssignment(toks).value.0], ParseEntries(SkipComma(toks[ParseFieldAssignment(toks).value.1..])))
  {
  }

  /** Skipping a comma drops at most the first token and keeps the rest as it is. */
  lemma SkipCommaKeepsRest(toks: seq<Token>)
    ensures |toks| - |SkipComma(toks)| <= 1
    ensures SkipComma(toks) == toks[|toks| - |SkipComma(toks)|..]
  {
  }

  lemma DropConcat(a: seq<Token>, b: seq<Token>, n: nat)
    requires n <= |a|
    ensures (a + b)[n..] == a[n..] + b
  {
  }

  lemma SkipCommaConcat(a: seq<Token>, b: seq<Token>)
    requires a != []
    ensures SkipComma(a + b) == SkipComma(a) + b
  {
    assert (a + b)[0] == a[0];
    if a[0].kind.Comma? {
      assert (a + b)[1..] == a[1..] + b;
    }
  }

  lemma PrependConcat(first: seq<FieldAssignment>, es: seq<FieldAssignment>, r: Result<seq<FieldAssignment>, Diagnostic>)
    ensures Prepend(first, Prepend(es, r)) == Prepend(first + es, r)
  {
    if r.Ok? {
      assert first + (es + r.value) == (first + es) + r.value;
    }
  }

  lemma {:induction false} ReverseAt<T>(s: seq<T>, k: nat)
    requires k < |s|
    ensures Reverse(s)[k] == s[|s| - 1 - k]
    decreases |s|
  {
    if k < |s| - 1 {
      ReverseAt(s[1..], k);
    }
  }

  /**
    One fragment per entry, in reverse source order: fragment `i` is the
    assignment or the unknown-field error of the entry `i` places from the
    end. An unknown field does not suppress the fragments of other entries.
   */
  lemma ExpandBlockOnePerEntry(toks: seq<Token>, fields: seq<string>, structIdent: string)
    requires ParseEntries(toks).Ok?
    ensures var es := ParseEntries(toks).value;
            var frags := ExpandBlock(toks, fields, structIdent);
            && |frags| == |es|
            && forall i :: 0 <= i < |es| ==>
                 frags[i] == if es[|es| - 1 - i].field.name in fields
                             then Assign(es[|es| - 1 - i].field.name, es[|es| - 1 - i].value)
                             else CompileError(UnknownField(es[|es| - 1 - i].field, structIdent))
  {
    var es := ParseEntries(toks).value;
    forall i | 0 <= i < |es| ensures Reverse(es)[i] == es[|es| - 1 - i] {
      ReverseAt(es, i);
    }
  }

  /**
    The errors emitted for a block that parses are exactly the unknown-field
    errors of its entries that name undeclared fields.
   */
  lemma UnknownFieldErrors(toks: seq<Token>, fields: seq<string>, structIdent: string, d: Diagnostic)
    requires ParseEntries(toks).Ok?
    ensures CompileError(d) in ExpandBlock(toks, fields, structIdent) <==>
            exists i :: 0 <= i < |ParseEntries(toks).value| && ParseEntries(toks).value[i].field.name !in fields
                        && d == UnknownField(ParseEntries(toks).value[i].field, structIdent)
  {
    var es := ParseEntries(toks).value;
    if CompileError(d) in ExpandBlock(toks, fields, structIdent) {
      ErrorComesFromEntry(es, fields, structIdent, d);
    }
    if exists i :: 0 <= i < |es| && es[i].field.name !in fields && d == UnknownField(es[i].field, structIdent) {
      var i :| 0 <= i < |es| && es[i].field.name !in fields && d == UnknownField(es[i].field, structIdent);
      EntryGivesError(es, fields, structIdent, i);
    }
  }

  lemma ErrorComesFromEntry(es: seq<FieldAssignment>, fields: seq<string>, structIdent: string, d: Diagnostic)
    requires CompileError(d) in EmitAll(Reverse(es), fields, structIdent)
    ensures exists i :: 0 <= i < |es| && es[i].field.name !in fields && d == UnknownField(es[i].field, structIdent)
  {
    var r := Reverse(es);
    var frags := EmitAll(r, fields, structIdent);
    var j :| 0 <= j < |frags| && frags[j] == CompileError(d);
    assert Emit(r[j], fields, structIdent) == CompileError(d);
    ReverseAt(es, j);
    var i := |es| - 1 - j;
    assert es[i].field.name !in fields && d == UnknownField(es[i].field, structIdent);
  }

  lemma EntryGivesError(es: seq<FieldAssignment>, fields: seq<string>, structIdent: string, i: nat)
    requires i < |es| && es[i].field.name !in fields
    ensures CompileError(UnknownField(es[i].field, structIdent)) in EmitAll(Reverse(es), fields, structIdent)
  {
    var j := |es| - 1 - i;
    ReverseAt(es, j);
    assert EmitAll(Reverse(es), fields, structIdent)[j] == Emit(es[i], fields, structIdent);
  }

  /** A block that does not parse emits its syntax error and nothing else. */
  lemma SyntaxErrorIsWholeOutput(toks: seq<Token>, fields: seq<string>, structIdent: string)
    requires ParseEntries(toks).Err?
    ensures ExpandBlock(toks, fields, structIdent) == [CompileError(ParseEntries(toks).error)]
    ensures ParseEntries(toks).error.SyntaxError?
  {
    SyntaxErrorsOnly(toks);
  }

  /** The only errors the parser itself reports are syntax errors. */
  lemma {:induction false} SyntaxErrorsOnly(toks: seq<Token>)
    ensures ParseEntries(toks).Err? ==> ParseEntries(toks).error.SyntaxError?
    decreases |toks|
  {
    if toks != [] && ParseFieldAssignment(toks).Ok? {
      var (fa, n) := ParseFieldAssignment(toks).value;
      SyntaxErrorsOnly(SkipComma(toks[n..]));
    }
  }

  /**
    The struct's name is used only in diagnostics: expanding the same body
    for another struct name gives the same fragments, except that each
    unknown-field error names the other struct.
   */
  lemma StructNameOnlyInDiagnostics(toks: seq<Token>, fields: seq<string>, s1: string, s2: string)
    ensures var f1 := ExpandBlock(toks, fields, s1);
            var f2 := ExpandBlock(toks, fields, s2);
            && |f1| == |f2|
            && forall i :: 0 <= i < |f1| ==>
                 f2[i] == if f1[i].CompileError? && f1[i].diag.UnknownField?
                          then CompileError(UnknownField(f1[i].diag.field, s2))
                          else f1[i]
  {
    if ParseEntries(toks).Ok? {
      ExpandBlockOnePerEntry(toks, fields, s1);
      ExpandBlockOnePerEntry(toks, fields, s2);
    } else {
      SyntaxErrorsOnly(toks);
    }
  }

  /**
    The unknown-field message names the field at offset 7 and the struct
    right after "' does not exist in struct '".
   */
  lemma UnknownFieldMessageNamesBoth(f: Ident, structIdent: string)
    ensures var m := UnknownField(f, structIdent).Message();
            && |m| == |f.name| + |structIdent| + 37
            && m[..7] == "Field '"
            && m[7..7 + |f.name|] == f.name
            && m[7 + |f.name|..35 + |f.name|] == "' does not exist in struct '"
            && m[35 + |f.name|..35 + |f.name| + |structIdent|] == structIdent
  {
    var a, b, c := "Field '", "' does not exist in struct '", "'.";
    var m := a + f.name + b + structIdent + c;
    assert UnknownField(f, structIdent).Message() == m;
    assert |a| == 7 && |b| == 28;
    var m1 := a + f.name;
    var m2 := m1 + b;
    var m3 := m2 + structIdent;
    assert m == m3 + c;
    assert m[..|m3|] == m3 && m3[..|m2|] == m2 && m2[..|m1|] == m1;
    assert m[..7] == m1[..7] == a;
    assert m[7..7 + |f.name|] == m1[7..] == f.name;
    assert m[|m1|..|m2|] == m2[|m1|..] == b;
    assert m[|m2|..|m3|] == m3[|m2|..] == structIdent;
  }
}
