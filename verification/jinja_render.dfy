/** `render_template_string`: the template's first `{{ … }}` match is
    resolved, through `parse_replace`, into a variable's value or a
    function's result, every copy of the matched text is replaced by it, and
    rendering stops there; later placeholders are left as they are. */
module JinjaRender {
  import opened Wrappers
  import opened Bytes
  import opened StrReplace
  import opened JinjaPattern
  import opened JinjaParse
  import opened Widening

  /** `JinjaFunction`: the literal arguments in, the replacement text out. */
  type JinjaFunction = seq<Bytes> -> Bytes
  type Variables = map<Bytes, Bytes>
  type Functions = map<Bytes, JinjaFunction>

  function RenderTemplateString(template: Bytes, variables: Variables, functions: Option<Functions>): Outcome<Bytes> {
    match FindMatch(template)
    case None => Done(template)
    case Some(m) =>
      var varname := Capture(template, m);
      var span := Span(template, m);
      var rep :- ParseReplace(varname);
      if rep.isFunction then
        if functions.None? || rep.name !in functions.value then Error(NoSuchFunction)
        else Done(ReplaceAll(template, span, functions.value[rep.name](rep.args)))
      else if varname !in variables then Error(NoSuchVariable)
      else Done(ReplaceAll(template, span, variables[varname]))
  }

  /** What replacing the first match's text by `value` leaves: the text
      before the match, `value`, and the rest of the template with the same
      text replaced again wherever it recurs. */
  function Resolved(t: Bytes, m: Match, value: Bytes): Bytes
    requires MatchAt(t, m.start, m.close)
  {
    t[..m.start] + value + ReplaceAll(t[m.close + 3..], Span(t, m), value)
  }

  /** Replacing every copy of the first match's text keeps everything before
      the match. */
  lemma ReplaceFromMatch(t: Bytes, m: Match, value: Bytes)
    requires FirstMatch(t, m)
    ensures ReplaceAll(t, Span(t, m), value) == Resolved(t, m, value)
  {
    var span := Span(t, m);
    assert OccursAt(t, span, m.start);
    forall k | 0 <= k < m.start ensures !OccursAt(t, span, k) {
      SpanFirstOccurrence(t, m, k);
    }
    ReplaceFirst(t, span, value, m.start);
  }

  /** A template with no match renders to itself. */
  lemma RenderNoMatch(t: Bytes, variables: Variables, functions: Option<Functions>)
    requires forall i: nat, j: nat :: !MatchAt(t, i, j)
    ensures RenderTemplateString(t, variables, functions) == Done(t)
  {
  }

  /** A syntax error or the `todo!()` in the first placeholder's text is
      the outcome, whatever the variables and functions. */
  lemma RenderParseFails(t: Bytes, m: Match, variables: Variables, functions: Option<Functions>)
    requires FirstMatch(t, m) && !ParseReplace(Capture(t, m)).Done?
    ensures ParseReplace(Capture(t, m)).Error? ==>
              RenderTemplateString(t, variables, functions) == Error(ParseReplace(Capture(t, m)).error)
    ensures ParseReplace(Capture(t, m)).Unimplemented? ==>
              RenderTemplateString(t, variables, functions) == Unimplemented
  {
    FirstMatchUnique(t, m);
  }

  /** A first placeholder without `(` is a variable looked up by its whole
      text: a missing key is `NoSuchVariable`, a present one replaces every
      copy of the placeholder. */
  lemma RenderVariable(t: Bytes, m: Match, variables: Variables, functions: Option<Functions>)
    requires FirstMatch(t, m) && LPAREN !in Capture(t, m)
    ensures Capture(t, m) !in variables ==>
              RenderTemplateString(t, variables, functions) == Error(NoSuchVariable)
    ensures Capture(t, m) in variables ==>
              RenderTemplateString(t, variables, functions) == Done(Resolved(t, m, variables[Capture(t, m)]))
  {
    FirstMatchUnique(t, m);
    ParseVariable(Capture(t, m));
    if Capture(t, m) in variables {
      ReplaceFromMatch(t, m, variables[Capture(t, m)]);
    }
  }

  /** A first placeholder that parses as a call: without a function table,
      or with a name it lacks, the outcome is `NoSuchFunction`; otherwise the
      function's result on the literals replaces every copy of the
      placeholder. */
  lemma RenderCall(t: Bytes, m: Match, name: Bytes, args: seq<Bytes>, variables: Variables, functions: Option<Functions>)
    requires FirstMatch(t, m) && ParseReplace(Capture(t, m)) == Done(Replacement(true, name, args))
    ensures functions.None? || name !in functions.value ==>
              RenderTemplateString(t, variables, functions) == Error(NoSuchFunction)
    ensures functions.Some? && name in functions.value ==>
              RenderTemplateString(t, variables, functions) == Done(Resolved(t, m, functions.value[name](args)))
  {
    FirstMatchUnique(t, m);
    if functions.Some? && name in functions.value {
      ReplaceFromMatch(t, m, functions.value[name](args));
    }
  }

  /** A template that is one variable placeholder renders to its value. */
  lemma RenderWholeVariable(x: Bytes, variables: Variables, functions: Option<Functions>)
    requires LF !in x && LPAREN !in x && x in variables
    ensures RenderTemplateString(OPEN + x + CLOSE, variables, functions) == Done(variables[x])
  {
    var t := OPEN + x + CLOSE;
    var m := Match(0, |x| + 3);
    assert t + [] == t;
    LeadingMatch(x, []);
    RenderVariable(t, m, variables, functions);
    assert t[m.close + 3..] == [];
    assert t[..0] + variables[x] + [] == variables[x];
  }

  /** `test_jinja_variable`: `{{ variable }}` with `variable` set to
      `works` renders to `works`. */
  lemma TestJinjaVariable()
    ensures RenderTemplateString(OPEN + Ascii("variable") + CLOSE, map[Ascii("variable") := Ascii("works")], None)
            == Done(Ascii("works"))
  {
    var x := Ascii("variable");
    assert LF !in x && LPAREN !in x;
    RenderWholeVariable(x, map[x := Ascii("works")], None);
  }

  /** A template that is one call placeholder renders to the function's
      result, or fails as the call's text does. */
  lemma RenderWholeCall(x: Bytes, name: Bytes, args: seq<Bytes>, variables: Variables, functions: Functions)
    requires LF !in x && ParseReplace(x) == Done(Replacement(true, name, args)) && name in functions
    ensures RenderTemplateString(OPEN + x + CLOSE, variables, Some(functions)) == Done(functions[name](args))
  {
    var t := OPEN + x + CLOSE;
    var m := Match(0, |x| + 3);
    assert t + [] == t;
    LeadingMatch(x, []);
    RenderCall(t, m, name, args, variables, Some(functions));
    assert t[m.close + 3..] == [];
    assert t[..0] + functions[name](args) + [] == functions[name](args);
  }

  /** A template that is one placeholder whose text reaches the `todo!()`. */
  lemma RenderWholeUnimplemented(x: Bytes, variables: Variables, functions: Option<Functions>)
    requires LF !in x && ParseReplace(x) == Unimplemented
    ensures RenderTemplateString(OPEN + x + CLOSE, variables, functions) == Unimplemented
  {
    var t := OPEN + x + CLOSE;
    assert t + [] == t;
    LeadingMatch(x, []);
    RenderParseFails(t, Match(0, |x| + 3), variables, functions);
  }

  /** `function()` is a call of `function` with no arguments. */
  lemma ParseFunctionNoArgs()
    ensures ParseReplace(Ascii("function()")) == Done(Replacement(true, Ascii("function"), []))
  {
    var name := Ascii("function");
    assert Ascii("function()") == name + [LPAREN, RPAREN];
    assert LPAREN !in name && IsAscii(name);
    ParseNoArgs(name);
  }

  /** `name()` for an ASCII name without `(` calls `name` with no
      arguments. */
  lemma ParseNoArgs(name: Bytes)
    requires |name| > 0 && IsAscii(name) && LPAREN !in name
    ensures ParseReplace(name + [LPAREN, RPAREN]) == Done(Replacement(true, name, []))
  {
    assert name + [LPAREN] + (ArgList([]) + [RPAREN] + []) == name + [LPAREN, RPAREN];
    ParseCallArgs(name, [], []);
    WidenAscii(name);
  }

  /** `test_jinja_function_no_args`: `{{ function() }}` renders to the
      registered function's result on no arguments. */
  lemma TestJinjaFunctionNoArgs(f: JinjaFunction)
    ensures RenderTemplateString(OPEN + Ascii("function()") + CLOSE, map[], Some(map[Ascii("function") := f]))
            == Done(f([]))
  {
    var name := Ascii("function");
    assert Ascii("function()") == name + [LPAREN, RPAREN];
    assert LPAREN !in name && LF !in name && IsAscii(name);
    RenderNoArgs(name, f);
  }

  /** `{{ name() }}` renders to `name`'s result on no arguments. */
  lemma RenderNoArgs(name: Bytes, f: JinjaFunction)
    requires |name| > 0 && IsAscii(name) && LPAREN !in name && LF !in name
    ensures RenderTemplateString(OPEN + (name + [LPAREN, RPAREN]) + CLOSE, map[], Some(map[name := f])) == Done(f([]))
  {
    ParseNoArgs(name);
    assert LF !in name + [LPAREN, RPAREN];
    RenderWholeCall(name + [LPAREN, RPAREN], name, [], map[], map[name := f]);
  }

  /** Three literals, separated as the test writes them, then a bare
      identifier: each comma goes to the back of the queue, and the
      identifier reaches the `todo!()`. */
  lemma ThreeLiteralsThenIdentifier(a: Bytes, b: Bytes, c: Bytes, ident: Bytes, w: Bytes)
    requires QUOTE !in a && QUOTE !in b && QUOTE !in c
    requires |ident| > 0 && ident[0] != QUOTE && ident[0] != RPAREN && ident[0] != COMMA && ident[0] != SP
    ensures ArgLoop(Quoted(a) + [COMMA, SP] + Quoted(b) + [COMMA] + Quoted(c) + [COMMA, SP] + ident, w, []) == Unimplemented
  {
    var t0 := [SP] + Quoted(b) + [COMMA] + Quoted(c) + [COMMA, SP] + ident;
    var q1 := Quoted(b) + ([COMMA] + (Quoted(c) + [COMMA, SP] + ident + [COMMA]));
    calc {
      ArgLoop(Quoted(a) + [COMMA, SP] + Quoted(b) + [COMMA] + Quoted(c) + [COMMA, SP] + ident, w, []);
      { assert Quoted(a) + [COMMA, SP] + Quoted(b) + [COMMA] + Quoted(c) + [COMMA, SP] + ident == Quoted(a) + ([COMMA] + t0); }
      ArgLoop(Quoted(a) + ([COMMA] + t0), w, []);
      { LiteralThenComma(a, t0, w, []); }
      ArgLoop(t0 + [COMMA], w, [] + [Widen(a)]);
      { assert t0 + [COMMA] == [SP] + q1; SkipSpace(q1, w, [] + [Widen(a)]); }
      ArgLoop(q1, w, [] + [Widen(a)]);
      { MiddleLiteral(b, c, ident, w, [] + [Widen(a)]); }
      Unimplemented;
    }
  }

  /** The second literal: its comma goes to the back, after the first one. */
  lemma MiddleLiteral(b: Bytes, c: Bytes, ident: Bytes, w: Bytes, acc: seq<Bytes>)
    requires QUOTE !in b && QUOTE !in c
    requires |ident| > 0 && ident[0] != QUOTE && ident[0] != RPAREN && ident[0] != COMMA && ident[0] != SP
    ensures ArgLoop(Quoted(b) + ([COMMA] + (Quoted(c) + [COMMA, SP] + ident + [COMMA])), w, acc) == Unimplemented
  {
    var tail := Quoted(c) + [COMMA, SP] + ident + [COMMA];
    LiteralThenComma(b, tail, w, acc);
    RegroupCommas(Quoted(c), ident);
    LastLiteral(c, ident, w, acc + [Widen(b)]);
  }

  lemma RegroupCommas(x: Bytes, y: Bytes)
    ensures x + [COMMA, SP] + y + [COMMA] + [COMMA] == x + ([COMMA] + ([SP] + y + [COMMA, COMMA]))
  {
  }

  /** The third literal, then the identifier with the three commas behind
      it. */
  lemma LastLiteral(c: Bytes, ident: Bytes, w: Bytes, acc: seq<Bytes>)
    requires QUOTE !in c
    requires |ident| > 0 && ident[0] != QUOTE && ident[0] != RPAREN && ident[0] != COMMA && ident[0] != SP
    ensures ArgLoop(Quoted(c) + ([COMMA] + ([SP] + ident + [COMMA, COMMA])), w, acc) == Unimplemented
  {
    LiteralThenComma(c, [SP] + ident + [COMMA, COMMA], w, acc);
    SpaceThenIdentifier(ident, w, acc + [Widen(c)]);
  }

  /** A space, then a bare identifier, reaches the `todo!()`. */
  lemma SpaceThenIdentifier(ident: Bytes, w: Bytes, acc: seq<Bytes>)
    requires |ident| > 0 && ident[0] != QUOTE && ident[0] != RPAREN && ident[0] != COMMA && ident[0] != SP
    ensures ArgLoop([SP] + ident + [COMMA, COMMA] + [COMMA], w, acc) == Unimplemented
  {
    var q3 := ident + [COMMA, COMMA, COMMA];
    assert [SP] + ident + [COMMA, COMMA] + [COMMA] == [SP] + q3;
    SkipSpace(q3, w, acc);
    assert q3 == [ident[0]] + q3[1..];
    BareIdentifier(ident[0], q3[1..], w, acc);
  }

  /** The placeholder text of `test_jinja_function_args`,
      `function("works", "blah","hah", variable)`. */
  function FunctionArgsText(): Bytes {
    Ascii("function") + [LPAREN]
    + (Quoted(Ascii("works")) + [COMMA, SP] + Quoted(Ascii("blah")) + [COMMA] + Quoted(Ascii("hah"))
       + [COMMA, SP] + Ascii("variable)"))
  }

  /** That text reaches the `todo!()` at its bare `variable`. */
  lemma ParseFunctionArgs()
    ensures ParseReplace(FunctionArgsText()) == Unimplemented
  {
    var name := Ascii("function");
    var works, blah, hah := Ascii("works"), Ascii("blah"), Ascii("hah");
    var ident := Ascii("variable)");
    var q := Quoted(works) + [COMMA, SP] + Quoted(blah) + [COMMA] + Quoted(hah) + [COMMA, SP] + ident;
    assert LPAREN !in name && QUOTE !in works && QUOTE !in blah && QUOTE !in hah;
    ParseCall(name, q);
    ThreeLiteralsThenIdentifier(works, blah, hah, ident, Widen(name));
  }

  /** That text holds no newline. */
  lemma FunctionArgsSingleLine()
    ensures LF !in FunctionArgsText()
  {
  }

  /** `test_jinja_function_args`: a bare identifier among the arguments
      reaches the `todo!()`, whatever the variables and functions (the test
      passes `variable` and `function`). */
  lemma TestJinjaFunctionArgs(variables: Variables, functions: Option<Functions>)
    ensures RenderTemplateString(OPEN + FunctionArgsText() + CLOSE, variables, functions) == Unimplemented
  {
    ParseFunctionArgs();
    FunctionArgsSingleLine();
    RenderWholeUnimplemented(FunctionArgsText(), variables, functions);
  }

  /** Rendering returns after the first placeholder: with `a` and `b` both
      set, `{{ a }}` LF `{{ b }}` renders to `a`'s value, LF, and `{{ b }}`
      untouched. */
  lemma OnlyFirstPlaceholder()
    ensures var a, b := Ascii("a"), Ascii("b");
            RenderTemplateString(OPEN + a + CLOSE + ([LF] + OPEN + b + CLOSE),
                                 map[a := Ascii("1"), b := Ascii("2")], None)
            == Done(Ascii("1") + ([LF] + OPEN + b + CLOSE))
  {
    var a, b := Ascii("a"), Ascii("b");
    var rest := [LF] + OPEN + b + CLOSE;
    var t := OPEN + a + CLOSE + rest;
    var m := Match(0, 4);
    var vars := map[a := Ascii("1"), b := Ascii("2")];
    LeadingMatch(a, rest);
    RenderVariable(t, m, vars, None);
    assert t[..0] == [] && t[7..] == rest;
    SecondLineLacksFirst(a, b);
    ReplaceAbsent(rest, OPEN + a + CLOSE, Ascii("1"));
  }

  /** `{{ a }}` does not occur in an LF followed by `{{ b }}`. */
  lemma SecondLineLacksFirst(a: Bytes, b: Bytes)
    requires a == Ascii("a") && b == Ascii("b")
    ensures var rest, span := [LF] + OPEN + b + CLOSE, OPEN + a + CLOSE;
            forall k :: 0 <= k <= |rest| ==> !OccursAt(rest, span, k)
  {
    var rest, span := [LF] + OPEN + b + CLOSE, OPEN + a + CLOSE;
    forall k | 0 <= k <= |rest| ensures !OccursAt(rest, span, k) {
      if k == 1 {
        assert rest[1..8][3] != span[3];
      } else if k == 0 {
        assert rest[0..7][0] != span[0];
      }
    }
  }

  /** The capture is greedy: in `{{ a }} {{ b }}` it runs from the first
      `{{ ` to the last ` }}`, so it is the text `a }} {{ b`, which is no
      variable even when `a` and `b` are. */
  lemma GreedyCapture()
    ensures var a, b := Ascii("a"), Ascii("b");
            RenderTemplateString(OPEN + a + CLOSE + [SP] + OPEN + b + CLOSE,
                                 map[a := Ascii("1"), b := Ascii("2")], None)
            == Error(NoSuchVariable)
  {
    var a, b := Ascii("a"), Ascii("b");
    var x := a + CLOSE + [SP] + OPEN + b;
    var t := OPEN + x + CLOSE;
    assert t == OPEN + a + CLOSE + [SP] + OPEN + b + CLOSE;
    assert LF !in x && LPAREN !in x;
    assert t + [] == t;
    LeadingMatch(x, []);
    var vars := map[a := Ascii("1"), b := Ascii("2")];
    assert x != a && x != b;
    RenderVariable(t, Match(0, |x| + 3), vars, None);
  }
}
