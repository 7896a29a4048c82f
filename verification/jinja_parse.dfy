/** `parse_replace`: the scanner that reads the text between `{{ ` and ` }}`
    off a byte queue. Text without `(` is a variable; otherwise the bytes
    before the first `(` name a function, and the argument list holds
    double-quoted string literals separated by commas and spaces. Each byte
    a literal or the name collects is pushed onto a `String` as the `char`
    with that code point, so a byte of 0x80 or more comes out as its
    two-byte UTF-8 encoding. */
module JinjaParse {
  import opened Wrappers
  import opened Bytes
  import opened Widening

  /** `JinjaError`. The regex-compilation failure inside
      `InternalJinjaError` carries no data here. */
  datatype JinjaError =
    | InternalJinjaError
    | TemplateNotFound
    | NoSuchVariable
    | NoSuchFunction
    | SyntaxError(message: string)
    | Other(message: string)

  /** How a Jinja step ends: a value, an error, or the `todo!()` panic that
      a bare identifier in an argument list reaches. */
  datatype Outcome<+T> = Done(value: T) | Error(error: JinjaError) | Unimplemented {
    predicate IsFailure() {
      !Done?
    }

    function PropagateFailure<U>(): Outcome<U>
      requires !Done?
    {
      if Error? then Error(error) else Unimplemented
    }

    function Extract(): T
      requires Done?
    {
      value
    }
  }

  /** The `(is_function, function_name, function_args)` triple. */
  datatype Replacement = Replacement(isFunction: bool, name: Bytes, args: seq<Bytes>)

  const NO_NAME: string := "Function call with no name"
  const UNCLOSED_PARENS: string := "Unclosed parentheses"
  const UNCLOSED_LITERAL: string := "Unclosed string literal"

  /** The message for a byte other than `,` or `)` after a closing quote; the
      byte is shown as the `char` with its code point. */
  function UnexpectedAfterLiteral(b: byte): string {
    "Expected comma or closing parentheses, got \"" + [(b as int) as char] + "\""
  }

  function ParseReplace(varname: Bytes): Outcome<Replacement> {
    NameLoop(varname, [])
  }

  /** The outer loop: collect the name up to `(`. */
  function NameLoop(queue: Bytes, name: Bytes): Outcome<Replacement>
    decreases |queue|
  {
    if |queue| == 0 then Done(Replacement(false, [], []))
    else if queue[0] == LPAREN then
      if name == [] then Error(SyntaxError(NO_NAME)) else ArgLoop(queue[1..], name, [])
    else NameLoop(queue[1..], name + Latin1(queue[0]))
  }

  /** The string-literal loop, after the opening quote: the literal and the
      bytes after its closing quote, or `None` when the queue runs out. */
  function LiteralLoop(queue: Bytes, lit: Bytes): (r: Option<(Bytes, Bytes)>)
    ensures r.Some? ==> |r.value.1| < |queue|
    decreases |queue|
  {
    if |queue| == 0 then None
    else if queue[0] == QUOTE then Some((lit, queue[1..]))
    else LiteralLoop(queue[1..], lit + Latin1(queue[0]))
  }

  /** The argument loop, after `(`. A comma after a literal is pushed onto
      the back of the queue, where the loop skips it once it gets there. */
  function ArgLoop(queue: Bytes, name: Bytes, args: seq<Bytes>): Outcome<Replacement>
    decreases |queue|
  {
    if |queue| == 0 then Error(SyntaxError(UNCLOSED_PARENS))
    else if queue[0] == QUOTE then
      match LiteralLoop(queue[1..], [])
      case None => Error(SyntaxError(UNCLOSED_LITERAL))
      case Some((lit, after)) =>
        if |after| == 0 then Error(SyntaxError(UNCLOSED_PARENS))
        else if after[0] == COMMA then ArgLoop(after[1..] + [COMMA], name, args + [lit])
        else if after[0] == RPAREN then Done(Replacement(true, name, args + [lit]))
        else Error(SyntaxError(UnexpectedAfterLiteral(after[0])))
    else if queue[0] == RPAREN then Done(Replacement(true, name, args))
    else if queue[0] == COMMA || queue[0] == SP then ArgLoop(queue[1..], name, args)
    else Unimplemented
  }

  /** The name loop stops at the first `(`: without one the text is a
      variable, with one at the front it is an error, and otherwise the
      bytes before it name the function. */
  lemma {:induction false} NameLoopSpec(queue: Bytes, name: Bytes)
    ensures var k := IndexOf(queue, LPAREN);
            var full := name + Widen(queue[..k]);
            && (k == |queue| ==> NameLoop(queue, name) == Done(Replacement(false, [], [])))
            && (k < |queue| && full == [] ==> NameLoop(queue, name) == Error(SyntaxError(NO_NAME)))
            && (k < |queue| && full != [] ==> NameLoop(queue, name) == ArgLoop(queue[k + 1..], full, []))
    decreases |queue|
  {
    if |queue| > 0 && queue[0] != LPAREN {
      var q := queue[1..];
      NameLoopSpec(q, name + Latin1(queue[0]));
      var k := IndexOf(q, LPAREN);
      if k < |q| {
        CollectStep(queue, name, k);
      }
    } else if |queue| > 0 {
      assert queue[..0] == [] && name + [] == name;
    }
  }

  /** One byte taken off the front of the queue and widened onto `acc`. */
  lemma CollectStep(queue: Bytes, acc: Bytes, k: nat)
    requires k < |queue| - 1
    ensures acc + Widen(queue[..k + 1]) == acc + Latin1(queue[0]) + Widen(queue[1..][..k])
    ensures queue[k + 2..] == queue[1..][k + 1..]
  {
    assert queue[..k + 1] == [queue[0]] + queue[1..][..k];
  }

  /** Text without `(` is a variable, whatever else it holds. */
  lemma ParseVariable(varname: Bytes)
    requires LPAREN !in varname
    ensures ParseReplace(varname) == Done(Replacement(false, [], []))
  {
    NameLoopSpec(varname, []);
  }

  /** A `(` before any name byte is a syntax error. */
  lemma ParseNoName(varname: Bytes)
    requires |varname| > 0 && varname[0] == LPAREN
    ensures ParseReplace(varname) == Error(SyntaxError(NO_NAME))
  {
  }

  /** Text with a name before its first `(` is a call of that name, whose
      arguments the argument loop reads from after the `(`. */
  lemma ParseCall(name: Bytes, rest: Bytes)
    requires |name| > 0 && LPAREN !in name
    ensures ParseReplace(name + [LPAREN] + rest) == ArgLoop(rest, Widen(name), [])
  {
    var v := name + [LPAREN] + rest;
    NameLoopSpec(v, []);
    IndexOfPrefix(name, LPAREN, rest);
    assert v[..|name|] == name && v[|name| + 1..] == rest;
    WidenEmpty(name);
    assert [] + Widen(name) == Widen(name);
  }

  /** The literal is everything up to the next quote. */
  lemma {:induction false} LiteralLoopSpec(queue: Bytes, lit: Bytes)
    ensures var k := IndexOf(queue, QUOTE);
            && (k == |queue| ==> LiteralLoop(queue, lit) == None)
            && (k < |queue| ==> LiteralLoop(queue, lit) == Some((lit + Widen(queue[..k]), queue[k + 1..])))
    decreases |queue|
  {
    if |queue| > 0 && queue[0] != QUOTE {
      var q := queue[1..];
      LiteralLoopSpec(q, lit + Latin1(queue[0]));
      var k := IndexOf(q, QUOTE);
      if k < |q| {
        CollectStep(queue, lit, k);
      }
    } else if |queue| > 0 {
      assert queue[..0] == [] && lit + [] == lit;
    }
  }

  /** A literal without quotes inside, then its closing quote. */
  lemma LiteralRead(a: Bytes, after: Bytes)
    requires QUOTE !in a
    ensures LiteralLoop(a + [QUOTE] + after, []) == Some((Widen(a), after))
  {
    LiteralLoopSpec(a + [QUOTE] + after, []);
    IndexOfPrefix(a, QUOTE, after);
    assert (a + [QUOTE] + after)[..|a|] == a;
    assert (a + [QUOTE] + after)[|a| + 1..] == after;
    assert [] + Widen(a) == Widen(a);
  }

  function Quoted(a: Bytes): Bytes {
    [QUOTE] + a + [QUOTE]
  }

  /** String literals written as `"a", "b", …`. */
  function ArgList(args: seq<Bytes>): Bytes
    decreases |args|
  {
    if |args| == 0 then []
    else if |args| == 1 then Quoted(args[0])
    else Quoted(args[0]) + [COMMA, SP] + ArgList(args[1..])
  }

  predicate QuoteFree(args: seq<Bytes>) {
    forall i :: 0 <= i < |args| ==> QUOTE !in args[i]
  }

  function WidenEach(args: seq<Bytes>): (r: seq<Bytes>)
    ensures |r| == |args| && forall i :: 0 <= i < |args| ==> r[i] == Widen(args[i])
  {
    seq(|args|, i requires 0 <= i < |args| => Widen(args[i]))
  }

  /** A literal followed by a comma: the comma goes to the back of the queue. */
  lemma LiteralThenComma(a: Bytes, tail: Bytes, name: Bytes, acc: seq<Bytes>)
    requires QUOTE !in a
    ensures ArgLoop(Quoted(a) + ([COMMA] + tail), name, acc) == ArgLoop(tail + [COMMA], name, acc + [Widen(a)])
  {
    LiteralRead(a, [COMMA] + tail);
    assert Quoted(a) + ([COMMA] + tail) == [QUOTE] + (a + [QUOTE] + ([COMMA] + tail));
  }

  /** A literal followed by `)` ends the call. */
  lemma LiteralThenClose(a: Bytes, tail: Bytes, name: Bytes, acc: seq<Bytes>)
    requires QUOTE !in a
    ensures ArgLoop(Quoted(a) + ([RPAREN] + tail), name, acc) == Done(Replacement(true, name, acc + [Widen(a)]))
  {
    LiteralRead(a, [RPAREN] + tail);
    assert Quoted(a) + ([RPAREN] + tail) == [QUOTE] + (a + [QUOTE] + ([RPAREN] + tail));
  }

  /** A list of literals and `)` is read into the literals, in order; what
      follows the `)` is never looked at. */
  lemma {:induction false} ArgsRead(args: seq<Bytes>, suffix: Bytes, name: Bytes, acc: seq<Bytes>)
    requires QuoteFree(args)
    ensures ArgLoop(ArgList(args) + ([RPAREN] + suffix), name, acc) == Done(Replacement(true, name, acc + WidenEach(args)))
    decreases |args|
  {
    if |args| <= 1 {
      ArgsReadShort(args, suffix, name, acc);
    } else {
      ArgsStep(args, suffix, name, acc);
      QuoteFreeTail(args);
      ArgsRead(args[1..], suffix + [COMMA], name, acc + [Widen(args[0])]);
      WidenEachCons(args, acc);
    }
  }

  lemma ArgsReadShort(args: seq<Bytes>, suffix: Bytes, name: Bytes, acc: seq<Bytes>)
    requires |args| <= 1 && QuoteFree(args)
    ensures ArgLoop(ArgList(args) + ([RPAREN] + suffix), name, acc) == Done(Replacement(true, name, acc + WidenEach(args)))
  {
    if |args| == 0 {
      assert acc + WidenEach(args) == acc;
    } else {
      LiteralThenClose(args[0], suffix, name, acc);
      assert WidenEach(args) == [Widen(args[0])];
    }
  }

  lemma QuoteFreeTail(args: seq<Bytes>)
    requires |args| > 0 && QuoteFree(args)
    ensures QuoteFree(args[1..])
  {
    forall i | 0 <= i < |args[1..]| ensures QUOTE !in args[1..][i] {
      assert args[1..][i] == args[i + 1];
    }
  }

  lemma WidenEachCons(args: seq<Bytes>, acc: seq<Bytes>)
    requires |args| > 0
    ensures acc + [Widen(args[0])] + WidenEach(args[1..]) == acc + WidenEach(args)
  {
    assert [Widen(args[0])] + WidenEach(args[1..]) == WidenEach(args);
  }

  /** The first of several literals is read, its comma goes to the back of
      the queue, and the space after it is skipped. */
  lemma ArgsStep(args: seq<Bytes>, suffix: Bytes, name: Bytes, acc: seq<Bytes>)
    requires |args| >= 2 && QUOTE !in args[0]
    ensures ArgLoop(ArgList(args) + ([RPAREN] + suffix), name, acc)
            == ArgLoop(ArgList(args[1..]) + ([RPAREN] + (suffix + [COMMA])), name, acc + [Widen(args[0])])
  {
    var rest := ArgList(args[1..]);
    var next := rest + ([RPAREN] + (suffix + [COMMA]));
    var tail := [SP] + rest + ([RPAREN] + suffix);
    ArgListShape(args, suffix);
    LiteralThenComma(args[0], tail, name, acc);
    SkipSpace(next, name, acc + [Widen(args[0])]);
  }

  /** Where the first literal, its comma and the space after it sit in an
      argument list. */
  lemma ArgListShape(args: seq<Bytes>, suffix: Bytes)
    requires |args| >= 2
    ensures var rest := ArgList(args[1..]);
            var tail := [SP] + rest + ([RPAREN] + suffix);
            && ArgList(args) + ([RPAREN] + suffix) == Quoted(args[0]) + ([COMMA] + tail)
            && tail + [COMMA] == [SP] + (rest + ([RPAREN] + (suffix + [COMMA])))
  {
    Regroup(Quoted(args[0]), ArgList(args[1..]), [RPAREN] + suffix, suffix);
  }

  lemma Regroup(q: Bytes, rest: Bytes, close: Bytes, suffix: Bytes)
    requires close == [RPAREN] + suffix
    ensures var tail := [SP] + rest + close;
            && q + [COMMA, SP] + rest + close == q + ([COMMA] + tail)
            && tail + [COMMA] == [SP] + (rest + ([RPAREN] + (suffix + [COMMA])))
  {
    var tail := [SP] + rest + close;
    assert [COMMA, SP] + rest + close == [COMMA] + tail;
  }

  lemma SkipSpace(queue: Bytes, name: Bytes, args: seq<Bytes>)
    ensures ArgLoop([SP] + queue, name, args) == ArgLoop(queue, name, args)
  {
    assert ([SP] + queue)[1..] == queue;
  }

  /** `name("a", "b", …)` is a call of `name` with those literals; bytes
      after the `)` are ignored. */
  lemma ParseCallArgs(name: Bytes, args: seq<Bytes>, suffix: Bytes)
    requires |name| > 0 && LPAREN !in name && QuoteFree(args)
    ensures ParseReplace(name + [LPAREN] + (ArgList(args) + [RPAREN] + suffix))
            == Done(Replacement(true, Widen(name), WidenEach(args)))
  {
    ParseCall(name, ArgList(args) + [RPAREN] + suffix);
    ArgsThenClose(args, suffix, Widen(name));
  }

  /** The argument loop reads a whole argument list and its `)`. */
  lemma ArgsThenClose(args: seq<Bytes>, suffix: Bytes, name: Bytes)
    requires QuoteFree(args)
    ensures ArgLoop(ArgList(args) + [RPAREN] + suffix, name, []) == Done(Replacement(true, name, WidenEach(args)))
  {
    assert ArgList(args) + [RPAREN] + suffix == ArgList(args) + ([RPAREN] + suffix);
    ArgsRead(args, suffix, name, []);
    assert [] + WidenEach(args) == WidenEach(args);
  }

  /** Commas and spaces alone never close the argument list. */
  lemma {:induction false} ArgsUnclosed(queue: Bytes, name: Bytes, args: seq<Bytes>)
    requires forall i :: 0 <= i < |queue| ==> queue[i] == COMMA || queue[i] == SP
    ensures ArgLoop(queue, name, args) == Error(SyntaxError(UNCLOSED_PARENS))
    decreases |queue|
  {
    if |queue| > 0 {
      ArgsUnclosed(queue[1..], name, args);
    }
  }

  /** A literal that the text ends inside. */
  lemma LiteralUnclosed(a: Bytes, name: Bytes, args: seq<Bytes>)
    requires QUOTE !in a
    ensures ArgLoop([QUOTE] + a, name, args) == Error(SyntaxError(UNCLOSED_LITERAL))
  {
    LiteralLoopSpec(a, []);
    assert ([QUOTE] + a)[1..] == a;
  }

  /** A closed literal that the text ends right after. */
  lemma LiteralAtEnd(a: Bytes, name: Bytes, args: seq<Bytes>)
    requires QUOTE !in a
    ensures ArgLoop(Quoted(a), name, args) == Error(SyntaxError(UNCLOSED_PARENS))
  {
    LiteralRead(a, []);
    assert Quoted(a) == [QUOTE] + (a + [QUOTE] + []);
  }

  /** A byte other than `,` or `)` after a closing quote. */
  lemma LiteralThenOther(a: Bytes, b: byte, tail: Bytes, name: Bytes, args: seq<Bytes>)
    requires QUOTE !in a && b != COMMA && b != RPAREN
    ensures ArgLoop(Quoted(a) + ([b] + tail), name, args) == Error(SyntaxError(UnexpectedAfterLiteral(b)))
  {
    LiteralRead(a, [b] + tail);
    assert Quoted(a) + ([b] + tail) == [QUOTE] + (a + [QUOTE] + ([b] + tail));
  }

  /** Any other byte where an argument may start is a bare identifier, which
      the source leaves as `todo!()`. */
  lemma BareIdentifier(b: byte, tail: Bytes, name: Bytes, args: seq<Bytes>)
    requires b != QUOTE && b != RPAREN && b != COMMA && b != SP
    ensures ArgLoop([b] + tail, name, args) == Unimplemented
  {
  }

  /** Every argument list the loop accepts ends at a `)`: a successful parse
      of a call names the function, keeps the arguments read so far, and
      has consumed a `)`. */
  lemma {:induction false} ArgLoopDone(queue: Bytes, name: Bytes, args: seq<Bytes>)
    requires ArgLoop(queue, name, args).Done?
    ensures var r := ArgLoop(queue, name, args).value;
            && r.isFunction && r.name == name
            && |r.args| >= |args| && r.args[..|args|] == args
            && RPAREN in queue
    decreases |queue|
  {
    var r := ArgLoop(queue, name, args).value;
    if queue[0] == QUOTE {
      var o := LiteralLoop(queue[1..], []);
      assert o.Some?;
      var lit, after := o.value.0, o.value.1;
      LiteralAfter(queue, lit, after);
      if after[0] == COMMA {
        var q := after[1..] + [COMMA];
        assert ArgLoop(queue, name, args) == ArgLoop(q, name, args + [lit]);
        ArgLoopDone(q, name, args + [lit]);
        assert r.args[..|args|] == r.args[..|args| + 1][..|args|];
        var j :| 0 <= j < |q| && q[j] == RPAREN;
        assert after[1..][j] == RPAREN;
      }
    } else if queue[0] != RPAREN {
      ArgLoopDone(queue[1..], name, args);
    }
  }

  /** The bytes after a closing quote are a suffix of the queue. */
  lemma LiteralAfter(queue: Bytes, lit: Bytes, after: Bytes)
    requires |queue| > 0 && LiteralLoop(queue[1..], []) == Some((lit, after))
    ensures forall b :: b in after ==> b in queue
  {
    LiteralLoopSpec(queue[1..], []);
    SuffixMembers(queue, IndexOf(queue[1..], QUOTE) + 2);
  }

  lemma SuffixMembers(s: Bytes, n: nat)
    requires n <= |s|
    ensures forall b :: b in s[n..] ==> b in s
  {
    forall b | b in s[n..] ensures b in s {
      var i :| 0 <= i < |s[n..]| && s[n..][i] == b;
      assert s[n + i] == b;
    }
  }
}
