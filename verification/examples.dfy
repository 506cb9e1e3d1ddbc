/**
  The unit tests of `src/parser.rs`, and the assertions of `src/tests.rs` that the code satisfies,
  as lemmas about the model. Each test's literal names, values and separators become parameters,
  so a lemma covers the test's input and every input of the same shape.
*/
module Examples {

  import opened Wrappers
  import opened Utf8
  import opened Errors
  import opened Env
  import opened Tokens
  import opened Parser
  import opened Properties

  /** The result a whole run hands back: `parse_with(..).unwrap().1`. */
  function Output(env: FakeEnv, s: Bytes, pid: nat): Result<Bytes, Error> {
    ParseWith(env, s, pid).value.output
  }

  /** The `-` of `${name-default}`. */
  const Minus: Byte := 0x2D

  // Regrouping identities. Each states one fact about byte sequences (associativity, an empty
  // side, a first byte, the grouping of a test input) on its own, so that the lemmas about
  // `Output` below only rewrite with them and never search through concatenations themselves.

  lemma Assoc(a: Bytes, b: Bytes, c: Bytes)
    ensures a + b + c == a + (b + c)
  {
  }

  lemma OutputRegroup(env: FakeEnv, a: Bytes, b: Bytes, c: Bytes, pid: nat)
    ensures Output(env, a + b + c, pid) == Output(env, a + (b + c), pid)
  {
    Assoc(a, b, c);
  }

  lemma EmptyLeft(a: Bytes, b: Bytes)
    requires |a| == 0
    ensures a + b == b
  {
  }

  lemma EmptyRight(a: Bytes)
    ensures a + [] == a
  {
  }

  lemma FirstOfConcat(a: Bytes, b: Bytes)
    requires |a| + |b| > 0
    ensures (a + b)[0] == if |a| > 0 then a[0] else b[0]
  {
  }

  /** What follows a bare reference must not extend its name: a separator or a `$` does not. */
  lemma SeparatorThenReference(sep: Bytes, b: Bytes, braced: bool)
    requires |sep| == 0 || !IsVariableName(sep[0])
    ensures |sep + Reference(b, braced)| > 0 && !IsVariableName((sep + Reference(b, braced))[0])
  {
  }

  lemma BraceRegroup(rest: Bytes)
    ensures [Dollar] + ([LeftBrace] + rest) == [Dollar, LeftBrace] + rest
  {
  }

  lemma UnclosedBraceRegroup(name: Bytes, rest: Bytes)
    ensures [Dollar] + ([LeftBrace] + name + rest) == [Dollar, LeftBrace] + name + rest
  {
  }

  lemma DefaultRegroup(name: Bytes, default: Bytes)
    ensures [Dollar, LeftBrace] + name + ([Minus] + default + [RightBrace])
      == [Dollar, LeftBrace] + name + [Minus] + default + [RightBrace]
  {
  }

  /** The input of `test_parse_combo`, regrouped the way the fold reads it. */
  lemma ComboShape(pre: Bytes, name: Bytes, value: Bytes, mid: Bytes)
    ensures pre + [Dollar] + name + mid + [Dollar, LeftBrace] + name + [RightBrace, Dollar]
      == pre + ([Dollar] + name + (mid + ([Dollar, LeftBrace] + name + [RightBrace] + [Dollar])))
    ensures pre + value + mid + value + [Dollar] == pre + (value + (mid + (value + [Dollar])))
  {
  }

  /** A variable name is ASCII, hence valid text, and no `$` starts it. */
  lemma NameIsValid(name: Bytes)
    requires IsName(name)
    ensures AllAscii(name) && Valid(name) && name[0] != Dollar && Dollar !in name
  {
    AsciiIsValid(name);
  }

  /** A constant in front of an input whose expansion is known. */
  lemma ConstFirst(env: FakeEnv, text: Bytes, rest: Bytes, pid: nat, out: Bytes)
    requires |text| > 0 && Dollar !in text && Valid(text)
    requires |rest| == 0 || rest[0] == Dollar
    requires Output(env, rest, pid) == Success(out)
    ensures Output(env, text + rest, pid) == Success(text + out)
  {
    ConstantIsMaximalRun(text, rest);
    ExpandsFirstFragmentThenRest(env, text + rest, pid);
  }

  /** `$name` in front of an input whose expansion is known. */
  lemma BareFirst(env: FakeEnv, name: Bytes, rest: Bytes, pid: nat, out: Bytes)
    requires IsName(name) && (|rest| == 0 || !IsVariableName(rest[0]))
    requires Output(env, rest, pid) == Success(out)
    ensures Valid(name)
    ensures Output(env, [Dollar] + name + rest, pid) == Success(ExpandWith(Var(name), env, pid).value + out)
  {
    NameIsValid(name);
    BareNameIsMaximal(name, rest);
    ExpandsFirstFragmentThenRest(env, [Dollar] + name + rest, pid);
  }

  /** `${name}` in front of an input whose expansion is known. */
  lemma BracedFirst(env: FakeEnv, name: Bytes, rest: Bytes, pid: nat, out: Bytes)
    requires IsName(name)
    requires Output(env, rest, pid) == Success(out)
    ensures Valid(name)
    ensures Output(env, [Dollar, LeftBrace] + name + [RightBrace] + rest, pid)
      == Success(ExpandWith(Var(name), env, pid).value + out)
  {
    NameIsValid(name);
    BracedNameIsVariable(name, rest);
    ExpandsFirstFragmentThenRest(env, [Dollar, LeftBrace] + name + [RightBrace] + rest, pid);
  }

  /** tests.rs, `test_constant`: text without a `$`, such as `foo` or `{}{{}}`, expands to itself. */
  lemma PlainText(env: FakeEnv, text: Bytes, pid: nat)
    requires Dollar !in text && Valid(text)
    ensures Output(env, text, pid) == Success(text)
  {
    NoDollarExpandsToItself(env, text, pid);
  }

  /** A bound name whose value is valid text expands to that value. */
  lemma BoundName(env: FakeEnv, name: Bytes, value: Bytes, pid: nat)
    requires IsName(name) && env.Get(name) == Some(value) && Valid(value)
    ensures Valid(name) && ExpandWith(Var(name), env, pid) == Success(value)
  {
    NameIsValid(name);
  }

  /**
    tests.rs, `test_constant`: `$` and `bar$` expand to themselves. A `$` that ends the input is a
    literal dollar, after any text without a `$`.
  */
  lemma TrailingDollarIsLiteral(env: FakeEnv, text: Bytes, pid: nat)
    requires Dollar !in text && Valid(text)
    ensures Output(env, text + [Dollar], pid) == Success(text + [Dollar])
  {
    LoneDollarIsLiteral([Dollar]);
    ExpandsFirstFragmentThenRest(env, [Dollar], pid);
    EmptyInputExpandsToEmpty(env, pid);
    if |text| > 0 {
      ConstFirst(env, text, [Dollar], pid, [Dollar]);
    } else {
      assert text + [Dollar] == [Dollar];
    }
  }

  /** tests.rs, `test_empty`: the empty input, and a variable nobody set, expand to nothing. */
  lemma UnsetVariableIsEmpty(env: FakeEnv, name: Bytes, pid: nat)
    requires IsName(name) && env.Get(name) == None
    ensures Output(env, [], pid) == Success([])
    ensures Output(env, [Dollar] + name, pid) == Success([])
  {
    EmptyInputExpandsToEmpty(env, pid);
    BareFirst(env, name, [], pid, []);
    EmptyRight([Dollar] + name);
  }

  /** tests.rs, `test_simple`: `$var` and `${var}` both expand to the value of `var`. */
  lemma SimpleLookup(env: FakeEnv, name: Bytes, value: Bytes, pid: nat)
    requires IsName(name) && env.Get(name) == Some(value) && Valid(value)
    ensures Output(env, [Dollar] + name, pid) == Success(value)
    ensures Output(env, [Dollar, LeftBrace] + name + [RightBrace], pid) == Success(value)
  {
    ReferenceLookup(env, name, value, pid, false);
    ReferenceLookup(env, name, value, pid, true);
  }

  /** `$name`, or `${name}` when `braced`. */
  function Reference(name: Bytes, braced: bool): Bytes {
    if braced then [Dollar, LeftBrace] + name + [RightBrace] else [Dollar] + name
  }

  lemma ReferenceLookup(env: FakeEnv, name: Bytes, value: Bytes, pid: nat, braced: bool)
    requires IsName(name) && env.Get(name) == Some(value) && Valid(value)
    ensures Reference(name, braced)[0] == Dollar
    ensures Output(env, Reference(name, braced), pid) == Success(value)
  {
    EmptyInputExpandsToEmpty(env, pid);
    ReferenceFirst(env, name, value, [], pid, [], braced);
    EmptyRight(Reference(name, braced));
    EmptyRight(value);
  }

  /** Text without a `$` in front of an input that starts with `$`, whose expansion is known. */
  lemma TextBefore(env: FakeEnv, text: Bytes, rest: Bytes, pid: nat, out: Bytes)
    requires Dollar !in text && Valid(text)
    requires |rest| > 0 && rest[0] == Dollar
    requires Output(env, rest, pid) == Success(out)
    ensures Output(env, text + rest, pid) == Success(text + out)
  {
    if |text| > 0 {
      ConstFirst(env, text, rest, pid, out);
    } else {
      EmptyLeft(text, rest);
      EmptyLeft(text, out);
    }
  }

  /** A reference to a bound name in front of an input whose expansion is known. */
  lemma ReferenceFirst(env: FakeEnv, name: Bytes, value: Bytes, rest: Bytes, pid: nat, out: Bytes, braced: bool)
    requires IsName(name) && env.Get(name) == Some(value) && Valid(value)
    requires braced || |rest| == 0 || !IsVariableName(rest[0])
    requires Output(env, rest, pid) == Success(out)
    ensures Output(env, Reference(name, braced) + rest, pid) == Success(value + out)
  {
    BoundName(env, name, value, pid);
    if braced {
      BracedFirst(env, name, rest, pid, out);
    } else {
      BareFirst(env, name, rest, pid, out);
    }
  }

  /** `sep` then a reference to `b`, where `b` is bound to valid text. */
  lemma SecondReference(env: FakeEnv, sep: Bytes, b: Bytes, vb: Bytes, pid: nat, braced: bool)
    requires Dollar !in sep && Valid(sep)
    requires IsName(b) && env.Get(b) == Some(vb) && Valid(vb)
    ensures Output(env, sep + Reference(b, braced), pid) == Success(sep + vb)
  {
    ReferenceLookup(env, b, vb, pid, braced);
    TextBefore(env, sep, Reference(b, braced), pid, vb);
  }

  /**
    tests.rs, `test_expandvars_combo`: two references with a separator between them expand to the
    two values with the same separator between them, whether each one is bare or braced.
  */
  lemma TwoReferences(env: FakeEnv, a: Bytes, va: Bytes, sep: Bytes, b: Bytes, vb: Bytes, pid: nat,
                      bracedA: bool, bracedB: bool)
    requires IsName(a) && env.Get(a) == Some(va) && Valid(va)
    requires IsName(b) && env.Get(b) == Some(vb) && Valid(vb)
    requires Dollar !in sep && Valid(sep) && (|sep| == 0 || !IsVariableName(sep[0]))
    ensures Output(env, Reference(a, bracedA) + sep + Reference(b, bracedB), pid) == Success(va + sep + vb)
  {
    ReferenceThenRest(env, a, va, sep, b, vb, pid, bracedA, bracedB);
    OutputRegroup(env, Reference(a, bracedA), sep, Reference(b, bracedB), pid);
    Assoc(va, sep, vb);
  }

  lemma ReferenceThenRest(env: FakeEnv, a: Bytes, va: Bytes, sep: Bytes, b: Bytes, vb: Bytes, pid: nat,
                          bracedA: bool, bracedB: bool)
    requires IsName(a) && env.Get(a) == Some(va) && Valid(va)
    requires IsName(b) && env.Get(b) == Some(vb) && Valid(vb)
    requires Dollar !in sep && Valid(sep) && (|sep| == 0 || !IsVariableName(sep[0]))
    ensures Output(env, Reference(a, bracedA) + (sep + Reference(b, bracedB)), pid) == Success(va + (sep + vb))
  {
    SeparatorThenReference(sep, b, bracedB);
    SecondReference(env, sep, b, vb, pid, bracedB);
    ReferenceFirst(env, a, va, sep + Reference(b, bracedB), pid, sep + vb, bracedA);
  }

  /** tests.rs, `test_expandvars_combo`, `boo$biz`: text before a reference is kept. */
  lemma TextThenReference(env: FakeEnv, text: Bytes, b: Bytes, vb: Bytes, pid: nat, braced: bool)
    requires |text| > 0 && Dollar !in text && Valid(text)
    requires IsName(b) && env.Get(b) == Some(vb) && Valid(vb)
    ensures Output(env, text + Reference(b, braced), pid) == Success(text + vb)
  {
    SecondReference(env, text, b, vb, pid, braced);
  }

  /**
    tests.rs, `test_expandvars_pid`, `PID( $$ )`: the pid reference expands to the decimal pid
    between the texts around it.
  */
  lemma PidInText(env: FakeEnv, pre: Bytes, post: Bytes, pid: nat)
    requires Dollar !in pre && Valid(pre) && Dollar !in post && Valid(post)
    ensures Output(env, pre + [Dollar, Dollar] + post, pid) == Success(pre + Decimal(pid) + post)
  {
    PidThenText(env, post, pid);
    TextBefore(env, pre, [Dollar, Dollar] + post, pid, Decimal(pid) + post);
    Assoc(pre, [Dollar, Dollar], post);
    Assoc(pre, Decimal(pid), post);
  }

  lemma PidThenText(env: FakeEnv, post: Bytes, pid: nat)
    requires Dollar !in post && Valid(post)
    ensures Output(env, [Dollar, Dollar] + post, pid) == Success(Decimal(pid) + post)
  {
    PlainText(env, post, pid);
    DoubleDollarIsPid(post);
    ExpandsFirstFragmentThenRest(env, [Dollar, Dollar] + post, pid);
  }

  /** A `$` that opens no reference, in front of an input whose expansion is known. */
  lemma DollarFirst(env: FakeEnv, rest: Bytes, pid: nat, out: Bytes)
    requires !OpensReference(rest)
    requires Output(env, rest, pid) == Success(out)
    ensures Output(env, [Dollar] + rest, pid) == Success([Dollar] + out)
  {
    var s := [Dollar] + rest;
    assert s[1..] == rest;
    LoneDollarIsLiteral(s);
    ExpandsFirstFragmentThenRest(env, s, pid);
  }

  /**
    `${` followed by text that does not start a name: `${}`, or a `${` that ends the input. No
    reference opens, so the `$` is literal and the rest is one constant.
  */
  lemma BraceWithoutName(env: FakeEnv, rest: Bytes, pid: nat)
    requires Dollar !in rest && Valid(rest) && (|rest| == 0 || !IsVariableName(rest[0]))
    ensures Output(env, [Dollar, LeftBrace] + rest, pid) == Success([Dollar, LeftBrace] + rest)
  {
    var t := [LeftBrace] + rest;
    BraceWithoutNameShape(rest);
    PlainText(env, t, pid);
    DollarFirst(env, t, pid, t);
    BraceRegroup(rest);
  }

  lemma BraceWithoutNameShape(rest: Bytes)
    requires Dollar !in rest && Valid(rest) && (|rest| == 0 || !IsVariableName(rest[0]))
    ensures var t := [LeftBrace] + rest; !OpensReference(t) && Dollar !in t && Valid(t)
  {
    var t := [LeftBrace] + rest;
    assert t[1..] == rest;
    assert !ClosedBraceBody(rest);
    ValidAsciiPrefix([LeftBrace], rest);
  }

  /**
    `${name` that no `}` closes right after the name, such as the unclosed `${foo` or an operator
    form: the `$` is literal and the rest is one constant.
  */
  lemma UnclosedBraceIsLiteral(env: FakeEnv, name: Bytes, rest: Bytes, pid: nat)
    requires IsName(name) && Dollar !in rest && Valid(rest)
    requires |rest| == 0 || (rest[0] != RightBrace && !IsVariableName(rest[0]))
    ensures Output(env, [Dollar, LeftBrace] + name + rest, pid) == Success([Dollar, LeftBrace] + name + rest)
  {
    var t := [LeftBrace] + name + rest;
    UnclosedBraceShape(name, rest);
    UnclosedBraceText(name, rest);
    PlainText(env, t, pid);
    DollarFirst(env, t, pid, t);
    UnclosedBraceRegroup(name, rest);
  }

  lemma UnclosedBraceShape(name: Bytes, rest: Bytes)
    requires IsName(name)
    requires |rest| == 0 || (rest[0] != RightBrace && !IsVariableName(rest[0]))
    ensures !OpensReference([LeftBrace] + name + rest)
  {
    var t := [LeftBrace] + name + rest;
    assert t[1..] == name + rest;
    NameRunOf(name, rest);
    assert !ClosedBraceBody(name + rest);
  }

  lemma UnclosedBraceText(name: Bytes, rest: Bytes)
    requires IsName(name) && Dollar !in rest && Valid(rest)
    ensures Dollar !in [LeftBrace] + name + rest && Valid([LeftBrace] + name + rest)
  {
    NameIsValid(name);
    var head := [LeftBrace] + name;
    assert AllAscii(head);
    ValidAsciiPrefix(head, rest);
  }

  /**
    tests.rs, `test_expandvars_get_default`, `${FOO-default}`: the grammar has no default
    operator, so `$` opens no reference there and the whole input is copied as it stands,
    whether or not the name is bound.
  */
  lemma DefaultIsLiteral(env: FakeEnv, name: Bytes, default: Bytes, pid: nat)
    requires IsName(name) && Dollar !in default && Valid(default)
    ensures var s := [Dollar, LeftBrace] + name + [Minus] + default + [RightBrace];
      Output(env, s, pid) == Success(s)
  {
    var rest := [Minus] + default + [RightBrace];
    DefaultTail(default);
    UnclosedBraceIsLiteral(env, name, rest, pid);
    DefaultRegroup(name, default);
  }

  lemma DefaultTail(default: Bytes)
    requires Dollar !in default && Valid(default)
    ensures var rest := [Minus] + default + [RightBrace];
      && Dollar !in rest && Valid(rest) && rest[0] != RightBrace && !IsVariableName(rest[0])
  {
    ValidAsciiPrefix([Minus], default);
    ValidConcat([Minus] + default, [RightBrace]);
  }

  /** `${name}$`, the end of the `test_parse_combo` input. */
  lemma ComboEnd(env: FakeEnv, name: Bytes, value: Bytes, pid: nat)
    requires IsName(name) && env.Get(name) == Some(value) && Valid(value)
    ensures Output(env, [Dollar, LeftBrace] + name + [RightBrace] + [Dollar], pid) == Success(value + [Dollar])
  {
    EmptyInputExpandsToEmpty(env, pid);
    assert !OpensReference([]);
    DollarFirst(env, [], pid, []);
    assert [Dollar] + [] == [Dollar];
    BoundName(env, name, value, pid);
    BracedFirst(env, name, [Dollar], pid, [Dollar]);
  }

  /** parser.rs, `test_parse_constant`: `foo.bar`, and any non-empty text without a `$`, is one constant. */
  lemma ParseConstantWhole(text: Bytes)
    requires |text| > 0 && Dollar !in text
    ensures ParseConstant(text) == Some(Parsed(Const(text), []))
  {
    ConstantIsMaximalRun(text, []);
    assert text + [] == text;
  }

  /** parser.rs, `test_parse_variable`: `$var` is the variable `var`. */
  lemma ParseVariableBare(name: Bytes)
    requires IsName(name)
    ensures ParseVariable([Dollar] + name) == Some(Parsed(Var(name), []))
  {
    BareNameIsMaximal(name, []);
    assert [Dollar] + name + [] == [Dollar] + name;
  }

  /** parser.rs, `test_parse_braced_variable_body`: `{var}` is the variable `var`. */
  lemma ParseBracedBody(name: Bytes)
    requires IsName(name)
    ensures ParseBracedVariableBody([LeftBrace] + name + [RightBrace]) == Some(Parsed(Var(name), []))
  {
    var s := [LeftBrace] + name + [RightBrace];
    assert s[1..] == name + [RightBrace];
    NameRunOf(name, [RightBrace]);
  }

  /** parser.rs, `test_dollar`: a lone `$` is the literal character `$`. */
  lemma ParseLoneDollar()
    ensures ParseDollar([Dollar]) == Some(Parsed(Char('$'), []))
  {
    assert [Dollar][1..] == [];
  }

  /** parser.rs, `test_parse_fragment`: `foo` is a constant and `$var` a variable. */
  lemma ParseFragmentWhole(text: Bytes, name: Bytes)
    requires |text| > 0 && Dollar !in text && IsName(name)
    ensures ParseFragment(text) == Some(Parsed(Const(text), []))
    ensures ParseFragment([Dollar] + name) == Some(Parsed(Var(name), []))
  {
    ConstantIsMaximalRun(text, []);
    assert text + [] == text;
    BareNameIsMaximal(name, []);
    assert [Dollar] + name + [] == [Dollar] + name;
  }

  /**
    parser.rs, `test_parse_combo`: `foo$var.foo.${var}$` with `var` set to `value` expands to
    `foovalue.foo.value$`: constants are copied, both reference forms are looked up and the
    trailing `$` is literal.
  */
  lemma ParseCombo(env: FakeEnv, pre: Bytes, name: Bytes, value: Bytes, mid: Bytes, pid: nat)
    requires IsName(name) && env.Get(name) == Some(value) && Valid(value)
    requires |pre| > 0 && Dollar !in pre && Valid(pre)
    requires |mid| > 0 && Dollar !in mid && Valid(mid) && !IsVariableName(mid[0])
    ensures Output(env, pre + [Dollar] + name + mid + [Dollar, LeftBrace] + name + [RightBrace, Dollar], pid)
      == Success(pre + value + mid + value + [Dollar])
  {
    var tail := [Dollar, LeftBrace] + name + [RightBrace] + [Dollar];
    ComboEnd(env, name, value, pid);
    ConstFirst(env, mid, tail, pid, value + [Dollar]);
    FirstOfConcat(mid, tail);
    BoundName(env, name, value, pid);
    BareFirst(env, name, mid + tail, pid, mid + (value + [Dollar]));
    var middle := [Dollar] + name + (mid + tail);
    ConstFirst(env, pre, middle, pid, value + (mid + (value + [Dollar])));
    ComboShape(pre, name, value, mid);
  }
}
