/**
  What the tokeniser and the expansion fold of `src/parser.rs` guarantee, stated over whole
  inputs: which fragment a `$` starts (the tie-breaks), where a constant or a bare name stops,
  when a `$` is kept as text, and how token results combine.
*/
module Properties {

  import opened Wrappers
  import opened Utf8
  import opened Errors
  import opened Env
  import opened Tokens
  import opened Parser

  /** After `{`: either `$}` or a name followed by `}`. */
  predicate ClosedBraceBody(u: Bytes) {
    || (|u| >= 2 && u[0] == Dollar && u[1] == RightBrace)
    || (0 < NameRun(u) < |u| && u[NameRun(u)] == RightBrace)
  }

  /** What may follow a `$` for it to start a reference: `$`, a name byte, `{$}` or `{name}`. */
  predicate OpensReference(t: Bytes) {
    && |t| > 0
    && (t[0] == Dollar || IsVariableName(t[0]) || (t[0] == LeftBrace && ClosedBraceBody(t[1..])))
  }

  lemma BracedBodyMatches(t: Bytes)
    ensures ParseBracedVariableBody(t).Some? <==> |t| > 0 && t[0] == LeftBrace && ClosedBraceBody(t[1..])
  {
    if |t| > 0 && t[0] == LeftBrace {
      var u := t[1..];
      if |u| > 0 && u[0] != Dollar && IsVariableName(u[0]) {
        var n := NameRun(u);
        assert ParseName(u).value.rest == u[n..];
      }
    }
  }

  /**
    A `$` is emitted as the literal character exactly when what follows it opens no reference:
    a trailing `$`, `$` before a byte that is not `$`, `{` or a name byte, and `${` whose body is
    not `$}` or `name}` (unclosed, empty, or carrying an operator).
  */
  lemma LoneDollarIsLiteral(s: Bytes)
    requires |s| > 0 && s[0] == Dollar
    ensures ParseFragment(s) == Some(Parsed(Char('$'), s[1..])) <==> !OpensReference(s[1..])
    ensures !OpensReference(s[1..]) ==> Lex(s) == [Lexeme(Char('$'), [Dollar])] + Lex(s[1..])
  {
    var t := s[1..];
    BracedBodyMatches(t);
    assert ParseVariable(s).None? <==> !OpensReference(t);
    if !OpensReference(t) {
      LexUnfold(s);
      assert s[..|s| - |t|] == [Dollar];
    }
  }

  /** A constant is the longest run of bytes before the next `$`. */
  lemma ConstantIsMaximalRun(text: Bytes, rest: Bytes)
    requires |text| > 0 && Dollar !in text
    requires |rest| == 0 || rest[0] == Dollar
    ensures ParseFragment(text + rest) == Some(Parsed(Const(text), rest))
  {
    var s := text + rest;
    assert s[0] == text[0];
    var n := ConstRun(s);
    assert n >= |text| by {
      assert forall i :: 0 <= i < |text| ==> s[i] == text[i] && s[i] != Dollar;
    }
    assert n <= |text| by {
      assert |rest| > 0 ==> s[|text|] == Dollar;
    }
    assert s[..n] == text && s[n..] == rest;
  }

  /** `$$` is the pid: it is tried before a name. */
  lemma DoubleDollarIsPid(rest: Bytes)
    ensures ParseFragment([Dollar, Dollar] + rest) == Some(Parsed(Pid, rest))
  {
    var s := [Dollar, Dollar] + rest;
    assert s[1..] == [Dollar] + rest;
    assert s[1..][1..] == rest;
    assert ParseBracedVariableBody(s[1..]).None?;
  }

  /** `${$}` is the pid as well. */
  lemma BracedDollarIsPid(rest: Bytes)
    ensures ParseFragment([Dollar, LeftBrace, Dollar, RightBrace] + rest) == Some(Parsed(Pid, rest))
  {
    var s := [Dollar, LeftBrace, Dollar, RightBrace] + rest;
    var t := s[1..];
    assert t[1..] == [Dollar, RightBrace] + rest;
    assert t[1..][1..] == [RightBrace] + rest;
  }

  /** `${name}` is a variable, whatever follows the closing brace. */
  lemma BracedNameIsVariable(name: Bytes, rest: Bytes)
    requires IsName(name)
    ensures ParseFragment([Dollar, LeftBrace] + name + [RightBrace] + rest) == Some(Parsed(Var(name), rest))
  {
    var s := [Dollar, LeftBrace] + name + [RightBrace] + rest;
    var u := s[2..];
    assert u == name + ([RightBrace] + rest);
    NameRunOf(name, [RightBrace] + rest);
    assert u[|name|..] == [RightBrace] + rest;
    assert s[1..][1..] == u;
  }

  /** The name run of `name + rest` is `name` when `rest` does not go on with a name byte. */
  lemma NameRunOf(name: Bytes, rest: Bytes)
    requires IsName(name) && (|rest| == 0 || !IsVariableName(rest[0]))
    ensures NameRun(name + rest) == |name|
    ensures (name + rest)[..|name|] == name && (name + rest)[|name|..] == rest
  {
  }

  /**
    `$name` is a variable whose name is the longest run of `[A-Za-z0-9_]` after the `$`; a digit
    may lead. The name stops at the first byte that cannot continue it.
  */
  lemma BareNameIsMaximal(name: Bytes, rest: Bytes)
    requires IsName(name)
    requires |rest| == 0 || !IsVariableName(rest[0])
    ensures ParseFragment([Dollar] + name + rest) == Some(Parsed(Var(name), rest))
  {
    var s := [Dollar] + name + rest;
    var t := s[1..];
    assert t == name + rest;
    NameRunOf(name, rest);
    assert ParseBracedVariableBody(t).None?;
  }

  /** A fragment that the parser recognises leaves the tokens of the rest after its own. */
  lemma LexOfFragment(span: Bytes, rest: Bytes, tok: Token)
    requires |span| > 0
    requires ParseFragment(span + rest) == Some(Parsed(tok, rest))
    ensures Lex(span + rest) == [Lexeme(tok, span)] + Lex(rest)
  {
    var s := span + rest;
    LexUnfold(s);
    assert s[..|s| - |rest|] == span;
  }

  /**
    `$name` and `${name}` expand alike, whatever follows, as long as the bare form is not
    followed by another name byte (which would lengthen the name).
  */
  lemma BareAndBracedExpandAlike(env: FakeEnv, name: Bytes, rest: Bytes, pid: nat)
    requires IsName(name) && (|rest| == 0 || !IsVariableName(rest[0]))
    ensures ParseWith(env, [Dollar] + name + rest, pid) == ParseWith(env, [Dollar, LeftBrace] + name + [RightBrace] + rest, pid)
  {
    assert name[0] != Dollar;
    BareNameIsMaximal(name, rest);
    BracedNameIsVariable(name, rest);
    var bare := [Dollar] + name;
    var braced := [Dollar, LeftBrace] + name + [RightBrace];
    assert [Dollar] + name + rest == bare + rest;
    assert [Dollar, LeftBrace] + name + [RightBrace] + rest == braced + rest;
    LexOfFragment(bare, rest, Var(name));
    LexOfFragment(braced, rest, Var(name));
    TokensOfCons(Lexeme(Var(name), bare), Lex(rest));
    TokensOfCons(Lexeme(Var(name), braced), Lex(rest));
  }

  /** `$$` and `${$}` expand alike, whatever follows. */
  lemma PidFormsExpandAlike(env: FakeEnv, rest: Bytes, pid: nat)
    ensures ParseWith(env, [Dollar, Dollar] + rest, pid) == ParseWith(env, [Dollar, LeftBrace, Dollar, RightBrace] + rest, pid)
    ensures ParseWith(env, [Dollar, Dollar], pid).value.output == Success(Decimal(pid))
  {
    DoubleDollarIsPid(rest);
    BracedDollarIsPid(rest);
    LexOfFragment([Dollar, Dollar], rest, Pid);
    LexOfFragment([Dollar, LeftBrace, Dollar, RightBrace], rest, Pid);
    TokensOfCons(Lexeme(Pid, [Dollar, Dollar]), Lex(rest));
    TokensOfCons(Lexeme(Pid, [Dollar, LeftBrace, Dollar, RightBrace]), Lex(rest));
    DoubleDollarIsPid([]);
    assert [Dollar, Dollar] + [] == [Dollar, Dollar];
    LexOfFragment([Dollar, Dollar], [], Pid);
    TokensOfCons(Lexeme(Pid, [Dollar, Dollar]), []);
    ThenEmpty(Success(Decimal(pid)));
  }

  /**
    Expansion runs left to right: the output of a non-empty input is the first fragment's
    expansion followed by the output of the rest (or the first of their errors).
  */
  lemma ExpandsFirstFragmentThenRest(env: FakeEnv, s: Bytes, pid: nat)
    requires |s| > 0
    ensures var p := ParseFragment(s).value;
      ParseWith(env, s, pid).value.output
      == Then(ExpandWith(p.token, env, pid), ParseWith(env, p.rest, pid).value.output)
  {
    TokensOfLex(s);
  }

  /** The empty input expands to the empty text. */
  lemma EmptyInputExpandsToEmpty(env: FakeEnv, pid: nat)
    ensures ParseWith(env, [], pid) == Some(Done([], Success([])))
  {
  }

  /**
    Input without a `$` is one constant: it expands to itself when it is valid text, and to the
    decoding error otherwise.
  */
  lemma NoDollarExpandsToItself(env: FakeEnv, s: Bytes, pid: nat)
    requires Dollar !in s
    ensures Valid(s) ==> ParseWith(env, s, pid) == Some(Done([], Success(s)))
    ensures !Valid(s) ==> ParseWith(env, s, pid) == Some(Done([], Failure(FromUtf8Error(s))))
  {
    if |s| > 0 {
      ConstantIsMaximalRun(s, []);
      assert s + [] == s;
      LexOfFragment(s, [], Const(s));
      TokensOfCons(Lexeme(Const(s), s), []);
      ThenEmpty(ExpandWith(Const(s), env, pid));
    }
  }

  /** The output is the first token error when there is one, even if later tokens would fail too. */
  lemma {:induction false} FirstErrorWins(toks: seq<Token>, env: FakeEnv, pid: nat, i: nat)
    requires i < |toks| && ExpandWith(toks[i], env, pid).Failure?
    requires forall j :: 0 <= j < i ==> ExpandWith(toks[j], env, pid).Success?
    ensures ExpandAll(toks, env, pid) == ExpandWith(toks[i], env, pid)
    decreases i
  {
    if i > 0 {
      assert forall j :: 0 <= j < i - 1 ==> toks[1..][j] == toks[j + 1];
      FirstErrorWins(toks[1..], env, pid, i - 1);
    }
  }

  /** When every token expands, the output is their texts concatenated in input order. */
  lemma {:induction false} SuccessConcatenates(toks: seq<Token>, env: FakeEnv, pid: nat)
    requires forall j :: 0 <= j < |toks| ==> ExpandWith(toks[j], env, pid).Success?
    ensures ExpandAll(toks, env, pid) == Success(Texts(toks, env, pid))
    decreases |toks|
  {
    if |toks| > 0 {
      assert forall j :: 0 <= j < |toks| - 1 ==> toks[1..][j] == toks[j + 1];
      SuccessConcatenates(toks[1..], env, pid);
    }
  }

  /** The concatenated texts of tokens that all expand. */
  function Texts(toks: seq<Token>, env: FakeEnv, pid: nat): Bytes
    requires forall j :: 0 <= j < |toks| ==> ExpandWith(toks[j], env, pid).Success?
  {
    if |toks| == 0 then []
    else ExpandWith(toks[0], env, pid).value + Texts(toks[1..], env, pid)
  }

  /**
    The only error a run produces is the decoding error of one of its constants, which is then
    not valid text; a variable name, being ASCII, always decodes.
  */
  lemma {:induction false} ErrorsComeFromConstants(env: FakeEnv, s: Bytes, pid: nat)
    requires ParseWith(env, s, pid).value.output.Failure?
    ensures var e := ParseWith(env, s, pid).value.output.error;
      && e.FromUtf8Error?
      && !Valid(e.bytes)
      && exists i :: 0 <= i < |Lex(s)| && Lex(s)[i].token == Const(e.bytes)
  {
    var toks := TokensOf(Lex(s));
    var i := FirstFailure(toks, env, pid);
    FirstErrorWins(toks, env, pid, i);
    var tok := toks[i];
    if tok.Var? {
      SpelledInAscii(tok, Lex(s)[i].span);
    }
    assert Lex(s)[i].token == tok;
  }

  /** The position of the first token that fails to expand, when one does. */
  function FirstFailure(toks: seq<Token>, env: FakeEnv, pid: nat): (i: nat)
    requires exists j :: 0 <= j < |toks| && ExpandWith(toks[j], env, pid).Failure?
    ensures i < |toks| && ExpandWith(toks[i], env, pid).Failure?
    ensures forall j :: 0 <= j < i ==> ExpandWith(toks[j], env, pid).Success?
  {
    if ExpandWith(toks[0], env, pid).Failure? then 0
    else
      var j :| 0 <= j < |toks| && ExpandWith(toks[j], env, pid).Failure?;
      assert toks[1..][j - 1] == toks[j];
      var i := FirstFailure(toks[1..], env, pid);
      assert forall k :: 1 <= k <= i ==> toks[k] == toks[1..][k - 1];
      i + 1
  }
}
