/**
  The tokeniser and the expansion fold (`src/parser.rs`) and the `expand` entry point (`src/lib.rs`).

  Each nom parser is a function from the remaining input to `IResult`: `Some(Parsed(token, rest))`
  when it matches, `None` when it reports an error. `alt` tries its alternatives in order and keeps
  the first that matches; `take_while1` takes the longest non-empty prefix whose bytes satisfy a
  predicate; `char` matches one given byte. All inputs are complete (no streaming).
*/
module Parser {

  import opened Wrappers
  import opened Utf8
  import opened Errors
  import opened Env
  import opened Tokens

  const Dollar: Byte := 0x24
  const LeftBrace: Byte := 0x7B
  const RightBrace: Byte := 0x7D
  const Underscore: Byte := 0x5F

  datatype Parsed = Parsed(token: Token, rest: Bytes)

  type IResult = Option<Parsed>

  /** nom's `is_alphanumeric`: ASCII letters and digits only. */
  predicate IsAlphanumeric(c: Byte) {
    (0x30 <= c <= 0x39) || (0x41 <= c <= 0x5A) || (0x61 <= c <= 0x7A)
  }

  /** `is_variable_name`: `_` or an ASCII letter or digit; never `$`, `{`, `}` nor a non-ASCII byte. */
  function IsVariableName(c: Byte): (r: bool)
    ensures r ==> IsAscii(c) && c != Dollar && c != LeftBrace && c != RightBrace
  {
    c == Underscore || IsAlphanumeric(c)
  }

  /** A variable name: a non-empty run of `[A-Za-z0-9_]`. */
  predicate IsName(n: Bytes) {
    |n| > 0 && forall i :: 0 <= i < |n| ==> IsVariableName(n[i])
  }

  /**
    The source text each token can come from: a constant is its own text and holds no `$`; a
    variable is `$name` or `${name}`; the pid is `$$` or `${$}`; the literal character is `$`.
  */
  predicate Spells(tok: Token, span: Bytes) {
    match tok
    case Const(text) => span == text && |text| > 0 && Dollar !in text
    case Var(name) =>
      IsName(name) && (span == [Dollar] + name || span == [Dollar, LeftBrace] + name + [RightBrace])
    case Pid => span == [Dollar, Dollar] || span == [Dollar, LeftBrace, Dollar, RightBrace]
    case Char(c) => c == '$' && span == [Dollar]
  }

  /** The parser matched a non-empty prefix of `s`, which spells the token, and left the rest. */
  predicate Consumes(s: Bytes, r: IResult) {
    r.Some? ==>
      && |r.value.rest| < |s|
      && s[|s| - |r.value.rest|..] == r.value.rest
      && Spells(r.value.token, s[..|s| - |r.value.rest|])
  }

  /** `take_while(is_variable_name)`: the length of the longest prefix of name bytes. */
  function NameRun(s: Bytes): (n: nat)
    ensures n <= |s|
    ensures forall i :: 0 <= i < n ==> IsVariableName(s[i])
    ensures n == |s| || !IsVariableName(s[n])
  {
    if |s| == 0 || !IsVariableName(s[0]) then 0 else 1 + NameRun(s[1..])
  }

  /** `take_while(|c| c != b'$')`: the length of the longest prefix without a `$`. */
  function ConstRun(s: Bytes): (n: nat)
    ensures n <= |s|
    ensures Dollar !in s[..n]
    ensures n == |s| || s[n] == Dollar
  {
    if |s| == 0 || s[0] == Dollar then 0
    else
      var n := 1 + ConstRun(s[1..]);
      assert s[..n] == [s[0]] + s[1..][..n - 1];
      n
  }

  /** `alt((first, second))` */
  function Alt(first: IResult, second: IResult): IResult {
    if first.Some? then first else second
  }

  function ParseConstant(s: Bytes): (r: IResult)
    ensures r.Some? <==> |s| > 0 && s[0] != Dollar
    ensures Consumes(s, r)
    ensures r.Some? ==> r.value.token.Const? && (|r.value.rest| == 0 || r.value.rest[0] == Dollar)
  {
    var n := ConstRun(s);
    if n == 0 then None else Some(Parsed(Const(s[..n]), s[n..]))
  }

  /** Matches the `$` of a pid (after the first `$` or after `${`). */
  function ParsePid(s: Bytes): (r: IResult)
    ensures r.Some? <==> |s| > 0 && s[0] == Dollar
    ensures r.Some? ==> r == Some(Parsed(Pid, s[1..]))
  {
    if |s| > 0 && s[0] == Dollar then Some(Parsed(Pid, s[1..])) else None
  }

  /** `map(take_while1(is_variable_name), Token::Var)` */
  function ParseName(s: Bytes): (r: IResult)
    ensures r.Some? <==> |s| > 0 && IsVariableName(s[0])
    ensures r.Some? ==>
      && r.value.token.Var?
      && IsName(r.value.token.name)
      && s == r.value.token.name + r.value.rest
      && (|r.value.rest| == 0 || !IsVariableName(r.value.rest[0]))
  {
    var n := NameRun(s);
    if n == 0 then None
    else
      assert s == s[..n] + s[n..];
      Some(Parsed(Var(s[..n]), s[n..]))
  }

  function ParseVariableBody(s: Bytes): (r: IResult)
    ensures r.Some? <==> |s| > 0 && (s[0] == Dollar || IsVariableName(s[0]))
    ensures r.Some? && s[0] == Dollar ==> r == Some(Parsed(Pid, s[1..]))
    ensures r.Some? && s[0] != Dollar ==> r == ParseName(s)
  {
    Alt(ParsePid(s), ParseName(s))
  }

  /** `delimited(char('{'), parse_variable_body, char('}'))` */
  function ParseBracedVariableBody(s: Bytes): (r: IResult)
    ensures r.Some? ==>
      || (r.value.token == Pid && s == [LeftBrace, Dollar, RightBrace] + r.value.rest)
      || (&& r.value.token.Var? && IsName(r.value.token.name)
          && s == [LeftBrace] + r.value.token.name + [RightBrace] + r.value.rest)
  {
    if |s| == 0 || s[0] != LeftBrace then None
    else
      match ParseVariableBody(s[1..])
      case None => None
      case Some(p) =>
        if |p.rest| > 0 && p.rest[0] == RightBrace then
          assert s == [LeftBrace] + s[1..];
          assert if s[1] == Dollar then s == [LeftBrace, Dollar, RightBrace] + p.rest[1..]
            else s == [LeftBrace] + p.token.name + [RightBrace] + p.rest[1..];
          Some(Parsed(p.token, p.rest[1..]))
        else None
  }

  /** `map(char('$'), Token::Char)` */
  function ParseDollar(s: Bytes): (r: IResult)
    ensures r.Some? <==> |s| > 0 && s[0] == Dollar
    ensures r.Some? ==> r == Some(Parsed(Char('$'), s[1..]))
  {
    if |s| > 0 && s[0] == Dollar then Some(Parsed(Char('$'), s[1..])) else None
  }

  /** A token spelled by `span`, parsed from `span + rest`, leaves `rest`. */
  lemma SpelledPrefix(span: Bytes, rest: Bytes, tok: Token)
    requires |span| > 0 && Spells(tok, span)
    ensures Consumes(span + rest, Some(Parsed(tok, rest)))
  {
    var s := span + rest;
    assert s[|s| - |rest|..] == rest;
    assert s[..|s| - |rest|] == span;
  }

  /** What `parse_variable` tries after the `$`, in order. */
  function VariableAlternatives(t: Bytes): IResult {
    Alt(Alt(ParseBracedVariableBody(t), ParseVariableBody(t)), ParsePid(t))
  }

  /** `preceded(char('$'), alt((parse_braced_variable_body, parse_variable_body, parse_pid)))` */
  function ParseVariable(s: Bytes): (r: IResult)
    ensures Consumes(s, r)
    ensures r.Some? ==> s[0] == Dollar && (r.value.token.Var? || r.value.token.Pid?)
  {
    if |s| == 0 || s[0] != Dollar then None
    else
      VariableConsumes(s);
      VariableAlternatives(s[1..])
  }

  /** Whichever alternative matches after the `$`, the text consumed spells the token. */
  lemma VariableConsumes(s: Bytes)
    requires |s| > 0 && s[0] == Dollar
    ensures Consumes(s, VariableAlternatives(s[1..]))
    ensures VariableAlternatives(s[1..]).Some? ==>
      VariableAlternatives(s[1..]).value.token.Var? || VariableAlternatives(s[1..]).value.token.Pid?
  {
    var t := s[1..];
    if ParseBracedVariableBody(t).Some? {
      BracedConsumes(s);
    } else if |t| > 0 && t[0] == Dollar {
      assert s == [Dollar, Dollar] + t[1..];
      SpelledPrefix([Dollar, Dollar], t[1..], Pid);
    } else if ParseName(t).Some? {
      BareConsumes(s);
    }
  }

  lemma BracedConsumes(s: Bytes)
    requires |s| > 0 && s[0] == Dollar && ParseBracedVariableBody(s[1..]).Some?
    ensures Consumes(s, ParseBracedVariableBody(s[1..]))
  {
    BracedShapeConsumes(s, ParseBracedVariableBody(s[1..]).value);
  }

  /** `$` followed by `{$}` or `{name}` and then `rest` consumes everything but `rest`. */
  lemma BracedShapeConsumes(s: Bytes, p: Parsed)
    requires |s| > 0 && s[0] == Dollar
    requires
      || (p.token == Pid && s[1..] == [LeftBrace, Dollar, RightBrace] + p.rest)
      || (&& p.token.Var? && IsName(p.token.name)
          && s[1..] == [LeftBrace] + p.token.name + [RightBrace] + p.rest)
    ensures Consumes(s, Some(p))
  {
    var body := if p.token == Pid then [LeftBrace, Dollar, RightBrace]
      else [LeftBrace] + p.token.name + [RightBrace];
    DollarBefore(s, body, p.rest);
    if p.token == Pid {
      assert [Dollar] + body == [Dollar, LeftBrace, Dollar, RightBrace];
    } else {
      assert [Dollar] + body == [Dollar, LeftBrace] + p.token.name + [RightBrace];
    }
    SpelledPrefix([Dollar] + body, p.rest, p.token);
  }

  /** Putting back the `$` that `preceded` consumed. */
  lemma DollarBefore(s: Bytes, body: Bytes, rest: Bytes)
    requires |s| > 0 && s[0] == Dollar && s[1..] == body + rest
    ensures s == ([Dollar] + body) + rest
  {
    assert s == [Dollar] + s[1..];
  }

  lemma BareConsumes(s: Bytes)
    requires |s| > 0 && s[0] == Dollar && ParseName(s[1..]).Some?
    ensures Consumes(s, ParseName(s[1..]))
  {
    var p := ParseName(s[1..]).value;
    var span := [Dollar] + p.token.name;
    assert s == span + p.rest;
    SpelledPrefix(span, p.rest, p.token);
  }

  /** `alt((parse_variable, parse_constant, parse_dollar))` */
  function ParseFragment(s: Bytes): (r: IResult)
    ensures r.Some? <==> |s| > 0
    ensures Consumes(s, r)
    ensures r.Some? && r.value.token.Const? ==> |r.value.rest| == 0 || r.value.rest[0] == Dollar
  {
    var r := Alt(Alt(ParseVariable(s), ParseConstant(s)), ParseDollar(s));
    assert r.Some? && r.value.token.Char? ==> s == [Dollar] + r.value.rest;
    r
  }

  /** A token together with the input bytes it was parsed from. */
  datatype Lexeme = Lexeme(token: Token, span: Bytes)

  /** The spans of a lexeme sequence, in order. */
  function Flatten(ls: seq<Lexeme>): Bytes {
    if |ls| == 0 then [] else ls[0].span + Flatten(ls[1..])
  }

  function TokensOf(ls: seq<Lexeme>): (toks: seq<Token>)
    ensures |toks| == |ls| && forall i :: 0 <= i < |ls| ==> toks[i] == ls[i].token
  {
    seq(|ls|, i requires 0 <= i < |ls| => ls[i].token)
  }

  /**
    The fragments `fold_many1(parse_fragment, ...)` visits, left to right: the tokens, each with
    the text it consumed. Their spans put back together give the input, and each spells its token.
  */
  function Lex(s: Bytes): (ls: seq<Lexeme>)
    ensures Flatten(ls) == s
    ensures forall i :: 0 <= i < |ls| ==> Spells(ls[i].token, ls[i].span)
    decreases |s|
  {
    match ParseFragment(s)
    case None => []
    case Some(p) =>
      var head := Lexeme(p.token, s[..|s| - |p.rest|]);
      var tail := Lex(p.rest);
      LexCons(s, head, p.rest, tail);
      [head] + tail
  }

  lemma LexCons(s: Bytes, head: Lexeme, rest: Bytes, tail: seq<Lexeme>)
    requires |rest| < |s| && s[|s| - |rest|..] == rest && head.span == s[..|s| - |rest|]
    requires Spells(head.token, head.span)
    requires Flatten(tail) == rest
    requires forall i :: 0 <= i < |tail| ==> Spells(tail[i].token, tail[i].span)
    ensures Flatten([head] + tail) == s
    ensures forall i :: 0 <= i < |tail| + 1 ==> Spells(([head] + tail)[i].token, ([head] + tail)[i].span)
  {
    var k := |s| - |rest|;
    assert s == s[..k] + s[k..];
    FlattenCons(head, tail);
    SpellsCons(head, tail);
  }

  lemma FlattenCons(head: Lexeme, tail: seq<Lexeme>)
    ensures Flatten([head] + tail) == head.span + Flatten(tail)
  {
    assert ([head] + tail)[1..] == tail;
  }

  lemma SpellsCons(head: Lexeme, tail: seq<Lexeme>)
    requires Spells(head.token, head.span)
    requires forall i :: 0 <= i < |tail| ==> Spells(tail[i].token, tail[i].span)
    ensures forall i :: 0 <= i < |tail| + 1 ==> Spells(([head] + tail)[i].token, ([head] + tail)[i].span)
  {
    var ls := [head] + tail;
    forall i | 0 <= i < |ls|
      ensures Spells(ls[i].token, ls[i].span)
    {
      if i > 0 {
        assert ls[i] == tail[i - 1];
      }
    }
  }

  /** Sequencing of two expansion results: the first error wins, otherwise the texts concatenate. */
  function Then(a: Result<Bytes, Error>, b: Result<Bytes, Error>): Result<Bytes, Error> {
    match a
    case Failure(_) => a
    case Success(x) =>
      match b
      case Failure(_) => b
      case Success(y) => Success(x + y)
  }

  lemma ThenAssociative(a: Result<Bytes, Error>, b: Result<Bytes, Error>, c: Result<Bytes, Error>)
    ensures Then(Then(a, b), c) == Then(a, Then(b, c))
  {
    if a.Success? && b.Success? && c.Success? {
      assert (a.value + b.value) + c.value == a.value + (b.value + c.value);
    }
  }

  /**
    The reference meaning of an expansion: the token expansions concatenated in input order, or
    the first token error.
  */
  function ExpandAll(toks: seq<Token>, env: FakeEnv, pid: nat): (r: Result<Bytes, Error>)
    ensures r.Success? <==> forall i :: 0 <= i < |toks| ==> ExpandWith(toks[i], env, pid).Success?
    ensures r.Success? ==> Valid(r.value)
    ensures r.Failure? ==> r.error.FromUtf8Error?
  {
    if |toks| == 0 then Success([])
    else
      var head := ExpandWith(toks[0], env, pid);
      var tail := ExpandAll(toks[1..], env, pid);
      assert forall i :: 1 <= i < |toks| ==> toks[i] == toks[1..][i - 1];
      if head.Success? && tail.Success? then
        ValidConcat(head.value, tail.value);
        Then(head, tail)
      else
        Then(head, tail)
  }

  /**
    The closure `fold_many1` applies to each token: `tokens?`, then `push_str(expand_with(..)?)`.
    It is `Then` of the accumulator and the token's expansion: an earlier error is kept, a new
    error replaces a success, and two successes concatenate.
  */
  function Step(acc: Result<Bytes, Error>, tok: Token, env: FakeEnv, pid: nat): (r: Result<Bytes, Error>)
    ensures r == Then(acc, ExpandWith(tok, env, pid))
    ensures acc.Failure? ==> r == acc
  {
    match acc
    case Failure(e) => Failure(e)
    case Success(out) =>
      match ExpandWith(tok, env, pid)
      case Failure(e) => Failure(e)
      case Success(text) => Success(out + text)
  }

  lemma ThenEmpty(a: Result<Bytes, Error>)
    ensures Then(a, Success([])) == a && Then(Success([]), a) == a
  {
    if a.Success? {
      assert a.value + [] == a.value;
      assert [] + a.value == a.value;
    }
  }

  lemma TokensOfCons(head: Lexeme, tail: seq<Lexeme>)
    ensures TokensOf([head] + tail) == [head.token] + TokensOf(tail)
  {
    var ls := [head] + tail;
    var a := TokensOf(ls);
    var b := [head.token] + TokensOf(tail);
    forall i | 0 <= i < |a|
      ensures a[i] == b[i]
    {
      if i > 0 {
        assert ls[i] == tail[i - 1];
      }
    }
  }

  /** The first lexeme of a non-empty input is its first fragment. */
  lemma LexUnfold(s: Bytes)
    requires |s| > 0
    ensures var p := ParseFragment(s).value;
      Lex(s) == [Lexeme(p.token, s[..|s| - |p.rest|])] + Lex(p.rest)
  {
  }

  /** The tokens of a non-empty input are the first fragment's token, then those of the rest. */
  lemma TokensOfLex(s: Bytes)
    requires |s| > 0
    ensures TokensOf(Lex(s)) == [ParseFragment(s).value.token] + TokensOf(Lex(ParseFragment(s).value.rest))
  {
    var p := ParseFragment(s).value;
    LexUnfold(s);
    TokensOfCons(Lexeme(p.token, s[..|s| - |p.rest|]), Lex(p.rest));
  }

  /** Folding one more token and then the rest is the same as expanding all of `s` after `acc`. */
  lemma FoldOne(s: Bytes, acc: Result<Bytes, Error>, env: FakeEnv, pid: nat)
    requires |s| > 0
    ensures var p := ParseFragment(s).value;
      Then(Step(acc, p.token, env, pid), ExpandAll(TokensOf(Lex(p.rest)), env, pid))
      == Then(acc, ExpandAll(TokensOf(Lex(s)), env, pid))
  {
    var p := ParseFragment(s).value;
    var toks := TokensOf(Lex(s));
    TokensOfLex(s);
    assert toks[1..] == TokensOf(Lex(p.rest));
    ThenAssociative(acc, ExpandWith(p.token, env, pid), ExpandAll(toks[1..], env, pid));
  }

  /** nom's `Ok((rest, output))`. */
  datatype Done = Done(rest: Bytes, output: Result<Bytes, Error>)

  /**
    The loop of `fold_many1` after its first fragment: parse fragments until the parser fails
    (on empty input), folding each token into the accumulator. It always stops with nothing left,
    and its output is the accumulator followed by the reference expansion of what remained.
  */
  function FoldFragments(s: Bytes, acc: Result<Bytes, Error>, env: FakeEnv, pid: nat): (d: Done)
    ensures d.rest == []
    ensures d.output == Then(acc, ExpandAll(TokensOf(Lex(s)), env, pid))
    decreases |s|
  {
    match ParseFragment(s)
    case None =>
      ThenEmpty(acc);
      Done(s, acc)
    case Some(p) =>
      FoldOne(s, acc, env, pid);
      FoldFragments(p.rest, Step(acc, p.token, env, pid), env, pid)
  }

  /**
    `parse_with`: empty input gives empty text; otherwise `fold_many1` over `parse_fragment`,
    which needs one fragment to match. The whole input is always consumed, and the output is the
    in-order concatenation of the token expansions, or the first token error.
  */
  function ParseWith(env: FakeEnv, input: Bytes, pid: nat): (r: Option<Done>)
    ensures r.Some? && r.value.rest == []
    ensures r.value.output == ExpandAll(TokensOf(Lex(input)), env, pid)
  {
    if |input| == 0 then
      Some(Done(input, Success([])))
    else
      match ParseFragment(input)
      case None => None
      case Some(p) =>
        FoldOne(input, Success([]), env, pid);
        ThenEmpty(ExpandAll(TokensOf(Lex(input)), env, pid));
        Some(FoldFragments(p.rest, Step(Success([]), p.token, env, pid), env, pid))
  }

  /**
    The first fragment of valid text decodes, and what it leaves is valid text again: a constant
    ends before a `$` or at the end, and every other token is spelled in ASCII.
  */
  lemma FirstFragmentOfValidText(s: Bytes, env: FakeEnv, pid: nat)
    requires |s| > 0 && Valid(s)
    ensures ExpandWith(ParseFragment(s).value.token, env, pid).Success?
    ensures Valid(ParseFragment(s).value.rest)
  {
    var p := ParseFragment(s).value;
    FragmentOfValidText(s, p, env, pid);
  }

  /** The case analysis behind `FirstFragmentOfValidText`, for any fragment `s` starts with. */
  lemma FragmentOfValidText(s: Bytes, p: Parsed, env: FakeEnv, pid: nat)
    requires Valid(s) && Consumes(s, Some(p))
    requires p.token.Const? ==> |p.rest| == 0 || p.rest[0] == Dollar
    ensures ExpandWith(p.token, env, pid).Success? && Valid(p.rest)
  {
    var span := s[..|s| - |p.rest|];
    assert s == span + p.rest;
    if p.token.Const? {
      ValidSplit(p.token.text, p.rest);
    } else {
      SpelledInAscii(p.token, span);
      ValidAsciiPrefix(span, p.rest);
    }
  }

  /** Everything but a constant is spelled in ASCII, variable names included. */
  lemma SpelledInAscii(tok: Token, span: Bytes)
    requires Spells(tok, span) && !tok.Const?
    ensures AllAscii(span)
    ensures tok.Var? ==> Valid(tok.name)
  {
    if tok.Var? {
      assert AllAscii(tok.name);
      AsciiIsValid(tok.name);
    }
  }

  /** Valid text never fails to expand: the decoding errors of `expand_with` cannot occur. */
  lemma {:induction false} ValidInputExpands(s: Bytes, env: FakeEnv, pid: nat)
    requires Valid(s)
    ensures ExpandAll(TokensOf(Lex(s)), env, pid).Success?
    decreases |s|
  {
    if |s| > 0 {
      var p := ParseFragment(s).value;
      FirstFragmentOfValidText(s, env, pid);
      ValidInputExpands(p.rest, env, pid);
      TokensOfLex(s);
    }
  }

  /**
    `expand` (`src/lib.rs`): `parse(..).unwrap().1.unwrap()` on a `&str`. Because the input is
    valid text, neither unwrap can fail; the result is valid text.
  */
  function Expand(env: FakeEnv, input: Bytes, pid: nat): (out: Bytes)
    requires Valid(input)
    ensures Valid(out)
    ensures ParseWith(env, input, pid) == Some(Done([], Success(out)))
  {
    var r := ParseWith(env, input, pid);
    ValidInputExpands(input, env, pid);
    r.value.output.value
  }
}
