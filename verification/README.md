# expandvars-rs: the `$`-variable expander, modelled in Dafny

The crate expands shell-style references in a string. `src/parser.rs` splits the input, left to
right, into fragments:

- a constant, which is a maximal non-empty run of bytes other than `$`;
- a variable, `$name` or `${name}`, where a name is a maximal run of `[A-Za-z0-9_]`;
- the process id, `$$` or `${$}`;
- a literal `$`, when the `$` starts none of the forms above.

`Token::expand_with` (`src/token.rs`) turns each token into text against an environment. A
constant and a variable name are decoded as UTF-8. A bound variable gives its value, converted
lossily. An unbound variable gives nothing. `parse_with` folds the token texts together in input
order, and the first error wins. The environment is the `Enviroment` trait, and the model uses its
in-memory implementation `FakeEnv` (`src/env.rs`).

The model works on bytes, as the Rust code does (`&[u8]` in, `String` out):

- `Utf8` defines well-formed UTF-8, following Table 3-7 of the Unicode Standard. It also defines
  `to_string_lossy`, which replaces each maximal ill-formed subpart with U+FFFD, and the encoding
  of a `char`.
- `Env` is the environment as a finite map from byte strings to byte strings. On Unix an
  `OsString` is a byte string.
- `Tokens` holds the token type and `expand_with`.
- `Parser` holds each nom parser as a function from the remaining input to an optional
  `(token, rest)`, the `fold_many1` loop, `parse_with` and `expand` from `src/lib.rs`. It also
  holds `ExpandAll`, an independent right-fold definition of what a run computes. The fold is
  proved equal to it.
- `Properties` holds the tie-breaks and the whole-input guarantees.
- `Examples` holds the unit tests of `src/parser.rs` and the assertions of `src/tests.rs` that
  the code satisfies. Each becomes a lemma over all names, values and separators of the same
  shape. `$$` and `${$}` (src/tests.rs:49-50) are covered by `Properties.PidFormsExpandAlike`.
  The default-operator assertions are under "Left out".

`src/parser.rs` builds `Token::Pid`, but `src/token.rs` declares no such variant. The model adds
`Pid` and expands it to the decimal digits of a `pid` parameter. `src/lib.rs` declares neither the
`env` nor the `token` module, and the tests call an `expand_with` that `src/lib.rs` does not define.
The model therefore treats `parse_with` as the entry point, with the environment as a parameter.

## Model

| member | source | states |
|---|---|---|
| Utf8.Lossy | src/token.rs:21 | `to_string_lossy` always yields valid text, and it returns its input unchanged exactly when the input is already valid text |
| Utf8.EncodeChar | src/token.rs:26 | a `char` becomes one to four bytes that form exactly one well-formed code point; an ASCII character becomes its single byte |
| Utf8.EncodeCharRoundTrip | src/token.rs:26 | decoding the bytes written for a `char` gives back that `char` |
| Utf8.ValidConcat | src/parser.rs:62-64 | appending one `String` to another (`push_str`) gives valid text |
| Utf8.ValidSplit | src/parser.rs:18 | valid text cut just before a byte that cannot continue a code point, such as `$`, leaves two valid halves |
| Env.FakeEnv.Get | src/env.rs:32-34 | `get` returns a copy of the value stored under the key, and returns one exactly for the keys that are set |
| Env.FakeEnv.Set | src/env.rs:36-39 | after `set(k, v)`, `get(k)` is `Some(v)`; every other key keeps its binding; the key set gains exactly `k` |
| Env.Empty | src/env.rs:25-29 | the default `FakeEnv` binds no key: `get` is `None` everywhere |
| Env.SetOverwrites | src/env.rs:37-38 | a second `set` of the same key replaces the first binding |
| Tokens.Decimal | src/tests.rs:48 | `to_string` of the pid is a non-empty string of decimal digits with no leading zero |
| Tokens.DecimalRoundTrip | src/tests.rs:48 | the decimal string of the pid reads back as the pid |
| Tokens.FromUtf8 | src/token.rs:17 | `String::from_utf8` succeeds exactly on valid text, returns the same bytes, and its error carries the rejected bytes |
| Tokens.ExpandWith | src/token.rs:12-28 | a result is always valid text; it fails exactly for a constant or a variable name that is not valid text, and only with a decoding error; a valid constant is copied; an unbound variable is empty text; a bound variable is its value, unchanged exactly when that value is valid text; a `Char` becomes the code point that decodes back to it; the pid becomes decimal digits whose value is the pid |
| Parser.IsVariableName | src/parser.rs:13-15 | a name byte is ASCII and is never `$`, `{` or `}`, so a name never runs into the delimiters of a reference |
| Parser.NameRun | src/parser.rs:26 | the length of the longest prefix of `[A-Za-z0-9_]` bytes: every byte before it is a name byte and the byte at it, if any, is not |
| Parser.ConstRun | src/parser.rs:18 | the length of the longest prefix without `$`: it stops at the end or at a `$` |
| Parser.ParseConstant | src/parser.rs:17-19 | matches exactly when the input is non-empty and does not start with `$`; it takes a maximal `$`-free run and leaves the rest starting at `$` or empty |
| Parser.ParsePid | src/parser.rs:21-23 | matches exactly a leading `$` and gives `Pid` with the rest after it |
| Parser.ParseName | src/parser.rs:26 | matches exactly when the first byte is a name byte; the name is a non-empty run of name bytes, and the byte after it is not one |
| Parser.ParseVariableBody | src/parser.rs:25-27 | a leading `$` gives `Pid`, tried before a name; otherwise it is the name parser |
| Parser.ParseBracedVariableBody | src/parser.rs:29-31 | a match consumed exactly `{$}` (giving `Pid`) or `{` name `}` (giving `Var(name)`) |
| Parser.ParseDollar | src/parser.rs:33-35 | matches exactly a leading `$` and gives the literal `$` with the rest after it |
| Parser.ParseVariable | src/parser.rs:37-42 | a match starts with `$`, yields a variable or the pid, and consumes a prefix that spells its token |
| Parser.ParseFragment | src/parser.rs:44-46 | a fragment is found exactly when the input is non-empty; it consumes at least one byte, the consumed prefix spells the token, and a constant stops before a `$` or at the end |
| Parser.Lex | src/parser.rs:17-46 | the spans of the fragments, put back together in order, are exactly the input, and each span spells its token |
| Parser.Step | src/parser.rs:61-65 | the fold's closure is the first-error-wins combination of the accumulator with the token's expansion: an error already in the accumulator is kept unchanged |
| Parser.ExpandAll | src/parser.rs:58-66 | the reference meaning of a token sequence succeeds exactly when every token expands; its text is valid; its error is a decoding error |
| Parser.ThenAssociative | src/parser.rs:61-65 | combining results with "first error wins, otherwise concatenate" does not depend on grouping |
| Parser.FoldFragments | src/parser.rs:58-66 | the `fold_many1` loop consumes all of its input, and its output is the accumulator combined with the reference meaning of the remaining tokens |
| Parser.ParseWith | src/parser.rs:48-68 | `parse_with` always succeeds with nothing left over; the output equals the reference meaning of the input's tokens |
| Parser.FirstFragmentOfValidText | src/token.rs:17-19 | on valid text the first fragment's token expands without error, and the rest after it is valid text again |
| Parser.ValidInputExpands | src/lib.rs:8 | on valid text the expansion never fails |
| Parser.Expand | src/lib.rs:7-9 | `expand` of a `&str`: neither `unwrap` can fail; the result is valid text and is the output of `parse_with` |
| Properties.BracedBodyMatches | src/parser.rs:29-31 | the braced body matches exactly when `{` is followed by `$}` or by a name and then `}` |
| Properties.LoneDollarIsLiteral | src/parser.rs:33-46 | a `$` becomes the literal `$` exactly when what follows opens no reference (`$`, a name byte, `{$}` or `{name}`); the rest is then tokenised on its own |
| Properties.ConstantIsMaximalRun | src/parser.rs:17-19 | a non-empty `$`-free text followed by `$` or by nothing is one constant |
| Properties.DoubleDollarIsPid | src/parser.rs:37-42 | `$$` is the pid, whatever follows |
| Properties.BracedDollarIsPid | src/parser.rs:29-31 | `${$}` is the pid, whatever follows |
| Properties.BracedNameIsVariable | src/parser.rs:29-31 | `${name}` is the variable `name`, whatever follows |
| Properties.NameRunOf | src/parser.rs:13-15 | a name followed by a non-name byte, or by nothing, is a run of exactly the name's length |
| Properties.BareNameIsMaximal | src/parser.rs:26 | `$name` followed by a non-name byte, or by nothing, is the variable `name`, so a leading digit does not end it |
| Properties.LexOfFragment | src/parser.rs:58-59 | once a fragment is recognised, the tokens of the input are that fragment followed by the tokens of the rest |
| Properties.BareAndBracedExpandAlike | src/tests.rs:23-24 | `$name` and `${name}` expand alike when no name byte follows the bare form |
| Properties.PidFormsExpandAlike | src/tests.rs:49-50 | `$$` and `${$}` expand alike, and `$$` alone expands to the decimal pid |
| Properties.ExpandsFirstFragmentThenRest | src/parser.rs:58-66 | the output is the first fragment's expansion followed by the output for the rest, or the first of their errors |
| Properties.EmptyInputExpandsToEmpty | src/parser.rs:55-56 | the empty input expands to the empty text with nothing left over |
| Properties.NoDollarExpandsToItself | src/parser.rs:17-18 | input without `$` expands to itself when it is valid text, and to its decoding error otherwise |
| Properties.FirstErrorWins | src/parser.rs:61-64 | the first token that fails decides the result, and no later token matters |
| Properties.SuccessConcatenates | src/parser.rs:62-64 | when every token expands, the output is their texts concatenated in order |
| Properties.ErrorsComeFromConstants | src/token.rs:17-19 | a failed run reports the decoding error of a constant of the input that is not valid text |
| Examples.PlainText | src/tests.rs:7-10 | valid text without a `$`, such as `foo` or `{}{{}}`, expands to itself |
| Examples.TrailingDollarIsLiteral | src/tests.rs:7-10 | `$`, and any `$`-free text followed by `$` such as `bar$`, expand to themselves |
| Examples.UnsetVariableIsEmpty | src/tests.rs:15-16 | the empty input, and `$name` for an unset name, expand to nothing |
| Examples.SimpleLookup | src/tests.rs:21-24 | `$name` and `${name}` both expand to the value bound to the name |
| Examples.TwoReferences | src/tests.rs:31-39 | two bound references, each bare or braced, around a separator expand to the two values around the same separator |
| Examples.TextThenReference | src/tests.rs:41-43 | text before a bare or braced reference is kept in front of the value |
| Examples.PidInText | src/tests.rs:51 | `$$` between `$`-free texts becomes the decimal pid between the same texts |
| Examples.BraceWithoutName | src/parser.rs:29-31 | `${` followed by `$`-free valid text that does not start with a name byte, such as `${}`, is copied literally |
| Examples.UnclosedBraceIsLiteral | src/parser.rs:29-31 | `${name` followed by `$`-free valid text that does not start with `}` or a name byte, such as `${foo`, is copied literally |
| Examples.DefaultIsLiteral | src/tests.rs:60 | `${FOO-default}` is copied literally, because the grammar has no default operator |
| Examples.ParseConstantWhole | src/parser.rs:81-85 | a non-empty `$`-free text such as `foo.bar` is one constant, with nothing left over |
| Examples.ParseVariableBare | src/parser.rs:89-90 | `$name` such as `$var` is the variable `name`, with nothing left over |
| Examples.ParseBracedBody | src/parser.rs:94-98 | `{name}` such as `{var}` is the variable `name`, with nothing left over |
| Examples.ParseLoneDollar | src/parser.rs:102-103 | a lone `$` is the literal character `$`, with nothing left over |
| Examples.ParseFragmentWhole | src/parser.rs:107-109 | as a fragment, `$`-free text such as `foo` is one constant and `$name` such as `$var` is one variable |
| Examples.ParseCombo | src/parser.rs:112-124 | `foo$var.foo.${var}$` with `var` bound to `value` expands to `foovalue.foo.value$`, for any constants, name and value of that shape |

## Left out

- `ProcessEnv` (src/env.rs:11-21) reads and writes the process environment through `std::env`. `parse` (src/parser.rs:70-72) and `src/expander.rs` only read it, through `ProcessEnv::get` and `std::env::var`. Nothing calls `src/expander.rs`. This is process I/O, so the environment is always a `FakeEnv` value passed in.
- `std::process::id()` reads the running process, so the pid is a parameter. Its 32-bit width is not enforced, and any natural number is rendered.
- `Env.FakeEnv.Get` and `Tokens.ExpandWith` cannot change the environment. They take it as an immutable value, as `get(&self)` does, so no contract states this.
- nom's error kinds and the `Incomplete` case are not modelled. A failing parser is `None`. All input is complete.
- `fold_many1` returns an error when a parser succeeds without consuming input. That cannot happen here, because every fragment consumes at least one byte (`Parser.ParseFragment`), so that branch is not modelled.
- `FakeEnv::empty()` and `FakeEnv::with(..)` are called by the tests but are not defined in src/env.rs. `Env.Empty` models `Default`, and a chain of `with` calls is a chain of `Set` calls.
- The `-` and `:-` default operators and the `\$` escape that src/tests.rs:60-80 expects are not implemented by the parser. The model follows the code, so those assertions do not hold for it. `Examples.DefaultIsLiteral` shows what the code does with `${FOO-default}`. The assign, alternate, required and substring operators appear only in the commented-out tests from src/tests.rs:94 on, and are out of scope.
- `Error::VarError` is declared but never built on the token path. It is kept as a constructor and produced nowhere.
- The literal `$` is the only `Char` the parser builds. `Tokens.ExpandWith` handles any `char` anyway.
- `Examples` lemmas replace each test's literal strings with parameters of the same shape. The concrete byte strings are not spelled out.
