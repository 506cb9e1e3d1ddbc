/**
  Tokens and their expansion (`src/token.rs`).

  `token.rs` declares `Const`, `Var` and `Char`, while the parser also builds `Token::Pid`; the
  model adds `Pid` and expands it to the decimal rendering of the process id, which is a parameter
  here (`std::process::id()` reads the running process).
*/
module Tokens {

  import opened Wrappers
  import opened Utf8
  import opened Errors
  import opened Env

  datatype Token =
    | Const(text: Bytes)   // a run of input bytes, copied as text
    | Var(name: Bytes)     // a variable reference, `$name` or `${name}`
    | Char(c: char)        // a single character, the literal `$`
    | Pid                  // `$$` or `${$}`

  predicate IsDigit(b: Byte) {
    0x30 <= b <= 0x39
  }

  /** `u32::to_string`: decimal digits, most significant first, no leading zero. */
  function Decimal(n: nat): (r: Bytes)
    ensures |r| > 0 && (|r| > 1 ==> r[0] != 0x30)
    ensures forall i :: 0 <= i < |r| ==> IsDigit(r[i])
  {
    if n < 10 then [0x30 + n] else Decimal(n / 10) + [0x30 + n % 10]
  }

  /** The number a digit string denotes. */
  function DigitsValue(s: Bytes): nat
    requires forall i :: 0 <= i < |s| ==> IsDigit(s[i])
  {
    if |s| == 0 then 0
    else
      assert IsDigit(s[|s| - 1]);
      10 * DigitsValue(s[..|s| - 1]) + (s[|s| - 1] - 0x30)
  }

  lemma {:induction false} DecimalRoundTrip(n: nat)
    ensures DigitsValue(Decimal(n)) == n
  {
    if n >= 10 {
      var d := Decimal(n);
      assert d[..|d| - 1] == Decimal(n / 10);
      DecimalRoundTrip(n / 10);
    }
  }

  /** `String::from_utf8`: the same bytes as a `String`, or the error carrying them. */
  function FromUtf8(s: Bytes): (r: Result<Bytes, Error>)
    ensures r.Success? <==> Valid(s)
    ensures r.Success? ==> r.value == s
    ensures r.Failure? ==> r.error == FromUtf8Error(s)
  {
    if Valid(s) then Success(s) else Failure(FromUtf8Error(s))
  }

  /**
    `Token::expand_with`: the text a token stands for in `env`. Constants and names are decoded as
    UTF-8, a bound variable's value is converted lossily, an unbound variable is empty text.
  */
  function ExpandWith(tok: Token, env: FakeEnv, pid: nat): (r: Result<Bytes, Error>)
    // the result is always a Rust `String`
    ensures r.Success? ==> Valid(r.value)
    // the only failure is the decoding of a constant or of a variable name
    ensures r.Failure? <==> (tok.Const? && !Valid(tok.text)) || (tok.Var? && !Valid(tok.name))
    ensures r.Failure? ==> r.error.FromUtf8Error?
    ensures tok.Const? && Valid(tok.text) ==> r == Success(tok.text)
    // a bound variable gives its value (unchanged when it is valid text); an unbound one, nothing
    ensures tok.Var? && Valid(tok.name) && env.Get(tok.name).None? ==> r == Success([])
    ensures tok.Var? && Valid(tok.name) && env.Get(tok.name).Some? ==>
              r.Success? && (r.value == env.Get(tok.name).value <==> Valid(env.Get(tok.name).value))
    // a character becomes the one code point that decodes back to it
    ensures tok.Char? ==> r.Success? && 0 < CharLength(r.value) == |r.value|
    ensures tok.Char? ==> r.Success? && 0 < CharLength(r.value) && DecodeChar(r.value) == tok.c as int
    ensures tok.Char? ==> r.Success? && (tok.c as int < 0x80 ==> r.value == [tok.c as int])
    ensures tok.Pid? ==> r.Success? && (forall i :: 0 <= i < |r.value| ==> IsDigit(r.value[i]))
    ensures tok.Pid? ==> r.Success? && DigitsValue(r.value) == pid
  {
    match tok
    case Const(s) => FromUtf8(s)
    case Var(s) =>
      (match FromUtf8(s)
       case Failure(e) => Failure(e)
       case Success(key) =>
         match env.Get(key)
         case Some(value) => Success(Lossy(value))
         case None => Success([]))
    case Char(c) =>
      EncodeCharRoundTrip(c);
      Success(EncodeChar(c))
    case Pid =>
      var digits := Decimal(pid);
      DecimalRoundTrip(pid);
      assert forall i :: 0 <= i < |digits| ==> IsAscii(digits[i]);
      AsciiIsValid(digits);
      Success(digits)
  }
}
