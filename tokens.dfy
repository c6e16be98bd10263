/** The token stream the `view!` grammar reads, and the few cursor operations of the
    parsing library that the grammar uses (peek a token shape, consume an identifier).
    The cursor is a position into a finite sequence of tokens; a position at or past the
    end of the sequence is the end of input. */
module Tokens {

  /** One lexical token as the grammar sees it.
      - `Ident` is any identifier, reserved spellings (`type`, `for`, `ref`, `_`, ...) included;
        whether its text is reserved is decided by the parse that reads it, not by the token.
      - `LitStr` is a string literal; it carries its decoded value (escapes resolved, quotes stripped).
      - `Dash` and `Colon` are the single punctuation characters `-` and `:`.
      - `Other` is every other token. */
  datatype Token =
    | Ident(text: string)
    | LitStr(value: string)
    | Dash
    | Colon
    | Other

  datatype ErrorKind =
    | ExpectedElement               // "expected an element"
    | ExpectedIdentifier            // the library's own identifier diagnostic, propagated as is
    | UnknownDirective(name: string) // "unknown directive `<name>`"

  /** A fatal diagnostic and the position of the token it is attached to. */
  datatype ParseError = ParseError(kind: ErrorKind, at: nat)

  /** The outcome of one parser: a value and the position after the consumed tokens, or an error. */
  datatype Parsed<+T> = Ok(value: T, next: nat) | Fail(error: ParseError)

  predicate DashAt(toks: seq<Token>, pos: nat) {
    pos < |toks| && toks[pos] == Dash
  }

  predicate ColonAt(toks: seq<Token>, pos: nat) {
    pos < |toks| && toks[pos] == Colon
  }

  /** `input.peek(Ident::peek_any)` */
  predicate IdentAt(toks: seq<Token>, pos: nat) {
    pos < |toks| && toks[pos].Ident?
  }

  /** `input.peek(LitStr)` */
  predicate LitStrAt(toks: seq<Token>, pos: nat) {
    pos < |toks| && toks[pos].LitStr?
  }

  /** An identifier that the plain identifier parse accepts: one whose spelling is not in
      the library's reserved list `isKeyword`. */
  predicate PlainIdentAt(toks: seq<Token>, pos: nat, isKeyword: string -> bool) {
    IdentAt(toks, pos) && !isKeyword(toks[pos].text)
  }

  /** `input.call(Ident::parse_any)`: one identifier, reserved spellings included. */
  function ParseAnyIdent(toks: seq<Token>, pos: nat): Parsed<string> {
    if IdentAt(toks, pos) then Ok(toks[pos].text, pos + 1)
    else Fail(ParseError(ExpectedIdentifier, pos))
  }

  /** `input.parse::<Ident>()`: one identifier whose spelling is not reserved. */
  function ParseIdent(toks: seq<Token>, pos: nat, isKeyword: string -> bool): Parsed<string> {
    if PlainIdentAt(toks, pos, isKeyword) then Ok(toks[pos].text, pos + 1)
    else Fail(ParseError(ExpectedIdentifier, pos))
  }
}
