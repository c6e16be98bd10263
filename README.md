# The `view!` template grammar of sycamore-macro, in Dafny

This project models the parser for two pieces of the `view!` template syntax of the
sycamore UI library's procedural macro (`packages/sycamore-macro/src/view/parse.rs`):

- **element tags**: a bare identifier (keywords included) is a builtin element, a string
  literal a custom element named by its decoded value, anything else the error
  "expected an element";
- **attribute descriptors**: a dash-joined attribute name (`IDENT ( '-' IDENT )*`) is read,
  rendered to its text, and dispatched in a fixed first-match order to `Ref`,
  `DangerouslySetInnerHtml`, `Event` (`on:<ident>`), `Bind` (`bind:<ident>`), `Bool` or
  `Str`, or to the error "unknown directive `<name>`".

The token stream is a `seq<Token>` and the cursor a position in it (a position at or past
the end is the end of input). Every parser returns `Ok(value, next)` with the position after
what it consumed, or `Fail(ParseError(kind, at))` with the position the diagnostic is
attached to.

Files:

- `tokens.dfy` (module `Tokens`): tokens, error kinds, and the cursor operations the grammar
  uses: shape peeks, `parse_any` (any identifier) and the plain identifier parse (which refuses
  an identifier whose spelling is reserved).
- `ir.dfy` (module `Ir`): the two IR types the parser builds, `ElementTag` and `AttributeType`.
- `parse.dfy` (module `Parse`): the grammar. `AttributeName::parse` is the method
  `ParseAttributeName`, whose `while` loop is proved equal to the recursive grammar
  `NameGrammar`/`Extensions`. `Display::fmt` is the method `Fmt`, whose `for` loop is proved
  equal to `Text`. The dispatch is the function `Dispatch`. `AttributeType::parse` is the
  method `ParseAttributeType`, proved equal to the function `AttributeTypeOf`, which the
  lemmas use.
- `properties.dfy` (module `Properties`): the loop's behaviour stated on the tokens, the
  split/join round trip of the rendered name, and round trips from the token spelling of
  every descriptor and element tag.

The boolean-attribute classification `is_bool_attr` is defined outside this file, so it is
a parameter `isBool: string -> bool` of every attribute parser. Likewise the parsing
library's list of reserved spellings (Rust keywords and `_`), which the plain identifier
parse consults, is a parameter `isKeyword: string -> bool` of the name grammar and of
everything built on it.

## Model

| member | source | states |
|---|---|---|
| `Parse.ParseElementTag` | packages/sycamore-macro/src/view/parse.rs:12-25 | an identifier (a reserved spelling too) gives `Builtin` with its text, a string literal gives `Custom` with its decoded value; each consumes exactly that one token; otherwise the parse fails with `ExpectedElement` at the current position |
| `Properties.ElementTagRoundTrip` | packages/sycamore-macro/src/view/parse.rs:14-21 | the token of any tag, placed anywhere in a stream, parses back to that tag and consumes one token, whatever the spelling of a builtin tag's identifier |
| `Parse.ParseAttributeName` | packages/sycamore-macro/src/view/parse.rs:35-44 | the loop's result equals the grammar `IDENT ( '-' IDENT )*`; on success it has consumed 1 + 2k tokens for k extended segments and stopped at a token that is not a dash |
| `Properties.ExtensionsOk` | packages/sycamore-macro/src/view/parse.rs:38-41 | the loop yields the segments `ext` and stops at `end` if and only if the tokens are pairs of a dash and an identifier whose spelling is not reserved, spelling `ext`, `end` lies two tokens further on per segment, and no dash is at `end` |
| `Properties.ExtensionsFails` | packages/sycamore-macro/src/view/parse.rs:39-40 | the loop fails with `e` if and only if, after some run of dash/identifier pairs, a dash is not followed by an identifier with an unreserved spelling; `e` is the identifier error at the token after that dash, propagated unchanged |
| `Properties.NameGrammarOk` | packages/sycamore-macro/src/view/parse.rs:37-43 | the name parser succeeds with a name if and only if the leading token is an identifier (any spelling) with the name's leading text, the extended segments follow as dash/identifier pairs, exactly 1 + 2k tokens are consumed and the next token is not a dash |
| `Properties.NameGrammarFails` | packages/sycamore-macro/src/view/parse.rs:37-41 | the name parser fails if and only if the leading token is not an identifier (error at the start) or a dash after some run of pairs is not followed by an identifier with an unreserved spelling (error after that dash) |
| `Properties.KeywordOnlyLeads` | packages/sycamore-macro/src/view/parse.rs:37-40 | a reserved spelling is accepted as the leading segment (`type-x`) but refused after a dash (`x-type`), with the identifier error at the reserved identifier |
| `Properties.NameOfSpelling` | packages/sycamore-macro/src/view/parse.rs:37-43 | the token spelling of any name whose extended segments are not reserved spellings, followed by anything but a dash, parses back to that name and consumes all of its spelling |
| `Parse.Fmt` | packages/sycamore-macro/src/view/parse.rs:47-58 | the loop writes the leading segment and then `-` and each extended segment in encounter order, that is `Text(n)` |
| `Properties.SplitOfText` | packages/sycamore-macro/src/view/parse.rs:49-56 | cutting the rendered text at its dashes gives back the leading segment and the extended segments in order, for segments without a dash (identifiers): the text is the dash-join of the segments |
| `Properties.TextOfSplit` | packages/sycamore-macro/src/view/parse.rs:49-56 | every text is the rendering of the name made of its dash-separated parts |
| `Parse.Dispatch` | packages/sycamore-macro/src/view/parse.rs:63-91 | `Ref` exactly for `ref` and `DangerouslySetInnerHtml` exactly for `dangerously_set_inner_html`, neither consuming a token; `Event`/`Bind` exactly for `on`/`bind` followed by a colon and an identifier of any spelling, consuming both; `Bool`/`Str` exactly when the name is neither reserved name, no colon follows and `isBool` holds/fails, carrying the whole name and consuming nothing; every other case fails, with the identifier error after the colon for `on`/`bind` and otherwise with "unknown directive" naming the text at the leading token |
| `Parse.ParseAttributeType` | packages/sycamore-macro/src/view/parse.rs:60-91 | parsing the name, rendering it and dispatching gives `AttributeTypeOf`, the grammar followed by the dispatch, with name errors propagated unchanged |
| `Properties.AttributeRoundTrip` | packages/sycamore-macro/src/view/parse.rs:60-91 | the token spelling of every descriptor parses back to that descriptor and consumes exactly its spelling, when what follows does not extend the name (no dash) and, for plain attributes, is no colon, the parts of a plain name after the first are not reserved spellings, and the plain name is classified as its variant says |
| `Properties.ReservedNamesLeaveColon` | packages/sycamore-macro/src/view/parse.rs:63-66 | `ref` and `dangerously_set_inner_html` followed by a colon still give `Ref`/`DangerouslySetInnerHtml` and leave the colon unconsumed |
| `Properties.UnknownDirectiveAtLead` | packages/sycamore-macro/src/view/parse.rs:67-86 | any name other than `ref`, `dangerously_set_inner_html`, `on` and `bind` followed by a colon (`foo:bar`) fails with "unknown directive" naming the whole rendered text, at the leading token |
| `Properties.DashedDirectiveIsUnknown` | packages/sycamore-macro/src/view/parse.rs:67-86 | a dashed name such as `on-x` followed by a colon fails with "unknown directive" naming the whole dash-joined text, at the leading token |
| `Properties.DirectiveWithoutArgument` | packages/sycamore-macro/src/view/parse.rs:67-80 | `on:` or `bind:` not followed by an identifier fails with the identifier error just after the consumed colon |

## Left out

- The parsing library's cursor machinery (lookahead buffers, spans, `syn::Error`
  construction): a diagnostic is an error kind and a token position, and the exact message
  texts of the library's identifier errors (end of input, keyword found) are one kind,
  `ExpectedIdentifier`.
- Tokenisation: the stream is already a sequence of tokens, and every identifier, reserved
  or not, is an `Ident` token. `-` and `:` are single punctuation tokens, so a joint `->` or
  `::` is seen by the one-character peek as its first character, as the library does.
- The library's list of reserved spellings: the plain identifier parse tests an identifier's
  spelling against it, and the model takes it as the parameter `isKeyword` rather than
  spelling the list out.
- What a failed parse has consumed: a failure carries only the position of its diagnostic,
  not the cursor after it (for example the colon consumed before "unknown directive"). Every
  error ends the whole macro expansion, so nothing reads the stream after a failure.
- String-literal escape decoding (`LitStr::value`): a string-literal token carries its
  decoded value.
- `is_bool_attr`: defined outside this file, it is the parameter `isBool`; the HTML
  boolean-attribute list is not part of this model.
- The `ir` module is not part of this model; `ElementTag` and `AttributeType` are minimal
  datatypes with the variants this file builds. A builtin tag keeps the identifier's text,
  not the identifier with its span.
- How an identifier renders as text (raw identifiers and the like): a token carries its
  text as given.
- The rest of the macro (the `view!` entry point, code generation).
- The stream object advanced in place: the cursor is passed as a position and
  returned, rather than a stream object advanced in place.
