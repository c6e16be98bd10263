/** The `view!` template grammar: element tags and attribute descriptors
    (packages/sycamore-macro/src/view/parse.rs). */
module Parse {
  import opened Tokens
  import opened Ir

  // ---------------------------------------------------------------------------
  // Element tags
  // ---------------------------------------------------------------------------

  /** `ElementTag::parse`: an identifier (a reserved spelling too) is a builtin element, a string
      literal a custom element with the literal's decoded value; anything else is the
      "expected an element" error at the current position. Exactly one token is consumed
      on success and none on failure. */
  function ParseElementTag(toks: seq<Token>, pos: nat): (r: Parsed<ElementTag>)
    ensures r.Ok? ==> r.next == pos + 1
    ensures r.Ok? && r.value.Builtin? <==> IdentAt(toks, pos)
    ensures r.Ok? && r.value.Builtin? ==> r.value.name == toks[pos].text
    ensures r.Ok? && r.value.Custom? <==> LitStrAt(toks, pos)
    ensures r.Ok? && r.value.Custom? ==> r.value.name == toks[pos].value
    ensures r.Fail? <==> !IdentAt(toks, pos) && !LitStrAt(toks, pos)
    ensures r.Fail? ==> r.error == ParseError(ExpectedElement, pos)
  {
    if IdentAt(toks, pos) then
      Ok(Builtin(toks[pos].text), pos + 1)
    else if LitStrAt(toks, pos) then
      Ok(Custom(toks[pos].value), pos + 1)
    else
      Fail(ParseError(ExpectedElement, pos))
  }

  // ---------------------------------------------------------------------------
  // Attribute names
  // ---------------------------------------------------------------------------

  /** The dash-joined attribute name: the leading segment and the segments that follow a
      `-`, in encounter order. The dash tokens themselves carry only source spans, so only
      the identifier texts are kept. */
  datatype AttributeName = AttributeName(tag: string, extended: seq<string>)

  /** `-s1-s2...-sn` for the extended segments `s1, ..., sn`. */
  function Dashed(ext: seq<string>): string {
    if ext == [] then "" else "-" + ext[0] + Dashed(ext[1..])
  }

  /** The text `Display` renders for a name, which is the lookup key of the dispatch. */
  function Text(n: AttributeName): string {
    n.tag + Dashed(n.extended)
  }

  lemma {:induction false} DashedSnoc(ext: seq<string>, seg: string)
    ensures Dashed(ext + [seg]) == Dashed(ext) + "-" + seg
    decreases |ext|
  {
    if ext == [] {
      assert ext + [seg] == [seg];
    } else {
      assert (ext + [seg])[1..] == ext[1..] + [seg];
      DashedSnoc(ext[1..], seg);
    }
  }

  /** `Display::fmt` for an attribute name: write the leading segment, then `-` and each
      extended segment in order. */
  method Fmt(n: AttributeName) returns (s: string)
    ensures s == Text(n)
  {
    s := n.tag;
    for i := 0 to |n.extended|
      invariant s == n.tag + Dashed(n.extended[..i])
    {
      assert n.extended[..i + 1] == n.extended[..i] + [n.extended[i]];
      DashedSnoc(n.extended[..i], n.extended[i]);
      s := s + "-" + n.extended[i];
    }
    assert n.extended[..|n.extended|] == n.extended;
  }

  /** The `while input.peek(Token![-])` loop read as a grammar, `( '-' IDENT )*` from `cur`:
      each round consumes the dash and one plain identifier; the first non-dash token ends
      it; an identifier parse that fails ends the whole parse with its error. */
  function Extensions(toks: seq<Token>, cur: nat, isKeyword: string -> bool): Parsed<seq<string>>
    decreases |toks| - cur
  {
    if !DashAt(toks, cur) then Ok([], cur)
    else
      match ParseIdent(toks, cur + 1, isKeyword)
      case Fail(e) => Fail(e)
      case Ok(seg, after) =>
        match Extensions(toks, after, isKeyword)
        case Fail(e) => Fail(e)
        case Ok(rest, end) => Ok([seg] + rest, end)
  }

  /** `AttributeName::parse` as a grammar, `IDENT ( '-' IDENT )*`; the leading segment may
      be a reserved spelling, the later ones may not (`isKeyword` is the library's list of
      reserved spellings). */
  function NameGrammar(toks: seq<Token>, pos: nat, isKeyword: string -> bool): Parsed<AttributeName> {
    match ParseAnyIdent(toks, pos)
    case Fail(e) => Fail(e)
    case Ok(tag, cur) =>
      match Extensions(toks, cur, isKeyword)
      case Fail(e) => Fail(e)
      case Ok(ext, end) => Ok(AttributeName(tag, ext), end)
  }

  /** `ext` in front of the segments of a successful outcome; a failure stays as it is. */
  function Prepend(ext: seq<string>, p: Parsed<seq<string>>): Parsed<seq<string>> {
    match p
    case Ok(rest, end) => Ok(ext + rest, end)
    case Fail(e) => Fail(e)
  }

  lemma PrependNil(p: Parsed<seq<string>>)
    ensures Prepend([], p) == p
  {
    if p.Ok? {
      assert [] + p.value == p.value;
    }
  }

  lemma PrependSnoc(ext: seq<string>, seg: string, p: Parsed<seq<string>>)
    ensures Prepend(ext + [seg], p) == Prepend(ext, Prepend([seg], p))
  {
    if p.Ok? {
      assert ext + [seg] + p.value == ext + ([seg] + p.value);
    }
  }

  /** `AttributeName::parse`: the leading identifier, then dash and identifier pairs pushed
      onto `extended` for as long as the next token is a dash. */
  method ParseAttributeName(toks: seq<Token>, pos: nat, isKeyword: string -> bool) returns (r: Parsed<AttributeName>)
    ensures r == NameGrammar(toks, pos, isKeyword)
    ensures r.Ok? ==> r.next == pos + 1 + 2 * |r.value.extended| && !DashAt(toks, r.next)
  {
    var lead := ParseAnyIdent(toks, pos);
    if lead.Fail? {
      return Fail(lead.error);
    }
    var tag, cur := lead.value, lead.next;
    var extended: seq<string> := [];
    PrependNil(Extensions(toks, cur, isKeyword));
    while DashAt(toks, cur)
      invariant cur == pos + 1 + 2 * |extended| && cur <= |toks| + 1
      invariant Extensions(toks, pos + 1, isKeyword) == Prepend(extended, Extensions(toks, cur, isKeyword))
      decreases |toks| + 1 - cur
    {
      cur := cur + 1;  // the dash, known to be there
      var seg := ParseIdent(toks, cur, isKeyword);
      if seg.Fail? {
        return Fail(seg.error);
      }
      assert Extensions(toks, cur - 1, isKeyword) == Prepend([seg.value], Extensions(toks, seg.next, isKeyword));
      PrependSnoc(extended, seg.value, Extensions(toks, seg.next, isKeyword));
      extended := extended + [seg.value];
      cur := seg.next;
    }
    assert Extensions(toks, pos + 1, isKeyword) == Ok(extended, cur) by {
      assert extended + [] == extended;
    }
    r := Ok(AttributeName(tag, extended), cur);
  }

  // ---------------------------------------------------------------------------
  // Attribute descriptors
  // ---------------------------------------------------------------------------

  /** The dispatch of `AttributeType::parse` on the rendered name `name`, whose leading token
      is at `tagPos`, with the cursor at `cur` just after the name. First match wins:
      `ref`, then `dangerously_set_inner_html` (neither looks for a colon), then, when a colon
      follows, the colon is consumed and only `on` and `bind` are accepted, each taking one
      identifier; without a colon the attribute is boolean or string-valued by the
      external classification `isBool`. */
  function Dispatch(name: string, tagPos: nat, toks: seq<Token>, cur: nat, isBool: string -> bool)
    : (r: Parsed<AttributeType>)
    ensures r.Ok? && r.value.Ref? <==> name == "ref"
    ensures r.Ok? && r.value.DangerouslySetInnerHtml? <==> name == "dangerously_set_inner_html"
    ensures r.Ok? && (r.value.Ref? || r.value.DangerouslySetInnerHtml?) ==> r.next == cur
    ensures r.Ok? && r.value.Event? <==> name == "on" && ColonAt(toks, cur) && IdentAt(toks, cur + 1)
    ensures r.Ok? && r.value.Bind? <==> name == "bind" && ColonAt(toks, cur) && IdentAt(toks, cur + 1)
    ensures r.Ok? && r.value.Event? ==> r.value.event == toks[cur + 1].text && r.next == cur + 2
    ensures r.Ok? && r.value.Bind? ==> r.value.prop == toks[cur + 1].text && r.next == cur + 2
    ensures r.Ok? && r.value.Bool? <==>
              name != "ref" && name != "dangerously_set_inner_html" && !ColonAt(toks, cur) && isBool(name)
    ensures r.Ok? && r.value.Str? <==>
              name != "ref" && name != "dangerously_set_inner_html" && !ColonAt(toks, cur) && !isBool(name)
    ensures r.Ok? && (r.value.Bool? || r.value.Str?) ==> r.value.name == name && r.next == cur
    ensures r.Fail? && (name == "on" || name == "bind") ==> r.error == ParseError(ExpectedIdentifier, cur + 1)
    ensures r.Fail? && name != "on" && name != "bind" ==> r.error == ParseError(UnknownDirective(name), tagPos)
  {
    if name == "ref" then
      Ok(Ref, cur)
    else if name == "dangerously_set_inner_html" then
      Ok(DangerouslySetInnerHtml, cur)
    else if ColonAt(toks, cur) then
      var afterColon := cur + 1;
      if name == "on" then
        match ParseAnyIdent(toks, afterColon)
        case Fail(e) => Fail(e)
        case Ok(event, end) => Ok(Event(event), end)
      else if name == "bind" then
        match ParseAnyIdent(toks, afterColon)
        case Fail(e) => Fail(e)
        case Ok(prop, end) => Ok(Bind(prop), end)
      else
        Fail(ParseError(UnknownDirective(name), tagPos))
    else if isBool(name) then
      Ok(Bool(name), cur)
    else
      Ok(Str(name), cur)
  }

  /** `AttributeType::parse` as a function of the tokens: the name grammar, then the
      dispatch on the rendered name. Errors of the name grammar are propagated unchanged. */
  function AttributeTypeOf(toks: seq<Token>, pos: nat, isKeyword: string -> bool, isBool: string -> bool)
    : Parsed<AttributeType>
  {
    match NameGrammar(toks, pos, isKeyword)
    case Fail(e) => Fail(e)
    case Ok(ident, cur) => Dispatch(Text(ident), pos, toks, cur, isBool)
  }

  /** `AttributeType::parse`: parse the name, render it, dispatch. */
  method ParseAttributeType(toks: seq<Token>, pos: nat, isKeyword: string -> bool, isBool: string -> bool)
    returns (r: Parsed<AttributeType>)
    ensures r == AttributeTypeOf(toks, pos, isKeyword, isBool)
  {
    var ident := ParseAttributeName(toks, pos, isKeyword);
    if ident.Fail? {
      return Fail(ident.error);
    }
    var name := Fmt(ident.value);
    r := Dispatch(name, pos, toks, ident.next, isBool);
  }
}
