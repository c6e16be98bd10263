/** Properties of the `view!` grammar: what the attribute-name loop consumes and when it
    fails, the rendered name as the dash-join of its segments, the dispatch on token
    spellings of every descriptor, and the element-tag cases. */
module Properties {
  import opened Tokens
  import opened Ir
  import opened Parse

  // ---------------------------------------------------------------------------
  // The attribute-name loop, stated on the tokens
  // ---------------------------------------------------------------------------

  /** No segment is a reserved spelling. */
  predicate PlainSegments(ext: seq<string>, isKeyword: string -> bool) {
    forall i :: 0 <= i < |ext| ==> !isKeyword(ext[i])
  }

  /** From `cur` on, the tokens are `- s1 - s2 ... - sn` for the identifiers `ext`, none of
      which is a reserved spelling. */
  ghost predicate DashSegments(toks: seq<Token>, cur: nat, ext: seq<string>, isKeyword: string -> bool) {
    forall i :: 0 <= i < |ext| ==>
      cur + 2 * i + 1 < |toks| && toks[cur + 2 * i] == Dash && toks[cur + 2 * i + 1] == Ident(ext[i])
              && !isKeyword(ext[i])
      && !isKeyword(ext[i])
  }

  /** A dash at `p` that is not followed by a plain identifier. */
  predicate DanglingDash(toks: seq<Token>, p: nat, isKeyword: string -> bool) {
    DashAt(toks, p) && !PlainIdentAt(toks, p + 1, isKeyword)
  }

  lemma DashSegmentsCons(toks: seq<Token>, cur: nat, ext: seq<string>, isKeyword: string -> bool)
    requires ext != []
    ensures DashSegments(toks, cur, ext, isKeyword) <==>
              cur + 1 < |toks| && toks[cur] == Dash && toks[cur + 1] == Ident(ext[0]) && !isKeyword(ext[0])
              && DashSegments(toks, cur + 2, ext[1..], isKeyword)
  {
    if cur + 1 < |toks| && toks[cur] == Dash && toks[cur + 1] == Ident(ext[0]) && !isKeyword(ext[0])
       && DashSegments(toks, cur + 2, ext[1..], isKeyword)
    {
      DashSegmentsFromTail(toks, cur, ext, isKeyword);
    }
    if DashSegments(toks, cur, ext, isKeyword) {
      DashSegmentsToTail(toks, cur, ext, isKeyword);
    }
  }

  lemma DashSegmentsFromTail(toks: seq<Token>, cur: nat, ext: seq<string>, isKeyword: string -> bool)
    requires ext != []
    requires cur + 1 < |toks| && toks[cur] == Dash && toks[cur + 1] == Ident(ext[0]) && !isKeyword(ext[0])
    requires DashSegments(toks, cur + 2, ext[1..], isKeyword)
    ensures DashSegments(toks, cur, ext, isKeyword)
  {
    forall i | 0 <= i < |ext|
      ensures cur + 2 * i + 1 < |toks| && toks[cur + 2 * i] == Dash && toks[cur + 2 * i + 1] == Ident(ext[i])
              && !isKeyword(ext[i])
    {
      if i > 0 {
        var j := i - 1;
        assert ext[1..][j] == ext[i];
        assert cur + 2 + 2 * j == cur + 2 * i;
        assert cur + 2 + 2 * j + 1 < |toks| && toks[cur + 2 + 2 * j] == Dash
               && toks[cur + 2 + 2 * j + 1] == Ident(ext[1..][j]) && !isKeyword(ext[1..][j]);
      }
    }
  }

  lemma DashSegmentsToTail(toks: seq<Token>, cur: nat, ext: seq<string>, isKeyword: string -> bool)
    requires ext != []
    requires DashSegments(toks, cur, ext, isKeyword)
    ensures cur + 1 < |toks| && toks[cur] == Dash && toks[cur + 1] == Ident(ext[0]) && !isKeyword(ext[0])
    ensures DashSegments(toks, cur + 2, ext[1..], isKeyword)
  {
    assert cur + 2 * 0 + 1 < |toks| && toks[cur + 2 * 0] == Dash && toks[cur + 2 * 0 + 1] == Ident(ext[0])
           && !isKeyword(ext[0]);
    forall j | 0 <= j < |ext[1..]|
      ensures cur + 2 + 2 * j + 1 < |toks| && toks[cur + 2 + 2 * j] == Dash
              && toks[cur + 2 + 2 * j + 1] == Ident(ext[1..][j]) && !isKeyword(ext[1..][j])
    {
      var i := j + 1;
      assert ext[1..][j] == ext[i];
      assert cur + 2 * i == cur + 2 + 2 * j;
      assert cur + 2 * i + 1 < |toks| && toks[cur + 2 * i] == Dash && toks[cur + 2 * i + 1] == Ident(ext[i])
             && !isKeyword(ext[i]);
    }
  }

  /** The loop succeeds with the segments `ext` and stops at `end` exactly when the tokens
      from `cur` are `ext` joined by dashes, `end` lies 2 * |ext| tokens further, and the
      token at `end` is not a dash. */
  lemma {:induction false} ExtensionsOk(toks: seq<Token>, cur: nat, ext: seq<string>, end: nat, isKeyword: string -> bool)
    ensures Extensions(toks, cur, isKeyword) == Ok(ext, end) <==>
              DashSegments(toks, cur, ext, isKeyword) && end == cur + 2 * |ext| && !DashAt(toks, end)
    decreases |ext|
  {
    if ext == [] {
      if DashAt(toks, cur) {
        var x := Extensions(toks, cur, isKeyword);
        assert x.Ok? ==> |x.value| > 0;
      }
    } else {
      DashSegmentsCons(toks, cur, ext, isKeyword);
      ExtensionsOk(toks, cur + 2, ext[1..], end, isKeyword);
      if Extensions(toks, cur, isKeyword) == Ok(ext, end) {
        assert DashAt(toks, cur) && toks[cur + 1] == Ident(ext[0]) && !isKeyword(ext[0]);
        assert Extensions(toks, cur + 2, isKeyword) == Ok(ext[1..], end);
      }
      if DashSegments(toks, cur, ext, isKeyword) && end == cur + 2 * |ext| && !DashAt(toks, end) {
        assert [ext[0]] + ext[1..] == ext;
      }
    }
  }

  /** After the run `ext` of dash-identifier pairs from `cur`, a dash is not followed by a
      plain identifier, and `e` is the identifier error at the token after that dash. */
  ghost predicate FailsAfter(toks: seq<Token>, cur: nat, ext: seq<string>, e: ParseError, isKeyword: string -> bool) {
    DashSegments(toks, cur, ext, isKeyword) && DanglingDash(toks, cur + 2 * |ext|, isKeyword)
    && e == ParseError(ExpectedIdentifier, cur + 2 * |ext| + 1)
  }

  lemma {:induction false} ExtensionsFailWitness(toks: seq<Token>, cur: nat, e: ParseError, isKeyword: string -> bool)
    requires Extensions(toks, cur, isKeyword) == Fail(e)
    ensures exists ext :: FailsAfter(toks, cur, ext, e, isKeyword)
    decreases |toks| - cur
  {
    assert DashAt(toks, cur);
    if DanglingDash(toks, cur, isKeyword) {
      assert ParseIdent(toks, cur + 1, isKeyword) == Fail(ParseError(ExpectedIdentifier, cur + 1));
      assert FailsAfter(toks, cur, [], e, isKeyword);
    } else {
      assert ParseIdent(toks, cur + 1, isKeyword) == Ok(toks[cur + 1].text, cur + 2);
      assert Extensions(toks, cur + 2, isKeyword).Fail? && Extensions(toks, cur + 2, isKeyword).error == e;
      ExtensionsFailWitness(toks, cur + 2, e, isKeyword);
      var ext :| FailsAfter(toks, cur + 2, ext, e, isKeyword);
      var whole := [toks[cur + 1].text] + ext;
      assert whole[1..] == ext;
      DashSegmentsCons(toks, cur, whole, isKeyword);
      assert cur + 2 * |whole| == cur + 2 + 2 * |ext|;
      assert FailsAfter(toks, cur, whole, e, isKeyword);
    }
  }

  lemma {:induction false} ExtensionsFailAt(toks: seq<Token>, cur: nat, ext: seq<string>, e: ParseError, isKeyword: string -> bool)
    requires FailsAfter(toks, cur, ext, e, isKeyword)
    ensures Extensions(toks, cur, isKeyword) == Fail(e)
    decreases |ext|
  {
    if ext != [] {
      DashSegmentsCons(toks, cur, ext, isKeyword);
      assert cur + 2 + 2 * |ext[1..]| == cur + 2 * |ext|;
      assert FailsAfter(toks, cur + 2, ext[1..], e, isKeyword);
      ExtensionsFailAt(toks, cur + 2, ext[1..], e, isKeyword);
    }
  }

  /** The loop fails with `e` exactly when, after some run `ext` of dash-identifier pairs, a
      dash is not followed by a plain identifier; `e` is then the identifier error at the
      token after that dash. */
  lemma ExtensionsFails(toks: seq<Token>, cur: nat, e: ParseError, isKeyword: string -> bool)
    ensures Extensions(toks, cur, isKeyword) == Fail(e) <==> exists ext :: FailsAfter(toks, cur, ext, e, isKeyword)
  {
    if Extensions(toks, cur, isKeyword) == Fail(e) {
      ExtensionsFailWitness(toks, cur, e, isKeyword);
    }
    if exists ext :: FailsAfter(toks, cur, ext, e, isKeyword) {
      var ext :| FailsAfter(toks, cur, ext, e, isKeyword);
      ExtensionsFailAt(toks, cur, ext, e, isKeyword);
    }
  }

  /** The name grammar succeeds with `n`, ending at `end`, exactly when the leading token is
      an identifier (reserved spellings included) with the text `n.tag`, the extended segments follow as dash-identifier
      pairs, `end` is 1 + 2k tokens on for k extended segments, and no dash is at `end`. */
  lemma NameGrammarOk(toks: seq<Token>, pos: nat, n: AttributeName, end: nat, isKeyword: string -> bool)
    ensures NameGrammar(toks, pos, isKeyword) == Ok(n, end) <==>
              IdentAt(toks, pos) && toks[pos].text == n.tag
              && DashSegments(toks, pos + 1, n.extended, isKeyword)
              && end == pos + 1 + 2 * |n.extended| && !DashAt(toks, end)
  {
    ExtensionsOk(toks, pos + 1, n.extended, end, isKeyword);
  }

  /** The leading segment at `pos` is followed by the run `ext` of pairs and a dangling dash. */
  ghost predicate NameFailsAfter(toks: seq<Token>, pos: nat, ext: seq<string>, e: ParseError, isKeyword: string -> bool) {
    FailsAfter(toks, pos + 1, ext, e, isKeyword)
  }

  /** The name grammar fails with `e` exactly when the leading token is not an identifier
      (error at `pos`) or a dash after the leading segment and some run of pairs is not
      followed by a plain identifier (error at the token after that dash). */
  lemma NameGrammarFails(toks: seq<Token>, pos: nat, e: ParseError, isKeyword: string -> bool)
    ensures NameGrammar(toks, pos, isKeyword) == Fail(e) <==>
              (!IdentAt(toks, pos) && e == ParseError(ExpectedIdentifier, pos))
              || (IdentAt(toks, pos) && exists ext :: NameFailsAfter(toks, pos, ext, e, isKeyword))
  {
    var cur := pos + 1;
    ExtensionsFails(toks, cur, e, isKeyword);
    if exists ext :: FailsAfter(toks, cur, ext, e, isKeyword) {
      var ext :| FailsAfter(toks, cur, ext, e, isKeyword);
      assert NameFailsAfter(toks, pos, ext, e, isKeyword);
    }
  }

  /** The leading segment may be a reserved spelling but a segment after a dash may not:
      `x-type` fails with the identifier error at `type`, while `type-x` is read. */
  lemma KeywordOnlyLeads(pre: seq<Token>, word: string, kw: string, rest: seq<Token>, isKeyword: string -> bool)
    requires isKeyword(kw) && !isKeyword(word)
    requires !StartsWith(rest, Dash)
    ensures NameGrammar(pre + [Ident(word), Dash, Ident(kw)] + rest, |pre|, isKeyword)
            == Fail(ParseError(ExpectedIdentifier, |pre| + 2))
    ensures NameGrammar(pre + [Ident(kw), Dash, Ident(word)] + rest, |pre|, isKeyword)
            == Ok(AttributeName(kw, [word]), |pre| + 3)
  {
    var bad := pre + [Ident(word), Dash, Ident(kw)] + rest;
    assert bad[|pre|] == Ident(word) && bad[|pre| + 1] == Dash && bad[|pre| + 2] == Ident(kw);
    var good := pre + [Ident(kw), Dash, Ident(word)] + rest;
    assert good == (pre + [Ident(kw)]) + ExtensionTokens([word]) + rest;
    assert good[|pre|] == Ident(kw);
    ExtensionsOfSpelling(pre + [Ident(kw)], [word], rest, isKeyword);
  }

  // ---------------------------------------------------------------------------
  // The rendered name is the dash-join of its segments
  // ---------------------------------------------------------------------------

  /** Cutting a text at every `-`. */
  function SplitDashes(s: string): (parts: seq<string>)
    ensures |parts| >= 1
  {
    if s == [] then [""]
    else
      var rest := SplitDashes(s[1..]);
      if s[0] == '-' then [""] + rest else [[s[0]] + rest[0]] + rest[1..]
  }

  /** The name whose segments are the dash-separated parts of `s`. */
  function NameOf(s: string): AttributeName {
    var parts := SplitDashes(s);
    AttributeName(parts[0], parts[1..])
  }

  lemma {:induction false} SplitAroundDash(a: string, b: string)
    ensures SplitDashes(a + "-" + b) == SplitDashes(a) + SplitDashes(b)
    decreases |a|
  {
    if a == [] {
      assert a + "-" + b == ['-'] + b;
      assert (['-'] + b)[1..] == b;
    } else {
      assert (a + "-" + b)[1..] == a[1..] + "-" + b;
      SplitAroundDash(a[1..], b);
    }
  }

  lemma {:induction false} SplitUndashed(a: string)
    requires '-' !in a
    ensures SplitDashes(a) == [a]
    decreases |a|
  {
    if a != [] {
      assert a[0] in a;
      SplitUndashed(a[1..]);
      assert [a[0]] + a[1..] == a;
    }
  }

  /** Rendering loses nothing: for identifier segments (which never contain `-`) the
      rendered text cut at its dashes gives back the leading segment and the extended
      segments, in order. */
  lemma {:induction false} SplitOfText(n: AttributeName)
    requires '-' !in n.tag
    requires forall i :: 0 <= i < |n.extended| ==> '-' !in n.extended[i]
    ensures SplitDashes(Text(n)) == [n.tag] + n.extended
    decreases |n.extended|
  {
    if n.extended == [] {
      assert Text(n) == n.tag;
      SplitUndashed(n.tag);
    } else {
      var tail := AttributeName(n.extended[0], n.extended[1..]);
      assert Text(n) == n.tag + "-" + Text(tail);
      SplitAroundDash(n.tag, Text(tail));
      SplitUndashed(n.tag);
      SplitOfText(tail);
      assert [n.extended[0]] + n.extended[1..] == n.extended;
    }
  }

  /** Every text is the rendering of its own dash-separated parts. */
  lemma {:induction false} TextOfSplit(s: string)
    ensures Text(NameOf(s)) == s
    decreases |s|
  {
    if s != [] {
      TextOfSplit(s[1..]);
      var rest := SplitDashes(s[1..]);
      assert rest[0] + Dashed(rest[1..]) == s[1..];
      if s[0] == '-' {
        assert SplitDashes(s) == [""] + rest;
        assert NameOf(s) == AttributeName("", rest);
        assert Dashed(rest) == "-" + rest[0] + Dashed(rest[1..]);
      } else {
        assert NameOf(s) == AttributeName([s[0]] + rest[0], rest[1..]);
      }
      assert [s[0]] + s[1..] == s;
    }
  }

  /** A name with at least one extended segment renders with a dash in it. */
  lemma ExtendedTextHasDash(n: AttributeName)
    requires n.extended != []
    ensures '-' in Text(n)
  {
  }

  // ---------------------------------------------------------------------------
  // Token spellings of names and descriptors, and parsing them back
  // ---------------------------------------------------------------------------

  /** `- s1 - s2 ... - sn` as tokens. */
  function ExtensionTokens(ext: seq<string>): (toks: seq<Token>)
    ensures |toks| == 2 * |ext|
  {
    if ext == [] then [] else [Dash, Ident(ext[0])] + ExtensionTokens(ext[1..])
  }

  function NameTokens(n: AttributeName): seq<Token> {
    [Ident(n.tag)] + ExtensionTokens(n.extended)
  }

  /** The surface form of each descriptor: `ref`, `dangerously_set_inner_html`,
      `on:<event>`, `bind:<prop>`, and a plain attribute's dash-joined name. */
  function AttributeTokens(a: AttributeType): seq<Token> {
    match a
    case Ref => [Ident("ref")]
    case DangerouslySetInnerHtml => [Ident("dangerously_set_inner_html")]
    case Event(event) => [Ident("on"), Colon, Ident(event)]
    case Bind(prop) => [Ident("bind"), Colon, Ident(prop)]
    case Bool(name) => NameTokens(NameOf(name))
    case Str(name) => NameTokens(NameOf(name))
  }

  predicate StartsWith(rest: seq<Token>, t: Token) {
    rest != [] && rest[0] == t
  }

  /** The loop reads back exactly the segments of a spelled run of pairs, when none of them
      is a reserved spelling and no dash follows. */
  lemma {:induction false} ExtensionsOfSpelling(pre: seq<Token>, ext: seq<string>, rest: seq<Token>, isKeyword: string -> bool)
    requires PlainSegments(ext, isKeyword)
    requires !StartsWith(rest, Dash)
    ensures Extensions(pre + ExtensionTokens(ext) + rest, |pre|, isKeyword) == Ok(ext, |pre| + 2 * |ext|)
    decreases |ext|
  {
    var toks := pre + ExtensionTokens(ext) + rest;
    if ext == [] {
      assert toks == pre + rest;
      assert !DashAt(toks, |pre|);
    } else {
      var pre' := pre + [Dash, Ident(ext[0])];
      assert toks == pre' + ExtensionTokens(ext[1..]) + rest;
      assert toks[|pre|] == Dash && toks[|pre| + 1] == Ident(ext[0]) && !isKeyword(ext[0]);
      assert PlainSegments(ext[1..], isKeyword) by {
        forall i | 0 <= i < |ext[1..]| ensures !isKeyword(ext[1..][i]) {
          assert ext[1..][i] == ext[i + 1];
        }
      }
      ExtensionsOfSpelling(pre', ext[1..], rest, isKeyword);
      assert [ext[0]] + ext[1..] == ext;
    }
  }

  /** The token spelling of a name whose extended segments are not reserved spellings, followed
      by anything but a dash, reads back as that name. */
  lemma NameOfSpelling(pre: seq<Token>, n: AttributeName, rest: seq<Token>, isKeyword: string -> bool)
    requires PlainSegments(n.extended, isKeyword)
    requires !StartsWith(rest, Dash)
    ensures NameGrammar(pre + NameTokens(n) + rest, |pre|, isKeyword) == Ok(n, |pre| + |NameTokens(n)|)
  {
    var toks := pre + NameTokens(n) + rest;
    assert toks == (pre + [Ident(n.tag)]) + ExtensionTokens(n.extended) + rest;
    assert toks[|pre|] == Ident(n.tag);
    ExtensionsOfSpelling(pre + [Ident(n.tag)], n.extended, rest, isKeyword);
  }

  /** What may follow the spelling of a descriptor so that it reads back as itself: after a
      name nothing that would extend it (a dash), after a plain attribute no colon either; a
      plain attribute's name must not be one of the two reserved names, no part of it after
      the first may be a reserved spelling (the plain identifier parse would refuse it), and
      it must be classified as its variant says. */
  ghost predicate ReadsBack(a: AttributeType, rest: seq<Token>, isKeyword: string -> bool, isBool: string -> bool) {
    match a
    case Event(_) => true
    case Bind(_) => true
    case Ref => !StartsWith(rest, Dash)
    case DangerouslySetInnerHtml => !StartsWith(rest, Dash)
    case Bool(name) =>
      !StartsWith(rest, Dash) && !StartsWith(rest, Colon) && PlainSegments(NameOf(name).extended, isKeyword)
      && name != "ref" && name != "dangerously_set_inner_html" && isBool(name)
    case Str(name) =>
      !StartsWith(rest, Dash) && !StartsWith(rest, Colon) && PlainSegments(NameOf(name).extended, isKeyword)
      && name != "ref" && name != "dangerously_set_inner_html" && !isBool(name)
  }

  /** Parsing the spelling of any descriptor gives that descriptor back and consumes exactly
      its spelling. */
  lemma AttributeRoundTrip(pre: seq<Token>, a: AttributeType, rest: seq<Token>, isKeyword: string -> bool, isBool: string -> bool)
    requires ReadsBack(a, rest, isKeyword, isBool)
    ensures AttributeTypeOf(pre + AttributeTokens(a) + rest, |pre|, isKeyword, isBool) == Ok(a, |pre| + |AttributeTokens(a)|)
  {
    var toks := pre + AttributeTokens(a) + rest;
    match a
    case Ref =>
      NameOfSpelling(pre, AttributeName("ref", []), rest, isKeyword);
    case DangerouslySetInnerHtml =>
      NameOfSpelling(pre, AttributeName("dangerously_set_inner_html", []), rest, isKeyword);
    case Event(event) =>
      NameOfSpelling(pre, AttributeName("on", []), [Colon, Ident(event)] + rest, isKeyword);
      assert toks == pre + NameTokens(AttributeName("on", [])) + ([Colon, Ident(event)] + rest);
      assert toks[|pre| + 1] == Colon && toks[|pre| + 2] == Ident(event);
    case Bind(prop) =>
      NameOfSpelling(pre, AttributeName("bind", []), [Colon, Ident(prop)] + rest, isKeyword);
      assert toks == pre + NameTokens(AttributeName("bind", [])) + ([Colon, Ident(prop)] + rest);
      assert toks[|pre| + 1] == Colon && toks[|pre| + 2] == Ident(prop);
    case Bool(name) =>
      NameOfSpelling(pre, NameOf(name), rest, isKeyword);
      TextOfSplit(name);
      assert !ColonAt(toks, |pre| + |AttributeTokens(a)|);
    case Str(name) =>
      NameOfSpelling(pre, NameOf(name), rest, isKeyword);
      TextOfSplit(name);
      assert !ColonAt(toks, |pre| + |AttributeTokens(a)|);
  }

  /** Any name other than `ref`, `dangerously_set_inner_html`, `on` and `bind` that is followed
      by a colon (`foo:bar`, say) is not a directive: the colon has been consumed and the
      parse fails with "unknown directive" naming the whole rendered text, at the leading
      token. */
  lemma UnknownDirectiveAtLead(pre: seq<Token>, n: AttributeName, rest: seq<Token>, isKeyword: string -> bool, isBool: string -> bool)
    requires PlainSegments(n.extended, isKeyword)
    requires Text(n) != "ref" && Text(n) != "dangerously_set_inner_html" && Text(n) != "on" && Text(n) != "bind"
    ensures AttributeTypeOf(pre + NameTokens(n) + [Colon] + rest, |pre|, isKeyword, isBool)
            == Fail(ParseError(UnknownDirective(Text(n)), |pre|))
  {
    var toks := pre + NameTokens(n) + [Colon] + rest;
    assert toks == pre + NameTokens(n) + ([Colon] + rest);
    NameOfSpelling(pre, n, [Colon] + rest, isKeyword);
    assert toks[|pre| + |NameTokens(n)|] == Colon;
  }

  /** In particular a dashed name such as `on-x` followed by a colon is never a directive. */
  lemma DashedDirectiveIsUnknown(pre: seq<Token>, n: AttributeName, rest: seq<Token>, isKeyword: string -> bool, isBool: string -> bool)
    requires n.extended != [] && PlainSegments(n.extended, isKeyword)
    ensures AttributeTypeOf(pre + NameTokens(n) + [Colon] + rest, |pre|, isKeyword, isBool)
            == Fail(ParseError(UnknownDirective(Text(n)), |pre|))
  {
    ExtendedTextHasDash(n);
    DashedIsNotReserved(Text(n));
    UnknownDirectiveAtLead(pre, n, rest, isKeyword, isBool);
  }

  lemma DashedIsNotReserved(s: string)
    requires '-' in s
    ensures s != "ref" && s != "dangerously_set_inner_html" && s != "on" && s != "bind"
  {
  }

  /** `ref` and `dangerously_set_inner_html` are decided before any colon lookahead: a colon
      after them is left where it is. */
  lemma ReservedNamesLeaveColon(pre: seq<Token>, a: AttributeType, rest: seq<Token>, isKeyword: string -> bool, isBool: string -> bool)
    requires a == Ref || a == DangerouslySetInnerHtml
    ensures AttributeTypeOf(pre + AttributeTokens(a) + [Colon] + rest, |pre|, isKeyword, isBool) == Ok(a, |pre| + 1)
  {
  }

  /** A directive prefix with a colon but no identifier after it fails with the identifier
      error just after the consumed colon. */
  lemma DirectiveWithoutArgument(pre: seq<Token>, prefix: string, rest: seq<Token>, isKeyword: string -> bool, isBool: string -> bool)
    requires prefix == "on" || prefix == "bind"
    requires !StartsWithIdent(rest)
    ensures AttributeTypeOf(pre + [Ident(prefix), Colon] + rest, |pre|, isKeyword, isBool)
            == Fail(ParseError(ExpectedIdentifier, |pre| + 2))
  {
  }

  predicate StartsWithIdent(rest: seq<Token>) {
    rest != [] && rest[0].Ident?
  }

  // ---------------------------------------------------------------------------
  // Element tags
  // ---------------------------------------------------------------------------

  function TagToken(t: ElementTag): Token {
    match t
    case Builtin(name) => Ident(name)
    case Custom(name) => LitStr(name)
  }

  /** Parsing the token of any tag gives that tag back and consumes one token; an
      identifier with a reserved spelling is a builtin element as well. */
  lemma ElementTagRoundTrip(pre: seq<Token>, t: ElementTag, rest: seq<Token>)
    ensures ParseElementTag(pre + [TagToken(t)] + rest, |pre|) == Ok(t, |pre| + 1)
  {
  }
}
