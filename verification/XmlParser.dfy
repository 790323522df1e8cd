/**
 The XML reader from text to tree: a scanner with an offset into its input, feeding the stack
 of open elements.
 */
module XmlParser {
  import opened Prelude
  import opened XmlEntities
  import opened XmlTree
  import opened XmlScan

  const BYTE_ORDER_MARK: char := 0xFEFF as char

  function Body(input: string): (s: string)
  {
    if input != [] && input[0] == BYTE_ORDER_MARK then input[1..] else input
  }

  /** One token scanned, and the scan of the rest still to come. */
  ghost predicate Onward(s: string, t: Token, rest: string, limits: TextLimits)
  {
    && |rest| < |s|
    && ScanAll(s, limits) == match ScanAll(rest, limits) case None => None case Some(ts) => Some([t] + ts)
  }

  lemma Skips(s: string, rest: string, limits: TextLimits)
    requires s != [] && ScanLexeme(s, limits) == Some(Scanned(None, rest))
    ensures ScanAll(s, limits) == ScanAll(rest, limits)
  {
    hide ScanLexeme;
    if ScanAll(rest, limits).Some? { assert [] + ScanAll(rest, limits).value == ScanAll(rest, limits).value; }
  }

  class RawXmlParser {
    const input: string
    const limits: TextLimits
    var offset: nat

    ghost predicate Valid()
      reads this
    {
      offset <= |input|
    }

    ghost function Rest(): (s: string)
      requires Valid()
      reads this
    {
      input[offset..]
    }

    constructor (input: string, limits: TextLimits)
      ensures this.input == input && this.limits == limits
      ensures Valid() && Rest() == Body(input)
    {
      this.input := input;
      this.limits := limits;
      offset := if input != [] && input[0] == BYTE_ORDER_MARK then 1 else 0;
    }

    /** The offset moves past a run of characters. */
    method SkipRun(run: Run) returns (passed: string)
      requires Valid()
      modifies this
      ensures Valid()
      ensures var k := Span(old(Rest()), run); passed == old(Rest())[..k] && Rest() == old(Rest())[k..]
    {
      var start := offset;
      ghost var s := Rest();
      while offset < |input| && In(run, input[offset])
        invariant start <= offset <= |input|
        invariant Span(s, run) == offset - start + Span(Rest(), run)
      {
        assert Rest()[1..] == input[offset + 1..];
        offset := offset + 1;
      }
      passed := input[start..offset];
      assert Rest() == s[offset - start..] && passed == s[..offset - start];
    }

    method SkipSpace()
      requires Valid()
      modifies this
      ensures Valid() && Rest() == SkipBlanks(old(Rest()))
    {
      var _ := SkipRun(Blanks);
    }

    method Expect(c: char) returns (ok: bool)
      requires Valid()
      modifies this
      ensures Valid()
      ensures ok <==> old(Rest()) != [] && old(Rest())[0] == c
      ensures Rest() == if ok then old(Rest())[1..] else old(Rest())
    {
      ok := offset < |input| && input[offset] == c;
      if ok {
        assert Rest()[1..] == input[offset + 1..];
        offset := offset + 1;
      }
    }

    method ParseName() returns (r: Option<string>)
      requires Valid()
      modifies this
      ensures Valid()
      ensures match ScanName(old(Rest())) case None => r.None? case Some(n) => r == Some(n.value) && Rest() == n.rest
    {
      var name := SkipRun(Name);
      return if name == [] then None else Some(name);
    }

    /** Past the end of a marker. */
    method SkipPast(marker: string) returns (ok: bool)
      requires Valid() && marker != []
      modifies this
      ensures Valid()
      ensures match SkipUntil(old(Rest()), marker) case None => !ok case Some(rest) => ok && Rest() == rest
    {
      var end := Find(input[offset..], marker);
      ok := end.Some?;
      if ok { offset := offset + end.value + |marker|; }
    }

    method ParseQuoted(quote: char) returns (r: Option<string>)
      requires Valid()
      modifies this
      ensures Valid()
      ensures match ScanQuoted(old(Rest()), quote, limits)
              case None => r.None?
              case Some(v) => r == Some(v.value) && Rest() == v.rest
    {
      hide Decoded, ByteLength, Span;
      ghost var s := Rest();
      var raw := SkipRun(Not(quote));
      if offset >= |input| {
        return None;
      }
      assert Rest()[1..] == input[offset + 1..] && s[|raw|..][1..] == s[|raw| + 1..];
      offset := offset + 1;
      if ByteLength(raw) > limits.maxAttributeBytes {
        return None;
      }
      r := DecodeXmlEntities(raw);
      if r.Some? && ByteLength(r.value) > limits.maxAttributeBytes {
        return None;
      }
    }

    method ParseAttribute() returns (r: Option<(string, string)>)
      requires Valid()
      modifies this
      ensures Valid()
      ensures match ScanAttribute(old(Rest()), limits)
              case None => r.None?
              case Some(a) => r == Some(a.value) && Rest() == a.rest
    {
      hide ScanName, SkipBlanks, ScanQuoted;
      var name := ParseName();
      if name.None? {
        return None;
      }
      SkipSpace();
      var equals := Expect('=');
      if !equals {
        return None;
      }
      SkipSpace();
      if offset >= |input| || (input[offset] != '\'' && input[offset] != '"') {
        return None;
      }
      var quote := input[offset];
      assert Rest()[0] == quote && Rest()[1..] == input[offset + 1..];
      offset := offset + 1;
      var value := ParseQuoted(quote);
      return if value.None? then None else Some((name.value, value.value));
    }

    /** The attributes of a start tag, and whether it closes itself. */
    method ParseAttributes() returns (r: Option<(Attributes, bool)>)
      requires Valid()
      modifies this
      ensures Valid()
      ensures match ScanAttributes(old(Rest()), [], limits)
              case None => r.None?
              case Some(tag) => r == Some(tag.value) && Rest() == tag.rest
    {
      hide SkipBlanks, ScanAttribute, HasName;
      var attributes: Attributes := [];
      while true
        invariant Valid()
        invariant ScanAttributes(Rest(), attributes, limits) == ScanAttributes(old(Rest()), [], limits)
        decreases |input| - offset
      {
        ghost var s := Rest();
        SkipSpace();
        var closed := Expect('>');
        if closed {
          return Some((attributes, false));
        }
        var slash := Expect('/');
        if slash {
          var ended := Expect('>');
          return if ended then Some((attributes, true)) else None;
        }
        if |attributes| >= limits.maxAttributes {
          return None;
        }
        var attribute := ParseAttribute();
        if attribute.None? || HasName(attributes, attribute.value.0) {
          return None;
        }
        attributes := attributes + [attribute.value];
      }
    }

    method ParseStartTag() returns (r: Option<Token>)
      requires Valid()
      modifies this
      ensures Valid()
      ensures match ScanStartTag(old(Rest()), limits)
              case None => r.None?
              case Some(t) => r == Some(t.value) && Rest() == t.rest
    {
      hide ScanName, ScanAttributes;
      var name := ParseName();
      if name.None? {
        return None;
      }
      var tag := ParseAttributes();
      return if tag.None? then None else Some(StartTag(name.value, tag.value.0, tag.value.1));
    }

    method ParseEndTag() returns (r: Option<Token>)
      requires Valid()
      modifies this
      ensures Valid()
      ensures match ScanEndTag(old(Rest())) case None => r.None? case Some(t) => r == Some(t.value) && Rest() == t.rest
    {
      hide ScanName, SkipBlanks;
      var name := ParseName();
      if name.None? {
        return None;
      }
      SkipSpace();
      var closed := Expect('>');
      return if closed then Some(EndTag(name.value)) else None;
    }

    method ParseCdata() returns (r: Option<Token>)
      requires Valid()
      modifies this
      ensures Valid()
      ensures match ScanCdata(old(Rest()), limits)
              case None => r.None?
              case Some(t) => r == Some(t.value) && Rest() == t.rest
    {
      hide Find, ByteLength;
      var end := Find(input[offset..], "]]>");
      if end.None? {
        return None;
      }
      var value := input[offset..offset + end.value];
      assert value == Rest()[..end.value];
      if ByteLength(value) > limits.maxRecordBytes {
        return None;
      }
      offset := offset + end.value + 3;
      return Some(TextRun(value));
    }

    method ParseCharacters() returns (r: Option<Token>)
      requires Valid() && Rest() != [] && Rest()[0] != '<'
      modifies this
      ensures Valid()
      ensures match ScanCharacters(old(Rest()), limits)
              case None => r.None?
              case Some(t) => r == Some(t.value) && Rest() == t.rest
    {
      hide Decoded, ByteLength, Span;
      var raw := SkipRun(Not('<'));
      if ByteLength(raw) > limits.maxRecordBytes {
        return None;
      }
      var value := DecodeXmlEntities(raw);
      return if value.None? then None else Some(TextRun(value.value));
    }

    method NextToken() returns (r: Option<Token>)
      requires Valid() && Rest() != []
      modifies this
      ensures Valid()
      ensures match ScanToken(old(Rest()), limits)
              case None => r.None?
              case Some(t) => r == Some(t.value) && Rest() == t.rest
    {
      hide ScanCdata, ScanCharacters, ScanEndTag, ScanStartTag;
      var s := input[offset..];
      if "<![CDATA[" <= s {
        assert s[9..] == input[offset + 9..];
        offset := offset + 9;
        r := ParseCdata();
      } else if "<!DOCTYPE" <= s || "<!ENTITY" <= s {
        r := None;
      } else if s[0] != '<' {
        r := ParseCharacters();
      } else if |s| > 1 && s[1] == '/' {
        assert s[2..] == input[offset + 2..];
        offset := offset + 2;
        r := ParseEndTag();
      } else {
        assert s[1..] == input[offset + 1..];
        offset := offset + 1;
        r := ParseStartTag();
      }
    }

    /** The next token, past comments and processing instructions; no token at the end. */
    method Next() returns (r: Option<Option<Token>>)
      requires Valid()
      modifies this
      ensures Valid()
      ensures r.None? ==> ScanAll(old(Rest()), limits).None?
      ensures r == Some(None) ==> ScanAll(old(Rest()), limits) == Some([])
      ensures r.Some? && r.value.Some? ==> Onward(old(Rest()), r.value.value, Rest(), limits)
    {
      hide ScanToken, SkipUntil;
      while offset < |input|
        invariant Valid()
        invariant ScanAll(Rest(), limits) == ScanAll(old(Rest()), limits) && |Rest()| <= |old(Rest())|
        decreases |input| - offset
      {
        ghost var s := Rest();
        var comment := "<!--" <= input[offset..];
        var instruction := "<?" <= input[offset..];
        if comment || instruction {
          var ok := SkipPast(if comment then "-->" else "?>");
          if !ok {
            return None;
          }
          Skips(s, Rest(), limits);
        } else {
          var t := NextToken();
          return if t.None? then None else Some(t);
        }
      }
      return Some(None);
    }
  }

  /** The input writes the report `d`, lexeme by lexeme. */
  ghost predicate WritesReport(
    ls: seq<Lexeme>, d: Document, input: string, maxInputBytes: nat, texts: TextLimits, limits: Limits)
  {
    ByteLength(input) <= maxInputBytes && LexemesOk(ls, texts) && WriteAll(ls) == Body(input) &&
    Spells(d, TokensOfAll(ls), limits)
  }

  ghost predicate Gathered(s: string, tokens: seq<Token>, rest: string, limits: TextLimits)
  {
    ScanAll(s, limits) == match ScanAll(rest, limits) case None => None case Some(ts) => Some(tokens + ts)
  }

  lemma Nothing(s: string, limits: TextLimits)
    ensures Gathered(s, [], s, limits)
  {
    hide ScanAll;
    if ScanAll(s, limits).Some? { assert [] + ScanAll(s, limits).value == ScanAll(s, limits).value; }
  }

  lemma Ended(s: string, tokens: seq<Token>, rest: string, limits: TextLimits)
    requires Gathered(s, tokens, rest, limits) && ScanAll(rest, limits) == Some([])
    ensures ScanAll(s, limits) == Some(tokens)
  {
    hide ScanAll;
    assert tokens + [] == tokens;
  }

  lemma GatherOne(s: string, tokens: seq<Token>, before: string, t: Token, rest: string, limits: TextLimits)
    requires Gathered(s, tokens, before, limits) && Onward(before, t, rest, limits)
    ensures Gathered(s, tokens + [t], rest, limits)
  {
    hide ScanAll;
    if ScanAll(rest, limits).Some? {
      var ts := ScanAll(rest, limits).value;
      assert tokens + ([t] + ts) == (tokens + [t]) + ts;
    }
  }

  method ScanTokens(input: string, texts: TextLimits) returns (r: Option<seq<Token>>)
    ensures r == ScanAll(Body(input), texts)
  {
    hide ScanAll;
    var parser := new RawXmlParser(input, texts);
    var tokens: seq<Token> := [];
    Nothing(Body(input), texts);
    while true
      invariant parser.Valid() && parser.limits == texts
      invariant Gathered(Body(input), tokens, parser.Rest(), texts)
      decreases |parser.Rest()|
    {
      ghost var s := parser.Rest();
      var next := parser.Next();
      if next.None? {
        return None;
      }
      if next.value.None? {
        Ended(Body(input), tokens, s, texts);
        return Some(tokens);
      }
      GatherOne(Body(input), tokens, s, next.value.value, parser.Rest(), texts);
      tokens := tokens + [next.value.value];
    }
  }

  /** From text to tree: exactly the written reports, each to the normal form of its tree. */
  method ParseReport(input: string, maxInputBytes: nat, texts: TextLimits, limits: Limits) returns (r: Option<Node>)
    ensures r.Some? ==>
              exists ls, d ::
                WritesReport(ls, d, input, maxInputBytes, texts, limits) && r == Some(Normalize(Raw(d.root)))
    ensures forall ls, d | WritesReport(ls, d, input, maxInputBytes, texts, limits) :: r == Some(Normalize(Raw(d.root)))
  {
    hide ScanAll, LexemesOk, WriteAll, TokensOfAll, Spells, ByteLength, Normalize, Raw;
    if ByteLength(input) > maxInputBytes {
      return None;
    }
    var tokens := ScanTokens(input, texts);
    forall ls, d | WritesReport(ls, d, input, maxInputBytes, texts, limits)
      ensures tokens == Some(TokensOfAll(ls))
    {
      WrittenScans(ls, texts);
    }
    if tokens.None? {
      return None;
    }
    ghost var ls := ScannedIsWritten(Body(input), texts);
    r := Parse(tokens.value, limits);
    if r.Some? {
      ghost var d :| Spells(d, tokens.value, limits) && r == Some(Normalize(Raw(d.root)));
      assert WritesReport(ls, d, input, maxInputBytes, texts, limits);
    }
  }
}
