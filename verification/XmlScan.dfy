/**
 The scanner under the independent XML reader: tags, attributes, character data, CDATA
 sections, comments and processing instructions, against the ways to write them.
 */
module XmlScan {
  import opened Prelude
  import opened XmlEntities
  import opened XmlTree
  import Utf8

  datatype TextLimits = TextLimits(maxRecordBytes: nat, maxAttributeBytes: nat, maxAttributes: nat)

  function ByteLength(s: string): (n: nat)
  {
    if s == [] then 0 else ByteLength(s[..|s| - 1]) + Utf8.Width(s[|s| - 1] as int)
  }

  // ---------- the scanner ----------

  datatype Scanned<T> = Scanned(value: T, rest: string)

  function SkipBlanks(s: string): (rest: string)
    ensures |rest| <= |s|
  {
    s[Span(s, Blanks)..]
  }

  function ScanName(s: string): (r: Option<Scanned<string>>)
    ensures r.Some? ==> |r.value.rest| < |s|
  {
    var k := Span(s, Name);
    if k == 0 then None else Some(Scanned(s[..k], s[k..]))
  }

  /** Where a marker first stands. */
  function Find(s: string, marker: string): (i: Option<nat>)
    ensures i.Some? ==> i.value + |marker| <= |s|
  {
    if |s| < |marker| then None
    else if marker <= s then Some(0)
    else match Find(s[1..], marker) case None => None case Some(i) => Some(i + 1)
  }

  /** A quoted value, its opening quote already seen. */
  function ScanQuoted(s: string, quote: char, limits: TextLimits): (r: Option<Scanned<string>>)
    ensures r.Some? ==> |r.value.rest| < |s|
  {
    var k := Span(s, Not(quote));
    if k == |s| || ByteLength(s[..k]) > limits.maxAttributeBytes then None
    else
      match Decoded(s[..k])
      case None => None
      case Some(value) =>
        if ByteLength(value) > limits.maxAttributeBytes then None else Some(Scanned(value, s[k + 1..]))
  }

  /** Name, equals sign, quoted value, with blanks around the sign. */
  function ScanAttribute(s: string, limits: TextLimits): (r: Option<Scanned<(string, string)>>)
    ensures r.Some? ==> |r.value.rest| < |s|
  {
    match ScanName(s)
    case None => None
    case Some(Scanned(name, afterName)) =>
      var sign := SkipBlanks(afterName);
      if sign == [] || sign[0] != '=' then None
      else
        var opening := SkipBlanks(sign[1..]);
        if opening == [] || (opening[0] != '\'' && opening[0] != '"') then None
        else
          match ScanQuoted(opening[1..], opening[0], limits)
          case None => None
          case Some(Scanned(value, rest)) => Some(Scanned((name, value), rest))
  }

  predicate HasName(attributes: Attributes, name: string)
  {
    exists i | 0 <= i < |attributes| :: attributes[i].0 == name
  }

  /** Attributes up to the end of the tag, after those already seen. */
  function ScanAttributes(s: string, seen: Attributes, limits: TextLimits): (r: Option<Scanned<(Attributes, bool)>>)
    ensures r.Some? ==> |r.value.rest| < |s|
    decreases |s|
  {
    var t := SkipBlanks(s);
    if t == [] then None
    else if t[0] == '>' then Some(Scanned((seen, false), t[1..]))
    else if t[0] == '/' then
      if |t| > 1 && t[1] == '>' then Some(Scanned((seen, true), t[2..])) else None
    else if |seen| >= limits.maxAttributes then None
    else
      match ScanAttribute(t, limits)
      case None => None
      case Some(Scanned(attribute, rest)) =>
        if HasName(seen, attribute.0) then None else ScanAttributes(rest, seen + [attribute], limits)
  }

  function ScanCdata(s: string, limits: TextLimits): (r: Option<Scanned<Token>>)
    ensures r.Some? ==> |r.value.rest| <= |s|
  {
    match Find(s, "]]>")
    case None => None
    case Some(end) =>
      if ByteLength(s[..end]) > limits.maxRecordBytes then None else Some(Scanned(TextRun(s[..end]), s[end + 3..]))
  }

  function ScanCharacters(s: string, limits: TextLimits): (r: Option<Scanned<Token>>)
    requires s != [] && s[0] != '<'
    ensures r.Some? ==> |r.value.rest| < |s|
  {
    var k := Span(s, Not('<'));
    if ByteLength(s[..k]) > limits.maxRecordBytes then None
    else
      match Decoded(s[..k])
      case None => None
      case Some(value) => Some(Scanned(TextRun(value), s[k..]))
  }

  function ScanEndTag(s: string): (r: Option<Scanned<Token>>)
    ensures r.Some? ==> |r.value.rest| <= |s|
  {
    match ScanName(s)
    case None => None
    case Some(Scanned(name, rest)) =>
      var t := SkipBlanks(rest);
      if t == [] || t[0] != '>' then None else Some(Scanned(EndTag(name), t[1..]))
  }

  function ScanStartTag(s: string, limits: TextLimits): (r: Option<Scanned<Token>>)
    ensures r.Some? ==> |r.value.rest| <= |s|
  {
    match ScanName(s)
    case None => None
    case Some(Scanned(name, afterName)) =>
      match ScanAttributes(afterName, [], limits)
      case None => None
      case Some(Scanned(tag, rest)) => Some(Scanned(StartTag(name, tag.0, tag.1), rest))
  }

  /** Past the end of a marker, or nowhere. */
  function SkipUntil(s: string, marker: string): (r: Option<string>)
    requires marker != []
    ensures r.Some? ==> |r.value| < |s|
  {
    match Find(s, marker)
    case None => None
    case Some(i) => Some(s[i + |marker|..])
  }

  function ScanToken(s: string, limits: TextLimits): (r: Option<Scanned<Token>>)
    requires s != []
    ensures r.Some? ==> |r.value.rest| < |s|
  {
    if "<![CDATA[" <= s then ScanCdata(s[9..], limits)
    else if "<!DOCTYPE" <= s || "<!ENTITY" <= s then None
    else if s[0] != '<' then ScanCharacters(s, limits)
    else if |s| > 1 && s[1] == '/' then ScanEndTag(s[2..])
    else ScanStartTag(s[1..], limits)
  }

  /** One token, or one comment or processing instruction, which give none. */
  function ScanLexeme(s: string, limits: TextLimits): (r: Option<Scanned<Option<Token>>>)
    requires s != []
    ensures r.Some? ==> |r.value.rest| < |s|
  {
    if "<!--" <= s then
      (match SkipUntil(s, "-->") case None => None case Some(rest) => Some(Scanned(None, rest)))
    else if "<?" <= s then
      (match SkipUntil(s, "?>") case None => None case Some(rest) => Some(Scanned(None, rest)))
    else
      (match ScanToken(s, limits) case None => None case Some(Scanned(t, rest)) => Some(Scanned(Some(t), rest)))
  }

  function Listed(t: Option<Token>): (ts: seq<Token>) { if t.Some? then [t.value] else [] }

  function ScanAll(s: string, limits: TextLimits): (ts: Option<seq<Token>>)
    decreases |s|
  {
    if s == [] then Some([])
    else
      match ScanLexeme(s, limits)
      case None => None
      case Some(Scanned(t, rest)) =>
        match ScanAll(rest, limits)
        case None => None
        case Some(ts) => Some(Listed(t) + ts)
  }

  // ---------- ways to write ----------

  datatype AttributeSpelling = AttributeSpelling(
    before: string, name: string, left: string, right: string, quote: char, raw: string)

  datatype Lexeme =
    | Skipped(text: string)
    | Cdata(value: string)
    | Characters(raw: string)
    | Closing(name: string, gap: string)
    | Opening(name: string, attributes: seq<AttributeSpelling>, gap: string, empty: bool)

  predicate NameOk(name: string) { name != [] && AllIn(Name, name) }

  predicate AttributeOk(a: AttributeSpelling, limits: TextLimits)
  {
    && AllIn(Blanks, a.before) && NameOk(a.name) && AllIn(Blanks, a.left) && AllIn(Blanks, a.right)
    && (a.quote == '\'' || a.quote == '"')
    && AllIn(Not(a.quote), a.raw) && ByteLength(a.raw) <= limits.maxAttributeBytes
    && Decoded(a.raw).Some? && ByteLength(Decoded(a.raw).value) <= limits.maxAttributeBytes
  }

  function AttributeOf(a: AttributeSpelling): (attribute: (string, string))
  {
    (a.name, if Decoded(a.raw).Some? then Decoded(a.raw).value else "")
  }

  function AttributesOf(xs: seq<AttributeSpelling>): (attributes: Attributes)
  {
    seq(|xs|, i requires 0 <= i < |xs| => AttributeOf(xs[i]))
  }

  ghost predicate AttributesOk(xs: seq<AttributeSpelling>, seen: Attributes, limits: TextLimits)
  {
    && |seen| + |xs| <= limits.maxAttributes
    && (forall i | 0 <= i < |xs| :: AttributeOk(xs[i], limits) && !HasName(seen, xs[i].name))
    && (forall i, j | 0 <= i < j < |xs| :: xs[i].name != xs[j].name)
  }

  /** A name that cannot be taken for the start of something else. */
  predicate TagNameOk(name: string)
  {
    && NameOk(name) && name[0] != '?' && !("!--" <= name) && !("![CDATA[" <= name)
    && !("!DOCTYPE" <= name) && !("!ENTITY" <= name)
  }

  ghost predicate LexemeOk(l: Lexeme, limits: TextLimits)
  {
    match l
    case Skipped(text) =>
      || ("<!--" <= text && SkipUntil(text, "-->") == Some(""))
      || ("<?" <= text && SkipUntil(text, "?>") == Some(""))
    case Cdata(value) => Find(value + "]]>", "]]>") == Some(|value|) && ByteLength(value) <= limits.maxRecordBytes
    case Characters(raw) =>
      raw != [] && AllIn(Not('<'), raw) && ByteLength(raw) <= limits.maxRecordBytes && Decoded(raw).Some?
    case Closing(name, gap) => NameOk(name) && AllIn(Blanks, gap)
    case Opening(name, attributes, gap, _) =>
      && TagNameOk(name) && AttributesOk(attributes, [], limits) && AllIn(Blanks, gap)
      && (attributes != [] ==> attributes[0].before != [])
  }

  function TokenOf(l: Lexeme): (t: Option<Token>)
  {
    match l
    case Skipped(_) => None
    case Cdata(value) => Some(TextRun(value))
    case Characters(raw) => Some(TextRun(if Decoded(raw).Some? then Decoded(raw).value else ""))
    case Closing(name, _) => Some(EndTag(name))
    case Opening(name, attributes, _, empty) => Some(StartTag(name, AttributesOf(attributes), empty))
  }

  /** An attribute without the blanks before it, and what follows it. */
  function WriteAttribute(a: AttributeSpelling, rest: string): (s: string)
  {
    a.name + (a.left + ("=" + (a.right + ([a.quote] + (a.raw + ([a.quote] + rest))))))
  }

  function WriteAttributes(xs: seq<AttributeSpelling>, rest: string): (s: string)
  {
    if xs == [] then rest else xs[0].before + WriteAttribute(xs[0], WriteAttributes(xs[1..], rest))
  }

  function WriteEnd(empty: bool, rest: string): (s: string) { if empty then "/>" + rest else ">" + rest }

  function Write(l: Lexeme, rest: string): (s: string)
  {
    match l
    case Skipped(text) => text + rest
    case Cdata(value) => "<![CDATA[" + (value + ("]]>" + rest))
    case Characters(raw) => raw + rest
    case Closing(name, gap) => "</" + (name + (gap + (">" + rest)))
    case Opening(name, attributes, gap, empty) =>
      "<" + (name + WriteAttributes(attributes, gap + WriteEnd(empty, rest)))
  }

  function WriteAll(ls: seq<Lexeme>): (s: string)
  {
    if ls == [] then "" else Write(ls[0], WriteAll(ls[1..]))
  }

  function TokensOfAll(ls: seq<Lexeme>): (ts: seq<Token>)
  {
    if ls == [] then [] else Listed(TokenOf(ls[0])) + TokensOfAll(ls[1..])
  }

  /** Character data runs up to the next tag, so no two runs of it adjoin. */
  ghost predicate LexemesOk(ls: seq<Lexeme>, limits: TextLimits)
  {
    && (forall i | 0 <= i < |ls| :: LexemeOk(ls[i], limits))
    && (forall i | 0 <= i < |ls| - 1 :: ls[i].Characters? ==> !ls[i + 1].Characters?)
  }

  // ---------- what is written is scanned ----------

  predicate Stands(s: string, marker: string, i: nat)
  {
    i + |marker| <= |s| && s[i..i + |marker|] == marker
  }

  ghost predicate FirstStands(s: string, marker: string, i: nat)
  {
    Stands(s, marker, i) && forall j: nat | j < i :: !Stands(s, marker, j)
  }

  lemma StandsLater(s: string, marker: string, i: nat)
    requires s != []
    ensures Stands(s, marker, i + 1) <==> Stands(s[1..], marker, i)
    ensures Stands(s, marker, 0) <==> marker <= s
  {
    if i + 1 + |marker| <= |s| { assert s[i + 1..i + 1 + |marker|] == s[1..][i..i + |marker|]; }
    if |marker| <= |s| { assert s[0..0 + |marker|] == s[..|marker|]; }
  }

  lemma TooShort(s: string, marker: string, i: nat)
    requires |s| < |marker|
    ensures !Stands(s, marker, i)
  {
  }

  lemma FirstShifts(s: string, marker: string, i: nat)
    requires s != [] && forall j: nat :: Stands(s, marker, j + 1) <==> Stands(s[1..], marker, j)
    ensures FirstStands(s, marker, i + 1) <==> FirstStands(s[1..], marker, i) && !Stands(s, marker, 0)
  {
    hide Stands;
    if FirstStands(s[1..], marker, i) && !Stands(s, marker, 0) {
      forall j: nat | j < i + 1 ensures !Stands(s, marker, j) {
        if j > 0 { assert Stands(s, marker, j - 1 + 1) <==> Stands(s[1..], marker, j - 1); }
      }
    }
    if FirstStands(s, marker, i + 1) {
      assert !Stands(s, marker, 0);
      forall j: nat | j < i ensures !Stands(s[1..], marker, j) { assert !Stands(s, marker, j + 1); }
    }
  }

  /** The search finds the first place, and only that. */
  lemma {:induction false} FindIsFirst(s: string, marker: string, i: nat)
    requires marker != []
    ensures Find(s, marker) == Some(i) <==> FirstStands(s, marker, i)
    decreases |s|
  {
    hide Stands;
    if |s| < |marker| {
      assert !Stands(s, marker, i) by { TooShort(s, marker, i); }
    } else {
      StandsLater(s, marker, 0);
      if i > 0 {
        FindIsFirst(s[1..], marker, i - 1);
        forall j: nat ensures Stands(s, marker, j + 1) <==> Stands(s[1..], marker, j) { StandsLater(s, marker, j); }
        FirstShifts(s, marker, i - 1);
      }
    }
  }

  /** Nothing beyond the marker matters. */
  lemma FirstInPrefix(s: string, t: string, marker: string, i: nat)
    requires i + |marker| <= |s| && s <= t
    ensures FirstStands(s, marker, i) <==> FirstStands(t, marker, i)
  {
    forall j: nat | j <= i
      ensures Stands(s, marker, j) <==> Stands(t, marker, j)
    {
      assert s[j..j + |marker|] == t[j..j + |marker|];
    }
  }

  lemma FindEnd(a: string, marker: string, rest: string)
    requires marker != [] && Find(a + marker, marker) == Some(|a|)
    ensures Find(a + (marker + rest), marker) == Some(|a|)
  {
    hide Find, FirstStands;
    FindIsFirst(a + marker, marker, |a|);
    assert a + (marker + rest) == a + marker + rest;
    FirstInPrefix(a + marker, a + (marker + rest), marker, |a|);
    FindIsFirst(a + (marker + rest), marker, |a|);
  }

  lemma NameScans(name: string, rest: string)
    requires NameOk(name) && (rest == [] || !In(Name, rest[0]))
    ensures ScanName(name + rest) == Some(Scanned(name, rest))
  {
    SpanOf(name, rest, Name);
  }

  lemma BlanksSkip(gap: string, rest: string)
    requires AllIn(Blanks, gap) && (rest == [] || !IsBlank(rest[0]))
    ensures SkipBlanks(gap + rest) == rest
  {
    SpanOf(gap, rest, Blanks);
  }

  lemma QuotedScans(raw: string, quote: char, rest: string, limits: TextLimits)
    requires AllIn(Not(quote), raw) && ByteLength(raw) <= limits.maxAttributeBytes
    requires Decoded(raw).Some? && ByteLength(Decoded(raw).value) <= limits.maxAttributeBytes
    ensures ScanQuoted(raw + ([quote] + rest), quote, limits) == Some(Scanned(Decoded(raw).value, rest))
  {
    hide Decoded, ByteLength;
    SpanOf(raw, [quote] + rest, Not(quote));
    var s := raw + ([quote] + rest);
    assert s[..|raw|] == raw && s[|raw| + 1..] == rest;
  }

  lemma AttributeScans(a: AttributeSpelling, rest: string, limits: TextLimits)
    requires AttributeOk(a, limits)
    ensures ScanAttribute(WriteAttribute(a, rest), limits) == Some(Scanned(AttributeOf(a), rest))
  {
    hide Decoded, ByteLength, ScanName, SkipBlanks, ScanQuoted;
    var value := a.raw + ([a.quote] + rest);
    var opening := [a.quote] + value;
    var sign := "=" + (a.right + opening);
    assert opening[1..] == value && sign[1..] == a.right + opening;
    var afterName := a.left + sign;
    assert afterName[0] == if a.left == [] then '=' else a.left[0];
    NameScans(a.name, afterName);
    BlanksSkip(a.left, sign);
    BlanksSkip(a.right, opening);
    QuotedScans(a.raw, a.quote, rest, limits);
  }

  lemma HasNameSnoc(seen: Attributes, attribute: (string, string), name: string)
    ensures HasName(seen + [attribute], name) <==> HasName(seen, name) || attribute.0 == name
  {
    var more := seen + [attribute];
    assert more[|seen|] == attribute;
    if i :| 0 <= i < |seen| && seen[i].0 == name { assert more[i].0 == name; }
  }

  lemma AttributesOkStep(xs: seq<AttributeSpelling>, seen: Attributes, limits: TextLimits)
    requires xs != []
    ensures AttributesOk(xs, seen, limits) <==>
            && AttributeOk(xs[0], limits) && !HasName(seen, xs[0].name) && |seen| < limits.maxAttributes
            && AttributesOk(xs[1..], seen + [AttributeOf(xs[0])], limits)
  {
    hide AttributeOk, HasName, Decoded;
    var more := seen + [AttributeOf(xs[0])];
    forall i | 0 < i < |xs|
      ensures xs[1..][i - 1] == xs[i]
      ensures HasName(more, xs[i].name) <==> HasName(seen, xs[i].name) || xs[0].name == xs[i].name
    {
      HasNameSnoc(seen, AttributeOf(xs[0]), xs[i].name);
    }
    if AttributeOk(xs[0], limits) && !HasName(seen, xs[0].name) && AttributesOk(xs[1..], more, limits) {
      forall i, j | 0 <= i < j < |xs|
        ensures xs[i].name != xs[j].name
      {
        assert xs[j] == xs[1..][j - 1];
        if i > 0 { assert xs[i] == xs[1..][i - 1]; }
      }
      forall i | 0 <= i < |xs|
        ensures AttributeOk(xs[i], limits) && !HasName(seen, xs[i].name)
      {
        if i > 0 { assert xs[i] == xs[1..][i - 1]; }
      }
    }
  }

  lemma FirstOfAttribute(a: AttributeSpelling, rest: string, limits: TextLimits)
    requires AttributeOk(a, limits)
    ensures var s := WriteAttribute(a, rest); s != [] && In(Name, s[0])
    ensures AllIn(Blanks, a.before) && AttributeOf(a).0 == a.name
  {
    hide Decoded, ByteLength;
  }

  lemma {:induction false} AttributesScan(
    xs: seq<AttributeSpelling>, gap: string, empty: bool, rest: string, seen: Attributes, limits: TextLimits)
    requires AttributesOk(xs, seen, limits) && AllIn(Blanks, gap)
    ensures ScanAttributes(WriteAttributes(xs, gap + WriteEnd(empty, rest)), seen, limits) ==
            Some(Scanned((seen + AttributesOf(xs), empty), rest))
    decreases |xs|
  {
    hide AttributeOf, AttributesOk, SkipBlanks, ScanAttribute, WriteAttribute, HasName, ByteLength, Decoded;
    if xs == [] {
      BlanksSkip(gap, WriteEnd(empty, rest));
      assert seen + AttributesOf(xs) == seen;
    } else {
      var more := seen + [AttributeOf(xs[0])];
      var tail := WriteAttributes(xs[1..], gap + WriteEnd(empty, rest));
      AttributesOkStep(xs, seen, limits);
      FirstOfAttribute(xs[0], tail, limits);
      BlanksSkip(xs[0].before, WriteAttribute(xs[0], tail));
      AttributeScans(xs[0], tail, limits);
      AttributesScan(xs[1..], gap, empty, rest, more, limits);
      assert seen + AttributesOf(xs) == more + AttributesOf(xs[1..]);
    }
  }

  /** A name with the end of its run after it starts with a marker only if the name does. */
  lemma MarkerInName(marker: string, name: string, rest: string)
    requires AllIn(Name, marker) && AllIn(Name, name) && (rest == [] || !In(Name, rest[0]))
    ensures marker <= name + rest <==> marker <= name
  {
    hide In;
    if |marker| <= |name| {
      assert (name + rest)[..|marker|] == name[..|marker|];
    } else if rest != [] {
      assert (name + rest)[|name|] == rest[0] && In(Name, marker[|name|]);
    }
  }

  lemma AfterMarker(full: string, marker: string, name: string, rest: string)
    requires full == "<" + marker && AllIn(Name, marker) && AllIn(Name, name) && (rest == [] || !In(Name, rest[0]))
    ensures full <= "<" + (name + rest) <==> marker <= name
  {
    hide In, AllIn;
    var t := name + rest;
    MarkerInName(marker, name, rest);
    assert ("<" + t)[1..] == t && full[1..] == marker;
    if marker <= t { assert "<" + t == full + t[|marker|..]; }
    if full <= "<" + t { assert ("<" + t)[..|marker| + 1] == full && t[..|marker|] == marker; }
  }

  lemma MarkersAreNames()
    ensures AllIn(Name, "?") && AllIn(Name, "!--") && AllIn(Name, "![CDATA[")
    ensures AllIn(Name, "!DOCTYPE") && AllIn(Name, "!ENTITY")
  {
  }

  lemma NameStarts(name: string)
    requires NameOk(name)
    ensures In(Name, name[0])
  {
  }

  /** A start tag is not taken for anything else. */
  lemma StartsTag(name: string, rest: string)
    requires NameOk(name) && (rest == [] || !In(Name, rest[0]))
    ensures var s := "<" + (name + rest);
            && (TagNameOk(name) <==> !("<!--" <= s || "<?" <= s || "<![CDATA[" <= s || "<!DOCTYPE" <= s ||
                                       "<!ENTITY" <= s))
            && s[1] != '/' && s[1..] == name + rest
  {
    hide AllIn;
    MarkersAreNames();
    AfterMarker("<?", "?", name, rest);
    AfterMarker("<!--", "!--", name, rest);
    AfterMarker("<![CDATA[", "![CDATA[", name, rest);
    AfterMarker("<!DOCTYPE", "!DOCTYPE", name, rest);
    AfterMarker("<!ENTITY", "!ENTITY", name, rest);
    assert ("<" + (name + rest))[1..] == name + rest;
    assert "?" <= name <==> name[0] == '?';
    assert In(Name, name[0]) by { NameStarts(name); }
  }

  lemma Splits(t: string, marker: string, i: nat)
    requires FirstStands(t, marker, i) && |t| == i + |marker|
    ensures t == t[..i] + marker
  {
  }

  lemma FindPrefix(s: string, marker: string, i: nat)
    requires marker != [] && Find(s, marker) == Some(i)
    ensures i + |marker| <= |s| && Find(s[..i + |marker|], marker) == Some(i)
    ensures s[..i + |marker|] == s[..i] + marker
  {
    hide Find, FirstStands;
    var t := s[..i + |marker|];
    FindIsFirst(s, marker, i);
    FirstInPrefix(t, s, marker, i);
    FindIsFirst(t, marker, i);
    Splits(t, marker, i);
    assert t[..i] == s[..i];
  }

  lemma SkipScans(text: string, marker: string, rest: string)
    requires marker != [] && SkipUntil(text, marker) == Some("")
    ensures SkipUntil(text + rest, marker) == Some(rest)
  {
    hide Find;
    var i := Find(text, marker).value;
    var a := text[..i];
    FindPrefix(text, marker, i);
    assert i + |marker| == |text| && text == a + marker;
    FindEnd(a, marker, rest);
    assert text + rest == a + (marker + rest);
  }

  lemma SkippedScans(text: string, rest: string, limits: TextLimits)
    requires LexemeOk(Skipped(text), limits)
    ensures text != [] && ScanLexeme(text + rest, limits) == Some(Scanned(None, rest))
  {
    hide SkipUntil, ScanToken;
    var s := text + rest;
    if "<!--" <= text && SkipUntil(text, "-->") == Some("") {
      assert "<!--" <= s;
      SkipScans(text, "-->", rest);
    } else {
      assert "<?" <= s && s[1] == '?';
      SkipScans(text, "?>", rest);
    }
  }

  lemma CdataScans(value: string, rest: string, limits: TextLimits)
    requires LexemeOk(Cdata(value), limits)
    ensures ScanLexeme(Write(Cdata(value), rest), limits) == Some(Scanned(Some(TextRun(value)), rest))
  {
    hide Find, ByteLength, ScanCharacters, ScanStartTag, ScanEndTag;
    var s := Write(Cdata(value), rest);
    var t := value + ("]]>" + rest);
    FindEnd(value, "]]>", rest);
    assert s[9..] == t && t[..|value|] == value && t[|value| + 3..] == rest;
    assert "<![CDATA[" <= s && s[1] == '!' && s[2] == '[';
  }

  lemma CharactersScan(raw: string, rest: string, limits: TextLimits)
    requires LexemeOk(Characters(raw), limits) && (rest == [] || rest[0] == '<')
    ensures ScanLexeme(raw + rest, limits) == Some(Scanned(TokenOf(Characters(raw)), rest))
  {
    hide ByteLength, Decoded, SkipUntil, ScanCdata, ScanEndTag, ScanStartTag;
    SpanOf(raw, rest, Not('<'));
    var s := raw + rest;
    assert s[0] == raw[0] && In(Not('<'), raw[0]);
    assert s[..|raw|] == raw && s[|raw|..] == rest;
  }

  lemma ClosingScans(name: string, gap: string, rest: string, limits: TextLimits)
    requires NameOk(name) && AllIn(Blanks, gap)
    ensures ScanLexeme(Write(Closing(name, gap), rest), limits) == Some(Scanned(Some(EndTag(name)), rest))
  {
    hide SkipUntil, ScanCdata, ScanStartTag, ScanCharacters, ScanName, SkipBlanks;
    var s := Write(Closing(name, gap), rest);
    var end := ">" + rest;
    assert s[0] == '<' && s[1] == '/' && s[2..] == name + (gap + end) && end[1..] == rest;
    assert (gap + end)[0] == if gap == [] then '>' else gap[0];
    NameScans(name, gap + end);
    BlanksSkip(gap, end);
  }

  lemma AfterTagName(xs: seq<AttributeSpelling>, gap: string, empty: bool, rest: string, limits: TextLimits)
    requires AllIn(Blanks, gap) && (xs != [] ==> AttributeOk(xs[0], limits) && xs[0].before != [])
    ensures var s := WriteAttributes(xs, gap + WriteEnd(empty, rest)); s != [] && !In(Name, s[0])
  {
    hide Decoded, ByteLength, WriteAttribute;
    var s := WriteAttributes(xs, gap + WriteEnd(empty, rest));
    if xs == [] {
      assert s[0] == if gap == [] then WriteEnd(empty, rest)[0] else gap[0];
    } else {
      assert s[0] == xs[0].before[0];
    }
  }

  lemma TagIsScanned(t: string, limits: TextLimits)
    requires var s := "<" + t;
             !("<!--" <= s || "<?" <= s || "<![CDATA[" <= s || "<!DOCTYPE" <= s || "<!ENTITY" <= s) && s[1..] == t
    requires t != [] && t[0] != '/'
    ensures ScanLexeme("<" + t, limits) ==
            match ScanStartTag(t, limits)
            case None => None
            case Some(Scanned(tag, rest)) => Some(Scanned(Some(tag), rest))
  {
    hide SkipUntil, ScanCdata, ScanEndTag, ScanCharacters, ScanStartTag;
  }

  lemma NameOfTag(name: string)
    requires TagNameOk(name)
    ensures NameOk(name)
  {
  }

  lemma OpeningScans(l: Lexeme, rest: string, limits: TextLimits)
    requires l.Opening? && LexemeOk(l, limits)
    ensures ScanLexeme(Write(l, rest), limits) == Some(Scanned(TokenOf(l), rest))
  {
    hide ScanLexeme, ScanName, ScanAttributes, AttributesOf, TagNameOk, WriteAttributes;
    var tail := WriteAttributes(l.attributes, l.gap + WriteEnd(l.empty, rest));
    NameOfTag(l.name);
    AfterTagName(l.attributes, l.gap, l.empty, rest, limits);
    StartsTag(l.name, tail);
    NameScans(l.name, tail);
    AttributesScan(l.attributes, l.gap, l.empty, rest, [], limits);
    assert [] + AttributesOf(l.attributes) == AttributesOf(l.attributes);
    TagIsScanned(l.name + tail, limits);
  }

  /** Every lexeme is scanned back, whatever follows it. */
  lemma LexemeScans(l: Lexeme, rest: string, limits: TextLimits)
    requires LexemeOk(l, limits) && (l.Characters? ==> rest == [] || rest[0] == '<')
    ensures Write(l, rest) != [] && ScanLexeme(Write(l, rest), limits) == Some(Scanned(TokenOf(l), rest))
  {
    hide ScanLexeme, TagNameOk, ByteLength, Decoded, AttributesOk, WriteAttributes, AttributesOf;
    match l
    case Skipped(text) => SkippedScans(text, rest, limits);
    case Cdata(value) => CdataScans(value, rest, limits);
    case Characters(raw) => CharactersScan(raw, rest, limits);
    case Closing(name, gap) => ClosingScans(name, gap, rest, limits);
    case Opening(_, _, _, _) => OpeningScans(l, rest, limits);
  }

  lemma StartsWithBracket(l: Lexeme, rest: string, limits: TextLimits)
    requires LexemeOk(l, limits) && !l.Characters?
    ensures Write(l, rest) != [] && Write(l, rest)[0] == '<'
  {
    hide ByteLength, AttributesOk, Find, WriteAttributes;
  }

  /** A text written lexeme by lexeme is scanned back to its tokens. */
  lemma {:induction false} WrittenScans(ls: seq<Lexeme>, limits: TextLimits)
    requires LexemesOk(ls, limits)
    ensures ScanAll(WriteAll(ls), limits) == Some(TokensOfAll(ls))
    decreases |ls|
  {
    hide ScanLexeme, Write, LexemeOk, TokenOf;
    if ls != [] {
      var rest := WriteAll(ls[1..]);
      WrittenScans(ls[1..], limits);
      if |ls| > 1 && ls[0].Characters? {
        StartsWithBracket(ls[1], WriteAll(ls[1..][1..]), limits);
      }
      LexemeScans(ls[0], rest, limits);
    }
  }

  // ---------- what is scanned was written ----------

  lemma NameScanned(s: string)
    requires ScanName(s).Some?
    ensures var r := ScanName(s).value;
            NameOk(r.value) && s == r.value + r.rest && (r.rest == [] || !In(Name, r.rest[0]))
  {
    SpanMeans(s, Name);
  }

  lemma BlanksSkipped(s: string) returns (gap: string)
    ensures AllIn(Blanks, gap) && s == gap + SkipBlanks(s) && (SkipBlanks(s) == [] || !IsBlank(SkipBlanks(s)[0]))
  {
    SpanMeans(s, Blanks);
    gap := s[..Span(s, Blanks)];
  }

  lemma QuotedScanned(s: string, quote: char, limits: TextLimits) returns (raw: string)
    requires ScanQuoted(s, quote, limits).Some?
    ensures var r := ScanQuoted(s, quote, limits).value;
            && AllIn(Not(quote), raw) && ByteLength(raw) <= limits.maxAttributeBytes
            && Decoded(raw) == Some(r.value) && ByteLength(r.value) <= limits.maxAttributeBytes
            && s == raw + ([quote] + r.rest)
  {
    hide Decoded, ByteLength;
    SpanMeans(s, Not(quote));
    raw := s[..Span(s, Not(quote))];
  }

  lemma AttributeScanned(s: string, limits: TextLimits) returns (a: AttributeSpelling)
    requires ScanAttribute(s, limits).Some?
    ensures var r := ScanAttribute(s, limits).value;
            AttributeOk(a, limits) && a.before == [] && s == WriteAttribute(a, r.rest) && AttributeOf(a) == r.value
  {
    hide Decoded, ByteLength, ScanName, SkipBlanks, ScanQuoted;
    NameScanned(s);
    var name := ScanName(s).value;
    var left := BlanksSkipped(name.rest);
    var sign := SkipBlanks(name.rest);
    var right := BlanksSkipped(sign[1..]);
    var opening := SkipBlanks(sign[1..]);
    var raw := QuotedScanned(opening[1..], opening[0], limits);
    a := AttributeSpelling("", name.value, left, right, opening[0], raw);
    assert sign == "=" + sign[1..] && opening == [opening[0]] + opening[1..];
  }

  lemma NoAttributes(seen: Attributes, limits: TextLimits)
    requires |seen| <= limits.maxAttributes
    ensures AttributesOk([], seen, limits)
  {
  }

  /** The blanks before an attribute say nothing about it. */
  lemma SameAttribute(a: AttributeSpelling, blanks: string, limits: TextLimits)
    requires AttributeOk(a, limits) && AllIn(Blanks, blanks)
    ensures AttributeOk(a.(before := blanks), limits) && AttributeOf(a.(before := blanks)) == AttributeOf(a)
    ensures AttributeOf(a).0 == a.name
  {
  }

  lemma SameWriting(a: AttributeSpelling, blanks: string, rest: string)
    ensures WriteAttribute(a.(before := blanks), rest) == WriteAttribute(a, rest)
  {
  }

  lemma {:induction false} AttributesScanned(s: string, seen: Attributes, limits: TextLimits)
    returns (xs: seq<AttributeSpelling>, gap: string)
    requires ScanAttributes(s, seen, limits).Some? && |seen| <= limits.maxAttributes
    ensures var r := ScanAttributes(s, seen, limits).value;
            && AttributesOk(xs, seen, limits) && AllIn(Blanks, gap)
            && s == WriteAttributes(xs, gap + WriteEnd(r.value.1, r.rest))
            && r.value.0 == seen + AttributesOf(xs)
    decreases |s|
  {
    hide AttributeOf, AttributeOk, AttributesOk, SkipBlanks;
    hide ScanAttribute, WriteAttribute, HasName, ByteLength, Decoded;
    var blanks := BlanksSkipped(s);
    var t := SkipBlanks(s);
    if t[0] == '>' || t[0] == '/' {
      xs, gap := [], blanks;
      assert AttributesOk([], seen, limits) by { NoAttributes(seen, limits); }
      assert seen + AttributesOf([]) == seen;
      assert t[0] == '>' ==> t == ">" + t[1..];
      assert t[0] == '/' ==> t == "/>" + t[2..];
    } else {
      var a := AttributeScanned(t, limits);
      var one := ScanAttribute(t, limits).value;
      var more := seen + [one.value];
      var others;
      others, gap := AttributesScanned(one.rest, more, limits);
      var first := a.(before := blanks);
      xs := [first] + others;
      SameAttribute(a, blanks, limits);
      AttributesOkStep(xs, seen, limits);
      assert xs[1..] == others;
      assert seen + AttributesOf(xs) == more + AttributesOf(others);
      SameWriting(a, blanks, one.rest);
    }
  }

  lemma SkippedScanned(s: string, marker: string, limits: TextLimits) returns (text: string)
    requires marker != [] && SkipUntil(s, marker).Some?
    ensures s == text + SkipUntil(s, marker).value && SkipUntil(text, marker) == Some("")
    ensures |text| >= |marker| && s[|text| - |marker|] == marker[0]
  {
    hide Find;
    var i := Find(s, marker).value;
    FindPrefix(s, marker, i);
    text := s[..i + |marker|];
    assert s[i] == text[i] == marker[0];
  }

  lemma CdataScanned(s: string, limits: TextLimits) returns (value: string)
    requires ScanCdata(s, limits).Some?
    ensures var r := ScanCdata(s, limits).value;
            LexemeOk(Cdata(value), limits) && r.value == TextRun(value) && s == value + ("]]>" + r.rest)
  {
    hide ByteLength, Find;
    var end := Find(s, "]]>").value;
    FindPrefix(s, "]]>", end);
    value := s[..end];
    assert s == s[..end + 3] + s[end + 3..];
  }

  lemma CharactersScanned(s: string, limits: TextLimits) returns (raw: string)
    requires s != [] && s[0] != '<' && ScanCharacters(s, limits).Some?
    ensures var r := ScanCharacters(s, limits).value;
            && LexemeOk(Characters(raw), limits) && Some(r.value) == TokenOf(Characters(raw)) && s == raw + r.rest
            && (r.rest == [] || r.rest[0] == '<')
  {
    hide ByteLength, Decoded;
    SpanMeans(s, Not('<'));
    raw := s[..Span(s, Not('<'))];
  }

  lemma EndTagScanned(s: string, limits: TextLimits) returns (l: Lexeme)
    requires ScanEndTag(s).Some?
    ensures var r := ScanEndTag(s).value;
            l.Closing? && LexemeOk(l, limits) && TokenOf(l) == Some(r.value) && "</" + s == Write(l, r.rest)
  {
    hide ScanName, SkipBlanks;
    NameScanned(s);
    var name := ScanName(s).value;
    var gap := BlanksSkipped(name.rest);
    var t := SkipBlanks(name.rest);
    assert t == ">" + t[1..];
    l := Closing(name.value, gap);
  }

  /** What ends a name is not the start of another. */
  lemma FirstIsApart(xs: seq<AttributeSpelling>, rest: string, limits: TextLimits)
    requires AttributesOk(xs, [], limits)
    requires var s := WriteAttributes(xs, rest); s == [] || !In(Name, s[0])
    ensures xs != [] ==> xs[0].before != []
  {
    hide Decoded, ByteLength, HasName;
    if xs != [] {
      var s := WriteAttribute(xs[0], WriteAttributes(xs[1..], rest));
      FirstOfAttribute(xs[0], WriteAttributes(xs[1..], rest), limits);
      assert xs[0].before == [] ==> WriteAttributes(xs, rest) == s;
    }
  }

  lemma StartTagScanned(s: string, limits: TextLimits) returns (l: Lexeme)
    requires ScanStartTag(s, limits).Some?
    requires !("<!--" <= "<" + s || "<?" <= "<" + s || "<![CDATA[" <= "<" + s || "<!DOCTYPE" <= "<" + s ||
               "<!ENTITY" <= "<" + s)
    ensures var r := ScanStartTag(s, limits).value;
            l.Opening? && LexemeOk(l, limits) && TokenOf(l) == Some(r.value) && "<" + s == Write(l, r.rest)
  {
    hide ScanName, ScanAttributes, AttributesOk, AttributesOf, WriteAttributes, WriteEnd, TagNameOk, AllIn;
    NameScanned(s);
    var name := ScanName(s).value;
    var xs, gap := AttributesScanned(name.rest, [], limits);
    var tag := ScanAttributes(name.rest, [], limits).value;
    assert [] + AttributesOf(xs) == AttributesOf(xs);
    StartsTag(name.value, name.rest);
    l := Lexeme.Opening(name.value, xs, gap, tag.value.1);
    FirstIsApart(xs, gap + WriteEnd(tag.value.1, tag.rest), limits);
  }

  lemma TokenScanned(s: string, limits: TextLimits) returns (l: Lexeme)
    requires s != [] && !("<!--" <= s) && !("<?" <= s) && ScanToken(s, limits).Some?
    ensures var r := ScanToken(s, limits).value;
            && LexemeOk(l, limits) && TokenOf(l) == Some(r.value) && s == Write(l, r.rest)
            && (l.Characters? ==> r.rest == [] || r.rest[0] == '<')
  {
    hide ScanCdata, ScanCharacters, ScanEndTag, ScanStartTag, LexemeOk;
    if "<![CDATA[" <= s {
      var value := CdataScanned(s[9..], limits);
      l := Cdata(value);
      assert s == "<![CDATA[" + s[9..];
    } else if s[0] != '<' {
      var raw := CharactersScanned(s, limits);
      l := Characters(raw);
    } else if |s| > 1 && s[1] == '/' {
      l := EndTagScanned(s[2..], limits);
      assert s == "</" + s[2..];
    } else {
      assert s == "<" + s[1..];
      l := StartTagScanned(s[1..], limits);
    }
  }

  lemma LexemeScanned(s: string, limits: TextLimits) returns (l: Lexeme)
    requires s != [] && ScanLexeme(s, limits).Some?
    ensures var r := ScanLexeme(s, limits).value;
            && LexemeOk(l, limits) && TokenOf(l) == r.value && s == Write(l, r.rest)
            && (l.Characters? ==> r.rest == [] || r.rest[0] == '<')
  {
    hide SkipUntil, ScanToken;
    if "<!--" <= s {
      var text := SkippedScanned(s, "-->", limits);
      assert s[0] == '<' && s[1] == '!' && |text| > 4;
      l := Skipped(text);
    } else if "<?" <= s {
      var text := SkippedScanned(s, "?>", limits);
      assert s[0] == '<' && |text| > 2;
      l := Skipped(text);
    } else {
      l := TokenScanned(s, limits);
    }
  }

  lemma FirstOfCharacters(l: Lexeme, rest: string, limits: TextLimits)
    requires LexemeOk(l, limits)
    ensures l.Characters? ==> Write(l, rest) != [] && Write(l, rest)[0] != '<'
  {
    hide ByteLength, Decoded, AttributesOk, SkipUntil, Find, TagNameOk, WriteAttributes;
    if l.Characters? { assert Write(l, rest)[0] == l.raw[0] && In(Not('<'), l.raw[0]); }
  }

  lemma ApartFrom(ls: seq<Lexeme>, s: string, limits: TextLimits)
    requires ls != [] && LexemesOk(ls, limits) && WriteAll(ls) == s && (s == [] || s[0] == '<')
    ensures !ls[0].Characters?
  {
    hide LexemeOk, Write;
    assert LexemeOk(ls[0], limits);
    FirstOfCharacters(ls[0], WriteAll(ls[1..]), limits);
  }

  lemma LexemesCons(l: Lexeme, more: seq<Lexeme>, limits: TextLimits)
    requires LexemeOk(l, limits) && LexemesOk(more, limits)
    requires l.Characters? && more != [] ==> !more[0].Characters?
    ensures LexemesOk([l] + more, limits)
  {
    hide LexemeOk;
    var ls := [l] + more;
    forall i | 0 <= i < |ls| ensures LexemeOk(ls[i], limits) { if i > 0 { assert ls[i] == more[i - 1]; } }
    forall i | 0 <= i < |ls| - 1
      ensures ls[i].Characters? ==> !ls[i + 1].Characters?
    {
      assert ls[i + 1] == more[i];
      if i > 0 { assert ls[i] == more[i - 1]; }
    }
  }

  /** A text that is scanned was written lexeme by lexeme. */
  lemma {:induction false} ScannedIsWritten(s: string, limits: TextLimits) returns (ls: seq<Lexeme>)
    requires ScanAll(s, limits).Some?
    ensures LexemesOk(ls, limits) && WriteAll(ls) == s && TokensOfAll(ls) == ScanAll(s, limits).value
    decreases |s|
  {
    hide ScanLexeme, Write, LexemeOk, TokenOf;
    if s == [] {
      ls := [];
    } else {
      var l := LexemeScanned(s, limits);
      var rest := ScanLexeme(s, limits).value.rest;
      var more := ScannedIsWritten(rest, limits);
      ls := [l] + more;
      assert ls[1..] == more;
      if l.Characters? && more != [] { ApartFrom(more, rest, limits); }
      LexemesCons(l, more, limits);
    }
  }

  /** `ls` is a way to write the text, with these tokens. */
  ghost predicate Spelled(ls: seq<Lexeme>, s: string, tokens: seq<Token>, limits: TextLimits)
  {
    LexemesOk(ls, limits) && WriteAll(ls) == s && TokensOfAll(ls) == tokens
  }

  /** The scanner accepts exactly what can be written, and gives back its tokens. */
  lemma ScanIsExact(s: string, tokens: seq<Token>, limits: TextLimits)
    ensures ScanAll(s, limits) == Some(tokens) <==> exists ls :: Spelled(ls, s, tokens, limits)
  {
    hide ScanAll, LexemesOk, WriteAll, TokensOfAll;
    if ScanAll(s, limits) == Some(tokens) {
      var ls := ScannedIsWritten(s, limits);
      assert Spelled(ls, s, tokens, limits);
    }
    if ls :| Spelled(ls, s, tokens, limits) {
      WrittenScans(ls, limits);
    }
  }
}
