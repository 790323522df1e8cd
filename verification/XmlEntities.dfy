/**
 Character references in XML text (section 4.1 of XML 1.0): the decoder that jumps from one
 ampersand to the next, against the spellings of a text.
 */
module XmlEntities {
  import opened Prelude
  import opened Numerals

  // ---------- runs of characters ----------

  /** What a scan passes over: the characters of a name, blanks, or everything but one character. */
  datatype Run = Name | Blanks | Not(stop: char)

  predicate IsBlank(c: char)
  {
    c == ' ' || c == '\t' || c == '\n' || c == '\r' || c as int == 0x0C
  }

  predicate In(run: Run, c: char)
  {
    match run
    case Name => !IsBlank(c) && c != '=' && c != '>' && c != '/'
    case Blanks => IsBlank(c)
    case Not(stop) => c != stop
  }

  predicate AllIn(run: Run, s: string)
  {
    forall i | 0 <= i < |s| :: In(run, s[i])
  }

  function Span(s: string, run: Run): (k: nat)
    ensures k <= |s|
  {
    if s == [] || !In(run, s[0]) then 0 else 1 + Span(s[1..], run)
  }

  lemma {:induction false} SpanMeans(s: string, run: Run)
    ensures var k := Span(s, run); AllIn(run, s[..k]) && (k < |s| ==> !In(run, s[k]))
  {
    if s != [] && In(run, s[0]) {
      var k := Span(s[1..], run);
      SpanMeans(s[1..], run);
      assert s[..k + 1] == [s[0]] + s[1..][..k];
    }
  }

  lemma {:induction false} SpanOf(a: string, rest: string, run: Run)
    requires AllIn(run, a) && (rest == [] || !In(run, rest[0]))
    ensures Span(a + rest, run) == |a|
  {
    if a == [] {
      assert a + rest == rest;
    } else {
      assert (a + rest)[1..] == a[1..] + rest;
      SpanOf(a[1..], rest, run);
    }
  }

  // ---------- one reference ----------

  /** A number is parsed with an optional plus sign. */
  function Unsigned(s: string): (digits: string)
  {
    if s != [] && s[0] == '+' then s[1..] else s
  }

  function CharOf(v: Option<nat>): (c: Option<char>)
  {
    if v.Some? && (v.value < 0xD800 || 0xE000 <= v.value < 0x11_0000) then Some(v.value as char) else None
  }

  function ReferenceValue(entity: string): (c: Option<char>)
  {
    if entity == "amp" then Some('&')
    else if entity == "lt" then Some('<')
    else if entity == "gt" then Some('>')
    else if entity == "quot" then Some('"')
    else if entity == "apos" then Some('\'')
    else if "#x" <= entity || "#X" <= entity then CharOf(NumberValue(Unsigned(entity[2..]), 16))
    else if "#" <= entity then CharOf(NumberValue(Unsigned(entity[1..]), 10))
    else None
  }

  lemma DecimalIsNotHex(n: nat)
    ensures var s := Numeral(n, 10); s != [] && s[0] != 'x' && s[0] != 'X'
    decreases n
  {
    if n >= 10 { DecimalIsNotHex(n / 10); }
  }

  /** Every character has a decimal and a hexadecimal reference. */
  lemma NumericReference(c: char)
    ensures ReferenceValue("#" + Numeral(c as int, 10)) == Some(c)
    ensures ReferenceValue("#x" + Numeral(c as int, 16)) == Some(c)
  {
    hide Numeral, NumberValue;
    NumeralReads(c as int, 10);
    NumeralReads(c as int, 16);
    var decimal, hex := "#" + Numeral(c as int, 10), "#x" + Numeral(c as int, 16);
    assert decimal[1..] == Numeral(c as int, 10) && hex[2..] == Numeral(c as int, 16);
    assert decimal[0] == '#' && hex[0] == '#' && hex[1] == 'x';
    DecimalIsNotHex(c as int);
  }

  // ---------- the whole text ----------

  /** References replaced from the left. */
  function Expand(s: string): (t: Option<string>)
    decreases |s|
  {
    if s == [] then Some([])
    else if s[0] != '&' then
      match Expand(s[1..]) case None => None case Some(t) => Some([s[0]] + t)
    else
      var k := Span(s[1..], Not(';'));
      if k == |s| - 1 || ReferenceValue(s[1..k + 1]).None? then None
      else
        match Expand(s[k + 2..])
        case None => None
        case Some(t) => Some([ReferenceValue(s[1..k + 1]).value] + t)
  }

  predicate IsValidXmlChar(c: char)
  {
    var v := c as int;
    v == 0x9 || v == 0xA || v == 0xD || 0x20 <= v <= 0xD7FF || 0xE000 <= v <= 0xFFFD || 0x1_0000 <= v <= 0x10_FFFF
  }

  predicate AllValid(s: string)
  {
    forall i | 0 <= i < |s| :: IsValidXmlChar(s[i])
  }

  /** A text without an ampersand is passed through unchecked. */
  function Decoded(s: string): (t: Option<string>)
  {
    if '&' !in s then Some(s)
    else
      var t := Expand(s);
      if t.Some? && AllValid(t.value) then t else None
  }

  lemma {:induction false} ExpandPlain(a: string, rest: string)
    requires AllIn(Not('&'), a)
    ensures Expand(a + rest) == match Expand(rest) case None => None case Some(t) => Some(a + t)
  {
    if a == [] {
      assert a + rest == rest;
      assert Expand(rest).Some? ==> a + Expand(rest).value == Expand(rest).value;
    } else {
      assert (a + rest)[1..] == a[1..] + rest;
      ExpandPlain(a[1..], rest);
      assert Expand(rest).Some? ==> a + Expand(rest).value == [a[0]] + (a[1..] + Expand(rest).value);
    }
  }

  lemma ExpandReference(s: string, k: nat)
    requires s != [] && s[0] == '&' && k == Span(s[1..], Not(';')) && k < |s| - 1
    ensures s[k + 1] == ';'
    ensures Expand(s) ==
            match ReferenceValue(s[1..k + 1])
            case None => None
            case Some(c) => (match Expand(s[k + 2..]) case None => None case Some(t) => Some([c] + t))
  {
    hide ReferenceValue;
    SpanMeans(s[1..], Not(';'));
  }

  /** The text decoded so far, then the expansion of what is left. */
  ghost predicate Expanding(output: string, rest: string, value: string)
  {
    Expand(value) == match Expand(rest) case None => None case Some(t) => Some(output + t)
  }

  lemma ExpandStarts(value: string)
    ensures Expanding("", value, value)
  {
    if Expand(value).Some? { assert "" + Expand(value).value == Expand(value).value; }
  }

  lemma ExpandUpTo(output: string, rest: string, value: string, index: nat)
    requires Expanding(output, rest, value) && index <= |rest| && AllIn(Not('&'), rest[..index])
    ensures Expanding(output + rest[..index], rest[index..], value)
  {
    hide Expand;
    ExpandPlain(rest[..index], rest[index..]);
    assert rest[..index] + rest[index..] == rest;
    if Expand(rest[index..]).Some? {
      var t := Expand(rest[index..]).value;
      assert output + (rest[..index] + t) == (output + rest[..index]) + t;
    }
  }

  lemma ExpandUnclosed(rest: string)
    requires rest != [] && rest[0] == '&' && Span(rest[1..], Not(';')) == |rest| - 1
    ensures Expand(rest).None?
  {
  }

  lemma ExpandPast(output: string, rest: string, value: string, end: nat, c: char)
    requires Expanding(output, rest, value) && end + 2 <= |rest|
    requires Expand(rest) == match Expand(rest[end + 2..]) case None => None case Some(t) => Some([c] + t)
    ensures Expanding(output + [c], rest[end + 2..], value)
  {
    hide Expand;
    if Expand(rest[end + 2..]).Some? {
      var t := Expand(rest[end + 2..]).value;
      assert output + ([c] + t) == (output + [c]) + t;
    }
  }

  lemma ExpandEnds(output: string, rest: string, value: string)
    requires Expanding(output, rest, value) && '&' !in rest
    ensures Expand(value) == Some(output + rest)
  {
    ExpandPlain(rest, "");
    assert rest + "" == rest;
  }

  method DecodeXmlEntities(value: string) returns (r: Option<string>)
    ensures r == Decoded(value)
  {
    hide Expand, ReferenceValue, Span;
    if '&' !in value {
      return Some(value);
    }
    var output := "";
    var rest := value;
    assert Expanding(output, rest, value) by { ExpandStarts(value); }
    while '&' in rest
      invariant Expanding(output, rest, value)
      decreases |rest|
    {
      var index := Span(rest, Not('&'));
      SpanMeans(rest, Not('&'));
      assert index < |rest| && rest[index] == '&';
      ghost var before := rest;
      ExpandUpTo(output, rest, value, index);
      output := output + rest[..index];
      rest := rest[index..];
      var end := Span(rest[1..], Not(';'));
      if end == |rest| - 1 {
        ExpandUnclosed(rest);
        return None;
      }
      ExpandReference(rest, end);
      var entity := rest[1..end + 1];
      var c := ReferenceValue(entity);
      if c.None? {
        return None;
      }
      ExpandPast(output, rest, value, end, c.value);
      output := output + [c.value];
      rest := rest[end + 2..];
    }
    ExpandEnds(output, rest, value);
    output := output + rest;
    return if AllValid(output) then Some(output) else None;
  }

  // ---------- spellings ----------

  /** A character written as itself, or as a reference. */
  datatype Glyph = Bare(c: char) | Reference(entity: string)

  predicate GlyphOk(g: Glyph)
  {
    match g
    case Bare(c) => c != '&'
    case Reference(entity) => AllIn(Not(';'), entity) && ReferenceValue(entity).Some?
  }

  predicate GlyphsOk(gs: seq<Glyph>)
  {
    forall i | 0 <= i < |gs| :: GlyphOk(gs[i])
  }

  function Written(g: Glyph): (s: string)
  {
    match g
    case Bare(c) => [c]
    case Reference(entity) => "&" + entity + ";"
  }

  function Meaning(g: Glyph): (c: char)
    requires GlyphOk(g)
  {
    match g
    case Bare(c) => c
    case Reference(entity) => ReferenceValue(entity).value
  }

  function WrittenAll(gs: seq<Glyph>): (s: string)
  {
    if gs == [] then "" else Written(gs[0]) + WrittenAll(gs[1..])
  }

  function MeaningAll(gs: seq<Glyph>): (s: string)
    requires GlyphsOk(gs)
  {
    if gs == [] then "" else [Meaning(gs[0])] + MeaningAll(gs[1..])
  }

  lemma ExpandFirst(g: Glyph, rest: string)
    requires GlyphOk(g)
    ensures Expand(Written(g) + rest) == match Expand(rest) case None => None case Some(t) => Some([Meaning(g)] + t)
  {
    hide ReferenceValue;
    var s := Written(g) + rest;
    match g
    case Bare(c) =>
      assert s[1..] == rest;
    case Reference(entity) =>
      assert s[1..] == entity + (";" + rest);
      SpanOf(entity, ";" + rest, Not(';'));
      assert s[1..|entity| + 1] == entity && s[|entity| + 2..] == rest;
      ExpandReference(s, |entity|);
  }

  /** Every spelling of a text expands to that text. */
  lemma {:induction false} SpellingExpands(gs: seq<Glyph>)
    requires GlyphsOk(gs)
    ensures Expand(WrittenAll(gs)) == Some(MeaningAll(gs))
  {
    hide Written, Meaning, GlyphOk;
    if gs == [] {
      assert WrittenAll(gs) == "";
    } else {
      SpellingExpands(gs[1..]);
      ExpandFirst(gs[0], WrittenAll(gs[1..]));
    }
  }

  lemma FirstGlyph(s: string) returns (g: Glyph, rest: string)
    requires s != [] && Expand(s).Some?
    ensures GlyphOk(g) && s == Written(g) + rest && |rest| < |s|
    ensures Expand(rest).Some? && Expand(s).value == [Meaning(g)] + Expand(rest).value
  {
    hide ReferenceValue;
    if s[0] != '&' {
      g, rest := Bare(s[0]), s[1..];
    } else {
      var k := Span(s[1..], Not(';'));
      SpanMeans(s[1..], Not(';'));
      assert s[1..][..k] == s[1..k + 1] && s[1..][k] == s[k + 1];
      g, rest := Reference(s[1..k + 1]), s[k + 2..];
    }
  }

  /** Every text that expands was a spelling of what it expands to. */
  lemma {:induction false} ExpandedIsSpelled(s: string) returns (gs: seq<Glyph>)
    requires Expand(s).Some?
    ensures GlyphsOk(gs) && WrittenAll(gs) == s && MeaningAll(gs) == Expand(s).value
    decreases |s|
  {
    hide ReferenceValue;
    if s == [] {
      gs := [];
    } else {
      var g, rest := FirstGlyph(s);
      var more := ExpandedIsSpelled(rest);
      gs := [g] + more;
      assert gs[1..] == more;
    }
  }

  /** The decoder accepts a text with an ampersand exactly as a spelling of valid characters. */
  lemma DecodedIsSpelling(s: string, t: string)
    requires '&' in s
    ensures Decoded(s) == Some(t) <==>
            AllValid(t) && exists gs :: GlyphsOk(gs) && WrittenAll(gs) == s && MeaningAll(gs) == t
  {
    hide GlyphOk, Written, Meaning, AllValid, WrittenAll, MeaningAll;
    if Expand(s) == Some(t) {
      var gs := ExpandedIsSpelled(s);
      assert GlyphsOk(gs) && WrittenAll(gs) == s && MeaningAll(gs) == t;
    }
    if gs :| GlyphsOk(gs) && WrittenAll(gs) == s && MeaningAll(gs) == t {
      SpellingExpands(gs);
    }
  }

  // ---------- the usual escaping ----------

  function EscapeOne(c: char): (g: Glyph)
    ensures GlyphOk(g) && Meaning(g) == c
  {
    if c == '&' then Reference("amp")
    else if c == '<' then Reference("lt")
    else if c == '>' then Reference("gt")
    else if c == '"' then Reference("quot")
    else if c == '\'' then Reference("apos")
    else Bare(c)
  }

  function Escapes(s: string): (gs: seq<Glyph>)
    ensures |gs| == |s|
  {
    seq(|s|, i requires 0 <= i < |s| => EscapeOne(s[i]))
  }

  lemma {:induction false} EscapesMean(s: string)
    ensures GlyphsOk(Escapes(s)) && MeaningAll(Escapes(s)) == s
  {
    hide GlyphOk, Meaning;
    if s != [] {
      EscapesMean(s[1..]);
      assert Escapes(s)[1..] == Escapes(s[1..]);
    }
  }

  predicate NeedsEscape(s: string)
  {
    exists i | 0 <= i < |s| :: s[i] in {'&', '<', '>', '"', '\''}
  }

  lemma NeedsFirst(s: string)
    requires s != []
    ensures NeedsEscape(s) <==> s[0] in {'&', '<', '>', '"', '\''} || NeedsEscape(s[1..])
  {
    if NeedsEscape(s[1..]) {
      var i :| 0 <= i < |s[1..]| && s[1..][i] in {'&', '<', '>', '"', '\''};
      assert s[i + 1] == s[1..][i];
    }
    if i :| 0 < i < |s| && s[i] in {'&', '<', '>', '"', '\''} {
      assert s[1..][i - 1] == s[i];
    }
  }

  lemma {:induction false} EscapesShow(s: string)
    ensures '&' in WrittenAll(Escapes(s)) <==> NeedsEscape(s)
    ensures !NeedsEscape(s) ==> WrittenAll(Escapes(s)) == s
  {
    if s != [] {
      EscapesShow(s[1..]);
      assert Escapes(s)[1..] == Escapes(s[1..]);
      var g := EscapeOne(s[0]);
      assert WrittenAll(Escapes(s)) == Written(g) + WrittenAll(Escapes(s[1..]));
      assert g.Reference? ==> Written(g)[0] == '&';
      assert NeedsEscape(s) <==> g.Reference? || NeedsEscape(s[1..]) by { NeedsFirst(s); }
    }
  }

  /**
   Escaping then decoding gives the text back, with one exception: a text with a character
   XML does not allow is refused if any character of it needed escaping, and passed if none did.
   */
  lemma EscapeRoundTrip(s: string)
    ensures Decoded(WrittenAll(Escapes(s))) == Some(s) <==> AllValid(s) || !NeedsEscape(s)
  {
    hide Expand, NeedsEscape, AllValid, Escapes;
    EscapesShow(s);
    EscapesMean(s);
    SpellingExpands(Escapes(s));
  }

  /** A control character beside an ampersand is refused; alone, it is passed. */
  lemma ControlBesideAmpersand()
    ensures var control := 1 as char;
            && Decoded(WrittenAll(Escapes([control, '&']))) != Some([control, '&'])
            && Decoded(WrittenAll(Escapes([control]))) == Some([control])
  {
    var control := 1 as char;
    assert [control, '&'][0] == control && [control, '&'][1] == '&';
    EscapeRoundTrip([control, '&']);
    EscapeRoundTrip([control]);
  }
}
