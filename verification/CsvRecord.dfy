/**
 The independent CSV scanner, against the record grammar of section 2 of RFC 4180: what
 it accepts is exactly what printing produces, field for field and flag for flag.
 */
module CsvRecord {
  import opened Prelude
  import opened Utf8

  const QUOTE: Byte := 34
  const LF: Byte := 10
  const CR: Byte := 13

  datatype Token = Token(value: Bytes, quoted: bool)

  datatype Limits = Limits(maxRecordBytes: nat, maxColumns: nat, maxInputBytes: nat)

  /** A delimiter is none of the bytes that already mean something. */
  predicate IsDelimiter(d: Byte)
  {
    d != QUOTE && d != LF && d != CR
  }

  // ---------- printing ----------

  function Escape(s: Bytes): (r: Bytes)
  {
    if s == [] then [] else (if s[0] == QUOTE then [QUOTE, QUOTE] else [s[0]]) + Escape(s[1..])
  }

  function PrintToken(t: Token): (r: Bytes)
  {
    if t.quoted then [QUOTE] + Escape(t.value) + [QUOTE] else t.value
  }

  function PrintRecord(tokens: seq<Token>, delimiter: Byte): (r: Bytes)
    requires tokens != []
  {
    if |tokens| == 1 then PrintToken(tokens[0])
    else PrintToken(tokens[0]) + [delimiter] + PrintRecord(tokens[1..], delimiter)
  }

  predicate EndsNothing(s: Bytes, delimiter: Byte)
  {
    forall i | 0 <= i < |s| :: s[i] != delimiter && s[i] != LF && s[i] != CR
  }

  /** Text an unquoted field can hold: nothing that ends a field, and no quote in front. */
  predicate Plain(s: Bytes, delimiter: Byte)
  {
    EndsNothing(s, delimiter) && (s != [] ==> s[0] != QUOTE)
  }

  predicate Printable(t: Token, delimiter: Byte)
  {
    Valid(t.value) && (t.quoted || Plain(t.value, delimiter))
  }

  /** The line ending found at the end of a record: LF, CRLF, a lone CR, or the end of the input. */
  predicate Ends(input: Bytes, end: nat, next: nat)
  {
    end <= next <= |input| &&
    ((next == end + 1 && input[end] == LF) ||
     (next == end + 2 && input[end] == CR && input[end + 1] == LF) ||
     (next == end + 1 && input[end] == CR && (next < |input| ==> input[next] != LF)) ||
     (next == end == |input|))
  }

  /** `tokens`, printed, stand in the input between `offset` and `next`, line ending included. */
  ghost predicate Stands(input: Bytes, offset: nat, delimiter: Byte, tokens: seq<Token>, next: nat)
  {
    tokens != [] && (forall t | t in tokens :: Printable(t, delimiter)) &&
    var end := offset + |PrintRecord(tokens, delimiter)|;
    end <= |input| && input[offset..end] == PrintRecord(tokens, delimiter) && Ends(input, end, next) && next > offset
  }

  predicate Within(limits: Limits, tokens: seq<Token>, offset: nat, next: nat)
  {
    |tokens| <= limits.maxColumns && next <= offset + limits.maxRecordBytes && next <= limits.maxInputBytes
  }

  // ---------- the scanner, one byte at a time ----------

  datatype State = State(
    offset: nat, recordBytes: nat, record: seq<Token>, field: Bytes,
    quoted: bool, wasQuoted: bool, closedQuote: bool, atFieldStart: bool)

  datatype Outcome = More(state: State) | Done(record: seq<Token>, next: nat) | Refused

  function PushField(record: seq<Token>, field: Bytes, quoted: bool, limits: Limits): (r: Option<seq<Token>>)
  {
    if |record| >= limits.maxColumns || !Valid(field) then None else Some(record + [Token(field, quoted)])
  }

  /** Consuming one byte, unless a limit stops it. */
  function Consume(st: State, limits: Limits): (r: Option<State>)
  {
    var st' := st.(offset := st.offset + 1, recordBytes := st.recordBytes + 1);
    if st'.recordBytes > limits.maxRecordBytes || st'.offset > limits.maxInputBytes then None else Some(st')
  }

  function Finish(st: State, limits: Limits): (r: Outcome)
  {
    match PushField(st.record, st.field, st.wasQuoted, limits)
    case None => Refused
    case Some(record) => Done(record, st.offset)
  }

  predicate Follows(input: Bytes, offset: nat, b: Byte)
  {
    offset < |input| && input[offset] == b
  }

  /** The loop body. */
  function Step(input: Bytes, delimiter: Byte, limits: Limits, st: State): (r: Outcome)
    requires st.offset <= |input|
  {
    if st.offset == |input| then
      if st.quoted then Refused
      else if st.field == [] && st.record == [] && !st.wasQuoted && !st.closedQuote then Refused
      else Finish(st, limits)
    else
      var byte := input[st.offset];
      var consumed := Consume(st, limits);
      if consumed.None? then Refused
      else
        var st1 := consumed.value;
        if st.quoted then
          if byte == QUOTE && Follows(input, st1.offset, QUOTE) then
            match Consume(st1, limits)
            case None => Refused
            case Some(st2) => More(st2.(field := st.field + [QUOTE]))
          else if byte == QUOTE then More(st1.(quoted := false, closedQuote := true))
          else More(st1.(field := st.field + [byte]))
        else if st.closedQuote && byte != delimiter && byte != LF && byte != CR then Refused
        else if byte == QUOTE && st.atFieldStart then
          More(st1.(quoted := true, wasQuoted := true, atFieldStart := false))
        else if byte == delimiter then
          match PushField(st.record, st.field, st.wasQuoted, limits)
          case None => Refused
          case Some(record) =>
            More(st1.(record := record, field := [], wasQuoted := false, closedQuote := false, atFieldStart := true))
        else if byte == LF || byte == CR then
          if byte == CR && Follows(input, st1.offset, LF) then
            match Consume(st1, limits)
            case None => Refused
            case Some(st2) => Finish(st2, limits)
          else Finish(st1, limits)
        else More(st1.(field := st.field + [byte], atFieldStart := false))
  }

  lemma StepAdvances(input: Bytes, delimiter: Byte, limits: Limits, st: State)
    requires st.offset <= |input| && Step(input, delimiter, limits, st).More?
    ensures st.offset < Step(input, delimiter, limits, st).state.offset <= |input|
  {
  }

  function Scan(input: Bytes, delimiter: Byte, limits: Limits, st: State): (r: Option<(seq<Token>, nat)>)
    requires st.offset <= |input|
    decreases |input| - st.offset
  {
    match Step(input, delimiter, limits, st)
    case Refused => None
    case Done(record, next) => Some((record, next))
    case More(st') =>
      StepAdvances(input, delimiter, limits, st);
      Scan(input, delimiter, limits, st')
  }

  lemma ScanMore(input: Bytes, delimiter: Byte, limits: Limits, st: State, st': State)
    requires st.offset <= |input| && Step(input, delimiter, limits, st) == More(st')
    ensures st'.offset <= |input| && Scan(input, delimiter, limits, st) == Scan(input, delimiter, limits, st')
  {
    StepAdvances(input, delimiter, limits, st);
  }

  lemma ScanDone(input: Bytes, delimiter: Byte, limits: Limits, st: State)
    requires st.offset <= |input| && Step(input, delimiter, limits, st).Done?
    ensures var done := Step(input, delimiter, limits, st);
            Scan(input, delimiter, limits, st) == Some((done.record, done.next))
  {
  }

  function Start(offset: nat): (st: State)
  {
    State(offset, 0, [], [], false, false, false, true)
  }

  // ---------- every record that stands in the input is scanned ----------

  /** A state at the start of a field, `record` already read. */
  function FieldStart(offset: nat, start: nat, record: seq<Token>): (st: State)
    requires start <= offset
  {
    State(offset, offset - start, record, [], false, false, false, true)
  }

  lemma StepPlain(input: Bytes, delimiter: Byte, limits: Limits, st: State)
    requires st.offset < |input| && !st.quoted && !st.closedQuote
    requires st.recordBytes < limits.maxRecordBytes && st.offset < limits.maxInputBytes
    requires input[st.offset] != delimiter && input[st.offset] != LF && input[st.offset] != CR
    requires st.atFieldStart ==> input[st.offset] != QUOTE
    ensures Step(input, delimiter, limits, st) ==
            More(st.(offset := st.offset + 1, recordBytes := st.recordBytes + 1,
                     field := st.field + [input[st.offset]], atFieldStart := false))
  {
  }

  /** Reading the rest of an unquoted field. */
  lemma {:induction false} ScanPlain(input: Bytes, delimiter: Byte, limits: Limits, st: State, s: Bytes)
    requires st.offset + |s| <= |input| && !st.quoted && !st.closedQuote && !st.wasQuoted
    requires input[st.offset..st.offset + |s|] == s
    requires st.recordBytes + |s| <= limits.maxRecordBytes && st.offset + |s| <= limits.maxInputBytes
    requires EndsNothing(s, delimiter)
    requires s != [] && st.atFieldStart ==> s[0] != QUOTE
    ensures Scan(input, delimiter, limits, st) ==
            Scan(input, delimiter, limits,
                 st.(offset := st.offset + |s|, recordBytes := st.recordBytes + |s|,
                     field := st.field + s, atFieldStart := st.atFieldStart && s == []))
    decreases |s|
  {
    hide Step, Scan;
    if s == [] {
      assert st.field + s == st.field;
    } else {
      assert input[st.offset] == input[st.offset..st.offset + |s|][0] == s[0];
      var st' := st.(offset := st.offset + 1, recordBytes := st.recordBytes + 1,
                     field := st.field + [s[0]], atFieldStart := false);
      StepPlain(input, delimiter, limits, st);
      ScanMore(input, delimiter, limits, st, st');
      assert input[st'.offset..st'.offset + |s[1..]|] == input[st.offset..st.offset + |s|][1..];
      ScanPlain(input, delimiter, limits, st', s[1..]);
      assert st.field + [s[0]] + s[1..] == st.field + s;
    }
  }

  lemma StepQuoted(input: Bytes, delimiter: Byte, limits: Limits, st: State)
    requires st.offset < |input| && st.quoted
    requires st.recordBytes + 1 < limits.maxRecordBytes && st.offset + 1 < limits.maxInputBytes
    requires input[st.offset] == QUOTE ==> Follows(input, st.offset + 1, QUOTE)
    ensures var k := if input[st.offset] == QUOTE then 2 else 1;
            Step(input, delimiter, limits, st) ==
            More(st.(offset := st.offset + k, recordBytes := st.recordBytes + k,
                     field := st.field + [input[st.offset]]))
  {
  }

  /** Reading the rest of a quoted field up to its closing quote. */
  lemma {:induction false} ScanQuoted(input: Bytes, delimiter: Byte, limits: Limits, st: State, s: Bytes)
    requires st.offset + |Escape(s)| < |input| && st.quoted
    requires input[st.offset..st.offset + |Escape(s)|] == Escape(s)
    requires input[st.offset + |Escape(s)|] == QUOTE && !Follows(input, st.offset + |Escape(s)| + 1, QUOTE)
    requires st.recordBytes + |Escape(s)| < limits.maxRecordBytes && st.offset + |Escape(s)| < limits.maxInputBytes
    ensures Scan(input, delimiter, limits, st) ==
            Scan(input, delimiter, limits,
                 st.(offset := st.offset + |Escape(s)| + 1, recordBytes := st.recordBytes + |Escape(s)| + 1,
                     field := st.field + s, quoted := false, closedQuote := true))
    decreases |s|
  {
    hide Scan;
    if s == [] {
      assert st.field + s == st.field;
      ScanMore(input, delimiter, limits, st,
               st.(offset := st.offset + 1, recordBytes := st.recordBytes + 1, quoted := false, closedQuote := true));
    } else {
      hide Step;
      var k := if s[0] == QUOTE then 2 else 1;
      assert Escape(s)[k..] == Escape(s[1..]);
      assert input[st.offset] == Escape(s)[0];
      if k == 2 { assert input[st.offset + 1] == Escape(s)[1]; }
      var st' := st.(offset := st.offset + k, recordBytes := st.recordBytes + k, field := st.field + [s[0]]);
      StepQuoted(input, delimiter, limits, st);
      ScanMore(input, delimiter, limits, st, st');
      assert input[st'.offset..st'.offset + |Escape(s[1..])|] == input[st.offset..st.offset + |Escape(s)|][k..];
      ScanQuoted(input, delimiter, limits, st', s[1..]);
      assert st.field + [s[0]] + s[1..] == st.field + s;
    }
  }

  /** Where a field ends: the state just before its delimiter or line ending. */
  function FieldEnd(offset: nat, start: nat, record: seq<Token>, t: Token): (st: State)
    requires start <= offset
  {
    var end := offset + |PrintToken(t)|;
    State(end, end - start, record, t.value, false, t.quoted, t.quoted, !t.quoted && t.value == [])
  }

  lemma StepOpen(input: Bytes, delimiter: Byte, limits: Limits, st: State)
    requires st.offset < |input| && !st.quoted && !st.closedQuote && st.atFieldStart && input[st.offset] == QUOTE
    requires st.recordBytes < limits.maxRecordBytes && st.offset < limits.maxInputBytes
    ensures Step(input, delimiter, limits, st) ==
            More(st.(offset := st.offset + 1, recordBytes := st.recordBytes + 1,
                     quoted := true, wasQuoted := true, atFieldStart := false))
  {
  }

  lemma StepDelimiter(input: Bytes, delimiter: Byte, limits: Limits, offset: nat, start: nat, record: seq<Token>,
                      t: Token)
    requires IsDelimiter(delimiter) && start <= offset && Valid(t.value) && |record| < limits.maxColumns
    requires var end := offset + |PrintToken(t)|;
             end < |input| && input[end] == delimiter &&
             end < start + limits.maxRecordBytes && end < limits.maxInputBytes
    ensures Step(input, delimiter, limits, FieldEnd(offset, start, record, t)) ==
            More(FieldStart(offset + |PrintToken(t)| + 1, start, record + [t]))
  {
    hide Valid, PrintToken;
    assert t == Token(t.value, t.quoted);
  }

  lemma StepEnd(input: Bytes, delimiter: Byte, limits: Limits, offset: nat, start: nat, record: seq<Token>, t: Token,
                next: nat)
    requires IsDelimiter(delimiter) && start <= offset && Valid(t.value) && |record| < limits.maxColumns
    requires var end := offset + |PrintToken(t)|;
             end <= |input| && Ends(input, end, next) && next > start &&
             next <= start + limits.maxRecordBytes && next <= limits.maxInputBytes
    requires record == [] ==> start == offset
    ensures offset + |PrintToken(t)| <= |input| &&
            Step(input, delimiter, limits, FieldEnd(offset, start, record, t)) == Done(record + [t], next)
  {
    hide Valid, Escape;
    assert t == Token(t.value, t.quoted);
  }

  lemma PlainFieldEnd(offset: nat, start: nat, record: seq<Token>, t: Token)
    requires start <= offset && !t.quoted
    ensures var st := FieldStart(offset, start, record);
            FieldEnd(offset, start, record, t) ==
            st.(offset := st.offset + |t.value|, recordBytes := st.recordBytes + |t.value|,
                field := st.field + t.value, atFieldStart := st.atFieldStart && t.value == [])
  {
    assert [] + t.value == t.value;
  }

  lemma ScanPlainToken(input: Bytes, delimiter: Byte, limits: Limits, offset: nat, start: nat, record: seq<Token>,
                       t: Token)
    requires start <= offset && !t.quoted && Plain(t.value, delimiter)
    requires var end := offset + |t.value|;
             end <= |input| && input[offset..end] == t.value &&
             end <= start + limits.maxRecordBytes && end <= limits.maxInputBytes
    ensures Scan(input, delimiter, limits, FieldStart(offset, start, record)) ==
            Scan(input, delimiter, limits, FieldEnd(offset, start, record, t))
  {
    hide Step, Scan, Valid, EndsNothing, FieldEnd, PrintToken;
    var st, s := FieldStart(offset, start, record), t.value;
    PlainFieldEnd(offset, start, record, t);
    assert input[st.offset..st.offset + |s|] == s;
    ScanPlain(input, delimiter, limits, st, s);
  }

  lemma ScanQuotedToken(input: Bytes, delimiter: Byte, limits: Limits, offset: nat, start: nat, record: seq<Token>,
                        t: Token)
    requires start <= offset && t.quoted
    requires var end := offset + |PrintToken(t)|;
             end <= |input| && input[offset..end] == PrintToken(t) && !Follows(input, end, QUOTE) &&
             end <= start + limits.maxRecordBytes && end <= limits.maxInputBytes
    ensures offset + |PrintToken(t)| <= |input| &&
            Scan(input, delimiter, limits, FieldStart(offset, start, record)) ==
            Scan(input, delimiter, limits, FieldEnd(offset, start, record, t))
  {
    hide Step, Scan, Valid, Escape;
    var st, e, n := FieldStart(offset, start, record), Escape(t.value), |PrintToken(t)|;
    assert PrintToken(t) == [QUOTE] + e + [QUOTE] && PrintToken(t)[1 + |e|] == QUOTE;
    assert input[offset] == input[offset..offset + n][0] == QUOTE;
    assert input[offset + 1 + |e|] == input[offset..offset + n][1 + |e|] == QUOTE;
    assert input[offset + 1..offset + 1 + |e|] == input[offset..offset + n][1..1 + |e|] == e;
    var st' := st.(offset := offset + 1, recordBytes := offset + 1 - start, quoted := true, wasQuoted := true,
                   atFieldStart := false);
    StepOpen(input, delimiter, limits, st);
    ScanMore(input, delimiter, limits, st, st');
    ScanQuoted(input, delimiter, limits, st', t.value);
    assert [] + t.value == t.value;
  }

  lemma ScanToken(input: Bytes, delimiter: Byte, limits: Limits, offset: nat, start: nat, record: seq<Token>, t: Token)
    requires IsDelimiter(delimiter) && start <= offset && Printable(t, delimiter)
    requires var end := offset + |PrintToken(t)|;
             end <= |input| && input[offset..end] == PrintToken(t) && !Follows(input, end, QUOTE) &&
             end <= start + limits.maxRecordBytes && end <= limits.maxInputBytes
    ensures offset + |PrintToken(t)| <= |input| &&
            Scan(input, delimiter, limits, FieldStart(offset, start, record)) ==
            Scan(input, delimiter, limits, FieldEnd(offset, start, record, t))
  {
    hide Step, Scan, Valid;
    if t.quoted {
      ScanQuotedToken(input, delimiter, limits, offset, start, record, t);
    } else {
      ScanPlainToken(input, delimiter, limits, offset, start, record, t);
    }
  }

  /** The whole of a record that stands in the input is scanned back, and nothing after it is read. */
  lemma {:induction false} ScanRecord(
    input: Bytes, delimiter: Byte, limits: Limits, offset: nat, start: nat, record: seq<Token>, tokens: seq<Token>,
    next: nat)
    requires IsDelimiter(delimiter) && start <= offset <= |input|
    requires tokens != [] && (forall t | t in tokens :: Printable(t, delimiter))
    requires var end := offset + |PrintRecord(tokens, delimiter)|;
             end <= |input| && input[offset..end] == PrintRecord(tokens, delimiter) && Ends(input, end, next) &&
             next > start
    requires record == [] ==> start == offset
    requires |record| + |tokens| <= limits.maxColumns && next <= start + limits.maxRecordBytes &&
             next <= limits.maxInputBytes
    ensures Scan(input, delimiter, limits, FieldStart(offset, start, record)) == Some((record + tokens, next))
    decreases |tokens|
  {
    hide Step, Scan, Valid, PrintToken;
    var t, n := tokens[0], |PrintToken(tokens[0])|;
    var end := offset + |PrintRecord(tokens, delimiter)|;
    assert t in tokens;
    assert input[offset..offset + n] == input[offset..end][..n] == PrintToken(t);
    var st := FieldEnd(offset, start, record, t);
    if |tokens| == 1 {
      ScanToken(input, delimiter, limits, offset, start, record, t);
      assert record + [t] == record + tokens;
      StepEnd(input, delimiter, limits, offset, start, record, t, next);
      ScanDone(input, delimiter, limits, st);
    } else {
      assert input[offset + n] == input[offset..end][n] == delimiter;
      ScanToken(input, delimiter, limits, offset, start, record, t);
      StepDelimiter(input, delimiter, limits, offset, start, record, t);
      ScanMore(input, delimiter, limits, st, FieldStart(offset + n + 1, start, record + [t]));
      assert input[offset + n + 1..end] == input[offset..end][n + 1..] == PrintRecord(tokens[1..], delimiter);
      ScanRecord(input, delimiter, limits, offset + n + 1, start, record + [t], tokens[1..], next);
      assert record + [t] + tokens[1..] == record + tokens;
    }
  }

  // ---------- everything scanned stands in the input ----------

  /** The fields already ended, each with its delimiter. */
  function Joined(record: seq<Token>, delimiter: Byte): (r: Bytes)
  {
    if record == [] then [] else PrintToken(record[0]) + [delimiter] + Joined(record[1..], delimiter)
  }

  /** The field being read, as it stands so far. */
  function Open(st: State): (r: Bytes)
  {
    if !st.wasQuoted then st.field
    else [QUOTE] + Escape(st.field) + if st.closedQuote then [QUOTE] else []
  }

  ghost predicate Coherent(input: Bytes, delimiter: Byte, limits: Limits, start: nat, st: State)
  {
    start <= st.offset <= |input| && st.recordBytes == st.offset - start &&
    st.recordBytes <= limits.maxRecordBytes && (st.offset > start ==> st.offset <= limits.maxInputBytes) &&
    (forall t | t in st.record :: Printable(t, delimiter)) &&
    (if st.wasQuoted then st.quoted != st.closedQuote && !st.atFieldStart
     else !st.quoted && !st.closedQuote && Plain(st.field, delimiter) && (st.atFieldStart <==> st.field == [])) &&
    input[start..st.offset] == Joined(st.record, delimiter) + Open(st)
  }

  lemma {:induction false} EscapeSnoc(s: Bytes, b: Byte)
    ensures Escape(s + [b]) == Escape(s) + if b == QUOTE then [QUOTE, QUOTE] else [b]
  {
    if s == [] {
      assert s + [b] == [b];
    } else {
      assert (s + [b])[1..] == s[1..] + [b];
      EscapeSnoc(s[1..], b);
    }
  }

  lemma {:induction false} JoinedSnoc(record: seq<Token>, t: Token, delimiter: Byte)
    ensures Joined(record + [t], delimiter) == Joined(record, delimiter) + PrintToken(t) + [delimiter]
    ensures PrintRecord(record + [t], delimiter) == Joined(record, delimiter) + PrintToken(t)
  {
    hide PrintToken;
    if record == [] {
      assert record + [t] == [t];
    } else {
      assert (record + [t])[1..] == record[1..] + [t];
      JoinedSnoc(record[1..], t, delimiter);
      var head := PrintToken(record[0]) + [delimiter];
      assert head + (Joined(record[1..], delimiter) + PrintToken(t)) ==
             head + Joined(record[1..], delimiter) + PrintToken(t);
    }
  }

  /** One byte more of the input. */
  lemma Extend(input: Bytes, start: nat, offset: nat, n: nat)
    requires start <= offset && offset + n <= |input|
    ensures input[start..offset + n] == input[start..offset] + input[offset..offset + n]
  {
  }

  lemma EmptyEscape()
    ensures Escape([]) == []
  {
  }

  /** Inside a field, the byte or bytes consumed are what the printed field grows by. */
  lemma OpenGrows(input: Bytes, delimiter: Byte, limits: Limits, st: State)
    requires st.offset < |input| && Step(input, delimiter, limits, st).More? && IsDelimiter(delimiter)
    requires if st.wasQuoted then st.quoted != st.closedQuote && !st.atFieldStart
             else !st.quoted && !st.closedQuote && (st.atFieldStart <==> st.field == [])
    requires st.quoted || input[st.offset] != delimiter
    ensures var st' := Step(input, delimiter, limits, st).state;
            st'.offset <= |input| && Open(st') == Open(st) + input[st.offset..st'.offset]
  {
    hide Valid, Escape;
    EscapeSnoc(st.field, input[st.offset]);
    EmptyEscape();
    var st' := Step(input, delimiter, limits, st).state;
    var read := input[st.offset..st'.offset];
    if st.quoted {
      assert st'.closedQuote || [QUOTE] + Escape(st'.field) == [QUOTE] + Escape(st.field) + read;
    }
  }

  /** A byte inside a field. */
  lemma StepInside(input: Bytes, delimiter: Byte, limits: Limits, start: nat, st: State)
    requires IsDelimiter(delimiter) && Coherent(input, delimiter, limits, start, st)
    requires Step(input, delimiter, limits, st).More? && (st.quoted || !Follows(input, st.offset, delimiter))
    ensures Coherent(input, delimiter, limits, start, Step(input, delimiter, limits, st).state)
  {
    hide Valid, Escape, PrintToken, Joined, Open, Printable;
    var st' := Step(input, delimiter, limits, st).state;
    Extend(input, start, st.offset, st'.offset - st.offset);
    OpenGrows(input, delimiter, limits, st);
    assert Joined(st.record, delimiter) + (Open(st) + input[st.offset..st'.offset])
        == Joined(st.record, delimiter) + Open(st) + input[st.offset..st'.offset];
  }

  lemma OpenIsToken(st: State)
    requires !st.quoted && (st.wasQuoted ==> st.closedQuote)
    ensures Open(st) == PrintToken(Token(st.field, st.wasQuoted))
  {
  }

  /** A delimiter. */
  lemma StepAcross(input: Bytes, delimiter: Byte, limits: Limits, start: nat, st: State)
    requires IsDelimiter(delimiter) && Coherent(input, delimiter, limits, start, st)
    requires Step(input, delimiter, limits, st).More? && !st.quoted && Follows(input, st.offset, delimiter)
    ensures Coherent(input, delimiter, limits, start, Step(input, delimiter, limits, st).state)
  {
    hide Valid, Escape, PrintToken, Joined;
    var st' := Step(input, delimiter, limits, st).state;
    var t := Token(st.field, st.wasQuoted);
    Extend(input, start, st.offset, 1);
    OpenIsToken(st);
    JoinedSnoc(st.record, t, delimiter);
    assert st'.record == st.record + [t] && Open(st') == [];
  }

  lemma StepKeepsCoherent(input: Bytes, delimiter: Byte, limits: Limits, start: nat, st: State)
    requires IsDelimiter(delimiter) && Coherent(input, delimiter, limits, start, st)
    requires Step(input, delimiter, limits, st).More?
    ensures Coherent(input, delimiter, limits, start, Step(input, delimiter, limits, st).state)
  {
    hide Step, Coherent;
    if st.quoted || !Follows(input, st.offset, delimiter) {
      StepInside(input, delimiter, limits, start, st);
    } else {
      StepAcross(input, delimiter, limits, start, st);
    }
  }

  lemma JoinedNotEmpty(record: seq<Token>, delimiter: Byte)
    requires record != []
    ensures Joined(record, delimiter) != []
  {
  }

  lemma StepDoneStands(input: Bytes, delimiter: Byte, limits: Limits, start: nat, st: State)
    requires IsDelimiter(delimiter) && Coherent(input, delimiter, limits, start, st)
    requires Step(input, delimiter, limits, st).Done?
    ensures var done := Step(input, delimiter, limits, st);
            Stands(input, start, delimiter, done.record, done.next) && Within(limits, done.record, start, done.next)
  {
    hide Valid, Escape, PrintToken, PrintRecord, Joined;
    var t := Token(st.field, st.wasQuoted);
    OpenIsToken(st);
    JoinedSnoc(st.record, t, delimiter);
    assert Step(input, delimiter, limits, st).record == st.record + [t];
    var whole := PrintRecord(st.record + [t], delimiter);
    assert whole == input[start..st.offset];
    if st.offset == start {
      assert st.record == [] by { if st.record != [] { JoinedNotEmpty(st.record, delimiter); } }
    }
  }

  lemma {:induction false} ScannedStands(input: Bytes, delimiter: Byte, limits: Limits, start: nat, st: State)
    requires IsDelimiter(delimiter) && Coherent(input, delimiter, limits, start, st)
    requires Scan(input, delimiter, limits, st).Some?
    ensures var (tokens, next) := Scan(input, delimiter, limits, st).value;
            Stands(input, start, delimiter, tokens, next) && Within(limits, tokens, start, next)
    decreases |input| - st.offset
  {
    hide Step, Stands, Within;
    match Step(input, delimiter, limits, st)
    case Refused =>
    case Done(record, next) =>
      StepDoneStands(input, delimiter, limits, start, st);
    case More(st') =>
      StepAdvances(input, delimiter, limits, st);
      StepKeepsCoherent(input, delimiter, limits, start, st);
      ScannedStands(input, delimiter, limits, start, st');
  }

  // ---------- the code ----------

  /** One turn of the loop, and the scan from there. */
  lemma ScanOn(input: Bytes, delimiter: Byte, limits: Limits, st: State)
    requires st.offset <= |input|
    ensures var outcome, r := Step(input, delimiter, limits, st), Scan(input, delimiter, limits, st);
            && (outcome.Refused? ==> r == None)
            && (outcome.Done? ==> r == Some((outcome.record, outcome.next)))
            && (outcome.More? ==>
                  st.offset < outcome.state.offset <= |input| && r == Scan(input, delimiter, limits, outcome.state))
  {
    hide Step;
    if Step(input, delimiter, limits, st).More? { StepAdvances(input, delimiter, limits, st); }
  }

  /** Scanning inverts printing, in both directions. */
  lemma ScanExact(input: Bytes, delimiter: Byte, limits: Limits, offset: nat)
    requires IsDelimiter(delimiter) && offset <= |input|
    ensures var r := Scan(input, delimiter, limits, Start(offset));
            (r.Some? ==>
               offset < r.value.1 <= |input| &&
               Stands(input, offset, delimiter, r.value.0, r.value.1) &&
               Within(limits, r.value.0, offset, r.value.1)) &&
            forall tokens, next: nat |
              Stands(input, offset, delimiter, tokens, next) && Within(limits, tokens, offset, next) ::
              r == Some((tokens, next))
  {
    var st := Start(offset);
    assert Coherent(input, delimiter, limits, offset, st);
    if Scan(input, delimiter, limits, st).Some? {
      ScannedStands(input, delimiter, limits, offset, st);
    }
    forall tokens, next: nat | Stands(input, offset, delimiter, tokens, next) && Within(limits, tokens, offset, next)
      ensures Scan(input, delimiter, limits, st) == Some((tokens, next))
    {
      assert FieldStart(offset, offset, []) == st;
      ScanRecord(input, delimiter, limits, offset, offset, [], tokens, next);
      assert [] + tokens == tokens;
    }
  }

  /**
   The scanner accepts exactly the records that stand in the input within the limits, with
   the fields and quoted flags they were printed from, and stops at the end of the record.
   */
  method RawCsvRecord(input: Bytes, offset: nat, delimiter: Byte, limits: Limits) returns (r: Option<(seq<Token>, nat)>)
    requires IsDelimiter(delimiter) && offset <= |input|
    ensures r == Scan(input, delimiter, limits, Start(offset))
    ensures r.Some? ==> offset < r.value.1 <= |input|
    ensures r.Some? ==>
              Stands(input, offset, delimiter, r.value.0, r.value.1) && Within(limits, r.value.0, offset, r.value.1)
    ensures forall tokens, next: nat |
              Stands(input, offset, delimiter, tokens, next) && Within(limits, tokens, offset, next) ::
              r == Some((tokens, next))
  {
    hide Scan, Stands, Within, PushField;
    ScanExact(input, delimiter, limits, offset);
    var at, recordBytes: nat := offset, 0;
    var record: seq<Token>, field: Bytes := [], [];
    var quoted, wasQuoted, closedQuote, atFieldStart := false, false, false, true;
    while true
      invariant offset <= at <= |input|
      invariant Scan(input, delimiter, limits,
                     State(at, recordBytes, record, field, quoted, wasQuoted, closedQuote, atFieldStart)) ==
                Scan(input, delimiter, limits, Start(offset))
      decreases |input| - at
    {
      ghost var st := State(at, recordBytes, record, field, quoted, wasQuoted, closedQuote, atFieldStart);
      ScanOn(input, delimiter, limits, st);
      if at == |input| {
        if quoted {
          return None;
        }
        if field == [] && record == [] && !wasQuoted && !closedQuote {
          return None;
        }
        var pushed := PushField(record, field, wasQuoted, limits);
        return if pushed.None? then None else Some((pushed.value, at));
      }
      var byte := input[at];
      at, recordBytes := at + 1, recordBytes + 1;
      if recordBytes > limits.maxRecordBytes || at > limits.maxInputBytes {
        return None;
      }
      if quoted {
        if byte == QUOTE && at < |input| && input[at] == QUOTE {
          at, recordBytes := at + 1, recordBytes + 1;
          if recordBytes > limits.maxRecordBytes || at > limits.maxInputBytes {
            return None;
          }
          field := field + [QUOTE];
        } else if byte == QUOTE {
          quoted, closedQuote := false, true;
        } else {
          field := field + [byte];
        }
        continue;
      }
      if closedQuote && byte != delimiter && byte != LF && byte != CR {
        return None;
      }
      if byte == QUOTE && atFieldStart {
        quoted, wasQuoted, atFieldStart := true, true, false;
      } else if byte == delimiter {
        var pushed := PushField(record, field, wasQuoted, limits);
        if pushed.None? {
          return None;
        }
        record, field, wasQuoted, closedQuote, atFieldStart := pushed.value, [], false, false, true;
      } else if byte == LF || byte == CR {
        if byte == CR && at < |input| && input[at] == LF {
          at, recordBytes := at + 1, recordBytes + 1;
          if recordBytes > limits.maxRecordBytes || at > limits.maxInputBytes {
            return None;
          }
        }
        var pushed := PushField(record, field, wasQuoted, limits);
        return if pushed.None? then None else Some((pushed.value, at));
      } else {
        field, atFieldStart := field + [byte], false;
      }
    }
  }
}
