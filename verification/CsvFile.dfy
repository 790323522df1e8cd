/**
 Whole CSV files: the independent inventory with the delimiter it chooses for itself, the
 tables it gives back when they are printed, and the greedy header match.
 */
module CsvFile {
  import opened Prelude
  import opened Utf8
  import opened CsvRecord

  // ---------- the delimiter ----------

  const TAB: Byte := 9
  const COMMA: Byte := 44

  const COLUMN_NAMES := {
    "timeStamp", "elapsed", "label", "responseCode", "responseMessage", "threadName", "dataType", "success",
    "failureMessage", "bytes", "sentBytes", "grpThreads", "allThreads", "URL", "Filename", "Latency", "Encoding",
    "SampleCount", "ErrorCount", "Hostname", "IdleTime", "Connect"}

  predicate NamesColumn(s: Bytes)
  {
    seq(|s|, i requires 0 <= i < |s| => s[i] as char) in COLUMN_NAMES
  }

  /** The bytes before the first line break. */
  function FirstLine(input: Bytes): (r: Bytes)
  {
    if input == [] || input[0] == LF || input[0] == CR then [] else [input[0]] + FirstLine(input[1..])
  }

  function Split(line: Bytes, at: Byte): (r: seq<Bytes>)
    ensures r != []
  {
    if line == [] then [[]]
    else
      var rest := Split(line[1..], at);
      if line[0] == at then [[]] + rest else [[line[0]] + rest[0]] + rest[1..]
  }

  /** Without one quote in front and one at the end. */
  function Stripped(s: Bytes): (r: Bytes)
  {
    var s := if s != [] && s[0] == QUOTE then s[1..] else s;
    if s != [] && s[|s| - 1] == QUOTE then s[..|s| - 1] else s
  }

  /** A tab, if the first line has tabs, no comma, and a known column between its tabs; or a comma. */
  function ChosenDelimiter(input: Bytes): (r: Byte)
    ensures IsDelimiter(r)
  {
    var line := FirstLine(input);
    if TAB in line && COMMA !in line && exists field | field in Split(line, TAB) :: NamesColumn(Stripped(field))
    then TAB else COMMA
  }

  lemma {:induction false} FirstLineStops(line: Bytes, rest: Bytes)
    requires LF !in line && CR !in line && rest != [] && (rest[0] == LF || rest[0] == CR)
    ensures FirstLine(line + rest) == line
  {
    if line == [] {
      assert line + rest == rest;
    } else {
      assert (line + rest)[1..] == line[1..] + rest;
      FirstLineStops(line[1..], rest);
    }
  }

  lemma {:induction false} FirstLineReaches(input: Bytes, n: nat)
    requires n < |input| && LF !in input[..n + 1] && CR !in input[..n + 1]
    ensures input[n] in FirstLine(input)
  {
    assert input[..n + 1][0] == input[0];
    if n > 0 {
      assert input[1..][..n] == input[..n + 1][1..];
      FirstLineReaches(input[1..], n - 1);
    }
  }

  lemma {:induction false} SplitField(field: Bytes, rest: Bytes, at: Byte)
    requires at !in field
    ensures Split(field, at) == [field]
    ensures Split(field + [at] + rest, at) == [field] + Split(rest, at)
  {
    if field == [] {
      assert field + [at] + rest == [at] + rest;
    } else {
      SplitField(field[1..], rest, at);
      assert [field[0]] + field[1..] == field;
      assert (field + [at] + rest)[1..] == field[1..] + [at] + rest;
    }
  }

  // ---------- the inventory ----------

  datatype Inventory = Inventory(header: seq<Token>, rows: seq<seq<Token>>)

  const BOM: Bytes := [0xEF, 0xBB, 0xBF]

  function Records(input: Bytes, offset: nat, delimiter: Byte, limits: Limits): (r: Option<seq<seq<Token>>>)
    requires IsDelimiter(delimiter) && offset <= |input|
    decreases |input| - offset
  {
    if offset == |input| then Some([])
    else
      ScanExact(input, delimiter, limits, offset);
      match Scan(input, delimiter, limits, Start(offset))
      case None => None
      case Some((record, next)) =>
        match Records(input, next, delimiter, limits)
        case None => None
        case Some(rest) => Some([record] + rest)
  }

  /** The header and the rows of a file, if every record has as many fields as the header. */
  function InventoryOf(records: seq<seq<Token>>, limits: Limits): (r: Option<Inventory>)
  {
    if records == [] || records[0] == [] || |records[0]| > limits.maxColumns then None
    else if exists row | row in records[1..] :: |row| != |records[0]| then None
    else Some(Inventory(records[0], records[1..]))
  }

  /** The inventory of a file, after an optional byte-order mark, with the delimiter of what follows it. */
  function Inventoried(input: Bytes, limits: Limits): (r: Option<Inventory>)
  {
    if |input| > limits.maxInputBytes then None
    else
      var start := if BOM <= input then 3 else 0;
      match Records(input, start, ChosenDelimiter(input[start..]), limits)
      case None => None
      case Some(records) => InventoryOf(records, limits)
  }

  method RawCsvInventory(input: Bytes, limits: Limits) returns (r: Option<Inventory>)
    ensures r == Inventoried(input, limits)
  {
    hide Scan, Stands, Within, InventoryOf, ChosenDelimiter;
    if |input| > limits.maxInputBytes {
      return None;
    }
    var start := if BOM <= input then 3 else 0;
    var delimiter := ChosenDelimiter(input[start..]);
    var offset := start;
    var records: seq<seq<Token>> := [];
    assert Records(input, start, delimiter, limits).Some? ==>
        [] + Records(input, start, delimiter, limits).value == Records(input, start, delimiter, limits).value;
    while offset < |input|
      invariant start <= offset <= |input|
      invariant Records(input, start, delimiter, limits) ==
                match Records(input, offset, delimiter, limits)
                case None => None
                case Some(rest) => Some(records + rest)
    {
      var scanned := RawCsvRecord(input, offset, delimiter, limits);
      if scanned.None? {
        return None;
      }
      var (record, next) := scanned.value;
      var rest := Records(input, next, delimiter, limits);
      assert rest.Some? ==> records + ([record] + rest.value) == records + [record] + rest.value;
      records := records + [record];
      offset := next;
    }
    assert records + [] == records;
    return InventoryOf(records, limits);
  }

  // ---------- printed tables ----------

  function Ending(crlf: bool): (r: Bytes)
  {
    if crlf then [CR, LF] else [LF]
  }

  /** A file: every record with its own LF or CRLF. */
  function PrintFile(records: seq<seq<Token>>, crlf: seq<bool>, delimiter: Byte): (r: Bytes)
    requires |crlf| == |records| && forall i | 0 <= i < |records| :: |records[i]| > 0
  {
    if records == [] then []
    else
      PrintRecord(records[0], delimiter) + Ending(crlf[0]) + PrintFile(records[1..], crlf[1..], delimiter)
  }

  /** A record that fits its limits together with its line ending. */
  predicate PrintableRecord(record: seq<Token>, crlf: bool, delimiter: Byte, limits: Limits)
  {
    0 < |record| <= limits.maxColumns && (forall t | t in record :: Printable(t, delimiter)) &&
    |PrintRecord(record, delimiter)| + |Ending(crlf)| <= limits.maxRecordBytes
  }

  ghost predicate PrintableRecords(records: seq<seq<Token>>, crlf: seq<bool>, delimiter: Byte, limits: Limits)
  {
    |crlf| == |records| && forall i | 0 <= i < |records| :: PrintableRecord(records[i], crlf[i], delimiter, limits)
  }

  /** The first record of a printed file stands where the file does, and the others after it. */
  lemma FirstStands(
    input: Bytes, offset: nat, records: seq<seq<Token>>, crlf: seq<bool>, delimiter: Byte, limits: Limits, next: nat)
    requires IsDelimiter(delimiter) && offset <= |input| <= limits.maxInputBytes
    requires PrintableRecords(records, crlf, delimiter, limits) && records != []
    requires input[offset..] == PrintFile(records, crlf, delimiter)
    requires next == offset + |PrintRecord(records[0], delimiter)| + |Ending(crlf[0])|
    ensures next <= |input| && input[next..] == PrintFile(records[1..], crlf[1..], delimiter)
    ensures Stands(input, offset, delimiter, records[0], next) && Within(limits, records[0], offset, next)
  {
    hide Printable, PrintRecord;
    var record, ending, file := records[0], Ending(crlf[0]), input[offset..];
    var end := next - |ending|;
    assert PrintableRecord(record, crlf[0], delimiter, limits);
    assert input[offset..end] == file[..end - offset] == PrintRecord(record, delimiter);
    assert input[end..next] == file[end - offset..next - offset] == ending;
    assert input[end] == input[end..next][0];
    if crlf[0] { assert input[end + 1] == input[end..next][1]; }
    assert input[next..] == file[next - offset..];
  }

  lemma {:induction false} FileScansBack(
    input: Bytes, offset: nat, records: seq<seq<Token>>, crlf: seq<bool>, delimiter: Byte, limits: Limits)
    requires IsDelimiter(delimiter) && offset <= |input| <= limits.maxInputBytes
    requires PrintableRecords(records, crlf, delimiter, limits)
    requires input[offset..] == PrintFile(records, crlf, delimiter)
    ensures Records(input, offset, delimiter, limits) == Some(records)
    decreases |records|
  {
    hide Scan, Printable, PrintRecord, Stands, Within, Ending;
    if records != [] {
      var next := offset + |PrintRecord(records[0], delimiter)| + |Ending(crlf[0])|;
      FirstStands(input, offset, records, crlf, delimiter, limits, next);
      ScanExact(input, delimiter, limits, offset);
      FileScansBack(input, next, records[1..], crlf[1..], delimiter, limits);
      assert [records[0]] + records[1..] == records;
    }
  }

  /** With another delimiter a record has the same length, and the same bytes outside that delimiter. */
  lemma {:induction false} PrintsAlike(tokens: seq<Token>, c: Byte, d: Byte)
    requires tokens != []
    ensures |PrintRecord(tokens, c)| == |PrintRecord(tokens, d)|
    ensures forall i | 0 <= i < |PrintRecord(tokens, c)| ::
              PrintRecord(tokens, c)[i] == PrintRecord(tokens, d)[i] || PrintRecord(tokens, c)[i] == c
    ensures |tokens| > 1 && c != d ==> PrintRecord(tokens, c) != PrintRecord(tokens, d)
  {
    hide PrintToken;
    if |tokens| > 1 {
      PrintsAlike(tokens[1..], c, d);
      var n := |PrintToken(tokens[0])|;
      assert PrintRecord(tokens, c)[n] == c && PrintRecord(tokens, d)[n] == d;
    }
  }

  lemma {:induction false} OneColumnAlike(records: seq<seq<Token>>, crlf: seq<bool>, c: Byte, d: Byte)
    requires |crlf| == |records| && forall i | 0 <= i < |records| :: |records[i]| == 1
    ensures PrintFile(records, crlf, c) == PrintFile(records, crlf, d)
  {
    if records != [] { OneColumnAlike(records[1..], crlf[1..], c, d); }
  }

  /** What a record says about the first bytes it was read from, whatever the delimiter. */
  lemma FirstRead(input: Bytes, offset: nat, c: Byte, limits: Limits, records: seq<seq<Token>>)
    requires IsDelimiter(c) && offset < |input| && Records(input, offset, c, limits) == Some(records)
    ensures records != [] && records[0] != [] && forall t | t in records[0] :: Printable(t, c)
    ensures var end := offset + |PrintRecord(records[0], c)|;
            end <= |input| && input[offset..end] == PrintRecord(records[0], c)
    ensures exists next: nat ::
              offset < next <= |input| && Records(input, next, c, limits) == Some(records[1..])
  {
    hide Scan, Printable, PrintRecord, Within;
    ScanExact(input, c, limits, offset);
    var next := Scan(input, c, limits, Start(offset)).value.1;
    assert Stands(input, offset, c, records[0], next);
    assert Records(input, next, c, limits) == Some(records[1..]);
  }

  lemma {:induction false} ReadIsPrintable(
    input: Bytes, offset: nat, c: Byte, limits: Limits, records: seq<seq<Token>>, i: nat)
    requires IsDelimiter(c) && offset <= |input| && Records(input, offset, c, limits) == Some(records) && i < |records|
    ensures forall t | t in records[i] :: Printable(t, c)
    decreases i
  {
    hide Scan, Printable, PrintRecord, Stands, Within;
    FirstRead(input, offset, c, limits, records);
    if i > 0 {
      var next: nat :| offset < next <= |input| && Records(input, next, c, limits) == Some(records[1..]);
      ReadIsPrintable(input, next, c, limits, records[1..], i - 1);
    }
  }

  /**
   A byte three places after another is equal to it or the delimiter: a line break then
   reaches back to the first three bytes.
   */
  lemma {:induction false} BreakReachesBack(text: Bytes, c: Byte, n: nat)
    requires n < |text| && (text[n] == LF || text[n] == CR) && c != LF && c != CR
    requires forall i | 0 <= i < n - 2 :: text[i + 3] == text[i] || text[i + 3] == c
    ensures exists i :: 0 <= i < 3 && i < |text| && (text[i] == LF || text[i] == CR)
  {
    if n >= 3 {
      assert text[n - 3] == text[n];
      BreakReachesBack(text, c, n - 3);
    }
  }

  /** Read from its fourth byte, a file that begins like a mark never gives its own records. */
  lemma MarkSwallowed(records: seq<seq<Token>>, crlf: seq<bool>, delimiter: Byte, c: Byte, limits: Limits)
    requires IsDelimiter(delimiter) && PrintableRecords(records, crlf, delimiter, limits) && records != []
    requires IsDelimiter(c) && BOM <= PrintFile(records, crlf, delimiter)
    ensures Records(PrintFile(records, crlf, delimiter), 3, c, limits) != Some(records)
  {
    hide Scan, Printable, PrintRecord, Records;
    var text := PrintFile(records, crlf, delimiter);
    var first := PrintRecord(records[0], delimiter);
    var n := |first|;
    assert text[..n] == first && (text[n] == CR || text[n] == LF);
    if Records(text, 3, c, limits) == Some(records) {
      assert |text| > 3;
      FirstRead(text, 3, c, limits, records);
      PrintsAlike(records[0], c, delimiter);
      forall i | 0 <= i < n ensures text[i + 3] == text[i] || text[i + 3] == c {
        assert text[i + 3] == text[3..3 + n][i] == PrintRecord(records[0], c)[i];
        assert text[i] == text[..n][i];
      }
      BreakReachesBack(text, c, n);
    }
  }

  lemma SameInventory(records: seq<seq<Token>>, found: seq<seq<Token>>, limits: Limits)
    requires records != [] && InventoryOf(found, limits) == Some(Inventory(records[0], records[1..]))
    ensures found == records
  {
    assert records == [records[0]] + records[1..];
    assert found == [found[0]] + found[1..];
  }

  /** Where the text of a table stands, a delimiter reads the table back if and only if it can. */
  predicate Reads(records: seq<seq<Token>>, delimiter: Byte, c: Byte)
  {
    c == delimiter || forall i | 0 <= i < |records| :: |records[i]| == 1 && Printable(records[i][0], c)
  }

  /** A table that is given back was printed with that delimiter, or has nothing to delimit. */
  lemma ReadMeans(
    input: Bytes, offset: nat, records: seq<seq<Token>>, delimiter: Byte, c: Byte, limits: Limits)
    requires IsDelimiter(delimiter) && IsDelimiter(c) && records != [] && records[0] != [] && offset < |input|
    requires forall i | 0 <= i < |records| :: |records[i]| == |records[0]|
    requires PrintRecord(records[0], delimiter) <= input[offset..] && Records(input, offset, c, limits) == Some(records)
    ensures Reads(records, delimiter, c)
  {
    hide Scan, Printable, PrintRecord, Stands, Within, Records;
    if c != delimiter {
      FirstRead(input, offset, c, limits, records);
      PrintsAlike(records[0], c, delimiter);
      var n := |PrintRecord(records[0], delimiter)|;
      assert input[offset..offset + n] == input[offset..][..n] == PrintRecord(records[0], delimiter);
      forall i | 0 <= i < |records| ensures Printable(records[i][0], c) {
        ReadIsPrintable(input, offset, c, limits, records, i);
      }
    }
  }

  lemma OneColumnPrints(records: seq<seq<Token>>, crlf: seq<bool>, delimiter: Byte, c: Byte, limits: Limits)
    requires PrintableRecords(records, crlf, delimiter, limits)
    requires forall i | 0 <= i < |records| :: |records[i]| == 1 && Printable(records[i][0], c)
    ensures PrintableRecords(records, crlf, c, limits)
    ensures PrintFile(records, crlf, c) == PrintFile(records, crlf, delimiter)
  {
    hide Printable, PrintToken, PrintFile;
    OneColumnAlike(records, crlf, c, delimiter);
    forall i | 0 <= i < |records| ensures PrintableRecord(records[i], crlf[i], c, limits) {
      assert PrintableRecord(records[i], crlf[i], delimiter, limits);
    }
  }

  lemma ReadExactly(
    input: Bytes, offset: nat, records: seq<seq<Token>>, crlf: seq<bool>, delimiter: Byte, c: Byte, limits: Limits)
    requires IsDelimiter(delimiter) && IsDelimiter(c) && records != [] && offset <= |input| <= limits.maxInputBytes
    requires PrintableRecords(records, crlf, delimiter, limits)
    requires forall i | 0 <= i < |records| :: |records[i]| == |records[0]|
    requires input[offset..] == PrintFile(records, crlf, delimiter)
    ensures Records(input, offset, c, limits) == Some(records) <==> Reads(records, delimiter, c)
  {
    hide Scan, Printable, PrintRecord, Stands, Within, Records;
    assert PrintRecord(records[0], delimiter) <= PrintFile(records, crlf, delimiter);
    if c == delimiter {
      FileScansBack(input, offset, records, crlf, delimiter, limits);
    } else if Records(input, offset, c, limits) == Some(records) {
      ReadMeans(input, offset, records, delimiter, c, limits);
    } else if Reads(records, delimiter, c) {
      OneColumnPrints(records, crlf, delimiter, c, limits);
      FileScansBack(input, offset, records, crlf, c, limits);
    }
  }

  /**
   Printing a table and taking its inventory gives the table back, if and only if the file is
   marked or does not begin like a mark, and the delimiter chosen for it is the one it was
   printed with or has nothing to delimit: one column, without that delimiter in a plain field.
   */
  lemma FileRoundTrip(records: seq<seq<Token>>, crlf: seq<bool>, delimiter: Byte, limits: Limits, marked: bool)
    requires IsDelimiter(delimiter) && records != [] && PrintableRecords(records, crlf, delimiter, limits)
    requires forall i | 0 <= i < |records| :: |records[i]| == |records[0]|
    requires |PrintFile(records, crlf, delimiter)| + (if marked then 3 else 0) <= limits.maxInputBytes
    ensures var text := PrintFile(records, crlf, delimiter);
            var found := Inventoried((if marked then BOM else []) + text, limits);
            found == Some(Inventory(records[0], records[1..])) <==>
            (marked || !(BOM <= text)) && Reads(records, delimiter, ChosenDelimiter(text))
  {
    hide PrintRecord, Printable, Scan, PrintFile, Records, ChosenDelimiter, Reads;
    var text := PrintFile(records, crlf, delimiter);
    var file := (if marked then BOM else []) + text;
    var start := if BOM <= file then 3 else 0;
    var c := ChosenDelimiter(file[start..]);
    assert |records[0]| > 0 && |records[0]| <= limits.maxColumns by {
      assert PrintableRecord(records[0], crlf[0], delimiter, limits);
    }
    assert InventoryOf(records, limits) == Some(Inventory(records[0], records[1..]));
    if marked || !(BOM <= text) {
      if marked { assert file[..3] == BOM; } else { assert file == text; }
      assert file[start..] == text;
      ReadExactly(file, start, records, crlf, delimiter, c, limits);
    } else {
      assert file == text;
      MarkSwallowed(records, crlf, delimiter, c, limits);
    }
    var found := Records(file, start, c, limits);
    if found.Some? && InventoryOf(found.value, limits) == Some(Inventory(records[0], records[1..])) {
      SameInventory(records, found.value, limits);
    }
  }

  // ---------- which tables are given back ----------

  /** A header of plain fields between tabs, split at its tabs. */
  lemma {:induction false} HeaderSplits(header: seq<Token>)
    requires header != [] && forall t | t in header :: !t.quoted && TAB !in t.value
    ensures Split(PrintRecord(header, TAB), TAB) == seq(|header|, i requires 0 <= i < |header| => header[i].value)
  {
    hide Split;
    var first := header[0].value;
    if |header| == 1 {
      SplitField(first, [], TAB);
    } else {
      HeaderSplits(header[1..]);
      SplitField(first, PrintRecord(header[1..], TAB), TAB);
    }
  }

  lemma TwoColumns(header: seq<Token>, delimiter: Byte)
    requires |header| > 1
    ensures PrintRecord(header, delimiter) ==
            PrintToken(header[0]) + [delimiter] + PrintRecord(header[1..], delimiter)
  {
  }

  lemma {:induction false} HeaderHas(header: seq<Token>, delimiter: Byte, b: Byte)
    requires header != [] && b != delimiter && forall t | t in header :: b !in PrintToken(t)
    ensures b !in PrintRecord(header, delimiter)
  {
    hide PrintToken;
    if |header| > 1 { HeaderHas(header[1..], delimiter, b); }
  }

  /** A plain header without commas is the first line, and the tabs are in it. */
  lemma HeaderLine(header: seq<Token>, ending: Bytes)
    requires |header| > 1 && forall t | t in header :: Printable(t, TAB) && !t.quoted && COMMA !in t.value
    requires ending != [] && (ending[0] == LF || ending[0] == CR)
    ensures var line := PrintRecord(header, TAB);
            FirstLine(line + ending) == line && TAB in line && COMMA !in line
  {
    hide Valid, PrintRecord, FirstLine;
    HeaderHas(header, TAB, COMMA);
    HeaderHas(header, TAB, LF);
    HeaderHas(header, TAB, CR);
    FirstLineStops(PrintRecord(header, TAB), ending);
    assert PrintRecord(header, TAB)[|header[0].value|] == TAB by { TwoColumns(header, TAB); }
  }

  /** Among tabs a plain header without commas is read with a tab exactly when one of its fields names a column. */
  lemma TabIsChosen(header: seq<Token>, ending: Bytes)
    requires |header| > 1 && forall t | t in header :: Printable(t, TAB) && !t.quoted && COMMA !in t.value
    requires ending != [] && (ending[0] == LF || ending[0] == CR)
    ensures ChosenDelimiter(PrintRecord(header, TAB) + ending) == TAB <==>
            exists t | t in header :: NamesColumn(Stripped(t.value))
  {
    hide NamesColumn, Stripped, Valid, Split, PrintRecord, FirstLine;
    HeaderLine(header, ending);
    assert forall t | t in header :: TAB !in t.value;
    HeaderSplits(header);
    var fields := Split(PrintRecord(header, TAB), TAB);
    assert forall i | 0 <= i < |header| :: fields[i] == header[i].value;
  }

  /** A header of two columns or more is read with its comma if no line break is quoted in its first field. */
  lemma CommaIsChosen(header: seq<Token>, ending: Bytes)
    requires |header| > 1 && LF !in PrintToken(header[0]) && CR !in PrintToken(header[0])
    ensures ChosenDelimiter(PrintRecord(header, COMMA) + ending) == COMMA
  {
    hide NamesColumn, Stripped, Split, PrintToken;
    var text, n := PrintRecord(header, COMMA) + ending, |PrintToken(header[0])|;
    assert text[..n + 1] == PrintToken(header[0]) + [COMMA];
    FirstLineReaches(text, n);
  }

  lemma EncodedMark()
    ensures Valid(BOM)
  {
    assert Encode(0xFEFF) == BOM;
    assert EncodeAll([0xFEFF]) == BOM + EncodeAll([]) == BOM;
    DecodeInvertsEncode([0xFEFF]);
  }

  /** One unquoted field that is the mark's own bytes: printed and read back, it is gone. */
  lemma MarkIsLost(limits: Limits)
    requires limits.maxInputBytes >= 4 && limits.maxRecordBytes >= 4 && limits.maxColumns >= 1
    ensures var records := [[Token(BOM, false)]];
            && PrintableRecords(records, [false], COMMA, limits) && BOM <= PrintFile(records, [false], COMMA)
            && Inventoried(PrintFile(records, [false], COMMA), limits) != Some(Inventory(records[0], []))
  {
    var records := [[Token(BOM, false)]];
    EncodedMark();
    assert PrintRecord(records[0], COMMA) == BOM;
    assert PrintFile(records, [false], COMMA) == BOM + [LF] + PrintFile([], [], COMMA);
    FileRoundTrip(records, [false], COMMA, limits, false);
    assert [] + PrintFile(records, [false], COMMA) == PrintFile(records, [false], COMMA);
  }

  lemma {:induction false} Ascii(s: Bytes)
    requires forall i | 0 <= i < |s| :: s[i] < 0x80 && s[i] != QUOTE
    ensures Valid(s) && Escape(s) == s
  {
    if s != [] {
      Ascii(s[1..]);
      assert s == [s[0]] + s[1..];
    }
  }

  /** One record of two columns whose text chooses another delimiter is not given back. */
  lemma DelimiterIsLost(a: Token, b: Token, delimiter: Byte, limits: Limits, text: Bytes)
    requires IsDelimiter(delimiter) && Printable(a, delimiter) && Printable(b, delimiter)
    requires text == PrintToken(a) + [delimiter] + PrintToken(b) + [LF] && ChosenDelimiter(text) != delimiter
    requires limits.maxInputBytes >= |text| && limits.maxRecordBytes >= |text| && limits.maxColumns >= 2
    ensures PrintableRecords([[a, b]], [false], delimiter, limits) && PrintFile([[a, b]], [false], delimiter) == text
    ensures Inventoried(text, limits) != Some(Inventory([a, b], []))
  {
    hide Printable, PrintToken, ChosenDelimiter, Inventoried;
    var records := [[a, b]];
    assert PrintRecord([a, b][1..], delimiter) == PrintToken(b);
    assert PrintRecord([a, b], delimiter) == PrintToken(a) + [delimiter] + PrintToken(b);
    assert PrintFile(records, [false], delimiter) ==
           PrintRecord([a, b], delimiter) + [LF] + PrintFile([], [], delimiter);
    FileRoundTrip(records, [false], delimiter, limits, false);
    assert [] + text == text;
  }

  lemma ShortNamesNothing(s: Bytes)
    requires |s| < 3
    ensures !NamesColumn(Stripped(s))
  {
    assert forall name | name in COLUMN_NAMES :: |name| >= 3;
  }

  /** A header `x`, `y` between tabs names no column: it is read with a comma, as one field. */
  lemma TabIsLost(limits: Limits)
    requires limits.maxInputBytes >= 4 && limits.maxRecordBytes >= 4 && limits.maxColumns >= 2
    ensures var record := [Token([0x78], false), Token([0x79], false)];
            && PrintableRecords([record], [false], TAB, limits)
            && Inventoried(PrintFile([record], [false], TAB), limits) != Some(Inventory(record, []))
  {
    hide NamesColumn, Stripped, ChosenDelimiter, Inventoried, Valid;
    var x, y := Token([0x78], false), Token([0x79], false);
    Ascii(x.value);
    Ascii(y.value);
    ShortNamesNothing(x.value);
    ShortNamesNothing(y.value);
    TabIsChosen([x, y], [LF]);
    assert PrintRecord([x, y][1..], TAB) == y.value;
    assert PrintRecord([x, y], TAB) == x.value + [TAB] + y.value;
    DelimiterIsLost(x, y, TAB, limits, PrintRecord([x, y], TAB) + [LF]);
  }

  /** The line of a quoted `URL` and a tab: it chooses the tab. */
  lemma UrlChoosesTab(rest: Bytes)
    requires rest != [] && rest[0] == LF
    ensures ChosenDelimiter([QUOTE, 0x55, 0x52, 0x4C, TAB] + rest) == TAB
  {
    hide FirstLine, Split;
    var url: Bytes := [0x55, 0x52, 0x4C];
    var line: Bytes := [QUOTE, 0x55, 0x52, 0x4C, TAB];
    assert line[4] == TAB;
    FirstLineStops(line, rest);
    assert line == [QUOTE] + url + [TAB] + [];
    SplitField([QUOTE] + url, [], TAB);
    assert Split(line, TAB)[0] == [QUOTE] + url;
    assert Stripped([QUOTE] + url) == url;
    assert seq(|url|, i requires 0 <= i < |url| => url[i] as char) == "URL";
  }

  /**
   A first field `URL`, tab, line break, in quotes: the choice looks at the bytes before that
   line break only, and takes the tab of a field for a delimiter.
   */
  lemma CommaIsLost(limits: Limits)
    requires limits.maxInputBytes >= 9 && limits.maxRecordBytes >= 9 && limits.maxColumns >= 2
    ensures var record := [Token([0x55, 0x52, 0x4C, TAB, LF], true), Token([], false)];
            && PrintableRecords([record], [false], COMMA, limits)
            && Inventoried(PrintFile([record], [false], COMMA), limits) != Some(Inventory(record, []))
  {
    hide ChosenDelimiter, Inventoried, Valid, Escape;
    var a, b := Token([0x55, 0x52, 0x4C, TAB, LF], true), Token([], false);
    Ascii(a.value);
    Ascii(b.value);
    var text := PrintToken(a) + [COMMA] + PrintToken(b) + [LF];
    assert text == [QUOTE, 0x55, 0x52, 0x4C, TAB] + [LF, QUOTE, COMMA, LF];
    UrlChoosesTab([LF, QUOTE, COMMA, LF]);
    DelimiterIsLost(a, b, COMMA, limits, text);
  }

  // ---------- the header match ----------

  ghost predicate Embedding(source: seq<Bytes>, encoded: seq<Bytes>, positions: seq<nat>)
  {
    |positions| == |source| &&
    (forall i | 0 <= i < |source| :: positions[i] < |encoded| && encoded[positions[i]] == source[i]) &&
    forall i, j | 0 <= i < j < |source| :: positions[i] < positions[j]
  }

  /** The first `i` names are placed, and no placement of all of them places any earlier. */
  ghost predicate Earliest(source: seq<Bytes>, encoded: seq<Bytes>, positions: seq<nat>, i: nat)
  {
    i <= |source| && Embedding(source[..i], encoded, positions) &&
    forall p, k | Embedding(source, encoded, p) && 0 <= k < i :: positions[k] <= p[k]
  }

  /** The next name cannot be placed before its first occurrence after the last one placed. */
  lemma NextPosition(source: seq<Bytes>, encoded: seq<Bytes>, positions: seq<nat>, i: nat, at: nat, p: seq<nat>)
    requires i < |source| && Earliest(source, encoded, positions, i) && Embedding(source, encoded, p)
    requires forall k: nat | (i == 0 || positions[i - 1] < k) && k < at && k < |encoded| :: encoded[k] != source[i]
    ensures at <= p[i] < |encoded|
  {
    assert i > 0 ==> positions[i - 1] <= p[i - 1] < p[i];
  }

  lemma EarliestOn(source: seq<Bytes>, encoded: seq<Bytes>, positions: seq<nat>, i: nat, at: nat)
    requires i < |source| && Earliest(source, encoded, positions, i) && at <= |encoded|
    requires i > 0 ==> positions[i - 1] < at
    requires forall k: nat | (i == 0 || positions[i - 1] < k) && k < at && k < |encoded| :: encoded[k] != source[i]
    ensures at == |encoded| ==> forall p :: !Embedding(source, encoded, p)
    ensures at < |encoded| && encoded[at] == source[i] ==> Earliest(source, encoded, positions + [at], i + 1)
  {
    forall p | Embedding(source, encoded, p)
      ensures at <= p[i] < |encoded|
    {
      NextPosition(source, encoded, positions, i, at, p);
    }
    assert source[..i + 1] == source[..i] + [source[i]];
  }

  /**
   Greedy matching finds the source names in order among the encoded names exactly when
   they can be found in order at all, and then at the earliest positions.
   */
  method MatchHeaders(source: seq<Bytes>, encoded: seq<Bytes>) returns (r: Option<seq<nat>>)
    ensures r.Some? ==> Embedding(source, encoded, r.value)
    ensures r.Some? ==>
              forall p, i | Embedding(source, encoded, p) && 0 <= i < |source| :: r.value[i] <= p[i]
    ensures r.None? ==> forall p :: !Embedding(source, encoded, p)
  {
    var positions: seq<nat> := [];
    var searchFrom := 0;
    var i := 0;
    while i < |source|
      invariant 0 <= i <= |source| && 0 <= searchFrom <= |encoded|
      invariant Earliest(source, encoded, positions, i)
      invariant searchFrom == if i == 0 then 0 else positions[i - 1] + 1
    {
      hide Earliest, Embedding;
      var at := searchFrom;
      while at < |encoded| && encoded[at] != source[i]
        invariant searchFrom <= at <= |encoded|
        invariant forall k | searchFrom <= k < at :: encoded[k] != source[i]
      {
        at := at + 1;
      }
      EarliestOn(source, encoded, positions, i, at);
      if at == |encoded| {
        return None;
      }
      positions := positions + [at];
      searchFrom := at + 1;
      i := i + 1;
    }
    assert source[..|source|] == source;
    return Some(positions);
  }
}
