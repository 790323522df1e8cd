/**
 Format detection for report input: a bounded probe whose outcome must depend on the
 bytes of the stream and never on how the reader cuts them into pieces.
 */
module ReportInput {
  import opened Prelude
  import opened Utf8

  const MAX_REPORT_INPUT_PREFIX_BYTES := 64 * 1024
  const REPORT_INPUT_PROBE_BYTES := MAX_REPORT_INPUT_PREFIX_BYTES + 1
  const CHUNK_BYTES := 8 * 1024
  const UTF8_BOM: Bytes := [0xEF, 0xBB, 0xBF]

  datatype Format = Csv | Xml

  datatype InputError =
    | Ambiguous
    | PrefixLimit
    | FormatMismatch(configured: Format, observed: Format)
    | Io(kind: nat)

  predicate IsAsciiWhitespace(b: Byte)
  {
    b == 32 || 9 <= b <= 13
  }

  function FormatForByte(b: Byte): (f: Format)
  {
    if b == 60 then Xml else Csv
  }

  /** The first byte at or after `i` that is not white space. */
  function FirstFrom(s: Bytes, i: nat): (r: Option<nat>)
    requires i <= |s|
    ensures r.Some? ==> i <= r.value < |s| && !IsAsciiWhitespace(s[r.value])
    ensures forall j | i <= j < (if r.Some? then r.value else |s|) :: IsAsciiWhitespace(s[j])
    decreases |s| - i
  {
    if i == |s| then None else if IsAsciiWhitespace(s[i]) then FirstFrom(s, i + 1) else Some(i)
  }

  function MeaningfulOffset(prefix: Bytes, reachedEof: bool): (r: Option<nat>)
    ensures r.Some? ==> r.value < |prefix|
  {
    if |prefix| >= |UTF8_BOM| then FirstFrom(prefix, if UTF8_BOM <= prefix then |UTF8_BOM| else 0)
    else if !reachedEof && prefix <= UTF8_BOM then None
    else FirstFrom(prefix, 0)
  }

  // ---------- what the stream alone decides ----------

  /** The first byte that tells the formats apart. */
  function Marker(stream: Bytes): (r: Option<nat>)
  {
    FirstFrom(stream, if UTF8_BOM <= stream then |UTF8_BOM| else 0)
  }

  /** A stream that broke off inside a possible byte-order mark. */
  predicate BrokeInMark(stream: Bytes, failure: Option<nat>)
  {
    failure.Some? && |stream| < |UTF8_BOM| && stream <= UTF8_BOM
  }

  function Observed(stream: Bytes, failure: Option<nat>): (r: Result<Format, InputError>)
  {
    var marker := Marker(stream);
    if BrokeInMark(stream, failure) then Err(Io(failure.value))
    else if marker.Some? && marker.value < MAX_REPORT_INPUT_PREFIX_BYTES then Ok(FormatForByte(stream[marker.value]))
    else if |stream| >= REPORT_INPUT_PROBE_BYTES then Err(PrefixLimit)
    else if failure.Some? then Err(Io(failure.value))
    else Err(Ambiguous)
  }

  function Expected(stream: Bytes, failure: Option<nat>, configured: Option<Format>): (r: Result<Format, InputError>)
  {
    match Observed(stream, failure)
    case Err(e) => Err(e)
    case Ok(format) =>
      if configured.Some? && configured.value != format then Err(FormatMismatch(configured.value, format))
      else Ok(format)
  }

  lemma SameFirst(stream: Bytes, n: nat, i: nat)
    requires i <= n <= |stream|
    ensures FirstFrom(stream[..n], i).Some? ==> FirstFrom(stream, i) == FirstFrom(stream[..n], i)
    ensures FirstFrom(stream[..n], i).None? ==> FirstFrom(stream, i).None? || FirstFrom(stream, i).value >= n
  {
    assert forall j | 0 <= j < n :: stream[..n][j] == stream[j];
  }

  /** A decision on part of the stream is the decision on all of it. */
  lemma MarkerStable(stream: Bytes, n: nat)
    requires n <= |stream| && MeaningfulOffset(stream[..n], false).Some?
    ensures Marker(stream) == MeaningfulOffset(stream[..n], false)
    ensures !(|stream| < |UTF8_BOM| && stream <= UTF8_BOM)
  {
    var prefix := stream[..n];
    if n >= 3 {
      assert UTF8_BOM <= prefix <==> UTF8_BOM <= stream;
    } else {
      assert forall i | 0 <= i < n :: prefix[i] == stream[i];
      assert !(UTF8_BOM <= stream);
    }
    SameFirst(stream, n, if UTF8_BOM <= stream then |UTF8_BOM| else 0);
  }

  /** A probe without a decision leaves the marker beyond it, unless it stopped inside a possible mark. */
  lemma MarkerBeyond(stream: Bytes, n: nat)
    requires n <= |stream| && MeaningfulOffset(stream[..n], false).None?
    ensures (n < |UTF8_BOM| && stream[..n] <= UTF8_BOM) ||
            Marker(stream).None? || Marker(stream).value >= n
  {
    var prefix := stream[..n];
    if n >= 3 {
      assert UTF8_BOM <= prefix <==> UTF8_BOM <= stream;
      SameFirst(stream, n, if UTF8_BOM <= stream then |UTF8_BOM| else 0);
    } else if !(prefix <= UTF8_BOM) {
      assert FirstFrom(prefix, 0).None?;
      assert forall i | 0 <= i < n :: prefix[i] == stream[i];
      SameFirst(stream, n, 0);
      assert !(UTF8_BOM <= stream);
    }
  }

  /** A prefix that decides, decides for the stream. */
  lemma Decides(stream: Bytes, failure: Option<nat>, n: nat)
    requires n <= |stream| && MeaningfulOffset(stream[..n], false).Some?
    ensures var offset := MeaningfulOffset(stream[..n], false).value;
            Observed(stream, failure) ==
            if offset < MAX_REPORT_INPUT_PREFIX_BYTES then Ok(FormatForByte(stream[..n][offset])) else Err(PrefixLimit)
  {
    MarkerStable(stream, n);
  }

  /** A full probe that decides nothing is over the limit. */
  lemma Undecided(stream: Bytes, failure: Option<nat>)
    requires REPORT_INPUT_PROBE_BYTES <= |stream|
    requires MeaningfulOffset(stream[..REPORT_INPUT_PROBE_BYTES], false).None?
    ensures Observed(stream, failure) == Err(PrefixLimit)
  {
    MarkerBeyond(stream, REPORT_INPUT_PROBE_BYTES);
  }

  /** A stream that ends undecided within the probe fails as it ended, or is decided by its end. */
  lemma Ends(stream: Bytes, failure: Option<nat>)
    requires |stream| < REPORT_INPUT_PROBE_BYTES && MeaningfulOffset(stream, false).None?
    ensures failure.Some? ==> Observed(stream, failure) == Err(Io(failure.value))
    ensures failure.None? ==>
              Observed(stream, failure) ==
              match MeaningfulOffset(stream, true)
              case None => Err(Ambiguous)
              case Some(offset) => Ok(FormatForByte(stream[offset]))
  {
    assert stream[..|stream|] == stream;
    MarkerBeyond(stream, |stream|);
  }

  // ---------- the code ----------

  /** A reader over a stream that ends, or fails, after its last byte, in pieces of its own choosing. */
  class Reader {
    const stream: Bytes
    const failure: Option<nat>
    var position: nat

    constructor (stream: Bytes, failure: Option<nat>)
      ensures this.stream == stream && this.failure == failure && position == 0
    {
      this.stream, this.failure, position := stream, failure, 0;
    }

    method Read(limit: nat) returns (r: Result<Bytes, nat>)
      requires position <= |stream| && limit > 0
      modifies this
      ensures old(position) <= position <= |stream| && position <= old(position) + limit
      ensures old(position) < |stream| ==> r == Ok(stream[old(position)..position]) && position > old(position)
      ensures old(position) == |stream| ==>
                position == old(position) && r == if failure.Some? then Err(failure.value) else Ok([])
    {
      if position == |stream| {
        return if failure.Some? then Err(failure.value) else Ok([]);
      }
      var start := position;
      var most := if limit < |stream| - position then limit else |stream| - position;
      var count :| 1 <= count <= most;
      position := position + count;
      return Ok(stream[start..position]);
    }
  }

  datatype Detected = Detected(prefix: Bytes, format: Format)

  method Finish(prefix: Bytes, observed: Format, configured: Option<Format>) returns (r: Result<Detected, InputError>)
    ensures r == if configured.Some? && configured.value != observed
                 then Err(FormatMismatch(configured.value, observed)) else Ok(Detected(prefix, observed))
  {
    if configured.Some? && configured.value != observed {
      return Err(FormatMismatch(configured.value, observed));
    }
    var format := match configured case Some(f) => f case None => observed;
    return Ok(Detected(prefix, format));
  }

  lemma Nothing()
    ensures MeaningfulOffset([], false).None?
  {
  }

  /**
   The outcome is a function of the stream alone; at most 65,537 bytes are taken from the
   reader; and on success the kept prefix followed by what the reader still holds is the
   whole stream.
   */
  method Detect(reader: Reader, configured: Option<Format>) returns (r: Result<Detected, InputError>)
    requires reader.position == 0
    modifies reader
    ensures reader.position <= |reader.stream| && reader.position <= REPORT_INPUT_PROBE_BYTES
    ensures r.Ok? ==> r.value.prefix + reader.stream[reader.position..] == reader.stream
    ensures Expected(reader.stream, reader.failure, configured) ==
            match r case Ok(d) => Ok(d.format) case Err(e) => Err(e)
  {
    hide MeaningfulOffset, Observed, FormatForByte;
    var prefix: Bytes := [];
    var reachedEof := false;
    Nothing();
    while |prefix| < REPORT_INPUT_PROBE_BYTES && !reachedEof
      invariant |prefix| == reader.position <= |reader.stream| && prefix == reader.stream[..reader.position]
      invariant |prefix| <= REPORT_INPUT_PROBE_BYTES
      invariant MeaningfulOffset(prefix, false).None?
      invariant reachedEof ==>
                  reader.position == |reader.stream| < REPORT_INPUT_PROBE_BYTES && reader.failure.None?
      decreases !reachedEof, |reader.stream| - reader.position
    {
      var remaining := REPORT_INPUT_PROBE_BYTES - |prefix|;
      var limit := if remaining < CHUNK_BYTES then remaining else CHUNK_BYTES;
      ghost var before := reader.position;
      var read := reader.Read(limit);
      if read.Err? {
        assert prefix == reader.stream;
        Ends(reader.stream, reader.failure);
        return Err(Io(read.error));
      }
      if read.value == [] {
        reachedEof := true;
      } else {
        assert reader.stream[..before] + reader.stream[before..reader.position] == reader.stream[..reader.position];
        prefix := prefix + read.value;
        var offset := MeaningfulOffset(prefix, false);
        if offset.Some? {
          Decides(reader.stream, reader.failure, reader.position);
          assert prefix + reader.stream[reader.position..] == reader.stream;
          if offset.value < MAX_REPORT_INPUT_PREFIX_BYTES {
            r := Finish(prefix, FormatForByte(prefix[offset.value]), configured);
            return;
          }
          return Err(PrefixLimit);
        }
      }
    }
    var offset := MeaningfulOffset(prefix, reachedEof);
    if reachedEof {
      assert prefix == reader.stream && prefix + reader.stream[reader.position..] == reader.stream;
      Ends(reader.stream, reader.failure);
    } else {
      Undecided(reader.stream, reader.failure);
    }
    if offset.Some? && offset.value < MAX_REPORT_INPUT_PREFIX_BYTES {
      r := Finish(prefix, FormatForByte(prefix[offset.value]), configured);
    } else if offset.Some? || !reachedEof {
      r := Err(PrefixLimit);
    } else {
      r := Err(Ambiguous);
    }
  }
}
