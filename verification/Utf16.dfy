/**
 The bounded UTF-16 decoder: one pass with a pending high surrogate, against a decoder
 that looks one unit ahead, and against the encoding of section 2.1 of RFC 2781.
 */
module Utf16 {
  import opened Prelude
  import opened Utf8

  type Unit = u: int | 0 <= u < 0x1_0000

  predicate IsHigh(u: Unit) { 0xD800 <= u < 0xDC00 }

  predicate IsLow(u: Unit) { 0xDC00 <= u < 0xE000 }

  function UnitAt(bytes: Bytes, i: nat, littleEndian: bool): (u: Unit)
    requires 2 * i + 1 < |bytes|
  {
    var first: int, second: int := bytes[2 * i], bytes[2 * i + 1];
    if littleEndian then second * 256 + first else first * 256 + second
  }

  /** The whole units of a byte string; an odd last byte is left over. */
  function Units(bytes: Bytes, littleEndian: bool): (us: seq<Unit>)
  {
    seq(|bytes| / 2, i requires 0 <= i < |bytes| / 2 => UnitAt(bytes, i, littleEndian))
  }

  lemma UnitCount(bytes: Bytes, littleEndian: bool)
    ensures |Units(bytes, littleEndian)| == |bytes| / 2
  {
  }

  lemma FirstUnit(bytes: Bytes, littleEndian: bool, i: nat)
    requires i < |bytes| / 2
    ensures var us := Units(bytes, littleEndian);
            i < |us| && us[i..] == [UnitAt(bytes, i, littleEndian)] + us[i + 1..]
  {
  }

  function Combine(high: Unit, low: Unit): (v: Scalar)
    requires IsHigh(high) && IsLow(low)
  {
    0x1_0000 + (high as int - 0xD800) * 0x400 + (low as int - 0xDC00)
  }

  // ---------- the lookahead decoder ----------

  function DecodeUnits(us: seq<Unit>): (vs: seq<Scalar>)
  {
    if us == [] then []
    else if IsHigh(us[0]) && |us| > 1 && IsLow(us[1]) then [Combine(us[0], us[1])] + DecodeUnits(us[2..])
    else if IsHigh(us[0]) || IsLow(us[0]) then [REPLACEMENT] + DecodeUnits(us[1..])
    else [us[0]] + DecodeUnits(us[1..])
  }

  /** The bytes that carry text, and their order, after an optional byte-order mark. */
  function Detect(bytes: Bytes, littleEndian: Option<bool>): (r: (Bytes, bool))
  {
    match littleEndian
    case Some(order) => (bytes, order)
    case None =>
      if [0xFE, 0xFF] <= bytes then (bytes[2..], false)
      else if [0xFF, 0xFE] <= bytes then (bytes[2..], true)
      else (bytes, false)
  }

  /** The text of a byte string, with no bound on its length. */
  function Text(bytes: Bytes, littleEndian: Option<bool>): (vs: seq<Scalar>)
  {
    var (rest, order) := Detect(bytes, littleEndian);
    DecodeUnits(Units(rest, order)) + if |rest| % 2 != 0 then [REPLACEMENT] else []
  }

  // ---------- the encoding, and what it inverts ----------

  function EncodeUnit(v: Scalar): (us: seq<Unit>)
  {
    if v < 0x1_0000 then [v] else [0xD800 + (v - 0x1_0000) / 0x400, 0xDC00 + (v - 0x1_0000) % 0x400]
  }

  function EncodeUnits(vs: seq<Scalar>): (us: seq<Unit>)
  {
    if vs == [] then []
    else EncodeUnit(vs[0]) + EncodeUnits(vs[1..])
  }

  function ToBytes(us: seq<Unit>, littleEndian: bool): (bytes: Bytes)
    ensures |bytes| == 2 * |us|
  {
    if us == [] then []
    else
      (if littleEndian then [us[0] % 256, us[0] / 256] else [us[0] / 256, us[0] % 256]) +
      ToBytes(us[1..], littleEndian)
  }

  lemma {:induction false} DecodeUnitsInvertsEncode(vs: seq<Scalar>)
    ensures DecodeUnits(EncodeUnits(vs)) == vs
  {
    if vs != [] {
      var us, head := EncodeUnits(vs), EncodeUnit(vs[0]);
      DecodeUnitsInvertsEncode(vs[1..]);
      assert us[|head|..] == EncodeUnits(vs[1..]);
      if vs[0] < 0x1_0000 {
        assert us[0] == vs[0];
      } else {
        assert us[0] == head[0] && us[1] == head[1];
        assert Combine(head[0], head[1]) == vs[0];
      }
    }
  }

  lemma {:induction false} UnitsInvertToBytes(us: seq<Unit>, littleEndian: bool)
    ensures Units(ToBytes(us, littleEndian), littleEndian) == us
  {
    if us != [] {
      var bytes := ToBytes(us, littleEndian);
      var tail := ToBytes(us[1..], littleEndian);
      UnitsInvertToBytes(us[1..], littleEndian);
      assert UnitAt(bytes, 0, littleEndian) == us[0];
      forall i | 0 <= i < |us|
        ensures Units(bytes, littleEndian)[i] == us[i]
      {
        if i > 0 {
          assert bytes[2 * i] == tail[2 * (i - 1)] && bytes[2 * i + 1] == tail[2 * (i - 1) + 1];
          assert UnitAt(bytes, i, littleEndian) == UnitAt(tail, i - 1, littleEndian);
          assert Units(tail, littleEndian)[i - 1] == us[1..][i - 1];
        }
      }
    }
  }

  function EncodeText(vs: seq<Scalar>, littleEndian: bool): (bytes: Bytes)
  {
    ToBytes(EncodeUnits(vs), littleEndian)
  }

  function Mark(littleEndian: bool): (bytes: Bytes)
  {
    if littleEndian then [0xFF, 0xFE] else [0xFE, 0xFF]
  }

  /** Decoding inverts encoding in either declared order, and in either order announced by a mark. */
  lemma TextInvertsEncodeText(vs: seq<Scalar>, littleEndian: bool)
    ensures Text(EncodeText(vs, littleEndian), Some(littleEndian)) == vs
    ensures Text(Mark(littleEndian) + EncodeText(vs, littleEndian), None) == vs
  {
    var us := EncodeUnits(vs);
    var bytes := ToBytes(us, littleEndian);
    UnitsInvertToBytes(us, littleEndian);
    DecodeUnitsInvertsEncode(vs);
    assert |bytes| % 2 == 0;
    var marked := Mark(littleEndian) + bytes;
    assert marked[2..] == bytes;
    assert marked[0] == Mark(littleEndian)[0];
  }

  lemma {:induction false} DecodedUnitCount(us: seq<Unit>)
    ensures |EncodeUnits(DecodeUnits(us))| == |us|
  {
    if us != [] {
      var n := if IsHigh(us[0]) && |us| > 1 && IsLow(us[1]) then 2 else 1;
      DecodedUnitCount(us[n..]);
      assert DecodeUnits(us)[1..] == DecodeUnits(us[n..]);
    }
  }

  /** Without a mark, big-endian text comes back exactly when it does not begin like one. */
  lemma UnmarkedText(vs: seq<Scalar>)
    ensures Text(EncodeText(vs, false), None) == vs <==> (vs == [] || vs[0] !in {0xFEFF, 0xFFFE})
  {
    hide DecodeUnits, Units;
    var us := EncodeUnits(vs);
    var bytes := ToBytes(us, false);
    UnitsInvertToBytes(us, false);
    DecodeUnitsInvertsEncode(vs);
    if vs != [] {
      assert us[0] == EncodeUnit(vs[0])[0];
      assert bytes[0] == us[0] / 256 && bytes[1] == us[0] % 256;
      if vs[0] in {0xFEFF, 0xFFFE} {
        var order := vs[0] == 0xFFFE;
        assert EncodeUnits(vs)[1..] == EncodeUnits(vs[1..]);
        assert Detect(bytes, None) == (bytes[2..], order);
        var decoded := DecodeUnits(Units(bytes[2..], order));
        DecodedUnitCount(Units(bytes[2..], order));
        UnitCount(bytes[2..], order);
        assert |EncodeUnits(decoded)| == |us| - 1;
        assert Text(bytes, None) == decoded + [] == decoded;
      } else {
        assert us[0] != 0xFEFF && us[0] != 0xFFFE;
        assert Detect(bytes, None) == (bytes, false);
      }
    }
  }

  /** A text that begins with the mark's own character loses it. */
  lemma MarkCharacterLost()
    ensures Text(EncodeText([0xFEFF], false), None) != [0xFEFF]
  {
    UnmarkedText([0xFEFF]);
  }

  lemma TextByParts(bytes: Bytes, littleEndian: Option<bool>)
    ensures var (rest, order) := Detect(bytes, littleEndian);
            Text(bytes, littleEndian) ==
            DecodeUnits(Units(rest, order)) + if |rest| % 2 != 0 then [REPLACEMENT] else []
  {
  }

  // ---------- the code ----------

  datatype DecodeError = LimitExceeded

  method PushCharBounded(output: Bytes, value: Scalar, maximum: nat) returns (r: Result<Bytes, DecodeError>)
    ensures r == if |output| + Width(value) <= maximum then Ok(output + Encode(value)) else Err(LimitExceeded)
  {
    var encoded := Encode(value);
    if |output| + |encoded| > maximum {
      return Err(LimitExceeded);
    }
    return Ok(output + encoded);
  }

  lemma {:induction false} EncodeAllConcat(a: seq<Scalar>, b: seq<Scalar>)
    ensures EncodeAll(a + b) == EncodeAll(a) + EncodeAll(b)
  {
    if a == [] {
      assert a + b == b;
    } else {
      assert (a + b)[1..] == a[1..] + b;
      EncodeAllConcat(a[1..], b);
    }
  }

  /** `output` holds the text decoded so far, and `text` is that followed by `rest`. */
  ghost predicate Decoded(output: Bytes, rest: seq<Scalar>, text: seq<Scalar>)
  {
    exists done :: EncodeAll(done) == output && done + rest == text
  }

  lemma NothingDecoded(text: seq<Scalar>)
    ensures Decoded([], text, text)
  {
    assert EncodeAll([]) == [] && [] + text == text;
  }

  lemma AllDecoded(output: Bytes, text: seq<Scalar>)
    requires Decoded(output, [], text)
    ensures EncodeAll(text) == output
  {
    var done :| EncodeAll(done) == output && done + [] == text;
    assert done == text;
  }

  /** Pushing the next character: it fits, or no longer text ever will. */
  method PushNext(
    output: Bytes, value: Scalar, maximum: nat, ghost all: seq<Scalar>, ghost rest: seq<Scalar>,
    ghost text: seq<Scalar>)
    returns (r: Result<Bytes, DecodeError>)
    requires |output| <= maximum && Decoded(output, all, text) && all == [value] + rest
    ensures r.Ok? ==> |r.value| <= maximum && Decoded(r.value, rest, text)
    ensures r.Err? ==> r.error == LimitExceeded && |EncodeAll(text)| > maximum
  {
    hide Encode;
    ghost var done :| EncodeAll(done) == output && done + ([value] + rest) == text;
    EncodeAllConcat(done, [value]);
    EncodeAllConcat(done + [value], rest);
    assert (done + [value]) + rest == text;
    assert EncodeAll([value]) == Encode(value);
    r := PushCharBounded(output, value, maximum);
  }

  function Pending(high: Option<Unit>): (us: seq<Unit>)
  {
    if high.Some? then [high.value] else []
  }

  /** How the lookahead decoder takes one more unit after an optional high surrogate. */
  lemma NextUnit(pending: seq<Unit>, unit: Unit, later: seq<Unit>)
    requires pending == [] || (|pending| == 1 && IsHigh(pending[0]))
    ensures var us := pending + ([unit] + later);
            if IsLow(unit) && pending != [] then DecodeUnits(us) == [Combine(pending[0], unit)] + DecodeUnits(later)
            else if pending != [] then DecodeUnits(us) == [REPLACEMENT] + DecodeUnits([unit] + later)
            else DecodeUnits(us) == DecodeUnits([unit] + later)
    ensures IsLow(unit) ==> DecodeUnits([unit] + later) == [REPLACEMENT] + DecodeUnits(later)
    ensures !IsLow(unit) && !IsHigh(unit) ==> DecodeUnits([unit] + later) == [unit] + DecodeUnits(later)
  {
    var us := pending + ([unit] + later);
    assert ([unit] + later)[1..] == later;
    if pending == [] {
      assert us == [unit] + later;
    } else {
      assert us[1..] == [unit] + later && us[2..] == later;
    }
  }

  /** One unit of the pass: at most two characters pushed, and the high surrogate to remember. */
  method PushUnit(
    output: Bytes, highSurrogate: Option<Unit>, unit: Unit, maximum: nat,
    ghost later: seq<Unit>, ghost odd: seq<Scalar>, ghost text: seq<Scalar>)
    returns (r: Result<Bytes, DecodeError>, high: Option<Unit>)
    requires |output| <= maximum && (highSurrogate.Some? ==> IsHigh(highSurrogate.value))
    requires Decoded(output, DecodeUnits(Pending(highSurrogate) + ([unit] + later)) + odd, text)
    ensures r.Ok? ==> |r.value| <= maximum && (high.Some? ==> IsHigh(high.value))
    ensures r.Ok? ==> Decoded(r.value, DecodeUnits(Pending(high) + later) + odd, text)
    ensures r.Err? ==> r.error == LimitExceeded && |EncodeAll(text)| > maximum
  {
    hide Encode, EncodeAll, DecodeUnits, Decoded, Combine;
    NextUnit(Pending(highSurrogate), unit, later);
    ghost var all := DecodeUnits(Pending(highSurrogate) + ([unit] + later)) + odd;
    ghost var here := DecodeUnits([unit] + later) + odd;
    assert [] + later == later;
    r, high := Ok(output), None;
    if IsHigh(unit) {
      if highSurrogate.Some? {
        r := PushNext(output, REPLACEMENT, maximum, all, here, text);
      }
      high := Some(unit);
    } else if IsLow(unit) {
      var value := if highSurrogate.Some? then Combine(highSurrogate.value, unit) else REPLACEMENT;
      r := PushNext(output, value, maximum, all, DecodeUnits(later) + odd, text);
    } else {
      if highSurrogate.Some? {
        r := PushNext(output, REPLACEMENT, maximum, all, here, text);
      }
      if r.Ok? {
        r := PushNext(r.value, unit, maximum, here, DecodeUnits(later) + odd, text);
      }
    }
  }

  lemma LastUnits(high: Option<Unit>)
    requires high.Some? ==> IsHigh(high.value)
    ensures DecodeUnits(Pending(high)) == if high.Some? then [REPLACEMENT] else []
  {
  }

  /**
   The one-pass decoder returns the text, as UTF-8, exactly when it fits the maximum.
   */
  method DecodeUtf16(bytes: Bytes, littleEndian: Option<bool>, maximum: nat) returns (r: Result<Bytes, DecodeError>)
    ensures var encoded := EncodeAll(Text(bytes, littleEndian));
            r == if |encoded| <= maximum then Ok(encoded) else Err(LimitExceeded)
  {
    hide Encode, EncodeAll, DecodeUnits, Decoded, Text, Detect, Units, UnitAt;
    TextByParts(bytes, littleEndian);
    var (rest, order) := Detect(bytes, littleEndian);
    ghost var text := Text(bytes, littleEndian);
    ghost var us := Units(rest, order);
    ghost var odd: seq<Scalar> := if |rest| % 2 != 0 then [REPLACEMENT] else [];
    UnitCount(rest, order);
    r := Ok([]);
    var highSurrogate: Option<Unit> := None;
    assert Pending(None) + us[0..] == us;
    NothingDecoded(text);
    var index := 0;
    while index < |rest| / 2
      invariant 0 <= index <= |us| && r.Ok? && |r.value| <= maximum
      invariant highSurrogate.Some? ==> IsHigh(highSurrogate.value)
      invariant Decoded(r.value, DecodeUnits(Pending(highSurrogate) + us[index..]) + odd, text)
    {
      var unit := UnitAt(rest, index, order);
      FirstUnit(rest, order, index);
      r, highSurrogate := PushUnit(r.value, highSurrogate, unit, maximum, us[index + 1..], odd, text);
      if r.Err? {
        return;
      }
      index := index + 1;
    }
    LastUnits(highSurrogate);
    assert Pending(highSurrogate) + us[|us|..] == Pending(highSurrogate) && [] + odd == odd;
    if highSurrogate.Some? {
      r := PushNext(r.value, REPLACEMENT, maximum, DecodeUnits(Pending(highSurrogate)) + odd, odd, text);
    }
    if r.Ok? && |rest| % 2 != 0 {
      r := PushNext(r.value, REPLACEMENT, maximum, odd, [], text);
    }
    if r.Ok? { AllDecoded(r.value, text); }
  }
}
