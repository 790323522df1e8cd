/**
 UTF-8 as section 3 of RFC 3629 defines it.  A Rust `&str` is modelled as its byte
 sequence together with `Valid`; slicing a `&str` needs `IsCharBoundary` at both ends.
 */
module Utf8 {
  import opened Prelude

  type Byte = b: int | 0 <= b < 256

  type Bytes = seq<Byte>

  /** A Unicode scalar value: a code point that is not a surrogate. */
  type Scalar = v: int | 0 <= v < 0xD800 || 0xE000 <= v < 0x11_0000

  const REPLACEMENT: Scalar := 0xFFFD

  function Width(v: Scalar): (n: nat)
  {
    if v < 0x80 then 1 else if v < 0x800 then 2 else if v < 0x1_0000 then 3 else 4
  }

  predicate IsContinuation(b: Byte)
  {
    0x80 <= b < 0xC0
  }

  function Encode(v: Scalar): (r: Bytes)
    ensures |r| == Width(v)
    ensures !IsContinuation(r[0])
    ensures forall i | 1 <= i < |r| :: IsContinuation(r[i])
  {
    if v < 0x80 then [v]
    else if v < 0x800 then [0xC0 + v / 64, 0x80 + v % 64]
    else if v < 0x1_0000 then [0xE0 + v / 4096, 0x80 + v / 64 % 64, 0x80 + v % 64]
    else [0xF0 + v / 0x4_0000, 0x80 + v / 4096 % 64, 0x80 + v / 64 % 64, 0x80 + v % 64]
  }

  function EncodeAll(vs: seq<Scalar>): Bytes
  {
    if vs == [] then [] else Encode(vs[0]) + EncodeAll(vs[1..])
  }

  predicate Continuations(s: Bytes, n: nat)
    requires n <= |s|
  {
    forall i | 1 <= i < n :: IsContinuation(s[i])
  }

  /**
   The scalar value at the front of `s`, or `None` when no well-formed sequence starts
   there: overlong forms, surrogates, values past U+10FFFF, stray and missing
   continuation bytes are all refused.
   */
  function DecodeFirst(s: Bytes): (r: Option<Scalar>)
  {
    if |s| >= 1 && s[0] < 0x80 then Some(s[0])
    else if |s| >= 2 && 0xC2 <= s[0] < 0xE0 && Continuations(s, 2) then
      var v: int := 64 * (s[0] as int - 0xC0) + (s[1] - 0x80);
      Some(v)
    else if |s| >= 3 && 0xE0 <= s[0] < 0xF0 && Continuations(s, 3) then
      var v: int := 4096 * (s[0] as int - 0xE0) + 64 * (s[1] as int - 0x80) + (s[2] - 0x80);
      if v < 0x800 || 0xD800 <= v < 0xE000 then None else Some(v)
    else if |s| >= 4 && 0xF0 <= s[0] < 0xF5 && Continuations(s, 4) then
      var v: int := 0x4_0000 * (s[0] as int - 0xF0) + 4096 * (s[1] as int - 0x80)
                    + 64 * (s[2] as int - 0x80) + (s[3] - 0x80);
      if v < 0x1_0000 || v >= 0x11_0000 then None else Some(v)
    else None
  }

  lemma Base64Value(a: nat, b: nat, c: nat, d: nat)
    requires a < 64 && b < 64 && c < 64 && d < 64
    ensures var v := 0x4_0000 * a + 4096 * b + 64 * c + d;
            v % 64 == d && v / 64 % 64 == c && v / 4096 % 64 == b && v / 0x4_0000 == a &&
            v / 64 == 4096 * a + 64 * b + c && v / 4096 == 64 * a + b
  {
  }

  lemma DecodedIsEncoded(s: Bytes, v: Scalar)
    requires DecodeFirst(s) == Some(v)
    ensures Encode(v) <= s
  {
    if s[0] < 0x80 {
      assert Encode(v) == s[..1];
    } else if s[0] < 0xE0 {
      assert IsContinuation(s[1]);
      Base64Value(0, 0, s[0] as int - 0xC0, s[1] as int - 0x80);
      assert Encode(v) == s[..2];
    } else if s[0] < 0xF0 {
      assert IsContinuation(s[1]) && IsContinuation(s[2]);
      Base64Value(0, s[0] as int - 0xE0, s[1] as int - 0x80, s[2] as int - 0x80);
      assert Encode(v) == s[..3];
    } else {
      assert IsContinuation(s[1]) && IsContinuation(s[2]) && IsContinuation(s[3]);
      Base64Value(s[0] as int - 0xF0, s[1] as int - 0x80, s[2] as int - 0x80, s[3] as int - 0x80);
      assert Encode(v) == s[..4];
    }
  }

  lemma Base64Digits(v: Scalar)
    ensures v == 64 * (v / 64) + v % 64
    ensures v / 64 == 64 * (v / 4096) + v / 64 % 64
    ensures v / 4096 == 64 * (v / 0x4_0000) + v / 4096 % 64
  {
  }

  lemma EncodedDecodes(s: Bytes, v: Scalar)
    requires Encode(v) <= s
    ensures DecodeFirst(s) == Some(v)
  {
    assert s[0] == Encode(v)[0];
    if v >= 0x80 {
      assert s[1] == Encode(v)[1];
      Base64Digits(v);
      if v >= 0x800 {
        assert s[2] == Encode(v)[2];
        if v >= 0x1_0000 {
          assert s[3] == Encode(v)[3];
          assert Continuations(s, 4);
        } else {
          assert Continuations(s, 3);
        }
      } else {
        assert Continuations(s, 2);
      }
    }
  }

  /** `DecodeFirst` accepts exactly the encodings, and recovers what was encoded. */
  lemma DecodeFirstIffEncoded(s: Bytes, v: Scalar)
    ensures DecodeFirst(s) == Some(v) <==> Encode(v) <= s
  {
    if DecodeFirst(s) == Some(v) { DecodedIsEncoded(s, v); }
    if Encode(v) <= s { EncodedDecodes(s, v); }
  }

  predicate Valid(s: Bytes)
    decreases |s|
  {
    s == [] ||
    (DecodeFirst(s).Some? && Width(DecodeFirst(s).value) <= |s| && Valid(s[Width(DecodeFirst(s).value)..]))
  }

  function Decode(s: Bytes): (vs: seq<Scalar>)
    requires Valid(s)
    ensures EncodeAll(vs) == s
    decreases |s|
  {
    if s == [] then []
    else
      var v := DecodeFirst(s).value;
      DecodeFirstIffEncoded(s, v);
      [v] + Decode(s[Width(v)..])
  }

  lemma {:induction false} DecodeInvertsEncode(vs: seq<Scalar>)
    ensures Valid(EncodeAll(vs)) && Decode(EncodeAll(vs)) == vs
  {
    if vs != [] {
      var s := EncodeAll(vs);
      DecodeFirstIffEncoded(s, vs[0]);
      assert s[Width(vs[0])..] == EncodeAll(vs[1..]);
      DecodeInvertsEncode(vs[1..]);
    }
  }

  // ---------- character boundaries ----------

  predicate IsCharBoundary(s: Bytes, i: nat)
  {
    i == 0 || i == |s| || (i < |s| && !IsContinuation(s[i]))
  }

  /** A byte offset is a character boundary exactly when it splits valid text into two valid texts. */
  lemma {:induction false} BoundarySplits(s: Bytes, i: nat)
    requires Valid(s) && i <= |s|
    ensures IsCharBoundary(s, i) <==> Valid(s[..i]) && Valid(s[i..])
    decreases |s|
  {
    if i == 0 {
      assert s[..0] == [] && s[0..] == s;
    } else if i == |s| {
      assert s[..i] == s && s[i..] == [];
    } else {
      var v := DecodeFirst(s).value;
      var n := Width(v);
      DecodeFirstIffEncoded(s, v);
      if i < n {
        assert s[i] == Encode(v)[i];
        var rest := s[i..];
        assert rest[0] == s[i] && IsContinuation(rest[0]) && DecodeFirst(rest).None?;
      } else {
        var tail := s[n..];
        BoundarySplits(tail, i - n);
        assert tail[i - n..] == s[i..];
        DecodeFirstIffEncoded(s[..i], v);
        assert s[..i][n..] == tail[..i - n];
        assert Valid(s[..i]) <==> Valid(tail[..i - n]);
        if i == n { assert !IsContinuation(s[i]) by { DecodeFirstIffEncoded(tail, DecodeFirst(tail).value); } }
      }
    }
  }

  lemma SliceValid(s: Bytes, a: nat, b: nat)
    requires Valid(s) && a <= b <= |s|
    requires IsCharBoundary(s, a) && IsCharBoundary(s, b)
    ensures Valid(s[a..b])
  {
    hide Valid, IsContinuation;
    BoundarySplits(s, a);
    var t := s[a..];
    assert b - a < |t| ==> t[b - a] == s[b];
    BoundarySplits(t, b - a);
    assert t[..b - a] == s[a..b];
  }

  /** Valid text that starts with valid text leaves valid text. */
  lemma {:induction false} ValidPrefixLeavesValid(s: Bytes, p: Bytes)
    requires Valid(s) && Valid(p) && p <= s
    ensures Valid(s[|p|..])
    decreases |p|
  {
    if p == [] {
      assert s[0..] == s;
    } else {
      var v := DecodeFirst(p).value;
      DecodeFirstIffEncoded(p, v);
      DecodeFirstIffEncoded(s, v);
      ValidPrefixLeavesValid(s[Width(v)..], p[Width(v)..]);
      assert s[Width(v)..][|p| - Width(v)..] == s[|p|..];
    }
  }

  /**
   Byte-level search on valid text never lands inside a character: any occurrence of
   non-empty valid text starts and ends on a character boundary.
   */
  lemma OccurrenceAligned(s: Bytes, p: Bytes, i: nat)
    requires Valid(s) && Valid(p) && p != []
    requires i + |p| <= |s| && s[i..i + |p|] == p
    ensures IsCharBoundary(s, i) && IsCharBoundary(s, i + |p|)
  {
    assert s[i] == p[0];
    DecodeFirstIffEncoded(p, DecodeFirst(p).value);
    BoundarySplits(s, i);
    var t := s[i..];
    assert p <= t;
    ValidPrefixLeavesValid(t, p);
    assert t[|p|..] == s[i + |p|..];
    if i + |p| < |s| {
      var u := s[i + |p|..];
      DecodeFirstIffEncoded(u, DecodeFirst(u).value);
      assert u[0] == s[i + |p|];
    }
  }

  // ---------- blank text ----------

  /** The Unicode White_Space property. */
  predicate IsWhitespace(v: int)
  {
    9 <= v <= 13 || v == 0x20 || v == 0x85 || v == 0xA0 || v == 0x1680 ||
    0x2000 <= v <= 0x200A || v == 0x2028 || v == 0x2029 || v == 0x202F || v == 0x205F || v == 0x3000
  }

  predicate IsBlank(s: Bytes)
    requires Valid(s)
  {
    forall v | v in Decode(s) :: IsWhitespace(v)
  }
}
