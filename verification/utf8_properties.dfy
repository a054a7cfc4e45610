/**
 Properties of the fallback decoder's 'utf-8' and 'ascii' branches, and a
 reference UTF-8 encoder of 16-bit code units that the decoder inverts.
 */
module Utf8Properties {
  import opened Wrappers
  import opened TextDecoder

  /** A byte below 0x80 is decoded to itself and consumes one byte (lines 332-334). */
  lemma AsciiByteDecodesToItself(b: Byte, rest: seq<Byte>)
    requires b < 0x80
    ensures Utf8Decode([b] + rest) == [b as CodeUnit] + Utf8Decode(rest)
  {
    assert ([b] + rest)[1..] == rest;
  }

  /** A lead byte in 0xC0-0xDF consumes exactly two bytes (lines 335-338). */
  lemma TwoByteLead(b1: Byte, b2: Byte, rest: seq<Byte>)
    requires 0xC0 <= b1 <= 0xDF
    ensures Utf8Decode([b1, b2] + rest) ==
      [((b1 as CodeUnit & 0x1F) << 6) | (b2 as CodeUnit & 0x3F)] + Utf8Decode(rest)
  {
    var s := [b1, b2] + rest;
    assert Classify(b1) == Double;
    assert Read(s, 1) == Some(b2);
    assert Drop(s, 2) == rest;
    TwoByteFormula(b1, b2);
  }

  lemma TwoByteFormula(b1: Byte, b2: Byte)
    ensures TwoByteUnit(b1, Some(b2)) == ((b1 as CodeUnit & 0x1F) << 6) | (b2 as CodeUnit & 0x3F)
    ensures ((b1 as Int32 & 0x1F) << 6) | (b2 as Int32 & 0x3F) < 0x800
  {
  }

  /** A lead byte in 0xE0-0xEF consumes exactly three bytes (lines 339-343). */
  lemma ThreeByteLead(b1: Byte, b2: Byte, b3: Byte, rest: seq<Byte>)
    requires 0xE0 <= b1 <= 0xEF
    ensures Utf8Decode([b1, b2, b3] + rest) ==
      [((b1 as CodeUnit & 0x0F) << 12) | ((b2 as CodeUnit & 0x3F) << 6) | (b3 as CodeUnit & 0x3F)] + Utf8Decode(rest)
  {
    var s := [b1, b2, b3] + rest;
    assert Classify(b1) == Triple;
    assert Read(s, 1) == Some(b2);
    assert Read(s, 2) == Some(b3);
    assert Drop(s, 3) == rest;
    ThreeByteFormula(b1, b2, b3);
  }

  lemma ThreeByteFormula(b1: Byte, b2: Byte, b3: Byte)
    ensures ThreeByteUnit(b1, Some(b2), Some(b3)) ==
      ((b1 as CodeUnit & 0x0F) << 12) | ((b2 as CodeUnit & 0x3F) << 6) | (b3 as CodeUnit & 0x3F)
    ensures ((b1 as Int32 & 0x0F) << 12) | ((b2 as Int32 & 0x3F) << 6) | (b3 as Int32 & 0x3F) < 0x10000
  {
  }

  /** A continuation byte or a four-byte lead in lead position emits nothing and is skipped. */
  lemma IgnoredByte(b: Byte, rest: seq<Byte>)
    requires 0x80 <= b < 0xC0 || 0xF0 <= b
    ensures Utf8Decode([b] + rest) == Utf8Decode(rest)
  {
    assert Classify(b) == Ignored;
    assert ([b] + rest)[1..] == rest;
  }

  /** For input made only of bytes below 0x80 the 'utf-8' and 'ascii' decodings agree. */
  lemma {:induction false} AllAsciiDecodesAlike(s: seq<Byte>)
    requires forall k :: 0 <= k < |s| ==> s[k] < 0x80
    ensures Decode("utf-8", s) == Decode("ascii", s)
    ensures Utf8Decode(s) == AsciiDecode(s)
  {
    if |s| > 0 {
      AsciiByteDecodesToItself(s[0], s[1..]);
      assert [s[0]] + s[1..] == s;
      AllAsciiDecodesAlike(s[1..]);
    }
  }

  /** A two-byte lead that ends the buffer: the missing byte reads as 0x00. */
  lemma TruncatedDouble(c: Byte)
    requires Classify(c) == Double
    ensures Utf8Decode([c]) == [TwoByteUnit(c, Some(0))]
    ensures Utf8Decode([c] + [0, 0]) == [TwoByteUnit(c, Some(0))] + [0]
  {
    var t := [c] + [0, 0];
    assert Read(t, 1) == Some(0);
    assert Drop(t, 2) == [0] + [];
    AsciiByteDecodesToItself(0, []);
  }

  /** A three-byte lead followed by one byte that ends the buffer. */
  lemma TruncatedTripleAfterOne(c: Byte, c2: Byte)
    requires Classify(c) == Triple
    ensures Utf8Decode([c, c2]) == [ThreeByteUnit(c, Some(c2), Some(0))]
    ensures Utf8Decode([c, c2] + [0, 0]) == [ThreeByteUnit(c, Some(c2), Some(0))] + [0]
  {
    var t := [c, c2] + [0, 0];
    assert Read(t, 1) == Some(c2) && Read(t, 2) == Some(0);
    assert Drop(t, 3) == [0] + [];
    AsciiByteDecodesToItself(0, []);
  }

  /** A three-byte lead that ends the buffer: both missing bytes read as 0x00. */
  lemma TruncatedTriple(c: Byte)
    requires Classify(c) == Triple
    ensures Utf8Decode([c]) == [ThreeByteUnit(c, Some(0), Some(0))]
    ensures Utf8Decode([c] + [0, 0]) == [ThreeByteUnit(c, Some(0), Some(0))]
  {
    var t := [c] + [0, 0];
    assert Read(t, 1) == Some(0) && Read(t, 2) == Some(0);
    assert Drop(t, 3) == [];
  }

  /** Appending bytes after a complete first sequence does not change how that sequence decodes. */
  lemma CompleteFirstStep(s: seq<Byte>, z: seq<Byte>) returns (w: nat)
    requires !Truncated(s)
    ensures 1 <= w <= |s|
    ensures Utf8Decode(s) == Utf8Decode(s[..w]) + Utf8Decode(s[w..])
    ensures Utf8Decode(s + z) == Utf8Decode(s[..w]) + Utf8Decode(s[w..] + z)
    ensures s[w..] + z == (s + z)[w..]
  {
    var t := s + z;
    w := match Classify(s[0]) case Double => 2 case Triple => 3 case _ => 1;
    assert t[..w] == s[..w];
    assert t[w..] == s[w..] + z;
    FirstStep(s, s[..w], w);
    FirstStep(t, s[..w], w);
  }

  /** A buffer whose first sequence is complete splits after that sequence. */
  lemma FirstStep(s: seq<Byte>, head: seq<Byte>, w: nat)
    requires 1 <= w <= |s| && head == s[..w]
    requires w == match Classify(s[0]) case Double => 2 case Triple => 3 case _ => 1
    ensures Utf8Decode(s) == Utf8Decode(head) + Utf8Decode(s[w..])
  {
    assert head[0] == s[0];
    assert Drop(s, 0) == s && Drop(head, 0) == head;
    assert Drop(head, w) == [];
    assert Drop(s, w) == s[w..];
    match Classify(s[0])
    case Double =>
      FirstStepOfTwo(s, head);
    case Triple =>
      FirstStepOfThree(s, head);
    case _ =>
      Utf8Step(s, 0);
      Utf8Step(head, 0);
  }

  lemma FirstStepOfTwo(s: seq<Byte>, head: seq<Byte>)
    requires 2 <= |s| && head == s[..2] && Classify(s[0]) == Double
    ensures Utf8Decode(s) == Utf8Decode(head) + Utf8Decode(s[2..])
  {
    assert Drop(s, 0) == s && Drop(head, 0) == head;
    Utf8Step(s, 0);
    Utf8Step(head, 0);
    assert Read(s, 1) == Read(head, 1);
    assert Drop(head, 2) == [];
    assert Drop(s, 2) == s[2..];
  }

  lemma FirstStepOfThree(s: seq<Byte>, head: seq<Byte>)
    requires 3 <= |s| && head == s[..3] && Classify(s[0]) == Triple
    ensures Utf8Decode(s) == Utf8Decode(head) + Utf8Decode(s[3..])
  {
    assert Drop(s, 0) == s && Drop(head, 0) == head;
    Utf8Step(s, 0);
    Utf8Step(head, 0);
    assert Read(s, 1) == Read(head, 1) && Read(s, 2) == Read(head, 2);
    assert Drop(head, 3) == [];
    assert Drop(s, 3) == s[3..];
  }

  /**
   Reading past the end is the same as reading zero bytes: decoding the buffer
   followed by two 0x00 bytes yields the same units, then one unit U+0000 for
   each padding byte that no cut-off sequence swallowed.
   */
  lemma {:induction false} ZeroPadding(s: seq<Byte>) returns (k: nat)
    ensures k <= 2
    ensures Utf8Decode(s + [0, 0]) == Utf8Decode(s) + Zeros(k)
    decreases |s|
  {
    if Truncated(s) {
      k := TruncatedPadding(s);
    } else {
      var z: seq<Byte> := [0, 0];
      var w := CompleteFirstStep(s, z);
      k := ZeroPadding(s[w..]);
      assert Utf8Decode(s + z) == Utf8Decode(s[..w]) + (Utf8Decode(s[w..]) + Zeros(k));
    }
  }

  /** `k` units U+0000. */
  function Zeros(k: nat): (r: seq<CodeUnit>)
    ensures |r| == k && forall i :: 0 <= i < k ==> r[i] == 0
  {
    seq(k, _ => 0)
  }

  /** The buffer is empty or holds nothing but a cut-off sequence. */
  predicate Truncated(s: seq<Byte>) {
    |s| == 0 ||
    (Classify(s[0]) == Double && |s| < 2) ||
    (Classify(s[0]) == Triple && |s| < 3)
  }

  lemma TruncatedPadding(s: seq<Byte>) returns (k: nat)
    requires Truncated(s)
    ensures k <= 2
    ensures Utf8Decode(s + [0, 0]) == Utf8Decode(s) + Zeros(k)
  {
    if |s| == 0 {
      assert s + [0, 0] == [0] + [0];
      AsciiByteDecodesToItself(0, [0]);
      AsciiByteDecodesToItself(0, []);
      assert [0 as Byte] + [] == [0];
      k := 2;
    } else if Classify(s[0]) == Double {
      assert s == [s[0]];
      TruncatedDouble(s[0]);
      k := 1;
    } else if |s| == 2 {
      assert s == [s[0], s[1]];
      TruncatedTripleAfterOne(s[0], s[1]);
      k := 1;
    } else {
      assert s == [s[0]];
      TruncatedTriple(s[0]);
      k := 0;
    }
  }

  /** The reference encoder: the shortest UTF-8 form of one 16-bit code unit. */
  function EncodeUnit(u: CodeUnit): (r: seq<Byte>)
    ensures 1 <= |r| <= 3
  {
    if u < 0x80 then [u as Byte]
    else if u < 0x800 then [(0xC0 | (u >> 6)) as Byte, (0x80 | (u & 0x3F)) as Byte]
    else [(0xE0 | (u >> 12)) as Byte, (0x80 | ((u >> 6) & 0x3F)) as Byte, (0x80 | (u & 0x3F)) as Byte]
  }

  /** The reference encoder applied unit by unit. */
  function Encode(units: seq<CodeUnit>): (r: seq<Byte>)
    ensures |units| <= |r| <= 3 * |units|
  {
    if |units| == 0 then [] else EncodeUnit(units[0]) + Encode(units[1..])
  }

  lemma EncodeUnitDecodes(u: CodeUnit, rest: seq<Byte>)
    ensures Utf8Decode(EncodeUnit(u) + rest) == [u] + Utf8Decode(rest)
  {
    if u < 0x80 {
      AsciiByteDecodesToItself(u as Byte, rest);
    } else if u < 0x800 {
      var b1, b2 := (0xC0 | (u >> 6)) as Byte, (0x80 | (u & 0x3F)) as Byte;
      assert 0xC0 <= b1 <= 0xDF;
      TwoByteLead(b1, b2, rest);
      assert ((b1 as CodeUnit & 0x1F) << 6) | (b2 as CodeUnit & 0x3F) == u;
    } else {
      var b1, b2, b3 := (0xE0 | (u >> 12)) as Byte, (0x80 | ((u >> 6) & 0x3F)) as Byte, (0x80 | (u & 0x3F)) as Byte;
      assert 0xE0 <= b1 <= 0xEF;
      ThreeByteLead(b1, b2, b3, rest);
      assert ((b1 as CodeUnit & 0x0F) << 12) | ((b2 as CodeUnit & 0x3F) << 6) | (b3 as CodeUnit & 0x3F) == u;
    }
  }

  /** Every string of code units, surrogates included, survives encoding and then decoding. */
  lemma {:induction false} DecodeEncode(units: seq<CodeUnit>)
    ensures Utf8Decode(Encode(units)) == units
    ensures Decode("utf-8", Encode(units)) == units
  {
    if |units| > 0 {
      EncodeUnitDecodes(units[0], Encode(units[1..]));
      DecodeEncode(units[1..]);
      assert [units[0]] + units[1..] == units;
    }
  }

  /** A byte of the form 10xxxxxx. */
  predicate IsContinuation(b: Byte) {
    0x80 <= b < 0xC0
  }

  /**
   Shortest-form 1-3 byte sequences of every 16-bit value: what the reference
   encoder produces. Unlike well-formed UTF-8 in the sense of RFC 3629, this
   includes the three-byte forms ED A0-BF xx of the surrogates 0xD800-0xDFFF,
   since JavaScript strings may hold lone surrogates. The decoder accepts more (overlong forms, missing continuation
   bytes, truncated tails), but on these inputs it loses nothing.
   */
  predicate ShortestForm(s: seq<Byte>)
    decreases |s|
  {
    if |s| == 0 then true
    else if s[0] < 0x80 then ShortestForm(s[1..])
    else if 0xC2 <= s[0] <= 0xDF then
      |s| >= 2 && IsContinuation(s[1]) && ShortestForm(s[2..])
    else if 0xE0 <= s[0] <= 0xEF then
      |s| >= 3 && IsContinuation(s[1]) && IsContinuation(s[2]) && (s[0] != 0xE0 || s[1] >= 0xA0) &&
      ShortestForm(s[3..])
    else false
  }

  lemma TwoByteReencodes(b1: Byte, b2: Byte)
    requires 0xC2 <= b1 <= 0xDF && IsContinuation(b2)
    ensures EncodeUnit(((b1 as CodeUnit & 0x1F) << 6) | (b2 as CodeUnit & 0x3F)) == [b1, b2]
  {
  }

  lemma ThreeByteReencodes(b1: Byte, b2: Byte, b3: Byte)
    requires 0xE0 <= b1 <= 0xEF && IsContinuation(b2) && IsContinuation(b3) && (b1 != 0xE0 || b2 >= 0xA0)
    ensures EncodeUnit(((b1 as CodeUnit & 0x0F) << 12) | ((b2 as CodeUnit & 0x3F) << 6) | (b3 as CodeUnit & 0x3F)) ==
      [b1, b2, b3]
  {
  }

  lemma TwoByteStep(b1: Byte, b2: Byte, rest: seq<Byte>) returns (u: CodeUnit)
    requires 0xC2 <= b1 <= 0xDF && IsContinuation(b2)
    ensures Utf8Decode([b1, b2] + rest) == [u] + Utf8Decode(rest)
    ensures EncodeUnit(u) == [b1, b2]
  {
    u := ((b1 as CodeUnit & 0x1F) << 6) | (b2 as CodeUnit & 0x3F);
    TwoByteLead(b1, b2, rest);
    TwoByteReencodes(b1, b2);
  }

  lemma ThreeByteStep(b1: Byte, b2: Byte, b3: Byte, rest: seq<Byte>) returns (u: CodeUnit)
    requires 0xE0 <= b1 <= 0xEF && IsContinuation(b2) && IsContinuation(b3) && (b1 != 0xE0 || b2 >= 0xA0)
    ensures Utf8Decode([b1, b2, b3] + rest) == [u] + Utf8Decode(rest)
    ensures EncodeUnit(u) == [b1, b2, b3]
  {
    u := ((b1 as CodeUnit & 0x0F) << 12) | ((b2 as CodeUnit & 0x3F) << 6) | (b3 as CodeUnit & 0x3F);
    ThreeByteLead(b1, b2, b3, rest);
    ThreeByteReencodes(b1, b2, b3);
  }

  /** The first step of decoding a shortest-form buffer: one unit, which re-encodes to the bytes it consumed. */
  lemma ShortestFormStep(s: seq<Byte>) returns (u: CodeUnit, width: nat)
    requires |s| > 0 && ShortestForm(s)
    ensures 1 <= width <= |s| && ShortestForm(s[width..])
    ensures Utf8Decode(s) == [u] + Utf8Decode(s[width..])
    ensures EncodeUnit(u) == s[..width]
  {
    if s[0] < 0x80 {
      u, width := s[0] as CodeUnit, 1;
      AsciiByteDecodesToItself(s[0], s[1..]);
      assert [s[0]] + s[1..] == s;
    } else if s[0] <= 0xDF {
      width := 2;
      assert [s[0], s[1]] + s[2..] == s;
      u := TwoByteStep(s[0], s[1], s[2..]);
    } else {
      width := 3;
      assert [s[0], s[1], s[2]] + s[3..] == s;
      u := ThreeByteStep(s[0], s[1], s[2], s[3..]);
    }
  }

  /** On shortest-form input the encoder undoes the decoder: nothing is lost or altered. */
  lemma {:induction false} EncodeDecode(s: seq<Byte>)
    requires ShortestForm(s)
    ensures Encode(Utf8Decode(s)) == s
    decreases |s|
  {
    if |s| > 0 {
      var u, width := ShortestFormStep(s);
      EncodeDecode(s[width..]);
      assert ([u] + Utf8Decode(s[width..]))[1..] == Utf8Decode(s[width..]);
      assert s[..width] + s[width..] == s;
    }
  }
}
