/**
 The fallback `TextDecoder` class that the browser host installs when the
 platform has none (src/view-browser.js, lines 318-355).

 `decode(buffer)` scans a Uint8Array left to right and appends UTF-16 code
 units to a string. Under 'utf-8' the lead byte is classified by its high
 nibble; continuation bytes are never checked, only masked, and a sequence cut
 off by the end of the buffer reads `undefined`, which every bitwise operator
 turns into 0. Under 'ascii' every byte becomes the code unit of equal value.
 Any other encoding name falls through the `switch` and yields "".
 */
module TextDecoder {
  import opened Wrappers

  /** One element of the Uint8Array handed to `decode`. */
  type Byte = bv8

  /** The 32-bit integers JavaScript's bitwise operators compute on. */
  type Int32 = bv32

  /** A JavaScript string is a sequence of UTF-16 code units. */
  type CodeUnit = bv16

  /** `buffer[i]`: the byte at `i`, or `undefined` past the end of the buffer. */
  function Read(buffer: seq<Byte>, i: nat): Option<Byte> {
    if i < |buffer| then Some(buffer[i]) else None
  }

  /** The ToInt32 conversion applied by `&`: `undefined` becomes 0. */
  function ToInt32(v: Option<Byte>): Int32 {
    match v
    case None => 0
    case Some(b) => b as Int32
  }

  /** `String.fromCharCode(x)`: the argument is reduced modulo 2^16 (ToUint16). */
  function FromCharCode(x: Int32): CodeUnit {
    (x & 0xFFFF) as CodeUnit
  }

  /** The unit built from a two-byte lead `c` and the byte read after it (line 337). */
  function TwoByteUnit(c: Byte, c2: Option<Byte>): CodeUnit {
    FromCharCode(((c as Int32 & 0x1F) << 6) | (ToInt32(c2) & 0x3F))
  }

  /** The unit built from a three-byte lead `c` and the two bytes read after it (line 342). */
  function ThreeByteUnit(c: Byte, c2: Option<Byte>, c3: Option<Byte>): CodeUnit {
    FromCharCode(((c as Int32 & 0x0F) << 12) | ((ToInt32(c2) & 0x3F) << 6) | ((ToInt32(c3) & 0x3F) << 0))
  }

  /** How the `switch (c >> 4)` of line 330 treats a lead byte. */
  datatype Lead = Single | Double | Triple | Ignored

  function Classify(c: Byte): Lead {
    var n := c >> 4;
    if n <= 7 then Single
    else if n == 12 || n == 13 then Double
    else if n == 14 then Triple
    else Ignored
  }

  /** `s` without its first `k` bytes; empty once `k` runs past the end. */
  function Drop<T>(s: seq<T>, k: nat): (r: seq<T>)
    ensures |r| == if k <= |s| then |s| - k else 0
  {
    if k <= |s| then s[k..] else []
  }

  /**
   The 'utf-8' branch (lines 328-345) as a recursive definition over the
   unread suffix of the buffer. Each step emits at most one unit and consumes
   at least one byte, so the output is never longer than the input.
   */
  function Utf8Decode(s: seq<Byte>): (r: seq<CodeUnit>)
    ensures |r| <= |s|
    decreases |s|
  {
    if |s| == 0 then []
    else
      var c := s[0];
      match Classify(c)
      case Single => [FromCharCode(c as Int32)] + Utf8Decode(s[1..])
      case Double => [TwoByteUnit(c, Read(s, 1))] + Utf8Decode(Drop(s, 2))
      case Triple => [ThreeByteUnit(c, Read(s, 1), Read(s, 2))] + Utf8Decode(Drop(s, 3))
      case Ignored => Utf8Decode(s[1..])
  }

  /** The 'ascii' branch (lines 347-350): one unit per byte, equal to the byte. */
  function AsciiDecode(s: seq<Byte>): (r: seq<CodeUnit>)
    ensures |r| == |s|
    ensures forall k :: 0 <= k < |s| ==> r[k] == s[k] as CodeUnit
  {
    if |s| == 0 then [] else [FromCharCode(s[0] as Int32)] + AsciiDecode(s[1..])
  }

  /** `new TextDecoder(encoding).decode(buffer)`: names are compared exactly, and unknown ones give "". */
  function Decode(encoding: string, buffer: seq<Byte>): (r: seq<CodeUnit>)
    ensures encoding == "utf-8" ==> |r| <= |buffer|
    ensures encoding == "ascii" ==> |r| == |buffer| && forall k :: 0 <= k < |buffer| ==> r[k] == buffer[k] as CodeUnit
    ensures encoding != "utf-8" && encoding != "ascii" ==> r == []
  {
    if encoding == "utf-8" then Utf8Decode(buffer)
    else if encoding == "ascii" then AsciiDecode(buffer)
    else []
  }

  /** One turn of the 'utf-8' loop, read off the definition at buffer offset `i`. */
  lemma Utf8Step(buffer: seq<Byte>, i: nat)
    requires i < |buffer|
    ensures Classify(buffer[i]) == Single ==>
      Utf8Decode(Drop(buffer, i)) == [FromCharCode(buffer[i] as Int32)] + Utf8Decode(Drop(buffer, i + 1))
    ensures Classify(buffer[i]) == Double ==>
      Utf8Decode(Drop(buffer, i)) == [TwoByteUnit(buffer[i], Read(buffer, i + 1))] + Utf8Decode(Drop(buffer, i + 2))
    ensures Classify(buffer[i]) == Triple ==>
      Utf8Decode(Drop(buffer, i)) ==
        [ThreeByteUnit(buffer[i], Read(buffer, i + 1), Read(buffer, i + 2))] + Utf8Decode(Drop(buffer, i + 3))
    ensures Classify(buffer[i]) == Ignored ==> Utf8Decode(Drop(buffer, i)) == Utf8Decode(Drop(buffer, i + 1))
  {
    var s := Drop(buffer, i);
    assert s[0] == buffer[i];
    assert Read(s, 1) == Read(buffer, i + 1);
    assert Read(s, 2) == Read(buffer, i + 2);
    assert s[1..] == Drop(buffer, i + 1);
    assert Drop(s, 2) == Drop(buffer, i + 2);
    assert Drop(s, 3) == Drop(buffer, i + 3);
  }

  /**
   One turn of the 'utf-8' loop body (lines 329-344): read the lead byte at
   `i`, switch on its high nibble, read as many further bytes as the case
   asks for (past the end they are `undefined`), and emit at most one unit.
   */
  method Utf8Turn(buffer: seq<Byte>, i: nat) returns (units: seq<CodeUnit>, next: nat)
    requires i < |buffer|
    ensures i < next <= i + 3
    ensures |units| <= 1
    ensures Utf8Decode(Drop(buffer, i)) == units + Utf8Decode(Drop(buffer, next))
  {
    Utf8Step(buffer, i);
    next := i;
    var c := buffer[next];
    next := next + 1;
    var n := c >> 4;
    if n <= 7 {
      assert Classify(c) == Single;
      units := [FromCharCode(c as Int32)];
    } else if n == 12 || n == 13 {
      assert Classify(c) == Double;
      var c2 := Read(buffer, next);
      next := next + 1;
      units := [TwoByteUnit(c, c2)];
    } else if n == 14 {
      assert Classify(c) == Triple;
      var c2 := Read(buffer, next);
      next := next + 1;
      var c3 := Read(buffer, next);
      next := next + 1;
      units := [ThreeByteUnit(c, c2, c3)];
    } else {
      assert Classify(c) == Ignored;
      units := [];
    }
  }

  /**
   The 'utf-8' loop of lines 328-345 as written: the index `i` advances once
   per byte read, so it steps past `|buffer|` when the last sequence is cut off.
   */
  method Utf8Loop(buffer: seq<Byte>) returns (result: seq<CodeUnit>)
    ensures result == Utf8Decode(buffer)
  {
    result := [];
    var length := |buffer|;
    var i: nat := 0;
    while i < length
      invariant result + Utf8Decode(Drop(buffer, i)) == Utf8Decode(buffer)
      decreases length - i
    {
      var units, next := Utf8Turn(buffer, i);
      assert result + Utf8Decode(Drop(buffer, i)) == (result + units) + Utf8Decode(Drop(buffer, next));
      result := result + units;
      i := next;
    }
    assert Drop(buffer, i) == [];
  }

  /** The 'ascii' loop of lines 348-350. */
  method AsciiLoop(buffer: seq<Byte>) returns (result: seq<CodeUnit>)
    ensures result == AsciiDecode(buffer)
  {
    result := [];
    var i: nat := 0;
    while i < |buffer|
      invariant i <= |buffer|
      invariant |result| == i
      invariant forall k :: 0 <= k < i ==> result[k] == buffer[k] as CodeUnit
    {
      result := result + [FromCharCode(buffer[i] as Int32)];
      i := i + 1;
    }
  }

  /** `decode(buffer)` of lines 322-354: the `switch` on the encoding name, with no default. */
  method DecodeBuffer(encoding: string, buffer: seq<Byte>) returns (result: seq<CodeUnit>)
    ensures result == Decode(encoding, buffer)
  {
    result := [];
    if encoding == "utf-8" {
      result := Utf8Loop(buffer);
    } else if encoding == "ascii" {
      result := AsciiLoop(buffer);
    }
  }
}
