/**
 * Bytes on the wire: `String.getBytes()` / `new String(bytes)` and the
 * big-endian `putInt`/`getInt`, `putShort`/`getShort` of `java.nio.ByteBuffer`.
 *
 * The platform charset is taken to be ISO-8859-1: one byte per character,
 * and a character above 255 is encoded as `?`, as Java does for unmappable
 * characters.
 */
module Bytes {
  import opened JavaInt

  newtype byte = x: int | 0 <= x < 256

  function EncodeChar(c: char): byte
  {
    if c as int < 256 then c as int as byte else '?' as int as byte
  }

  /** `s.getBytes()`. */
  function Encode(s: string): (r: seq<byte>)
    ensures |r| == |s|
  {
    seq(|s|, i requires 0 <= i < |s| => EncodeChar(s[i]))
  }

  /** `new String(b)`. */
  function Decode(b: seq<byte>): (r: string)
    ensures |r| == |b|
  {
    seq(|b|, i requires 0 <= i < |b| => b[i] as int as char)
  }

  /** Every character of `s` has a one-byte encoding. */
  predicate SingleByte(s: string)
  {
    forall i :: 0 <= i < |s| ==> s[i] as int < 256
  }

  /** Big-endian two's complement encoding of a 32-bit int (`putInt`). */
  function PutInt(x: Int32): seq<byte>
  {
    var u := if x < 0 then x + 0x1_0000_0000 else x;
    [(u / 0x100_0000) as byte, (u / 0x1_0000 % 0x100) as byte,
     (u / 0x100 % 0x100) as byte, (u % 0x100) as byte]
  }

  /** Big-endian two's complement decoding of four bytes (`getInt`). */
  function GetInt(b: seq<byte>): Int32
    requires |b| == 4
  {
    var u := b[0] as int * 0x100_0000 + b[1] as int * 0x1_0000 + b[2] as int * 0x100 + b[3] as int;
    if u >= 0x8000_0000 then u - 0x1_0000_0000 else u
  }

  /** Big-endian two's complement encoding of a 16-bit short (`putShort`). */
  function PutShort(x: Int16): seq<byte>
  {
    var u := if x < 0 then x + 0x1_0000 else x;
    [(u / 0x100) as byte, (u % 0x100) as byte]
  }

  /** Big-endian two's complement decoding of two bytes (`getShort`). */
  function GetShort(b: seq<byte>): Int16
    requires |b| == 2
  {
    var u := b[0] as int * 0x100 + b[1] as int;
    if u >= 0x8000 then u - 0x1_0000 else u
  }

  // ---------------------------------------------------------------------
  // Lemmas
  // ---------------------------------------------------------------------

  /** `new String(s.getBytes())` is `s` for one-byte text. */
  lemma DecodeEncode(s: string)
    requires SingleByte(s)
    ensures Decode(Encode(s)) == s
  {
  }

  /** Any bytes decode to one-byte text that encodes back to them. */
  lemma EncodeDecode(b: seq<byte>)
    ensures SingleByte(Decode(b))
    ensures Encode(Decode(b)) == b
  {
  }

  /** `getInt` reads back what `putInt` wrote. */
  lemma GetPutInt(x: Int32)
    ensures |PutInt(x)| == 4 && GetInt(PutInt(x)) == x
  {
    var u := if x < 0 then x + 0x1_0000_0000 else x;
    var b3 := u % 0x100;
    var v := u / 0x100;
    var b2 := v % 0x100;
    var w := v / 0x100;
    var b1 := w % 0x100;
    var b0 := w / 0x100;
    assert u == v * 0x100 + b3;
    assert v == w * 0x100 + b2;
    assert w == b0 * 0x100 + b1;
    assert u / 0x1_0000 == w;
    assert u / 0x100_0000 == b0;
    assert b0 as int * 0x100_0000 + b1 as int * 0x1_0000 + b2 as int * 0x100 + b3 as int == u;
  }

  /** `putInt` writes back the four bytes `getInt` read. */
  lemma PutGetInt(b: seq<byte>)
    requires |b| == 4
    ensures PutInt(GetInt(b)) == b
  {
    var w := b[0] as int * 0x100 + b[1] as int;
    var v := w * 0x100 + b[2] as int;
    var u := v * 0x100 + b[3] as int;
    assert u == b[0] as int * 0x100_0000 + b[1] as int * 0x1_0000 + b[2] as int * 0x100 + b[3] as int;
    assert u % 0x100 == b[3] as int && u / 0x100 == v;
    assert v % 0x100 == b[2] as int && v / 0x100 == w;
    assert w % 0x100 == b[1] as int && w / 0x100 == b[0] as int;
    assert u / 0x1_0000 == w by {
      assert u == w * 0x1_0000 + (b[2] as int * 0x100 + b[3] as int);
    }
    assert u / 0x100_0000 == b[0] as int by {
      assert u == b[0] as int * 0x100_0000 + (b[1] as int * 0x1_0000 + b[2] as int * 0x100 + b[3] as int);
    }
  }

  /** `getShort` reads back what `putShort` wrote. */
  lemma GetPutShort(x: Int16)
    ensures |PutShort(x)| == 2 && GetShort(PutShort(x)) == x
  {
    var u := if x < 0 then x + 0x1_0000 else x;
    assert u == (u / 0x100) * 0x100 + u % 0x100;
  }
}
