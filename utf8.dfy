/** `new TextEncoder().encode(s)`: UTF-8 encoding of a string of Unicode
    scalar values into bytes. */
module Utf8 {

  type byte = x: int | 0 <= x < 0x100

  /** The one-to-four-byte UTF-8 form of one scalar value. */
  function EncodeChar(c: char): (r: seq<byte>)
    ensures 1 <= |r| <= 4
    ensures c as int < 0x80 ==> r == [c as int]
    ensures c as int >= 0x80 ==> forall i :: 0 <= i < |r| ==> r[i] >= 0x80
  {
    var n := c as int;
    if n < 0x80 then [n]
    else if n < 0x800 then [0xC0 + n / 0x40, 0x80 + n % 0x40]
    else if n < 0x1_0000 then [0xE0 + n / 0x1000, 0x80 + (n / 0x40) % 0x40, 0x80 + n % 0x40]
    else [0xF0 + n / 0x4_0000, 0x80 + (n / 0x1000) % 0x40, 0x80 + (n / 0x40) % 0x40, 0x80 + n % 0x40]
  }

  function Encode(s: string): seq<byte> {
    if s == [] then [] else EncodeChar(s[0]) + Encode(s[1..])
  }

  /** Encoding distributes over concatenation, so a text built from parts
      encodes to the bytes of its parts laid end to end. */
  lemma {:induction false} EncodeConcat(a: string, b: string)
    ensures Encode(a + b) == Encode(a) + Encode(b)
  {
    if a == [] {
      assert a + b == b;
    } else {
      assert (a + b)[0] == a[0] && (a + b)[1..] == a[1..] + b;
      EncodeConcat(a[1..], b);
    }
  }

  /** A byte below 0x80 appears in the encoding exactly where its ASCII
      character appears in the text: multi-byte forms use only bytes from
      0x80 up. */
  lemma {:induction false} AsciiByteIn(s: string, c: char)
    requires c as int < 0x80
    ensures (c as int in Encode(s)) <==> (c in s)
  {
    if s != [] {
      AsciiByteIn(s[1..], c);
      var e := EncodeChar(s[0]);
      assert Encode(s) == e + Encode(s[1..]);
      if s[0] as int >= 0x80 {
        assert c as int !in e;
      }
      assert c in s <==> c == s[0] || c in s[1..];
    }
  }
}
