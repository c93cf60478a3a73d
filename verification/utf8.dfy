/**
 * `String.getBytes(StandardCharsets.UTF_8)`: the encoding the server applies to
 * every outgoing message before it is queued. Dafny's `char` is a Unicode scalar
 * value, so there are no unpaired surrogates to replace.
 */
module Utf8 {

  newtype byte = b: int | 0 <= b < 256

  /** The byte that ends a line on the wire: the encoding of '\n'. */
  const LF: byte := 10

  /** The UTF-8 encoding of one scalar value: one to four bytes. */
  function EncodeChar(c: char): (r: seq<byte>)
    ensures 1 <= |r| <= 4
    ensures c as int < 0x80 ==> r == [c as int as byte]
    ensures 0x80 <= c as int ==> forall k :: 0 <= k < |r| ==> 0x80 <= r[k]
    ensures |r| == (if c as int < 0x80 then 1 else if c as int < 0x800 then 2
                    else if c as int < 0x1_0000 then 3 else 4)
  {
    var n := c as int;
    if n < 0x80 then
      [n as byte]
    else if n < 0x800 then
      [(0xC0 + n / 0x40) as byte, (0x80 + n % 0x40) as byte]
    else if n < 0x1_0000 then
      [(0xE0 + n / 0x1000) as byte, (0x80 + n / 0x40 % 0x40) as byte, (0x80 + n % 0x40) as byte]
    else
      [(0xF0 + n / 0x4_0000) as byte, (0x80 + n / 0x1000 % 0x40) as byte,
       (0x80 + n / 0x40 % 0x40) as byte, (0x80 + n % 0x40) as byte]
  }

  /** The UTF-8 encoding of a string, character by character. */
  function Encode(s: string): (r: seq<byte>)
    ensures |s| <= |r| <= 4 * |s|
  {
    if s == [] then [] else EncodeChar(s[0]) + Encode(s[1..])
  }

  /** Encoding distributes over concatenation, so a message's bytes are the
      bytes of its parts, in order. */
  lemma {:induction false} EncodeAppend(a: string, b: string)
    ensures Encode(a + b) == Encode(a) + Encode(b)
  {
    if a == [] {
      assert a + b == b;
    } else {
      assert (a + b)[0] == a[0];
      assert (a + b)[1..] == a[1..] + b;
      EncodeAppend(a[1..], b);
    }
  }

  /** A newline byte occurs in the encoding exactly where the text has a
      newline character: UTF-8 never uses 0x0A inside a multi-byte sequence. */
  lemma {:induction false} EncodeHasLF(s: string)
    ensures LF in Encode(s) <==> '\n' in s
  {
    if s != [] {
      EncodeHasLF(s[1..]);
      var h := EncodeChar(s[0]);
      assert Encode(s) == h + Encode(s[1..]);
      if s[0] == '\n' {
        assert Encode(s)[0] == LF;
      } else {
        assert LF !in h;
        assert '\n' in s <==> '\n' in s[1..] by {
          if '\n' in s {
            var k :| 0 <= k < |s| && s[k] == '\n';
            assert k != 0;
            assert s[1..][k - 1] == '\n';
          }
        }
        assert LF in Encode(s) <==> LF in Encode(s[1..]) by {
          if LF in Encode(s) {
            var k :| 0 <= k < |Encode(s)| && Encode(s)[k] == LF;
            assert k >= |h|;
            assert Encode(s[1..])[k - |h|] == LF;
          }
        }
      }
    }
  }

  /** The last byte of the encoding of a text ending in '\n' is LF, so every
      queued message ends a line on the wire. */
  lemma EncodeEndsWithLF(s: string)
    requires s != [] && s[|s| - 1] == '\n'
    ensures Encode(s) != [] && Encode(s)[|Encode(s)| - 1] == LF
  {
    var init := s[..|s| - 1];
    assert s == init + "\n";
    EncodeAppend(init, "\n");
  }
}
