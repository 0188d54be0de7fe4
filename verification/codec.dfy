/**
 * The text-to-bytes side of a log entry: the `key:value;` framing, the UTF-8
 * bytes that are appended to a segment, and the length Java's
 * `String.length()` reports (UTF-16 code units), which is what the store
 * records as the entry's size.
 */
module Codec {

  newtype byte = b: int | 0 <= b < 256

  /** The log entry for one write: key, a colon, the value and a semicolon. */
  function EntryText(key: string, value: string): (r: string)
    ensures |r| == |key| + |value| + 2
    ensures r[..|key|] == key && r[|key|] == ':'
    ensures r[|key| + 1..|r| - 1] == value && r[|r| - 1] == ';'
  {
    key + ":" + value + ";"
  }

  predicate IsAsciiChar(c: char) {
    c as int < 0x80
  }

  predicate IsAscii(s: string) {
    forall i :: 0 <= i < |s| ==> IsAsciiChar(s[i])
  }

  /** The UTF-8 encoding of one Unicode scalar value. */
  function EncodeChar(c: char): (r: seq<byte>)
    ensures |r| == 1 <==> IsAsciiChar(c)
    ensures 1 <= |r| <= 4
    ensures |r| == 4 <==> c as int >= 0x10000
  {
    var n := c as int;
    if n < 0x80 then
      [n as byte]
    else if n < 0x800 then
      [(0xC0 + n / 0x40) as byte, (0x80 + n % 0x40) as byte]
    else if n < 0x10000 then
      [(0xE0 + n / 0x1000) as byte, (0x80 + n / 0x40 % 0x40) as byte, (0x80 + n % 0x40) as byte]
    else
      [(0xF0 + n / 0x40000) as byte, (0x80 + n / 0x1000 % 0x40) as byte,
       (0x80 + n / 0x40 % 0x40) as byte, (0x80 + n % 0x40) as byte]
  }

  /** The UTF-8 encoding of a string, as `getBytes(UTF_8)` produces it. */
  function Utf8(s: string): (r: seq<byte>)
    ensures |r| >= |s|
    ensures s == [] <==> r == []
  {
    if s == [] then [] else EncodeChar(s[0]) + Utf8(s[1..])
  }

  /** The number of UTF-16 code units of a string: `String.length()`. */
  function Utf16Length(s: string): (r: nat)
    ensures |s| <= r <= 2 * |s|
  {
    if s == [] then 0
    else (if s[0] as int < 0x10000 then 1 else 2) + Utf16Length(s[1..])
  }

  lemma {:induction false} Utf8Append(a: string, b: string)
    ensures Utf8(a + b) == Utf8(a) + Utf8(b)
    decreases |a|
  {
    if a == [] {
      assert a + b == b;
    } else {
      assert (a + b)[0] == a[0];
      assert (a + b)[1..] == a[1..] + b;
      Utf8Append(a[1..], b);
    }
  }

  /**
   * The size Java reports never exceeds the UTF-8 byte count, and the two
   * agree exactly when the string is pure ASCII.
   */
  lemma {:induction false} Utf16LengthVersusUtf8(s: string)
    ensures Utf16Length(s) <= |Utf8(s)|
    ensures Utf16Length(s) == |Utf8(s)| <==> IsAscii(s)
    decreases |s|
  {
    if s != [] {
      Utf16LengthVersusUtf8(s[1..]);
      assert IsAscii(s) <==> IsAsciiChar(s[0]) && IsAscii(s[1..]) by {
        if IsAsciiChar(s[0]) && IsAscii(s[1..]) {
          forall i | 0 <= i < |s|
            ensures IsAsciiChar(s[i])
          {
            if i > 0 {
              assert s[i] == s[1..][i - 1];
            }
          }
        }
      }
    }
  }

  /** ASCII text encodes to one byte per character, namely its code. */
  lemma {:induction false} AsciiEncodesBytewise(s: string)
    requires IsAscii(s)
    ensures |Utf8(s)| == |s|
    ensures forall i :: 0 <= i < |s| ==> Utf8(s)[i] as int == s[i] as int
    decreases |s|
  {
    if s != [] {
      AsciiEncodesBytewise(s[1..]);
    }
  }
}
