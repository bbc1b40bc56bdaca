/**
 * UTF-8, the encoding Node uses for `socket.write(string)`,
 * `Buffer.byteLength(s, "utf8")` and `buffer.toString("utf-8")`.
 * Characters are Unicode scalar values, as Dafny's `char` is.
 */
module Utf8 {

  type Byte = b: int | 0 <= b < 256

  /** Number of bytes UTF-8 spends on `c`, by code-point range. */
  function CharWidth(c: char): nat {
    var n := c as int;
    if n < 0x80 then 1 else if n < 0x800 then 2 else if n < 0x10000 then 3 else 4
  }

  /** `Buffer.byteLength(s, "utf8")`. */
  function Utf8Length(s: string): nat {
    if s == [] then 0 else CharWidth(s[0]) + Utf8Length(s[1..])
  }

  predicate IsAscii(s: string) {
    forall i :: 0 <= i < |s| ==> s[i] as int < 0x80
  }

  /** The UTF-8 encoding of one character: a lead byte and its continuation bytes. */
  function EncodeChar(c: char): (bs: seq<Byte>)
    ensures |bs| == CharWidth(c)
    ensures c as int < 0x80 ==> bs == [c as int]
  {
    var n := c as int;
    if n < 0x80 then [n]
    else if n < 0x800 then [0xC0 + n / 0x40, 0x80 + n % 0x40]
    else if n < 0x10000 then [0xE0 + n / 0x1000, 0x80 + (n / 0x40) % 0x40, 0x80 + n % 0x40]
    else [0xF0 + n / 0x40000, 0x80 + (n / 0x1000) % 0x40, 0x80 + (n / 0x40) % 0x40, 0x80 + n % 0x40]
  }

  /** The UTF-8 encoding of a string, character by character. */
  function Encode(s: string): seq<Byte> {
    if s == [] then [] else EncodeChar(s[0]) + Encode(s[1..])
  }

  /** The encoding is as long as `Buffer.byteLength` says. */
  lemma {:induction false} EncodeLength(s: string)
    ensures |Encode(s)| == Utf8Length(s)
  {
    if s != [] {
      EncodeLength(s[1..]);
    }
  }

  /** Encoding distributes over concatenation. */
  lemma {:induction false} EncodeAppend(a: string, b: string)
    ensures Encode(a + b) == Encode(a) + Encode(b)
  {
    if a == [] {
      assert a + b == b;
    } else {
      assert (a + b)[1..] == a[1..] + b;
      EncodeAppend(a[1..], b);
    }
  }

  /** Byte length distributes over concatenation. */
  lemma Utf8LengthAppend(a: string, b: string)
    ensures Utf8Length(a + b) == Utf8Length(a) + Utf8Length(b)
  {
    EncodeAppend(a, b);
    EncodeLength(a);
    EncodeLength(b);
    EncodeLength(a + b);
  }

  /**
   * A string takes at least one byte per character, and exactly one byte per
   * character if and only if it is ASCII.
   */
  lemma {:induction false} Utf8LengthBounds(s: string)
    ensures Utf8Length(s) >= |s|
    ensures Utf8Length(s) == |s| <==> IsAscii(s)
  {
    if s != [] {
      Utf8LengthBounds(s[1..]);
      if IsAscii(s[1..]) && s[0] as int < 0x80 {
        forall i | 0 <= i < |s| ensures s[i] as int < 0x80 {
          if i > 0 { assert s[i] == s[1..][i - 1]; }
        }
      }
      if IsAscii(s) {
        assert forall i :: 0 <= i < |s| - 1 ==> s[1..][i] == s[i + 1];
      }
    }
  }
}
