/** `s2ab`: copies a string into a freshly allocated byte buffer, one
    byte per character, keeping the low eight bits of each character
    code. The spreadsheet writer hands it a "binary" string, whose
    characters all have codes below 256, so nothing is lost there. */
module Bytes {

  /** An element of a `Uint8Array`. */
  newtype Byte = b: int | 0 <= b < 256

  /** `s.charCodeAt(i) & 0xff` for the character `c` at index `i`. A
      character code is never negative, and on a non-negative number the
      bitwise and with 0xff keeps exactly the remainder modulo 256. */
  function LowByte(c: char): (b: Byte)
    ensures (c as int - b as int) % 256 == 0
    ensures c as int < 256 ==> b as int == c as int
  {
    (c as int % 256) as Byte
  }

  /** The buffer `s2ab(s)` holds, as a sequence: the low byte of each
      character, in order. */
  function LowBytes(s: string): (r: seq<Byte>)
    ensures |r| == |s|
  {
    if s == [] then [] else [LowByte(s[0])] + LowBytes(s[1..])
  }

  /** One byte per character: the buffer has the string's length and byte
      `i` is the low byte of character `i`. */
  lemma {:induction false} LowBytesAt(s: string)
    ensures |LowBytes(s)| == |s|
    ensures forall i :: 0 <= i < |s| ==> LowBytes(s)[i] == LowByte(s[i])
  {
    if s != [] {
      LowBytesAt(s[1..]);
    }
  }

  /** A "binary" string: every character code fits in a byte. */
  predicate IsBinaryString(s: string) {
    forall i :: 0 <= i < |s| ==> s[i] as int < 256
  }

  /** The string whose character codes are the given bytes. */
  function BytesToString(bytes: seq<Byte>): string {
    seq(|bytes|, i requires 0 <= i < |bytes| => bytes[i] as int as char)
  }

  /** On a binary string the conversion loses nothing: reading the bytes
      back as character codes gives the string again. */
  lemma BinaryStringRoundTrip(s: string)
    requires IsBinaryString(s)
    ensures BytesToString(LowBytes(s)) == s
  {
    LowBytesAt(s);
  }

  /** `s2ab(s)`: allocates a buffer of `s.length` bytes, zero-filled like a
      new `ArrayBuffer`, and writes the low byte of every character code
      into it through a `Uint8Array` view. */
  method StringToArrayBuffer(s: string) returns (buf: array<Byte>)
    ensures fresh(buf)
    ensures buf[..] == LowBytes(s)
  {
    buf := new Byte[|s|];
    LowBytesAt(s);
    for i := 0 to |s|
      invariant forall k :: 0 <= k < i ==> buf[k] == LowByte(s[k])
    {
      buf[i] := LowByte(s[i]);
    }
  }
}
