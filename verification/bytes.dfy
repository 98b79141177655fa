/** Bytes on the serial links and the sentinel bytes of the scanner protocol. */
module Bytes {

  /** One octet as read from or written to a UART. */
  newtype byte = b: int | 0 <= b < 0x100

  /** Acknowledgement sent by the scanner after an accepted command. */
  const ACK: byte := 0x06
  /** Negative acknowledgement sent by the scanner after a rejected command. */
  const NAK: byte := 0x15
  /** Carriage return: ends every scan record. */
  const CR: byte := 0x0D

  /** True when every character of a text literal is 7-bit ASCII. Stated on the
      characters, not on their bytes: `Ascii` keeps only the low eight bits of a code, so
      only this form tells two literals apart by their bytes. */
  predicate IsAsciiText(s: string) {
    forall i | 0 <= i < |s| :: s[i] as int < 0x80
  }

  /** True when every byte is 7-bit ASCII, as the digits a scanner reports for a bar code. */
  predicate IsAscii(s: seq<byte>) {
    forall i | 0 <= i < |s| :: s[i] < 0x80
  }

  /** The bytes of a byte-string literal such as `b'^_^DEFALT.'`: each character gives
      its code, which for the ASCII text such literals hold is the character itself. */
  function Ascii(s: string): (r: seq<byte>)
    ensures |r| == |s|
  {
    seq(|s|, i requires 0 <= i < |s| => (s[i] as int % 0x100) as byte)
  }

  /** Encoding a concatenation is concatenating the encodings. */
  lemma AsciiAppend(a: string, b: string)
    ensures Ascii(a + b) == Ascii(a) + Ascii(b)
  {
    assert forall i | 0 <= i < |a + b| :: (a + b)[i] == if i < |a| then a[i] else b[i - |a|];
  }

  /** Two ASCII strings with the same encoding are the same string. */
  lemma AsciiInjective(a: string, b: string)
    requires IsAsciiText(a) && IsAsciiText(b)
    requires Ascii(a) == Ascii(b)
    ensures a == b
  {
    assert |a| == |b|;
    forall i | 0 <= i < |a|
      ensures a[i] == b[i]
    {
      assert a[i] as int == Ascii(a)[i] as int == b[i] as int;
    }
  }
}
