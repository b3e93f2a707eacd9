/** JavaScript text as the browser stores it: a string is a sequence of
    UTF-16 code units, and a "binary string" is one whose every unit is at
    most 0xFF (one Latin-1 byte per unit). */
module JsText {

  /** One UTF-16 code unit. */
  type CodeUnit = x: int | 0 <= x < 0x1_0000

  /** One octet. */
  type Byte = x: int | 0 <= x < 0x100

  /** A JavaScript string value. */
  type JSString = seq<CodeUnit>

  /** True of a binary string: every unit fits in one byte. */
  predicate IsLatin1(s: JSString) {
    forall i :: 0 <= i < |s| ==> s[i] <= 0xFF
  }

  /** The bytes of a binary string, one per code unit. */
  function ToBytes(s: JSString): (b: seq<Byte>)
    requires IsLatin1(s)
    ensures |b| == |s|
    ensures forall i :: 0 <= i < |s| ==> b[i] == s[i]
  {
    seq(|s|, i requires 0 <= i < |s| => s[i] as Byte)
  }

  /** The binary string whose units are the given bytes. */
  function FromBytes(b: seq<Byte>): (s: JSString)
    ensures |s| == |b|
    ensures forall i :: 0 <= i < |b| ==> s[i] == b[i]
    ensures IsLatin1(s)
  {
    seq(|b|, i requires 0 <= i < |b| => b[i] as CodeUnit)
  }

  /** Converting a binary string to bytes and back loses nothing. */
  lemma Latin1RoundTrip(s: JSString)
    requires IsLatin1(s)
    ensures FromBytes(ToBytes(s)) == s
  {
  }

  /** A string literal written in ASCII, as the code units JavaScript gives it. */
  function Ascii(s: string): (r: JSString)
    requires forall i :: 0 <= i < |s| ==> s[i] as int < 0x80
    ensures |r| == |s|
    ensures forall i :: 0 <= i < |s| ==> r[i] == s[i] as int
  {
    seq(|s|, i requires 0 <= i < |s| => s[i] as int as CodeUnit)
  }
}
