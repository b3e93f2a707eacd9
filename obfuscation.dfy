/** The reversible text transform applied to each stored credential field:
    a constant marker is put in front of the text and the result is
    Base64-encoded; decoding undoes both. Either direction hands back its
    input unchanged when the browser builtin it relies on throws. */
module Obfuscation {
  import opened Wrappers
  import opened JsText
  import Base64

  /** The marker "__SALT__" put in front of every encoded value. */
  const SALT: JSString := Ascii("__SALT__")

  /** `btoa`: throws (None) when a unit is above 0xFF, otherwise the
      Base64 encoding of the units taken as bytes. */
  function BtoA(s: JSString): (r: Option<JSString>)
    ensures r.Some? <==> IsLatin1(s)
  {
    if IsLatin1(s) then Some(Base64.Encode(ToBytes(s))) else None
  }

  /** `atob`: throws (None) when forgiving-base64 decode fails, otherwise
      the decoded bytes as a binary string. */
  function AtoB(s: JSString): (r: Option<JSString>)
    ensures r.Some? ==> IsLatin1(r.value)
  {
    match Base64.ForgivingDecode(s)
    case None => None
    case Some(b) => Some(FromBytes(b))
  }

  /** `decryptedText.replace(/^__SALT__/, '')`: the marker is removed once,
      and only where it starts the text. */
  function StripSalt(s: JSString): (r: JSString)
    ensures SALT <= s ==> SALT + r == s
    ensures !(SALT <= s) ==> r == s
  {
    if SALT <= s then s[|SALT|..] else s
  }

  /** `simpleEncrypt`: btoa of the marked text, or the text itself when
      btoa throws. A binary string gives a binary string of 4 * ceil((n + 8) / 3)
      units; a text with a unit above 0xFF is returned unchanged. */
  function SimpleEncrypt(text: JSString): (r: JSString)
    ensures IsLatin1(text) ==> IsLatin1(r) && |r| == 4 * ((|text| + 8 + 2) / 3)
    ensures !IsLatin1(text) ==> r == text
  {
    MarkedLatin1(text);
    match BtoA(SALT + text)
    case Some(encoded) => encoded
    case None => text
  }

  /** `simpleDecrypt`: the decoded text without its marker, or the input
      itself when atob throws -- as it does for any input holding a unit
      above 0xFF. A decoded result is a binary string of at most three units
      per four of input. */
  function SimpleDecrypt(encryptedText: JSString): (r: JSString)
    ensures AtoB(encryptedText).None? ==> r == encryptedText
    ensures !IsLatin1(encryptedText) ==> r == encryptedText
    ensures AtoB(encryptedText).Some? ==> IsLatin1(r) && |r| * 4 <= |encryptedText| * 3
  {
    match AtoB(encryptedText)
    case Some(decoded) => StripSalt(decoded)
    case None => encryptedText
  }

  /** The marker's code units, spelled out. */
  lemma SaltUnits()
    ensures SALT == [0x5F, 0x5F, 0x53, 0x41, 0x4C, 0x54, 0x5F, 0x5F]
  {
  }

  /** The marked text is a binary string exactly when the text is. */
  lemma MarkedLatin1(text: JSString)
    ensures IsLatin1(SALT + text) <==> IsLatin1(text)
  {
    var m := SALT + text;
    if IsLatin1(m) {
      forall i | 0 <= i < |text| ensures text[i] <= 0xFF {
        assert m[|SALT| + i] == text[i];
      }
    }
  }

  /** btoa then atob gives back any binary string. */
  lemma AtoBOfBtoA(s: JSString)
    requires IsLatin1(s)
    ensures AtoB(BtoA(s).value) == Some(s)
  {
    var b := ToBytes(s);
    Base64.DecodeEncode(b);
    assert BtoA(s) == Some(Base64.Encode(b));
    Latin1RoundTrip(s);
    assert AtoB(Base64.Encode(b)) == Some(FromBytes(b));
  }

  /** Round trip: decrypting what was encrypted gives back the text, for
      every text -- one that itself starts with the marker (only one marker
      is removed) and one with a unit above 0xFF (stored raw, and rejected
      by atob, so returned raw) included. */
  lemma RoundTrip(text: JSString)
    ensures SimpleDecrypt(SimpleEncrypt(text)) == text
  {
    MarkedLatin1(text);
    if IsLatin1(text) {
      AtoBOfBtoA(SALT + text);
      assert (SALT + text)[|SALT|..] == text;
    }
  }

  /** Distinct texts are stored as distinct values. */
  lemma EncryptInjective(t1: JSString, t2: JSString)
    requires SimpleEncrypt(t1) == SimpleEncrypt(t2)
    ensures t1 == t2
  {
    RoundTrip(t1);
    RoundTrip(t2);
  }

  /** For a binary string, the stored value is the RFC 4648 Base64 encoding
      of the marked text: only alphabet symbols and trailing '='. */
  lemma EncryptShape(text: JSString)
    requires IsLatin1(text)
    ensures SimpleEncrypt(text) == Base64.Encode(ToBytes(SALT + text))
    ensures forall i :: 0 <= i < |SimpleEncrypt(text)| ==>
              Base64.IsSymbol(SimpleEncrypt(text)[i]) || SimpleEncrypt(text)[i] == Base64.PAD
  {
    MarkedLatin1(text);
  }

  /** atob('') is '', so the empty string decrypts to itself. */
  lemma DecryptEmpty()
    ensures SimpleDecrypt([]) == []
  {
    assert Base64.RemoveWhitespace([]) == [];
    assert Base64.ForgivingDecode([]) == Some([]);
  }

  /** A successful decode loses the marker only if it starts the decoded
      text; otherwise the decoded text is the result. */
  lemma DecryptStripsOnce(encryptedText: JSString, decoded: JSString)
    requires AtoB(encryptedText) == Some(decoded)
    ensures SALT <= decoded ==> SALT + SimpleDecrypt(encryptedText) == decoded
    ensures !(SALT <= decoded) ==> SimpleDecrypt(encryptedText) == decoded
  {
  }

  /** The marker is removed once: a text that starts with it twice keeps one. */
  lemma StripSaltOnce(text: JSString)
    ensures StripSalt(SALT + SALT + text) == SALT + text
  {
    assert (SALT + SALT + text)[|SALT|..] == SALT + text;
  }

  /** A plain value that happens to be valid Base64 is not handed back:
      "abcd" decodes to three bytes. */
  lemma PlainBase64TextIsDecoded()
    ensures SimpleDecrypt(Ascii("abcd")) != Ascii("abcd")
  {
    var s := Ascii("abcd");
    assert s == [0x61, 0x62, 0x63, 0x64];
    DecodesAbcd(s);
    assert |SimpleDecrypt(s)| <= 3;
  }

  /** The decoder accepts the four symbols "abcd". */
  lemma DecodesAbcd(s: JSString)
    requires s == [0x61, 0x62, 0x63, 0x64]
    ensures AtoB(s).Some?
  {
    assert Base64.IsSymbol(s[0]) && Base64.IsSymbol(s[1]) && Base64.IsSymbol(s[2]) && Base64.IsSymbol(s[3]);
    assert Base64.AllSymbols(s);
    assert !Base64.IsAsciiWhitespace(s[0]) && !Base64.IsAsciiWhitespace(s[1]);
    assert !Base64.IsAsciiWhitespace(s[2]) && !Base64.IsAsciiWhitespace(s[3]);
    assert Base64.RemoveWhitespace(s) == s;
    assert Base64.RemovePadding(s) == s;
  }
}
