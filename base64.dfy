/** The Base64 encoding of section 4 of RFC 4648, as the browser's `btoa`
    produces it, and the "forgiving-base64 decode" of the WHATWG HTML
    standard, as the browser's `atob` applies it. */
module Base64 {
  import opened Wrappers
  import opened JsText

  // Code units of the characters the codec treats specially.
  const PLUS: CodeUnit := 0x2B
  const SLASH: CodeUnit := 0x2F
  const PAD: CodeUnit := 0x3D

  /** A symbol of the 64-character alphabet: A-Z, a-z, 0-9, '+', '/'. */
  predicate IsSymbol(c: CodeUnit) {
    || (0x41 <= c <= 0x5A)
    || (0x61 <= c <= 0x7A)
    || (0x30 <= c <= 0x39)
    || c == PLUS
    || c == SLASH
  }

  /** The 6-bit value a symbol stands for (Table 1 of RFC 4648). */
  function SymbolValue(c: CodeUnit): (v: int)
    requires IsSymbol(c)
    ensures 0 <= v < 64
  {
    if 0x41 <= c <= 0x5A then c - 0x41
    else if 0x61 <= c <= 0x7A then c - 0x61 + 26
    else if 0x30 <= c <= 0x39 then c - 0x30 + 52
    else if c == PLUS then 62
    else 63
  }

  /** The symbol for a 6-bit value; the table is a bijection. */
  function Symbol(v: int): (c: CodeUnit)
    requires 0 <= v < 64
    ensures IsSymbol(c) && SymbolValue(c) == v
  {
    if v < 26 then 0x41 + v
    else if v < 52 then 0x61 + (v - 26)
    else if v < 62 then 0x30 + (v - 52)
    else if v == 62 then PLUS
    else SLASH
  }

  /** Every symbol is the one its value names. */
  lemma SymbolOfValue(c: CodeUnit)
    requires IsSymbol(c)
    ensures Symbol(SymbolValue(c)) == c
  {
  }

  /** All units of `s` are alphabet symbols. */
  predicate AllSymbols(s: JSString) {
    forall i :: 0 <= i < |s| ==> IsSymbol(s[i])
  }

  // ---------------------------------------------------------------------
  // Encoding (section 4 of RFC 4648)
  // ---------------------------------------------------------------------

  /** The symbols of the encoding without its trailing '=' padding: each
      24-bit group of three bytes gives four symbols; a final group of one
      or two bytes is filled out with zero bits to two or three symbols. */
  function EncodeBody(b: seq<Byte>): (r: JSString)
    decreases |b|
  {
    if |b| == 0 then []
    else if |b| == 1 then EncodeGroup(b[0], 0, 0)[..2]
    else if |b| == 2 then EncodeGroup(b[0], b[1], 0)[..3]
    else EncodeGroup(b[0], b[1], b[2]) + EncodeBody(b[3..])
  }

  /** The four symbols of one 24-bit group of three bytes, six bits each,
      most significant first. */
  function EncodeGroup(b0: Byte, b1: Byte, b2: Byte): (g: JSString)
  {
    [Symbol(b0 / 4), Symbol((b0 % 4) * 16 + b1 / 16),
     Symbol((b1 % 16) * 4 + b2 / 64), Symbol(b2 % 64)]
  }

  /** The '=' characters that complete the last quantum of `n` bytes. */
  function Padding(n: nat): (r: JSString)
  {
    if n % 3 == 1 then [PAD, PAD] else if n % 3 == 2 then [PAD] else []
  }

  /** The padded Base64 encoding of a byte sequence: 4 * ceil(n/3) units,
      all from the alphabet except one or two final '='. */
  function Encode(b: seq<Byte>): (r: JSString)
    ensures |r| == 4 * ((|b| + 2) / 3)
    ensures |r| % 4 == 0
    ensures forall i :: 0 <= i < |r| ==> IsSymbol(r[i]) || (r[i] == PAD && i >= |r| - 2)
  {
    PaddedShape(b);
    EncodeBody(b) + Padding(|b|)
  }

  /** The unpadded body has ceil(4n/3) symbols, all from the alphabet. */
  lemma {:induction false} EncodeBodyShape(b: seq<Byte>)
    ensures |EncodeBody(b)| == (4 * |b| + 2) / 3
    ensures AllSymbols(EncodeBody(b))
    decreases |b|
  {
    if |b| >= 3 {
      EncodeBodyShape(b[3..]);
    }
  }

  /** The body followed by its padding is 4 * ceil(n/3) long; the '='
      appear only as the final one or two characters. */
  lemma PaddedShape(b: seq<Byte>)
    ensures |EncodeBody(b) + Padding(|b|)| == 4 * ((|b| + 2) / 3)
    ensures forall i :: 0 <= i < |EncodeBody(b) + Padding(|b|)| ==>
              IsSymbol((EncodeBody(b) + Padding(|b|))[i]) ||
              ((EncodeBody(b) + Padding(|b|))[i] == PAD && i >= |EncodeBody(b) + Padding(|b|)| - 2)
  {
    EncodeBodyShape(b);
    PaddedLength(|b|);
    var e, body := EncodeBody(b) + Padding(|b|), EncodeBody(b);
    forall i | 0 <= i < |e|
      ensures IsSymbol(e[i]) || (e[i] == PAD && i >= |e| - 2)
    {
      if i < |body| {
        assert e[i] == body[i];
      }
    }
  }

  /** The body's length plus the padding's is 4 * ceil(n/3). */
  lemma PaddedLength(n: nat)
    ensures (4 * n + 2) / 3 + |Padding(n)| == 4 * ((n + 2) / 3)
  {
    var q, r := n / 3, n % 3;
    assert n == 3 * q + r;
    if r == 0 {
      assert (4 * n + 2) / 3 == 4 * q;
      assert (n + 2) / 3 == q;
    } else if r == 1 {
      assert (4 * n + 2) / 3 == 4 * q + 2;
      assert (n + 2) / 3 == q + 1;
    } else {
      assert (4 * n + 2) / 3 == 4 * q + 3;
      assert (n + 2) / 3 == q + 1;
    }
  }

  // ---------------------------------------------------------------------
  // Decoding (forgiving-base64 decode of the WHATWG HTML standard)
  // ---------------------------------------------------------------------

  /** ASCII whitespace: TAB, LF, FF, CR and SPACE. */
  predicate IsAsciiWhitespace(c: CodeUnit) {
    c == 0x09 || c == 0x0A || c == 0x0C || c == 0x0D || c == 0x20
  }

  /** `s` with every ASCII whitespace unit removed, the rest kept in order. */
  function RemoveWhitespace(s: JSString): (r: JSString)
    ensures |r| <= |s|
    ensures forall i :: 0 <= i < |r| ==> !IsAsciiWhitespace(r[i])
    ensures forall i :: 0 <= i < |s| && !IsAsciiWhitespace(s[i]) ==> s[i] in r
    ensures forall i :: 0 <= i < |r| ==> r[i] in s
    ensures (forall i :: 0 <= i < |s| ==> !IsAsciiWhitespace(s[i])) ==> r == s
    ensures |s| == 1 ==> r == if IsAsciiWhitespace(s[0]) then [] else s
  {
    if s == [] then []
    else if IsAsciiWhitespace(s[0]) then RemoveWhitespace(s[1..])
    else [s[0]] + RemoveWhitespace(s[1..])
  }

  /** Removal works piece by piece: together with the one-unit case this
      makes RemoveWhitespace the order-keeping filter of non-whitespace. */
  lemma {:induction false} RemoveWhitespaceConcat(a: JSString, b: JSString)
    ensures RemoveWhitespace(a + b) == RemoveWhitespace(a) + RemoveWhitespace(b)
    decreases |a|
  {
    if a != [] {
      RemoveWhitespaceConcat(a[1..], b);
      assert (a + b)[1..] == a[1..] + b;
    } else {
      assert a + b == b;
    }
  }

  /** When the length is a multiple of four, one or two trailing '=' are
      dropped; otherwise nothing is. */
  function RemovePadding(d: JSString): (r: JSString)
    ensures r <= d
    ensures |d| - 2 <= |r|
    ensures forall i :: |r| <= i < |d| ==> d[i] == PAD
    ensures |d| % 4 != 0 ==> r == d
  {
    if |d| % 4 == 0 && |d| >= 2 && d[|d| - 2] == PAD && d[|d| - 1] == PAD then d[..|d| - 2]
    else if |d| % 4 == 0 && |d| >= 1 && d[|d| - 1] == PAD then d[..|d| - 1]
    else d
  }

  /** The bytes of an unpadded run of symbols: every four symbols give
      three bytes; a final two or three symbols give one or two bytes, the
      leftover 4 or 2 bits being discarded whatever their value. */
  function DecodeSymbols(d: JSString): (b: seq<Byte>)
    requires AllSymbols(d) && |d| % 4 != 1
    ensures |b| == |d| * 3 / 4
    decreases |d|
  {
    if |d| == 0 then []
    else if |d| == 2 then
      [SymbolValue(d[0]) * 4 + SymbolValue(d[1]) / 16]
    else if |d| == 3 then
      [SymbolValue(d[0]) * 4 + SymbolValue(d[1]) / 16,
       (SymbolValue(d[1]) % 16) * 16 + SymbolValue(d[2]) / 4]
    else
      [SymbolValue(d[0]) * 4 + SymbolValue(d[1]) / 16,
       (SymbolValue(d[1]) % 16) * 16 + SymbolValue(d[2]) / 4,
       (SymbolValue(d[2]) % 4) * 64 + SymbolValue(d[3])]
      + DecodeSymbols(d[4..])
  }

  /** Forgiving-base64 decode: None is the "failure" that makes `atob`
      throw. */
  function ForgivingDecode(s: JSString): (r: Option<seq<Byte>>)
    ensures !IsLatin1(s) ==> r.None?
    ensures r.Some? ==> |r.value| * 4 <= |s| * 3
  {
    NonLatin1Survives(s);
    var d := RemovePadding(RemoveWhitespace(s));
    if |d| % 4 == 1 then None
    else if !AllSymbols(d) then None
    else Some(DecodeSymbols(d))
  }

  // ---------------------------------------------------------------------
  // Properties
  // ---------------------------------------------------------------------

  /** Splitting three bytes into four 6-bit values and joining them again
      gives the bytes back; the same holds for the first one or two bytes of
      a short final group. */
  lemma GroupRoundTrip(b0: Byte, b1: Byte, b2: Byte)
    ensures AllSymbols(EncodeGroup(b0, b1, b2))
    ensures DecodeSymbols(EncodeGroup(b0, b1, b2)) == [b0, b1, b2]
    ensures DecodeSymbols(EncodeGroup(b0, b1, b2)[..3])[0] == b0
    ensures DecodeSymbols(EncodeGroup(b0, b1, b2)[..3])[1] == b1
    ensures DecodeSymbols(EncodeGroup(b0, b1, b2)[..2])[0] == b0
  {
    var g := EncodeGroup(b0, b1, b2);
    var v0, v1, v2, v3 := b0 / 4, (b0 % 4) * 16 + b1 / 16, (b1 % 16) * 4 + b2 / 64, b2 % 64;
    assert SymbolValue(g[0]) == v0 && SymbolValue(g[1]) == v1;
    assert SymbolValue(g[2]) == v2 && SymbolValue(g[3]) == v3;
    assert v0 * 4 + v1 / 16 == b0;
    assert (v1 % 16) * 16 + v2 / 4 == b1;
    assert (v2 % 4) * 64 + v3 == b2;
    assert g[4..] == [];
  }

  /** Decoding works group by group. */
  lemma DecodeSymbolsGroup(g: JSString, rest: JSString)
    requires |g| == 4 && AllSymbols(g) && AllSymbols(rest) && |rest| % 4 != 1
    ensures AllSymbols(g + rest) && |g + rest| % 4 != 1
    ensures DecodeSymbols(g + rest) == DecodeSymbols(g) + DecodeSymbols(rest)
  {
    var d := g + rest;
    assert d[4..] == rest;
    assert g[4..] == [];
  }

  /** Decoding the unpadded body of an encoding gives back the bytes. */
  lemma {:induction false} DecodeEncodeBody(b: seq<Byte>)
    ensures AllSymbols(EncodeBody(b)) && |EncodeBody(b)| % 4 != 1
    ensures DecodeSymbols(EncodeBody(b)) == b
    decreases |b|
  {
    EncodeBodyShape(b);
    if |b| >= 3 {
      DecodeEncodeBody(b[3..]);
      GroupRoundTrip(b[0], b[1], b[2]);
      EncodeBodyShape(b[3..]);
      DecodeSymbolsGroup(EncodeGroup(b[0], b[1], b[2]), EncodeBody(b[3..]));
      assert b == [b[0], b[1], b[2]] + b[3..];
    } else if |b| == 2 {
      GroupRoundTrip(b[0], b[1], 0);
    } else if |b| == 1 {
      GroupRoundTrip(b[0], 0, 0);
    }
  }

  /** The encoding holds no whitespace. */
  lemma EncodingHasNoWhitespace(b: seq<Byte>)
    ensures RemoveWhitespace(Encode(b)) == Encode(b)
  {
    var e := Encode(b);
    forall i | 0 <= i < |e| ensures !IsAsciiWhitespace(e[i]) {
    }
  }

  /** Removing the padding of the encoding leaves its body. */
  lemma RemovePaddingOfEncoding(b: seq<Byte>)
    ensures RemovePadding(Encode(b)) == EncodeBody(b)
  {
    EncodeBodyShape(b);
    var e, body := Encode(b), EncodeBody(b);
    assert e == body + Padding(|b|);
    if |b| % 3 == 0 {
      assert e == body;
      if |e| >= 1 {
        assert IsSymbol(e[|e| - 1]);
      }
    } else if |b| % 3 == 1 {
      assert e[..|e| - 2] == body;
    } else {
      assert e[|e| - 2] == body[|body| - 1];
      assert e[..|e| - 1] == body;
    }
  }

  /** Decoding an encoding gives back the bytes: atob(btoa(x)) == x. */
  lemma DecodeEncode(b: seq<Byte>)
    ensures ForgivingDecode(Encode(b)) == Some(b)
  {
    EncodingHasNoWhitespace(b);
    RemovePaddingOfEncoding(b);
    DecodeEncodeBody(b);
  }

  /** The forgiving decoder also accepts an encoding without its padding. */
  lemma DecodeUnpadded(b: seq<Byte>)
    ensures ForgivingDecode(EncodeBody(b)) == Some(b)
  {
    DecodeEncodeBody(b);
    var body := EncodeBody(b);
    assert RemoveWhitespace(body) == body by {
      forall i | 0 <= i < |body| ensures !IsAsciiWhitespace(body[i]) {
      }
    }
    if |body| % 4 == 0 && |body| >= 1 {
      assert IsSymbol(body[|body| - 1]);
    }
  }

  /** ASCII whitespace anywhere in the input is ignored. */
  lemma DecodeIgnoresWhitespace(s: JSString)
    ensures ForgivingDecode(s) == ForgivingDecode(RemoveWhitespace(s))
  {
  }

  /** A unit above 0xFF is neither whitespace nor '=', so it survives the
      first two steps of the decoder, where the alphabet check rejects it. */
  lemma NonLatin1Survives(s: JSString)
    ensures !IsLatin1(s) ==> !AllSymbols(RemovePadding(RemoveWhitespace(s)))
  {
    if !IsLatin1(s) {
      var j :| 0 <= j < |s| && s[j] > 0xFF;
      var w := RemoveWhitespace(s);
      assert s[j] in w;
      var k :| 0 <= k < |w| && w[k] == s[j];
      var d := RemovePadding(w);
      assert k < |d| && d[k] == w[k];
      assert !IsSymbol(d[k]);
    }
  }
}
