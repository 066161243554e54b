/**
 * The browser client's hexadecimal mode. Sending strips all whitespace,
 * splits the rest into two-character chunks and parses each in base 16 into a
 * `Uint8Array`; receiving shows each byte as two upper-case hexadecimal
 * digits, separated by single spaces.
 */
module Hex {

  import opened Wrappers
  import opened Js

  /** `text.replace(/\s+/g, '')`. */
  function StripWhitespace(text: string): (r: string)
    ensures |r| <= |text|
    ensures forall i :: 0 <= i < |r| ==> !IsWhitespace(r[i])
    ensures (forall i :: 0 <= i < |text| ==> !IsWhitespace(text[i])) ==> r == text
    ensures r == [] <==> forall i :: 0 <= i < |text| ==> IsWhitespace(text[i])
  {
    if text == [] then []
    else (if IsWhitespace(text[0]) then [] else [text[0]]) + StripWhitespace(text[1..])
  }

  lemma {:induction false} StripWhitespaceAppend(a: string, b: string)
    ensures StripWhitespace(a + b) == StripWhitespace(a) + StripWhitespace(b)
  {
    if a == [] {
      assert a + b == b;
    } else {
      assert (a + b)[1..] == a[1..] + b;
      StripWhitespaceAppend(a[1..], b);
    }
  }

  /**
   * `h.match(/.{1,2}/g)` on a non-empty string without line terminators:
   * consecutive two-character chunks, the last one possibly a single character.
   */
  function Pairs(h: string): (chunks: seq<string>)
    requires forall i :: 0 <= i < |h| ==> !IsLineTerminator(h[i])
    ensures |chunks| == (|h| + 1) / 2
    ensures forall i :: 0 <= i < |chunks| ==>
      chunks[i] == h[2 * i..if 2 * i + 2 <= |h| then 2 * i + 2 else |h|]
  {
    if |h| <= 2 then (if h == [] then [] else [h])
    else
      var rest := Pairs(h[2..]);
      var chunks := [h[..2]] + rest;
      assert forall i :: 1 <= i < |chunks| ==> chunks[i] == rest[i - 1];
      chunks
  }

  /**
   * The bytes `sendData` publishes in hexadecimal mode, or None when the text
   * is only whitespace: then `match` returns null, the chained `map` throws,
   * and the error is caught before anything is published.
   */
  function HexEncode(text: string): (bytes: Option<seq<Byte>>)
    ensures bytes.None? <==> forall i :: 0 <= i < |text| ==> IsWhitespace(text[i])
    ensures bytes.Some? ==> |bytes.value| == (|StripWhitespace(text)| + 1) / 2
  {
    var h := StripWhitespace(text);
    if h == [] then None
    else
      assert forall i :: 0 <= i < |h| ==> !IsLineTerminator(h[i]);
      Some(ChunkBytes(Pairs(h)))
  }

  /** `chunks.map(byte => parseInt(byte, 16))` stored into a `Uint8Array`. */
  function ChunkBytes(chunks: seq<string>): (bytes: seq<Byte>)
    ensures |bytes| == |chunks|
  {
    seq(|chunks|, i requires 0 <= i < |chunks| => ToUint8(ParseIntHex(chunks[i])))
  }

  /**
   * On text whose non-whitespace characters are all hexadecimal digits, the
   * bytes are the values of successive digit pairs, most significant first.
   */
  lemma HexEncodeDigits(text: string)
    requires AllDigitsIn(StripWhitespace(text), 16) && StripWhitespace(text) != []
    ensures var h := StripWhitespace(text);
      forall i :: 0 <= i < (|h| + 1) / 2 ==>
        HexEncode(text).value[i] == DigitsValue(h[2 * i..if 2 * i + 2 <= |h| then 2 * i + 2 else |h|], 16)
  {
    var h := StripWhitespace(text);
    assert forall i :: 0 <= i < |h| ==> !IsLineTerminator(h[i]);
    var chunks := Pairs(h);
    assert HexEncode(text) == Some(ChunkBytes(chunks));
    ChunkBytesOfDigits(h, chunks);
  }

  lemma ChunkBytesOfDigits(h: string, chunks: seq<string>)
    requires AllDigitsIn(h, 16) && |chunks| == (|h| + 1) / 2
    requires forall i :: 0 <= i < |chunks| ==> chunks[i] == h[2 * i..if 2 * i + 2 <= |h| then 2 * i + 2 else |h|]
    ensures forall i :: 0 <= i < |chunks| ==>
      ChunkBytes(chunks)[i] == DigitsValue(h[2 * i..if 2 * i + 2 <= |h| then 2 * i + 2 else |h|], 16)
  {
    forall i | 0 <= i < |chunks|
      ensures ChunkBytes(chunks)[i] == DigitsValue(chunks[i], 16)
    {
      var c := chunks[i];
      assert 1 <= |c| <= 2;
      assert AllDigitsIn(c, 16);
      ChunkByte(c);
    }
  }

  /** One chunk of one or two hexadecimal digits is stored as its value. */
  lemma ChunkByte(c: string)
    requires 1 <= |c| <= 2 && AllDigitsIn(c, 16)
    ensures ToUint8(ParseIntHex(c)) == DigitsValue(c, 16)
  {
    SmallDigitsValue(c);
  }

  /** The value of one or two hexadecimal digits. */
  lemma PairValue(c: string)
    requires 1 <= |c| <= 2
    ensures |c| == 1 ==> DigitsValue(c, 16) == DigitValue(c[0])
    ensures |c| == 2 ==> DigitsValue(c, 16) == DigitValue(c[0]) * 16 + DigitValue(c[1])
  {
    assert c[..1][..0] == [];
    assert DigitsValue(c[..1], 16) == DigitValue(c[0]);
  }

  /** At most two hexadecimal digits denote a value below 256. */
  lemma SmallDigitsValue(c: string)
    requires 1 <= |c| <= 2 && AllDigitsIn(c, 16)
    ensures DigitsValue(c, 16) < 256
  {
    PairValue(c);
    assert IsDigitIn(c[0], 16);
    assert |c| == 2 ==> IsDigitIn(c[1], 16);
  }

  predicate IsUpperHexDigit(c: char) {
    ('0' <= c <= '9') || ('A' <= c <= 'F')
  }

  /** The upper-case digit for a nibble. */
  function UpperNibble(d: nat): (c: char)
    requires d < 16
    ensures IsUpperHexDigit(c) && DigitValue(c) == d
  {
    if d < 10 then ('0' as int + d) as char else ('A' as int + d - 10) as char
  }

  /** One byte as the terminal shows it: two upper-case digits, high nibble first. */
  function HexByte(b: Byte): (r: string)
    ensures |r| == 2 && IsUpperHexDigit(r[0]) && IsUpperHexDigit(r[1])
    ensures DigitValue(r[0]) == b / 16 && DigitValue(r[1]) == b % 16
  {
    [UpperNibble(b / 16), UpperNibble(b % 16)]
  }

  /** `HexByte` is what `b.toString(16).padStart(2, '0').toUpperCase()` produces. */
  lemma HexByteIsJsFormat(b: Byte)
    ensures HexByte(b) == ToUpper(PadStart(NatToString(b, 16), 2, '0'))
  {
    var digits := NatToString(b, 16);
    UpperDigitChar(b / 16);
    UpperDigitChar(b % 16);
    if b < 16 {
      assert digits == [DigitChar(b)];
      assert PadStart(digits, 2, '0') == [DigitChar(0), DigitChar(b)];
    } else {
      assert NatToString(b / 16, 16) == [DigitChar(b / 16)];
      assert digits == [DigitChar(b / 16), DigitChar(b % 16)];
    }
  }

  lemma UpperDigitChar(d: nat)
    requires d < 16
    ensures UpperChar(DigitChar(d)) == UpperNibble(d)
  {
  }

  /** `Array.from(bytes).map(hexByte).join(' ')`. */
  function HexFormat(bytes: seq<Byte>): (r: string)
    ensures |r| == if bytes == [] then 0 else 3 * |bytes| - 1
  {
    if |bytes| == 0 then []
    else if |bytes| == 1 then HexByte(bytes[0])
    else HexByte(bytes[0]) + " " + HexFormat(bytes[1..])
  }

  /** Byte `i` is shown at columns `3i` and `3i + 1`, and a space follows every byte but the last. */
  lemma {:induction false} HexFormatLayout(bytes: seq<Byte>, i: nat)
    requires i < |bytes|
    ensures HexFormat(bytes)[3 * i..3 * i + 2] == HexByte(bytes[i])
    ensures i < |bytes| - 1 ==> HexFormat(bytes)[3 * i + 2] == ' '
  {
    var r := HexFormat(bytes);
    if i > 0 {
      var rest := HexFormat(bytes[1..]);
      HexFormatLayout(bytes[1..], i - 1);
      assert r == HexByte(bytes[0]) + " " + rest;
      assert r[3 * i..3 * i + 2] == rest[3 * (i - 1)..3 * (i - 1) + 2];
      assert bytes[1..][i - 1] == bytes[i];
    }
  }

  /** The digits of the bytes without separators. */
  function HexDigits(bytes: seq<Byte>): string {
    if bytes == [] then [] else HexByte(bytes[0]) + HexDigits(bytes[1..])
  }

  /** The digits of a byte contain no whitespace. */
  lemma StripHexByte(b: Byte)
    ensures StripWhitespace(HexByte(b)) == HexByte(b)
  {
    var h := HexByte(b);
    UpperHexNotWhitespace(h[0]);
    UpperHexNotWhitespace(h[1]);
  }

  lemma UpperHexNotWhitespace(c: char)
    requires IsUpperHexDigit(c)
    ensures !IsWhitespace(c)
  {
  }

  lemma {:induction false} StripHexFormat(bytes: seq<Byte>)
    ensures StripWhitespace(HexFormat(bytes)) == HexDigits(bytes)
  {
    if |bytes| == 1 {
      StripHexByte(bytes[0]);
      assert HexDigits(bytes) == HexByte(bytes[0]) + [];
    } else if |bytes| > 1 {
      var head, rest := HexByte(bytes[0]), HexFormat(bytes[1..]);
      assert HexFormat(bytes) == head + " " + rest;
      StripHexByte(bytes[0]);
      StripSeparated(head, rest);
      StripHexFormat(bytes[1..]);
    }
  }

  lemma StripSeparated(head: string, rest: string)
    requires StripWhitespace(head) == head
    ensures StripWhitespace(head + " " + rest) == head + StripWhitespace(rest)
  {
    var tail := [' '] + rest;
    assert head + " " + rest == head + tail;
    assert tail[0] == ' ' && tail[1..] == rest;
    assert StripWhitespace(tail) == StripWhitespace(rest);
    StripWhitespaceAppend(head, tail);
  }

  lemma {:induction false} PairsOfHexDigits(bytes: seq<Byte>)
    ensures |HexDigits(bytes)| == 2 * |bytes|
    ensures forall i :: 0 <= i < |HexDigits(bytes)| ==> !IsLineTerminator(HexDigits(bytes)[i])
    ensures Pairs(HexDigits(bytes)) == seq(|bytes|, i requires 0 <= i < |bytes| => HexByte(bytes[i]))
  {
    if bytes != [] {
      PairsOfHexDigits(bytes[1..]);
      var h := HexDigits(bytes);
      assert h[..2] == HexByte(bytes[0]);
      assert h[2..] == HexDigits(bytes[1..]);
    }
  }

  lemma HexByteParses(b: Byte)
    ensures ToUint8(ParseIntHex(HexByte(b))) == b
  {
    var h := HexByte(b);
    assert AllDigitsIn(h, 16);
    PairValue(h);
  }

  /** Hexadecimal text as the client shows it encodes back to the same bytes. */
  lemma HexRoundTrip(bytes: seq<Byte>)
    requires bytes != []
    ensures HexEncode(HexFormat(bytes)) == Some(bytes)
  {
    StripHexFormat(bytes);
    PairsOfHexDigits(bytes);
    var h := HexDigits(bytes);
    assert h != [];
    var chunks := Pairs(h);
    assert |chunks| == |bytes|;
    var encoded := HexEncode(HexFormat(bytes)).value;
    assert encoded == ChunkBytes(chunks);
    forall i | 0 <= i < |bytes|
      ensures encoded[i] == bytes[i]
    {
      assert chunks[i] == HexByte(bytes[i]);
      HexByteParses(bytes[i]);
    }
    assert encoded == bytes;
  }
}
