/**
 * The hexadecimal text the tool shows for a digest: two digits per byte,
 * high nibble first, all from the upper-case or all from the lower-case
 * alphabet. The upper-case form is the Base 16 encoding of section 8 of
 * RFC 4648.
 */
module HexFormat {
  import opened Wrappers
  import opened Text

  newtype byte = b: int | 0 <= b < 256

  /** The digit for a value below 16, from the upper or the lower alphabet. */
  function HexDigit(n: int, upper: bool): char
    requires 0 <= n < 16
  {
    if n < 10 then ('0' as int + n) as char
    else if upper then ('A' as int + n - 10) as char
    else ('a' as int + n - 10) as char
  }

  /** Byte.ToString("X2") when upper holds, Byte.ToString("x2") otherwise. */
  function ByteToHex(b: byte, upper: bool): string {
    [HexDigit(b as int / 16, upper), HexDigit(b as int % 16, upper)]
  }

  /** The text the formatting loop has built after appending the two digits
      of each byte of bytes, in order. */
  function Hex(bytes: seq<byte>, upper: bool): (s: string)
    ensures |s| == 2 * |bytes|
  {
    if bytes == [] then ""
    else Hex(bytes[..|bytes| - 1], upper) + ByteToHex(bytes[|bytes| - 1], upper)
  }

  /** Formats a digest held in an array, as the tool does after DoFinal. */
  method FormatHex(bytes: array<byte>, upper: bool) returns (s: string)
    ensures s == Hex(bytes[..], upper)
  {
    s := "";
    var j := 0;
    while j < bytes.Length
      invariant 0 <= j <= bytes.Length
      invariant s == Hex(bytes[..j], upper)
    {
      assert bytes[..j + 1][..j] == bytes[..j];
      s := s + ByteToHex(bytes[j], upper);
      j := j + 1;
    }
    assert bytes[..j] == bytes[..];
  }

  // ---------------------------------------------------------------------------
  // The alphabets and decoding
  // ---------------------------------------------------------------------------

  /** c is a digit of the chosen alphabet: 0-9 and A-F, or 0-9 and a-f. */
  predicate IsHexDigit(c: char, upper: bool) {
    || ('0' <= c <= '9')
    || (upper && 'A' <= c <= 'F')
    || (!upper && 'a' <= c <= 'f')
  }

  /** The value of a hex digit of either alphabet. */
  function DigitValue(c: char): Option<int> {
    if '0' <= c <= '9' then Some(c as int - '0' as int)
    else if 'A' <= c <= 'F' then Some(c as int - 'A' as int + 10)
    else if 'a' <= c <= 'f' then Some(c as int - 'a' as int + 10)
    else None
  }

  /** Reads hex text back into bytes, two digits per byte, high nibble first. */
  function DecodeHex(s: string): Option<seq<byte>> {
    if s == [] then Some([])
    else if |s| < 2 then None
    else match (DigitValue(s[0]), DigitValue(s[1]), DecodeHex(s[2..]))
      case (Some(hi), Some(lo), Some(rest)) =>
        if 0 <= hi < 16 && 0 <= lo < 16 then Some([(hi * 16 + lo) as byte] + rest) else None
      case _ => None
  }

  lemma DigitRoundTrip(n: int, upper: bool)
    requires 0 <= n < 16
    ensures IsHexDigit(HexDigit(n, upper), upper)
    ensures DigitValue(HexDigit(n, upper)) == Some(n)
    ensures LowerChar(HexDigit(n, true)) == HexDigit(n, false)
    ensures UpperChar(HexDigit(n, false)) == HexDigit(n, true)
  {
  }

  /** Formatting works byte by byte: the first byte's digits come first. */
  lemma {:induction false} HexCons(b: byte, bytes: seq<byte>, upper: bool)
    ensures Hex([b] + bytes, upper) == ByteToHex(b, upper) + Hex(bytes, upper)
    decreases |bytes|
  {
    if bytes == [] {
      assert [b] + bytes == [b];
      assert [b][..0] == [];
    } else {
      var init, last := bytes[..|bytes| - 1], bytes[|bytes| - 1];
      assert ([b] + bytes)[..|bytes|] == [b] + init;
      assert ([b] + bytes)[|bytes|] == last;
      HexCons(b, init, upper);
    }
  }

  /** Characters 2j and 2j+1 of the text encode byte j, and every character
      comes from the chosen alphabet. */
  lemma {:induction false} HexAt(bytes: seq<byte>, upper: bool, j: int)
    requires 0 <= j < |bytes|
    ensures Hex(bytes, upper)[2 * j] == HexDigit(bytes[j] as int / 16, upper)
    ensures Hex(bytes, upper)[2 * j + 1] == HexDigit(bytes[j] as int % 16, upper)
    decreases |bytes|
  {
    var init := bytes[..|bytes| - 1];
    if j < |bytes| - 1 {
      assert init[j] == bytes[j];
      HexAt(init, upper, j);
    }
  }

  /** Every character of s is a digit of the chosen alphabet. */
  predicate IsHexText(s: string, upper: bool) {
    forall i :: 0 <= i < |s| ==> IsHexDigit(s[i], upper)
  }

  /** Hex text uses one alphabet only: 0-9A-F when upper holds, 0-9a-f otherwise. */
  lemma HexAlphabet(bytes: seq<byte>, upper: bool)
    ensures IsHexText(Hex(bytes, upper), upper)
  {
    forall i | 0 <= i < |Hex(bytes, upper)| ensures IsHexDigit(Hex(bytes, upper)[i], upper) {
      HexAt(bytes, upper, i / 2);
      DigitRoundTrip(bytes[i / 2] as int / 16, upper);
      DigitRoundTrip(bytes[i / 2] as int % 16, upper);
    }
  }

  /** Decoding the text gives back the digest's bytes. */
  lemma {:induction false} DecodeHexRoundTrip(bytes: seq<byte>, upper: bool)
    ensures DecodeHex(Hex(bytes, upper)) == Some(bytes)
    decreases |bytes|
  {
    if bytes != [] {
      var b, rest := bytes[0], bytes[1..];
      assert bytes == [b] + rest;
      HexCons(b, rest, upper);
      var s := Hex(bytes, upper);
      DigitRoundTrip(b as int / 16, upper);
      DigitRoundTrip(b as int % 16, upper);
      assert s[2..] == Hex(rest, upper);
      DecodeHexRoundTrip(rest, upper);
      assert (b as int / 16 * 16 + b as int % 16) as byte == b;
    }
  }

  // ---------------------------------------------------------------------------
  // Base 16 of RFC 4648 and the two cases
  // ---------------------------------------------------------------------------

  /** The Base 16 alphabet of section 8 of RFC 4648. */
  const Base16Alphabet: string := "0123456789ABCDEF"

  /** Base 16 encoding, section 8 of RFC 4648: each octet becomes two
      characters, the first indexed by its high four bits. */
  function Base16(bytes: seq<byte>): string {
    if bytes == [] then ""
    else [Base16Alphabet[bytes[0] as int / 16], Base16Alphabet[bytes[0] as int % 16]] + Base16(bytes[1..])
  }

  /** The upper-case text is the Base 16 encoding of the digest. */
  lemma {:induction false} HexUpperIsBase16(bytes: seq<byte>)
    ensures Hex(bytes, true) == Base16(bytes)
    decreases |bytes|
  {
    if bytes != [] {
      assert bytes == [bytes[0]] + bytes[1..];
      HexCons(bytes[0], bytes[1..], true);
      HexUpperIsBase16(bytes[1..]);
      var hi, lo := bytes[0] as int / 16, bytes[0] as int % 16;
      assert Base16Alphabet[hi] == HexDigit(hi, true);
      assert Base16Alphabet[lo] == HexDigit(lo, true);
    }
  }

  /** The two toggles give the same text up to case: the lower-case text is
      the upper-case text mapped to lower case, and the converse. */
  lemma HexCases(bytes: seq<byte>)
    ensures Hex(bytes, false) == ToLower(Hex(bytes, true))
    ensures Hex(bytes, true) == ToUpper(Hex(bytes, false))
  {
    forall i | 0 <= i < 2 * |bytes|
      ensures Hex(bytes, false)[i] == LowerChar(Hex(bytes, true)[i])
      ensures Hex(bytes, true)[i] == UpperChar(Hex(bytes, false)[i])
    {
      HexAt(bytes, true, i / 2);
      HexAt(bytes, false, i / 2);
      DigitRoundTrip(bytes[i / 2] as int / 16, true);
      DigitRoundTrip(bytes[i / 2] as int % 16, true);
    }
  }

  lemma HexTextIsPlain(s: string, upper: bool)
    requires IsHexText(s, upper)
    ensures NoWhiteSpace(s)
  {
  }

  /** Hex text holds no white space, so trimming leaves it as it is. */
  lemma HexIsTrimmed(bytes: seq<byte>, upper: bool)
    ensures NoWhiteSpace(Hex(bytes, upper))
    ensures Trim(Hex(bytes, upper)) == Hex(bytes, upper)
  {
    HexAlphabet(bytes, upper);
    HexTextIsPlain(Hex(bytes, upper), upper);
    TrimNoWhiteSpace(Hex(bytes, upper));
  }
}
