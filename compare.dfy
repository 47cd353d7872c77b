/**
 * The match indicator beside each digest, and the two value converters the
 * window binds its controls through.
 */
module Compare {
  import opened Wrappers
  import opened Text
  import opened HexFormat

  /** The background of a validation label. */
  datatype Indicator = Transparent | Green | Red

  /** A text box's text as the comparison sees it: trimmed, then mapped to the
      case the toggle selects. */
  function Normalise(text: string, upper: bool): string {
    if upper then ToUpper(Trim(text)) else ToLower(Trim(text))
  }

  /** The label for a comparison text (typed or loaded from a sidecar) and a
      result text: neutral when either is empty, green when they agree and
      red when they do not. */
  function Classify(compare: string, results: string, upper: bool): Indicator {
    var c := Normalise(compare, upper);
    var r := Normalise(results, upper);
    if c == [] || r == [] then Transparent
    else if c == r then Green
    else Red
  }

  /** The indicator is neutral exactly when either text is blank; otherwise it
      is green exactly when the trimmed texts are equal up to ASCII case. */
  lemma ClassifySpec(compare: string, results: string, upper: bool)
    ensures Classify(compare, results, upper) == Transparent
            <==> AllWhiteSpace(compare) || AllWhiteSpace(results)
    ensures Classify(compare, results, upper) == Green
            <==> !AllWhiteSpace(compare) && !AllWhiteSpace(results)
                 && EqualIgnoringCase(Trim(compare), Trim(results))
  {
    TrimEmptyIffBlank(compare);
    TrimEmptyIffBlank(results);
    CaseInsensitiveEquality(Trim(compare), Trim(results));
  }

  /** Swapping the two texts never changes the indicator. */
  lemma ClassifySymmetric(compare: string, results: string, upper: bool)
    ensures Classify(compare, results, upper) == Classify(results, compare, upper)
  {
  }

  /** Under the ASCII case mapping of this model the case toggle never
      changes the indicator. */
  lemma ClassifyIgnoresToggle(compare: string, results: string)
    ensures Classify(compare, results, true) == Classify(compare, results, false)
  {
    var tc, tr := Trim(compare), Trim(results);
    CaseInsensitiveEquality(tc, tr);
    assert |ToUpper(tc)| == |tc| == |ToLower(tc)|;
    assert |ToUpper(tr)| == |tr| == |ToLower(tr)|;
    assert Normalise(compare, true) == ToUpper(tc) && Normalise(compare, false) == ToLower(tc);
    assert Normalise(results, true) == ToUpper(tr) && Normalise(results, false) == ToLower(tr);
  }

  /** A non-empty digest shown in either case matches itself written in either
      case, with any white space (or none) before and after it. */
  lemma DigestMatchesItself(digest: seq<byte>, shownUpper: bool, typedUpper: bool, lead: string, trail: string,
                            upper: bool)
    requires digest != []
    requires AllWhiteSpace(lead) && AllWhiteSpace(trail)
    ensures Classify(lead + Hex(digest, typedUpper) + trail, Hex(digest, shownUpper), upper) == Green
  {
    NormalisedDigest(digest, typedUpper, lead, trail, upper);
    NormalisedHex(digest, shownUpper, upper);
    ClassifyAgreeing(lead + Hex(digest, typedUpper) + trail, Hex(digest, shownUpper), upper);
  }

  /** Without padding: a digest typed in one case matches it shown in the other. */
  lemma DigestMatchesUnpadded(digest: seq<byte>, shownUpper: bool, typedUpper: bool, upper: bool)
    requires digest != []
    ensures Classify(Hex(digest, typedUpper), Hex(digest, shownUpper), upper) == Green
  {
    NormalisedHex(digest, typedUpper, upper);
    NormalisedHex(digest, shownUpper, upper);
    ClassifyAgreeing(Hex(digest, typedUpper), Hex(digest, shownUpper), upper);
  }

  /** Two texts that normalise to the same non-empty text turn the label green. */
  lemma ClassifyAgreeing(compare: string, results: string, upper: bool)
    requires Normalise(compare, upper) == Normalise(results, upper) != []
    ensures Classify(compare, results, upper) == Green
  {
  }

  /** A digest's text in either case normalises to the text in the toggle's case. */
  lemma NormalisedHex(digest: seq<byte>, shownUpper: bool, upper: bool)
    requires digest != []
    ensures Normalise(Hex(digest, shownUpper), upper) == Hex(digest, upper) != []
  {
    HexIsTrimmed(digest, shownUpper);
    HexNormalised(digest, shownUpper);
    NormaliseTrimmed(Hex(digest, shownUpper), Hex(digest, shownUpper), upper);
  }

  /** A digest's text in either case, padded with white space, normalises to
      the text in the toggle's case. */
  lemma NormalisedDigest(digest: seq<byte>, typedUpper: bool, lead: string, trail: string, upper: bool)
    requires digest != []
    requires AllWhiteSpace(lead) && AllWhiteSpace(trail)
    ensures Normalise(lead + Hex(digest, typedUpper) + trail, upper) == Hex(digest, upper) != []
  {
    PaddedHexTrims(digest, typedUpper, lead, trail);
    HexNormalised(digest, typedUpper);
    NormaliseTrimmed(lead + Hex(digest, typedUpper) + trail, Hex(digest, typedUpper), upper);
  }

  lemma PaddedHexTrims(digest: seq<byte>, typedUpper: bool, lead: string, trail: string)
    requires digest != []
    requires AllWhiteSpace(lead) && AllWhiteSpace(trail)
    ensures Trim(lead + Hex(digest, typedUpper) + trail) == Hex(digest, typedUpper)
  {
    HexAlphabet(digest, typedUpper);
    PaddedHexTextTrims(Hex(digest, typedUpper), typedUpper, lead, trail);
  }

  lemma PaddedHexTextTrims(s: string, upper: bool, lead: string, trail: string)
    requires s != [] && IsHexText(s, upper)
    requires AllWhiteSpace(lead) && AllWhiteSpace(trail)
    ensures Trim(lead + s + trail) == s
  {
    HexTextIsPlain(s, upper);
    TrimPadded(lead, s, trail);
  }

  lemma NormaliseTrimmed(text: string, trimmed: string, upper: bool)
    requires Trim(text) == trimmed
    ensures Normalise(text, upper) == if upper then ToUpper(trimmed) else ToLower(trimmed)
  {
  }

  /** Either text of a digest, mapped to one case, is that case's text. */
  lemma HexNormalised(digest: seq<byte>, shownUpper: bool)
    ensures ToUpper(Hex(digest, shownUpper)) == Hex(digest, true)
    ensures ToLower(Hex(digest, shownUpper)) == Hex(digest, false)
  {
    HexCases(digest);
    CaseMappingAbsorbs(Hex(digest, true));
    CaseMappingAbsorbs(Hex(digest, false));
  }

  /** Trimming removes exactly the white space put around a text that
      neither starts nor ends with white space. */
  lemma TrimPadded(lead: string, s: string, trail: string)
    requires AllWhiteSpace(lead) && AllWhiteSpace(trail)
    requires s != [] && NoWhiteSpace(s)
    ensures Trim(lead + s + trail) == s
  {
    var t := lead + s + trail;
    assert t == lead + (s + trail);
    assert (s + trail)[0] == s[0];
    TrimStartPadded(lead, s + trail);
    TrimEndPadded(s, trail);
  }

  lemma {:induction false} TrimStartPadded(pad: string, s: string)
    requires AllWhiteSpace(pad)
    requires s != [] && !IsWhiteSpace(s[0])
    ensures TrimStart(pad + s) == s
    decreases |pad|
  {
    if pad == [] {
      assert pad + s == s;
    } else {
      assert (pad + s)[0] == pad[0];
      assert IsWhiteSpace(pad[0]);
      assert (pad + s)[1..] == pad[1..] + s;
      var tail := pad[1..];
      assert forall i :: 0 <= i < |tail| ==> tail[i] == pad[i + 1];
      TrimStartPadded(pad[1..], s);
    }
  }

  lemma {:induction false} TrimEndPadded(s: string, pad: string)
    requires AllWhiteSpace(pad)
    requires s != [] && !IsWhiteSpace(s[|s| - 1])
    ensures TrimEnd(s + pad) == s
    decreases |pad|
  {
    if pad == [] {
      assert s + pad == s;
    } else {
      var t := s + pad;
      assert t[|t| - 1] == pad[|pad| - 1];
      assert IsWhiteSpace(pad[|pad| - 1]);
      assert t[..|t| - 1] == s + pad[..|pad| - 1];
      var init := pad[..|pad| - 1];
      assert forall i :: 0 <= i < |init| ==> init[i] == pad[i];
      TrimEndPadded(s, pad[..|pad| - 1]);
    }
  }

  // ---------------------------------------------------------------------------
  // Converters
  // ---------------------------------------------------------------------------

  /** WPF's CharacterCasing. */
  datatype CharacterCasing = Normal | Lower | Upper

  /** BoolToCharacterCasingConverter.Convert: a nullable check state becomes
      Upper when it is true, and Lower when it is false or null. */
  function BoolToCharacterCasing(value: Option<bool>): (casing: CharacterCasing)
    ensures casing == Upper <==> value == Some(true)
    ensures casing != Normal
  {
    if value == Some(true) then Upper else Lower
  }

  /** LowerCaseToUpperCaseConverter.Convert. */
  function UpperCaseConvert(value: string): string {
    ToUpper(value)
  }

  /** LowerCaseToUpperCaseConverter.ConvertBack. */
  function UpperCaseConvertBack(value: string): string {
    ToLower(value)
  }

  /** Convert leaves no lower-case letter and ConvertBack no upper-case one;
      each changes only the case of letters, and converting back undoes
      converting up to the case of the letters. */
  lemma UpperCaseConverterSpec(value: string)
    ensures |UpperCaseConvert(value)| == |value| && |UpperCaseConvertBack(value)| == |value|
    ensures forall i :: 0 <= i < |value| ==> !IsAsciiLower(UpperCaseConvert(value)[i])
    ensures forall i :: 0 <= i < |value| ==> !IsAsciiUpper(UpperCaseConvertBack(value)[i])
    ensures EqualIgnoringCase(value, UpperCaseConvert(value))
    ensures EqualIgnoringCase(value, UpperCaseConvertBack(value))
    ensures UpperCaseConvertBack(UpperCaseConvert(value)) == ToLower(value)
    ensures UpperCaseConvert(UpperCaseConvertBack(value)) == ToUpper(value)
  {
    ToUpperPreserves(value);
    ToLowerPreserves(value);
    CaseMappingAbsorbs(value);
  }
}
