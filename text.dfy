/**
 * The string primitives the hash tool relies on: splitting a line on white
 * space with empty entries removed, trimming, ordinal substring search and
 * ASCII case mapping.
 */
module Text {

  /** The characters .NET's Char.IsWhiteSpace accepts: the control characters
      U+0009 to U+000D, U+0085, and the space, line and paragraph separators. */
  predicate IsWhiteSpace(c: char) {
    || c == ' '
    || ('\t' <= c <= '\r')
    || c == '\U{0085}'
    || c == '\U{00A0}'
    || c == '\U{1680}'
    || ('\U{2000}' <= c <= '\U{200A}')
    || c == '\U{2028}'
    || c == '\U{2029}'
    || c == '\U{202F}'
    || c == '\U{205F}'
    || c == '\U{3000}'
  }

  predicate NoWhiteSpace(s: string) {
    forall i :: 0 <= i < |s| ==> !IsWhiteSpace(s[i])
  }

  predicate AllWhiteSpace(s: string) {
    forall i :: 0 <= i < |s| ==> IsWhiteSpace(s[i])
  }

  lemma BlankCons(c: char, t: string)
    requires IsWhiteSpace(c) && AllWhiteSpace(t)
    ensures AllWhiteSpace([c] + t)
  {
    assert forall i :: 0 < i < |t| + 1 ==> ([c] + t)[i] == t[i - 1];
  }

  lemma BlankSnoc(t: string, c: char)
    requires AllWhiteSpace(t) && IsWhiteSpace(c)
    ensures AllWhiteSpace(t + [c])
  {
    assert forall i :: 0 <= i < |t| ==> (t + [c])[i] == t[i];
  }

  // ---------------------------------------------------------------------------
  // Trimming
  // ---------------------------------------------------------------------------

  /** String.TrimStart(): the suffix left after the leading white space. */
  function TrimStart(s: string): (r: string)
    ensures |r| <= |s| && r == s[|s| - |r|..]
    ensures r == [] || !IsWhiteSpace(r[0])
    ensures AllWhiteSpace(s[..|s| - |r|])
  {
    if s != [] && IsWhiteSpace(s[0]) then
      var r := TrimStart(s[1..]);
      TrimStartStep(s, r);
      r
    else
      s
  }

  /** One leading white-space character more in front of what TrimStart
      removes from the rest. */
  lemma TrimStartStep(s: string, r: string)
    requires s != [] && IsWhiteSpace(s[0])
    requires |r| <= |s| - 1 && r == s[1..][|s| - 1 - |r|..]
    requires AllWhiteSpace(s[1..][..|s| - 1 - |r|])
    ensures r == s[|s| - |r|..] && AllWhiteSpace(s[..|s| - |r|])
  {
    assert s[..|s| - |r|] == [s[0]] + s[1..][..|s| - 1 - |r|];
    assert s[|s| - |r|..] == s[1..][|s| - 1 - |r|..];
    BlankCons(s[0], s[1..][..|s| - 1 - |r|]);
  }

  /** String.TrimEnd(): the prefix left before the trailing white space. */
  function TrimEnd(s: string): (r: string)
    ensures |r| <= |s| && r == s[..|r|]
    ensures r == [] || !IsWhiteSpace(r[|r| - 1])
    ensures AllWhiteSpace(s[|r|..])
  {
    if s != [] && IsWhiteSpace(s[|s| - 1]) then
      var r := TrimEnd(s[..|s| - 1]);
      TrimEndStep(s, r);
      r
    else
      s
  }

  /** One trailing white-space character more after what TrimEnd removes
      from the rest. */
  lemma TrimEndStep(s: string, r: string)
    requires s != [] && IsWhiteSpace(s[|s| - 1])
    requires |r| <= |s| - 1 && r == s[..|s| - 1][..|r|]
    requires AllWhiteSpace(s[..|s| - 1][|r|..])
    ensures r == s[..|r|] && AllWhiteSpace(s[|r|..])
  {
    assert s[|r|..] == s[..|s| - 1][|r|..] + [s[|s| - 1]];
    assert s[..|r|] == s[..|s| - 1][..|r|];
    BlankSnoc(s[..|s| - 1][|r|..], s[|s| - 1]);
  }

  /** String.Trim(): what is left of s once the white space at both ends is
      removed. */
  function Trim(s: string): (r: string)
    ensures r == [] || (!IsWhiteSpace(r[0]) && !IsWhiteSpace(r[|r| - 1]))
  {
    TrimEnd(TrimStart(s))
  }

  lemma {:induction false} TrimStartKeepsText(s: string)
    ensures NonWhiteSpace(TrimStart(s)) == NonWhiteSpace(s)
  {
    var t := TrimStart(s);
    var lead := s[..|s| - |t|];
    assert s == lead + t;
    NonWhiteSpaceAppend(lead, t);
    NonWhiteSpaceOfBlank(lead);
  }

  lemma {:induction false} TrimEndKeepsText(s: string)
    ensures NonWhiteSpace(TrimEnd(s)) == NonWhiteSpace(s)
  {
    var r := TrimEnd(s);
    var trail := s[|r|..];
    assert s == r + trail;
    NonWhiteSpaceAppend(r, trail);
    NonWhiteSpaceOfBlank(trail);
  }

  /** Trimming keeps every character that is not white space. */
  lemma {:induction false} TrimKeepsText(s: string)
    ensures NonWhiteSpace(Trim(s)) == NonWhiteSpace(s)
  {
    TrimStartKeepsText(s);
    TrimEndKeepsText(TrimStart(s));
  }

  /** Trimming yields the empty string exactly when the input is all white space. */
  lemma {:induction false} TrimEmptyIffBlank(s: string)
    ensures Trim(s) == [] <==> AllWhiteSpace(s)
  {
    TrimStartHead(s);
    TrimStartEmpty(s);
    TrimEndEmpty(TrimStart(s));
  }

  lemma TrimStartHead(s: string)
    ensures TrimStart(s) != [] ==> TrimStart(s)[0] == s[|s| - |TrimStart(s)|]
  {
  }

  lemma TrimStartEmpty(s: string)
    ensures TrimStart(s) == [] ==> AllWhiteSpace(s)
  {
    if TrimStart(s) == [] {
      assert s[..|s|] == s;
    }
  }

  lemma TrimEndEmpty(s: string)
    ensures TrimEnd(s) == [] ==> AllWhiteSpace(s)
  {
    if TrimEnd(s) == [] {
      assert s[0..] == s;
    }
  }

  lemma TrimNoWhiteSpace(s: string)
    requires NoWhiteSpace(s)
    ensures Trim(s) == s
  {
  }

  // ---------------------------------------------------------------------------
  // Splitting on white space with empty entries removed
  // ---------------------------------------------------------------------------

  /** The longest prefix of s that holds no white space. */
  function Word(s: string): (w: string)
    ensures w <= s
    ensures NoWhiteSpace(w)
    ensures |w| == |s| || IsWhiteSpace(s[|w|])
  {
    if s == [] || IsWhiteSpace(s[0]) then [] else [s[0]] + Word(s[1..])
  }

  /** A token: a non-empty run of characters that are not white space. */
  predicate IsToken(w: string) {
    w != [] && NoWhiteSpace(w)
  }

  /** String.Split(null, RemoveEmptyEntries): the maximal runs of characters
      that are not white space, in order. */
  function Tokens(s: string): (ts: seq<string>)
    ensures forall k :: 0 <= k < |ts| ==> IsToken(ts[k])
    decreases |s|
  {
    var t := TrimStart(s);
    if t == [] then [] else
      var w := Word(t);
      assert IsToken(w) by { assert w[0] == t[0]; }
      var rest := Tokens(t[|w|..]);
      ConsTokens(w, rest);
      [w] + rest
  }

  lemma ConsTokens(w: string, rest: seq<string>)
    requires IsToken(w)
    requires forall k :: 0 <= k < |rest| ==> IsToken(rest[k])
    ensures forall k :: 0 <= k < |[w] + rest| ==> IsToken(([w] + rest)[k])
  {
  }

  /** The fields ts with one space between each, as the words of a name are. */
  function JoinSpaced(ts: seq<string>): string {
    if ts == [] then ""
    else if |ts| == 1 then ts[0]
    else ts[0] + " " + JoinSpaced(ts[1..])
  }

  /** The characters of s that are not white space, in order. */
  function NonWhiteSpace(s: string): string {
    if s == [] then ""
    else (if IsWhiteSpace(s[0]) then "" else [s[0]]) + NonWhiteSpace(s[1..])
  }

  function Concat(ts: seq<string>): string {
    if ts == [] then "" else ts[0] + Concat(ts[1..])
  }

  lemma {:induction false} WordOfConcat(w: string, rest: string)
    requires w != [] && NoWhiteSpace(w)
    requires rest == [] || IsWhiteSpace(rest[0])
    ensures Word(w + rest) == w
    decreases |w|
  {
    assert (w + rest)[1..] == w[1..] + rest;
    if |w| > 1 {
      WordOfConcat(w[1..], rest);
    } else {
      assert w[1..] + rest == rest;
    }
  }

  /** One step of splitting: the first token of a line is the word that
      starts its trimmed text, and the rest are the tokens of what follows. */
  lemma TokensStep(s: string)
    requires TrimStart(s) != []
    ensures Tokens(s) == [Word(TrimStart(s))] + Tokens(TrimStart(s)[|Word(TrimStart(s))|..])
  {
  }

  /** A line that starts with a token followed by white space or nothing
      splits into that token and the tokens of the rest. */
  lemma TokensOfWordThen(w: string, rest: string)
    requires IsToken(w)
    requires rest == [] || IsWhiteSpace(rest[0])
    ensures Tokens(w + rest) == [w] + Tokens(rest)
  {
    var s := w + rest;
    assert s[0] == w[0];
    assert TrimStart(s) == s;
    WordOfConcat(w, rest);
    assert s[|w|..] == rest;
    TokensStep(s);
  }

  /** White space in front of a line does not change its tokens. */
  lemma TokensOfBlankThen(c: char, rest: string)
    requires IsWhiteSpace(c)
    ensures Tokens([c] + rest) == Tokens(rest)
  {
    assert ([c] + rest)[1..] == rest;
    assert TrimStart([c] + rest) == TrimStart(rest);
  }

  /** A token, a space and more text split into the token and the tokens of the text. */
  lemma TokensOfTokenSpaceThen(w: string, rest: string)
    requires IsToken(w)
    ensures Tokens(w + ([' '] + rest)) == [w] + Tokens(rest)
  {
    TokensOfWordThen(w, [' '] + rest);
    TokensOfBlankThen(' ', rest);
  }

  lemma TokensOfToken(w: string)
    requires IsToken(w)
    ensures Tokens(w) == [w]
  {
    TokensOfWordThen(w, []);
    assert w + [] == w;
  }

  lemma HeadTail(ts: seq<string>)
    requires ts != []
    ensures [ts[0]] + ts[1..] == ts
  {
  }

  lemma JoinSpacedCons(ts: seq<string>)
    requires |ts| > 1
    ensures JoinSpaced(ts) == ts[0] + ([' '] + JoinSpaced(ts[1..]))
  {
  }

  /** One step of TokensOfJoinSpaced: a token put in front of the line written
      from the remaining fields is split off again. */
  lemma TokensOfJoinSpacedStep(ts: seq<string>)
    requires |ts| > 1 && IsToken(ts[0])
    requires Tokens(JoinSpaced(ts[1..])) == ts[1..]
    ensures Tokens(JoinSpaced(ts)) == ts
  {
    var w, tail := ts[0], ts[1..];
    var rest := JoinSpaced(tail);
    JoinSpacedCons(ts);
    TokensOfTokenSpaceThen(w, rest);
    calc {
      Tokens(JoinSpaced(ts));
      Tokens(w + ([' '] + rest));
      [w] + Tokens(rest);
      [w] + tail;
      { HeadTail(ts); }
      ts;
    }
  }

  /** A gap between fields: one or more white-space characters. */
  predicate IsGap(g: string) {
    g != [] && AllWhiteSpace(g)
  }

  /** White space in front of a line, however much, does not change its tokens. */
  lemma {:induction false} TokensOfBlanksThen(pad: string, rest: string)
    requires AllWhiteSpace(pad)
    ensures Tokens(pad + rest) == Tokens(rest)
    decreases |pad|
  {
    if pad == [] {
      assert pad + rest == rest;
    } else {
      assert pad + rest == [pad[0]] + (pad[1..] + rest);
      assert forall i :: 0 <= i < |pad| - 1 ==> pad[1..][i] == pad[i + 1];
      TokensOfBlankThen(pad[0], pad[1..] + rest);
      TokensOfBlanksThen(pad[1..], rest);
    }
  }

  /** Fields joined by single spaces, followed by white space or nothing,
      split into the fields and then the tokens of what follows. */
  lemma {:induction false} TokensOfJoinedThen(ts: seq<string>, rest: string)
    requires ts != [] && forall k :: 0 <= k < |ts| ==> IsToken(ts[k])
    requires rest == [] || IsWhiteSpace(rest[0])
    ensures Tokens(JoinSpaced(ts) + rest) == ts + Tokens(rest)
    decreases |ts|
  {
    if |ts| == 1 {
      assert ts == [ts[0]];
      TokensOfJoinedOne(ts[0], rest);
    } else {
      assert forall k :: 0 <= k < |ts| - 1 ==> ts[1..][k] == ts[k + 1];
      TokensOfJoinedThen(ts[1..], rest);
      TokensOfJoinedStep(ts, rest, Tokens(rest));
    }
  }

  lemma TokensOfJoinedOne(w: string, rest: string)
    requires IsToken(w)
    requires rest == [] || IsWhiteSpace(rest[0])
    ensures Tokens(JoinSpaced([w]) + rest) == [w] + Tokens(rest)
  {
    JoinOne(w);
    TokensOfWordThen(w, rest);
  }

  /** One step of TokensOfJoinedThen: a token and a space put in front. */
  lemma TokensOfJoinedStep(ts: seq<string>, rest: string, r: seq<string>)
    requires |ts| > 1 && IsToken(ts[0])
    requires Tokens(JoinSpaced(ts[1..]) + rest) == ts[1..] + r
    ensures Tokens(JoinSpaced(ts) + rest) == ts + r
  {
    var w, tail := ts[0], JoinSpaced(ts[1..]) + rest;
    JoinSpacedCons(ts);
    AppendFour(w, [' '], JoinSpaced(ts[1..]), rest);
    TokensOfTokenSpaceThen(w, tail);
    HeadTail(ts);
    calc {
      Tokens(JoinSpaced(ts) + rest);
      Tokens(w + ([' '] + tail));
      [w] + Tokens(tail);
      [w] + (ts[1..] + r);
      { AppendThree([w], ts[1..], r); }
      ts + r;
    }
  }

  /** A line of two groups of fields x and y, with white space of any kind
      and length before the first, between the two and after the second,
      splits into the fields of both groups. */
  lemma TokensOfLine(lead: string, xs: seq<string>, x: string, gap: string, ys: seq<string>, y: string, trail: string)
    requires AllWhiteSpace(lead) && IsGap(gap) && AllWhiteSpace(trail)
    requires xs != [] && forall k :: 0 <= k < |xs| ==> IsToken(xs[k])
    requires ys != [] && forall k :: 0 <= k < |ys| ==> IsToken(ys[k])
    requires x == JoinSpaced(xs) && y == JoinSpaced(ys)
    ensures Tokens(lead + x + gap + y + trail) == xs + ys
  {
    var second := y + trail;
    AppendFive(lead, x, gap, y, trail);
    TokensOfBlanksThen(lead, x + (gap + second));
    TokensOfGroupGap(xs, x, gap, second);
    TokensOfGroupTrail(ys, y, trail);
  }

  /** A group of fields followed by a gap and more text. */
  lemma TokensOfGroupGap(xs: seq<string>, x: string, gap: string, rest: string)
    requires xs != [] && forall k :: 0 <= k < |xs| ==> IsToken(xs[k])
    requires x == JoinSpaced(xs) && IsGap(gap)
    ensures Tokens(x + (gap + rest)) == xs + Tokens(rest)
  {
    assert (gap + rest)[0] == gap[0];
    TokensOfJoinedThen(xs, gap + rest);
    TokensOfBlanksThen(gap, rest);
  }

  /** A group of fields followed by white space or nothing. */
  lemma TokensOfGroupTrail(ys: seq<string>, y: string, trail: string)
    requires ys != [] && forall k :: 0 <= k < |ys| ==> IsToken(ys[k])
    requires y == JoinSpaced(ys) && AllWhiteSpace(trail)
    ensures Tokens(y + trail) == ys
  {
    calc {
      Tokens(y + trail);
      { TokensOfJoinedThen(ys, trail); }
      ys + Tokens(trail);
      { TokensOfBlank(trail); }
      ys + [];
      ys;
    }
  }

  /** A single field is written as itself. */
  lemma JoinOne(w: string)
    ensures JoinSpaced([w]) == w
  {
  }

  lemma AppendThree<T>(a: seq<T>, b: seq<T>, c: seq<T>)
    ensures a + (b + c) == (a + b) + c
  {
  }

  lemma AppendFour<T>(a: seq<T>, b: seq<T>, c: seq<T>, d: seq<T>)
    ensures (a + (b + c)) + d == a + (b + (c + d))
  {
  }

  lemma AppendFive<T>(a: seq<T>, b: seq<T>, c: seq<T>, d: seq<T>, e: seq<T>)
    ensures a + b + c + d + e == a + (b + (c + (d + e)))
  {
  }

  /** A line of white space only has no tokens. */
  lemma TokensOfBlank(s: string)
    requires AllWhiteSpace(s)
    ensures Tokens(s) == []
  {
    TokensOfBlanksThen(s, []);
    assert s + [] == s;
  }

  /** Splitting a line written from well-formed fields gives back those fields. */
  lemma {:induction false} TokensOfJoinSpaced(ts: seq<string>)
    requires forall k :: 0 <= k < |ts| ==> IsToken(ts[k])
    ensures Tokens(JoinSpaced(ts)) == ts
  {
    if ts == [] {
    } else if |ts| == 1 {
      TokensOfToken(ts[0]);
    } else {
      TokensOfJoinSpaced(ts[1..]);
      TokensOfJoinSpacedStep(ts);
    }
  }

  lemma {:induction false} NonWhiteSpaceAppend(a: string, b: string)
    ensures NonWhiteSpace(a + b) == NonWhiteSpace(a) + NonWhiteSpace(b)
    decreases |a|
  {
    if a == [] {
      assert a + b == b;
    } else {
      assert (a + b)[1..] == a[1..] + b;
      NonWhiteSpaceAppend(a[1..], b);
    }
  }

  lemma {:induction false} NonWhiteSpaceOfPlain(s: string)
    requires NoWhiteSpace(s)
    ensures NonWhiteSpace(s) == s
    decreases |s|
  {
    if s != [] {
      NonWhiteSpaceOfPlain(s[1..]);
    }
  }

  lemma {:induction false} NonWhiteSpaceOfBlank(s: string)
    requires AllWhiteSpace(s)
    ensures NonWhiteSpace(s) == ""
    decreases |s|
  {
    if s != [] {
      NonWhiteSpaceOfBlank(s[1..]);
    }
  }

  /** Splitting loses no character other than white space: the tokens, put
      back together, are the non-white-space characters of the line. */
  lemma {:induction false} TokensKeepEveryOtherCharacter(s: string)
    ensures Concat(Tokens(s)) == NonWhiteSpace(s)
    decreases |s|
  {
    var t := TrimStart(s);
    TrimStartKeepsText(s);
    if t != [] {
      var w := Word(t);
      var rest := t[|w|..];
      NonWhiteSpaceOfWord(t);
      TokensStep(s);
      TokensKeepEveryOtherCharacter(rest);
      ConcatCons(w, Tokens(rest));
    }
  }

  lemma NonWhiteSpaceOfWord(t: string)
    ensures NonWhiteSpace(t) == Word(t) + NonWhiteSpace(t[|Word(t)|..])
  {
    var w := Word(t);
    assert t == w + t[|w|..];
    NonWhiteSpaceAppend(w, t[|w|..]);
    NonWhiteSpaceOfPlain(w);
  }

  lemma ConcatCons(w: string, ts: seq<string>)
    ensures Concat([w] + ts) == w + Concat(ts)
  {
    assert ([w] + ts)[1..] == ts;
  }

  // ---------------------------------------------------------------------------
  // Ordinal substring search
  // ---------------------------------------------------------------------------

  /** String.Contains with an ordinal comparison: needle occurs somewhere in hay. */
  predicate Contains(hay: string, needle: string)
    decreases |hay|
  {
    needle <= hay || (hay != [] && Contains(hay[1..], needle))
  }

  predicate OccursAt(hay: string, needle: string, i: int) {
    0 <= i <= |hay| - |needle| && hay[i..i + |needle|] == needle
  }

  /** Contains agrees with the textbook definition of a substring. */
  lemma {:induction false} ContainsIffOccurs(hay: string, needle: string)
    ensures Contains(hay, needle) <==> exists i :: OccursAt(hay, needle, i)
    decreases |hay|
  {
    if needle <= hay {
      assert OccursAt(hay, needle, 0);
    } else if hay == [] {
    } else {
      ContainsIffOccurs(hay[1..], needle);
      if exists i :: OccursAt(hay[1..], needle, i) {
        var i :| OccursAt(hay[1..], needle, i);
        assert hay[1..][i..i + |needle|] == hay[i + 1..i + 1 + |needle|];
        assert OccursAt(hay, needle, i + 1);
      }
      if exists i :: OccursAt(hay, needle, i) {
        var i :| OccursAt(hay, needle, i);
        assert i != 0;
        assert hay[1..][i - 1..i - 1 + |needle|] == hay[i..i + |needle|];
        assert OccursAt(hay[1..], needle, i - 1);
      }
    }
  }

  /** White space in a prefix is white space in the whole text. */
  lemma PrefixWhiteSpace(a: string, b: string)
    requires a <= b && !NoWhiteSpace(a)
    ensures !NoWhiteSpace(b)
  {
    var k :| 0 <= k < |a| && IsWhiteSpace(a[k]);
    assert b[k] == a[k];
  }

  /** A text with no white space never contains one that has some. */
  lemma WhiteSpaceNotContained(hay: string, needle: string)
    requires NoWhiteSpace(hay) && !NoWhiteSpace(needle)
    ensures !Contains(hay, needle)
  {
    var k :| 0 <= k < |needle| && IsWhiteSpace(needle[k]);
    forall i | 0 <= i <= |hay| - |needle|
      ensures !OccursAt(hay, needle, i)
    {
      assert hay[i..i + |needle|][k] == hay[i + k];
    }
    ContainsIffOccurs(hay, needle);
  }

  // ---------------------------------------------------------------------------
  // ASCII case mapping
  // ---------------------------------------------------------------------------

  predicate IsAsciiLower(c: char) { 'a' <= c <= 'z' }

  predicate IsAsciiUpper(c: char) { 'A' <= c <= 'Z' }

  function UpperChar(c: char): char {
    if IsAsciiLower(c) then (c as int - 32) as char else c
  }

  function LowerChar(c: char): char {
    if IsAsciiUpper(c) then (c as int + 32) as char else c
  }

  /** String.ToUpperInvariant, restricted to the ASCII letters. */
  function ToUpper(s: string): string {
    seq(|s|, i requires 0 <= i < |s| => UpperChar(s[i]))
  }

  /** String.ToLowerInvariant, restricted to the ASCII letters. */
  function ToLower(s: string): string {
    seq(|s|, i requires 0 <= i < |s| => LowerChar(s[i]))
  }

  /** Two characters are the same letter up to ASCII case, or the same character. */
  predicate SameIgnoringCase(c: char, d: char) {
    c == d
    || (IsAsciiLower(c) && d as int == c as int - 32)
    || (IsAsciiUpper(c) && d as int == c as int + 32)
  }

  predicate EqualIgnoringCase(s: string, t: string) {
    |s| == |t| && forall i :: 0 <= i < |s| ==> SameIgnoringCase(s[i], t[i])
  }

  lemma ToUpperPreserves(s: string)
    ensures |ToUpper(s)| == |s|
    ensures forall i :: 0 <= i < |s| ==> !IsAsciiLower(ToUpper(s)[i])
    ensures forall i :: 0 <= i < |s| ==> SameIgnoringCase(s[i], ToUpper(s)[i])
  {
  }

  lemma ToLowerPreserves(s: string)
    ensures |ToLower(s)| == |s|
    ensures forall i :: 0 <= i < |s| ==> !IsAsciiUpper(ToLower(s)[i])
    ensures forall i :: 0 <= i < |s| ==> SameIgnoringCase(s[i], ToLower(s)[i])
  {
  }

  /** Mapping to one case forgets the case the string had before. */
  lemma CaseMappingAbsorbs(s: string)
    ensures ToUpper(ToLower(s)) == ToUpper(s)
    ensures ToLower(ToUpper(s)) == ToLower(s)
    ensures ToUpper(ToUpper(s)) == ToUpper(s)
    ensures ToLower(ToLower(s)) == ToLower(s)
  {
  }

  lemma SameIgnoringCaseViaUpper(c: char, d: char)
    ensures SameIgnoringCase(c, d) <==> UpperChar(c) == UpperChar(d)
  {
  }

  /** Mapping both strings to upper case and mapping both to lower case decide
      equality alike, and both decide equality up to ASCII case. */
  lemma {:induction false} CaseInsensitiveEquality(s: string, t: string)
    ensures ToUpper(s) == ToUpper(t) <==> EqualIgnoringCase(s, t)
    ensures ToLower(s) == ToLower(t) <==> EqualIgnoringCase(s, t)
  {
    if ToUpper(s) == ToUpper(t) {
      forall i | 0 <= i < |s| ensures SameIgnoringCase(s[i], t[i]) {
        assert ToUpper(s)[i] == ToUpper(t)[i];
        SameIgnoringCaseViaUpper(s[i], t[i]);
      }
    }
    if ToLower(s) == ToLower(t) {
      forall i | 0 <= i < |s| ensures SameIgnoringCase(s[i], t[i]) {
        assert ToLower(s)[i] == ToLower(t)[i];
      }
    }
    if EqualIgnoringCase(s, t) {
      forall i | 0 <= i < |s| ensures ToUpper(s)[i] == ToUpper(t)[i] && ToLower(s)[i] == ToLower(t)[i] {
        SameIgnoringCaseViaUpper(s[i], t[i]);
      }
    }
  }
}
