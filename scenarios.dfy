/**
 * Concrete sidecars and comparisons: the records a checksum tool writes for
 * README.md, read back by the resolver, and a comparison text typed in
 * upper case checked against a result text in lower case.
 */
module Scenarios {
  import opened Wrappers
  import opened Text
  import opened Paths
  import opened Sidecar
  import opened Compare

  lemma PlainTokens()
    ensures NoWhiteSpace("README.md") && NoWhiteSpace("A1B2C3D4")
    ensures NoWhiteSpace("3b8e92f0c1") && NoWhiteSpace("extra")
  {
  }

  lemma ReadmeContainsStem()
    ensures Contains("README.md", "README")
  {
  }

  lemma ReadmeRecords()
    ensures FormatRecord(NameFirst, "README.md", "A1B2C3D4", SingleSpace) == "README.md A1B2C3D4"
    ensures FormatRecord(ChecksumFirst, "README.md", "3b8e92f0c1", DoubleSpace) == "3b8e92f0c1  README.md"
    ensures Blank(SingleSpace) && Blank(DoubleSpace)
  {
  }

  /** The path C:\data\README.sfv is the directory, the stem and the extension joined. */
  lemma SfvPath(p: string)
    requires p == "C:\\data\\README.sfv"
    ensures p == "C:\\data" + "\\" + "README" + "." + "sfv"
  {}

  /** The sidecar C:\data\README.sfv is searched for README. */
  lemma ReadmeSfvSearchString()
    ensures SearchString("C:\\data\\README.sfv") == "README"
  {
    SfvPath("C:\\data\\README.sfv");
    StemUnder("C:\\data", "README", "sfv");
  }

  /** The path C:\data\README.md5 is the directory, the stem and the extension joined. */
  lemma Md5Path(p: string)
    requires p == "C:\\data\\README.md5"
    ensures p == "C:\\data" + "\\" + "README" + "." + "md5"
  {}

  /** The sidecar C:\data\README.md5 is searched for README. */
  lemma ReadmeMd5SearchString()
    ensures SearchString("C:\\data\\README.md5") == "README"
  {
    Md5Path("C:\\data\\README.md5");
    StemUnder("C:\\data", "README", "md5");
  }

  /** An SFV line gives the checksum after the file name. */
  lemma SfvScenario()
    ensures Resolve(NameFirst, "C:\\data\\README.sfv", ["README.md A1B2C3D4"]) == Success("A1B2C3D4")
  {
    PlainTokens();
    ReadmeContainsStem();
    ReadmeRecords();
    ReadmeSfvSearchString();
    ResolveRecord(NameFirst, "C:\\data\\README.sfv", [], "README.md", "A1B2C3D4", [], SingleSpace);
    assert [] + ["README.md A1B2C3D4"] + [] == ["README.md A1B2C3D4"];
  }

  /** An MD5 line as md5sum writes it, with two spaces, gives the checksum
      before the file name. */
  lemma Md5Scenario()
    ensures Resolve(ChecksumFirst, "C:\\data\\README.md5", ["3b8e92f0c1  README.md"]) == Success("3b8e92f0c1")
  {
    PlainTokens();
    ReadmeContainsStem();
    ReadmeRecords();
    ReadmeMd5SearchString();
    ResolveRecord(ChecksumFirst, "C:\\data\\README.md5", [], "README.md", "3b8e92f0c1", [], DoubleSpace);
    assert [] + ["3b8e92f0c1  README.md"] + [] == ["3b8e92f0c1  README.md"];
  }

  lemma ThreeTokenSplit()
    ensures Tokens("README.md A1B2C3D4 extra") == ["README.md", "A1B2C3D4", "extra"]
  {
    PlainTokens();
    assert JoinSpaced(["A1B2C3D4", "extra"]) == "A1B2C3D4 extra";
    assert JoinSpaced(["README.md", "A1B2C3D4", "extra"]) == "README.md A1B2C3D4 extra";
    TokensOfJoinSpaced(["README.md", "A1B2C3D4", "extra"]);
  }

  /** A three-token line that names the file is passed over and the record
      after it is found. */
  lemma MalformedThenRecordScenario()
    ensures Resolve(NameFirst, "C:\\data\\README.sfv", ["README.md A1B2C3D4 extra", "README.md A1B2C3D4"])
            == Success("A1B2C3D4")
  {
    ThreeTokenSplit();
    SkipFirstOfTwo(NameFirst, "C:\\data\\README.sfv", "README.md A1B2C3D4 extra", "README.md A1B2C3D4");
    SfvScenario();
  }

  /** Of two lines, a first one that does not split into two tokens is passed over. */
  lemma SkipFirstOfTwo(layout: Layout, hashFilename: string, bad: string, good: string)
    requires |Tokens(bad)| != 2
    ensures Resolve(layout, hashFilename, [bad, good]) == Resolve(layout, hashFilename, [good])
  {
    var lines := [bad, good];
    HeadTail(lines);
    assert lines[1..] == [good];
    ResolveSkipsMalformed(layout, hashFilename, bad, lines[1..]);
  }

  /** A record for another file does not name README. */
  lemma OtherRecordIgnored()
    ensures !Qualifies("OTHER.txt 00000000", "README", NameFirst)
  {
    OtherRecordSplit();
    OtherNameLacksReadme();
  }

  lemma OtherRecordSplit()
    ensures Tokens("OTHER.txt 00000000") == ["OTHER.txt", "00000000"]
  {
    assert NoWhiteSpace("OTHER.txt") && NoWhiteSpace("00000000");
    assert JoinSpaced(["OTHER.txt", "00000000"]) == "OTHER.txt 00000000";
    TokensOfJoinSpaced(["OTHER.txt", "00000000"]);
  }

  lemma OtherNameLacksReadme()
    ensures !Contains("OTHER.txt", "README")
  {
    var hay := "OTHER.txt";
    ContainsIffOccurs(hay, "README");
    forall i | 0 <= i <= |hay| - 6 ensures !OccursAt(hay, "README", i) {
      assert hay[i] != 'R';
      assert hay[i..i + 6][0] == hay[i];
    }
  }

  /** A sidecar holding only a three-token line and a record for another file
      raises the not-found error for README. */
  lemma NoRecordScenario()
    ensures Resolve(NameFirst, "C:\\data\\README.sfv", ["README.md A1B2C3D4 extra", "OTHER.txt 00000000"])
            == Failure(NotFound("README", "C:\\data\\README.sfv"))
  {
    var lines := ["README.md A1B2C3D4 extra", "OTHER.txt 00000000"];
    ThreeTokenSplit();
    OtherRecordIgnored();
    ReadmeSfvSearchString();
    assert !Qualifies(lines[0], "README", NameFirst);
    assert !Qualifies(lines[1], "README", NameFirst);
    FirstMatchNone(lines, "README", NameFirst);
  }

  /** The two texts of the comparison below hold no white space and agree up
      to case. */
  lemma MatchTexts()
    ensures NoWhiteSpace("CBF43926") && NoWhiteSpace("cbf43926")
    ensures EqualIgnoringCase("CBF43926", "cbf43926")
  {
  }

  /** The text CBF43926 typed into a comparison box turns the label green
      against cbf43926 in the result box, with the upper-case toggle on. */
  lemma MatchScenario()
    ensures Classify("CBF43926", "cbf43926", true) == Green
  {
    var c, r := "CBF43926", "cbf43926";
    MatchTexts();
    TrimNoWhiteSpace(c);
    TrimNoWhiteSpace(r);
    assert !AllWhiteSpace(c) by { assert !IsWhiteSpace(c[0]); }
    assert !AllWhiteSpace(r) by { assert !IsWhiteSpace(r[0]); }
    ClassifySpec(c, r, true);
  }
}
