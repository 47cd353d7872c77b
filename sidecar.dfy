/**
 * Sidecar checksum files: finding the one that belongs to a selected file and
 * reading the expected checksum out of it.
 *
 * A sidecar is a text file of records, one per line, each two tokens
 * separated by white space. An SFV file puts the file name first and the
 * checksum second; an MD5, SHA1 or SHA256 file puts the checksum first.
 */
module Sidecar {
  import opened Wrappers
  import opened Text
  import opened Paths

  /** The four sidecar formats the tool looks for. */
  datatype Kind = Sfv | Md5 | Sha1 | Sha256

  /** The extension a sidecar of each kind carries. */
  function Extension(kind: Kind): (ext: string)
    ensures ext != [] && NoSeparator(ext) && NoDot(ext)
  {
    match kind
    case Sfv => "sfv"
    case Md5 => "md5"
    case Sha1 => "sha1"
    case Sha256 => "sha256"
  }

  /** Which of a record's two tokens names the file; the other is the checksum. */
  datatype Layout = NameFirst | ChecksumFirst

  function LayoutOf(kind: Kind): Layout {
    if kind == Sfv then NameFirst else ChecksumFirst
  }

  function NameIndex(layout: Layout): nat {
    if layout == NameFirst then 0 else 1
  }

  function ChecksumIndex(layout: Layout): nat {
    if layout == NameFirst then 1 else 0
  }

  /** The error raised when no record of a sidecar names the file. */
  datatype NotFound = NotFound(searchString: string, hashFilename: string)

  /** The text the not-found exception is built from: the search string,
      then the sidecar's path. */
  function Message(e: NotFound): (m: string)
    ensures |m| == |e.searchString| + |" was not found within "| + |e.hashFilename|
    ensures m[..|e.searchString|] == e.searchString
    ensures m[|e.searchString|..|m| - |e.hashFilename|] == " was not found within "
    ensures m[|m| - |e.hashFilename|..] == e.hashFilename
  {
    e.searchString + " was not found within " + e.hashFilename
  }

  /** The text of an error identifies a search and a sidecar when it begins
      with the search string and ends with the sidecar's path. */
  predicate Identifies(m: string, search: string, path: string) {
    search <= m && |path| <= |m| && m[|m| - |path|..] == path
  }

  /** The name the records of a sidecar are searched for: the sidecar's own
      file name without its extension. */
  function SearchString(hashFilename: string): string {
    FileNameWithoutExtension(hashFilename)
  }

  /** A line is a record for the file when it splits into exactly two tokens
      and its name token contains the search string. */
  predicate Qualifies(line: string, search: string, layout: Layout) {
    var groups := Tokens(line);
    |groups| == 2 && Contains(groups[NameIndex(layout)], search)
  }

  function ChecksumOf(line: string, layout: Layout): string
    requires |Tokens(line)| == 2
  {
    Tokens(line)[ChecksumIndex(layout)]
  }

  /** Line i is a record for the file and no line before it is. */
  predicate IsFirstMatch(lines: seq<string>, search: string, layout: Layout, i: int) {
    && 0 <= i < |lines|
    && Qualifies(lines[i], search, layout)
    && forall j :: 0 <= j < i ==> !Qualifies(lines[j], search, layout)
  }

  /** The checksum of the first record for the file, if any. */
  function FirstMatch(lines: seq<string>, search: string, layout: Layout): Option<string> {
    if lines == [] then None
    else if Qualifies(lines[0], search, layout) then Some(ChecksumOf(lines[0], layout))
    else FirstMatch(lines[1..], search, layout)
  }

  /** What reading a sidecar yields: the checksum of its first record for the
      file, or the not-found error. */
  function Resolve(layout: Layout, hashFilename: string, lines: seq<string>): Result<string, NotFound> {
    var search := SearchString(hashFilename);
    match FirstMatch(lines, search, layout)
    case Some(checksum) => Success(checksum)
    case None => Failure(NotFound(search, hashFilename))
  }

  /** Reads the lines of a sidecar one at a time, stopping at the first record
      for the file; the SFV reader (NameFirst) and the hash-file reader
      (ChecksumFirst) differ only in which token they take for the name. */
  method ProcessChecksumFile(layout: Layout, hashFilename: string, lines: seq<string>)
    returns (r: Result<string, NotFound>)
    ensures r == Resolve(layout, hashFilename, lines)
  {
    var searchString := SearchString(hashFilename);
    var found := ScanLines(layout, searchString, lines);
    match found
    case Some(checksum) =>
      r := Success(checksum);
    case None =>
      r := Failure(NotFound(searchString, hashFilename));
  }

  /** The loop of the reader: the checksum token of the first line that splits
      into two tokens and whose name token contains the search string. */
  method ScanLines(layout: Layout, searchString: string, lines: seq<string>) returns (found: Option<string>)
    ensures found == FirstMatch(lines, searchString, layout)
  {
    var i := 0;
    while i < |lines|
      invariant 0 <= i <= |lines|
      invariant FirstMatch(lines[i..], searchString, layout) == FirstMatch(lines, searchString, layout)
    {
      FirstMatchAt(lines, i, searchString, layout);
      var groups := Tokens(lines[i]);
      if |groups| == 2 {
        if Contains(groups[NameIndex(layout)], searchString) {
          return Some(groups[ChecksumIndex(layout)]);
        }
      }
      i := i + 1;
    }
    return None;
  }

  lemma FirstMatchAt(lines: seq<string>, i: int, search: string, layout: Layout)
    requires 0 <= i < |lines|
    ensures FirstMatch(lines[i..], search, layout)
            == if Qualifies(lines[i], search, layout) then Some(ChecksumOf(lines[i], layout))
               else FirstMatch(lines[i + 1..], search, layout)
  {
    assert lines[i..][0] == lines[i] && lines[i..][1..] == lines[i + 1..];
  }

  lemma FirstMatchStep(lines: seq<string>, search: string, layout: Layout)
    requires lines != []
    ensures FirstMatch(lines, search, layout)
            == if Qualifies(lines[0], search, layout) then Some(ChecksumOf(lines[0], layout))
               else FirstMatch(lines[1..], search, layout)
  {
  }

  // ---------------------------------------------------------------------------
  // Properties of the resolver
  // ---------------------------------------------------------------------------

  /** The first record for the file is the one whose checksum is returned;
      lines before it that are not records for the file, whatever their token
      count, are passed over. */
  lemma {:induction false} FirstMatchFinds(lines: seq<string>, search: string, layout: Layout, i: int)
    requires IsFirstMatch(lines, search, layout, i)
    ensures FirstMatch(lines, search, layout) == Some(ChecksumOf(lines[i], layout))
    decreases i
  {
    FirstMatchStep(lines, search, layout);
    if i > 0 {
      var rest := lines[1..];
      assert forall j :: 0 <= j < i - 1 ==> rest[j] == lines[j + 1];
      assert rest[i - 1] == lines[i];
      FirstMatchFinds(rest, search, layout, i - 1);
    }
  }

  /** A checksum the resolver returns comes from the first record for the file. */
  lemma {:induction false} FirstMatchSound(lines: seq<string>, search: string, layout: Layout)
    requires FirstMatch(lines, search, layout).Some?
    ensures exists i :: IsFirstMatch(lines, search, layout, i)
                        && FirstMatch(lines, search, layout).value == ChecksumOf(lines[i], layout)
  {
    if Qualifies(lines[0], search, layout) {
      assert IsFirstMatch(lines, search, layout, 0);
    } else {
      FirstMatchSound(lines[1..], search, layout);
      var i :| IsFirstMatch(lines[1..], search, layout, i)
               && FirstMatch(lines[1..], search, layout).value == ChecksumOf(lines[1..][i], layout);
      assert lines[1..][i] == lines[i + 1];
      assert IsFirstMatch(lines, search, layout, i + 1) by {
        forall j | 0 <= j < i + 1 ensures !Qualifies(lines[j], search, layout) {
          if j > 0 { assert lines[j] == lines[1..][j - 1]; }
        }
      }
    }
  }

  /** The resolver finds nothing exactly when no line is a record for the file. */
  lemma {:induction false} FirstMatchNone(lines: seq<string>, search: string, layout: Layout)
    ensures FirstMatch(lines, search, layout).None?
            <==> forall i :: 0 <= i < |lines| ==> !Qualifies(lines[i], search, layout)
  {
    if lines != [] {
      FirstMatchNone(lines[1..], search, layout);
      assert forall i :: 1 <= i < |lines| ==> lines[i] == lines[1..][i - 1];
    }
  }

  /** A line that does not split into exactly two tokens is passed over, not
      treated as an error: the search goes on with the next line. */
  lemma MalformedLineSkipped(line: string, lines: seq<string>, search: string, layout: Layout)
    requires |Tokens(line)| != 2
    ensures !Qualifies(line, search, layout)
    ensures FirstMatch([line] + lines, search, layout) == FirstMatch(lines, search, layout)
  {
    assert ([line] + lines)[1..] == lines;
  }

  /** Reading a sidecar whose first line is malformed gives what reading the
      remaining lines gives. */
  lemma ResolveSkipsMalformed(layout: Layout, hashFilename: string, line: string, lines: seq<string>)
    requires |Tokens(line)| != 2
    ensures Resolve(layout, hashFilename, [line] + lines) == Resolve(layout, hashFilename, lines)
  {
    MalformedLineSkipped(line, lines, SearchString(hashFilename), layout);
  }

  /** The first record wins: lines after it never change the result, and lines
      after a sidecar with no record are searched as if on their own. */
  lemma {:induction false} FirstMatchAppend(lines: seq<string>, more: seq<string>, search: string, layout: Layout)
    ensures FirstMatch(lines, search, layout).Some? ==>
              FirstMatch(lines + more, search, layout) == FirstMatch(lines, search, layout)
    ensures FirstMatch(lines, search, layout).None? ==>
              FirstMatch(lines + more, search, layout) == FirstMatch(more, search, layout)
  {
    if lines == [] {
      assert lines + more == more;
    } else {
      assert (lines + more)[0] == lines[0];
      assert (lines + more)[1..] == lines[1..] + more;
      FirstMatchAppend(lines[1..], more, search, layout);
    }
  }

  /** Reading a sidecar fails, with the search string and the sidecar's path,
      exactly when none of its lines is a record for the file, and the text of
      the error identifies both; otherwise it returns the checksum token of
      the first such line. */
  lemma ResolveSpec(layout: Layout, hashFilename: string, lines: seq<string>)
    ensures Resolve(layout, hashFilename, lines).Failure?
            <==> forall i :: 0 <= i < |lines| ==> !Qualifies(lines[i], SearchString(hashFilename), layout)
    ensures Resolve(layout, hashFilename, lines).Failure? ==>
              Resolve(layout, hashFilename, lines).error == NotFound(SearchString(hashFilename), hashFilename)
    ensures Resolve(layout, hashFilename, lines).Failure? ==>
              Identifies(Message(Resolve(layout, hashFilename, lines).error), SearchString(hashFilename), hashFilename)
    ensures Resolve(layout, hashFilename, lines).Success? ==>
              exists i :: IsFirstMatch(lines, SearchString(hashFilename), layout, i)
                          && Resolve(layout, hashFilename, lines).value == ChecksumOf(lines[i], layout)
  {
    FirstMatchNone(lines, SearchString(hashFilename), layout);
    if FirstMatch(lines, SearchString(hashFilename), layout).Some? {
      FirstMatchSound(lines, SearchString(hashFilename), layout);
    }
  }

  /** The white space around the two fields of a record: before the first
      (lead), between the two (gap) and after the second (trail). */
  datatype Spacing = Spacing(lead: string, gap: string, trail: string)

  /** Spacing made of white space only, with at least one character between
      the fields. */
  predicate Blank(sp: Spacing) {
    AllWhiteSpace(sp.lead) && IsGap(sp.gap) && AllWhiteSpace(sp.trail)
  }

  /** One space between the fields, as SFV tools write them. */
  const SingleSpace := Spacing("", " ", "")

  /** Two spaces between the fields, as md5sum and sha1sum write them. */
  const DoubleSpace := Spacing("", "  ", "")

  /** The line written for one file, with the given spacing. */
  function FormatRecord(layout: Layout, name: string, checksum: string, sp: Spacing): string {
    if layout == NameFirst then sp.lead + name + sp.gap + checksum + sp.trail
    else sp.lead + checksum + sp.gap + name + sp.trail
  }

  /** A record for a name of one or more words splits into the words and the
      checksum, in the layout's order, whatever white space surrounds them. */
  lemma RecordTokens(layout: Layout, words: seq<string>, checksum: string, sp: Spacing)
    requires Blank(sp)
    requires words != [] && forall k :: 0 <= k < |words| ==> IsToken(words[k])
    requires IsToken(checksum)
    ensures Tokens(FormatRecord(layout, JoinSpaced(words), checksum, sp))
            == if layout == NameFirst then words + [checksum] else [checksum] + words
  {
    if layout == NameFirst {
      NameFirstTokens(words, checksum, sp);
    } else {
      ChecksumFirstTokens(words, checksum, sp);
    }
  }

  lemma NameFirstTokens(words: seq<string>, checksum: string, sp: Spacing)
    requires Blank(sp)
    requires words != [] && forall k :: 0 <= k < |words| ==> IsToken(words[k])
    requires IsToken(checksum)
    ensures Tokens(sp.lead + JoinSpaced(words) + sp.gap + checksum + sp.trail) == words + [checksum]
  {
    JoinOne(checksum);
    TokensOfLine(sp.lead, words, JoinSpaced(words), sp.gap, [checksum], checksum, sp.trail);
  }

  lemma ChecksumFirstTokens(words: seq<string>, checksum: string, sp: Spacing)
    requires Blank(sp)
    requires words != [] && forall k :: 0 <= k < |words| ==> IsToken(words[k])
    requires IsToken(checksum)
    ensures Tokens(sp.lead + checksum + sp.gap + JoinSpaced(words) + sp.trail) == [checksum] + words
  {
    JoinOne(checksum);
    TokensOfLine(sp.lead, [checksum], checksum, sp.gap, words, JoinSpaced(words), sp.trail);
  }

  /** A line written for a file, with any white space around and between its
      fields, split again, names that file and carries the checksum written
      into it. */
  lemma RecordQualifies(layout: Layout, name: string, checksum: string, search: string, sp: Spacing)
    requires Blank(sp)
    requires name != [] && NoWhiteSpace(name) && checksum != [] && NoWhiteSpace(checksum)
    requires Contains(name, search)
    ensures Qualifies(FormatRecord(layout, name, checksum, sp), search, layout)
    ensures ChecksumOf(FormatRecord(layout, name, checksum, sp), layout) == checksum
  {
    assert JoinSpaced([name]) == name;
    RecordTokens(layout, [name], checksum, sp);
  }

  /** A sidecar whose first record for the file is a line written for that
      file gives back the checksum written into it. */
  lemma ResolveRecord(layout: Layout, hashFilename: string, before: seq<string>, name: string,
                      checksum: string, after: seq<string>, sp: Spacing)
    requires Blank(sp)
    requires name != [] && NoWhiteSpace(name) && checksum != [] && NoWhiteSpace(checksum)
    requires Contains(name, SearchString(hashFilename))
    requires forall j :: 0 <= j < |before| ==> !Qualifies(before[j], SearchString(hashFilename), layout)
    ensures Resolve(layout, hashFilename, before + [FormatRecord(layout, name, checksum, sp)] + after)
            == Success(checksum)
  {
    var search := SearchString(hashFilename);
    var line := FormatRecord(layout, name, checksum, sp);
    var lines := before + [line] + after;
    RecordQualifies(layout, name, checksum, search, sp);
    assert lines[|before|] == line;
    assert forall j :: 0 <= j < |before| ==> lines[j] == before[j];
    FirstMatchFinds(lines, search, layout, |before|);
  }

  /** A sidecar none of whose lines splits into exactly two tokens names no
      file: reading it raises the not-found error. */
  lemma ResolveAllMalformed(layout: Layout, hashFilename: string, lines: seq<string>)
    requires forall j :: 0 <= j < |lines| ==> |Tokens(lines[j])| != 2
    ensures Resolve(layout, hashFilename, lines) == Failure(NotFound(SearchString(hashFilename), hashFilename))
  {
    var search := SearchString(hashFilename);
    forall j | 0 <= j < |lines|
      ensures !Qualifies(lines[j], search, layout)
    {
    }
    FirstMatchNone(lines, search, layout);
  }

  /** A search string with white space in it is contained in no token, so
      no line is a record for it and reading any sidecar raises the
      not-found error. */
  lemma SpacedSearchNotFound(layout: Layout, hashFilename: string, lines: seq<string>)
    requires !NoWhiteSpace(SearchString(hashFilename))
    ensures Resolve(layout, hashFilename, lines) == Failure(NotFound(SearchString(hashFilename), hashFilename))
  {
    var search := SearchString(hashFilename);
    forall j | 0 <= j < |lines|
      ensures !Qualifies(lines[j], search, layout)
    {
      var groups := Tokens(lines[j]);
      if |groups| == 2 {
        WhiteSpaceNotContained(groups[NameIndex(layout)], search);
      }
    }
    FirstMatchNone(lines, search, layout);
  }

  /** A file name with white space in it, such as `My Photo.jpg`, written into
      a record makes the record split into more than two tokens, so the record
      never names the file. */
  lemma SpacedNameRecordSkipped(layout: Layout, words: seq<string>, checksum: string, search: string, sp: Spacing)
    requires Blank(sp)
    requires |words| >= 2 && forall k :: 0 <= k < |words| ==> IsToken(words[k])
    requires IsToken(checksum)
    ensures Tokens(FormatRecord(layout, JoinSpaced(words), checksum, sp))
            == if layout == NameFirst then words + [checksum] else [checksum] + words
    ensures |Tokens(FormatRecord(layout, JoinSpaced(words), checksum, sp))| == |words| + 1
    ensures !Qualifies(FormatRecord(layout, JoinSpaced(words), checksum, sp), search, layout)
  {
    var line := FormatRecord(layout, JoinSpaced(words), checksum, sp);
    RecordTokens(layout, words, checksum, sp);
    MalformedLineSkipped(line, [], search, layout);
  }

  /** A sidecar holding only the record of a file whose name has white space
      in it raises the not-found error instead of yielding the checksum. */
  lemma SpacedNameNotFound(layout: Layout, hashFilename: string, words: seq<string>, checksum: string, sp: Spacing)
    requires Blank(sp)
    requires |words| >= 2 && forall k :: 0 <= k < |words| ==> IsToken(words[k])
    requires IsToken(checksum)
    ensures Resolve(layout, hashFilename, [FormatRecord(layout, JoinSpaced(words), checksum, sp)])
            == Failure(NotFound(SearchString(hashFilename), hashFilename))
  {
    SpacedNameMalformed(layout, words, checksum, sp);
    ResolveAllMalformed(layout, hashFilename, [FormatRecord(layout, JoinSpaced(words), checksum, sp)]);
  }

  lemma SpacedNameMalformed(layout: Layout, words: seq<string>, checksum: string, sp: Spacing)
    requires Blank(sp)
    requires |words| >= 2 && forall k :: 0 <= k < |words| ==> IsToken(words[k])
    requires IsToken(checksum)
    ensures |Tokens(FormatRecord(layout, JoinSpaced(words), checksum, sp))| != 2
  {
    SpacedNameRecordSkipped(layout, words, checksum, [], sp);
  }

  // ---------------------------------------------------------------------------
  // Discovery of the sidecar of a selected file
  // ---------------------------------------------------------------------------

  /** The files the tool can see: a path exists when it is a key, and its
      value is the file's lines. */
  datatype FileSystem = FileSystem(files: map<string, seq<string>>)

  predicate Exists(fs: FileSystem, path: string) {
    path in fs.files
  }

  function SidecarPath(base: string, kind: Kind): string {
    base + "." + Extension(kind)
  }

  /** The sidecar of a kind for the selected file: the one named after the
      whole file name (photo.jpg.md5) when it exists, else the one named after
      the name without extension (photo.md5) when that exists, else none. */
  function Discover(fs: FileSystem, fileExt: string, kind: Kind): (r: Option<string>)
    ensures r.Some? <==> Exists(fs, SidecarPath(fileExt, kind)) || Exists(fs, SidecarPath(StripExtension(fileExt), kind))
    ensures r.Some? ==> Exists(fs, r.value)
    ensures Exists(fs, SidecarPath(fileExt, kind)) ==> r == Some(SidecarPath(fileExt, kind))
    ensures !Exists(fs, SidecarPath(fileExt, kind)) && r.Some? ==> r.value == SidecarPath(StripExtension(fileExt), kind)
  {
    if Exists(fs, SidecarPath(fileExt, kind)) then Some(SidecarPath(fileExt, kind))
    else if Exists(fs, SidecarPath(StripExtension(fileExt), kind)) then Some(SidecarPath(StripExtension(fileExt), kind))
    else None
  }

  /** The discovered sidecar is searched for the whole file name when it is
      photo.jpg.md5, and for the name without extension when it is photo.md5. */
  lemma DiscoveredSearchString(fs: FileSystem, fileExt: string, kind: Kind)
    requires Discover(fs, fileExt, kind).Some?
    ensures SearchString(Discover(fs, fileExt, kind).value)
            == if Exists(fs, SidecarPath(fileExt, kind)) then FileName(fileExt) else FileNameWithoutExtension(fileExt)
  {
    if Exists(fs, SidecarPath(fileExt, kind)) {
      StemOfAddedExtension(fileExt, Extension(kind));
    } else {
      StemOfReplacedExtension(fileExt, Extension(kind));
    }
  }
}
